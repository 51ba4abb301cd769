/** A second pass of the redactor over its own output. */
module PcapSecondPass {
  import opened Octets
  import opened ByteStrings
  import opened PcapRedact
  import opened PcapProofs

  /** A second pass over the frame meets the same bodies and writes the same bytes. */
  predicate Unchanged(d: Bytes) {
    Bodies(RedactData(d)) == Bodies(d) && RedactData(RedactData(d)) == RedactData(d)
  }

  predicate UnchangedAt(b: Bytes, r: Region)
    requires r.from + r.size <= |b|
  {
    Unchanged(Slice(b, r))
  }

  ghost predicate AllUnchanged(b: Bytes) {
    forall i :: 0 <= i < |PacketsOf(b)| ==>
      PacketsOf(b)[i].from + PacketsOf(b)[i].size <= |b| && UnchangedAt(b, PacketsOf(b)[i])
  }

  /** In every frame with a login body the checksum field lies before the payload. */
  ghost predicate FieldsBeforePayloads(b: Bytes) {
    forall i :: 0 <= i < |PacketsOf(b)| ==> FieldBeforePayloadAt(b, PacketsOf(b)[i])
  }

  predicate FieldBeforePayloadAt(b: Bytes, r: Region) {
    r.from + r.size <= |b| && Bodies(Slice(b, r)) != [] ==> FieldBeforePayload(LayoutOf(Slice(b, r)).value)
  }

  /** Every touched frame is settled by its new checksum. */
  ghost predicate AllSettled(b: Bytes) {
    forall i :: 0 <= i < |PacketsOf(b)| ==> SettledAt(b, PacketsOf(b)[i])
  }

  predicate SettledAt(b: Bytes, r: Region) {
    r.from + r.size <= |b| ==> SumSettled(Slice(b, r))
  }

  /** Rewriting keeps the block headers, so a second pass walks the same blocks and packets. */
  lemma SameFirstBlock(b: Bytes, e: Bytes)
    requires HasBlock(b) && |e| == |b| && !PacketOf(b).ReadFails? && !PacketOf(b).TooLong?
    requires e[..ReadU32(b, 4)] == FirstBlock(b)
    ensures HasBlock(e) && ReadU32(e, 4) == ReadU32(b, 4)
    ensures PacketOf(b).DataAt? ==> PacketOf(e) == PacketOf(b)
    ensures PacketOf(b).NoPacket? ==> PacketOf(e) == NoPacket
  {
    hide FromLe32, RedactData;
    var len := ReadU32(b, 4);
    var f := FirstBlock(b);
    if PacketOf(b).DataAt? {
      PacketInBlock(b);
      forall k | 0 <= k < PacketOf(b).from ensures f[k] == b[k] {}
    }
    assert forall k :: 0 <= k < 12 ==> e[k] == e[..len][k] && e[..len][k] == b[k];
    assert e[0..4] == b[0..4] && e[4..8] == b[4..8] && e[8..12] == b[8..12];
    if PacketOf(b).DataAt? && PacketOf(b).from == 28 {
      assert forall k :: 0 <= k < 24 ==> e[k] == e[..len][k] && e[..len][k] == b[k];
      assert e[20..24] == b[20..24];
    }
  }

  lemma FirstBlockTwice(b: Bytes, e: Bytes)
    requires HasBlock(b) && HasBlock(e) && ReadU32(e, 4) == ReadU32(b, 4)
    requires e[..ReadU32(b, 4)] == FirstBlock(b)
    requires PacketOf(b).DataAt? && PacketOf(e) == PacketOf(b)
    requires PacketOf(b).from + PacketOf(b).size <= ReadU32(b, 4)
    requires Unchanged(b[PacketOf(b).from..PacketOf(b).from + PacketOf(b).size])
    ensures FirstBlock(e) == FirstBlock(b)
    ensures var from, size := PacketOf(b).from, PacketOf(b).size;
            Bodies(e[from..from + size]) == Bodies(b[from..from + size])
  {
    hide ReadU32, PacketOf, RedactData, Bodies, LayoutOf, ReplaceAt;
    PacketInBlock(b);
    PacketInBlock(e);
    var len := ReadU32(b, 4);
    var from, size := PacketOf(b).from, PacketOf(b).size;
    var d := b[from..from + size];
    PrefixSlice(e, len, from, size);
    ReplacedSlice(b[..len], from, RedactData(d));
    ReplaceItself(e[..len], from, size);
  }

  lemma PrefixSlice(e: Bytes, len: nat, from: nat, size: nat)
    requires from + size <= len <= |e|
    ensures e[from..from + size] == e[..len][from..from + size]
  {
  }

  lemma ReplacedSlice(x: Bytes, from: nat, d: Bytes)
    requires from + |d| <= |x|
    ensures ReplaceAt(x, from, d)[from..from + |d|] == d
  {
  }

  lemma ReplaceItself(x: Bytes, from: nat, size: nat)
    requires from + size <= |x|
    ensures ReplaceAt(x, from, x[from..from + size]) == x
  {
  }

  lemma AllUnchangedRest(b: Bytes)
    requires AllUnchanged(b) && HasBlock(b) && (PacketOf(b).NoPacket? || PacketOf(b).DataAt?)
    ensures AllUnchanged(b[ReadU32(b, 4)..])
    ensures PacketOf(b).DataAt? ==>
              PacketOf(b).from + PacketOf(b).size <= |b|
              && Unchanged(b[PacketOf(b).from..PacketOf(b).from + PacketOf(b).size])
  {
    hide ReadU32, PacketOf, PacketsOf, Unchanged, Slice;
    var len := ReadU32(b, 4);
    var rest := b[len..];
    PacketsUnfold(b);
    PacketsOrdered(rest);
    PacketsOrdered(b);
    forall i | 0 <= i < |PacketsOf(rest)| ensures UnchangedAt(rest, PacketsOf(rest)[i]) {
      var r := PacketsOf(rest)[i];
      var n := if PacketOf(b).NoPacket? then i else i + 1;
      assert UnchangedAt(b, PacketsOf(b)[n]);
      SliceShift(b, r, len);
    }
    if PacketOf(b).DataAt? {
      PacketInBlock(b);
      WholeSlice(b, PacketOf(b).from, PacketOf(b).size);
      assert UnchangedAt(b, PacketsOf(b)[0]);
    }
  }

  /** If a second pass changes no frame, it gives the same file and the same counters. */
  lemma {:induction false} SecondPassSame(b: Bytes)
    requires Redacted(b).Some? && AllUnchanged(b)
    ensures Redacted(Redacted(b).value.0) == Redacted(b)
    decreases |b|
  {
    hide ReadU32, PacketOf, RedactData, Bodies, FirstBlock, AllUnchanged, Unchanged;
    if HasBlock(b) && !PacketOf(b).TooLong? {
      var len := ReadU32(b, 4);
      var rest := b[len..];
      var e := Redacted(b).value.0;
      RedactedUnfold(b);
      var tail := Redacted(rest).value.0;
      assert e[..len] == FirstBlock(b) && e[len..] == tail;
      AllUnchangedRest(b);
      SecondPassSame(rest);
      SameFirstBlock(b, e);
      assert Redacted(e[len..]) == Redacted(rest);
      if PacketOf(b).DataAt? {
        PacketInBlock(b);
        FirstBlockTwice(b, e);
      } else {
        SameBlockNoPacket(b, e);
      }
      RedactedFromParts(b);
      RedactedFromParts(e);
    }
  }

  lemma SameBlockNoPacket(b: Bytes, e: Bytes)
    requires HasBlock(b) && HasBlock(e) && ReadU32(e, 4) == ReadU32(b, 4)
    requires e[..ReadU32(b, 4)] == FirstBlock(b) && PacketOf(b).NoPacket? && PacketOf(e).NoPacket?
    ensures FirstBlock(e) == FirstBlock(b)
  {
    hide ReadU32, PacketOf;
  }

  lemma RedactedFromParts(b: Bytes)
    requires HasBlock(b) && (PacketOf(b).NoPacket? || PacketOf(b).DataAt?)
    requires Redacted(b[ReadU32(b, 4)..]).Some?
    ensures PacketOf(b).DataAt? ==> PacketOf(b).from + PacketOf(b).size <= |b|
    ensures var rest := Redacted(b[ReadU32(b, 4)..]).value;
            Redacted(b) == Some((FirstBlock(b) + rest.0,
                                 if PacketOf(b).NoPacket? then rest.1
                                 else Add(CountsOf(Bodies(b[PacketOf(b).from..PacketOf(b).from + PacketOf(b).size])), rest.1)))
  {
    hide ReadU32, RedactData, Bodies, ReplaceAt;
    if PacketOf(b).DataAt? { PacketInBlock(b); }
  }

  /** For every file: a second pass does not fail and meets the same packets at the same places. */
  lemma {:induction false} SecondPassMeetsSamePackets(b: Bytes)
    requires Redacted(b).Some?
    ensures Redacted(Redacted(b).value.0).Some?
    ensures PacketsOf(Redacted(b).value.0) == PacketsOf(b)
    decreases |b|
  {
    hide ReadU32, PacketOf, RedactData, Bodies, FirstBlock;
    if HasBlock(b) && !PacketOf(b).TooLong? {
      var len := ReadU32(b, 4);
      var rest := b[len..];
      var e := Redacted(b).value.0;
      RedactedUnfold(b);
      assert e[..len] == FirstBlock(b) && e[len..] == Redacted(rest).value.0;
      SecondPassMeetsSamePackets(rest);
      SameFirstBlock(b, e);
      RedactedFromParts(e);
      PacketsUnfold(b);
      PacketsUnfold(e);
    }
  }

  /** Redacting a redacted capture gives the same file and the same counters exactly if every touched
      frame is settled; a nonzero IPv4 header length is enough for that. */
  lemma RedactionIdempotent(b: Bytes)
    requires Redacted(b).Some? && FieldsBeforePayloads(b)
    ensures Redacted(Redacted(b).value.0) == Redacted(b) <==> AllSettled(b)
  {
    hide Redacted, PacketsOf, RedactData, SumSettled, FieldBeforePayload, Bodies, LayoutOf, Slice;
    var out := Redacted(b).value.0;
    PacketsOrdered(b);
    if AllSettled(b) {
      forall i | 0 <= i < |PacketsOf(b)| ensures UnchangedAt(b, PacketsOf(b)[i]) {
        RedactDataIdempotent(Slice(b, PacketsOf(b)[i]));
        assert SettledAt(b, PacketsOf(b)[i]) && FieldBeforePayloadAt(b, PacketsOf(b)[i]);
        if Bodies(Slice(b, PacketsOf(b)[i])) == [] { NoBodiesUnchanged(Slice(b, PacketsOf(b)[i])); }
      }
      SecondPassSame(b);
    }
    if Redacted(out) == Redacted(b) {
      SecondPassMeetsSamePackets(b);
      forall i | 0 <= i < |PacketsOf(b)| ensures SettledAt(b, PacketsOf(b)[i]) {
        var d := Slice(b, PacketsOf(b)[i]);
        PacketRewritten(b, i);
        PacketRewritten(out, i);
        assert FieldBeforePayloadAt(b, PacketsOf(b)[i]);
        RedactDataIdempotent(d);
        if Bodies(d) == [] { NoBodiesUnchanged(d); }
      }
    }
  }

  lemma NoBodiesUnchanged(d: Bytes)
    requires Bodies(d) == []
    ensures RedactData(d) == d
  {
  }
}
