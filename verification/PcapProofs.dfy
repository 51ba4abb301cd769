/** What redaction guarantees: frame conditions, zeroed bodies, valid checksums, idempotence. */
module PcapProofs {
  import opened Octets
  import opened ByteStrings
  import opened Checksum
  import opened PcapRedact

  predicate Inside(k: nat, r: Region) { r.from <= k < r.from + r.size }

  ghost predicate InSome(k: nat, rs: seq<Region>) {
    exists i :: 0 <= i < |rs| && Inside(k, rs[i])
  }

  ghost predicate Within(rs: seq<Region>, lo: nat, hi: nat) {
    forall i :: 0 <= i < |rs| ==> lo <= rs[i].from && rs[i].size > 0 && rs[i].from + rs[i].size <= hi
  }

  // ---------------------------------------------------------------- scanning

  lemma {:induction false} ScanWithin(d: Bytes, p: nat, end: nat)
    requires end <= |d|
    ensures Within(Scan(d, p, end), p + 20, end)
    decreases end - p
  {
    hide StartsWithMagic, FrameSize, IsLogin, HeaderLen, BodyLen;
    if p + 20 <= end {
      var h := d[p..p + 20];
      if !StartsWithMagic(h) {
        ScanWithin(d, p + 1, end);
      } else if p + FrameSize(h) <= end {
        ScanWithin(d, p + FrameSize(h), end);
        BodyFits(h);
      }
    }
  }

  lemma BodyFits(h: Bytes)
    requires |h| == 20
    ensures HeaderLen(h) >= 20 && FrameSize(h) == HeaderLen(h) + BodyLen(h)
    ensures IsLogin(h) ==> BodyLen(h) > 0
  {
  }

  /** Scanning a window meets the same bodies after those bodies have been overwritten. */
  lemma {:induction false} ScanStable(d: Bytes, e: Bytes, p: nat, end: nat)
    requires end <= |d| == |e|
    requires forall k :: p <= k < end && !InSome(k, Scan(d, p, end)) ==> e[k] == d[k]
    ensures Scan(e, p, end) == Scan(d, p, end)
    decreases end - p
  {
    hide StartsWithMagic, FrameSize, IsLogin, HeaderLen, BodyLen;
    if p + 20 <= end {
      ScanWithin(d, p, end);
      assert forall k :: p <= k < p + 20 ==> !InSome(k, Scan(d, p, end));
      var h := d[p..p + 20];
      assert e[p..p + 20] == h;
      if !StartsWithMagic(h) {
        ScanStable(d, e, p + 1, end);
      } else if p + FrameSize(h) <= end {
        var rest := Scan(d, p + FrameSize(h), end);
        var first := if IsLogin(h) then [Region(p + HeaderLen(h), BodyLen(h))] else [];
        BodyFits(h);
        forall k: nat | p + FrameSize(h) <= k && InSome(k, Scan(d, p, end)) ensures InSome(k, rest) {
          InSomeConcat(k, first, rest);
        }
        ScanStable(d, e, p + FrameSize(h), end);
      }
    }
  }

  lemma InSomeConcat(k: nat, x: seq<Region>, y: seq<Region>)
    ensures InSome(k, x + y) <==> InSome(k, x) || InSome(k, y)
  {
    if InSome(k, x) {
      var i :| 0 <= i < |x| && Inside(k, x[i]);
      assert (x + y)[i] == x[i];
    }
    if InSome(k, y) {
      var i :| 0 <= i < |y| && Inside(k, y[i]);
      assert (x + y)[|x| + i] == y[i];
    }
  }

  // ---------------------------------------------------------------- zeroing

  lemma FillAt(d: Bytes, r: Region, k: nat)
    requires r.from + r.size <= |d| && k < |d|
    ensures Fill(d, r)[k] == if Inside(k, r) then 0 else d[k]
  {
  }

  /** Exactly the bytes of the regions become zero. */
  lemma {:induction false} ZeroAllAt(d: Bytes, rs: seq<Region>, k: nat)
    requires Within(rs, 0, |d|) && k < |d|
    ensures ZeroAll(d, rs)[k] == if InSome(k, rs) then 0 else d[k]
    decreases |rs|
  {
    hide Fill, Inside;
    if rs != [] {
      var before, last := rs[..|rs| - 1], rs[|rs| - 1];
      ZeroAllAt(d, before, k);
      FillAt(ZeroAll(d, before), last, k);
      InSomeConcat(k, before, [last]);
      assert before + [last] == rs;
      assert InSome(k, [last]) <==> Inside(k, last) by {
        if Inside(k, last) { assert Inside(k, [last][0]); }
      }
    }
  }

  lemma WithinWider(rs: seq<Region>, lo: nat, hi: nat, lo': nat, hi': nat)
    requires Within(rs, lo, hi) && lo' <= lo && hi <= hi'
    ensures Within(rs, lo', hi')
  {
  }

  lemma BodiesWithin(d: Bytes)
    requires LayoutOf(d).Some?
    ensures Within(Bodies(d), LayoutOf(d).value.payloadStart + 20, LayoutOf(d).value.ipEnd)
    ensures Within(Bodies(d), 0, |d|)
  {
    var l := LayoutOf(d).value;
    ScanWithin(d, l.payloadStart, l.ipEnd);
    WithinWider(Bodies(d), l.payloadStart + 20, l.ipEnd, 0, |d|);
  }

  // ---------------------------------------------------------------- one frame

  predicate InChecksumField(k: nat, l: Layout) { k == l.tcpStart + 16 || k == l.tcpStart + 17 }

  lemma WithChecksumAt(d: Bytes, l: Layout, n: nat, k: nat)
    requires l.tcpStart + 18 <= |d| && n <= 0xffff && k < |d| && !InChecksumField(k, l)
    ensures WithChecksum(d, l, n)[k] == d[k]
  {
    hide Byte;
  }

  /** A touched frame: every login body is zero, and outside the bodies and the checksum field no byte
      has changed. A body never overlaps the checksum field, whatever the header lengths claim. */
  lemma RedactDataAt(d: Bytes, k: nat)
    requires Bodies(d) != [] && k < |d|
    ensures InSome(k, Bodies(d)) ==> RedactData(d)[k] == 0
    ensures !InSome(k, Bodies(d)) && !InChecksumField(k, LayoutOf(d).value) ==> RedactData(d)[k] == d[k]
  {
    hide LayoutOf, ZeroAll, WithChecksum, SegmentSum, PseudoHeader, Scan;
    var l := LayoutOf(d).value;
    BodiesWithin(d);
    ZeroAllAt(d, Bodies(d), k);
    LayoutFits(d);
    if !InChecksumField(k, l) {
      RechecksumAt(ZeroAll(d, Bodies(d)), l, k);
    }
  }

  lemma RechecksumAt(d: Bytes, l: Layout, k: nat)
    requires IP_START + 20 <= |d| && l.tcpStart + 20 <= l.ipEnd <= |d| && l.ipEnd <= l.tcpStart + 0xffff
    requires k < |d| && !InChecksumField(k, l)
    ensures Rechecksum(d, l)[k] == d[k]
  {
    hide WithChecksum, PseudoHeader, RfcSumParts;
    RfcSumPartsBound([PseudoHeader(d, l), WithChecksum(d, l, 0)[l.tcpStart..l.ipEnd]]);
    WithChecksumAt(d, l, 0xffff - SegmentSum(PseudoHeader(d, l), WithChecksum(d, l, 0), l), k);
  }

  /** The header bytes the layout is read from survive redaction. */
  lemma LayoutStable(d: Bytes)
    requires Bodies(d) != []
    ensures LayoutOf(RedactData(d)) == LayoutOf(d)
  {
    hide RedactData, Scan, Value;
    var l := LayoutOf(d).value;
    var e := RedactData(d);
    BodiesWithin(d);
    forall k | 0 <= k < l.ipEnd && k < l.payloadStart + 20 && !InChecksumField(k, l) ensures e[k] == d[k] {
      assert !InSome(k, Bodies(d));
      RedactDataAt(d, k);
    }
    assert e[12] == d[12] && e[13] == d[13] && e[14] == d[14] && e[16] == d[16] && e[17] == d[17] && e[23] == d[23];
    assert e[l.tcpStart + 12] == d[l.tcpStart + 12];
  }

  lemma BodiesStable(d: Bytes)
    requires Bodies(d) != [] && FieldBeforePayload(LayoutOf(d).value)
    ensures Bodies(RedactData(d)) == Bodies(d)
  {
    hide RedactData, LayoutOf;
    var l := LayoutOf(d).value;
    var e := RedactData(d);
    LayoutStable(d);
    forall k | l.payloadStart <= k < l.ipEnd && !InSome(k, Scan(d, l.payloadStart, l.ipEnd)) ensures e[k] == d[k] {
      RedactDataAt(d, k);
    }
    ScanStable(d, e, l.payloadStart, l.ipEnd);
  }

  /** When a second pass over a frame changes nothing. With the checksum field before the payload it
      meets the same bodies; meeting the same bodies it writes the same bytes exactly if the new
      checksum settles the frame. */
  lemma RedactDataIdempotent(d: Bytes)
    ensures Bodies(d) != [] && FieldBeforePayload(LayoutOf(d).value) ==> Bodies(RedactData(d)) == Bodies(d)
    ensures Bodies(RedactData(d)) == Bodies(d) ==> (RedactData(RedactData(d)) == RedactData(d) <==> SumSettled(d))
  {
    hide LayoutOf, Scan, ZeroAll, Rechecksum, Verifies;
    if Bodies(d) != [] {
      var l, e := LayoutOf(d).value, RedactData(d);
      if FieldBeforePayload(l) { BodiesStable(d); }
      LayoutStable(d);
      BodiesWithin(d);
      LayoutFits(d);
      if Bodies(e) == Bodies(d) {
        forall k | 0 <= k < |e| ensures ZeroAll(e, Bodies(e))[k] == e[k] {
          ZeroAllAt(e, Bodies(e), k);
          RedactDataAt(d, k);
        }
        assert ZeroAll(e, Bodies(e)) == e;
        RechecksumSettles(ZeroAll(d, Bodies(d)), l);
      }
    }
  }

  /** A new checksum verifies, and is reproduced by a second pass, exactly if its field is not one of
      the addresses it covers or the old one verified. */
  lemma RechecksumSettles(d: Bytes, l: Layout)
    requires IP_START + 20 <= |d| && l.tcpStart + 20 <= l.ipEnd <= |d| && l.ipEnd <= l.tcpStart + 0xffff
    requires l.tcpStart == IP_START || FieldBehindAddresses(l)
    ensures Verifies(Rechecksum(d, l), l) <==> FieldBehindAddresses(l) || Verifies(d, l)
    ensures Rechecksum(Rechecksum(d, l), l) == Rechecksum(d, l) <==> FieldBehindAddresses(l) || Verifies(d, l)
  {
    hide Verifies, Rechecksum;
    if FieldBehindAddresses(l) {
      RechecksumTwice(d, l);
      RechecksumVerifies(d, l);
    } else {
      RechecksumOfAddress(d, l);
    }
  }

  lemma RechecksumTwice(d: Bytes, l: Layout)
    requires IP_START + 20 <= |d| && l.tcpStart + 20 <= l.ipEnd <= |d| && l.ipEnd <= l.tcpStart + 0xffff
    requires FieldBehindAddresses(l)
    ensures Rechecksum(Rechecksum(d, l), l) == Rechecksum(d, l)
  {
    hide RfcSumParts, PseudoHeader, WithChecksum;
    var pseudo, zeroed := PseudoHeader(d, l), WithChecksum(d, l, 0);
    RfcSumPartsBound([pseudo, zeroed[l.tcpStart..l.ipEnd]]);
    var c := 0xffff - SegmentSum(pseudo, zeroed, l);
    PseudoKept(d, l, c);
    WithChecksumAgain(d, l, c, 0);
    WithChecksumAgain(d, l, c, c);
  }

  lemma PseudoKept(d: Bytes, l: Layout, n: nat)
    requires IP_START + 20 <= |d| && l.tcpStart + 18 <= |d| && l.tcpStart <= l.ipEnd <= l.tcpStart + 0xffff
    requires FieldBehindAddresses(l) && n <= 0xffff
    ensures PseudoHeader(WithChecksum(d, l, n), l) == PseudoHeader(d, l)
  {
    hide Be16;
    var e := WithChecksum(d, l, n);
    assert e[IP_START + 12..IP_START + 16] == d[IP_START + 12..IP_START + 16];
    assert e[IP_START + 16..IP_START + 20] == d[IP_START + 16..IP_START + 20];
  }

  lemma WithChecksumAgain(d: Bytes, l: Layout, m: nat, n: nat)
    requires l.tcpStart + 18 <= |d| && m <= 0xffff && n <= 0xffff
    ensures WithChecksum(WithChecksum(d, l, m), l, n) == WithChecksum(d, l, n)
  {
    hide Be16;
  }

  /** Recomputing the sum over a redacted frame, checksum field included, gives all ones (its complement,
      which a receiver compares with zero, is zero) exactly if the new checksum settles the frame. */
  lemma ChecksumVerifies(d: Bytes)
    requires Bodies(d) != []
    ensures var e, l := RedactData(d), LayoutOf(d).value;
            l.ipEnd <= l.tcpStart + 0xffff && (Verifies(e, l) <==> SumSettled(d))
  {
    hide LayoutOf, Scan, ZeroAll, Verifies, Rechecksum;
    LayoutFits(d);
    RechecksumSettles(ZeroAll(d, Bodies(d)), LayoutOf(d).value);
  }

  lemma RechecksumVerifies(d: Bytes, l: Layout)
    requires IP_START + 20 <= |d| && l.tcpStart + 20 <= l.ipEnd <= |d| && l.ipEnd <= l.tcpStart + 0xffff
    requires FieldBehindAddresses(l)
    ensures Verifies(Rechecksum(d, l), l)
  {
    hide RfcSumParts, Be16, WordSum;
    var e := Rechecksum(d, l);
    var pseudo := PseudoHeader(d, l);
    assert PseudoHeader(e, l) == pseudo;
    var head, tail := d[l.tcpStart..l.tcpStart + 16], d[l.tcpStart + 18..l.ipEnd];
    PseudoPositive(d, l);
    FilledFieldVerifies(pseudo, head, tail);
    assert WithChecksum(d, l, 0)[l.tcpStart..l.ipEnd] == head + Be16(0) + tail;
    var sum := SegmentSum(pseudo, WithChecksum(d, l, 0), l);
    assert e[l.tcpStart..l.ipEnd] == head + Be16(0xffff - sum) + tail;
  }

  // With a zero IPv4 header length the TCP header starts at the IPv4 header, and the checksum field is
  // the upper half of the destination address.

  /** What the sum runs over besides the two copies of the field. */
  function SumBesides(d: Bytes, l: Layout): nat
    requires IP_START + 20 <= |d| && l.ipEnd <= |d| && IP_START + 20 <= l.ipEnd <= IP_START + 0xffff
  {
    WordSum(d[26..30]) + WordSum(d[32..34] + [0, 6] + Be16(l.ipEnd - IP_START))
    + WordSum(d[14..30]) + WordSum(d[32..l.ipEnd])
  }

  lemma BesidesPositive(d: Bytes, l: Layout)
    requires IP_START + 20 <= |d| && l.ipEnd <= |d| && IP_START + 20 <= l.ipEnd <= IP_START + 0xffff
    ensures SumBesides(d, l) > 0
  {
    hide Be16, WordSum;
    FieldSum(d[32..34], [0, 6], Be16(l.ipEnd - IP_START));
    ProtocolWord();
  }

  /** The sum with the field's bytes `x` among the addresses and `y` in the segment. */
  lemma {:induction false} AddressSum(d: Bytes, l: Layout, x: Bytes, y: Bytes)
    requires IP_START + 20 <= |d| && l.ipEnd <= |d| && IP_START + 20 <= l.ipEnd <= IP_START + 0xffff
    requires |x| == 2 && |y| == 2
    ensures var pseudo := d[26..30] + x + (d[32..34] + [0, 6] + Be16(l.ipEnd - IP_START));
            RfcSumParts([pseudo, d[14..30] + y + d[32..l.ipEnd]]) == Residue(SumBesides(d, l) + WordSum(x) + WordSum(y))
  {
    hide WordSum, Be16, RfcSumParts, Residue;
    TwoFieldSum(d[26..30], x, d[32..34] + [0, 6] + Be16(l.ipEnd - IP_START), d[14..30], y, d[32..l.ipEnd]);
  }

  /** The pieces of a frame that carries `x` in the field. */
  lemma AddressPieces(d: Bytes, e: Bytes, l: Layout, x: Bytes)
    requires IP_START + 20 <= |d| && l.ipEnd <= |d| && IP_START + 20 <= l.ipEnd <= IP_START + 0xffff
    requires l.tcpStart == IP_START && |x| == 2 && e == d[..30] + x + d[32..]
    ensures PseudoHeader(e, l) == d[26..30] + x + (d[32..34] + [0, 6] + Be16(l.ipEnd - IP_START))
    ensures e[l.tcpStart..l.ipEnd] == d[14..30] + x + d[32..l.ipEnd]
  {
    hide Be16;
    assert e[26..34] == d[26..30] + x + d[32..34];
    assert e[26..30] + e[30..34] == e[26..34];
  }

  lemma RechecksumOfAddress(d: Bytes, l: Layout)
    requires IP_START + 20 <= |d| && l.ipEnd <= |d| && IP_START + 20 <= l.ipEnd <= IP_START + 0xffff
    requires l.tcpStart == IP_START
    ensures Verifies(Rechecksum(d, l), l) <==> Verifies(d, l)
    ensures Rechecksum(Rechecksum(d, l), l) == Rechecksum(d, l) <==> Verifies(d, l)
  {
    hide RfcSumParts, Be16, WordSum, Residue, SumBesides, PseudoHeader, WithChecksum;
    var rest, x := SumBesides(d, l), d[30..32];
    var f := WordSum(x);
    var c := 0xffff - Residue(rest + f);
    BesidesPositive(d, l);
    TwoBytes(x);
    FieldTwice(rest, f);
    AddressChecksum(d, l, d, x);
    var e := Rechecksum(d, l);
    assert e == WithChecksum(d, l, c);
    AddressChecksum(d, l, e, Be16(c)) by { WithChecksumParts(d, l, c); }
    ReadBe16Of(c);
    var c' := 0xffff - Residue(rest + c);
    FieldTwice(rest, c);
    assert Rechecksum(e, l) == WithChecksum(e, l, c');
    WithChecksumInjective(d, e, l, c, c');
  }

  lemma TwoBytes(x: Bytes)
    requires |x| == 2
    ensures WordSum(x) <= 0xffff
  {
    WordSumUnfold(x);
    WordSumUnfold(x[2..]);
  }

  lemma WithChecksumParts(d: Bytes, l: Layout, n: nat)
    requires l.tcpStart == IP_START && 34 <= |d| && n <= 0xffff
    ensures WithChecksum(d, l, n) == d[..30] + Be16(n) + d[32..]
  {
    hide Be16;
  }

  lemma WithChecksumInjective(d: Bytes, e: Bytes, l: Layout, m: nat, n: nat)
    requires l.tcpStart + 18 <= |d| && m <= 0xffff && n <= 0xffff && e == WithChecksum(d, l, m)
    ensures WithChecksum(e, l, n) == e <==> m == n
  {
    hide Be16;
    WithChecksumAgain(d, l, m, n);
    var at := l.tcpStart + 16;
    assert e[at..at + 2] == Be16(m) && WithChecksum(d, l, n)[at..at + 2] == Be16(n);
    ReadBe16Of(m);
    ReadBe16Of(n);
  }

  /** The sums a pass takes over a frame `e` that is `d` with `x` in the field. */
  lemma AddressChecksum(d: Bytes, l: Layout, e: Bytes, x: Bytes)
    requires IP_START + 20 <= |d| && l.ipEnd <= |d| && IP_START + 20 <= l.ipEnd <= IP_START + 0xffff
    requires l.tcpStart == IP_START && |x| == 2 && e == d[..30] + x + d[32..]
    ensures SegmentSum(PseudoHeader(e, l), e, l) == Residue(SumBesides(d, l) + WordSum(x) + WordSum(x))
    ensures SegmentSum(PseudoHeader(e, l), WithChecksum(e, l, 0), l) == Residue(SumBesides(d, l) + WordSum(x))
  {
    hide RfcSumParts, Be16, WordSum, Residue, SumBesides, PseudoHeader, WithChecksum;
    AddressPieces(d, e, l, x);
    AddressSum(d, l, x, x);
    AddressSum(d, l, x, Be16(0));
    ReadBe16Of(0);
    var z := WithChecksum(e, l, 0);
    WithChecksumParts(e, l, 0);
    assert z == d[..30] + Be16(0) + d[32..];
    AddressPieces(d, z, l, Be16(0));
  }

  /** The protocol number in the pseudo header keeps the sum from being zero. */
  lemma PseudoPositive(d: Bytes, l: Layout)
    requires IP_START + 20 <= |d| && l.tcpStart <= l.ipEnd <= l.tcpStart + 0xffff
    ensures WordSum(PseudoHeader(d, l)) > 0
  {
    hide Be16, WordSum;
    var addresses := d[IP_START + 12..IP_START + 16] + d[IP_START + 16..IP_START + 20];
    var rest := Be16(l.ipEnd - l.tcpStart);
    assert PseudoHeader(d, l) == addresses + ([0, 6] + rest);
    WordSumSplit(addresses, [0, 6] + rest);
    WordSumSplit([0, 6], rest);
    ProtocolWord();
  }

  lemma ProtocolWord()
    ensures WordSum([0, 6]) > 0
  {
    var s: Bytes := [0, 6];
    assert Value(6) > 0;
    WordSumUnfold(s);
  }

  // ---------------------------------------------------------------- the whole capture

  function Shift(rs: seq<Region>, n: nat): (s: seq<Region>)
    ensures |s| == |rs|
    ensures forall i :: 0 <= i < |s| ==> s[i] == Region(rs[i].from + n, rs[i].size)
  {
    seq(|rs|, i requires 0 <= i < |rs| => Region(rs[i].from + n, rs[i].size))
  }

  /** Where the packet data of a capture lies, as the block walk meets it. */
  function PacketsOf(b: Bytes): seq<Region>
    decreases |b|
  {
    if !HasBlock(b) then []
    else
      match PacketOf(b)
      case ReadFails => []
      case TooLong => []
      case NoPacket => Shift(PacketsOf(b[ReadU32(b, 4)..]), ReadU32(b, 4))
      case DataAt(from, size) => [Region(from, size)] + Shift(PacketsOf(b[ReadU32(b, 4)..]), ReadU32(b, 4))
  }

  function Slice(b: Bytes, r: Region): Bytes
    requires r.from + r.size <= |b|
  {
    b[r.from..r.from + r.size]
  }

  /** Packets lie in the file, in order and apart, each at least 8 bytes into it. */
  ghost predicate Ordered(rs: seq<Region>, hi: nat) {
    && (forall i :: 0 <= i < |rs| ==> 8 <= rs[i].from && rs[i].from + rs[i].size <= hi)
    && (forall i, j :: 0 <= i < j < |rs| ==> rs[i].from + rs[i].size <= rs[j].from)
  }

  lemma PacketInBlock(b: Bytes)
    requires HasBlock(b) && PacketOf(b).DataAt?
    ensures 12 <= PacketOf(b).from <= 28 && PacketOf(b).from + PacketOf(b).size <= ReadU32(b, 4) <= |b|
  {
    hide ReadU32;
  }

  lemma {:induction false} PacketsOrdered(b: Bytes)
    ensures Ordered(PacketsOf(b), |b|)
    decreases |b|
  {
    hide ReadU32, PacketOf;
    if HasBlock(b) {
      var len := ReadU32(b, 4);
      PacketsOrdered(b[len..]);
      if PacketOf(b).DataAt? { PacketInBlock(b); }
    }
  }

  lemma SliceShift(b: Bytes, r: Region, len: nat)
    requires len <= |b| && r.from + r.size <= |b| - len
    ensures Slice(b, Region(r.from + len, r.size)) == Slice(b[len..], r)
  {
  }

  lemma SliceBehind(x: Bytes, y: Bytes, r: Region)
    requires r.from + r.size <= |y|
    ensures Slice(x + y, Region(r.from + |x|, r.size)) == Slice(y, r)
  {
  }

  lemma SliceOfReplaced(x: Bytes, from: nat, d: Bytes, y: Bytes)
    requires from + |d| <= |x|
    ensures Slice(ReplaceAt(x, from, d) + y, Region(from, |d|)) == d
  {
  }

  /** The rewritten first block, whatever it is. */
  function FirstBlock(b: Bytes): (r: Bytes)
    requires HasBlock(b)
    ensures |r| == ReadU32(b, 4)
  {
    var block := b[..ReadU32(b, 4)];
    if PacketOf(b).DataAt? then
      PacketInBlock(b);
      ReplaceAt(block, PacketOf(b).from, RedactData(b[PacketOf(b).from..PacketOf(b).from + PacketOf(b).size]))
    else block
  }

  lemma RedactedUnfold(b: Bytes)
    requires HasBlock(b) && Redacted(b).Some? && !PacketOf(b).TooLong?
    ensures var len := ReadU32(b, 4);
            && Redacted(b[len..]).Some?
            && Redacted(b).value.0 == FirstBlock(b) + Redacted(b[len..]).value.0
  {
    hide ReadU32, RedactData, ReplaceAt, Bodies;
  }

  lemma PacketsUnfold(b: Bytes)
    requires HasBlock(b) && (PacketOf(b).NoPacket? || PacketOf(b).DataAt?)
    ensures var rest := Shift(PacketsOf(b[ReadU32(b, 4)..]), ReadU32(b, 4));
            PacketsOf(b) == if PacketOf(b).NoPacket? then rest
                            else [Region(PacketOf(b).from, PacketOf(b).size)] + rest
  {
  }

  /** Each packet is rewritten as `RedactData` says. */
  lemma {:induction false} PacketRewritten(b: Bytes, i: nat)
    requires Redacted(b).Some? && i < |PacketsOf(b)|
    ensures PacketsOf(b)[i].from + PacketsOf(b)[i].size <= |b|
    ensures Slice(Redacted(b).value.0, PacketsOf(b)[i]) == RedactData(Slice(b, PacketsOf(b)[i]))
    decreases |b|
  {
    hide ReadU32, PacketOf, RedactData, Slice, Bodies, Redacted, PacketsOf, FirstBlock;
    PacketsOrdered(b);
    SomePacketsSomeBlock(b);
    var len := ReadU32(b, 4);
    var rest := b[len..];
    RedactedUnfold(b);
    PacketsUnfold(b);
    PacketsOrdered(rest);
    if PacketOf(b).DataAt? && i == 0 {
      FirstPacketRewritten(b);
    } else {
      var j := if PacketOf(b).NoPacket? then i else i - 1;
      var r := PacketsOf(rest)[j];
      assert PacketsOf(b)[i] == Region(r.from + len, r.size);
      PacketRewritten(rest, j);
      SliceShift(b, r, len);
      SliceBehind(FirstBlock(b), Redacted(rest).value.0, r);
    }
  }

  lemma SomePacketsSomeBlock(b: Bytes)
    requires PacketsOf(b) != []
    ensures HasBlock(b) && (PacketOf(b).NoPacket? || PacketOf(b).DataAt?)
  {
  }

  lemma FirstPacketRewritten(b: Bytes)
    requires HasBlock(b) && Redacted(b).Some? && PacketOf(b).DataAt?
    ensures var r := Region(PacketOf(b).from, PacketOf(b).size);
            && r.from + r.size <= |b|
            && Slice(Redacted(b).value.0, r) == RedactData(Slice(b, r))
  {
    hide ReadU32, PacketOf, RedactData, Redacted, ReplaceAt, Slice;
    var from, size := PacketOf(b).from, PacketOf(b).size;
    PacketInBlock(b);
    RedactedUnfold(b);
    WholeSlice(b, from, size);
    SliceOfReplaced(b[..ReadU32(b, 4)], from, RedactData(b[from..from + size]), Redacted(b[ReadU32(b, 4)..]).value.0);
  }

  lemma WholeSlice(b: Bytes, from: nat, size: nat)
    requires from + size <= |b|
    ensures Slice(b, Region(from, size)) == b[from..from + size]
  {
  }

  lemma ReplaceAtElsewhere(x: Bytes, from: nat, d: Bytes, k: nat)
    requires from + |d| <= |x| && k < |x| && !(from <= k < from + |d|)
    ensures ReplaceAt(x, from, d)[k] == x[k]
  {
  }

  lemma InRestInWhole(b: Bytes, k: nat)
    requires HasBlock(b) && (PacketOf(b).NoPacket? || PacketOf(b).DataAt?) && k >= ReadU32(b, 4)
    ensures InSome(k - ReadU32(b, 4), PacketsOf(b[ReadU32(b, 4)..])) ==> InSome(k, PacketsOf(b))
  {
    hide ReadU32, PacketOf, PacketsOf;
    PacketsUnfold(b);
    var len := ReadU32(b, 4);
    var rest := PacketsOf(b[len..]);
    if InSome(k - len, rest) {
      var j :| 0 <= j < |rest| && Inside(k - len, rest[j]);
      assert Inside(k, Shift(rest, len)[j]);
      assert Inside(k, PacketsOf(b)[if PacketOf(b).NoPacket? then j else j + 1]);
    }
  }

  /** Bytes outside packet data never change. */
  lemma {:induction false} OutsidePacketsUnchanged(b: Bytes, k: nat)
    requires Redacted(b).Some? && k < |b| && !InSome(k, PacketsOf(b))
    ensures Redacted(b).value.0[k] == b[k]
    decreases |b|
  {
    hide ReadU32, PacketOf, RedactData, ReplaceAt, Bodies;
    if HasBlock(b) && !PacketOf(b).TooLong? {
      var len := ReadU32(b, 4);
      var rest := b[len..];
      if k >= len {
        InRestInWhole(b, k);
        OutsidePacketsUnchanged(rest, k - len);
      } else if PacketOf(b).DataAt? {
        var from, size := PacketOf(b).from, PacketOf(b).size;
        PacketInBlock(b);
        assert PacketsOf(b)[0] == Region(from, size);
        ReplaceAtElsewhere(b[..len], from, RedactData(b[from..from + size]), k);
      }
    }
  }

  // ---------------------------------------------------------------- main results

  /** Redaction keeps the length; a changed byte lies in a scanned login body or in the checksum field
      of a packet with one; the login bodies are zero in the result. */
  lemma RedactionTouchesOnlyLogins(b: Bytes, k: nat)
    requires Redacted(b).Some? && k < |b|
    ensures |Redacted(b).value.0| == |b|
    ensures Redacted(b).value.0[k] != b[k] ==>
              exists i: nat :: i < |PacketsOf(b)| && MayChange(b, PacketsOf(b)[i], k)
    ensures forall i: nat :: i < |PacketsOf(b)| && IsLoginByte(b, PacketsOf(b)[i], k) ==> Redacted(b).value.0[k] == 0
  {
    hide Bodies, RedactData, Redacted, PacketsOf, LayoutOf;
    PacketsOrdered(b);
    var out := Redacted(b).value.0;
    if !InSome(k, PacketsOf(b)) {
      OutsidePacketsUnchanged(b, k);
    }
    forall i: nat | i < |PacketsOf(b)| && Inside(k, PacketsOf(b)[i])
      ensures out[k] == b[k] || MayChange(b, PacketsOf(b)[i], k)
      ensures IsLoginByte(b, PacketsOf(b)[i], k) ==> out[k] == 0
    {
      var r := PacketsOf(b)[i];
      PacketRewritten(b, i);
      assert out[k] == Slice(out, r)[k - r.from] && b[k] == Slice(b, r)[k - r.from];
      FrameByte(Slice(b, r), k - r.from);
    }
  }

  lemma FrameByte(d: Bytes, k: nat)
    requires k < |d|
    ensures RedactData(d)[k] != d[k] ==> Bodies(d) != [] && (InSome(k, Bodies(d)) || InChecksumField(k, LayoutOf(d).value))
    ensures InSome(k, Bodies(d)) ==> RedactData(d)[k] == 0
  {
    hide Bodies, LayoutOf, Rechecksum;
    if Bodies(d) != [] {
      RedactDataAt(d, k);
    }
  }

  ghost predicate IsLoginByte(b: Bytes, r: Region, k: nat) {
    Inside(k, r) && r.from + r.size <= |b| && InSome(k - r.from, Bodies(Slice(b, r)))
  }

  ghost predicate MayChange(b: Bytes, r: Region, k: nat) {
    && Inside(k, r) && r.from + r.size <= |b| && Bodies(Slice(b, r)) != []
    && (InSome(k - r.from, Bodies(Slice(b, r))) || InChecksumField(k - r.from, LayoutOf(Slice(b, r)).value))
  }

  /** A touched packet is left with a checksum that verifies over its pseudo header and segment: always,
      if the IPv4 header length is not zero, and otherwise exactly if it verified without its bodies. */
  lemma TouchedPacketsVerify(b: Bytes, i: nat)
    requires Redacted(b).Some? && i < |PacketsOf(b)|
    requires PacketsOf(b)[i].from + PacketsOf(b)[i].size <= |b| && Bodies(Slice(b, PacketsOf(b)[i])) != []
    ensures var d, e := Slice(b, PacketsOf(b)[i]), Slice(Redacted(b).value.0, PacketsOf(b)[i]);
            && LayoutOf(e) == LayoutOf(d) && LayoutOf(e).Some?
            && var l := LayoutOf(e).value;
            && l.ipEnd <= l.tcpStart + 0xffff
            && (Verifies(e, l) <==> SumSettled(d))
            && (FieldBehindAddresses(l) ==> Verifies(e, l))
  {
    hide RedactData, Redacted, PacketsOf, Verifies, Scan, Slice;
    var d := Slice(b, PacketsOf(b)[i]);
    PacketRewritten(b, i);
    LayoutStable(d);
    ChecksumVerifies(d);
    LayoutFits(d);
  }

  /** The counters are the sums over the packets of what was scanned. */
  ghost function Totals(b: Bytes, rs: seq<Region>): Counters
    requires forall i :: 0 <= i < |rs| ==> rs[i].from + rs[i].size <= |b|
    decreases |rs|
  {
    if rs == [] then NO_COUNTS else Add(CountsOf(Bodies(Slice(b, rs[0]))), Totals(b, rs[1..]))
  }

  lemma {:induction false} TotalsShift(b: Bytes, len: nat, rs: seq<Region>)
    requires len <= |b| && forall i :: 0 <= i < |rs| ==> rs[i].from + rs[i].size <= |b| - len
    ensures Totals(b, Shift(rs, len)) == Totals(b[len..], rs)
    decreases |rs|
  {
    hide Bodies;
    if rs != [] {
      SliceShift(b, rs[0], len);
      assert Shift(rs, len)[1..] == Shift(rs[1..], len);
      TotalsShift(b, len, rs[1..]);
    }
  }

  /** The walk ends at a packet block that announces more data than it holds. */
  predicate EndsTooLong(b: Bytes)
    decreases |b|
  {
    HasBlock(b) && (PacketOf(b).TooLong? || (!PacketOf(b).ReadFails? && EndsTooLong(b[ReadU32(b, 4)..])))
  }

  /** The counters are those totals, and packets are counted as they are met, with one more if the walk
      ends at an overlong block. */
  lemma {:induction false} CountersAreTotals(b: Bytes)
    requires Redacted(b).Some?
    ensures forall i :: 0 <= i < |PacketsOf(b)| ==> PacketsOf(b)[i].from + PacketsOf(b)[i].size <= |b|
    ensures var c, t := Redacted(b).value.1, Totals(b, PacketsOf(b));
            && c.bytesRedacted == t.bytesRedacted && c.loginFramesRedacted == t.loginFramesRedacted
            && c.packetsTouched == t.packetsTouched
            && t.packetsTotal == |PacketsOf(b)|
            && c.packetsTotal == |PacketsOf(b)| + (if EndsTooLong(b) then 1 else 0)
    decreases |b|
  {
    hide Bodies, ReadU32, PacketOf, RedactData, ReplaceAt;
    PacketsOrdered(b);
    if HasBlock(b) && !PacketOf(b).TooLong? {
      var len := ReadU32(b, 4);
      var rest := b[len..];
      PacketsOrdered(rest);
      CountersAreTotals(rest);
      TotalsShift(b, len, PacketsOf(rest));
      if PacketOf(b).DataAt? {
        PacketInBlock(b);
        assert PacketsOf(b)[1..] == Shift(PacketsOf(rest), len);
        WholeSlice(b, PacketOf(b).from, PacketOf(b).size);
      }
    }
  }
}
