/** The pcap-ng file from the writing side: a run of blocks, and what redaction makes of it. */
module PcapBlocks {
  import opened ByteStrings
  import opened PcapRedact
  import opened PcapProofs

  /** `fields` are the interface id and the two timestamp words, `original` the original packet length,
      `rest` whatever padding and options follow the packet data. */
  datatype Block =
    | Section(body: Bytes)
    | Enhanced(obsolete: bool, fields: Bytes, original: Bytes, data: Bytes, rest: Bytes)
    | Simple(data: Bytes, rest: Bytes)
    | Other(kind: nat, body: Bytes)

  /** The bytes between the block's two length words. */
  function Content(b: Block): Bytes {
    match b
    case Section(body) => Le32(0x1a2b_3c4d) + body
    case Enhanced(_, fields, original, data, rest) => fields + Le32(|data|) + original + data + rest
    case Simple(data, rest) => Le32(|data|) + data + rest
    case Other(_, body) => body
  }

  function Kind(b: Block): nat {
    match b
    case Section(_) => 0x0a0d_0d0a
    case Enhanced(obsolete, _, _, _, _) => if obsolete then 2 else 6
    case Simple(_, _) => 3
    case Other(kind, _) => kind
  }

  function Length(b: Block): nat { 12 + |Content(b)| }

  function Encode(b: Block): (s: Bytes)
    ensures |s| == Length(b)
  {
    Le32(Kind(b)) + Le32(Length(b)) + Content(b) + Le32(Length(b))
  }

  predicate Fits(b: Block) {
    && IsUint32(Length(b)) && IsUint32(Kind(b))
    && (b.Enhanced? ==> |b.fields| == 12 && |b.original| == 4)
    && (b.Other? ==> b.kind != 2 && b.kind != 3 && b.kind != 6)
  }

  function EncodeAll(blocks: seq<Block>): Bytes
    decreases |blocks|
  {
    if blocks == [] then [] else Encode(blocks[0]) + EncodeAll(blocks[1..])
  }

  /** Only packet data is rewritten. */
  function RedactBlock(b: Block): Block {
    match b
    case Enhanced(obsolete, fields, original, data, rest) => Enhanced(obsolete, fields, original, RedactData(data), rest)
    case Simple(data, rest) => Simple(RedactData(data), rest)
    case _ => b
  }

  function RedactBlocks(blocks: seq<Block>): (r: seq<Block>)
    ensures |r| == |blocks| && forall i :: 0 <= i < |blocks| ==> r[i] == RedactBlock(blocks[i])
    decreases |blocks|
  {
    if blocks == [] then [] else [RedactBlock(blocks[0])] + RedactBlocks(blocks[1..])
  }

  /** What a packet adds to the counters: its zeroed bytes, its login bodies, itself. */
  function CountBlock(b: Block): Counters {
    if b.Enhanced? || b.Simple? then
      Counters(TotalSize(Bodies(b.data)), |Bodies(b.data)|, if Bodies(b.data) == [] then 0 else 1, 1)
    else Counters(0, 0, 0, 0)
  }

  function CountBlocks(blocks: seq<Block>): Counters
    decreases |blocks|
  {
    if blocks == [] then Counters(0, 0, 0, 0) else Add(CountBlock(blocks[0]), CountBlocks(blocks[1..]))
  }

  // ---------------------------------------------------------------- one block

  lemma BlockReads(b: Block, rest: Bytes)
    requires Fits(b)
    ensures var s := Encode(b) + rest;
            && ReadU32(s, 0) == Kind(b) && ReadU32(s, 4) == Length(b)
            && s[8..8 + |Content(b)|] == Content(b) && s[..Length(b)] == Encode(b) && s[Length(b)..] == rest
  {
    hide Le32, FromLe32, Content, Kind;
    var s := Encode(b) + rest;
    FromLe32Of(Kind(b));
    FromLe32Of(Length(b));
    assert s[0..4] == Le32(Kind(b)) && s[4..8] == Le32(Length(b));
  }

  lemma PacketRead(b: Block, rest: Bytes)
    requires Fits(b)
    ensures var s := Encode(b) + rest;
            && HasBlock(s)
            && PacketOf(s) == match b
                              case Enhanced(_, _, _, data, _) => DataAt(28, |data|)
                              case Simple(data, _) => DataAt(12, |data|)
                              case _ => NoPacket
    ensures var s := Encode(b) + rest;
            && (b.Enhanced? ==> s[28..28 + |b.data|] == b.data)
            && (b.Simple? ==> s[12..12 + |b.data|] == b.data)
  {
    hide Le32, FromLe32, Encode;
    var s, c := Encode(b) + rest, Content(b);
    BlockReads(b, rest);
    match b
    case Enhanced(_, _, _, data, _) =>
      FromLe32Of(|data|);
      assert c[12..16] == Le32(|data|) && c[20..20 + |data|] == data;
      InContent(s, c, 12, 16);
      InContent(s, c, 20, 20 + |data|);
    case Simple(data, _) =>
      FromLe32Of(|data|);
      assert c[0..4] == Le32(|data|) && c[4..4 + |data|] == data;
      InContent(s, c, 0, 4);
      InContent(s, c, 4, 4 + |data|);
    case _ =>
  }

  lemma InContent(s: Bytes, c: Bytes, i: nat, j: nat)
    requires 8 + |c| <= |s| && s[8..8 + |c|] == c && i <= j <= |c|
    ensures s[8 + i..8 + j] == c[i..j]
  {
    assert forall k :: 0 <= k < |c| ==> s[8 + k] == c[k];
  }

  lemma RedactedLength(b: Block)
    requires Fits(b)
    ensures Fits(RedactBlock(b)) && Length(RedactBlock(b)) == Length(b)
  {
    hide Le32, RedactData;
  }

  /** Replacing the packet data inside the encoding is encoding the redacted block. */
  lemma ReplacedData(b: Block)
    requires Fits(b)
    ensures b.Enhanced? ==> 28 + |b.data| <= |Encode(b)| && ReplaceAt(Encode(b), 28, RedactData(b.data)) == Encode(RedactBlock(b))
    ensures b.Simple? ==> 12 + |b.data| <= |Encode(b)| && ReplaceAt(Encode(b), 12, RedactData(b.data)) == Encode(RedactBlock(b))
  {
    hide Le32, RedactData, ReplaceAt, Encode;
    RedactedLength(b);
    match b
    case Enhanced(_, fields, original, data, rest) =>
      EnhancedParts(b);
      EnhancedParts(RedactBlock(b));
      var n := Length(b);
      var front := Le32(Kind(b)) + Le32(n) + fields + Le32(|data|) + original;
      ReplacedMiddle(front, data, rest + Le32(n), RedactData(data));
    case Simple(data, rest) =>
      SimpleParts(b);
      SimpleParts(RedactBlock(b));
      var n := Length(b);
      ReplacedMiddle(Le32(3) + Le32(n) + Le32(|data|), data, rest + Le32(n), RedactData(data));
    case _ =>
  }

  lemma EnhancedParts(b: Block)
    requires b.Enhanced?
    ensures Encode(b) == Le32(Kind(b)) + Le32(Length(b)) + b.fields + Le32(|b.data|) + b.original
                         + b.data + (b.rest + Le32(Length(b)))
  {
    hide Le32, Kind;
  }

  lemma SimpleParts(b: Block)
    requires b.Simple?
    ensures Encode(b) == Le32(3) + Le32(Length(b)) + Le32(|b.data|) + b.data + (b.rest + Le32(Length(b)))
  {
    hide Le32;
  }

  lemma ReplacedMiddle(front: Bytes, d: Bytes, back: Bytes, e: Bytes)
    requires |e| == |d|
    ensures ReplaceAt(front + d + back, |front|, e) == front + e + back
  {
  }

  /** One block is rewritten on its own, and the walk goes on behind it. */
  lemma BlockThen(b: Block, rest: Bytes)
    requires Fits(b)
    ensures Redacted(Encode(b) + rest) ==
            match Redacted(rest)
            case None => None
            case Some(r) => Some((Encode(RedactBlock(b)) + r.0, Add(CountBlock(b), r.1)))
  {
    hide Encode, RedactData, Bodies, ReplaceAt, ReadU32, PacketOf, HasBlock;
    var s := Encode(b) + rest;
    BlockReads(b, rest);
    PacketRead(b, rest);
    ReplacedData(b);
    if b.Enhanced? || b.Simple? {
      assert s[PacketOf(s).from..PacketOf(s).from + PacketOf(s).size] == b.data;
    } else {
      AddNothingFirst(rest);
    }
  }

  lemma AddNothingFirst(rest: Bytes)
    ensures Redacted(rest).Some? ==> Add(Counters(0, 0, 0, 0), Redacted(rest).value.1) == Redacted(rest).value.1
  {
    hide Redacted;
  }

  // ---------------------------------------------------------------- whole files

  /** A file that begins with whole blocks: they become the same blocks with each packet's data redacted
      and nothing else changed; then the walk goes on. */
  lemma {:induction false} BlocksThen(blocks: seq<Block>, t: Bytes)
    requires forall i :: 0 <= i < |blocks| ==> Fits(blocks[i])
    ensures Redacted(EncodeAll(blocks) + t) ==
            match Redacted(t)
            case None => None
            case Some(r) => Some((EncodeAll(RedactBlocks(blocks)) + r.0, Add(CountBlocks(blocks), r.1)))
    decreases |blocks|
  {
    hide Redacted, Encode, RedactBlock, CountBlock, Fits;
    if blocks == [] {
      assert EncodeAll(blocks) + t == t;
      AddNothingFirst(t);
      assert Redacted(t).Some? ==> [] + Redacted(t).value.0 == Redacted(t).value.0;
    } else {
      var b, rest := blocks[0], EncodeAll(blocks[1..]) + t;
      assert EncodeAll(blocks) + t == Encode(b) + rest;
      BlocksThen(blocks[1..], t);
      BlockThen(b, rest);
      assert RedactBlocks(blocks)[1..] == RedactBlocks(blocks[1..]);
      if Redacted(t).Some? {
        var r := Redacted(t).value;
        assert Encode(RedactBlock(b)) + (EncodeAll(RedactBlocks(blocks[1..])) + r.0)
            == EncodeAll(RedactBlocks(blocks)) + r.0;
      }
    }
  }

  /** The end of the file: too little for a block header, or a length that is too small or too big. */
  predicate NoBlock(t: Bytes) {
    |t| < 8 || ReadU32(t, 4) < 12 || ReadU32(t, 4) > |t|
  }

  /** A packet block that announces more data than fits between its start and its announced end. */
  predicate Overlong(t: Bytes) {
    && !NoBlock(t)
    && ((ReadU32(t, 0) in [6, 2] && |t| >= 24 && 28 + ReadU32(t, 20) > ReadU32(t, 4))
        || (ReadU32(t, 0) == 3 && 12 + ReadU32(t, 8) > ReadU32(t, 4)))
  }

  /** A packet block at the end of the file that is too short for its data length to be read. */
  predicate Unreadable(t: Bytes) {
    !NoBlock(t) && ReadU32(t, 0) in [6, 2] && |t| < 24
  }

  lemma Ending(t: Bytes)
    ensures NoBlock(t) ==> Redacted(t) == Some((t, Counters(0, 0, 0, 0)))
    ensures Overlong(t) ==> Redacted(t) == Some((t, Counters(0, 0, 0, 1)))
    ensures Unreadable(t) ==> Redacted(t) == None
  {
    hide ReadU32, RedactData, Bodies, ReplaceAt;
  }

  /** A capture file: a section header, whole blocks, and an end at which no block starts. The header
      words are the ones the redactor asks for, and its output is the capture with each packet's data
      redacted, byte for byte the same elsewhere, counted packet by packet. */
  lemma CaptureRedacted(section: Block, blocks: seq<Block>, t: Bytes)
    requires section.Section? && Fits(section) && (forall i :: 0 <= i < |blocks| ==> Fits(blocks[i]))
    ensures var file := EncodeAll([section] + blocks) + t;
            && |file| >= 12 && ReadU32(file, 0) == SHB && ReadU32(file, 8) == BYTE_ORDER_MAGIC_LE
            && (NoBlock(t) ==>
                  Redacted(file) == Some((EncodeAll([section] + RedactBlocks(blocks)) + t, CountBlocks(blocks))))
            && (Overlong(t) ==>
                  Redacted(file) == Some((EncodeAll([section] + RedactBlocks(blocks)) + t,
                                          Add(CountBlocks(blocks), Counters(0, 0, 0, 1)))))
            && (Unreadable(t) ==> Redacted(file) == None)
  {
    hide Redacted, Encode, EncodeAll, RedactData, Bodies, ReadU32, NoBlock, Overlong, Unreadable, Fits;
    var all := [section] + blocks;
    BlocksThen(all, t);
    Ending(t);
    assert all[1..] == blocks && RedactBlocks(all)[1..] == RedactBlocks(blocks);
    assert RedactBlocks(all) == [section] + RedactBlocks(blocks);
    CountsFirst(section, blocks);
    SectionReads(section, blocks, t);
  }

  lemma {:induction false} CountsFirst(section: Block, blocks: seq<Block>)
    requires section.Section?
    ensures CountBlocks([section] + blocks) == CountBlocks(blocks)
    ensures Add(CountBlocks(blocks), Counters(0, 0, 0, 0)) == CountBlocks(blocks)
  {
    assert ([section] + blocks)[1..] == blocks;
    assert CountBlock(section) == Counters(0, 0, 0, 0);
    hide CountBlock, Bodies;
  }

  lemma SectionReads(section: Block, blocks: seq<Block>, t: Bytes)
    requires section.Section? && Fits(section)
    ensures var file := EncodeAll([section] + blocks) + t;
            |file| >= 12 && ReadU32(file, 0) == 0x0a0d_0d0a && ReadU32(file, 8) == 0x1a2b_3c4d
  {
    hide Encode, Le32, FromLe32;
    var all := [section] + blocks;
    var rest := EncodeAll(blocks) + t;
    assert all[1..] == blocks;
    var file := EncodeAll(all) + t;
    assert file == Encode(section) + rest;
    BlockReads(section, rest);
    FromLe32Of(0x1a2b_3c4d);
    assert Content(section)[0..4] == Le32(0x1a2b_3c4d);
    InContent(file, Content(section), 0, 4);
  }
}
