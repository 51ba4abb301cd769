/** The three BCUDP datagram formats (`src/bcudp/packets.ts`). XML is a byte string here. */
module Packets {
  import opened ByteStrings
  import opened Crc
  import opened XmlCrypto

  const MAGIC_NEGO: nat := 0x2a87cf3a
  const MAGIC_ACK: nat := 0x2a87cf20
  const MAGIC_DATA: nat := 0x2a87cf10

  datatype BcUdpPacket =
    | Discovery(tid: nat, xml: Bytes)
    | Ack(connectionId: int, groupId: nat, packetId: nat, maybeLatency: nat, payload: Bytes)
    | Data(connectionId: int, packetId: nat, payload: Bytes)

  datatype DecodeError =
    | TooShort
    | HeaderTooShort
    | UnexpectedUnknownA(found: nat)
    | PayloadTruncated
    | CrcMismatch
    | UnknownMagic(found: nat)

  /** Fields fit the widths the wire gives them. */
  predicate Representable(p: BcUdpPacket) {
    match p
    case Discovery(tid, xml) => IsUint32(tid) && IsUint32(|xml|)
    case Ack(conn, group, id, latency, payload) =>
      IsInt32(conn) && IsUint32(group) && IsUint32(id) && IsUint32(latency) && IsUint32(|payload|)
    case Data(conn, id, payload) => IsInt32(conn) && IsUint32(id) && IsUint32(|payload|)
  }

  // ---------------------------------------------------------------- the wire format

  function CrcNat(s: Bytes): nat { BcUdpCrc(s) as nat }

  lemma CrcNatBound(s: Bytes)
    ensures IsUint32(CrcNat(s))
  {
    NatOfWord(BcUdpCrc(s));
  }

  lemma NatOfWord(w: bv32)
    ensures w as nat < TWO32 && (w as nat) as bv32 == w
  {
  }

  function DiscoveryFields(tid: nat, enc: Bytes): seq<nat> {
    [MAGIC_NEGO, ToUint32(|enc|), 1, tid, CrcNat(enc)]
  }

  function HeaderFields(p: BcUdpPacket): seq<nat> {
    match p
    case Discovery(tid, xml) => DiscoveryFields(tid, Masked(tid, xml))
    case Ack(conn, group, id, latency, payload) =>
      [MAGIC_ACK, ToUint32(conn), 0, group, id, latency, ToUint32(|payload|)]
    case Data(conn, id, payload) => [MAGIC_DATA, ToUint32(conn), 0, id, ToUint32(|payload|)]
  }

  function Body(p: BcUdpPacket): Bytes {
    match p
    case Discovery(tid, xml) => Masked(tid, xml)
    case Ack(_, _, _, _, payload) => payload
    case Data(_, _, payload) => payload
  }

  /** The bytes of a packet. */
  function Wire(p: BcUdpPacket): Bytes { Words(HeaderFields(p)) + Body(p) }

  // ---------------------------------------------------------------- encoders

  /** `header.writeUInt32LE(value >>> 0, offset)` of field `k` of the header fields `ws`. */
  method WriteU32(header: array<bv8>, ghost ws: seq<nat>, k: nat, value: int)
    requires k < |ws| && header.Length == 4 * |ws| && ws[k] == ToUint32(value)
    requires header[..4 * k] == Words(ws[..k])
    modifies header
    ensures header[..4 * (k + 1)] == Words(ws[..k + 1])
  {
    hide Le32, Words;
    ghost var start := header[..4 * k];
    var offset := 4 * k;
    var bytes := Le32(ToUint32(value));
    header[offset], header[offset + 1], header[offset + 2], header[offset + 3] := bytes[0], bytes[1], bytes[2], bytes[3];
    WordsAppend(ws[..k], ws[k]);
    assert ws[..k + 1] == ws[..k] + [ws[k]];
    assert header[..offset] == start;
    assert header[offset..offset + 4] == bytes;
    assert header[..offset + 4] == header[..offset] + header[offset..offset + 4];
  }

  method EncodeDiscoveryPacket(tid: int, xml: Bytes) returns (buf: Bytes)
    ensures buf == Wire(Discovery(ToUint32(tid), xml))
  {
    hide Words, Masked, BcUdpCrc, ToUint32;
    MaskedUint32(tid, xml);
    var enc := BcUdpXmlEncrypt(tid, xml);
    var checksum := BcUdpCrc32(enc);
    CrcNatBound(enc);
    Truncations(tid, CrcNat(enc));
    var header := new bv8[20](_ => 0);
    ghost var ws := HeaderFields(Discovery(ToUint32(tid), xml));
    StartWriting(header[..], ws);
    WriteU32(header, ws, 0, MAGIC_NEGO);
    WriteU32(header, ws, 1, |enc|);
    WriteU32(header, ws, 2, 1);
    WriteU32(header, ws, 3, tid);
    WriteU32(header, ws, 4, checksum as nat);
    assert header[..] == header[..20] && ws[..5] == ws;
    buf := header[..] + enc;
  }

  method EncodeAckPacket(connectionId: int, groupId: int, packetId: int, maybeLatency: int, payload: Bytes)
    returns (buf: Bytes)
    ensures buf == Wire(Ack(ToInt32(connectionId), ToUint32(groupId), ToUint32(packetId), ToUint32(maybeLatency), payload))
  {
    hide Words, ToUint32, ToInt32;
    Truncations(connectionId, 0);
    var header := new bv8[28](_ => 0);
    ghost var ws := HeaderFields(
      Ack(ToInt32(connectionId), ToUint32(groupId), ToUint32(packetId), ToUint32(maybeLatency), payload));
    StartWriting(header[..], ws);
    WriteU32(header, ws, 0, MAGIC_ACK);
    WriteU32(header, ws, 1, ToInt32(connectionId));
    WriteU32(header, ws, 2, 0);
    WriteU32(header, ws, 3, groupId);
    WriteU32(header, ws, 4, packetId);
    WriteU32(header, ws, 5, maybeLatency);
    WriteU32(header, ws, 6, |payload|);
    assert header[..] == header[..28] && ws[..7] == ws;
    buf := header[..] + payload;
  }

  method EncodeDataPacket(connectionId: int, packetId: int, payload: Bytes) returns (buf: Bytes)
    ensures buf == Wire(Data(ToInt32(connectionId), ToUint32(packetId), payload))
  {
    hide Words, ToUint32, ToInt32;
    Truncations(connectionId, 0);
    var header := new bv8[20](_ => 0);
    ghost var ws := HeaderFields(Data(ToInt32(connectionId), ToUint32(packetId), payload));
    StartWriting(header[..], ws);
    WriteU32(header, ws, 0, MAGIC_DATA);
    WriteU32(header, ws, 1, ToInt32(connectionId));
    WriteU32(header, ws, 2, 0);
    WriteU32(header, ws, 3, packetId);
    WriteU32(header, ws, 4, |payload|);
    assert header[..] == header[..20] && ws[..5] == ws;
    buf := header[..] + payload;
  }

  lemma StartWriting(header: Bytes, ws: seq<nat>)
    ensures header[..0] == Words(ws[..0])
  {
  }

  lemma Truncations(n: int, m: int)
    ensures ToUint32(ToInt32(n)) == ToUint32(n)
    ensures ToUint32(0) == 0 && ToUint32(1) == 1
    ensures ToUint32(MAGIC_NEGO) == MAGIC_NEGO && ToUint32(MAGIC_ACK) == MAGIC_ACK && ToUint32(MAGIC_DATA) == MAGIC_DATA
    ensures IsUint32(m) ==> ToUint32(m) == m
  {
  }

  // ---------------------------------------------------------------- decoder

  function DecodeBcUdpPacket(buf: Bytes): Result<BcUdpPacket, DecodeError> {
    if |buf| < 4 then Err(TooShort)
    else
      var magic := ReadU32(buf, 0);
      if magic == MAGIC_NEGO then DecodeDiscovery(buf)
      else if magic == MAGIC_ACK then DecodeAck(buf)
      else if magic == MAGIC_DATA then DecodeData(buf)
      else Err(UnknownMagic(magic))
  }

  function DecodeDiscovery(buf: Bytes): Result<BcUdpPacket, DecodeError> {
    if |buf| < 20 then Err(HeaderTooShort)
    else if ReadU32(buf, 8) != 1 then Err(UnexpectedUnknownA(ReadU32(buf, 8)))
    else
      var payloadSize, tid, checksum := ReadU32(buf, 4), ReadU32(buf, 12), ReadU32(buf, 16);
      if |buf| - 20 < payloadSize then Err(PayloadTruncated)
      else
        var enc := buf[20..20 + payloadSize];
        if checksum != CrcNat(enc) then Err(CrcMismatch)
        else Ok(Discovery(tid, Masked(tid, enc)))
  }

  function DecodeAck(buf: Bytes): Result<BcUdpPacket, DecodeError> {
    if |buf| < 28 then Err(HeaderTooShort)
    else if ReadU32(buf, 8) != 0 then Err(UnexpectedUnknownA(ReadU32(buf, 8)))
    else
      var payloadSize := ReadU32(buf, 24);
      if |buf| - 28 < payloadSize then Err(PayloadTruncated)
      else Ok(Ack(ToInt32(ReadU32(buf, 4)), ReadU32(buf, 12), ReadU32(buf, 16), ReadU32(buf, 20),
                  buf[28..28 + payloadSize]))
  }

  function DecodeData(buf: Bytes): Result<BcUdpPacket, DecodeError> {
    if |buf| < 20 then Err(HeaderTooShort)
    else if ReadU32(buf, 8) != 0 then Err(UnexpectedUnknownA(ReadU32(buf, 8)))
    else
      var payloadSize := ReadU32(buf, 16);
      if |buf| - 20 < payloadSize then Err(PayloadTruncated)
      else Ok(Data(ToInt32(ReadU32(buf, 4)), ReadU32(buf, 12), buf[20..20 + payloadSize]))
  }

  // ---------------------------------------------------------------- round trips

  /** The decoder accepts exactly the byte strings that begin with the encoding of a packet, and
      returns that packet: encode-decode, decode-encode, unambiguity and tolerance of trailing bytes
      in one statement. */
  lemma DecodeIffWirePrefix(buf: Bytes, p: BcUdpPacket)
    ensures DecodeBcUdpPacket(buf) == Ok(p) <==> Representable(p) && Wire(p) <= buf
  {
    hide DecodeBcUdpPacket, Wire, Representable;
    if Representable(p) && Wire(p) <= buf {
      WireDecodes(p, buf[|Wire(p)|..]);
      assert buf == Wire(p) + buf[|Wire(p)|..];
    }
    if DecodeBcUdpPacket(buf) == Ok(p) {
      match p
      case Discovery(_, _) => DecodedDiscovery(buf, p);
      case Ack(_, _, _, _, _) => DecodedAck(buf, p);
      case Data(_, _, _) => DecodedData(buf, p);
    }
  }

  /** Decoding an encoded packet, whatever follows it in the buffer, returns the packet. */
  lemma WireDecodes(p: BcUdpPacket, trailing: Bytes)
    requires Representable(p)
    ensures DecodeBcUdpPacket(Wire(p) + trailing) == Ok(p)
  {
    hide Words, Masked, DecodeBcUdpPacket, DiscoveryFields;
    assert Wire(p) + trailing == Words(HeaderFields(p)) + (Body(p) + trailing);
    match p
    case Discovery(tid, xml) =>
      MaskedTwice(tid, xml);
      DiscoveryDecodes(tid, Masked(tid, xml), Masked(tid, xml) + trailing);
      assert (Masked(tid, xml) + trailing)[..|Masked(tid, xml)|] == Masked(tid, xml);
    case Ack(_, _, _, _, _) => AckDecodes(p, p.payload + trailing);
    case Data(_, _, _) => DataDecodes(p, p.payload + trailing);
  }

  /** The bytes right behind a header of `n` bytes. */
  lemma BehindHeader(header: Bytes, rest: Bytes, n: nat, size: nat)
    requires |header| == n && size <= |rest|
    ensures (header + rest)[n..n + size] == rest[..size]
  {
  }

  lemma AckDecodes(p: BcUdpPacket, rest: Bytes)
    requires p.Ack? && Representable(p) && p.payload <= rest
    ensures DecodeBcUdpPacket(Words(HeaderFields(p)) + rest) == Ok(p)
  {
    hide Words, ReadU32;
    var ws := HeaderFields(p);
    ReadAll7(ws, rest);
    Int32Wraps(p.connectionId);
    BehindHeader(Words(ws), rest, 28, |p.payload|);
    assert rest[..|p.payload|] == p.payload;
  }

  lemma DataDecodes(p: BcUdpPacket, rest: Bytes)
    requires p.Data? && Representable(p) && p.payload <= rest
    ensures DecodeBcUdpPacket(Words(HeaderFields(p)) + rest) == Ok(p)
  {
    hide Words, ReadU32;
    var ws := HeaderFields(p);
    ReadAll5(ws, rest);
    Int32Wraps(p.connectionId);
    BehindHeader(Words(ws), rest, 20, |p.payload|);
    assert rest[..|p.payload|] == p.payload;
  }

  lemma ReadAll5(ws: seq<nat>, rest: Bytes)
    requires |ws| == 5 && forall k :: 0 <= k < 5 ==> IsUint32(ws[k])
    ensures var buf := Words(ws) + rest;
            && ReadU32(buf, 0) == ws[0] && ReadU32(buf, 4) == ws[1] && ReadU32(buf, 8) == ws[2]
            && ReadU32(buf, 12) == ws[3] && ReadU32(buf, 16) == ws[4]
  {
    hide Words, ReadU32;
    WordsRead(ws, rest, 0);
    WordsRead(ws, rest, 1);
    WordsRead(ws, rest, 2);
    WordsRead(ws, rest, 3);
    WordsRead(ws, rest, 4);
  }

  lemma ReadAll7(ws: seq<nat>, rest: Bytes)
    requires |ws| == 7 && forall k :: 0 <= k < 7 ==> IsUint32(ws[k])
    ensures var buf := Words(ws) + rest;
            && ReadU32(buf, 0) == ws[0] && ReadU32(buf, 4) == ws[1] && ReadU32(buf, 8) == ws[2]
            && ReadU32(buf, 12) == ws[3] && ReadU32(buf, 16) == ws[4] && ReadU32(buf, 20) == ws[5]
            && ReadU32(buf, 24) == ws[6]
  {
    hide Words, ReadU32;
    WordsRead(ws, rest, 0);
    WordsRead(ws, rest, 1);
    WordsRead(ws, rest, 2);
    WordsRead(ws, rest, 3);
    WordsRead(ws, rest, 4);
    WordsRead(ws, rest, 5);
    WordsRead(ws, rest, 6);
  }

  /** What the decoder does behind a discovery header: it takes the announced number of bytes and
      compares CRCs. */
  lemma DiscoveryDecodes(tid: nat, enc: Bytes, rest: Bytes)
    requires IsUint32(tid) && |enc| <= |rest| && IsUint32(|enc|)
    ensures DecodeBcUdpPacket(Words(DiscoveryFields(tid, enc)) + rest)
            == if CrcNat(enc) == CrcNat(rest[..|enc|]) then Ok(Discovery(tid, Masked(tid, rest[..|enc|])))
               else Err(CrcMismatch)
  {
    hide CrcNat, Masked, Words, ReadU32;
    var ws := DiscoveryFields(tid, enc);
    CrcNatBound(enc);
    ReadAll5(ws, rest);
    BehindHeader(Words(ws), rest, 20, |enc|);
  }

  lemma Int32Reads(u: nat)
    requires IsUint32(u)
    ensures IsInt32(ToInt32(u)) && ToUint32(ToInt32(u)) == u
  {
  }

  lemma ReadBound(buf: Bytes, offset: nat)
    requires offset + 4 <= |buf|
    ensures IsUint32(ReadU32(buf, offset))
  {
    FromLe32Bound(buf[offset..offset + 4]);
  }

  /** The five or seven fields of a header, as the decoder reads them. */
  lemma HeaderIsWords(buf: Bytes, n: nat, ws: seq<nat>)
    requires |ws| == n <= 7 && 4 * n <= |buf|
    requires forall k :: 0 <= k < n ==> ws[k] == ReadU32(buf, 4 * k)
    ensures Words(ws) == buf[..4 * n]
    ensures forall k :: 0 <= k < n ==> IsUint32(ws[k])
  {
    hide ReadU32, Words;
    ReadsAreWords(buf, ws);
    forall k | 0 <= k < n ensures IsUint32(ws[k]) { ReadBound(buf, 4 * k); }
  }

  lemma DecodedDiscovery(buf: Bytes, p: BcUdpPacket)
    requires DecodeBcUdpPacket(buf) == Ok(p) && p.Discovery?
    ensures Representable(p) && Wire(p) <= buf
  {
    hide CrcNat, Masked, Words, ReadU32;
    var ws := [ReadU32(buf, 0), ReadU32(buf, 4), ReadU32(buf, 8), ReadU32(buf, 12), ReadU32(buf, 16)];
    HeaderIsWords(buf, 5, ws);
    assert IsUint32(ws[1]) && IsUint32(ws[3]) && IsUint32(ws[4]);
    var enc := buf[20..20 + ws[1]];
    MaskedTwice(p.tid, enc);
    assert HeaderFields(p) == ws;
    assert Wire(p) == buf[..20] + enc == buf[..20 + |enc|];
  }

  lemma DecodedAck(buf: Bytes, p: BcUdpPacket)
    requires DecodeBcUdpPacket(buf) == Ok(p) && p.Ack?
    ensures Representable(p) && Wire(p) <= buf
  {
    hide Words, ReadU32;
    var ws := [ReadU32(buf, 0), ReadU32(buf, 4), ReadU32(buf, 8), ReadU32(buf, 12), ReadU32(buf, 16),
               ReadU32(buf, 20), ReadU32(buf, 24)];
    HeaderIsWords(buf, 7, ws);
    assert IsUint32(ws[1]) && IsUint32(ws[3]) && IsUint32(ws[4]) && IsUint32(ws[5]) && IsUint32(ws[6]);
    Int32Reads(ws[1]);
    assert HeaderFields(p) == ws;
    assert Wire(p) == buf[..28] + p.payload == buf[..28 + |p.payload|];
  }

  lemma DecodedData(buf: Bytes, p: BcUdpPacket)
    requires DecodeBcUdpPacket(buf) == Ok(p) && p.Data?
    ensures Representable(p) && Wire(p) <= buf
  {
    hide Words, ReadU32;
    var ws := [ReadU32(buf, 0), ReadU32(buf, 4), ReadU32(buf, 8), ReadU32(buf, 12), ReadU32(buf, 16)];
    HeaderIsWords(buf, 5, ws);
    assert IsUint32(ws[1]) && IsUint32(ws[3]) && IsUint32(ws[4]);
    Int32Reads(ws[1]);
    assert HeaderFields(p) == ws;
    assert Wire(p) == buf[..20] + p.payload == buf[..20 + |p.payload|];
  }

  /** Damage confined to four consecutive bytes of the encrypted payload is always rejected,
      whatever follows the packet. */
  lemma CorruptedPayloadRejected(tid: nat, xml: Bytes, k: nat, damage: Bytes, trailing: Bytes)
    requires Representable(Discovery(tid, xml))
    requires |damage| <= 4 && k + |damage| <= |xml|
    requires Masked(tid, xml)[k..k + |damage|] != damage
    ensures var enc := Masked(tid, xml);
            var damaged := enc[..k] + damage + enc[k + |damage|..];
            DecodeBcUdpPacket(Words(DiscoveryFields(tid, enc)) + damaged + trailing) == Err(CrcMismatch)
  {
    hide BcUdpCrc, CrcNat, Masked, DecodeBcUdpPacket, Words;
    var enc := Masked(tid, xml);
    var prefix, x, suffix := enc[..k], enc[k..k + |damage|], enc[k + |damage|..];
    var damaged := prefix + damage + suffix;
    assert prefix + x + suffix == enc;
    BurstDetected(prefix, x, damage, suffix);
    CrcNatInjective(enc, damaged);
    DiscoveryDecodes(tid, enc, damaged + trailing);
    assert (damaged + trailing)[..|enc|] == damaged;
    var header := Words(DiscoveryFields(tid, enc));
    assert header + damaged + trailing == header + (damaged + trailing);
  }

  lemma CrcNatInjective(s: Bytes, t: Bytes)
    ensures CrcNat(s) == CrcNat(t) ==> BcUdpCrc(s) == BcUdpCrc(t)
  {
    NatOfWord(BcUdpCrc(s));
    NatOfWord(BcUdpCrc(t));
  }

  // ---------------------------------------------------------------- the formats, byte by byte

  /** Where every field of the three formats lies on the wire. */
  lemma WireInBytes(p: BcUdpPacket)
    requires Representable(p)
    ensures var w := Wire(p);
            match p
            case Discovery(tid, xml) =>
              && |w| == 20 + |xml|
              && ReadU32(w, 0) == 0x2a87_cf3a && ReadU32(w, 4) == |xml| && ReadU32(w, 8) == 1 && ReadU32(w, 12) == tid
              && ReadU32(w, 16) == BcUdpCrc(w[20..]) as nat && w[20..] == Masked(tid, xml)
            case Ack(conn, group, id, latency, payload) =>
              && |w| == 28 + |payload|
              && ReadU32(w, 0) == 0x2a87_cf20 && ReadU32(w, 4) == conn % 0x1_0000_0000 && ReadU32(w, 8) == 0
              && ReadU32(w, 12) == group && ReadU32(w, 16) == id && ReadU32(w, 20) == latency
              && ReadU32(w, 24) == |payload| && w[28..] == payload
            case Data(conn, id, payload) =>
              && |w| == 20 + |payload|
              && ReadU32(w, 0) == 0x2a87_cf10 && ReadU32(w, 4) == conn % 0x1_0000_0000 && ReadU32(w, 8) == 0
              && ReadU32(w, 12) == id && ReadU32(w, 16) == |payload| && w[20..] == payload
  {
    hide Words, ReadU32, Masked, BcUdpCrc;
    match p
    case Discovery(tid, xml) =>
      CrcNatBound(Masked(tid, xml));
      ReadAll5(HeaderFields(p), Body(p));
    case Ack(_, _, _, _, _) => ReadAll7(HeaderFields(p), Body(p));
    case Data(_, _, _) => ReadAll5(HeaderFields(p), Body(p));
  }

  /** Every error has exactly its cause. */
  lemma DecodeErrors(buf: Bytes)
    ensures DecodeBcUdpPacket(buf) == Err(TooShort) <==> |buf| < 4
    ensures forall m :: DecodeBcUdpPacket(buf) == Err(UnknownMagic(m)) <==>
              |buf| >= 4 && m == ReadU32(buf, 0) && m !in [0x2a87_cf3a, 0x2a87_cf20, 0x2a87_cf10]
    ensures DecodeBcUdpPacket(buf) == Err(HeaderTooShort) <==>
              |buf| >= 4 && ((ReadU32(buf, 0) in [0x2a87_cf3a, 0x2a87_cf10] && |buf| < 20)
                             || (ReadU32(buf, 0) == 0x2a87_cf20 && |buf| < 28))
    ensures forall n :: DecodeBcUdpPacket(buf) == Err(UnexpectedUnknownA(n)) <==>
              |buf| >= 20 && n == ReadU32(buf, 8)
              && ((ReadU32(buf, 0) == 0x2a87_cf3a && n != 1) || (ReadU32(buf, 0) == 0x2a87_cf10 && n != 0)
                  || (ReadU32(buf, 0) == 0x2a87_cf20 && |buf| >= 28 && n != 0))
    ensures DecodeBcUdpPacket(buf) == Err(PayloadTruncated) <==>
              |buf| >= 20
              && ((ReadU32(buf, 0) == 0x2a87_cf3a && ReadU32(buf, 8) == 1 && |buf| < 20 + ReadU32(buf, 4))
                  || (ReadU32(buf, 0) == 0x2a87_cf10 && ReadU32(buf, 8) == 0 && |buf| < 20 + ReadU32(buf, 16))
                  || (ReadU32(buf, 0) == 0x2a87_cf20 && |buf| >= 28 && ReadU32(buf, 8) == 0 && |buf| < 28 + ReadU32(buf, 24)))
    ensures DecodeBcUdpPacket(buf) == Err(CrcMismatch) <==>
              && |buf| >= 20 && ReadU32(buf, 0) == 0x2a87_cf3a && ReadU32(buf, 8) == 1
              && |buf| >= 20 + ReadU32(buf, 4)
              && ReadU32(buf, 16) != BcUdpCrc(buf[20..20 + ReadU32(buf, 4)]) as nat
  {
    hide ReadU32, Masked, BcUdpCrc;
  }
}
