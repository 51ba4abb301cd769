/** What the pcap-ng redactor of `app/src/capture-pcap-redact.ts` does to a capture, as functions on
    byte strings; `PcapRedactor.dfy` holds the in-place procedure. */
module PcapRedact {
  import opened Octets
  import opened ByteStrings
  import opened Checksum

  const ETHERTYPE_IPV4: nat := 0x0800
  const IP_PROTO_TCP: nat := 6
  const BC_MAGIC: Bytes := [0xf0, 0xde, 0xbc, 0x0a]
  const BC_MAGIC_REV: Bytes := [0x0a, 0xbc, 0xde, 0xf0]
  const CMD_ID_LOGIN: nat := 1

  // ---------------------------------------------------------------- the layers of a frame

  /** Offsets inside the link-layer data: the IPv4 header starts at 14. */
  datatype Layout = Layout(tcpStart: nat, payloadStart: nat, ipEnd: nat)

  const IP_START: nat := 14

  /** The TCP payload window of an Ethernet/IPv4/TCP frame, if it is one. */
  function LayoutOf(d: Bytes): (r: Option<Layout>)
    ensures r.Some? ==> IP_START + 20 <= |d| && r.value.tcpStart + 20 <= r.value.ipEnd <= |d|
    ensures r.Some? ==> r.value.tcpStart <= r.value.payloadStart < r.value.ipEnd <= IP_START + 0xffff
  {
    if |d| < 14 then None
    else if ReadBe16(d, 12) != ETHERTYPE_IPV4 then None
    else if IP_START + 20 > |d| then None
    else if Value(d[IP_START]) / 16 != 4 then None
    else
      var ihl := Value(d[IP_START]) % 16 * 4;
      if IP_START + ihl > |d| then None
      else if Value(d[IP_START + 9]) != IP_PROTO_TCP then None
      else
        var ipEnd := IP_START + ReadBe16(d, IP_START + 2);
        if ipEnd > |d| then None
        else
          var tcpStart := IP_START + ihl;
          if tcpStart + 20 > ipEnd then None
          else
            var payloadStart := tcpStart + Value(d[tcpStart + 12]) / 16 * 4;
            if payloadStart > ipEnd then None
            else if ipEnd <= payloadStart then None
            else Some(Layout(tcpStart, payloadStart, ipEnd))
  }

  /** The checksum field lies before the payload: the data offset is at least five words, as section
      3.1 of RFC 9293 requires. The code does not check it. */
  predicate FieldBeforePayload(l: Layout) { l.payloadStart >= l.tcpStart + 18 }

  /** The checksum field lies behind the addresses in the IPv4 header: the header length is not zero.
      Section 3.1 of RFC 791 requires five words; the code does not check it. */
  predicate FieldBehindAddresses(l: Layout) { l.tcpStart >= IP_START + 4 }

  // ---------------------------------------------------------------- scanning the payload

  function ReadLe16(buf: Bytes, offset: nat): nat
    requires offset + 2 <= |buf|
  {
    Value(buf[offset]) + 0x100 * Value(buf[offset + 1])
  }

  /** The fields of the 20 bytes at a scan position. */
  predicate StartsWithMagic(h: Bytes)
    requires |h| == 20
  {
    h[..4] == BC_MAGIC || h[..4] == BC_MAGIC_REV
  }

  function HeaderLen(h: Bytes): nat
    requires |h| == 20
  {
    if ReadLe16(h, 18) == 0x6414 then 24 else 20
  }

  function BodyLen(h: Bytes): nat
    requires |h| == 20
  {
    ReadU32(h, 8)
  }

  function FrameSize(h: Bytes): (n: nat)
    requires |h| == 20
    ensures n >= 20
  {
    HeaderLen(h) + BodyLen(h)
  }

  predicate IsLogin(h: Bytes)
    requires |h| == 20
  {
    ReadU32(h, 4) == CMD_ID_LOGIN && BodyLen(h) > 0
  }

  /** A body: its first position and its length. */
  datatype Region = Region(from: nat, size: nat)

  /** The login bodies met when scanning `d[p..end]`: skip a byte where there is no magic, stop at a
      frame that does not end inside the window. */
  function Scan(d: Bytes, p: nat, end: nat): seq<Region>
    requires end <= |d|
    decreases end - p
  {
    if p + 20 > end then []
    else
      var h := d[p..p + 20];
      if !StartsWithMagic(h) then Scan(d, p + 1, end)
      else if p + FrameSize(h) > end then []
      else (if IsLogin(h) then [Region(p + HeaderLen(h), BodyLen(h))] else []) + Scan(d, p + FrameSize(h), end)
  }

  // ---------------------------------------------------------------- rewriting

  function Zeros(n: nat): (s: Bytes)
    ensures |s| == n
  {
    seq(n, _ => 0)
  }

  function Fill(d: Bytes, r: Region): (s: Bytes)
    ensures |s| == |d|
  {
    if r.from + r.size <= |d| then d[..r.from] + Zeros(r.size) + d[r.from + r.size..] else d
  }

  function ZeroAll(d: Bytes, rs: seq<Region>): (s: Bytes)
    ensures |s| == |d|
    decreases |rs|
  {
    if rs == [] then d else Fill(ZeroAll(d, rs[..|rs| - 1]), rs[|rs| - 1])
  }

  function PseudoHeader(d: Bytes, l: Layout): Bytes
    requires IP_START + 20 <= |d| && l.tcpStart <= l.ipEnd <= l.tcpStart + 0xffff
  {
    d[IP_START + 12..IP_START + 16] + d[IP_START + 16..IP_START + 20] + [0, 6] + Be16(l.ipEnd - l.tcpStart)
  }

  /** The frame with a value in the TCP checksum field. */
  function WithChecksum(d: Bytes, l: Layout, n: nat): (s: Bytes)
    requires l.tcpStart + 18 <= |d| && n <= 0xffff
    ensures |s| == |d|
  {
    d[..l.tcpStart + 16] + Be16(n) + d[l.tcpStart + 18..]
  }

  /** The one's-complement sum over a pseudo header and the TCP segment. */
  function SegmentSum(pseudo: Bytes, d: Bytes, l: Layout): nat
    requires l.tcpStart <= l.ipEnd <= |d|
  {
    RfcSumParts([pseudo, d[l.tcpStart..l.ipEnd]])
  }

  lemma RfcSumPartsBound(parts: seq<Bytes>)
    ensures RfcSumParts(parts) <= 0xffff
  {
    FoldIsRfcSum(parts);
    FoldIsResidue(PartsSum(parts));
  }

  /** The frame with its checksum recomputed over a zero field. */
  function Rechecksum(d: Bytes, l: Layout): (s: Bytes)
    requires IP_START + 20 <= |d| && l.tcpStart + 20 <= l.ipEnd <= |d| && l.ipEnd <= l.tcpStart + 0xffff
    ensures |s| == |d|
  {
    var pseudo, zeroed := PseudoHeader(d, l), WithChecksum(d, l, 0);
    RfcSumPartsBound([pseudo, zeroed[l.tcpStart..l.ipEnd]]);
    WithChecksum(d, l, 0xffff - SegmentSum(pseudo, zeroed, l))
  }

  /** The login bodies of a frame. */
  function Bodies(d: Bytes): seq<Region> {
    match LayoutOf(d)
    case None => []
    case Some(l) => Scan(d, l.payloadStart, l.ipEnd)
  }

  lemma LayoutFits(d: Bytes)
    requires LayoutOf(d).Some?
    ensures LayoutOf(d).value.tcpStart >= IP_START && LayoutOf(d).value.ipEnd <= LayoutOf(d).value.tcpStart + 0xffff
    ensures FieldBehindAddresses(LayoutOf(d).value) <==> LayoutOf(d).value.tcpStart != IP_START
  {
  }

  /** The one's-complement sum over pseudo header and segment, checksum field included, is all ones. */
  predicate Verifies(d: Bytes, l: Layout)
    requires IP_START + 20 <= |d| && l.tcpStart <= l.ipEnd <= |d| && l.ipEnd <= l.tcpStart + 0xffff
  {
    SegmentSum(PseudoHeader(d, l), d, l) == 0xffff
  }

  /** A new checksum settles the frame: with a zero IPv4 header length the field is itself one of the
      addresses, and then only if the frame verified without its login bodies. */
  predicate SumSettled(d: Bytes) {
    if Bodies(d) == [] then true
    else
      LayoutFits(d);
      FieldBehindAddresses(LayoutOf(d).value) || Verifies(ZeroAll(d, Bodies(d)), LayoutOf(d).value)
  }

  /** What the redactor makes of one captured frame. */
  function RedactData(d: Bytes): (s: Bytes)
    ensures |s| == |d|
  {
    if Bodies(d) == [] then d
    else
      LayoutFits(d);
      Rechecksum(ZeroAll(d, Bodies(d)), LayoutOf(d).value)
  }

  // ---------------------------------------------------------------- counters

  datatype Counters = Counters(bytesRedacted: nat, loginFramesRedacted: nat, packetsTouched: nat, packetsTotal: nat)

  const NO_COUNTS := Counters(0, 0, 0, 0)

  function TotalSize(rs: seq<Region>): nat
    decreases |rs|
  {
    if rs == [] then 0 else TotalSize(rs[..|rs| - 1]) + rs[|rs| - 1].size
  }

  function Add(a: Counters, b: Counters): Counters {
    Counters(a.bytesRedacted + b.bytesRedacted, a.loginFramesRedacted + b.loginFramesRedacted,
             a.packetsTouched + b.packetsTouched, a.packetsTotal + b.packetsTotal)
  }

  function CountsOf(rs: seq<Region>): Counters {
    Counters(TotalSize(rs), |rs|, if rs == [] then 0 else 1, 1)
  }

  // ---------------------------------------------------------------- the blocks of a capture

  const SHB: nat := 0x0a0d_0d0a
  const EPB: nat := 6
  const SPB: nat := 3
  const PB_OBSOLETE: nat := 2
  const BYTE_ORDER_MAGIC_LE: nat := 0x1a2b_3c4d

  /** Where the packet data of the first block of `b` lies, if the block is a packet block. */
  datatype Packet = NoPacket | DataAt(from: nat, size: nat) | TooLong | ReadFails

  function PacketOf(b: Bytes): Packet
    requires |b| >= 12
  {
    var blockType, blockLen := ReadU32(b, 0), ReadU32(b, 4);
    if blockType == EPB || blockType == PB_OBSOLETE then
      if 24 > |b| then ReadFails
      else if 28 + ReadU32(b, 20) > blockLen then TooLong
      else DataAt(28, ReadU32(b, 20))
    else if blockType == SPB then
      if 12 + ReadU32(b, 8) > blockLen then TooLong else DataAt(12, ReadU32(b, 8))
    else NoPacket
  }

  /** Whether there is a complete block at the start of `b`. */
  predicate HasBlock(b: Bytes) {
    |b| >= 8 && ReadU32(b, 4) >= 12 && ReadU32(b, 4) <= |b|
  }

  function ReplaceAt(b: Bytes, from: nat, s: Bytes): (r: Bytes)
    requires from + |s| <= |b|
    ensures |r| == |b|
  {
    b[..from] + s + b[from + |s|..]
  }

  /** Walk the blocks from the start of `b`: the rewritten bytes and the counters, or nothing if a read
      runs past the end of the file, which makes the original throw. */
  function Redacted(b: Bytes): (r: Option<(Bytes, Counters)>)
    ensures r.Some? ==> |r.value.0| == |b|
    decreases |b|
  {
    if !HasBlock(b) then Some((b, NO_COUNTS))
    else
      var len := ReadU32(b, 4);
      match PacketOf(b)
      case ReadFails => None
      case TooLong => Some((b, Counters(0, 0, 0, 1)))
      case NoPacket =>
        (match Redacted(b[len..])
         case None => None
         case Some(rest) => Some((b[..len] + rest.0, rest.1)))
      case DataAt(from, size) =>
        var d := b[from..from + size];
        match Redacted(b[len..])
        case None => None
        case Some(rest) =>
          Some((ReplaceAt(b[..len], from, RedactData(d)) + rest.0, Add(CountsOf(Bodies(d)), rest.1)))
  }
}
