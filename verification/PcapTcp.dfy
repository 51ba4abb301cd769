/** Captured frames from the sending side: Ethernet II, IPv4, TCP, and what redaction makes of them. */
module PcapTcp {
  import opened Octets
  import opened ByteStrings
  import opened Checksum
  import opened PcapRedact
  import opened PcapProofs
  import opened PcapFrames

  /** The fields of such a frame that are not lengths; `trailer` is Ethernet padding. */
  datatype TcpFrame = TcpFrame(
    macs: Bytes, service: bv8, fragment: Bytes, timeToLive: bv8, ipChecksum: Bytes, source: Bytes,
    destination: Bytes, ipOptions: Bytes,
    ports: Bytes, reserved: nat, flags: bv8, window: Bytes, checksum: nat, urgent: Bytes, tcpOptions: Bytes,
    payload: Bytes, trailer: Bytes)

  function SegmentLength(f: TcpFrame): nat { 20 + |f.tcpOptions| + |f.payload| }

  function TotalLength(f: TcpFrame): nat { 20 + |f.ipOptions| + SegmentLength(f) }

  /** Field widths, option lengths in whole words, and a total length of 16 bits (RFC 791, RFC 9293). */
  predicate Fits(f: TcpFrame) {
    && |f.macs| == 12 && |f.fragment| == 4 && |f.ipChecksum| == 2 && |f.source| == 4 && |f.destination| == 4
    && |f.ipOptions| % 4 == 0 && |f.ipOptions| <= 40
    && |f.ports| == 12 && f.reserved < 16 && |f.window| == 2 && f.checksum <= 0xffff && |f.urgent| == 2
    && |f.tcpOptions| % 4 == 0 && |f.tcpOptions| <= 40
    && f.payload != [] && TotalLength(f) <= 0xffff
  }

  function IpHeader(f: TcpFrame): (s: Bytes)
    requires Fits(f)
    ensures |s| == 20 + |f.ipOptions|
  {
    [Byte(0x40 + 5 + |f.ipOptions| / 4), f.service] + Be16(TotalLength(f)) + f.fragment + [f.timeToLive, 6]
    + f.ipChecksum + f.source + f.destination + f.ipOptions
  }

  /** The TCP header up to the checksum, and from behind it to the payload. */
  function BeforeChecksum(f: TcpFrame): (s: Bytes)
    requires Fits(f)
    ensures |s| == 16
  {
    f.ports + [Byte(16 * (5 + |f.tcpOptions| / 4) + f.reserved), f.flags] + f.window
  }

  function BehindChecksum(f: TcpFrame): Bytes { f.urgent + f.tcpOptions }

  function Segment(f: TcpFrame): Bytes
    requires Fits(f)
  {
    BeforeChecksum(f) + Be16(f.checksum) + BehindChecksum(f) + f.payload
  }

  function EncodeTcp(f: TcpFrame): Bytes
    requires Fits(f)
  {
    f.macs + [0x08, 0x00] + IpHeader(f) + Segment(f) + f.trailer
  }

  /** The pseudo header of section 3.1 of RFC 9293. */
  function Pseudo(f: TcpFrame): Bytes
    requires Fits(f)
  {
    f.source + f.destination + [0, 6] + Be16(SegmentLength(f))
  }

  /** RFC 1071, section 1: a receiver sums everything, checksum included, and gets all ones. */
  predicate Accepted(f: TcpFrame)
    requires Fits(f)
  {
    RfcSumParts([Pseudo(f), Segment(f)]) == 0xffff
  }

  // ---------------------------------------------------------------- the layers are found

  /** Which frames are taken for Ethernet, IPv4 and TCP, in the values of their bytes, and where the payload
      lies. */
  lemma LayoutInNumbers(d: Bytes)
    ensures LayoutOf(d).Some? <==>
              && |d| >= 34 && Value(d[12]) == 0x08 && Value(d[13]) == 0x00
              && Value(d[14]) / 16 == 4 && Value(d[23]) == 6
              && var tcp, end := 14 + 4 * (Value(d[14]) % 16), 14 + 256 * Value(d[16]) + Value(d[17]);
              && end <= |d| && tcp + 20 <= end && tcp + 4 * (Value(d[tcp + 12]) / 16) < end
    ensures LayoutOf(d).Some? ==>
              var tcp, end := 14 + 4 * (Value(d[14]) % 16), 14 + 256 * Value(d[16]) + Value(d[17]);
              tcp + 12 < |d| && LayoutOf(d).value == Layout(tcp, tcp + 4 * (Value(d[tcp + 12]) / 16), end)
  {
    hide Value;
  }

  lemma ValueIs(b: bv8, n: nat)
    requires n < 0x100
    ensures Value(b) == n <==> b == n as bv8
  {
    NatToByteAndBack(n);
    ByteOfValue(b);
  }

  function LayoutOfTcp(f: TcpFrame): Layout {
    Layout(34 + |f.ipOptions|, 54 + |f.ipOptions| + |f.tcpOptions|, 14 + TotalLength(f))
  }

  lemma IpFields(f: TcpFrame)
    requires Fits(f)
    ensures var ip := IpHeader(f);
            && ip[0] == Byte(0x40 + 5 + |f.ipOptions| / 4) && ip[2..4] == Be16(TotalLength(f)) && ip[9] == 6
            && ip[12..16] == f.source && ip[16..20] == f.destination
  {
    hide Byte, Be16;
  }

  lemma Placed(front: Bytes, s: Bytes, rest: Bytes)
    ensures |front + s + rest| == |front| + |s| + |rest|
    ensures (front + s + rest)[|front|..|front| + |s|] == s
    ensures forall k :: 0 <= k < |s| ==> (front + s + rest)[|front| + k] == s[k]
  {
  }

  lemma EncodedIp(f: TcpFrame)
    requires Fits(f)
    ensures var e, n := EncodeTcp(f), 34 + |f.ipOptions|;
            && |e| == n + SegmentLength(f) + |f.trailer|
            && e[12] == 0x08 && e[13] == 0x00
            && e[14..n] == IpHeader(f) && e[n..n + SegmentLength(f)] == Segment(f)
  {
    hide IpHeader, BeforeChecksum, Be16;
    var front := f.macs + [0x08, 0x00];
    var ip, seg := IpHeader(f), Segment(f);
    assert |seg| == SegmentLength(f);
    assert EncodeTcp(f) == front + ip + (seg + f.trailer);
    Placed(front, ip, seg + f.trailer);
    assert EncodeTcp(f) == (front + ip) + seg + f.trailer;
    Placed(front + ip, seg, f.trailer);
    assert front[12] == 8 && front[13] == 0;
  }

  lemma EncodedFields(f: TcpFrame)
    requires Fits(f)
    ensures var e, n := EncodeTcp(f), 34 + |f.ipOptions|;
            && |e| == n + SegmentLength(f) + |f.trailer|
            && e[12] == 0x08 && e[13] == 0x00 && e[14] == Byte(0x45 + |f.ipOptions| / 4) && e[23] == 6
            && e[16..18] == Be16(TotalLength(f)) && e[26..30] == f.source && e[30..34] == f.destination
            && e[n + 12] == Byte(16 * (5 + |f.tcpOptions| / 4) + f.reserved)
  {
    hide EncodeTcp, Segment, IpHeader, Byte, Be16;
    var e, n := EncodeTcp(f), 34 + |f.ipOptions|;
    EncodedIp(f);
    IpFields(f);
    InSlice(e, 14, n, 0, 20);
    SegmentByte(f);
    InSlice(e, n, n + SegmentLength(f), 12, 13);
    var ip := e[14..n];
    assert e[14] == ip[0] && e[23] == ip[9];
    InSlice(e, 14, n, 2, 4);
    InSlice(e, 14, n, 12, 16);
    InSlice(e, 14, n, 16, 20);
  }

  lemma SegmentByte(f: TcpFrame)
    requires Fits(f)
    ensures |Segment(f)| == SegmentLength(f) && Segment(f)[12] == Byte(16 * (5 + |f.tcpOptions| / 4) + f.reserved)
  {
    hide Byte, Be16;
  }

  lemma InSlice(e: Bytes, lo: nat, hi: nat, i: nat, j: nat)
    requires lo <= hi <= |e| && i <= j <= hi - lo
    ensures e[lo..hi][i..j] == e[lo + i..lo + j]
    ensures forall k :: i <= k < j ==> e[lo..hi][k] == e[lo + k]
  {
    assert forall k :: 0 <= k < j - i ==> e[lo..hi][i..j][k] == e[lo + i..lo + j][k];
  }

  /** The encoded frame is found to be what it is. */
  lemma EncodedLayout(f: TcpFrame)
    requires Fits(f)
    ensures LayoutOf(EncodeTcp(f)) == Some(LayoutOfTcp(f))
    ensures FieldBeforePayload(LayoutOfTcp(f)) && FieldBehindAddresses(LayoutOfTcp(f))
  {
    hide EncodeTcp, LayoutOf, Be16, Byte, Value;
    var e := EncodeTcp(f);
    EncodedFields(f);
    var first, offset := 0x45 + |f.ipOptions| / 4, 16 * (5 + |f.tcpOptions| / 4) + f.reserved;
    ValueOfByte(first);
    ValueOfByte(offset);
    ReadBe16Of(TotalLength(f));
    assert e[16] == Be16(TotalLength(f))[0] && e[17] == Be16(TotalLength(f))[1];
    ValueIs(e[12], 8);
    ValueIs(e[13], 0);
    ValueIs(e[23], 6);
    LayoutFromValues(e, |f.ipOptions| / 4, |f.tcpOptions| / 4, f.reserved, TotalLength(f));
  }

  lemma LayoutFromValues(e: Bytes, ipWords: nat, tcpWords: nat, reserved: nat, total: nat)
    requires |e| >= 34 && ipWords <= 10 && tcpWords <= 10 && reserved < 16
    requires Value(e[12]) == 8 && Value(e[13]) == 0 && Value(e[23]) == 6
    requires Value(e[14]) == 0x45 + ipWords && ReadBe16(e, 16) == total && 14 + total <= |e|
    requires 40 + 4 * ipWords + 4 * tcpWords < total
    requires Value(e[46 + 4 * ipWords]) == 16 * (5 + tcpWords) + reserved
    ensures LayoutOf(e) == Some(Layout(34 + 4 * ipWords, 54 + 4 * ipWords + 4 * tcpWords, 14 + total))
  {
    hide Value;
  }

  // ---------------------------------------------------------------- redaction

  /** The frame with another checksum and payload, around what does not change. */
  function Ahead(f: TcpFrame): Bytes
    requires Fits(f)
  {
    f.macs + [0x08, 0x00] + IpHeader(f) + BeforeChecksum(f)
  }

  lemma AroundChecksum(f: TcpFrame)
    requires Fits(f)
    ensures |Ahead(f)| == 50 + |f.ipOptions|
    ensures EncodeTcp(f) == Ahead(f) + Be16(f.checksum) + BehindChecksum(f) + f.payload + f.trailer
  {
    hide IpHeader, BeforeChecksum, Be16;
  }

  lemma SameAround(f: TcpFrame, payload: Bytes, checksum: nat)
    requires Fits(f) && |payload| == |f.payload| && checksum <= 0xffff
    ensures var g := f.(payload := payload, checksum := checksum);
            Fits(g) && Ahead(g) == Ahead(f) && BehindChecksum(g) == BehindChecksum(f) && Pseudo(g) == Pseudo(f)
  {
    hide Be16, Byte;
  }

  lemma Be16OfRead(e: Bytes, at: nat)
    requires at + 2 <= |e|
    ensures ReadBe16(e, at) <= 0xffff && Be16(ReadBe16(e, at)) == e[at..at + 2]
  {
    hide Value, Byte;
    ByteOfValue(e[at]);
    ByteOfValue(e[at + 1]);
    var a, b := Value(e[at]), Value(e[at + 1]);
    assert (0x100 * a + b) / 0x100 == a && (0x100 * a + b) % 0x100 == b;
  }

  /** Five pieces put together, and where they are. */
  lemma FivePieces(a: Bytes, x: Bytes, b: Bytes, p: Bytes, t: Bytes)
    ensures var e := a + x + b + p + t; var n := |a| + |x| + |b| + |p|;
            && |e| == n + |t| && e[..|a|] == a && e[|a|..|a| + |x|] == x && e[|a| + |x|..n - |p|] == b
            && e[n - |p|..n] == p && e[n..] == t
  {
  }

  lemma FromPieces(e: Bytes, i: nat, j: nat, k: nat, n: nat)
    requires i <= j <= k <= n <= |e|
    ensures e == e[..i] + e[i..j] + e[j..k] + e[k..n] + e[n..]
  {
  }

  /** Outside the checksum field and the payload no byte of a touched frame changes. */
  lemma PiecesKept(d: Bytes, i: nat, j: nat)
    requires Bodies(d) != [] && i <= j <= |d|
    requires var l := LayoutOf(d).value; j <= l.tcpStart + 16 || (l.tcpStart + 18 <= i && j <= l.payloadStart) || l.ipEnd <= i
    ensures RedactData(d)[i..j] == d[i..j]
  {
    hide RedactData, Scan, LayoutOf, InSome;
    var l := LayoutOf(d).value;
    BodiesWithin(d);
    forall k | i <= k < j ensures RedactData(d)[k] == d[k] {
      RedactDataAt(d, k);
      assert !InSome(k, Bodies(d)) by { OutsideBodies(Bodies(d), l.payloadStart + 20, l.ipEnd, k); }
    }
  }

  lemma OutsideBodies(rs: seq<Region>, lo: nat, hi: nat, k: nat)
    requires Within(rs, lo, hi) && (k < lo || k >= hi)
    ensures !InSome(k, rs)
  {
  }

  /** A touched frame is the same frame with another checksum and payload. */
  lemma TouchedShape(f: TcpFrame)
    requires Fits(f) && Bodies(EncodeTcp(f)) != []
    ensures var d, e, l := EncodeTcp(f), RedactData(EncodeTcp(f)), LayoutOfTcp(f);
            && l.ipEnd <= |e| == |d| && l.payloadStart <= l.ipEnd && l.tcpStart + 18 <= |e|
            && var g := f.(payload := e[l.payloadStart..l.ipEnd], checksum := ReadBe16(e, l.tcpStart + 16));
            && Fits(g) && e == EncodeTcp(g) && Pseudo(g) == Pseudo(f)
  {
    hide RedactData, Bodies, Ahead, EncodeTcp, Be16, Pseudo, BehindChecksum, ReadBe16, Fits;
    var d, e, l := EncodeTcp(f), RedactData(EncodeTcp(f)), LayoutOfTcp(f);
    TouchedPieces(f);
    Be16OfRead(e, l.tcpStart + 16);
    var payload, checksum := e[l.payloadStart..l.ipEnd], ReadBe16(e, l.tcpStart + 16);
    SameAround(f, payload, checksum);
    AroundChecksum(f.(payload := payload, checksum := checksum));
  }

  /** The five pieces of a touched frame. */
  lemma TouchedPieces(f: TcpFrame)
    requires Fits(f) && Bodies(EncodeTcp(f)) != []
    ensures var e, l := RedactData(EncodeTcp(f)), LayoutOfTcp(f);
            && |e| == |EncodeTcp(f)| && l.tcpStart + 18 <= l.payloadStart <= l.ipEnd <= |e|
            && l.ipEnd - l.payloadStart == |f.payload|
            && e == Ahead(f) + e[l.tcpStart + 16..l.tcpStart + 18] + BehindChecksum(f) + e[l.payloadStart..l.ipEnd]
                    + f.trailer
  {
    hide RedactData, Bodies, LayoutOf, Ahead, EncodeTcp, Be16, BehindChecksum, IpHeader;
    var d, e, l := EncodeTcp(f), RedactData(EncodeTcp(f)), LayoutOfTcp(f);
    EncodedLayout(f);
    AroundChecksum(f);
    BehindLength(f);
    FivePieces(Ahead(f), Be16(f.checksum), BehindChecksum(f), f.payload, f.trailer);
    FromPieces(e, l.tcpStart + 16, l.tcpStart + 18, l.payloadStart, l.ipEnd);
    PiecesKept(d, 0, l.tcpStart + 16);
    PiecesKept(d, l.tcpStart + 18, l.payloadStart);
    PiecesKept(d, l.ipEnd, |d|);
    EndsAreSlices(d, e, l.tcpStart + 16, l.ipEnd);
  }

  lemma BehindLength(f: TcpFrame)
    requires Fits(f)
    ensures |BehindChecksum(f)| == 2 + |f.tcpOptions|
  {
  }

  lemma EndsAreSlices(d: Bytes, e: Bytes, i: nat, n: nat)
    requires |e| == |d| && i <= |d| && n <= |d|
    ensures e[0..i] == e[..i] && d[0..i] == d[..i] && e[n..|d|] == e[n..] && d[n..|d|] == d[n..]
  {
  }

  /** The sum the redactor makes verify is the one a receiver takes. */
  lemma VerifiesIsAccepted(f: TcpFrame)
    requires Fits(f)
    ensures var d, l := EncodeTcp(f), LayoutOfTcp(f);
            && 34 <= |d| && l.tcpStart <= l.ipEnd <= |d| && l.ipEnd <= l.tcpStart + 0xffff
            && (Verifies(d, l) <==> Accepted(f))
  {
    hide EncodeTcp, Segment, RfcSumParts, Be16, IpHeader;
    EncodedIp(f);
    EncodedFields(f);
    var d, l := EncodeTcp(f), LayoutOfTcp(f);
    assert PseudoHeader(d, l) == Pseudo(f);
    assert d[l.tcpStart..l.ipEnd] == Segment(f);
  }

  ghost predicate HasLogin(frames: seq<BcFrame>) {
    exists i :: 0 <= i < |frames| && frames[i].cmdId == 1 && frames[i].body != []
  }

  lemma {:induction false} LoginRegionsIff(frames: seq<BcFrame>, p: nat)
    requires AllValid(frames)
    ensures LoginRegions(frames, p) != [] <==> HasLogin(frames)
    decreases |frames|
  {
    hide Stands, Encode;
    if frames != [] {
      assert Valid(frames[0]);
      LoginRegionsIff(frames[1..], p + |Encode(frames[0])|);
      if HasLogin(frames[1..]) {
        var i :| 0 <= i < |frames[1..]| && frames[1..][i].cmdId == 1 && frames[1..][i].body != [];
        assert frames[i + 1].cmdId == 1;
      }
      if HasLogin(frames) {
        var i :| 0 <= i < |frames| && frames[i].cmdId == 1 && frames[i].body != [];
        if i > 0 { assert frames[1..][i - 1].cmdId == 1; }
      }
    }
  }

  /** A captured frame whose TCP payload is a run of Baichuan frames: without a login it stays as it is;
      with one it becomes the same frame with every login body wiped and a checksum a receiver accepts. */
  lemma TcpFrameRedacted(f: TcpFrame, frames: seq<BcFrame>, t: Bytes)
    requires Fits(f) && AllValid(frames) && CutOff(t) && f.payload == EncodeAll(frames) + t
    ensures !HasLogin(frames) ==> RedactData(EncodeTcp(f)) == EncodeTcp(f)
    ensures HasLogin(frames) ==>
              var e := RedactData(EncodeTcp(f));
              && 52 + |f.ipOptions| <= |e|
              && var g := f.(payload := EncodeAll(WipedAll(frames)) + t, checksum := ReadBe16(e, 50 + |f.ipOptions|));
              && Fits(g) && e == EncodeTcp(g) && Accepted(g)
  {
    hide RedactData, LayoutOf, EncodeTcp, EncodeAll, WipedAll, LoginRegions, Scan, HasLogin, Valid, CutOff, Verifies, Fits;
    hide Accepted, RfcSumParts;
    var d, l := EncodeTcp(f), LayoutOfTcp(f);
    EncodedLayout(f);
    PayloadPlaced(f);
    WipedClasses(frames);
    ScanFindsLogins(d, l.payloadStart, l.ipEnd, frames, t);
    LoginRegionsIff(frames, l.payloadStart);
    if HasLogin(frames) {
      TouchedShape(f);
      PayloadRedacted(d, frames, t);
      ChecksumVerifies(d);
      var e := RedactData(d);
      var g := f.(payload := e[l.payloadStart..l.ipEnd], checksum := ReadBe16(e, l.tcpStart + 16));
      VerifiesIsAccepted(g);
      SameLayout(f, g);
    } else {
      NothingToRedact(d);
    }
  }

  lemma NothingToRedact(d: Bytes)
    requires Bodies(d) == []
    ensures RedactData(d) == d
  {
  }

  lemma SameLayout(f: TcpFrame, g: TcpFrame)
    requires |g.ipOptions| == |f.ipOptions| && |g.tcpOptions| == |f.tcpOptions| && |g.payload| == |f.payload|
    ensures LayoutOfTcp(g) == LayoutOfTcp(f)
  {
  }

  lemma PayloadPlaced(f: TcpFrame)
    requires Fits(f)
    ensures var d, l := EncodeTcp(f), LayoutOfTcp(f);
            l.payloadStart <= l.ipEnd <= |d| && d[l.payloadStart..l.ipEnd] == f.payload
  {
    hide Ahead, Be16, EncodeTcp, IpHeader;
    AroundChecksum(f);
    FivePieces(Ahead(f), Be16(f.checksum), BehindChecksum(f), f.payload, f.trailer);
  }
}
