/** Two frames whose headers are shorter than the standards allow. The redactor does not check these
    lengths; the frames show what then fails. */
module PcapOddHeaders {
  import opened Octets
  import opened ByteStrings
  import opened Checksum
  import opened PcapRedact
  import opened PcapProofs

  const LOGIN_WITH_ONE_BYTE: Bytes := [0xf0, 0xde, 0xbc, 0x0a, 1, 0, 0, 0, 1, 0, 0, 0, 0, 0, 0, 0, 0, 0, 0, 0, 0x2a]

  const LOGIN_WITHOUT_BODY: Bytes := [0xf0, 0xde, 0xbc, 0x0a, 1, 0, 0, 0, 1, 0, 0, 0] + Zeros(9)

  const ETHERNET: Bytes := [0, 0, 0, 0, 0, 0, 0, 0, 0, 0, 0, 0, 8, 0]

  lemma {:induction false} ZerosSum(n: nat)
    ensures WordSum(Zeros(n)) == 0
    decreases n
  {
    if n == 1 {
      ZeroByte();
    } else if n > 1 {
      ZeroByte();
      assert Zeros(n)[2..] == Zeros(n - 2);
      ZerosSum(n - 2);
    }
  }

  lemma ZeroByte()
    ensures Value(0) == 0
  {
  }

  lemma FourBytes(a: bv8, b: bv8, c: bv8, d: bv8)
    ensures WordSum([a, b, c, d]) == 0x100 * Value(a) + Value(b) + 0x100 * Value(c) + Value(d)
  {
    hide Value, WordSum;
    var s := [a, b, c, d];
    assert s[2..] == [c, d] && [c, d][2..] == [];
    WordSumUnfold(s);
    WordSumUnfold([c, d]);
    WordSumUnfold([]);
  }

  // ---------------------------------------------------------------- an IPv4 header length of zero

  /** The IPv4 header claims no length, so the TCP header starts at the same byte. */
  const NO_LENGTH_HEADERS: Bytes :=
    ETHERNET + [0x40, 0, 0, 41, 0, 0, 0, 0, 0, 6, 0, 0, 0x50, 0, 0, 0, 0, 0, 0, 0]

  const NO_IP_LENGTH: Bytes := NO_LENGTH_HEADERS + LOGIN_WITH_ONE_BYTE

  lemma LoginHeader()
    ensures var h := LOGIN_WITH_ONE_BYTE[..20];
            StartsWithMagic(h) && HeaderLen(h) == 20 && BodyLen(h) == 1 && IsLogin(h)
  {
    var h: Bytes := [0xf0, 0xde, 0xbc, 0x0a, 1, 0, 0, 0, 1, 0, 0, 0, 0, 0, 0, 0, 0, 0, 0, 0];
    assert LOGIN_WITH_ONE_BYTE[..20] == h;
    assert h[..4] == BC_MAGIC;
    assert h[4..8] == h[8..12] == [1, 0, 0, 0];
    assert Value(0) == 0 && Value(1) == 1;
  }

  /** A payload that is this login frame is scanned as its one body byte. */
  lemma LoginScanned(d: Bytes, p: nat)
    requires |d| == p + 21 && d[p..] == LOGIN_WITH_ONE_BYTE
    ensures Scan(d, p, |d|) == [Region(p + 20, 1)]
  {
    hide StartsWithMagic, HeaderLen, BodyLen, IsLogin;
    LoginHeader();
    assert d[p..p + 20] == d[p..][..20];
  }

  lemma NoIpLengthLayout()
    ensures LayoutOf(NO_IP_LENGTH) == Some(Layout(14, 34, 55))
    ensures Bodies(NO_IP_LENGTH) == [Region(54, 1)]
  {
    hide LayoutOf, Scan;
    var d := NO_IP_LENGTH;
    NoIpLengthFields(d);
    assert d[34..] == LOGIN_WITH_ONE_BYTE;
    LoginScanned(d, 34);
  }

  lemma NoIpLengthFields(d: Bytes)
    requires |d| == 55 && d[12] == 8 && d[13] == 0 && d[14] == 0x40 && d[16] == 0 && d[17] == 41 && d[23] == 6
    requires d[26] == 0x50
    ensures LayoutOf(d) == Some(Layout(14, 34, 55))
  {
    assert Value(8) == 8 && Value(0) == 0 && Value(0x40) == 0x40 && Value(41) == 41 && Value(6) == 6 && Value(0x50) == 0x50;
  }

  /** With a zero header length the new checksum need not verify, and a second pass changes it again. */
  lemma NoIpLengthFails()
    ensures var d := NO_IP_LENGTH; var e := RedactData(d);
            && LayoutOf(d) == Some(Layout(14, 34, 55)) && FieldBeforePayload(LayoutOf(d).value)
            && !Verifies(e, LayoutOf(d).value) && RedactData(e) != e
  {
    hide LayoutOf, Bodies, RedactData, Verifies;
    var d, l := NO_IP_LENGTH, Layout(14, 34, 55);
    NoIpLengthLayout();
    NoIpLengthSum();
    RedactDataIdempotent(d);
    ChecksumVerifies(d);
  }

  /** The frame with its login body zeroed. */
  const NO_IP_LENGTH_WIPED: Bytes := NO_LENGTH_HEADERS + LOGIN_WITHOUT_BODY

  lemma NoIpLengthWiped()
    ensures ZeroAll(NO_IP_LENGTH, [Region(54, 1)]) == NO_IP_LENGTH_WIPED
  {
    var rs := [Region(54, 1)];
    assert rs[..0] == [];
    assert ZeroAll(NO_IP_LENGTH, rs) == Fill(ZeroAll(NO_IP_LENGTH, []), rs[0]);
    assert Fill(NO_IP_LENGTH, rs[0]) == NO_IP_LENGTH[..54] + Zeros(1) + NO_IP_LENGTH[55..];
  }

  lemma LoginSum()
    ensures WordSum(LOGIN_WITHOUT_BODY) == 110312
  {
    hide WordSum, Zeros;
    var magic, one: Bytes := [0xf0, 0xde, 0xbc, 0x0a], [1, 0, 0, 0];
    assert LOGIN_WITHOUT_BODY == magic + (one + (one + Zeros(9)));
    WordSumSplit(magic, one + (one + Zeros(9)));
    WordSumSplit(one, one + Zeros(9));
    WordSumSplit(one, Zeros(9));
    FourBytes(0xf0, 0xde, 0xbc, 0x0a);
    FourBytes(1, 0, 0, 0);
    ZerosSum(9);
    assert Value(0xf0) == 0xf0 && Value(0xde) == 0xde && Value(0xbc) == 0xbc && Value(0x0a) == 0x0a;
    assert Value(0) == 0 && Value(1) == 1;
  }

  lemma NoIpLengthSum()
    ensures |ZeroAll(NO_IP_LENGTH, [Region(54, 1)])| == 55
    ensures !Verifies(ZeroAll(NO_IP_LENGTH, [Region(54, 1)]), Layout(14, 34, 55))
  {
    hide WordSum, RfcSumParts, ZeroAll, Residue;
    var z, l := NO_IP_LENGTH_WIPED, Layout(14, 34, 55);
    NoIpLengthWiped();
    AddressChecksum(z, l, z, [0, 0]);
    NoIpLengthParts();
    ResidueFull(SumBesides(z, l));
  }

  lemma NoIpLengthHeaderSum()
    ensures WordSum(NO_LENGTH_HEADERS[14..30]) == 36911
  {
    hide WordSum;
    assert NO_LENGTH_HEADERS[14..30] == [0x40, 0, 0, 41] + ([0, 0, 0, 0] + ([0, 6, 0, 0] + [0x50, 0, 0, 0]));
    WordSumSplit([0x40, 0, 0, 41], [0, 0, 0, 0] + ([0, 6, 0, 0] + [0x50, 0, 0, 0]));
    WordSumSplit([0, 0, 0, 0], [0, 6, 0, 0] + [0x50, 0, 0, 0]);
    WordSumSplit([0, 6, 0, 0], [0x50, 0, 0, 0]);
    FourBytes(0x40, 0, 0, 41);
    FourBytes(0, 0, 0, 0);
    FourBytes(0, 6, 0, 0);
    FourBytes(0x50, 0, 0, 0);
    assert Value(0x50) == 0x50 && Value(0x40) == 0x40 && Value(41) == 41 && Value(6) == 6 && Value(0) == 0;
  }

  lemma NoIpLengthParts()
    ensures |NO_IP_LENGTH_WIPED| == 55
    ensures WordSum([0, 0]) == 0
    ensures SumBesides(NO_IP_LENGTH_WIPED, Layout(14, 34, 55)) == 167750
  {
    hide WordSum, Be16;
    var z := NO_IP_LENGTH_WIPED;
    LoginSum();
    TwoByteSum(0, 0);
    ReadBe16Of(41);
    assert z[26..30] == [0x50, 0, 0, 0];
    FourBytes(0x50, 0, 0, 0);
    assert z[32..34] + [0, 6] == [0, 0, 0, 6];
    WordSumSplit([0, 0, 0, 6], Be16(41));
    FourBytes(0, 0, 0, 6);
    assert z[14..30] == NO_LENGTH_HEADERS[14..30];
    NoIpLengthHeaderSum();
    assert z[32..55] == [0, 0] + LOGIN_WITHOUT_BODY;
    WordSumSplit([0, 0], LOGIN_WITHOUT_BODY);
    assert Value(0x50) == 0x50 && Value(0x40) == 0x40 && Value(41) == 41 && Value(6) == 6 && Value(0) == 0;
  }

  // ---------------------------------------------------------------- a data offset of four words

  const FRONT: Bytes := ETHERNET + [0x45, 0, 0, 57, 0, 0, 0, 0, 0, 6, 0, 0, 0, 0, 0, 0, 0, 0, 0, 0]

  const TCP_OF_16: Bytes := [0, 0, 0, 0, 0, 0, 0, 0, 0, 0, 0, 0, 0x40, 0, 0, 0]

  /** The TCP header claims 16 bytes, so the login frame starts in the checksum field. */
  const SHORT_TCP: Bytes := FRONT + TCP_OF_16 + LOGIN_WITH_ONE_BYTE

  const SHORT_TCP_WIPED: Bytes := FRONT + TCP_OF_16 + LOGIN_WITHOUT_BODY

  lemma ShortTcpLayout()
    ensures LayoutOf(SHORT_TCP) == Some(Layout(34, 50, 71))
    ensures Bodies(SHORT_TCP) == [Region(70, 1)]
  {
    hide LayoutOf, Scan;
    var d := SHORT_TCP;
    ShortTcpFields(d);
    assert d[50..] == LOGIN_WITH_ONE_BYTE;
    LoginScanned(d, 50);
  }

  lemma ShortTcpFields(d: Bytes)
    requires |d| == 71 && d[12] == 8 && d[13] == 0 && d[14] == 0x45 && d[16] == 0 && d[17] == 57 && d[23] == 6
    requires d[46] == 0x40
    ensures LayoutOf(d) == Some(Layout(34, 50, 71))
  {
    assert Value(8) == 8 && Value(0) == 0 && Value(0x45) == 0x45 && Value(57) == 57 && Value(6) == 6 && Value(0x40) == 0x40;
  }

  lemma ShortTcpWiped()
    ensures ZeroAll(SHORT_TCP, [Region(70, 1)]) == SHORT_TCP_WIPED
  {
    var rs := [Region(70, 1)];
    assert rs[..0] == [];
    assert ZeroAll(SHORT_TCP, rs) == Fill(ZeroAll(SHORT_TCP, []), rs[0]);
    assert Fill(SHORT_TCP, rs[0]) == SHORT_TCP[..70] + Zeros(1) + SHORT_TCP[71..];
  }

  /** The segment with a zero checksum field. */
  lemma ShortTcpSegmentSum()
    ensures WordSum(TCP_OF_16 + [0, 0] + LOGIN_WITHOUT_BODY[2..]) == 65034
  {
    hide WordSum;
    FieldSum(TCP_OF_16, [0, 0], LOGIN_WITHOUT_BODY[2..]);
    assert TCP_OF_16 == Zeros(12) + [0x40, 0, 0, 0];
    WordSumSplit(Zeros(12), [0x40, 0, 0, 0]);
    ZerosSum(12);
    FourBytes(0x40, 0, 0, 0);
    LoginSum();
    assert LOGIN_WITHOUT_BODY == [0xf0, 0xde] + LOGIN_WITHOUT_BODY[2..];
    WordSumSplit([0xf0, 0xde], LOGIN_WITHOUT_BODY[2..]);
    TwoByteSum(0xf0, 0xde);
    TwoByteSum(0, 0);
    assert Value(0xf0) == 0xf0 && Value(0xde) == 0xde && Value(0x40) == 0x40 && Value(0) == 0;
  }

  lemma TwoByteSum(a: bv8, b: bv8)
    ensures WordSum([a, b]) == 0x100 * Value(a) + Value(b)
  {
    hide Value;
    assert [a, b][2..] == [];
  }

  lemma ShortTcpPseudoSum()
    ensures PseudoHeader(SHORT_TCP_WIPED, Layout(34, 50, 71)) == Zeros(8) + [0, 6] + Be16(37)
    ensures WordSum(Zeros(8) + [0, 6] + Be16(37)) == 43
  {
    hide WordSum, Be16;
    var z := SHORT_TCP_WIPED;
    assert z[26..30] + z[30..34] == Zeros(8);
    ZerosSum(8);
    FieldSum(Zeros(8), [0, 6], Be16(37));
    ReadBe16Of(37);
    WordSumUnfold([0, 6]);
    assert [0, 6][2..] == [];
    WordSumUnfold([]);
    assert Value(0) == 0 && Value(6) == 6;
  }

  lemma ZeroedSegment(front: Bytes, tcp: Bytes, payload: Bytes, l: Layout)
    requires |front| == l.tcpStart && |tcp| == 16 && |payload| >= 2
    ensures WithChecksum(front + tcp + payload, l, 0)[l.tcpStart..] == tcp + [0, 0] + payload[2..]
  {
    assert Be16(0) == [0, 0];
  }

  lemma ShortTcpChecksum()
    ensures Rechecksum(SHORT_TCP_WIPED, Layout(34, 50, 71)) == WithChecksum(SHORT_TCP_WIPED, Layout(34, 50, 71), 458)
  {
    hide WordSum, Be16, RfcSumParts, Residue, PseudoHeader;
    var z, l := SHORT_TCP_WIPED, Layout(34, 50, 71);
    ShortTcpPseudoSum();
    ShortTcpSegmentSum();
    var zeroed := WithChecksum(z, l, 0);
    ZeroedSegment(FRONT, TCP_OF_16, LOGIN_WITHOUT_BODY, l);
    assert zeroed[34..] == zeroed[34..71];
    SumOfTwo(PseudoHeader(z, l), zeroed[34..71]);
    SmallResidue(65077);
  }

  lemma SmallResidue(n: nat)
    requires 0 < n <= 0xffff
    ensures Residue(n) == n
  {
  }

  /** The new checksum overwrites the magic, so a second pass does not meet the login frame any more: the
      file stays the same and the counters differ. */
  lemma ShortTcpSecondPass()
    ensures var d := SHORT_TCP; var e := RedactData(d);
            && LayoutOf(d) == Some(Layout(34, 50, 71)) && FieldBehindAddresses(LayoutOf(d).value)
            && Bodies(d) == [Region(70, 1)] && Bodies(e) == [] && RedactData(e) == e
  {
    hide LayoutOf, Rechecksum, ZeroAll;
    var d, l := SHORT_TCP, Layout(34, 50, 71);
    ShortTcpLayout();
    ShortTcpWiped();
    ShortTcpChecksum();
    LayoutStable(d);
    var e := RedactData(d);
    assert e == WithChecksum(SHORT_TCP_WIPED, l, 458);
    assert e[50] == 1 && e[51] == 202;
    NoMagicAt(e, 50);
    NoMagicAt(e, 51);
    assert Scan(e, 52, 71) == [];
    assert Scan(e, 50, 71) == [];
  }

  lemma NoMagicAt(e: Bytes, p: nat)
    requires p + 20 <= |e| && e[p] != 0xf0 && e[p] != 0x0a
    ensures !StartsWithMagic(e[p..p + 20])
  {
    var h := e[p..p + 20];
    assert h[..4][0] == e[p];
  }
}
