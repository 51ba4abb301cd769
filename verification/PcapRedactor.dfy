/** The redactor as it runs: a block walk over one file buffer that is rewritten in place
    (`app/src/capture-pcap-redact.ts`). */
module PcapRedactor {
  import opened Octets
  import opened ByteStrings
  import opened Checksum
  import opened PcapRedact
  import opened PcapProofs

  datatype RedactionError = MissingShbMagic | BigEndian | ReadPastEnd

  /** The counters object the original passes down and updates. */
  class RedactionResult {
    var bytesRedacted: nat
    var loginFramesRedacted: nat
    var packetsTouched: nat
    var packetsTotal: nat

    ghost function View(): Counters
      reads this
    {
      Counters(bytesRedacted, loginFramesRedacted, packetsTouched, packetsTotal)
    }

    constructor ()
      ensures View() == NO_COUNTS
    {
      bytesRedacted, loginFramesRedacted, packetsTouched, packetsTotal := 0, 0, 0, 0;
    }
  }

  /** `buf.fill(0, from, to)`. */
  method FillZero(buf: array<bv8>, r: Region)
    requires r.from + r.size <= buf.Length
    modifies buf
    ensures buf[..] == Fill(old(buf[..]), r)
  {
    for i := 0 to r.size
      invariant forall k :: 0 <= k < buf.Length ==> buf[k] == if r.from <= k < r.from + i then 0 else old(buf[k])
    {
      buf[r.from + i] := 0;
    }
  }

  method WriteU16BE(buf: array<bv8>, value: nat, offset: nat)
    requires offset + 2 <= buf.Length && value <= 0xffff
    modifies buf
    ensures buf[..] == ReplaceAt(old(buf[..]), offset, Be16(value))
  {
    hide Byte;
    var bytes := Be16(value);
    buf[offset], buf[offset + 1] := bytes[0], bytes[1];
  }

  // ---------------------------------------------------------------- frames inside the file

  lemma ReplaceWhole(b: Bytes, start: nat, size: nat)
    requires start + size <= |b|
    ensures ReplaceAt(b, start, b[start..start + size]) == b
  {
  }

  lemma SliceOfReplacement(b: Bytes, start: nat, d: Bytes, from: nat, to_: nat)
    requires start + |d| <= |b| && from <= to_ <= |d|
    ensures ReplaceAt(b, start, d)[start + from..start + to_] == d[from..to_]
  {
  }

  lemma FillInside(b: Bytes, start: nat, d: Bytes, r: Region)
    requires start + |d| <= |b| && r.from + r.size <= |d|
    ensures Fill(ReplaceAt(b, start, d), Region(start + r.from, r.size)) == ReplaceAt(b, start, Fill(d, r))
  {
  }

  lemma ReplaceInside(b: Bytes, start: nat, d: Bytes, from: nat, s: Bytes)
    requires start + |d| <= |b| && from + |s| <= |d|
    ensures ReplaceAt(ReplaceAt(b, start, d), start + from, s) == ReplaceAt(b, start, ReplaceAt(d, from, s))
  {
  }

  lemma ZeroAllSnoc(d: Bytes, rs: seq<Region>, r: Region)
    ensures ZeroAll(d, rs + [r]) == Fill(ZeroAll(d, rs), r)
    ensures TotalSize(rs + [r]) == TotalSize(rs) + r.size
  {
    assert (rs + [r])[..|rs|] == rs;
  }

  /** Bytes at and after the scan position are still the original ones. */
  lemma UnscannedUntouched(d: Bytes, found: seq<Region>, p: nat)
    requires Within(found, 0, p) && p <= |d|
    ensures ZeroAll(d, found)[p..] == d[p..]
  {
    hide ZeroAll;
    forall k | p <= k < |d| ensures ZeroAll(d, found)[k] == d[k] {
      WithinWider(found, 0, p, 0, |d|);
      ZeroAllAt(d, found, k);
      assert !InSome(k, found);
    }
  }

  lemma HeaderUntouched(file: Bytes, start: nat, d: Bytes, found: seq<Region>, p: nat)
    requires start + |d| <= |file| && Within(found, 0, p) && p + 20 <= |d|
    ensures ReplaceAt(file, start, ZeroAll(d, found))[start + p..start + p + 20] == d[p..p + 20]
  {
    hide ZeroAll, ReplaceAt, Within;
    SliceOfReplacement(file, start, ZeroAll(d, found), p, p + 20);
    UnscannedUntouched(d, found, p);
    assert ZeroAll(d, found)[p..p + 20] == ZeroAll(d, found)[p..][..20];
    assert d[p..p + 20] == d[p..][..20];
  }

  /** Zero one body of the frame at `start` and count it. */
  method ZeroBody(buf: array<bv8>, ghost file: Bytes, start: nat, ghost d: Bytes, ghost found: seq<Region>, r: Region,
                  result: RedactionResult)
    requires start + |d| <= buf.Length == |file| && r.from + r.size <= |d|
    requires buf[..] == ReplaceAt(file, start, ZeroAll(d, found))
    modifies buf, result
    ensures buf[..] == ReplaceAt(file, start, ZeroAll(d, found + [r]))
    ensures result.View() == Counters(old(result.bytesRedacted) + r.size, old(result.loginFramesRedacted) + 1,
                                      old(result.packetsTouched), old(result.packetsTotal))
  {
    hide ZeroAll, ReplaceAt, Fill;
    FillZero(buf, Region(start + r.from, r.size));
    FillInside(file, start, ZeroAll(d, found), r);
    ZeroAllSnoc(d, found, r);
    result.bytesRedacted := result.bytesRedacted + r.size;
    result.loginFramesRedacted := result.loginFramesRedacted + 1;
  }

  lemma BodiesAreScanned(d: Bytes)
    requires LayoutOf(d).Some?
    ensures Bodies(d) == [] + Scan(d, LayoutOf(d).value.payloadStart, LayoutOf(d).value.ipEnd)
  {
  }

  lemma NoRegions(p: nat)
    ensures Within([], 0, p) && TotalSize([]) == 0
  {
  }

  lemma WithinSnoc(rs: seq<Region>, p: nat, r: Region, q: nat)
    requires Within(rs, 0, p) && p <= q && r.size > 0 && r.from + r.size <= q
    ensures Within(rs + [r], 0, q)
    ensures TotalSize(rs + [r]) == TotalSize(rs) + r.size
  {
    ZeroAllSnoc([], rs, r);
  }

  lemma WithinLater(rs: seq<Region>, p: nat, q: nat)
    requires Within(rs, 0, p) && p <= q
    ensures Within(rs, 0, q)
  {
  }

  /** What one iteration of the scan contributes to the bodies found so far. */
  lemma ScanUnfold(found: seq<Region>, d: Bytes, p: nat, end: nat)
    requires end <= |d|
    ensures p + 20 > end ==> found + Scan(d, p, end) == found
    ensures p + 20 <= end ==>
              var h := d[p..p + 20]; var next := p + FrameSize(h);
              if !StartsWithMagic(h) then Scan(d, p, end) == Scan(d, p + 1, end)
              else if next > end then found + Scan(d, p, end) == found
              else if IsLogin(h) then
                found + Scan(d, p, end) == found + [Region(p + HeaderLen(h), BodyLen(h))] + Scan(d, next, end)
              else Scan(d, p, end) == Scan(d, next, end)
  {
    hide StartsWithMagic, FrameSize, HeaderLen, BodyLen, IsLogin;
  }

  /** The scan loop over the payload of one frame at `start`. */
  method ZeroLogins(buf: array<bv8>, start: nat, length: nat, l: Layout, result: RedactionResult) returns (modified: bool)
    requires start + length <= buf.Length
    requires LayoutOf(buf[start..start + length]) == Some(l)
    modifies buf, result
    ensures var d := old(buf[start..start + length]);
            && buf[..] == ReplaceAt(old(buf[..]), start, ZeroAll(d, Bodies(d)))
            && (modified <==> Bodies(d) != [])
            && result.View() == Add(old(result.View()), Counters(TotalSize(Bodies(d)), |Bodies(d)|, 0, 0))
  {
    hide LayoutOf, Scan, ZeroAll, StartsWithMagic, FrameSize, HeaderLen, BodyLen, IsLogin, ReplaceAt;
    hide TotalSize, Within, Bodies;
    NoRegions(l.payloadStart);
    ghost var d, file := buf[start..start + length], buf[..];
    ghost var found: seq<Region> := [];
    modified := false;
    var p := l.payloadStart;
    BodiesAreScanned(d);
    NothingFound(file, start, d);
    while p + 20 <= l.ipEnd
      invariant l.payloadStart <= p <= l.ipEnd
      invariant Bodies(d) == found + Scan(d, p, l.ipEnd)
      invariant Within(found, 0, p)
      invariant buf[..] == ReplaceAt(file, start, ZeroAll(d, found))
      invariant modified <==> found != []
      invariant result.View() == Add(old(result.View()), Counters(TotalSize(found), |found|, 0, 0))
      decreases l.ipEnd - p
    {
      var h := buf[start + p..start + p + 20];
      assert h == d[p..p + 20] by {
        HeaderUntouched(file, start, d, found, p);
        assert h == buf[..][start + p..start + p + 20];
      }
      ScanUnfold(found, d, p, l.ipEnd);
      if !StartsWithMagic(h) {
        WithinLater(found, p, p + 1);
        p := p + 1;
        continue;
      }
      BodyFits(h);
      var frameEnd := p + FrameSize(h);
      if frameEnd > l.ipEnd {
        break;
      }
      if IsLogin(h) {
        WithinSnoc(found, p, Region(p + HeaderLen(h), BodyLen(h)), frameEnd);
        ZeroBody(buf, file, start, d, found, Region(p + HeaderLen(h), BodyLen(h)), result);
        modified := true;
        found := found + [Region(p + HeaderLen(h), BodyLen(h))];
      } else {
        WithinLater(found, p, frameEnd);
      }
      p := frameEnd;
    }
    ScanUnfold(found, d, p, l.ipEnd);
    assert found == Bodies(d);
  }

  lemma NothingFound(file: Bytes, start: nat, d: Bytes)
    requires start + |d| <= |file| && d == file[start..start + |d|]
    ensures ReplaceAt(file, start, ZeroAll(d, [])) == file
  {
    ReplaceWhole(file, start, |d|);
  }

  /** `redactInLinkFrame`: exactly the frame's bytes are rewritten, as `RedactData` says. */
  method RedactInLinkFrame(buf: array<bv8>, start: nat, length: nat, result: RedactionResult) returns (modified: bool)
    requires start + length <= buf.Length
    modifies buf, result
    ensures var d := old(buf[start..start + length]);
            && buf[..] == ReplaceAt(old(buf[..]), start, RedactData(d))
            && (modified <==> Bodies(d) != [])
            && result.View() == Add(old(result.View()), Counters(TotalSize(Bodies(d)), |Bodies(d)|, 0, 0))
  {
    hide LayoutOf, Scan, ZeroAll, RfcSumParts, Be16;
    ghost var file, d := buf[..], buf[start..start + length];
    ReplaceWhole(file, start, length);
    var layout := LayoutOf(buf[start..start + length]);
    if layout == None {
      return false;
    }
    var l := layout.value;
    LayoutFits(d);
    modified := ZeroLogins(buf, start, length, l, result);
    if modified {
      ghost var z := ZeroAll(d, Bodies(d));
      RewriteChecksum(buf, start, l, file, z);
    } else {
      NothingFound(file, start, d);
    }
  }

  /** Recompute the TCP checksum of the frame at `start`, in place. */
  method RewriteChecksum(buf: array<bv8>, start: nat, l: Layout, ghost file: Bytes, ghost z: Bytes)
    requires start + |z| <= buf.Length == |file| && buf[..] == ReplaceAt(file, start, z)
    requires IP_START + 20 <= |z| && l.tcpStart + 20 <= l.ipEnd <= |z| && l.ipEnd <= l.tcpStart + 0xffff
    modifies buf
    ensures buf[..] == ReplaceAt(file, start, Rechecksum(z, l))
  {
    hide RfcSumParts, Be16, ReplaceAt, WithChecksum;
    SliceOfReplacement(file, start, z, IP_START + 12, IP_START + 16);
    SliceOfReplacement(file, start, z, IP_START + 16, IP_START + 20);
    var tcpLen := l.ipEnd - l.tcpStart;
    var pseudo := buf[start + IP_START + 12..start + IP_START + 16] + buf[start + IP_START + 16..start + IP_START + 20]
                  + [0, 6] + Be16(tcpLen);
    assert pseudo == PseudoHeader(z, l) by {
      assert buf[start + IP_START + 12..start + IP_START + 16] == buf[..][start + IP_START + 12..start + IP_START + 16];
      assert buf[start + IP_START + 16..start + IP_START + 20] == buf[..][start + IP_START + 16..start + IP_START + 20];
    }
    WriteU16BE(buf, 0, start + l.tcpStart + 16);
    ReplaceInside(file, start, z, l.tcpStart + 16, Be16(0));
    ghost var zeroed := WithChecksum(z, l, 0);
    WithChecksumIsReplace(z, l, 0);
    SliceOfReplacement(file, start, zeroed, l.tcpStart, l.ipEnd);
    var segment := buf[start + l.tcpStart..start + l.ipEnd];
    assert segment == buf[..][start + l.tcpStart..start + l.ipEnd];
    TwoPartsLength(pseudo, segment);
    PartsSumBound([pseudo, segment]);
    var checksum := OnesComplementSum([pseudo, segment]);
    WriteU16BE(buf, checksum, start + l.tcpStart + 16);
    ReplaceInside(file, start, zeroed, l.tcpStart + 16, Be16(checksum));
    ReplaceField(z, l, 0, checksum);
    WithChecksumIsReplace(z, l, checksum);
  }

  lemma WithChecksumIsReplace(d: Bytes, l: Layout, n: nat)
    requires l.tcpStart + 18 <= |d| && n <= 0xffff
    ensures WithChecksum(d, l, n) == ReplaceAt(d, l.tcpStart + 16, Be16(n))
  {
    hide Be16;
  }

  lemma ReplaceField(d: Bytes, l: Layout, m: nat, n: nat)
    requires l.tcpStart + 18 <= |d| && m <= 0xffff && n <= 0xffff
    ensures ReplaceAt(WithChecksum(d, l, m), l.tcpStart + 16, Be16(n)) == WithChecksum(d, l, n)
  {
    hide Be16;
  }

  lemma TwoPartsLength(x: Bytes, y: Bytes)
    ensures PartsLength([x, y]) == |x| + |y|
  {
    assert [x, y][..1] == [x] && [x][..0] == [];
    assert PartsLength([x]) == PartsLength([]) + |x|;
  }

  // ---------------------------------------------------------------- the block walk

  /** The walk has rewritten `input[..off]`; the rest of the buffer is untouched. */
  ghost predicate Progress(input: Bytes, cur: Bytes, off: nat, counts: Counters) {
    && off <= |cur| == |input| && cur[off..] == input[off..]
    && (Redacted(input).None? <==> Redacted(input[off..]).None?)
    && (Redacted(input).Some? ==>
          && Redacted(input).value.0 == cur[..off] + Redacted(input[off..]).value.0
          && Redacted(input).value.1 == Add(counts, Redacted(input[off..]).value.1))
  }

  lemma ProgressStart(input: Bytes)
    ensures Progress(input, input, 0, NO_COUNTS)
  {
    hide Redacted;
    assert input[0..] == input;
    assert Redacted(input).Some? ==> input[..0] + Redacted(input).value.0 == Redacted(input).value.0;
  }

  /** The walk is over: what remains is copied as it is. */
  lemma ProgressStops(input: Bytes, cur: Bytes, off: nat, counts: Counters, last: Counters)
    requires Progress(input, cur, off, counts) && Redacted(input[off..]) == Some((input[off..], last))
    ensures Redacted(input) == Some((cur, Add(counts, last)))
  {
    assert cur == cur[..off] + cur[off..];
  }

  lemma NoPacketStep(input: Bytes, cur: Bytes, off: nat, counts: Counters)
    requires Progress(input, cur, off, counts)
    requires HasBlock(input[off..]) && PacketOf(input[off..]).NoPacket?
    ensures off + ReadU32(input[off..], 4) <= |cur|
    ensures Progress(input, cur, off + ReadU32(input[off..], 4), counts)
  {
    hide ReadU32, PacketOf, Redacted;
    var b := input[off..];
    var len := ReadU32(b, 4);
    OneBlock(b);
    assert b[len..] == input[off + len..] && cur[off + len..] == input[off + len..];
    assert cur[..off + len] == cur[..off] + b[..len];
  }

  lemma PacketStep(input: Bytes, cur: Bytes, off: nat, counts: Counters, next: Bytes)
    requires Progress(input, cur, off, counts)
    requires HasBlock(input[off..]) && PacketOf(input[off..]).DataAt?
    requires var b := input[off..]; var from, size := PacketOf(b).from, PacketOf(b).size;
             off + from + size <= |cur| && next == ReplaceAt(cur, off + from, RedactData(cur[off + from..off + from + size]))
    ensures var b := input[off..]; var from, size := PacketOf(b).from, PacketOf(b).size;
            && off + ReadU32(b, 4) <= |cur|
            && Progress(input, next, off + ReadU32(b, 4),
                        Add(counts, CountsOf(Bodies(cur[off + from..off + from + size]))))
  {
    hide ReadU32, PacketOf, Redacted, RedactData, Bodies, ReplaceAt;
    var b := input[off..];
    var len, from, size := ReadU32(b, 4), PacketOf(b).from, PacketOf(b).size;
    PacketInBlock(b);
    OneBlock(b);
    SuffixSlice(cur, off, from, from + size);
    SuffixSlice(cur, off, len, |b|);
    SuffixSlice(input, off, len, |b|);
    FrontReplaced(cur, off, len, from, RedactData(b[from..from + size]));
  }

  lemma SuffixSlice(s: Bytes, off: nat, lo: nat, hi: nat)
    requires lo <= hi && off + hi <= |s|
    ensures s[off..][lo..hi] == s[off + lo..off + hi]
    ensures off + hi == |s| ==> s[off..][lo..] == s[off + lo..]
  {
  }

  lemma FrontReplaced(cur: Bytes, off: nat, len: nat, from: nat, s: Bytes)
    requires off + len <= |cur| && from + |s| <= len
    ensures ReplaceAt(cur, off + from, s)[..off + len] == cur[..off] + ReplaceAt(cur[off..][..len], from, s)
    ensures ReplaceAt(cur, off + from, s)[off + len..] == cur[off + len..]
  {
  }

  lemma OneBlock(b: Bytes)
    requires HasBlock(b) && (PacketOf(b).NoPacket? || PacketOf(b).DataAt?)
    ensures var len := ReadU32(b, 4);
            && (Redacted(b).None? <==> Redacted(b[len..]).None?)
            && (Redacted(b).Some? ==>
                  && Redacted(b).value.0 == FirstBlock(b) + Redacted(b[len..]).value.0
                  && Redacted(b).value.1 ==
                     if PacketOf(b).NoPacket? then Redacted(b[len..]).value.1
                     else Add(CountsOf(PacketBodies(b)), Redacted(b[len..]).value.1))
    ensures PacketOf(b).NoPacket? ==> FirstBlock(b) == b[..ReadU32(b, 4)]
  {
    hide ReadU32, RedactData, Bodies, ReplaceAt;
  }

  function PacketBodies(b: Bytes): seq<Region>
    requires HasBlock(b) && PacketOf(b).DataAt?
  {
    PacketInBlock(b);
    Bodies(b[PacketOf(b).from..PacketOf(b).from + PacketOf(b).size])
  }

  /** The part of the block walk that handles one packet block. */
  method RedactPacket(ghost input: Bytes, buf: array<bv8>, off: nat, from: nat, size: nat, result: RedactionResult)
    requires Progress(input, buf[..], off, result.View())
    requires off <= |input| && HasBlock(input[off..]) && PacketOf(input[off..]) == DataAt(from, size)
    modifies buf, result
    ensures off + ReadU32(input[off..], 4) <= buf.Length
    ensures Progress(input, buf[..], off + ReadU32(input[off..], 4), result.View())
  {
    hide ReadU32, RedactData, Bodies, Redacted, ReplaceAt, Progress, HasBlock, PacketOf;
    PacketInBlock(input[off..]);
    Untouched(input, buf[..], off, result.View());
    ghost var file, counts := buf[..], result.View();
    result.packetsTotal := result.packetsTotal + 1;
    var touched := RedactInLinkFrame(buf, off + from, size, result);
    if touched {
      result.packetsTouched := result.packetsTouched + 1;
    }
    PacketStep(input, file, off, counts, buf[..]);
  }

  /** `redactPcapng` on the bytes of the input file: the bytes of the output file and the counters, or
      the error that is thrown before anything is written. */
  method RedactPcapng(input: Bytes) returns (r: Result<(Bytes, Counters), RedactionError>)
    ensures r == if |input| < 12 || ReadU32(input, 0) != SHB then Err(MissingShbMagic)
                 else if ReadU32(input, 8) != BYTE_ORDER_MAGIC_LE then Err(BigEndian)
                 else match Redacted(input)
                      case None => Err(ReadPastEnd)
                      case Some(out) => Ok(out)
  {
    hide ReadU32, RedactData, Bodies, Redacted, ReplaceAt, Progress;
    if |input| < 12 || ReadU32(input, 0) != SHB {
      return Err(MissingShbMagic);
    }
    if ReadU32(input, 8) != BYTE_ORDER_MAGIC_LE {
      return Err(BigEndian);
    }
    var buf := new bv8[|input|](i requires 0 <= i < |input| => input[i]);
    assert buf[..] == input;
    var result := new RedactionResult();
    ProgressStart(input);
    var off := 0;
    while off + 8 <= buf.Length
      invariant fresh(buf) && fresh(result) && buf.Length == |input| && off <= |input|
      invariant Progress(input, buf[..], off, result.View())
      decreases buf.Length - off
    {
      var cur := buf[off..];
      Untouched(input, buf[..], off, result.View());
      assert cur == buf[..][off..] == input[off..];
      var blockLen := ReadU32(cur, 4);
      if blockLen < 12 || off + blockLen > buf.Length {
        break;
      }
      match PacketOf(cur) {
        case ReadFails =>
          WalkFails(input, buf[..], off, result.View());
          return Err(ReadPastEnd);
        case TooLong =>
          ghost var counts := result.View();
          result.packetsTotal := result.packetsTotal + 1;
          WalkStopsTooLong(input, buf[..], off, counts);
          return Ok((buf[..], Counters(result.bytesRedacted, result.loginFramesRedacted, result.packetsTouched,
                                       result.packetsTotal)));
        case NoPacket =>
          NoPacketStep(input, buf[..], off, result.View());
        case DataAt(from, size) =>
          RedactPacket(input, buf, off, from, size, result);
      }
      off := off + blockLen;
    }
    WalkEnds(input, buf[..], off, result.View());
    r := Ok((buf[..], Counters(result.bytesRedacted, result.loginFramesRedacted, result.packetsTouched,
                               result.packetsTotal)));
  }

  lemma Untouched(input: Bytes, cur: Bytes, off: nat, counts: Counters)
    requires Progress(input, cur, off, counts)
    ensures off <= |cur| == |input| && cur[off..] == input[off..]
  {
  }

  lemma WalkFails(input: Bytes, cur: Bytes, off: nat, counts: Counters)
    requires Progress(input, cur, off, counts) && HasBlock(input[off..]) && PacketOf(input[off..]).ReadFails?
    ensures Redacted(input) == None
  {
    hide ReadU32, PacketOf, RedactData, Bodies, ReplaceAt;
  }

  lemma WalkStopsTooLong(input: Bytes, cur: Bytes, off: nat, counts: Counters)
    requires Progress(input, cur, off, counts) && HasBlock(input[off..]) && PacketOf(input[off..]).TooLong?
    ensures Redacted(input) == Some((cur, Add(counts, Counters(0, 0, 0, 1))))
  {
    hide ReadU32, PacketOf, RedactData, Bodies, ReplaceAt;
    ProgressStops(input, cur, off, counts, Counters(0, 0, 0, 1));
  }

  lemma NoBlockLeft(b: Bytes)
    requires !HasBlock(b)
    ensures Redacted(b) == Some((b, NO_COUNTS))
  {
    hide ReadU32, PacketOf, RedactData, Bodies, ReplaceAt;
  }

  lemma AddNothing(counts: Counters)
    ensures Add(counts, NO_COUNTS) == counts
  {
  }

  lemma WalkEnds(input: Bytes, cur: Bytes, off: nat, counts: Counters)
    requires Progress(input, cur, off, counts) && !HasBlock(input[off..])
    ensures Redacted(input) == Some((cur, counts))
  {
    hide *;
    Untouched(input, cur, off, counts);
    NoBlockLeft(input[off..]);
    ProgressStops(input, cur, off, counts, NO_COUNTS);
    AddNothing(counts);
  }
}
