/** What redaction means for a TCP payload that is a run of Baichuan frames, from the sending side. */
module PcapFrames {
  import opened ByteStrings
  import opened Octets
  import opened PcapRedact
  import opened PcapProofs

  /** A frame: bytes that are skipped before it, the fields of its header, the four header bytes that only
      the long form has, its body. */
  datatype BcFrame = BcFrame(
    gap: Bytes, reversed: bool, cmdId: nat, middle: Bytes, messageClass: nat, extra: Bytes, body: Bytes)

  function Le16(n: nat): (s: Bytes)
    requires n < 0x1_0000
    ensures |s| == 2
  {
    [Byte(n % 0x100), Byte(n / 0x100)]
  }

  function Magic(reversed: bool): (s: Bytes)
    ensures |s| == 4
  {
    if reversed then [0x0a, 0xbc, 0xde, 0xf0] else [0xf0, 0xde, 0xbc, 0x0a]
  }

  /** The 20 bytes every frame begins with. */
  function Header(f: BcFrame): Bytes
    requires f.messageClass < 0x1_0000
  {
    Magic(f.reversed) + Le32(f.cmdId) + Le32(|f.body|) + f.middle + Le16(f.messageClass)
  }

  function Encode(f: BcFrame): Bytes
    requires f.messageClass < 0x1_0000
  {
    f.gap + (Header(f) + f.extra + f.body)
  }

  /** One of the two magics stands at `j`. */
  predicate Stands(s: Bytes, j: nat) {
    && j + 4 <= |s|
    && ((s[j] == 0xf0 && s[j + 1] == 0xde && s[j + 2] == 0xbc && s[j + 3] == 0x0a)
        || (s[j] == 0x0a && s[j + 1] == 0xbc && s[j + 2] == 0xde && s[j + 3] == 0xf0))
  }

  /** Fields fit, class 0x6414 has the long header, and no magic begins in the gap. */
  ghost predicate Valid(f: BcFrame) {
    && IsUint32(f.cmdId) && IsUint32(|f.body|) && |f.middle| == 6 && f.messageClass < 0x1_0000
    && |f.extra| == (if f.messageClass == 0x6414 then 4 else 0)
    && forall j :: 0 <= j < |f.gap| ==> !Stands(Encode(f), j)
  }

  ghost predicate AllValid(frames: seq<BcFrame>) {
    forall i :: 0 <= i < |frames| ==> Valid(frames[i])
  }

  function EncodeAll(frames: seq<BcFrame>): Bytes
    requires forall i :: 0 <= i < |frames| ==> frames[i].messageClass < 0x1_0000
    decreases |frames|
  {
    if frames == [] then [] else Encode(frames[0]) + EncodeAll(frames[1..])
  }

  /** A login frame has command 1; it is left without its body's content. */
  function Wiped(f: BcFrame): BcFrame {
    if f.cmdId == 1 then f.(body := Zeros(|f.body|)) else f
  }

  function WipedAll(frames: seq<BcFrame>): (r: seq<BcFrame>)
    ensures |r| == |frames| && forall i :: 0 <= i < |frames| ==> r[i] == Wiped(frames[i])
    decreases |frames|
  {
    if frames == [] then [] else [Wiped(frames[0])] + WipedAll(frames[1..])
  }

  ghost predicate PartOf(t: Bytes, f: BcFrame) { Valid(f) && t < Encode(f) }

  /** How a segment may end: inside a frame, or with bytes that hold no magic 20 bytes before the end. */
  ghost predicate CutOff(t: Bytes) {
    || (exists f :: PartOf(t, f))
    || (forall j: nat :: j + 20 <= |t| ==> !Stands(t, j))
  }

  /** Where the login bodies of the frames lie when the first frame's gap starts at `p`. */
  function LoginRegions(frames: seq<BcFrame>, p: nat): seq<Region>
    requires forall i :: 0 <= i < |frames| ==> frames[i].messageClass < 0x1_0000
    decreases |frames|
  {
    if frames == [] then []
    else OwnRegion(frames[0], p) + LoginRegions(frames[1..], p + |Encode(frames[0])|)
  }

  function OwnRegion(f: BcFrame, p: nat): seq<Region> {
    if f.cmdId == 1 && f.body != [] then [Region(p + |f.gap| + 20 + |f.extra|, |f.body|)] else []
  }

  // ---------------------------------------------------------------- reading what was written

  lemma ReadLe16Of(n: nat)
    requires n < 0x1_0000
    ensures ReadLe16(Le16(n), 0) == n
  {
    hide Byte, Value;
    ValueOfByte(n % 0x100);
    ValueOfByte(n / 0x100);
  }

  lemma HeaderReads(f: BcFrame)
    requires Valid(f)
    ensures var h := Header(f);
            && |h| == 20 && StartsWithMagic(h)
            && BodyLen(h) == |f.body| && HeaderLen(h) == 20 + |f.extra| && FrameSize(h) == 20 + |f.extra| + |f.body|
            && (IsLogin(h) <==> f.cmdId == 1 && f.body != [])
    ensures |Encode(f)| == |f.gap| + 20 + |f.extra| + |f.body|
  {
    hide Le32, FromLe32, Le16, Stands, Value;
    var h := Header(f);
    FromLe32Of(f.cmdId);
    FromLe32Of(|f.body|);
    ReadLe16Of(f.messageClass);
    assert h[..4] == Magic(f.reversed) && h[4..8] == Le32(f.cmdId) && h[8..12] == Le32(|f.body|);
    assert h[18] == Le16(f.messageClass)[0] && h[19] == Le16(f.messageClass)[1];
  }

  lemma StandsIsMagic(d: Bytes, p: nat)
    requires p + 20 <= |d|
    ensures StartsWithMagic(d[p..p + 20]) <==> Stands(d, p)
  {
    var m := d[p..p + 20][..4];
    assert m[0] == d[p] && m[1] == d[p + 1] && m[2] == d[p + 2] && m[3] == d[p + 3];
  }

  lemma SamePrefix(s: Bytes, t: Bytes, n: nat, j: nat)
    requires n <= |s| && n <= |t| && s[..n] == t[..n] && j + 4 <= n
    ensures Stands(s, j) <==> Stands(t, j)
  {
    assert forall k :: 0 <= k < n ==> s[k] == s[..n][k] && t[k] == t[..n][k];
  }

  lemma StandsInSlice(d: Bytes, p: nat, end: nat, j: nat)
    requires p <= end <= |d| && p + j + 4 <= end
    ensures Stands(d, p + j) <==> Stands(d[p..end], j)
  {
    assert forall k :: 0 <= k < end - p ==> d[p..end][k] == d[p + k];
  }

  /** The scan passes over bytes at which no magic stands. */
  lemma {:induction false} ScanSkips(d: Bytes, p: nat, n: nat, end: nat)
    requires p + n <= end <= |d|
    requires forall q :: p <= q < p + n && q + 20 <= end ==> !Stands(d, q)
    ensures Scan(d, p, end) == Scan(d, p + n, end)
    decreases n
  {
    hide StartsWithMagic, FrameSize, HeaderLen, BodyLen, IsLogin, Stands;
    if n > 0 && p + 20 <= end {
      StandsIsMagic(d, p);
      assert !Stands(d, p);
      ScanSkips(d, p + 1, n - 1, end);
    }
  }

  /** A frame that begins after its gap: the scan meets its header. */
  lemma HeaderMet(d: Bytes, p: nat, end: nat, f: BcFrame)
    requires p <= end <= |d| && Valid(f) && p + |f.gap| + 20 <= end
    requires d[p..p + |f.gap| + 20] == Encode(f)[..|f.gap| + 20]
    ensures Scan(d, p, end) == Scan(d, p + |f.gap|, end)
    ensures d[p + |f.gap|..p + |f.gap| + 20] == Header(f)
  {
    hide Stands, Le32, Le16, Scan;
    var n := |f.gap|;
    var w := d[p..p + n + 20];
    HeaderReads(f);
    forall q | p <= q < p + n ensures !Stands(d, q) {
      StandsInSlice(d, p, p + n + 20, q - p);
      assert w[..n + 20] == w;
      SamePrefix(w, Encode(f), n + 20, q - p);
    }
    ScanSkips(d, p, n, end);
    assert w[n..] == Encode(f)[..n + 20][n..] == Header(f);
    assert w[n..] == d[p + n..p + n + 20];
  }

  lemma CutOffHasNone(d: Bytes, p: nat, end: nat)
    requires p <= end <= |d| && CutOff(d[p..end])
    ensures Scan(d, p, end) == []
  {
    hide Encode, Stands, Scan, PartOf;
    var t := d[p..end];
    if f :| PartOf(t, f) {
      CutOffFrame(d, p, end, f);
    } else {
      forall q | p <= q && q + 20 <= end ensures !Stands(d, q) { StandsInSlice(d, p, end, q - p); }
      NothingStands(d, p, end);
    }
  }

  lemma NothingStands(d: Bytes, p: nat, end: nat)
    requires p <= end <= |d| && forall q :: p <= q && q + 20 <= end ==> !Stands(d, q)
    ensures Scan(d, p, end) == []
  {
    hide Stands;
    ScanSkips(d, p, end - p, end);
  }

  lemma CutOffFrame(d: Bytes, p: nat, end: nat, f: BcFrame)
    requires p <= end <= |d| && PartOf(d[p..end], f)
    ensures Scan(d, p, end) == []
  {
    hide Encode, Stands, Scan;
    var n := |f.gap|;
    HeaderReads(f);
    if p + n + 20 <= end {
      PrefixOfPrefix(d, p, end, Encode(f), n + 20);
      HeaderMet(d, p, end, f);
      CutOffStops(d, p + n, end, f);
    } else {
      forall q | p <= q && q + 20 <= end ensures !Stands(d, q) { NotInGap(d, p, end, f, q); }
      NothingStands(d, p, end);
    }
  }

  lemma NotInGap(d: Bytes, p: nat, end: nat, f: BcFrame, q: nat)
    requires p <= end <= |d| && PartOf(d[p..end], f) && p <= q && q + 20 <= end && end < p + |f.gap| + 20
    ensures !Stands(d, q)
  {
    hide Encode, Stands;
    var t := d[p..end];
    StandsInSlice(d, p, end, q - p);
    SamePrefix(t, Encode(f), |t|, q - p);
  }

  lemma PrefixOfPrefix(d: Bytes, p: nat, end: nat, e: Bytes, n: nat)
    requires p <= end <= |d| && d[p..end] <= e && p + n <= end
    ensures d[p..p + n] == e[..n]
  {
    assert d[p..p + n] == d[p..end][..n];
  }

  lemma CutOffStops(d: Bytes, p: nat, end: nat, f: BcFrame)
    requires p + 20 <= end <= |d| && Valid(f) && d[p..p + 20] == Header(f) && end - p < 20 + |f.extra| + |f.body|
    ensures Scan(d, p, end) == []
  {
    hide Le32, Le16, Stands, StartsWithMagic, FrameSize;
    HeaderReads(f);
  }

  lemma FrameScanned(d: Bytes, p: nat, end: nat, f: BcFrame, rest: Bytes)
    requires p <= end <= |d| && Valid(f) && d[p..end] == Encode(f) + rest
    ensures p + |Encode(f)| <= end && d[p + |Encode(f)|..end] == rest
    ensures Scan(d, p, end) == OwnRegion(f, p) + Scan(d, p + |Encode(f)|, end)
  {
    hide StartsWithMagic, FrameSize, HeaderLen, BodyLen, IsLogin, Stands, Le32, Le16;
    var n, size := |f.gap|, |Encode(f)|;
    HeaderReads(f);
    assert d[p..p + n + 20] == d[p..end][..n + 20] == Encode(f)[..n + 20];
    HeaderMet(d, p, end, f);
    assert d[p + size..end] == d[p..end][size..] == rest;
  }

  /** The scan meets exactly the login frames of the run, whatever precedes and follows it. */
  lemma {:induction false} ScanFindsLogins(d: Bytes, p: nat, end: nat, frames: seq<BcFrame>, t: Bytes)
    requires p <= end <= |d| && AllValid(frames) && d[p..end] == EncodeAll(frames) + t && CutOff(t)
    ensures Scan(d, p, end) == LoginRegions(frames, p)
    decreases |frames|
  {
    hide Scan, Stands, Encode, CutOff;
    if frames == [] {
      assert d[p..end] == t;
      CutOffHasNone(d, p, end);
    } else {
      var f, rest := frames[0], EncodeAll(frames[1..]) + t;
      assert Valid(f) && d[p..end] == Encode(f) + rest;
      FrameScanned(d, p, end, f, rest);
      ScanFindsLogins(d, p + |Encode(f)|, end, frames[1..], t);
    }
  }

  // ---------------------------------------------------------------- wiping

  lemma WipedFrameLength(f: BcFrame)
    requires Valid(f)
    ensures |Encode(Wiped(f))| == |Encode(f)|
  {
    hide Le32, Le16, Stands;
  }

  lemma {:induction false} WipedLength(frames: seq<BcFrame>)
    requires AllValid(frames)
    ensures |EncodeAll(WipedAll(frames))| == |EncodeAll(frames)|
    decreases |frames|
  {
    hide Encode, Wiped, Stands;
    if frames != [] {
      assert Valid(frames[0]);
      WipedFrameLength(frames[0]);
      WipedClass(frames[0]);
      assert WipedAll(frames)[1..] == WipedAll(frames[1..]);
      WipedLength(frames[1..]);
    }
  }

  lemma WipedClass(f: BcFrame)
    ensures Wiped(f).messageClass == f.messageClass
  {
  }

  lemma WipedFrameAt(f: BcFrame, p: nat, k: nat)
    requires Valid(f) && k < |Encode(f)|
    ensures |Encode(Wiped(f))| == |Encode(f)|
    ensures Encode(Wiped(f))[k] == if InSome(p + k, OwnRegion(f, p)) then 0 else Encode(f)[k]
  {
    hide Le32, Le16, Stands;
    if f.cmdId == 1 {
      var front := f.gap + (Header(f) + f.extra);
      var r := Region(p + |f.gap| + 20 + |f.extra|, |f.body|);
      HeaderReads(f);
      assert Encode(f) == front + f.body && Encode(Wiped(f)) == front + Zeros(|f.body|);
      assert InSome(p + k, [r]) <==> Inside(p + k, r) by {
        if Inside(p + k, r) { assert Inside(p + k, [r][0]); }
      }
    }
  }

  lemma {:induction false} RegionsFrom(frames: seq<BcFrame>, p: nat)
    requires AllValid(frames)
    ensures forall i :: 0 <= i < |LoginRegions(frames, p)| ==>
              p <= LoginRegions(frames, p)[i].from
              && LoginRegions(frames, p)[i].from + LoginRegions(frames, p)[i].size <= p + |EncodeAll(frames)|
    decreases |frames|
  {
    hide Encode, Stands;
    if frames != [] {
      assert Valid(frames[0]);
      HeaderReads(frames[0]);
      RegionsFrom(frames[1..], p + |Encode(frames[0])|);
    }
  }

  /** Wiping the frames is zeroing those regions and nothing else. */
  lemma {:induction false} WipedAllAt(frames: seq<BcFrame>, p: nat, k: nat)
    requires AllValid(frames) && k < |EncodeAll(frames)| == |EncodeAll(WipedAll(frames))|
    ensures EncodeAll(WipedAll(frames))[k] == if InSome(p + k, LoginRegions(frames, p)) then 0 else EncodeAll(frames)[k]
    decreases |frames|
  {
    hide Encode, Wiped, OwnRegion, InSome, Stands;
    var f, rest := frames[0], frames[1..];
    var next := p + |Encode(f)|;
    assert Valid(f);
    WipedLength(rest);
    WipedClass(f);
    assert WipedAll(frames)[1..] == WipedAll(rest);
    InSomeConcat(p + k, OwnRegion(f, p), LoginRegions(rest, next));
    WipedFrameLength(f);
    if k < |Encode(f)| {
      WipedFrameAt(f, p, k);
      assert !InSome(p + k, LoginRegions(rest, next)) by { RegionsFrom(rest, next); NotBefore(LoginRegions(rest, next), next, p + k); }
    } else {
      WipedAllAt(rest, next, k - |Encode(f)|);
      assert !InSome(p + k, OwnRegion(f, p)) by { NotBehind(f, p, p + k); }
    }
  }

  lemma NotBefore(rs: seq<Region>, lo: nat, k: nat)
    requires k < lo && forall i :: 0 <= i < |rs| ==> lo <= rs[i].from
    ensures !InSome(k, rs)
  {
  }

  lemma NotBehind(f: BcFrame, p: nat, k: nat)
    requires Valid(f) && p + |Encode(f)| <= k
    ensures !InSome(k, OwnRegion(f, p))
  {
    HeaderReads(f);
  }

  /** The redacted TCP payload is the same run of frames with every login body wiped, and a frame cut
      off at the end of the segment stays as it is. Only where a data offset below five words puts the
      checksum field into the payload do its two bytes differ. */
  lemma PayloadRedacted(d: Bytes, frames: seq<BcFrame>, t: Bytes)
    requires LayoutOf(d).Some?
    requires AllValid(frames) && CutOff(t)
    requires var l := LayoutOf(d).value; d[l.payloadStart..l.ipEnd] == EncodeAll(frames) + t
    ensures LayoutOf(RedactData(d)) == LayoutOf(d)
    ensures var l, wiped := LayoutOf(d).value, EncodeAll(WipedAll(frames)) + t;
            && |wiped| == l.ipEnd - l.payloadStart
            && (forall k: nat :: k < |wiped| && !InChecksumField(l.payloadStart + k, l) ==>
                  RedactData(d)[l.payloadStart + k] == wiped[k])
            && (FieldBeforePayload(l) ==> RedactData(d)[l.payloadStart..l.ipEnd] == wiped)
  {
    hide LayoutOf, Scan, RedactData, EncodeAll, WipedAll, LoginRegions, InSome, Valid, CutOff, Wiped;
    WipedClasses(frames);
    var l, e := LayoutOf(d).value, RedactData(d);
    ScanFindsLogins(d, l.payloadStart, l.ipEnd, frames, t);
    WipedLength(frames);
    RegionsFrom(frames, l.payloadStart);
    var wiped := EncodeAll(WipedAll(frames)) + t;
    assert |wiped| == l.ipEnd - l.payloadStart;
    forall k: nat | k < |wiped| && !InChecksumField(l.payloadStart + k, l) ensures e[l.payloadStart + k] == wiped[k] {
      FrameByteExact(d, l.payloadStart + k);
      assert d[l.payloadStart + k] == d[l.payloadStart..l.ipEnd][k];
      if k < |EncodeAll(frames)| {
        WipedAllAt(frames, l.payloadStart, k);
      } else {
        NotAfter(Bodies(d), l.payloadStart + |EncodeAll(frames)|, l.payloadStart + k);
      }
    }
    if FieldBeforePayload(l) { assert e[l.payloadStart..l.ipEnd] == wiped; }
    LayoutKept(d);
  }

  lemma WipedClasses(frames: seq<BcFrame>)
    requires AllValid(frames)
    ensures forall i :: 0 <= i < |frames| ==> frames[i].messageClass < 0x1_0000
    ensures forall i :: 0 <= i < |frames| ==> WipedAll(frames)[i].messageClass < 0x1_0000
  {
    hide Stands, Encode;
    forall i | 0 <= i < |frames| ensures frames[i].messageClass < 0x1_0000 { assert Valid(frames[i]); }
  }

  lemma NotAfter(rs: seq<Region>, hi: nat, k: nat)
    requires k >= hi && forall i :: 0 <= i < |rs| ==> rs[i].from + rs[i].size <= hi
    ensures !InSome(k, rs)
  {
  }

  lemma LayoutKept(d: Bytes)
    requires LayoutOf(d).Some?
    ensures LayoutOf(RedactData(d)) == LayoutOf(d)
  {
    hide LayoutOf;
    if Bodies(d) != [] { LayoutStable(d); }
  }

  /** In the payload exactly the bytes of the scanned bodies become zero. */
  lemma FrameByteExact(d: Bytes, k: nat)
    requires LayoutOf(d).Some?
    requires LayoutOf(d).value.payloadStart <= k < LayoutOf(d).value.ipEnd && !InChecksumField(k, LayoutOf(d).value)
    ensures LayoutOf(d).value.ipEnd <= |d|
    ensures RedactData(d)[k] == if InSome(k, Bodies(d)) then 0 else d[k]
  {
    hide LayoutOf, Rechecksum, Scan;
    if Bodies(d) != [] {
      RedactDataAt(d, k);
    } else {
      assert !InSome(k, Bodies(d));
    }
  }
}
