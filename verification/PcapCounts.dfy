/** The redactor's counters count what their names say: distinct bytes, login frames, packets. */
module PcapCounts {
  import opened ByteStrings
  import opened PcapRedact
  import opened PcapProofs

  // ---------------------------------------------------------------- regions and the bytes in them

  /** Regions in order that do not overlap. */
  ghost predicate Apart(rs: seq<Region>) {
    forall i, j :: 0 <= i < j < |rs| ==> rs[i].from + rs[i].size <= rs[j].from
  }

  /** The bodies a scan meets do not overlap. */
  lemma {:induction false} ScanApart(d: Bytes, p: nat, end: nat)
    requires end <= |d|
    ensures Apart(Scan(d, p, end))
    decreases end - p
  {
    hide StartsWithMagic, FrameSize, IsLogin, HeaderLen, BodyLen;
    if p + 20 <= end {
      var h := d[p..p + 20];
      if !StartsWithMagic(h) {
        ScanApart(d, p + 1, end);
      } else if p + FrameSize(h) <= end {
        BodyFits(h);
        ScanApart(d, p + FrameSize(h), end);
        ScanWithin(d, p + FrameSize(h), end);
      }
    }
  }

  ghost function Covered(rs: seq<Region>, n: nat): set<nat> {
    set k: nat | k < n && InSome(k, rs)
  }

  ghost function Interval(from: nat, size: nat): set<nat> {
    set k: nat | k < from + size && Inside(k, Region(from, size))
  }

  lemma {:induction false} IntervalSize(from: nat, size: nat)
    ensures |Interval(from, size)| == size
    decreases size
  {
    if size > 0 {
      IntervalSize(from, size - 1);
      assert Interval(from, size) == Interval(from, size - 1) + {from + size - 1};
    } else {
      assert Interval(from, size) == {};
    }
  }

  /** Regions that do not overlap hold as many bytes as their sizes add up to. */
  lemma {:induction false} CoveredSize(rs: seq<Region>, n: nat)
    requires Within(rs, 0, n) && Apart(rs)
    ensures |Covered(rs, n)| == TotalSize(rs)
    decreases |rs|
  {
    if rs == [] {
      assert Covered(rs, n) == {};
    } else {
      var before, last := rs[..|rs| - 1], rs[|rs| - 1];
      CoveredSize(before, n);
      IntervalSize(last.from, last.size);
      CoveredSnoc(before, last, n);
      assert before + [last] == rs;
      assert Covered(before, n) !! Interval(last.from, last.size);
    }
  }

  lemma CoveredSnoc(rs: seq<Region>, r: Region, n: nat)
    requires r.from + r.size <= n
    ensures Covered(rs + [r], n) == Covered(rs, n) + Interval(r.from, r.size)
  {
    forall k: nat ensures InSome(k, rs + [r]) <==> InSome(k, rs) || Inside(k, r) {
      InSomeConcat(k, rs, [r]);
      if Inside(k, r) { assert Inside(k, [r][0]); }
    }
  }

  lemma {:induction false} TotalSizeConcat(x: seq<Region>, y: seq<Region>)
    ensures TotalSize(x + y) == TotalSize(x) + TotalSize(y)
    decreases |y|
  {
    if y == [] {
      assert x + y == x;
    } else {
      assert (x + y)[..|x + y| - 1] == x + y[..|y| - 1];
      TotalSizeConcat(x, y[..|y| - 1]);
    }
  }

  lemma {:induction false} TotalSizeShift(rs: seq<Region>, n: nat)
    ensures TotalSize(Shift(rs, n)) == TotalSize(rs)
    decreases |rs|
  {
    if rs != [] {
      assert Shift(rs, n)[..|rs| - 1] == Shift(rs[..|rs| - 1], n);
      TotalSizeShift(rs[..|rs| - 1], n);
    }
  }

  lemma InSomeShift(k: nat, rs: seq<Region>, n: nat)
    ensures InSome(k, Shift(rs, n)) <==> k >= n && InSome(k - n, rs)
  {
    if InSome(k, Shift(rs, n)) {
      var i :| 0 <= i < |rs| && Inside(k, Shift(rs, n)[i]);
      assert Inside(k - n, rs[i]);
    }
    if k >= n && InSome(k - n, rs) {
      var i :| 0 <= i < |rs| && Inside(k - n, rs[i]);
      assert Inside(k, Shift(rs, n)[i]);
    }
  }

  // ---------------------------------------------------------------- all login bodies of a capture

  ghost predicate InFile(b: Bytes, rs: seq<Region>) {
    forall i :: 0 <= i < |rs| ==> rs[i].from + rs[i].size <= |b|
  }

  /** The login bodies of the given packets, as regions of the file. */
  ghost function BodiesOf(b: Bytes, rs: seq<Region>): seq<Region>
    requires InFile(b, rs)
    decreases |rs|
  {
    if rs == [] then [] else Shift(Bodies(Slice(b, rs[0])), rs[0].from) + BodiesOf(b, rs[1..])
  }

  lemma FrameBodies(d: Bytes)
    ensures Within(Bodies(d), 0, |d|) && Apart(Bodies(d))
  {
    hide LayoutOf, Scan;
    if LayoutOf(d).Some? {
      BodiesWithin(d);
      ScanApart(d, LayoutOf(d).value.payloadStart, LayoutOf(d).value.ipEnd);
    }
  }

  /** They do not overlap, between packets neither. */
  lemma {:induction false} BodiesOfApart(b: Bytes, rs: seq<Region>, lo: nat)
    requires InFile(b, rs) && Ordered(rs, |b|) && forall i :: 0 <= i < |rs| ==> lo <= rs[i].from
    ensures Within(BodiesOf(b, rs), lo, |b|) && Apart(BodiesOf(b, rs))
    decreases |rs|
  {
    hide Bodies;
    if rs != [] {
      FrameBodies(Slice(b, rs[0]));
      BodiesOfApart(b, rs[1..], rs[0].from + rs[0].size);
    }
  }

  lemma {:induction false} BodiesOfTotals(b: Bytes, rs: seq<Region>)
    requires InFile(b, rs)
    ensures TotalSize(BodiesOf(b, rs)) == Totals(b, rs).bytesRedacted
    ensures |BodiesOf(b, rs)| == Totals(b, rs).loginFramesRedacted
    decreases |rs|
  {
    hide Bodies;
    if rs != [] {
      var first := Bodies(Slice(b, rs[0]));
      BodiesOfTotals(b, rs[1..]);
      TotalSizeConcat(Shift(first, rs[0].from), BodiesOf(b, rs[1..]));
      TotalSizeShift(first, rs[0].from);
    }
  }

  lemma {:induction false} InBodiesOf(b: Bytes, rs: seq<Region>, k: nat)
    requires InFile(b, rs)
    ensures InSome(k, BodiesOf(b, rs)) <==> exists i: nat :: i < |rs| && IsLoginByte(b, rs[i], k)
    decreases |rs|
  {
    hide Bodies, InSome, IsLoginByte;
    if rs == [] {
      NoRegion(k);
    } else {
      var first, rest := Bodies(Slice(b, rs[0])), rs[1..];
      InBodiesOf(b, rest, k);
      InSomeConcat(k, Shift(first, rs[0].from), BodiesOf(b, rest));
      InSomeShift(k, first, rs[0].from);
      LoginByteInFirst(b, rs[0], k);
      if i: nat :| i < |rest| && IsLoginByte(b, rest[i], k) { assert IsLoginByte(b, rs[i + 1], k); }
      if i: nat :| i < |rs| && IsLoginByte(b, rs[i], k) {
        if i > 0 { assert IsLoginByte(b, rest[i - 1], k); }
      }
    }
  }

  lemma NoRegion(k: nat)
    ensures !InSome(k, [])
  {
  }

  lemma LoginByteInFirst(b: Bytes, r: Region, k: nat)
    requires r.from + r.size <= |b|
    ensures IsLoginByte(b, r, k) <==> k >= r.from && InSome(k - r.from, Bodies(Slice(b, r)))
  {
    hide Bodies;
    FrameBodies(Slice(b, r));
  }

  // ---------------------------------------------------------------- packets that had a login body

  ghost function TouchedPackets(b: Bytes, rs: seq<Region>): set<Region>
    requires InFile(b, rs)
  {
    set r | r in rs && Bodies(Slice(b, r)) != []
  }

  lemma TouchedHasData(d: Bytes)
    ensures Bodies(d) != [] ==> |d| > 0
  {
  }

  lemma {:induction false} TouchedTotals(b: Bytes, rs: seq<Region>)
    requires InFile(b, rs) && Ordered(rs, |b|)
    ensures |TouchedPackets(b, rs)| == Totals(b, rs).packetsTouched
    decreases |rs|
  {
    hide Bodies;
    if rs == [] {
      assert TouchedPackets(b, rs) == {};
    } else {
      var rest := rs[1..];
      TouchedTotals(b, rest);
      TouchedHasData(Slice(b, rs[0]));
      if Bodies(Slice(b, rs[0])) != [] {
        assert TouchedPackets(b, rs) == {rs[0]} + TouchedPackets(b, rest);
        assert rs[0] !in rest;
      } else {
        assert TouchedPackets(b, rs) == TouchedPackets(b, rest);
      }
    }
  }

  // ---------------------------------------------------------------- main result

  /** Position `k` of the file lies in a login body of some packet. */
  ghost predicate InLoginBody(b: Bytes, k: nat) {
    exists i: nat :: i < |PacketsOf(b)| && IsLoginByte(b, PacketsOf(b)[i], k)
  }

  ghost function LoginBytes(b: Bytes): set<nat> {
    set k: nat | k < |b| && InLoginBody(b, k)
  }

  /** The counters are the number of distinct bytes zeroed, of login bodies (nonempty and apart, so as
      many login frames), of packets with one, and of packet blocks met. */
  lemma CountersAreExact(b: Bytes)
    requires Redacted(b).Some?
    ensures InFile(b, PacketsOf(b))
    ensures var c, bodies := Redacted(b).value.1, BodiesOf(b, PacketsOf(b));
            && c.bytesRedacted == |LoginBytes(b)|
            && c.loginFramesRedacted == |bodies| && Within(bodies, 0, |b|) && Apart(bodies)
            && (forall k: nat :: k < |b| ==> (k in LoginBytes(b) <==> InSome(k, bodies)))
            && c.packetsTouched == |TouchedPackets(b, PacketsOf(b))|
            && c.packetsTotal == |PacketsOf(b)| + (if EndsTooLong(b) then 1 else 0)
  {
    hide Redacted, PacketsOf, Bodies, IsLoginByte, InSome;
    PacketsOrdered(b);
    CountersAreTotals(b);
    var rs := PacketsOf(b);
    BodiesOfApart(b, rs, 0);
    BodiesOfTotals(b, rs);
    TouchedTotals(b, rs);
    var bodies := BodiesOf(b, rs);
    CoveredSize(bodies, |b|);
    forall k: nat ensures InSome(k, bodies) <==> InLoginBody(b, k) {
      InBodiesOf(b, rs, k);
    }
    assert Covered(bodies, |b|) == LoginBytes(b);
  }
}
