/** The peak-bitrate window of `buildReport` in `app/src/stream-diagnostic.ts`. Times are integer
    milliseconds; rates are exact reals. */
module StreamDiagnostic {

  const WINDOW_MS: int := 1000

  ghost predicate NonDecreasing(times: seq<int>) {
    forall i, j :: 0 <= i <= j < |times| ==> times[i] <= times[j]
  }

  function Sum(sizes: seq<nat>, lo: nat, hi: nat): nat
    requires lo <= hi <= |sizes|
    decreases hi - lo
  {
    if lo == hi then 0 else Sum(sizes, lo, hi - 1) + sizes[hi - 1]
  }

  /** `j` starts the widest window that ends at frame `i` and spans at most a second. */
  ghost predicate WidestWindow(times: seq<int>, j: nat, i: nat) {
    && j <= i < |times|
    && times[i] - times[j] <= WINDOW_MS
    && forall k :: 0 <= k < j ==> times[i] - times[k] > WINDOW_MS
  }

  /** Kilobits per second of a window of the given bytes and milliseconds. */
  function Kbps(bytes: nat, millis: int): real
    requires millis > 0
  {
    bytes as real * 8.0 / 1000.0 / (millis as real / 1000.0)
  }

  /** The rate frame `i` contributes through the window from `j`: none if the window has no duration. */
  function Rate(times: seq<int>, sizes: seq<nat>, j: nat, i: nat): real
    requires j <= i < |times| == |sizes|
  {
    if times[i] - times[j] > 0 then Kbps(Sum(sizes, j, i + 1), times[i] - times[j]) else 0.0
  }

  /** `peak` is the maximum, over the first `n` frames, of the rate over the widest window ending there. */
  ghost predicate IsPeak(times: seq<int>, sizes: seq<nat>, n: nat, peak: real)
    requires n <= |times| == |sizes|
  {
    && peak >= 0.0
    && (forall i, j :: 0 <= j <= i < n && WidestWindow(times, j, i) ==> Rate(times, sizes, j, i) <= peak)
    && (peak == 0.0 || exists i, j :: 0 <= j <= i < n && WidestWindow(times, j, i) && Rate(times, sizes, j, i) == peak)
  }

  lemma WidestUnique(times: seq<int>, i: nat, j: nat, k: nat)
    requires WidestWindow(times, j, i) && WidestWindow(times, k, i)
    ensures j == k
  {
  }

  /** Every frame ends a widest window, so the maximum ranges over all frames. */
  lemma {:induction false} WidestExists(times: seq<int>, i: nat, j: nat)
    requires NonDecreasing(times) && j <= i < |times|
    requires forall k :: 0 <= k < j ==> times[i] - times[k] > WINDOW_MS
    ensures exists w: nat :: w <= i && WidestWindow(times, w, i)
    decreases i - j
  {
    if times[i] - times[j] <= WINDOW_MS {
      assert WidestWindow(times, j, i);
    } else {
      WidestExists(times, i, j + 1);
    }
  }

  lemma PeakUnique(times: seq<int>, sizes: seq<nat>, n: nat, p: real, q: real)
    requires n <= |times| == |sizes|
    requires IsPeak(times, sizes, n, p) && IsPeak(times, sizes, n, q)
    ensures p == q
  {
  }

  lemma {:induction false} SumDropFirst(sizes: seq<nat>, lo: nat, hi: nat)
    requires lo < hi <= |sizes|
    ensures Sum(sizes, lo, hi) == sizes[lo] + Sum(sizes, lo + 1, hi)
    decreases hi - lo
  {
    if lo + 1 < hi {
      SumDropFirst(sizes, lo, hi - 1);
    }
  }

  lemma PeakStep(times: seq<int>, sizes: seq<nat>, i: nat, j: nat, peak: real)
    requires i < |times| == |sizes| && WidestWindow(times, j, i)
    requires IsPeak(times, sizes, i, peak)
    ensures var r := Rate(times, sizes, j, i); IsPeak(times, sizes, i + 1, if r > peak then r else peak)
  {
    var r := Rate(times, sizes, j, i);
    var next := if r > peak then r else peak;
    forall i', j' | 0 <= j' <= i' < i + 1 && WidestWindow(times, j', i')
      ensures Rate(times, sizes, j', i') <= next
    {
      if i' == i { WidestUnique(times, i, j, j'); }
    }
    if r > peak {
      assert 0 <= j <= i < i + 1 && WidestWindow(times, j, i) && Rate(times, sizes, j, i) == next;
    } else if peak != 0.0 {
      var i', j' :| 0 <= j' <= i' < i && WidestWindow(times, j', i') && Rate(times, sizes, j', i') == peak;
      assert 0 <= j' <= i' < i + 1;
    }
  }

  /** No frame before `start` is within a second of frame `i`. */
  ghost predicate Behind(times: seq<int>, start: nat, i: nat) {
    start <= i < |times| && forall k :: 0 <= k < start ==> times[i] - times[k] > WINDOW_MS
  }

  lemma BehindStays(times: seq<int>, start: nat, i: nat)
    requires NonDecreasing(times) && Behind(times, start, i) && i + 1 < |times|
    ensures Behind(times, start, i + 1)
  {
    assert times[i] <= times[i + 1];
  }

  /** One pass with two pointers. `moves` counts how often either pointer advances. */
  method PeakBitrate(frameTimes: seq<int>, frameSizes: seq<nat>) returns (bitratePeakKbps: real, ghost moves: nat)
    requires |frameTimes| == |frameSizes| && NonDecreasing(frameTimes)
    ensures IsPeak(frameTimes, frameSizes, |frameTimes|, bitratePeakKbps)
    ensures moves <= 2 * |frameTimes|
  {
    hide IsPeak, Kbps, NonDecreasing;
    bitratePeakKbps, moves := 0.0, 0;
    var windowStart: nat, windowBytes: nat := 0, 0;
    assert IsPeak(frameTimes, frameSizes, 0, 0.0) by { NothingYet(frameTimes, frameSizes); }
    for i := 0 to |frameTimes|
      invariant windowStart <= i
      invariant windowBytes == Sum(frameSizes, windowStart, i)
      invariant i < |frameTimes| ==> Behind(frameTimes, windowStart, i)
      invariant IsPeak(frameTimes, frameSizes, i, bitratePeakKbps)
      invariant moves <= i + windowStart
    {
      windowBytes := windowBytes + frameSizes[i];
      moves := moves + 1;
      while windowStart < i && frameTimes[i] - frameTimes[windowStart] > 1000
        invariant Behind(frameTimes, windowStart, i)
        invariant windowBytes == Sum(frameSizes, windowStart, i + 1)
        invariant moves <= i + 1 + windowStart
        decreases i - windowStart
      {
        SumDropFirst(frameSizes, windowStart, i + 1);
        windowBytes := windowBytes - frameSizes[windowStart];
        windowStart := windowStart + 1;
        moves := moves + 1;
      }
      assert WidestWindow(frameTimes, windowStart, i);
      PeakStep(frameTimes, frameSizes, i, windowStart, bitratePeakKbps);
      var millis := frameTimes[i] - frameTimes[windowStart];
      if millis > 0 {
        var kbps := Kbps(windowBytes, millis);
        if kbps > bitratePeakKbps {
          bitratePeakKbps := kbps;
        }
      } else {
        assert bitratePeakKbps >= 0.0 by { PeakNonNegative(frameTimes, frameSizes, i, bitratePeakKbps); }
      }
      if i + 1 < |frameTimes| {
        BehindStays(frameTimes, windowStart, i);
      }
    }
  }

  lemma NothingYet(times: seq<int>, sizes: seq<nat>)
    requires |times| == |sizes|
    ensures IsPeak(times, sizes, 0, 0.0)
  {
  }

  lemma PeakNonNegative(times: seq<int>, sizes: seq<nat>, n: nat, peak: real)
    requires n <= |times| == |sizes| && IsPeak(times, sizes, n, peak)
    ensures peak >= 0.0
  {
  }

  /** At that rate in bits per millisecond, the time carries at least, or exactly, the bytes. */
  predicate CarriesAtLeast(rate: real, millis: int, bytes: nat) { rate * millis as real >= (8 * bytes) as real }

  predicate CarriesExactly(rate: real, millis: int, bytes: nat) { rate * millis as real == (8 * bytes) as real }

  /** The peak in numbers: bits per millisecond, which is kilobits per second. For each frame it is at
      least eight times the bytes of the widest window of at most 1000 ms ending there, over the window's
      duration, and it equals that for some frame unless it is zero. */
  lemma PeakInNumbers(times: seq<int>, sizes: seq<nat>, peak: real, i: nat, j: nat)
    requires |times| == |sizes| && IsPeak(times, sizes, |times|, peak)
    requires j <= i < |times| && times[i] - times[j] <= 1000 && forall k :: 0 <= k < j ==> times[i] - times[k] > 1000
    ensures times[i] - times[j] > 0 ==> CarriesAtLeast(peak, times[i] - times[j], Sum(sizes, j, i + 1))
    ensures peak > 0.0 ==> exists i, j :: 0 <= j <= i < |times| && AttainedAt(times, sizes, peak, j, i)
  {
    hide Rate, Sum, CarriesAtLeast, CarriesExactly;
    assert WidestWindow(times, j, i);
    if times[i] - times[j] > 0 { RateInNumbers(times, sizes, j, i, peak); }
    if peak > 0.0 {
      var i', j' :| 0 <= j' <= i' < |times| && WidestWindow(times, j', i') && Rate(times, sizes, j', i') == peak;
      RatePositive(times, sizes, j', i');
      RateInNumbers(times, sizes, j', i', peak);
      assert AttainedAt(times, sizes, peak, j', i');
    }
  }

  ghost predicate AttainedAt(times: seq<int>, sizes: seq<nat>, peak: real, j: nat, i: nat)
    requires j <= i < |times| == |sizes|
  {
    && 0 < times[i] - times[j] <= 1000 && (forall k :: 0 <= k < j ==> times[i] - times[k] > 1000)
    && CarriesExactly(peak, times[i] - times[j], Sum(sizes, j, i + 1))
  }

  lemma RatePositive(times: seq<int>, sizes: seq<nat>, j: nat, i: nat)
    requires j <= i < |times| == |sizes|
    ensures Rate(times, sizes, j, i) > 0.0 ==> times[i] - times[j] > 0
  {
  }

  lemma RateInNumbers(times: seq<int>, sizes: seq<nat>, j: nat, i: nat, peak: real)
    requires j <= i < |times| == |sizes| && times[i] - times[j] > 0
    ensures Rate(times, sizes, j, i) <= peak <==> CarriesAtLeast(peak, times[i] - times[j], Sum(sizes, j, i + 1))
    ensures Rate(times, sizes, j, i) == peak <==> CarriesExactly(peak, times[i] - times[j], Sum(sizes, j, i + 1))
  {
    hide Sum, Kbps, CarriesAtLeast, CarriesExactly;
    KbpsTimes(Sum(sizes, j, i + 1), times[i] - times[j]);
    CarriesIff(Kbps(Sum(sizes, j, i + 1), times[i] - times[j]), peak, times[i] - times[j], Sum(sizes, j, i + 1));
  }

  lemma CarriesIff(x: real, peak: real, millis: int, bytes: nat)
    requires millis > 0 && x * millis as real == (8 * bytes) as real
    ensures x <= peak <==> CarriesAtLeast(peak, millis, bytes)
    ensures x == peak <==> CarriesExactly(peak, millis, bytes)
  {
    OrderTimes(x, peak, millis as real);
  }

  lemma KbpsTimes(bytes: nat, millis: int)
    requires millis > 0
    ensures Kbps(bytes, millis) * millis as real == (8 * bytes) as real
  {
    var b, m := bytes as real, millis as real;
    var x := b * 8.0 / 1000.0;
    var y := m / 1000.0;
    assert x / y * y == x;
    assert m == y * 1000.0;
  }

  lemma OrderTimes(x: real, y: real, m: real)
    requires m > 0.0
    ensures x <= y <==> x * m <= y * m
    ensures x == y <==> x * m == y * m
  {
    if x < y {
      ProductPositive(y - x, m);
      assert y * m - x * m == (y - x) * m;
    } else if y < x {
      ProductPositive(x - y, m);
      assert x * m - y * m == (x - y) * m;
    }
  }

  lemma ProductPositive(x: real, m: real)
    requires x > 0.0 && m > 0.0
    ensures x * m > 0.0
  {
  }

  /** A window's bytes are the sizes of its frames added up. */
  lemma {:induction false} SumInNumbers(sizes: seq<nat>, lo: nat, mid: nat, hi: nat)
    requires lo <= mid <= hi <= |sizes|
    ensures Sum(sizes, lo, hi) == Sum(sizes, lo, mid) + Sum(sizes, mid, hi)
    ensures lo + 1 == hi ==> Sum(sizes, lo, hi) == sizes[lo]
    decreases hi - mid
  {
    if mid < hi {
      SumInNumbers(sizes, lo, mid, hi - 1);
    }
  }
}
