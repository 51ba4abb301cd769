/** The 16-bit one's-complement sum of `app/src/capture-pcap-redact.ts` (RFC 1071, section 1). */
module Checksum {
  import opened Octets
  import opened ByteStrings

  /** The sum of the big-endian 16-bit words of a buffer, an odd last byte padded with zero. */
  function WordSum(s: Bytes): nat
    decreases |s|
  {
    if |s| == 0 then 0
    else if |s| == 1 then 0x100 * Value(s[0])
    else 0x100 * Value(s[0]) + Value(s[1]) + WordSum(s[2..])
  }

  function PartsSum(parts: seq<Bytes>): nat
    decreases |parts|
  {
    if parts == [] then 0 else PartsSum(parts[..|parts| - 1]) + WordSum(parts[|parts| - 1])
  }

  function PartsLength(parts: seq<Bytes>): nat
    decreases |parts|
  {
    if parts == [] then 0 else PartsLength(parts[..|parts| - 1]) + |parts[|parts| - 1]|
  }

  /** One's-complement addition with end-around carry. */
  function OnesAdd(a: nat, b: nat): nat {
    if a + b > 0xffff then a + b - 0xffff else a + b
  }

  /** RFC 1071: add the words one by one in one's complement. */
  function RfcSum(acc: nat, s: Bytes): nat
    decreases |s|
  {
    if |s| == 0 then acc
    else if |s| == 1 then OnesAdd(acc, 0x100 * Value(s[0]))
    else RfcSum(OnesAdd(acc, 0x100 * Value(s[0]) + Value(s[1])), s[2..])
  }

  function RfcSumParts(parts: seq<Bytes>): nat
    decreases |parts|
  {
    if parts == [] then 0 else RfcSum(RfcSumParts(parts[..|parts| - 1]), parts[|parts| - 1])
  }

  /** The residue of a sum modulo 65535, with 65535 standing for a nonzero multiple. */
  function Residue(sum: nat): nat {
    if sum == 0 then 0 else (sum - 1) % 0xffff + 1
  }

  /** The fold loop: `(sum & 0xffff) + (sum >>> 16)` until it fits 16 bits. */
  function Fold(sum: nat): nat
    decreases sum
  {
    if sum <= 0xffff then sum else Fold(sum % 0x1_0000 + sum / 0x1_0000)
  }

  lemma FoldStep(sum: nat)
    requires sum > 0xffff
    ensures sum % 0x1_0000 + sum / 0x1_0000 < sum
    ensures Residue(sum % 0x1_0000 + sum / 0x1_0000) == Residue(sum)
  {
    var q, r := sum / 0x1_0000, sum % 0x1_0000;
    assert sum - 1 == 0xffff * q + (q + r - 1);
    ModShift(q + r - 1, q);
  }

  lemma {:induction false} ModShift(n: nat, q: nat)
    ensures (n + 0xffff * q) % 0xffff == n % 0xffff
    decreases q
  {
    if q > 0 {
      ModShift(n, q - 1);
      assert n + 0xffff * q == (n + 0xffff * (q - 1)) + 0xffff;
    }
  }

  /** Folding computes the residue: the sum modulo 65535 is preserved at every turn. */
  lemma {:induction false} FoldIsResidue(sum: nat)
    ensures Fold(sum) == Residue(sum) <= 0xffff
    decreases sum
  {
    if sum > 0xffff {
      FoldStep(sum);
      FoldIsResidue(sum % 0x1_0000 + sum / 0x1_0000);
    }
  }

  lemma ResidueAdd(a: nat, b: nat)
    requires b <= 0xffff
    ensures OnesAdd(Residue(a), b) == Residue(a + b)
  {
    if a > 0 && b > 0 {
      var q, r := (a - 1) / 0xffff, (a - 1) % 0xffff;
      assert a - 1 == 0xffff * q + r;
      ModShift(r + b, q);
      assert a + b - 1 == (r + b) + 0xffff * q;
    }
  }

  lemma {:induction false} RfcSumIsResidue(total: nat, s: Bytes)
    ensures RfcSum(Residue(total), s) == Residue(total + WordSum(s))
    decreases |s|
  {
    hide Value, Residue;
    if |s| == 1 {
      ResidueAdd(total, 0x100 * Value(s[0]));
    } else if |s| > 1 {
      var w := 0x100 * Value(s[0]) + Value(s[1]);
      ResidueAdd(total, w);
      RfcSumIsResidue(total + w, s[2..]);
    }
  }

  /** Summing first and folding once is the RFC's word-by-word one's-complement sum. */
  lemma {:induction false} FoldIsRfcSum(parts: seq<Bytes>)
    ensures Fold(PartsSum(parts)) == RfcSumParts(parts)
    decreases |parts|
  {
    hide WordSum, RfcSum, Fold;
    FoldIsResidue(PartsSum(parts));
    if parts != [] {
      var before := parts[..|parts| - 1];
      FoldIsRfcSum(before);
      FoldIsResidue(PartsSum(before));
      RfcSumIsResidue(PartsSum(before), parts[|parts| - 1]);
    }
  }

  lemma {:induction false} WordSumBound(s: Bytes)
    ensures WordSum(s) <= 0xffff * ((|s| + 1) / 2)
    decreases |s|
  {
    hide Value;
    if |s| > 1 {
      WordSumBound(s[2..]);
    }
  }

  lemma {:induction false} PartsSumBound(parts: seq<Bytes>)
    ensures PartsSum(parts) <= 0xffff * ((PartsLength(parts) + |parts|) / 2)
    decreases |parts|
  {
    hide WordSum;
    if parts != [] {
      PartsSumBound(parts[..|parts| - 1]);
      WordSumBound(parts[|parts| - 1]);
      Halves(PartsLength(parts[..|parts| - 1]) + |parts| - 1, |parts[|parts| - 1]| + 1);
    }
  }

  lemma Halves(a: nat, b: nat)
    ensures a / 2 + b / 2 <= (a + b) / 2
  {
  }

  lemma {:induction false} WordSumSplit(s: Bytes, t: Bytes)
    requires |s| % 2 == 0
    ensures WordSum(s + t) == WordSum(s) + WordSum(t)
    decreases |s|
  {
    hide Value;
    if s == [] {
      assert s + t == t;
    } else {
      assert (s + t)[2..] == s[2..] + t;
      WordSumSplit(s[2..], t);
    }
  }

  /** `onesComplementSum(...parts)`. Below 2^32 `>>> 16` is an exact division, and the result is the
      complement of the sum of RFC 1071; `PartsSumBound` says which lengths keep the sum there. */
  method OnesComplementSum(parts: seq<Bytes>) returns (r: nat)
    ensures r <= 0xffff
    ensures PartsSum(parts) < TWO32 ==> r == 0xffff - RfcSumParts(parts)
  {
    hide WordSum, Fold, RfcSumParts;
    var sum: nat := 0;
    for n := 0 to |parts|
      invariant sum == PartsSum(parts[..n])
    {
      var part := parts[n];
      assert parts[..n + 1][..n] == parts[..n];
      var i := 0;
      ghost var base := sum;
      assert part[0..] == part;
      while i + 2 <= |part|
        invariant i <= |part|
        invariant sum + WordSum(part[i..]) == base + WordSum(part)
      {
        WordSumUnfold(part[i..]);
        assert part[i..][2..] == part[i + 2..];
        sum := sum + 0x100 * Value(part[i]) + Value(part[i + 1]);
        i := i + 2;
      }
      WordSumUnfold(part[i..]);
      if i < |part| {
        sum := sum + 0x100 * Value(part[i]);
      }
    }
    assert parts[..|parts|] == parts;
    FoldIsRfcSum(parts);
    sum := FoldCarries(sum);
    r := 0xffff - sum;
  }

  /** The closing loop of `onesComplementSum`. */
  method FoldCarries(total: nat) returns (sum: nat)
    ensures sum <= 0xffff
    ensures total < TWO32 ==> sum == Fold(total)
  {
    hide Fold;
    sum := total;
    while sum > 0xffff
      invariant total < TWO32 ==> sum < TWO32 && Fold(sum) == Fold(total)
      decreases sum
    {
      FoldStep(sum);
      FoldUnfold(sum);
      ToUint32Bound(sum);
      sum := sum % 0x1_0000 + ToUint32(sum) / 0x1_0000;
    }
    FoldUnfold(sum);
  }

  lemma ToUint32Bound(n: nat)
    ensures ToUint32(n) <= n && (n < TWO32 ==> ToUint32(n) == n)
  {
  }

  lemma WordSumUnfold(s: Bytes)
    ensures |s| == 0 ==> WordSum(s) == 0
    ensures |s| == 1 ==> WordSum(s) == 0x100 * Value(s[0])
    ensures |s| >= 2 ==> WordSum(s) == 0x100 * Value(s[0]) + Value(s[1]) + WordSum(s[2..])
  {
  }

  lemma FoldUnfold(sum: nat)
    ensures sum <= 0xffff ==> Fold(sum) == sum
    ensures sum > 0xffff ==> Fold(sum) == Fold(sum % 0x1_0000 + sum / 0x1_0000)
  {
  }

  /** A 16-bit value as two bytes, most significant first. */
  function Be16(n: nat): (s: Bytes)
    requires n <= 0xffff
    ensures |s| == 2
  {
    [Byte(n / 0x100), Byte(n % 0x100)]
  }

  /** `buf.readUInt16BE(offset)`. */
  function ReadBe16(buf: Bytes, offset: nat): nat
    requires offset + 2 <= |buf|
  {
    0x100 * Value(buf[offset]) + Value(buf[offset + 1])
  }

  lemma ReadBe16Of(n: nat)
    requires n <= 0xffff
    ensures ReadBe16(Be16(n), 0) == n && WordSum(Be16(n)) == n
  {
    hide Value, Byte;
    ValueOfByte(n / 0x100);
    ValueOfByte(n % 0x100);
    WordSumUnfold(Be16(n));
    WordSumUnfold(Be16(n)[2..]);
  }

  /** Write the checksum of everything, taken with a zero field, into the field: the sum over everything
      is then 0xffff, its complement 0. The field sits at an even offset of the second part. */
  lemma FilledFieldVerifies(pseudo: Bytes, head: Bytes, tail: Bytes)
    requires |head| % 2 == 0 && WordSum(pseudo) > 0
    ensures var sum := RfcSumParts([pseudo, head + Be16(0) + tail]);
            && sum <= 0xffff
            && RfcSumParts([pseudo, head + Be16(0xffff - sum) + tail]) == 0xffff
  {
    hide WordSum, Fold, RfcSum, RfcSumParts, Be16, Residue;
    var zero := [pseudo, head + Be16(0) + tail];
    FoldIsRfcSum(zero);
    FoldIsResidue(PartsSum(zero));
    var sum := RfcSumParts(zero);
    var full := [pseudo, head + Be16(0xffff - sum) + tail];
    FoldIsRfcSum(full);
    FoldIsResidue(PartsSum(full));
    TwoParts(pseudo, head, 0, tail);
    TwoParts(pseudo, head, 0xffff - sum, tail);
    ResidueFilled(PartsSum(zero));
  }

  lemma ResidueFilled(total: nat)
    requires total > 0
    ensures Residue(total) <= 0xffff && Residue(total + (0xffff - Residue(total))) == 0xffff
  {
    var q, r := (total - 1) / 0xffff, (total - 1) % 0xffff;
    assert total - 1 == 0xffff * q + r;
    ModShift(0xfffe, q);
    assert total + (0xffff - Residue(total)) - 1 == 0xfffe + 0xffff * q;
  }

  lemma TwoParts(pseudo: Bytes, head: Bytes, n: nat, tail: Bytes)
    requires |head| % 2 == 0 && n <= 0xffff
    ensures PartsSum([pseudo, head + Be16(n) + tail]) == WordSum(pseudo) + WordSum(head) + n + WordSum(tail)
  {
    hide WordSum, Be16;
    PartsOfTwo(pseudo, head + Be16(n) + tail);
    ReadBe16Of(n);
    FieldSum(head, Be16(n), tail);
  }

  // ---------------------------------------------------------------- a field that is summed twice

  lemma NearMultiple(q: int, t: int)
    requires -0xffff <= t <= 0xffff
    ensures (0xffff * q + t) % 0xffff == 0 <==> t == 0 || t == 0xffff || t == -0xffff
  {
    var x := 0xffff * q + t;
    var n := x / 0xffff;
    assert t == 0xffff * (n - q) + x % 0xffff;
  }

  lemma ResidueFull(x: nat)
    ensures Residue(x) == 0xffff <==> x > 0 && x % 0xffff == 0
  {
    if x > 0 {
      var q, r := (x - 1) / 0xffff, (x - 1) % 0xffff;
      assert x == 0xffff * q + (r + 1);
      NearMultiple(q, r + 1);
    }
  }

  lemma ResidueEq(x: nat, y: nat)
    requires x > 0 && y > 0 && -0xffff <= y - x <= 0xffff
    ensures Residue(x) == Residue(y) <==> y - x == 0 || y - x == 0xffff || y - x == -0xffff
  {
    var q, r := (x - 1) / 0xffff, (x - 1) % 0xffff;
    var q', r' := (y - 1) / 0xffff, (y - 1) % 0xffff;
    assert x - 1 == 0xffff * q + r && y - 1 == 0xffff * q' + r';
    assert y - x == 0xffff * (q' - q) + (r' - r);
  }

  /** The field with the old value `f` is also summed elsewhere, so its new value `c` counts twice. The
      new sum verifies, and a second pass reproduces `c`, exactly if the old one verified. */
  lemma FieldTwice(rest: nat, f: nat)
    requires rest > 0 && f <= 0xffff
    ensures Residue(rest + f) <= 0xffff
    ensures var c := 0xffff - Residue(rest + f);
            && (Residue(rest + c + c) == 0xffff <==> Residue(rest + f + f) == 0xffff)
            && (Residue(rest + c) == Residue(rest + f) <==> Residue(rest + f + f) == 0xffff)
  {
    hide Residue;
    ResidueBound(rest + f);
    var c := 0xffff - Residue(rest + f);
    var q := (rest + f + c) / 0xffff;
    ResidueComplement(rest + f);
    assert rest + f + c == 0xffff * q;
    ResidueFull(rest + c + c);
    ResidueFull(rest + f + f);
    assert rest + c + c == 0xffff * q + (c - f) && rest + f + f == 0xffff * q + (f - c);
    NearMultiple(q, c - f);
    NearMultiple(q, f - c);
    ResidueEq(rest + f, rest + c);
  }

  lemma ResidueBound(x: nat)
    ensures Residue(x) <= 0xffff
  {
  }

  lemma ResidueComplement(x: nat)
    requires x > 0
    ensures Residue(x) <= 0xffff && (x + (0xffff - Residue(x))) % 0xffff == 0
  {
    ResidueFilled(x);
    ResidueFull(x + (0xffff - Residue(x)));
  }

  lemma PartsOfTwo(x: Bytes, y: Bytes)
    ensures PartsSum([x, y]) == WordSum(x) + WordSum(y)
  {
    hide WordSum;
    assert [x, y][..1] == [x] && [x][..0] == [];
    assert PartsSum([x]) == PartsSum([]) + WordSum(x);
  }

  /** A 16-bit field at an even offset adds its own value to a sum. */
  lemma FieldSum(head: Bytes, field: Bytes, tail: Bytes)
    requires |head| % 2 == 0 && |field| == 2
    ensures WordSum(head + field + tail) == WordSum(head) + WordSum(field) + WordSum(tail)
  {
    hide WordSum;
    assert head + field + tail == head + (field + tail);
    WordSumSplit(head, field + tail);
    WordSumSplit(field, tail);
  }

  /** The one's-complement sum of two parts with a field at an even offset in each. */
  lemma {:induction false} TwoFieldSum(a: Bytes, x: Bytes, r: Bytes, head: Bytes, y: Bytes, tail: Bytes)
    requires |a| % 2 == 0 && |head| % 2 == 0 && |x| == 2 && |y| == 2
    ensures RfcSumParts([a + x + r, head + y + tail]) ==
            Residue(WordSum(a) + WordSum(r) + WordSum(head) + WordSum(tail) + WordSum(x) + WordSum(y))
  {
    hide *;
    SumOfTwo(a + x + r, head + y + tail);
    FieldSum(a, x, r);
    FieldSum(head, y, tail);
  }

  lemma {:induction false} SumOfTwo(x: Bytes, y: Bytes)
    ensures RfcSumParts([x, y]) == Residue(WordSum(x) + WordSum(y))
  {
    hide WordSum, RfcSumParts, Residue, Fold;
    FoldIsRfcSum([x, y]);
    FoldIsResidue(PartsSum([x, y]));
    PartsOfTwo(x, y);
  }
}
