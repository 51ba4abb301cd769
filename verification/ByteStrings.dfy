/** Bytes and the numbers they stand for. */
module Octets {

  function Byte(n: nat): bv8
    requires n < 0x100
  {
    n as bv8
  }

  function Value(b: bv8): (n: nat)
    ensures n < 0x100
  {
    b as nat
  }

  lemma NatToByteAndBack(n: nat)
    requires n < 0x100
    ensures (n as bv8) as nat == n
  {
  }

  lemma ValueOfByte(n: nat)
    requires n < 0x100
    ensures Value(Byte(n)) == n
  {
    NatToByteAndBack(n);
  }

  lemma ByteOfValue(b: bv8)
    ensures Byte(Value(b)) == b
  {
  }

  lemma ValueIsUnsigned(b: bv8)
    ensures Value(b) == b as nat
  {
  }
}

/** Byte strings, the results of partial operations, and the little-endian integers that every
    wire format of this project is made of. */
module ByteStrings {
  import opened Octets

  type Bytes = seq<bv8>

  datatype Option<+T> = None | Some(value: T) {
    function GetOr(default: T): T {
      if Some? then value else default
    }
  }

  datatype Result<+T, +E> = Ok(value: T) | Err(error: E)

  const TWO32: nat := 0x1_0000_0000

  /** JavaScript's `n >>> 0`. */
  function ToUint32(n: int): nat { n % TWO32 }

  /** JavaScript's `n | 0`. */
  function ToInt32(n: int): int {
    if n % TWO32 < 0x8000_0000 then n % TWO32 else n % TWO32 - TWO32
  }

  predicate IsUint32(n: int) { 0 <= n < TWO32 }

  predicate IsInt32(n: int) { -0x8000_0000 <= n < 0x8000_0000 }

  lemma Int32Wraps(n: int)
    requires IsInt32(n)
    ensures ToInt32(ToUint32(n)) == n == ToInt32(n)
  {
  }

  /** The four bytes of a 32-bit value, least significant first. */
  function Le32(n: nat): (s: Bytes)
    ensures |s| == 4
  {
    var n1 := n / 0x100;
    var n2 := n1 / 0x100;
    var n3 := n2 / 0x100;
    [Byte(n % 0x100), Byte(n1 % 0x100), Byte(n2 % 0x100), Byte(n3 % 0x100)]
  }

  /** The value of four bytes, least significant first. */
  function FromLe32(s: Bytes): nat
    requires |s| == 4
  {
    Value(s[0]) + 0x100 * (Value(s[1]) + 0x100 * (Value(s[2]) + 0x100 * Value(s[3])))
  }

  lemma FromLe32Bound(s: Bytes)
    requires |s| == 4
    ensures IsUint32(FromLe32(s))
  {
    hide Value;
  }

  /** `buf.readUInt32LE(offset)`. */
  function ReadU32(buf: Bytes, offset: nat): nat
    requires offset + 4 <= |buf|
  {
    FromLe32(buf[offset..offset + 4])
  }

  /** The least significant byte comes first. */
  lemma ReadU32InBytes(buf: Bytes, offset: nat)
    requires offset + 4 <= |buf|
    ensures ReadU32(buf, offset) ==
            buf[offset] as nat + 256 * (buf[offset + 1] as nat) + 65536 * (buf[offset + 2] as nat)
            + 16777216 * (buf[offset + 3] as nat)
  {
  }

  lemma FromLe32Of(n: nat)
    ensures FromLe32(Le32(n)) == n % TWO32
  {
    hide Value, Byte;
    var n1 := n / 0x100;
    var n2 := n1 / 0x100;
    var n3 := n2 / 0x100;
    ValueOfByte(n % 0x100);
    ValueOfByte(n1 % 0x100);
    ValueOfByte(n2 % 0x100);
    ValueOfByte(n3 % 0x100);
    Digits(n, n1, n2, n3);
  }

  lemma Digits(n: nat, n1: nat, n2: nat, n3: nat)
    requires n1 == n / 0x100 && n2 == n1 / 0x100 && n3 == n2 / 0x100
    ensures n % TWO32 == n % 0x100 + 0x100 * (n1 % 0x100 + 0x100 * (n2 % 0x100 + 0x100 * (n3 % 0x100)))
  {
    var n4 := n3 / 0x100;
    assert n == (n % 0x100 + 0x100 * (n1 % 0x100 + 0x100 * (n2 % 0x100 + 0x100 * (n3 % 0x100)))) + TWO32 * n4;
  }

  lemma Le32OfFrom(s: Bytes)
    requires |s| == 4
    ensures Le32(FromLe32(s)) == s
  {
    hide Value, Byte;
    var a, b, c, d := Value(s[0]), Value(s[1]), Value(s[2]), Value(s[3]);
    ByteOfValue(s[0]);
    ByteOfValue(s[1]);
    ByteOfValue(s[2]);
    ByteOfValue(s[3]);
    assert s == [s[0], s[1], s[2], s[3]];
    UnHorner(a, b, c, d);
  }

  lemma UnHorner(a: nat, b: nat, c: nat, d: nat)
    requires a < 0x100 && b < 0x100 && c < 0x100 && d < 0x100
    ensures var n2 := c + 0x100 * d; var n1 := b + 0x100 * n2; var n := a + 0x100 * n1;
            && n / 0x100 == n1 && n % 0x100 == a
            && n1 / 0x100 == n2 && n1 % 0x100 == b
            && n2 / 0x100 == d && n2 % 0x100 == c && d % 0x100 == d
  {
  }

  // ---------------------------------------------------------------- headers made of words

  /** A header: 32-bit fields one after the other. */
  function Words(ws: seq<nat>): (s: Bytes)
    ensures |s| == 4 * |ws|
    decreases |ws|
  {
    if ws == [] then [] else Le32(ws[0]) + Words(ws[1..])
  }

  lemma {:induction false} WordsAppend(ws: seq<nat>, w: nat)
    ensures Words(ws + [w]) == Words(ws) + Le32(w)
    decreases |ws|
  {
    hide Le32;
    if ws == [] {
      assert Words([w]) == Le32(w) + Words([]);
    } else {
      assert (ws + [w])[1..] == ws[1..] + [w];
      WordsAppend(ws[1..], w);
    }
  }

  /** Field `k` of a header reads back, whatever follows the header. */
  lemma {:induction false} WordsRead(ws: seq<nat>, rest: Bytes, k: nat)
    requires k < |ws| && IsUint32(ws[k])
    ensures ReadU32(Words(ws) + rest, 4 * k) == ws[k]
    decreases k
  {
    hide Le32, FromLe32;
    var tail := Words(ws[1..]) + rest;
    assert Words(ws) + rest == Le32(ws[0]) + tail;
    if k == 0 {
      assert (Le32(ws[0]) + tail)[0..4] == Le32(ws[0]);
      FromLe32Of(ws[0]);
    } else {
      assert (Le32(ws[0]) + tail)[4 * k..4 * k + 4] == tail[4 * (k - 1)..4 * (k - 1) + 4];
      WordsRead(ws[1..], rest, k - 1);
    }
  }

  /** A buffer beginning with four bytes per given field is the header of the fields read from it. */
  lemma {:induction false} ReadsAreWords(buf: Bytes, ws: seq<nat>)
    requires 4 * |ws| <= |buf|
    requires forall k :: 0 <= k < |ws| ==> ws[k] == ReadU32(buf, 4 * k)
    ensures Words(ws) == buf[..4 * |ws|]
    decreases |ws|
  {
    hide Le32, FromLe32;
    if ws != [] {
      forall k | 0 <= k < |ws[1..]| ensures ws[1..][k] == ReadU32(buf[4..], 4 * k) {
        assert buf[4..][4 * k..4 * k + 4] == buf[4 * (k + 1)..4 * (k + 1) + 4];
      }
      ReadsAreWords(buf[4..], ws[1..]);
      Le32OfFrom(buf[0..4]);
      assert buf[..4 * |ws|] == buf[0..4] + buf[4..][..4 * |ws[1..]|];
    }
  }
}
