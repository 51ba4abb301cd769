/** The CRC of BCUDP discovery payloads (`src/bcudp/crc.ts`): the CRC-32/ISO-HDLC table with
    initial value 0 and no final xor. The table-driven loop is proved equal to feeding the
    message one bit at a time through the reflected shift register, and the register is proved
    linear and injective, from which burst detection follows. */
module Crc {

  import opened ByteStrings

  const POLY: bv32 := 0xedb88320

  // ---------------------------------------------------------------- xor and shifts, by name

  function Xor(a: bv32, b: bv32): bv32 { a ^ b }

  function Wide(b: bv8): bv32 { b as bv32 }

  function Half(a: bv32): bv32 { a >> 1 }

  function Double(a: bv32): bv32 { a << 1 }

  function LowByte(x: bv32): bv32 { x & 0xff }

  function HighBytes(x: bv32): bv32 { x >> 8 }

  predicate FitsIn24(x: bv32) { x < 0x0100_0000 }

  predicate IsByte(x: bv32) { x < 0x100 }

  predicate IsShiftedByte(x: bv32, up: bv32) { up == x << 8 }

  predicate IsXor(a: bv32, b: bv32, x: bv32) { x == a ^ b }

  predicate TopBitClear(x: bv32) { x < 0x8000_0000 }

  /** The word shifted `n` places to the left. */
  function Up(x: bv32, n: nat): bv32
    decreases n
  {
    if n == 0 then x else Double(Up(x, n - 1))
  }

  function ByteUp(x: bv32): bv32 { Up(x, 8) }

  lemma ByteUpIsShift(x: bv32)
    ensures IsShiftedByte(x, ByteUp(x))
  {
  }

  lemma XorUnique(a: bv32, b: bv32, x: bv32, y: bv32)
    requires IsXor(a, b, x) && IsXor(a, b, y)
    ensures x == y
  {
  }

  lemma XorDef(a: bv32, b: bv32)
    ensures IsXor(a, b, Xor(a, b))
  {
  }

  lemma XorAssoc(a: bv32, b: bv32, c: bv32)
    ensures Xor(Xor(a, b), c) == Xor(a, Xor(b, c))
  {
  }

  lemma XorExchange(a: bv32, b: bv32, c: bv32, d: bv32)
    ensures Xor(Xor(a, b), Xor(c, d)) == Xor(Xor(a, c), Xor(b, d))
  {
    hide Xor;
    XorAssoc(a, b, Xor(c, d));
    XorAssoc(b, c, d);
    XorComm(b, c);
    XorAssoc(c, b, d);
    XorAssoc(a, c, Xor(b, d));
  }

  lemma XorCancel(a: bv32, b: bv32, w: bv32)
    requires Xor(a, w) == Xor(b, w)
    ensures a == b
  {
    assert Xor(Xor(a, w), w) == a && Xor(Xor(b, w), w) == b;
  }

  lemma XorComm(a: bv32, b: bv32)
    ensures Xor(a, b) == Xor(b, a)
  {
  }

  // ---------------------------------------------------------------- reference definition

  function Tap(c: bv32): bv32 { if c & 1 == 1 then POLY else 0 }

  /** One clock of the reflected shift register. */
  function Clock(c: bv32): bv32 { Xor(Half(c), Tap(c)) }

  function Clocks(c: bv32, n: nat): bv32
    decreases n
  {
    if n == 0 then c else Clocks(Clock(c), n - 1)
  }

  /** Feed one message bit into the register. */
  function FeedBit(c: bv32, bit: bool): bv32 {
    Clock(if bit then Xor(c, 1) else c)
  }

  /** Feed the `n` low bits of a byte, least significant first. */
  function FeedLowBits(c: bv32, b: bv8, n: nat): bv32
    decreases n
  {
    if n == 0 then c else FeedLowBits(FeedBit(c, b & 1 == 1), b >> 1, n - 1)
  }

  /** Bit-serial reflected division of a whole message, starting from register value `c`. */
  function SerialCrc(c: bv32, s: Bytes): bv32
    decreases |s|
  {
    if s == [] then c else SerialCrc(FeedLowBits(c, s[0], 8), s[1..])
  }

  /** The CRC a discovery packet carries. */
  function BcUdpCrc(s: Bytes): bv32 { SerialCrc(0, s) }

  // ---------------------------------------------------------------- algebra of the register

  lemma TapLinear(a: bv32, b: bv32)
    ensures Tap(Xor(a, b)) == Xor(Tap(a), Tap(b))
  {
    assert (a ^ b) & 1 == (a & 1) ^ (b & 1);
    assert a & 1 == 0 || a & 1 == 1;
    assert b & 1 == 0 || b & 1 == 1;
  }

  lemma ShiftLinear(a: bv32, b: bv32)
    ensures Half(Xor(a, b)) == Xor(Half(a), Half(b))
  {
    hide *;
    XorDef(a, b);
    HalfOfXor(a, b, Xor(a, b));
    XorDef(Half(a), Half(b));
    XorUnique(Half(a), Half(b), Half(Xor(a, b)), Xor(Half(a), Half(b)));
  }

  lemma HalfOfXor(a: bv32, b: bv32, x: bv32)
    requires IsXor(a, b, x)
    ensures IsXor(Half(a), Half(b), Half(x))
  {
  }

  lemma ClockLinear(a: bv32, b: bv32)
    ensures Clock(Xor(a, b)) == Xor(Clock(a), Clock(b))
  {
    hide Tap, Xor, Half;
    TapLinear(a, b);
    ShiftLinear(a, b);
    XorExchange(Half(a), Half(b), Tap(a), Tap(b));
  }

  lemma {:induction false} ClocksLinear(a: bv32, b: bv32, n: nat)
    ensures Clocks(Xor(a, b), n) == Xor(Clocks(a, n), Clocks(b, n))
    decreases n
  {
    hide Clock, Xor;
    if n > 0 {
      ClockLinear(a, b);
      ClocksLinear(Clock(a), Clock(b), n - 1);
    }
  }

  /** The register can be run backwards. */
  function Unclock(c: bv32): bv32 {
    if c & 0x8000_0000 != 0 then (Xor(c, POLY) << 1) | 1 else c << 1
  }

  lemma ClockReversible(c: bv32)
    ensures Unclock(Clock(c)) == c
  {
  }

  lemma {:induction false} ClocksInjective(a: bv32, b: bv32, n: nat)
    requires Clocks(a, n) == Clocks(b, n)
    ensures a == b
    decreases n
  {
    hide Clock, Unclock;
    if n > 0 {
      ClocksInjective(Clock(a), Clock(b), n - 1);
      ClockReversible(a);
      ClockReversible(b);
    }
  }

  lemma ClocksZero(c: bv32)
    ensures Clocks(c, 0) == c
  {
  }

  lemma ClocksUnfold(c: bv32, n: nat)
    requires n > 0
    ensures Clocks(c, n) == Clocks(Clock(c), n - 1)
  {
  }

  lemma {:induction false} ClocksAdd(c: bv32, m: nat, n: nat)
    ensures Clocks(Clocks(c, m), n) == Clocks(c, m + n)
    decreases m
  {
    hide Clock;
    if m > 0 {
      ClocksAdd(Clock(c), m - 1, n);
    }
  }

  lemma ClockOfDouble(y: bv32)
    requires TopBitClear(y)
    ensures Clock(Double(y)) == y
  {
  }

  /** Seven shifts of a 24-bit value push no bit out. */
  lemma {:induction false} UpBound(y: bv32, n: nat)
    requires FitsIn24(y) && n <= 7
    ensures TopBitClear(Up(y, n))
    ensures n <= 6 ==> Up(y, n) < 0x4000_0000
    ensures n <= 5 ==> Up(y, n) < 0x2000_0000
    ensures n <= 4 ==> Up(y, n) < 0x1000_0000
    ensures n <= 3 ==> Up(y, n) < 0x0800_0000
    ensures n <= 2 ==> Up(y, n) < 0x0400_0000
    ensures n <= 1 ==> Up(y, n) < 0x0200_0000
    decreases n
  {
    if n > 0 {
      UpBound(y, n - 1);
    }
  }

  lemma UpTopBitClear(y: bv32, n: nat)
    requires FitsIn24(y) && n <= 7
    ensures TopBitClear(Up(y, n))
  {
    UpBound(y, n);
  }

  /** Clocking undoes shifting as long as no bit has been pushed out. */
  lemma {:induction false} ClocksOfShifted(y: bv32, n: nat)
    requires FitsIn24(y) && n <= 8
    ensures Clocks(Up(y, n), n) == y
    decreases n
  {
    hide Clock, FitsIn24, TopBitClear, Double;
    if n > 0 {
      UpTopBitClear(y, n - 1);
      ClockOfDouble(Up(y, n - 1));
      ClocksOfShifted(y, n - 1);
    }
  }

  lemma EightClocksOfShifted(y: bv32)
    requires FitsIn24(y)
    ensures Clocks(ByteUp(y), 8) == y
  {
    hide Clocks, Up, FitsIn24;
    ClocksOfShifted(y, 8);
  }

  // ---------------------------------------------------------------- a byte at a time

  /** Absorb a whole byte: xor it into the low end, then clock eight times. */
  function FeedByte(c: bv32, b: bv8): bv32 { Clocks(Xor(c, Wide(b)), 8) }

  function FeedBytes(c: bv32, s: Bytes): bv32
    decreases |s|
  {
    if s == [] then c else FeedBytes(FeedByte(c, s[0]), s[1..])
  }

  lemma SplitLowBit(b: bv8)
    ensures Wide(b) == Xor(if b & 1 == 1 then 1 else 0, Up(Wide(b >> 1), 1))
    ensures Clock(Up(Wide(b >> 1), 1)) == Wide(b >> 1)
  {
    assert b & 1 == 0 || b & 1 == 1;
    assert Up(Wide(b >> 1), 1) == Wide(b >> 1) << 1;
    ClockOfDouble(Wide(b >> 1));
  }

  /** Xoring the bits in all at once equals feeding them one by one. */
  lemma {:induction false} FeedLowBitsIsXorThenClock(c: bv32, b: bv8, n: nat)
    requires n <= 8 && b >> n == 0
    ensures FeedLowBits(c, b, n) == Clocks(Xor(c, Wide(b)), n)
    decreases n
  {
    if n == 0 {
      assert b == 0 && Xor(c, 0) == c;
    } else {
      DropBit(b, n);
      FeedOneBit(c, b);
      FeedLowBitsIsXorThenClock(FeedBit(c, b & 1 == 1), b >> 1, n - 1);
    }
  }

  lemma DropBit(b: bv8, n: nat)
    requires 0 < n <= 8 && b >> n == 0
    ensures (b >> 1) >> (n - 1) == 0
  {
    if n == 1 {} else if n == 2 {} else if n == 3 {} else if n == 4 {}
    else if n == 5 {} else if n == 6 {} else if n == 7 {} else {}
  }

  lemma FeedOneBit(c: bv32, b: bv8)
    ensures Clock(Xor(c, Wide(b))) == Xor(FeedBit(c, b & 1 == 1), Wide(b >> 1))
  {
    hide Clock, Xor, Wide, Up;
    var bit: bv32 := if b & 1 == 1 then 1 else 0;
    var rest := Up(Wide(b >> 1), 1);
    SplitLowBit(b);
    XorAssoc(c, bit, rest);
    ClockLinear(Xor(c, bit), rest);
    assert Xor(c, 0) == c by { XorZero(c); }
  }

  lemma XorZero(a: bv32)
    ensures Xor(a, 0) == a
  {
  }

  lemma {:induction false} FeedBytesIsSerial(c: bv32, s: Bytes)
    ensures FeedBytes(c, s) == SerialCrc(c, s)
    decreases |s|
  {
    hide FeedByte, FeedLowBits;
    if s != [] {
      assert FeedByte(c, s[0]) == FeedLowBits(c, s[0], 8) by { FeedByteIsSerial(c, s[0]); }
      FeedBytesIsSerial(FeedByte(c, s[0]), s[1..]);
    }
  }

  lemma FeedByteIsSerial(c: bv32, b: bv8)
    ensures FeedByte(c, b) == FeedLowBits(c, b, 8)
  {
    hide FeedLowBits, Clocks, Xor, Wide;
    assert b >> 8 == 0;
    FeedLowBitsIsXorThenClock(c, b, 8);
  }

  lemma {:induction false} FeedBytesConcat(c: bv32, s: Bytes, t: Bytes)
    ensures FeedBytes(c, s + t) == FeedBytes(FeedBytes(c, s), t)
    decreases |s|
  {
    hide FeedByte;
    if s == [] {
      assert s + t == t;
    } else {
      assert (s + t)[1..] == s[1..] + t;
      FeedBytesConcat(FeedByte(c, s[0]), s[1..], t);
    }
  }

  // ---------------------------------------------------------------- the table-driven loop

  ghost predicate IsTable(t: seq<bv32>) {
    |t| == 256 && forall i :: 0 <= i < 256 ==> t[i] == Clocks(i as bv32, 8)
  }

  lemma ClockAsWritten(c: bv32)
    ensures Clock(c) == if c & 1 != 0 then 0xedb88320 ^ (c >> 1) else c >> 1
  {
    assert c & 1 == 0 || c & 1 == 1;
  }

  method GetTable() returns (table: array<bv32>)
    ensures fresh(table) && IsTable(table[..])
  {
    hide Clock, Clocks;
    table := new bv32[256](_ => 0);
    for i := 0 to 256
      invariant forall j :: 0 <= j < i ==> table[j] == Clocks(j as bv32, 8)
    {
      var c := i as bv32;
      for k := 0 to 8
        invariant forall j :: 0 <= j < i ==> table[j] == Clocks(j as bv32, 8)
        invariant Clocks(c, 8 - k) == Clocks(i as bv32, 8)
      {
        ClockAsWritten(c);
        ClocksUnfold(c, 8 - k);
        c := if c & 1 != 0 then 0xedb88320 ^ (c >> 1) else c >> 1;
      }
      ClocksZero(c);
      table[i] := c;
    }
  }

  /** The table step: look up the low byte, shift out the rest. */
  lemma TableStep(c: bv32, b: bv8)
    ensures FeedByte(c, b) == Xor(Clocks(LowByte(Xor(c, Wide(b))), 8), HighBytes(c))
  {
    hide Clocks, Xor, Wide, ByteUp, LowByte, HighBytes, FitsIn24;
    var x := Xor(c, Wide(b));
    HighUnchanged(c, b);
    LowAndHigh(x);
    ClocksLinear(LowByte(x), ByteUp(HighBytes(x)), 8);
    EightClocksOfShifted(HighBytes(x));
  }

  lemma HighUnchanged(c: bv32, b: bv8)
    ensures HighBytes(Xor(c, Wide(b))) == HighBytes(c)
  {
    hide *;
    WideBound(b);
    XorDef(c, Wide(b));
    HighOfXor(c, Wide(b), Xor(c, Wide(b)));
  }

  lemma HighOfXor(c: bv32, w: bv32, x: bv32)
    requires IsXor(c, w, x) && IsByte(w)
    ensures HighBytes(x) == HighBytes(c)
  {
  }

  lemma LowAndHigh(x: bv32)
    ensures x == Xor(LowByte(x), ByteUp(HighBytes(x)))
    ensures FitsIn24(HighBytes(x))
  {
    hide *;
    var low, high, up := LowByte(x), HighBytes(x), ByteUp(HighBytes(x));
    ByteUpIsShift(high);
    XorDef(low, up);
    Recombine(x, low, high, up);
    XorUnique(low, up, x, Xor(low, up));
  }

  lemma Recombine(x: bv32, low: bv32, high: bv32, up: bv32)
    requires low == LowByte(x) && high == HighBytes(x) && IsShiftedByte(high, up)
    ensures IsXor(low, up, x) && FitsIn24(high)
  {
  }

  /** The table index of a register value. */
  function Index(x: bv32): (i: nat)
    ensures i < 256 && i as bv32 == LowByte(x)
  {
    LowByteBound(x, LowByte(x));
    WordIndexRoundTrip(LowByte(x));
    LowByte(x) as nat
  }

  lemma LowByteBound(x: bv32, low: bv32)
    requires low == x & 0xff
    ensures low < 256
  {
  }

  lemma WordIndexRoundTrip(low: bv32)
    requires low < 256
    ensures low as nat < 256 && (low as nat) as bv32 == low
  {
  }

  method BcUdpCrc32(buf: Bytes) returns (crc: bv32)
    ensures crc == BcUdpCrc(buf)
  {
    hide Clocks, FeedByte, FeedBytes, Xor, Wide, LowByte, HighBytes, Index, SerialCrc;
    var table := GetTable();
    var t := table[..];
    crc := 0;
    FeedNothing(0);
    for i := 0 to |buf|
      invariant IsTable(t)
      invariant crc == FeedBytes(0, buf[..i])
    {
      TableStep(crc, buf[i]);
      assert buf[..i + 1] == buf[..i] + [buf[i]];
      FeedBytesConcat(0, buf[..i], [buf[i]]);
      FeedOne(crc, buf[i]);
      crc := Xor(t[Index(Xor(crc, Wide(buf[i])))], HighBytes(crc));
    }
    assert buf[..|buf|] == buf;
    FeedBytesIsSerial(0, buf);
  }

  lemma FeedNothing(c: bv32)
    ensures FeedBytes(c, []) == c
  {
  }

  lemma FeedOne(c: bv32, b: bv8)
    ensures FeedBytes(c, [b]) == FeedByte(c, b)
  {
    hide FeedByte;
    FeedNothing(FeedByte(c, b));
  }

  // ---------------------------------------------------------------- burst detection

  /** At most four bytes as a little-endian word. */
  function Word(s: Bytes): bv32
    requires |s| <= 4
    decreases |s|
  {
    if s == [] then 0 else Xor(Wide(s[0]), ByteUp(Word(s[1..])))
  }

  lemma PutByteBound(b: bv8, w: bv32)
    ensures w == 0 ==> Xor(Wide(b), ByteUp(w)) < 0x0000_0100
    ensures w < 0x0000_0100 ==> Xor(Wide(b), ByteUp(w)) < 0x0001_0000
    ensures w < 0x0001_0000 ==> FitsIn24(Xor(Wide(b), ByteUp(w)))
  {
    hide IsByte, IsShiftedByte, IsXor, FitsIn24, Up, ByteUp, Xor, Wide;
    WideBound(b);
    ByteUpIsShift(w);
    XorDef(Wide(b), ByteUp(w));
    PutByte(Wide(b), w, ByteUp(w), Xor(Wide(b), ByteUp(w)));
  }

  lemma WideBound(b: bv8)
    ensures IsByte(Wide(b))
  {
  }

  lemma PutByte(b: bv32, w: bv32, up: bv32, x: bv32)
    requires IsByte(b) && IsShiftedByte(w, up) && IsXor(b, up, x)
    ensures w == 0 ==> x < 0x0000_0100
    ensures w < 0x0000_0100 ==> x < 0x0001_0000
    ensures w < 0x0001_0000 ==> FitsIn24(x)
  {
  }

  lemma {:induction false} WordBound(s: Bytes)
    requires |s| <= 3
    ensures FitsIn24(Word(s))
    ensures |s| <= 2 ==> Word(s) < 0x0001_0000
    ensures |s| <= 1 ==> Word(s) < 0x0000_0100
    ensures |s| == 0 ==> Word(s) == 0
    decreases |s|
  {
    hide Xor, Wide, ByteUp;
    if s != [] {
      WordBound(s[1..]);
      PutByteBound(s[0], Word(s[1..]));
    }
  }

  lemma SplitWord(a: bv8, x: bv32, b: bv8, y: bv32)
    requires FitsIn24(x) && FitsIn24(y)
    requires Xor(Wide(a), ByteUp(x)) == Xor(Wide(b), ByteUp(y))
    ensures a == b && x == y
  {
    hide Xor, Wide, ByteUp, LowByte, HighBytes, FitsIn24;
    UnputByte(a, x);
    UnputByte(b, y);
    assert a == b by { WideInjective(a, b); }
  }

  lemma UnputByte(a: bv8, x: bv32)
    requires FitsIn24(x)
    ensures HighBytes(Xor(Wide(a), ByteUp(x))) == x
    ensures LowByte(Xor(Wide(a), ByteUp(x))) == Wide(a)
  {
    hide *;
    WideBound(a);
    ByteUpIsShift(x);
    XorDef(Wide(a), ByteUp(x));
    Unput(Wide(a), x, ByteUp(x), Xor(Wide(a), ByteUp(x)));
  }

  lemma Unput(a: bv32, x: bv32, up: bv32, y: bv32)
    requires IsByte(a) && FitsIn24(x) && IsShiftedByte(x, up) && IsXor(a, up, y)
    ensures HighBytes(y) == x && LowByte(y) == a
  {
  }

  lemma WideInjective(a: bv8, b: bv8)
    requires Wide(a) == Wide(b)
    ensures a == b
  {
  }

  lemma {:induction false} WordInjective(s: Bytes, t: Bytes)
    requires |s| == |t| <= 4
    requires Word(s) == Word(t)
    ensures s == t
    decreases |s|
  {
    hide Xor, Wide, ByteUp, FitsIn24;
    if s != [] {
      WordBound(s[1..]);
      WordBound(t[1..]);
      SplitWord(s[0], Word(s[1..]), t[0], Word(t[1..]));
      WordInjective(s[1..], t[1..]);
      assert s == [s[0]] + s[1..] && t == [t[0]] + t[1..];
    }
  }

  /** Up to four bytes are absorbed as one word xored into the register. */
  lemma {:induction false} FeedShort(c: bv32, s: Bytes)
    requires |s| <= 4
    ensures FeedBytes(c, s) == Clocks(Xor(c, Word(s)), 8 * |s|)
    decreases |s|
  {
    hide Xor, Wide, ByteUp, Clocks, FitsIn24;
    if s == [] {
      XorZero(c);
      assert Clocks(c, 0) == c by { ClocksZero(c); }
    } else {
      var b, w := Wide(s[0]), Word(s[1..]);
      WordBound(s[1..]);
      XorAssoc(c, b, ByteUp(w));
      ClocksLinear(Xor(c, b), ByteUp(w), 8);
      EightClocksOfShifted(w);
      ClocksAdd(Xor(c, Word(s)), 8, 8 * |s[1..]|);
      FeedShort(FeedByte(c, s[0]), s[1..]);
    }
  }

  /** Equal messages keep different registers different. */
  lemma {:induction false} FeedBytesInjective(a: bv32, b: bv32, s: Bytes)
    requires FeedBytes(a, s) == FeedBytes(b, s)
    ensures a == b
    decreases |s|
  {
    hide Xor, Wide, Clocks;
    if s != [] {
      FeedBytesInjective(FeedByte(a, s[0]), FeedByte(b, s[0]), s[1..]);
      ClocksInjective(Xor(a, Wide(s[0])), Xor(b, Wide(s[0])), 8);
      XorCancel(a, b, Wide(s[0]));
    }
  }

  /** Any change confined to four consecutive bytes changes the CRC. */
  lemma BurstDetected(prefix: Bytes, x: Bytes, y: Bytes, suffix: Bytes)
    requires |x| == |y| <= 4 && x != y
    ensures BcUdpCrc(prefix + x + suffix) != BcUdpCrc(prefix + y + suffix)
  {
    hide Xor, Clocks, FeedBytes, SerialCrc, Word;
    var c := FeedBytes(0, prefix);
    FeedBytesIsSerial(0, prefix + x + suffix);
    FeedBytesIsSerial(0, prefix + y + suffix);
    FeedBytesConcat(0, prefix + x, suffix);
    FeedBytesConcat(0, prefix + y, suffix);
    FeedBytesConcat(0, prefix, x);
    FeedBytesConcat(0, prefix, y);
    if BcUdpCrc(prefix + x + suffix) == BcUdpCrc(prefix + y + suffix) {
      FeedBytesInjective(FeedBytes(c, x), FeedBytes(c, y), suffix);
      FeedShort(c, x);
      FeedShort(c, y);
      ClocksInjective(Xor(c, Word(x)), Xor(c, Word(y)), 8 * |x|);
      XorComm(c, Word(x));
      XorComm(c, Word(y));
      XorCancel(Word(x), Word(y), c);
      WordInjective(x, y);
      assert false;
    }
  }

  // ---------------------------------------------------------------- the polynomial

  /** The table entries of the single-bit bytes, which generate all others by linearity. */
  lemma OneBitEntries()
    ensures Clocks(0x80, 8) == 0xedb88320 && Clocks(0x40, 8) == 0x76dc4190 && Clocks(0x20, 8) == 0x3b6e20c8
    ensures Clocks(0x10, 8) == 0x1db71064 && Clocks(0x08, 8) == 0x0edb8832 && Clocks(0x04, 8) == 0x076dc419
    ensures Clocks(0x02, 8) == 0xee0e612c && Clocks(0x01, 8) == 0x77073096
  {
    EightClocks(0x80);
    EightClocks(0x40);
    EightClocks(0x20);
    EightClocks(0x10);
    EightClocks(0x08);
    EightClocks(0x04);
    EightClocks(0x02);
    EightClocks(0x01);
  }

  lemma EightClocks(c: bv32)
    ensures Clocks(c, 8) == Clock(Clock(Clock(Clock(Clock(Clock(Clock(Clock(c))))))))
  {
    hide Clock;
  }
}
