/**
  The same operators on the bit-vectors of the solver: what `^`, `+`, `<<` and `>>` mean there is what the functions of
  Bits say in arithmetic. Known answers of whole algorithms are computed on bit-vectors.
 */
module BitVectors {
  import opened Bits
  import opened Bytes

  // ---------------------------------------------------------------- the number a bit-vector stands for

  function Lowest(b: bv32): nat {
    if b & 1 == 1 then 1 else 0
  }

  function Half(b: bv32): bv32 {
    b >> 1
  }

  /** The number that the low n bits stand for. */
  function Value(b: bv32, n: nat): nat
    decreases n
  {
    if n == 0 then 0 else Lowest(b) + 2 * Value(Half(b), n - 1)
  }

  lemma {:induction false} FirstBit(b: bv32, n: nat)
    requires n > 0
    ensures Value(b, n) == Lowest(b) + 2 * Value(Half(b), n - 1) && Lowest(b) <= 1
  {
    hide Half;
  }

  lemma {:induction false} NoBits(b: bv32)
    ensures Value(b, 0) == 0
  {
  }

  lemma {:induction false} ValueFits(b: bv32, n: nat)
    ensures Value(b, n) < Pow2(n)
    decreases n
  {
    hide Half, Lowest;
    if n > 0 {
      FirstBit(b, n);
      ValueFits(Half(b), n - 1);
    }
  }

  /** The word that all 32 bits stand for. */
  function WordOf32(b: bv32): Word {
    ValueFits(b, 32);
    Pow2Of32And64();
    Value(b, 32)
  }

  // ---------------------------------------------------------------- bitwise operators

  function XorOf(a: bv32, b: bv32): bv32 {
    a ^ b
  }

  lemma XorFirst(a: bv32, b: bv32)
    ensures Half(XorOf(a, b)) == XorOf(Half(a), Half(b))
    ensures Lowest(XorOf(a, b)) == Bit(Lowest(a) != Lowest(b))
  {
  }

  lemma {:induction false} XorParts(la: nat, wa: nat, lb: nat, wb: nat, n: nat)
    requires n > 0 && la <= 1 && lb <= 1
    ensures XorWord(la + 2 * wa, lb + 2 * wb, n) == Bit(la != lb) + 2 * XorWord(wa, wb, n - 1)
  {
    assert (la + 2 * wa) / 2 == wa && (lb + 2 * wb) / 2 == wb;
  }

  lemma {:induction false} XorValue(a: bv32, b: bv32, n: nat)
    ensures Value(XorOf(a, b), n) == XorWord(Value(a, n), Value(b, n), n)
    decreases n
  {
    hide Value, Lowest, Half, XorOf, Pow2, Bit;
    if n > 0 {
      XorFirst(a, b);
      XorValue(Half(a), Half(b), n - 1);
      FirstBit(a, n);
      FirstBit(b, n);
      FirstBit(XorOf(a, b), n);
      hide XorWord;
      XorParts(Lowest(a), Value(Half(a), n - 1), Lowest(b), Value(Half(b), n - 1), n);
    } else {
      NoBits(XorOf(a, b));
    }
  }

  // ---------------------------------------------------------------- masks

  function Masked(b: bv32, m: bv32): bv32 {
    b & m
  }

  /** m is 2^n - 1. */
  predicate Mask(m: bv32, n: nat)
    decreases n
  {
    if n == 0 then m == 0 else Lowest(m) == 1 && Mask(Half(m), n - 1)
  }

  lemma MaskFirst(b: bv32, m: bv32)
    ensures Half(Masked(b, m)) == Masked(Half(b), Half(m))
    ensures Lowest(m) == 1 ==> Lowest(Masked(b, m)) == Lowest(b)
    ensures Masked(b, 0) == 0
  {
  }

  lemma ZeroHalf()
    ensures Half(0) == 0 && Lowest(0) == 0
  {
  }

  lemma {:induction false} ZeroValue(n: nat)
    ensures Value(0, n) == 0
    decreases n
  {
    hide Half, Lowest;
    ZeroHalf();
    if n > 0 {
      FirstBit(0, n);
      ZeroValue(n - 1);
    }
  }

  /** Masking off all but n bits leaves the number of the low n bits. */
  lemma {:induction false} MaskValue(b: bv32, m: bv32, n: nat, k: nat)
    requires Mask(m, n) && n <= k
    ensures Value(Masked(b, m), k) == Value(b, n)
    decreases k
  {
    hide Half, Lowest, Masked;
    MaskFirst(b, m);
    if n == 0 {
      ZeroValue(k);
    } else {
      FirstBit(b, n);
      FirstBit(Masked(b, m), k);
      MaskValue(Half(b), Half(m), n - 1, k - 1);
    }
  }

  const LOW_31: bv32 := 0x7fff_ffff

  lemma {:induction false} Mask31()
    ensures Mask(LOW_31, 31)
  {
    assert Mask(0, 0);
    assert Mask(0x1, 1) && Mask(0x3, 2) && Mask(0x7, 3) && Mask(0xf, 4);
    assert Mask(0x1f, 5) && Mask(0x3f, 6) && Mask(0x7f, 7) && Mask(0xff, 8);
    assert Mask(0x1ff, 9) && Mask(0x3ff, 10) && Mask(0x7ff, 11) && Mask(0xfff, 12);
    assert Mask(0x1fff, 13) && Mask(0x3fff, 14) && Mask(0x7fff, 15) && Mask(0xffff, 16);
    assert Mask(0x1ffff, 17) && Mask(0x3ffff, 18) && Mask(0x7ffff, 19) && Mask(0xfffff, 20);
    assert Mask(0x1fffff, 21) && Mask(0x3fffff, 22) && Mask(0x7fffff, 23) && Mask(0xffffff, 24);
    assert Mask(0x1ffffff, 25) && Mask(0x3ffffff, 26) && Mask(0x7ffffff, 27) && Mask(0xfffffff, 28);
    assert Mask(0x1fffffff, 29) && Mask(0x3fffffff, 30) && Mask(0x7fffffff, 31);
  }

  // ---------------------------------------------------------------- shifts

  function Double(b: bv32): bv32 {
    b << 1
  }

  lemma DoubleFirst(b: bv32)
    ensures Lowest(Double(b)) == 0 && Half(Double(b)) == Masked(b, LOW_31)
    ensures Masked(Half(b), LOW_31) == Half(b)
  {
  }

  lemma LowParts(l: nat, w: nat, p: nat)
    requires l <= 1 && p > 0
    ensures (l + 2 * w) % (2 * p) == l + 2 * (w % p)
  {
    assert (l + 2 * w) % 2 == l && (l + 2 * w) / 2 == w;
    LowBitFirst(l + 2 * w, p);
  }

  lemma {:induction false} LowValue(b: bv32, n: nat, k: nat)
    requires n <= k
    ensures Value(b, k) % Pow2(n) == Value(b, n)
    decreases n
  {
    hide Half, Lowest, Value;
    if n == 0 {
      NoBits(b);
    } else {
      FirstBit(b, n);
      FirstBit(b, k);
      LowValue(Half(b), n - 1, k - 1);
      LowParts(Lowest(b), Value(Half(b), k - 1), Pow2(n - 1));
    }
  }

  lemma {:induction false} HalfValue(b: bv32)
    ensures WordOf32(Half(b)) == WordOf32(b) / 2
  {
    hide Half, Lowest, Value, Masked, Mask;
    DoubleFirst(b);
    Mask31();
    MaskValue(Half(b), LOW_31, 31, 32);
    FirstBit(b, 32);
  }

  lemma {:induction false} DoubleValue(b: bv32)
    ensures WordOf32(Double(b)) == 2 * (WordOf32(b) % 0x8000_0000)
  {
    hide Half, Lowest, Value, Masked, Mask, Double;
    DoubleFirst(b);
    Mask31();
    MaskValue(b, LOW_31, 31, 31);
    FirstBit(Double(b), 32);
    LowValue(b, 31, 32);
    Pow2Of32And64();
    assert Pow2(32) == 2 * Pow2(31);
  }

  function Left(b: bv32, k: nat): bv32
    decreases k
  {
    if k == 0 then b else Left(Double(b), k - 1)
  }

  function Right(b: bv32, k: nat): bv32
    decreases k
  {
    if k == 0 then b else Right(Half(b), k - 1)
  }

  lemma {:induction false} LeftValue(b: bv32, k: nat)
    ensures WordOf32(Left(b, k)) == ShiftLeft(WordOf32(b), k)
    decreases k
  {
    hide Double, WordOf32;
    if k > 0 {
      DoubleValue(b);
      LeftValue(Double(b), k - 1);
    }
  }

  lemma {:induction false} RightValue(b: bv32, k: nat)
    ensures WordOf32(Right(b, k)) == ShiftRight(WordOf32(b), k)
    decreases k
  {
    hide Half, WordOf32;
    if k > 0 {
      HalfValue(b);
      RightValue(Half(b), k - 1);
    }
  }

  lemma {:induction false} LeftLeft(b: bv32, k: nat, l: nat)
    ensures Left(Left(b, k), l) == Left(b, k + l)
    decreases k
  {
    hide Double;
    if k > 0 {
      LeftLeft(Double(b), k - 1, l);
    }
  }

  lemma {:induction false} RightRight(b: bv32, k: nat, l: nat)
    ensures Right(Right(b, k), l) == Right(b, k + l)
    decreases k
  {
    hide Half;
    if k > 0 {
      RightRight(Half(b), k - 1, l);
    }
  }

  function Up4(b: bv32): bv32 {
    b << 4
  }

  function Down4(b: bv32): bv32 {
    b >> 4
  }

  lemma {:induction false} FourPlaces(b: bv32)
    ensures Left(b, 4) == Up4(b) && Right(b, 4) == Down4(b)
    ensures Left(b, 1) == b << 1 && Right(b, 1) == b >> 1
  {
  }

  lemma Places(b: bv32)
    ensures Up4(Up4(Up4(Up4(b)))) == b << 16 && Down4(Down4(Down4(Down4(b)))) == b >> 16
  {
  }

  lemma {:induction false} SixteenPlaces(b: bv32)
    ensures Left(b, 16) == b << 16 && Right(b, 16) == b >> 16
  {
    hide Left, Right, Up4, Down4;
    Places(b);
    FourPlaces(b);
    FourPlaces(Up4(b));
    FourPlaces(Up4(Up4(b)));
    FourPlaces(Up4(Up4(Up4(b))));
    FourPlaces(Down4(b));
    FourPlaces(Down4(Down4(b)));
    FourPlaces(Down4(Down4(Down4(b))));
    LeftLeft(b, 4, 4);
    LeftLeft(b, 8, 4);
    LeftLeft(b, 12, 4);
    RightRight(b, 4, 4);
    RightRight(b, 8, 4);
    RightRight(b, 12, 4);
  }

  /** Shifting in fewer steps. */
  function LeftBy(b: bv32, k: nat): bv32
    decreases k
  {
    if k >= 16 then LeftBy(b << 16, k - 16)
    else if k >= 4 then LeftBy(b << 4, k - 4)
    else if k >= 1 then LeftBy(b << 1, k - 1)
    else b
  }

  function RightBy(b: bv32, k: nat): bv32
    decreases k
  {
    if k >= 16 then RightBy(b >> 16, k - 16)
    else if k >= 4 then RightBy(b >> 4, k - 4)
    else if k >= 1 then RightBy(b >> 1, k - 1)
    else b
  }

  lemma {:induction false} LeftByIsLeft(b: bv32, k: nat)
    ensures LeftBy(b, k) == Left(b, k)
    decreases k
  {
    SixteenPlaces(b);
    FourPlaces(b);
    if k >= 1 {
      var n := if k >= 16 then 16 else if k >= 4 then 4 else 1;
      LeftByIsLeft(if k >= 16 then b << 16 else if k >= 4 then b << 4 else b << 1, k - n);
      hide Left;
      LeftLeft(b, n, k - n);
    }
  }

  lemma {:induction false} RightByIsRight(b: bv32, k: nat)
    ensures RightBy(b, k) == Right(b, k)
    decreases k
  {
    SixteenPlaces(b);
    FourPlaces(b);
    if k >= 1 {
      var n := if k >= 16 then 16 else if k >= 4 then 4 else 1;
      RightByIsRight(if k >= 16 then b >> 16 else if k >= 4 then b >> 4 else b >> 1, k - n);
      hide Right;
      RightRight(b, n, k - n);
    }
  }

  // ---------------------------------------------------------------- sums

  function Majority(a: bv32, b: bv32, d: bv32): bv32 {
    (a & b) | (a & d) | (b & d)
  }

  function Odd(a: bv32, b: bv32, d: bv32): bv32 {
    a ^ b ^ d
  }

  /** In the places of m, bit i + 1 of d is the carry that the bits i of a, b and d make. */
  predicate Carries(a: bv32, b: bv32, d: bv32, m: bv32) {
    Masked(XorOf(Half(d), Majority(a, b, d)), Half(m)) == 0
  }

  lemma OnePlace(a: bv32, b: bv32, d: bv32)
    ensures Lowest(a) + Lowest(b) + Lowest(d) == Lowest(Odd(a, b, d)) + 2 * Lowest(Majority(a, b, d))
    ensures Half(Odd(a, b, d)) == Odd(Half(a), Half(b), Half(d))
  {
  }

  lemma NextCarries(a: bv32, b: bv32, d: bv32, m: bv32)
    requires Carries(a, b, d, m)
    ensures Carries(Half(a), Half(b), Half(d), Half(m))
    ensures Lowest(Half(m)) == 1 ==> Lowest(Half(d)) == Lowest(Majority(a, b, d))
  {
  }

  lemma SumParts(a: nat, b: nat, d: nat, s: nat, e: nat, a0: nat, b0: nat, d0: nat, s0: nat, p: nat)
    requires p > 0 && s0 <= 1 && a0 + b0 + d0 == s0 + 2 * e && s == (a + b + e) % p
    ensures s0 + 2 * s == (a0 + 2 * a + (b0 + 2 * b) + d0) % (2 * p)
  {
    var x := a + b + e;
    LowParts(s0, x, p);
    assert a0 + 2 * a + (b0 + 2 * b) + d0 == s0 + 2 * x;
  }

  /** With its carries, a sum is the bitwise sum of the operands and the carries. */
  lemma {:induction false} OddValue(a: bv32, b: bv32, d: bv32, m: bv32, n: nat)
    requires Mask(m, n) && Carries(a, b, d, m)
    ensures Value(Odd(a, b, d), n) == (Value(a, n) + Value(b, n) + if n == 0 then 0 else Lowest(d)) % Pow2(n)
    decreases n
  {
    hide Half, Lowest, Value, Odd, Majority, Carries;
    if n == 0 {
      NoBits(Odd(a, b, d));
    } else {
      NextCarries(a, b, d, m);
      OnePlace(a, b, d);
      OddValue(Half(a), Half(b), Half(d), Half(m), n - 1);
      FirstBit(a, n);
      FirstBit(b, n);
      FirstBit(d, n);
      FirstBit(Odd(a, b, d), n);
      if n == 1 {
        LastPlace(a, b, d);
      } else {
        SumParts(Value(Half(a), n - 1), Value(Half(b), n - 1), 0, Value(Odd(Half(a), Half(b), Half(d)), n - 1),
                 Lowest(Majority(a, b, d)), Lowest(a), Lowest(b), Lowest(d), Lowest(Odd(a, b, d)), Pow2(n - 1));
      }
    }
  }

  lemma {:induction false} LastPlace(a: bv32, b: bv32, d: bv32)
    ensures Value(Odd(a, b, d), 1) == (Value(a, 1) + Value(b, 1) + Lowest(d)) % 2
  {
    hide Half, Odd, Majority;
    OnePlace(a, b, d);
    NoBits(Half(a));
    NoBits(Half(b));
    NoBits(Half(Odd(a, b, d)));
  }

  const ALL: bv32 := 0xffff_ffff

  lemma {:induction false} MaskAll()
    ensures Mask(ALL, 32)
  {
    Mask31();
    assert Half(ALL) == LOW_31;
  }

  function AddOf(a: bv32, b: bv32): bv32 {
    a + b
  }

  /** What the solver's sum and the bitwise sum differ in. */
  function CarriesIn(a: bv32, b: bv32): bv32 {
    a ^ b ^ (a + b)
  }

  /** The adder of the solver makes its carries that way, in every byte. */
  lemma AdderCarries0(a: bv32, b: bv32, d: bv32)
    requires d == CarriesIn(a, b)
    ensures Masked(Half(d), 0xff) == Masked(Majority(a, b, d), 0xff)
  {
  }

  lemma AdderCarries1(a: bv32, b: bv32, d: bv32)
    requires d == CarriesIn(a, b)
    ensures Masked(Half(d), 0xff00) == Masked(Majority(a, b, d), 0xff00)
  {
  }

  lemma AdderCarries2(a: bv32, b: bv32, d: bv32)
    requires d == CarriesIn(a, b)
    ensures Masked(Half(d), 0xff_0000) == Masked(Majority(a, b, d), 0xff_0000)
  {
  }

  lemma AdderCarries3(a: bv32, b: bv32, d: bv32)
    requires d == CarriesIn(a, b)
    ensures Masked(Half(d), 0x7f00_0000) == Masked(Majority(a, b, d), 0x7f00_0000)
  {
  }

  lemma NoCarryIn(a: bv32, b: bv32, d: bv32)
    requires d == CarriesIn(a, b)
    ensures Lowest(d) == 0
  {
  }

  lemma Bytewise(x: bv32, y: bv32)
    requires Masked(x, 0xff) == Masked(y, 0xff) && Masked(x, 0xff00) == Masked(y, 0xff00)
    requires Masked(x, 0xff_0000) == Masked(y, 0xff_0000) && Masked(x, 0x7f00_0000) == Masked(y, 0x7f00_0000)
    ensures Masked(XorOf(x, y), LOW_31) == 0
  {
  }

  lemma Unxor(a: bv32, b: bv32, s: bv32, d: bv32)
    requires d == a ^ b ^ s
    ensures Odd(a, b, d) == s
  {
  }

  lemma SumIsOdd(a: bv32, b: bv32)
    ensures Odd(a, b, CarriesIn(a, b)) == AddOf(a, b)
  {
    hide Odd;
    Unxor(a, b, a + b, CarriesIn(a, b));
  }

  lemma AdderIs(a: bv32, b: bv32, d: bv32)
    requires d == CarriesIn(a, b)
    ensures Carries(a, b, d, ALL) && Lowest(d) == 0 && Odd(a, b, d) == AddOf(a, b)
  {
    hide Masked, Half, Majority, XorOf, Odd, Lowest, CarriesIn, AddOf;
    AdderCarries0(a, b, d);
    AdderCarries1(a, b, d);
    AdderCarries2(a, b, d);
    AdderCarries3(a, b, d);
    NoCarryIn(a, b, d);
    Bytewise(Half(d), Majority(a, b, d));
    HalfOfAll();
    SumIsOdd(a, b);
  }

  lemma HalfOfAll()
    ensures Half(ALL) == LOW_31
  {
  }

  lemma {:induction false} AddValue(a: bv32, b: bv32)
    ensures WordOf32(AddOf(a, b)) == (WordOf32(a) + WordOf32(b)) % TWO_32
  {
    hide Value, Mask, Carries, Lowest, AddOf, Odd, CarriesIn;
    var d := CarriesIn(a, b);
    AdderIs(a, b, d);
    MaskAll();
    OddValue(a, b, d, ALL, 32);
    Pow2Of32And64();
  }

  // ---------------------------------------------------------------- constants

  /** Four bits at once. */
  function Low4(b: bv32): nat {
    (if b & 1 != 0 then 1 else 0) + (if b & 2 != 0 then 2 else 0)
    + (if b & 4 != 0 then 4 else 0) + (if b & 8 != 0 then 8 else 0)
  }

  function Next(b: bv32): bv32 {
    b >> 4
  }

  lemma Low4Is(b: bv32)
    ensures Low4(b) == Lowest(b) + 2 * Lowest(Half(b)) + 4 * Lowest(Half(Half(b))) + 8 * Lowest(Half(Half(Half(b))))
    ensures Half(Half(Half(Half(b)))) == Next(b)
  {
  }

  lemma {:induction false} FourBits(b: bv32, n: nat)
    requires n >= 4
    ensures Value(b, n) == Low4(b) + 16 * Value(Next(b), n - 4)
  {
    hide Value, Lowest, Low4, Half, Next;
    Low4Is(b);
    FirstBit(b, n);
    FirstBit(Half(b), n - 1);
    FirstBit(Half(Half(b)), n - 2);
    FirstBit(Half(Half(Half(b))), n - 3);
  }

  /** The number of the last four digits in base 16. */
  function Hex4(b: bv32): nat {
    Low4(b) + 0x10 * Low4(Next(b)) + 0x100 * Low4(Next(Next(b))) + 0x1000 * Low4(Next(Next(Next(b))))
  }

  function Front(b: bv32): bv32 {
    Next(Next(Next(Next(b))))
  }

  lemma {:induction false} SixteenBits(b: bv32, n: nat)
    requires n >= 16
    ensures Value(b, n) == Hex4(b) + 0x1_0000 * Value(Front(b), n - 16)
  {
    hide Value, Low4, Next;
    FourBits(b, n);
    FourBits(Next(b), n - 4);
    FourBits(Next(Next(b)), n - 8);
    FourBits(Next(Next(Next(b))), n - 12);
  }

  /** The word of a constant can be read off its digits. */
  lemma {:induction false} HexValue(b: bv32)
    ensures WordOf32(b) == Hex4(b) + 0x1_0000 * Hex4(Front(b))
  {
    hide Value, Hex4, Front;
    SixteenBits(b, 32);
    SixteenBits(Front(b), 16);
    NoBits(Front(Front(b)));
  }
}
