/** The bit operators of C on unsigned machine words, bit by bit from the low end, and what they are in arithmetic. */
module Bits {
  import opened Bytes

  function Pow2(n: nat): (p: nat)
    ensures p > 0
  {
    if n == 0 then 1 else 2 * Pow2(n - 1)
  }

  function Bit(b: bool): nat {
    if b then 1 else 0
  }

  function OrWord(x: nat, y: nat, n: nat): nat {
    if n == 0 then 0
    else Bit(x % 2 == 1 || y % 2 == 1) + 2 * OrWord(x / 2, y / 2, n - 1)
  }

  lemma {:induction false} OrOfZero(x: nat, n: nat)
    requires x < Pow2(n)
    ensures OrWord(x, 0, n) == x
  {
    if n > 0 {
      OrOfZero(x / 2, n - 1);
    }
  }

  lemma {:induction false} OrCommutes(x: nat, y: nat, n: nat)
    ensures OrWord(x, y, n) == OrWord(y, x, n)
  {
    if n > 0 {
      OrCommutes(x / 2, y / 2, n - 1);
    }
  }

  /** Or of words without common bits is their sum. */
  lemma {:induction false} OrIsSum(h: nat, y: nat, k: nat, n: nat)
    requires k <= n && y < Pow2(k) && h * Pow2(k) < Pow2(n)
    ensures OrWord(h * Pow2(k), y, n) == h * Pow2(k) + y
    decreases k
  {
    if k == 0 {
      OrOfZero(h, n);
    } else {
      var p := Pow2(k - 1);
      assert h * Pow2(k) == 2 * (h * p);
      OrIsSum(h, y / 2, k - 1, n - 1);
    }
  }

  lemma {:induction false} Pow2Sum(a: nat, b: nat)
    ensures Pow2(a) * Pow2(b) == Pow2(a + b)
  {
    if a > 0 {
      Pow2Sum(a - 1, b);
    }
  }

  lemma Pow2Of8()
    ensures Pow2(8) == 0x100
  {
    assert Pow2(4) == 16;
    Pow2Sum(4, 4);
  }

  lemma Pow2Of32And64()
    ensures Pow2(32) == TWO_32 && Pow2(64) == TWO_64
  {
    Pow2Of8();
    hide Pow2;
    Pow2Sum(8, 8);
    Pow2Sum(16, 16);
    Pow2Sum(32, 32);
  }

  lemma DivModUnique(x: int, m: nat, q: int, r: int)
    requires m > 0 && x == q * m + r && 0 <= r < m
    ensures x / m == q && x % m == r
  {
    var d := x / m - q;
    assert x == (x / m) * m + x % m;
    assert d * m == r - x % m;
    if d >= 1 {
      AtLeastOnce(d, m);
    } else if d <= -1 {
      AtLeastOnce(-d, m);
    }
  }

  lemma AtLeastOnce(d: int, m: int)
    requires d >= 1 && m > 0
    ensures d * m >= m && -d * m <= -m
  {
  }

  // ---------------------------------------------------------------- 32-bit words

  function XorWord(x: nat, y: nat, n: nat): (r: nat)
    ensures r < Pow2(n)
  {
    if n == 0 then 0
    else Bit((x % 2 == 1) != (y % 2 == 1)) + 2 * XorWord(x / 2, y / 2, n - 1)
  }

  function AndWord(x: nat, y: nat, n: nat): (r: nat)
    ensures r < Pow2(n)
  {
    if n == 0 then 0
    else Bit(x % 2 == 1 && y % 2 == 1) + 2 * AndWord(x / 2, y / 2, n - 1)
  }

  /** x << k on 32 bits: k times the highest bit is lost. */
  function ShiftLeft(x: Word, k: nat): Word
    decreases k
  {
    if k == 0 then x else ShiftLeft(2 * (x % 0x8000_0000), k - 1)
  }

  /** x >> k: k times the lowest bit is lost. */
  function ShiftRight(x: Word, k: nat): Word
    decreases k
  {
    if k == 0 then x else ShiftRight(x / 2, k - 1)
  }

  /** x ^ y on 32 bits. */
  function Xor(x: Word, y: Word): Word {
    Pow2Of32And64();
    XorWord(x, y, 32)
  }

  /** Each bit of x ^ y tells whether the bits of x and y differ. */
  lemma {:induction false} XorBits(x: nat, y: nat, n: nat, i: nat)
    requires i < n
    ensures BitAt(XorWord(x, y, n), i) <==> BitAt(x, i) != BitAt(y, i)
    decreases i
  {
    if i > 0 {
      XorBits(x / 2, y / 2, n - 1, i - 1);
    }
  }

  /** Bit i of a number. */
  predicate BitAt(x: nat, i: nat)
    decreases i
  {
    if i == 0 then x % 2 == 1 else BitAt(x / 2, i - 1)
  }

  lemma {:induction false} XorCancels(x: nat, y: nat, n: nat)
    requires y < Pow2(n)
    ensures XorWord(x, XorWord(x, y, n), n) == y
  {
    if n > 0 {
      XorCancels(x / 2, y / 2, n - 1);
    }
  }

  /** Taking the lowest bit off first. */
  lemma LowBitFirst(x: nat, p: nat)
    requires p > 0
    ensures x / (2 * p) == x / 2 / p && x % (2 * p) == x % 2 + 2 * (x / 2 % p)
  {
    var q, r := x / 2 / p, x / 2 % p;
    assert x / 2 == q * p + r;
    assert x == q * (2 * p) + (2 * r + x % 2);
    DivModUnique(x, 2 * p, q, 2 * r + x % 2);
  }

  lemma {:induction false} ShiftRightDivides(x: Word, k: nat)
    ensures ShiftRight(x, k) == x / Pow2(k)
    decreases k
  {
    if k > 0 {
      var p := Pow2(k - 1);
      ShiftRightDivides(x / 2, k - 1);
      LowBitFirst(x, p);
    }
  }

  lemma {:induction false} ShiftLeftMultiplies(x: Word, k: nat)
    ensures ShiftLeft(x, k) == x * Pow2(k) % TWO_32
    decreases k
  {
    if k > 0 {
      var p, t := Pow2(k - 1), x / 0x8000_0000;
      var y := 2 * (x % 0x8000_0000);
      ShiftLeftMultiplies(y, k - 1);
      assert 2 * x == y + t * TWO_32;
      TopIsLost(x, y, t, p);
    }
  }

  lemma TopIsLost(x: nat, y: nat, t: nat, p: nat)
    requires 2 * x == y + t * TWO_32
    ensures y * p % TWO_32 == x * (2 * p) % TWO_32
  {
    var q, r := y * p / TWO_32, y * p % TWO_32;
    assert x * (2 * p) == y * p + t * TWO_32 * p;
    assert x * (2 * p) == (q + t * p) * TWO_32 + r;
    DivModUnique(x * (2 * p), TWO_32, q + t * p, r);
  }

  lemma {:induction false} AndStep(x: nat, y: nat, n: nat)
    requires n > 0
    ensures AndWord(x, y, n) == Bit(x % 2 == 1 && y % 2 == 1) + 2 * AndWord(x / 2, y / 2, n - 1)
  {
  }

  /** x & 3 keeps the two low bits. */
  lemma {:induction false} LowTwoBits(x: nat, n: nat)
    requires n >= 2
    ensures AndWord(x, 3, n) == x % 4
  {
    AndStep(x, 3, n);
    AndStep(x / 2, 1, n - 1);
    hide AndWord;
    MaskNothing(x / 2 / 2, n - 2);
  }

  lemma {:induction false} MaskNothing(x: nat, n: nat)
    ensures AndWord(x, 0, n) == 0
  {
    if n > 0 {
      MaskNothing(x / 2, n - 1);
    }
  }
}
