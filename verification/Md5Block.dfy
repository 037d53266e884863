/** The MD5 block step: 64-bit arithmetic standing in for the 32-bit words of section 3.4 of RFC 1321. */
module Md5Block {
  import opened Bits
  import opened Bytes

  /** An unsigned long: what the source computes the rounds in. */
  type Long = x: int | 0 <= x < 0x1_0000_0000_0000_0000

  datatype State = State(a: Word, b: Word, c: Word, d: Word)

  const INIT := State(0x67452301, 0xefcdab89, 0x98badcfe, 0x10325476)

  // ---------------------------------------------------------------- bitwise functions

  /** The round functions of RFC 1321 on one bit. */
  function RfcBit(round: nat, x: bool, y: bool, z: bool): bool {
    if round == 0 then (x && y) || (!x && z)
    else if round == 1 then (x && z) || (y && !z)
    else if round == 2 then x != (y != z)
    else y != (x || !z)
  }

  /** The source's rewritten macros F on one bit. */
  function CodeBit(round: nat, x: bool, y: bool, z: bool): bool {
    if round == 0 then z != (x && (y != z))
    else if round == 1 then y != (z && (x != y))
    else if round == 2 then (x != y) != z
    else y != (x || !z)
  }

  /** A bitwise operation on n-bit words, bit by bit from the low end. */
  function RfcWord(round: nat, x: nat, y: nat, z: nat, n: nat): nat {
    if n == 0 then 0
    else Bit(RfcBit(round, x % 2 == 1, y % 2 == 1, z % 2 == 1)) + 2 * RfcWord(round, x / 2, y / 2, z / 2, n - 1)
  }

  function CodeWord(round: nat, x: nat, y: nat, z: nat, n: nat): nat {
    if n == 0 then 0
    else Bit(CodeBit(round, x % 2 == 1, y % 2 == 1, z % 2 == 1)) + 2 * CodeWord(round, x / 2, y / 2, z / 2, n - 1)
  }

  lemma BitsAgree(round: nat, x: bool, y: bool, z: bool)
    ensures RfcBit(round, x, y, z) == CodeBit(round, x, y, z)
  {
  }

  lemma HalfOfMod(x: nat, p: nat)
    requires p > 0
    ensures x % (2 * p) / 2 == x / 2 % p && x % (2 * p) % 2 == x % 2
  {
    LowBitFirst(x, p);
  }

  /** The low n bits of a bitwise result depend on the low n bits of the operands only, in either writing. */
  lemma {:induction false} LowBits(round: nat, x: nat, y: nat, z: nat, n: nat, wide: nat)
    requires n <= wide
    ensures CodeWord(round, x, y, z, wide) % Pow2(n) ==
            RfcWord(round, x % Pow2(n), y % Pow2(n), z % Pow2(n), n)
    decreases n
  {
    if n > 0 {
      var p := Pow2(n - 1);
      LowBits(round, x / 2, y / 2, z / 2, n - 1, wide - 1);
      HalfOfMod(x, p);
      HalfOfMod(y, p);
      HalfOfMod(z, p);
      var rest := CodeWord(round, x / 2, y / 2, z / 2, wide - 1);
      var b := Bit(CodeBit(round, x % 2 == 1, y % 2 == 1, z % 2 == 1));
      BitsAgree(round, x % 2 == 1, y % 2 == 1, z % 2 == 1);
      LowBitOfSum(b, rest, p);
    }
  }

  lemma LowBitOfSum(b: nat, rest: nat, p: nat)
    requires b < 2 && p > 0
    ensures (b + 2 * rest) % (2 * p) == b + 2 * (rest % p)
  {
    assert rest == (rest / p) * p + rest % p;
    assert b + 2 * rest == (rest / p) * (2 * p) + (b + 2 * (rest % p));
    DivModUnique(b + 2 * rest, 2 * p, rest / p, b + 2 * (rest % p));
  }

  // ---------------------------------------------------------------- rotation

  function Times(x: nat, p: nat): nat {
    x * p
  }

  function Over(x: nat, p: nat): nat
    requires p > 0
  {
    x / p
  }

  /** RFC 1321's circular left shift by s bits. */
  function Rotate(x: Word, s: nat): nat
    requires 0 < s < 32
  {
    Times(x, Pow2(s)) % TWO_32 + Over(x, Pow2(32 - s))
  }

  /** The source's S(x,n): (x << n) | ((x & 0xFFFFFFFF) >> (32 - n)) on 64 bits. */
  function CodeRotate(x: Long, s: nat): nat
    requires 0 < s < 32
  {
    OrWord(Times(x, Pow2(s)) % TWO_64, Over(x % TWO_32, Pow2(32 - s)), 64)
  }

  lemma Distribute(k: int, q: int, h: int, p: int)
    ensures (k * q + h) * p == k * (p * q) + h * p
  {
  }

  lemma Below(h: int, q: int, p: int)
    requires 0 <= h < q && p > 0
    ensures h * p + p <= p * q && h * p >= 0
  {
    TimesMonotone(h + 1, q, p);
  }

  /** x * p mod m is a multiple of p when p divides m, and stays at least p below m. */
  lemma ShiftedIsMultiple(x: nat, p: nat, q: nat) returns (h: nat)
    requires p > 0 && q > 0 && p * q > 0
    ensures (x * p) % (p * q) == h * p && h < q && h == x % q && h * p + p <= p * q
  {
    h := x % q;
    var k, m := x / q, p * q;
    Distribute(k, q, h, p);
    Below(h, q, p);
    DivModUnique(x * p, m, k, h * p);
  }

  lemma TimesMonotone(a: int, b: int, q: int)
    requires a <= b && q > 0
    ensures a * q <= b * q
  {
  }

  lemma QuotientFits(x: nat, p: nat, q: nat)
    requires p > 0 && q > 0 && x < p * q
    ensures x / q < p
  {
    assert x == (x / q) * q + x % q;
    if x / q >= p {
      TimesMonotone(p, x / q, q);
    }
  }

  lemma ModOfMod(x: nat, m: nat, k: nat)
    requires m > 0 && k > 0
    ensures x % (m * k) % m == x % m
  {
    var r := x % (m * k);
    assert x == (x / (m * k)) * (m * k) + r;
    assert r == (r / m) * m + r % m;
    assert x == ((x / (m * k)) * k + r / m) * m + r % m;
    DivModUnique(x, m, (x / (m * k)) * k + r / m, r % m);
  }

  lemma {:induction false} OrOfShifts(x: nat, lo: nat, s: nat, p: nat, q: nat, q64: nat)
    requires s <= 64 && p == Pow2(s) && q > 0 && q64 > 0 && lo < TWO_32
    requires p * q == TWO_32 && p * q64 == TWO_64 == Pow2(64)
    ensures OrWord(Times(x, p) % TWO_64, Over(lo, q), 64) == Times(x, p) % TWO_64 + Over(lo, q)
  {
    hide OrWord, Pow2;
    var h := ShiftedIsMultiple(x, p, q64);
    QuotientFits(lo, p, q);
    OrIsSum(h, Over(lo, q), s, 64);
  }

  lemma CodeRotateIsSum(x: Long, s: nat)
    requires 0 < s < 32
    ensures CodeRotate(x, s) == Times(x, Pow2(s)) % TWO_64 + Over(x % TWO_32, Pow2(32 - s))
  {
    hide OrWord, Pow2;
    Pow2Of32And64();
    Pow2Sum(s, 32 - s);
    Pow2Sum(s, 64 - s);
    OrOfShifts(x, x % TWO_32, s, Pow2(s), Pow2(32 - s), Pow2(64 - s));
  }

  /** Rotating 64-bit garbage rotates the low word. */
  lemma RotateAgrees(x: Long, s: nat)
    requires 0 < s < 32
    ensures CodeRotate(x, s) % TWO_32 == Rotate(x % TWO_32, s) < TWO_32
  {
    hide CodeRotate;
    CodeRotateIsSum(x, s);
    Pow2Of32And64();
    Pow2Sum(s, 32 - s);
    var p, q, lo := Pow2(s), Pow2(32 - s), x % TWO_32;
    RotateWord(x, lo, p, q);
  }

  lemma RotateWord(x: nat, lo: nat, p: nat, q: nat)
    requires p > 0 && q > 0 && p * q == TWO_32 && lo == x % TWO_32
    ensures ((x * p) % TWO_64 + lo / q) % TWO_32 == (lo * p) % TWO_32 + lo / q < TWO_32
  {
    var h := ShiftedIsMultiple(lo, p, q);
    QuotientFits(lo, p, q);
    var k, hp := x / TWO_32, h * p;
    Distribute(k, TWO_32, lo, p);
    assert x * p == (k * p) * TWO_32 + lo * p by { assert k * (p * TWO_32) == (k * p) * TWO_32; }
    SumMod(k * p, lo * p);
    ModOfMod(x * p, TWO_32, TWO_32);
    var y := (x * p) % TWO_64;
    assert y % TWO_32 == hp;
    DivModUnique(y + lo / q, TWO_32, y / TWO_32, hp + lo / q);
  }

  lemma SumMod(k: int, r: nat)
    ensures (k * TWO_32 + r) % TWO_32 == r % TWO_32
  {
  }

  // ---------------------------------------------------------------- one operation

  /** Section 3.4: the word, the shift and the table entry of operation i. */
  function K(i: nat): nat {
    if i < 16 then i else if i < 32 then (5 * i + 1) % 16 else if i < 48 then (3 * i + 5) % 16 else (7 * i) % 16
  }

  function S(i: nat): (s: nat)
    ensures 0 < s < 32
  {
    if i < 16 then (if i % 4 == 0 then 7 else if i % 4 == 1 then 12 else if i % 4 == 2 then 17 else 22)
    else if i < 32 then (if i % 4 == 0 then 5 else if i % 4 == 1 then 9 else if i % 4 == 2 then 14 else 20)
    else if i < 48 then (if i % 4 == 0 then 4 else if i % 4 == 1 then 11 else if i % 4 == 2 then 16 else 23)
    else (if i % 4 == 0 then 6 else if i % 4 == 1 then 10 else if i % 4 == 2 then 15 else 21)
  }

  /** The first 64 values of floor(4294967296 * abs(sin(i + 1))). */
  function T(i: nat): Word {
    if i < 16 then T1(i) else if i < 32 then T2(i) else if i < 48 then T3(i) else T4(i)
  }

  function T1(i: nat): Word {
    match i
    case 0 => 0xD76A_A478
    case 1 => 0xE8C7_B756
    case 2 => 0x2420_70DB
    case 3 => 0xC1BD_CEEE
    case 4 => 0xF57C_0FAF
    case 5 => 0x4787_C62A
    case 6 => 0xA830_4613
    case 7 => 0xFD46_9501
    case 8 => 0x6980_98D8
    case 9 => 0x8B44_F7AF
    case 10 => 0xFFFF_5BB1
    case 11 => 0x895C_D7BE
    case 12 => 0x6B90_1122
    case 13 => 0xFD98_7193
    case 14 => 0xA679_438E
    case _ => 0x49B4_0821
  }

  function T2(i: nat): Word {
    match i
    case 16 => 0xF61E_2562
    case 17 => 0xC040_B340
    case 18 => 0x265E_5A51
    case 19 => 0xE9B6_C7AA
    case 20 => 0xD62F_105D
    case 21 => 0x0244_1453
    case 22 => 0xD8A1_E681
    case 23 => 0xE7D3_FBC8
    case 24 => 0x21E1_CDE6
    case 25 => 0xC337_07D6
    case 26 => 0xF4D5_0D87
    case 27 => 0x455A_14ED
    case 28 => 0xA9E3_E905
    case 29 => 0xFCEF_A3F8
    case 30 => 0x676F_02D9
    case _ => 0x8D2A_4C8A
  }

  function T3(i: nat): Word {
    match i
    case 32 => 0xFFFA_3942
    case 33 => 0x8771_F681
    case 34 => 0x6D9D_6122
    case 35 => 0xFDE5_380C
    case 36 => 0xA4BE_EA44
    case 37 => 0x4BDE_CFA9
    case 38 => 0xF6BB_4B60
    case 39 => 0xBEBF_BC70
    case 40 => 0x289B_7EC6
    case 41 => 0xEAA1_27FA
    case 42 => 0xD4EF_3085
    case 43 => 0x0488_1D05
    case 44 => 0xD9D4_D039
    case 45 => 0xE6DB_99E5
    case 46 => 0x1FA2_7CF8
    case _ => 0xC4AC_5665
  }

  function T4(i: nat): Word {
    match i
    case 48 => 0xF429_2244
    case 49 => 0x432A_FF97
    case 50 => 0xAB94_23A7
    case 51 => 0xFC93_A039
    case 52 => 0x655B_59C3
    case 53 => 0x8F0C_CC92
    case 54 => 0xFFEF_F47D
    case 55 => 0x8584_5DD1
    case 56 => 0x6FA8_7E4F
    case 57 => 0xFE2C_E6E0
    case 58 => 0xA301_4314
    case 59 => 0x4E08_11A1
    case 60 => 0xF753_7E82
    case 61 => 0xBD3A_F235
    case 62 => 0x2AD7_D2BB
    case _ => 0xEB86_D391
  }

  function Round(i: nat): nat {
    if i < 16 then 0 else if i < 32 then 1 else if i < 48 then 2 else 3
  }

  function Wrap32(x: int): Word {
    x % TWO_32
  }

  function Wrap64(x: int): Long {
    x % TWO_64
  }

  /** a = b + ((a + F(b,c,d) + X[k] + T[i]) <<< s), with the four words renamed for the next operation. */
  function RfcStep(st: State, X: seq<Word>, i: nat): State
    requires |X| == 16
  {
    var f := RfcWord(Round(i), st.b, st.c, st.d, 32);
    State(st.d, Wrap32(Rotate(Wrap32(st.a + f + X[K(i) % 16] + T(i)), S(i)) + st.b), st.b, st.c)
  }

  function RfcSteps(st: State, X: seq<Word>, n: nat): State
    requires |X| == 16
  {
    if n == 0 then st else RfcStep(RfcSteps(st, X, n - 1), X, n - 1)
  }

  /** The macro P: a += F(b,c,d) + X[k] + t; a = S(a,s) + b. */
  function P(round: nat, a: Long, b: Long, c: Long, d: Long, x: Long, s: nat, t: Long): Long
    requires 0 < s < 32
  {
    Wrap64(CodeRotate(Wrap64(a + CodeWord(round, b, c, d, 64) + x + t), s) + b)
  }

  /** The four 64-bit variables agree with the 32-bit words modulo 2^32. */
  ghost predicate Mirrors(a: Long, b: Long, c: Long, d: Long, st: State) {
    st == State(a % TWO_32, b % TWO_32, c % TWO_32, d % TWO_32)
  }

  /** A summand may be reduced first. */
  lemma ReduceFirst(a: nat, b: nat)
    ensures (a % TWO_32 + b) % TWO_32 == (a + b) % TWO_32
  {
    DivModUnique(a % TWO_32 + b, TWO_32, (a + b) / TWO_32 - a / TWO_32, (a + b) % TWO_32);
  }

  lemma LowOfLow(n: nat)
    ensures n % TWO_64 % TWO_32 == n % TWO_32
  {
    DivModUnique(n % TWO_64, TWO_32, n / TWO_32 - n / TWO_64 * TWO_32, n % TWO_32);
  }

  lemma LowOfSum(a: Long, f: nat, x: Word, t: Word)
    ensures Wrap64(a + f + x + t) % TWO_32 == Wrap32(a % TWO_32 + f % TWO_32 + x + t)
  {
    LowOfLow(a + f + x + t);
    ReduceFirst(a, f + x + t);
    ReduceFirst(f, a % TWO_32 + x + t);
  }

  lemma LowOfTwo(r: nat, b: Long)
    ensures Wrap64(r + b) % TWO_32 == Wrap32(r % TWO_32 + b % TWO_32)
  {
  }

  lemma {:induction false} PAgrees(round: nat, a: Long, b: Long, c: Long, d: Long, x: Word, s: nat, t: Word, st: State)
    requires Mirrors(a, b, c, d, st) && 0 < s < 32
    ensures P(round, a, b, c, d, x, s, t) % TWO_32 ==
            Wrap32(Rotate(Wrap32(st.a + RfcWord(round, st.b, st.c, st.d, 32) + x + t), s) + st.b)
  {
    hide CodeWord, RfcWord, CodeRotate, Rotate, Pow2, Wrap32, Wrap64;
    Pow2Of32And64();
    LowBits(round, b, c, d, 32, 64);
    var f := CodeWord(round, b, c, d, 64);
    var sum := Wrap64(a + f + x + t);
    LowOfSum(a, f, x, t);
    RotateAgrees(sum, s);
    LowOfTwo(CodeRotate(sum, s), b);
  }

  lemma StepMirrors(X: seq<Word>, i: nat, a: Long, b: Long, c: Long, d: Long, st: State)
    requires |X| == 16 && K(i) < 16 && Mirrors(a, b, c, d, st)
    ensures Mirrors(d, P(Round(i), a, b, c, d, X[K(i)], S(i), T(i)), b, c, RfcStep(st, X, i))
  {
    hide P, T, S, K, Round, Rotate, RfcWord, Wrap32;
    PAgrees(Round(i), a, b, c, d, X[K(i) % 16], S(i), T(i), st);
  }

  /** One line of md5_process: operation i of the RFC, up to the choice of variable names. */
  method Line(ghost st: State, X: seq<Word>, round: nat, ghost i: nat,
              a: Long, b: Long, c: Long, d: Long, k: nat, s: nat, t: Word)
    returns (r: Long)
    requires |X| == 16 && round == Round(i) && k == K(i) < 16 && s == S(i) && t == T(i)
    requires Mirrors(a, b, c, d, RfcSteps(st, X, i))
    ensures Mirrors(d, r, b, c, RfcSteps(st, X, i + 1))
  {
    hide P, T, S, K, Round, RfcStep, Mirrors;
    StepMirrors(X, i, a, b, c, d, RfcSteps(st, X, i));
    r := P(round, a, b, c, d, X[k], s, t);
  }

  method RoundOne(ghost st: State, X: seq<Word>, a: Long, b: Long, c: Long, d: Long)
    returns (A: Long, B: Long, C: Long, D: Long)
    requires |X| == 16 && Mirrors(a, b, c, d, RfcSteps(st, X, 0))
    ensures Mirrors(A, B, C, D, RfcSteps(st, X, 16))
  {
    hide Mirrors, RfcSteps;
    A, B, C, D := a, b, c, d;
    A := Line(st, X, 0, 0, A, B, C, D, 0, 7, 0xD76A_A478);
    D := Line(st, X, 0, 1, D, A, B, C, 1, 12, 0xE8C7_B756);
    C := Line(st, X, 0, 2, C, D, A, B, 2, 17, 0x2420_70DB);
    B := Line(st, X, 0, 3, B, C, D, A, 3, 22, 0xC1BD_CEEE);
    A := Line(st, X, 0, 4, A, B, C, D, 4, 7, 0xF57C_0FAF);
    D := Line(st, X, 0, 5, D, A, B, C, 5, 12, 0x4787_C62A);
    C := Line(st, X, 0, 6, C, D, A, B, 6, 17, 0xA830_4613);
    B := Line(st, X, 0, 7, B, C, D, A, 7, 22, 0xFD46_9501);
    A := Line(st, X, 0, 8, A, B, C, D, 8, 7, 0x6980_98D8);
    D := Line(st, X, 0, 9, D, A, B, C, 9, 12, 0x8B44_F7AF);
    C := Line(st, X, 0, 10, C, D, A, B, 10, 17, 0xFFFF_5BB1);
    B := Line(st, X, 0, 11, B, C, D, A, 11, 22, 0x895C_D7BE);
    A := Line(st, X, 0, 12, A, B, C, D, 12, 7, 0x6B90_1122);
    D := Line(st, X, 0, 13, D, A, B, C, 13, 12, 0xFD98_7193);
    C := Line(st, X, 0, 14, C, D, A, B, 14, 17, 0xA679_438E);
    B := Line(st, X, 0, 15, B, C, D, A, 15, 22, 0x49B4_0821);
  }

  method RoundTwo(ghost st: State, X: seq<Word>, a: Long, b: Long, c: Long, d: Long)
    returns (A: Long, B: Long, C: Long, D: Long)
    requires |X| == 16 && Mirrors(a, b, c, d, RfcSteps(st, X, 16))
    ensures Mirrors(A, B, C, D, RfcSteps(st, X, 32))
  {
    hide Mirrors, RfcSteps;
    A, B, C, D := a, b, c, d;
    A := Line(st, X, 1, 16, A, B, C, D, 1, 5, 0xF61E_2562);
    D := Line(st, X, 1, 17, D, A, B, C, 6, 9, 0xC040_B340);
    C := Line(st, X, 1, 18, C, D, A, B, 11, 14, 0x265E_5A51);
    B := Line(st, X, 1, 19, B, C, D, A, 0, 20, 0xE9B6_C7AA);
    A := Line(st, X, 1, 20, A, B, C, D, 5, 5, 0xD62F_105D);
    D := Line(st, X, 1, 21, D, A, B, C, 10, 9, 0x0244_1453);
    C := Line(st, X, 1, 22, C, D, A, B, 15, 14, 0xD8A1_E681);
    B := Line(st, X, 1, 23, B, C, D, A, 4, 20, 0xE7D3_FBC8);
    A := Line(st, X, 1, 24, A, B, C, D, 9, 5, 0x21E1_CDE6);
    D := Line(st, X, 1, 25, D, A, B, C, 14, 9, 0xC337_07D6);
    C := Line(st, X, 1, 26, C, D, A, B, 3, 14, 0xF4D5_0D87);
    B := Line(st, X, 1, 27, B, C, D, A, 8, 20, 0x455A_14ED);
    A := Line(st, X, 1, 28, A, B, C, D, 13, 5, 0xA9E3_E905);
    D := Line(st, X, 1, 29, D, A, B, C, 2, 9, 0xFCEF_A3F8);
    C := Line(st, X, 1, 30, C, D, A, B, 7, 14, 0x676F_02D9);
    B := Line(st, X, 1, 31, B, C, D, A, 12, 20, 0x8D2A_4C8A);
  }

  method RoundThree(ghost st: State, X: seq<Word>, a: Long, b: Long, c: Long, d: Long)
    returns (A: Long, B: Long, C: Long, D: Long)
    requires |X| == 16 && Mirrors(a, b, c, d, RfcSteps(st, X, 32))
    ensures Mirrors(A, B, C, D, RfcSteps(st, X, 48))
  {
    hide Mirrors, RfcSteps;
    A, B, C, D := a, b, c, d;
    A := Line(st, X, 2, 32, A, B, C, D, 5, 4, 0xFFFA_3942);
    D := Line(st, X, 2, 33, D, A, B, C, 8, 11, 0x8771_F681);
    C := Line(st, X, 2, 34, C, D, A, B, 11, 16, 0x6D9D_6122);
    B := Line(st, X, 2, 35, B, C, D, A, 14, 23, 0xFDE5_380C);
    A := Line(st, X, 2, 36, A, B, C, D, 1, 4, 0xA4BE_EA44);
    D := Line(st, X, 2, 37, D, A, B, C, 4, 11, 0x4BDE_CFA9);
    C := Line(st, X, 2, 38, C, D, A, B, 7, 16, 0xF6BB_4B60);
    B := Line(st, X, 2, 39, B, C, D, A, 10, 23, 0xBEBF_BC70);
    A := Line(st, X, 2, 40, A, B, C, D, 13, 4, 0x289B_7EC6);
    D := Line(st, X, 2, 41, D, A, B, C, 0, 11, 0xEAA1_27FA);
    C := Line(st, X, 2, 42, C, D, A, B, 3, 16, 0xD4EF_3085);
    B := Line(st, X, 2, 43, B, C, D, A, 6, 23, 0x0488_1D05);
    A := Line(st, X, 2, 44, A, B, C, D, 9, 4, 0xD9D4_D039);
    D := Line(st, X, 2, 45, D, A, B, C, 12, 11, 0xE6DB_99E5);
    C := Line(st, X, 2, 46, C, D, A, B, 15, 16, 0x1FA2_7CF8);
    B := Line(st, X, 2, 47, B, C, D, A, 2, 23, 0xC4AC_5665);
  }

  method RoundFour(ghost st: State, X: seq<Word>, a: Long, b: Long, c: Long, d: Long)
    returns (A: Long, B: Long, C: Long, D: Long)
    requires |X| == 16 && Mirrors(a, b, c, d, RfcSteps(st, X, 48))
    ensures Mirrors(A, B, C, D, RfcSteps(st, X, 64))
  {
    hide Mirrors, RfcSteps;
    A, B, C, D := a, b, c, d;
    A := Line(st, X, 3, 48, A, B, C, D, 0, 6, 0xF429_2244);
    D := Line(st, X, 3, 49, D, A, B, C, 7, 10, 0x432A_FF97);
    C := Line(st, X, 3, 50, C, D, A, B, 14, 15, 0xAB94_23A7);
    B := Line(st, X, 3, 51, B, C, D, A, 5, 21, 0xFC93_A039);
    A := Line(st, X, 3, 52, A, B, C, D, 12, 6, 0x655B_59C3);
    D := Line(st, X, 3, 53, D, A, B, C, 3, 10, 0x8F0C_CC92);
    C := Line(st, X, 3, 54, C, D, A, B, 10, 15, 0xFFEF_F47D);
    B := Line(st, X, 3, 55, B, C, D, A, 1, 21, 0x8584_5DD1);
    A := Line(st, X, 3, 56, A, B, C, D, 8, 6, 0x6FA8_7E4F);
    D := Line(st, X, 3, 57, D, A, B, C, 15, 10, 0xFE2C_E6E0);
    C := Line(st, X, 3, 58, C, D, A, B, 6, 15, 0xA301_4314);
    B := Line(st, X, 3, 59, B, C, D, A, 13, 21, 0x4E08_11A1);
    A := Line(st, X, 3, 60, A, B, C, D, 4, 6, 0xF753_7E82);
    D := Line(st, X, 3, 61, D, A, B, C, 11, 10, 0xBD3A_F235);
    C := Line(st, X, 3, 62, C, D, A, B, 2, 15, 0x2AD7_D2BB);
    B := Line(st, X, 3, 63, B, C, D, A, 9, 21, 0xEB86_D391);
  }

  /** GET_ULONG_LE: four bytes, least significant first. */
  function Words(block: seq<Byte>): (X: seq<Word>)
    requires |block| == 64
    ensures |X| == 16
  {
    seq(16, i requires 0 <= i < 16 => WordOf(block[4 * i], block[4 * i + 1], block[4 * i + 2], block[4 * i + 3]))
  }

  /** Section 3.4: 64 operations, then add the words the block started with. */
  function Process(st: State, block: seq<Byte>): State
    requires |block| == 64
  {
    var X := Words(block);
    // Four operations for each of the 16 words.
    var r := RfcSteps(st, X, 4 * |X|);
    State(Wrap32(st.a + r.a), Wrap32(st.b + r.b), Wrap32(st.c + r.c), Wrap32(st.d + r.d))
  }

  lemma {:induction false} StartMirrors(st: State, X: seq<Word>)
    requires |X| == 16
    ensures Mirrors(st.a, st.b, st.c, st.d, RfcSteps(st, X, 0))
  {
  }

  lemma AddLow(x: Word, y: Long, z: Word)
    requires z == y % TWO_32
    ensures Wrap32(x + y) == Wrap32(x + z)
  {
  }

  /** md5_process: the block is hashed as the RFC says, whatever collects in the high halves of the variables. */
  method Md5Process(state: State, data: seq<Byte>) returns (r: State)
    requires |data| == 64
    ensures r == Process(state, data)
  {
    hide RfcSteps, Words, Wrap32;
    var X := Words(data);
    var A: Long, B: Long, C: Long, D: Long := state.a, state.b, state.c, state.d;
    StartMirrors(state, X);
    A, B, C, D := RoundOne(state, X, A, B, C, D);
    A, B, C, D := RoundTwo(state, X, A, B, C, D);
    A, B, C, D := RoundThree(state, X, A, B, C, D);
    A, B, C, D := RoundFour(state, X, A, B, C, D);
    ghost var last := RfcSteps(state, X, 64);
    AddLow(state.a, A, last.a);
    AddLow(state.b, B, last.b);
    AddLow(state.c, C, last.c);
    AddLow(state.d, D, last.d);
    r := State(Wrap32(state.a + A), Wrap32(state.b + B), Wrap32(state.c + C), Wrap32(state.d + D));
  }
}
