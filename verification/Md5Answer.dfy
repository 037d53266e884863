/** The digest of the alphabet, which section A.5 of RFC 1321 lists. */
module Md5Answer {
  import opened Bits
  import opened BitVectors
  import opened Bytes
  import opened Md5Block
  import opened Md5Stream

  // ---------------------------------------------------------------- one operation on bit-vectors

  /** The round functions of section 3.4. */
  function F(round: nat, x: bv32, y: bv32, z: bv32): bv32 {
    if round == 0 then (x & y) | (!x & z)
    else if round == 1 then (x & z) | (y & !z)
    else if round == 2 then x ^ y ^ z
    else y ^ (x | !z)
  }

  lemma FFirst0(x: bv32, y: bv32, z: bv32)
    ensures Half(F(0, x, y, z)) == Masked(F(0, Half(x), Half(y), Half(z)), LOW_31)
    ensures Lowest(F(0, x, y, z)) == Bit(RfcBit(0, Lowest(x) == 1, Lowest(y) == 1, Lowest(z) == 1))
  {
  }

  lemma FFirst1(x: bv32, y: bv32, z: bv32)
    ensures Half(F(1, x, y, z)) == Masked(F(1, Half(x), Half(y), Half(z)), LOW_31)
    ensures Lowest(F(1, x, y, z)) == Bit(RfcBit(1, Lowest(x) == 1, Lowest(y) == 1, Lowest(z) == 1))
  {
  }

  lemma FFirst2(x: bv32, y: bv32, z: bv32)
    ensures Half(F(2, x, y, z)) == Masked(F(2, Half(x), Half(y), Half(z)), LOW_31)
    ensures Lowest(F(2, x, y, z)) == Bit(RfcBit(2, Lowest(x) == 1, Lowest(y) == 1, Lowest(z) == 1))
  {
  }

  lemma FFirst3(round: nat, x: bv32, y: bv32, z: bv32)
    requires round >= 3
    ensures Half(F(round, x, y, z)) == Masked(F(round, Half(x), Half(y), Half(z)), LOW_31)
    ensures Lowest(F(round, x, y, z)) == Bit(RfcBit(round, Lowest(x) == 1, Lowest(y) == 1, Lowest(z) == 1))
  {
  }

  lemma FFirst(round: nat, x: bv32, y: bv32, z: bv32)
    ensures Half(F(round, x, y, z)) == Masked(F(round, Half(x), Half(y), Half(z)), LOW_31)
    ensures Lowest(F(round, x, y, z)) == Bit(RfcBit(round, Lowest(x) == 1, Lowest(y) == 1, Lowest(z) == 1))
  {
    hide F, Half, Lowest, Masked, RfcBit;
    if round == 0 {
      FFirst0(x, y, z);
    } else if round == 1 {
      FFirst1(x, y, z);
    } else if round == 2 {
      FFirst2(x, y, z);
    } else {
      FFirst3(round, x, y, z);
    }
  }

  lemma {:induction false} RfcParts(round: nat, x0: nat, x: nat, y0: nat, y: nat, z0: nat, z: nat, n: nat)
    requires n > 0 && x0 <= 1 && y0 <= 1 && z0 <= 1
    ensures RfcWord(round, x0 + 2 * x, y0 + 2 * y, z0 + 2 * z, n) ==
            Bit(RfcBit(round, x0 == 1, y0 == 1, z0 == 1)) + 2 * RfcWord(round, x, y, z, n - 1)
  {
    assert (x0 + 2 * x) / 2 == x && (y0 + 2 * y) / 2 == y && (z0 + 2 * z) / 2 == z;
  }

  lemma {:induction false} NoRfcBits(round: nat, x: nat, y: nat, z: nat)
    ensures RfcWord(round, x, y, z, 0) == 0
  {
  }

  lemma {:induction false} FValue(round: nat, x: bv32, y: bv32, z: bv32, n: nat)
    requires n <= 32
    ensures Value(F(round, x, y, z), n) == RfcWord(round, Value(x, n), Value(y, n), Value(z, n), n)
    decreases n
  {
    hide Half, Lowest, Value, F, Masked, Mask, RfcBit, RfcWord, Bit;
    if n == 0 {
      NoBits(F(round, x, y, z));
      NoRfcBits(round, Value(x, n), Value(y, n), Value(z, n));
    } else {
      FFirst(round, x, y, z);
      FValue(round, Half(x), Half(y), Half(z), n - 1);
      LowKept(F(round, Half(x), Half(y), Half(z)), n - 1);
      FirstBit(x, n);
      FirstBit(y, n);
      FirstBit(z, n);
      FirstBit(F(round, x, y, z), n);
      RfcParts(round, Lowest(x), Value(Half(x), n - 1), Lowest(y), Value(Half(y), n - 1),
               Lowest(z), Value(Half(z), n - 1), n);
    }
  }

  lemma {:induction false} LowKept(y: bv32, n: nat)
    requires n <= 31
    ensures Value(Masked(y, LOW_31), n) == Value(y, n)
  {
    hide Half, Lowest, Value, Masked, Mask;
    Mask31();
    MaskValue(y, LOW_31, 31, 31);
    LowValue(y, n, 31);
    LowValue(Masked(y, LOW_31), n, 31);
  }

  function Rotated(x: bv32, s: nat): bv32
    requires s <= 32
  {
    AddOf(LeftBy(x, s), RightBy(x, 32 - s))
  }

  lemma RotateParts(x: Word, s: nat)
    requires 0 < s < 32
    ensures Rotate(x, s) == x * Pow2(s) % TWO_32 + x / Pow2(32 - s)
  {
    hide Pow2;
  }

  /** Rotate, as the sum of two shifts that fits in a word. */
  lemma {:induction false} RotateIs(x: Word, s: nat)
    requires 0 < s < 32
    ensures Rotate(x, s) == (ShiftLeft(x, s) + ShiftRight(x, 32 - s)) % TWO_32
  {
    hide Pow2, ShiftLeft, ShiftRight, CodeRotate, Rotate;
    ShiftLeftMultiplies(x, s);
    ShiftRightDivides(x, 32 - s);
    RotateParts(x, s);
    RotateAgrees(x, s);
    RotateFits(x);
    RotateFits(Rotate(x, s));
  }

  lemma RotateFits(n: nat)
    ensures n < TWO_32 ==> n % TWO_32 == n
  {
  }

  lemma {:induction false} RotatedValue(x: bv32, s: nat)
    requires 0 < s < 32
    ensures WordOf32(Rotated(x, s)) == Rotate(WordOf32(x), s)
  {
    hide WordOf32, Left, Right, LeftBy, RightBy, AddOf, Rotate, ShiftLeft, ShiftRight;
    LeftByIsLeft(x, s);
    RightByIsRight(x, 32 - s);
    LeftValue(x, s);
    RightValue(x, 32 - s);
    AddValue(Left(x, s), Right(x, 32 - s));
    RotateIs(WordOf32(x), s);
  }

  /** The word that operation i puts behind the others. */
  function NewWord(round: nat, a: bv32, b: bv32, c: bv32, d: bv32, x: bv32, t: bv32, s: nat): bv32
    requires s <= 32
  {
    AddOf(Rotated(AddOf(AddOf(AddOf(a, F(round, b, c, d)), x), t), s), b)
  }

  lemma Sums(a: Word, f: Word, x: Word, t: Word)
    ensures Wrap32(Wrap32(Wrap32(a + f) + x) + t) == Wrap32(a + f + x + t)
  {
    ReduceFirst(a + f, x);
    ReduceFirst((a + f) % TWO_32 + x, t);
    ReduceFirst(a + f, x + t);
  }

  lemma {:induction false} AddWraps(a: bv32, b: bv32)
    ensures WordOf32(AddOf(a, b)) == Wrap32(WordOf32(a) + WordOf32(b))
  {
    hide WordOf32, AddOf;
    AddValue(a, b);
  }

  lemma {:induction false} FWord(round: nat, x: bv32, y: bv32, z: bv32)
    ensures WordOf32(F(round, x, y, z)) == RfcWord(round, WordOf32(x), WordOf32(y), WordOf32(z), 32)
  {
    hide Value, RfcWord, F;
    FValue(round, x, y, z, 32);
  }

  lemma {:induction false} NewWordValue(round: nat, a: bv32, b: bv32, c: bv32, d: bv32, x: bv32, t: bv32, s: nat)
    requires 0 < s < 32
    ensures WordOf32(NewWord(round, a, b, c, d, x, t, s)) ==
            Wrap32(Rotate(Wrap32(WordOf32(a) + RfcWord(round, WordOf32(b), WordOf32(c), WordOf32(d), 32)
                                 + WordOf32(x) + WordOf32(t)), s) + WordOf32(b))
  {
    hide WordOf32, AddOf, F, Rotated, Rotate, RfcWord, Wrap32;
    var f := F(round, b, c, d);
    var s1 := AddOf(a, f);
    var s2 := AddOf(s1, x);
    var s3 := AddOf(s2, t);
    FWord(round, b, c, d);
    AddWraps(a, f);
    AddWraps(s1, x);
    AddWraps(s2, t);
    Sums(WordOf32(a), WordOf32(f), WordOf32(x), WordOf32(t));
    RotatedValue(s3, s);
    AddWraps(Rotated(s3, s), b);
  }

  // ---------------------------------------------------------------- the block of the alphabet

  /** "abcdefghijklmnopqrstuvwxyz" in ASCII. */
  const ALPHABET: seq<Byte> := seq(26, i requires 0 <= i < 26 => 97 + i)

  /** The words of its only block: the letters, the byte 0x80, and the length of 208 bits. */
  const WORDS: seq<Word> := [
    0x6463_6261, 0x6867_6665, 0x6c6b_6a69, 0x706f_6e6d, 0x7473_7271, 0x7877_7675, 0x0080_7a79, 0x0000_0000,
    0x0000_0000, 0x0000_0000, 0x0000_0000, 0x0000_0000, 0x0000_0000, 0x0000_0000, 0x0000_00d0, 0x0000_0000
  ]

  /** Where the operations have come after the first i. */
  ghost predicate Reached(i: nat, a: bv32, b: bv32, c: bv32, d: bv32) {
    RfcSteps(INIT, WORDS, i) == State(WordOf32(a), WordOf32(b), WordOf32(c), WordOf32(d))
  }

  lemma {:induction false} NextReached(i: nat, a: bv32, b: bv32, c: bv32, d: bv32, x: bv32, t: bv32, e: bv32)
    requires Reached(i, a, b, c, d) && WordOf32(x) == WORDS[K(i) % 16] && WordOf32(t) == T(i)
    requires e == NewWord(Round(i), a, b, c, d, x, t, S(i))
    ensures Reached(i + 1, d, e, b, c)
  {
    hide WordOf32, NewWord, Rotate, RfcWord, T, K, S, Round, Wrap32;
    NewWordValue(Round(i), a, b, c, d, x, t, S(i));
  }

  /** Operation i, computed on bit-vectors: x and t are the word of the block and the constant it takes. */
  lemma {:induction false} Operation(i: nat, round: nat, s: nat, a: bv32, b: bv32, c: bv32, d: bv32,
                                     x: bv32, xw: Word, t: bv32, tw: Word, e: bv32)
    requires Reached(i, a, b, c, d) && round == Round(i) && s == S(i)
    requires xw == WORDS[K(i) % 16] == Hex4(x) + 0x1_0000 * Hex4(Front(x))
    requires tw == T(i) == Hex4(t) + 0x1_0000 * Hex4(Front(t))
    requires e == NewWord(round, a, b, c, d, x, t, s)
    ensures Reached(i + 1, d, e, b, c)
  {
    hide WordOf32, NewWord, T, K, S, Round, Hex4, Front, Reached;
    HexValue(x);
    HexValue(t);
    NextReached(i, a, b, c, d, x, t, e);
  }

  // ---------------------------------------------------------------- the 64 operations

  lemma {:induction false} Operations0To1()
    requires Reached(0, 0x6745_2301, 0xefcd_ab89, 0x98ba_dcfe, 0x1032_5476)
    ensures Reached(2, 0x98ba_dcfe, 0xaab1_aaaa, 0xd6d1_17a6, 0xefcd_ab89)
  {
    hide Reached;
    assert Reached(1, 0x1032_5476, 0xd6d1_17a6, 0xefcd_ab89, 0x98ba_dcfe) by {
      Operation(0, 0, 7, 0x6745_2301, 0xefcd_ab89, 0x98ba_dcfe, 0x1032_5476,
                0x6463_6261, 0x6463_6261, 0xd76a_a478, 0xd76a_a478, 0xd6d1_17a6);
    }
    assert Reached(2, 0x98ba_dcfe, 0xaab1_aaaa, 0xd6d1_17a6, 0xefcd_ab89) by {
      Operation(1, 0, 12, 0x1032_5476, 0xd6d1_17a6, 0xefcd_ab89, 0x98ba_dcfe,
                0x6867_6665, 0x6867_6665, 0xe8c7_b756, 0xe8c7_b756, 0xaab1_aaaa);
    }
  }

  lemma {:induction false} Operations2To3()
    requires Reached(2, 0x98ba_dcfe, 0xaab1_aaaa, 0xd6d1_17a6, 0xefcd_ab89)
    ensures Reached(4, 0xd6d1_17a6, 0x4503_b812, 0x227d_8cf1, 0xaab1_aaaa)
  {
    hide Reached;
    assert Reached(3, 0xefcd_ab89, 0x227d_8cf1, 0xaab1_aaaa, 0xd6d1_17a6) by {
      Operation(2, 0, 17, 0x98ba_dcfe, 0xaab1_aaaa, 0xd6d1_17a6, 0xefcd_ab89,
                0x6c6b_6a69, 0x6c6b_6a69, 0x2420_70db, 0x2420_70db, 0x227d_8cf1);
    }
    assert Reached(4, 0xd6d1_17a6, 0x4503_b812, 0x227d_8cf1, 0xaab1_aaaa) by {
      Operation(3, 0, 22, 0xefcd_ab89, 0x227d_8cf1, 0xaab1_aaaa, 0xd6d1_17a6,
                0x706f_6e6d, 0x706f_6e6d, 0xc1bd_ceee, 0xc1bd_ceee, 0x4503_b812);
    }
  }

  lemma {:induction false} Operations4To5()
    requires Reached(4, 0xd6d1_17a6, 0x4503_b812, 0x227d_8cf1, 0xaab1_aaaa)
    ensures Reached(6, 0x227d_8cf1, 0xa811_b278, 0xfe15_f787, 0x4503_b812)
  {
    hide Reached;
    assert Reached(5, 0xaab1_aaaa, 0xfe15_f787, 0x4503_b812, 0x227d_8cf1) by {
      Operation(4, 0, 7, 0xd6d1_17a6, 0x4503_b812, 0x227d_8cf1, 0xaab1_aaaa,
                0x7473_7271, 0x7473_7271, 0xf57c_0faf, 0xf57c_0faf, 0xfe15_f787);
    }
    assert Reached(6, 0x227d_8cf1, 0xa811_b278, 0xfe15_f787, 0x4503_b812) by {
      Operation(5, 0, 12, 0xaab1_aaaa, 0xfe15_f787, 0x4503_b812, 0x227d_8cf1,
                0x7877_7675, 0x7877_7675, 0x4787_c62a, 0x4787_c62a, 0xa811_b278);
    }
  }

  lemma {:induction false} Operations6To7()
    requires Reached(6, 0x227d_8cf1, 0xa811_b278, 0xfe15_f787, 0x4503_b812)
    ensures Reached(8, 0xfe15_f787, 0xda9b_bb0d, 0xb711_22fc, 0xa811_b278)
  {
    hide Reached;
    assert Reached(7, 0x4503_b812, 0xb711_22fc, 0xa811_b278, 0xfe15_f787) by {
      Operation(6, 0, 17, 0x227d_8cf1, 0xa811_b278, 0xfe15_f787, 0x4503_b812,
                0x0080_7a79, 0x0080_7a79, 0xa830_4613, 0xa830_4613, 0xb711_22fc);
    }
    assert Reached(8, 0xfe15_f787, 0xda9b_bb0d, 0xb711_22fc, 0xa811_b278) by {
      Operation(7, 0, 22, 0x4503_b812, 0xb711_22fc, 0xa811_b278, 0xfe15_f787,
                0x0000_0000, 0x0000_0000, 0xfd46_9501, 0xfd46_9501, 0xda9b_bb0d);
    }
  }

  lemma {:induction false} Operations8To9()
    requires Reached(8, 0xfe15_f787, 0xda9b_bb0d, 0xb711_22fc, 0xa811_b278)
    ensures Reached(10, 0xb711_22fc, 0x2bbe_757f, 0xae75_2899, 0xda9b_bb0d)
  {
    hide Reached;
    assert Reached(9, 0xa811_b278, 0xae75_2899, 0xda9b_bb0d, 0xb711_22fc) by {
      Operation(8, 0, 7, 0xfe15_f787, 0xda9b_bb0d, 0xb711_22fc, 0xa811_b278,
                0x0000_0000, 0x0000_0000, 0x6980_98d8, 0x6980_98d8, 0xae75_2899);
    }
    assert Reached(10, 0xb711_22fc, 0x2bbe_757f, 0xae75_2899, 0xda9b_bb0d) by {
      Operation(9, 0, 12, 0xa811_b278, 0xae75_2899, 0xda9b_bb0d, 0xb711_22fc,
                0x0000_0000, 0x0000_0000, 0x8b44_f7af, 0x8b44_f7af, 0x2bbe_757f);
    }
  }

  lemma {:induction false} Operations10To11()
    requires Reached(10, 0xb711_22fc, 0x2bbe_757f, 0xae75_2899, 0xda9b_bb0d)
    ensures Reached(12, 0xae75_2899, 0x56cf_a5cb, 0x7d4b_d80b, 0x2bbe_757f)
  {
    hide Reached;
    assert Reached(11, 0xda9b_bb0d, 0x7d4b_d80b, 0x2bbe_757f, 0xae75_2899) by {
      Operation(10, 0, 17, 0xb711_22fc, 0x2bbe_757f, 0xae75_2899, 0xda9b_bb0d,
                0x0000_0000, 0x0000_0000, 0xffff_5bb1, 0xffff_5bb1, 0x7d4b_d80b);
    }
    assert Reached(12, 0xae75_2899, 0x56cf_a5cb, 0x7d4b_d80b, 0x2bbe_757f) by {
      Operation(11, 0, 22, 0xda9b_bb0d, 0x7d4b_d80b, 0x2bbe_757f, 0xae75_2899,
                0x0000_0000, 0x0000_0000, 0x895c_d7be, 0x895c_d7be, 0x56cf_a5cb);
    }
  }

  lemma {:induction false} Operations12To13()
    requires Reached(12, 0xae75_2899, 0x56cf_a5cb, 0x7d4b_d80b, 0x2bbe_757f)
    ensures Reached(14, 0x7d4b_d80b, 0x8556_7d90, 0x1754_a316, 0x56cf_a5cb)
  {
    hide Reached;
    assert Reached(13, 0x2bbe_757f, 0x1754_a316, 0x56cf_a5cb, 0x7d4b_d80b) by {
      Operation(12, 0, 7, 0xae75_2899, 0x56cf_a5cb, 0x7d4b_d80b, 0x2bbe_757f,
                0x0000_0000, 0x0000_0000, 0x6b90_1122, 0x6b90_1122, 0x1754_a316);
    }
    assert Reached(14, 0x7d4b_d80b, 0x8556_7d90, 0x1754_a316, 0x56cf_a5cb) by {
      Operation(13, 0, 12, 0x2bbe_757f, 0x1754_a316, 0x56cf_a5cb, 0x7d4b_d80b,
                0x0000_0000, 0x0000_0000, 0xfd98_7193, 0xfd98_7193, 0x8556_7d90);
    }
  }

  lemma {:induction false} Operations14To15()
    requires Reached(14, 0x7d4b_d80b, 0x8556_7d90, 0x1754_a316, 0x56cf_a5cb)
    ensures Reached(16, 0x1754_a316, 0x608d_6b7e, 0x00df_74d5, 0x8556_7d90)
  {
    hide Reached;
    assert Reached(15, 0x56cf_a5cb, 0x00df_74d5, 0x8556_7d90, 0x1754_a316) by {
      Operation(14, 0, 17, 0x7d4b_d80b, 0x8556_7d90, 0x1754_a316, 0x56cf_a5cb,
                0x0000_00d0, 0x0000_00d0, 0xa679_438e, 0xa679_438e, 0x00df_74d5);
    }
    assert Reached(16, 0x1754_a316, 0x608d_6b7e, 0x00df_74d5, 0x8556_7d90) by {
      Operation(15, 0, 22, 0x56cf_a5cb, 0x00df_74d5, 0x8556_7d90, 0x1754_a316,
                0x0000_0000, 0x0000_0000, 0x49b4_0821, 0x49b4_0821, 0x608d_6b7e);
    }
  }

  lemma {:induction false} Operations16To17()
    requires Reached(16, 0x1754_a316, 0x608d_6b7e, 0x00df_74d5, 0x8556_7d90)
    ensures Reached(18, 0x00df_74d5, 0x5dce_e119, 0x2d80_71cc, 0x608d_6b7e)
  {
    hide Reached;
    assert Reached(17, 0x8556_7d90, 0x2d80_71cc, 0x608d_6b7e, 0x00df_74d5) by {
      Operation(16, 1, 5, 0x1754_a316, 0x608d_6b7e, 0x00df_74d5, 0x8556_7d90,
                0x6867_6665, 0x6867_6665, 0xf61e_2562, 0xf61e_2562, 0x2d80_71cc);
    }
    assert Reached(18, 0x00df_74d5, 0x5dce_e119, 0x2d80_71cc, 0x608d_6b7e) by {
      Operation(17, 1, 9, 0x8556_7d90, 0x2d80_71cc, 0x608d_6b7e, 0x00df_74d5,
                0x0080_7a79, 0x0080_7a79, 0xc040_b340, 0xc040_b340, 0x5dce_e119);
    }
  }

  lemma {:induction false} Operations18To19()
    requires Reached(18, 0x00df_74d5, 0x5dce_e119, 0x2d80_71cc, 0x608d_6b7e)
    ensures Reached(20, 0x2d80_71cc, 0x4c21_45b3, 0xedfe_7e4b, 0x5dce_e119)
  {
    hide Reached;
    assert Reached(19, 0x608d_6b7e, 0xedfe_7e4b, 0x5dce_e119, 0x2d80_71cc) by {
      Operation(18, 1, 14, 0x00df_74d5, 0x5dce_e119, 0x2d80_71cc, 0x608d_6b7e,
                0x0000_0000, 0x0000_0000, 0x265e_5a51, 0x265e_5a51, 0xedfe_7e4b);
    }
    assert Reached(20, 0x2d80_71cc, 0x4c21_45b3, 0xedfe_7e4b, 0x5dce_e119) by {
      Operation(19, 1, 20, 0x608d_6b7e, 0xedfe_7e4b, 0x5dce_e119, 0x2d80_71cc,
                0x6463_6261, 0x6463_6261, 0xe9b6_c7aa, 0xe9b6_c7aa, 0x4c21_45b3);
    }
  }

  lemma {:induction false} Operations20To21()
    requires Reached(20, 0x2d80_71cc, 0x4c21_45b3, 0xedfe_7e4b, 0x5dce_e119)
    ensures Reached(22, 0xedfe_7e4b, 0x977e_fd2a, 0x570c_43e0, 0x4c21_45b3)
  {
    hide Reached;
    assert Reached(21, 0x5dce_e119, 0x570c_43e0, 0x4c21_45b3, 0xedfe_7e4b) by {
      Operation(20, 1, 5, 0x2d80_71cc, 0x4c21_45b3, 0xedfe_7e4b, 0x5dce_e119,
                0x7877_7675, 0x7877_7675, 0xd62f_105d, 0xd62f_105d, 0x570c_43e0);
    }
    assert Reached(22, 0xedfe_7e4b, 0x977e_fd2a, 0x570c_43e0, 0x4c21_45b3) by {
      Operation(21, 1, 9, 0x5dce_e119, 0x570c_43e0, 0x4c21_45b3, 0xedfe_7e4b,
                0x0000_0000, 0x0000_0000, 0x0244_1453, 0x0244_1453, 0x977e_fd2a);
    }
  }

  lemma {:induction false} Operations22To23()
    requires Reached(22, 0xedfe_7e4b, 0x977e_fd2a, 0x570c_43e0, 0x4c21_45b3)
    ensures Reached(24, 0x570c_43e0, 0xc9f1_62d4, 0xc28a_b49d, 0x977e_fd2a)
  {
    hide Reached;
    assert Reached(23, 0x4c21_45b3, 0xc28a_b49d, 0x977e_fd2a, 0x570c_43e0) by {
      Operation(22, 1, 14, 0xedfe_7e4b, 0x977e_fd2a, 0x570c_43e0, 0x4c21_45b3,
                0x0000_0000, 0x0000_0000, 0xd8a1_e681, 0xd8a1_e681, 0xc28a_b49d);
    }
    assert Reached(24, 0x570c_43e0, 0xc9f1_62d4, 0xc28a_b49d, 0x977e_fd2a) by {
      Operation(23, 1, 20, 0x4c21_45b3, 0xc28a_b49d, 0x977e_fd2a, 0x570c_43e0,
                0x7473_7271, 0x7473_7271, 0xe7d3_fbc8, 0xe7d3_fbc8, 0xc9f1_62d4);
    }
  }

  lemma {:induction false} Operations24To25()
    requires Reached(24, 0x570c_43e0, 0xc9f1_62d4, 0xc28a_b49d, 0x977e_fd2a)
    ensures Reached(26, 0xc28a_b49d, 0x8998_0104, 0x25bf_ae3b, 0xc9f1_62d4)
  {
    hide Reached;
    assert Reached(25, 0x977e_fd2a, 0x25bf_ae3b, 0xc9f1_62d4, 0xc28a_b49d) by {
      Operation(24, 1, 5, 0x570c_43e0, 0xc9f1_62d4, 0xc28a_b49d, 0x977e_fd2a,
                0x0000_0000, 0x0000_0000, 0x21e1_cde6, 0x21e1_cde6, 0x25bf_ae3b);
    }
    assert Reached(26, 0xc28a_b49d, 0x8998_0104, 0x25bf_ae3b, 0xc9f1_62d4) by {
      Operation(25, 1, 9, 0x977e_fd2a, 0x25bf_ae3b, 0xc9f1_62d4, 0xc28a_b49d,
                0x0000_00d0, 0x0000_00d0, 0xc337_07d6, 0xc337_07d6, 0x8998_0104);
    }
  }

  lemma {:induction false} Operations26To27()
    requires Reached(26, 0xc28a_b49d, 0x8998_0104, 0x25bf_ae3b, 0xc9f1_62d4)
    ensures Reached(28, 0x25bf_ae3b, 0xe6d3_b398, 0xf8c8_365f, 0x8998_0104)
  {
    hide Reached;
    assert Reached(27, 0xc9f1_62d4, 0xf8c8_365f, 0x8998_0104, 0x25bf_ae3b) by {
      Operation(26, 1, 14, 0xc28a_b49d, 0x8998_0104, 0x25bf_ae3b, 0xc9f1_62d4,
                0x706f_6e6d, 0x706f_6e6d, 0xf4d5_0d87, 0xf4d5_0d87, 0xf8c8_365f);
    }
    assert Reached(28, 0x25bf_ae3b, 0xe6d3_b398, 0xf8c8_365f, 0x8998_0104) by {
      Operation(27, 1, 20, 0xc9f1_62d4, 0xf8c8_365f, 0x8998_0104, 0x25bf_ae3b,
                0x0000_0000, 0x0000_0000, 0x455a_14ed, 0x455a_14ed, 0xe6d3_b398);
    }
  }

  lemma {:induction false} Operations28To29()
    requires Reached(28, 0x25bf_ae3b, 0xe6d3_b398, 0xf8c8_365f, 0x8998_0104)
    ensures Reached(30, 0xf8c8_365f, 0x927b_72e2, 0xf54d_8710, 0xe6d3_b398)
  {
    hide Reached;
    assert Reached(29, 0x8998_0104, 0xf54d_8710, 0xe6d3_b398, 0xf8c8_365f) by {
      Operation(28, 1, 5, 0x25bf_ae3b, 0xe6d3_b398, 0xf8c8_365f, 0x8998_0104,
                0x0000_0000, 0x0000_0000, 0xa9e3_e905, 0xa9e3_e905, 0xf54d_8710);
    }
    assert Reached(30, 0xf8c8_365f, 0x927b_72e2, 0xf54d_8710, 0xe6d3_b398) by {
      Operation(29, 1, 9, 0x8998_0104, 0xf54d_8710, 0xe6d3_b398, 0xf8c8_365f,
                0x6c6b_6a69, 0x6c6b_6a69, 0xfcef_a3f8, 0xfcef_a3f8, 0x927b_72e2);
    }
  }

  lemma {:induction false} Operations30To31()
    requires Reached(30, 0xf8c8_365f, 0x927b_72e2, 0xf54d_8710, 0xe6d3_b398)
    ensures Reached(32, 0xf54d_8710, 0xaeb3_5766, 0x2e69_afc7, 0x927b_72e2)
  {
    hide Reached;
    assert Reached(31, 0xe6d3_b398, 0x2e69_afc7, 0x927b_72e2, 0xf54d_8710) by {
      Operation(30, 1, 14, 0xf8c8_365f, 0x927b_72e2, 0xf54d_8710, 0xe6d3_b398,
                0x0000_0000, 0x0000_0000, 0x676f_02d9, 0x676f_02d9, 0x2e69_afc7);
    }
    assert Reached(32, 0xf54d_8710, 0xaeb3_5766, 0x2e69_afc7, 0x927b_72e2) by {
      Operation(31, 1, 20, 0xe6d3_b398, 0x2e69_afc7, 0x927b_72e2, 0xf54d_8710,
                0x0000_0000, 0x0000_0000, 0x8d2a_4c8a, 0x8d2a_4c8a, 0xaeb3_5766);
    }
  }

  lemma {:induction false} Operations32To33()
    requires Reached(32, 0xf54d_8710, 0xaeb3_5766, 0x2e69_afc7, 0x927b_72e2)
    ensures Reached(34, 0x2e69_afc7, 0x4c8f_fa80, 0xb4bf_680e, 0xaeb3_5766)
  {
    hide Reached;
    assert Reached(33, 0x927b_72e2, 0xb4bf_680e, 0xaeb3_5766, 0x2e69_afc7) by {
      Operation(32, 2, 4, 0xf54d_8710, 0xaeb3_5766, 0x2e69_afc7, 0x927b_72e2,
                0x7877_7675, 0x7877_7675, 0xfffa_3942, 0xfffa_3942, 0xb4bf_680e);
    }
    assert Reached(34, 0x2e69_afc7, 0x4c8f_fa80, 0xb4bf_680e, 0xaeb3_5766) by {
      Operation(33, 2, 11, 0x927b_72e2, 0xb4bf_680e, 0xaeb3_5766, 0x2e69_afc7,
                0x0000_0000, 0x0000_0000, 0x8771_f681, 0x8771_f681, 0x4c8f_fa80);
    }
  }

  lemma {:induction false} Operations34To35()
    requires Reached(34, 0x2e69_afc7, 0x4c8f_fa80, 0xb4bf_680e, 0xaeb3_5766)
    ensures Reached(36, 0xb4bf_680e, 0x06a5_e211, 0x2361_ed0a, 0x4c8f_fa80)
  {
    hide Reached;
    assert Reached(35, 0xaeb3_5766, 0x2361_ed0a, 0x4c8f_fa80, 0xb4bf_680e) by {
      Operation(34, 2, 16, 0x2e69_afc7, 0x4c8f_fa80, 0xb4bf_680e, 0xaeb3_5766,
                0x0000_0000, 0x0000_0000, 0x6d9d_6122, 0x6d9d_6122, 0x2361_ed0a);
    }
    assert Reached(36, 0xb4bf_680e, 0x06a5_e211, 0x2361_ed0a, 0x4c8f_fa80) by {
      Operation(35, 2, 23, 0xaeb3_5766, 0x2361_ed0a, 0x4c8f_fa80, 0xb4bf_680e,
                0x0000_00d0, 0x0000_00d0, 0xfde5_380c, 0xfde5_380c, 0x06a5_e211);
    }
  }

  lemma {:induction false} Operations36To37()
    requires Reached(36, 0xb4bf_680e, 0x06a5_e211, 0x2361_ed0a, 0x4c8f_fa80)
    ensures Reached(38, 0x2361_ed0a, 0xf1e6_dc7a, 0xb9c0_c733, 0x06a5_e211)
  {
    hide Reached;
    assert Reached(37, 0x4c8f_fa80, 0xb9c0_c733, 0x06a5_e211, 0x2361_ed0a) by {
      Operation(36, 2, 4, 0xb4bf_680e, 0x06a5_e211, 0x2361_ed0a, 0x4c8f_fa80,
                0x6867_6665, 0x6867_6665, 0xa4be_ea44, 0xa4be_ea44, 0xb9c0_c733);
    }
    assert Reached(38, 0x2361_ed0a, 0xf1e6_dc7a, 0xb9c0_c733, 0x06a5_e211) by {
      Operation(37, 2, 11, 0x4c8f_fa80, 0xb9c0_c733, 0x06a5_e211, 0x2361_ed0a,
                0x7473_7271, 0x7473_7271, 0x4bde_cfa9, 0x4bde_cfa9, 0xf1e6_dc7a);
    }
  }

  lemma {:induction false} Operations38To39()
    requires Reached(38, 0x2361_ed0a, 0xf1e6_dc7a, 0xb9c0_c733, 0x06a5_e211)
    ensures Reached(40, 0xb9c0_c733, 0x8d41_bf99, 0x23a9_451b, 0xf1e6_dc7a)
  {
    hide Reached;
    assert Reached(39, 0x06a5_e211, 0x23a9_451b, 0xf1e6_dc7a, 0xb9c0_c733) by {
      Operation(38, 2, 16, 0x2361_ed0a, 0xf1e6_dc7a, 0xb9c0_c733, 0x06a5_e211,
                0x0000_0000, 0x0000_0000, 0xf6bb_4b60, 0xf6bb_4b60, 0x23a9_451b);
    }
    assert Reached(40, 0xb9c0_c733, 0x8d41_bf99, 0x23a9_451b, 0xf1e6_dc7a) by {
      Operation(39, 2, 23, 0x06a5_e211, 0x23a9_451b, 0xf1e6_dc7a, 0xb9c0_c733,
                0x0000_0000, 0x0000_0000, 0xbebf_bc70, 0xbebf_bc70, 0x8d41_bf99);
    }
  }

  lemma {:induction false} Operations40To41()
    requires Reached(40, 0xb9c0_c733, 0x8d41_bf99, 0x23a9_451b, 0xf1e6_dc7a)
    ensures Reached(42, 0x23a9_451b, 0x02c0_b11c, 0xa3e8_8ead, 0x8d41_bf99)
  {
    hide Reached;
    assert Reached(41, 0xf1e6_dc7a, 0xa3e8_8ead, 0x8d41_bf99, 0x23a9_451b) by {
      Operation(40, 2, 4, 0xb9c0_c733, 0x8d41_bf99, 0x23a9_451b, 0xf1e6_dc7a,
                0x0000_0000, 0x0000_0000, 0x289b_7ec6, 0x289b_7ec6, 0xa3e8_8ead);
    }
    assert Reached(42, 0x23a9_451b, 0x02c0_b11c, 0xa3e8_8ead, 0x8d41_bf99) by {
      Operation(41, 2, 11, 0xf1e6_dc7a, 0xa3e8_8ead, 0x8d41_bf99, 0x23a9_451b,
                0x6463_6261, 0x6463_6261, 0xeaa1_27fa, 0xeaa1_27fa, 0x02c0_b11c);
    }
  }

  lemma {:induction false} Operations42To43()
    requires Reached(42, 0x23a9_451b, 0x02c0_b11c, 0xa3e8_8ead, 0x8d41_bf99)
    ensures Reached(44, 0xa3e8_8ead, 0x90a3_5af5, 0x66f6_468d, 0x02c0_b11c)
  {
    hide Reached;
    assert Reached(43, 0x8d41_bf99, 0x66f6_468d, 0x02c0_b11c, 0xa3e8_8ead) by {
      Operation(42, 2, 16, 0x23a9_451b, 0x02c0_b11c, 0xa3e8_8ead, 0x8d41_bf99,
                0x706f_6e6d, 0x706f_6e6d, 0xd4ef_3085, 0xd4ef_3085, 0x66f6_468d);
    }
    assert Reached(44, 0xa3e8_8ead, 0x90a3_5af5, 0x66f6_468d, 0x02c0_b11c) by {
      Operation(43, 2, 23, 0x8d41_bf99, 0x66f6_468d, 0x02c0_b11c, 0xa3e8_8ead,
                0x0080_7a79, 0x0080_7a79, 0x0488_1d05, 0x0488_1d05, 0x90a3_5af5);
    }
  }

  lemma {:induction false} Operations44To45()
    requires Reached(44, 0xa3e8_8ead, 0x90a3_5af5, 0x66f6_468d, 0x02c0_b11c)
    ensures Reached(46, 0x66f6_468d, 0xa04b_4904, 0xb5d4_1f9c, 0x90a3_5af5)
  {
    hide Reached;
    assert Reached(45, 0x02c0_b11c, 0xb5d4_1f9c, 0x90a3_5af5, 0x66f6_468d) by {
      Operation(44, 2, 4, 0xa3e8_8ead, 0x90a3_5af5, 0x66f6_468d, 0x02c0_b11c,
                0x0000_0000, 0x0000_0000, 0xd9d4_d039, 0xd9d4_d039, 0xb5d4_1f9c);
    }
    assert Reached(46, 0x66f6_468d, 0xa04b_4904, 0xb5d4_1f9c, 0x90a3_5af5) by {
      Operation(45, 2, 11, 0x02c0_b11c, 0xb5d4_1f9c, 0x90a3_5af5, 0x66f6_468d,
                0x0000_0000, 0x0000_0000, 0xe6db_99e5, 0xe6db_99e5, 0xa04b_4904);
    }
  }

  lemma {:induction false} Operations46To47()
    requires Reached(46, 0x66f6_468d, 0xa04b_4904, 0xb5d4_1f9c, 0x90a3_5af5)
    ensures Reached(48, 0xb5d4_1f9c, 0x71d1_0367, 0x703d_54d8, 0xa04b_4904)
  {
    hide Reached;
    assert Reached(47, 0x90a3_5af5, 0x703d_54d8, 0xa04b_4904, 0xb5d4_1f9c) by {
      Operation(46, 2, 16, 0x66f6_468d, 0xa04b_4904, 0xb5d4_1f9c, 0x90a3_5af5,
                0x0000_0000, 0x0000_0000, 0x1fa2_7cf8, 0x1fa2_7cf8, 0x703d_54d8);
    }
    assert Reached(48, 0xb5d4_1f9c, 0x71d1_0367, 0x703d_54d8, 0xa04b_4904) by {
      Operation(47, 2, 23, 0x90a3_5af5, 0x703d_54d8, 0xa04b_4904, 0xb5d4_1f9c,
                0x6c6b_6a69, 0x6c6b_6a69, 0xc4ac_5665, 0xc4ac_5665, 0x71d1_0367);
    }
  }

  lemma {:induction false} Operations48To49()
    requires Reached(48, 0xb5d4_1f9c, 0x71d1_0367, 0x703d_54d8, 0xa04b_4904)
    ensures Reached(50, 0x703d_54d8, 0x6545_6b34, 0xfc32_dd6e, 0x71d1_0367)
  {
    hide Reached;
    assert Reached(49, 0xa04b_4904, 0xfc32_dd6e, 0x71d1_0367, 0x703d_54d8) by {
      Operation(48, 3, 6, 0xb5d4_1f9c, 0x71d1_0367, 0x703d_54d8, 0xa04b_4904,
                0x6463_6261, 0x6463_6261, 0xf429_2244, 0xf429_2244, 0xfc32_dd6e);
    }
    assert Reached(50, 0x703d_54d8, 0x6545_6b34, 0xfc32_dd6e, 0x71d1_0367) by {
      Operation(49, 3, 10, 0xa04b_4904, 0xfc32_dd6e, 0x71d1_0367, 0x703d_54d8,
                0x0000_0000, 0x0000_0000, 0x432a_ff97, 0x432a_ff97, 0x6545_6b34);
    }
  }

  lemma {:induction false} Operations50To51()
    requires Reached(50, 0x703d_54d8, 0x6545_6b34, 0xfc32_dd6e, 0x71d1_0367)
    ensures Reached(52, 0xfc32_dd6e, 0x33ed_b197, 0xb356_02cb, 0x6545_6b34)
  {
    hide Reached;
    assert Reached(51, 0x71d1_0367, 0xb356_02cb, 0x6545_6b34, 0xfc32_dd6e) by {
      Operation(50, 3, 15, 0x703d_54d8, 0x6545_6b34, 0xfc32_dd6e, 0x71d1_0367,
                0x0000_00d0, 0x0000_00d0, 0xab94_23a7, 0xab94_23a7, 0xb356_02cb);
    }
    assert Reached(52, 0xfc32_dd6e, 0x33ed_b197, 0xb356_02cb, 0x6545_6b34) by {
      Operation(51, 3, 21, 0x71d1_0367, 0xb356_02cb, 0x6545_6b34, 0xfc32_dd6e,
                0x7877_7675, 0x7877_7675, 0xfc93_a039, 0xfc93_a039, 0x33ed_b197);
    }
  }

  lemma {:induction false} Operations52To53()
    requires Reached(52, 0xfc32_dd6e, 0x33ed_b197, 0xb356_02cb, 0x6545_6b34)
    ensures Reached(54, 0xb356_02cb, 0xd9bb_987c, 0xc1e9_42f1, 0x33ed_b197)
  {
    hide Reached;
    assert Reached(53, 0x6545_6b34, 0xc1e9_42f1, 0x33ed_b197, 0xb356_02cb) by {
      Operation(52, 3, 6, 0xfc32_dd6e, 0x33ed_b197, 0xb356_02cb, 0x6545_6b34,
                0x0000_0000, 0x0000_0000, 0x655b_59c3, 0x655b_59c3, 0xc1e9_42f1);
    }
    assert Reached(54, 0xb356_02cb, 0xd9bb_987c, 0xc1e9_42f1, 0x33ed_b197) by {
      Operation(53, 3, 10, 0x6545_6b34, 0xc1e9_42f1, 0x33ed_b197, 0xb356_02cb,
                0x706f_6e6d, 0x706f_6e6d, 0x8f0c_cc92, 0x8f0c_cc92, 0xd9bb_987c);
    }
  }

  lemma {:induction false} Operations54To55()
    requires Reached(54, 0xb356_02cb, 0xd9bb_987c, 0xc1e9_42f1, 0x33ed_b197)
    ensures Reached(56, 0xc1e9_42f1, 0x8387_7d1b, 0x23a6_8048, 0xd9bb_987c)
  {
    hide Reached;
    assert Reached(55, 0x33ed_b197, 0x23a6_8048, 0xd9bb_987c, 0xc1e9_42f1) by {
      Operation(54, 3, 15, 0xb356_02cb, 0xd9bb_987c, 0xc1e9_42f1, 0x33ed_b197,
                0x0000_0000, 0x0000_0000, 0xffef_f47d, 0xffef_f47d, 0x23a6_8048);
    }
    assert Reached(56, 0xc1e9_42f1, 0x8387_7d1b, 0x23a6_8048, 0xd9bb_987c) by {
      Operation(55, 3, 21, 0x33ed_b197, 0x23a6_8048, 0xd9bb_987c, 0xc1e9_42f1,
                0x6867_6665, 0x6867_6665, 0x8584_5dd1, 0x8584_5dd1, 0x8387_7d1b);
    }
  }

  lemma {:induction false} Operations56To57()
    requires Reached(56, 0xc1e9_42f1, 0x8387_7d1b, 0x23a6_8048, 0xd9bb_987c)
    ensures Reached(58, 0x23a6_8048, 0x847f_c2e7, 0x0077_c208, 0x8387_7d1b)
  {
    hide Reached;
    assert Reached(57, 0xd9bb_987c, 0x0077_c208, 0x8387_7d1b, 0x23a6_8048) by {
      Operation(56, 3, 6, 0xc1e9_42f1, 0x8387_7d1b, 0x23a6_8048, 0xd9bb_987c,
                0x0000_0000, 0x0000_0000, 0x6fa8_7e4f, 0x6fa8_7e4f, 0x0077_c208);
    }
    assert Reached(58, 0x23a6_8048, 0x847f_c2e7, 0x0077_c208, 0x8387_7d1b) by {
      Operation(57, 3, 10, 0xd9bb_987c, 0x0077_c208, 0x8387_7d1b, 0x23a6_8048,
                0x0000_0000, 0x0000_0000, 0xfe2c_e6e0, 0xfe2c_e6e0, 0x847f_c2e7);
    }
  }

  lemma {:induction false} Operations58To59()
    requires Reached(58, 0x23a6_8048, 0x847f_c2e7, 0x0077_c208, 0x8387_7d1b)
    ensures Reached(60, 0x0077_c208, 0x5e6b_c930, 0xa3e2_247f, 0x847f_c2e7)
  {
    hide Reached;
    assert Reached(59, 0x8387_7d1b, 0xa3e2_247f, 0x847f_c2e7, 0x0077_c208) by {
      Operation(58, 3, 15, 0x23a6_8048, 0x847f_c2e7, 0x0077_c208, 0x8387_7d1b,
                0x0080_7a79, 0x0080_7a79, 0xa301_4314, 0xa301_4314, 0xa3e2_247f);
    }
    assert Reached(60, 0x0077_c208, 0x5e6b_c930, 0xa3e2_247f, 0x847f_c2e7) by {
      Operation(59, 3, 21, 0x8387_7d1b, 0xa3e2_247f, 0x847f_c2e7, 0x0077_c208,
                0x0000_0000, 0x0000_0000, 0x4e08_11a1, 0x4e08_11a1, 0x5e6b_c930);
    }
  }

  lemma {:induction false} Operations60To61()
    requires Reached(60, 0x0077_c208, 0x5e6b_c930, 0xa3e2_247f, 0x847f_c2e7)
    ensures Reached(62, 0xa3e2_247f, 0x2baf_1354, 0x708e_d9c2, 0x5e6b_c930)
  {
    hide Reached;
    assert Reached(61, 0x847f_c2e7, 0x708e_d9c2, 0x5e6b_c930, 0xa3e2_247f) by {
      Operation(60, 3, 6, 0x0077_c208, 0x5e6b_c930, 0xa3e2_247f, 0x847f_c2e7,
                0x7473_7271, 0x7473_7271, 0xf753_7e82, 0xf753_7e82, 0x708e_d9c2);
    }
    assert Reached(62, 0xa3e2_247f, 0x2baf_1354, 0x708e_d9c2, 0x5e6b_c930) by {
      Operation(61, 3, 10, 0x847f_c2e7, 0x708e_d9c2, 0x5e6b_c930, 0xa3e2_247f,
                0x0000_0000, 0x0000_0000, 0xbd3a_f235, 0xbd3a_f235, 0x2baf_1354);
    }
  }

  lemma {:induction false} Operations62To63()
    requires Reached(62, 0xa3e2_247f, 0x2baf_1354, 0x708e_d9c2, 0x5e6b_c930)
    ensures Reached(64, 0x708e_d9c2, 0x1116_e6d8, 0xd38f_1e7f, 0x2baf_1354)
  {
    hide Reached;
    assert Reached(63, 0x5e6b_c930, 0xd38f_1e7f, 0x2baf_1354, 0x708e_d9c2) by {
      Operation(62, 3, 15, 0xa3e2_247f, 0x2baf_1354, 0x708e_d9c2, 0x5e6b_c930,
                0x6c6b_6a69, 0x6c6b_6a69, 0x2ad7_d2bb, 0x2ad7_d2bb, 0xd38f_1e7f);
    }
    assert Reached(64, 0x708e_d9c2, 0x1116_e6d8, 0xd38f_1e7f, 0x2baf_1354) by {
      Operation(63, 3, 21, 0x5e6b_c930, 0xd38f_1e7f, 0x2baf_1354, 0x708e_d9c2,
                0x0000_0000, 0x0000_0000, 0xeb86_d391, 0xeb86_d391, 0x1116_e6d8);
    }
  }

  lemma {:induction false} Begun()
    ensures Reached(0, 0x6745_2301, 0xefcd_ab89, 0x98ba_dcfe, 0x1032_5476)
  {
    hide WordOf32;
    HexValue(0x6745_2301);
    HexValue(0xefcd_ab89);
    HexValue(0x98ba_dcfe);
    HexValue(0x1032_5476);
  }

  lemma AllOperations()
    ensures Reached(64, 0x708e_d9c2, 0x1116_e6d8, 0xd38f_1e7f, 0x2baf_1354)
  {
    hide Reached;
    Begun();
    Operations0To1();
    Operations2To3();
    Operations4To5();
    Operations6To7();
    Operations8To9();
    Operations10To11();
    Operations12To13();
    Operations14To15();
    Operations16To17();
    Operations18To19();
    Operations20To21();
    Operations22To23();
    Operations24To25();
    Operations26To27();
    Operations28To29();
    Operations30To31();
    Operations32To33();
    Operations34To35();
    Operations36To37();
    Operations38To39();
    Operations40To41();
    Operations42To43();
    Operations44To45();
    Operations46To47();
    Operations48To49();
    Operations50To51();
    Operations52To53();
    Operations54To55();
    Operations56To57();
    Operations58To59();
    Operations60To61();
    Operations62To63();
  }

  lemma {:induction false} Done(a: bv32, b: bv32, c: bv32, d: bv32, block: seq<Byte>)
    requires Reached(64, a, b, c, d) && |block| == 64 && Words(block) == WORDS
    ensures Process(INIT, block) ==
            State(Wrap32(INIT.a + WordOf32(a)), Wrap32(INIT.b + WordOf32(b)),
                  Wrap32(INIT.c + WordOf32(c)), Wrap32(INIT.d + WordOf32(d)))
  {
    hide WordOf32, RfcSteps, Words, Wrap32;
    assert 4 * |WORDS| == 64;
  }

  // ---------------------------------------------------------------- the digest

  const BLOCK: seq<Byte> := ALPHABET + [0x80] + Zeros(29) + [0xd0, 0, 0, 0, 0, 0, 0, 0]

  lemma {:induction false} LengthOf208()
    ensures ToLE(208, 8) == [0xd0, 0, 0, 0, 0, 0, 0, 0]
  {
    assert ToLE(0, 4) == [0, 0, 0, 0];
  }

  lemma BlockIs()
    ensures |BLOCK| == 64 && ALPHABET + Padding(26) == BLOCK
  {
    hide ToLE;
    LengthOf208();
    assert PadZeros(26) == 29;
  }

  lemma LetterWords()
    requires |BLOCK| == 64
    ensures forall i :: 0 <= i < 4 ==> Words(BLOCK)[i] == WORDS[i]
  {
    var words := Words(BLOCK);
    assert words[0] == WORDS[0] && words[1] == WORDS[1] && words[2] == WORDS[2] && words[3] == WORDS[3];
  }

  lemma LastLetterWords()
    requires |BLOCK| == 64
    ensures forall i :: 4 <= i < 7 ==> Words(BLOCK)[i] == WORDS[i]
  {
    var words := Words(BLOCK);
    assert words[4] == WORDS[4] && words[5] == WORDS[5] && words[6] == WORDS[6];
  }

  lemma OtherWords()
    requires |BLOCK| == 64
    ensures forall i :: 7 <= i < 16 ==> Words(BLOCK)[i] == WORDS[i]
  {
    var words := Words(BLOCK);
    assert words[14] == WORDS[14];
    forall i | 7 <= i < 16 && i != 14 ensures words[i] == WORDS[i] {
      assert BLOCK[4 * i] == 0 && BLOCK[4 * i + 1] == 0 && BLOCK[4 * i + 2] == 0 && BLOCK[4 * i + 3] == 0;
    }
  }

  lemma BlockWords()
    requires |BLOCK| == 64
    ensures Words(BLOCK) == WORDS
  {
    LetterWords();
    LastLetterWords();
    OtherWords();
    hide Words;
    assert |Words(BLOCK)| == |WORDS|;
  }

  lemma {:induction false} Hashed64()
    requires |BLOCK| == 64 && Words(BLOCK) == WORDS
    ensures Process(INIT, BLOCK) == State(0xd7d3_fcc3, 0x00e4_9261, 0x6c49_fb7d, 0x3be1_67ca)
  {
    hide Reached, Process, Words, WordOf32;
    AllOperations();
    HexValue(0x708e_d9c2);
    HexValue(0x1116_e6d8);
    HexValue(0xd38f_1e7f);
    HexValue(0x2baf_1354);
    Done(0x708e_d9c2, 0x1116_e6d8, 0xd38f_1e7f, 0x2baf_1354, BLOCK);
  }

  lemma {:induction false} OneBlock(block: seq<Byte>)
    requires |block| == 64
    ensures Absorb(INIT, block) == Process(INIT, block)
  {
    hide Process;
    assert First(block) == block && Rest(block) == [];
  }

  /** MD5 ("abcdefghijklmnopqrstuvwxyz") = c3fcd3d76192e4007dfb496cca67e13b. */
  lemma {:induction false} KnownDigest()
    ensures Digest(ALPHABET) == [
              0xc3, 0xfc, 0xd3, 0xd7, 0x61, 0x92, 0xe4, 0x00,
              0x7d, 0xfb, 0x49, 0x6c, 0xca, 0x67, 0xe1, 0x3b]
  {
    hide Absorb, Process, Padding, Words, ToLE;
    BlockIs();
    BlockWords();
    Hashed64();
    OneBlock(BLOCK);
    FourBytes(0xd7d3_fcc3);
    FourBytes(0x00e4_9261);
    FourBytes(0x6c49_fb7d);
    FourBytes(0x3be1_67ca);
  }
}
