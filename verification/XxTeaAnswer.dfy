/** A known answer of XXTEA: eight zero bytes under the key 0102040810204080fffefcf8f0e0c080. */
module XxTeaAnswer {
  import opened Bits
  import opened BitVectors
  import opened Bytes
  import X = XxTea

  // ---------------------------------------------------------------- the cipher of two words on bit-vectors

  /** The mixing term with the shifts, the exclusive or and the sum of the solver. */
  function Mixed(z: bv32, y: bv32, sum: bv32, k: bv32): bv32 {
    XorOf(AddOf(XorOf(z >> 5, y << 2), XorOf(y >> 3, z << 4)), AddOf(XorOf(sum, y), XorOf(k, z)))
  }

  lemma {:induction false} Shifted(z: bv32, y: bv32)
    ensures Right(z, 5) == z >> 5 && Left(y, 2) == y << 2 && Right(y, 3) == y >> 3 && Left(z, 4) == z << 4
  {
  }

  function Shares(z: bv32, y: bv32): bv32 {
    AddOf(XorOf(Right(z, 5), Left(y, 2)), XorOf(Right(y, 3), Left(z, 4)))
  }

  function Keyed(z: bv32, y: bv32, sum: bv32, k: bv32): bv32 {
    AddOf(XorOf(sum, y), XorOf(k, z))
  }

  lemma {:induction false} MixedParts(z: bv32, y: bv32, sum: bv32, k: bv32)
    ensures Mixed(z, y, sum, k) == XorOf(Shares(z, y), Keyed(z, y, sum, k))
  {
    hide Right, Left, XorOf, AddOf;
    Shifted(z, y);
  }

  lemma {:induction false} SharesValue(z: bv32, y: bv32)
    ensures WordOf32(Shares(z, y)) ==
            X.Plus(Xor(ShiftRight(WordOf32(z), 5), ShiftLeft(WordOf32(y), 2)),
                   Xor(ShiftRight(WordOf32(y), 3), ShiftLeft(WordOf32(z), 4)))
  {
    hide WordOf32, XorOf, AddOf, Left, Right, Xor, ShiftLeft, ShiftRight;
    RightValue(z, 5);
    LeftValue(y, 2);
    RightValue(y, 3);
    LeftValue(z, 4);
    XorIs(Right(z, 5), Left(y, 2));
    XorIs(Right(y, 3), Left(z, 4));
    AddValue(XorOf(Right(z, 5), Left(y, 2)), XorOf(Right(y, 3), Left(z, 4)));
  }

  lemma {:induction false} KeyedValue(z: bv32, y: bv32, sum: bv32, k: bv32)
    ensures WordOf32(Keyed(z, y, sum, k)) ==
            X.Plus(Xor(WordOf32(sum), WordOf32(y)), Xor(WordOf32(k), WordOf32(z)))
  {
    hide WordOf32, XorOf, AddOf, Xor;
    XorIs(sum, y);
    XorIs(k, z);
    AddValue(XorOf(sum, y), XorOf(k, z));
  }

  /** Bits' operators mean what the source's do: the term is the same on words and on bit-vectors. */
  lemma {:induction false} MixedValue(z: bv32, y: bv32, sum: bv32, k: bv32)
    ensures WordOf32(Mixed(z, y, sum, k)) == X.Mixed(WordOf32(z), WordOf32(y), WordOf32(sum), WordOf32(k))
  {
    hide WordOf32, XorOf, Xor, ShiftLeft, ShiftRight, Shares, Keyed, Mixed;
    MixedParts(z, y, sum, k);
    SharesValue(z, y);
    KeyedValue(z, y, sum, k);
    XorIs(Shares(z, y), Keyed(z, y, sum, k));
  }

  lemma {:induction false} XorIs(a: bv32, b: bv32)
    ensures WordOf32(XorOf(a, b)) == Xor(WordOf32(a), WordOf32(b))
  {
    XorValue(a, b, 32);
  }

  const KEY: X.Key := [0x0804_0201, 0x8040_2010, 0xf8fc_feff, 0x80c0_e0f0]

  /** The key word of the given index. */
  function KeyWord(i: nat): bv32
    requires i < 4
  {
    if i == 0 then 0x0804_0201 else if i == 1 then 0x8040_2010 else if i == 2 then 0xf8fc_feff else 0x80c0_e0f0
  }

  lemma {:induction false} KeyValue(i: nat)
    requires i < 4
    ensures WordOf32(KeyWord(i)) == KEY[i]
  {
    hide WordOf32;
    HexValue(KeyWord(i));
  }

  /** One word of a round: its neighbour on both sides is the other word. */
  function Encrypted(v: bv32, other: bv32, sum: bv32, k: nat): bv32
    requires k < 4
  {
    AddOf(v, Mixed(other, other, sum, KeyWord(k)))
  }

  lemma {:induction false} EncryptedValue(v: bv32, other: bv32, sum: bv32, k: nat)
    requires k < 4
    ensures WordOf32(Encrypted(v, other, sum, k)) ==
            X.Plus(WordOf32(v), X.Mixed(WordOf32(other), WordOf32(other), WordOf32(sum), KEY[k]))
  {
    hide WordOf32, AddOf, Mixed, KeyWord, X.Mixed;
    MixedValue(other, other, sum, KeyWord(k));
    KeyValue(k);
    AddValue(v, Mixed(other, other, sum, KeyWord(k)));
  }

  /** A round of two words, the first with the key word e and the second with the one beside it. */
  lemma {:induction false} TwoWords(a: Word, b: Word, s: Word, e: nat, f: nat)
    requires e == s / 4 % 4 && f == if e % 2 == 0 then e + 1 else e - 1
    ensures var c := X.Plus(a, X.Mixed(b, b, s, KEY[e]));
            X.EncRound([a, b], 2, s, KEY) == [c, X.Plus(b, X.Mixed(c, c, s, KEY[f]))]
  {
    hide X.Mixed, X.Plus;
    var c := X.Plus(a, X.Mixed(b, b, s, KEY[e]));
    Neighbour(e, f);
    X.KeyIndexIs(s, 0);
    X.KeyIndexIs(s, 1);
    assert X.EncStep([a, b], 0, s, KEY) == [c, b];
    assert X.EncRound([a, b], 1, s, KEY) == [c, b];
  }

  /** What the cipher has made of two zero words after q rounds. */
  ghost predicate Made(q: nat, a: bv32, b: bv32) {
    X.Encipher([0, 0], q, KEY) == [WordOf32(a), WordOf32(b)]
  }

  lemma {:induction false} NextRound(q: nat, a: bv32, b: bv32, c: Word, d: Word)
    requires 0 < q && Made(q - 1, a, b) && X.EncRound([WordOf32(a), WordOf32(b)], 2, X.Sum(q), KEY) == [c, d]
    ensures X.Encipher([0, 0], q, KEY) == [c, d]
  {
    hide WordOf32, X.EncRound, X.Sum;
  }

  /** The round counter of round q, and the key words it selects. */
  ghost predicate Counter(q: nat, sum: bv32, e: nat, f: nat) {
    WordOf32(sum) == X.Sum(q) && e == X.Sum(q) / 4 % 4 && f == if e % 2 == 0 then e + 1 else e - 1
  }

  lemma {:induction false} NextMade(q: nat, a: bv32, b: bv32, sum: bv32, e: nat, f: nat, c: bv32, d: bv32)
    requires 0 < q && Made(q - 1, a, b) && Counter(q, sum, e, f) && e < 4 && f < 4
    requires c == Encrypted(a, b, sum, e) && d == Encrypted(b, c, sum, f)
    ensures Made(q, c, d)
  {
    hide WordOf32, AddOf, Mixed, KeyWord, X.Mixed, X.Sum, X.Encipher, X.EncRound, Encrypted;
    TwoWords(WordOf32(a), WordOf32(b), X.Sum(q), e, f);
    EncryptedValue(a, b, sum, e);
    EncryptedValue(b, c, sum, f);
    NextRound(q, a, b, WordOf32(c), WordOf32(d));
  }

  lemma {:induction false} CounterIs(q: nat, sum: bv32, e: nat, f: nat)
    requires (q * X.DELTA) % TWO_32 == Hex4(sum) + 0x1_0000 * Hex4(Front(sum))
    requires e == (q * X.DELTA) % TWO_32 / 4 % 4 && f == if e % 2 == 0 then e + 1 else e - 1
    ensures Counter(q, sum, e, f)
  {
    hide WordOf32, Hex4, Front;
    HexValue(sum);
  }

  /** Round q takes a and b to c and d: computed on bit-vectors, the counter in arithmetic. */
  lemma {:induction false} Round(q: nat, a: bv32, b: bv32, sum: bv32, e: nat, f: nat, c: bv32, d: bv32)
    requires 0 < q && Made(q - 1, a, b) && e < 4 && f < 4
    requires (q * X.DELTA) % TWO_32 == Hex4(sum) + 0x1_0000 * Hex4(Front(sum))
    requires e == (q * X.DELTA) % TWO_32 / 4 % 4 && f == if e % 2 == 0 then e + 1 else e - 1
    requires c == Encrypted(a, b, sum, e) && d == Encrypted(b, c, sum, f)
    ensures Made(q, c, d)
  {
    hide Made, Counter, Encrypted, Hex4, Front;
    CounterIs(q, sum, e, f);
    NextMade(q, a, b, sum, e, f, c, d);
  }

  lemma Neighbour(e: nat, f: nat)
    requires e < 4 && f == if e % 2 == 0 then e + 1 else e - 1
    ensures XorWord(0, e, 2) == e && XorWord(1, e, 2) == f
  {
  }

  // ---------------------------------------------------------------- the 32 rounds

  lemma {:induction false} Rounds1To4()
    requires Made(0, 0x0000_0000, 0x0000_0000)
    ensures Made(4, 0x9740_d596, 0x2f08_e191)
  {
    hide Made;
    Round(1, 0x0000_0000, 0x0000_0000, 0x9e37_79b9, 2, 3, 0x9734_78b8, 0x9afe_dcf5);
    Round(2, 0x9734_78b8, 0x9afe_dcf5, 0x3c6e_f372, 0, 1, 0xa98a_0d32, 0x2a59_b93a);
    Round(3, 0xa98a_0d32, 0x2a59_b93a, 0xdaa6_6d2b, 2, 3, 0x342b_e3b0, 0xe08c_41c2);
    Round(4, 0x342b_e3b0, 0xe08c_41c2, 0x78dd_e6e4, 1, 0, 0x9740_d596, 0x2f08_e191);
  }

  lemma {:induction false} Rounds5To8()
    requires Made(4, 0x9740_d596, 0x2f08_e191)
    ensures Made(8, 0xe740_f98e, 0xe568_7213)
  {
    hide Made;
    Round(5, 0x9740_d596, 0x2f08_e191, 0x1715_609d, 3, 2, 0xec70_199d, 0xcdca_c38a);
    Round(6, 0xec70_199d, 0xcdca_c38a, 0xb54c_da56, 1, 0, 0x1cba_5e10, 0x5256_78af);
    Round(7, 0x1cba_5e10, 0x5256_78af, 0x5384_540f, 3, 2, 0xcb4a_b1b1, 0x680e_4e12);
    Round(8, 0xcb4a_b1b1, 0x680e_4e12, 0xf1bb_cdc8, 2, 3, 0xe740_f98e, 0xe568_7213);
  }

  lemma {:induction false} Rounds9To12()
    requires Made(8, 0xe740_f98e, 0xe568_7213)
    ensures Made(12, 0x203e_2625, 0x77d9_b21b)
  {
    hide Made;
    Round(9, 0xe740_f98e, 0xe568_7213, 0x8ff3_4781, 0, 1, 0x6bf4_1878, 0x76dd_cfe6);
    Round(10, 0x6bf4_1878, 0x76dd_cfe6, 0x2e2a_c13a, 2, 3, 0x48c5_3eee, 0xff49_9664);
    Round(11, 0x48c5_3eee, 0xff49_9664, 0xcc62_3af3, 0, 1, 0x14fa_6841, 0xcd24_36c1);
    Round(12, 0x14fa_6841, 0xcd24_36c1, 0x6a99_b4ac, 3, 2, 0x203e_2625, 0x77d9_b21b);
  }

  lemma {:induction false} Rounds13To16()
    requires Made(12, 0x203e_2625, 0x77d9_b21b)
    ensures Made(16, 0xa12e_0471, 0x57aa_c000)
  {
    hide Made;
    Round(13, 0x203e_2625, 0x77d9_b21b, 0x08d1_2e65, 1, 0, 0x46d8_598b, 0x5a2d_9d34);
    Round(14, 0x46d8_598b, 0x5a2d_9d34, 0xa708_a81e, 3, 2, 0x12ea_257c, 0x41f5_4de3);
    Round(15, 0x12ea_257c, 0x41f5_4de3, 0x4540_21d7, 1, 0, 0xee19_f4c4, 0x6bf9_9239);
    Round(16, 0xee19_f4c4, 0x6bf9_9239, 0xe377_9b90, 0, 1, 0xa12e_0471, 0x57aa_c000);
  }

  lemma {:induction false} Rounds17To20()
    requires Made(16, 0xa12e_0471, 0x57aa_c000)
    ensures Made(20, 0x158b_c3af, 0x90e4_bb7c)
  {
    hide Made;
    Round(17, 0xa12e_0471, 0x57aa_c000, 0x81af_1549, 2, 3, 0xea61_beb9, 0x1408_9961);
    Round(18, 0xea61_beb9, 0x1408_9961, 0x1fe6_8f02, 0, 1, 0x9fd1_d601, 0x0971_17f1);
    Round(19, 0x9fd1_d601, 0x0971_17f1, 0xbe1e_08bb, 2, 3, 0xb304_1332, 0xb8e6_2acd);
    Round(20, 0xb304_1332, 0xb8e6_2acd, 0x5c55_8274, 1, 0, 0x158b_c3af, 0x90e4_bb7c);
  }

  lemma {:induction false} Rounds21To24()
    requires Made(20, 0x158b_c3af, 0x90e4_bb7c)
    ensures Made(24, 0xcee2_b8a0, 0x16b4_d14b)
  {
    hide Made;
    Round(21, 0x158b_c3af, 0x90e4_bb7c, 0xfa8c_fc2d, 3, 2, 0x2f6c_0db6, 0x936e_10eb);
    Round(22, 0x2f6c_0db6, 0x936e_10eb, 0x98c4_75e6, 1, 0, 0xa2e3_7786, 0xbf79_bcbe);
    Round(23, 0xa2e3_7786, 0xbf79_bcbe, 0x36fb_ef9f, 3, 2, 0xb48d_0c81, 0xbab2_d33a);
    Round(24, 0xb48d_0c81, 0xbab2_d33a, 0xd533_6958, 2, 3, 0xcee2_b8a0, 0x16b4_d14b);
  }

  lemma {:induction false} Rounds25To28()
    requires Made(24, 0xcee2_b8a0, 0x16b4_d14b)
    ensures Made(28, 0x3c80_71ad, 0x2fc1_e6b5)
  {
    hide Made;
    Round(25, 0xcee2_b8a0, 0x16b4_d14b, 0x736a_e311, 0, 1, 0x0f70_303b, 0x5697_75bc);
    Round(26, 0x0f70_303b, 0x5697_75bc, 0x11a2_5cca, 2, 3, 0x589f_c6a8, 0x18cf_2c0c);
    Round(27, 0x589f_c6a8, 0x18cf_2c0c, 0xafd9_d683, 0, 1, 0x8ca7_8cb5, 0x3b50_7bb8);
    Round(28, 0x8ca7_8cb5, 0x3b50_7bb8, 0x4e11_503c, 3, 2, 0x3c80_71ad, 0x2fc1_e6b5);
  }

  lemma {:induction false} Rounds29To32()
    requires Made(28, 0x3c80_71ad, 0x2fc1_e6b5)
    ensures Made(32, 0xe28b_e7d1, 0x8a72_46c7)
  {
    hide Made;
    Round(29, 0x3c80_71ad, 0x2fc1_e6b5, 0xec48_c9f5, 1, 0, 0x07d5_8a2f, 0x9626_3b5f);
    Round(30, 0x07d5_8a2f, 0x9626_3b5f, 0x8a80_43ae, 3, 2, 0x0731_a610, 0xb3aa_90fe);
    Round(31, 0x0731_a610, 0xb3aa_90fe, 0x28b7_bd67, 1, 0, 0x3e46_5209, 0x4557_ebf1);
    Round(32, 0x3e46_5209, 0x4557_ebf1, 0xc6ef_3720, 0, 1, 0xe28b_e7d1, 0x8a72_46c7);
  }

  lemma {:induction false} NothingMade()
    ensures Made(0, 0, 0)
  {
    hide WordOf32;
    HexValue(0);
  }

  lemma {:induction false} AllRounds()
    ensures X.Encipher([0, 0], X.Rounds(2), KEY) == [0xe28b_e7d1, 0x8a72_46c7]
  {
    hide Made, WordOf32;
    NothingMade();
    Rounds1To4();
    Rounds5To8();
    Rounds9To12();
    Rounds13To16();
    Rounds17To20();
    Rounds21To24();
    Rounds25To28();
    Rounds29To32();
    HexValue(0xe28b_e7d1);
    HexValue(0x8a72_46c7);
    AfterAll(0xe28b_e7d1, 0x8a72_46c7);
  }

  lemma {:induction false} AfterAll(a: bv32, b: bv32)
    requires Made(32, a, b)
    ensures X.Encipher([0, 0], X.Rounds(2), KEY) == [WordOf32(a), WordOf32(b)]
  {
    hide WordOf32, X.Encipher;
  }

  const KEY_BYTES: seq<Byte> :=
    [0x01, 0x02, 0x04, 0x08, 0x10, 0x20, 0x40, 0x80, 0xff, 0xfe, 0xfc, 0xf8, 0xf0, 0xe0, 0xc0, 0x80]

  lemma {:induction false} KeyOfBytes()
    ensures X.KeyOf(KEY_BYTES) == KEY
  {
    var k := KEY_BYTES[..16];
    assert k == KEY_BYTES;
    assert k[4..][4..] == k[8..] && k[8..][4..] == k[12..] && k[12..][4..] == [];
    assert X.Pack(k[12..]) == [0x80c0_e0f0];
    assert X.Pack(k[8..]) == [0xf8fc_feff] + X.Pack(k[12..]);
    assert X.Pack(k[4..]) == [0x8040_2010] + X.Pack(k[8..]);
  }

  /** The published answer: d1e78be2c746728a. */
  lemma {:induction false} KnownAnswer()
    ensures X.Unpack(X.Encipher(X.Pack(Zeros(8)), X.Rounds(2), X.KeyOf(KEY_BYTES))) ==
            [0xd1, 0xe7, 0x8b, 0xe2, 0xc7, 0x46, 0x72, 0x8a]
  {
    hide X.Encipher;
    KeyOfBytes();
    AllRounds();
    var zeros := Zeros(8);
    assert zeros[4..][4..] == [];
    assert X.Pack(zeros) == [0, 0];
    var v := [0xe28b_e7d1, 0x8a72_46c7];
    assert v[1..] == [0x8a72_46c7] && v[1..][1..] == [];
    assert X.Unpack(v) == X.WordBytes(0xe28b_e7d1) + X.WordBytes(0x8a72_46c7);
  }
}
