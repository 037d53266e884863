/** INV_xxTea: Corrected Block TEA over an array of 32-bit words, and the byte strings it packs into them. */
module XxTea {
  import opened Bits
  import opened Bytes

  const DELTA: Word := 0x9E37_79B9

  type Key = k: seq<Word> | |k| == 4 witness [0, 0, 0, 0]

  function Plus(a: Word, b: Word): Word {
    (a + b) % TWO_32
  }

  function Minus(a: Word, b: Word): Word {
    (a - b) % TWO_32
  }

  /** (i & 3) ^ (sum >> 2 & 3): which key word is mixed in; & binds tighter than ^. */
  function KeyIndex(sum: Word, i: nat): nat {
    XorWord(AndWord(i, 3, 32), AndWord(ShiftRight(sum, 2), 3, 32), 32)
  }

  /** (z >> 5 ^ y << 2) + (y >> 3 ^ z << 4) ^ (sum ^ y) + (k ^ z); + binds tighter than ^. */
  function Mixed(z: Word, y: Word, sum: Word, k: Word): Word {
    Xor(Plus(Xor(ShiftRight(z, 5), ShiftLeft(y, 2)), Xor(ShiftRight(y, 3), ShiftLeft(z, 4))),
        Plus(Xor(sum, y), Xor(k, z)))
  }

  function Mix(z: Word, y: Word, sum: Word, key: Key, i: nat): Word {
    KeyIndexIs(sum, i);
    Mixed(z, y, sum, key[KeyIndex(sum, i)])
  }

  lemma {:induction false} FewerBits(x: nat, y: nat, k: nat, n: nat)
    requires k <= n && x < Pow2(k) && y < Pow2(k)
    ensures XorWord(x, y, n) == XorWord(x, y, k)
  {
    if k > 0 {
      FewerBits(x / 2, y / 2, k - 1, n - 1);
    } else if n > 0 {
      FewerBits(0, 0, 0, n - 1);
    }
  }

  lemma KeyIndexIs(sum: Word, i: nat)
    ensures KeyIndex(sum, i) == XorWord(i % 4, sum / 4 % 4, 2) < 4
  {
    assert Pow2(2) == 4;
    LowTwoBits(i, 32);
    ShiftRightDivides(sum, 2);
    LowTwoBits(sum / 4, 32);
    FewerBits(i % 4, sum / 4 % 4, 2, 32);
  }

  /** The mixing term in arithmetic: the shifts are divisions and multiplications modulo 2^32. */
  lemma {:induction false} MixIs(z: Word, y: Word, sum: Word, key: Key, i: nat)
    ensures XorWord(i % 4, sum / 4 % 4, 2) < 4
    ensures Mix(z, y, sum, key, i) ==
            Xor((Xor(z / 32, y * 4 % TWO_32) + Xor(y / 8, z * 16 % TWO_32)) % TWO_32,
                (Xor(sum, y) + Xor(key[XorWord(i % 4, sum / 4 % 4, 2)], z)) % TWO_32)
  {
    hide XorWord, Xor, ShiftLeft, ShiftRight, KeyIndex;
    KeyIndexIs(sum, i);
    SmallPowers();
    ShiftRightDivides(z, 5);
    ShiftRightDivides(y, 3);
    ShiftLeftMultiplies(y, 2);
    ShiftLeftMultiplies(z, 4);
  }

  lemma SmallPowers()
    ensures Pow2(2) == 4 && Pow2(3) == 8 && Pow2(4) == 16 && Pow2(5) == 32
  {
  }

  lemma XorInjective(a: Word, x: Word, y: Word)
    ensures Xor(a, x) == Xor(a, y) <==> x == y
    ensures Xor(x, a) == Xor(y, a) <==> x == y
  {
    hide XorWord;
    Pow2Of32And64();
    XorCancels(a, x, 32);
    XorCancels(a, y, 32);
    XorCommutes(a, x, 32);
    XorCommutes(a, y, 32);
  }

  lemma {:induction false} XorCommutes(x: nat, y: nat, n: nat)
    ensures XorWord(x, y, n) == XorWord(y, x, n)
  {
    if n > 0 {
      XorCommutes(x / 2, y / 2, n - 1);
    }
  }

  /** Every key word is used: where only the selected word differs, the term differs. */
  lemma KeyWordCounts(z: Word, y: Word, sum: Word, k: Word, k': Word)
    ensures Mixed(z, y, sum, k) == Mixed(z, y, sum, k') <==> k == k'
  {
    hide Xor, ShiftLeft, ShiftRight;
    var left := Plus(Xor(ShiftRight(z, 5), ShiftLeft(y, 2)), Xor(ShiftRight(y, 3), ShiftLeft(z, 4)));
    var x, x' := Xor(k, z), Xor(k', z);
    XorInjective(left, Plus(Xor(sum, y), x), Plus(Xor(sum, y), x'));
    PlusMinus(x, Xor(sum, y));
    PlusMinus(x', Xor(sum, y));
    XorInjective(z, k, k');
  }

  // ---------------------------------------------------------------- rounds

  function Prev(n: nat, i: nat): nat
    requires n > 0
  {
    if i == 0 then n - 1 else i - 1
  }

  function Next(n: nat, i: nat): nat {
    if i == n - 1 then 0 else i + 1
  }

  function MixAt(v: seq<Word>, i: nat, sum: Word, key: Key): Word
    requires i < |v|
  {
    Mix(v[Prev(|v|, i)], v[Next(|v|, i)], sum, key, i)
  }

  function EncStep(v: seq<Word>, i: nat, sum: Word, key: Key): seq<Word>
    requires i < |v|
  {
    v[i := Plus(v[i], MixAt(v, i, sum, key))]
  }

  function DecStep(v: seq<Word>, i: nat, sum: Word, key: Key): seq<Word>
    requires i < |v|
  {
    v[i := Minus(v[i], MixAt(v, i, sum, key))]
  }

  /** The first i steps of an encryption round. */
  function EncRound(v: seq<Word>, i: nat, sum: Word, key: Key): (r: seq<Word>)
    requires i <= |v|
    ensures |r| == |v|
    decreases i
  {
    if i == 0 then v else EncStep(EncRound(v, i - 1, sum, key), i - 1, sum, key)
  }

  /** The steps of a decryption round on words i-1 down to 0. */
  function DecRound(v: seq<Word>, i: nat, sum: Word, key: Key): (r: seq<Word>)
    requires i <= |v|
    ensures |r| == |v|
    decreases i
  {
    if i == 0 then v else DecRound(DecStep(v, i - 1, sum, key), i - 1, sum, key)
  }

  /** The round counter of round q, which the source keeps in an unsigned int. */
  function Sum(q: nat): Word {
    (q * DELTA) % TWO_32
  }

  function Encipher(v: seq<Word>, q: nat, key: Key): (r: seq<Word>)
    ensures |r| == |v|
  {
    if q == 0 then v else EncRound(Encipher(v, q - 1, key), |v|, Sum(q), key)
  }

  function Decipher(v: seq<Word>, q: nat, key: Key): (r: seq<Word>)
    ensures |r| == |v|
    decreases q
  {
    if q == 0 then v else Decipher(DecRound(v, |v|, Sum(q), key), q - 1, key)
  }

  function Rounds(n: nat): nat
    requires n > 0
  {
    6 + 52 / n
  }

  // ---------------------------------------------------------------- decryption undoes encryption

  lemma PlusMinus(a: Word, b: Word)
    ensures Minus(Plus(a, b), b) == a == Plus(Minus(a, b), b)
  {
  }

  /** With at least two words a step's neighbours are other words, so the same term is added and subtracted. */
  lemma StepsCancel(v: seq<Word>, i: nat, sum: Word, key: Key)
    requires i < |v| && |v| >= 2
    ensures DecStep(EncStep(v, i, sum, key), i, sum, key) == v
    ensures EncStep(DecStep(v, i, sum, key), i, sum, key) == v
  {
    hide Mix, Plus, Minus;
    var e, d := EncStep(v, i, sum, key), DecStep(v, i, sum, key);
    PlusMinus(v[i], MixAt(v, i, sum, key));
    assert MixAt(e, i, sum, key) == MixAt(v, i, sum, key) == MixAt(d, i, sum, key);
    assert e[i := v[i]] == v && d[i := v[i]] == v;
  }

  lemma {:induction false} RoundsCancel(v: seq<Word>, i: nat, sum: Word, key: Key)
    requires i <= |v| && |v| >= 2
    ensures DecRound(EncRound(v, i, sum, key), i, sum, key) == v
  {
    hide Mix;
    if i > 0 {
      var before := EncRound(v, i - 1, sum, key);
      StepsCancel(before, i - 1, sum, key);
      RoundsCancel(v, i - 1, sum, key);
    }
  }

  lemma {:induction false} RoundsCancelBack(v: seq<Word>, i: nat, sum: Word, key: Key)
    requires i <= |v| && |v| >= 2
    ensures EncRound(DecRound(v, i, sum, key), i, sum, key) == v
    decreases i
  {
    hide Mix;
    if i > 0 {
      StepsCancel(v, i - 1, sum, key);
      RoundsCancelBack(DecStep(v, i - 1, sum, key), i - 1, sum, key);
    }
  }

  /** q rounds of decryption, taken with the counters in reverse, undo q rounds of encryption. */
  lemma {:induction false} DecipherInvertsEncipher(v: seq<Word>, q: nat, key: Key)
    requires |v| >= 2
    ensures Decipher(Encipher(v, q, key), q, key) == v
  {
    hide EncRound, DecRound, Sum;
    if q > 0 {
      RoundsCancel(Encipher(v, q - 1, key), |v|, Sum(q), key);
      DecipherInvertsEncipher(v, q - 1, key);
    }
  }

  /** And the other way round: on two words or more the cipher is a permutation. */
  lemma {:induction false} EncipherInvertsDecipher(v: seq<Word>, q: nat, key: Key)
    requires |v| >= 2
    ensures Encipher(Decipher(v, q, key), q, key) == v
    decreases q
  {
    hide EncRound, DecRound, Sum;
    if q > 0 {
      var inner := DecRound(v, |v|, Sum(q), key);
      EncipherInvertsDecipher(inner, q - 1, key);
      RoundsCancelBack(v, |v|, Sum(q), key);
    }
  }

  // The inverse of DELTA modulo 2^32: DELTA * INVERSE == 1 + OVERFLOWS * 2^32.
  const INVERSE := 0x144cbc89
  const OVERFLOWS := 0xc8bc280

  lemma ModUnique(a: int, r: int, k: int)
    requires a == r + k * TWO_32 && 0 <= r < TWO_32
    ensures a % TWO_32 == r
  {
  }

  /** DELTA is odd, so the counter returns to 0 only after a multiple of 2^32 rounds. */
  lemma CounterPeriod(q: nat)
    requires Sum(q) == 0
    ensures q % TWO_32 == 0
  {
    var t := (q * DELTA) / TWO_32;
    assert q * DELTA == t * TWO_32;
    assert DELTA * INVERSE == 1 + OVERFLOWS * TWO_32;
    ModUnique(q, 0, t * INVERSE - q * OVERFLOWS);
  }

  /** The decryption loop's guard: counting down from round q, the counter is 0 only when no round is left. */
  lemma CounterIsZeroOnlyAtTheEnd(q: nat)
    requires q < TWO_32
    ensures Sum(q) == 0 <==> q == 0
  {
    if q > 0 && Sum(q) == 0 {
      CounterPeriod(q);
    }
  }

  lemma CounterStarts()
    ensures Sum(0) == 0
  {
  }

  lemma CounterSteps(q: nat)
    ensures Plus(Sum(q), DELTA) == Sum(q + 1) && Minus(Sum(q + 1), DELTA) == Sum(q)
  {
    var t, r := (q * DELTA) / TWO_32, Sum(q);
    var carry := if r + DELTA >= TWO_32 then 1 else 0;
    ModUnique((q + 1) * DELTA, r + DELTA - carry * TWO_32, t + carry);
    ModUnique(r + DELTA, r + DELTA - carry * TWO_32, carry);
    ModUnique(Sum(q + 1) - DELTA, r, -carry);
  }

  // ---------------------------------------------------------------- the loops in place

  method EncryptWords(v: array<Word>, key: Key)
    requires v.Length >= 1
    modifies v
    ensures v[..] == Encipher(old(v[..]), 6 + 52 / v.Length, key)
  {
    hide Mix, EncRound, Sum;
    var n := v.Length - 1;
    var z, y := v[n], v[0];
    var q := 6 + 52 / (n + 1);
    var sum: Word := 0;
    ghost var done: nat := 0;
    CounterStarts();
    while 0 < q
      invariant 0 <= q && q + done == Rounds(v.Length) && sum == Sum(done)
      invariant v[..] == Encipher(old(v[..]), done, key) && z == v[n]
      decreases q
    {
      q := q - 1;
      CounterSteps(done);
      sum := Plus(sum, DELTA);
      EncryptRound(v, sum, key);
      z := v[n];
      done := done + 1;
    }
  }

  /** One pass of the inner loop: every word in turn, and the last one with the first as its right neighbour. */
  method EncryptRound(v: array<Word>, sum: Word, key: Key)
    requires v.Length >= 1
    modifies v
    ensures v[..] == EncRound(old(v[..]), v.Length, sum, key)
  {
    hide Mix;
    var n := v.Length - 1;
    var z, y := v[n], v[0];
    var i := 0;
    while i < n
      invariant i <= n && v[..] == EncRound(old(v[..]), i, sum, key) && z == v[Prev(v.Length, i)]
    {
      y := v[i + 1];
      v[i] := Plus(v[i], Mix(z, y, sum, key, i));
      z := v[i];
      i := i + 1;
    }
    y := v[0];
    v[n] := Plus(v[n], Mix(z, y, sum, key, i));
  }

  /** One pass of the decryption loop, from the last word down. */
  method DecryptRound(v: array<Word>, sum: Word, key: Key)
    requires v.Length >= 2
    modifies v
    ensures v[..] == DecRound(old(v[..]), v.Length, sum, key)
  {
    hide Mix;
    var n := v.Length - 1;
    var z, y := v[n - 1], v[0];
    var i: nat := n;
    while i > 0
      invariant i <= n && DecRound(v[..], i + 1, sum, key) == DecRound(old(v[..]), n + 1, sum, key)
      invariant y == v[Next(v.Length, i)]
    {
      z := v[i - 1];
      ghost var now := v[..];
      v[i] := Minus(v[i], Mix(z, y, sum, key, i));
      assert v[..] == DecStep(now, i, sum, key);
      y := v[i];
      i := i - 1;
    }
    z := v[n];
    ghost var now := v[..];
    v[0] := Minus(v[0], Mix(z, y, sum, key, i));
    assert v[..] == DecStep(now, 0, sum, key);
    assert DecRound(v[..], 0, sum, key) == v[..];
  }

  method DecryptWords(v: array<Word>, key: Key)
    requires v.Length >= 2
    modifies v
    ensures v[..] == Decipher(old(v[..]), 6 + 52 / v.Length, key)
  {
    hide DecRound, Mix;
    var n := v.Length - 1;
    var q := 6 + 52 / (n + 1);
    var sum: Word := (q * DELTA) % TWO_32;
    ghost var left: nat := q;
    CounterIsZeroOnlyAtTheEnd(left);
    while sum != 0
      invariant left <= 32 && sum == Sum(left) && (sum == 0 <==> left == 0)
      invariant Decipher(v[..], left, key) == Decipher(old(v[..]), q, key)
      decreases left
    {
      DecryptRound(v, sum, key);
      CounterSteps(left - 1);
      sum := Minus(sum, DELTA);
      left := left - 1;
      CounterIsZeroOnlyAtTheEnd(left);
    }
  }

  // ---------------------------------------------------------------- byte strings

  const INT_LIMIT: nat := 0x8000_0000

  /** Reading a byte buffer through an unsigned int pointer on a little-endian machine. */
  function Pack(b: seq<Byte>): (v: seq<Word>)
    requires |b| % 4 == 0
    ensures |v| == |b| / 4
  {
    if b == [] then [] else [WordOf(b[0], b[1], b[2], b[3])] + Pack(b[4..])
  }

  function WordBytes(w: Word): seq<Byte> {
    [w % 256, w / 256 % 256, w / 256 / 256 % 256, w / 256 / 256 / 256]
  }

  function Unpack(v: seq<Word>): (b: seq<Byte>)
    ensures |b| == 4 * |v|
  {
    if v == [] then [] else WordBytes(v[0]) + Unpack(v[1..])
  }

  lemma {:induction false} PackUnpack(v: seq<Word>)
    ensures Pack(Unpack(v)) == v
  {
    if v != [] {
      PackUnpack(v[1..]);
      BytesOfWord(v[0]);
      assert Unpack(v)[4..] == Unpack(v[1..]);
    }
  }

  lemma {:induction false} UnpackPack(b: seq<Byte>)
    requires |b| % 4 == 0
    ensures Unpack(Pack(b)) == b
  {
    if b != [] {
      UnpackPack(b[4..]);
      assert Pack(b)[1..] == Pack(b[4..]);
      WordOfBytes(b[0], b[1], b[2], b[3]);
      assert b == b[..4] + b[4..];
    }
  }

  lemma WordOfBytes(a: Byte, b: Byte, c: Byte, d: Byte)
    ensures WordBytes(WordOf(a, b, c, d)) == [a, b, c, d]
  {
    var x: int := (c as int) + 256 * (d as int);
    var y: int := (b as int) + 256 * x;
    var w: int := (a as int) + 256 * y;
    assert w % 256 == a && w / 256 == y;
    assert y % 256 == b && y / 256 == x;
    assert x % 256 == c && x / 256 == d;
  }

  lemma BytesOfWord(w: Word)
    ensures var b := WordBytes(w); WordOf(b[0], b[1], b[2], b[3]) == w
  {
  }

  lemma {:induction false} PackHead(x: seq<Byte>, rest: seq<Byte>)
    requires |x| == 4 && |rest| % 4 == 0
    ensures Pack(x + rest) == [WordOf(x[0], x[1], x[2], x[3])] + Pack(rest)
  {
    hide WordOf;
    assert (x + rest)[4..] == rest;
  }

  lemma Peel(a: seq<Byte>, b: seq<Byte>)
    requires |a| >= 4 && |a| % 4 == 0 && |b| % 4 == 0
    ensures a + b == a[..4] + (a[4..] + b) && a == a[..4] + a[4..]
    ensures |a[4..]| % 4 == 0 && |a[4..] + b| % 4 == 0
  {
  }

  lemma {:induction false} PackConcat(a: seq<Byte>, b: seq<Byte>)
    requires |a| % 4 == 0 && |b| % 4 == 0
    ensures Pack(a + b) == Pack(a) + Pack(b)
  {
    if a == [] {
      assert a + b == b;
    } else {
      hide Pack, WordOf;
      Peel(a, b);
      PackConcat(a[4..], b);
      PackHead(a[..4], a[4..] + b);
      PackHead(a[..4], a[4..]);
    }
  }

  /** Data, zero padding up to a word boundary, and its length as one more word. */
  function Padded(data: seq<Byte>): (r: seq<Byte>)
    requires |data| < INT_LIMIT - 8
    ensures |r| % 4 == 0 && |r| == (if |data| % 4 == 0 then |data| + 4 else |data| + 8 - |data| % 4)
  {
    data + Zeros((4 - |data| % 4) % 4) + WordBytes(|data|)
  }

  function KeyOf(key: seq<Byte>): Key
    requires |key| >= 16
  {
    Pack(key[..16])
  }

  function EncryptSpec(data: seq<Byte>, key: seq<Byte>): seq<Byte>
    requires |data| < INT_LIMIT - 8 && |key| >= 16
  {
    var v := Pack(Padded(data));
    Unpack(Encipher(v, Rounds(|v|), KeyOf(key)))
  }

  /** What decrypt makes of any non-empty string: on every error it hands its input back. */
  function DecryptSpec(data: seq<Byte>, key: seq<Byte>): seq<Byte>
    requires data != [] && |key| >= 16
  {
    if |data| % 4 != 0 || |data| == 4 then data
    else
      var v := Pack(data);
      var w := Decipher(v, Rounds(|v|), KeyOf(key));
      var n := w[|w| - 1];
      if n <= (|w| - 1) * 4 then Unpack(w)[..n] else data
  }

  lemma PackOneWord(w: Word)
    ensures Pack(WordBytes(w)) == [w]
  {
    BytesOfWord(w);
    assert WordBytes(w)[4..] == [];
  }

  lemma PaddedLength(data: seq<Byte>)
    requires |data| < INT_LIMIT - 8
    ensures var v := Pack(Padded(data));
            |v| >= 1 && v[|v| - 1] == |data| && (|v| >= 2 <==> data != []) && |data| <= (|v| - 1) * 4
    ensures Padded(data)[..|data|] == data
    ensures forall k :: |data| <= k < |Padded(data)| - 4 ==> Padded(data)[k] == 0
  {
    hide Pack;
    var front := data + Zeros((4 - |data| % 4) % 4);
    PackConcat(front, WordBytes(|data|));
    PackOneWord(|data|);
  }

  /**
    The round trip, and exactly when it holds: every non-empty string comes back from decrypt, and the empty
    one does not (its single word is refused by decrypt, which then returns the four cipher bytes).
   */
  lemma RoundTrip(data: seq<Byte>, key: seq<Byte>)
    requires |data| < INT_LIMIT - 8 && |key| >= 16
    ensures EncryptSpec(data, key) != []
    ensures DecryptSpec(EncryptSpec(data, key), key) == data <==> data != []
  {
    hide Encipher, Decipher, Pack, Unpack;
    var v, k := Pack(Padded(data)), KeyOf(key);
    var cipher := Encipher(v, Rounds(|v|), k);
    PaddedLength(data);
    PackUnpack(cipher);
    if data != [] {
      DecipherInvertsEncipher(v, Rounds(|v|), k);
      UnpackPack(Padded(data));
    }
  }

  /** Under one key, different non-empty data never encrypt to the same cipher text. */
  lemma EncryptIsInjective(a: seq<Byte>, b: seq<Byte>, key: seq<Byte>)
    requires |a| < INT_LIMIT - 8 && |b| < INT_LIMIT - 8 && |key| >= 16 && a != [] && b != []
    requires EncryptSpec(a, key) == EncryptSpec(b, key)
    ensures a == b
  {
    RoundTrip(a, key);
    RoundTrip(b, key);
  }

  /** The data in words: zeros up to a word boundary, and the length in a word of its own. */
  ghost predicate Holds(v: seq<Word>, data: seq<Byte>) {
    && |v| == (|data| + 3) / 4 + 1 && v[|v| - 1] == |data|
    && Unpack(v)[..|data|] == data
    && forall k :: |data| <= k < 4 * |v| - 4 ==> Unpack(v)[k] == 0
  }

  /** The cipher text is the enciphering of such words under the first 16 bytes of the key. */
  lemma EncryptMeans(data: seq<Byte>, key: seq<Byte>)
    requires |data| < INT_LIMIT - 8 && |key| >= 16
    ensures exists v :: Holds(v, data) && EncryptSpec(data, key) == Unpack(Encipher(v, 6 + 52 / |v|, Pack(key[..16])))
  {
    hide Encipher, Pack, Unpack;
    PaddedLength(data);
    UnpackPack(Padded(data));
    assert Holds(Pack(Padded(data)), data);
  }

  /** Enciphered words are deciphered, and cut to the length in the last word if the others can hold it. */
  lemma DecryptMeans(v: seq<Word>, key: seq<Byte>)
    requires |v| >= 2 && |key| >= 16
    ensures var c, n := Unpack(Encipher(v, 6 + 52 / |v|, Pack(key[..16]))), v[|v| - 1];
      c != [] && DecryptSpec(c, key) == if n <= 4 * (|v| - 1) then Unpack(v)[..n] else c
  {
    hide Encipher, Decipher, Pack, Unpack;
    var q, k := 6 + 52 / |v|, Pack(key[..16]);
    PackUnpack(Encipher(v, q, k));
    DecipherInvertsEncipher(v, q, k);
  }

  /** Two words or more are always the enciphering of something; everything else decrypt gives back as it is. */
  lemma DecryptCovers(c: seq<Byte>, key: seq<Byte>)
    requires c != [] && |key| >= 16
    ensures |c| % 4 == 0 && |c| >= 8 ==>
      exists v :: |v| == |c| / 4 && c == Unpack(Encipher(v, 6 + 52 / |v|, Pack(key[..16])))
    ensures |c| % 4 != 0 || |c| < 8 ==> DecryptSpec(c, key) == c
  {
    hide Encipher, Decipher, Pack, Unpack;
    if |c| % 4 == 0 && |c| >= 8 {
      var q, k := 6 + 52 / (|c| / 4), Pack(key[..16]);
      var v := Decipher(Pack(c), q, k);
      EncipherInvertsDecipher(Pack(c), q, k);
      UnpackPack(c);
      assert |v| == |c| / 4;
    }
  }

  /** A C int cannot hold more than this; the wrappers compute |data| + 8 in one. */
  method Encrypt(data: seq<Byte>, key: seq<Byte>) returns (r: seq<Byte>)
    requires |data| < INT_LIMIT - 8 && |key| >= 16
    ensures r == EncryptSpec(data, key)
  {
    hide Encipher, Pack, Unpack;
    var slen := |data|;
    var vlen := slen % 4;
    if vlen == 0 {
      vlen := slen + 4;
    } else {
      vlen := slen + 8 - vlen;
    }
    var pad := if slen % 4 != 0 then Zeros(4 - slen % 4) else [];
    var bytes := data + pad + WordBytes(slen);
    assert bytes == Padded(data) && |bytes| == vlen;
    var words := Pack(bytes);
    var v := new Word[|words|](i requires 0 <= i < |words| => words[i]);
    assert v[..] == words;
    EncryptWords(v, Pack(key[..16]));
    r := Unpack(v[..]);
  }

  method Decrypt(data: seq<Byte>, key: seq<Byte>) returns (r: seq<Byte>)
    requires 0 < |data| < INT_LIMIT && |key| >= 16
    ensures r == DecryptSpec(data, key)
  {
    hide Decipher, Pack, Unpack;
    if |data| % 4 != 0 {
      return data;
    }
    var words := Pack(data);
    var vlen := |words|;
    if vlen - 1 == 0 {
      return data;
    }
    var v := new Word[vlen](i requires 0 <= i < |words| => words[i]);
    assert v[..] == words;
    DecryptWords(v, Pack(key[..16]));
    // The length word is read back into a signed int.
    var w := v[vlen - 1];
    var n := if w >= INT_LIMIT then w - TWO_32 else w;
    if n >= 0 && n <= (vlen - 1) * 4 {
      r := Unpack(v[..])[..n];
    } else {
      r := data;
    }
  }
}
