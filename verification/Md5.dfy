/** INV_MD5: buffered streaming, padding, and the digest of sections 3.1 to 3.5 of RFC 1321. */
module Md5Stream {
  import opened Bits
  import opened Bytes
  import opened Md5Block

  // ---------------------------------------------------------------- the specification

  function First(m: seq<Byte>): (r: seq<Byte>)
    requires |m| % 64 == 0 && m != []
    ensures |r| == 64
  {
    m[..64]
  }

  function Rest(m: seq<Byte>): (r: seq<Byte>)
    requires |m| % 64 == 0 && m != []
    ensures |r| % 64 == 0 && |r| < |m| && First(m) + r == m
  {
    m[64..]
  }

  /** The blocks of m, one after the other. */
  function Absorb(st: State, m: seq<Byte>): State
    requires |m| % 64 == 0
    decreases |m|
  {
    if m == [] then st else Absorb(Process(st, First(m)), Rest(m))
  }

  lemma {:induction false} AbsorbConcat(st: State, a: seq<Byte>, b: seq<Byte>)
    requires |a| % 64 == 0 && |b| % 64 == 0
    ensures Absorb(st, a + b) == Absorb(Absorb(st, a), b)
    decreases |a|
  {
    hide Process;
    if a == [] {
      assert a + b == b;
    } else {
      assert First(a + b) == First(a) && Rest(a + b) == Rest(a) + b;
      AbsorbConcat(Process(st, First(a)), Rest(a), b);
    }
  }

  /** Section 3.1: a 1 bit and as few 0 bits as make the length 448 bits modulo 512. */
  function PadZeros(n: nat): (k: nat)
    ensures k < 64 && (n + 1 + k) % 64 == 56
  {
    if n % 64 < 56 then 55 - n % 64 else 119 - n % 64
  }

  lemma FillsBlocks(n: nat, k: nat)
    requires (n + 1 + k) % 64 == 56
    ensures (n + (1 + k + 8)) % 64 == 0
  {
  }

  /** Section 3.2: the length in bits, its low-order 64 bits, least significant byte first. */
  function Padding(n: nat): (r: seq<Byte>)
    ensures (n + |r|) % 64 == 0
  {
    FillsBlocks(n, PadZeros(n));
    [0x80] + Zeros(PadZeros(n)) + ToLE(8 * n % TWO_64, 8)
  }

  /** Section 3.5: the four words, low-order byte first. */
  function Output(st: State): seq<Byte> {
    ToLE(st.a, 4) + ToLE(st.b, 4) + ToLE(st.c, 4) + ToLE(st.d, 4)
  }

  /** Word i of the state. */
  function WordAt(st: State, i: nat): Word
    requires i < 4
  {
    if i == 0 then st.a else if i == 1 then st.b else if i == 2 then st.c else st.d
  }

  lemma {:induction false} ByteOfWord(w: Word, j: nat)
    requires j < 4
    ensures ToLE(w, 4)[j] == w / Pow256(j) % 256
  {
    FourBytes(w);
    assert Pow256(1) == 0x100 && Pow256(2) == 0x1_0000 && Pow256(3) == 0x100_0000;
  }

  /** Byte 4i + j of the output is byte j of word i, counted from the low end. */
  lemma {:induction false} OutputBytes(st: State, i: nat, j: nat)
    requires i < 4 && j < 4
    ensures |Output(st)| == 16
    ensures Output(st)[4 * i + j] == WordAt(st, i) / Pow256(j) % 256
  {
    ByteOfWord(WordAt(st, i), j);
    hide ToLE, Pow256;
    assert Output(st)[4 * i + j] == ToLE(WordAt(st, i), 4)[j];
  }

  /** Section 3.3 lists the words the digest starts from byte by byte, low-order bytes first. */
  lemma {:induction false} OutputOfInit()
    ensures Output(INIT) == [0x01, 0x23, 0x45, 0x67, 0x89, 0xab, 0xcd, 0xef,
                             0xfe, 0xdc, 0xba, 0x98, 0x76, 0x54, 0x32, 0x10]
  {
    hide ToLE;
    FourBytes(INIT.a);
    FourBytes(INIT.b);
    FourBytes(INIT.c);
    FourBytes(INIT.d);
  }

  /** Words, each written low-order byte first. */
  function Written(X: seq<Word>): (r: seq<Byte>)
    ensures |r| == 4 * |X|
  {
    if X == [] then [] else ToLE(X[0], 4) + Written(X[1..])
  }

  lemma {:induction false} WrittenAt(X: seq<Word>, i: nat)
    requires i < |X|
    ensures Written(X)[4 * i..4 * i + 4] == ToLE(X[i], 4)
  {
    hide ToLE;
    if i > 0 {
      WrittenAt(X[1..], i - 1);
      assert Written(X)[4 * i..4 * i + 4] == Written(X[1..])[4 * (i - 1)..4 * (i - 1) + 4];
    }
  }

  /** Words written to a block are read back from it, in order. */
  lemma {:induction false} WordsOfWritten(X: seq<Word>)
    requires |X| == 16
    ensures Words(Written(X)) == X
  {
    hide ToLE, Written, WordOf;
    var b := Written(X);
    forall i | 0 <= i < 16 ensures Words(b)[i] == X[i] {
      WrittenAt(X, i);
      FourBytes(X[i]);
      var w := b[4 * i..4 * i + 4];
      assert w[0] == b[4 * i] && w[1] == b[4 * i + 1] && w[2] == b[4 * i + 2] && w[3] == b[4 * i + 3];
      WordBack(X[i]);
    }
  }

  lemma WordBack(w: Word)
    ensures WordOf(w % 256, w / 0x100 % 256, w / 0x1_0000 % 256, w / 0x100_0000 % 256) == w
  {
    var x, y, z := w / 0x100, w / 0x1_0000, w / 0x100_0000;
    assert x / 256 == y && y / 256 == z && z < 256;
    assert w == w % 256 + 256 * x && x == x % 256 + 256 * y && y == y % 256 + 256 * z;
  }

  function Digest(m: seq<Byte>): seq<Byte> {
    Output(Absorb(INIT, m + Padding(|m|)))
  }

  function Flatten(chunks: seq<seq<Byte>>): seq<Byte> {
    if chunks == [] then [] else chunks[0] + Flatten(chunks[1..])
  }

  // ---------------------------------------------------------------- the context

  function Whole(n: nat): (r: nat)
    ensures r <= n && r % 64 == 0 && n - r == n % 64
  {
    n - n % 64
  }

  /** What the context says about the bytes so far: hashed blocks, the pending tail, and the length. */
  ghost predicate Hashed(state: State, tail: seq<Byte>, m: seq<Byte>) {
    state == Absorb(INIT, m[..Whole(|m|)]) && tail == m[Whole(|m|)..]
  }

  ghost predicate Counts(count0: Word, count1: Word, n: nat) {
    count0 + TWO_32 * count1 == n % TWO_64
  }

  lemma CountsTail(count0: Word, count1: Word, n: nat)
    requires Counts(count0, count1, n)
    ensures count0 % 64 == n % 64
  {
    var t := n / TWO_64;
    assert n == t * TWO_64 + count0 + TWO_32 * count1;
    DivModUnique(n, 64, t * (TWO_64 / 64) + count1 * (TWO_32 / 64) + count0 / 64, count0 % 64);
  }

  /** The two 32-bit counters with their carry count modulo 2^64. */
  lemma CountsAdd(count0: Word, count1: Word, n: nat, ilen: Word)
    requires Counts(count0, count1, n)
    ensures var c0 := (count0 + ilen) % TWO_32;
            var c1 := if c0 < ilen then (count1 + 1) % TWO_32 else count1;
            Counts(c0, c1, n + ilen)
  {
    var c0 := (count0 + ilen) % TWO_32;
    var carry := if c0 < ilen then 1 else 0;
    assert count0 + ilen == c0 + carry * TWO_32;
    var wrap := if count1 + carry == TWO_32 then 1 else 0;
    var c1 := count1 + carry - wrap * TWO_32;
    var t := n / TWO_64;
    assert n + ilen == (t + wrap) * TWO_64 + (c0 + TWO_32 * c1);
  }

  lemma TimesEight(c: Word)
    ensures c * 8 == (c / 0x2000_0000) * TWO_32 + (c * 8) % TWO_32
    ensures (c * 8) % TWO_32 % 8 == 0 && (c * 8) % TWO_32 <= TWO_32 - 8 && c / 0x2000_0000 < 8
  {
    var top, rest := c / 0x2000_0000, c % 0x2000_0000;
    assert c == top * 0x2000_0000 + rest;
    DivModUnique(c * 8, TWO_32, top, rest * 8);
  }

  /** What md5final makes of the byte counters: count[0] << 3, and (count[0] >> 29) | (count[1] << 3). */
  function LowLength(count0: Word): Word {
    (count0 * 8) % TWO_32
  }

  function HighLength(count0: Word, count1: Word): nat {
    OrWord(count0 / 0x2000_0000, (count1 * 8) % TWO_32, 32)
  }

  /** The shifted halves have no common bit. */
  lemma HighIsSum(count0: Word, count1: Word)
    ensures HighLength(count0, count1) == count0 / 0x2000_0000 + (count1 * 8) % TWO_32
  {
    hide OrWord, Pow2;
    TimesEight(count0);
    TimesEight(count1);
    EightAndWord();
    var top, h := count0 / 0x2000_0000, (count1 * 8) % TWO_32;
    OrCommutes(top, h, 32);
    OrIsSum(h / 8, top, 3, 32);
  }

  lemma EightAndWord()
    ensures Pow2(3) == 8 && Pow2(32) == TWO_32
  {
    assert Pow2(3) == 8;
    assert Pow2(11) == 0x800;
    assert Pow2(19) == 0x8_0000;
    assert Pow2(27) == 0x800_0000;
  }

  /** Together they are the length in bits. */
  lemma BitLength(count0: Word, count1: Word, n: nat)
    requires Counts(count0, count1, n)
    ensures var low, high := LowLength(count0), HighLength(count0, count1);
            low + TWO_32 * high == 8 * n % TWO_64 && high < TWO_32
  {
    hide HighLength;
    TimesEight(count0);
    TimesEight(count1);
    HighIsSum(count0, count1);
    var low, top := (count0 * 8) % TWO_32, count0 / 0x2000_0000;
    var h, over := (count1 * 8) % TWO_32, count1 / 0x2000_0000;
    BitLengthOf(n, n / TWO_64, count0, count1, low, top, h, over);
  }

  lemma BitLengthOf(n: nat, t: nat, count0: nat, count1: nat, low: nat, top: nat, h: nat, over: nat)
    requires n == t * TWO_64 + count0 + TWO_32 * count1
    requires count0 * 8 == top * TWO_32 + low && count1 * 8 == over * TWO_32 + h
    requires low < TWO_32 && top < 8 && h <= TWO_32 - 8
    ensures low + TWO_32 * (top + h) == 8 * n % TWO_64
  {
    DivModUnique(8 * n, TWO_64, 8 * t + over, low + TWO_32 * (top + h));
  }

  lemma LowByte(low: nat, rest: nat)
    ensures (low + 256 * rest) % 256 == low % 256 && (low + 256 * rest) / 256 == low / 256 + rest
  {
  }

  lemma FirstByte(n: nat, k: nat)
    requires k > 0
    ensures ToLE(n, k) == [n % 256] + ToLE(n / 256, k - 1)
  {
  }

  /** n moved up by k bytes. */
  function Raised(n: nat, k: nat): nat {
    if k == 0 then n else 256 * Raised(n, k - 1)
  }

  /** PUT_ULONG_LE twice is one 8-byte little-endian number. */
  lemma {:induction false} TwoWords(low: nat, high: nat, k: nat)
    requires low < Pow256(k)
    ensures ToLE(low, k) + ToLE(high, 4) == ToLE(low + Raised(high, k), k + 4)
  {
    if k == 0 {
      assert ToLE(low, 0) == [];
    } else {
      var z := Raised(high, k - 1);
      TwoWords(low / 256, high, k - 1);
      LowByte(low, z);
      FirstByte(low, k);
      FirstByte(low + 256 * z, k + 4);
      hide ToLE, Pow256;
      var head, tail := [low % 256], ToLE(low / 256, k - 1);
      assert head + tail + ToLE(high, 4) == head + (tail + ToLE(high, 4));
    }
  }

  /** Input that does not fill a block only lengthens the tail. */
  lemma HashedTail(state: State, tail: seq<Byte>, m: seq<Byte>, x: seq<Byte>)
    requires Hashed(state, tail, m) && |tail| + |x| < 64
    ensures Hashed(state, tail + x, m + x)
  {
    hide Absorb;
    assert Whole(|m + x|) == Whole(|m|);
    assert (m + x)[..Whole(|m|)] == m[..Whole(|m|)];
    assert (m + x)[Whole(|m|)..] == m[Whole(|m|)..] + x;
  }

  /** Input that completes the block hashes it. */
  lemma HashedBlock(state: State, tail: seq<Byte>, m: seq<Byte>, x: seq<Byte>)
    requires Hashed(state, tail, m) && |tail| + |x| == 64
    ensures Hashed(Process(state, tail + x), [], m + x)
  {
    hide Process;
    var w := Whole(|m|);
    assert Whole(|m + x|) == |m + x| == w + 64;
    assert (m + x)[..w + 64] == m + x == m[..w] + (tail + x);
    AbsorbConcat(INIT, m[..w], tail + x);
    assert First(tail + x) == tail + x && Rest(tail + x) == [];
    assert Absorb(state, tail + x) == Absorb(Process(state, tail + x), []);
    assert (m + x)[w + 64..] == [];
  }

  lemma TailLength(state: State, tail: seq<Byte>, m: seq<Byte>)
    requires Hashed(state, tail, m)
    ensures |tail| == |m| % 64
  {
  }

  /** Once everything is whole blocks, the state is the hash of all of it. */
  lemma {:induction false} HashedAll(state: State, tail: seq<Byte>, m: seq<Byte>)
    requires Hashed(state, tail, m) && |m| % 64 == 0
    ensures state == Absorb(INIT, m)
  {
    assert m[..Whole(|m|)] == m;
  }

  // The array PADDING of the source.
  const PADDING: seq<Byte> := [0x80] + Zeros(63)

  lemma PaddingBytes(n: nat, padn: nat, last: nat)
    requires last == n % 64 && padn == if last < 56 then 56 - last else 120 - last
    ensures 1 <= padn <= |PADDING| && padn == 1 + PadZeros(n) && PADDING[..padn] == [0x80] + Zeros(PadZeros(n))
  {
  }

  lemma {:induction false} LengthBytes(low: nat, high: nat, n: nat)
    requires low < TWO_32 && low + TWO_32 * high == 8 * n % TWO_64
    ensures ToLE(low, 4) + ToLE(high, 4) == ToLE(8 * n % TWO_64, 8)
  {
    RaisedWord(high);
    hide ToLE, Pow256, Raised;
    TwoWords(low, high, 4);
  }

  lemma {:induction false} RaisedWord(high: nat)
    ensures Pow256(4) == TWO_32 && Raised(high, 4) == TWO_32 * high
  {
    assert Raised(high, 1) == 256 * high;
    assert Raised(high, 2) == 0x1_0000 * high;
    assert Raised(high, 3) == 0x100_0000 * high;
  }

  class Md5Context {
    var state: State
    var count0: Word
    var count1: Word
    const buffer: array<Byte>
    // Every byte given to the context so far.
    ghost var message: seq<Byte>

    ghost predicate Valid()
      reads this, buffer
    {
      && buffer.Length == 64
      && Counts(count0, count1, |message|)
      && Hashed(state, buffer[..|message| % 64], message)
    }

    /** md5init */
    constructor ()
      ensures Valid() && message == [] && fresh(buffer)
    {
      count0, count1 := 0, 0;
      state := INIT;
      buffer := new Byte[64](_ => 0);
      message := [];
    }

    method CopyIn(left: nat, input: seq<Byte>)
      requires left + |input| <= buffer.Length
      modifies buffer
      ensures buffer[..left + |input|] == old(buffer[..left]) + input
    {
      for i := 0 to |input|
        invariant buffer[..left] == old(buffer[..left])
        invariant buffer[left..left + i] == input[..i]
      {
        buffer[left + i] := input[i];
      }
      assert buffer[..left + |input|] == buffer[..left] + buffer[left..left + |input|];
    }

    /** The first part of md5update: a partly filled buffer is topped up and hashed if the input suffices. */
    method TopUp(input: seq<Byte>, left: nat) returns (pos: nat, left': nat)
      requires buffer.Length == 64 && left < 64 && Hashed(state, buffer[..left], message)
      modifies this`state, buffer
      ensures pos <= |input| && left' < 64 && (left' != 0 ==> |input| - pos < 64 - left')
      ensures Hashed(state, buffer[..left'], message + input[..pos])
    {
      hide Absorb, Process, Hashed;
      var fill := 64 - left;
      pos, left' := 0, left;
      if left != 0 && |input| >= fill {
        ghost var tail := buffer[..left];
        CopyIn(left, input[..fill]);
        HashedBlock(state, tail, message, input[..fill]);
        assert buffer[..] == tail + input[..fill];
        state := Md5Process(state, buffer[..]);
        pos := fill;
        left' := 0;
      }
      assert buffer[..0] == [] && message + input[..0] == message;
    }

    /** The while loop of md5update: whole blocks straight from the input. */
    method Blocks(input: seq<Byte>, start: nat, left: nat) returns (pos: nat)
      requires buffer.Length == 64 && start <= |input| && left < 64 && (left != 0 ==> |input| - start < 64 - left)
      requires Hashed(state, buffer[..left], message + input[..start])
      modifies this`state
      ensures start <= pos <= |input| && |input| - pos + left < 64
      ensures Hashed(state, buffer[..left], message + input[..pos])
    {
      hide Absorb, Process, Hashed;
      pos := start;
      while |input| - pos >= 64
        invariant start <= pos <= |input| && (left != 0 ==> pos == start)
        invariant Hashed(state, buffer[..left], message + input[..pos])
        decreases |input| - pos
      {
        var block := input[pos..pos + 64];
        assert buffer[..left] == [] && [] + block == block;
        HashedBlock(state, [], message + input[..pos], block);
        assert (message + input[..pos]) + block == message + input[..pos + 64];
        state := Md5Process(state, block);
        pos := pos + 64;
      }
    }

    /** md5update: the length of one input is an unsigned int. */
    method Md5Update(input: seq<Byte>)
      requires Valid() && |input| < TWO_32
      modifies this, buffer
      ensures Valid() && message == old(message) + input
    {
      hide Absorb, Process, Hashed;
      var ilen := |input|;
      if ilen <= 0 {
        assert message + input == message;
        return;
      }
      CountsTail(count0, count1, |message|);
      CountsAdd(count0, count1, |message|, ilen);
      var left := count0 % 64;
      count0 := (count0 + ilen) % TWO_32;
      if count0 < ilen {
        count1 := (count1 + 1) % TWO_32;
      }
      var pos;
      pos, left := TopUp(input, left);
      pos := Blocks(input, pos, left);
      ghost var so, tail := message + input[..pos], buffer[..left];
      HashedTail(state, tail, so, input[pos..]);
      assert so + input[pos..] == message + input;
      if |input| - pos > 0 {
        CopyIn(left, input[pos..]);
      }
      assert buffer[..left + |input[pos..]|] == tail + input[pos..];
      message := message + input;
      TailLength(state, tail + input[pos..], message);
    }

    /** md5final: pad, append the bit length, and write out the state. */
    method Md5Final() returns (output: seq<Byte>)
      requires Valid()
      modifies this, buffer
      ensures output == Digest(old(message))
    {
      hide Absorb, Process, Hashed, ToLE, Output, Counts, HighLength, LowLength;
      ghost var m := message;
      BitLength(count0, count1, |m|);
      CountsTail(count0, count1, |m|);
      var high := HighLength(count0, count1);
      var low := LowLength(count0);
      var msglen := ToLE(low, 4) + ToLE(high, 4);
      var last := count0 % 64;
      var padn := if last < 56 then 56 - last else 120 - last;
      LengthBytes(low, high, |m|);
      PaddingBytes(|m|, padn, last);
      Md5Update(PADDING[..padn]);
      Md5Update(msglen);
      assert message == m + PADDING[..padn] + msglen == m + Padding(|m|);
      HashedAll(state, buffer[..|message| % 64], message);
      output := Output(state);
    }
  }

  /** md5bin: the length goes through an unsigned int, so only the first |s| modulo 2^32 bytes are hashed. */
  method Md5Bin(s: seq<Byte>) returns (digest: seq<Byte>)
    ensures digest == Digest(s[..|s| % TWO_32])
    ensures |s| < TWO_32 ==> digest == Digest(s)
  {
    hide Digest, Hashed, Counts;
    var context := new Md5Context();
    context.Md5Update(s[..|s| % TWO_32]);
    assert [] + s[..|s| % TWO_32] == s[..|s| % TWO_32];
    digest := context.Md5Final();
    assert |s| < TWO_32 ==> s[..|s| % TWO_32] == s;
  }

  lemma {:induction false} FlattenSnoc(chunks: seq<seq<Byte>>, i: nat)
    requires i < |chunks|
    ensures Flatten(chunks[..i + 1]) == Flatten(chunks[..i]) + chunks[i]
  {
    if i == 0 {
      assert chunks[..1] == [chunks[0]];
      assert chunks[..1][1..] == chunks[..0];
    } else {
      FlattenSnoc(chunks[1..], i - 1);
      assert chunks[..i + 1][1..] == chunks[1..][..i] && chunks[..i][1..] == chunks[1..][..i - 1];
    }
  }

  /** md5file: whatever pieces fread hands over, the digest is that of the whole file. */
  method Md5File(chunks: seq<seq<Byte>>) returns (digest: seq<Byte>)
    requires forall i :: 0 <= i < |chunks| ==> |chunks[i]| <= 1024
    ensures digest == Digest(Flatten(chunks))
  {
    hide Digest, Flatten, Hashed, Counts;
    var context := new Md5Context();
    assert chunks[..0] == [];
    FlattenNil();
    for i := 0 to |chunks|
      invariant context.Valid() && fresh(context) && fresh(context.buffer)
      invariant context.message == Flatten(chunks[..i])
    {
      FlattenSnoc(chunks, i);
      context.Md5Update(chunks[i]);
    }
    assert chunks[..|chunks|] == chunks;
    digest := context.Md5Final();
  }

  lemma FlattenNil()
    ensures Flatten([]) == []
  {
  }
}
