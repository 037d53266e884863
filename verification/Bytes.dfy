/** Bytes, machine words and little-endian layout, shared by the modules that model raw memory. */
module Bytes {

  type Byte = x: int | 0 <= x < 256

  const TWO_32: nat := 0x1_0000_0000
  const TWO_64: nat := 0x1_0000_0000_0000_0000

  type Word = x: int | 0 <= x < 0x1_0000_0000

  function Pow256(k: nat): (p: nat)
    ensures p >= 1
  {
    if k == 0 then 1 else 256 * Pow256(k - 1)
  }

  /** The k low-order bytes of n, least significant first: how an x86 store lays out a k-byte integer. */
  function ToLE(n: nat, k: nat): (r: seq<Byte>)
    ensures |r| == k
  {
    if k == 0 then [] else [n % 256] + ToLE(n / 256, k - 1)
  }

  function FromLE(s: seq<Byte>): nat {
    if s == [] then 0 else s[0] + 256 * FromLE(s[1..])
  }

  lemma {:induction false} LittleEndianRoundTrip(n: nat, k: nat)
    requires n < Pow256(k)
    ensures FromLE(ToLE(n, k)) == n
  {
    if k > 0 {
      LittleEndianRoundTrip(n / 256, k - 1);
      assert ToLE(n, k)[1..] == ToLE(n / 256, k - 1);
    }
  }

  /** Four bytes read as one 32-bit word, least significant first. */
  function WordOf(a: Byte, b: Byte, c: Byte, d: Byte): Word {
    (a as int) + 256 * ((b as int) + 256 * ((c as int) + 256 * (d as int)))
  }

  function Zeros(n: nat): (r: seq<Byte>)
    ensures |r| == n
  {
    seq(n, _ => 0)
  }

  lemma Pow256Of8()
    ensures Pow256(8) == TWO_64
  {
    assert Pow256(4) == TWO_32;
    assert Pow256(6) == 0x1_0000_0000_0000;
  }

  /** The bytes of a number, one by one. */
  lemma {:induction false} FourBytes(n: nat)
    ensures ToLE(n, 4) == [n % 256, n / 0x100 % 256, n / 0x1_0000 % 256, n / 0x100_0000 % 256]
  {
    assert ToLE(n / 0x100_0000, 1) == [n / 0x100_0000 % 256];
    assert ToLE(n / 0x1_0000, 2) == [n / 0x1_0000 % 256] + ToLE(n / 0x100_0000, 1);
    assert ToLE(n / 0x100, 3) == [n / 0x100 % 256] + ToLE(n / 0x1_0000, 2);
  }
}
