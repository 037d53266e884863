/** Escaping codecs: common/inutil/inv_encoder.cpp. */
module Codec {
  import opened Bits
  import opened Bytes

  // ---------------------------------------------------------------- line escapes: f is written t u, and t is doubled

  function Escape(c: char, f: char, t: char, u: char): string {
    if c == f then [t, u] else if c == t then [t, t] else [c]
  }

  function Escaped(s: string, f: char, t: char, u: char): string {
    if s == "" then "" else Escape(s[0], f, t, u) + Escaped(s[1..], f, t, u)
  }

  /** No escape character stands alone at the end of the text. */
  predicate Complete(s: string, t: char)
    decreases |s|
  {
    if s == "" then true
    else if s[0] == t then |s| >= 2 && Complete(s[2..], t)
    else Complete(s[1..], t)
  }

  function Unescaped(s: string, f: char, t: char, u: char): string
    requires Complete(s, t)
    decreases |s|
  {
    if s == "" then ""
    else if s[0] == t then [if s[1] == u then f else t] + Unescaped(s[2..], f, t, u)
    else [s[0]] + Unescaped(s[1..], f, t, u)
  }

  /** The text is escaped in place: the tail that is still to come moves as escapes are inserted. */
  method TransTo(str: string, f: char, t: char, u: char) returns (ret: string)
    ensures ret == Escaped(str, f, t, u)
  {
    hide Escaped;
    ret := str;
    var i := 0;
    ghost var done, rest := "", str;
    EscapeNone(f, t, u);
    while i < |ret|
      invariant ret == done + rest && i == |done|
      invariant done + Escaped(rest, f, t, u) == Escaped(str, f, t, u)
      decreases |rest|
    {
      EscapeOne(done, rest, f, t, u);
      ghost var c := rest[0];
      if ret[i] == f {
        TwoForOne(done, rest, t, u);
        ret := ret[i := t];
        i := i + 1;
        ret := ret[..i] + [u] + ret[i..];
      } else if ret[i] == t {
        TwoForOne(done, rest, t, t);
        i := i + 1;
        ret := ret[..i] + [t] + ret[i..];
      } else {
        assert done + rest == done + [c] + rest[1..];
      }
      i := i + 1;
      done, rest := done + Escape(c, f, t, u), rest[1..];
    }
  }

  lemma {:induction false} EscapeNone(f: char, t: char, u: char)
    ensures Escaped("", f, t, u) == ""
  {
  }

  lemma {:induction false} EscapeOne(done: string, rest: string, f: char, t: char, u: char)
    requires rest != ""
    ensures done + Escaped(rest, f, t, u) == done + Escape(rest[0], f, t, u) + Escaped(rest[1..], f, t, u)
  {
  }

  lemma TwoForOne(done: string, rest: string, x: char, y: char)
    requires rest != ""
    ensures var r, i := (done + rest)[|done| := x], |done| + 1;
      r[..i] + [y] + r[i..] == done + [x, y] + rest[1..]
    ensures rest[0] == x ==> (done + rest)[|done| := x] == done + rest
  {
  }

  method TransFrom(str: string, f: char, t: char, u: char) returns (ret: string)
    requires Complete(str, t)
    ensures ret == Unescaped(str, f, t, u)
  {
    hide Complete, Unescaped;
    ret := "";
    var it := 0;
    assert str[0..] == str;
    while it < |str|
      invariant it <= |str| && Complete(str[it..], t)
      invariant ret + Unescaped(str[it..], f, t, u) == Unescaped(str, f, t, u)
    {
      UnescapeOne(str, it, f, t, u);
      ghost var before := ret;
      ret := ret + [str[it]];
      if str[it] == t {
        it := it + 1;
        if str[it] == u {
          ret := ret[|ret| - 1 := f];
        }
        assert ret == before + [if str[it] == u then f else t];
      }
      it := it + 1;
    }
    UnescapeNone(f, t, u);
    assert str[it..] == "";
  }

  lemma {:induction false} UnescapeNone(f: char, t: char, u: char)
    ensures Complete("", t) && Unescaped("", f, t, u) == ""
  {
  }

  lemma {:induction false} UnescapeOne(s: string, i: nat, f: char, t: char, u: char)
    requires i < |s| && Complete(s[i..], t)
    ensures s[i] == t ==> i + 1 < |s| && Complete(s[i + 2..], t)
    ensures s[i] == t ==>
      Unescaped(s[i..], f, t, u) == [if s[i + 1] == u then f else t] + Unescaped(s[i + 2..], f, t, u)
    ensures s[i] != t ==> Complete(s[i + 1..], t)
    ensures s[i] != t ==> Unescaped(s[i..], f, t, u) == [s[i]] + Unescaped(s[i + 1..], f, t, u)
  {
    assert s[i..][1..] == s[i + 1..];
    if s[i] == t {
      assert s[i..][2..] == s[i + 2..];
    }
  }

  /** What one escaped character reads back as. */
  function Seen(c: char, f: char, t: char, u: char): char {
    if c == t && u == t then f else c
  }

  function AllSeen(s: string, f: char, t: char, u: char): (r: string)
    ensures |r| == |s|
    ensures forall k :: 0 <= k < |s| ==> r[k] == Seen(s[k], f, t, u)
  {
    seq(|s|, k requires 0 <= k < |s| => Seen(s[k], f, t, u))
  }

  lemma {:induction false} ReadOne(c: char, rest: string, f: char, t: char, u: char)
    requires Complete(rest, t)
    ensures Complete(Escape(c, f, t, u) + rest, t)
    ensures Unescaped(Escape(c, f, t, u) + rest, f, t, u) == [Seen(c, f, t, u)] + Unescaped(rest, f, t, u)
  {
    var e := Escape(c, f, t, u);
    assert (e + rest)[|e|..] == rest;
  }

  lemma {:induction false} UnescapedEscaped(s: string, f: char, t: char, u: char)
    ensures Complete(Escaped(s, f, t, u), t)
    ensures Unescaped(Escaped(s, f, t, u), f, t, u) == AllSeen(s, f, t, u)
  {
    hide Complete, Unescaped, Escape, Seen;
    if s == "" {
      UnescapeNone(f, t, u);
    } else {
      UnescapedEscaped(s[1..], f, t, u);
      ReadOne(s[0], Escaped(s[1..], f, t, u), f, t, u);
      assert AllSeen(s, f, t, u) == [Seen(s[0], f, t, u)] + AllSeen(s[1..], f, t, u);
    }
  }

  /**
    Escaped text reads back as itself exactly when the second escape letter differs from the
    first, or the escape letter is itself the one escaped, or it does not occur.
   */
  lemma {:induction false} RoundTrip(s: string, f: char, t: char, u: char)
    ensures Complete(Escaped(s, f, t, u), t)
    ensures Unescaped(Escaped(s, f, t, u), f, t, u) == s <==> u != t || f == t || t !in s
  {
    hide Complete, Escaped, Unescaped;
    UnescapedEscaped(s, f, t, u);
    var r := AllSeen(s, f, t, u);
    if u == t && f != t && t in s {
      var k :| 0 <= k < |s| && s[k] == t;
      assert r[k] != s[k];
    } else {
      assert r == s;
    }
  }

  /** The escaped character is gone from the text, unless it is one of the letters used for escaping. */
  lemma {:induction false} EscapedIsFree(s: string, f: char, t: char, u: char)
    ensures f in Escaped(s, f, t, u) <==> f in s && (f == t || f == u)
  {
    if s != "" {
      EscapedIsFree(s[1..], f, t, u);
      assert s == [s[0]] + s[1..];
    }
  }

  // ---------------------------------------------------------------- percent encoding, section 2.1 of RFC 3986

  predicate Unreserved(c: Byte) {
    || '0' as int <= c <= '9' as int
    || 'A' as int <= c <= 'Z' as int
    || 'a' as int <= c <= 'z' as int
    || c == '_' as int || c == '-' as int || c == '.' as int
  }

  predicate IsHex(c: Byte) {
    || '0' as int <= c <= '9' as int
    || 'a' as int <= c <= 'f' as int
    || 'A' as int <= c <= 'F' as int
  }

  function ToHex(x: Byte): Byte
    requires x < 16
  {
    if x > 9 then x - 10 + 'A' as int else x + '0' as int
  }

  /** An unsigned char: the difference wraps around. */
  function FromHex(x: Byte): Byte {
    if '0' as int <= x <= '9' as int then x - '0' as int
    else (x - 'A' as int + 10) % 256
  }

  const PERCENT: Byte := '%' as int
  const PLUS: Byte := '+' as int
  const SPACE: Byte := ' ' as int

  function UrlPiece(c: Byte): seq<Byte> {
    if Unreserved(c) then [c] else [PERCENT, ToHex(c / 16), ToHex(c % 16)]
  }

  function UrlEncoded(s: seq<Byte>): seq<Byte> {
    if s == [] then [] else UrlEncoded(s[..|s| - 1]) + UrlPiece(s[|s| - 1])
  }

  predicate PercentAt(s: seq<Byte>, i: nat)
    requires i < |s|
  {
    s[i] == PERCENT && i + 2 < |s| && IsHex(s[i + 1]) && IsHex(s[i + 2])
  }

  /** The byte two hexadecimal digits stand for: shift the first, or in the second. */
  function HexPair(a: Byte, b: Byte): Byte {
    OrWord(FromHex(a) * 16 % 256, FromHex(b), 8) % 256
  }

  function UrlDecodedFrom(s: seq<Byte>, i: nat): seq<Byte>
    requires i <= |s|
    decreases |s| - i
  {
    if i == |s| then []
    else if PercentAt(s, i) then [HexPair(s[i + 1], s[i + 2])] + UrlDecodedFrom(s, i + 3)
    else [if s[i] == PLUS then SPACE else s[i]] + UrlDecodedFrom(s, i + 1)
  }

  method UrlEncode(str: seq<Byte>) returns (out: seq<Byte>)
    ensures out == UrlEncoded(str)
  {
    out := [];
    for ix := 0 to |str|
      invariant out == UrlEncoded(str[..ix])
    {
      assert str[..ix + 1][..ix] == str[..ix];
      if Unreserved(str[ix]) {
        out := out + [str[ix]];
      } else {
        out := out + [PERCENT, ToHex(str[ix] / 16), ToHex(str[ix] % 16)];
      }
    }
    assert str[..|str|] == str;
  }

  /** One step of decoding. */
  lemma DecodeOne(s: seq<Byte>, i: nat)
    requires i < |s|
    ensures PercentAt(s, i) ==> UrlDecodedFrom(s, i) == [HexPair(s[i + 1], s[i + 2])] + UrlDecodedFrom(s, i + 3)
    ensures !PercentAt(s, i) ==>
      UrlDecodedFrom(s, i) == [if s[i] == PLUS then SPACE else s[i]] + UrlDecodedFrom(s, i + 1)
  {
    hide HexPair, PercentAt;
  }

  lemma AppendOne(done: seq<Byte>, ch: Byte, rest: seq<Byte>)
    ensures done + ([ch] + rest) == done + [ch] + rest
  {
  }

  method UrlDecode(str: seq<Byte>) returns (out: seq<Byte>)
    ensures out == UrlDecodedFrom(str, 0)
    ensures out == Meant(str, 0) <==> forall k :: 0 <= k < |str| ==> !Misread(str, k)
  {
    hide OrWord, HexPair, IsHex, UrlDecodedFrom, Meant, Misread;
    DecodedAsMeant(str, 0);
    out := [];
    var ix := 0;
    while ix < |str|
      invariant ix <= |str|
      invariant out + UrlDecodedFrom(str, ix) == UrlDecodedFrom(str, 0)
    {
      DecodeOne(str, ix);
      var ch: Byte;
      if str[ix] == PERCENT && ix + 2 < |str| && IsHex(str[ix + 1]) && IsHex(str[ix + 2]) {
        ch := HexPair(str[ix + 1], str[ix + 2]);
        ix := ix + 2;
      } else if str[ix] == PLUS {
        ch := SPACE;
      } else {
        ch := str[ix];
      }
      AppendOne(out, ch, UrlDecodedFrom(str, ix + 1));
      out := out + [ch];
      ix := ix + 1;
    }
    DecodeEnd(str);
  }

  lemma {:induction false} DecodeEnd(s: seq<Byte>)
    ensures UrlDecodedFrom(s, |s|) == []
  {
  }

  lemma HexPairOfByte(c: Byte)
    ensures IsHex(ToHex(c / 16)) && IsHex(ToHex(c % 16))
    ensures HexPair(ToHex(c / 16), ToHex(c % 16)) == c
  {
    hide OrWord, ToHex, FromHex, IsHex;
    HexBack(c / 16);
    HexBack(c % 16);
    OrOfDigits(c / 16, c % 16);
  }

  lemma OrOfDigits(x: nat, d: nat)
    requires x < 16 && d < 16
    ensures OrWord(16 * x % 256, d, 8) == 16 * x + d
  {
    hide OrWord, Pow2;
    NibblePowers();
    OrIsSum(x, d, 4, 8);
  }

  lemma NibblePowers()
    ensures Pow2(4) == 16 && Pow2(8) == 256
  {
    assert Pow2(6) == 64;
  }

  lemma HexBack(d: nat)
    requires d < 16
    ensures IsHex(ToHex(d)) && FromHex(ToHex(d)) == d
  {
  }

  lemma DecodePiece(s: seq<Byte>, i: nat, c: Byte)
    requires i + |UrlPiece(c)| <= |s| && s[i..i + |UrlPiece(c)|] == UrlPiece(c)
    ensures UrlDecodedFrom(s, i) == [c] + UrlDecodedFrom(s, i + |UrlPiece(c)|)
  {
    hide HexPair, ToHex, IsHex;
    var p := UrlPiece(c);
    HexPairOfByte(c);
    assert s[i..i + |p|][0] == s[i];
    if !Unreserved(c) {
      assert s[i..i + |p|][1] == s[i + 1] && s[i..i + |p|][2] == s[i + 2];
      assert PercentAt(s, i);
    }
  }

  lemma {:induction false} DecodeFront(s: seq<Byte>, tail: seq<Byte>)
    ensures UrlDecodedFrom(UrlEncoded(s) + tail, 0) == s + UrlDecodedFrom(UrlEncoded(s) + tail, |UrlEncoded(s)|)
  {
    hide UrlDecodedFrom, UrlPiece;
    if s != [] {
      var n := |s| - 1;
      var front, piece := UrlEncoded(s[..n]), UrlPiece(s[n]);
      DecodeFront(s[..n], piece + tail);
      assert front + (piece + tail) == UrlEncoded(s) + tail;
      DecodePiece(UrlEncoded(s) + tail, |front|, s[n]);
      assert s == s[..n] + [s[n]];
    }
  }

  /** Every byte string survives percent encoding. */
  lemma {:induction false} UrlRoundTrip(s: seq<Byte>)
    ensures UrlDecodedFrom(UrlEncoded(s), 0) == s
  {
    hide UrlEncoded;
    DecodeFront(s, []);
    assert UrlEncoded(s) + [] == UrlEncoded(s);
  }

  /** The encoded form uses unreserved characters, the percent sign and nothing else. */
  lemma {:induction false} UrlEncodedIsSafe(s: seq<Byte>, k: nat)
    requires k < |UrlEncoded(s)|
    ensures Unreserved(UrlEncoded(s)[k]) || UrlEncoded(s)[k] == PERCENT
  {
    var n := |s| - 1;
    if k < |UrlEncoded(s[..n])| {
      UrlEncodedIsSafe(s[..n], k);
    }
  }

  const DIGITS := "0123456789"
  const UPPER := "ABCDEFGHIJKLMNOPQRSTUVWXYZ"
  const LOWER := "abcdefghijklmnopqrstuvwxyz"
  const SAFE := DIGITS + UPPER + LOWER + "-._"
  const HEX := "0123456789ABCDEF"

  lemma DigitBytes(c: char)
    ensures c in DIGITS <==> '0' <= c <= '9'
  {
    if '0' <= c <= '9' {
      assert DIGITS[c as int - '0' as int] == c;
    }
  }

  lemma UpperBytes(c: char)
    ensures c in UPPER <==> 'A' <= c <= 'Z'
  {
    if 'A' <= c <= 'Z' {
      assert UPPER[c as int - 'A' as int] == c;
    }
  }

  lemma LowerBytes(c: char)
    ensures c in LOWER <==> 'a' <= c <= 'z'
  {
    if 'a' <= c <= 'z' {
      assert LOWER[c as int - 'a' as int] == c;
    }
  }

  /** The bytes left as they are. */
  lemma SafeBytes(c: Byte)
    ensures Unreserved(c) <==> c as char in SAFE
  {
    DigitBytes(c as char);
    UpperBytes(c as char);
    LowerBytes(c as char);
    hide DIGITS, UPPER, LOWER;
  }

  lemma HexDigits(d: nat)
    requires d < 16
    ensures |HEX| == 16 && ToHex(d) == HEX[d] as int
  {
  }

  /** Every byte by itself; others than the safe ones become a percent sign and two upper-case digits. */
  lemma {:induction false} UrlBytes(s: seq<Byte>, c: Byte)
    ensures UrlEncoded(s + [c]) == UrlEncoded(s) +
      if c as char in SAFE then [c] else ['%' as int, HEX[c / 16] as int, HEX[c % 16] as int]
    ensures UrlEncoded([]) == []
  {
    hide ToHex, Unreserved, SAFE;
    assert (s + [c])[..|s|] == s;
    SafeBytes(c);
    HexDigits(c / 16);
    HexDigits(c % 16);
  }

  /** What a hexadecimal digit stands for, in either case. */
  function HexValue(c: Byte): nat
    requires IsHex(c)
  {
    if c <= '9' as int then c - '0' as int
    else if c <= 'F' as int then c - 'A' as int + 10
    else c - 'a' as int + 10
  }

  lemma {:induction false} OrStep(x: nat, y: nat, b: nat, n: nat)
    requires b < 2
    ensures OrWord(2 * x, 2 * y + b, n + 1) == 2 * OrWord(x, y, n) + b
  {
  }

  lemma {:induction false} OrLowDigit(x: nat, y: nat, d: nat)
    requires d < 16
    ensures OrWord(16 * x, 16 * y + d, 8) == 16 * OrWord(x, y, 4) + d
  {
    hide OrWord;
    OrStep(8 * x, 8 * y + d / 2, d % 2, 7);
    OrStep(4 * x, 4 * y + d / 4, d / 2 % 2, 6);
    OrStep(2 * x, 2 * y + d / 8, d / 4 % 2, 5);
    OrStep(x, y, d / 8, 4);
  }

  lemma {:induction false} OrTwo(x: nat)
    requires x < 16
    ensures OrWord(x, 2, 4) == if x / 2 % 2 == 1 then x else x + 2
  {
    NibblePowers();
    assert OrWord(x / 2, 1, 3) == 1 + 2 * OrWord(x / 4, 0, 2);
    assert x / 4 < Pow2(2);
    OrOfZero(x / 4, 2);
  }

  lemma FromHexIs(c: Byte)
    requires IsHex(c)
    ensures HexValue(c) < 16
    ensures FromHex(c) == HexValue(c) + if c < 'a' as int then 0 else 32
    ensures FromHex(c) * 16 % 256 == 16 * HexValue(c) % 256 == 16 * HexValue(c)
  {
  }

  /**
    Two hexadecimal digits, in either case as section 2.1 of RFC 3986 allows: a lower-case second digit
    brings bit 5 along, so the byte is the right one exactly when that digit is no lower-case letter or
    the first digit has the bit already.
   */
  lemma {:induction false} HexPairIs(a: Byte, b: Byte)
    requires IsHex(a) && IsHex(b)
    ensures HexPair(a, b) == 16 * HexValue(a) + HexValue(b) <==> b < 'a' as int || HexValue(a) / 2 % 2 == 1
    ensures b >= 'a' as int && HexValue(a) / 2 % 2 == 0 ==> HexPair(a, b) == 16 * HexValue(a) + HexValue(b) + 32
  {
    hide OrWord, FromHex, HexValue;
    var x, d := HexValue(a), HexValue(b);
    FromHexIs(a);
    FromHexIs(b);
    if b < 'a' as int {
      OrOfDigits(x, d);
    } else {
      OrLowDigit(x, 2, d);
      OrTwo(x);
    }
  }

  /** What a text means by section 2.1 of RFC 3986, and with plus signs for spaces. */
  function Meant(s: seq<Byte>, i: nat): seq<Byte>
    requires i <= |s|
    decreases |s| - i
  {
    if i == |s| then []
    else if s[i] == '%' as int && i + 2 < |s| && IsHex(s[i + 1]) && IsHex(s[i + 2]) then
      [16 * HexValue(s[i + 1]) + HexValue(s[i + 2])] + Meant(s, i + 3)
    else [if s[i] == '+' as int then ' ' as int else s[i]] + Meant(s, i + 1)
  }

  /** An escape whose second digit is a small letter, and whose first digit is 0, 1, 4, 5, 8, 9, C or D. */
  predicate Misread(s: seq<Byte>, i: nat)
    requires i < |s|
  {
    PercentAt(s, i) && s[i + 2] >= 'a' as int && HexValue(s[i + 1]) / 2 % 2 == 0
  }

  lemma NoneInside(s: seq<Byte>, i: nat)
    requires i < |s| && PercentAt(s, i)
    ensures i + 2 < |s| && !Misread(s, i + 1) && !Misread(s, i + 2)
  {
    hide HexValue;
  }

  lemma FromNext(s: seq<Byte>, i: nat, j: nat)
    requires i < j <= |s| && forall k :: i < k < j ==> !Misread(s, k)
    ensures (forall k :: i <= k < |s| ==> !Misread(s, k)) <==>
      !Misread(s, i) && forall k :: j <= k < |s| ==> !Misread(s, k)
  {
    hide Misread;
  }

  lemma SameList(x: Byte, a: seq<Byte>, y: Byte, b: seq<Byte>)
    ensures [x] + a == [y] + b <==> x == y && a == b
  {
    assert ([x] + a)[0] == x && ([x] + a)[1..] == a;
    assert ([y] + b)[0] == y && ([y] + b)[1..] == b;
  }

  lemma MeantOne(s: seq<Byte>, i: nat)
    requires i < |s|
    ensures PercentAt(s, i) ==> Meant(s, i) == [16 * HexValue(s[i + 1]) + HexValue(s[i + 2])] + Meant(s, i + 3)
    ensures !PercentAt(s, i) ==> Meant(s, i) == [if s[i] == PLUS then SPACE else s[i]] + Meant(s, i + 1)
  {
    hide HexValue;
  }

  /** Every text, its escapes in either case, decodes to what it means exactly when it has no such escape. */
  lemma {:induction false} DecodedAsMeant(s: seq<Byte>, i: nat)
    requires i <= |s|
    ensures UrlDecodedFrom(s, i) == Meant(s, i) <==> forall k :: i <= k < |s| ==> !Misread(s, k)
    decreases |s| - i
  {
    hide HexPair, HexValue, Misread, UrlDecodedFrom, Meant, IsHex, PercentAt;
    if i == |s| {
      DecodeEnd(s);
      MeantEnd(s);
    } else {
      OneEscape(s, i);
      DecodeOne(s, i);
      MeantOne(s, i);
      var j := if PercentAt(s, i) then i + 3 else i + 1;
      if PercentAt(s, i) {
        NoneInside(s, i);
      }
      DecodedAsMeant(s, j);
      FromNext(s, i, j);
      SameList(UrlDecodedFrom(s, i)[0], UrlDecodedFrom(s, j), Meant(s, i)[0], Meant(s, j));
    }
  }

  lemma {:induction false} MeantEnd(s: seq<Byte>)
    ensures Meant(s, |s|) == []
  {
  }

  lemma OneEscape(s: seq<Byte>, i: nat)
    requires i < |s|
    ensures PercentAt(s, i) ==> i + 2 < |s| && IsHex(s[i + 1]) && IsHex(s[i + 2])
    ensures PercentAt(s, i) ==>
      (HexPair(s[i + 1], s[i + 2]) == 16 * HexValue(s[i + 1]) + HexValue(s[i + 2]) <==> !Misread(s, i))
    ensures !PercentAt(s, i) ==> !Misread(s, i)
  {
    hide HexPair;
    if PercentAt(s, i) {
      HexPairIs(s[i + 1], s[i + 2]);
    }
  }

  /** "%4f" is the letter O, but decodes to the small one. */
  lemma {:induction false} LowerCaseIsMisread()
    ensures UrlDecodedFrom(['%' as int, '4' as int, 'f' as int], 0) == ['o' as int]
    ensures 16 * HexValue('4' as int) + HexValue('f' as int) == 'O' as int
  {
    var s: seq<Byte> := ['%' as int, '4' as int, 'f' as int];
    hide HexPair;
    HexPairIs('4' as int, 'f' as int);
    assert PercentAt(s, 0);
    assert UrlDecodedFrom(s, 3) == [];
  }
}
