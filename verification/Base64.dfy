/** Base64 (section 4 of RFC 4648) with optional line breaks: common/inutil/inv_base64.cpp. */
module Base64 {
  import opened Bits
  import opened Bytes

  type Sextet = x: int | 0 <= x < 64

  const CR := '\r'
  const LF := '\n'
  const PAD := '='
  const NUL := '\0'

  /** EnBase64Tab. */
  function EnTab(x: Sextet): char {
    if x < 26 then 'A' + x as char
    else if x < 52 then 'a' + (x - 26) as char
    else if x < 62 then '0' + (x - 52) as char
    else if x == 62 then '+' else '/'
  }

  /** DeBase64Tab, which holds 0 for every character outside the alphabet. */
  function DeTab(c: char): Sextet {
    if 'A' <= c <= 'Z' then (c - 'A') as int
    else if 'a' <= c <= 'z' then (c - 'a') as int + 26
    else if '0' <= c <= '9' then (c - '0') as int + 52
    else if c == '+' then 62 else if c == '/' then 63 else 0
  }

  lemma TablesInverse(x: Sextet)
    ensures DeTab(EnTab(x)) == x
    ensures EnTab(x) !in [CR, LF, PAD, NUL]
  {
  }

  // ---------------------------------------------------------------- encoding

  /** The six-bit pieces of three bytes, as the source shifts and masks them. */
  function Six0(c1: Byte): Sextet {
    c1 / 4
  }

  function Six1(c1: Byte, c2: Byte): Sextet {
    OrWord((c1 as int) * 16, (c2 as int) / 16, 12) % 64
  }

  function Six2(c2: Byte, c3: Byte): Sextet {
    OrWord((c2 as int) * 4, (c3 as int) / 64, 10) % 64
  }

  function Six3(c3: Byte): Sextet {
    c3 % 64
  }

  lemma Powers()
    ensures Pow2(2) == 4 && Pow2(4) == 16 && Pow2(10) == 1024 && Pow2(12) == 4096
  {
    assert Pow2(6) == 64;
    assert Pow2(8) == 256;
  }

  lemma Six1Is(c1: Byte, c2: Byte)
    ensures Six1(c1, c2) == c1 % 4 * 16 + c2 / 16
  {
    hide OrWord, Pow2;
    Powers();
    OrIsSum(c1, c2 / 16, 4, 12);
    DivModUnique(16 * c1 + c2 / 16, 64, c1 / 4, c1 % 4 * 16 + c2 / 16);
  }

  lemma Six2Is(c2: Byte, c3: Byte)
    ensures Six2(c2, c3) == c2 % 16 * 4 + c3 / 64
  {
    hide OrWord, Pow2;
    Powers();
    OrIsSum(c2, c3 / 64, 2, 10);
    DivModUnique(4 * c2 + c3 / 64, 64, c2 / 16, c2 % 16 * 4 + c3 / 64);
  }

  /** The pieces hold the 24 bits of the bytes, most significant first. */
  lemma SixesHoldTheBits(c1: Byte, c2: Byte, c3: Byte)
    ensures 65536 * c1 + 256 * c2 + c3 ==
      262144 * Six0(c1) + 4096 * Six1(c1, c2) + 64 * Six2(c2, c3) + Six3(c3)
  {
    hide Six1, Six2;
    Six1Is(c1, c2);
    Six2Is(c2, c3);
  }

  function Quad(c1: Byte, c2: Byte, c3: Byte): (q: string)
    ensures |q| == 4
  {
    [EnTab(Six0(c1)), EnTab(Six1(c1, c2)), EnTab(Six2(c2, c3)), EnTab(Six3(c3))]
  }

  /** The last one or two bytes. */
  function Tail(src: seq<Byte>): (q: string)
    requires |src| < 3
    ensures |q| == if src == [] then 0 else 4
  {
    if src == [] then ""
    else if |src| == 1 then [EnTab(Six0(src[0])), EnTab(Six1(src[0], 0)), PAD, PAD]
    else [EnTab(Six0(src[0])), EnTab(Six1(src[0], src[1])), EnTab(Six2(src[1], 0)), PAD]
  }

  predicate Breaks(line: nat, wrap: bool) {
    wrap && line + 4 > 72
  }

  function EndOfLine(line: nat, wrap: bool): string {
    if Breaks(line, wrap) then [CR, LF] else ""
  }

  function NextLine(line: nat, wrap: bool): nat {
    if Breaks(line, wrap) then 0 else line + 4
  }

  /** The text of the bytes from i on, when `line` characters stand on the current line. */
  function EncodedFrom(src: seq<Byte>, i: nat, line: nat, wrap: bool): string
    requires i <= |src|
    decreases |src| - i
  {
    if |src| - i < 3 then Tail(src[i..])
    else
      Quad(src[i], src[i + 1], src[i + 2]) + EndOfLine(line, wrap)
      + EncodedFrom(src, i + 3, NextLine(line, wrap), wrap)
  }

  function Encoded(src: seq<Byte>, wrap: bool): string {
    EncodedFrom(src, 0, 0, wrap)
  }

  // ---------------------------------------------------------------- decoding

  /** The bytes of a group of four at p, and how many of its characters are consumed: padding is not. */
  datatype Group = Group(bytes: seq<Byte>, used: nat)

  function High(a: Sextet, b: Sextet): Byte {
    (a * 262144 + b * 4096) / 65536 % 256
  }

  function Middle(a: Sextet, b: Sextet, c: Sextet): Byte {
    (a * 262144 + b * 4096 + c * 64) / 256 % 256
  }

  function Low(a: Sextet, b: Sextet, c: Sextet, d: Sextet): Byte {
    (a * 262144 + b * 4096 + c * 64 + d) % 256
  }

  function GroupAt(s: string, p: nat): (g: Group)
    requires p + 4 <= |s|
    ensures 1 <= |g.bytes| <= 3 && g.used == |g.bytes| + 1
  {
    var a, b, c, d := DeTab(s[p]), DeTab(s[p + 1]), DeTab(s[p + 2]), DeTab(s[p + 3]);
    if s[p + 2] == PAD then Group([High(a, b)], 2)
    else if s[p + 3] == PAD then Group([High(a, b), Middle(a, b, c)], 3)
    else Group([High(a, b), Middle(a, b, c), Low(a, b, c, d)], 4)
  }

  /**
    What is decoded from position p on, with i characters counted as read: i runs ahead of p by
    the padding that was counted and not consumed.
   */
  function DecodedFrom(s: string, p: nat, i: nat): seq<Byte>
    requires p <= i <= |s|
    decreases |s| - i
  {
    if i == |s| then []
    else if s[p] == CR || s[p] == LF then DecodedFrom(s, p + 1, i + 1)
    else if i + 4 > |s| then []
    else
      var g := GroupAt(s, p);
      g.bytes + DecodedFrom(s, p + g.used, i + 4)
  }

  function Decoded(s: string): seq<Byte> {
    DecodedFrom(s, 0, 0)
  }

  // ---------------------------------------------------------------- round trip

  /** Regrouping pieces a, b and c, d and e, f of 6, 2 and 4, 4 and 2, 6 bits. */
  lemma RegroupHigh(a: nat, b: nat, c: nat)
    requires a < 64 && b < 4 && c < 16
    ensures High(a, 16 * b + c) == 4 * a + b
  {
    DivModUnique(a * 262144 + (16 * b + c) * 4096, 65536, 4 * a + b, 4096 * c);
  }

  lemma RegroupMiddle(a: nat, b: nat, c: nat, d: nat, e: nat)
    requires a < 64 && b < 4 && c < 16 && d < 16 && e < 4
    ensures Middle(a, 16 * b + c, 4 * d + e) == 16 * c + d
  {
    var y := 1024 * a + 256 * b + 16 * c + d;
    DivModUnique(a * 262144 + (16 * b + c) * 4096 + (4 * d + e) * 64, 256, y, 64 * e);
    DivModUnique(y, 256, 4 * a + b, 16 * c + d);
  }

  lemma RegroupLow(a: nat, b: nat, c: nat, d: nat, e: nat, f: nat)
    requires a < 64 && b < 4 && c < 16 && d < 16 && e < 4 && f < 64
    ensures Low(a, 16 * b + c, 4 * d + e, f) == 64 * e + f
  {
    var y := 1024 * a + 256 * b + 16 * c + d;
    DivModUnique(a * 262144 + (16 * b + c) * 4096 + (4 * d + e) * 64 + f, 256, y, 64 * e + f);
  }

  lemma SixesRegroup(c1: Byte, c2: Byte, c3: Byte)
    ensures High(Six0(c1), Six1(c1, c2)) == c1
    ensures Middle(Six0(c1), Six1(c1, c2), Six2(c2, c3)) == c2
    ensures Low(Six0(c1), Six1(c1, c2), Six2(c2, c3), Six3(c3)) == c3
  {
    hide Six1, Six2, High, Middle, Low;
    Six1Is(c1, c2);
    Six2Is(c2, c3);
    RegroupHigh(c1 / 4, c1 % 4, c2 / 16);
    RegroupMiddle(c1 / 4, c1 % 4, c2 / 16, c2 % 16, c3 / 64);
    RegroupLow(c1 / 4, c1 % 4, c2 / 16, c2 % 16, c3 / 64, c3 % 64);
  }

  lemma FourAt(s: string, p: nat, q: string)
    requires p + 4 <= |s| && s[p..p + 4] == q
    ensures s[p] == q[0] && s[p + 1] == q[1] && s[p + 2] == q[2] && s[p + 3] == q[3]
  {
  }

  lemma QuadDecodes(s: string, p: nat, c1: Byte, c2: Byte, c3: Byte)
    requires p + 4 <= |s| && s[p..p + 4] == Quad(c1, c2, c3)
    ensures GroupAt(s, p) == Group([c1, c2, c3], 4)
    ensures s[p] != CR && s[p] != LF
  {
    hide Six0, Six1, Six2, Six3, EnTab, DeTab, High, Middle, Low;
    FourAt(s, p, Quad(c1, c2, c3));
    SixesRegroup(c1, c2, c3);
    TablesInverse(Six0(c1));
    TablesInverse(Six1(c1, c2));
    TablesInverse(Six2(c2, c3));
    TablesInverse(Six3(c3));
  }

  lemma TailDecodes(s: string, p: nat, src: seq<Byte>)
    requires 1 <= |src| < 3 && p + 4 <= |s| && s[p..p + 4] == Tail(src)
    ensures GroupAt(s, p).bytes == src
    ensures s[p] != CR && s[p] != LF
  {
    hide Six0, Six1, Six2, EnTab, DeTab, High, Middle;
    FourAt(s, p, Tail(src));
    var c1, c2 := src[0], if |src| == 1 then 0 else src[1];
    SixesRegroup(c1, c2, 0);
    TablesInverse(Six0(c1));
    TablesInverse(Six1(c1, c2));
    TablesInverse(Six2(c2, 0));
  }

  lemma BreakDecodes(s: string, p: nat, line: nat, wrap: bool)
    requires p + |EndOfLine(line, wrap)| <= |s|
    requires s[p..p + |EndOfLine(line, wrap)|] == EndOfLine(line, wrap)
    ensures DecodedFrom(s, p, p) == DecodedFrom(s, p + |EndOfLine(line, wrap)|, p + |EndOfLine(line, wrap)|)
  {
    hide GroupAt;
    if Breaks(line, wrap) {
      assert s[p..p + 2] == [CR, LF];
      assert s[p] == CR && s[p + 1] == LF;
    }
  }

  lemma NextThree(src: seq<Byte>, i: nat)
    requires i + 3 <= |src|
    ensures src[i..] == [src[i], src[i + 1], src[i + 2]] + src[i + 3..]
  {
  }

  lemma {:induction false} TailDecodesBack(s: string, p: nat, src: seq<Byte>)
    requires p <= |s| && |src| < 3 && s[p..] == Tail(src)
    ensures DecodedFrom(s, p, p) == src
  {
    hide GroupAt, Tail;
    if src == [] {
      assert |s[p..]| == 0;
    } else {
      assert s[p..p + 4] == s[p..];
      TailDecodes(s, p, src);
      StepAt(s, p, p);
    }
  }

  lemma Cuts(s: string, p: nat, q: string, e: string, rest: string)
    requires p <= |s| && s[p..] == q + e + rest
    ensures p + |q| + |e| <= |s|
    ensures s[p..p + |q|] == q && s[p + |q|..p + |q| + |e|] == e && s[p + |q| + |e|..] == rest
  {
    var t := s[p..];
    assert s[p..p + |q|] == t[..|q|];
    assert s[p + |q|..p + |q| + |e|] == t[|q|..|q| + |e|];
    assert s[p + |q| + |e|..] == t[|q| + |e|..];
  }

  /** Where a group, the line break after it and the rest stand. */
  lemma CutsOfEncoded(s: string, p: nat, src: seq<Byte>, i: nat, line: nat, wrap: bool)
    requires p <= |s| && i + 3 <= |src| && s[p..] == EncodedFrom(src, i, line, wrap)
    ensures var e := EndOfLine(line, wrap);
      && p + 4 + |e| <= |s|
      && s[p..p + 4] == Quad(src[i], src[i + 1], src[i + 2])
      && s[p + 4..p + 4 + |e|] == e
      && s[p + 4 + |e|..] == EncodedFrom(src, i + 3, NextLine(line, wrap), wrap)
  {
    hide Quad, EndOfLine, NextLine;
    var q, e := Quad(src[i], src[i + 1], src[i + 2]), EndOfLine(line, wrap);
    Cuts(s, p, q, e, EncodedFrom(src, i + 3, NextLine(line, wrap), wrap));
  }

  /** A text that ends with the encoding of the bytes from i on decodes, from there, to these bytes. */
  lemma {:induction false} DecodesBack(s: string, p: nat, src: seq<Byte>, i: nat, line: nat, wrap: bool)
    requires p <= |s| && i <= |src| && s[p..] == EncodedFrom(src, i, line, wrap)
    ensures DecodedFrom(s, p, p) == src[i..]
    decreases |src| - i
  {
    if |src| - i < 3 {
      TailDecodesBack(s, p, src[i..]);
    } else {
      hide GroupAt, Quad, EndOfLine, NextLine, DecodedFrom, EncodedFrom;
      CutsOfEncoded(s, p, src, i, line, wrap);
      QuadDecodes(s, p, src[i], src[i + 1], src[i + 2]);
      StepAt(s, p, p);
      BreakDecodes(s, p + 4, line, wrap);
      DecodesBack(s, p + 4 + |EndOfLine(line, wrap)|, src, i + 3, NextLine(line, wrap), wrap);
      NextThree(src, i);
    }
  }

  /** Decoding undoes encoding, with line breaks and without. */
  lemma RoundTrip(src: seq<Byte>, wrap: bool)
    ensures Decoded(Encoded(src, wrap)) == src
  {
    var s := Encoded(src, wrap);
    assert s[0..] == s && src[0..] == src;
    DecodesBack(s, 0, src, 0, 0, wrap);
  }

  // ---------------------------------------------------------------- joined texts

  lemma CutsBefore(s: string, p: nat, src: seq<Byte>, i: nat, line: nat, wrap: bool, t: string)
    requires p <= |s| && i + 3 <= |src| && s[p..] == EncodedFrom(src, i, line, wrap) + t
    ensures var e := EndOfLine(line, wrap);
      && p + 4 + |e| <= |s|
      && s[p..p + 4] == Quad(src[i], src[i + 1], src[i + 2])
      && s[p + 4..p + 4 + |e|] == e
      && s[p + 4 + |e|..] == EncodedFrom(src, i + 3, NextLine(line, wrap), wrap) + t
  {
    hide Quad, EndOfLine, NextLine;
    var q, e := Quad(src[i], src[i + 1], src[i + 2]), EndOfLine(line, wrap);
    var rest := EncodedFrom(src, i + 3, NextLine(line, wrap), wrap);
    assert s[p..] == q + e + rest + t == q + e + (rest + t);
    Cuts(s, p, q, e, rest + t);
  }

  /** Where n bytes in whole groups are followed by more text, they are decoded first, and the rest by itself. */
  lemma {:induction false} DecodesFront(s: string, p: nat, src: seq<Byte>, i: nat, line: nat, wrap: bool, t: string)
    requires p <= |s| && i <= |src| && (|src| - i) % 3 == 0
    requires s[p..] == EncodedFrom(src, i, line, wrap) + t
    ensures |s| >= |t| && s[|s| - |t|..] == t
    ensures DecodedFrom(s, p, p) == src[i..] + DecodedFrom(s, |s| - |t|, |s| - |t|)
    decreases |src| - i
  {
    hide GroupAt, Quad, EndOfLine, NextLine, DecodedFrom, EncodedFrom;
    if i == |src| {
      EncodedTail(src, i, line, wrap);
      assert s[p..] == t && p == |s| - |t|;
      assert src[i..] == [];
    } else {
      CutsBefore(s, p, src, i, line, wrap, t);
      QuadDecodes(s, p, src[i], src[i + 1], src[i + 2]);
      StepAt(s, p, p);
      BreakDecodes(s, p + 4, line, wrap);
      DecodesFront(s, p + 4 + |EndOfLine(line, wrap)|, src, i + 3, NextLine(line, wrap), wrap, t);
      NextThree(src, i);
    }
  }

  lemma WholeGroupsJoin(a: seq<Byte>, b: seq<Byte>, wrap: bool)
    requires |a| % 3 == 0
    ensures Decoded(Encoded(a, wrap) + Encoded(b, wrap)) == a + b
  {
    hide EncodedFrom, DecodedFrom;
    var t := Encoded(b, wrap);
    var s := Encoded(a, wrap) + t;
    assert s[0..] == s && a[0..] == a && b[0..] == b;
    DecodesFront(s, 0, a, 0, 0, wrap, t);
    DecodesBack(s, |s| - |t|, b, 0, 0, wrap);
  }

  /** What is left over at the end, fewer than four characters, is dropped. */
  lemma IncompleteIsDropped(a: seq<Byte>, wrap: bool, t: string)
    requires |a| % 3 == 0 && |t| < 4 && (t != "" ==> !IsBreak(t[0]))
    ensures Decoded(Encoded(a, wrap) + t) == a
  {
    hide EncodedFrom, DecodedFrom;
    var s := Encoded(a, wrap) + t;
    assert s[0..] == s && a[0..] == a;
    DecodesFront(s, 0, a, 0, 0, wrap, t);
    assert t != "" ==> s[|s| - |t|..][0] == t[0];
    NothingLeft(s, |s| - |t|, |s| - |t|);
  }

  const ONES: seq<Byte> := [255, 255, 255]

  lemma OnesText(wrap: bool)
    ensures Encoded(ONES, wrap) == "////"
  {
    hide Six1, Six2;
    EncodedStep(ONES, 0, 0, wrap);
    EncodedTail(ONES, 3, 4, wrap);
    Six1Is(255, 255);
    Six2Is(255, 255);
  }

  lemma GroupOfPadding(s: string, u: nat)
    requires u + 4 <= |s| && s[u] == PAD && s[u + 1] in [PAD, '/'] && s[u + 2] == s[u + 3] == '/'
    ensures var g := GroupAt(s, u); |g.bytes| == 3 && g.used == 4 && g.bytes[0] != 255
  {
    hide Middle, Low;
  }

  /** After padding the padding itself is read as the beginning of the next group. */
  lemma {:induction false} PaddingIsReread(s: string, p: nat, src: seq<Byte>)
    requires 1 <= |src| < 3 && p + 8 == |s| && s[p..] == Tail(src) + "////"
    ensures var d := DecodedFrom(s, p, p); |d| == |src| + 3 && d[|src|] != 255
  {
    hide Six0, Six1, Six2, EnTab, GroupAt, DecodedFrom;
    var q := Tail(src);
    assert s[p..p + 4] == (q + "////")[..4] == q;
    TailDecodes(s, p, src);
    FourAt(s, p, q);
    var u := p + GroupAt(s, p).used;
    assert s[p + 4] == s[p..][4] == '/' && s[p + 5] == s[p..][5] == '/' && s[p + 6] == s[p..][6] == '/';
    StepAt(s, p, p);
    assert s[p + 7] == s[p..][7] == '/';
    GroupOfPadding(s, u);
    StepAt(s, u, p + 4);
    NothingLeft(s, u + 4, p + 8);
  }

  lemma {:induction false} SpoiltFrom(s: string, p: nat, src: seq<Byte>, i: nat, line: nat, wrap: bool)
    requires p <= |s| && i <= |src| && (|src| - i) % 3 != 0
    requires s[p..] == EncodedFrom(src, i, line, wrap) + "////"
    ensures var d := DecodedFrom(s, p, p); |d| == |src| - i + 3 && d[|src| - i] != 255
    decreases |src| - i
  {
    hide GroupAt, Quad, Tail, EndOfLine, NextLine, DecodedFrom, EncodedFrom;
    if |src| - i < 3 {
      EncodedTail(src, i, line, wrap);
      PaddingIsReread(s, p, src[i..]);
    } else {
      CutsBefore(s, p, src, i, line, wrap, "////");
      QuadDecodes(s, p, src[i], src[i + 1], src[i + 2]);
      StepAt(s, p, p);
      BreakDecodes(s, p + 4, line, wrap);
      SpoiltFrom(s, p + 4 + |EndOfLine(line, wrap)|, src, i + 3, NextLine(line, wrap), wrap);
    }
  }

  lemma {:induction false} PaddedDoNotJoin(a: seq<Byte>, wrap: bool)
    requires |a| % 3 != 0
    ensures Decoded(Encoded(a, wrap) + Encoded(ONES, wrap)) != a + ONES
  {
    hide EncodedFrom, DecodedFrom;
    OnesText(wrap);
    var s := Encoded(a, wrap) + "////";
    assert s[0..] == s;
    SpoiltFrom(s, 0, a, 0, 0, wrap);
    assert (a + ONES)[|a|] == 255;
  }

  /** Two texts put together decode to the bytes of both, for every second one, exactly if the first has no padding. */
  lemma TextsJoin(a: seq<Byte>, wrap: bool)
    ensures (forall b :: Decoded(Encoded(a, wrap) + Encoded(b, wrap)) == a + b) <==> |a| % 3 == 0
  {
    hide EncodedFrom, DecodedFrom;
    if |a| % 3 == 0 {
      forall b ensures Decoded(Encoded(a, wrap) + Encoded(b, wrap)) == a + b {
        WholeGroupsJoin(a, b, wrap);
      }
    } else {
      PaddedDoNotJoin(a, wrap);
    }
  }

  // ---------------------------------------------------------------- shape of the text

  predicate IsBreak(c: char) {
    c == CR || c == LF
  }

  function Visible(c: char): string {
    if IsBreak(c) then "" else [c]
  }

  function Stripped(s: string): string {
    if s == "" then "" else Visible(s[0]) + Stripped(s[1..])
  }

  lemma {:induction false} StrippedOne(c: char, rest: string)
    ensures Stripped([c] + rest) == Visible(c) + Stripped(rest)
  {
    assert ([c] + rest)[1..] == rest;
  }

  lemma Peel(a: string, b: string)
    requires a != ""
    ensures a + b == [a[0]] + (a[1..] + b) && a == [a[0]] + a[1..]
  {
  }

  lemma {:induction false} StrippedConcat(a: string, b: string)
    ensures Stripped(a + b) == Stripped(a) + Stripped(b)
  {
    if a == "" {
      assert a + b == b;
    } else {
      hide Visible;
      StrippedOne(a[0], a[1..] + b);
      StrippedOne(a[0], a[1..]);
      hide Stripped;
      StrippedConcat(a[1..], b);
      Peel(a, b);
    }
  }

  ghost predicate Unbroken(s: string) {
    forall k :: 0 <= k < |s| ==> !IsBreak(s[k])
  }

  lemma {:induction false} StrippedUnbroken(s: string)
    requires Unbroken(s)
    ensures Stripped(s) == s
  {
    if s != "" {
      StrippedUnbroken(s[1..]);
      assert s == [s[0]] + s[1..];
    }
  }

  lemma PiecesUnbroken(c1: Byte, c2: Byte, c3: Byte, src: seq<Byte>)
    requires |src| < 3
    ensures Unbroken(Quad(c1, c2, c3)) && Unbroken(Tail(src))
  {
    hide Six0, Six1, Six2, Six3;
  }

  lemma StrippedEndOfLine(line: nat, wrap: bool)
    ensures Stripped(EndOfLine(line, wrap)) == ""
  {
    if Breaks(line, wrap) {
      StrippedOne(CR, [LF]);
      StrippedOne(LF, "");
      assert [CR] + [LF] == [CR, LF] && [LF] + "" == [LF];
    }
  }

  /** Line breaks are all that wrapping adds. */
  lemma {:induction false} WrappingAddsBreaksOnly(src: seq<Byte>, i: nat, line: nat, plain: nat, wrap: bool)
    requires i <= |src|
    ensures Stripped(EncodedFrom(src, i, line, wrap)) == EncodedFrom(src, i, plain, false)
    decreases |src| - i
  {
    hide Quad, Tail, EndOfLine, Stripped, Unbroken;
    if |src| - i < 3 {
      PiecesUnbroken(0, 0, 0, src[i..]);
      StrippedUnbroken(Tail(src[i..]));
    } else {
      var q, e := Quad(src[i], src[i + 1], src[i + 2]), EndOfLine(line, wrap);
      var rest := EncodedFrom(src, i + 3, NextLine(line, wrap), wrap);
      PiecesUnbroken(src[i], src[i + 1], src[i + 2], []);
      StrippedUnbroken(q);
      StrippedConcat(q + e, rest);
      StrippedConcat(q, e);
      StrippedEndOfLine(line, wrap);
      NoEndOfLine(plain);
      WrappingAddsBreaksOnly(src, i + 3, NextLine(line, wrap), NextLine(plain, false), wrap);
    }
  }

  lemma NoEndOfLine(line: nat)
    ensures EndOfLine(line, false) == ""
  {
  }

  const LONGEST: nat := 76

  /** Scanning the text, no line grows beyond the longest allowed; `line` characters stand before it. */
  predicate Fits(s: string, line: nat)
    decreases |s|
  {
    if s == "" then true
    else if IsBreak(s[0]) then Fits(s[1..], 0)
    else line < LONGEST && Fits(s[1..], line + 1)
  }

  lemma {:induction false} FitsAfter(q: string, rest: string, line: nat)
    requires Unbroken(q) && line + |q| <= LONGEST && Fits(rest, line + |q|)
    ensures Fits(q + rest, line)
  {
    if q == "" {
      assert q + rest == rest;
    } else {
      assert (q + rest)[1..] == q[1..] + rest;
      assert Unbroken(q[1..]);
      FitsAfter(q[1..], rest, line + 1);
    }
  }

  lemma {:induction false} FitsNextLine(rest: string, line: nat)
    requires line <= 72 && Fits(rest, NextLine(line, true))
    ensures Fits(EndOfLine(line, true) + rest, line + 4)
  {
    var e := EndOfLine(line, true);
    if Breaks(line, true) {
      assert (e + rest)[1..] == [LF] + rest;
      assert ([LF] + rest)[1..] == rest;
    } else {
      assert e + rest == rest;
    }
  }

  lemma {:induction false} EncodedFits(src: seq<Byte>, i: nat, line: nat)
    requires i <= |src| && line <= 72 && line % 4 == 0
    ensures Fits(EncodedFrom(src, i, line, true), line)
    decreases |src| - i
  {
    hide Fits, Quad, Tail, Unbroken, EndOfLine;
    if |src| - i < 3 {
      var q := Tail(src[i..]);
      PiecesUnbroken(0, 0, 0, src[i..]);
      FitsNothing(line + |q|);
      FitsAfter(q, "", line);
      assert q + "" == q;
    } else {
      var q := Quad(src[i], src[i + 1], src[i + 2]);
      var rest := EncodedFrom(src, i + 3, NextLine(line, true), true);
      PiecesUnbroken(src[i], src[i + 1], src[i + 2], []);
      EncodedFits(src, i + 3, NextLine(line, true));
      FitsNextLine(rest, line);
      FitsAfter(q, EndOfLine(line, true) + rest, line);
      assert q + (EndOfLine(line, true) + rest) == q + EndOfLine(line, true) + rest;
    }
  }

  lemma {:induction false} FitsNothing(line: nat)
    ensures Fits("", line)
  {
  }

  lemma {:induction false} FitsFront(s: string, line: nat, b: nat)
    requires Fits(s, line) && b <= |s| && forall k :: 0 <= k < b ==> !IsBreak(s[k])
    ensures b > 0 ==> line + b <= LONGEST
  {
    if b > 0 {
      assert !IsBreak(s[0]);
      FitsFront(s[1..], line + 1, b - 1);
    }
  }

  lemma {:induction false} FitsTail(s: string, line: nat, a: nat)
    requires Fits(s, line) && a <= |s|
    ensures exists rest: nat :: Fits(s[a..], rest)
  {
    if a == 0 {
      assert s[0..] == s;
    } else {
      FitsTail(s[1..], if IsBreak(s[0]) then 0 else line + 1, a - 1);
      assert s[1..][a - 1..] == s[a..];
    }
  }

  /** Wrapped text has no line longer than 76 characters (section 6.8 of RFC 2045). */
  lemma LinesAreShort(src: seq<Byte>, a: nat, b: nat)
    requires a <= b <= |Encoded(src, true)| && Unbroken(Encoded(src, true)[a..b])
    ensures b - a <= LONGEST
  {
    hide EncodedFrom, Fits;
    EncodedFits(src, 0, 0);
    var s := Encoded(src, true);
    FitsTail(s, 0, a);
    var line: nat :| Fits(s[a..], line);
    assert s[a..][..b - a] == s[a..b];
    FitsFront(s[a..], line, b - a);
  }

  // ---------------------------------------------------------------- the text character by character

  const UPPER := "ABCDEFGHIJKLMNOPQRSTUVWXYZ"
  const LOWER := "abcdefghijklmnopqrstuvwxyz"
  const ALPHABET := UPPER + LOWER + "0123456789+/"

  lemma UpperCase(x: nat)
    requires x < 26
    ensures 'A' + x as char == UPPER[x]
  {
  }

  lemma LowerCase(x: nat)
    requires x < 26
    ensures 'a' + x as char == LOWER[x]
  {
  }

  lemma EnTabIsAlphabet(x: Sextet)
    ensures |ALPHABET| == 64 && EnTab(x) == ALPHABET[x]
  {
    if x < 26 {
      UpperCase(x);
    } else if x < 52 {
      LowerCase(x - 26);
    }
  }

  /** Characters outside the alphabet decode like an A. */
  lemma DeTabIsAlphabet(c: char)
    ensures c !in ALPHABET ==> DeTab(c) == 0
    ensures forall x: Sextet :: c == ALPHABET[x] ==> DeTab(c) == x
  {
    if c !in ALPHABET && 'A' <= c <= 'Z' {
      UpperCase(c as int - 'A' as int);
    }
    if c !in ALPHABET && 'a' <= c <= 'z' {
      LowerCase(c as int - 'a' as int);
    }
    if c !in ALPHABET {
      assert !('0' <= c <= '9') && c != '+' && c != '/';
    }
    forall x: Sextet | c == ALPHABET[x] ensures DeTab(c) == x {
      EnTabIsAlphabet(x);
      TablesInverse(x);
    }
  }

  /** What the four characters of a group are worth. */
  const UNITS: seq<int> := [262144, 4096, 64, 1]

  function ByteOrZero(src: seq<Byte>, i: nat): Byte {
    if i < |src| then src[i] else 0
  }

  function GroupValue(src: seq<Byte>, i: nat): nat {
    65536 * ByteOrZero(src, i) + 256 * ByteOrZero(src, i + 1) + ByteOrZero(src, i + 2)
  }

  /** Character j of the group that begins at byte i, when it is not padding. */
  function CharacterOf(src: seq<Byte>, i: nat, j: nat): char
    requires j < 4
  {
    EnTab(GroupValue(src, i) / UNITS[j] % 64)
  }

  lemma DigitsOf(v: nat, a: nat, b: nat, c: nat, d: nat)
    requires a < 64 && b < 64 && c < 64 && d < 64 && v == 262144 * a + 4096 * b + 64 * c + d
    ensures v / 262144 % 64 == a && v / 4096 % 64 == b && v / 64 % 64 == c && v / 1 % 64 == d
  {
    assert v / 64 == 4096 * a + 64 * b + c;
    assert v / 4096 == 64 * a + b;
  }

  /** The pieces of a group are its digits. */
  lemma PiecesAre(v: nat, a: Byte, b: Byte, c: Byte)
    requires v == 65536 * a + 256 * b + c
    ensures v / 262144 % 64 == Six0(a) && v / 4096 % 64 == Six1(a, b)
    ensures v / 64 % 64 == Six2(b, c) && v / 1 % 64 == Six3(c)
  {
    hide Six0, Six1, Six2, Six3;
    SixesHoldTheBits(a, b, c);
    DigitsOf(v, Six0(a), Six1(a, b), Six2(b, c), Six3(c));
  }

  lemma QuadAt(src: seq<Byte>, i: nat)
    ensures var a, b, c := ByteOrZero(src, i), ByteOrZero(src, i + 1), ByteOrZero(src, i + 2);
      [EnTab(Six0(a)), EnTab(Six1(a, b)), EnTab(Six2(b, c)), EnTab(Six3(c))] ==
        [CharacterOf(src, i, 0), CharacterOf(src, i, 1), CharacterOf(src, i, 2), CharacterOf(src, i, 3)]
  {
    hide Six0, Six1, Six2, Six3, EnTab, ByteOrZero;
    PiecesAre(GroupValue(src, i), ByteOrZero(src, i), ByteOrZero(src, i + 1), ByteOrZero(src, i + 2));
  }

  lemma TailAt(src: seq<Byte>, i: nat, j: nat)
    requires i < |src| < i + 3 && j < 4
    ensures Tail(src[i..])[j] == if i + j > |src| then PAD else CharacterOf(src, i, j)
  {
    hide Six0, Six1, Six2, Six3, EnTab, CharacterOf;
    QuadAt(src, i);
  }

  lemma {:induction false} PlainFrom(src: seq<Byte>, i: nat, line: nat, k: nat)
    requires i <= |src| && k < 4 * ((|src| - i + 2) / 3)
    ensures var t, g := EncodedFrom(src, i, line, false), i + k / 4 * 3;
      && |t| == 4 * ((|src| - i + 2) / 3)
      && t[k] == if g + k % 4 > |src| then PAD else CharacterOf(src, g, k % 4)
    decreases |src| - i
  {
    hide Quad, Tail, EncodedFrom, CharacterOf, EndOfLine;
    if |src| - i < 3 {
      EncodedTail(src, i, line, false);
      TailAt(src, i, k);
    } else {
      EncodedStep(src, i, line, false);
      NoEndOfLine(line);
      QuadIs(src, i);
      if k >= 4 {
        PlainFrom(src, i + 3, NextLine(line, false), k - 4);
        assert (k - 4) / 4 == k / 4 - 1 && (k - 4) % 4 == k % 4;
      } else if |src| - i - 3 > 0 {
        PlainFrom(src, i + 3, NextLine(line, false), 0);
      } else {
        EncodedTail(src, i + 3, NextLine(line, false), false);
      }
    }
  }

  lemma QuadIs(src: seq<Byte>, i: nat)
    requires i + 3 <= |src|
    ensures forall j :: 0 <= j < 4 ==> Quad(src[i], src[i + 1], src[i + 2])[j] == CharacterOf(src, i, j)
  {
    hide Six0, Six1, Six2, Six3, EnTab, CharacterOf;
    QuadAt(src, i);
  }

  /**
    Three bytes are four characters: the base-64 digits of the bytes read as one number, the
    highest first, missing bytes as zero, and an equals sign for each byte that is missing.
   */
  lemma {:induction false} PlainText(src: seq<Byte>, k: nat)
    requires k < 4 * ((|src| + 2) / 3)
    ensures var t, i, j := Encoded(src, false), k / 4 * 3, k % 4;
      && |t| == 4 * ((|src| + 2) / 3)
      && t[k] == if i + j > |src| then '=' else ALPHABET[GroupValue(src, i) / UNITS[j] % 64]
  {
    hide EncodedFrom, EnTab;
    PlainFrom(src, 0, 0, k);
    EnTabIsAlphabet(GroupValue(src, k / 4 * 3) / UNITS[k % 4] % 64);
  }

  lemma {:induction false} EncodedSuffix(src: seq<Byte>, a: nat, i: nat, line: nat, wrap: bool)
    requires a + i <= |src|
    ensures EncodedFrom(src, a + i, line, wrap) == EncodedFrom(src[a..], i, line, wrap)
    decreases |src| - i
  {
    hide Quad, Tail, EndOfLine, EncodedFrom;
    var rest := src[a..];
    if |src| - (a + i) < 3 {
      EncodedTail(src, a + i, line, wrap);
      EncodedTail(rest, i, line, wrap);
      assert rest[i..] == src[a + i..];
    } else {
      EncodedStep(src, a + i, line, wrap);
      EncodedStep(rest, i, line, wrap);
      EncodedSuffix(src, a, i + 3, NextLine(line, wrap), wrap);
    }
  }

  /** One group in front of the rest. */
  lemma FirstGroup(src: seq<Byte>, line: nat, wrap: bool)
    requires |src| >= 3
    ensures EncodedFrom(src, 0, line, wrap) ==
      Quad(src[0], src[1], src[2]) + EndOfLine(line, wrap) + EncodedFrom(src[3..], 0, NextLine(line, wrap), wrap)
  {
    hide Quad, EndOfLine, EncodedFrom;
    EncodedStep(src, 0, line, wrap);
    EncodedSuffix(src, 3, 0, NextLine(line, wrap), wrap);
  }

  lemma {:induction false} PlainLine(src: seq<Byte>, line: nat)
    ensures EncodedFrom(src, 0, line, false) == Encoded(src, false)
    decreases |src|
  {
    hide Quad, Tail, EndOfLine, EncodedFrom;
    if |src| < 3 {
      EncodedTail(src, 0, line, false);
      EncodedTail(src, 0, 0, false);
    } else {
      FirstGroup(src, line, false);
      FirstGroup(src, 0, false);
      NoEndOfLine(line);
      NoEndOfLine(0);
      PlainLine(src[3..], NextLine(line, false));
      PlainLine(src[3..], NextLine(0, false));
    }
  }

  lemma Slices(src: seq<Byte>, m: nat)
    requires 3 <= m <= |src|
    ensures src[3..][..m - 3] == src[..m][3..] && src[3..][m - 3..] == src[m..]
  {
  }

  lemma {:induction false} RestOfLine(src: seq<Byte>, m: nat)
    requires 1 <= m <= 19
    ensures EncodedFrom(src, 0, 76 - 4 * m, true) ==
      if |src| < 3 * m then Encoded(src, false)
      else Encoded(src[..3 * m], false) + [CR, LF] + Encoded(src[3 * m..], true)
    decreases m
  {
    hide Quad, Tail, EncodedFrom;
    var line := 76 - 4 * m;
    if |src| < 3 {
      EncodedTail(src, 0, line, true);
      EncodedTail(src, 0, 0, false);
    } else {
      FirstGroup(src, line, true);
      FirstGroup(src, 0, false);
      PlainLine(src[3..], NextLine(0, false));
      NoEndOfLine(0);
      if m > 1 {
        RestOfLine(src[3..], m - 1);
      }
      if |src| >= 3 * m {
        LineSteps(src, m);
      }
    }
  }

  lemma LineSteps(src: seq<Byte>, m: nat)
    requires 1 <= m && 3 * m <= |src|
    ensures Encoded(src[..3 * m], false) == Quad(src[0], src[1], src[2]) + Encoded(src[3..][..3 * m - 3], false)
    ensures src[3..][3 * m - 3..] == src[3 * m..]
    ensures Encoded([], false) == ""
  {
    hide Quad, EncodedFrom;
    FirstGroup(src[..3 * m], 0, false);
    NoEndOfLine(0);
    PlainLine(src[..3 * m][3..], NextLine(0, false));
    Slices(src, 3 * m);
    EncodedTail([], 0, 0, false);
  }

  /** Wrapped text is one line for every 57 bytes, each ended by CR LF, and what is left over. */
  lemma WrappedText(src: seq<Byte>)
    ensures Encoded(src, true) ==
      if |src| < 57 then Encoded(src, false)
      else Encoded(src[..57], false) + "\r\n" + Encoded(src[57..], true)
  {
    hide EncodedFrom;
    RestOfLine(src, 19);
  }

  // ---------------------------------------------------------------- buffer sizes

  /** At most this many characters stand for n bytes, when a line has `line` characters already. */
  function LengthBound(n: nat, line: nat, wrap: bool): nat {
    4 * ((n + 2) / 3) + (if wrap then 2 * ((line / 4 + n / 3) / 19) else 0)
  }

  lemma BoundStep(n: nat, line: nat, wrap: bool)
    requires n >= 3 && (wrap ==> line <= 72 && line % 4 == 0)
    ensures LengthBound(n, line, wrap) ==
      4 + |EndOfLine(line, wrap)| + LengthBound(n - 3, NextLine(line, wrap), wrap)
    ensures wrap ==> NextLine(line, wrap) <= 72 && NextLine(line, wrap) % 4 == 0
  {
    assert (n + 2) / 3 == 1 + (n - 3 + 2) / 3;
    assert n / 3 == 1 + (n - 3) / 3;
    if wrap {
      if line == 72 {
        assert (18 + n / 3) / 19 == 1 + (n / 3 - 1) / 19;
      } else {
        assert line + 4 <= 72;
        assert (line + 4) / 4 == line / 4 + 1;
      }
    }
  }

  lemma LengthStep(src: seq<Byte>, i: nat, line: nat, wrap: bool)
    requires i + 3 <= |src|
    ensures |EncodedFrom(src, i, line, wrap)| ==
      4 + |EndOfLine(line, wrap)| + |EncodedFrom(src, i + 3, NextLine(line, wrap), wrap)|
  {
    hide Quad, Tail, EndOfLine, NextLine;
  }

  lemma {:induction false} EncodedLength(src: seq<Byte>, i: nat, line: nat, wrap: bool)
    requires i <= |src| && (wrap ==> line <= 72 && line % 4 == 0)
    ensures |EncodedFrom(src, i, line, wrap)| <= LengthBound(|src| - i, line, wrap)
    decreases |src| - i
  {
    if |src| - i >= 3 {
      hide Quad, Tail, EndOfLine, NextLine, LengthBound, EncodedFrom;
      LengthStep(src, i, line, wrap);
      BoundStep(|src| - i, line, wrap);
      EncodedLength(src, i + 3, NextLine(line, wrap), wrap);
    } else {
      hide EncodedFrom, Tail, LengthBound;
      EncodedTail(src, i, line, wrap);
      BoundLow(|src| - i, line, wrap);
    }
  }

  lemma BoundLow(n: nat, line: nat, wrap: bool)
    requires n < 3
    ensures LengthBound(n, line, wrap) >= if n == 0 then 0 else 4
  {
    assert (n + 2) / 3 == if n == 0 then 0 else 1;
    assert (line / 4 + n / 3) / 19 >= 0;
  }

  /**
    The sizes (int)(n * 1.4) + 6 can have: the double nearest to 1.4 is below it, so a product that should be a whole
    number can come out just below that number.
   */
  predicate IsBufferSize(n: nat, size: nat) {
    size == n * 14 / 10 + 6 || (n % 5 == 0 && size == n * 14 / 10 + 5)
  }

  lemma EncodedFitsBuffer(src: seq<Byte>, wrap: bool, size: nat)
    requires IsBufferSize(|src|, size)
    ensures |Encoded(src, wrap)| + 1 <= size
  {
    hide EncodedFrom;
    EncodedLength(src, 0, 0, wrap);
    BufferIsEnough(|src|);
  }

  lemma BufferIsEnough(n: nat)
    ensures 4 * ((n + 2) / 3) + 2 * (n / 3 / 19) + 2 <= n * 14 / 10 + 6
  {
    var a, b := (n + 2) / 3, n / 3 / 19;
    assert 3 * a <= n + 2 && 57 * b <= n;
    assert 570 * (4 * a + 2 * b) <= 760 * (n + 2) + 20 * n;
  }

  // ---------------------------------------------------------------- the loops

  /** The buffer is as it was from position p on. */
  ghost predicate Untouched<T>(now: seq<T>, before: seq<T>, p: nat) {
    |now| == |before| && forall k :: p <= k < |now| ==> now[k] == before[k]
  }

  method Put4(dst: array<char>, p: nat, q: string)
    requires |q| == 4 && p + 4 <= dst.Length
    modifies dst
    ensures dst[..p + 4] == old(dst[..p]) + q
    ensures Untouched(dst[..], old(dst[..]), p + 4)
  {
    dst[p] := q[0];
    dst[p + 1] := q[1];
    dst[p + 2] := q[2];
    dst[p + 3] := q[3];
  }

  method Put2(dst: array<char>, p: nat)
    requires p + 2 <= dst.Length
    modifies dst
    ensures dst[..p + 2] == old(dst[..p]) + [CR, LF]
    ensures Untouched(dst[..], old(dst[..]), p + 2)
  {
    dst[p] := CR;
    dst[p + 1] := LF;
  }

  /** Writes the text and a terminating zero, and nothing behind it. */
  method EncodeInto(src: seq<Byte>, dst: array<char>, wrap: bool) returns (len: nat)
    requires dst.Length >= |Encoded(src, wrap)| + 1
    modifies dst
    ensures len == |Encoded(src, wrap)|
    ensures dst[..len] == Encoded(src, wrap) && dst[len] == NUL
    ensures Untouched(dst[..], old(dst[..]), len + 1)
  {
    hide Quad, Tail, EncodedFrom;
    len := 0;
    var line := 0;
    var div := |src| / 3;
    ghost var text := "";
    for i := 0 to div
      invariant len <= dst.Length && dst[..len] == text
      invariant text + EncodedFrom(src, 3 * i, line, wrap) == Encoded(src, wrap)
      invariant Untouched(dst[..], old(dst[..]), len)
    {
      EncodedStep(src, 3 * i, line, wrap);
      ghost var rest := EncodedFrom(src, 3 * i + 3, NextLine(line, wrap), wrap);
      ghost var q, e := Quad(src[3 * i], src[3 * i + 1], src[3 * i + 2]), EndOfLine(line, wrap);
      Reassociate(text, q, e, rest);
      Put4(dst, len, Quad(src[3 * i], src[3 * i + 1], src[3 * i + 2]));
      line := line + 4;
      len := len + 4;
      text := text + q;
      if wrap && line > 72 {
        Put2(dst, len);
        line := 0;
        len := len + 2;
        text := text + e;
      }
    }
    EncodedTail(src, 3 * div, line, wrap);
    if |src| % 3 != 0 {
      Put4(dst, len, Tail(src[3 * div..]));
      len := len + 4;
    }
    dst[len] := NUL;
  }

  lemma Reassociate(a: string, q: string, e: string, rest: string)
    ensures a + (q + e + rest) == a + q + e + rest
    ensures e == "" ==> a + (q + e + rest) == a + q + rest
  {
  }

  lemma EncodedStep(src: seq<Byte>, i: nat, line: nat, wrap: bool)
    requires i + 3 <= |src|
    ensures EncodedFrom(src, i, line, wrap) ==
      Quad(src[i], src[i + 1], src[i + 2]) + EndOfLine(line, wrap)
      + EncodedFrom(src, i + 3, NextLine(line, wrap), wrap)
  {
  }

  lemma {:induction false} EncodedTail(src: seq<Byte>, i: nat, line: nat, wrap: bool)
    requires i <= |src| < i + 3
    ensures EncodedFrom(src, i, line, wrap) == Tail(src[i..])
    ensures |Tail(src[i..])| == if i == |src| then 0 else 4
  {
  }

  method Encode(data: seq<Byte>, wrap: bool, iBufSize: nat) returns (text: string)
    requires IsBufferSize(|data|, iBufSize)
    ensures text == Encoded(data, wrap)
    ensures Decoded(text) == data
  {
    RoundTrip(data, wrap);
    if data == [] {
      return "";
    }
    EncodedFitsBuffer(data, wrap, iBufSize);
    var dst := new char[iBufSize];
    var len := EncodeInto(data, dst, wrap);
    return dst[..len];
  }

  method PutBytes(dst: array<Byte>, p: nat, bytes: seq<Byte>)
    requires 1 <= |bytes| <= 3 && p + |bytes| <= dst.Length
    modifies dst
    ensures dst[..p + |bytes|] == old(dst[..p]) + bytes
    ensures Untouched(dst[..], old(dst[..]), p + |bytes|)
  {
    dst[p] := bytes[0];
    if |bytes| > 1 {
      dst[p + 1] := bytes[1];
    }
    if |bytes| > 2 {
      dst[p + 2] := bytes[2];
    }
  }

  /**
    Whatever the text, as long as its characters are inside the decoding table, the bytes and the
    terminating zero fit in as many places as the text has characters.
   */
  method DecodeInto(s: string, dst: array<Byte>) returns (len: nat)
    requires s != "" && dst.Length >= |s| && forall k :: 0 <= k < |s| ==> s[k] < 128 as char
    modifies dst
    ensures len < |s|
    ensures len == |Decoded(s)| && dst[..len] == Decoded(s) && dst[len] == 0
    ensures Untouched(dst[..], old(dst[..]), len + 1)
  {
    hide GroupAt, DecodedFrom;
    len := 0;
    var p: nat, i: nat := 0, 0;
    ghost var bytes: seq<Byte> := [];
    while i < |s|
      invariant p <= i <= |s| && 4 * len <= 3 * i
      invariant len <= dst.Length && dst[..len] == bytes
      invariant bytes + DecodedFrom(s, p, i) == Decoded(s)
      invariant Untouched(dst[..], old(dst[..]), len)
    {
      StepAt(s, p, i);
      if s[p] != CR && s[p] != LF {
        if i + 4 > |s| {
          break;
        }
        var g := GroupAt(s, p);
        PutBytes(dst, len, g.bytes);
        bytes := bytes + g.bytes;
        len := len + |g.bytes|;
        p := p + g.used;
        i := i + 4;
      } else {
        p := p + 1;
        i := i + 1;
      }
    }
    NothingLeft(s, p, i);
    dst[len] := 0;
  }

  lemma StepAt(s: string, p: nat, i: nat)
    requires p <= i < |s|
    ensures var c := s[p];
      DecodedFrom(s, p, i) ==
        if c == CR || c == LF then DecodedFrom(s, p + 1, i + 1)
        else if i + 4 > |s| then []
        else GroupAt(s, p).bytes + DecodedFrom(s, p + GroupAt(s, p).used, i + 4)
  {
    hide GroupAt;
  }

  lemma {:induction false} NothingLeft(s: string, p: nat, i: nat)
    requires p <= i <= |s| && (i < |s| ==> s[p] != CR && s[p] != LF && i + 4 > |s|)
    ensures DecodedFrom(s, p, i) == []
  {
  }

  method Decode(text: string) returns (data: seq<Byte>)
    requires forall k :: 0 <= k < |text| ==> text[k] < 128 as char
    ensures data == Decoded(text)
  {
    if text == "" {
      return [];
    }
    var dst := new Byte[|text|];
    var len := DecodeInto(text, dst);
    return dst[..len];
  }
}
