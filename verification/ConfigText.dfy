/** Parameter lines of a configuration file: common/inutil/inv_config.cpp. */
module ConfigText {
  import opened Options

  const BACKSLASH := '\\'

  // ---------------------------------------------------------------- escapes

  /** What reverse_parse writes for a character; it throws for the two it cannot write. */
  function EscapeChar(c: char): Option<string> {
    if c == BACKSLASH then Some([BACKSLASH, BACKSLASH])
    else if c == '\r' then Some([BACKSLASH, 'r'])
    else if c == '\n' then Some([BACKSLASH, 'n'])
    else if c == '\t' then Some([BACKSLASH, 't'])
    else if c == '=' then Some([BACKSLASH, '='])
    else if c == '<' || c == '>' then None
    else Some([c])
  }

  /** What parse reads for the character after a backslash; it throws for all others. */
  function EscapeCode(c: char): Option<char> {
    if c == BACKSLASH then Some(BACKSLASH)
    else if c == 'r' then Some('\r')
    else if c == 'n' then Some('\n')
    else if c == 't' then Some('\t')
    else if c == '=' then Some('=')
    else None
  }

  ghost predicate Printable(s: string) {
    forall k :: 0 <= k < |s| ==> s[k] != '<' && s[k] != '>'
  }

  function Escaped(s: string): string
    requires Printable(s)
  {
    if s == "" then "" else Escaped(s[..|s| - 1]) + EscapeChar(s[|s| - 1]).value
  }

  function Before(front: string, rest: Option<string>): Option<string> {
    match rest
    case None => None
    case Some(s) => Some(front + s)
  }

  /** The text without its escapes, none where parse throws. */
  function Unescaped(s: string): Option<string>
    decreases |s|
  {
    if s == "" then Some("")
    else if s[0] != BACKSLASH then Before([s[0]], Unescaped(s[1..]))
    else if |s| == 1 || EscapeCode(s[1]).None? then None
    else Before([EscapeCode(s[1]).value], Unescaped(s[2..]))
  }

  lemma UnescapeStep(s: string, i: nat)
    requires i < |s|
    ensures Unescaped(s[i..]) ==
      if s[i] != BACKSLASH then Before([s[i]], Unescaped(s[i + 1..]))
      else if i + 1 == |s| || EscapeCode(s[i + 1]).None? then None
      else Before([EscapeCode(s[i + 1]).value], Unescaped(s[i + 2..]))
  {
    assert s[i..][1..] == s[i + 1..];
    if i + 1 < |s| {
      assert s[i..][2..] == s[i + 2..];
    }
  }

  lemma UnescapeNone()
    ensures Unescaped("") == Some("")
  {
  }

  lemma BeforeTwice(a: string, b: string, rest: Option<string>)
    ensures Before(a, Before(b, rest)) == Before(a + b, rest)
  {
    if rest.Some? {
      assert a + (b + rest.value) == a + b + rest.value;
    }
  }

  lemma BeforeNothing(rest: Option<string>)
    ensures Before("", rest) == rest
  {
    if rest.Some? {
      assert "" + rest.value == rest.value;
    }
  }

  /** INV_ConfigDomain::parse. */
  method Parse(s: string) returns (param: Option<string>)
    ensures param == Unescaped(s)
  {
    hide Unescaped, EscapeCode, Before;
    if s == "" {
      UnescapeNone();
      return Some("");
    }
    var text := "";
    var pos := 0;
    assert s[0..] == s;
    BeforeNothing(Unescaped(s));
    while pos <= |s| - 1
      invariant pos <= |s| && Before(text, Unescaped(s[pos..])) == Unescaped(s)
    {
      UnescapeStep(s, pos);
      if s[pos] == BACKSLASH && pos < |s| - 1 {
        var code := EscapeCode(s[pos + 1]);
        if code.None? {
          BeforeNone(text);
          return None;
        }
        BeforeTwice(text, [code.value], Unescaped(s[pos + 2..]));
        text := text + [code.value];
        pos := pos + 1;
      } else if s[pos] == BACKSLASH {
        BeforeNone(text);
        return None;
      } else {
        BeforeTwice(text, [s[pos]], Unescaped(s[pos + 1..]));
        text := text + [s[pos]];
      }
      pos := pos + 1;
    }
    assert s[pos..] == "";
    UnescapeNone();
    BeforeEmpty(text);
    return Some(text);
  }

  lemma BeforeNone(text: string)
    ensures Before(text, None) == None
  {
  }

  lemma BeforeEmpty(text: string)
    ensures Before(text, Some("")) == Some(text)
  {
    assert text + "" == text;
  }

  /** INV_ConfigDomain::reverse_parse. */
  method ReverseParse(s: string) returns (param: Option<string>)
    ensures param.Some? <==> Printable(s)
    ensures Printable(s) ==> param == Some(Escaped(s))
  {
    hide EscapeChar;
    var text := "";
    for pos := 0 to |s|
      invariant Printable(s[..pos]) && text == Escaped(s[..pos])
    {
      OnlyTags(s[pos]);
      assert s[..pos + 1][..pos] == s[..pos];
      var piece := EscapeChar(s[pos]);
      if piece.None? {
        assert s[pos] == '<' || s[pos] == '>';
        return None;
      }
      assert s[..pos + 1] == s[..pos] + [s[pos]];
      text := text + piece.value;
    }
    assert s[..|s|] == s;
    return Some(text);
  }

  lemma OnlyTags(c: char)
    ensures EscapeChar(c).None? <==> c == '<' || c == '>'
  {
  }

  lemma {:induction false} ReadOne(c: char, rest: string)
    requires c != '<' && c != '>'
    ensures Unescaped(EscapeChar(c).value + rest) == Before([c], Unescaped(rest))
  {
    var e := EscapeChar(c).value;
    assert (e + rest)[|e|..] == rest;
  }

  lemma {:induction false} UnescapeFront(s: string, rest: string)
    requires Printable(s)
    ensures Unescaped(Escaped(s) + rest) == Before(s, Unescaped(rest))
  {
    hide Unescaped, EscapeChar, Before;
    if s == "" {
      assert "" + rest == rest;
      BeforeNothing(Unescaped(rest));
    } else {
      var n := |s| - 1;
      OnlyTags(s[n]);
      var e := EscapeChar(s[n]).value;
      UnescapeFront(s[..n], e + rest);
      assert Escaped(s[..n]) + (e + rest) == Escaped(s) + rest;
      ReadOne(s[n], rest);
      BeforeTwice(s[..n], [s[n]], Unescaped(rest));
      assert s[..n] + [s[n]] == s;
    }
  }

  /** Every printable text is read back from its escaped form. */
  lemma {:induction false} UnescapedEscaped(s: string)
    requires Printable(s)
    ensures Unescaped(Escaped(s)) == Some(s)
  {
    hide Unescaped, Escaped, Before;
    UnescapeFront(s, "");
    UnescapeNone();
    BeforeEmpty(s);
    assert Escaped(s) + "" == Escaped(s);
  }

  /** The spelling of every escape. */
  lemma {:induction false} EscapeTable()
    ensures Escaped("\\") == "\\\\" && Escaped("=") == "\\="
    ensures Escaped("\r") == "\\r" && Escaped("\n") == "\\n" && Escaped("\t") == "\\t"
  {
    EscapedOne(BACKSLASH);
    EscapedOne('=');
    EscapedOne('\r');
    EscapedOne('\n');
    EscapedOne('\t');
  }

  lemma {:induction false} EscapedOne(c: char)
    requires c != '<' && c != '>'
    ensures Escaped([c]) == EscapeChar(c).value
  {
    assert Escaped([c][..0]) == "";
  }

  lemma {:induction false} EscapedConcat(a: string, b: string)
    requires Printable(a) && Printable(b)
    ensures Escaped(a + b) == Escaped(a) + Escaped(b)
  {
    hide EscapeChar, Escaped;
    if b == "" {
      EscapedNothing();
      assert a + b == a;
    } else {
      var n := |b| - 1;
      OnlyTags(b[n]);
      EscapedConcat(a, b[..n]);
      EscapedStep(b);
      EscapedStep(a + b);
      assert (a + b)[..|a + b| - 1] == a + b[..n];
    }
  }

  /** Nothing else is changed. */
  lemma {:induction false} EscapedOrdinary(s: string)
    requires Printable(s) && forall k :: 0 <= k < |s| ==> s[k] !in "\\\r\n\t="
    ensures Escaped(s) == s
  {
    if s != "" {
      var n := |s| - 1;
      EscapedOrdinary(s[..n]);
      assert s == s[..n] + [s[n]];
      assert s[n] !in "\\\r\n\t=";
    }
  }

  /** Behind a backslash no other character is taken, and not the end of the text. */
  lemma {:induction false} UnknownEscape(front: string, rest: string)
    requires Printable(front) && (rest == "" || rest[0] !in "\\rnt=")
    ensures Unescaped(Escaped(front) + ("\\" + rest)) == None
  {
    hide Escaped;
    UnescapeFront(front, "\\" + rest);
    assert ("\\" + rest)[0] == BACKSLASH;
    if rest != "" {
      assert ("\\" + rest)[1] == rest[0];
      NoCode(rest[0]);
    }
  }

  lemma NoCode(c: char)
    ensures EscapeCode(c).None? <==> c !in "\\rnt="
  {
  }

  /** Without a backslash there is nothing to undo. */
  lemma {:induction false} UnescapedOrdinary(s: string)
    requires BACKSLASH !in s
    ensures Unescaped(s) == Some(s)
  {
    if s != "" {
      UnescapedOrdinary(s[1..]);
      assert s == [s[0]] + s[1..];
    }
  }

  // ---------------------------------------------------------------- lines

  predicate IsBlank(c: char) {
    c == ' ' || c == '\r' || c == '\n' || c == '\t'
  }

  function TrimLeft(s: string): string {
    if s != "" && IsBlank(s[0]) then TrimLeft(s[1..]) else s
  }

  function TrimRight(s: string): string {
    if s != "" && IsBlank(s[|s| - 1]) then TrimRight(s[..|s| - 1]) else s
  }

  function Trim(s: string): string {
    TrimRight(TrimLeft(s))
  }

  /** An equals sign that no backslash escapes. */
  predicate BareAt(line: string, p: nat) {
    p < |line| && line[p] == '=' && !(p > 0 && line[p - 1] == BACKSLASH)
  }

  function FirstBare(line: string, p: nat): (r: nat)
    requires p <= |line|
    ensures p <= r <= |line| && (r < |line| ==> BareAt(line, r))
    ensures forall k :: p <= k < r ==> !BareAt(line, k)
    decreases |line| - p
  {
    if p == |line| || BareAt(line, p) then p else FirstBare(line, p + 1)
  }

  /** What a line says: nothing, something that cannot be read, or a parameter. */
  datatype Reading = Blank | Malformed | Pair(name: string, value: string)

  function PairOf(name: Option<string>, value: Option<string>): Reading {
    if name.Some? && value.Some? then Pair(name.value, value.value) else Malformed
  }

  function ReadLine(line: string): Reading {
    if line == "" then Blank
    else
      var p := FirstBare(line, 0);
      if p == |line| then Pair(line, "")
      else PairOf(Unescaped(Trim(line[..p])), Unescaped(Trim(line[p + 1..])))
  }

  lemma {:induction false} TrimLeftText(front: string, s: string)
    requires forall k :: 0 <= k < |front| ==> front[k] in " \r\n\t"
    requires s == "" || s[0] !in " \r\n\t"
    ensures TrimLeft(front + s) == s
  {
    if front == "" {
      assert front + s == s;
    } else {
      TrimLeftText(front[1..], s);
      assert (front + s)[1..] == front[1..] + s;
      assert IsBlank(front[0]);
    }
  }

  lemma {:induction false} TrimRightText(s: string, back: string)
    requires forall k :: 0 <= k < |back| ==> back[k] in " \r\n\t"
    requires s == "" || s[|s| - 1] !in " \r\n\t"
    ensures TrimRight(s + back) == s
  {
    if back == "" {
      assert s + back == s;
    } else {
      var n := |back| - 1;
      TrimRightText(s, back[..n]);
      assert (s + back)[..|s + back| - 1] == s + back[..n];
      assert IsBlank(back[n]);
    }
  }

  /** Trimming takes the blanks at both ends and nothing else. */
  lemma {:induction false} TrimmedText(front: string, s: string, back: string)
    requires forall k :: 0 <= k < |front| ==> front[k] in " \r\n\t"
    requires forall k :: 0 <= k < |back| ==> back[k] in " \r\n\t"
    requires s != "" && s[0] !in " \r\n\t" && s[|s| - 1] !in " \r\n\t"
    ensures Trim(front + (s + back)) == s
  {
    TrimLeftText(front, s + back);
    TrimRightText(s, back);
  }

  lemma {:induction false} TrimKeepsOut(s: string, c: char)
    requires c !in s
    ensures c !in TrimLeft(s) && c !in TrimRight(s)
    decreases |s|
  {
    if s != "" {
      TrimKeepsOut(s[1..], c);
      TrimKeepsOut(s[..|s| - 1], c);
    }
  }

  /** A line without escapes is split at its first equals sign, and both sides are trimmed. */
  lemma {:induction false} PlainLine(left: string, right: string)
    requires '=' !in left && BACKSLASH !in left && BACKSLASH !in right
    ensures ReadLine(left + "=" + right) == Pair(Trim(left), Trim(right))
  {
    hide Unescaped, TrimLeft, TrimRight;
    var line, n := left + "=" + right, |left|;
    assert line[n] == '=' && line[..n] == left && line[n + 1..] == right;
    assert forall k :: 0 <= k < n ==> line[k] == left[k];
    assert BareAt(line, n);
    assert FirstBare(line, 0) == n;
    TrimKeepsOut(left, BACKSLASH);
    TrimKeepsOut(TrimLeft(left), BACKSLASH);
    TrimKeepsOut(right, BACKSLASH);
    TrimKeepsOut(TrimLeft(right), BACKSLASH);
    UnescapedOrdinary(Trim(left));
    UnescapedOrdinary(Trim(right));
  }

  function PrintLine(name: string, value: string): string
    requires Printable(name) && Printable(value)
  {
    Escaped(name) + "=" + Escaped(value)
  }

  predicate EndsIn(s: string, c: char) {
    s != "" && s[|s| - 1] == c
  }

  /** No space at either end. */
  predicate Tight(s: string) {
    !EndsIn(s, ' ') && (s != "" ==> s[0] != ' ')
  }

  function StripLeft(s: string): string {
    if s != "" && s[0] == ' ' then StripLeft(s[1..]) else s
  }

  function StripRight(s: string): string {
    if EndsIn(s, ' ') then StripRight(s[..|s| - 1]) else s
  }

  lemma {:induction false} StripLeftTight(s: string)
    requires Printable(s)
    ensures Printable(StripLeft(s))
    ensures if s == "" || s[0] != ' ' then StripLeft(s) == s else |StripLeft(s)| < |s|
  {
    if s != "" && s[0] == ' ' {
      StripLeftTight(s[1..]);
    }
  }

  lemma {:induction false} StripRightTight(s: string)
    requires Printable(s)
    ensures Printable(StripRight(s))
    ensures if EndsIn(s, ' ') then |StripRight(s)| < |s| else StripRight(s) == s
  {
    if EndsIn(s, ' ') {
      StripRightTight(s[..|s| - 1]);
    }
  }

  lemma {:induction false} EscapedStep(s: string)
    requires Printable(s) && s != ""
    ensures Escaped(s) == Escaped(s[..|s| - 1]) + EscapeChar(s[|s| - 1]).value
  {
  }

  lemma {:induction false} EscapedHead(s: string)
    requires Printable(s) && s != ""
    ensures Escaped(s) == EscapeChar(s[0]).value + Escaped(s[1..])
  {
    hide EscapeChar, Escaped;
    var n := |s| - 1;
    OnlyTags(s[0]);
    OnlyTags(s[n]);
    EscapedStep(s);
    EscapedNothing();
    if n == 0 {
      assert s[..0] == "" == s[1..];
    } else {
      EscapedHead(s[..n]);
      EscapedStep(s[1..]);
      assert s[..n][1..] == s[1..][..n - 1];
    }
  }

  lemma {:induction false} TrimLeftEscaped(s: string)
    requires Printable(s)
    ensures Printable(StripLeft(s)) && TrimLeft(Escaped(s)) == Escaped(StripLeft(s))
  {
    hide Escaped;
    StripLeftTight(s);
    if s == "" {
      EscapedNothing();
    } else {
      EscapedHead(s);
      if s[0] == ' ' {
        TrimLeftEscaped(s[1..]);
        assert Escaped(s)[1..] == Escaped(s[1..]);
      }
    }
  }

  lemma EscapedNothing()
    ensures Escaped("") == ""
  {
  }

  lemma {:induction false} EscapedLast(s: string)
    requires Printable(s) && s != ""
    ensures Escaped(s) != "" && (IsBlank(Escaped(s)[|Escaped(s)| - 1]) <==> s[|s| - 1] == ' ')
    ensures s[|s| - 1] == ' ' ==> Escaped(s)[..|Escaped(s)| - 1] == Escaped(s[..|s| - 1])
  {
  }

  lemma {:induction false} TrimRightEscaped(s: string)
    requires Printable(s)
    ensures Printable(StripRight(s)) && TrimRight(Escaped(s)) == Escaped(StripRight(s))
  {
    hide Escaped;
    StripRightTight(s);
    if s == "" {
      EscapedNothing();
    } else {
      EscapedLast(s);
      if s[|s| - 1] == ' ' {
        TrimRightEscaped(s[..|s| - 1]);
      }
    }
  }

  function Stripped(s: string): string {
    StripRight(StripLeft(s))
  }

  /** Trimming an escaped text takes the spaces of the text: other blanks are escaped. */
  lemma {:induction false} TrimEscaped(s: string)
    requires Printable(s)
    ensures Unescaped(Trim(Escaped(s))) == Some(Stripped(s))
  {
    hide Escaped, Unescaped, StripLeft, StripRight, TrimLeft, TrimRight;
    TrimLeftEscaped(s);
    TrimRightEscaped(StripLeft(s));
    UnescapedEscaped(Stripped(s));
  }

  lemma StrippedIsTight(s: string)
    requires Printable(s)
    ensures Stripped(s) == s <==> Tight(s)
  {
    hide StripLeft, StripRight;
    StripLeftTight(s);
    StripRightTight(StripLeft(s));
  }

  lemma {:induction false} NoBareEscaped(s: string, p: nat)
    requires Printable(s) && p < |Escaped(s)| && Escaped(s)[p] == '='
    ensures p > 0 && Escaped(s)[p - 1] == BACKSLASH
  {
    var n := |s| - 1;
    var front := Escaped(s[..n]);
    if p < |front| {
      NoBareEscaped(s[..n], p);
    }
  }

  lemma {:induction false} EscapedEnd(s: string)
    requires Printable(s)
    ensures EndsIn(Escaped(s), BACKSLASH) <==> EndsIn(s, BACKSLASH)
    ensures s == "" <==> Escaped(s) == ""
  {
  }

  lemma {:induction false} EscapedGrows(s: string)
    requires Printable(s)
    ensures |Escaped(s)| >= |s|
  {
    if s != "" {
      EscapedGrows(s[..|s| - 1]);
    }
  }

  /** The separator is the only candidate for a bare equals sign, and a backslash before it hides it. */
  lemma {:induction false} BareInLine(k: string, v: string, p: nat)
    requires Printable(k) && Printable(v)
    ensures BareAt(PrintLine(k, v), p) <==> p == |Escaped(k)| && !EndsIn(k, BACKSLASH)
  {
    hide Escaped;
    var line, n := PrintLine(k, v), |Escaped(k)|;
    EscapedEnd(k);
    if p < n && Escaped(k)[p] == '=' {
      NoBareEscaped(k, p);
    } else if n < p < |line| && Escaped(v)[p - n - 1] == '=' {
      NoBareEscaped(v, p - n - 1);
    }
  }

  lemma ReadPrinted(k: string, v: string)
    requires Printable(k) && Printable(v)
    ensures ReadLine(PrintLine(k, v)) ==
      if EndsIn(k, BACKSLASH) then Pair(PrintLine(k, v), "") else Pair(Stripped(k), Stripped(v))
  {
    hide Escaped, Unescaped, Trim, Stripped;
    var line, n := PrintLine(k, v), |Escaped(k)|;
    var p := FirstBare(line, 0);
    BareInLine(k, v, n);
    BareInLine(k, v, p);
    if !EndsIn(k, BACKSLASH) {
      assert p == n;
      assert line[..n] == Escaped(k) && line[n + 1..] == Escaped(v);
      TrimEscaped(k);
      TrimEscaped(v);
    }
  }

  /**
    setParamValue reads a printed parameter back as itself exactly when its name does not end in a
    backslash and neither name nor value starts or ends with a space.
   */
  lemma LineRoundTrip(k: string, v: string)
    requires Printable(k) && Printable(v)
    ensures ReadLine(PrintLine(k, v)) == Pair(k, v) <==> !EndsIn(k, BACKSLASH) && Tight(k) && Tight(v)
  {
    hide Escaped, ReadLine, Stripped, Tight;
    ReadPrinted(k, v);
    StrippedIsTight(k);
    StrippedIsTight(v);
    EscapedGrows(k);
  }

  predicate IsPlain(c: char) {
    c != BACKSLASH && c != '\r' && c != '\n' && c != '\t' && c != '='
  }

  lemma {:induction false} EscapedPlain(s: string)
    requires Printable(s)
    ensures |Escaped(s)| >= |s|
    ensures |Escaped(s)| == |s| <==> forall i :: 0 <= i < |s| ==> IsPlain(s[i])
    ensures |Escaped(s)| == |s| ==> Escaped(s) == s
  {
    if s != "" {
      var n := |s| - 1;
      EscapedPlain(s[..n]);
      assert s == s[..n] + [s[n]];
      assert (forall i :: 0 <= i < |s| ==> IsPlain(s[i])) <==>
             (forall i :: 0 <= i < n ==> IsPlain(s[..n][i])) && IsPlain(s[n]);
    }
  }

  /** A bare name is read as it stands. */
  lemma {:induction false} BareReading(k: string)
    requires Printable(k) && k != ""
    ensures ReadLine(Escaped(k)) == Pair(Escaped(k), "")
  {
    hide Escaped, Unescaped, Trim;
    var line := Escaped(k);
    EscapedEnd(k);
    var p := FirstBare(line, 0);
    if p < |line| {
      NoBareEscaped(k, p);
    }
  }

  /** setParamValue does not undo the escapes of a bare name: it comes back exactly when it needs none. */
  lemma {:induction false} BareLine(k: string)
    requires Printable(k) && k != ""
    ensures ReadLine(Escaped(k)) == Pair(k, "") <==> forall i :: 0 <= i < |k| ==> IsPlain(k[i])
  {
    hide Escaped, ReadLine;
    BareReading(k);
    EscapedPlain(k);
  }

  // ---------------------------------------------------------------- lines of a file

  function Tabs(n: nat): string {
    if n == 0 then "" else "\t" + Tabs(n - 1)
  }

  lemma TabsNone()
    ensures Tabs(0) == ""
  {
  }

  lemma TabsFront(n: nat)
    ensures Tabs(n + 1) == "\t" + Tabs(n)
  {
  }

  lemma {:induction false} TabsMore(n: nat)
    ensures Tabs(n + 1) == Tabs(n) + "\t"
  {
    if n == 0 {
      assert Tabs(1) == "\t" + "";
    } else {
      TabsMore(n - 1);
      TabsFront(n);
      assert "\t" + (Tabs(n - 1) + "\t") == "\t" + Tabs(n - 1) + "\t";
    }
  }

  /**
    The line tostr writes for a parameter of a domain at some depth: an empty value is left out with
    its equals sign.
   */
  function ParamLine(depth: nat, name: string, value: string): string
    requires Printable(name) && Printable(value)
  {
    Tabs(depth + 1) + (if value == "" then Escaped(name) else PrintLine(name, value))
  }

  /** What INV_Config::parse makes of a line of a file before it looks into it. */
  datatype Line = Ignored | Tag(text: string) | Setting(r: Reading)

  function LineOf(line: string): Line {
    var t := Trim(line);
    if t == "" || t[0] == '#' then Ignored
    else if t[0] == '[' then Tag(t)
    else Setting(ReadLine(t))
  }

  predicate StartsLike(name: string) {
    name != "" && (name[0] == '#' || name[0] == '[')
  }

  /** The parameters that their line in a file gives back. */
  ghost predicate Survives(name: string, value: string) {
    && Tight(name) && !StartsLike(name)
    && if value == "" then name != "" && AllPlain(name) else !EndsIn(name, BACKSLASH) && Tight(value)
  }

  ghost predicate AllPlain(s: string) {
    forall i :: 0 <= i < |s| ==> IsPlain(s[i])
  }

  lemma {:induction false} TrimTabs(n: nat, s: string)
    ensures Trim(Tabs(n) + s) == Trim(s)
  {
    if n == 0 {
      assert "" + s == s;
    } else {
      TrimTabs(n - 1, s);
      assert (Tabs(n) + s)[1..] == Tabs(n - 1) + s;
    }
  }

  lemma {:induction false} TrimLeftBefore(s: string, rest: string)
    requires Printable(s) && rest != "" && !IsBlank(rest[0])
    ensures Printable(StripLeft(s)) && TrimLeft(Escaped(s) + rest) == Escaped(StripLeft(s)) + rest
  {
    hide Escaped;
    StripLeftTight(s);
    if s == "" {
      EscapedNothing();
      assert "" + rest == rest;
    } else {
      EscapedHead(s);
      if s[0] == ' ' {
        TrimLeftBefore(s[1..], rest);
        assert (Escaped(s) + rest)[1..] == Escaped(s[1..]) + rest;
      }
    }
  }

  lemma {:induction false} TrimRightBehind(front: string, s: string)
    requires Printable(s) && front != "" && !IsBlank(front[|front| - 1])
    ensures Printable(StripRight(s)) && TrimRight(front + Escaped(s)) == front + Escaped(StripRight(s))
  {
    hide Escaped;
    StripRightTight(s);
    if s == "" {
      EscapedNothing();
      assert front + "" == front;
    } else {
      EscapedLast(s);
      if s[|s| - 1] == ' ' {
        TrimRightBehind(front, s[..|s| - 1]);
        var line := front + Escaped(s);
        assert line[..|line| - 1] == front + Escaped(s[..|s| - 1]);
      }
    }
  }

  /** Trimming a printed line takes the outer spaces of name and value. */
  lemma {:induction false} TrimPrinted(k: string, v: string)
    requires Printable(k) && Printable(v)
    ensures Printable(StripLeft(k)) && Printable(StripRight(v))
    ensures Trim(PrintLine(k, v)) == PrintLine(StripLeft(k), StripRight(v))
  {
    hide Escaped, StripLeft, StripRight, TrimLeft, TrimRight;
    var e, f := Escaped(k), Escaped(v);
    assert e + "=" + f == e + ("=" + f);
    TrimLeftBefore(k, "=" + f);
    var front := Escaped(StripLeft(k)) + "=";
    assert Escaped(StripLeft(k)) + ("=" + f) == front + f;
    TrimRightBehind(front, v);
  }

  lemma {:induction false} TrimBare(k: string)
    requires Printable(k)
    ensures Printable(Stripped(k)) && Trim(Escaped(k)) == Escaped(Stripped(k))
  {
    hide Escaped, StripLeft, StripRight, TrimLeft, TrimRight;
    TrimLeftEscaped(k);
    TrimRightEscaped(StripLeft(k));
  }

  /** The first letter of an escaped text is its own first letter or a backslash. */
  lemma {:induction false} FirstEscaped(s: string)
    requires Printable(s) && s != ""
    ensures Escaped(s) != "" && (StartsLike(Escaped(s)) <==> StartsLike(s))
  {
    hide Escaped;
    EscapedHead(s);
  }

  lemma PrintedStart(k: string, v: string)
    requires Printable(k) && Printable(v)
    ensures PrintLine(k, v) != "" && (StartsLike(PrintLine(k, v)) <==> StartsLike(k))
  {
    hide Escaped;
    if k == "" {
      EscapedNothing();
    } else {
      FirstEscaped(k);
    }
  }

  /** Tight is what stripping leaves alone. */
  lemma {:induction false} LeftTight(s: string)
    requires Printable(s)
    ensures Tight(s) ==> StripLeft(s) == s && StripRight(s) == s
    ensures Printable(StripLeft(s)) && Printable(StripRight(s))
    ensures Stripped(StripLeft(s)) == s ==> Tight(s)
    ensures Stripped(StripRight(s)) == s ==> Tight(s)
  {
    hide StripLeft, StripRight;
    StripLeftTight(s);
    StripRightTight(s);
    StripLeftTight(StripLeft(s));
    StripRightTight(StripLeft(StripLeft(s)));
    StripLeftTight(StripRight(s));
    StripRightTight(StripLeft(StripRight(s)));
  }

  lemma SettingLine(name: string, value: string)
    requires Printable(name) && Printable(value) && value != ""
    ensures LineOf(PrintLine(name, value)) == Setting(Pair(name, value)) <==> Survives(name, value)
  {
    LeftTight(name);
    LeftTight(value);
    hide Escaped, StripLeft, StripRight, ReadLine, Tight, Stripped, PrintLine, Trim;
    var k, v := StripLeft(name), StripRight(value);
    TrimPrinted(name, value);
    PrintedStart(k, v);
    ReadPrinted(k, v);
    StrippedIsTight(name);
    StrippedIsTight(value);
  }

  lemma {:induction false} BareNameLine(name: string)
    requires Printable(name)
    ensures LineOf(Escaped(name)) == Setting(Pair(name, "")) <==> Survives(name, "")
  {
    hide Escaped, StripLeft, StripRight, ReadLine, Tight, Stripped, Trim;
    var k := Stripped(name);
    TrimBare(name);
    StrippedIsTight(name);
    if k == "" {
      EscapedNothing();
    } else {
      FirstEscaped(k);
      BareReading(k);
      StrippedTight(name);
      EscapedTight(k);
      EscapedPlain(k);
    }
  }

  lemma {:induction false} StripLeftStops(s: string)
    requires Printable(s)
    ensures Printable(StripLeft(s)) && (StripLeft(s) != "" ==> StripLeft(s)[0] != ' ')
  {
    if s != "" && s[0] == ' ' {
      StripLeftStops(s[1..]);
    }
  }

  lemma {:induction false} StripRightStops(s: string)
    requires Printable(s)
    ensures var r := StripRight(s); Printable(r) && !EndsIn(r, ' ') && (r != "" ==> s != "" && r[0] == s[0])
  {
    if EndsIn(s, ' ') {
      StripRightStops(s[..|s| - 1]);
    }
  }

  lemma StrippedTight(s: string)
    requires Printable(s)
    ensures Printable(Stripped(s)) && Tight(Stripped(s))
  {
    hide StripLeft, StripRight;
    StripLeftStops(s);
    StripRightStops(StripLeft(s));
  }

  lemma {:induction false} EscapedTight(s: string)
    requires Printable(s) && Tight(s)
    ensures Tight(Escaped(s))
  {
    if s != "" {
      EscapedHead(s);
      EscapedLast(s);
    }
    hide Escaped;
  }

  /**
    A parameter printed into a file is read back as itself exactly when it survives: no outer spaces,
    no name that looks like a comment or a tag, and nothing that hides the equals sign or its absence.
   */
  lemma PrintedLine(depth: nat, name: string, value: string)
    requires Printable(name) && Printable(value)
    ensures LineOf(ParamLine(depth, name, value)) == Setting(Pair(name, value)) <==> Survives(name, value)
  {
    hide Escaped, PrintLine, ReadLine, Survives, Trim, Tabs;
    TrimTabs(depth + 1, if value == "" then Escaped(name) else PrintLine(name, value));
    if value == "" {
      BareNameLine(name);
    } else {
      SettingLine(name, value);
    }
  }
}
