/** Splitting, joining and decimal text: common/inutil/util/inv_util.h and the C library's atoi. */
module Text {
  /** The position of the first character of s that is a separator, |s| when there is none. */
  function FirstOf(s: string, seps: string): (r: nat)
    ensures r <= |s|
    ensures forall k :: 0 <= k < r ==> s[k] !in seps
    ensures r < |s| ==> s[r] in seps
  {
    if s == "" || s[0] in seps then 0 else 1 + FirstOf(s[1..], seps)
  }

  ghost predicate Free(s: string, seps: string) {
    forall k :: 0 <= k < |s| ==> s[k] !in seps
  }

  ghost predicate AllFree(ts: seq<string>, seps: string) {
    forall k :: 0 <= k < |ts| ==> Free(ts[k], seps)
  }

  /** The pieces of s between separators, empty ones included. */
  function Split(s: string, seps: string): (ts: seq<string>)
    ensures |ts| >= 1
    decreases |s|
  {
    var q := FirstOf(s, seps);
    if q == |s| then [s] else [s[..q]] + Split(s[q + 1..], seps)
  }

  function NonEmpty(ts: seq<string>): seq<string> {
    if ts == [] then []
    else
      var last := ts[|ts| - 1];
      NonEmpty(ts[..|ts| - 1]) + (if last == "" then [] else [last])
  }

  function Join(ts: seq<string>, c: char): string {
    if ts == [] then ""
    else if |ts| == 1 then ts[0]
    else ts[0] + [c] + Join(ts[1..], c)
  }

  lemma {:induction false} FirstOfStops(t: string, c: char, rest: string)
    requires Free(t, [c])
    ensures FirstOf(t, [c]) == |t|
    ensures FirstOf(t + [c] + rest, [c]) == |t|
  {
    var s := t + [c] + rest;
    assert s[|t|] == c;
    assert forall k :: 0 <= k < |t| ==> s[k] == t[k];
  }

  /** Tokens that avoid the separator survive being joined and split again. */
  lemma {:induction false} SplitOfJoin(ts: seq<string>, c: char)
    requires ts != [] && AllFree(ts, [c])
    ensures Split(Join(ts, c), [c]) == ts
  {
    if |ts| == 1 {
      FirstOfStops(ts[0], c, "");
    } else {
      var rest := Join(ts[1..], c);
      FirstOfStops(ts[0], c, rest);
      SplitOfJoin(ts[1..], c);
      var s := ts[0] + [c] + rest;
      assert s[..|ts[0]|] == ts[0];
      assert s[|ts[0]| + 1..] == rest;
    }
  }

  lemma {:induction false} JoinCons(t: string, ts: seq<string>, c: char)
    requires ts != []
    ensures Join([t] + ts, c) == t + [c] + Join(ts, c)
  {
    assert ([t] + ts)[1..] == ts;
  }

  lemma {:induction false} JoinSnoc(ts: seq<string>, t: string, c: char)
    requires ts != []
    ensures Join(ts + [t], c) == Join(ts, c) + [c] + t
  {
    assert (ts + [t])[1..] == ts[1..] + [t];
    if |ts| > 1 {
      JoinSnoc(ts[1..], t, c);
    }
  }

  /**
    Splitting loses nothing, and no piece holds a separator. With SplitOfJoin this makes
    Split the only list of separator-free tokens whose join is the text.
   */
  lemma {:induction false} JoinOfSplit(s: string, c: char)
    ensures Join(Split(s, [c]), c) == s
    ensures AllFree(Split(s, [c]), [c])
    decreases |s|
  {
    hide Join, FirstOf, Free;
    var q := FirstOf(s, [c]);
    FirstPiece(s, c, q);
    if q == |s| {
      JoinOne(s, c);
      assert s[..q] == s;
    } else {
      var rest := s[q + 1..];
      JoinOfSplit(rest, c);
      JoinCons(s[..q], Split(rest, [c]), c);
      assert s == s[..q] + [c] + rest;
    }
  }

  lemma FirstPiece(s: string, c: char, q: nat)
    requires q == FirstOf(s, [c])
    ensures Free(s[..q], [c])
    ensures q < |s| ==> s[q] == c
  {
  }

  lemma JoinOne(t: string, c: char)
    ensures Join([t], c) == t
  {
  }

  lemma TailSlices(s: string, pos: nat, q: nat)
    requires pos <= q < |s|
    ensures s[pos..][..q - pos] == s[pos..q]
    ensures s[pos..][q - pos + 1..] == s[q + 1..]
  {
  }

  lemma {:induction false} SplitStep(s: string, seps: string, pos: nat, q: nat)
    requires pos <= |s| && q == pos + FirstOf(s[pos..], seps)
    ensures Split(s[pos..], seps) ==
      if q == |s| then [s[pos..]] else [s[pos..q]] + Split(s[q + 1..], seps)
  {
    hide FirstOf;
    if q < |s| {
      TailSlices(s, pos, q);
    }
  }

  /** What sepstr keeps of a list of pieces. */
  function Kept(ts: seq<string>, withEmpty: bool): seq<string> {
    if withEmpty then ts else NonEmpty(ts)
  }

  /**
    INV_Util::sepstr<string>. find_first_of gives std::string::npos when it finds nothing; here
    that is the length of the string, which no found position equals.
   */
  method SepStr(s: string, seps: string, withEmpty: bool) returns (vt: seq<string>)
    ensures vt == Kept(Split(s, seps), withEmpty)
  {
    hide Split, NonEmpty, FirstOf, Kept;
    vt := [];
    var pos: nat := 0;
    ghost var done: seq<string> := [];
    KeptNothing(withEmpty);
    assert s[0..] == s;
    while true
      invariant pos <= |s|
      invariant done + Split(s[pos..], seps) == Split(s, seps)
      invariant vt == Kept(done, withEmpty)
      decreases |s| - pos
    {
      ghost var start := pos;
      var pos1 := pos + FirstOf(s[pos..], seps);
      SplitStep(s, seps, start, pos1);
      var piece := "";
      if pos1 == |s| {
        if pos + 1 <= |s| {
          piece := s[pos..];
        }
      } else if pos1 == pos {
        piece := "";
      } else {
        piece := s[pos..pos1];
        pos := pos1;
      }
      assert piece == s[start..pos1];
      KeptGrows(done, piece, withEmpty);
      if withEmpty {
        vt := vt + [piece];
      } else {
        if piece != "" {
          vt := vt + [piece];
        }
      }
      done := done + [piece];
      if pos1 == |s| {
        break;
      }
      pos := pos + 1;
    }
  }

  lemma KeptNothing(withEmpty: bool)
    ensures Kept([], withEmpty) == []
  {
  }

  lemma KeptGrows(ts: seq<string>, piece: string, withEmpty: bool)
    ensures Kept(ts + [piece], withEmpty) == Kept(ts, withEmpty) + (if withEmpty || piece != "" then [piece] else [])
  {
    assert (ts + [piece])[..|ts|] == ts;
  }

  // ---------------------------------------------------------------- decimal numbers

  predicate IsDigit(c: char) {
    '0' <= c <= '9'
  }

  predicate IsSpace(c: char) {
    c == ' ' || '\t' <= c <= '\r'
  }

  function Digit(d: nat): (c: char)
    requires d < 10
    ensures IsDigit(c)
  {
    d as char + '0'
  }

  function Decimal(n: nat): (s: string)
    ensures |s| >= 1
    ensures forall k :: 0 <= k < |s| ==> IsDigit(s[k])
  {
    (if n < 10 then "" else Decimal(n / 10)) + [Digit(n % 10)]
  }

  /** The number of leading digits of s. */
  function DigitRun(s: string): (r: nat)
    ensures r <= |s|
    ensures forall k :: 0 <= k < r ==> IsDigit(s[k])
    ensures r < |s| ==> !IsDigit(s[r])
  {
    if s == "" || !IsDigit(s[0]) then 0 else 1 + DigitRun(s[1..])
  }

  function DigitValue(c: char): nat
    requires IsDigit(c)
  {
    (c - '0') as nat
  }

  function Value(digits: string): nat
    requires forall k :: 0 <= k < |digits| ==> IsDigit(digits[k])
  {
    if digits == "" then 0
    else 10 * Value(digits[..|digits| - 1]) + DigitValue(digits[|digits| - 1])
  }

  function Unsigned(s: string): nat {
    Value(s[..DigitRun(s)])
  }

  /** std::atoi: blanks, one optional sign, then as many digits as there are. */
  function Atoi(s: string): int
    decreases |s|
  {
    if s == "" then 0
    else if IsSpace(s[0]) then Atoi(s[1..])
    else if s[0] == '-' then -(Unsigned(s[1..]) as int)
    else if s[0] == '+' then Unsigned(s[1..])
    else Unsigned(s)
  }

  lemma DigitIsRead(d: nat)
    requires d < 10
    ensures DigitValue(Digit(d)) == d
  {
  }

  lemma {:induction false} ValueOfLast(s: string, c: char)
    requires IsDigit(c) && forall k :: 0 <= k < |s| ==> IsDigit(s[k])
    ensures Value(s + [c]) == 10 * Value(s) + DigitValue(c)
  {
    assert (s + [c])[..|s|] == s;
  }

  lemma {:induction false} ValueOfDecimal(n: nat)
    ensures Value(Decimal(n)) == n
  {
    hide Value, DigitValue, Digit;
    DigitIsRead(n % 10);
    if n < 10 {
      ValueOfNothing();
      ValueOfLast("", Digit(n % 10));
    } else {
      ValueOfDecimal(n / 10);
      ValueOfLast(Decimal(n / 10), Digit(n % 10));
    }
  }

  lemma ValueOfNothing()
    ensures Value("") == 0
  {
  }

  /** Reading back a printed number. */
  lemma {:induction false} AtoiOfDecimal(n: nat)
    ensures Atoi(Decimal(n)) == n
  {
    hide Value, Decimal;
    var s := Decimal(n);
    ValueOfDecimal(n);
    assert IsDigit(s[0]);
    assert DigitRun(s) == |s|;
    assert s[..|s|] == s;
  }

  /** Blanks before a number, a sign, and whatever follows its last digit. */
  lemma {:induction false} AtoiOfText(blanks: string, sign: string, n: nat, rest: string)
    requires forall k :: 0 <= k < |blanks| ==> blanks[k] == ' '
    requires sign in ["", "+", "-"]
    requires rest == "" || !('0' <= rest[0] <= '9')
    ensures Atoi(blanks + sign + (Decimal(n) + rest)) == if sign == "-" then -(n as int) else n
    decreases |blanks|
  {
    hide Unsigned, Decimal;
    var digits := Decimal(n) + rest;
    if blanks != "" {
      AtoiOfText(blanks[1..], sign, n, rest);
      assert (blanks + sign + digits)[1..] == blanks[1..] + sign + digits;
    } else {
      UnsignedOfText(n, rest);
      assert blanks + sign + digits == sign + digits;
      assert digits[0] == Decimal(n)[0];
      if sign == "" {
        assert sign + digits == digits;
      } else {
        assert (sign + digits)[1..] == digits;
      }
    }
  }

  lemma {:induction false} DigitsThenOther(digits: string, rest: string)
    requires forall k :: 0 <= k < |digits| ==> IsDigit(digits[k])
    requires rest == "" || !IsDigit(rest[0])
    ensures DigitRun(digits + rest) == |digits|
  {
    var s := digits + rest;
    assert forall k :: 0 <= k < |digits| ==> s[k] == digits[k];
    if rest != "" {
      assert s[|digits|] == rest[0];
    }
  }

  lemma {:induction false} UnsignedOfText(n: nat, rest: string)
    requires rest == "" || !IsDigit(rest[0])
    ensures Unsigned(Decimal(n) + rest) == n
  {
    hide Value, Decimal, DigitRun;
    ValueOfDecimal(n);
    DigitsThenOther(Decimal(n), rest);
    assert (Decimal(n) + rest)[..|Decimal(n)|] == Decimal(n);
  }

  /** Numbers are written in base ten, the highest digit first. */
  lemma {:induction false} Numerals()
    ensures Decimal(7) == "7" && Decimal(62) == "62" && Decimal(1000) == "1000"
  {
  }
}
