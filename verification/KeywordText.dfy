/** What Check finds in the bytes of a text: common/inutil/inv_keyword.cpp. */
module KeywordText {
  import opened Options
  import opened KeywordIndex
  import opened KeywordSets

  // ---------------------------------------------------------------- byte offsets of tokens

  /** The byte n tokens after byte i. */
  function Offset(buf: Text, i: nat, n: nat): (r: nat)
    ensures i <= r
    decreases n
  {
    if n == 0 || i >= |buf| then i else Offset(buf, i + Step(buf, i).len, n - 1)
  }

  lemma {:induction false} OffsetAdd(buf: Text, i: nat, a: nat, b: nat)
    ensures Offset(buf, i, a + b) == Offset(buf, Offset(buf, i, a), b)
    decreases a
  {
    if a > 0 && i < |buf| {
      OffsetAdd(buf, i + Step(buf, i).len, a - 1, b);
    }
  }

  lemma {:induction false} OffsetGrows(buf: Text, i: nat, n: nat)
    requires 0 < n && i < |buf|
    ensures Offset(buf, i, n) > i
  {
  }

  /** The tokens from the n-th on are the tokens from its offset on. */
  lemma {:induction false} TokensFrom(buf: Text, i: nat, n: nat)
    requires i <= |buf| && Whole(buf, i) && n <= |Tokens(buf, i)|
    ensures var o := Offset(buf, i, n);
      && o <= |buf| && Whole(buf, o)
      && Tokens(buf, i)[n..] == Tokens(buf, o)
      && (n < |Tokens(buf, i)| ==> Tokens(buf, i)[n].pos == o < |buf|)
    decreases n
  {
    if n == 0 {
      assert Tokens(buf, i)[0..] == Tokens(buf, i);
      FirstToken(buf, i);
    } else {
      FirstToken(buf, i);
      hide Tokens, Step;
      var next := i + Step(buf, i).len;
      TokensFrom(buf, next, n - 1);
      ConsDrop(Step(buf, i), Tokens(buf, next), n);
    }
  }

  lemma FirstToken(buf: Text, i: nat)
    requires i <= |buf| && Whole(buf, i)
    ensures i == |buf| ==> Tokens(buf, i) == []
    ensures i < |buf| ==> Step(buf, i).pos == i
    ensures i < |buf| ==> Tokens(buf, i) == [Step(buf, i)] + Tokens(buf, i + Step(buf, i).len)
    ensures i < |buf| ==> i + Step(buf, i).len <= |buf| && Whole(buf, i + Step(buf, i).len)
  {
    if i < |buf| {
      WholeInside(buf, i + Step(buf, i).len);
    }
  }

  lemma {:induction false} WholeInside(buf: Text, i: nat)
    requires Whole(buf, i)
    ensures i <= |buf|
  {
  }

  lemma ConsDrop(t: Token, ts: seq<Token>, n: nat)
    requires 0 < n <= |ts| + 1
    ensures ([t] + ts)[n..] == ts[n - 1..] && (n <= |ts| ==> ([t] + ts)[n] == ts[n - 1])
  {
  }

  /** A keyword that matches token by token ends where its bytes end. */
  lemma {:induction false} MatchOffset(buf: Text, i: nat, k: Text, j: nat)
    requires i <= |buf| && j <= |k| && Whole(buf, i) && Whole(k, j)
    requires Codes(Tokens(k, j)) <= Codes(Tokens(buf, i))
    ensures Offset(buf, i, |Tokens(k, j)|) == i + (|k| - j)
    decreases |k| - j
  {
    CodesAreBytes(buf, i, k, j);
    FirstToken(k, j);
    if j == |k| {
      OffsetNone(buf, i);
    } else {
      FirstToken(buf, i);
      NoMoreTokens(buf, i, k, j);
      hide Whole, Tokens;
      StepDeterminesBytes(buf, i, k, j);
      hide Step;
      var x, y := Step(buf, i), Step(k, j);
      CodesFirst(buf, i);
      CodesFirst(k, j);
      PrefixOfCons(y.code, Codes(Tokens(k, j + y.len)), x.code, Codes(Tokens(buf, i + x.len)));
      hide Codes;
      assert x.len == |buf[i..i + x.len]| == y.len;
      MatchOffset(buf, i + x.len, k, j + y.len);
      OffsetNext(buf, i, |Tokens(k, j + y.len)|);
    }
  }

  lemma {:induction false} OffsetNone(buf: Text, i: nat)
    ensures Offset(buf, i, 0) == i
  {
  }

  lemma OffsetNext(buf: Text, i: nat, n: nat)
    requires i < |buf|
    ensures Offset(buf, i, n + 1) == Offset(buf, i + Step(buf, i).len, n)
  {
  }

  /** Codes that are left to match need bytes that are left. */
  lemma {:induction false} NoMoreTokens(buf: Text, i: nat, k: Text, j: nat)
    requires i <= |buf| && j < |k| && Codes(Tokens(k, j)) <= Codes(Tokens(buf, i))
    ensures i < |buf|
  {
  }

  // ---------------------------------------------------------------- a matcher on bytes

  /** Keywords and texts as they come through a C interface, without a cut-off double-byte character. */
  ghost predicate IsText(buf: Text) {
    Whole(buf, 0) && forall i :: 0 <= i < |buf| ==> buf[i] != 0
  }

  ghost predicate AllWhole(ks: seq<Keyword>) {
    forall i :: 0 <= i < |ks| ==> Whole(ks[i].text, 0)
  }

  predicate Occurs(buf: Text, i: nat, k: Text) {
    i + |k| <= |buf| && buf[i..i + |k|] == k
  }

  /** The last of the first n keywords that was added with this text. */
  function LastWith(ks: seq<Keyword>, n: nat, text: Text): Option<Keyword>
    requires n <= |ks|
  {
    if n == 0 then None else if ks[n - 1].text == text then Some(ks[n - 1]) else LastWith(ks, n - 1, text)
  }

  /** The first of them. */
  function FirstWith(ks: seq<Keyword>, n: nat, text: Text): Option<Keyword>
    requires n <= |ks|
  {
    if n == 0 then None
    else if FirstWith(ks, n - 1, text).Some? then FirstWith(ks, n - 1, text)
    else if ks[n - 1].text == text then Some(ks[n - 1]) else None
  }

  /** The level that was last given to this text; 0 without a keyword. */
  function LevelOf(ks: seq<Keyword>, n: nat, text: Text): int
    requires n <= |ks|
  {
    match LastWith(ks, n, text)
    case None => 0
    case Some(k) => k.level
  }

  /** The k-th keyword stands at byte i and has a level that lets Check report it. */
  predicate StandsAt(ks: seq<Keyword>, k: nat, maxlevel: int, buf: Text, i: nat)
    requires k < |ks|
  {
    Occurs(buf, i, ks[k].text) && 0 < LevelOf(ks, |ks|, ks[k].text) <= maxlevel
  }

  /** The length of the longest of the first n keywords that stands at byte i, 0 if none does. */
  function LongestAt(ks: seq<Keyword>, n: nat, maxlevel: int, buf: Text, i: nat): (l: nat)
    requires n <= |ks|
    ensures forall k :: 0 <= k < n && StandsAt(ks, k, maxlevel, buf, i) ==> |ks[k].text| <= l
    ensures l > 0 ==> exists k :: 0 <= k < n && StandsAt(ks, k, maxlevel, buf, i) && |ks[k].text| == l
  {
    if n == 0 then 0
    else
      var l := LongestAt(ks, n - 1, maxlevel, buf, i);
      if StandsAt(ks, n - 1, maxlevel, buf, i) && |ks[n - 1].text| > l then |ks[n - 1].text| else l
  }

  /** A keyword found at a byte, with its length. */
  datatype Found = Found(pos: nat, length: nat)

  /** Characters below 0x80 are single bytes. */
  function CharacterLength(buf: Text, i: nat): (n: nat)
    requires i < |buf|
    ensures n > 0
  {
    if buf[i] < 0x80 then 1 else 2
  }

  /** Left to right over whole characters: the longest keyword where one stands, else one character on. */
  function ByteScan(ks: seq<Keyword>, maxlevel: int, buf: Text, i: nat): seq<Found>
    decreases |buf| - i
  {
    if i >= |buf| then []
    else
      var l := LongestAt(ks, |ks|, maxlevel, buf, i);
      if l > 0 then [Found(i, l)] + ByteScan(ks, maxlevel, buf, i + l)
      else ByteScan(ks, maxlevel, buf, i + CharacterLength(buf, i))
  }

  function FoundOf(buf: Text, h: Hit): Found {
    var o := Offset(buf, 0, h.start);
    Found(o, Offset(buf, o, h.depth) - o)
  }

  function AllFound(buf: Text, hits: seq<Hit>): seq<Found> {
    if hits == [] then [] else [FoundOf(buf, hits[0])] + AllFound(buf, hits[1..])
  }

  // ---------------------------------------------------------------- matching codes is matching bytes, both ways

  lemma {:induction false} OccursIsPrefix(buf: Text, i: nat, k: Text)
    requires i <= |buf| && Whole(buf, i) && Whole(k, 0)
    ensures Occurs(buf, i, k) <==> Codes(Tokens(k, 0)) <= Codes(Tokens(buf, i))
  {
    hide Tokens, Codes, Whole;
    assert k[0..] == k;
    CodesAreBytes(buf, i, k, 0);
    if Occurs(buf, i, k) {
      BytesAreCodes(buf, i, k, 0);
    }
  }

  /** The piece of n codes at token s is the path of a keyword exactly where the keyword stands. */
  lemma {:induction false} PieceIsKeyword(buf: Text, s: nat, k: Text)
    requires Whole(buf, 0) && Whole(k, 0) && s <= |Tokens(buf, 0)|
    ensures var codes, path, o := Codes(Tokens(buf, 0)), Codes(Tokens(k, 0)), Offset(buf, 0, s);
      Occurs(buf, o, k) <==> s + |path| <= |codes| && Piece(codes, s, |path|) == path
    ensures var o := Offset(buf, 0, s);
      Occurs(buf, o, k) ==> Offset(buf, o, |Tokens(k, 0)|) == o + |k|
  {
    TokensFrom(buf, 0, s);
    var o := Offset(buf, 0, s);
    hide Tokens, Whole, Offset, Occurs;
    assert Codes(Tokens(buf, o)) == Codes(Tokens(buf, 0))[s..];
    OccursIsPrefix(buf, o, k);
    if Occurs(buf, o, k) {
      MatchOffset(buf, o, k, 0);
    }
  }

  lemma {:induction false} OffsetMonotone(buf: Text, i: nat, a: nat, b: nat)
    requires a <= b
    ensures Offset(buf, i, a) <= Offset(buf, i, b)
  {
    OffsetAdd(buf, i, a, b - a);
  }

  lemma PathOfText(k: Keyword)
    requires k.text != []
    ensures |PathOf(k)| == |Tokens(k.text, 0)| > 0
  {
  }

  /** Whole texts have the same codes only if they are the same. */
  lemma {:induction false} CodesDetermineText(a: Text, b: Text)
    requires Whole(a, 0) && Whole(b, 0)
    ensures Codes(Tokens(a, 0)) == Codes(Tokens(b, 0)) ==> a == b
  {
    hide Tokens, Codes, Whole;
    CodesAreBytes(a, 0, b, 0);
    CodesAreBytes(b, 0, a, 0);
    assert a[0..] == a && b[0..] == b;
    assert |a| == |b| ==> a[0..|b|] == a;
  }

  /** The keywords of a path are those of its text. */
  lemma {:induction false} KeywordsAgree(ks: seq<Keyword>, n: nat, text: Text)
    requires n <= |ks| && AllWhole(ks) && Whole(text, 0)
    ensures LastAt(ks, n, Codes(Tokens(text, 0))) == LastWith(ks, n, text)
    ensures FirstAt(ks, n, Codes(Tokens(text, 0))) == FirstWith(ks, n, text)
  {
    hide Tokens, Codes, Whole;
    if n > 0 {
      KeywordsAgree(ks, n - 1, text);
      CodesDetermineText(text, ks[n - 1].text);
    }
  }

  lemma {:induction false} LiveText(ks: seq<Keyword>, k: nat, maxlevel: int)
    requires k < |ks| && AllWhole(ks)
    ensures Live(ks, |ks|, PathOf(ks[k]), maxlevel) <==> 0 < LevelOf(ks, |ks|, ks[k].text) <= maxlevel
  {
    hide Tokens, Codes, Whole;
    KeywordsAgree(ks, |ks|, ks[k].text);
  }

  /** At every token, the longest keyword in codes and the longest keyword in bytes are the same. */
  lemma {:induction false} LongestAgrees(ks: seq<Keyword>, maxlevel: int, buf: Text, s: nat)
    requires Named(ks) && AllWhole(ks) && Whole(buf, 0) && s < |Tokens(buf, 0)|
    ensures var index, codes, o := Built(ks, |ks|), Codes(Tokens(buf, 0)), Offset(buf, 0, s);
      var l, n := LongestUpTo(index, maxlevel, codes, s, |codes| - s), LongestAt(ks, |ks|, maxlevel, buf, o);
      (l > 0 <==> n > 0) && Offset(buf, o, l) == o + n
  {
    hide Built, Tokens, Codes, Offset, StandsAt, Whole, LongestUpTo, LongestAt, Reported, PathOf;
    var index, codes, o := Built(ks, |ks|), Codes(Tokens(buf, 0)), Offset(buf, 0, s);
    var l, n := LongestUpTo(index, maxlevel, codes, s, |codes| - s), LongestAt(ks, |ks|, maxlevel, buf, o);
    if l > 0 {
      LongestCodes(ks, maxlevel, buf, s, l);
    }
    if n > 0 {
      var k :| 0 <= k < |ks| && StandsAt(ks, k, maxlevel, buf, o) && |ks[k].text| == n;
      var m := LongestBytes(ks, maxlevel, buf, s, k);
      OffsetMonotone(buf, o, m, l);
    }
    OffsetNone(buf, o);
  }

  /** A longest reported piece is a keyword that stands in the bytes. */
  lemma {:induction false} LongestCodes(ks: seq<Keyword>, maxlevel: int, buf: Text, s: nat, l: nat)
    requires Named(ks) && AllWhole(ks) && Whole(buf, 0)
    requires 0 < l && s + l <= |Tokens(buf, 0)|
    requires Reported(Built(ks, |ks|), Piece(Codes(Tokens(buf, 0)), s, l), maxlevel)
    ensures var o := Offset(buf, 0, s);
      o < Offset(buf, o, l) <= o + LongestAt(ks, |ks|, maxlevel, buf, o)
  {
    hide Built, Tokens, Codes, Offset, Occurs, Whole, LongestAt, Reported, PathOf, Live;
    var codes, o := Codes(Tokens(buf, 0)), Offset(buf, 0, s);
    BuiltReports(ks, |ks|, Piece(codes, s, l), maxlevel);
    LiveIsKeyword(ks, |ks|, Piece(codes, s, l), maxlevel);
    var k :| 0 <= k < |ks| && IsAt(ks, k, Piece(codes, s, l));
    ThisKeyword(ks, k);
    LiveText(ks, k, maxlevel);
    PieceIsKeyword(buf, s, ks[k].text);
    assert StandsAt(ks, k, maxlevel, buf, o);
  }

  lemma ThisKeyword(ks: seq<Keyword>, k: nat)
    requires k < |ks|
    ensures PathOf(ks[k]) == Codes(Tokens(ks[k].text, 0)) && IsKeyword(ks, |ks|, PathOf(ks[k]))
    ensures |PathOf(ks[k])| == |Tokens(ks[k].text, 0)|
  {
    assert IsAt(ks, k, PathOf(ks[k]));
  }

  /** A keyword that stands in the bytes is a reported piece. */
  lemma LongestBytes(ks: seq<Keyword>, maxlevel: int, buf: Text, s: nat, k: nat) returns (m: nat)
    requires Named(ks) && AllWhole(ks) && Whole(buf, 0) && s < |Tokens(buf, 0)|
    requires k < |ks| && StandsAt(ks, k, maxlevel, buf, Offset(buf, 0, s))
    ensures var codes := Codes(Tokens(buf, 0));
      0 < m <= LongestUpTo(Built(ks, |ks|), maxlevel, codes, s, |codes| - s)
    ensures Offset(buf, Offset(buf, 0, s), m) == Offset(buf, 0, s) + |ks[k].text|
  {
    hide Built, Tokens, Codes, Offset, Occurs, Whole, LongestUpTo, Reported, PathOf, IsKeyword, Live;
    PieceIsKeyword(buf, s, ks[k].text);
    ThisKeyword(ks, k);
    LiveText(ks, k, maxlevel);
    BuiltReports(ks, |ks|, PathOf(ks[k]), maxlevel);
    PathOfText(ks[k]);
    m := |Tokens(ks[k].text, 0)|;
  }

  lemma {:induction false} EndOfTokens(buf: Text)
    requires Whole(buf, 0)
    ensures Offset(buf, 0, |Tokens(buf, 0)|) == |buf|
  {
    TokensFrom(buf, 0, |Tokens(buf, 0)|);
    assert Tokens(buf, 0)[|Tokens(buf, 0)|..] == [];
  }

  /** The longest-match scan over codes finds what the longest-match scan over bytes finds. */
  lemma {:induction false} NaiveIsByteScan(ks: seq<Keyword>, maxlevel: int, buf: Text, s: nat)
    requires Named(ks) && AllWhole(ks) && Whole(buf, 0) && s <= |Tokens(buf, 0)|
    ensures AllFound(buf, NaiveScan(Built(ks, |ks|), Codes(Tokens(buf, 0)), s, maxlevel)) ==
      ByteScan(ks, maxlevel, buf, Offset(buf, 0, s))
    decreases |Tokens(buf, 0)| - s
  {
    hide Built, Tokens, Codes, Offset, Whole, LongestUpTo, LongestAt, Reported, Named, AllWhole;
    hide NaiveScan, ByteScan, CharacterLength, AllFound, FoundOf;
    var index, codes, o := Built(ks, |ks|), Codes(Tokens(buf, 0)), Offset(buf, 0, s);
    if s == |codes| {
      EndOfTokens(buf);
      NothingToScan(index, codes, maxlevel, ks, buf);
    } else {
      TokensFrom(buf, 0, s);
      LongestAgrees(ks, maxlevel, buf, s);
      NaiveStep(index, codes, s, maxlevel);
      ByteStep(maxlevel, ks, buf, o);
      StepLength(buf, o);
      var l := LongestUpTo(index, maxlevel, codes, s, |codes| - s);
      OffsetAdd(buf, 0, s, if l > 0 then l else 1);
      OffsetOne(buf, o);
      if l > 0 {
        NaiveIsByteScan(ks, maxlevel, buf, s + l);
        FirstFound(buf, Hit(s, l), NaiveScan(index, codes, s + l, maxlevel));
        FoundAt(buf, s, l);
      } else {
        NaiveIsByteScan(ks, maxlevel, buf, s + 1);
      }
    }
  }

  lemma {:induction false} NothingToScan(index: Index, codes: Path, maxlevel: int, ks: seq<Keyword>, buf: Text)
    ensures AllFound(buf, NaiveScan(index, codes, |codes|, maxlevel)) == [] == ByteScan(ks, maxlevel, buf, |buf|)
  {
  }

  lemma StepLength(buf: Text, i: nat)
    requires i < |buf|
    ensures Step(buf, i).len == CharacterLength(buf, i)
  {
  }

  /** One step of either scan. */
  lemma NaiveStep(index: Index, codes: Path, s: nat, maxlevel: int)
    requires s < |codes|
    ensures var l := LongestUpTo(index, maxlevel, codes, s, |codes| - s);
      NaiveScan(index, codes, s, maxlevel) ==
        if l > 0 then [Hit(s, l)] + NaiveScan(index, codes, s + l, maxlevel)
        else NaiveScan(index, codes, s + 1, maxlevel)
  {
    hide LongestUpTo;
  }

  lemma ByteStep(maxlevel: int, ks: seq<Keyword>, buf: Text, o: nat)
    requires o < |buf|
    ensures var n := LongestAt(ks, |ks|, maxlevel, buf, o);
      ByteScan(ks, maxlevel, buf, o) ==
        if n > 0 then [Found(o, n)] + ByteScan(ks, maxlevel, buf, o + n)
        else ByteScan(ks, maxlevel, buf, o + CharacterLength(buf, o))
  {
    hide LongestAt, CharacterLength;
  }

  lemma {:induction false} FoundAt(buf: Text, s: nat, l: nat)
    ensures FoundOf(buf, Hit(s, l)) == Found(Offset(buf, 0, s), Offset(buf, Offset(buf, 0, s), l) - Offset(buf, 0, s))
  {
    hide Offset;
  }

  lemma {:induction false} OffsetOne(buf: Text, i: nat)
    requires i < |buf|
    ensures Offset(buf, i, 1) == i + Step(buf, i).len
  {
  }

  lemma {:induction false} FirstFound(buf: Text, h: Hit, hits: seq<Hit>)
    ensures AllFound(buf, [h] + hits) == [FoundOf(buf, h)] + AllFound(buf, hits)
  {
    assert ([h] + hits)[1..] == hits;
  }

  // ---------------------------------------------------------------- texts on which keywords are missed

  lemma {:induction false} OffsetInside(buf: Text, i: nat, n: nat)
    requires n < |Tokens(buf, i)|
    ensures Offset(buf, i, n) < |buf|
    decreases n
  {
    if n > 0 {
      OffsetInside(buf, i + Step(buf, i).len, n - 1);
    }
  }

  /** The bytes in front of a token have the tokens in front of it. */
  lemma {:induction false} TokensOfFront(buf: Text, i: nat, n: nat, o: nat)
    requires n < |Tokens(buf, i)| && o == Offset(buf, i, n) <= |buf|
    ensures Codes(Tokens(buf[..o], i)) == Codes(Tokens(buf, i))[..n] && Whole(buf[..o], i)
    decreases n
  {
    if n == 0 {
      NoCodesLeft(buf[..o], i);
    } else {
      var next := i + Step(buf, i).len;
      OffsetInside(buf, next, n - 1);
      assert Step(buf[..o], i) == Step(buf, i);
      CodesFirst(buf, i);
      CodesFirst(buf[..o], i);
      TokensOfFront(buf, next, n - 1, o);
      hide Tokens, Codes, Step;
      assert Codes(Tokens(buf, i))[..n] == [Step(buf, i).code] + Codes(Tokens(buf, next))[..n - 1];
    }
  }

  ghost predicate Strings(ks: seq<Keyword>) {
    forall i, k :: 0 <= i < |ks| && 0 <= k < |ks[i].text| ==> ks[i].text[k] != 0
  }

  /** A proper prefix of a keyword's path is the path of a text. */
  lemma PrefixIsText(ks: seq<Keyword>, j: nat, q: Path) returns (buf: Text)
    requires Strings(ks) && j < |ks| && StartsAt(ks, j, q) && q != PathOf(ks[j])
    ensures IsText(buf) && Codes(Tokens(buf, 0)) == q
  {
    var text := ks[j].text;
    assert q == PathOf(ks[j])[..|q|];
    OffsetInside(text, 0, |q|);
    var o := Offset(text, 0, |q|);
    TokensOfFront(text, 0, |q|, o);
    buf := text[..o];
    hide Tokens, Codes, Offset, Whole;
    assert forall i :: 0 <= i < |buf| ==> buf[i] == text[i];
  }

  /** The path of a node that is not live is the codes of a text, if no keyword ends in a cut-off character. */
  lemma NodeIsText(ks: seq<Keyword>, maxlevel: int, q: Path) returns (buf: Text)
    requires Strings(ks) && (AllWhole(ks) || AllLive(ks, maxlevel))
    requires IsPrefix(ks, |ks|, q) && !Live(ks, |ks|, q, maxlevel)
    ensures IsText(buf) && Codes(Tokens(buf, 0)) == q
  {
    hide PathOf, Live, AllLive;
    var j :| 0 <= j < |ks| && StartsAt(ks, j, q);
    if q == PathOf(ks[j]) {
      ThisKeyword(ks, j);
      if AllLive(ks, maxlevel) {
        KeywordIsLive(ks, |ks|, q, maxlevel);
      }
      buf := ks[j].text;
    } else {
      buf := PrefixIsText(ks, j, q);
    }
  }

  lemma GapText(ks: seq<Keyword>, maxlevel: int) returns (buf: Text)
    requires Named(ks) && Strings(ks) && (AllWhole(ks) || AllLive(ks, maxlevel)) && !Gapless(ks, maxlevel)
    ensures IsText(buf) && buf != []
    ensures var index, codes := Built(ks, |ks|), Codes(Tokens(buf, 0));
      && NaiveScan(index, codes, 0, maxlevel) != [] && NaiveScan(index, codes, 0, maxlevel)[0].start == 0
      && forall h :: h in Scan(index, codes, 0, maxlevel) ==> h.start > 0
  {
    hide Built, PathOf, IsPrefix, PrefixClosed, Named, Live, AllLive, AllWhole, Reported, Strings;
    hide IsText, Tokens, Codes, Scan, NaiveScan;
    var n := |ks|;
    var p, q :| p < q && Live(ks, n, p, maxlevel) && IsPrefix(ks, n, q) && !Live(ks, n, q, maxlevel);
    buf := NodeIsText(ks, maxlevel, q);
    RootIsNotLive(ks, maxlevel);
    BuiltNodes(ks, n, q);
    BuiltReports(ks, n, p, maxlevel);
    BuiltReports(ks, n, q, maxlevel);
    GapIsMissed(Built(ks, n), p, q, maxlevel);
    NoBytesNoCodes(buf);
  }

  lemma {:induction false} NoBytesNoCodes(buf: Text)
    ensures Codes(Tokens(buf, 0)) != [] ==> buf != []
  {
  }

  /** Check finds the leftmost longest keywords of every text exactly when the keywords leave no gap. */
  lemma {:induction false} KeywordsAreFound(ks: seq<Keyword>, maxlevel: int)
    requires Named(ks) && Strings(ks) && (AllWhole(ks) || AllLive(ks, maxlevel))
    ensures var index := Built(ks, |ks|);
      Gapless(ks, maxlevel) <==> forall buf | IsText(buf) ::
        Scan(index, Codes(Tokens(buf, 0)), 0, maxlevel) == NaiveScan(index, Codes(Tokens(buf, 0)), 0, maxlevel)
  {
    hide Built, Gapless, Named, AllWhole, AllLive, Strings, IsText, Tokens, Codes, Scan, NaiveScan;
    if Gapless(ks, maxlevel) {
      forall buf | IsText(buf)
        ensures Scan(Built(ks, |ks|), Codes(Tokens(buf, 0)), 0, maxlevel)
             == NaiveScan(Built(ks, |ks|), Codes(Tokens(buf, 0)), 0, maxlevel)
      {
        GaplessIsFound(ks, maxlevel, Codes(Tokens(buf, 0)));
      }
    } else {
      var buf := GapText(ks, maxlevel);
      var scan := Scan(Built(ks, |ks|), Codes(Tokens(buf, 0)), 0, maxlevel);
      var naive := NaiveScan(Built(ks, |ks|), Codes(Tokens(buf, 0)), 0, maxlevel);
      assert naive[0] in naive && naive[0] !in scan;
      assert scan != naive;
    }
  }

  lemma {:induction false} LateHitsAreLate(buf: Text, hits: seq<Hit>)
    requires buf != [] && forall h :: h in hits ==> h.start > 0
    ensures forall f :: f in AllFound(buf, hits) ==> f.pos > 0
  {
    if hits != [] {
      OffsetGrows(buf, 0, hits[0].start);
      LateHitsAreLate(buf, hits[1..]);
    }
  }

  /**
    In bytes: for every text, Check reports exactly the keywords a plain scan over its characters finds,
    each at its byte and with its length, exactly when the keywords leave no gap.
   */
  lemma {:induction false} CheckFindsTheBytes(ks: seq<Keyword>, maxlevel: int)
    requires Named(ks) && Strings(ks) && AllWhole(ks)
    ensures var index := Built(ks, |ks|);
      Gapless(ks, maxlevel) <==> forall buf | IsText(buf) ::
        AllFound(buf, Scan(index, Codes(Tokens(buf, 0)), 0, maxlevel)) == ByteScan(ks, maxlevel, buf, 0)
  {
    hide Built, Gapless, Named, Strings, AllWhole, Tokens, Codes, Scan, NaiveScan, ByteScan, AllFound, Whole;
    var index := Built(ks, |ks|);
    forall buf | IsText(buf)
      ensures AllFound(buf, NaiveScan(index, Codes(Tokens(buf, 0)), 0, maxlevel)) == ByteScan(ks, maxlevel, buf, 0)
    {
      NaiveIsByteScan(ks, maxlevel, buf, 0);
      OffsetNone(buf, 0);
    }
    if Gapless(ks, maxlevel) {
      KeywordsAreFound(ks, maxlevel);
    } else {
      var buf := GapText(ks, maxlevel);
      var codes := Codes(Tokens(buf, 0));
      GapIsSeen(buf, Scan(index, codes, 0, maxlevel), NaiveScan(index, codes, 0, maxlevel));
    }
  }

  lemma {:induction false} GapIsSeen(buf: Text, scan: seq<Hit>, naive: seq<Hit>)
    requires buf != [] && naive != [] && naive[0].start == 0 && forall h :: h in scan ==> h.start > 0
    ensures AllFound(buf, scan) != AllFound(buf, naive)
  {
    OffsetNone(buf, 0);
    LateHitsAreLate(buf, scan);
    assert AllFound(buf, naive)[0].pos == 0;
    assert AllFound(buf, naive)[0] in AllFound(buf, naive);
  }

  // ---------------------------------------------------------------- what Check returns

  lemma {:induction false} FirstHasText(ks: seq<Keyword>, n: nat, text: Text)
    requires n <= |ks|
    ensures FirstWith(ks, n, text).Some? ==> FirstWith(ks, n, text).value.text == text
    ensures FirstWith(ks, n, text).Some? <==> LastWith(ks, n, text).Some?
  {
    if n > 0 {
      FirstHasText(ks, n - 1, text);
    }
  }

  /** A reported hit holds the bytes of the text it stands on, and the data of that keyword. */
  lemma {:induction false} HitHoldsBytes(ks: seq<Keyword>, maxlevel: int, buf: Text, h: Hit)
    requires AllWhole(ks) && Whole(buf, 0)
    requires h.start < |Tokens(buf, 0)| && h.start + h.depth <= |Tokens(buf, 0)|
    requires Reported(Built(ks, |ks|), Piece(Codes(Tokens(buf, 0)), h.start, h.depth), maxlevel)
    ensures Holds(ks, buf, FoundOf(buf, h),
                  ResultOf(Tokens(buf, 0)[h.start].pos,
                           Built(ks, |ks|)[Piece(Codes(Tokens(buf, 0)), h.start, h.depth)]))
  {
    hide Built, Tokens, Codes, Offset, Whole, PathOf, Live, LastAt, FirstAt, LastWith, FirstWith;
    var p := Piece(Codes(Tokens(buf, 0)), h.start, h.depth);
    TokensFrom(buf, 0, h.start);
    BuiltReports(ks, |ks|, p, maxlevel);
    LiveIsKeyword(ks, |ks|, p, maxlevel);
    var i :| 0 <= i < |ks| && IsAt(ks, i, p);
    ThisKeyword(ks, i);
    PieceIsKeyword(buf, h.start, ks[i].text);
    BuiltData(ks, |ks|, p);
    KeywordsAgree(ks, |ks|, ks[i].text);
    FirstHasText(ks, |ks|, ks[i].text);
  }

  /**
    A result stands for what was found: its byte offset and the bytes there; the level, the type and the replacement
    flag of the last keyword added with these bytes; the replacement of the first.
   */
  ghost predicate Holds(ks: seq<Keyword>, buf: Text, f: Found, r: CheckRes) {
    && f.pos + f.length <= |buf|
    && r.pos == f.pos && r.content == Some(buf[f.pos..f.pos + f.length])
    && var last, first := LastWith(ks, |ks|, r.content.value), FirstWith(ks, |ks|, r.content.value);
       && last.Some? && r.level == last.value.level && r.kind == last.value.kind && r.iReplace == last.value.iReplace
       && first.Some? && r.replaceContent == Some(first.value.dst)
  }

  ghost predicate AllHold(ks: seq<Keyword>, buf: Text, found: seq<Found>, res: seq<CheckRes>) {
    |found| == |res| && forall n :: 0 <= n < |res| ==> Holds(ks, buf, found[n], res[n])
  }

  lemma {:induction false} FoundIndex(buf: Text, hits: seq<Hit>, n: nat)
    requires n < |hits|
    ensures |AllFound(buf, hits)| == |hits| && AllFound(buf, hits)[n] == FoundOf(buf, hits[n])
    decreases n
  {
    FoundLength(buf, hits);
    if n > 0 {
      FoundIndex(buf, hits[1..], n - 1);
    }
  }

  lemma {:induction false} FoundLength(buf: Text, hits: seq<Hit>)
    ensures |AllFound(buf, hits)| == |hits|
  {
    if hits != [] {
      FoundLength(buf, hits[1..]);
    }
  }

  /** Whatever the keywords and their levels: each result of Check holds the keyword that stands where the hit is. */
  lemma {:induction false} ResultsHoldBytes(ks: seq<Keyword>, maxlevel: int, buf: Text)
    requires AllWhole(ks) && Whole(buf, 0)
    ensures var hits := Scan(Built(ks, |ks|), Codes(Tokens(buf, 0)), 0, maxlevel);
      && HitsIn(Built(ks, |ks|), Codes(Tokens(buf, 0)), hits)
      && AllHold(ks, buf, AllFound(buf, hits), Results(Built(ks, |ks|), Tokens(buf, 0), hits))
  {
    hide Built, Tokens, Codes, Whole, Scan, FoundOf, AllFound, Holds;
    var hits := Scan(Built(ks, |ks|), Codes(Tokens(buf, 0)), 0, maxlevel);
    HitsLieInText(Built(ks, |ks|), Codes(Tokens(buf, 0)), 0, maxlevel);
    FoundLength(buf, hits);
    var found, res := AllFound(buf, hits), Results(Built(ks, |ks|), Tokens(buf, 0), hits);
    forall n | 0 <= n < |hits| ensures Holds(ks, buf, found[n], res[n]) {
      assert hits[n] in hits;
      FoundIndex(buf, hits, n);
      HitHoldsBytes(ks, maxlevel, buf, hits[n]);
    }
  }

  /** Whole keywords without a gap, of any levels: Check returns what the plain scan over bytes finds. */
  ghost predicate Searchable(ks: seq<Keyword>, maxlevel: int) {
    Named(ks) && AllWhole(ks) && Gapless(ks, maxlevel)
  }

  lemma {:induction false} ResultsAreByteScan(ks: seq<Keyword>, maxlevel: int, buf: Text)
    requires Searchable(ks, maxlevel) && Whole(buf, 0)
    ensures var hits := Scan(Built(ks, |ks|), Codes(Tokens(buf, 0)), 0, maxlevel);
      && HitsIn(Built(ks, |ks|), Codes(Tokens(buf, 0)), hits)
      && AllHold(ks, buf, ByteScan(ks, maxlevel, buf, 0), Results(Built(ks, |ks|), Tokens(buf, 0), hits))
  {
    hide Built, Tokens, Codes, Whole, Scan, NaiveScan, ByteScan, AllFound, AllHold, Named, AllWhole, Gapless;
    ResultsHoldBytes(ks, maxlevel, buf);
    GaplessIsFound(ks, maxlevel, Codes(Tokens(buf, 0)));
    NaiveIsByteScan(ks, maxlevel, buf, 0);
    OffsetNone(buf, 0);
  }
}
