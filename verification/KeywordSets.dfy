/** Sets of keywords as AddKeyWord leaves them, and what Check then finds: common/inutil/inv_keyword.cpp. */
module KeywordSets {
  import opened KeywordIndex
  import opened Options

  datatype Keyword = Keyword(text: Text, dst: Text, iReplace: int, level: int, kind: int)

  const ROOT: Index := map[[] := BLANK]

  function PathOf(k: Keyword): Path {
    Codes(Tokens(k.text, 0))
  }

  /** The index after adding the first n keywords to an empty tree with nodes enough. */
  function Built(ks: seq<Keyword>, n: nat): Index
    requires n <= |ks|
  {
    if n == 0 then ROOT
    else
      var k := ks[n - 1];
      Added(Built(ks, n - 1), PathOf(k), |PathOf(k)|, k.text, k.dst, k.iReplace, k.level, k.kind)
  }

  predicate StartsAt(ks: seq<Keyword>, i: nat, p: Path)
    requires i < |ks|
  {
    p <= PathOf(ks[i])
  }

  predicate IsAt(ks: seq<Keyword>, i: nat, p: Path)
    requires i < |ks|
  {
    p == PathOf(ks[i])
  }

  ghost predicate IsPrefix(ks: seq<Keyword>, n: nat, p: Path)
    requires n <= |ks|
  {
    exists i :: 0 <= i < n && StartsAt(ks, i, p)
  }

  ghost predicate IsKeyword(ks: seq<Keyword>, n: nat, p: Path)
    requires n <= |ks|
  {
    exists i :: 0 <= i < n && IsAt(ks, i, p)
  }

  /** The last of the first n keywords that was added with this path. */
  function LastAt(ks: seq<Keyword>, n: nat, p: Path): Option<Keyword>
    requires n <= |ks|
  {
    if n == 0 then None else if IsAt(ks, n - 1, p) then Some(ks[n - 1]) else LastAt(ks, n - 1, p)
  }

  /** The first of them. */
  function FirstAt(ks: seq<Keyword>, n: nat, p: Path): Option<Keyword>
    requires n <= |ks|
  {
    if n == 0 then None
    else if FirstAt(ks, n - 1, p).Some? then FirstAt(ks, n - 1, p)
    else if IsAt(ks, n - 1, p) then Some(ks[n - 1]) else None
  }

  /** The level that was last given to this path; 0 without a keyword. */
  function LevelAt(ks: seq<Keyword>, n: nat, p: Path): int
    requires n <= |ks|
  {
    match LastAt(ks, n, p)
    case None => 0
    case Some(k) => k.level
  }

  /** What a node holds: level, flag and type of the last keyword added there, the texts of the first. */
  ghost predicate HasData(ks: seq<Keyword>, n: nat, p: Path, i: Info)
    requires n <= |ks|
  {
    match LastAt(ks, n, p)
    case None => i == BLANK && FirstAt(ks, n, p).None?
    case Some(k) =>
      && i.level == k.level && i.iReplace == k.iReplace && i.kind == k.kind && FirstAt(ks, n, p).Some?
      && i.content == Some(FirstAt(ks, n, p).value.text) && i.replaceContent == Some(FirstAt(ks, n, p).value.dst)
  }

  /** A keyword whose level lets Check report it. */
  predicate Live(ks: seq<Keyword>, n: nat, p: Path, maxlevel: int)
    requires n <= |ks|
  {
    0 < LevelAt(ks, n, p) <= maxlevel
  }

  ghost predicate Named(ks: seq<Keyword>) {
    forall i :: 0 <= i < |ks| ==> ks[i].text != []
  }

  /** Every keyword is added with a level that lets Check report it. */
  ghost predicate AllLive(ks: seq<Keyword>, maxlevel: int) {
    forall i :: 0 <= i < |ks| ==> 0 < ks[i].level <= maxlevel
  }

  lemma {:induction false} LiveIsKeyword(ks: seq<Keyword>, n: nat, p: Path, maxlevel: int)
    requires n <= |ks| && Live(ks, n, p, maxlevel)
    ensures IsKeyword(ks, n, p)
  {
    if !IsAt(ks, n - 1, p) {
      LiveIsKeyword(ks, n - 1, p, maxlevel);
    }
  }

  lemma {:induction false} KeywordIsLive(ks: seq<Keyword>, n: nat, p: Path, maxlevel: int)
    requires n <= |ks| && AllLive(ks, maxlevel) && IsKeyword(ks, n, p)
    ensures Live(ks, n, p, maxlevel)
  {
    if !IsAt(ks, n - 1, p) {
      KeywordIsLive(ks, n - 1, p, maxlevel);
    }
  }

  /** One more keyword: its prefixes become nodes, its own node gets its data, the rest stays. */
  lemma BuiltStep(ks: seq<Keyword>, n: nat, p: Path)
    requires 0 < n <= |ks| && PrefixClosed(Built(ks, n - 1))
    ensures var before, r, k := Built(ks, n - 1), Built(ks, n), ks[n - 1];
      && PrefixClosed(r)
      && (p in r <==> p in before || StartsAt(ks, n - 1, p))
      && (p in r && !IsAt(ks, n - 1, p) ==> r[p] == if p in before then before[p] else BLANK)
      && (IsAt(ks, n - 1, p) ==>
            && p in r && r[p].level == k.level && r[p].iReplace == k.iReplace && r[p].kind == k.kind
            && var old_ := if p in before then before[p] else BLANK;
               r[p].content == (if old_.content.None? then Some(k.text) else old_.content)
               && r[p].replaceContent == if old_.replaceContent.None? then Some(k.dst) else old_.replaceContent)
  {
    hide Missing, Reach, Added, PrefixClosed, Tokens, Codes;
    var k, path, before := ks[n - 1], PathOf(ks[n - 1]), Built(ks, n - 1);
    var free := Missing(before, path, 0);
    ReachesTheEnd(before, path, 0, free);
    AddedEntries(before, path, free, k.text, k.dst, k.iReplace, k.level, k.kind, p);
  }

  lemma BuiltNone()
    ensures PrefixClosed(ROOT) && forall p :: p in ROOT <==> p == []
  {
  }

  lemma MorePrefixes(ks: seq<Keyword>, n: nat, p: Path)
    requires 0 < n <= |ks|
    ensures IsPrefix(ks, n, p) <==> IsPrefix(ks, n - 1, p) || StartsAt(ks, n - 1, p)
    ensures IsKeyword(ks, n, p) <==> IsKeyword(ks, n - 1, p) || IsAt(ks, n - 1, p)
  {
    hide StartsAt, IsAt;
  }

  /** The nodes are the prefixes of the keywords. */
  lemma {:induction false} BuiltNodes(ks: seq<Keyword>, n: nat, p: Path)
    requires n <= |ks|
    ensures PrefixClosed(Built(ks, n))
    ensures p in Built(ks, n) <==> p == [] || IsPrefix(ks, n, p)
  {
    BuiltNone();
    hide PrefixClosed, IsPrefix, StartsAt;
    if n > 0 {
      hide Built;
      BuiltNodes(ks, n - 1, p);
      BuiltStep(ks, n, p);
      MorePrefixes(ks, n, p);
    } else {
      NoPrefixes(ks, p);
    }
  }

  lemma NoPrefixes(ks: seq<Keyword>, p: Path)
    ensures !IsPrefix(ks, 0, p) && !IsKeyword(ks, 0, p)
  {
  }

  /** Every node holds the data of its keywords, and a path without a node has none. */
  lemma {:induction false} BuiltData(ks: seq<Keyword>, n: nat, p: Path)
    requires n <= |ks|
    ensures HasData(ks, n, p, if p in Built(ks, n) then Built(ks, n)[p] else BLANK)
  {
    hide PrefixClosed, StartsAt, PathOf;
    if n > 0 {
      BuiltNodes(ks, n - 1, p);
      BuiltData(ks, n - 1, p);
      hide Built, IsAt;
      BuiltStep(ks, n, p);
    }
  }

  /** The reported nodes are the keywords with a level up to maxlevel, the last level given counting. */
  lemma {:induction false} BuiltReports(ks: seq<Keyword>, n: nat, p: Path, maxlevel: int)
    requires n <= |ks|
    ensures Reported(Built(ks, n), p, maxlevel) <==> Live(ks, n, p, maxlevel)
  {
    hide PathOf;
    BuiltData(ks, n, p);
  }

  lemma NotEmpty(ks: seq<Keyword>, i: nat)
    requires i < |ks| && Named(ks)
    ensures PathOf(ks[i]) != []
  {
    assert Tokens(ks[i].text, 0) != [];
  }

  /** A longer prefix of any keyword that starts with a live keyword is a live keyword as well. */
  ghost predicate Gapless(ks: seq<Keyword>, maxlevel: int) {
    forall p, q :: p < q && Live(ks, |ks|, p, maxlevel) && IsPrefix(ks, |ks|, q) ==> Live(ks, |ks|, q, maxlevel)
  }

  ghost predicate PrefixFree(ks: seq<Keyword>) {
    forall i, j :: 0 <= i < |ks| && 0 <= j < |ks| && StartsAt(ks, j, PathOf(ks[i])) ==> PathOf(ks[i]) == PathOf(ks[j])
  }

  lemma {:induction false} GaplessIndex(ks: seq<Keyword>, maxlevel: int)
    ensures Gapless(ks, maxlevel) <==> GapFree(Built(ks, |ks|), maxlevel)
  {
    hide Built, Live, IsPrefix, PrefixClosed, Reported;
    var n := |ks|;
    forall p ensures Reported(Built(ks, n), p, maxlevel) <==> Live(ks, n, p, maxlevel) {
      BuiltReports(ks, n, p, maxlevel);
    }
    forall p: Path | p != [] ensures p in Built(ks, n) <==> IsPrefix(ks, n, p) {
      BuiltNodes(ks, n, p);
    }
  }

  /** Keywords none of which starts another one leave no gap, whatever their levels are. */
  lemma PrefixFreeIsGapless(ks: seq<Keyword>, maxlevel: int)
    requires PrefixFree(ks)
    ensures Gapless(ks, maxlevel)
  {
    hide PathOf, Live;
    forall p, q | p <= q && Live(ks, |ks|, p, maxlevel) && IsPrefix(ks, |ks|, q) ensures p == q {
      LiveIsKeyword(ks, |ks|, p, maxlevel);
      var i, j :| 0 <= i < |ks| && IsAt(ks, i, p) && 0 <= j < |ks| && StartsAt(ks, j, q);
      assert StartsAt(ks, j, PathOf(ks[i]));
    }
  }

  lemma RootIsNotLive(ks: seq<Keyword>, maxlevel: int)
    requires Named(ks)
    ensures !Live(ks, |ks|, [], maxlevel)
  {
    hide PathOf, Live;
    if Live(ks, |ks|, [], maxlevel) {
      LiveIsKeyword(ks, |ks|, [], maxlevel);
      var i :| 0 <= i < |ks| && IsAt(ks, i, []);
      NotEmpty(ks, i);
    }
  }

  /** Gapless keywords are found, leftmost and longest first, in every sequence of codes. */
  lemma {:induction false} GaplessIsFound(ks: seq<Keyword>, maxlevel: int, codes: Path)
    requires Named(ks) && Gapless(ks, maxlevel)
    ensures Scan(Built(ks, |ks|), codes, 0, maxlevel) == NaiveScan(Built(ks, |ks|), codes, 0, maxlevel)
  {
    hide Built, Live, PrefixClosed, Named, Reported, Scan, NaiveScan, GapFree, Gapless;
    var index := Built(ks, |ks|);
    BuiltReports(ks, |ks|, [], maxlevel);
    BuiltNodes(ks, |ks|, []);
    RootIsNotLive(ks, maxlevel);
    GaplessIndex(ks, maxlevel);
    GapFreeScansAgree(index, codes, 0, maxlevel);
  }

  /** Keywords none of which starts another are always found. */
  lemma {:induction false} PrefixFreeKeywordsAreFound(ks: seq<Keyword>, maxlevel: int, codes: Path)
    requires Named(ks) && PrefixFree(ks)
    ensures Scan(Built(ks, |ks|), codes, 0, maxlevel) == NaiveScan(Built(ks, |ks|), codes, 0, maxlevel)
  {
    hide Built, Named, PrefixFree, Gapless, Scan, NaiveScan;
    PrefixFreeIsGapless(ks, maxlevel);
    GaplessIsFound(ks, maxlevel, codes);
  }

  // ---------------------------------------------------------------- how many nodes a set of keywords takes

  /** One more keyword takes a node for each of its prefixes that is not there. */
  lemma BuiltSize(ks: seq<Keyword>, n: nat)
    requires 0 < n <= |ks|
    ensures |Built(ks, n)| == |Built(ks, n - 1)| + Missing(Built(ks, n - 1), PathOf(ks[n - 1]), 0)
  {
    hide Added, Missing, PrefixClosed, IsPrefix;
    var k := ks[n - 1];
    BuiltNodes(ks, n - 1, []);
    AddedSize(Built(ks, n - 1), PathOf(k), k.text, k.dst, k.iReplace, k.level, k.kind);
  }

  lemma {:induction false} BuiltIgnoresLater(ks: seq<Keyword>, more: seq<Keyword>, n: nat)
    requires n <= |ks|
    ensures Built(ks + more, n) == Built(ks, n)
  {
    if n > 0 {
      BuiltIgnoresLater(ks, more, n - 1);
    }
  }

  /** Adding a keyword to the index of others, with nodes enough, gives the index of all of them. */
  lemma {:induction false} BuiltSnoc(ks: seq<Keyword>, k: Keyword, free: nat)
    ensures var before, after := Built(ks, |ks|), Built(ks + [k], |ks| + 1);
      && |after| == |before| + Missing(before, PathOf(k), 0)
      && (|after| <= |before| + free ==>
            Added(before, PathOf(k), Reach(before, PathOf(k), 0, free),
                  k.text, k.dst, k.iReplace, k.level, k.kind) == after)
  {
    hide Added, Missing, Reach, PathOf;
    BuiltIgnoresLater(ks, [k], |ks|);
    assert (ks + [k])[|ks|] == k;
    BuiltSize(ks + [k], |ks| + 1);
    ReachesTheEnd(Built(ks, |ks|), PathOf(k), 0, free);
  }
}
