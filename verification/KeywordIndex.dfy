/**
  What a KeyWordSearch tree stands for: a prefix-closed index from token-code paths to node data; how
  keywords get into it, what the greedy scan reports, and when that agrees with a longest-match scan.
 */
module KeywordIndex {
  import opened Bytes
  import opened Options

  type Text = seq<Byte>
  type Path = seq<nat>

  // ---------------------------------------------------------------- tokens

  datatype Token = Token(pos: nat, len: nat, code: nat)

  /** A byte of 0x80 or more starts a double-byte character; past the end the source reads the terminating 0. */
  function Step(buf: Text, i: nat): (t: Token)
    requires i < |buf|
    ensures 1 <= t.len <= 2
  {
    if buf[i] >= 0x80 then Token(i, 2, 256 * buf[i] as int + (if i + 1 < |buf| then buf[i + 1] else 0) as int)
    else Token(i, 1, buf[i])
  }

  function Tokens(buf: Text, i: nat): seq<Token>
    decreases |buf| - i
  {
    if i >= |buf| then [] else [Step(buf, i)] + Tokens(buf, i + Step(buf, i).len)
  }

  function Codes(tokens: seq<Token>): (r: Path)
    ensures |r| == |tokens|
  {
    seq(|tokens|, i requires 0 <= i < |tokens| => tokens[i].code)
  }

  /** No double-byte character is cut off at the end. */
  predicate Whole(buf: Text, i: nat)
    decreases |buf| - i
  {
    if i >= |buf| then i == |buf| else Whole(buf, i + Step(buf, i).len)
  }

  lemma {:induction false} TokensSuffix(buf: Text, i: nat, s: nat)
    requires s < |Tokens(buf, i)|
    ensures var pos := Tokens(buf, i)[s].pos;
            pos < |buf| && Tokens(buf, i)[s..] == Tokens(buf, pos) && (Whole(buf, i) ==> Whole(buf, pos))
    decreases s
  {
    if s > 0 {
      var next := i + Step(buf, i).len;
      TokensSuffix(buf, next, s - 1);
      assert Tokens(buf, i)[1..] == Tokens(buf, next);
      assert Tokens(buf, i)[s..] == Tokens(buf, next)[s - 1..];
    }
  }

  lemma StepDeterminesBytes(a: Text, i: nat, b: Text, j: nat)
    requires i < |a| && j < |b| && Whole(a, i) && Whole(b, j)
    ensures var x, y := Step(a, i), Step(b, j);
            && i + x.len <= |a| && j + y.len <= |b| && Whole(a, i + x.len) && Whole(b, j + y.len)
            && (x.code == y.code <==> a[i..i + x.len] == b[j..j + y.len])
  {
    var x, y := Step(a, i), Step(b, j);
    if x.len == 2 && y.len == 2 {
      assert x.code == 256 * (a[i] as int) + a[i + 1] as int;
      assert y.code == 256 * (b[j] as int) + b[j + 1] as int;
      assert a[i..i + 2] == [a[i], a[i + 1]] && b[j..j + 2] == [b[j], b[j + 1]];
    } else if x.len == 1 && y.len == 1 {
      assert a[i..i + 1] == [a[i]] && b[j..j + 1] == [b[j]];
    } else {
      assert a[i..i + x.len][0] == a[i] && b[j..j + y.len][0] == b[j];
    }
  }

  lemma CodesFirst(buf: Text, i: nat)
    requires i < |buf|
    ensures Codes(Tokens(buf, i)) == [Step(buf, i).code] + Codes(Tokens(buf, i + Step(buf, i).len))
  {
  }

  lemma {:induction false} NoCodesLeft(buf: Text, i: nat)
    requires i >= |buf|
    ensures Codes(Tokens(buf, i)) == []
  {
  }

  lemma PrefixOfCons(x: nat, xs: Path, y: nat, ys: Path)
    ensures [x] + xs <= [y] + ys <==> x == y && xs <= ys
  {
    if [x] + xs <= [y] + ys {
      assert ([y] + ys)[..1 + |xs|] == [x] + xs;
      assert ([y] + ys)[..1 + |xs|][1..] == ys[..|xs|] && ([x] + xs)[1..] == xs;
      assert ([x] + xs)[0] == ([y] + ys)[0];
    }
    if x == y && xs <= ys {
      assert ([y] + ys)[..1 + |xs|] == [y] + ys[..|xs|];
    }
  }

  lemma JoinPieces(buf: Text, i: nat, k: Text, j: nat, x: nat)
    requires j + x <= |k| && i + (|k| - j) <= |buf|
    requires buf[i..i + x] == k[j..j + x] && buf[i + x..i + (|k| - j)] == k[j + x..]
    ensures buf[i..i + (|k| - j)] == k[j..]
  {
    assert buf[i..i + (|k| - j)] == buf[i..i + x] + buf[i + x..i + (|k| - j)];
    assert k[j..] == k[j..j + x] + k[j + x..];
  }

  /** On whole texts, matching token codes is matching bytes. */
  lemma {:induction false} CodesAreBytes(buf: Text, i: nat, k: Text, j: nat)
    requires i <= |buf| && j <= |k| && Whole(buf, i) && Whole(k, j)
    ensures Codes(Tokens(k, j)) <= Codes(Tokens(buf, i)) ==> i + (|k| - j) <= |buf| && buf[i..i + (|k| - j)] == k[j..]
    decreases |k| - j
  {
    if j < |k| && i < |buf| {
      hide Tokens, Codes, Step, Whole;
      var x, y := Step(buf, i), Step(k, j);
      CodesFirst(buf, i);
      CodesFirst(k, j);
      PrefixOfCons(y.code, Codes(Tokens(k, j + y.len)), x.code, Codes(Tokens(buf, i + x.len)));
      StepDeterminesBytes(buf, i, k, j);
      CodesAreBytes(buf, i + x.len, k, j + y.len);
      if x.code == y.code && Codes(Tokens(k, j)) <= Codes(Tokens(buf, i)) {
        assert x.len == |buf[i..i + x.len]| == y.len;
        JoinPieces(buf, i, k, j, x.len);
      }
    }
  }

  /** And matching bytes, from one token boundary, is matching token codes. */
  lemma {:induction false} BytesAreCodes(buf: Text, i: nat, k: Text, j: nat)
    requires i <= |buf| && j <= |k| && Whole(buf, i) && Whole(k, j)
    requires i + (|k| - j) <= |buf| && buf[i..i + (|k| - j)] == k[j..]
    ensures Codes(Tokens(k, j)) <= Codes(Tokens(buf, i))
    decreases |k| - j
  {
    if j == |k| {
      NoCodesLeft(k, j);
    } else {
      hide Tokens, Codes, Whole, Step;
      var x, y := Step(buf, i), Step(k, j);
      SameLength(buf, i, k, j);
      StepDeterminesBytes(buf, i, k, j);
      SplitPieces(buf, i, k, j, x.len);
      CodesFirst(buf, i);
      CodesFirst(k, j);
      BytesAreCodes(buf, i + x.len, k, j + x.len);
      PrefixOfCons(y.code, Codes(Tokens(k, j + y.len)), x.code, Codes(Tokens(buf, i + x.len)));
    }
  }

  lemma SameLength(buf: Text, i: nat, k: Text, j: nat)
    requires j < |k| && i + (|k| - j) <= |buf| && buf[i..i + (|k| - j)] == k[j..]
    ensures Step(buf, i).len == Step(k, j).len
  {
    assert buf[i..i + (|k| - j)][0] == k[j..][0];
  }

  lemma SplitPieces(buf: Text, i: nat, k: Text, j: nat, x: nat)
    requires j + x <= |k| && i + (|k| - j) <= |buf| && buf[i..i + (|k| - j)] == k[j..]
    ensures buf[i..i + x] == k[j..j + x] && buf[i + x..i + (|k| - j)] == k[j + x..]
  {
    var n := |k| - j;
    SliceOfSlice(buf, i, i + n, x);
    SliceOfSlice(k, j, j + n, x);
    assert k[j..j + n] == k[j..] && k[j + x..j + n] == k[j + x..];
  }

  lemma SliceOfSlice(s: Text, a: nat, b: nat, x: nat)
    requires a + x <= b <= |s|
    ensures s[a..b][..x] == s[a..a + x] && s[a..b][x..] == s[a + x..b]
  {
  }

  // ---------------------------------------------------------------- the index

  datatype Info = Info(level: int, iReplace: int, kind: int, content: Option<Text>, replaceContent: Option<Text>)

  const BLANK := Info(0, 0, 0, None, None)

  type Index = map<Path, Info>

  ghost predicate PrefixClosed(index: Index) {
    [] in index && forall p :: p in index && p != [] ==> p[..|p| - 1] in index
  }

  /** The index with nodes for the first n prefixes of codes. */
  function WithPath(index: Index, codes: Path, n: nat): Index
    requires n <= |codes|
  {
    if n == 0 then index
    else
      var i := WithPath(index, codes, n - 1);
      if codes[..n] in i then i else i[codes[..n] := BLANK]
  }

  /** How far a pool with free spare nodes lets the path grow from depth k. */
  function Reach(index: Index, codes: Path, k: nat, free: nat): (r: nat)
    requires k <= |codes|
    ensures k <= r <= |codes|
    decreases |codes| - k
  {
    if k == |codes| then k
    else if codes[..k + 1] in index then Reach(index, codes, k + 1, free)
    else if free == 0 then k
    else Reach(index, codes, k + 1, free - 1)
  }

  /** Level, replacement flag and type are overwritten; the texts of the first addition stay. */
  function Marked(old_: Info, buf: Text, dst: Text, iReplace: int, level: int, kind: int): Info {
    Info(level, iReplace, kind,
         if old_.content.None? then Some(buf) else old_.content,
         if old_.replaceContent.None? then Some(dst) else old_.replaceContent)
  }

  /** What adding one keyword makes of the index when the path could be grown to this depth. */
  function Added(index: Index, codes: Path, depth: nat,
                 buf: Text, dst: Text, iReplace: int, level: int, kind: int): Index
    requires depth <= |codes|
  {
    var grown := WithPath(index, codes, depth);
    if depth == |codes| && codes in grown then grown[codes := Marked(grown[codes], buf, dst, iReplace, level, kind)]
    else grown
  }

  predicate Upto(p: Path, codes: Path, n: nat) {
    p <= codes && |p| <= n
  }

  lemma {:induction false} WithPathEntries(index: Index, codes: Path, n: nat, p: Path)
    requires n <= |codes|
    ensures var i := WithPath(index, codes, n);
            && (p in i <==> p in index || (p != [] && Upto(p, codes, n)))
            && (p in i ==> i[p] == if p in index then index[p] else BLANK)
  {
    if n > 0 {
      WithPathEntries(index, codes, n - 1, p);
      assert Upto(p, codes, n) && |p| == n <==> p == codes[..n];
    }
  }

  /** Growing a path adds exactly its prefixes, with blank data, and changes nothing else. */
  lemma {:induction false} WithPathKeys(index: Index, codes: Path, n: nat)
    requires n <= |codes| && PrefixClosed(index)
    ensures var i := WithPath(index, codes, n);
            && PrefixClosed(i)
            && (forall p :: p in i <==> p in index || Upto(p, codes, n))
            && (forall p :: p in i ==> i[p] == if p in index then index[p] else BLANK)
  {
    hide WithPath;
    var i := WithPath(index, codes, n);
    forall p
      ensures p in i <==> p in index || Upto(p, codes, n)
      ensures p in i ==> i[p] == if p in index then index[p] else BLANK
    {
      WithPathEntries(index, codes, n, p);
    }
    forall p | p in i && p != [] ensures p[..|p| - 1] in i {
      if p !in index {
        assert p[..|p| - 1] == codes[..|p| - 1];
        assert Upto(p[..|p| - 1], codes, n);
      }
    }
  }

  lemma {:induction false} NextPrefix(index: Index, codes: Path, d: nat)
    requires PrefixClosed(index) && d < |codes|
    ensures codes[..d + 1] in WithPath(index, codes, d) <==> codes[..d + 1] in index
  {
    WithPathKeys(index, codes, d);
  }

  /**
    What an addition leaves: the old nodes with their data, blank nodes for new prefixes as far as the
    pool went, and on success the keyword's node with the new level and flags.
   */
  lemma {:induction false} AddedEntries(index: Index, codes: Path, free: nat,
                     buf: Text, dst: Text, iReplace: int, level: int, kind: int, p: Path)
    requires PrefixClosed(index)
    ensures var depth := Reach(index, codes, 0, free);
            var r := Added(index, codes, depth, buf, dst, iReplace, level, kind);
            && PrefixClosed(r)
            && (p in r <==> p in index || Upto(p, codes, depth))
            && (p in r && (p != codes || depth < |codes|) ==> r[p] == if p in index then index[p] else BLANK)
            && (depth == |codes| ==>
                  && codes in r && r[codes].level == level && r[codes].iReplace == iReplace && r[codes].kind == kind
                  && var before := if codes in index then index[codes] else BLANK;
                     r[codes].content == (if before.content.None? then Some(buf) else before.content)
                     && r[codes].replaceContent ==
                        if before.replaceContent.None? then Some(dst) else before.replaceContent)
  {
    hide Reach;
    WithPathKeys(index, codes, Reach(index, codes, 0, free));
    assert Upto(codes, codes, |codes|);
  }

  lemma {:induction false} ReachEnd(index: Index, codes: Path, free: nat)
    ensures Reach(index, codes, |codes|, free) == |codes|
  {
  }

  /** Nodes that would have to be made for the prefixes of codes longer than k. */
  function Missing(index: Index, codes: Path, k: nat): nat
    requires k <= |codes|
    decreases |codes| - k
  {
    if k == |codes| then 0 else (if codes[..k + 1] in index then 0 else 1) + Missing(index, codes, k + 1)
  }

  /** An addition succeeds exactly when the spare nodes suffice. */
  lemma {:induction false} ReachesTheEnd(index: Index, codes: Path, k: nat, free: nat)
    requires k <= |codes|
    ensures Reach(index, codes, k, free) == |codes| <==> Missing(index, codes, k) <= free
    decreases |codes| - k
  {
    if k < |codes| {
      ReachesTheEnd(index, codes, k + 1, free);
      if free > 0 {
        ReachesTheEnd(index, codes, k + 1, free - 1);
      }
    }
  }

  lemma GrowsByOne(index: Index, codes: Path, k: nat)
    requires PrefixClosed(index) && k < |codes|
    ensures |WithPath(index, codes, k + 1)| ==
            |WithPath(index, codes, k)| + Missing(index, codes, k) - Missing(index, codes, k + 1)
  {
    hide PrefixClosed;
    NextPrefix(index, codes, k);
  }

  lemma {:induction false} GrownSize(index: Index, codes: Path, k: nat)
    requires PrefixClosed(index) && k <= |codes|
    ensures |WithPath(index, codes, k)| + Missing(index, codes, k) == |index| + Missing(index, codes, 0)
  {
    hide PrefixClosed, WithPath, Missing;
    if k == 0 {
      NothingGrown(index, codes);
    } else {
      GrownSize(index, codes, k - 1);
      GrowsByOne(index, codes, k - 1);
    }
  }

  lemma {:induction false} NothingGrown(index: Index, codes: Path)
    ensures WithPath(index, codes, 0) == index
  {
  }

  /** A complete addition makes as many nodes as were missing. */
  lemma {:induction false} AddedSize(index: Index, codes: Path,
                                     buf: Text, dst: Text, iReplace: int, level: int, kind: int)
    requires PrefixClosed(index)
    ensures |Added(index, codes, |codes|, buf, dst, iReplace, level, kind)| == |index| + Missing(index, codes, 0)
  {
    hide PrefixClosed;
    var r := Added(index, codes, |codes|, buf, dst, iReplace, level, kind);
    GrownSize(index, codes, |codes|);
    NoneMissing(index, codes);
    hide WithPath, Missing;
    assert r.Keys == WithPath(index, codes, |codes|).Keys;
    SameKeys(r, WithPath(index, codes, |codes|));
  }

  lemma {:induction false} NoneMissing(index: Index, codes: Path)
    ensures Missing(index, codes, |codes|) == 0
  {
  }

  lemma SameKeys(a: Index, b: Index)
    requires a.Keys == b.Keys
    ensures |a| == |b|
  {
    assert |a| == |a.Keys| && |b| == |b.Keys|;
  }

  // ---------------------------------------------------------------- the greedy scan

  function Piece(codes: Path, i: nat, n: nat): (r: Path)
    requires i + n <= |codes|
    ensures |r| == n
  {
    codes[i..i + n]
  }

  /** From token i, with d tokens already matched: how deep the walk gets. */
  function Deepest(index: Index, codes: Path, i: nat, d: nat): (r: nat)
    requires i + d <= |codes|
    ensures d <= r && i + r <= |codes|
    decreases |codes| - i - d
  {
    if i + d < |codes| && Piece(codes, i, d + 1) in index then Deepest(index, codes, i, d + 1) else d
  }

  lemma {:induction false} DeepestNode(index: Index, codes: Path, i: nat, d: nat)
    requires i + d <= |codes| && Piece(codes, i, d) in index
    ensures var r := Deepest(index, codes, i, d);
            && Piece(codes, i, r) in index
            && (i + r < |codes| ==> Piece(codes, i, r + 1) !in index)
    decreases |codes| - i - d
  {
    if i + d < |codes| && Piece(codes, i, d + 1) in index {
      DeepestNode(index, codes, i, d + 1);
    }
  }

  /** A hit: the token it starts at and how many tokens the walk went down. */
  datatype Hit = Hit(start: nat, depth: nat)

  predicate Reported(index: Index, p: Path, maxlevel: int) {
    p in index && 0 < index[p].level <= maxlevel
  }

  function Scan(index: Index, codes: Path, i: nat, maxlevel: int): seq<Hit>
    decreases |codes| - i
  {
    if i >= |codes| then []
    else
      var d := Deepest(index, codes, i, 0);
      if Reported(index, Piece(codes, i, d), maxlevel) then
        [Hit(i, d)] + Scan(index, codes, i + (if d == 0 then 1 else d), maxlevel)
      else Scan(index, codes, i + 1, maxlevel)
  }

  // ---------------------------------------------------------------- what is returned for hits

  /** stCheckRes: byte offset and the data of the node reported. */
  datatype CheckRes = CheckRes(pos: nat, level: int, kind: int, iReplace: int,
                               content: Option<Text>, replaceContent: Option<Text>)

  function ResultOf(pos: nat, i: Info): CheckRes {
    CheckRes(pos, i.level, i.kind, i.iReplace, i.content, i.replaceContent)
  }

  /** Every hit lies in the text and ends on a node of the tree. */
  ghost predicate HitsIn(index: Index, codes: Path, hits: seq<Hit>) {
    forall h :: h in hits ==>
      h.start < |codes| && h.start + h.depth <= |codes| && Piece(codes, h.start, h.depth) in index
  }

  ghost function Results(index: Index, tokens: seq<Token>, hits: seq<Hit>): seq<CheckRes>
    requires HitsIn(index, Codes(tokens), hits)
  {
    seq(|hits|, k requires 0 <= k < |hits| =>
      assert hits[k] in hits;
      ResultOf(tokens[hits[k].start].pos, index[Piece(Codes(tokens), hits[k].start, hits[k].depth)]))
  }

  lemma NoResults(index: Index, tokens: seq<Token>)
    ensures HitsIn(index, Codes(tokens), []) && Results(index, tokens, []) == []
  {
  }

  lemma ResultsSnoc(index: Index, tokens: seq<Token>, hits: seq<Hit>, h: Hit)
    requires HitsIn(index, Codes(tokens), hits)
    requires h.start < |tokens| && h.start + h.depth <= |tokens| && Piece(Codes(tokens), h.start, h.depth) in index
    ensures HitsIn(index, Codes(tokens), hits + [h])
    ensures Results(index, tokens, hits + [h]) ==
            Results(index, tokens, hits)
            + [ResultOf(tokens[h.start].pos, index[Piece(Codes(tokens), h.start, h.depth)])]
  {
  }

  // ---------------------------------------------------------------- agreement with longest match

  /** The longest keyword at i with at most n tokens, found by trying every length; 0 if there is none. */
  function LongestUpTo(index: Index, maxlevel: int, codes: Path, i: nat, n: nat): (l: nat)
    requires i + n <= |codes|
    ensures l <= n && (l > 0 ==> Reported(index, Piece(codes, i, l), maxlevel))
    ensures forall m :: l < m <= n ==> !Reported(index, Piece(codes, i, m), maxlevel)
  {
    if n == 0 then 0
    else if Reported(index, Piece(codes, i, n), maxlevel) then n
    else LongestUpTo(index, maxlevel, codes, i, n - 1)
  }

  /** The plain matcher: leftmost, longest, not overlapping. */
  function NaiveScan(index: Index, codes: Path, i: nat, maxlevel: int): seq<Hit>
    decreases |codes| - i
  {
    if i >= |codes| then []
    else
      var l := LongestUpTo(index, maxlevel, codes, i, |codes| - i);
      if l > 0 then [Hit(i, l)] + NaiveScan(index, codes, i + l, maxlevel)
      else NaiveScan(index, codes, i + 1, maxlevel)
  }

  /** Every node below a reported keyword is itself a reported keyword; true of any prefix-free set of keywords. */
  ghost predicate GapFree(index: Index, maxlevel: int) {
    forall p, q :: p < q && Reported(index, p, maxlevel) && q in index ==> Reported(index, q, maxlevel)
  }

  /** Prefix-free keywords all of whose additions succeeded leave no gap. */
  lemma PrefixFreeIsGapFree(index: Index, maxlevel: int)
    requires forall q :: q in index ==> exists k :: Reported(index, k, maxlevel) && q <= k
    requires forall p, k :: Reported(index, p, maxlevel) && Reported(index, k, maxlevel) && p <= k ==> p == k
    ensures GapFree(index, maxlevel)
  {
    forall p, q | p <= q && Reported(index, p, maxlevel) && q in index ensures p == q {
      var k :| Reported(index, k, maxlevel) && q <= k;
      assert p <= k;
    }
  }

  lemma PieceInIndex(index: Index, codes: Path, i: nat, d: nat, m: nat)
    requires PrefixClosed(index) && i + m <= |codes| && d <= m && Piece(codes, i, m) in index
    ensures Piece(codes, i, d) in index
    decreases m - d
  {
    if d < m {
      assert Piece(codes, i, m)[..m - 1] == Piece(codes, i, m - 1);
      PieceInIndex(index, codes, i, d, m - 1);
    }
  }

  /** The walk passes every node that matches at i. */
  lemma {:induction false} NodesAreWithinDeepest(index: Index, codes: Path, i: nat, m: nat)
    requires PrefixClosed(index) && i + m <= |codes| && Piece(codes, i, m) in index
    ensures m <= Deepest(index, codes, i, 0)
  {
    var r := Deepest(index, codes, i, 0);
    assert Piece(codes, i, 0) == [];
    DeepestNode(index, codes, i, 0);
    if r < m {
      PieceInIndex(index, codes, i, r + 1, m);
    }
  }

  lemma PieceExtends(codes: Path, i: nat, l: nat, d: nat)
    requires i + d <= |codes| && l < d
    ensures Piece(codes, i, l) < Piece(codes, i, d)
  {
    assert Piece(codes, i, l) == Piece(codes, i, d)[..l];
  }

  lemma {:induction false} StepsAgree(index: Index, codes: Path, i: nat, maxlevel: int)
    requires PrefixClosed(index) && !Reported(index, [], maxlevel) && GapFree(index, maxlevel) && i < |codes|
    ensures var d, l := Deepest(index, codes, i, 0), LongestUpTo(index, maxlevel, codes, i, |codes| - i);
            if Reported(index, Piece(codes, i, d), maxlevel) then l == d > 0 else l == 0
  {
    hide LongestUpTo, Deepest;
    var d, l := Deepest(index, codes, i, 0), LongestUpTo(index, maxlevel, codes, i, |codes| - i);
    assert Piece(codes, i, 0) == [];
    DeepestNode(index, codes, i, 0);
    if l > 0 {
      NodesAreWithinDeepest(index, codes, i, l);
      if l < d {
        PieceExtends(codes, i, l, d);
      }
    }
    if d == 0 {
      assert Piece(codes, i, d) == [];
    }
  }

  lemma {:induction false} GapFreeScansAgree(index: Index, codes: Path, i: nat, maxlevel: int)
    requires PrefixClosed(index) && !Reported(index, [], maxlevel) && GapFree(index, maxlevel)
    ensures Scan(index, codes, i, maxlevel) == NaiveScan(index, codes, i, maxlevel)
    decreases |codes| - i
  {
    hide PrefixClosed, GapFree, Reported, LongestUpTo, Deepest;
    if i < |codes| {
      StepsAgree(index, codes, i, maxlevel);
      var d := Deepest(index, codes, i, 0);
      if Reported(index, Piece(codes, i, d), maxlevel) {
        GapFreeScansAgree(index, codes, i + d, maxlevel);
      } else {
        GapFreeScansAgree(index, codes, i + 1, maxlevel);
      }
    }
  }

  lemma {:induction false} HitsStartLater(index: Index, codes: Path, i: nat, maxlevel: int)
    ensures forall k :: 0 <= k < |Scan(index, codes, i, maxlevel)| ==> Scan(index, codes, i, maxlevel)[k].start >= i
    decreases |codes| - i
  {
    if i < |codes| {
      var d := Deepest(index, codes, i, 0);
      HitsStartLater(index, codes, i + 1, maxlevel);
      HitsStartLater(index, codes, i + (if d == 0 then 1 else d), maxlevel);
    }
  }

  /** On codes that are just the path of a gap, the plain matcher finds a keyword at once; the greedy walk passes it. */
  lemma {:induction false} GapIsMissed(index: Index, p: Path, q: Path, maxlevel: int)
    requires PrefixClosed(index) && p < q && p != [] && q in index
    requires Reported(index, p, maxlevel) && !Reported(index, q, maxlevel)
    ensures NaiveScan(index, q, 0, maxlevel) != [] && NaiveScan(index, q, 0, maxlevel)[0].start == 0
    ensures forall h :: h in Scan(index, q, 0, maxlevel) ==> h.start > 0
  {
    assert Piece(q, 0, |q|) == q && Piece(q, 0, |p|) == p;
    NodesAreWithinDeepest(index, q, 0, |q|);
    assert Deepest(index, q, 0, 0) == |q| && Piece(q, 0, |q|) == q;
    HitsStartLater(index, q, 1, maxlevel);
    var l := LongestUpTo(index, maxlevel, q, 0, |q|);
    assert l >= |p|;
    assert NaiveScan(index, q, 0, maxlevel)[0].start == 0;
  }

  /**
    The scan agrees with the plain matcher on every sequence of codes exactly when the index is gap free: no
    unreported node lies below a reported one.
   */
  lemma {:induction false} ScanIsLongestMatch(index: Index, maxlevel: int)
    requires PrefixClosed(index) && !Reported(index, [], maxlevel)
    ensures GapFree(index, maxlevel) <==>
            forall codes: Path :: Scan(index, codes, 0, maxlevel) == NaiveScan(index, codes, 0, maxlevel)
  {
    if GapFree(index, maxlevel) {
      forall codes: Path ensures Scan(index, codes, 0, maxlevel) == NaiveScan(index, codes, 0, maxlevel) {
        GapFreeScansAgree(index, codes, 0, maxlevel);
      }
    } else {
      var p, q :| p < q && Reported(index, p, maxlevel) && q in index && !Reported(index, q, maxlevel);
      GapIsMissed(index, p, q, maxlevel);
    }
  }

  lemma {:induction false} HitsLieInText(index: Index, codes: Path, i: nat, maxlevel: int)
    ensures forall h :: h in Scan(index, codes, i, maxlevel) ==>
              i <= h.start && h.start + h.depth <= |codes| && h.start < |codes| &&
              Reported(index, Piece(codes, h.start, h.depth), maxlevel)
    decreases |codes| - i
  {
    if i < |codes| {
      var d := Deepest(index, codes, i, 0);
      HitsLieInText(index, codes, i + 1, maxlevel);
      HitsLieInText(index, codes, i + (if d == 0 then 1 else d), maxlevel);
    }
  }

  /** A hit on the path of a keyword is an occurrence of the keyword's bytes at the reported byte offset. */
  lemma {:induction false} HitIsOccurrence(index: Index, buf: Text, maxlevel: int, h: Hit, keyword: Text)
    requires Whole(buf, 0) && Whole(keyword, 0)
    requires h in Scan(index, Codes(Tokens(buf, 0)), 0, maxlevel)
    requires h.start + h.depth <= |Tokens(buf, 0)| && h.start < |Tokens(buf, 0)|
    requires Piece(Codes(Tokens(buf, 0)), h.start, h.depth) == Codes(Tokens(keyword, 0))
    ensures var pos := Tokens(buf, 0)[h.start].pos;
            pos + |keyword| <= |buf| && buf[pos..pos + |keyword|] == keyword
  {
    var all := Tokens(buf, 0);
    var pos := all[h.start].pos;
    TokensSuffix(buf, 0, h.start);
    assert Codes(Tokens(buf, pos)) == Codes(all)[h.start..];
    assert Codes(Tokens(keyword, 0)) == Codes(Tokens(buf, pos))[..h.depth];
    CodesAreBytes(buf, pos, keyword, 0);
    assert keyword[0..] == keyword;
  }
}
