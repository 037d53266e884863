/** KeyWordSearch and the TreeRoot node pool under it: growing the tree in an array, and the greedy scan. */
module KeywordSearchModel {
  import opened Options
  import opened KeywordIndex
  import opened KeywordSets
  import opened KeywordText

  datatype Node = Node(position: Option<map<nat, nat>>, info: Info)

  const FREE_NODE := Node(None, BLANK)

  function Kids(n: Node): map<nat, nat> {
    match n.position
    case None => map[]
    case Some(m) => m
  }

  // ---------------------------------------------------------------- the pool

  /** paths[h] leads from the root to node h: it is the path of node parents[h] and then codes[h]. */
  datatype Shape = Shape(paths: seq<Path>, parents: seq<nat>, codes: seq<nat>)

  ghost predicate Sized(nodes: seq<Node>, s: Shape) {
    0 < |s.paths| == |s.parents| == |s.codes| <= |nodes| && s.paths[0] == []
  }

  /** The child of h for code c is a later node, one code further down. */
  ghost predicate Leads(nodes: seq<Node>, s: Shape, h: nat, c: nat)
    requires Sized(nodes, s) && h < |s.paths| && c in Kids(nodes[h])
  {
    var g := Kids(nodes[h])[c];
    h < g < |s.paths| && s.paths[g] == s.paths[h] + [c]
  }

  /** Node g is the child of exactly the earlier node that its path says. */
  ghost predicate Hangs(nodes: seq<Node>, s: Shape, g: nat)
    requires Sized(nodes, s) && g < |s.paths|
  {
    var h, c := s.parents[g], s.codes[g];
    h < g && s.paths[g] == s.paths[h] + [c] && c in Kids(nodes[h]) && Kids(nodes[h])[c] == g
  }

  ghost predicate LinksDown(nodes: seq<Node>, s: Shape)
    requires Sized(nodes, s)
  {
    forall h, c :: 0 <= h < |s.paths| && c in Kids(nodes[h]) ==> Leads(nodes, s, h, c)
  }

  ghost predicate LinksUp(nodes: seq<Node>, s: Shape)
    requires Sized(nodes, s)
  {
    forall g :: 0 < g < |s.paths| ==> Hangs(nodes, s, g)
  }

  ghost predicate Distinct(paths: seq<Path>) {
    forall g, h :: 0 <= g < h < |paths| ==> paths[g] != paths[h]
  }

  ghost predicate Indexed(nodes: seq<Node>, s: Shape, index: Index)
    requires Sized(nodes, s)
  {
    && (forall h :: 0 <= h < |s.paths| ==> s.paths[h] in index && index[s.paths[h]] == nodes[h].info)
    && (forall p :: p in index ==> exists h :: 0 <= h < |s.paths| && s.paths[h] == p)
  }

  /** A node with a level has its texts, so reporting it never follows a null pointer. */
  ghost predicate TextsSet(index: Index) {
    forall p :: p in index && index[p].level > 0 ==> index[p].content.Some? && index[p].replaceContent.Some?
  }

  ghost predicate Pool(nodes: seq<Node>, s: Shape, index: Index) {
    && Sized(nodes, s) && LinksDown(nodes, s) && LinksUp(nodes, s) && Distinct(s.paths)
    && Indexed(nodes, s, index) && TextsSet(index)
  }

  lemma NodeAt(nodes: seq<Node>, s: Shape, index: Index, p: Path) returns (g: nat)
    requires Pool(nodes, s, index) && p in index
    ensures g < |s.paths| && s.paths[g] == p && (p != [] ==> g > 0 && Hangs(nodes, s, g))
  {
    g :| 0 <= g < |s.paths| && s.paths[g] == p;
  }

  lemma PoolIsPrefixClosed(nodes: seq<Node>, s: Shape, index: Index)
    requires Pool(nodes, s, index)
    ensures PrefixClosed(index)
  {
    forall p | p in index && p != [] ensures p[..|p| - 1] in index {
      ParentInIndex(nodes, s, index, p);
    }
    assert s.paths[0] in index;
  }

  lemma ParentInIndex(nodes: seq<Node>, s: Shape, index: Index, p: Path)
    requires Pool(nodes, s, index) && p in index && p != []
    ensures p[..|p| - 1] in index
  {
    hide LinksDown, LinksUp, Distinct, TextsSet;
    var g := NodeAt(nodes, s, index, p);
    assert p[..|p| - 1] == s.paths[s.parents[g]];
  }

  /** A node has a child for a code exactly when the longer path is in the index, and the child is at that path. */
  lemma KidIsPath(nodes: seq<Node>, s: Shape, index: Index, h: nat, c: nat)
    requires Pool(nodes, s, index) && h < |s.paths|
    ensures c in Kids(nodes[h]) <==> s.paths[h] + [c] in index
    ensures c in Kids(nodes[h]) ==> Leads(nodes, s, h, c)
  {
    var p := s.paths[h] + [c];
    if c in Kids(nodes[h]) {
      assert Leads(nodes, s, h, c);
    }
    if p in index {
      hide LinksDown, LinksUp, Indexed, TextsSet;
      var g := NodeAt(nodes, s, index, p);
      assert s.codes[g] == p[|p| - 1] == c;
      assert s.paths[s.parents[g]] == p[..|p| - 1] == s.paths[h];
      assert s.parents[g] == h;
    }
  }

  function Linked(nodes: seq<Node>, n: nat, h: nat, c: nat): seq<Node>
    requires h < n < |nodes|
  {
    nodes[n := FREE_NODE][h := nodes[h].(position := Some(Kids(nodes[h])[c := n]))]
  }

  function Longer(s: Shape, h: nat, c: nat): Shape
    requires h < |s.paths|
  {
    Shape(s.paths + [s.paths[h] + [c]], s.parents + [h], s.codes + [c])
  }

  lemma LinkedNodes(nodes: seq<Node>, n: nat, h: nat, c: nat)
    requires h < n < |nodes|
    ensures var r := Linked(nodes, n, h, c);
            && |r| == |nodes| && r[n] == FREE_NODE && Kids(r[n]) == map[]
            && Kids(r[h]) == Kids(nodes[h])[c := n] && r[h].info == nodes[h].info
            && forall g :: 0 <= g < n && g != h ==> r[g] == nodes[g]
  {
  }

  lemma GrowDown(nodes: seq<Node>, s: Shape, h: nat, c: nat)
    requires Sized(nodes, s) && LinksDown(nodes, s) && h < |s.paths| < |nodes| && c !in Kids(nodes[h])
    ensures Sized(Linked(nodes, |s.paths|, h, c), Longer(s, h, c))
    ensures LinksDown(Linked(nodes, |s.paths|, h, c), Longer(s, h, c))
  {
    hide Linked;
    var n, nodes', s' := |s.paths|, Linked(nodes, |s.paths|, h, c), Longer(s, h, c);
    LinkedNodes(nodes, n, h, c);
    forall g, x | 0 <= g < |s'.paths| && x in Kids(nodes'[g]) ensures Leads(nodes', s', g, x) {
      if g < n && !(g == h && x == c) {
        assert x in Kids(nodes[g]) && Leads(nodes, s, g, x);
      }
    }
  }

  lemma GrowUp(nodes: seq<Node>, s: Shape, h: nat, c: nat)
    requires Sized(nodes, s) && LinksUp(nodes, s) && h < |s.paths| < |nodes| && c !in Kids(nodes[h])
    ensures Sized(Linked(nodes, |s.paths|, h, c), Longer(s, h, c))
    ensures LinksUp(Linked(nodes, |s.paths|, h, c), Longer(s, h, c))
  {
    hide Linked;
    var n, nodes', s' := |s.paths|, Linked(nodes, |s.paths|, h, c), Longer(s, h, c);
    LinkedNodes(nodes, n, h, c);
    forall g | 0 < g < |s'.paths| ensures Hangs(nodes', s', g) {
      if g < n {
        assert Hangs(nodes, s, g);
      }
    }
  }

  lemma GrowIndex(nodes: seq<Node>, s: Shape, index: Index, h: nat, c: nat)
    requires Sized(nodes, s) && Indexed(nodes, s, index) && h < |s.paths| < |nodes|
    requires s.paths[h] + [c] !in index
    ensures Sized(Linked(nodes, |s.paths|, h, c), Longer(s, h, c))
    ensures Indexed(Linked(nodes, |s.paths|, h, c), Longer(s, h, c), index[s.paths[h] + [c] := BLANK])
  {
    hide Linked;
    var n, nodes', s', p := |s.paths|, Linked(nodes, |s.paths|, h, c), Longer(s, h, c), s.paths[h] + [c];
    var index' := index[p := BLANK];
    LinkedNodes(nodes, n, h, c);
    forall x | x in index' ensures exists g :: 0 <= g < |s'.paths| && s'.paths[g] == x {
      if x == p {
        assert s'.paths[n] == p;
      } else {
        var g :| 0 <= g < n && s.paths[g] == x;
        assert s'.paths[g] == x;
      }
    }
    forall g | 0 <= g < |s'.paths| ensures s'.paths[g] in index' && index'[s'.paths[g]] == nodes'[g].info {
      if g < n {
        assert s'.paths[g] == s.paths[g] && s.paths[g] in index;
      }
    }
  }

  lemma GrowDistinct(nodes: seq<Node>, s: Shape, index: Index, h: nat, c: nat)
    requires Sized(nodes, s) && Indexed(nodes, s, index) && Distinct(s.paths) && h < |s.paths|
    requires s.paths[h] + [c] !in index
    ensures Distinct(Longer(s, h, c).paths)
  {
    forall g | 0 <= g < |s.paths| ensures s.paths[g] != s.paths[h] + [c] {
      assert s.paths[g] in index;
    }
  }

  /** Linking a fresh node below h adds one blank path. */
  lemma GrowPool(nodes: seq<Node>, s: Shape, index: Index, h: nat, c: nat)
    requires Pool(nodes, s, index) && h < |s.paths| < |nodes| && c !in Kids(nodes[h])
    ensures Pool(Linked(nodes, |s.paths|, h, c), Longer(s, h, c), index[s.paths[h] + [c] := BLANK])
    ensures s.paths[h] + [c] !in index
  {
    hide Linked, LinksDown, LinksUp, Indexed, TextsSet, Distinct;
    KidIsPath(nodes, s, index, h, c);
    GrowDown(nodes, s, h, c);
    GrowUp(nodes, s, h, c);
    GrowIndex(nodes, s, index, h, c);
    GrowDistinct(nodes, s, index, h, c);
    GrowTexts(index, s.paths[h] + [c]);
  }

  lemma GrowTexts(index: Index, p: Path)
    requires TextsSet(index)
    ensures TextsSet(index[p := BLANK])
  {
  }

  lemma MarkLinks(nodes: seq<Node>, s: Shape, h: nat, i: Info)
    requires Sized(nodes, s) && LinksDown(nodes, s) && LinksUp(nodes, s) && h < |s.paths|
    ensures var nodes' := nodes[h := nodes[h].(info := i)];
            Sized(nodes', s) && LinksDown(nodes', s) && LinksUp(nodes', s)
  {
    var nodes' := nodes[h := nodes[h].(info := i)];
    assert forall g :: 0 <= g < |nodes| ==> Kids(nodes'[g]) == Kids(nodes[g]);
    forall g | 0 < g < |s.paths| ensures Hangs(nodes', s, g) {
      assert Hangs(nodes, s, g);
    }
    forall g, x | 0 <= g < |s.paths| && x in Kids(nodes'[g]) ensures Leads(nodes', s, g, x) {
      assert Leads(nodes, s, g, x);
    }
  }

  /** Writing a node's data changes the entry of its path and nothing else. */
  lemma MarkPool(nodes: seq<Node>, s: Shape, index: Index, h: nat, i: Info)
    requires Pool(nodes, s, index) && h < |s.paths|
    requires i.content.Some? && i.replaceContent.Some?
    ensures Pool(nodes[h := nodes[h].(info := i)], s, index[s.paths[h] := i])
  {
    MarkLinks(nodes, s, h, i);
    hide LinksDown, LinksUp;
    assert Indexed(nodes[h := nodes[h].(info := i)], s, index[s.paths[h] := i]);
  }

  lemma RootPath(nodes: seq<Node>, s: Shape, index: Index)
    requires Pool(nodes, s, index)
    ensures 0 < |s.paths| && s.paths[0] == [] && [] in index
  {
    assert s.paths[0] in index;
  }

  lemma NodeInfo(nodes: seq<Node>, s: Shape, index: Index, h: nat)
    requires Pool(nodes, s, index) && h < |s.paths|
    ensures s.paths[h] in index && index[s.paths[h]] == nodes[h].info
  {
  }

  lemma {:induction false} StartOfPath(index: Index, codes: Path, nodes: seq<Node>, s: Shape)
    requires Pool(nodes, s, index)
    ensures codes[..0] == s.paths[0] && codes[0..] == codes && WithPath(index, codes, 0) == index && 0 < |s.paths|
  {
  }

  lemma NextCode(codes: Path, d: nat)
    requires d < |codes|
    ensures codes[..d + 1] == codes[..d] + [codes[d]] && codes[d..] == [codes[d]] + codes[d + 1..]
  {
  }

  /** One more code of the keyword: what the prefix's presence means for the index and for Reach. */
  lemma PathStep(start: Index, codes: Path, d: nat, index: Index, free: nat)
    requires PrefixClosed(start) && d < |codes| && index == WithPath(start, codes, d)
    ensures codes[..d + 1] in index <==> codes[..d + 1] in start
    ensures WithPath(start, codes, d + 1) == if codes[..d + 1] in index then index else index[codes[..d + 1] := BLANK]
    ensures Reach(start, codes, d, free) ==
            if codes[..d + 1] in index then Reach(start, codes, d + 1, free)
            else if free == 0 then d else Reach(start, codes, d + 1, free - 1)
  {
    NextPrefix(start, codes, d);
  }

  lemma CodeAt(tokens: seq<Token>, i: nat)
    requires i < |tokens|
    ensures Codes(tokens)[i] == tokens[i].code
  {
  }

  lemma PieceSnoc(codes: Path, i: nat, d: nat)
    requires i + d < |codes|
    ensures Piece(codes, i, d + 1) == Piece(codes, i, d) + [codes[i + d]]
  {
  }

  /** The nodes in use are as many as the paths. */
  lemma PoolSize(nodes: seq<Node>, s: Shape, index: Index)
    requires Pool(nodes, s, index)
    ensures |index| == |s.paths|
  {
    hide LinksDown, LinksUp, TextsSet;
    DistinctPaths(s.paths, |s.paths|);
    assert s.paths[..|s.paths|] == s.paths;
    assert index.Keys == PathSet(s.paths);
  }

  ghost function PathSet(paths: seq<Path>): set<Path> {
    set p | p in paths
  }

  lemma {:induction false} DistinctPaths(paths: seq<Path>, n: nat)
    requires Distinct(paths) && n <= |paths|
    ensures |PathSet(paths[..n])| == n
  {
    if n > 0 {
      DistinctPaths(paths, n - 1);
      assert paths[..n] == paths[..n - 1] + [paths[n - 1]];
      assert PathSet(paths[..n]) == PathSet(paths[..n - 1]) + {paths[n - 1]};
    }
  }

  class KeyWordSearch {
    // TreeRoot
    var node: array<Node>
    var freenode: nat
    var ifreenode: nat
    var nodenum: nat
    ghost var shape: Shape
    ghost var index: Index
    // Every keyword AddKeyWord was called with.
    ghost var added: seq<Keyword>

    /** The pool is a tree with this index. */
    ghost predicate Tree()
      reads this, node
    {
      && node.Length == nodenum && freenode + ifreenode == nodenum
      && |shape.paths| == freenode
      && Pool(node[..], shape, index)
    }

    /** The nodes there are suffice for the keywords. */
    ghost predicate Enough()
      reads this
    {
      |Built(added, |added|)| <= nodenum
    }

    ghost predicate Valid()
      reads this, node
    {
      Tree() && (Enough() ==> index == Built(added, |added|))
    }

    constructor Init(num: nat)
      requires num >= 1
      ensures Valid() && fresh(node) && index == map[[] := BLANK] && ifreenode == num - 1
      ensures nodenum == num && added == []
    {
      nodenum, freenode, ifreenode := num, 1, num - 1;
      node := new Node[num](_ => FREE_NODE);
      shape, index := Shape([[]], [0], [0]), map[[] := BLANK];
      added := [];
    }

    /** The handle of a cleared node, or -1. */
    method GetFreeNode() returns (h: int)
      requires freenode + ifreenode == nodenum == node.Length
      modifies this`freenode, this`ifreenode, node
      ensures freenode + ifreenode == nodenum
      ensures if old(ifreenode) > 0 then h == old(freenode) && freenode == old(freenode) + 1
                                         && node[..] == old(node[..])[h := FREE_NODE]
              else h == -1 && freenode == old(freenode) && node[..] == old(node[..])
    {
      if ifreenode > 0 && freenode < nodenum {
        h := freenode;
        ifreenode := ifreenode - 1;
        freenode := freenode + 1;
        node[h] := FREE_NODE;
        return h;
      }
      h := -1;
    }

    /** The child of begin for this code, made if the pool still has a node. */
    method Descend(begin: nat, c: nat) returns (h: int)
      requires Tree() && begin < freenode
      modifies this`freenode, this`ifreenode, this`shape, this`index, node
      ensures Tree() && node == old(node) && old(freenode) <= freenode
      ensures shape.paths[..old(freenode)] == old(shape.paths)
      ensures var p := old(shape.paths[begin]) + [c];
              if p in old(index) then h >= 1 && index == old(index) && ifreenode == old(ifreenode)
              else if old(ifreenode) > 0 then
                h >= 1 && index == old(index)[p := BLANK] && ifreenode == old(ifreenode) - 1
              else h < 1 && index == old(index) && ifreenode == old(ifreenode)
      ensures h >= 1 ==> h < freenode && shape.paths[h] == old(shape.paths[begin]) + [c]
    {
      hide LinksDown, LinksUp, Indexed, TextsSet, Distinct;
      KidIsPath(node[..], shape, index, begin, c);
      if c !in Kids(node[begin]) {
        ghost var nodes := node[..];
        h := GetFreeNode();
        if h < 1 {
          return h;
        }
        GrowPool(nodes, shape, index, begin, c);
        node[begin] := node[begin].(position := Some(Kids(node[begin])[c := h]));
        assert node[..] == Linked(nodes, h, begin, c);
        index := index[shape.paths[begin] + [c] := BLANK];
        shape := Longer(shape, begin, c);
      } else {
        h := Kids(node[begin])[c];
      }
    }

    /** The walk of AddKeyWord: down the keyword's tokens, making nodes, until the end or until the pool is used up. */
    method Grow(buf: Text) returns (ok: bool, hnode: int)
      requires Tree()
      modifies this`freenode, this`ifreenode, this`shape, this`index, node
      ensures Tree() && node == old(node)
      ensures var codes := Codes(Tokens(buf, 0));
              var depth := Reach(old(index), codes, 0, old(ifreenode));
              && ok == (depth == |codes|)
              && index == WithPath(old(index), codes, depth)
              && (ok ==> 0 <= hnode < freenode && shape.paths[hnode] == codes)
    {
      hide Pool, Tokens, Codes, PrefixClosed, Reach, WithPath, Step;
      ghost var codes, start := Codes(Tokens(buf, 0)), index;
      PoolIsPrefixClosed(node[..], shape, index);
      var i, beginnode := 0, 0;
      hnode := 0;
      ghost var d := 0;
      StartOfPath(start, codes, node[..], shape);
      while i < |buf|
        invariant Tree() && node == old(node) && 0 <= hnode == beginnode < freenode
        invariant d <= |codes| && Codes(Tokens(buf, i)) == codes[d..]
        invariant shape.paths[hnode] == codes[..d]
        invariant index == WithPath(start, codes, d)
        invariant Reach(start, codes, d, ifreenode) == Reach(start, codes, 0, old(ifreenode))
        decreases |buf| - i
      {
        var t := Step(buf, i);
        CodesFirst(buf, i);
        NextCode(codes, d);
        PathStep(start, codes, d, index, ifreenode);
        hnode := Descend(beginnode, t.code);
        if hnode < 1 {
          return false, hnode;
        }
        beginnode := hnode;
        i := i + t.len;
        d := d + 1;
      }
      NoCodesLeft(buf, i);
      assert codes[..d] == codes;
      ReachEnd(start, codes, ifreenode);
      ok := true;
    }

    /**
      AddKeyWord; false stands for the runtime_error thrown when the pool is used up part of the way down. While the
      nodes are enough for all keywords nothing is thrown, and the tree is the one the keywords define.
     */
    method AddKeyWord(buf: Text, dst: Text, iReplace: int, level: int, kind: int) returns (ok: bool)
      requires Valid()
      modifies this, node
      ensures Valid() && node == old(node) && nodenum == old(nodenum)
      ensures added == old(added) + [Keyword(buf, dst, iReplace, level, kind)]
      ensures if old(Enough()) then ok == Enough() else !Enough()
      ensures var codes := Codes(Tokens(buf, 0));
              && ok == (Missing(old(index), codes, 0) <= old(ifreenode))
              && index == Added(old(index), codes, Reach(old(index), codes, 0, old(ifreenode)),
                                buf, dst, iReplace, level, kind)
    {
      hide Pool, Tokens, Codes, Reach, WithPath, Missing, Built;
      ghost var k := Keyword(buf, dst, iReplace, level, kind);
      ReachesTheEnd(index, Codes(Tokens(buf, 0)), 0, ifreenode);
      PoolSize(node[..], shape, index);
      BuiltSnoc(added, k, ifreenode);
      var hnode;
      ok, hnode := Grow(buf);
      if ok {
        Mark(hnode, buf, dst, iReplace, level, kind);
      }
      added := added + [k];
    }

    /** The last part of AddKeyWord: the data of the node reached. */
    method Mark(hnode: nat, buf: Text, dst: Text, iReplace: int, level: int, kind: int)
      requires Tree() && hnode < freenode
      modifies this`index, node
      ensures Tree()
      ensures var p := shape.paths[hnode];
              p in old(index) && index == old(index)[p := Marked(old(index)[p], buf, dst, iReplace, level, kind)]
    {
      ghost var nodes := node[..];
      var i := node[hnode].info;
      i := i.(level := level);
      i := i.(iReplace := iReplace);
      i := i.(kind := kind);
      if i.content == None {
        i := i.(content := Some(buf));
      }
      if i.replaceContent == None {
        i := i.(replaceContent := Some(dst));
      }
      MarkPool(nodes, shape, index, hnode, i);
      node[hnode] := node[hnode].(info := i);
      index := index[shape.paths[hnode] := i];
      assert node[..] == nodes[hnode := nodes[hnode].(info := i)];
    }

    /** Compile: the token sequence of a text. */
    method Compile(buf: Text) returns (destbuf: seq<Token>)
      requires Whole(buf, 0)
      ensures destbuf == Tokens(buf, 0)
    {
      destbuf := [];
      var i := 0;
      while i < |buf|
        invariant 0 <= i <= |buf| && Whole(buf, i) && destbuf + Tokens(buf, i) == Tokens(buf, 0)
        decreases |buf| - i
      {
        var t := Step(buf, i);
        destbuf := destbuf + [t];
        i := i + t.len;
      }
    }

    /** SearchKeyWordTree from token start: where the iterator ends up, and the node the walk stopped at. */
    method SearchKeyWordTree(vtcode: seq<Token>, start: nat) returns (bit: nat, hprenode: nat)
      requires Tree() && start < |vtcode|
      ensures var d := Deepest(index, Codes(vtcode), start, 0);
              && bit == start + (if d == 0 then 1 else d)
              && hprenode < freenode && shape.paths[hprenode] == Piece(Codes(vtcode), start, d)
    {
      hide Pool, Codes;
      ghost var codes := Codes(vtcode);
      bit := start;
      var preit, hnode := start, 0;
      hprenode := 0;
      ghost var d := 0;
      RootPath(node[..], shape, index);
      while bit != |vtcode|
        invariant start <= bit <= |vtcode| && bit == start + d
        invariant preit == if d == 0 then start else bit - 1
        invariant hnode == hprenode < freenode && shape.paths[hnode] == Piece(codes, start, d)
        invariant Deepest(index, codes, start, d) == Deepest(index, codes, start, 0)
        decreases |vtcode| - bit
      {
        var cur := node[hnode];
        var code := vtcode[bit].code;
        CodeAt(vtcode, bit);
        PieceSnoc(codes, start, d);
        KidIsPath(node[..], shape, index, hnode, code);
        if cur.position.None? || code !in cur.position.value {
          if bit == preit {
            bit := bit + 1;
          }
          break;
        }
        hnode := cur.position.value[code];
        hprenode := hnode;
        preit := bit;
        bit := bit + 1;
        d := d + 1;
      }
    }

    /**
      Check: every hit of the greedy scan, at its byte offset, with the data of its keyword. If no addition failed and
      the keywords leave no gap, these are the leftmost longest keywords of the text, found byte by byte. Gap or
      not, each result has what was added with the keyword that stands there.
     */
    method Check(buf: Text, maxlevel: int) returns (vtres: seq<CheckRes>)
      requires Valid() && Whole(buf, 0)
      ensures var hits := Scan(index, Codes(Tokens(buf, 0)), 0, maxlevel);
              HitsIn(index, Codes(Tokens(buf, 0)), hits) && vtres == Results(index, Tokens(buf, 0), hits)
      ensures Enough() && Searchable(added, maxlevel) ==>
                AllHold(added, buf, ByteScan(added, maxlevel, buf, 0), vtres)
      ensures Enough() && AllWhole(added) ==>
                AllHold(added, buf, AllFound(buf, Scan(index, Codes(Tokens(buf, 0)), 0, maxlevel)), vtres)
    {
      hide Pool, Codes, Deepest, Searchable, AllHold, ByteScan, AllFound, AllWhole;
      hide Whole, Built, Tokens, Results, HitsIn;
      NoResults(index, Tokens(buf, 0));
      var vtcode := Compile(buf);
      ghost var codes := Codes(vtcode);
      vtres := [];
      var bit := 0;
      ghost var hits: seq<Hit> := [];
      while bit != |vtcode|
        invariant 0 <= bit <= |vtcode| && HitsIn(index, codes, hits)
        invariant hits + Scan(index, codes, bit, maxlevel) == Scan(index, codes, 0, maxlevel)
        invariant vtres == Results(index, vtcode, hits)
        decreases |vtcode| - bit
      {
        var preit := bit;
        var h;
        bit, h := SearchKeyWordTree(vtcode, preit);
        ghost var d := Deepest(index, codes, preit, 0);
        NodeInfo(node[..], shape, index, h);
        var res := ResultOf(vtcode[preit].pos, node[h].info);
        if res.level > 0 && res.level <= maxlevel {
          vtres := vtres + [res];
          ResultsSnoc(index, vtcode, hits, Hit(preit, d));
          hits := hits + [Hit(preit, d)];
        } else {
          bit := preit + 1;
        }
      }
      assert hits == hits + Scan(index, codes, |codes|, maxlevel);
      if Enough() && Searchable(added, maxlevel) {
        ResultsAreByteScan(added, maxlevel, buf);
      }
      if Enough() && AllWhole(added) {
        ResultsHoldBytes(added, maxlevel, buf);
      }
    }
  }
}
