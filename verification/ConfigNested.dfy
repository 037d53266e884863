/** What the lines of a file do inside an open domain, and printed parameters read back there. */
module ConfigNested {
  import opened Text
  import opened ConfigText
  import opened Config
  import opened ConfigReader

  // ---------------------------------------------------------------- one line

  /** Two trees that differ at one place at most. */
  ghost predicate OnlyAt(before: Tree, after: Tree, place: Place) {
    before.Keys == after.Keys && forall p :: p in before && p != place ==> after[p] == before[p]
  }

  /** After a parameter is set it has the value, comes last, and the others are as they were. */
  ghost predicate Assigned(before: Params, after: Params, name: string, value: string) {
    && after.param == before.param[name := value]
    && after.key != [] && after.key[|after.key| - 1] == name
    && forall k :: k in before.key && k != name ==> k in after.key
  }

  lemma {:induction false} SetAssigns(p: Params, name: string, value: string)
    ensures Assigned(p, SetIn(p, name, value), name, value)
  {
    DroppedKeeps(p.key, name);
  }

  lemma {:induction false} DroppedKeeps(names: seq<string>, name: string)
    ensures forall k :: k in names && k != name ==> k in Dropped(names, name)
  {
    if names != [] {
      DroppedKeeps(names[1..], name);
      assert names == [names[0]] + names[1..];
    }
  }

  /** A line with a parameter sets it in the innermost open domain, and changes nothing else. */
  lemma SettingLine(tree: Tree, stack: seq<Place>, line: string, name: string, value: string)
    requires HasTop(tree, stack) && LineOf(line) == Setting(Pair(name, value))
    ensures var r, top := ReadFileLine(Open(tree, stack), line), Top(stack);
      && r.Open? && r.stack == stack && OnlyAt(tree, r.tree, top)
      && r.tree[top] == tree[top].(params := r.tree[top].params)
      && Assigned(tree[top].params, r.tree[top].params, name, value)
      && r.tree[top].params == SetIn(tree[top].params, name, value)
  {
    hide LineOf, SetIn, Assigned;
    SetAssigns(tree[Top(stack)].params, name, value);
  }

  /** An empty line, a comment or an empty setting changes nothing; one that cannot be read is an exception. */
  lemma OtherLine(tree: Tree, stack: seq<Place>, line: string)
    requires HasTop(tree, stack) && !LineOf(line).Tag?
    ensures LineOf(line).Setting? && LineOf(line).r.Malformed? ==> ReadFileLine(Open(tree, stack), line).Thrown?
    ensures LineOf(line).Ignored? || LineOf(line).r.Blank? ==>
      ReadFileLine(Open(tree, stack), line) == Open(tree, stack)
  {
    hide LineOf;
  }

  /** A line is a comment when its first character is a number sign, leading blanks aside. */
  lemma CommentLine(tree: Tree, stack: seq<Place>, line: string)
    requires Trim(line) == "" || Trim(line)[0] == '#'
    ensures ReadFileLine(Open(tree, stack), line) == Open(tree, stack)
  {
    hide Trim;
  }

  /** Any other line without escapes is a setting: the name before the first equals sign, the value behind it. */
  lemma PlainSetting(tree: Tree, stack: seq<Place>, line: string, left: string, right: string)
    requires HasTop(tree, stack) && Trim(line) == left + "=" + right && (left == "" || left[0] !in "#[")
    requires '=' !in left && BACKSLASH !in left && BACKSLASH !in right
    ensures var r, top, name := ReadFileLine(Open(tree, stack), line), Top(stack), Trim(left);
      && r.Open? && r.stack == stack && OnlyAt(tree, r.tree, top)
      && Assigned(tree[top].params, r.tree[top].params, name, Trim(right))
  {
    hide Trim, ReadLine, Assigned;
    PlainLine(left, right);
    assert Trim(line)[0] == if left == "" then '=' else left[0];
    SettingLine(tree, stack, line, Trim(left), Trim(right));
  }

  lemma BracketAt(name: string, front: string, rest: string)
    requires Free(name, "]") && Free(front, "]")
    ensures var t := front + name + "]" + rest; FirstOf(t, "]") == |front| + |name|
  {
    var t, n := front + name + "]" + rest, |front| + |name|;
    assert t[n] == ']';
    assert forall k :: 0 <= k < n ==> t[k] == (front + name)[k];
    assert forall k :: 0 <= k < n ==> t[k] != ']';
  }

  lemma {:induction false} TagLineOf(line: string, t: string)
    requires Trim(line) == t && t != "" && t[0] == '['
    ensures LineOf(line) == Tag(t)
  {
  }

  /** [name] opens the subdomain of the innermost domain, a new and empty one unless it is there already. */
  lemma OpeningLine(tree: Tree, stack: seq<Place>, line: string, name: string, rest: string)
    requires HasTop(tree, stack) && Trim(line) == "[" + name + "]" + rest
    requires Free(name, "]") && (name == "" || name[0] != '/')
    ensures var r, top, sub := ReadFileLine(Open(tree, stack), line), Top(stack), Top(stack) + [name];
      && r.Open? && r.stack == stack + [sub]
      && (sub in tree ==> r.tree == tree)
      && (sub !in tree ==>
            && r.tree.Keys == tree.Keys + {sub} && r.tree[sub] == Entry(Trim(name), NOTHING, [])
            && r.tree[top] == tree[top].(order := tree[top].order + [name])
            && forall p :: p in tree && p != top ==> r.tree[p] == tree[p])
  {
    hide Trim, FirstOf, LineOf, AddSub;
    var t := "[" + name + "]" + rest;
    BracketAt(name, "[", rest);
    TagLineOf(line, t);
    assert t[1] == if name == "" then ']' else name[0];
    assert t[1..1 + |name|] == name;
    OneMore(tree, Top(stack), name);
  }

  lemma OneMore(tree: Tree, place: Place, name: string)
    requires place in tree
    ensures var more, sub := AddSub(tree, place, name), place + [name];
      && (sub in tree ==> more == tree)
      && (sub !in tree ==>
            && more.Keys == tree.Keys + {sub} && more[sub] == Entry(Trim(name), NOTHING, [])
            && more[place] == tree[place].(order := tree[place].order + [name])
            && forall p :: p in tree && p != place ==> more[p] == tree[p])
  {
    hide Trim;
    assert place + [name] != place;
  }

  /** [/name] closes the innermost domain if that is its name, and is an exception otherwise. */
  lemma ClosingLine(tree: Tree, stack: seq<Place>, line: string, name: string, rest: string)
    requires HasTop(tree, stack) && Trim(line) == "[/" + name + "]" + rest && Free(name, "]")
    ensures var r := ReadFileLine(Open(tree, stack), line);
      if tree[Top(stack)].name == name then r == Open(tree, stack[..|stack| - 1]) else r == Thrown
  {
    hide Trim, FirstOf, LineOf;
    var t := "[/" + name + "]" + rest;
    BracketAt(name, "[/", rest);
    TagLineOf(line, t);
    assert t[1] == '/' && t[2..2 + |name|] == name;
  }

  /** A tag without its end is an exception. */
  lemma BrokenLine(tree: Tree, stack: seq<Place>, line: string)
    requires Trim(line) != "" && Trim(line)[0] == '[' && Free(Trim(line), "]")
    ensures ReadFileLine(Open(tree, stack), line) == Thrown
  {
    hide Trim, FirstOf, LineOf;
    TagLineOf(line, Trim(line));
  }

  // ---------------------------------------------------------------- many lines

  function Read(st: Reader, lines: seq<string>, n: nat): Reader
    requires n <= |lines|
  {
    if n == 0 then st else ReadFileLine(Read(st, lines, n - 1), lines[n - 1])
  }

  lemma {:induction false} ReadAll(lines: seq<string>, n: nat)
    requires n <= |lines|
    ensures AfterLines(lines, n) == Read(START, lines, n)
  {
    hide ReadFileLine;
    if n > 0 {
      ReadAll(lines, n - 1);
    }
  }

  lemma {:induction false} ReadConcat(st: Reader, a: seq<string>, b: seq<string>, n: nat)
    requires n <= |b|
    ensures Read(st, a + b, |a| + n) == Read(Read(st, a + b, |a|), b, n)
    ensures forall k :: 0 <= k <= |a| ==> Read(st, a + b, k) == Read(st, a, k)
  {
    hide ReadFileLine;
    if n > 0 {
      ReadConcat(st, a, b, n - 1);
      assert (a + b)[|a| + n - 1] == b[n - 1];
    } else {
      forall k | 0 <= k <= |a| ensures Read(st, a + b, k) == Read(st, a, k) {
        ReadFront(st, a, b, k);
      }
    }
  }

  lemma {:induction false} ReadFront(st: Reader, a: seq<string>, b: seq<string>, n: nat)
    requires n <= |a|
    ensures Read(st, a + b, n) == Read(st, a, n)
  {
    hide ReadFileLine;
    if n > 0 {
      ReadFront(st, a, b, n - 1);
      assert (a + b)[n - 1] == a[n - 1];
    }
  }

  // ---------------------------------------------------------------- printed parameters in a domain

  /** The parameters at a place, none where the reader has stopped. */
  function ParamsAt(st: Reader, place: Place): Params {
    if st.Open? && place in st.tree then st.tree[place].params else NOTHING
  }

  ghost predicate AllSurvive(p: Params) {
    forall k :: k in p.param ==> Survives(k, p.param[k])
  }

  /** Parameters that survive their lines are all set at one place, in order. */
  lemma {:induction false} SetWithin(tree: Tree, stack: seq<Place>, p: Params, depth: nat, n: nat)
    requires HasTop(tree, stack) && tree[Top(stack)].params == NOTHING
    requires PrintableParams(p) && AllSurvive(p) && n <= |p.key|
    ensures var st, top := Read(Open(tree, stack), Lines(p, depth), n), Top(stack);
      && st.Open? && st.stack == stack && OnlyAt(tree, st.tree, top)
      && st.tree[top] == tree[top].(params := st.tree[top].params) && IsFront(st.tree[top].params, p, n)
  {
    hide ReadFileLine, LineOf, ParamLine, Survives, Printable, IsFront, SetIn, Lines, Assigned;
    if n == 0 {
      EmptyFront(p);
    } else {
      SetWithin(tree, stack, p, depth, n - 1);
      var st := Read(Open(tree, stack), Lines(p, depth), n - 1);
      LineAt(p, depth, n - 1);
      var name := p.key[n - 1];
      PrintedLine(depth, name, p.param[name]);
      SettingLine(st.tree, stack, Lines(p, depth)[n - 1], name, p.param[name]);
      FrontGrows(st.tree[Top(stack)].params, p, n - 1);
    }
  }

  /** A line sets at most one parameter at a place, and only if the place is the innermost one. */
  lemma OneLine(st: Reader, line: string, place: Place)
    requires st.Open? && place in st.tree && Consistent(st.tree[place].params) && ReadFileLine(st, line).Open?
    ensures var r, before := ReadFileLine(st, line), st.tree[place].params;
      && place in r.tree && Consistent(r.tree[place].params)
      && |r.tree[place].params.key| <= |before.key| + 1
      && (r.tree[place].params == before ||
          exists name, value :: LineOf(line) == Setting(Pair(name, value)) &&
                                r.tree[place].params == SetIn(before, name, value))
  {
    hide LineOf, SetIn, FirstOf, Trim, Consistent;
    match LineOf(line) {
      case Tag(t) => TagStarts(line, t);
      case Setting(Pair(name, value)) =>
        SetKeepsConsistent(st.tree[place].params, name, value);
        SetGrowsByOne(st.tree[place].params, name, value);
      case _ =>
    }
  }

  lemma {:induction false} StoppedStays(st: Reader, lines: seq<string>, n: nat, m: nat)
    requires n <= m <= |lines| && Read(st, lines, m).Open?
    ensures Read(st, lines, n).Open?
  {
    if n < m {
      StoppedStays(st, lines, n, m - 1);
    }
  }

  /** So n lines set at most n of them. */
  lemma {:induction false} FewKeys(st: Reader, lines: seq<string>, n: nat, place: Place)
    requires st.Open? && place in st.tree && st.tree[place].params == NOTHING
    requires n <= |lines| && Read(st, lines, n).Open?
    ensures var r := Read(st, lines, n);
      place in r.tree && Consistent(r.tree[place].params) && |r.tree[place].params.key| <= n
  {
    hide ReadFileLine, LineOf, Consistent, SetIn;
    if n == 0 {
      NothingConsistent();
    } else {
      StoppedStays(st, lines, n - 1, n);
      FewKeys(st, lines, n - 1, place);
      OneLine(Read(st, lines, n - 1), lines[n - 1], place);
    }
  }

  /** If as many lines as there are parameters leave these parameters, each line gave its own one. */
  lemma {:induction false} EachSurvives(st: Reader, p: Params, depth: nat, n: nat, place: Place)
    requires st.Open? && place in st.tree && st.tree[place].params == NOTHING
    requires PrintableParams(p) && n <= |p.key|
    requires Read(st, Lines(p, depth), n).Open? && IsFront(ParamsAt(Read(st, Lines(p, depth), n), place), p, n)
    ensures forall i :: 0 <= i < n ==> p.key[i] in p.param && Survives(p.key[i], p.param[p.key[i]])
  {
    hide ReadFileLine, LineOf, ParamLine, Survives, Printable, IsFront, SetIn, Lines, Consistent, AllPrintable;
    if n > 0 {
      var lines, name := Lines(p, depth), p.key[n - 1];
      StoppedStays(st, lines, n - 1, n);
      FewKeys(st, lines, n - 1, place);
      FewKeys(st, lines, n, place);
      var before, after := ParamsAt(Read(st, lines, n - 1), place), ParamsAt(Read(st, lines, n), place);
      OneLine(Read(st, lines, n - 1), lines[n - 1], place);
      FrontKey(after, p, n);
      assert |p.key[..n]| == n;
      var a, b :| LineOf(lines[n - 1]) == Setting(Pair(a, b)) && after == SetIn(before, a, b);
      FrontShrinks(before, p, n, a, b);
      LineAt(p, depth, n - 1);
      PrintedLine(depth, name, p.param[name]);
      EachSurvives(st, p, depth, n - 1, place);
    }
  }

  /** What reading a whole domain adds: one place with these parameters, listed where it hangs. */
  ghost predicate Added(tree: Tree, after: Tree, top: Place, name: string, p: Params)
    requires top in tree
  {
    var sub := top + [name];
    && after.Keys == tree.Keys + {sub} && after[sub] == Entry(name, p, [])
    && after[top] == tree[top].(order := tree[top].order + [name])
    && forall q :: q in tree && q != top ==> after[q] == tree[q]
  }

  /** Names that can stand in a tag. */
  ghost predicate Tagged(name: string, first: string, last: string) {
    && Free(name, "]") && (name == "" || name[0] != '/') && Trim(name) == name
    && Trim(first) == "[" + name + "]" && Trim(last) == "[/" + name + "]"
  }

  /**
    The printed parameters of a domain, between its tags and inside any open domain, are read back into a new domain
    of that name, exactly when each of them survives its line; then nothing else has changed, and the same
    domains are open as before.
   */
  lemma NestedRoundTrip(tree: Tree, stack: seq<Place>, name: string, first: string, last: string,
                        p: Params, depth: nat)
    requires HasTop(tree, stack) && Top(stack) + [name] !in tree
    requires PrintableParams(p) && Tagged(name, first, last)
    ensures var lines := [first] + Lines(p, depth) + [last];
      var r := Read(Open(tree, stack), lines, |lines|);
      && (AllSurvive(p) <==> r.Open? && r.stack == stack && ParamsAt(r, Top(stack) + [name]) == p
                             && Top(stack) + [name] in r.tree)
      && (AllSurvive(p) ==> r.Open? && r.stack == stack && Added(tree, r.tree, Top(stack), name, p))
  {
    hide ReadFileLine, Trim, Survives, Printable, Lines, IsFront, AllPrintable;
    var body, n := Lines(p, depth), |p.key|;
    var lines, st0 := [first] + body + [last], Open(tree, stack);
    var st1 := ReadFileLine(st0, first);
    OpeningLine(tree, stack, first, name, "");
    ThreeParts(st0, first, body, last);
    if AllSurvive(p) {
      SetWithin(st1.tree, st1.stack, p, depth, n);
      AllSet(tree, st1.tree, stack, name, p, Read(st1, body, n), last);
    }
    var r := Read(st0, lines, |lines|);
    if r.Open? && Top(stack) + [name] in r.tree && ParamsAt(r, Top(stack) + [name]) == p {
      var st2 := Read(st1, body, n);
      LastLeaves(st2, last, name);
      FullFront(p);
      EachSurvives(st1, p, depth, n, Top(stack) + [name]);
      EveryKey(p);
    }
  }

  lemma {:induction false} ThreeParts(st: Reader, first: string, body: seq<string>, last: string)
    ensures var lines := [first] + body + [last];
      Read(st, lines, |lines|) == ReadFileLine(Read(ReadFileLine(st, first), body, |body|), last)
  {
    hide ReadFileLine;
    var front, lines := [first] + body, [first] + body + [last];
    ReadConcat(st, [first], body, |body|);
    assert Read(st, [first], 1) == ReadFileLine(Read(st, [first], 0), first);
    ReadFront(st, front, [last], |front|);
    assert lines[|front|] == last;
  }

  /** Closing the domain leaves its parameters. */
  lemma LastLeaves(st: Reader, last: string, name: string)
    requires Trim(last) == "[/" + name + "]" && Free(name, "]") && ReadFileLine(st, last).Open?
    ensures st.Open? && ReadFileLine(st, last).tree == st.tree
  {
    hide Trim, FirstOf, LineOf;
    var t := "[/" + name + "]";
    assert t == t + "";
    BracketAt(name, "[/", "");
    TagLineOf(last, t);
    assert t[1] == '/';
  }

  lemma FullFront(p: Params)
    requires Consistent(p)
    ensures IsFront(p, p, |p.key|)
  {
    assert p.key[..|p.key|] == p.key;
  }

  lemma EveryKey(p: Params)
    requires Consistent(p)
    requires forall i :: 0 <= i < |p.key| ==> p.key[i] in p.param && Survives(p.key[i], p.param[p.key[i]])
    ensures AllSurvive(p)
  {
    hide Survives;
    forall k | k in p.param ensures Survives(k, p.param[k]) {
      assert k in p.key;
    }
  }

  lemma AllSet(tree: Tree, open: Tree, stack: seq<Place>, name: string, p: Params, st: Reader, last: string)
    requires HasTop(tree, stack) && Top(stack) + [name] !in tree && Consistent(p) && Trim(name) == name
    requires Trim(last) == "[/" + name + "]" && Free(name, "]")
    requires open.Keys == tree.Keys + {Top(stack) + [name]}
    requires open[Top(stack) + [name]] == Entry(name, NOTHING, [])
    requires open[Top(stack)] == tree[Top(stack)].(order := tree[Top(stack)].order + [name])
    requires forall q :: q in tree && q != Top(stack) ==> open[q] == tree[q]
    requires var sub := Top(stack) + [name];
      && st.Open? && st.stack == stack + [sub] && OnlyAt(open, st.tree, sub)
      && st.tree[sub] == open[sub].(params := st.tree[sub].params) && IsFront(st.tree[sub].params, p, |p.key|)
    ensures var r := ReadFileLine(st, last); r == Open(st.tree, stack) && Added(tree, r.tree, Top(stack), name, p)
  {
    hide ReadFileLine, Trim;
    var sub := Top(stack) + [name];
    assert "[/" + name + "]" + "" == "[/" + name + "]";
    ClosingLine(st.tree, st.stack, last, name, "");
    assert (stack + [sub])[..|stack|] == stack;
    WholeFront(st.tree[sub].params, p);
  }

  lemma WholeFront(q: Params, p: Params)
    requires Consistent(p) && IsFront(q, p, |p.key|)
    ensures q == p
  {
    assert p.key[..|p.key|] == p.key;
    assert q.param.Keys == p.param.Keys;
    assert q.param == p.param;
  }
}
