/** Reading a configuration file: common/inutil/inv_config.cpp, INV_Config::parse. */
module ConfigReader {
  import opened Options
  import opened Text
  import opened ConfigText
  import opened Config

  /** A domain of the tree: its name, its parameters, and the names of its subdomains in the order of their creation. */
  datatype Entry = Entry(name: string, params: Params, order: seq<string>)

  /** The names that lead from the root to a domain. */
  type Place = seq<string>

  /** A tree of domains as a value. */
  type Tree = map<Place, Entry>

  /**
    The tree read so far and the open domains, the innermost last; or an exception; or a step for which
    the source uses the top of an empty stack.
   */
  datatype Reader = Open(tree: Tree, stack: seq<Place>) | Thrown | Undefined

  function RootOnly(p: Params): Tree {
    map[[] := Entry("", p, [])]
  }

  const START := Open(RootOnly(NOTHING), [[]])

  function AddSub(tree: Tree, place: Place, name: string): Tree
    requires place in tree
  {
    if place + [name] in tree then tree
    else
      tree[place := tree[place].(order := tree[place].order + [name])]
          [place + [name] := Entry(Trim(name), NOTHING, [])]
  }

  function SetAt(tree: Tree, place: Place, name: string, value: string): Tree
    requires place in tree
  {
    tree[place := tree[place].(params := SetIn(tree[place].params, name, value))]
  }

  function Top(stack: seq<Place>): Place
    requires stack != []
  {
    stack[|stack| - 1]
  }

  predicate HasTop(tree: Tree, stack: seq<Place>) {
    stack != [] && Top(stack) in tree
  }

  /** [name] opens a subdomain and [/name] closes the innermost one. */
  function ReadTag(tree: Tree, stack: seq<Place>, t: string): Reader
    requires t != "" && t[0] == '['
  {
    var end := FirstOf(t, "]");
    if end == |t| then Thrown
    else if t[1] == '/' then
      if !HasTop(tree, stack) || tree[Top(stack)].name != t[2..end] then Thrown
      else Open(tree, stack[..|stack| - 1])
    else if !HasTop(tree, stack) then Undefined
    else Open(AddSub(tree, Top(stack), t[1..end]), stack + [Top(stack) + [t[1..end]]])
  }

  function ReadSetting(tree: Tree, stack: seq<Place>, r: ConfigText.Reading): Reader {
    if !HasTop(tree, stack) then Undefined
    else
      match r
      case Blank => Open(tree, stack)
      case Malformed => Thrown
      case Pair(name, value) => Open(SetAt(tree, Top(stack), name, value), stack)
  }

  function ReadFileLine(st: Reader, line: string): Reader {
    match st
    case Open(tree, stack) =>
      (match LineOf(line)
       case Ignored => st
       case Tag(t) => ReadTag(tree, stack, t)
       case Setting(r) => ReadSetting(tree, stack, r))
    case _ => st
  }

  function AfterLines(lines: seq<string>, n: nat): Reader
    requires n <= |lines|
  {
    if n == 0 then START else ReadFileLine(AfterLines(lines, n - 1), lines[n - 1])
  }

  /** What reading a file leaves: nothing where the source throws or is undefined. */
  function Parsed(lines: seq<string>): Option<Tree> {
    match AfterLines(lines, |lines|)
    case Open(tree, stack) => if |stack| == 1 then Some(tree) else None
    case _ => None
  }

  lemma {:induction false} StaysStopped(lines: seq<string>, n: nat, m: nat)
    requires n <= m <= |lines| && !AfterLines(lines, n).Open?
    ensures AfterLines(lines, m) == AfterLines(lines, n)
  {
    if n < m {
      StaysStopped(lines, n, m - 1);
    }
  }

  lemma TagStarts(line: string, t: string)
    requires LineOf(line) == Tag(t)
    ensures t != "" && t[0] == '['
  {
  }

  // ---------------------------------------------------------------- the domains as objects

  /** The object of every domain of a tree. */
  type Objects = map<Place, ConfigDomain>

  ghost predicate Apart(at: Objects) {
    forall p, q :: p in at && q in at && p != q ==> at[p] != at[q]
  }

  /** An object has the data of its entry. */
  ghost predicate Same(d: ConfigDomain, e: Entry)
    reads d
  {
    d.Valid() && d.name == e.name && d.Contents() == e.params && d.domain == e.order
  }

  /** Pointers to subdomains lead to the objects one name further. */
  ghost predicate Lead(subs: map<string, ConfigDomain>, at: Objects, p: Place) {
    forall n :: (n in subs <==> p + [n] in at) && (n in subs ==> subs[n] == at[p + [n]])
  }

  ghost predicate Rooted(at: Objects) {
    [] in at && forall p :: p in at && p != [] ==> p[..|p| - 1] in at
  }

  /** The objects are the tree. */
  ghost predicate Mirrors(at: Objects, tree: Tree)
    reads at.Values
  {
    && at.Keys == tree.Keys && Apart(at) && Rooted(at)
    && forall p :: p in at ==> Same(at[p], tree[p]) && Lead(at[p].subdomain, at, p)
  }

  /** The pointers on the reader's stack are those of the places. */
  ghost predicate Points(at: Objects, stack: seq<ConfigDomain>, places: seq<Place>) {
    |stack| == |places| && forall i :: 0 <= i < |stack| ==> places[i] in at && stack[i] == at[places[i]]
  }

  lemma Longer(p: Place, name: string)
    ensures p + [name] != p && forall q: Place, n: string :: q + [n] == p + [name] <==> q == p && n == name
  {
    forall q: Place, n: string ensures q + [n] == p + [name] <==> q == p && n == name {
      if q + [n] == p + [name] {
        assert (q + [n])[..|q|] == q && (p + [name])[..|p|] == p && (q + [n])[|q|] == n;
      }
    }
  }

  lemma Others(at: Objects, place: Place)
    requires Apart(at) && place in at
    ensures forall p :: p in at && p != place ==> at[p] != at[place]
  {
  }

  /** A place one name below another is not yet linked to from anywhere, and nothing is below it. */
  lemma NewPlace(at: Objects, place: Place, name: string)
    requires Rooted(at) && place in at
    ensures place + [name] != place
    ensures forall q: Place, n: string :: q + [n] == place + [name] <==> q == place && n == name
    ensures place + [name] !in at ==> forall n :: place + [name] + [n] !in at
  {
    Longer(place, name);
    forall n | place + [name] + [n] in at ensures place + [name] in at {
      var p := place + [name] + [n];
      assert p[..|p| - 1] == place + [name];
    }
  }

  lemma GrowObjects(at: Objects, place: Place, name: string, d: ConfigDomain)
    requires Apart(at) && Rooted(at) && place in at && d !in at.Values
    ensures Apart(at[place + [name] := d]) && Rooted(at[place + [name] := d])
  {
    var grown, sub := at[place + [name] := d], place + [name];
    assert sub[..|sub| - 1] == place;
  }

  lemma LeadsTo(subs: map<string, ConfigDomain>, at: Objects, p: Place, n: string)
    requires Lead(subs, at, p)
    ensures (n in subs <==> p + [n] in at) && (n in subs ==> subs[n] == at[p + [n]])
  {
  }

  lemma NewLeads(subs: map<string, ConfigDomain>, at: Objects, place: Place, name: string, d: ConfigDomain)
    requires Rooted(at) && place in at && place + [name] !in at && Lead(subs, at, place)
    ensures var grown := at[place + [name] := d];
      Lead(subs[name := d], grown, place) && Lead(map[], grown, place + [name])
  {
    NewPlace(at, place, name);
    var grown := at[place + [name] := d];
    assert grown[place + [name]] == d;
  }

  /** A new object is a subdomain of the domain in front of it only. */
  lemma OtherLeads(subs: map<string, ConfigDomain>, at: Objects, p: Place, place: Place, name: string, d: ConfigDomain)
    requires Lead(subs, at, p) && place + [name] !in at && p != place
    ensures Lead(subs, at[place + [name] := d], p)
  {
    Longer(place, name);
  }

  /** With its new subdomain linked and everything else as it was, the objects are the larger tree. */
  lemma GrownMirrors(at: Objects, tree: Tree, place: Place, name: string, d: ConfigDomain)
    requires place in at && at.Keys == tree.Keys && place + [name] !in at && Apart(at) && Rooted(at)
    requires forall p :: p in at && p != place ==> Same(at[p], tree[p]) && Lead(at[p].subdomain, at, p)
    requires d !in at.Values && Same(d, Entry(Trim(name), NOTHING, [])) && d.subdomain == map[]
    requires Same(at[place], AddSub(tree, place, name)[place])
    requires Lead(at[place].subdomain, at[place + [name] := d], place)
    requires Lead(map[], at[place + [name] := d], place + [name])
    ensures Mirrors(at[place + [name] := d], AddSub(tree, place, name))
  {
    hide Apart, Rooted, Lead, Same, Trim, AddSub;
    GrowObjects(at, place, name, d);
    AddedEntries(tree, place, name);
    var sub := place + [name];
    var grown, more := at[sub := d], AddSub(tree, place, name);
    forall p | p in grown ensures Same(grown[p], more[p]) && Lead(grown[p].subdomain, grown, p) {
      if p == sub {
        assert grown[p] == d;
      } else if p != place {
        OtherLeads(at[p].subdomain, at, p, place, name, d);
      }
    }
  }

  lemma AddedEntries(tree: Tree, place: Place, name: string)
    requires place in tree && place + [name] !in tree
    ensures var more := AddSub(tree, place, name);
      && more.Keys == tree.Keys + {place + [name]}
      && more[place + [name]] == Entry(Trim(name), NOTHING, [])
      && forall p :: p in tree && p != place ==> more[p] == tree[p]
  {
  }

  datatype Outcome = Returned | Threw | UsedEmptyStack

  function OutcomeOf(st: Reader): Outcome {
    match st
    case Open(_, stack) => if |stack| == 1 then Returned else Threw
    case Thrown => Threw
    case Undefined => UsedEmptyStack
  }

  lemma RootMirrors(root: ConfigDomain)
    requires Same(root, Entry("", NOTHING, [])) && root.subdomain == map[]
    ensures Mirrors(map[[] := root], RootOnly(NOTHING)) && Points(map[[] := root], [root], [[]])
  {
  }

  lemma PointsLength(at: Objects, stack: seq<ConfigDomain>, places: seq<Place>)
    requires Points(at, stack, places)
    ensures |stack| == |places|
  {
  }

  /** The top of the stack is the object of the innermost open domain and has its name. */
  lemma TopPoints(at: Objects, tree: Tree, stack: seq<ConfigDomain>, places: seq<Place>)
    requires Mirrors(at, tree) && Points(at, stack, places)
    ensures |stack| == |places| && (HasTop(tree, places) <==> stack != [])
    ensures stack != [] ==>
      && Top(places) in at && at[Top(places)] == stack[|stack| - 1]
      && stack[|stack| - 1].name == tree[Top(places)].name
  {
  }

  class ConfigFile {
    const root: ConfigDomain
    ghost var at: Objects

    constructor ()
      ensures fresh(root) && Mirrors(at, RootOnly(NOTHING)) && [] in at && at[[]] == root
    {
      root := new ConfigDomain("");
      new;
      at := map[[] := root];
    }

    /** The tag that opens a domain, on the domain on top of the stack. */
    method OpenDomain(top: ConfigDomain, name: string, ghost place: Place, ghost tree: Tree) returns (d: ConfigDomain)
      requires Mirrors(at, tree) && place in at && at[place] == top
      modifies this`at, top
      ensures Mirrors(at, AddSub(tree, place, name)) && place + [name] in at && d == at[place + [name]]
      ensures forall p :: p in old(at) ==> p in at && at[p] == old(at[p])
      ensures forall p :: p in at && p !in old(at) ==> fresh(at[p])
    {
      hide Consistent, Listed, Distinct, Trim, Apart, Rooted, Lead;
      ghost var subs := top.subdomain;
      Others(at, place);
      assert Same(top, tree[place]) && Lead(subs, at, place);
      LeadsTo(subs, at, place, name);
      d := top.AddSubDomain(name);
      if place + [name] !in at {
        NewLeads(subs, at, place, name, d);
        assert forall p :: p in at && p != place ==> Same(at[p], tree[p]) && Lead(at[p].subdomain, at, p);
        GrownMirrors(at, tree, place, name, d);
        at := at[place + [name] := d];
      }
    }

    /** A line with a parameter, for the domain on top of the stack. */
    method SetLine(top: ConfigDomain, line: string, ghost place: Place, ghost tree: Tree) returns (ok: bool)
      requires Mirrors(at, tree) && place in at && at[place] == top
      modifies top
      ensures ok == !ReadLine(line).Malformed?
      ensures match ReadLine(line)
        case Pair(name, value) => Mirrors(at, SetAt(tree, place, name, value))
        case _ => Mirrors(at, tree)
    {
      hide Consistent, Listed, Distinct, ReadLine, SetIn, Apart, Rooted, Lead;
      Others(at, place);
      assert Same(top, tree[place]) && Lead(top.subdomain, at, place);
      ok := top.SetParamLine(line);
      ghost var after := match ReadLine(line) case Pair(n, value) => SetAt(tree, place, n, value) case _ => tree;
      assert Same(top, after[place]);
      forall p | p in at ensures Same(at[p], after[p]) && Lead(at[p].subdomain, at, p) {
        if p != place {
          assert at[p] != top;
        }
      }
    }

    /** One line that starts like a tag. */
    method TagLine(t: string, stack: seq<ConfigDomain>, ghost places: seq<Place>, ghost tree: Tree)
      returns (o: Option<Outcome>, rest: seq<ConfigDomain>, ghost st: Reader)
      requires t != "" && t[0] == '['
      requires Mirrors(at, tree) && Points(at, stack, places)
      modifies this`at, at.Values
      ensures st == ReadTag(tree, places, t) && Follows(st, o, rest)
      ensures forall p :: p in old(at) ==> p in at && at[p] == old(at[p])
      ensures forall p :: p in at && p !in old(at) ==> fresh(at[p])
    {
      hide FirstOf, Same, Apart, Rooted, Lead, AddSub;
      rest, st := stack, ReadTag(tree, places, t);
      TopPoints(at, tree, stack, places);
      var posl := FirstOf(t, "]");
      if posl == |t| {
        return Some(Threw), rest, st;
      }
      if t[1] == '/' {
        var sName := t[2..posl];
        if |stack| <= 0 || stack[|stack| - 1].name != sName {
          return Some(Threw), rest, st;
        }
        rest := stack[..|stack| - 1];
      } else {
        if |stack| == 0 {
          return Some(UsedEmptyStack), rest, st;
        }
        var d := OpenDomain(stack[|stack| - 1], t[1..posl], Top(places), tree);
        rest := stack + [d];
      }
      o := None;
    }

    /** What a line leaves: the reader goes on with these objects on its stack, or it has stopped. */
    ghost predicate Follows(st: Reader, o: Option<Outcome>, stack: seq<ConfigDomain>)
      reads this, at.Values
    {
      match st
      case Open(tree, places) => o == None && Mirrors(at, tree) && Points(at, stack, places)
      case _ => o == Some(OutcomeOf(st))
    }

    /** One line with a parameter. */
    method SettingLine(t: string, stack: seq<ConfigDomain>, ghost places: seq<Place>, ghost tree: Tree)
      returns (o: Option<Outcome>, ghost st: Reader)
      requires Mirrors(at, tree) && Points(at, stack, places)
      modifies at.Values
      ensures st == ReadSetting(tree, places, ReadLine(t)) && Follows(st, o, stack)
    {
      hide Same, Apart, Rooted, Lead, SetAt, ReadLine;
      st := ReadSetting(tree, places, ReadLine(t));
      TopPoints(at, tree, stack, places);
      if |stack| == 0 {
        return Some(UsedEmptyStack), st;
      }
      var ok := SetLine(stack[|stack| - 1], t, Top(places), tree);
      o := if ok then None else Some(Threw);
    }

    /** parse: the lines of a file, with the stack of pointers to the open domains. */
    method Parse(lines: seq<string>) returns (o: Outcome)
      requires root.name == ""
      modifies this`at, root
      ensures o == OutcomeOf(AfterLines(lines, |lines|))
      ensures o == Returned ==> [] in at && at[[]] == root && Mirrors(at, Parsed(lines).value)
    {
      hide Mirrors, Points, ReadTag, ReadSetting, Trim, ReadLine;
      root.Destroy();
      at := map[[] := root];
      RootMirrors(root);
      var stack := [root];
      ghost var tree, places: seq<Place> := RootOnly(NOTHING), [[]];
      for n := 0 to |lines|
        invariant AfterLines(lines, n) == Open(tree, places)
        invariant Mirrors(at, tree) && Points(at, stack, places)
        invariant [] in at && at[[]] == root && forall p :: p in at ==> at[p] == root || fresh(at[p])
      {
        var line := Trim(lines[n]);
        if |line| == 0 || line[0] == '#' {
          continue;
        }
        var stop;
        ghost var st;
        if line[0] == '[' {
          stop, stack, st := TagLine(line, stack, places, tree);
        } else {
          stop, st := SettingLine(line, stack, places, tree);
        }
        if stop.Some? {
          StaysStopped(lines, n + 1, |lines|);
          return stop.value;
        }
        tree, places := st.tree, st.stack;
      }
      PointsLength(at, stack, places);
      o := if |stack| != 1 then Threw else Returned;
    }
  }

  // ---------------------------------------------------------------- reading printed parameters

  ghost predicate PrintableParams(p: Params) {
    Consistent(p) && AllPrintable(p)
  }

  lemma PrintableKeys(p: Params)
    requires PrintableParams(p)
    ensures forall i :: 0 <= i < |p.key| ==>
      p.key[i] in p.param && Printable(p.key[i]) && Printable(p.param[p.key[i]])
  {
  }

  /** The lines tostr prints for the parameters of a domain at some depth. */
  ghost function Lines(p: Params, depth: nat): (r: seq<string>)
    requires PrintableParams(p)
    ensures |r| == |p.key|
  {
    PrintableKeys(p);
    seq(|p.key|, i requires 0 <= i < |p.key| => ParamLine(depth, p.key[i], p.param[p.key[i]]))
  }

  lemma LineAt(p: Params, depth: nat, i: nat)
    requires PrintableParams(p) && i < |p.key|
    ensures p.key[i] in p.param && Printable(p.key[i]) && Printable(p.param[p.key[i]])
    ensures Lines(p, depth)[i] == ParamLine(depth, p.key[i], p.param[p.key[i]])
  {
    PrintableKeys(p);
  }

  /** The parameters of the root. */
  function RootParams(st: Reader): Params {
    if st.Open? && [] in st.tree then st.tree[[]].params else NOTHING
  }

  /** Still in the root, and no tag has been seen. */
  ghost predicate Clean(st: Reader) {
    st == Open(RootOnly(RootParams(st)), [[]])
  }

  /** A tag or an exception has been met: the root will not again be a domain without subdomains, alone and open. */
  ghost predicate Spoilt(st: Reader) {
    !st.Open? || st.stack == [] || exists p :: p in st.tree && p != []
  }

  lemma LineFromClean(st: Reader, line: string)
    requires Clean(st)
    ensures var r := ReadFileLine(st, line);
      match LineOf(line)
      case Ignored => r == st
      case Setting(Pair(name, value)) =>
        Clean(r) && RootParams(r) == SetIn(RootParams(st), name, value)
      case Setting(Blank) => r == st
      case _ => Spoilt(r)
  {
    hide LineOf, SetIn, FirstOf, Trim;
    assert Top([[]]) == [];
    match LineOf(line) {
      case Tag(t) =>
        TagStarts(line, t);
        var end := FirstOf(t, "]");
        if end < |t| && t[1] != '/' {
          assert [] + [t[1..end]] in ReadFileLine(st, line).tree;
        }
      case _ =>
    }
  }

  lemma SpoiltStays(st: Reader, line: string)
    requires Spoilt(st)
    ensures Spoilt(ReadFileLine(st, line))
  {
    hide LineOf, SetIn, Trim, FirstOf;
    match LineOf(line) {
      case Tag(t) => TagStarts(line, t);
      case _ =>
    }
    if st.Open? && st.stack != [] {
      var p :| p in st.tree && p != [];
      var r := ReadFileLine(st, line);
      assert r.Open? ==> p in r.tree;
    }
  }

  lemma {:induction false} SpoiltOnwards(lines: seq<string>, n: nat, m: nat)
    requires n <= m <= |lines| && Spoilt(AfterLines(lines, n))
    ensures Spoilt(AfterLines(lines, m))
  {
    hide ReadFileLine, Spoilt;
    if n < m {
      SpoiltOnwards(lines, n, m - 1);
      SpoiltStays(AfterLines(lines, m - 1), lines[m - 1]);
    }
  }

  /** As long as the end is not spoilt, every line on the way was read into the root. */
  lemma {:induction false} CleanUpTo(lines: seq<string>, n: nat)
    requires n <= |lines| && !Spoilt(AfterLines(lines, |lines|))
    ensures Clean(AfterLines(lines, n))
  {
    hide ReadFileLine, Spoilt, Clean, LineOf;
    if n == 0 {
      StartIsClean();
    } else {
      CleanUpTo(lines, n - 1);
      LineFromClean(AfterLines(lines, n - 1), lines[n - 1]);
      if Spoilt(AfterLines(lines, n)) {
        SpoiltOnwards(lines, n, |lines|);
      }
    }
  }

  lemma StartIsClean()
    ensures Clean(START) && RootParams(START) == NOTHING
  {
  }

  ghost predicate IsFront(q: Params, p: Params, n: nat)
    requires n <= |p.key|
  {
    && q.key == p.key[..n]
    && (forall k :: k in q.param <==> k in p.key[..n])
    && (forall k :: k in q.param && k in p.param ==> q.param[k] == p.param[k])
  }

  lemma FrontGrows(q: Params, p: Params, n: nat)
    requires Consistent(p) && n < |p.key| && IsFront(q, p, n)
    ensures p.key[n] in p.param && IsFront(SetIn(q, p.key[n], p.param[p.key[n]]), p, n + 1)
  {
    var name := p.key[n];
    assert name !in p.key[..n];
    DroppedAbsent(q.key, name);
    assert p.key[..n + 1] == p.key[..n] + [name];
  }

  lemma EmptyFront(p: Params)
    ensures IsFront(NOTHING, p, 0)
  {
  }

  lemma {:induction false} DroppedLength(names: seq<string>, name: string)
    ensures |Dropped(names, name)| <= |names|
    ensures |Dropped(names, name)| == |names| ==> name !in names
  {
    if names != [] && names[0] != name {
      DroppedLength(names[1..], name);
      assert names == [names[0]] + names[1..];
    }
  }

  lemma {:induction false} LastSet(names: seq<string>, all: seq<string>, n: nat, name: string)
    requires 0 < n <= |all| && |names| < n && Dropped(names, name) + [name] == all[..n]
    ensures name == all[n - 1] && name !in names && names == all[..n - 1]
  {
    DroppedLength(names, name);
    DroppedAbsent(names, name);
    hide Dropped;
    var grown := names + [name];
    assert grown[..n - 1] == names && grown[n - 1] == name;
    assert all[..n][..n - 1] == all[..n - 1] && all[..n][n - 1] == all[n - 1];
  }

  /** If a line completed the first n parameters, it gave the last of them and the rest was there. */
  lemma FrontShrinks(q: Params, p: Params, n: nat, name: string, value: string)
    requires Consistent(p) && Consistent(q) && 0 < n <= |p.key| && |q.key| < n
    requires IsFront(SetIn(q, name, value), p, n)
    ensures p.key[n - 1] in p.param && name == p.key[n - 1] && value == p.param[name]
    ensures IsFront(q, p, n - 1)
  {
    hide Dropped, Consistent, IsFront;
    FrontKey(SetIn(q, name, value), p, n);
    LastSet(q.key, p.key, n, name);
    Member(p, name);
    FrontValue(SetIn(q, name, value), p, n, name);
    forall k | k in q.param && k in p.param ensures q.param[k] == p.param[k] {
      Member(q, k);
      FrontValue(SetIn(q, name, value), p, n, k);
    }
    MakeFront(q, p, n - 1);
  }

  lemma FrontKey(q: Params, p: Params, n: nat)
    requires n <= |p.key| && IsFront(q, p, n)
    ensures q.key == p.key[..n]
  {
  }

  lemma FrontValue(q: Params, p: Params, n: nat, k: string)
    requires n <= |p.key| && IsFront(q, p, n) && k in q.param && k in p.param
    ensures q.param[k] == p.param[k]
  {
  }

  lemma Member(p: Params, k: string)
    requires Consistent(p)
    ensures k in p.key <==> k in p.param
  {
  }

  lemma MakeFront(q: Params, p: Params, n: nat)
    requires n <= |p.key| && q.key == p.key[..n] && Consistent(q)
    requires forall k :: k in q.param && k in p.param ==> q.param[k] == p.param[k]
    ensures IsFront(q, p, n)
  {
    hide Distinct;
  }

  lemma {:induction false} RereadFront(p: Params, depth: nat, n: nat)
    requires PrintableParams(p) && n <= |p.key|
    requires forall k :: k in p.param ==> Survives(k, p.param[k])
    ensures var st := AfterLines(Lines(p, depth), n); Clean(st) && IsFront(RootParams(st), p, n)
  {
    hide ReadFileLine, LineOf, ParamLine, Survives, Printable, IsFront, SetIn, Lines;
    if n == 0 {
      StartIsClean();
      EmptyFront(p);
    } else {
      RereadFront(p, depth, n - 1);
      LineAt(p, depth, n - 1);
      var name, st := p.key[n - 1], AfterLines(Lines(p, depth), n - 1);
      PrintedLine(depth, name, p.param[name]);
      LineFromClean(st, Lines(p, depth)[n - 1]);
      FrontGrows(RootParams(st), p, n - 1);
    }
  }

  lemma SetGrowsByOne(p: Params, name: string, value: string)
    ensures |SetIn(p, name, value).key| <= |p.key| + 1
  {
    DroppedLength(p.key, name);
  }

  lemma {:induction false} RereadBounded(p: Params, depth: nat, n: nat)
    requires PrintableParams(p) && n <= |p.key|
    requires !Spoilt(AfterLines(Lines(p, depth), |p.key|))
    ensures var st := AfterLines(Lines(p, depth), n);
      Clean(st) && Consistent(RootParams(st)) && |RootParams(st).key| <= n
  {
    hide ReadFileLine, LineOf, Printable, Consistent, SetIn, Clean, Lines, Spoilt, PrintableParams;
    var lines := Lines(p, depth);
    CleanUpTo(lines, n);
    if n == 0 {
      StartIsClean();
      NothingConsistent();
    } else {
      RereadBounded(p, depth, n - 1);
      LineInBounds(AfterLines(lines, n - 1), lines[n - 1], n - 1);
    }
  }

  lemma LineInBounds(st: Reader, line: string, n: nat)
    requires Clean(st) && Consistent(RootParams(st)) && |RootParams(st).key| <= n
    requires Clean(ReadFileLine(st, line))
    ensures Consistent(RootParams(ReadFileLine(st, line))) && |RootParams(ReadFileLine(st, line)).key| <= n + 1
  {
    hide ReadFileLine, LineOf, Consistent, SetIn;
    LineFromClean(st, line);
    match LineOf(line) {
      case Setting(Pair(name, value)) =>
        SetKeepsConsistent(RootParams(st), name, value);
        SetGrowsByOne(RootParams(st), name, value);
      case _ =>
    }
  }

  lemma NothingConsistent()
    ensures Consistent(NOTHING)
  {
  }

  lemma {:induction false} OnlySurvivors(p: Params, depth: nat, n: nat)
    requires PrintableParams(p) && n <= |p.key| && !Spoilt(AfterLines(Lines(p, depth), |p.key|))
    requires AfterLines(Lines(p, depth), n).Open? && IsFront(RootParams(AfterLines(Lines(p, depth), n)), p, n)
    ensures forall i :: 0 <= i < n ==> p.key[i] in p.param && Survives(p.key[i], p.param[p.key[i]])
  {
    hide ReadFileLine, LineOf, ParamLine, Survives, Printable, IsFront, SetIn, Lines, Spoilt, AllPrintable;
    if n > 0 {
      var lines := Lines(p, depth);
      RereadBounded(p, depth, n);
      RereadBounded(p, depth, n - 1);
      LineAt(p, depth, n - 1);
      LastSurvives(p, depth, n, AfterLines(lines, n - 1));
      OnlySurvivors(p, depth, n - 1);
    }
  }

  lemma LastSurvives(p: Params, depth: nat, n: nat, st: Reader)
    requires PrintableParams(p) && 0 < n <= |p.key|
    requires Clean(st) && Consistent(RootParams(st)) && |RootParams(st).key| < n
    requires p.key[n - 1] in p.param && Printable(p.key[n - 1]) && Printable(p.param[p.key[n - 1]])
    requires var r := ReadFileLine(st, ParamLine(depth, p.key[n - 1], p.param[p.key[n - 1]]));
      Clean(r) && IsFront(RootParams(r), p, n)
    ensures Survives(p.key[n - 1], p.param[p.key[n - 1]]) && IsFront(RootParams(st), p, n - 1)
  {
    hide ReadFileLine, LineOf, ParamLine, Survives, Printable, IsFront, SetIn, Consistent, AllPrintable;
    var name := p.key[n - 1];
    var line := ParamLine(depth, name, p.param[name]);
    LineFromClean(st, line);
    FrontKey(RootParams(ReadFileLine(st, line)), p, n);
    assert |p.key[..n]| == n;
    match LineOf(line) {
      case Setting(Pair(a, b)) =>
        FrontShrinks(RootParams(st), p, n, a, b);
        PrintedLine(depth, name, p.param[name]);
      case _ =>
    }
  }

  /**
    Reading the printed parameters of a domain as a file gives a root with these parameters, in this
    order and without subdomains, exactly when every parameter survives its line.
   */
  lemma ParamsRoundTrip(p: Params, depth: nat)
    requires PrintableParams(p)
    ensures Parsed(Lines(p, depth)) == Some(RootOnly(p)) <==>
      forall k :: k in p.param ==> Survives(k, p.param[k])
  {
    hide ReadFileLine, Survives, Printable, Lines;
    var n, lines := |p.key|, Lines(p, depth);
    assert p.key[..n] == p.key;
    if forall k :: k in p.param ==> Survives(k, p.param[k]) {
      RereadFront(p, depth, n);
      var q := RootParams(AfterLines(lines, n));
      assert q.param.Keys == p.param.Keys;
      assert q.param == p.param;
    }
    if Parsed(lines) == Some(RootOnly(p)) {
      OnlySurvivors(p, depth, n);
      forall k | k in p.param ensures Survives(k, p.param[k]) {
        assert k in p.key;
      }
    }
  }
}
