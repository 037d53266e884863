/** Configuration domains: common/inutil/inv_config.cpp. */
module Config {
  import opened Options
  import opened ConfigText

  /** The parameters of a domain and the order in which their names were last set. */
  datatype Params = Params(param: map<string, string>, key: seq<string>)

  const NOTHING := Params(map[], [])

  ghost predicate Distinct(names: seq<string>) {
    forall i, j :: 0 <= i < j < |names| ==> names[i] != names[j]
  }

  /** The names are listed once each, and they are those of the table. */
  ghost predicate Listed<T>(names: seq<string>, table: map<string, T>) {
    Distinct(names) && forall n :: n in names <==> n in table
  }

  ghost predicate Consistent(p: Params) {
    Listed(p.key, p.param)
  }

  /** The names without the first occurrence of one. */
  function Dropped(names: seq<string>, name: string): seq<string> {
    if names == [] then []
    else if names[0] == name then names[1..]
    else [names[0]] + Dropped(names[1..], name)
  }

  function SetIn(p: Params, name: string, value: string): Params {
    Params(p.param[name := value], Dropped(p.key, name) + [name])
  }

  /** A map with distinct names in the order in which std::map walks them. */
  type Entries = seq<(string, string)>

  ghost predicate DistinctNames(m: Entries) {
    forall i, j :: 0 <= i < j < |m| ==> m[i].0 != m[j].0
  }

  /** What inserting the first n entries leaves: a name that is there keeps its value and its place. */
  function InsertedIn(p: Params, m: Entries, n: nat): Params
    requires n <= |m|
  {
    if n == 0 then p
    else
      var q := InsertedIn(p, m, n - 1);
      var (name, value) := m[n - 1];
      Params(if name in q.param then q.param else q.param[name := value],
             if name in q.key then q.key else q.key + [name])
  }

  function ReadIn(p: Params, line: string): Params {
    match ReadLine(line)
    case Pair(name, value) => SetIn(p, name, value)
    case _ => p
  }

  // ---------------------------------------------------------------- the list of names and the table stay together

  lemma {:induction false} DroppedMembers(names: seq<string>, name: string)
    requires Distinct(names)
    ensures forall n :: n in Dropped(names, name) <==> n in names && n != name
    ensures Distinct(Dropped(names, name))
  {
    if names != [] {
      assert names == [names[0]] + names[1..];
      DroppedMembers(names[1..], name);
      if names[0] != name {
        PrependDistinct(names[0], Dropped(names[1..], name));
      }
    }
  }

  lemma PrependDistinct(name: string, names: seq<string>)
    requires Distinct(names) && name !in names
    ensures Distinct([name] + names)
  {
  }

  lemma AppendDistinct(names: seq<string>, name: string)
    requires Distinct(names) && name !in names
    ensures Distinct(names + [name])
  {
  }

  lemma SetKeepsConsistent(p: Params, name: string, value: string)
    requires Consistent(p)
    ensures Consistent(SetIn(p, name, value))
  {
    hide Distinct;
    DroppedMembers(p.key, name);
    AppendDistinct(Dropped(p.key, name), name);
  }

  lemma {:induction false} InsertKeepsConsistent(p: Params, m: Entries, n: nat)
    requires Consistent(p) && n <= |m|
    ensures Consistent(InsertedIn(p, m, n))
  {
    hide Distinct;
    if n > 0 {
      InsertKeepsConsistent(p, m, n - 1);
      var q := InsertedIn(p, m, n - 1);
      if m[n - 1].0 !in q.key {
        AppendDistinct(q.key, m[n - 1].0);
      }
    }
  }

  /** Inserting never changes a value, and a new name gets the inserted one. */
  lemma {:induction false} InsertValues(p: Params, m: Entries, n: nat, k: string)
    requires n <= |m| && DistinctNames(m)
    ensures k in p.param ==> k in InsertedIn(p, m, n).param && InsertedIn(p, m, n).param[k] == p.param[k]
    ensures k !in p.param ==>
      (k in InsertedIn(p, m, n).param <==> exists i :: 0 <= i < n && m[i].0 == k)
    ensures k !in p.param ==>
      forall i :: 0 <= i < n && m[i].0 == k ==> InsertedIn(p, m, n).param[k] == m[i].1
  {
    if n > 0 {
      InsertValues(p, m, n - 1, k);
      if k == m[n - 1].0 {
        assert forall i :: 0 <= i < n - 1 ==> m[i].0 != k;
      }
    }
  }

  /** The names that are there keep their places, and each new name comes last when its turn comes. */
  lemma {:induction false} InsertOrder(p: Params, m: Entries, n: nat)
    requires n <= |m| && DistinctNames(m)
    ensures p.key <= InsertedIn(p, m, n).key
    ensures forall k :: k in InsertedIn(p, m, n).key <==> k in p.key || exists i :: 0 <= i < n && m[i].0 == k
    ensures n > 0 ==>
      InsertedIn(p, m, n).key == InsertedIn(p, m, n - 1).key + (if m[n - 1].0 in p.key then [] else [m[n - 1].0])
  {
    if n > 0 {
      InsertOrder(p, m, n - 1);
    }
  }

  ghost predicate AllPrintable(p: Params) {
    forall k :: k in p.param ==> Printable(k) && Printable(p.param[k])
  }

  lemma {:induction false} DroppedAbsent(names: seq<string>, name: string)
    requires name !in names
    ensures Dropped(names, name) == names
  {
    if names != [] {
      DroppedAbsent(names[1..], name);
      assert names == [names[0]] + names[1..];
    }
  }

  // ---------------------------------------------------------------- the class

  class ConfigDomain {
    var name: string
    var param: map<string, string>
    var key: seq<string>
    var subdomain: map<string, ConfigDomain>
    var domain: seq<string>
    var lines: seq<string>

    ghost function Contents(): Params
      reads this
    {
      Params(param, key)
    }

    /** What the asserts of tostr rely on. */
    ghost predicate Valid()
      reads this
    {
      Consistent(Contents()) && Listed(domain, subdomain)
    }

    constructor (line: string)
      ensures Valid() && Contents() == NOTHING && domain == [] && subdomain == map[] && lines == []
      ensures name == Trim(line)
    {
      name := Trim(line);
      param, key := map[], [];
      subdomain, domain := map[], [];
      lines := [];
    }

    /** Empties the domain. That the source deletes the subdomain objects is not modelled. */
    method Destroy()
      modifies this`param, this`key, this`lines, this`domain, this`subdomain
      ensures Valid() && Contents() == NOTHING && domain == [] && subdomain == map[] && lines == []
    {
      param, key, lines := map[], [], [];
      domain, subdomain := [], map[];
    }

    /** Gives the subdomain of that name, a new and empty one if there was none. */
    method AddSubDomain(sub: string) returns (d: ConfigDomain)
      requires Valid()
      modifies this`domain, this`subdomain
      ensures Valid() && sub in subdomain && d == subdomain[sub]
      ensures sub in old(subdomain) ==> domain == old(domain) && subdomain == old(subdomain)
      ensures sub !in old(subdomain) ==>
        && fresh(d) && d.Valid() && d.Contents() == NOTHING && d.domain == [] && d.subdomain == map[]
        && d.name == Trim(sub)
        && domain == old(domain) + [sub] && subdomain == old(subdomain)[sub := d]
    {
      hide Consistent, Distinct;
      if sub !in subdomain {
        AppendDistinct(domain, sub);
        domain := domain + [sub];
        var added := new ConfigDomain(sub);
        subdomain := subdomain[sub := added];
      }
      return subdomain[sub];
    }

    method InsertParamValue(m: Entries)
      requires Valid() && DistinctNames(m)
      modifies this`param, this`key
      ensures Valid() && Contents() == InsertedIn(old(Contents()), m, |m|)
    {
      hide Consistent, Listed;
      InsertKeepsConsistent(Contents(), m, |m|);
      ghost var before := Contents();
      for n := 0 to |m|
        invariant param == InsertedIn(before, m, n).param && key == before.key
      {
        if m[n].0 !in param {
          param := param[m[n].0 := m[n].1];
        }
      }
      for n := 0 to |m|
        invariant key == InsertedIn(before, m, n).key && param == InsertedIn(before, m, |m|).param
      {
        var i := FindKey(m[n].0);
        if i == |key| {
          key := key + [m[n].0];
        }
      }
    }

    method FindKey(name: string) returns (i: nat)
      ensures i <= |key| && (i < |key| <==> name in key)
      ensures i < |key| ==> key[i] == name && name !in key[..i]
    {
      i := 0;
      while i < |key|
        invariant i <= |key| && name !in key[..i]
      {
        if key[i] == name {
          return;
        }
        i := i + 1;
      }
    }

    /** A set parameter moves to the end of the list. */
    method SetParamValue(name: string, value: string)
      requires Valid()
      modifies this`param, this`key
      ensures Valid() && Contents() == SetIn(old(Contents()), name, value)
      ensures param == old(param)[name := value]
    {
      hide Consistent, Listed;
      SetKeepsConsistent(Contents(), name, value);
      param := param[name := value];
      var i := FindKey(name);
      DroppedAt(key, name, i);
      if i < |key| {
        key := key[..i] + key[i + 1..];
      }
      key := key + [name];
    }

    /**
      Sets the parameter a line gives. A line that cannot be read is remembered and changes
      nothing else; the result says whether the source returns without throwing.
     */
    method SetParamLine(line: string) returns (ok: bool)
      requires Valid()
      modifies this`param, this`key, this`lines
      ensures Valid() && Contents() == ReadIn(old(Contents()), line)
      ensures ok <==> !ReadLine(line).Malformed?
      ensures lines == if line == "" then old(lines) else old(lines) + [line]
    {
      hide Consistent, Listed, Unescaped, Trim, SetIn;
      if line == "" {
        return true;
      }
      lines := lines + [line];
      var pos := 0;
      while pos <= |line| - 1
        invariant pos <= |line| && FirstBare(line, 0) == FirstBare(line, pos)
      {
        if line[pos] == '=' {
          if pos > 0 && line[pos - 1] == BACKSLASH {
            pos := pos + 1;
            continue;
          }
          var name := Parse(Trim(line[..pos]));
          if name.None? {
            return false;
          }
          var value := Some("");
          if pos < |line| - 1 {
            value := Parse(Trim(line[pos + 1..]));
          } else {
            TrimOfNothing();
            assert line[pos + 1..] == "";
          }
          if value.None? {
            return false;
          }
          SetParamValue(name.value, value.value);
          return true;
        }
        pos := pos + 1;
      }
      SetParamValue(line, "");
      return true;
    }

    /** The parameter lines of tostr for a domain at depth i, none where reverse_parse throws. */
    method ParamLines(i: nat) returns (texts: Option<seq<string>>)
      requires Valid()
      ensures texts.Some? <==> AllPrintable(Contents())
      ensures texts.Some? ==> |texts.value| == |key|
      ensures texts.Some? ==> forall n :: 0 <= n < |key| ==>
        && key[n] in param && Printable(key[n]) && Printable(param[key[n]])
        && texts.value[n] == ParamLine(i, key[n], param[key[n]])
    {
      hide Escaped, Printable, Distinct, Tabs;
      var tab := "";
      TabsNone();
      for k := 0 to i
        invariant tab == Tabs(k)
      {
        TabsMore(k);
        tab := tab + "\t";
      }
      TabsMore(i);
      TabsFront(i);
      var out := [];
      for n := 0 to |key|
        invariant |out| == n
        invariant forall k :: 0 <= k < n ==> Printable(key[k]) && Printable(param[key[k]])
        invariant forall k :: 0 <= k < n ==> out[k] == ParamLine(i, key[k], param[key[k]])
      {
        assert key[n] in param;
        var value := param[key[n]];
        var left := ReverseParse(key[n]);
        if left.None? {
          return None;
        }
        var right := ReverseParse(value);
        if right.None? {
          return None;
        }
        var line := if value == "" then left.value else left.value + "=" + right.value;
        out := out + ["\t" + tab + line];
      }
      forall k | k in param ensures Printable(k) && Printable(param[k]) {
        assert k in key;
      }
      return Some(out);
    }

    /** The subdomains in the order of tostr. */
    method SubDomains() returns (subs: seq<ConfigDomain>)
      requires Valid()
      ensures |subs| == |domain|
      ensures forall i :: 0 <= i < |subs| ==> domain[i] in subdomain && subs[i] == subdomain[domain[i]]
    {
      hide Consistent, Distinct;
      subs := [];
      for n := 0 to |domain|
        invariant |subs| == n
        invariant forall i :: 0 <= i < n ==> domain[i] in subdomain && subs[i] == subdomain[domain[i]]
      {
        assert domain[n] in subdomain;
        subs := subs + [subdomain[domain[n]]];
      }
    }
  }

  /** A parameter that is set gets the value, and its name the last place; the other names keep their order. */
  lemma SetMoves(p: Params, name: string, value: string)
    requires Consistent(p)
    ensures SetIn(p, name, value).param == p.param[name := value]
    ensures name !in p.param ==> SetIn(p, name, value).key == p.key + [name]
    ensures forall i :: 0 <= i < |p.key| && p.key[i] == name ==>
                          SetIn(p, name, value).key == p.key[..i] + p.key[i + 1..] + [name]
  {
    hide Dropped;
    if name !in p.param {
      DroppedAbsent(p.key, name);
    }
    forall i | 0 <= i < |p.key| && p.key[i] == name
      ensures SetIn(p, name, value).key == p.key[..i] + p.key[i + 1..] + [name]
    {
      DroppedAt(p.key, name, i);
    }
  }

  lemma TrimOfNothing()
    ensures Trim("") == "" && Unescaped("") == Some("")
  {
  }

  lemma {:induction false} DroppedAt(names: seq<string>, name: string, i: nat)
    requires i <= |names| && name !in names[..i] && (i < |names| ==> names[i] == name)
    ensures Dropped(names, name) == if i < |names| then names[..i] + names[i + 1..] else names
  {
    if i == |names| {
      assert names[..i] == names;
      DroppedAbsent(names, name);
    } else if i > 0 {
      assert names[0] == names[..i][0];
      assert names[..i] == [names[0]] + names[1..][..i - 1];
      DroppedAt(names[1..], name, i - 1);
      assert names[..i] + names[i + 1..] == [names[0]] + (names[1..][..i - 1] + names[1..][i..]);
    }
  }
}
