/** Simplifying a path textually: common/inutil/inv_file.cpp, simplifyDirectory. */
module Path {
  import opened Text

  /**
    What a path means to this function: whether it is absolute, and its components. Empty and
    "." components say nothing, except a "." that a relative path starts with; leading ".."
    components of an absolute path stay at the root.
   */
  datatype Meaning = Meaning(absolute: bool, parts: seq<string>)

  function Solid(parts: seq<string>): (r: seq<string>)
    ensures forall k :: 0 <= k < |r| ==> r[k] != "" && r[k] != "."
  {
    if parts == [] then []
    else
      var last := parts[|parts| - 1];
      Solid(parts[..|parts| - 1]) + (if last == "" || last == "." then [] else [last])
  }

  function BelowRoot(parts: seq<string>): (r: seq<string>)
    ensures r != [] ==> r[0] != ".."
  {
    if parts != [] && parts[0] == ".." then BelowRoot(parts[1..]) else parts
  }

  function MeaningOf(parts: seq<string>): Meaning
    requires parts != []
  {
    if |parts| == 1 && parts[0] == "" then Meaning(false, [])
    else if parts[0] == "" then Meaning(true, BelowRoot(Solid(parts[1..])))
    else Meaning(false, [parts[0]] + Solid(parts[1..]))
  }

  function Means(path: string): Meaning {
    MeaningOf(Split(path, "/"))
  }

  function Print(m: Meaning): string {
    (if m.absolute then "/" else "") + Join(m.parts, '/')
  }

  // ---------------------------------------------------------------- splitting and joining around a slash

  lemma {:induction false} SplitAround(a: string, b: string)
    ensures Split(a + "/" + b, "/") == Split(a, "/") + Split(b, "/")
    decreases |a|
  {
    var s := a + "/" + b;
    var q := FirstOf(a, "/");
    hide FirstOf;
    CutAround(a, b, q);
    if q == |a| {
      FirstOfStops(a, '/', b);
    } else {
      FirstOfPrefix(a, "/" + b, q);
      SplitAround(a[q + 1..], b);
    }
  }

  lemma CutAround(a: string, b: string, q: nat)
    requires q <= |a|
    ensures a + "/" + b == a + ("/" + b)
    ensures (a + "/" + b)[..q] == a[..q]
    ensures q < |a| ==> (a + "/" + b)[q + 1..] == a[q + 1..] + "/" + b
    ensures q == |a| ==> a[..q] == a && (a + "/" + b)[q + 1..] == b
  {
  }

  lemma {:induction false} FirstOfPrefix(a: string, b: string, q: nat)
    requires q == FirstOf(a, "/") && q < |a|
    ensures FirstOf(a + b, "/") == q
  {
    assert forall k :: 0 <= k <= q ==> (a + b)[k] == a[k];
  }

  lemma {:induction false} JoinAround(x: seq<string>, y: seq<string>)
    requires x != [] && y != []
    ensures Join(x + y, '/') == Join(x, '/') + "/" + Join(y, '/')
  {
    if |x| == 1 {
      assert x + y == [x[0]] + y;
      JoinCons(x[0], y, '/');
    } else {
      JoinAround(x[1..], y);
      assert x + y == [x[0]] + (x[1..] + y);
      JoinCons(x[0], x[1..] + y, '/');
    }
  }

  lemma {:induction false} SlashFree(s: string)
    requires Free(s, "/")
    ensures Split(s, "/") == [s]
  {
    FirstOfStops(s, '/', "");
  }

  lemma {:induction false} SolidLast(x: seq<string>, c: string)
    ensures Solid(x + [c]) == Solid(x) + (if c == "" || c == "." then [] else [c])
  {
    assert (x + [c])[..|x|] == x;
  }

  lemma LastOf(x: seq<string>, y: seq<string>)
    requires y != []
    ensures var n := |y| - 1; x + y == x + y[..n] + [y[n]] && y == y[..n] + [y[n]]
  {
  }

  lemma {:induction false} SolidAround(x: seq<string>, y: seq<string>)
    ensures Solid(x + y) == Solid(x) + Solid(y)
  {
    if y == [] {
      assert x + y == x;
    } else {
      var n := |y| - 1;
      LastOf(x, y);
      SolidLast(x + y[..n], y[n]);
      SolidLast(y[..n], y[n]);
      hide Solid;
      SolidAround(x, y[..n]);
    }
  }

  // ---------------------------------------------------------------- what each rewriting step does to the meaning

  lemma SameMeaning(p: seq<string>, q: seq<string>)
    requires p != [] && q != [] && p[0] == q[0] && Solid(p[1..]) == Solid(q[1..])
    requires p[0] == "" ==> |p| > 1 && |q| > 1
    ensures MeaningOf(p) == MeaningOf(q)
  {
  }

  lemma {:induction false} SolidSkips(x: seq<string>, c: string, y: seq<string>)
    requires c == "" || c == "."
    ensures Solid(x + ([c] + y)) == Solid(x + y)
  {
    SolidAround(x, [c] + y);
    SolidAround(x, y);
    SolidAround([c], y);
    SolidNone();
    SolidLast([], c);
    hide Solid;
    assert [] + [c] == [c];
  }

  lemma SolidNone()
    ensures Solid([]) == []
  {
  }

  lemma Rests(x: seq<string>, c: string, y: seq<string>)
    requires x != []
    ensures (x + [c] + y)[1..] == x[1..] + ([c] + y) && (x + y)[1..] == x[1..] + y
  {
  }

  /**
    Dropping an empty or "." component that is not the first, as long as something stays after it
    or the rest is not the bare root.
   */
  lemma DropQuiet(x: seq<string>, c: string, y: seq<string>)
    requires x != [] && (c == "" || c == ".")
    requires y != [] || (x[0] == "" ==> |x| > 1)
    ensures MeaningOf(x + [c] + y) == MeaningOf(x + y)
  {
    hide Solid, MeaningOf;
    SolidSkips(x[1..], c, y);
    Rests(x, c, y);
    SameMeaning(x + [c] + y, x + y);
  }

  lemma DropUp(y: seq<string>)
    requires y != []
    ensures MeaningOf(["", ".."] + y) == MeaningOf([""] + y)
  {
    assert (["", ".."] + y)[1..] == [".."] + y;
    assert ([""] + y)[1..] == y;
    SolidAround([".."], y);
    SolidLast([], "..");
    assert [] + [".."] == [".."];
    assert ([".."] + Solid(y))[1..] == Solid(y);
  }

  lemma EraseDoubled(a: string, b: string)
    ensures Means(a + "//" + b) == Means(a + "/" + b)
  {
    hide MeaningOf, Split;
    SplitAround(a, "/" + b);
    SplitAround("", b);
    SplitAround(a, b);
    SlashFree("");
    assert a + "/" + ("/" + b) == a + "//" + b && "" + "/" + b == "/" + b;
    DropQuiet(Split(a, "/"), "", Split(b, "/"));
    assert Split(a, "/") + ([""] + Split(b, "/")) == Split(a, "/") + [""] + Split(b, "/");
  }

  lemma EraseDot(a: string, b: string)
    ensures Means(a + "/./" + b) == Means(a + "/" + b)
  {
    hide MeaningOf, Split;
    SplitAround(a, "." + "/" + b);
    SplitAround(".", b);
    SplitAround(a, b);
    SlashFree(".");
    assert a + "/" + ("." + "/" + b) == a + "/./" + b;
    DropQuiet(Split(a, "/"), ".", Split(b, "/"));
    assert Split(a, "/") + (["."] + Split(b, "/")) == Split(a, "/") + ["."] + Split(b, "/");
  }

  lemma EraseUp(b: string)
    ensures Means("/../" + b) == Means("/" + b)
  {
    hide MeaningOf, Split;
    SplitAround("", ".." + "/" + b);
    SplitAround("..", b);
    SplitAround("", b);
    SlashFree("..");
    SlashFree("");
    assert "" + "/" + (".." + "/" + b) == "/../" + b && "" + "/" + b == "/" + b;
    DropUp(Split(b, "/"));
    assert [""] + ([".."] + Split(b, "/")) == ["", ".."] + Split(b, "/");
  }

  lemma {:induction false} FirstPart(a: string)
    requires a != ""
    ensures Split(a, "/")[0] == "" ==> |Split(a, "/")| > 1
  {
  }

  lemma EraseLast(a: string, c: string)
    requires a != "" && (c == "" || c == ".")
    ensures Means(a + "/" + c) == Means(a)
  {
    hide MeaningOf, Split;
    SplitAround(a, c);
    SlashFree(c);
    FirstPart(a);
    DropQuiet(Split(a, "/"), c, []);
    assert Split(a, "/") + [c] + [] == Split(a, "/") + [c] && Split(a, "/") + [] == Split(a, "/");
  }

  // ---------------------------------------------------------------- the simplified form

  predicate MatchAt(s: string, pat: string, k: nat) {
    k + |pat| <= |s| && s[k..k + |pat|] == pat
  }

  /** std::string::find: the first match at or after pos, here |s| when there is none. */
  function Find(s: string, pat: string, pos: nat): (r: nat)
    requires pos <= |s| && pat != ""
    ensures pos <= r <= |s|
    ensures r < |s| ==> MatchAt(s, pat, r)
    ensures forall k :: pos <= k < r ==> !MatchAt(s, pat, k)
    decreases |s| - pos
  {
    if pos == |s| || MatchAt(s, pat, pos) then pos else Find(s, pat, pos + 1)
  }

  function Erase(s: string, pos: nat, n: nat): string
    requires pos + n <= |s|
  {
    s[..pos] + s[pos + n..]
  }

  ghost predicate Without(s: string, pat: string, n: nat) {
    forall k :: 0 <= k < n ==> !MatchAt(s, pat, k)
  }

  predicate EndsWith(s: string, pat: string) {
    |pat| <= |s| && s[|s| - |pat|..] == pat
  }

  /** No empty or "." component after the first, and no way up from the root. */
  ghost predicate Simple(s: string) {
    && Without(s, "//", |s|) && Without(s, "/./", |s|)
    && !EndsWith(s, "/") && !EndsWith(s, "/.")
    && !MatchAt(s, "/../", 0) && s != "/.."
  }

  /** Where the k-th component of a path stands in it. */
  lemma PartAt(s: string, k: nat) returns (i: nat)
    requires 1 <= k < |Split(s, "/")|
    ensures var c := Split(s, "/")[k];
      && i + 1 + |c| <= |s| && s[i] == '/' && s[i + 1..i + 1 + |c|] == c
      && (k == |Split(s, "/")| - 1 ==> i + 1 + |c| == |s|)
      && (k < |Split(s, "/")| - 1 ==> i + 1 + |c| < |s| && s[i + 1 + |c|] == '/')
      && (k == 1 && Split(s, "/")[0] == "" ==> i == 0)
  {
    hide Split, Join;
    var parts := Split(s, "/");
    JoinOfSplit(s, '/');
    var x, c, y := parts[..k], parts[k], parts[k + 1..];
    i := |Join(x, '/')|;
    JoinOne(c);
    JoinAround(x, [c]);
    if y == [] {
      assert parts == x + [c];
    } else {
      JoinAround(x + [c], y);
      assert parts == x + [c] + y;
    }
    if k == 1 {
      assert x == [parts[0]];
      JoinOne(parts[0]);
    }
  }

  lemma JoinOne(c: string)
    ensures Join([c], '/') == c
  {
  }

  ghost predicate Quiet(c: string) {
    c == "" || c == "."
  }

  ghost predicate CleanParts(parts: seq<string>) {
    && (forall k :: 1 <= k < |parts| ==> !Quiet(parts[k]))
    && (|parts| > 1 && parts[0] == "" ==> parts[1] != "..")
  }

  lemma {:induction false} SimpleIsLoud(s: string, k: nat)
    requires Simple(s) && 1 <= k < |Split(s, "/")|
    ensures !Quiet(Split(s, "/")[k])
  {
    hide Split;
    var c := Split(s, "/")[k];
    var i := PartAt(s, k);
    assert !MatchAt(s, "//", i) && !MatchAt(s, "/./", i);
    if i + 1 + |c| == |s| {
      assert s[i..] == "/" + c;
    } else {
      assert s[i..i + 2 + |c|] == "/" + c + "/";
    }
  }

  lemma {:induction false} SimpleStaysDown(s: string)
    requires Simple(s) && |Split(s, "/")| > 1 && Split(s, "/")[0] == ""
    ensures Split(s, "/")[1] != ".."
  {
    hide Split;
    var c := Split(s, "/")[1];
    var i := PartAt(s, 1);
    if |s| == 1 + |c| {
      assert s == "/" + c;
    } else {
      assert s[0..2 + |c|] == "/" + c + "/";
    }
  }

  lemma {:induction false} SimpleIsClean(s: string)
    requires Simple(s)
    ensures CleanParts(Split(s, "/"))
  {
    hide Split, Simple, Quiet;
    var parts := Split(s, "/");
    forall k | 1 <= k < |parts| ensures !Quiet(parts[k]) {
      SimpleIsLoud(s, k);
    }
    if |parts| > 1 && parts[0] == "" {
      SimpleStaysDown(s);
    }
  }

  lemma {:induction false} SolidLoud(parts: seq<string>)
    requires forall k :: 0 <= k < |parts| ==> !Quiet(parts[k])
    ensures Solid(parts) == parts
  {
    if parts != [] {
      var n := |parts| - 1;
      SolidLoud(parts[..n]);
      assert parts == parts[..n] + [parts[n]];
    }
  }

  /** A simple path is the print of its own meaning. */
  lemma SimplePrints(s: string)
    requires Simple(s)
    ensures Print(Means(s)) == s
  {
    hide Split, Simple, Quiet, Solid, Join;
    var parts := Split(s, "/");
    SimpleIsClean(s);
    JoinOfSplit(s, '/');
    SolidLoud(parts[1..]);
    if |parts| == 1 {
      JoinOne(parts[0]);
      assert [parts[0]] + [] == parts == [parts[0]];
    } else {
      assert parts == [parts[0]] + parts[1..];
      JoinCons(parts[0], parts[1..], '/');
    }
    JoinNone();
  }

  lemma JoinNone()
    ensures Join([], '/') == ""
  {
  }

  // ---------------------------------------------------------------- printing a meaning and reading it back

  ghost predicate Proper(m: Meaning) {
    && AllFree(m.parts, "/")
    && (forall k :: (if m.absolute then 0 else 1) <= k < |m.parts| ==> !Quiet(m.parts[k]))
    && (m.parts != [] ==> m.parts[0] != (if m.absolute then ".." else ""))
  }

  lemma {:induction false} SolidFree(parts: seq<string>)
    requires AllFree(parts, "/")
    ensures AllFree(Solid(parts), "/")
  {
    if parts != [] {
      SolidFree(parts[..|parts| - 1]);
    }
  }

  lemma {:induction false} BelowRootFree(parts: seq<string>)
    requires AllFree(parts, "/") && forall k :: 0 <= k < |parts| ==> !Quiet(parts[k])
    ensures AllFree(BelowRoot(parts), "/") && forall k :: 0 <= k < |BelowRoot(parts)| ==> !Quiet(BelowRoot(parts)[k])
  {
    if parts != [] && parts[0] == ".." {
      BelowRootFree(parts[1..]);
    }
  }

  lemma MeansIsProper(s: string)
    ensures Proper(Means(s))
  {
    hide Split, Free, Solid, BelowRoot;
    var parts := Split(s, "/");
    JoinOfSplit(s, '/');
    SolidFree(parts[1..]);
    BelowRootFree(Solid(parts[1..]));
  }

  lemma RootMeaning()
    ensures Means("/") == Meaning(true, []) && Means("") == Meaning(false, [])
  {
    SplitAround("", "");
    SlashFree("");
    assert "" + "/" + "" == "/";
    SolidLast([], "");
    assert [] + [""] == [""] && ["", ""][1..] == [""];
    hide Split;
  }

  lemma {:induction false} LoudBelowRoot(parts: seq<string>)
    requires parts != [] ==> parts[0] != ".."
    ensures BelowRoot(parts) == parts
  {
  }

  /** A printed meaning reads back as itself. */
  lemma MeansOfPrint(m: Meaning)
    requires Proper(m)
    ensures Means(Print(m)) == m
  {
    hide Split, Free, Solid, BelowRoot, Quiet, Join;
    JoinNone();
    RootMeaning();
    if m.parts != [] {
      SplitOfJoin(m.parts, '/');
      var text := Join(m.parts, '/');
      if m.absolute {
        SplitAround("", text);
        SlashFree("");
        assert "" + "/" + text == "/" + text;
        assert ([""] + m.parts)[1..] == m.parts;
        SolidLoud(m.parts);
        LoudBelowRoot(m.parts);
      } else {
        assert "" + text == text;
        SolidLoud(m.parts[1..]);
        assert m.parts == [m.parts[0]] + m.parts[1..];
      }
    } else {
      assert "/" + "" == "/" && "" + "" == "";
    }
  }

  // ---------------------------------------------------------------- the rewriting loops

  method RemoveDoubled(path: string) returns (result: string)
    ensures Means(result) == Means(path) && Without(result, "//", |result|)
  {
    hide Means;
    result := path;
    var pos: nat := Find(result, "//", 0);
    while pos != |result|
      invariant pos <= |result| && Means(result) == Means(path)
      invariant Without(result, "//", pos)
      invariant pos < |result| ==> MatchAt(result, "//", pos)
      decreases |result|
    {
      EraseDoubledAt(result, pos);
      result := Erase(result, pos, 1);
      pos := Find(result, "//", pos);
    }
  }

  lemma EraseDoubledAt(s: string, pos: nat)
    requires MatchAt(s, "//", pos) && Without(s, "//", pos)
    ensures Means(Erase(s, pos, 1)) == Means(s)
    ensures Without(Erase(s, pos, 1), "//", pos)
  {
    hide Means;
    var a, b, r := s[..pos], s[pos + 2..], Erase(s, pos, 1);
    EraseDoubled(a, b);
    assert s == a + s[pos..pos + 2] + b;
    assert r == a + "/" + b;
    forall k | 0 <= k < pos ensures !MatchAt(r, "//", k) {
      assert !MatchAt(s, "//", k);
      assert r[k..k + 2] == s[k..k + 2];
    }
  }

  method RemoveDots(path: string) returns (result: string)
    requires Without(path, "//", |path|)
    ensures Means(result) == Means(path)
    ensures Without(result, "//", |result|) && Without(result, "/./", |result|)
  {
    hide Means;
    result := path;
    var pos: nat := Find(result, "/./", 0);
    while pos != |result|
      invariant pos <= |result| && Means(result) == Means(path)
      invariant Without(result, "//", |result|) && Without(result, "/./", pos)
      invariant pos < |result| ==> MatchAt(result, "/./", pos)
      decreases |result|
    {
      EraseDotAt(result, pos);
      result := Erase(result, pos, 2);
      pos := Find(result, "/./", pos);
    }
  }

  lemma EraseDotAt(s: string, pos: nat)
    requires MatchAt(s, "/./", pos) && Without(s, "/./", pos) && Without(s, "//", |s|)
    ensures Means(Erase(s, pos, 2)) == Means(s)
    ensures Without(Erase(s, pos, 2), "/./", pos)
    ensures Without(Erase(s, pos, 2), "//", |s| - 2)
  {
    hide Means, Without;
    var a, b := s[..pos], s[pos + 3..];
    EraseDot(a, b);
    assert s == a + s[pos..pos + 3] + b;
    assert Erase(s, pos, 2) == a + "/" + b;
    NoDotBefore(s, pos);
    NoDoubleSlash(s, pos);
  }

  lemma NoDotBefore(s: string, pos: nat)
    requires MatchAt(s, "/./", pos) && Without(s, "/./", pos)
    ensures Without(Erase(s, pos, 2), "/./", pos)
  {
    var r := Erase(s, pos, 2);
    assert s[pos] == s[pos..pos + 3][0] == '/' && r[pos] == s[pos + 2] == s[pos..pos + 3][2] == '/';
    forall k | 0 <= k < pos ensures !MatchAt(r, "/./", k) {
      assert !MatchAt(s, "/./", k);
      if k + 3 <= |r| {
        assert r[k..k + 3][1] == r[k + 1] && (k + 3 <= pos + 1 ==> r[k..k + 3] == s[k..k + 3]);
      }
    }
  }

  lemma NoDoubleSlash(s: string, pos: nat)
    requires MatchAt(s, "/./", pos) && Without(s, "//", |s|)
    ensures Without(Erase(s, pos, 2), "//", |s| - 2)
  {
    var r := Erase(s, pos, 2);
    assert s[pos] == s[pos..pos + 3][0] == '/' && r[pos] == s[pos + 2] == s[pos..pos + 3][2] == '/';
    forall k | 0 <= k < |s| - 2 ensures !MatchAt(r, "//", k) {
      assert !MatchAt(s, "//", k) && !MatchAt(s, "//", k + 2);
      if k + 2 <= |r| {
        assert k < pos ==> r[k..k + 2] == s[k..k + 2];
        assert k >= pos ==> r[k..k + 2] == s[k + 2..k + 4];
      }
    }
  }

  lemma WithoutTail(s: string, n: nat, pat: string)
    requires n <= |s| && Without(s, pat, |s|)
    ensures Without(s[n..], pat, |s| - n)
  {
    forall k | 0 <= k < |s| - n ensures !MatchAt(s[n..], pat, k) {
      assert !MatchAt(s, pat, n + k);
      assert k + |pat| <= |s| - n ==> s[n..][k..k + |pat|] == s[n + k..n + k + |pat|];
    }
  }

  lemma WithoutFront(s: string, n: nat, pat: string)
    requires n <= |s| && Without(s, pat, |s|)
    ensures Without(s[..n], pat, n)
  {
    forall k | 0 <= k < n ensures !MatchAt(s[..n], pat, k) {
      assert !MatchAt(s, pat, k);
      assert k + |pat| <= n ==> s[..n][k..k + |pat|] == s[k..k + |pat|];
    }
  }

  method RemoveUps(path: string) returns (result: string)
    requires Without(path, "//", |path|) && Without(path, "/./", |path|)
    ensures Means(result) == Means(path)
    ensures Without(result, "//", |result|) && Without(result, "/./", |result|)
    ensures !MatchAt(result, "/../", 0)
  {
    hide Means;
    result := path;
    while MatchAt(result, "/../", 0)
      invariant Means(result) == Means(path)
      invariant Without(result, "//", |result|) && Without(result, "/./", |result|)
      decreases |result|
    {
      EraseUp(result[4..]);
      assert result == result[0..4] + result[4..];
      assert result[3..] == "/" + result[4..];
      WithoutTail(result, 3, "//");
      WithoutTail(result, 3, "/./");
      assert Erase(result, 0, 3) == result[3..];
      result := Erase(result, 0, 3);
    }
  }

  /** What the three loops leave. */
  ghost predicate Reduced(s: string) {
    Without(s, "//", |s|) && Without(s, "/./", |s|) && !MatchAt(s, "/../", 0)
  }

  lemma {:induction false} RootOnly(c: string)
    requires (c == "." || c == "..") && Split(c, "/") == [c]
    ensures Means("/" + c) == Meaning(true, [])
  {
    hide Split, Solid;
    SplitAround("", c);
    SlashFree("");
    assert "" + "/" + c == "/" + c;
    assert ([""] + [c])[1..] == [] + [c];
    SolidNone();
    SolidLast([], c);
    assert [".."][1..] == [];
  }

  lemma RootForms()
    ensures Means("/.") == Meaning(true, []) && Means("/..") == Meaning(true, [])
  {
    hide Split, Means;
    SlashFree(".");
    SlashFree("..");
    RootOnly(".");
    RootOnly("..");
    assert "/" + "." == "/." && "/" + ".." == "/..";
  }

  lemma ReducedFront(s: string, n: nat)
    requires Reduced(s) && n <= |s|
    ensures Reduced(s[..n])
  {
    hide MatchAt;
    WithoutFront(s, n, "//");
    WithoutFront(s, n, "/./");
    NoMatchInFront(s, n);
  }

  lemma NoMatchInFront(s: string, n: nat)
    requires n <= |s| && !MatchAt(s, "/../", 0)
    ensures !MatchAt(s[..n], "/../", 0)
  {
    assert n >= 4 ==> s[..n][0..4] == s[0..4];
  }

  /** A path that does not end in a slash or a "." component, other than the parent of the root. */
  lemma ReducedIsSimple(s: string)
    requires Reduced(s) && !EndsWith(s, "/") && !EndsWith(s, "/.") && s != "/.."
    ensures Simple(s)
  {
  }

  lemma TrimDot(s: string)
    requires Reduced(s) && EndsWith(s, "/.") && s != "/."
    ensures Means(s[..|s| - 2]) == Means(s) && Simple(s[..|s| - 2])
  {
    hide Means, Simple, Reduced;
    var n, r := |s| - 2, s[..|s| - 2];
    assert s == r + "/" + ".";
    assert "" + "/" + "." == "/.";
    EraseLast(r, ".");
    ReducedFront(s, n);
    DotEnd(s);
    ReducedIsSimple(r);
  }

  lemma DotEnd(s: string)
    requires Reduced(s) && EndsWith(s, "/.")
    ensures var r := s[..|s| - 2]; !EndsWith(r, "/") && !EndsWith(r, "/.") && r != "/.."
  {
    hide Reduced, EndsWith;
    EndLetters(s);
    var n, r := |s| - 2, s[..|s| - 2];
    EndLetters(r);
    NoneAt(s, n - 1);
    NoneAt(s, n - 2);
  }

  /** The patterns, letter by letter. */
  lemma EndLetters(s: string)
    ensures EndsWith(s, "/") <==> |s| >= 1 && s[|s| - 1] == '/'
    ensures EndsWith(s, "/.") <==> |s| >= 2 && s[|s| - 2] == '/' && s[|s| - 1] == '.'
  {
    if |s| >= 1 {
      assert s[|s| - 1..] == [s[|s| - 1]];
    }
    if |s| >= 2 {
      assert s[|s| - 2..] == [s[|s| - 2], s[|s| - 1]];
    }
  }

  lemma NoneAt(s: string, k: int)
    requires Reduced(s)
    ensures 0 <= k && k + 1 < |s| ==> s[k] != '/' || s[k + 1] != '/'
    ensures 0 <= k && k + 2 < |s| ==> s[k] != '/' || s[k + 1] != '.' || s[k + 2] != '/'
    ensures |s| >= 4 ==> s[0] != '/' || s[1] != '.' || s[2] != '.' || s[3] != '/'
  {
    if 0 <= k && k + 1 < |s| {
      assert !MatchAt(s, "//", k);
      assert s[k..k + 2] == [s[k], s[k + 1]];
    }
    if 0 <= k && k + 2 < |s| {
      assert !MatchAt(s, "/./", k);
      assert s[k..k + 3] == [s[k], s[k + 1], s[k + 2]];
    }
    if |s| >= 4 {
      assert s[0..4] == [s[0], s[1], s[2], s[3]];
    }
  }

  lemma TrimSlash(s: string)
    requires Reduced(s) && EndsWith(s, "/") && s != "/"
    ensures Means(s[..|s| - 1]) == Means(s) && Simple(s[..|s| - 1])
  {
    hide Means, Simple, Reduced;
    var n, r := |s| - 1, s[..|s| - 1];
    assert s == r + "/" + "";
    assert "" + "/" + "" == "/";
    EraseLast(r, "");
    ReducedFront(s, n);
    SlashEnd(s);
    ReducedIsSimple(r);
  }

  lemma SlashEnd(s: string)
    requires Reduced(s) && EndsWith(s, "/")
    ensures var r := s[..|s| - 1]; !EndsWith(r, "/") && !EndsWith(r, "/.") && r != "/.."
  {
    hide Reduced, EndsWith;
    EndLetters(s);
    var n, r := |s| - 1, s[..|s| - 1];
    EndLetters(r);
    NoneAt(s, n - 1);
    NoneAt(s, n - 2);
  }

  lemma SimpleIsTight(s: string)
    requires Simple(s)
    ensures Tight(s)
  {
  }

  /** No empty component and no inner "." component. */
  ghost predicate Tight(s: string) {
    Without(s, "//", |s|) && Without(s, "/./", |s|)
  }

  /**
    The result is the path that prints the meaning of the argument, and nothing shorter says more:
    it holds neither // nor /./.
   */
  method SimplifyDirectory(path: string) returns (result: string)
    ensures result == Print(Means(path))
    ensures Tight(result)
  {
    hide Means, Print, Simple, Without, EndsWith, MatchAt;
    result := RemoveDoubled(path);
    result := RemoveDots(result);
    result := RemoveUps(result);
    assert Reduced(result);
    hide Reduced;
    PrintRoot();
    EndLetters(result);
    ghost var trimmed := false;
    if result == "/." {
      assert result[..|result| - 1] == "/";
      return result[..|result| - 1];
    }
    if |result| >= 2 && EndsWith(result, "/.") {
      TrimDot(result);
      EraseEnd(result, 2);
      result := Erase(result, |result| - 2, 2);
      SimpleIsDone(result);
      EndLetters(result);
      trimmed := true;
    }
    if result == "/" {
      return;
    }
    if |result| >= 1 && result[|result| - 1] == '/' {
      TrimSlash(result);
      EraseEnd(result, 1);
      result := Erase(result, |result| - 1, 1);
      SimpleIsDone(result);
      trimmed := true;
    }
    if result == "/.." {
      result := "/";
    } else if !trimmed {
      EndLetters(result);
      ReducedIsSimple(result);
      SimpleIsDone(result);
    }
  }

  lemma EraseEnd(s: string, n: nat)
    requires n <= |s|
    ensures Erase(s, |s| - n, n) == s[..|s| - n]
  {
  }

  lemma PrintRoot()
    ensures Print(Means("/")) == "/" && Means("/.") == Means("/") && Means("/..") == Means("/") && Tight("/")
  {
    RootMeaning();
    RootForms();
    JoinNone();
  }

  lemma SimpleIsDone(s: string)
    requires Simple(s)
    ensures Print(Means(s)) == s && Tight(s)
    ensures s != "/" && s != "/.." && !EndsWith(s, "/")
  {
    SimplePrints(s);
    SimpleIsTight(s);
  }

  /** Simplifying keeps the meaning, so simplifying again changes nothing. */
  lemma SimplifyingTwice(path: string)
    ensures Means(Print(Means(path))) == Means(path)
    ensures Print(Means(Print(Means(path)))) == Print(Means(path))
  {
    MeansIsProper(path);
    MeansOfPrint(Means(path));
  }

  /** Two paths simplify to the same text exactly when they mean the same. */
  lemma SameTextSameMeaning(p: string, q: string)
    ensures Print(Means(p)) == Print(Means(q)) <==> Means(p) == Means(q)
  {
    SimplifyingTwice(p);
    SimplifyingTwice(q);
  }
}
