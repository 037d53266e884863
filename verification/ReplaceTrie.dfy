/**
  The value of an INV_Replacer tree, what it means as a dictionary, and the plain left-to-right
  longest-match substitution it is for.
 */
module ReplaceTrie {
  import opened Options

  /** One node: children by next character, and the key that ends here ("" if none) with its replacement. */
  datatype Trie = Trie(kids: map<char, Trie>, word: string, text: string)

  const LEAF := Trie(map[], "", "")

  type Dictionary = map<string, string>

  /** A ResultPos: the node of a key, and where in the text the key begins. */
  datatype Hit = Hit(word: string, text: string, at: int)

  /** add(word, idx, text), as a function. */
  function Insert(t: Trie, word: string, idx: nat, text: string): Trie
    requires idx <= |word|
    decreases |word| - idx
  {
    if idx == |word| then t.(word := word, text := text)
    else
      var c := word[idx];
      var kid := if c in t.kids then t.kids[c] else LEAF;
      t.(kids := t.kids[c := Insert(kid, word, idx + 1, text)])
  }

  lemma {:induction false} InsertHere(t: Trie, word: string, idx: nat, text: string)
    requires idx == |word|
    ensures Insert(t, word, idx, text) == t.(word := word, text := text)
  {
  }

  lemma InsertStep(t: Trie, word: string, idx: nat, text: string)
    requires idx < |word|
    ensures var c := word[idx];
            Insert(t, word, idx, text) ==
            t.(kids := t.kids[c := Insert(if c in t.kids then t.kids[c] else LEAF, word, idx + 1, text)])
  {
  }

  /** compare_words(s, idx): go down while characters match, and fall back to the last key passed. */
  function Compare(t: Trie, s: string, idx: nat): Option<Hit>
    decreases |s| - idx
  {
    if t.word != "" && t.kids == map[] then Some(Hit(t.word, t.text, idx - |t.word|))
    else if idx >= |s| || s[idx] !in t.kids then None
    else
      var kid := t.kids[s[idx]];
      OrOwn(Compare(kid, s, idx + 1), kid, idx + 1)
  }

  function OrOwn(r: Option<Hit>, kid: Trie, end: nat): Option<Hit> {
    if r.None? && kid.word != "" then Some(Hit(kid.word, kid.text, end - |kid.word|)) else r
  }

  // ---------------------------------------------------------------- the tree stands for a dictionary

  ghost predicate Extended(d: Dictionary, path: string) {
    exists k :: k in d && path <= k
  }

  /** The subtree reached by path holds exactly the keys of d that start with path. */
  ghost predicate Rep(t: Trie, path: string, d: Dictionary)
    decreases t
  {
    && t.word == (if path in d then path else "")
    && (path in d ==> t.text == d[path])
    && (forall c :: c in t.kids <==> Extended(d, path + [c]))
    && (forall c :: c in t.kids ==> Rep(t.kids[c], path + [c], d))
  }

  lemma {:induction false} RepOfOtherKey(t: Trie, path: string, d: Dictionary, word: string, text: string)
    requires Rep(t, path, d) && !(path <= word)
    ensures Rep(t, path, d[word := text])
    decreases t
  {
    forall c ensures c in t.kids <==> Extended(d[word := text], path + [c]) {
      if Extended(d, path + [c]) {
        var k :| k in d && path + [c] <= k;
        assert k in d[word := text];
      }
    }
    forall c | c in t.kids ensures Rep(t.kids[c], path + [c], d[word := text]) {
      RepOfOtherKey(t.kids[c], path + [c], d, word, text);
    }
  }

  lemma ExtendedUp(d: Dictionary, path: string, c: char)
    ensures Extended(d, path + [c]) ==> Extended(d, path)
    ensures path in d ==> Extended(d, path)
  {
    if Extended(d, path + [c]) {
      var k :| k in d && path + [c] <= k;
      assert path <= k;
    }
    if path in d {
      assert path <= path;
    }
  }

  lemma {:induction false} RepOfLeaf(path: string, d: Dictionary)
    requires !Extended(d, path)
    ensures Rep(LEAF, path, d)
  {
    forall c ensures !Extended(d, path + [c]) && path !in d {
      ExtendedUp(d, path, c);
    }
    ExtendedUp(d, path, 'a');
  }

  lemma ExtendedByInsert(d: Dictionary, word: string, text: string, p: string)
    ensures Extended(d[word := text], p) <==> Extended(d, p) || p <= word
  {
    var d' := d[word := text];
    if Extended(d, p) {
      var k :| k in d && p <= k;
      assert k in d';
    }
    if p <= word {
      assert word in d';
    }
  }

  /** add() puts one entry into the dictionary, whatever was there before. */
  lemma InsertRep(t: Trie, path: string, d: Dictionary, word: string, text: string)
    requires Rep(t, path, d) && path <= word && word != ""
    ensures Rep(Insert(t, word, |path|, text), path, d[word := text])
    decreases |word| - |path|, 1
  {
    var d', t' := d[word := text], Insert(t, word, |path|, text);
    forall x ensures Extended(d', path + [x]) <==> Extended(d, path + [x]) || path + [x] <= word {
      ExtendedByInsert(d, word, text, path + [x]);
    }
    if |path| == |word| {
      assert path == word;
      forall c | c in t.kids ensures Rep(t.kids[c], path + [c], d') {
        RepOfOtherKey(t.kids[c], path + [c], d, word, text);
      }
    } else {
      var c := word[|path|];
      forall x ensures path + [x] <= word <==> x == c {
        assert word[..|path| + 1] == path + [c];
      }
      InsertKid(t, path, d, word, text);
      forall x | x in t'.kids ensures Rep(t'.kids[x], path + [x], d') {
        if x != c {
          RepOfOtherKey(t.kids[x], path + [x], d, word, text);
        }
      }
    }
  }

  lemma InsertKid(t: Trie, path: string, d: Dictionary, word: string, text: string)
    requires Rep(t, path, d) && path < word
    ensures var c := word[|path|];
            var kid := if c in t.kids then t.kids[c] else LEAF;
            Rep(Insert(kid, word, |path| + 1, text), path + [c], d[word := text])
    decreases |word| - |path|, 0
  {
    hide Insert;
    var c := word[|path|];
    assert path + [c] == word[..|path| + 1] <= word;
    if c !in t.kids {
      RepOfLeaf(path + [c], d);
      InsertRep(LEAF, path + [c], d, word, text);
    } else {
      InsertRep(t.kids[c], path + [c], d, word, text);
    }
  }

  /** Adding the empty key only touches the root's unused replacement. */
  lemma {:induction false} InsertEmptyRep(t: Trie, d: Dictionary, text: string)
    requires Rep(t, "", d) && "" !in d
    ensures Rep(Insert(t, "", 0, text), "", d)
  {
    assert Insert(t, "", 0, text) == t.(word := "", text := text);
  }

  function InsertAll(adds: seq<(string, string)>): Trie {
    if adds == [] then LEAF
    else Insert(InsertAll(adds[..|adds| - 1]), adds[|adds| - 1].0, 0, adds[|adds| - 1].1)
  }

  /** Later additions win; an empty key is no entry. */
  function DictionaryOf(adds: seq<(string, string)>): Dictionary {
    if adds == [] then map[]
    else
      var d, last := DictionaryOf(adds[..|adds| - 1]), adds[|adds| - 1];
      if last.0 == "" then d else d[last.0 := last.1]
  }

  /** After any sequence of add() calls the tree holds exactly the entries added. */
  lemma {:induction false} InsertAllRep(adds: seq<(string, string)>)
    ensures Rep(InsertAll(adds), "", DictionaryOf(adds)) && "" !in DictionaryOf(adds)
  {
    if adds == [] {
      RepOfLeaf("", map[]);
    } else {
      var last := adds[|adds| - 1];
      InsertAllRep(adds[..|adds| - 1]);
      if last.0 == "" {
        InsertEmptyRep(InsertAll(adds[..|adds| - 1]), DictionaryOf(adds), last.1);
      } else {
        InsertRep(InsertAll(adds[..|adds| - 1]), "", DictionaryOf(adds[..|adds| - 1]), last.0, last.1);
      }
    }
  }

  // ---------------------------------------------------------------- longest match

  ghost predicate Matches(d: Dictionary, rest: string, path: string, k: string) {
    k in d && path <= k <= rest
  }

  ghost predicate Longest(d: Dictionary, rest: string, path: string, k: string) {
    && Matches(d, rest, path, k)
    && forall other :: Matches(d, rest, path, other) ==> |other| <= |k|
  }

  lemma PrefixStep(path: string, rest: string, k: string)
    requires path <= k <= rest && k != path
    ensures |path| < |rest| && path + [rest[|path|]] <= k && path + [rest[|path|]] <= rest
  {
    assert k[..|path| + 1] == path + [rest[|path|]] == rest[..|path| + 1];
  }

  /** A key longer than path shows in the children of path's node, and matches only if the next character does. */
  lemma {:induction false} NextCharacter(t: Trie, path: string, rest: string, d: Dictionary, k: string)
    requires Rep(t, path, d) && Matches(d, rest, path, k) && k != path
    ensures |path| < |rest| && rest[|path|] in t.kids && Matches(d, rest, path + [rest[|path|]], k)
  {
    PrefixStep(path, rest, k);
    assert Extended(d, path + [rest[|path|]]);
  }

  lemma {:induction false} DeadEnd(t: Trie, path: string, rest: string, d: Dictionary)
    requires Rep(t, path, d) && (|path| >= |rest| || rest[|path|] !in t.kids)
    ensures forall k :: Matches(d, rest, path, k) ==> k == path
  {
    forall k | Matches(d, rest, path, k) ensures k == path {
      if k != path {
        NextCharacter(t, path, rest, d, k);
      }
    }
  }

  /** Compare's answer in the subtree at path, where rest is the text from index start on. */
  ghost predicate FoundLongest(r: Option<Hit>, d: Dictionary, start: nat, rest: string, path: string) {
    match r
    case Some(h) => Longest(d, rest, path, h.word) && h.text == d[h.word] && h.at == start
    case None => forall k :: Matches(d, rest, path, k) ==> k == path
  }

  lemma {:induction false} Descend(t: Trie, path: string, rest: string, d: Dictionary, kid: Trie, below: string,
                r: Option<Hit>, start: nat)
    requires Rep(t, path, d) && "" !in d && below <= rest
    requires |path| < |rest| && below == path + [rest[|path|]] && rest[|path|] in t.kids && kid == t.kids[rest[|path|]]
    requires FoundLongest(r, d, start, rest, below)
    ensures FoundLongest(OrOwn(r, kid, start + |below|), d, start, rest, path)
  {
    assert Rep(kid, below, d);
    forall k ensures Matches(d, rest, path, k) && k != path <==> Matches(d, rest, below, k) {
      if Matches(d, rest, path, k) && k != path {
        NextCharacter(t, path, rest, d, k);
      }
      if Matches(d, rest, below, k) {
        assert path <= below <= k;
      }
    }
    DescendAny(path, rest, d, kid, below, r, start);
  }

  lemma DescendAny(path: string, rest: string, d: Dictionary, kid: Trie, below: string, r: Option<Hit>, start: nat)
    requires kid.word == (if below in d then below else "") && (below in d ==> kid.text == d[below])
    requires "" !in d && path <= below <= rest && |path| < |below|
    requires forall k :: Matches(d, rest, path, k) && k != path <==> Matches(d, rest, below, k)
    requires FoundLongest(r, d, start, rest, below)
    ensures FoundLongest(OrOwn(r, kid, start + |below|), d, start, rest, path)
  {
    hide Matches;
    assert Matches(d, rest, below, below) <==> below in d by { OwnMatch(d, rest, below); }
    forall k | Matches(d, rest, path, k) ensures Matches(d, rest, below, k) || |k| < |below| {
    }
    if r.Some? {
      LongerThan(d, rest, below, r.value.word);
    }
  }

  lemma OwnMatch(d: Dictionary, rest: string, below: string)
    requires below <= rest
    ensures Matches(d, rest, below, below) <==> below in d
  {
  }

  lemma LongerThan(d: Dictionary, rest: string, below: string, k: string)
    requires Matches(d, rest, below, k)
    ensures |below| <= |k|
  {
  }

  predicate Stops(t: Trie, s: string, idx: nat) {
    (t.word != "" && t.kids == map[]) || idx >= |s| || s[idx] !in t.kids
  }

  lemma {:induction false} CompareStops(t: Trie, s: string, start: nat, idx: nat,
                                        path: string, rest: string, d: Dictionary)
    requires path <= rest && Rep(t, path, d) && "" !in d
    requires Stops(t, s, idx) && idx == start + |path| && |rest| == |s| - start
    requires idx < |s| ==> s[idx] == rest[|path|]
    ensures FoundLongest(Compare(t, s, idx), d, start, rest, path)
  {
    DeadEnd(t, path, rest, d);
    OwnMatch(d, rest, path);
  }

  lemma {:induction false} CompareGoesOn(t: Trie, s: string, idx: nat, path: string, d: Dictionary)
    requires Rep(t, path, d) && !Stops(t, s, idx)
    ensures var kid := t.kids[s[idx]];
            Compare(t, s, idx) == OrOwn(Compare(kid, s, idx + 1), kid, idx + 1) && Rep(kid, path + [s[idx]], d)
  {
  }

  /** Below path, the walk finds the longest key; it finds nothing only if no longer key than path matches. */
  lemma {:induction false} CompareIsLongest(t: Trie, s: string, start: nat, path: string, rest: string, d: Dictionary)
    requires start <= |s| && rest == s[start..] && path <= rest && Rep(t, path, d) && "" !in d
    ensures FoundLongest(Compare(t, s, start + |path|), d, start, rest, path)
    decreases |rest| - |path|
  {
    hide FoundLongest, Rep, Compare;
    var idx := start + |path|;
    if Stops(t, s, idx) {
      CompareStops(t, s, start, idx, path, rest, d);
    } else {
      var below, kid := path + [rest[|path|]], t.kids[rest[|path|]];
      assert below == rest[..|below|];
      CompareGoesOn(t, s, idx, path, d);
      CompareIsLongest(kid, s, start, below, rest, d);
      Descend(t, path, rest, d, kid, below, Compare(kid, s, idx + 1), start);
    }
  }

  // ---------------------------------------------------------------- the specification of replace

  function Piece(s: string, i: nat, n: nat): string
    requires i + n <= |s|
  {
    s[i..i + n]
  }

  /** The length of the longest key that occurs in s at i, trying n, n-1, ..., 1 characters; 0 if none does. */
  function LongestUpTo(d: Dictionary, s: string, i: nat, n: nat): (l: nat)
    requires i + n <= |s|
    ensures l <= n && (l > 0 ==> Piece(s, i, l) in d)
    ensures forall m :: l < m <= n ==> Piece(s, i, m) !in d
  {
    if n == 0 then 0
    else if Piece(s, i, n) in d then n
    else LongestUpTo(d, s, i, n - 1)
  }

  function KeyLength(d: Dictionary, s: string, i: nat): (l: nat)
    requires i <= |s|
    ensures i + l <= |s| && (l > 0 ==> Piece(s, i, l) in d)
  {
    LongestUpTo(d, s, i, |s| - i)
  }

  /** Scan left to right; substitute the longest key that occurs here, or else copy one character. */
  function Substitute(d: Dictionary, s: string, i: nat): string
    requires i <= |s|
    decreases |s| - i
  {
    if i == |s| then ""
    else
      var l := KeyLength(d, s, i);
      if l > 0 then d[Piece(s, i, l)] + Substitute(d, s, i + l)
      else [s[i]] + Substitute(d, s, i + 1)
  }

  function Substitutions(d: Dictionary, s: string, i: nat): nat
    requires i <= |s|
    decreases |s| - i
  {
    if i == |s| then 0
    else
      var l := KeyLength(d, s, i);
      if l > 0 then 1 + Substitutions(d, s, i + l) else Substitutions(d, s, i + 1)
  }

  lemma PieceMatches(d: Dictionary, s: string, i: nat, l: nat)
    requires i + l <= |s| && Piece(s, i, l) in d
    ensures Matches(d, s[i..], "", Piece(s, i, l))
  {
    assert Piece(s, i, l) == s[i..][..l];
  }

  lemma MatchIsPiece(d: Dictionary, s: string, i: nat, k: string)
    requires i <= |s| && Matches(d, s[i..], "", k)
    ensures i + |k| <= |s| && k == Piece(s, i, |k|)
  {
    assert k == s[i..][..|k|];
  }

  /** What one walk from the root says about position i. */
  lemma {:induction false} CompareAtRoot(t: Trie, s: string, i: nat, d: Dictionary)
    requires i <= |s| && Rep(t, "", d) && "" !in d
    ensures var l := KeyLength(d, s, i);
            match Compare(t, s, i)
            case Some(h) => l > 0 && h.word == Piece(s, i, l) && h.text == d[h.word] && h.at == i
            case None => l == 0
  {
    hide Compare, Rep, Matches, Piece;
    CompareIsLongest(t, s, i, "", s[i..], d);
    var l := KeyLength(d, s, i);
    if l > 0 {
      PieceMatches(d, s, i, l);
      PieceLength(s, i, l);
    }
    match Compare(t, s, i)
    case Some(h) =>
      MatchIsPiece(d, s, i, h.word);
      InDictionary(d, s[i..], h.word);
    case None =>
  }

  lemma PieceLength(s: string, i: nat, l: nat)
    requires i + l <= |s|
    ensures |Piece(s, i, l)| == l
  {
  }

  lemma InDictionary(d: Dictionary, rest: string, k: string)
    requires Matches(d, rest, "", k)
    ensures k in d
  {
  }

  lemma {:induction false} NoMatchCopies(d: Dictionary, s: string, i: nat, j: nat)
    requires i <= j <= |s|
    requires forall k :: i <= k < j ==> KeyLength(d, s, k) == 0
    ensures Substitute(d, s, i) == s[i..j] + Substitute(d, s, j)
    ensures Substitutions(d, s, i) == Substitutions(d, s, j)
    decreases j - i
  {
    hide KeyLength;
    if i < j {
      NoMatchCopies(d, s, i + 1, j);
      assert s[i..j] == [s[i]] + s[i + 1..j];
    }
  }

  lemma SubstituteHere(d: Dictionary, s: string, i: nat)
    requires i < |s| && KeyLength(d, s, i) > 0
    ensures var l := KeyLength(d, s, i);
            && Substitute(d, s, i) == d[Piece(s, i, l)] + Substitute(d, s, i + l)
            && Substitutions(d, s, i) == 1 + Substitutions(d, s, i + l)
  {
  }

  lemma {:induction false} SubstituteEnd(d: Dictionary, s: string)
    ensures Substitute(d, s, |s|) == "" && Substitutions(d, s, |s|) == 0
  {
  }
}
