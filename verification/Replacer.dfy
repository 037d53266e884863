/** INV_Replacer: the tree of heap nodes that add() grows in place, and the loops that walk it. */
module ReplacerModel {
  import opened Options
  import opened ReplaceTrie

  class Replacer {
    // _childs, _old, _new
    var childs: map<char, Replacer>
    var oldWords: string
    var newWords: string
    ghost var Repr: set<object>
    ghost var value: Trie

    ghost predicate Valid()
      reads this, Repr
      ensures Valid() ==> this in Repr
      decreases Repr
    {
      && this in Repr
      && (forall c :: c in childs ==>
            && childs[c] in Repr && childs[c].Repr <= Repr && this !in childs[c].Repr
            && childs[c].Valid())
      && (forall c, e :: c in childs && e in childs && c != e ==> childs[c].Repr !! childs[e].Repr)
      && value.word == oldWords && value.text == newWords
      && value.kids.Keys == childs.Keys
      && (forall c :: c in childs ==> value.kids[c] == childs[c].value)
    }

    /** A root node that holds the entries of d. */
    ghost predicate Holds(d: Dictionary)
      reads this, Repr
    {
      Valid() && "" !in d && Rep(value, "", d)
    }

    constructor ()
      ensures Valid() && fresh(Repr) && value == LEAF
      ensures Holds(map[])
    {
      childs, oldWords, newWords := map[], "", "";
      Repr, value := {this}, LEAF;
      new;
      RepOfLeaf("", map[]);
    }

    /** add(oldWords, newWords) on the root: one more entry, or a new replacement for an old one. */
    method Add(word: string, text: string, ghost d: Dictionary)
      requires Holds(d)
      modifies Repr
      ensures Holds(if word == "" then d else d[word := text])
      ensures fresh(Repr - old(Repr))
    {
      if word == "" {
        InsertEmptyRep(value, d, text);
      } else {
        InsertRep(value, "", d, word, text);
      }
      AddAt(word, 0, text);
    }

    /** add(oldWords, idx, newWords): make the children on the way, set the key at the end of it. */
    method AddAt(word: string, idx: nat, text: string)
      requires Valid() && idx <= |word|
      modifies Repr
      ensures Valid() && fresh(Repr - old(Repr))
      ensures value == Insert(old(value), word, idx, text)
      decreases |word| - idx, 1
    {
      hide Insert, Valid;
      if |word| == idx {
        InsertHere(value, word, idx, text);
        SetWords(word, text);
      } else {
        InsertStep(value, word, idx, text);
        Child(word[idx]);
        AddBelow(word, idx, text);
      }
    }

    method SetWords(word: string, text: string)
      requires Valid()
      modifies this
      ensures Valid() && Repr == old(Repr) && value == old(value).(word := word, text := text)
    {
      newWords := text;
      oldWords := word;
      value := value.(word := word, text := text);
    }

    method AddBelow(word: string, idx: nat, text: string)
      requires Valid() && idx < |word| && word[idx] in value.kids
      modifies Repr
      ensures Valid() && fresh(Repr - old(Repr))
      ensures var c := word[idx];
              value == old(value).(kids := old(value).kids[c := Insert(old(value).kids[c], word, idx + 1, text)])
      decreases |word| - idx, 0
    {
      hide Insert;
      var ti := childs[word[idx]];
      ti.AddAt(word, idx + 1, text);
      assert forall e :: e in childs && e != word[idx] ==>
        childs[e].Repr == old(childs[e].Repr) && childs[e].value == old(childs[e].value);
      Adopt(word[idx]);
    }

    /** The child at c has changed: bring the view of this node up to date. */
    ghost method Adopt(c: char)
      requires c in childs && this in Repr
      requires forall e :: e in childs ==> this !in childs[e].Repr && childs[e].Valid()
      requires forall e :: e in childs && e != c ==> childs[e] in Repr && childs[e].Repr <= Repr
      requires forall e, f :: e in childs && f in childs && e != f ==> childs[e].Repr !! childs[f].Repr
      requires value.word == oldWords && value.text == newWords && value.kids.Keys == childs.Keys
      requires forall e :: e in childs && e != c ==> value.kids[e] == childs[e].value
      modifies this`Repr, this`value
      ensures Valid() && Repr == old(Repr) + childs[c].Repr
      ensures value == old(value).(kids := old(value).kids[c := childs[c].value])
    {
      Repr := Repr + childs[c].Repr;
      value := value.(kids := value.kids[c := childs[c].value]);
    }

    /** _childs[c], made if it was not there. */
    method Child(c: char)
      requires Valid()
      modifies this
      ensures Valid() && fresh(Repr - old(Repr))
      ensures value == if c in old(value).kids then old(value) else old(value).(kids := old(value).kids[c := LEAF])
    {
      if c !in childs {
        var node := new Replacer();
        Attach(c, node);
      }
    }

    method Attach(c: char, node: Replacer)
      requires Valid() && node.Valid() && node.Repr !! Repr && c !in childs
      modifies this
      ensures Valid() && Repr == old(Repr) + node.Repr
      ensures value == old(value).(kids := old(value).kids[c := node.value])
    {
      childs := childs[c := node];
      Repr := Repr + node.Repr;
      value := value.(kids := value.kids[c := node.value]);
    }

    /** compare_words: the node found (fi.msr) and where its key begins (fi.idx). */
    method CompareWords(s: string, idx: nat) returns (r: bool, msr: Replacer?, at: int)
      requires Valid()
      ensures r <==> Compare(value, s, idx).Some?
      ensures r ==> msr != null && Compare(value, s, idx) == Some(Hit(msr.oldWords, msr.newWords, at))
      decreases |s| - idx
    {
      msr, at := null, 0;
      if oldWords != "" && |childs| == 0 {
        return true, this, idx - |oldWords|;
      }
      if idx >= |s| {
        return false, null, 0;
      }
      var c := s[idx];
      if c !in childs {
        return false, null, 0;
      }
      var ti := childs[c];
      r, msr, at := ti.CompareWords(s, idx + 1);
      if !r && ti.oldWords != "" {
        return true, ti, idx + 1 - |ti.oldWords|;
      }
    }

    /** msr and at are the first position from idx on where some key occurs, with the longest key there. */
    ghost predicate First(s: string, idx: nat, d: Dictionary, r: bool, msr: Replacer?, at: int)
      requires idx <= |s|
      reads msr
    {
      && (r ==> && msr != null && idx <= at < |s| && KeyLength(d, s, at) > 0
                && msr.oldWords == Piece(s, at, KeyLength(d, s, at)) && msr.newWords == d[msr.oldWords])
      && forall k :: idx <= k < (if r then at else |s|) ==> KeyLength(d, s, k) == 0
    }

    method FindWords(s: string, idx: nat, ghost d: Dictionary) returns (r: bool, msr: Replacer?, at: int)
      requires Holds(d) && idx <= |s|
      ensures First(s, idx, d, r, msr, at)
    {
      hide Rep, Compare, KeyLength;
      var i := idx;
      while i < |s|
        invariant idx <= i <= |s|
        invariant forall k :: idx <= k < i ==> KeyLength(d, s, k) == 0
      {
        r, msr, at := CompareWords(s, i);
        CompareAtRoot(value, s, i, d);
        if r {
          return;
        }
        i := i + 1;
      }
      r, msr, at := false, null, 0;
    }

    method Replace(s: string, ghost d: Dictionary) returns (sb: string)
      requires Holds(d)
      ensures sb == Substitute(d, s, 0)
    {
      hide KeyLength, Substitute, Substitutions, Holds;
      SubstituteEnd(d, s);
      var r, msr, at := FindWords(s, 0, d);
      if !r {
        NoMatchCopies(d, s, 0, |s|);
        return s;
      }
      sb := "";
      var writen := 0;
      while r && at < |s|
        invariant 0 <= writen <= |s| && sb + Substitute(d, s, writen) == Substitute(d, s, 0)
        invariant First(s, writen, d, r, msr, at)
        decreases |s| - writen
      {
        NoMatchCopies(d, s, writen, at);
        SubstituteHere(d, s, at);
        ghost var now := writen;
        ghost var done := sb;
        sb := sb + s[writen..at];
        sb := sb + msr.newWords;
        writen := at + |msr.oldWords|;
        assert done + Substitute(d, s, now) == sb + Substitute(d, s, writen);
        r, msr, at := FindWords(s, writen, d);
      }
      NoMatchCopies(d, s, writen, |s|);
      sb := sb + s[writen..];
    }

    method CountWords(s: string, ghost d: Dictionary) returns (count: nat)
      requires Holds(d)
      ensures count == Substitutions(d, s, 0)
    {
      hide KeyLength, Substitute, Substitutions, Holds;
      SubstituteEnd(d, s);
      var r, msr, at := FindWords(s, 0, d);
      if !r {
        NoMatchCopies(d, s, 0, |s|);
        return 0;
      }
      var writen := 0;
      count := 0;
      while r && at < |s|
        invariant 0 <= writen <= |s| && count + Substitutions(d, s, writen) == Substitutions(d, s, 0)
        invariant First(s, writen, d, r, msr, at)
        decreases |s| - writen
      {
        NoMatchCopies(d, s, writen, at);
        SubstituteHere(d, s, at);
        count := count + 1;
        writen := at + |msr.oldWords|;
        r, msr, at := FindWords(s, writen, d);
      }
      NoMatchCopies(d, s, writen, |s|);
    }

    method ExistWords(s: string, ghost d: Dictionary) returns (r: bool)
      requires Holds(d)
      ensures r <==> Substitutions(d, s, 0) > 0
    {
      var msr, at;
      r, msr, at := FindWords(s, 0, d);
      NoMatchCopies(d, s, 0, if r then at else |s|);
    }
  }
}
