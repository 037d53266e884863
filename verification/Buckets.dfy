/** Choosing a configuration by hash bucket: src/online_hash.cc, DyeingOnlinePlugin::get. */
module Buckets {
  import opened Bytes
  import opened Policy

  predicate Holds(s: Slot, hv: nat) {
    s.start <= hv <= s.end
  }

  /** The first slot holding the bucket, |slots| when there is none. */
  function FirstHolding(slots: seq<Slot>, hv: nat): (i: nat)
    ensures i <= |slots|
    ensures forall k :: 0 <= k < i ==> !Holds(slots[k], hv)
    ensures i < |slots| ==> Holds(slots[i], hv)
  {
    if slots == [] || Holds(slots[0], hv) then 0 else 1 + FirstHolding(slots[1..], hv)
  }

  /**
    The configuration a bucket gets: the first slot holding it, and the first configuration of
    all when no slot holds it or the one found has an empty name.
   */
  function Chosen(slots: seq<Slot>, hv: nat): string
    requires slots != []
  {
    var i := FirstHolding(slots, hv);
    if i == |slots| || slots[i].confId == "" then slots[0].confId else slots[i].confId
  }

  /** The first slot that holds the bucket serves it, and the first configuration of all when none does. */
  lemma ChosenMeans(slots: seq<Slot>, hv: nat)
    requires slots != []
    ensures (forall k :: 0 <= k < |slots| ==> !(slots[k].start <= hv <= slots[k].end)) ==>
      Chosen(slots, hv) == slots[0].confId
    ensures forall i ::
      && 0 <= i < |slots|
      && slots[i].start <= hv <= slots[i].end
      && slots[i].confId != ""
      && (forall k :: 0 <= k < i ==> !(slots[k].start <= hv <= slots[k].end))
      ==> Chosen(slots, hv) == slots[i].confId
  {
    var i := FirstHolding(slots, hv);
    assert i < |slots| ==> Holds(slots[i], hv);
    assert forall k :: 0 <= k < i ==> !Holds(slots[k], hv);
  }

  /** How many of the first n buckets get the configuration. */
  ghost function Share(slots: seq<Slot>, id: string, n: nat): nat
    requires slots != []
  {
    if n == 0 then 0 else Share(slots, id, n - 1) + (if Chosen(slots, n - 1) == id then 1 else 0)
  }

  function Length(s: Slot): nat {
    if s.start <= s.end then s.end - s.start + 1 else 0
  }

  /** The total length of the first m slots, and of those among them with the given configuration. */
  function TotalLength(slots: seq<Slot>, m: nat): nat
    requires m <= |slots|
  {
    if m == 0 then 0 else TotalLength(slots, m - 1) + Length(slots[m - 1])
  }

  function LengthOf(slots: seq<Slot>, id: string, m: nat): nat
    requires m <= |slots|
  {
    if m == 0 then 0
    else LengthOf(slots, id, m - 1) + (if slots[m - 1].confId == id then Length(slots[m - 1]) else 0)
  }

  /** Every slot lies below bucket n, and no bucket is in two slots. */
  ghost predicate Disjoint(slots: seq<Slot>, n: nat) {
    && (forall i :: 0 <= i < |slots| ==> slots[i].end < n)
    && (forall i, j, hv: nat :: 0 <= i < j < |slots| && Holds(slots[i], hv) ==> !Holds(slots[j], hv))
  }

  ghost predicate Named(slots: seq<Slot>) {
    forall i :: 0 <= i < |slots| ==> slots[i].confId != ""
  }

  // ---------------------------------------------------------------- counting

  function Held(s: Slot, hv: nat): nat {
    if Holds(s, hv) then 1 else 0
  }

  /** How many of the buckets below n one slot holds. */
  function HeldBelow(s: Slot, n: nat): nat {
    if n == 0 then 0 else HeldBelow(s, n - 1) + Held(s, n - 1)
  }

  /** How many of the first m slots hold the bucket, counting all of them or those of one configuration. */
  function Holders(slots: seq<Slot>, hv: nat, m: nat): nat
    requires m <= |slots|
  {
    if m == 0 then 0 else Holders(slots, hv, m - 1) + Held(slots[m - 1], hv)
  }

  function HoldersOf(slots: seq<Slot>, id: string, hv: nat, m: nat): nat
    requires m <= |slots|
  {
    if m == 0 then 0
    else HoldersOf(slots, id, hv, m - 1) + (if slots[m - 1].confId == id then Held(slots[m - 1], hv) else 0)
  }

  function HoldersBelow(slots: seq<Slot>, n: nat, m: nat): nat
    requires m <= |slots|
  {
    if n == 0 then 0 else HoldersBelow(slots, n - 1, m) + Holders(slots, n - 1, m)
  }

  function HoldersOfBelow(slots: seq<Slot>, id: string, n: nat, m: nat): nat
    requires m <= |slots|
  {
    if n == 0 then 0 else HoldersOfBelow(slots, id, n - 1, m) + HoldersOf(slots, id, n - 1, m)
  }

  lemma {:induction false} HeldIsLength(s: Slot, n: nat)
    ensures HeldBelow(s, n) ==
      if n <= s.start || s.end < s.start then 0
      else if n <= s.end + 1 then n - s.start
      else Length(s)
  {
    if n > 0 {
      HeldIsLength(s, n - 1);
    }
  }

  lemma {:induction false} CountAll(slots: seq<Slot>, n: nat, m: nat)
    requires 0 < m <= |slots|
    ensures HoldersBelow(slots, n, m) == HoldersBelow(slots, n, m - 1) + HeldBelow(slots[m - 1], n)
  {
    if n > 0 {
      CountAll(slots, n - 1, m);
    }
  }

  lemma {:induction false} CountOf(slots: seq<Slot>, id: string, n: nat, m: nat)
    requires 0 < m <= |slots|
    ensures HoldersOfBelow(slots, id, n, m) ==
      HoldersOfBelow(slots, id, n, m - 1) + (if slots[m - 1].confId == id then HeldBelow(slots[m - 1], n) else 0)
  {
    if n > 0 {
      CountOf(slots, id, n - 1, m);
    }
  }

  lemma {:induction false} NoSlotsNoHolders(slots: seq<Slot>, id: string, n: nat)
    ensures HoldersBelow(slots, n, 0) == 0 && HoldersOfBelow(slots, id, n, 0) == 0
  {
    if n > 0 {
      NoSlotsNoHolders(slots, id, n - 1);
    }
  }

  /** Counted bucket by bucket or slot by slot, the total is the same. */
  lemma {:induction false} CountsAreLengths(slots: seq<Slot>, id: string, n: nat, m: nat)
    requires m <= |slots| && forall i :: 0 <= i < |slots| ==> slots[i].end < n
    ensures HoldersBelow(slots, n, m) == TotalLength(slots, m)
    ensures HoldersOfBelow(slots, id, n, m) == LengthOf(slots, id, m)
  {
    hide HeldBelow, HoldersBelow, HoldersOfBelow;
    if m == 0 {
      NoSlotsNoHolders(slots, id, n);
    } else {
      CountsAreLengths(slots, id, n, m - 1);
      CountAll(slots, n, m);
      CountOf(slots, id, n, m);
      HeldIsLength(slots[m - 1], n);
    }
  }

  lemma {:induction false} NoneHolds(slots: seq<Slot>, id: string, hv: nat, m: nat)
    requires m <= |slots| && forall k :: 0 <= k < m ==> !Holds(slots[k], hv)
    ensures Holders(slots, hv, m) == 0 && HoldersOf(slots, id, hv, m) == 0
  {
    if m > 0 {
      NoneHolds(slots, id, hv, m - 1);
    }
  }

  lemma {:induction false} OneHolds(slots: seq<Slot>, id: string, hv: nat, i: nat, m: nat)
    requires i < m <= |slots| && Holds(slots[i], hv)
    requires forall k :: 0 <= k < m && k != i ==> !Holds(slots[k], hv)
    ensures Holders(slots, hv, m) == 1
    ensures HoldersOf(slots, id, hv, m) == if slots[i].confId == id then 1 else 0
  {
    if m == i + 1 {
      NoneHolds(slots, id, hv, i);
    } else {
      OneHolds(slots, id, hv, i, m - 1);
    }
  }

  /** In disjoint slots the choice can be read off the holders of the bucket. */
  lemma {:induction false} ChosenByHolders(slots: seq<Slot>, id: string, n: nat, hv: nat)
    requires slots != [] && Disjoint(slots, n) && Named(slots)
    ensures Holders(slots, hv, |slots|) <= 1
    ensures (if Chosen(slots, hv) == id then 1 else 0) ==
      HoldersOf(slots, id, hv, |slots|) + (if slots[0].confId == id then 1 - Holders(slots, hv, |slots|) else 0)
  {
    var i := FirstHolding(slots, hv);
    if i == |slots| {
      NoneHolds(slots, id, hv, |slots|);
    } else {
      OneHolds(slots, id, hv, i, |slots|);
    }
  }

  lemma {:induction false} ShareByHolders(slots: seq<Slot>, id: string, n: nat, k: nat)
    requires slots != [] && Disjoint(slots, n) && Named(slots) && k <= n
    ensures HoldersBelow(slots, k, |slots|) <= k
    ensures Share(slots, id, k) ==
      HoldersOfBelow(slots, id, k, |slots|) +
      (if slots[0].confId == id then k - HoldersBelow(slots, k, |slots|) else 0)
  {
    hide Disjoint, Named, Chosen, Holders, HoldersOf;
    if k > 0 {
      ShareByHolders(slots, id, n, k - 1);
      ChosenByHolders(slots, id, n, k - 1);
    }
  }

  /**
    Disjoint named slots: a configuration serves as many buckets as its slots are long, and the
    first configuration serves the uncovered buckets as well.
   */
  lemma {:induction false} ShareIsLength(slots: seq<Slot>, id: string, n: nat)
    requires slots != [] && Disjoint(slots, n) && Named(slots)
    ensures TotalLength(slots, |slots|) <= n
    ensures Share(slots, id, n) ==
      LengthOf(slots, id, |slots|) + (if slots[0].confId == id then n - TotalLength(slots, |slots|) else 0)
  {
    ShareByHolders(slots, id, n, n);
    CountsAreLengths(slots, id, n, |slots|);
  }

  // ---------------------------------------------------------------- conservation

  ghost function SumOfShares(slots: seq<Slot>, ids: seq<string>, n: nat, m: nat): nat
    requires slots != [] && m <= |ids|
  {
    if m == 0 then 0 else SumOfShares(slots, ids, n, m - 1) + Share(slots, ids[m - 1], n)
  }

  /** The position of the one id in a list that a bucket gets counts once, every other not at all. */
  lemma {:induction false} OneMoreBucket(slots: seq<Slot>, ids: seq<string>, n: nat, at: nat, m: nat)
    requires slots != [] && m <= |ids| && at < |ids| && ids[at] == Chosen(slots, n)
    requires forall i, j :: 0 <= i < j < |ids| ==> ids[i] != ids[j]
    ensures SumOfShares(slots, ids, n + 1, m) == SumOfShares(slots, ids, n, m) + (if at < m then 1 else 0)
  {
    hide Chosen;
    if m > 0 {
      OneMoreBucket(slots, ids, n, at, m - 1);
    }
  }

  lemma ChosenIsListed(slots: seq<Slot>, hv: nat)
    requires slots != []
    ensures exists i :: 0 <= i < |slots| && slots[i].confId == Chosen(slots, hv)
  {
    var i := FirstHolding(slots, hv);
    assert slots[if i == |slots| || slots[i].confId == "" then 0 else i].confId == Chosen(slots, hv);
  }

  lemma {:induction false} NoBuckets(slots: seq<Slot>, ids: seq<string>, m: nat)
    requires slots != [] && m <= |ids|
    ensures SumOfShares(slots, ids, 0, m) == 0
  {
    if m > 0 {
      NoBuckets(slots, ids, m - 1);
    }
  }

  /** Whatever the slots, overlapping or not, every bucket goes to exactly one configuration. */
  lemma {:induction false} SharesSumUp(slots: seq<Slot>, ids: seq<string>, n: nat)
    requires slots != []
    requires forall i, j :: 0 <= i < j < |ids| ==> ids[i] != ids[j]
    requires forall i :: 0 <= i < |slots| ==> slots[i].confId in ids
    ensures SumOfShares(slots, ids, n, |ids|) == n
  {
    hide Chosen;
    if n == 0 {
      NoBuckets(slots, ids, |ids|);
    } else {
      SharesSumUp(slots, ids, n - 1);
      ChosenIsListed(slots, n - 1);
      var at :| 0 <= at < |ids| && ids[at] == Chosen(slots, n - 1);
      OneMoreBucket(slots, ids, n - 1, at, |ids|);
    }
  }

  // ---------------------------------------------------------------- moving one boundary

  function Moved(slots: seq<Slot>, i: nat, end: Word): seq<Slot>
    requires i < |slots|
  {
    slots[i := slots[i].(end := end)]
  }

  predicate Between(hv: nat, a: int, b: int) {
    a < hv <= b || b < hv <= a
  }

  lemma {:induction false} FirstHoldingSame(a: seq<Slot>, b: seq<Slot>, hv: nat)
    requires |a| == |b| && forall k :: 0 <= k < |a| ==> (Holds(a[k], hv) <==> Holds(b[k], hv))
    ensures FirstHolding(a, hv) == FirstHolding(b, hv)
  {
  }

  /** Moving the end of a slot changes nothing outside the buckets the end passed over. */
  lemma OnlyThePassedBucketsMove(slots: seq<Slot>, i: nat, end: Word, hv: nat)
    requires i < |slots| && !Between(hv, slots[i].end, end)
    ensures Chosen(Moved(slots, i, end), hv) == Chosen(slots, hv)
  {
    FirstHoldingSame(Moved(slots, i, end), slots, hv);
  }

  /** A slot that grows into uncovered buckets takes them over from the first configuration. */
  lemma PassedBucketsChangeHands(slots: seq<Slot>, i: nat, end: Word, n: nat, hv: nat)
    requires i < |slots| && slots[i].start <= slots[i].end < hv <= end && Named(slots)
    requires Disjoint(Moved(slots, i, end), n)
    ensures Chosen(slots, hv) == slots[0].confId
    ensures Chosen(Moved(slots, i, end), hv) == slots[i].confId
  {
    var moved := Moved(slots, i, end);
    assert Holds(moved[i], hv);
    forall k | 0 <= k < |slots| ensures !Holds(slots[k], hv) {
      assert k == i || slots[k] == moved[k];
    }
    assert FirstHolding(slots, hv) == |slots|;
    assert FirstHolding(moved, hv) == i;
  }
}
