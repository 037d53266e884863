/**
  DyeingCurrentFresh: which users were seen recently, kept in two maps that set() and clear() update in
  separate critical sections, from two threads.
 */
module FreshIndex {
  import opened Bytes

  type Uid = string

  // ---------------------------------------------------------------- critical sections

  /** kq of the shared queue, and _time_kmsg. */
  datatype Maps = Maps(kq: map<Uid, nat>, timeKmsg: map<nat, Uid>)

  /** set(), first section: the time index. */
  function Record(m: Maps, uid: Uid, t: nat): Maps {
    m.(timeKmsg := m.timeKmsg[t := uid])
  }

  /** set(), second section: the user map. */
  function Publish(m: Maps, uid: Uid, t: nat): Maps {
    m.(kq := m.kq[uid := t])
  }

  /** clear(), first section: entries older than cnow leave the time index. */
  function Expire(m: Maps, cnow: nat): Maps {
    m.(timeKmsg := map t | t in m.timeKmsg && t >= cnow :: m.timeKmsg[t])
  }

  /** clear(), one pass of the last loop. */
  function Drop(m: Maps, uid: Uid): Maps {
    m.(kq := m.kq - {uid})
  }

  /** What the ordered walk with its early break collects: every expired entry, in order of time. */
  ghost predicate Collected(index: map<nat, Uid>, cnow: nat, times: seq<nat>, uids: seq<Uid>) {
    && Ordered(times) && Taken(index, cnow, times, uids)
    && (forall t :: t in index && t < cnow ==> t in times)
  }

  ghost predicate Ordered(times: seq<nat>) {
    forall i, j :: 0 <= i < j < |times| ==> times[i] < times[j]
  }

  /** Expired entries, each with its user. */
  ghost predicate Taken(index: map<nat, Uid>, cnow: nat, times: seq<nat>, uids: seq<Uid>) {
    && |times| == |uids|
    && forall i :: 0 <= i < |times| ==> times[i] in index && times[i] < cnow && uids[i] == index[times[i]]
  }

  lemma CollectedUids(index: map<nat, Uid>, cnow: nat, times: seq<nat>, uids: seq<Uid>, t: nat)
    requires Collected(index, cnow, times, uids) && t in index && t < cnow
    ensures index[t] in uids
  {
    var i :| 0 <= i < |times| && times[i] == t;
    assert uids[i] == index[t];
  }

  predicate IsLeast(m: map<nat, Uid>, t: nat) {
    t in m && forall o :: o in m ==> t <= o
  }

  lemma {:induction false} HasLeast(m: map<nat, Uid>, x: nat)
    requires x in m
    ensures exists t: nat :: IsLeast(m, t)
    decreases x
  {
    if y :| y in m && y < x {
      HasLeast(m, y);
    } else {
      assert IsLeast(m, x);
    }
  }

  /** begin() of what is left of an ordered map. */
  method LeastKey(m: map<nat, Uid>) returns (t: nat)
    requires m != map[]
    ensures IsLeast(m, t)
  {
    var x :| x in m.Keys;
    HasLeast(m, x);
    t :| t in m.Keys && IsLeast(m, t);
  }

  /** Part of the way through the walk: all of index is either collected, in order, or still ahead. */
  ghost predicate Walked(index: map<nat, Uid>, cnow: nat, rest: map<nat, Uid>, times: seq<nat>, uids: seq<Uid>) {
    && Ordered(times) && Taken(index, cnow, times, uids)
    && (forall t :: t in index && t !in rest ==> t in times)
    && (forall t :: t in rest ==> t in index && rest[t] == index[t])
    && (forall i, t :: 0 <= i < |times| && t in rest ==> times[i] < t)
  }

  lemma TakeOne(index: map<nat, Uid>, cnow: nat, times: seq<nat>, uids: seq<Uid>, t: nat)
    requires Ordered(times) && Taken(index, cnow, times, uids) && t in index && t < cnow
    requires forall i :: 0 <= i < |times| ==> times[i] < t
    ensures Ordered(times + [t]) && Taken(index, cnow, times + [t], uids + [index[t]])
  {
  }

  lemma WalkBegins(index: map<nat, Uid>, cnow: nat)
    ensures Walked(index, cnow, index, [], [])
  {
  }

  lemma WithoutOne(rest: map<nat, Uid>, t: nat)
    requires t in rest
    ensures |rest - {t}| < |rest|
  {
    assert rest.Keys == (rest - {t}).Keys + {t};
  }

  lemma WalkOn(index: map<nat, Uid>, cnow: nat, rest: map<nat, Uid>, times: seq<nat>, uids: seq<Uid>, t: nat)
    requires Walked(index, cnow, rest, times, uids)
    requires IsLeast(rest, t) && t < cnow
    ensures Walked(index, cnow, rest - {t}, times + [t], uids + [rest[t]])
  {
    hide Ordered, Taken;
    TakeOne(index, cnow, times, uids, t);
    var times', rest' := times + [t], rest - {t};
    assert forall x :: x in times' <==> x in times || x == t;
    assert forall x :: x in index && x !in rest' ==> x == t || x !in rest;
  }

  lemma WalkEnds(index: map<nat, Uid>, cnow: nat, rest: map<nat, Uid>, times: seq<nat>, uids: seq<Uid>)
    requires Walked(index, cnow, rest, times, uids) && (rest == map[] || exists t: nat :: IsLeast(rest, t) && cnow <= t)
    ensures Collected(index, cnow, times, uids)
  {
  }

  /** The users collected are those with an expired entry. */
  lemma RubbishUsers(index: map<nat, Uid>, cnow: nat, times: seq<nat>, uids: seq<Uid>)
    requires Collected(index, cnow, times, uids)
    ensures forall u :: u in uids <==> exists t :: t in index && t < cnow && index[t] == u
  {
    forall u ensures u in uids <==> exists t :: t in index && t < cnow && index[t] == u {
      if u in uids {
        var k :| 0 <= k < |uids| && uids[k] == u;
        assert times[k] in index && times[k] < cnow && index[times[k]] == u;
      }
      if t :| t in index && t < cnow && index[t] == u {
        CollectedUids(index, cnow, times, uids, t);
      }
    }
  }

  class DyeingCurrentFresh {
    var kq: map<Uid, nat>
    var timeKmsg: map<nat, Uid>

    function State(): Maps
      reads this
    {
      Maps(kq, timeKmsg)
    }

    method SetRecord(uid: Uid, now: nat)
      modifies this
      ensures State() == Record(old(State()), uid, now)
    {
      timeKmsg := timeKmsg[now := uid];
    }

    method SetPublish(uid: Uid, now: nat)
      modifies this
      ensures State() == Publish(old(State()), uid, now)
    {
      kq := kq[uid := now];
    }

    /** set() as one thread sees it; TNOWUS is read once in each section. */
    method Set(uid: Uid, first: nat, second: nat)
      modifies this
      ensures State() == Publish(Record(old(State()), uid, first), uid, second)
      ensures timeKmsg == old(timeKmsg)[first := uid] && kq == old(kq)[uid := second]
    {
      SetRecord(uid, first);
      SetPublish(uid, second);
    }

    /** The ordered walk over _time_kmsg, which stops at the first entry that is not expired. */
    method Expired(cnow: nat) returns (rubsh: seq<Uid>, timeRubsh: seq<nat>)
      ensures Collected(timeKmsg, cnow, timeRubsh, rubsh)
    {
      hide Walked, Collected;
      rubsh, timeRubsh := [], [];
      var rest := timeKmsg;
      WalkBegins(timeKmsg, cnow);
      while rest != map[]
        invariant Walked(timeKmsg, cnow, rest, timeRubsh, rubsh)
        decreases |rest|
      {
        var t := LeastKey(rest);
        if cnow > t {
          WalkOn(timeKmsg, cnow, rest, timeRubsh, rubsh, t);
          WithoutOne(rest, t);
          rubsh := rubsh + [rest[t]];
          timeRubsh := timeRubsh + [t];
          rest := rest - {t};
        } else {
          break;
        }
      }
      WalkEnds(timeKmsg, cnow, rest, timeRubsh, rubsh);
    }

    /** clear()'s section over _time_kmsg: collect, then erase what was collected. */
    method Collect(cnow: nat) returns (rubsh: seq<Uid>, ghost times: seq<nat>)
      modifies this
      ensures State() == Expire(old(State()), cnow)
      ensures Collected(old(timeKmsg), cnow, times, rubsh)
    {
      var timeRubsh;
      rubsh, timeRubsh := Expired(cnow);
      times := timeRubsh;
      Forget(timeRubsh);
      assert forall t :: t in timeRubsh ==> t < cnow;
    }

    method Forget(timeRubsh: seq<nat>)
      modifies this`timeKmsg
      ensures timeKmsg == map t | t in old(timeKmsg) && t !in timeRubsh :: old(timeKmsg)[t]
    {
      var i := 0;
      while i < |timeRubsh|
        invariant 0 <= i <= |timeRubsh|
        invariant forall t :: t in timeKmsg <==> t in old(timeKmsg) && t !in timeRubsh[..i]
        invariant forall t :: t in timeKmsg ==> timeKmsg[t] == old(timeKmsg)[t]
      {
        timeKmsg := timeKmsg - {timeRubsh[i]};
        assert timeRubsh[..i + 1] == timeRubsh[..i] + [timeRubsh[i]];
        i := i + 1;
      }
      assert timeRubsh[..i] == timeRubsh;
    }

    method Erase(uid: Uid)
      modifies this
      ensures State() == Drop(old(State()), uid)
    {
      kq := kq - {uid};
    }

    /** clear() with no other thread in between: exactly the users with an expired entry are dropped. */
    method Clear(cnow: nat)
      modifies this
      ensures timeKmsg == Expire(old(State()), cnow).timeKmsg
      ensures forall t :: t in timeKmsg <==> t in old(timeKmsg) && t >= cnow
      ensures forall t :: t in timeKmsg ==> timeKmsg[t] == old(timeKmsg)[t]
      ensures forall u :: u in kq <==>
        u in old(kq) && !(exists t :: t in old(timeKmsg) && t < cnow && old(timeKmsg)[t] == u)
      ensures forall u :: u in kq ==> kq[u] == old(kq)[u]
    {
      hide Collected;
      ghost var index := timeKmsg;
      var rubsh;
      ghost var times;
      rubsh, times := Collect(cnow);
      var i := 0;
      while i < |rubsh|
        invariant 0 <= i <= |rubsh| && timeKmsg == Expire(old(State()), cnow).timeKmsg
        invariant forall u :: u in kq <==> u in old(kq) && u !in rubsh[..i]
        invariant forall u :: u in kq ==> kq[u] == old(kq)[u]
      {
        Erase(rubsh[i]);
        assert rubsh[..i + 1] == rubsh[..i] + [rubsh[i]];
        i := i + 1;
      }
      assert rubsh[..i] == rubsh;
      RubbishUsers(index, cnow, times, rubsh);
    }
  }

  // ---------------------------------------------------------------- both threads

  /** A set() between its sections: the user, and the time it was recorded under. */
  datatype Writer = Idle | Recorded(uid: Uid, t: nat)

  /** A clear() under way: it has read the clock, or it still has users to drop. */
  datatype Cleaner = Resting | Waiting(cnow: nat) | Dropping(cnow: nat, pending: seq<Uid>)

  /**
    The program's state, and two things it does not keep: the latest clock reading, and under which time the
    set() that wrote kq[uid] was recorded.
   */
  datatype World = World(maps: Maps, writer: Writer, cleaner: Cleaner, clock: nat, origin: map<Uid, nat>)

  datatype Section =
    | DoRecord(uid: Uid, t: nat)
    | DoPublish(t: nat)
    | DoReadClock(now: nat)
    | DoCollect(times: seq<nat>, uids: seq<Uid>)
    | DoDrop
    | DoFinish

  /** TNOWUS less the window, in 64 unsigned bits. */
  function CutOff(window: nat, now: nat): nat {
    (now - window) % TWO_64
  }

  function Later(a: nat, b: nat): nat {
    if a < b then b else a
  }

  /**
    One atomic part of one of the two threads. Nothing is assumed of the clock: readings may repeat or go
    back, and any time may pass between two parts.
   */
  ghost predicate Step(window: nat, w: World, s: Section, w': World) {
    match s
    case DoRecord(uid, t) =>
      && w.writer.Idle?
      && w' == w.(maps := Record(w.maps, uid, t), writer := Recorded(uid, t), clock := Later(w.clock, t))
    case DoPublish(t) =>
      && w.writer.Recorded?
      && w' == w.(maps := Publish(w.maps, w.writer.uid, t), writer := Idle, clock := Later(w.clock, t),
                  origin := w.origin[w.writer.uid := w.writer.t])
    case DoReadClock(now) =>
      && w.cleaner.Resting?
      && w' == w.(cleaner := Waiting(CutOff(window, now)), clock := Later(w.clock, now))
    case DoCollect(times, uids) =>
      && w.cleaner.Waiting?
      && Collected(w.maps.timeKmsg, w.cleaner.cnow, times, uids)
      && w' == w.(maps := Expire(w.maps, w.cleaner.cnow), cleaner := Dropping(w.cleaner.cnow, uids))
    case DoDrop =>
      && w.cleaner.Dropping? && w.cleaner.pending != []
      && w' == w.(maps := Drop(w.maps, w.cleaner.pending[0]), cleaner := w.cleaner.(pending := w.cleaner.pending[1..]))
    case DoFinish =>
      && w.cleaner.Dropping? && w.cleaner.pending == []
      && w' == w.(cleaner := Resting)
  }

  const START := World(Maps(map[], map[]), Idle, Resting, 0, map[])

  ghost predicate Execution(window: nat, worlds: seq<World>, sections: seq<Section>) {
    && |worlds| == |sections| + 1 && worlds[0] == START
    && forall i :: 0 <= i < |sections| ==> Step(window, worlds[i], sections[i], worlds[i + 1])
  }

  // ---------------------------------------------------------------- when a user is forgotten

  predicate Entered(m: Maps, t: nat, uid: Uid) {
    t in m.timeKmsg && m.timeKmsg[t] == uid
  }

  ghost predicate HasEntry(m: Maps, uid: Uid) {
    exists t: nat :: Entered(m, t, uid)
  }

  predicate Pending(c: Cleaner, uid: Uid) {
    c.Dropping? && uid in c.pending
  }

  /** A user that no clear() now or later will drop. */
  ghost predicate Forgotten(w: World, uid: Uid) {
    uid in w.maps.kq && !HasEntry(w.maps, uid) && !Pending(w.cleaner, uid)
  }

  ghost predicate NoneForgotten(w: World) {
    forall uid :: uid in w.maps.kq ==> !Forgotten(w, uid)
  }

  /** Recording overwrites the only entry of another published user. */
  ghost predicate Overwrites(w: World, uid: Uid, t: nat) {
    && t in w.maps.timeKmsg
    && var v := w.maps.timeKmsg[t];
       && v != uid && v in w.maps.kq && !Pending(w.cleaner, v)
       && forall s: nat :: Entered(w.maps, s, v) ==> s == t
  }

  /** Publishing comes when a clear() has already taken the user's entry and is done with the user. */
  ghost predicate TooLate(w: World) {
    w.writer.Recorded? && !HasEntry(w.maps, w.writer.uid) && !Pending(w.cleaner, w.writer.uid)
  }

  ghost predicate Forgets(w: World, s: Section) {
    match s
    case DoRecord(uid, t) => Overwrites(w, uid, t)
    case DoPublish(_) => TooLate(w)
    case _ => false
  }

  lemma RecordExact(m: Maps, uid: Uid, t: nat, v: Uid)
    requires HasEntry(m, v)
    ensures !HasEntry(Record(m, uid, t), v) <==>
      t in m.timeKmsg && m.timeKmsg[t] == v != uid && forall s: nat :: Entered(m, s, v) ==> s == t
  {
    var r := Record(m, uid, t);
    var s: nat :| Entered(m, s, v);
    if v == uid {
      assert Entered(r, t, v);
    } else if other: nat :| Entered(m, other, v) && other != t {
      assert Entered(r, other, v);
    } else {
      assert forall x: nat :: Entered(r, x, v) ==> x != t && Entered(m, x, v);
    }
  }

  /** The first section of set() forgets somebody exactly when it overwrites an only entry. */
  lemma RecordForgets(w: World, uid: Uid, t: nat, w': World)
    requires NoneForgotten(w) && w'.maps == Record(w.maps, uid, t) && w'.cleaner == w.cleaner
    ensures NoneForgotten(w') <==> !Overwrites(w, uid, t)
  {
    hide HasEntry, Pending;
    forall v | v in w.maps.kq ensures Forgotten(w', v) ==> Overwrites(w, uid, t) && v == w.maps.timeKmsg[t] {
      if !Pending(w.cleaner, v) {
        assert !Forgotten(w, v);
        RecordExact(w.maps, uid, t, v);
      }
    }
    if Overwrites(w, uid, t) {
      var v := w.maps.timeKmsg[t];
      assert !Forgotten(w, v);
      RecordExact(w.maps, uid, t, v);
      assert Forgotten(w', v);
    }
  }

  /** The second section of set() forgets somebody exactly when it comes too late for its own user. */
  lemma PublishForgets(w: World, t: nat, w': World)
    requires NoneForgotten(w) && w.writer.Recorded?
    requires w'.maps == Publish(w.maps, w.writer.uid, t) && w'.cleaner == w.cleaner
    ensures NoneForgotten(w') <==> !TooLate(w)
  {
    hide Pending;
    forall v ensures HasEntry(w'.maps, v) <==> HasEntry(w.maps, v) {
      SameIndex(w.maps, w'.maps, v);
    }
    hide HasEntry;
    forall v | v in w'.maps.kq && v != w.writer.uid ensures !Forgotten(w', v) {
      assert !Forgotten(w, v);
    }
    assert Forgotten(w', w.writer.uid) <==> TooLate(w);
  }

  lemma SameIndex(m: Maps, m': Maps, uid: Uid)
    requires m.timeKmsg == m'.timeKmsg
    ensures HasEntry(m', uid) <==> HasEntry(m, uid)
  {
    assert forall t: nat :: Entered(m', t, uid) <==> Entered(m, t, uid);
  }

  lemma CollectForgetsNobody(w: World, times: seq<nat>, uids: seq<Uid>, w': World)
    requires NoneForgotten(w) && w.cleaner.Waiting? && Collected(w.maps.timeKmsg, w.cleaner.cnow, times, uids)
    requires w'.maps == Expire(w.maps, w.cleaner.cnow) && w'.cleaner == Dropping(w.cleaner.cnow, uids)
    ensures NoneForgotten(w')
  {
    hide Collected;
    forall v | v in w'.maps.kq ensures !Forgotten(w', v) {
      assert !Forgotten(w, v);
      var t: nat :| Entered(w.maps, t, v);
      if t < w.cleaner.cnow {
        CollectedUids(w.maps.timeKmsg, w.cleaner.cnow, times, uids, t);
      } else {
        assert Entered(w'.maps, t, v);
      }
    }
  }

  lemma DropForgetsNobody(w: World, w': World)
    requires NoneForgotten(w) && w.cleaner.Dropping? && w.cleaner.pending != []
    requires w'.maps == Drop(w.maps, w.cleaner.pending[0])
    requires w'.cleaner == w.cleaner.(pending := w.cleaner.pending[1..])
    ensures NoneForgotten(w')
  {
    assert w.cleaner.pending == [w.cleaner.pending[0]] + w.cleaner.pending[1..];
    forall v | v in w'.maps.kq ensures !Forgotten(w', v) {
      assert !Forgotten(w, v);
      SameIndex(w.maps, w'.maps, v);
    }
  }

  lemma IdleForgetsNobody(w: World, w': World)
    requires NoneForgotten(w) && w'.maps == w.maps && forall v :: Pending(w.cleaner, v) ==> Pending(w'.cleaner, v)
    ensures NoneForgotten(w')
  {
    forall v | v in w'.maps.kq ensures !Forgotten(w', v) {
      assert !Forgotten(w, v);
    }
  }

  /** One part of one thread forgets somebody exactly when one of the two guards fires. */
  lemma StepForgets(window: nat, w: World, s: Section, w': World)
    requires NoneForgotten(w) && Step(window, w, s, w')
    ensures NoneForgotten(w') <==> !Forgets(w, s)
  {
    hide NoneForgotten, Overwrites, TooLate, Collected;
    match s {
      case DoRecord(uid, t) => RecordForgets(w, uid, t, w');
      case DoPublish(t) => PublishForgets(w, t, w');
      case DoReadClock(now) => IdleForgetsNobody(w, w');
      case DoCollect(times, uids) => CollectForgetsNobody(w, times, uids, w');
      case DoDrop => DropForgetsNobody(w, w');
      case DoFinish => IdleForgetsNobody(w, w');
    }
  }

  lemma {:induction false} NoneForgottenUpTo(window: nat, worlds: seq<World>, sections: seq<Section>, i: nat)
    requires Execution(window, worlds, sections) && i < |worlds|
    requires forall j :: 0 <= j < i ==> !Forgets(worlds[j], sections[j])
    ensures NoneForgotten(worlds[i])
  {
    hide Forgets, NoneForgotten, Step;
    if i == 0 {
      StartForgetsNobody();
    } else {
      NoneForgottenUpTo(window, worlds, sections, i - 1);
      StepForgets(window, worlds[i - 1], sections[i - 1], worlds[i]);
    }
  }

  lemma StartForgetsNobody()
    ensures NoneForgotten(START)
  {
  }

  /**
    However the threads interleave and whatever the clock does, nobody is ever forgotten exactly when no
    recording overwrites an only entry and no publishing comes too late.
   */
  lemma NobodyIsForgotten(window: nat, worlds: seq<World>, sections: seq<Section>)
    requires Execution(window, worlds, sections)
    ensures (forall i :: 0 <= i < |worlds| ==> NoneForgotten(worlds[i])) <==>
            (forall i :: 0 <= i < |sections| ==> !Forgets(worlds[i], sections[i]))
  {
    hide Forgets, NoneForgotten, Step;
    if forall i :: 0 <= i < |worlds| ==> NoneForgotten(worlds[i]) {
      forall i | 0 <= i < |sections| ensures !Forgets(worlds[i], sections[i]) {
        StepForgets(window, worlds[i], sections[i], worlds[i + 1]);
      }
    }
    if forall i :: 0 <= i < |sections| ==> !Forgets(worlds[i], sections[i]) {
      forall i | 0 <= i < |worlds| ensures NoneForgotten(worlds[i]) {
        NoneForgottenUpTo(window, worlds, sections, i);
      }
    }
  }

  // ---------------------------------------------------------------- both guards can fire

  function Published(a: Uid, t: nat): World {
    World(Maps(map[a := t], map[t := a]), Idle, Resting, t, map[a := t])
  }

  /** Two users recorded in one tick: the second recording forgets the first user. */
  lemma CollisionForgets(window: nat, a: Uid, b: Uid, t: nat)
    requires a != b
    ensures var w1 := START.(maps := Record(START.maps, a, t), writer := Recorded(a, t), clock := t);
            var w3 := Published(a, t).(maps := Record(Published(a, t).maps, b, t), writer := Recorded(b, t));
            && Execution(window, [START, w1, Published(a, t), w3], [DoRecord(a, t), DoPublish(t), DoRecord(b, t)])
            && Forgets(Published(a, t), DoRecord(b, t)) && Forgotten(w3, a)
  {
  }

  /** A set() held up between its sections until a clear() has come and gone: publishing forgets the user. */
  lemma LatePublishForgets(window: nat, a: Uid, t: nat, now: nat)
    requires CutOff(window, now) > t
    ensures var c, clock := CutOff(window, now), Later(t, now);
            var held := World(Maps(map[], map[t := a]), Recorded(a, t), Resting, t, map[]);
            var read := held.(cleaner := Waiting(c), clock := clock);
            var collected := read.(maps := Maps(map[], map[]), cleaner := Dropping(c, [a]));
            var dropped := collected.(cleaner := Dropping(c, []));
            var last := dropped.(maps := Maps(map[a := now], map[]), writer := Idle, origin := map[a := t]);
            && Execution(window, [START, held, read, collected, dropped, last],
                         [DoRecord(a, t), DoReadClock(now), DoCollect([t], [a]), DoDrop, DoPublish(now)])
            && Forgets(dropped, DoPublish(now)) && Forgotten(last, a)
  {
    var index := map[t := a];
    assert Collected(index, CutOff(window, now), [t], [a]);
    assert Expire(Maps(map[], index), CutOff(window, now)).timeKmsg == map[];
    assert Drop(Maps(map[], map[]), a) == Maps(map[], map[]) && [a][1..] == [];
  }

  // ---------------------------------------------------------------- what a clear() leaves

  /** The clock does not go back, and it has run for at least one window. */
  predicate InOrder(window: nat, w: World, s: Section) {
    match s
    case DoRecord(_, t) => t >= w.clock
    case DoPublish(t) => t >= w.clock
    case DoReadClock(now) => now >= w.clock && window <= now < TWO_64
    case _ => true
  }

  /** No two recordings share a time, and the two sections of set() are less than a window apart. */
  predicate Prompt(window: nat, w: World, s: Section) {
    match s
    case DoRecord(_, t) => t !in w.maps.timeKmsg
    case DoPublish(t) => w.writer.Recorded? ==> t < w.writer.t + window
    case _ => true
  }

  ghost predicate OrderedExecution(window: nat, worlds: seq<World>, sections: seq<Section>) {
    && Execution(window, worlds, sections)
    && forall i :: 0 <= i < |sections| ==> InOrder(window, worlds[i], sections[i])
  }

  ghost predicate PromptExecution(window: nat, worlds: seq<World>, sections: seq<Section>) {
    && OrderedExecution(window, worlds, sections)
    && forall i :: 0 <= i < |sections| ==> Prompt(window, worlds[i], sections[i])
  }

  /** While a clear() drops users, the index holds nothing older than its cut-off. */
  ghost predicate Recent(window: nat, w: World) {
    && (!w.cleaner.Resting? ==> w.cleaner.cnow + window <= w.clock)
    && (w.cleaner.Dropping? ==> forall t :: t in w.maps.timeKmsg ==> t >= w.cleaner.cnow)
  }

  lemma CutOffInOrder(window: nat, now: nat)
    requires window <= now < TWO_64
    ensures CutOff(window, now) + window == now
  {
  }

  lemma StepKeepsRecent(window: nat, w: World, s: Section, w': World)
    requires Recent(window, w) && Step(window, w, s, w') && InOrder(window, w, s)
    ensures Recent(window, w')
  {
    hide CutOff, Collected;
    if s.DoReadClock? {
      CutOffInOrder(window, s.now);
    }
  }

  lemma {:induction false} RecentAlways(window: nat, worlds: seq<World>, sections: seq<Section>, i: nat)
    requires OrderedExecution(window, worlds, sections) && i < |worlds|
    ensures Recent(window, worlds[i])
  {
    hide Step, InOrder;
    if i == 0 {
      StartIsRecent(window);
    } else {
      RecentAlways(window, worlds, sections, i - 1);
      StepKeepsRecent(window, worlds[i - 1], sections[i - 1], worlds[i]);
    }
  }

  lemma StartIsRecent(window: nat)
    ensures Recent(window, START)
  {
  }

  /**
    When a clear() that read the time now is done, whoever is left was recorded no earlier than
    now - window, exactly unless it was forgotten.
   */
  lemma ClearLeavesRecentEntries(window: nat, worlds: seq<World>, sections: seq<Section>, i: nat, uid: Uid)
    requires OrderedExecution(window, worlds, sections) && i < |worlds|
    requires worlds[i].cleaner.Dropping? && worlds[i].cleaner.pending == [] && uid in worlds[i].maps.kq
    ensures (exists t: nat :: Entered(worlds[i].maps, t, uid) && t >= worlds[i].cleaner.cnow) <==>
            !Forgotten(worlds[i], uid)
  {
    hide OrderedExecution;
    RecentAlways(window, worlds, sections, i);
  }

  /** The user is in the time index under the time it was set, or about to be dropped. */
  ghost predicate Covered(w: World, uid: Uid)
    requires uid in w.maps.kq
  {
    && uid in w.origin && w.origin[uid] <= w.maps.kq[uid] <= w.clock
    && (Entered(w.maps, w.origin[uid], uid) || Pending(w.cleaner, uid))
  }

  ghost predicate Invariant(window: nat, w: World) {
    && Recent(window, w)
    && (forall uid :: uid in w.maps.kq ==> Covered(w, uid))
    && (w.writer.Recorded? ==> w.writer.t <= w.clock &&
                               (Entered(w.maps, w.writer.t, w.writer.uid) || w.clock > w.writer.t + window))
  }

  /** Every section of either thread keeps the invariant. */
  lemma StepKeepsInvariant(window: nat, w: World, s: Section, w': World)
    requires Invariant(window, w) && Step(window, w, s, w') && InOrder(window, w, s) && Prompt(window, w, s)
    ensures Invariant(window, w')
  {
    hide CutOff, Recent;
    StepKeepsRecent(window, w, s, w');
    forall u | u in w'.maps.kq ensures Covered(w', u) {
      StepKeepsCovered(window, w, s, w', u);
    }
    if w'.writer.Recorded? {
      WriterStays(window, w, s, w');
    }
  }

  lemma StepKeepsCovered(window: nat, w: World, s: Section, w': World, u: Uid)
    requires Invariant(window, w) && Step(window, w, s, w') && InOrder(window, w, s) && Prompt(window, w, s)
    requires u in w'.maps.kq
    ensures Covered(w', u)
  {
    hide CutOff, Collected;
    if !(s.DoPublish? && u == w.writer.uid) {
      assert Covered(w, u);
    }
    match s {
      case DoCollect(times, uids) =>
        if w.origin[u] < w.cleaner.cnow && w.origin[u] in w.maps.timeKmsg {
          CollectedUids(w.maps.timeKmsg, w.cleaner.cnow, times, uids, w.origin[u]);
        }
      case DoDrop =>
        assert w.cleaner.pending == [w.cleaner.pending[0]] + w.cleaner.pending[1..];
      case _ =>
    }
  }

  lemma WriterStays(window: nat, w: World, s: Section, w': World)
    requires Invariant(window, w) && Step(window, w, s, w') && InOrder(window, w, s) && w'.writer.Recorded?
    ensures w'.writer.t <= w'.clock
    ensures Entered(w'.maps, w'.writer.t, w'.writer.uid) || w'.clock > w'.writer.t + window
  {
    hide CutOff, Collected;
  }

  lemma {:induction false} InvariantAlways(window: nat, worlds: seq<World>, sections: seq<Section>, i: nat)
    requires PromptExecution(window, worlds, sections) && i < |worlds|
    ensures Invariant(window, worlds[i])
  {
    hide Step, InOrder, Prompt, Invariant;
    if i == 0 {
      StartInvariant(window);
    } else {
      InvariantAlways(window, worlds, sections, i - 1);
      StepKeepsInvariant(window, worlds[i - 1], sections[i - 1], worlds[i]);
    }
  }

  lemma StartInvariant(window: nat)
    ensures Invariant(window, START)
  {
  }

  lemma InvariantForgetsNobody(window: nat, w: World)
    requires Invariant(window, w)
    ensures NoneForgotten(w)
  {
    hide Recent, Pending;
    forall u | u in w.maps.kq ensures !Forgotten(w, u) {
      assert Covered(w, u);
    }
  }

  /** With distinct times and prompt set()s, neither guard fires: no user of kq is ever forgotten. */
  lemma PromptForgetsNobody(window: nat, worlds: seq<World>, sections: seq<Section>, i: nat)
    requires PromptExecution(window, worlds, sections) && i < |worlds|
    ensures NoneForgotten(worlds[i])
    ensures i < |sections| ==> !Forgets(worlds[i], sections[i])
  {
    hide PromptExecution, Step, NoneForgotten, Forgets, Invariant;
    InvariantAlways(window, worlds, sections, i);
    InvariantForgetsNobody(window, worlds[i]);
    if i < |sections| {
      StepOf(window, worlds, sections, i);
      InvariantAlways(window, worlds, sections, i + 1);
      InvariantForgetsNobody(window, worlds[i + 1]);
      StepForgets(window, worlds[i], sections[i], worlds[i + 1]);
    }
  }

  lemma StepOf(window: nat, worlds: seq<World>, sections: seq<Section>, i: nat)
    requires PromptExecution(window, worlds, sections) && i < |sections|
    ensures |worlds| == |sections| + 1 && Step(window, worlds[i], sections[i], worlds[i + 1])
  {
    hide Step;
  }

  /** Then whoever a clear() leaves was also published no earlier than now - window. */
  lemma ClearLeavesRecentUsers(window: nat, worlds: seq<World>, sections: seq<Section>, i: nat, uid: Uid)
    requires PromptExecution(window, worlds, sections) && i < |worlds|
    requires worlds[i].cleaner.Dropping? && worlds[i].cleaner.pending == [] && uid in worlds[i].maps.kq
    ensures worlds[i].maps.kq[uid] >= worlds[i].cleaner.cnow
  {
    hide PromptExecution;
    InvariantAlways(window, worlds, sections, i);
    assert Covered(worlds[i], uid);
  }
}
