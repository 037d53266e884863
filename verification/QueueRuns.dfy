/**
  push_back and pop_front as sequences of single stores, cut anywhere by a crash, and whole runs of them.
 */
module QueueRuns {
  import opened Bytes
  import opened QueueMemory
  import opened QueueRing

  // ---------------------------------------------------------------- scripts

  /** A memcpy around the ring, one byte after the other. */
  function WriteBytes(cap: nat, from: nat, bytes: seq<Byte>): (r: seq<Store>)
    ensures |r| == |bytes|
  {
    seq(|bytes|, i requires 0 <= i < |bytes| => SetByte(Phys(cap, from + i), bytes[i]))
  }

  // Stores of two update() calls; the store after them is the commit point.
  const LOGGED := 10

  function CommitStore(a0: nat, v0: nat, a1: nat, v1: nat, i: nat): Store {
    if i == 0 then SetStatus(2)
    else if i == 1 then SetControl(a0, v0)
    else if i == 2 then SetControl(a1, v1)
    else if i == 3 then SetNow(0)
    else SetStatus(0)
  }

  function Commit(a0: nat, v0: nat, a1: nat, v1: nat): seq<Store> {
    seq(5, i requires 0 <= i < 5 => CommitStore(a0, v0, a1, v1, i))
  }

  /** update(a0, v0); update(a1, v1); doUpdate(true). */
  function Transact(a0: nat, v0: nat, a1: nat, v1: nat): (r: seq<Store>)
    ensures |r| == LOGGED + 5
  {
    LogEntry(0, a0, v0) + LogEntry(1, a1, v1) + Commit(a0, v0, a1, v1)
  }

  /** A caller may not push onto an empty queue a record that overruns the buffer: the source does not check. */
  ghost predicate Fits(q: Queue, cap: nat, msg: Message) {
    |msg| < STRING_LIMIT && (q.msgs == [] ==> HEADER + |msg| <= cap)
  }

  function PushBody(c: Control, cap: nat, msg: Message): seq<Store>
    requires c.top <= cap && HEADER + |msg| <= cap
  {
    WriteBytes(cap, c.top, Frame(msg)) +
    Transact(TOP, Advance(cap, c.top, HEADER + |msg|), PUSH_COUNT, (c.pushCount + 1) % TWO_64)
  }

  function PopBody(c: Control, cap: nat, n: nat): seq<Store>
    requires c.bot <= cap && HEADER + n <= cap
  {
    Transact(BOT, Advance(cap, c.bot, HEADER + n), POP_COUNT, (c.popCount + 1) % TWO_64)
  }

  ghost function PushScript(m: Memory, q: Queue, msg: Message): seq<Store>
    requires Represents(m, q) && Fits(q, |m.data|, msg)
  {
    UsedIsEncoded(Recovered(m), m.data, q);
    Recover(m) + if Refuses(q, |m.data|, msg) then [] else PushBody(Recovered(m), |m.data|, msg)
  }

  ghost function PopScript(m: Memory, q: Queue): seq<Store>
    requires Represents(m, q)
  {
    Recover(m) +
    if q.msgs == [] then []
    else
      PopHolds(Recovered(m), m.data, q.msgs);
      PopBody(Recovered(m), |m.data|, |q.msgs[0]|)
  }

  // ---------------------------------------------------------------- one phase at a time

  function Logging(m: Memory, slot: nat, addr: nat, value: nat, k: nat): Memory
    requires slot < |m.journal|
  {
    var e := m.journal[slot];
    var e1 := if k >= 2 then e.(addr := addr) else e;
    var e2 := if k >= 3 then e1.(value := value) else e1;
    var e3 := if k >= 4 then e2.(bytes := HEADER) else e2;
    m.(status := if k >= 1 then 1 else m.status, journal := m.journal[slot := e3],
       now := if k >= 5 then slot + 1 else m.now)
  }

  lemma {:induction false} LogOnce(m: Memory, slot: nat, addr: nat, value: nat, k: nat)
    requires slot < |m.journal| && k <= 5
    ensures After(m, LogEntry(slot, addr, value), k) == Logging(m, slot, addr, value, k)
  {
    if k > 0 {
      LogOnce(m, slot, addr, value, k - 1);
    }
  }

  lemma {:induction false} LogTwice(m: Memory, a0: nat, v0: nat, a1: nat, v1: nat, k: nat)
    requires Settled(m) && k <= LOGGED
    ensures var r := After(m, LogEntry(0, a0, v0) + LogEntry(1, a1, v1), k);
            && WellFormed(r) && r.ctl == m.ctl && r.data == m.data && r.status <= 1
            && (k == LOGGED ==> r.status == 1 && r.now == 2 &&
                                r.journal[0] == Entry(a0, HEADER, v0) && r.journal[1] == Entry(a1, HEADER, v1))
  {
    CutConcat(m, LogEntry(0, a0, v0), LogEntry(1, a1, v1), k);
    LogOnce(m, 0, a0, v0, if k <= 5 then k else 5);
    if k > 5 {
      LogOnce(Logging(m, 0, a0, v0, 5), 1, a1, v1, k - 5);
    }
  }

  lemma RedoTwo(m: Memory)
    requires WellFormed(m) && m.status == 2 && m.now == 2
    ensures var e0, e1 := m.journal[0], m.journal[1];
            && Recovered(m) == ControlSet(ControlSet(m.ctl, e0.addr, e0.value), e1.addr, e1.value)
            && Recover(m) == [SetControl(e0.addr, e0.value), SetControl(e1.addr, e1.value), SetNow(0), SetStatus(0)]
  {
    assert Redo(m.ctl, m.journal, 1) == ControlSet(Redo(m.ctl, m.journal, 0), m.journal[0].addr, m.journal[0].value);
  }

  /** Two control-block fields change together or not at all, at the store that sets the status to 2. */
  lemma {:induction false} TransactionIsAtomic(m: Memory, a0: nat, v0: nat, a1: nat, v1: nat, k: nat)
    requires Settled(m) && IsField(a0) && IsField(a1) && k <= LOGGED + 5
    ensures var r := After(m, Transact(a0, v0, a1, v1), k);
            && WellFormed(r) && r.data == m.data
            && Recovered(r) == (if k <= LOGGED then m.ctl else ControlSet(ControlSet(m.ctl, a0, v0), a1, v1))
            && (k == LOGGED + 5 ==> Settled(r))
  {
    var log := LogEntry(0, a0, v0) + LogEntry(1, a1, v1);
    var commit := Commit(a0, v0, a1, v1);
    CutConcat(m, log, commit, k);
    LogTwice(m, a0, v0, a1, v1, if k <= LOGGED then k else LOGGED);
    if k > LOGGED {
      var logged := ApplyAll(m, log);
      var committed := Apply(logged, SetStatus(2));
      RedoTwo(committed);
      assert commit == [SetStatus(2)] + Recover(committed);
      CutConcat(logged, [SetStatus(2)], Recover(committed), k - LOGGED);
      ApplyOne(logged, SetStatus(2));
      RecoveryIsCrashProof(committed, k - LOGGED - 1);
    }
  }

  lemma {:induction false} WriteCut(m: Memory, from: nat, bytes: seq<Byte>, k: nat)
    requires 0 < |m.data| && from <= |m.data| && k <= |bytes| <= |m.data|
    ensures var r := After(m, WriteBytes(|m.data|, from, bytes), k);
            && r == m.(data := r.data) && |r.data| == |m.data|
            && (forall i :: 0 <= i < k ==> r.data[Phys(|m.data|, from + i)] == bytes[i])
            && (forall p :: 0 <= p < |m.data| && Ahead(|m.data|, from, p) >= k ==> r.data[p] == m.data[p])
  {
    if k > 0 {
      WriteCut(m, from, bytes, k - 1);
    }
  }

  /** The unread bytes of the queue are untouched. */
  ghost predicate Unread(c: Control, before: seq<Byte>, after: seq<Byte>)
    requires c.top <= |before| && c.bot <= |before| && 0 < |before|
  {
    && |after| == |before|
    && Ring(after, c.bot, Used(c, |before|)) == Ring(before, c.bot, Used(c, |before|))
  }

  lemma FreeIsAhead(c: Control, cap: nat, j: nat)
    requires 0 < cap && c.top <= cap && c.bot <= cap && j < Used(c, cap)
    requires c.top == 0 ==> c.bot == 0
    ensures Phys(cap, c.bot + j) < cap && Ahead(cap, c.top, Phys(cap, c.bot + j)) >= cap - Used(c, cap)
  {
  }

  /** Filling free bytes, however far it got, leaves the unread bytes alone. */
  lemma {:induction false} FillCut(m: Memory, q: Queue, bytes: seq<Byte>, k: nat)
    requires Stands(m.ctl, m.data, q) && k <= |bytes| <= |m.data| - Used(m.ctl, |m.data|)
    ensures var r := After(m, WriteBytes(|m.data|, m.ctl.top, bytes), k);
            && r == m.(data := r.data)
            && Unread(m.ctl, m.data, r.data) && Stands(m.ctl, r.data, q)
            && (k == |bytes| ==> Ring(r.data, m.ctl.top, k) == bytes)
  {
    hide After, WriteBytes;
    var cap, c, used := |m.data|, m.ctl, Used(m.ctl, |m.data|);
    WriteCut(m, c.top, bytes, k);
    var r := After(m, WriteBytes(cap, c.top, bytes), k);
    forall j | 0 <= j < used ensures Ring(r.data, c.bot, used)[j] == Ring(m.data, c.bot, used)[j] {
      FreeIsAhead(c, cap, j);
    }
    assert Ring(r.data, c.bot, used) == Ring(m.data, c.bot, used);
  }

  // ---------------------------------------------------------------- operations are atomic

  /** A record that is not refused goes into free bytes. */
  lemma AdmittedFits(c: Control, data: seq<Byte>, q: Queue, msg: Message)
    requires Stands(c, data, q) && Fits(q, |data|, msg) && !Refuses(q, |data|, msg)
    ensures HEADER + |msg| <= |data| - Used(c, |data|)
  {
    UsedIsEncoded(c, data, q);
  }

  lemma PushCommits(m: Memory, q: Queue, msg: Message, data: seq<Byte>, k: nat)
    requires Settled(m) && Stands(m.ctl, data, q) && Stands(m.ctl, m.data, q) && |m.data| == |data|
    requires |msg| < STRING_LIMIT && !Refuses(q, |data|, msg) && HEADER + |msg| <= |data| && k <= LOGGED + 5
    requires Unread(m.ctl, data, m.data) && Ring(m.data, m.ctl.top, HEADER + |msg|) == Frame(msg)
    ensures var next := Advance(|data|, m.ctl.top, HEADER + |msg|);
            var r := After(m, Transact(TOP, next, PUSH_COUNT, (m.ctl.pushCount + 1) % TWO_64), k);
            && r.data == m.data
            && Represents(r, if k <= LOGGED then q else AfterPush(q, |data|, msg))
            && (k == LOGGED + 5 ==> Settled(r))
  {
    hide After;
    var next := Advance(|data|, m.ctl.top, HEADER + |msg|);
    TransactionIsAtomic(m, TOP, next, PUSH_COUNT, (m.ctl.pushCount + 1) % TWO_64, k);
    if k > LOGGED {
      PushStands(m.ctl, data, m.data, q, msg);
    }
  }

  lemma {:induction false} PushFills(m: Memory, q: Queue, msg: Message, k: nat)
    requires Settled(m) && Stands(m.ctl, m.data, q)
    requires HEADER + |msg| <= |m.data| - Used(m.ctl, |m.data|) && k <= HEADER + |msg|
    ensures var r := After(m, WriteBytes(|m.data|, m.ctl.top, Frame(msg)), k);
            && r == m.(data := r.data) && Settled(r)
            && Unread(m.ctl, m.data, r.data) && Represents(r, q) && Stands(r.ctl, r.data, q)
            && (k == HEADER + |msg| ==> Ring(r.data, m.ctl.top, k) == Frame(msg))
  {
    FillCut(m, q, Frame(msg), k);
  }

  lemma {:induction false} PushBodyIsAtomic(m: Memory, q: Queue, msg: Message, k: nat)
    requires Settled(m) && Stands(m.ctl, m.data, q) && |msg| < STRING_LIMIT && !Refuses(q, |m.data|, msg)
    requires HEADER + |msg| <= |m.data| - Used(m.ctl, |m.data|) && k <= |PushBody(m.ctl, |m.data|, msg)|
    ensures var r := After(m, PushBody(m.ctl, |m.data|, msg), k);
            && Unread(m.ctl, m.data, r.data)
            && Represents(r, if k <= HEADER + |msg| + LOGGED then q else AfterPush(q, |m.data|, msg))
            && (k == |PushBody(m.ctl, |m.data|, msg)| ==> Settled(r))
  {
    hide After;
    var cap, c, n := |m.data|, m.ctl, HEADER + |msg|;
    var write := WriteBytes(cap, c.top, Frame(msg));
    var log := Transact(TOP, Advance(cap, c.top, n), PUSH_COUNT, (c.pushCount + 1) % TWO_64);
    var r := After(m, PushBody(c, cap, msg), k);
    CutConcat(m, write, log, k);
    if k <= n {
      PushFills(m, q, msg, k);
      assert r == After(m, write, k);
    } else {
      PushFills(m, q, msg, n);
      PushCommits(ApplyAll(m, write), q, msg, m.data, k - n);
      assert r == After(ApplyAll(m, write), log, k - n);
    }
  }

  function PushCommit(m: Memory, msg: Message): nat
    requires WellFormed(m)
  {
    |Recover(m)| + HEADER + |msg| + LOGGED
  }

  /**
    A push stopped after any number k of stores (k may fall in the recovery it starts with) leaves the
    queue as before or as after it, the switch being one store; and never touches an unread byte.
   */
  lemma {:induction false} PushIsAtomic(m: Memory, q: Queue, msg: Message, k: nat)
    requires Represents(m, q) && Fits(q, |m.data|, msg) && k <= |PushScript(m, q, msg)|
    ensures var r := After(m, PushScript(m, q, msg), k);
            && Unread(Recovered(m), m.data, r.data)
            && Represents(r, if k <= PushCommit(m, msg) then q else AfterPush(q, |m.data|, msg))
            && (k == |PushScript(m, q, msg)| ==> Settled(r) && Represents(r, AfterPush(q, |m.data|, msg)))
  {
    hide After;
    var c, recovery := Recovered(m), Recover(m);
    if Refuses(q, |m.data|, msg) {
      assert PushScript(m, q, msg) == recovery;
      RecoveryIsCrashProof(m, k);
    } else {
      AdmittedFits(c, m.data, q, msg);
      CutConcat(m, recovery, PushBody(c, |m.data|, msg), k);
      RecoveryIsCrashProof(m, if k <= |recovery| then k else |recovery|);
      if k > |recovery| {
        PushBodyIsAtomic(ApplyAll(m, recovery), q, msg, k - |recovery|);
      }
    }
  }

  lemma {:induction false} PopBodyIsAtomic(m: Memory, q: Queue, k: nat)
    requires Settled(m) && Stands(m.ctl, m.data, q) && q.msgs != []
    requires HEADER + |q.msgs[0]| <= |m.data| && k <= |PopBody(m.ctl, |m.data|, |q.msgs[0]|)|
    ensures var r := After(m, PopBody(m.ctl, |m.data|, |q.msgs[0]|), k);
            && r.data == m.data
            && Represents(r, if k <= LOGGED then q else AfterPop(q))
            && (k == |PopBody(m.ctl, |m.data|, |q.msgs[0]|)| ==> Settled(r))
  {
    hide After;
    var v0, v1 := Advance(|m.data|, m.ctl.bot, HEADER + |q.msgs[0]|), (m.ctl.popCount + 1) % TWO_64;
    TransactionIsAtomic(m, BOT, v0, POP_COUNT, v1, k);
    PopStands(m.ctl, m.data, q);
  }

  /** A pop stopped anywhere leaves the queue as before or as after it. */
  lemma {:induction false} PopIsAtomic(m: Memory, q: Queue, k: nat)
    requires Represents(m, q) && k <= |PopScript(m, q)|
    ensures var r := After(m, PopScript(m, q), k);
            && r.data == m.data
            && Represents(r, if k <= |Recover(m)| + LOGGED then q else AfterPop(q))
            && (k == |PopScript(m, q)| ==> Settled(r) && Represents(r, AfterPop(q)))
  {
    hide After;
    var c, recovery := Recovered(m), Recover(m);
    if q.msgs == [] {
      assert PopScript(m, q) == recovery;
      RecoveryIsCrashProof(m, k);
    } else {
      PopHolds(c, m.data, q.msgs);
      CutConcat(m, recovery, PopBody(c, |m.data|, |q.msgs[0]|), k);
      RecoveryIsCrashProof(m, if k <= |recovery| then k else |recovery|);
      if k > |recovery| {
        PopBodyIsAtomic(ApplyAll(m, recovery), q, k - |recovery|);
      }
    }
  }
}
