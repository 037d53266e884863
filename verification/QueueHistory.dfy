/**
  Whole runs of the shared queue: any sequence of push_back and pop_front calls, each either completed or
  killed after any number of stores, with the next call starting from whatever was left behind.
 */
module QueueHistory {
  import opened Bytes
  import opened QueueMemory
  import opened QueueRing
  import opened QueueRuns

  datatype Op = Push(msg: Message) | Pop

  datatype Fate = Completed | Killed(stores: nat)

  datatype Call = Call(op: Op, fate: Fate)

  ghost predicate IsQueue(m: Memory) {
    exists q :: Represents(m, q)
  }

  ghost function QueueOf(m: Memory): (q: Queue)
    requires IsQueue(m)
    ensures Represents(m, q)
  {
    var q :| Represents(m, q); q
  }

  /** All that is asked of a caller: a record pushed onto an empty queue is no longer than the buffer. */
  ghost predicate Allowed(q: Queue, cap: nat, op: Op) {
    op.Push? ==> Fits(q, cap, op.msg)
  }

  function AfterOp(q: Queue, cap: nat, op: Op): Queue {
    match op
    case Push(msg) => AfterPush(q, cap, msg)
    case Pop => AfterPop(q)
  }

  ghost function Script(m: Memory, op: Op): seq<Store>
    requires IsQueue(m) && Allowed(QueueOf(m), |m.data|, op)
  {
    match op
    case Push(msg) => PushScript(m, QueueOf(m), msg)
    case Pop => PopScript(m, QueueOf(m))
  }

  ghost function Execute(m: Memory, call: Call): Memory
    requires IsQueue(m) && Allowed(QueueOf(m), |m.data|, call.op)
  {
    var script := Script(m, call.op);
    match call.fate
    case Completed => ApplyAll(m, script)
    case Killed(n) => After(m, script, if n < |script| then n else |script|)
  }

  lemma CallIsAtomic(m: Memory, q: Queue, call: Call)
    requires Represents(m, q) && Allowed(q, |m.data|, call.op)
    ensures QueueOf(m) == q
    ensures var r := Execute(m, call);
            && |r.data| == |m.data|
            && (Represents(r, AfterOp(q, |m.data|, call.op)) || (call.fate.Killed? && Represents(r, q)))
  {
    RepresentsIsFunctional(m, q, QueueOf(m));
    var script := Script(m, call.op);
    var n := if call.fate.Killed? && call.fate.stores < |script| then call.fate.stores else |script|;
    match call.op {
      case Push(msg) => PushIsAtomic(m, q, msg, n);
      case Pop => PopIsAtomic(m, q, n);
    }
  }

  /** The segments that the calls leave one after the other, each call allowed where it is made. */
  ghost predicate IsRun(ms: seq<Memory>, calls: seq<Call>) {
    && |ms| == |calls| + 1
    && forall i :: 0 <= i < |calls| ==> Leads(ms[i], calls[i], ms[i + 1])
  }

  ghost predicate Leads(m: Memory, call: Call, r: Memory) {
    IsQueue(m) && Allowed(QueueOf(m), |m.data|, call.op) && r == Execute(m, call)
  }

  /** The FIFO specification of a run, given which of the killed calls took effect. */
  function Fifo(q: Queue, cap: nat, calls: seq<Call>, took: seq<bool>, n: nat): Queue
    requires n <= |calls| && n <= |took|
  {
    if n == 0 then q
    else
      var before := Fifo(q, cap, calls, took, n - 1);
      if took[n - 1] then AfterOp(before, cap, calls[n - 1].op) else before
  }

  lemma {:induction false} FifoIgnoresLater(q: Queue, cap: nat, calls: seq<Call>,
                                            took: seq<bool>, more: seq<bool>, n: nat)
    requires n <= |calls| && n <= |took|
    ensures Fifo(q, cap, calls, took + more, n) == Fifo(q, cap, calls, took, n)
  {
    if n > 0 {
      FifoIgnoresLater(q, cap, calls, took, more, n - 1);
    }
  }

  ghost predicate Explains(took: seq<bool>, calls: seq<Call>, n: nat)
    requires n <= |calls|
  {
    |took| == n && forall i :: 0 <= i < n && calls[i].fate.Completed? ==> took[i]
  }

  lemma ExtendRun(m: Memory, r: Memory, q: Queue, calls: seq<Call>, took: seq<bool>, n: nat) returns (longer: seq<bool>)
    requires n < |calls| && Explains(took, calls, n) && Leads(m, calls[n], r)
    requires Represents(m, Fifo(q, |m.data|, calls, took, n))
    ensures Explains(longer, calls, n + 1) && |r.data| == |m.data|
    ensures Represents(r, Fifo(q, |m.data|, calls, longer, n + 1))
  {
    hide Allowed, Execute, Represents;
    var cap, held, call := |m.data|, Fifo(q, |m.data|, calls, took, n), calls[n];
    RepresentsIsFunctional(m, held, QueueOf(m));
    CallIsAtomic(m, held, call);
    var last := call.fate.Completed? || Represents(r, AfterOp(held, cap, call.op));
    longer := took + [last];
    FifoIgnoresLater(q, cap, calls, took, [last], n);
    assert Fifo(q, cap, calls, longer, n + 1) == if last then AfterOp(held, cap, call.op) else held;
  }

  /**
    Crash-consistent FIFO: whatever calls are made and wherever each of them is killed, the segment
    stands for the queue a plain FIFO holds after the same calls, in which every completed call
    took effect and every killed one took effect entirely or not at all.
   */
  lemma {:induction false} RunsAreFifo(ms: seq<Memory>, q: Queue, calls: seq<Call>, n: nat)
    requires IsRun(ms, calls) && n <= |calls| && Represents(ms[0], q)
    ensures |ms[n].data| == |ms[0].data|
    ensures exists took :: Explains(took, calls, n) && Represents(ms[n], Fifo(q, |ms[0].data|, calls, took, n))
  {
    hide Represents, Leads;
    if n == 0 {
      assert Explains([], calls, 0) && Fifo(q, |ms[0].data|, calls, [], 0) == q;
    } else {
      RunsAreFifo(ms, q, calls, n - 1);
      var cap := |ms[0].data|;
      var took :| Explains(took, calls, n - 1) && Represents(ms[n - 1], Fifo(q, cap, calls, took, n - 1));
      var longer := ExtendRun(ms[n - 1], ms[n], q, calls, took, n - 1);
    }
  }

  // ---------------------------------------------------------------- counters and sizes

  function RecordBytes(msgs: seq<Message>): nat {
    if msgs == [] then 0 else 8 + |msgs[0]| + RecordBytes(msgs[1..])
  }

  /** Free bytes and the records, each with its 8-byte length, fill the buffer. */
  lemma FreePlusRecords(q: Queue, cap: nat)
    ensures FreeBytes(q, cap) + RecordBytes(q.msgs) == cap
  {
    EncodedSize(q.msgs);
  }

  /** The record fits: nothing is unread, or at least one byte stays free behind the records there are. */
  ghost predicate Accepts(q: Queue, cap: nat, msg: Message) {
    q.msgs == [] || 8 + |msg| < cap - RecordBytes(q.msgs)
  }

  /**
    What a push does to the queue: it is taken exactly when the record fits; then it
    is the last message, unless it is as long as the buffer and the buffer is not new.
   */
  ghost predicate Pushed(before: Queue, cap: nat, msg: Message, taken: bool, after: Queue) {
    && (taken <==> Accepts(before, cap, msg))
    && (!taken ==> after == before)
    && (taken ==>
          && after.msgs == (if before.msgs == [] && 8 + |msg| == cap && !before.virgin then []
                            else before.msgs + [msg])
          && after.pushed == (before.pushed + 1) % TWO_64 && after.popped == before.popped && !after.virgin)
  }

  /** What a pop does to it: it takes the first message exactly when there is one. */
  ghost predicate Popped(before: Queue, taken: bool, msg: Message, after: Queue) {
    && (taken <==> before.msgs != [])
    && (!taken ==> after == before)
    && (taken ==>
          && before.msgs == [msg] + after.msgs && after.pushed == before.pushed
          && after.popped == (before.popped + 1) % TWO_64 && after.virgin == before.virgin)
  }

  lemma {:induction false} PushMeans(q: Queue, cap: nat, msg: Message)
    ensures Pushed(q, cap, msg, !Refuses(q, cap, msg), AfterPush(q, cap, msg))
  {
    hide RecordBytes;
    FreePlusRecords(q, cap);
    assert Refuses(q, cap, msg) <==> !Accepts(q, cap, msg);
  }

  lemma PopMeans(q: Queue)
    ensures Popped(q, q.msgs != [], if q.msgs == [] then [] else q.msgs[0], AfterPop(q))
  {
  }

  /** In the FIFO of a run, a call that took effect is such a push or such a pop. */
  lemma {:induction false} FifoStep(q: Queue, cap: nat, calls: seq<Call>, took: seq<bool>, n: nat)
    requires 0 < n <= |calls| && n <= |took|
    ensures var before, after := Fifo(q, cap, calls, took, n - 1), Fifo(q, cap, calls, took, n);
            if !took[n - 1] then after == before
            else match calls[n - 1].op
                 case Push(msg) => Pushed(before, cap, msg, Accepts(before, cap, msg), after)
                 case Pop => Popped(before, before.msgs != [], if before.msgs == [] then [] else before.msgs[0], after)
  {
    var before := Fifo(q, cap, calls, took, n - 1);
    match calls[n - 1].op {
      case Push(msg) =>
        PushMeans(before, cap, msg);
        hide Accepts, Refuses;
      case Pop => PopMeans(before);
    }
  }

  lemma {:induction false} EncodedSize(msgs: seq<Message>)
    ensures |Encode(msgs)| == RecordBytes(msgs)
  {
    if msgs != [] {
      EncodedSize(msgs[1..]);
    }
  }

  /** What elementCount() returns. */
  function ElementCount(q: Queue): int {
    if q.pushed >= q.popped then q.pushed - q.popped else TWO_64 - 1 - q.popped + q.pushed
  }

  /** The counters, as far as 64 bits can tell, differ by the number of unread messages. */
  ghost predicate Counted(q: Queue) {
    && q.pushed < TWO_64 && q.popped < TWO_64
    && (q.pushed - q.popped - |q.msgs| == 0 || q.pushed + TWO_64 - q.popped - |q.msgs| == 0)
  }

  /** Every call keeps the counters in step, unless a record vanishes. */
  lemma OpKeepsCount(q: Queue, cap: nat, op: Op)
    requires Counted(q) && |q.msgs| < TWO_64 - 1
    ensures Counted(AfterOp(q, cap, op)) <==> !(op.Push? && Vanishes(q, cap, op.msg))
  {
  }

  /**
    elementCount() is the number of unread messages exactly while the push counter is not below the pop counter;
    then it is one too low.
   */
  lemma ElementCountIsExact(q: Queue)
    requires Counted(q) && |q.msgs| < TWO_64
    ensures ElementCount(q) == |q.msgs| <==> q.pushed >= q.popped
    ensures q.pushed < q.popped ==> ElementCount(q) == |q.msgs| - 1
  {
  }

  const EMPTY := Queue([], 0, 0, true)

  /** How many of the first n calls pushed a record that vanished. */
  function Vanished(cap: nat, calls: seq<Call>, took: seq<bool>, n: nat): nat
    requires n <= |calls| && n <= |took|
  {
    if n == 0 then 0
    else
      Vanished(cap, calls, took, n - 1) +
      if took[n - 1] && IsLost(Fifo(EMPTY, cap, calls, took, n - 1), cap, calls[n - 1].op) then 1 else 0
  }

  predicate IsLost(q: Queue, cap: nat, op: Op) {
    op.Push? && Vanishes(q, cap, op.msg)
  }

  /** A call changes how far the count is off by the record it loses, if it loses one. */
  lemma OpKeepsCountError(q: Queue, cap: nat, op: Op)
    requires q.pushed + 1 < TWO_64 && q.pushed >= q.popped + |q.msgs|
    ensures var r := AfterOp(q, cap, op);
            && r.pushed <= q.pushed + 1
            && r.pushed - r.popped - |r.msgs| == q.pushed - q.popped - |q.msgs| + if IsLost(q, cap, op) then 1 else 0
  {
  }

  /**
    Over every run of fewer than 2^64 calls from a new queue, elementCount() is too high by exactly the number of
    records that vanished: it is right exactly while none did.
   */
  lemma {:induction false} CountIsExactOverRuns(cap: nat, calls: seq<Call>, took: seq<bool>, n: nat)
    requires n <= |calls| && n <= |took| && n < TWO_64
    ensures var q := Fifo(EMPTY, cap, calls, took, n);
            && ElementCount(q) == |q.msgs| + Vanished(cap, calls, took, n)
            && q.pushed == q.popped + |q.msgs| + Vanished(cap, calls, took, n) <= n
  {
    hide AfterOp, IsLost;
    if n > 0 {
      CountIsExactOverRuns(cap, calls, took, n - 1);
      OpKeepsCountError(Fifo(EMPTY, cap, calls, took, n - 1), cap, calls[n - 1].op);
    }
  }
}
