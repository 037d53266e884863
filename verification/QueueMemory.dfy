/**
  The shared memory behind INV_MemQueue, one store at a time.

  A mapped segment holds a control block, a redo journal of five entries and a circular
  byte buffer. Every change the queue makes is a sequence of single stores, so a crash leaves
  the segment as some prefix of that sequence made it. This module defines the segment, the
  stores, the recovery that doUpdate() performs, and the abstract queue a segment stands for.
 */
module QueueMemory {
  import opened Bytes

  // sizeof(CONTROL_BLOCK) and sizeof(tagModifyHead), both packed.
  const CONTROL_BYTES := 40
  const JOURNAL_BYTES := 94
  const OVERHEAD := CONTROL_BYTES + JOURNAL_BYTES
  const JOURNAL_SLOTS := 5
  // sizeof(size_t), the length prefix of a record.
  const HEADER := 8
  // No mapped segment is larger than this, so index sums stay below 2^64.
  const ADDRESS_LIMIT := 0x4000_0000_0000_0000
  const STRING_LIMIT := 0x8000_0000_0000_0000

  // Byte offsets of the control-block fields, as the journal records them.
  const MEM_SIZE := 0
  const TOP := 8
  const BOT := 16
  const PUSH_COUNT := 24
  const POP_COUNT := 32

  predicate IsField(addr: nat) {
    addr in [MEM_SIZE, TOP, BOT, PUSH_COUNT, POP_COUNT]
  }

  datatype Control = Control(memSize: nat, top: nat, bot: nat, pushCount: nat, popCount: nat)

  datatype Entry = Entry(addr: nat, bytes: nat, value: nat)

  datatype Memory = Memory(ctl: Control, status: nat, now: nat, journal: seq<Entry>, data: seq<Byte>)

  datatype Store =
    | SetControl(addr: nat, value: nat)
    | SetStatus(value: nat)
    | SetNow(value: nat)
    | SetEntryAddr(slot: nat, value: nat)
    | SetEntryBytes(slot: nat, value: nat)
    | SetEntryValue(slot: nat, value: nat)
    | SetByte(pos: nat, b: Byte)

  function ControlSet(c: Control, addr: nat, value: nat): Control {
    if addr == MEM_SIZE then c.(memSize := value)
    else if addr == TOP then c.(top := value)
    else if addr == BOT then c.(bot := value)
    else if addr == PUSH_COUNT then c.(pushCount := value)
    else if addr == POP_COUNT then c.(popCount := value)
    else c
  }

  function Apply(m: Memory, s: Store): Memory {
    match s
    case SetControl(addr, value) => m.(ctl := ControlSet(m.ctl, addr, value))
    case SetStatus(value) => m.(status := value)
    case SetNow(value) => m.(now := value)
    case SetEntryAddr(slot, value) =>
      if slot < |m.journal| then m.(journal := m.journal[slot := m.journal[slot].(addr := value)]) else m
    case SetEntryBytes(slot, value) =>
      if slot < |m.journal| then m.(journal := m.journal[slot := m.journal[slot].(bytes := value)]) else m
    case SetEntryValue(slot, value) =>
      if slot < |m.journal| then m.(journal := m.journal[slot := m.journal[slot].(value := value)]) else m
    case SetByte(pos, b) =>
      if pos < |m.data| then m.(data := m.data[pos := b]) else m
  }

  /** The segment once the first k stores of a script are made: what a crash after k stores leaves. */
  function After(m: Memory, script: seq<Store>, k: nat): Memory
    requires k <= |script|
  {
    if k == 0 then m else Apply(After(m, script, k - 1), script[k - 1])
  }

  function ApplyAll(m: Memory, script: seq<Store>): Memory {
    After(m, script, |script|)
  }

  /** A cut through a two-phase script falls in one phase or the other. */
  lemma {:induction false} CutConcat(m: Memory, a: seq<Store>, b: seq<Store>, k: nat)
    requires k <= |a| + |b|
    ensures After(m, a + b, k) == if k <= |a| then After(m, a, k) else After(ApplyAll(m, a), b, k - |a|)
  {
    if k > 0 {
      CutConcat(m, a, b, k - 1);
    }
  }

  // ---------------------------------------------------------------- the journal

  function LogStore(slot: nat, addr: nat, value: nat, i: nat): Store {
    if i == 0 then SetStatus(1)
    else if i == 1 then SetEntryAddr(slot, addr)
    else if i == 2 then SetEntryValue(slot, value)
    else if i == 3 then SetEntryBytes(slot, HEADER)
    else SetNow(slot + 1)
  }

  /** update(): append one entry to the journal, which is thereby uncommitted. */
  function LogEntry(slot: nat, addr: nat, value: nat): seq<Store> {
    seq(5, i requires 0 <= i < 5 => LogStore(slot, addr, value, i))
  }

  function Replay(journal: seq<Entry>, n: nat): seq<Store>
    requires n <= |journal|
  {
    seq(n, i requires 0 <= i < n => SetControl(journal[i].addr, journal[i].value))
  }

  function Wipe(slots: nat): seq<Store> {
    if slots == 0 then []
    else Wipe(slots - 1) + [SetEntryAddr(slots - 1, 0), SetEntryBytes(slots - 1, 0), SetEntryValue(slots - 1, 0)]
  }

  /**
    A journal as the queue itself leaves it: nothing half-counted when it is at rest, and when it is committed,
    whole fields of the control block only, so that a redo stores nowhere else.
   */
  ghost predicate WellFormed(m: Memory) {
    && |m.journal| == JOURNAL_SLOTS
    && m.now < JOURNAL_SLOTS
    && m.status <= 2
    && (m.status == 0 ==> m.now == 0)
    && (m.status == 2 ==>
          forall i :: 0 <= i < m.now ==> m.journal[i].bytes == HEADER && IsField(m.journal[i].addr))
  }

  ghost predicate Settled(m: Memory) {
    WellFormed(m) && m.status == 0
  }

  /** The stores of doUpdate(): roll a half-written journal back, redo a committed one, or nothing. */
  function Recover(m: Memory): seq<Store>
    requires WellFormed(m)
  {
    if m.status == 1 then [SetNow(0)] + Wipe(JOURNAL_SLOTS) + [SetStatus(0)]
    else if m.status == 2 then Replay(m.journal, m.now) + [SetNow(0), SetStatus(0)]
    else []
  }

  function Redo(c: Control, journal: seq<Entry>, n: nat): Control
    requires n <= |journal|
  {
    if n == 0 then c
    else ControlSet(Redo(c, journal, n - 1), journal[n - 1].addr, journal[n - 1].value)
  }

  /** The control block that recovery is bound to produce, whatever state the journal is in. */
  function Recovered(m: Memory): Control
    requires WellFormed(m)
  {
    if m.status == 2 then Redo(m.ctl, m.journal, m.now) else m.ctl
  }

  /** The value the last of the first n entries for this field wrote, or d. */
  function LastWrite(journal: seq<Entry>, n: nat, addr: nat, d: nat): nat
    requires n <= |journal|
  {
    if n == 0 then d
    else if journal[n - 1].addr == addr then journal[n - 1].value
    else LastWrite(journal, n - 1, addr, d)
  }

  lemma {:induction false} RedoIsLastWrite(c: Control, journal: seq<Entry>, n: nat)
    requires n <= |journal|
    ensures Redo(c, journal, n) == Control(
              LastWrite(journal, n, MEM_SIZE, c.memSize),
              LastWrite(journal, n, TOP, c.top),
              LastWrite(journal, n, BOT, c.bot),
              LastWrite(journal, n, PUSH_COUNT, c.pushCount),
              LastWrite(journal, n, POP_COUNT, c.popCount))
  {
    if n > 0 {
      RedoIsLastWrite(c, journal, n - 1);
    }
  }

  lemma {:induction false} LastWriteAbsorbs(journal: seq<Entry>, k: nat, n: nat, addr: nat, d: nat)
    requires k <= n <= |journal|
    ensures LastWrite(journal, n, addr, LastWrite(journal, k, addr, d)) == LastWrite(journal, n, addr, d)
  {
    if k < n {
      LastWriteAbsorbs(journal, k, n - 1, addr, d);
    } else {
      LastWriteTwice(journal, n, addr, d);
    }
  }

  lemma {:induction false} LastWriteTwice(journal: seq<Entry>, n: nat, addr: nat, d: nat)
    requires n <= |journal|
    ensures forall e :: e == d || e == LastWrite(journal, n, addr, d) ==>
              LastWrite(journal, n, addr, e) == LastWrite(journal, n, addr, d)
  {
    if n > 0 && journal[n - 1].addr != addr {
      LastWriteTwice(journal, n - 1, addr, d);
    }
  }

  /** A redo interrupted anywhere and started again gives what one uninterrupted redo gives. */
  lemma {:induction false} RedoIsIdempotent(c: Control, journal: seq<Entry>, k: nat, n: nat)
    requires k <= n <= |journal|
    ensures Redo(Redo(c, journal, k), journal, n) == Redo(c, journal, n)
  {
    RedoIsLastWrite(c, journal, n);
    RedoIsLastWrite(c, journal, k);
    RedoIsLastWrite(Redo(c, journal, k), journal, n);
    LastWriteAbsorbs(journal, k, n, MEM_SIZE, c.memSize);
    LastWriteAbsorbs(journal, k, n, TOP, c.top);
    LastWriteAbsorbs(journal, k, n, BOT, c.bot);
    LastWriteAbsorbs(journal, k, n, PUSH_COUNT, c.pushCount);
    LastWriteAbsorbs(journal, k, n, POP_COUNT, c.popCount);
  }

  // ---------------------------------------------------------------- recovery is crash-proof

  lemma {:induction false} ReplayCut(m: Memory, n: nat, k: nat)
    requires k <= n <= |m.journal|
    ensures After(m, Replay(m.journal, n), k) == m.(ctl := Redo(m.ctl, m.journal, k))
  {
    if k > 0 {
      ReplayCut(m, n, k - 1);
    }
  }

  ghost predicate TouchesJournalOnly(script: seq<Store>) {
    forall i :: 0 <= i < |script| ==>
      script[i] == SetNow(0) || script[i].SetEntryAddr? || script[i].SetEntryBytes? || script[i].SetEntryValue?
  }

  lemma {:induction false} JournalOnlyCut(m: Memory, script: seq<Store>, k: nat)
    requires k <= |script| && TouchesJournalOnly(script)
    ensures var r := After(m, script, k); r == m.(journal := r.journal, now := r.now)
    ensures |After(m, script, k).journal| == |m.journal| && After(m, script, k).now <= m.now
  {
    if k > 0 {
      JournalOnlyCut(m, script, k - 1);
    }
  }

  lemma {:induction false} WipeTouchesJournalOnly(n: nat)
    ensures TouchesJournalOnly(Wipe(n))
  {
    if n > 0 {
      WipeTouchesJournalOnly(n - 1);
    }
  }

  lemma {:induction false} NowIsReset(m: Memory, script: seq<Store>, k: nat)
    requires 0 < k <= |script| && TouchesJournalOnly(script) && script[0] == SetNow(0)
    ensures After(m, script, k).now == 0
  {
    if k > 1 {
      NowIsReset(m, script, k - 1);
    } else {
      assert After(m, script, 0) == m;
    }
  }

  lemma {:induction false} ApplyNone(m: Memory, script: seq<Store>)
    ensures After(m, script, 0) == m == ApplyAll(m, [])
  {
  }

  lemma {:induction false} ApplyOne(m: Memory, s: Store)
    ensures After(m, [s], 0) == m && After(m, [s], 1) == ApplyAll(m, [s]) == Apply(m, s)
  {
  }

  lemma {:induction false} RollbackCut(m: Memory, k: nat)
    requires WellFormed(m) && m.status == 1 && k <= |Recover(m)|
    ensures var r := After(m, Recover(m), k);
            && WellFormed(r) && r.ctl == m.ctl && r.data == m.data
            && r.status == if k == |Recover(m)| then 0 else 1
  {
    var wipe := [SetNow(0)] + Wipe(JOURNAL_SLOTS);
    WipeTouchesJournalOnly(JOURNAL_SLOTS);
    assert TouchesJournalOnly(wipe);
    CutConcat(m, wipe, [SetStatus(0)], k);
    if k <= |wipe| {
      JournalOnlyCut(m, wipe, k);
    } else {
      JournalOnlyCut(m, wipe, |wipe|);
      NowIsReset(m, wipe, |wipe|);
      ApplyOne(ApplyAll(m, wipe), SetStatus(0));
    }
  }

  lemma {:induction false} RedoCut(m: Memory, k: nat)
    requires WellFormed(m) && m.status == 2 && k <= |Recover(m)|
    ensures var r := After(m, Recover(m), k);
            && WellFormed(r) && Recovered(r) == Recovered(m) && r.data == m.data
            && (k == |Recover(m)| ==> r.status == 0)
  {
    var replay := Replay(m.journal, m.now);
    CutConcat(m, replay, [SetNow(0), SetStatus(0)], k);
    if k <= m.now {
      ReplayCut(m, m.now, k);
      RedoIsIdempotent(m.ctl, m.journal, k, m.now);
    } else {
      ReplayCut(m, m.now, m.now);
      var m1 := ApplyAll(m, replay);
      assert After(m1, [SetNow(0), SetStatus(0)], 1) == m1.(now := 0);
      assert After(m1, [SetNow(0), SetStatus(0)], 2) == m1.(now := 0, status := 0);
    }
  }

  /**
    doUpdate() stopped after any number of its stores has not changed what the next doUpdate()
    will produce, and has not touched the buffer; run to the end it produces exactly that.
   */
  lemma {:induction false} RecoveryIsCrashProof(m: Memory, k: nat)
    requires WellFormed(m) && k <= |Recover(m)|
    ensures var r := After(m, Recover(m), k);
            && WellFormed(r)
            && Recovered(r) == Recovered(m)
            && r.data == m.data
            && (k == |Recover(m)| ==> Settled(r) && r.ctl == Recovered(m))
  {
    if m.status == 1 {
      RollbackCut(m, k);
    } else if m.status == 2 {
      RedoCut(m, k);
    }
  }
}
