/** INV_MemQueue: the queue's methods, store by store, against the specification of QueueRuns. */
module MemQueueModel {
  import opened Bytes
  import opened QueueMemory
  import opened QueueRing
  import opened QueueRuns
  import opened QueueHistory

  /** Stopped after any of its stores, the script has left the queue as before or as after. */
  ghost predicate Atomic(m: Memory, script: seq<Store>, before: Queue, after: Queue) {
    forall k :: 0 <= k <= |script| ==> Represents(After(m, script, k), before) || Represents(After(m, script, k), after)
  }

  lemma ThenApply(m: Memory, a: seq<Store>, b: seq<Store>)
    ensures ApplyAll(m, a + b) == ApplyAll(ApplyAll(m, a), b)
  {
    CutConcat(m, a, b, |a| + |b|);
  }

  /** Two memcpy calls that meet at the end of the buffer, or anywhere else, are one write around the ring. */
  lemma WriteBytesConcat(cap: nat, from: nat, a: seq<Byte>, b: seq<Byte>, next: nat)
    requires from + |a| + |b| <= 2 * cap
    requires next == from + |a| || (next + cap == from + |a| && next + |b| <= cap)
    ensures WriteBytes(cap, from, a + b) == WriteBytes(cap, from, a) + WriteBytes(cap, next, b)
  {
    var whole, parts := WriteBytes(cap, from, a + b), WriteBytes(cap, from, a) + WriteBytes(cap, next, b);
    forall i | 0 <= i < |whole| ensures whole[i] == parts[i] {
      if i >= |a| {
        assert Phys(cap, from + i) == Phys(cap, next + (i - |a|));
      }
    }
  }

  lemma PushIsAtomicAtEveryStore(m: Memory, q: Queue, msg: Message)
    requires Represents(m, q) && Fits(q, |m.data|, msg)
    ensures Atomic(m, PushScript(m, q, msg), q, AfterPush(q, |m.data|, msg))
    ensures var r := ApplyAll(m, PushScript(m, q, msg));
            Settled(r) && Represents(r, AfterPush(q, |m.data|, msg)) && |r.data| == |m.data|
  {
    var script := PushScript(m, q, msg);
    forall k | 0 <= k <= |script|
      ensures Represents(After(m, script, k), q) || Represents(After(m, script, k), AfterPush(q, |m.data|, msg))
    {
      PushIsAtomic(m, q, msg, k);
    }
    PushIsAtomic(m, q, msg, |script|);
  }

  lemma PopIsAtomicAtEveryStore(m: Memory, q: Queue)
    requires Represents(m, q)
    ensures Atomic(m, PopScript(m, q), q, AfterPop(q))
    ensures var r := ApplyAll(m, PopScript(m, q)); Settled(r) && Represents(r, AfterPop(q)) && r.data == m.data
  {
    var script := PopScript(m, q);
    forall k | 0 <= k <= |script|
      ensures Represents(After(m, script, k), q) || Represents(After(m, script, k), AfterPop(q))
    {
      PopIsAtomic(m, q, k);
    }
    PopIsAtomic(m, q, |script|);
  }

  /** Where memcpy finds the bytes lo..hi of what the ring reads from index from on, if no wrap is between them. */
  lemma RingPiece(data: seq<Byte>, from: nat, total: nat, lo: nat, hi: nat, pos: nat)
    requires from <= |data| && total <= |data| && 0 < |data| && lo <= hi <= total
    requires (pos == from + lo && from + hi <= |data|) || pos + |data| == from + lo
    ensures pos + (hi - lo) <= |data| && data[pos..pos + (hi - lo)] == Ring(data, from, total)[lo..hi]
  {
    var a, b := data[pos..pos + (hi - lo)], Ring(data, from, total)[lo..hi];
    forall i | 0 <= i < hi - lo ensures a[i] == b[i] {
      assert b[i] == Ring(data, from, total)[lo + i] == data[Phys(|data|, from + (lo + i))];
    }
  }

  lemma PieceJoin(s: seq<Byte>, a: nat, b: nat, c: nat)
    requires a <= b <= c <= |s|
    ensures s[a..b] + s[b..c] == s[a..c]
  {
  }

  lemma {:induction false} WipeAt(n: nat)
    ensures |Wipe(n)| == 3 * n
    ensures forall i :: 0 <= i < n ==>
              && Wipe(n)[3 * i] == SetEntryAddr(i, 0)
              && Wipe(n)[3 * i + 1] == SetEntryBytes(i, 0)
              && Wipe(n)[3 * i + 2] == SetEntryValue(i, 0)
  {
    if n > 0 {
      WipeAt(n - 1);
    }
  }

  lemma NothingToRecover(m: Memory)
    requires Settled(m)
    ensures Recover(m) == [] && ApplyAll(m, Recover(m)) == m
  {
  }

  lemma RollbackAt(m: Memory)
    requires WellFormed(m) && m.status == 1
    ensures var s := Recover(m);
            && |s| == 2 + 3 * JOURNAL_SLOTS && s[0] == SetNow(0) && s[|s| - 1] == SetStatus(0)
            && forall i :: 0 <= i < JOURNAL_SLOTS ==>
                 && s[1 + 3 * i] == SetEntryAddr(i, 0)
                 && s[2 + 3 * i] == SetEntryBytes(i, 0)
                 && s[3 + 3 * i] == SetEntryValue(i, 0)
  {
    WipeAt(JOURNAL_SLOTS);
    forall i | 0 <= i < JOURNAL_SLOTS
      ensures Recover(m)[1 + 3 * i] == SetEntryAddr(i, 0) && Recover(m)[2 + 3 * i] == SetEntryBytes(i, 0)
      ensures Recover(m)[3 + 3 * i] == SetEntryValue(i, 0)
    {
      assert Recover(m)[1 + 3 * i] == Wipe(JOURNAL_SLOTS)[3 * i];
    }
  }

  lemma LogStores(slot: nat, addr: nat, value: nat)
    ensures LogEntry(slot, addr, value) == [
              SetStatus(1), SetEntryAddr(slot, addr), SetEntryValue(slot, value), SetEntryBytes(slot, HEADER),
              SetNow(slot + 1)]
  {
  }

  lemma LoggedWellFormed(m: Memory, addr: nat, value: nat)
    requires WellFormed(m) && m.now + 1 < JOURNAL_SLOTS
    ensures WellFormed(Logging(m, m.now, addr, value, 5))
  {
  }

  /** create() sets the control block and nothing else. */
  function Created(m: Memory): Memory {
    m.(ctl := Control(|m.data| + OVERHEAD, 0, 0, 0, 0))
  }

  lemma CreatedIsEmpty(m: Memory)
    requires WellFormed(m) && 0 < |m.data| && |m.data| + OVERHEAD <= ADDRESS_LIMIT
    ensures Represents(Created(m), EMPTY) <==> Recovered(Created(m)) == Created(m).ctl
    ensures m.status != 2 ==> Represents(Created(m), EMPTY)
  {
    hide Redo;
    assert WellFormed(Created(m));
    assert Encode([]) == [];
  }

  class MemQueue {
    // Process-local: _size.
    var size: nat
    // The mapped segment: control block, modify head, buffer.
    var memSize: nat
    var top: nat
    var bot: nat
    var pushCount: nat
    var popCount: nat
    var status: nat
    var now: nat
    const journal: array<Entry>
    const data: array<Byte>
    // Every store made to the segment, in order, and the queue it stands for.
    ghost var stores: seq<Store>
    ghost var q: Queue

    ghost function Image(): Memory
      reads this, journal, data
    {
      Memory(Control(memSize, top, bot, pushCount, popCount), status, now, journal[..], data[..])
    }

    ghost predicate Valid()
      reads this, journal, data
    {
      size == data.Length + OVERHEAD && Represents(Image(), q)
    }

    /** Since the segment was m and the log of stores s, the first k stores of this script have been made. */
    ghost predicate Made(m: Memory, s: seq<Store>, script: seq<Store>, k: nat)
      requires k <= |script|
      reads this, journal, data
    {
      stores == s + script[..k] && Image() == After(m, script, k)
    }

    /** Since the segment was m and the log of stores s, exactly this script has been stored. */
    ghost predicate Did(m: Memory, s: seq<Store>, script: seq<Store>)
      reads this, journal, data
    {
      stores == s + script && Image() == ApplyAll(m, script)
    }

    /**
      Lays a queue out over the remains of another one. The modify head is left as it was found, so the queue is the
      empty one exactly when what the journal still holds does not redo anything else.
     */
    constructor Create(m: Memory, iSize: nat)
      requires WellFormed(m) && OVERHEAD < iSize == |m.data| + OVERHEAD <= ADDRESS_LIMIT
      ensures Image() == Created(m) && stores == [] && q == EMPTY && size == iSize
      ensures Valid() <==> Recovered(Created(m)) == Created(m).ctl
      ensures m.status != 2 ==> Valid()
    {
      size := iSize;
      memSize, top, bot, pushCount, popCount := iSize, 0, 0, 0, 0;
      status, now := m.status, m.now;
      journal := new Entry[|m.journal|](i requires 0 <= i < |m.journal| => m.journal[i]);
      data := new Byte[|m.data|](i requires 0 <= i < |m.data| => m.data[i]);
      stores, q := [], EMPTY;
      new;
      assert journal[..] == m.journal && data[..] == m.data;
      CreatedIsEmpty(m);
    }

    /** A new process maps whatever segment the last one left behind. */
    constructor Connect(m: Memory, iSize: nat, ghost queue: Queue)
      requires Represents(m, queue) && iSize == m.ctl.memSize == |m.data| + OVERHEAD
      ensures Valid() && q == queue && Image() == m && stores == []
    {
      size := m.ctl.memSize;
      memSize, top, bot, pushCount, popCount := m.ctl.memSize, m.ctl.top, m.ctl.bot, m.ctl.pushCount, m.ctl.popCount;
      status, now := m.status, m.now;
      journal := new Entry[|m.journal|](i requires 0 <= i < |m.journal| => m.journal[i]);
      data := new Byte[|m.data|](i requires 0 <= i < |m.data| => m.data[i]);
      stores, q := [], queue;
      new;
      assert journal[..] == m.journal && data[..] == m.data;
    }

    /** One store to the segment, the next of the script being carried out. */
    method Put(s: Store, ghost m: Memory, ghost log: seq<Store>, ghost script: seq<Store>, ghost k: nat)
      requires s.SetByte? ==> s.pos < data.Length
      requires s.SetControl? ==> IsField(s.addr)
      requires s.SetEntryAddr? || s.SetEntryBytes? || s.SetEntryValue? ==> s.slot < journal.Length
      requires k < |script| && script[k] == s && Made(m, log, script, k)
      modifies this, journal, data
      ensures Made(m, log, script, k + 1) && Image() == Apply(old(Image()), s)
      ensures q == old(q) && size == old(size)
    {
      match s {
        case SetControl(addr, value) =>
          if addr == MEM_SIZE { memSize := value; }
          else if addr == TOP { top := value; }
          else if addr == BOT { bot := value; }
          else if addr == PUSH_COUNT { pushCount := value; }
          else { popCount := value; }
        case SetStatus(value) => status := value;
        case SetNow(value) => now := value;
        case SetEntryAddr(slot, value) => journal[slot] := journal[slot].(addr := value);
        case SetEntryBytes(slot, value) => journal[slot] := journal[slot].(bytes := value);
        case SetEntryValue(slot, value) => journal[slot] := journal[slot].(value := value);
        case SetByte(pos, b) => data[pos] := b;
      }
      stores := stores + [s];
    }

    lemma NoneMade()
      ensures forall script :: Made(Image(), stores, script, 0)
    {
    }

    method WipeEntry(i: nat, ghost m: Memory, ghost log: seq<Store>, ghost script: seq<Store>)
      requires i < journal.Length && 1 + 3 * i + 2 < |script| && Made(m, log, script, 1 + 3 * i)
      requires script[1 + 3 * i] == SetEntryAddr(i, 0) && script[2 + 3 * i] == SetEntryBytes(i, 0)
      requires script[3 + 3 * i] == SetEntryValue(i, 0)
      modifies this, journal, data
      ensures Made(m, log, script, 1 + 3 * (i + 1))
      ensures q == old(q) && size == old(size)
    {
      hide Made;
      Put(SetEntryAddr(i, 0), m, log, script, 1 + 3 * i);
      Put(SetEntryBytes(i, 0), m, log, script, 2 + 3 * i);
      Put(SetEntryValue(i, 0), m, log, script, 3 + 3 * i);
    }

    /** doUpdate's branch for a journal that was never committed. */
    method RollBack()
      requires WellFormed(Image()) && status == 1
      modifies this, journal, data
      ensures Did(old(Image()), old(stores), Recover(old(Image())))
      ensures q == old(q) && size == old(size)
    {
      hide After, Wipe;
      ghost var m, log, script := Image(), stores, Recover(Image());
      RollbackAt(m);
      NoneMade();
      hide Recover, Made;
      Put(SetNow(0), m, log, script, 0);
      for i := 0 to JOURNAL_SLOTS
        invariant Made(m, log, script, 1 + 3 * i)
        invariant q == old(q) && size == old(size)
      {
        WipeEntry(i, m, log, script);
      }
      Put(SetStatus(0), m, log, script, 1 + 3 * JOURNAL_SLOTS);
    }

    /** doUpdate's branch for a committed journal. */
    method RedoJournal()
      requires WellFormed(Image()) && status == 2
      modifies this, journal, data
      ensures Did(old(Image()), old(stores), Recover(old(Image())))
      ensures q == old(q) && size == old(size)
    {
      ghost var m, log, script := Image(), stores, Recover(Image());
      for i := 0 to now
        invariant now == m.now && journal[..] == m.journal && Made(m, log, script, i)
        invariant q == old(q) && size == old(size)
      {
        assert journal[i] == m.journal[i] && script[i] == SetControl(m.journal[i].addr, m.journal[i].value);
        if journal[i].bytes == HEADER {
          Put(SetControl(journal[i].addr, journal[i].value), m, log, script, i);
        }
      }
      Put(SetNow(0), m, log, script, m.now);
      Put(SetStatus(0), m, log, script, m.now + 1);
    }

    method DoUpdate(bUpdate: bool)
      requires WellFormed(if bUpdate then Image().(status := 2) else Image())
      modifies this, journal, data
      ensures var m := if bUpdate then old(Image()).(status := 2) else old(Image());
              Did(old(Image()), old(stores), (if bUpdate then [SetStatus(2)] else []) + Recover(m))
      ensures q == old(q) && size == old(size)
    {
      hide After, Recover;
      ghost var first := if bUpdate then [SetStatus(2)] else [];
      ApplyNone(Image(), first);
      if bUpdate {
        Put(SetStatus(2), Image(), stores, first, 0);
      }
      ghost var m, log := Image(), stores;
      assert Did(old(Image()), old(stores), first);
      ThenApply(old(Image()), first, Recover(m));
      if status == 1 {
        RollBack();
      } else if status == 2 {
        RedoJournal();
      } else {
        NothingToRecover(m);
      }
      assert stores == log + Recover(m) && Image() == ApplyAll(m, Recover(m));
      assert old(stores) + first + Recover(m) == old(stores) + (first + Recover(m));
    }

    /** What every query does first, and all it does to the segment. */
    twostate predicate OnlyRecovered()
      reads this, journal, data
    {
      && old(Valid())
      && Valid() && Settled(Image())
      && q == old(q)
      && Image().ctl == Recovered(old(Image())) && data[..] == old(data[..])
      && Did(old(Image()), old(stores), Recover(old(Image())))
    }

    method Recovery()
      requires Valid()
      modifies this, journal, data
      ensures OnlyRecovered()
      ensures old(Settled(Image())) ==> Image() == old(Image()) && stores == old(stores)
    {
      RecoveryIsCrashProof(Image(), |Recover(Image())|);
      DoUpdate(false);
      assert [] + Recover(old(Image())) == Recover(old(Image()));
    }

    method QueueSize() returns (n: nat)
      requires Valid()
      modifies this, journal, data
      ensures OnlyRecovered() && n == data.Length
      ensures old(Settled(Image())) ==> Image() == old(Image()) && stores == old(stores)
    {
      Recovery();
      n := size - CONTROL_BYTES - JOURNAL_BYTES;
    }

    method IsEmpty() returns (r: bool)
      requires Valid()
      modifies this, journal, data
      ensures OnlyRecovered() && r == (q.msgs == [])
    {
      Recovery();
      UsedIsEncoded(Image().ctl, Image().data, q);
      r := top == bot;
    }

    method IsFull(iSize: nat) returns (r: bool)
      requires Valid() && iSize < STRING_LIMIT
      modifies this, journal, data
      ensures OnlyRecovered()
      ensures r == (q.msgs != [] && HEADER + iSize >= FreeBytes(q, data.Length))
    {
      Recovery();
      UsedIsEncoded(Image().ctl, Image().data, q);
      assert top + HEADER + iSize < TWO_64 && bot + data.Length < TWO_64;
      if top < bot {
        return top + HEADER + iSize >= bot;
      } else if top > bot {
        var n := QueueSize();
        return top + HEADER + iSize >= bot + n;
      }
      r := false;
    }

    method GetFreeSize() returns (n: nat)
      requires Valid()
      modifies this, journal, data
      ensures OnlyRecovered() && n == FreeBytes(q, data.Length)
    {
      Recovery();
      UsedIsEncoded(Image().ctl, Image().data, q);
      if top < bot {
        n := bot - top;
      } else if top > bot {
        var cap := QueueSize();
        n := cap - top + bot;
      } else {
        n := size - CONTROL_BYTES - JOURNAL_BYTES;
      }
    }

    method GetElementCount() returns (n: nat)
      requires Valid()
      modifies this, journal, data
      ensures OnlyRecovered() && n == ElementCount(q)
    {
      Recovery();
      if pushCount >= popCount {
        return pushCount - popCount;
      }
      n := (TWO_64 - 1) - popCount + pushCount;
    }

    method Update(addr: nat, value: nat)
      requires WellFormed(Image()) && IsField(addr) && now + 1 < JOURNAL_SLOTS && status <= 1
      modifies this, journal, data
      ensures Did(old(Image()), old(stores), LogEntry(old(now), addr, value))
      ensures Image() == Logging(old(Image()), old(now), addr, value, 5) && WellFormed(Image())
      ensures q == old(q) && size == old(size)
    {
      ghost var m, log, script := Image(), stores, LogEntry(now, addr, value);
      LogOnce(m, now, addr, value, 5);
      LogStores(now, addr, value);
      LoggedWellFormed(m, addr, value);
      NoneMade();
      hide After, LogEntry, Logging, WellFormed, Made;
      Put(SetStatus(1), m, log, script, 0);
      Put(SetEntryAddr(now, addr), m, log, script, 1);
      Put(SetEntryValue(now, value), m, log, script, 2);
      Put(SetEntryBytes(now, HEADER), m, log, script, 3);
      Put(SetNow(now + 1), m, log, script, 4);
    }

    /** update(a0, v0); update(a1, v1); doUpdate(true). */
    method UpdateBoth(a0: nat, v0: nat, a1: nat, v1: nat)
      requires Settled(Image()) && IsField(a0) && IsField(a1)
      modifies this, journal, data
      ensures Did(old(Image()), old(stores), Transact(a0, v0, a1, v1))
      ensures q == old(q) && size == old(size)
    {
      hide After;
      ghost var m, log := Image(), stores;
      Update(a0, v0);
      Update(a1, v1);
      ThenApply(m, LogEntry(0, a0, v0), LogEntry(1, a1, v1));
      ghost var logged := Image();
      DoUpdate(true);
      var commit := [SetStatus(2)] + Recover(logged.(status := 2));
      RedoTwo(logged.(status := 2));
      ThenApply(m, LogEntry(0, a0, v0) + LogEntry(1, a1, v1), commit);
      assert commit == Commit(a0, v0, a1, v1);
      assert stores == log + (LogEntry(0, a0, v0) + LogEntry(1, a1, v1) + commit);
    }

    /** Since the segment was m and the log s, these bytes have been written from index from onwards. */
    ghost predicate Wrote(m: Memory, s: seq<Store>, from: nat, bytes: seq<Byte>)
      reads this, journal, data
    {
      |m.data| == data.Length && Did(m, s, WriteBytes(|m.data|, from, bytes))
    }

    /** memcpy into the buffer, byte by byte; pos is where the write begun at from, now at so, goes on. */
    method CopyIn(pos: nat, bytes: seq<Byte>,
                  ghost m: Memory, ghost log: seq<Store>, ghost from: nat, ghost so: seq<Byte>)
      requires pos + |bytes| <= data.Length && Wrote(m, log, from, so)
      requires from + |so| + |bytes| <= 2 * data.Length
      requires pos == from + |so| || pos + data.Length == from + |so|
      modifies this, journal, data
      ensures Wrote(m, log, from, so + bytes)
      ensures q == old(q) && size == old(size)
    {
      hide After;
      ghost var m1, log1, script := Image(), stores, WriteBytes(data.Length, pos, bytes);
      ApplyNone(m1, script);
      for i := 0 to |bytes|
        invariant Made(m1, log1, script, i)
        invariant q == old(q) && size == old(size)
      {
        assert script[i] == SetByte(Phys(data.Length, pos + i), bytes[i]);
        Put(SetByte(pos + i, bytes[i]), m1, log1, script, i);
      }
      WriteBytesConcat(data.Length, from, so, bytes, pos);
      ThenApply(m, WriteBytes(data.Length, from, so), script);
    }

    /** The end of the buffer splits the length prefix. */
    method WriteSplitHeader(header: seq<Byte>, pvIn: Message, iLeftSize: nat)
      requires |header| == HEADER && HEADER + |pvIn| <= data.Length
      requires iLeftSize < HEADER && iLeftSize + top == data.Length
      modifies this, journal, data
      ensures Wrote(old(Image()), old(stores), old(top), header + pvIn)
      ensures q == old(q) && size == old(size)
    {
      ghost var m, log, at := Image(), stores, top;
      assert Wrote(m, log, at, []);
      if iLeftSize > 0 {
        CopyIn(top, header[..iLeftSize], m, log, at, []);
      }
      assert [] + header[..iLeftSize] == header[..iLeftSize];
      CopyIn(0, header[iLeftSize..], m, log, at, header[..iLeftSize]);
      assert header[..iLeftSize] + header[iLeftSize..] == header;
      CopyIn(HEADER - iLeftSize, pvIn, m, log, at, header);
    }

    /** The end of the buffer splits the payload. */
    method WriteSplitPayload(header: seq<Byte>, pvIn: Message, iLeftSize1: nat)
      requires |header| == HEADER && HEADER + |pvIn| <= data.Length
      requires iLeftSize1 < |pvIn| && HEADER + iLeftSize1 + top == data.Length
      modifies this, journal, data
      ensures Wrote(old(Image()), old(stores), old(top), header + pvIn)
      ensures q == old(q) && size == old(size)
    {
      ghost var m, log, at := Image(), stores, top;
      var iTopIndex := top;
      assert Wrote(m, log, at, []);
      CopyIn(iTopIndex, header, m, log, at, []);
      assert [] + header == header;
      if iLeftSize1 > 0 {
        CopyIn(iTopIndex + HEADER, pvIn[..iLeftSize1], m, log, at, header);
      } else {
        assert header + pvIn[..iLeftSize1] == header;
      }
      CopyIn(0, pvIn[iLeftSize1..], m, log, at, header + pvIn[..iLeftSize1]);
      assert header + pvIn[..iLeftSize1] + pvIn[iLeftSize1..] == header + pvIn;
    }

    /** push_back's three layouts: no wrap, length prefix split, payload split. */
    method WriteRecord(pvIn: Message) returns (next: nat)
      requires Valid() && Settled(Image()) && |pvIn| < TWO_64
      requires HEADER + |pvIn| <= data.Length
      modifies this, journal, data
      ensures Wrote(old(Image()), old(stores), old(top), Frame(pvIn))
      ensures next == Advance(data.Length, old(top), HEADER + |pvIn|)
      ensures q == old(q) && size == old(size)
    {
      var iSize, at, header := |pvIn|, top, ToLE(|pvIn|, HEADER);
      var n := QueueSize();
      if at + HEADER + iSize <= n {
        ghost var m, log := Image(), stores;
        assert Wrote(m, log, at, []);
        CopyIn(at, header, m, log, at, []);
        assert [] + header == header;
        CopyIn(at + HEADER, pvIn, m, log, at, header);
        next := at + HEADER + iSize;
      } else {
        var iLeftSize := n - at;
        if iLeftSize < HEADER {
          WriteSplitHeader(header, pvIn, iLeftSize);
          next := iSize + HEADER - iLeftSize;
        } else {
          var iLeftSize1 := iLeftSize - HEADER;
          WriteSplitPayload(header, pvIn, iLeftSize1);
          next := iSize - iLeftSize1;
        }
      }
    }

    /** What push_back does once isFull() said no. */
    method PushAdmitted(pvIn: Message, ghost m: Memory, ghost log: seq<Store>)
      requires Valid() && Settled(Image()) && |pvIn| < TWO_64
      requires HEADER + |pvIn| <= data.Length - Used(Image().ctl, data.Length)
      requires WellFormed(m) && Did(m, log, Recover(m))
      modifies this, journal, data
      ensures Did(m, log, Recover(m) + PushBody(old(Image()).ctl, data.Length, pvIn))
      ensures q == old(q) && size == old(size)
    {
      hide After, Transact, Recover, WriteBytes;
      ghost var m1, write := Image(), WriteBytes(data.Length, top, Frame(pvIn));
      ThenApply(m, Recover(m), write);
      PushFills(m1, q, pvIn, HEADER + |pvIn|);
      var next := WriteRecord(pvIn);
      ghost var log1 := Transact(TOP, next, PUSH_COUNT, (pushCount + 1) % TWO_64);
      ThenApply(m, Recover(m) + write, log1);
      UpdateBoth(TOP, next, PUSH_COUNT, (pushCount + 1) % TWO_64);
      assert Recover(m) + write + log1 == Recover(m) + (write + log1);
    }

    method PushBack(pvIn: Message) returns (ok: bool)
      requires Valid() && Fits(q, data.Length, pvIn)
      modifies this, journal, data
      ensures Valid() && Settled(Image())
      ensures ok == !Refuses(old(q), data.Length, pvIn)
      ensures q == AfterPush(old(q), data.Length, pvIn)
      ensures Pushed(old(q), data.Length, pvIn, ok, q)
      ensures Did(old(Image()), old(stores), PushScript(old(Image()), old(q), pvIn))
      ensures Atomic(old(Image()), PushScript(old(Image()), old(q), pvIn), old(q), q)
    {
      hide After;
      ghost var m, log := Image(), stores;
      var full := IsFull(|pvIn|);
      if full {
        assert PushScript(m, q, pvIn) == Recover(m);
      } else {
        Recovery();
        AdmittedFits(Image().ctl, Image().data, q, pvIn);
        assert PushScript(m, q, pvIn) == Recover(m) + PushBody(Image().ctl, data.Length, pvIn);
        PushAdmitted(pvIn, m, log);
      }
      PushIsAtomicAtEveryStore(m, q, pvIn);
      PushMeans(q, data.Length, pvIn);
      q := AfterPush(q, data.Length, pvIn);
      ok := !full;
    }

    /** memcpy out of the buffer: bytes lo..lo+n of the record that starts at bot. */
    method CopyOut(pos: nat, n: nat, ghost total: nat, ghost lo: nat) returns (bytes: seq<Byte>)
      requires bot <= data.Length && total <= data.Length && 0 < data.Length && lo + n <= total
      requires (pos == bot + lo && bot + lo + n <= data.Length) || pos + data.Length == bot + lo
      ensures bytes == Ring(data[..], bot, total)[lo..lo + n]
    {
      RingPiece(data[..], bot, total, lo, lo + n, pos);
      bytes := data[pos..pos + n];
    }

    /** pop_front's length prefix: whole, or split by the end of the buffer. */
    method ReadHeader() returns (iSize: nat)
      requires Valid() && Settled(Image()) && q.msgs != []
      modifies this, journal, data
      ensures Image() == old(Image()) && stores == old(stores) && q == old(q) && size == old(size)
      ensures iSize == |q.msgs[0]| && HEADER + iSize <= data.Length
      ensures Ring(data[..], bot, HEADER + iSize)[HEADER..] == q.msgs[0]
    {
      FrontRecord(Image().ctl, Image().data, q.msgs);
      var n := QueueSize();
      ghost var total := HEADER + |q.msgs[0]|;
      var header;
      if bot + HEADER <= n {
        header := CopyOut(bot, HEADER, total, 0);
      } else {
        var iLeftSize := n - bot;
        header := CopyOut(bot, iLeftSize, total, 0);
        var rest := CopyOut(0, HEADER - iLeftSize, total, iLeftSize);
        PieceJoin(Ring(data[..], bot, total), 0, iLeftSize, HEADER);
        header := header + rest;
      }
      assert header == Ring(data[..], bot, total)[0..HEADER];
      assert Ring(data[..], bot, total)[..HEADER] == Ring(data[..], bot, total)[0..HEADER];
      iSize := FromLE(header);
    }

    /** pop_front's payload: whole, or split; and the index after it. */
    method ReadRecord() returns (sOut: Message, next: nat)
      requires Valid() && Settled(Image()) && q.msgs != []
      modifies this, journal, data
      ensures Image() == old(Image()) && stores == old(stores) && q == old(q) && size == old(size)
      ensures sOut == q.msgs[0] && HEADER + |sOut| <= data.Length
      ensures next == Advance(data.Length, bot, HEADER + |sOut|)
    {
      var iSize := ReadHeader();
      var n := QueueSize();
      ghost var total := HEADER + iSize;
      if bot + HEADER <= n {
        if bot + HEADER + iSize <= n {
          sOut := CopyOut(bot + HEADER, iSize, total, HEADER);
          next := bot + HEADER + iSize;
        } else {
          var iLeftSize := n - bot - HEADER;
          sOut := CopyOut(bot + HEADER, iLeftSize, total, HEADER);
          var rest := CopyOut(0, iSize - iLeftSize, total, HEADER + iLeftSize);
          sOut := sOut + rest;
          next := iSize - iLeftSize;
        }
      } else {
        var iLeftSize := n - bot;
        sOut := CopyOut(HEADER - iLeftSize, iSize, total, HEADER);
        next := iSize + HEADER - iLeftSize;
      }
      assert sOut == Ring(data[..], bot, total)[HEADER..];
    }

    /** What pop_front does once isEmpty() said no. */
    method PopPresent(ghost m: Memory, ghost log: seq<Store>) returns (sOut: Message)
      requires Valid() && Settled(Image()) && q.msgs != []
      requires WellFormed(m) && Did(m, log, Recover(m))
      modifies this, journal, data
      ensures sOut == old(q).msgs[0] && HEADER + |sOut| <= data.Length
      ensures Did(m, log, Recover(m) + PopBody(old(Image()).ctl, data.Length, |sOut|))
      ensures q == old(q) && size == old(size)
    {
      hide After, Recover, Transact;
      var next;
      sOut, next := ReadRecord();
      ghost var body := PopBody(Image().ctl, data.Length, |sOut|);
      UpdateBoth(BOT, next, POP_COUNT, (popCount + 1) % TWO_64);
      ThenApply(m, Recover(m), body);
      assert stores == log + (Recover(m) + body);
    }

    method PopFront() returns (ok: bool, sOut: Message)
      requires Valid()
      modifies this, journal, data
      ensures Valid() && Settled(Image())
      ensures ok == (old(q).msgs != []) && (ok ==> sOut == old(q).msgs[0])
      ensures q == AfterPop(old(q))
      ensures Popped(old(q), ok, sOut, q)
      ensures Did(old(Image()), old(stores), PopScript(old(Image()), old(q)))
      ensures Atomic(old(Image()), PopScript(old(Image()), old(q)), old(q), q)
    {
      hide After;
      ghost var m, log := Image(), stores;
      sOut := [];
      var empty := IsEmpty();
      if empty {
        assert PopScript(m, q) == Recover(m);
      } else {
        Recovery();
        sOut := PopPresent(m, log);
      }
      PopIsAtomicAtEveryStore(m, q);
      PopMeans(q);
      q := AfterPop(q);
      ok := !empty;
    }
  }
}
