/**
  The circular byte buffer as a sequence of length-prefixed records, and the FIFO queue it stands for.
 */
module QueueRing {
  import opened Bytes
  import opened QueueMemory

  type Message = seq<Byte>

  /** What a reader of the queue sees: the unread messages, the two counters, and whether nothing was ever pushed. */
  datatype Queue = Queue(msgs: seq<Message>, pushed: nat, popped: nat, virgin: bool)

  /** One record: an 8-byte length and the payload. */
  function Frame(msg: Message): (r: seq<Byte>)
    ensures |r| == HEADER + |msg|
  {
    ToLE(|msg|, HEADER) + msg
  }

  function Encode(msgs: seq<Message>): seq<Byte> {
    if msgs == [] then [] else Frame(msgs[0]) + Encode(msgs[1..])
  }

  lemma {:induction false} EncodeSnoc(msgs: seq<Message>, msg: Message)
    ensures Encode(msgs + [msg]) == Encode(msgs) + Frame(msg)
  {
    hide Frame;
    if msgs == [] {
      assert msgs + [msg] == [msg];
      assert [msg][1..] == [];
    } else {
      EncodeSnoc(msgs[1..], msg);
      var all, head := msgs + [msg], Frame(msgs[0]);
      assert all[0] == msgs[0] && all[1..] == msgs[1..] + [msg];
      assert Encode(all) == head + Encode(all[1..]);
      assert head + (Encode(msgs[1..]) + Frame(msg)) == head + Encode(msgs[1..]) + Frame(msg);
    }
  }

  ghost predicate Sized(msgs: seq<Message>) {
    forall i :: 0 <= i < |msgs| ==> |msgs[i]| < TWO_64
  }

  lemma FrameHeader(msg: Message, rest: seq<Byte>)
    requires |msg| < TWO_64
    ensures FromLE((Frame(msg) + rest)[..HEADER]) == |msg|
    ensures (Frame(msg) + rest)[HEADER..HEADER + |msg|] == msg
    ensures (Frame(msg) + rest)[HEADER + |msg|..] == rest
  {
    Pow256Of8();
    LittleEndianRoundTrip(|msg|, HEADER);
    assert (Frame(msg) + rest)[..HEADER] == ToLE(|msg|, HEADER);
  }

  /** The records are a prefix code, so the bytes between bot and top determine the messages. */
  lemma {:induction false} EncodeInjective(a: seq<Message>, b: seq<Message>)
    requires Sized(a) && Sized(b) && Encode(a) == Encode(b)
    ensures a == b
  {
    if a == [] || b == [] {
      assert |Encode(a)| == 0;
    } else {
      FrameHeader(a[0], Encode(a[1..]));
      FrameHeader(b[0], Encode(b[1..]));
      EncodeInjective(a[1..], b[1..]);
      assert a == [a[0]] + a[1..] && b == [b[0]] + b[1..];
    }
  }

  // ---------------------------------------------------------------- the ring

  /** An index may equal the capacity; it then names the same byte as 0. */
  function Phys(cap: nat, x: nat): nat {
    if x >= cap then x - cap else x
  }

  /** How far ahead of index from the byte p lies. */
  function Ahead(cap: nat, from: nat, p: nat): nat
    requires from <= cap && p < cap
  {
    if p >= from then p - from else p + cap - from
  }

  function Ring(data: seq<Byte>, from: nat, n: nat): (r: seq<Byte>)
    requires from <= |data| && n <= |data| && 0 < |data|
    ensures |r| == n
  {
    seq(n, i requires 0 <= i < n => data[Phys(|data|, from + i)])
  }

  function Used(c: Control, cap: nat): nat
    requires c.top <= cap && c.bot <= cap
  {
    if c.top >= c.bot then c.top - c.bot else c.top + cap - c.bot
  }

  /** The index n bytes further on: stays put at the capacity, wraps only when it would pass it. */
  function Advance(cap: nat, from: nat, n: nat): nat
    requires from <= cap && n <= cap
  {
    if from + n <= cap then from + n else from + n - cap
  }

  ghost predicate Holds(c: Control, data: seq<Byte>, msgs: seq<Message>) {
    && 0 < |data|
    && c.memSize == |data| + OVERHEAD <= ADDRESS_LIMIT
    && c.top <= |data| && c.bot <= |data|
    && (c.top == 0 ==> c.bot == 0)
    && Sized(msgs)
    && Encode(msgs) == Ring(data, c.bot, Used(c, |data|))
  }

  ghost predicate Stands(c: Control, data: seq<Byte>, q: Queue) {
    && Holds(c, data, q.msgs)
    && c.pushCount == q.pushed < TWO_64
    && c.popCount == q.popped < TWO_64
    && (q.virgin <==> c.top == 0)
  }

  /** The queue a segment stands for is read off what recovery will make of it. */
  ghost predicate Represents(m: Memory, q: Queue) {
    WellFormed(m) && Stands(Recovered(m), m.data, q)
  }

  /** A segment stands for at most one queue. */
  lemma RepresentsIsFunctional(m: Memory, a: Queue, b: Queue)
    requires Represents(m, a) && Represents(m, b)
    ensures a == b
  {
    EncodeInjective(a.msgs, b.msgs);
  }

  // ---------------------------------------------------------------- the FIFO specification

  function FreeBytes(q: Queue, cap: nat): int {
    cap - |Encode(q.msgs)|
  }

  predicate Refuses(q: Queue, cap: nat, msg: Message) {
    q.msgs != [] && HEADER + |msg| >= FreeBytes(q, cap)
  }

  /** A record as long as the whole buffer brings top back onto bot, except in a buffer never pushed to. */
  predicate Vanishes(q: Queue, cap: nat, msg: Message) {
    q.msgs == [] && HEADER + |msg| == cap && !q.virgin
  }

  function AfterPush(q: Queue, cap: nat, msg: Message): Queue {
    if Refuses(q, cap, msg) then q
    else Queue(if Vanishes(q, cap, msg) then [] else q.msgs + [msg], (q.pushed + 1) % TWO_64, q.popped, false)
  }

  function AfterPop(q: Queue): Queue {
    if q.msgs == [] then q
    else q.(msgs := q.msgs[1..], popped := (q.popped + 1) % TWO_64)
  }

  // ---------------------------------------------------------------- ring lemmas

  /** What free and occupied bytes mean on the indices. */
  lemma UsedIsEncoded(c: Control, data: seq<Byte>, q: Queue)
    requires Stands(c, data, q)
    ensures Used(c, |data|) == |Encode(q.msgs)| <= |data|
    ensures c.top == c.bot <==> q.msgs == []
  {
    if q.msgs != [] {
      assert |Encode(q.msgs)| >= |Frame(q.msgs[0])|;
    }
  }

  lemma UsedAfterPush(c: Control, cap: nat, n: nat)
    requires c.top <= cap && c.bot <= cap && (c.top == 0 ==> c.bot == 0) && 0 < n <= cap
    requires c.top == c.bot || n < cap - Used(c, cap)
    ensures Advance(cap, c.top, n) > 0
    ensures Used(c.(top := Advance(cap, c.top, n)), cap) ==
            if c.top == c.bot && n == cap && c.top != 0 then 0 else Used(c, cap) + n
  {
  }

  lemma RingConcat(data: seq<Byte>, from: nat, a: nat, next: nat, b: nat)
    requires 0 < |data| && from <= |data| && a + b <= |data|
    requires next <= |data| && (next == from + a || next + |data| == from + a)
    ensures Ring(data, from, a + b) == Ring(data, from, a) + Ring(data, next, b)
  {
    var whole, parts := Ring(data, from, a + b), Ring(data, from, a) + Ring(data, next, b);
    forall i | 0 <= i < a + b ensures whole[i] == parts[i] {
      if i >= a {
        assert Phys(|data|, from + i) == Phys(|data|, next + (i - a));
      }
    }
  }

  /** Writing a record past the occupied bytes appends it to what the ring reads. */
  lemma PushHolds(c: Control, data: seq<Byte>, data': seq<Byte>, msgs: seq<Message>, msg: Message)
    requires Holds(c, data, msgs) && |data'| == |data|
    requires HEADER + |msg| <= |data| && |msg| < TWO_64
    requires c.top == c.bot || HEADER + |msg| < |data| - Used(c, |data|)
    requires Ring(data', c.bot, Used(c, |data|)) == Ring(data, c.bot, Used(c, |data|))
    requires Ring(data', c.top, HEADER + |msg|) == Frame(msg)
    ensures var c' := c.(top := Advance(|data|, c.top, HEADER + |msg|));
            Holds(c', data', if c.top == c.bot && HEADER + |msg| == |data| && c.top != 0 then [] else msgs + [msg])
  {
    UsedAfterPush(c, |data|, HEADER + |msg|);
    EncodeSnoc(msgs, msg);
    RingConcat(data', c.bot, Used(c, |data|), c.top, HEADER + |msg|);
  }

  /** The record at bot, read through the ring. */
  lemma FrontRecord(c: Control, data: seq<Byte>, msgs: seq<Message>)
    requires Holds(c, data, msgs) && msgs != []
    ensures HEADER + |msgs[0]| <= Used(c, |data|) <= |data|
    ensures Ring(data, c.bot, HEADER + |msgs[0]|) == Frame(msgs[0])
    ensures FromLE(Ring(data, c.bot, HEADER + |msgs[0]|)[..HEADER]) == |msgs[0]|
  {
    var u := Used(c, |data|);
    var whole := Ring(data, c.bot, u);
    assert whole == Frame(msgs[0]) + Encode(msgs[1..]);
    var n := HEADER + |msgs[0]|;
    assert Ring(data, c.bot, n) == whole[..n];
    FrameHeader(msgs[0], []);
    assert Frame(msgs[0]) + [] == Frame(msgs[0]);
  }

  lemma PopHolds(c: Control, data: seq<Byte>, msgs: seq<Message>)
    requires Holds(c, data, msgs) && msgs != []
    ensures HEADER + |msgs[0]| <= |data|
    ensures Holds(c.(bot := Advance(|data|, c.bot, HEADER + |msgs[0]|)), data, msgs[1..])
  {
    FrontRecord(c, data, msgs);
    var n, u := HEADER + |msgs[0]|, Used(c, |data|);
    var c' := c.(bot := Advance(|data|, c.bot, n));
    assert Used(c', |data|) == u - n;
    RingConcat(data, c.bot, n, c'.bot, u - n);
    assert Ring(data, c.bot, u)[n..] == Encode(msgs[1..]);
    assert Ring(data, c.bot, u)[n..] == Ring(data, c'.bot, u - n);
  }

  lemma PushStands(c: Control, data: seq<Byte>, data': seq<Byte>, q: Queue, msg: Message)
    requires Stands(c, data, q) && |data'| == |data|
    requires HEADER + |msg| <= |data| && |msg| < TWO_64 && !Refuses(q, |data|, msg)
    requires Ring(data', c.bot, Used(c, |data|)) == Ring(data, c.bot, Used(c, |data|))
    requires Ring(data', c.top, HEADER + |msg|) == Frame(msg)
    ensures Stands(c.(top := Advance(|data|, c.top, HEADER + |msg|), pushCount := (c.pushCount + 1) % TWO_64),
                   data', AfterPush(q, |data|, msg))
  {
    UsedIsEncoded(c, data, q);
    UsedAfterPush(c, |data|, HEADER + |msg|);
    PushHolds(c, data, data', q.msgs, msg);
  }

  lemma PopStands(c: Control, data: seq<Byte>, q: Queue)
    requires Stands(c, data, q) && q.msgs != []
    ensures HEADER + |q.msgs[0]| <= |data|
    ensures Stands(c.(bot := Advance(|data|, c.bot, HEADER + |q.msgs[0]|), popCount := (c.popCount + 1) % TWO_64),
                   data, AfterPop(q))
  {
    UsedIsEncoded(c, data, q);
    PopHolds(c, data, q.msgs);
  }
}
