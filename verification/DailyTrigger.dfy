/** ClearThread: a polling loop that is to clear once in every occurrence of one hour of the day. */
module DailyTrigger {
  import opened Text

  const HOUR := 3600
  // Polls come about every ten minutes; all that matters is that readings are less than this apart.
  const HALF_HOUR := 1800

  /** The two clock readings of one poll, in seconds. */
  datatype Poll = Poll(now: nat, later: nat)

  function HourOfDay(t: nat): (h: nat)
    ensures h < 24
  {
    t / HOUR % 24
  }

  function NextHour(h: nat): nat {
    if h == 23 then 0 else h + 1
  }

  /** sprintf("%d") of an hour. */
  function HourText(h: nat): string
    requires h < 24
  {
    var digits := "0123456789";
    if h < 10 then [digits[h]] else [digits[h / 10], digits[h % 10]]
  }

  /** It is the hour in decimal, without a leading zero. */
  lemma HourIsDecimal(h: nat)
    requires h < 24
    ensures HourText(h) == Decimal(h)
  {
    if h >= 10 {
      assert Decimal(h / 10) == [Digit(h / 10)];
    }
  }

  lemma HourTextInjective(a: nat, b: nat)
    requires a < 24 && b < 24 && HourText(a) == HourText(b)
    ensures a == b
  {
    var digits := "0123456789";
    assert forall i, j :: 0 <= i < j < 10 ==> digits[i] != digits[j];
    assert HourText(a)[|HourText(a)| - 1] == digits[a % 10] && HourText(b)[|HourText(b)| - 1] == digits[b % 10];
    if a >= 10 {
      assert HourText(a)[0] == digits[a / 10] && HourText(b)[0] == digits[b / 10];
    }
  }

  predicate Clears(hour: string, tags: bool, p: Poll) {
    hour == HourText(HourOfDay(p.now)) && tags
  }

  predicate Rearms(hour: string, p: Poll) {
    hour == HourText(NextHour(HourOfDay(p.later)))
  }

  function TagsAfter(hour: string, tags: bool, p: Poll): bool {
    Rearms(hour, p) || (tags && !Clears(hour, tags, p))
  }

  /** _fresh_tags before poll i; it starts as true. */
  function Tags(hour: string, polls: seq<Poll>, i: nat): bool
    requires i <= |polls|
  {
    if i == 0 then true else TagsAfter(hour, Tags(hour, polls, i - 1), polls[i - 1])
  }

  predicate ClearsAt(hour: string, polls: seq<Poll>, i: nat)
    requires i < |polls|
  {
    Clears(hour, Tags(hour, polls, i), polls[i])
  }

  /** Poll i clears in the d-th hour since the epoch. */
  predicate ClearsIn(hour: string, polls: seq<Poll>, d: nat, i: nat)
    requires i < |polls|
  {
    ClearsAt(hour, polls, i) && polls[i].now / 3600 == d
  }

  ghost predicate Follows(a: Poll, b: Poll) {
    a.later <= b.now < a.now + HALF_HOUR
  }

  ghost predicate Steady(polls: seq<Poll>) {
    && (forall i :: 0 <= i < |polls| ==> polls[i].now <= polls[i].later < polls[i].now + HALF_HOUR)
    && (forall i :: 0 < i < |polls| ==> Follows(polls[i - 1], polls[i]))
  }

  lemma {:induction false} Monotone(polls: seq<Poll>, i: nat, j: nat)
    requires Steady(polls) && i <= j < |polls|
    ensures polls[i].now <= polls[j].now
    ensures i < j ==> polls[i].later <= polls[j].now
    decreases j - i
  {
    if i < j {
      assert Follows(polls[j - 1], polls[j]);
      Monotone(polls, i, j - 1);
    }
  }

  lemma NextHourIs(t: nat)
    ensures NextHour(HourOfDay(t)) == (t / HOUR + 1) % 24
  {
    var e := t / HOUR;
    assert e == (e / 24) * 24 + e % 24;
  }

  lemma NeighbouringHours(d: nat)
    ensures (d + 1) % 24 != d % 24 && (d + 2) % 24 != d % 24 && (d > 0 ==> (d - 1) % 24 != d % 24)
  {
  }

  /** When a poll falls into the trigger hour and when it re-arms, in whole hours. */
  lemma HoursDecide(hour: nat, d: nat, p: Poll)
    requires hour < 24 && d % 24 == hour
    ensures p.now / HOUR == d ==> HourText(hour) == HourText(HourOfDay(p.now))
    ensures p.now / HOUR == d - 1 ==> HourText(hour) != HourText(HourOfDay(p.now))
    ensures p.later / HOUR == d - 1 ==> Rearms(HourText(hour), p)
    ensures d <= p.later / HOUR <= d + 1 ==> !Rearms(HourText(hour), p)
  {
    hide HourText;
    var now, e := p.now / HOUR, p.later / HOUR;
    NextHourIs(p.later);
    NeighbouringHours(d);
    if HourText(hour) == HourText(HourOfDay(p.now)) {
      HourTextInjective(hour, HourOfDay(p.now));
    }
    if Rearms(HourText(hour), p) {
      HourTextInjective(hour, NextHour(HourOfDay(p.later)));
    }
  }

  /** The poll that first sees the trigger hour finds the tag set. */
  lemma ArmedOnEntry(hour: nat, polls: seq<Poll>, d: nat, j: nat)
    requires hour < 24 && d % 24 == hour && Steady(polls) && j < |polls|
    requires polls[j].now >= d * HOUR && (j > 0 ==> polls[j - 1].now < d * HOUR)
    ensures Tags(HourText(hour), polls, j)
  {
    if j > 0 {
      assert Follows(polls[j - 1], polls[j]);
      var p := polls[j - 1];
      HoursDecide(hour, d, p);
      assert p.now / HOUR == d - 1;
      if p.later >= d * HOUR && j > 1 {
        assert Follows(polls[j - 2], p);
        HoursDecide(hour, d, polls[j - 2]);
        assert polls[j - 2].later / HOUR == d - 1;
        assert Tags(HourText(hour), polls, j - 1);
      }
      assert Tags(HourText(hour), polls, j) == TagsAfter(HourText(hour), Tags(HourText(hour), polls, j - 1), p);
    }
  }

  /** After a clear the tag stays down for the rest of the hour. */
  lemma {:induction false} DisarmedForTheHour(hour: nat, polls: seq<Poll>, d: nat, j: nat, k: nat)
    requires hour < 24 && d % 24 == hour && Steady(polls) && j < k < |polls|
    requires ClearsIn(HourText(hour), polls, d, j) && polls[k].now / HOUR == d
    ensures !Tags(HourText(hour), polls, k)
    decreases k - j
  {
    var p := polls[k - 1];
    Monotone(polls, j, k - 1);
    Monotone(polls, k - 1, k);
    assert p.now / HOUR == d;
    HoursDecide(hour, d, p);
    assert p.later / HOUR <= d + 1;
    if k - 1 > j {
      DisarmedForTheHour(hour, polls, d, j, k - 1);
    }
  }

  lemma {:induction false} FirstReading(polls: seq<Poll>, t: nat, n: nat) returns (j: nat)
    requires n < |polls| && polls[n].now >= t
    ensures j <= n && polls[j].now >= t && (j > 0 ==> polls[j - 1].now < t)
    decreases n
  {
    if n == 0 || polls[n - 1].now < t {
      j := n;
    } else {
      j := FirstReading(polls, t, n - 1);
    }
  }

  /**
    Once a day: in every occurrence d of the trigger hour that the run spans (it has started before the
    hour is over, and goes on past it) exactly one poll clears.
   */
  lemma ClearsOncePerDay(hour: nat, polls: seq<Poll>, d: nat)
    requires hour < 24 && d % 24 == hour && Steady(polls)
    requires polls != [] && polls[0].now < (d + 1) * 3600 && polls[|polls| - 1].now >= (d + 1) * 3600
    ensures exists j :: 0 <= j < |polls| && ClearsIn(HourText(hour), polls, d, j) &&
                        forall k :: 0 <= k < |polls| && ClearsIn(HourText(hour), polls, d, k) ==> k == j
  {
    var j := FirstReading(polls, d * HOUR, |polls| - 1);
    if j > 0 {
      assert Follows(polls[j - 1], polls[j]);
    }
    assert polls[j].now / HOUR == d;
    HoursDecide(hour, d, polls[j]);
    ArmedOnEntry(hour, polls, d, j);
    assert ClearsIn(HourText(hour), polls, d, j);
    forall k | 0 <= k < |polls| && ClearsIn(HourText(hour), polls, d, k) ensures k == j {
      if k < j {
        Monotone(polls, k, j - 1);
      } else if k > j {
        DisarmedForTheHour(hour, polls, d, j, k);
      }
    }
  }

  /** A configured hour that is not written as "%d" writes it ("07", say) never triggers. */
  lemma OddHourNeverClears(hour: string, polls: seq<Poll>, i: nat)
    requires i < |polls| && forall h: nat :: h < 24 ==> hour != HourText(h)
    ensures !ClearsAt(hour, polls, i)
  {
  }

  class ClearThread {
    const freshHour: string
    var freshTags: bool

    constructor (hour: string)
      ensures freshHour == hour && freshTags
    {
      freshHour, freshTags := hour, true;
    }

    /** getAbTimeOfHour(now): this hour's name, or the next one's. */
    method GetAbTimeOfHour(t: nat, now: bool) returns (ret: string)
      ensures ret == HourText(if now then HourOfDay(t) else NextHour(HourOfDay(t)))
    {
      var hour := HourOfDay(t);
      if now {
        ret := HourText(hour);
      } else {
        var cleanHour := hour + 1;
        if hour == 23 {
          cleanHour := 0;
        }
        ret := HourText(cleanHour);
      }
    }

    /** The body of run(), for these clock readings; cleared[i] says whether poll i called clear(). */
    method Run(polls: seq<Poll>) returns (cleared: seq<bool>)
      requires freshTags
      modifies this
      ensures |cleared| == |polls| && forall i :: 0 <= i < |polls| ==> cleared[i] == ClearsAt(freshHour, polls, i)
      ensures freshTags == Tags(freshHour, polls, |polls|)
    {
      hide HourText, HourOfDay, NextHour;
      cleared := [];
      for i := 0 to |polls|
        invariant |cleared| == i && freshTags == Tags(freshHour, polls, i)
        invariant forall k :: 0 <= k < i ==> cleared[k] == ClearsAt(freshHour, polls, k)
      {
        var clear := false;
        var hour := GetAbTimeOfHour(polls[i].now, true);
        if freshHour == hour && freshTags {
          clear := true;
          freshTags := false;
        }
        hour := GetAbTimeOfHour(polls[i].later, false);
        if freshHour == hour {
          freshTags := true;
        }
        cleared := cleared + [clear];
      }
    }
  }
}
