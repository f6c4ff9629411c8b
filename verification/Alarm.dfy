/** The alarm clock of devices/timer.c: timer_sleep and the wake-up loop of
    timer_interrupt. */
module Alarm {
  import opened Prelude

  /** struct foo on the stack of one timer_sleep call; no numbers the calls. */
  datatype Sleeper = Sleeper(wake: int, t: Tid, no: nat)

  datatype Clock = Clock(ticks: int, calls: nat, list: seq<Sleeper>)

  // ------------------------------------------------------------ operations

  /** list_insert_ordered with time_less. */
  function InsertByTime(list: seq<Sleeper>, x: Sleeper): (r: seq<Sleeper>) {
    if list == [] then [x]
    else if x.wake < list[0].wake then [x] + list
    else [list[0]] + InsertByTime(list[1..], x)
  }

  /** The loop of timer_interrupt: how many sleepers lead the list that are due
      at tick now; it stops at the first that is not. */
  function DuePrefix(list: seq<Sleeper>, now: int): (k: nat)
    ensures k <= |list|
  {
    if list == [] || list[0].wake > now then 0 else 1 + DuePrefix(list[1..], now)
  }

  datatype Event = Sleep(t: Tid, n: int) | Tick

  function Apply(c: Clock, e: Event): (r: Clock) {
    match e
    case Sleep(t, n) =>
      Clock(c.ticks, c.calls + 1, InsertByTime(c.list, Sleeper(c.ticks + n, t, c.calls)))
    case Tick => Clock(c.ticks + 1, c.calls, c.list[DuePrefix(c.list, c.ticks + 1)..])
  }

  /** The threads unblocked by an event, in order. */
  function Woken(c: Clock, e: Event): (r: seq<Sleeper>) {
    if e.Tick? then c.list[..DuePrefix(c.list, c.ticks + 1)] else []
  }

  // ------------------------------------------------------------- invariant

  /** Earlier wake-up time first; for equal times, earlier call first. */
  predicate Precedes(a: Sleeper, b: Sleeper) {
    a.wake < b.wake || (a.wake == b.wake && a.no < b.no)
  }

  ghost predicate Ordered(list: seq<Sleeper>) {
    forall i, j :: 0 <= i < j < |list| ==> Precedes(list[i], list[j])
  }

  ghost predicate ClockInv(c: Clock) {
    Ordered(c.list) && forall i :: 0 <= i < |c.list| ==> c.list[i].no < c.calls
  }

  lemma {:induction false} InsertKeeps(list: seq<Sleeper>, x: Sleeper)
    requires Ordered(list) && forall i :: 0 <= i < |list| ==> list[i].no < x.no
    ensures Ordered(InsertByTime(list, x))
    ensures forall y :: y in InsertByTime(list, x) <==> y in list || y == x
  {
    if list != [] {
      if x.wake < list[0].wake {
        assert forall i :: 0 <= i < |list| ==> Precedes(x, list[i]);
      } else {
        var rest := list[1..];
        InsertKeeps(rest, x);
        var r := InsertByTime(rest, x);
        forall i | 0 <= i < |r| ensures Precedes(list[0], r[i]) {
          assert r[i] in rest || r[i] == x;
        }
        assert list == [list[0]] + rest;
      }
    }
  }

  /** Stopping at the first sleeper that is not due misses nobody. */
  lemma {:induction false} EarlyExitIsFullScan(list: seq<Sleeper>, now: int)
    requires Ordered(list)
    ensures forall i :: 0 <= i < |list| ==> (i < DuePrefix(list, now) <==> list[i].wake <= now)
  {
    if list != [] && list[0].wake <= now {
      EarlyExitIsFullScan(list[1..], now);
      forall i | 0 < i < |list| ensures i < DuePrefix(list, now) <==> list[i].wake <= now {
        assert list[1..][i - 1] == list[i];
      }
    }
  }

  lemma ApplyKeeps(c: Clock, e: Event)
    requires ClockInv(c)
    ensures ClockInv(Apply(c, e))
  {
    if e.Sleep? {
      var x := Sleeper(c.ticks + e.n, e.t, c.calls);
      InsertKeeps(c.list, x);
      var r := InsertByTime(c.list, x);
      forall i | 0 <= i < |r| ensures r[i].no < c.calls + 1 {
        assert r[i] in c.list || r[i] == x;
      }
    }
  }

  // -------------------------------------------------------------- every run

  ghost predicate Run(states: seq<Clock>, events: seq<Event>) {
    && |states| == |events| + 1
    && states[0].list == []
    && forall i :: 0 <= i < |events| ==> states[i + 1] == Apply(states[i], events[i])
  }

  lemma {:induction false} RunInv(states: seq<Clock>, events: seq<Event>, i: nat)
    requires Run(states, events) && i < |states|
    ensures ClockInv(states[i])
    decreases i
  {
    if i > 0 {
      RunInv(states, events, i - 1);
      ApplyKeeps(states[i - 1], events[i - 1]);
    }
  }

  /** The tick at which a sleep of n ticks called at tick s ends. */
  function WakeTick(s: int, n: int): (w: int) {
    if n >= 1 then s + n else s + 1
  }

  /** Cutting the list after its first k sleepers, when exactly those are due. */
  lemma CutMember(list: seq<Sleeper>, k: nat, now: int, x: Sleeper)
    requires k <= |list| && forall i :: 0 <= i < |list| ==> (i < k <==> list[i].wake <= now)
    ensures x in list[..k] <==> x in list && x.wake <= now
    ensures x in list[k..] <==> x in list && x.wake > now
  {
    if x in list {
      var i :| 0 <= i < |list| && list[i] == x;
      assert list == list[..k] + list[k..];
      if i < k {
        assert list[..k][i] == x;
      } else {
        assert list[k..][i - k] == x;
      }
    }
  }

  /** What an event does to one sleeper that it did not itself add. */
  lemma ApplyMember(c: Clock, e: Event, x: Sleeper)
    requires ClockInv(c) && x.no < c.calls
    ensures x in Apply(c, e).list <==> x in c.list && (e.Tick? ==> x.wake > c.ticks + 1)
    ensures x in Woken(c, e) <==> x in c.list && e.Tick? && x.wake <= c.ticks + 1
  {
    if e.Sleep? {
      InsertKeeps(c.list, Sleeper(c.ticks + e.n, e.t, c.calls));
    } else {
      EarlyExitIsFullScan(c.list, c.ticks + 1);
      hide Ordered, DuePrefix;
      CutMember(c.list, DuePrefix(c.list, c.ticks + 1), c.ticks + 1, x);
    }
  }

  lemma {:induction false} CallsGrow(states: seq<Clock>, events: seq<Event>, i: nat, j: nat)
    requires Run(states, events) && i <= j < |states|
    ensures states[i].calls <= states[j].calls && states[i].ticks <= states[j].ticks
    decreases j
  {
    if i < j { CallsGrow(states, events, i, j - 1); }
  }

  /** A sleeper that is listed exactly before tick max (x.wake, s + 1) stays so. */
  lemma StillExact(c: Clock, e: Event, x: Sleeper, s: int)
    requires ClockInv(c) && x.no < c.calls && s <= c.ticks
    requires x in c.list <==> c.ticks < WakeTick(s, x.wake - s)
    ensures x in Apply(c, e).list <==> Apply(c, e).ticks < WakeTick(s, x.wake - s)
  {
    ApplyMember(c, e, x);
    hide Ordered, DuePrefix, InsertByTime, ClockInv;
  }

  /** A thread that calls timer_sleep(n) at tick s is on the list in exactly
      those later states whose tick is before max (s + n, s + 1). */
  lemma {:induction false} SleepsUntil(states: seq<Clock>, events: seq<Event>, i: nat, j: nat)
    requires Run(states, events) && i < j < |states| && events[i].Sleep?
    ensures
      var s, n := states[i].ticks, events[i].n;
      Sleeper(s + n, events[i].t, states[i].calls) in states[j].list <==> states[j].ticks < WakeTick(s, n)
    decreases j
  {
    var s, n := states[i].ticks, events[i].n;
    var x := Sleeper(s + n, events[i].t, states[i].calls);
    RunInv(states, events, j - 1);
    if j == i + 1 {
      hide Ordered, DuePrefix, InsertByTime;
      InsertKeeps(states[i].list, x);
    } else {
      SleepsUntil(states, events, i, j - 1);
      CallsGrow(states, events, i + 1, j - 1);
      hide ClockInv, Ordered, DuePrefix, InsertByTime;
      StillExact(states[j - 1], events[j - 1], x, s);
    }
  }

  /** It is unblocked by exactly the interrupt that moves the clock to that tick. */
  lemma WokenExactly(states: seq<Clock>, events: seq<Event>, i: nat, j: nat)
    requires Run(states, events) && i < j < |events| && events[i].Sleep?
    ensures
      var s, n := states[i].ticks, events[i].n;
      Sleeper(s + n, events[i].t, states[i].calls) in Woken(states[j], events[j]) <==>
      events[j].Tick? && states[j + 1].ticks == WakeTick(s, n)
  {
    var s, n := states[i].ticks, events[i].n;
    var x := Sleeper(s + n, events[i].t, states[i].calls);
    RunInv(states, events, j);
    SleepsUntil(states, events, i, j);
    CallsGrow(states, events, i + 1, j);
    ApplyMember(states[j], events[j], x);
  }

  /** One interrupt unblocks by wake-up time and, for equal times, in call order. */
  lemma WokenInOrder(states: seq<Clock>, events: seq<Event>, j: nat)
    requires Run(states, events) && j < |events|
    ensures Ordered(Woken(states[j], events[j]))
  {
    RunInv(states, events, j);
  }

  // ------------------------------------------------------- the code itself

  lemma {:induction false} InsertAt(list: seq<Sleeper>, i: nat, x: Sleeper)
    requires i <= |list| && (i < |list| ==> x.wake < list[i].wake)
    requires forall k :: 0 <= k < i ==> x.wake >= list[k].wake
    ensures InsertByTime(list, x) == list[..i] + [x] + list[i..]
    decreases i
  {
    if i > 0 {
      var rest := list[1..];
      InsertAt(rest, i - 1, x);
      assert [list[0]] + (rest[..i - 1] + [x] + rest[i - 1..]) == list[..i] + [x] + list[i..];
    } else {
      assert list[..0] == [] && list[0..] == list;
    }
  }

  class Timer {
    var ticks: int
    var calls: nat
    var sleepList: seq<Sleeper>

    ghost function St(): (c: Clock)
      reads this
    {
      Clock(ticks, calls, sleepList)
    }

    /** timer_sleep up to thread_block. */
    method TimerSleep(t: Tid, n: int)
      modifies this
      ensures St() == Apply(old(St()), Sleep(t, n))
    {
      var f := Sleeper(ticks + n, t, calls);
      var e := 0;
      while e < |sleepList| && !(f.wake < sleepList[e].wake)
        invariant 0 <= e <= |sleepList|
        invariant forall k :: 0 <= k < e ==> f.wake >= sleepList[k].wake
      {
        e := e + 1;
      }
      InsertAt(sleepList, e, f);
      sleepList := sleepList[..e] + [f] + sleepList[e..];
      calls := calls + 1;
    }

    /** The first part of timer_interrupt: advance the clock and wake. */
    method TimerInterrupt() returns (woken: seq<Sleeper>)
      modifies this
      ensures St() == Apply(old(St()), Tick)
      ensures woken == Woken(old(St()), Tick)
    {
      ticks := ticks + 1;
      woken := [];
      while sleepList != [] && sleepList[0].wake <= ticks
        invariant ticks == old(ticks) + 1 && calls == old(calls)
        invariant woken + sleepList == old(sleepList)
        invariant |woken| + DuePrefix(sleepList, ticks) == DuePrefix(old(sleepList), ticks)
        decreases |sleepList|
      {
        woken := woken + [sleepList[0]];
        sleepList := sleepList[1..];
      }
      assert old(sleepList)[..|woken|] == woken && old(sleepList)[|woken|..] == sleepList;
    }
  }
}
