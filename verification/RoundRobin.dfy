/** The order in which ready threads run (threads/thread.c): among equal
    priorities, first come, first run. */
module RoundRobin {
  import opened Prelude
  import opened Scheduler

  /** t stands before u in the queue. */
  ghost predicate Ahead(q: seq<Tid>, t: Tid, u: Tid) {
    exists i, j :: 0 <= i < j < |q| && q[i] == t && q[j] == u
  }

  /** t has the processor or will get it before u does. */
  ghost predicate RunsBefore(s: Sched, t: Tid, u: Tid) {
    s.current == t || Ahead(s.ready, t, u)
  }

  /** The thread that an action puts into the ready list. */
  function Joins(s: Sched, a: Action): (r: Option<Tid>)
    requires Enabled(s, a)
  {
    match a
    case Yield => if s.idle == Some(s.current) then None else Some(s.current)
    case StartThread(t) => Some(t)
    case Wake(q, i) => Some(s.queues[q][i])
    case WakeSleeper(t) => Some(t)
    case _ => None
  }

  /** An insertion puts one thread somewhere and moves no other. */
  lemma {:induction false} InsertSomewhere(pri: map<Tid, int>, ready: seq<Tid>, t: Tid) returns (k: nat)
    ensures k <= |ready| && InsertReady(pri, ready, t) == ready[..k] + [t] + ready[k..]
  {
    hide Pri;
    if ready == [] || Pri(pri, t) > Pri(pri, ready[0]) {
      k := 0;
      assert ready[..0] == [] && ready[0..] == ready;
    } else {
      var m := InsertSomewhere(pri, ready[1..], t);
      k := m + 1;
      assert ready[..k] == [ready[0]] + ready[1..][..m] && ready[k..] == ready[1..][m..];
    }
  }

  lemma AheadInserted(q: seq<Tid>, k: nat, x: Tid, t: Tid, u: Tid)
    requires k <= |q| && Ahead(q, t, u)
    ensures Ahead(q[..k] + [x] + q[k..], t, u)
  {
    var i, j :| 0 <= i < j < |q| && q[i] == t && q[j] == u;
    var r := q[..k] + [x] + q[k..];
    var a, b := if i < k then i else i + 1, if j < k then j else j + 1;
    assert r[a] == t && r[b] == u;
  }

  /** The state that schedule is called in, or in which the action ends, has the
      old queue with at most the joining thread added. */
  lemma QueueBefore(s: Sched, a: Action)
    requires Enabled(s, a)
    ensures Before(s, a).ready == if Joins(s, a).Some? then InsertReady(s.pri, s.ready, Joins(s, a).value) else s.ready
  {
    hide InsertReady;
  }

  /** Popping the front. */
  lemma AheadPopped(m: Sched, t: Tid, u: Tid)
    requires NextThread(m).Some? && Ahead(m.ready, t, u)
    ensures RunsBefore(Schedule(m), t, u)
  {
    var i, j :| 0 <= i < j < |m.ready| && m.ready[i] == t && m.ready[j] == u;
    var rest := m.ready[1..];
    assert rest[j - 1] == u && (i > 0 ==> rest[i - 1] == t);
  }

  /** Whoever is ahead stays ahead until it runs, whatever happens. */
  lemma AheadStep(s: Sched, a: Action, r: Sched, t: Tid, u: Tid)
    requires Transition(s, a, r) && Ahead(s.ready, t, u)
    ensures RunsBefore(r, t, u)
  {
    hide Ahead, InsertReady, Schedule;
    QueueBefore(s, a);
    if Joins(s, a).Some? {
      var k := InsertSomewhere(s.pri, s.ready, Joins(s, a).value);
      AheadInserted(s.ready, k, Joins(s, a).value, t, u);
    }
    hide Before;
    if Schedules(a) { AheadPopped(Before(s, a), t, u); }
  }

  /** A thread that joins a sorted queue gets behind every thread of at least its
      priority and before every other. */
  lemma JoinsInPlace(s: Sched, a: Action, r: Sched, u: Tid, t: Tid)
    requires Transition(s, a, r) && SortedBy(s.pri, s.ready) && Joins(s, a) == Some(u) && t in s.ready
    ensures Pri(s.pri, t) >= Pri(s.pri, u) ==> RunsBefore(r, t, u)
    ensures Pri(s.pri, t) < Pri(s.pri, u) ==> RunsBefore(r, u, t)
  {
    hide InsertReady, Schedule, Pri;
    QueueBefore(s, a);
    var k := InsertPosition(s.pri, s.ready, u);
    var q := s.ready[..k] + [u] + s.ready[k..];
    PlacedAt(s.pri, s.ready, k, u, t);
    hide Before, Ahead, SortedBy;
    var m := Before(s, a);
    if Schedules(a) {
      if Pri(s.pri, t) >= Pri(s.pri, u) { AheadPopped(m, t, u); } else { AheadPopped(m, u, t); }
    }
  }

  lemma PlacedAt(pri: map<Tid, int>, ready: seq<Tid>, k: nat, u: Tid, t: Tid)
    requires k <= |ready| && t in ready
    requires forall i :: 0 <= i < k ==> Pri(pri, ready[i]) >= Pri(pri, u)
    requires forall i :: k <= i < |ready| ==> Pri(pri, ready[i]) < Pri(pri, u)
    ensures
      var q := ready[..k] + [u] + ready[k..];
      if Pri(pri, t) >= Pri(pri, u) then Ahead(q, t, u) else Ahead(q, u, t)
  {
    hide Pri;
    var q := ready[..k] + [u] + ready[k..];
    var i :| 0 <= i < |ready| && ready[i] == t;
    assert q[k] == u;
    if i < k { assert q[i] == t; } else { assert q[i + 1] == t; }
  }

  /** Over every run: whoever is ahead runs first. */
  lemma {:induction false} AheadRuns(states: seq<Sched>, actions: seq<Action>, t: Tid, u: Tid, i: nat, j: nat)
    requires Run(states, actions) && i <= j < |states| && RunsBefore(states[i], t, u)
    ensures (exists k :: i <= k <= j && states[k].current == t) || Ahead(states[j].ready, t, u)
    decreases j
  {
    hide Transition, Ahead, Boot;
    if i < j {
      AheadRuns(states, actions, t, u, i, j - 1);
      if Ahead(states[j - 1].ready, t, u) {
        assert Transition(states[j - 1], actions[j - 1], states[j]);
        AheadStep(states[j - 1], actions[j - 1], states[j], t, u);
      }
    }
  }

  /** In a run that keeps queued threads in their places: when u joins the ready
      list, by thread_yield or by being woken, every thread that is ready then and
      has at least its priority runs before u does. */
  lemma FirstComeFirstRun(states: seq<Sched>, actions: seq<Action>, i: nat, u: Tid, t: Tid, j: nat)
    requires Run(states, actions) && i < |actions| && i < j < |states|
    requires forall n :: 0 <= n < |actions| ==> KeepsPlace(states[n], actions[n])
    requires Enabled(states[i], actions[i]) && Joins(states[i], actions[i]) == Some(u)
    requires t in states[i].ready && Pri(states[i].pri, t) >= Pri(states[i].pri, u)
    requires states[j].current == u
    ensures exists k :: i < k < j && states[k].current == t
  {
    hide Transition, KeepsPlace, SchedInv, Boot, Pri, Ahead, Joins, Enabled;
    var s, a := states[i], actions[i];
    SortedUpTo(states, actions, i);
    RunInv(states, actions, i);
    assert Transition(s, a, states[i + 1]);
    JoinsInPlace(s, a, states[i + 1], u, t);
    AheadRuns(states, actions, t, u, i + 1, j);
    RunInv(states, actions, j);
    RunningNotAhead(states[j], t);
    JoinerNotReady(s, a, u);
  }

  lemma RunningNotAhead(s: Sched, t: Tid)
    requires SchedInv(s)
    ensures !Ahead(s.ready, t, s.current)
  {
    assert multiset(s.ready)[s.current] == if StatusIs(s, s.current, READY) && s.idle != Some(s.current) then 1 else 0;
    assert s.current !in s.ready;
  }

  lemma JoinerNotReady(s: Sched, a: Action, u: Tid)
    requires SchedInv(s) && Enabled(s, a) && Joins(s, a) == Some(u)
    ensures u !in s.ready
  {
    assert multiset(s.ready)[u] == if StatusIs(s, u, READY) && s.idle != Some(u) then 1 else 0;
    if a.Wake? { assert OnQueue(s, u, a.q); }
  }

  /** thread_yield keeps the processor exactly when every ready thread has a lower
      priority. */
  lemma YieldKeepsProcessor(s: Sched, r: Sched)
    requires SchedInv(s) && Transition(s, Yield, r) && SortedBy(s.pri, s.ready) && s.idle != Some(s.current)
    ensures r.current == s.current <==> forall t :: t in s.ready ==> Pri(s.pri, t) < Pri(s.pri, s.current)
  {
    hide InsertReady, SchedInv, Pri;
    QueueBefore(s, Yield);
    var k := InsertPosition(s.pri, s.ready, s.current);
    var q := s.ready[..k] + [s.current] + s.ready[k..];
    assert Before(s, Yield).ready == q;
    JoinerNotReady(s, Yield, s.current);
    if k > 0 { assert q[0] == s.ready[0] && s.ready[0] in s.ready; }
  }

  // -------------------------------------------------- what an action changes

  /** The thread an action names or wakes. */
  function Touches(s: Sched, a: Action): (r: Option<Tid>)
    requires Enabled(s, a)
  {
    match a
    case InitThread(t, _) => Some(t)
    case StartThread(t) => Some(t)
    case Wake(q, i) => Some(s.queues[q][i])
    case WakeSleeper(t) => Some(t)
    case _ => None
  }

  /** What becomes of the thread that gives up the processor. */
  function Leaving(a: Action): (st: Status) {
    if a.Exit? then DYING else if a.Yield? then READY else BLOCKED
  }

  lemma StatusBefore(s: Sched, a: Action, u: Tid, st: Status)
    requires Enabled(s, a)
    ensures StatusIs(Before(s, a), u, st) <==>
      if Touches(s, a) == Some(u) then st == if a.InitThread? then BLOCKED else READY
      else if Schedules(a) && u == s.current then st == Leaving(a)
      else StatusIs(s, u, st)
  {
    hide InsertReady;
  }

  /** The statuses after an action: the thread that gave up the processor is
      blocked, ready, dying or gone, as it asked, unless it got it again; a woken
      thread is ready, a new one blocked; every other thread keeps its status. */
  lemma StatusAfter(s: Sched, a: Action, r: Sched, u: Tid, st: Status)
    requires SchedInv(s) && Transition(s, a, r)
    ensures StatusIs(r, u, st) <==>
      if Schedules(a) && u == r.current then st == RUNNING
      else if Schedules(a) && u == s.current then st == Leaving(a) && !(a.Exit? && u != s.initial)
      else if Touches(s, a) == Some(u) then st == if a.InitThread? then BLOCKED else READY
      else StatusIs(s, u, st)
  {
    StatusBefore(s, a, u, st);
    StatusBefore(s, a, u, DYING);
    if Schedules(a) {
      CallsScheduleSafely(s, a);
      hide Before, SchedInv;
      var m := Before(s, a);
      BeforeCurrent(s, a);
      ScheduleStatus(m, u, st);
    }
  }

  lemma BeforeCurrent(s: Sched, a: Action)
    requires Enabled(s, a)
    ensures Before(s, a).current == s.current && Before(s, a).initial == s.initial
  {
    hide InsertReady;
  }

  /** A thread that blocks or exits gives up the processor. */
  lemma GivesUp(s: Sched, a: Action, r: Sched)
    requires SchedInv(s) && Transition(s, a, r) && (a.BlockOn? || a.Sleep? || a.Exit?)
    ensures r.current != s.current
  {
    CallsScheduleSafely(s, a);
    ScheduleFinds(Before(s, a));
    BeforeCurrent(s, a);
    StatusBefore(s, a, s.current, READY);
    hide Before, AtSchedule;
  }

  /** The queues and stored priorities after an action: a blocking thread joins its
      queue at the end, a woken one leaves it, thread_create and a priority change
      store their value, and nothing else changes. */
  ghost predicate Recorded(s: Sched, a: Action, r: Sched) {
    && Enabled(s, a)
    && r.queues == (if a.BlockOn? then s.queues[a.q := s.queues[a.q] + [s.current]]
                    else if a.Wake? then s.queues[a.q := s.queues[a.q][..a.i] + s.queues[a.q][a.i + 1..]]
                    else s.queues)
    && r.sleep == (if a.Sleep? then s.sleep + {s.current} else if a.WakeSleeper? then s.sleep - {a.t} else s.sleep)
    && r.pri == (if a.InitThread? || a.ChangePriority? then s.pri[a.t := a.p] else s.pri)
    && r.newborn == (if a.InitThread? then s.newborn + {a.t} else if a.StartThread? then s.newborn - {a.t} else s.newborn)
    && r.idle == (if a.RegisterIdle? then Some(s.current) else s.idle)
    && r.idleFn == s.idleFn && r.initial == s.initial
  }

  lemma QueuesBefore(s: Sched, a: Action)
    requires Enabled(s, a)
    ensures Recorded(s, a, Before(s, a))
  {
    hide InsertReady;
  }

  lemma QueuesAfter(s: Sched, a: Action, r: Sched)
    requires Transition(s, a, r)
    ensures Recorded(s, a, r)
  {
    hide Before, Enabled;
    QueuesBefore(s, a);
    if Schedules(a) { ScheduleRecords(Before(s, a)); }
  }

  lemma ScheduleRecords(m: Sched)
    requires NextThread(m).Some?
    ensures
      var r := Schedule(m);
      && r.queues == m.queues && r.sleep == m.sleep && r.newborn == m.newborn && r.pri == m.pri && r.idle == m.idle
      && r.idleFn == m.idleFn && r.initial == m.initial
  {
  }
}
