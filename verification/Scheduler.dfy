/** The thread state machine of threads/thread.c: statuses, the ready list,
    the idle thread and schedule().  One step is one stretch of code run with
    interrupts off. */
module Scheduler {
  import opened Prelude

  datatype Status = RUNNING | READY | BLOCKED | DYING

  type Queue = nat

  /** queues are the lists that use a blocked thread's elem (semaphore waiters);
      sleep holds the threads of the timer's sleep list, newborn those between
      init_thread and the first thread_unblock.  idleFn is the thread that runs
      idle(), idle is the variable idle_thread. */
  datatype Sched = Sched(
    current: Tid,
    status: map<Tid, Status>,
    pri: map<Tid, int>,
    ready: seq<Tid>,
    queues: map<Queue, seq<Tid>>,
    sleep: set<Tid>,
    newborn: set<Tid>,
    idleFn: Tid,
    idle: Option<Tid>,
    initial: Tid)

  // ------------------------------------------------------------ operations

  function Pri(pri: map<Tid, int>, t: Tid): (p: int) {
    if t in pri then pri[t] else 0
  }

  /** list_insert_ordered with priority_greater: behind every thread of the
      same or higher priority that leads the list. */
  function InsertReady(pri: map<Tid, int>, ready: seq<Tid>, t: Tid): (r: seq<Tid>) {
    if ready == [] then [t]
    else if Pri(pri, t) > Pri(pri, ready[0]) then [t] + ready
    else [ready[0]] + InsertReady(pri, ready[1..], t)
  }

  /** next_thread_to_run: the front of the ready list, else the idle thread;
      None stands for the null pointer that is_thread would reject. */
  function NextThread(s: Sched): (r: Option<Tid>) {
    if s.ready == [] then s.idle else Some(s.ready[0])
  }

  /** schedule and thread_schedule_tail, after the status of the current thread
      has been changed.  A dying thread other than the initial one is freed. */
  function Schedule(s: Sched): (r: Sched)
    requires NextThread(s).Some?
  {
    var next := NextThread(s).value;
    var prev := s.current;
    var r := s.(current := next,
                ready := if s.ready == [] then [] else s.ready[1..],
                status := s.status[next := RUNNING]);
    if prev != next && prev in s.status && s.status[prev] == DYING && prev != s.initial
    then r.(status := r.status - {prev}) else r
  }

  function SetStatus(s: Sched, t: Tid, st: Status): (r: Sched) {
    s.(status := s.status[t := st])
  }

  /** thread_unblock */
  function Unblock(s: Sched, t: Tid): (r: Sched) {
    SetStatus(s.(ready := InsertReady(s.pri, s.ready, t)), t, READY)
  }

  /** thread_yield before schedule: the idle thread is not queued. */
  function Requeue(s: Sched): (r: Sched) {
    SetStatus(if s.idle == Some(s.current) then s else s.(ready := InsertReady(s.pri, s.ready, s.current)),
              s.current, READY)
  }

  datatype Action =
    | BlockOn(q: Queue)          // sema_down on an empty semaphore
    | Sleep                      // timer_sleep
    | IdleBlock                  // the loop of idle()
    | RegisterIdle               // idle_thread = thread_current ()
    | Yield                      // thread_yield, also by the timer
    | Exit                       // thread_exit
    | InitThread(t: Tid, p: int) // thread_create up to thread_unblock
    | StartThread(t: Tid)        // thread_create's thread_unblock
    | Wake(q: Queue, i: nat)     // sema_up on the waiter at index i
    | WakeSleeper(t: Tid)        // timer_interrupt
    | ChangePriority(t: Tid, p: int)

  /** The threads that run idle() never call anything else that blocks or
      exits, and idle_thread is set before that thread first blocks. */
  predicate Enabled(s: Sched, a: Action) {
    match a
    case BlockOn(q) => q in s.queues && s.current != s.idleFn
    case Sleep => s.current != s.idleFn
    case IdleBlock => s.current == s.idleFn && s.idle == Some(s.idleFn)
    case RegisterIdle => s.current == s.idleFn && s.idle == None
    case Yield => true
    case Exit => s.current != s.idleFn
    case InitThread(t, p) => t !in s.status
    case StartThread(t) => t in s.newborn
    case Wake(q, i) => q in s.queues && i < |s.queues[q]|
    case WakeSleeper(t) => t in s.sleep
    case ChangePriority(t, p) => t in s.status
  }

  /** The state in which the action calls schedule, or ends without it. */
  function Before(s: Sched, a: Action): (r: Sched)
    requires Enabled(s, a)
  {
    match a
    case BlockOn(q) => SetStatus(s.(queues := s.queues[q := s.queues[q] + [s.current]]), s.current, BLOCKED)
    case Sleep => SetStatus(s.(sleep := s.sleep + {s.current}), s.current, BLOCKED)
    case IdleBlock => SetStatus(s, s.current, BLOCKED)
    case RegisterIdle => s.(idle := Some(s.current))
    case Yield => Requeue(s)
    case Exit => SetStatus(s, s.current, DYING)
    case InitThread(t, p) => SetStatus(s.(newborn := s.newborn + {t}, pri := s.pri[t := p]), t, BLOCKED)
    case StartThread(t) => Unblock(s.(newborn := s.newborn - {t}), t)
    case Wake(q, i) => Unblock(s.(queues := s.queues[q := s.queues[q][..i] + s.queues[q][i + 1..]]), s.queues[q][i])
    case WakeSleeper(t) => Unblock(s.(sleep := s.sleep - {t}), t)
    case ChangePriority(t, p) => s.(pri := s.pri[t := p])
  }

  predicate Schedules(a: Action) {
    a.BlockOn? || a.Sleep? || a.IdleBlock? || a.Yield? || a.Exit?
  }

  // ------------------------------------------------------------- invariant

  predicate StatusIs(s: Sched, t: Tid, st: Status) {
    t in s.status && s.status[t] == st
  }

  /** The lists a blocked thread can be on. */
  ghost predicate OnQueue(s: Sched, t: Tid, q: Queue) {
    q in s.queues && t in s.queues[q]
  }

  /** A thread is in the ready list exactly when it is READY and not the idle
      thread, and then once. */
  ghost predicate ReadyInv(s: Sched) {
    forall t :: multiset(s.ready)[t] == if StatusIs(s, t, READY) && s.idle != Some(t) then 1 else 0
  }

  /** t's elem is linked into queue q: then it is blocked, linked once, and on
      no other list. */
  ghost predicate QueueInv(s: Sched) {
    forall t, q :: OnQueue(s, t, q) ==>
      && StatusIs(s, t, BLOCKED) && t != s.idleFn && t !in s.sleep && t !in s.newborn
      && multiset(s.queues[q])[t] == 1
      && forall q' :: OnQueue(s, t, q') ==> q' == q
  }

  ghost predicate SleepInv(s: Sched) {
    && (forall t :: t in s.sleep ==> StatusIs(s, t, BLOCKED) && t != s.idleFn && t !in s.newborn)
    && (forall t :: t in s.newborn ==> StatusIs(s, t, BLOCKED) && t != s.idleFn)
  }

  /** Every blocked thread other than idle can be found by its waker. */
  ghost predicate FoundInv(s: Sched) {
    forall t :: StatusIs(s, t, BLOCKED) && t != s.idleFn ==>
      t in s.sleep || t in s.newborn || exists q :: OnQueue(s, t, q)
  }

  ghost predicate RunningInv(s: Sched) {
    && StatusIs(s, s.current, RUNNING)
    && (forall t :: StatusIs(s, t, RUNNING) ==> t == s.current)
    && (forall t :: StatusIs(s, t, DYING) ==> t == s.initial)
  }

  /** Until idle_thread is set, the thread that will set it runs or is queued. */
  ghost predicate IdleInv(s: Sched) {
    && s.idleFn in s.status && s.status[s.idleFn] != DYING
    && (s.idle == None || s.idle == Some(s.idleFn))
    && (s.idle == None ==> s.status[s.idleFn] == RUNNING || s.status[s.idleFn] == READY)
  }

  ghost predicate SchedInv(s: Sched) {
    ReadyInv(s) && QueueInv(s) && SleepInv(s) && FoundInv(s) && RunningInv(s) && IdleInv(s)
  }

  // ------------------------------------------------------------ the theorems

  /** thread_start's state: main runs, the future idle thread is queued. */
  ghost predicate Boot(s: Sched) {
    && s.current == s.initial && s.initial != s.idleFn
    && s.status == map[s.initial := RUNNING, s.idleFn := READY]
    && s.ready == [s.idleFn] && s.idle == None
    && s.sleep == {} && s.newborn == {}
    && forall q :: q in s.queues ==> s.queues[q] == []
  }

  lemma BootInv(s: Sched)
    requires Boot(s)
    ensures SchedInv(s)
  {
  }

  lemma {:induction false} InsertCount(pri: map<Tid, int>, ready: seq<Tid>, t: Tid)
    ensures multiset(InsertReady(pri, ready, t)) == multiset(ready) + multiset{t}
  {
    if ready != [] {
      assert ready == [ready[0]] + ready[1..];
      InsertCount(pri, ready[1..], t);
    }
  }

  /** What holds at the call of schedule. */
  ghost predicate AtSchedule(s: Sched) {
    && ReadyInv(s) && QueueInv(s) && SleepInv(s) && FoundInv(s)
    && s.current in s.status
    && (forall t :: !StatusIs(s, t, RUNNING))
    && (forall t :: StatusIs(s, t, DYING) ==> t == s.initial || t == s.current)
    && IdleInv(s)
  }

  /** schedule always finds a valid thread, never the one that is exiting. */
  lemma ScheduleFinds(s: Sched)
    requires AtSchedule(s)
    ensures NextThread(s).Some?
    ensures
      var n := NextThread(s).value;
      n in s.status && (s.status[n] == READY || (n == s.idleFn && s.status[n] == BLOCKED))
  {
    assert !StatusIs(s, s.idleFn, RUNNING);
    assert multiset(s.ready)[s.idleFn] == if StatusIs(s, s.idleFn, READY) && s.idle != Some(s.idleFn) then 1 else 0;
    if s.ready != [] {
      assert multiset(s.ready)[s.ready[0]] > 0;
    }
  }

  /** schedule changes the status of the next thread and frees a dying one. */
  lemma ScheduleStatus(s: Sched, t: Tid, st: Status)
    requires AtSchedule(s) && NextThread(s).Some?
    ensures
      var n := NextThread(s).value;
      StatusIs(Schedule(s), t, st) <==>
        if t == n then st == RUNNING
        else StatusIs(s, t, st) && !(t == s.current && StatusIs(s, t, DYING) && t != s.initial)
  {
  }

  lemma ScheduleInv(s: Sched)
    requires AtSchedule(s)
    ensures NextThread(s).Some? && SchedInv(Schedule(s))
  {
    ScheduleFinds(s);
    ScheduleReady(s);
    ScheduleQueues(s);
    ScheduleRunning(s);
  }

  lemma ScheduleRunning(s: Sched)
    requires AtSchedule(s) && NextThread(s).Some?
    ensures RunningInv(Schedule(s)) && IdleInv(Schedule(s))
  {
    ScheduleFinds(s);
    var r, n := Schedule(s), NextThread(s).value;
    forall t ensures StatusIs(r, t, RUNNING) <==> t == n {
      ScheduleStatus(s, t, RUNNING);
    }
    forall t | StatusIs(r, t, DYING) ensures t == s.initial {
      ScheduleStatus(s, t, DYING);
    }
    assert !StatusIs(s, s.idleFn, DYING);
    ScheduleStatus(s, s.idleFn, s.status[s.idleFn]);
  }

  lemma ScheduleQueues(s: Sched)
    requires AtSchedule(s) && NextThread(s).Some?
    ensures QueueInv(Schedule(s)) && SleepInv(Schedule(s)) && FoundInv(Schedule(s))
  {
    ScheduleFinds(s);
    var r, n := Schedule(s), NextThread(s).value;
    forall t | t != s.idleFn ensures StatusIs(r, t, BLOCKED) == StatusIs(s, t, BLOCKED) {
      ScheduleStatus(s, t, BLOCKED);
    }
    assert forall t, q :: OnQueue(r, t, q) == OnQueue(s, t, q);
    forall t | StatusIs(r, t, BLOCKED) && t != r.idleFn
      ensures t in r.sleep || t in r.newborn || exists q :: OnQueue(r, t, q)
    {
      if !(t in s.sleep || t in s.newborn) {
        var q :| OnQueue(s, t, q);
        assert OnQueue(r, t, q);
      }
    }
  }

  lemma ScheduleReady(s: Sched)
    requires AtSchedule(s) && NextThread(s).Some?
    ensures ReadyInv(Schedule(s))
  {
    ScheduleFinds(s);
    var r := Schedule(s);
    if s.ready != [] { assert s.ready == [s.ready[0]] + s.ready[1..]; }
    forall t ensures multiset(r.ready)[t] == if StatusIs(r, t, READY) && r.idle != Some(t) then 1 else 0 {
      assert multiset(s.ready)[t] == if StatusIs(s, t, READY) && s.idle != Some(t) then 1 else 0;
      ScheduleStatus(s, t, READY);
    }
  }

  // ------------------------------------------- actions that call schedule

  /** The current thread stops running; it is on no list yet. */
  lemma StopsRunning(s: Sched, st: Status, t: Tid, st': Status)
    requires SchedInv(s) && st != RUNNING
    ensures
      StatusIs(SetStatus(s, s.current, st), t, st') <==>
        if t == s.current then st' == st else StatusIs(s, t, st') && st' != RUNNING
  {
    assert StatusIs(s, t, RUNNING) ==> t == s.current;
  }

  lemma OffLists(s: Sched, t: Tid)
    requires SchedInv(s) && !StatusIs(s, t, BLOCKED)
    ensures t !in s.sleep && t !in s.newborn && forall q :: !OnQueue(s, t, q)
  {
  }

  /** The parts of the invariant about blocked threads, for an unchanged set of
      lists and an unchanged set of blocked threads. */
  lemma ListsKeep(s: Sched, r: Sched)
    requires QueueInv(s) && SleepInv(s) && FoundInv(s)
    requires r.queues == s.queues && r.sleep == s.sleep && r.newborn == s.newborn && r.idleFn == s.idleFn
    requires forall t :: t != s.idleFn ==> StatusIs(r, t, BLOCKED) == StatusIs(s, t, BLOCKED)
    ensures QueueInv(r) && SleepInv(r) && FoundInv(r)
  {
    assert forall t, q :: OnQueue(r, t, q) == OnQueue(s, t, q);
    forall t | StatusIs(r, t, BLOCKED) && t != r.idleFn
      ensures t in r.sleep || t in r.newborn || exists q :: OnQueue(r, t, q)
    {
      if !(t in s.sleep || t in s.newborn) {
        var q :| OnQueue(s, t, q);
        assert OnQueue(r, t, q);
      }
    }
  }

  /** The parts about statuses, when the current thread leaves RUNNING. */
  lemma StopKeeps(s: Sched, r: Sched, st: Status)
    requires SchedInv(s) && st != RUNNING && r.status == s.status[s.current := st]
    requires r.current == s.current && r.idle == s.idle && r.idleFn == s.idleFn && r.initial == s.initial
    requires s.current == s.idleFn ==> st == READY || (st == BLOCKED && s.idle.Some?)
    ensures r.current in r.status && IdleInv(r)
    ensures forall t :: !StatusIs(r, t, RUNNING)
    ensures forall t :: StatusIs(r, t, DYING) ==> t == r.initial || t == r.current
    ensures forall t, st' :: StatusIs(r, t, st') <==>
      if t == s.current then st' == st else StatusIs(s, t, st') && st' != RUNNING
  {
    forall t, st' ensures StatusIs(r, t, st') <==>
      if t == s.current then st' == st else StatusIs(s, t, st') && st' != RUNNING
    {
      StopsRunning(s, st, t, st');
    }
  }

  lemma BlockOnAt(s: Sched, q: Queue)
    requires SchedInv(s) && Enabled(s, BlockOn(q))
    ensures AtSchedule(Before(s, BlockOn(q)))
  {
    var r, c := Before(s, BlockOn(q)), s.current;
    StopKeeps(s, r, BLOCKED);
    OffLists(s, c);
    forall t, p ensures OnQueue(r, t, p) <==> OnQueue(s, t, p) || (t == c && p == q) {}
    forall t, p | OnQueue(r, t, p)
      ensures multiset(r.queues[p])[t] == 1 && forall p' :: OnQueue(r, t, p') ==> p' == p
    {
      if t == c { assert multiset(s.queues[q])[c] == 0; } else { assert OnQueue(s, t, p); }
    }
    BlockFound(s, r, q);
  }

  lemma BlockFound(s: Sched, r: Sched, q: Queue)
    requires SchedInv(s) && Enabled(s, BlockOn(q)) && r == Before(s, BlockOn(q))
    ensures FoundInv(r)
  {
    var c := s.current;
    forall t | StatusIs(r, t, BLOCKED) && t != r.idleFn
      ensures t in r.sleep || t in r.newborn || exists p :: OnQueue(r, t, p)
    {
      if t == c {
        assert OnQueue(r, c, q);
      } else if !(t in s.sleep || t in s.newborn) {
        assert StatusIs(s, t, BLOCKED);
        var p :| OnQueue(s, t, p);
        assert OnQueue(r, t, p);
      }
    }
  }

  lemma SleepAt(s: Sched)
    requires SchedInv(s) && Enabled(s, Sleep)
    ensures AtSchedule(Before(s, Sleep))
  {
    var r, c := Before(s, Sleep), s.current;
    StopKeeps(s, r, BLOCKED);
    OffLists(s, c);
    assert forall t, q :: OnQueue(r, t, q) == OnQueue(s, t, q);
    forall t | StatusIs(r, t, BLOCKED) && t != r.idleFn
      ensures t in r.sleep || t in r.newborn || exists q :: OnQueue(r, t, q)
    {
      if !(t in r.sleep || t in r.newborn) {
        var q :| OnQueue(s, t, q);
        assert OnQueue(r, t, q);
      }
    }
  }

  lemma IdleBlockAt(s: Sched)
    requires SchedInv(s) && Enabled(s, IdleBlock)
    ensures AtSchedule(Before(s, IdleBlock))
  {
    var r := Before(s, IdleBlock);
    StopKeeps(s, r, BLOCKED);
    ListsKeep(s, r);
  }

  lemma ExitAt(s: Sched)
    requires SchedInv(s) && Enabled(s, Exit)
    ensures AtSchedule(Before(s, Exit))
  {
    var r := Before(s, Exit);
    StopKeeps(s, r, DYING);
    ListsKeep(s, r);
  }

  lemma YieldAt(s: Sched)
    requires SchedInv(s)
    ensures AtSchedule(Requeue(s))
  {
    var r := Requeue(s);
    StopKeeps(s, r, READY);
    ListsKeep(s, r);
    InsertCount(s.pri, s.ready, s.current);
    forall t ensures multiset(r.ready)[t] == if StatusIs(r, t, READY) && r.idle != Some(t) then 1 else 0 {
      assert multiset(s.ready)[t] == if StatusIs(s, t, READY) && s.idle != Some(t) then 1 else 0;
    }
  }

  // ------------------------------------------------------- other actions

  /** Everything but that the blocked thread t is on no list any more. */
  ghost predicate InvBut(s: Sched, t: Tid) {
    && ReadyInv(s) && QueueInv(s) && SleepInv(s) && RunningInv(s) && IdleInv(s)
    && StatusIs(s, t, BLOCKED) && t != s.idleFn && t !in s.sleep && t !in s.newborn
    && (forall q :: !OnQueue(s, t, q))
    && (forall u :: StatusIs(s, u, BLOCKED) && u != s.idleFn && u != t ==>
          u in s.sleep || u in s.newborn || exists q :: OnQueue(s, u, q))
  }

  /** thread_unblock puts it on the ready list; its assertion that the thread is
      blocked holds. */
  lemma UnblockInv(s: Sched, t: Tid)
    requires InvBut(s, t)
    ensures SchedInv(Unblock(s, t))
  {
    var r := Unblock(s, t);
    forall u, st ensures StatusIs(r, u, st) <==> if u == t then st == READY else StatusIs(s, u, st) {}
    InsertCount(s.pri, s.ready, t);
    forall u ensures multiset(r.ready)[u] == if StatusIs(r, u, READY) && r.idle != Some(u) then 1 else 0 {
      assert multiset(s.ready)[u] == if StatusIs(s, u, READY) && s.idle != Some(u) then 1 else 0;
    }
    assert forall u, q :: OnQueue(r, u, q) == OnQueue(s, u, q);
    forall u | StatusIs(r, u, BLOCKED) && u != r.idleFn
      ensures u in r.sleep || u in r.newborn || exists q :: OnQueue(r, u, q)
    {
      if !(u in s.sleep || u in s.newborn) {
        var q :| OnQueue(s, u, q);
        assert OnQueue(r, u, q);
      }
    }
  }

  lemma WakeInv(s: Sched, q: Queue, i: nat)
    requires SchedInv(s) && Enabled(s, Wake(q, i))
    ensures SchedInv(Before(s, Wake(q, i)))
  {
    var ws := s.queues[q];
    var t := ws[i];
    assert ws == ws[..i] + [t] + ws[i + 1..];
    assert multiset(ws) == multiset(ws[..i] + ws[i + 1..]) + multiset{t};
    var m := s.(queues := s.queues[q := ws[..i] + ws[i + 1..]]);
    assert OnQueue(s, t, q);
    forall u, p ensures OnQueue(m, u, p) <==> OnQueue(s, u, p) && u != t { WakeQueue(s, m, q, i, u, p); }
    forall u, p | OnQueue(m, u, p) ensures multiset(m.queues[p])[u] == 1 {
      assert OnQueue(s, u, p);
    }
    forall u | StatusIs(m, u, BLOCKED) && u != m.idleFn && u != t
      ensures u in m.sleep || u in m.newborn || exists p :: OnQueue(m, u, p)
    {
      assert StatusIs(s, u, BLOCKED);
      if !(u in s.sleep || u in s.newborn) {
        var p :| OnQueue(s, u, p);
        assert OnQueue(m, u, p);
      }
    }
    assert forall u, st :: StatusIs(m, u, st) == StatusIs(s, u, st);
    UnblockInv(m, t);
  }

  /** Removing a waiter takes it off its only list. */
  lemma WakeQueue(s: Sched, m: Sched, q: Queue, i: nat, u: Tid, p: Queue)
    requires QueueInv(s) && q in s.queues && i < |s.queues[q]|
    requires m == s.(queues := s.queues[q := s.queues[q][..i] + s.queues[q][i + 1..]])
    ensures OnQueue(m, u, p) <==> OnQueue(s, u, p) && u != s.queues[q][i]
  {
    var ws := s.queues[q];
    var t := ws[i];
    assert OnQueue(s, t, q);
    assert ws == ws[..i] + [t] + ws[i + 1..];
    var rest := ws[..i] + ws[i + 1..];
    assert multiset(ws) == multiset(rest) + multiset{t};
    assert multiset(rest)[t] == 0;
    assert u in rest <==> multiset(rest)[u] > 0;
    assert u in ws <==> multiset(ws)[u] > 0;
  }

  lemma WakeSleeperInv(s: Sched, t: Tid)
    requires SchedInv(s) && t in s.sleep
    ensures SchedInv(Before(s, WakeSleeper(t)))
  {
    var m := s.(sleep := s.sleep - {t});
    LeavesSet(s, m, t);
    UnblockInv(m, t);
  }

  lemma StartThreadInv(s: Sched, t: Tid)
    requires SchedInv(s) && t in s.newborn
    ensures SchedInv(Before(s, StartThread(t)))
  {
    var m := s.(newborn := s.newborn - {t});
    LeavesSet(s, m, t);
    UnblockInv(m, t);
  }

  lemma LeavesSet(s: Sched, m: Sched, t: Tid)
    requires SchedInv(s) && t in s.sleep + s.newborn
    requires m == s.(sleep := s.sleep - {t}, newborn := s.newborn - {t})
    ensures InvBut(m, t)
  {
    assert forall u, q :: OnQueue(m, u, q) == OnQueue(s, u, q);
    assert forall u, st :: StatusIs(m, u, st) == StatusIs(s, u, st);
    forall u ensures multiset(m.ready)[u] == if StatusIs(m, u, READY) && m.idle != Some(u) then 1 else 0 {
      assert multiset(s.ready)[u] == if StatusIs(s, u, READY) && s.idle != Some(u) then 1 else 0;
    }
    forall u | StatusIs(m, u, BLOCKED) && u != m.idleFn && u != t
      ensures u in m.sleep || u in m.newborn || exists q :: OnQueue(m, u, q)
    {
      if !(u in s.sleep || u in s.newborn) {
        var q :| OnQueue(s, u, q);
        assert OnQueue(m, u, q);
      }
    }
  }

  lemma InitThreadInv(s: Sched, t: Tid, p: int)
    requires SchedInv(s) && Enabled(s, InitThread(t, p))
    ensures SchedInv(Before(s, InitThread(t, p)))
  {
    var r := Before(s, InitThread(t, p));
    forall u, st ensures StatusIs(r, u, st) <==> if u == t then st == BLOCKED else StatusIs(s, u, st) {}
    assert forall u, q :: OnQueue(r, u, q) == OnQueue(s, u, q);
    OffLists(s, t);
    forall u ensures multiset(r.ready)[u] == if StatusIs(r, u, READY) && r.idle != Some(u) then 1 else 0 {
      assert multiset(s.ready)[u] == if StatusIs(s, u, READY) && s.idle != Some(u) then 1 else 0;
    }
    forall u | StatusIs(r, u, BLOCKED) && u != r.idleFn
      ensures u in r.sleep || u in r.newborn || exists q :: OnQueue(r, u, q)
    {
      if !(u in r.sleep || u in r.newborn) {
        var q :| OnQueue(s, u, q);
        assert OnQueue(r, u, q);
      }
    }
  }

  lemma RegisterIdleInv(s: Sched)
    requires SchedInv(s) && Enabled(s, RegisterIdle)
    ensures SchedInv(Before(s, RegisterIdle))
  {
    var r := Before(s, RegisterIdle);
    assert forall u, st :: StatusIs(r, u, st) == StatusIs(s, u, st);
    ListsKeep(s, r);
    forall u ensures multiset(r.ready)[u] == if StatusIs(r, u, READY) && r.idle != Some(u) then 1 else 0 {
      assert multiset(s.ready)[u] == if StatusIs(s, u, READY) && s.idle != Some(u) then 1 else 0;
    }
  }

  lemma ChangePriorityInv(s: Sched, t: Tid, p: int)
    requires SchedInv(s)
    ensures SchedInv(s.(pri := s.pri[t := p]))
  {
    var r := s.(pri := s.pri[t := p]);
    assert forall u, st :: StatusIs(r, u, st) == StatusIs(s, u, st);
    ListsKeep(s, r);
    forall u ensures multiset(r.ready)[u] == if StatusIs(r, u, READY) && r.idle != Some(u) then 1 else 0 {
      assert multiset(s.ready)[u] == if StatusIs(s, u, READY) && s.idle != Some(u) then 1 else 0;
    }
  }

  // ------------------------------------------------------------- every run

  /** At every call of schedule the assertions of the source hold: the current
      thread is not RUNNING and next_thread_to_run is a thread. */
  lemma CallsScheduleSafely(s: Sched, a: Action)
    requires SchedInv(s) && Enabled(s, a) && Schedules(a)
    ensures AtSchedule(Before(s, a))
    ensures !StatusIs(Before(s, a), s.current, RUNNING) && NextThread(Before(s, a)).Some?
    ensures a.Exit? ==> NextThread(Before(s, a)) != Some(s.current)
  {
    match a {
      case BlockOn(q) => BlockOnAt(s, q);
      case Sleep => SleepAt(s);
      case IdleBlock => IdleBlockAt(s);
      case Yield => YieldAt(s);
      case Exit => ExitAt(s);
    }
    ScheduleFinds(Before(s, a));
  }

  /** One step of the machine; without a next thread the kernel would panic. */
  ghost predicate Transition(s: Sched, a: Action, r: Sched) {
    && Enabled(s, a)
    && if Schedules(a) then NextThread(Before(s, a)).Some? && r == Schedule(Before(s, a))
       else r == Before(s, a)
  }

  lemma StepInv(s: Sched, a: Action, r: Sched)
    requires SchedInv(s) && Transition(s, a, r)
    ensures SchedInv(r)
  {
    hide SchedInv, AtSchedule;
    if Schedules(a) {
      CallsScheduleSafely(s, a);
      ScheduleInv(Before(s, a));
    } else {
      match a {
        case RegisterIdle => RegisterIdleInv(s);
        case InitThread(t, p) => InitThreadInv(s, t, p);
        case StartThread(t) => StartThreadInv(s, t);
        case Wake(q, i) => WakeInv(s, q, i);
        case WakeSleeper(t) => WakeSleeperInv(s, t);
        case ChangePriority(t, p) => ChangePriorityInv(s, t, p);
      }
    }
  }

  ghost predicate Run(states: seq<Sched>, actions: seq<Action>) {
    && |states| == |actions| + 1
    && Boot(states[0])
    && forall i :: 0 <= i < |actions| ==> Transition(states[i], actions[i], states[i + 1])
  }

  /** Every state of every run satisfies the invariant. */
  lemma {:induction false} RunInv(states: seq<Sched>, actions: seq<Action>, i: nat)
    requires Run(states, actions) && i < |states|
    ensures SchedInv(states[i])
    decreases i
  {
    if i == 0 {
      BootInv(states[0]);
    } else {
      RunInv(states, actions, i - 1);
      StepInv(states[i - 1], actions[i - 1], states[i]);
    }
  }

  ghost predicate Reachable(s: Sched) {
    exists states, actions, i :: Run(states, actions) && 0 <= i < |states| && states[i] == s
  }

  lemma ReachableInv(s: Sched)
    requires Reachable(s)
    ensures SchedInv(s)
  {
    var states, actions, i :| Run(states, actions) && 0 <= i < |states| && states[i] == s;
    RunInv(states, actions, i);
  }

  /** The state machine, as thread.h promises it: one thread runs; a non-idle
      thread is READY exactly when the ready list has it, once; the idle thread
      is never queued after it has registered; a queued elem is linked once and
      belongs to a blocked thread. */
  lemma ThreadStates(s: Sched)
    requires Reachable(s)
    ensures StatusIs(s, s.current, RUNNING) && forall t :: StatusIs(s, t, RUNNING) ==> t == s.current
    ensures forall t :: t in s.ready <==> StatusIs(s, t, READY) && s.idle != Some(t)
    ensures forall t :: multiset(s.ready)[t] <= 1
    ensures s.idle.Some? ==> s.idle.value !in s.ready && forall q :: !OnQueue(s, s.idle.value, q)
    ensures forall t, q :: OnQueue(s, t, q) ==> t !in s.ready && multiset(s.queues[q])[t] == 1
    ensures forall t, q, q' :: OnQueue(s, t, q) && OnQueue(s, t, q') ==> q == q'
  {
    ReachableInv(s);
    forall t ensures t in s.ready <==> StatusIs(s, t, READY) && s.idle != Some(t) {
      assert multiset(s.ready)[t] == if StatusIs(s, t, READY) && s.idle != Some(t) then 1 else 0;
    }
  }

  /** schedule never fails: in every reachable state, whatever the running
      thread does next, there is a thread to switch to, and an exiting thread
      is never switched to. */
  lemma NeverStuck(s: Sched, a: Action)
    requires Reachable(s) && Enabled(s, a)
    ensures exists r :: Transition(s, a, r)
    ensures Schedules(a) ==>
      var m := Before(s, a);
      && NextThread(m).Some? && NextThread(m).value in m.status
      && m.status[NextThread(m).value] != DYING
  {
    ReachableInv(s);
    if Schedules(a) {
      CallsScheduleSafely(s, a);
      ScheduleFinds(Before(s, a));
      assert Transition(s, a, Schedule(Before(s, a)));
    } else {
      assert Transition(s, a, Before(s, a));
    }
  }

  // ------------------------------------------------- order of the ready list

  ghost predicate SortedBy(pri: map<Tid, int>, ready: seq<Tid>) {
    forall i, j :: 0 <= i < j < |ready| ==> Pri(pri, ready[i]) >= Pri(pri, ready[j])
  }

  /** list_insert_ordered puts t behind every queued thread of at least its
      priority and before every other. */
  lemma {:induction false} InsertPosition(pri: map<Tid, int>, ready: seq<Tid>, t: Tid) returns (k: nat)
    requires SortedBy(pri, ready)
    ensures k <= |ready| && InsertReady(pri, ready, t) == ready[..k] + [t] + ready[k..]
    ensures forall i :: 0 <= i < k ==> Pri(pri, ready[i]) >= Pri(pri, t)
    ensures forall i :: k <= i < |ready| ==> Pri(pri, ready[i]) < Pri(pri, t)
  {
    hide Pri;
    if ready == [] || Pri(pri, t) > Pri(pri, ready[0]) {
      k := 0;
      assert ready[..0] == [] && ready[0..] == ready;
    } else {
      var rest := ready[1..];
      TailSorted(pri, ready);
      hide SortedBy;
      var m := InsertPosition(pri, rest, t);
      k := m + 1;
      assert ready[..k] == [ready[0]] + rest[..m] && ready[k..] == rest[m..];
      forall i | 0 <= i < |ready| ensures if i < k then Pri(pri, ready[i]) >= Pri(pri, t) else Pri(pri, ready[i]) < Pri(pri, t) {
        assert i > 0 ==> ready[i] == rest[i - 1];
      }
    }
  }

  lemma TailSorted(pri: map<Tid, int>, ready: seq<Tid>)
    requires SortedBy(pri, ready) && ready != []
    ensures SortedBy(pri, ready[1..])
  {
    hide Pri;
    assert forall i :: 0 <= i < |ready| - 1 ==> ready[1..][i] == ready[i + 1];
  }

  /** It keeps the list in order. */
  lemma InsertSorted(pri: map<Tid, int>, ready: seq<Tid>, t: Tid)
    requires SortedBy(pri, ready)
    ensures SortedBy(pri, InsertReady(pri, ready, t))
  {
    var k := InsertPosition(pri, ready, t);
    hide Pri, InsertReady;
  }

  /** Whether a queued thread whose priority becomes p still stands between its
      neighbours. */
  ghost predicate FitsAt(pri: map<Tid, int>, ready: seq<Tid>, k: nat, p: int)
    requires k < |ready|
  {
    && (k == 0 || Pri(pri, ready[k - 1]) >= p)
    && (k + 1 == |ready| || p >= Pri(pri, ready[k + 1]))
  }

  /** The condition on a step, to be read off before it is taken: a change of
      the priority of a queued thread leaves it between its neighbours. */
  ghost predicate KeepsPlace(s: Sched, a: Action) {
    a.ChangePriority? ==> forall k :: 0 <= k < |s.ready| && s.ready[k] == a.t ==> FitsAt(s.pri, s.ready, k, a.p)
  }

  /** A priority change in a sorted ready list leaves it sorted exactly when the
      thread stays between its neighbours. */
  lemma ChangedSorted(s: Sched, k: nat, p: int)
    requires SchedInv(s) && k < |s.ready| && SortedBy(s.pri, s.ready)
    ensures SortedBy(s.pri[s.ready[k] := p], s.ready) <==> FitsAt(s.pri, s.ready, k, p)
  {
    var now := s.pri[s.ready[k] := p];
    forall i | 0 <= i < |s.ready|
      ensures Pri(now, s.ready[i]) == if i == k then p else Pri(s.pri, s.ready[i])
    {
      if i != k { ReadyDistinct(s, i, k); }
    }
    hide SchedInv, Pri;
    if SortedBy(now, s.ready) {
      assert k > 0 ==> Pri(now, s.ready[k - 1]) >= Pri(now, s.ready[k]);
      assert k + 1 < |s.ready| ==> Pri(now, s.ready[k]) >= Pri(now, s.ready[k + 1]);
    }
  }

  lemma ReadyDistinct(s: Sched, i: nat, j: nat)
    requires SchedInv(s) && i < |s.ready| && j < |s.ready| && i != j
    ensures s.ready[i] != s.ready[j]
  {
    var t := s.ready[i];
    assert multiset(s.ready)[t] <= 1;
    var lo, hi := if i < j then i else j, if i < j then j else i;
    assert s.ready == s.ready[..lo] + [s.ready[lo]] + s.ready[lo + 1..hi] + [s.ready[hi]] + s.ready[hi + 1..];
  }

  /** Every step of a sorted state leaves the ready list sorted exactly when it
      keeps queued threads between their neighbours. */
  lemma StepSorted(s: Sched, a: Action, r: Sched)
    requires SchedInv(s) && Transition(s, a, r) && SortedBy(s.pri, s.ready)
    ensures SortedBy(r.pri, r.ready) <==> KeepsPlace(s, a)
  {
    hide SortedBy;
    if a.ChangePriority? && a.t in s.ready {
      var k :| 0 <= k < |s.ready| && s.ready[k] == a.t;
      ChangedSorted(s, k, a.p);
      forall j | 0 <= j < |s.ready| && s.ready[j] == a.t ensures j == k {
        if j != k { ReadyDistinct(s, j, k); }
      }
    } else {
      if a.InitThread? { NotQueued(s, a.t); }
      BeforeSorted(s, a);
      hide SchedInv, Before;
      if Schedules(a) { ScheduleSorted(Before(s, a)); }
    }
  }

  lemma BeforeSorted(s: Sched, a: Action)
    requires Enabled(s, a) && SortedBy(s.pri, s.ready)
    requires a.InitThread? || a.ChangePriority? ==> a.t !in s.ready
    ensures SortedBy(Before(s, a).pri, Before(s, a).ready)
  {
    hide SortedBy, InsertReady;
    match a {
      case Yield => InsertSorted(s.pri, s.ready, s.current);
      case StartThread(t) => InsertSorted(s.pri, s.ready, t);
      case Wake(q, i) => InsertSorted(s.pri, s.ready, s.queues[q][i]);
      case WakeSleeper(t) => InsertSorted(s.pri, s.ready, t);
      case InitThread(t, p) => OtherPriority(s.pri, s.ready, t, p);
      case ChangePriority(t, p) => OtherPriority(s.pri, s.ready, t, p);
      case _ =>
    }
  }

  lemma ScheduleSorted(m: Sched)
    requires NextThread(m).Some? && SortedBy(m.pri, m.ready)
    ensures SortedBy(Schedule(m).pri, Schedule(m).ready)
  {
  }

  lemma OtherPriority(pri: map<Tid, int>, ready: seq<Tid>, t: Tid, p: int)
    requires SortedBy(pri, ready) && t !in ready
    ensures SortedBy(pri[t := p], ready)
  {
  }

  lemma NotQueued(s: Sched, t: Tid)
    requires SchedInv(s) && t !in s.status
    ensures t !in s.ready
  {
    assert multiset(s.ready)[t] == if StatusIs(s, t, READY) && s.idle != Some(t) then 1 else 0;
  }

  /** The ready list is sorted in every state of a run exactly when every step
      of the run keeps queued threads between their neighbours. */
  lemma SortedRuns(states: seq<Sched>, actions: seq<Action>)
    requires Run(states, actions)
    ensures
      && (forall i :: 0 <= i < |states| ==> SortedBy(states[i].pri, states[i].ready))
      <==> (forall j :: 0 <= j < |actions| ==> KeepsPlace(states[j], actions[j]))
  {
    hide SortedBy, KeepsPlace, SchedInv, Transition, Boot;
    if forall j :: 0 <= j < |actions| ==> KeepsPlace(states[j], actions[j]) {
      forall i | 0 <= i < |states| ensures SortedBy(states[i].pri, states[i].ready) {
        SortedUpTo(states, actions, i);
      }
    }
    if forall i :: 0 <= i < |states| ==> SortedBy(states[i].pri, states[i].ready) {
      forall j | 0 <= j < |actions| ensures KeepsPlace(states[j], actions[j]) {
        RunInv(states, actions, j);
        assert Transition(states[j], actions[j], states[j + 1]);
        StepSorted(states[j], actions[j], states[j + 1]);
      }
    }
  }

  lemma BootSorted(s: Sched)
    requires Boot(s)
    ensures SortedBy(s.pri, s.ready)
  {
  }

  lemma {:induction false} SortedUpTo(states: seq<Sched>, actions: seq<Action>, i: nat)
    requires Run(states, actions) && i < |states|
    requires forall j :: 0 <= j < |actions| ==> KeepsPlace(states[j], actions[j])
    ensures SortedBy(states[i].pri, states[i].ready)
    decreases i
  {
    hide SortedBy, KeepsPlace, SchedInv, Transition, Boot;
    if i == 0 {
      BootSorted(states[0]);
    } else {
      SortedUpTo(states, actions, i - 1);
      RunInv(states, actions, i - 1);
      assert Transition(states[i - 1], actions[i - 1], states[i]);
      StepSorted(states[i - 1], actions[i - 1], states[i]);
    }
  }

  /** In such a run schedule always takes a thread of the highest priority among
      those that are ready, and the others stay queued. */
  lemma HighestRuns(states: seq<Sched>, actions: seq<Action>, i: nat, t: Tid)
    requires Run(states, actions) && i < |actions| && Schedules(actions[i])
    requires forall j :: 0 <= j < |actions| ==> KeepsPlace(states[j], actions[j])
    ensures Transition(states[i], actions[i], states[i + 1])
    ensures
      var m := Before(states[i], actions[i]);
      StatusIs(m, t, READY) && m.idle != Some(t) ==>
        && Pri(m.pri, states[i + 1].current) >= Pri(m.pri, t)
        && (states[i + 1].current == t || t in states[i + 1].ready)
  {
    hide Before, SchedInv, AtSchedule, SortedBy, KeepsPlace, Boot;
    var s, a := states[i], actions[i];
    SortedUpTo(states, actions, i);
    RunInv(states, actions, i);
    assert Transition(s, a, states[i + 1]);
    BeforeSorted(s, a);
    CallsScheduleSafely(s, a);
    ScheduleTakesHighest(Before(s, a), t);
  }

  lemma ScheduleTakesHighest(m: Sched, t: Tid)
    requires AtSchedule(m) && NextThread(m).Some? && SortedBy(m.pri, m.ready)
    ensures StatusIs(m, t, READY) && m.idle != Some(t) ==>
      && Pri(m.pri, Schedule(m).current) >= Pri(m.pri, t)
      && (Schedule(m).current == t || t in Schedule(m).ready)
  {
    hide Pri;
    assert multiset(m.ready)[t] == if StatusIs(m, t, READY) && m.idle != Some(t) then 1 else 0;
    if t in m.ready {
      var k :| 0 <= k < |m.ready| && m.ready[k] == t;
      assert k > 0 ==> m.ready[1..][k - 1] == t;
    }
  }

  lemma ReachableStep(s: Sched, a: Action, r: Sched)
    requires Reachable(s) && Transition(s, a, r)
    ensures Reachable(r)
  {
    var states, actions, i :| Run(states, actions) && 0 <= i < |states| && states[i] == s;
    var more, acts := states[..i + 1] + [r], actions[..i] + [a];
    forall j | 0 <= j < |acts| ensures Transition(more[j], acts[j], more[j + 1]) {
      if j < i { assert Transition(states[j], actions[j], states[j + 1]); }
    }
    assert Run(more, acts) && more[i + 1] == r;
  }
}
