/** The advanced scheduler over whole runs: timer interrupts, nice changes and
    threads coming and going (threads/thread.c, devices/timer.c). */
module MlfqsRuns {
  import opened Prelude
  import opened Arithmetic
  import opened Mlfqs

  datatype Thread = Thread(recent: int, nice: int, priority: int)

  datatype Sched = Sched(ticks: nat, load: int, idle: Option<Tid>, th: map<Tid, Thread>)

  /** ready is the length of the ready list when the interrupt arrives. */
  datatype Event =
    | Tick(cur: Tid, ready: nat)
    | SetNice(cur: Tid, nice: int)
    | Create(parent: Tid, t: Tid, priority: int)
    | Exit(cur: Tid)
    | BecomeIdle(cur: Tid)

  function Counted(idle: Option<Tid>, cur: Tid, ready: nat): (r: nat) {
    if idle == Some(cur) then ready else ready + 1
  }

  /** What a caller owes: niceness in -20..20 and initial priorities in range.
      At most n threads are ready at once. */
  predicate Enabled(s: Sched, e: Event, n: nat) {
    match e
    case Tick(cur, ready) => cur in s.th && Counted(s.idle, cur, ready) <= n
    case SetNice(cur, nice) => cur in s.th && s.idle != Some(cur) && -20 <= nice <= 20
    case Create(parent, t, priority) =>
      parent in s.th && s.idle != Some(parent) && t !in s.th && 0 <= priority <= PRI_MAX
    case Exit(cur) => cur in s.th && s.idle != Some(cur)
    case BecomeIdle(cur) => cur in s.th && s.idle == None
  }

  function Credited(th: map<Tid, Thread>, idle: Option<Tid>, cur: Tid): (r: map<Tid, Thread>) {
    if cur in th && idle != Some(cur) then th[cur := th[cur].(recent := th[cur].recent + F)] else th
  }

  function Aged(x: Thread, load: int): (r: Thread) {
    if load < 0 then x else x.(recent := RecentNext(load, x.recent, x.nice))
  }

  function Ranked(x: Thread): (r: Thread) {
    x.(priority := PriorityOf(x.recent, x.nice))
  }

  function AgedAll(th: map<Tid, Thread>, idle: Option<Tid>, load: int): (r: map<Tid, Thread>) {
    map t | t in th :: if idle == Some(t) then th[t] else Aged(th[t], load)
  }

  function RankedAll(th: map<Tid, Thread>, idle: Option<Tid>): (r: map<Tid, Thread>) {
    map t | t in th :: if idle == Some(t) then th[t] else Ranked(th[t])
  }

  function Second(s: Sched, cur: Tid, ready: nat): (r: Sched) {
    if s.ticks % 100 == 0 then
      var load := LoadNext(s.load, Counted(s.idle, cur, ready));
      s.(load := load, th := AgedAll(s.th, s.idle, load))
    else s
  }

  function Next(s: Sched, e: Event): (r: Sched) {
    match e
    case Tick(cur, ready) =>
      var s1 := Second(s.(ticks := s.ticks + 1, th := Credited(s.th, s.idle, cur)), cur, ready);
      if s1.ticks % 4 == 0 then s1.(th := RankedAll(s1.th, s1.idle)) else s1
    case SetNice(cur, nice) =>
      if cur in s.th then s.(th := s.th[cur := Ranked(s.th[cur].(nice := nice))]) else s
    case Create(parent, t, priority) =>
      if parent in s.th then
        s.(th := s.th[t := Thread(s.th[parent].recent, s.th[parent].nice, priority)])
      else s
    case Exit(cur) => s.(th := s.th - {cur})
    case BecomeIdle(cur) => s.(idle := Some(cur))
  }

  // ------------------------------------------------------------- invariant

  /** A thread that ran through k ticks of the current second. */
  predicate ThreadOk(x: Thread, k: nat, n: nat) {
    && -20 <= x.nice <= 20
    && 0 <= x.priority <= PRI_MAX
    && -20 * (2 * n + 1) * F <= x.recent <= (240 * n + 20 + k) * F
  }

  ghost predicate AllOk(th: map<Tid, Thread>, idle: Option<Tid>, k: nat, n: nat) {
    forall t :: t in th && idle != Some(t) ==> ThreadOk(th[t], k, n)
  }

  ghost predicate SchedInv(s: Sched, n: nat) {
    0 <= s.load <= n * F && AllOk(s.th, s.idle, s.ticks % 100, n)
  }

  lemma CreditedOk(th: map<Tid, Thread>, idle: Option<Tid>, cur: Tid, k: nat, n: nat)
    requires AllOk(th, idle, k, n)
    ensures AllOk(Credited(th, idle, cur), idle, k + 1, n)
  {
    hide LoadNext, RecentNext, PriorityOf;
    assert (240 * n + 20 + (k + 1)) * F == (240 * n + 20 + k) * F + F;
  }

  lemma AgedOk(th: map<Tid, Thread>, idle: Option<Tid>, load: nat, n: nat)
    requires AllOk(th, idle, 100, n) && load <= n * F
    ensures AllOk(AgedAll(th, idle, load), idle, 0, n)
  {
    forall t | t in th && idle != Some(t)
      ensures ThreadOk(Aged(th[t], load), 0, n)
    {
      assert (240 * n + 20 + 100) * F == 120 * (2 * n + 1) * F;
      RecentBounded(load, th[t].recent, th[t].nice, n);
    }
  }

  lemma RankedOk(th: map<Tid, Thread>, idle: Option<Tid>, k: nat, n: nat)
    requires AllOk(th, idle, k, n)
    ensures AllOk(RankedAll(th, idle), idle, k, n)
  {
  }

  lemma SecondOk(s: Sched, cur: Tid, ready: nat, n: nat)
    requires s.ticks > 0 && 0 <= s.load <= n * F && Counted(s.idle, cur, ready) <= n
    requires AllOk(s.th, s.idle, (s.ticks - 1) % 100 + 1, n)
    ensures SchedInv(Second(s, cur, ready), n)
  {
    hide LoadNext, RecentNext, PriorityOf, AllOk, AgedAll;
    if s.ticks % 100 == 0 {
      LoadBounded(s.load, Counted(s.idle, cur, ready), n);
      AgedOk(s.th, s.idle, LoadNext(s.load, Counted(s.idle, cur, ready)), n);
    }
  }

  lemma NextInv(s: Sched, e: Event, n: nat)
    requires SchedInv(s, n) && Enabled(s, e, n)
    ensures SchedInv(Next(s, e), n)
  {
    hide LoadNext, RecentNext, PriorityOf;
    match e
    case Tick(cur, ready) =>
      hide AllOk, AgedAll, RankedAll, Credited;
      CreditedOk(s.th, s.idle, cur, s.ticks % 100, n);
      var s0 := s.(ticks := s.ticks + 1, th := Credited(s.th, s.idle, cur));
      SecondOk(s0, cur, ready, n);
      var s1 := Second(s0, cur, ready);
      RankedOk(s1.th, s1.idle, s1.ticks % 100, n);
    case SetNice(cur, nice) => PriorityAntitone(s.th[cur].recent, s.th[cur].recent, nice, nice);
    case Create(parent, t, priority) =>
    case Exit(cur) =>
    case BecomeIdle(cur) =>
  }

  // -------------------------------------------------------------- every run

  /** thread_init: one thread, load average zero. */
  ghost predicate Init(s: Sched) {
    s.ticks == 0 && s.load == 0 && s.idle == None && forall t :: t in s.th ==> ThreadOk(s.th[t], 0, 0) && s.th[t].recent == 0
  }

  ghost predicate Run(states: seq<Sched>, events: seq<Event>, n: nat) {
    && |states| == |events| + 1
    && Init(states[0])
    && forall i :: 0 <= i < |events| ==>
      Enabled(states[i], events[i], n) && states[i + 1] == Next(states[i], events[i])
  }

  /** Load average, recent_cpu and priority stay in range in every state of
      every run. */
  lemma {:induction false} RunInv(states: seq<Sched>, events: seq<Event>, n: nat, i: nat)
    requires Run(states, events, n) && i < |states|
    ensures SchedInv(states[i], n)
    decreases i
  {
    hide Next;
    if i > 0 {
      RunInv(states, events, n, i - 1);
      hide SchedInv;
      NextInv(states[i - 1], events[i - 1], n);
    }
  }

  /** The load average over the reals, after the first i events. */
  ghost function ExactLoad(states: seq<Sched>, events: seq<Event>, i: nat): (x: real)
    requires |states| == |events| + 1 && i < |states|
  {
    if i == 0 then 0.0
    else
      var x := ExactLoad(states, events, i - 1);
      var s, e := states[i - 1], events[i - 1];
      if e.Tick? && (s.ticks + 1) % 100 == 0 then (59.0 * x + Counted(s.idle, e.cur, e.ready) as real) / 60.0 else x
  }

  /** After any number of seconds load_avg is at most 59 units in the last
      place, 0.0036, below the exact weighted average. */
  lemma {:induction false} LoadTracksExact(states: seq<Sched>, events: seq<Event>, n: nat, i: nat)
    requires Run(states, events, n) && i < |states|
    ensures 0.0 <= ExactLoad(states, events, i) * F as real - states[i].load as real <= 59.0
    decreases i
  {
    if i > 0 {
      hide SchedInv, LoadNext, RankedAll, AgedAll, Credited;
      LoadTracksExact(states, events, n, i - 1);
      RunInv(states, events, n, i - 1);
      var s, e := states[i - 1], events[i - 1];
      LoadIs(s, e);
      if e.Tick? && (s.ticks + 1) % 100 == 0 {
        LoadNonNegative(s, n);
        LoadError(s.load, ExactLoad(states, events, i - 1), Counted(s.idle, e.cur, e.ready));
      }
    }
  }

  lemma LoadNonNegative(s: Sched, n: nat)
    requires SchedInv(s, n)
    ensures s.load >= 0
  {
  }

  lemma LoadIs(s: Sched, e: Event)
    ensures Next(s, e).load ==
      if e.Tick? && (s.ticks + 1) % 100 == 0 then LoadNext(s.load, Counted(s.idle, e.cur, e.ready)) else s.load
  {
    hide LoadNext;
  }
}
