/** The advanced scheduler's numbers, stated exactly: which load average,
    recent_cpu and priority every event of a run leaves behind, in plain integer
    inequalities. */
module MlfqsExact {
  import opened Prelude
  import opened Arithmetic
  import opened Mlfqs
  import opened MlfqsRuns

  /** q is n / d rounded towards zero. */
  ghost predicate TowardsZero(q: int, n: int, d: int) {
    if n >= 0 then q * d <= n < q * d + d else q * d - d < n <= q * d
  }

  lemma TowardsZeroUnique(q: int, r: int, n: int, d: int)
    requires d > 0 && TowardsZero(q, n, d) && TowardsZero(r, n, d)
    ensures q == r
  {
    assert (q + 1) * d == q * d + d && (r + 1) * d == r * d + d;
    CancelLt(q, r + 1, d);
    CancelLt(r, q + 1, d);
  }

  /** p is the priority 63 - recent / 4 - 2 * nice in 17.14 fixed point: recent / 4
      rounded towards zero, the difference rounded down, kept within 0 and 63. */
  ghost predicate IsPriority(p: int, recent: int, nice: int) {
    exists q :: TowardsZero(q, recent, 4) && ClampsTo(63 * 16384 - q - 2 * nice * 16384, p)
  }

  /** p is x / 2^14 rounded down, kept within 0 and 63. */
  ghost predicate ClampsTo(x: int, p: int) {
    && (0 <= x < 64 * 16384 ==> p * 16384 <= x < p * 16384 + 16384)
    && (x >= 64 * 16384 ==> p == 63)
    && (x < 0 ==> p == 0)
  }

  /** thread_priority_calc_mlfqs computes that priority. */
  lemma PriorityExactly(recent: int, nice: int)
    ensures IsPriority(PriorityOf(recent, nice), recent, nice)
  {
    var q := Trunc(recent, 4);
    TruncSpec(recent, 4);
    var x := 63 * 16384 - q - 2 * nice * 16384;
    TruncSpec(x, 16384);
    hide Trunc;
    assert TowardsZero(q, recent, 4);
    assert ClampsTo(x, PriorityOf(recent, nice));
  }

  /** No other number is. */
  lemma PriorityUnique(p: int, p': int, recent: int, nice: int)
    requires IsPriority(p, recent, nice) && IsPriority(p', recent, nice)
    ensures p == p' && 0 <= p <= 63
  {
    var q :| TowardsZero(q, recent, 4) && ClampsTo(63 * 16384 - q - 2 * nice * 16384, p);
    var q' :| TowardsZero(q', recent, 4) && ClampsTo(63 * 16384 - q' - 2 * nice * 16384, p');
    TowardsZeroUnique(q, q', recent, 4);
  }

  /** recent is 2 * load / (2 * load + 1) * was + nice in 17.14 fixed point, each
      quotient rounded towards zero. */
  ghost predicate Decays(load: int, was: int, nice: int, recent: int) {
    exists c, q ::
      TowardsZero(c, 2 * load * 16384, 2 * load + 16384) && TowardsZero(q, c * was, 16384) && recent == q + nice * 16384
  }

  lemma RecentExactly(load: nat, was: int, nice: int)
    ensures Decays(load, was, nice, RecentNext(load, was, nice))
  {
    var c := Coeff(load);
    TruncSpec(2 * load * 16384, 2 * load + 16384);
    TruncSpec(c * was, 16384);
    hide Trunc;
    assert TowardsZero(c, 2 * load * 16384, 2 * load + 16384);
    var q := RecentNext(load, was, nice) - nice * 16384;
    assert TowardsZero(q, c * was, 16384);
  }

  lemma LoadExactly(load: int, ready: int)
    ensures TowardsZero(LoadNext(load, ready), 59 * load + ready * 16384, 60)
  {
    TruncSpec(59 * load + ready * 16384, 60);
    hide Trunc;
  }

  // ------------------------------------------------------------ timer ticks

  /** What a tick does to thread t: the running thread is credited one tick; in
      every second the credit decays under the load average of that second; at
      every fourth tick the priority follows from the new recent_cpu. */
  ghost predicate ThreadTicked(s: Sched, cur: Tid, r: Sched, t: Tid) {
    && t in s.th && t in r.th
    && if s.idle == Some(t) then r.th[t] == s.th[t]
       else
         var credit := s.th[t].recent + if t == cur then 16384 else 0;
         && r.th[t].nice == s.th[t].nice
         && (r.ticks % 100 != 0 ==> r.th[t].recent == credit)
         && (r.ticks % 100 == 0 ==> Decays(r.load, credit, s.th[t].nice, r.th[t].recent))
         && (r.ticks % 4 != 0 ==> r.th[t].priority == s.th[t].priority)
         && (r.ticks % 4 == 0 ==> IsPriority(r.th[t].priority, r.th[t].recent, r.th[t].nice))
  }

  ghost predicate Ticked(s: Sched, cur: Tid, ready: nat, r: Sched) {
    && r.ticks == s.ticks + 1 && r.idle == s.idle && r.th.Keys == s.th.Keys
    && (r.ticks % 100 != 0 ==> r.load == s.load)
    && (r.ticks % 100 == 0 ==>
          TowardsZero(r.load, 59 * s.load + (if s.idle == Some(cur) then ready else ready + 1) * 16384, 60))
    && forall t :: t in s.th ==> ThreadTicked(s, cur, r, t)
  }

  lemma TickThread(s: Sched, cur: Tid, ready: nat, n: nat, t: Tid)
    requires SchedInv(s, n) && Enabled(s, Tick(cur, ready), n) && t in s.th
    ensures ThreadTicked(s, cur, Next(s, Tick(cur, ready)), t)
  {
    hide PriorityOf, RecentNext, LoadNext, Decays, IsPriority;
    var load := LoadNext(s.load, Counted(s.idle, cur, ready));
    LoadBounded(s.load, Counted(s.idle, cur, ready), n);
    var r := Next(s, Tick(cur, ready));
    if s.idle != Some(t) {
      var credit := s.th[t].recent + if t == cur then 16384 else 0;
      RecentExactly(load, credit, s.th[t].nice);
      PriorityExactly(credit, s.th[t].nice);
      PriorityExactly(RecentNext(load, credit, s.th[t].nice), s.th[t].nice);
    }
  }

  /** Every timer interrupt of every run. */
  lemma TickExactly(states: seq<Sched>, events: seq<Event>, n: nat, i: nat)
    requires Run(states, events, n) && i < |events| && events[i].Tick?
    ensures Ticked(states[i], events[i].cur, events[i].ready, states[i + 1])
  {
    var s, cur, ready := states[i], events[i].cur, events[i].ready;
    RunInv(states, events, n, i);
    assert Enabled(s, events[i], n) && states[i + 1] == Next(s, events[i]);
    LoadExactly(s.load, Counted(s.idle, cur, ready));
    TickShape(s, cur, ready);
    hide SchedInv, Next, Run, Enabled, ThreadTicked, LoadNext;
    forall t | t in s.th ensures ThreadTicked(s, cur, states[i + 1], t) {
      TickThread(s, cur, ready, n, t);
    }
  }

  lemma TickShape(s: Sched, cur: Tid, ready: nat)
    ensures
      var r := Next(s, Tick(cur, ready));
      && r.ticks == s.ticks + 1 && r.idle == s.idle && r.th.Keys == s.th.Keys
      && r.load == if r.ticks % 100 == 0 then LoadNext(s.load, Counted(s.idle, cur, ready)) else s.load
  {
    hide LoadNext, PriorityOf, RecentNext;
  }

  /** The priority of every thread that is not idle, in every state of a run that
      follows a fourth tick. */
  lemma RankedRuns(states: seq<Sched>, events: seq<Event>, n: nat, i: nat, t: Tid)
    requires Run(states, events, n) && i < |events| && events[i].Tick? && states[i + 1].ticks % 4 == 0
    requires t in states[i + 1].th && states[i].idle != Some(t)
    ensures
      var x := states[i + 1].th[t];
      IsPriority(x.priority, x.recent, x.nice)
  {
    hide Run;
    RunSize(states, events, n);
    TickExactly(states, events, n, i);
    assert ThreadTicked(states[i], events[i].cur, states[i + 1], t);
  }

  lemma RunSize(states: seq<Sched>, events: seq<Event>, n: nat)
    requires Run(states, events, n)
    ensures |states| == |events| + 1
  {
  }

  // ------------------------------------------------------------ other events

  /** thread_set_nice stores the niceness and the priority that follows from it;
      a new thread inherits recent_cpu and niceness from its creator; and nothing
      else changes. */
  lemma OtherExactly(s: Sched, e: Event, n: nat)
    requires Enabled(s, e, n) && !e.Tick?
    ensures Next(s, e).ticks == s.ticks && Next(s, e).load == s.load
    ensures e.SetNice? ==>
      && e.cur in s.th && e.cur in Next(s, e).th && Next(s, e) == s.(th := s.th[e.cur := Next(s, e).th[e.cur]])
      && var x := Next(s, e).th[e.cur];
      x.nice == e.nice && x.recent == s.th[e.cur].recent && IsPriority(x.priority, x.recent, x.nice)
    ensures e.Create? ==>
      && e.parent in s.th
      && Next(s, e) == s.(th := s.th[e.t := Thread(s.th[e.parent].recent, s.th[e.parent].nice, e.priority)])
    ensures e.Exit? ==> Next(s, e) == s.(th := s.th - {e.cur})
    ensures e.BecomeIdle? ==> Next(s, e) == s.(idle := Some(e.cur))
  {
    hide PriorityOf, IsPriority;
    if e.SetNice? { PriorityExactly(s.th[e.cur].recent, e.nice); }
  }
}
