/** What the synchronisation invariants mean for callers of threads/synch.c. */
module SynchTheorems {
  import opened Forest
  import opened Prelude
  import opened Synch
  import opened SemaProtocol
  import opened DonationProtocol
  import opened SynchRuns

  ghost predicate Reachable(s: State) {
    exists states, steps, i :: Run(states, steps) && 0 <= i < |states| && states[i] == s
  }

  lemma ReachableInv(s: State)
    requires Reachable(s)
    ensures Inv(s)
  {
    var states, steps, i :| Run(states, steps) && 0 <= i < |states| && states[i] == s;
    RunInv(states, steps, i);
  }

  // ------------------------------------------------------ mutual exclusion

  /** At every moment the value of a lock's semaphore plus the number of threads
      between its down and its up is one; a recorded holder is that thread. */
  lemma MutualExclusion(s: State, l: Sem)
    requires Reachable(s) && l in s.core.holder
    ensures l in s.core.semas && s.core.semas[l].value + |Owners(s.core, l)| == 1
    ensures s.core.holder[l].Some? ==> s.core.semas[l].value == 0 && Owners(s.core, l) == {s.core.holder[l].value}
    ensures forall t, u :: t in Owners(s.core, l) && u in Owners(s.core, l) ==> t == u
  {
    ReachableInv(s);
    assert OwnerAt(s.core, l);
    HolderOwns(s.core, l);
    forall t | t in Owners(s.core, l) ensures Owners(s.core, l) == {t} {
      Singleton(Owners(s.core, l), t);
    }
  }

  /** When lock_acquire passes its sema_down, the assertion holder == NULL
      holds, waiting_lock is clear, and its donate_elem is in no list. */
  lemma AcquireReturns(s: State, t: Tid, l: Sem)
    requires Reachable(s) && PcIs(s.core, t, Took(l))
    ensures l in s.core.holder && s.core.holder[l] == None
    ensures t in s.threads && s.threads[t].waiting == None
    ensures forall u, k :: u in s.threads ==> Donation(k, t) !in s.threads[u].donors
  {
    ReachableInv(s);
    PcSema(s, t);
    NoHolderYet(s.core, t, l);
    OutsideNotWaiting(s, t);
    forall u, k | u in s.threads ensures Donation(k, t) !in s.threads[u].donors {
      NoStrayDonation(s, u, Donation(k, t));
    }
  }

  lemma NoStrayDonation(s: State, u: Tid, d: Donation)
    requires Inv(s) && u in s.threads
    ensures d in s.threads[u].donors <==> Owes(s.threads, s.core.holder, d, u)
    ensures multiset(s.threads[u].donors)[d] <= 1
  {
    assert ListsDonors(s.threads, s.core.holder, u);
    assert multiset(s.threads[u].donors)[d] == if Owes(s.threads, s.core.holder, d, u) then 1 else 0;
  }

  /** An exited thread is held on to by nothing. */
  lemma ExitedUnreferenced(s: State, t: Tid)
    requires Reachable(s) && PcIs(s.core, t, Dead)
    ensures t in s.threads && s.threads[t].donors == [] && s.threads[t].waiting == None
    ensures forall l :: l in s.core.holder ==> s.core.holder[l] != Some(t)
    ensures forall x :: x in s.core.semas ==> t !in s.core.semas[x].waiters
    ensures forall u, k :: u in s.threads ==> Donation(k, t) !in s.threads[u].donors
  {
    ReachableInv(s);
    Domains(s);
    assert s.threads[t].waiting.Some? ==> InAcquire(s.core.pcs[t], s.threads[t].waiting.value);
    forall l | l in s.core.holder ensures s.core.holder[l] != Some(t) {
      assert OwnerAt(s.core, l);
    }
    forall x | x in s.core.semas ensures t !in s.core.semas[x].waiters {
      assert WaitAt(s.core, x) && ListsSleepers(s.core, x);
      assert multiset(s.core.semas[x].waiters)[t] == if PcIs(s.core, t, Asleep(x)) then 1 else 0;
    }
    forall u, k | u in s.threads ensures Donation(k, t) !in s.threads[u].donors {
      NoStrayDonation(s, u, Donation(k, t));
    }
    if s.threads[t].donors != [] {
      NoStrayDonation(s, t, s.threads[t].donors[0]);
    }
  }

  // ---------------------------------------------------------- lost wakeups

  /** While a thread sleeps on a semaphore, every unit of its value has a
      woken thread on its way to test it; so a positive value is never left
      with nobody awake to take it. */
  lemma NoLostWakeup(s: State, t: Tid, x: Sem)
    requires Reachable(s) && PcIs(s.core, t, Asleep(x))
    ensures x in s.core.semas && t in s.core.semas[x].waiters
    ensures s.core.semas[x].value <= |Wakeups(s.core, x)|
    ensures s.core.semas[x].value > 0 ==> exists w :: PcIs(s.core, w, Woken(x))
  {
    ReachableInv(s);
    PcSema(s, t);
    assert WaitAt(s.core, x) && ListsSleepers(s.core, x);
    assert multiset(s.core.semas[x].waiters)[t] == 1;
    if s.core.semas[x].value > 0 {
      assert Wakeups(s.core, x) != {};
      var w :| w in Wakeups(s.core, x);
      assert PcIs(s.core, w, Woken(x));
    }
  }

  // --------------------------------------------------------------- donation

  /** waiting_lock of d is l exactly when one donate_elem (l, d) is linked, once,
      in the list of l's holder; no other list has it. */
  lemma DonationLinked(s: State, d: Tid, l: Sem)
    requires Reachable(s) && d in s.threads
    ensures s.threads[d].waiting == Some(l) <==>
      exists h :: h in s.threads && Donation(l, d) in s.threads[h].donors
    ensures forall u :: u in s.threads && Donation(l, d) in s.threads[u].donors ==>
      && l in s.core.holder && s.core.holder[l] == Some(u)
      && multiset(s.threads[u].donors)[Donation(l, d)] == 1
  {
    ReachableInv(s);
    forall u | u in s.threads
      ensures Donation(l, d) in s.threads[u].donors <==> Owes(s.threads, s.core.holder, Donation(l, d), u)
      ensures Donation(l, d) in s.threads[u].donors ==> multiset(s.threads[u].donors)[Donation(l, d)] == 1
    {
      NoStrayDonation(s, u, Donation(l, d));
    }
    if s.threads[d].waiting == Some(l) { WaitedForHolder(s, d, l); }
  }

  lemma WaitedForHolder(s: State, d: Tid, l: Sem)
    requires Inv(s) && d in s.threads && s.threads[d].waiting == Some(l)
    ensures l in s.core.holder && s.core.holder[l].Some? && s.core.holder[l].value in s.threads
  {
    assert WaitsForHeld(s.threads, s.core.holder, d);
  }

  // ------------------------------------------------------------ termination

  /** The donation walk of lock_acquire ends exactly when the holder is not
      already waiting, directly or through others, for the caller. */
  lemma WalkEndsIffNoDeadlock(s: State, t: Tid, l: Sem)
    requires Reachable(s) && WF(s) && PcIs(s.core, t, Outside) && l in s.core.holder
    requires Donates(s, l) && s.core.holder[l] != Some(t)
    ensures (exists path :: Enabled(s, Acquire(t, l, path)))
      <==> !Reaches(WaitsFor(s.threads, s.core.holder), s.core.holder[l].value, t)
  {
    ReachableInv(s);
    Parts(s);
    OutsideNotWaiting(s, t);
    var holder := s.core.holder;
    var h := holder[l].value;
    var e := WaitsFor(s.threads, holder);
    LinkBooks(s.threads, s.pri, holder, t, l, h);
    NewEdgeWalk(e, t, h);
    var f := WaitsFor(Link(s.threads, s.pri, t, l, h), holder);
    assert f == e[t := h];
    forall path ensures Enabled(s, Acquire(t, l, path)) <==> IsWalk(f, h, path) {}
  }

  /** One step of a run, as a relation. */
  ghost predicate Goes(s: State, step: Step, r: State) {
    WF(s) && Enabled(s, step) && r == Next(s, step)
  }

  /** lock_acquire of a free lock, undisturbed: nothing changes but the value
      and the holder of the lock. */
  lemma Uncontended(s: State, t: Tid, l: Sem)
    requires Reachable(s) && PcIs(s.core, t, Outside)
    requires l in s.core.holder && s.core.holder[l] == None && l in s.core.semas && s.core.semas[l].value > 0
    ensures Reachable(s.(core := TakeAtOnce(s.core, t, l)))
  {
    hide Reachable;
    var c, q := s.core, s.core.semas[l];
    Reach1(s, t, l);
    var s1 := s.(core := At(c, t, Down(l)));
    Reach2(s1, t, l);
    var s2 := s1.(core := At(SetSema(s1.core, l, Sema(q.value - 1, q.waiters)), t, Took(l)));
    Reach3(s2, t, l);
    assert c.pcs[t := Down(l)][t := Took(l)][t := Outside] == c.pcs;
  }

  lemma Reach1(s: State, t: Tid, l: Sem)
    requires Reachable(s) && PcIs(s.core, t, Outside) && l in s.core.holder && s.core.holder[l] == None
    ensures Reachable(s.(core := At(s.core, t, Down(l))))
  {
    hide Reachable, Inv, WF, Donate, IsWalk, WaitsFor, Link;
    ReachableInv(s);
    Parts(s);
    ReachableStep(s, Acquire(t, l, []), s.(core := At(s.core, t, Down(l))));
  }

  lemma Reach2(s: State, t: Tid, l: Sem)
    requires Reachable(s) && PcIs(s.core, t, Down(l)) && l in s.core.holder
    requires l in s.core.semas && s.core.semas[l].value > 0
    ensures
      var q := s.core.semas[l];
      Reachable(s.(core := At(SetSema(s.core, l, Sema(q.value - 1, q.waiters)), t, Took(l))))
  {
    hide Reachable, Inv, WF;
    ReachableInv(s);
    Parts(s);
    ReachableStep(s, Test(t), s.(core := TestValue(s.core, t, l)));
  }

  lemma Reach3(s: State, t: Tid, l: Sem)
    requires Reachable(s) && PcIs(s.core, t, Took(l)) && l in s.core.holder
    ensures Reachable(s.(core := At(s.core.(holder := s.core.holder[l := Some(t)]), t, Outside)))
  {
    hide Reachable, Inv, WF;
    ReachableInv(s);
    Parts(s);
    ReachableStep(s, TakeHolder(t), s.(core := At(s.core.(holder := s.core.holder[l := Some(t)]), t, Outside)));
  }

  /** Two threads that each hold one lock and acquire the other's: t0 holds lock
      0 and waits for lock 1, t1 holds lock 1 and calls lock_acquire on lock 0.
      The call never gets past its donation loop. */
  lemma DeadlockHangs() returns (s: State)
    ensures Reachable(s) && WF(s) && !s.mlfqs && PcIs(s.core, 1, Outside)
    ensures s.core.holder == map[0 := Some(0), 1 := Some(1)] && PcIs(s.core, 0, Down(1))
    ensures forall path :: !Enabled(s, Acquire(1, 0, path))
  {
    hide Reachable, Inv, Enabled, Next, WF;
    PairStarts();
    Uncontended(Pair(1, 1, None, None), 0, 0);
    assert TakeAtOnce(Pair(1, 1, None, None).core, 0, 0) == Pair(0, 1, Some(0), None).core;
    Uncontended(Pair(0, 1, Some(0), None), 1, 1);
    assert TakeAtOnce(Pair(0, 1, Some(0), None).core, 1, 1) == Pair(0, 0, Some(0), Some(1)).core;
    s := PairWaits();
    ReachableInv(Pair(0, 0, Some(0), Some(1)));
    PairDonates();
    ReachableStep(Pair(0, 0, Some(0), Some(1)), Acquire(0, 1, [1]), s);
    ReachableInv(s);
    Parts(s);
    PairStuck(s);
    WalkEndsIffNoDeadlock(s, 1, 0);
  }

  function Pair(v0: nat, v1: nat, h0: Option<Tid>, h1: Option<Tid>): (s: State) {
    State(false, map[0 := Thread(31, None, []), 1 := Thread(31, None, [])], map[0 := 31, 1 := 31],
          Core(map[0 := Outside, 1 := Outside], map[0 := Sema(v0, []), 1 := Sema(v1, [])], map[0 := h0, 1 := h1]))
  }

  function PairWaits(): (s: State) {
    State(false, map[0 := Thread(31, Some(1), []), 1 := Thread(31, None, [Donation(1, 0)])], map[0 := 31, 1 := 31],
          At(Pair(0, 0, Some(0), Some(1)).core, 0, Down(1)))
  }

  lemma PairStarts()
    ensures Reachable(Pair(1, 1, None, None))
  {
    var s := Pair(1, 1, None, None);
    assert Run([s], []);
  }

  lemma PairDonates()
    requires WF(Pair(0, 0, Some(0), Some(1)))
    ensures Goes(Pair(0, 0, Some(0), Some(1)), Acquire(0, 1, [1]), PairWaits())
  {
    hide WF;
    var s := Pair(0, 0, Some(0), Some(1));
    PairLinks(s);
    var threads := PairWaits().threads;
    assert 1 !in WaitsFor(threads, s.core.holder);
    assert IsWalk(WaitsFor(threads, s.core.holder), 1, [1]);
  }

  lemma PairLinks(s: State)
    requires WF(s) && s == Pair(0, 0, Some(0), Some(1))
    ensures Link(s.threads, s.pri, 0, 1, 1) == PairWaits().threads
    ensures AllDonorsIn(PairWaits().threads, s.pri) && Settle(PairWaits().threads, s.pri, [1]) == s.pri
  {
    LinkKeeps(s.threads, s.pri, 0, 1, 1);
    assert Link(s.threads, s.pri, 0, 1, 1) == PairWaits().threads;
    hide WF, Link, AllDonorsIn;
    PairSettles(s);
  }

  lemma PairSettles(s: State)
    requires s == Pair(0, 0, Some(0), Some(1)) && AllDonorsIn(PairWaits().threads, s.pri)
    ensures Settle(PairWaits().threads, s.pri, [1]) == s.pri
  {
    var threads := PairWaits().threads;
    assert [Donation(1, 0)][1..] == [];
    assert MaxOver(s.pri, 31, [Donation(1, 0)]) == 31;
    assert Update(threads, s.pri, 1) == s.pri;
  }

  lemma PairStuck(s: State)
    requires s == PairWaits()
    ensures Reaches(WaitsFor(s.threads, s.core.holder), 0, 1)
  {
    var e := WaitsFor(s.threads, s.core.holder);
    assert 0 in e && e[0] == 1;
    assert Steps(e, 1, 0, 1);
    assert Steps(e, 0, 1, 1);
  }

  lemma ReachableStep(s: State, step: Step, r: State)
    requires Reachable(s) && Goes(s, step, r)
    ensures Reachable(r)
  {
    hide WF, Enabled, Next, Init;
    var states, steps, i :| Run(states, steps) && 0 <= i < |states| && states[i] == s;
    var more, all := states[..i + 1] + [r], steps[..i] + [step];
    forall j | 0 <= j < |all|
      ensures WF(more[j]) && Enabled(more[j], all[j]) && more[j + 1] == Next(more[j], all[j])
    {
      if j < i { assert more[j] == states[j] && more[j + 1] == states[j + 1] && all[j] == steps[j]; }
    }
    assert Run(more, all) && more[i + 1] == r;
  }

  // --------------------------------------------------------- lock ordering

  /** t is inside lock_acquire of lock l and does not own it yet. */
  ghost predicate Awaits(c: Core, t: Tid, l: Sem) {
    t in c.pcs && l in c.holder && InAcquire(c.pcs[t], l)
  }

  /** A thread inside lock_acquire holds only locks of lower rank. */
  ghost predicate RankInv(c: Core, rank: Sem -> int) {
    forall t: Tid, l: Sem, k: Sem :: Awaits(c, t, l) && k in c.holder && c.holder[k] == Some(t) ==> rank(k) < rank(l)
  }

  /** lock_acquire is called only for a lock above every lock the caller holds,
      and an interrupt handler takes, on behalf of a thread that is inside
      lock_acquire, only a lock below the one that thread is acquiring. */
  ghost predicate Ordered(s: State, step: Step, rank: Sem -> int) {
    && (step.Acquire? ==> forall k :: k in s.core.holder && s.core.holder[k] == Some(step.t) ==> rank(k) < rank(step.l))
    && (step.HandlerTry? ==> forall m :: Awaits(s.core, step.t, m) ==> rank(step.l) < rank(m))
  }

  ghost function Above(holder: Holders, rank: Sem -> int, r: int): (ks: set<Sem>) {
    set k | k in holder && rank(k) > r
  }

  /** Through waiting_lock ranks grow along every chain of waits. */
  ghost predicate WaitRanks(threads: Threads, holder: Holders, rank: Sem -> int) {
    forall t, k :: t in threads && threads[t].waiting.Some? && k in holder && holder[k] == Some(t) ==>
      rank(k) < rank(threads[t].waiting.value)
  }

  /** So the chain ends. */
  lemma {:induction false} RankedWalk(threads: Threads, holder: Holders, rank: Sem -> int, t: Tid)
    requires WaitRanks(threads, holder, rank)
    ensures HasWalk(WaitsFor(threads, holder), t)
    decreases if t in WaitsFor(threads, holder) then 1 + |Above(holder, rank, rank(threads[t].waiting.value))| else 0
  {
    var e := WaitsFor(threads, holder);
    if t in e {
      var l := threads[t].waiting.value;
      var h := e[t];
      if h in e {
        var k := threads[h].waiting.value;
        var lower, upper := Above(holder, rank, rank(l)), Above(holder, rank, rank(k));
        assert upper <= lower - {k};
        Shrinks(upper, lower, k);
      }
      RankedWalk(threads, holder, rank, h);
      var p :| IsWalk(e, h, p);
      assert ([t] + p)[1..] == p;
      assert IsWalk(e, t, [t] + p);
    } else {
      assert IsWalk(e, t, [t]);
    }
  }

  lemma Shrinks<A>(a: set<A>, b: set<A>, x: A)
    requires a <= b - {x} && x in b
    ensures |a| < |b|
  {
    SubsetSize(a, b - {x});
  }

  lemma {:induction false} SubsetSize<A>(a: set<A>, b: set<A>)
    requires a <= b
    ensures |a| <= |b|
    decreases a
  {
    if a != {} {
      var x :| x in a;
      SubsetSize(a - {x}, b - {x});
    }
  }

  /** Under the ordering discipline the invariant on ranks is kept. */
  lemma RankStep(s: State, step: Step, rank: Sem -> int)
    requires Inv(s) && Enabled(s, step) && Ordered(s, step, rank) && RankInv(s.core, rank)
    ensures RankInv(Next(s, step).core, rank)
  {
    hide Inv, Enabled, Next, Awaits, WF;
    Parts(s);
    var c := Next(s, step).core;
    forall t: Tid, l: Sem, k: Sem | Awaits(c, t, l) && k in c.holder && c.holder[k] == Some(t)
      ensures rank(k) < rank(l)
    {
      StepAwaits(s, step, t, l);
      StepHolders(s, step, k);
    }
  }

  /** Only lock_acquire makes a thread await a lock. */
  lemma StepAwaits(s: State, step: Step, u: Tid, k: Sem)
    requires Inv(s) && Enabled(s, step) && Awaits(Next(s, step).core, u, k)
    ensures Awaits(s.core, u, k) || (step.Acquire? && u == step.t && k == step.l)
    ensures !(step.TakeHolder? && u == step.t)
  {
    hide Inv, WF, Enabled, Next, Awaits;
    if step.FinishRelease? || step.Post? {
      WakeAwaits(s, step, u, k);
    } else if step.Acquire? || step.StartRelease? || step.SetPriority? {
      DonorAwaits(s, step, u, k);
    } else if Taking(step) {
      TakingAwaits(s, step, u, k);
    } else {
      QuietStep(s, step, u, k);
    }
  }

  lemma WakeAwaits(s: State, step: Step, u: Tid, k: Sem)
    requires Inv(s) && Enabled(s, step) && (step.FinishRelease? || step.Post?)
    requires Awaits(Next(s, step).core, u, k)
    ensures Awaits(s.core, u, k)
  {
    hide Inv, WF, Up, AllIn;
    Parts(s);
    if step.Post? {
      WaitersKnown(s, step.x);
      UpAwaits(s, step.x, u, k);
    } else {
      PcSema(s, step.t);
      WaitersKnown(s, s.core.pcs[step.t].s);
      UpAwaits(s, s.core.pcs[step.t].s, u, k);
    }
  }

  lemma DonorAwaits(s: State, step: Step, u: Tid, k: Sem)
    requires Inv(s) && Enabled(s, step) && (step.Acquire? || step.StartRelease? || step.SetPriority?)
    requires Awaits(Next(s, step).core, u, k)
    ensures Awaits(s.core, u, k) || (step.Acquire? && u == step.t && k == step.l)
  {
    hide Inv, CoreInv, CoreWF, AllDonorsIn, DonorInv, WaitPcInv, Donate, Released, Rebased, IsWalk, WaitsFor;
    Parts(s);
    Domains(s);
    match step {
      case Acquire(t, l, path) => if Donates(s, l) { DonateCore(s, t, l, path); }
      case StartRelease(t, l) => ReleasedCoreIs(s, t, l);
      case SetPriority(t, p) => RebasedCore(s, t, p);
    }
  }

  ghost predicate Taking(step: Step) {
    step.Test? || step.TakeHolder? || step.TryAcquire? || step.HandlerTry?
  }

  ghost predicate Quiet(step: Step) {
    step.StartDown? || step.TryDown? || step.SetNice? || step.Recompute? || step.Create? || step.Exit?
  }

  lemma TakingAwaits(s: State, step: Step, u: Tid, k: Sem)
    requires Inv(s) && Enabled(s, step) && Taking(step) && Awaits(Next(s, step).core, u, k)
    ensures Awaits(s.core, u, k)
    ensures !(step.TakeHolder? && u == step.t)
  {
    hide Inv, WF, Donate, Released, Rebased, IsWalk, WaitsFor, Up, Created;
    Parts(s);
    Domains(s);
    if step.Test? || step.TakeHolder? { PcSema(s, step.t); }
  }

  lemma TakingHolders(s: State, step: Step, k: Sem)
    requires Inv(s) && Enabled(s, step) && Taking(step) && k in Next(s, step).core.holder
    ensures k in s.core.holder
    ensures
      var h := Next(s, step).core.holder[k];
      || h == s.core.holder[k]
      || (step.TakeHolder? && h == Some(step.t))
      || (step.HandlerTry? && k == step.l && h == Some(step.t))
  {
    hide Inv, WF, Donate, Released, Rebased, IsWalk, WaitsFor, Up, Created;
    Parts(s);
    Domains(s);
    if step.Test? || step.TakeHolder? { PcSema(s, step.t); }
  }

  lemma QuietStep(s: State, step: Step, u: Tid, k: Sem)
    requires Inv(s) && Enabled(s, step) && Quiet(step)
    ensures Next(s, step).core.holder == s.core.holder
    ensures Awaits(Next(s, step).core, u, k) ==> Awaits(s.core, u, k)
  {
    hide Inv, WF, Awaits;
    Parts(s);
    match step {
      case StartDown(t, x) => MovedAwaits(s.core, t, Down(x), u, k);
      case Create(t, p) => MovedAwaits(s.core, t, Outside, u, k);
      case Exit(t) => MovedAwaits(s.core, t, Dead, u, k);
      case TryDown(x) => SameAwaits(s.core, Next(s, step).core, u, k);
      case _ =>
    }
  }

  lemma MovedAwaits(c: Core, t: Tid, pc: PC, u: Tid, k: Sem)
    requires pc.Outside? || pc.Dead? || (pc.Down? && pc.s !in c.holder)
    ensures Awaits(At(c, t, pc), u, k) ==> Awaits(c, u, k)
  {
  }

  lemma SameAwaits(c: Core, r: Core, u: Tid, k: Sem)
    requires r.holder == c.holder && r.pcs == c.pcs
    ensures Awaits(r, u, k) ==> Awaits(c, u, k)
  {
  }

  lemma DonateCore(s: State, t: Tid, l: Sem, path: seq<Tid>)
    requires WF(s) && Enabled(s, Acquire(t, l, path)) && Donates(s, l)
    ensures Donate(s, t, l, path).core == At(s.core, t, Down(l))
  {
  }

  lemma ReleasedCoreIs(s: State, t: Tid, l: Sem)
    requires AllDonorsIn(s.threads, s.pri) && t in s.threads
    ensures Released(s, t, l).core == At(s.core.(holder := s.core.holder[l := None]), t, Giving(l))
  {
  }

  lemma RebasedCore(s: State, t: Tid, p: int)
    requires AllDonorsIn(s.threads, s.pri) && t in s.threads
    ensures Rebased(s, t, p).core == s.core
  {
  }

  /** sema_up moves at most a sleeper, and keeps it at the same semaphore. */
  lemma UpAwaits(s: State, x: Sem, u: Tid, k: Sem)
    requires Inv(s) && x in s.core.semas && AllIn(s.core.semas[x].waiters, s.pri.Keys)
    ensures Up(s.core, s.pri, x).holder == s.core.holder
    ensures Awaits(Up(s.core, s.pri, x), u, k) ==> Awaits(s.core, u, k)
  {
    var i := UpIndex(s.core, s.pri, x);
    var ws := s.core.semas[x].waiters;
    assert WaitAt(s.core, x);
    if ws != [] {
      assert multiset(ws)[ws[i]] > 0;
      assert PcIs(s.core, ws[i], Asleep(x));
    }
  }

  /** Only the end of lock_acquire or lock_try_acquire sets a holder. */
  lemma StepHolders(s: State, step: Step, k: Sem)
    requires Inv(s) && Enabled(s, step)
    requires k in Next(s, step).core.holder && Next(s, step).core.holder[k].Some?
    ensures k in s.core.holder
    ensures
      var h := Next(s, step).core.holder[k];
      || h == s.core.holder[k]
      || (step.TakeHolder? && h == Some(step.t))
      || (step.HandlerTry? && k == step.l && h == Some(step.t))
  {
    hide Inv, WF, Enabled, Next;
    if step.FinishRelease? || step.Post? {
      WakeHolders(s, step, k);
    } else if step.Acquire? || step.StartRelease? || step.SetPriority? {
      DonorHolders(s, step, k);
    } else if Taking(step) {
      TakingHolders(s, step, k);
    } else {
      QuietStep(s, step, 0, k);
    }
  }

  lemma WakeHolders(s: State, step: Step, k: Sem)
    requires Inv(s) && Enabled(s, step) && (step.FinishRelease? || step.Post?)
    ensures Next(s, step).core.holder == s.core.holder
  {
    hide Inv, WF, Up, AllIn;
    Parts(s);
    if step.Post? {
      WaitersKnown(s, step.x);
      UpAwaits(s, step.x, 0, k);
    } else {
      PcSema(s, step.t);
      WaitersKnown(s, s.core.pcs[step.t].s);
      UpAwaits(s, s.core.pcs[step.t].s, 0, k);
    }
  }

  lemma DonorHolders(s: State, step: Step, k: Sem)
    requires Inv(s) && Enabled(s, step) && (step.Acquire? || step.StartRelease? || step.SetPriority?)
    requires k in Next(s, step).core.holder && Next(s, step).core.holder[k].Some?
    ensures k in s.core.holder && Next(s, step).core.holder[k] == s.core.holder[k]
  {
    hide Inv, CoreInv, CoreWF, AllDonorsIn, DonorInv, WaitPcInv, Donate, Released, Rebased, IsWalk, WaitsFor;
    Parts(s);
    Domains(s);
    match step {
      case Acquire(t, l, path) => if Donates(s, l) { DonateCore(s, t, l, path); }
      case StartRelease(t, l) => ReleasedCoreIs(s, t, l);
      case SetPriority(t, p) => RebasedCore(s, t, p);
    }
  }

  ghost predicate OrderedRun(states: seq<State>, steps: seq<Step>, rank: Sem -> int) {
    Run(states, steps) && forall i :: 0 <= i < |steps| ==> Ordered(states[i], steps[i], rank)
  }

  lemma RankInit(s: State, rank: Sem -> int)
    requires Init(s)
    ensures RankInv(s.core, rank)
  {
  }

  lemma {:induction false} RankRun(states: seq<State>, steps: seq<Step>, rank: Sem -> int, i: nat)
    requires OrderedRun(states, steps, rank) && i < |states|
    ensures RankInv(states[i].core, rank)
    decreases i
  {
    hide Inv, Next, Enabled, Ordered, RankInv, WF, Init;
    if i == 0 {
      RankInit(states[0], rank);
    } else {
      RankRun(states, steps, rank, i - 1);
      RunInv(states, steps, i - 1);
      assert Ordered(states[i - 1], steps[i - 1], rank);
      RankStep(states[i - 1], steps[i - 1], rank);
    }
  }

  /** If every thread acquires locks in increasing rank, then in every run the
      donation walk of any further ordered acquire ends. */
  lemma OrderedNeverHangs(states: seq<State>, steps: seq<Step>, rank: Sem -> int, i: nat, t: Tid, l: Sem)
    requires OrderedRun(states, steps, rank) && i < |states|
    requires WF(states[i]) && PcIs(states[i].core, t, Outside) && l in states[i].core.holder
    requires Donates(states[i], l) && states[i].core.holder[l] != Some(t)
    requires Ordered(states[i], Acquire(t, l, []), rank)
    ensures exists path :: Enabled(states[i], Acquire(t, l, path))
  {
    var s := states[i];
    RankRun(states, steps, rank, i);
    RunInv(states, steps, i);
    LinkRanks(s, t, l, rank);
    var h := s.core.holder[l].value;
    var threads := Link(s.threads, s.pri, t, l, h);
    RankedWalk(threads, s.core.holder, rank, h);
    var path :| IsWalk(WaitsFor(threads, s.core.holder), h, path);
    assert Enabled(s, Acquire(t, l, path));
  }

  lemma LinkRanks(s: State, t: Tid, l: Sem, rank: Sem -> int)
    requires Inv(s) && RankInv(s.core, rank) && PcIs(s.core, t, Outside) && l in s.core.holder
    requires Donates(s, l) && s.core.holder[l] != Some(t) && Ordered(s, Acquire(t, l, []), rank)
    ensures AllDonorsIn(s.threads, s.pri) && t in s.threads && s.core.holder[l].value in s.threads
    ensures WaitRanks(Link(s.threads, s.pri, t, l, s.core.holder[l].value), s.core.holder, rank)
  {
    Domains(s);
    var h := s.core.holder[l].value;
    var threads := Link(s.threads, s.pri, t, l, h);
    forall u, k | u in threads && threads[u].waiting.Some? && k in s.core.holder && s.core.holder[k] == Some(u)
      ensures rank(k) < rank(threads[u].waiting.value)
    {
      if u != t {
        var m := s.threads[u].waiting.value;
        assert WaitsForHeld(s.threads, s.core.holder, u) && InAcquire(s.core.pcs[u], m);
        assert Awaits(s.core, u, m);
      }
    }
  }

  /** Threads each of which awaits a lock owned by the next, in a circle. */
  ghost predicate Circle(c: Core, ts: seq<Tid>, ls: seq<Sem>) {
    && |ts| == |ls| > 0
    && (forall i :: 0 <= i < |ts| ==> Awaits(c, ts[i], ls[i]))
    && (forall i :: 1 <= i < |ts| ==> Owns(c, ts[i], ls[i - 1]))
    && Owns(c, ts[0], ls[|ts| - 1])
  }

  /** If every thread acquires locks in increasing rank, no state of any run has
      threads that await each other's locks in a circle. */
  lemma OrderedNeverDeadlocks(states: seq<State>, steps: seq<Step>, rank: Sem -> int, i: nat, ts: seq<Tid>, ls: seq<Sem>)
    requires OrderedRun(states, steps, rank) && i < |states|
    ensures !Circle(states[i].core, ts, ls)
  {
    RankRun(states, steps, rank, i);
    if Circle(states[i].core, ts, ls) {
      CircleClimbs(states[i].core, ts, ls, rank, |ts| - 1);
      assert Awaits(states[i].core, ts[|ts| - 1], ls[|ts| - 1]);
      OwnerAwaits(states[i].core, rank, ts[|ts| - 1], ts[0], ls[|ts| - 1], ls[0]);
    }
  }

  /** A thread that awaits a lock owns only locks of lower rank. */
  lemma OwnerAwaits(c: Core, rank: Sem -> int, w: Tid, t: Tid, k: Sem, l: Sem)
    requires RankInv(c, rank) && Awaits(c, w, k) && Owns(c, t, k) && Awaits(c, t, l)
    ensures rank(k) < rank(l)
  {
  }

  lemma {:induction false} CircleClimbs(c: Core, ts: seq<Tid>, ls: seq<Sem>, rank: Sem -> int, i: nat)
    requires RankInv(c, rank) && Circle(c, ts, ls) && i < |ts|
    ensures rank(ls[0]) <= rank(ls[i])
    decreases i
  {
    hide RankInv, Awaits, Owns;
    if i > 0 {
      CircleClimbs(c, ts, ls, rank, i - 1);
      assert Awaits(c, ts[i - 1], ls[i - 1]);
      OwnerAwaits(c, rank, ts[i - 1], ts[i], ls[i - 1], ls[i]);
    }
  }

  /** A thread that lets others go on: it is about to test a free lock it
      awaits, or it owns a lock and awaits none. */
  ghost predicate CanGoOn(c: Core, u: Tid) {
    || (exists l :: Awaits(c, u, l) && l in c.semas && c.semas[l].value > 0 && !PcIs(c, u, Asleep(l)))
    || ((exists l :: l in c.holder && Owns(c, u, l)) && forall l :: !Awaits(c, u, l))
  }

  /** If every thread acquires locks in increasing rank, then in every state in
      which some thread awaits a lock, some thread can go on. */
  lemma OrderedNeverStalls(states: seq<State>, steps: seq<Step>, rank: Sem -> int, i: nat, t: Tid, l: Sem)
    requires OrderedRun(states, steps, rank) && i < |states| && Awaits(states[i].core, t, l)
    ensures exists u :: CanGoOn(states[i].core, u)
  {
    RankRun(states, steps, rank, i);
    RunInv(states, steps, i);
    Climb(states[i], rank, t, l);
  }

  lemma {:induction false} Climb(s: State, rank: Sem -> int, t: Tid, l: Sem)
    requires Inv(s) && RankInv(s.core, rank) && Awaits(s.core, t, l)
    ensures exists u :: CanGoOn(s.core, u)
    decreases |Above(s.core.holder, rank, rank(l))|
  {
    var c := s.core;
    assert OwnerAt(c, l);
    if c.semas[l].value > 0 {
      if PcIs(c, t, Asleep(l)) {
        var w := SleeperHasWaker(s, t, l);
        assert Awaits(c, w, l) && CanGoOn(c, w);
      } else {
        assert CanGoOn(c, t);
      }
    } else {
      assert Owners(c, l) != {};
      var u :| u in Owners(c, l);
      if k :| Awaits(c, u, k) {
        OwnerAwaits(c, rank, t, u, l, k);
        var lower, upper := Above(c.holder, rank, rank(l)), Above(c.holder, rank, rank(k));
        assert upper <= lower - {k};
        Shrinks(upper, lower, k);
        Climb(s, rank, u, k);
      } else {
        assert CanGoOn(c, u);
      }
    }
  }

  lemma SleeperHasWaker(s: State, t: Tid, x: Sem) returns (w: Tid)
    requires Inv(s) && PcIs(s.core, t, Asleep(x)) && x in s.core.semas && s.core.semas[x].value > 0
    ensures PcIs(s.core, w, Woken(x))
  {
    assert WaitAt(s.core, x) && ListsSleepers(s.core, x);
    assert multiset(s.core.semas[x].waiters)[t] == 1;
    assert Wakeups(s.core, x) != {};
    w :| w in Wakeups(s.core, x);
  }
}
