/** Effective priorities over whole runs.  thread_set_nice overwrites the
    running thread's priority whether or not the MLFQS scheduler is on; every
    other step leaves each thread at the maximum of its base priority and its
    donors' priorities. */
module DonationRuns {
  import opened Forest
  import opened Prelude
  import opened Synch
  import opened SemaProtocol
  import opened DonationProtocol
  import opened SynchRuns
  import Mlfqs

  /** The value donate_priority_update would store. */
  ghost function Maximum(s: State, t: Tid): (r: int)
    requires WF(s) && t in s.threads
  {
    assert DonorsIn(s.pri, s.threads[t].donors);
    MaxOver(s.pri, s.threads[t].base, s.threads[t].donors)
  }

  ghost predicate Balanced(s: State)
    requires WF(s)
  {
    forall t :: t in s.threads ==> s.pri[t] == Maximum(s, t)
  }

  /** The condition on a step, to be read off before it is taken: what
      thread_set_nice computes is what donation would have computed. */
  ghost predicate Fits(s: State, step: Step)
    requires WF(s) && Enabled(s, step)
  {
    step.SetNice? ==> step.p == Maximum(s, step.t)
  }

  /** The threads whose priority may differ from the maximum after a step:
      thread_set_nice can add its caller; a donation walk, lock_release and
      thread_set_priority take out the threads they update. */
  ghost function UpsetBy(s: State, step: Step, upset: set<Tid>): (r: set<Tid>)
    requires WF(s) && Enabled(s, step)
  {
    match step
    case Acquire(t, l, path) => if Donates(s, l) then upset - Members(path) else upset
    case StartRelease(t, l) => upset - {t}
    case SetPriority(t, p) => upset - {t}
    case Create(t, p) => upset - {t}
    case SetNice(t, p) => if Fits(s, step) then upset - {t} else upset + {t}
    case _ => upset
  }

  ghost function Upset(states: seq<State>, steps: seq<Step>, i: nat): (r: set<Tid>)
    requires Run(states, steps) && i < |states|
    decreases i
  {
    if i == 0 then {} else UpsetBy(states[i - 1], steps[i - 1], Upset(states, steps, i - 1))
  }

  // ------------------------------------------------------------- one step

  lemma StepBalance(s: State, step: Step, upset: set<Tid>)
    requires Inv(s) && Enabled(s, step) && !s.mlfqs && BalancedExcept(s.threads, s.pri, upset)
    ensures
      var r := Next(s, step);
      AllDonorsIn(r.threads, r.pri) && BalancedExcept(r.threads, r.pri, UpsetBy(s, step, upset))
  {
    hide Inv, CoreInv, DonorInv, WaitPcInv, CoreWF, AllDonorsIn, BalancedExcept;
    Parts(s);
    Domains(s);
    match step {
      case Acquire(t, l, path) =>
        if Donates(s, l) { DonateBalance(s, t, l, path, upset); }
      case StartRelease(t, l) =>
        Unwaiting(s, t);
        UnlinkKeeps(s.threads, s.pri, t, l);
        ReleaseBalances(s.threads, s.pri, s.core.holder, t, l, upset);
      case SetPriority(t, p) =>
        Unwaiting(s, t);
        RebaseBalances(s.threads, s.pri, s.core.holder, t, p, upset);
      case SetNice(t, p) => NiceBalance(s, t, p, upset);
      case Create(t, p) => CreateBalances(s.threads, s.pri, t, p, upset);
      case _ =>
    }
  }

  lemma Unwaiting(s: State, t: Tid)
    requires Inv(s) && PcIs(s.core, t, Outside)
    ensures t in s.threads && s.threads[t].waiting == None
    ensures Bookkeeping(s.threads, s.core.holder)
  {
    Domains(s);
    OutsideNotWaiting(s, t);
  }

  lemma DonateBalance(s: State, t: Tid, l: Sem, path: seq<Tid>, upset: set<Tid>)
    requires Inv(s) && Enabled(s, Acquire(t, l, path)) && Donates(s, l) && BalancedExcept(s.threads, s.pri, upset)
    ensures
      var r := Donate(s, t, l, path);
      AllDonorsIn(r.threads, r.pri) && BalancedExcept(r.threads, r.pri, upset - Members(path))
  {
    var h := s.core.holder[l].value;
    Unwaiting(s, t);
    LinkKeeps(s.threads, s.pri, t, l, h);
    WalkInside(Link(s.threads, s.pri, t, l, h), s.core.holder, h, path);
    DonateBalances(s.threads, s.pri, s.core.holder, t, l, h, path, upset);
  }

  lemma NiceBalance(s: State, t: Tid, p: int, upset: set<Tid>)
    requires Inv(s) && Enabled(s, SetNice(t, p)) && BalancedExcept(s.threads, s.pri, upset)
    ensures AllDonorsIn(s.threads, s.pri[t := p])
    ensures BalancedExcept(s.threads, s.pri[t := p], UpsetBy(s, SetNice(t, p), upset))
  {
    Unwaiting(s, t);
    OverwriteKeeps(s.threads, s.pri, t, p);
    var after := UpsetBy(s, SetNice(t, p), upset);
    forall u | u in s.threads && u !in after ensures BalancedAt(s.threads, s.pri[t := p], u) {
      OverwriteBalances(s.threads, s.pri, s.core.holder, t, p, u);
      assert u != t ==> BalancedAt(s.threads, s.pri, u);
    }
  }

  /** A step taken in balance keeps the balance exactly when it fits: the only
      way to lose it is thread_set_nice with another value than the maximum. */
  lemma StepKeepsBalance(s: State, step: Step)
    requires Inv(s) && Enabled(s, step) && !s.mlfqs && Balanced(s)
    ensures WF(Next(s, step)) && (Balanced(Next(s, step)) <==> Fits(s, step))
  {
    hide Inv, WF, Enabled, Next, Balanced, BalancedExcept, Fits, UpsetBy, Maximum;
    StepInv(s, step);
    BalancedMeans(s);
    BalancedMeans(Next(s, step));
    if Fits(s, step) {
      StepBalance(s, step, {});
      FitsUpsetsNone(s, step);
    } else {
      NiceUpsets(s, step);
    }
  }

  lemma FitsUpsetsNone(s: State, step: Step)
    requires WF(s) && Enabled(s, step) && Fits(s, step)
    ensures UpsetBy(s, step, {}) == {}
  {
  }

  lemma BalancedMeans(s: State)
    requires Inv(s)
    ensures WF(s) && (Balanced(s) <==> BalancedExcept(s.threads, s.pri, {}))
  {
    if Balanced(s) {
      forall t | t in s.threads ensures BalancedAt(s.threads, s.pri, t) {
        assert s.pri[t] == Maximum(s, t);
      }
    }
    if BalancedExcept(s.threads, s.pri, {}) {
      forall t | t in s.threads ensures s.pri[t] == Maximum(s, t) {
        assert BalancedAt(s.threads, s.pri, t);
      }
    }
  }

  lemma NiceUpsets(s: State, step: Step)
    requires Inv(s) && Enabled(s, step) && !Fits(s, step)
    ensures
      var r := Next(s, step);
      step.SetNice? && AllDonorsIn(r.threads, r.pri) && !BalancedExcept(r.threads, r.pri, {})
  {
    var t := step.t;
    Unwaiting(s, t);
    OverwriteBalances(s.threads, s.pri, s.core.holder, t, step.p, t);
  }

  // ------------------------------------------------------------ every run

  lemma {:induction false} SameMode(states: seq<State>, steps: seq<Step>, i: nat)
    requires Run(states, steps) && i < |states|
    ensures states[i].mlfqs == states[0].mlfqs
    decreases i
  {
    hide Next, Enabled, WF, Init;
    if i > 0 {
      SameMode(states, steps, i - 1);
      StepMode(states[i - 1], steps[i - 1]);
    }
  }

  lemma StepMode(s: State, step: Step)
    requires WF(s) && Enabled(s, step)
    ensures Next(s, step).mlfqs == s.mlfqs
  {
    hide WF, IsWalk, Settle, Link, Unlink, Update, Up, WaitsFor;
  }

  /** In every run without MLFQS, every thread outside Upset has the maximum of
      its base priority and its donors' priorities. */
  lemma {:induction false} RunBalance(states: seq<State>, steps: seq<Step>, i: nat)
    requires Run(states, steps) && i < |states| && !states[0].mlfqs
    ensures AllDonorsIn(states[i].threads, states[i].pri)
    ensures BalancedExcept(states[i].threads, states[i].pri, Upset(states, steps, i))
    decreases i
  {
    if i == 0 {
      InitDonor(states[0]);
    } else {
      hide Inv, Next, Init, UpsetBy, AllDonorsIn, BalancedExcept;
      RunBalance(states, steps, i - 1);
      RunInv(states, steps, i - 1);
      SameMode(states, steps, i - 1);
      StepBalance(states[i - 1], steps[i - 1], Upset(states, steps, i - 1));
    }
  }

  /** Without MLFQS every state of a run is in balance exactly when every step
      of the run fits. */
  lemma BalancedRuns(states: seq<State>, steps: seq<Step>)
    requires Run(states, steps) && !states[0].mlfqs
    ensures
      && (forall i :: 0 <= i < |states| ==> WF(states[i]) && Balanced(states[i]))
      <==> (forall j :: 0 <= j < |steps| ==> WF(states[j]) && Enabled(states[j], steps[j]) && Fits(states[j], steps[j]))
  {
    hide Balanced, Fits, Inv, Next, WF, Init, Enabled;
    if forall j :: 0 <= j < |steps| ==> WF(states[j]) && Enabled(states[j], steps[j]) && Fits(states[j], steps[j]) {
      forall i | 0 <= i < |states| ensures WF(states[i]) && Balanced(states[i]) {
        BalancedUpTo(states, steps, i);
      }
    }
    if forall i :: 0 <= i < |states| ==> WF(states[i]) && Balanced(states[i]) {
      forall j | 0 <= j < |steps| ensures WF(states[j]) && Enabled(states[j], steps[j]) && Fits(states[j], steps[j]) {
        RunInv(states, steps, j);
        SameMode(states, steps, j);
        StepKeepsBalance(states[j], steps[j]);
        assert Balanced(states[j + 1]);
      }
    }
  }

  lemma {:induction false} BalancedUpTo(states: seq<State>, steps: seq<Step>, i: nat)
    requires Run(states, steps) && !states[0].mlfqs && i < |states|
    requires forall j :: 0 <= j < |steps| ==> WF(states[j]) && Enabled(states[j], steps[j]) && Fits(states[j], steps[j])
    ensures WF(states[i]) && Balanced(states[i])
    decreases i
  {
    hide Balanced, Fits, Inv, Next, WF, Init, Enabled;
    if i == 0 {
      InitBalanced(states[0]);
    } else {
      BalancedUpTo(states, steps, i - 1);
      RunInv(states, steps, i - 1);
      SameMode(states, steps, i - 1);
      StepKeepsBalance(states[i - 1], steps[i - 1]);
    }
  }

  lemma InitBalanced(s: State)
    requires Init(s)
    ensures WF(s) && Balanced(s)
  {
    InitInv(s);
  }

  /** A run whose steps all fit upsets no thread. */
  lemma {:induction false} NoneUpset(states: seq<State>, steps: seq<Step>, i: nat)
    requires Run(states, steps) && i < |states|
    requires forall j :: 0 <= j < |steps| ==> WF(states[j]) && Enabled(states[j], steps[j]) && Fits(states[j], steps[j])
    ensures Upset(states, steps, i) == {}
    decreases i
  {
    hide WF, Enabled, Next, Init, Maximum;
    if i > 0 {
      NoneUpset(states, steps, i - 1);
      assert Fits(states[i - 1], steps[i - 1]);
    }
  }

  // ------------------------------------------------- what callers can rely on

  /** Without MLFQS, every effective priority that thread_set_nice has not left
      upset is the maximum of the base priority and the donors' effective
      priorities. */
  lemma PriorityIsMaximum(states: seq<State>, steps: seq<Step>, i: nat, t: Tid)
    requires Run(states, steps) && i < |states| && !states[0].mlfqs
    requires t in states[i].threads && t !in Upset(states, steps, i)
    ensures
      var s := states[i];
      && t in s.pri && s.pri[t] >= s.threads[t].base
      && (forall d :: d in s.threads[t].donors ==> d.donor in s.pri && s.pri[t] >= s.pri[d.donor])
      && (s.pri[t] == s.threads[t].base
          || exists d :: d in s.threads[t].donors && d.donor in s.pri && s.pri[t] == s.pri[d.donor])
  {
    var s := states[i];
    RunBalance(states, steps, i);
    assert BalancedAt(s.threads, s.pri, t) && DonorsIn(s.pri, s.threads[t].donors);
    MaxOverIsMax(s.pri, s.threads[t].base, s.threads[t].donors);
  }

  /** So no thread on a chain of waits runs below a thread that waits for it,
      unless thread_set_nice has left a thread of the chain upset. */
  lemma PriorityReachesHolders(states: seq<State>, steps: seq<Step>, i: nat, t: Tid, n: nat, u: Tid)
    requires Run(states, steps) && i < |states| && !states[0].mlfqs && t in states[i].threads
    requires Steps(WaitsFor(states[i].threads, states[i].core.holder), t, n, u)
    requires forall m: nat, v :: 0 < m <= n && Steps(WaitsFor(states[i].threads, states[i].core.holder), t, m, v) ==>
      v !in Upset(states, steps, i)
    ensures t in states[i].pri && u in states[i].pri && states[i].pri[t] <= states[i].pri[u]
  {
    var s := states[i];
    RunBalance(states, steps, i);
    RunInv(states, steps, i);
    Parts(s);
    ChainRaises(s.threads, s.pri, s.core.holder, Upset(states, steps, i), t, n, u);
  }

  /** Where no thread is upset the priorities are a function of the bases and
      the donor lists alone, whatever the runs that led there. */
  lemma PriorityDetermined(states: seq<State>, steps: seq<Step>, i: nat, states': seq<State>, steps': seq<Step>, j: nat)
    requires Run(states, steps) && i < |states| && !states[0].mlfqs && Upset(states, steps, i) == {}
    requires Run(states', steps') && j < |states'| && !states'[0].mlfqs && Upset(states', steps', j) == {}
    requires states[i].threads == states'[j].threads && states[i].core.holder == states'[j].core.holder
    ensures states[i].pri == states'[j].pri
  {
    var s, r := states[i], states'[j];
    RunBalance(states, steps, i);
    RunBalance(states', steps', j);
    RunInv(states, steps, i);
    Parts(s);
    BookkeepingPoints(s.threads, s.core.holder);
    BalanceUnique(s.threads, s.pri, r.pri, WaitsFor(s.threads, s.core.holder));
  }

  /** Without MLFQS recent_cpu stays 0, so thread_set_nice (nice) keeps the
      balance exactly when the priority it derives from nice alone is the
      maximum of the caller's base priority and its donors' priorities. */
  lemma NiceKeepsBalance(s: State, t: Tid, nice: int)
    requires Inv(s) && !s.mlfqs && Balanced(s) && PcIs(s.core, t, Outside)
    ensures t in s.threads && Enabled(s, SetNice(t, Mlfqs.PriorityOf(0, nice)))
    ensures
      var r := Next(s, SetNice(t, Mlfqs.PriorityOf(0, nice)));
      WF(r) && (Balanced(r) <==> Mlfqs.PriorityOf(0, nice) == Maximum(s, t))
  {
    Domains(s);
    Parts(s);
    hide Inv, Balanced, CoreInv, CoreWF, DonorInv, WaitPcInv, Next, Mlfqs.Raw;
    StepKeepsBalance(s, SetNice(t, Mlfqs.PriorityOf(0, nice)));
  }

  /** A lone thread of priority 31 that sets its niceness to 0 gets priority
      63 although nobody donates to it. */
  lemma NiceBreaksMaximum() returns (states: seq<State>, steps: seq<Step>)
    ensures Run(states, steps) && |states| == 2 && !states[0].mlfqs
    ensures steps == [SetNice(0, Mlfqs.PriorityOf(0, 0))]
    ensures states[1].threads == map[0 := Thread(31, None, [])] && states[1].pri == map[0 := 63]
    ensures WF(states[1]) && !Balanced(states[1])
  {
    hide Inv, Balanced, WF, Enabled, Next, Mlfqs.PriorityOf;
    var s := Lone(31);
    assert Init(s);
    InitInv(s);
    NoNiceness();
    LoneNice();
    StepInv(s, SetNice(0, 63));
    states, steps := [s, Lone(31).(pri := map[0 := 63])], [SetNice(0, 63)];
  }

  function Lone(p: int): (s: State) {
    State(false, map[0 := Thread(p, None, [])], map[0 := p], Core(map[0 := Outside], map[], map[]))
  }

  lemma LoneNice()
    ensures WF(Lone(31)) && Enabled(Lone(31), SetNice(0, 63))
    ensures
      var r := Next(Lone(31), SetNice(0, 63));
      r == Lone(31).(pri := map[0 := 63]) && WF(r) && !Balanced(r)
  {
    var r := Lone(31).(pri := map[0 := 63]);
    assert WF(Lone(31)) && WF(r);
    assert r.pri[0] == 63 && Maximum(r, 0) == 31;
  }

  lemma NoNiceness()
    ensures Mlfqs.PriorityOf(0, 0) == 63
  {
  }
}
