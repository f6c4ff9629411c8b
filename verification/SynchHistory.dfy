/** Whole runs of threads/synch.c as histories: which priority was set last, who
    took a lock last, who has slept longest, and how often a semaphore was taken
    and given. */
module SynchHistory {
  import opened Forest
  import opened Prelude
  import opened Synch
  import opened SemaProtocol
  import opened DonationProtocol
  import opened SynchRuns
  import opened SynchTheorems
  import opened SynchEffects

  lemma RunStep(states: seq<State>, steps: seq<Step>, i: nat)
    requires Run(states, steps) && i < |steps|
    ensures Inv(states[i]) && Goes(states[i], steps[i], states[i + 1]) && Reachable(states[i])
  {
    RunInv(states, steps, i);
    hide Inv, WF, Enabled, Next;
  }

  // ---------------------------------------------------------- base priorities

  /** thread_set_priority without MLFQS, or thread_create, for t. */
  ghost predicate SetsBase(s: State, step: Step, t: Tid) {
    (step.SetPriority? && step.t == t && !s.mlfqs) || (step.Create? && step.t == t)
  }

  lemma BaseStep(s: State, step: Step, r: State, t: Tid)
    requires Reachable(s) && Goes(s, step, r) && t in r.threads
    ensures SetsBase(s, step, t) ==> r.threads[t].base == step.p
    ensures !SetsBase(s, step, t) ==> t in s.threads && r.threads[t].base == s.threads[t].base
  {
    hide Reachable, WF, Enabled, LargestOf;
    match step {
      case Acquire(u, l, path) =>
        AcquireStarts(s, u, l, path);
        if !s.mlfqs && s.core.holder[l].Some? {
          var k := AcquireLinks(s, u, l, path, r);
        } else {
          AcquirePlain(s, u, l, path, r);
        }
      case StartRelease(u, l) => ReleaseClears(s, u, l, r);
      case SetPriority(u, p) =>
        if s.mlfqs { SetPriorityIgnored(s, u, p, r); } else { SetPriorityStores(s, u, p, r); }
      case _ =>
    }
  }

  lemma AcquireStarts(s: State, t: Tid, l: Sem, path: seq<Tid>)
    requires WF(s) && Enabled(s, Acquire(t, l, path))
    ensures l in s.core.holder
  {
  }

  /** In every run the base priority of a thread is the one that its last
      thread_set_priority, or its thread_create, was given ... */
  lemma {:induction false} BaseHistory(states: seq<State>, steps: seq<Step>, j: nat, i: nat, t: Tid)
    requires Run(states, steps) && j < i < |states| && t in states[i].threads
    requires SetsBase(states[j], steps[j], t)
    requires forall k :: j < k < i ==> !SetsBase(states[k], steps[k], t)
    ensures states[i].threads[t].base == steps[j].p
    decreases i
  {
    hide Run, SetsBase, Goes, Reachable, Inv;
    RunLength(states, steps);
    RunStep(states, steps, i - 1);
    BaseStep(states[i - 1], steps[i - 1], states[i], t);
    if j < i - 1 { BaseHistory(states, steps, j, i - 1, t); }
  }

  /** ... or, before any of these, the one it started with. */
  lemma {:induction false} BaseInitial(states: seq<State>, steps: seq<Step>, i: nat, t: Tid)
    requires Run(states, steps) && i < |states| && t in states[i].threads
    requires forall k :: 0 <= k < i ==> !SetsBase(states[k], steps[k], t)
    ensures t in states[0].threads && t in states[0].pri && states[i].threads[t].base == states[0].pri[t]
    decreases i
  {
    hide SetsBase, Goes, Reachable, Inv, WF, Enabled, Next;
    if i > 0 {
      RunStep(states, steps, i - 1);
      BaseStep(states[i - 1], steps[i - 1], states[i], t);
      BaseInitial(states, steps, i - 1, t);
    }
  }

  /** Where the thread of a step stands before it. */
  lemma StepKnown(s: State, step: Step, r: State)
    requires Goes(s, step, r)
    ensures WF(s) && Enabled(s, step)
    ensures step.Test? ==> step.t in s.core.pcs && (s.core.pcs[step.t].Down? || s.core.pcs[step.t].Woken?)
    ensures step.FinishRelease? ==> step.t in s.core.pcs && s.core.pcs[step.t].Giving?
    ensures step.TakeHolder? ==> step.t in s.core.pcs && s.core.pcs[step.t].Took?
  {
  }

  lemma RunLength(states: seq<State>, steps: seq<Step>)
    requires Run(states, steps)
    ensures |states| == |steps| + 1
  {
  }

  // ------------------------------------------------------------ lock holders

  /** The step records t as the holder of l. */
  ghost predicate HandsTo(s: State, step: Step, l: Sem, t: Tid) {
    || (step == TakeHolder(t) && PcIs(s.core, t, Took(l)))
    || (step == HandlerTry(t, l) && l in s.core.semas && s.core.semas[l].value > 0)
  }

  predicate LetsGo(step: Step, l: Sem) {
    step.StartRelease? && step.l == l
  }

  /** A holder is recorded only for a free lock, cleared only by lock_release, and
      otherwise stays. */
  ghost predicate HolderMoves(s: State, step: Step, r: State, l: Sem) {
    && l in s.core.holder && l in r.core.holder
    && (LetsGo(step, l) ==> r.core.holder[l] == None)
    && (forall t: Tid :: HandsTo(s, step, l, t) ==> s.core.holder[l] == None && r.core.holder[l] == Some(t))
    && (!LetsGo(step, l) && (forall t: Tid :: !HandsTo(s, step, l, t)) ==> r.core.holder[l] == s.core.holder[l])
  }

  lemma HolderStep(s: State, step: Step, r: State, l: Sem)
    requires Reachable(s) && Goes(s, step, r) && l in s.core.holder
    ensures HolderMoves(s, step, r, l)
  {
    hide Reachable, WF, Enabled, Next, Goes, LargestOf, Inv, FirstHighest;
    ReachableInv(s);
    StepKnown(s, step, r);
    match step {
      case StartRelease(u, k) => ReleaseClears(s, u, k, r);
      case TakeHolder(u) =>
        PlainMoves(s, step, r);
        FreeWhenTaken(s, step, l);
        assert HandsTo(s, step, s.core.pcs[u].s, u);
      case HandlerTry(u, k) =>
        TriesTake(s, step, r);
        FreeWhenTaken(s, step, l);
        assert s.core.semas[k].value > 0 ==> HandsTo(s, step, k, u);
      case TryAcquire(u, k) => TriesTake(s, step, r);
      case TryDown(x) => TriesTake(s, step, r);
      case Test(u) => TestHolders(s, u, r);
      case FinishRelease(u) => UpHolders(s, step, r);
      case Post(x) => UpHolders(s, step, r);
      case _ => OthersLeave(s, step, r);
    }
  }

  /** The steps that leave every semaphore and every holder alone. */
  predicate Leaves(step: Step) {
    step.Acquire? || step.SetPriority? || step.StartDown? || step.Exit? || step.Create? || step.SetNice? || step.Recompute?
  }

  lemma OthersLeave(s: State, step: Step, r: State)
    requires Reachable(s) && Goes(s, step, r) && Leaves(step)
    ensures r.core.holder == s.core.holder && r.core.semas == s.core.semas
  {
    hide Reachable, WF, Enabled, LargestOf;
    match step {
      case Acquire(u, k, path) => AcquireHolders(s, u, k, path, r);
      case SetPriority(u, p) => if s.mlfqs { SetPriorityIgnored(s, u, p, r); } else { SetPriorityStores(s, u, p, r); }
      case StartDown(_, _) => PlainMoves(s, step, r);
      case Exit(_) => PlainMoves(s, step, r);
      case Create(u, p) => CreateStores(s, u, p, r);
      case SetNice(_, _) =>
      case Recompute(_, _) =>
    }
  }

  lemma AcquireHolders(s: State, u: Tid, k: Sem, path: seq<Tid>, r: State)
    requires Reachable(s) && Goes(s, Acquire(u, k, path), r)
    ensures r.core.holder == s.core.holder && r.core.semas == s.core.semas
    ensures r.core.pcs == s.core.pcs[u := Down(k)] && u in s.core.pcs && s.core.pcs[u] == Outside && k in s.core.holder
  {
    hide Reachable;
    if !s.mlfqs && s.core.holder[k].Some? {
      var m := AcquireLinks(s, u, k, path, r);
    } else {
      AcquirePlain(s, u, k, path, r);
    }
  }

  lemma TestHolders(s: State, u: Tid, r: State)
    requires Reachable(s) && Goes(s, Test(u), r)
    ensures r.core.holder == s.core.holder
  {
    hide Reachable;
    DownTests(s, u, s.core.pcs[u].s, r);
  }

  lemma UpHolders(s: State, step: Step, r: State)
    requires Reachable(s) && Goes(s, step, r) && (step.Post? || step.FinishRelease?)
    ensures r.core.holder == s.core.holder
  {
    hide Reachable, Goes, FirstHighest;
    var x := UpsWhere(s, step, r);
    if v :| PcIs(s.core, v, Asleep(x)) {
      var w, k := WakesHighest(s, step, r, x, v);
    } else {
      UpWithoutSleeper(s, step, r, x);
    }
  }

  lemma FreeWhenTaken(s: State, step: Step, l: Sem)
    requires Inv(s) && l in s.core.holder && WF(s) && Enabled(s, step)
    ensures forall t :: HandsTo(s, step, l, t) ==> s.core.holder[l] == None
  {
    forall t | HandsTo(s, step, l, t) ensures s.core.holder[l] == None {
      if step.TakeHolder? {
        NoHolderYet(s.core, t, l);
      } else {
        TakeOnce(s.core, t, l);
      }
    }
  }

  lemma HolderKnown(s: State, step: Step, r: State, l: Sem)
    requires HolderMoves(s, step, r, l)
    ensures l in r.core.holder
  {
  }

  /** t took l before state i and nobody has begun to release it since. */
  ghost predicate TookBefore(states: seq<State>, steps: seq<Step>, i: nat, l: Sem, t: Tid)
    requires i < |states| == |steps| + 1
  {
    exists j :: 0 <= j < i && HandsTo(states[j], steps[j], l, t) && forall k :: j < k < i ==> !LetsGo(steps[k], l)
  }

  /** In every run t holds l exactly when t took l and nobody has begun to release
      l since. */
  lemma {:induction false} HolderHistory(states: seq<State>, steps: seq<Step>, i: nat, l: Sem, t: Tid)
    requires Run(states, steps) && i < |states| && l in states[0].core.holder
    ensures |states| == |steps| + 1 && l in states[i].core.holder
    ensures states[i].core.holder[l] == Some(t) <==> TookBefore(states, steps, i, l, t)
    decreases i
  {
    hide HandsTo, Goes, Reachable, Inv, WF, Enabled, Next, HolderMoves;
    if i > 0 {
      HolderHistory(states, steps, i - 1, l, t);
      RunStep(states, steps, i - 1);
      HolderStep(states[i - 1], steps[i - 1], states[i], l);
      HolderKnown(states[i - 1], steps[i - 1], states[i], l);
      HolderExtend(states, steps, i, l, t);
    }
  }

  lemma HolderExtend(states: seq<State>, steps: seq<Step>, i: nat, l: Sem, t: Tid)
    requires 0 < i < |states| == |steps| + 1 && HolderMoves(states[i - 1], steps[i - 1], states[i], l)
    requires states[i - 1].core.holder[l] == Some(t) <==> TookBefore(states, steps, i - 1, l, t)
    ensures states[i].core.holder[l] == Some(t) <==> TookBefore(states, steps, i, l, t)
  {
    hide HandsTo;
    var before, step := states[i - 1], steps[i - 1];
    if TookBefore(states, steps, i, l, t) {
      var j :| 0 <= j < i && HandsTo(states[j], steps[j], l, t) && forall k :: j < k < i ==> !LetsGo(steps[k], l);
      if j < i - 1 { assert TookBefore(states, steps, i - 1, l, t) && !LetsGo(steps[i - 1], l); }
    }
    if states[i].core.holder[l] == Some(t) && !HandsTo(states[i - 1], steps[i - 1], l, t) {
      assert forall u: Tid :: HandsTo(before, step, l, u) ==> u == t;
      assert TookBefore(states, steps, i - 1, l, t);
      var j :| 0 <= j < i - 1 && HandsTo(states[j], steps[j], l, t) && forall k :: j < k < i - 1 ==> !LetsGo(steps[k], l);
      assert forall k :: j < k < i ==> !LetsGo(steps[k], l);
    }
  }

  // --------------------------------------------------------- sleepers in order

  /** The state in which t last fell asleep, looking back from state i. */
  ghost function AsleepSince(states: seq<State>, steps: seq<Step>, i: nat, t: Tid): (n: nat)
    requires i < |states| == |steps| + 1
    ensures n <= i
  {
    if i == 0 then 0
    else if steps[i - 1] == Test(t) then i
    else AsleepSince(states, steps, i - 1, t)
  }

  /** How a step changes the list of x: not at all, or one thread joins at the
      end, or one leaves it. */
  datatype Change = Same | Joins(t: Tid) | Departs(k: nat)

  ghost predicate Changes(ws: seq<Tid>, step: Step, ch: Change, after: seq<Tid>) {
    match ch
    case Same => after == ws && (step.Test? ==> step.t !in ws)
    case Joins(t) => after == ws + [t] && step == Test(t) && t !in ws
    case Departs(k) => k < |ws| && after == ws[..k] + ws[k + 1..] && !step.Test?
  }

  lemma ListStep(s: State, step: Step, r: State, x: Sem) returns (ch: Change)
    requires Reachable(s) && Goes(s, step, r) && x in s.core.semas
    ensures x in r.core.semas && Changes(s.core.semas[x].waiters, step, ch, r.core.semas[x].waiters)
  {
    hide Reachable, WF, Enabled, LargestOf, Inv, FirstHighest;
    ReachableInv(s);
    ch := Same;
    match step {
      case Test(u) => ch := TestList(s, u, r, x);
      case FinishRelease(u) => ch := UpList(s, step, r, x);
      case Post(y) => ch := UpList(s, step, r, x);
      case StartRelease(u, k) => ReleaseClears(s, u, k, r);
      case TakeHolder(u) => PlainMoves(s, step, r);
      case HandlerTry(u, k) => TriesTake(s, step, r);
      case TryAcquire(u, k) => TriesTake(s, step, r);
      case TryDown(y) => TriesTake(s, step, r);
      case _ => OthersLeave(s, step, r);
    }
  }

  lemma TestList(s: State, u: Tid, r: State, x: Sem) returns (ch: Change)
    requires Reachable(s) && Goes(s, Test(u), r) && x in s.core.semas
    ensures x in r.core.semas && Changes(s.core.semas[x].waiters, Test(u), ch, r.core.semas[x].waiters)
  {
    hide Reachable;
    var y := s.core.pcs[u].s;
    DownTests(s, u, y, r);
    AwakeUnlisted(s, u, x);
    ch := if x == y && s.core.semas[x].value == 0 then Joins(u) else Same;
  }

  lemma AwakeUnlisted(s: State, u: Tid, x: Sem)
    requires Reachable(s) && x in s.core.semas && u in s.core.pcs && !s.core.pcs[u].Asleep?
    ensures u !in s.core.semas[x].waiters
  {
    ReachableInv(s);
    assert WaitAt(s.core, x) && ListsSleepers(s.core, x);
    assert multiset(s.core.semas[x].waiters)[u] == if PcIs(s.core, u, Asleep(x)) then 1 else 0;
  }

  lemma UpsWhere(s: State, step: Step, r: State) returns (y: Sem)
    requires Goes(s, step, r) && (step.Post? || step.FinishRelease?)
    ensures Ups(s.core, step, y)
  {
    y := if step.Post? then step.x else s.core.pcs[step.t].s;
  }

  lemma UpList(s: State, step: Step, r: State, x: Sem) returns (ch: Change)
    requires Reachable(s) && Goes(s, step, r) && (step.Post? || step.FinishRelease?) && x in s.core.semas
    ensures x in r.core.semas && Changes(s.core.semas[x].waiters, step, ch, r.core.semas[x].waiters)
  {
    hide Reachable, Goes, FirstHighest;
    var y := UpsWhere(s, step, r);
    ch := Same;
    if v :| PcIs(s.core, v, Asleep(y)) {
      var w, k := WakesHighest(s, step, r, y, v);
      if x == y { ch := Departs(k); }
    } else {
      UpWithoutSleeper(s, step, r, y);
    }
  }

  /** In every run a waiters list is in the order in which its threads fell
      asleep. */
  lemma {:induction false} SleepersInOrder(states: seq<State>, steps: seq<Step>, i: nat, x: Sem)
    requires Run(states, steps) && i < |states| && x in states[0].core.semas
    ensures |states| == |steps| + 1 && x in states[i].core.semas && InOrder(states, steps, i, states[i].core.semas[x].waiters)
    decreases i
  {
    hide Goes, Reachable, Inv, WF, Enabled, Next, Changes, InOrder;
    if i == 0 {
      NoneInOrder(states, steps, states[0].core.semas[x].waiters);
    } else {
      SleepersInOrder(states, steps, i - 1, x);
      RunStep(states, steps, i - 1);
      var ch := ListStep(states[i - 1], steps[i - 1], states[i], x);
      OrderExtend(states, steps, i, states[i - 1].core.semas[x].waiters, ch, states[i].core.semas[x].waiters);
    }
  }

  ghost predicate InOrder(states: seq<State>, steps: seq<Step>, i: nat, ws: seq<Tid>)
    requires i < |states| == |steps| + 1
  {
    forall p, q :: 0 <= p < q < |ws| ==> AsleepSince(states, steps, i, ws[p]) < AsleepSince(states, steps, i, ws[q])
  }

  lemma NoneInOrder(states: seq<State>, steps: seq<Step>, ws: seq<Tid>)
    requires |states| == |steps| + 1 && ws == []
    ensures InOrder(states, steps, 0, ws)
  {
  }

  lemma OrderExtend(states: seq<State>, steps: seq<Step>, i: nat, ws: seq<Tid>, ch: Change, after: seq<Tid>)
    requires 0 < i < |states| == |steps| + 1 && InOrder(states, steps, i - 1, ws) && Changes(ws, steps[i - 1], ch, after)
    ensures InOrder(states, steps, i, after)
  {
    var step := steps[i - 1];
    forall t | t in ws && !(step.Test? && step.t == t)
      ensures AsleepSince(states, steps, i, t) == AsleepSince(states, steps, i - 1, t)
    {
    }
    forall p, q | 0 <= p < q < |after|
      ensures AsleepSince(states, steps, i, after[p]) < AsleepSince(states, steps, i, after[q])
    {
      match ch
      case Same => assert after[p] in ws && after[q] in ws;
      case Joins(t) => assert after[p] == ws[p] && (q < |ws| ==> after[q] == ws[q]);
      case Departs(k) =>
        var a, b := if p < k then p else p + 1, if q < k then q else q + 1;
        assert after[p] == ws[a] && after[q] == ws[b];
    }
  }

  /** sema_up wakes the one that has slept longest among the sleepers of the
      greatest priority. */
  lemma LongestSleeperFirst(states: seq<State>, steps: seq<Step>, i: nat, x: Sem, v: Tid) returns (w: Tid)
    requires Run(states, steps) && i < |steps| && Ups(states[i].core, steps[i], x)
    requires x in states[0].core.semas && PcIs(states[i].core, v, Asleep(x))
    ensures |states| == |steps| + 1 && PcIs(states[i].core, w, Asleep(x)) && PcIs(states[i + 1].core, w, Woken(x))
    ensures v in states[i].pri && w in states[i].pri && states[i].pri[v] <= states[i].pri[w]
    ensures v != w && states[i].pri[v] == states[i].pri[w] ==>
      AsleepSince(states, steps, i, w) < AsleepSince(states, steps, i, v)
  {
    hide Goes, Reachable, Inv, WF, Enabled, Next, AsleepSince;
    RunStep(states, steps, i);
    SleepersInOrder(states, steps, i, x);
    var k;
    w, k := WakesHighest(states[i], steps[i], states[i + 1], x, v);
    Listed(states[i], v, x);
    var ws := states[i].core.semas[x].waiters;
    var j :| 0 <= j < |ws| && ws[j] == v;
    assert j < k ==> states[i].pri[ws[j]] < states[i].pri[ws[k]];
  }

  lemma Listed(s: State, v: Tid, x: Sem)
    requires Inv(s) && PcIs(s.core, v, Asleep(x))
    ensures x in s.core.semas && v in s.core.semas[x].waiters
  {
    SleeperListed(s, v, x);
  }

  // --------------------------------------------------------- the count of units

  /** The step takes one unit of x: a sema_down or a try that gets through. */
  ghost predicate Takes(c: Core, step: Step, x: Sem) {
    && x in c.semas && c.semas[x].value > 0
    && (|| (step.Test? && (PcIs(c, step.t, Down(x)) || PcIs(c, step.t, Woken(x))))
        || ((step.TryAcquire? || step.HandlerTry?) && step.l == x)
        || (step.TryDown? && step.x == x))
  }

  ghost function Downs(states: seq<State>, steps: seq<Step>, i: nat, x: Sem): (n: nat)
    requires i < |states| == |steps| + 1
  {
    if i == 0 then 0
    else Downs(states, steps, i - 1, x) + if Takes(states[i - 1].core, steps[i - 1], x) then 1 else 0
  }

  ghost function UpCount(states: seq<State>, steps: seq<Step>, i: nat, x: Sem): (n: nat)
    requires i < |states| == |steps| + 1
  {
    if i == 0 then 0
    else UpCount(states, steps, i - 1, x) + if Ups(states[i - 1].core, steps[i - 1], x) then 1 else 0
  }

  lemma ValueStep(s: State, step: Step, r: State, x: Sem)
    requires Reachable(s) && Goes(s, step, r) && x in s.core.semas
    ensures x in r.core.semas
    ensures r.core.semas[x].value ==
      s.core.semas[x].value + (if Ups(s.core, step, x) then 1 else 0) - (if Takes(s.core, step, x) then 1 else 0)
  {
    hide Reachable, WF, Enabled, Next, Goes, LargestOf, Inv, FirstHighest;
    ReachableInv(s);
    StepKnown(s, step, r);
    match step {
      case Test(u) => DownTests(s, u, s.core.pcs[u].s, r);
      case FinishRelease(u) => UpValue(s, step, r, s.core.pcs[u].s);
      case Post(y) => UpValue(s, step, r, y);
      case StartRelease(u, k) => ReleaseClears(s, u, k, r);
      case TakeHolder(u) => PlainMoves(s, step, r);
      case HandlerTry(u, k) => TriesTake(s, step, r);
      case TryAcquire(u, k) => TriesTake(s, step, r);
      case TryDown(y) => TriesTake(s, step, r);
      case _ => OthersLeave(s, step, r);
    }
  }

  lemma UpValue(s: State, step: Step, r: State, y: Sem)
    requires Reachable(s) && Goes(s, step, r) && Ups(s.core, step, y)
    ensures y in s.core.semas && y in r.core.semas && r.core.semas.Keys == s.core.semas.Keys
    ensures r.core.semas[y].value == s.core.semas[y].value + 1
    ensures forall x :: x in s.core.semas && x != y ==> r.core.semas[x] == s.core.semas[x]
  {
    hide Reachable, Goes;
    if v :| PcIs(s.core, v, Asleep(y)) {
      var w, k := WakesHighest(s, step, r, y, v);
    } else {
      UpWithoutSleeper(s, step, r, y);
    }
  }

  /** In every run, for every semaphore: its value and the downs and tries that got
      through add up to the initial value and the ups. */
  lemma {:induction false} CountLaw(states: seq<State>, steps: seq<Step>, i: nat, x: Sem)
    requires Run(states, steps) && i < |states| && x in states[0].core.semas
    ensures |states| == |steps| + 1 && x in states[i].core.semas
    ensures states[i].core.semas[x].value + Downs(states, steps, i, x) ==
      states[0].core.semas[x].value + UpCount(states, steps, i, x)
    decreases i
  {
    hide Goes, Reachable, Inv, WF, Enabled, Next, Takes, Ups;
    if i > 0 {
      CountLaw(states, steps, i - 1, x);
      RunStep(states, steps, i - 1);
      ValueStep(states[i - 1], steps[i - 1], states[i], x);
    }
  }
}
