/** What the routines of threads/synch.c and thread_set_priority do, told by the
    state that callers see: who sleeps, who is woken, who holds which lock and
    which priority is stored. */
module SynchEffects {
  import opened Forest
  import opened Prelude
  import opened Synch
  import opened SemaProtocol
  import opened DonationProtocol
  import opened SynchRuns
  import opened SynchTheorems

  // ---------------------------------------------------------------- sema_up

  /** The waiter at index k has the greatest priority, and all before it have
      strictly lower ones. */
  ghost predicate FirstHighest(pri: Priorities, ws: seq<Tid>, k: nat) {
    && k < |ws| && AllIn(ws, pri.Keys)
    && (forall j :: 0 <= j < |ws| ==> pri[ws[j]] <= pri[ws[k]])
    && (forall j :: 0 <= j < k ==> pri[ws[j]] < pri[ws[k]])
  }

  /** The step is a sema_up on x, alone or at the end of lock_release. */
  ghost predicate Ups(c: Core, step: Step, x: Sem) {
    step == Post(x) || (step.FinishRelease? && PcIs(c, step.t, Giving(x)))
  }

  /** The waiter at index k leaves the list of x and is on its way to test the
      value, which is one higher; everything else of x stays. */
  ghost predicate Wakes(c: Core, x: Sem, k: nat, r: Core) {
    && x in c.semas && x in r.semas && k < |c.semas[x].waiters|
    && var ws := c.semas[x].waiters;
    && r.semas == c.semas[x := Sema(c.semas[x].value + 1, ws[..k] + ws[k + 1..])]
    && r.pcs == c.pcs[ws[k] := Woken(x)]
    && r.holder == c.holder
  }

  lemma UpWakes(c: Core, pri: Priorities, x: Sem) returns (k: nat)
    requires x in c.semas && AllIn(c.semas[x].waiters, pri.Keys) && c.semas[x].waiters != []
    ensures FirstHighest(pri, c.semas[x].waiters, k) && Wakes(c, x, k, Up(c, pri, x))
  {
    k := FirstMax(pri, c.semas[x].waiters, 0, 1);
  }

  /** sema_up on a semaphore with sleepers: one of them, of the greatest priority
      and the first in the list of those, goes from Asleep to Woken; the others
      sleep on in the same order; the value grows by one. */
  lemma WakesHighest(s: State, step: Step, r: State, x: Sem, v: Tid) returns (w: Tid, k: nat)
    requires Reachable(s) && Goes(s, step, r) && Ups(s.core, step, x) && PcIs(s.core, v, Asleep(x))
    ensures PcIs(s.core, w, Asleep(x)) && PcIs(r.core, w, Woken(x))
    ensures v in s.pri && w in s.pri && s.pri[v] <= s.pri[w] && (v != w ==> PcIs(r.core, v, Asleep(x)))
    ensures
      && x in s.core.semas && x in r.core.semas
      && var ws := s.core.semas[x].waiters;
      && k < |ws| && ws[k] == w && FirstHighest(s.pri, ws, k)
      && r.core.semas == s.core.semas[x := Sema(s.core.semas[x].value + 1, ws[..k] + ws[k + 1..])]
    ensures forall u :: u in s.core.pcs && u != w && !(step.FinishRelease? && u == step.t) ==>
      u in r.core.pcs && r.core.pcs[u] == s.core.pcs[u]
    ensures r.core.holder == s.core.holder && r.threads == s.threads && r.pri == s.pri
  {
    hide Reachable, Inv, WF, Enabled, Up, AllIn;
    ReachableInv(s);
    SleeperListed(s, v, x);
    k := UpWakes(s.core, s.pri, x);
    var ws := s.core.semas[x].waiters;
    w := ws[k];
    WaiterSleeps(s, x, k);
    var j :| 0 <= j < |ws| && ws[j] == v;
  }

  lemma SleeperListed(s: State, v: Tid, x: Sem)
    requires Inv(s) && PcIs(s.core, v, Asleep(x))
    ensures WF(s) && x in s.core.semas && v in s.core.semas[x].waiters
    ensures AllIn(s.core.semas[x].waiters, s.pri.Keys)
  {
    PcSema(s, v);
    WaitersKnown(s, x);
    assert WaitAt(s.core, x) && ListsSleepers(s.core, x);
    assert multiset(s.core.semas[x].waiters)[v] == 1;
  }

  lemma WaiterSleeps(s: State, x: Sem, k: nat)
    requires Inv(s) && x in s.core.semas && k < |s.core.semas[x].waiters|
    ensures PcIs(s.core, s.core.semas[x].waiters[k], Asleep(x))
  {
    var ws := s.core.semas[x].waiters;
    assert WaitAt(s.core, x) && ListsSleepers(s.core, x);
    assert multiset(ws)[ws[k]] > 0;
  }

  /** Without a sleeper it only adds one to the value. */
  lemma UpWithoutSleeper(s: State, step: Step, r: State, x: Sem)
    requires Reachable(s) && Goes(s, step, r) && Ups(s.core, step, x) && forall v :: !PcIs(s.core, v, Asleep(x))
    ensures x in s.core.semas && s.core.semas[x].waiters == []
    ensures r.core.semas == s.core.semas[x := Sema(s.core.semas[x].value + 1, [])]
    ensures r.core.pcs == if step.FinishRelease? then s.core.pcs[step.t := Outside] else s.core.pcs
    ensures r.core.holder == s.core.holder && r.threads == s.threads && r.pri == s.pri
  {
    hide Reachable, Inv, WF, Up, AllIn;
    ReachableInv(s);
    Parts(s);
    if step.FinishRelease? { PcSema(s, step.t); }
    NobodyListed(s, x);
    WaitersKnown(s, x);
    UpAlone(s.core, s.pri, x);
  }

  lemma NobodyListed(s: State, x: Sem)
    requires Inv(s) && x in s.core.semas && forall v :: !PcIs(s.core, v, Asleep(x))
    ensures s.core.semas[x].waiters == []
  {
    var ws := s.core.semas[x].waiters;
    assert WaitAt(s.core, x) && ListsSleepers(s.core, x);
    assert ws != [] ==> multiset(ws)[ws[0]] > 0;
  }

  lemma UpAlone(c: Core, pri: Priorities, x: Sem)
    requires x in c.semas && AllIn(c.semas[x].waiters, pri.Keys) && c.semas[x].waiters == []
    ensures Up(c, pri, x) == c.(semas := c.semas[x := Sema(c.semas[x].value + 1, [])])
  {
  }

  // -------------------------------------------------------------- sema_down

  /** One test in sema_down: at value zero the caller goes to sleep at the end of
      the list; otherwise it takes one off the value and leaves the loop. */
  lemma DownTests(s: State, t: Tid, x: Sem, r: State)
    requires Reachable(s) && Goes(s, Test(t), r) && (PcIs(s.core, t, Down(x)) || PcIs(s.core, t, Woken(x)))
    ensures x in s.core.semas && r.core.pcs.Keys == s.core.pcs.Keys
    ensures
      var q := s.core.semas[x];
      if q.value == 0 then
        PcIs(r.core, t, Asleep(x)) && r.core.semas == s.core.semas[x := Sema(0, q.waiters + [t])]
      else
        && PcIs(r.core, t, if x in s.core.holder then Took(x) else Outside)
        && r.core.semas == s.core.semas[x := Sema(q.value - 1, q.waiters)]
    ensures forall u :: u in s.core.pcs && u != t ==> r.core.pcs[u] == s.core.pcs[u]
    ensures r.core.holder == s.core.holder && r.threads == s.threads && r.pri == s.pri
  {
    hide Reachable, Inv, WF;
    ReachableInv(s);
    PcSema(s, t);
  }

  // ---------------------------------------------------- thread_set_priority

  /** p is the largest of base and the priorities of the donors. */
  ghost predicate LargestOf(p: int, base: int, pri: Priorities, ds: seq<Donation>) {
    && p >= base
    && (forall d :: d in ds ==> d.donor in pri && p >= pri[d.donor])
    && (p == base || exists d :: d in ds && d.donor in pri && p == pri[d.donor])
  }

  lemma UpdateStores(threads: Threads, pri: Priorities, t: Tid)
    requires t in threads && AllDonorsIn(threads, pri)
    ensures
      var r := Update(threads, pri, t);
      && r.Keys == pri.Keys && LargestOf(r[t], threads[t].base, pri, threads[t].donors)
      && forall u :: u in pri && u != t ==> r[u] == pri[u]
  {
    var ds := threads[t].donors;
    assert DonorsIn(pri, ds);
    MaxOverIsMax(pri, threads[t].base, ds);
    hide MaxOver;
  }

  /** thread_set_priority (p) without MLFQS stores p as the caller's base and the
      largest of p and its donors' priorities as its priority, whether that
      raises or lowers them, and changes nothing else. */
  lemma SetPriorityStores(s: State, t: Tid, p: int, r: State)
    requires Reachable(s) && !s.mlfqs && Goes(s, SetPriority(t, p), r)
    ensures t in s.threads && r.threads.Keys == s.threads.Keys && r.pri.Keys == s.pri.Keys == s.threads.Keys
    ensures r.threads[t] == Thread(p, s.threads[t].waiting, s.threads[t].donors)
    ensures LargestOf(r.pri[t], p, s.pri, s.threads[t].donors)
    ensures forall u :: u in s.threads && u != t ==> r.threads[u] == s.threads[u] && r.pri[u] == s.pri[u]
    ensures r.core == s.core
  {
    hide Reachable, Inv, AllDonorsIn, CoreWF, Update, LargestOf;
    ReachableInv(s);
    Domains(s);
    Parts(s);
    SameKeys(s);
    RebaseKeeps(s.threads, s.pri, t, p);
    UpdateStores(s.threads[t := s.threads[t].(base := p)], s.pri, t);
  }

  lemma SameKeys(s: State)
    requires WF(s)
    ensures s.threads.Keys == s.pri.Keys
  {
  }

  /** With MLFQS it does nothing. */
  lemma SetPriorityIgnored(s: State, t: Tid, p: int, r: State)
    requires s.mlfqs && Goes(s, SetPriority(t, p), r)
    ensures r == s
  {
  }

  // ------------------------------------------------------- donations and locks

  /** lock_acquire of a held lock without MLFQS: the caller's waiting_lock is the
      lock, its donation stands in the holder's list behind all donors of at
      least its priority that lead the list, and no other list or waiting_lock
      changes. */
  lemma AcquireLinks(s: State, t: Tid, l: Sem, path: seq<Tid>, r: State) returns (k: nat)
    requires Reachable(s) && Goes(s, Acquire(t, l, path), r)
    requires !s.mlfqs && l in s.core.holder && s.core.holder[l].Some?
    ensures
      var h := s.core.holder[l].value;
      && t in s.threads && h in s.threads && h != t && r.threads.Keys == s.threads.Keys
      && r.threads[t] == s.threads[t].(waiting := Some(l))
      && var ds := s.threads[h].donors;
      && k <= |ds| && r.threads[h] == s.threads[h].(donors := ds[..k] + [Donation(l, t)] + ds[k..])
      && t in s.pri && (forall j :: 0 <= j < |ds| ==> ds[j].donor in s.pri)
      && (forall j :: 0 <= j < k ==> s.pri[ds[j].donor] >= s.pri[t])
      && (k < |ds| ==> s.pri[ds[k].donor] < s.pri[t])
      && (forall u :: u in s.threads && u != t && u != h ==> r.threads[u] == s.threads[u])
    ensures r.pri.Keys == s.pri.Keys && forall u :: u in s.pri && u !in path ==> r.pri[u] == s.pri[u]
    ensures r.core == s.core.(pcs := s.core.pcs[t := Down(l)])
  {
    hide Reachable, Inv, IsWalk, WaitsFor, Settle;
    ReachableInv(s);
    Domains(s);
    Parts(s);
    HoldersKnown(s);
    var h := s.core.holder[l].value;
    assert DonorsIn(s.pri, s.threads[h].donors);
    k := InsertDonationAt(s.pri, s.threads[h].donors, Donation(l, t));
    var threads := Link(s.threads, s.pri, t, l, h);
    LinkKeeps(s.threads, s.pri, t, l, h);
    WalkInside(threads, s.core.holder, h, path);
    forall u | u in s.pri && u !in path ensures Settle(threads, s.pri, path)[u] == s.pri[u] {
      SettleElsewhere(threads, s.pri, path, u);
    }
    hide InsertDonation, CoreWF, AllDonorsIn;
  }

  lemma {:induction false} SettleElsewhere(threads: Threads, pri: Priorities, path: seq<Tid>, u: Tid)
    requires AllDonorsIn(threads, pri) && (forall i :: 0 <= i < |path| ==> path[i] in threads) && u in pri && u !in path
    ensures u in Settle(threads, pri, path) && Settle(threads, pri, path)[u] == pri[u]
    decreases |path|
  {
    if path != [] {
      UpdateKeeps(threads, pri, path[0]);
      SettleElsewhere(threads, Update(threads, pri, path[0]), path[1..], u);
    }
  }

  lemma HoldersKnown(s: State)
    requires WF(s)
    ensures forall l :: l in s.core.holder && s.core.holder[l].Some? ==> s.core.holder[l].value in s.threads
  {
  }

  lemma {:induction false} InsertDonationAt(pri: Priorities, ds: seq<Donation>, d: Donation) returns (k: nat)
    requires DonorsIn(pri, ds) && d.donor in pri
    ensures k <= |ds| && InsertDonation(pri, ds, d) == ds[..k] + [d] + ds[k..]
    ensures forall j :: 0 <= j < k ==> pri[ds[j].donor] >= pri[d.donor]
    ensures k < |ds| ==> pri[ds[k].donor] < pri[d.donor]
  {
    if ds == [] || pri[d.donor] > pri[ds[0].donor] {
      k := 0;
      assert ds[..0] == [] && ds[0..] == ds;
    } else {
      var m := InsertDonationAt(pri, ds[1..], d);
      k := m + 1;
      assert ds[..k] == [ds[0]] + ds[1..][..m] && ds[k..] == ds[1..][m..];
    }
  }

  /** lock_acquire of a free lock, or of any lock with MLFQS, goes straight to
      sema_down. */
  lemma AcquirePlain(s: State, t: Tid, l: Sem, path: seq<Tid>, r: State)
    requires Goes(s, Acquire(t, l, path), r) && l in s.core.holder && (s.mlfqs || s.core.holder[l].None?)
    ensures r == s.(core := s.core.(pcs := s.core.pcs[t := Down(l)]))
  {
  }

  /** lock_release clears the holder and takes the caller to sema_up. */
  lemma ReleaseClears(s: State, t: Tid, l: Sem, r: State)
    requires Reachable(s) && Goes(s, StartRelease(t, l), r)
    ensures r.core == s.core.(holder := s.core.holder[l := None], pcs := s.core.pcs[t := Giving(l)])
    ensures t in s.threads && r.threads.Keys == s.threads.Keys && r.pri.Keys == s.pri.Keys == s.threads.Keys
    ensures forall u :: u in s.threads && u != t ==> r.pri[u] == s.pri[u]
    ensures s.mlfqs ==> r.threads == s.threads && r.pri == s.pri
    ensures !s.mlfqs ==> LargestOf(r.pri[t], s.threads[t].base, s.pri, r.threads[t].donors)
    ensures forall u :: u in s.threads ==> r.threads[u].base == s.threads[u].base
  {
    hide Reachable, Inv, AllDonorsIn, CoreWF, Update, LargestOf, Unlink;
    ReachableInv(s);
    Domains(s);
    Parts(s);
    SameKeys(s);
    if !s.mlfqs {
      UnlinkKeeps(s.threads, s.pri, t, l);
      UnlinkBases(s.threads, t, l);
      UpdateStores(Unlink(s.threads, t, l), s.pri, t);
    }
  }

  lemma UnlinkBases(threads: Threads, t: Tid, l: Sem)
    requires t in threads
    ensures
      var r := Unlink(threads, t, l);
      r.Keys == threads.Keys && forall u :: u in threads ==> r[u].base == threads[u].base
  {
    hide Undonated;
  }

  /** The steps that only move their thread: the start of sema_down, the end of
      lock_acquire, which records the holder, and thread_exit. */
  lemma PlainMoves(s: State, step: Step, r: State)
    requires Goes(s, step, r) && (step.StartDown? || step.TakeHolder? || step.Exit?)
    ensures r.threads == s.threads && r.pri == s.pri && r.core.semas == s.core.semas
    ensures step.StartDown? ==> r.core.pcs == s.core.pcs[step.t := Down(step.x)] && r.core.holder == s.core.holder
    ensures step.Exit? ==> r.core.pcs == s.core.pcs[step.t := Dead] && r.core.holder == s.core.holder
    ensures
      step.TakeHolder? ==>
        && step.t in s.core.pcs && s.core.pcs[step.t].Took?
        && r.core.pcs == s.core.pcs[step.t := Outside]
        && r.core.holder == s.core.holder[s.core.pcs[step.t].s := Some(step.t)]
  {
  }

  /** The tries: at value zero nothing changes; otherwise one is taken off the
      value, and of a lock the caller is on its way to be the holder, or in a
      handler is the holder. */
  lemma TriesTake(s: State, step: Step, r: State)
    requires Reachable(s) && Goes(s, step, r) && (step.TryAcquire? || step.HandlerTry? || step.TryDown?)
    ensures
      var x := if step.TryDown? then step.x else step.l;
      && x in s.core.semas
      && var q := s.core.semas[x];
      if q.value == 0 then r == s
      else
        && r.core.semas == s.core.semas[x := Sema(q.value - 1, q.waiters)]
        && r.core.pcs == (if step.TryAcquire? then s.core.pcs[step.t := Took(x)] else s.core.pcs)
        && r.core.holder == (if step.HandlerTry? then s.core.holder[x := Some(step.t)] else s.core.holder)
        && r.threads == s.threads && r.pri == s.pri
  {
    hide Reachable, Inv;
    ReachableInv(s);
    Domains(s);
  }

  /** thread_set_nice and the recomputation store a priority and nothing else. */
  lemma NiceStores(s: State, step: Step, r: State)
    requires Goes(s, step, r) && (step.SetNice? || step.Recompute?)
    ensures r == s.(pri := s.pri[step.t := step.p])
  {
  }

  /** thread_create: a thread of base and priority p that waits for nothing. */
  lemma CreateStores(s: State, t: Tid, p: int, r: State)
    requires Goes(s, Create(t, p), r)
    ensures t !in s.threads && r.threads == s.threads[t := Thread(p, None, [])] && r.pri == s.pri[t := p]
    ensures r.core == s.core.(pcs := s.core.pcs[t := Outside])
  {
  }
}
