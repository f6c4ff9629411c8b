/** The routines of threads/synch.c and thread_set_priority, as code that
    updates the kernel's structures in place.  Each method is one stretch run
    with interrupts off and is proved to take the matching step of Synch. */
module SynchKernel {
  import opened Forest
  import opened Prelude
  import opened Synch
  import opened SemaProtocol
  import opened DonationProtocol
  import opened SynchRuns
  import opened SynchEffects

  /** Scanning past donors of no lower priority does not change where the new
      one goes. */
  lemma {:induction false} InsertSkip(pri: Priorities, ds: seq<Donation>, d: Donation, i: nat)
    requires DonorsIn(pri, ds) && d.donor in pri && i <= |ds|
    requires forall k :: 0 <= k < i ==> pri[ds[k].donor] >= pri[d.donor]
    requires i == |ds| || pri[d.donor] > pri[ds[i].donor]
    ensures InsertDonation(pri, ds, d) == ds[..i] + [d] + ds[i..]
    decreases i
  {
    if i > 0 {
      InsertSkip(pri, ds[1..], d, i - 1);
      assert ds == [ds[0]] + ds[1..];
      assert ds[..i] == [ds[0]] + ds[1..][..i - 1] && ds[i..] == ds[1..][i - 1..];
    } else {
      assert ds[..0] == [] && ds[0..] == ds;
    }
  }

  /** The waiting_lock updates of lock_release, one donor at a time. */
  function ClearDonors(threads: Threads, ds: seq<Donation>, l: Sem): (r: Threads)
    decreases |ds|
  {
    if ds == [] then threads else ClearDonors(ClearDonor(threads, ds[0], l), ds[1..], l)
  }

  function ClearDonor(threads: Threads, d: Donation, l: Sem): (r: Threads) {
    if d.lock == l && d.donor in threads && threads[d.donor].waiting == Some(l)
    then threads[d.donor := threads[d.donor].(waiting := None)]
    else threads
  }

  lemma {:induction false} ClearDonorsAt(threads: Threads, ds: seq<Donation>, l: Sem)
    ensures ClearDonors(threads, ds, l).Keys == threads.Keys
    ensures forall u :: u in threads ==>
      ClearDonors(threads, ds, l)[u] ==
        if Donation(l, u) in ds && threads[u].waiting == Some(l) then threads[u].(waiting := None) else threads[u]
    decreases |ds|
  {
    if ds != [] {
      assert ds == [ds[0]] + ds[1..];
      ClearDonorsAt(ClearDonor(threads, ds[0], l), ds[1..], l);
    }
  }

  lemma UndonatedHead(ds: seq<Donation>, e: nat, l: Sem, kept: seq<Donation>)
    requires e < |ds|
    ensures ds[e..] != [] && ds[e..][0] == ds[e] && ds[e..][1..] == ds[e + 1..]
    ensures kept + Undonated(ds[e..], l) == (if ds[e].lock == l then kept else kept + [ds[e]]) + Undonated(ds[e + 1..], l)
  {
    var tail := ds[e..];
    assert tail[0] == ds[e] && tail[1..] == ds[e + 1..];
    UndonatedOnce(tail, l);
    hide Undonated;
    var rest := Undonated(ds[e + 1..], l);
    if ds[e].lock == l {
      assert [] + rest == rest;
    } else {
      assert kept + ([ds[e]] + rest) == (kept + [ds[e]]) + rest;
    }
  }

  lemma UndonatedOnce(ds: seq<Donation>, l: Sem)
    requires ds != []
    ensures Undonated(ds, l) == (if ds[0].lock == l then [] else [ds[0]]) + Undonated(ds[1..], l)
  {
  }

  lemma UnlinkByLoop(threads: Threads, t: Tid, l: Sem)
    requires t in threads
    ensures
      var c := ClearDonors(threads, threads[t].donors, l);
      t in c && Synch.Unlink(threads, t, l) == c[t := c[t].(donors := Undonated(threads[t].donors, l))]
  {
    ClearDonorsAt(threads, threads[t].donors, l);
  }

  // The matching step of Synch, case by case.

  lemma TestStep(s: State, t: Tid, x: Sem)
    requires Inv(s) && (PcIs(s.core, t, Down(x)) || PcIs(s.core, t, Woken(x)))
    ensures WF(s) && x in s.core.semas && Enabled(s, Test(t))
    ensures Next(s, Test(t)) == s.(core := TestValue(s.core, t, x))
  {
    PcSema(s, t);
  }

  lemma FinishStep(s: State, t: Tid, l: Sem)
    requires Inv(s) && PcIs(s.core, t, Giving(l))
    ensures WF(s) && l in s.core.semas && AllIn(s.core.semas[l].waiters, s.pri.Keys) && Enabled(s, FinishRelease(t))
    ensures Next(s, FinishRelease(t)) == s.(core := At(Up(s.core, s.pri, l), t, Outside))
  {
    PcSema(s, t);
    WaitersKnown(s, l);
  }

  lemma AcquireStep(s: State, t: Tid, l: Sem, path: seq<Tid>)
    requires WF(s) && Enabled(s, Acquire(t, l, path))
    ensures Next(s, Acquire(t, l, path)) ==
      if Donates(s, l) then Donate(s, t, l, path) else s.(core := At(s.core, t, Down(l)))
  {
  }

  class Kernel {
    const mlfqs: bool
    var threads: Threads
    var pri: Priorities
    var core: Core

    ghost function St(): (s: State)
      reads this
    {
      State(mlfqs, threads, pri, core)
    }

    /** donate_priority_update: the loop over the donor list. */
    method DonatePriorityUpdate(t: Tid)
      requires t in threads && AllDonorsIn(threads, pri)
      modifies this`pri
      ensures pri == Update(threads, old(pri), t)
      ensures AllDonorsIn(threads, pri)
    {
      UpdateKeeps(threads, pri, t);
      var newPriority := threads[t].base;
      var ds := threads[t].donors;
      var e := 0;
      while e < |ds|
        invariant 0 <= e <= |ds|
        invariant DonorsIn(pri, ds) && DonorsIn(pri, ds[e..])
        invariant MaxOver(pri, newPriority, ds[e..]) == MaxOver(pri, threads[t].base, ds)
      {
        assert ds[e..][1..] == ds[e + 1..];
        var donorPrio := pri[ds[e].donor];
        if donorPrio > newPriority {
          newPriority := donorPrio;
        }
        e := e + 1;
      }
      pri := pri[t := newPriority];
    }

    /** list_insert_ordered into a donor list. */
    method InsertOrdered(h: Tid, d: Donation)
      requires h in threads && AllDonorsIn(threads, pri) && d.donor in pri
      modifies this`threads
      ensures threads == old(threads)[h := old(threads)[h].(donors := InsertDonation(pri, old(threads)[h].donors, d))]
    {
      var ds := threads[h].donors;
      var e := 0;
      while e < |ds| && !(pri[d.donor] > pri[ds[e].donor])
        invariant 0 <= e <= |ds|
        invariant forall k :: 0 <= k < e ==> pri[ds[k].donor] >= pri[d.donor]
      {
        e := e + 1;
      }
      InsertSkip(pri, ds, d, e);
      threads := threads[h := threads[h].(donors := ds[..e] + [d] + ds[e..])];
    }

    /** lock_acquire up to its sema_down.  The caller must not be waited for by
        the holder: on such a cycle the loop of the source never ends. */
    method LockAcquireDonate(cur: Tid, l: Sem) returns (ghost path: seq<Tid>)
      requires Inv(St()) && PcIs(core, cur, Outside) && l in core.holder && core.holder[l] != Some(cur)
      requires exists p :: Enabled(St(), Acquire(cur, l, p))
      modifies this
      ensures Enabled(old(St()), Acquire(cur, l, path))
      ensures St() == Next(old(St()), Acquire(cur, l, path))
    {
      ghost var s := St();
      Parts(s);
      path :| Enabled(s, Acquire(cur, l, path));
      AcquireStep(s, cur, l, path);
      HoldersIn(s);
      hide Inv, CoreInv, DonorInv, WaitPcInv, CoreWF, Next, IsWalk;
      if !mlfqs && core.holder[l].Some? {
        LinkAndWalk(cur, l, core.holder[l].value, path);
      }
      core := At(core, cur, Down(l));
    }

    /** The donation inside lock_acquire. */
    method LinkAndWalk(cur: Tid, l: Sem, h: Tid, ghost path: seq<Tid>)
      requires AllDonorsIn(threads, pri) && cur in threads && h in threads && h != cur
      requires l in core.holder && HoldersExist(threads, core.holder)
      requires IsWalk(WaitsFor(Link(threads, pri, cur, l, h), core.holder), h, path)
      modifies this`threads, this`pri
      ensures threads == Link(old(threads), old(pri), cur, l, h)
      ensures AllDonorsIn(threads, old(pri)) && forall i :: 0 <= i < |path| ==> path[i] in threads
      ensures pri == Settle(threads, old(pri), path)
    {
      WaitKeeps(threads, pri, cur, l);
      LinkKeeps(threads, pri, cur, l, h);
      threads := threads[cur := threads[cur].(waiting := Some(l))];
      InsertOrdered(h, Donation(l, cur));
      assert threads == Link(old(threads), pri, cur, l, h);
      Walk(h, path);
    }

    /** The while loop of lock_acquire: update, follow waiting_lock, repeat. */
    method Walk(h: Tid, ghost path: seq<Tid>)
      requires AllDonorsIn(threads, pri) && h in threads && HoldersExist(threads, core.holder)
      requires IsWalk(WaitsFor(threads, core.holder), h, path)
      modifies this`pri
      ensures forall i :: 0 <= i < |path| ==> path[i] in threads
      ensures pri == Settle(threads, old(pri), path)
    {
      ghost var e := WaitsFor(threads, core.holder);
      WalkInside(threads, core.holder, h, path);
      var t: Option<Tid> := Some(h);
      ghost var rest := path;
      while t.Some?
        invariant AllDonorsIn(threads, pri)
        invariant forall i :: 0 <= i < |rest| ==> rest[i] in threads
        invariant Settle(threads, pri, rest) == Settle(threads, old(pri), path)
        invariant if t.Some? then IsWalk(e, t.value, rest) else rest == []
        decreases |rest|
      {
        var u := t.value;
        DonatePriorityUpdate(u);
        if threads[u].waiting.Some? {
          t := core.holder[threads[u].waiting.value];
        } else {
          t := None;
        }
        rest := rest[1..];
      }
    }

    /** One evaluation of the loop test of sema_down, with what follows it. */
    method SemaDownTest(cur: Tid, x: Sem) returns (blocked: bool)
      requires Inv(St()) && (PcIs(core, cur, Down(x)) || PcIs(core, cur, Woken(x)))
      modifies this`core
      ensures Enabled(old(St()), Test(cur)) && St() == Next(old(St()), Test(cur))
      ensures blocked == PcIs(core, cur, Asleep(x))
    {
      hide Inv, WF, Enabled, Next;
      TestStep(St(), cur, x);
      var q := core.semas[x];
      if q.value == 0 {
        core := At(SetSema(core, x, Sema(0, q.waiters + [cur])), cur, Asleep(x));
      } else {
        core := At(SetSema(core, x, Sema(q.value - 1, q.waiters)), cur, if x in core.holder then Took(x) else Outside);
      }
      blocked := q.value == 0;
    }

    /** The end of lock_acquire: the assertion and the assignment. */
    method SetHolder(cur: Tid, l: Sem)
      requires Inv(St()) && PcIs(core, cur, Took(l))
      modifies this`core
      ensures Enabled(old(St()), TakeHolder(cur)) && St() == Next(old(St()), TakeHolder(cur))
    {
      PcSema(St(), cur);
      assert core.holder[l] == None by { NoHolderYet(core, cur, l); }
      core := At(core.(holder := core.holder[l := Some(cur)]), cur, Outside);
    }

    /** lock_try_acquire's sema_try_down. */
    method LockTryAcquire(cur: Tid, l: Sem) returns (success: bool)
      requires Inv(St()) && PcIs(core, cur, Outside) && l in core.holder && core.holder[l] != Some(cur)
      modifies this`core
      ensures Enabled(old(St()), TryAcquire(cur, l)) && St() == Next(old(St()), TryAcquire(cur, l))
      ensures success == PcIs(core, cur, Took(l))
    {
      Domains(St());
      if core.semas[l].value > 0 {
        core := At(SetSema(core, l, Sema(core.semas[l].value - 1, core.semas[l].waiters)), cur, Took(l));
        success := true;
      } else {
        success := false;
      }
    }

    /** lock_try_acquire in an interrupt handler, where thread_current () is the
        interrupted thread, wherever that thread was. */
    method LockTryAcquireInHandler(cur: Tid, l: Sem) returns (success: bool)
      requires Inv(St()) && cur in core.pcs && !core.pcs[cur].Asleep? && !core.pcs[cur].Dead?
      requires l in core.holder && core.holder[l] != Some(cur)
      modifies this`core
      ensures Enabled(old(St()), HandlerTry(cur, l)) && St() == Next(old(St()), HandlerTry(cur, l))
      ensures success == (core.holder[l] == Some(cur))
    {
      Domains(St());
      if core.semas[l].value > 0 {
        core := SetSema(core, l, Sema(core.semas[l].value - 1, core.semas[l].waiters));
        core := core.(holder := core.holder[l := Some(cur)]);
        success := true;
      } else {
        success := false;
      }
    }

    /** thread_set_nice, up to the choice whether to yield; newPriority is what
        thread_priority_calc_mlfqs computes. */
    method SetNice(cur: Tid, newPriority: int)
      requires Inv(St()) && PcIs(core, cur, Outside) && 0 <= newPriority <= 63
      modifies this`pri
      ensures Enabled(old(St()), Step.SetNice(cur, newPriority))
      ensures St() == Next(old(St()), Step.SetNice(cur, newPriority))
    {
      pri := pri[cur := newPriority];
    }

    /** lock_release up to its sema_up: the loop over the donor list. */
    method LockReleaseUndonate(cur: Tid, l: Sem)
      requires Inv(St()) && PcIs(core, cur, Outside) && l in core.holder && core.holder[l] == Some(cur)
      modifies this
      ensures Enabled(old(St()), StartRelease(cur, l)) && St() == Next(old(St()), StartRelease(cur, l))
    {
      Domains(St());
      if !mlfqs {
        ghost var s := St();
        Unlink(cur, l);
        UnlinkKeeps(s.threads, s.pri, cur, l);
        DonatePriorityUpdate(cur);
      }
      core := At(core.(holder := core.holder[l := None]), cur, Giving(l));
    }

    method Unlink(cur: Tid, l: Sem)
      requires cur in threads && AllDonorsIn(threads, pri)
      modifies this`threads
      ensures threads == Synch.Unlink(old(threads), cur, l)
    {
      var ds := threads[cur].donors;
      assert DonorsIn(pri, ds);
      hide Synch.Unlink, AllDonorsIn;
      var kept: seq<Donation> := [];
      var e := 0;
      assert ds[e..] == ds;
      while e < |ds|
        invariant 0 <= e <= |ds|
        invariant kept + Undonated(ds[e..], l) == Undonated(ds, l)
        invariant ClearDonors(threads, ds[e..], l) == ClearDonors(old(threads), ds, l)
        invariant threads.Keys == old(threads).Keys
      {
        var de := ds[e];
        UndonatedHead(ds, e, l, kept);
        if de.lock == l {
          if threads[de.donor].waiting == Some(l) {
            threads := threads[de.donor := threads[de.donor].(waiting := None)];
          }
        } else {
          kept := kept + [de];
        }
        e := e + 1;
      }
      assert ds[e..] == [] && kept + [] == kept;
      UnlinkByLoop(old(threads), cur, l);
      threads := threads[cur := threads[cur].(donors := kept)];
    }

    /** sema_up: list_min over the waiters, list_remove, unblock, increment. */
    method SemaUp(x: Sem)
      requires x in core.semas && AllIn(core.semas[x].waiters, pri.Keys)
      modifies this`core
      ensures core == Up(old(core), pri, x)
      ensures
        var q := old(core).semas[x];
        if q.waiters == [] then core == old(core).(semas := old(core).semas[x := Sema(q.value + 1, [])])
        else exists k :: FirstHighest(pri, q.waiters, k) && Wakes(old(core), x, k, core)
    {
      UpSpecified(core, pri, x);
      var q := core.semas[x];
      if q.waiters != [] {
        var max := 0;
        var e := 1;
        while e < |q.waiters|
          invariant 0 <= max < e <= |q.waiters|
          invariant forall k :: 0 <= k < e ==> pri[q.waiters[k]] <= pri[q.waiters[max]]
          invariant forall k :: 0 <= k < max ==> pri[q.waiters[k]] < pri[q.waiters[max]]
          invariant FirstMax(pri, q.waiters, max, e) == FirstMax(pri, q.waiters, 0, 1)
        {
          if pri[q.waiters[e]] > pri[q.waiters[max]] {
            max := e;
          }
          e := e + 1;
        }
        var w := q.waiters[max];
        q := Sema(q.value, q.waiters[..max] + q.waiters[max + 1..]);
        core := At(core, w, Woken(x));
      }
      core := SetSema(core, x, Sema(q.value + 1, q.waiters));
    }

    /** The sema_up that ends lock_release. */
    method LockReleaseUp(cur: Tid, l: Sem)
      requires Inv(St()) && PcIs(core, cur, Giving(l))
      modifies this`core
      ensures Enabled(old(St()), FinishRelease(cur)) && St() == Next(old(St()), FinishRelease(cur))
    {
      hide Inv, Next, Enabled, CoreInv, CoreWF, DonorInv, WaitPcInv, AllDonorsIn, Up, PcIs, WF;
      FinishStep(St(), cur, l);
      SemaUp(l);
      core := At(core, cur, Outside);
    }

    /** thread_set_priority, up to the choice whether to yield. */
    method SetPriority(cur: Tid, newPriority: int)
      requires Inv(St()) && PcIs(core, cur, Outside)
      modifies this
      ensures Enabled(old(St()), Step.SetPriority(cur, newPriority))
      ensures St() == Next(old(St()), Step.SetPriority(cur, newPriority))
      ensures
        !mlfqs ==>
          && cur in old(threads) && threads == old(threads)[cur := old(threads)[cur].(base := newPriority)]
          && cur in pri && LargestOf(pri[cur], newPriority, old(pri), old(threads)[cur].donors)
    {
      Domains(St());
      if mlfqs {
        return;
      }
      RebaseKeeps(threads, pri, cur, newPriority);
      UpdateStores(threads[cur := threads[cur].(base := newPriority)], pri, cur);
      threads := threads[cur := threads[cur].(base := newPriority)];
      DonatePriorityUpdate(cur);
    }
  }

  lemma UpSpecified(c: Core, pri: Priorities, x: Sem)
    requires x in c.semas && AllIn(c.semas[x].waiters, pri.Keys)
    ensures
      var q := c.semas[x];
      if q.waiters == [] then Up(c, pri, x) == c.(semas := c.semas[x := Sema(q.value + 1, [])])
      else exists k :: FirstHighest(pri, q.waiters, k) && Wakes(c, x, k, Up(c, pri, x))
  {
    if c.semas[x].waiters == [] {
      UpAlone(c, pri, x);
    } else {
      var k := UpWakes(c, pri, x);
    }
  }

  ghost predicate HoldersExist(threads: Threads, holder: Holders) {
    && (forall k :: k in holder && holder[k].Some? ==> holder[k].value in threads)
    && (forall t :: t in threads && threads[t].waiting.Some? ==> threads[t].waiting.value in holder)
  }

  lemma HoldersIn(s: State)
    requires Inv(s)
    ensures HoldersExist(s.threads, s.core.holder) && s.core.pcs.Keys == s.threads.Keys
  {
    forall t | t in s.threads && s.threads[t].waiting.Some? ensures s.threads[t].waiting.value in s.core.holder {
      assert WaitsForHeld(s.threads, s.core.holder, t);
    }
  }

  lemma WaitKeeps(threads: Threads, pri: Priorities, t: Tid, l: Sem)
    requires AllDonorsIn(threads, pri) && t in threads
    ensures AllDonorsIn(threads[t := threads[t].(waiting := Some(l))], pri)
  {
    var r := threads[t := threads[t].(waiting := Some(l))];
    assert r.Keys == threads.Keys;
    forall u | u in r ensures DonorsIn(pri, r[u].donors) {
      assert DonorsIn(pri, threads[u].donors);
    }
  }
}
