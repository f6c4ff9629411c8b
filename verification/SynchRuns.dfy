/** The synchronisation invariants hold in every state of every run. */
module SynchRuns {
  import opened Forest
  import opened Prelude
  import opened Synch
  import opened SemaProtocol
  import opened DonationProtocol

  /** waiting_lock is set only inside lock_acquire of that very lock. */
  ghost predicate WaitPcInv(threads: Threads, pcs: map<Tid, PC>) {
    forall t :: t in threads && t in pcs && threads[t].waiting.Some? ==>
      InAcquire(pcs[t], threads[t].waiting.value)
  }

  ghost predicate InAcquire(pc: PC, l: Sem) {
    pc == Down(l) || pc == Asleep(l) || pc == Woken(l)
  }

  ghost predicate Inv(s: State) {
    && WF(s)
    && CoreInv(s.core)
    && DonorInv(s.mlfqs, s.threads, s.core.holder)
    && WaitPcInv(s.threads, s.core.pcs)
  }

  // ------------------------------------------------- pointers stay valid

  lemma AtWF(c: Core, keys: set<Tid>, t: Tid, pc: PC)
    requires CoreWF(c, keys) && t in keys && PcWF(c, pc)
    ensures CoreWF(At(c, t, pc), keys)
  {
    var r := At(c, t, pc);
    assert r.pcs.Keys == keys;
    forall u | u in r.pcs ensures PcWF(r, r.pcs[u]) {
      assert PcWF(c, c.pcs[u]);
    }
  }

  lemma SetSemaWF(c: Core, keys: set<Tid>, x: Sem, q: Sema)
    requires CoreWF(c, keys) && x in c.semas && AllIn(q.waiters, keys)
    ensures CoreWF(SetSema(c, x, q), keys)
  {
    var r := SetSema(c, x, q);
    forall u | u in r.pcs ensures PcWF(r, r.pcs[u]) {
      assert PcWF(c, c.pcs[u]);
    }
  }

  lemma SetHolderWF(c: Core, keys: set<Tid>, l: Sem, h: Option<Tid>)
    requires CoreWF(c, keys) && l in c.holder && (h.Some? ==> h.value in keys)
    ensures CoreWF(c.(holder := c.holder[l := h]), keys)
  {
    var r := c.(holder := c.holder[l := h]);
    forall u | u in r.pcs ensures PcWF(r, r.pcs[u]) {
      assert PcWF(c, c.pcs[u]);
    }
  }

  lemma TestWF(c: Core, keys: set<Tid>, t: Tid, x: Sem)
    requires CoreWF(c, keys) && t in keys && x in c.semas
    ensures CoreWF(TestValue(c, t, x), keys)
  {
    var q := c.semas[x];
    assert AllIn(q.waiters, keys);
    var q' := if q.value == 0 then Sema(0, q.waiters + [t]) else Sema(q.value - 1, q.waiters);
    SetSemaWF(c, keys, x, q');
    var pc := if q.value == 0 then Asleep(x) else if x in c.holder then Took(x) else Outside;
    AtWF(SetSema(c, x, q'), keys, t, pc);
  }

  lemma WokeWF(c: Core, keys: set<Tid>, x: Sem, i: nat)
    requires CoreWF(c, keys) && x in c.semas && (c.semas[x].waiters != [] ==> i < |c.semas[x].waiters|)
    ensures CoreWF(Woke(c, x, i), keys)
  {
    var q := c.semas[x];
    assert AllIn(q.waiters, keys);
    if q.waiters == [] {
      SetSemaWF(c, keys, x, Sema(q.value + 1, []));
    } else {
      var q' := Sema(q.value + 1, q.waiters[..i] + q.waiters[i + 1..]);
      SetSemaWF(c, keys, x, q');
      AtWF(SetSema(c, x, q'), keys, q.waiters[i], Woken(x));
    }
  }

  // ------------------------------------------------------- preservation

  lemma Parts(s: State)
    requires Inv(s)
    ensures AllDonorsIn(s.threads, s.pri) && CoreWF(s.core, s.threads.Keys) && WF(s)
    ensures CoreInv(s.core)
    ensures DonorInv(s.mlfqs, s.threads, s.core.holder)
    ensures WaitPcInv(s.threads, s.core.pcs)
  {
  }

  lemma Assemble(s: State)
    requires AllDonorsIn(s.threads, s.pri) && CoreWF(s.core, s.threads.Keys)
    requires CoreInv(s.core)
    requires DonorInv(s.mlfqs, s.threads, s.core.holder)
    requires WaitPcInv(s.threads, s.core.pcs)
    ensures Inv(s)
  {
  }

  /** Steps that change program counters and semaphores only. */
  lemma CoreStepInv(s: State, c: Core)
    requires Inv(s) && c.holder == s.core.holder
    requires CoreWF(c, s.threads.Keys) && CoreInv(c) && WaitPcInv(s.threads, c.pcs)
    ensures Inv(s.(core := c))
  {
    hide *;
    Parts(s);
    Assemble(s.(core := c));
  }

  /** A thread may move anywhere once it has no waiting_lock. */
  lemma MoveFree(threads: Threads, pcs: map<Tid, PC>, t: Tid, pc: PC)
    requires WaitPcInv(threads, pcs) && t in threads
    requires threads[t].waiting == None || InAcquire(pc, threads[t].waiting.value)
    ensures WaitPcInv(threads, pcs[t := pc])
  {
  }

  lemma TestInv(s: State, t: Tid, x: Sem)
    requires Inv(s) && x in s.core.semas && t in s.threads && (PcIs(s.core, t, Down(x)) || PcIs(s.core, t, Woken(x)))
    ensures Inv(s.(core := TestValue(s.core, t, x)))
  {
    TestWaitPc(s, t, x);
    hide Inv, CoreInv, CoreWF, WaitPcInv, TestValue;
    Parts(s);
    TestWF(s.core, s.threads.Keys, t, x);
    TestCore(s.core, t, x);
    CoreStepInv(s, TestValue(s.core, t, x));
  }

  lemma TestCore(c: Core, t: Tid, x: Sem)
    requires CoreInv(c) && x in c.semas && (PcIs(c, t, Down(x)) || PcIs(c, t, Woken(x)))
    ensures CoreInv(TestValue(c, t, x)) && TestValue(c, t, x).holder == c.holder
  {
    hide CoreInv;
    if c.semas[x].value == 0 {
      Sleep(c, t, x);
    } else {
      Enter(c, t, x, if x in c.holder then Took(x) else Outside);
    }
  }

  lemma TestWaitPc(s: State, t: Tid, x: Sem)
    requires Inv(s) && x in s.core.semas && t in s.threads && (PcIs(s.core, t, Down(x)) || PcIs(s.core, t, Woken(x)))
    ensures WaitPcInv(s.threads, TestValue(s.core, t, x).pcs)
  {
    if s.core.semas[x].value > 0 {
      NotWaiting(s, t, x);
    }
    MoveFree(s.threads, s.core.pcs, t, TestValue(s.core, t, x).pcs[t]);
  }

  /** While the value of a lock is positive nobody donates for it, so whoever
      takes it has no waiting_lock. */
  lemma NotWaiting(s: State, t: Tid, x: Sem)
    requires Inv(s) && t in s.threads && x in s.core.semas && s.core.semas[x].value > 0
    requires s.core.pcs[t] == Down(x) || s.core.pcs[t] == Woken(x)
    ensures s.threads[t].waiting == None
  {
    if s.threads[t].waiting.Some? {
      assert InAcquire(s.core.pcs[t], s.threads[t].waiting.value);
      assert s.threads[t].waiting == Some(x);
      assert WaitsForHeld(s.threads, s.core.holder, t);
      assert OwnerAt(s.core, x);
      HolderOwns(s.core, x);
    }
  }

  lemma OutsideNotWaiting(s: State, t: Tid)
    requires Inv(s) && t in s.threads && (s.core.pcs[t].Outside? || s.core.pcs[t].Took? || s.core.pcs[t].Giving?)
    ensures s.threads[t].waiting == None
  {
    assert s.threads[t].waiting.Some? ==> InAcquire(s.core.pcs[t], s.threads[t].waiting.value);
  }

  lemma IdleMoveInv(s: State, t: Tid, pc: PC)
    requires Inv(s) && t in s.threads && PcIs(s.core, t, Outside) && PcWF(s.core, pc)
    requires pc.Down? || (pc.Dead? && forall l :: l in s.core.holder ==> s.core.holder[l] != Some(t))
    ensures Inv(s.(core := At(s.core, t, pc)))
  {
    OutsideNotWaiting(s, t);
    hide Inv, CoreInv, CoreWF, WaitPcInv, PcWF;
    Parts(s);
    IdleMove(s.core, t, pc);
    AtWF(s.core, s.threads.Keys, t, pc);
    MoveFree(s.threads, s.core.pcs, t, pc);
    CoreStepInv(s, At(s.core, t, pc));
  }

  lemma TryAcquireInv(s: State, t: Tid, l: Sem)
    requires Inv(s) && t in s.threads && PcIs(s.core, t, Outside)
    requires l in s.core.holder && l in s.core.semas && s.core.semas[l].value > 0
    ensures Inv(s.(core := TestValue(s.core, t, l)))
  {
    OutsideNotWaiting(s, t);
    hide Inv, CoreInv, CoreWF, WaitPcInv;
    Parts(s);
    TestWF(s.core, s.threads.Keys, t, l);
    Enter(s.core, t, l, Took(l));
    MoveFree(s.threads, s.core.pcs, t, Took(l));
    CoreStepInv(s, TestValue(s.core, t, l));
  }

  lemma HandlerTryInv(s: State, t: Tid, l: Sem)
    requires Inv(s) && t in s.threads && t in s.core.pcs && !s.core.pcs[t].Asleep? && !s.core.pcs[t].Dead?
    requires l in s.core.holder && l in s.core.semas && s.core.semas[l].value > 0
    ensures Inv(s.(core := TakeAtOnce(s.core, t, l)))
  {
    var c, q := s.core, s.core.semas[l];
    assert AllIn(q.waiters, s.threads.Keys);
    hide Inv, CoreInv, CoreWF, WaitPcInv, DonorInv, AllDonorsIn, AllIn;
    Parts(s);
    TakeOnce(c, t, l);
    HoldKeeps(s.mlfqs, s.threads, c.holder, l, t);
    SetSemaWF(c, s.threads.Keys, l, Sema(q.value - 1, q.waiters));
    SetHolderWF(SetSema(c, l, Sema(q.value - 1, q.waiters)), s.threads.Keys, l, Some(t));
    Assemble(s.(core := TakeAtOnce(c, t, l)));
  }

  lemma TryDownInv(s: State, x: Sem)
    requires Inv(s) && x in s.core.semas && x !in s.core.holder && s.core.semas[x].value > 0
    ensures
      var q := s.core.semas[x];
      Inv(s.(core := SetSema(s.core, x, Sema(q.value - 1, q.waiters))))
  {
    var q := s.core.semas[x];
    assert AllIn(q.waiters, s.threads.Keys);
    hide Inv, CoreInv, CoreWF, WaitPcInv, AllIn;
    Parts(s);
    SetSemaWF(s.core, s.threads.Keys, x, Sema(q.value - 1, q.waiters));
    Decrement(s.core, x);
    CoreStepInv(s, SetSema(s.core, x, Sema(q.value - 1, q.waiters)));
  }

  lemma UpIndex(c: Core, pri: Priorities, x: Sem) returns (i: nat)
    requires x in c.semas && AllIn(c.semas[x].waiters, pri.Keys)
    ensures c.semas[x].waiters != [] ==> i < |c.semas[x].waiters|
    ensures Up(c, pri, x) == Woke(c, x, i)
  {
    i := if c.semas[x].waiters == [] then 0 else FirstMax(pri, c.semas[x].waiters, 0, 1);
  }

  /** sema_up changes the program counter of a sleeper at most. */
  lemma WokeWaitPc(threads: Threads, c: Core, x: Sem, i: nat)
    requires WaitPcInv(threads, c.pcs) && WaitAt(c, x) && (c.semas[x].waiters != [] ==> i < |c.semas[x].waiters|)
    ensures WaitPcInv(threads, Woke(c, x, i).pcs)
  {
    var ws := c.semas[x].waiters;
    if ws != [] {
      assert multiset(ws)[ws[i]] > 0;
      assert PcIs(c, ws[i], Asleep(x));
    }
  }

  lemma PostInv(s: State, x: Sem, i: nat)
    requires Inv(s) && x in s.core.semas && x !in s.core.holder
    requires s.core.semas[x].waiters != [] ==> i < |s.core.semas[x].waiters|
    ensures Inv(s.(core := Woke(s.core, x, i)))
  {
    assert WaitAt(s.core, x);
    hide Inv, CoreInv, CoreWF, WaitPcInv, WaitAt;
    Parts(s);
    WokeWF(s.core, s.threads.Keys, x, i);
    Posted(s.core, x, i);
    WokeWaitPc(s.threads, s.core, x, i);
    CoreStepInv(s, Woke(s.core, x, i));
  }

  lemma FinishReleaseInv(s: State, t: Tid, l: Sem, i: nat)
    requires Inv(s) && t in s.threads && PcIs(s.core, t, Giving(l)) && l in s.core.holder && l in s.core.semas
    requires s.core.semas[l].waiters != [] ==> i < |s.core.semas[l].waiters|
    ensures Inv(s.(core := At(Woke(s.core, l, i), t, Outside)))
  {
    assert WaitAt(s.core, l);
    OutsideNotWaiting(s, t);
    hide Inv, CoreInv, CoreWF, WaitPcInv, WaitAt;
    Parts(s);
    WokeWF(s.core, s.threads.Keys, l, i);
    AtWF(Woke(s.core, l, i), s.threads.Keys, t, Outside);
    Finish(s.core, t, l, i);
    WokeWaitPc(s.threads, s.core, l, i);
    MoveFree(s.threads, Woke(s.core, l, i).pcs, t, Outside);
    CoreStepInv(s, At(Woke(s.core, l, i), t, Outside));
  }

  lemma TakeHolderInv(s: State, t: Tid, l: Sem)
    requires Inv(s) && t in s.threads && PcIs(s.core, t, Took(l)) && l in s.core.holder
    ensures Inv(s.(core := At(s.core.(holder := s.core.holder[l := Some(t)]), t, Outside)))
  {
    OutsideNotWaiting(s, t);
    hide Inv, CoreInv, CoreWF, WaitPcInv, DonorInv, AllDonorsIn;
    Parts(s);
    var c := s.core;
    NoHolderYet(c, t, l);
    Hold(c, t, l);
    HoldKeeps(s.mlfqs, s.threads, c.holder, l, t);
    SetHolderWF(c, s.threads.Keys, l, Some(t));
    AtWF(c.(holder := c.holder[l := Some(t)]), s.threads.Keys, t, Outside);
    MoveFree(s.threads, c.pcs, t, Outside);
    Assemble(s.(core := At(c.(holder := c.holder[l := Some(t)]), t, Outside)));
  }

  lemma ReleasedInv(s: State, t: Tid, l: Sem)
    requires Inv(s) && PcIs(s.core, t, Outside) && l in s.core.holder && s.core.holder[l] == Some(t)
    requires t in s.threads
    ensures Inv(Released(s, t, l))
  {
    OutsideNotWaiting(s, t);
    hide Inv, CoreInv, CoreWF, WaitPcInv, DonorInv, AllDonorsIn, Released;
    Parts(s);
    ReleasedCore(s.core, s.threads.Keys, t, l);
    ReleasedDonor(s, t, l);
    MoveFree(s.threads, s.core.pcs, t, Giving(l));
    FewerWaits(s.threads, Released(s, t, l).threads, s.core.pcs[t := Giving(l)]);
    Assemble(Released(s, t, l));
  }

  lemma FewerWaits(threads: Threads, r: Threads, pcs: map<Tid, PC>)
    requires WaitPcInv(threads, pcs) && r.Keys == threads.Keys
    requires forall u :: u in threads && r[u].waiting.Some? ==> r[u].waiting == threads[u].waiting
    ensures WaitPcInv(r, pcs)
  {
  }

  lemma ReleasedDonor(s: State, t: Tid, l: Sem)
    requires AllDonorsIn(s.threads, s.pri) && DonorInv(s.mlfqs, s.threads, s.core.holder)
    requires t in s.threads && s.threads[t].waiting == None && l in s.core.holder && s.core.holder[l] == Some(t)
    ensures
      var r := Released(s, t, l);
      && r.core == At(s.core.(holder := s.core.holder[l := None]), t, Giving(l))
      && r.threads.Keys == s.threads.Keys && AllDonorsIn(r.threads, r.pri)
      && DonorInv(r.mlfqs, r.threads, r.core.holder)
      && (forall u :: u in s.threads && r.threads[u].waiting.Some? ==> r.threads[u].waiting == s.threads[u].waiting)
  {
    var r, holder := Released(s, t, l), s.core.holder;
    if s.mlfqs {
      FreeKeeps(s.threads, holder, l);
    } else {
      UnlinkKeeps(s.threads, s.pri, t, l);
      UpdateKeeps(Unlink(s.threads, t, l), s.pri, t);
      UnlinkBooks(s.threads, holder, t, l);
      ReleaseKeeps(s.threads, holder, t, l);
    }
  }

  lemma ReleasedCore(c: Core, keys: set<Tid>, t: Tid, l: Sem)
    requires CoreInv(c) && CoreWF(c, keys) && PcIs(c, t, Outside) && l in c.holder && c.holder[l] == Some(t)
    ensures
      var r := At(c.(holder := c.holder[l := None]), t, Giving(l));
      CoreInv(r) && CoreWF(r, keys)
  {
    LetGo(c, t, l);
    SetHolderWF(c, keys, l, None);
    AtWF(c.(holder := c.holder[l := None]), keys, t, Giving(l));
  }

  /** Under MLFQS nobody waits through waiting_lock, so clearing a holder is harmless. */
  lemma FreeKeeps(threads: Threads, holder: Holders, l: Sem)
    requires DonorInv(true, threads, holder) && l in holder
    ensures DonorInv(true, threads, holder[l := None])
  {
    var free := holder[l := None];
    forall u | u in threads ensures ListsDonors(threads, free, u) && WaitsForHeld(threads, free, u) {
      assert ListsDonors(threads, holder, u);
      forall d: Donation ensures !Owes(threads, free, d, u) && !Owes(threads, holder, d, u) {}
    }
    assert WaitsFor(threads, free) == WaitsFor(threads, holder);
  }

  lemma DonateInv(s: State, t: Tid, l: Sem, path: seq<Tid>)
    requires Inv(s) && Enabled(s, Acquire(t, l, path)) && Donates(s, l)
    ensures Inv(Donate(s, t, l, path))
  {
    var c, keys := s.core, s.threads.Keys;
    var h := c.holder[l].value;
    OutsideNotWaiting(s, t);
    LinkKeeps(s.threads, s.pri, t, l, h);
    var threads := Link(s.threads, s.pri, t, l, h);
    WalkInside(threads, c.holder, h, path);
    SettleKeeps(threads, s.pri, path);
    hide Inv, CoreInv, CoreWF, WaitPcInv, DonorInv, AllDonorsIn;
    Parts(s);
    IdleMove(c, t, Down(l));
    AtWF(c, keys, t, Down(l));
    DonateKeeps(s.threads, s.pri, c.holder, t, l, h, path);
    LinkWaits(s.threads, s.pri, c.pcs, t, l, h);
    assert threads.Keys == keys;
    Assemble(Donate(s, t, l, path));
  }

  lemma LinkWaits(threads: Threads, pri: Priorities, pcs: map<Tid, PC>, t: Tid, l: Sem, h: Tid)
    requires AllDonorsIn(threads, pri) && t in threads && h in threads && h != t
    requires WaitPcInv(threads, pcs)
    ensures WaitPcInv(Link(threads, pri, t, l, h), pcs[t := Down(l)])
  {
  }

  lemma RebasedInv(s: State, t: Tid, p: int)
    requires Inv(s) && t in s.threads && PcIs(s.core, t, Outside) && !s.mlfqs
    ensures Inv(Rebased(s, t, p))
  {
    var r := s.threads[t := s.threads[t].(base := p)];
    assert r.Keys == s.threads.Keys && WaitPcInv(r, s.core.pcs);
    SameLinks(s.threads, r, s.core.holder);
    RebaseKeeps(s.threads, s.pri, t, p);
    UpdateKeeps(r, s.pri, t);
    assert DonorInv(s.mlfqs, r, s.core.holder);
    hide Inv, CoreInv, CoreWF, WaitPcInv, DonorInv, AllDonorsIn;
    Parts(s);
    Assemble(Rebased(s, t, p));
  }

  lemma OverwriteInv(s: State, t: Tid, p: int)
    requires Inv(s) && t in s.threads
    ensures Inv(s.(pri := s.pri[t := p]))
  {
    hide Inv, CoreInv, CoreWF, WaitPcInv, DonorInv, AllDonorsIn;
    Parts(s);
    OverwriteKeeps(s.threads, s.pri, t, p);
    Assemble(s.(pri := s.pri[t := p]));
  }

  lemma CreatedInv(s: State, t: Tid, p: int)
    requires Inv(s) && t !in s.threads
    ensures Inv(Created(s, t, p))
  {
    assert forall l :: l in s.core.holder ==> s.core.holder[l] != Some(t);
    var threads := s.threads[t := Thread(p, None, [])];
    assert threads.Keys == s.threads.Keys + {t} && WaitPcInv(threads, s.core.pcs[t := Outside]);
    hide Inv, CoreInv, CoreWF, WaitPcInv, DonorInv, AllDonorsIn;
    Parts(s);
    CreateKeeps(s.mlfqs, s.threads, s.core.holder, t, p);
    CreateDonors(s.threads, s.pri, t, p);
    CreatedCore(s.core, s.threads.Keys, t);
    Assemble(Created(s, t, p));
  }

  lemma CreatedCore(c: Core, keys: set<Tid>, t: Tid)
    requires CoreInv(c) && CoreWF(c, keys) && t !in keys
    ensures CoreInv(At(c, t, Outside)) && CoreWF(At(c, t, Outside), keys + {t})
  {
    IdleMove(c, t, Outside);
    var r := At(c, t, Outside);
    assert r.pcs.Keys == keys + {t};
    forall u | u in r.pcs ensures PcWF(r, r.pcs[u]) {
      assert u in c.pcs ==> PcWF(c, c.pcs[u]);
    }
    forall x | x in r.semas ensures AllIn(r.semas[x].waiters, keys + {t}) {
      assert AllIn(c.semas[x].waiters, keys);
    }
  }

  /** Where a program counter names a semaphore, the semaphore exists. */
  lemma PcSema(s: State, t: Tid)
    requires Inv(s) && t in s.core.pcs && !s.core.pcs[t].Outside? && !s.core.pcs[t].Dead?
    ensures s.core.pcs[t].s in s.core.semas && t in s.threads
    ensures s.core.pcs[t].Took? || s.core.pcs[t].Giving? ==> s.core.pcs[t].s in s.core.holder
  {
    assert PcWF(s.core, s.core.pcs[t]);
  }

  lemma Domains(s: State)
    requires Inv(s)
    ensures s.core.pcs.Keys == s.threads.Keys
    ensures forall l :: l in s.core.holder ==> l in s.core.semas
  {
  }

  lemma WaitersKnown(s: State, x: Sem)
    requires Inv(s) && x in s.core.semas
    ensures AllIn(s.core.semas[x].waiters, s.pri.Keys)
  {
    assert AllIn(s.core.semas[x].waiters, s.threads.Keys);
  }

  /** Every step of every thread keeps the invariant. */
  lemma StepInv(s: State, step: Step)
    requires Inv(s) && Enabled(s, step)
    ensures Inv(Next(s, step))
  {
    hide Inv, CoreInv, DonorInv, WaitPcInv, AllIn, CoreWF, AllDonorsIn;
    Domains(s);
    var c := s.core;
    match step
    case Acquire(t, l, path) =>
      if Donates(s, l) { DonateInv(s, t, l, path); } else { IdleMoveInv(s, t, Down(l)); }
    case StartDown(t, x) => IdleMoveInv(s, t, Down(x));
    case Test(t) =>
      PcSema(s, t);
      TestInv(s, t, c.pcs[t].s);
    case TakeHolder(t) =>
      PcSema(s, t);
      TakeHolderInv(s, t, c.pcs[t].s);
    case TryAcquire(t, l) => if c.semas[l].value > 0 { TryAcquireInv(s, t, l); }
    case HandlerTry(t, l) => if c.semas[l].value > 0 { HandlerTryInv(s, t, l); }
    case TryDown(x) => if c.semas[x].value > 0 { TryDownInv(s, x); }
    case StartRelease(t, l) => ReleasedInv(s, t, l);
    case FinishRelease(t) =>
      PcSema(s, t);
      WaitersKnown(s, c.pcs[t].s);
      var i := UpIndex(c, s.pri, c.pcs[t].s);
      FinishReleaseInv(s, t, c.pcs[t].s, i);
    case Post(x) =>
      WaitersKnown(s, x);
      var i := UpIndex(c, s.pri, x);
      PostInv(s, x, i);
    case SetPriority(t, p) => if !s.mlfqs { RebasedInv(s, t, p); }
    case SetNice(t, p) => OverwriteInv(s, t, p);
    case Recompute(t, p) => OverwriteInv(s, t, p);
    case Create(t, p) => CreatedInv(s, t, p);
    case Exit(t) => IdleMoveInv(s, t, Dead);
  }

  // ---------------------------------------------------------------- runs

  ghost predicate Init(s: State) {
    && s.pri.Keys == s.threads.Keys == s.core.pcs.Keys
    && (forall t :: t in s.threads ==> s.threads[t] == Thread(s.pri[t], None, []) && s.core.pcs[t] == Outside)
    && (forall x :: x in s.core.semas ==> s.core.semas[x].waiters == [])
    && (forall l :: l in s.core.holder ==>
          s.core.holder[l] == None && l in s.core.semas && s.core.semas[l].value == 1)
  }

  ghost predicate Run(states: seq<State>, steps: seq<Step>) {
    && |states| == |steps| + 1
    && Init(states[0])
    && forall i :: 0 <= i < |steps| ==>
         WF(states[i]) && Enabled(states[i], steps[i]) && states[i + 1] == Next(states[i], steps[i])
  }

  lemma InitInv(s: State)
    requires Init(s)
    ensures Inv(s)
  {
    InitCore(s);
    InitDonor(s);
  }

  lemma InitCore(s: State)
    requires Init(s)
    ensures CoreInv(s.core) && CoreWF(s.core, s.threads.Keys)
  {
    var c := s.core;
    forall l | l in c.holder ensures OwnerAt(c, l) {
      assert Owners(c, l) == {};
    }
  }

  lemma InitDonor(s: State)
    requires Init(s)
    ensures AllDonorsIn(s.threads, s.pri) && DonorInv(s.mlfqs, s.threads, s.core.holder)
  {
    forall t | t in s.threads ensures ListsDonors(s.threads, s.core.holder, t) {}
    var e := WaitsFor(s.threads, s.core.holder);
    assert e == map[];
    forall t: nat ensures HasWalk(e, t) {
      assert IsWalk(e, t, [t]);
    }
  }

  /** The invariant holds in every state of every run. */
  lemma {:induction false} RunInv(states: seq<State>, steps: seq<Step>, i: nat)
    requires Run(states, steps) && i < |states|
    ensures Inv(states[i])
    decreases i
  {
    if i == 0 {
      InitInv(states[0]);
    } else {
      RunInv(states, steps, i - 1);
      StepInv(states[i - 1], steps[i - 1]);
    }
  }
}
