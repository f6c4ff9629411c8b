/** Semaphores, locks and priority donation (threads/synch.c) as a transition
    system.  One step is one stretch of code run with interrupts off; between
    steps any other thread may run. */
module Synch {
  import opened Forest
  import opened Prelude

  type Sem = nat

  /** struct donate_elem: donor waits for lock. */
  datatype Donation = Donation(lock: Sem, donor: Tid)

  /** The members of struct thread that the donation code uses, except the
      effective priority, which is kept in a map of its own. */
  datatype Thread = Thread(base: int, waiting: Option<Sem>, donors: seq<Donation>)

  type Threads = map<Tid, Thread>
  type Priorities = map<Tid, int>
  type Holders = map<Sem, Option<Tid>>

  /** Where a thread stands in the synchronisation code. */
  datatype PC =
    | Outside            // in no synchronisation routine
    | Down(s: Sem)       // in sema_down, about to test the value for the first time
    | Asleep(s: Sem)     // blocked in sema_down
    | Woken(s: Sem)      // unblocked by sema_up, about to test the value again
    | Took(s: Sem)       // lock's semaphore is down, holder not yet set
    | Giving(s: Sem)     // holder cleared, lock's semaphore not yet up
    | Dead               // thread_exit was called

  datatype Sema = Sema(value: nat, waiters: seq<Tid>)

  /** Program counters, semaphores and lock holders.  A lock is a semaphore
      that also has an entry in holder. */
  datatype Core = Core(pcs: map<Tid, PC>, semas: map<Sem, Sema>, holder: Holders)

  datatype State = State(mlfqs: bool, threads: Threads, pri: Priorities, core: Core)

  // ------------------------------------------------ effective priorities

  ghost predicate DonorsIn(pri: Priorities, ds: seq<Donation>) {
    forall i :: 0 <= i < |ds| ==> ds[i].donor in pri
  }

  ghost predicate AllDonorsIn(threads: Threads, pri: Priorities) {
    threads.Keys == pri.Keys && forall t :: t in threads ==> DonorsIn(pri, threads[t].donors)
  }

  /** The loop of donate_priority_update: the running maximum. */
  function MaxOver(pri: Priorities, acc: int, ds: seq<Donation>): (r: int)
    requires DonorsIn(pri, ds)
    decreases |ds|
  {
    if ds == [] then acc
    else
      var p := pri[ds[0].donor];
      MaxOver(pri, if p > acc then p else acc, ds[1..])
  }

  /** donate_priority_update */
  function Update(threads: Threads, pri: Priorities, t: Tid): (r: Priorities)
    requires t in threads && AllDonorsIn(threads, pri)
  {
    pri[t := MaxOver(pri, threads[t].base, threads[t].donors)]
  }

  lemma UpdateKeeps(threads: Threads, pri: Priorities, t: Tid)
    requires t in threads && AllDonorsIn(threads, pri)
    ensures AllDonorsIn(threads, Update(threads, pri, t))
  {
    var r := Update(threads, pri, t);
    assert r.Keys == pri.Keys;
    forall u | u in threads ensures DonorsIn(r, threads[u].donors) {
      assert DonorsIn(pri, threads[u].donors);
    }
  }

  /** The while loop of lock_acquire, along a given path. */
  function Settle(threads: Threads, pri: Priorities, path: seq<Tid>): (r: Priorities)
    requires AllDonorsIn(threads, pri)
    requires forall i :: 0 <= i < |path| ==> path[i] in threads
    ensures r.Keys == pri.Keys
    decreases |path|
  {
    if path == [] then pri
    else
      UpdateKeeps(threads, pri, path[0]);
      Settle(threads, Update(threads, pri, path[0]), path[1..])
  }

  lemma {:induction false} SettleKeeps(threads: Threads, pri: Priorities, path: seq<Tid>)
    requires AllDonorsIn(threads, pri)
    requires forall i :: 0 <= i < |path| ==> path[i] in threads
    ensures AllDonorsIn(threads, Settle(threads, pri, path))
    decreases |path|
  {
    if path != [] {
      UpdateKeeps(threads, pri, path[0]);
      SettleKeeps(threads, Update(threads, pri, path[0]), path[1..]);
    }
  }

  // -------------------------------------------------------- donor lists

  /** list_insert_ordered with priority_greater: before the first donor of
      strictly lower priority. */
  function InsertDonation(pri: Priorities, ds: seq<Donation>, d: Donation): (r: seq<Donation>)
    requires DonorsIn(pri, ds) && d.donor in pri
  {
    if ds == [] then [d]
    else if pri[d.donor] > pri[ds[0].donor] then [d] + ds
    else [ds[0]] + InsertDonation(pri, ds[1..], d)
  }

  lemma {:induction false} InsertCount(pri: Priorities, ds: seq<Donation>, d: Donation)
    requires DonorsIn(pri, ds) && d.donor in pri
    ensures multiset(InsertDonation(pri, ds, d)) == multiset(ds)[d := multiset(ds)[d] + 1]
  {
    if ds != [] {
      assert ds == [ds[0]] + ds[1..];
      InsertCount(pri, ds[1..], d);
    }
  }

  lemma {:induction false} InsertDonorsIn(pri: Priorities, ds: seq<Donation>, d: Donation)
    requires DonorsIn(pri, ds) && d.donor in pri
    ensures DonorsIn(pri, InsertDonation(pri, ds, d))
  {
    if ds != [] {
      InsertDonorsIn(pri, ds[1..], d);
    }
  }

  /** Link the donate_elem of t into the holder's list and set waiting_lock. */
  function Link(threads: Threads, pri: Priorities, t: Tid, l: Sem, h: Tid): (r: Threads)
    requires AllDonorsIn(threads, pri) && t in threads && h in threads && h != t
  {
    threads[t := threads[t].(waiting := Some(l))]
           [h := threads[h].(donors := InsertDonation(pri, threads[h].donors, Donation(l, t)))]
  }

  /** The donors on lock l leave the list. */
  function Undonated(ds: seq<Donation>, l: Sem): (r: seq<Donation>) {
    if ds == [] then []
    else (if ds[0].lock == l then [] else [ds[0]]) + Undonated(ds[1..], l)
  }

  lemma {:induction false} UndonatedCount(ds: seq<Donation>, l: Sem, d: Donation)
    ensures multiset(Undonated(ds, l))[d] == if d.lock == l then 0 else multiset(ds)[d]
  {
    if ds != [] {
      assert ds == [ds[0]] + ds[1..];
      UndonatedCount(ds[1..], l, d);
    }
  }

  /** The loop of lock_release: t's donations for l are unlinked and the
      donors' waiting_lock is cleared. */
  function Unlink(threads: Threads, t: Tid, l: Sem): (r: Threads)
    requires t in threads
  {
    var ds := threads[t].donors;
    var cleared := map u | u in threads ::
      if Donation(l, u) in ds && threads[u].waiting == Some(l)
      then threads[u].(waiting := None) else threads[u];
    cleared[t := cleared[t].(donors := Undonated(ds, l))]
  }

  /** Who waits, through waiting_lock and holder, for whom. */
  ghost function WaitsFor(threads: Threads, holder: Holders): (e: Edges) {
    map t | t in threads && threads[t].waiting.Some? && threads[t].waiting.value in holder
            && holder[threads[t].waiting.value].Some?
      :: holder[threads[t].waiting.value].value
  }

  // ------------------------------------------------------------- sema_up

  /** First index of a waiter of greatest priority (list_min with
      thread_priority_greater), scanning from i with the best so far. */
  function FirstMax(pri: Priorities, ws: seq<Tid>, best: nat, i: nat): (r: nat)
    requires best < i <= |ws|
    requires forall k :: 0 <= k < |ws| ==> ws[k] in pri
    requires forall k :: 0 <= k < i ==> pri[ws[k]] <= pri[ws[best]]
    requires forall k :: 0 <= k < best ==> pri[ws[k]] < pri[ws[best]]
    ensures r < |ws|
    ensures forall k :: 0 <= k < |ws| ==> pri[ws[k]] <= pri[ws[r]]
    ensures forall k :: 0 <= k < r ==> pri[ws[k]] < pri[ws[r]]
    decreases |ws| - i
  {
    if i == |ws| then best
    else FirstMax(pri, ws, if pri[ws[i]] > pri[ws[best]] then i else best, i + 1)
  }

  /** The waiter at index i is unblocked and the value incremented. */
  function Woke(c: Core, x: Sem, i: nat): (r: Core)
    requires x in c.semas && (c.semas[x].waiters != [] ==> i < |c.semas[x].waiters|)
  {
    var q := c.semas[x];
    if q.waiters == [] then c.(semas := c.semas[x := Sema(q.value + 1, [])])
    else c.(semas := c.semas[x := Sema(q.value + 1, q.waiters[..i] + q.waiters[i + 1..])],
            pcs := c.pcs[q.waiters[i] := Woken(x)])
  }

  ghost predicate AllIn(ws: seq<Tid>, keys: set<Tid>) {
    forall k :: 0 <= k < |ws| ==> ws[k] in keys
  }

  /** sema_up: wake the first of the highest-priority sleepers, then increment. */
  function Up(c: Core, pri: Priorities, x: Sem): (r: Core)
    requires x in c.semas && AllIn(c.semas[x].waiters, pri.Keys)
  {
    if c.semas[x].waiters == [] then Woke(c, x, 0)
    else Woke(c, x, FirstMax(pri, c.semas[x].waiters, 0, 1))
  }

  // ----------------------------------------------------------- the steps

  datatype Step =
    | Acquire(t: Tid, l: Sem, path: seq<Tid>)  // lock_acquire up to sema_down
    | StartDown(t: Tid, x: Sem)                // sema_down on a semaphore that is no lock
    | Test(t: Tid)                             // one evaluation of the sema_down loop test
    | TakeHolder(t: Tid)                       // lock_acquire or lock_try_acquire sets holder
    | TryAcquire(t: Tid, l: Sem)               // lock_try_acquire's sema_try_down
    | HandlerTry(t: Tid, l: Sem)               // lock_try_acquire in an interrupt handler that runs on t
    | TryDown(x: Sem)                          // sema_try_down on a semaphore that is no lock
    | StartRelease(t: Tid, l: Sem)             // lock_release up to sema_up
    | FinishRelease(t: Tid)                    // lock_release's sema_up
    | Post(x: Sem)                             // sema_up on a semaphore that is no lock
    | SetPriority(t: Tid, p: int)              // thread_set_priority
    | SetNice(t: Tid, p: int)                  // thread_set_nice, with the priority it computes
    | Recompute(t: Tid, p: int)                // the MLFQS recomputation of a priority
    | Create(t: Tid, p: int)                   // thread_create
    | Exit(t: Tid)                             // thread_exit

  /** Every pointer points at something. */
  ghost predicate WF(s: State) {
    && AllDonorsIn(s.threads, s.pri)
    && CoreWF(s.core, s.threads.Keys)
  }

  ghost predicate CoreWF(c: Core, keys: set<Tid>) {
    && c.pcs.Keys == keys
    && (forall l :: l in c.holder ==> l in c.semas && (c.holder[l].Some? ==> c.holder[l].value in keys))
    && (forall t :: t in c.pcs ==> PcWF(c, c.pcs[t]))
    && (forall x :: x in c.semas ==> AllIn(c.semas[x].waiters, keys))
  }

  ghost predicate PcWF(c: Core, pc: PC) {
    match pc
    case Outside => true
    case Dead => true
    case Down(x) => x in c.semas
    case Asleep(x) => x in c.semas
    case Woken(x) => x in c.semas
    case Took(x) => x in c.holder
    case Giving(x) => x in c.holder
  }

  predicate PcIs(c: Core, t: Tid, pc: PC) {
    t in c.pcs && c.pcs[t] == pc
  }

  predicate Donates(s: State, l: Sem)
    requires l in s.core.holder
  {
    !s.mlfqs && s.core.holder[l].Some?
  }

  function At(c: Core, t: Tid, pc: PC): (r: Core) {
    c.(pcs := c.pcs[t := pc])
  }

  function SetSema(c: Core, x: Sem, q: Sema): (r: Core) {
    c.(semas := c.semas[x := q])
  }

  /** What the code demands of its callers, plus, for Acquire, that path is the
      walk the loop takes, which must come to an end for the step to complete. */
  ghost predicate Enabled(s: State, step: Step)
    requires WF(s)
  {
    var c := s.core;
    match step
    case Acquire(t, l, path) =>
      && PcIs(c, t, Outside) && l in c.holder && c.holder[l] != Some(t)
      && (Donates(s, l) ==>
            var h := c.holder[l].value;
            IsWalk(WaitsFor(Link(s.threads, s.pri, t, l, h), c.holder), h, path))
    case StartDown(t, x) => PcIs(c, t, Outside) && x in c.semas && x !in c.holder
    case Test(t) => t in c.pcs && (c.pcs[t].Down? || c.pcs[t].Woken?)
    case TakeHolder(t) => t in c.pcs && c.pcs[t].Took?
    case TryAcquire(t, l) => PcIs(c, t, Outside) && l in c.holder && c.holder[l] != Some(t)
    case HandlerTry(t, l) => t in c.pcs && !c.pcs[t].Asleep? && !c.pcs[t].Dead? && l in c.holder && c.holder[l] != Some(t)
    case TryDown(x) => x in c.semas && x !in c.holder
    case StartRelease(t, l) => PcIs(c, t, Outside) && l in c.holder && c.holder[l] == Some(t)
    case FinishRelease(t) => t in c.pcs && c.pcs[t].Giving?
    case Post(x) => x in c.semas && x !in c.holder
    case SetPriority(t, p) => PcIs(c, t, Outside)
    case SetNice(t, p) => PcIs(c, t, Outside) && 0 <= p <= 63
    case Recompute(t, p) => t in s.threads && s.mlfqs
    case Create(t, p) => t !in s.threads
    case Exit(t) => PcIs(c, t, Outside) && forall l :: l in c.holder ==> c.holder[l] != Some(t)
  }

  ghost function Next(s: State, step: Step): (r: State)
    requires WF(s) && Enabled(s, step)
  {
    var c := s.core;
    match step
    case Acquire(t, l, path) =>
      if Donates(s, l) then Donate(s, t, l, path) else s.(core := At(c, t, Down(l)))
    case StartDown(t, x) => s.(core := At(c, t, Down(x)))
    case Test(t) =>
      assert PcWF(c, c.pcs[t]);
      s.(core := TestValue(c, t, c.pcs[t].s))
    case TakeHolder(t) =>
      s.(core := At(c.(holder := c.holder[c.pcs[t].s := Some(t)]), t, Outside))
    case TryAcquire(t, l) =>
      if c.semas[l].value == 0 then s else s.(core := TestValue(c, t, l))
    case HandlerTry(t, l) =>
      if c.semas[l].value == 0 then s else s.(core := TakeAtOnce(c, t, l))
    case TryDown(x) =>
      if c.semas[x].value == 0 then s
      else s.(core := SetSema(c, x, Sema(c.semas[x].value - 1, c.semas[x].waiters)))
    case StartRelease(t, l) => Released(s, t, l)
    case FinishRelease(t) =>
      assert PcWF(c, c.pcs[t]) && AllIn(c.semas[c.pcs[t].s].waiters, s.threads.Keys);
      s.(core := At(Up(c, s.pri, c.pcs[t].s), t, Outside))
    case Post(x) => s.(core := Up(c, s.pri, x))
    case SetPriority(t, p) => if s.mlfqs then s else Rebased(s, t, p)
    case SetNice(t, p) => s.(pri := s.pri[t := p])
    case Recompute(t, p) => s.(pri := s.pri[t := p])
    case Create(t, p) => Created(s, t, p)
    case Exit(t) => s.(core := At(c, t, Dead))
  }

  /** One evaluation of the loop test of sema_down. */
  function TestValue(c: Core, t: Tid, x: Sem): (r: Core)
    requires x in c.semas
  {
    var q := c.semas[x];
    if q.value == 0 then At(SetSema(c, x, Sema(0, q.waiters + [t])), t, Asleep(x))
    else At(SetSema(c, x, Sema(q.value - 1, q.waiters)), t, if x in c.holder then Took(x) else Outside)
  }

  /** The semaphore is taken and the holder set with no one in between. */
  function TakeAtOnce(c: Core, t: Tid, l: Sem): (r: Core)
    requires l in c.semas && c.semas[l].value > 0
  {
    var q := c.semas[l];
    SetSema(c, l, Sema(q.value - 1, q.waiters)).(holder := c.holder[l := Some(t)])
  }

  /** lock_release up to sema_up. */
  function Released(s: State, t: Tid, l: Sem): (r: State)
    requires AllDonorsIn(s.threads, s.pri) && t in s.threads
  {
    var c := At(s.core.(holder := s.core.holder[l := None]), t, Giving(l));
    if s.mlfqs then s.(core := c)
    else
      var threads := Unlink(s.threads, t, l);
      UnlinkKeeps(s.threads, s.pri, t, l);
      State(false, threads, Update(threads, s.pri, t), c)
  }

  /** thread_set_priority. */
  function Rebased(s: State, t: Tid, p: int): (r: State)
    requires AllDonorsIn(s.threads, s.pri) && t in s.threads
  {
    var threads := s.threads[t := s.threads[t].(base := p)];
    RebaseKeeps(s.threads, s.pri, t, p);
    s.(threads := threads, pri := Update(threads, s.pri, t))
  }

  /** thread_create. */
  function Created(s: State, t: Tid, p: int): (r: State) {
    State(s.mlfqs, s.threads[t := Thread(p, None, [])], s.pri[t := p], At(s.core, t, Outside))
  }

  /** The donation of lock_acquire: link, then walk. */
  ghost function Donate(s: State, t: Tid, l: Sem, path: seq<Tid>): (r: State)
    requires WF(s) && Enabled(s, Acquire(t, l, path)) && Donates(s, l)
  {
    var h := s.core.holder[l].value;
    var threads := Link(s.threads, s.pri, t, l, h);
    LinkKeeps(s.threads, s.pri, t, l, h);
    WalkInside(threads, s.core.holder, h, path);
    State(false, threads, Settle(threads, s.pri, path), At(s.core, t, Down(l)))
  }

  lemma LinkKeeps(threads: Threads, pri: Priorities, t: Tid, l: Sem, h: Tid)
    requires AllDonorsIn(threads, pri) && t in threads && h in threads && h != t
    ensures AllDonorsIn(Link(threads, pri, t, l, h), pri)
  {
    var r := Link(threads, pri, t, l, h);
    assert r.Keys == threads.Keys;
    InsertDonorsIn(pri, threads[h].donors, Donation(l, t));
    forall u | u in r ensures DonorsIn(pri, r[u].donors) {
      assert DonorsIn(pri, threads[u].donors);
    }
  }

  lemma UnlinkKeeps(threads: Threads, pri: Priorities, t: Tid, l: Sem)
    requires AllDonorsIn(threads, pri) && t in threads
    ensures AllDonorsIn(Unlink(threads, t, l), pri)
  {
    var r := Unlink(threads, t, l);
    assert r.Keys == threads.Keys;
    forall u | u in r ensures DonorsIn(pri, r[u].donors) {
      assert DonorsIn(pri, threads[u].donors);
      if u == t {
        forall i | 0 <= i < |r[t].donors| ensures r[t].donors[i].donor in pri {
          assert multiset(r[t].donors)[r[t].donors[i]] > 0;
          UndonatedCount(threads[t].donors, l, r[t].donors[i]);
          assert r[t].donors[i] in threads[t].donors;
        }
      }
    }
  }

  lemma RebaseKeeps(threads: Threads, pri: Priorities, t: Tid, p: int)
    requires AllDonorsIn(threads, pri) && t in threads
    ensures AllDonorsIn(threads[t := threads[t].(base := p)], pri)
  {
    var r := threads[t := threads[t].(base := p)];
    assert r.Keys == threads.Keys;
    forall u | u in r ensures DonorsIn(pri, r[u].donors) {
      assert DonorsIn(pri, threads[u].donors);
    }
  }

  lemma {:induction false} WalkInside(threads: Threads, holder: Holders, t: Tid, path: seq<Tid>)
    requires forall l :: l in holder && holder[l].Some? ==> holder[l].value in threads
    requires t in threads && IsWalk(WaitsFor(threads, holder), t, path)
    ensures forall i :: 0 <= i < |path| ==> path[i] in threads
    decreases |path|
  {
    if t in WaitsFor(threads, holder) {
      WalkInside(threads, holder, WaitsFor(threads, holder)[t], path[1..]);
      assert path == [t] + path[1..];
    }
  }
}
