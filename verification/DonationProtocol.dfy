/** Priority donation (threads/synch.c): the donor lists, the waiting_lock
    forest and the effective priorities. */
module DonationProtocol {
  import opened Forest
  import opened Prelude
  import opened Synch

  // ------------------------------------------------------------ invariants

  /** d is a live donation to u: its donor waits for a lock that u holds. */
  ghost predicate Owes(threads: Threads, holder: Holders, d: Donation, u: Tid) {
    && d.donor in threads && threads[d.donor].waiting == Some(d.lock)
    && d.lock in holder && holder[d.lock] == Some(u)
  }

  /** The donor list of u holds each live donation to u once and nothing else. */
  ghost predicate ListsDonors(threads: Threads, holder: Holders, u: Tid)
    requires u in threads
  {
    forall d: Donation :: multiset(threads[u].donors)[d] == if Owes(threads, holder, d, u) then 1 else 0
  }

  /** A waited-for lock is held. */
  ghost predicate WaitsForHeld(threads: Threads, holder: Holders, t: Tid)
    requires t in threads
  {
    threads[t].waiting.Some? ==> threads[t].waiting.value in holder && holder[threads[t].waiting.value].Some?
  }

  ghost predicate Bookkeeping(threads: Threads, holder: Holders) {
    forall t :: t in threads ==> ListsDonors(threads, holder, t) && WaitsForHeld(threads, holder, t)
  }

  ghost predicate BalancedAt(threads: Threads, pri: Priorities, t: Tid)
    requires AllDonorsIn(threads, pri) && t in threads
  {
    pri[t] == MaxOver(pri, threads[t].base, threads[t].donors)
  }

  /** Every effective priority is the maximum of the base priority and the
      donors' effective priorities, but for the threads in upset. */
  ghost predicate BalancedExcept(threads: Threads, pri: Priorities, upset: set<Tid>)
    requires AllDonorsIn(threads, pri)
  {
    forall t :: t in threads && t !in upset ==> BalancedAt(threads, pri, t)
  }

  /** What donation keeps; under MLFQS nobody ever donates. */
  ghost predicate DonorInv(mlfqs: bool, threads: Threads, holder: Holders) {
    && Bookkeeping(threads, holder)
    && Acyclic(WaitsFor(threads, holder))
    && (mlfqs ==> forall t :: t in threads ==> threads[t].waiting == None)
  }

  // ---------------------------------------------------- effective priorities

  /** The loop computes the maximum of the base and the donors' priorities. */
  lemma {:induction false} MaxOverIsMax(pri: Priorities, acc: int, ds: seq<Donation>)
    requires DonorsIn(pri, ds)
    ensures
      var r := MaxOver(pri, acc, ds);
      && r >= acc
      && (forall i :: 0 <= i < |ds| ==> r >= pri[ds[i].donor])
      && (r == acc || exists i :: 0 <= i < |ds| && r == pri[ds[i].donor])
    decreases |ds|
  {
    if ds != [] {
      var p := pri[ds[0].donor];
      MaxOverIsMax(pri, if p > acc then p else acc, ds[1..]);
      assert ds == [ds[0]] + ds[1..];
    }
  }

  lemma {:induction false} MaxCongruent(p: Priorities, q: Priorities, acc: int, ds: seq<Donation>)
    requires DonorsIn(p, ds) && DonorsIn(q, ds)
    requires forall i :: 0 <= i < |ds| ==> p[ds[i].donor] == q[ds[i].donor]
    ensures MaxOver(p, acc, ds) == MaxOver(q, acc, ds)
    decreases |ds|
  {
    if ds != [] {
      MaxCongruent(p, q, if p[ds[0].donor] > acc then p[ds[0].donor] else acc, ds[1..]);
    }
  }

  /** Each list element's donor waits for the list's owner. */
  ghost predicate DonorsPoint(threads: Threads, e: Edges) {
    forall u, i :: u in threads && 0 <= i < |threads[u].donors| ==>
      var d := threads[u].donors[i].donor;
      d in e && e[d] == u
  }

  lemma BookkeepingPoints(threads: Threads, holder: Holders)
    requires Bookkeeping(threads, holder)
    ensures DonorsPoint(threads, WaitsFor(threads, holder))
  {
    var e := WaitsFor(threads, holder);
    forall u, i | u in threads && 0 <= i < |threads[u].donors|
      ensures var d := threads[u].donors[i].donor; d in e && e[d] == u
    {
      var d := threads[u].donors[i];
      assert ListsDonors(threads, holder, u);
      assert multiset(threads[u].donors)[d] > 0;
      assert Owes(threads, holder, d, u);
    }
  }

  /** Updating t balances t and can upset only the thread t waits for. */
  lemma UpdateUpsetsSuccessor(threads: Threads, pri: Priorities, e: Edges, t: Tid, u: Tid)
    requires AllDonorsIn(threads, pri) && DonorsPoint(threads, e)
    requires t in threads && u in threads && (u == t || BalancedAt(threads, pri, u))
    requires !(t in e && e[t] == u)
    ensures AllDonorsIn(threads, Update(threads, pri, t))
    ensures BalancedAt(threads, Update(threads, pri, t), u)
  {
    UpdateKeeps(threads, pri, t);
    MaxCongruent(pri, Update(threads, pri, t), threads[u].base, threads[u].donors);
  }

  /** If at most t and the threads in upset are out of balance, the walk from t
      balances every thread it passes: each update can upset only the next
      thread of the walk. */
  lemma {:induction false} WalkBalances(threads: Threads, pri: Priorities, e: Edges, t: Tid, path: seq<Tid>,
                                        upset: set<Tid>)
    requires AllDonorsIn(threads, pri) && DonorsPoint(threads, e)
    requires IsWalk(e, t, path)
    requires forall i :: 0 <= i < |path| ==> path[i] in threads
    requires BalancedExcept(threads, pri, upset + {t})
    ensures AllDonorsIn(threads, Settle(threads, pri, path))
    ensures BalancedExcept(threads, Settle(threads, pri, path), upset - Members(path))
    decreases |path|
  {
    UpdateKeeps(threads, pri, t);
    var r, left := Update(threads, pri, t), upset - {t};
    forall u | u in threads && u !in left && !(t in e && e[t] == u) ensures BalancedAt(threads, r, u) {
      UpdateUpsetsSuccessor(threads, pri, e, t, u);
    }
    assert path == [t] + path[1..];
    if t in e {
      WalkBalances(threads, r, e, path[1], path[1..], left);
      assert left - Members(path[1..]) == upset - Members(path);
    } else {
      assert path[1..] == [];
    }
  }

  ghost function Members(path: seq<Tid>): (r: set<Tid>) {
    set i | 0 <= i < |path| :: path[i]
  }

  /** On a forest the fixpoint is unique: the priorities are determined by the
      bases and the donor lists. */
  lemma BalanceUnique(threads: Threads, p: Priorities, q: Priorities, e: Edges)
    requires AllDonorsIn(threads, p) && AllDonorsIn(threads, q)
    requires BalancedExcept(threads, p, {}) && BalancedExcept(threads, q, {})
    requires DonorsPoint(threads, e) && Acyclic(e)
    ensures p == q
  {
    forall t | t in threads ensures p[t] == q[t] {
      BalanceUniqueAt(threads, p, q, e, {}, t);
    }
  }

  ghost predicate After(e: Edges, t: Tid, u: Tid) {
    exists n: nat :: n > 0 && Steps(e, t, n, u)
  }

  ghost predicate AllAfter(e: Edges, t: Tid, seen: set<Tid>) {
    forall u :: u in seen ==> After(e, t, u)
  }

  /** Going from a thread to its donors never meets a thread again. */
  lemma {:induction false} BalanceUniqueAt(threads: Threads, p: Priorities, q: Priorities, e: Edges,
                                           seen: set<Tid>, t: Tid)
    requires AllDonorsIn(threads, p) && AllDonorsIn(threads, q)
    requires BalancedExcept(threads, p, {}) && BalancedExcept(threads, q, {})
    requires DonorsPoint(threads, e) && Acyclic(e)
    requires t in threads && seen <= threads.Keys && AllAfter(e, t, seen)
    ensures p[t] == q[t]
    decreases |threads.Keys - seen|
  {
    NotSeen(e, seen, t);
    assert threads.Keys - (seen + {t}) == (threads.Keys - seen) - {t};
    var ds := threads[t].donors;
    assert DonorsIn(p, ds) && DonorsIn(q, ds);
    forall i | 0 <= i < |ds| ensures p[ds[i].donor] == q[ds[i].donor] {
      SeenGrows(e, seen, t, ds[i].donor);
      BalanceUniqueAt(threads, p, q, e, seen + {t}, ds[i].donor);
    }
    MaxCongruent(p, q, threads[t].base, ds);
    assert BalancedAt(threads, p, t) && BalancedAt(threads, q, t);
  }

  lemma SeenGrows(e: Edges, seen: set<Tid>, t: Tid, d: Tid)
    requires AllAfter(e, t, seen) && d in e && e[d] == t
    ensures AllAfter(e, d, seen + {t})
  {
    forall u | u in seen + {t} ensures After(e, d, u) {
      if u == t {
        assert Steps(e, t, 0, t);
        assert Steps(e, d, 1, t);
      } else {
        assert After(e, t, u);
        var n: nat :| n > 0 && Steps(e, t, n, u);
        assert Steps(e, d, n + 1, u);
      }
    }
  }

  lemma NotSeen(e: Edges, seen: set<Tid>, t: Tid)
    requires Acyclic(e) && AllAfter(e, t, seen)
    ensures t !in seen
  {
    if t in seen {
      assert After(e, t, t) && HasWalk(e, t);
      var n: nat :| n > 0 && Steps(e, t, n, t);
      var path :| IsWalk(e, t, path);
      NoReturn(e, t, path, n);
    }
  }

  /** A waiting thread's priority has reached the holder it waits for. */
  lemma DonorBelow(threads: Threads, pri: Priorities, holder: Holders, t: Tid, l: Sem, h: Tid)
    requires AllDonorsIn(threads, pri) && Bookkeeping(threads, holder)
    requires t in threads && threads[t].waiting == Some(l) && l in holder && holder[l] == Some(h) && h in threads
    requires BalancedAt(threads, pri, h)
    ensures pri[t] <= pri[h]
  {
    var ds := threads[h].donors;
    assert ListsDonors(threads, holder, h) && Owes(threads, holder, Donation(l, t), h);
    assert multiset(ds)[Donation(l, t)] == 1;
    assert Donation(l, t) in ds;
    assert DonorsIn(pri, ds);
    MaxOverIsMax(pri, threads[h].base, ds);
  }

  /** Priorities never decrease along a chain of waits into balanced threads. */
  lemma {:induction false} ChainRaises(threads: Threads, pri: Priorities, holder: Holders, upset: set<Tid>,
                                       t: Tid, n: nat, u: Tid)
    requires AllDonorsIn(threads, pri) && BalancedExcept(threads, pri, upset) && Bookkeeping(threads, holder)
    requires forall l :: l in holder && holder[l].Some? ==> holder[l].value in threads
    requires t in threads && Steps(WaitsFor(threads, holder), t, n, u)
    requires forall m: nat, v :: 0 < m <= n && Steps(WaitsFor(threads, holder), t, m, v) ==> v !in upset
    ensures u in threads && pri[t] <= pri[u]
    decreases n
  {
    var e := WaitsFor(threads, holder);
    if n > 0 {
      var l := threads[t].waiting.value;
      var h := holder[l].value;
      assert Steps(e, h, 0, h);
      assert Steps(e, t, 1, h);
      DonorBelow(threads, pri, holder, t, l, h);
      forall m: nat, v | 0 < m <= n - 1 && Steps(e, h, m, v) ensures v !in upset {
        assert Steps(e, t, m + 1, v);
      }
      ChainRaises(threads, pri, holder, upset, h, n - 1, u);
    }
  }

  // --------------------------------------------------------- preservation

  /** Linking t's donate_elem adds one edge and one list element. */
  lemma LinkBooks(threads: Threads, pri: Priorities, holder: Holders, t: Tid, l: Sem, h: Tid)
    requires AllDonorsIn(threads, pri) && Bookkeeping(threads, holder)
    requires t in threads && h in threads && h != t && threads[t].waiting == None
    requires l in holder && holder[l] == Some(h)
    ensures Bookkeeping(Link(threads, pri, t, l, h), holder)
    ensures WaitsFor(Link(threads, pri, t, l, h), holder) == WaitsFor(threads, holder)[t := h]
  {
    var r := Link(threads, pri, t, l, h);
    InsertCount(pri, threads[h].donors, Donation(l, t));
    forall u | u in r ensures ListsDonors(r, holder, u) && WaitsForHeld(r, holder, u) {
      assert ListsDonors(threads, holder, u) && WaitsForHeld(threads, holder, u);
      forall d: Donation
        ensures Owes(r, holder, d, u) <==> Owes(threads, holder, d, u) || (u == h && d == Donation(l, t)) {}
      assert !Owes(threads, holder, Donation(l, t), h);
    }
  }

  /** lock_acquire's donation keeps the links. */
  lemma DonateKeeps(threads: Threads, pri: Priorities, holder: Holders, t: Tid, l: Sem, h: Tid, path: seq<Tid>)
    requires AllDonorsIn(threads, pri) && DonorInv(false, threads, holder)
    requires t in threads && h in threads && h != t && threads[t].waiting == None
    requires l in holder && holder[l] == Some(h)
    requires IsWalk(WaitsFor(Link(threads, pri, t, l, h), holder), h, path)
    ensures DonorInv(false, Link(threads, pri, t, l, h), holder)
  {
    LinkBooks(threads, pri, holder, t, l, h);
    AddEdge(WaitsFor(threads, holder), t, h, path);
  }

  /** It balances every thread of the walk and upsets none. */
  lemma DonateBalances(threads: Threads, pri: Priorities, holder: Holders, t: Tid, l: Sem, h: Tid, path: seq<Tid>,
                       upset: set<Tid>)
    requires AllDonorsIn(threads, pri) && Bookkeeping(threads, holder) && BalancedExcept(threads, pri, upset)
    requires t in threads && h in threads && h != t && threads[t].waiting == None
    requires l in holder && holder[l] == Some(h)
    requires AllDonorsIn(Link(threads, pri, t, l, h), pri)
    requires IsWalk(WaitsFor(Link(threads, pri, t, l, h), holder), h, path)
    requires forall i :: 0 <= i < |path| ==> path[i] in threads
    ensures
      var r := Link(threads, pri, t, l, h);
      AllDonorsIn(r, Settle(r, pri, path)) && BalancedExcept(r, Settle(r, pri, path), upset - Members(path))
  {
    var r := Link(threads, pri, t, l, h);
    LinkBooks(threads, pri, holder, t, l, h);
    BookkeepingPoints(r, holder);
    forall u | u in r && u !in upset + {h} ensures BalancedAt(r, pri, u) {
      assert BalancedAt(threads, pri, u);
    }
    WalkBalances(r, pri, WaitsFor(r, holder), h, path, upset);
  }

  /** Setting the holder of a free lock creates no wait: nobody waits for it. */
  lemma HoldKeeps(mlfqs: bool, threads: Threads, holder: Holders, l: Sem, t: Tid)
    requires DonorInv(mlfqs, threads, holder)
    requires l in holder && holder[l] == None
    ensures DonorInv(mlfqs, threads, holder[l := Some(t)])
  {
    var r := holder[l := Some(t)];
    forall u | u in threads ensures threads[u].waiting != Some(l) && ListsDonors(threads, r, u) && WaitsForHeld(threads, r, u) {
      assert ListsDonors(threads, holder, u) && WaitsForHeld(threads, holder, u);
      forall d: Donation ensures Owes(threads, r, d, u) == Owes(threads, holder, d, u) {
        assert d.donor in threads ==> WaitsForHeld(threads, holder, d.donor);
      }
    }
    assert WaitsFor(threads, r) == WaitsFor(threads, holder);
  }

  /** lock_release leaves no one waiting for the lock. */
  lemma UnlinkClears(threads: Threads, holder: Holders, t: Tid, l: Sem, u: Tid)
    requires Bookkeeping(threads, holder)
    requires t in threads && l in holder && holder[l] == Some(t) && u in threads
    ensures u in Unlink(threads, t, l)
    ensures Unlink(threads, t, l)[u].waiting == if threads[u].waiting == Some(l) then None else threads[u].waiting
  {
    if threads[u].waiting == Some(l) {
      assert ListsDonors(threads, holder, t) && Owes(threads, holder, Donation(l, u), t);
      assert multiset(threads[t].donors)[Donation(l, u)] == 1;
    }
  }

  /** It drops exactly the donations for the lock. */
  lemma UnlinkBooks(threads: Threads, holder: Holders, t: Tid, l: Sem)
    requires Bookkeeping(threads, holder)
    requires t in threads && l in holder && holder[l] == Some(t)
    ensures
      var r := Unlink(threads, t, l);
      && r.Keys == threads.Keys
      && (forall u :: u in threads ==> r[u].waiting == if threads[u].waiting == Some(l) then None else threads[u].waiting)
      && Bookkeeping(r, holder[l := None])
  {
    var r, free := Unlink(threads, t, l), holder[l := None];
    forall u | u in threads
      ensures r[u].waiting == if threads[u].waiting == Some(l) then None else threads[u].waiting
    {
      UnlinkClears(threads, holder, t, l, u);
    }
    forall u | u in r ensures ListsDonors(r, free, u) && WaitsForHeld(r, free, u) {
      assert ListsDonors(threads, holder, u) && WaitsForHeld(threads, holder, u);
      UnlinkLists(threads, holder, r, t, l, u);
    }
  }

  lemma UnlinkLists(threads: Threads, holder: Holders, r: Threads, t: Tid, l: Sem, u: Tid)
    requires t in threads && l in holder && holder[l] == Some(t) && u in threads
    requires r == Unlink(threads, t, l) && r.Keys == threads.Keys
    requires forall u :: u in threads ==> r[u].waiting == if threads[u].waiting == Some(l) then None else threads[u].waiting
    requires ListsDonors(threads, holder, u)
    ensures ListsDonors(r, holder[l := None], u)
  {
    var free := holder[l := None];
    forall d: Donation ensures multiset(r[u].donors)[d] == if Owes(r, free, d, u) then 1 else 0 {
      UndonatedCount(threads[u].donors, l, d);
      assert Owes(r, free, d, u) <==> Owes(threads, holder, d, u) && d.lock != l;
      assert multiset(threads[u].donors)[d] == if Owes(threads, holder, d, u) then 1 else 0;
    }
  }

  lemma ReleaseKeeps(threads: Threads, holder: Holders, t: Tid, l: Sem)
    requires DonorInv(false, threads, holder)
    requires t in threads && l in holder && holder[l] == Some(t)
    ensures DonorInv(false, Unlink(threads, t, l), holder[l := None])
  {
    UnlinkBooks(threads, holder, t, l);
    SubForest(WaitsFor(threads, holder), WaitsFor(Unlink(threads, t, l), holder[l := None]));
  }

  /** lock_release balances the releasing thread and upsets none. */
  lemma ReleaseBalances(threads: Threads, pri: Priorities, holder: Holders, t: Tid, l: Sem, upset: set<Tid>)
    requires AllDonorsIn(threads, pri) && Bookkeeping(threads, holder) && BalancedExcept(threads, pri, upset)
    requires t in threads && threads[t].waiting == None && l in holder && holder[l] == Some(t)
    requires AllDonorsIn(Unlink(threads, t, l), pri)
    ensures
      var r := Unlink(threads, t, l);
      AllDonorsIn(r, Update(r, pri, t)) && BalancedExcept(r, Update(r, pri, t), upset - {t})
  {
    var r, free := Unlink(threads, t, l), holder[l := None];
    UnlinkBooks(threads, holder, t, l);
    forall u | u in r && u !in upset + {t} ensures BalancedAt(r, pri, u) {
      assert BalancedAt(threads, pri, u);
    }
    BookkeepingPoints(r, free);
    UpdateBalancesLeaf(r, pri, WaitsFor(r, free), t, upset);
  }

  /** A thread that waits for no lock can be updated on its own. */
  lemma UpdateBalancesLeaf(threads: Threads, pri: Priorities, e: Edges, t: Tid, upset: set<Tid>)
    requires AllDonorsIn(threads, pri) && DonorsPoint(threads, e)
    requires t in threads && t !in e
    requires BalancedExcept(threads, pri, upset + {t})
    ensures AllDonorsIn(threads, Update(threads, pri, t))
    ensures BalancedExcept(threads, Update(threads, pri, t), upset - {t})
  {
    UpdateKeeps(threads, pri, t);
    forall u | u in threads && u !in upset - {t} ensures BalancedAt(threads, Update(threads, pri, t), u) {
      UpdateUpsetsSuccessor(threads, pri, e, t, u);
    }
  }

  /** thread_set_priority by a thread that waits for no lock. */
  lemma RebaseBalances(threads: Threads, pri: Priorities, holder: Holders, t: Tid, p: int, upset: set<Tid>)
    requires AllDonorsIn(threads, pri) && Bookkeeping(threads, holder) && BalancedExcept(threads, pri, upset)
    requires t in threads && threads[t].waiting == None
    ensures
      var r := threads[t := threads[t].(base := p)];
      && AllDonorsIn(r, pri) && AllDonorsIn(r, Update(r, pri, t))
      && BalancedExcept(r, Update(r, pri, t), upset - {t})
  {
    var r := threads[t := threads[t].(base := p)];
    RebaseKeeps(threads, pri, t, p);
    SameLinks(threads, r, holder);
    forall u | u in r && u !in upset + {t} ensures BalancedAt(r, pri, u) {
      assert BalancedAt(threads, pri, u);
    }
    BookkeepingPoints(r, holder);
    UpdateBalancesLeaf(r, pri, WaitsFor(r, holder), t, upset);
  }

  /** Overwriting the priority of a thread that waits for no lock leaves every
      other thread as balanced as it was, and that thread balanced exactly when
      the new value is its maximum. */
  lemma OverwriteBalances(threads: Threads, pri: Priorities, holder: Holders, t: Tid, p: int, u: Tid)
    requires AllDonorsIn(threads, pri) && Bookkeeping(threads, holder)
    requires t in threads && threads[t].waiting == None && u in threads
    ensures AllDonorsIn(threads, pri[t := p])
    ensures BalancedAt(threads, pri[t := p], u) <==>
      if u == t then p == MaxOver(pri, threads[t].base, threads[t].donors) else BalancedAt(threads, pri, u)
  {
    OverwriteKeeps(threads, pri, t, p);
    BookkeepingPoints(threads, holder);
    MaxCongruent(pri, pri[t := p], threads[u].base, threads[u].donors);
  }

  lemma OverwriteKeeps(threads: Threads, pri: Priorities, t: Tid, p: int)
    requires AllDonorsIn(threads, pri) && t in threads
    ensures AllDonorsIn(threads, pri[t := p])
  {
    assert pri[t := p].Keys == pri.Keys;
    forall u | u in threads ensures DonorsIn(pri[t := p], threads[u].donors) {
      assert DonorsIn(pri, threads[u].donors);
    }
  }

  lemma SameLinks(threads: Threads, r: Threads, holder: Holders)
    requires r.Keys == threads.Keys && Bookkeeping(threads, holder)
    requires forall t :: t in threads ==>
      r[t].waiting == threads[t].waiting && r[t].donors == threads[t].donors
    ensures Bookkeeping(r, holder) && WaitsFor(r, holder) == WaitsFor(threads, holder)
  {
    forall u | u in r ensures ListsDonors(r, holder, u) && WaitsForHeld(r, holder, u) {
      assert ListsDonors(threads, holder, u) && WaitsForHeld(threads, holder, u);
      forall d: Donation ensures Owes(r, holder, d, u) == Owes(threads, holder, d, u) {}
    }
  }

  /** A new thread donates to nobody and nobody donates to it. */
  lemma CreateKeeps(mlfqs: bool, threads: Threads, holder: Holders, t: Tid, p: int)
    requires DonorInv(mlfqs, threads, holder)
    requires t !in threads && forall l :: l in holder ==> holder[l] != Some(t)
    ensures DonorInv(mlfqs, threads[t := Thread(p, None, [])], holder)
  {
    CreateBooks(threads, holder, t, p);
  }

  lemma CreateBalances(threads: Threads, pri: Priorities, t: Tid, p: int, upset: set<Tid>)
    requires AllDonorsIn(threads, pri) && BalancedExcept(threads, pri, upset) && t !in threads
    ensures
      var r, q := threads[t := Thread(p, None, [])], pri[t := p];
      AllDonorsIn(r, q) && BalancedExcept(r, q, upset - {t})
  {
    var r, q := threads[t := Thread(p, None, [])], pri[t := p];
    CreateDonors(threads, pri, t, p);
    forall u | u in r && u !in upset - {t} ensures BalancedAt(r, q, u) {
      if u != t {
        assert BalancedAt(threads, pri, u) && DonorsIn(pri, threads[u].donors) && DonorsIn(q, r[u].donors);
        MaxCongruent(pri, q, threads[u].base, threads[u].donors);
      }
    }
  }

  lemma CreateDonors(threads: Threads, pri: Priorities, t: Tid, p: int)
    requires AllDonorsIn(threads, pri) && t !in threads
    ensures AllDonorsIn(threads[t := Thread(p, None, [])], pri[t := p])
  {
    var r, q := threads[t := Thread(p, None, [])], pri[t := p];
    forall u | u in r ensures DonorsIn(q, r[u].donors) {
      assert u in threads ==> DonorsIn(pri, threads[u].donors);
    }
    assert r.Keys == q.Keys;
  }

  lemma CreateBooks(threads: Threads, holder: Holders, t: Tid, p: int)
    requires Bookkeeping(threads, holder) && t !in threads && forall l :: l in holder ==> holder[l] != Some(t)
    ensures
      var r := threads[t := Thread(p, None, [])];
      Bookkeeping(r, holder) && WaitsFor(r, holder) == WaitsFor(threads, holder)
  {
    var r := threads[t := Thread(p, None, [])];
    forall u | u in r ensures ListsDonors(r, holder, u) && WaitsForHeld(r, holder, u) {
      assert u in threads ==> ListsDonors(threads, holder, u) && WaitsForHeld(threads, holder, u);
      forall d: Donation ensures Owes(r, holder, d, u) == Owes(threads, holder, d, u) {}
    }
  }
}
