/** The semaphore and lock words of threads/synch.c seen on their own: program
    counters, semaphore values, waiter lists and recorded holders. */
module SemaProtocol {
  import opened Prelude
  import opened Synch

  // ------------------------------------------------------------ invariants

  /** Threads between the down and the up of lock l. */
  ghost function Owners(c: Core, l: Sem): (r: set<Tid>) {
    set t | t in c.pcs && Owns(c, t, l)
  }

  ghost predicate Owns(c: Core, t: Tid, l: Sem) {
    PcIs(c, t, Took(l)) || PcIs(c, t, Giving(l)) || (l in c.holder && c.holder[l] == Some(t))
  }

  /** The value of a lock's semaphore and its owners add up to one; a recorded
      holder has finished taking the lock and not begun giving it up. */
  ghost predicate OwnerAt(c: Core, l: Sem) {
    && l in c.semas && l in c.holder
    && c.semas[l].value + |Owners(c, l)| == 1
    && (c.holder[l].Some? ==>
          var h := c.holder[l].value;
          h in c.pcs && c.pcs[h] !in {Took(l), Giving(l), Dead})
  }

  /** Threads unblocked by sema_up that have not looked at the value again yet. */
  ghost function Wakeups(c: Core, x: Sem): (r: set<Tid>) {
    set t | t in c.pcs && c.pcs[t] == Woken(x)
  }

  /** A thread is on a waiters list exactly when it sleeps there, and then once. */
  ghost predicate ListsSleepers(c: Core, x: Sem)
    requires x in c.semas
  {
    forall t :: multiset(c.semas[x].waiters)[t] == if PcIs(c, t, Asleep(x)) then 1 else 0
  }

  /** No lost wakeup: sleepers remain only while every unit of the value is
      matched by a thread that is on its way to test it. */
  ghost predicate WaitAt(c: Core, x: Sem) {
    && x in c.semas
    && ListsSleepers(c, x)
    && (c.semas[x].waiters != [] ==> c.semas[x].value <= |Wakeups(c, x)|)
  }

  ghost predicate CoreInv(c: Core) {
    && (forall l :: l in c.holder ==> OwnerAt(c, l))
    && (forall x :: x in c.semas ==> WaitAt(c, x))
  }

  // ------------------------------------------------------------- framing

  /** The program counter says nothing about semaphore y. */
  ghost predicate Neutral(pc: PC, y: Sem) {
    pc !in {Asleep(y), Woken(y), Took(y), Giving(y)}
  }

  /** Moving t between places that do not concern y changes nothing at y. */
  lemma Elsewhere(c: Core, t: Tid, pc: PC, r: Core, y: Sem)
    requires r.pcs == c.pcs[t := pc]
    requires (t in c.pcs ==> Neutral(c.pcs[t], y)) && Neutral(pc, y)
    requires y in c.semas && y in r.semas && r.semas[y] == c.semas[y]
    requires y in c.holder <==> y in r.holder
    requires y in c.holder ==> r.holder[y] == c.holder[y] && (r.holder[y] == Some(t) ==> pc != Dead)
    ensures WaitAt(c, y) ==> WaitAt(r, y)
    ensures OwnerAt(c, y) ==> OwnerAt(r, y)
  {
    assert Wakeups(r, y) == Wakeups(c, y);
    if WaitAt(c, y) {
      forall u ensures PcIs(r, u, Asleep(y)) == PcIs(c, u, Asleep(y)) {}
    }
    if OwnerAt(c, y) {
      forall u ensures u in Owners(r, y) <==> u in Owners(c, y) {}
      assert Owners(r, y) == Owners(c, y);
    }
  }

  lemma Singleton<A>(s: set<A>, a: A)
    requires a in s && |s| <= 1
    ensures s == {a}
  {
    assert |s - {a}| == 0;
  }

  // ----------------------------------------------------------- the steps

  /** t moves between two places that no invariant counts. */
  lemma IdleMove(c: Core, t: Tid, pc: PC)
    requires CoreInv(c)
    requires t in c.pcs ==> c.pcs[t].Outside?
    requires pc.Outside? || pc.Down? || (pc.Dead? && forall l :: l in c.holder ==> c.holder[l] != Some(t))
    ensures CoreInv(c.(pcs := c.pcs[t := pc]))
  {
    var r := c.(pcs := c.pcs[t := pc]);
    forall y | y in c.semas ensures WaitAt(r, y) { Elsewhere(c, t, pc, r, y); }
    forall l | l in c.holder ensures OwnerAt(r, l) { assert OwnerAt(c, l); Elsewhere(c, t, pc, r, l); }
  }

  /** What a step of t at semaphore x leaves to be shown: x itself. */
  lemma OnlyAt(c: Core, t: Tid, pc: PC, r: Core, x: Sem)
    requires CoreInv(c)
    requires t in c.pcs && r.pcs == c.pcs[t := pc] && pc != Dead
    requires forall y :: y != x ==> Neutral(c.pcs[t], y) && Neutral(pc, y)
    requires x in c.semas && x in r.semas && r.semas == c.semas[x := r.semas[x]]
    requires r.holder.Keys == c.holder.Keys
    requires forall l :: l in c.holder && l != x ==> r.holder[l] == c.holder[l]
    requires WaitAt(r, x) && (x in r.holder ==> OwnerAt(r, x))
    ensures CoreInv(r)
  {
    forall y | y in r.semas ensures WaitAt(r, y) {
      if y != x { Elsewhere(c, t, pc, r, y); }
    }
    forall l | l in r.holder ensures OwnerAt(r, l) {
      assert OwnerAt(c, l);
      if l != x { Elsewhere(c, t, pc, r, l); }
    }
  }

  /** sema_down finds the value zero and blocks. */
  lemma Sleep(c: Core, t: Tid, x: Sem)
    requires CoreInv(c) && (PcIs(c, t, Down(x)) || PcIs(c, t, Woken(x)))
    requires x in c.semas && c.semas[x].value == 0
    ensures CoreInv(c.(pcs := c.pcs[t := Asleep(x)], semas := c.semas[x := Sema(0, c.semas[x].waiters + [t])]))
  {
    var r := c.(pcs := c.pcs[t := Asleep(x)], semas := c.semas[x := Sema(0, c.semas[x].waiters + [t])]);
    SleepWait(c, t, x, r);
    if x in c.holder {
      assert OwnerAt(c, x);
      assert Owners(r, x) == Owners(c, x);
    }
    OnlyAt(c, t, Asleep(x), r, x);
  }

  lemma SleepWait(c: Core, t: Tid, x: Sem, r: Core)
    requires WaitAt(c, x) && t in c.pcs && c.pcs[t] != Asleep(x)
    requires r.pcs == c.pcs[t := Asleep(x)]
    requires x in r.semas && r.semas[x] == Sema(0, c.semas[x].waiters + [t])
    ensures WaitAt(r, x)
  {
    forall u ensures multiset(r.semas[x].waiters)[u] == if PcIs(r, u, Asleep(x)) then 1 else 0 {
      assert multiset(c.semas[x].waiters)[u] == if PcIs(c, u, Asleep(x)) then 1 else 0;
    }
  }

  /** A thread goes past the value test and decrements it. */
  lemma Enter(c: Core, t: Tid, x: Sem, pc: PC)
    requires CoreInv(c) && t in c.pcs && c.pcs[t] in {Outside, Down(x), Woken(x)}
    requires x in c.semas && c.semas[x].value > 0
    requires pc == if x in c.holder then Took(x) else Outside
    ensures CoreInv(c.(pcs := c.pcs[t := pc],
                       semas := c.semas[x := Sema(c.semas[x].value - 1, c.semas[x].waiters)]))
  {
    var r := c.(pcs := c.pcs[t := pc], semas := c.semas[x := Sema(c.semas[x].value - 1, c.semas[x].waiters)]);
    EnterWait(c, t, x, pc, r);
    if x in c.holder { EnterOwner(c, t, x, r); }
    OnlyAt(c, t, pc, r, x);
  }

  lemma EnterWait(c: Core, t: Tid, x: Sem, pc: PC, r: Core)
    requires WaitAt(c, x) && t in c.pcs && c.pcs[t] in {Outside, Down(x), Woken(x)}
    requires c.semas[x].value > 0 && pc in {Took(x), Outside}
    requires r.pcs == c.pcs[t := pc]
    requires r.semas == c.semas[x := Sema(c.semas[x].value - 1, c.semas[x].waiters)]
    ensures WaitAt(r, x)
  {
    assert Wakeups(r, x) == Wakeups(c, x) - {t};
    forall u ensures PcIs(r, u, Asleep(x)) == PcIs(c, u, Asleep(x)) {}
  }

  lemma EnterOwner(c: Core, t: Tid, x: Sem, r: Core)
    requires OwnerAt(c, x) && t in c.pcs && c.semas[x].value > 0
    requires r.pcs == c.pcs[t := Took(x)] && r.holder == c.holder
    requires x in r.semas && r.semas[x].value == c.semas[x].value - 1
    ensures OwnerAt(r, x)
  {
    assert Owners(c, x) == {};
    NoOwnerNoHolder(c, x);
    forall u ensures u in Owners(r, x) <==> u == t {
      assert u !in Owners(c, x);
    }
    assert Owners(r, x) == {t};
  }

  lemma NoOwnerNoHolder(c: Core, l: Sem)
    requires OwnerAt(c, l) && Owners(c, l) == {}
    ensures c.holder[l] == None
  {
    HolderOwns(c, l);
  }

  lemma HolderOwns(c: Core, l: Sem)
    requires OwnerAt(c, l)
    ensures c.holder[l].Some? ==> c.holder[l].value in Owners(c, l)
  {
  }

  /** sema_try_down on a semaphore that is no lock. */
  lemma Decrement(c: Core, x: Sem)
    requires CoreInv(c) && x in c.semas && x !in c.holder && c.semas[x].value > 0
    ensures CoreInv(c.(semas := c.semas[x := Sema(c.semas[x].value - 1, c.semas[x].waiters)]))
  {
    var r := c.(semas := c.semas[x := Sema(c.semas[x].value - 1, c.semas[x].waiters)]);
    SamePcs(c, r, x);
    assert WaitAt(c, x);
  }

  /** Only the words of semaphore x change. */
  lemma SamePcs(c: Core, r: Core, x: Sem)
    requires CoreInv(c) && r.pcs == c.pcs && r.holder == c.holder
    requires x in c.semas && x in r.semas && r.semas == c.semas[x := r.semas[x]]
    ensures forall y :: y in r.semas && y != x ==> WaitAt(r, y)
    ensures forall l :: l in r.holder && l != x ==> OwnerAt(r, l)
    ensures Owners(r, x) == Owners(c, x) && Wakeups(r, x) == Wakeups(c, x)
    ensures forall u, pc: PC :: PcIs(r, u, pc) == PcIs(c, u, pc)
  {
    forall y | y in r.semas && y != x ensures WaitAt(r, y) {
      assert WaitAt(c, y) && Wakeups(r, y) == Wakeups(c, y);
    }
    forall l | l in r.holder && l != x ensures OwnerAt(r, l) {
      assert OwnerAt(c, l) && Owners(r, l) == Owners(c, l);
    }
  }

  /** The assertion of lock_acquire: whoever has the semaphore finds no holder. */
  lemma NoHolderYet(c: Core, t: Tid, l: Sem)
    requires CoreInv(c) && (PcIs(c, t, Took(l)) || PcIs(c, t, Giving(l))) && l in c.holder
    ensures c.holder[l] == None
    ensures l in c.semas && c.semas[l].value == 0 && Owners(c, l) == {t}
  {
    assert OwnerAt(c, l);
    assert t in Owners(c, l);
    HolderOwns(c, l);
    Singleton(Owners(c, l), t);
  }

  /** holder = thread_current (). */
  lemma Hold(c: Core, t: Tid, l: Sem)
    requires CoreInv(c) && PcIs(c, t, Took(l)) && l in c.holder
    ensures CoreInv(c.(pcs := c.pcs[t := Outside], holder := c.holder[l := Some(t)]))
  {
    NoHolderYet(c, t, l);
    var r := c.(pcs := c.pcs[t := Outside], holder := c.holder[l := Some(t)]);
    forall u ensures u in Owners(r, l) <==> u == t {
      assert u in Owners(c, l) <==> u == t;
    }
    assert Owners(r, l) == {t};
    assert WaitAt(c, l) && Wakeups(r, l) == Wakeups(c, l);
    forall u ensures PcIs(r, u, Asleep(l)) == PcIs(c, u, Asleep(l)) {}
    OnlyAt(c, t, Outside, r, l);
  }

  /** lock_try_acquire in a handler: the thread it runs on stays where it is. */
  lemma TakeOnce(c: Core, t: Tid, l: Sem)
    requires CoreInv(c) && t in c.pcs && !c.pcs[t].Dead? && l in c.holder && l in c.semas && c.semas[l].value > 0
    ensures CoreInv(TakeAtOnce(c, t, l)) && c.holder[l] == None
  {
    var r := TakeAtOnce(c, t, l);
    assert OwnerAt(c, l) && Owners(c, l) == {};
    assert t !in Owners(c, l);
    NoOwnerNoHolder(c, l);
    forall u ensures u in Owners(r, l) <==> u == t {
      assert u !in Owners(c, l);
    }
    assert Owners(r, l) == {t};
    assert WaitAt(c, l) && Wakeups(r, l) == Wakeups(c, l);
    forall u ensures PcIs(r, u, Asleep(l)) == PcIs(c, u, Asleep(l)) {}
    forall y | y in r.semas && y != l ensures WaitAt(r, y) {
      assert WaitAt(c, y) && Wakeups(r, y) == Wakeups(c, y);
      forall u ensures PcIs(r, u, Asleep(y)) == PcIs(c, u, Asleep(y)) {}
    }
    forall k | k in r.holder && k != l ensures OwnerAt(r, k) {
      assert OwnerAt(c, k) && Owners(r, k) == Owners(c, k);
    }
  }

  /** holder = NULL. */
  lemma LetGo(c: Core, t: Tid, l: Sem)
    requires CoreInv(c) && PcIs(c, t, Outside) && l in c.holder && c.holder[l] == Some(t)
    ensures CoreInv(c.(pcs := c.pcs[t := Giving(l)], holder := c.holder[l := None]))
  {
    var r := c.(pcs := c.pcs[t := Giving(l)], holder := c.holder[l := None]);
    assert OwnerAt(c, l) && t in Owners(c, l);
    Singleton(Owners(c, l), t);
    forall u ensures u in Owners(r, l) <==> u == t {
      assert u in Owners(c, l) <==> u == t;
    }
    assert Owners(r, l) == {t};
    assert WaitAt(c, l) && Wakeups(r, l) == Wakeups(c, l);
    forall u ensures PcIs(r, u, Asleep(l)) == PcIs(c, u, Asleep(l)) {}
    OnlyAt(c, t, Giving(l), r, l);
  }

  /** sema_up keeps everything except the sum at x itself. */
  lemma WokeKeeps(c: Core, x: Sem, i: nat)
    requires CoreInv(c) && x in c.semas
    requires c.semas[x].waiters != [] ==> i < |c.semas[x].waiters|
    ensures
      var r := Woke(c, x, i);
      && (forall y :: y in r.semas ==> WaitAt(r, y))
      && (forall l :: l in r.holder && l != x ==> OwnerAt(r, l))
      && Owners(r, x) == Owners(c, x)
      && forall u, pc: PC :: !pc.Asleep? && !pc.Woken? ==> PcIs(r, u, pc) == PcIs(c, u, pc)
  {
    var r := Woke(c, x, i);
    var ws := c.semas[x].waiters;
    assert WaitAt(c, x);
    if ws == [] {
      SamePcs(c, r, x);
    } else {
      var w := ws[i];
      assert multiset(ws)[w] > 0;
      assert PcIs(c, w, Asleep(x));
      WokenList(c, r, x, i);
      forall y | y in r.semas && y != x ensures WaitAt(r, y) { Elsewhere(c, w, Woken(x), r, y); }
      forall l | l in r.holder && l != x ensures OwnerAt(r, l) {
        assert OwnerAt(c, l);
        Elsewhere(c, w, Woken(x), r, l);
      }
      assert Owners(r, x) == Owners(c, x);
    }
  }

  lemma WokenList(c: Core, r: Core, x: Sem, i: nat)
    requires x in c.semas && WaitAt(c, x) && i < |c.semas[x].waiters| && r == Woke(c, x, i)
    ensures WaitAt(r, x)
  {
    var ws := c.semas[x].waiters;
    var w := ws[i];
    var rest := ws[..i] + ws[i + 1..];
    assert ws == ws[..i] + [w] + ws[i + 1..];
    assert multiset(ws) == multiset(rest) + multiset{w};
    forall u ensures multiset(rest)[u] == if PcIs(r, u, Asleep(x)) then 1 else 0 {
      assert multiset(ws)[u] == if PcIs(c, u, Asleep(x)) then 1 else 0;
    }
    assert Wakeups(r, x) == Wakeups(c, x) + {w};
    assert multiset(ws)[w] == if PcIs(c, w, Asleep(x)) then 1 else 0;
    assert w !in Wakeups(c, x);
  }

  lemma Posted(c: Core, x: Sem, i: nat)
    requires CoreInv(c) && x in c.semas && x !in c.holder
    requires c.semas[x].waiters != [] ==> i < |c.semas[x].waiters|
    ensures CoreInv(Woke(c, x, i))
  {
    WokeKeeps(c, x, i);
  }

  /** The sema_up that ends lock_release. */
  lemma Finish(c: Core, t: Tid, l: Sem, i: nat)
    requires CoreInv(c) && PcIs(c, t, Giving(l)) && l in c.holder && l in c.semas
    requires c.semas[l].waiters != [] ==> i < |c.semas[l].waiters|
    ensures var m := Woke(c, l, i); CoreInv(m.(pcs := m.pcs[t := Outside]))
  {
    NoHolderYet(c, t, l);
    WokeKeeps(c, l, i);
    var m := Woke(c, l, i);
    var r := m.(pcs := m.pcs[t := Outside]);
    assert PcIs(m, t, Giving(l));
    LeaveWait(m, t, l);
    forall k | k in r.holder ensures OwnerAt(r, k) {
      if k == l {
        forall u ensures u !in Owners(r, l) { assert u in Owners(m, l) <==> u == t; }
        assert Owners(r, l) == {};
      } else {
        Elsewhere(m, t, Outside, r, k);
      }
    }
  }

  lemma LeaveWait(m: Core, t: Tid, l: Sem)
    requires PcIs(m, t, Giving(l)) && forall y :: y in m.semas ==> WaitAt(m, y)
    ensures var r := m.(pcs := m.pcs[t := Outside]); forall y :: y in r.semas ==> WaitAt(r, y)
  {
    var r := m.(pcs := m.pcs[t := Outside]);
    forall y | y in r.semas ensures WaitAt(r, y) {
      assert Wakeups(r, y) == Wakeups(m, y);
      forall u ensures PcIs(r, u, Asleep(y)) == PcIs(m, u, Asleep(y)) {}
    }
  }
}
