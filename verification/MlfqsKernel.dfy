/** The same code in place, with every C int proved to hold its value. */
module MlfqsKernel {
  import opened Prelude
  import opened Arithmetic
  import opened Mlfqs
  import opened MlfqsRuns
  import opened MlfqsExact

  /** The largest number of ready threads for which recent_cpu fits an int:
      120 (2 * 545 + 1) < 2^17. */
  const MAX_READY := 545

  /** The value of a C int expression; the precondition rules out overflow. */
  function Int32(x: int): (r: int)
    requires -W31 <= x < W31
  {
    x
  }

  function Int64(x: int): (r: int)
    requires -W63 <= x < W63
  {
    x
  }

  /** Everything thread_recent_cpu_calc_mlfqs computes on the way fits. */
  lemma RecentFits(load: int, x: Thread, n: nat)
    requires n <= MAX_READY && 0 <= load <= n * F && ThreadOk(x, 100, n)
    ensures 2 * load + F < W31 && 0 <= Coeff(load) <= F
    ensures -W31 <= x.recent < W31
    ensures -W63 <= Coeff(load) * x.recent < W63
    ensures -W31 <= Trunc(Coeff(load) * x.recent, F) < W31
    ensures -W31 <= RecentNext(load, x.recent, x.nice) < W31
  {
    hide Trunc, Coeff;
    CoeffBounded(load, n);
    RecentBounded(load, x.recent, x.nice, n);
    ProductFits(Coeff(load), x.recent);
    TruncWithin(Coeff(load) * x.recent, F, -W31 + 1, W31 - 1);
  }

  lemma ProductFits(c: int, r: int)
    requires 0 <= c <= F && -W31 < r < W31
    ensures (-W31 + 1) * F <= c * r <= (W31 - 1) * F
  {
    MulMono(0, c, 0, Abs(r));
    MulMono(c, F, Abs(r), W31 - 1);
    if r < 0 {
      assert c * r == -(c * Abs(r));
    }
  }

  lemma KeepsKeys(th: map<Tid, Thread>, idle: Option<Tid>, cur: Tid)
    ensures Credited(th, idle, cur).Keys == th.Keys
  {
  }

  class Machine {
    var ticks: nat
    var loadAvg: int
    var idle: Option<Tid>
    var all: seq<Tid>
    var th: map<Tid, Thread>

    ghost function St(): (s: Sched)
      reads this
    {
      Sched(ticks, loadAvg, idle, th)
    }

    /** all_list holds every thread once. */
    ghost predicate Valid()
      reads this
    {
      && (forall t :: t in all <==> t in th)
      && forall i, j :: 0 <= i < j < |all| ==> all[i] != all[j]
    }

    /** thread_priority_calc_mlfqs. */
    method PriorityCalc(t: Tid, ghost n: nat)
      requires t in th && (idle != Some(t) ==> n <= MAX_READY && ThreadOk(th[t].(priority := 0), 100, n))
      modifies this`th
      ensures th == old(if idle == Some(t) then th else th[t := Ranked(th[t])])
      ensures t in th && (idle != Some(t) ==> IsPriority(th[t].priority, old(th)[t].recent, old(th)[t].nice))
    {
      if idle == Some(t) { return; }
      PriorityExactly(th[t].recent, th[t].nice);
      hide Trunc;
      TruncWithin(th[t].recent, 4, -W31 / 4, W31 / 4);
      var x := Int32(Int32(Int32(PRI_MAX * F) - Int32(Trunc(th[t].recent, 4))) - Int32(Int32(th[t].nice * 2) * F));
      var newPriority := Int32(Trunc(x, F));
      if newPriority > PRI_MAX { newPriority := PRI_MAX; }
      if newPriority < 0 { newPriority := 0; }
      th := th[t := th[t].(priority := newPriority)];
    }

    /** thread_recent_cpu_calc_mlfqs. */
    method RecentCpuCalc(t: Tid, ghost n: nat)
      requires t in th && n <= MAX_READY && 0 <= loadAvg <= n * F
      requires idle != Some(t) ==> ThreadOk(th[t], 100, n)
      modifies this`th
      ensures th == old(if idle == Some(t) then th else th[t := Aged(th[t], loadAvg)])
    {
      if idle == Some(t) { return; }
      RecentFits(loadAvg, th[t], n);
      hide Trunc;
      var twice := Int32(loadAvg * 2);
      var coeff := Int32(Trunc(Int64(twice * F), Int32(twice + F)));
      var x := Int32(Trunc(Int64(coeff * th[t].recent), F));
      th := th[t := th[t].(recent := Int32(x + Int32(th[t].nice * F)))];
    }

    /** thread_recent_cpu_incre. */
    method RecentCpuIncre(t: Tid, ghost n: nat, ghost k: nat)
      requires t in th && n <= MAX_READY && k < 100 && AllOk(th, idle, k, n)
      modifies this`th
      ensures th == Credited(old(th), idle, t)
    {
      if idle == Some(t) { return; }
      assert ThreadOk(th[t], k, n);
      th := th[t := th[t].(recent := Int32(th[t].recent + Int32(1 * F)))];
    }

    /** load_avg_calc_mlfqs. */
    method LoadAvgCalc(cur: Tid, readySize: nat, ghost n: nat)
      requires n <= MAX_READY && 0 <= loadAvg <= n * F && Counted(idle, cur, readySize) <= n
      modifies this`loadAvg
      ensures loadAvg == LoadNext(old(loadAvg), Counted(idle, cur, readySize))
      ensures 0 <= loadAvg <= n * F
    {
      LoadBounded(loadAvg, Counted(idle, cur, readySize), n);
      hide Trunc;
      var ready := readySize;
      if idle != Some(cur) {
        ready := ready + 1;
      }
      loadAvg := Int32(Trunc(Int32(Int32(loadAvg * 59) + Int32(ready * F)), 60));
    }

    /** thread_foreach (thread_recent_cpu_calc_mlfqs, NULL). */
    method AgeEveryThread(ghost n: nat)
      requires Valid() && n <= MAX_READY && 0 <= loadAvg <= n * F && AllOk(th, idle, 100, n)
      modifies this`th
      ensures Valid() && th == AgedAll(old(th), idle, loadAvg)
    {
      hide Aged, ThreadOk;
      ghost var was := th;
      ghost var done := AgedAll(th, idle, loadAvg);
      var i := 0;
      while i < |all|
        invariant 0 <= i <= |all| && th.Keys == was.Keys
        invariant forall k :: 0 <= k < |all| ==> th[all[k]] == if k < i then done[all[k]] else was[all[k]]
      {
        RecentCpuCalc(all[i], n);
        i := i + 1;
      }
      assert th == done;
    }

    /** thread_foreach (thread_priority_calc_mlfqs, NULL). */
    method RankEveryThread(ghost n: nat, ghost k0: nat)
      requires Valid() && n <= MAX_READY && k0 <= 100 && AllOk(th, idle, k0, n)
      modifies this`th
      ensures Valid() && th == RankedAll(old(th), idle)
    {
      ghost var was := th;
      ghost var done := RankedAll(th, idle);
      hide Ranked;
      var i := 0;
      while i < |all|
        invariant 0 <= i <= |all| && th.Keys == was.Keys
        invariant forall k :: 0 <= k < |all| ==> th[all[k]] == if k < i then done[all[k]] else was[all[k]]
      {
        PriorityCalc(all[i], n);
        i := i + 1;
      }
      assert th == done;
    }

    /** The scheduler part of timer_interrupt. */
    method TimerInterrupt(cur: Tid, readySize: nat, ghost n: nat)
      requires Valid() && n <= MAX_READY && SchedInv(St(), n) && Enabled(St(), Tick(cur, readySize), n)
      modifies this
      ensures Valid() && St() == Next(old(St()), Tick(cur, readySize)) && SchedInv(St(), n)
    {
      hide RecentNext, LoadNext, PriorityOf, AllOk, ThreadOk, AgedAll, RankedAll, Credited;
      NextInv(St(), Tick(cur, readySize), n);
      CreditedOk(th, idle, cur, ticks % 100, n);
      ticks := ticks + 1;
      RecentCpuIncre(cur, n, (ticks - 1) % 100);
      ghost var s0 := St();
      assert th.Keys == old(th).Keys by { KeepsKeys(old(th), idle, cur); }
      SecondOk(s0, cur, readySize, n);
      if ticks % 100 == 0 {
        LoadAvgCalc(cur, readySize, n);
        AgeEveryThread(n);
      }
      assert St() == Second(s0, cur, readySize);
      if ticks % 4 == 0 {
        RankEveryThread(n, ticks % 100);
      }
    }

    /** thread_set_nice, up to the yield. */
    method ThreadSetNice(cur: Tid, nice: int, ghost n: nat)
      requires Valid() && n <= MAX_READY && SchedInv(St(), n) && Enabled(St(), SetNice(cur, nice), n)
      modifies this`th
      ensures Valid() && St() == Next(old(St()), SetNice(cur, nice)) && SchedInv(St(), n)
    {
      hide PriorityOf;
      NextInv(St(), SetNice(cur, nice), n);
      th := th[cur := th[cur].(nice := nice)];
      PriorityCalc(cur, n);
    }
  }
}
