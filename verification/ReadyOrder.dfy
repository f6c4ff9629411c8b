/** A donation to a thread that is in the ready list: the donation code of
    threads/synch.c changes its priority and leaves the list of
    threads/thread.c as it is. */
module ReadyOrder {
  import opened Prelude
  import opened Scheduler
  import Forest
  import Synch
  import SynchRuns
  import SynchTheorems

  // ------------------------------------------------------ the ready list

  /** main is thread 0, idle thread 1; threads 2 and 3 have priority 20. */
  function Priorities(): (r: map<Tid, int>) {
    map[0 := 31, 1 := 0, 2 := 20, 3 := 20]
  }

  function Threads(current: Tid, ready: seq<Tid>, s0: Status, s2: Status, s3: Status, sleep: set<Tid>): (s: Sched) {
    Sched(current, map[0 := s0, 1 := READY, 2 := s2, 3 := s3], Priorities(), ready, map[], sleep, {}, 1, None, 0)
  }

  /** main creates threads 2 and 3. */
  function Creation(): (states: seq<Sched>) {
    [Sched(0, map[0 := RUNNING, 1 := READY], map[0 := 31, 1 := 0], [1], map[], {}, {}, 1, None, 0),
     Sched(0, map[0 := RUNNING, 1 := READY, 2 := BLOCKED], map[0 := 31, 1 := 0, 2 := 20], [1], map[], {}, {2}, 1, None, 0),
     Sched(0, map[0 := RUNNING, 1 := READY, 2 := READY], map[0 := 31, 1 := 0, 2 := 20], [2, 1], map[], {}, {}, 1, None, 0),
     Sched(0, map[0 := RUNNING, 1 := READY, 2 := READY, 3 := BLOCKED], Priorities(), [2, 1], map[], {}, {3}, 1, None, 0)]
  }

  /** It sleeps; thread 2 yields to thread 3; the sleep ends and thread 3 yields
      to main. */
  function Rotation(): (states: seq<Sched>) {
    [Threads(0, [2, 3, 1], RUNNING, READY, READY, {}),
     Threads(2, [3, 1], BLOCKED, RUNNING, READY, {0}),
     Threads(3, [2, 1], BLOCKED, READY, RUNNING, {0}),
     Threads(3, [0, 2, 1], READY, READY, RUNNING, {}),
     Threads(0, [2, 3, 1], RUNNING, READY, READY, {})]
  }

  lemma CreatesSecond()
    ensures
      var c := Creation();
      Boot(c[0]) && Transition(c[0], InitThread(2, 20), c[1]) && Transition(c[1], StartThread(2), c[2])
  {
    var c := Creation();
    assert Before(c[0], InitThread(2, 20)) == c[1];
    assert Before(c[1], StartThread(2)).ready == [2, 1];
    assert Before(c[1], StartThread(2)) == c[2];
  }

  lemma CreatesThird()
    ensures
      var c := Creation();
      Transition(c[2], InitThread(3, 20), c[3]) && Transition(c[3], StartThread(3), Rotation()[0])
  {
    var c := Creation();
    assert Before(c[2], InitThread(3, 20)) == c[3];
    assert [2, 1][1..] == [1];
    assert InsertReady(Priorities(), [1], 3) == [3, 1];
    assert Before(c[3], StartThread(3)).ready == [2, 3, 1];
    assert Before(c[3], StartThread(3)) == Rotation()[0];
  }

  lemma Rotates()
    ensures
      var r := Rotation();
      Transition(r[0], Sleep, r[1]) && Transition(r[1], Yield, r[2])
  {
    var r := Rotation();
    assert Schedule(Before(r[0], Sleep)) == r[1];
    assert [3, 1][1..] == [1];
    assert Before(r[1], Yield).ready == [3, 2, 1];
    assert Schedule(Before(r[1], Yield)) == r[2];
  }

  lemma RotatesBack()
    ensures
      var r := Rotation();
      Transition(r[2], WakeSleeper(0), r[3]) && Transition(r[3], Yield, r[4])
  {
    var r := Rotation();
    assert Before(r[2], WakeSleeper(0)) == r[3];
    assert [0, 2, 1][1..] == [2, 1] && [2, 1][1..] == [1];
    assert InsertReady(Priorities(), [2, 1], 3) == [2, 3, 1];
    assert Before(r[3], Yield).ready == [0, 2, 3, 1];
    assert Schedule(Before(r[3], Yield)) == r[4];
  }

  function Actions(): (r: seq<Action>) {
    [InitThread(2, 20), StartThread(2), InitThread(3, 20), StartThread(3), Sleep, Yield, WakeSleeper(0), Yield]
  }

  lemma ScheduleRun()
    ensures Run(Creation() + Rotation(), Actions())
  {
    hide Transition, Boot;
    CreatesSecond();
    CreatesThird();
    Rotates();
    RotatesBack();
    var states, actions := Creation() + Rotation(), Actions();
    forall i | 0 <= i < |actions| ensures Transition(states[i], actions[i], states[i + 1]) {
      assert i in {0, 1, 2, 3, 4, 5, 6, 7};
    }
  }

  // --------------------------------------------------------- the donation

  function Locked(v: nat, h: Option<Tid>): (s: Synch.State) {
    Synch.State(false,
                map t | t in Priorities() :: Synch.Thread(Priorities()[t], None, []), Priorities(),
                Synch.Core(map t | t in Priorities() :: Synch.Outside, map[0 := Synch.Sema(v, [])], map[0 := h]))
  }

  /** Thread 3 has taken lock 0 undisturbed. */
  lemma LockTaken()
    ensures SynchTheorems.Reachable(Locked(0, Some(3))) && Synch.WF(Locked(0, Some(3)))
  {
    hide SynchTheorems.Reachable, SynchRuns.Inv, Synch.WF;
    LockFree();
    SynchTheorems.Uncontended(Locked(1, None), 3, 0);
    assert Synch.TakeAtOnce(Locked(1, None).core, 3, 0) == Locked(0, Some(3)).core;
    SynchTheorems.ReachableInv(Locked(0, Some(3)));
    SynchRuns.Parts(Locked(0, Some(3)));
  }

  lemma LockFree()
    ensures SynchTheorems.Reachable(Locked(1, None))
  {
    var s := Locked(1, None);
    assert SynchRuns.Run([s], []) && [s][0] == s;
  }

  /** lock_acquire by main then donates 31 to thread 3. */
  lemma MainDonates()
    requires Synch.WF(Locked(0, Some(3)))
    ensures
      var s, step := Locked(0, Some(3)), Synch.Acquire(0, 0, [3]);
      Synch.Enabled(s, step) && Synch.Next(s, step).pri == s.pri[3 := 31]
  {
    hide Synch.WF;
    var s := Locked(0, Some(3));
    MainLinks(s);
    var threads := Synch.Link(s.threads, s.pri, 0, 0, 3);
    assert 3 !in Synch.WaitsFor(threads, s.core.holder);
    assert Forest.IsWalk(Synch.WaitsFor(threads, s.core.holder), 3, [3]);
  }

  lemma MainLinks(s: Synch.State)
    requires Synch.WF(s) && s == Locked(0, Some(3))
    ensures
      var threads := Synch.Link(s.threads, s.pri, 0, 0, 3);
      && threads[3].waiting == None && Synch.AllDonorsIn(threads, s.pri)
      && Synch.Settle(threads, s.pri, [3]) == s.pri[3 := 31]
  {
    Synch.LinkKeeps(s.threads, s.pri, 0, 0, 3);
    var threads := Synch.Link(s.threads, s.pri, 0, 0, 3);
    var ds := [Synch.Donation(0, 0)];
    assert threads[3] == Synch.Thread(20, None, ds);
    assert ds[1..] == [];
    assert Synch.MaxOver(s.pri, 20, ds) == 31;
    assert Synch.Update(threads, s.pri, 3) == s.pri[3 := 31];
  }

  // ------------------------------------------------------------- together

  /** A run that ends with thread 3 queued behind thread 2 of the same priority,
      after thread 3 has run and taken a lock: main's lock_acquire raises thread
      3 above thread 2, and the ready list, sorted until then, is not any more. */
  lemma DonationUnsorts() returns (states: seq<Sched>, actions: seq<Action>, s: Synch.State, step: Synch.Step)
    ensures Run(states, actions) && |states| == 9 && states[6].current == 3 && states[8].current == 0
    ensures SynchTheorems.Reachable(s) && Synch.WF(s) && Synch.Enabled(s, step) && step == Synch.Acquire(0, 0, [3])
    ensures states[8].pri == s.pri && Synch.Next(s, step).pri == s.pri[3 := 31]
    ensures SortedBy(states[8].pri, states[8].ready) && states[8].ready == [2, 3, 1]
    ensures !KeepsPlace(states[8], ChangePriority(3, 31)) && !SortedBy(s.pri[3 := 31], states[8].ready)
  {
    hide Synch.WF, Synch.Enabled, Synch.Next, SynchTheorems.Reachable, Run;
    ScheduleRun();
    LockTaken();
    MainDonates();
    states, actions, s, step := Creation() + Rotation(), Actions(), Locked(0, Some(3)), Synch.Acquire(0, 0, [3]);
    var last := states[8];
    assert last == Rotation()[4];
    assert last.ready[1] == 3 && Pri(s.pri[3 := 31], last.ready[0]) < Pri(s.pri[3 := 31], last.ready[1]);
    assert !FitsAt(last.pri, last.ready, 1, 31);
  }
}
