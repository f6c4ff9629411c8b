/** The routines of threads/thread.c as code that updates the scheduler's
    structures in place, proved against the state machine of Scheduler. */
module SchedulerKernel {
  import opened Prelude
  import opened Scheduler

  /** Scanning past threads of no lower priority does not change where t goes. */
  lemma {:induction false} InsertSkip(pri: map<Tid, int>, ready: seq<Tid>, t: Tid, i: nat)
    requires i <= |ready|
    requires forall k :: 0 <= k < i ==> Pri(pri, ready[k]) >= Pri(pri, t)
    requires i == |ready| || Pri(pri, t) > Pri(pri, ready[i])
    ensures InsertReady(pri, ready, t) == ready[..i] + [t] + ready[i..]
    decreases i
  {
    hide Pri;
    if i > 0 {
      InsertSkip(pri, ready[1..], t, i - 1);
      assert ready[..i] == [ready[0]] + ready[1..][..i - 1] && ready[i..] == ready[1..][i - 1..];
    } else {
      assert ready[..0] == [] && ready[0..] == ready;
    }
  }

  class Cpu {
    var current: Tid
    var status: map<Tid, Status>
    var pri: map<Tid, int>
    var readyList: seq<Tid>
    var queues: map<Queue, seq<Tid>>
    var sleepers: set<Tid>
    var newborn: set<Tid>
    const idleFn: Tid
    var idleThread: Option<Tid>
    const initialThread: Tid

    ghost function St(): (s: Sched)
      reads this
    {
      Sched(current, status, pri, readyList, queues, sleepers, newborn, idleFn, idleThread, initialThread)
    }

    /** list_insert_ordered into the ready list. */
    method InsertOrdered(t: Tid)
      modifies this`readyList
      ensures readyList == InsertReady(pri, old(readyList), t)
    {
      var e := 0;
      while e < |readyList| && !(Pri(pri, t) > Pri(pri, readyList[e]))
        invariant 0 <= e <= |readyList|
        invariant forall k :: 0 <= k < e ==> Pri(pri, readyList[k]) >= Pri(pri, t)
      {
        e := e + 1;
      }
      InsertSkip(pri, readyList, t, e);
      readyList := readyList[..e] + [t] + readyList[e..];
    }

    /** thread_unblock, whose assertion is the precondition. */
    method ThreadUnblock(t: Tid)
      requires StatusIs(St(), t, BLOCKED)
      modifies this`readyList, this`status
      ensures St() == Unblock(old(St()), t)
    {
      InsertOrdered(t);
      status := status[t := READY];
    }

    /** schedule with thread_schedule_tail. */
    method DoSchedule()
      requires AtSchedule(St())
      modifies this`current, this`readyList, this`status
      ensures NextThread(old(St())).Some? && St() == Schedule(old(St()))
      ensures SchedInv(St())
    {
      ScheduleFinds(St());
      ScheduleInv(St());
      var next: Tid;
      if readyList == [] {
        next := idleThread.value;
      } else {
        next := readyList[0];
        readyList := readyList[1..];
      }
      var prev := current;
      current := next;
      status := status[next := RUNNING];
      if prev != next && prev in status && status[prev] == DYING && prev != initialThread {
        status := status - {prev};
      }
    }

    method ThreadYield()
      requires SchedInv(St())
      modifies this`current, this`readyList, this`status
      ensures Transition(old(St()), Yield, St()) && SchedInv(St())
    {
      YieldAt(St());
      if idleThread != Some(current) {
        InsertOrdered(current);
      }
      status := status[current := READY];
      DoSchedule();
    }

    /** The blocking part of sema_down: list_push_back and thread_block. */
    method BlockOnQueue(q: Queue)
      requires SchedInv(St()) && q in queues && current != idleFn
      modifies this`current, this`readyList, this`status, this`queues
      ensures Transition(old(St()), BlockOn(q), St()) && SchedInv(St())
    {
      BlockOnAt(St(), q);
      queues := queues[q := queues[q] + [current]];
      status := status[current := BLOCKED];
      DoSchedule();
    }

    /** The wake-up part of sema_up, for the waiter that list_min chose. */
    method WakeFromQueue(q: Queue, i: nat)
      requires SchedInv(St()) && q in queues && i < |queues[q]|
      modifies this`readyList, this`status, this`queues
      ensures Transition(old(St()), Wake(q, i), St()) && SchedInv(St())
    {
      WakeInv(St(), q, i);
      var t := queues[q][i];
      assert OnQueue(St(), t, q);
      queues := queues[q := queues[q][..i] + queues[q][i + 1..]];
      ThreadUnblock(t);
    }

    method ThreadExit()
      requires SchedInv(St()) && current != idleFn
      modifies this`current, this`readyList, this`status
      ensures Transition(old(St()), Exit, St()) && SchedInv(St())
      ensures current != old(current)
    {
      CallsScheduleSafely(St(), Exit);
      status := status[current := DYING];
      DoSchedule();
    }
  }
}
