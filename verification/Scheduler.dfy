/** scheduler.c and clk.c: the loops and updates on the task lists, against SchedulerSpec. */
module Scheduler {
  import opened SchedulerSpec
  import opened SchedulerProofs
  import opened SchedulerRuns

  const TWO64: nat := 0x1_0000_0000_0000_0000
  const NS_PER_S: nat := 1_000_000_000

  /** The 64-bit deadline of clk_nanosleep. */
  function Deadline(absolute: bool, sec: int, nsec: int, now: nat): (d: nat)
    ensures d < TWO64
  {
    ((if absolute then 0 else now) + sec * NS_PER_S + nsec) % TWO64
  }

  /** While the sum stays below 2^64 it is the deadline: the time of a relative sleep counts from now. */
  lemma DeadlineIsExact(absolute: bool, sec: int, nsec: int, now: nat)
    ensures var t := (if absolute then 0 else now) + 1_000_000_000 * sec + nsec;
      Deadline(absolute, sec, nsec, now) == t <==> 0 <= t < 0x1_0000_0000_0000_0000
  {}

  /** A relative sleep returns at once exactly for delays from minus the uptime to zero: a more
      negative delay wraps around and blocks. */
  lemma RelativeSleepReturnsIff(sec: int, nsec: int, now: nat)
    requires now < TWO64 / 2
    requires 0 - TWO64 / 2 <= sec * NS_PER_S + nsec < TWO64 / 2
    ensures Deadline(false, sec, nsec, now) <= now <==> 0 - (now as int) <= sec * NS_PER_S + nsec <= 0
  {}

  /** An absolute time before the epoch of the clock wraps around too. */
  lemma AbsoluteSleepReturnsIff(sec: int, nsec: int, now: nat)
    requires now < TWO64 / 2
    requires 0 - TWO64 / 2 <= sec * NS_PER_S + nsec < TWO64 / 2
    ensures Deadline(true, sec, nsec, now) <= now <==> 0 <= sec * NS_PER_S + nsec <= now
  {}

  /** At ten seconds after boot, a sleep of minus twenty seconds and one until minus one second do not return. */
  lemma NegativeSleepsBlock()
    ensures Deadline(false, -20, 0, 10 * NS_PER_S) > 10 * NS_PER_S
    ensures Deadline(true, -1, 0, 10 * NS_PER_S) > 10 * NS_PER_S
  {}

  class Kernel {
    var tasks: map<nat, Task>
    var current: nat
    var ready: seq<nat>
    var zombies: seq<nat>
    var queues: map<nat, seq<nat>>
    var nextPid: int
    var ticks: nat
    var now: nat

    ghost function View(): Sched reads this {
      Sched(tasks, current, ready, zombies, queues, nextPid, ticks, now)
    }

    /** scheduler_initialize followed by kthread_initialize. */
    constructor (main: nat, idle: nat)
      requires main != idle
      ensures View() == Boot(main, idle) && Inv(View(), idle)
    {
      tasks := map[main := Task(0, -1, 0, RUNNING, 0, NoWait), idle := Task(1, 0, -32767, READY, 0, NoWait)];
      current, ready, zombies, queues := main, [idle], [], map[WAITERS := [], BLOCKED := []];
      nextPid, ticks, now := 2, 0, 0;
      new;
      BootIsGood(main, idle);
    }

    /** task_put on the ready list. The assert at the end of the C function is never reached. */
    method PutReady(t: nat)
      requires Known(ready, tasks) && t in tasks
      modifies this`ready
      ensures ready == TaskPut(old(ready), tasks, t)
    {
      if ready == [] {
        ready := [t];
        return;
      }
      if tasks[ready[|ready| - 1]].prio >= tasks[t].prio {
        ready := ready + [t];
        return;
      }
      var k := 0;
      while k < |ready|
        invariant k <= |ready| && ready == old(ready)
        invariant forall i :: 0 <= i < k ==> tasks[ready[i]].prio >= tasks[t].prio
      {
        if tasks[ready[k]].prio < tasks[t].prio {
          InsertAt(ready, tasks, t, k);
          ready := ready[..k] + [t] + ready[k..];
          return;
        }
        k := k + 1;
      }
      assert false;
    }

    method Schedule()
      requires AllKnown(View())
      modifies this
      ensures View() == SchedulerSpec.Schedule(old(View()))
    {
      if ready == [] { return; }
      var next := ready[0];
      ready := ready[1..];
      var prev := current;
      current := next;
      if tasks[prev].state == RUNNING {
        tasks := SetState(tasks, prev, READY);
        PutReady(prev);
      }
      tasks := SetState(tasks, next, RUNNING);
    }

    method WakeUp(t: nat)
      requires AllKnown(View()) && t in tasks
      modifies this`tasks, this`ready
      ensures View() == SchedulerSpec.WakeUp(old(View()), t)
    {
      tasks := SetState(tasks, t, READY);
      PutReady(t);
    }

    method QueueNew(t: nat, prio: int) returns (pid: int)
      requires AllKnown(View()) && t !in tasks
      modifies this
      ensures View() == SchedulerSpec.QueueNew(old(View()), t, prio) && pid == old(nextPid)
    {
      pid := nextPid;
      tasks := tasks[t := Task(pid, tasks[current].pid, prio, READY, 0, NoWait)];
      nextPid := nextPid + 1;
      PutReady(t);
    }

    /** scheduler_exit: the zombie list, the search for a waiter, the switch. */
    method Exit(status: int)
      requires AllKnown(View())
      modifies this
      ensures View() == SchedulerSpec.Exit(old(View()), status)
    {
      if tasks[current].pid == 0 { return; }
      tasks := tasks[current := tasks[current].(state := ZOMBIE, status := status)];
      zombies := zombies + [current];
      WakeFirst();
      Schedule();
    }

    /** list_delete of the k-th task of a queue and scheduler_wake_up, as waiting ends for any queue. */
    method WakeFrom(queue: nat, k: nat)
      requires AllKnown(View()) && k < |QueueAt(queues, queue)|
      modifies this`tasks, this`ready, this`queues
      ensures View() == WakeAt(old(View()), queue, k)
    {
      var list := QueueAt(queues, queue);
      var rest := list[..k] + list[k + 1..];
      assert forall x :: x in rest ==> x in list;
      queues := queues[queue := rest];
      WakeUp(list[k]);
    }

    /** The loop over the waiters, which stops at the first one it wakes. */
    method WakeFirst()
      requires AllKnown(View())
      modifies this`tasks, this`ready, this`queues
      ensures View() == WakeFirstWaiter(old(View()))
    {
      var k, waiters := 0, QueueAt(queues, WAITERS);
      while k < |waiters|
        invariant k <= |waiters| && View() == old(View())
        invariant FirstWaiter(waiters, tasks, tasks[current]) == k + FirstWaiter(waiters[k..], tasks, tasks[current])
      {
        var t := tasks[waiters[k]];
        if t.wait.WaitPid? {
          if t.wait.pid > 0 && tasks[current].pid == t.wait.pid {
            WakeFrom(WAITERS, k);
            return;
          }
          if t.wait.pid == -1 && t.pid == tasks[current].parent {
            WakeFrom(WAITERS, k);
            return;
          }
        }
        assert waiters[k..][1..] == waiters[k + 1..];
        k := k + 1;
      }
    }

    /** scheduler_sleep_on, for any queue. */
    method SleepOn(queue: nat, data: WaitData)
      requires AllKnown(View())
      modifies this
      ensures View() == SchedulerSpec.SleepOn(old(View()), queue, data)
    {
      if queue == NULL { return; }
      tasks := tasks[current := tasks[current].(state := WAITING, wait := data)];
      queues := queues[queue := QueueAt(queues, queue) + [current]];
      Schedule();
    }

    method Nanosleep(absolute: bool, sec: int, nsec: int)
      requires AllKnown(View())
      modifies this
      ensures View() == SchedulerSpec.Nanosleep(old(View()), Deadline(absolute, sec, nsec, old(now)))
    {
      var deadline := Deadline(absolute, sec, nsec, now);
      if deadline <= now { return; }
      SleepOn(BLOCKED, WaitUntil(deadline));
    }

    /** clk_wakeup: safe iteration, unlinking the expired sleepers one by one. */
    method ClkWakeup()
      requires AllKnown(View())
      modifies this`tasks, this`ready, this`queues
      ensures View() == WakeSleepers(old(View()))
    {
      var k, blocked := 0, QueueAt(queues, BLOCKED);   // k sleepers passed and kept
      assert blocked[..0] == [] && blocked[0..] == blocked;
      while k < |blocked|
        invariant k <= |blocked| && AllKnown(View()) && QueueAt(queues, BLOCKED) == blocked
        invariant Known(blocked[k..], tasks) && Known(blocked[..k], tasks)
        invariant WakeExpired(View(), blocked[..k], blocked[k..]) == WakeSleepers(old(View()))
        decreases |blocked| - k
      {
        var t := blocked[k];
        ghost var kept, rest := blocked[..k], blocked[k..];
        assert rest[0] == t && rest[1..] == blocked[k + 1..];
        if tasks[t].wait.WaitUntil? && tasks[t].wait.deadline <= now {
          WakeFrom(BLOCKED, k);
          blocked := QueueAt(queues, BLOCKED);
          assert blocked[..k] == kept && blocked[k..] == rest[1..];
        } else {
          assert blocked[..k + 1] == kept + [t];
          k := k + 1;
        }
      }
      assert blocked[..k] == blocked && blocked[k..] == [];
      queues := queues[BLOCKED := blocked];
    }

    method ClkHandler()
      requires AllKnown(View())
      modifies this
      ensures View() == Tick(old(View()))
    {
      ticks := ticks + 1;
      now := now + TICK_NS;
      ClkWakeup();
      if ticks % 2 == 0 { Schedule(); }
    }
  }
}
