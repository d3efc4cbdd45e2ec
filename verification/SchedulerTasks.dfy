/** Whom an exit wakes, who the tasks are over whole runs, and when a tick switches. */
module SchedulerTasks {
  import opened SchedulerSpec
  import opened SchedulerProofs
  import opened SchedulerRuns

  // ----- Whom an exit wakes

  /** The task waits for pid p, or waits for any child and is the parent of a task with parent q. */
  ghost predicate Awaits(task: Task, p: int, q: int) {
    (p > 0 && task.wait == WaitPid(p)) || (task.wait == WaitPid(-1) && task.pid == q)
  }

  /** k is the first place in `waiters` of a task that awaits the current one, or the end if none does. */
  ghost predicate FirstAwaiting(s: Sched, k: nat)
    requires AllKnown(s)
  {
    var w, task := Waiters(s), s.tasks[s.current];
    && k <= |w| && (k < |w| ==> Awaits(s.tasks[w[k]], task.pid, task.parent))
    && forall i :: 0 <= i < k ==> !Awaits(s.tasks[w[i]], task.pid, task.parent)
  }

  lemma {:induction false} FirstWaiterIs(s: Sched, k: nat)
    requires AllKnown(s) && FirstAwaiting(s, k)
    ensures FirstWaiter(Waiters(s), s.tasks, s.tasks[s.current]) == k
  {
    var w, task := Waiters(s), s.tasks[s.current];
    var j := FirstWaiter(w, s.tasks, task);
    assert forall t: Task :: WaitsFor(t, task) <==> Awaits(t, task.pid, task.parent);
  }

  /** Burying the current task changes no pid and no wait. */
  lemma {:induction false} DeadAwaited(s: Sched, status: int, k: nat)
    requires AllKnown(s) && FirstAwaiting(s, k)
    ensures FirstAwaiting(MarkDead(s, status), k) && Waiters(MarkDead(s, status)) == Waiters(s)
  {}

  /** s without the task at place k. */
  function Dropped(s: seq<nat>, k: nat): seq<nat> { if k < |s| then s[..k] + s[k + 1..] else s }

  lemma {:induction false} WakesAtPlace(s: Sched, k: nat)
    requires AllKnown(s) && FirstAwaiting(s, k)
    ensures var r := WakeFirstWaiter(s);
      && Waiters(r) == Dropped(Waiters(s), k) && r.zombies == s.zombies && OnlyStates(s.tasks, r.tasks)
      && (forall t :: t in r.ready <==> t in s.ready || (k < |Waiters(s)| && t == Waiters(s)[k]))
      && (forall t :: t in s.tasks && r.tasks[t] != s.tasks[t] ==> k < |Waiters(s)| && t == Waiters(s)[k])
  {
    FirstWaiterIs(s, k);
  }

  /** schedule() by a task that leaves takes the next one from the front and changes no queue. */
  lemma {:induction false} LeaverGone(s: Sched)
    requires AllKnown(s) && s.ready != [] && s.tasks[s.current].state != RUNNING
    ensures var r := Schedule(s);
      && r.queues == s.queues && r.zombies == s.zombies && OnlyStates(s.tasks, r.tasks)
      && (forall t :: t in r.ready || t == r.current <==> t in s.ready)
      && (forall t :: t in s.tasks && r.tasks[t] != s.tasks[t] ==> t in s.ready)
  {
    assert s.ready == [s.ready[0]] + s.ready[1..];
  }

  /**
   Main result on exits: the exiting task is a zombie with its status, at the end of `zombies`. The
   first waiter that awaits it, by its pid or as its parent, leaves `waiters` and is ready or runs;
   the other waiters stay in order, and nobody else becomes ready.
   */
  lemma {:induction false} ExitWakes(s: Sched, idle: nat, status: int, k: nat)
    requires Inv(s, idle) && s.current != idle && AllKnown(s) && s.tasks[s.current].pid != 0
    requires FirstAwaiting(s, k)
    ensures var r, w := Exit(s, status), Waiters(s);
      && Waiters(r) == (if k < |w| then w[..k] + w[k + 1..] else w)
      && (forall t :: t in r.ready || t == r.current <==> t in s.ready || (k < |w| && t == w[k]))
      && (k < |w| ==> w[k] !in Waiters(r))
      && r.zombies == s.zombies + [s.current] && s.current in r.tasks
      && r.tasks[s.current] == s.tasks[s.current].(state := ZOMBIE, status := status)
  {
    MarkDeadLeaves(s, idle, status);
    var m := MarkDead(s, status);
    DeadAwaited(s, status, k);
    WakeFirstWaiterLeaves(m, idle);
    WakesAtPlace(m, k);
    var a := WakeFirstWaiter(m);
    LeaverGone(a);
    ExitFrame(s, idle, status);
    ExitKeepsInv(s, idle, status);
    if k < |Waiters(s)| { ReadyIsNotWaiting(Exit(s, status), idle, Waiters(s)[k]); }
  }

  /** Neither a ready task nor the current one is in `waiters`. */
  lemma {:induction false} ReadyIsNotWaiting(s: Sched, idle: nat, t: nat)
    requires Inv(s, idle) && (t in s.ready || t == s.current)
    ensures t !in Waiters(s)
  {
    HeldIsUnqueued(s, multiset{s.current}, s.current);
  }

  /** There is always such a place, and only one. */
  lemma {:induction false} FirstAwaitingExists(s: Sched) returns (k: nat)
    requires AllKnown(s)
    ensures FirstAwaiting(s, k) && forall j: nat :: FirstAwaiting(s, j) ==> j == k
  {
    var w, task := Waiters(s), s.tasks[s.current];
    k := 0;
    while k < |w| && !Awaits(s.tasks[w[k]], task.pid, task.parent)
      invariant k <= |w| && forall i :: 0 <= i < k ==> !Awaits(s.tasks[w[i]], task.pid, task.parent)
    {
      k := k + 1;
    }
  }

  // ----- Who sleeps

  /** A task that sleeps waits at the end of the queue with what it waits for, and nobody else moves there. */
  lemma {:induction false} SleepWaits(s: Sched, idle: nat, q: nat, data: WaitData)
    requires Inv(s, idle) && s.current != idle && MaySleep(s, q, data) && AllKnown(s)
    ensures var r := SleepOn(s, q, data);
      && r.current != s.current && s.current in r.tasks
      && r.tasks[s.current] == s.tasks[s.current].(state := WAITING, wait := data)
      && QueueAt(r.queues, q) == QueueAt(s.queues, q) + [s.current]
      && (forall p :: p != q ==> QueueAt(r.queues, p) == QueueAt(s.queues, p))
      && (forall t :: t in r.ready || t == r.current <==> t in s.ready)
  {
    BlockLeaves(s, idle, q, data);
    var b := Block(s, q, data);
    ScheduleSwitches(b, idle);
    LeaverKeepsState(b, idle);
    assert b.ready != [] && b.tasks[b.current].state == WAITING;
    hide Inv, Leaving, Schedule;
    LeaverGone(b);
    BlockQueues(s, q, data);
    hide Block;
  }

  lemma BlockQueues(s: Sched, q: nat, data: WaitData)
    requires AllKnown(s)
    ensures var b := Block(s, q, data);
      && b.current == s.current && b.ready == s.ready
      && b.tasks == s.tasks[s.current := s.tasks[s.current].(state := WAITING, wait := data)]
      && QueueAt(b.queues, q) == QueueAt(s.queues, q) + [s.current]
      && (forall p :: p != q ==> QueueAt(b.queues, p) == QueueAt(s.queues, p))
  {}

  /** clk_nanosleep returns at once exactly when its deadline is not ahead; else its caller sleeps until then. */
  lemma {:induction false} NanosleepSleepsIff(s: Sched, idle: nat, deadline: nat)
    requires Inv(s, idle) && s.current != idle && AllKnown(s)
    ensures var r := Nanosleep(s, deadline);
      && (r.current == s.current <==> deadline <= s.now) && (deadline <= s.now ==> r == s)
      && (s.now < deadline ==>
            Blocked(r) == Blocked(s) + [s.current] && s.current in r.tasks
            && r.tasks[s.current] == s.tasks[s.current].(state := WAITING, wait := WaitUntil(deadline)))
  {
    if s.now < deadline { SleepWaits(s, idle, BLOCKED, WaitUntil(deadline)); }
  }

  // ----- Who a task is

  /** Every task keeps its pid, its parent and its priority, and none disappears. */
  ghost predicate SamePeople(s: Sched, r: Sched) {
    forall t :: t in s.tasks ==>
      && t in r.tasks && r.tasks[t].pid == s.tasks[t].pid
      && r.tasks[t].parent == s.tasks[t].parent && r.tasks[t].prio == s.tasks[t].prio
  }

  /** r is list with t at place k, behind tasks of its priority or a higher one and before lower ones. */
  ghost predicate PlacedAt(list: seq<nat>, tasks: map<nat, Task>, t: nat, prio: int, k: nat, r: seq<nat>)
    requires Known(list, tasks)
  {
    && k <= |list| && r == list[..k] + [t] + list[k..]
    && (forall i :: 0 <= i < k ==> tasks[list[i]].prio >= prio)
    && (forall i :: k <= i < |list| ==> tasks[list[i]].prio < prio)
  }

  /** A new task gets the next pid, the current task as its parent and the given priority, and is ready. */
  lemma {:induction false} NewTask(s: Sched, idle: nat, t: nat, prio: int)
    requires Inv(s, idle) && t !in s.tasks && AllKnown(s)
    ensures var r := QueueNew(s, t, prio);
      && r.tasks.Keys == s.tasks.Keys + {t} && (forall x :: x in s.tasks ==> r.tasks[x] == s.tasks[x])
      && r.tasks[t].pid == s.nextPid && r.tasks[t].parent == s.tasks[s.current].pid && r.tasks[t].prio == prio
      && r.tasks[t].state == READY && r.nextPid == s.nextPid + 1
      && r.current == s.current && r.zombies == s.zombies && r.queues == s.queues
      && exists k: nat :: PlacedAt(s.ready, s.tasks, t, prio, k, r.ready)
  {
    var k := NewPlace(s, idle, t, prio);
    hide PlacedAt, TaskPut;
  }

  lemma {:induction false} NewPlace(s: Sched, idle: nat, t: nat, prio: int) returns (k: nat)
    requires Inv(s, idle) && t !in s.tasks && AllKnown(s)
    ensures PlacedAt(s.ready, s.tasks, t, prio, k, QueueNew(s, t, prio).ready)
  {
    var tasks := QueueNew(s, t, prio).tasks;
    SortedSame(s.ready, s.tasks, tasks);
    k := PutPosition(s.ready, tasks, t);
  }

  lemma {:induction false} ScheduleNames(s: Sched)
    requires AllKnown(s)
    ensures SamePeople(s, Schedule(s)) && Schedule(s).tasks.Keys == s.tasks.Keys && Schedule(s).nextPid == s.nextPid
  {}

  lemma {:induction false} WakeExpiredNames(s: Sched, kept: seq<nat>, sleepers: seq<nat>)
    requires AllKnown(s) && Known(sleepers, s.tasks) && Known(kept, s.tasks)
    ensures WakeExpired(s, kept, sleepers).nextPid == s.nextPid
    decreases |sleepers|
  {
    if sleepers != [] {
      var t, rest := sleepers[0], sleepers[1..];
      assert forall x :: x in rest ==> x in sleepers;
      if Expired(s.tasks[t], s.now) {
        WakeExpiredNames(WakeUp(SetQueue(s, BLOCKED, kept + rest), t), kept, rest);
      } else {
        WakeExpiredNames(s, kept + [t], rest);
      }
    }
  }

  lemma {:induction false} TickNames(s: Sched)
    requires AllKnown(s)
    ensures SamePeople(s, Tick(s)) && Tick(s).tasks.Keys == s.tasks.Keys && Tick(s).nextPid == s.nextPid
  {
    var c := Count(s);
    WakeExpiredNames(c, [], Blocked(c));
    WakeSleepersIsExact(c);
    ScheduleNames(WakeSleepers(c));
  }

  lemma {:induction false} ExitNames(s: Sched, status: int)
    requires AllKnown(s)
    ensures SamePeople(s, Exit(s, status)) && Exit(s, status).tasks.Keys == s.tasks.Keys
    ensures Exit(s, status).nextPid == s.nextPid
  {
    if s.tasks[s.current].pid != 0 {
      var m := MarkDead(s, status);
      var k := FirstAwaitingExists(m);
      WakesAtPlace(m, k);
      ScheduleNames(WakeFirstWaiter(m));
    }
  }

  /** No operation but the creation of a task changes who the tasks are or the next pid. */
  lemma {:induction false} StepNames(s: Sched, idle: nat, op: Op)
    requires AllKnown(s) && Legal(s, idle, op)
    ensures SamePeople(s, Step(s, op))
    ensures !op.CallQueueNew? ==> Step(s, op).nextPid == s.nextPid && Step(s, op).tasks.Keys == s.tasks.Keys
  {
    match op {
      case CallSchedule => ScheduleNames(s);
      case CallQueueNew(_, _) =>
      case CallExit(status) => ExitNames(s, status);
      case CallSleepOn(q, data) => ScheduleNames(Block(s, q, data));
      case CallWake(q, k) =>
      case CallNanosleep(deadline) => ScheduleNames(Block(s, BLOCKED, WaitUntil(deadline)));
      case ClockTick => TickNames(s);
    }
  }

  /** Pids are handed out in order and never twice. */
  ghost predicate PidsDiffer(s: Sched) {
    && (forall t :: t in s.tasks ==> 0 <= s.tasks[t].pid < s.nextPid)
    && (forall t, u :: t in s.tasks && u in s.tasks && s.tasks[t].pid == s.tasks[u].pid ==> t == u)
  }

  lemma {:induction false} StepKeepsPids(s: Sched, idle: nat, op: Op)
    requires AllKnown(s) && Legal(s, idle, op) && PidsDiffer(s)
    ensures PidsDiffer(Step(s, op)) && Step(s, op).nextPid >= s.nextPid
  {
    StepNames(s, idle, op);
    var r := Step(s, op);
    if op.CallQueueNew? {
      assert r.tasks == s.tasks[op.task := r.tasks[op.task]] && r.tasks[op.task].pid == s.nextPid;
    }
  }

  /**
   Over every run from boot, no two tasks ever have the same pid, and a task has its pid, its parent
   and its priority for good.
   */
  lemma {:induction false} PidsAreUnique(s: Sched, idle: nat, ops: seq<Op>, s': Sched)
    requires Inv(s, idle) && PidsDiffer(s) && Reaches(s, idle, ops, s')
    ensures PidsDiffer(s') && SamePeople(s, s')
    decreases |ops|
  {
    if ops != [] {
      StepKeepsInv(s, idle, ops[0]);
      StepNames(s, idle, ops[0]);
      StepKeepsPids(s, idle, ops[0]);
      PidsAreUnique(Step(s, ops[0]), idle, ops[1..], s');
    }
  }

  lemma BootPids(main: nat, idle: nat)
    requires main != idle
    ensures var s := Boot(main, idle);
      && PidsDiffer(s) && main in s.tasks && idle in s.tasks && s.tasks[main].pid == 0 && s.tasks[idle].pid == 1
  {}

  lemma {:induction false} EveryRunHasUniquePids(main: nat, idle: nat, ops: seq<Op>, s: Sched)
    requires main != idle && Reaches(Boot(main, idle), idle, ops, s)
    ensures forall t, u :: t in s.tasks && u in s.tasks && s.tasks[t].pid == s.tasks[u].pid ==> t == u
    ensures main in s.tasks && s.tasks[main].pid == 0 && idle in s.tasks && s.tasks[idle].pid == 1
  {
    BootIsGood(main, idle);
    BootPids(main, idle);
    hide Reaches;
    hide Inv;
    hide Boot;
    PidsAreUnique(Boot(main, idle), idle, ops, s);
  }

  // ----- The tick

  /** Ready, or asleep with a deadline that the next tick reaches. */
  ghost predicate ReadyAtTick(s: Sched, t: nat) {
    t in s.ready || (t in Blocked(s) && t in s.tasks && s.tasks[t].wait.WaitUntil?
                     && s.tasks[t].wait.deadline <= s.now + 10_000_000)
  }

  /** Whom the tick makes ready before it switches. */
  lemma {:induction false} TickReadies(s: Sched)
    requires AllKnown(s)
    ensures var w := WakeSleepers(Count(s));
      && w.current == s.current && OnlyStates(s.tasks, w.tasks)
      && w.ticks == s.ticks + 1 && w.now == s.now + 10_000_000
      && forall t :: t in w.ready <==> ReadyAtTick(s, t)
  {
    WakeSleepersIsExact(Count(s));
    hide WakeSleepers;
    assert Blocked(Count(s)) == Blocked(s);
  }

  lemma TickParity(s: Sched)
    requires AllKnown(s)
    ensures Tick(s) == var w := WakeSleepers(Count(s)); if s.ticks % 2 == 1 then Schedule(w) else w
  {
    hide WakeSleepers, Schedule;
  }

  /**
   A tick is 10 ms. Every second one switches, to a task of highest priority among the ready ones and
   those it wakes; the others leave the running task alone.
   */
  lemma {:induction false} TickSwitches(s: Sched, idle: nat)
    requires Inv(s, idle) && AllKnown(s)
    ensures var r := Tick(s);
      && r.ticks == s.ticks + 1 && r.now == s.now + 10_000_000
      && (s.ticks % 2 == 0 ==> r.current == s.current && forall t :: t in r.ready <==> ReadyAtTick(s, t))
      && (s.ticks % 2 == 1 && (forall t :: !ReadyAtTick(s, t)) ==> r.current == s.current)
    ensures forall t :: s.ticks % 2 == 1 && ReadyAtTick(s, t) ==>
      var next := Tick(s).current;
      ReadyAtTick(s, next) && t in s.tasks && next in s.tasks && s.tasks[t].prio <= s.tasks[next].prio
  {
    TickReadies(s);
    TickParity(s);
    TickKeepsInv(s, idle);
    var w := WakeSleepers(Count(s));
    hide Tick, ReadyAtTick, WakeSleepers, Count;
    ScheduleFrame(w);
    if s.ticks % 2 == 1 {
      forall t | ReadyAtTick(s, t)
        ensures var next := Tick(s).current;
          ReadyAtTick(s, next) && t in s.tasks && next in s.tasks && s.tasks[t].prio <= s.tasks[next].prio
      {
        SchedulePicksHighest(w, idle, t);
      }
      NothingReady(w);
    }
  }

  lemma NothingReady(s: Sched)
    requires AllKnown(s)
    ensures (forall t :: t !in s.ready) ==> Schedule(s).current == s.current
  {
    if s.ready != [] { assert s.ready[0] in s.ready; }
  }
}
