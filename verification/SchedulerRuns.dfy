/** The clock's sleep queue, fairness among equals, and safety over whole runs of the scheduler. */
module SchedulerRuns {
  import opened SchedulerSpec
  import opened SchedulerProofs

  // ----- The tick

  /** The sleepers whose deadline is not reached, in order. */
  function StillAsleep(list: seq<nat>, tasks: map<nat, Task>, now: nat): seq<nat>
    requires Known(list, tasks)
  {
    if list == [] then []
    else (if Expired(tasks[list[0]], now) then [] else [list[0]]) + StillAsleep(list[1..], tasks, now)
  }

  /** Nothing but states differ. */
  ghost predicate OnlyStates(tasks: map<nat, Task>, tasks': map<nat, Task>) {
    tasks'.Keys == tasks.Keys && forall t :: t in tasks ==> tasks'[t] == tasks[t].(state := tasks'[t].state)
  }

  lemma {:induction false} StillAsleepSame(list: seq<nat>, tasks: map<nat, Task>, tasks': map<nat, Task>, now: nat)
    requires Known(list, tasks) && OnlyStates(tasks, tasks')
    ensures StillAsleep(list, tasks', now) == StillAsleep(list, tasks, now)
  {
    if list != [] {
      assert list[0] in list;
      StillAsleepSame(list[1..], tasks, tasks', now);
    }
  }

  lemma {:induction false} StillAsleepMembers(list: seq<nat>, tasks: map<nat, Task>, now: nat, t: nat)
    requires Known(list, tasks)
    ensures t in StillAsleep(list, tasks, now) <==> t in list && !Expired(tasks[t], now)
  {
    if list != [] {
      assert list == [list[0]] + list[1..];
      StillAsleepMembers(list[1..], tasks, now, t);
    }
  }

  ghost predicate Timed(list: seq<nat>, tasks: map<nat, Task>) {
    forall t :: t in list ==> t in tasks && tasks[t].wait.WaitUntil?
  }

  /** The scheduler between two steps, deadlines aside. */
  ghost predicate Awake(s: Sched, idle: nat) {
    Shape(s, multiset{s.current}) && s.tasks[s.current].state == RUNNING && (idle == s.current || idle in s.ready)
  }

  /** Taking one sleeper off the queue and waking it. */
  lemma {:induction false} WakeOneKeeps(s: Sched, idle: nat, kept: seq<nat>, sleepers: seq<nat>)
    requires Awake(s, idle) && Blocked(s) == kept + sleepers && sleepers != []
    ensures var s1 := SetQueue(s, BLOCKED, kept + sleepers[1..]);
      AllKnown(s1) && sleepers[0] in s.tasks && Awake(WakeUp(s1, sleepers[0]), idle)
  {
    var t, k := sleepers[0], |kept|;
    assert Blocked(s)[k] == t && Blocked(s)[..k] == kept && Blocked(s)[k + 1..] == sleepers[1..];
    TakeOff(s, multiset{s.current}, BLOCKED, k);
    WakeUpKeepsShape(SetQueue(s, BLOCKED, kept + sleepers[1..]), multiset{s.current}, t);
    assert t in Blocked(s);
  }

  lemma {:induction false} WakeExpiredKeeps(s: Sched, idle: nat, kept: seq<nat>, sleepers: seq<nat>)
    requires Awake(s, idle) && Blocked(s) == kept + sleepers
    requires AllKnown(s) && Known(sleepers, s.tasks) && Known(kept, s.tasks)
    ensures Awake(WakeExpired(s, kept, sleepers), idle)
    decreases |sleepers|
  {
    if sleepers == [] {
      assert Blocked(s) == kept;
      SameQueue(s, idle);
    } else if Expired(s.tasks[sleepers[0]], s.now) {
      assert forall t :: t in sleepers[1..] ==> t in sleepers;
      WakeOneKeeps(s, idle, kept, sleepers);
      WakeExpiredKeeps(WakeUp(SetQueue(s, BLOCKED, kept + sleepers[1..]), sleepers[0]), idle, kept, sleepers[1..]);
    } else {
      assert forall t :: t in sleepers[1..] ==> t in sleepers;
      assert kept + sleepers == kept + [sleepers[0]] + sleepers[1..];
      WakeExpiredKeeps(s, idle, kept + [sleepers[0]], sleepers[1..]);
    }
  }

  /** Writing a queue back unchanged. */
  lemma {:induction false} SameQueue(s: Sched, idle: nat)
    requires Awake(s, idle)
    ensures Awake(SetQueue(s, BLOCKED, Blocked(s)), idle)
  {
    TotalSet(s.queues, BLOCKED, Blocked(s));
    Cancel(Total(s.queues[BLOCKED := Blocked(s)]), Total(s.queues), multiset(Blocked(s)));
  }

  lemma WakeUpFrame(s: Sched, t: nat)
    requires AllKnown(s) && t in s.tasks
    ensures var r := WakeUp(s, t);
            OnlyStates(s.tasks, r.tasks) && r.current == s.current && r.now == s.now && Blocked(r) == Blocked(s)
            && (forall x :: x in r.ready <==> x in s.ready || x == t)
  {}

  /** clk_wakeup takes exactly the expired sleepers off the queue and makes them ready. */
  lemma {:induction false} WakeExpiredIsExact(s: Sched, kept: seq<nat>, sleepers: seq<nat>)
    requires AllKnown(s) && Known(sleepers, s.tasks) && Known(kept, s.tasks)
    ensures var r := WakeExpired(s, kept, sleepers);
            && OnlyStates(s.tasks, r.tasks) && r.current == s.current
            && Blocked(r) == kept + StillAsleep(sleepers, s.tasks, s.now)
            && (forall t :: t in r.ready <==> t in s.ready || (t in sleepers && Expired(s.tasks[t], s.now)))
    decreases |sleepers|
  {
    if sleepers != [] {
      var t, rest := sleepers[0], sleepers[1..];
      assert sleepers == [t] + rest;
      if Expired(s.tasks[t], s.now) {
        var s1 := SetQueue(s, BLOCKED, kept + rest);
        assert AllKnown(s1);
        WakeUpFrame(s1, t);
        var s2 := WakeUp(s1, t);
        WakeExpiredIsExact(s2, kept, rest);
        StillAsleepSame(rest, s.tasks, s2.tasks, s.now);
        assert StillAsleep(sleepers, s.tasks, s.now) == StillAsleep(rest, s.tasks, s.now);
      } else {
        WakeExpiredIsExact(s, kept + [t], rest);
        assert kept + [t] + StillAsleep(rest, s.tasks, s.now) == kept + ([t] + StillAsleep(rest, s.tasks, s.now));
      }
    }
  }

  lemma ScheduleFrame(s: Sched)
    requires AllKnown(s)
    ensures var r := Schedule(s);
            OnlyStates(s.tasks, r.tasks) && Blocked(r) == Blocked(s) && r.now == s.now && r.ticks == s.ticks
            && (s.tasks[s.current].state == RUNNING ==>
                  forall t :: t in r.ready || t == r.current <==> t in s.ready || t == s.current)
  {
    if s.ready != [] { assert s.ready == [s.ready[0]] + s.ready[1..]; }
  }

  lemma CountKeepsAwake(s: Sched, idle: nat)
    requires Inv(s, idle)
    ensures AllKnown(s) && Awake(Count(s), idle) && Timed(Blocked(s), s.tasks)
  {
    ShapeIsKnown(s, multiset{s.current});
  }

  lemma WakeSleepersKeeps(s: Sched, idle: nat)
    requires AllKnown(s) && Awake(s, idle) && Timed(Blocked(s), s.tasks)
    ensures Inv(WakeSleepers(s), idle)
  {
    assert [] + Blocked(s) == Blocked(s);
    WakeExpiredKeeps(s, idle, [], Blocked(s));
    WakeSleepersIsExact(s);
    var r := WakeSleepers(s);
    forall t | t in Blocked(r) ensures t in r.tasks && r.tasks[t].wait.WaitUntil? && r.now < r.tasks[t].wait.deadline {
      StillAsleepMembers(Blocked(s), s.tasks, s.now, t);
    }
  }

  lemma WakeSleepersIsExact(s: Sched)
    requires AllKnown(s)
    ensures var r := WakeSleepers(s);
            && OnlyStates(s.tasks, r.tasks) && r.current == s.current
            && Blocked(r) == StillAsleep(Blocked(s), s.tasks, s.now)
            && (forall t :: t in r.ready <==> t in s.ready || (t in Blocked(s) && Expired(s.tasks[t], s.now)))
  {
    WakeExpiredIsExact(s, [], Blocked(s));
    assert [] + StillAsleep(Blocked(s), s.tasks, s.now) == StillAsleep(Blocked(s), s.tasks, s.now);
  }

  /** After the clock moves on, every sleeper that stays has its deadline ahead. */
  lemma TickKeepsInv(s: Sched, idle: nat)
    requires Inv(s, idle)
    ensures AllKnown(s) && Inv(WakeSleepers(Count(s)), idle) && Inv(Tick(s), idle)
  {
    CountKeepsAwake(s, idle);
    WakeSleepersKeeps(Count(s), idle);
    ScheduleKeepsInv(WakeSleepers(Count(s)), idle);
  }

  lemma TickFrame(s: Sched, idle: nat)
    requires Inv(s, idle)
    ensures AllKnown(s)
    ensures var w, r := WakeSleepers(Count(s)), Tick(s);
            Blocked(r) == Blocked(w) && r.now == s.now + TICK_NS && OnlyStates(w.tasks, r.tasks)
            && forall t :: t in w.ready ==> t in r.ready || t == r.current
  {
    TickKeepsInv(s, idle);
    ScheduleFrame(WakeSleepers(Count(s)));
  }

  /**
   Main result on sleeping: a tick takes a sleeper off the queue exactly when its deadline is
   reached, which then lies within the tick just counted; the others stay in order, and whoever was
   taken off is ready or running.
   */
  lemma TickWakesOnTime(s: Sched, idle: nat, t: nat)
    requires Inv(s, idle) && t in Blocked(s)
    ensures AllKnown(s) && Blocked(Tick(s)) == StillAsleep(Blocked(s), s.tasks, s.now + 10_000_000)
    ensures t !in Blocked(Tick(s)) <==> s.tasks[t].wait.deadline <= Tick(s).now
    ensures t !in Blocked(Tick(s)) ==>
              Tick(s).now - 10_000_000 < s.tasks[t].wait.deadline && (t in Tick(s).ready || t == Tick(s).current)
  {
    TickFrame(s, idle);
    WakeSleepersIsExact(Count(s));
    StillAsleepMembers(Blocked(s), s.tasks, s.now + TICK_NS, t);
  }

  // ----- Priorities and turns

  /** schedule() runs a ready task of highest priority. */
  lemma SchedulePicksHighest(s: Sched, idle: nat, t: nat)
    requires Inv(s, idle) && t in s.ready
    ensures AllKnown(s) && Schedule(s).current in s.ready
    ensures s.tasks[t].prio <= s.tasks[Schedule(s).current].prio
  {
    var i :| 0 <= i < |s.ready| && s.ready[i] == t;
  }

  /** State i + 1 of t is what schedule() makes of state i. */
  ghost predicate TurnAt(t: seq<Sched>, i: nat)
    requires i + 1 < |t|
  {
    AllKnown(t[i]) && t[i + 1] == Schedule(t[i])
  }

  /** t is a run of schedule() calls. */
  ghost predicate Turns(t: seq<Sched>) { |t| > 0 && forall i: nat :: i + 1 < |t| ==> TurnAt(t, i) }

  lemma TwiceCounts(r: seq<nat>, i: nat, j: nat)
    requires i < j < |r| && r[i] == r[j]
    ensures multiset(r)[r[i]] >= 2
  {
    assert r == r[..i] + [r[i]] + r[i + 1..j] + [r[j]] + r[j + 1..];
  }

  lemma ReadyIsDistinct(s: Sched, idle: nat, i: nat, j: nat)
    requires Inv(s, idle) && i < j < |s.ready|
    ensures s.ready[i] != s.ready[j]
  {
    assert (Queued(s) + multiset{s.current})[s.ready[i]] == multiset(s.tasks.Keys)[s.ready[i]] <= 1;
    if s.ready[i] == s.ready[j] {
      TwiceCounts(s.ready, i, j);
      assert false;
    }
  }

  lemma {:induction false} NotReady(s: Sched, idle: nat, k: nat)
    requires Inv(s, idle) && k < |s.ready|
    ensures s.current != s.ready[k]
  {
    HeldIsUnqueued(s, multiset{s.current}, s.current);
  }

  lemma {:induction false} PutBehindEquals(list: seq<nat>, tasks: map<nat, Task>, t: nat, k: nat)
    requires Known(list, tasks) && Sorted(list, tasks) && t in tasks && k <= |list|
    requires forall i :: 0 <= i < k ==> tasks[list[i]].prio >= tasks[t].prio
    ensures k <= |TaskPut(list, tasks, t)| && TaskPut(list, tasks, t)[..k] == list[..k]
  {
    var p := PutPosition(list, tasks, t);
    var at := if p < |list| then list[p] else t;
    assert p >= k;
    assert (list[..p] + [t] + list[p..])[..k] == list[..k];
  }

  ghost predicate EqualUpTo(s: Sched, k: nat) {
    AllKnown(s) && k < |s.ready| && forall i :: 0 <= i <= k ==> s.tasks[s.ready[i]].prio == s.tasks[s.current].prio
  }

  /** task_put of the running task behind k equals leaves them where they are. */
  lemma {:induction false} PutBehind(ready: seq<nat>, tasks: map<nat, Task>, prev: nat, k: nat)
    requires k < |ready| && prev in tasks && Known(ready, tasks) && Sorted(ready, tasks)
    requires forall i :: 0 <= i <= k ==> tasks[ready[i]].prio == tasks[prev].prio
    ensures Known(ready[1..], SetState(tasks, prev, READY))
    ensures var r := TaskPut(ready[1..], SetState(tasks, prev, READY), prev); k <= |r| && r[..k] == ready[1..k + 1]
  {
    var rest, tasks' := ready[1..], SetState(tasks, prev, READY);
    TailSorted(ready, tasks);
    SortedSame(rest, tasks, tasks');
    forall i | 0 <= i < k ensures tasks'[rest[i]].prio >= tasks'[prev].prio { assert rest[i] == ready[i + 1]; }
    PutBehindEquals(rest, tasks', prev, k);
    assert rest[..k] == ready[1..k + 1];
  }

  /** One schedule() moves the tasks of the running priority one place forward. */
  lemma {:induction false} TurnShifts(s: Sched, k: nat)
    requires EqualUpTo(s, k) && Sorted(s.ready, s.tasks) && s.tasks[s.current].state == RUNNING
    ensures var r := Schedule(s);
            r.current == s.ready[0] && k <= |r.ready| && r.ready[..k] == s.ready[1..k + 1]
  {
    PutBehind(s.ready, s.tasks, s.current, k);
  }

  /** The first k + 1 ready tasks have the priority of the running one. */
  ghost predicate InTurn(s: Sched, k: nat) {
    EqualUpTo(s, k) && Sorted(s.ready, s.tasks) && s.tasks[s.current].state == RUNNING
  }

  lemma {:induction false} ScheduleKeepsSorted(s: Sched)
    requires AllKnown(s) && s.ready != [] && Sorted(s.ready, s.tasks) && s.tasks[s.current].state == RUNNING
    ensures var r := Schedule(s); Sorted(r.ready, r.tasks) && r.tasks[r.current].state == RUNNING
  {
    var rest := s.ready[1..];
    TailSorted(s.ready, s.tasks);
    var tasks := SetState(s.tasks, s.current, READY);
    SortedSame(rest, s.tasks, tasks);
    PutKeepsSorted(rest, tasks, s.current);
    SortedSame(TaskPut(rest, tasks, s.current), tasks, SetState(tasks, s.ready[0], RUNNING));
  }

  lemma {:induction false} TurnStep(s: Sched, k: nat) returns (r: Sched)
    requires InTurn(s, k) && k > 0
    ensures r == Schedule(s) && InTurn(r, k - 1) && r.ready[k - 1] == s.ready[k]
  {
    r := Schedule(s);
    TurnShifts(s, k);
    ScheduleFrame(s);
    ScheduleKeepsSorted(s);
    forall i | 0 <= i <= k - 1 ensures r.ready[i] == s.ready[i + 1] { assert r.ready[i] == r.ready[..k][i]; }
  }

  lemma {:induction false} NextTurn(t: seq<Sched>, i: nat, k: nat)
    requires Turns(t) && i + 1 < |t| && InTurn(t[i], k)
    ensures k == 0 ==> t[i + 1].current == t[i].ready[0]
    ensures k > 0 ==> InTurn(t[i + 1], k - 1) && t[i + 1].ready[k - 1] == t[i].ready[k]
  {
    assert TurnAt(t, i);
    if k > 0 {
      var r := TurnStep(t[i], k);
    } else {
      TurnShifts(t[i], 0);
    }
  }

  /** Among equals the task at position k gets its turn at the (k+1)-th schedule(). */
  lemma {:induction false} TurnComes(t: seq<Sched>, k: nat)
    requires Turns(t) && k + 1 < |t| && InTurn(t[0], k)
    ensures t[k + 1].current == t[0].ready[k]
  {
    var i := 0;
    while i < k
      invariant 0 <= i <= k && InTurn(t[i], k - i) && t[i].ready[k - i] == t[0].ready[k]
    {
      NextTurn(t, i, k - i);
      i := i + 1;
    }
    NextTurn(t, k, 0);
  }

  /** ... and not before. */
  lemma {:induction false} TurnComesExactly(t: seq<Sched>, idle: nat, k: nat, n: nat)
    requires Turns(t) && k + 1 < |t| && n <= k + 1 && Inv(t[0], idle) && InTurn(t[0], k)
    ensures t[n].current == t[0].ready[k] <==> n == k + 1
  {
    if n == 0 {
      NotReady(t[0], idle, k);
    } else {
      TurnComes(t, n - 1);
      if n <= k { ReadyIsDistinct(t[0], idle, n - 1, k); }
    }
  }

  // ----- Runs

  datatype Op =
    | CallSchedule
    | CallQueueNew(task: nat, prio: int)
    | CallExit(status: int)
    | CallSleepOn(queue: nat, data: WaitData)
    | CallWake(queue: nat, k: nat)       // list_delete of the k-th task and scheduler_wake_up
    | CallNanosleep(deadline: nat)
    | ClockTick

  /**
   New tasks get memory not in use, and the idle thread neither blocks nor exits. Only the clock puts
   tasks on its own list and takes them off, and only scheduler_wait, with a pid, uses `waiters`.
   */
  predicate Legal(s: Sched, idle: nat, op: Op) {
    match op
    case CallQueueNew(t, _) => t !in s.tasks
    case CallExit(_) => s.current != idle
    case CallSleepOn(q, data) => s.current != idle && q != BLOCKED && (q == WAITERS ==> data.WaitPid?)
    case CallWake(q, k) => q != BLOCKED && k < |QueueAt(s.queues, q)|
    case CallNanosleep(_) => s.current != idle
    case _ => true
  }

  function Step(s: Sched, op: Op): (r: Sched)
    requires AllKnown(s) && (op.CallWake? ==> op.k < |QueueAt(s.queues, op.queue)|)
    ensures AllKnown(r)
  {
    match op
    case CallSchedule => Schedule(s)
    case CallQueueNew(t, prio) => QueueNew(s, t, prio)
    case CallExit(status) => Exit(s, status)
    case CallSleepOn(q, data) => SleepOn(s, q, data)
    case CallWake(q, k) => WakeAt(s, q, k)
    case CallNanosleep(deadline) => Nanosleep(s, deadline)
    case ClockTick => Tick(s)
  }

  /** After scheduler_initialize and kthread_initialize: the boot task runs and the idle thread is ready. */
  function Boot(main: nat, idle: nat): Sched
    requires main != idle
  {
    Sched(map[main := Task(0, -1, 0, RUNNING, 0, NoWait), idle := Task(1, 0, -32767, READY, 0, NoWait)],
          main, [idle], [], map[WAITERS := [], BLOCKED := []], 2, 0, 0)
  }

  lemma {:induction false} BootIsGood(main: nat, idle: nat)
    requires main != idle
    ensures Inv(Boot(main, idle), idle)
  {
    var s := Boot(main, idle);
    assert s.tasks.Keys == {main, idle};
    EmptyTotal(s.queues);
  }

  /** A queue and what may be waited for on it. */
  predicate MaySleep(s: Sched, q: nat, data: WaitData) {
    q != NULL && (q == BLOCKED ==> data.WaitUntil? && s.now < data.deadline)
  }

  lemma {:induction false} SleepKeepsInv(s: Sched, idle: nat, q: nat, data: WaitData)
    requires Inv(s, idle) && s.current != idle && MaySleep(s, q, data)
    ensures AllKnown(s) && Inv(SleepOn(s, q, data), idle) && SleepOn(s, q, data).current != s.current
  {
    BlockLeaves(s, idle, q, data);
    ScheduleSwitches(Block(s, q, data), idle);
  }

  lemma ExitKeepsInv(s: Sched, idle: nat, status: int)
    requires Inv(s, idle) && s.current != idle
    ensures AllKnown(s) && Inv(Exit(s, status), idle)
    ensures s.tasks[s.current].pid != 0 ==> Exit(s, status).current != s.current
  {
    MarkDeadLeaves(s, idle, status);
    WakeFirstWaiterLeaves(MarkDead(s, status), idle);
    ScheduleSwitches(WakeFirstWaiter(MarkDead(s, status)), idle);
  }

  lemma StepKeepsInv(s: Sched, idle: nat, op: Op)
    requires Inv(s, idle) && Legal(s, idle, op)
    ensures AllKnown(s) && Inv(Step(s, op), idle)
  {
    ShapeIsKnown(s, multiset{s.current});
    match op {
      case CallSchedule => ScheduleKeepsInv(s, idle);
      case CallQueueNew(t, prio) => QueueNewKeepsInv(s, idle, t, prio);
      case CallExit(status) => ExitKeepsInv(s, idle, status);
      case CallSleepOn(q, data) => if q != NULL { SleepKeepsInv(s, idle, q, data); }
      case CallWake(q, k) => WakeKeepsInv(s, idle, q, k);
      case CallNanosleep(deadline) => if s.now < deadline { SleepKeepsInv(s, idle, BLOCKED, WaitUntil(deadline)); }
      case ClockTick => TickKeepsInv(s, idle);
    }
  }

  ghost predicate Reaches(s: Sched, idle: nat, ops: seq<Op>, s': Sched)
    decreases |ops|
  {
    if ops == [] then s' == s
    else AllKnown(s) && Legal(s, idle, ops[0]) && Reaches(Step(s, ops[0]), idle, ops[1..], s')
  }

  lemma {:induction false} RunKeepsInv(s: Sched, idle: nat, ops: seq<Op>, s': Sched)
    requires Inv(s, idle) && Reaches(s, idle, ops, s')
    ensures Inv(s', idle)
    decreases |ops|
  {
    if ops != [] {
      StepKeepsInv(s, idle, ops[0]);
      RunKeepsInv(Step(s, ops[0]), idle, ops[1..], s');
    }
  }

  /**
   Safety of every run: each task is in one place that its state names, ready is sorted, nobody
   sleeps past its deadline, and only the idle thread ever runs with nothing ready.
   */
  lemma {:induction false} EveryRunIsSafe(main: nat, idle: nat, ops: seq<Op>, s: Sched)
    requires main != idle && Reaches(Boot(main, idle), idle, ops, s)
    ensures Inv(s, idle)
    ensures s.ready == [] ==> s.current == idle
    ensures forall t :: t in Blocked(s) ==> s.now < s.tasks[t].wait.deadline
  {
    BootIsGood(main, idle);
    RunKeepsInv(Boot(main, idle), idle, ops, s);
  }

  /** In any reachable state, blocking or exiting gives the processor away. */
  lemma LeavingSwitches(s: Sched, idle: nat, op: Op)
    requires Inv(s, idle) && Legal(s, idle, op)
    requires (op.CallSleepOn? && op.queue != NULL) || (op.CallNanosleep? && s.now < op.deadline)
          || (op.CallExit? && s.tasks[s.current].pid != 0)
    ensures AllKnown(s) && Step(s, op).current != s.current
    ensures var t := s.current;
            && Step(s, op).tasks.Keys == s.tasks.Keys
            && Step(s, op).tasks[t].state == if op.CallExit? then ZOMBIE else WAITING
  {
    match op {
      case CallSleepOn(q, data) =>
        SleepKeepsInv(s, idle, q, data);
        SleepFrame(s, idle, q, data);
      case CallNanosleep(deadline) =>
        SleepKeepsInv(s, idle, BLOCKED, WaitUntil(deadline));
        SleepFrame(s, idle, BLOCKED, WaitUntil(deadline));
      case CallExit(status) =>
        ExitKeepsInv(s, idle, status);
        ExitFrame(s, idle, status);
    }
  }

  lemma {:induction false} SleepFrame(s: Sched, idle: nat, q: nat, data: WaitData)
    requires Inv(s, idle) && s.current != idle && MaySleep(s, q, data)
    ensures AllKnown(s)
    ensures var r := SleepOn(s, q, data);
            r.tasks.Keys == s.tasks.Keys && r.tasks[s.current].state == WAITING && r.now == s.now
            && Blocked(r) == Blocked(s) + (if q == BLOCKED then [s.current] else [])
            && forall t :: t in s.tasks && t != s.current ==> r.tasks[t].wait == s.tasks[t].wait
  {
    BlockLeaves(s, idle, q, data);
    BlockFrame(s, q, data);
    ScheduleSwitches(Block(s, q, data), idle);
    ScheduleFrame(Block(s, q, data));
    LeaverKeepsState(Block(s, q, data), idle);
  }

  lemma {:induction false} BlockFrame(s: Sched, q: nat, data: WaitData)
    requires AllKnown(s)
    ensures var r := Block(s, q, data);
      && r.tasks == s.tasks[s.current := s.tasks[s.current].(state := WAITING, wait := data)]
      && r.tasks.Keys == s.tasks.Keys && r.now == s.now && r.current == s.current
      && Blocked(r) == Blocked(s) + (if q == BLOCKED then [s.current] else [])
  {
    assert Blocked(s) + [] == Blocked(s);
  }

  /** The task that gives up the processor keeps the state it gave itself. */
  lemma {:induction false} LeaverKeepsState(s: Sched, idle: nat)
    requires Leaving(s, idle)
    ensures AllKnown(s) && s.current in Schedule(s).tasks
    ensures Schedule(s).tasks[s.current].state == s.tasks[s.current].state
  {
    ScheduleSwitches(s, idle);
  }

  lemma {:induction false} WakeFrame(s: Sched, q: nat, k: nat)
    requires AllKnown(s) && q != BLOCKED && k < |QueueAt(s.queues, q)|
    ensures var r := WakeAt(s, q, k); OnlyStates(s.tasks, r.tasks) && r.now == s.now && Blocked(r) == Blocked(s)
  {}

  lemma {:induction false} ExitFrame(s: Sched, idle: nat, status: int)
    requires Inv(s, idle) && s.current != idle && s.tasks[s.current].pid != 0
    ensures AllKnown(s)
    ensures var r := Exit(s, status);
            r.tasks.Keys == s.tasks.Keys && r.tasks[s.current].state == ZOMBIE && r.now == s.now
            && Blocked(r) == Blocked(s) && forall t :: t in s.tasks ==> r.tasks[t].wait == s.tasks[t].wait
  {
    MarkDeadLeaves(s, idle, status);
    var m := MarkDead(s, status);
    WakeFirstWaiterLeaves(m, idle);
    var w := WakeFirstWaiter(m);
    WakeFirstWaiterFrame(m, idle);
    ScheduleFrame(w);
    LeaverKeepsState(w, idle);
  }

  lemma WakeFirstWaiterFrame(s: Sched, idle: nat)
    requires Leaving(s, idle) && s.tasks[s.current].state == ZOMBIE
    ensures AllKnown(s)
    ensures var r := WakeFirstWaiter(s);
            && OnlyStates(s.tasks, r.tasks) && r.tasks[s.current].state == ZOMBIE
            && r.now == s.now && Blocked(r) == Blocked(s)
  {
    ShapeIsKnown(s, multiset{});
    var k := FirstWaiter(Waiters(s), s.tasks, s.tasks[s.current]);
    if k < |Waiters(s)| {
      assert Waiters(s)[k] in Waiters(s);
      WakeFrame(s, WAITERS, k);
    }
  }

  /** No step moves time back, and none but a tick takes a task off the sleep queue. */
  lemma StepAndSleepers(s: Sched, idle: nat, op: Op, t: nat)
    requires Inv(s, idle) && Legal(s, idle, op) && t in Blocked(s)
    ensures AllKnown(s) && Step(s, op).now >= s.now
    ensures Step(s, op).now < s.tasks[t].wait.deadline ==>
              t in Blocked(Step(s, op)) && t in Step(s, op).tasks && Step(s, op).tasks[t].wait == s.tasks[t].wait
  {
    StepKeepsInv(s, idle, op);
    HeldIsUnqueued(s, multiset{s.current}, s.current);
    match op {
      case CallSchedule => ScheduleFrame(s);
      case CallQueueNew(_, _) =>
      case CallExit(status) => if s.tasks[s.current].pid != 0 { ExitFrame(s, idle, status); }
      case CallSleepOn(q, data) => if q != NULL { SleepFrame(s, idle, q, data); }
      case CallWake(q, k) => WakeFrame(s, q, k);
      case CallNanosleep(deadline) => if s.now < deadline { SleepFrame(s, idle, BLOCKED, WaitUntil(deadline)); }
      case ClockTick =>
        TickWakesOnTime(s, idle, t);
        TickFrame(s, idle);
        WakeSleepersIsExact(Count(s));
    }
  }

  /** Over any run, a sleeper stays asleep for as long as its deadline is ahead. */
  lemma {:induction false} NeverWakesEarly(s: Sched, idle: nat, ops: seq<Op>, s': Sched, t: nat)
    requires Inv(s, idle) && Reaches(s, idle, ops, s') && t in Blocked(s)
    ensures s'.now >= s.now
    ensures s'.now < s.tasks[t].wait.deadline ==> t in Blocked(s')
    decreases |ops|
  {
    if ops != [] {
      StepKeepsInv(s, idle, ops[0]);
      StepAndSleepers(s, idle, ops[0], t);
      var r := Step(s, ops[0]);
      TimeMovesOn(r, idle, ops[1..], s');
      if s'.now < s.tasks[t].wait.deadline { NeverWakesEarly(r, idle, ops[1..], s', t); }
    }
  }

  lemma StepTime(s: Sched, idle: nat, op: Op)
    requires Inv(s, idle) && Legal(s, idle, op)
    ensures AllKnown(s) && Step(s, op).now == s.now + if op.ClockTick? then TICK_NS else 0
  {
    ShapeIsKnown(s, multiset{s.current});
    match op {
      case CallSchedule => ScheduleFrame(s);
      case CallQueueNew(_, _) =>
      case CallExit(status) => if s.tasks[s.current].pid != 0 { ExitFrame(s, idle, status); }
      case CallSleepOn(q, data) => if q != NULL { SleepFrame(s, idle, q, data); }
      case CallWake(q, k) => WakeFrame(s, q, k);
      case CallNanosleep(deadline) => if s.now < deadline { SleepFrame(s, idle, BLOCKED, WaitUntil(deadline)); }
      case ClockTick => TickFrame(s, idle);
    }
  }

  lemma {:induction false} TimeMovesOn(s: Sched, idle: nat, ops: seq<Op>, s': Sched)
    requires Inv(s, idle) && Reaches(s, idle, ops, s')
    ensures s'.now >= s.now
    decreases |ops|
  {
    if ops != [] {
      StepKeepsInv(s, idle, ops[0]);
      StepTime(s, idle, ops[0]);
      TimeMovesOn(Step(s, ops[0]), idle, ops[1..], s');
    }
  }
}
