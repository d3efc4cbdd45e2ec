/**
 The scheduler and the sleep queue of the clock as a state machine over tasks. A task is known by
 its address; the lists hold addresses, head first.
 */
module SchedulerSpec {
  datatype TaskState = READY | RUNNING | WAITING | ZOMBIE

  /** What wait_state points to: the pid waited for, the deadline of a sleep, or a driver's request. */
  datatype WaitData = NoWait | WaitPid(pid: int) | WaitUntil(deadline: nat) | WaitRequest(request: nat)

  datatype Task = Task(pid: int, parent: int, prio: int, state: TaskState, status: int, wait: WaitData)

  datatype Sched = Sched(
    tasks: map<nat, Task>,
    current: nat,
    ready: seq<nat>,
    zombies: seq<nat>,
    queues: map<nat, seq<nat>>,     // every wait queue by the address of its head
    nextPid: int,
    ticks: nat,
    now: nat)

  const TICK_NS: nat := 10_000_000

  const NULL: nat := 0

  // Heads of the queue of scheduler_wait and of the sleepers of the clock.
  const WAITERS: nat := 1
  const BLOCKED: nat := 2

  /** A wait queue; a head not used yet is empty. */
  function QueueAt(queues: map<nat, seq<nat>>, q: nat): seq<nat> { if q in queues then queues[q] else [] }

  function Waiters(s: Sched): seq<nat> { QueueAt(s.queues, WAITERS) }

  function Blocked(s: Sched): seq<nat> { QueueAt(s.queues, BLOCKED) }

  function SetQueue(s: Sched, q: nat, list: seq<nat>): Sched { s.(queues := s.queues[q := list]) }

  predicate Known(list: seq<nat>, tasks: map<nat, Task>) { forall t :: t in list ==> t in tasks }

  // ----- Operations

  /** task_put's loop: before the first task of lower priority. */
  function InsertBefore(list: seq<nat>, tasks: map<nat, Task>, t: nat): (r: seq<nat>)
    requires Known(list, tasks) && t in tasks
    ensures forall x :: x in r <==> x in list || x == t
  {
    assert list != [] ==> list == [list[0]] + list[1..];
    if list == [] then [t]
    else if tasks[list[0]].prio < tasks[t].prio then [t] + list
    else [list[0]] + InsertBefore(list[1..], tasks, t)
  }

  function TaskPut(list: seq<nat>, tasks: map<nat, Task>, t: nat): (r: seq<nat>)
    requires Known(list, tasks) && t in tasks
    ensures forall x :: x in r <==> x in list || x == t
  {
    if list == [] || tasks[list[|list| - 1]].prio >= tasks[t].prio then list + [t]
    else InsertBefore(list, tasks, t)
  }

  predicate AllKnown(s: Sched) {
    s.current in s.tasks && Known(s.ready, s.tasks) && forall q :: q in s.queues ==> Known(s.queues[q], s.tasks)
  }

  function SetState(tasks: map<nat, Task>, t: nat, state: TaskState): map<nat, Task>
    requires t in tasks
  {
    tasks[t := tasks[t].(state := state)]
  }

  function Schedule(s: Sched): (r: Sched)
    requires AllKnown(s)
    ensures AllKnown(r)
  {
    if s.ready == [] then s
    else
      var next, prev, rest := s.ready[0], s.current, s.ready[1..];
      if s.tasks[prev].state == RUNNING then
        var tasks := SetState(s.tasks, prev, READY);
        s.(current := next, ready := TaskPut(rest, tasks, prev), tasks := SetState(tasks, next, RUNNING))
      else
        s.(current := next, ready := rest, tasks := SetState(s.tasks, next, RUNNING))
  }

  /** scheduler_wake_up of a task already taken off its queue. */
  function WakeUp(s: Sched, t: nat): (r: Sched)
    requires AllKnown(s) && t in s.tasks
    ensures AllKnown(r)
  {
    var tasks := SetState(s.tasks, t, READY);
    s.(tasks := tasks, ready := TaskPut(s.ready, tasks, t))
  }

  function QueueNew(s: Sched, t: nat, prio: int): (r: Sched)
    requires AllKnown(s)
    ensures AllKnown(r)
  {
    var task := Task(s.nextPid, s.tasks[s.current].pid, prio, READY, 0, NoWait);
    var tasks := s.tasks[t := task];
    s.(tasks := tasks, nextPid := s.nextPid + 1, ready := TaskPut(s.ready, tasks, t))
  }

  /** The waiter is waiting for the exiting task. */
  predicate WaitsFor(waiter: Task, exiting: Task) {
    waiter.wait.WaitPid? &&
    var pid := waiter.wait.pid;
    (pid > 0 && exiting.pid == pid) || (pid == -1 && waiter.pid == exiting.parent)
  }

  function FirstWaiter(waiters: seq<nat>, tasks: map<nat, Task>, exiting: Task): (k: nat)
    requires Known(waiters, tasks)
    ensures k <= |waiters|
    ensures forall i :: 0 <= i < k ==> !WaitsFor(tasks[waiters[i]], exiting)
    ensures k < |waiters| ==> WaitsFor(tasks[waiters[k]], exiting)
  {
    if waiters == [] || WaitsFor(tasks[waiters[0]], exiting) then 0
    else 1 + FirstWaiter(waiters[1..], tasks, exiting)
  }

  /** scheduler_exit marks the current task dead and lists it. */
  function MarkDead(s: Sched, status: int): (r: Sched)
    requires AllKnown(s)
    ensures AllKnown(r)
  {
    s.(tasks := s.tasks[s.current := s.tasks[s.current].(state := ZOMBIE, status := status)],
       zombies := s.zombies + [s.current])
  }

  /** list_delete of the k-th task of a queue, then scheduler_wake_up. */
  function WakeAt(s: Sched, q: nat, k: nat): (r: Sched)
    requires AllKnown(s) && k < |QueueAt(s.queues, q)|
    ensures AllKnown(r) && r.current == s.current
  {
    var list := QueueAt(s.queues, q);
    var rest := list[..k] + list[k + 1..];
    assert forall t :: t in rest ==> t in list;
    WakeUp(SetQueue(s, q, rest), list[k])
  }

  /** scheduler_exit wakes the first task that waits for the current one. */
  function WakeFirstWaiter(s: Sched): (r: Sched)
    requires AllKnown(s)
    ensures AllKnown(r) && r.current == s.current
  {
    var k := FirstWaiter(Waiters(s), s.tasks, s.tasks[s.current]);
    if k == |Waiters(s)| then s else WakeAt(s, WAITERS, k)
  }

  function Exit(s: Sched, status: int): (r: Sched)
    requires AllKnown(s)
    ensures AllKnown(r)
  {
    if s.tasks[s.current].pid == 0 then s else Schedule(WakeFirstWaiter(MarkDead(s, status)))
  }

  /** scheduler_sleep_on before its schedule(). */
  function Block(s: Sched, q: nat, data: WaitData): (r: Sched)
    requires AllKnown(s)
    ensures AllKnown(r)
  {
    var tasks := s.tasks[s.current := s.tasks[s.current].(state := WAITING, wait := data)];
    SetQueue(s.(tasks := tasks), q, QueueAt(s.queues, q) + [s.current])
  }

  function SleepOn(s: Sched, q: nat, data: WaitData): (r: Sched)
    requires AllKnown(s)
    ensures AllKnown(r)
  {
    if q == NULL then s else Schedule(Block(s, q, data))
  }

  /** clk_nanosleep with its deadline computed. */
  function Nanosleep(s: Sched, deadline: nat): (r: Sched)
    requires AllKnown(s)
    ensures AllKnown(r)
  {
    if deadline <= s.now then s else SleepOn(s, BLOCKED, WaitUntil(deadline))
  }

  predicate Expired(task: Task, now: nat) { task.wait.WaitUntil? && task.wait.deadline <= now }

  /** The loop of clk_wakeup over the sleepers not yet looked at; `kept` are those that stay. */
  function WakeExpired(s: Sched, kept: seq<nat>, sleepers: seq<nat>): (r: Sched)
    requires AllKnown(s) && Known(sleepers, s.tasks) && Known(kept, s.tasks)
    ensures AllKnown(r) && r.now == s.now && r.ticks == s.ticks
    decreases |sleepers|
  {
    if sleepers == [] then SetQueue(s, BLOCKED, kept)
    else if Expired(s.tasks[sleepers[0]], s.now) then
      var s1 := SetQueue(s, BLOCKED, kept + sleepers[1..]);
      assert forall t :: t in sleepers[1..] ==> t in sleepers;
      WakeExpired(WakeUp(s1, sleepers[0]), kept, sleepers[1..])
    else
      assert forall t :: t in sleepers[1..] ==> t in sleepers;
      WakeExpired(s, kept + [sleepers[0]], sleepers[1..])
  }

  /** clk_handler counts the tick and moves the time on. */
  function Count(s: Sched): (r: Sched)
    requires AllKnown(s)
    ensures AllKnown(r)
  {
    s.(ticks := s.ticks + 1, now := s.now + TICK_NS)
  }

  /** clk_wakeup. */
  function WakeSleepers(s: Sched): (r: Sched)
    requires AllKnown(s)
    ensures AllKnown(r) && r.now == s.now && r.ticks == s.ticks
  {
    WakeExpired(s, [], Blocked(s))
  }

  /** clk_handler. */
  function Tick(s: Sched): (r: Sched)
    requires AllKnown(s)
    ensures AllKnown(r)
  {
    var woken := WakeSleepers(Count(s));
    if woken.ticks % 2 == 0 then Schedule(woken) else woken
  }
}
