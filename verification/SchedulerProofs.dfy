/** What every step of the scheduler and of the clock keeps, and what follows over whole runs. */
module SchedulerProofs {
  import opened SchedulerSpec

  // ----- Invariant

  /** Everything on some wait queue, with multiplicity. */
  ghost function Total(queues: map<nat, seq<nat>>): multiset<nat>
    decreases |queues|
  {
    if queues == map[] then multiset{}
    else
      var q :| q in queues;
      Smaller(queues, q);
      multiset(queues[q]) + Total(queues - {q})
  }

  lemma Smaller(queues: map<nat, seq<nat>>, q: nat)
    requires q in queues
    ensures |queues - {q}| < |queues|
  {
    assert (queues - {q}).Keys == queues.Keys - {q};
    assert |queues.Keys| == |queues| && |(queues - {q}).Keys| == |queues - {q}|;
  }

  /** The total does not depend on the order in which the queues are added up. */
  lemma {:induction false} TotalWithout(queues: map<nat, seq<nat>>, q: nat)
    requires q in queues
    ensures Total(queues) == multiset(queues[q]) + Total(queues - {q})
    decreases |queues|
  {
    var p :| p in queues && Total(queues) == multiset(queues[p]) + Total(queues - {p});
    if p != q {
      Smaller(queues, p);
      Smaller(queues, q);
      TotalWithout(queues - {p}, q);
      TotalWithout(queues - {q}, p);
      assert queues - {p} - {q} == queues - {q} - {p};
    }
  }

  /** Replacing one queue replaces its share of the total. */
  lemma {:induction false} TotalSet(queues: map<nat, seq<nat>>, q: nat, list: seq<nat>)
    ensures Total(queues[q := list]) + multiset(QueueAt(queues, q)) == Total(queues) + multiset(list)
  {
    var r := queues[q := list];
    TotalWithout(r, q);
    assert r - {q} == queues - {q};
    if q in queues {
      TotalWithout(queues, q);
    } else {
      assert queues - {q} == queues;
    }
  }

  lemma Cancel(a: multiset<nat>, b: multiset<nat>, c: multiset<nat>)
    requires a + c == b + c
    ensures a == b
  {
    forall x ensures a[x] == b[x] { assert (a + c)[x] == (b + c)[x]; }
  }

  lemma {:induction false} TotalAppend(queues: map<nat, seq<nat>>, q: nat, t: nat)
    ensures Total(queues[q := QueueAt(queues, q) + [t]]) == Total(queues) + multiset{t}
  {
    var list := QueueAt(queues, q);
    TotalSet(queues, q, list + [t]);
    Cancel(Total(queues[q := list + [t]]), Total(queues) + multiset{t}, multiset(list));
  }

  lemma {:induction false} TotalDrop(queues: map<nat, seq<nat>>, q: nat, k: nat)
    requires k < |QueueAt(queues, q)|
    ensures var list := QueueAt(queues, q);
      Total(queues[q := list[..k] + list[k + 1..]]) + multiset{list[k]} == Total(queues)
  {
    var list := QueueAt(queues, q);
    var rest := list[..k] + list[k + 1..];
    assert list == list[..k] + [list[k]] + list[k + 1..];
    TotalSet(queues, q, rest);
    Cancel(Total(queues[q := rest]) + multiset{list[k]}, Total(queues), multiset(rest));
  }

  lemma {:induction false} InTotal(queues: map<nat, seq<nat>>, q: nat, t: nat)
    requires q in queues && t in queues[q]
    ensures t in Total(queues)
  {
    TotalWithout(queues, q);
  }

  lemma {:induction false} TotalInQueue(queues: map<nat, seq<nat>>, t: nat) returns (q: nat)
    requires t in Total(queues)
    ensures q in queues && t in queues[q]
    decreases |queues|
  {
    var p :| p in queues && Total(queues) == multiset(queues[p]) + Total(queues - {p});
    if t in queues[p] {
      q := p;
    } else {
      Smaller(queues, p);
      q := TotalInQueue(queues - {p}, t);
    }
  }

  lemma {:induction false} EmptyTotal(queues: map<nat, seq<nat>>)
    requires forall q :: q in queues ==> queues[q] == []
    ensures Total(queues) == multiset{}
  {
    if Total(queues) != multiset{} {
      var t :| t in Total(queues);
      var q := TotalInQueue(queues, t);
    }
  }

  /** A task counted once is on one queue. */
  lemma {:induction false} OneQueue(queues: map<nat, seq<nat>>, t: nat, p: nat, q: nat)
    requires p in queues && q in queues && t in queues[p] && t in queues[q] && Total(queues)[t] <= 1
    ensures p == q && multiset(queues[q])[t] == 1
  {
    TotalWithout(queues, p);
    if p != q { InTotal(queues - {p}, q, t); }
  }

  /** Everything queued, with multiplicity. */
  ghost function Queued(s: Sched): multiset<nat> {
    multiset(s.ready) + multiset(s.zombies) + Total(s.queues)
  }

  ghost predicate Sorted(list: seq<nat>, tasks: map<nat, Task>)
    requires Known(list, tasks)
  {
    forall i, j :: 0 <= i < j < |list| ==> tasks[list[i]].prio >= tasks[list[j]].prio
  }

  ghost predicate Tagged(list: seq<nat>, tasks: map<nat, Task>, state: TaskState) {
    forall t :: t in list ==> t in tasks && tasks[t].state == state
  }

  ghost predicate AllWaiting(queues: map<nat, seq<nat>>, tasks: map<nat, Task>) {
    forall q :: q in queues ==> Tagged(queues[q], tasks, WAITING)
  }

  /** Every list holds tasks of its state, and the ready list is sorted. */
  ghost predicate Marked(s: Sched) {
    && Tagged(s.ready, s.tasks, READY) && Tagged(s.zombies, s.tasks, ZOMBIE) && AllWaiting(s.queues, s.tasks)
    && Sorted(s.ready, s.tasks)
    && s.current in s.tasks
  }

  /** The queues hold every task exactly once, apart from those in `held`, with matching states. */
  ghost predicate Shape(s: Sched, held: multiset<nat>) {
    Queued(s) + held == multiset(s.tasks.Keys) && Marked(s)
  }

  ghost predicate Unqueued(s: Sched, t: nat) {
    t !in s.ready && t !in s.zombies && forall q :: q in s.queues ==> t !in s.queues[q]
  }

  /** Changing a task that is on no list leaves the lists marked. */
  lemma {:induction false} MarkedSame(s: Sched, t: nat, task: Task)
    requires Marked(s) && Unqueued(s, t)
    ensures Marked(s.(tasks := s.tasks[t := task]))
  {
    SortedSame(s.ready, s.tasks, s.tasks[t := task]);
  }

  /** Every sleeper's deadline is still ahead. */
  ghost predicate Asleep(s: Sched) {
    forall t :: t in Blocked(s) ==> t in s.tasks && s.tasks[t].wait.WaitUntil? && s.now < s.tasks[t].wait.deadline
  }

  ghost predicate Inv(s: Sched, idle: nat) {
    && Shape(s, multiset{s.current}) && s.tasks[s.current].state == RUNNING
    && Asleep(s) && (idle == s.current || idle in s.ready)
  }

  /** Between blocking or burying the current task and switching away from it. */
  ghost predicate Leaving(s: Sched, idle: nat) {
    Shape(s, multiset{}) && s.tasks[s.current].state in {WAITING, ZOMBIE} && Asleep(s) && idle in s.ready
  }

  lemma ShapeIsKnown(s: Sched, held: multiset<nat>)
    requires Shape(s, held)
    ensures AllKnown(s)
  {}

  /** A task that is held is in no queue. */
  lemma {:induction false} HeldIsUnqueued(s: Sched, held: multiset<nat>, t: nat)
    requires Shape(s, held) && t in held
    ensures t in s.tasks && Unqueued(s, t)
  {
    assert (Queued(s) + held)[t] == multiset(s.tasks.Keys)[t] <= 1;
    forall q | q in s.queues ensures t !in s.queues[q] {
      if t in s.queues[q] { InTotal(s.queues, q, t); }
    }
  }

  /** Main result on places: a task is in exactly one of them, whatever the queues, and its state says which. */
  lemma {:induction false} EveryTaskInOnePlace(s: Sched, idle: nat, t: nat)
    requires Inv(s, idle) && t in s.tasks
    ensures multiset(s.ready)[t] + multiset(s.zombies)[t] + Total(s.queues)[t] + (if t == s.current then 1 else 0) == 1
    ensures t == s.current <==> s.tasks[t].state == RUNNING
    ensures t in s.ready <==> s.tasks[t].state == READY
    ensures t in s.zombies <==> s.tasks[t].state == ZOMBIE
    ensures (exists q :: q in s.queues && t in s.queues[q]) <==> s.tasks[t].state == WAITING
    ensures forall p, q :: p in s.queues && q in s.queues && t in s.queues[p] && t in s.queues[q] ==>
              p == q && multiset(s.queues[q])[t] == 1
  {
    assert (Queued(s) + multiset{s.current})[t] == multiset(s.tasks.Keys)[t] == 1;
    if t in Total(s.queues) {
      var q := TotalInQueue(s.queues, t);
    }
    forall p, q | p in s.queues && q in s.queues && t in s.queues[p] && t in s.queues[q]
      ensures p == q && multiset(s.queues[q])[t] == 1
    {
      OneQueue(s.queues, t, p, q);
    }
  }

  // ----- task_put

  lemma TailSorted(list: seq<nat>, tasks: map<nat, Task>)
    requires list != [] && Known(list, tasks) && Sorted(list, tasks)
    ensures Known(list[1..], tasks) && Sorted(list[1..], tasks)
    ensures list == [list[0]] + list[1..]
  {
    assert forall i :: 0 <= i < |list[1..]| ==> list[1..][i] == list[i + 1];
  }

  lemma ConsSplit(x: nat, tail: seq<nat>, n: nat, t: nat)
    requires n <= |tail|
    ensures [x] + (tail[..n] + [t] + tail[n..]) == ([x] + tail)[..n + 1] + [t] + ([x] + tail)[n + 1..]
  {}

  /** On a sorted list task_put goes behind every task of at least its priority and before the others. */
  lemma {:induction false} InsertPosition(list: seq<nat>, tasks: map<nat, Task>, t: nat) returns (k: nat)
    requires Known(list, tasks) && Sorted(list, tasks) && t in tasks
    ensures k <= |list| && InsertBefore(list, tasks, t) == list[..k] + [t] + list[k..]
    ensures forall i :: 0 <= i < k ==> tasks[list[i]].prio >= tasks[t].prio
    ensures forall i :: k <= i < |list| ==> tasks[list[i]].prio < tasks[t].prio
  {
    if list == [] || tasks[list[0]].prio < tasks[t].prio {
      k := 0;
    } else {
      TailSorted(list, tasks);
      var tail := list[1..];
      var n := InsertPosition(tail, tasks, t);
      k := n + 1;
      ConsSplit(list[0], tail, n, t);
      assert forall i :: 1 <= i < |list| ==> list[i] == tail[i - 1];
    }
  }

  /** The place the loop of task_put stops at. */
  lemma {:induction false} InsertAt(list: seq<nat>, tasks: map<nat, Task>, t: nat, k: nat)
    requires k < |list| && Known(list, tasks) && t in tasks && tasks[list[k]].prio < tasks[t].prio
    requires forall i :: 0 <= i < k ==> tasks[list[i]].prio >= tasks[t].prio
    ensures InsertBefore(list, tasks, t) == list[..k] + [t] + list[k..]
    decreases k
  {
    if k > 0 {
      var tail := list[1..];
      assert forall i :: 0 <= i < |tail| ==> tail[i] == list[i + 1];
      InsertAt(tail, tasks, t, k - 1);
      assert list == [list[0]] + tail;
      ConsSplit(list[0], tail, k - 1, t);
    }
  }

  lemma {:induction false} InsertedIsSorted(list: seq<nat>, tasks: map<nat, Task>, t: nat, k: nat)
    requires Known(list, tasks) && Sorted(list, tasks) && t in tasks && k <= |list|
    requires forall i :: 0 <= i < k ==> tasks[list[i]].prio >= tasks[t].prio
    requires forall i :: k <= i < |list| ==> tasks[list[i]].prio < tasks[t].prio
    ensures var r := list[..k] + [t] + list[k..]; Known(r, tasks) && Sorted(r, tasks)
  {
    var r := list[..k] + [t] + list[k..];
    assert forall x :: x in r ==> x == t || x in list;
    forall i, j | 0 <= i < j < |r| ensures tasks[r[i]].prio >= tasks[r[j]].prio {
      assert r[i] == if i < k then list[i] else if i == k then t else list[i - 1];
      assert r[j] == if j < k then list[j] else if j == k then t else list[j - 1];
    }
  }

  lemma {:induction false} PutPosition(list: seq<nat>, tasks: map<nat, Task>, t: nat) returns (k: nat)
    requires Known(list, tasks) && Sorted(list, tasks) && t in tasks
    ensures k <= |list| && TaskPut(list, tasks, t) == list[..k] + [t] + list[k..]
    ensures forall i :: 0 <= i < k ==> tasks[list[i]].prio >= tasks[t].prio
    ensures forall i :: k <= i < |list| ==> tasks[list[i]].prio < tasks[t].prio
  {
    k := InsertPosition(list, tasks, t);
    if list == [] || tasks[list[|list| - 1]].prio >= tasks[t].prio {
      assert k == |list|;
      assert list[..k] == list && list[k..] == [];
    }
  }

  /** task_put adds the task and keeps the list sorted. */
  lemma {:induction false} PutKeepsSorted(list: seq<nat>, tasks: map<nat, Task>, t: nat)
    requires Known(list, tasks) && Sorted(list, tasks) && t in tasks
    ensures Sorted(TaskPut(list, tasks, t), tasks)
    ensures multiset(TaskPut(list, tasks, t)) == multiset(list) + multiset{t}
  {
    var k := PutPosition(list, tasks, t);
    InsertedIsSorted(list, tasks, t, k);
    InsertedMultiset(list, t, k);
  }

  lemma InsertedMultiset(list: seq<nat>, t: nat, k: nat)
    requires k <= |list|
    ensures multiset(list[..k] + [t] + list[k..]) == multiset(list) + multiset{t}
  {
    assert list == list[..k] + list[k..];
  }

  /** Priorities and membership alone decide whether a list is sorted. */
  lemma {:induction false} SortedSame(list: seq<nat>, tasks: map<nat, Task>, tasks': map<nat, Task>)
    requires Known(list, tasks) && Known(list, tasks') && Sorted(list, tasks)
    requires forall t :: t in list ==> tasks'[t].prio == tasks[t].prio
    ensures Sorted(list, tasks')
  {
    forall i, j | 0 <= i < j < |list| ensures tasks'[list[i]].prio >= tasks'[list[j]].prio {
      assert list[i] in list && list[j] in list;
    }
  }

  // ----- Steps

  lemma {:induction false} WakeUpKeepsShape(s: Sched, held: multiset<nat>, t: nat)
    requires Shape(s, held + multiset{t})
    ensures t in s.tasks && AllKnown(s) && Shape(WakeUp(s, t), held)
  {
    HeldIsUnqueued(s, held + multiset{t}, t);
    ShapeIsKnown(s, held + multiset{t});
    MarkedSame(s, t, s.tasks[t].(state := READY));
    PutMarked(s.(tasks := SetState(s.tasks, t, READY)), t);
    assert SetState(s.tasks, t, READY).Keys == s.tasks.Keys;
  }

  /** task_put of a task already marked ready. */
  lemma {:induction false} PutMarked(s: Sched, t: nat)
    requires Marked(s) && t in s.tasks && s.tasks[t].state == READY
    ensures var r := s.(ready := TaskPut(s.ready, s.tasks, t)); Marked(r) && Queued(r) == Queued(s) + multiset{t}
  {
    PutKeepsSorted(s.ready, s.tasks, t);
  }

  /** schedule() by a running task. */
  lemma {:induction false} ScheduleKeepsInv(s: Sched, idle: nat)
    requires Inv(s, idle)
    ensures Inv(Schedule(s), idle)
  {
    if s.ready != [] {
      var next, prev := s.ready[0], s.current;
      var parked := s.(ready := s.ready[1..], current := next);
      TakeFirst(s, multiset{prev});
      WakeUpKeepsShape(parked, multiset{next}, prev);
      var woken := WakeUp(parked, prev);
      HeldIsUnqueued(woken, multiset{next}, next);
      StartRunning(woken, next);
      assert Schedule(s) == woken.(tasks := SetState(woken.tasks, next, RUNNING));
    }
  }

  /** task_get takes the first ready task, which becomes current. */
  lemma {:induction false} TakeFirst(s: Sched, held: multiset<nat>)
    requires Shape(s, held) && s.ready != []
    ensures Shape(s.(ready := s.ready[1..], current := s.ready[0]), multiset{s.ready[0]} + held)
    ensures forall t :: t in s.ready ==> s.tasks[t].prio <= s.tasks[s.ready[0]].prio
  {
    TailSorted(s.ready, s.tasks);
    assert Queued(s) == Queued(s.(ready := s.ready[1..], current := s.ready[0])) + multiset{s.ready[0]};
  }

  lemma {:induction false} StartRunning(s: Sched, next: nat)
    requires Shape(s, multiset{next})
    ensures next in s.tasks && Shape(s.(tasks := SetState(s.tasks, next, RUNNING)), multiset{next})
  {
    HeldIsUnqueued(s, multiset{next}, next);
    MarkedSame(s, next, s.tasks[next].(state := RUNNING));
    assert SetState(s.tasks, next, RUNNING).Keys == s.tasks.Keys;
  }

  /** schedule() by a task that has just blocked or died switches away, to a task of highest priority. */
  lemma {:induction false} ScheduleSwitches(s: Sched, idle: nat)
    requires Leaving(s, idle)
    ensures AllKnown(s) && Inv(Schedule(s), idle)
    ensures Schedule(s).current != s.current && Schedule(s).current == s.ready[0]
    ensures forall t :: t in s.ready ==> s.tasks[t].prio <= s.tasks[s.ready[0]].prio
  {
    ShapeIsKnown(s, multiset{});
    var next := s.ready[0];
    var parked := s.(ready := s.ready[1..], current := next);
    TakeFirst(s, multiset{});
    assert multiset{next} + multiset{} == multiset{next};
    StartRunning(parked, next);
    HeldIsUnqueued(parked, multiset{next}, next);
    assert idle == next || idle in parked.ready;
  }

  lemma {:induction false} BlockLeaves(s: Sched, idle: nat, q: nat, data: WaitData)
    requires Inv(s, idle) && s.current != idle && (q == BLOCKED ==> data.WaitUntil? && s.now < data.deadline)
    ensures AllKnown(s) && Leaving(Block(s, q, data), idle)
  {
    ShapeIsKnown(s, multiset{s.current});
    HeldIsUnqueued(s, multiset{s.current}, s.current);
    BlockKeepsShape(s, q, data);
    BlockKeepsAsleep(s, q, data);
  }

  lemma {:induction false} BlockKeepsShape(s: Sched, q: nat, data: WaitData)
    requires Shape(s, multiset{s.current}) && Unqueued(s, s.current)
    ensures AllKnown(s) && Shape(Block(s, q, data), multiset{})
  {
    ShapeIsKnown(s, multiset{s.current});
    var task := s.tasks[s.current].(state := WAITING, wait := data);
    var s1 := s.(tasks := s.tasks[s.current := task]);
    assert s1.tasks.Keys == s.tasks.Keys;
    MarkedSame(s, s.current, task);
    AppendMarked(s1, q, s.current);
  }

  lemma {:induction false} BlockKeepsAsleep(s: Sched, q: nat, data: WaitData)
    requires AllKnown(s) && Asleep(s) && Unqueued(s, s.current)
    requires q == BLOCKED ==> data.WaitUntil? && s.now < data.deadline
    ensures Asleep(Block(s, q, data))
  {
    var r := Block(s, q, data);
    forall t | t in Blocked(r) ensures t in r.tasks && r.tasks[t].wait.WaitUntil? && r.now < r.tasks[t].wait.deadline {
      assert t == s.current || t in Blocked(s);
    }
  }

  lemma {:induction false} AppendMarked(s: Sched, q: nat, t: nat)
    requires Marked(s) && t in s.tasks && s.tasks[t].state == WAITING
    ensures var r := SetQueue(s, q, QueueAt(s.queues, q) + [t]); Marked(r) && Queued(r) == Queued(s) + multiset{t}
  {
    TotalAppend(s.queues, q, t);
    AppendWaiting(s.queues, s.tasks, q, t);
  }

  lemma {:induction false} AppendWaiting(queues: map<nat, seq<nat>>, tasks: map<nat, Task>, q: nat, t: nat)
    requires AllWaiting(queues, tasks) && t in tasks && tasks[t].state == WAITING
    ensures AllWaiting(queues[q := QueueAt(queues, q) + [t]], tasks)
  {
    var r := queues[q := QueueAt(queues, q) + [t]];
    forall p | p in r ensures Tagged(r[p], tasks, WAITING) {
      if p != q { assert Tagged(queues[p], tasks, WAITING); }
    }
  }

  lemma {:induction false} MarkDeadLeaves(s: Sched, idle: nat, status: int)
    requires Inv(s, idle) && s.current != idle
    ensures AllKnown(s) && Leaving(MarkDead(s, status), idle)
  {
    ShapeIsKnown(s, multiset{s.current});
    HeldIsUnqueued(s, multiset{s.current}, s.current);
    var task := s.tasks[s.current].(state := ZOMBIE, status := status);
    MarkedSame(s, s.current, task);
    assert s.tasks[s.current := task].Keys == s.tasks.Keys;
  }

  lemma WakeFirstWaiterLeaves(s: Sched, idle: nat)
    requires Leaving(s, idle) && s.tasks[s.current].state == ZOMBIE
    ensures AllKnown(s) && Leaving(WakeFirstWaiter(s), idle)
  {
    ShapeIsKnown(s, multiset{});
    var k := FirstWaiter(Waiters(s), s.tasks, s.tasks[s.current]);
    if k < |Waiters(s)| { WakeWaiter(s, idle, k); }
  }

  /** Taking the k-th task off a queue leaves it held. */
  lemma {:induction false} TakeOff(s: Sched, held: multiset<nat>, q: nat, k: nat)
    requires Shape(s, held) && k < |QueueAt(s.queues, q)|
    ensures var list := QueueAt(s.queues, q);
      Shape(SetQueue(s, q, list[..k] + list[k + 1..]), held + multiset{list[k]})
  {
    var list := QueueAt(s.queues, q);
    var rest := list[..k] + list[k + 1..];
    TotalDrop(s.queues, q, k);
    assert forall x :: x in rest ==> x in list;
    assert Queued(s) == Queued(SetQueue(s, q, rest)) + multiset{list[k]};
  }

  lemma {:induction false} WakeWaiter(s: Sched, idle: nat, k: nat)
    requires Leaving(s, idle) && k < |Waiters(s)| && s.tasks[s.current].state == ZOMBIE
    ensures AllKnown(s) && Leaving(WakeAt(s, WAITERS, k), idle)
  {
    ShapeIsKnown(s, multiset{});
    var w, rest := Waiters(s)[k], Waiters(s)[..k] + Waiters(s)[k + 1..];
    var s' := SetQueue(s, WAITERS, rest);
    TakeOff(s, multiset{}, WAITERS, k);
    HeldIsUnqueued(s', multiset{w}, w);
    WakeUpKeepsShape(s', multiset{}, w);
    assert w in Waiters(s) && w != s.current;
  }

  /** Waking a task of any queue keeps the invariant. */
  lemma {:induction false} WakeKeepsInv(s: Sched, idle: nat, q: nat, k: nat)
    requires Inv(s, idle) && k < |QueueAt(s.queues, q)|
    ensures AllKnown(s) && Inv(WakeAt(s, q, k), idle)
  {
    ShapeIsKnown(s, multiset{s.current});
    var list := QueueAt(s.queues, q);
    var w, rest := list[k], list[..k] + list[k + 1..];
    var s' := SetQueue(s, q, rest);
    TakeOff(s, multiset{s.current}, q, k);
    HeldIsUnqueued(s', multiset{s.current} + multiset{w}, w);
    WakeUpKeepsShape(s', multiset{s.current}, w);
    assert w in list && forall x :: x in rest ==> x in list;
  }

  lemma {:induction false} QueueNewKeepsInv(s: Sched, idle: nat, t: nat, prio: int)
    requires Inv(s, idle) && t !in s.tasks
    ensures AllKnown(s) && Inv(QueueNew(s, t, prio), idle)
  {
    ShapeIsKnown(s, multiset{s.current});
    var task := Task(s.nextPid, s.tasks[s.current].pid, prio, READY, 0, NoWait);
    assert Unqueued(s, t);
    MarkedSame(s, t, task);
    PutMarked(s.(tasks := s.tasks[t := task]), t);
    assert s.tasks[t := task].Keys == s.tasks.Keys + {t};
    assert multiset(s.tasks.Keys + {t}) == multiset(s.tasks.Keys) + multiset{t};
  }
}
