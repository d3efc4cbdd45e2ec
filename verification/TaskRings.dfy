/**
 The lists of the scheduler and of the clock in memory: task_put and clk_wakeup on the rings of
 kernel/core/list.h, where a woken task moves from one ring to another while the first is being
 walked. Both do to the pointers what SchedulerSpec says they do to the sequences.
 */
module TaskRings {
  import opened Sequences
  import opened IntrusiveList
  import opened SchedulerSpec
  import opened SchedulerProofs

  const READY_LIST: nat := 3      // head of the ready list; the sleepers' head is BLOCKED

  class TaskLists {
    const links: Links
    var tasks: map<nat, Task>
    var now: nat

    constructor (l: Links, t: map<nat, Task>, time: nat)
      ensures links == l && tasks == t && now == time
    {
      links, tasks, now := l, t, time;
    }

    /** Memory holds the ready list and the sleepers of s, as two rings without a common node. */
    ghost predicate Holds(s: Sched) reads this, links {
      && tasks == s.tasks && now == s.now && AllKnown(s)
      && links.IsRing([READY_LIST] + s.ready) && links.IsRing([BLOCKED] + Blocked(s))
      && Apart([READY_LIST] + s.ready, [BLOCKED] + Blocked(s))
    }

    /** task_put: the ring of a list with the task at its place; no other node is touched. */
    method TaskPut(list: nat, t: nat, ghost items: seq<nat>)
      requires links.IsRing([list] + items) && t !in [list] + items && t != IntrusiveList.NULL
      requires Known(items, tasks) && t in tasks
      modifies links
      ensures links.IsRing([list] + SchedulerSpec.TaskPut(items, tasks, t))
      ensures Framed(old(links.next), links.next, [list] + items + [t])
      ensures Framed(old(links.prev), links.prev, [list] + items + [t])
    {
      ghost var r := [list] + items;
      StartOfRing(links.next, list, items);
      if links.next[list] == list {
        EmptyRing(list, items);
        links.AddTail(list, t, r, 0);
        assert InsertedAfter(r, 0, t) == [list] + (items + [t]);
        return;
      }
      EndOfRing(links.prev, list, items);
      var last := links.prev[list];
      if tasks[last].prio >= tasks[t].prio {
        links.AddHead(last, t, r, |r| - 1);
        assert InsertedAfter(r, |r| - 1, t) == [list] + (items + [t]);
        return;
      }
      PutInside(list, t, items);
    }

    /** The loop of task_put, whose end is never reached. */
    method PutInside(list: nat, t: nat, ghost items: seq<nat>)
      requires links.IsRing([list] + items) && t !in [list] + items && t != IntrusiveList.NULL
      requires Known(items, tasks) && t in tasks
      requires items != [] && tasks[items[|items| - 1]].prio < tasks[t].prio
      modifies links
      ensures links.IsRing([list] + InsertBefore(items, tasks, t))
      ensures Framed(old(links.next), links.next, [list] + items + [t])
      ensures Framed(old(links.prev), links.prev, [list] + items + [t])
    {
      ghost var r := [list] + items;
      StartOfRing(links.next, list, items);
      var node := links.next[list];
      ghost var j := 0;
      assert r[0] != r[1];
      while node != list
        invariant 0 <= j <= |items| && links.IsRing(r) && node == r[Up(j, |r|)]
        invariant node == list <==> j == |items|
        invariant links.next == old(links.next) && links.prev == old(links.prev)
        invariant forall i :: 0 <= i < j ==> tasks[items[i]].prio >= tasks[t].prio
        decreases |items| - j
      {
        assert node == r[j + 1] == items[j];
        if tasks[node].prio < tasks[t].prio {
          InsertAt(items, tasks, t, j);
          links.AddTail(node, t, r, j);
          assert InsertedAfter(r, j, t) == [list] + (items[..j] + [t] + items[j..]);
          return;
        }
        assert NextAt(links.next, r, j + 1);
        node := links.next[node];
        j := j + 1;
        assert j < |items| ==> r[0] != r[j + 1];
      }
      assert false;
    }

    /** One turn of clk_wakeup: an expired sleeper goes from the one ring to the other. */
    method MoveToReady(node: nat, ghost s: Sched, ghost kept: seq<nat>, ghost todo: seq<nat>)
      requires Holds(s) && Blocked(s) == kept + todo && todo != [] && node == todo[0]
      modifies this`tasks, links
      ensures AllKnown(SetQueue(s, BLOCKED, kept + todo[1..]))
      ensures Holds(WakeUp(SetQueue(s, BLOCKED, kept + todo[1..]), node))
      ensures Framed(old(links.next), links.next, Nodes(s)) && Framed(old(links.prev), links.prev, Nodes(s))
    {
      ghost var ready, blocked := [READY_LIST] + s.ready, [BLOCKED] + kept + todo;
      ghost var rest := [BLOCKED] + kept + todo[1..];
      assert blocked == [BLOCKED] + Blocked(s) && rest == [BLOCKED] + (kept + todo[1..]);
      LessOne(kept, todo);
      assert node in blocked;
      Unlinked(BLOCKED, kept, todo);
      links.Unlink(node, BLOCKED, kept, todo);
      RingFrame(old(links.next), old(links.prev), links.next, links.prev, ready, blocked);
      ghost var next1, prev1 := links.next, links.prev;
      tasks := SetState(tasks, node, READY);
      TaskPut(READY_LIST, node, s.ready);
      RingFrame(next1, prev1, links.next, links.prev, rest, ready + [node]);
      FrameBoth(old(links.next), next1, links.next, blocked, ready, node, s);
      FrameBoth(old(links.prev), prev1, links.prev, blocked, ready, node, s);
    }

    /**
     clk_wakeup on the pointers: the next node is fetched before the current one moves, so that the
     walk stays on the sleepers' ring. Rings that share no node with the two are left alone.
     */
    method ClkWakeup(ghost s: Sched)
      requires Holds(s)
      modifies this`tasks, links
      ensures Holds(WakeSleepers(s))
      ensures Framed(old(links.next), links.next, Nodes(s)) && Framed(old(links.prev), links.prev, Nodes(s))
    {
      ghost var cur: Sched, kept: seq<nat>, todo := s, [], Blocked(s);
      assert kept + todo == Blocked(s);
      StartOfRing(links.next, BLOCKED, Blocked(s));
      var node := links.next[BLOCKED];
      RingStep(links.next, kept, todo);
      var temp := links.next[node];
      while node != BLOCKED
        invariant Holds(cur) && Blocked(cur) == kept + todo && Within(cur, s)
        invariant Known(todo, cur.tasks) && Known(kept, cur.tasks)
        invariant WakeExpired(cur, kept, todo) == WakeSleepers(s)
        invariant node == First(BLOCKED, todo) && (todo != [] ==> temp == First(BLOCKED, todo[1..]))
        invariant Framed(old(links.next), links.next, Nodes(s)) && Framed(old(links.prev), links.prev, Nodes(s))
        decreases |todo|
      {
        LessOne(kept, todo);
        if Expired(tasks[node], now) {
          ghost var next1, prev1 := links.next, links.prev;
          MoveToReady(node, cur, kept, todo);
          FrameOn(old(links.next), next1, links.next, cur, s);
          FrameOn(old(links.prev), prev1, links.prev, cur, s);
          MovedWithin(cur, s, kept, todo);
          cur := WakeUp(SetQueue(cur, BLOCKED, kept + todo[1..]), node);
          todo := todo[1..];
        } else {
          assert kept + todo == (kept + [node]) + todo[1..];
          kept, todo := kept + [node], todo[1..];
        }
        node := temp;
        RingStep(links.next, kept, todo);
        temp := links.next[temp];
      }
      RingEnds(kept, todo);
      assert kept + todo == kept;
    }
  }

  /** The nodes of the two lists. */
  ghost function Nodes(s: Sched): seq<nat> { [READY_LIST] + s.ready + ([BLOCKED] + Blocked(s)) }

  ghost predicate Within(cur: Sched, s: Sched) { forall x :: x in Nodes(cur) ==> x in Nodes(s) }

  lemma EmptyRing(list: nat, items: seq<nat>)
    requires Distinct([list] + items) && First(list, items) == list
    ensures items == []
  {
    assert [list] + [] + items == [list] + items;
    HeadIsNoItem(list, [], items);
  }

  lemma EndOfRing(prev: map<nat, nat>, list: nat, items: seq<nat>)
    requires Backward(prev, [list] + items) && items != []
    ensures list in prev && prev[list] == items[|items| - 1]
  {
    assert PrevAt(prev, [list] + items, 0);
  }

  lemma LessOne(kept: seq<nat>, todo: seq<nat>)
    requires todo != []
    ensures forall x :: x in kept + todo[1..] ==> x in kept + todo
    ensures todo == [todo[0]] + todo[1..]
  {}

  lemma Unlinked(list: nat, kept: seq<nat>, todo: seq<nat>)
    requires todo != [] && Distinct([list] + kept + todo)
    ensures todo[0] !in [list] + kept + todo[1..]
  {
    var r := [list] + kept + todo;
    assert Removed(r, 1 + |kept|) == [list] + kept + todo[1..];
    RemoveDistinct(r, 1 + |kept|);
  }

  lemma RingStep(next: map<nat, nat>, kept: seq<nat>, todo: seq<nat>)
    requires Forward(next, [BLOCKED] + (kept + todo))
    ensures First(BLOCKED, todo) in next
    ensures todo != [] ==> next[todo[0]] == First(BLOCKED, todo[1..])
  {
    assert [BLOCKED] + (kept + todo) == [BLOCKED] + kept + todo;
    NextInRing(next, BLOCKED, kept, todo);
  }

  lemma RingEnds(kept: seq<nat>, todo: seq<nat>)
    requires Distinct([BLOCKED] + (kept + todo)) && First(BLOCKED, todo) == BLOCKED
    ensures todo == []
  {
    assert [BLOCKED] + (kept + todo) == [BLOCKED] + kept + todo;
    HeadIsNoItem(BLOCKED, kept, todo);
  }

  lemma {:induction false} FrameBoth(m: map<nat, nat>, m1: map<nat, nat>, m2: map<nat, nat>, blocked: seq<nat>,
                                     ready: seq<nat>, node: nat, s: Sched)
    requires Framed(m, m1, blocked) && Framed(m1, m2, ready + [node]) && node in blocked
    requires ready == [READY_LIST] + s.ready && blocked == [BLOCKED] + Blocked(s)
    ensures Framed(m, m2, Nodes(s))
  {
    FrameTwice(m, m1, m2, blocked, ready + [node]);
    FrameWider(m, m2, blocked + (ready + [node]), Nodes(s));
  }

  lemma {:induction false} FrameOn(m: map<nat, nat>, m1: map<nat, nat>, m2: map<nat, nat>, cur: Sched, s: Sched)
    requires Framed(m, m1, Nodes(s)) && Framed(m1, m2, Nodes(cur)) && Within(cur, s)
    ensures Framed(m, m2, Nodes(s))
  {
    FrameTwice(m, m1, m2, Nodes(s), Nodes(cur));
    FrameWider(m, m2, Nodes(s) + Nodes(cur), Nodes(s));
  }

  lemma {:induction false} MovedWithin(cur: Sched, s: Sched, kept: seq<nat>, todo: seq<nat>)
    requires AllKnown(cur) && Within(cur, s) && Blocked(cur) == kept + todo && todo != []
    requires AllKnown(SetQueue(cur, BLOCKED, kept + todo[1..])) && todo[0] in cur.tasks
    ensures Within(WakeUp(SetQueue(cur, BLOCKED, kept + todo[1..]), todo[0]), s)
  {
    LessOne(kept, todo);
    var r := WakeUp(SetQueue(cur, BLOCKED, kept + todo[1..]), todo[0]);
    forall x | x in Nodes(r) ensures x in Nodes(s) {
      assert x in Nodes(cur);
    }
  }
}
