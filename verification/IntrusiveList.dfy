/**
 kernel/core/list.h: circular doubly linked lists threaded through their elements. Nodes are
 addresses and the pointers live in memory; a list is known by its ring, the sequence of nodes from
 the list head once around, whose tail holds the items.
 */
module IntrusiveList {
  import opened Sequences

  const NULL: nat := 0

  function Up(i: nat, n: nat): nat { if i + 1 == n then 0 else i + 1 }

  function Down(i: nat, n: nat): nat
    requires n > 0
  {
    if i == 0 then n - 1 else i - 1
  }

  ghost predicate NextAt(next: map<nat, nat>, r: seq<nat>, i: nat)
    requires i < |r|
  {
    r[i] in next && next[r[i]] == r[Up(i, |r|)]
  }

  ghost predicate PrevAt(prev: map<nat, nat>, r: seq<nat>, i: nat)
    requires i < |r|
  {
    r[i] in prev && prev[r[i]] == r[Down(i, |r|)]
  }

  /** Following `next` from r[0] visits r in order and returns to r[0]. */
  ghost predicate Forward(next: map<nat, nat>, r: seq<nat>) { forall i: nat :: i < |r| ==> NextAt(next, r, i) }

  /** Following `prev` does the same backwards. */
  ghost predicate Backward(prev: map<nat, nat>, r: seq<nat>) { forall i: nat :: i < |r| ==> PrevAt(prev, r, i) }

  ghost predicate Ring(next: map<nat, nat>, prev: map<nat, nat>, r: seq<nat>) {
    |r| >= 1 && NULL !in r && Distinct(r) && Forward(next, r) && Backward(prev, r)
  }

  function InsertedAfter(r: seq<nat>, k: nat, item: nat): seq<nat>
    requires k < |r|
  {
    r[..k + 1] + [item] + r[k + 1..]
  }

  function Removed(r: seq<nat>, k: nat): seq<nat>
    requires k < |r|
  {
    r[..k] + r[k + 1..]
  }

  lemma InsertForward(next: map<nat, nat>, r: seq<nat>, k: nat, item: nat)
    requires Distinct(r) && Forward(next, r) && k < |r| && item !in r
    ensures NextAt(next, r, k)
    ensures Forward(next[item := next[r[k]]][r[k] := item], InsertedAfter(r, k, item))
  {
    assert NextAt(next, r, k);
    var r' := InsertedAfter(r, k, item);
    var next' := next[item := next[r[k]]][r[k] := item];
    forall i: nat | i < |r'| ensures NextAt(next', r', i) {
      if i < k {
        assert NextAt(next, r, i);
        assert r[i] != r[k];
      } else if i > k + 1 {
        assert NextAt(next, r, i - 1);
        assert r[i - 1] != r[k];
      }
    }
  }

  lemma InsertBackward(prev: map<nat, nat>, r: seq<nat>, k: nat, item: nat)
    requires Distinct(r) && Backward(prev, r) && k < |r| && item !in r
    ensures Backward(prev[item := r[k]][r[Up(k, |r|)] := item], InsertedAfter(r, k, item))
  {
    var r', u := InsertedAfter(r, k, item), Up(k, |r|);
    var prev' := prev[item := r[k]][r[u] := item];
    forall i: nat | i < |r'| ensures PrevAt(prev', r', i) {
      if i != k + 1 {
        var j := if i <= k then i else i - 1;
        assert PrevAt(prev, r, j);
        assert r'[i] == r[j] && (j != u ==> r[j] != r[u]);
      }
    }
  }

  lemma RemoveForward(next: map<nat, nat>, r: seq<nat>, k: nat)
    requires Distinct(r) && Forward(next, r) && 1 <= k < |r|
    ensures NextAt(next, r, k)
    ensures Forward(next[r[k - 1] := next[r[k]]][r[k] := NULL], Removed(r, k))
  {
    assert NextAt(next, r, k);
    var r' := Removed(r, k);
    var next' := next[r[k - 1] := next[r[k]]][r[k] := NULL];
    forall i: nat | i < |r'| ensures NextAt(next', r', i) {
      var j := if i < k then i else i + 1;
      assert NextAt(next, r, j);
      assert r'[i] == r[j] && r[j] != r[k] && (j != k - 1 ==> r[j] != r[k - 1]);
    }
  }

  lemma RemoveBackward(prev: map<nat, nat>, r: seq<nat>, k: nat)
    requires Distinct(r) && Backward(prev, r) && 1 <= k < |r|
    ensures PrevAt(prev, r, k)
    ensures Backward(prev[r[Up(k, |r|)] := prev[r[k]]][r[k] := NULL], Removed(r, k))
  {
    assert PrevAt(prev, r, k);
    var r', u := Removed(r, k), Up(k, |r|);
    var prev' := prev[r[u] := prev[r[k]]][r[k] := NULL];
    forall i: nat | i < |r'| ensures PrevAt(prev', r', i) {
      var j := if i < k then i else i + 1;
      assert PrevAt(prev, r, j);
      assert r'[i] == r[j] && r[j] != r[k] && (j != u ==> r[j] != r[u]);
    }
  }

  lemma InsertDistinct(r: seq<nat>, k: nat, item: nat)
    requires Distinct(r) && k < |r| && item !in r
    ensures Distinct(InsertedAfter(r, k, item))
  {
    var r' := InsertedAfter(r, k, item);
    assert forall i :: 0 <= i < |r'| ==> r'[i] == if i <= k then r[i] else if i == k + 1 then item else r[i - 1];
  }

  lemma RemoveDistinct(r: seq<nat>, k: nat)
    requires Distinct(r) && k < |r|
    ensures Distinct(Removed(r, k)) && r[k] !in Removed(r, k)
  {
    var r' := Removed(r, k);
    assert forall i :: 0 <= i < |r'| ==> r'[i] == r[if i < k then i else i + 1];
  }

  // ----- What an operation leaves alone

  ghost predicate SameEntry(m: map<nat, nat>, m': map<nat, nat>, x: nat) {
    (x in m <==> x in m') && (x in m ==> m'[x] == m[x])
  }

  /** Only nodes of w differ. */
  ghost predicate Framed(m: map<nat, nat>, m': map<nat, nat>, w: seq<nat>) {
    forall x :: x !in w ==> SameEntry(m, m', x)
  }

  /** No node in common. */
  ghost predicate Apart(r: seq<nat>, w: seq<nat>) { forall x :: x in r ==> x !in w }

  /** A list none of whose nodes is touched is still the same list. */
  lemma {:induction false} RingFrame(
      next: map<nat, nat>, prev: map<nat, nat>, next': map<nat, nat>, prev': map<nat, nat>,
                                     r: seq<nat>, w: seq<nat>)
    requires Ring(next, prev, r) && Framed(next, next', w) && Framed(prev, prev', w) && Apart(r, w)
    ensures Ring(next', prev', r)
  {
    forall i: nat | i < |r| ensures NextAt(next', r, i) && PrevAt(prev', r, i) {
      assert NextAt(next, r, i) && PrevAt(prev, r, i);
      assert r[i] in r && SameEntry(next, next', r[i]) && SameEntry(prev, prev', r[i]);
    }
  }

  lemma {:induction false} FrameTwice(m: map<nat, nat>, m1: map<nat, nat>, m2: map<nat, nat>, v: seq<nat>, w: seq<nat>)
    requires Framed(m, m1, v) && Framed(m1, m2, w)
    ensures Framed(m, m2, v + w)
  {
    forall x | x !in v + w ensures SameEntry(m, m2, x) { assert SameEntry(m, m1, x) && SameEntry(m1, m2, x); }
  }

  lemma {:induction false} FrameWider(m: map<nat, nat>, m': map<nat, nat>, v: seq<nat>, w: seq<nat>)
    requires Framed(m, m', v) && forall x :: x in v ==> x in w
    ensures Framed(m, m', w)
  {
    forall x | x !in w ensures SameEntry(m, m', x) { assert x !in v; }
  }

  /** The pointers of all nodes. */
  class Links {
    var next: map<nat, nat>
    var prev: map<nat, nat>

    ghost predicate IsRing(r: seq<nat>) reads this { Ring(next, prev, r) }

    constructor () { next, prev := map[], map[]; }

    /** list_initialize. */
    method Initialize(list: nat)
      requires list != NULL
      modifies this
      ensures IsRing([list])
      ensures Framed(old(next), next, [list]) && Framed(old(prev), prev, [list])
    {
      prev := prev[list := list];
      next := next[list := list];
    }

    /** list_add_head, which is also list_add_after: item goes right after entry, the k-th node. */
    method AddHead(entry: nat, item: nat, ghost r: seq<nat>, ghost k: nat)
      requires IsRing(r) && item !in r && item != NULL && k < |r| && entry == r[k]
      modifies this
      ensures IsRing(InsertedAfter(r, k, item))
      ensures Framed(old(next), next, r + [item]) && Framed(old(prev), prev, r + [item])
    {
      InsertForward(next, r, k, item);
      InsertBackward(prev, r, k, item);
      InsertDistinct(r, k, item);
      var after := next[entry];
      next := next[item := after];
      prev := prev[item := entry];
      prev := prev[after := item];
      next := next[entry := item];
    }

    /** list_add_tail, which is also list_add_before: item goes right before entry. */
    method AddTail(entry: nat, item: nat, ghost r: seq<nat>, ghost k: nat)
      requires IsRing(r) && item !in r && item != NULL && k < |r| && entry == r[Up(k, |r|)]
      modifies this
      ensures IsRing(InsertedAfter(r, k, item))
      ensures Framed(old(next), next, r + [item]) && Framed(old(prev), prev, r + [item])
    {
      InsertForward(next, r, k, item);
      InsertBackward(prev, r, k, item);
      InsertDistinct(r, k, item);
      assert PrevAt(prev, r, Up(k, |r|));
      var before := prev[entry];
      prev := prev[item := before];
      next := next[item := entry];
      next := next[before := item];
      prev := prev[entry := item];
    }

    /** list_delete. */
    method Delete(item: nat, ghost r: seq<nat>, ghost k: nat)
      requires IsRing(r) && 1 <= k < |r| && item == r[k]
      modifies this
      ensures IsRing(Removed(r, k)) && item !in Removed(r, k)
      ensures item in next && item in prev && next[item] == NULL && prev[item] == NULL
      ensures Framed(old(next), next, r) && Framed(old(prev), prev, r)
    {
      RemoveForward(next, r, k);
      RemoveBackward(prev, r, k);
      RemoveDistinct(r, k);
      var after, before := next[item], prev[item];
      prev := prev[after := before];
      next := next[before := after];
      prev := prev[item := NULL];
      next := next[item := NULL];
    }

    /** list_remove_head: the first item, or NULL for an empty list. */
    method RemoveHead(list: nat, ghost r: seq<nat>) returns (item: nat)
      requires IsRing(r) && list == r[0]
      modifies this
      ensures |r| == 1 ==> item == NULL && IsRing(r)
      ensures |r| > 1 ==> item == r[1] && IsRing([list] + r[2..])
      ensures Framed(old(next), next, r) && Framed(old(prev), prev, r)
    {
      assert NextAt(next, r, 0);
      if next[list] != list {
        item := next[list];
        assert Removed(r, 1) == [list] + r[2..];
        Delete(item, r, 1);
      } else {
        item := NULL;
      }
    }

    /** list_length. */
    method Length(list: nat, ghost r: seq<nat>) returns (cnt: nat)
      requires IsRing(r) && list == r[0]
      ensures cnt == |r| - 1
    {
      cnt := 0;
      assert NextAt(next, r, 0);
      var node := next[list];
      while node != list
        invariant cnt < |r| && node == r[Up(cnt, |r|)]
        decreases |r| - cnt
      {
        assert NextAt(next, r, cnt + 1);
        node := next[node];
        cnt := cnt + 1;
      }
    }

    /** list_delete of the first node not yet passed by an iteration. */
    method Unlink(node: nat, ghost list: nat, ghost kept: seq<nat>, ghost todo: seq<nat>)
      requires todo != [] && node == todo[0] && IsRing([list] + kept + todo)
      modifies this
      ensures IsRing([list] + kept + todo[1..])
      ensures Framed(old(next), next, [list] + kept + todo) && Framed(old(prev), prev, [list] + kept + todo)
    {
      ghost var r := [list] + kept + todo;
      assert Removed(r, 1 + |kept|) == [list] + kept + todo[1..];
      Delete(node, r, 1 + |kept|);
    }
  }

  /** The first node of todo, or the list head when the walk is over. */
  function First(list: nat, todo: seq<nat>): nat { if todo == [] then list else todo[0] }

  lemma HeadIsNoItem(list: nat, kept: seq<nat>, todo: seq<nat>)
    requires Distinct([list] + kept + todo)
    ensures todo != [] ==> First(list, todo) != list
  {
    var r := [list] + kept + todo;
    assert r[0] == list && (todo != [] ==> r[1 + |kept|] == todo[0]);
  }

  lemma StartOfRing(next: map<nat, nat>, list: nat, items: seq<nat>)
    requires Forward(next, [list] + items)
    ensures list in next && next[list] == First(list, items)
  {
    assert NextAt(next, [list] + items, 0);
  }

  lemma NextInRing(next: map<nat, nat>, list: nat, kept: seq<nat>, todo: seq<nat>)
    requires Forward(next, [list] + kept + todo)
    ensures First(list, todo) in next
    ensures todo != [] ==> next[todo[0]] == First(list, todo[1..]) && First(list, todo[1..]) in next
  {
    var r := [list] + kept + todo;
    assert NextAt(next, r, 0);
    if todo != [] {
      assert NextAt(next, r, 1 + |kept|);
      if |todo| > 1 { assert NextAt(next, r, 2 + |kept|); }
    }
  }
}
