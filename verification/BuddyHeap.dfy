/**
 The allocator as it runs: free lists threaded through the heap itself, block headers written in
 front of the memory handed out, and users writing whatever they like in their own blocks.
 */
module BuddyHeap {
  import opened Bits
  import opened BuddyTiling
  import opened Sequences
  import opened BuddyArena
  import opened BuddyRuns
  import opened Options

  const NIL: int := -1

  /** From `head`, following the word stored at each block's first byte visits exactly `list`. */
  ghost predicate Chain(mem: map<nat, int>, head: int, list: seq<nat>)
    decreases |list|
  {
    if list == [] then head == NIL
    else head == list[0] && list[0] in mem && Chain(mem, mem[list[0]], list[1..])
  }

  lemma {:induction false} ChainFrame(mem: map<nat, int>, head: int, list: seq<nat>, off: nat, v: int)
    requires Chain(mem, head, list) && off !in list
    ensures Chain(mem[off := v], head, list)
    decreases |list|
  {
    if list != [] { ChainFrame(mem, mem[list[0]], list[1..], off, v); }
  }

  lemma {:induction false} ChainAt(mem: map<nat, int>, head: int, list: seq<nat>, n: nat)
    requires Chain(mem, head, list) && n < |list|
    ensures list[n] in mem && Chain(mem, mem[list[n]], list[n + 1..])
    ensures mem[list[n]] == if n + 1 < |list| then list[n + 1] else NIL
    decreases |list|
  {
    if n > 0 {
      ChainAt(mem, mem[list[0]], list[1..], n - 1);
      assert list[1..][n..] == list[n + 1..];
    }
  }

  /** Redirecting the link of list[n] past its successor removes the successor. */
  lemma {:induction false} ChainUnlink(mem: map<nat, int>, head: int, list: seq<nat>, n: nat)
    requires Chain(mem, head, list) && Distinct(list) && n + 1 < |list| && list[n + 1] in mem
    ensures Chain(mem[list[n] := mem[list[n + 1]]], head, list[..n + 1] + list[n + 2..])
    decreases |list|
  {
    var mem' := mem[list[n] := mem[list[n + 1]]];
    var r := list[..n + 1] + list[n + 2..];
    if n == 0 {
      assert r[1..] == list[2..];
      assert list[1..][1..] == list[2..];
      ChainFrame(mem, mem[list[1]], list[2..], list[0], mem[list[1]]);
    } else {
      ChainUnlink(mem, mem[list[0]], list[1..], n - 1);
      assert r[1..] == list[1..][..n] + list[1..][n + 1..];
    }
  }

  lemma {:induction false} WithoutSame(lists: seq<seq<nat>>, k: nat, x: nat)
    requires k < |lists|
    ensures x !in lists[k] ==> lists[k := Without(lists[k], x)] == lists
  {
    if x !in lists[k] { WithoutAbsent(lists[k], x); }
  }

  // ----- What the loops rely on when they write into the heap

  ghost predicate Unlisted(lists: seq<seq<nat>>, off: nat) {
    forall j :: 0 <= j < |lists| ==> off !in lists[j]
  }

  /** List k repeats nothing, shares nothing with the other lists and holds no live block. */
  ghost predicate Separate(lists: seq<seq<nat>>, live: map<nat, nat>, k: nat)
    requires k < |lists|
  {
    Distinct(lists[k]) && forall o :: o in lists[k] ==>
      o !in live && forall j :: 0 <= j < |lists| && j != k ==> o !in lists[j]
  }

  /** Every block the split loop adds, and the block it keeps, starts on no list and at no live block. */
  ghost predicate SplitSafe(lists: seq<seq<nat>>, live: map<nat, nat>, zone: nat, i: nat, index: nat)
    requires |lists| == MAX_INDEX + 1 && index <= i <= MAX_INDEX
    decreases i
  {
    if i == index then Unlisted(lists, zone) && zone !in live
    else
      var o := BuddyOff(i - 1, zone);
      Unlisted(lists, o) && o !in live && SplitSafe(FbAdd(lists, i - 1, o), live, zone, i - 1, index)
  }

  ghost predicate CoalesceSafe(lists: seq<seq<nat>>, live: map<nat, nat>, zone: nat, i: nat)
    requires |lists| == MAX_INDEX + 1 && i <= MAX_INDEX
    decreases MAX_INDEX - i
  {
    var buddy := BuddyOff(i, zone);
    Separate(lists, live, i) &&
    if i < MAX_INDEX && buddy in lists[i] then
      CoalesceSafe(lists[i := Without(lists[i], buddy)], live, Min(zone, buddy), i + 1)
    else Unlisted(lists, zone) && zone !in live
  }

  lemma {:induction false} UsedIsUnlisted(lists: seq<seq<nat>>, used: set<Block>, size: nat, b: Block)
    requires |lists| == MAX_INDEX + 1 && Good(FreeSet(lists), used, size) && b in used
    ensures Unlisted(lists, b.off)
  {
    forall j | 0 <= j < |lists| ensures b.off !in lists[j] {
      assert b.off in lists[j] ==> Block(b.off, j) in FreeSet(lists);
      forall f | f in FreeSet(lists) ensures f.off != b.off { assert Disjoint(f, b); }
    }
  }

  lemma {:induction false} GoodIsSeparate(lists: seq<seq<nat>>, a: Arena, extra: Block, size: nat, k: nat)
    requires ListsOk(lists) && Good(FreeSet(lists), LiveSet(a) + {extra}, size) && k <= MAX_INDEX
    ensures Separate(lists, a.live, k)
  {
    forall o | o in lists[k] ensures o !in a.live && forall j :: 0 <= j < |lists| && j != k ==> o !in lists[j] {
      var b := Block(o, k);
      assert forall j :: 0 <= j < |lists| && o in lists[j] ==> Block(o, j) in FreeSet(lists);
      forall j | 0 <= j < |lists| && j != k ensures o !in lists[j] {
        assert forall f :: f in FreeSet(lists) && f != b ==> Disjoint(f, b);
      }
      assert o in a.live ==> LiveBlock(a, o) in LiveSet(a);
      assert forall f :: f in LiveSet(a) ==> Disjoint(f, b);
    }
  }

  lemma {:induction false} SplitIsSafe(lists: seq<seq<nat>>, a: Arena, zone: nat, i: nat, index: nat, size: nat)
    requires ListsOk(lists) && MIN_INDEX <= index <= i <= MAX_INDEX
    requires Block(zone, i) !in LiveSet(a) && Good(FreeSet(lists), LiveSet(a) + {Block(zone, i)}, size)
    ensures SplitSafe(lists, a.live, zone, i, index)
    decreases i
  {
    var hand, live := Block(zone, i), LiveSet(a);
    if i == index {
      UsedIsUnlisted(lists, live + {hand}, size, hand);
      HandIsFresh(FreeSet(lists), a, hand, size);
    } else {
      var lo := Block(zone, i - 1);
      var hi := Buddy(lo);
      SplitKeepsGood(FreeSet(lists), live + {hand}, hand, size);
      assert live + {hand} - {hand} + {lo} == live + {lo};
      AddSet(lists, i - 1, hi.off);
      SplitIsSafe(FbAdd(lists, i - 1, hi.off), a, zone, i - 1, index, size);
      GoodIsSeparate(FbAdd(lists, i - 1, hi.off), a, lo, size, i - 1);
      AddedWasUnlisted(lists, i - 1, hi.off);
    }
  }

  lemma {:induction false} AddedWasUnlisted(lists: seq<seq<nat>>, k: nat, off: nat)
    requires |lists| == MAX_INDEX + 1 && k <= MAX_INDEX && off !in lists[k]
    requires forall j :: 0 <= j < |lists| && j != k ==> off !in FbAdd(lists, k, off)[j]
    ensures Unlisted(lists, off)
  {
    assert forall j :: 0 <= j < |lists| && j != k ==> lists[j] == FbAdd(lists, k, off)[j];
  }

  lemma {:induction false} MergeStep(lists: seq<seq<nat>>, live: set<Block>, hand: Block, size: nat)
    requires ListsOk(lists) && hand.order < MAX_INDEX && BuddyOff(hand.order, hand.off) in lists[hand.order]
    requires hand !in live && Good(FreeSet(lists), live + {hand}, size)
    ensures var r := lists[hand.order := Without(lists[hand.order], BuddyOff(hand.order, hand.off))];
            ListsOk(r) && Parent(hand) !in live && Good(FreeSet(r), live + {Parent(hand)}, size)
  {
    MergeKeepsGood(FreeSet(lists), live + {hand}, hand, size);
    RemoveSet(lists, hand.order, BuddyOff(hand.order, hand.off));
    assert live + {hand} - {hand} + {Parent(hand)} == live + {Parent(hand)};
  }

  lemma {:induction false} CoalesceIsSafe(lists: seq<seq<nat>>, a: Arena, zone: nat, i: nat, size: nat)
    requires ListsOk(lists) && MIN_INDEX <= i <= MAX_INDEX
    requires Block(zone, i) !in LiveSet(a) && Good(FreeSet(lists), LiveSet(a) + {Block(zone, i)}, size)
    ensures CoalesceSafe(lists, a.live, zone, i)
    decreases MAX_INDEX - i, 1
  {
    GoodIsSeparate(lists, a, Block(zone, i), size, i);
    if i < MAX_INDEX && BuddyOff(i, zone) in lists[i] {
      CoalesceFurther(lists, a, zone, i, size);
    } else {
      HandIsUnlisted(lists, a, Block(zone, i), size);
    }
  }

  lemma {:induction false} CoalesceFurther(lists: seq<seq<nat>>, a: Arena, zone: nat, i: nat, size: nat)
    requires ListsOk(lists) && MIN_INDEX <= i < MAX_INDEX && BuddyOff(i, zone) in lists[i]
    requires Block(zone, i) !in LiveSet(a) && Good(FreeSet(lists), LiveSet(a) + {Block(zone, i)}, size)
    ensures var buddy := BuddyOff(i, zone);
            CoalesceSafe(lists[i := Without(lists[i], buddy)], a.live, Min(zone, buddy), i + 1)
    decreases MAX_INDEX - i, 0
  {
    var buddy := BuddyOff(i, zone);
    MergeStep(lists, LiveSet(a), Block(zone, i), size);
    CoalesceIsSafe(lists[i := Without(lists[i], buddy)], a, Min(zone, buddy), i + 1, size);
  }

  lemma {:induction false} HandIsUnlisted(lists: seq<seq<nat>>, a: Arena, hand: Block, size: nat)
    requires ListsOk(lists) && hand !in LiveSet(a) && Good(FreeSet(lists), LiveSet(a) + {hand}, size)
    ensures Unlisted(lists, hand.off) && hand.off !in a.live
  {
    UsedIsUnlisted(lists, LiveSet(a) + {hand}, size, hand);
    HandIsFresh(FreeSet(lists), a, hand, size);
  }

  /** The split that follows malloc's choice of a block is safe. */
  ghost predicate AllocateSafe(a: Arena, index: nat)
    requires |a.lists| == MAX_INDEX + 1 && index <= MAX_INDEX
  {
    var i := FirstNonEmpty(a.lists, index);
    if i <= MAX_INDEX then SplitSafe(a.lists[i := a.lists[i][1..]], a.live, a.lists[i][0], i, index)
    else SplitSafe(a.lists, a.live, a.size, MAX_INDEX, index)
  }

  /** malloc's split is safe wherever its block comes from. */
  lemma {:induction false} MallocIsSafe(a: Arena, full: nat)
    requires Inv(a) && full <= 32768 && Index(full) <= MAX_INDEX
    ensures AllocateSafe(a, Index(full))
  {
    IndexIsLeast(full);
    var index := Index(full);
    var i := FirstNonEmpty(a.lists, index);
    if i <= MAX_INDEX {
      var hand := Block(a.lists[i][0], i);
      PopSet(a.lists, i);
      TakeKeepsGood(FreeSet(a.lists), LiveSet(a), hand, a.size);
      SplitIsSafe(a.lists[i := a.lists[i][1..]], a, hand.off, i, index, a.size);
    } else {
      GrowKeepsGood(FreeSet(a.lists), LiveSet(a), a.size);
      SplitIsSafe(a.lists, a, a.size, MAX_INDEX, index, a.size + PAGE_SIZE);
    }
  }

  lemma {:induction false} FreeIsSafe(a: Arena, off: nat)
    requires Inv(a) && off in a.live
    ensures Index(a.live[off]) <= MAX_INDEX && CoalesceSafe(a.lists, a.live - {off}, off, Index(a.live[off]))
  {
    IndexIsLeast(a.live[off]);
    var b := LiveBlock(a, off);
    var rest := a.(live := a.live - {off});
    LiveAfterRemove(a, rest, off);
    assert LiveSet(rest) + {b} == LiveSet(a);
    CoalesceIsSafe(a.lists, rest, off, b.order, a.size);
  }

  // ----- What a reachable heap gives the calls

  lemma MallocIsReady(a: Arena, request: nat, growOk: bool)
    requires Reachable(a) && request < 0x1_0000 && U16(request + HEADER) <= 32768
    ensures |a.lists| == MAX_INDEX + 1 && Reachable(Malloc(a, request, growOk).0)
    ensures var full := U16(request + HEADER);
            Index(full) <= MAX_INDEX ==> AllocateSafe(a, Index(full))
  {
    ReachableInv(a);
    StepIsReachable(a, CallMalloc(request, growOk));
    if Index(U16(request + HEADER)) <= MAX_INDEX { MallocIsSafe(a, U16(request + HEADER)); }
  }

  lemma {:induction false} FreeIsReady(a: Arena, off: nat)
    requires Reachable(a) && off in a.live
    ensures |a.lists| == MAX_INDEX + 1 && a.live[off] <= 32768 && Index(a.live[off]) <= MAX_INDEX
    ensures CoalesceSafe(a.lists, a.live - {off}, off, Index(a.live[off])) && Reachable(Free(a, off))
  {
    ReachableInv(a);
    FreeIsSafe(a, off);
    StepIsReachable(a, CallFree(off));
  }

  /** No block starts inside a live block. */
  lemma NoBlockInside(free: set<Block>, used: set<Block>, size: nat, mine: Block, x: nat)
    requires Good(free, used, size) && mine in used && mine.off < x < mine.off + Len(mine)
    ensures forall b :: b in free + used ==> b.off != x
  {
    forall b | b in free + used ensures b.off != x { assert b != mine ==> Disjoint(mine, b); }
  }

  /** No list and no header lives inside a live block past its own header. */
  lemma PayloadIsPrivate(a: Arena, o: nat, x: nat)
    requires Reachable(a) && o in a.live && o < x < o + Len(LiveBlock(a, o))
    ensures Unlisted(a.lists, x) && x !in a.live
  {
    ReachableInv(a);
    assert LiveBlock(a, o) in LiveSet(a);
    assert forall k :: 0 <= k < |a.lists| && x in a.lists[k] ==> Block(x, k) in FreeSet(a.lists);
    assert x in a.live ==> LiveBlock(a, x) in LiveSet(a);
    NoBlockInside(FreeSet(a.lists), LiveSet(a), a.size, LiveBlock(a, o), x);
  }

  method GetIndex(size: nat) returns (index: nat)
    requires size <= 32768
    ensures index == Index(size)
  {
    index := 0;
    var sz := 1;
    while sz < 8
      invariant index <= 3 && sz == Pow2(index)
      decreases 8 - sz
    {
      sz := U16(sz * 2);
      index := index + 1;
    }
    var blockSize := 8;
    Pow2Fifteen();
    while blockSize < size
      invariant MIN_INDEX <= index <= 15 && blockSize == Pow2(index)
      invariant Index(size) == IndexFrom(index, size)
      decreases 15 - index
    {
      if index < 15 { Pow2Monotone(index + 1, 15); }
      blockSize := U16(blockSize * 2);
      index := index + 1;
    }
  }

  class Heap {
    /** The 16-bit words of the heap written so far, by offset. */
    var mem: map<nat, int>
    /** fb_table: the offset of the first free block of each order, or NIL. */
    var head: seq<int>
    var size: nat
    ghost var lists: seq<seq<nat>>
    ghost var live: map<nat, nat>

    ghost function View(): Arena reads this { Arena(lists, live, size) }

    ghost predicate Linked() reads this {
      |head| == |lists| == MAX_INDEX + 1 && forall k :: 0 <= k <= MAX_INDEX ==> Chain(mem, head[k], lists[k])
    }

    ghost predicate HeadersKept() reads this {
      forall o :: o in live ==> o in mem && mem[o] == live[o]
    }

    ghost predicate Valid() reads this {
      Reachable(View()) && Linked() && HeadersKept()
    }

    constructor ()
      ensures Valid() && View() == EMPTY
    {
      mem, size, live := map[], 0, map[];
      head := seq(MAX_INDEX + 1, _ => NIL);
      lists := EMPTY.lists;
      new;
      assert Reaches(EMPTY, [], View());
    }

    method FbAdd(k: nat, off: nat)
      requires Linked() && HeadersKept() && k <= MAX_INDEX && Unlisted(lists, off) && off !in live
      modifies this
      ensures Linked() && HeadersKept() && live == old(live) && size == old(size)
      ensures lists == BuddyArena.FbAdd(old(lists), k, off)
    {
      forall j | 0 <= j <= MAX_INDEX ensures Chain(mem[off := head[k]], head[j], lists[j]) {
        ChainFrame(mem, head[j], lists[j], off, head[k]);
      }
      mem := mem[off := head[k]];
      head := head[k := off];
      lists := BuddyArena.FbAdd(lists, k, off);
      assert lists[k][1..] == old(lists)[k];
    }

    method FbPop(k: nat) returns (block: int)
      requires Linked() && HeadersKept() && k <= MAX_INDEX
      modifies this
      ensures Linked() && HeadersKept() && live == old(live) && size == old(size)
      ensures old(lists[k]) == [] ==> block == NIL && lists == old(lists)
      ensures old(lists[k]) != [] ==> block == old(lists[k])[0] && lists == old(lists)[k := old(lists[k])[1..]]
    {
      block := head[k];
      assert Chain(mem, head[k], lists[k]);
      if block != NIL {
        head := head[k := mem[block]];
        lists := lists[k := lists[k][1..]];
      }
    }

    method FbRemove(k: nat, off: nat) returns (found: bool)
      requires Linked() && HeadersKept() && k <= MAX_INDEX && Separate(lists, live, k)
      modifies this
      ensures Linked() && HeadersKept() && live == old(live) && size == old(size)
      ensures found <==> off in old(lists[k])
      ensures lists == old(lists)[k := Without(old(lists[k]), off)]
    {
      ghost var list := lists[k];
      assert Chain(mem, head[k], list);
      var block, next := NIL, head[k];    // block == NIL stands for the table entry itself
      ghost var n := 0;                   // blocks passed so far
      while next != NIL && next != off
        invariant n <= |list| && off !in list[..n] && Linked()
        invariant lists == old(lists) && mem == old(mem) && head == old(head) && live == old(live) && size == old(size)
        invariant block == if n == 0 then NIL else list[n - 1]
        invariant next == if n < |list| then list[n] else NIL
        decreases |list| - n
      {
        ChainAt(mem, head[k], list, n);
        block, next := next, mem[next];
        n := n + 1;
      }
      found := next == off;
      if found {
        ChainAt(mem, head[k], list, n);
        Unlink(k, off, block, n);
      } else {
        assert list[..n] == list;
        WithoutAbsent(list, off);
        assert lists[k := list] == lists;
      }
    }

    /** block->next = block->next->next, for the n-th block of list k. */
    method Unlink(k: nat, off: nat, block: int, ghost n: nat)
      requires Linked() && HeadersKept() && k <= MAX_INDEX && Separate(lists, live, k)
      requires n < |lists[k]| && lists[k][n] == off && block == if n == 0 then NIL else lists[k][n - 1]
      modifies this
      ensures Linked() && HeadersKept() && live == old(live) && size == old(size)
      ensures lists == old(lists)[k := Without(old(lists[k]), off)]
    {
      ghost var list := lists[k];
      assert Chain(mem, head[k], list);
      ChainAt(mem, head[k], list, n);
      WithoutAt(list, n);
      if block == NIL {
        assert list[..0] + list[1..] == list[1..];
        head := head[k := mem[off]];
      } else {
        assert block in list;
        ChainUnlink(mem, head[k], list, n - 1);
        forall j | 0 <= j <= MAX_INDEX && j != k ensures Chain(mem[block := mem[off]], head[j], lists[j]) {
          ChainFrame(mem, head[j], lists[j], block, mem[off]);
        }
        mem := mem[block := mem[off]];
      }
      lists := lists[k := Without(list, off)];
    }


    /** malloc: the result is the offset just past the header, or NIL. */
    method Malloc(request: nat, growOk: bool) returns (ptr: int)
      requires Valid() && request < 0x1_0000 && U16(request + HEADER) <= 32768
      modifies this
      ensures Valid()
      ensures View() == BuddyArena.Malloc(old(View()), request, growOk).0
      ensures var p := BuddyArena.Malloc(old(View()), request, growOk).1;
              ptr == if p.Some? then p.value + HEADER else NIL
    {
      MallocIsReady(View(), request, growOk);
      if request == 0 { return NIL; }
      var full := U16(request + HEADER);
      var index := GetIndex(full);
      if index > MAX_INDEX { return NIL; }
      ptr := Carve(index, full, growOk);
    }

    /** The part of malloc that changes the heap. */
    method Carve(index: nat, full: nat, growOk: bool) returns (ptr: int)
      requires Linked() && HeadersKept() && index == Index(full) <= MAX_INDEX && AllocateSafe(View(), index)
      modifies this
      ensures Linked() && HeadersKept()
      ensures View() == Allocate(old(View()), full, growOk).0
      ensures var p := Allocate(old(View()), full, growOk).1; ptr == if p.Some? then p.value + HEADER else NIL
    {
      var zone, i := TakeBlock(index, growOk);
      if zone == NIL { return NIL; }
      SplitToIndex(i, index, zone);
      WriteHeader(zone, full);
      return zone + HEADER;
    }

    /** The search loop over the lists, then sbrk. */
    method TakeBlock(index: nat, growOk: bool) returns (zone: int, i: nat)
      requires Linked() && HeadersKept() && index <= MAX_INDEX
      modifies this
      ensures Linked() && HeadersKept() && live == old(live)
      ensures var first := FirstNonEmpty(old(lists), index);
              if first <= MAX_INDEX then
                i == first && zone == old(lists)[i][0] && size == old(size)
                && lists == old(lists)[i := old(lists)[i][1..]]
              else if growOk then
                i == MAX_INDEX && zone == old(size) && size == old(size) + PAGE_SIZE && lists == old(lists)
              else zone == NIL && size == old(size) && lists == old(lists)
    {
      i := index;
      zone := FbPop(i);
      while zone == NIL && i < MAX_INDEX
        invariant index <= i <= MAX_INDEX && Linked() && HeadersKept() && live == old(live) && size == old(size)
        invariant FirstNonEmpty(old(lists), index) == if zone == NIL then FirstNonEmpty(old(lists), i + 1) else i
        invariant zone == NIL ==> lists == old(lists)
        invariant zone != NIL ==> old(lists)[i] != [] && zone == old(lists)[i][0]
        invariant zone != NIL ==> lists == old(lists)[i := old(lists)[i][1..]]
        decreases MAX_INDEX - i, zone == NIL
      {
        i := i + 1;
        zone := FbPop(i);
      }
      if zone == NIL && growOk {
        zone := size;
        size := size + PAGE_SIZE;
        i := MAX_INDEX;
      }
    }

    /** The split loop. */
    method SplitToIndex(top: nat, index: nat, zone: nat)
      requires Linked() && HeadersKept() && index <= top <= MAX_INDEX && SplitSafe(lists, live, zone, top, index)
      modifies this
      ensures Linked() && HeadersKept() && live == old(live) && size == old(size)
      ensures lists == SplitDown(old(lists), zone, top, index) && Unlisted(lists, zone) && zone !in live
    {
      var i := top;
      while i > index
        invariant index <= i <= top && Linked() && HeadersKept() && live == old(live) && size == old(size)
        invariant SplitSafe(lists, live, zone, i, index)
        invariant SplitDown(lists, zone, i, index) == SplitDown(old(lists), zone, top, index)
      {
        i := i - 1;
        FbAdd(i, BuddyOff(i, zone));
      }
    }

    method WriteHeader(zone: nat, full: nat)
      requires Linked() && HeadersKept() && Unlisted(lists, zone) && zone !in live
      modifies this
      ensures Linked() && HeadersKept() && lists == old(lists) && size == old(size) && live == old(live)[zone := full]
    {
      forall j | 0 <= j <= MAX_INDEX ensures Chain(mem[zone := full], head[j], lists[j]) {
        ChainFrame(mem, head[j], lists[j], zone, full);
      }
      mem := mem[zone := full];
      live := live[zone := full];
    }

    /** free of the block whose payload starts at ptr. */
    method Free(ptr: int)
      requires Valid() && (ptr == NIL || (ptr >= HEADER && ptr - HEADER in live))
      modifies this
      ensures Valid()
      ensures ptr == NIL ==> View() == old(View())
      ensures ptr != NIL ==>
                Index(old(live)[ptr - HEADER]) <= MAX_INDEX && View() == BuddyArena.Free(old(View()), ptr - HEADER)
    {
      if ptr == NIL { return; }
      var zone: nat := ptr - HEADER;
      FreeIsReady(View(), zone);
      Release(zone);
    }

    /** The part of free that changes the heap: the header tells the order, the block merges upwards. */
    method Release(zone: nat)
      requires Linked() && HeadersKept() && zone in live && live[zone] <= 32768 && Index(live[zone]) <= MAX_INDEX
      requires CoalesceSafe(lists, live - {zone}, zone, Index(live[zone]))
      modifies this
      ensures Linked() && HeadersKept() && View() == BuddyArena.Free(old(View()), zone)
    {
      var i := GetIndex(mem[zone]);
      live := live - {zone};
      MergeUp(zone, i);
    }

    /** The merge loop, then the insertion of the merged block. */
    method MergeUp(off: nat, order: nat)
      requires Linked() && HeadersKept() && order <= MAX_INDEX && CoalesceSafe(lists, live, off, order)
      modifies this
      ensures Linked() && HeadersKept() && live == old(live) && size == old(size)
      ensures lists == Coalesce(old(lists), off, order)
    {
      var zone, i := off, order;
      var merge := TryMerge(i, zone);
      while merge
        invariant i <= MAX_INDEX && Linked() && HeadersKept() && live == old(live) && size == old(size)
        invariant Merging(i, zone, merge) && Coalesce(old(lists), off, order) == Merged(i, zone, merge)
        decreases MAX_INDEX - i, merge
      {
        MergeOn(i, zone);
        zone := Min(zone, BuddyOff(i, zone));
        i := i + 1;
        merge := TryMerge(i, zone);
      }
      FbAdd(i, zone);
    }

    /** The state of the merge loop: the buddy has just been taken off its list, or was not there. */
    ghost predicate Merging(i: nat, zone: nat, merge: bool)
      reads this
      requires |lists| == MAX_INDEX + 1 && i <= MAX_INDEX
    {
      if merge then i < MAX_INDEX && CoalesceSafe(lists, live, Min(zone, BuddyOff(i, zone)), i + 1)
      else
        && (i == MAX_INDEX || BuddyOff(i, zone) !in lists[i])
        && Unlisted(lists, zone) && zone !in live
    }

    /** What the loop will leave. */
    ghost function Merged(i: nat, zone: nat, merge: bool): seq<seq<nat>>
      reads this
      requires |lists| == MAX_INDEX + 1 && i <= MAX_INDEX && Merging(i, zone, merge)
    {
      if merge then Coalesce(lists, Min(zone, BuddyOff(i, zone)), i + 1) else BuddyArena.FbAdd(lists, i, zone)
    }

    /** What is left to merge is the loop's own next round. */
    lemma {:induction false} MergeOn(i: nat, zone: nat)
      requires |lists| == MAX_INDEX + 1 && i <= MAX_INDEX && Merging(i, zone, true)
      ensures var z := Min(zone, BuddyOff(i, zone));
        i < MAX_INDEX && CoalesceSafe(lists, live, z, i + 1) && Merged(i, zone, true) == Coalesce(lists, z, i + 1)
    {}

    /** The condition of the merge loop, which takes the buddy off its list if it is there. */
    method TryMerge(i: nat, zone: nat) returns (merge: bool)
      requires Linked() && HeadersKept() && i <= MAX_INDEX && CoalesceSafe(lists, live, zone, i)
      modifies this
      ensures Linked() && HeadersKept() && live == old(live) && size == old(size)
      ensures Merging(i, zone, merge) && Merged(i, zone, merge) == Coalesce(old(lists), zone, i)
    {
      merge := false;
      if i < MAX_INDEX {
        WithoutSame(lists, i, BuddyOff(i, zone));
        merge := FbRemove(i, BuddyOff(i, zone));
      }
    }

    /** Users may store anything anywhere in a live block past its header. */
    method UserWrite(o: nat, x: nat, v: int)
      requires Valid() && o in live && o + HEADER <= x < o + Len(LiveBlock(View(), o))
      modifies this`mem
      ensures Valid() && View() == old(View()) && mem == old(mem)[x := v]
    {
      PayloadIsPrivate(View(), o, x);
      forall k | 0 <= k <= MAX_INDEX ensures Chain(mem[x := v], head[k], lists[k]) {
        ChainFrame(mem, head[k], lists[k], x, v);
      }
      mem := mem[x := v];
    }
  }
}
