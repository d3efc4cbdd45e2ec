/** What callers of malloc and free get, over every run of calls on live pointers. */
module BuddyRuns {
  import opened Bits
  import opened BuddyTiling
  import opened BuddyArena
  import opened Options

  datatype Op = CallMalloc(size: nat, growOk: bool) | CallFree(off: nat)

  /** A 16-bit size on which getindex stops, or a pointer malloc returned and nobody freed since. */
  predicate Legal(a: Arena, op: Op) {
    match op
    case CallMalloc(size, _) => size < 0x1_0000 && U16(size + HEADER) <= 32768
    case CallFree(off) => off in a.live
  }

  function Step(a: Arena, op: Op): Arena
    requires |a.lists| == MAX_INDEX + 1
    requires Legal(a, op)
  {
    match op
    case CallMalloc(size, growOk) => Malloc(a, size, growOk).0
    case CallFree(off) => if Index(a.live[off]) <= MAX_INDEX then Free(a, off) else a
  }

  /** a' is reached from a by the legal calls ops. */
  ghost predicate Reaches(a: Arena, ops: seq<Op>, a': Arena)
    decreases |ops|
  {
    if ops == [] then a' == a
    else |a.lists| == MAX_INDEX + 1 && Legal(a, ops[0]) && Reaches(Step(a, ops[0]), ops[1..], a')
  }

  lemma EmptyIsGood()
    ensures Inv(EMPTY)
  {
    assert FreeSet(EMPTY.lists) == {} && LiveSet(EMPTY) == {};
  }

  lemma {:induction false} RunKeepsInv(a: Arena, ops: seq<Op>, a': Arena)
    requires Inv(a) && Reaches(a, ops, a')
    ensures Inv(a')
    decreases |ops|
  {
    if ops != [] {
      match ops[0] {
        case CallMalloc(size, growOk) => MallocKeepsInv(a, size, growOk);
        case CallFree(off) => FreeKeepsInv(a, off);
      }
      RunKeepsInv(Step(a, ops[0]), ops[1..], a');
    }
  }

  lemma {:induction false} ReachesSnoc(a: Arena, ops: seq<Op>, b: Arena, op: Op)
    requires Reaches(a, ops, b) && |b.lists| == MAX_INDEX + 1 && Legal(b, op)
    ensures Reaches(a, ops + [op], Step(b, op))
    decreases |ops|
  {
    if ops == [] {
      ReachesCons(a, op, [], Step(a, op));
      assert [op] + [] == [] + [op];
    } else {
      ReachesSnoc(Step(a, ops[0]), ops[1..], b, op);
      ReachesCons(a, ops[0], ops[1..] + [op], Step(b, op));
      assert [ops[0]] + (ops[1..] + [op]) == ops + [op];
    }
  }

  lemma {:induction false} ReachesCons(a: Arena, op: Op, ops: seq<Op>, b: Arena)
    requires |a.lists| == MAX_INDEX + 1 && Legal(a, op) && Reaches(Step(a, op), ops, b)
    ensures Reaches(a, [op] + ops, b)
  {
    assert ([op] + ops)[1..] == ops;
  }

  /** Some run of legal calls on a fresh heap leads to a. */
  ghost predicate Reachable(a: Arena) { exists ops :: Reaches(EMPTY, ops, a) }

  lemma ReachableInv(a: Arena)
    requires Reachable(a)
    ensures Inv(a)
  {
    var ops :| Reaches(EMPTY, ops, a);
    EmptyIsGood();
    RunKeepsInv(EMPTY, ops, a);
  }

  lemma StepIsReachable(a: Arena, op: Op)
    requires Reachable(a) && |a.lists| == MAX_INDEX + 1 && Legal(a, op)
    ensures Reachable(Step(a, op))
  {
    var ops :| Reaches(EMPTY, ops, a);
    ReachesSnoc(EMPTY, ops, a, op);
  }

  /** Free and live blocks partition the heap in every reachable state, so live blocks never overlap. */
  lemma {:induction false} EveryRunTilesTheHeap(ops: seq<Op>, a: Arena)
    requires Reaches(EMPTY, ops, a)
    ensures Inv(a) && Tiles(FreeSet(a.lists) + LiveSet(a), a.size) && FreeSet(a.lists) !! LiveSet(a)
    ensures forall o :: o in a.live ==> o + a.live[o] <= o + Len(LiveBlock(a, o)) <= a.size
    ensures forall o, p :: o in a.live && p in a.live && o < p ==> o + a.live[o] <= p
  {
    EmptyIsGood();
    RunKeepsInv(EMPTY, ops, a);
    forall o | o in a.live ensures o + a.live[o] <= o + Len(LiveBlock(a, o)) <= a.size {
      IndexIsLeast(a.live[o]);
      assert LiveBlock(a, o) in LiveSet(a);
    }
    forall o, p | o in a.live && p in a.live && o < p ensures o + a.live[o] <= p {
      assert LiveBlock(a, o) in LiveSet(a) && LiveBlock(a, p) in LiveSet(a);
      assert Disjoint(LiveBlock(a, o), LiveBlock(a, p));
    }
  }

  /** Whatever the histories, the same live blocks in heaps of the same size leave the same free blocks. */
  lemma {:induction false} HistoryDoesNotMatter(ops1: seq<Op>, a1: Arena, ops2: seq<Op>, a2: Arena)
    requires Reaches(EMPTY, ops1, a1) && Reaches(EMPTY, ops2, a2)
    requires LiveSet(a1) == LiveSet(a2) && a1.size == a2.size
    ensures Inv(a1) && Inv(a2) && FreeSet(a1.lists) == FreeSet(a2.lists)
  {
    EveryRunTilesTheHeap(ops1, a1);
    EveryRunTilesTheHeap(ops2, a2);
    FreeSetIsDetermined(FreeSet(a1.lists), FreeSet(a2.lists), LiveSet(a1), a1.size);
  }

  lemma {:induction false} FreesCommute(a: Arena, o: nat, p: nat)
    requires Inv(a) && o in a.live && p in a.live && o != p
    ensures Index(a.live[o]) <= MAX_INDEX && Index(a.live[p]) <= MAX_INDEX
    ensures FreeSet(Free(Free(a, o), p).lists) == FreeSet(Free(Free(a, p), o).lists)
  {
    hide Good, LiveBlock;
    var x := FreedTwice(a, o, p);
    var y := FreedTwice(a, p, o);
    assert {LiveBlock(a, o), LiveBlock(a, p)} == {LiveBlock(a, p), LiveBlock(a, o)};
    FreeSetIsDetermined(FreeSet(x.lists), FreeSet(y.lists), LiveSet(x), a.size);
  }

  lemma {:induction false} FreedTwice(a: Arena, o: nat, p: nat) returns (x: Arena)
    requires Inv(a) && o in a.live && p in a.live && o != p
    ensures Index(a.live[o]) <= MAX_INDEX && Index(a.live[p]) <= MAX_INDEX
    ensures x == Free(Free(a, o), p) && Inv(x) && x.size == a.size
    ensures LiveSet(x) == LiveSet(a) - {LiveBlock(a, o), LiveBlock(a, p)}
  {
    FreeKeepsInv(a, o);
    FreeKeepsInv(Free(a, o), p);
    x := Free(Free(a, o), p);
  }

  /** free undoes malloc: the free blocks are back, together with the page if sbrk added one. */
  lemma FreeUndoesMalloc(a: Arena, size: nat, growOk: bool)
    requires Inv(a) && U16(size + HEADER) <= 32768
    ensures var (b, p) := Malloc(a, size, growOk);
            p.Some? ==>
              p.value in b.live && Index(b.live[p.value]) <= MAX_INDEX
              && (b.size == a.size ==> FreeSet(Free(b, p.value).lists) == FreeSet(a.lists))
              && (b.size != a.size ==>
                    b.size == a.size + PAGE_SIZE
                    && FreeSet(Free(b, p.value).lists) == FreeSet(a.lists) + {Block(a.size, MAX_INDEX)})
  {
    var (b, p) := Malloc(a, size, growOk);
    MallocKeepsInv(a, size, growOk);
    if p.Some? { FreeRestores(a, b, p.value); }
  }

  lemma FreeRestores(a: Arena, b: Arena, off: nat)
    requires Inv(a) && Inv(b) && off !in a.live && off in b.live && b.live == a.live[off := b.live[off]]
    requires b.size == a.size || b.size == a.size + PAGE_SIZE
    ensures Index(b.live[off]) <= MAX_INDEX
    ensures b.size == a.size ==> FreeSet(Free(b, off).lists) == FreeSet(a.lists)
    ensures b.size != a.size ==> FreeSet(Free(b, off).lists) == FreeSet(a.lists) + {Block(a.size, MAX_INDEX)}
  {
    var c := FreedAgain(a, b, off);
    if b.size == a.size {
      FreeSetIsDetermined(FreeSet(c.lists), FreeSet(a.lists), LiveSet(a), a.size);
    } else {
      FreePage(a);
      FreeSetIsDetermined(FreeSet(c.lists), FreeSet(a.lists) + {Block(a.size, MAX_INDEX)}, LiveSet(a), b.size);
    }
  }

  lemma FreedAgain(a: Arena, b: Arena, off: nat) returns (c: Arena)
    requires Inv(b) && off !in a.live && off in b.live && b.live == a.live[off := b.live[off]]
    ensures Index(b.live[off]) <= MAX_INDEX
    ensures c == Free(b, off) && Inv(c) && LiveSet(c) == LiveSet(a) && c.size == b.size
  {
    FreeKeepsInv(b, off);
    c := Free(b, off);
    assert c.live == a.live;
  }

  lemma FreePage(a: Arena)
    requires Inv(a)
    ensures Good(FreeSet(a.lists) + {Block(a.size, MAX_INDEX)}, LiveSet(a), a.size + PAGE_SIZE)
  {
    var page, used := Block(a.size, MAX_INDEX), LiveSet(a);
    GrowKeepsGood(FreeSet(a.lists), used, a.size);
    ReleaseKeepsGood(FreeSet(a.lists), used + {page}, page, a.size + PAGE_SIZE);
    assert used + {page} - {page} == used;
  }

  /** With nothing live, the free blocks are the whole pages of the heap and nothing else. */
  lemma {:induction false} FreeingEverythingLeavesPages(ops: seq<Op>, a: Arena, b: Block)
    requires Reaches(EMPTY, ops, a) && a.live == map[]
    ensures Inv(a)
    ensures b in FreeSet(a.lists) <==> b.order == MAX_INDEX && b.off % PAGE_SIZE == 0 && b.off < a.size
  {
    EveryRunTilesTheHeap(ops, a);
    FreeIsMaximalGap(FreeSet(a.lists), LiveSet(a), a.size, b);
    assert LiveSet(a) == {};
    EmptyHeapGaps(b, a.size);
  }

  lemma EmptyHeapGaps(b: Block, size: nat)
    requires size % PAGE_SIZE == 0
    ensures MaximalGap(b, {}, size) <==> b.order == MAX_INDEX && b.off % PAGE_SIZE == 0 && b.off < size
  {
    PageAligned(0);
    AlignedIsMultiple(b.off, MAX_INDEX);
  }

  ghost predicate HasRoom(a: Arena, order: nat) {
    exists r: Block :: r.order == order && WellFormed(r, a.size) && ClearOf(r, LiveSet(a))
  }

  /**
   malloc never misses memory: it asks sbrk exactly when no aligned block of the right order lies
   clear of the live blocks, and returns null exactly when the request is empty, above a page with
   its header, or such a block is missing and sbrk fails.
   */
  lemma MallocFailsIff(a: Arena, size: nat, growOk: bool)
    requires Inv(a) && U16(size + HEADER) <= 32768
    ensures var full := U16(size + HEADER);
            var (b, p) := Malloc(a, size, growOk);
            && (p.None? <==> size == 0 || full > PAGE_SIZE || (!HasRoom(a, Index(full)) && !growOk))
            && (b.size == a.size <==> p.None? || HasRoom(a, Index(full)))
  {
    var full := U16(size + HEADER);
    var index := Index(full);
    IndexIsLeast(full);
    if index <= MAX_INDEX {
      var i := FirstNonEmpty(a.lists, index);
      if i <= MAX_INDEX {
        var c := Block(a.lists[i][0], i);
        assert c in FreeSet(a.lists);
        var r := Block(c.off, index);
        LowPart(c, index);
        FreeBlockIsMaximal(FreeSet(a.lists), LiveSet(a), a.size, c);
        assert WellFormed(r, a.size) && ClearOf(r, LiveSet(a));
      } else if HasRoom(a, index) {
        var r: Block :| r.order == index && WellFormed(r, a.size) && ClearOf(r, LiveSet(a));
        var c := ClearRegionIsFree(FreeSet(a.lists), LiveSet(a), a.size, r);
        assert false;
      }
    }
  }

  lemma {:induction false} LowPart(b: Block, k: nat)
    requires k <= b.order && Aligned(b.off, b.order)
    ensures Aligned(b.off, k) && Pow2(k) <= Len(b)
    decreases b.order - k
  {
    if k < b.order {
      LowPart(b, k + 1);
      AlignedStepDown(b.off, k);
    }
  }

  /** The free block b has room for the request and its two-byte header. */
  ghost predicate Holds(a: Arena, b: Block, size: nat)
    requires Inv(a)
  {
    b in FreeSet(a.lists) && size + 2 <= Pow2(b.order)
  }

  lemma {:induction false} HoldsIff(a: Arena, b: Block, size: nat)
    requires Inv(a) && size + 2 <= 4096 && b in FreeSet(a.lists)
    ensures Holds(a, b, size) <==> Index(size + 2) <= b.order
  {
    assert MIN_INDEX <= b.order <= MAX_INDEX;
    OrderFits(size + 2, b.order);
    hide Inv, Index;
  }

  lemma {:induction false} OrderFits(n: nat, k: nat)
    requires n <= 4096 && MIN_INDEX <= k <= MAX_INDEX
    ensures n <= Pow2(k) <==> Index(n) <= k
  {
    IndexIsLeast(n);
    hide Index;
    if Index(n) <= k { Pow2Monotone(Index(n), k); }
  }

  /** The free blocks with room are those from the first non-empty list on. */
  lemma {:induction false} FirstHolds(a: Arena, size: nat)
    requires Inv(a) && size + 2 <= 4096
    ensures Index(size + 2) <= MAX_INDEX
    ensures var i := FirstNonEmpty(a.lists, Index(size + 2));
      && (forall c :: Holds(a, c, size) ==> i <= c.order && i <= MAX_INDEX)
      && (i <= MAX_INDEX ==> Holds(a, Block(a.lists[i][0], i), size))
  {
    IndexIsLeast(size + 2);
    var i := FirstNonEmpty(a.lists, Index(size + 2));
    forall c | Holds(a, c, size) ensures i <= c.order && i <= MAX_INDEX {
      HoldsIff(a, c, size);
      assert a.lists[c.order] != [];
    }
    if i <= MAX_INDEX { HoldsIff(a, Block(a.lists[i][0], i), size); }
  }

  /**
   malloc starts at the beginning of a free block of the least order that has room, or of a new page
   of 4096 bytes if no free block has.
   */
  lemma {:induction false} MallocTakesSmallest(a: Arena, size: nat, growOk: bool)
    requires Inv(a) && 0 < size && size + 2 <= 4096
    ensures var (a', p) := Malloc(a, size, growOk);
      if exists b :: Holds(a, b, size) then
        p.Some? && a'.size == a.size
        && exists b :: Holds(a, b, size) && b.off == p.value && forall c :: Holds(a, c, size) ==> b.order <= c.order
      else if growOk then p == Some(a.size) && a'.size == a.size + 4096
      else p.None?
  {
    FirstHolds(a, size);
    assert |a.lists| == MAX_INDEX + 1;
    MallocStarts(a, size, growOk);
    hide Inv, Holds, Index, FirstNonEmpty, Malloc;
    var i := FirstNonEmpty(a.lists, Index(size + 2));
    if i <= MAX_INDEX { assert Holds(a, Block(a.lists[i][0], i), size); }
  }

  lemma MallocStarts(a: Arena, size: nat, growOk: bool)
    requires |a.lists| == MAX_INDEX + 1 && 0 < size && size + 2 <= 4096 && Index(size + 2) <= MAX_INDEX
    ensures var (a', p), i := Malloc(a, size, growOk), FirstNonEmpty(a.lists, Index(size + 2));
      if i <= MAX_INDEX then p == Some(a.lists[i][0]) && a'.size == a.size
      else if growOk then p == Some(a.size) && a'.size == a.size + 4096
      else p.None?
  {
    hide Index, FirstNonEmpty, SplitDown;
  }

  /**
   The block holds the header and the requested bytes exactly when size + 2 does not wrap: for the
   two largest sizes the sum is 0 or 1 and malloc hands out an 8-byte block.
   */
  lemma RequestFitsIff(a: Arena, size: nat, growOk: bool)
    requires Inv(a) && size < 0x1_0000 && U16(size + HEADER) <= 32768
    ensures var (b, p) := Malloc(a, size, growOk);
            p.Some? ==>
              p.value in b.live
              && (HEADER + size <= Len(LiveBlock(b, p.value)) <==> size + HEADER < 0x1_0000)
  {
    var (b, p) := Malloc(a, size, growOk);
    MallocKeepsInv(a, size, growOk);
    IndexIsLeast(U16(size + HEADER));
    Pow2Fifteen();
    if p.Some? {
      assert LiveBlock(b, p.value) in LiveSet(b);
      Pow2Monotone(LiveBlock(b, p.value).order, MAX_INDEX);
    }
  }

  /** malloc(65535) succeeds with a block of 8 bytes. */
  lemma WrappedRequest()
    ensures var (b, p) := Malloc(EMPTY, 65535, true);
            p == Some(0) && 0 in b.live && Len(LiveBlock(b, 0)) == 8
  {
    Pow2Fifteen();
    assert Index(U16(65535 + HEADER)) == MIN_INDEX;
    assert FirstNonEmpty(EMPTY.lists, MIN_INDEX) == MAX_INDEX + 1;
  }
}
