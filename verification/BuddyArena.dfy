/**
 The allocator as a state machine over its thirteen free lists: what malloc and free do to the
 lists, the invariant every run keeps, and what follows for the callers.
 */
module BuddyArena {
  import opened Bits
  import opened BuddyTiling
  import opened Sequences
  import opened Options

  const HEADER: nat := 2      // sizeof(struct block_header)

  /** lists[k] is the free list of order k, head first; live maps a block's offset to its header size. */
  datatype Arena = Arena(lists: seq<seq<nat>>, live: map<nat, nat>, size: nat)

  const EMPTY: Arena := Arena([[], [], [], [], [], [], [], [], [], [], [], [], []], map[], 0)

  // ----- getindex

  function IndexFrom(k: nat, size: nat): (r: nat)
    requires k <= 16
    decreases 16 - k
  {
    if k == 16 || size <= Pow2(k) then k else IndexFrom(k + 1, size)
  }

  /** getindex: the order of the smallest block that holds `size` bytes. */
  function Index(size: nat): nat { IndexFrom(MIN_INDEX, size) }

  lemma {:induction false} IndexFromIsLeast(k: nat, size: nat)
    requires k <= 16 && size <= 32768
    ensures k <= IndexFrom(k, size)
    ensures k <= 15 ==> size <= Pow2(IndexFrom(k, size)) && IndexFrom(k, size) <= 15
    ensures IndexFrom(k, size) > k ==> Pow2(IndexFrom(k, size) - 1) < size
    decreases 16 - k
  {
    Pow2Fifteen();
    if k < 16 && size > Pow2(k) { IndexFromIsLeast(k + 1, size); }
  }

  lemma Pow2Fifteen()
    ensures Pow2(15) == 32768 && Pow2(14) == 16384 && Pow2(3) == 8 && Pow2(12) == 4096 && Pow2(13) == 8192
  {
    PageAligned(0);
    assert Pow2(15) == 2 * Pow2(14) && Pow2(14) == 2 * Pow2(13);
  }

  /** getindex gives an order that fits, and no smaller order from 3 up does. */
  lemma IndexIsLeast(size: nat)
    requires size <= 32768
    ensures MIN_INDEX <= Index(size) <= 15 && size <= Pow2(Index(size))
    ensures forall k: nat :: MIN_INDEX <= k < Index(size) ==> Pow2(k) < size
    ensures Index(size) <= MAX_INDEX <==> size <= PAGE_SIZE
  {
    IndexFromIsLeast(MIN_INDEX, size);
    Pow2Fifteen();
    forall k: nat | MIN_INDEX <= k < Index(size) ensures Pow2(k) < size {
      Pow2Monotone(k, Index(size) - 1);
    }
    if Index(size) <= MAX_INDEX { Pow2Monotone(Index(size), MAX_INDEX); }
  }

  /** Value of getindex's 16-bit block_size after n rounds of its second loop. */
  function BlockSizeAfter(n: nat): nat {
    if n == 0 then 8 else U16(BlockSizeAfter(n - 1) * 2)
  }

  lemma {:induction false} BlockSizeAfterValue(n: nat)
    ensures BlockSizeAfter(n) == if n <= 12 then Pow2(n + 3) else 0
  {
    Pow2Fifteen();
    if n > 0 {
      BlockSizeAfterValue(n - 1);
      if n <= 12 { Pow2Monotone(n + 2, 14); }
      DoubleWraps(BlockSizeAfter(n - 1));
    }
  }

  lemma DoubleWraps(x: nat)
    ensures x <= 0x4000 ==> U16(x * 2) == 2 * x
    ensures x == 0x8000 ==> U16(x * 2) == 0
  {}

  /** getindex returns exactly for sizes up to 32768; above, its shifted block size falls to 0 for ever. */
  lemma GetIndexStopsIff(size: nat)
    ensures (exists n: nat :: BlockSizeAfter(n) >= size) <==> size <= 32768
  {
    Pow2Fifteen();
    if size <= 32768 {
      BlockSizeAfterValue(12);
      assert BlockSizeAfter(12) >= size;
    } else {
      forall n: nat ensures BlockSizeAfter(n) < size {
        BlockSizeAfterValue(n);
        if n <= 12 { Pow2Monotone(n + 3, 15); }
      }
    }
  }

  // ----- The lists

  function FbAdd(lists: seq<seq<nat>>, k: nat, off: nat): seq<seq<nat>>
    requires k < |lists|
  {
    lists[k := [off] + lists[k]]
  }

  function FirstNonEmpty(lists: seq<seq<nat>>, i: nat): (j: nat)
    requires |lists| == MAX_INDEX + 1 && i <= MAX_INDEX + 1
    ensures i <= j <= MAX_INDEX + 1
    ensures j <= MAX_INDEX ==> lists[j] != []
    ensures forall k :: i <= k < j ==> lists[k] == []
    decreases MAX_INDEX + 1 - i
  {
    if i > MAX_INDEX || lists[i] != [] then i else FirstNonEmpty(lists, i + 1)
  }

  /** The split loop of malloc: upper halves go to the free lists until the block has order `index`. */
  function SplitDown(lists: seq<seq<nat>>, zone: nat, i: nat, index: nat): (r: seq<seq<nat>>)
    requires |lists| == MAX_INDEX + 1 && index <= i <= MAX_INDEX
    ensures |r| == MAX_INDEX + 1
    decreases i
  {
    if i == index then lists
    else SplitDown(FbAdd(lists, i - 1, BuddyOff(i - 1, zone)), zone, i - 1, index)
  }

  /** The merge loop of free, ending with the insertion of the merged block. */
  function Coalesce(lists: seq<seq<nat>>, zone: nat, i: nat): (r: seq<seq<nat>>)
    requires |lists| == MAX_INDEX + 1 && i <= MAX_INDEX
    ensures |r| == MAX_INDEX + 1
    decreases MAX_INDEX - i
  {
    var buddy := BuddyOff(i, zone);
    if i < MAX_INDEX && buddy in lists[i] then
      Coalesce(lists[i := Without(lists[i], buddy)], Min(zone, buddy), i + 1)
    else
      FbAdd(lists, i, zone)
  }

  /** malloc of a block for `full` bytes: from the lists, else from sbrk, which succeeds if growOk. */
  function Allocate(a: Arena, full: nat, growOk: bool): (r: (Arena, Option<nat>))
    requires |a.lists| == MAX_INDEX + 1 && Index(full) <= MAX_INDEX
  {
    var index := Index(full);
    var i := FirstNonEmpty(a.lists, index);
    if i <= MAX_INDEX then
      var zone := a.lists[i][0];
      (Arena(SplitDown(a.lists[i := a.lists[i][1..]], zone, i, index), a.live[zone := full], a.size), Some(zone))
    else if !growOk then (a, None)
    else
      (Arena(SplitDown(a.lists, a.size, MAX_INDEX, index), a.live[a.size := full], a.size + PAGE_SIZE), Some(a.size))
  }

  /** malloc(size); the result is the block's offset. */
  function Malloc(a: Arena, size: nat, growOk: bool): (r: (Arena, Option<nat>))
    requires |a.lists| == MAX_INDEX + 1
  {
    var full := U16(size + HEADER);
    if size == 0 || Index(full) > MAX_INDEX then (a, None) else Allocate(a, full, growOk)
  }

  /** free of the live block at offset off. */
  function Free(a: Arena, off: nat): Arena
    requires |a.lists| == MAX_INDEX + 1 && off in a.live && Index(a.live[off]) <= MAX_INDEX
  {
    a.(lists := Coalesce(a.lists, off, Index(a.live[off])), live := a.live - {off})
  }

  // ----- Invariant

  ghost predicate ListsOk(lists: seq<seq<nat>>) {
    && |lists| == MAX_INDEX + 1
    && (forall k :: 0 <= k < MIN_INDEX ==> lists[k] == [])
    && (forall k :: 0 <= k <= MAX_INDEX ==> Distinct(lists[k]))
  }

  ghost function FreeSet(lists: seq<seq<nat>>): (s: set<Block>)
    requires |lists| == MAX_INDEX + 1
    ensures forall b :: b in s <==> b.order <= MAX_INDEX && b.off in lists[b.order]
  {
    set k, o | 0 <= k <= MAX_INDEX && o in lists[k] :: Block(o, k)
  }

  function LiveBlock(a: Arena, off: nat): Block
    requires off in a.live
  {
    Block(off, Index(a.live[off]))
  }

  ghost function LiveSet(a: Arena): (s: set<Block>)
    ensures forall b :: b in s <==> b.off in a.live && b == LiveBlock(a, b.off)
  {
    set o | o in a.live :: LiveBlock(a, o)
  }

  ghost predicate Inv(a: Arena) {
    && ListsOk(a.lists)
    && (forall o :: o in a.live ==> a.live[o] <= PAGE_SIZE)
    && Good(FreeSet(a.lists), LiveSet(a), a.size)
  }

  // ----- List operations as set operations

  lemma AddSet(lists: seq<seq<nat>>, k: nat, off: nat)
    requires ListsOk(lists) && MIN_INDEX <= k <= MAX_INDEX && off !in lists[k]
    ensures ListsOk(FbAdd(lists, k, off))
    ensures FreeSet(FbAdd(lists, k, off)) == FreeSet(lists) + {Block(off, k)}
  {
    var r := FbAdd(lists, k, off);
    assert r[k][1..] == lists[k];
    assert forall o :: o in r[k] <==> o == off || o in lists[k];
  }

  lemma {:induction false} WithoutSet(s: seq<nat>, x: nat)
    requires Distinct(s)
    ensures Distinct(Without(s, x))
    ensures forall o :: o in Without(s, x) <==> o in s && o != x
  {
    if s != [] {
      assert s == [s[0]] + s[1..];
      WithoutSet(s[1..], x);
      var t := Without(s[1..], x);
      assert s[0] !in t && Without(s, x) == if s[0] == x then s[1..] else [s[0]] + t;
    }
  }

  lemma {:induction false} RemoveSet(lists: seq<seq<nat>>, k: nat, off: nat)
    requires ListsOk(lists) && k <= MAX_INDEX
    ensures var r := lists[k := Without(lists[k], off)];
            ListsOk(r) && FreeSet(r) == FreeSet(lists) - {Block(off, k)}
  {
    WithoutSet(lists[k], off);
  }

  lemma PopSet(lists: seq<seq<nat>>, k: nat)
    requires ListsOk(lists) && k <= MAX_INDEX && lists[k] != []
    ensures var r := lists[k := lists[k][1..]];
            ListsOk(r) && FreeSet(r) == FreeSet(lists) - {Block(lists[k][0], k)}
  {
    assert Without(lists[k], lists[k][0]) == lists[k][1..];
    RemoveSet(lists, k, lists[k][0]);
  }

  // ----- The two loops keep the tiling

  lemma {:induction false} SplitDownKeepsGood(
      lists: seq<seq<nat>>, used: set<Block>, zone: nat, i: nat, index: nat, size: nat)
    requires ListsOk(lists) && MIN_INDEX <= index <= i <= MAX_INDEX
    requires Block(zone, i) in used && Good(FreeSet(lists), used, size)
    ensures var r := SplitDown(lists, zone, i, index);
            ListsOk(r) && Good(FreeSet(r), used - {Block(zone, i)} + {Block(zone, index)}, size)
    decreases i
  {
    var hand, lo := Block(zone, i), Block(zone, index);
    if i > index {
      lo := Block(zone, i - 1);
      SplitKeepsGood(FreeSet(lists), used, hand, size);
      AddSet(lists, i - 1, BuddyOff(i - 1, zone));
      var used' := used - {hand} + {lo};
      SplitDownKeepsGood(FbAdd(lists, i - 1, BuddyOff(i - 1, zone)), used', zone, i - 1, index, size);
      assert used' - {lo} + {Block(zone, index)} == used - {hand} + {Block(zone, index)};
    } else {
      assert used - {hand} + {lo} == used;
    }
  }

  lemma {:induction false} CoalesceKeepsGood(lists: seq<seq<nat>>, used: set<Block>, zone: nat, i: nat, size: nat)
    requires ListsOk(lists) && MIN_INDEX <= i <= MAX_INDEX
    requires Block(zone, i) in used && Good(FreeSet(lists), used, size)
    ensures var r := Coalesce(lists, zone, i);
            ListsOk(r) && Good(FreeSet(r), used - {Block(zone, i)}, size)
    decreases MAX_INDEX - i
  {
    var hand := Block(zone, i);
    var buddy := BuddyOff(i, zone);
    if i < MAX_INDEX && buddy in lists[i] {
      MergeKeepsGood(FreeSet(lists), used, hand, size);
      RemoveSet(lists, i, buddy);
      var used' := used - {hand} + {Parent(hand)};
      CoalesceKeepsGood(lists[i := Without(lists[i], buddy)], used', Min(zone, buddy), i + 1, size);
      assert used' - {Parent(hand)} == used - {hand};
    } else {
      ReleaseKeepsGood(FreeSet(lists), used, hand, size);
      AddSet(lists, i, zone);
    }
  }

  // ----- malloc and free keep the invariant

  lemma LiveAfterInsert(a: Arena, a': Arena, off: nat, full: nat)
    requires a'.live == a.live[off := full] && off !in a.live
    ensures LiveSet(a') == LiveSet(a) + {Block(off, Index(full))}
  {}

  /** A block that is used besides the live ones starts at no live block. */
  lemma HandIsFresh(free: set<Block>, a: Arena, hand: Block, size: nat)
    requires Good(free, LiveSet(a) + {hand}, size) && hand !in LiveSet(a)
    ensures hand.off !in a.live
  {
    assert hand.off in a.live ==> LiveBlock(a, hand.off) in LiveSet(a);
    forall b | b in LiveSet(a) ensures b.off != hand.off { assert Disjoint(b, hand); }
  }

  lemma MallocKeepsInv(a: Arena, size: nat, growOk: bool)
    requires Inv(a) && U16(size + HEADER) <= 32768
    ensures var (a', p) := Malloc(a, size, growOk);
            Inv(a') && (p.None? ==> a' == a)
            && (p.Some? ==> p.value !in a.live && a'.live == a.live[p.value := U16(size + HEADER)])
  {
    var full := U16(size + HEADER);
    if size != 0 && Index(full) <= MAX_INDEX { AllocateKeepsInv(a, full, growOk); }
  }

  lemma {:induction false} AllocateKeepsInv(a: Arena, full: nat, growOk: bool)
    requires Inv(a) && full <= 32768 && Index(full) <= MAX_INDEX
    ensures var (a', p) := Allocate(a, full, growOk);
            Inv(a') && (p.None? ==> a' == a)
            && (p.Some? ==> p.value !in a.live && a'.live == a.live[p.value := full])
  {
    IndexIsLeast(full);
    if FirstNonEmpty(a.lists, Index(full)) <= MAX_INDEX {
      AllocateFromList(a, full, growOk);
    } else if growOk {
      TakeFromSbrk(a, full);
    }
  }

  lemma {:induction false} AllocateFromList(a: Arena, full: nat, growOk: bool)
    requires Inv(a) && MIN_INDEX <= Index(full) <= MAX_INDEX && full <= PAGE_SIZE
    requires FirstNonEmpty(a.lists, Index(full)) <= MAX_INDEX
    ensures var (a', p) := Allocate(a, full, growOk);
            Inv(a') && p.Some? && p.value !in a.live && a'.live == a.live[p.value := full]
  {
    TakeFromList(a, FirstNonEmpty(a.lists, Index(full)), full);
  }

  lemma {:induction false} TakeFromList(a: Arena, i: nat, full: nat)
    requires Inv(a) && i <= MAX_INDEX && a.lists[i] != []
    requires MIN_INDEX <= Index(full) <= i && full <= PAGE_SIZE
    ensures var zone := a.lists[i][0];
            zone !in a.live
            && Inv(Arena(SplitDown(a.lists[i := a.lists[i][1..]], zone, i, Index(full)), a.live[zone := full], a.size))
  {
    var hand := Block(a.lists[i][0], i);
    PopSet(a.lists, i);
    TakeKeepsGood(FreeSet(a.lists), LiveSet(a), hand, a.size);
    TakeAndSplit(a, a.lists[i := a.lists[i][1..]], hand, Index(full), a.size, full);
  }

  lemma TakeFromSbrk(a: Arena, full: nat)
    requires Inv(a) && MIN_INDEX <= Index(full) <= MAX_INDEX && full <= PAGE_SIZE
    ensures a.size !in a.live
    ensures Inv(Arena(SplitDown(a.lists, a.size, MAX_INDEX, Index(full)), a.live[a.size := full], a.size + PAGE_SIZE))
  {
    GrowKeepsGood(FreeSet(a.lists), LiveSet(a), a.size);
    TakeAndSplit(a, a.lists, Block(a.size, MAX_INDEX), Index(full), a.size + PAGE_SIZE, full);
  }

  /** Splitting a block taken from a free list or from sbrk and recording it as live. */
  lemma {:induction false} TakeAndSplit(a: Arena, lists: seq<seq<nat>>, hand: Block, index: nat, size: nat, full: nat)
    requires ListsOk(lists) && hand !in LiveSet(a) && Good(FreeSet(lists), LiveSet(a) + {hand}, size)
    requires MIN_INDEX <= index <= hand.order <= MAX_INDEX && index == Index(full) && full <= PAGE_SIZE
    requires forall o :: o in a.live ==> a.live[o] <= PAGE_SIZE
    ensures hand.off !in a.live
    ensures Inv(Arena(SplitDown(lists, hand.off, hand.order, index), a.live[hand.off := full], size))
  {
    var live := LiveSet(a);
    HandIsFresh(FreeSet(lists), a, hand, size);
    SplitDownKeepsGood(lists, live + {hand}, hand.off, hand.order, index, size);
    var a' := Arena(SplitDown(lists, hand.off, hand.order, index), a.live[hand.off := full], size);
    LiveAfterInsert(a, a', hand.off, full);
    assert live + {hand} - {hand} + {Block(hand.off, index)} == LiveSet(a');
  }

  lemma FreeKeepsInv(a: Arena, off: nat)
    requires Inv(a) && off in a.live
    ensures Index(a.live[off]) <= MAX_INDEX && Inv(Free(a, off))
    ensures LiveSet(Free(a, off)) == LiveSet(a) - {LiveBlock(a, off)}
  {
    IndexIsLeast(a.live[off]);
    CoalesceKeepsGood(a.lists, LiveSet(a), off, Index(a.live[off]), a.size);
    LiveAfterRemove(a, Free(a, off), off);
  }

  lemma {:induction false} LiveAfterRemove(a: Arena, a': Arena, off: nat)
    requires off in a.live && a'.live == a.live - {off}
    ensures LiveSet(a') == LiveSet(a) - {LiveBlock(a, off)}
  {
    assert forall o :: o in a'.live ==> LiveBlock(a', o) == LiveBlock(a, o);
  }
}
