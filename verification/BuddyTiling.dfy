/**
 Geometry of buddy blocks: dyadic blocks of the heap, what it means for a set of blocks to tile
 the heap, and the canonical form of the free set. Offsets count from the heap base.
 */
module BuddyTiling {
  import opened Bits

  const MIN_INDEX: nat := 3     // 8-byte blocks
  const MAX_INDEX: nat := 12    // 4096-byte pages
  const PAGE_SIZE: nat := 4096

  datatype Block = Block(off: nat, order: nat)

  function Len(b: Block): nat { Pow2(b.order) }

  /** The low `order` bits of off are clear. */
  predicate Aligned(off: nat, order: nat) {
    order == 0 || (off % 2 == 0 && Aligned(off / 2, order - 1))
  }

  predicate WellFormed(b: Block, size: nat) {
    MIN_INDEX <= b.order <= MAX_INDEX && Aligned(b.off, b.order) && b.off + Len(b) <= size
  }

  predicate Covers(b: Block, x: nat) { b.off <= x < b.off + Len(b) }

  predicate Disjoint(b: Block, c: Block) { b.off + Len(b) <= c.off || c.off + Len(c) <= b.off }

  /** getbuddy (on offsets): flip the bit that tells the two halves of the parent apart. */
  function BuddyOff(order: nat, off: nat): nat { Xor(Pow2(order), off) }

  function Buddy(b: Block): Block { Block(BuddyOff(b.order, b.off), b.order) }

  function Min(a: nat, b: nat): nat { if a <= b then a else b }

  function Parent(b: Block): Block { Block(Min(b.off, BuddyOff(b.order, b.off)), b.order + 1) }

  ghost predicate Covered(s: set<Block>, x: nat) { exists b :: b in s && Covers(b, x) }

  /** The blocks of s partition the bytes [0, size). */
  ghost predicate Tiles(s: set<Block>, size: nat) {
    && (forall b :: b in s ==> WellFormed(b, size))
    && (forall b, c :: b in s && c in s && b != c ==> Disjoint(b, c))
    && (forall x: nat :: x < size ==> Covered(s, x))
  }

  ghost predicate NoFreeBuddies(free: set<Block>) {
    forall b :: b in free && b.order < MAX_INDEX ==> Buddy(b) !in free
  }

  /** Invariant of the allocator: free and used blocks tile whole pages and no two buddies are free. */
  ghost predicate Good(free: set<Block>, used: set<Block>, size: nat) {
    free !! used && Tiles(free + used, size) && NoFreeBuddies(free) && size % PAGE_SIZE == 0
  }

  ghost predicate ClearOf(b: Block, used: set<Block>) { forall u :: u in used ==> Disjoint(b, u) }

  /** A largest aligned gap between the used blocks, no larger than a page. */
  ghost predicate MaximalGap(b: Block, used: set<Block>, size: nat) {
    WellFormed(b, size) && ClearOf(b, used) && (b.order == MAX_INDEX || !ClearOf(Parent(b), used))
  }

  // ----- Dyadic geometry

  lemma {:induction false} AlignedIsMultiple(off: nat, k: nat)
    ensures Aligned(off, k) <==> off % Pow2(k) == 0
    decreases k
  {
    if k > 0 {
      ModPow2Step(off, k - 1);
      AlignedIsMultiple(off / 2, k - 1);
    }
  }

  /** A byte is in an aligned block exactly when it has the block's address bits. */
  lemma {:induction false} CoversByBits(off: nat, k: nat, x: nat)
    requires Aligned(off, k)
    ensures off <= x < off + Pow2(k) <==> Shr(x, k) == Shr(off, k)
    decreases k
  {
    if k > 0 {
      CoversByBits(off / 2, k - 1, x / 2);
    }
  }

  /** Two aligned blocks that share a byte are nested. */
  lemma Nested(b: Block, c: Block, x: nat)
    requires Aligned(b.off, b.order) && Aligned(c.off, c.order)
    requires b.order <= c.order && Covers(b, x) && Covers(c, x)
    ensures c.off <= b.off && b.off + Len(b) <= c.off + Len(c)
  {
    forall y: nat | Covers(b, y) ensures Covers(c, y) {
      CoversByBits(b.off, b.order, x);
      CoversByBits(b.off, b.order, y);
      CoversByBits(c.off, c.order, x);
      CoversByBits(c.off, c.order, y);
      ShrShr(x, b.order, c.order - b.order);
      ShrShr(y, b.order, c.order - b.order);
    }
    assert Covers(b, b.off) && Covers(b, b.off + Len(b) - 1);
  }

  lemma OverlapShares(b: Block, c: Block) returns (x: nat)
    requires !Disjoint(b, c)
    ensures Covers(b, x) && Covers(c, x)
  {
    x := if b.off <= c.off then c.off else b.off;
  }

  lemma NestedOrDisjoint(b: Block, c: Block)
    requires Aligned(b.off, b.order) && Aligned(c.off, c.order) && b.order <= c.order
    ensures Disjoint(b, c) || (c.off <= b.off && b.off + Len(b) <= c.off + Len(c))
  {
    if !Disjoint(b, c) {
      var x := OverlapShares(b, c);
      Nested(b, c, x);
    }
  }

  lemma {:induction false} AlignedSum(off: nat, k: nat)
    requires Aligned(off, k)
    ensures Shr(off + Pow2(k), k) == Shr(off, k) + 1 && Aligned(off + Pow2(k), k)
    ensures Aligned(off, k + 1) <==> Shr(off, k) % 2 == 0
    ensures off >= Pow2(k) ==> Aligned(off - Pow2(k), k)
    decreases k
  {
    if k > 0 {
      assert (off + Pow2(k)) / 2 == off / 2 + Pow2(k - 1);
      if off >= Pow2(k) { assert (off - Pow2(k)) / 2 == off / 2 - Pow2(k - 1); }
      AlignedSum(off / 2, k - 1);
    } else {
      assert Aligned(off, 1) <==> off % 2 == 0;
    }
  }

  /** A block aligned to twice its size is a lower half; its buddy follows it. */
  lemma {:induction false} LowerHalf(off: nat, k: nat)
    requires Aligned(off, k + 1)
    ensures Aligned(off, k) && Aligned(off + Pow2(k), k) && !Aligned(off + Pow2(k), k + 1)
    ensures BuddyOff(k, off) == off + Pow2(k) && BuddyOff(k, off + Pow2(k)) == off
  {
    AlignedStepDown(off, k);
    AlignedSum(off, k);
    AlignedSum(off + Pow2(k), k);
    XorPow2(k, off);
    XorPow2(k, off + Pow2(k));
  }

  /** Any other block is an upper half; a lower half comes before it. */
  lemma {:induction false} UpperHalf(off: nat, k: nat)
    requires Aligned(off, k) && !Aligned(off, k + 1)
    ensures off >= Pow2(k) && Aligned(off - Pow2(k), k + 1)
  {
    AlignedSum(off, k);
    XorPow2(k, off);
    AlignedSum(off - Pow2(k), k);
  }

  /** The buddy of a block is the other half of the parent, which is aligned to twice the size. */
  lemma {:induction false} BuddyHalves(b: Block)
    requires Aligned(b.off, b.order)
    ensures Aligned(Buddy(b).off, b.order) && Aligned(Parent(b).off, b.order + 1)
    ensures Buddy(Buddy(b)) == b && Buddy(b) != b && Disjoint(b, Buddy(b))
    ensures (b.off == Parent(b).off && Buddy(b).off == b.off + Len(b)) ||
            (Buddy(b).off == Parent(b).off && b.off == Buddy(b).off + Len(b))
    ensures Len(Parent(b)) == 2 * Len(b)
    ensures Parent(Buddy(b)) == Parent(b)
  {
    if Aligned(b.off, b.order + 1) {
      LowerHalf(b.off, b.order);
    } else {
      UpperHalf(b.off, b.order);
      LowerHalf(b.off - Len(b), b.order);
    }
  }

  /** The two halves of a block, as malloc makes them when it splits. */
  lemma SplitHalves(b: Block)
    requires b.order > 0 && Aligned(b.off, b.order)
    ensures var lo := Block(b.off, b.order - 1);
            Aligned(lo.off, lo.order) && Buddy(lo).off == b.off + Len(lo) && Parent(lo) == b
  {
    LowerHalf(b.off, b.order - 1);
  }

  lemma {:induction false} AlignedStepDown(off: nat, k: nat)
    requires Aligned(off, k + 1)
    ensures Aligned(off, k)
    decreases k
  {
    if k > 0 { AlignedStepDown(off / 2, k - 1); }
  }

  /** Blocks of different order that overlap: the larger one holds the parent of the smaller. */
  lemma HoldsParent(b: Block, c: Block)
    requires Aligned(b.off, b.order) && Aligned(c.off, c.order) && b.order < c.order && !Disjoint(b, c)
    ensures c.off <= Parent(b).off && Parent(b).off + Len(Parent(b)) <= c.off + Len(c)
  {
    BuddyHalves(b);
    NestedOrDisjoint(Parent(b), c);
    NestedOrDisjoint(b, c);
  }

  // ----- What the allocator's elementary moves do to a tiling

  lemma SubBlock(b: Block, p: Block, c: Block)
    requires p.off <= b.off && b.off + Len(b) <= p.off + Len(p) && Disjoint(p, c)
    ensures Disjoint(b, c) && Disjoint(c, b)
  {}

  /** Replacing a used block by its lower half makes the upper half free. */
  lemma SplitKeepsGood(free: set<Block>, used: set<Block>, hand: Block, size: nat)
    requires hand in used && hand.order > MIN_INDEX && Good(free, used, size)
    ensures var lo := Block(hand.off, hand.order - 1);
            Good(free + {Buddy(lo)}, used - {hand} + {lo}, size)
            && lo !in free && Buddy(lo) !in free && lo !in used
  {
    var lo := Block(hand.off, hand.order - 1);
    var hi := Buddy(lo);
    SplitHalves(hand);
    BuddyHalves(lo);
    SplitTiles(free + used, hand, lo, hi, size);
    assert free + {hi} + (used - {hand} + {lo}) == free + used - {hand} + {lo, hi};
    forall b | b in free + {hi} && b.order < MAX_INDEX ensures Buddy(b) !in free + {hi} {
      if b in free {
        assert Aligned(b.off, b.order);
        BuddyHalves(b);
      }
    }
  }

  /** Two halves tile what the whole did. */
  lemma {:induction false} SplitTiles(s: set<Block>, whole: Block, lo: Block, hi: Block, size: nat)
    requires Tiles(s, size) && whole in s && WellFormed(lo, size) && WellFormed(hi, size)
    requires lo.off == whole.off && hi.off == lo.off + Len(lo) && Len(whole) == Len(lo) + Len(hi)
    ensures Tiles(s - {whole} + {lo, hi}, size) && lo !in s && hi !in s
  {
    var t := s - {whole} + {lo, hi};
    forall c | c in s && c != whole
      ensures Disjoint(lo, c) && Disjoint(c, lo) && Disjoint(hi, c) && Disjoint(c, hi)
    {
      assert Disjoint(whole, c);
    }
    assert !Disjoint(lo, whole) && !Disjoint(hi, whole);
    forall x: nat | x < size ensures Covered(t, x) {
      assert Covered(s, x);
      var c :| c in s && Covers(c, x);
      var d := if c != whole then c else if Covers(lo, x) then lo else hi;
      assert d in t && Covers(d, x);
    }
  }

  /** Merging a used block with its free buddy leaves their parent used. */
  lemma MergeKeepsGood(free: set<Block>, used: set<Block>, hand: Block, size: nat)
    requires hand in used && hand.order < MAX_INDEX && Buddy(hand) in free && Good(free, used, size)
    ensures Good(free - {Buddy(hand)}, used - {hand} + {Parent(hand)}, size) && Parent(hand) !in used
  {
    var bud, p := Buddy(hand), Parent(hand);
    BuddyHalves(hand);
    var s, t := free + used, free - {bud} + (used - {hand} + {p});
    assert WellFormed(bud, size) && WellFormed(hand, size);
    assert WellFormed(p, size);
    forall c | c in s && c != hand && c != bud ensures Disjoint(p, c) && Disjoint(c, p) {
      if !Disjoint(p, c) {
        assert Disjoint(hand, c) && Disjoint(bud, c);
        var x := OverlapShares(p, c);
        if c.order <= p.order {
          Nested(c, p, x);
          if c.order < p.order {
            NestedOrDisjoint(c, hand);
            NestedOrDisjoint(c, bud);
          }
        } else {
          Nested(p, c, x);
        }
        assert false;
      }
    }
    assert !Disjoint(p, hand);
    assert forall c :: c in t <==> (c in s && c != hand && c != bud) || c == p;
    forall x: nat | x < size ensures Covered(t, x) {
      assert Covered(s, x);
      var c :| c in s && Covers(c, x);
      var d := if c != hand && c != bud then c else p;
      assert d in t && Covers(d, x);
    }
  }

  /** A used block whose buddy is not free can be put back. */
  lemma ReleaseKeepsGood(free: set<Block>, used: set<Block>, hand: Block, size: nat)
    requires hand in used && Good(free, used, size)
    requires hand.order == MAX_INDEX || Buddy(hand) !in free
    ensures Good(free + {hand}, used - {hand}, size)
  {
    assert free + {hand} + (used - {hand}) == free + used;
    forall b | b in free + {hand} && b.order < MAX_INDEX ensures Buddy(b) !in free + {hand} {
      assert Aligned(b.off, b.order);
      BuddyHalves(b);
    }
  }

  lemma TakeKeepsGood(free: set<Block>, used: set<Block>, b: Block, size: nat)
    requires b in free && Good(free, used, size)
    ensures Good(free - {b}, used + {b}, size)
  {
    assert free - {b} + (used + {b}) == free + used;
  }

  lemma {:induction false} PageAligned(size: nat)
    requires size % PAGE_SIZE == 0
    ensures Pow2(MAX_INDEX) == PAGE_SIZE && Aligned(size, MAX_INDEX)
  {
    AlignedIsMultiple(size, MAX_INDEX);
    assert Pow2(4) == 16;
    assert Pow2(8) == 256 by { Pow2Add(4, 4); }
    assert Pow2(12) == 4096 by { Pow2Add(8, 4); }
  }

  /** A page from sbrk starts out used. */
  lemma GrowKeepsGood(free: set<Block>, used: set<Block>, size: nat)
    requires Good(free, used, size)
    ensures var page := Block(size, MAX_INDEX);
            page !in free + used && Good(free, used + {page}, size + PAGE_SIZE)
  {
    PageAligned(size);
    var page := Block(size, MAX_INDEX);
    var s, t := free + used, free + (used + {page});
    forall x: nat | x < size + PAGE_SIZE ensures Covered(t, x) {
      if x < size {
        assert Covered(s, x);
        var c :| c in s && Covers(c, x);
        assert c in t && Covers(c, x);
      } else {
        assert page in t && Covers(page, x);
      }
    }
    assert forall c :: c in s ==> WellFormed(c, size) && Disjoint(c, page) && Disjoint(page, c);
  }

  // ----- The canonical free set

  /** Every aligned region clear of used blocks lies inside one free block. */
  lemma {:induction false} ClearRegionIsFree(free: set<Block>, used: set<Block>, size: nat, r: Block)
      returns (c: Block)
    requires Good(free, used, size) && WellFormed(r, size) && ClearOf(r, used)
    ensures c in free && c.order >= r.order && c.off <= r.off && r.off + Len(r) <= c.off + Len(c)
    decreases r.order
  {
    if r.order == MIN_INDEX {
      c := SmallestIsFree(free, used, size, r);
    } else {
      var lo := Block(r.off, r.order - 1);
      SplitHalves(r);
      BuddyHalves(lo);
      var hi := Buddy(lo);
      var c1 := ClearRegionIsFree(free, used, size, lo);
      var c2 := ClearRegionIsFree(free, used, size, hi);
      if c1.order >= r.order {
        c := c1;
        assert Covers(r, r.off) && Covers(c, r.off);
        Nested(r, c, r.off);
      } else if c2.order >= r.order {
        c := c2;
        assert Covers(r, hi.off) && Covers(c, hi.off);
        Nested(r, c, hi.off);
      } else {
        assert false;
      }
    }
  }

  lemma {:induction false} SmallestIsFree(free: set<Block>, used: set<Block>, size: nat, r: Block) returns (c: Block)
    requires Good(free, used, size) && WellFormed(r, size) && ClearOf(r, used) && r.order == MIN_INDEX
    ensures c in free && c.order >= r.order && c.off <= r.off && r.off + Len(r) <= c.off + Len(c)
  {
    assert Covered(free + used, r.off);
    c :| c in free + used && Covers(c, r.off);
    assert Covers(r, r.off);
    assert !Disjoint(r, c);
    Nested(r, c, r.off);
  }

  lemma PageOf(off: nat, size: nat) returns (base: nat)
    requires off < size && size % PAGE_SIZE == 0
    ensures base % PAGE_SIZE == 0 && base <= off < base + PAGE_SIZE <= size
  {
    base := off / PAGE_SIZE * PAGE_SIZE;
  }

  /** The parent of a block inside whole pages is inside them too. */
  lemma {:induction false} ParentInHeap(b: Block, size: nat)
    requires WellFormed(b, size) && b.order < MAX_INDEX && size % PAGE_SIZE == 0
    ensures WellFormed(Parent(b), size)
  {
    var base := PageOf(b.off, size);
    var page := Block(base, MAX_INDEX);
    PageAligned(base);
    BuddyHalves(b);
    assert Covers(b, b.off) && Covers(page, b.off);
    HoldsParent(b, page);
  }

  lemma {:induction false} FreeBlockIsMaximal(free: set<Block>, used: set<Block>, size: nat, b: Block)
    requires Good(free, used, size) && b in free
    ensures MaximalGap(b, used, size)
  {
    assert ClearOf(b, used);
    if b.order < MAX_INDEX && ClearOf(Parent(b), used) {
      assert WellFormed(b, size);
      BuddyHalves(b);
      ParentInHeap(b, size);
      var c := ClearRegionIsFree(free, used, size, Parent(b));
      assert false;
    }
  }

  lemma MaximalGapIsFree(free: set<Block>, used: set<Block>, size: nat, b: Block)
    requires Good(free, used, size) && MaximalGap(b, used, size)
    ensures b in free
  {
    var c := ClearRegionIsFree(free, used, size, b);
    assert WellFormed(c, size);
    if c.order > b.order {
      HoldsParent(b, c);
      forall u | u in used ensures Disjoint(Parent(b), u) {
        assert Disjoint(c, u);
        SubBlock(Parent(b), c, u);
      }
      assert false;
    }
  }

  /** Main result on the shape of the heap: the free blocks are exactly the maximal gaps. */
  lemma FreeIsMaximalGap(free: set<Block>, used: set<Block>, size: nat, b: Block)
    requires Good(free, used, size)
    ensures b in free <==> MaximalGap(b, used, size)
  {
    if b in free { FreeBlockIsMaximal(free, used, size, b); }
    if MaximalGap(b, used, size) { MaximalGapIsFree(free, used, size, b); }
  }

  /** Two heaps of the same size with the same used blocks have the same free blocks. */
  lemma FreeSetIsDetermined(free1: set<Block>, free2: set<Block>, used: set<Block>, size: nat)
    requires Good(free1, used, size) && Good(free2, used, size)
    ensures free1 == free2
  {
    forall b ensures b in free1 <==> b in free2 {
      FreeIsMaximalGap(free1, used, size, b);
      FreeIsMaximalGap(free2, used, size, b);
    }
  }
}
