/**
 ext2 files as kernel/drivers/fs/ext2/io.c sees them: the map from file blocks to positions in the
 pointer tree, the walk down that tree, and the bytes of a file.
 */
module Ext2Spec {
  import opened Bits
  import opened BlockSpec
  import opened Storage
  import opened Options

  const NDIR: nat := 12       // EXT2_NDIR_BLOCKS

  /** Where a file block is found: an entry of i_block, then an entry of each indirect block below it. */
  datatype Place = Place(slot: nat, path: seq<nat>)

  // ----- ext2_calculate_block_pointer_pos

  function Square(n: nat): (r: nat)
    ensures n > 0 ==> r > 0
  {
    n * n
  }

  function Quot(x: nat, d: nat): nat
    requires d > 0
  {
    x / d
  }

  function Rem(x: nat, d: nat): nat
    requires d > 0
  {
    x % d
  }

  /** n is the number of block pointers in a block; None is the return value -1. */
  function BlockPos(n: nat, block: nat): Option<Place>
    requires n > 0
  {
    if block < NDIR then Some(Place(block, []))
    else
      var b1 := block - NDIR;
      if b1 < n then Some(Place(12, [b1]))
      else
        var b2 := b1 - n;
        var nn := Square(n);
        if b2 < nn then Some(Place(13, [Quot(b2, n), Rem(b2, n)]))
        else
          var b3 := b2 - nn;
          if b3 < nn * n then Some(Place(14, [Quot(b3, nn), Quot(Rem(b3, nn), n), Rem(Rem(b3, nn), n)])) else None
  }

  /** Blocks a file can have. */
  function MaxBlocks(n: nat): nat { NDIR + n + n * n + n * n * n }

  predicate PlaceOk(n: nat, p: Place) {
    && (p.slot < NDIR ==> p.path == [])
    && (p.slot >= NDIR ==> p.slot <= 14 && |p.path| == p.slot - 11)
    && forall i :: i in p.path ==> i < n
  }

  /** The file block at a place. */
  function BlockAt(n: nat, p: Place): nat
    requires PlaceOk(n, p)
  {
    if p.slot < NDIR then p.slot
    else if p.slot == 12 then NDIR + p.path[0]
    else if p.slot == 13 then NDIR + n + (p.path[0] * n + p.path[1])
    else NDIR + n + n * n + (p.path[0] * (n * n) + (p.path[1] * n + p.path[2]))
  }

  lemma DigitsBelow(a: nat, b: nat, n: nat, m: nat)
    requires a < m && b < n
    ensures a * n + b < m * n && (a * n + b) / n == a && (a * n + b) % n == b
  {
    MulStep(a, m, n);
    DivUnique(a * n + b, n, a, b);
  }

  lemma DigitsOf(x: nat, n: nat, m: nat)
    requires n > 0 && x < m * n
    ensures x / n < m && x == x / n * n + x % n
  {
    var q := x / n;
    assert x == q * n + x % n;
    if q >= m && q > m { MulStep(m, q, n); }
  }

  /** Every file block below the limit has a place in range, which leads back to it. */
  lemma PosThenBlock(n: nat, block: nat)
    requires n > 0
    ensures BlockPos(n, block).Some? <==> block < MaxBlocks(n)
    ensures BlockPos(n, block).Some? ==>
              PlaceOk(n, BlockPos(n, block).value) && BlockAt(n, BlockPos(n, block).value) == block
  {
    var nn := n * n;
    if NDIR + n <= block {
      var b2 := block - NDIR - n;
      if b2 < nn {
        DigitsOf(b2, n, n);
      } else if b2 - nn < nn * n {
        var b3 := b2 - nn;
        assert nn * n == n * nn;
        DigitsOf(b3, nn, n);
        DigitsOf(b3 % nn, n, n);
      }
    }
  }

  lemma BlockThenPosDouble(n: nat, a: nat, b: nat)
    requires a < n && b < n
    ensures BlockPos(n, NDIR + n + (a * n + b)) == Some(Place(13, [a, b]))
  {
    DigitsBelow(a, b, n, n);
  }

  lemma BlockThenPosTriple(n: nat, a: nat, b: nat, c: nat)
    requires a < n && b < n && c < n
    ensures BlockPos(n, NDIR + n + n * n + (a * (n * n) + (b * n + c))) == Some(Place(14, [a, b, c]))
  {
    var nn, x := n * n, b * n + c;
    DigitsBelow(b, c, n, n);
    DigitsBelow(a, x, nn, n);
    assert n * nn == nn * n;
    var b3 := a * nn + x;
    assert Quot(b3, nn) == a && Rem(b3, nn) == x && Quot(x, n) == b && Rem(x, n) == c;
  }

  /** Every place in range belongs to the block it leads to: with PosThenBlock, a bijection. */
  lemma BlockThenPos(n: nat, p: Place)
    requires n > 0 && PlaceOk(n, p)
    ensures BlockPos(n, BlockAt(n, p)) == Some(p)
  {
    if p.slot == 12 {
      assert p.path == [p.path[0]] && p.path[0] in p.path;
    } else if p.slot == 13 {
      assert p.path == [p.path[0], p.path[1]] && p.path[0] in p.path && p.path[1] in p.path;
      BlockThenPosDouble(n, p.path[0], p.path[1]);
    } else if p.slot == 14 {
      assert p.path == [p.path[0], p.path[1], p.path[2]];
      assert p.path[0] in p.path && p.path[1] in p.path && p.path[2] in p.path;
      BlockThenPosTriple(n, p.path[0], p.path[1], p.path[2]);
    }
  }

  // ----- The pointer tree

  /** i_size and i_block of an inode. */
  datatype Inode = Inode(size: nat, blocks: seq<nat>)

  predicate InodeOk(inode: Inode) {
    inode.size < TWO32 && |inode.blocks| == 15 && forall b :: b in inode.blocks ==> b < TWO32
  }

  /** Pointers followed on the way down path from ptr fit 16 bits and lead to blocks of the image. */
  ghost predicate TreeOk(img: seq<Byte>, bs: nat, ptr: nat, path: seq<nat>)
    decreases |path|
  {
    path != [] && ptr != 0 ==>
      ptr < 0x1_0000 && Bytes(ptr, bs) + bs <= |img| && 4 * path[0] + 4 <= bs
      && TreeOk(img, bs, Le32(img, Bytes(ptr, bs) + 4 * path[0]), path[1..])
  }

  /** The leaf of the tree: the pointer at the end of path, or 0 if a pointer on the way is 0. */
  ghost function Leaf(img: seq<Byte>, bs: nat, ptr: nat, path: seq<nat>): nat
    requires TreeOk(img, bs, ptr, path)
    decreases |path|
  {
    if path == [] then ptr
    else if ptr == 0 then 0
    else Leaf(img, bs, Le32(img, Bytes(ptr, bs) + 4 * path[0]), path[1..])
  }

  /**
   The walk down path from ptr ends at leaf: each pointer on it is the number whose four bytes stand in
   the block before it, and a pointer 0 on the way is the end.
   */
  ghost predicate WalkEndsAt(img: seq<Byte>, bs: nat, ptr: nat, path: seq<nat>, leaf: nat)
    decreases |path|
  {
    if path == [] then leaf == ptr
    else if ptr == 0 then leaf == 0
    else exists next: nat ::
      Holds32(img, ptr * bs + 4 * path[0], next) && WalkEndsAt(img, bs, next, path[1..], leaf)
  }

  /** In a sound tree the leaf is the one end of the walk. */
  lemma {:induction false} LeafIsEnd(img: seq<Byte>, bs: nat, ptr: nat, path: seq<nat>, leaf: nat)
    requires TreeOk(img, bs, ptr, path)
    ensures Leaf(img, bs, ptr, path) == leaf <==> WalkEndsAt(img, bs, ptr, path, leaf)
    decreases |path|
  {
    if path != [] && ptr != 0 {
      var at := Bytes(ptr, bs) + 4 * path[0];
      BytesIsProduct(ptr, bs);
      var next := Le32(img, at);
      forall v: nat ensures Holds32(img, at, v) <==> v == next { Le32Is(img, at, v); }
      LeafIsEnd(img, bs, next, path[1..], leaf);
    }
  }

  /** The file block has a place, whose tree is sound and whose leaf is a hole or a block of the image. */
  ghost predicate BlockOk(img: seq<Byte>, bs: nat, inode: Inode, block: nat) {
    bs >= 4 && InodeOk(inode) && BlockPos(bs / 4, block).Some? &&
    var p := BlockPos(bs / 4, block).value;
    p.slot < 15 && TreeOk(img, bs, inode.blocks[p.slot], p.path) &&
    var l := Leaf(img, bs, inode.blocks[p.slot], p.path);
    l == 0 || Bytes(l, bs) + bs <= |img|
  }

  /** The device block of a file block, 0 for a hole. */
  ghost function DeviceBlock(img: seq<Byte>, bs: nat, inode: Inode, block: nat): nat
    requires BlockOk(img, bs, inode, block)
  {
    var p := BlockPos(bs / 4, block).value;
    Leaf(img, bs, inode.blocks[p.slot], p.path)
  }

  /** v is where the walk from the place of the file block ends. */
  ghost predicate IsDeviceBlock(img: seq<Byte>, bs: nat, inode: Inode, block: nat, v: nat) {
    |inode.blocks| == 15 && exists p: Place ::
      PlaceOk(bs / 4, p) && BlockAt(bs / 4, p) == block && WalkEndsAt(img, bs, inode.blocks[p.slot], p.path, v)
  }

  /** A sound file block has one device block. */
  lemma {:induction false} DeviceBlockIs(img: seq<Byte>, bs: nat, inode: Inode, block: nat, v: nat)
    requires BlockOk(img, bs, inode, block)
    ensures DeviceBlock(img, bs, inode, block) == v <==> IsDeviceBlock(img, bs, inode, block, v)
  {
    var n := bs / 4;
    var p := BlockPos(n, block).value;
    PosThenBlock(n, block);
    LeafIsEnd(img, bs, inode.blocks[p.slot], p.path, v);
    if IsDeviceBlock(img, bs, inode, block, v) {
      var p': Place :|
        PlaceOk(n, p') && BlockAt(n, p') == block && WalkEndsAt(img, bs, inode.blocks[p'.slot], p'.path, v);
      BlockThenPos(n, p');
    }
  }

  function Zeros(n: nat): (z: seq<Byte>)
    ensures |z| == n && forall i :: 0 <= i < n ==> z[i] == 0
  {
    seq(n, _ => 0)
  }

  /** The bytes of a file block; holes read as zeros. */
  ghost function BlockBytes(img: seq<Byte>, bs: nat, inode: Inode, block: nat): (s: seq<Byte>)
    ensures |s| == bs
  {
    if !BlockOk(img, bs, inode, block) || DeviceBlock(img, bs, inode, block) == 0 then Zeros(bs)
    else
      var base := Bytes(DeviceBlock(img, bs, inode, block), bs);
      img[base..base + bs]
  }

  /** Byte x of the file is c: the byte of its device block, or zero in a hole. */
  ghost predicate FileByteIs(img: seq<Byte>, bs: nat, inode: Inode, x: nat, c: Byte)
    requires bs > 0
  {
    exists v: nat ::
      && IsDeviceBlock(img, bs, inode, x / bs, v)
      && if v == 0 then c == 0 else v * bs + x % bs < |img| && c == img[v * bs + x % bs]
  }

  lemma {:induction false} BlockByteIs(img: seq<Byte>, bs: nat, inode: Inode, x: nat)
    requires bs > 0 && BlockOk(img, bs, inode, x / bs)
    ensures FileByteIs(img, bs, inode, x, BlockBytes(img, bs, inode, x / bs)[x % bs])
  {
    var v := DeviceBlock(img, bs, inode, x / bs);
    DeviceBlockIs(img, bs, inode, x / bs, v);
    BytesIsProduct(v, bs);
  }

  // ----- Files as arrays of bytes, over any source of blocks

  ghost predicate Sized(f: nat -> seq<Byte>, bs: nat) { bs > 0 && forall k: nat :: |f(k)| == bs }

  /** Byte x of the file whose k-th block is f(k). */
  ghost function FileByte(f: nat -> seq<Byte>, bs: nat, x: nat): Byte
    requires Sized(f, bs)
  {
    f(x / bs)[x % bs]
  }

  /** Byte i after copying the bytes [offset, offset + n) of the file to position at. */
  ghost predicate HoldsAt(
      b: seq<Byte>, b': seq<Byte>, at: nat, f: nat -> seq<Byte>, bs: nat, offset: nat, n: nat, i: nat)
    requires |b'| == |b| && Sized(f, bs) && i < |b|
  {
    b'[i] == if at <= i < at + n then FileByte(f, bs, offset + i - at) else b[i]
  }

  /** b' is b with the bytes [offset, offset + n) of the file at position at. */
  ghost predicate HoldsFile(b: seq<Byte>, b': seq<Byte>, at: nat, f: nat -> seq<Byte>, bs: nat, offset: nat, n: nat) {
    && |b'| == |b| && at + n <= |b| && Sized(f, bs)
    && forall i: nat :: i < |b'| ==> HoldsAt(b, b', at, f, bs, offset, n, i)
  }

  lemma HoldsNothing(b: seq<Byte>, at: nat, f: nat -> seq<Byte>, bs: nat, offset: nat)
    requires at <= |b| && Sized(f, bs)
    ensures HoldsFile(b, b, at, f, bs, offset, 0)
  {
    forall i: nat | i < |b| ensures HoldsAt(b, b, at, f, bs, offset, 0, i) {}
  }

  lemma {:induction false} ByteInItsBlock(block: nat, bs: nat, x: nat)
    requires Bytes(block, bs) <= x < Bytes(block, bs) + bs
    ensures x / bs == block && x % bs == x - Bytes(block, bs)
  {
    BytesIsProduct(block, bs);
    DivUnique(x, bs, block, x - Bytes(block, bs));
  }

  /** A piece of one block, where the file has it. */
  lemma {:induction false} BlockPieceIsFilePiece(
      b: seq<Byte>, b': seq<Byte>, at: nat, f: nat -> seq<Byte>, bs: nat, block: nat, from: nat, n: nat)
    requires Sized(f, bs) && Copied(b, b', at, f(block), from, n)
    ensures HoldsFile(b, b', at, f, bs, Bytes(block, bs) + from, n)
  {
    var offset := Bytes(block, bs) + from;
    forall i: nat | i < |b'| ensures HoldsAt(b, b', at, f, bs, offset, n, i) {
      assert CopiedAt(b, b', at, f(block), from, n, i);
      if at <= i < at + n { ByteInItsBlock(block, bs, offset + i - at); }
    }
  }

  /** Consecutive pieces of the file are one piece. */
  lemma FileNext(
      b: seq<Byte>, c: seq<Byte>, e: seq<Byte>, at: nat, f: nat -> seq<Byte>, bs: nat, offset: nat, n: nat, m: nat)
    requires HoldsFile(b, c, at, f, bs, offset, n) && HoldsFile(c, e, at + n, f, bs, offset + n, m)
    ensures HoldsFile(b, e, at, f, bs, offset, n + m)
  {
    var total := n + m;
    forall i: nat | i < |e| ensures HoldsAt(b, e, at, f, bs, offset, total, i) {
      assert HoldsAt(b, c, at, f, bs, offset, n, i) && HoldsAt(c, e, at + n, f, bs, offset + n, m, i);
    }
  }

  /** What a read of len bytes at offset gets from a file of `size` bytes; a negative size is an error. */
  function ReadLen(size: int, offset: nat, len: nat): (r: nat)
    ensures r <= len
  {
    if offset >= size then 0 else if offset + len <= size then len else size - offset
  }
}
