/** kernel/drivers/fs/ext2/io.c: the pointer walk with its block buffers, and reads from an inode. */
module Ext2 {
  import opened Bits
  import opened BlockSpec
  import opened BlockDevice
  import opened Storage
  import opened Ext2Spec
  import opened Options

  const ERR_NOT_SUPP: int := -134

  class Ext2Fs {
    const dev: Device
    const bs: nat               // EXT2_BLOCK_SIZE
    const largeFiles: bool      // EXT2_FEATURE_RO_COMPAT_LARGE_FILE
    /** The block buffers got from ext2_get_block and not yet put back. */
    ghost var held: set<array<Byte>>

    constructor (d: Device, logBlockSize: nat, large: bool)
      requires Storage.Valid(d) && logBlockSize <= 2
      ensures Ok() && dev == d && largeFiles == large && held == {}
      ensures bs == if logBlockSize == 0 then 1024 else if logBlockSize == 1 then 2048 else 4096
    {
      dev, bs, largeFiles, held := d, 1024 * Pow2(logBlockSize), large, {};
      assert Pow2(2) == 4 && Pow2(1) == 2;
    }

    ghost predicate Ok() reads dev.disk`data {
      Storage.Valid(dev) && bs in {1024, 2048, 4096}
    }

    /** No call will fail, and the device's blocks are small enough for blk_read to report a count. */
    ghost predicate Healthy() reads dev.disk`plan {
      FaultFree(dev.disk.plan) && dev.disk.blockSize <= 0x4000
    }

    ghost function Image(): seq<Byte>
      reads dev.disk`data
      requires Ok()
    {
      Contents(dev)
    }

    /** The file blocks of an inode. */
    ghost function FileBlocks(inode: Inode): (f: nat -> seq<Byte>)
      reads dev.disk`data
      requires Ok()
      ensures Sized(f, bs)
    {
      var img, b := Image(), bs;
      (k: nat) => BlockBytes(img, b, inode, k)
    }

    lemma {:induction false} ByteOffset(bnum: nat)
      requires Ok() && Bytes(bnum, bs) + bs <= Size(dev)
      ensures I32(U32(bnum * bs)) == Bytes(bnum, bs) < TWO31
      ensures OnDevice(Size(dev), Bytes(bnum, bs), bs) == bs
    {
      Fits(dev);
      BytesIsProduct(bnum, bs);
    }

    /** ext2_read_block: the answer of blk_read, whole blocks on the device. */
    method ReadBlock(buf: array<Byte>, at: nat, bnum: nat) returns (ret: int)
      requires Ok() && Bytes(bnum, bs) + bs <= Size(dev) && at + bs <= buf.Length
      modifies buf, dev.disk`plan
      ensures ret >= 0 ==> ret == bs && Copied(old(buf[..]), buf[..], at, Image(), Bytes(bnum, bs), bs)
      ensures SameOutside(old(buf[..]), buf[..], at, bs)
      ensures FaultFree(old(dev.disk.plan)) ==> (ret >= 0 <==> dev.disk.blockSize <= 0x4000) && FaultFree(dev.disk.plan)
    {
      ByteOffset(bnum);
      ResultIsRightIff(dev, Bytes(bnum, bs), bs);
      ret := BlkRead(dev, buf, at, I32(U32(bnum * bs)), bs);
    }

    /** ext2_get_block. */
    method GetBlock(bnum: nat) returns (err: int, block: array<Byte>)
      requires Ok() && Bytes(bnum, bs) + bs <= Size(dev)
      modifies this`held, dev.disk`plan
      ensures err <= 0 && fresh(block) && block !in old(held)
      ensures err < 0 ==> held == old(held)
      ensures err == 0 ==>
                held == old(held) + {block} && block.Length == bs
                && block[..] == Image()[Bytes(bnum, bs)..Bytes(bnum, bs) + bs]
      ensures old(Healthy()) ==> err == 0 && Healthy()
    {
      block := new Byte[bs];
      ghost var b0 := block[..];
      var memOk := dev.disk.Allocate();
      if !memOk { return ERR_NO_MEM, block; }
      err := ReadBlock(block, 0, bnum);
      if err < 0 { return; }
      CopiedSlices(b0, block[..], 0, Image(), Bytes(bnum, bs), bs, 0, 0);
      held := held + {block};
      err := 0;
    }

    /** ext2_put_block: only a block still held may be put back. */
    method PutBlock(block: array<Byte>)
      requires block in held
      modifies this`held
      ensures held == old(held) - {block}
    {
      held := held - {block};
    }

    /** ext2_get_block of a table on the walk. */
    method GetTable(bnum: nat, ghost rest: seq<nat>, ghost leaf: nat) returns (err: int, block: array?<Byte>)
      requires Ok() && 0 < bnum < 0x1_0000 && LeadsTo(Image(), bs, bnum, rest, leaf)
      modifies this`held, dev.disk`plan
      ensures err < 0 ==> held == old(held)
      ensures err >= 0 ==>
                block != null && block !in old(held) && held == old(held) + {block}
                && block.Length == bs && 4 * rest[0] + 4 <= bs
                && (|rest| == 1 ==> EntryIs(block[..], bs, rest[0], leaf))
                && (|rest| > 1 ==> LeadsTo(Image(), bs, Le32(block[..], 4 * rest[0]), rest[1..], leaf))
      ensures old(Healthy()) ==> err >= 0 && Healthy()
    {
      LeadsNonZero(Image(), bs, bnum, rest, leaf);
      err, block := GetBlock(bnum);
      if err >= 0 { LeadsOn(Image(), bs, bnum, rest, leaf, block[..]); }
    }

    /**
     ext2_get_indirect_block_pointer_cache_block for an inode slot and a non-empty path: the last
     table of the walk, whose entry is the leaf. Every other table is put back on the way.
     */
    method IndirectBlock(inode: Inode, slot: nat, path: seq<nat>) returns (err: int, block: array?<Byte>)
      requires Ok() && InodeOk(inode) && slot < 15 && path != []
      requires TreeOk(Image(), bs, inode.blocks[slot], path)
      modifies this`held, dev.disk`plan
      ensures err < 0 ==> held == old(held)
      ensures err >= 0 ==>
                block != null && block !in old(held) && held == old(held) + {block}
                && EntryIs(block[..], bs, path[|path| - 1], Leaf(Image(), bs, inode.blocks[slot], path))
      ensures old(Healthy()) ==> Healthy()
      ensures old(Healthy()) && err < 0 ==> Leaf(Image(), bs, inode.blocks[slot], path) == 0
    {
      ghost var leaf := Leaf(Image(), bs, inode.blocks[slot], path);
      var currentLevel, currentBlock := 0, 0;
      ghost var ptr := inode.blocks[slot];
      block, err := null, 0;
      while currentLevel < |path|
        invariant currentLevel <= |path| && err >= 0
        invariant currentLevel < |path| ==> held == old(held) && LeadsTo(Image(), bs, ptr, path[currentLevel..], leaf)
        invariant currentLevel == 0 ==> ptr == inode.blocks[slot]
        invariant 0 < currentLevel < |path| ==> currentBlock == U16(ptr)
        invariant currentLevel == |path| ==>
                    block != null && block !in old(held) && held == old(held) + {block}
                    && EntryIs(block[..], bs, path[|path| - 1], leaf)
        invariant old(Healthy()) ==> Healthy()
      {
        if currentLevel == 0 { currentBlock := U16(inode.blocks[slot]); }
        ghost var rest := path[currentLevel..];
        LeadsNonZero(Image(), bs, ptr, rest, leaf);
        if currentBlock == 0 { return -1, null; }
        currentLevel := currentLevel + 1;
        assert rest[1..] == path[currentLevel..];
        err, block := GetTable(currentBlock, rest, leaf);
        if err < 0 { return err, null; }
        if currentLevel < |path| {
          ptr := Le32(block[..], 4 * path[currentLevel - 1]);
          currentBlock := U16(Le32(block[..], 4 * path[currentLevel - 1]));
          PutBlock(block);
        }
      }
    }

    /** file_block_to_fs_block: the device block, or 0 for a hole and when a table cannot be had. */
    method FileBlockToFsBlock(inode: Inode, fileBlock: nat) returns (block: nat)
      requires Ok() && BlockOk(Image(), bs, inode, fileBlock)
      modifies this`held, dev.disk`plan
      ensures held == old(held)
      ensures block == 0 || block == DeviceBlock(Image(), bs, inode, fileBlock)
      ensures old(Healthy()) ==>
                block == DeviceBlock(Image(), bs, inode, fileBlock) && Healthy()
      ensures old(Healthy()) ==> IsDeviceBlock(Image(), bs, inode, fileBlock, block)
      ensures block == 0 || IsDeviceBlock(Image(), bs, inode, fileBlock, block)
    {
      DeviceBlockIs(Image(), bs, inode, fileBlock, DeviceBlock(Image(), bs, inode, fileBlock));
      var place := BlockPos(bs / 4, fileBlock).value;
      if place.path == [] {
        block := inode.blocks[place.slot];
      } else {
        var err, table := IndirectBlock(inode, place.slot, place.path);
        if err < 0 { return 0; }
        block := Le32(table[..], 4 * place.path[|place.path| - 1]);
        PutBlock(table);
      }
    }

    /** One file block to buf[at..at + bs]: zeros for a hole. A failing read is not noticed. */
    method ReadFileBlock(inode: Inode, fileBlock: nat, buf: array<Byte>, at: nat)
      requires Ok() && BlockOk(Image(), bs, inode, fileBlock) && at + bs <= buf.Length
      modifies this`held, buf, dev.disk`plan
      ensures held == old(held) && SameOutside(old(buf[..]), buf[..], at, bs)
      ensures old(Healthy()) ==>
                Copied(old(buf[..]), buf[..], at, FileBlocks(inode)(fileBlock), 0, bs) && Healthy()
    {
      var phys := Find(inode, fileBlock);
      LoadBlock(phys, buf, at);
    }

    /** The device block to read for a file block: its own if nothing fails. */
    method Find(inode: Inode, fileBlock: nat) returns (phys: nat)
      requires Ok() && BlockOk(Image(), bs, inode, fileBlock)
      modifies this`held, dev.disk`plan
      ensures held == old(held) && (phys == 0 || Bytes(phys, bs) + bs <= Size(dev))
      ensures old(Healthy()) ==> DeviceBytes(phys) == FileBlocks(inode)(fileBlock) && Healthy()
    {
      BlockIsThere(Image(), bs, inode, fileBlock);
      phys := FileBlockToFsBlock(inode, fileBlock);
    }

    /** The bytes of a device block; zeros for block 0, which stands for a hole. */
    ghost function DeviceBytes(phys: nat): seq<Byte>
      reads dev.disk`data
      requires Ok() && (phys == 0 || Bytes(phys, bs) + bs <= Size(dev))
    {
      if phys == 0 then Zeros(bs) else Image()[Bytes(phys, bs)..Bytes(phys, bs) + bs]
    }

    method LoadBlock(phys: nat, buf: array<Byte>, at: nat)
      requires Ok() && (phys == 0 || Bytes(phys, bs) + bs <= Size(dev)) && at + bs <= buf.Length
      modifies buf, dev.disk`plan
      ensures SameOutside(old(buf[..]), buf[..], at, bs)
      ensures old(Healthy()) ==> Copied(old(buf[..]), buf[..], at, DeviceBytes(phys), 0, bs) && Healthy()
    {
      if phys == 0 {
        CopyIn(buf, at, Zeros(bs), 0, bs);
      } else {
        var _ := ReadBlock(buf, at, phys);
        WholeBlockCopied(old(buf[..]), buf[..], at, Image(), Bytes(phys, bs), bs);
      }
    }

    /** A partial block through a temporary buffer: bytes [from, from + n) of the file block. */
    method ReadFilePiece(inode: Inode, fileBlock: nat, buf: array<Byte>, at: nat, from: nat, n: nat)
      requires Ok() && BlockOk(Image(), bs, inode, fileBlock) && from + n <= bs && at + n <= buf.Length
      modifies this`held, buf, dev.disk`plan
      ensures held == old(held) && SameOutside(old(buf[..]), buf[..], at, n)
      ensures old(Healthy()) ==>
                Copied(old(buf[..]), buf[..], at, FileBlocks(inode)(fileBlock), from, n) && Healthy()
    {
      var temp := new Byte[bs];
      ghost var t0 := temp[..];
      ReadFileBlock(inode, fileBlock, temp, 0);
      CopyIn(buf, at, temp[..], from, n);
      if old(Healthy()) {
        CopyThrough(old(buf[..]), buf[..], at, t0, temp[..], FileBlocks(inode)(fileBlock), 0, from, n);
      }
    }

    /** ext2_file_len. */
    function FileLen(inode: Inode, regular: bool): int {
      if largeFiles && regular then ERR_NOT_SUPP else I32(inode.size)
    }

    /** All file blocks that hold bytes of [offset, offset + n) are sound. */
    ghost predicate SpanOk(inode: Inode, offset: nat, n: nat)
      reads dev.disk`data
      requires Ok()
    {
      forall k: nat {:trigger BlockOk(Image(), bs, inode, k)} ::
        offset < Bytes(k, bs) + bs && Bytes(k, bs) < offset + n ==> BlockOk(Image(), bs, inode, k)
    }

    /**
     ext2_read_inode. The count returned is the length of the part of the range inside the file
     whatever the device did; the buffer holds that part of the file if nothing failed.
     */
    method ReadInode(inode: Inode, regular: bool, buf: array<Byte>, offset: nat, len: nat) returns (ret: nat)
      requires Ok() && len <= buf.Length && len < 0x8000 && offset + len <= Bytes(0x1_0000, bs)
      requires SpanOk(inode, offset, ReadLen(FileLen(inode, regular), offset, len))
      modifies this`held, buf, dev.disk`plan
      ensures held == old(held)
      ensures ret == ReadLen(FileLen(inode, regular), offset, len)
      ensures (largeFiles && regular) || 0x8000_0000 <= inode.size < 0x1_0000_0000 || inode.size <= offset ==> ret == 0
      ensures !(largeFiles && regular) && offset < inode.size < 0x8000_0000 ==>
                ret == if offset + len <= inode.size then len else inode.size - offset
      ensures SameOutside(old(buf[..]), buf[..], 0, ret)
      ensures old(Healthy()) ==>
                HoldsFile(old(buf[..]), buf[..], 0, FileBlocks(inode), bs, offset, ret)
      ensures old(Healthy()) ==>
                forall i: nat :: i < ret ==> FileByteIs(Image(), bs, inode, offset + i, buf[i])
    {
      HoldsNothing(buf[..], 0, FileBlocks(inode), bs, offset);
      Unchanged(buf[..], 0, 0);
      BytesIsProduct(0x1_0000, bs);
      TrimIsReadLen(FileLen(inode, regular), offset, len);
      var left := TrimRead(FileLen(inode, regular), offset, len);
      if left == 0 { return 0; }
      ret := ReadSpan(inode, buf, offset, left);
      if old(Healthy()) { BytesAreFileBytes(inode, old(buf[..]), buf[..], offset, ret); }
    }

    /** What is held of the file, in terms of the bytes of the device. */
    lemma {:induction false} BytesAreFileBytes(inode: Inode, b: seq<Byte>, b': seq<Byte>, offset: nat, n: nat)
      requires Ok() && SpanOk(inode, offset, n) && HoldsFile(b, b', 0, FileBlocks(inode), bs, offset, n)
      ensures forall i: nat :: i < n ==> FileByteIs(Image(), bs, inode, offset + i, b'[i])
    {
      var f := FileBlocks(inode);
      forall i: nat | i < n ensures FileByteIs(Image(), bs, inode, offset + i, b'[i]) {
        hide FileByteIs, FileByte;
        assert HoldsAt(b, b', 0, f, bs, offset, n, i);
        ByteInSpan(inode, offset, n, offset + i);
        ByteIsThere(inode, offset + i);
      }
    }

    lemma {:induction false} ByteIsThere(inode: Inode, x: nat)
      requires Ok() && BlockOk(Image(), bs, inode, x / bs)
      ensures FileByteIs(Image(), bs, inode, x, FileByte(FileBlocks(inode), bs, x))
    {
      BlockByteIs(Image(), bs, inode, x);
      hide FileByteIs, BlockOk;
    }

    lemma {:induction false} ByteInSpan(inode: Inode, offset: nat, n: nat, x: nat)
      requires Ok() && SpanOk(inode, offset, n) && offset <= x < offset + n
      ensures BlockOk(Image(), bs, inode, x / bs)
    {
      BytesIsProduct(x / bs, bs);
      var k := x / bs;
      assert x == k * bs + x % bs;
    }

    /**
     On a device with 32768-byte blocks no block can be read, without any fault; reading the first block
     of a file reports the whole block all the same.
     */
    method UnnoticedFailure(inode: Inode, buf: array<Byte>) returns (err: int, ret: nat)
      requires Ok() && !largeFiles && bs <= buf.Length && FaultFree(dev.disk.plan) && dev.disk.blockSize == 0x8000
      requires SpanOk(inode, 0, bs) && bs <= inode.size < TWO31
      requires |inode.blocks| > 0 && inode.blocks[0] != 0 && Bytes(inode.blocks[0], bs) + bs <= Size(dev)
      modifies this`held, buf, dev.disk`plan
      ensures err < 0 && ret == bs
    {
      err := ReadBlock(buf, 0, inode.blocks[0]);
      BytesIsProduct(0x1_0000, bs);
      ret := ReadInode(inode, true, buf, 0, bs);
    }

    /** What is known while the span is read: `done` of its bytes are in place. */
    ghost predicate Reading(
        inode: Inode, before: seq<Byte>, now: seq<Byte>, offset: nat, done: nat, len: nat, good: bool)
      reads dev.disk
      requires Ok()
    {
      && done <= len && SameOutside(before, now, 0, len)
      && (good ==> Healthy() && HoldsFile(before, now, 0, FileBlocks(inode), bs, offset, done))
    }

    /** The next n bytes of the span, from byte `from` of a file block on. */
    method ReadNext(inode: Inode, fileBlock: nat, buf: array<Byte>, done: nat, from: nat, n: nat,
                    ghost before: seq<Byte>, ghost offset: nat, ghost len: nat, ghost good: bool)
      requires Ok() && from + n <= bs && 0 < n && done + n <= len <= buf.Length && SpanOk(inode, offset, len)
      requires Bytes(fileBlock, bs) + from == offset + done
      requires Reading(inode, before, buf[..], offset, done, len, good)
      modifies this`held, buf, dev.disk`plan
      ensures held == old(held) && Reading(inode, before, buf[..], offset, done + n, len, good)
    {
      ghost var middle, f := buf[..], FileBlocks(inode);
      if n == bs {
        ReadFileBlock(inode, fileBlock, buf, done);
      } else {
        ReadFilePiece(inode, fileBlock, buf, done, from, n);
      }
      OutsideBoth(before, middle, buf[..], done, n, len);
      if good {
        BlockPieceIsFilePiece(middle, buf[..], done, f, bs, fileBlock, from, n);
        FileNext(before, middle, buf[..], 0, f, bs, offset, done, n);
      }
    }

    /** The three phases of ext2_read_inode, once the length is trimmed. */
    method ReadSpan(inode: Inode, buf: array<Byte>, offset: nat, len: nat) returns (done: nat)
      requires Ok() && 0 < len <= buf.Length && offset + len <= Bytes(0x1_0000, bs) && SpanOk(inode, offset, len)
      modifies this`held, buf, dev.disk`plan
      ensures held == old(held) && done == len
      ensures SameOutside(old(buf[..]), buf[..], 0, len)
      ensures old(Healthy()) ==>
                HoldsFile(old(buf[..]), buf[..], 0, FileBlocks(inode), bs, offset, len)
    {
      ghost var before, good := buf[..], Healthy();
      HoldsNothing(before, 0, FileBlocks(inode), bs, offset);
      Unchanged(before, 0, len);
      var fileBlock;
      done, fileBlock := ReadHead(inode, buf, offset, len, before, good);
      done := ReadWhole(inode, buf, done, fileBlock, len, before, offset, good);
    }

    /** The 16-bit number of the file block at offset, and the position in it. */
    method Locate(offset: nat) returns (fileBlock: nat, blockOffset: nat)
      requires bs > 0 && offset < Bytes(0x1_0000, bs)
      ensures Bytes(fileBlock, bs) + blockOffset == offset && blockOffset < bs
    {
      InBlock(offset, bs, 0x1_0000);
      fileBlock := U16(offset / bs);
      blockOffset := offset % bs;
    }

    /** file_block++ on a 16-bit counter, once the block has been read up to byte x of the file. */
    method Following(fileBlock: nat, ghost x: nat, ghost end: nat) returns (r: nat)
      requires bs > 0 && x <= end <= Bytes(0x1_0000, bs) && (x < end ==> Bytes(fileBlock, bs) + bs == x)
      ensures x < end ==> Bytes(r, bs) == x
    {
      if x < end { NextBlock(fileBlock + 1, bs, x); }
      r := U16(fileBlock + 1);
    }

    /** The partial first block, if the span does not start at a block; gives the next file block. */
    method ReadHead(inode: Inode, buf: array<Byte>, offset: nat, len: nat, ghost before: seq<Byte>, ghost good: bool)
        returns (done: nat, fileBlock: nat)
      requires Ok() && 0 < len <= buf.Length && offset + len <= Bytes(0x1_0000, bs) && SpanOk(inode, offset, len)
      requires Reading(inode, before, buf[..], offset, 0, len, good)
      modifies this`held, buf, dev.disk`plan
      ensures held == old(held) && Reading(inode, before, buf[..], offset, done, len, good)
      ensures done < len ==> Bytes(fileBlock, bs) == offset + done
    {
      var blockOffset;
      fileBlock, blockOffset := Locate(offset);
      if blockOffset == 0 { return 0, fileBlock; }
      done := ReadFirst(inode, buf, offset, len, fileBlock, blockOffset, before, good);
      fileBlock := Following(fileBlock, offset + done, offset + len);
    }

    method ReadFirst(inode: Inode, buf: array<Byte>, offset: nat, len: nat, fileBlock: nat, from: nat,
                     ghost before: seq<Byte>, ghost good: bool) returns (done: nat)
      requires Ok() && 0 < len <= buf.Length && SpanOk(inode, offset, len)
      requires from < bs && Bytes(fileBlock, bs) + from == offset
      requires Reading(inode, before, buf[..], offset, 0, len, good)
      modifies this`held, buf, dev.disk`plan
      ensures held == old(held) && Reading(inode, before, buf[..], offset, done, len, good)
      ensures done == len || from + done == bs
    {
      done := if len <= bs - from then len else bs - from;
      ReadNext(inode, fileBlock, buf, 0, from, done, before, offset, len, good);
    }

    /** The loop over whole blocks and the partial last block. */
    method ReadWhole(inode: Inode, buf: array<Byte>, start: nat, block: nat, len: nat,
                     ghost before: seq<Byte>, ghost offset: nat, ghost good: bool) returns (done: nat)
      requires Ok() && len <= buf.Length && offset + len <= Bytes(0x1_0000, bs) && SpanOk(inode, offset, len)
      requires start < len ==> Bytes(block, bs) == offset + start
      requires Reading(inode, before, buf[..], offset, start, len, good)
      modifies this`held, buf, dev.disk`plan
      ensures held == old(held) && Reading(inode, before, buf[..], offset, len, len, good) && done == len
    {
      hide HoldsFile, SameOutside, BlockOk, FaultFree;
      done := start;
      var fileBlock := block;
      while len - done >= bs
        invariant held == old(held) && Reading(inode, before, buf[..], offset, done, len, good)
        invariant done < len ==> Bytes(fileBlock, bs) == offset + done
        decreases len - done
      {
        ReadNext(inode, fileBlock, buf, done, 0, bs, before, offset, len, good);
        done := done + bs;
        fileBlock := Following(fileBlock, offset + done, offset + len);
      }
      ReadLast(inode, buf, done, fileBlock, len, before, offset, good);
      done := len;
    }

    /** The partial last block, if there is one. */
    method ReadLast(inode: Inode, buf: array<Byte>, done: nat, block: nat, len: nat,
                    ghost before: seq<Byte>, ghost offset: nat, ghost good: bool)
      requires Ok() && done <= len <= buf.Length && len - done < bs && SpanOk(inode, offset, len)
      requires done < len ==> Bytes(block, bs) == offset + done
      requires Reading(inode, before, buf[..], offset, done, len, good)
      modifies this`held, buf, dev.disk`plan
      ensures held == old(held) && Reading(inode, before, buf[..], offset, len, len, good)
    {
      if len - done > 0 {
        ReadNext(inode, block, buf, done, 0, len - done, before, offset, len, good);
      }
    }
  }

  /** The bytes of a file block are those of its device block. */
  lemma {:induction false} BlockIsThere(img: seq<Byte>, bs: nat, inode: Inode, block: nat)
    requires BlockOk(img, bs, inode, block)
    ensures var there := DeviceBlock(img, bs, inode, block);
      if there == 0 then BlockBytes(img, bs, inode, block) == Zeros(bs)
      else
        && Bytes(there, bs) + bs <= |img|
        && BlockBytes(img, bs, inode, block) == img[Bytes(there, bs)..Bytes(there, bs) + bs]
  {}

  /** The trimming of ext2_read_inode, its sum in 32 bits. */
  function TrimRead(fileSize: int, offset: nat, len: nat): int {
    if offset > fileSize then 0 else if I32(offset + len) >= fileSize then fileSize - offset else len
  }

  lemma TrimIsReadLen(fileSize: int, offset: nat, len: nat)
    requires offset + len < TWO31
    ensures TrimRead(fileSize, offset, len) == ReadLen(fileSize, offset, len)
  {}

  /** Following path from ptr is sound and ends at leaf. */
  ghost predicate LeadsTo(img: seq<Byte>, bs: nat, ptr: nat, path: seq<nat>, leaf: nat) {
    path != [] && TreeOk(img, bs, ptr, path) && Leaf(img, bs, ptr, path) == leaf
  }

  /** Entry i of a pointer table is v. */
  ghost predicate EntryIs(table: seq<Byte>, bs: nat, i: nat, v: nat) {
    |table| == bs && 4 * i + 4 <= bs && Le32(table, 4 * i) == v
  }

  lemma {:induction false} LeadsNonZero(img: seq<Byte>, bs: nat, ptr: nat, path: seq<nat>, leaf: nat)
    requires LeadsTo(img, bs, ptr, path, leaf)
    ensures U16(ptr) == 0 ==> leaf == 0
    ensures U16(ptr) != 0 ==> U16(ptr) == ptr && Bytes(ptr, bs) + bs <= |img|
  {}

  lemma {:induction false} LeadsOn(img: seq<Byte>, bs: nat, ptr: nat, path: seq<nat>, leaf: nat, table: seq<Byte>)
    requires LeadsTo(img, bs, ptr, path, leaf) && U16(ptr) != 0
    requires Bytes(ptr, bs) + bs <= |img| && table == img[Bytes(ptr, bs)..Bytes(ptr, bs) + bs]
    ensures |table| == bs && 4 * path[0] + 4 <= bs
    ensures |path| == 1 ==> EntryIs(table, bs, path[0], leaf)
    ensures |path| > 1 ==> LeadsTo(img, bs, Le32(table, 4 * path[0]), path[1..], leaf)
  {
    var e, base := 4 * path[0], Bytes(ptr, bs);
    assert table[e] == img[base + e] && table[e + 1] == img[base + e + 1];
    assert table[e + 2] == img[base + e + 2] && table[e + 3] == img[base + e + 3];
    var next := Le32(img, base + e);
    assert Le32(table, e) == next;
    assert TreeOk(img, bs, next, path[1..]) && Leaf(img, bs, ptr, path) == Leaf(img, bs, next, path[1..]);
    if |path| == 1 {
      assert path[1..] == [];
      assert Leaf(img, bs, next, []) == next;
    }
  }

  lemma WholeBlockCopied(b: seq<Byte>, b': seq<Byte>, at: nat, img: seq<Byte>, base: nat, bs: nat)
    requires base + bs <= |img|
    ensures Copied(b, b', at, img, base, bs) ==> Copied(b, b', at, img[base..base + bs], 0, bs)
  {
    var t := img[base..base + bs];
    if Copied(b, b', at, img, base, bs) {
      forall i: nat | i < |b'| ensures CopiedAt(b, b', at, t, 0, bs, i) {
        assert CopiedAt(b, b', at, img, base, bs, i);
      }
    }
  }

  /** A block that starts before block 65536 has a 16-bit number. */
  lemma {:induction false} NextBlock(block: nat, bs: nat, x: nat)
    requires bs > 0 && Bytes(block, bs) == x < Bytes(0x1_0000, bs)
    ensures block < 0x1_0000 && U16(block) == block
  {
    if block >= 0x1_0000 { BytesMonotone(0x1_0000, block, bs); }
  }

  lemma OutsideBoth(b: seq<Byte>, c: seq<Byte>, e: seq<Byte>, at: nat, n: nat, total: nat)
    requires SameOutside(b, c, 0, total) && SameOutside(c, e, at, n) && at + n <= total
    ensures SameOutside(b, e, 0, total)
  {
    forall i: nat | i < |e| && !(0 <= i < total) ensures SameAt(b, e, i) { assert SameAt(b, c, i) && SameAt(c, e, i); }
  }
}
