/**
 kernel/core/blkdev.c: byte-granular reads and writes over a driver that moves whole blocks and may
 fail at any call.
 */
module BlockDevice {
  import opened Bits
  import opened BlockSpec

  /**
   What a call out of this code does: all it was asked, or else return something having written only
   some blocks. An allocation fails unless its outcome is Done.
   */
  datatype Outcome = Done | Partial(ret: int, touched: set<nat>)

  ghost predicate FaultFree(plan: seq<Outcome>) { forall o :: o in plan ==> o == Done }

  /** A block device as its driver presents it. */
  class Disk {
    const blockSize: nat
    const blockShift: nat
    const blockCount: nat
    var data: seq<Byte>
    /** The outcomes of the coming driver calls and allocations; those past the end succeed. */
    var plan: seq<Outcome>

    ghost predicate Valid() reads this`data {
      blockSize == Pow2(blockShift) && blockShift <= 15 && |data| == Bytes(blockCount, blockSize) <= TWO31 - 65535
    }

    constructor (shift: nat, count: nat, bytes: seq<Byte>, outcomes: seq<Outcome>)
      requires shift <= 15 && |bytes| == Bytes(count, Pow2(shift)) <= TWO31 - 65535
      ensures Valid() && data == bytes && plan == outcomes && blockCount == count && blockShift == shift
    {
      blockShift, blockCount, blockSize := shift, count, Pow2(shift);
      data, plan := bytes, outcomes;
    }

    method NextOutcome() returns (o: Outcome)
      modifies this`plan
      ensures FaultFree(old(plan)) ==> o == Done && FaultFree(plan)
    {
      if plan == [] { return Done; }
      o := plan[0];
      assert o in plan && forall x :: x in plan[1..] ==> x in plan;
      plan := plan[1..];
    }

    /** malloc, which may fail. */
    method Allocate() returns (ok: bool)
      modifies this`plan
      ensures FaultFree(old(plan)) ==> ok && FaultFree(plan)
    {
      var o := NextOutcome();
      ok := o == Done;
    }

    lemma {:induction false} RangeFits(block: nat, count: nat)
      requires Valid() && block + count <= blockCount
      ensures Bytes(block, blockSize) + Bytes(count, blockSize) <= |data|
    {
      BytesAdd(block, count, blockSize);
      BytesMonotone(block + count, blockCount, blockSize);
    }

    /**
     The driver's read_block, on a range of the device. The count of bytes is returned as a 16-bit
     int; a driver that returns the whole count has moved all the blocks.
     */
    method DriverRead(buf: array<Byte>, at: nat, block: nat, count: nat) returns (ret: int)
      requires Valid() && block + count <= blockCount && at + Bytes(count, blockSize) <= buf.Length
      modifies buf, this`plan
      ensures ret == Bytes(count, blockSize) || FaultFree(old(plan)) ==>
                Copied(old(buf[..]), buf[..], at, data, Bytes(block, blockSize), Bytes(count, blockSize))
      ensures SameOutside(old(buf[..]), buf[..], at, Bytes(count, blockSize))
      ensures FaultFree(old(plan)) ==> ret == I16(Bytes(count, blockSize)) && FaultFree(plan)
    {
      RangeFits(block, count);
      BytesIsProduct(count, blockSize);
      BytesIsProduct(block, blockSize);
      var n, from := count * blockSize, block * blockSize;
      var o := NextOutcome();
      ret := I16(if o == Done then n else o.ret);
      Unchanged(buf[..], at, n);
      if o == Done || ret == n { CopyIn(buf, at, data, from, n); }
    }

    /** The driver's write_block, likewise. */
    method DriverWrite(src: seq<Byte>, block: nat, count: nat) returns (ret: int)
      requires Valid() && block + count <= blockCount && |src| == Bytes(count, blockSize)
      modifies this`data, this`plan
      ensures Valid() && Mixed(old(data), data, Bytes(block, blockSize), src, 0, |src|)
      ensures ret == |src| || FaultFree(old(plan)) ==> Copied(old(data), data, Bytes(block, blockSize), src, 0, |src|)
      ensures FaultFree(old(plan)) ==> ret == I16(|src|) && FaultFree(plan)
    {
      RangeFits(block, count);
      BytesIsProduct(count, blockSize);
      BytesIsProduct(block, blockSize);
      var o := NextOutcome();
      ret := I16(if o == Done then count * blockSize else o.ret);
      if o == Done || ret == count * blockSize {
        var from := block * blockSize;
        ghost var d := data;
        data := data[..from] + src + data[from + |src|..];
        forall i: nat | i < |data| ensures CopiedAt(d, data, from, src, 0, |src|, i) {}
        CopyIsMix(d, data, from, src, 0, |src|);
      } else {
        WriteTouched(src, block, count, o.touched);
      }
    }

    /** A failing write leaves each block as it was or as it was to be. */
    method WriteTouched(src: seq<Byte>, block: nat, count: nat, touched: set<nat>)
      requires |src| == Bytes(count, blockSize) && Bytes(block, blockSize) + |src| <= |data|
      modifies this`data
      ensures Mixed(old(data), data, Bytes(block, blockSize), src, 0, |src|)
    {
      BytesIsProduct(block, blockSize);
      var base := block * blockSize;
      var from := 0;
      CopyNothing(data, base, src, 0);
      MixWider(data, data, base, src, 0, 0, |src|);
      for k := 0 to count
        invariant Mixed(old(data), data, base, src, 0, |src|) && from == Bytes(k, blockSize)
      {
        BytesMonotone(k, count, blockSize);
        var to := from + blockSize;
        if block + k in touched {
          ghost var d := data;
          data := data[..base + from] + src[from..to] + data[base + to..];
          forall i: nat | i < |data| ensures MixedAt(old(data), data, base, src, 0, |src|, i) {
            assert MixedAt(old(data), d, base, src, 0, |src|, i);
          }
        }
        from := to;
      }
    }

    /** On the devices modelled, blk_block_trim_range cuts a block range to the part on the device. */
    lemma TrimBlocks(block: nat, count: nat)
      requires Valid() && block < TWO32 && count < 0x1_0000
      ensures BlockTrim(blockCount, block, count) == OnDevice(blockCount, block, count)
    {
      BytesIsProduct(blockCount, blockSize);
      BlocksBelowBytes(blockCount, blockSize);
      BlockTrimIsExactIff(blockCount);
    }

    /** blk_read_block: the driver gets the part of the range on the device, unless that is empty. */
    method ReadBlock(buf: array<Byte>, at: nat, block: nat, count: nat) returns (ret: int)
      requires Valid() && block < TWO32 && count < 0x1_0000
      requires at + Bytes(OnDevice(blockCount, block, count), blockSize) <= buf.Length
      modifies buf, this`plan
      ensures var n := OnDevice(blockCount, block, count);
        && (n == 0 ==> ret == 0 && buf[..] == old(buf[..]))
        && (n > 0 && (ret == Bytes(n, blockSize) || FaultFree(old(plan))) ==>
              Copied(old(buf[..]), buf[..], at, data, Bytes(block, blockSize), Bytes(n, blockSize)))
        && SameOutside(old(buf[..]), buf[..], at, Bytes(n, blockSize))
        && (FaultFree(old(plan)) ==> ret == I16(Bytes(n, blockSize)) && FaultFree(plan))
    {
      TrimBlocks(block, count);
      var n := BlockTrim(blockCount, block, count);
      Unchanged(buf[..], at, 0);
      if n == 0 { return 0; }
      ret := DriverRead(buf, at, block, n);
    }

    /** blk_write_block, likewise. */
    method WriteBlock(src: seq<Byte>, block: nat, count: nat) returns (ret: int)
      requires Valid() && block < TWO32 && count < 0x1_0000
      requires Bytes(OnDevice(blockCount, block, count), blockSize) <= |src|
      modifies this`data, this`plan
      ensures Valid()
      ensures var n := OnDevice(blockCount, block, count);
        && (n == 0 ==> ret == 0 && data == old(data))
        && (n > 0 && (ret == Bytes(n, blockSize) || FaultFree(old(plan))) ==>
              Copied(old(data), data, Bytes(block, blockSize), src, 0, Bytes(n, blockSize)))
        && (n > 0 ==> Mixed(old(data), data, Bytes(block, blockSize), src, 0, Bytes(n, blockSize)))
        && (FaultFree(old(plan)) ==> ret == I16(Bytes(n, blockSize)) && FaultFree(plan))
    {
      TrimBlocks(block, count);
      var n := BlockTrim(blockCount, block, count);
      if n == 0 { return 0; }
      BytesIsProduct(n, blockSize);
      var len := n * blockSize;
      ret := DriverWrite(src[..len], block, n);
      assert src[..len] == src[0..0 + len];
      WholePart(old(data), data, Bytes(block, blockSize), src, 0, len);
    }

    /** A block of the device has a 32-bit number. */
    lemma SmallNumber(block: nat)
      requires Valid() && block <= blockCount
      ensures block < TWO32
    {
      BlocksBelowBytes(blockCount, blockSize);
    }

    /** Reads one block into a temporary buffer and copies n of its bytes, from byte `from` on. */
    method ReadPiece(buf: array<Byte>, at: nat, block: nat, from: nat, n: nat) returns (err: int)
      requires Valid() && block < blockCount && from + n <= blockSize && at + n <= buf.Length
      modifies buf, this`plan
      ensures err <= 0
      ensures err == 0 ==> Copied(old(buf[..]), buf[..], at, data, Bytes(block, blockSize) + from, n)
      ensures SameOutside(old(buf[..]), buf[..], at, n)
      ensures FaultFree(old(plan)) ==> err == CallError(blockSize) && FaultFree(plan)
    {
      var temp := new Byte[blockSize];
      ghost var t0 := temp[..];
      err := ReadOne(temp, block);
      Unchanged(buf[..], at, n);
      if err < 0 { return; }
      CopyIn(buf, at, temp[..], from, n);
      CopyThrough(old(buf[..]), buf[..], at, t0, temp[..], data, Bytes(block, blockSize), from, n);
    }

    lemma BlockSizeBound()
      requires Valid()
      ensures 0 < blockSize <= 0x8000
    {
      Pow2At15();
      Pow2Monotone(blockShift, 15);
    }

    /** Reads one block into a temporary buffer; anything but a full block is an error. */
    method ReadOne(temp: array<Byte>, block: nat) returns (err: int)
      requires Valid() && block < blockCount && temp.Length == blockSize
      modifies temp, this`plan
      ensures err <= 0
      ensures err == 0 ==> Copied(old(temp[..]), temp[..], 0, data, Bytes(block, blockSize), blockSize)
      ensures FaultFree(old(plan)) ==> err == CallError(blockSize) && FaultFree(plan)
    {
      assert Bytes(1, blockSize) == blockSize;
      SmallNumber(block);
      BlockSizeBound();
      err := ReadBlock(temp, 0, block, 1);
      if err < 0 { return; }
      if err != blockSize { return ERR_IO; }
      err := 0;
    }

    /**
     blk_default_read of a range on the device. The count is kept in a 16-bit int; without faults the
     result is CleanCount.
     */
    method DefaultRead(buf: array<Byte>, at: nat, offset: nat, len: nat) returns (ret: int)
      requires Valid() && 0 < len < 0x1_0000 && offset + len <= |data| && at + len <= buf.Length
      modifies buf, this`plan
      ensures ret >= 0 ==> ret == len && Copied(old(buf[..]), buf[..], at, data, offset, len)
      ensures SameOutside(old(buf[..]), buf[..], at, len)
      ensures FaultFree(old(plan)) ==> ret == CleanCount(blockShift, offset, len) && FaultFree(plan)
    {
      ghost var before := buf[..];
      Unchanged(before, at, len);
      var memOk := Allocate();
      if !memOk { return ERR_NO_MEM; }
      var err, block := ReadFirst(buf, at, offset, len);
      var bytesRead := HeadLen(blockSize, offset, len);
      OutsideWider(before, buf[..], at, bytesRead, len);
      if err < 0 { return err; }
      err := ReadOn(buf, at, offset, bytesRead, len, block, before);
      ret := if err >= 0 then I16(len) else err;
    }

    /** The block of a byte and its position there. */
    method Locate(offset: nat) returns (block: nat, from: nat)
      requires Valid() && offset < |data|
      ensures block < blockCount && from == Rest(offset, blockSize) && Bytes(block, blockSize) + from == offset
    {
      Located(offset, blockSize, blockCount);
      block, from := offset / blockSize, offset % blockSize;
    }

    /** The partial first block, if there is one; gives the block to go on with. */
    method ReadFirst(buf: array<Byte>, at: nat, offset: nat, len: nat) returns (err: int, block: nat)
      requires Valid() && 0 < len && offset + len <= |data| && at + len <= buf.Length
      modifies buf, this`plan
      ensures block <= blockCount && err <= 0
      ensures var head := HeadLen(blockSize, offset, len);
        && (err == 0 ==> Copied(old(buf[..]), buf[..], at, data, offset, head))
        && SameOutside(old(buf[..]), buf[..], at, head)
        && (head < len ==> Bytes(block, blockSize) == offset + head)
        && (FaultFree(old(plan)) ==> err == (if head > 0 then CallError(blockSize) else 0) && FaultFree(plan))
    {
      var from;
      block, from := Locate(offset);
      err := 0;
      CopyNothing(buf[..], at, data, offset);
      Unchanged(buf[..], at, 0);
      if from != 0 {
        err := ReadPiece(buf, at, block, from, HeadLen(blockSize, offset, len));
        block := block + 1;
      }
    }

    /** What is left after a partial first block of `done` bytes. */
    method ReadOn(buf: array<Byte>, at: nat, offset: nat, done: nat, len: nat, block: nat, ghost before: seq<Byte>)
      returns (err: int)
      requires Valid() && at + len <= buf.Length && offset + len <= |data| && done <= len < 0x1_0000
      requires Copied(before, buf[..], at, data, offset, done)
      requires block <= blockCount && (done < len ==> Bytes(block, blockSize) == offset + done)
      modifies buf, this`plan
      ensures err >= 0 ==> Copied(before, buf[..], at, data, offset, len)
      ensures SameOutside(before, buf[..], at, len)
      ensures FaultFree(old(plan)) ==> err == RestError(blockShift, len - done) && FaultFree(plan)
    {
      ghost var middle := buf[..];
      err := ReadRest(buf, at + done, offset + done, len - done, block);
      OutsideNext(before, middle, buf[..], at, data, offset, done, len);
      if err >= 0 { CopyNext(before, middle, buf[..], at, data, offset, done, len - done); }
    }

    /** The middle blocks and the partial last block. */
    method ReadRest(buf: array<Byte>, at: nat, offset: nat, len: nat, block: nat) returns (err: int)
      requires Valid() && offset + len <= |data| && at + len <= buf.Length && len < 0x1_0000
      requires block <= blockCount && (len > 0 ==> Bytes(block, blockSize) == offset)
      modifies buf, this`plan
      ensures err >= 0 ==> Copied(old(buf[..]), buf[..], at, data, offset, len)
      ensures SameOutside(old(buf[..]), buf[..], at, len)
      ensures FaultFree(old(plan)) ==> err == RestError(blockShift, len) && FaultFree(plan)
    {
      var count := Shr(len, blockShift);
      WholeBlocks(len, blockShift, block, blockCount);
      var n := WholeLen(blockShift, len);
      ghost var before := buf[..];
      err := ReadWhole(buf, at, n, offset, block, count);
      OutsideWider(before, buf[..], at, n, len);
      if err < 0 { return; }
      if len > n { BytesAdd(block, count, blockSize); }
      err := ReadLast(buf, at, offset, n, len, block + count, before);
    }

    /** The partial last block, once n bytes are in place. */
    method ReadLast(buf: array<Byte>, at: nat, offset: nat, n: nat, len: nat, block: nat, ghost before: seq<Byte>)
      returns (err: int)
      requires Valid() && at + len <= buf.Length && offset + len <= |data| && n <= len
      requires Copied(before, buf[..], at, data, offset, n)
      requires n < len ==> block < blockCount && Bytes(block, blockSize) == offset + n && len - n <= blockSize
      modifies buf, this`plan
      ensures err >= 0 ==> Copied(before, buf[..], at, data, offset, len)
      ensures SameOutside(before, buf[..], at, len)
      ensures FaultFree(old(plan)) ==> err == (if n < len then CallError(blockSize) else 0) && FaultFree(plan)
    {
      ghost var middle := buf[..];
      if n == len {
        CopyOutside(before, middle, at, data, offset, n);
        return 0;
      }
      err := ReadPiece(buf, at + n, block, 0, len - n);
      OutsideNext(before, middle, buf[..], at, data, offset, n, len);
      if err >= 0 { CopyNext(before, middle, buf[..], at, data, offset, n, len - n); }
    }

    /** The n bytes of the middle blocks; anything but all of them is an error. */
    method ReadWhole(buf: array<Byte>, at: nat, n: nat, offset: nat, block: nat, count: nat) returns (err: int)
      requires Valid() && n == Bytes(count, blockSize) && at + n <= buf.Length && offset + n <= |data|
      requires n < 0x1_0000 && block <= blockCount
      requires count > 0 ==> block + count <= blockCount && Bytes(block, blockSize) == offset
      modifies buf, this`plan
      ensures err >= 0 ==> Copied(old(buf[..]), buf[..], at, data, offset, n)
      ensures SameOutside(old(buf[..]), buf[..], at, n)
      ensures FaultFree(old(plan)) ==> err == CallError(n) && FaultFree(plan)
    {
      CopyNothing(buf[..], at, data, offset);
      SmallNumber(block);
      BlocksBelowBytes(count, blockSize);
      err := ReadBlock(buf, at, block, count);
      if err >= 0 { err := if err == n then 0 else ERR_IO; }
    }

    /** Reads a block, patches n bytes of it with those of src from k on, and writes it back. */
    method WritePiece(src: seq<Byte>, k: nat, block: nat, x: nat, n: nat) returns (err: int)
      requires Valid() && block < blockCount && x + n <= blockSize && k + n <= |src|
      modifies this`data, this`plan
      ensures Valid() && err <= 0 && |data| == |old(data)|
      ensures err == 0 ==> Copied(old(data), data, Bytes(block, blockSize) + x, src, k, n)
      ensures Mixed(old(data), data, Bytes(block, blockSize) + x, src, k, n)
      ensures FaultFree(old(plan)) ==> err == CallError(blockSize) && FaultFree(plan)
    {
      RangeFits(block, 1);
      assert Bytes(1, blockSize) == blockSize;
      var temp := new Byte[blockSize];
      ghost var t0 := temp[..];
      CopyNothing(data, Bytes(block, blockSize) + x, src, k);
      MixWider(data, data, Bytes(block, blockSize) + x, src, k, 0, n);
      err := ReadOne(temp, block);
      if err < 0 { return; }
      ghost var t := temp[..];
      CopyIn(temp, x, src, k, n);
      err := WriteOne(temp[..], block);
      PatchBlock(old(data), data, Bytes(block, blockSize), t0, t, temp[..], x, src, k, n);
    }

    /** Writes one block; anything but a full block is an error. */
    method WriteOne(src: seq<Byte>, block: nat) returns (err: int)
      requires Valid() && block < blockCount && |src| == blockSize
      modifies this`data, this`plan
      ensures Valid() && err <= 0 && Mixed(old(data), data, Bytes(block, blockSize), src, 0, |src|)
      ensures err == 0 ==> Copied(old(data), data, Bytes(block, blockSize), src, 0, |src|)
      ensures FaultFree(old(plan)) ==> err == CallError(blockSize) && FaultFree(plan)
    {
      assert Bytes(1, blockSize) == blockSize;
      SmallNumber(block);
      BlockSizeBound();
      err := WriteBlock(src, block, 1);
      if err < 0 { return; }
      if err != blockSize { return ERR_IO; }
      err := 0;
    }

    /** blk_default_write of a range on the device, its result like that of blk_default_read. */
    method DefaultWrite(src: seq<Byte>, offset: nat) returns (ret: int)
      requires Valid() && 0 < |src| < 0x1_0000 && offset + |src| <= |data|
      modifies this`data, this`plan
      ensures Valid() && |data| == |old(data)|
      ensures ret >= 0 ==> ret == |src| && Copied(old(data), data, offset, src, 0, |src|)
      ensures Mixed(old(data), data, offset, src, 0, |src|)
      ensures FaultFree(old(plan)) ==> ret == CleanCount(blockShift, offset, |src|) && FaultFree(plan)
    {
      ghost var before := data;
      CopyNothing(before, offset, src, 0);
      MixWider(before, before, offset, src, 0, 0, |src|);
      var memOk := Allocate();
      if !memOk { return ERR_NO_MEM; }
      var err, block := WriteFirst(src, offset);
      var bytesWritten := HeadLen(blockSize, offset, |src|);
      MixWider(before, data, offset, src, 0, bytesWritten, |src|);
      if err < 0 { return err; }
      err := WriteOn(src, offset, bytesWritten, block, before);
      ret := if err >= 0 then I16(|src|) else err;
    }

    /** The partial first block, if there is one; gives the block to go on with. */
    method WriteFirst(src: seq<Byte>, offset: nat) returns (err: int, block: nat)
      requires Valid() && 0 < |src| && offset + |src| <= |data|
      modifies this`data, this`plan
      ensures Valid() && |data| == |old(data)| && block <= blockCount && err <= 0
      ensures var head := HeadLen(blockSize, offset, |src|);
        && (err == 0 ==> Copied(old(data), data, offset, src, 0, head))
        && Mixed(old(data), data, offset, src, 0, head)
        && (head < |src| ==> Bytes(block, blockSize) == offset + head)
        && (FaultFree(old(plan)) ==> err == (if head > 0 then CallError(blockSize) else 0) && FaultFree(plan))
    {
      var from;
      block, from := Locate(offset);
      err := 0;
      CopyNothing(data, offset, src, 0);
      if from != 0 {
        err := WritePiece(src, 0, block, from, HeadLen(blockSize, offset, |src|));
        block := block + 1;
      }
    }

    /** What is left after a partial first block of `done` bytes. */
    method WriteOn(src: seq<Byte>, offset: nat, done: nat, block: nat, ghost before: seq<Byte>) returns (err: int)
      requires Valid() && offset + |src| <= |data| && done <= |src| < 0x1_0000
      requires Copied(before, data, offset, src, 0, done)
      requires block <= blockCount && (done < |src| ==> Bytes(block, blockSize) == offset + done)
      modifies this`data, this`plan
      ensures Valid() && |data| == |before|
      ensures err >= 0 ==> Copied(before, data, offset, src, 0, |src|)
      ensures Mixed(before, data, offset, src, 0, |src|)
      ensures FaultFree(old(plan)) ==> err == RestError(blockShift, |src| - done) && FaultFree(plan)
    {
      ghost var middle := data;
      err := WriteRest(src, done, offset + done, block);
      MixNext(before, middle, data, offset, src, 0, done, |src| - done, |src|);
      if err >= 0 { CopyNext(before, middle, data, offset, src, 0, done, |src| - done); }
    }

    /** The n bytes of the middle blocks; anything but all of them is an error. */
    method WriteWhole(src: seq<Byte>, k: nat, n: nat, offset: nat, block: nat, count: nat) returns (err: int)
      requires Valid() && n == Bytes(count, blockSize) && k + n <= |src| && offset + n <= |data|
      requires n < 0x1_0000 && block <= blockCount
      requires count > 0 ==> block + count <= blockCount && Bytes(block, blockSize) == offset
      modifies this`data, this`plan
      ensures Valid() && Mixed(old(data), data, offset, src, k, n)
      ensures err >= 0 ==> Copied(old(data), data, offset, src, k, n)
      ensures FaultFree(old(plan)) ==> err == CallError(n) && FaultFree(plan)
    {
      CopyNothing(data, offset, src, k);
      SmallNumber(block);
      BlocksBelowBytes(count, blockSize);
      err := WriteBlock(src[k..k + n], block, count);
      if count > 0 { WholePart(old(data), data, offset, src, k, n); }
      if err >= 0 { err := if err == n then 0 else ERR_IO; }
    }

    /** The middle blocks and the partial last block, for the bytes of src from k on. */
    method WriteRest(src: seq<Byte>, k: nat, offset: nat, block: nat) returns (err: int)
      requires Valid() && k <= |src| < 0x1_0000 && offset + (|src| - k) <= |data|
      requires block <= blockCount && (k < |src| ==> Bytes(block, blockSize) == offset)
      modifies this`data, this`plan
      ensures Valid() && |data| == |old(data)|
      ensures err >= 0 ==> Copied(old(data), data, offset, src, k, |src| - k)
      ensures Mixed(old(data), data, offset, src, k, |src| - k)
      ensures FaultFree(old(plan)) ==> err == RestError(blockShift, |src| - k) && FaultFree(plan)
    {
      var len := |src| - k;
      var count := Shr(len, blockShift);
      WholeBlocks(len, blockShift, block, blockCount);
      var n := WholeLen(blockShift, len);
      err := WriteWhole(src, k, n, offset, block, count);
      MixWider(old(data), data, offset, src, k, n, len);
      if err < 0 { return; }
      if len > n { BytesAdd(block, count, blockSize); }
      err := WriteLast(src, k, n, len, offset, block + count, old(data));
    }

    /** The partial last block, once n bytes are written. */
    method WriteLast(src: seq<Byte>, k: nat, n: nat, len: nat, offset: nat, block: nat, ghost before: seq<Byte>)
      returns (err: int)
      requires Valid() && k + len <= |src| && offset + len <= |data| && n <= len
      requires Copied(before, data, offset, src, k, n)
      requires n < len ==> block < blockCount && Bytes(block, blockSize) == offset + n && len - n <= blockSize
      modifies this`data, this`plan
      ensures Valid() && |data| == |before|
      ensures err >= 0 ==> Copied(before, data, offset, src, k, len)
      ensures Mixed(before, data, offset, src, k, len)
      ensures FaultFree(old(plan)) ==> err == (if n < len then CallError(blockSize) else 0) && FaultFree(plan)
    {
      ghost var middle := data;
      if n == len {
        CopyIsMix(before, middle, offset, src, k, n);
        return 0;
      }
      err := WritePiece(src, k + n, block, 0, len - n);
      MixNext(before, middle, data, offset, src, k, n, len - n, len);
      if err >= 0 { CopyNext(before, middle, data, offset, src, k, n, len - n); }
    }
  }

  /** memcpy of n bytes of s into a buffer. */
  method CopyIn(buf: array<Byte>, at: nat, s: seq<Byte>, from: nat, n: nat)
    requires at + n <= buf.Length && from + n <= |s|
    modifies buf
    ensures Copied(old(buf[..]), buf[..], at, s, from, n) && SameOutside(old(buf[..]), buf[..], at, n)
  {
    forall i | 0 <= i < n { buf[at + i] := s[from + i]; }
    forall i: nat | i < buf.Length ensures CopiedAt(old(buf[..]), buf[..], at, s, from, n, i) {}
    CopyOutside(old(buf[..]), buf[..], at, s, from, n);
  }

  /** Copying out of a buffer that holds a block is copying from the block. */
  lemma CopyThrough(
      b: seq<Byte>, b': seq<Byte>, at: nat, t0: seq<Byte>, t: seq<Byte>, d: seq<Byte>, base: nat, from: nat, n: nat)
    requires Copied(t0, t, 0, d, base, |t|) && Copied(b, b', at, t, from, n)
    ensures Copied(b, b', at, d, base + from, n)
  {
    var x := base + from;
    forall i: nat | i < |b'| ensures CopiedAt(b, b', at, d, x, n, i) {
      assert CopiedAt(b, b', at, t, from, n, i);
      if at <= i < at + n { assert CopiedAt(t0, t, 0, d, base, |t|, from + i - at); }
    }
  }
}
