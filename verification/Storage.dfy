/**
 blk_read and blk_write on whole disks and on the MBR partitions of kernel/core/subdev.c: each
 device behaves as an array of bytes, and a partition as a slice of its parent's.
 */
module Storage {
  import opened Bits
  import opened BlockSpec
  import opened BlockDevice
  import opened Options

  /** A registered disk, or a subdevice of `count` blocks from block `start` of its parent on. */
  datatype Device = Whole(disk: Disk) | Part(disk: Disk, start: nat, count: nat)

  ghost predicate Valid(dev: Device) reads dev.disk`data {
    dev.disk.Valid() && (dev.Part? ==> dev.start + dev.count <= dev.disk.blockCount)
  }

  /** block_count of the device. */
  function Blocks(dev: Device): nat { if dev.Whole? then dev.disk.blockCount else dev.count }

  /** First byte of the device on its disk; Bytes(n, bs) is n * bs. */
  function Base(dev: Device): nat { if dev.Whole? then 0 else Bytes(dev.start, dev.disk.blockSize) }

  function Size(dev: Device): nat { Bytes(Blocks(dev), dev.disk.blockSize) }

  lemma Fits(dev: Device)
    requires Valid(dev)
    ensures Base(dev) + Size(dev) <= |dev.disk.data|
  {
    if dev.Part? { dev.disk.RangeFits(dev.start, dev.count); }
  }

  /** The bytes of the device. */
  ghost function Contents(dev: Device): (s: seq<Byte>)
    requires Valid(dev)
    reads dev.disk`data
    ensures |s| == Size(dev)
  {
    Fits(dev);
    dev.disk.data[Base(dev)..Base(dev) + Size(dev)]
  }

  /** Byte i of a partition is the i-th byte from the start of its first block on; Bytes(n, bs) is n * bs. */
  lemma ByteOfPartition(dev: Device, i: nat)
    requires Valid(dev) && dev.Part? && i < Bytes(dev.count, dev.disk.blockSize)
    ensures |Contents(dev)| == Bytes(dev.count, dev.disk.blockSize)
    ensures Bytes(dev.start, dev.disk.blockSize) + i < |dev.disk.data|
    ensures Contents(dev)[i] == dev.disk.data[Bytes(dev.start, dev.disk.blockSize) + i]
  {
    Fits(dev);
  }

  /** On the devices modelled, blk_trim_range cuts a request to the part on the device. */
  lemma TrimOnDevice(dev: Device, offset: nat, len: nat)
    requires Valid(dev) && offset < TWO31 && len < 0x1_0000
    ensures TrimRange(Size(dev), offset, len) == OnDevice(Size(dev), offset, len)
  {
    Fits(dev);
    TrimIsExactIff(Size(dev));
  }

  /** subdev_read's shifted offset, in 32-bit arithmetic: no wrap, and the range stays on the parent. */
  lemma ShiftedOffset(dev: Device, offset: nat, n: nat)
    requires Valid(dev) && dev.Part? && n > 0 && offset + n <= Size(dev)
    ensures I32(offset + U32(Base(dev))) == Base(dev) + offset
    ensures Base(dev) + offset + n <= |dev.disk.data|
    ensures OnDevice(|dev.disk.data|, Base(dev) + offset, n) == n
  {
    Fits(dev);
    NoWrap(offset, Base(dev));
  }

  lemma NoWrap(x: nat, y: nat)
    requires x + y < TWO31
    ensures I32(x + U32(y)) == x + y
  {}

  /** The result of a transfer without faults, in a 16-bit int. */
  function CleanResult(dev: Device, offset: nat, len: nat): int {
    var n := OnDevice(Size(dev), offset, len);
    if n == 0 then 0 else CleanCount(dev.disk.blockShift, Base(dev) + offset, n)
  }

  /** It is the number of bytes moved if and only if that is at most 32767 and blocks have at most 16384 bytes. */
  lemma ResultIsRightIff(dev: Device, offset: nat, len: nat)
    requires Valid(dev) && len < 0x1_0000
    ensures var n, r := OnDevice(Size(dev), offset, len), CleanResult(dev, offset, len);
      && (r == n <==> n == 0 || (n <= 0x7FFF && dev.disk.blockSize <= 0x4000))
      && (r >= 0 <==> r == n)
  {
    var n := OnDevice(Size(dev), offset, len);
    if n > 0 { CountIsRightIff(dev.disk.blockShift, Base(dev) + offset, n); }
  }

  /** blk_read of a registered disk. */
  method ReadDisk(disk: Disk, buf: array<Byte>, at: nat, offset: nat, len: nat) returns (ret: int)
    requires disk.Valid() && offset < TWO31 && len < 0x1_0000 && at + len <= buf.Length
    modifies buf, disk`plan
    ensures ret >= 0 ==> ret == OnDevice(|disk.data|, offset, len)
    ensures ret > 0 ==> Copied(old(buf[..]), buf[..], at, disk.data, offset, ret)
    ensures SameOutside(old(buf[..]), buf[..], at, len)
    ensures FaultFree(old(disk.plan)) ==> ret == CleanResult(Whole(disk), offset, len) && FaultFree(disk.plan)
  {
    var n := TrimRange(Size(Whole(disk)), offset, len);
    TrimOnDevice(Whole(disk), offset, len);
    Unchanged(buf[..], at, len);
    if n == 0 { return 0; }
    ret := disk.DefaultRead(buf, at, offset, n);
    OutsideWider(old(buf[..]), buf[..], at, n, len);
  }

  /** blk_read: the buffer from `at` on gets the part of the range that is on the device. */
  method BlkRead(dev: Device, buf: array<Byte>, at: nat, offset: nat, len: nat) returns (ret: int)
    requires Valid(dev) && offset < TWO31 && len < 0x1_0000 && at + len <= buf.Length
    modifies buf, dev.disk`plan
    ensures ret >= 0 ==> ret == OnDevice(Size(dev), offset, len)
    ensures ret > 0 ==> Copied(old(buf[..]), buf[..], at, Contents(dev), offset, ret)
    ensures SameOutside(old(buf[..]), buf[..], at, len)
    ensures FaultFree(old(dev.disk.plan)) ==> ret == CleanResult(dev, offset, len) && FaultFree(dev.disk.plan)
  {
    if dev.Whole? {
      assert Contents(dev) == dev.disk.data;
      ret := ReadDisk(dev.disk, buf, at, offset, len);
      return;
    }
    var n := TrimRange(Size(dev), offset, len);
    TrimOnDevice(dev, offset, len);
    Unchanged(buf[..], at, len);
    if n == 0 { return 0; }
    ret := SubdevRead(dev, buf, at, offset, n);
    OutsideWider(old(buf[..]), buf[..], at, n, len);
  }

  /** subdev_read of a range on the partition: blk_read of the parent at the shifted offset. */
  method SubdevRead(dev: Device, buf: array<Byte>, at: nat, offset: nat, n: nat) returns (ret: int)
    requires Valid(dev) && dev.Part? && 0 < n < 0x1_0000 && offset + n <= Size(dev) && at + n <= buf.Length
    modifies buf, dev.disk`plan
    ensures ret >= 0 ==> ret == n && Copied(old(buf[..]), buf[..], at, Contents(dev), offset, n)
    ensures SameOutside(old(buf[..]), buf[..], at, n)
    ensures FaultFree(old(dev.disk.plan)) ==>
              ret == CleanCount(dev.disk.blockShift, Base(dev) + offset, n) && FaultFree(dev.disk.plan)
  {
    ShiftedOffset(dev, offset, n);
    ret := ReadDisk(dev.disk, buf, at, I32(offset + U32(Base(dev))), n);
    if ret >= 0 { CopiedFromPart(dev, old(buf[..]), buf[..], at, offset, n); }
  }

  lemma CopiedFromPart(dev: Device, b: seq<Byte>, b': seq<Byte>, at: nat, offset: nat, n: nat)
    requires Valid(dev) && dev.Part? && offset + n <= Size(dev)
    requires Copied(b, b', at, dev.disk.data, Base(dev) + offset, n)
    ensures Copied(b, b', at, Contents(dev), offset, n)
  {
    Fits(dev);
    var d := dev.disk.data;
    var x := Base(dev) + offset;
    forall i: nat | i < |b'| ensures CopiedAt(b, b', at, Contents(dev), offset, n, i) {
      assert CopiedAt(b, b', at, d, x, n, i);
    }
  }

  /** What a write of src at offset of a device may leave on its disk. */
  ghost predicate Written(dev: Device, before: seq<Byte>, after: seq<Byte>, offset: nat, src: seq<Byte>, n: nat) {
    n <= |src| && (n > 0 ==> Copied(before, after, Base(dev) + offset, src, 0, n)) && (n == 0 ==> after == before)
  }

  ghost predicate PartlyWritten(dev: Device, before: seq<Byte>, after: seq<Byte>, offset: nat, src: seq<Byte>, n: nat) {
    n <= |src| && (n > 0 ==> Mixed(before, after, Base(dev) + offset, src, 0, n)) && (n == 0 ==> after == before)
  }

  /** blk_write of a registered disk. */
  method WriteDisk(disk: Disk, src: seq<Byte>, offset: nat) returns (ret: int)
    requires disk.Valid() && offset < TWO31 && |src| < 0x1_0000
    modifies disk`data, disk`plan
    ensures disk.Valid() && |disk.data| == |old(disk.data)|
    ensures ret >= 0 ==>
              ret == OnDevice(|disk.data|, offset, |src|)
              && Written(Whole(disk), old(disk.data), disk.data, offset, src, ret)
    ensures PartlyWritten(Whole(disk), old(disk.data), disk.data, offset, src, OnDevice(|disk.data|, offset, |src|))
    ensures FaultFree(old(disk.plan)) ==> ret == CleanResult(Whole(disk), offset, |src|) && FaultFree(disk.plan)
  {
    var n := TrimRange(Size(Whole(disk)), offset, |src|);
    TrimOnDevice(Whole(disk), offset, |src|);
    if n == 0 { return 0; }
    ret := disk.DefaultWrite(src[..n], offset);
    assert src[..n] == src[0..0 + n];
    WholePart(old(disk.data), disk.data, offset, src, 0, n);
  }

  /** blk_write: exactly the part of the range that is on the device is replaced, or a failure left
      some of its bytes old and some new. */
  method BlkWrite(dev: Device, src: seq<Byte>, offset: nat) returns (ret: int)
    requires Valid(dev) && offset < TWO31 && |src| < 0x1_0000
    modifies dev.disk`data, dev.disk`plan
    ensures Valid(dev) && |dev.disk.data| == |old(dev.disk.data)|
    ensures ret >= 0 ==>
              ret == OnDevice(Size(dev), offset, |src|)
              && Written(dev, old(dev.disk.data), dev.disk.data, offset, src, ret)
    ensures PartlyWritten(dev, old(dev.disk.data), dev.disk.data, offset, src, OnDevice(Size(dev), offset, |src|))
    ensures FaultFree(old(dev.disk.plan)) ==> ret == CleanResult(dev, offset, |src|) && FaultFree(dev.disk.plan)
  {
    if dev.Whole? {
      ret := WriteDisk(dev.disk, src, offset);
      return;
    }
    var n := TrimRange(Size(dev), offset, |src|);
    TrimOnDevice(dev, offset, |src|);
    if n == 0 { return 0; }
    ret := SubdevWrite(dev, src, offset, n);
  }

  /** subdev_write of the first n bytes of src to a range on the partition. */
  method SubdevWrite(dev: Device, src: seq<Byte>, offset: nat, n: nat) returns (ret: int)
    requires Valid(dev) && dev.Part? && 0 < n < 0x1_0000 && n <= |src| && offset + n <= Size(dev)
    modifies dev.disk`data, dev.disk`plan
    ensures Valid(dev) && |dev.disk.data| == |old(dev.disk.data)|
    ensures ret >= 0 ==> ret == n && Copied(old(dev.disk.data), dev.disk.data, Base(dev) + offset, src, 0, n)
    ensures Mixed(old(dev.disk.data), dev.disk.data, Base(dev) + offset, src, 0, n)
    ensures FaultFree(old(dev.disk.plan)) ==>
              ret == CleanCount(dev.disk.blockShift, Base(dev) + offset, n) && FaultFree(dev.disk.plan)
  {
    ShiftedOffset(dev, offset, n);
    ret := WriteDisk(dev.disk, src[..n], I32(offset + U32(Base(dev))));
    assert src[..n] == src[0..0 + n];
    WholePart(old(dev.disk.data), dev.disk.data, Base(dev) + offset, src, 0, n);
  }

  // ----- Whole blocks

  /** blk_read_block of any block range, the range of a partition being shifted to its parent's. */
  method BlkReadBlock(dev: Device, buf: array<Byte>, at: nat, block: nat, count: nat) returns (ret: int)
    requires Valid(dev) && block < TWO32 && count < 0x1_0000
    requires at + Bytes(OnDevice(Blocks(dev), block, count), dev.disk.blockSize) <= buf.Length
    modifies buf, dev.disk`plan
    ensures var bs, n := dev.disk.blockSize, OnDevice(Blocks(dev), block, count);
      && (n == 0 ==> ret == 0 && buf[..] == old(buf[..]))
      && (n > 0 && (ret == Bytes(n, bs) || FaultFree(old(dev.disk.plan))) ==>
            Copied(old(buf[..]), buf[..], at, Contents(dev), Bytes(block, bs), Bytes(n, bs)))
      && SameOutside(old(buf[..]), buf[..], at, Bytes(n, bs))
      && (FaultFree(old(dev.disk.plan)) ==> ret == I16(Bytes(n, bs)) && FaultFree(dev.disk.plan))
  {
    var bs := dev.disk.blockSize;
    match dev {
      case Whole(disk) =>
        ret := disk.ReadBlock(buf, at, block, count);
        assert Contents(dev) == disk.data;
      case Part(disk, start, size) =>
        PartTrim(dev, block, count);
        var n := BlockTrim(size, block, count);
        Unchanged(buf[..], at, 0);
        if n == 0 { return 0; }
        BlocksOfPart(dev, block, n);
        ret := disk.ReadBlock(buf, at, U32(start + block), n);
        if ret == Bytes(n, bs) || FaultFree(old(disk.plan)) {
          CopiedFromPart(dev, old(buf[..]), buf[..], at, Bytes(block, bs), Bytes(n, bs));
        }
    }
  }

  lemma BlocksOfPart(dev: Device, block: nat, n: nat)
    requires Valid(dev) && dev.Part? && block + n <= dev.count
    ensures var bs := dev.disk.blockSize;
      && OnDevice(dev.disk.blockCount, dev.start + block, n) == n
      && U32(dev.start + block) == dev.start + block
      && Bytes(dev.start + block, bs) == Base(dev) + Bytes(block, bs)
      && Bytes(block, bs) + Bytes(n, bs) <= Size(dev)
  {
    var bs := dev.disk.blockSize;
    dev.disk.SmallNumber(dev.start + block);
    BytesAdd(dev.start, block, bs);
    BytesAdd(block, n, bs);
    BytesMonotone(block + n, dev.count, bs);
  }

  lemma PartTrim(dev: Device, block: nat, count: nat)
    requires Valid(dev) && dev.Part? && block < TWO32 && count < 0x1_0000
    ensures BlockTrim(dev.count, block, count) == OnDevice(dev.count, block, count)
  {
    BlocksBelowBytes(dev.disk.blockCount, dev.disk.blockSize);
    BlockTrimIsExactIff(dev.count);
  }

  /** blk_write_block of any block range. */
  method BlkWriteBlock(dev: Device, src: seq<Byte>, block: nat, count: nat) returns (ret: int)
    requires Valid(dev) && block < TWO32 && count < 0x1_0000
    requires Bytes(OnDevice(Blocks(dev), block, count), dev.disk.blockSize) <= |src|
    modifies dev.disk`data, dev.disk`plan
    ensures Valid(dev)
    ensures var bs, n := dev.disk.blockSize, OnDevice(Blocks(dev), block, count);
      && (ret == Bytes(n, bs) || FaultFree(old(dev.disk.plan)) ==>
            Written(dev, old(dev.disk.data), dev.disk.data, Bytes(block, bs), src, Bytes(n, bs)))
      && PartlyWritten(dev, old(dev.disk.data), dev.disk.data, Bytes(block, bs), src, Bytes(n, bs))
      && (FaultFree(old(dev.disk.plan)) ==> ret == I16(Bytes(n, bs)) && FaultFree(dev.disk.plan))
  {
    var bs := dev.disk.blockSize;
    match dev {
      case Whole(disk) =>
        BlocksBelowBytes(OnDevice(Blocks(dev), block, count), bs);
        ret := disk.WriteBlock(src, block, count);
      case Part(disk, start, size) =>
        PartTrim(dev, block, count);
        var n := BlockTrim(size, block, count);
        if n == 0 { return 0; }
        BytesIsProduct(n, bs);
        var len := n * bs;
        BlocksOfPart(dev, block, n);
        ret := disk.WriteBlock(src[..len], U32(start + block), n);
        assert src[..len] == src[0..0 + len];
        WholePart(old(dev.disk.data), dev.disk.data, Base(dev) + Bytes(block, bs), src, 0, len);
    }
  }

  // ----- What callers get

  /** After a successful write the device holds the data in the range and its old bytes elsewhere. */
  lemma WriteThenRead(dev: Device, before: seq<Byte>, after: seq<Byte>, offset: nat, src: seq<Byte>, n: nat)
    requires n > 0 && Written(dev, before, after, offset, src, n)
    requires |before| >= Base(dev) + Size(dev) && offset + n <= Size(dev)
    ensures var old', new' := before[Base(dev)..Base(dev) + Size(dev)], after[Base(dev)..Base(dev) + Size(dev)];
            && new'[offset..offset + n] == src[..n]
            && new'[..offset] == old'[..offset] && new'[offset + n..] == old'[offset + n..]
  {
    var b := Base(dev);
    var at, old', new' := b + offset, before[b..b + Size(dev)], after[b..b + Size(dev)];
    forall i: nat | i < |new'| ensures new'[i] == if offset <= i < offset + n then src[i - offset] else old'[i] {
      assert CopiedAt(before, after, at, src, 0, n, b + i);
    }
    PointsToSlices(old', new', offset, src, n);
  }

  lemma PointsToSlices(a: seq<Byte>, b: seq<Byte>, offset: nat, src: seq<Byte>, n: nat)
    requires |a| == |b| && offset + n <= |a| && n <= |src|
    requires forall i: nat :: i < |b| ==> b[i] == if offset <= i < offset + n then src[i - offset] else a[i]
    ensures b[offset..offset + n] == src[..n] && b[..offset] == a[..offset] && b[offset + n..] == a[offset + n..]
  {
    forall i | 0 <= i < n ensures b[offset..offset + n][i] == src[..n][i] { assert b[offset + i] == src[i]; }
    forall i | 0 <= i < offset ensures b[..offset][i] == a[..offset][i] { assert b[i] == a[i]; }
    var t, u := b[offset + n..], a[offset + n..];
    forall i | 0 <= i < |t| ensures t[i] == u[i] { assert b[offset + n + i] == a[offset + n + i]; }
  }

  /** blk_write and then blk_read of the same range: what was written comes back. */
  method WriteAndReadBack(dev: Device, src: seq<Byte>, offset: nat, buf: array<Byte>) returns (wrote: int, read: int)
    requires Valid(dev) && offset < TWO31 && |src| < 0x1_0000 && |src| <= buf.Length
    modifies dev.disk`data, dev.disk`plan, buf
    ensures Valid(dev)
    ensures wrote >= 0 && read >= 0 ==>
              wrote == read == OnDevice(Size(dev), offset, |src|) && buf[..read] == src[..read]
    ensures FaultFree(old(dev.disk.plan)) ==> wrote == read == CleanResult(dev, offset, |src|)
  {
    ghost var before, b := dev.disk.data, buf[..];
    wrote := BlkWrite(dev, src, offset);
    ghost var after := dev.disk.data;
    read := BlkRead(dev, buf, 0, offset, |src|);
    if wrote >= 0 && read > 0 {
      Fits(dev);
      WriteThenRead(dev, before, after, offset, src, read);
      CopiedSlices(b, buf[..], 0, Contents(dev), offset, read, 0, 0);
      assert buf[..read] == buf[..][0..0 + read];
    }
  }

  /** Writes through one partition, by bytes and by blocks, leave a disjoint one as it was. */
  method WriteBeside(p: Device, q: Device, src: seq<Byte>, offset: nat, blocks: seq<Byte>, block: nat, count: nat)
    requires Valid(p) && Valid(q) && Apart(p, q) && offset < TWO31 && |src| < 0x1_0000
    requires block < TWO32 && count < 0x1_0000
    requires Bytes(OnDevice(Blocks(p), block, count), p.disk.blockSize) <= |blocks|
    modifies p.disk`data, p.disk`plan
    ensures Valid(p) && Valid(q) && Contents(q) == old(Contents(q))
  {
    Fits(p);
    Fits(q);
    ghost var before := p.disk.data;
    var _ := BlkWrite(p, src, offset);
    ghost var middle := p.disk.data;
    PartitionsAreIndependent(p, q, before, middle, offset, src, OnDevice(Size(p), offset, |src|));
    var _ := BlkWriteBlock(p, blocks, block, count);
    ghost var bs, n := p.disk.blockSize, OnDevice(Blocks(p), block, count);
    if n > 0 {
      BlocksOfPart(p, block, n);
      BlocksBelowBytes(n, bs);
    }
    PartitionsAreIndependent(p, q, middle, p.disk.data, Bytes(block, bs), blocks, Bytes(n, bs));
  }

  /** Two devices on the same disk that share no block. */
  predicate Apart(p: Device, q: Device) {
    p.disk == q.disk && p.Part? && q.Part? && (p.start + p.count <= q.start || q.start + q.count <= p.start)
  }

  /** Nothing written through one partition, even by a write that fails, shows in a disjoint one. */
  lemma PartitionsAreIndependent(
      p: Device, q: Device, before: seq<Byte>, after: seq<Byte>, offset: nat, src: seq<Byte>, n: nat)
    requires Apart(p, q) && |before| >= Base(p) + Size(p) && |before| >= Base(q) + Size(q) && |after| == |before|
    requires (n > 0 ==> offset + n <= Size(p)) && PartlyWritten(p, before, after, offset, src, n)
    ensures after[Base(q)..Base(q) + Size(q)] == before[Base(q)..Base(q) + Size(q)]
  {
    var bs := p.disk.blockSize;
    BytesAdd(p.start, p.count, bs);
    BytesAdd(q.start, q.count, bs);
    if p.start + p.count <= q.start {
      BytesMonotone(p.start + p.count, q.start, bs);
    } else {
      BytesMonotone(q.start + q.count, p.start, bs);
    }
    if n > 0 { FailedWriteOutside(before, after, Base(p) + offset, src, n, Base(q), Base(q) + Size(q)); }
  }

  // ----- The master boot record

  datatype MbrEntry = MbrEntry(status: nat, kind: nat, lbaStart: nat, lbaLen: nat)

  function Le32(b: seq<Byte>, at: nat): (r: nat)
    requires at + 4 <= |b|
    ensures r < TWO32
  {
    var b0: int, b1: int, b2: int, b3: int := b[at], b[at + 1], b[at + 2], b[at + 3];
    b0 + 0x100 * b1 + 0x1_0000 * b2 + 0x100_0000 * b3
  }

  /** The four bytes at place `at` are those of v, the lowest first. */
  ghost predicate Holds32(b: seq<Byte>, at: nat, v: nat) {
    && at + 4 <= |b| && v < 0x1_0000_0000
    && b[at] == v % 256 && b[at + 1] == v / 0x100 % 256
    && b[at + 2] == v / 0x1_0000 % 256 && b[at + 3] == v / 0x100_0000 % 256
  }

  /** Every four bytes are those of one number, the one that Le32 reads. */
  lemma Le32Is(b: seq<Byte>, at: nat, v: nat)
    requires at + 4 <= |b|
    ensures Le32(b, at) == v <==> Holds32(b, at, v)
  {
    var b0: int, b1: int, b2: int, b3: int := b[at], b[at + 1], b[at + 2], b[at + 3];
    if Le32(b, at) == v { BytesOf(b0, b1, b2, b3, v); }
    if Holds32(b, at, v) { BytesOf(v % 256, v / 0x100 % 256, v / 0x1_0000 % 256, v / 0x100_0000 % 256, v); }
  }

  lemma BytesOf(b0: nat, b1: nat, b2: nat, b3: nat, v: nat)
    requires b0 < 256 && b1 < 256 && b2 < 256 && b3 < 256 && v < 0x1_0000_0000
    ensures v == b0 + 0x100 * b1 + 0x1_0000 * b2 + 0x100_0000 * b3 <==>
            b0 == v % 256 && b1 == v / 0x100 % 256 && b2 == v / 0x1_0000 % 256 && b3 == v / 0x100_0000 % 256
  {
    var r2 := b2 + 256 * b3;
    var r1 := b1 + 256 * r2;
    Shifts(v);
    OneByte(v, r1, b0);
    OneByte(v / 0x100, r2, b1);
    OneByte(v / 0x1_0000, b3, b2);
  }

  lemma OneByte(v: nat, q: nat, b: nat)
    requires b < 256
    ensures v == b + 256 * q <==> q == v / 256 && b == v % 256
  {}

  lemma Shifts(v: nat)
    ensures v / 0x1_0000 == v / 0x100 / 256 && v / 0x100_0000 == v / 0x1_0000 / 256
    ensures v < 0x1_0000_0000 ==> v / 0x100_0000 % 256 == v / 0x100_0000
  {}

  /** The i-th of the four entries at byte 446. */
  function EntryAt(mbr: seq<Byte>, i: nat): (e: MbrEntry)
    requires |mbr| == 512 && i < 4
    ensures e.lbaStart < TWO32 && e.lbaLen < TWO32
  {
    var at := 446 + 16 * i;
    MbrEntry(mbr[at], mbr[at + 4], Le32(mbr, at + 8), Le32(mbr, at + 12))
  }

  /** mbr_is_valid_entry: the sum is taken in 32 bits. */
  function MbrCheck(e: MbrEntry, blockCount: nat): int {
    if e.kind == 0 then ERR_NO_DEV
    else if e.status != 0x80 && e.status != 0x00 then ERR_NO_DEV
    else if e.lbaLen == 0 then ERR_NO_DEV
    else if e.lbaStart >= blockCount then ERR_INVAL
    else if U32(e.lbaStart + e.lbaLen) > blockCount then ERR_INVAL
    else 0
  }

  /** An entry that passes names a range of the disk exactly when its end does not wrap around. */
  lemma AcceptedEntryIsOnDiskIff(e: MbrEntry, blockCount: nat)
    requires e.lbaStart < TWO32 && e.lbaLen < TWO32 && blockCount < TWO32 && MbrCheck(e, blockCount) == 0
    ensures e.lbaStart + e.lbaLen <= blockCount <==> e.lbaStart + e.lbaLen < TWO32
  {}

  /** An entry of almost 2^32 blocks passes on a disk of ten. */
  lemma WrappedEntryPasses()
    ensures MbrCheck(MbrEntry(0x80, 0x83, 2, 0xFFFF_FFFF), 10) == 0
  {}

  /** mbr_publish_device. */
  function Publish(disk: Disk, e: MbrEntry): Option<Device> {
    if MbrCheck(e, disk.blockCount) < 0 then None else Some(Part(disk, e.lbaStart, e.lbaLen))
  }

  /** The devices of those of the first n entries for which memory was got. */
  function Published(disk: Disk, mbr: seq<Byte>, n: nat, got: set<nat>): seq<Device>
    requires |mbr| == 512 && n <= 4
  {
    if n == 0 then []
    else
      var d := Publish(disk, EntryAt(mbr, n - 1));
      Published(disk, mbr, n - 1, got) + (if d.Some? && n - 1 in got then [d.value] else [])
  }

  predicate EntryFits(mbr: seq<Byte>, i: nat)
    requires |mbr| == 512 && i < 4
  {
    EntryAt(mbr, i).lbaStart + EntryAt(mbr, i).lbaLen < TWO32
  }

  /** Every published partition lies on its disk, unless the end of its entry wraps around. */
  lemma {:induction false} PublishedAreValid(disk: Disk, mbr: seq<Byte>, n: nat, got: set<nat>)
    requires disk.Valid() && disk.blockCount < TWO32 && |mbr| == 512 && n <= 4
    requires forall i: nat :: i < n ==> EntryFits(mbr, i)
    ensures forall d :: d in Published(disk, mbr, n, got) ==> Valid(d) && d.disk == disk
  {
    if n > 0 {
      PublishedAreValid(disk, mbr, n - 1, got);
      assert EntryFits(mbr, n - 1);
      var e := EntryAt(mbr, n - 1);
      if MbrCheck(e, disk.blockCount) == 0 { AcceptedEntryIsOnDiskIff(e, disk.blockCount); }
    }
  }

  /**
   Entry i of the sector asks for `count` blocks from block `start` on and is good on a disk of
   blockCount blocks: it has a type, a status of 0x80 or 0, a length, a start on the disk, and an end,
   in 32 bits, that is not beyond the disk.
   */
  ghost predicate AsksFor(mbr: seq<Byte>, i: nat, start: nat, count: nat, blockCount: nat)
    requires |mbr| == 512 && i < 4
  {
    && Holds32(mbr, 454 + 16 * i, start) && Holds32(mbr, 458 + 16 * i, count)
    && mbr[450 + 16 * i] != 0 && (mbr[446 + 16 * i] == 0x80 || mbr[446 + 16 * i] == 0)
    && count != 0 && start < blockCount && (start + count) % 0x1_0000_0000 <= blockCount
  }

  lemma {:induction false} PublishIs(disk: Disk, mbr: seq<Byte>, i: nat, start: nat, count: nat)
    requires |mbr| == 512 && i < 4
    ensures Publish(disk, EntryAt(mbr, i)) == Some(Part(disk, start, count)) <==>
            AsksFor(mbr, i, start, count, disk.blockCount)
  {
    Le32Is(mbr, 454 + 16 * i, start);
    Le32Is(mbr, 458 + 16 * i, count);
  }

  /** d is the partition that entry i asks for. */
  ghost predicate IsPartition(disk: Disk, mbr: seq<Byte>, i: nat, d: Device)
    requires |mbr| == 512 && i < 4
  {
    d.Part? && d.disk == disk && AsksFor(mbr, i, d.start, d.count, disk.blockCount)
  }

  ghost predicate Good(disk: Disk, mbr: seq<Byte>, i: nat)
    requires |mbr| == 512 && i < 4
  {
    exists start: nat, count: nat :: AsksFor(mbr, i, start, count, disk.blockCount)
  }

  lemma {:induction false} PublishIsPartition(disk: Disk, mbr: seq<Byte>, i: nat)
    requires |mbr| == 512 && i < 4
    ensures var d := Publish(disk, EntryAt(mbr, i));
      (d.Some? <==> Good(disk, mbr, i)) && (d.Some? ==> IsPartition(disk, mbr, i, d.value))
  {
    var d := Publish(disk, EntryAt(mbr, i));
    if d.Some? { PublishIs(disk, mbr, i, d.value.start, d.value.count); }
    if Good(disk, mbr, i) {
      var start: nat, count: nat :| AsksFor(mbr, i, start, count, disk.blockCount);
      PublishIs(disk, mbr, i, start, count);
    }
  }

  /**
   devs are the partitions of the good entries among the first n that are in got, in their order;
   from says which entry each comes from.
   */
  ghost predicate Partitions(disk: Disk, mbr: seq<Byte>, n: nat, got: set<nat>, devs: seq<Device>, from: seq<nat>)
    requires |mbr| == 512 && n <= 4
  {
    && |from| == |devs| && (forall j, k :: 0 <= j < k < |from| ==> from[j] < from[k])
    && (forall j :: 0 <= j < |from| ==> from[j] < n && IsPartition(disk, mbr, from[j], devs[j]))
    && (forall i: nat :: i < n ==> (i in from <==> i in got && Good(disk, mbr, i)))
  }

  lemma {:induction false} NextPartition(
      disk: Disk, mbr: seq<Byte>, n: nat, got: set<nat>, devs: seq<Device>, from: seq<nat>, d: Option<Device>)
    requires |mbr| == 512 && n < 4 && Partitions(disk, mbr, n, got, devs, from)
    requires d.Some? <==> n in got && Good(disk, mbr, n)
    requires d.Some? ==> IsPartition(disk, mbr, n, d.value)
    ensures Partitions(disk, mbr, n + 1, got, devs + Optional(d), from + if d.Some? then [n] else [])
  {
    hide IsPartition, Good;
  }

  /** What is published, in terms of the bytes of the sector. */
  lemma {:induction false} PublishedExactly(disk: Disk, mbr: seq<Byte>, n: nat, got: set<nat>) returns (from: seq<nat>)
    requires |mbr| == 512 && n <= 4
    ensures Partitions(disk, mbr, n, got, Published(disk, mbr, n, got), from)
  {
    from := [];
    if n > 0 {
      from := PublishedExactly(disk, mbr, n - 1, got);
      var d := Publish(disk, EntryAt(mbr, n - 1));
      PublishIsPartition(disk, mbr, n - 1);
      var e := if n - 1 in got then d else None;
      assert Published(disk, mbr, n, got) == Published(disk, mbr, n - 1, got) + Optional(e);
      hide Published, Publish, EntryAt, Partitions, Good, IsPartition, Optional;
      NextPartition(disk, mbr, n - 1, got, Published(disk, mbr, n - 1, got), from, e);
      from := from + if e.Some? then [n - 1] else [];
    }
  }

  /**
   mbr_probe: reads the first 512 bytes, checks the magic and publishes the valid entries in order,
   leaving out those for which a name or a structure cannot be allocated. Without memory for the
   sector it ends without an error.
   */
  method MbrProbe(disk: Disk) returns (err: int, devs: seq<Device>, ghost got: set<nat>)
    requires disk.Valid()
    modifies disk`plan
    ensures err <= 0 && (err < 0 ==> devs == [])
    ensures err == 0 && devs != [] ==>
              |disk.data| >= 512 && disk.data[510] == 0x55 && disk.data[511] == 0xaa
              && devs == Published(disk, disk.data[..512], 4, got)
              && exists from :: Partitions(disk, disk.data[..512], 4, got, devs, from)
    ensures FaultFree(old(disk.plan)) ==>
              (err == 0 <==> |disk.data| >= 512 && disk.data[510] == 0x55 && disk.data[511] == 0xaa
                             && disk.blockSize <= 0x4000)
    ensures FaultFree(old(disk.plan)) && err == 0 ==>
              |disk.data| >= 512 && devs == Published(disk, disk.data[..512], 4, ALL)
              && exists from :: Partitions(disk, disk.data[..512], 4, {0, 1, 2, 3}, devs, from)
  {
    devs, got := [], {};
    var bufferOk := disk.Allocate();
    if !bufferOk { return 0, [], got; }
    var buf := new Byte[512];
    err := ReadSector(disk, buf);
    if err < 0 { return; }
    if buf[510] != 0x55 || buf[511] != 0xaa { return ERR_IO, [], got; }
    devs, got := PublishAll(disk, buf[..]);
    ghost var from := PublishedExactly(disk, disk.data[..512], 4, got);
    from := PublishedExactly(disk, disk.data[..512], 4, ALL);
  }

  /** The first 512 bytes of the disk, or an error. */
  method ReadSector(disk: Disk, buf: array<Byte>) returns (err: int)
    requires disk.Valid() && buf.Length == 512
    modifies buf, disk`plan
    ensures err <= 0 && (err == 0 ==> |disk.data| >= 512 && buf[..] == disk.data[..512])
    ensures FaultFree(old(disk.plan)) ==>
              FaultFree(disk.plan) && (err == 0 <==> |disk.data| >= 512 && disk.blockSize <= 0x4000)
  {
    ghost var zero := buf[..];
    ResultIsRightIff(Whole(disk), 0, 512);
    var ret := BlkRead(Whole(disk), buf, 0, 0, 512);
    if ret != 512 {
      err := if ret < 0 then ret else ERR_IO;
      return;
    }
    assert Contents(Whole(disk)) == disk.data;
    CopiedSlices(zero, buf[..], 0, disk.data, 0, 512, 0, 0);
    assert buf[..] == disk.data[..512];
    err := 0;
  }

  const ALL: set<nat> := {0, 1, 2, 3}

  function Optional(d: Option<Device>): seq<Device> { if d.Some? then [d.value] else [] }

  /** The loop over the entries. */
  method PublishAll(disk: Disk, mbr: seq<Byte>) returns (devs: seq<Device>, ghost got: set<nat>)
    requires |mbr| == 512
    modifies disk`plan
    ensures devs == Published(disk, mbr, 4, got)
    ensures FaultFree(old(disk.plan)) ==> devs == Published(disk, mbr, 4, ALL)
  {
    hide EntryAt, Publish;
    devs, got := [], {};
    for i := 0 to 4
      invariant devs == Published(disk, mbr, i, got) && forall j :: j in got ==> 0 <= j < i
      invariant FaultFree(old(disk.plan)) ==> FaultFree(disk.plan) && devs == Published(disk, mbr, i, ALL)
    {
      var d := PublishEntry(disk, EntryAt(mbr, i));
      NextPublished(disk, mbr, i, got, d);
      got := if d.Some? then got + {i} else got;
      devs := devs + Optional(d);
    }
  }

  /** mbr_publish_device: a valid entry needs a name and a structure. */
  method PublishEntry(disk: Disk, e: MbrEntry) returns (d: Option<Device>)
    modifies disk`plan
    ensures d.Some? ==> d == Publish(disk, e)
    ensures FaultFree(old(disk.plan)) ==> d == Publish(disk, e) && FaultFree(disk.plan)
  {
    d := Publish(disk, e);
    if d.None? { return; }
    var ok := disk.Allocate();
    if ok { ok := disk.Allocate(); }
    if !ok { d := None; }
  }

  lemma {:induction false} NextPublished(disk: Disk, mbr: seq<Byte>, i: nat, got: set<nat>, d: Option<Device>)
    requires |mbr| == 512 && i < 4 && (forall j :: j in got ==> j < i)
    requires d.Some? ==> d == Publish(disk, EntryAt(mbr, i))
    ensures Published(disk, mbr, i + 1, if d.Some? then got + {i} else got)
         == Published(disk, mbr, i, got) + Optional(d)
    ensures Published(disk, mbr, i + 1, ALL)
         == Published(disk, mbr, i, ALL) + Optional(Publish(disk, EntryAt(mbr, i)))
  {
    SamePublished(disk, mbr, i, got, if d.Some? then got + {i} else got);
  }

  lemma {:induction false} SamePublished(disk: Disk, mbr: seq<Byte>, n: nat, got: set<nat>, got': set<nat>)
    requires |mbr| == 512 && n <= 4 && forall j: nat :: j < n ==> (j in got <==> j in got')
    ensures Published(disk, mbr, n, got) == Published(disk, mbr, n, got')
  {
    if n > 0 { SamePublished(disk, mbr, n - 1, got, got'); }
  }
}
