/** Ranges of a device's bytes: the 32-bit trimming arithmetic of blkdev.c and updates in place. */
module BlockSpec {
  import opened Bits

  type Byte = b: int | 0 <= b < 256

  const ERR_IO: int := -5
  const ERR_NO_MEM: int := -12
  const ERR_NO_DEV: int := -19
  const ERR_INVAL: int := -22

  const TWO31: nat := 0x8000_0000
  const TWO32: nat := 0x1_0000_0000

  /** Conversion to C's 32-bit unsigned long. */
  function U32(x: int): (r: nat)
    ensures r < TWO32
  {
    x % TWO32
  }

  /** Conversion to C's 32-bit signed long, the target's off_t. */
  function I32(x: int): (r: int)
    ensures -0x8000_0000 <= r < TWO31
  {
    var u := x % TWO32;
    if u < TWO31 then u else u - TWO32
  }

  /** The part of a transfer of len bytes at offset that lies on a device of `size` bytes. */
  function OnDevice(size: nat, offset: nat, len: nat): (r: nat)
    ensures r <= len && (r > 0 ==> offset + r <= size)
  {
    if offset >= size then 0 else if offset + len <= size then len else size - offset
  }

  /** blk_trim_range on a device of size bytes, in the 32-bit arithmetic it is written in. */
  function TrimRange(size: nat, offset: nat, len: nat): nat {
    var total := I32(size);
    if offset >= total then 0
    else if len == 0 then 0
    else if I32(offset + len) > total then total - offset
    else len
  }

  /**
   Trimming is right for every request of up to 65535 bytes exactly on devices of at most
   2^31 - 65535 bytes. Above, the size itself or the end of the range overflows.
   */
  lemma TrimIsExactIff(size: nat)
    ensures (forall offset: nat, len: nat :: offset < TWO31 && len < 0x1_0000 ==>
               TrimRange(size, offset, len) == OnDevice(size, offset, len))
            <==> size <= TWO31 - 65535
  {
    if size > TWO31 - 65535 {
      var offset, len := TrimCounterexample(size);
      assert TrimRange(size, offset, len) != OnDevice(size, offset, len);
    }
  }

  lemma TrimCounterexample(size: nat) returns (offset: nat, len: nat)
    requires size > TWO31 - 65535
    ensures offset < TWO31 && len < 0x1_0000
    ensures TrimRange(size, offset, len) != OnDevice(size, offset, len)
  {
    if size < TWO31 {
      offset, len := size - 1, 65535;
    } else if I32(size) < 0 {
      offset, len := 0, 1;
    } else {
      offset, len := I32(size), 1;
    }
  }

  /** A device of two gibibytes, of 512-byte blocks say, reads as empty. */
  lemma TwoGibibytesReadAsEmpty(offset: nat, len: nat)
    ensures TrimRange(512 * 0x40_0000, offset, len) == 0
  {}

  /** blk_block_trim_range, with its sum in 32 bits. */
  function BlockTrim(blockCount: nat, block: nat, count: nat): nat {
    if block >= blockCount then 0
    else if count == 0 then 0
    else if U32(block + count) > blockCount then blockCount - block
    else count
  }

  /** Trimming block ranges is right for every request exactly up to 2^32 - 65535 blocks. */
  lemma BlockTrimIsExactIff(blockCount: nat)
    requires blockCount < TWO32
    ensures (forall block: nat, count: nat :: block < TWO32 && count < 0x1_0000 ==>
               BlockTrim(blockCount, block, count) == OnDevice(blockCount, block, count))
            <==> blockCount <= TWO32 - 65535
  {
    if blockCount > TWO32 - 65535 {
      assert BlockTrim(blockCount, blockCount - 1, 65535) == 65535;
      assert BlockTrim(blockCount, blockCount - 1, 65535) != OnDevice(blockCount, blockCount - 1, 65535);
    }
  }

  // ----- What a transfer without faults returns

  /** offset % bs. */
  function Rest(offset: nat, bs: nat): (r: nat)
    requires bs > 0
    ensures r < bs
  {
    if offset < bs then offset else Rest(offset - bs, bs)
  }

  lemma {:induction false} RestOf(block: nat, r: nat, bs: nat)
    requires r < bs
    ensures Rest(Bytes(block, bs) + r, bs) == r
  {
    if block > 0 {
      RestOf(block - 1, r, bs);
      assert Bytes(block, bs) + r - bs == Bytes(block - 1, bs) + r;
    }
  }

  /** Block and position in it of a byte of a device of n blocks. */
  lemma {:induction false} Located(offset: nat, bs: nat, n: nat)
    requires bs > 0 && offset < Bytes(n, bs)
    ensures offset % bs == Rest(offset, bs)
    ensures offset / bs < n && offset == Bytes(offset / bs, bs) + Rest(offset, bs)
  {
    InBlock(offset, bs, n);
    RestOf(offset / bs, offset % bs, bs);
  }

  /** Bytes of a transfer in its first block, if that is used in part. */
  function HeadLen(bs: nat, offset: nat, len: nat): (n: nat)
    requires bs > 0
    ensures n <= len && (n > 0 ==> Rest(offset, bs) + n <= bs)
  {
    var r := Rest(offset, bs);
    if r == 0 then 0 else if bs - r <= len then bs - r else len
  }

  /** Bytes of the whole blocks in len bytes. */
  function WholeLen(shift: nat, len: nat): nat { Bytes(Shr(len, shift), Pow2(shift)) }

  /** The byte count of one driver call, seen by the caller as an error when its int is negative. */
  function CallError(n: nat): (e: int)
    ensures e <= 0
  {
    if I16(n) < 0 then I16(n) else 0
  }

  /** How a transfer that starts at a block ends: the whole blocks, then the partial last one. */
  function RestError(shift: nat, len: nat): (e: int)
    ensures e <= 0
  {
    if CallError(WholeLen(shift, len)) < 0 then CallError(WholeLen(shift, len))
    else if len > WholeLen(shift, len) then CallError(Pow2(shift))
    else 0
  }

  /** The result of a transfer that nothing disturbs, in the 16-bit int it is kept in. */
  function CleanCount(shift: nat, offset: nat, len: nat): int {
    var head := HeadLen(Pow2(shift), offset, len);
    Ending(if head > 0 then CallError(Pow2(shift)) else 0, RestError(shift, len - head), len)
  }

  /** The first error, or else the count. */
  function Ending(first: int, rest: int, len: nat): int {
    if first < 0 then first else if rest < 0 then rest else I16(len)
  }

  lemma WholeLenBound(shift: nat, len: nat)
    ensures WholeLen(shift, len) <= len
  {
    HighAndLow(len, shift);
    BytesIsProduct(Shr(len, shift), Pow2(shift));
  }

  lemma Pow2At15()
    ensures Pow2(15) == 0x8000 && Pow2(14) == 0x4000
  {
    assert Pow2(4) == 16;
    Pow2Add(4, 4);
    Pow2Add(8, 4);
    Pow2Add(12, 2);
  }

  /**
   Without faults a transfer reports its length if and only if that is at most 32767 and blocks have
   at most 16384 bytes; otherwise it reports an error, whatever it moved.
   */
  lemma {:induction false} CountIsRightIff(shift: nat, offset: nat, len: nat)
    requires shift <= 15 && 0 < len < 0x1_0000
    ensures CleanCount(shift, offset, len) == len <==> len <= 0x7FFF && Pow2(shift) <= 0x4000
    ensures CleanCount(shift, offset, len) >= 0 <==> CleanCount(shift, offset, len) == len
  {
    Pow2At15();
    if shift <= 14 {
      Pow2Monotone(shift, 14);
      SmallBlockCount(shift, offset, len);
    } else {
      LargeBlockCount(offset, len);
    }
  }

  lemma {:induction false} SmallBlockCount(shift: nat, offset: nat, len: nat)
    requires shift <= 14 && 0 < len < 0x1_0000
    ensures if len <= 0x7FFF then CleanCount(shift, offset, len) == len else CleanCount(shift, offset, len) < 0
  {
    var rest := len - HeadLen(Pow2(shift), offset, len);
    SmallBlocks(shift, rest);
    SmallEnding(RestError(shift, rest), len);
  }

  lemma SmallEnding(rest: int, len: nat)
    requires 0 < len < 0x1_0000 && (rest < 0 ==> len > 0x7FFF)
    ensures if len <= 0x7FFF then Ending(0, rest, len) == len else Ending(0, rest, len) < 0
  {}

  lemma {:induction false} LargeBlockCount(offset: nat, len: nat)
    requires 0 < len < 0x1_0000
    ensures CleanCount(15, offset, len) < 0
  {
    Pow2At15();
    WholeOf15(len);
  }

  lemma {:induction false} SmallBlocks(shift: nat, len: nat)
    requires shift <= 14 && len < 0x1_0000
    ensures CallError(Pow2(shift)) == 0
    ensures RestError(shift, len) < 0 ==> len > 0x7FFF
  {
    Pow2At15();
    Pow2Monotone(shift, 14);
    WholeLenBound(shift, len);
  }

  lemma {:induction false} WholeOf15(len: nat)
    requires 0 < len < 0x1_0000
    ensures RestError(15, len) < 0
  {
    Pow2At15();
    HighAndLow(len, 15);
    BytesIsProduct(Shr(len, 15), 0x8000);
  }

  /** 64 blocks of 512 bytes are moved and reported as the error -32768; so is one byte of a 32768-byte block. */
  lemma {:induction false} LargeTransferReportsError()
    ensures CleanCount(9, 0, 0x8000) == -0x8000
    ensures CleanCount(15, 1, 1) == -0x8000
  {
    Pow2At15();
    Pow2Add(9, 6);
    assert Pow2(6) == 64 && Pow2(9) == 512;
    ShrIsDiv(0x8000, 9);
    BytesIsProduct(64, 512);
  }

  // ----- Replacing a range of bytes

  /** Byte i after copying n bytes of s from `from` on to position at. */
  ghost predicate CopiedAt(b: seq<Byte>, b': seq<Byte>, at: nat, s: seq<Byte>, from: nat, n: nat, i: nat)
    requires |b'| == |b| && from + n <= |s| && i < |b|
  {
    b'[i] == if at <= i < at + n then s[from + i - at] else b[i]
  }

  /** b' is b with the n bytes of s from `from` on copied to position at. */
  ghost predicate Copied(b: seq<Byte>, b': seq<Byte>, at: nat, s: seq<Byte>, from: nat, n: nat) {
    && |b'| == |b| && at + n <= |b| && from + n <= |s|
    && forall i: nat :: i < |b'| ==> CopiedAt(b, b', at, s, from, n, i)
  }

  /** Byte i is the old one or, inside the range, the one to be copied there. */
  ghost predicate MixedAt(b: seq<Byte>, b': seq<Byte>, at: nat, s: seq<Byte>, from: nat, n: nat, i: nat)
    requires |b'| == |b| && from + n <= |s| && i < |b|
  {
    b'[i] == b[i] || (at <= i < at + n && b'[i] == s[from + i - at])
  }

  ghost predicate Mixed(b: seq<Byte>, b': seq<Byte>, at: nat, s: seq<Byte>, from: nat, n: nat) {
    && |b'| == |b| && at + n <= |b| && from + n <= |s|
    && forall i: nat :: i < |b'| ==> MixedAt(b, b', at, s, from, n, i)
  }

  ghost predicate SameAt(b: seq<Byte>, b': seq<Byte>, i: nat)
    requires |b'| == |b| && i < |b|
  {
    b'[i] == b[i]
  }

  /** b and b' agree outside the n bytes from at on. */
  ghost predicate SameOutside(b: seq<Byte>, b': seq<Byte>, at: nat, n: nat) {
    |b| == |b'| && forall i: nat :: i < |b'| && !(at <= i < at + n) ==> SameAt(b, b', i)
  }

  lemma Unchanged(b: seq<Byte>, at: nat, n: nat)
    ensures SameOutside(b, b, at, n)
  {
    forall i: nat | i < |b| ensures SameAt(b, b, i) {}
  }

  /** Nothing copied. */
  lemma CopyNothing(b: seq<Byte>, at: nat, s: seq<Byte>, from: nat)
    requires at <= |b| && from <= |s|
    ensures Copied(b, b, at, s, from, 0) && Mixed(b, b, at, s, from, 0)
  {
    forall i: nat | i < |b| ensures CopiedAt(b, b, at, s, from, 0, i) && MixedAt(b, b, at, s, from, 0, i) {}
  }

  /** A copy followed by changes in its further range changes only the whole range. */
  lemma OutsideNext(b: seq<Byte>, c: seq<Byte>, e: seq<Byte>, at: nat, s: seq<Byte>, from: nat, n: nat, total: nat)
    requires n <= total && Copied(b, c, at, s, from, n) && SameOutside(c, e, at + n, total - n)
    ensures SameOutside(b, e, at, total)
  {
    forall i: nat | i < |e| && !(at <= i < at + total) ensures SameAt(b, e, i) {
      assert CopiedAt(b, c, at, s, from, n, i) && SameAt(c, e, i);
    }
  }

  /** Changes in a smaller range. */
  lemma OutsideWider(b: seq<Byte>, e: seq<Byte>, at: nat, n: nat, total: nat)
    requires SameOutside(b, e, at, n) && n <= total
    ensures SameOutside(b, e, at, total)
  {
    forall i: nat | i < |e| && !(at <= i < at + total) ensures SameAt(b, e, i) {}
  }

  lemma CopyOutside(b: seq<Byte>, b': seq<Byte>, at: nat, s: seq<Byte>, from: nat, n: nat)
    requires Copied(b, b', at, s, from, n)
    ensures SameOutside(b, b', at, n)
  {
    forall i: nat | i < |b'| && !(at <= i < at + n) ensures SameAt(b, b', i) {
      assert CopiedAt(b, b', at, s, from, n, i);
    }
  }

  /** Copying d[a..a+n] and then d[a+n..a+n+m] to consecutive places is copying d[a..a+n+m]. */
  lemma CopyNext(b: seq<Byte>, c: seq<Byte>, e: seq<Byte>, at: nat, d: seq<Byte>, a: nat, n: nat, m: nat)
    requires Copied(b, c, at, d, a, n) && Copied(c, e, at + n, d, a + n, m)
    ensures Copied(b, e, at, d, a, n + m)
  {
    var total := n + m;
    forall i: nat | i < |e| ensures CopiedAt(b, e, at, d, a, total, i) {
      assert CopiedAt(b, c, at, d, a, n, i) && CopiedAt(c, e, at + n, d, a + n, m, i);
    }
  }

  /** A copy that fails after n bytes went through. */
  lemma MixNext(b: seq<Byte>, c: seq<Byte>, e: seq<Byte>, at: nat, s: seq<Byte>, from: nat, n: nat, m: nat, total: nat)
    requires Copied(b, c, at, s, from, n) && Mixed(c, e, at + n, s, from + n, m) && n + m <= total
    requires at + total <= |b| && from + total <= |s|
    ensures Mixed(b, e, at, s, from, total)
  {
    forall i: nat | i < |e| ensures MixedAt(b, e, at, s, from, total, i) {
      assert CopiedAt(b, c, at, s, from, n, i) && MixedAt(c, e, at + n, s, from + n, m, i);
    }
  }

  /** A mixture of a shorter range. */
  lemma MixWider(b: seq<Byte>, e: seq<Byte>, at: nat, s: seq<Byte>, from: nat, n: nat, total: nat)
    requires Mixed(b, e, at, s, from, n) && n <= total && at + total <= |b| && from + total <= |s|
    ensures Mixed(b, e, at, s, from, total)
  {
    CopyNothing(b, at, s, from);
    MixNext(b, b, e, at, s, from, 0, n, total);
  }

  lemma CopyIsMix(b: seq<Byte>, b': seq<Byte>, at: nat, s: seq<Byte>, from: nat, n: nat)
    requires Copied(b, b', at, s, from, n)
    ensures Mixed(b, b', at, s, from, n)
  {
    forall i: nat | i < |b'| ensures MixedAt(b, b', at, s, from, n, i) { assert CopiedAt(b, b', at, s, from, n, i); }
  }

  /** A copy, seen as slices: what was copied is there and the rest is as it was. */
  lemma CopiedSlices(b: seq<Byte>, b': seq<Byte>, at: nat, s: seq<Byte>, from: nat, n: nat, lo: nat, hi: nat)
    requires Copied(b, b', at, s, from, n) && lo <= hi <= |b|
    ensures b'[at..at + n] == s[from..from + n]
    ensures hi <= at || at + n <= lo ==> b'[lo..hi] == b[lo..hi]
  {
    forall i: nat | i < |b'| ensures b'[i] == if at <= i < at + n then s[from + i - at] else b[i] {
      assert CopiedAt(b, b', at, s, from, n, i);
    }
    var v, w := b'[at..at + n], s[from..from + n];
    forall i | 0 <= i < |v| ensures v[i] == w[i] { assert b'[at + i] == s[from + i]; }
    if hi <= at || at + n <= lo {
      var t, u := b'[lo..hi], b[lo..hi];
      forall i | 0 <= i < |t| ensures t[i] == u[i] { assert b'[lo + i] == b[lo + i]; }
    }
  }

  /** A failed write changes nothing outside its range. */
  lemma FailedWriteOutside(d: seq<Byte>, d': seq<Byte>, at: nat, s: seq<Byte>, n: nat, lo: nat, hi: nat)
    requires Mixed(d, d', at, s, 0, n) && lo <= hi <= |d| && (hi <= at || at + n <= lo)
    ensures d'[lo..hi] == d[lo..hi]
  {
    forall i: nat | lo <= i < hi ensures d'[i] == d[i] { assert MixedAt(d, d', at, s, 0, n, i); }
  }

  /** Writing back a block read, with n of its bytes patched, writes those bytes. */
  lemma PatchBlock(
      d: seq<Byte>, d': seq<Byte>, base: nat, t0: seq<Byte>, t: seq<Byte>, t': seq<Byte>, x: nat, s: seq<Byte>,
      k: nat, n: nat)
    requires Copied(t0, t, 0, d, base, |t|) && Copied(t, t', x, s, k, n) && base + |t| <= |d|
    ensures Copied(d, d', base, t', 0, |t'|) ==> Copied(d, d', base + x, s, k, n)
    ensures Mixed(d, d', base, t', 0, |t'|) ==> Mixed(d, d', base + x, s, k, n)
  {
    forall j: nat | j < |t| ensures t'[j] == if x <= j < x + n then s[k + j - x] else d[base + j] {
      assert CopiedAt(t0, t, 0, d, base, |t|, j) && CopiedAt(t, t', x, s, k, n, j);
    }
    var at, whole := base + x, |t'|;
    if Copied(d, d', base, t', 0, whole) {
      forall i: nat | i < |d'| ensures CopiedAt(d, d', at, s, k, n, i) {
        assert CopiedAt(d, d', base, t', 0, |t'|, i);
        if base <= i < base + |t| { assert d'[i] == t'[i - base]; }
      }
    }
    if Mixed(d, d', base, t', 0, |t'|) {
      forall i: nat | i < |d'| ensures MixedAt(d, d', at, s, k, n, i) {
        assert MixedAt(d, d', base, t', 0, |t'|, i);
        if base <= i < base + |t| {
          assert t'[i - base] == if x <= i - base < x + n then s[k + i - base - x] else d[i];
        }
      }
    }
  }

  /** A copy of a slice of src is a copy from src. */
  lemma WholePart(d: seq<Byte>, d': seq<Byte>, at: nat, src: seq<Byte>, k: nat, n: nat)
    requires k + n <= |src|
    ensures Copied(d, d', at, src[k..k + n], 0, n) ==> Copied(d, d', at, src, k, n)
    ensures Mixed(d, d', at, src[k..k + n], 0, n) ==> Mixed(d, d', at, src, k, n)
  {
    var t := src[k..k + n];
    if Copied(d, d', at, t, 0, n) {
      forall i: nat | i < |d'| ensures CopiedAt(d, d', at, src, k, n, i) { assert CopiedAt(d, d', at, t, 0, n, i); }
    }
    if Mixed(d, d', at, t, 0, n) {
      forall i: nat | i < |d'| ensures MixedAt(d, d', at, src, k, n, i) { assert MixedAt(d, d', at, t, 0, n, i); }
    }
  }

  // ----- Block numbers as byte positions

  /** n blocks of bs bytes. */
  function Bytes(n: nat, bs: nat): nat {
    if n == 0 then 0 else Bytes(n - 1, bs) + bs
  }

  lemma {:induction false} BytesIsProduct(n: nat, bs: nat)
    ensures Bytes(n, bs) == n * bs == bs * n
  {
    if n > 0 {
      BytesIsProduct(n - 1, bs);
      assert n * bs == (n - 1) * bs + bs;
    }
  }

  lemma {:induction false} BlocksBelowBytes(n: nat, bs: nat)
    requires bs > 0
    ensures n <= Bytes(n, bs)
  {
    if n > 0 { BlocksBelowBytes(n - 1, bs); }
  }

  lemma {:induction false} BytesAdd(m: nat, n: nat, bs: nat)
    ensures Bytes(m + n, bs) == Bytes(m, bs) + Bytes(n, bs)
  {
    if n > 0 { BytesAdd(m, n - 1, bs); }
  }

  lemma {:induction false} BytesMonotone(m: nat, n: nat, bs: nat)
    requires m <= n
    ensures Bytes(m, bs) <= Bytes(n, bs)
    ensures m < n ==> Bytes(m, bs) + bs <= Bytes(n, bs)
  {
    BytesAdd(m, n - m, bs);
    if m < n { BytesAdd(1, n - m - 1, bs); }
  }

  /** The block that holds a byte of a device of n blocks. */
  lemma {:induction false} InBlock(offset: nat, bs: nat, n: nat)
    requires bs > 0 && offset < Bytes(n, bs)
    ensures offset / bs < n && offset == Bytes(offset / bs, bs) + offset % bs
  {
    var b := offset / bs;
    BytesIsProduct(b, bs);
    if b >= n { BytesMonotone(n, b, bs); }
  }

  /** The whole blocks in a range that starts at a block and ends on the device, and what follows them. */
  lemma {:induction false} WholeBlocks(left: nat, shift: nat, block: nat, n: nat)
    requires left > 0 ==> Bytes(block, Pow2(shift)) + left <= Bytes(n, Pow2(shift))
    ensures var bs, count := Pow2(shift), Shr(left, shift);
            && Bytes(count, bs) <= left < Bytes(count, bs) + bs
            && (count > 0 ==> block + count <= n)
            && (left > Bytes(count, bs) ==> block + count < n)
  {
    var bs, count := Pow2(shift), Shr(left, shift);
    ShrIsDiv(left, shift);
    BytesIsProduct(count, bs);
    BytesAdd(block, count, bs);
    if left > 0 && block + count > n { BytesMonotone(n, block + count, bs); }
  }
}
