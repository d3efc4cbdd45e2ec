/**
 The byte ring shared by the console and the UART driver: mask arithmetic on 16-bit indices that
 implements a queue which drops its oldest byte when it is full.
 */
module RingBuffer {
  import opened Bits
  import opened Options

  // ----- The queue the ring stands for

  /** The last n elements of s, or all of them. */
  function LastN<T>(s: seq<T>, n: nat): (r: seq<T>)
    ensures |r| == if |s| <= n then |s| else n
  {
    if |s| <= n then s else s[|s| - n..]
  }

  /** Truncating early or late makes no difference. */
  lemma LastNAppend<T>(s: seq<T>, t: seq<T>, n: nat)
    ensures LastN(LastN(s, n) + t, n) == LastN(s + t, n)
  {
    if |s| > n {
      assert (s + t)[|s + t| - n..] == LastN(LastN(s, n) + t, n);
    }
  }

  lemma LastNSnoc<T>(q: seq<T>, data: seq<T>, i: nat, n: nat)
    requires i < |data|
    ensures LastN(LastN(q + data[..i], n) + [data[i]], n) == LastN(q + data[..i + 1], n)
  {
    LastNAppend(q + data[..i], [data[i]], n);
    assert q + data[..i] + [data[i]] == q + data[..i + 1];
  }

  lemma LastNEnds<T>(q: seq<T>, data: seq<T>, n: nat)
    requires |q| <= n
    ensures LastN(q + data[..0], n) == q && LastN(q + data[..|data|], n) == LastN(q + data, n)
  {
    assert q + data[..0] == q && data[..|data|] == data;
  }

  // ----- Mask arithmetic

  /** Position of the i-th slot after `start` in a ring of n slots. */
  function Wrap(x: nat, n: nat): nat
    requires n > 0
  {
    if x < n then x else x - n
  }

  /** An index below 2n masked with n - 1 wraps once around. */
  lemma {:induction false} MaskWraps(x: nat, k: nat)
    requires k <= 15 && x < 2 * Pow2(k)
    ensures And(U16(x), Pow2(k) - 1) == Wrap(x, Pow2(k))
  {
    var n := Pow2(k);
    Pow2Bound(k);
    assert U16(x) == x;
    AndMask(x, k);
    if x < n { LowUnique(x, k, 0, x); } else { LowUnique(x, k, 1, x - n); }
  }

  lemma {:induction false} Pow2Bound(k: nat)
    requires k <= 15
    ensures Pow2(k) <= 0x8000
  {
    Pow2Monotone(k, 15);
    assert Pow2(8) == 256 && Pow2(15) == 0x8000 by { Pow2Add(4, 4); Pow2Add(8, 7); }
  }

  lemma {:induction false} Pow2Cofactor(k: nat)
    requires k <= 15
    ensures Pow2(16 - k) * Pow2(k) == 0x1_0000 && Pow2(16 - k) >= 2
  {
    Pow2Monotone(1, 16 - k);
    Pow2Add(16 - k, k);
    assert Pow2(16) == 0x1_0000 by { Pow2Add(4, 4); Pow2Add(8, 8); }
  }

  /** The 16-bit difference of two indices, masked, is their distance around the ring. */
  lemma {:induction false} MaskDistance(head: nat, tail: nat, k: nat)
    requires k <= 15 && head < Pow2(k) && tail < Pow2(k)
    ensures And(U16(head - tail), Pow2(k) - 1) == Wrap(head + Pow2(k) - tail, Pow2(k))
  {
    var n := Pow2(k);
    Pow2Bound(k);
    if head >= tail {
      MaskWraps(head - tail, k);
    } else {
      MaskNegative(tail - head, k);
    }
  }

  lemma {:induction false} MaskNegative(d: nat, k: nat)
    requires k <= 15 && 0 < d < Pow2(k)
    ensures And(U16(-(d as int)), Pow2(k) - 1) == Pow2(k) - d
  {
    Pow2Bound(k);
    assert U16(-(d as int)) == 0x1_0000 - d;
    AndMask(0x1_0000 - d, k);
    NegativeLow(d, k);
  }

  lemma {:induction false} NegativeLow(d: nat, k: nat)
    requires k <= 15 && 0 < d < Pow2(k) <= 0x8000
    ensures Low(0x1_0000 - d, k) == Pow2(k) - d
  {
    Pow2Cofactor(k);
    NegativeSplit(Pow2(16 - k), Pow2(k), d);
    LowUnique(0x1_0000 - d, k, Pow2(16 - k) - 1, Pow2(k) - d);
  }

  lemma NegativeSplit(m: nat, n: nat, d: nat)
    requires m >= 1 && m * n == 0x1_0000 && d <= n
    ensures 0x1_0000 - d == (m - 1) * n + (n - d)
  {}

  /** The bytes from tail up to head, going around the end of buf. */
  function View<T>(buf: seq<T>, tail: nat, head: nat): (q: seq<T>)
    requires tail < |buf| && head < |buf|
    ensures |q| == Wrap(head + |buf| - tail, |buf|) < |buf|
  {
    if tail <= head then buf[tail..head] else buf[tail..] + buf[..head]
  }

  lemma PopView<T>(buf: seq<T>, tail: nat, head: nat)
    requires tail < |buf| && head < |buf| && tail != head
    ensures View(buf, tail, head)[0] == buf[tail]
    ensures View(buf, Wrap(tail + 1, |buf|), head) == View(buf, tail, head)[1..]
  {}

  lemma PushView<T>(buf: seq<T>, tail: nat, head: nat, x: T)
    requires tail < |buf| && head < |buf| && |View(buf, tail, head)| < |buf| - 1
    ensures View(buf[head := x], tail, Wrap(head + 1, |buf|)) == View(buf, tail, head) + [x]
  {}

  /** A full ring gives up its oldest byte and takes the new one in its place. */
  lemma ReplaceView<T>(buf: seq<T>, tail: nat, head: nat, x: T)
    requires tail < |buf| && head < |buf| && |View(buf, tail, head)| == |buf| - 1
    ensures var r := View(buf[head := x], Wrap(tail + 1, |buf|), Wrap(head + 1, |buf|));
            r == LastN(View(buf, tail, head) + [x], |buf| - 1)
  {
    if |buf| > 1 {
      PopView(buf, tail, head);
      PushView(buf, Wrap(tail + 1, |buf|), head, x);
    }
  }

  lemma QueueView<T>(buf: seq<T>, tail: nat, head: nat, x: T)
    requires tail < |buf| && head < |buf|
    ensures var full := |View(buf, tail, head)| == |buf| - 1;
            View(buf[head := x], if full then Wrap(tail + 1, |buf|) else tail, Wrap(head + 1, |buf|))
            == LastN(View(buf, tail, head) + [x], |buf| - 1)
  {
    if |View(buf, tail, head)| == |buf| - 1 { ReplaceView(buf, tail, head, x); } else { PushView(buf, tail, head, x); }
  }

  lemma PeekView<T>(buf: seq<T>, tail: nat, head: nat, i: nat)
    requires tail < |buf| && head < |buf| && i < |View(buf, tail, head)|
    ensures View(buf, tail, head)[i] == buf[Wrap(tail + i, |buf|)]
  {}

  class Ring<T(0)> {
    const buffer: array<T>
    const mask: nat
    var tail: nat
    var head: nat
    /** log2 of the buffer size. */
    ghost const shift: nat

    ghost predicate Valid() reads this {
      shift <= 15 && buffer.Length == Pow2(shift) == mask + 1 && tail < buffer.Length && head < buffer.Length
    }

    /** The queued bytes, oldest first. */
    ghost function Contents(): (q: seq<T>)
      reads this, buffer
      requires Valid()
      ensures |q| <= mask
    {
      View(buffer[..], tail, head)
    }

    constructor (buf: array<T>, ghost k: nat)
      requires k <= 15 && buf.Length == Pow2(k)
      ensures Valid() && Contents() == [] && buffer == buf && mask == buf.Length - 1
    {
      buffer, mask, tail, head, shift := buf, buf.Length - 1, 0, 0, k;
    }

    method IsEmpty() returns (r: bool)
      requires Valid()
      ensures r <==> Contents() == []
    {
      r := head == tail;
    }

    method IsFull() returns (r: bool)
      requires Valid()
      ensures r <==> |Contents()| == mask
    {
      MaskDistance(head, tail, shift);
      r := And(U16(head - tail), mask) == mask;
    }

    method NumItems() returns (r: nat)
      requires Valid()
      ensures r == |Contents()|
    {
      MaskDistance(head, tail, shift);
      r := And(U16(head - tail), mask);
    }

    /** `(index + step) & mask`, as the C code advances an index. */
    method Advance(index: nat, step: nat) returns (r: nat)
      requires Valid() && index + step < 2 * buffer.Length
      ensures r == Wrap(index + step, buffer.Length)
    {
      MaskWraps(index + step, shift);
      r := And(U16(index + step), mask);
    }

    /** ring_buffer_queue: append, dropping the oldest byte of a full ring. */
    method Queue(data: T)
      requires Valid()
      modifies this`head, this`tail, buffer
      ensures Valid() && Contents() == LastN(old(Contents()) + [data], mask)
    {
      ghost var buf, t, h := buffer[..], tail, head;
      var full := IsFull();
      if full { tail := Advance(tail, 1); }
      Store(data);
      QueueView(buf, t, h, data);
    }

    /** Writes at the head and moves it on. */
    method Store(data: T)
      requires Valid()
      modifies this`head, buffer
      ensures Valid() && buffer[..] == old(buffer[..])[old(head) := data] && head == Wrap(old(head) + 1, buffer.Length)
    {
      buffer[head] := data;
      head := Advance(head, 1);
    }

    method QueueArr(data: seq<T>)
      requires Valid()
      modifies this`head, this`tail, buffer
      ensures Valid() && Contents() == LastN(old(Contents()) + data, mask)
    {
      ghost var q := Contents();
      ghost var now := q;
      LastNEnds(q, data, mask);
      var i := 0;
      while i < |data|
        invariant i <= |data| && Valid() && Contents() == now && now == LastN(q + data[..i], mask)
      {
        LastNSnoc(q, data, i, mask);
        now := LastN(now + [data[i]], mask);
        Queue(data[i]);
        i := i + 1;
      }
    }

    method Dequeue() returns (data: Option<T>)
      requires Valid()
      modifies this`tail
      ensures Valid()
      ensures old(Contents()) == [] ==> data.None? && Contents() == []
      ensures old(Contents()) != [] ==> data == Some(old(Contents())[0]) && Contents() == old(Contents())[1..]
    {
      var empty := IsEmpty();
      if empty { return None; }
      PopView(buffer[..], tail, head);
      data := Some(buffer[tail]);
      tail := Advance(tail, 1);
    }

    /** ring_buffer_dequeue_arr: moves the oldest bytes, at most len of them, to the front of data. */
    method DequeueArr(data: array<T>, len: nat) returns (cnt: nat)
      requires Valid() && len <= data.Length && data != buffer
      modifies this`tail, data
      ensures Valid() && cnt == if len <= |old(Contents())| then len else |old(Contents())|
      ensures data[..cnt] == old(Contents())[..cnt] && data[cnt..] == old(data[cnt..])
      ensures Contents() == old(Contents())[cnt..]
    {
      ghost var q := Contents();
      cnt := 0;
      var empty := IsEmpty();
      if empty { return; }
      var more := true;
      while cnt < len && more
        invariant Valid() && cnt <= len && cnt <= |q| && Contents() == q[cnt..]
        invariant !more ==> cnt == |q|
        invariant data[..cnt] == q[..cnt] && data[cnt..] == old(data[cnt..])
        decreases len - cnt, more
      {
        var c := Dequeue();
        if c.Some? {
          data[cnt] := c.value;
          cnt := cnt + 1;
        } else {
          more := false;
        }
      }
    }

    method Peek(index: nat) returns (data: Option<T>)
      requires Valid() && index < 0x1_0000
      ensures data == if index < |Contents()| then Some(Contents()[index]) else None
    {
      var items := NumItems();
      if index >= items { return None; }
      PeekView(buffer[..], tail, head, index);
      var at := Advance(tail, index);
      data := Some(buffer[at]);
    }
  }
}
