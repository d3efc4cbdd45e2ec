/** Powers of two and the bitwise operators of C on natural numbers, defined bit by bit. */
module Bits {

  function Pow2(n: nat): (p: nat)
    ensures p >= 1
  {
    if n == 0 then 1 else 2 * Pow2(n - 1)
  }

  /** `x >> k`. */
  function Shr(x: nat, k: nat): nat {
    if k == 0 then x else Shr(x / 2, k - 1)
  }

  /** `a ^ b`. */
  function Xor(a: nat, b: nat): nat {
    if a == 0 && b == 0 then 0
    else (a % 2 + b % 2) % 2 + 2 * Xor(a / 2, b / 2)
  }

  /** `a & b`. */
  function And(a: nat, b: nat): nat {
    if a == 0 || b == 0 then 0
    else (if a % 2 == 1 && b % 2 == 1 then 1 else 0) + 2 * And(a / 2, b / 2)
  }

  /** Conversion to C's 16-bit unsigned int, which is also size_t on the target. */
  function U16(x: int): (r: nat)
    ensures r < 0x1_0000
  {
    x % 0x1_0000
  }

  /** Conversion to C's 16-bit int. */
  function I16(x: int): (r: int)
    ensures -0x8000 <= r < 0x8000
  {
    var u := x % 0x1_0000;
    if u < 0x8000 then u else u - 0x1_0000
  }

  lemma {:induction false} ShrShr(x: nat, j: nat, k: nat)
    ensures Shr(Shr(x, j), k) == Shr(x, j + k)
  {
    if j > 0 { ShrShr(x / 2, j - 1, k); }
  }

  lemma MulStep(a: int, b: int, d: nat)
    requires a < b
    ensures a * d + d <= b * d
  {
    assert b * d == a * d + (b - a) * d;
    assert (b - a) * d == d + (b - a - 1) * d;
  }

  lemma DivUnique(x: nat, d: nat, q: nat, r: nat)
    requires r < d && x == q * d + r
    ensures x / d == q && x % d == r
  {
    var q', r' := x / d, x % d;
    assert x == q' * d + r';
    if q' < q {
      MulStep(q', q, d);
    } else if q < q' {
      MulStep(q, q', d);
    }
  }

  lemma TwiceProduct(q: nat, p: nat)
    ensures q * (2 * p) == 2 * (q * p)
  {}

  /** The low k bits of x. */
  function Low(x: nat, k: nat): nat { if k == 0 then 0 else x % 2 + 2 * Low(x / 2, k - 1) }

  /** x is its high bits and its low bits. */
  lemma {:induction false} HighAndLow(x: nat, k: nat)
    ensures Low(x, k) < Pow2(k) && x == Shr(x, k) * Pow2(k) + Low(x, k)
  {
    if k > 0 {
      HighAndLow(x / 2, k - 1);
      TwiceProduct(Shr(x / 2, k - 1), Pow2(k - 1));
    }
  }

  lemma {:induction false} ShrIsDiv(x: nat, k: nat)
    ensures Shr(x, k) == x / Pow2(k)
    ensures Low(x, k) == x % Pow2(k) == x - Shr(x, k) * Pow2(k)
  {
    HighAndLow(x, k);
    DivUnique(x, Pow2(k), Shr(x, k), Low(x, k));
  }

  lemma {:induction false} Pow2Add(a: nat, b: nat)
    ensures Pow2(a + b) == Pow2(a) * Pow2(b)
  {
    if a > 0 {
      Pow2Add(a - 1, b);
      assert a + b - 1 == (a - 1) + b;
      TwiceProduct(Pow2(b), Pow2(a - 1));
    }
  }

  lemma {:induction false} Pow2Monotone(a: nat, b: nat)
    requires a <= b
    ensures Pow2(a) <= Pow2(b)
    ensures a < b ==> 2 * Pow2(a) <= Pow2(b)
  {
    if a < b { Pow2Monotone(a, b - 1); }
  }

  lemma {:induction false} XorZero(x: nat)
    ensures Xor(0, x) == x
  {
    if x > 0 { XorZero(x / 2); }
  }

  lemma {:induction false} XorEven(p: nat, x: nat)
    requires p > 0
    ensures Xor(2 * p, x) == x % 2 + 2 * Xor(p, x / 2)
  {
    assert (2 * p) / 2 == p && (2 * p) % 2 == 0;
  }

  /** Flipping one bit adds the power of two when the bit was clear and subtracts it when it was set. */
  lemma {:induction false} XorPow2(i: nat, x: nat)
    ensures Shr(x, i) % 2 == 1 ==> x >= Pow2(i)
    ensures Xor(Pow2(i), x) == if Shr(x, i) % 2 == 0 then x + Pow2(i) else x - Pow2(i)
  {
    if i == 0 {
      XorZero(x / 2);
    } else {
      XorPow2(i - 1, x / 2);
      XorEven(Pow2(i - 1), x);
    }
  }

  /** The low k + 1 bits are the low bit and the low k bits of the rest. */
  lemma {:induction false} ModPow2Step(x: nat, k: nat)
    ensures x % Pow2(k + 1) == x % 2 + 2 * ((x / 2) % Pow2(k))
  {
    ShrIsDiv(x, k + 1);
    ShrIsDiv(x / 2, k);
  }

  /** Masking with 2^k - 1 keeps the low k bits. */
  lemma {:induction false} AndMask(x: nat, k: nat)
    ensures And(x, Pow2(k) - 1) == Low(x, k)
    decreases k
  {
    if k > 0 {
      AndMask(x / 2, k - 1);
      assert (Pow2(k) - 1) / 2 == Pow2(k - 1) - 1;
    }
  }

  lemma SameRemainder(d: nat, q: nat, r: nat, q': nat, r': nat)
    requires r < d && r' < d && q * d + r == q' * d + r'
    ensures r == r'
  {
    if q < q' {
      MulStep(q, q', d);
    } else if q' < q {
      MulStep(q', q, d);
    }
  }

  lemma {:induction false} LowUnique(x: nat, k: nat, q: nat, r: nat)
    requires x == q * Pow2(k) + r && r < Pow2(k)
    ensures Low(x, k) == r
  {
    HighAndLow(x, k);
    SameRemainder(Pow2(k), Shr(x, k), Low(x, k), q, r);
  }
}
