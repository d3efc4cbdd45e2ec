/**
 The '#' flag of libc/printf.c: which digits of a field it keeps, when they are still the value, and
 when the prefix comes out whole.
 */
module PrintfHash {
  import opened Bits
  import opened PrintfInt

  // ----- The digits in the buffer, also of values with more than 32

  lemma ModStep(d: nat, base: nat, q: nat, p: nat)
    requires d < base && p > 0
    ensures base * p > 0 && (d + base * q) % (base * p) == d + base * (q % p)
  {
    var h, l := q / p, q % p;
    QuotientAndRest(q, p);
    NextMultiple(l, p, base);
    Regrouped(d, base, h, p, l);
    DivUnique(d + base * q, base * p, h, d + base * l);
  }

  lemma QuotientAndRest(q: nat, p: nat)
    requires p > 0
    ensures q == q / p * p + q % p && q % p < p
  {}

  lemma Regrouped(d: nat, base: nat, h: nat, p: nat, l: nat)
    ensures d + base * (h * p + l) == h * (base * p) + (d + base * l)
  {}

  /** The digits stored are the value modulo base^room. */
  lemma {:induction false} RevDigitsMod(value: nat, base: nat, upper: bool, room: nat)
    requires IsBase(base) && room > 0
    ensures RevValue(RevDigits(value, base, upper, room), base) == value % Power(base, room)
    decreases room
  {
    var r, q, d := RevDigits(value, base, upper, room), Quot(value, base), LastDigit(value, base);
    QuotAndDigit(value, base);
    DigitCharValue(d, base, upper);
    ModStep(d, base, q, Power(base, room - 1));
    if q != 0 && room > 1 {
      RevDigitsMod(q, base, upper, room - 1);
      assert r[1..] == RevDigits(q, base, upper, room - 1);
    } else {
      assert r[1..] == "";
      ModOfSmall(q, Power(base, room - 1));
    }
  }

  lemma ModOfSmall(q: nat, p: nat)
    requires p > 0 && (q == 0 || p == 1)
    ensures q % p == 0
  {}

  lemma ModSmaller(x: nat, p: nat)
    requires p > 0
    ensures x % p == x <==> x < p
  {}

  lemma {:induction false} PowerAdd(base: nat, a: nat, b: nat)
    ensures Power(base, a + b) == Power(base, a) * Power(base, b)
  {
    if a > 0 {
      PowerAdd(base, a - 1, b);
      assert a + b - 1 == (a - 1) + b;
      Associate(base, Power(base, a - 1), Power(base, b));
    }
  }

  lemma Associate(a: nat, b: nat, c: nat)
    ensures a * (b * c) == (a * b) * c
  {}

  lemma ModOfMod(x: nat, p: nat, m: nat)
    requires p > 0 && m > 0
    ensures p * m > 0 && x % (p * m) % p == x % p
  {
    var y, h := x % (p * m), x / (p * m);
    MulMonotone(1, m, p);
    QuotientAndRest(x, p * m);
    QuotientAndRest(y, p);
    SplitQuotient(x, h, p, m, y / p, y % p);
    DivUnique(x, p, h * m + y / p, y % p);
  }

  lemma SplitQuotient(x: nat, h: nat, p: nat, m: nat, q: nat, r: nat)
    requires x == h * (p * m) + (q * p + r)
    ensures x == (h * m + q) * p + r
  {}

  /** The buffer after zero padding has the value modulo any power of the base up to the 32nd. */
  lemma {:induction false} PaddedMod(value: nat, negative: bool, base: nat, prec: nat, width: nat, f: Flags, k: nat)
    requires IsBase(base) && value != 0 && k <= BUFFER_SIZE
    ensures var v := RevValue(Zeros(DigitBuffer(value, base, f), negative, prec, width, f), base);
      v >= 0 && v % Power(base, k) == value % Power(base, k)
  {
    BufferIsDigits(value, base, f);
    ZerosPad(DigitBuffer(value, base, f), negative, base, prec, width, f);
    BufferMod(value, base, f, k);
  }

  lemma {:induction false} BufferMod(value: nat, base: nat, f: Flags, k: nat)
    requires IsBase(base) && value != 0 && k <= BUFFER_SIZE
    ensures var v := RevValue(DigitBuffer(value, base, f), base);
      v >= 0 && v % Power(base, k) == value % Power(base, k)
  {
    RevDigitsMod(value, base, f.upper, BUFFER_SIZE);
    ModPower(value, base, k, BUFFER_SIZE);
  }

  lemma {:induction false} ModPower(value: nat, base: nat, k: nat, n: nat)
    requires base > 0 && k <= n
    ensures value % Power(base, n) % Power(base, k) == value % Power(base, k)
  {
    PowerAdd(base, k, n - k);
    assert k + (n - k) == n;
    ModOfMod(value, Power(base, k), Power(base, n - k));
  }

  // ----- What '#' keeps

  /** Digits and zeros that stay when '#' takes its characters from a full field. */
  function Kept(value: nat, negative: bool, base: nat, prec: nat, width: nat, f: Flags): (n: nat)
    requires IsBase(base)
    ensures n <= BUFFER_SIZE
  {
    var len := |Zeros(DigitBuffer(value, base, f), negative, prec, width, f)|;
    len - Cut(len, base, prec, FieldWidth(negative, width, f), f)
  }

  /** '#' and the sign only write behind the digits kept. */
  lemma {:induction false} KeptInFull(value: nat, negative: bool, base: nat, prec: nat, width: nat, f: Flags)
    requires IsBase(base) && f.hash && value != 0
    ensures var ds := Zeros(DigitBuffer(value, base, f), negative, prec, width, f);
      var full := FullBuffer(value, negative, base, prec, width, f);
      var kept := Kept(value, negative, base, prec, width, f);
      kept <= |full| && kept <= |ds| && full[..kept] == ds[..kept]
  {
    var ds := Zeros(DigitBuffer(value, base, f), negative, prec, width, f);
    MarksBehind(ds, negative, base, prec, FieldWidth(negative, width, f), f);
  }

  lemma MarksBehind(ds: string, negative: bool, base: nat, prec: nat, width: nat, f: Flags)
    ensures var kept := |ds| - Cut(|ds|, base, prec, width, f);
      var full := SignMark(HashMark(ds, base, prec, width, f), negative, f);
      kept <= |full| && full[..kept] == ds[..kept]
  {}

  /**
   With '#' the digits printed are the value's low ones: a field whose digits and zeros exactly fill the
   width or the precision gives up its leading one or two. They read back as the value if and only if
   those kept can hold it.
   */
  lemma {:induction false} HashReadsBackIff(value: nat, negative: bool, base: nat, prec: nat, width: nat, f: Flags)
    requires IsBase(base) && f.hash && value != 0
    ensures var full := FullBuffer(value, negative, base, prec, width, f);
      var kept := Kept(value, negative, base, prec, width, f);
      && kept <= |full| && AllDigits(Reverse(full[..kept]), base)
      && Digits(Reverse(full[..kept]), base, 0) == value % Power(base, kept)
      && (Digits(Reverse(full[..kept]), base, 0) == value <==> value < Power(base, kept))
  {
    var ds := Zeros(DigitBuffer(value, base, f), negative, prec, width, f);
    var kept := Kept(value, negative, base, prec, width, f);
    ZerosAreDigits(value, negative, base, prec, width, f);
    KeptInFull(value, negative, base, prec, width, f);
    KeptDigits(ds, kept, base);
    PaddedMod(value, negative, base, prec, width, f, kept);
    ModSmaller(value, Power(base, kept));
  }

  lemma {:induction false} KeptDigits(ds: string, kept: nat, base: nat)
    requires IsBase(base) && AllDigits(ds, base) && kept <= |ds|
    ensures AllDigits(Reverse(ds[..kept]), base)
    ensures RevValue(ds, base) >= 0 && Digits(Reverse(ds[..kept]), base, 0) == RevValue(ds, base) % Power(base, kept)
  {
    LowDigits(ds, kept, base);
    ReverseDigits(ds[..kept], base);
    ModIsLow(RevValue(ds, base), Power(base, kept), RevValue(ds[..kept], base), RevValue(ds[kept..], base));
  }

  lemma ModIsLow(value: int, p: nat, low: nat, high: nat)
    requires value == low + p * high && low < p
    ensures value >= 0 && value % p == low
  {
    MulMonotone(0, high, p);
    DivUnique(value, p, high, low);
  }

  // ----- The prefix

  /** The '#' prefix as it is read. */
  function Prefix(base: nat, f: Flags): string {
    if base == 16 then (if f.upper then "0X" else "0x") else if base == 2 then "0b" else "0"
  }

  lemma {:induction false} HashReversed(b: string, base: nat, f: Flags)
    requires |b| + |Prefix(base, f)| <= BUFFER_SIZE
    ensures Reverse(Marked(b, base, f)) == Prefix(base, f) + Reverse(b)
    ensures |Marked(b, base, f)| == |b| + |Prefix(base, f)|
  {
    if base == 16 || base == 2 {
      var c := if base == 2 then 'b' else if f.upper then 'X' else 'x';
      ReverseSnoc(b, c);
      ReverseSnoc(b + [c], '0');
    } else {
      ReverseSnoc(b, '0');
    }
  }

  lemma {:induction false} SignReversed(b: string, negative: bool, f: Flags)
    requires |b| + SignLen(negative, f) <= BUFFER_SIZE
    ensures Reverse(SignMark(b, negative, f)) == SignText(negative, f) + Reverse(b)
  {
    if Signed(negative, f) { ReverseSnoc(b, SignChar(negative, f)); }
  }

  /** Sign and prefix stand whole before the digits kept if and only if the buffer has room for all of them. */
  lemma {:induction false} PrefixIsWholeIff(value: nat, negative: bool, base: nat, prec: nat, width: nat, f: Flags)
    requires IsBase(base) && f.hash && value != 0
    ensures var full := FullBuffer(value, negative, base, prec, width, f);
      var kept := Kept(value, negative, base, prec, width, f);
      && kept <= |full|
      && (Reverse(full) == SignText(negative, f) + (Prefix(base, f) + Reverse(full[..kept]))
          <==> kept + |Prefix(base, f)| + SignLen(negative, f) <= BUFFER_SIZE)
  {
    var full := FullBuffer(value, negative, base, prec, width, f);
    var kept := Kept(value, negative, base, prec, width, f);
    var ds := Zeros(DigitBuffer(value, base, f), negative, prec, width, f);
    KeptInFull(value, negative, base, prec, width, f);
    if kept + |Prefix(base, f)| + SignLen(negative, f) <= BUFFER_SIZE {
      HashReversed(ds[..kept], base, f);
      SignReversed(HashMark(ds, base, prec, FieldWidth(negative, width, f), f), negative, f);
    } else {
      assert |SignText(negative, f)| == SignLen(negative, f);
    }
  }

  // ----- Examples

  /** "%#4x" of 0x1234: the width takes the leading 12. */
  lemma {:induction false} HashRemovesDigits(f: Flags)
    requires f.hash && !Signed(false, f) && !f.precision && !f.left && !f.zeropad
    ensures Kept(0x1234, false, 16, 0, 4, f) == 2 && !(0x1234 < Power(16, 2))
  {
    assert Power(16, 0) == 1;
    assert Power(16, 1) == 16;
    assert |RevDigits(0x1, 16, f.upper, 29)| == 1;
    assert |RevDigits(0x12, 16, f.upper, 30)| == 2;
    assert |RevDigits(0x123, 16, f.upper, 31)| == 3;
    assert |DigitBuffer(0x1234, 16, f)| == 4;
  }

  lemma {:induction false} PowerOfTwo(n: nat)
    ensures Power(2, n) == Pow2(n)
  {
    if n > 0 { PowerOfTwo(n - 1); }
  }

  /** "%#32b" of 0x80000000: the leading digit goes, and of the prefix only the 'b' comes out. */
  lemma {:induction false} HashCutsPrefix(f: Flags)
    requires f.hash && !Signed(false, f) && !f.precision && !f.left && !f.zeropad
    ensures var kept := Kept(0x8000_0000, false, 2, 0, 32, f);
      kept == 31 && !(0x8000_0000 < Power(2, kept)) && kept + |Prefix(2, f)| > BUFFER_SIZE
  {
    TopBit();
    OwnDigitsCount(0x8000_0000, 2, f);
  }

  lemma {:induction false} TopBit()
    ensures Power(2, 31) == 0x8000_0000 && DigitCount(0x8000_0000, 2) == 32
  {
    Pow2Values();
    PowerOfTwo(31);
    PowerOfTwo(32);
    FitsIffBelow(0x8000_0000, 2, 31);
    FitsIffBelow(0x8000_0000, 2, 32);
    RevDigitsCount(0x8000_0000, 2, false, 31);
    RevDigitsCount(0x8000_0000, 2, false, 32);
  }
}
