/**
 Integer conversion of libc/printf.c: the reversed digit buffer of 32 characters, its padding, and
 the field that comes out, with the proof that the field reads back as the number.
 */
module PrintfInt {
  import opened Bits

  const BUFFER_SIZE: nat := 32      // PRINTF_NTOA_BUFFER_SIZE

  datatype Flags = Flags(
    zeropad: bool, left: bool, plus: bool, space: bool, hash: bool, upper: bool,
    char_: bool, short: bool, long: bool, longlong: bool, precision: bool)

  const NoFlags := Flags(false, false, false, false, false, false, false, false, false, false, false)

  predicate IsBase(base: nat) { base == 2 || base == 8 || base == 10 || base == 16 }

  /** value / base, base by base. */
  function Quot(value: nat, base: nat): nat
    requires IsBase(base)
  {
    if base == 2 then value / 2 else if base == 8 then value / 8 else if base == 10 then value / 10 else value / 16
  }

  /** value % base. */
  function LastDigit(value: nat, base: nat): (d: nat)
    requires IsBase(base)
    ensures d < base
  {
    if base == 2 then value % 2 else if base == 8 then value % 8 else if base == 10 then value % 10 else value % 16
  }

  lemma QuotAndDigit(value: nat, base: nat)
    requires IsBase(base)
    ensures value == LastDigit(value, base) + base * Quot(value, base)
    ensures Quot(value, base) != 0 ==> Quot(value, base) < value
  {}

  lemma QuotIsDivision(value: nat, base: nat)
    requires IsBase(base)
    ensures Quot(value, base) == value / base && LastDigit(value, base) == value % base
  {}

  /** The digit d as printed. */
  function DigitChar(d: nat, upper: bool): char
    requires d < 16
  {
    if d < 10 then '0' + (d as char) else (if upper then 'A' else 'a') + ((d - 10) as char)
  }

  /** _ntoa_long's loop: the digits of value, least significant first, at most `room` of them. */
  function RevDigits(value: nat, base: nat, upper: bool, room: nat): (r: string)
    requires IsBase(base) && room > 0
    ensures 1 <= |r| <= room
    decreases room
  {
    [DigitChar(LastDigit(value, base), upper)] +
    if Quot(value, base) != 0 && room > 1 then RevDigits(Quot(value, base), base, upper, room - 1) else []
  }

  function Repeat(c: char, n: int): (s: string)
    ensures |s| == (if n > 0 then n else 0) && forall i :: 0 <= i < |s| ==> s[i] == c
  {
    if n <= 0 then [] else [c] + Repeat(c, n - 1)
  }

  function Min(a: int, b: int): int { if a <= b then a else b }
  function Max(a: int, b: int): int { if a >= b then a else b }

  /** Zeros up to n characters, within the buffer. */
  function PadTo(buf: string, n: nat): (r: string)
    ensures |buf| <= BUFFER_SIZE ==> |r| <= BUFFER_SIZE
  {
    buf + Repeat('0', Min(n, BUFFER_SIZE) - |buf|)
  }

  predicate Signed(negative: bool, f: Flags) { negative || f.plus || f.space }

  /** width as _ntoa_format leaves it: one less if zeros are padded and a sign follows. */
  function FieldWidth(negative: bool, width: nat, f: Flags): nat {
    if !f.left && width > 0 && f.zeropad && Signed(negative, f) then width - 1 else width
  }

  function Zeros(buf: string, negative: bool, prec: nat, width: nat, f: Flags): (r: string)
    ensures |buf| <= BUFFER_SIZE ==> |r| <= BUFFER_SIZE
  {
    if f.left then buf
    else
      var b := PadTo(buf, prec);
      if f.zeropad then PadTo(b, FieldWidth(negative, width, f)) else b
  }

  /** c at the end of the buffer, if there is room. */
  function Append(buf: string, c: char): (r: string)
    ensures |buf| <= BUFFER_SIZE ==> |r| <= BUFFER_SIZE
  {
    if |buf| < BUFFER_SIZE then buf + [c] else buf
  }

  /** Characters '#' takes from the end of a buffer as long as the precision or the width. */
  function Cut(len: nat, base: nat, prec: nat, width: nat, f: Flags): (n: nat)
    ensures n <= len
  {
    if !f.precision && len > 0 && (len == prec || len == width) then
      if len - 1 > 0 && base == 16 then 2 else 1
    else 0
  }

  /** The '#' prefix, reversed, as far as there is room. */
  function Marked(b: string, base: nat, f: Flags): (r: string)
    ensures |b| <= BUFFER_SIZE ==> |r| <= BUFFER_SIZE
  {
    var b' := if base == 16 then Append(b, if f.upper then 'X' else 'x') else if base == 2 then Append(b, 'b') else b;
    Append(b', '0')
  }

  /** '#': the prefix after what is left of the digits. */
  function HashMark(buf: string, base: nat, prec: nat, width: nat, f: Flags): (r: string)
    ensures |buf| <= BUFFER_SIZE ==> |r| <= BUFFER_SIZE
  {
    Marked(buf[..|buf| - Cut(|buf|, base, prec, width, f)], base, f)
  }

  function SignMark(buf: string, negative: bool, f: Flags): (r: string)
    ensures |buf| <= BUFFER_SIZE ==> |r| <= BUFFER_SIZE
  {
    if negative then Append(buf, '-')
    else if f.plus then Append(buf, '+')
    else if f.space then Append(buf, ' ')
    else buf
  }

  function Reverse(s: string): (r: string)
    ensures |r| == |s|
  {
    if s == "" then "" else Reverse(s[1..]) + [s[0]]
  }

  /** _out_rev: the buffer backwards, with spaces up to width before it or after it. */
  function OutRev(buf: string, width: nat, f: Flags): string {
    (if !f.left && !f.zeropad then Repeat(' ', width - |buf|) else "") + Reverse(buf)
    + (if f.left then Repeat(' ', width - |buf|) else "")
  }

  /** The buffer when _ntoa_format is called. */
  function DigitBuffer(value: nat, base: nat, f: Flags): (r: string)
    requires IsBase(base)
    ensures |r| <= BUFFER_SIZE
  {
    if !f.precision || value != 0 then RevDigits(value, base, f.upper, BUFFER_SIZE) else ""
  }

  /** The buffer when _out_rev is called. */
  function FullBuffer(value: nat, negative: bool, base: nat, prec: nat, width: nat, f: Flags): (r: string)
    requires IsBase(base)
    ensures |r| <= BUFFER_SIZE
  {
    var b := Zeros(DigitBuffer(value, base, f), negative, prec, width, f);
    var h := if f.hash && value != 0 then HashMark(b, base, prec, FieldWidth(negative, width, f), f) else b;
    SignMark(h, negative, f)
  }

  /** What _ntoa_long and _ntoa_long_long emit. */
  function Field(value: nat, negative: bool, base: nat, prec: nat, width: nat, f: Flags): string
    requires IsBase(base)
  {
    OutRev(FullBuffer(value, negative, base, prec, width, f), FieldWidth(negative, width, f), f)
  }

  // ----- Reading a field back

  function DigitValue(c: char): int {
    if '0' <= c <= '9' then c as int - '0' as int
    else if 'a' <= c <= 'f' then c as int - 'a' as int + 10
    else if 'A' <= c <= 'F' then c as int - 'A' as int + 10
    else -1
  }

  predicate IsDigit(c: char, base: nat) { 0 <= DigitValue(c) < base }

  /** The value of the leading run of digits, continuing from acc. */
  function Digits(s: string, base: nat, acc: nat): nat {
    if s == "" || !IsDigit(s[0], base) then acc else Digits(s[1..], base, acc * base + DigitValue(s[0]))
  }

  function SkipSpaces(s: string): string {
    if s != "" && s[0] == ' ' then SkipSpaces(s[1..]) else s
  }

  /** Blanks, an optional sign, digits: the sign and the magnitude. */
  function ReadNumber(s: string, base: nat): (bool, nat) {
    var t := SkipSpaces(s);
    if t != "" && t[0] == '-' then (true, Digits(t[1..], base, 0))
    else if t != "" && t[0] == '+' then (false, Digits(t[1..], base, 0))
    else (false, Digits(t, base, 0))
  }

  /** The value of a reversed digit buffer. */
  function RevValue(buf: string, base: nat): int {
    if buf == "" then 0 else DigitValue(buf[0]) + base * RevValue(buf[1..], base)
  }

  ghost predicate AllDigits(buf: string, base: nat) { forall i :: 0 <= i < |buf| ==> IsDigit(buf[i], base) }

  /** value has at most `room` digits. */
  predicate Fits(value: nat, base: nat, room: nat)
    requires IsBase(base)
    decreases room
  {
    room > 0 && (Quot(value, base) == 0 || Fits(Quot(value, base), base, room - 1))
  }

  lemma {:induction false} QuotientBelow(value: nat, base: nat, p: nat, rest: nat)
    requires IsBase(base) && 0 < p <= base && value < p * rest
    ensures Quot(value, base) < rest
  {
    var q := Quot(value, base);
    QuotAndDigit(value, base);
    TooLarge(q, base, p, rest, value);
  }

  lemma TooLarge(q: nat, base: nat, p: nat, rest: nat, value: nat)
    requires p <= base && base * q <= value < p * rest
    ensures q < rest
  {
    MulMonotone(p, base, q);
    if q >= rest { MulMonotone(rest, q, p); }
  }

  lemma MulMonotone(a: nat, b: nat, p: nat)
    requires a <= b
    ensures a * p <= b * p && p * a <= p * b
  {}

  /** m bits are less than a digit: n digits hold m * n bits. */
  lemma {:induction false} FitsWhen(value: nat, base: nat, m: nat, n: nat)
    requires IsBase(base) && Pow2(m) <= base && n > 0 && value < Pow2(Times(n, m))
    ensures Fits(value, base, n)
    decreases n
  {
    Pow2Add(m, Times(n - 1, m));
    QuotientBelow(value, base, Pow2(m), Pow2(Times(n - 1, m)));
    if n > 1 { FitsWhen(Quot(value, base), base, m, n - 1); }
  }

  /** n * m. */
  function Times(n: nat, m: nat): nat { if n == 0 then 0 else m + Times(n - 1, m) }

  lemma {:induction false} TimesIsProduct(n: nat, m: nat)
    ensures Times(n, m) == n * m
  {
    if n > 0 { TimesIsProduct(n - 1, m); }
  }

  /** Every 32-bit value fits the buffer in every base, and every 64-bit value in bases 8, 10 and 16. */
  lemma {:induction false} ValuesFit(value: nat, base: nat)
    requires IsBase(base)
    ensures value < 0x1_0000_0000 ==> Fits(value, base, BUFFER_SIZE)
    ensures base != 2 && value < 0x1_0000_0000_0000_0000 ==> Fits(value, base, BUFFER_SIZE)
  {
    Pow2Values();
    TimesIsProduct(32, 1);
    TimesIsProduct(32, 3);
    if value < 0x1_0000_0000 { FitsWhen(value, base, 1, 32); }
    if base != 2 && value < 0x1_0000_0000_0000_0000 {
      Pow2Monotone(64, 96);
      FitsWhen(value, base, 3, 32);
    }
  }

  lemma Pow2Values()
    ensures Pow2(3) == 8 && Pow2(1) == 2 && Pow2(32) == 0x1_0000_0000 && Pow2(64) == 0x1_0000_0000_0000_0000
  {
    assert Pow2(4) == 16;
    assert Pow2(8) == 0x100 by { Pow2Add(4, 4); }
    assert Pow2(16) == 0x1_0000 by { Pow2Add(8, 8); }
    assert Pow2(32) == 0x1_0000_0000 by { Pow2Add(16, 16); }
    assert Pow2(64) == 0x1_0000_0000_0000_0000 by { Pow2Add(32, 32); }
  }

  // ----- The round trip

  lemma DigitCharValue(d: nat, base: nat, upper: bool)
    requires IsBase(base) && d < base
    ensures DigitValue(DigitChar(d, upper)) == d && IsDigit(DigitChar(d, upper), base)
  {}

  lemma {:induction false} RevDigitsValue(value: nat, base: nat, upper: bool, room: nat)
    requires IsBase(base) && Fits(value, base, room)
    ensures AllDigits(RevDigits(value, base, upper, room), base)
    ensures RevValue(RevDigits(value, base, upper, room), base) == value
    decreases room
  {
    var r := RevDigits(value, base, upper, room);
    QuotAndDigit(value, base);
    DigitCharValue(LastDigit(value, base), base, upper);
    if Quot(value, base) != 0 {
      RevDigitsValue(Quot(value, base), base, upper, room - 1);
      assert r[1..] == RevDigits(Quot(value, base), base, upper, room - 1);
    } else {
      assert r[1..] == "";
    }
  }

  /** Zeros at the most significant end do not change the value. */
  lemma {:induction false} ZerosKeepValue(buf: string, n: int, base: nat)
    requires AllDigits(buf, base) && base > 0
    ensures AllDigits(buf + Repeat('0', n), base)
    ensures RevValue(buf + Repeat('0', n), base) == RevValue(buf, base)
    decreases |buf|, n
  {
    var r := buf + Repeat('0', n);
    if buf != "" {
      assert r[1..] == buf[1..] + Repeat('0', n);
      ZerosKeepValue(buf[1..], n, base);
    } else if n > 0 {
      assert r == Repeat('0', n) && r[1..] == "" + Repeat('0', n - 1);
      ZerosKeepValue("", n - 1, base);
    }
  }

  lemma {:induction false} PadKeepsValue(buf: string, n: nat, base: nat)
    requires AllDigits(buf, base) && base > 0 && |buf| <= BUFFER_SIZE
    ensures AllDigits(PadTo(buf, n), base) && RevValue(PadTo(buf, n), base) == RevValue(buf, base)
    ensures |PadTo(buf, n)| == Max(|buf|, Min(n, BUFFER_SIZE))
  {
    ZerosKeepValue(buf, Min(n, BUFFER_SIZE) - |buf|, base);
  }

  lemma {:induction false} DigitsSnoc(s: string, d: char, base: nat, acc: nat)
    requires AllDigits(s, base) && IsDigit(d, base)
    ensures Digits(s + [d], base, acc) == Digits(s, base, acc) * base + DigitValue(d)
    decreases |s|
  {
    var t := s + [d];
    if s == "" {
      assert t == [d] && t[1..] == "";
    } else {
      assert t[1..] == s[1..] + [d];
      DigitsSnoc(s[1..], d, base, acc * base + DigitValue(s[0]));
    }
  }

  /** The run of digits ends where `tail` starts. */
  lemma {:induction false} DigitsStop(s: string, tail: string, base: nat, acc: nat)
    requires AllDigits(s, base) && (tail == "" || !IsDigit(tail[0], base))
    ensures Digits(s + tail, base, acc) == Digits(s, base, acc)
    decreases |s|
  {
    if s == "" {
      assert s + tail == tail;
    } else {
      assert (s + tail)[1..] == s[1..] + tail;
      DigitsStop(s[1..], tail, base, acc * base + DigitValue(s[0]));
    }
  }

  lemma {:induction false} ReverseDigits(buf: string, base: nat)
    requires AllDigits(buf, base)
    ensures AllDigits(Reverse(buf), base)
    ensures Digits(Reverse(buf), base, 0) == RevValue(buf, base)
    decreases |buf|
  {
    if buf != "" {
      ReverseDigits(buf[1..], base);
      DigitsSnoc(Reverse(buf[1..]), buf[0], base, 0);
    }
  }

  lemma {:induction false} ReverseSnoc(s: string, c: char)
    ensures Reverse(s + [c]) == [c] + Reverse(s)
    decreases |s|
  {
    if s == "" {
      assert s + [c] == [c] && [c][1..] == "";
    } else {
      assert (s + [c])[1..] == s[1..] + [c];
      ReverseSnoc(s[1..], c);
    }
  }

  lemma {:induction false} SkipRepeat(n: int, t: string)
    ensures SkipSpaces(Repeat(' ', n) + t) == SkipSpaces(t)
    decreases n
  {
    if n <= 0 {
      assert Repeat(' ', n) + t == t;
    } else {
      assert (Repeat(' ', n) + t)[1..] == Repeat(' ', n - 1) + t;
      SkipRepeat(n - 1, t);
    }
  }

  function SignChar(negative: bool, f: Flags): char {
    if negative then '-' else if f.plus then '+' else ' '
  }

  function SignText(negative: bool, f: Flags): string {
    if Signed(negative, f) then [SignChar(negative, f)] else ""
  }

  /** Blanks, a sign, the digits `ds` and more blanks read back as the sign and the value of `ds`. */
  lemma {:induction false} ReadParts(m: int, n: int, negative: bool, f: Flags, ds: string, base: nat)
    requires IsBase(base) && AllDigits(ds, base)
    ensures ReadNumber(Repeat(' ', m) + (SignText(negative, f) + (ds + Repeat(' ', n))), base)
         == (negative, Digits(ds, base, 0))
  {
    var tail := ds + Repeat(' ', n);
    SkipRepeat(m, SignText(negative, f) + tail);
    DigitsStop(ds, Repeat(' ', n), base, 0);
    if negative || f.plus {
      var t := SignText(negative, f) + tail;
      assert t[0] == SignChar(negative, f) && t[1..] == tail;
    } else {
      if f.space {
        assert (" " + tail)[1..] == tail;
        assert SkipSpaces(" " + tail) == SkipSpaces(tail);
      } else {
        assert "" + tail == tail;
      }
      SkipDigits(ds, n, base);
    }
  }

  lemma {:induction false} SkipDigits(ds: string, n: int, base: nat)
    requires IsBase(base) && AllDigits(ds, base)
    ensures ReadNumber(ds + Repeat(' ', n), base) == (false, Digits(ds + Repeat(' ', n), base, 0))
  {
    var tail := ds + Repeat(' ', n);
    if ds == "" {
      SkipRepeat(n, "");
      assert tail == Repeat(' ', n) + "";
    } else {
      assert IsDigit(tail[0], base);
    }
  }

  /** Digits wanted in the buffer: the value's own, the precision's and the zero padding's. */
  function DigitsWanted(value: nat, negative: bool, base: nat, prec: nat, width: nat, f: Flags): nat
    requires IsBase(base)
  {
    var d := |DigitBuffer(value, base, f)|;
    if f.left then d
    else if f.zeropad then Max(Max(d, prec), FieldWidth(negative, width, f))
    else Max(d, prec)
  }

  function SignLen(negative: bool, f: Flags): nat { if Signed(negative, f) then 1 else 0 }

  /** Nothing is cut off by the 32-character buffer. */
  predicate Roomy(value: nat, negative: bool, base: nat, prec: nat, width: nat, f: Flags)
    requires IsBase(base)
  {
    && Fits(value, base, BUFFER_SIZE)
    && DigitsWanted(value, negative, base, prec, width, f) + SignLen(negative, f) <= BUFFER_SIZE
  }

  lemma {:induction false} RevDigitsAreDigits(value: nat, base: nat, upper: bool, room: nat)
    requires IsBase(base) && room > 0
    ensures AllDigits(RevDigits(value, base, upper, room), base)
    decreases room
  {
    DigitCharValue(LastDigit(value, base), base, upper);
    if Quot(value, base) != 0 && room > 1 { RevDigitsAreDigits(Quot(value, base), base, upper, room - 1); }
  }

  lemma {:induction false} BufferIsDigits(value: nat, base: nat, f: Flags)
    requires IsBase(base)
    ensures AllDigits(DigitBuffer(value, base, f), base)
    ensures Fits(value, base, BUFFER_SIZE) ==> RevValue(DigitBuffer(value, base, f), base) == value
  {
    if DigitBuffer(value, base, f) != "" {
      RevDigitsAreDigits(value, base, f.upper, BUFFER_SIZE);
      if Fits(value, base, BUFFER_SIZE) { RevDigitsValue(value, base, f.upper, BUFFER_SIZE); }
    }
  }

  /** The buffer after zero padding: digits only, as many as wanted up to 32, and the value if it fits. */
  lemma {:induction false} ZerosAreDigits(value: nat, negative: bool, base: nat, prec: nat, width: nat, f: Flags)
    requires IsBase(base)
    ensures var ds := Zeros(DigitBuffer(value, base, f), negative, prec, width, f);
      && AllDigits(ds, base)
      && (Fits(value, base, BUFFER_SIZE) ==> RevValue(ds, base) == value)
      && |ds| == Min(DigitsWanted(value, negative, base, prec, width, f), BUFFER_SIZE)
  {
    var b := DigitBuffer(value, base, f);
    BufferIsDigits(value, base, f);
    ZerosPad(b, negative, base, prec, width, f);
    assert DigitsWanted(value, negative, base, prec, width, f)
        == if f.left then |b| else Max(Max(|b|, prec), if f.zeropad then FieldWidth(negative, width, f) else 0);
  }

  lemma {:induction false} ZerosPad(b: string, negative: bool, base: nat, prec: nat, width: nat, f: Flags)
    requires AllDigits(b, base) && base > 0 && |b| <= BUFFER_SIZE
    ensures var ds, w := Zeros(b, negative, prec, width, f), FieldWidth(negative, width, f);
      && AllDigits(ds, base) && RevValue(ds, base) == RevValue(b, base)
      && |ds| == if f.left then |b| else Min(Max(Max(|b|, prec), if f.zeropad then w else 0), BUFFER_SIZE)
  {
    if !f.left {
      PadKeepsValue(b, prec, base);
      if f.zeropad { PadKeepsValue(PadTo(b, prec), FieldWidth(negative, width, f), base); }
    }
  }

  lemma {:induction false} FullParts(value: nat, negative: bool, base: nat, prec: nat, width: nat, f: Flags)
    requires IsBase(base) && !f.hash && Roomy(value, negative, base, prec, width, f)
    ensures var ds := Zeros(DigitBuffer(value, base, f), negative, prec, width, f);
      var full := FullBuffer(value, negative, base, prec, width, f);
      Reverse(full) == SignText(negative, f) + Reverse(ds) && |full| == |ds| + SignLen(negative, f)
  {
    var ds := Zeros(DigitBuffer(value, base, f), negative, prec, width, f);
    ZerosAreDigits(value, negative, base, prec, width, f);
    if Signed(negative, f) {
      assert |ds| < BUFFER_SIZE;
      ReverseSnoc(ds, SignChar(negative, f));
    }
  }

  function Lead(have: nat, negative: bool, width: nat, f: Flags): int {
    if !f.left && !f.zeropad then FieldWidth(negative, width, f) - have else 0
  }

  function Trail(have: nat, negative: bool, width: nat, f: Flags): int {
    if f.left then FieldWidth(negative, width, f) - have else 0
  }

  lemma {:induction false} FieldParts(value: nat, negative: bool, base: nat, prec: nat, width: nat, f: Flags)
    requires IsBase(base) && !f.hash && Roomy(value, negative, base, prec, width, f)
    ensures var ds := Zeros(DigitBuffer(value, base, f), negative, prec, width, f);
      var have := |ds| + SignLen(negative, f);
      Field(value, negative, base, prec, width, f)
      == Repeat(' ', Lead(have, negative, width, f))
      + (SignText(negative, f) + (Reverse(ds) + Repeat(' ', Trail(have, negative, width, f))))
  {
    FullParts(value, negative, base, prec, width, f);
    var ds := Zeros(DigitBuffer(value, base, f), negative, prec, width, f);
    var have := |ds| + SignLen(negative, f);
    var lead, trail := Repeat(' ', Lead(have, negative, width, f)), Repeat(' ', Trail(have, negative, width, f));
    Regroup(lead, SignText(negative, f), Reverse(ds), trail);
  }

  lemma Regroup(a: string, b: string, c: string, d: string)
    ensures a + (b + c) + d == a + (b + (c + d))
  {}

  /** How many digits the value has when written without leading zeros. */
  function DigitCount(value: nat, base: nat): (n: nat)
    requires IsBase(base)
    ensures n >= 1
  {
    if Quot(value, base) == 0 then 1 else
      QuotAndDigit(value, base);
      1 + DigitCount(Quot(value, base), base)
  }

  lemma {:induction false} RevDigitsCount(value: nat, base: nat, upper: bool, room: nat)
    requires IsBase(base) && room > 0
    ensures Fits(value, base, room) <==> DigitCount(value, base) <= room
    ensures |RevDigits(value, base, upper, room)| == Min(DigitCount(value, base), room)
    decreases room
  {
    if Quot(value, base) != 0 && room > 1 { RevDigitsCount(Quot(value, base), base, upper, room - 1); }
  }

  /** Digits of the value itself: none for a zero with a precision. */
  function OwnDigits(value: nat, base: nat, f: Flags): nat
    requires IsBase(base)
  {
    if f.precision && value == 0 then 0 else DigitCount(value, base)
  }

  /** The digits of a field before zero padding to the width. */
  function PlainDigits(value: nat, base: nat, prec: nat, f: Flags): nat
    requires IsBase(base)
  {
    var d := OwnDigits(value, base, f);
    if f.left then d else Max(d, prec)
  }

  lemma {:induction false} OwnDigitsCount(value: nat, base: nat, f: Flags)
    requires IsBase(base)
    ensures |DigitBuffer(value, base, f)| == Min(OwnDigits(value, base, f), BUFFER_SIZE)
    ensures Fits(value, base, BUFFER_SIZE) <==> OwnDigits(value, base, f) <= BUFFER_SIZE
  {
    RevDigitsCount(value, base, f.upper, BUFFER_SIZE);
    if value == 0 { assert DigitCount(value, base) == 1; }
  }

  lemma {:induction false} FieldLength(value: nat, negative: bool, base: nat, prec: nat, width: nat, f: Flags)
    requires IsBase(base) && !f.hash && Roomy(value, negative, base, prec, width, f)
    ensures |Field(value, negative, base, prec, width, f)|
         == Max(width, PlainDigits(value, base, prec, f) + SignLen(negative, f))
  {
    FieldParts(value, negative, base, prec, width, f);
    ZerosAreDigits(value, negative, base, prec, width, f);
    OwnDigitsCount(value, base, f);
  }

  /**
   Without '#' and with room for everything the field asks for, the emitted characters read back as
   the given sign and value, and there are max(width, digits + sign) of them, precision zeros being
   counted unless left-justified.
   */
  lemma {:induction false} FieldReadsBack(value: nat, negative: bool, base: nat, prec: nat, width: nat, f: Flags)
    requires IsBase(base) && !f.hash && Roomy(value, negative, base, prec, width, f)
    ensures ReadNumber(Field(value, negative, base, prec, width, f), base) == (negative, value)
    ensures |Field(value, negative, base, prec, width, f)|
         == Max(width, PlainDigits(value, base, prec, f) + SignLen(negative, f))
  {
    var ds := Zeros(DigitBuffer(value, base, f), negative, prec, width, f);
    var have := |ds| + SignLen(negative, f);
    ZerosAreDigits(value, negative, base, prec, width, f);
    ReverseDigits(ds, base);
    FieldParts(value, negative, base, prec, width, f);
    FieldLength(value, negative, base, prec, width, f);
    ReadParts(Lead(have, negative, width, f), Trail(have, negative, width, f), negative, f, Reverse(ds), base);
  }

  /** The ranges for which the conversions are promised. */
  predicate InRange(value: nat, base: nat) {
    value < 0x1_0000_0000 || (base != 2 && value < 0x1_0000_0000_0000_0000)
  }

  /** Every such value has room at every width and precision below 32; a sign needs a base over 2. */
  lemma {:induction false} RangeIsRoomy(value: nat, negative: bool, base: nat, prec: nat, width: nat, f: Flags)
    requires IsBase(base) && InRange(value, base) && prec < 32 && width < 32
    requires Signed(negative, f) ==> base != 2
    ensures Roomy(value, negative, base, prec, width, f)
  {
    ValuesFit(value, base);
    if base != 2 { FewDigits(value, base, f.upper); }
    WantedBound(value, negative, base, prec, width, f);
  }

  lemma {:induction false} WantedBound(value: nat, negative: bool, base: nat, prec: nat, width: nat, f: Flags)
    requires IsBase(base) && prec < 32 && width < 32
    ensures DigitsWanted(value, negative, base, prec, width, f) <= Max(|DigitBuffer(value, base, f)|, 31)
  {}

  lemma {:induction false} FewDigits(value: nat, base: nat, upper: bool)
    requires IsBase(base) && InRange(value, base) && base != 2
    ensures |RevDigits(value, base, upper, BUFFER_SIZE)| <= 22
  {
    Pow2Values();
    Pow2Monotone(64, 66);
    TimesIsProduct(22, 3);
    FitsWhen(value, base, 3, 22);
    RevDigitsCount(value, base, upper, 22);
    RevDigitsCount(value, base, upper, BUFFER_SIZE);
  }

  // ----- Digits and powers of the base

  function Power(base: nat, k: nat): (p: nat)
    ensures base > 0 ==> p > 0
  {
    if k == 0 then 1 else base * Power(base, k - 1)
  }

  /** The low k digits of a buffer are its value modulo base^k. */
  lemma {:induction false} LowDigits(buf: string, k: nat, base: nat)
    requires IsBase(base) && AllDigits(buf, base) && k <= |buf|
    ensures 0 <= RevValue(buf[..k], base) < Power(base, k)
    ensures 0 <= RevValue(buf[k..], base)
    ensures RevValue(buf, base) == RevValue(buf[..k], base) + Power(base, k) * RevValue(buf[k..], base)
    decreases |buf|
  {
    if k > 0 {
      var rest := buf[1..];
      LowDigits(rest, k - 1, base);
      assert buf[..k][1..] == rest[..k - 1] && buf[k..] == rest[k - 1..];
      var low, p, high := RevValue(rest[..k - 1], base), Power(base, k - 1), RevValue(buf[k..], base);
      LowDigitsStep(DigitValue(buf[0]), base, low, p, high);
    } else {
      assert buf[..0] == "" && buf[0..] == buf;
      if buf != "" { LowDigits(buf[1..], 0, base); assert buf[1..][0..] == buf[1..]; }
    }
  }

  lemma LowDigitsStep(d: int, base: nat, low: nat, p: nat, high: int)
    requires 0 <= d < base && low < p
    ensures d + base * (low + p * high) == (d + base * low) + base * p * high
    ensures 0 <= d + base * low < base * p
  {
    MulMonotone(low + 1, p, base);
  }

  // ----- Fields that do not fit

  lemma {:induction false} QuotBelowIff(v: nat, b: nat, p: nat)
    requires IsBase(b)
    ensures v < b * p <==> Quot(v, b) < p
  {
    var q := Quot(v, b);
    QuotAndDigit(v, b);
    if q < p { NextMultiple(q, p, b); } else { MulMonotone(p, q, b); }
  }

  lemma NextMultiple(q: nat, p: nat, b: nat)
    requires q < p
    ensures b * q + b <= b * p
  {
    MulStep(q, p, b);
  }

  lemma {:induction false} FitsIffBelow(value: nat, base: nat, n: nat)
    requires IsBase(base) && n > 0
    ensures Fits(value, base, n) <==> value < Power(base, n)
    decreases n
  {
    QuotBelowIff(value, base, Power(base, n - 1));
    if n > 1 { FitsIffBelow(Quot(value, base), base, n - 1); }
  }

  lemma {:induction false} PowerMonotone(base: nat, m: nat, n: nat)
    requires base > 0 && m <= n
    ensures Power(base, m) <= Power(base, n)
    decreases n
  {
    if m < n {
      PowerMonotone(base, m, n - 1);
      MulMonotone(1, base, Power(base, n - 1));
    }
  }

  /** Thirty-two digits cannot have the value of a number that needs more. */
  lemma {:induction false} TooLargeToRead(ds: string, value: nat, base: nat)
    requires IsBase(base) && AllDigits(ds, base) && |ds| <= BUFFER_SIZE && !Fits(value, base, BUFFER_SIZE)
    ensures RevValue(ds, base) < value
  {
    assert ds[..|ds|] == ds;
    LowDigits(ds, |ds|, base);
    PowerMonotone(base, |ds|, BUFFER_SIZE);
    FitsIffBelow(value, base, BUFFER_SIZE);
  }

  lemma {:induction false} CrowdedBuffer(value: nat, negative: bool, base: nat, prec: nat, width: nat, f: Flags)
    requires IsBase(base) && !f.hash && !Roomy(value, negative, base, prec, width, f)
    ensures var ds := Zeros(DigitBuffer(value, base, f), negative, prec, width, f);
      |ds| == BUFFER_SIZE && FullBuffer(value, negative, base, prec, width, f) == ds
  {
    ZerosAreDigits(value, negative, base, prec, width, f);
    OwnDigitsCount(value, base, f);
    SignNeedsRoom(Zeros(DigitBuffer(value, base, f), negative, prec, width, f), negative, f);
  }

  lemma SignNeedsRoom(buf: string, negative: bool, f: Flags)
    requires |buf| == BUFFER_SIZE
    ensures SignMark(buf, negative, f) == buf
  {}

  /** A field that asks for more than the buffer holds is 32 digits without a sign, and blanks. */
  lemma {:induction false} CrowdedField(value: nat, negative: bool, base: nat, prec: nat, width: nat, f: Flags)
    requires IsBase(base) && !f.hash && !Roomy(value, negative, base, prec, width, f)
    ensures var ds := Zeros(DigitBuffer(value, base, f), negative, prec, width, f);
      && RevValue(ds, base) >= 0
      && ReadNumber(Field(value, negative, base, prec, width, f), base) == (false, RevValue(ds, base))
    ensures |Field(value, negative, base, prec, width, f)|
         == if f.zeropad && !f.left then BUFFER_SIZE else Max(BUFFER_SIZE, width)
  {
    var ds := Zeros(DigitBuffer(value, base, f), negative, prec, width, f);
    CrowdedBuffer(value, negative, base, prec, width, f);
    ZerosAreDigits(value, negative, base, prec, width, f);
    ReverseDigits(ds, base);
    var m, n := Lead(|ds|, negative, width, f), Trail(|ds|, negative, width, f);
    Regroup(Repeat(' ', m), "", Reverse(ds), Repeat(' ', n));
    assert "" + Reverse(ds) == Reverse(ds);
    ReadParts(m, n, false, NoFlags, Reverse(ds), base);
  }

  /**
   Without '#', the field reads back as the sign and value given if and only if the value has at most
   32 digits and, for a negative number, the buffer has room for everything the field asks for.
   */
  lemma {:induction false} FieldReadsBackIff(value: nat, negative: bool, base: nat, prec: nat, width: nat, f: Flags)
    requires IsBase(base) && !f.hash
    ensures ReadNumber(Field(value, negative, base, prec, width, f), base) == (negative, value)
       <==> Fits(value, base, BUFFER_SIZE) && (negative ==> Roomy(value, negative, base, prec, width, f))
  {
    if Roomy(value, negative, base, prec, width, f) {
      FieldReadsBack(value, negative, base, prec, width, f);
    } else {
      CrowdedReadsBackIff(value, negative, base, prec, width, f);
    }
  }

  lemma {:induction false} CrowdedReadsBackIff(value: nat, negative: bool, base: nat, prec: nat, width: nat, f: Flags)
    requires IsBase(base) && !f.hash && !Roomy(value, negative, base, prec, width, f)
    ensures ReadNumber(Field(value, negative, base, prec, width, f), base) == (negative, value)
       <==> Fits(value, base, BUFFER_SIZE) && !negative
  {
    hide Zeros, DigitBuffer, DigitsWanted, Field;
    CrowdedField(value, negative, base, prec, width, f);
    ZerosAreDigits(value, negative, base, prec, width, f);
    var ds := Zeros(DigitBuffer(value, base, f), negative, prec, width, f);
    if !Fits(value, base, BUFFER_SIZE) { TooLargeToRead(ds, value, base); }
  }

  /**
   The length is max(width, digits + sign) if and only if the buffer has room, or the missing digits
   are made up for by blanks.
   */
  lemma {:induction false} FieldLengthIff(value: nat, negative: bool, base: nat, prec: nat, width: nat, f: Flags)
    requires IsBase(base) && !f.hash
    ensures var wanted := PlainDigits(value, base, prec, f) + SignLen(negative, f);
      |Field(value, negative, base, prec, width, f)| == Max(width, wanted)
      <==> Roomy(value, negative, base, prec, width, f) || ((f.left || !f.zeropad) && width >= wanted)
  {
    if Roomy(value, negative, base, prec, width, f) {
      FieldLength(value, negative, base, prec, width, f);
    } else {
      CrowdedLength(value, negative, base, prec, width, f);
    }
  }

  lemma {:induction false} CrowdedLength(value: nat, negative: bool, base: nat, prec: nat, width: nat, f: Flags)
    requires IsBase(base) && !f.hash && !Roomy(value, negative, base, prec, width, f)
    ensures var wanted := PlainDigits(value, base, prec, f) + SignLen(negative, f);
      |Field(value, negative, base, prec, width, f)| == Max(width, wanted)
      <==> (f.left || !f.zeropad) && width >= wanted
  {
    OwnDigitsCount(value, base, f);
    CrowdedField(value, negative, base, prec, width, f);
  }

  /** "%040d" of -7 comes out as 32 digits that read as 7. */
  lemma {:induction false} WideFieldLosesSign(f: Flags)
    requires f.zeropad && !f.left && !f.hash && !f.precision
    ensures ReadNumber(Field(7, true, 10, 0, 40, f), 10) == (false, 7)
    ensures |Field(7, true, 10, 0, 40, f)| == BUFFER_SIZE
  {
    ValuesFit(7, 10);
    CrowdedField(7, true, 10, 0, 40, f);
    ZerosAreDigits(7, true, 10, 0, 40, f);
  }

  // ----- Precision

  /** How many characters of s are digits. */
  function DigitsIn(s: string, base: nat): nat {
    if s == "" then 0 else (if IsDigit(s[0], base) then 1 else 0) + DigitsIn(s[1..], base)
  }

  lemma {:induction false} DigitsInConcat(s: string, t: string, base: nat)
    ensures DigitsIn(s + t, base) == DigitsIn(s, base) + DigitsIn(t, base)
    decreases |s|
  {
    if s == "" {
      assert s + t == t;
    } else {
      assert (s + t)[1..] == s[1..] + t;
      DigitsInConcat(s[1..], t, base);
    }
  }

  lemma {:induction false} DigitsInAll(s: string, base: nat, all: bool)
    requires forall i :: 0 <= i < |s| ==> (IsDigit(s[i], base) <==> all)
    ensures DigitsIn(s, base) == if all then |s| else 0
    decreases |s|
  {
    if s != "" { DigitsInAll(s[1..], base, all); }
  }

  lemma {:induction false} DigitsInField(value: nat, negative: bool, base: nat, prec: nat, width: nat, f: Flags)
    requires IsBase(base) && !f.hash && Roomy(value, negative, base, prec, width, f)
    ensures DigitsIn(Field(value, negative, base, prec, width, f), base)
         == DigitsWanted(value, negative, base, prec, width, f)
  {
    hide Zeros, DigitBuffer, DigitsWanted, Field;
    var ds := Zeros(DigitBuffer(value, base, f), negative, prec, width, f);
    var have := |ds| + SignLen(negative, f);
    FieldParts(value, negative, base, prec, width, f);
    ZerosAreDigits(value, negative, base, prec, width, f);
    ReverseDigits(ds, base);
    var m, n := Lead(have, negative, width, f), Trail(have, negative, width, f);
    DigitsInParts(m, SignText(negative, f), Reverse(ds), n, base);
  }

  lemma {:induction false} DigitsInParts(m: int, sign: string, ds: string, n: int, base: nat)
    requires IsBase(base) && AllDigits(ds, base) && forall i :: 0 <= i < |sign| ==> !IsDigit(sign[i], base)
    ensures DigitsIn(Repeat(' ', m) + (sign + (ds + Repeat(' ', n))), base) == |ds|
  {
    DigitsInConcat(Repeat(' ', m), sign + (ds + Repeat(' ', n)), base);
    DigitsInConcat(sign, ds + Repeat(' ', n), base);
    DigitsInConcat(ds, Repeat(' ', n), base);
    DigitsInAll(Repeat(' ', m), base, false);
    DigitsInAll(sign, base, false);
    DigitsInAll(ds, base, true);
    DigitsInAll(Repeat(' ', n), base, false);
  }

  lemma {:induction false} DigitsInCrowded(value: nat, negative: bool, base: nat, prec: nat, width: nat, f: Flags)
    requires IsBase(base) && !f.hash && !Roomy(value, negative, base, prec, width, f)
    ensures DigitsIn(Field(value, negative, base, prec, width, f), base) == BUFFER_SIZE
  {
    hide Zeros, DigitBuffer, DigitsWanted;
    var ds := Zeros(DigitBuffer(value, base, f), negative, prec, width, f);
    CrowdedBuffer(value, negative, base, prec, width, f);
    ZerosAreDigits(value, negative, base, prec, width, f);
    ReverseDigits(ds, base);
    var m, n := Lead(|ds|, negative, width, f), Trail(|ds|, negative, width, f);
    Regroup(Repeat(' ', m), "", Reverse(ds), Repeat(' ', n));
    assert "" + Reverse(ds) == Reverse(ds);
    DigitsInParts(m, "", Reverse(ds), n, base);
  }

  /**
   Section 7.21.6.1 of ISO/IEC 9899:2011 makes the precision the least number of digits. Without '#' the
   field has that many if and only if they are at most 32 and it is right-justified or the value has
   them itself.
   */
  lemma {:induction false} PrecisionIsKeptIff(value: nat, negative: bool, base: nat, prec: nat, width: nat, f: Flags)
    requires IsBase(base) && !f.hash
    ensures DigitsIn(Field(value, negative, base, prec, width, f), base) >= prec
       <==> prec <= BUFFER_SIZE && (!f.left || prec <= OwnDigits(value, base, f))
  {
    OwnDigitsCount(value, base, f);
    if Roomy(value, negative, base, prec, width, f) {
      DigitsInField(value, negative, base, prec, width, f);
    } else {
      DigitsInCrowded(value, negative, base, prec, width, f);
    }
  }

  /** "%.40d" of 5 comes out as 32 digits. */
  lemma {:induction false} LongPrecisionIsCut(f: Flags)
    requires !f.left && f.precision && !f.hash
    ensures DigitsIn(Field(5, false, 10, 40, 0, f), 10) == BUFFER_SIZE
  {
    DigitsInCrowded(5, false, 10, 40, 0, f);
  }

  /** "%-.3d" of 5 comes out as one digit. */
  lemma {:induction false} LeftPrecisionIsDropped(f: Flags)
    requires f.left && f.precision && !f.hash && !f.plus && !f.space
    ensures DigitsIn(Field(5, false, 10, 3, 0, f), 10) == 1
  {
    RangeIsRoomy(5, false, 10, 3, 0, f);
    DigitsInField(5, false, 10, 3, 0, f);
  }
}
