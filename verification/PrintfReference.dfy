/** What an integer conversion should print, written from the number down, and the proof that it does. */
module PrintfReference {
  import opened PrintfInt

  const LOWER: string := "0123456789abcdef"
  const UPPER: string := "0123456789ABCDEF"

  /** v in positional notation, most significant digit first. */
  function Numeral(v: nat, base: nat, upper: bool): (r: string)
    requires IsBase(base)
    ensures |r| >= 1
    decreases v
  {
    QuotIsDivision(v, base);
    QuotAndDigit(v, base);
    var digit := (if upper then UPPER else LOWER)[v % base];
    if v / base == 0 then [digit] else Numeral(v / base, base, upper) + [digit]
  }

  function Sign(v: int, f: Flags): string {
    if v < 0 then "-" else if f.plus then "+" else if f.space then " " else ""
  }

  function Magnitude(v: int): nat { if v < 0 then -v else v }

  /** n zeros before s. */
  function ZeroFill(n: int, s: string): (r: string)
    ensures |r| == Max(n, 0) + |s|
  {
    Repeat('0', n) + s
  }

  /** The numeral, or nothing for zero with a precision. */
  function OwnNumeral(v: int, base: nat, f: Flags): string
    requires IsBase(base)
  {
    if f.precision && v == 0 then "" else Numeral(Magnitude(v), base, f.upper)
  }

  /** The numeral with zeros before it up to the precision, unless it is left-justified. */
  function DigitsOf(v: int, base: nat, prec: nat, f: Flags): string
    requires IsBase(base)
  {
    var n := OwnNumeral(v, base, f);
    if f.left then n else ZeroFill(prec - |n|, n)
  }

  /** Sign and digits with n places filled: blanks before or after them, or zeros between them. */
  function Arranged(sign: string, digits: string, n: int, f: Flags): string {
    if f.left then sign + digits + Repeat(' ', n)
    else if f.zeropad then sign + Repeat('0', n) + digits
    else Repeat(' ', n) + sign + digits
  }

  /** The field of v: sign and digits, filled up to the width. */
  function Rendered(v: int, base: nat, prec: nat, width: nat, f: Flags): string
    requires IsBase(base)
  {
    var sign, digits := Sign(v, f), DigitsOf(v, base, prec, f);
    Arranged(sign, digits, width - |sign| - |digits|, f)
  }

  // ----- Numerals

  lemma DigitIsInTable(d: nat, upper: bool)
    requires d < 16
    ensures DigitChar(d, upper) == (if upper then UPPER else LOWER)[d]
  {}

  /** The last digit, after the numeral of the quotient if there is one. */
  lemma NumeralStep(v: nat, base: nat, upper: bool)
    requires IsBase(base)
    ensures Numeral(v, base, upper)
         == (if Quot(v, base) == 0 then "" else Numeral(Quot(v, base), base, upper))
          + [DigitChar(LastDigit(v, base), upper)]
  {
    QuotIsDivision(v, base);
    DigitIsInTable(LastDigit(v, base), upper);
  }

  lemma {:induction false} StoredNumeral(v: nat, base: nat, upper: bool, room: nat)
    requires IsBase(base) && Fits(v, base, room)
    ensures Reverse(RevDigits(v, base, upper, room)) == Numeral(v, base, upper)
    decreases room
  {
    var r := RevDigits(v, base, upper, room);
    NumeralStep(v, base, upper);
    hide Numeral;
    if Quot(v, base) != 0 {
      StoredNumeral(Quot(v, base), base, upper, room - 1);
      assert r[1..] == RevDigits(Quot(v, base), base, upper, room - 1);
    } else {
      assert r[1..] == "";
    }
  }

  /** A numeral is made of digits and has the value it was written for. */
  lemma {:induction false} NumeralDigits(v: nat, base: nat, upper: bool)
    requires IsBase(base)
    ensures AllDigits(Numeral(v, base, upper), base) && Digits(Numeral(v, base, upper), base, 0) == v
    decreases v
  {
    var q, d := Quot(v, base), LastDigit(v, base);
    QuotAndDigit(v, base);
    NumeralStep(v, base, upper);
    DigitCharValue(d, base, upper);
    hide Numeral, Quot, LastDigit, IsDigit;
    if q == 0 {
      DigitsSnoc("", DigitChar(d, upper), base, 0);
    } else {
      NumeralDigits(q, base, upper);
      DigitsSnoc(Numeral(q, base, upper), DigitChar(d, upper), base, 0);
    }
  }

  /** No numeral but zero's starts with a zero. */
  lemma {:induction false} NumeralStart(v: nat, base: nat, upper: bool)
    requires IsBase(base) && v > 0
    ensures Numeral(v, base, upper)[0] != '0'
    decreases v
  {
    QuotAndDigit(v, base);
    NumeralStep(v, base, upper);
    hide Numeral;
    if Quot(v, base) != 0 { NumeralStart(Quot(v, base), base, upper); }
  }

  // ----- The field

  lemma {:induction false} ReverseConcat(s: string, t: string)
    ensures Reverse(s + t) == Reverse(t) + Reverse(s)
    decreases |s|
  {
    if s == "" {
      assert s + t == t;
    } else {
      assert (s + t)[1..] == s[1..] + t;
      ReverseConcat(s[1..], t);
    }
  }

  lemma {:induction false} ReverseRepeat(c: char, n: int)
    ensures Reverse(Repeat(c, n)) == Repeat(c, n)
    decreases n
  {
    if n > 0 {
      ReverseRepeat(c, n - 1);
      assert Repeat(c, n)[1..] == Repeat(c, n - 1);
    }
  }

  lemma {:induction false} ReversePadded(b: string, n: nat)
    requires n <= BUFFER_SIZE
    ensures Reverse(PadTo(b, n)) == ZeroFill(n - |b|, Reverse(b))
  {
    ReverseConcat(b, Repeat('0', n - |b|));
    ReverseRepeat('0', n - |b|);
  }

  lemma FillNone(m: int, n: int, s: string)
    requires m == n || (m <= 0 && n <= 0)
    ensures ZeroFill(m, s) == ZeroFill(n, s)
  {}

  lemma {:induction false} OwnDigitsAre(v: int, base: nat, f: Flags)
    requires IsBase(base) && Fits(Magnitude(v), base, BUFFER_SIZE)
    ensures Reverse(DigitBuffer(Magnitude(v), base, f)) == OwnNumeral(v, base, f)
  {
    StoredNumeral(Magnitude(v), base, f.upper, BUFFER_SIZE);
  }

  lemma {:induction false} PadsReversed(b: string, n: string, negative: bool, prec: nat, width: nat, f: Flags)
    requires Reverse(b) == n
    requires !f.left ==> prec <= BUFFER_SIZE && (f.zeropad ==> FieldWidth(negative, width, f) <= BUFFER_SIZE)
    ensures var want := if f.left then n else ZeroFill(prec - |n|, n);
      Reverse(Zeros(b, negative, prec, width, f))
      == if f.left || !f.zeropad then want else ZeroFill(width - SignLen(negative, f) - |want|, want)
  {
    hide Reverse, PadTo, ZeroFill;
    if !f.left {
      var p, w := PadTo(b, prec), FieldWidth(negative, width, f);
      ReversePadded(b, prec);
      if f.zeropad {
        ReversePadded(p, w);
        FillNone(w - |p|, width - SignLen(negative, f) - |p|, Reverse(p));
      }
    }
  }

  lemma {:induction false} RoomBounds(value: nat, negative: bool, base: nat, prec: nat, width: nat, f: Flags)
    requires IsBase(base) && Roomy(value, negative, base, prec, width, f)
    ensures Fits(value, base, BUFFER_SIZE)
    ensures !f.left ==> prec <= BUFFER_SIZE && (f.zeropad ==> FieldWidth(negative, width, f) <= BUFFER_SIZE)
  {}

  /** The zero-padded digits are the zeros of the width, those of the precision and the numeral. */
  lemma {:induction false} PaddedDigitsAre(v: int, base: nat, prec: nat, width: nat, f: Flags)
    requires IsBase(base) && Roomy(Magnitude(v), v < 0, base, prec, width, f)
    ensures var ds := Zeros(DigitBuffer(Magnitude(v), base, f), v < 0, prec, width, f);
      var want := DigitsOf(v, base, prec, f);
      Reverse(ds) == if f.left || !f.zeropad then want else ZeroFill(width - |Sign(v, f)| - |want|, want)
  {
    hide Zeros, DigitBuffer, Roomy, Sign, SignLen, Repeat, Reverse, Fits, FieldWidth, IsBase;
    hide OwnNumeral, Magnitude, ZeroFill;
    SignLength(v, f);
    RoomBounds(Magnitude(v), v < 0, base, prec, width, f);
    OwnDigitsAre(v, base, f);
    PadsReversed(DigitBuffer(Magnitude(v), base, f), OwnNumeral(v, base, f), v < 0, prec, width, f);
  }

  lemma SignLength(v: int, f: Flags)
    ensures |Sign(v, f)| == SignLen(v < 0, f)
  {}

  /** Main result: without '#' and with room for it in the buffer, the field is the one rendered. */
  lemma {:induction false} FieldIsRendered(v: int, base: nat, prec: nat, width: nat, f: Flags)
    requires IsBase(base) && !f.hash && Roomy(Magnitude(v), v < 0, base, prec, width, f)
    ensures Field(Magnitude(v), v < 0, base, prec, width, f) == Rendered(v, base, prec, width, f)
  {
    hide Zeros, DigitBuffer, Field, Roomy, DigitsOf, Repeat, Reverse, Lead, Trail, SignText, Sign;
    hide Magnitude, SignLen, IsBase, Arranged, ZeroFill;
    var ds := Zeros(DigitBuffer(Magnitude(v), base, f), v < 0, prec, width, f);
    FieldParts(Magnitude(v), v < 0, base, prec, width, f);
    PaddedDigitsAre(v, base, prec, width, f);
    Filled(v, DigitsOf(v, base, prec, f), Reverse(ds), width, f);
  }

  /** The parts of a field in the order of Rendered. */
  lemma {:induction false} Filled(v: int, want: string, rd: string, width: nat, f: Flags)
    requires rd == if f.left || !f.zeropad then want else ZeroFill(width - |Sign(v, f)| - |want|, want)
    ensures var sign := Sign(v, f);
      var fill, have := width - |sign| - |want|, |rd| + SignLen(v < 0, f);
      Repeat(' ', Lead(have, v < 0, width, f)) + (SignText(v < 0, f) + (rd + Repeat(' ', Trail(have, v < 0, width, f))))
      == Arranged(sign, want, fill, f)
  {
    var sign := Sign(v, f);
    var fill := width - |sign| - |want|;
    assert sign == SignText(v < 0, f) && |sign| == SignLen(v < 0, f);
    hide Sign, SignText, Repeat;
    NoRepeat(' ', 0);
    if f.left {
      Around("", sign, want, Repeat(' ', fill));
    } else if f.zeropad {
      Around("", sign, Repeat('0', fill) + want, "");
      Assoc(sign, Repeat('0', fill), want);
    } else {
      Around(Repeat(' ', fill), sign, want, "");
    }
  }

  lemma NoRepeat(c: char, n: int)
    ensures n <= 0 ==> Repeat(c, n) == ""
  {}

  lemma Around(a: string, b: string, c: string, d: string)
    ensures a == "" ==> a + (b + (c + d)) == b + c + d
    ensures d == "" ==> a + (b + (c + d)) == a + b + c
    ensures a == "" && d == "" ==> a + (b + (c + d)) == b + c
  {}

  lemma Assoc(a: string, b: string, c: string)
    ensures a + (b + c) == a + b + c
  {}
}
