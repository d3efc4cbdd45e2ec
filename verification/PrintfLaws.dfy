/** What is true of every format of libc/printf.c: formats compose, and printed numbers read back. */
module PrintfLaws {
  import opened Bits
  import opened Options
  import opened PrintfInt
  import opened PrintfFormat

  // ----- Formats compose

  function Extend(p: Parsed, b: string, y: seq<Arg>): Parsed { p.(rest := p.rest + b, args := p.args + y) }

  function ExtendPiece(p: Piece, b: string, y: seq<Arg>): Piece { p.(rest := p.rest + b, args := p.args + y) }

  lemma {:induction false} FlagsLocal(s: string, f: Flags, b: string)
    requires ReadFlags(s, f).1 != ""
    ensures ReadFlags(s + b, f) == (ReadFlags(s, f).0, ReadFlags(s, f).1 + b)
    decreases |s|
  {
    if IsFlag(s[0]) {
      assert (s + b)[1..] == s[1..] + b;
      FlagsLocal(s[1..], SetFlag(f, s[0]), b);
    }
  }

  lemma {:induction false} AtoiLocal(s: string, acc: Bits16, b: string)
    requires Atoi(s, acc).1 != ""
    ensures Atoi(s + b, acc) == (Atoi(s, acc).0, Atoi(s, acc).1 + b)
    decreases |s|
  {
    if IsDecimal(s[0]) {
      assert (s + b)[1..] == s[1..] + b;
      AtoiLocal(s[1..], U16(acc * 10 + DigitValue(s[0])), b);
    }
  }

  lemma {:induction false} WidthLocal(f: Flags, s: string, x: seq<Arg>, b: string, y: seq<Arg>)
    requires ReadWidth(f, s, x).Some? && ReadWidth(f, s, x).value.rest != ""
    ensures ReadWidth(f, s + b, x + y) == Some(Extend(ReadWidth(f, s, x).value, b, y))
  {
    if IsDecimal(First(s)) {
      AtoiLocal(s, 0, b);
    } else if First(s) == '*' {
      assert (s + b)[1..] == s[1..] + b && (x + y)[1..] == x[1..] + y;
    }
  }

  lemma {:induction false} PrecisionLocal(p: Parsed, b: string, y: seq<Arg>)
    requires ReadPrecision(p).Some? && ReadPrecision(p).value.rest != ""
    ensures ReadPrecision(Extend(p, b, y)) == Some(Extend(ReadPrecision(p).value, b, y))
  {
    if First(p.rest) == '.' {
      var s := p.rest[1..];
      assert (p.rest + b)[1..] == s + b;
      if IsDecimal(First(s)) {
        AtoiLocal(s, 0, b);
      } else if First(s) == '*' {
        assert (s + b)[1..] == s[1..] + b && (p.args + y)[1..] == p.args[1..] + y;
      }
    }
  }

  lemma {:induction false} LengthLocal(p: Parsed, b: string, y: seq<Arg>)
    requires ReadLength(p).rest != ""
    ensures ReadLength(Extend(p, b, y)) == Extend(ReadLength(p), b, y)
  {
    var n := LengthFlags(p.f, First(p.rest), Second(p.rest)).1;
    assert (p.rest + b)[n..] == p.rest[n..] + b;
  }

  lemma {:induction false} ConvertLocal(p: Parsed, b: string, y: seq<Arg>)
    requires Convert(p).Some?
    ensures Convert(Extend(p, b, y)) == Some(ExtendPiece(Convert(p).value, b, y))
  {
    hide ConvertArg;
    assert (p.rest + b)[1..] == p.rest[1..] + b;
    if TakesArg(p.rest[0]) { assert (p.args + y)[1..] == p.args[1..] + y; }
  }

  lemma {:induction false} SpecLocal(s: string, x: seq<Arg>, b: string, y: seq<Arg>)
    requires ReadSpec(s, x).Some? && ReadSpec(s, x).value.rest != ""
    ensures ReadSpec(s + b, x + y) == Some(Extend(ReadSpec(s, x).value, b, y))
  {
    var (f, s') := ReadFlags(s, NoFlags);
    FlagsLocal(s, NoFlags, b);
    WidthLocal(f, s', x, b, y);
    PrecisionLocal(ReadWidth(f, s', x).value, b, y);
  }

  lemma {:induction false} DirectiveLocal(s: string, x: seq<Arg>, b: string, y: seq<Arg>)
    requires Directive(s, x).Some?
    ensures Directive(s + b, x + y) == Some(ExtendPiece(Directive(s, x).value, b, y))
  {
    var p := ReadSpec(s, x).value;
    SpecLocal(s, x, b, y);
    LengthLocal(p, b, y);
    ConvertLocal(ReadLength(p), b, y);
  }

  /**
   Printing is a homomorphism: a complete format followed by another prints what the first prints,
   followed by what the second prints from the arguments that are left.
   */
  lemma {:induction false} FormatConcat(a: string, x: seq<Arg>, b: string, y: seq<Arg>)
    requires Format(a, x).Some?
    ensures Format(a + b, x + y) == Prepend(Format(a, x).value.text, Format(b, Format(a, x).value.args + y))
    decreases |a|
  {
    hide NextPiece;
    if a == "" {
      assert a + b == b;
      PrependTwice("", "", Format(b, x + y));
    } else {
      var p := NextPiece(a, x).value;
      NextPieceLocal(a, x, b, y);
      FormatConcat(p.rest, p.args, b, y);
      var t := Format(p.rest, p.args).value;
      PrependTwice(p.text, t.text, Format(b, t.args + y));
    }
  }

  lemma PrependTwice(s: string, t: string, r: Option<Piece>)
    ensures Prepend(s, Prepend(t, r)) == Prepend(s + t, r)
    ensures Prepend("", r) == r
  {
    if r.Some? {
      assert s + (t + r.value.text) == (s + t) + r.value.text;
      assert "" + r.value.text == r.value.text;
    }
  }

  lemma {:induction false} NextPieceLocal(s: string, x: seq<Arg>, b: string, y: seq<Arg>)
    requires s != "" && NextPiece(s, x).Some?
    ensures NextPiece(s + b, x + y) == Some(ExtendPiece(NextPiece(s, x).value, b, y))
  {
    hide Directive;
    assert (s + b)[1..] == s[1..] + b;
    if s[0] == '%' { DirectiveLocal(s[1..], x, b, y); }
  }

  // ----- Numbers read back

  lemma IntValueInRange(c: char, f: Flags, a: Arg)
    requires IsInteger(c) && IntValue(c, f, a).Some? && (c == 'b' ==> !f.longlong)
    ensures InRange(Abs(IntValue(c, f, a).value), Base(c))
    ensures !IsSigned(c) ==> IntValue(c, f, a).value >= 0
  {}

  /**
   Every integer conversion without '#', at every width and precision below 32, prints a field that
   reads back as the number passed, of length max(width, digits + sign). Only binary output of a
   long long, which can need more than 32 digits, is excluded.
   */
  lemma {:induction false} ConversionReadsBack(c: char, p: Parsed, a: Arg)
    requires IsInteger(c) && IntValue(c, p.f, a).Some? && (c == 'b' ==> !p.f.longlong)
    requires (p.f.hash ==> Base(c) == 10) && p.prec < 32 && p.width < 32
    ensures var v, t := IntValue(c, p.f, a).value, ConvertArg(c, p.f, p.width, p.prec, a);
      && t.Some?
      && ReadNumber(t.value, Base(c)) == (v < 0, Abs(v))
      && |t.value| == Max(p.width, PlainDigits(Abs(v), Base(c), p.prec, p.f) + SignLen(v < 0, IntFlags(c, p.f)))
  {
    var f := IntFlags(c, p.f);
    assert IntValue(c, f, a) == IntValue(c, p.f, a);
    var v := IntValue(c, f, a).value;
    IntValueInRange(c, f, a);
    RangeIsRoomy(Abs(v), v < 0, Base(c), p.prec, p.width, f);
    FieldReadsBack(Abs(v), v < 0, Base(c), p.prec, p.width, f);
    SamePlainDigits(c, p.f, Abs(v), p.prec);
  }

  lemma SamePlainDigits(c: char, f: Flags, v: nat, prec: nat)
    ensures PlainDigits(v, Base(c), prec, IntFlags(c, f)) == PlainDigits(v, Base(c), prec, f)
  {}

  lemma WrapStep(acc: nat, d: nat)
    ensures U16(U16(acc) * 10 + d) == U16(acc * 10 + d)
  {
    assert acc * 10 + d == U16(acc) * 10 + d + 0x1_0000 * (10 * (acc / 0x1_0000));
  }

  /** _atoi computes the leading number modulo 2^16. */
  lemma {:induction false} AtoiIsDigits(s: string, acc: nat)
    ensures Atoi(s, U16(acc)).0 == U16(Digits(s, 10, acc))
    decreases |s|
  {
    if s != "" && IsDecimal(s[0]) {
      var d := DigitValue(s[0]);
      WrapStep(acc, d);
      AtoiIsDigits(s[1..], acc * 10 + d);
    }
  }

  /** _atoi inverts the unsigned decimal conversion when no blanks come first. */
  lemma {:induction false} AtoiInverts(value: nat, prec: nat, width: nat, f: Flags)
    requires InRange(value, 10) && !f.hash && !Signed(false, f) && prec < 32 && width < 32
    requires f.left || f.zeropad || width <= Max(OwnDigits(value, 10, f), prec)
    ensures Atoi(Field(value, false, 10, prec, width, f), 0).0 == U16(value)
  {
    var t := Field(value, false, 10, prec, width, f);
    AtoiIsDigits(t, 0);
    RangeIsRoomy(value, false, 10, prec, width, f);
    FieldParts(value, false, 10, prec, width, f);
    ZerosAreDigits(value, false, 10, prec, width, f);
    RevDigitsCount(value, 10, f.upper, BUFFER_SIZE);
    var ds := Zeros(DigitBuffer(value, 10, f), false, prec, width, f);
    var n := Trail(|ds|, false, width, f);
    assert t == Reverse(ds) + Repeat(' ', n);
    ReverseDigits(ds, 10);
    DigitsStop(Reverse(ds), Repeat(' ', n), 10, 0);
  }

  /** size_t is read as long long: "%zu" of a 16-bit size has no defined meaning. */
  lemma {:induction false} SizeModifierNeedsQuad(p: Parsed)
    requires WideModifier(First(p.rest)) && |p.rest| > 1 && IsInteger(p.rest[1]) && p.args != []
    ensures Convert(ReadLength(p)).Some? <==> p.args[0].Quad?
  {
    assert ReadLength(p).rest[0] == p.rest[1];
  }
}
