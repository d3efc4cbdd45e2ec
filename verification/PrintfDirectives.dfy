/**
 Directives as a program writes them: flags, width, precision, length modifier and conversion
 character, what each of them means, and the text that comes out.
 */
module PrintfDirectives {
  import opened Bits
  import opened Options
  import opened PrintfInt
  import opened PrintfFormat
  import opened PrintfLaws
  import opened PrintfReference

  predicate FlagLetter(c: char) { c == '0' || c == '-' || c == '+' || c == ' ' || c == '#' }
  predicate LengthLetter(c: char) { c == 'l' || c == 'h' || c == 't' || c == 'j' || c == 'z' }
  predicate SignedLetter(c: char) { c == 'd' || c == 'i' }
  predicate DecimalLetter(c: char) { SignedLetter(c) || c == 'u' }
  predicate IntegerLetter(c: char) { DecimalLetter(c) || c == 'x' || c == 'X' || c == 'o' || c == 'b' }

  /** A width or a precision: nothing, a decimal number, or '*' and the int passed for it. */
  datatype Amount = Absent | Written(n: nat) | Starred(v: int)

  /** What stands between the '%' and the conversion character. */
  datatype Spec = Spec(flags: string, width: Amount, dot: bool, prec: Amount, length: string)

  predicate AmountOk(a: Amount) {
    match a
    case Absent => true
    case Written(n) => n < 0x1_0000
    case Starred(n) => -0x8000 <= n < 0x8000
  }

  predicate LengthOk(m: string) {
    m == "" || m == "l" || m == "ll" || m == "h" || m == "hh" || m == "t" || m == "j" || m == "z"
  }

  predicate SpecOk(s: Spec) {
    && (forall i :: 0 <= i < |s.flags| ==> FlagLetter(s.flags[i]))
    && AmountOk(s.width) && (s.width.Written? ==> s.width.n > 0)
    && AmountOk(s.prec) && (!s.dot ==> s.prec.Absent?)
    && LengthOk(s.length)
  }

  function AmountText(a: Amount): string {
    match a
    case Absent => ""
    case Written(n) => Numeral(n, 10, false)
    case Starred(_) => "*"
  }

  function AmountArgs(a: Amount): seq<Arg>
    requires AmountOk(a)
  {
    if a.Starred? then [Word(a.v % 0x1_0000)] else []
  }

  function SpecText(s: Spec): string {
    s.flags + (AmountText(s.width) + ((if s.dot then "." else "") + (AmountText(s.prec) + s.length)))
  }

  /** As a width: a negative number passed for '*' counts by its magnitude. */
  function AsWidth(a: Amount): nat {
    match a
    case Absent => 0
    case Written(n) => n
    case Starred(v) => if v < 0 then -v else v
  }

  /** As a precision: no number, or a negative one passed for '*', is zero. */
  function AsPrecision(a: Amount): nat {
    match a
    case Absent => 0
    case Written(n) => n
    case Starred(v) => if v < 0 then 0 else v
  }

  function WidthOf(s: Spec): nat { AsWidth(s.width) }

  function PrecOf(s: Spec): nat { AsPrecision(s.prec) }

  /** A negative width justifies to the left. */
  function Turned(f: Flags, width: Amount): Flags {
    f.(left := f.left || (width.Starred? && width.v < 0))
  }

  function Dotted(f: Flags, dot: bool): Flags { f.(precision := f.precision || dot) }

  function Wide(m: string): bool { m == "ll" || m == "t" || m == "j" || m == "z" }

  function Meant(s: Spec): Flags {
    Flags(
      zeropad := '0' in s.flags,
      left := '-' in s.flags || (s.width.Starred? && s.width.v < 0),
      plus := '+' in s.flags,
      space := ' ' in s.flags,
      hash := '#' in s.flags,
      upper := false,
      char_ := s.length == "hh",
      short := s.length == "h" || s.length == "hh",
      long := s.length == "l" || s.length == "ll",
      longlong := Wide(s.length),
      precision := s.dot)
  }

  // ----- Reading each part

  function AddFlags(f: Flags, zero: bool, minus: bool, plus: bool, space: bool, hash: bool): Flags {
    f.(zeropad := f.zeropad || zero, left := f.left || minus, plus := f.plus || plus,
       space := f.space || space, hash := f.hash || hash)
  }

  function WithFlags(f: Flags, t: string): Flags {
    AddFlags(f, '0' in t, '-' in t, '+' in t, ' ' in t, '#' in t)
  }

  lemma {:induction false} FlagsRead(t: string, rest: string, f: Flags)
    requires (forall i :: 0 <= i < |t| ==> FlagLetter(t[i])) && rest != "" && !FlagLetter(rest[0])
    ensures ReadFlags(t + rest, f) == (WithFlags(f, t), rest)
    decreases |t|
  {
    var u := t + rest;
    hide SetFlag, WithFlags;
    if t == "" {
      assert u == rest;
      NoneAdded(f);
    } else {
      assert u[0] == t[0] && u[1..] == t[1..] + rest && t == [t[0]] + t[1..];
      OneFlag(f, t[0], t[1..]);
      FlagsRead(t[1..], rest, SetFlag(f, t[0]));
      hide FlagLetter;
    }
  }

  lemma NoneAdded(f: Flags)
    ensures WithFlags(f, "") == f
  {}

  lemma OneFlag(f: Flags, c: char, t: string)
    requires FlagLetter(c)
    ensures WithFlags(SetFlag(f, c), t) == WithFlags(f, [c] + t)
  {
    InCons('0', c, t);
    InCons('-', c, t);
    InCons('+', c, t);
    InCons(' ', c, t);
    InCons('#', c, t);
    assert SetFlag(f, c) == AddFlags(f, c == '0', c == '-', c == '+', c == ' ', c == '#');
  }

  lemma InCons(d: char, c: char, t: string)
    ensures d in [c] + t <==> d == c || d in t
  {}

  lemma {:induction false} AtoiOver(s: string, t: string, acc: Bits16)
    requires forall i :: 0 <= i < |s| ==> IsDecimal(s[i])
    ensures Atoi(s + t, acc) == Atoi(t, Atoi(s, acc).0)
    decreases |s|
  {
    if s == "" {
      assert s + t == t;
    } else {
      assert (s + t)[1..] == s[1..] + t;
      AtoiOver(s[1..], t, U16(acc * 10 + DigitValue(s[0])));
    }
  }

  lemma {:induction false} NumeralRead(n: nat, rest: string)
    requires n < 0x1_0000 && (rest == "" || !IsDecimal(rest[0]))
    ensures Atoi(Numeral(n, 10, false) + rest, 0) == (n, rest)
    ensures IsDecimal((Numeral(n, 10, false) + rest)[0])
  {
    hide Numeral, Digits, AllDigits, IsDecimal, Atoi;
    var t := Numeral(n, 10, false);
    NumeralDigits(n, 10, false);
    DecimalDigits(t);
    AtoiOver(t, rest, 0);
    AtoiIsDigits(t, 0);
    AtoiStops(rest, n);
    assert (t + rest)[0] == t[0];
  }

  lemma AtoiStops(rest: string, n: nat)
    requires n < 0x1_0000 && (rest == "" || !IsDecimal(rest[0]))
    ensures Atoi(rest, n) == (n, rest)
  {}

  lemma DecimalDigits(t: string)
    requires AllDigits(t, 10)
    ensures forall i :: 0 <= i < |t| ==> IsDecimal(t[i])
  {
    assert forall i :: 0 <= i < |t| ==> IsDigit(t[i], 10);
  }

  /** What may follow a width or a precision. */
  predicate Follows(rest: string) { rest != "" && !IsDecimal(rest[0]) && rest[0] != '*' }

  lemma {:induction false} WidthRead(a: Amount, rest: string, f: Flags, args: seq<Arg>)
    requires AmountOk(a) && Follows(rest)
    ensures ReadWidth(f, AmountText(a) + rest, AmountArgs(a) + args)
         == Some(Parsed(Turned(f, a), AsWidth(a), 0, rest, args))
  {
    var t := AmountText(a) + rest;
    match a {
      case Absent =>
        assert t == rest && AmountArgs(a) + args == args;
      case Written(n) =>
        NumeralRead(n, rest);
        assert AmountArgs(a) + args == args;
      case Starred(n) =>
        assert t[0] == '*' && t[1..] == rest && (AmountArgs(a) + args)[1..] == args;
        assert TwosComplement(n % 0x1_0000, 0x8000) == n;
    }
  }

  lemma {:induction false} PrecisionRead(dot: bool, a: Amount, rest: string, f: Flags, width: nat, args: seq<Arg>)
    requires AmountOk(a) && (!dot ==> a.Absent?) && Follows(rest) && (!dot ==> rest[0] != '.')
    ensures ReadPrecision(Parsed(f, width, 0, (if dot then "." else "") + (AmountText(a) + rest), AmountArgs(a) + args))
         == Some(Parsed(Dotted(f, dot), width, AsPrecision(a), rest, args))
  {
    var s := AmountText(a) + rest;
    if dot { assert ("." + s)[1..] == s; } else { assert "" + s == s; }
    match a {
      case Absent =>
        assert s == rest && AmountArgs(a) + args == args;
      case Written(n) =>
        NumeralRead(n, rest);
        assert AmountArgs(a) + args == args;
      case Starred(n) =>
        assert s[0] == '*' && s[1..] == rest && (AmountArgs(a) + args)[1..] == args;
        assert TwosComplement(n % 0x1_0000, 0x8000) == n;
    }
  }

  /** A character that is part of no flag, number or length modifier. */
  predicate Ends(c: char) { !FlagLetter(c) && !IsDecimal(c) && c != '*' && c != '.' && !LengthLetter(c) }

  function WithLength(f: Flags, m: string): Flags {
    f.(char_ := f.char_ || m == "hh", short := f.short || m == "h" || m == "hh",
       long := f.long || m == "l" || m == "ll", longlong := f.longlong || Wide(m))
  }

  lemma {:induction false} LengthRead(m: string, c: char, p: Parsed)
    requires LengthOk(m) && Ends(c) && p.rest == m + [c]
    ensures ReadLength(p) == p.(f := WithLength(p.f, m), rest := [c])
  {
    assert p.rest[|m|..] == [c];
    if m == "" { assert p.rest == [c]; }
  }

  lemma {:induction false} WidthStarts(a: Amount, rest: string)
    requires AmountOk(a) && (a.Written? ==> a.n > 0) && rest != "" && !FlagLetter(rest[0])
    ensures AmountText(a) + rest != "" && !FlagLetter((AmountText(a) + rest)[0])
  {
    match a {
      case Absent => assert "" + rest == rest;
      case Written(n) =>
        NumeralStart(n, 10, false);
        NumeralRead(n, "");
        assert Numeral(n, 10, false) + "" == Numeral(n, 10, false);
      case Starred(_) =>
    }
  }

  lemma TextParts(a: string, b: string, c: string, d: string, e: string, tail: string)
    ensures a + (b + (c + (d + e))) + tail == a + (b + (c + (d + (e + tail))))
  {}

  lemma ArgParts(a: seq<Arg>, b: seq<Arg>, c: seq<Arg>)
    ensures a + b + c == a + (b + c)
  {}

  function SpecArgs(s: Spec): seq<Arg>
    requires SpecOk(s)
  {
    AmountArgs(s.width) + AmountArgs(s.prec)
  }

  lemma {:induction false} SpecReads(s: Spec, tail: string, args: seq<Arg>)
    requires SpecOk(s) && Follows(tail) && !FlagLetter(tail[0]) && tail[0] != '.'
    ensures ReadSpec(s.flags + (AmountText(s.width) + ((if s.dot then "." else "") + (AmountText(s.prec) + tail))),
                     AmountArgs(s.width) + (AmountArgs(s.prec) + args))
         == Some(Parsed(Meant(s.(length := "")), WidthOf(s), PrecOf(s), tail, args))
  {
    var t2 := (if s.dot then "." else "") + (AmountText(s.prec) + tail);
    var a2 := AmountArgs(s.prec) + args;
    PrecisionStarts(s, tail);
    WidthStarts(s.width, t2);
    FlagsRead(s.flags, AmountText(s.width) + t2, NoFlags);
    var f1 := WithFlags(NoFlags, s.flags);
    var f2 := Turned(f1, s.width);
    WidthRead(s.width, t2, f1, a2);
    PrecisionRead(s.dot, s.prec, tail, f2, WidthOf(s), args);
    SpecMeant(s);
    hide ReadFlags, ReadWidth, ReadPrecision, AmountText, AmountArgs, Follows, WithFlags, Meant, SpecOk, ReadSpec;
    hide Turned, Dotted, AsWidth, AsPrecision;
    var w := Parsed(f2, WidthOf(s), 0, t2, a2);
    var r := Parsed(Meant(s.(length := "")), WidthOf(s), PrecOf(s), tail, args);
    ReadInOrder(s.flags + (AmountText(s.width) + t2), AmountArgs(s.width) + a2, f1, AmountText(s.width) + t2, w, r);
  }

  lemma ReadInOrder(s: string, args: seq<Arg>, f: Flags, rest: string, w: Parsed, r: Parsed)
    requires ReadFlags(s, NoFlags) == (f, rest) && ReadWidth(f, rest, args) == Some(w) && ReadPrecision(w) == Some(r)
    ensures ReadSpec(s, args) == Some(r)
  {}

  lemma {:induction false} PrecisionStarts(s: Spec, tail: string)
    requires SpecOk(s) && Follows(tail) && !FlagLetter(tail[0]) && tail[0] != '.'
    ensures var t2 := (if s.dot then "." else "") + (AmountText(s.prec) + tail);
      Follows(t2) && !FlagLetter(t2[0])
  {
    if !s.dot { assert "" + (AmountText(s.prec) + tail) == tail; }
  }

  lemma SpecMeant(s: Spec)
    ensures Dotted(Turned(WithFlags(NoFlags, s.flags), s.width), s.dot) == Meant(s.(length := ""))
  {}

  lemma LengthMeant(s: Spec)
    ensures WithLength(Meant(s.(length := "")), s.length) == Meant(s)
  {}

  /** Every part of a directive is read as it is meant, and the conversion sees what is left. */
  lemma {:induction false} DirectiveReads(s: Spec, c: char, args: seq<Arg>)
    requires SpecOk(s) && Ends(c)
    ensures Directive(SpecText(s) + [c], SpecArgs(s) + args)
         == Convert(Parsed(Meant(s), WidthOf(s), PrecOf(s), [c], args))
  {
    var tail := s.length + [c];
    TextParts(s.flags, AmountText(s.width), if s.dot then "." else "", AmountText(s.prec), s.length, [c]);
    ArgParts(AmountArgs(s.width), AmountArgs(s.prec), args);
    assert Follows(tail) && !FlagLetter(tail[0]) && tail[0] != '.';
    SpecReads(s, tail, args);
    hide ReadSpec, ReadLength, Convert, AmountText, AmountArgs, Follows, FlagLetter, Ends, Meant;
    LengthRead(s.length, c, Parsed(Meant(s.(length := "")), WidthOf(s), PrecOf(s), tail, args));
    LengthMeant(s);
  }

  /** A format that is one directive. */
  lemma {:induction false} FormatOfDirective(s: Spec, c: char, args: seq<Arg>, text: string, left: seq<Arg>)
    requires SpecOk(s) && Ends(c)
    requires Convert(Parsed(Meant(s), WidthOf(s), PrecOf(s), [c], args)) == Some(Piece(text, "", left))
    ensures Format("%" + (SpecText(s) + [c]), SpecArgs(s) + args) == Some(Piece(text, "", left))
  {
    var t := SpecText(s) + [c];
    DirectiveReads(s, c, args);
    assert ("%" + t)[1..] == t && ("%" + t)[0] == '%';
    hide Directive, SpecText;
    assert Format("", left) == Some(Piece("", "", left));
    assert text + "" == text;
  }

  // ----- What each conversion prints

  /** The number v is passed as argument a for a conversion with length modifier m. */
  predicate Passed(c: char, m: string, v: int, a: Arg) {
    if c == 'd' || c == 'i' then
      if m == "hh" then -0x80 <= v < 0x80 && a.Word? && (a.w - v) % 0x100 == 0
      else if m == "" || m == "h" then -0x8000 <= v < 0x8000 && a == Word(v % 0x1_0000)
      else if m == "l" then -0x8000_0000 <= v < 0x8000_0000 && a == Long(v % 0x1_0000_0000)
      else -0x8000_0000_0000_0000 <= v < 0x8000_0000_0000_0000 && a == Quad(v % 0x1_0000_0000_0000_0000)
    else
      if m == "hh" then 0 <= v < 0x100 && a.Word? && (a.w - v) % 0x100 == 0
      else if m == "" || m == "h" then 0 <= v < 0x1_0000 && a == Word(v)
      else if m == "l" then 0 <= v < 0x1_0000_0000 && a == Long(v)
      else 0 <= v < 0x1_0000_0000_0000_0000 && a == Quad(v)
  }

  /** 16 for 'x' and 'X', 8 for 'o', 2 for 'b', 10 for 'd', 'i' and 'u'. */
  function Radix(c: char): (base: nat)
    requires IntegerLetter(c)
    ensures base == 2 || base == 8 || base == 10 || base == 16
  {
    match c
    case 'o' => 8
    case 'b' => 2
    case 'd' => 10
    case 'i' => 10
    case 'u' => 10
    case _ => 16
  }

  /** The flags that count: '#' for all but decimal, '+' and ' ' for signed ones, '0' without a precision. */
  function Counting(s: Spec, c: char): Flags {
    Meant(s).(
      hash := '#' in s.flags && !DecimalLetter(c),
      upper := c == 'X',
      plus := '+' in s.flags && SignedLetter(c),
      space := ' ' in s.flags && SignedLetter(c),
      zeropad := '0' in s.flags && !s.dot)
  }

  /** The number a conversion finds in its argument is the one passed. */
  lemma ValueIsPassed(s: Spec, c: char, v: int, a: Arg)
    requires SpecOk(s) && IntegerLetter(c)
    ensures IntValue(c, Counting(s, c), a) == Some(v) <==> Passed(c, s.length, v, a)
  {
    LengthOfFlags(s, c);
    hide Counting, SpecOk;
    if a.Word? { SignedWord(v, a); }
    if a.Long? { SignedLong(v, a); }
    if a.Quad? { SignedQuad(v, a); }
    hide TwosComplement;
  }

  lemma LengthOfFlags(s: Spec, c: char)
    requires SpecOk(s)
    ensures LengthOk(s.length)
    ensures var f := Counting(s, c);
      && (f.longlong <==> Wide(s.length))
      && (!f.longlong ==> (f.long <==> s.length == "l"))
      && (!f.longlong && !f.long ==> (f.char_ <==> s.length == "hh"))
  {}

  lemma SignedWord(v: int, a: Arg)
    requires a.Word?
    ensures TwosComplement(a.w, 0x8000) == v <==> -0x8000 <= v < 0x8000 && a == Word(v % 0x1_0000)
    ensures TwosComplement(a.w % 0x100, 0x80) == v <==> -0x80 <= v < 0x80 && (a.w - v) % 0x100 == 0
  {}

  lemma SignedLong(v: int, a: Arg)
    requires a.Long?
    ensures TwosComplement(a.l, 0x8000_0000) == v <==> -0x8000_0000 <= v < 0x8000_0000 && a == Long(v % 0x1_0000_0000)
  {}

  lemma SignedQuad(v: int, a: Arg)
    requires a.Quad?
    ensures TwosComplement(a.q, 0x8000_0000_0000_0000) == v <==>
            -0x8000_0000_0000_0000 <= v < 0x8000_0000_0000_0000 && a == Quad(v % 0x1_0000_0000_0000_0000)
  {}

  lemma FlagsCount(s: Spec, c: char)
    requires IntegerLetter(c)
    ensures IntFlags(c, Meant(s)) == Counting(s, c) && Base(c) == Radix(c) && IsInteger(c) && Ends(c)
  {}

  lemma {:induction false} ConvertInteger(c: char, p: Parsed, v: int, a: Arg)
    requires IsInteger(c) && p.rest == [c] && p.args == [a] && IntValue(c, IntFlags(c, p.f), a) == Some(v)
    ensures Convert(p) == Some(Piece(Field(Magnitude(v), v < 0, Base(c), p.prec, p.width, IntFlags(c, p.f)), "", []))
  {
    assert p.rest[1..] == "" && p.args[1..] == [];
    hide Field, IntValue, IntFlags, Base;
  }

  /** Main result: the whole text of every integer directive, from the number passed. */
  lemma {:induction false} IntegerPrints(s: Spec, c: char, v: int, a: Arg)
    requires SpecOk(s) && IntegerLetter(c) && Passed(c, s.length, v, a)
    ensures Format("%" + (SpecText(s) + [c]), SpecArgs(s) + [a])
         == Some(Piece(Field(Magnitude(v), v < 0, Radix(c), PrecOf(s), WidthOf(s), Counting(s, c)), "", []))
  {
    FlagsCount(s, c);
    ValueIsPassed(s, c, v, a);
    hide Passed, Field, IntFlags, IntValue, Meant, Counting;
    ConvertInteger(c, Parsed(Meant(s), WidthOf(s), PrecOf(s), [c], [a]), v, a);
    FormatOfDirective(s, c, [a], Field(Magnitude(v), v < 0, Radix(c), PrecOf(s), WidthOf(s), Counting(s, c)), []);
  }

  /** Without '#', or with it in decimal, and with room in the buffer, that text is the number rendered. */
  lemma {:induction false} IntegerIsRendered(s: Spec, c: char, v: int, a: Arg)
    requires SpecOk(s) && IntegerLetter(c) && Passed(c, s.length, v, a)
    requires '#' !in s.flags || DecimalLetter(c)
    requires Roomy(Magnitude(v), v < 0, Radix(c), PrecOf(s), WidthOf(s), Counting(s, c))
    ensures Format("%" + (SpecText(s) + [c]), SpecArgs(s) + [a])
         == Some(Piece(Rendered(v, Radix(c), PrecOf(s), WidthOf(s), Counting(s, c)), "", []))
  {
    IntegerPrints(s, c, v, a);
    FieldIsRendered(v, Radix(c), PrecOf(s), WidthOf(s), Counting(s, c));
  }

  /** The plain directive: only a length modifier. */
  function Plain(m: string): Spec { Spec("", Absent, false, Absent, m) }

  lemma PlainText(m: string)
    requires LengthOk(m)
    ensures SpecOk(Plain(m)) && SpecText(Plain(m)) == m && SpecArgs(Plain(m)) == []
  {
    assert "" + m == m;
  }

  lemma {:induction false} PlainIsRoomy(m: string, c: char, v: int, a: Arg)
    requires LengthOk(m) && IntegerLetter(c) && Passed(c, m, v, a) && (c == 'b' ==> v < 0x1_0000_0000)
    ensures Roomy(Magnitude(v), v < 0, Radix(c), 0, 0, Counting(Plain(m), c))
  {
    RangeIsRoomy(Magnitude(v), v < 0, Radix(c), 0, 0, Counting(Plain(m), c));
  }

  /**
   "%x" and its kin, with any length modifier: the number passed, written in base 16 for 'x' and 'X',
   8 for 'o', 2 for 'b' and 10 for 'd', 'i' and 'u', after a '-' if it is negative. It reads back as
   that number.
   */
  lemma {:induction false} PlainPrints(m: string, c: char, v: int, a: Arg)
    requires LengthOk(m) && IntegerLetter(c) && Passed(c, m, v, a) && (c == 'b' ==> v < 0x1_0000_0000)
    ensures var base := if c == 'x' || c == 'X' then 16 else if c == 'o' then 8 else if c == 'b' then 2 else 10;
      var text := (if v < 0 then "-" else "") + Numeral(if v < 0 then -v else v, base, c == 'X');
      && Format("%" + (m + [c]), [a]) == Some(Piece(text, "", []))
      && ReadNumber(text, base) == (v < 0, if v < 0 then -v else v)
  {
    var base, f := Radix(c), Counting(Plain(m), c);
    PlainField(m, c, v, a);
    hide Passed, Format, ReadNumber, Numeral, Field, Roomy, Rendered, LengthOk;
    NothingAround(v, base, f);
    assert base == if c == 'x' || c == 'X' then 16 else if c == 'o' then 8 else if c == 'b' then 2 else 10;
    assert f.upper == (c == 'X');
    hide Radix, Counting;
  }

  lemma {:induction false} PlainField(m: string, c: char, v: int, a: Arg)
    requires LengthOk(m) && IntegerLetter(c) && Passed(c, m, v, a) && (c == 'b' ==> v < 0x1_0000_0000)
    ensures var base, f := Radix(c), Counting(Plain(m), c);
      && Format("%" + (m + [c]), [a]) == Some(Piece(Rendered(v, base, 0, 0, f), "", []))
      && ReadNumber(Rendered(v, base, 0, 0, f), base) == (v < 0, Magnitude(v))
  {
    var s, base := Plain(m), Radix(c);
    var f := Counting(s, c);
    PlainText(m);
    PlainIsRoomy(m, c, v, a);
    assert [] + [a] == [a];
    hide Passed, Format, ReadNumber, Numeral, Field, Roomy, Rendered, SpecText;
    IntegerIsRendered(s, c, v, a);
    FieldIsRendered(v, base, 0, 0, f);
    FieldReadsBack(Magnitude(v), v < 0, base, 0, 0, f);
  }

  lemma NothingAround(v: int, base: nat, f: Flags)
    requires IsBase(base) && !f.plus && !f.space && !f.precision && !f.zeropad && !f.left
    ensures Rendered(v, base, 0, 0, f) == (if v < 0 then "-" else "") + Numeral(Magnitude(v), base, f.upper)
  {
    hide Numeral;
    var n := Numeral(Magnitude(v), base, f.upper);
    assert ZeroFill(0 - |n|, n) == n;
    assert Repeat(' ', -|Sign(v, f)| - |n|) + Sign(v, f) == Sign(v, f);
  }

  /** %c: the character, with blanks to the width before it, or after it if left-justified. */
  lemma {:induction false} CharPrints(s: Spec, w: Bits16)
    requires SpecOk(s)
    ensures var ch, blanks := [(w % 0x100) as char], Repeat(' ', WidthOf(s) - 1);
      Format("%" + (SpecText(s) + "c"), SpecArgs(s) + [Word(w)])
      == Some(Piece(if Meant(s).left then ch + blanks else blanks + ch, "", []))
  {
    var p := Parsed(Meant(s), WidthOf(s), PrecOf(s), "c", [Word(w)]);
    assert p.rest[1..] == "" && p.args[1..] == [];
    hide Meant, SpecText, Format;
    FormatOfDirective(s, 'c', [Word(w)], Convert(p).value.text, []);
  }

  /** %s: the string, cut to the precision if there is one, with blanks to the width. */
  lemma {:induction false} StringPrints(s: Spec, t: CString)
    requires SpecOk(s)
    ensures var shown := if s.dot && PrecOf(s) < |t| then t[..PrecOf(s)] else t;
      var blanks := Repeat(' ', WidthOf(s) - |shown|);
      Format("%" + (SpecText(s) + "s"), SpecArgs(s) + [Text(t)])
      == Some(Piece(if Meant(s).left then shown + blanks else blanks + shown, "", []))
  {
    ConvertText(Meant(s), WidthOf(s), PrecOf(s), t);
    var shown := if s.dot && PrecOf(s) < |t| then t[..PrecOf(s)] else t;
    assert Meant(s).precision == s.dot;
    hide Meant, SpecText, Format, Convert, Justify, SpecOk, PrecOf, WidthOf;
    FormatOfDirective(s, 's', [Text(t)], Justify(shown, |shown|, WidthOf(s), Meant(s).left), []);
    Justified(shown, WidthOf(s), Meant(s).left);
  }

  lemma Justified(t: string, width: nat, left: bool)
    ensures var blanks := Repeat(' ', width - |t|);
      Justify(t, |t|, width, left) == if left then t + blanks else blanks + t
  {}

  lemma {:induction false} ConvertText(f: Flags, width: nat, prec: nat, t: CString)
    ensures var shown := if f.precision && prec < |t| then t[..prec] else t;
      Convert(Parsed(f, width, prec, "s", [Text(t)])) == Some(Piece(Justify(shown, |shown|, width, f.left), "", []))
  {
    assert "s"[1..] == "" && [Text(t)][1..] == [];
    assert t[..|t|] == t;
    assert Shown(t, f, prec) == if f.precision && prec < |t| then t[..prec] else t;
    hide Justify;
  }

  /** %p: upper-case hexadecimal with zeros to four digits, whatever the width; other flags still count. */
  lemma {:induction false} PointerPrints(s: Spec, q: Bits16)
    requires SpecOk(s) && '#' !in s.flags && PrecOf(s) < 32
    ensures Format("%" + (SpecText(s) + "p"), SpecArgs(s) + [Pointer(q)])
         == Some(Piece(Rendered(q, 16, PrecOf(s), 4, Meant(s).(zeropad := true, upper := true)), "", []))
  {
    var f := Meant(s).(zeropad := true, upper := true);
    RangeIsRoomy(q, false, 16, PrecOf(s), 4, f);
    FieldIsRendered(q, 16, PrecOf(s), 4, f);
    ConvertPointer(Meant(s), WidthOf(s), PrecOf(s), q);
    hide Meant, SpecText, Format, Field, Rendered, Convert, Roomy;
    FormatOfDirective(s, 'p', [Pointer(q)], Field(q, false, 16, PrecOf(s), 4, f), []);
  }

  lemma {:induction false} ConvertPointer(f: Flags, width: nat, prec: nat, q: Bits16)
    ensures Convert(Parsed(f, width, prec, "p", [Pointer(q)]))
         == Some(Piece(Field(q, false, 16, prec, 4, f.(zeropad := true, upper := true)), "", []))
  {
    hide Field;
    assert "p"[1..] == "" && [Pointer(q)][1..] == [];
  }

  /** Any other character prints itself and takes no argument: "%%" prints a percent sign. */
  lemma {:induction false} OtherPrints(s: Spec, c: char, args: seq<Arg>)
    requires SpecOk(s) && Ends(c) && !IntegerLetter(c) && c != 'c' && c != 's' && c != 'p'
    ensures Format("%" + (SpecText(s) + [c]), SpecArgs(s) + args) == Some(Piece([c], "", args))
  {
    hide Meant, SpecText, Format;
    FormatOfDirective(s, c, args, [c], args);
  }

  /** A format without '%' prints itself. */
  lemma {:induction false} PlainCharacters(t: string, args: seq<Arg>)
    requires '%' !in t
    ensures Format(t, args) == Some(Piece(t, "", args))
  {
    if t != "" {
      PlainCharacters(t[1..], args);
      assert [t[0]] + t[1..] == t;
    }
  }
}
