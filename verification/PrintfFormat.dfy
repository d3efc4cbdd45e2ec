/**
 The format language of _vsnprintf in libc/printf.c: what a format and its arguments print, apart
 from any buffer. None stands for what the language leaves undefined: an argument that is missing
 or of another type, and a format that ends inside a directive.
 */
module PrintfFormat {
  import opened Bits
  import opened Options
  import opened PrintfInt

  type Bits16 = x: nat | x < 0x1_0000
  type Bits32 = x: nat | x < 0x1_0000_0000
  type Bits64 = x: nat | x < 0x1_0000_0000_0000_0000
  type CString = s: string | NUL !in s && |s| < 0x1_0000

  /** An argument as it lies in the va_list. */
  datatype Arg =
    | Word(w: Bits16)        // int, unsigned int
    | Long(l: Bits32)
    | Quad(q: Bits64)        // long long
    | Text(s: CString)
    | Pointer(p: Bits16)

  datatype Parsed = Parsed(f: Flags, width: nat, prec: nat, rest: string, args: seq<Arg>)

  const NUL: char := '\0'

  function First(s: string): char { if s == "" then NUL else s[0] }

  function TwosComplement(x: nat, half: nat): int { if x < half then x else x - 2 * half }

  // ----- Parsing

  predicate IsFlag(c: char) { c == '0' || c == '-' || c == '+' || c == ' ' || c == '#' }

  function SetFlag(f: Flags, c: char): Flags {
    match c
    case '0' => f.(zeropad := true)
    case '-' => f.(left := true)
    case '+' => f.(plus := true)
    case ' ' => f.(space := true)
    case _ => f.(hash := true)
  }

  function ReadFlags(s: string, f: Flags): (r: (Flags, string))
    ensures |r.1| <= |s|
  {
    if s != "" && IsFlag(s[0]) then ReadFlags(s[1..], SetFlag(f, s[0])) else (f, s)
  }

  predicate IsDecimal(c: char) { '0' <= c <= '9' }

  /** _atoi: the leading decimal digits in 16-bit arithmetic, and what follows them. */
  function Atoi(s: string, acc: Bits16): (r: (Bits16, string))
    ensures |r.1| <= |s|
    ensures s != "" && IsDecimal(s[0]) ==> |r.1| < |s|
  {
    if s != "" && IsDecimal(s[0]) then Atoi(s[1..], U16(acc * 10 + DigitValue(s[0]))) else (acc, s)
  }

  function ReadWidth(f: Flags, s: string, args: seq<Arg>): (r: Option<Parsed>)
    ensures r.Some? ==> |r.value.rest| <= |s| && |r.value.args| <= |args|
  {
    if IsDecimal(First(s)) then Some(Parsed(f, Atoi(s, 0).0, 0, Atoi(s, 0).1, args))
    else if First(s) != '*' then Some(Parsed(f, 0, 0, s, args))
    else if args == [] || !args[0].Word? then None
    else
      var w := TwosComplement(args[0].w, 0x8000);
      Some(Parsed(if w < 0 then f.(left := true) else f, U16(if w < 0 then -w else w), 0, s[1..], args[1..]))
  }

  function ReadPrecision(p: Parsed): (r: Option<Parsed>)
    ensures r.Some? ==> |r.value.rest| <= |p.rest| && |r.value.args| <= |p.args|
  {
    if First(p.rest) != '.' then Some(p)
    else
      var f, s := p.f.(precision := true), p.rest[1..];
      if IsDecimal(First(s)) then Some(p.(f := f, prec := Atoi(s, 0).0, rest := Atoi(s, 0).1))
      else if First(s) != '*' then Some(p.(f := f, rest := s))
      else if p.args == [] || !p.args[0].Word? then None
      else Some(p.(f := f, prec := Max(0, TwosComplement(p.args[0].w, 0x8000)), rest := s[1..], args := p.args[1..]))
  }

  predicate WideModifier(c: char) { c == 't' || c == 'j' || c == 'z' }

  /** Length modifiers. int, ptrdiff_t and size_t have 16 bits, so 't', 'j' and 'z' all mean long long. */
  function LengthFlags(f: Flags, c: char, d: char): (r: (Flags, nat))
    ensures r.1 >= 1 ==> c != NUL
    ensures r.1 <= 2 && (r.1 == 2 ==> d != NUL)
  {
    if c == 'l' then
      if d == 'l' then (f.(long := true, longlong := true), 2) else (f.(long := true), 1)
    else if c == 'h' then
      if d == 'h' then (f.(short := true, char_ := true), 2) else (f.(short := true), 1)
    else if WideModifier(c) then (f.(longlong := true), 1)
    else (f, 0)
  }

  function Second(s: string): char { if |s| < 2 then NUL else s[1] }

  function ReadLength(p: Parsed): (r: Parsed)
    ensures |r.rest| <= |p.rest| && r.args == p.args
  {
    var (f, n) := LengthFlags(p.f, First(p.rest), Second(p.rest));
    p.(f := f, rest := p.rest[n..])
  }

  // ----- Converting

  predicate IsInteger(c: char) { IsSigned(c) || c == 'u' || c == 'x' || c == 'X' || c == 'o' || c == 'b' }
  predicate IsSigned(c: char) { c == 'd' || c == 'i' }

  function Base(c: char): (b: nat)
    ensures IsBase(b)
  {
    if c == 'x' || c == 'X' then 16 else if c == 'o' then 8 else if c == 'b' then 2 else 10
  }

  function IntFlags(c: char, f: Flags): Flags {
    f.(hash := f.hash && Base(c) != 10,
       upper := f.upper || c == 'X',
       plus := f.plus && IsSigned(c),
       space := f.space && IsSigned(c),
       zeropad := f.zeropad && !f.precision)
  }

  /** The number an argument stands for under an integer conversion. */
  function IntValue(c: char, f: Flags, a: Arg): Option<int> {
    if f.longlong then
      if !a.Quad? then None else Some(if IsSigned(c) then TwosComplement(a.q, 0x8000_0000_0000_0000) else a.q)
    else if f.long then
      if !a.Long? then None else Some(if IsSigned(c) then TwosComplement(a.l, 0x8000_0000) else a.l)
    else if !a.Word? then None
    else if f.char_ then Some(if IsSigned(c) then TwosComplement(a.w % 0x100, 0x80) else a.w % 0x100)
    else Some(if IsSigned(c) then TwosComplement(a.w, 0x8000) else a.w)
  }

  function Abs(x: int): nat { if x < 0 then -x else x }

  /** Blanks to the width around a text of l counted characters. */
  function Justify(t: string, l: nat, width: nat, left: bool): string {
    if left then t + Repeat(' ', width - l) else Repeat(' ', width - l) + t
  }

  /** The characters %s prints. */
  function Shown(t: string, f: Flags, prec: nat): string { if f.precision then t[..Min(prec, |t|)] else t }

  predicate TakesArg(c: char) { IsInteger(c) || c == 'c' || c == 's' || c == 'p' }

  /** The text of one argument. */
  function ConvertArg(c: char, f: Flags, width: nat, prec: nat, a: Arg): Option<string>
    requires TakesArg(c)
  {
    if IsInteger(c) then
      var v := IntValue(c, IntFlags(c, f), a);
      if v.None? then None
      else Some(Field(Abs(v.value), v.value < 0, Base(c), prec, width, IntFlags(c, f)))
    else if c == 'c' then
      if a.Word? then Some(Justify([(a.w % 0x100) as char], 1, width, f.left)) else None
    else if c == 's' then
      if a.Text? then
        var t := Shown(a.s, f, prec);
        Some(Justify(t, |t|, width, f.left))
      else None
    else if a.Pointer? then Some(Field(a.p, false, 16, prec, 4, f.(zeropad := true, upper := true)))
    else None
  }

  datatype Piece = Piece(text: string, rest: string, args: seq<Arg>)

  function Convert(p: Parsed): (r: Option<Piece>)
    ensures r.Some? ==> |r.value.rest| < |p.rest|
  {
    if p.rest == "" then None
    else
      var c, rest := p.rest[0], p.rest[1..];
      if !TakesArg(c) then Some(Piece([c], rest, p.args))
      else if p.args == [] then None
      else
        var t := ConvertArg(c, p.f, p.width, p.prec, p.args[0]);
        if t.None? then None else Some(Piece(t.value, rest, p.args[1..]))
  }

  /** Flags, width and precision of a directive. */
  function ReadSpec(s: string, args: seq<Arg>): (r: Option<Parsed>)
    ensures r.Some? ==> |r.value.rest| <= |s|
  {
    var (f, s') := ReadFlags(s, NoFlags);
    var w := ReadWidth(f, s', args);
    if w.None? then None else ReadPrecision(w.value)
  }

  /** One directive, from the character after its '%'. */
  function Directive(s: string, args: seq<Arg>): (r: Option<Piece>)
    ensures r.Some? ==> |r.value.rest| < |s|
  {
    var p := ReadSpec(s, args);
    if p.None? then None else Convert(ReadLength(p.value))
  }

  function Prepend(t: string, r: Option<Piece>): Option<Piece> {
    if r.None? then None else Some(r.value.(text := t + r.value.text))
  }

  /** The first piece of a format that has something left: a plain character or a directive. */
  function NextPiece(s: string, args: seq<Arg>): (r: Option<Piece>)
    requires s != ""
    ensures r.Some? ==> |r.value.rest| < |s|
  {
    if s[0] == '%' then Directive(s[1..], args) else Some(Piece([s[0]], s[1..], args))
  }

  /** Everything a format prints, and the arguments it leaves. */
  function Format(s: string, args: seq<Arg>): (r: Option<Piece>)
    ensures r.Some? ==> r.value.rest == ""
    decreases |s|
  {
    if s == "" then Some(Piece("", "", args))
    else
      var p := NextPiece(s, args);
      if p.None? then None else Prepend(p.value.text, Format(p.value.rest, p.value.args))
  }
}
