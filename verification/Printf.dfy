/**
 The output side of libc/printf.c: characters stored through a 16-bit index into a bounded buffer,
 the conversion routines, and _vsnprintf, proved to store exactly what PrintfFormat says is printed.
 */
module Printf {
  import opened Bits
  import opened Options
  import opened PrintfInt
  import opened PrintfFormat
  import opened PrintfLaws

  // ----- Storing a text

  /** _out_buffer. */
  function Store(mem: string, idx: nat, maxlen: nat, c: char): (r: string)
    ensures |r| == |mem|
  {
    if idx < maxlen && idx < |mem| then mem[idx := c] else mem
  }

  /** Memory after the characters of t, preceded by `at` others, are stored; the index wraps at 2^16. */
  function Emit(mem: string, at: nat, maxlen: nat, t: string): (r: string)
    ensures |r| == |mem|
    decreases |t|
  {
    if t == "" then mem
    else Store(Emit(mem, at, maxlen, t[..|t| - 1]), U16(at + |t| - 1), maxlen, t[|t| - 1])
  }

  lemma {:induction false} EmitSnoc(mem: string, at: nat, maxlen: nat, t: string, c: char)
    ensures Emit(mem, at, maxlen, t + [c]) == Store(Emit(mem, at, maxlen, t), U16(at + |t|), maxlen, c)
  {
    assert (t + [c])[..|t|] == t;
  }

  lemma {:induction false} EmitConcat(mem: string, at: nat, maxlen: nat, t: string, u: string)
    ensures Emit(Emit(mem, at, maxlen, t), at + |t|, maxlen, u) == Emit(mem, at, maxlen, t + u)
    decreases |u|
  {
    if u == "" {
      assert t + u == t;
    } else {
      var v, c := u[..|u| - 1], u[|u| - 1];
      EmitConcat(mem, at, maxlen, t, v);
      EmitSnoc(mem, at, maxlen, t + v, c);
      assert t + u == (t + v) + [c];
    }
  }

  /** Where the last character of an n-character text that lands on i comes from. */
  function LastAt(i: nat, n: nat): (j: nat)
    requires i < n && i < 0x1_0000
    ensures i <= j < n <= j + 0x1_0000 && j % 0x1_0000 == i
  {
    i + 0x1_0000 * ((n - 1 - i) / 0x1_0000)
  }

  /** Each stored character, for texts of every length. */
  lemma {:induction false} EmitAt(mem: string, maxlen: nat, t: string, i: nat)
    requires i < |mem| && maxlen < 0x1_0000
    ensures Emit(mem, 0, maxlen, t)[i] == if i < maxlen && i < |t| then t[LastAt(i, |t|)] else mem[i]
    decreases |t|
  {
    if t != "" {
      EmitAt(mem, maxlen, t[..|t| - 1], i);
      if i < maxlen && i < |t| { LastStep(i, |t|); }
    }
  }

  lemma LastStep(i: nat, n: nat)
    requires i < n && i < 0x1_0000
    ensures if U16(n - 1) == i then LastAt(i, n) == n - 1 else i < n - 1 && LastAt(i, n) == LastAt(i, n - 1)
  {}

  /** A text that does not wrap lies in memory from the start, as far as maxlen and memory go. */
  lemma {:induction false} EmitIsPrefix(mem: string, maxlen: nat, t: string)
    requires |t| <= 0x1_0000 && maxlen < 0x1_0000
    ensures var k := Min(|t|, Min(maxlen, |mem|)); Emit(mem, 0, maxlen, t) == t[..k] + mem[k..]
  {
    var r, k := Emit(mem, 0, maxlen, t), Min(|t|, Min(maxlen, |mem|));
    forall i | 0 <= i < |mem| ensures r[i] == (t[..k] + mem[k..])[i] {
      EmitAt(mem, maxlen, t, i);
    }
  }

  // ----- Filling the digit buffer

  /** Zeros up to n characters, within the buffer. */
  method PadZeros(buf: array<char>, len: nat, n: nat) returns (r: nat)
    requires len <= buf.Length == BUFFER_SIZE
    modifies buf
    ensures r <= BUFFER_SIZE && buf[..r] == PadTo(old(buf[..len]), n)
  {
    r := len;
    ghost var b := buf[..len];
    while r < n && r < BUFFER_SIZE
      invariant len <= r <= BUFFER_SIZE && (r <= n || r == len)
      invariant buf[..r] == b + Repeat('0', r - len)
    {
      buf[r] := '0';
      assert Repeat('0', r + 1 - len) == Repeat('0', r - len) + ['0'];
      r := r + 1;
    }
    assert Repeat('0', r - len) == Repeat('0', Min(n, BUFFER_SIZE) - len);
  }

  method Push(buf: array<char>, len: nat, c: char) returns (r: nat)
    requires len <= buf.Length == BUFFER_SIZE
    modifies buf
    ensures r <= BUFFER_SIZE && buf[..r] == Append(old(buf[..len]), c)
  {
    r := len;
    if len < BUFFER_SIZE {
      buf[len] := c;
      r := len + 1;
    }
  }

  /** The digits the loop still stores, with v left and room for so many. */
  ghost function Remaining(v: nat, base: nat, upper: bool, room: nat): string
    requires IsBase(base)
  {
    if v != 0 && room > 0 then RevDigits(v, base, upper, room) else ""
  }

  lemma {:induction false} DigitStep(v: nat, base: nat, upper: bool, room: nat, pre: string)
    requires IsBase(base) && room > 0
    ensures pre + [DigitChar(LastDigit(v, base), upper)] + Remaining(Quot(v, base), base, upper, room - 1)
         == pre + RevDigits(v, base, upper, room)
  {
    Assoc(pre, [DigitChar(LastDigit(v, base), upper)], Remaining(Quot(v, base), base, upper, room - 1));
  }

  lemma Assoc(a: string, b: string, c: string)
    ensures a + (b + c) == a + b + c
  {}

  /** The do-while loop of _ntoa_long and _ntoa_long_long. */
  method DigitLoop(value: nat, base: nat, upper: bool, buf: array<char>) returns (len: nat)
    requires IsBase(base) && buf.Length > 0
    modifies buf
    ensures len <= buf.Length && buf[..len] == RevDigits(value, base, upper, buf.Length)
  {
    var v: nat;
    len, v := StoreDigit(value, base, upper, buf, 0);
    ghost var all := RevDigits(value, base, upper, buf.Length);
    while v != 0 && len < buf.Length
      invariant len <= buf.Length
      invariant all == buf[..len] + Remaining(v, base, upper, buf.Length - len)
      decreases buf.Length - len
    {
      len, v := StoreDigit(v, base, upper, buf, len);
    }
    assert Remaining(v, base, upper, buf.Length - len) == "";
  }

  /** One turn of the loop. */
  method StoreDigit(v: nat, base: nat, upper: bool, buf: array<char>, len: nat) returns (len': nat, v': nat)
    requires IsBase(base) && len < buf.Length
    modifies buf
    ensures len' == len + 1
    ensures buf[..len'] + Remaining(v', base, upper, buf.Length - len')
         == old(buf[..len]) + RevDigits(v, base, upper, buf.Length - len)
  {
    DigitStep(v, base, upper, buf.Length - len, buf[..len]);
    var digit := DigitChar(LastDigit(v, base), upper);
    buf[len] := digit;
    len' := len + 1;
    v' := Quot(v, base);
    assert buf[..len'] == old(buf[..len]) + [digit];
  }

  /** _ntoa_long and _ntoa_long_long, up to the call of _ntoa_format. */
  method Digitize(value: nat, base: nat, f: Flags, buf: array<char>) returns (len: nat)
    requires IsBase(base) && buf.Length == BUFFER_SIZE
    modifies buf
    ensures len <= BUFFER_SIZE && buf[..len] == DigitBuffer(value, base, f)
  {
    len := 0;
    if !f.precision || value != 0 {
      len := DigitLoop(value, base, f.upper, buf);
    }
  }

  /** _ntoa_format up to the sign: zeros, then the '#' prefix over the last one or two characters. */
  method PadAndMark(buf: array<char>, len0: nat, negative: bool, base: nat, prec: nat, width: nat, f: Flags)
    returns (len: nat, w: nat)
    requires len0 <= buf.Length == BUFFER_SIZE
    modifies buf
    ensures len <= BUFFER_SIZE && w == FieldWidth(negative, width, f)
    ensures var z := Zeros(old(buf[..len0]), negative, prec, width, f);
      buf[..len] == if f.hash then HashMark(z, base, prec, w, f) else z
  {
    len, w := len0, width;
    if !f.left {
      if width != 0 && f.zeropad && (negative || f.plus || f.space) {
        w := width - 1;
      }
      len := PadZeros(buf, len, prec);
      if f.zeropad {
        len := PadZeros(buf, len, w);
      }
    }
    if f.hash {
      len := Mark(buf, len, base, prec, w, f);
    }
  }

  method Mark(buf: array<char>, len0: nat, base: nat, prec: nat, width: nat, f: Flags) returns (len: nat)
    requires len0 <= buf.Length == BUFFER_SIZE
    modifies buf
    ensures len <= BUFFER_SIZE && buf[..len] == HashMark(old(buf[..len0]), base, prec, width, f)
  {
    len := len0;
    if !f.precision && len != 0 && (len == prec || len == width) {
      len := len - 1;
      if len != 0 && base == 16 {
        len := len - 1;
      }
    }
    assert buf[..len] == buf[..len0][..len];
    if base == 16 && !f.upper {
      len := Push(buf, len, 'x');
    } else if base == 16 && f.upper {
      len := Push(buf, len, 'X');
    } else if base == 2 {
      len := Push(buf, len, 'b');
    }
    len := Push(buf, len, '0');
  }

  method Sign(buf: array<char>, len0: nat, negative: bool, f: Flags) returns (len: nat)
    requires len0 <= buf.Length == BUFFER_SIZE
    modifies buf
    ensures len <= BUFFER_SIZE && buf[..len] == SignMark(old(buf[..len0]), negative, f)
  {
    len := len0;
    if negative {
      len := Push(buf, len, '-');
    } else if f.plus {
      len := Push(buf, len, '+');
    } else if f.space {
      len := Push(buf, len, ' ');
    }
  }

  /** _ntoa_long and _ntoa_long_long down to the call of _out_rev. */
  method FillBuffer(buf: array<char>, value: nat, negative: bool, base: nat, prec: nat, width: nat, f: Flags)
    returns (len: nat, w: nat)
    requires IsBase(base) && buf.Length == BUFFER_SIZE
    modifies buf
    ensures len <= BUFFER_SIZE && w == FieldWidth(negative, width, f)
    ensures buf[..len] == FullBuffer(value, negative, base, prec, width, f)
  {
    var g := if value == 0 then f.(hash := false) else f;
    len := Digitize(value, base, g, buf);
    len, w := PadAndMark(buf, len, negative, base, prec, width, g);
    len := Sign(buf, len, negative, g);
    UnhashedFull(value, negative, base, prec, width, f, g);
  }

  lemma {:induction false} UnhashedFull(
      value: nat, negative: bool, base: nat, prec: nat, width: nat, f: Flags, g: Flags)
    requires IsBase(base) && g == if value == 0 then f.(hash := false) else f
    ensures FieldWidth(negative, width, f) == FieldWidth(negative, width, g)
    ensures var z := Zeros(DigitBuffer(value, base, g), negative, prec, width, g);
      var h := if g.hash then HashMark(z, base, prec, FieldWidth(negative, width, g), g) else z;
      SignMark(h, negative, g) == FullBuffer(value, negative, base, prec, width, f)
  {}

  // ----- The output

  /** What a possibly null buffer holds. */
  function Contents(buffer: array?<char>): string
    reads buffer
  {
    if buffer == null then "" else buffer[..]
  }

  /** The caller's obligation: room for maxlen characters, or at least for all that are stored. */
  predicate Room(buffer: array?<char>, maxlen: nat, end: nat) {
    buffer == null || maxlen <= buffer.Length || end <= buffer.Length
  }

  lemma Next(at: nat)
    ensures U16(U16(at) + 1) == U16(at + 1) && U16(at) <= at
  {}

  lemma Difference(at: nat, n: nat)
    requires n < 0x1_0000
    ensures U16(U16(at + n) - U16(at)) == n
  {}

  lemma ReverseStep(b: string, k: nat)
    requires 0 < k <= |b|
    ensures Reverse(b[k - 1..]) == Reverse(b[k..]) + [b[k - 1]]
  {
    assert b[k - 1..][1..] == b[k..];
  }

  lemma {:induction false} OutRevParts(b: string, width: nat, f: Flags)
    ensures f.left ==> OutRev(b, width, f) == Reverse(b) + Repeat(' ', width - |b|)
    ensures !f.left && f.zeropad ==> OutRev(b, width, f) == Repeat(' ', 0 - |b|) + Reverse(b)
    ensures !f.left && !f.zeropad ==> OutRev(b, width, f) == Repeat(' ', width - |b|) + Reverse(b)
  {}

  /** The buffer, its size and the index that _vsnprintf hands to every conversion. */
  class Sink {
    const buffer: array?<char>
    const maxlen: Bits16
    var idx: Bits16
    ghost var text: string       // everything given to Out
    ghost const was: string      // the buffer at the start

    ghost predicate Valid()
      reads this, buffer
    {
      idx == U16(|text|) && Contents(buffer) == Emit(was, 0, maxlen, text)
    }

    ghost predicate RoomFor(n: nat)
      reads this
    {
      Room(buffer, maxlen, |text| + n)
    }

    constructor (buffer: array?<char>, maxlen: Bits16)
      ensures Valid() && text == "" && was == Contents(buffer)
      ensures this.buffer == buffer && this.maxlen == maxlen
    {
      this.buffer, this.maxlen, idx := buffer, maxlen, 0;
      text, was := "", Contents(buffer);
    }

    /** out(c, buffer, idx++, maxlen). */
    method Out(c: char)
      requires Valid() && RoomFor(1)
      modifies this`idx, this`text, buffer
      ensures Valid() && text == old(text) + [c]
    {
      Next(|text|);
      EmitSnoc(was, 0, maxlen, text, c);
      if buffer != null && idx < maxlen {
        buffer[idx] := c;
      }
      idx, text := U16(idx + 1), text + [c];
    }

    /** Blanks while the count l is below the width. */
    method Blanks(l: Bits16, width: Bits16)
      requires Valid() && RoomFor(Max(0, width - l))
      modifies this`idx, this`text, buffer
      ensures Valid() && text == old(text) + Repeat(' ', width - l)
    {
      var i := l;
      ghost var t := "";
      while i < width
        invariant Valid() && l <= i <= Max(l, width)
        invariant |t| == i - l && forall k :: 0 <= k < |t| ==> t[k] == ' '
        invariant text == old(text) + t
      {
        Out(' ');
        t := t + [' '];
        i := i + 1;
      }
      assert t == Repeat(' ', width - l);
    }

    /** The first n characters of s. */
    method Chars(s: string, n: nat)
      requires Valid() && n <= |s| && RoomFor(n)
      modifies this`idx, this`text, buffer
      ensures Valid() && text == old(text) + s[..n]
    {
      for i := 0 to n
        invariant Valid() && text == old(text) + s[..i]
      {
        Out(s[i]);
        assert s[..i + 1] == s[..i] + [s[i]];
      }
    }

    method Reversed(buf: array<char>, len: nat)
      requires Valid() && len <= buf.Length && buffer != buf && RoomFor(len)
      modifies this`idx, this`text, buffer
      ensures Valid() && text == old(text) + Reverse(old(buf[..len]))
    {
      var k: nat := len;
      ghost var b, t := buf[..len], "";
      assert b[len..] == "";
      while k > 0
        invariant Valid() && k <= len && buf[..len] == b
        invariant t == Reverse(b[k..]) && text == old(text) + t
      {
        ReverseStep(b, k);
        k := k - 1;
        Out(buf[k]);
        t := t + [b[k]];
      }
      assert b[0..] == b;
    }

    /** _out_rev. */
    method OutField(buf: array<char>, len: Bits16, width: Bits16, f: Flags)
      requires Valid() && len <= buf.Length && buffer != buf && RoomFor(|OutRev(buf[..len], width, f)|)
      modifies this`idx, this`text, buffer
      ensures Valid() && text == old(text) + OutRev(old(buf[..len]), width, f)
    {
      OutRevParts(buf[..len], width, f);
      if f.left {
        OutLeft(buf, len, width);
      } else {
        OutRight(buf, len, if f.zeropad then 0 else width);
      }
    }

    /** _out_rev without '-': blanks, if any, come first. */
    method OutRight(buf: array<char>, len: Bits16, width: Bits16)
      requires Valid() && len <= buf.Length && buffer != buf
      requires RoomFor(Max(0, width - len) + len)
      modifies this`idx, this`text, buffer
      ensures Valid() && text == old(text) + (Repeat(' ', width - len) + Reverse(old(buf[..len])))
    {
      ghost var b := buf[..len];
      Blanks(len, width);
      Reversed(buf, len);
      Assoc(old(text), Repeat(' ', width - len), Reverse(b));
    }

    /** _out_rev with '-': blanks until the index has moved on by the width. */
    method OutLeft(buf: array<char>, len: Bits16, width: Bits16)
      requires Valid() && len <= buf.Length && buffer != buf
      requires RoomFor(Max(0, width - len) + len)
      modifies this`idx, this`text, buffer
      ensures Valid() && text == old(text) + (Reverse(old(buf[..len])) + Repeat(' ', width - len))
    {
      var start := idx;
      ghost var b := buf[..len];
      Reversed(buf, len);
      Difference(|old(text)|, len);
      Blanks(U16(idx - start), width);
      Assoc(old(text), Reverse(b), Repeat(' ', width - len));
    }

    /** _ntoa_long and _ntoa_long_long. */
    method Ntoa(value: nat, negative: bool, base: nat, prec: nat, width: Bits16, f: Flags)
      requires Valid() && IsBase(base) && RoomFor(|Field(value, negative, base, prec, width, f)|)
      modifies this`idx, this`text, buffer
      ensures Valid() && text == old(text) + Field(value, negative, base, prec, width, f)
    {
      var buf := new char[BUFFER_SIZE];
      var len, w := FillBuffer(buf, value, negative, base, prec, width, f);
      OutField(buf, len, w, f);
    }

    method ConvertInt(c: char, f: Flags, width: Bits16, prec: Bits16, v: int)
      requires Valid() && RoomFor(|Field(Abs(v), v < 0, Base(c), prec, width, f)|)
      modifies this`idx, this`text, buffer
      ensures Valid() && text == old(text) + Field(Abs(v), v < 0, Base(c), prec, width, f)
    {
      var base := 10;
      if c == 'x' || c == 'X' {
        base := 16;
      } else if c == 'o' {
        base := 8;
      } else if c == 'b' {
        base := 2;
      }
      Ntoa(if v > 0 then v else 0 - v, v < 0, base, prec, width, f);
    }

    /** One conversion that takes an argument. */
    method ConvertOne(c: char, p: Parsed, a: Arg)
      requires Valid() && TakesArg(c) && p.width < 0x1_0000 && p.prec < 0x1_0000
      requires ConvertArg(c, p.f, p.width, p.prec, a).Some?
      requires RoomFor(|ConvertArg(c, p.f, p.width, p.prec, a).value|)
      modifies this`idx, this`text, buffer
      ensures Valid() && text == old(text) + ConvertArg(c, p.f, p.width, p.prec, a).value
    {
      if IsInteger(c) {
        ConvertInt(c, IntFlags(c, p.f), p.width, p.prec, IntValue(c, IntFlags(c, p.f), a).value);
      } else if c == 'c' {
        Padded([(a.w % 0x100) as char], 1, p.width, p.f.left);
      } else if c == 's' {
        var l := if p.f.precision then Min(p.prec, |a.s|) else |a.s|;
        assert Shown(a.s, p.f, p.prec) == a.s[..l];
        Padded(a.s, l, p.width, p.f.left);
      } else {
        Ntoa(a.p, false, 16, p.prec, 4, p.f.(zeropad := true, upper := true));
      }
    }

    /** %c and %s: the first l characters of s between blanks. */
    method Padded(s: string, l: Bits16, width: Bits16, left: bool)
      requires Valid() && l <= |s| && RoomFor(|Justify(s[..l], l, width, left)|)
      modifies this`idx, this`text, buffer
      ensures Valid() && text == old(text) + Justify(s[..l], l, width, left)
    {
      if !left {
        Blanks(l, width);
        Assoc(old(text), Repeat(' ', width - l), s[..l]);
      }
      Chars(s, l);
      if left {
        Blanks(l, width);
        Assoc(old(text), s[..l], Repeat(' ', width - l));
      }
    }
  }

  // ----- Scanning the format

  function At(format: string, pos: nat): char { if pos < |format| then format[pos] else NUL }

  lemma Suffix(format: string, pos: nat)
    requires pos <= |format|
    ensures First(format[pos..]) == At(format, pos)
    ensures pos < |format| ==> format[pos..][1..] == format[pos + 1..]
  {}

  method ScanFlags(format: string, pos: nat) returns (f: Flags, q: nat)
    requires pos <= |format|
    ensures pos <= q <= |format| && ReadFlags(format[pos..], NoFlags) == (f, format[q..])
  {
    f, q := NoFlags, pos;
    while IsFlag(At(format, q))
      invariant pos <= q <= |format| && ReadFlags(format[pos..], NoFlags) == ReadFlags(format[q..], f)
      decreases |format| - q
    {
      Suffix(format, q);
      f, q := SetFlag(f, format[q]), q + 1;
    }
  }

  method ScanNumber(format: string, pos: nat) returns (i: Bits16, q: nat)
    requires pos <= |format|
    ensures pos <= q <= |format| && Atoi(format[pos..], 0) == (i, format[q..])
  {
    i, q := 0, pos;
    while IsDecimal(At(format, q))
      invariant pos <= q <= |format| && Atoi(format[pos..], 0) == Atoi(format[q..], i)
      decreases |format| - q
    {
      Suffix(format, q);
      i, q := U16(i * 10 + DigitValue(format[q])), q + 1;
    }
  }

  method ScanWidth(format: string, pos: nat, args: seq<Arg>, a: nat, f0: Flags)
    returns (f: Flags, width: Bits16, q: nat, b: nat)
    requires pos <= |format| && a <= |args| && ReadWidth(f0, format[pos..], args[a..]).Some?
    ensures pos <= q <= |format| && a <= b <= |args|
    ensures ReadWidth(f0, format[pos..], args[a..]) == Some(Parsed(f, width, 0, format[q..], args[b..]))
  {
    f, width, q, b := f0, 0, pos, a;
    Suffix(format, pos);
    if IsDecimal(At(format, q)) {
      width, q := ScanNumber(format, q);
    } else if At(format, q) == '*' {
      var w := TwosComplement(args[a].w, 0x8000);
      if w < 0 {
        f := f.(left := true);
        width := U16(-w);
      } else {
        width := U16(w);
      }
      q, b := q + 1, b + 1;
      assert args[a..][1..] == args[b..];
    }
  }

  method ScanPrecision(format: string, pos: nat, args: seq<Arg>, a: nat, f0: Flags, width: Bits16)
    returns (f: Flags, prec: Bits16, q: nat, b: nat)
    requires pos <= |format| && a <= |args| && ReadPrecision(Parsed(f0, width, 0, format[pos..], args[a..])).Some?
    ensures pos <= q <= |format| && a <= b <= |args|
    ensures ReadPrecision(Parsed(f0, width, 0, format[pos..], args[a..]))
         == Some(Parsed(f, width, prec, format[q..], args[b..]))
  {
    f, prec, q, b := f0, 0, pos, a;
    Suffix(format, pos);
    if At(format, q) == '.' {
      f, q := f.(precision := true), q + 1;
      Suffix(format, q);
      if IsDecimal(At(format, q)) {
        prec, q := ScanNumber(format, q);
      } else if At(format, q) == '*' {
        var w := TwosComplement(args[a].w, 0x8000);
        prec := if w > 0 then U16(w) else 0;
        q, b := q + 1, b + 1;
        assert args[a..][1..] == args[b..];
      }
    }
  }

  method ScanLength(format: string, pos: nat, f0: Flags) returns (f: Flags, q: nat)
    requires pos <= |format|
    ensures pos <= q <= |format| && LengthFlags(f0, At(format, pos), At(format, pos + 1)) == (f, q - pos)
  {
    f, q := f0, pos;
    var c, d := At(format, q), At(format, q + 1);
    if c == 'l' {
      q := if d == 'l' then q + 2 else q + 1;
      f := f.(long := true, longlong := f.longlong || d == 'l');
    } else if c == 'h' {
      q := if d == 'h' then q + 2 else q + 1;
      f := f.(short := true, char_ := f.char_ || d == 'h');
    } else if WideModifier(c) {
      f, q := f.(longlong := true), q + 1;
    }
  }

  lemma LengthAt(format: string, pos: nat, p: Parsed)
    requires pos <= |format| && p.rest == format[pos..]
    ensures var (f, n) := LengthFlags(p.f, At(format, pos), At(format, pos + 1));
      pos + n <= |format| && ReadLength(p) == p.(f := f, rest := format[pos + n..])
  {}

  /** Everything of a directive before its conversion character. */
  method ScanDirective(format: string, pos: nat, args: seq<Arg>, a: nat)
    returns (f: Flags, width: Bits16, prec: Bits16, q: nat, b: nat)
    requires pos <= |format| && a <= |args| && Directive(format[pos..], args[a..]).Some?
    ensures pos <= q < |format| && a <= b <= |args|
    ensures Directive(format[pos..], args[a..]) == Convert(Parsed(f, width, prec, format[q..], args[b..]))
  {
    f, width, prec, q, b := ScanSpec(format, pos, args, a);
    LengthAt(format, q, Parsed(f, width, prec, format[q..], args[b..]));
    f, q := ScanLength(format, q, f);
  }

  /** Flags, width and precision. */
  method ScanSpec(format: string, pos: nat, args: seq<Arg>, a: nat)
    returns (f: Flags, width: Bits16, prec: Bits16, q: nat, b: nat)
    requires pos <= |format| && a <= |args| && ReadSpec(format[pos..], args[a..]).Some?
    ensures pos <= q <= |format| && a <= b <= |args|
    ensures ReadSpec(format[pos..], args[a..]) == Some(Parsed(f, width, prec, format[q..], args[b..]))
  {
    f, q := ScanFlags(format, pos);
    f, width, q, b := ScanWidth(format, q, args, a, f);
    f, prec, q, b := ScanPrecision(format, q, args, b, f, width);
  }

  // ----- _vsnprintf

  /** A directive, from the character after its '%'. */
  method RunDirective(sink: Sink, format: string, pos: nat, args: seq<Arg>, a: nat)
    returns (q: nat, b: nat, ghost t: string)
    requires sink.Valid() && pos <= |format| && a <= |args|
    requires Directive(format[pos..], args[a..]).Some?
    requires sink.RoomFor(|Directive(format[pos..], args[a..]).value.text|)
    modifies sink`idx, sink`text, sink.buffer
    ensures sink.Valid() && pos < q <= |format| && a <= b <= |args|
    ensures Directive(format[pos..], args[a..]) == Some(Piece(t, format[q..], args[b..]))
    ensures sink.text == old(sink.text) + t
  {
    var f, width, prec;
    f, width, prec, q, b := ScanDirective(format, pos, args, a);
    q, b, t := RunConversion(sink, format, q, args, b, Parsed(f, width, prec, format[q..], args[b..]));
  }

  method RunConversion(sink: Sink, format: string, pos: nat, args: seq<Arg>, a: nat, p: Parsed)
    returns (q: nat, b: nat, ghost t: string)
    requires sink.Valid() && pos < |format| && a <= |args| && p.width < 0x1_0000 && p.prec < 0x1_0000
    requires p.rest == format[pos..] && p.args == args[a..]
    requires Convert(p).Some? && sink.RoomFor(|Convert(p).value.text|)
    modifies sink`idx, sink`text, sink.buffer
    ensures sink.Valid() && pos < q <= |format| && a <= b <= |args|
    ensures Convert(p) == Some(Piece(t, format[q..], args[b..]))
    ensures sink.text == old(sink.text) + t
  {
    Suffix(format, pos);
    q, b := pos + 1, a;
    t := Convert(p).value.text;
    if TakesArg(format[pos]) {
      assert args[a..][1..] == args[a + 1..];
      sink.ConvertOne(format[pos], p, args[a]);
      b := a + 1;
    } else {
      sink.Out(format[pos]);
    }
  }

  /** One turn of the loop over the format. */
  method Step(sink: Sink, format: string, pos: nat, args: seq<Arg>, a: nat) returns (q: nat, b: nat, ghost t: string)
    requires sink.Valid() && pos < |format| && a <= |args|
    requires NextPiece(format[pos..], args[a..]).Some?
    requires sink.RoomFor(|NextPiece(format[pos..], args[a..]).value.text|)
    modifies sink`idx, sink`text, sink.buffer
    ensures sink.Valid() && pos < q <= |format| && a <= b <= |args|
    ensures NextPiece(format[pos..], args[a..]) == Some(Piece(t, format[q..], args[b..]))
    ensures sink.text == old(sink.text) + t
  {
    Suffix(format, pos);
    if format[pos] != '%' {
      sink.Out(format[pos]);
      q, b, t := pos + 1, a, [format[pos]];
    } else {
      q, b, t := RunDirective(sink, format, pos + 1, args, a);
    }
  }

  /** The buffer after a text and its NUL, which goes to the last place of a buffer that is too small. */
  function Terminated(mem: string, maxlen: nat, t: string): string {
    Store(Emit(mem, 0, maxlen, t), if U16(|t|) < maxlen then U16(|t|) else U16(maxlen - 1), maxlen, NUL)
  }

  /** The text cut off before the last place, with a NUL after it and the rest of the buffer as it was. */
  function Bounded(mem: string, maxlen: nat, t: string): string
    requires maxlen <= |mem| || |t| < |mem|
  {
    if maxlen == 0 then mem
    else var k := Min(|t|, maxlen - 1); t[..k] + [NUL] + mem[k + 1..]
  }

  /** As long as the index does not wrap, what is left in the buffer is the bounded output. */
  lemma {:induction false} TerminatedIsBounded(mem: string, maxlen: Bits16, t: string)
    requires |t| < 0x1_0000 && (maxlen <= |mem| || |t| < |mem|)
    ensures Terminated(mem, maxlen, t) == Bounded(mem, maxlen, t)
  {
    EmitIsPrefix(mem, maxlen, t);
    if maxlen > 0 {
      var j, k := Min(|t|, maxlen), Min(|t|, maxlen - 1);
      assert Emit(mem, 0, maxlen, t) == t[..j] + mem[j..];
      assert k == if U16(|t|) < maxlen then U16(|t|) else U16(maxlen - 1);
      StoreCut(mem, t, j, k, NUL);
    }
  }

  lemma StoreCut(mem: string, t: string, j: nat, k: nat, c: char)
    requires k < |mem| && k <= j <= |t| && k <= j <= k + 1 <= |mem|
    ensures (t[..j] + mem[j..])[k := c] == t[..k] + [c] + mem[k + 1..]
  {}

  /** A text whose length is a multiple of 2^16 leaves an empty string. */
  lemma WrappedTextReadsEmpty(mem: string, maxlen: Bits16, t: string)
    requires U16(|t|) == 0 && maxlen > 0 && mem != ""
    ensures Terminated(mem, maxlen, t)[0] == NUL
  {}

  /** The loop of _vsnprintf. */
  method Run(sink: Sink, format: string, args: seq<Arg>)
    requires sink.Valid() && sink.text == "" && Format(format, args).Some?
    requires sink.RoomFor(|Format(format, args).value.text|)
    modifies sink`idx, sink`text, sink.buffer
    ensures sink.Valid() && sink.text == Format(format, args).value.text
  {
    var pos, a := 0, 0;
    ghost var all, t := Format(format, args), "";
    assert format[0..] == format && args[0..] == args;
    PrependTwice("", "", all);
    while pos < |format|
      invariant sink.Valid() && 0 <= pos <= |format| && 0 <= a <= |args|
      invariant all == Prepend(sink.text, Format(format[pos..], args[a..]))
    {
      ghost var before := sink.text;
      pos, a, t := Step(sink, format, pos, args, a);
      PrependTwice(before, t, Format(format[pos..], args[a..]));
    }
  }

  function Printed(format: string, args: seq<Arg>): string
    requires Format(format, args).Some?
  {
    Format(format, args).value.text
  }

  /** The end of _vsnprintf: the NUL and the result. */
  method Finish(sink: Sink) returns (n: int)
    requires sink.Valid() && sink.RoomFor(1)
    modifies sink.buffer
    ensures n == I16(|sink.text|)
    ensures Contents(sink.buffer) == Terminated(sink.was, sink.maxlen, sink.text)
  {
    var last := if sink.idx < sink.maxlen then sink.idx else U16(sink.maxlen - 1);
    if sink.buffer != null && last < sink.maxlen {
      sink.buffer[last] := NUL;
    }
    assert I16(U16(|sink.text|)) == I16(|sink.text|);
    n := I16(sink.idx);
  }

  /**
   Neither maxlen nor the buffer has a say in the result, which is the number of characters printed
   if they are fewer than 2^15. Below 2^16 characters the buffer ends up with the bounded output.
   */
  method Vsnprintf(buffer: array?<char>, maxlen: Bits16, format: CString, args: seq<Arg>) returns (n: int)
    requires Format(format, args).Some? && Room(buffer, maxlen, |Printed(format, args)| + 1)
    modifies buffer
    ensures n == I16(|Printed(format, args)|)
    ensures n == |Printed(format, args)| <==> |Printed(format, args)| < 0x8000
    ensures Contents(buffer) == Terminated(old(Contents(buffer)), maxlen, Printed(format, args))
    ensures buffer != null && |Printed(format, args)| < 0x1_0000 ==>
      buffer[..] == Bounded(old(buffer[..]), maxlen, Printed(format, args))
  {
    ghost var mem := Contents(buffer);
    var sink := new Sink(buffer, maxlen);
    Run(sink, format, args);
    n := Finish(sink);
    Result(n, mem, maxlen, sink.text, Contents(buffer), buffer != null);
  }

  lemma {:induction false} Result(n: int, mem: string, maxlen: Bits16, t: string, now: string, stored: bool)
    requires n == I16(|t|) && now == Terminated(mem, maxlen, t)
    requires stored ==> maxlen <= |mem| || |t| < |mem|
    ensures n == |t| <==> |t| < 0x8000
    ensures stored && |t| < 0x1_0000 ==> now == Bounded(mem, maxlen, t)
  {
    if stored && |t| < 0x1_0000 { TerminatedIsBounded(mem, maxlen, t); }
  }
}
