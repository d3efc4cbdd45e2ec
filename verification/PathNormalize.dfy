/** fs_normalize_path: the nine-state automaton that rewrites a path in its own buffer. */
module PathNormalize {
  import opened PathSpec

  datatype State = INITIAL | FIELD_START | IN_FIELD | SEP | SEEN_SEP | DOT | SEEN_DOT | DOTDOT | SEEN_DOTDOT

  /** The C string at the start of buf. */
  function CString(buf: seq<char>): (s: string)
    ensures |s| <= |buf|
  {
    if buf == [] || buf[0] == NUL then "" else [buf[0]] + CString(buf[1..])
  }

  predicate Terminated(buf: seq<char>) { NUL in buf }

  lemma {:induction false} CStringIs(buf: seq<char>, n: nat)
    requires n < |buf| && buf[n] == NUL && NUL !in buf[..n]
    ensures CString(buf) == buf[..n]
  {
    if n > 0 {
      assert buf[..n][0] == buf[0];
      assert buf[1..][..n - 1] == buf[..n][1..];
      CStringIs(buf[1..], n - 1);
    }
  }

  lemma {:induction false} CStringEnd(buf: seq<char>)
    requires Terminated(buf)
    ensures |CString(buf)| < |buf| && buf[|CString(buf)|] == NUL && NUL !in buf[..|CString(buf)|]
    ensures CString(buf) == buf[..|CString(buf)|]
  {
    if buf[0] != NUL {
      CStringEnd(buf[1..]);
      var n := |CString(buf[1..])|;
      assert buf[..n + 1] == [buf[0]] + buf[1..][..n];
    }
  }

  /** How far the output stays behind the input, because the dots read are not written yet. */
  function Slack(state: State): nat {
    match state
    case SEEN_DOT | DOTDOT => 1
    case SEEN_DOTDOT => 2
    case _ => 0
  }

  /** What is known of the component read so far and of the next character. */
  predicate Shape(state: State, cur: string, c: char) {
    match state
    case INITIAL => cur == ""
    case FIELD_START => cur == "" && c != '/'
    case IN_FIELD => Plain(cur) && (Name(cur) || (c != '/' && c != NUL && (c == '.' ==> cur == "..")))
    case SEP => c == '/'
    case SEEN_SEP => cur == ""
    case DOT => cur == "" && c == '.'
    case SEEN_DOT => cur == "."
    case DOTDOT => cur == "." && c == '.'
    case SEEN_DOTDOT => cur == ".."
  }

  /** What the output holds. */
  predicate Output(state: State, out: string, w: Walk, cur: string) {
    match state
    case INITIAL => out == "" && w.names == []
    case IN_FIELD => out == Open(w) + cur
    case SEP => out + "/" == Open(Enter(w, cur))
    case _ => out == Open(w)
  }

  /** The answer, as seen from the middle of the path: w entered, cur read, rest unread. */
  function Answer(w: Walk, cur: string, rest: string): string {
    Render(EnterAll(w, Glue(cur, Split(rest))))
  }

  function Strip(s: string): string {
    if s != "" && s[|s| - 1] == '/' then s[..|s| - 1] else s
  }

  // ----- One character at a time

  lemma ReadChar(w: Walk, cur: string, rest: string)
    requires rest != "" && rest[0] != '/'
    ensures Answer(w, cur, rest) == Answer(w, cur + [rest[0]], rest[1..])
  {
    GlueGlue(cur, [rest[0]], Split(rest[1..]));
  }

  lemma ReadSlash(w: Walk, cur: string, rest: string)
    requires rest != "" && rest[0] == '/'
    ensures Answer(w, cur, rest) == Answer(Enter(w, cur), "", rest[1..])
  {
    var parts := Split(rest[1..]);
    assert Glue(cur, [""] + parts) == [cur] + parts by { assert cur + "" == cur; }
    assert ([cur] + parts)[1..] == parts;
    GlueEmpty(parts);
  }

  lemma ReadEnd(w: Walk, cur: string)
    ensures Answer(w, cur, "") == Render(Enter(w, cur))
  {
    assert Glue(cur, [""]) == [cur] by { assert cur + "" == cur; }
    assert EnterAll(w, [cur]) == EnterAll(Enter(w, cur), []);
  }

  lemma FirstAnswer(s: string)
    ensures Normalize(s) == Answer(Start(s), "", s)
  {
    GlueEmpty(Split(s));
  }

  // ----- The output against the walk

  lemma {:induction false} OpenEnds(w: Walk)
    ensures Open(w) != "" ==> Open(w)[|Open(w)| - 1] == '/'
    ensures Strip(Open(w)) == Render(w)
  {}

  lemma {:induction false} FieldOutput(w: Walk, cur: string)
    requires Name(cur)
    ensures Open(Enter(w, cur)) == Open(w) + cur + "/" && Strip(Open(w) + cur) == Render(Enter(w, cur))
  {
    var w' := Enter(w, cur);
    assert w'.names[..|w'.names| - 1] == w.names;
    assert w'.(names := w.names) == w;
    assert cur[|cur| - 1] in cur;
  }

  /** Where walking back over one field ends. */
  lemma {:induction false} BackOneField(w: Walk)
    requires Names(w) && Open(w) != ""
    ensures var p := Open(Enter(w, ".."));
            |p| < |Open(w)| && p == Open(w)[..|p|] && (p != "" ==> p[|p| - 1] == '/')
            && forall i :: |p| <= i < |Open(w)| - 1 ==> Open(w)[i] != '/'
  {
    var p := Open(Enter(w, ".."));
    OpenEnds(Enter(w, ".."));
    if w.names != [] {
      var last := w.names[|w.names| - 1];
      assert Name(last);
      assert Open(w) == p + last + "/";
    }
  }

  /** The walk back of the SEEN_DOTDOT state. */
  method BackTrack(path: array<char>, from: nat, ghost w: Walk) returns (outpos: nat)
    requires from <= path.Length && path[..from] == Open(w) && Names(w)
    ensures outpos <= from && path[..outpos] == Open(Enter(w, ".."))
  {
    outpos := from;
    if outpos > 0 {
      BackOneField(w);
      ghost var p := Open(Enter(w, ".."));
      outpos := outpos - 1;
      while outpos > 0
        invariant |p| <= outpos <= from - 1
      {
        assert path[outpos - 1] == path[..from][outpos - 1];
        if path[outpos - 1] == '/' { break; }
        outpos := outpos - 1;
      }
      assert path[..outpos] == path[..from][..outpos];
    }
  }

  /** Invariant of the loop: buf is the buffer, orig what it held at first, n the length of the path. */
  ghost predicate Running(
      buf: seq<char>, orig: seq<char>, n: nat, state: State, pos: nat, outpos: nat, w: Walk, cur: string) {
    && |buf| == |orig| && n < |orig| && orig[n] == NUL && NUL !in orig[..n]
    && outpos + Slack(state) <= pos <= n
    && buf[pos..] == orig[pos..] && NUL !in buf[..outpos]
    && Names(w) && Shape(state, cur, orig[pos]) && Output(state, buf[..outpos], w, cur)
    && Normalize(orig[..n]) == Answer(w, cur, orig[pos..n])
  }

  ghost predicate Finished(buf: seq<char>, orig: seq<char>, n: nat, outpos: nat) {
    && |buf| == |orig| && outpos <= n < |orig|
    && buf[n..] == orig[n..] && NUL !in buf[..outpos]
    && Strip(buf[..outpos]) == Normalize(orig[..n])
  }

  function Rank(state: State): nat {
    match state
    case INITIAL => 4
    case SEEN_SEP => 3
    case FIELD_START => 2
    case SEEN_DOT => 2
    case SEEN_DOTDOT => 2
    case IN_FIELD => 1
    case SEP => 0
    case DOT => 0
    case DOTDOT => 0
  }

  lemma AtNul(orig: seq<char>, n: nat, pos: nat)
    requires n < |orig| && pos <= n && orig[n] == NUL && NUL !in orig[..n]
    ensures orig[pos] == NUL <==> pos == n
    ensures pos < n ==> orig[pos..n] != "" && orig[pos..n][0] == orig[pos] && orig[pos..n][1..] == orig[pos + 1..n]
    ensures pos == n ==> orig[pos..n] == ""
  {
    if pos < n { assert orig[..n][pos] == orig[pos]; }
  }

  lemma {:induction false} AtEnd(buf: seq<char>, orig: seq<char>, n: nat, pos: nat, outpos: nat, w: Walk, cur: string)
    requires |buf| == |orig| && n < |orig| && orig[n] == NUL && NUL !in orig[..n] && outpos <= pos <= n
    requires orig[pos] == NUL && buf[pos..] == orig[pos..] && NUL !in buf[..outpos]
    requires Normalize(orig[..n]) == Answer(w, cur, orig[pos..n])
    requires (Enter(w, cur) == w && buf[..outpos] == Open(w)) || (Name(cur) && buf[..outpos] == Open(w) + cur)
    ensures Finished(buf, orig, n, outpos)
  {
    AtNul(orig, n, pos);
    ReadEnd(w, cur);
    OpenEnds(w);
    if Name(cur) { FieldOutput(w, cur); }
  }

  // ----- The transitions, each keeping the invariant

  lemma LeaveInitial(buf: seq<char>, orig: seq<char>, n: nat, outpos: nat, w: Walk)
    requires Running(buf, orig, n, INITIAL, 0, outpos, w, "") && w == Start(orig[..n])
    ensures orig[0] == '/' ==> Running(buf, orig, n, SEP, 0, outpos, w, "")
    ensures orig[0] == '.' ==> Running(buf, orig, n, DOT, 0, outpos, w, "")
    ensures orig[0] != '/' && orig[0] != '.' ==> Running(buf, orig, n, FIELD_START, 0, outpos, w, "")
  {
    AtNul(orig, n, 0);
    assert orig[..n] == orig[0..n];
  }

  lemma NameGrows(cur: string, c: char)
    requires Plain(cur) && c != '/' && (Name(cur) || (c == '.' ==> cur == ".."))
    ensures Name(cur + [c])
  {
    var s := cur + [c];
    assert s[..|cur|] == cur && s[|cur|] == c;
  }

  /** IN_FIELD copies a character. */
  lemma Copy(buf: seq<char>, orig: seq<char>, n: nat, pos: nat, outpos: nat, w: Walk, cur: string)
    requires Running(buf, orig, n, IN_FIELD, pos, outpos, w, cur) && orig[pos] != '/' && orig[pos] != NUL
    ensures outpos < |buf|
    ensures Running(buf[outpos := orig[pos]], orig, n, IN_FIELD, pos + 1, outpos + 1, w, cur + [orig[pos]])
  {
    var c := orig[pos];
    var buf' := buf[outpos := c];
    AtNul(orig, n, pos);
    ReadChar(w, cur, orig[pos..n]);
    assert buf'[..outpos + 1] == buf[..outpos] + [c];
    assert Open(w) + cur + [c] == Open(w) + (cur + [c]);
    assert buf'[pos + 1..] == buf[pos..][1..] == orig[pos + 1..];
    NameGrows(cur, c);
  }

  /** IN_FIELD meets the slash that ends its field. */
  lemma EndField(buf: seq<char>, orig: seq<char>, n: nat, pos: nat, outpos: nat, w: Walk, cur: string)
    requires Running(buf, orig, n, IN_FIELD, pos, outpos, w, cur) && orig[pos] == '/'
    ensures Running(buf, orig, n, SEP, pos, outpos, w, cur)
  {
    FieldOutput(w, cur);
  }

  /** SEP writes the slash. */
  lemma WriteSlash(buf: seq<char>, orig: seq<char>, n: nat, pos: nat, outpos: nat, w: Walk, cur: string)
    requires Running(buf, orig, n, SEP, pos, outpos, w, cur) && Names(Enter(w, cur))
    ensures pos < n
    ensures Running(buf[outpos := '/'], orig, n, SEEN_SEP, pos + 1, outpos + 1, Enter(w, cur), "")
  {
    var buf' := buf[outpos := '/'];
    AtNul(orig, n, pos);
    ReadSlash(w, cur, orig[pos..n]);
    assert buf'[..outpos + 1] == buf[..outpos] + "/";
    assert buf'[pos + 1..] == buf[pos..][1..] == orig[pos + 1..];
  }

  /** SEEN_SEP and SEEN_DOT skip a slash. */
  lemma SkipSlash(buf: seq<char>, orig: seq<char>, n: nat, state: State, pos: nat, outpos: nat, w: Walk, cur: string)
    requires Running(buf, orig, n, state, pos, outpos, w, cur) && orig[pos] == '/'
    requires state == SEEN_SEP || state == SEEN_DOT
    ensures pos < n && Running(buf, orig, n, SEEN_SEP, pos + 1, outpos, w, "")
  {
    AtNul(orig, n, pos);
    ReadSlash(w, cur, orig[pos..n]);
    assert buf[pos + 1..] == buf[pos..][1..] == orig[pos + 1..];
  }

  /** DOT and DOTDOT consume a dot. */
  lemma ConsumeDot(buf: seq<char>, orig: seq<char>, n: nat, state: State, pos: nat, outpos: nat, w: Walk, cur: string)
    requires Running(buf, orig, n, state, pos, outpos, w, cur) && (state == DOT || state == DOTDOT)
    ensures pos < n
    ensures Running(buf, orig, n, if state == DOT then SEEN_DOT else SEEN_DOTDOT, pos + 1, outpos, w, cur + ".")
  {
    AtNul(orig, n, pos);
    ReadChar(w, cur, orig[pos..n]);
    assert buf[pos + 1..] == buf[pos..][1..] == orig[pos + 1..];
  }

  /** SEEN_DOT finds that the field only starts with a dot. */
  lemma DotField(buf: seq<char>, orig: seq<char>, n: nat, pos: nat, outpos: nat, w: Walk)
    requires Running(buf, orig, n, SEEN_DOT, pos, outpos, w, ".")
    requires orig[pos] != '.' && orig[pos] != '/' && orig[pos] != NUL
    ensures Running(buf[outpos := '.'], orig, n, IN_FIELD, pos, outpos + 1, w, ".")
  {
    var buf' := buf[outpos := '.'];
    assert buf'[..outpos + 1] == buf[..outpos] + ".";
    assert buf'[pos..] == buf[pos..];
  }

  /** SEEN_DOTDOT finds that the field only starts with two dots. */
  lemma DotDotField(buf: seq<char>, orig: seq<char>, n: nat, pos: nat, outpos: nat, w: Walk)
    requires Running(buf, orig, n, SEEN_DOTDOT, pos, outpos, w, "..") && orig[pos] != '/' && orig[pos] != NUL
    ensures Running(buf[outpos := '.'][outpos + 1 := '.'], orig, n, IN_FIELD, pos, outpos + 2, w, "..")
  {
    var buf' := buf[outpos := '.'][outpos + 1 := '.'];
    assert buf'[..outpos + 2] == buf[..outpos] + "..";
    assert buf'[pos..] == buf[pos..];
  }

  /** SEEN_DOTDOT drops the last field. */
  lemma DropField(buf: seq<char>, orig: seq<char>, n: nat, pos: nat, outpos: nat, outpos': nat, w: Walk)
    requires Running(buf, orig, n, SEEN_DOTDOT, pos, outpos, w, "..") && outpos' <= outpos
    requires buf[..outpos'] == Open(Enter(w, ".."))
    ensures orig[pos] == '/' ==> pos < n && Running(buf, orig, n, SEEN_SEP, pos + 1, outpos', Enter(w, ".."), "")
    ensures orig[pos] == NUL ==> Finished(buf, orig, n, outpos')
  {
    AtNul(orig, n, pos);
    assert forall i :: 0 <= i < outpos' ==> buf[..outpos'][i] == buf[..outpos][i];
    if orig[pos] == '/' {
      ReadSlash(w, "..", orig[pos..n]);
      assert buf[pos + 1..] == buf[pos..][1..] == orig[pos + 1..];
    } else if orig[pos] == NUL {
      ReadEnd(w, "..");
      OpenEnds(Enter(w, ".."));
    }
  }

  // ----- The automaton

  /** The variables of the loop. */
  datatype Machine = Machine(state: State, pos: nat, outpos: nat, done: bool)

  ghost predicate Live(buf: seq<char>, orig: seq<char>, n: nat, m: Machine, w: Walk, cur: string) {
    && (m.done ==> Finished(buf, orig, n, m.outpos))
    && (!m.done ==> Running(buf, orig, n, m.state, m.pos, m.outpos, w, cur))
    && (!m.done && m.state == INITIAL ==> m.pos == 0 && w == Start(orig[..n]))
    && (!m.done && m.state == SEP ==> Names(Enter(w, cur)))
  }

  /** Every step ends the loop, consumes input, or moves to a state of lower rank. */
  ghost predicate Progress(m: Machine, m': Machine, n: nat) {
    m'.done || (m'.pos <= n && (m.pos < m'.pos || (m.pos == m'.pos && Rank(m'.state) < Rank(m.state))))
  }

  /** The cases INITIAL and FIELD_START of the switch. */
  method AtStart(path: array<char>, m: Machine, ghost orig: seq<char>, ghost n: nat, ghost w: Walk, ghost cur: string)
      returns (m': Machine)
    requires Live(path[..], orig, n, m, w, cur) && !m.done && (m.state == INITIAL || m.state == FIELD_START)
    ensures Live(path[..], orig, n, m', w, cur) && Progress(m, m', n)
  {
    hide Answer, Open, Normalize;
    ghost var buf := path[..];
    var c := path[m.pos];
    assert c == buf[m.pos..][0] == orig[m.pos..][0];
    if m.state == INITIAL {
      LeaveInitial(buf, orig, n, m.outpos, w);
      m' := m.(state := if c == '/' then SEP else if c == '.' then DOT else FIELD_START);
    } else if c == '.' {
      m' := m.(state := DOT);
    } else if c == NUL {
      AtEnd(buf, orig, n, m.pos, m.outpos, w, cur);
      m' := m.(done := true);
    } else {
      assert Open(w) + "" == Open(w);
      m' := m.(state := IN_FIELD);
    }
  }

  /** The case IN_FIELD. */
  method InField(path: array<char>, m: Machine, ghost orig: seq<char>, ghost n: nat, ghost w: Walk, ghost cur: string)
      returns (m': Machine, ghost cur': string)
    requires Live(path[..], orig, n, m, w, cur) && !m.done && m.state == IN_FIELD
    modifies path
    ensures Live(path[..], orig, n, m', w, cur') && Progress(m, m', n)
  {
    hide Answer, Open, Normalize;
    ghost var buf := path[..];
    var c := path[m.pos];
    assert c == buf[m.pos..][0] == orig[m.pos..][0];
    cur' := cur;
    if c == '/' {
      EndField(buf, orig, n, m.pos, m.outpos, w, cur);
      m' := m.(state := SEP);
    } else if c == NUL {
      AtEnd(buf, orig, n, m.pos, m.outpos, w, cur);
      m' := m.(done := true);
    } else {
      m', cur' := CopyChar(path, m, orig, n, w, cur);
    }
  }

  /** A character of a field goes to the output. */
  method CopyChar(path: array<char>, m: Machine, ghost orig: seq<char>, ghost n: nat, ghost w: Walk, ghost cur: string)
      returns (m': Machine, ghost cur': string)
    requires Live(path[..], orig, n, m, w, cur) && !m.done && m.state == IN_FIELD
    requires orig[m.pos] != '/' && orig[m.pos] != NUL
    modifies path
    ensures Live(path[..], orig, n, m', w, cur') && Progress(m, m', n)
  {
    hide Answer, Open, Normalize;
    ghost var buf := path[..];
    var c := path[m.pos];
    assert c == buf[m.pos..][0] == orig[m.pos..][0];
    Copy(buf, orig, n, m.pos, m.outpos, w, cur);
    path[m.outpos] := c;
    assert path[..] == buf[m.outpos := c];
    m', cur' := m.(outpos := m.outpos + 1, pos := m.pos + 1), cur + [c];
  }

  /** The cases SEP and SEEN_SEP. */
  method AtSeparator(
      path: array<char>, m: Machine, ghost orig: seq<char>, ghost n: nat, ghost w: Walk, ghost cur: string)
      returns (m': Machine, ghost w': Walk, ghost cur': string)
    requires Live(path[..], orig, n, m, w, cur) && !m.done && m.state in {SEP, SEEN_SEP}
    modifies path
    ensures Live(path[..], orig, n, m', w', cur') && Progress(m, m', n)
  {
    hide Answer, Open, Normalize;
    ghost var buf := path[..];
    var c := path[m.pos];
    assert c == buf[m.pos..][0] == orig[m.pos..][0];
    m', w', cur' := m, w, cur;
    if m.state == SEP {
      WriteSlash(buf, orig, n, m.pos, m.outpos, w, cur);
      path[m.outpos] := '/';
      assert path[..] == buf[m.outpos := '/'];
      m' := m.(pos := m.pos + 1, outpos := m.outpos + 1, state := SEEN_SEP);
      w', cur' := Enter(w, cur), "";
    } else if c == '/' {
      SkipSlash(buf, orig, n, m.state, m.pos, m.outpos, w, cur);
      m' := m.(pos := m.pos + 1);
    } else if c == NUL {
      AtEnd(buf, orig, n, m.pos, m.outpos, w, cur);
      m' := m.(done := true);
    } else {
      m' := m.(state := FIELD_START);
    }
  }

  /** The cases DOT and DOTDOT. */
  method AtDot(path: array<char>, m: Machine, ghost orig: seq<char>, ghost n: nat, ghost w: Walk, ghost cur: string)
      returns (m': Machine, ghost cur': string)
    requires Live(path[..], orig, n, m, w, cur) && !m.done && (m.state == DOT || m.state == DOTDOT)
    ensures Live(path[..], orig, n, m', w, cur') && Progress(m, m', n)
  {
    ConsumeDot(path[..], orig, n, m.state, m.pos, m.outpos, w, cur);
    m', cur' := m.(pos := m.pos + 1, state := if m.state == DOT then SEEN_DOT else SEEN_DOTDOT), cur + ".";
  }

  /** The case SEEN_DOT. */
  method AfterDot(path: array<char>, m: Machine, ghost orig: seq<char>, ghost n: nat, ghost w: Walk, ghost cur: string)
      returns (m': Machine, ghost cur': string)
    requires Live(path[..], orig, n, m, w, cur) && !m.done && m.state == SEEN_DOT
    modifies path
    ensures Live(path[..], orig, n, m', w, cur') && Progress(m, m', n)
  {
    hide Answer, Open, Normalize;
    ghost var buf := path[..];
    var c := path[m.pos];
    assert c == buf[m.pos..][0] == orig[m.pos..][0];
    cur' := cur;
    if c == '.' {
      m' := m.(state := DOTDOT);
    } else if c == '/' {
      SkipSlash(buf, orig, n, m.state, m.pos, m.outpos, w, cur);
      m', cur' := m.(pos := m.pos + 1, state := SEEN_SEP), "";
    } else if c == NUL {
      AtEnd(buf, orig, n, m.pos, m.outpos, w, cur);
      m' := m.(done := true);
    } else {
      DotField(buf, orig, n, m.pos, m.outpos, w);
      path[m.outpos] := '.';
      assert path[..] == buf[m.outpos := '.'];
      m' := m.(outpos := m.outpos + 1, state := IN_FIELD);
    }
  }

  /** The case SEEN_DOTDOT. */
  method AfterDotDot(
      path: array<char>, m: Machine, ghost orig: seq<char>, ghost n: nat, ghost w: Walk, ghost cur: string)
      returns (m': Machine, ghost w': Walk, ghost cur': string)
    requires Live(path[..], orig, n, m, w, cur) && !m.done && m.state == SEEN_DOTDOT
    modifies path
    ensures Live(path[..], orig, n, m', w', cur') && Progress(m, m', n)
  {
    hide Answer, Open, Normalize;
    ghost var buf := path[..];
    var c := path[m.pos];
    assert c == buf[m.pos..][0] == orig[m.pos..][0];
    if c == '/' || c == NUL {
      var back := BackTrack(path, m.outpos, w);
      DropField(buf, orig, n, m.pos, m.outpos, back, w);
      m' := Machine(SEEN_SEP, m.pos + 1, back, c == NUL);
      w', cur' := Enter(w, ".."), "";
    } else {
      m' := KeepDots(path, m, orig, n, w, cur);
      w', cur' := w, cur;
    }
  }

  /** A field that only begins with two dots. */
  method KeepDots(path: array<char>, m: Machine, ghost orig: seq<char>, ghost n: nat, ghost w: Walk, ghost cur: string)
      returns (m': Machine)
    requires Live(path[..], orig, n, m, w, cur) && !m.done && m.state == SEEN_DOTDOT
    requires orig[m.pos] != '/' && orig[m.pos] != NUL
    modifies path
    ensures Live(path[..], orig, n, m', w, cur) && Progress(m, m', n)
  {
    hide Answer, Open, Normalize;
    ghost var buf := path[..];
    DotDotField(buf, orig, n, m.pos, m.outpos, w);
    path[m.outpos] := '.';
    path[m.outpos + 1] := '.';
    assert path[..] == buf[m.outpos := '.'][m.outpos + 1 := '.'];
    m' := m.(outpos := m.outpos + 2, state := IN_FIELD);
  }

  /** The loop of fs_normalize_path. */
  method Automaton(path: array<char>, ghost n: nat) returns (outpos: nat)
    requires n < path.Length && path[n] == NUL && NUL !in path[..n]
    modifies path
    ensures Finished(path[..], old(path[..]), n, outpos)
  {
    ghost var orig := path[..];
    var m := Machine(INITIAL, 0, 0, false);
    ghost var w, cur := Start(orig[..n]), "";
    FirstAnswer(orig[..n]);
    assert orig[0..n] == orig[..n];
    while !m.done
      invariant Live(path[..], orig, n, m, w, cur)
      decreases !m.done, n - m.pos, Rank(m.state)
    {
      match m.state {
        case INITIAL | FIELD_START => m := AtStart(path, m, orig, n, w, cur);
        case IN_FIELD => m, cur := InField(path, m, orig, n, w, cur);
        case SEP | SEEN_SEP => m, w, cur := AtSeparator(path, m, orig, n, w, cur);
        case DOT | DOTDOT => m, cur := AtDot(path, m, orig, n, w, cur);
        case SEEN_DOT => m, cur := AfterDot(path, m, orig, n, w, cur);
        case SEEN_DOTDOT => m, w, cur := AfterDotDot(path, m, orig, n, w, cur);
      }
    }
    outpos := m.outpos;
  }

  /** fs_normalize_path. */
  method FsNormalizePath(path: array<char>)
    requires Terminated(path[..])
    modifies path
    ensures Terminated(path[..]) && CString(path[..]) == Normalize(CString(old(path[..])))
    ensures var n := |CString(old(path[..]))|; path[n..] == old(path[n..])
  {
    CStringEnd(path[..]);
    ghost var n := |CString(path[..])|;
    var outpos := Automaton(path, n);
    ghost var out := path[..outpos];
    if outpos > 0 && path[outpos - 1] == '/' { outpos := outpos - 1; }
    assert path[..outpos] == Strip(out);
    assert NUL !in path[..outpos] by { assert forall i :: 0 <= i < outpos ==> path[i] == out[i]; }
    ghost var last := path[..];
    path[outpos] := NUL;
    assert path[..outpos] == last[..outpos];
    CStringIs(path[..], outpos);
    assert path[n..] == last[n..];
  }
}
