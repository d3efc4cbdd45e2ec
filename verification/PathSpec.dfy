/**
 What fs_normalize_path computes: a walk over the components of a path with a stack of names and
 an absolute flag, and the facts about the resulting normal form.
 */
module PathSpec {
  const NUL: char := '\0'

  /** cur continued by the first of the parts. */
  function Glue(cur: string, parts: seq<string>): (r: seq<string>)
    requires |parts| >= 1
    ensures |r| == |parts|
  {
    [cur + parts[0]] + parts[1..]
  }

  /** The pieces of s between slashes; "a//b" has an empty piece, and "" is one empty piece. */
  function Split(s: string): (parts: seq<string>)
    ensures |parts| >= 1
  {
    if s == "" then [""]
    else if s[0] == '/' then [""] + Split(s[1..])
    else Glue([s[0]], Split(s[1..]))
  }

  datatype Walk = Walk(absolute: bool, names: seq<string>)

  function Start(s: string): Walk { Walk(s != "" && s[0] == '/', []) }

  /** One component: "" and "." stay, ".." leaves the last name, or the root if there is none. */
  function Enter(w: Walk, part: string): Walk {
    if part == "" || part == "." then w
    else if part == ".." then
      if w.names == [] then Walk(false, []) else w.(names := w.names[..|w.names| - 1])
    else w.(names := w.names + [part])
  }

  function EnterAll(w: Walk, parts: seq<string>): Walk
    decreases |parts|
  {
    if parts == [] then w else EnterAll(Enter(w, parts[0]), parts[1..])
  }

  /** The names, each followed by a slash, after a leading slash if absolute. */
  function Open(w: Walk): string
    decreases |w.names|
  {
    if w.names == [] then if w.absolute then "/" else ""
    else Open(w.(names := w.names[..|w.names| - 1])) + w.names[|w.names| - 1] + "/"
  }

  /** The path of a walk. The root has no name: it comes out as the empty string. */
  function Render(w: Walk): string {
    if w.names == [] then ""
    else Open(w.(names := w.names[..|w.names| - 1])) + w.names[|w.names| - 1]
  }

  function Normalize(s: string): string { Render(EnterAll(Start(s), Split(s))) }

  // ----- Names

  predicate Plain(part: string) { '/' !in part }

  /** A component that stands for a directory or file of its own. */
  predicate Name(part: string) { part != "" && part != "." && part != ".." && Plain(part) }

  ghost predicate Names(w: Walk) { forall n :: n in w.names ==> Name(n) }

  lemma {:induction false} SplitIsPlain(s: string)
    ensures forall p :: p in Split(s) ==> Plain(p)
  {
    if s != "" {
      SplitIsPlain(s[1..]);
      var t := Split(s[1..]);
      assert t[0] in t;
      assert forall p :: p in t[1..] ==> p in t;
    }
  }

  lemma {:induction false} EnterAllNames(w: Walk, parts: seq<string>)
    requires Names(w) && forall p :: p in parts ==> Plain(p)
    ensures Names(EnterAll(w, parts))
    decreases |parts|
  {
    if parts != [] {
      assert parts[0] in parts;
      assert forall p :: p in parts[1..] ==> p in parts;
      EnterAllNames(Enter(w, parts[0]), parts[1..]);
    }
  }

  lemma {:induction false} NormalizeNames(s: string)
    ensures Names(EnterAll(Start(s), Split(s)))
  {
    SplitIsPlain(s);
    EnterAllNames(Start(s), Split(s));
  }

  // ----- Split against gluing and joining

  lemma GlueGlue(a: string, b: string, parts: seq<string>)
    requires |parts| >= 1
    ensures Glue(a, Glue(b, parts)) == Glue(a + b, parts)
  {
    assert a + (b + parts[0]) == a + b + parts[0];
  }

  lemma GlueEmpty(parts: seq<string>)
    requires |parts| >= 1
    ensures Glue("", parts) == parts
  {
    assert "" + parts[0] == parts[0];
  }

  lemma {:induction false} SplitPlainPrefix(name: string, s: string)
    requires Plain(name)
    ensures Split(name + s) == Glue(name, Split(s))
  {
    if name == "" {
      assert name + s == s;
      GlueEmpty(Split(s));
    } else {
      var t := name[1..];
      assert (name + s)[1..] == t + s;
      SplitPlainPrefix(t, s);
      GlueGlue([name[0]], t, Split(s));
      assert [name[0]] + t == name;
    }
  }

  /** names joined with slashes, in the order of the string. */
  function Join(names: seq<string>): string
    requires names != []
  {
    if |names| == 1 then names[0] else names[0] + "/" + Join(names[1..])
  }

  lemma {:induction false} SplitJoin(names: seq<string>)
    requires names != [] && forall n :: n in names ==> Plain(n)
    ensures Split(Join(names)) == names
    decreases |names|
  {
    var n := names[0];
    if |names| == 1 {
      SplitPlainPrefix(n, "");
      assert n + "" == n;
    } else {
      var t := Join(names[1..]);
      assert forall p :: p in names[1..] ==> p in names;
      SplitJoin(names[1..]);
      SplitSlash(n, t);
      assert Join(names) == n + "/" + t == n + ("/" + t);
    }
  }

  lemma {:induction false} SplitSlash(name: string, t: string)
    requires Plain(name)
    ensures Split(name + ("/" + t)) == [name] + Split(t)
  {
    var rest := "/" + t;
    assert rest[1..] == t;
    SplitPlainPrefix(name, rest);
    assert Split(rest) == [""] + Split(t);
    assert name + "" == name && ([""] + Split(t))[1..] == Split(t);
  }

  /** Render is the join of the names behind an optional slash. */
  lemma {:induction false} RenderIsJoin(w: Walk)
    requires w.names != []
    ensures Render(w) == (if w.absolute then "/" else "") + Join(w.names)
    decreases |w.names|
  {
    var init, last := w.(names := w.names[..|w.names| - 1]), w.names[|w.names| - 1];
    if init.names != [] {
      RenderIsJoin(init);
      JoinSnoc(init.names, last);
      assert init.names + [last] == w.names;
      SlashAfter(if w.absolute then "/" else "", Join(init.names), last);
    }
  }

  lemma SlashAfter(a: string, b: string, c: string)
    ensures a + b + "/" + c == a + (b + "/" + c)
  {}

  lemma {:induction false} JoinSnoc(names: seq<string>, last: string)
    requires names != []
    ensures Join(names + [last]) == Join(names) + "/" + last
    decreases |names|
  {
    assert (names + [last])[1..] == names[1..] + [last];
    if |names| > 1 { JoinSnoc(names[1..], last); }
  }

  // ----- Walks over names

  lemma {:induction false} EnterNames(w: Walk, names: seq<string>)
    requires forall n :: n in names ==> Name(n)
    ensures EnterAll(w, names) == w.(names := w.names + names)
    decreases |names|
  {
    if names != [] {
      assert names[0] in names;
      assert forall n :: n in names[1..] ==> n in names;
      EnterNames(Enter(w, names[0]), names[1..]);
      assert w.names + [names[0]] + names[1..] == w.names + names;
    } else {
      assert w.names + [] == w.names;
    }
  }

  /** s is written as an optional slash and names separated by single slashes, or is empty. */
  ghost predicate Normal(s: string) {
    s == "" || forall n :: n in Split(if s[0] == '/' then s[1..] else s) ==> Name(n)
  }

  /** Normalising the path of a walk over names gives that path back. */
  lemma RenderIsFixed(w: Walk)
    requires Names(w)
    ensures Normal(Render(w)) && Normalize(Render(w)) == Render(w)
  {
    if w.names == [] {
      assert EnterAll(Start(""), [""]) == Walk(false, []);
    } else {
      RenderIsJoin(w);
      var s, t := Render(w), Join(w.names);
      SplitJoin(w.names);
      assert Name(w.names[0]);
      FirstOfJoin(w.names);
      if w.absolute {
        assert s[1..] == t;
        assert Split(s) == [""] + w.names;
        assert EnterAll(Start(s), Split(s)) == EnterAll(Start(s), w.names) by {
          assert ([""] + w.names)[1..] == w.names;
        }
      } else {
        assert s == t;
      }
      EnterNames(Start(s), w.names);
      assert [] + w.names == w.names;
    }
  }

  lemma {:induction false} FirstOfJoin(names: seq<string>)
    requires names != [] && Name(names[0])
    ensures Join(names) != "" && Join(names)[0] != '/'
  {}

  /** Main result: the output is in normal form, so normalising twice is normalising once. */
  lemma NormalizeIsIdempotent(s: string)
    ensures Normal(Normalize(s)) && Normalize(Normalize(s)) == Normalize(s)
  {
    NormalizeNames(s);
    RenderIsFixed(EnterAll(Start(s), Split(s)));
  }

  /** The normal forms are exactly the paths that normalisation leaves alone. */
  lemma NormalizeFixesIff(s: string)
    ensures Normalize(s) == s <==> Normal(s)
  {
    NormalizeIsIdempotent(s);
    if Normal(s) && s != "" {
      var w := NormalIsRendered(s);
      RenderIsFixed(w);
    }
  }

  /** A path in normal form is the path of a walk over names. */
  lemma {:induction false} NormalIsRendered(s: string) returns (w: Walk)
    requires Normal(s) && s != ""
    ensures Names(w) && Render(w) == s
  {
    var absolute := s[0] == '/';
    var t := if absolute then s[1..] else s;
    w := Walk(absolute, Split(t));
    JoinSplit(t);
    RenderIsJoin(w);
    assert s == (if absolute then "/" else "") + t;
  }

  lemma {:induction false} JoinSplit(s: string)
    ensures Join(Split(s)) == s
  {
    if s != "" {
      JoinSplit(s[1..]);
      var t := Split(s[1..]);
      if s[0] != '/' { JoinGlue([s[0]], t); }
    }
  }

  lemma {:induction false} JoinGlue(cur: string, parts: seq<string>)
    requires |parts| >= 1
    ensures Join(Glue(cur, parts)) == cur + Join(parts)
  {
    var g := Glue(cur, parts);
    if |parts| > 1 {
      var rest := "/" + Join(parts[1..]);
      assert g[1..] == parts[1..];
      assert Join(parts) == parts[0] + rest;
      assert Join(g) == g[0] + rest;
      assert cur + parts[0] + rest == cur + (parts[0] + rest);
    }
  }

  // ----- Component prefixes

  /** A slash separates the components before it from those after it. */
  lemma {:induction false} SplitConcat(p: string, t: string)
    ensures Split(p + ("/" + t)) == Split(p) + Split(t)
  {
    var s := p + ("/" + t);
    if p == "" {
      assert s[1..] == t;
    } else {
      assert s[1..] == p[1..] + ("/" + t);
      SplitConcat(p[1..], t);
    }
  }

  lemma {:induction false} JoinConcat(a: seq<string>, b: seq<string>)
    requires a != [] && b != []
    ensures Join(a + b) == Join(a) + ("/" + Join(b))
    decreases |a|
  {
    var rest := "/" + Join(b);
    assert (a + b)[1..] == a[1..] + b;
    if |a| > 1 {
      JoinConcat(a[1..], b);
      var head, tail := a[0] + "/", Join(a[1..]);
      assert head + (tail + rest) == head + tail + rest;
    } else {
      assert a[1..] + b == b;
      assert a[0] + "/" + Join(b) == a[0] + rest;
    }
  }

  /** If the components of p begin those of q, then q is p or goes on behind p with a slash. */
  lemma {:induction false} PrefixContinues(p: string, q: string)
    requires Split(p) <= Split(q)
    ensures q == p || (|p| < |q| && q == p + ("/" + q[|p| + 1..]))
  {
    var parts, rest := Split(p), Split(q)[|Split(p)|..];
    assert Split(q) == parts + rest;
    JoinSplit(p);
    JoinSplit(q);
    hide Join;
    hide Split;
    if rest == [] {
      assert Split(q) == parts;
    } else {
      JoinConcat(parts, rest);
      assert q == p + ("/" + Join(rest));
      assert q[|p| + 1..] == Join(rest);
    }
  }
}
