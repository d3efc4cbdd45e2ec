/** Sequences of addresses as the lists of the kernel use them. */
module Sequences {

  ghost predicate Distinct(s: seq<nat>) { forall i, j :: 0 <= i < j < |s| ==> s[i] != s[j] }

  /** s without the first occurrence of x. */
  function Without(s: seq<nat>, x: nat): seq<nat> {
    if s == [] then [] else if s[0] == x then s[1..] else [s[0]] + Without(s[1..], x)
  }

  lemma {:induction false} WithoutFirst(s: seq<nat>, n: nat)
    requires n < |s| && s[n] !in s[..n]
    ensures Without(s, s[n]) == s[..n] + s[n + 1..]
  {
    if n > 0 {
      assert s[..n] == [s[0]] + s[1..][..n - 1];
      WithoutFirst(s[1..], n - 1);
    }
  }

  lemma WithoutAt(s: seq<nat>, n: nat)
    requires Distinct(s) && n < |s|
    ensures Without(s, s[n]) == s[..n] + s[n + 1..]
  {
    WithoutFirst(s, n);
  }

  lemma {:induction false} WithoutAbsent(s: seq<nat>, x: nat)
    requires x !in s
    ensures Without(s, x) == s
  {
    if s != [] { WithoutAbsent(s[1..], x); }
  }
}
