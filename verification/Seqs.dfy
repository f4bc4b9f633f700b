/** Sequences without repetition. */
module Seqs {

  ghost predicate Distinct<X>(s: seq<X>) {
    s != [] ==> s[0] !in s[1..] && Distinct(s[1..])
  }

  /** `s` without `x`. */
  ghost function Without<X>(s: seq<X>, x: X): (r: seq<X>)
    ensures x !in s ==> r == s
    ensures forall y <- r :: y in s && y != x
    ensures forall y <- s :: y != x ==> y in r
  {
    if s == [] then []
    else if s[0] == x then Without(s[1..], x)
    else [s[0]] + Without(s[1..], x)
  }

  lemma {:induction false} WithoutKeepsDistinct<X>(s: seq<X>, x: X)
    requires Distinct(s)
    ensures Distinct(Without(s, x))
  {
    if s != [] {
      WithoutKeepsDistinct(s[1..], x);
    }
  }

  /** What is left keeps its order. */
  lemma {:induction false} WithoutAt<X>(s: seq<X>, i: nat)
    requires Distinct(s) && i < |s|
    ensures Without(s, s[i]) == s[..i] + s[i + 1..]
  {
    if i > 0 {
      assert s[i] == s[1..][i - 1];
      WithoutAt(s[1..], i - 1);
      assert s[..i] + s[i + 1..] == [s[0]] + (s[1..][..i - 1] + s[1..][i..]);
    }
  }

  lemma {:induction false} ConcatDistinct<X>(s: seq<X>, t: seq<X>)
    ensures Distinct(s + t) <==> Distinct(s) && Distinct(t) && forall x <- s :: x !in t
  {
    if s == [] {
      assert s + t == t;
    } else {
      assert (s + t)[1..] == s[1..] + t;
      ConcatDistinct(s[1..], t);
      assert s == [s[0]] + s[1..];
    }
  }
}
