/** The sequence operators the listing queries are built from: Where and
    Distinct, with the order-preservation relation they are judged by. */
module Linq {

  /** r is s with some elements dropped and the rest kept in order. */
  ghost predicate IsSubsequence<T>(r: seq<T>, s: seq<T>)
    decreases |s|
  {
    |r| <= |s| &&
    (r == [] || (r[0] == s[0] && IsSubsequence(r[1..], s[1..])) || IsSubsequence(r, s[1..]))
  }

  lemma {:induction false} SubsequenceReflexive<T>(s: seq<T>)
    ensures IsSubsequence(s, s)
    decreases |s|
  {
    if s != [] {
      SubsequenceReflexive(s[1..]);
    }
  }

  lemma {:induction false} SubsequenceTransitive<T>(a: seq<T>, b: seq<T>, c: seq<T>)
    requires IsSubsequence(a, b) && IsSubsequence(b, c)
    ensures IsSubsequence(a, c)
    decreases |c|
  {
    if a == [] {
    } else if IsSubsequence(b, c[1..]) {
      SubsequenceTransitive(a, b, c[1..]);
    } else if a[0] == b[0] && IsSubsequence(a[1..], b[1..]) {
      SubsequenceTransitive(a[1..], b[1..], c[1..]);
    } else {
      SubsequenceTransitive(a, b[1..], c[1..]);
    }
  }

  /** Enumerable.Where: keeps exactly the elements that satisfy p, every
      copy of them, in order. */
  function Where<T(==,!new)>(s: seq<T>, p: T -> bool): (r: seq<T>)
    ensures forall x :: x in r <==> x in s && p(x)
    ensures forall x :: multiset(r)[x] == if p(x) then multiset(s)[x] else 0
    ensures IsSubsequence(r, s)
    decreases |s|
  {
    if s == [] then []
    else
      var rest := Where(s[1..], p);
      assert forall x :: x in s <==> x == s[0] || x in s[1..];
      assert s == [s[0]] + s[1..];
      if p(s[0]) then
        assert ([s[0]] + rest)[1..] == rest;
        [s[0]] + rest
      else
        rest
  }

  /** Filtering by two predicates that agree on s gives the same result. */
  lemma {:induction false} WhereCongruent<T(!new)>(s: seq<T>, p: T -> bool, q: T -> bool)
    requires forall x :: x in s ==> p(x) == q(x)
    ensures Where(s, p) == Where(s, q)
    decreases |s|
  {
    if s != [] {
      assert forall x :: x in s[1..] ==> x in s;
      WhereCongruent(s[1..], p, q);
    }
  }

  /** A filter that rejects every element leaves nothing. */
  lemma {:induction false} WhereNoneIsEmpty<T(!new)>(s: seq<T>, p: T -> bool)
    requires forall x :: x in s ==> !p(x)
    ensures Where(s, p) == []
    decreases |s|
  {
    if s != [] {
      assert forall x :: x in s[1..] ==> x in s;
      WhereNoneIsEmpty(s[1..], p);
    }
  }

  /** No element occurs twice. */
  predicate NoDuplicates<T(==)>(s: seq<T>)
  {
    forall i, j :: 0 <= i < j < |s| ==> s[i] != s[j]
  }

  /** Enumerable.Distinct: every element of s, each exactly once. */
  function Distinct<T(==,!new)>(s: seq<T>): (r: seq<T>)
    ensures forall x :: x in r <==> x in s
    ensures NoDuplicates(r)
    decreases |s|
  {
    if s == [] then []
    else
      var init, last := s[..|s| - 1], s[|s| - 1];
      assert s == init + [last];
      var r := Distinct(init);
      if last in init then r else r + [last]
  }
}
