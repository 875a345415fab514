/** Order-preserving filtering of sequences: the model of `Vec::retain`. */
module Sequences {

  /** `r` is obtained from `s` by deleting elements (greedy matching decides it). */
  predicate IsSubsequence<T(==)>(r: seq<T>, s: seq<T>)
    decreases |s|
  {
    if r == [] then true
    else if s == [] then false
    else if r[0] == s[0] then IsSubsequence(r[1..], s[1..])
    else IsSubsequence(r, s[1..])
  }

  /** `Vec::retain(p)`: keeps, in their order, the elements that satisfy `p`. */
  function Retain<T(==,!new)>(s: seq<T>, p: T -> bool): (r: seq<T>)
    ensures |r| <= |s|
    ensures forall x :: x in r <==> x in s && p(x)
  {
    if s == [] then []
    else
      var rest := Retain(s[1..], p);
      assert s == [s[0]] + s[1..];
      if p(s[0]) then [s[0]] + rest else rest
  }

  /** What `Retain` keeps is a subsequence of its input holding each element that
      satisfies `p` as often as the input does, and no other element. */
  lemma {:induction false} RetainIsFilter<T(!new)>(s: seq<T>, p: T -> bool)
    ensures IsSubsequence(Retain(s, p), s)
    ensures forall x :: multiset(Retain(s, p))[x] == if p(x) then multiset(s)[x] else 0
  {
    if s != [] {
      RetainIsFilter(s[1..], p);
      assert s == [s[0]] + s[1..];
      if p(s[0]) {
        assert Retain(s, p)[1..] == Retain(s[1..], p);
      }
    }
  }

  lemma {:induction false} SubsequenceMembers<T>(r: seq<T>, s: seq<T>)
    requires IsSubsequence(r, s)
    ensures forall x :: x in r ==> x in s
    decreases |s|
  {
    if r != [] && s != [] {
      if r[0] == s[0] {
        SubsequenceMembers(r[1..], s[1..]);
        assert r == [r[0]] + r[1..];
      } else {
        SubsequenceMembers(r, s[1..]);
      }
    }
  }

  /** Retaining with a predicate that every element satisfies changes nothing. */
  lemma {:induction false} RetainEverything<T(!new)>(s: seq<T>, p: T -> bool)
    requires forall x :: x in s ==> p(x)
    ensures Retain(s, p) == s
  {
    if s != [] {
      RetainEverything(s[1..], p);
    }
  }

  /** Retaining distributes over concatenation: the filter decides element by element. */
  lemma {:induction false} RetainAppend<T(!new)>(a: seq<T>, b: seq<T>, p: T -> bool)
    ensures Retain(a + b, p) == Retain(a, p) + Retain(b, p)
  {
    if a == [] {
      assert a + b == b;
    } else {
      assert (a + b)[1..] == a[1..] + b;
      RetainAppend(a[1..], b, p);
    }
  }

  /** `iter().map(f)`. */
  function Map<T, U>(s: seq<T>, f: T -> U): (r: seq<U>)
    ensures |r| == |s|
    ensures forall i :: 0 <= i < |s| ==> r[i] == f(s[i])
  {
    seq(|s|, i requires 0 <= i < |s| => f(s[i]))
  }

  /** Mapping one more element appends its image. */
  lemma MapSnoc<T, U>(s: seq<T>, f: T -> U, i: nat)
    requires i < |s|
    ensures Map(s[..i + 1], f) == Map(s[..i], f) + [f(s[i])]
  {
  }

  /** Mapping distributes over concatenation. */
  lemma MapAppend<T, U>(a: seq<T>, b: seq<T>, f: T -> U)
    ensures Map(a + b, f) == Map(a, f) + Map(b, f)
  {
  }

  /** The images of the elements, put together in order (`flat_map`). */
  function FlatMap<T, U>(s: seq<T>, f: T -> seq<U>): seq<U> {
    if s == [] then [] else FlatMap(s[..|s| - 1], f) + f(s[|s| - 1])
  }

  lemma FlatMapSnoc<T, U>(s: seq<T>, f: T -> seq<U>, i: nat)
    requires i < |s|
    ensures FlatMap(s[..i + 1], f) == FlatMap(s[..i], f) + f(s[i])
  {
    assert s[..i + 1][..i] == s[..i];
  }

  /** An element of a `FlatMap` is in the image of some element. */
  lemma {:induction false} FlatMapMembers<T, U>(s: seq<T>, f: T -> seq<U>, y: U)
    ensures y in FlatMap(s, f) <==> exists i :: 0 <= i < |s| && y in f(s[i])
  {
    if s != [] {
      var n := |s| - 1;
      FlatMapMembers(s[..n], f, y);
      assert FlatMap(s, f) == FlatMap(s[..n], f) + f(s[n]);
      assert y in FlatMap(s, f) <==> y in FlatMap(s[..n], f) || y in f(s[n]);
      if y in FlatMap(s[..n], f) {
        var i :| 0 <= i < n && y in f(s[..n][i]);
        assert y in f(s[i]);
      }
      if exists i :: 0 <= i < |s| && y in f(s[i]) {
        var i :| 0 <= i < |s| && y in f(s[i]);
        if i < n {
          assert s[..n][i] == s[i];
        }
      }
    }
  }

  /** The sum of the images of the elements. */
  function SumOf<T>(s: seq<T>, f: T -> int): int {
    if s == [] then 0 else SumOf(s[..|s| - 1], f) + f(s[|s| - 1])
  }

  /** The sum over two sequences put together is the sum of their sums. */
  lemma {:induction false} SumOfAppend<T>(a: seq<T>, b: seq<T>, f: T -> int)
    ensures SumOf(a + b, f) == SumOf(a, f) + SumOf(b, f)
  {
    if b == [] {
      assert a + b == a;
    } else {
      var ab, init := a + b, b[..|b| - 1];
      assert ab[..|ab| - 1] == a + init && ab[|ab| - 1] == b[|b| - 1];
      SumOfAppend(a, init, f);
    }
  }

  lemma SumOfSnoc<T>(s: seq<T>, f: T -> int, i: nat)
    requires i < |s|
    ensures SumOf(s[..i + 1], f) == SumOf(s[..i], f) + f(s[i])
  {
    assert s[..i + 1][..i] == s[..i];
  }

  /** Filtering, mapping and filtering again keeps exactly the images of the elements that
      pass the first filter, when they pass the second. */
  lemma FilterMapFilter<T(!new), U(!new)>(s: seq<T>, p: T -> bool, f: T -> U, q: U -> bool)
    ensures forall y :: y in Retain(Map(Retain(s, p), f), q) <==> q(y) && exists x :: x in s && p(x) && y == f(x)
  {
    var kept := Retain(s, p);
    var mapped := Map(kept, f);
    forall y
      ensures y in mapped <==> exists x :: x in s && p(x) && y == f(x)
    {
      if y in mapped {
        var i :| 0 <= i < |mapped| && mapped[i] == y;
        assert kept[i] in kept;
      }
      if exists x :: x in s && p(x) && y == f(x) {
        var x :| x in s && p(x) && y == f(x);
        assert x in kept;
        var i :| 0 <= i < |kept| && kept[i] == x;
        assert mapped[i] == y;
      }
    }
  }

  /** Sequences with the same multiset have the same members. */
  lemma SameMembers<T>(a: seq<T>, b: seq<T>)
    requires multiset(a) == multiset(b)
    ensures forall x :: x in a <==> x in b
  {
    forall x
      ensures x in a <==> x in b
    {
      assert x in a <==> x in multiset(a);
      assert x in b <==> x in multiset(b);
    }
  }
}
