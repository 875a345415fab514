/** `slice::sort_by_key`: a stable sort on an integer key, as an insertion sort in place. */
module Sorting {
  import opened Sequences

  predicate SortedBy<T>(s: seq<T>, key: T -> int) {
    forall i, j :: 0 <= i < j < |s| ==> key(s[i]) <= key(s[j])
  }

  function KeyIs<T>(key: T -> int, k: int): T -> bool {
    (x: T) => key(x) == k
  }

  /** The elements of `s` whose key is `k`, in their order. */
  function WithKey<T(==,!new)>(s: seq<T>, key: T -> int, k: int): seq<T> {
    Retain(s, KeyIs(key, k))
  }

  /** Puts `x` after every element whose key is not greater than its own. */
  function Insert<T>(s: seq<T>, x: T, key: T -> int): (r: seq<T>)
    ensures |r| == |s| + 1
  {
    if s == [] || key(s[|s| - 1]) <= key(x) then s + [x]
    else Insert(s[..|s| - 1], x, key) + [s[|s| - 1]]
  }

  /** Inserting adds `x` and nothing else. */
  lemma {:induction false} InsertMultiset<T>(s: seq<T>, x: T, key: T -> int)
    ensures multiset(Insert(s, x, key)) == multiset(s) + multiset{x}
  {
    if s != [] && key(s[|s| - 1]) > key(x) {
      var init, last := s[..|s| - 1], s[|s| - 1];
      InsertMultiset(init, x, key);
      assert s == init + [last];
      assert Insert(s, x, key) == Insert(init, x, key) + [last];
    }
  }

  /** The reference definition of the stable sort: insertion of each element in turn. */
  function SortedByKey<T>(s: seq<T>, key: T -> int): (r: seq<T>)
    ensures |r| == |s|
  {
    if s == [] then []
    else Insert(SortedByKey(s[..|s| - 1], key), s[|s| - 1], key)
  }

  lemma {:induction false} InsertSorted<T>(s: seq<T>, x: T, key: T -> int)
    requires SortedBy(s, key)
    ensures SortedBy(Insert(s, x, key), key)
  {
    if s == [] || key(s[|s| - 1]) <= key(x) {
    } else {
      var init, last := s[..|s| - 1], s[|s| - 1];
      InsertSorted(init, x, key);
      var ins := Insert(init, x, key);
      InsertMultiset(init, x, key);
      forall y | y in ins
        ensures key(y) <= key(last)
      {
        assert y in multiset(ins);
        if y != x {
          assert y in multiset(init);
          var m :| 0 <= m < |init| && init[m] == y;
          assert s[m] == y;
        }
      }
      assert Insert(s, x, key) == ins + [last];
    }
  }

  lemma RetainOne<T(!new)>(x: T, p: T -> bool)
    ensures Retain([x], p) == if p(x) then [x] else []
  {
    assert [x][1..] == [];
  }

  lemma {:induction false} InsertWithKey<T(!new)>(s: seq<T>, x: T, key: T -> int, k: int)
    ensures WithKey(Insert(s, x, key), key, k) == WithKey(s, key, k) + (if key(x) == k then [x] else [])
  {
    var p := KeyIs(key, k);
    RetainOne(x, p);
    var xs := Retain([x], p);
    if s == [] || key(s[|s| - 1]) <= key(x) {
      assert Insert(s, x, key) == s + [x];
      RetainAppend(s, [x], p);
    } else {
      var init, last := s[..|s| - 1], s[|s| - 1];
      var ins := Insert(init, x, key);
      assert Insert(s, x, key) == ins + [last];
      InsertWithKey(init, x, key, k);
      RetainAppend(ins, [last], p);
      assert s == init + [last];
      RetainAppend(init, [last], p);
      RetainOne(last, p);
      var w, ls := Retain(init, p), Retain([last], p);
      assert Retain(Insert(s, x, key), p) == w + xs + ls;
      assert Retain(s, p) == w + ls;
      InsertedAfterEqualKeys(w, xs, ls);
    }
  }

  /** Two parts of which one is empty can be swapped. */
  lemma InsertedAfterEqualKeys<T>(w: seq<T>, xs: seq<T>, ls: seq<T>)
    requires xs == [] || ls == []
    ensures w + xs + ls == w + ls + xs
  {
    if xs == [] {
      assert w + xs + ls == w + ls;
    } else {
      assert w + xs + ls == w + xs;
    }
  }

  /** The sort is stable: the result is ordered by the key, it is a permutation of the
      input, and elements with equal keys keep their input order. */
  lemma SortedByKeyProperties<T(!new)>(s: seq<T>, key: T -> int)
    ensures SortedBy(SortedByKey(s, key), key)
    ensures multiset(SortedByKey(s, key)) == multiset(s)
    ensures forall k :: WithKey(SortedByKey(s, key), key, k) == WithKey(s, key, k)
  {
    SortedByKeySorted(s, key);
    SortedByKeyPermutes(s, key);
    forall k
      ensures WithKey(SortedByKey(s, key), key, k) == WithKey(s, key, k)
    {
      SortedByKeyStable(s, key, k);
    }
  }

  lemma {:induction false} SortedByKeySorted<T>(s: seq<T>, key: T -> int)
    ensures SortedBy(SortedByKey(s, key), key)
  {
    if s != [] {
      SortedByKeySorted(s[..|s| - 1], key);
      InsertSorted(SortedByKey(s[..|s| - 1], key), s[|s| - 1], key);
    }
  }

  lemma {:induction false} SortedByKeyPermutes<T>(s: seq<T>, key: T -> int)
    ensures multiset(SortedByKey(s, key)) == multiset(s)
  {
    if s != [] {
      var init, last := s[..|s| - 1], s[|s| - 1];
      SortedByKeyPermutes(init, key);
      InsertMultiset(SortedByKey(init, key), last, key);
      assert s == init + [last];
    }
  }

  lemma {:induction false} SortedByKeyStable<T(!new)>(s: seq<T>, key: T -> int, k: int)
    ensures WithKey(SortedByKey(s, key), key, k) == WithKey(s, key, k)
  {
    if s != [] {
      var init, last := s[..|s| - 1], s[|s| - 1];
      SortedByKeyStable(init, key, k);
      InsertWithKey(SortedByKey(init, key), last, key, k);
      assert s == init + [last];
      RetainAppend(init, [last], KeyIs(key, k));
    }
  }

  /** Where the shifting loop of the insertion sort stops, `x` goes. */
  lemma {:induction false} InsertAt<T>(s: seq<T>, x: T, key: T -> int, j: nat)
    requires j <= |s|
    requires j == 0 || key(s[j - 1]) <= key(x)
    requires forall m :: j <= m < |s| ==> key(s[m]) > key(x)
    ensures Insert(s, x, key) == s[..j] + [x] + s[j..]
    decreases |s|
  {
    if j < |s| {
      var init, last := s[..|s| - 1], s[|s| - 1];
      assert key(last) > key(x);
      assert Insert(s, x, key) == Insert(init, x, key) + [last];
      InsertAt(init, x, key, j);
      assert init[..j] == s[..j];
      assert init[j..] + [last] == s[j..];
      assert s[..j] + [x] + init[j..] + [last] == s[..j] + [x] + s[j..];
    } else {
      assert s[..j] == s && s[j..] == [];
    }
  }

  /** One round of the insertion sort: moves `a[i]` left past the elements of the prefix
      `a[..i]` whose key is greater. */
  method InsertLast<T>(a: array<T>, i: nat, key: T -> int)
    requires i < a.Length
    modifies a
    ensures a[..i + 1] == Insert(old(a[..i]), old(a[i]), key)
    ensures forall m :: i < m < a.Length ==> a[m] == old(a[m])
  {
    ghost var prefix := a[..i];
    var x := a[i];
    var j := i;
    while j > 0 && key(a[j - 1]) > key(x)
      invariant 0 <= j <= i
      invariant forall m :: 0 <= m < j ==> a[m] == prefix[m]
      invariant forall m :: j < m <= i ==> a[m] == prefix[m - 1]
      invariant forall m :: j <= m < i ==> key(prefix[m]) > key(x)
      invariant forall m :: i < m < a.Length ==> a[m] == old(a[m])
    {
      a[j] := a[j - 1];
      j := j - 1;
    }
    a[j] := x;
    InsertAt(prefix, x, key, j);
    ghost var inserted := prefix[..j] + [x] + prefix[j..];
    assert forall m :: 0 <= m <= i ==> a[m] == inserted[m];
    assert a[..i + 1] == inserted;
  }

  /** `sort_by_key`: sorts `a` in place by `key`, stably. */
  method SortByKey<T>(a: array<T>, key: T -> int)
    modifies a
    ensures a[..] == SortedByKey(old(a[..]), key)
  {
    ghost var input := a[..];
    var i := 0;
    while i < a.Length
      invariant 0 <= i <= a.Length
      invariant a[..i] == SortedByKey(input[..i], key)
      invariant forall m :: i <= m < a.Length ==> a[m] == input[m]
    {
      ghost var sorted := a[..i];
      assert a[i] == input[i];
      InsertLast(a, i, key);
      assert input[..i + 1][..i] == input[..i];
      assert SortedByKey(input[..i + 1], key) == Insert(sorted, input[i], key);
      i := i + 1;
    }
    assert a[..] == a[..a.Length];
    assert input == input[..a.Length];
  }
}
