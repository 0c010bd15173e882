/** `Array.prototype.sort` with a numeric key: a stable, ascending rearrangement
    (section 23.1.3.30 of ECMA-262 requires stability). */
module StableSort {

  function Insert<T>(x: T, sorted: seq<T>, key: T -> int): seq<T> {
    if sorted == [] then [x]
    else if key(x) <= key(sorted[0]) then [x] + sorted
    else [sorted[0]] + Insert(x, sorted[1..], key)
  }

  function SortBy<T>(xs: seq<T>, key: T -> int): seq<T> {
    if xs == [] then [] else Insert(xs[0], SortBy(xs[1..], key), key)
  }

  ghost predicate Ascending<T>(xs: seq<T>, key: T -> int) {
    forall i, j :: 0 <= i < j < |xs| ==> key(xs[i]) <= key(xs[j])
  }

  lemma {:induction false} InsertMultiset<T>(x: T, sorted: seq<T>, key: T -> int)
    ensures multiset(Insert(x, sorted, key)) == multiset{x} + multiset(sorted)
  {
    if sorted != [] && key(x) > key(sorted[0]) {
      InsertMultiset(x, sorted[1..], key);
      assert sorted == [sorted[0]] + sorted[1..];
    }
  }

  lemma AscendingCons<T>(x: T, rest: seq<T>, key: T -> int)
    requires Ascending(rest, key) && forall y :: y in rest ==> key(x) <= key(y)
    ensures Ascending([x] + rest, key)
  {
  }

  lemma {:induction false} InsertSorted<T>(x: T, sorted: seq<T>, key: T -> int)
    requires Ascending(sorted, key)
    ensures Ascending(Insert(x, sorted, key), key)
  {
    if sorted == [] {
    } else if key(x) <= key(sorted[0]) {
      AscendingCons(x, sorted, key);
    } else {
      var rest := Insert(x, sorted[1..], key);
      InsertSorted(x, sorted[1..], key);
      InsertMultiset(x, sorted[1..], key);
      forall y | y in rest
        ensures key(sorted[0]) <= key(y)
      {
        assert y in multiset(rest);
        assert y == x || y in sorted[1..];
      }
      AscendingCons(sorted[0], rest, key);
    }
  }

  /** The result is the same elements in ascending order of key. */
  lemma {:induction false} SortBySorts<T>(xs: seq<T>, key: T -> int)
    ensures Ascending(SortBy(xs, key), key)
    ensures multiset(SortBy(xs, key)) == multiset(xs)
    ensures |SortBy(xs, key)| == |xs|
  {
    if xs != [] {
      SortBySorts(xs[1..], key);
      InsertSorted(xs[0], SortBy(xs[1..], key), key);
      InsertMultiset(xs[0], SortBy(xs[1..], key), key);
      assert xs == [xs[0]] + xs[1..];
    }
    assert |multiset(SortBy(xs, key))| == |multiset(xs)|;
  }

  /** The elements whose key is k, in order. */
  function WithKey<T>(xs: seq<T>, key: T -> int, k: int): seq<T> {
    if xs == [] then []
    else (if key(xs[0]) == k then [xs[0]] else []) + WithKey(xs[1..], key, k)
  }

  lemma WithKeyCons<T>(x: T, xs: seq<T>, key: T -> int, k: int)
    ensures WithKey([x] + xs, key, k) == (if key(x) == k then [x] else []) + WithKey(xs, key, k)
  {
    assert ([x] + xs)[1..] == xs;
  }

  lemma {:induction false} InsertStable<T>(x: T, sorted: seq<T>, key: T -> int, k: int)
    requires Ascending(sorted, key)
    ensures WithKey(Insert(x, sorted, key), key, k) ==
            (if key(x) == k then [x] else []) + WithKey(sorted, key, k)
  {
    hide WithKey;
    if sorted != [] && key(x) > key(sorted[0]) {
      var first, rest := sorted[0], sorted[1..];
      InsertStable(x, rest, key, k);
      WithKeyCons(first, Insert(x, rest, key), key, k);
      WithKeyCons(first, rest, key, k);
      assert sorted == [first] + rest;
      var kept := WithKey(rest, key, k);
      if key(first) == k {
        assert [first] + ([] + kept) == [] + ([first] + kept);
      } else {
        var mine := if key(x) == k then [x] else [];
        assert [] + (mine + kept) == mine + ([] + kept);
      }
    } else {
      WithKeyCons(x, sorted, key, k);
      assert Insert(x, sorted, key) == [x] + sorted;
    }
  }

  /** Elements with equal keys keep their input order. */
  lemma {:induction false} SortByStable<T>(xs: seq<T>, key: T -> int, k: int)
    ensures WithKey(SortBy(xs, key), key, k) == WithKey(xs, key, k)
  {
    if xs != [] {
      SortByStable(xs[1..], key, k);
      SortBySorts(xs[1..], key);
      InsertStable(xs[0], SortBy(xs[1..], key), key, k);
    }
  }

  lemma SortByMembers<T>(xs: seq<T>, key: T -> int, x: T)
    ensures x in SortBy(xs, key) <==> x in xs
  {
    SortBySorts(xs, key);
    assert x in multiset(SortBy(xs, key)) <==> x in multiset(xs);
  }
}
