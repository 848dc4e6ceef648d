/**
 * Sorting by a comparator in the style of `java.util.Comparator`: `cmp(a, b) <= 0` says that `a`
 * may come before `b`. Insertion places a new element after every element that may come before
 * it, so elements the comparator ties keep the order in which they were inserted.
 */
module Sorting {

  /** `cmp` orders every pair one way or the other, transitively. */
  ghost predicate TotalPreorder<T(!new)>(cmp: (T, T) -> int) {
    && (forall a, b :: cmp(a, b) <= 0 || cmp(b, a) <= 0)
    && (forall a, b, c | cmp(a, b) <= 0 && cmp(b, c) <= 0 :: cmp(a, c) <= 0)
  }

  /** No element is beaten by a later one. */
  predicate Sorted<T>(cmp: (T, T) -> int, s: seq<T>) {
    forall i, j | 0 <= i < j < |s| :: cmp(s[i], s[j]) <= 0
  }

  /** No two elements share a key. */
  predicate DistinctKeys<T, K(==)>(key: T -> K, s: seq<T>) {
    forall i, j | 0 <= i < j < |s| :: key(s[i]) != key(s[j])
  }

  /** `x` placed into the sorted `s` after every element that may come before it. */
  function Insert<T(!new)>(cmp: (T, T) -> int, s: seq<T>, x: T): (r: seq<T>)
    requires TotalPreorder(cmp) && Sorted(cmp, s)
    ensures Sorted(cmp, r)
    ensures multiset(r) == multiset(s) + multiset{x}
  {
    if s == [] then [x]
    else if cmp(s[0], x) > 0 then
      InsertFront(cmp, s, x);
      [x] + s
    else
      var rest := Insert(cmp, s[1..], x);
      InsertAfter(cmp, s, x, rest);
      [s[0]] + rest
  }

  lemma InsertFront<T(!new)>(cmp: (T, T) -> int, s: seq<T>, x: T)
    requires TotalPreorder(cmp) && Sorted(cmp, s) && s != [] && cmp(s[0], x) > 0
    ensures Sorted(cmp, [x] + s)
  {
    forall j | 0 <= j < |s|
      ensures cmp(x, s[j]) <= 0
    {
      assert cmp(x, s[0]) <= 0;
    }
  }

  /** Every element of `rest` is one of `s[1..]` or `x`. */
  lemma FromTail<T>(s: seq<T>, x: T, rest: seq<T>)
    requires s != [] && multiset(rest) == multiset(s[1..]) + multiset{x}
    ensures forall y | y in rest :: y == x || y in s[1..]
    ensures multiset([s[0]] + rest) == multiset(s) + multiset{x}
  {
    forall y | y in rest
      ensures y == x || y in s[1..]
    {
      assert y in multiset(rest);
    }
    assert s == [s[0]] + s[1..];
  }

  lemma InsertAfter<T(!new)>(cmp: (T, T) -> int, s: seq<T>, x: T, rest: seq<T>)
    requires Sorted(cmp, s) && s != [] && cmp(s[0], x) <= 0
    requires Sorted(cmp, rest) && multiset(rest) == multiset(s[1..]) + multiset{x}
    ensures Sorted(cmp, [s[0]] + rest)
    ensures multiset([s[0]] + rest) == multiset(s) + multiset{x}
  {
    FromTail(s, x, rest);
    forall j | 0 <= j < |rest|
      ensures cmp(s[0], rest[j]) <= 0
    {
      assert rest[j] in rest;
      if rest[j] != x {
        var k :| 0 <= k < |s[1..]| && s[1..][k] == rest[j];
        assert s[k + 1] == rest[j];
      }
    }
  }

  /** A sequence with distinct keys stays so behind an element whose key it does not hold. */
  lemma DistinctCons<T, K>(key: T -> K, y: T, rest: seq<T>)
    requires DistinctKeys(key, rest) && forall e | e in rest :: key(e) != key(y)
    ensures DistinctKeys(key, [y] + rest)
  {
    forall i, j | 0 <= i < j < |rest| + 1
      ensures key(([y] + rest)[i]) != key(([y] + rest)[j])
    {
      if i == 0 {
        assert rest[j - 1] in rest;
      }
    }
  }

  /** Inserting an element whose key is not yet present keeps the keys distinct. */
  lemma {:induction false} InsertDistinct<T(!new), K>(cmp: (T, T) -> int, key: T -> K, s: seq<T>, x: T)
    requires TotalPreorder(cmp) && Sorted(cmp, s) && DistinctKeys(key, s)
    requires forall e | e in s :: key(e) != key(x)
    ensures DistinctKeys(key, Insert(cmp, s, x))
  {
    if s == [] {
    } else if cmp(s[0], x) > 0 {
      DistinctCons(key, x, s);
    } else {
      var rest := Insert(cmp, s[1..], x);
      assert DistinctKeys(key, s[1..]);
      InsertDistinct(cmp, key, s[1..], x);
      FromTail(s, x, rest);
      forall e | e in rest
        ensures key(e) != key(s[0])
      {
        if e != x {
          var k :| 0 <= k < |s[1..]| && s[1..][k] == e;
          assert s[k + 1] == e;
        }
      }
      DistinctCons(key, s[0], rest);
    }
  }

  /** Insertion adds `x` and keeps every element of `s`, and nothing else. */
  lemma InsertElems<T(!new)>(cmp: (T, T) -> int, s: seq<T>, x: T)
    requires TotalPreorder(cmp) && Sorted(cmp, s)
    ensures x in Insert(cmp, s, x)
    ensures forall e | e in s :: e in Insert(cmp, s, x)
    ensures forall e | e in Insert(cmp, s, x) :: e in s || e == x
  {
    var r := Insert(cmp, s, x);
    assert x in multiset(r);
    forall e | e in s
      ensures e in r
    {
      assert e in multiset(s);
      assert e in multiset(r);
    }
    forall e | e in r
      ensures e in s || e == x
    {
      assert e in multiset(r);
    }
  }
}
