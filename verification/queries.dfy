/**
  Generic read-side building blocks of a queryset: `filter`, `order_by`
  on a descending key, and slicing to the first `k` rows.

  Sort keys are nullable timestamps. In a descending `ORDER BY` a NULL
  key is treated as the smallest value, so it is listed last (the
  SQLite convention). Rows with equal keys may come in any order, so
  contracts state sortedness and exact membership, never one particular
  permutation.
*/
module Queries {
  import opened Basics

  /** `a` may be listed before `b` in a descending ordering. */
  predicate AtLeast(a: Option<int>, b: Option<int>)
  {
    match b
    case None => true
    case Some(y) => a.Some? && a.value >= y
  }

  lemma AtLeastTotal(a: Option<int>, b: Option<int>)
    ensures AtLeast(a, b) || AtLeast(b, a)
  {
  }

  lemma AtLeastTransitive(a: Option<int>, b: Option<int>, c: Option<int>)
    requires AtLeast(a, b) && AtLeast(b, c)
    ensures AtLeast(a, c)
  {
  }

  /** Non-increasing in `key`: the shape of `.order_by('-field')`. */
  ghost predicate SortedDesc<T>(s: seq<T>, key: T -> Option<int>)
  {
    forall i, j :: 0 <= i < j < |s| ==> AtLeast(key(s[i]), key(s[j]))
  }

  /** No element is listed twice. */
  ghost predicate Distinct<T>(s: seq<T>)
  {
    forall i, j :: 0 <= i < j < |s| ==> s[i] != s[j]
  }

  /** `.filter(keep)`: the elements satisfying `keep`, each exactly as often
      as in `s`. The body keeps their original order; the contract states
      only what a caller needs in general (see `FilterKeepsKeyOrder` for
      the order of rows). */
  function Filter<T(!new)>(s: seq<T>, keep: T -> bool): (r: seq<T>)
    ensures forall x :: x in r <==> x in s && keep(x)
    ensures forall x :: multiset(r)[x] == if keep(x) then multiset(s)[x] else 0
    ensures Distinct(s) ==> Distinct(r)
    ensures |r| <= |s|
  {
    if |s| == 0 then []
    else
      var rest := Filter(s[1..], keep);
      assert s == [s[0]] + s[1..];
      assert multiset(s) == multiset{s[0]} + multiset(s[1..]);
      FilterStepDistinct(s, rest, keep);
      if keep(s[0]) then
        assert multiset([s[0]] + rest) == multiset{s[0]} + multiset(rest);
        [s[0]] + rest
      else
        rest
  }

  /** Appending a kept element adds exactly that element to the filtered
      multiset. */
  lemma FilterAppend<T(!new)>(s: seq<T>, x: T, keep: T -> bool)
    requires keep(x)
    ensures multiset(Filter(s + [x], keep)) == multiset(Filter(s, keep)) + multiset{x}
  {
    assert multiset(s + [x]) == multiset(s) + multiset{x};
    forall y
      ensures multiset(Filter(s + [x], keep))[y] == (multiset(Filter(s, keep)) + multiset{x})[y]
    {
    }
  }

  /** One step of `Filter` keeps a list without repetitions free of them. */
  lemma FilterStepDistinct<T>(s: seq<T>, rest: seq<T>, keep: T -> bool)
    requires |s| > 0
    requires forall x :: x in rest ==> x in s[1..]
    requires Distinct(s[1..]) ==> Distinct(rest)
    ensures Distinct(s) ==> Distinct(rest) && (keep(s[0]) ==> Distinct([s[0]] + rest))
  {
    if Distinct(s) {
      DistinctTail(s);
      if keep(s[0]) {
        var r := [s[0]] + rest;
        forall i, j | 0 <= i < j < |r| ensures r[i] != r[j] {
          if i == 0 {
            assert r[j] == rest[j - 1] && rest[j - 1] in rest;
          } else {
            assert r[i] == rest[i - 1] && r[j] == rest[j - 1];
          }
        }
      }
    }
  }

  /** Prepending an element that outranks every element keeps a list sorted. */
  lemma {:induction false} PrependSorted<T>(h: T, s: seq<T>, key: T -> Option<int>)
    requires SortedDesc(s, key)
    requires forall y :: y in s ==> AtLeast(key(h), key(y))
    ensures SortedDesc([h] + s, key)
  {
    var r := [h] + s;
    forall i, j | 0 <= i < j < |r|
      ensures AtLeast(key(r[i]), key(r[j]))
    {
      if i == 0 {
        assert r[j] == s[j - 1];
        assert s[j - 1] in s;
      } else {
        assert r[i] == s[i - 1] && r[j] == s[j - 1];
      }
    }
  }

  /** Insert `x` into a descending list in front of the first element it is
      not smaller than. */
  function Insert<T(!new)>(x: T, s: seq<T>, key: T -> Option<int>): (r: seq<T>)
    requires SortedDesc(s, key)
    ensures SortedDesc(r, key)
    ensures forall y :: y in r <==> y == x || y in s
    ensures |r| == |s| + 1
  {
    if |s| == 0 then [x]
    else if AtLeast(key(x), key(s[0])) then
      forall y | y in s
        ensures AtLeast(key(x), key(y))
      {
        var j :| 0 <= j < |s| && s[j] == y;
        if j > 0 {
          AtLeastTransitive(key(x), key(s[0]), key(s[j]));
        }
      }
      PrependSorted(x, s, key);
      [x] + s
    else
      var tail := s[1..];
      var rest := Insert(x, tail, key);
      AtLeastTotal(key(x), key(s[0]));
      forall y | y in rest
        ensures AtLeast(key(s[0]), key(y))
      {
        if y != x {
          var i :| 0 <= i < |tail| && tail[i] == y;
          assert s[i + 1] == y;
        }
      }
      PrependSorted(s[0], rest, key);
      assert s == [s[0]] + tail;
      [s[0]] + rest
  }

  /** Insertion adds exactly one occurrence of `x`. */
  lemma {:induction false} InsertMultiset<T(!new)>(x: T, s: seq<T>, key: T -> Option<int>)
    requires SortedDesc(s, key)
    ensures multiset(Insert(x, s, key)) == multiset(s) + multiset{x}
  {
    if |s| > 0 && !AtLeast(key(x), key(s[0])) {
      InsertMultiset(x, s[1..], key);
      assert s == [s[0]] + s[1..];
    }
  }

  /** Insertion of a new element into a list without repetitions repeats nothing. */
  lemma {:induction false} InsertDistinct<T(!new)>(x: T, s: seq<T>, key: T -> Option<int>)
    requires SortedDesc(s, key)
    requires Distinct(s) && x !in s
    ensures Distinct(Insert(x, s, key))
  {
    if |s| > 0 && !AtLeast(key(x), key(s[0])) {
      var tail := s[1..];
      DistinctTail(s);
      assert x !in tail;
      InsertDistinct(x, tail, key);
    }
  }

  lemma DistinctTail<T>(s: seq<T>)
    requires |s| > 0 && Distinct(s)
    ensures Distinct(s[1..]) && s[0] !in s[1..]
  {
    forall i, j | 0 <= i < j < |s[1..]| ensures s[1..][i] != s[1..][j] {
      assert s[1..][i] == s[i + 1] && s[1..][j] == s[j + 1];
    }
  }

  /** One step of insertion sort keeps a list without repetitions free of them. */
  lemma SortStepDistinct<T(!new)>(s: seq<T>, rest: seq<T>, key: T -> Option<int>)
    requires |s| > 0 && SortedDesc(rest, key)
    requires forall y :: y in rest <==> y in s[1..]
    requires Distinct(s[1..]) ==> Distinct(rest)
    ensures Distinct(s) ==> Distinct(Insert(s[0], rest, key))
  {
    if Distinct(s) {
      DistinctTail(s);
      InsertDistinct(s[0], rest, key);
    }
  }

  /** The head of a descending list outranks every element. */
  lemma HeadOfSorted<T>(s: seq<T>, key: T -> Option<int>, i: nat)
    requires SortedDesc(s, key) && i < |s|
    ensures AtLeast(key(s[0]), key(s[i]))
  {
  }

  /** `.order_by('-key')`: a descending rearrangement of `s`. */
  function SortDesc<T(!new)>(s: seq<T>, key: T -> Option<int>): (r: seq<T>)
    ensures SortedDesc(r, key)
    ensures multiset(r) == multiset(s)
    ensures forall y :: y in r <==> y in s
    ensures |r| == |s|
    ensures Distinct(s) ==> Distinct(r)
  {
    if |s| == 0 then []
    else
      var rest := SortDesc(s[1..], key);
      assert s == [s[0]] + s[1..];
      InsertMultiset(s[0], rest, key);
      SortStepDistinct(s, rest, key);
      Insert(s[0], rest, key)
  }

  /** `[:k]` on a sorted queryset: the first `k` rows, or all of them. */
  function Take<T>(s: seq<T>, k: nat): (r: seq<T>)
    ensures |r| == Min(|s|, k)
    ensures forall i :: 0 <= i < |r| ==> r[i] == s[i]
  {
    if |s| <= k then s else s[..k]
  }

  /** A descending list cut anywhere: nothing left behind outranks what was kept. */
  lemma {:induction false} TakeKeepsTheLargest<T>(s: seq<T>, key: T -> Option<int>, k: nat, x: T, y: T)
    requires SortedDesc(s, key)
    requires x in s && x !in Take(s, k) && y in Take(s, k)
    ensures AtLeast(key(y), key(x))
  {
    var r := Take(s, k);
    var i :| 0 <= i < |s| && s[i] == x;
    var j :| 0 <= j < |r| && r[j] == y;
    assert s[j] == y;
  }

  /** `.order_by('-key')[:k]`: the `k` largest elements of `s` by `key`. */
  function TopK<T(!new)>(s: seq<T>, key: T -> Option<int>, k: nat): (r: seq<T>)
    ensures |r| == Min(|s|, k)
    ensures SortedDesc(r, key)
    ensures forall y :: y in r ==> y in s
    ensures |s| <= k ==> forall y :: y in s ==> y in r
    ensures forall x, y :: x in s && x !in r && y in r ==> AtLeast(key(y), key(x))
    ensures Distinct(s) ==> Distinct(r)
  {
    var sorted := SortDesc(s, key);
    var r := Take(sorted, k);
    forall y | y in r
      ensures y in s
    {
      var j :| 0 <= j < |r| && r[j] == y;
      assert sorted[j] == y;
    }
    forall x, y | x in s && x !in r && y in r
      ensures AtLeast(key(y), key(x))
    {
      TakeKeepsTheLargest(sorted, key, k, x, y);
    }
    r
  }
}
