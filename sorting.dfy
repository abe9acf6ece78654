/**
 * Ordering by a numeric key, largest first, as the pages and handlers order by a date:
 * `list.sort((a, b) => key(b) - key(a))` (a stable sort) and SQL `ORDER BY ... DESC`.
 */
module Sorting {
  import opened Seqs

  /** Keys never increase along the sequence. */
  ghost predicate SortedDesc<T>(xs: seq<T>, key: T -> int) {
    forall i, j :: 0 <= i < j < |xs| ==> key(xs[i]) >= key(xs[j])
  }

  /** Puts `x` in front of the first element whose key is not larger than its own. */
  function InsertDesc<T>(x: T, xs: seq<T>, key: T -> int): seq<T>
  {
    if xs == [] || key(x) >= key(xs[0]) then [x] + xs else [xs[0]] + InsertDesc(x, xs[1..], key)
  }

  /** Stable insertion sort, largest key first; elements with equal keys keep their order. */
  function SortDesc<T>(xs: seq<T>, key: T -> int): seq<T>
  {
    if xs == [] then [] else InsertDesc(xs[0], SortDesc(xs[1..], key), key)
  }

  /** Inserting adds exactly `x`, and adds `x`'s share to sums and counts. */
  lemma {:induction false} InsertDescContents<T>(x: T, xs: seq<T>, key: T -> int, f: T -> int, p: T -> bool)
    ensures multiset(InsertDesc(x, xs, key)) == multiset(xs) + multiset{x}
    ensures SumBy(InsertDesc(x, xs, key), f) == f(x) + SumBy(xs, f)
    ensures CountBy(InsertDesc(x, xs, key), p) == (if p(x) then 1 else 0) + CountBy(xs, p)
  {
    if xs == [] || key(x) >= key(xs[0]) {
      assert ([x] + xs)[1..] == xs;
    } else {
      InsertDescContents(x, xs[1..], key, f, p);
      var r := [xs[0]] + InsertDesc(x, xs[1..], key);
      assert r[1..] == InsertDesc(x, xs[1..], key);
      assert xs == [xs[0]] + xs[1..];
    }
  }

  /** Inserting into a sorted sequence keeps it sorted. */
  lemma {:induction false} InsertDescSorted<T>(x: T, xs: seq<T>, key: T -> int)
    requires SortedDesc(xs, key)
    ensures SortedDesc(InsertDesc(x, xs, key), key)
  {
    if xs == [] || key(x) >= key(xs[0]) {
      var r := [x] + xs;
      forall i, j | 0 <= i < j < |r| ensures key(r[i]) >= key(r[j]) {
        if i > 0 {
          assert r[i] == xs[i - 1];
        }
        assert r[j] == xs[j - 1];
      }
    } else {
      var rest := InsertDesc(x, xs[1..], key);
      InsertDescSorted(x, xs[1..], key);
      InsertDescContents(x, xs[1..], key, key, _ => true);
      var r := [xs[0]] + rest;
      forall j | 0 <= j < |rest| ensures key(xs[0]) >= key(rest[j]) {
        assert rest[j] in multiset(rest);
        if rest[j] != x {
          assert rest[j] in multiset(xs[1..]);
          var k :| 0 <= k < |xs[1..]| && xs[1..][k] == rest[j];
          assert xs[k + 1] == rest[j];
        }
      }
      forall i, j | 0 <= i < j < |r| ensures key(r[i]) >= key(r[j]) {
        assert r[j] == rest[j - 1];
        if i > 0 {
          assert r[i] == rest[i - 1];
        }
      }
    }
  }

  /** The sorted sequence has non-increasing keys. */
  lemma {:induction false} SortDescSorted<T>(xs: seq<T>, key: T -> int)
    ensures SortedDesc(SortDesc(xs, key), key)
  {
    if xs != [] {
      SortDescSorted(xs[1..], key);
      InsertDescSorted(xs[0], SortDesc(xs[1..], key), key);
    }
  }

  /**
   * The sorted sequence is a permutation of the input, so any sum or count over it is the
   * same as over the input.
   */
  lemma {:induction false} SortDescPermutes<T>(xs: seq<T>, key: T -> int, f: T -> int, p: T -> bool)
    ensures multiset(SortDesc(xs, key)) == multiset(xs)
    ensures |SortDesc(xs, key)| == |xs|
    ensures SumBy(SortDesc(xs, key), f) == SumBy(xs, f)
    ensures CountBy(SortDesc(xs, key), p) == CountBy(xs, p)
  {
    if xs != [] {
      var tail := SortDesc(xs[1..], key);
      SortDescPermutes(xs[1..], key, f, p);
      InsertDescContents(xs[0], tail, key, f, p);
      assert multiset(xs) == multiset{xs[0]} + multiset(xs[1..]) by {
        assert xs == [xs[0]] + xs[1..];
      }
      assert |SortDesc(xs, key)| == |multiset(SortDesc(xs, key))|;
    }
  }
}
