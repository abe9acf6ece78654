/** Queries over sequences that the pages write with `filter`, `find` and `reduce`. */
module Seqs {
  import opened Wrappers

  /** `xs.filter(p)`: the elements satisfying `p`, in their order. */
  function Filter<T(!new)>(xs: seq<T>, p: T -> bool): (r: seq<T>)
    ensures |r| <= |xs|
    ensures forall x :: x in r <==> x in xs && p(x)
  {
    if xs == [] then [] else (if p(xs[0]) then [xs[0]] else []) + Filter(xs[1..], p)
  }

  /** `xs.find(p)`: the first element satisfying `p`, if any. */
  function Find<T(!new)>(xs: seq<T>, p: T -> bool): (r: Option<T>)
    ensures r.Some? ==> r.value in xs && p(r.value)
    ensures r.None? <==> forall x :: x in xs ==> !p(x)
  {
    if xs == [] then None else if p(xs[0]) then Some(xs[0]) else Find(xs[1..], p)
  }

  /** `find` returns the element at the first position that satisfies the predicate. */
  lemma {:induction false} FindIsFirst<T(!new)>(xs: seq<T>, p: T -> bool)
    requires Find(xs, p).Some?
    ensures exists i :: 0 <= i < |xs| && xs[i] == Find(xs, p).value && FirstMatchAt(xs, p, i)
  {
    if !p(xs[0]) {
      FindIsFirst(xs[1..], p);
      var i :| 0 <= i < |xs[1..]| && xs[1..][i] == Find(xs, p).value && FirstMatchAt(xs[1..], p, i);
      assert FirstMatchAt(xs, p, i + 1);
    } else {
      assert FirstMatchAt(xs, p, 0);
    }
  }

  /** Position `i` satisfies `p` and no earlier position does. */
  predicate FirstMatchAt<T>(xs: seq<T>, p: T -> bool, i: int)
    requires 0 <= i < |xs|
  {
    p(xs[i]) && forall j :: 0 <= j < i ==> !p(xs[j])
  }

  /** A filter whose predicate holds everywhere keeps the whole sequence. */
  lemma {:induction false} KeepAll<T(!new)>(xs: seq<T>, p: T -> bool)
    requires forall x :: p(x)
    ensures Filter(xs, p) == xs
  {
    if xs != [] {
      KeepAll(xs[1..], p);
    }
  }

  /** Filters by predicates that agree everywhere give the same result. */
  lemma {:induction false} SameFilter<T(!new)>(xs: seq<T>, p: T -> bool, q: T -> bool)
    requires forall x :: p(x) == q(x)
    ensures Filter(xs, p) == Filter(xs, q)
  {
    if xs != [] {
      SameFilter(xs[1..], p, q);
    }
  }

  /** Sum of `f` over the elements. */
  function SumBy<T>(xs: seq<T>, f: T -> int): int
  {
    if xs == [] then 0 else f(xs[0]) + SumBy(xs[1..], f)
  }

  /** Number of elements satisfying `p`. */
  function CountBy<T>(xs: seq<T>, p: T -> bool): nat
  {
    if xs == [] then 0 else (if p(xs[0]) then 1 else 0) + CountBy(xs[1..], p)
  }

  lemma {:induction false} CountByBound<T>(xs: seq<T>, p: T -> bool)
    ensures CountBy(xs, p) <= |xs|
  {
    if xs != [] {
      CountByBound(xs[1..], p);
    }
  }

  lemma {:induction false} SumByAppend<T>(xs: seq<T>, ys: seq<T>, f: T -> int)
    ensures SumBy(xs + ys, f) == SumBy(xs, f) + SumBy(ys, f)
  {
    if xs != [] {
      SumByAppend(xs[1..], ys, f);
      assert (xs + ys)[1..] == xs[1..] + ys;
    } else {
      assert xs + ys == ys;
    }
  }

  lemma {:induction false} CountByAppend<T>(xs: seq<T>, ys: seq<T>, p: T -> bool)
    ensures CountBy(xs + ys, p) == CountBy(xs, p) + CountBy(ys, p)
  {
    if xs != [] {
      CountByAppend(xs[1..], ys, p);
      assert (xs + ys)[1..] == xs[1..] + ys;
    } else {
      assert xs + ys == ys;
    }
  }

  /** A filter keeps exactly as many elements as satisfy the predicate. */
  lemma {:induction false} FilterCount<T(!new)>(xs: seq<T>, p: T -> bool)
    ensures |Filter(xs, p)| == CountBy(xs, p)
  {
    if xs != [] {
      FilterCount(xs[1..], p);
    }
  }

  /** A filter keeps each element at most as often as the sequence holds it. */
  lemma {:induction false} FilterSubMultiset<T(!new)>(xs: seq<T>, p: T -> bool)
    ensures multiset(Filter(xs, p)) <= multiset(xs)
  {
    if xs != [] {
      FilterSubMultiset(xs[1..], p);
      assert xs == [xs[0]] + xs[1..];
    }
  }

  /** Summing over a filter sums the elements that satisfy the predicate. */
  lemma {:induction false} FilterSum<T(!new)>(xs: seq<T>, p: T -> bool, f: T -> int)
    ensures SumBy(Filter(xs, p), f) == SumBy(xs, x => if p(x) then f(x) else 0)
  {
    if xs != [] {
      FilterSum(xs[1..], p, f);
      var head := if p(xs[0]) then [xs[0]] else [];
      SumByAppend(head, Filter(xs[1..], p), f);
      if p(xs[0]) {
        assert head[1..] == [];
      }
    }
  }

  /** Every element either satisfies the predicate or its negation. */
  lemma {:induction false} CountComplement<T(!new)>(xs: seq<T>, p: T -> bool, q: T -> bool)
    requires forall x :: q(x) <==> !p(x)
    ensures CountBy(xs, p) + CountBy(xs, q) == |xs|
  {
    if xs != [] {
      CountComplement(xs[1..], p, q);
    }
  }
}
