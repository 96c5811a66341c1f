/**
 * The small pieces of the JavaScript runtime that the dashboard scripts lean on:
 * `undefined` (as `None`), `Array.prototype.indexOf`, de-duplication through
 * `new Set`, and the notion of an order-preserving subsequence that
 * `Array.prototype.filter` produces.
 */
module Prelude {

  datatype Option<+T> = None | Some(value: T)

  /** No value occurs twice. */
  predicate NoDuplicates<T(==)>(xs: seq<T>) {
    forall i, j :: 0 <= i < j < |xs| ==> xs[i] != xs[j]
  }

  /** `a` can be obtained from `b` by deleting elements, keeping the order. */
  predicate Subsequence<T(==)>(a: seq<T>, b: seq<T>)
    decreases |b|
  {
    if a == [] then true
    else if b == [] then false
    else
      (a[|a| - 1] == b[|b| - 1] && Subsequence(a[..|a| - 1], b[..|b| - 1]))
      || Subsequence(a, b[..|b| - 1])
  }

  /** `xs.indexOf(x)`: the first position holding `x`, or -1. */
  function IndexOf<T(==)>(xs: seq<T>, x: T): (r: int)
    ensures -1 <= r < |xs|
    ensures r == -1 <==> x !in xs
    ensures 0 <= r ==> xs[r] == x && x !in xs[..r]
  {
    if xs == [] then -1
    else if xs[0] == x then 0
    else
      var j := IndexOf(xs[1..], x);
      assert j >= 0 ==> xs[1..][..j] == xs[1..j + 1];
      if j == -1 then -1 else j + 1
  }

  /** The last position holding `x`, or -1 (the column whose value a repeated header keeps). */
  function LastIndexOf<T(==)>(xs: seq<T>, x: T): (r: int)
    ensures -1 <= r < |xs|
    ensures r == -1 <==> x !in xs
    ensures 0 <= r ==> xs[r] == x && x !in xs[r + 1..]
  {
    if xs == [] then -1
    else if xs[|xs| - 1] == x then |xs| - 1
    else
      var j := LastIndexOf(xs[..|xs| - 1], x);
      assert xs == xs[..|xs| - 1] + [xs[|xs| - 1]];
      assert j >= 0 ==> xs[j + 1..] == xs[..|xs| - 1][j + 1..] + [xs[|xs| - 1]];
      j
  }

  /** `[...new Set(xs)]`: each value once, at the place it was first seen. */
  function Distinct<T(==)>(xs: seq<T>): (r: seq<T>)
    ensures NoDuplicates(r)
    ensures forall i :: 0 <= i < |xs| ==> xs[i] in r
    ensures |r| <= |xs|
  {
    if xs == [] then []
    else
      var init, last := xs[..|xs| - 1], xs[|xs| - 1];
      assert xs == init + [last];
      var d := Distinct(init);
      if last in d then d else d + [last]
  }

  /** `Distinct` keeps exactly the values that occur. */
  lemma {:induction false} DistinctMember<T>(xs: seq<T>, x: T)
    ensures x in Distinct(xs) <==> x in xs
  {
    if xs != [] {
      var init := xs[..|xs| - 1];
      assert xs == init + [xs[|xs| - 1]];
      DistinctMember(init, x);
    }
  }

  lemma IndexOfUnique<T>(xs: seq<T>, x: T, r: int)
    requires 0 <= r < |xs| && xs[r] == x && x !in xs[..r]
    ensures IndexOf(xs, x) == r
  {
    var k := IndexOf(xs, x);
    assert forall i :: 0 <= i < r ==> xs[..r][i] == xs[i];
    assert forall i :: 0 <= i < k ==> xs[..k][i] == xs[i];
  }

  /** Appending never moves the first occurrence of a value already present. */
  lemma IndexOfSnoc<T>(xs: seq<T>, z: T, y: T)
    ensures y in xs ==> IndexOf(xs + [z], y) == IndexOf(xs, y)
    ensures y !in xs ==> IndexOf(xs + [y], y) == |xs|
  {
    if y in xs {
      var r := IndexOf(xs, y);
      assert (xs + [z])[..r] == xs[..r];
      IndexOfUnique(xs + [z], y, r);
    } else {
      assert (xs + [y])[..|xs|] == xs;
      IndexOfUnique(xs + [y], y, |xs|);
    }
  }

  /** The values of `Distinct(xs)` appear in the order of their first occurrence in `xs`. */
  lemma {:induction false} DistinctFirstSeen<T>(xs: seq<T>)
    ensures forall i, j :: 0 <= i < j < |Distinct(xs)| ==>
      IndexOf(xs, Distinct(xs)[i]) < IndexOf(xs, Distinct(xs)[j])
  {
    if xs != [] {
      var init, last := xs[..|xs| - 1], xs[|xs| - 1];
      assert xs == init + [last];
      DistinctFirstSeen(init);
      var d := Distinct(init);
      forall y | y in d
        ensures IndexOf(xs, y) == IndexOf(init, y) < |init|
      {
        DistinctMember(init, y);
        IndexOfSnoc(init, last, y);
      }
      if last !in d {
        IndexOfSnoc(init, last, last);
      }
    }
  }

  /** De-duplicating copies of a single value leaves that value alone (or nothing). */
  lemma {:induction false} DistinctOfConstant<T>(xs: seq<T>, v: T)
    requires forall i :: 0 <= i < |xs| ==> xs[i] == v
    ensures Distinct(xs) == if xs == [] then [] else [v]
  {
    if xs != [] {
      var init := xs[..|xs| - 1];
      assert xs == init + [xs[|xs| - 1]];
      DistinctOfConstant(init, v);
    }
  }

  /** `xs.filter(keep)`: the elements `keep` accepts, in their original order. */
  function Filter<T>(xs: seq<T>, keep: T -> bool): (r: seq<T>)
    ensures |r| <= |xs|
    ensures forall i :: 0 <= i < |r| ==> keep(r[i])
  {
    if xs == [] then []
    else
      var init, last := xs[..|xs| - 1], xs[|xs| - 1];
      if keep(last) then Filter(init, keep) + [last] else Filter(init, keep)
  }

  /** Filtering keeps every copy of an accepted value and no copy of a rejected one. */
  lemma {:induction false} FilterCount<T>(xs: seq<T>, keep: T -> bool, x: T)
    ensures multiset(Filter(xs, keep))[x] == if keep(x) then multiset(xs)[x] else 0
    ensures x in Filter(xs, keep) <==> x in xs && keep(x)
  {
    if xs != [] {
      var init, last := xs[..|xs| - 1], xs[|xs| - 1];
      assert xs == init + [last];
      FilterCount(init, keep, x);
    }
  }

  /** What a filter returns is a subsequence of its input. */
  lemma {:induction false} FilterSubsequence<T>(xs: seq<T>, keep: T -> bool)
    ensures Subsequence(Filter(xs, keep), xs)
    decreases |xs|
  {
    if xs != [] {
      var init := xs[..|xs| - 1];
      FilterSubsequence(init, keep);
      if keep(xs[|xs| - 1]) {
        assert (Filter(init, keep) + [xs[|xs| - 1]])[..|Filter(init, keep)|] == Filter(init, keep);
      }
    }
  }

  /** A filter that accepts everything returns its input unchanged. */
  lemma {:induction false} FilterAll<T>(xs: seq<T>, keep: T -> bool)
    requires forall x :: keep(x)
    ensures Filter(xs, keep) == xs
  {
    if xs != [] {
      FilterAll(xs[..|xs| - 1], keep);
    }
  }

  /** Two tests that accept the same values filter alike. */
  lemma {:induction false} FilterExt<T>(xs: seq<T>, p: T -> bool, q: T -> bool)
    requires forall x :: p(x) == q(x)
    ensures Filter(xs, p) == Filter(xs, q)
  {
    if xs != [] {
      FilterExt(xs[..|xs| - 1], p, q);
    }
  }

  /** Filtering by `p` and then by `q` is one filter by their conjunction. */
  lemma {:induction false} FilterCompose<T>(xs: seq<T>, p: T -> bool, q: T -> bool, both: T -> bool)
    requires forall x :: both(x) == (p(x) && q(x))
    ensures Filter(Filter(xs, p), q) == Filter(xs, both)
  {
    if xs != [] {
      var init, last := xs[..|xs| - 1], xs[|xs| - 1];
      FilterCompose(init, p, q, both);
      var a := Filter(init, p);
      assert (a + [last])[..|a|] == a;
    }
  }
}
