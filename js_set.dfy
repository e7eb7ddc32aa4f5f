/**
 * JavaScript `Set`s whose iteration order is observable (insertion order),
 * modelled as duplicate-free sequences.
 */
module JsSet {
  /** No value occurs twice. */
  predicate NoDup<T(==)>(xs: seq<T>) {
    forall i, j :: 0 <= i < j < |xs| ==> xs[i] != xs[j]
  }

  /** `set.add(x)`: a value not yet present goes to the end; members already present keep their places. */
  function Add<T(==,!new)>(s: seq<T>, x: T): (r: seq<T>)
    ensures NoDup(s) ==> NoDup(r)
    ensures forall y :: y in r <==> y in s || y == x
    ensures |s| <= |r| <= |s| + 1 && r[..|s|] == s
  {
    if x in s then s else s + [x]
  }

  /** `[...new Set(xs)]`: the values of `xs` without repetitions. */
  function Distinct<T(==,!new)>(xs: seq<T>): (r: seq<T>)
    ensures NoDup(r)
    ensures forall y :: y in r <==> y in xs
    ensures |r| <= |xs|
  {
    if |xs| == 0 then []
    else
      var n := |xs| - 1;
      assert xs == xs[..n] + [xs[n]];
      Add(Distinct(xs[..n]), xs[n])
  }

  /** Position of the first occurrence of `x` in `xs`. */
  function FirstIndex<T(==,!new)>(xs: seq<T>, x: T): (k: nat)
    requires x in xs
    ensures k < |xs| && xs[k] == x
    ensures forall j :: 0 <= j < k ==> xs[j] != x
  {
    if xs[0] == x then 0 else 1 + FirstIndex(xs[1..], x)
  }

  /** A sequence without repetitions is its own `Set`. */
  lemma {:induction false} DistinctOfNoDup<T(!new)>(xs: seq<T>)
    requires NoDup(xs)
    ensures Distinct(xs) == xs
  {
    if |xs| > 0 {
      var n := |xs| - 1;
      assert NoDup(xs[..n]);
      DistinctOfNoDup(xs[..n]);
      assert xs[n] !in xs[..n];
      assert xs == xs[..n] + [xs[n]];
    }
  }

  /** Building a `Set` twice changes nothing. */
  lemma DistinctIdempotent<T(!new)>(xs: seq<T>)
    ensures Distinct(Distinct(xs)) == Distinct(xs)
  {
    DistinctOfNoDup(Distinct(xs));
  }

  /** First occurrences are found in the prefix that contains them. */
  lemma FirstIndexOfPrefix<T(!new)>(xs: seq<T>, n: nat, x: T)
    requires n <= |xs| && x in xs[..n]
    ensures FirstIndex(xs, x) == FirstIndex(xs[..n], x)
  {
    var k := FirstIndex(xs[..n], x);
    assert xs[k] == x;
    assert forall j :: 0 <= j < k ==> xs[j] == xs[..n][j];
  }

  /** The value a `Set` gains last was first seen after everything already in it. */
  lemma FirstIndexOfLast<T(!new)>(xs: seq<T>, y: T)
    requires |xs| > 0 && y in xs[..|xs| - 1]
    requires xs[|xs| - 1] !in xs[..|xs| - 1]
    ensures FirstIndex(xs, y) < FirstIndex(xs, xs[|xs| - 1]) == |xs| - 1
  {
    var n := |xs| - 1;
    FirstIndexOfPrefix(xs, n, y);
    assert forall j :: 0 <= j < n ==> xs[j] == xs[..n][j];
  }

  /** Every member of `r` occurs in `xs`, and `r` lists them in the order of their first occurrence there. */
  predicate InFirstOccurrenceOrder<T(==,!new)>(xs: seq<T>, r: seq<T>) {
    (forall y :: y in r ==> y in xs) &&
    forall i, j :: 0 <= i < j < |r| ==> FirstIndex(xs, r[i]) < FirstIndex(xs, r[j])
  }

  /** The `Set` lists values in the order of their first occurrence in `xs`. */
  lemma {:induction false} DistinctInFirstOccurrenceOrder<T(!new)>(xs: seq<T>)
    ensures InFirstOccurrenceOrder(xs, Distinct(xs))
  {
    if |xs| > 0 {
      var n := |xs| - 1;
      var d := Distinct(xs[..n]);
      DistinctInFirstOccurrenceOrder(xs[..n]);
      OrderAfterAdd(xs, d);
      assert Distinct(xs) == Add(d, xs[n]);
    }
  }

  /** Adding the last value of `xs` to the `Set` of the values before it keeps first-occurrence order. */
  lemma OrderAfterAdd<T(!new)>(xs: seq<T>, d: seq<T>)
    requires |xs| > 0 && InFirstOccurrenceOrder(xs[..|xs| - 1], d)
    requires forall y :: y in xs[..|xs| - 1] ==> y in d
    ensures InFirstOccurrenceOrder(xs, Add(d, xs[|xs| - 1]))
  {
    var n := |xs| - 1;
    var r := Add(d, xs[n]);
    assert forall y :: y in xs[..n] ==> y in xs;
    assert forall y :: y in r ==> y in xs;
    forall i, j | 0 <= i < j < |r|
      ensures FirstIndex(xs, r[i]) < FirstIndex(xs, r[j])
    {
      assert r[i] == d[i];
      FirstIndexOfPrefix(xs, n, r[i]);
      if j < |d| {
        assert r[j] == d[j];
        FirstIndexOfPrefix(xs, n, r[j]);
      } else {
        FirstIndexOfLast(xs, r[i]);
      }
    }
  }
}
