/** Sums over sequences, and how they change when one element changes. */
module Sums {

  function Sum<T>(xs: seq<T>, f: T -> int): int {
    if xs == [] then 0 else Sum(xs[..|xs| - 1], f) + f(xs[|xs| - 1])
  }

  lemma SumAppend<T>(xs: seq<T>, x: T, f: T -> int)
    ensures Sum(xs + [x], f) == Sum(xs, f) + f(x)
  {
    assert (xs + [x])[..|xs|] == xs;
  }

  lemma {:induction false} SumConcat<T>(xs: seq<T>, ys: seq<T>, f: T -> int)
    ensures Sum(xs + ys, f) == Sum(xs, f) + Sum(ys, f)
  {
    if ys == [] {
      assert xs + ys == xs;
    } else {
      var n := |ys| - 1;
      assert (xs + ys)[..|xs| + n] == xs + ys[..n];
      SumConcat(xs, ys[..n], f);
    }
  }

  /** Only the terms matter. */
  lemma {:induction false} SumSame<T>(xs: seq<T>, f: T -> int, g: T -> int)
    requires forall x :: x in xs ==> f(x) == g(x)
    ensures Sum(xs, f) == Sum(xs, g)
  {
    if xs != [] {
      SumSame(xs[..|xs| - 1], f, g);
    }
  }

  lemma {:induction false} SumUpdate<T>(xs: seq<T>, i: nat, x: T, f: T -> int)
    requires i < |xs|
    ensures Sum(xs[i := x], f) == Sum(xs, f) - f(xs[i]) + f(x)
  {
    var n := |xs| - 1;
    if i == n {
      assert xs[i := x][..n] == xs[..n];
    } else {
      SumUpdate(xs[..n], i, x, f);
      assert xs[i := x][..n] == xs[..n][i := x];
    }
  }

  lemma {:induction false} SumTail<T>(xs: seq<T>, f: T -> int)
    requires xs != []
    ensures Sum(xs, f) == f(xs[0]) + Sum(xs[1..], f)
  {
    var n := |xs| - 1;
    if n > 0 {
      SumTail(xs[..n], f);
      assert xs[..n][1..] == xs[1..][..n - 1];
    }
  }

  lemma {:induction false} SumWithin<T>(xs: seq<T>, f: T -> int)
    requires forall x :: 0 <= f(x) <= 1
    ensures 0 <= Sum(xs, f) <= |xs|
  {
    if xs != [] {
      SumWithin(xs[..|xs| - 1], f);
    }
  }

  lemma {:induction false} SumZero<T>(xs: seq<T>, f: T -> int)
    requires forall i :: 0 <= i < |xs| ==> f(xs[i]) == 0
    ensures Sum(xs, f) == 0
  {
    if xs != [] {
      SumZero(xs[..|xs| - 1], f);
    }
  }

  /** A positive sum of such terms has a positive term, and no term exceeds it. */
  lemma {:induction false} SumFinds<T>(xs: seq<T>, f: T -> int) returns (i: nat)
    requires forall x :: 0 <= f(x) <= 1
    requires Sum(xs, f) > 0
    ensures i < |xs| && f(xs[i]) == 1
  {
    var n := |xs| - 1;
    if f(xs[n]) == 1 {
      i := n;
    } else {
      i := SumFinds(xs[..n], f);
    }
  }

  lemma {:induction false} SumCovers<T>(xs: seq<T>, i: nat, f: T -> int)
    requires forall x :: 0 <= f(x) <= 1
    requires i < |xs|
    ensures f(xs[i]) <= Sum(xs, f)
  {
    var n := |xs| - 1;
    SumWithin(xs[..n], f);
    if i < n {
      SumCovers(xs[..n], i, f);
    }
  }

  lemma {:induction false} SumOnes<T>(xs: seq<T>, f: T -> int)
    requires forall i :: 0 <= i < |xs| ==> f(xs[i]) == 1
    ensures Sum(xs, f) == |xs|
  {
    if xs != [] {
      SumOnes(xs[..|xs| - 1], f);
    }
  }
}
