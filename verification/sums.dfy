/** Sums of real sequences, shared by the dissimilarity of the mergers
    and the block averages of the pyramid. */
module Sums {

  function Sum(xs: seq<real>): real
  {
    if xs == [] then 0.0 else xs[0] + Sum(xs[1..])
  }

  lemma {:induction false} SumNonNegative(xs: seq<real>)
    requires forall i :: 0 <= i < |xs| ==> xs[i] >= 0.0
    ensures Sum(xs) >= 0.0
    ensures Sum(xs) == 0.0 ==> forall i :: 0 <= i < |xs| ==> xs[i] == 0.0
  {
    if xs != [] {
      SumNonNegative(xs[1..]);
      assert forall i :: 1 <= i < |xs| ==> xs[i] == xs[1..][i - 1];
    }
  }

  lemma {:induction false} SumZero(xs: seq<real>)
    requires forall i :: 0 <= i < |xs| ==> xs[i] == 0.0
    ensures Sum(xs) == 0.0
  {
    if xs != [] {
      SumZero(xs[1..]);
    }
  }

  /** A sum of n terms within [lo, hi] lies within [n lo, n hi]. */
  lemma {:induction false} SumBounds(xs: seq<real>, lo: real, hi: real)
    requires forall i :: 0 <= i < |xs| ==> lo <= xs[i] <= hi
    ensures lo * |xs| as real <= Sum(xs) <= hi * |xs| as real
  {
    if xs != [] {
      SumBounds(xs[1..], lo, hi);
      assert lo * |xs| as real == lo + lo * |xs[1..]| as real;
      assert hi * |xs| as real == hi + hi * |xs[1..]| as real;
    }
  }

  /** The average of a non-empty sequence: its sum over its length. */
  function Mean(xs: seq<real>): (m: real)
    requires |xs| > 0
    ensures m * |xs| as real == Sum(xs)
  {
    var n := |xs| as real;
    assert (Sum(xs) / n) * n == Sum(xs);
    Sum(xs) / n
  }

  /** The average of values within [lo, hi] lies within [lo, hi]. */
  lemma AverageBetween(xs: seq<real>, lo: real, hi: real)
    requires |xs| > 0 && forall i :: 0 <= i < |xs| ==> lo <= xs[i] <= hi
    ensures lo <= Sum(xs) / |xs| as real <= hi
  {
    SumBounds(xs, lo, hi);
    DivBounds(Sum(xs), |xs| as real, lo, hi);
  }

  lemma DivBounds(x: real, n: real, lo: real, hi: real)
    requires n > 0.0 && lo * n <= x <= hi * n
    ensures lo <= x / n <= hi
  {
    assert x / n - lo == (x - lo * n) / n;
    assert hi - x / n == (hi * n - x) / n;
  }

  lemma {:induction false} SumAppend(xs: seq<real>, ys: seq<real>)
    ensures Sum(xs + ys) == Sum(xs) + Sum(ys)
  {
    if xs != [] {
      SumAppend(xs[1..], ys);
      assert (xs + ys)[1..] == xs[1..] + ys;
    } else {
      assert xs + ys == ys;
    }
  }
}
