// Sums of weights over sequences: the accounting used by every conservation law below.
module Sums {

  function SumOf<T>(xs: seq<T>, w: T -> nat): nat {
    if xs == [] then 0 else w(xs[0]) + SumOf(xs[1..], w)
  }

  lemma {:induction false} SumUpdate<T>(xs: seq<T>, i: nat, v: T, w: T -> nat)
    requires i < |xs|
    ensures SumOf(xs[i := v], w) + w(xs[i]) == SumOf(xs, w) + w(v)
    decreases xs
  {
    var ys := xs[i := v];
    if i == 0 {
      assert ys[1..] == xs[1..];
    } else {
      assert ys[1..] == xs[1..][i - 1 := v];
      SumUpdate(xs[1..], i - 1, v, w);
    }
  }

  lemma {:induction false} SumAppend<T>(xs: seq<T>, ys: seq<T>, w: T -> nat)
    ensures SumOf(xs + ys, w) == SumOf(xs, w) + SumOf(ys, w)
    decreases xs
  {
    if xs == [] {
      assert xs + ys == ys;
    } else {
      assert (xs + ys)[1..] == xs[1..] + ys;
      SumAppend(xs[1..], ys, w);
    }
  }

  lemma {:induction false} SumAtLeast<T>(xs: seq<T>, i: nat, w: T -> nat)
    requires i < |xs|
    ensures w(xs[i]) <= SumOf(xs, w)
    decreases xs
  {
    if i != 0 {
      SumAtLeast(xs[1..], i - 1, w);
    }
  }

  lemma {:induction false} SumBounded<T>(xs: seq<T>, w: T -> nat, bound: nat)
    requires forall i :: 0 <= i < |xs| ==> w(xs[i]) <= bound
    ensures SumOf(xs, w) <= |xs| * bound
    decreases xs
  {
    if xs != [] {
      SumBounded(xs[1..], w, bound);
      assert |xs| * bound == bound + |xs[1..]| * bound;
    }
  }
}
