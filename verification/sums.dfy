/** Finite sums over reals, accumulated left to right as the Go loops
    `sum += ...` do. Reals stand for float64; rounding is not modelled. */
module Sums {

  /** x[0] + x[1] + ... + x[|x|-1], added in index order. */
  function Sum(x: seq<real>): real {
    if x == [] then 0.0 else Sum(x[..|x| - 1]) + x[|x| - 1]
  }

  predicate NonNegative(x: seq<real>) {
    forall i :: 0 <= i < |x| ==> x[i] >= 0.0
  }

  /** The weighted sum over the weights' indices: sum of x[k] * w[k] for
      k < |w|. It reads x only where w has a weight. */
  function Dot(x: seq<real>, w: seq<real>): real
    requires |w| <= |x|
  {
    if w == [] then 0.0
    else Dot(x, w[..|w| - 1]) + x[|w| - 1] * w[|w| - 1]
  }

  lemma {:induction false} SumNonNegative(x: seq<real>)
    requires NonNegative(x)
    ensures Sum(x) >= 0.0
  {
    if x != [] {
      SumNonNegative(x[..|x| - 1]);
    }
  }

  /** Non-negative readings weighted by non-negative weights never sum below zero. */
  lemma {:induction false} DotNonNegative(x: seq<real>, w: seq<real>)
    requires |w| <= |x|
    requires NonNegative(x) && NonNegative(w)
    ensures Dot(x, w) >= 0.0
  {
    if w != [] {
      DotNonNegative(x, w[..|w| - 1]);
      assert x[|w| - 1] * w[|w| - 1] >= 0.0;
    }
  }

  /** Readings beyond the weights never matter. */
  lemma {:induction false} DotIgnoresTail(x: seq<real>, y: seq<real>, w: seq<real>)
    requires |w| <= |x| && |w| <= |y|
    requires x[..|w|] == y[..|w|]
    ensures Dot(x, w) == Dot(y, w)
  {
    if w != [] {
      var v := w[..|w| - 1];
      assert x[..|v|] == x[..|w|][..|v|];
      assert y[..|v|] == y[..|w|][..|v|];
      assert x[|w| - 1] == x[..|w|][|w| - 1];
      assert y[|w| - 1] == y[..|w|][|w| - 1];
      DotIgnoresTail(x, y, v);
    }
  }
}
