/** The cepstral end of both Mel pipelines: the logarithm of the Mel
    spectrogram and the unscaled DCT-II of each of its rows.

    main.go and mfcc_edited.go define `logMelSpectrogram` and `computeMFCC`
    identically, and both call main.go's `dctTransform`. `math.Log` and
    `math.Cos` are parameters; float64 rounding is not modelled.
 */
module Cepstrum {
  import opened Sums

  /** `math.Pi`, as the float64 constant Go rounds it to. */
  const Pi: real := 3.141592653589793

  /** The `1e-10` added to every Mel energy before its logarithm is taken. */
  const Epsilon: real := 0.0000000001

  /** `logMelSpectrogram`: every energy x becomes log(x + 1e-10), and the
      matrix keeps its shape exactly, ragged rows included. */
  function LogMel(m: seq<seq<real>>, log: real -> real): (r: seq<seq<real>>)
    ensures |r| == |m|
    ensures forall i :: 0 <= i < |m| ==> |r[i]| == |m[i]|
    ensures forall i, j :: 0 <= i < |m| && 0 <= j < |m[i]| ==> r[i][j] == log(m[i][j] + Epsilon)
  {
    seq(|m|, i requires 0 <= i < |m| =>
      seq(|m[i]|, j requires 0 <= j < |m[i]| => log(m[i][j] + Epsilon)))
  }

  /** Every row of `m` is non-negative. */
  predicate NonNegativeRows(m: seq<seq<real>>) {
    forall i :: 0 <= i < |m| ==> NonNegative(m[i])
  }

  /** For non-negative energies the logarithm is only ever taken of a
      positive number, and a strictly increasing logarithm keeps the strict
      order of any two energies of the spectrogram, in either direction. */
  lemma LogMelKeepsOrder(m: seq<seq<real>>, log: real -> real, i: nat, j: nat, i': nat, k: nat)
    requires NonNegativeRows(m)
    requires forall a, b :: 0.0 < a < b ==> log(a) < log(b)
    requires i < |m| && j < |m[i]| && i' < |m| && k < |m[i']|
    ensures m[i][j] + Epsilon > 0.0 && m[i'][k] + Epsilon > 0.0
    ensures LogMel(m, log)[i][j] < LogMel(m, log)[i'][k] <==> m[i][j] < m[i'][k]
  {
    var a, b := m[i][j] + Epsilon, m[i'][k] + Epsilon;
    assert NonNegative(m[i]) && NonNegative(m[i']);
    assert a > 0.0 && b > 0.0;
    if a < b {
      assert log(a) < log(b);
    } else if b < a {
      assert log(b) < log(a);
    }
  }

  /** The angle of term `n` of coefficient `k` in an `size`-point DCT-II:
      pi / size * (n + 0.5) * k. */
  function Angle(size: nat, n: nat, k: nat): real
    requires size > 0
  {
    Pi / (size as real) * ((n as real) + 0.5) * (k as real)
  }

  /** The first `count` terms of coefficient `k` of the DCT-II of `x`,
      accumulated in index order as the inner loop of `dctTransform` does. */
  function CosineSum(x: seq<real>, k: nat, count: nat, cos: real -> real): real
    requires count <= |x|
  {
    if count == 0 then 0.0
    else CosineSum(x, k, count - 1, cos) + x[count - 1] * cos(Angle(|x|, count - 1, k))
  }

  /** The first `nc` coefficients of the unscaled DCT-II of `x`. An empty
      input yields zeros: the loop never reaches the division by its length. */
  function Dct(x: seq<real>, nc: nat, cos: real -> real): (c: seq<real>)
    ensures |c| == nc
    ensures x == [] ==> forall k :: 0 <= k < nc ==> c[k] == 0.0
  {
    seq(nc, k requires 0 <= k < nc => CosineSum(x, k, |x|, cos))
  }

  /** `dctTransform`. */
  method DctTransform(input: seq<real>, numCoefficients: nat, cos: real -> real) returns (output: seq<real>)
    ensures output == Dct(input, numCoefficients, cos)
  {
    output := [];
    var k := 0;
    while k < numCoefficients
      invariant k <= numCoefficients
      invariant |output| == k
      invariant forall k' :: 0 <= k' < k ==> output[k'] == CosineSum(input, k', |input|, cos)
    {
      var sum := 0.0;
      var n := 0;
      while n < |input|
        invariant n <= |input|
        invariant sum == CosineSum(input, k, n, cos)
      {
        sum := sum + input[n] * cos(Angle(|input|, n, k));
        n := n + 1;
      }
      output := output + [sum];
      k := k + 1;
    }
  }

  /** `computeMFCC`: the DCT of every row, the row count kept. */
  method ComputeMfcc(logMel: seq<seq<real>>, numCoefficients: nat, cos: real -> real) returns (mfcc: seq<seq<real>>)
    ensures |mfcc| == |logMel|
    ensures forall i :: 0 <= i < |logMel| ==> mfcc[i] == Dct(logMel[i], numCoefficients, cos)
  {
    mfcc := [];
    var i := 0;
    while i < |logMel|
      invariant i <= |logMel|
      invariant |mfcc| == i
      invariant forall i' :: 0 <= i' < i ==> mfcc[i'] == Dct(logMel[i'], numCoefficients, cos)
    {
      var row := DctTransform(logMel[i], numCoefficients, cos);
      mfcc := mfcc + [row];
      i := i + 1;
    }
  }

  /** Coefficient 0 weighs every term by cos 0, so it is the plain sum of
      the row's first `count` entries once cos 0 = 1. */
  lemma {:induction false} ZeroTermsAreSum(x: seq<real>, count: nat, cos: real -> real)
    requires count <= |x|
    requires cos(0.0) == 1.0
    ensures CosineSum(x, 0, count, cos) == Sum(x[..count])
  {
    if count > 0 {
      ZeroTermsAreSum(x, count - 1, cos);
      assert x[..count][..count - 1] == x[..count - 1];
      assert Angle(|x|, count - 1, 0) == 0.0;
    }
  }

  /** The first MFCC coefficient of a row is the sum of its log energies. */
  lemma FirstCoefficientIsSum(x: seq<real>, nc: nat, cos: real -> real)
    requires nc > 0
    requires cos(0.0) == 1.0
    ensures Dct(x, nc, cos)[0] == Sum(x)
  {
    ZeroTermsAreSum(x, |x|, cos);
    assert x[..|x|] == x;
  }

  /** `a` times every entry of `x`. */
  function Scale(a: real, x: seq<real>): (y: seq<real>)
    ensures |y| == |x|
  {
    seq(|x|, i requires 0 <= i < |x| => a * x[i])
  }

  /** Entry-wise sum of two rows of the same length. */
  function Add(x: seq<real>, y: seq<real>): (z: seq<real>)
    requires |x| == |y|
    ensures |z| == |x|
  {
    seq(|x|, i requires 0 <= i < |x| => x[i] + y[i])
  }

  lemma {:induction false} CosineSumScales(a: real, x: seq<real>, k: nat, count: nat, cos: real -> real)
    requires count <= |x|
    ensures CosineSum(Scale(a, x), k, count, cos) == a * CosineSum(x, k, count, cos)
  {
    if count > 0 {
      CosineSumScales(a, x, k, count - 1, cos);
      var y := Scale(a, x);
      var w := cos(Angle(|x|, count - 1, k));
      var s := CosineSum(x, k, count - 1, cos);
      assert CosineSum(y, k, count, cos) == CosineSum(y, k, count - 1, cos) + y[count - 1] * w;
      assert y[count - 1] == a * x[count - 1];
      ScaleTerm(a, s, x[count - 1], w);
    }
  }

  /** a s + (a x) w == a (s + x w). */
  lemma ScaleTerm(a: real, s: real, x: real, w: real)
    ensures a * s + (a * x) * w == a * (s + x * w)
  {
  }

  lemma {:induction false} CosineSumAdds(x: seq<real>, y: seq<real>, k: nat, count: nat, cos: real -> real)
    requires |x| == |y| && count <= |x|
    ensures CosineSum(Add(x, y), k, count, cos) == CosineSum(x, k, count, cos) + CosineSum(y, k, count, cos)
  {
    if count > 0 {
      CosineSumAdds(x, y, k, count - 1, cos);
      var z := Add(x, y);
      var w := cos(Angle(|x|, count - 1, k));
      assert CosineSum(z, k, count, cos) == CosineSum(z, k, count - 1, cos) + z[count - 1] * w;
      assert z[count - 1] == x[count - 1] + y[count - 1];
      AddTerm(CosineSum(x, k, count - 1, cos), CosineSum(y, k, count - 1, cos), x[count - 1], y[count - 1], w);
    }
  }

  /** (s + t) + (x + y) w == (s + x w) + (t + y w). */
  lemma AddTerm(s: real, t: real, x: real, y: real, w: real)
    ensures (s + t) + (x + y) * w == (s + x * w) + (t + y * w)
  {
  }

  /** The transform is linear: scaling a row scales its coefficients, and
      the coefficients of a sum of rows are the sums of their coefficients. */
  lemma DctIsLinear(a: real, x: seq<real>, y: seq<real>, nc: nat, cos: real -> real)
    requires |x| == |y|
    ensures forall k :: 0 <= k < nc ==> Dct(Scale(a, x), nc, cos)[k] == a * Dct(x, nc, cos)[k]
    ensures forall k :: 0 <= k < nc ==> Dct(Add(x, y), nc, cos)[k] == Dct(x, nc, cos)[k] + Dct(y, nc, cos)[k]
  {
    forall k | 0 <= k < nc
      ensures Dct(Scale(a, x), nc, cos)[k] == a * Dct(x, nc, cos)[k]
      ensures Dct(Add(x, y), nc, cos)[k] == Dct(x, nc, cos)[k] + Dct(y, nc, cos)[k]
    {
      CosineSumScales(a, x, k, |x|, cos);
      CosineSumAdds(x, y, k, |x|, cos);
    }
  }
}
