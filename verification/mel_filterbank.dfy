/** mfcc_edited.go's Mel filterbank: `generateMelFilterbank`, which builds
    triangular filters over integer FFT bins, and the dot-product
    `applyMelFilterbank`.

    `math.Log10` and `math.Pow` are parameters, float64 rounding is not
    modelled, and the index panics of the Go code become `Err` values.
    Line 65 multiplies an int by a float64, which Go rejects; it is read as
    `float64(fftSize+1) * hz`.
 */
module MelFilterbank {
  import opened Outcomes
  import opened Sums

  /** The Mel value of a frequency in Hz: 2595 log10(1 + f / 700). */
  function MelOf(hz: real, log10: real -> real): real {
    2595.0 * log10(1.0 + hz / 700.0)
  }

  /** The frequency in Hz of a Mel value: 700 (10^(m / 2595) - 1). */
  function HzOf(mel: real, pow: (real, real) -> real): real {
    700.0 * (pow(10.0, mel / 2595.0) - 1.0)
  }

  /** `numFilters + 2` equally spaced Mel points from `melMin` to `melMax`. */
  function MelPoints(numFilters: nat, melMin: real, melMax: real): (p: seq<real>)
    ensures |p| == numFilters + 2
    ensures p[0] == melMin && p[numFilters + 1] == melMax
    ensures forall i :: 0 <= i < numFilters + 1 ==> p[i + 1] - p[i] == (melMax - melMin) / (numFilters + 1) as real
  {
    var p := seq(numFilters + 2, i requires 0 <= i < numFilters + 2 => MelPoint(numFilters, melMin, melMax, i));
    MelPointEnds(numFilters, melMin, melMax);
    forall i | 0 <= i < numFilters + 1
      ensures p[i + 1] - p[i] == (melMax - melMin) / (numFilters + 1) as real
    {
      MelPointStep(numFilters, melMin, melMax, i);
    }
    p
  }

  /** Point `i` of `numFilters + 2` equally spaced points from `melMin`
      to `melMax`, computed as line 55 does. */
  function MelPoint(numFilters: nat, melMin: real, melMax: real, i: nat): real {
    melMin + (i as real) * (melMax - melMin) / ((numFilters + 1) as real)
  }

  lemma MelPointEnds(numFilters: nat, melMin: real, melMax: real)
    ensures MelPoint(numFilters, melMin, melMax, 0) == melMin
    ensures MelPoint(numFilters, melMin, melMax, numFilters + 1) == melMax
  {
    var n := (numFilters + 1) as real;
    var d := melMax - melMin;
    assert (0 as real) * d == 0.0;
    assert n * d / n == d;
  }

  lemma MelPointStep(numFilters: nat, melMin: real, melMax: real, i: nat)
    ensures MelPoint(numFilters, melMin, melMax, i + 1) - MelPoint(numFilters, melMin, melMax, i)
         == (melMax - melMin) / (numFilters + 1) as real
  {
    var n := (numFilters + 1) as real;
    var d := melMax - melMin;
    var a := (i as real) * d;
    assert ((i + 1) as real) * d == a + d;
    SplitQuotient(a, d, n);
  }

  lemma SplitQuotient(a: real, b: real, n: real)
    requires n != 0.0
    ensures (a + b) / n == a / n + b / n
  {
  }

  /** The bin of each Mel point: floor((fftSize + 1) * hz / sampleRate),
      with the band running from 0 Hz to half the sample rate. */
  function Bins(numFilters: nat, fftSize: nat, sampleRate: int, log10: real -> real, pow: (real, real) -> real)
    : (b: seq<int>)
    requires sampleRate > 0
    ensures |b| == numFilters + 2
  {
    var fMax := (sampleRate as real) / 2.0;
    var mel := MelPoints(numFilters, MelOf(0.0, log10), MelOf(fMax, log10));
    seq(numFilters + 2, i requires 0 <= i < numFilters + 2 => Bin(fftSize, HzOf(mel[i], pow), sampleRate))
  }

  /** Line 65: the FFT bin of a frequency, floor((fftSize + 1) * hz / sampleRate). */
  function Bin(fftSize: nat, hz: real, sampleRate: int): int
    requires sampleRate > 0
  {
    (((fftSize + 1) as real) * hz / (sampleRate as real)).Floor
  }

  /** The weight filter `i` gives bin `j`: rising from 0 at b[i] towards 1
      at b[i+1], falling from 1 at b[i+1] towards 0 at b[i+2], and 0
      elsewhere. Each division sits in a range that is empty when its
      denominator would be zero, so no weight divides by zero, and every
      weight lies in [0, 1]. */
  function Weight(b: seq<int>, i: nat, j: int): (w: real)
    requires i + 2 < |b|
    ensures 0.0 <= w <= 1.0
  {
    if b[i] <= j < b[i + 1] then (j - b[i]) as real / (b[i + 1] - b[i]) as real
    else if b[i + 1] <= j < b[i + 2] then (b[i + 2] - j) as real / (b[i + 2] - b[i + 1]) as real
    else 0.0
  }

  /** Both loops of filter `i` stay inside a row of `width` entries. */
  predicate FilterInBounds(b: seq<int>, i: nat, width: nat)
    requires i + 2 < |b|
  {
    && (b[i] < b[i + 1] ==> 0 <= b[i] && b[i + 1] <= width)
    && (b[i + 1] < b[i + 2] ==> 0 <= b[i + 1] && b[i + 2] <= width)
  }

  /** The filter loop of `generateMelFilterbank` over given bins: it fails
      exactly when some filter's loops leave the row, and otherwise returns
      `numFilters` rows of `width` weights. */
  function FiltersFromBins(b: seq<int>, numFilters: nat, width: nat): (r: Result<seq<seq<real>>>)
    requires |b| == numFilters + 2
    ensures r.Err? <==> exists i :: 0 <= i < numFilters && !FilterInBounds(b, i, width)
    ensures r.Err? ==> r.failure == IndexOutOfRange
    ensures r.Ok? ==> |r.value| == numFilters
    ensures r.Ok? ==> forall i :: 0 <= i < numFilters ==> |r.value[i]| == width
    ensures r.Ok? ==> forall i, j :: 0 <= i < numFilters && 0 <= j < width ==> r.value[i][j] == Weight(b, i, j)
  {
    if exists i :: 0 <= i < numFilters && !FilterInBounds(b, i, width) then Err(IndexOutOfRange)
    else Ok(seq(numFilters, i requires 0 <= i < numFilters =>
      seq(width, j requires 0 <= j < width => Weight(b, i, j))))
  }

  /** `generateMelFilterbank`: `numFilters` filters of `fftSize / 2 + 1`
      weights each, or an index panic. */
  function GenerateMelFilterbank(numFilters: nat, fftSize: nat, sampleRate: int,
                                 log10: real -> real, pow: (real, real) -> real): (r: Result<seq<seq<real>>>)
    requires sampleRate > 0
    ensures r.Ok? ==> |r.value| == numFilters
    ensures r.Ok? ==> forall i :: 0 <= i < numFilters ==> |r.value[i]| == fftSize / 2 + 1
  {
    FiltersFromBins(Bins(numFilters, fftSize, sampleRate, log10, pow), numFilters, fftSize / 2 + 1)
  }

  /** With log10(1) = 0 and 10^0 = 1 the lowest Mel point is 0 Hz, so the
      first bin is 0. */
  lemma FirstBinIsZero(numFilters: nat, fftSize: nat, sampleRate: int, log10: real -> real, pow: (real, real) -> real)
    requires sampleRate > 0
    requires log10(1.0) == 0.0 && pow(10.0, 0.0) == 1.0
    ensures Bins(numFilters, fftSize, sampleRate, log10, pow)[0] == 0
  {
    assert MelOf(0.0, log10) == 0.0 by {
      assert 1.0 + 0.0 / 700.0 == 1.0;
    }
    var fMax := (sampleRate as real) / 2.0;
    var mel := MelPoints(numFilters, MelOf(0.0, log10), MelOf(fMax, log10));
    assert mel[0] == 0.0;
    assert HzOf(mel[0], pow) == 0.0 by {
      assert mel[0] / 2595.0 == 0.0;
    }
  }

  /** What the band edges need of `math.Log10` and `math.Pow`, true of the
      exact functions: log10(1) = 0, 10^0 = 1, both non-decreasing, and
      10^log10(y) = y from 1 upwards. */
  ghost predicate ExactLogPow(log10: real -> real, pow: (real, real) -> real) {
    && log10(1.0) == 0.0
    && pow(10.0, 0.0) == 1.0
    && (forall y, z :: 1.0 <= y <= z ==> log10(y) <= log10(z))
    && (forall a, c :: a <= c ==> pow(10.0, a) <= pow(10.0, c))
    && (forall y :: 1.0 <= y ==> pow(10.0, log10(y)) == y)
  }

  /** Every Mel point lies between 0 Hz and half the sample rate. */
  lemma HzInBand(numFilters: nat, sampleRate: int, log10: real -> real, pow: (real, real) -> real, i: nat)
    requires sampleRate > 0 && ExactLogPow(log10, pow) && i < numFilters + 2
    ensures var fMax := (sampleRate as real) / 2.0;
      var mel := MelPoints(numFilters, MelOf(0.0, log10), MelOf(fMax, log10));
      0.0 <= HzOf(mel[i], pow) <= fMax
  {
    var fMax := (sampleRate as real) / 2.0;
    var top := 1.0 + fMax / 700.0;
    assert MelOf(0.0, log10) == 0.0 by {
      assert 1.0 + 0.0 / 700.0 == 1.0;
    }
    var d := MelOf(fMax, log10);
    assert d >= 0.0 by {
      assert 1.0 <= top;
      assert log10(1.0) <= log10(top);
    }
    var mel := MelPoints(numFilters, 0.0, d);
    var e := mel[i] / 2595.0;
    assert 0.0 <= e <= log10(top) by {
      MelPointInRange(numFilters, d, i);
    }
    PowInRange(log10, pow, e, top);
    assert HzOf(mel[i], pow) == 700.0 * (pow(10.0, e) - 1.0);
  }

  lemma MelPointInRange(numFilters: nat, d: real, i: nat)
    requires d >= 0.0 && i < numFilters + 2
    ensures 0.0 <= MelPoints(numFilters, 0.0, d)[i] <= d
  {
    var p := MelPoints(numFilters, 0.0, d);
    assert p[i] == MelPoint(numFilters, 0.0, d, i);
    ZeroBasedPointInRange(numFilters, d, i);
  }

  lemma ZeroBasedPointInRange(numFilters: nat, d: real, i: nat)
    requires d >= 0.0 && i < numFilters + 2
    ensures 0.0 <= MelPoint(numFilters, 0.0, d, i) <= d
  {
    var n := (numFilters + 1) as real;
    var x := i as real;
    ScaledPointInRange(x, n, d);
    assert MelPoint(numFilters, 0.0, d, i) == x * d / n;
  }

  lemma ScaledPointInRange(x: real, n: real, d: real)
    requires 0.0 <= x <= n && n > 0.0 && d >= 0.0
    ensures 0.0 <= x * d / n <= d
  {
    assert (n - x) * d >= 0.0;
    assert x * d <= n * d;
    assert x * d / n <= n * d / n;
  }

  lemma PowInRange(log10: real -> real, pow: (real, real) -> real, e: real, top: real)
    requires ExactLogPow(log10, pow)
    requires 1.0 <= top && 0.0 <= e <= log10(top)
    ensures 1.0 <= pow(10.0, e) <= top
  {
    assert pow(10.0, 0.0) <= pow(10.0, e);
    assert pow(10.0, e) <= pow(10.0, log10(top));
  }

  /** Under exact logarithms and powers every bin lies between 0 and
      floor((fftSize + 1) / 2). */
  lemma BinsInBand(numFilters: nat, fftSize: nat, sampleRate: int, log10: real -> real, pow: (real, real) -> real)
    requires sampleRate > 0 && ExactLogPow(log10, pow)
    ensures var b := Bins(numFilters, fftSize, sampleRate, log10, pow);
      forall i :: 0 <= i < numFilters + 2 ==> 0 <= b[i] <= (((fftSize + 1) as real) / 2.0).Floor
  {
    forall i | 0 <= i < numFilters + 2
      ensures 0 <= Bins(numFilters, fftSize, sampleRate, log10, pow)[i] <= (((fftSize + 1) as real) / 2.0).Floor
    {
      BinInBand(numFilters, fftSize, sampleRate, log10, pow, i);
    }
  }

  lemma BinInBand(numFilters: nat, fftSize: nat, sampleRate: int, log10: real -> real, pow: (real, real) -> real, i: nat)
    requires sampleRate > 0 && ExactLogPow(log10, pow) && i < numFilters + 2
    ensures 0 <= Bins(numFilters, fftSize, sampleRate, log10, pow)[i] <= (((fftSize + 1) as real) / 2.0).Floor
  {
    var fMax := (sampleRate as real) / 2.0;
    var mel := MelPoints(numFilters, MelOf(0.0, log10), MelOf(fMax, log10));
    HzInBand(numFilters, sampleRate, log10, pow, i);
    BinOfBandFrequency(fftSize, HzOf(mel[i], pow), sampleRate);
  }

  lemma BinOfBandFrequency(fftSize: nat, hz: real, sampleRate: int)
    requires sampleRate > 0 && 0.0 <= hz <= (sampleRate as real) / 2.0
    ensures 0 <= Bin(fftSize, hz, sampleRate) <= (((fftSize + 1) as real) / 2.0).Floor
  {
    var k := (fftSize + 1) as real;
    var rate := sampleRate as real;
    var x := k * hz / rate;
    BinIsFloor(fftSize, hz, sampleRate, x);
    ScaleDown(k, hz, rate);
    FloorMonotone(0.0, x);
    FloorMonotone(x, k / 2.0);
  }

  /** `Bin` is the floor of the named quotient (fftSize + 1) * hz / rate. */
  lemma BinIsFloor(fftSize: nat, hz: real, sampleRate: int, x: real)
    requires sampleRate > 0 && x == ((fftSize + 1) as real) * hz / (sampleRate as real)
    ensures Bin(fftSize, hz, sampleRate) == x.Floor
  {
  }

  /** With exact logarithms and powers the filter loops never leave their
      rows: `generateMelFilterbank` succeeds for every filter count, FFT
      size and positive sample rate. */
  lemma FilterbankFits(numFilters: nat, fftSize: nat, sampleRate: int, log10: real -> real, pow: (real, real) -> real)
    requires sampleRate > 0 && ExactLogPow(log10, pow)
    ensures GenerateMelFilterbank(numFilters, fftSize, sampleRate, log10, pow).Ok?
  {
    var b := Bins(numFilters, fftSize, sampleRate, log10, pow);
    var width := fftSize / 2 + 1;
    BinsInBand(numFilters, fftSize, sampleRate, log10, pow);
    HalfBelowWidth(fftSize);
    forall i | 0 <= i < numFilters ensures FilterInBounds(b, i, width) {
      assert 0 <= b[i] <= width && 0 <= b[i + 1] <= width && 0 <= b[i + 2] <= width;
    }
  }

  lemma HalfBelowWidth(fftSize: nat)
    ensures (((fftSize + 1) as real) / 2.0).Floor <= fftSize / 2 + 1
  {
    var q := fftSize / 2;
    assert fftSize <= 2 * q + 1;
    assert ((fftSize + 1) as real) / 2.0 <= (q + 1) as real;
    FloorMonotone(((fftSize + 1) as real) / 2.0, (q + 1) as real);
  }

  lemma ScaleDown(k: real, hz: real, rate: real)
    requires k >= 0.0 && rate > 0.0 && 0.0 <= hz <= rate / 2.0
    ensures 0.0 <= k * hz / rate <= k / 2.0
  {
    assert k * hz <= k * (rate / 2.0) by {
      assert k * (rate / 2.0 - hz) >= 0.0;
    }
    var half := k / 2.0;
    assert k * (rate / 2.0) == half * rate;
    assert half * rate / rate == half;
    DivideKeepsWeakOrder(k * hz, half * rate, rate);
  }

  lemma FloorMonotone(x: real, y: real)
    requires x <= y
    ensures x.Floor <= y.Floor
  {
  }

  /** Filter `i`'s triangle, when its three bins are in order: nothing
      outside [b[i], b[i+2]), 0 at its left edge and 1 at its apex b[i+1].
      The apex is the left edge of filter `i + 1`, where that filter is 0. */
  lemma Triangle(b: seq<int>, i: nat)
    requires i + 2 < |b|
    requires b[i] <= b[i + 1] <= b[i + 2]
    ensures forall j :: j < b[i] || j >= b[i + 2] ==> Weight(b, i, j) == 0.0
    ensures b[i] < b[i + 1] ==> Weight(b, i, b[i]) == 0.0
    ensures b[i + 1] < b[i + 2] ==> Weight(b, i, b[i + 1]) == 1.0
    ensures i + 3 < |b| && b[i + 1] < b[i + 2] ==> Weight(b, i + 1, b[i + 1]) == 0.0
  {
  }

  /** Between its left edge and its apex filter `i` strictly rises;
      between its apex and its right edge it strictly falls. */
  lemma TriangleSlopes(b: seq<int>, i: nat, j: int, k: int)
    requires i + 2 < |b|
    requires j < k
    ensures b[i] <= j && k < b[i + 1] ==> Weight(b, i, j) < Weight(b, i, k)
    ensures b[i + 1] <= j && k < b[i + 2] ==> Weight(b, i, j) > Weight(b, i, k)
  {
    if b[i] <= j && k < b[i + 1] {
      DivideKeepsOrder((j - b[i]) as real, (k - b[i]) as real, (b[i + 1] - b[i]) as real);
    }
    if b[i + 1] <= j && k < b[i + 2] {
      DivideKeepsOrder((b[i + 2] - k) as real, (b[i + 2] - j) as real, (b[i + 2] - b[i + 1]) as real);
    }
  }

  lemma DivideKeepsWeakOrder(x: real, y: real, d: real)
    requires x <= y && d > 0.0
    ensures x / d <= y / d
  {
    assert y / d - x / d == (y - x) / d;
  }

  lemma DivideKeepsOrder(x: real, y: real, d: real)
    requires x < y && d > 0.0
    ensures x / d < y / d
  {
    assert y / d - x / d == (y - x) / d;
  }

  /** The frames are too short for the filters: some filter has more
      weights than some frame has readings. */
  predicate FiltersTooLong(stft: seq<seq<real>>, fb: seq<seq<real>>) {
    exists t, m :: 0 <= t < |stft| && 0 <= m < |fb| && |fb[m]| > |stft[t]|
  }

  /** mfcc_edited.go's `applyMelFilterbank`: entry [t][m] is the dot
      product of frame t with filter m over the filter's full length. It
      reads out of range exactly when some filter is longer than some
      frame. */
  function ApplyMelDot(stft: seq<seq<real>>, fb: seq<seq<real>>): (r: Result<seq<seq<real>>>)
    ensures r.Err? <==> FiltersTooLong(stft, fb)
    ensures r.Err? ==> r.failure == IndexOutOfRange
    ensures r.Ok? ==> |r.value| == |stft|
    ensures r.Ok? ==> forall t :: 0 <= t < |stft| ==> |r.value[t]| == |fb|
  {
    if FiltersTooLong(stft, fb) then Err(IndexOutOfRange)
    else Ok(seq(|stft|, t requires 0 <= t < |stft| =>
      seq(|fb|, m requires 0 <= m < |fb| => Dot(stft[t], fb[m]))))
  }

  /** Non-negative frames and filters give non-negative Mel energies, and
      each energy reads only the first |filter| entries of its frame. */
  lemma MelDotEntries(stft: seq<seq<real>>, fb: seq<seq<real>>, t: nat, m: nat)
    requires ApplyMelDot(stft, fb).Ok?
    requires t < |stft| && m < |fb|
    ensures |fb[m]| <= |stft[t]|
    ensures ApplyMelDot(stft, fb).value[t][m] == Dot(stft[t][..|fb[m]|], fb[m])
    ensures NonNegative(stft[t]) && NonNegative(fb[m]) ==> ApplyMelDot(stft, fb).value[t][m] >= 0.0
  {
    var x := stft[t];
    var w := fb[m];
    assert |w| <= |x|;
    assert x[..|w|][..|w|] == x[..|w|];
    DotIgnoresTail(x, x[..|w|], w);
    if NonNegative(x) && NonNegative(w) {
      DotNonNegative(x, w);
    }
  }
}
