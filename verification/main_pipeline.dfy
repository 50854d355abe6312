/** The feature stages of main.go's `perform_mfcc`: the wrap-around
    `applyMelFilterbank`, and `downsampleMatrix`, which thins the MFCC rows
    before they are saved. `applyMelFilterbank`'s panics become `Err`
    values. */
module MainPipeline {
  import opened Outcomes
  import opened Text
  import opened StftParse
  import opened Gnuplot
  import opened GnuplotRoundTrip
  import opened Cepstrum

  /** `downsampleMatrix`: with a factor of at most 1 the matrix itself;
      otherwise rows 0, f, 2f, ... in their original order, which is
      ceil(|m| / f) rows. */
  method DownsampleMatrix<T>(matrix: seq<T>, factor: int) returns (r: seq<T>)
    ensures factor <= 1 ==> r == matrix
    ensures factor > 1 ==> |matrix| <= |r| * factor < |matrix| + factor
    ensures factor > 1 ==> forall k :: 0 <= k < |r| ==> k * factor < |matrix| && r[k] == matrix[k * factor]
  {
    if factor <= 1 {
      return matrix;
    }
    r := [];
    var i := 0;
    while i < |matrix|
      invariant i == |r| * factor
      invariant i < |matrix| + factor
      invariant forall k :: 0 <= k < |r| ==> k * factor < |matrix| && r[k] == matrix[k * factor]
      decreases |matrix| - i
    {
      assert (|r| + 1) * factor == |r| * factor + factor;
      r := r + [matrix[i]];
      i := i + factor;
    }
  }

  /** A row set from the wrap-around stage: the first `n` entries of the
      row's cycle through the first `width` of its entries. */
  function Wrap(row: seq<real>, width: nat, n: nat): seq<real>
    requires 0 < width && (row == [] || width <= |row| || n <= |row|)
  {
    seq(n, j requires 0 <= j < n => if j % width < |row| then row[j % width] else 0.0)
  }

  /** Row `i` is too short for the wrap-around loop: it is not empty but
      misses one of the indices j % width that the loop reads. */
  predicate ShortRow(row: seq<real>, width: nat, n: nat) {
    row != [] && |row| < width && |row| < n
  }

  /** main.go's `applyMelFilterbank`. It panics on an empty matrix or an
      empty first row, and reads out of range on a non-empty row shorter
      than both the first row and the filter count. Otherwise it keeps the
      row count, leaves empty rows empty (nil in Go), and fills every other
      row with `numMelFilters` entries taken cyclically from the columns of
      the first row's width. */
  function ApplyMelWrap(stft: seq<seq<real>>, numMelFilters: nat): (r: Result<seq<seq<real>>>)
    ensures r == Err(EmptyInput) <==> stft == [] || stft[0] == []
    ensures r == Err(IndexOutOfRange) <==>
      stft != [] && stft[0] != [] && exists i :: 0 <= i < |stft| && ShortRow(stft[i], |stft[0]|, numMelFilters)
    ensures r.Ok? ==> |r.value| == |stft|
    ensures r.Ok? ==> forall i :: 0 <= i < |stft| && stft[i] == [] ==> r.value[i] == []
    ensures r.Ok? ==> forall i :: 0 <= i < |stft| && stft[i] != [] ==> |r.value[i]| == numMelFilters
  {
    if stft == [] || stft[0] == [] then Err(EmptyInput)
    else if exists i :: 0 <= i < |stft| && ShortRow(stft[i], |stft[0]|, numMelFilters) then Err(IndexOutOfRange)
    else
      var width := |stft[0]|;
      Ok(seq(|stft|, i requires 0 <= i < |stft| =>
        if stft[i] == [] then [] else Wrap(stft[i], width, numMelFilters)))
  }

  /** Every entry the stage writes is read from the row at its column modulo
      the first row's width: it is the row itself up to that width. */
  lemma WrapReadsModulo(stft: seq<seq<real>>, numMelFilters: nat, i: nat, j: nat)
    requires ApplyMelWrap(stft, numMelFilters).Ok?
    requires i < |stft| && stft[i] != [] && j < numMelFilters
    ensures j % |stft[0]| < |stft[i]|
    ensures ApplyMelWrap(stft, numMelFilters).value[i][j] == stft[i][j % |stft[0]|]
    ensures j < |stft[0]| ==> ApplyMelWrap(stft, numMelFilters).value[i][j] == stft[i][j]
  {
    WrapRow(stft, numMelFilters, i);
    WrapAt(stft[i], |stft[0]|, numMelFilters, j);
  }

  /** The entries the stage writes repeat with the first row's width as
      their period. */
  lemma WrapIsPeriodic(stft: seq<seq<real>>, numMelFilters: nat, i: nat, j: nat)
    requires ApplyMelWrap(stft, numMelFilters).Ok?
    requires i < |stft| && stft[i] != [] && j + |stft[0]| < numMelFilters
    ensures ApplyMelWrap(stft, numMelFilters).value[i][j + |stft[0]|] == ApplyMelWrap(stft, numMelFilters).value[i][j]
  {
    WrapRow(stft, numMelFilters, i);
    WrapAt(stft[i], |stft[0]|, numMelFilters, j);
  }

  /** A non-empty row of the stage's result is the row's wrap at the first
      row's width, and the row is not short. */
  lemma WrapRow(stft: seq<seq<real>>, numMelFilters: nat, i: nat)
    requires ApplyMelWrap(stft, numMelFilters).Ok?
    requires i < |stft| && stft[i] != []
    ensures stft != [] && |stft[0]| > 0
    ensures !ShortRow(stft[i], |stft[0]|, numMelFilters)
    ensures ApplyMelWrap(stft, numMelFilters).value[i] == Wrap(stft[i], |stft[0]|, numMelFilters)
  {
  }

  /** Entry j of a wrap that is not short reads column j mod width. */
  lemma WrapAt(row: seq<real>, width: nat, n: nat, j: nat)
    requires 0 < width && row != [] && !ShortRow(row, width, n) && j < n
    ensures j % width < |row|
    ensures Wrap(row, width, n)[j] == row[j % width]
    ensures j < width ==> j % width == j
    ensures j + width < n ==> Wrap(row, width, n)[j + width] == Wrap(row, width, n)[j]
  {
    ModOfShift(j, width);
    var k := (j + width) % width;
    assert k == j % width;
  }

  /** Adding the modulus does not change the remainder, and a number below
      the modulus is its own remainder. */
  lemma ModOfShift(j: nat, w: nat)
    requires w > 0
    ensures (j + w) % w == j % w
    ensures j < w ==> j % w == j
    ensures j % w < w
  {
    var q, r := j / w, j % w;
    assert j == q * w + r;
    assert j + w == (q + 1) * w + r;
    DivModUnique(j + w, w, q + 1, r);
    if j < w {
      DivModUnique(j, w, 0, j);
    }
  }

  lemma DivModUnique(n: int, w: int, q: int, r: int)
    requires w > 0 && 0 <= r < w && n == q * w + r
    ensures n / w == q && n % w == r
  {
    var q', r' := n / w, n % w;
    assert n == q' * w + r' && 0 <= r' < w;
    var d := q - q';
    assert d * w == r' - r by {
      assert d * w == q * w - q' * w;
    }
    if d > 0 {
      MulAtLeast(d, w);
    } else if d < 0 {
      MulAtLeast(-d, w);
    }
  }

  lemma MulAtLeast(a: int, w: int)
    requires a >= 1 && w > 0
    ensures a * w >= w
  {
    assert a * w == (a - 1) * w + w;
    assert (a - 1) * w >= 0;
  }

  /** When the filter count is at most the first row's width, the stage
      truncates every non-empty row to its first `numMelFilters` entries. */
  lemma WrapTruncates(stft: seq<seq<real>>, numMelFilters: nat, i: nat)
    requires ApplyMelWrap(stft, numMelFilters).Ok?
    requires numMelFilters <= |stft[0]|
    requires i < |stft| && stft[i] != []
    ensures numMelFilters <= |stft[i]|
    ensures ApplyMelWrap(stft, numMelFilters).value[i] == stft[i][..numMelFilters]
  {
    var out := ApplyMelWrap(stft, numMelFilters).value[i];
    assert !ShortRow(stft[i], |stft[0]|, numMelFilters);
    forall j | 0 <= j < numMelFilters ensures out[j] == stft[i][j] {
      WrapReadsModulo(stft, numMelFilters, i, j);
    }
  }

  /** The number of filters `perform_mfcc` asks for. */
  const MelFilters: nat := 40
  /** The number of MFCC coefficients `perform_mfcc` keeps. */
  const MfccCoefficients: nat := 13
  /** The row stride `perform_mfcc` downsamples the MFCC matrix with. */
  const DownsampleFactor: int := 100

  /** Lines 110-139 of `perform_mfcc`: read the matrix text back, apply the
      wrap-around Mel stage, take logarithms and the DCT, and keep every
      100th row. The file round trip and the printing are left out. */
  method PerformMfccFeatures(text: string, parse: string -> Parsed, log: real -> real, cos: real -> real)
    returns (r: Result<seq<seq<real>>>)
    ensures r.Err? <==> ApplyMelWrap(ParseLenient(text, parse), MelFilters).Err?
    ensures r.Ok? ==> var rows := |ParseLenient(text, parse)|;
      && |r.value| == (rows + DownsampleFactor - 1) / DownsampleFactor
      && forall k :: 0 <= k < |r.value| ==> |r.value[k]| == MfccCoefficients
  {
    var stft := ParseLenient(text, parse);
    var mel := ApplyMelWrap(stft, MelFilters);
    if mel.Err? {
      return Err(mel.failure);
    }
    var logMel := LogMel(mel.value, log);
    var mfcc := ComputeMfcc(logMel, MfccCoefficients, cos);
    var thinned := DownsampleMatrix(mfcc, DownsampleFactor);
    r := Ok(thinned);
  }

  /** What the Mel stage of `perform_mfcc` sees when the file it reads is
      the one `matrixAsGnuplotFormat` wrote: every row is a triple
      [i, j, v], where v is what ParseFloat makes of the printed log value,
      so the 40 "Mel energies" of a row are that triple repeated, not a
      filtered spectrum. */
  lemma MelStageOfGnuplotText(m: seq<seq<real>>, log: real -> real, fmtG: real -> string, parse: string -> Parsed,
                              k: nat, j: nat)
    requires WideRows(m) && m != []
    requires PrintsWords(m, log, fmtG) && ReadsDecimals(parse)
    requires k < |m| * Cols && j < MelFilters
    ensures var stft := ParseLenient(JoinLines(TextLines(m, |m|, log, fmtG)), parse);
      && |stft| == |m| * Cols
      && |stft[k]| == 3
      && ApplyMelWrap(stft, MelFilters).Ok?
      && ApplyMelWrap(stft, MelFilters).value[k][j] == stft[k][j % 3]
      && ApplyMelWrap(stft, MelFilters).value[k][j] ==
           [(k / Cols) as real, (k % Cols) as real, ReadBack(m[k / Cols][k % Cols], log, fmtG, parse)][j % 3]
  {
    var stft := ParseLenient(JoinLines(TextLines(m, |m|, log, fmtG)), parse);
    LenientParseOfGnuplotText(m, log, fmtG, parse);
    assert 0 < |m| * Cols;
    assert |stft[0]| == 3;
    assert forall i :: 0 <= i < |stft| ==> |stft[i]| == 3;
    assert !exists i :: 0 <= i < |stft| && ShortRow(stft[i], 3, MelFilters);
    WrapReadsModulo(stft, MelFilters, k, j);
  }
}
