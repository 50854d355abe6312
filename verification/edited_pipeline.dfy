/** The `main` of mfcc_edited.go: read the matrix strictly, build 40 Mel
    filters for a 16 kHz signal, apply them, take logarithms and 13 DCT
    coefficients per frame. Saving the PNG image is left out.

    As written, `main` sizes the FFT as twice the first frame's length, so
    every filter has one weight more than the frame has readings and the
    dot product reads past the end of the frame: the stage can never
    succeed. `MfccMainAsWritten` keeps that wiring and proves it always
    fails; `MfccMain` sizes the FFT so that a frame of n readings is the
    n = fftSize / 2 + 1 bins of a real FFT, which is what the filters
    expect.
 */
module EditedMain {
  import opened Outcomes
  import opened Sums
  import opened StftParse
  import opened MelFilterbank
  import opened Cepstrum

  const NumMelFilters: nat := 40
  const NumMfcc: nat := 13
  const SampleRate: int := 16000

  /** The Mel stage as line 173 wires it: fftSize = 2 * len(stft[0]).
      Indexing the first frame of an empty matrix panics. */
  function MelStageAsWritten(stft: seq<seq<real>>, log10: real -> real, pow: (real, real) -> real)
    : Result<seq<seq<real>>>
  {
    if stft == [] then Err(IndexOutOfRange)
    else
      var fb :- GenerateMelFilterbank(NumMelFilters, 2 * |stft[0]|, SampleRate, log10, pow);
      ApplyMelDot(stft, fb)
  }

  /** Whatever the matrix, the wiring of line 173 never gets past the Mel
      stage: filter 0 is |stft[0]| + 1 weights long, one more than frame 0.
      With exact logarithms and powers the filterbank itself is built, so
      it is the dot product that reads out of range. */
  lemma AsWrittenAlwaysFails(stft: seq<seq<real>>, log10: real -> real, pow: (real, real) -> real)
    ensures MelStageAsWritten(stft, log10, pow).Err?
    ensures stft != [] && ExactLogPow(log10, pow) ==>
      && GenerateMelFilterbank(NumMelFilters, 2 * |stft[0]|, SampleRate, log10, pow).Ok?
      && FiltersTooLong(stft, GenerateMelFilterbank(NumMelFilters, 2 * |stft[0]|, SampleRate, log10, pow).value)
  {
    if stft != [] && ExactLogPow(log10, pow) {
      FilterbankFits(NumMelFilters, 2 * |stft[0]|, SampleRate, log10, pow);
    }
    if stft != [] {
      var g := GenerateMelFilterbank(NumMelFilters, 2 * |stft[0]|, SampleRate, log10, pow);
      if g.Ok? {
        var fb := g.value;
        assert |fb[0]| == 2 * |stft[0]| / 2 + 1 == |stft[0]| + 1;
        assert FiltersTooLong(stft, fb) by {
          assert 0 <= 0 < |stft| && 0 <= 0 < |fb| && |fb[0]| > |stft[0]|;
        }
      }
    }
  }

  /** The FFT size whose fftSize / 2 + 1 bins are the `n` readings of a
      frame; an empty frame gets the smallest size. */
  function FftSizeFor(n: nat): (fftSize: nat)
    ensures n > 0 ==> fftSize / 2 + 1 == n
  {
    if n == 0 then 0 else 2 * (n - 1)
  }

  /** The Mel stage with the FFT sized to the frames. */
  function MelStage(stft: seq<seq<real>>, log10: real -> real, pow: (real, real) -> real)
    : Result<seq<seq<real>>>
  {
    if stft == [] then Err(IndexOutOfRange)
    else
      var fb :- GenerateMelFilterbank(NumMelFilters, FftSizeFor(|stft[0]|), SampleRate, log10, pow);
      ApplyMelDot(stft, fb)
  }

  /** Every frame is at least as long as the first one. */
  predicate FramesCoverFirst(stft: seq<seq<real>>)
    requires stft != []
  {
    forall t :: 0 <= t < |stft| ==> |stft[0]| <= |stft[t]|
  }

  /** With the FFT sized to the frames and exact logarithms and powers,
      the Mel stage succeeds on every matrix whose frames are at least as
      long as the first, non-empty one, and yields 40 energies per frame. */
  lemma MelStageFits(stft: seq<seq<real>>, log10: real -> real, pow: (real, real) -> real)
    requires stft != [] && stft[0] != [] && FramesCoverFirst(stft)
    requires ExactLogPow(log10, pow)
    ensures MelStage(stft, log10, pow).Ok?
    ensures |MelStage(stft, log10, pow).value| == |stft|
    ensures forall t :: 0 <= t < |stft| ==> |MelStage(stft, log10, pow).value[t]| == NumMelFilters
  {
    FilterbankFits(NumMelFilters, FftSizeFor(|stft[0]|), SampleRate, log10, pow);
    var fb := GenerateMelFilterbank(NumMelFilters, FftSizeFor(|stft[0]|), SampleRate, log10, pow).value;
    assert forall m :: 0 <= m < |fb| ==> |fb[m]| == |stft[0]|;
    assert !FiltersTooLong(stft, fb);
  }

  /** The remaining stages, shared by both wirings: logarithms, then 13
      DCT coefficients per frame. */
  function Cepstra(mel: seq<seq<real>>, log: real -> real, cos: real -> real): seq<seq<real>> {
    var logMel := LogMel(mel, log);
    seq(|mel|, t requires 0 <= t < |mel| => Dct(logMel[t], NumMfcc, cos))
  }

  /** Lines 163-178 of mfcc_edited.go as written: a parse error is
      returned, and every parsed matrix ends in an index panic. */
  method MfccMainAsWritten(text: string, parse: string -> Parsed, log10: real -> real,
                           pow: (real, real) -> real, log: real -> real, cos: real -> real)
    returns (r: Result<seq<seq<real>>>)
    ensures ParseStrict(text, parse).Err? ==> r == Err(ParseStrict(text, parse).failure)
    ensures ParseStrict(text, parse).Ok? ==> r == Err(IndexOutOfRange)
  {
    var stft :- ParseStrict(text, parse);
    var mel := MelStageAsWritten(stft, log10, pow);
    r := if mel.Ok? then Ok(Cepstra(mel.value, log, cos)) else Err(mel.failure);
    AsWrittenAlwaysFails(stft, log10, pow);
  }

  /** Lines 163-178 of mfcc_edited.go with the FFT sized to the frames:
      one row of 13 coefficients per frame, or the first error met. */
  method MfccMain(text: string, parse: string -> Parsed, log10: real -> real,
                  pow: (real, real) -> real, log: real -> real, cos: real -> real)
    returns (r: Result<seq<seq<real>>>)
    ensures ParseStrict(text, parse).Err? ==> r == Err(ParseStrict(text, parse).failure)
    ensures ParseStrict(text, parse).Ok? ==> r.Ok? == MelStage(ParseStrict(text, parse).value, log10, pow).Ok?
    ensures r.Ok? ==> && |r.value| == |ParseStrict(text, parse).value|
                      && forall t :: 0 <= t < |r.value| ==> |r.value[t]| == NumMfcc
    ensures (&& ExactLogPow(log10, pow)
             && ParseStrict(text, parse).Ok? && ParseStrict(text, parse).value != []
             && FramesCoverFirst(ParseStrict(text, parse).value)) ==> r.Ok?
  {
    var stft :- ParseStrict(text, parse);
    if ExactLogPow(log10, pow) && stft != [] && FramesCoverFirst(stft) {
      MelStageFits(stft, log10, pow);
    }
    var mel :- MelStage(stft, log10, pow);
    var mfcc := ComputeMfcc(LogMel(mel, log), NumMfcc, cos);
    r := Ok(mfcc);
  }
}
