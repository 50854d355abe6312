# GO_CS6221 audio features, modelled in Dafny

This project models the core of a small Go pipeline that turns a WAV
recording into speech features. The pipeline has four parts:

- **Spectrogram text.** `matrixAsGnuplotFormat` writes a spectrogram as
  gnuplot `x y z` text. It is the same function in `main.go`, `ssp.go` and
  `plot.go`. One goroutine handles each row, and each writes its cells into
  a preallocated slice.
- **Reading it back.** `parseSTFT` reads the text back as a matrix. The
  lenient version in `main.go` treats an unparsable token as 0. The strict
  version in `mfcc_edited.go` stops at the first bad token.
- **Mel and MFCC features.** `main.go` uses a wrap-around "filterbank" that
  copies columns cyclically, then keeps every 100th MFCC row.
  `mfcc_edited.go` builds triangular Mel filters and applies them by dot
  product. Both then take `log(x + 1e-10)` and an unscaled DCT-II of every
  row.
- **WAV writer.** `utility.go` writes a mono 16-bit RIFF/WAVE file.

Modules follow the program's structure:

| module | file | what it holds |
|---|---|---|
| `Outcomes` | outcomes.dfy | `Result`/`Option`, and the failures that Go panics and errors become |
| `Text` | text.dfy | `strings.Fields`, `bufio.Scanner` line splitting, decimal `%d` |
| `Sums` | sums.dfy | sums and dot products of rows |
| `Gnuplot` | gnuplot.dfy | cell slots, any goroutine schedule, and text assembly |
| `StftParse` | stft_parse.dfy | the lenient and strict `parseSTFT` |
| `GnuplotRoundTrip` | gnuplot_roundtrip.dfy | what `parseSTFT` reads back from `matrixAsGnuplotFormat`'s text |
| `Cepstrum` | cepstrum.dfy | `logMelSpectrogram`, `dctTransform`, `computeMFCC` |
| `MainPipeline` | main_pipeline.dfy | `main.go`'s `applyMelFilterbank`, `downsampleMatrix`, `perform_mfcc` stages |
| `MelFilterbank` | mel_filterbank.dfy | `mfcc_edited.go`'s `generateMelFilterbank` and its `applyMelFilterbank` |
| `EditedMain` | edited_pipeline.dfy | `mfcc_edited.go`'s `main`, as written and corrected |
| `Riff` | riff.dfy | `utility.go`'s WAV serialiser |

Several Go functions are not modelled directly; they become function
parameters:

- `math.Log`, `math.Log10`, `math.Pow` and `math.Cos`;
- the `%g` formatter (`fmtG`);
- `strconv.ParseFloat` (`parse`, which returns a value and an ok flag);
- the float-to-`uint16` conversion (`toU16`).

A property that depends on one of these takes what it needs about it as a
premise. Examples: `%g` prints each value as one field, `ParseFloat` reads a
string of digits as the number it denotes, and `log10`/`pow` are exact inverses on the band. The round-trip premises about the matrix's printed values can all
hold at once; `GnuplotRoundTrip.PremisesAreConsistent` exhibits such functions
for every matrix. Go panics
(index out of range, the chunk-id check) become `Err` results.

## Model

| member | source | states |
|---|---|---|
| Gnuplot.SlotsDisjoint | main.go:277-278 | two cells of a row of width 2048 never write the same slot `i*cols+j`, so the goroutines never race on `results` |
| Gnuplot.SlotInRange | main.go:264-278 | every in-grid cell's slot lies inside the `rows*cols` slice, and the slot decodes back to the cell |
| Gnuplot.SlotsCover | ssp.go:130-146 | every slot of the preallocated slice belongs to exactly one in-grid cell, so none stays empty |
| Gnuplot.RowTasksCells | main.go:272-285 | the cells the goroutines of a given launch order write are exactly the cells of the rows launched |
| Gnuplot.RowOrderIsSchedule | ssp.go:138-151 | the row goroutines running one after another, in any order of whole rows that names every row, form a schedule covering the whole grid |
| Gnuplot.InterleavingIsSchedule | ssp.go:138-151 | any reordering of the row goroutines' cell writes, so every interleaving of them, is a schedule covering the whole grid |
| Gnuplot.Materialize | plot.go:84-97 | after all goroutines finish, in any order, the slice holds cell (i, j)'s line at slot i*2048+j, whatever the schedule |
| Gnuplot.TableAt | plot.go:89-92 | slot r*2048+q of the finished slice holds the text line of cell (r, q) |
| Gnuplot.TableHoldsRows | plot.go:101-107 | each row's 2048 consecutive slots hold that row's cell lines in column order |
| Gnuplot.AssembleRows | ssp.go:155-161 | concatenating the slots with an extra newline after every 2048th gives, row by row, that row's cell lines followed by one blank line |
| Gnuplot.MatrixAsGnuplotFormat | main.go:258-297 | the returned text is the same for every goroutine schedule: the lines `i j log(v)` in row-major order, each row ended by a blank line |
| Gnuplot.CellText | main.go:280 | the `%d %d %g` line of a cell; Fields splits it into the two indices and the printed log value (GnuplotRoundTrip.CellTextFields) and it survives the scanner (GnuplotRoundTrip.CellTextIsLine) |
| Gnuplot.Assemble | ssp.go:155-161 | the builder loop over the slots; Gnuplot.AssembleRows proves that it emits each row's lines followed by one blank line |
| Gnuplot.BlankLinesAtRowEnds | main.go:289-295 | the text has 2049 lines per row; line u is blank exactly when u is the last of its row's group, and otherwise is cell (u/2049, u%2049)'s line |
| Text.Fields | main.go:311 | `strings.Fields`; characterised by Text.FieldsOfJoinWords, Text.FieldsAreWords and Text.FieldsEmptyIffAllSpace |
| Text.Lines | main.go:308-310 | a `bufio.Scanner` with `ScanLines`, which drops one trailing carriage return; characterised by Text.LinesOfJoinLines and Text.LinesHaveNoNewline |
| Text.Decimal | main.go:280 | `%d` of a row or column index: a non-empty string of decimal digits, whose value is the index (Text.DecimalRoundTrip) |
| Text.FieldsOfJoinWords | main.go:311 | `strings.Fields` of words joined by single spaces gives back exactly those words |
| Text.FieldsEmptyIffAllSpace | main.go:313-316 | a line has no fields if and only if it consists of white space alone |
| Text.FieldsAreWords | mfcc_edited.go:27 | every field is non-empty and contains no white space |
| Text.LinesOfJoinLines | main.go:308-310 | scanning newline-terminated lines that contain no newline or trailing carriage return gives back exactly those lines |
| Text.LinesHaveNoNewline | mfcc_edited.go:24-26 | no scanned line contains a newline |
| Text.DecimalRoundTrip | main.go:280 | the `%d` rendering of a row or column index reads back as that index |
| StftParse.ParseLenient | main.go:300-331 | main.go's `parseSTFT` on the file's text: one row per scanned line that has a field, in order, holding that line's values |
| StftParse.ParseStrict | mfcc_edited.go:16-44 | mfcc_edited.go's `parseSTFT`: it fails exactly when some token of the text is rejected, naming the first; otherwise it returns what main.go's reader returns |
| StftParse.LenientRowsAreNonBlankLines | main.go:309-323 | the lenient parser yields one row per line that has fields, in order, and row k is the field values of the k-th such line |
| StftParse.ParseLinesLenient | main.go:300-331 | the lenient parser never yields more rows than lines, and never an empty row |
| StftParse.BlankLineSkipped | main.go:313-316 | a white-space-only line contributes no row |
| StftParse.LenientRow | main.go:318-322 | a row has one entry per field, each the value ParseFloat returned for that field, its error discarded |
| StftParse.StrictRow | mfcc_edited.go:33-40 | a row parses strictly if and only if none of its fields fails; then it equals the lenient row, otherwise the error names the first bad field |
| StftParse.ParseLinesStrict | mfcc_edited.go:16-44 | the strict parse fails if and only if some token of the text fails to parse, reporting the first one; when it succeeds it equals the lenient parse |
| StftParse.FirstInvalidNone | mfcc_edited.go:34-38 | no token is reported invalid if and only if every token parses |
| GnuplotRoundTrip.CellTextParses | main.go:280 | one cell's line reads back as [i, j, v], v being what ParseFloat returns for the printed log value; the only token the strict reader can reject in it is that printed value |
| GnuplotRoundTrip.LenientParseOfGnuplotText | main.go:94-110 | reading `matrixAsGnuplotFormat`'s text back gives rows*2048 rows, and row k is [k/2048, k%2048, v] with v what ParseFloat returns for the printed log of cell k: the triples, not the matrix; when every printed value reads back exactly, v is the log itself |
| GnuplotRoundTrip.StrictParseOfGnuplotText | mfcc_edited.go:25-43 | the strict parser accepts that text exactly when ParseFloat accepts every printed log value, and then agrees with the lenient one; otherwise it fails with the first rejected printed value in row-major order |
| MainPipeline.DownsampleMatrix | main.go:197-207 | with a factor of at most 1 the matrix is returned unchanged; otherwise the result is rows 0, f, 2f, ... in order, ceil(n/f) of them |
| MainPipeline.ApplyMelWrap | main.go:334-354 | panics exactly on an empty matrix or empty first row, and exactly when a non-empty row is shorter than both the first row and the filter count; otherwise keeps the row count, keeps empty rows empty and fills the others with numMelFilters entries |
| MainPipeline.Wrap | main.go:349-351 | the row the inner loop fills: entry j is the row's entry j mod width; characterised by MainPipeline.WrapAt |
| MainPipeline.WrapAt | main.go:349-351 | entry j of a wrap that is not short reads column j mod width, which the row holds, and entry j+width equals entry j |
| MainPipeline.WrapReadsModulo | main.go:349-351 | entry j of a row is that row's entry j mod (first row's width), which that row holds; below that width it is the row's own entry j |
| MainPipeline.WrapIsPeriodic | main.go:349-351 | the entries of a row repeat with the first row's width as their period |
| MainPipeline.WrapTruncates | main.go:339-350 | with no more filters than the first row's width, each non-empty row is cut to its first numMelFilters entries |
| MainPipeline.PerformMfccFeatures | main.go:119-139 | the feature stages fail exactly when the Mel stage panics; otherwise they give ceil(rows/100) rows of 13 coefficients |
| MainPipeline.MelStageOfGnuplotText | main.go:110-124 | on the text `perform_mfcc` itself wrote, each row's 40 "Mel energies" are its triple [i, j, v] repeated cyclically, v being the value read from the printed log |
| Cepstrum.LogMel | main.go:357-366 | keeps the matrix's shape, ragged rows included, and maps each energy x to log(x + 1e-10) |
| Cepstrum.LogMelKeepsOrder | mfcc_edited.go:101-110 | for non-negative energies the logarithm's argument is positive, and with a strictly increasing logarithm one log energy is below another exactly when its energy is, for any two entries of the matrix |
| Cepstrum.Dct | main.go:369-380 | the requested number of coefficients; an empty row gives all zeros, since the term loop never runs |
| Cepstrum.DctTransform | main.go:370-379 | the nested loops compute coefficient k as the sum over n of x[n]·cos(π/N·(n+½)·k) |
| Cepstrum.ComputeMfcc | main.go:383-389 | one coefficient row per input row, each the DCT of that row |
| Cepstrum.FirstCoefficientIsSum | main.go:372-377 | coefficient 0 is the plain sum of the row's log energies |
| Cepstrum.DctIsLinear | main.go:374-376 | the transform is linear: scaling a row scales its coefficients, and adding rows adds them |
| MelFilterbank.MelPoints | mfcc_edited.go:52-56 | numFilters+2 points, from melMin to melMax, in equal steps of (melMax−melMin)/(numFilters+1) |
| MelFilterbank.Bins | mfcc_edited.go:48-66 | the numFilters+2 bin edges, each the bin of the Hz point of a Mel point; characterised by MelFilterbank.BinsInBand and MelFilterbank.FirstBinIsZero |
| MelFilterbank.Bin | mfcc_edited.go:65 | floor((fftSize+1)·hz/rate); MelFilterbank.BinOfBandFrequency bounds it by floor((fftSize+1)/2) for frequencies in the band |
| MelFilterbank.BinOfBandFrequency | mfcc_edited.go:65 | a frequency between 0 and half the rate falls in a bin between 0 and floor((fftSize+1)/2) |
| MelFilterbank.FirstBinIsZero | mfcc_edited.go:48-65 | the lowest bin edge is 0, because fMin = 0 Hz maps to 0 mel and back |
| MelFilterbank.Weight | mfcc_edited.go:71-76 | every filter weight lies between 0 and 1, including when neighbouring edges coincide |
| MelFilterbank.FiltersFromBins | mfcc_edited.go:68-78 | building the filters panics exactly when a filter's edges reach past its fftSize/2+1 weights; otherwise numFilters rows of that width, holding the triangular weights |
| MelFilterbank.GenerateMelFilterbank | mfcc_edited.go:47-79 | a built filterbank has numFilters filters of fftSize/2+1 weights each |
| MelFilterbank.BinsInBand | mfcc_edited.go:58-66 | when log10 and pow are exact inverses, every bin edge lies in [0, floor((fftSize+1)/2)] |
| MelFilterbank.FilterbankFits | mfcc_edited.go:68-77 | when log10 and pow are exact inverses, the filterbank is built without an index panic, whatever the filter count, FFT size and positive rate |
| MelFilterbank.Triangle | mfcc_edited.go:70-76 | a filter is zero outside [b[i], b[i+2]), 0 at its left edge, 1 at its apex, and the next filter starts at 0 where this one peaks |
| MelFilterbank.TriangleSlopes | mfcc_edited.go:71-75 | a filter strictly rises from its left edge to its apex and strictly falls from its apex to its right edge |
| MelFilterbank.ApplyMelDot | mfcc_edited.go:82-98 | the stage reads out of range exactly when some filter is longer than some frame; otherwise one row of one energy per filter for every frame |
| MelFilterbank.MelDotEntries | mfcc_edited.go:89-95 | each energy is the dot product of the filter with the frame's first |filter| readings, and non-negative for non-negative inputs |
| Sums.DotNonNegative | mfcc_edited.go:90-94 | a dot product of non-negative rows is non-negative |
| Sums.DotIgnoresTail | mfcc_edited.go:91-92 | a dot product depends only on the frame's readings within the filter's length |
| EditedMain.MelStageAsWritten | mfcc_edited.go:173-176 | the Mel stage with fftSize = 2·len(stft[0]); EditedMain.AsWrittenAlwaysFails proves it never succeeds |
| EditedMain.MelStage | mfcc_edited.go:173-176 | the Mel stage with the FFT sized to the frames; EditedMain.MelStageFits proves it succeeds on well-shaped input |
| EditedMain.AsWrittenAlwaysFails | mfcc_edited.go:173-176 | with fftSize = 2·len(stft[0]), the Mel stage fails for every matrix; with exact log10/pow the filterbank is built and filter 0 is one weight longer than frame 0 |
| EditedMain.FftSizeFor | mfcc_edited.go:173 | the corrected FFT size gives fftSize/2+1 bins, which equals the frame length |
| EditedMain.MelStageFits | mfcc_edited.go:170-176 | with the corrected size and exact log10/pow, the Mel stage succeeds on a non-empty matrix whose frames are at least as long as the first, giving 40 energies per frame |
| EditedMain.MfccMainAsWritten | mfcc_edited.go:163-178 | a parse error is reported; every successfully parsed matrix ends in an index panic |
| EditedMain.MfccMain | mfcc_edited.go:163-185 | the corrected `main` reports a parse error as is, gives 13 coefficients per frame when it succeeds, and succeeds on every well-shaped non-empty matrix |
| Riff.LE16 | utility.go:67-68 | two bytes that read back little-endian as the value |
| Riff.LE32 | utility.go:69-70 | four bytes that read back little-endian as the value |
| Riff.ByteRate | utility.go:70 | the byte rate with both uint32 products wrapped before the division by 8; Riff.MonoByteRate states what it gives for mono 16-bit files |
| Riff.BlockAlign | utility.go:71 | the uint16 block align bits/8·channels; read back from offset 12 of the payload by Riff.FmtPayload |
| Riff.FmtPayload | utility.go:65-72 | the 16-byte `fmt ` payload reads back as PCM format 1, the channels, the rate, the byte rate, the block align and the bits, at offsets 0, 2, 4, 8, 12 and 14 |
| Riff.WriteChunk | utility.go:76-84 | panics exactly when the id is not four bytes long; otherwise it writes the id, the 32-bit data length, then the data |
| Riff.WriteFmt | utility.go:73 | a 24-byte `fmt ` chunk whose declared size is 16 and whose body is the payload |
| Riff.WriteData | utility.go:49-63 | never panics, and the file is 44 bytes longer than the sample data |
| Riff.WriteDataRoundTrip | utility.go:55-61 | decoding the written file gives back `RIFF`, a size of file length − 12 modulo 2^32, `WAVE`, every format field, the `data` size and the data |
| Riff.PackMono | utility.go:22-27 | sample i becomes bytes 2i and 2i+1, its 16-bit value little-endian |
| Riff.WriteMono | utility.go:12-41 | the file decodes as mono 16-bit PCM at the given rate, with block align 2 and the converted samples as data |
| Riff.MonoFormat | utility.go:13-20 | for 16-bit mono, the byte rate is (16·rate mod 2^32)/8 and the block align is 2 |
| Riff.MonoByteRate | utility.go:70 | below 2^28 Hz the byte rate is twice the rate; the 32-bit product wraps to 0 at exactly 2^28 |

## Left out

- Computing the spectrogram (`gossp` STFT calls, WAV decoding in `perform_mfcc`) is outside the core; the matrix is an input.
- float64 arithmetic is modelled with exact reals: rounding, NaN, ±Inf and `log` of 0 or negatives are not represented.
- `math.Log`, `math.Log10`, `math.Pow`, `math.Cos`, `fmt`'s `%g`, `strconv.ParseFloat` and `uint16(float64)` are parameters, because they are foreign numeric code; properties state what they assume about them.
- Goroutines, `sync.WaitGroup` and the progress bar are modelled only through the order in which cells are written (any schedule covering the grid). The `&vec` capture at main.go:283 is read with per-iteration loop variables (Go 1.22 and later); with the older shared variable, goroutines may read a later row.
- Gnuplot.MatrixAsGnuplotFormat: requires every row to hold at least 2048 readings, where Go panics inside a goroutine and the program crashes; a crash is not a value the model can return.
- The HTTP server (main.go:29-56, web/main.go), `createGnuplot`, `generateSpectrogram`, the gonum plots of plot.go, `saveMFCCImage` (both copies) and `saveMFCCToFile`: these are external processes, plotting and PNG I/O.
- File I/O: open and create errors, scanner errors, the 64 KiB scanner token limit, the short-write retry loop in `write` and `deleteFiles`. Text and byte sequences stand in for files, and `write` is "append these bytes".
- mainMFCC.go is not part of this model; nothing reaches it.
- mfcc_edited.go:65 multiplies an `int` by a `float64`, which Go does not compile; it is read as `float64(fftSize+1) * hz`.
- MelFilterbank.GenerateMelFilterbank: requires a positive sample rate, since Go's float division by zero gives ±Inf or NaN, which the model does not represent. Filter counts and sizes are `nat`, so Go's negative-length `make` panic is not modelled.
- MelFilterbank.Bins: `int(math.Floor(x))` on a float too large for an `int` is not modelled; the exact floor is used.
- MainPipeline.PerformMfccFeatures: the `len(stft[0])` print at main.go:117 panics on an empty matrix before the Mel stage does; both become the same `Err`. The prints at main.go:132 and 140 cannot fail once the Mel stage succeeded.
- Go's nil and empty slices are not distinguished: an empty Mel row, nil in Go, is the empty sequence.

## Findings

| source | as written | input that shows it | evidently intended | confidence | as-written member | corrected member |
|---|---|---|---|---|---|---|
| mfcc_edited.go:173 | `fftSize := len(stft[0]) * 2`, so each filter has `len(stft[0]) + 1` weights, one more than a frame | the text `1` parses to [[1]]; fftSize = 2 gives filters of 2 weights, and the dot product reads `stft[0][1]`, out of range | `fftSize := 2 * (len(stft[0]) - 1)`, so fftSize/2+1 equals the frame length | high (not executed) | EditedMain.AsWrittenAlwaysFails | EditedMain.MelStageFits |
