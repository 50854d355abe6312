/** What `parseSTFT` gets back from the text `matrixAsGnuplotFormat` writes.

    main.go writes the gnuplot text of the spectrogram to a file and reads
    that file back with `parseSTFT` before the Mel stage. The text has one
    `"<row> <col> <log value>"` line per cell, so the lenient reader returns
    one three-value row per cell, in row-major order, not the spectrogram
    itself: the cell's indices and whatever ParseFloat makes of the `%g`
    text of its logarithm. The strict reader accepts the text exactly when
    ParseFloat accepts every printed value, and otherwise reports the first
    one it rejects. Two facts about the formatting routines are premises:
    `%g` prints each value as one field, and ParseFloat reads a string of
    decimal digits as the number it denotes. When, in addition, ParseFloat
    reads every printed value back exactly, the third entry of each row is
    the logarithm itself.
 */
module GnuplotRoundTrip {
  import opened Text
  import opened Outcomes
  import opened Gnuplot
  import opened StftParse

  /** `%g` prints the logarithm of every cell of `m` as one field. */
  ghost predicate PrintsWords(m: seq<seq<real>>, log: real -> real, fmtG: real -> string) {
    forall i, j :: 0 <= i < |m| && 0 <= j < |m[i]| ==> IsWord(fmtG(log(m[i][j])))
  }

  /** `ParseFloat` reads the `%g` text of every printed logarithm of `m`
      back as that number. */
  ghost predicate ReadsBackG(m: seq<seq<real>>, log: real -> real, fmtG: real -> string, parse: string -> Parsed) {
    forall i, j :: 0 <= i < |m| && 0 <= j < |m[i]| ==> parse(fmtG(log(m[i][j]))) == Parsed(log(m[i][j]), true)
  }

  /** `ParseFloat` reads a non-empty string of decimal digits as the number
      it denotes. */
  ghost predicate ReadsDecimals(parse: string -> Parsed) {
    forall s :: s != [] && AllDigits(s) ==> parse(s) == Parsed(DigitsValue(s) as real, true)
  }

  /** A reader that accepts exactly the non-empty strings of decimal digits. */
  function DigitsOnly(s: string): Parsed {
    if s != [] && AllDigits(s) then Parsed(DigitsValue(s) as real, true) else Parsed(0.0, false)
  }

  /** The premises can hold together, for every matrix: a logarithm that is
      constantly 1, printed as "1", read by `DigitsOnly`. */
  lemma PremisesAreConsistent(m: seq<seq<real>>)
    ensures PrintsWords(m, x => 1.0, x => "1")
    ensures ReadsDecimals(DigitsOnly)
    ensures ReadsBackG(m, x => 1.0, x => "1", DigitsOnly)
  {
    assert IsWord("1") by { assert !IsSpace('1'); }
    assert AllDigits("1") && "1"[..0] == [];
    assert DigitsValue("1") == 1;
  }

  /** The rendering `%d` gives a row or column index is read back as that index. */
  lemma DecimalParses(parse: string -> Parsed, n: nat)
    requires ReadsDecimals(parse)
    ensures parse(Decimal(n)) == Parsed(n as real, true)
  {
    DecimalRoundTrip(n);
  }

  /** The number the reader returns for the `%g` text of `log(x)`. */
  function ReadBack(x: real, log: real -> real, fmtG: real -> string, parse: string -> Parsed): real {
    parse(fmtG(log(x))).value
  }

  /** The row the reader returns for slot `k` of the table: the cell's row
      index, its column index and the value read from its printed logarithm. */
  function Triple(m: seq<seq<real>>, k: nat, log: real -> real, fmtG: real -> string, parse: string -> Parsed): seq<real>
    requires WideRows(m) && k < |m| * Cols
  {
    SlotsCover(k, |m|);
    [(k / Cols) as real, (k % Cols) as real, ReadBack(m[k / Cols][k % Cols], log, fmtG, parse)]
  }

  /** `rows` holds, in order, the triples of the first `n` rows' cells. */
  ghost predicate TriplesOf(rows: seq<seq<real>>, m: seq<seq<real>>, n: nat, log: real -> real,
                            fmtG: real -> string, parse: string -> Parsed)
    requires WideRows(m) && n <= |m|
  {
    && |rows| == n * Cols
    && n * Cols <= |m| * Cols
    && forall k :: 0 <= k < |rows| ==> rows[k] == Triple(m, k, log, fmtG, parse)
  }

  /** The printed text of slot `k`'s logarithm. */
  function PrintedAt(m: seq<seq<real>>, k: nat, log: real -> real, fmtG: real -> string): string
    requires WideRows(m) && k < |m| * Cols
  {
    SlotsCover(k, |m|);
    fmtG(log(m[k / Cols][k % Cols]))
  }

  /** The printed logarithms of all cells, in the order the text holds them. */
  function Printed(m: seq<seq<real>>, log: real -> real, fmtG: real -> string): (ps: seq<string>)
    requires WideRows(m)
    ensures |ps| == |m| * Cols
  {
    seq(|m| * Cols, k requires 0 <= k < |m| * Cols => PrintedAt(m, k, log, fmtG))
  }

  /** The printed logarithms of the first `q` cells of row `r`. */
  function RowPrinted(m: seq<seq<real>>, r: nat, q: nat, log: real -> real, fmtG: real -> string): (ps: seq<string>)
    requires WideRows(m) && r < |m| && q <= Cols
    ensures |ps| == q
    ensures forall j :: 0 <= j < q ==> ps[j] == fmtG(log(m[r][j]))
  {
    seq(q, j requires 0 <= j < q => fmtG(log(m[r][j])))
  }

  lemma CellTextFields(m: seq<seq<real>>, c: Cell, log: real -> real, fmtG: real -> string)
    requires c.row < |m| && c.col < |m[c.row]|
    requires IsWord(fmtG(log(m[c.row][c.col])))
    ensures Fields(CellText(m, c, log, fmtG))
         == [Decimal(c.row), Decimal(c.col), fmtG(log(m[c.row][c.col]))]
  {
    var ws := [Decimal(c.row), Decimal(c.col), fmtG(log(m[c.row][c.col]))];
    DecimalIsWord(c.row);
    DecimalIsWord(c.col);
    assert JoinWords(ws[2..]) == ws[2];
    assert JoinWords(ws[1..]) == ws[1] + ([' '] + ws[2]);
    assert JoinWords(ws) == CellText(m, c, log, fmtG);
    FieldsOfJoinWords(ws);
  }

  /** A cell's text reads back as the cell's indices and the value read
      from its printed logarithm; the only token the strict reader can
      reject in it is that printed logarithm. */
  lemma CellTextParses(m: seq<seq<real>>, c: Cell, log: real -> real, fmtG: real -> string, parse: string -> Parsed)
    requires c.row < |m| && c.col < |m[c.row]|
    requires IsWord(fmtG(log(m[c.row][c.col]))) && ReadsDecimals(parse)
    ensures ParseLinesLenient([CellText(m, c, log, fmtG)], parse)
         == [[c.row as real, c.col as real, ReadBack(m[c.row][c.col], log, fmtG, parse)]]
    ensures FirstInvalid(Tokens([CellText(m, c, log, fmtG)]), parse)
         == FirstInvalid([fmtG(log(m[c.row][c.col]))], parse)
  {
    var l := CellText(m, c, log, fmtG);
    var g := fmtG(log(m[c.row][c.col]));
    var fs := [Decimal(c.row), Decimal(c.col), g];
    CellTextFields(m, c, log, fmtG);
    DecimalParses(parse, c.row);
    DecimalParses(parse, c.col);
    assert LenientRow(fs, parse) == [c.row as real, c.col as real, ReadBack(m[c.row][c.col], log, fmtG, parse)];
    assert Fields(l) == fs;
    assert [l][1..] == [];
    assert ParseLinesLenient([l], parse) == [LenientRow(fs, parse)] + ParseLinesLenient([], parse);
    assert Tokens([l]) == fs + Tokens([]);
    assert fs + [] == fs;
    assert fs[1..] == [Decimal(c.col), g];
    assert fs[1..][1..] == [g];
  }

  /** A cell's text survives the scanner: no newline, no trailing carriage return. */
  lemma CellTextIsLine(m: seq<seq<real>>, c: Cell, log: real -> real, fmtG: real -> string)
    requires c.row < |m| && c.col < |m[c.row]|
    requires IsWord(fmtG(log(m[c.row][c.col])))
    ensures IsLine(CellText(m, c, log, fmtG))
  {
    var g := fmtG(log(m[c.row][c.col]));
    DecimalIsWord(c.row);
    DecimalIsWord(c.col);
    var a, b := Decimal(c.row), Decimal(c.col);
    var l := CellText(m, c, log, fmtG);
    assert l == a + " " + b + " " + g;
    assert l[|l| - 1] == g[|g| - 1];
    assert !IsSpace(g[|g| - 1]);
    forall i | 0 <= i < |l| ensures l[i] != '\n' {
      if i < |a| {
        assert l[i] == a[i] && !IsSpace(a[i]);
      } else if i == |a| {
        assert l[i] == ' ';
      } else if i < |a| + 1 + |b| {
        assert l[i] == b[i - |a| - 1] && !IsSpace(b[i - |a| - 1]);
      } else if i == |a| + 1 + |b| {
        assert l[i] == ' ';
      } else {
        assert l[i] == g[i - (|a| + 1 + |b| + 1)];
        assert !IsSpace(g[i - (|a| + 1 + |b| + 1)]);
      }
    }
  }

  /** The first `q` cell lines of row `r` read back as their triples, and
      the strict reader rejects in them what it rejects in their printed
      logarithms. */
  lemma {:induction false} RowTextsParse(m: seq<seq<real>>, r: nat, q: nat, log: real -> real, fmtG: real -> string, parse: string -> Parsed)
    requires WideRows(m) && r < |m| && q <= Cols
    requires PrintsWords(m, log, fmtG) && ReadsDecimals(parse)
    ensures RowTriples(ParseLinesLenient(RowTexts(m, r, q, log, fmtG), parse), m, r, q, log, fmtG, parse)
    ensures FirstInvalid(Tokens(RowTexts(m, r, q, log, fmtG)), parse) == FirstInvalid(RowPrinted(m, r, q, log, fmtG), parse)
    ensures forall j :: 0 <= j < q ==> IsLine(RowTexts(m, r, q, log, fmtG)[j])
  {
    var ts := RowTexts(m, r, q, log, fmtG);
    if q == 0 {
      assert ts == [];
      assert RowPrinted(m, r, q, log, fmtG) == [];
    } else {
      RowTextsParse(m, r, q - 1, log, fmtG, parse);
      var prev := RowTexts(m, r, q - 1, log, fmtG);
      var cell := CellText(m, Cell(r, q - 1), log, fmtG);
      var g := fmtG(log(m[r][q - 1]));
      RowTextsSnoc(m, r, q - 1, log, fmtG);
      CellTextParses(m, Cell(r, q - 1), log, fmtG, parse);
      CellTextIsLine(m, Cell(r, q - 1), log, fmtG);
      LinesSnoc(prev, cell, ts, [r as real, (q - 1) as real, ReadBack(m[r][q - 1], log, fmtG, parse)], parse);
      RowTriplesSnoc(ParseLinesLenient(prev, parse), ParseLinesLenient(ts, parse), m, r, q - 1, log, fmtG, parse);
      RowPrintedSnoc(m, r, q - 1, log, fmtG);
      FirstInvalidCongruent(Tokens(prev), Tokens([cell]), RowPrinted(m, r, q - 1, log, fmtG), [g], parse);
    }
  }

  /** Parsed lines that are the triples of the first `q` cells of row `r`. */
  ghost predicate RowTriples(rows: seq<seq<real>>, m: seq<seq<real>>, r: nat, q: nat, log: real -> real,
                             fmtG: real -> string, parse: string -> Parsed)
    requires r < |m| && q <= |m[r]|
  {
    |rows| == q && forall j :: 0 <= j < q ==> rows[j] == [r as real, j as real, ReadBack(m[r][j], log, fmtG, parse)]
  }

  /** Appending the next cell's triple extends the triples by one cell. */
  lemma RowTriplesSnoc(before: seq<seq<real>>, rows: seq<seq<real>>, m: seq<seq<real>>, r: nat, q: nat,
                       log: real -> real, fmtG: real -> string, parse: string -> Parsed)
    requires r < |m| && q < |m[r]|
    requires RowTriples(before, m, r, q, log, fmtG, parse)
    requires rows == before + [[r as real, q as real, ReadBack(m[r][q], log, fmtG, parse)]]
    ensures RowTriples(rows, m, r, q + 1, log, fmtG, parse)
  {
    SnocEntries(before, [r as real, q as real, ReadBack(m[r][q], log, fmtG, parse)], rows, q);
  }

  lemma RowPrintedSnoc(m: seq<seq<real>>, r: nat, q: nat, log: real -> real, fmtG: real -> string)
    requires WideRows(m) && r < |m| && q < Cols
    ensures RowPrinted(m, r, q + 1, log, fmtG) == RowPrinted(m, r, q, log, fmtG) + [fmtG(log(m[r][q]))]
  {
  }

  /** Token lists that the strict reader fails on alike still do after
      each is extended by lists it fails on alike. */
  lemma FirstInvalidCongruent(a: seq<string>, b: seq<string>, a': seq<string>, b': seq<string>, parse: string -> Parsed)
    requires FirstInvalid(a, parse) == FirstInvalid(a', parse)
    requires FirstInvalid(b, parse) == FirstInvalid(b', parse)
    ensures FirstInvalid(a + b, parse) == FirstInvalid(a' + b', parse)
  {
    FirstInvalidAppend(a, b, parse);
    FirstInvalidAppend(a', b', parse);
  }

  /** Appending a line that reads back as one row appends that row, and
      keeps every line intact for the scanner. */
  lemma LinesSnoc(prev: seq<string>, cell: string, ts: seq<string>, row: seq<real>, parse: string -> Parsed)
    requires ts == prev + [cell]
    requires ParseLinesLenient([cell], parse) == [row]
    requires IsLine(cell) && forall j :: 0 <= j < |prev| ==> IsLine(prev[j])
    ensures ParseLinesLenient(ts, parse) == ParseLinesLenient(prev, parse) + [row]
    ensures Tokens(ts) == Tokens(prev) + Tokens([cell])
    ensures forall j :: 0 <= j < |ts| ==> IsLine(ts[j])
  {
    ParseLinesLenientAppend(prev, [cell], parse);
    TokensAppend(prev, [cell]);
    forall j | 0 <= j < |ts| ensures IsLine(ts[j]) {
      if j < |prev| {
        assert ts[j] == prev[j];
      } else {
        assert ts[j] == cell;
      }
    }
  }

  /** The entries of a sequence extended by one element. */
  lemma SnocEntries<T>(before: seq<T>, last: T, all: seq<T>, n: nat)
    requires |before| == n && all == before + [last]
    ensures |all| == n + 1 && all[n] == last
    ensures forall j :: 0 <= j < n ==> all[j] == before[j]
  {
  }

  lemma {:induction false} TokensAppend(a: seq<string>, b: seq<string>)
    ensures Tokens(a + b) == Tokens(a) + Tokens(b)
  {
    if a == [] {
      assert a + b == b;
    } else {
      assert (a + b)[1..] == a[1..] + b;
      TokensAppend(a[1..], b);
    }
  }

  /** The lines of row `r`, blank separator included, read back as the
      triples of its cells; the separator holds no token. */
  lemma RowLinesParse(m: seq<seq<real>>, r: nat, log: real -> real, fmtG: real -> string, parse: string -> Parsed)
    requires WideRows(m) && r < |m|
    requires PrintsWords(m, log, fmtG) && ReadsDecimals(parse)
    ensures RowTriples(ParseLinesLenient(RowLines(m, r, log, fmtG), parse), m, r, Cols, log, fmtG, parse)
    ensures FirstInvalid(Tokens(RowLines(m, r, log, fmtG)), parse) == FirstInvalid(RowPrinted(m, r, Cols, log, fmtG), parse)
    ensures forall j :: 0 <= j < |RowLines(m, r, log, fmtG)| ==> IsLine(RowLines(m, r, log, fmtG)[j])
  {
    var texts := RowTexts(m, r, Cols, log, fmtG);
    RowTextsParse(m, r, Cols, log, fmtG, parse);
    assert Fields("") == [] by { assert TrimLeft("") == ""; }
    assert Tokens([""]) == [] + Tokens([]);
    assert ParseLinesLenient([""], parse) == [];
    ParseLinesLenientAppend(texts, [""], parse);
    TokensAppend(texts, [""]);
    assert Tokens(texts) + [] == Tokens(texts);
    assert ParseLinesLenient(texts, parse) + [] == ParseLinesLenient(texts, parse);
  }

  /** Appending the triples of row `r` to those of the rows before it. */
  lemma TriplesExtend(before: seq<seq<real>>, mine: seq<seq<real>>, m: seq<seq<real>>, r: nat,
                      log: real -> real, fmtG: real -> string, parse: string -> Parsed)
    requires WideRows(m) && r < |m|
    requires TriplesOf(before, m, r, log, fmtG, parse)
    requires RowTriples(mine, m, r, Cols, log, fmtG, parse)
    ensures TriplesOf(before + mine, m, r + 1, log, fmtG, parse)
  {
    var all := before + mine;
    assert r * Cols + Cols == (r + 1) * Cols;
    assert (r + 1) * Cols <= |m| * Cols;
    forall k | 0 <= k < |all| ensures all[k] == Triple(m, k, log, fmtG, parse) {
      if k >= r * Cols {
        var j := k - r * Cols;
        DivModSlot(r, j);
        assert all[k] == mine[j];
      } else {
        assert all[k] == before[k];
      }
    }
  }

  /** The printed logarithms of the first `r + 1` rows are those of the
      first `r` rows followed by those of row `r`. */
  lemma PrintedExtend(m: seq<seq<real>>, r: nat, log: real -> real, fmtG: real -> string)
    requires WideRows(m) && r < |m|
    ensures (r + 1) * Cols <= |m| * Cols
    ensures Printed(m, log, fmtG)[..(r + 1) * Cols]
         == Printed(m, log, fmtG)[..r * Cols] + RowPrinted(m, r, Cols, log, fmtG)
  {
    var ps := Printed(m, log, fmtG);
    assert r * Cols + Cols == (r + 1) * Cols;
    assert (r + 1) * Cols <= |m| * Cols;
    var lhs, rhs := ps[..(r + 1) * Cols], ps[..r * Cols] + RowPrinted(m, r, Cols, log, fmtG);
    forall k | 0 <= k < (r + 1) * Cols ensures lhs[k] == rhs[k] {
      if k >= r * Cols {
        var j := k - r * Cols;
        DivModSlot(r, j);
        assert lhs[k] == PrintedAt(m, k, log, fmtG);
      }
    }
  }

  lemma LinesAppend(a: seq<string>, b: seq<string>)
    requires forall u :: 0 <= u < |a| ==> IsLine(a[u])
    requires forall u :: 0 <= u < |b| ==> IsLine(b[u])
    ensures forall u :: 0 <= u < |a + b| ==> IsLine((a + b)[u])
  {
    forall u | 0 <= u < |a + b| ensures IsLine((a + b)[u]) {
      if u < |a| {
        assert (a + b)[u] == a[u];
      } else {
        assert (a + b)[u] == b[u - |a|];
      }
    }
  }

  /** The text lines of the first `n` rows read back as the triples of
      their cells, and the strict reader rejects in them what it rejects in
      their printed logarithms. */
  lemma {:induction false} TextLinesParse(m: seq<seq<real>>, n: nat, log: real -> real, fmtG: real -> string, parse: string -> Parsed)
    requires WideRows(m) && n <= |m|
    requires PrintsWords(m, log, fmtG) && ReadsDecimals(parse)
    ensures TriplesOf(ParseLinesLenient(TextLines(m, n, log, fmtG), parse), m, n, log, fmtG, parse)
    ensures n * Cols <= |m| * Cols
    ensures FirstInvalid(Tokens(TextLines(m, n, log, fmtG)), parse)
         == FirstInvalid(Printed(m, log, fmtG)[..n * Cols], parse)
    ensures forall u :: 0 <= u < |TextLines(m, n, log, fmtG)| ==> IsLine(TextLines(m, n, log, fmtG)[u])
  {
    if n == 0 {
      assert TextLines(m, 0, log, fmtG) == [];
      assert Printed(m, log, fmtG)[..0] == [];
    } else {
      var r := n - 1;
      TextLinesParse(m, r, log, fmtG, parse);
      var prev := TextLines(m, r, log, fmtG);
      var row := RowLines(m, r, log, fmtG);
      assert TextLines(m, n, log, fmtG) == prev + row;
      RowLinesParse(m, r, log, fmtG, parse);
      ParseLinesLenientAppend(prev, row, parse);
      TokensAppend(prev, row);
      TriplesExtend(ParseLinesLenient(prev, parse), ParseLinesLenient(row, parse), m, r, log, fmtG, parse);
      PrintedExtend(m, r, log, fmtG);
      FirstInvalidCongruent(Tokens(prev), Tokens(row),
        Printed(m, log, fmtG)[..r * Cols], RowPrinted(m, r, Cols, log, fmtG), parse);
      LinesAppend(prev, row);
    }
  }

  /** main.go reads back, from the text written for spectrogram `m`, one row
      `[i, j, v]` per cell, in row-major order, where `v` is what ParseFloat
      makes of the `%g` text of `log m[i][j]`: `|m| * 2048` rows of three
      values, not the spectrogram. When every printed value reads back
      exactly, `v` is the logarithm itself. */
  lemma LenientParseOfGnuplotText(m: seq<seq<real>>, log: real -> real, fmtG: real -> string, parse: string -> Parsed)
    requires WideRows(m)
    requires PrintsWords(m, log, fmtG) && ReadsDecimals(parse)
    ensures var rows := ParseLenient(JoinLines(TextLines(m, |m|, log, fmtG)), parse);
      && |rows| == |m| * Cols
      && forall k :: 0 <= k < |rows| ==>
           rows[k] == [(k / Cols) as real, (k % Cols) as real, ReadBack(m[k / Cols][k % Cols], log, fmtG, parse)]
    ensures ReadsBackG(m, log, fmtG, parse) ==>
      var rows := ParseLenient(JoinLines(TextLines(m, |m|, log, fmtG)), parse);
      forall k :: 0 <= k < |rows| ==>
        rows[k] == [(k / Cols) as real, (k % Cols) as real, log(m[k / Cols][k % Cols])]
  {
    TextLinesParse(m, |m|, log, fmtG, parse);
    LinesOfJoinLines(TextLines(m, |m|, log, fmtG));
    var rows := ParseLenient(JoinLines(TextLines(m, |m|, log, fmtG)), parse);
    forall k | 0 <= k < |rows| ensures rows[k] == Triple(m, k, log, fmtG, parse) {
    }
  }

  /** mfcc_edited.go's strict reader accepts the text exactly when
      ParseFloat accepts every printed logarithm, and then returns the
      lenient reader's rows; otherwise it fails with the first printed
      logarithm, in row-major order, that ParseFloat rejects. */
  lemma StrictParseOfGnuplotText(m: seq<seq<real>>, log: real -> real, fmtG: real -> string, parse: string -> Parsed)
    requires WideRows(m)
    requires PrintsWords(m, log, fmtG) && ReadsDecimals(parse)
    ensures var text := JoinLines(TextLines(m, |m|, log, fmtG));
      && (ParseStrict(text, parse).Ok? <==>
            forall i, j :: 0 <= i < |m| && 0 <= j < Cols ==> parse(fmtG(log(m[i][j]))).ok)
      && (ParseStrict(text, parse).Ok? ==> ParseStrict(text, parse).value == ParseLenient(text, parse))
      && (FirstInvalid(Printed(m, log, fmtG), parse).Some? ==>
            ParseStrict(text, parse) == Err(InvalidValue(FirstInvalid(Printed(m, log, fmtG), parse).value)))
  {
    TextLinesParse(m, |m|, log, fmtG, parse);
    LinesOfJoinLines(TextLines(m, |m|, log, fmtG));
    var ps := Printed(m, log, fmtG);
    assert ps[..|m| * Cols] == ps;
    FirstInvalidNone(ps, parse);
    PrintedCells(m, log, fmtG, parse);
  }

  /** Every printed logarithm reads exactly when every cell's does. */
  lemma PrintedCells(m: seq<seq<real>>, log: real -> real, fmtG: real -> string, parse: string -> Parsed)
    requires WideRows(m)
    ensures (forall k :: 0 <= k < |Printed(m, log, fmtG)| ==> parse(Printed(m, log, fmtG)[k]).ok)
        <==> (forall i, j :: 0 <= i < |m| && 0 <= j < Cols ==> parse(fmtG(log(m[i][j]))).ok)
  {
    var ps := Printed(m, log, fmtG);
    if forall k :: 0 <= k < |ps| ==> parse(ps[k]).ok {
      forall i, j | 0 <= i < |m| && 0 <= j < Cols ensures parse(fmtG(log(m[i][j]))).ok {
        SlotInRange(Cell(i, j), |m|);
        DivModSlot(i, j);
        assert ps[i * Cols + j] == PrintedAt(m, i * Cols + j, log, fmtG);
      }
    }
    if forall i, j :: 0 <= i < |m| && 0 <= j < Cols ==> parse(fmtG(log(m[i][j]))).ok {
      forall k | 0 <= k < |ps| ensures parse(ps[k]).ok {
        SlotsCover(k, |m|);
        assert ps[k] == PrintedAt(m, k, log, fmtG);
      }
    }
  }
}
