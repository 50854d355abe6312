/** The two `parseSTFT` readers of the text matrix format.

    Both read the file line by line with a `bufio.Scanner`, split each line
    with `strings.Fields`, skip lines without fields and turn every field
    into a float64 with `strconv.ParseFloat`. The main.go reader discards
    ParseFloat's error and keeps whatever value it returned; the
    mfcc_edited.go reader gives up on the first token ParseFloat rejects and
    returns no matrix at all. The file is given as its text; opening and
    reading it are not modelled.
 */
module StftParse {
  import opened Text
  import opened Outcomes

  /** What `strconv.ParseFloat(s, 64)` returns: the value (0 on a syntax
      error, an infinity on a range error) and whether the error was nil. */
  datatype Parsed = Parsed(value: real, ok: bool)

  /** The values of one line's fields, errors ignored. */
  function LenientRow(fs: seq<string>, parse: string -> Parsed): (row: seq<real>)
    ensures |row| == |fs|
    ensures forall i :: 0 <= i < |fs| ==> row[i] == parse(fs[i]).value
  {
    seq(|fs|, i requires 0 <= i < |fs| => parse(fs[i]).value)
  }

  /** The lines that carry at least one field, in their original order. */
  function NonBlank(lines: seq<string>): (nb: seq<string>)
    ensures |nb| <= |lines|
    ensures forall k :: 0 <= k < |nb| ==> Fields(nb[k]) != []
  {
    if lines == [] then []
    else (if Fields(lines[0]) == [] then [] else [lines[0]]) + NonBlank(lines[1..])
  }

  /** The row loop of main.go's `parseSTFT` over already split lines. */
  function ParseLinesLenient(lines: seq<string>, parse: string -> Parsed): (rows: seq<seq<real>>)
    ensures |rows| <= |lines|
    ensures forall k :: 0 <= k < |rows| ==> |rows[k]| > 0
  {
    if lines == [] then []
    else
      var fs := Fields(lines[0]);
      var rest := ParseLinesLenient(lines[1..], parse);
      if fs == [] then rest else [LenientRow(fs, parse)] + rest
  }

  /** The lenient reader yields, in order, one row per line that has a
      field, and that row holds the values of exactly that line's fields. */
  lemma {:induction false} LenientRowsAreNonBlankLines(lines: seq<string>, parse: string -> Parsed)
    ensures |ParseLinesLenient(lines, parse)| == |NonBlank(lines)|
    ensures forall k :: 0 <= k < |NonBlank(lines)| ==>
      ParseLinesLenient(lines, parse)[k] == LenientRow(Fields(NonBlank(lines)[k]), parse)
  {
    if lines != [] {
      LenientRowsAreNonBlankLines(lines[1..], parse);
      var fs := Fields(lines[0]);
      var rest := ParseLinesLenient(lines[1..], parse);
      var nb := NonBlank(lines[1..]);
      if fs != [] {
        var rows := ParseLinesLenient(lines, parse);
        assert rows == [LenientRow(fs, parse)] + rest;
        assert NonBlank(lines) == [lines[0]] + nb;
        forall k | 1 <= k < |rows|
          ensures rows[k] == rest[k - 1] && NonBlank(lines)[k] == nb[k - 1]
        {
        }
      } else {
        assert NonBlank(lines) == nb;
      }
    }
  }

  /** main.go's `parseSTFT`: one row per line that has a field, each row as
      long as its line has fields; it never fails. */
  function ParseLenient(text: string, parse: string -> Parsed): (rows: seq<seq<real>>)
    ensures |rows| == |NonBlank(Lines(text))|
    ensures forall k :: 0 <= k < |rows| ==> rows[k] == LenientRow(Fields(NonBlank(Lines(text))[k]), parse)
  {
    LenientRowsAreNonBlankLines(Lines(text), parse);
    ParseLinesLenient(Lines(text), parse)
  }

  /** Reading two stretches of lines reads each in turn. */
  lemma {:induction false} ParseLinesLenientAppend(a: seq<string>, b: seq<string>, parse: string -> Parsed)
    ensures ParseLinesLenient(a + b, parse) == ParseLinesLenient(a, parse) + ParseLinesLenient(b, parse)
  {
    if a == [] {
      assert a + b == b;
    } else {
      assert (a + b)[1..] == a[1..] + b;
      ParseLinesLenientAppend(a[1..], b, parse);
    }
  }

  /** A line of white space only yields no row. */
  lemma BlankLineSkipped(l: string, parse: string -> Parsed)
    requires AllSpace(l)
    ensures ParseLinesLenient([l], parse) == []
  {
    FieldsEmptyIffAllSpace(l);
  }

  // ---------------------------------------------------------------------------
  // The strict reader of mfcc_edited.go
  // ---------------------------------------------------------------------------

  /** All fields of all lines, in reading order. */
  function Tokens(lines: seq<string>): seq<string> {
    if lines == [] then [] else Fields(lines[0]) + Tokens(lines[1..])
  }

  /** The first token ParseFloat rejects, if any. */
  function FirstInvalid(toks: seq<string>, parse: string -> Parsed): Option<string> {
    if toks == [] then None
    else if !parse(toks[0]).ok then Some(toks[0])
    else FirstInvalid(toks[1..], parse)
  }

  lemma {:induction false} FirstInvalidAppend(a: seq<string>, b: seq<string>, parse: string -> Parsed)
    ensures FirstInvalid(a + b, parse)
         == if FirstInvalid(a, parse).Some? then FirstInvalid(a, parse) else FirstInvalid(b, parse)
  {
    if a == [] {
      assert a + b == b;
    } else {
      assert (a + b)[1..] == a[1..] + b;
      FirstInvalidAppend(a[1..], b, parse);
    }
  }

  /** No token is rejected exactly when every token parses. */
  lemma {:induction false} FirstInvalidNone(toks: seq<string>, parse: string -> Parsed)
    ensures FirstInvalid(toks, parse).None? <==> forall i :: 0 <= i < |toks| ==> parse(toks[i]).ok
  {
    if toks != [] {
      FirstInvalidNone(toks[1..], parse);
      assert forall i :: 1 <= i < |toks| ==> toks[i] == toks[1..][i - 1];
    }
  }

  /** The inner loop of the strict reader over one line's fields. */
  function StrictRow(fs: seq<string>, parse: string -> Parsed): (r: Result<seq<real>>)
    ensures r.Ok? <==> FirstInvalid(fs, parse).None?
    ensures r.Ok? ==> r.value == LenientRow(fs, parse)
    ensures r.Err? ==> r.failure == InvalidValue(FirstInvalid(fs, parse).value)
  {
    if fs == [] then Ok([])
    else if !parse(fs[0]).ok then Err(InvalidValue(fs[0]))
    else
      LenientRowCons(fs, parse);
      var rest :- StrictRow(fs[1..], parse);
      Ok([parse(fs[0]).value] + rest)
  }

  /** The lenient row of a non-empty field list is its first value followed
      by the row of the rest. */
  lemma LenientRowCons(fs: seq<string>, parse: string -> Parsed)
    requires fs != []
    ensures LenientRow(fs, parse) == [parse(fs[0]).value] + LenientRow(fs[1..], parse)
  {
    var row, rest := LenientRow(fs, parse), LenientRow(fs[1..], parse);
    forall i | 0 <= i < |row| ensures row[i] == ([parse(fs[0]).value] + rest)[i] {
      if i > 0 {
        assert fs[i] == fs[1..][i - 1];
      }
    }
  }

  /** The row loop of mfcc_edited.go's `parseSTFT`. It fails with the first
      rejected token in reading order and returns no partial matrix;
      otherwise it reads exactly what the lenient reader reads. */
  function ParseLinesStrict(lines: seq<string>, parse: string -> Parsed): (r: Result<seq<seq<real>>>)
    ensures r.Ok? <==> FirstInvalid(Tokens(lines), parse).None?
    ensures r.Ok? ==> r.value == ParseLinesLenient(lines, parse)
    ensures r.Err? ==> r.failure == InvalidValue(FirstInvalid(Tokens(lines), parse).value)
  {
    if lines == [] then Ok([])
    else
      var fs := Fields(lines[0]);
      FirstInvalidAppend(fs, Tokens(lines[1..]), parse);
      if fs == [] then
        assert fs + Tokens(lines[1..]) == Tokens(lines[1..]);
        ParseLinesStrict(lines[1..], parse)
      else
        var row :- StrictRow(fs, parse);
        var rest :- ParseLinesStrict(lines[1..], parse);
        Ok([row] + rest)
  }

  /** mfcc_edited.go's `parseSTFT`. */
  function ParseStrict(text: string, parse: string -> Parsed): (r: Result<seq<seq<real>>>)
    ensures r.Ok? <==> FirstInvalid(Tokens(Lines(text)), parse).None?
    ensures r.Ok? ==> r.value == ParseLenient(text, parse)
    ensures r.Err? ==> r.failure == InvalidValue(FirstInvalid(Tokens(Lines(text)), parse).value)
  {
    ParseLinesStrict(Lines(text), parse)
  }
}
