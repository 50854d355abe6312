/** The text primitives the spectrogram codec is built from: Go's
    `unicode.IsSpace`, `strings.Fields`, the line splitting of a
    `bufio.Scanner` with its default `ScanLines` split function, and the
    `%d` verb of `fmt` for non-negative integers.
 */
module Text {

  /** `unicode.IsSpace`: the Latin-1 spaces plus the Unicode White_Space
      characters above U+00FF. */
  predicate IsSpace(c: char) {
    || c == ' ' || c == '\t' || c == '\n' || c == '\U{B}' || c == '\U{C}' || c == '\r'
    || c == '\U{85}' || c == '\U{A0}' || c == '\U{1680}'
    || ('\U{2000}' <= c <= '\U{200A}')
    || c == '\U{2028}' || c == '\U{2029}' || c == '\U{202F}' || c == '\U{205F}'
    || c == '\U{3000}'
  }

  predicate NoSpace(s: string) {
    forall i :: 0 <= i < |s| ==> !IsSpace(s[i])
  }

  predicate AllSpace(s: string) {
    forall i :: 0 <= i < |s| ==> IsSpace(s[i])
  }

  /** A field as `strings.Fields` returns it: non-empty and free of white space. */
  predicate IsWord(s: string) {
    |s| > 0 && NoSpace(s)
  }

  // ---------------------------------------------------------------------------
  // strings.Fields
  // ---------------------------------------------------------------------------

  /** Drops the leading white space of `s`. */
  function TrimLeft(s: string): (t: string)
    ensures |t| <= |s|
    ensures t == [] || !IsSpace(t[0])
  {
    if s != [] && IsSpace(s[0]) then TrimLeft(s[1..]) else s
  }

  /** What `TrimLeft` drops is white space, and what it keeps is a suffix. */
  lemma {:induction false} TrimLeftSpec(s: string)
    ensures var t := TrimLeft(s);
      t == s[|s| - |t|..] && AllSpace(s[..|s| - |t|])
  {
    if s != [] && IsSpace(s[0]) {
      TrimLeftSpec(s[1..]);
      var t := TrimLeft(s[1..]);
      assert s[..|s| - |t|] == [s[0]] + s[1..][..|s[1..]| - |t|];
    }
  }

  /** Length of the leading run of non-space characters of `s`. */
  function WordEnd(s: string): (k: nat)
    ensures k <= |s|
    ensures s != [] && !IsSpace(s[0]) ==> k > 0
  {
    if s == [] || IsSpace(s[0]) then 0 else 1 + WordEnd(s[1..])
  }

  /** `WordEnd` stops at the first white space. */
  lemma {:induction false} WordEndSpec(s: string)
    ensures var k := WordEnd(s);
      NoSpace(s[..k]) && (k < |s| ==> IsSpace(s[k]))
  {
    if s != [] && !IsSpace(s[0]) {
      WordEndSpec(s[1..]);
      var k := WordEnd(s[1..]);
      assert s[..k + 1] == [s[0]] + s[1..][..k];
    }
  }

  /** `strings.Fields`: the maximal runs of non-space characters, in order. */
  function Fields(s: string): seq<string>
    decreases |s|
  {
    var t := TrimLeft(s);
    if t == [] then []
    else
      var k := WordEnd(t);
      [t[..k]] + Fields(t[k..])
  }

  /** Every field is a non-empty run without white space. */
  lemma {:induction false} FieldsAreWords(s: string)
    ensures forall i :: 0 <= i < |Fields(s)| ==> IsWord(Fields(s)[i])
    decreases |s|
  {
    var t := TrimLeft(s);
    if t != [] {
      var k := WordEnd(t);
      WordEndSpec(t);
      FieldsAreWords(t[k..]);
      assert IsWord(t[..k]);
    }
  }

  /** A line without fields is exactly a line made only of white space, so
      these are the lines a field-based reader skips. */
  lemma FieldsEmptyIffAllSpace(s: string)
    ensures Fields(s) == [] <==> AllSpace(s)
  {
    var t := TrimLeft(s);
    TrimLeftSpec(s);
    if t != [] {
      assert s[|s| - |t|] == t[0];
    }
  }

  lemma {:induction false} WordEndOfWord(w: string, rest: string)
    requires NoSpace(w)
    requires rest == [] || IsSpace(rest[0])
    ensures WordEnd(w + rest) == |w|
  {
    if w != [] {
      assert (w + rest)[1..] == w[1..] + rest;
      WordEndOfWord(w[1..], rest);
    }
  }

  /** A word followed by nothing or by white space is the first field. */
  lemma FieldsOfWordThen(w: string, rest: string)
    requires IsWord(w)
    requires rest == [] || IsSpace(rest[0])
    ensures Fields(w + rest) == [w] + Fields(rest)
  {
    assert TrimLeft(w + rest) == w + rest;
    WordEndOfWord(w, rest);
    assert (w + rest)[..|w|] == w;
    assert (w + rest)[|w|..] == rest;
  }

  /** Leading white space does not change the fields. */
  lemma FieldsAfterSpace(c: char, rest: string)
    requires IsSpace(c)
    ensures Fields([c] + rest) == Fields(rest)
  {
    assert ([c] + rest)[1..] == rest;
  }

  /** Words joined by single spaces. */
  function JoinWords(ws: seq<string>): string {
    if |ws| == 0 then ""
    else if |ws| == 1 then ws[0]
    else ws[0] + ([' '] + JoinWords(ws[1..]))
  }

  /** `strings.Fields` recovers any sequence of words from their
      space-separated rendering. */
  lemma {:induction false} FieldsOfJoinWords(ws: seq<string>)
    requires forall i :: 0 <= i < |ws| ==> IsWord(ws[i])
    ensures Fields(JoinWords(ws)) == ws
  {
    if |ws| == 0 {
      assert TrimLeft("") == "";
    } else if |ws| == 1 {
      FieldsOfSingleWord(ws[0]);
    } else {
      FieldsOfJoinWords(ws[1..]);
      FieldsOfWordsStep(ws[0], ws[1..]);
      assert ws == [ws[0]] + ws[1..];
    }
  }

  lemma FieldsOfSingleWord(w: string)
    requires IsWord(w)
    ensures Fields(w) == [w]
  {
    FieldsOfWordThen(w, "");
    assert w + "" == w;
    assert TrimLeft("") == "";
  }

  lemma FieldsOfWordsStep(w: string, ws: seq<string>)
    requires IsWord(w) && |ws| > 0
    ensures JoinWords([w] + ws) == w + ([' '] + JoinWords(ws))
    ensures Fields(JoinWords([w] + ws)) == [w] + Fields(JoinWords(ws))
  {
    assert ([w] + ws)[1..] == ws;
    var rest := JoinWords(ws);
    FieldsOfWordThen(w, [' '] + rest);
    FieldsAfterSpace(' ', rest);
  }

  // ---------------------------------------------------------------------------
  // bufio.Scanner with ScanLines
  // ---------------------------------------------------------------------------

  predicate NoNewline(s: string) {
    forall i :: 0 <= i < |s| ==> s[i] != '\n'
  }

  /** Index of the first newline of `s`, or `|s|` when there is none. */
  function NewlineAt(s: string): (k: nat)
    ensures k <= |s|
    ensures k < |s| ==> s[k] == '\n'
  {
    if s == [] || s[0] == '\n' then 0 else 1 + NewlineAt(s[1..])
  }

  /** `NewlineAt` finds the first newline. */
  lemma {:induction false} NewlineAtSpec(s: string)
    ensures NoNewline(s[..NewlineAt(s)])
  {
    if s != [] && s[0] != '\n' {
      NewlineAtSpec(s[1..]);
      var k := NewlineAt(s[1..]);
      assert s[..k + 1] == [s[0]] + s[1..][..k];
    }
  }

  /** ScanLines strips one trailing carriage return from every line. */
  function DropCR(s: string): string {
    if |s| > 0 && s[|s| - 1] == '\r' then s[..|s| - 1] else s
  }

  /** The tokens a `bufio.Scanner` with `ScanLines` yields for the text `s`:
      the pieces between newlines, each without a trailing carriage return;
      a final piece without a newline counts only when it is not empty. */
  function Lines(s: string): seq<string>
    decreases |s|
  {
    if s == [] then []
    else
      var k := NewlineAt(s);
      if k < |s| then [DropCR(s[..k])] + Lines(s[k + 1..])
      else [DropCR(s)]
  }

  /** No line the scanner yields contains a newline. */
  lemma {:induction false} LinesHaveNoNewline(s: string)
    ensures forall i :: 0 <= i < |Lines(s)| ==> NoNewline(Lines(s)[i])
    decreases |s|
  {
    if s != [] {
      var k := NewlineAt(s);
      NewlineAtSpec(s);
      if k < |s| {
        LinesHaveNoNewline(s[k + 1..]);
        assert DropCR(s[..k]) == s[..k] || DropCR(s[..k]) == s[..k][..k - 1];
      } else {
        assert s[..k] == s;
      }
    }
  }

  /** What the scanner reads back unchanged: no newline, and no trailing
      carriage return. */
  predicate IsLine(l: string) {
    NoNewline(l) && (l == [] || l[|l| - 1] != '\r')
  }

  /** Lines each terminated by a newline. */
  function JoinLines(ls: seq<string>): string {
    if ls == [] then "" else ls[0] + "\n" + JoinLines(ls[1..])
  }

  lemma {:induction false} JoinLinesAppend(a: seq<string>, b: seq<string>)
    ensures JoinLines(a + b) == JoinLines(a) + JoinLines(b)
  {
    if a != [] {
      assert (a + b)[1..] == a[1..] + b;
      JoinLinesAppend(a[1..], b);
    } else {
      assert a + b == b;
    }
  }

  /** Appending one line appends that line and its newline. */
  lemma JoinLinesSnoc(ls: seq<string>, l: string)
    ensures JoinLines(ls + [l]) == JoinLines(ls) + (l + "\n")
  {
    JoinLinesAppend(ls, [l]);
    assert [l][1..] == [];
  }

  lemma {:induction false} NewlineAtLine(l: string, rest: string)
    requires NoNewline(l)
    ensures NewlineAt(l + "\n" + rest) == |l|
  {
    if l != [] {
      assert (l + "\n" + rest)[1..] == l[1..] + "\n" + rest;
      NewlineAtLine(l[1..], rest);
    }
  }

  /** Reading newline-terminated lines back with the scanner gives exactly
      those lines. */
  lemma {:induction false} LinesOfJoinLines(ls: seq<string>)
    requires forall i :: 0 <= i < |ls| ==> IsLine(ls[i])
    ensures Lines(JoinLines(ls)) == ls
  {
    if ls != [] {
      LinesOfLine(ls[0], JoinLines(ls[1..]));
      LinesOfJoinLines(ls[1..]);
      assert ls == [ls[0]] + ls[1..];
    }
  }

  /** The scanner yields a newline-terminated line, then the lines of what follows. */
  lemma LinesOfLine(l: string, rest: string)
    requires IsLine(l)
    ensures Lines(l + "\n" + rest) == [l] + Lines(rest)
  {
    var s := l + "\n" + rest;
    NewlineAtLine(l, rest);
    assert s[..|l|] == l;
    assert s[|l| + 1..] == rest;
    assert DropCR(l) == l;
  }

  // ---------------------------------------------------------------------------
  // fmt's %d for non-negative integers
  // ---------------------------------------------------------------------------

  predicate IsDigit(c: char) {
    '0' <= c <= '9'
  }

  predicate AllDigits(s: string) {
    forall i :: 0 <= i < |s| ==> IsDigit(s[i])
  }

  function DigitChar(d: nat): (c: char)
    requires d < 10
    ensures IsDigit(c) && c as int - '0' as int == d
  {
    ('0' as int + d) as char
  }

  /** `fmt.Sprintf("%d", n)` for `n >= 0`. */
  function Decimal(n: nat): (s: string)
    ensures |s| > 0 && AllDigits(s)
  {
    if n < 10 then [DigitChar(n)] else Decimal(n / 10) + [DigitChar(n % 10)]
  }

  /** The number a string of decimal digits denotes. */
  function DigitsValue(s: string): nat
    requires AllDigits(s)
  {
    if s == [] then 0
    else 10 * DigitsValue(s[..|s| - 1]) + (s[|s| - 1] as int - '0' as int)
  }

  /** `%d` is read back as the number it printed. */
  lemma {:induction false} DecimalRoundTrip(n: nat)
    ensures DigitsValue(Decimal(n)) == n
  {
    if n >= 10 {
      var s := Decimal(n);
      assert s[..|s| - 1] == Decimal(n / 10);
      DecimalRoundTrip(n / 10);
    }
  }

  /** A rendered number is a single field. */
  lemma DecimalIsWord(n: nat)
    ensures IsWord(Decimal(n))
  {
    var s := Decimal(n);
    forall i | 0 <= i < |s| ensures !IsSpace(s[i]) {
      assert IsDigit(s[i]);
    }
  }
}
