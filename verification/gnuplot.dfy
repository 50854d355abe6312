/** `matrixAsGnuplotFormat`: the parallel amplitude materialiser and the
    text layout it produces. The same function appears verbatim in
    main.go, ssp.go and plot.go, so this one module models all three.

    In Go every row gets a goroutine that writes the line of each of its
    2048 cells into a preallocated `results` slice at index `row*2048+col`;
    after the join the lines are concatenated in index order with a blank
    line after every 2048th one. Here the goroutines become an arbitrary
    `schedule`: any sequence of cell writes that covers the grid, which
    includes every interleaving of the row tasks. `math.Log` and the `%g`
    verb are parameters `log` and `fmtG`.
 */
module Gnuplot {
  import opened Text

  /** The column count, hard-coded rather than taken from the rows. */
  const Cols: nat := 2048

  datatype Cell = Cell(row: nat, col: nat)

  /** The index of the results slice that cell `c` is written to. */
  function Slot(c: Cell): nat {
    c.row * Cols + c.col
  }

  /** The cell that owns index `k` of the results slice. */
  function CellAt(k: nat): Cell {
    Cell(k / Cols, k % Cols)
  }

  /** Every row has at least the 2048 entries the loop reads; a shorter row
      makes its goroutine index out of range and the program panic. */
  predicate WideRows(m: seq<seq<real>>) {
    forall i :: 0 <= i < |m| ==> |m[i]| >= Cols
  }

  predicate InGrid(c: Cell, rows: nat) {
    c.row < rows && c.col < Cols
  }

  /** No two cells write the same slot. */
  lemma SlotsDisjoint(c: Cell, d: Cell)
    requires c.col < Cols && d.col < Cols
    requires Slot(c) == Slot(d)
    ensures c == d
  {
    assert c.row == Slot(c) / Cols;
    assert d.row == Slot(d) / Cols;
  }

  /** A grid cell writes inside the slice and is the owner of its slot. */
  lemma SlotInRange(c: Cell, rows: nat)
    requires InGrid(c, rows)
    ensures Slot(c) < rows * Cols
    ensures CellAt(Slot(c)) == c
  {
    assert c.row + 1 <= rows;
    assert (c.row + 1) * Cols <= rows * Cols;
  }

  /** Every slot of the slice is owned by a grid cell, so every slot is written. */
  lemma SlotsCover(k: nat, rows: nat)
    requires k < rows * Cols
    ensures InGrid(CellAt(k), rows)
    ensures Slot(CellAt(k)) == k
  {
  }

  /** Division by the column count splits a slot into row and column. */
  lemma DivModSlot(r: nat, q: nat)
    requires q < Cols
    ensures (r * Cols + q) / Cols == r
    ensures (r * Cols + q) % Cols == q
  {
  }

  // ---------------------------------------------------------------------------
  // The lines
  // ---------------------------------------------------------------------------

  /** `fmt.Sprintf("%d %d %g", i, j, math.Log(v))` for cell (i, j), without
      the newline that ends it. */
  function CellText(m: seq<seq<real>>, c: Cell, log: real -> real, fmtG: real -> string): string
    requires c.row < |m| && c.col < |m[c.row]|
  {
    Decimal(c.row) + " " + Decimal(c.col) + " " + fmtG(log(m[c.row][c.col]))
  }

  /** The string a row task stores for cell `c`. */
  function CellLine(m: seq<seq<real>>, c: Cell, log: real -> real, fmtG: real -> string): string
    requires c.row < |m| && c.col < |m[c.row]|
  {
    CellText(m, c, log, fmtG) + "\n"
  }

  /** The results slice once every row task has finished: slot k holds the
      line of the cell that owns it. */
  function Table(m: seq<seq<real>>, log: real -> real, fmtG: real -> string): (t: seq<string>)
    requires WideRows(m)
    ensures |t| == |m| * Cols
  {
    seq(|m| * Cols, k requires 0 <= k < |m| * Cols =>
      SlotsCover(k, |m|);
      CellLine(m, CellAt(k), log, fmtG))
  }

  // ---------------------------------------------------------------------------
  // The fan-out
  // ---------------------------------------------------------------------------

  /** A run of the row tasks seen as the order in which single cells get
      written: only grid cells, and every grid cell at least once. */
  predicate IsSchedule(s: seq<Cell>, rows: nat) {
    && (forall t :: 0 <= t < |s| ==> InGrid(s[t], rows))
    && (forall i, j :: 0 <= i < rows && 0 <= j < Cols ==> Cell(i, j) in s)
  }

  /** The cells one row task writes, in its loop order. */
  function RowCells(i: nat): (cs: seq<Cell>)
    ensures |cs| == Cols
    ensures forall j :: 0 <= j < Cols ==> cs[j] == Cell(i, j)
  {
    seq(Cols, j requires 0 <= j < Cols => Cell(i, j))
  }

  /** The row tasks run one after another in the order `order`. */
  function RowTasks(order: seq<nat>): seq<Cell> {
    if order == [] then [] else RowCells(order[0]) + RowTasks(order[1..])
  }

  lemma {:induction false} RowTasksCells(order: seq<nat>, c: Cell)
    ensures c in RowTasks(order) <==> c.row in order && c.col < Cols
  {
    if order != [] {
      RowTasksCells(order[1..], c);
      assert order == [order[0]] + order[1..];
      if c.row == order[0] && c.col < Cols {
        assert RowCells(order[0])[c.col] == c;
      }
    }
  }

  /** One goroutine per row, finishing in any order of the rows, is a schedule. */
  lemma RowOrderIsSchedule(order: seq<nat>, rows: nat)
    requires forall t :: 0 <= t < |order| ==> order[t] < rows
    requires forall i :: 0 <= i < rows ==> i in order
    ensures IsSchedule(RowTasks(order), rows)
  {
    var s := RowTasks(order);
    forall t | 0 <= t < |s| ensures InGrid(s[t], rows) {
      RowTasksCells(order, s[t]);
    }
    forall i, j | 0 <= i < rows && 0 <= j < Cols ensures Cell(i, j) in s {
      RowTasksCells(order, Cell(i, j));
    }
  }

  /** Goroutines that interleave their writes in any way, or any other
      reordering of the cell writes the row tasks make, still form a
      schedule. */
  lemma InterleavingIsSchedule(s: seq<Cell>, order: seq<nat>, rows: nat)
    requires forall t :: 0 <= t < |order| ==> order[t] < rows
    requires forall i :: 0 <= i < rows ==> i in order
    requires multiset(s) == multiset(RowTasks(order))
    ensures IsSchedule(s, rows)
  {
    var tasks := RowTasks(order);
    forall t | 0 <= t < |s| ensures InGrid(s[t], rows) {
      assert s[t] in multiset(s);
      assert s[t] in tasks;
      RowTasksCells(order, s[t]);
    }
    forall i, j | 0 <= i < rows && 0 <= j < Cols ensures Cell(i, j) in s {
      RowTasksCells(order, Cell(i, j));
      assert Cell(i, j) in multiset(tasks);
    }
  }

  /** The row tasks writing into the preallocated slice. Whatever the
      schedule, the slice ends up equal to `Table`: the result does not
      depend on the order in which the tasks run or interleave. */
  method Materialize(m: seq<seq<real>>, schedule: seq<Cell>, log: real -> real, fmtG: real -> string)
    returns (results: seq<string>)
    requires WideRows(m)
    requires IsSchedule(schedule, |m|)
    ensures results == Table(m, log, fmtG)
  {
    var table := Table(m, log, fmtG);
    var a := new string[|m| * Cols](_ => "");
    forall k | 0 <= k < a.Length
      ensures InGrid(CellAt(k), |m|) && Slot(CellAt(k)) == k
    {
      SlotsCover(k, |m|);
    }
    var t := 0;
    while t < |schedule|
      invariant 0 <= t <= |schedule|
      invariant forall k :: 0 <= k < a.Length ==>
        a[k] == if CellAt(k) in schedule[..t] then table[k] else ""
    {
      var c := schedule[t];
      SlotInRange(c, |m|);
      a[Slot(c)] := CellLine(m, c, log, fmtG);
      assert schedule[..t + 1] == schedule[..t] + [c];
      t := t + 1;
    }
    assert schedule[..t] == schedule;
    results := a[..];
  }

  // ---------------------------------------------------------------------------
  // The gather
  // ---------------------------------------------------------------------------

  /** The builder's contents after the first `n` lines: each line, and one
      extra newline after every line whose 1-based position is a multiple of
      2048. */
  function Assemble(lines: seq<string>, n: nat): string
    requires n <= |lines|
  {
    if n == 0 then ""
    else Assemble(lines, n - 1) + lines[n - 1] + (if n % Cols == 0 then "\n" else "")
  }

  /** The first `q` cell texts of row `i`. */
  function RowTexts(m: seq<seq<real>>, i: nat, q: nat, log: real -> real, fmtG: real -> string): (ts: seq<string>)
    requires i < |m| && q <= Cols && WideRows(m)
    ensures |ts| == q
    ensures forall j :: 0 <= j < q ==> ts[j] == CellText(m, Cell(i, j), log, fmtG)
  {
    seq(q, j requires 0 <= j < q => CellText(m, Cell(i, j), log, fmtG))
  }

  lemma RowTextsSnoc(m: seq<seq<real>>, r: nat, q: nat, log: real -> real, fmtG: real -> string)
    requires WideRows(m) && r < |m| && q < Cols
    ensures RowTexts(m, r, q + 1, log, fmtG) == RowTexts(m, r, q, log, fmtG) + [CellText(m, Cell(r, q), log, fmtG)]
  {
  }

  /** The text lines of row `i`: one per cell, then the blank separator. */
  function RowLines(m: seq<seq<real>>, i: nat, log: real -> real, fmtG: real -> string): seq<string>
    requires i < |m| && WideRows(m)
  {
    RowTexts(m, i, Cols, log, fmtG) + [""]
  }

  /** The text lines of the first `n` rows. */
  function TextLines(m: seq<seq<real>>, n: nat, log: real -> real, fmtG: real -> string): seq<string>
    requires n <= |m| && WideRows(m)
  {
    if n == 0 then [] else TextLines(m, n - 1, log, fmtG) + RowLines(m, n - 1, log, fmtG)
  }

  /** Slot `r*2048+q` of the table holds the line of cell (r, q). */
  lemma TableAt(m: seq<seq<real>>, r: nat, q: nat, log: real -> real, fmtG: real -> string)
    requires WideRows(m) && r < |m| && q < Cols
    ensures r * Cols + q < |m| * Cols
    ensures Table(m, log, fmtG)[r * Cols + q] == CellLine(m, Cell(r, q), log, fmtG)
  {
    SlotInRange(Cell(r, q), |m|);
  }

  /** `t` holds, at the slots of row `r`, the lines `texts` each followed
      by its newline. */
  predicate HoldsRow(t: seq<string>, r: nat, texts: seq<string>) {
    && |texts| == Cols
    && (r + 1) * Cols <= |t|
    && forall q :: 0 <= q < Cols ==> t[r * Cols + q] == texts[q] + "\n"
  }

  lemma TableHoldsRows(m: seq<seq<real>>, r: nat, log: real -> real, fmtG: real -> string)
    requires WideRows(m) && r < |m|
    ensures HoldsRow(Table(m, log, fmtG), r, RowTexts(m, r, Cols, log, fmtG))
  {
    assert (r + 1) * Cols <= |m| * Cols;
    forall q | 0 <= q < Cols
      ensures Table(m, log, fmtG)[r * Cols + q] == CellLine(m, Cell(r, q), log, fmtG)
    {
      TableAt(m, r, q, log, fmtG);
    }
  }

  /** Inside a row the builder adds no blank line. */
  lemma AssembleInsideRow(t: seq<string>, r: nat, q: nat)
    requires 0 < q < Cols && r * Cols + q <= |t|
    ensures Assemble(t, r * Cols + q) == Assemble(t, r * Cols + (q - 1)) + t[r * Cols + (q - 1)]
  {
    DivModSlot(r, q);
  }

  /** At the end of a row the builder adds the blank line. */
  lemma AssembleEndOfRow(t: seq<string>, r: nat)
    requires (r + 1) * Cols <= |t|
    ensures Assemble(t, (r + 1) * Cols) == Assemble(t, r * Cols + (Cols - 1)) + t[r * Cols + (Cols - 1)] + "\n"
  {
    DivModSlot(r + 1, 0);
  }

  /** Concatenation regrouped: if a == s + j then a + c == s + (j + c). */
  lemma Regroup(a: string, s: string, j: string, c: string)
    requires a == s + j
    ensures a + c == s + (j + c)
  {
  }

  lemma {:induction false} AssembleWithinRow(t: seq<string>, r: nat, texts: seq<string>, q: nat)
    requires HoldsRow(t, r, texts) && q < Cols
    ensures Assemble(t, r * Cols + q) == Assemble(t, r * Cols) + JoinLines(texts[..q])
  {
    if q == 0 {
      assert texts[..0] == [];
    } else {
      AssembleWithinRow(t, r, texts, q - 1);
      var start := Assemble(t, r * Cols);
      var prev := texts[..q - 1];
      var before := Assemble(t, r * Cols + (q - 1));
      assert before == start + JoinLines(prev);
      var cell := texts[q - 1];
      assert t[r * Cols + (q - 1)] == cell + "\n";
      AssembleInsideRow(t, r, q);
      assert texts[..q] == prev + [cell];
      JoinLinesSnoc(prev, cell);
      Regroup(before, start, JoinLines(prev), cell + "\n");
    }
  }

  lemma AssembleRow(t: seq<string>, r: nat, texts: seq<string>)
    requires HoldsRow(t, r, texts)
    ensures Assemble(t, (r + 1) * Cols) == Assemble(t, r * Cols) + JoinLines(texts + [""])
  {
    AssembleWithinRow(t, r, texts, Cols - 1);
    var start := Assemble(t, r * Cols);
    var prev := texts[..Cols - 1];
    var before := Assemble(t, r * Cols + (Cols - 1));
    assert before == start + JoinLines(prev);
    var last := texts[Cols - 1];
    assert t[r * Cols + (Cols - 1)] == last + "\n";
    AssembleEndOfRow(t, r);
    assert texts == prev + [last];
    JoinLinesSnoc(prev, last);
    JoinLinesSnoc(texts, "");
    Regroup(before, start, JoinLines(prev), last + "\n");
    Regroup(before + (last + "\n"), start, JoinLines(texts), "" + "\n");
  }

  lemma {:induction false} AssembleRows(m: seq<seq<real>>, n: nat, log: real -> real, fmtG: real -> string)
    requires WideRows(m) && n <= |m|
    ensures n * Cols <= |m| * Cols
    ensures Assemble(Table(m, log, fmtG), n * Cols) == JoinLines(TextLines(m, n, log, fmtG))
  {
    if n > 0 {
      var r := n - 1;
      AssembleRows(m, r, log, fmtG);
      TableHoldsRows(m, r, log, fmtG);
      AssembleRow(Table(m, log, fmtG), r, RowTexts(m, r, Cols, log, fmtG));
      JoinLinesAppend(TextLines(m, r, log, fmtG), RowLines(m, r, log, fmtG));
    } else {
      assert n * Cols == 0;
    }
  }

  /** The full text `matrixAsGnuplotFormat` returns: the results slice of a
      run under `schedule`, concatenated with a blank line after each
      2048th entry. The text is the same for every schedule, and it is the
      lines of the rows in order, each row closed by one blank line. */
  method MatrixAsGnuplotFormat(m: seq<seq<real>>, schedule: seq<Cell>, log: real -> real, fmtG: real -> string)
    returns (text: string)
    requires WideRows(m)
    requires IsSchedule(schedule, |m|)
    ensures text == JoinLines(TextLines(m, |m|, log, fmtG))
  {
    var results := Materialize(m, schedule, log, fmtG);
    text := Assemble(results, |results|);
    AssembleRows(m, |m|, log, fmtG);
  }

  // ---------------------------------------------------------------------------
  // Where the blank lines fall
  // ---------------------------------------------------------------------------

  /** Lines per row of the text: 2048 cell lines and one blank line. */
  const Stride: nat := Cols + 1

  /** A row's text lines: its cell texts, none of them blank, then the
      blank separator. */
  lemma RowLinesAt(m: seq<seq<real>>, i: nat, j: nat, log: real -> real, fmtG: real -> string)
    requires i < |m| && WideRows(m) && j < Stride
    ensures |RowLines(m, i, log, fmtG)| == Stride
    ensures j < Cols ==> RowLines(m, i, log, fmtG)[j] == CellText(m, Cell(i, j), log, fmtG) != ""
    ensures j == Cols ==> RowLines(m, i, log, fmtG)[j] == ""
  {
    if j < Cols {
      assert |CellText(m, Cell(i, j), log, fmtG)| > 0 by {
        assert |Decimal(i)| > 0;
      }
    }
  }

  lemma {:induction false} TextLinesLength(m: seq<seq<real>>, n: nat, log: real -> real, fmtG: real -> string)
    requires WideRows(m) && n <= |m|
    ensures |TextLines(m, n, log, fmtG)| == n * Stride
  {
    if n > 0 {
      TextLinesLength(m, n - 1, log, fmtG);
      RowLinesAt(m, n - 1, 0, log, fmtG);
    }
  }

  /** Line j of row r's group is line r * Stride + j of the text. */
  lemma {:induction false} TextLinesAt(m: seq<seq<real>>, n: nat, r: nat, j: nat, log: real -> real, fmtG: real -> string)
    requires WideRows(m) && r < n <= |m| && j < Stride
    ensures r * Stride + j < n * Stride == |TextLines(m, n, log, fmtG)|
    ensures TextLines(m, n, log, fmtG)[r * Stride + j] == RowLines(m, r, log, fmtG)[j]
  {
    TextLinesLength(m, n, log, fmtG);
    TextLinesLength(m, n - 1, log, fmtG);
    RowLinesAt(m, r, j, log, fmtG);
    var prev := TextLines(m, n - 1, log, fmtG);
    var row := RowLines(m, n - 1, log, fmtG);
    assert TextLines(m, n, log, fmtG) == prev + row;
    if r < n - 1 {
      TextLinesAt(m, n - 1, r, j, log, fmtG);
      assert r * Stride + j < |prev|;
    } else {
      assert r * Stride + j == |prev| + j;
    }
  }

  /** Text line `u` is blank exactly when it closes a row; every other text
      line is the line of cell (u / Stride, u % Stride). */
  lemma BlankLinesAtRowEnds(m: seq<seq<real>>, n: nat, u: nat, log: real -> real, fmtG: real -> string)
    requires WideRows(m) && n <= |m|
    ensures |TextLines(m, n, log, fmtG)| == n * Stride
    ensures u < n * Stride ==>
      var l := TextLines(m, n, log, fmtG)[u];
      && (l == "" <==> u % Stride == Cols)
      && (u % Stride < Cols ==> u / Stride < n && l == CellText(m, Cell(u / Stride, u % Stride), log, fmtG))
  {
    TextLinesLength(m, n, log, fmtG);
    if u < n * Stride {
      var r, j := u / Stride, u % Stride;
      assert u == r * Stride + j;
      assert r < n;
      TextLinesAt(m, n, r, j, log, fmtG);
      RowLinesAt(m, r, j, log, fmtG);
    }
  }


}
