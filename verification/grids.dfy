/**
  The table's grid as a value: the meaning of the structural primitives of
  sps.c (addRow, addCol, deleteRow, deleteCol, assureTableSize, and writing a
  cell).  Coordinates here are 0-based, as in the table's storage.

  The column count is kept beside the rows because a table with no rows
  can already have columns (assureTableSize adds columns first).
 */
module Grids {
  import opened CStrings

  datatype Grid = Grid(cells: seq<seq<string>>, cols: nat)

  function Rows(g: Grid): nat {
    |g.cells|
  }

  /** Every row has exactly `cols` cells. */
  predicate Rect(g: Grid) {
    forall r :: 0 <= r < |g.cells| ==> |g.cells[r]| == g.cols
  }

  function Max(a: nat, b: nat): nat {
    if a < b then b else a
  }

  /** A row of `n` empty cells, as cell_ctor leaves them. */
  function Blank(n: nat): (row: seq<string>)
    ensures |row| == n && forall c :: 0 <= c < n ==> row[c] == ""
  {
    seq(n, _ => "")
  }

  /** addRow: one more row, all of whose cells are empty. */
  function AddRow(g: Grid): (h: Grid)
    ensures Rows(h) == Rows(g) + 1 && h.cols == g.cols
    ensures h.cells[..Rows(g)] == g.cells
    ensures h.cells[Rows(g)] == Blank(g.cols)
    ensures Rect(g) ==> Rect(h)
  {
    Grid(g.cells + [Blank(g.cols)], g.cols)
  }

  /** addCol: every row gets one more cell, which is empty. */
  function AddCol(g: Grid): (h: Grid)
    ensures Rows(h) == Rows(g) && h.cols == g.cols + 1
    ensures forall r :: 0 <= r < Rows(g) ==> h.cells[r] == g.cells[r] + [""]
    ensures Rect(g) ==> Rect(h)
  {
    Grid(seq(|g.cells|, r requires 0 <= r < |g.cells| => g.cells[r] + [""]), g.cols + 1)
  }

  /** deleteRow: the last row is dropped, nothing else changes. */
  function DeleteRow(g: Grid): (h: Grid)
    requires Rows(g) > 0
    ensures Rows(h) == Rows(g) - 1 && h.cols == g.cols
    ensures forall r :: 0 <= r < Rows(h) ==> h.cells[r] == g.cells[r]
    ensures Rect(g) ==> Rect(h)
  {
    Grid(g.cells[..|g.cells| - 1], g.cols)
  }

  /** deleteCol: the last cell of every row is dropped, nothing else changes. */
  function DeleteCol(g: Grid): (h: Grid)
    requires Rect(g) && g.cols > 0
    ensures Rect(h) && Rows(h) == Rows(g) && h.cols == g.cols - 1
    ensures forall r, c :: 0 <= r < Rows(h) && 0 <= c < h.cols ==> h.cells[r][c] == g.cells[r][c]
  {
    Grid(seq(|g.cells|, r requires 0 <= r < |g.cells| => g.cells[r][..g.cols - 1]), g.cols - 1)
  }

  /** Deleting the row just added gives back the table. */
  lemma DeleteRowUndoesAddRow(g: Grid)
    ensures DeleteRow(AddRow(g)) == g
  {
  }

  /** Deleting the column just added gives back the table. */
  lemma DeleteColUndoesAddCol(g: Grid)
    requires Rect(g)
    ensures DeleteCol(AddCol(g)) == g
  {
  }

  /** The first loop of assureTableSize: add columns while `c >= cols`. */
  function GrowCols(g: Grid, c: nat): (h: Grid)
    requires Rect(g)
    ensures Rect(h) && Rows(h) == Rows(g) && h.cols == Max(g.cols, c + 1)
    ensures forall r, k :: 0 <= r < Rows(h) && 0 <= k < h.cols ==>
      h.cells[r][k] == if k < g.cols then g.cells[r][k] else ""
    decreases c + 1 - g.cols
  {
    if c >= g.cols then GrowCols(AddCol(g), c) else g
  }

  /** The second loop of assureTableSize: add rows while `r >= rows`. */
  function GrowRows(g: Grid, r: nat): (h: Grid)
    requires Rect(g)
    ensures Rect(h) && Rows(h) == Max(Rows(g), r + 1) && h.cols == g.cols
    ensures forall i, k :: 0 <= i < Rows(h) && 0 <= k < h.cols ==>
      h.cells[i][k] == if i < Rows(g) then g.cells[i][k] else ""
    decreases r + 1 - Rows(g)
  {
    if r >= Rows(g) then GrowRows(AddRow(g), r) else g
  }

  /**
    assureTableSize: the 0-based cell (r, c) exists afterwards; the counts
    never decrease; existing cells keep their contents and new cells are
    empty; a table already large enough is left as it is.
   */
  function Assured(g: Grid, r: nat, c: nat): (h: Grid)
    requires Rect(g)
    ensures Rect(h) && Rows(h) == Max(Rows(g), r + 1) && h.cols == Max(g.cols, c + 1)
    ensures forall i, k :: 0 <= i < Rows(h) && 0 <= k < h.cols ==>
      h.cells[i][k] == if i < Rows(g) && k < g.cols then g.cells[i][k] else ""
    ensures r < Rows(g) && c < g.cols ==> h == g
  {
    GrowRows(GrowCols(g, c), r)
  }

  /** writeCell on the cell (r, c): strcpy stores the C string of `v` there. */
  function Write(g: Grid, r: nat, c: nat, v: string): (h: Grid)
    requires Rect(g) && r < Rows(g) && c < g.cols
    ensures Rect(h) && Rows(h) == Rows(g) && h.cols == g.cols
    ensures h.cells[r][c] == CStr(v)
    ensures forall i, k :: 0 <= i < Rows(h) && 0 <= k < h.cols && (i, k) != (r, c) ==>
      h.cells[i][k] == g.cells[i][k]
  {
    Grid(g.cells[r := g.cells[r][c := CStr(v)]], g.cols)
  }
}
