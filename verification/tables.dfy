/**
  The table of sps.c (struct Table, lines 34-39) and the functions that
  change it in place: table_ctor, addRow, deleteRow, addCol, deleteCol,
  assureTableSize, writing a cell, readTable and printTable.  Each method
  is proved against the function on grids (module Grids) or on text
  (module TableText) that gives its meaning.
 */
module Tables {
  import opened CStrings
  import opened Types
  import opened Fields
  import opened Grids
  import opened TableText

  class Table {
    var rows: nat
    var cols: nat
    var cells: seq<seq<string>>
    var selection: Selection
    var delim: char

    /** `rows` counts the rows and every row holds `cols` cells. */
    ghost predicate Valid()
      reads this
    {
      rows == |cells| && Rect(Grid(cells, cols))
    }

    /** The grid the table stores. */
    function Model(): Grid
      reads this
    {
      Grid(cells, cols)
    }

    /** table_ctor: no rows and no columns; the selection and the delimiter are left unset. */
    constructor ()
      ensures Valid() && Model() == Grid([], 0) && rows == 0
    {
      rows, cols := 0, 0;
      cells := [];
    }

    /** addRow: a new last row of `cols` empty cells. */
    method AddRow()
      requires Valid()
      modifies this`rows, this`cells
      ensures Valid() && Model() == Grids.AddRow(old(Model()))
    {
      var row: seq<string> := [];
      for i := 0 to cols
        invariant row == Blank(i)
      {
        row := row + [""];
      }
      cells := cells + [row];
      rows := rows + 1;
    }

    /** deleteRow: the last row is dropped. */
    method DeleteRow()
      requires Valid() && rows > 0
      modifies this`rows, this`cells
      ensures Valid() && Model() == Grids.DeleteRow(old(Model()))
    {
      cells := cells[..rows - 1];
      rows := rows - 1;
    }

    /** addCol: every row gets a new last cell, which is empty. */
    method AddCol()
      requires Valid()
      modifies this`cols, this`cells
      ensures Valid() && Model() == Grids.AddCol(old(Model()))
    {
      ghost var before := cells;
      for i := 0 to rows
        invariant |cells| == rows && cols == old(cols)
        invariant forall k :: 0 <= k < i ==> cells[k] == before[k] + [""]
        invariant forall k :: i <= k < rows ==> cells[k] == before[k]
      {
        cells := cells[i := cells[i] + [""]];
      }
      cols := cols + 1;
      assert forall k :: 0 <= k < rows ==> cells[k] == Grids.AddCol(old(Model())).cells[k];
    }

    /** deleteCol: the last cell of every row is dropped. */
    method DeleteCol()
      requires Valid() && cols > 0
      modifies this`cols, this`cells
      ensures Valid() && Model() == Grids.DeleteCol(old(Model()))
    {
      ghost var before := cells;
      for i := 0 to rows
        invariant |cells| == rows && cols == old(cols)
        invariant forall k :: 0 <= k < i ==> cells[k] == before[k][..cols - 1]
        invariant forall k :: i <= k < rows ==> cells[k] == before[k]
      {
        cells := cells[i := cells[i][..cols - 1]];
      }
      cols := cols - 1;
      assert forall k :: 0 <= k < rows ==> cells[k] == Grids.DeleteCol(old(Model())).cells[k];
    }

    /**
      assureTableSize: add columns while `c >= cols`, then rows while
      `r >= rows`, so that the 0-based cell (r, c) exists.
     */
    method AssureTableSize(r: nat, c: nat)
      requires Valid()
      modifies this`rows, this`cols, this`cells
      ensures Valid() && Model() == Assured(old(Model()), r, c)
    {
      while c >= cols
        invariant Valid()
        invariant GrowCols(Model(), c) == GrowCols(old(Model()), c)
        decreases c + 1 - cols
      {
        AddCol();
      }
      ghost var wide := Model();
      while r >= rows
        invariant Valid() && Model().cols == wide.cols
        invariant GrowRows(Model(), r) == GrowRows(wide, r)
        decreases r + 1 - rows
      {
        AddRow();
      }
    }

    /** writeCell on the table's cell (r, c), both 0-based. */
    method WriteCell(r: nat, c: nat, src: string) returns (s: State)
      requires Valid() && r < rows && c < cols
      modifies this`cells
      ensures Valid() && Model() == Write(old(Model()), r, c, src)
      ensures s == Success
    {
      cells := cells[r := cells[r][c := CStr(src)]];
      s := Success;
    }

    /** One field stored by readTable: assureTableSize, then writeCell at (row, col). */
    method StoreField(row: nat, col: nat, v: string) returns (s: State)
      requires Valid()
      modifies this`rows, this`cols, this`cells
      ensures Valid() && Model() == Put(old(Model()), row, col, v)
      ensures s == Success
    {
      AssureTableSize(row, col);
      s := WriteCell(row, col, v);
    }

    /**
      readTable on the bytes of the file: the table's delimiter becomes the
      first of `delimiters`, then fields are decoded and stored one by one
      from the cell (0, 0).
     */
    method ReadTable(buf: string, delimiters: string) returns (s: State)
      requires Valid()
      modifies this`delim, this`rows, this`cols, this`cells
      ensures Valid() && (s, Model()) == ReadFrom(buf, delimiters, 0, 0, old(Model()))
      ensures delim == At(delimiters, 0)
    {
      delim := At(delimiters, 0);
      var row: nat, col: nat := 0, 0;
      var i: nat := 0;
      while true
        invariant Valid() && i <= |buf|
        invariant ReadFrom(buf[i..], delimiters, row, col, Model()) == ReadFrom(buf, delimiters, 0, 0, old(Model()))
        invariant delim == At(delimiters, 0)
        decreases |buf| - i
      {
        ghost var rest, g := buf[i..], Model();
        var cellBuffer, shift := ParseString(buf[i..], delimiters);
        AtSuffix(buf, i, shift);
        i := i + shift + 1;
        if At(buf, i - 1) == '\0' {
          LastFieldDropped(rest, delimiters, row, col, g);
          return Success;
        }
        s := StoreField(row, col, cellBuffer);
        if At(buf, i - 1) == '\n' {
          ReadNextRow(rest, delimiters, row, col, g);
          assert rest[shift + 1..] == buf[i..];
          row, col := row + 1, 0;
        } else if StrChr(delimiters, At(buf, i - 1)) {
          ReadNextCol(rest, delimiters, row, col, g);
          assert rest[shift + 1..] == buf[i..];
          col := col + 1;
        } else {
          ReadBadFormat(rest, delimiters, row, col, g);
          return ErrBadFormat;
        }
      }
    }

    /**
      printTable: every cell printed in row-major order, followed by the
      delimiter or, after a row's last cell, a newline.
     */
    method PrintTable() returns (out: string)
      requires Valid()
      ensures out == Render(cells, delim)
    {
      out := "";
      for i := 0 to rows
        invariant out == Render(cells[..i], delim)
      {
        var line := "";
        for j := 0 to cols
          invariant line == RowText(cells[i], j, delim)
        {
          var sep := if j < cols - 1 then delim else '\n';
          line := line + PrintCell(cells[i][j], delim) + [sep];
        }
        RenderSnoc(cells, i, delim);
        out := out + line;
      }
      assert cells[..rows] == cells;
    }
  }
}
