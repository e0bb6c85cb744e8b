/**
  The table's text form: what readTable (sps.c:520-567) builds from a
  buffer, and what printCell/printTable (sps.c:238-251, 570-581) write.
  The methods that do this in place are in module Tables; this module
  gives their meaning as functions and proves properties of it.
 */
module TableText {
  import opened CStrings
  import opened Types
  import opened Fields
  import opened Grids

  // ---------- Reading ----------

  /** A decoded field and the byte that ended it. */
  datatype Token = Token(text: string, ender: char)

  /**
    The fields of the unread bytes `rest`, in order: decode a field; a
    field ended by the end of the buffer is dropped and scanning stops; a
    field ended by a newline or a delimiter is followed by the fields after
    that byte; a field ended by any other byte (a malformed field, whose
    first byte then ends it) is the last one.
   */
  function Tokens(rest: string, delims: string): seq<Token>
    decreases |rest|
  {
    var d := Decode(rest, delims);
    var t := At(rest, Shift(d));
    if t == '\0' then []
    else if t == '\n' || StrChr(delims, t) then [Token(Text(d), t)] + Tokens(rest[Shift(d) + 1..], delims)
    else [Token(Text(d), t)]
  }

  /** The cursor after a field ended by `ender`: the next row's start after a newline, else the next column. */
  function NextCursor(ender: char, row: nat, col: nat): (nat, nat) {
    if ender == '\n' then (row + 1, 0) else (row, col + 1)
  }

  /**
    Storing the fields from the cursor at the 0-based cell (row, col): each
    field is stored at the cursor; a newline then moves the cursor to the
    start of the next row, a delimiter to the next column, and any other
    byte stops reading with ERR_BAD_FORMAT.
   */
  function Place(toks: seq<Token>, delims: string, row: nat, col: nat, g: Grid): (State, Grid)
    requires Rect(g)
  {
    if toks == [] then
      (Success, g)
    else
      var h := Put(g, row, col, toks[0].text);
      if Continues(toks[0], delims) then
        var (row', col') := NextCursor(toks[0].ender, row, col);
        Place(toks[1..], delims, row', col', h)
      else
        (ErrBadFormat, h)
  }

  /** A field after which reading goes on: it ended with a newline or a delimiter. */
  predicate Continues(tok: Token, delims: string) {
    tok.ender == '\n' || StrChr(delims, tok.ender)
  }

  /** readTable's outcome from the unread bytes `rest` with the cursor at (row, col). */
  function ReadFrom(rest: string, delims: string, row: nat, col: nat, g: Grid): (State, Grid)
    requires Rect(g)
  {
    Place(Tokens(rest, delims), delims, row, col, g)
  }

  /** (r, c) comes strictly before (row, col) in row-major order. */
  predicate Before(r: nat, c: nat, row: nat, col: nat) {
    r < row || (r == row && c < col)
  }

  /**
    Storing a field at the cursor (assureTableSize, then writeCell): the
    cell exists afterwards and holds the field; the grid stays rectangular,
    does not shrink, and keeps every other cell.
   */
  function Put(g: Grid, row: nat, col: nat, v: string): (h: Grid)
    requires Rect(g)
    ensures Rect(h) && Rows(h) >= Rows(g) && h.cols >= g.cols
    ensures row < Rows(h) && col < h.cols && h.cells[row][col] == CStr(v)
    ensures forall r, c :: 0 <= r < Rows(g) && 0 <= c < g.cols && (r != row || c != col) ==>
      h.cells[r][c] == g.cells[r][c]
  {
    Write(Assured(g, row, col), row, col, v)
  }

  /** Only the last field can end with a byte other than a newline or a delimiter. */
  lemma {:induction false} TokensEnders(rest: string, delims: string)
    ensures forall k :: 0 <= k < |Tokens(rest, delims)| - 1 ==> Continues(Tokens(rest, delims)[k], delims)
    ensures forall tok <- Tokens(rest, delims) :: tok.ender != '\0'
    decreases |rest|
  {
    var d := Decode(rest, delims);
    var t := At(rest, Shift(d));
    if t != '\0' && (t == '\n' || StrChr(delims, t)) {
      var tail := Tokens(rest[Shift(d) + 1..], delims);
      TokensEnders(rest[Shift(d) + 1..], delims);
      var toks := Tokens(rest, delims);
      assert toks == [Token(Text(d), t)] + tail;
      forall k | 0 < k < |toks| - 1
        ensures Continues(toks[k], delims)
      {
        assert toks[k] == tail[k - 1];
        assert Continues(tail[k - 1], delims);
      }
    }
  }

  /**
    Placing fields keeps the grid rectangular, never shrinks it, and reports
    only SUCCESS or ERR_BAD_FORMAT.
   */
  lemma {:induction false} PlaceShape(toks: seq<Token>, delims: string, row: nat, col: nat, g: Grid)
    requires Rect(g)
    ensures var h := Place(toks, delims, row, col, g).1;
      Rect(h) && Rows(h) >= Rows(g) && h.cols >= g.cols
    ensures Place(toks, delims, row, col, g).0 in {Success, ErrBadFormat}
  {
    if toks != [] && Continues(toks[0], delims) {
      var (row', col') := NextCursor(toks[0].ender, row, col);
      PlaceShape(toks[1..], delims, row', col', Put(g, row, col, toks[0].text));
    }
  }

  /** Placing fields never touches a cell that comes before the cursor. */
  lemma {:induction false} PlaceKeeps(toks: seq<Token>, delims: string, row: nat, col: nat, g: Grid, r: nat, c: nat)
    requires Rect(g)
    requires r < Rows(g) && c < g.cols && Before(r, c, row, col)
    ensures var h := Place(toks, delims, row, col, g).1;
      Rect(h) && r < Rows(h) && c < h.cols && h.cells[r][c] == g.cells[r][c]
  {
    if toks != [] {
      var h := Put(g, row, col, toks[0].text);
      assert h.cells[r][c] == g.cells[r][c];
      if Continues(toks[0], delims) {
        var (row', col') := NextCursor(toks[0].ender, row, col);
        PlaceKeeps(toks[1..], delims, row', col', h, r, c);
        assert Place(toks, delims, row, col, g) == Place(toks[1..], delims, row', col', h);
      }
    }
  }

  /** The first field placed is stored at the cursor and no later field overwrites it. */
  lemma PlaceFirst(toks: seq<Token>, delims: string, row: nat, col: nat, g: Grid)
    requires Rect(g) && toks != []
    ensures var h := Place(toks, delims, row, col, g).1;
      Rect(h) && row < Rows(h) && col < h.cols && h.cells[row][col] == CStr(toks[0].text)
  {
    if Continues(toks[0], delims) {
      var (row', col') := NextCursor(toks[0].ender, row, col);
      PlaceKeeps(toks[1..], delims, row', col', Put(g, row, col, toks[0].text), row, col);
    }
  }

  /**
    Reading keeps the grid rectangular, never shrinks it, and reports only
    SUCCESS or ERR_BAD_FORMAT.
   */
  lemma ReadShape(rest: string, delims: string, row: nat, col: nat, g: Grid)
    requires Rect(g)
    ensures var h := ReadFrom(rest, delims, row, col, g).1;
      Rect(h) && Rows(h) >= Rows(g) && h.cols >= g.cols
    ensures ReadFrom(rest, delims, row, col, g).0 in {Success, ErrBadFormat}
  {
    PlaceShape(Tokens(rest, delims), delims, row, col, g);
  }

  // One step of reading, by the byte that ended the first field.

  lemma ReadNextRow(rest: string, delims: string, row: nat, col: nat, g: Grid)
    requires Rect(g) && At(rest, Shift(Decode(rest, delims))) == '\n'
    ensures var d := Decode(rest, delims);
      && Shift(d) < |rest|
      && ReadFrom(rest, delims, row, col, g)
         == ReadFrom(rest[Shift(d) + 1..], delims, row + 1, 0, Put(g, row, col, Text(d)))
  {
    var d := Decode(rest, delims);
    assert Tokens(rest, delims) == [Token(Text(d), '\n')] + Tokens(rest[Shift(d) + 1..], delims);
  }

  lemma ReadNextCol(rest: string, delims: string, row: nat, col: nat, g: Grid)
    requires Rect(g)
    requires var t := At(rest, Shift(Decode(rest, delims)));
      t != '\0' && t != '\n' && StrChr(delims, t)
    ensures var d := Decode(rest, delims);
      && Shift(d) < |rest|
      && ReadFrom(rest, delims, row, col, g)
         == ReadFrom(rest[Shift(d) + 1..], delims, row, col + 1, Put(g, row, col, Text(d)))
  {
    var d := Decode(rest, delims);
    var t := At(rest, Shift(d));
    assert Tokens(rest, delims) == [Token(Text(d), t)] + Tokens(rest[Shift(d) + 1..], delims);
  }

  lemma ReadBadFormat(rest: string, delims: string, row: nat, col: nat, g: Grid)
    requires Rect(g)
    requires var t := At(rest, Shift(Decode(rest, delims)));
      t != '\0' && t != '\n' && !StrChr(delims, t)
    ensures ReadFrom(rest, delims, row, col, g) == (ErrBadFormat, Put(g, row, col, Text(Decode(rest, delims))))
  {
  }

  /** A field ended by the end of the buffer is not stored, and reading stops. */
  lemma LastFieldDropped(rest: string, delims: string, row: nat, col: nat, g: Grid)
    requires Rect(g)
    requires At(rest, Shift(Decode(rest, delims))) == '\0'
    ensures ReadFrom(rest, delims, row, col, g) == (Success, g)
  {
  }

  /**
    A field ended by any other byte is stored at the cursor, and no later
    step of reading overwrites it.
   */
  lemma FieldStored(rest: string, delims: string, row: nat, col: nat, g: Grid)
    requires Rect(g)
    requires At(rest, Shift(Decode(rest, delims))) != '\0'
    ensures var h := ReadFrom(rest, delims, row, col, g).1;
      Rect(h) && row < Rows(h) && col < h.cols && h.cells[row][col] == CStr(Text(Decode(rest, delims)))
  {
    var toks := Tokens(rest, delims);
    assert toks[0].text == Text(Decode(rest, delims));
    PlaceFirst(toks, delims, row, col, g);
  }

  /**
    A field of plain bytes ended by a newline or a delimiter is stored
    verbatim at the cursor, which then moves on.
   */
  lemma ReadsPlainField(rest: string, delims: string, n: nat, row: nat, col: nat, g: Grid)
    requires n < |rest| && Rect(g)
    requires forall k :: 0 <= k < n ==> PlainByte(rest[k], delims)
    requires CleanEnd(rest[n], delims) && rest[n] != '\0'
    ensures var h := Put(g, row, col, rest[..n]);
      ReadFrom(rest, delims, row, col, g) ==
        if rest[n] == '\n' then ReadFrom(rest[n + 1..], delims, row + 1, 0, h)
        else ReadFrom(rest[n + 1..], delims, row, col + 1, h)
  {
    PlainField(rest, delims, n);
    var toks := Tokens(rest, delims);
    assert toks == [Token(rest[..n], rest[n])] + Tokens(rest[n + 1..], delims);
    assert toks[1..] == Tokens(rest[n + 1..], delims);
  }

  // ---------- Printing ----------

  /**
    printCell: the cell's C string, wrapped in double quotes exactly when it
    contains the table's delimiter; quotes inside are not escaped.
   */
  function PrintCell(s: string, d: char): string {
    if StrChr(s, d) then "\"" + CStr(s) + "\"" else CStr(s)
  }

  /**
    The text printTable's inner loop writes for the first `n` cells of a
    row: each printed cell followed by the delimiter, or by a newline
    after the row's last cell.
   */
  function RowText(row: seq<string>, n: nat, d: char): string
    requires n <= |row|
  {
    if n == 0 then ""
    else RowText(row, n - 1, d) + PrintCell(row[n - 1], d) + [if n < |row| then d else '\n']
  }

  /** printTable: the rows' texts one after the other. */
  function Render(cells: seq<seq<string>>, d: char): string {
    if cells == [] then ""
    else
      var last := cells[|cells| - 1];
      Render(cells[..|cells| - 1], d) + RowText(last, |last|, d)
  }

  lemma RenderSnoc(cells: seq<seq<string>>, i: nat, d: char)
    requires i < |cells|
    ensures Render(cells[..i + 1], d) == Render(cells[..i], d) + RowText(cells[i], |cells[i]|, d)
  {
    assert cells[..i + 1][..i] == cells[..i];
  }

  /** The cell is wrapped in quotes if and only if it contains the delimiter. */
  lemma QuotedIffDelimiter(s: string, d: char)
    ensures PrintCell(s, d) == "\"" + CStr(s) + "\"" <==> StrChr(s, d)
    ensures !StrChr(s, d) ==> PrintCell(s, d) == CStr(s)
  {
  }

  /**
    printCell's stack buffer holds 2 * strlen + 1 bytes. The printed text
    and its terminator need more than that exactly when the cell is quoted
    and its C string is shorter than two bytes.
   */
  lemma PrintCellOverflow(s: string, d: char)
    ensures |PrintCell(s, d)| + 1 > 2 * |CStr(s)| + 1 <==> StrChr(s, d) && |CStr(s)| < 2
  {
  }

  /**
    A cell that overflows that buffer, as readTable stores it: the quoted
    field `","` followed by `,x` gives the one-byte cell `,`, which prints
    as four bytes with `,` as the delimiter.
   */
  lemma QuotedCommaCell()
    ensures Decode("\",\",x\n", ",") == Field(",", 3)
    ensures |PrintCell(",", ',')| + 1 > 2 * |CStr(",")| + 1
  {
    assert CStr(",") == ",";
  }

  /** The number of newline bytes in `s`. */
  function Newlines(s: string): nat {
    if s == [] then 0 else (if s[0] == '\n' then 1 else 0) + Newlines(s[1..])
  }

  lemma {:induction false} NewlinesAppend(a: string, b: string)
    ensures Newlines(a + b) == Newlines(a) + Newlines(b)
  {
    if a == [] {
      assert a + b == b;
    } else {
      assert (a + b)[0] == a[0];
      assert (a + b)[1..] == a[1..] + b;
      NewlinesAppend(a[1..], b);
    }
  }

  lemma {:induction false} NoNewline(s: string)
    requires '\n' !in s
    ensures Newlines(s) == 0
  {
    if s != [] {
      NoNewline(s[1..]);
    }
  }

  lemma PrintCellNoNewline(s: string, d: char)
    requires '\n' !in s
    ensures Newlines(PrintCell(s, d)) == 0
  {
    assert CStr(s) <= s;
    NoNewline(PrintCell(s, d));
  }

  lemma {:induction false} RowTextNewlines(row: seq<string>, n: nat, d: char)
    requires n <= |row| && d != '\n'
    requires forall c :: 0 <= c < |row| ==> '\n' !in row[c]
    ensures Newlines(RowText(row, n, d)) == if n == |row| && n > 0 then 1 else 0
  {
    if n > 0 {
      RowTextNewlines(row, n - 1, d);
      var p := PrintCell(row[n - 1], d);
      PrintCellNoNewline(row[n - 1], d);
      var e: string := [if n < |row| then d else '\n'];
      NewlinesAppend(RowText(row, n - 1, d), p);
      NewlinesAppend(RowText(row, n - 1, d) + p, e);
    }
  }

  /**
    With no newline in any cell nor as the delimiter, a printed rectangular
    table has exactly one newline per row, ending that row, when it has
    columns; a table without columns prints nothing at all.
   */
  lemma {:induction false} RenderNewlines(cells: seq<seq<string>>, cols: nat, d: char)
    requires d != '\n'
    requires forall r :: 0 <= r < |cells| ==> |cells[r]| == cols
    requires forall r, c :: 0 <= r < |cells| && 0 <= c < cols ==> '\n' !in cells[r][c]
    ensures Newlines(Render(cells, d)) == if cols > 0 then |cells| else 0
    ensures cols == 0 ==> Render(cells, d) == ""
  {
    if cells != [] {
      var n := |cells| - 1;
      var last := cells[n];
      RenderNewlines(cells[..n], cols, d);
      RowTextNewlines(last, |last|, d);
      NewlinesAppend(Render(cells[..n], d), RowText(last, |last|, d));
    }
  }

  /**
    A cell printed and read back: with no quote, backslash, newline or NUL
    in it, and no delimiter other than the table's own, decoding the printed
    cell followed by a delimiter or a newline gives the cell back.
   */
  lemma PrintedCellReadsBack(s: string, delims: string, t: char, rest: string)
    requires |delims| > 0 && delims[0] != '\0' && delims[0] != '\\' && delims[0] != '"'
    requires forall k :: 0 <= k < |s| ==> QuotableByte(s[k]) && (s[k] == delims[0] || !StrChr(delims, s[k]))
    requires t == '\n' || t == delims[0]
    ensures Decode(PrintCell(s, delims[0]) + [t] + rest, delims) == Field(s, |PrintCell(s, delims[0])|)
  {
    var d := delims[0];
    CStrOfNoNul(s);
    assert d in CStr(delims) by {
      CStrOfNoNul([d]);
      assert CStr([d]) <= CStr(delims);
    }
    var src := PrintCell(s, d) + [t] + rest;
    if StrChr(s, d) {
      assert src[1..|s| + 1] == s;
      QuotedField(src, delims, s);
    } else {
      assert src[..|s|] == s;
      PlainField(src, delims, |s|);
    }
  }

  /**
    Quotes inside a cell are not escaped, so a cell that holds both a quote
    and the delimiter does not read back: `a"b,c` prints as `"a"b,c"`,
    which decodes to `ab`.
   */
  lemma QuoteInDelimitedCellIsLost()
    ensures PrintCell("a\"b,c", ',') == "\"a\"b,c\""
    ensures Decode(PrintCell("a\"b,c", ',') + "\n", ",") == Field("ab", 4)
  {
    CStrOfNoNul("a\"b,c");
    CStrOfNoNul(",");
    assert "a\"b,c"[3] == ',';
    var src := PrintCell("a\"b,c", ',') + "\n";
    assert src == "\"a\"b,c\"\n";
    assert Scan(src, ",", 0, false, false, "") == Scan(src, ",", 1, true, false, "");
    assert At(src, 1) == 'a' && [] + ['a'] == "a";
    assert Scan(src, ",", 1, true, false, "") == Scan(src, ",", 2, true, false, "a");
    assert Scan(src, ",", 2, true, false, "a") == Scan(src, ",", 3, false, false, "a");
    assert Scan(src, ",", 3, false, false, "a") == Scan(src, ",", 4, false, false, "ab");
    assert Scan(src, ",", 4, false, false, "ab") == Field("ab", 4);
  }
}
