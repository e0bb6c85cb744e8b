# sps: a delimiter-separated table editor, modelled in Dafny

`sps.c` is an early draft of a spreadsheet-like editor for delimited text
tables. It reads a table from a file, using a set of delimiter bytes and
the quoting and escaping rules of its field decoder `parseString`. It
parses a command string such as `irow;print` into a list of commands and
runs those commands against the table. In this draft the command set is
`test`, `print`, `irow` and `arow`. `irow` and `arow` only check that
their argument is empty.

This project models that core:

- **CStrings** (`cstrings.dfy`). C strings as Dafny strings. Reading past
  the end gives `'\0'`. `strlen`, `strcpy` (through `CStr`), `strchr`
  and `strbgn` are modelled.
- **Types** (`types.dfy`). The `State` status codes, the rectangular
  `Selection`, and `selection_init`.
- **Fields** (`fields.dfy`). The field decoder `parseString`. `Scan` is
  its meaning as a function, with the same branches in the same order.
  `ParseString` is its loop, proved to compute `Decode`. Lemmas state
  the decoding rules one at a time, with reference results for plain and
  quoted fields.
- **Grids** (`grids.dfy`). The table grid as a value, and the meaning of
  `addRow`, `addCol`, `deleteRow`, `deleteCol`, `assureTableSize` and
  writing one cell.
- **Cells** (`cells.dfy`). `cell_ctor`, `writeCell`, `deepCopyCell` and
  `swapCell` on a `Cell` class that owns one string.
- **TableText** (`tabletext.dfy`). Reading and printing as functions:
  - what `readTable` stores, given the bytes of a file;
  - what `printCell` and `printTable` write.
  It also holds the lemmas about reading and printing, among them the
  read-back of a printed cell and the case in which a cell does not read
  back.
- **Tables** (`tables.dfy`). The `Table` class. Its methods change the
  table in place, as the C functions do, and each is proved against the
  grid or text function that gives its meaning.
- **Programs** (`programs.dfy`). The command catalog, `program_ctor`,
  `addCommand` and `parseCommands`. The parser's outcome is the function
  `ParseFrom`, and the method `ParseCommands` is proved to compute it.
- **Interpreter** (`interpreter.dfy`). `variables_ctor`, the four command
  bodies and `executeProgram`. The run is the function `Exec`: a left
  fold over the commands that stops at the first failure.

Table cell coordinates are 0-based, as readTable passes them to
assureTableSize and writeCell. The coordinates of a selection are
1-based, as in sps.c.

Points where sps.c behaves differently from what one might expect:

- A backslash still pending at the end of the input is simply dropped.
  The field is accepted, not reported as a format error.
- `printCell` wraps a cell in quotes when the cell contains the
  delimiter, but it does not escape quotes inside the cell.
- The catalog is searched in order and the first name that matches is
  taken.
- A last field that is not followed by a newline or a delimiter is
  dropped: `readTable` stores a field only when a byte other than the
  terminator ends it.
- A malformed command argument makes `parseCommands` resume one byte
  into that argument, so `irow"arow` is accepted as the two commands
  `irow` and `arow`.
- `strbgn` returns `memcmp`'s result, so 0 means "begins with".
  `Strbgn` is that test, `strbgn(...) == 0`, which is how
  `parseCommands` uses it.

## Model

| member | source | states |
|---|---|---|
| CStrings.StrLen | sps.c:170 | strlen: the result is within the buffer, no NUL comes before it, and the byte at it reads as NUL |
| CStrings.CStr | sps.c:202-210 | what strcpy copies: a NUL-free prefix of the buffer, followed there by NUL |
| CStrings.StrChr | sps.c:242 | `strchr(s, c) != NULL`, as sps.c:132, 242 and 558 test it: `c` occurs in the C string of `s`, or `c` is NUL, whose terminator strchr always finds (so a NUL delimiter makes printCell quote every cell) |
| CStrings.Strbgn | sps.c:169-172 | strbgn tested against 0, as parseCommands tests it: the first strlen(substr) bytes of `str` equal those of `substr` |
| CStrings.StrbgnIsPrefix | sps.c:169-172 | `memcmp(str, substr, strlen(substr)) == 0` holds exactly when the C string of `substr` is a prefix of the C string of `str` |
| Types.InitialSelection | sps.c:177-182 | selection_init: a single-cell selection at row 1, column 1 |
| Fields.Scan | sps.c:115-152 | parseString's loop as a recursion over the input from any scan state: the branches for the terminator, a backslash, the opening quote, the closing quote, a delimiter and a newline, in the source's order, giving the decoded value and the terminator's index, or a malformed field |
| Fields.ScanEnds | sps.c:111-153 | a successful scan ends at a NUL, newline or delimiter inside the buffer; it decodes no more bytes than it read, and the value has no NUL and no newline |
| Fields.DecodeEnds | sps.c:111-153 | the same, for a field decoded from its first byte |
| Fields.Decode | sps.c:111-153 | the outcome of parseString on a field: the decoded value and the index of its terminator, or a malformed field with the bytes decoded before the error |
| Fields.ParseString | sps.c:111-153 | the decoder loop returns exactly the shift (the terminator's index, or 0 on error) and the buffer contents that `Decode` specifies |
| Fields.EscapeCopiesNext | sps.c:117-147 | a backslash makes the next byte, unless it is a newline or NUL, be copied literally |
| Fields.EscapedNewlineFails | sps.c:136-141 | an escaped newline makes the field malformed, inside quotes or not |
| Fields.QuotedNewlineFails | sps.c:136-141 | a newline inside quotes makes the field malformed |
| Fields.QuoteRules | sps.c:122-130 | after the first byte, an unescaped quote closes an open quote; outside quotes it is an ordinary byte unless `"` is one of the delimiters, in which case it ends the field |
| Fields.DelimiterInQuotesCopied | sps.c:132-133 | inside quotes, a delimiter is copied and does not end the field |
| Fields.UnclosedQuoteFails | sps.c:148-149 | a quote that is never closed makes the field malformed |
| Fields.PlainField | sps.c:111-153 | a field of plain bytes decodes to itself and ends at its terminator |
| Fields.QuotedField | sps.c:122-133 | a quoted field decodes to the bytes between the quotes, delimiters included, and ends after the closing quote |
| Grids.Blank | sps.c:428-431 | a new row holds `cols` empty cells |
| Grids.AddRow | sps.c:416-435 | addRow: one more row of empty cells; the earlier rows and the column count are unchanged, and the grid stays rectangular |
| Grids.AddCol | sps.c:448-455 | addCol: every row gets one more cell, which is empty, and the grid stays rectangular |
| Grids.DeleteRow | sps.c:438-445 | deleteRow: the last row is dropped and the other rows are kept |
| Grids.DeleteCol | sps.c:458-463 | deleteCol: the last column is dropped and every other cell is kept |
| Grids.DeleteRowUndoesAddRow | sps.c:416-445 | deleting the row just added restores the grid |
| Grids.DeleteColUndoesAddCol | sps.c:448-463 | deleting the column just added restores the grid |
| Grids.GrowCols | sps.c:472-477 | the column loop: the column count becomes max(cols, c+1); old cells are kept and new cells are empty |
| Grids.GrowRows | sps.c:478-483 | the row loop: the row count becomes max(rows, r+1); old cells are kept and new cells are empty |
| Grids.Assured | sps.c:470-485 | assureTableSize: cell (r, c) exists afterwards; the counts never shrink; old cells are kept and new cells are empty; a grid that is already large enough is unchanged |
| Grids.Write | sps.c:202-210 | writing a cell stores the C string of the source at (r, c) and leaves every other cell and the shape unchanged |
| Cells.Cell.constructor | sps.c:187-193 | cell_ctor: the new cell holds the empty string |
| Cells.Cell.Write | sps.c:202-210 | writeCell: the cell holds the C string of `src`; the result is SUCCESS |
| Cells.Cell.DeepCopy | sps.c:213-215 | deepCopyCell: the destination holds the source's string |
| Cells.SwapCell | sps.c:218-235 | swapCell: the two cells exchange their strings; the result is SUCCESS |
| TableText.ReadFrom | sps.c:530-566 | the outcome of readTable's loop from a cursor: every field is stored at the cursor, which moves to the next row after a newline and to the next column after a delimiter; a field ended by NUL is dropped with SUCCESS, and any other ending byte gives ERR_BAD_FORMAT |
| TableText.PrintCell | sps.c:238-251 | printCell: the cell's C string, wrapped in double quotes when it contains the table's delimiter |
| TableText.RowText | sps.c:572-579 | printTable's inner loop over the first `n` cells of a row: each printed cell followed by the delimiter, or by a newline after the row's last cell |
| TableText.Render | sps.c:570-581 | printTable's output: the rows in order, each cell printed and followed by the delimiter, or by a newline after the row's last cell |
| Tables.Table.constructor | sps.c:393-397 | table_ctor: no rows, no columns, no cells |
| Tables.Table.AddRow | sps.c:416-435 | the table becomes `Grids.AddRow` of what it was |
| Tables.Table.DeleteRow | sps.c:438-445 | the table becomes `Grids.DeleteRow` of what it was |
| Tables.Table.AddCol | sps.c:448-455 | the table becomes `Grids.AddCol` of what it was |
| Tables.Table.DeleteCol | sps.c:458-463 | the table becomes `Grids.DeleteCol` of what it was |
| Tables.Table.AssureTableSize | sps.c:470-485 | both loops together make the table `Grids.Assured` of what it was |
| Tables.Table.WriteCell | sps.c:202-210 | writing cell (r, c) of the table is `Grids.Write`; the result is SUCCESS |
| Tables.Table.StoreField | sps.c:544-550 | one field stored by readTable: assureTableSize then writeCell make the table `TableText.Put` of what it was; the result is SUCCESS |
| Tables.Table.ReadTable | sps.c:520-567 | readTable: the delimiter becomes the first of `delimiters`, and the state and grid are those of `ReadFrom` on the whole buffer |
| Tables.Table.PrintTable | sps.c:570-581 | printTable writes `Render` of the cells: each printed cell is followed by the delimiter, or by a newline after the last cell of a row |
| TableText.Put | sps.c:544-548 | storing a field at the cursor: the cell exists and holds the field; the grid stays rectangular, does not shrink, and keeps every other cell |
| TableText.TokensEnders | sps.c:540-563 | only the last field read can end with something other than a newline or a delimiter, and no field ends with NUL |
| TableText.PlaceShape | sps.c:544-563 | storing fields keeps the grid rectangular and never shrinks it; the state is SUCCESS or ERR_BAD_FORMAT |
| TableText.PlaceKeeps | sps.c:544-561 | storing fields never changes a cell that comes before the cursor |
| TableText.PlaceFirst | sps.c:544-548 | the first field is stored at the cursor and no later field overwrites it |
| TableText.ReadShape | sps.c:520-567 | readTable keeps the grid rectangular and never shrinks it; the state is SUCCESS or ERR_BAD_FORMAT |
| TableText.ReadNextRow | sps.c:552-556 | a field ended by a newline is stored, and reading goes on at column 0 of the next row |
| TableText.ReadNextCol | sps.c:558-561 | a field ended by a delimiter is stored, and reading goes on at the next column |
| TableText.ReadBadFormat | sps.c:563 | a field ended by any other byte is stored, and reading stops with ERR_BAD_FORMAT |
| TableText.LastFieldDropped | sps.c:540-541 | a field ended by the end of the buffer is not stored, and reading stops with SUCCESS |
| TableText.FieldStored | sps.c:544-548 | any field not ended by NUL ends up in the cell at its cursor |
| TableText.ReadsPlainField | sps.c:535-561 | a plain field ended by a newline or delimiter is stored verbatim, and the cursor moves on |
| TableText.QuotedIffDelimiter | sps.c:238-251 | printCell adds quotes if and only if the cell contains the delimiter |
| TableText.PrintCellOverflow | sps.c:239-249 | the quoted or plain text and its terminator exceed printCell's `2 * strlen + 1`-byte buffer exactly when the cell is quoted and its C string has fewer than two bytes |
| TableText.QuotedCommaCell | sps.c:239-249 | the field `","` read with `,` as delimiter gives the cell `,`, whose printed form overflows printCell's buffer |
| TableText.PrintCellNoNewline | sps.c:238-251 | a printed cell with no newline prints no newline |
| TableText.RowTextNewlines | sps.c:572-579 | a printed row holds exactly one newline, at its end |
| TableText.RenderNewlines | sps.c:570-581 | a printed table holds one newline per row when it has columns, and nothing when it has none |
| TableText.PrintedCellReadsBack | sps.c:238-251 | a printed cell with no quote, backslash, newline or other delimiter decodes back to the cell |
| TableText.QuoteInDelimitedCellIsLost | sps.c:242-246 | a cell holding both a quote and the delimiter does not read back: `a"b,c` prints as `"a"b,c"`, which decodes to `ab` |
| Programs.ParseFrom | sps.c:583-638 | the outcome of parseCommands from the unread text: ERR_BAD_COMMANDS when no known name starts it; otherwise the command is appended with its decoded argument, and parsing ends with SUCCESS at NUL or continues after the byte that ended the argument |
| Programs.FindFromFirst | sps.c:604-613 | the catalog search finds a command exactly when some name from `j` on matches, and it finds the first such name |
| Programs.FindCommandFirst | sps.c:604-613 | the same, for the whole catalog |
| Programs.OnlyOneMatch | sps.c:586-591 | the known names start with different letters, so at most one of them matches |
| Programs.FindsName | sps.c:604-613 | text that begins with a known name selects that command |
| Programs.MatchedNameFits | sps.c:606-607 | a matched name is not empty and fits in the unread text |
| Programs.ParseLast | sps.c:620-635 | one command is parsed and its argument ends at NUL: SUCCESS with that command appended |
| Programs.ParseNext | sps.c:620-632 | one command is parsed and its argument ends at another byte: parsing continues after that byte with the command appended |
| Programs.ParseFromShape | sps.c:583-638 | parsing only appends known commands with their argument set; the state is SUCCESS or ERR_BAD_COMMANDS, and SUCCESS only after at least one command |
| Programs.EmptyRejected | sps.c:614-615 | an empty command string is ERR_BAD_COMMANDS with nothing appended |
| Programs.PlainCommand | sps.c:604-632 | a name, a plain argument and `;` or a newline append that command with that argument, and parsing continues after the separator |
| Programs.LastCommand | sps.c:604-635 | a name and a plain argument running to the end give SUCCESS with that command appended |
| Programs.TrailingSeparatorRejected | sps.c:629-632 | a trailing `;` needs another command: the result is ERR_BAD_COMMANDS, with the earlier commands already appended |
| Programs.UnclosedQuoteReparsed | sps.c:620-629 | an argument with an unclosed quote is malformed; parseString then returns 0, and parsing resumes one byte into the argument |
| Programs.CommandInsideUnclosedQuote | sps.c:620-635 | for example, `irow"arow` is accepted as two commands, the second being arow with an empty argument |
| Programs.Program.constructor | sps.c:256-260 | program_ctor: no commands |
| Programs.Program.AddCommand | sps.c:272-287 | addCommand: a copy of the command, with its argument unset, becomes the last command, and the length grows by one |
| Programs.Program.SetLastArgument | sps.c:622-626 | the last command's argument becomes the C string of the buffer; nothing else changes |
| Programs.ReadArgument | sps.c:620-626 | the argument is decoded up to `;` and stored in the last command; the shift and the ending byte are returned |
| Programs.MatchCommand | sps.c:604-613 | the inner loop finds a command exactly when `FindCommand` does, and then the same one |
| Programs.TakeCommand | sps.c:606-635 | one pass of the loop body appends exactly the matched command, with its argument decoded by `parseString` from the text after the name with `;` as the delimiter, and takes exactly one `ParseFrom` step: it either ends parsing or continues strictly further on |
| Programs.ParseCommands | sps.c:583-638 | parseCommands computes `ParseFrom` on the whole string: the state and the resulting command list |
| Interpreter.VariablesCtor | sps.c:370-381 | variables_ctor: ten empty cell variables, and the default single-cell selection as the selection variable |
| Interpreter.RunCommand | sps.c:490-512 | a command returns SUCCESS or ERR_BAD_SYNTAX; test and print always return SUCCESS |
| Interpreter.RowCommandChecksArgument | sps.c:500-512 | irow and arow return ERR_BAD_SYNTAX exactly when their argument is not the empty C string, and print nothing |
| Interpreter.Exec | sps.c:649-658 | the state and output after the first `n` iterations of executeProgram's loop: each command runs on its own argument until one fails |
| Interpreter.ExecAllSucceed | sps.c:649-658 | the run returns SUCCESS exactly when every command succeeds, and then the output is every command's output in order |
| Interpreter.ExecStopsAtFirstFailure | sps.c:655-657 | the first failing command stops the run: its state is the result, and the output is that of the commands up to it |
| Interpreter.ExecStops | sps.c:655-657 | after a failure, later iterations change nothing |
| Interpreter.ParsedProgramRuns | sps.c:583-661 | a command string that parses successfully gives a program executeProgram can run: at least one command, each with its argument |
| Interpreter.ExecuteProgram | sps.c:640-661 | executeProgram returns the state and output of `Exec` over all the commands |

## Left out

- File input and output are not modelled. `fileToBuffer` becomes the
  buffer given to `ReadTable`, and `printTable`'s FILE becomes the
  returned string. What `test_cmd` and `print_cmd` write to stderr is
  the returned log of `ExecuteProgram`.
- `main`, `parseArguments`, `arguments_ctor`, `printUsage` and
  `printErrorMessage` are not part of this model. They handle the
  command line and the presentation of errors.
- Allocation is taken to succeed, so the `ERR_MEMORY` paths are not
  modelled.
  - The memory-related quirks are left out too: `addCommand` increments
    `len` before its `realloc`, and `parseCommands` ignores
    `addCommand`'s result.
  - `Tables.Table.AddRow`, `Tables.Table.AddCol` and
    `Tables.Table.AssureTableSize` therefore return nothing instead of
    SUCCESS.
- Freeing is not modelled: `cell_dtor`, `table_dtor`, `program_dtor`,
  `variables_dtor`, the rows left allocated by `deleteRow`, and the file
  buffer `readTable` leaks when it returns early.
- The fixed-size buffers are unbounded here. These are `MAX_CELL_LENGTH`,
  `MAX_COMMAND_LENGTH` and the 16-byte command names. Overflowing them
  is not modelled.
- TableText.PrintCell: `printCell` builds its text in a stack buffer of
  `2 * strlen + 1` bytes, which a quoted cell shorter than two bytes
  overflows (`TableText.PrintCellOverflow`). Examples are the one-byte
  cell `,` with `,` as the delimiter, which `readTable` stores from
  `",",x` (`TableText.QuotedCommaCell`), and the empty cell when the
  delimiter is NUL. The model prints the quoted text anyway.
- `unsigned`, `size_t` and the `int` cursors are unbounded here. The
  cursors are `srcIndex` in `parseString` (sps.c:112) and `strIndex` in
  `parseCommands` (sps.c:594). An overflow of any of them is not
  modelled. `deleteRow` and `deleteCol` on an empty dimension would wrap
  around in C; the model requires a row or column to delete instead.
- Fields.Decode: after a malformed field, `parseString` leaves its
  buffer unterminated, so the C string stored from it is unspecified.
  The model stores the bytes decoded before the error.
- Tables.Table.constructor: `table_ctor` leaves the selection and the
  delimiter unset, and the model states nothing about them.
- The `seqPtr` field of the command context is not modelled. The
  `Variables` value is built by `executeProgram` but not handed to the
  commands, since none of them reads it.
- Cells.Cell.DeepCopy requires two distinct cells. `writeCell` frees the
  destination before copying, so copying a cell onto itself would read
  freed memory. `Cells.SwapCell` requires its two cells to differ for
  the same reason.
- Interpreter.ExecuteProgram requires at least one command. With none,
  the C function returns its uninitialised `s`.
  `Interpreter.ParsedProgramRuns` shows that every program
  `parseCommands` accepts has at least one command.
- The table keeps its cells as strings, not as `Cell` objects. The
  `Cell` class models the cell functions on their own, and the table's
  cell writes go through `Grids.Write`, which has the same meaning.
