/** The editor's status codes and its rectangular selection (sps.c, top of file). */
module Types {

  /** Every status a fallible operation of the editor reports; `Success` is 0. */
  datatype State =
    | Success
    | NotFound
    | ErrGeneric
    | ErrTooLong
    | ErrOutOfRange
    | ErrBadSyntax
    | ErrBadCommands
    | ErrBadFormat
    | ErrTableEmpty
    | ErrFileAccess
    | ErrBadOrder
    | ErrBadTable
    | ErrMemory

  datatype Option<T> = None | Some(value: T)

  /** A rectangle of 1-based cell coordinates. */
  datatype Selection = Selection(startRow: nat, startCol: nat, endRow: nat, endCol: nat)

  predicate SingleCell(s: Selection) {
    s.startRow == s.endRow && s.startCol == s.endCol
  }

  /** selection_init: the default selection is the single top-left cell. */
  function InitialSelection(): (s: Selection)
    ensures SingleCell(s) && s.startRow == 1 && s.startCol == 1
  {
    Selection(1, 1, 1, 1)
  }
}
