/**
  The cell functions of sps.c (lines 187-235): a cell owns one heap copy of
  a C string.  Allocation is taken to succeed, so every operation reports
  SUCCESS.
 */
module Cells {
  import opened CStrings
  import opened Types

  class Cell {
    var str: string

    /** What the cell holds is always a C string: it has no NUL byte. */
    ghost predicate Valid()
      reads this
    {
      NoNul(str)
    }

    /** cell_ctor: a new cell holds the empty string. */
    constructor ()
      ensures Valid() && str == ""
    {
      str := "";
    }

    /** writeCell: the cell holds a copy of the C string in `src`. */
    method Write(src: string) returns (s: State)
      modifies this
      ensures Valid() && str == CStr(src)
      ensures s == Success
    {
      str := CStr(src);
      s := Success;
    }

    /**
      deepCopyCell: this cell holds a copy of `src`'s string.  writeCell
      frees the destination before copying, so the two cells must differ.
     */
    method DeepCopy(src: Cell) returns (s: State)
      requires src != this && src.Valid()
      modifies this
      ensures Valid() && str == src.str
      ensures s == Success
    {
      s := Write(src.str);
      CStrOfNoNul(src.str);
    }
  }

  /**
    swapCell: the two cells exchange their strings through a temporary
    cell; the result is SUCCESS whatever the copies report.
   */
  method SwapCell(c1: Cell, c2: Cell) returns (s: State)
    requires c1 != c2 && c1.Valid() && c2.Valid()
    modifies c1, c2
    ensures c1.Valid() && c2.Valid()
    ensures c1.str == old(c2.str) && c2.str == old(c1.str)
    ensures s == Success
  {
    var tmp := new Cell();
    var st := tmp.DeepCopy(c2);
    if st == Success {
      st := c2.DeepCopy(c1);
    }
    if st == Success {
      st := c1.DeepCopy(tmp);
    }
    s := Success;
  }
}
