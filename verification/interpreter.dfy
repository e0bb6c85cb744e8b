/**
  The interpreter of sps.c: the command variables (variables_ctor, lines
  370-381), the command bodies (test_cmd, print_cmd, irow_cmd, arow_cmd,
  lines 490-512) and the loop that runs a parsed program (executeProgram,
  lines 640-661).

  test_cmd and print_cmd write to stderr; here what they write is returned
  as a log string, so that the order in which commands run is observable.
 */
module Interpreter {
  import opened CStrings
  import opened Types
  import opened TableText
  import opened Programs
  import opened Tables

  /** The number of cell variables _0 to _9. */
  const NumCellVars: nat := 10

  /** The variables commands may use: ten cell variables and the selection variable `_`. */
  datatype Variables = Variables(cellVars: seq<string>, selVar: Selection)

  /**
    variables_ctor: the selection variable gets the default selection and
    every cell variable is constructed empty, in order.
   */
  method VariablesCtor() returns (v: Variables, s: State)
    ensures |v.cellVars| == NumCellVars && forall k :: 0 <= k < NumCellVars ==> v.cellVars[k] == ""
    ensures v.selVar == InitialSelection() && SingleCell(v.selVar)
    ensures s == Success
  {
    s := Success;
    var sel := InitialSelection();
    var cellVars: seq<string> := [];
    for i := 0 to NumCellVars
      invariant |cellVars| == i && forall k :: 0 <= k < i ==> cellVars[k] == ""
    {
      cellVars := cellVars + [""];
    }
    v := Variables(cellVars, sel);
  }

  /**
    One command run on the table (`cells`, printed with the delimiter `d`)
    with the argument `arg`: its state and what it writes to stderr.
    test reports its argument; print prints the table; irow and arow only
    check that their argument is the empty C string (strcmp with "").
   */
  function RunCommand(kind: Kind, arg: string, cells: seq<seq<string>>, d: char): (r: (State, string))
    ensures r.0 == Success || r.0 == ErrBadSyntax
    ensures kind == Test || kind == Print ==> r.0 == Success
  {
    match kind
    case Test => (Success, "test executed with arguments '" + CStr(arg) + "'\n")
    case Print => (Success, Render(cells, d))
    case IRow => (if At(arg, 0) != '\0' then ErrBadSyntax else Success, "")
    case ARow => (if At(arg, 0) != '\0' then ErrBadSyntax else Success, "")
  }

  /** The state and the output of the `k`-th command of `cmds`, run on its own argument. */
  function Outcome(cmds: seq<Command>, k: nat, cells: seq<seq<string>>, d: char): (State, string)
    requires k < |cmds| && cmds[k].argStr.Some?
  {
    RunCommand(cmds[k].kind, cmds[k].argStr.value, cells, d)
  }

  predicate ArgsSet(cmds: seq<Command>) {
    forall k :: 0 <= k < |cmds| ==> cmds[k].argStr.Some?
  }

  /**
    The loop of executeProgram after its first `n` iterations: the state of
    the last command run and everything written so far.  A command that
    fails stops the loop, so the commands after it do not run.
   */
  function Exec(cmds: seq<Command>, n: nat, cells: seq<seq<string>>, d: char): (State, string)
    requires n <= |cmds| && ArgsSet(cmds)
  {
    if n == 0 then (Success, "")
    else
      var before := Exec(cmds, n - 1, cells, d);
      if before.0 != Success then before
      else
        var now := Outcome(cmds, n - 1, cells, d);
        (now.0, before.1 + now.1)
  }

  /** Everything the first `n` commands write when each of them runs. */
  function Outputs(cmds: seq<Command>, n: nat, cells: seq<seq<string>>, d: char): string
    requires n <= |cmds| && ArgsSet(cmds)
  {
    if n == 0 then "" else Outputs(cmds, n - 1, cells, d) + Outcome(cmds, n - 1, cells, d).1
  }

  /** The commands before index `n` all succeed. */
  predicate AllSucceed(cmds: seq<Command>, n: nat, cells: seq<seq<string>>, d: char)
    requires n <= |cmds| && ArgsSet(cmds)
  {
    forall k :: 0 <= k < n ==> Outcome(cmds, k, cells, d).0 == Success
  }

  /**
    While every command succeeds the loop runs them all and writes all
    their output; it reports SUCCESS exactly when they all succeed.
   */
  lemma {:induction false} ExecAllSucceed(cmds: seq<Command>, n: nat, cells: seq<seq<string>>, d: char)
    requires n <= |cmds| && ArgsSet(cmds)
    ensures Exec(cmds, n, cells, d).0 == Success <==> AllSucceed(cmds, n, cells, d)
    ensures AllSucceed(cmds, n, cells, d) ==> Exec(cmds, n, cells, d).1 == Outputs(cmds, n, cells, d)
  {
    if n > 0 {
      ExecAllSucceed(cmds, n - 1, cells, d);
      if !AllSucceed(cmds, n - 1, cells, d) {
        var k :| 0 <= k < n - 1 && Outcome(cmds, k, cells, d).0 != Success;
        assert !AllSucceed(cmds, n, cells, d);
      }
    }
  }

  /**
    The first command that fails, the `k`-th, stops the loop: its state is
    the result and the output is that of the commands up to it.
   */
  lemma {:induction false} ExecStopsAtFirstFailure(cmds: seq<Command>, k: nat, n: nat, cells: seq<seq<string>>, d: char)
    requires k < n <= |cmds| && ArgsSet(cmds)
    requires AllSucceed(cmds, k, cells, d) && Outcome(cmds, k, cells, d).0 != Success
    ensures Exec(cmds, n, cells, d) == (Outcome(cmds, k, cells, d).0, Outputs(cmds, k + 1, cells, d))
  {
    if n == k + 1 {
      ExecAllSucceed(cmds, k, cells, d);
    } else {
      ExecStopsAtFirstFailure(cmds, k, n - 1, cells, d);
    }
  }

  /** Once a command has failed, later iterations change nothing. */
  lemma {:induction false} ExecStops(cmds: seq<Command>, n: nat, m: nat, cells: seq<seq<string>>, d: char)
    requires n <= m <= |cmds| && ArgsSet(cmds)
    requires Exec(cmds, n, cells, d).0 != Success
    ensures Exec(cmds, m, cells, d) == Exec(cmds, n, cells, d)
    decreases m - n
  {
    if n < m {
      ExecStops(cmds, n, m - 1, cells, d);
    }
  }

  /** irow and arow: ERR_BAD_SYNTAX exactly when the argument is not the empty C string; they print nothing. */
  lemma RowCommandChecksArgument(kind: Kind, arg: string, cells: seq<seq<string>>, d: char)
    requires kind == IRow || kind == ARow
    ensures RunCommand(kind, arg, cells, d).0 == ErrBadSyntax <==> CStr(arg) != ""
    ensures RunCommand(kind, arg, cells, d).0 == Success <==> CStr(arg) == ""
    ensures RunCommand(kind, arg, cells, d).1 == ""
  {
  }

  /**
    A command string that parseCommands accepts gives a program that
    executeProgram can run: at least one command, each with its argument.
   */
  lemma ParsedProgramRuns(cmdStr: string)
    requires ParseFrom(cmdStr, []).0 == Success
    ensures |ParseFrom(cmdStr, []).1| > 0 && ArgsSet(ParseFrom(cmdStr, []).1)
  {
    ParseFromShape(cmdStr, []);
  }

  /**
    executeProgram: the variables are constructed, then the commands run in
    order, each on the table with its own argument, until one fails or all
    have run.  The state returned is that of the last command run; the
    program must hold at least one command, since otherwise the C code
    returns an uninitialised state.  The table is not changed.
   */
  method ExecuteProgram(prog: Program, table: Table) returns (s: State, log: string)
    requires prog.Valid() && prog.len > 0 && ArgsSet(prog.cmds) && table.Valid()
    ensures (s, log) == Exec(prog.cmds, prog.len, table.cells, table.delim)
  {
    var variables, st := VariablesCtor();
    s, log := Success, "";
    var i: nat := 0;
    while i < prog.len
      invariant i <= prog.len
      invariant (s, log) == Exec(prog.cmds, i, table.cells, table.delim) && s == Success
    {
      var cmd := prog.cmds[i];
      var result := RunCommand(cmd.kind, cmd.argStr.value, table.cells, table.delim);
      s, log := result.0, log + result.1;
      if s != Success {
        ExecStops(prog.cmds, i + 1, prog.len, table.cells, table.delim);
        break;
      }
      i := i + 1;
    }
  }
}
