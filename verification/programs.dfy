/**
  Programs: the command list parsed from the command string (sps.c,
  program_ctor, addCommand and parseCommands, lines 256-287 and 583-638).
 */
module Programs {
  import opened CStrings
  import opened Types
  import opened Fields

  /** The command function a command runs. */
  datatype Kind = Test | Print | IRow | ARow

  /**
    A command: its name, the function it runs, and its argument string,
    which stays unset (`None`, a NULL pointer) until parsing stores it.
   */
  datatype Command = Command(name: string, kind: Kind, argStr: Option<string>)

  /** The known commands, in the order parseCommands tries them. */
  const Catalog: seq<Command> := [
    Command("test", Test, None),
    Command("print", Print, None),
    Command("irow", IRow, None),
    Command("arow", ARow, None)
  ]

  /** The command separator. */
  const Separators: string := ";"

  /** The first command of `cat`, from index `j` on, whose name `s` begins with. */
  function FindFrom(s: string, cat: seq<Command>, j: nat): Option<nat>
    requires j <= |cat|
    decreases |cat| - j
  {
    if j == |cat| then None
    else if Strbgn(s, cat[j].name) then Some(j)
    else FindFrom(s, cat, j + 1)
  }

  /**
    The search finds a command exactly when one of the names from `j` on
    matches, and then the first of them.
   */
  lemma {:induction false} FindFromFirst(s: string, cat: seq<Command>, j: nat)
    requires j <= |cat|
    ensures FindFrom(s, cat, j).Some? ==> j <= FindFrom(s, cat, j).value < |cat| && Strbgn(s, cat[FindFrom(s, cat, j).value].name)
    ensures FindFrom(s, cat, j).Some? ==> forall k :: j <= k < FindFrom(s, cat, j).value ==> !Strbgn(s, cat[k].name)
    ensures FindFrom(s, cat, j).None? <==> forall k :: j <= k < |cat| ==> !Strbgn(s, cat[k].name)
    decreases |cat| - j
  {
    if j < |cat| && !Strbgn(s, cat[j].name) {
      FindFromFirst(s, cat, j + 1);
    }
  }

  /** The command the unread text `s` starts with: the first match in catalog order. */
  function FindCommand(s: string): Option<nat> {
    FindFrom(s, Catalog, 0)
  }

  /** What the search of the catalog promises. */
  lemma FindCommandFirst(s: string)
    ensures FindCommand(s).Some? ==> FindCommand(s).value < |Catalog| && Strbgn(s, Catalog[FindCommand(s).value].name)
    ensures FindCommand(s).Some? ==> forall k :: 0 <= k < FindCommand(s).value ==> !Strbgn(s, Catalog[k].name)
    ensures FindCommand(s).None? <==> forall k :: 0 <= k < |Catalog| ==> !Strbgn(s, Catalog[k].name)
  {
    FindFromFirst(s, Catalog, 0);
  }

  lemma CatalogNames()
    ensures forall k :: 0 <= k < |Catalog| ==> 0 < |Catalog[k].name| && NoNul(Catalog[k].name)
    ensures forall k :: 0 <= k < |Catalog| ==> Catalog[k].argStr.None?
  {
  }

  /** Beginning with a name that does not start with NUL fixes the first byte. */
  lemma FirstByte(s: string, name: string)
    requires 0 < |name| && name[0] != '\0' && Strbgn(s, name)
    ensures At(s, 0) == name[0]
  {
    assert 0 < StrLen(name);
  }

  /**
    The known names start with four different letters, so at most one of
    them matches: trying them in catalog order finds the only match.
   */
  lemma OnlyOneMatch(s: string, j: nat, k: nat)
    requires j < |Catalog| && k < |Catalog|
    requires Strbgn(s, Catalog[j].name) && Strbgn(s, Catalog[k].name)
    ensures j == k
  {
    CatalogNames();
    FirstByte(s, Catalog[j].name);
    FirstByte(s, Catalog[k].name);
  }

  /** strlen of a known name is its length, which is not zero. */
  lemma NameLength(j: nat)
    requires j < |Catalog|
    ensures StrLen(Catalog[j].name) == |Catalog[j].name| > 0
  {
    CStrOfNoNul(Catalog[j].name);
  }

  /** The length of a matched name; what follows it is the argument. */
  lemma MatchedNameFits(s: string, j: nat)
    requires j < |Catalog| && Strbgn(s, Catalog[j].name)
    ensures 0 < |Catalog[j].name| <= |s|
  {
    NameLength(j);
    assert Catalog[j].name == CStr(Catalog[j].name) <= CStr(s);
  }

  /**
    parseCommands on the unread text `rest`, having parsed `acc`: no known
    command at the reading head is ERR_BAD_COMMANDS; otherwise the command
    is appended with the field after its name (decoded with `;` as the only
    delimiter) as its argument; reading stops with SUCCESS when that field
    was ended by the end of the string, and otherwise goes on after the
    byte that ended it.
   */
  function ParseFrom(rest: string, acc: seq<Command>): (State, seq<Command>)
    decreases |rest|
  {
    match FindCommand(rest)
    case None => (ErrBadCommands, acc)
    case Some(j) =>
      FindCommandFirst(rest);
      MatchedNameFits(rest, j);
      var args := rest[|Catalog[j].name|..];
      var d := Decode(args, Separators);
      var cmds := acc + [Catalog[j].(argStr := Some(CStr(Text(d))))];
      if At(args, Shift(d)) == '\0' then (Success, cmds)
      else ParseFrom(args[Shift(d) + 1..], cmds)
  }

  /**
    One command parsed, with the end of the string after it: the unread
    text `rest` starts with the known command `j`, followed by the argument
    text `args`, whose field decodes to `d` and is ended by NUL.
   */
  lemma ParseLast(rest: string, acc: seq<Command>, j: nat, args: string, d: FieldScan)
    requires FindCommand(rest) == Some(j)
    requires j < |Catalog| && |Catalog[j].name| <= |rest| && args == rest[|Catalog[j].name|..]
    requires d == Decode(args, Separators) && At(args, Shift(d)) == '\0'
    ensures ParseFrom(rest, acc) == (Success, acc + [Catalog[j].(argStr := Some(CStr(Text(d))))])
  {
  }

  /**
    One command parsed, with more text after it: as in ParseLast, but the
    field is ended by another byte, and parsing goes on with `next`, the
    text after that byte.
   */
  lemma ParseNext(rest: string, acc: seq<Command>, j: nat, args: string, d: FieldScan, next: string)
    requires FindCommand(rest) == Some(j)
    requires j < |Catalog| && |Catalog[j].name| <= |rest| && args == rest[|Catalog[j].name|..]
    requires d == Decode(args, Separators) && At(args, Shift(d)) != '\0'
    requires Shift(d) < |args| && next == args[Shift(d) + 1..]
    ensures ParseFrom(rest, acc) == ParseFrom(next, acc + [Catalog[j].(argStr := Some(CStr(Text(d))))])
  {
  }

  /** A command as parsing leaves it: a known command whose argument is set. */
  predicate Parsed(cmd: Command) {
    cmd.argStr.Some? && cmd.(argStr := None) in Catalog
  }

  /**
    Parsing only appends, and only parsed commands; it reports SUCCESS or
    ERR_BAD_COMMANDS, and SUCCESS only after appending at least one command.
   */
  lemma {:induction false} ParseFromShape(rest: string, acc: seq<Command>)
    ensures ParseFrom(rest, acc).0 == Success || ParseFrom(rest, acc).0 == ErrBadCommands
    ensures acc <= ParseFrom(rest, acc).1
    ensures forall k :: |acc| <= k < |ParseFrom(rest, acc).1| ==> Parsed(ParseFrom(rest, acc).1[k])
    ensures ParseFrom(rest, acc).0 == Success ==> |ParseFrom(rest, acc).1| > |acc|
    decreases |rest|
  {
    match FindCommand(rest)
    case None =>
    case Some(j) =>
      FindCommandFirst(rest);
      MatchedNameFits(rest, j);
      CatalogNames();
      var args := rest[|Catalog[j].name|..];
      var d := Decode(args, Separators);
      var cmds := acc + [Catalog[j].(argStr := Some(CStr(Text(d))))];
      assert cmds[|acc|].(argStr := None) == Catalog[j];
      if At(args, Shift(d)) == '\0' {
        ParseLast(rest, acc, j, args, d);
      } else {
        ParseNext(rest, acc, j, args, d, args[Shift(d) + 1..]);
        ParseFromShape(args[Shift(d) + 1..], cmds);
      }
  }

  /** The text at the reading head begins with a known name: that command is the one found. */
  lemma FindsName(s: string, j: nat)
    requires j < |Catalog| && Strbgn(s, Catalog[j].name)
    ensures FindCommand(s) == Some(j)
  {
    var r := FindCommand(s);
    FindCommandFirst(s);
    if r.Some? {
      OnlyOneMatch(s, j, r.value);
    }
  }

  /** An empty command string holds no command: ERR_BAD_COMMANDS, nothing appended. */
  lemma EmptyRejected(acc: seq<Command>)
    ensures ParseFrom("", acc) == (ErrBadCommands, acc)
  {
    CatalogNames();
    forall k | 0 <= k < |Catalog|
      ensures !Strbgn("", Catalog[k].name)
    {
      NameLength(k);
    }
    FindCommandFirst("");
  }

  /** A known name at the start of the text is found, and what follows it is the argument text. */
  lemma NameFound(j: nat, args: string)
    requires j < |Catalog|
    ensures FindCommand(Catalog[j].name + args) == Some(j)
    ensures |Catalog[j].name| <= |Catalog[j].name + args| && (Catalog[j].name + args)[|Catalog[j].name|..] == args
  {
    var name := Catalog[j].name;
    CatalogNames();
    CStrOfNoNul(name);
    assert name <= CStr(name + args);
    FindsName(name + args, j);
  }

  /** A plain argument followed by `;` or a newline decodes to itself, ending at the separator. */
  lemma PlainArgument(arg: string, sep: char, more: string)
    requires sep == ';' || sep == '\n'
    requires forall k :: 0 <= k < |arg| ==> PlainByte(arg[k], Separators)
    ensures Decode(arg + [sep] + more, Separators) == Field(arg, |arg|) && CStr(arg) == arg
    ensures At(arg + [sep] + more, |arg|) == sep && (arg + [sep] + more)[|arg| + 1..] == more
  {
    var args := arg + [sep] + more;
    assert args[..|arg|] == arg;
    CStrOfNoNul(Separators);
    PlainField(args, Separators, |arg|);
    CStrOfNoNul(arg);
  }

  /** A plain argument that runs to the end of the string decodes to itself. */
  lemma PlainLastArgument(arg: string)
    requires forall k :: 0 <= k < |arg| ==> PlainByte(arg[k], Separators)
    ensures Decode(arg, Separators) == Field(arg, |arg|) && CStr(arg) == arg && At(arg, |arg|) == '\0'
  {
    PlainField(arg, Separators, |arg|);
    assert arg[..|arg|] == arg;
    CStrOfNoNul(arg);
  }

  /**
    A known name followed by a plain argument and a `;` or a newline: the
    command is appended with that argument and parsing goes on after the
    separator.
   */
  lemma PlainCommand(j: nat, arg: string, sep: char, more: string, acc: seq<Command>)
    requires j < |Catalog| && (sep == ';' || sep == '\n')
    requires forall k :: 0 <= k < |arg| ==> PlainByte(arg[k], Separators)
    ensures ParseFrom(Catalog[j].name + arg + [sep] + more, acc)
      == ParseFrom(more, acc + [Catalog[j].(argStr := Some(arg))])
  {
    var args := arg + [sep] + more;
    var rest := Catalog[j].name + args;
    assert Catalog[j].name + arg + [sep] + more == rest;
    NameFound(j, args);
    PlainArgument(arg, sep, more);
    ParseNext(rest, acc, j, args, Decode(args, Separators), more);
  }

  /** A known name followed by a plain argument that runs to the end: SUCCESS. */
  lemma LastCommand(j: nat, arg: string, acc: seq<Command>)
    requires j < |Catalog|
    requires forall k :: 0 <= k < |arg| ==> PlainByte(arg[k], Separators)
    ensures ParseFrom(Catalog[j].name + arg, acc) == (Success, acc + [Catalog[j].(argStr := Some(arg))])
  {
    NameFound(j, arg);
    PlainLastArgument(arg);
    ParseLast(Catalog[j].name + arg, acc, j, arg, Decode(arg, Separators));
  }

  /**
    A `;` must be followed by another command: a string ending in one is
    rejected, although the commands before it have been appended.
   */
  lemma TrailingSeparatorRejected(j: nat, arg: string, acc: seq<Command>)
    requires j < |Catalog|
    requires forall k :: 0 <= k < |arg| ==> PlainByte(arg[k], Separators)
    ensures ParseFrom(Catalog[j].name + arg + ";", acc)
      == (ErrBadCommands, acc + [Catalog[j].(argStr := Some(arg))])
  {
    PlainCommand(j, arg, ';', "", acc);
    assert Catalog[j].name + arg + ";" == Catalog[j].name + arg + [';'] + "";
    EmptyRejected(acc + [Catalog[j].(argStr := Some(arg))]);
  }

  /**
    A malformed argument makes parseString return 0, so the reading head
    moves one byte into the argument and parsing goes on from there: after
    a known name, a quote that is never closed is not an error, and the
    text after the quote is parsed as further commands.
   */
  lemma UnclosedQuoteReparsed(j: nat, body: string, acc: seq<Command>)
    requires j < |Catalog|
    requires forall k :: 0 <= k < |body| ==> body[k] != '"' && body[k] != '\n'
    ensures var d := Decode("\"" + body, Separators);
      && d.Malformed?
      && ParseFrom(Catalog[j].name + "\"" + body, acc)
         == ParseFrom(body, acc + [Catalog[j].(argStr := Some(CStr(Text(d))))])
  {
    var name := Catalog[j].name;
    var args := "\"" + body;
    var rest := name + args;
    assert rest[|name|..] == args;
    assert args[1..] == body;
    assert name + "\"" + body == rest;
    CatalogNames();
    CStrOfNoNul(name);
    assert name <= CStr(rest);
    FindsName(rest, j);
    UnclosedQuoteFails(args, Separators, 1, false, "");
    var d := Decode(args, Separators);
    assert d == Scan(args, Separators, 1, true, false, "");
    ParseNext(rest, acc, j, args, d, body);
  }

  lemma NameHasNoQuote(k: nat)
    requires k < |Catalog|
    ensures forall i :: 0 <= i < |Catalog[k].name| ==> Catalog[k].name[i] != '"' && Catalog[k].name[i] != '\n'
  {
  }

  /** A known name alone, after one command: SUCCESS with that command appended with the empty argument. */
  lemma NameAloneAfter(k: nat, first: Command)
    requires k < |Catalog|
    ensures ParseFrom(Catalog[k].name, [first]) == (Success, [first, Catalog[k].(argStr := Some(""))])
  {
    var second := Catalog[k].(argStr := Some(""));
    LastCommand(k, "", [first]);
    assert Catalog[k].name + "" == Catalog[k].name;
    assert [first] + [second] == [first, second];
  }

  /**
    For instance `irow"arow` is accepted as two commands: irow, whose
    argument is malformed, and arow with the empty argument.
   */
  lemma CommandInsideUnclosedQuote(j: nat, k: nat)
    requires j < |Catalog| && k < |Catalog|
    ensures var r := ParseFrom(Catalog[j].name + "\"" + Catalog[k].name, []);
      && r.0 == Success && |r.1| == 2
      && r.1[0].kind == Catalog[j].kind && r.1[1] == Catalog[k].(argStr := Some(""))
  {
    var body := Catalog[k].name;
    NameHasNoQuote(k);
    UnclosedQuoteReparsed(j, body, []);
    var first := Catalog[j].(argStr := Some(CStr(Text(Decode("\"" + body, Separators)))));
    assert [] + [first] == [first];
    NameAloneAfter(k, first);
  }

  class Program {
    var len: nat
    var cmds: seq<Command>

    ghost predicate Valid()
      reads this
    {
      len == |cmds|
    }

    /** program_ctor: no commands. */
    constructor ()
      ensures Valid() && cmds == []
    {
      len := 0;
      cmds := [];
    }

    /** addCommand: a copy of `cmd`, with its argument not set yet, becomes the last command. */
    method AddCommand(cmd: Command) returns (s: State)
      requires Valid()
      modifies this
      ensures Valid() && cmds == old(cmds) + [cmd.(argStr := None)]
      ensures s == Success
    {
      len := len + 1;
      cmds := cmds + [cmd.(argStr := None)];
      s := Success;
    }

    /** The assignment of parseCommands to the last command's argStr. */
    method SetLastArgument(arg: string)
      requires Valid() && len > 0
      modifies this`cmds
      ensures Valid() && cmds == old(cmds)[len - 1 := old(cmds)[len - 1].(argStr := Some(CStr(arg)))]
    {
      cmds := cmds[len - 1 := cmds[len - 1].(argStr := Some(CStr(arg)))];
    }
  }

  /**
    The argument step of parseCommands: the field after the command's name
    is decoded up to the next `;` and stored as the last command's
    argument; returns the decoder's shift and the byte that ended the field.
   */
  method ReadArgument(prog: Program, args: string) returns (shift: nat, ender: char)
    requires prog.Valid() && prog.len > 0
    modifies prog`cmds
    ensures var d := Decode(args, Separators);
      && prog.Valid()
      && prog.cmds == old(prog.cmds)[..prog.len - 1] + [old(prog.cmds)[prog.len - 1].(argStr := Some(CStr(Text(d))))]
      && shift == Shift(d) && ender == At(args, shift)
  {
    var argBuf, sh := ParseString(args, Separators);
    prog.SetLastArgument(argBuf);
    shift, ender := sh, At(args, sh);
  }

  /**
    The inner loop of parseCommands: the known commands are tried in
    catalog order at the reading head, and the first that `s` begins with
    is taken.
   */
  method MatchCommand(s: string) returns (found: bool, j: nat)
    ensures found <==> FindCommand(s).Some?
    ensures found ==> j < |Catalog| && FindCommand(s) == Some(j)
  {
    found, j := false, 0;
    for k := 0 to |Catalog|
      invariant !found
      invariant FindFrom(s, Catalog, k) == FindCommand(s)
    {
      if Strbgn(s, Catalog[k].name) {
        found, j := true, k;
        return;
      }
    }
  }

  /**
    The body of parseCommands' loop once the known command `j` has matched
    at `start`: the reading head moves past its name, the command is
    appended, its argument is read, and the head moves past the byte that
    ended the argument, which is returned as `ender`.
   */
  method TakeCommand(prog: Program, cmdStr: string, start: nat, j: nat) returns (strIndex: nat, ender: char)
    requires prog.Valid() && start <= |cmdStr| && j < |Catalog|
    requires FindCommand(cmdStr[start..]) == Some(j)
    modifies prog
    ensures prog.Valid() && start + |Catalog[j].name| <= |cmdStr|
    ensures prog.cmds == old(prog.cmds) + [Catalog[j].(argStr := Some(CStr(Text(Decode(cmdStr[start + |Catalog[j].name|..], Separators)))))]
    ensures ender == '\0' ==> ParseFrom(cmdStr[start..], old(prog.cmds)) == (Success, prog.cmds)
    ensures ender != '\0' ==>
      start < strIndex <= |cmdStr| && ParseFrom(cmdStr[start..], old(prog.cmds)) == ParseFrom(cmdStr[strIndex..], prog.cmds)
  {
    ghost var rest, acc := cmdStr[start..], prog.cmds;
    FindCommandFirst(rest);
    NameLength(j);
    MatchedNameFits(rest, j);
    SuffixOfSuffix(cmdStr, start, |Catalog[j].name|);
    strIndex := start + StrLen(Catalog[j].name);
    var st := prog.AddCommand(Catalog[j]);
    var args := cmdStr[strIndex..];
    assert args == rest[|Catalog[j].name|..];
    var shift;
    shift, ender := ReadArgument(prog, args);
    ghost var d := Decode(args, Separators);
    assert prog.cmds == acc + [Catalog[j].(argStr := Some(CStr(Text(d))))];
    ghost var nameEnd := strIndex;
    strIndex := strIndex + shift + 1;
    if ender == '\0' {
      assert ParseFrom(rest, acc) == (Success, prog.cmds) by {
        ParseLast(rest, acc, j, args, d);
      }
    } else {
      assert ParseFrom(rest, acc) == ParseFrom(cmdStr[strIndex..], prog.cmds) by {
        SuffixOfSuffix(cmdStr, nameEnd, shift + 1);
        ParseNext(rest, acc, j, args, d, cmdStr[strIndex..]);
      }
    }
  }

  /**
    parseCommands: at the reading head, try the known commands in order;
    append the first that matches, store its argument, and go on until the
    string ends.
   */
  method ParseCommands(prog: Program, cmdStr: string) returns (s: State)
    requires prog.Valid()
    modifies prog
    ensures prog.Valid() && (s, prog.cmds) == ParseFrom(cmdStr, old(prog.cmds))
  {
    var strIndex: nat := 0;
    ghost var outcome := ParseFrom(cmdStr, prog.cmds);
    while true
      invariant prog.Valid() && strIndex <= |cmdStr|
      invariant ParseFrom(cmdStr[strIndex..], prog.cmds) == outcome
      decreases |cmdStr| - strIndex
    {
      var found, j := MatchCommand(cmdStr[strIndex..]);
      if !found {
        return ErrBadCommands;
      }
      // ender: the byte that ended the argument, cmdStr[strIndex - 1] once the head is past it
      var ender;
      strIndex, ender := TakeCommand(prog, cmdStr, strIndex, j);
      if ender == ';' {
        continue;
      }
      if ender == '\0' {
        break;
      }
    }
    return Success;
  }
}
