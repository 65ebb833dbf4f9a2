/** Builtin dispatch and the decision execute_command takes before it forks
    (src/project.c:120-151, 285-298, 330-334).  chdir(d) == 0 is the oracle
    chdirOk(d); access(p, X_OK) == 0 is the oracle executable(p). */
module Executor {
  import opened CString
  import opened Parser
  import opened Path

  /** What handle_builtin does with a command. */
  datatype Builtin =
    | NotBuiltin                        // returns 0
    | Exit                              // exit(0): the shell terminates
    | UsageError                        // error reported, returns 1
    | Cd(dir: string, ok: bool)         // chdir(dir) attempted; error reported when !ok
    | SetPath(newDirs: seq<string>)     // update_path(argv + 1, count)

  /** What execute_command does with a command up to the fork. */
  datatype Outcome =
    | Invalid                           // no argv[0]: returns -1
    | Handled(builtin: Builtin)         // a builtin ran: returns 0
    | NotFound                          // unresolved: error reported, returns -1
    | Launch(path: string, argv: seq<string>, redir: Option<string>, waitNow: bool)

  /** An error message is written for this builtin outcome. */
  predicate ReportsError(b: Builtin) {
    b.UsageError? || (b.Cd? && !b.ok)
  }

  /** The argument checks of handle_builtin (lines 120-151). */
  function BuiltinOf(argv: seq<string>, chdirOk: string -> bool): Builtin {
    if argv == [] then NotBuiltin
    else if argv[0] == "exit" then (if |argv| > 1 then UsageError else Exit)
    else if argv[0] == "cd" then (if |argv| != 2 then UsageError else Cd(argv[1], chdirOk(argv[1])))
    else if argv[0] == "path" then SetPath(argv[1..])
    else NotBuiltin
  }

  /** execute_command up to the fork (lines 285-298, 330-334), given the
      search path in force when it is called. */
  function Decide(cmd: Command, dirs: seq<string>, executable: string -> bool, chdirOk: string -> bool): Outcome {
    if cmd.argv == [] then Invalid
    else if BuiltinOf(cmd.argv, chdirOk) != NotBuiltin then Handled(BuiltinOf(cmd.argv, chdirOk))
    else match Resolve(dirs, cmd.argv[0], executable)
      case None => NotFound
      case Some(p) => Launch(p, cmd.argv, cmd.redir, !cmd.isBackground)
  }

  /** exit, cd and path are always handled, whatever their arguments and
      whatever chdir does; every other name is not a builtin. */
  lemma BuiltinNames(argv: seq<string>, chdirOk: string -> bool)
    requires argv != []
    ensures BuiltinOf(argv, chdirOk) != NotBuiltin <==> argv[0] in ["exit", "cd", "path"]
  {
  }

  /** exit with any argument is a usage error and does not terminate. */
  lemma ExitArity(argv: seq<string>, chdirOk: string -> bool)
    requires argv != [] && argv[0] == "exit"
    ensures BuiltinOf(argv, chdirOk) == Exit <==> |argv| == 1
    ensures |argv| > 1 ==> BuiltinOf(argv, chdirOk) == UsageError
  {
  }

  /** cd needs exactly one argument; with any other count it is a usage
      error and chdir is not consulted. */
  lemma CdArity(argv: seq<string>, chdirOk1: string -> bool, chdirOk2: string -> bool)
    requires argv != [] && argv[0] == "cd"
    ensures BuiltinOf(argv, chdirOk1).Cd? <==> |argv| == 2
    ensures |argv| != 2 ==> BuiltinOf(argv, chdirOk1) == UsageError == BuiltinOf(argv, chdirOk2)
    ensures |argv| == 2 ==> BuiltinOf(argv, chdirOk1) == Cd(argv[1], chdirOk1(argv[1]))
  {
  }

  /** handle_builtin prints the error for exit with arguments, for cd with
      other than one argument, and for cd whose chdir fails, and for
      nothing else. */
  lemma ErrorReports(argv: seq<string>, chdirOk: string -> bool)
    ensures ReportsError(BuiltinOf(argv, chdirOk)) <==>
      (argv != [] &&
       ((argv[0] == "exit" && |argv| > 1) || (argv[0] == "cd" && (|argv| != 2 || !chdirOk(argv[1])))))
  {
  }

  /** A builtin is decided without looking at the search path or at the
      executable oracle: resolution is tried only for other names. */
  lemma BuiltinsNotResolved(cmd: Command, dirs1: seq<string>, dirs2: seq<string>,
                            executable1: string -> bool, executable2: string -> bool, chdirOk: string -> bool)
    requires cmd.argv != [] && BuiltinOf(cmd.argv, chdirOk) != NotBuiltin
    ensures Decide(cmd, dirs1, executable1, chdirOk) == Decide(cmd, dirs2, executable2, chdirOk)
    ensures Decide(cmd, dirs1, executable1, chdirOk) == Handled(BuiltinOf(cmd.argv, chdirOk))
  {
  }

  /** A launch runs the command's own argv and redirection from an
      executable path that resolution found for argv[0], and waits for the
      child exactly when the command is not in the background. */
  lemma LaunchShape(cmd: Command, dirs: seq<string>, executable: string -> bool, chdirOk: string -> bool)
    requires Decide(cmd, dirs, executable, chdirOk).Launch?
    ensures var o := Decide(cmd, dirs, executable, chdirOk);
      o.argv == cmd.argv && o.redir == cmd.redir && o.waitNow == !cmd.isBackground &&
      executable(o.path) && cmd.argv[0] !in ["exit", "cd", "path"] &&
      ('/' in cmd.argv[0] ==> o.path == cmd.argv[0]) &&
      ('/' !in cmd.argv[0] ==> exists k :: 0 <= k < |dirs| && o.path == dirs[k] + "/" + cmd.argv[0])
  {
    ResolveSound(dirs, cmd.argv[0], executable);
  }

  /** execute_command fails (returns -1 with an error) on an external name
      exactly when no candidate is executable. */
  lemma NotFoundExactly(cmd: Command, dirs: seq<string>, executable: string -> bool, chdirOk: string -> bool)
    requires cmd.argv != [] && cmd.argv[0] !in ["exit", "cd", "path"] && '/' !in cmd.argv[0]
    ensures Decide(cmd, dirs, executable, chdirOk) == NotFound <==>
      forall k :: 0 <= k < |dirs| ==> !executable(dirs[k] + "/" + cmd.argv[0])
  {
    ResolveNone(dirs, cmd.argv[0], executable);
  }

  /** With the initial search path, an external name without '/' runs as
      /bin/name when that is executable and is not found otherwise. */
  lemma InitialPathLookup(cmd: Command, executable: string -> bool, chdirOk: string -> bool)
    requires cmd.argv != [] && cmd.argv[0] !in ["exit", "cd", "path"] && '/' !in cmd.argv[0]
    ensures Decide(cmd, ["/bin"], executable, chdirOk) ==
      if executable("/bin/" + cmd.argv[0])
      then Launch("/bin/" + cmd.argv[0], cmd.argv, cmd.redir, !cmd.isBackground)
      else NotFound
  {
    assert "/bin" + "/" + cmd.argv[0] == "/bin/" + cmd.argv[0];
    if !executable("/bin/" + cmd.argv[0]) {
      NotFoundExactly(cmd, ["/bin"], executable, chdirOk);
    }
  }

  /** handle_builtin (lines 120-151) against the search path held in table. */
  method HandleBuiltin(table: PathTable, argv: seq<string>, chdirOk: string -> bool) returns (handled: bool, b: Builtin)
    modifies table
    ensures b == BuiltinOf(argv, chdirOk) && handled == (b != NotBuiltin)
    ensures table.dirs == if b.SetPath? then b.newDirs else old(table.dirs)
  {
    if |argv| == 0 {
      return false, NotBuiltin;
    }
    if argv[0] == "exit" {
      if |argv| > 1 {
        return true, UsageError;
      }
      return true, Exit;
    }
    if argv[0] == "cd" {
      if |argv| < 2 || |argv| > 2 {
        return true, UsageError;
      }
      var ok := chdirOk(argv[1]);
      return true, Cd(argv[1], ok);
    }
    if argv[0] == "path" {
      var count := 0;
      while count + 1 < |argv|
        invariant count + 1 <= |argv|
      {
        count := count + 1;
      }
      assert argv[1..count + 1] == argv[1..];
      table.Update(argv[1..count + 1]);
      return true, SetPath(argv[1..]);
    }
    return false, NotBuiltin;
  }

  /** execute_command (lines 285-298, 330-334) up to the fork. */
  method ExecuteCommand(table: PathTable, cmd: Command, executable: string -> bool, chdirOk: string -> bool) returns (o: Outcome)
    modifies table
    ensures o == Decide(cmd, old(table.dirs), executable, chdirOk)
    ensures table.dirs == if o.Handled? && o.builtin.SetPath? then o.builtin.newDirs else old(table.dirs)
  {
    if |cmd.argv| == 0 {
      return Invalid;
    }
    var handled, b := HandleBuiltin(table, cmd.argv, chdirOk);
    if handled {
      return Handled(b);
    }
    var path := table.FindExecutable(cmd.argv[0], executable);
    if path.None? {
      return NotFound;
    }
    return Launch(path.value, cmd.argv, cmd.redir, !cmd.isBackground);
  }

  /** The search path after a sequence of path builtins run one after the
      other from the initial one is the argument list of the last of them,
      and "/bin" when there was none. */
  method PathSession(cmds: seq<Command>, executable: string -> bool, chdirOk: string -> bool) returns (dirs: seq<string>)
    requires forall i :: 0 <= i < |cmds| ==> cmds[i].argv != [] && cmds[i].argv[0] == "path"
    ensures dirs == if cmds == [] then ["/bin"] else cmds[|cmds| - 1].argv[1..]
  {
    var table := new PathTable();
    for i := 0 to |cmds|
      invariant table.dirs == if i == 0 then ["/bin"] else cmds[i - 1].argv[1..]
    {
      var o := ExecuteCommand(table, cmds[i], executable, chdirOk);
    }
    dirs := table.dirs;
  }

  /** The trailing-newline strip of the batch loop (lines 365-367). */
  function StripNewline(line: string): (r: string)
    ensures line == r || line == r + "\n"
    ensures |line| > 0 && line[|line| - 1] == '\n' ==> r + "\n" == line
    ensures (|line| == 0 || line[|line| - 1] != '\n') ==> r == line
  {
    if |line| > 0 && line[|line| - 1] == '\n' then line[..|line| - 1] else line
  }
}
