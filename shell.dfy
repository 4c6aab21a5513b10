/**
 * The shell of ConsoleApplication.c: its command record, the three routines
 * that fill and read the argument vector and the directory table in place,
 * and the main loop's decision between skipping, executing and terminating.
 *
 * The constants of minishell.h are parameters: `whitespace` is WHITESPACE,
 * `maxArgs` is MAX_ARGS, `maxPaths` is MAX_PATHS.  The PATH string and each
 * input line are parameters in place of getenv and fgets.
 */
module MiniShell {
  import opened Wrappers
  import opened Strsep
  import opened Vectors
  import opened PathSearch

  /** struct command_t: the resolved name, argc and the NULL-terminated argument vector. */
  class Command {
    var name: Option<String>
    var argc: int
    const argv: array<Option<String>>

    /** `{ NULL, 0, { NULL } }` with an argument vector of `capacity` slots. */
    constructor (capacity: nat)
      ensures name == None && argc == 0
      ensures fresh(argv) && argv.Length == capacity
      ensures forall i :: 0 <= i < capacity ==> argv[i] == None
    {
      name := None;
      argc := 0;
      argv := new Option<String>[capacity](_ => None);
    }
  }

  /**
   * parseCommand: the non-empty whitespace-separated fields of the line go
   * into argv[0..n) in order, argv[n] becomes NULL, argc becomes n - 1 (the
   * source decrements argn before storing it) and the result is 0.  Slots
   * after argv[n] keep what an earlier line left there.
   */
  method ParseCommand(cmdLine: String, command: Command, whitespace: set<char>) returns (rc: int)
    requires |Tokens(cmdLine, whitespace)| < command.argv.Length
    modifies command, command.argv
    ensures rc == 0
    ensures var n := |Tokens(cmdLine, whitespace)|;
      && command.argc == n - 1
      && (forall i :: 0 <= i < n ==> command.argv[i] == Some(Tokens(cmdLine, whitespace)[i]))
      && command.argv[n] == None
      && (forall i :: n < i < command.argv.Length ==> command.argv[i] == old(command.argv[i]))
    ensures command.name == old(command.name)
  {
    var argn := 0;
    var rest: Option<String> := Some(cmdLine);
    ghost var stored: seq<String> := [];
    ghost var tokens := Tokens(cmdLine, whitespace);
    while rest.Some?
      invariant tokens == stored + NonEmpty(Remaining(rest, whitespace))
      invariant argn == |stored|
      invariant forall i :: 0 <= i < argn ==> command.argv[i] == Some(stored[i])
      invariant forall i :: argn <= i < command.argv.Length ==> command.argv[i] == old(command.argv[i])
      modifies command.argv
      decreases if rest.Some? then |rest.value| + 1 else 0
    {
      var step := StrSep(rest.value, whitespace);
      var buffer := step.0;
      WordsStep(stored, rest.value, whitespace);
      if |buffer| > 0 {
        command.argv[argn] := Some(buffer);
        argn := argn + 1;
        stored := stored + [buffer];
      }
      rest := step.1;
    }
    assert tokens == stored;
    command.argv[argn] := None;
    argn := argn - 1;
    command.argc := argn;
    return 0;
  }

  /** The `:`-separated fields of a PATH string, empty ones included. */
  function PathSegments(path: String): seq<String>
  {
    Split(path, {':'})
  }

  /** PATH segments written out with colons are read back in order and count, empty ones included. */
  lemma PathSegmentsOfJoin(dirs: seq<String>)
    requires |dirs| >= 1
    requires forall k :: 0 <= k < |dirs| ==> NoDelim(dirs[k], {':'})
    ensures PathSegments(Join(dirs, ':')) == dirs
  {
    SplitJoin(dirs, ':', {':'});
  }

  /** A leading colon, a doubled colon and a trailing colon each give an empty segment. */
  lemma PathSegmentsKeepEmpty()
    ensures PathSegments(":/bin::") == ["", "/bin", "", ""]
  {
    var dirs := ["", "/bin", "", ""];
    assert Join(dirs, ':') == ":/bin::";
    assert NoDelim("/bin", {':'});
    PathSegmentsOfJoin(dirs);
  }

  /**
   * parsePath: slots 0..maxArgs-1 of dirs become NULL, then the PATH
   * segments are stored from slot 0 on, empty ones included.  A segment that
   * arrives when more than maxArgs are already stored makes it return 1, so
   * at most maxArgs + 1 are stored and those stay; otherwise it returns 0.
   */
  method ParsePath(dirs: array<Option<String>>, pathEnvVar: String, maxArgs: nat) returns (rc: int)
    requires maxArgs <= dirs.Length
    requires Min(|PathSegments(pathEnvVar)|, maxArgs + 1) <= dirs.Length
    modifies dirs
    ensures var segs := PathSegments(pathEnvVar);
      var k := Min(|segs|, maxArgs + 1);
      && (rc == if |segs| > maxArgs + 1 then 1 else 0)
      && (forall i :: 0 <= i < k ==> dirs[i] == Some(segs[i]))
      && (forall i :: k <= i < maxArgs ==> dirs[i] == None)
      && (forall i :: Max(k, maxArgs) <= i < dirs.Length ==> dirs[i] == old(dirs[i]))
  {
    for i := 0 to maxArgs
      invariant forall j :: 0 <= j < i ==> dirs[j] == None
      invariant forall j :: i <= j < dirs.Length ==> dirs[j] == old(dirs[j])
    {
      dirs[i] := None;
    }

    ghost var segs := PathSegments(pathEnvVar);
    var parsedTokens := 0;
    var rest: Option<String> := Some(pathEnvVar);
    ghost var done: seq<String> := [];
    while rest.Some?
      invariant segs == done + Remaining(rest, {':'})
      invariant parsedTokens == |done| <= maxArgs + 1
      invariant forall j :: 0 <= j < parsedTokens ==> dirs[j] == Some(done[j])
      invariant forall j :: parsedTokens <= j < maxArgs ==> dirs[j] == None
      invariant forall j :: Max(parsedTokens, maxArgs) <= j < dirs.Length ==> dirs[j] == old(dirs[j])
      modifies dirs
      decreases if rest.Some? then |rest.value| + 1 else 0
    {
      var step := StrSep(rest.value, {':'});
      var token := step.0;
      assert segs == done + [token] + Remaining(step.1, {':'}) by {
        RemainingStep(rest.value, {':'});
      }
      if parsedTokens > maxArgs {
        assert forall j :: 0 <= j < parsedTokens ==> segs[j] == done[j];
        return 1;
      }
      dirs[parsedTokens] := Some(token);
      parsedTokens := parsedTokens + 1;
      done := done + [token];
      rest := step.1;
    }
    assert segs == done;
    return 0;
  }

  /**
   * When PATH has fewer than maxArgs segments, parsePath leaves a NULL right
   * after them, so lookupPath searches exactly those segments (at most
   * maxPaths of them).
   */
  lemma TableOfShortPath(dirs: seq<Option<String>>, segs: seq<String>, maxArgs: nat, maxPaths: nat)
    requires |segs| < maxArgs <= |dirs|
    requires forall i :: 0 <= i < |segs| ==> dirs[i] == Some(segs[i])
    requires dirs[|segs|] == None
    ensures LiveDirs(dirs, maxPaths) == segs[..Min(|segs|, maxPaths)]
  {
    var bound := Min(maxPaths, |dirs|);
    if maxPaths <= |segs| {
      UntilNullFull(dirs[..bound], segs[..maxPaths]);
    } else {
      UntilNullTerminated(dirs[..bound], segs);
      assert segs[..|segs|] == segs;
    }
  }

  /**
   * lookupPath: argv[0] verbatim when it starts with '/', then "exit"
   * verbatim, then the first table directory (before the first NULL slot, at
   * most maxPaths of them) whose candidate passes the access check, else NULL.
   */
  method LookupPath(argv: array<Option<String>>, dir: array<Option<String>>, maxPaths: nat, executable: set<String>)
    returns (result: Option<String>)
    requires argv.Length > 0 && argv[0].Some?
    requires maxPaths <= dir.Length || None in dir[..]
    ensures result == Resolve(argv[0].value, LiveDirs(dir[..], maxPaths), executable)
  {
    var name := argv[0].value;
    if |name| > 0 && name[0] == '/' {
      return Some(name);
    }
    if name == "exit" {
      return Some(name);
    }
    ghost var bound := Min(maxPaths, dir.Length);
    ghost var seen: seq<String> := [];
    var i := 0;
    while i < maxPaths
      invariant i <= bound
      invariant |seen| == i
      invariant forall j :: 0 <= j < i ==> dir[j] == Some(seen[j])
      invariant Search(seen, name, executable).None?
    {
      assert i < dir.Length;
      if dir[i].None? {
        assert LiveDirs(dir[..], maxPaths) == seen by {
          UntilNullTerminated(dir[..bound], seen);
        }
        return None;
      }
      var pName := Candidate(dir[i].value, name);
      if pName in executable {
        assert Search(LiveDirs(dir[..], maxPaths), name, executable) == Some(pName) by {
          var front := dir[..i + 1];
          assert dir[..bound] == front + dir[i + 1..bound];
          UntilNullFull(front, seen + [dir[i].value]);
          UntilNullAppend(front, dir[i + 1..bound]);
          SearchAppend(seen + [dir[i].value], UntilNull(dir[i + 1..bound]), name, executable);
          SearchAppend(seen, [dir[i].value], name, executable);
        }
        return Some(pName);
      }
      SearchAppend(seen, [dir[i].value], name, executable);
      seen := seen + [dir[i].value];
      i := i + 1;
    }
    assert LiveDirs(dir[..], maxPaths) == seen by {
      UntilNullFull(dir[..bound], seen);
    }
    return None;
  }

  /** Lines 44-53 of main: what the loop does with lookupPath's answer. */
  datatype Action = Skip | Terminate | Execute(path: String)

  /** NULL skips to the next prompt, "exit" leaves the loop, any other path is executed. */
  function Dispatch(name: Option<String>): (a: Action)
    ensures a == Skip <==> name.None?
    ensures a == Terminate <==> name == Some("exit")
    ensures a.Execute? ==> name == Some(a.path) && a.path != "exit"
  {
    if name.None? then Skip
    else if name.value == "exit" then Terminate
    else Execute(name.value)
  }

  /**
   * What the shell visibly does: start a child on execvp(path, argv) with
   * the words of the line as its arguments, or print the termination message.
   */
  datatype Event = Spawn(path: String, args: seq<String>) | Terminating

  /** The first word of the line is "exit": the line that ends the loop. */
  predicate StartsWithExit(line: String, whitespace: set<char>)
  {
    |Tokens(line, whitespace)| > 0 && Tokens(line, whitespace)[0] == "exit"
  }

  /**
   * How many input lines the loop reads: up to and including the first line
   * that starts with "exit", or all of them when none does.
   */
  function LinesRead(lines: seq<String>, whitespace: set<char>): (n: nat)
    ensures n <= |lines|
    ensures forall k :: 0 <= k < n - 1 ==> !StartsWithExit(lines[k], whitespace)
    ensures n < |lines| ==> 0 < n && StartsWithExit(lines[n - 1], whitespace)
    ensures 0 < |lines| ==> 0 < n
  {
    if lines == [] then 0
    else if StartsWithExit(lines[0], whitespace) then 1
    else
      var n := 1 + LinesRead(lines[1..], whitespace);
      assert forall k :: 1 <= k < |lines| ==> lines[1..][k - 1] == lines[k];
      n
  }

  /** lookupPath reads argv[0], so every line the loop reads must hold a word. */
  predicate WordsUntilExit(lines: seq<String>, whitespace: set<char>)
  {
    forall k :: 0 <= k < LinesRead(lines, whitespace) ==> |Tokens(lines[k], whitespace)| > 0
  }

  /** Past lines that do not end the loop, the loop reads the rest of the input as it would from the start. */
  lemma {:induction false} ReadSuffix(lines: seq<String>, whitespace: set<char>, i: nat)
    requires i <= |lines|
    requires forall k :: 0 <= k < i ==> !StartsWithExit(lines[k], whitespace)
    ensures LinesRead(lines[i..], whitespace) == LinesRead(lines, whitespace) - i
    ensures WordsUntilExit(lines, whitespace) ==> WordsUntilExit(lines[i..], whitespace)
  {
    if i == 0 {
      assert lines[0..] == lines;
    } else {
      ReadSuffix(lines, whitespace, i - 1);
      var tail := lines[i - 1..];
      assert tail[0] == lines[i - 1] && tail[1..] == lines[i..];
    }
    if WordsUntilExit(lines, whitespace) {
      forall k | 0 <= k < LinesRead(lines[i..], whitespace) ensures |Tokens(lines[i..][k], whitespace)| > 0 {
        assert lines[i..][k] == lines[i + k];
      }
    }
  }

  /** A line with a word in front of input the loop can read is input the loop can read. */
  lemma ConsLine(line: String, rest: seq<String>, whitespace: set<char>)
    requires |Tokens(line, whitespace)| > 0 && WordsUntilExit(rest, whitespace)
    ensures WordsUntilExit([line] + rest, whitespace)
  {
    var lines := [line] + rest;
    assert lines[0] == line;
    if !StartsWithExit(line, whitespace) {
      assert lines[1..] == rest;
      forall k | 0 <= k < LinesRead(lines, whitespace) ensures |Tokens(lines[k], whitespace)| > 0 {
        if k > 0 {
          assert lines[k] == rest[k - 1];
        }
      }
    }
  }

  /**
   * The events of the main loop over the given input lines, and whether it
   * reached `exit` (and so returned 0) within them.  access[k] is the set of
   * paths that pass access(F_OK | X_OK) while line k is looked up.
   */
  function Run(table: seq<String>, lines: seq<String>, whitespace: set<char>, access: seq<set<String>>): (seq<Event>, bool)
    requires |access| == |lines|
    requires WordsUntilExit(lines, whitespace)
    decreases |lines|
  {
    if lines == [] then ([], false)
    else
      var words := Tokens(lines[0], whitespace);
      match Dispatch(Resolve(words[0], table, access[0]))
      case Terminate => ([Terminating], true)
      case Skip =>
        DispatchTerminate(words[0], table, access[0]);
        ReadSuffix(lines, whitespace, 1);
        Run(table, lines[1..], whitespace, access[1..])
      case Execute(p) =>
        DispatchTerminate(words[0], table, access[0]);
        ReadSuffix(lines, whitespace, 1);
        var later := Run(table, lines[1..], whitespace, access[1..]);
        ([Spawn(p, words)] + later.0, later.1)
  }

  /**
   * Lines 41-44 of main: parse the line into the command record and resolve
   * its first word.  execvp would see exactly the words of the line.
   */
  method ParseAndResolve(line: String, command: Command, pathv: array<Option<String>>, whitespace: set<char>,
                         maxPaths: nat, executable: set<String>)
    returns (name: Option<String>)
    requires 0 < |Tokens(line, whitespace)| < command.argv.Length
    requires maxPaths <= pathv.Length || None in pathv[..]
    requires pathv != command.argv
    modifies command, command.argv
    ensures name == command.name
    ensures name == Resolve(Tokens(line, whitespace)[0], LiveDirs(pathv[..], maxPaths), executable)
    ensures command.argc == |Tokens(line, whitespace)| - 1
    ensures UntilNull(command.argv[..]) == Tokens(line, whitespace)
  {
    var _ := ParseCommand(line, command, whitespace);
    UntilNullTerminated(command.argv[..], Tokens(line, whitespace));
    name := LookupPath(command.argv, pathv, maxPaths, executable);
    command.name := name;
  }

  /** One turn of the loop: skip the line, leave on "exit", or spawn the resolved path and go on. */
  lemma RunStep(table: seq<String>, lines: seq<String>, whitespace: set<char>, access: seq<set<String>>)
    requires |access| == |lines| && 0 < |lines|
    requires WordsUntilExit(lines, whitespace)
    ensures |Tokens(lines[0], whitespace)| > 0
    ensures Dispatch(Resolve(Tokens(lines[0], whitespace)[0], table, access[0])) == Terminate <==>
      StartsWithExit(lines[0], whitespace)
    ensures !StartsWithExit(lines[0], whitespace) ==> WordsUntilExit(lines[1..], whitespace)
    ensures var words := Tokens(lines[0], whitespace);
      var now := Run(table, lines, whitespace, access);
      match Dispatch(Resolve(words[0], table, access[0]))
      case Skip => now == Run(table, lines[1..], whitespace, access[1..])
      case Terminate => now == ([Terminating], true)
      case Execute(p) =>
        var later := Run(table, lines[1..], whitespace, access[1..]);
        now == ([Spawn(p, words)] + later.0, later.1)
  {
    DispatchTerminate(Tokens(lines[0], whitespace)[0], table, access[0]);
    if !StartsWithExit(lines[0], whitespace) {
      ReadSuffix(lines, whitespace, 1);
    }
  }

  /**
   * The loop before line i: no earlier line started with "exit", the events
   * so far are `spawned`, and `whole` is what the loop does over all lines.
   */
  predicate Pending(table: seq<String>, lines: seq<String>, whitespace: set<char>, access: seq<set<String>>,
                    i: nat, spawned: seq<Event>, whole: (seq<Event>, bool))
  {
    && i <= |lines| == |access|
    && (forall k :: 0 <= k < i ==> !StartsWithExit(lines[k], whitespace))
    && WordsUntilExit(lines[i..], whitespace)
    && whole.0 == spawned + Run(table, lines[i..], whitespace, access[i..]).0
    && whole.1 == Run(table, lines[i..], whitespace, access[i..]).1
  }

  /** Before the first line, nothing has happened yet. */
  lemma PendingStart(table: seq<String>, lines: seq<String>, whitespace: set<char>, access: seq<set<String>>)
    requires |access| == |lines| && WordsUntilExit(lines, whitespace)
    ensures Pending(table, lines, whitespace, access, 0, [], Run(table, lines, whitespace, access))
  {
    assert lines[0..] == lines && access[0..] == access;
    assert [] + Run(table, lines, whitespace, access).0 == Run(table, lines, whitespace, access).0;
  }

  /** Past the last line, the events so far are all there are, and exit was not reached. */
  lemma PendingEnd(table: seq<String>, lines: seq<String>, whitespace: set<char>, access: seq<set<String>>,
                   spawned: seq<Event>, whole: (seq<Event>, bool))
    requires Pending(table, lines, whitespace, access, |lines|, spawned, whole)
    ensures whole == (spawned, false)
  {
    assert lines[|lines|..] == [];
    assert spawned + [] == spawned;
  }

  /** The loop's turn on line i: leave on "exit", or skip or spawn and go on to line i + 1. */
  lemma PendingStep(table: seq<String>, lines: seq<String>, whitespace: set<char>, access: seq<set<String>>,
                    i: nat, spawned: seq<Event>, whole: (seq<Event>, bool))
    requires Pending(table, lines, whitespace, access, i, spawned, whole) && i < |lines|
    ensures i < LinesRead(lines, whitespace) && |Tokens(lines[i], whitespace)| > 0
    ensures var words := Tokens(lines[i], whitespace);
      match Dispatch(Resolve(words[0], table, access[i]))
      case Terminate => whole == (spawned + [Terminating], true)
      case Skip => Pending(table, lines, whitespace, access, i + 1, spawned, whole)
      case Execute(p) => Pending(table, lines, whitespace, access, i + 1, spawned + [Spawn(p, words)], whole)
  {
    ReadSuffix(lines, whitespace, i);
    var rest := lines[i..];
    assert rest[0] == lines[i] && rest[1..] == lines[i + 1..];
    assert access[i..][0] == access[i] && access[i..][1..] == access[i + 1..];
    RunStep(table, rest, whitespace, access[i..]);
    var words := Tokens(lines[i], whitespace);
    match Dispatch(Resolve(words[0], table, access[i]))
    case Terminate =>
    case Skip =>
      var later := Run(table, lines[i + 1..], whitespace, access[i + 1..]);
      assert [] + later.0 == later.0;
      PendingNext(table, lines, whitespace, access, i, spawned, whole, []);
      assert spawned + [] == spawned;
    case Execute(p) =>
      PendingNext(table, lines, whitespace, access, i, spawned, whole, [Spawn(p, words)]);
  }

  /** A line that does not end the loop adds its events and moves the loop on to the next line. */
  lemma PendingNext(table: seq<String>, lines: seq<String>, whitespace: set<char>, access: seq<set<String>>,
                    i: nat, spawned: seq<Event>, whole: (seq<Event>, bool), e: seq<Event>)
    requires Pending(table, lines, whitespace, access, i, spawned, whole) && i < |lines|
    requires !StartsWithExit(lines[i], whitespace) && WordsUntilExit(lines[i + 1..], whitespace)
    requires var later := Run(table, lines[i + 1..], whitespace, access[i + 1..]);
      Run(table, lines[i..], whitespace, access[i..]) == (e + later.0, later.1)
    ensures Pending(table, lines, whitespace, access, i + 1, spawned + e, whole)
  {
    var later := Run(table, lines[i + 1..], whitespace, access[i + 1..]);
    assert spawned + (e + later.0) == spawned + e + later.0;
    assert forall k :: 0 <= k < i + 1 ==> !StartsWithExit(lines[k], whitespace);
  }

  /**
   * main's while loop (lines 35-66) over the given input lines, with the
   * directory table already in pathv: parse each line into one command
   * record, resolve its first word, and skip it, spawn it or leave the loop.
   * `spawned` are the children started; `exited` says whether a line reached
   * `break`, after which main prints the termination message.
   */
  method ReadEvalLoop(pathv: array<Option<String>>, lines: seq<String>, whitespace: set<char>,
                      maxPaths: nat, argCapacity: nat, access: seq<set<String>>)
    returns (spawned: seq<Event>, exited: bool)
    requires maxPaths <= pathv.Length || None in pathv[..]
    requires |access| == |lines|
    requires WordsUntilExit(lines, whitespace)
    requires forall k :: 0 <= k < LinesRead(lines, whitespace) ==> |Tokens(lines[k], whitespace)| < argCapacity
    ensures Run(LiveDirs(pathv[..], maxPaths), lines, whitespace, access) ==
      (if exited then spawned + [Terminating] else spawned, exited)
  {
    ghost var table := LiveDirs(pathv[..], maxPaths);
    var command := new Command(argCapacity);
    spawned := [];
    exited := false;
    var i := 0;
    ghost var whole := Run(table, lines, whitespace, access);
    PendingStart(table, lines, whitespace, access);
    while i < |lines|
      invariant command.argv.Length == argCapacity && command.argv != pathv
      invariant LiveDirs(pathv[..], maxPaths) == table
      invariant exited ==> whole == (spawned + [Terminating], true)
      invariant !exited ==> Pending(table, lines, whitespace, access, i, spawned, whole)
      modifies command, command.argv
      decreases |lines| - i, !exited
    {
      PendingStep(table, lines, whitespace, access, i, spawned, whole);
      var name := ParseAndResolve(lines[i], command, pathv, whitespace, maxPaths, access[i]);
      if name.None? {
        i := i + 1;
      } else if name.value == "exit" {
        exited := true;
        break;
      } else {
        spawned := spawned + [Spawn(name.value, UntilNull(command.argv[..]))];
        i := i + 1;
      }
    }
    if !exited {
      PendingEnd(table, lines, whitespace, access, spawned, whole);
    }
  }

  /**
   * main: parse PATH into pathv once, run the loop over the input lines, and
   * after `exit` print the termination message and return 0.  `pathv` stands
   * for main's uninitialised local table: its slots past those parsePath
   * writes hold whatever the caller put there.  access[k] is what the file
   * system lets through while line k is looked up.  exitCode is None when
   * the lines run out before `exit` (the loop would go on reading).
   */
  method Shell(pathv: array<Option<String>>, pathEnvVar: String, lines: seq<String>, whitespace: set<char>,
               maxArgs: nat, maxPaths: nat, argCapacity: nat, access: seq<set<String>>)
    returns (events: seq<Event>, exitCode: Option<int>)
    requires maxArgs <= pathv.Length
    requires Min(|PathSegments(pathEnvVar)|, maxArgs + 1) <= pathv.Length
    requires maxPaths <= pathv.Length || |PathSegments(pathEnvVar)| < maxArgs
    requires |access| == |lines|
    requires WordsUntilExit(lines, whitespace)
    requires forall k :: 0 <= k < LinesRead(lines, whitespace) ==> |Tokens(lines[k], whitespace)| < argCapacity
    modifies pathv
    ensures var segs := PathSegments(pathEnvVar);
      var k := Min(|segs|, maxArgs + 1);
      && (forall i :: 0 <= i < k ==> pathv[i] == Some(segs[i]))
      && (forall i :: k <= i < maxArgs ==> pathv[i] == None)
      && (forall i :: Max(k, maxArgs) <= i < pathv.Length ==> pathv[i] == old(pathv[i]))
    ensures (events, exitCode.Some?) == Run(LiveDirs(pathv[..], maxPaths), lines, whitespace, access)
    ensures exitCode.Some? ==> exitCode.value == 0
    ensures var segs := PathSegments(pathEnvVar);
      |segs| < maxArgs ==> LiveDirs(pathv[..], maxPaths) == segs[..Min(|segs|, maxPaths)]
  {
    var _ := ParsePath(pathv, pathEnvVar, maxArgs);
    ghost var segs := PathSegments(pathEnvVar);
    if |segs| < maxArgs {
      assert pathv[..][|segs|] == None;
      TableOfShortPath(pathv[..], segs, maxArgs, maxPaths);
    }
    var exited;
    events, exited := ReadEvalLoop(pathv, lines, whitespace, maxPaths, argCapacity, access);
    if exited {
      events := events + [Terminating];
      return events, Some(0);
    }
    return events, None;
  }

  // ---------------------------------------------------------------------
  // Properties of the loop
  // ---------------------------------------------------------------------

  /** The loop leaves exactly on a line whose first word is "exit", whatever the table holds. */
  lemma DispatchTerminate(name: String, table: seq<String>, executable: set<String>)
    ensures Dispatch(Resolve(name, table, executable)) == Terminate <==> name == "exit"
  {
    ResolveExit(name, table, executable);
  }

  /** A command that resolves to NULL spawns nothing and the loop goes on with the next line. */
  lemma RunSkipsUnresolved(table: seq<String>, line: String, rest: seq<String>, whitespace: set<char>,
                           executable: set<String>, access: seq<set<String>>)
    requires |Tokens(line, whitespace)| > 0 && WordsUntilExit(rest, whitespace) && |access| == |rest|
    requires Resolve(Tokens(line, whitespace)[0], table, executable).None?
    ensures WordsUntilExit([line] + rest, whitespace)
    ensures Run(table, [line] + rest, whitespace, [executable] + access) == Run(table, rest, whitespace, access)
  {
    ConsLine(line, rest, whitespace);
    RunStep(table, [line] + rest, whitespace, [executable] + access);
    assert ([line] + rest)[1..] == rest && ([executable] + access)[1..] == access;
  }

  /** The shell reaches `exit` exactly when some input line starts with the word "exit". */
  lemma {:induction false} RunTerminates(table: seq<String>, lines: seq<String>, whitespace: set<char>,
                                         access: seq<set<String>>)
    requires |access| == |lines| && WordsUntilExit(lines, whitespace)
    ensures Run(table, lines, whitespace, access).1 <==>
      exists k :: 0 <= k < |lines| && StartsWithExit(lines[k], whitespace)
    decreases |lines|
  {
    if lines != [] {
      RunStep(table, lines, whitespace, access);
      if !StartsWithExit(lines[0], whitespace) {
        RunTerminates(table, lines[1..], whitespace, access[1..]);
        if exists k :: 0 <= k < |lines| && StartsWithExit(lines[k], whitespace) {
          var k :| 0 <= k < |lines| && StartsWithExit(lines[k], whitespace);
          assert lines[1..][k - 1] == lines[k];
        }
        if exists k :: 0 <= k < |lines[1..]| && StartsWithExit(lines[1..][k], whitespace) {
          var k :| 0 <= k < |lines[1..]| && StartsWithExit(lines[1..][k], whitespace);
          assert lines[1..][k] == lines[k + 1];
        }
      }
    }
  }

  /**
   * The termination message comes last and only when the loop reached exit;
   * every other event starts a child.
   */
  lemma {:induction false} RunEvents(table: seq<String>, lines: seq<String>, whitespace: set<char>,
                                     access: seq<set<String>>)
    requires |access| == |lines| && WordsUntilExit(lines, whitespace)
    ensures var r := Run(table, lines, whitespace, access);
      (r.1 ==> |r.0| > 0 && r.0[|r.0| - 1] == Terminating) &&
      (forall k :: 0 <= k < |r.0| ==> (r.0[k] == Terminating <==> r.1 && k == |r.0| - 1))
    decreases |lines|
  {
    if lines != [] {
      RunStep(table, lines, whitespace, access);
      if !StartsWithExit(lines[0], whitespace) {
        RunEvents(table, lines[1..], whitespace, access[1..]);
      }
    }
  }

  /**
   * After `exit` the loop reads no further line: whatever input follows, and
   * whatever it holds, changes nothing.
   */
  lemma {:induction false} RunIgnoresLaterLines(table: seq<String>, lines: seq<String>, more: seq<String>,
                                                whitespace: set<char>, access: seq<set<String>>,
                                                accessMore: seq<set<String>>)
    requires |access| == |lines| && |accessMore| == |more|
    requires WordsUntilExit(lines, whitespace)
    requires Run(table, lines, whitespace, access).1
    ensures WordsUntilExit(lines + more, whitespace)
    ensures Run(table, lines + more, whitespace, access + accessMore) == Run(table, lines, whitespace, access)
    decreases |lines|
  {
    RunStep(table, lines, whitespace, access);
    var all := lines + more;
    assert all[0] == lines[0] && all[1..] == lines[1..] + more;
    assert (access + accessMore)[0] == access[0] && (access + accessMore)[1..] == access[1..] + accessMore;
    if StartsWithExit(lines[0], whitespace) {
      assert LinesRead(all, whitespace) == 1;
      assert WordsUntilExit(all, whitespace);
    } else {
      RunIgnoresLaterLines(table, lines[1..], more, whitespace, access[1..], accessMore);
      ConsLine(lines[0], lines[1..] + more, whitespace);
      assert [lines[0]] + (lines[1..] + more) == all;
    }
    RunStep(table, all, whitespace, access + accessMore);
  }

  /** The line "exit" as fgets delivers it, newline included, ends the shell at once, whatever follows. */
  lemma ExitLineExample(table: seq<String>, rest: seq<String>, whitespace: set<char>,
                        executable: set<String>, access: seq<set<String>>)
    requires '\n' in whitespace
    requires 'e' !in whitespace && 'x' !in whitespace && 'i' !in whitespace && 't' !in whitespace
    requires |access| == |rest|
    ensures WordsUntilExit(["exit\n"] + rest, whitespace)
    ensures Run(table, ["exit\n"] + rest, whitespace, [executable] + access) == ([Terminating], true)
  {
    assert "exit\n" == "exit" + ['\n'];
    TokensOuterDelim('\n', "exit", whitespace);
    assert NoDelim("exit", whitespace);
    TokensJoin(["exit"], '\n', whitespace);
    var lines := ["exit\n"] + rest;
    assert lines[0] == "exit\n";
    assert StartsWithExit(lines[0], whitespace);
    assert LinesRead(lines, whitespace) == 1;
    RunStep(table, lines, whitespace, [executable] + access);
  }
}
