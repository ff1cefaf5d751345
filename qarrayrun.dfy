/**
 * `get_file_line` and `run` (qarrayrun/qarrayrun.py): one subtask of an
 * array job reads its subtask number from an environment variable, takes
 * that line of the parameter file, splits it into arguments, substitutes
 * them into the command line and runs the command.
 *
 * The process environment and the file system are inputs: a map from
 * variable names to values and a map from the paths of regular files to
 * their text. Splitting a command line the way a POSIX shell would
 * (`shlex.split`) and running the child process (`subprocess.call`) are
 * parameters: the model says which command is launched and that its
 * return code is what `run` returns. Messages written to the error log
 * are collected in order; `exit(status)` ends the run with that status.
 */
module QArrayRun {
  import opened Wrappers
  import opened Text
  import opened Decimal
  import opened Substitution
  import opened Templates

  // ---------------------------------------------------------------------------
  // get_file_line

  /**
   * Line `lineNum` (1-based) of a file with text `contents`, with its '\n'
   * kept, or None when there is no such line (in particular for zero and
   * negative numbers, which the counter never reaches).
   */
  function FileLine(contents: string, lineNum: int): Option<string>
  {
    var lines := SplitLines(contents);
    if 1 <= lineNum <= |lines| then Some(lines[lineNum - 1]) else None
  }

  /** `get_file_line`: the lines are counted from 1 until the wanted one is reached. */
  method GetFileLine(contents: string, lineNum: int) returns (line: Option<string>)
    ensures line == FileLine(contents, lineNum)
  {
    var lines := SplitLines(contents);
    var lineCounter := 0;
    for i := 0 to |lines|
      invariant lineCounter == i
      invariant !(1 <= lineNum <= i)
    {
      lineCounter := lineCounter + 1;
      if lineCounter == lineNum {
        return Some(lines[i]);
      }
    }
    return None;
  }

  /** A line that is found is never empty: even a blank line keeps its '\n'. */
  lemma {:induction false} FoundLineNotEmpty(contents: string, lineNum: int)
    ensures FileLine(contents, lineNum).Some? ==> |FileLine(contents, lineNum).value| > 0
  {
    var lines := SplitLines(contents);
    if 1 <= lineNum <= |lines| {
      assert IsLine(lines[lineNum - 1]);
    }
  }

  /** A file written as lines (all but the last ending in '\n') gives back each line by its number. */
  lemma FileLineOfLines(ls: seq<string>, lineNum: int)
    requires forall i :: 0 <= i < |ls| ==> IsLine(ls[i])
    requires forall i :: 0 <= i < |ls| - 1 ==> |ls[i]| > 0 && ls[i][|ls[i]| - 1] == '\n'
    ensures FileLine(Flatten(ls), lineNum) == if 1 <= lineNum <= |ls| then Some(ls[lineNum - 1]) else None
  {
    SplitLinesOfLines(ls);
  }

  // ---------------------------------------------------------------------------
  // run

  /** The command handed to `subprocess.call`. */
  datatype Launch =
    | ShellCommand(command: string)   // shell_flag: one string for the shell
    | Exec(argv: seq<string>)         // otherwise: the shlex.split words

  /** How a run ends: `exit(status)`, or returning the command's return code. */
  datatype Outcome =
    | Exit(status: int)
    | Returned(launch: Launch, returnCode: int)

  /** The errors `run` logs. */
  datatype Diagnostic =
    | VariableUndefined(name: string)
    | NotALineNumber(name: string)
    | SubtaskNotPositive(subtask: int)
    | ParameterFileMissing(path: string)

  datatype RunResult = RunResult(outcome: Outcome, log: seq<Diagnostic>)

  /** The logged text of a diagnostic. */
  function Message(d: Diagnostic): string
  {
    match d
    case VariableUndefined(name) => "Error: the " + name + " environment variable is not defined."
    case NotALineNumber(name) => "Error: the " + name + " environment variable does not contain a line number."
    case SubtaskNotPositive(n) => "Error: the subtask number is " + IntToString(n) + ".  It must be greater than zero."
    case ParameterFileMissing(path) => "Error: the parameter file " + path + " does not exist."
  }

  /** Fatal diagnostics are followed by `exit(1)`; a non-positive subtask number is only logged. */
  predicate Fatal(d: Diagnostic)
  {
    !d.SubtaskNotPositive?
  }

  /** The command launched for a substituted command line. */
  function LaunchFor(command: string, shellFlag: bool, shlexSplit: string -> seq<string>): Launch
  {
    if shellFlag then ShellCommand(command) else Exec(shlexSplit(command))
  }

  /**
   * What `run(subtask_var, array_file, command_line, shell_flag)` does, given
   * the environment, the regular files, `shlex.split` and the return code
   * the launched command ends with.
   */
  function Behaviour(environ: map<string, string>, files: map<string, string>, subtaskVar: string,
                     arrayFile: string, commandLine: string, shellFlag: bool,
                     shlexSplit: string -> seq<string>, call: Launch -> int): RunResult
  {
    if subtaskVar !in environ || environ[subtaskVar] == "" then
      RunResult(Exit(1), [VariableUndefined(subtaskVar)])
    else
      var parsed := ParseInt(environ[subtaskVar]);
      if parsed.None? then
        RunResult(Exit(1), [NotALineNumber(subtaskVar)])
      else
        SubtaskBehaviour(parsed.value, files, arrayFile, commandLine, shellFlag, shlexSplit, call)
  }

  /** The rest of `run` once the subtask number is known. */
  function SubtaskBehaviour(subtaskNum: int, files: map<string, string>, arrayFile: string,
                            commandLine: string, shellFlag: bool,
                            shlexSplit: string -> seq<string>, call: Launch -> int): RunResult
  {
    var log := if subtaskNum <= 0 then [SubtaskNotPositive(subtaskNum)] else [];
    if arrayFile !in files then
      RunResult(Exit(1), log + [ParameterFileMissing(arrayFile)])
    else
      var line := FileLine(files[arrayFile], subtaskNum);
      if line.None? || line.value == "" then
        RunResult(Exit(0), log)
      else
        var launch := LaunchFor(Substitute(commandLine, Split(line.value)), shellFlag, shlexSplit);
        RunResult(Returned(launch, call(launch)), log)
  }

  /** `run`: reading and checking the subtask number. */
  method Run(environ: map<string, string>, files: map<string, string>, subtaskVar: string,
             arrayFile: string, commandLine: string, shellFlag: bool,
             shlexSplit: string -> seq<string>, call: Launch -> int) returns (result: RunResult)
    ensures result == Behaviour(environ, files, subtaskVar, arrayFile, commandLine, shellFlag, shlexSplit, call)
  {
    var subtaskText := if subtaskVar in environ then Some(environ[subtaskVar]) else None;
    if subtaskText.None? || subtaskText.value == "" {
      return RunResult(Exit(1), [VariableUndefined(subtaskVar)]);
    }
    var parsed := ParseInt(subtaskText.value);
    if parsed.None? {
      return RunResult(Exit(1), [NotALineNumber(subtaskVar)]);
    }
    result := RunSubtask(parsed.value, files, arrayFile, commandLine, shellFlag, shlexSplit, call);
  }

  /** The rest of `run`: the parameter file's line, the substitution and the command. */
  method RunSubtask(subtaskNum: int, files: map<string, string>, arrayFile: string,
                    commandLine: string, shellFlag: bool,
                    shlexSplit: string -> seq<string>, call: Launch -> int) returns (result: RunResult)
    ensures result == SubtaskBehaviour(subtaskNum, files, arrayFile, commandLine, shellFlag, shlexSplit, call)
  {
    var log: seq<Diagnostic> := [];
    if subtaskNum <= 0 {
      log := log + [SubtaskNotPositive(subtaskNum)];
    }
    if arrayFile !in files {
      log := log + [ParameterFileMissing(arrayFile)];
      return RunResult(Exit(1), log);
    }
    var line := GetFileLine(files[arrayFile], subtaskNum);
    if line.None? || line.value == "" {
      return RunResult(Exit(0), log);
    }
    var arguments := Split(line.value);
    var command := SubstituteArguments(commandLine, arguments);
    var returnCode: int;
    var launch: Launch;
    if shellFlag {
      launch := ShellCommand(command);
      returnCode := call(launch);
    } else {
      var commandSplit := shlexSplit(command);
      launch := Exec(commandSplit);
      returnCode := call(launch);
    }
    return RunResult(Returned(launch, returnCode), log);
  }

  // ---------------------------------------------------------------------------
  // Properties of run

  /**
   * How a run ends agrees with what it logged: it either returns the
   * command's own return code after logging nothing fatal, or exits with 1
   * exactly when its last logged error is fatal and with 0 otherwise; the
   * only error that can come before another is the non-positive subtask number.
   */
  predicate EndsAsLogged(r: RunResult, call: Launch -> int)
  {
    && (r.outcome.Returned? ==> r.outcome.returnCode == call(r.outcome.launch) && forall d :: d in r.log ==> !Fatal(d))
    && (r.outcome.Exit? ==> r.outcome.status in {0, 1})
    && (r.outcome == Exit(1) <==> |r.log| > 0 && Fatal(r.log[|r.log| - 1]))
    && (forall i :: 0 <= i < |r.log| - 1 ==> !Fatal(r.log[i]))
  }

  /** Every run ends as its log says. */
  lemma ExitStatus(environ: map<string, string>, files: map<string, string>, subtaskVar: string,
                   arrayFile: string, commandLine: string, shellFlag: bool,
                   shlexSplit: string -> seq<string>, call: Launch -> int)
    ensures EndsAsLogged(Behaviour(environ, files, subtaskVar, arrayFile, commandLine, shellFlag, shlexSplit, call), call)
  {
    if subtaskVar in environ && environ[subtaskVar] != "" && ParseInt(environ[subtaskVar]).Some? {
      SubtaskExitStatus(ParseInt(environ[subtaskVar]).value, files, arrayFile, commandLine, shellFlag, shlexSplit, call);
    }
  }

  lemma SubtaskExitStatus(subtaskNum: int, files: map<string, string>, arrayFile: string,
                          commandLine: string, shellFlag: bool,
                          shlexSplit: string -> seq<string>, call: Launch -> int)
    ensures EndsAsLogged(SubtaskBehaviour(subtaskNum, files, arrayFile, commandLine, shellFlag, shlexSplit, call), call)
  {
    var log := if subtaskNum <= 0 then [SubtaskNotPositive(subtaskNum)] else [];
    if arrayFile !in files {
      var full := log + [ParameterFileMissing(arrayFile)];
      assert full[|full| - 1] == ParameterFileMissing(arrayFile);
      assert forall i :: 0 <= i < |full| - 1 ==> full[i] == log[i];
    } else {
      FoundLineNotEmpty(files[arrayFile], subtaskNum);
    }
  }

  /**
   * A subtask number of zero or less is logged as an error, but the run
   * goes on: no line has such a number, so it exits with status 0 and
   * launches nothing.
   */
  lemma NonPositiveSubtaskExitsZero(environ: map<string, string>, files: map<string, string>, subtaskVar: string,
                                    arrayFile: string, commandLine: string, shellFlag: bool,
                                    shlexSplit: string -> seq<string>, call: Launch -> int)
    requires subtaskVar in environ && ParseInt(environ[subtaskVar]).Some?
    requires ParseInt(environ[subtaskVar]).value <= 0
    requires arrayFile in files
    ensures Behaviour(environ, files, subtaskVar, arrayFile, commandLine, shellFlag, shlexSplit, call)
         == RunResult(Exit(0), [SubtaskNotPositive(ParseInt(environ[subtaskVar]).value)])
  {
    assert environ[subtaskVar] != "";
  }

  /**
   * A blank parameter line still launches the command, substituted with no
   * arguments: each `{n}` the scan finds is replaced by nothing. (Text the
   * scan never matches, such as `{01}`, stays; for command lines of
   * brace-free text and placeholders nothing of them is left, as
   * `NoArgumentsClearsPlaceholders` shows.)
   */
  lemma BlankLineRunsWithoutArguments(environ: map<string, string>, files: map<string, string>, subtaskVar: string,
                                      arrayFile: string, commandLine: string, shellFlag: bool,
                                      shlexSplit: string -> seq<string>, call: Launch -> int)
    requires subtaskVar in environ && ParseInt(environ[subtaskVar]).Some?
    requires arrayFile in files
    requires FileLine(files[arrayFile], ParseInt(environ[subtaskVar]).value).Some?
    requires AllSpace(FileLine(files[arrayFile], ParseInt(environ[subtaskVar]).value).value)
    ensures Behaviour(environ, files, subtaskVar, arrayFile, commandLine, shellFlag, shlexSplit, call).outcome.Returned?
    ensures Behaviour(environ, files, subtaskVar, arrayFile, commandLine, shellFlag, shlexSplit, call).outcome.launch
         == LaunchFor(Substitute(commandLine, []), shellFlag, shlexSplit)
  {
    var n := ParseInt(environ[subtaskVar]).value;
    var line := FileLine(files[arrayFile], n).value;
    assert environ[subtaskVar] != "";
    FoundLineNotEmpty(files[arrayFile], n);
    SplitSkipsSpaces(line, []);
    assert line + [] == line;
  }

  /** A parameter file row: its words joined by single spaces, ended by '\n' as `print` writes it. */
  function Row(words: seq<string>): string
  {
    JoinSpace(words) + "\n"
  }

  /** The text of a parameter file written row by row. */
  function ParameterFile(rows: seq<seq<string>>): string
  {
    Flatten(seq(|rows|, i requires 0 <= i < |rows| => Row(rows[i])))
  }

  /** Rows of words without whitespace, as `run` splits them back. */
  predicate WordRows(rows: seq<seq<string>>)
  {
    forall i, w :: 0 <= i < |rows| && w in rows[i] ==> |w| > 0 && NoSpace(w)
  }

  /** Line n of a parameter file written row by row is row n, and splits into that row's words. */
  lemma RowsReadBack(rows: seq<seq<string>>, n: int)
    requires WordRows(rows)
    ensures FileLine(ParameterFile(rows), n) == if 1 <= n <= |rows| then Some(Row(rows[n - 1])) else None
    ensures 1 <= n <= |rows| ==> Split(Row(rows[n - 1])) == rows[n - 1]
  {
    var ls := seq(|rows|, i requires 0 <= i < |rows| => Row(rows[i]));
    forall i | 0 <= i < |ls|
      ensures IsLine(ls[i]) && ls[i][|ls[i]| - 1] == '\n'
    {
      RowIsLine(rows[i]);
    }
    FileLineOfLines(ls, n);
    if 1 <= n <= |rows| {
      RowSplitsBack(rows[n - 1]);
    }
  }

  /** A row splits back into its words. */
  lemma RowSplitsBack(words: seq<string>)
    requires forall w :: w in words ==> |w| > 0 && NoSpace(w)
    ensures Split(Row(words)) == words
  {
    assert AllSpace("\n");
    SplitJoinSpace(words, "\n");
  }

  /** A row is one line: its words and the spaces between them hold no '\n'. */
  lemma RowIsLine(words: seq<string>)
    requires forall w :: w in words ==> |w| > 0 && NoSpace(w)
    ensures IsLine(Row(words)) && Row(words)[|Row(words)| - 1] == '\n'
  {
    JoinSpaceNoNewline(words);
  }

  lemma {:induction false} JoinSpaceNoNewline(words: seq<string>)
    requires forall w :: w in words ==> |w| > 0 && NoSpace(w)
    ensures forall i :: 0 <= i < |JoinSpace(words)| ==> JoinSpace(words)[i] != '\n'
    decreases |words|
  {
    if words != [] {
      assert words[0] in words;
      assert IsSpace('\n');
      if |words| > 1 {
        assert forall w :: w in words[1..] ==> w in words;
        JoinSpaceNoNewline(words[1..]);
      }
    }
  }

  /** Once the subtask number n is read, `run` goes on as `SubtaskBehaviour` says. */
  lemma SubtaskNumberRead(environ: map<string, string>, files: map<string, string>, subtaskVar: string,
                          arrayFile: string, commandLine: string, shellFlag: bool,
                          shlexSplit: string -> seq<string>, call: Launch -> int,
                          n: int, before: string, after: string)
    requires subtaskVar in environ && environ[subtaskVar] == before + IntToString(n) + after
    requires AllIntSpace(before) && AllIntSpace(after)
    ensures Behaviour(environ, files, subtaskVar, arrayFile, commandLine, shellFlag, shlexSplit, call)
         == SubtaskBehaviour(n, files, arrayFile, commandLine, shellFlag, shlexSplit, call)
  {
    ParseIntToString(n, before, after);
    var text := environ[subtaskVar];
    assert text != "" by {
      assert |text| >= |IntToString(n)| > 0;
    }
  }

  /**
   * The whole path of a run: when the subtask variable holds the numeral
   * of n (with any surrounding whitespace `int()` skips) and the parameter file was
   * written row by row, subtask n launches the command line with the words
   * of row n substituted and returns the command's return code; a number
   * past the last row exits with 0, and one below 1 is logged first.
   */
  lemma RunsRow(environ: map<string, string>, files: map<string, string>, subtaskVar: string,
                arrayFile: string, commandLine: string, shellFlag: bool,
                shlexSplit: string -> seq<string>, call: Launch -> int,
                n: int, before: string, after: string, rows: seq<seq<string>>)
    requires subtaskVar in environ && environ[subtaskVar] == before + IntToString(n) + after
    requires AllIntSpace(before) && AllIntSpace(after)
    requires WordRows(rows) && arrayFile in files && files[arrayFile] == ParameterFile(rows)
    ensures var r := Behaviour(environ, files, subtaskVar, arrayFile, commandLine, shellFlag, shlexSplit, call);
      && r.log == (if n <= 0 then [SubtaskNotPositive(n)] else [])
      && r.outcome == if 1 <= n <= |rows| then
           var launch := LaunchFor(Substitute(commandLine, rows[n - 1]), shellFlag, shlexSplit);
           Returned(launch, call(launch))
         else Exit(0)
  {
    SubtaskNumberRead(environ, files, subtaskVar, arrayFile, commandLine, shellFlag, shlexSplit, call, n, before, after);
    RowsReadBack(rows, n);
  }

  /**
   * A command line without placeholders run through the shell, as the test
   * suite's `exit 100` from subtask 2 of a two-row file, is run verbatim and
   * its exit status is what `run` returns.
   */
  lemma ShellStatusReturned(environ: map<string, string>, files: map<string, string>, subtaskVar: string,
                            arrayFile: string, commandLine: string, shlexSplit: string -> seq<string>,
                            call: Launch -> int, n: int, rows: seq<seq<string>>, status: int)
    requires BraceFree(commandLine)
    requires subtaskVar in environ && environ[subtaskVar] == IntToString(n) && 1 <= n <= |rows|
    requires WordRows(rows) && arrayFile in files && files[arrayFile] == ParameterFile(rows)
    requires call(ShellCommand(commandLine)) == status
    ensures Behaviour(environ, files, subtaskVar, arrayFile, commandLine, true, shlexSplit, call)
         == RunResult(Returned(ShellCommand(commandLine), status), [])
  {
    assert environ[subtaskVar] == "" + IntToString(n) + "";
    SubtaskNumberRead(environ, files, subtaskVar, arrayFile, commandLine, true, shlexSplit, call, n, "", "");
    RowsReadBack(rows, n);
    BraceFreeUnchanged(commandLine, rows[n - 1]);
  }
}
