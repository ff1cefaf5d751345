# qarrayrun: a verified model of one array-job subtask

qarrayrun runs one subtask of an HPC array job (Grid Engine or Torque).
The scheduler starts many copies of the same command, each one with an
environment variable (such as `SGE_TASK_ID`) holding its subtask number. Each
copy of `qarrayrun.run` does four things:

- it reads that number and takes the line with that number from a parameter file;
- it splits the line into whitespace-separated arguments;
- it substitutes the arguments into a command line that holds placeholders
  `{1}`, `{2}`, …;
- it runs the resulting command and returns the command's return code.

The model covers the three functions of `qarrayrun/qarrayrun.py`:

- `get_file_line` (module `QArrayRun`);
- `substitute_arguments` (module `Substitution`);
- `run` (module `QArrayRun`).

Three modules hold the Python primitives these functions rely on:

- `Text`: `str.isspace` whitespace (`IsSpace`), `str.replace` (`Replace`), `str.split()` (`Split`) and line iteration over a text file (`SplitLines`);
- `Decimal`: `int()` (`ParseInt`) and `str()` (`IntToString`) on integers;
- `Wrappers`: `Option`.

`Substitution.FindPlaceholders` models `re.findall("{([0-9]+)}")`, and
`Substitution.ParamNums` the list of numbers built from its captures. The
table below lists the lemmas about these functions.

The source changes variables step by step, so each function is a loop or a
sequence of steps over local variables. The model keeps that form:

- `GetFileLine`, `SubstituteArguments`, `Run` and `RunSubtask` are methods with the source's loops and branches;
- each is proved equal to a specification function: `FileLine`, `Substitute`, `Behaviour` or `SubtaskBehaviour`;
- the properties are lemmas about those functions.

Module `Templates` describes the command lines users actually write. Such a
line is brace-free text with canonical placeholders in between, and the
arguments contain no `{`. For these lines the module proves that
qarrayrun's sequential `str.replace` passes give the same result as filling
every placeholder at once. The docstring example and the test suite's
command follow from this.

Behaviours of the source that the model keeps, as the code has them:

- **Whitespace around the subtask number.** `int()` skips only `' '`,
  `'\t'..'\r'` and the non-ASCII characters `str.isspace` accepts, so a value
  such as U+001C followed by `2` is not a number, although `str.isspace`
  accepts U+001C (see `Decimal.ParseIntKeepsSeparator`).
- **Sequential replacement.** Repeated numbers and arguments that themselves
  contain `{n}` are handled the way sequential replacement handles them (see
  `Templates.SequentialExample`).
- **`{01}`.** `re.findall` captures `01`, `int` turns it into 1, and the
  placeholder searched for is then `{1}`. So a zero-padded placeholder stays
  in the command line, wherever it occurs (see `Substitution.ZeroPaddedKept`).
- **Non-positive subtask numbers.** A number of zero or less is logged as an
  error, but the run is not stopped. If the parameter file exists, no line
  carries such a number, so the run then exits with status 0; if it does not,
  the run exits with status 1 as for any missing file.
- **Line terminators.** A line read from the file keeps its `'\n'`. So
  `not line` only ever catches the missing line: a blank line in the file
  launches the command substituted with no arguments, so every `{n}` the
  scan finds is replaced by nothing (text the scan never matches, such as
  `{01}`, stays). Treating an empty
  line as "nothing to do", as one may read the intent of `not line`, is not
  what the code does; the model follows the code.

The environment and the file system are inputs: a map from variable names to
values, and a map from the paths of regular files to their text. `shlex.split`
and `subprocess.call` are function parameters. The model therefore states
which command is launched, and that its return code is what `run` returns.

## Model

| member | source | states |
|---|---|---|
| QArrayRun.GetFileLine | qarrayrun/qarrayrun.py:16-38 | counting lines from 1, returns line `lineNum` of the file with its terminator kept, or None when the file has fewer lines or the number is below 1 |
| QArrayRun.FoundLineNotEmpty | qarrayrun/qarrayrun.py:33-37 | a line that is found is never the empty string (a blank line still holds its '\n') |
| QArrayRun.FileLineOfLines | qarrayrun/qarrayrun.py:33-38 | a file made of lines, all but the last ending in '\n', gives back line k as the k-th of them and None past the end |
| Text.SplitLinesConcat | qarrayrun/qarrayrun.py:34 | the lines iteration yields, concatenated, are exactly the file text |
| Text.SplitLinesOfLines | qarrayrun/qarrayrun.py:34 | iterating over the concatenation of well-terminated lines yields those same lines |
| Text.ReplaceAbsent | qarrayrun/qarrayrun.py:73 | `str.replace` with a pattern that does not occur leaves the text unchanged |
| Text.ReplaceBySelf | qarrayrun/qarrayrun.py:75 | replacing a pattern by itself leaves the text unchanged |
| Text.ReplaceSkip | qarrayrun/qarrayrun.py:75 | a prefix in which the pattern starts nowhere is kept and the replacement goes on after it |
| Text.ReplaceSkipText | qarrayrun/qarrayrun.py:75 | a prefix without the pattern's first character is kept as it is |
| Text.ReplaceSplit | qarrayrun/qarrayrun.py:73-75 | when no occurrence of the pattern runs from one part of the text into the next, `str.replace` replaces the two parts independently |
| Text.SplitWords | qarrayrun/qarrayrun.py:130 | every word `split()` returns is nonempty and holds no whitespace |
| Text.SplitKeepsNonSpace | qarrayrun/qarrayrun.py:130 | the words, concatenated, are exactly the non-whitespace characters of the line, in order |
| Text.SplitSkipsSpaces | qarrayrun/qarrayrun.py:130 | leading whitespace does not change the split |
| Text.SplitJoinSpace | qarrayrun/qarrayrun.py:130 | nonempty words without whitespace joined by single spaces, followed by any whitespace such as '\n', split back into exactly those words |
| Decimal.NatToStringValue | qarrayrun/qarrayrun.py:67-71 | the digits `str(n)` writes denote n |
| Decimal.ValueNatToString | qarrayrun/qarrayrun.py:67-71 | for a numeral without redundant leading zeros, `str(int(d)) == d` |
| Decimal.LeadingZeroNotWritten | qarrayrun/qarrayrun.py:67-71 | for a numeral with a redundant leading zero, `str(int(d)) != d` |
| Decimal.ParseIntToString | qarrayrun/qarrayrun.py:112-113 | `int()` of `str(n)`, surrounded by any whitespace `int()` skips (`' '`, `'\t'..'\r'`, non-ASCII `isspace` characters), is n for every integer n, negative ones included |
| Decimal.ParseIntKeepsSeparator | qarrayrun/qarrayrun.py:112-116 | U+001C..U+001F are `isspace` whitespace but `int()` does not skip them: such a character before `str(n)` makes the value not a number (ValueError) |
| Decimal.ParseIntBlank | qarrayrun/qarrayrun.py:112-116 | a value of `isspace` whitespace only is not a number (ValueError) |
| Substitution.FoundDigits | qarrayrun/qarrayrun.py:66 | every text `re.findall("{([0-9]+)}")` captures is a nonempty run of digits |
| Substitution.SubstituteArguments | qarrayrun/qarrayrun.py:41-77 | the loop computes the left fold of `str.replace` over the parameter numbers in the order they appear; each `{n}` is replaced by argument n (1-based), or by nothing for 0 and for numbers past the last argument |
| Substitution.NoNumbersIffNoPlaceholder | qarrayrun/qarrayrun.py:66-67 | the list of parameter numbers is empty if and only if no `{digits}` occurs in the command line |
| Substitution.PlaceholderFreeUnchanged | qarrayrun/qarrayrun.py:66-77 | a command line without any `{digits}` is returned unchanged |
| Substitution.ApplyConcat | qarrayrun/qarrayrun.py:70-75 | the replacements for two lists of numbers one after the other are the replacements for the first, then the second, applied in turn |
| Substitution.SpentNumberIsNoOp | qarrayrun/qarrayrun.py:70-75 | once `{n}` no longer occurs, another replacement pass for n changes nothing, so a repeated number is a no-op when `{n}` no longer occurs at its turn; otherwise it need not be, since an earlier pass can create `{n}` anew (`{{1}1}` becomes `{1}`) |
| Substitution.SinglePlaceholder | qarrayrun/qarrayrun.py:62-75 | the command line `{n}` becomes argument n when 1 <= n <= the number of arguments, and the empty string otherwise |
| Substitution.ZeroPaddedKept | qarrayrun/qarrayrun.py:66-75 | a zero-padded placeholder such as `{01}` that occurs anywhere in the command line still occurs in the result, whatever the arguments, since the text searched for is `{1}` and no placeholder match overlaps it |
| Substitution.ZeroPaddedAlone | qarrayrun/qarrayrun.py:66-75 | a command line that is only a zero-padded placeholder is returned exactly as it is |
| Templates.SubstituteFills | qarrayrun/qarrayrun.py:62-77 | for a command line of brace-free text and placeholders, with arguments free of `{`, the sequential replacements equal filling every placeholder at once |
| Templates.BraceFreeUnchanged | qarrayrun/qarrayrun.py:66-77 | a command line without `{` is returned unchanged, whatever the arguments |
| Templates.NoArgumentsClearsPlaceholders | qarrayrun/qarrayrun.py:62-77 | with no arguments, a command line of brace-free text and placeholders becomes its literal text, without any `{` left |
| Templates.DocstringExample | qarrayrun/qarrayrun.py:59-60 | `cmd {0}/{1}/{2} -- {3}{4}` with three arguments gives `cmd /a/b -- c`: `{0}` and `{4}` are removed |
| Templates.ReversedArguments | qarrayrun/qarrayrun.py:62-77 | `{3} {2} {1}` inside brace-free text lists three brace-free arguments in reverse order |
| Templates.TestCommandExample | tests/test_qarrayrun.py:28-41 | the test suite's Python one-liner with `{3} {2} {1}` writes the three words of the parameter line in reverse order |
| Templates.SequentialExample | qarrayrun/qarrayrun.py:70-75 | `{1}{2}` with the arguments `{2}` and b gives `bb` (b twice), while filling the placeholders at once would give `{2}b`: replacement is sequential |
| QArrayRun.Run | qarrayrun/qarrayrun.py:80-141 | the run equals `Behaviour`: an undefined or empty variable gives exit 1, a value `int()` rejects gives exit 1, and otherwise the run goes on with the subtask number |
| QArrayRun.RunSubtask | qarrayrun/qarrayrun.py:118-141 | the rest of the run equals `SubtaskBehaviour`, in order: a number <= 0 is logged, a missing parameter file gives exit 1, a line past the end gives exit 0, and otherwise the substituted command is launched through the shell or as its `shlex` words and its return code is returned |
| QArrayRun.ExitStatus | qarrayrun/qarrayrun.py:107-141 | a run either returns the launched command's return code with nothing fatal logged, or exits with 0 or 1; it exits with 1 exactly when its last logged error is fatal, and only the last logged error can be fatal |
| QArrayRun.NonPositiveSubtaskExitsZero | qarrayrun/qarrayrun.py:118-129 | a subtask number <= 0 with an existing parameter file logs the error and exits with 0, launching nothing |
| QArrayRun.BlankLineRunsWithoutArguments | qarrayrun/qarrayrun.py:127-133 | a blank line in the parameter file still launches the command, substituted with no arguments, so each `{n}` the scan finds is replaced by nothing |
| QArrayRun.RowSplitsBack | qarrayrun/qarrayrun.py:130 | a row written as words joined by spaces and ended by '\n' splits back into its words |
| QArrayRun.RowsReadBack | tests/test_qarrayrun.py:18-24 | in a parameter file written row by row, line n is row n (None past the end) and splits into that row's words |
| QArrayRun.SubtaskNumberRead | qarrayrun/qarrayrun.py:107-116 | a variable holding the numeral of n, surrounded by any whitespace `int()` skips, passes both checks, and the run goes on with subtask n |
| QArrayRun.RunsRow | qarrayrun/qarrayrun.py:80-141 | the whole run for subtask n, its numeral surrounded by any whitespace `int()` skips, over a file written row by row: a number <= 0 is logged; for 1 <= n <= the number of rows, the command with row n substituted is launched and its return code returned; otherwise the run exits with 0 |
| QArrayRun.ShellStatusReturned | tests/test_qarrayrun.py:43-45 | a command without `{` run through the shell, for example `exit 100`, is launched verbatim, and its exit status is returned with nothing logged |

## Left out

- Running the child process: `subprocess.call` is the parameter `call`, which gives the return code of a launched command. The model states what is launched, not what the command does.
- Shell tokenisation: `shlex.split` is the parameter `shlexSplit`. Its quoting rules, and the ValueError it raises on unbalanced quotes, are not modelled.
- Exceptions raised while launching or reading: an executable that is missing, an unreadable file, or a decoding error. Reading is modelled as always succeeding on a regular file.
- `os.path.isfile` is modelled by whether the path is a key of the `files` map. Directories, links and permissions are not modelled.
- Logging: `logging.error` calls become `Diagnostic` values collected in order, with their texts in `Message`. Log levels and handlers are not modelled.
- `exit(status)` is the outcome `Exit(status)`. The SystemExit exception and its interaction with callers are not modelled.
- Universal-newline translation: the model splits lines on '\n' only. A file with '\r\n' or '\r' endings is not translated as Python's text mode would translate it.
- Decimal.ParseInt: underscores between digits and non-ASCII decimal digits are not accepted, although Python's `int()` accepts both.
- Text.Replace: requires a nonempty pattern. Every pattern qarrayrun passes is a placeholder of at least three characters, so the empty-pattern case of `str.replace` is not modelled.
- Running under Python 2 (the `from __future__` imports) is not modelled. Strings are Python 3 text strings.
- `qarrayrun/cli.py`, the command-line front end that parses arguments and calls `run`, is not part of this model. Neither is `setup.py`.
