# A model of the minimal UNIX shell in ConsoleApplication.c

The shell reads the PATH environment variable into a table of directories once
at startup. It then loops: it reads a line and splits it into a
NULL-terminated argument vector. It resolves the first word against the table,
and it either skips the line (name not found), starts a child on the resolved
path, or, for `exit`, prints `Terminating. . .` and returns 0.

This project models the three string routines and the loop's decision in
Dafny, and proves what each one computes:

- `strsep.dfy` (module `Strsep`): one call of C's `strsep` (`StrSep`). The
  fields repeated calls produce (`Split`). The non-empty fields of a line
  (`Tokens`). Lemmas give a character-level description that does not depend
  on `strsep`: each delimiter ends exactly one field, and joining and
  splitting are inverse.
- `vectors.dfy` (module `Vectors`): NULL-terminated vectors (`UntilNull`),
  which is what `execvp` and the lookup loop see.
- `resolve.dfy` (module `PathSearch`): the resolution rules of `lookupPath`
  as functions (`Resolve`, `Search`), and the first-match and shadowing laws.
- `shell.dfy` (module `MiniShell`): the command record as a class. The
  in-place routines `ParseCommand`, `ParsePath` and `LookupPath` are methods
  on arrays, each proved against the functions above. `Dispatch` is the loop's
  decision. `Shell` is `main`'s loop, proved against the event trace `Run`.

Modelling choices:

- A `char *` that may be NULL is an `Option<String>`. `char *[]` tables are
  `array<Option<String>>`.
- The constants of `minishell.h` are parameters: `WHITESPACE`
  (`whitespace`), `MAX_ARGS` (`maxArgs`), `MAX_PATHS` (`maxPaths`), and the
  size of the command record's argument vector (`argCapacity`).
- `access(pName, F_OK | X_OK)` is membership in a set of paths. The loop
  gets one such set per input line (`access[k]` for line k), because each
  lookup asks the live file system, after the previous child has run.
- `getenv("PATH")` and each `fgets` line are parameters. So is main's
  uninitialised `pathv` array: the slots that `parsePath` never writes keep
  whatever the caller's array holds.
- `Shell` runs over a finite list of input lines. Its `exitCode` is `None`
  when the lines run out before `exit`; the source would go on reading.
- The loop reads the lines up to and including the first one whose first
  word is `exit` (`LinesRead`). Only those lines must hold a word, and only
  those must fit in the argument vector.

The model follows the code, not conventional shell behaviour:

- Empty PATH segments are stored as empty directory strings, not skipped.
- The PATH cap stops with return code 1 and keeps the entries already
  stored. It is not a soft truncation.
- `parseCommand` has no token limit.
- `exit` is recognised inside `lookupPath`, after the absolute-path check.
- `argc` is the number of tokens minus one.

## Model

| member | source | states |
|---|---|---|
| `Strsep.FirstDelim` | ConsoleApplication.c:126 | the index strsep stops at: no delimiter before it, and a delimiter at it unless it is the end of the string |
| `Strsep.StrSep` | ConsoleApplication.c:126 | one strsep call: the field has no delimiter. When the string variable becomes NULL the field is the whole string; otherwise the remaining string is shorter by the field and one delimiter |
| `Strsep.StrSepNull` | ConsoleApplication.c:126 | strsep sets the string variable to NULL exactly when the string holds no delimiter |
| `Strsep.StrSepParts` | ConsoleApplication.c:126 | when strsep finds a delimiter, the string is exactly field + that delimiter + the new string |
| `Strsep.Split` | ConsoleApplication.c:126 | the fields repeated strsep calls return until NULL: at least one, even for the empty string |
| `Strsep.SplitCount` | ConsoleApplication.c:157-164 | there is exactly one field more than the string has delimiters, so empty fields are never lost |
| `Strsep.SplitFirst` | ConsoleApplication.c:126 | the fields of a string are the text before its first delimiter followed by the fields of the text after it, or the whole string when there is no delimiter |
| `Strsep.SplitFields` | ConsoleApplication.c:126 | no field returned by repeated strsep calls contains a delimiter |
| `Strsep.SplitWord` | ConsoleApplication.c:126 | a string without delimiters is a single field |
| `Strsep.SplitAtDelim` | ConsoleApplication.c:126 | every delimiter ends exactly one field: the fields of a + [c] + b are the fields of a followed by those of b |
| `Strsep.SplitJoin` | ConsoleApplication.c:157-164 | splitting delimiter-free pieces joined by a delimiter returns the pieces, empty ones included, in order and count |
| `Strsep.JoinSplit` | ConsoleApplication.c:157-164 | joining the fields of a string with its one delimiter rebuilds the string |
| `Strsep.NonEmpty` | ConsoleApplication.c:127-128 | the `strlen(buffer) > 0` filter: no more pieces than given, and none of them empty |
| `Strsep.NonEmptyFrom` | ConsoleApplication.c:127-128 | the kept pieces are pieces of the input |
| `Strsep.NonEmptyKeepsAll` | ConsoleApplication.c:127-128 | when no piece is empty, every piece is kept |
| `Strsep.NonEmptyAppend` | ConsoleApplication.c:126-130 | keeping the non-empty pieces distributes over concatenation, so the order is preserved |
| `Strsep.Tokens` | ConsoleApplication.c:126-130 | every word of a line is non-empty and holds no whitespace character |
| `Strsep.TokensAtDelim` | ConsoleApplication.c:126-130 | a whitespace character between two parts separates their words; runs of them add no empty word |
| `Strsep.TokensOuterDelim` | ConsoleApplication.c:126-130 | a whitespace character at either end of a line adds no word |
| `Strsep.TokensBlank` | ConsoleApplication.c:126-131 | an empty or all-whitespace line has no words |
| `Strsep.TokensJoin` | ConsoleApplication.c:126-130 | words written out with one whitespace character between them are read back unchanged |
| `Strsep.TokensExample` | ConsoleApplication.c:126-130 | the line `  echo   hi  ` has exactly the words `echo`, `hi` |
| `Vectors.UntilNull` | ConsoleApplication.c:102 | the entries before the first NULL: each kept slot holds the entry, and the slot after them is NULL unless the vector ends |
| `Vectors.UntilNullTerminated` | ConsoleApplication.c:128-131 | a vector holding some entries and then NULL is read back as exactly those entries |
| `Vectors.UntilNullFull` | ConsoleApplication.c:101-102 | a vector without NULL slots is read whole |
| `Vectors.UntilNullAppend` | ConsoleApplication.c:101-102 | a NULL-free prefix passes through to the rest of the vector |
| `PathSearch.Candidate` | ConsoleApplication.c:104-106 | the path tried for a directory: the directory, `/`, then the name |
| `PathSearch.Search` | ConsoleApplication.c:101-112 | defined as the first directory in order whose candidate passes the access check, else nothing |
| `PathSearch.Resolve` | ConsoleApplication.c:90-116 | defined as: a name starting with `/` as it is, then `exit` as it is, then the directory search |
| `PathSearch.LiveDirs` | ConsoleApplication.c:101-102 | the lookup scans at most MAX_PATHS directories |
| `PathSearch.SearchFirstMatch` | ConsoleApplication.c:101-111 | the answer is `dir[i] + "/" + name` for the least i whose candidate passes the access check |
| `PathSearch.SearchNone` | ConsoleApplication.c:101-116 | the search finds nothing exactly when no candidate passes |
| `PathSearch.SearchSound` | ConsoleApplication.c:104-110 | any answer is the candidate of some table directory, and it passes the access check |
| `PathSearch.SearchAppend` | ConsoleApplication.c:101-112 | earlier directories shadow later ones: a hit in the front of the table wins over the rest |
| `PathSearch.ResolveAbsolute` | ConsoleApplication.c:90-93 | a name starting with `/` resolves to itself, whatever the table and access check say |
| `PathSearch.ResolveExit` | ConsoleApplication.c:97-100 | the resolution is the literal `exit` exactly when the name is `exit` |
| `PathSearch.ResolveBareName` | ConsoleApplication.c:101-116 | a bare name other than `exit` resolves to NULL exactly when no candidate passes, and otherwise to a passing candidate of a table directory |
| `PathSearch.ResolveTieBreak` | ConsoleApplication.c:101-111 | with table `/a`, `/b` and `foo` executable in both, `/a/foo` is chosen |
| `MiniShell.Command.constructor` | ConsoleApplication.c:31 | the record starts with NULL name, argc 0 and every argv slot NULL |
| `MiniShell.ParseCommand` | ConsoleApplication.c:119-134 | argv[0..n) holds the line's words in order, argv[n] is NULL, argc is n - 1, the result is 0, and later slots are untouched |
| `MiniShell.PathSegments` | ConsoleApplication.c:157 | defined as the fields of PATH split at `:`, empty ones included |
| `MiniShell.PathSegmentsOfJoin` | ConsoleApplication.c:157-164 | a PATH of colon-free segments is read back as exactly those segments, in order and count |
| `MiniShell.PathSegmentsKeepEmpty` | ConsoleApplication.c:157-164 | `:/bin::` gives the segments `""`, `/bin`, `""`, `""` |
| `MiniShell.ParsePath` | ConsoleApplication.c:136-166 | slots below MAX_ARGS are cleared; the PATH segments fill the table from slot 0. The result is 1 exactly when there are more than MAX_ARGS + 1 segments, and then the first MAX_ARGS + 1 stay stored; other slots are untouched |
| `MiniShell.TableOfShortPath` | ConsoleApplication.c:146-148 | with fewer than MAX_ARGS segments, the directories the lookup scans are exactly the PATH segments, at most MAX_PATHS of them |
| `MiniShell.LookupPath` | ConsoleApplication.c:79-117 | the result is the resolution of argv[0] against the table as the loop scans it |
| `MiniShell.Dispatch` | ConsoleApplication.c:44-53 | NULL skips, `exit` terminates, and any other path is executed |
| `MiniShell.ParseAndResolve` | ConsoleApplication.c:40-44 | the record's name is the resolution of the line's first word, argc is the word count minus one, and execvp would see exactly the line's words |
| `MiniShell.LinesRead` | ConsoleApplication.c:35-53 | the number of lines the loop reads: no line before the last one read starts with `exit`, and the loop stops early only on a line that does |
| `MiniShell.Run` | ConsoleApplication.c:35-70 | defined as the loop's events line by line: an unresolved line adds nothing, `exit` ends with the termination message, any other path spawns a child with the line's words |
| `MiniShell.RunStep` | ConsoleApplication.c:35-66 | one loop turn: the loop leaves exactly on a line starting with `exit`, with the message; otherwise it skips, or spawns the resolved path with the line's words, and goes on |
| `MiniShell.ReadEvalLoop` | ConsoleApplication.c:35-66 | the loop over the input, with one reused command record, produces exactly the trace `Run` of the scanned table |
| `MiniShell.Shell` | ConsoleApplication.c:27-72 | pathv ends as parsePath leaves it (segments from slot 0, NULL up to MAX_ARGS, other slots untouched); the events are the trace `Run` of the table scanned in pathv; a reached exit returns 0 |
| `MiniShell.DispatchTerminate` | ConsoleApplication.c:51-53 | the loop is left exactly on a line whose first word is `exit` |
| `MiniShell.RunSkipsUnresolved` | ConsoleApplication.c:44-48 | a line that resolves to NULL spawns nothing; the loop continues with the next line and its file system |
| `MiniShell.RunTerminates` | ConsoleApplication.c:35-53 | the shell terminates exactly when some input line starts with `exit` |
| `MiniShell.RunEvents` | ConsoleApplication.c:50-70 | the termination message is the last event and comes only after exit; every other event spawns a child |
| `MiniShell.RunIgnoresLaterLines` | ConsoleApplication.c:51-53 | once exit is reached, later input changes nothing, even lines with no word: after exit no child is started |
| `MiniShell.ExitLineExample` | ConsoleApplication.c:51-53 | the line `exit` with its newline ends the shell at once, with the termination message and no child, whatever follows it |

## Left out

- `fork`, `execvp` and `wait` (lines 56-62): no process is modelled. Reaching the exec is the event `Spawn(path, argv)`, and its arguments are what execvp would read up to the NULL.
- `printPrompt`, `readCommand`, `getenv` and the `printf` calls: these are I/O. PATH and the lines are parameters. The prompt is not modelled.
- The `not found` message `lookupPath` prints (line 115) is I/O and is not an event of the model.
- `malloc`, `strcpy`, `strcat` and `free`: buffers become sequences. The fixed sizes `MAX_PATH_LEN` and `LINE_LEN`, the truncation by `fgets`, and the leaked or freed results are not modelled.
- strsep writes `'\0'` into the line and returns addresses inside it. The model returns the fields as fresh strings, so the aliasing between `argv` and the line buffer is not captured.
- An empty or all-blank line: `lookupPath` would read a NULL `argv[0]` (undefined behaviour). `LookupPath` therefore requires `argv[0]` to be non-NULL. `Run` and `Shell` require a word on every line the loop reads.
- `ParseCommand` requires room for the words and the NULL sentinel. `ParsePath` requires room for the slots it clears and writes. `LookupPath` requires that the slots it reads exist. Writes or reads past the arrays are undefined behaviour in the source.
- An unset PATH (`strlen(NULL)`, line 152) is undefined behaviour. The PATH parameter is always a string.
- End of input: the source has no handling, and the model adds none.
- What a child does to the file system: the model does not relate `access[k + 1]` to the child started for line k. Each line's lookup sees whatever file system the caller supplies for it.
- The return code of `parsePath` is ignored by `main`, as in the source.
