# git-confuse: declaration detection, `obfuscate_code` and file selection

This project models the text-processing core of `confuse.py`, a script
meant to obfuscate the variables of a source file. The model covers four
parts:

- The two declaration patterns, `PYTHON_VARIABLE_REGEX_FMT` and
  `JAVA_VARIABLE_REGEX_FMT`. Each is written as a relation that reads the
  regular expression piece by piece, and as a hand-written matcher.
- The `re.findall` and `re.sub` calls that apply the patterns.
- `obfuscate_code`, exactly as written, with the random draws as
  parameters.
- The deterministic part of `main`: choosing the pattern from the flags or
  the first file's extension, and removing missing files from the file
  list.

Modules:

- `Common`: `Option`, `Result` and the Python exceptions that can end a
  call (`ValueError`, `IndexError`, `TypeError`, `SystemExit`).
- `Text`: `\w` and `\s`, `\b`, and the `str` methods used.
  - `index`, `rfind` and `split` are modelled.
  - `split` is proved to return at least one piece, to be undone by
    `join`, and to end with the text after the last separator.
- `Patterns`:
  - The Python pattern is proved sound and complete; its match, when one
    exists, is unique.
  - The Java matcher is proved sound. Its match is the first one a greedy
    backtracking engine tries.
  - `re.findall` and `re.sub` are scans over start positions. Without
    `re.MULTILINE`, `^` holds only at position 0, so each yields at most
    one match.
- `Obfuscate`:
  - `obfuscate_code` as written (`ObfuscateCode`, with the newline walk
    `WalkNewlines`).
  - The substitution step (`Rename`).
  - `ObfuscateFlipped`: the function with only its emptiness test turned
    round. For the Python template it still renames nothing.
  - `ObfuscateFixed`, the evidently intended function. It makes two
    corrections: the emptiness test is turned round, and for the Python
    template it renames group 1 of the pair that `re.findall` returns.
    Both are described under Findings.
- `Confuse`: the `Cli` object whose `files` list `main` shrinks, the
  dialect choice, and the filtering loop.

Character classes are read as ASCII. `\w` is `[A-Za-z0-9_]` and `\s` is
space, tab, line feed, carriage return, vertical tab and form feed.

The model follows the code. These behaviours of the code are easy to
miss:

- The patterns are applied to the whole buffer, not line by line: no
  `re.MULTILINE` flag is passed, so every match starts at the start of the
  buffer.
  - For the Python pattern, only a declaration at the very start of the
    buffer, after its leading whitespace, is found.
  - For the Java pattern, `[^=]*` also crosses line feeds. Group 1 is the
    last name candidate before the first `=`, on whatever line it lies: in
    `int a;` followed by `int b;` on the next line, `b` is found and `a` is
    not (`Patterns.JavaLaterLineDetected`).
- A first file without a `.` is not an error. Its whole name becomes the
  file type, which selects the Java pattern (`Confuse.NoExtensionIsJava`),
  unless that name is exactly `py`, which selects the Python pattern
  (`Confuse.BarePyIsPython`).
- A buffer in which a declaration is found is returned unchanged. A buffer
  without one makes `random.choice` raise (see Findings).
- The phase loop hands the open file object to `obfuscate_code`, so a run
  with `pre > 0` and an existing file ends in `TypeError`. There is no
  break injection and no commit step in the code.

## Model

| member | source | states |
|---|---|---|
| Text.SpaceEnd | confuse.py:13-14 | `^\s*` takes the longest run of whitespace: the run ends at the end of the text or at a non-space |
| Text.Index | confuse.py:100 | `s.index(c, start)` is the first `c` at or after `start`; ValueError exactly when there is none |
| Text.RFind | confuse.py:99 | `s.rfind(c)` is the last index holding `c`, or -1 when `c` does not occur |
| Text.PositionsMembers | confuse.py:99-103 | the newline index list holds exactly the newline indices, in increasing order |
| Text.Split | confuse.py:127-128 | `split` returns at least one piece, so the `len(filetype) < 1` exit cannot be taken |
| Text.SplitPiecesFree | confuse.py:127 | no piece of `s.split(sep)` contains `sep` |
| Text.JoinSplit | confuse.py:127 | `sep.join(s.split(sep)) == s`: the pieces are exactly the text between separators |
| Text.LastPieceAfterLastSep | confuse.py:127-131 | the last piece of `s.split(sep)` is the text after the last `sep`, or all of `s` when there is none |
| Patterns.PythonRegexMatches | confuse.py:13 | the piece-by-piece reading of `^\s*\b(\w+)\b(?=( ?=(?!=)))`: whitespace, a whole word, then an optional space and an `=` not followed by `=` |
| Patterns.PythonFind | confuse.py:13 | the hand-written Python matcher: take all leading whitespace and the whole word after it, then ` =` if it can, else `=` |
| Patterns.JavaRegexMatches | confuse.py:14 | the piece-by-piece reading of the Java pattern: whitespace, a word, text without `=`, a whole word (group 1), an optional space, then `;` or `=` |
| Patterns.JavaFind | confuse.py:14 | the hand-written Java matcher: take the leading word, then the rightmost name candidate before the first `=`; its match ends inside the buffer |
| Patterns.Format | confuse.py:107 | `regex_fmt.format(fill)`, also used at line 113: the Python template takes the fill into group 1; the Java template has no `{}` and is unchanged |
| Patterns.FindAll | confuse.py:107 | `re.findall` as a left-to-right scan that reports group 1 of each match and resumes after it |
| Patterns.Sub | confuse.py:113 | `re.sub` as a left-to-right scan that replaces each match by the replacement and copies the text between matches |
| Patterns.PythonFindPairs | confuse.py:107 | what `re.findall` returns for the two-group Python template: the pair of group 1 and the text ` =` or `=` of the lookahead group |
| Patterns.PythonPairsNames | confuse.py:107 | the pair list is as long as the one-group reading, its first components are those names, and its second components are ` =` or `=` |
| Patterns.PairPatternNeverMatches | confuse.py:113 | the Python template filled with the repr of a findall pair never matches any buffer: `\b` cannot hold before the repr's leading quote |
| Patterns.PairLiteralNeverFound | confuse.py:113 | the literal matcher finds nothing for the template filled with a pair's repr |
| Patterns.PythonFindSound | confuse.py:13 | whatever the Python matcher returns is a match of `^\s*\b(\w+)\b(?=( ?=(?!=)))` |
| Patterns.PythonFindComplete | confuse.py:13 | every match of the Python pattern is the one the matcher returns, so the pattern has at most one match |
| Patterns.RightmostCandidateIsLast | confuse.py:14 | the greedy `[^=]*` settles on the rightmost name position that is followed by ` ?` and `;` or `=` |
| Patterns.JavaFindSound | confuse.py:14 | whatever the Java matcher returns is a match of the Java pattern: leading whitespace, a word, text without `=`, a whole word (group 1), an optional space, then `;` or `=` |
| Patterns.JavaDeclarationShape | confuse.py:14 | the Java pattern matches iff, after the leading whitespace, the buffer starts with a word and some later position before the first `=` after that word starts a whole word directly followed by ` ?` and `;` or `=` |
| Patterns.JavaFindFirst | confuse.py:14 | every match of the Java pattern comes no earlier, in greedy backtracking order, than the one the matcher returns |
| Patterns.PythonLiteralFindAgrees | confuse.py:113 | the Python pattern of line 13 with a name filled in matches exactly when the wildcard pattern matches and captures that name, with the same span |
| Patterns.MatchAt | confuse.py:13-14 | a match is non-empty and ends inside the buffer |
| Patterns.MatchAtWord | confuse.py:13-14 | what group 1 captures is a non-empty word |
| Patterns.FindAllWords | confuse.py:107 | every name `re.findall` reports is a word |
| Patterns.FindAllAtMostOne | confuse.py:107 | `re.findall` with a `^`-anchored pattern and no MULTILINE flag yields the match at position 0 or nothing |
| Patterns.PythonFindAll | confuse.py:107 | `re.findall` with the Python pattern yields the matcher's captured name, or nothing |
| Patterns.JavaFindAll | confuse.py:107 | `re.findall` with the Java pattern yields the matcher's captured name, or nothing |
| Patterns.SubAtMostOnce | confuse.py:113 | `re.sub` replaces the match at the start of the buffer, if any, by the new name and keeps everything after it |
| Patterns.PythonDetection | confuse.py:107 | Python detection finds at most one name; it finds one iff the buffer starts with an assignment, and then the name is that assignment's word |
| Patterns.JavaDetection | confuse.py:107 | Java detection finds at most one name; it finds one iff the pattern matches, and then the name is the one captured by the first match in backtracking order |
| Patterns.PythonAssignmentDetected | confuse.py:13 | `x = 1` yields `["x"]` |
| Patterns.PythonNonAssignmentsIgnored | confuse.py:13 | `x == 1`, `x += 1` and `x  = 1` yield nothing |
| Patterns.JavaDeclarationDetected | confuse.py:14 | `int x = 5;` yields `["x"]` |
| Patterns.JavaComparisonDetected | confuse.py:14 | `return a == b;` yields `["a"]`: the Java pattern also fires on comparisons |
| Patterns.JavaLaterLineDetected | confuse.py:14 | `int a;`, a line feed, then `int b;` yields `["b"]`: `[^=]*` crosses the line feed and group 1 is the last candidate, not the declaration at the start |
| Obfuscate.Choice | confuse.py:111 | `random.choice` (also at line 105) raises IndexError exactly on an empty list and otherwise returns an element of it |
| Obfuscate.NewName | confuse.py:112 | the new name has `variable_length` characters (none for a negative length), all in `a`-`z` |
| Obfuscate.EveryNameCanBeDrawn | confuse.py:112 | every lowercase name of the requested length is one that can be drawn |
| Obfuscate.Rename | confuse.py:113 | Python: the indentation and the name of a declaration of the chosen variable are replaced and the rest is kept; otherwise the buffer is unchanged. Java: the template ignores the variable, and the whole match through `;` or `=` is replaced |
| Obfuscate.WalkNewlines | confuse.py:97-103 | without a newline `code.index` raises ValueError; otherwise the loop terminates at the last newline after reporting every earlier newline in order |
| Obfuscate.ObfuscateCode | confuse.py:91-115 | never returns a changed buffer. With `whitespace` it always raises (ValueError without a newline, IndexError otherwise). Without it, it returns the buffer unchanged iff a declaration is found, and otherwise raises IndexError |
| Obfuscate.AssignmentIsDetected | confuse.py:107-110 | `x = 1` holds a declaration, so `obfuscate_code` returns it unchanged |
| Obfuscate.AssignmentReturnedUnchanged | confuse.py:107-110 | `obfuscate_code("x = 1")` with the Python template returns `x = 1` |
| Obfuscate.JavaDeclarationReturnedUnchanged | confuse.py:107-110 | `obfuscate_code("int x = 5;")` with the Java template returns `int x = 5;`, although `x` is found |
| Obfuscate.ObfuscateFlipped | confuse.py:107-113 | `obfuscate_code` with only the test at line 108 turned round: a pair is chosen for the Python template, and line 113 writes its repr into the template |
| Obfuscate.FlippedKeepsPythonBuffer | confuse.py:111-113 | with only the test turned round, the Python template still returns every buffer unchanged |
| Obfuscate.FlippedJavaIsFixed | confuse.py:107-113 | for the Java template, turning the test round is the whole correction: the result equals the intended one |
| Obfuscate.ObfuscateFixed | confuse.py:107-113 | the intended `obfuscate_code`: unchanged without a declaration, else the detected name (group 1 for Python) is renamed to the drawn name |
| Obfuscate.FixedOutcomePython | confuse.py:107-113 | corrected variant, Python: no declaration leaves the buffer unchanged; otherwise the indentation and the name become the drawn name and the rest is kept |
| Obfuscate.FixedOutcomeJava | confuse.py:107-113 | corrected variant, Java: no match leaves the buffer unchanged; otherwise everything through the terminating `;` or `=` becomes the drawn name |
| Obfuscate.FixedRenamesPython | confuse.py:112-113 | corrected variant: for any match of the Python pattern, the result is the drawn name followed by what came after the matched name |
| Obfuscate.RenamedPythonMatch | confuse.py:113 | putting a lowercase name in place of a Python declaration's indentation and name gives a declaration of the new name |
| Obfuscate.RenamedDeclarationIsDetected | confuse.py:107-113 | after the corrected rename of a Python declaration, detection on the new buffer finds exactly the new name |
| Obfuscate.AssignmentRenamed | confuse.py:107-113 | corrected variant on `x = 1`: the result is the drawn name followed by ` = 1` |
| Obfuscate.JavaDeclarationRenamed | confuse.py:107-113 | corrected variant on `int x = 5;`: the match `int x =` becomes the drawn name and ` 5;` is kept |
| Confuse.Cli.constructor | confuse.py:17-85 | the parsed command line with at least one file |
| Confuse.Cli.Run | confuse.py:118-153 | the pattern is the one `SelectDialect` chooses. The run ends in TypeError iff `pre > 0` and some file exists, and then `files` has lost only the missing paths before the first existing one. Otherwise `files` is exactly the existing paths and the report is chosen by `dry` |
| Confuse.Cli.ProcessFiles | confuse.py:134-148 | the loop over the copy removes each missing path, stops with a failure at the first existing path when `pre > 0`, and otherwise leaves exactly the existing paths in order |
| Confuse.FileType | confuse.py:121-131 | the file type is always determined: the `sys.exit(1)` branch is unreachable |
| Confuse.FileTypeIsExtension | confuse.py:121-131 | `--java` gives `java`; otherwise `--python` gives `py`; otherwise the type is the text after the last `.` of the first path, or the whole path |
| Confuse.PythonSelected | confuse.py:122-133 | the Python pattern is used iff `--java` is absent and either `--python` is given or the first path's extension is exactly `py` |
| Confuse.DialectOf | confuse.py:133 | the Python pattern for the file type `py`, the Java pattern for any other |
| Confuse.NoExtensionIsJava | confuse.py:127-133 | every first path without a `.`, other than `py`, selects the Java pattern |
| Confuse.BarePyIsPython | confuse.py:127-133 | a first path named exactly `py` has the file type `py` and selects the Python pattern |
| Confuse.Existing | confuse.py:134-138 | the paths that exist, in their order; never longer than the list |
| Confuse.ExistingMembers | confuse.py:134-138 | a path is kept iff it is listed and exists |
| Confuse.RemoveFirst | confuse.py:137 | `list.remove` raises ValueError iff the path is absent; otherwise it takes out one occurrence and nothing else |
| Confuse.DropStep | confuse.py:134-137 | removing a missing path from the partly filtered list drops exactly the occurrence being visited |
| Confuse.FirstExisting | confuse.py:134-144 | the first path that exists: every earlier path is missing |

## Left out

- Argument parsing (confuse.py:17-85) is not modelled. `Cli` is built
  from values that are already parsed, and `--no-commit`, `--quiet` and
  `--verbose` are left out because `main` never reads them.
- Logging and `print` calls only produce output. The closing log line is
  kept as the `Report` value that `Run` returns.
- File-system access: `present` stands for the paths that exist and can
  be opened.
- Confuse.Cli.Run: errors raised by `open` itself (confuse.py:140) are not
  modelled. A directory passes `Path.exists`, but opening it raises
  IsADirectoryError. Mode `r+` on a read-only file raises PermissionError.
  Either ends `main` even when `pre <= 0`, where `Run` promises `Ok`.
- Randomness: the index `random.choice` picks and the letters
  `random.choices` draws are parameters.
- `list(set(variables))` at confuse.py:111: the order of a set is not
  modelled. The list is empty there whenever that line is reached, and
  holds at most one name otherwise.
- The `breaks` and `post` loops (confuse.py:145-148) only log. For an
  existing file they are reached only when `pre <= 0`, since the first
  round of the `pre` loop raises. A negative `--pre` is accepted by
  argparse and gives an empty `range`.
- Obfuscate.ObfuscateCode: it reports the exception that ends the call, not
  the log lines or the partial newline report printed before it.
- Patterns.FindAll: for the Python template it returns group 1 of each
  match. The pairs `re.findall` really returns are `PythonFindPairs`.
  `ObfuscateCode` uses `FindAll` because only the list's length matters
  at confuse.py:108, and `PythonPairsNames` proves the lengths agree.
- Full Python `re` and Unicode semantics are not modelled. Only the two
  fixed patterns are, with ASCII character classes.
- `re.sub` with a replacement that holds backslashes is not modelled.
  Generated names are lowercase letters only.

## Findings

| source | as written | input that shows it | evidently intended | confidence | as-written member | corrected member |
|---|---|---|---|---|---|---|
| confuse.py:108-111 | the test `len(variables) > 0` sends a buffer with a declaration to the "no declarations found" branch, which returns it unchanged; an empty list goes on to `random.choice` and raises IndexError | the Java buffer `int x = 5;`: `x` is found, yet the buffer comes back unchanged | return unchanged only when nothing was found (`len(variables) == 0`), and otherwise rename the detected declaration to the drawn name | not executed | Obfuscate.JavaDeclarationReturnedUnchanged | Obfuscate.JavaDeclarationRenamed |
| confuse.py:111-113 | the Python template has two groups, so `re.findall` returns pairs and `variable` is a pair. Line 113 writes the pair's repr into the template. `\b` cannot hold before the repr's leading quote, so the pattern never matches and `re.sub` gives the buffer back, even with the test at line 108 turned round | the Python buffer `x = 1` with the test turned round: the pattern asks for the text `'x', ' ='`, matches nothing, and the buffer comes back unchanged | rename group 1 of the chosen pair, `variable[0]` | not executed; plausible | Obfuscate.FlippedKeepsPythonBuffer | Obfuscate.AssignmentRenamed |
