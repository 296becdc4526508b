# files_cleaner in Dafny

A model of the file cleaner in `main.py`. The cleaner takes a repertory (directory), a delay, a unit of
time and an optional target timestamp. It verifies these settings in four ordered steps. It then walks the
repertory and removes every file whose age, in the chosen unit, is strictly greater than the delay. Finally
it reports how many files it removed.

The project has four modules:

- `UnitOfTime` (`unit_of_time.dfy`): the enumeration and `is_valid`. The list `is_valid` filters is
  modelled exactly as written (main.py:20-25): it holds `MINUTE` twice and no `MONTH`. So "month" is
  refused, even though the docstring and the error message list it. The match is exact and
  case-sensitive, so "Day" is refused.
- `Text` (`text.dfy`): Python's `str.strip()` over the Unicode whitespace set that `str.isspace` uses,
  and the plural suffix rule of the messages.
- `Conversion` (`conversion.dfy`): the `units` table of `remove_files` (main.py:110-117). `int(x / d)`
  truncates toward zero. It is written out as `TruncDiv`, so negative ages (a timestamp in the future)
  convert as Python converts them.
- `Cleaner` (`cleaner.dfy`): the parsed arguments, the `Cleaner` class and its `__init__`
  normalisation, `check` as the function `Validate`, and the sweep. The sweep is the class method
  `RemoveFiles`, with the same two nested loops as the source. It is proved against the specification
  functions `Actions` and `RemovedCount`, and `Run` ties check and sweep together as `run()` does.

The filesystem, the clock and the removal call are replaced by data. `os.walk` becomes a sequence with
one sequence of `FileEntry` per directory it yields. Each `FileEntry` holds the file's age since its
modification time, its age since its creation or status-change time, and whether `os.remove` succeeds
on it. `os.path.exists` becomes the boolean `pathExists`. The printed log of the sweep becomes a
sequence of `Action`s, one per file: `Kept`, `Removed` or `RemovalFailed`.

Specification functions without contracts of their own:
- `Cleaner.GuardHolds` and `Cleaner.Step` give the four guards of `check` and their order
  (main.py:73-87).
- `Cleaner.Message` gives their texts (main.py:74, 78, 82, 86).
- `Cleaner.TargetOf` gives the default target (main.py:66).
- `Cleaner.TargetAge` selects the timestamp (main.py:107).
- `Cleaner.IsCandidate` is the removal test (main.py:119).
- `Cleaner.Decide` is the per-file try/except (main.py:119-133).
- `Cleaner.Flatten` puts the walk's directories in order (main.py:98-99).
- `Cleaner.RemovedCount`, `Cleaner.CandidateCount`, `Cleaner.Actions` and `Cleaner.Survivors` are what
  a sweep counts, selects, logs and leaves behind.

Where the code and its documentation disagree, the model follows the code:
- The unit name must match exactly in lower case. It is not matched case-insensitively.
- "month" is refused.
- The delay guard refuses only 0. A negative delay passes, and then every file whose age is not
  negative becomes a candidate (`NegativeDelayTakesEverything`). A file dated in the future is a candidate
  only while its age in seconds is above the delay in whole units (`ExceedsIffSecondsNegative`). With a
  delay of -1 day, a file dated 12 hours ahead is removed, and one dated a full day ahead is kept
  (`FutureFilesUnderNegativeDelay`).

## Model

| member | source | states |
|---|---|---|
| `UnitOfTime.Matching` | main.py:17-27 | the set of members kept is exactly the set of listed members whose lower-cased name equals the value, and no more members are kept than the list has |
| `UnitOfTime.IsValid` | main.py:15-29 | `is_valid(v)` holds iff some member of the literal list has lower-cased name equal to `v` |
| `UnitOfTime.IsValidExactly` | main.py:16-29 | `is_valid` accepts exactly "second", "minute", "hour", "day" and "year"; "month" and every other string are refused |
| `UnitOfTime.UpperCaseRefused` | main.py:18 | the comparison is case-sensitive: any string holding an ASCII upper-case letter ('A' to 'Z') is refused |
| `Text.StripLeft` | main.py:67-68 | the result is a suffix of the input, starts with a non-whitespace character (or is empty), and everything dropped is whitespace |
| `Text.StripRight` | main.py:67-68 | the result is a prefix of the input, ends with a non-whitespace character (or is empty), and everything dropped is whitespace |
| `Text.Strip` | main.py:67-68 | `str.strip()` yields a contiguous slice of the input with no whitespace at either end, and only whitespace is removed around it |
| `Text.StripEmptyIff` | main.py:68 | the stripped string is empty iff the input is whitespace only |
| `Text.StripIdempotent` | main.py:67-68 | stripping an already stripped string changes nothing |
| `Text.PluralSuffix` | main.py:136 | the suffix is "s" iff the number shown is greater than 1, and empty for 1, 0 and negative numbers (also used at main.py:94 and main.py:126) |
| `Conversion.TruncDiv` | main.py:112-116 | `int(a / d)` is the quotient truncated toward zero: nonnegative with `q*d <= a < q*d + d` for `a >= 0`, nonpositive with `q*d - d < a <= q*d` for `a < 0` |
| `Conversion.DivBounds` | main.py:112-116 | the quotient of a nonnegative dividend is nonnegative and brackets the dividend between `q*d` and `q*d + d` |
| `Conversion.TruncDivMonotone` | main.py:112-116 | a truncated quotient never decreases when the dividend grows, negative dividends included |
| `Conversion.TruncDivBetween` | main.py:112-116 | a truncated quotient lies between 0 and its dividend |
| `Conversion.Factor` | main.py:110-117 | every unit stands for at least one second, so the divisions of the table are defined |
| `Conversion.FactorsNest` | main.py:112-116 | the divisors nest: a minute is 60 seconds, an hour 60 minutes, a day 24 hours, a month 30 days and a year 12 months |
| `Conversion.UnitsTable` | main.py:110-117 | the table has exactly the six unit names as keys, and the entry of each unit is the age truncated to whole units of its factor (1, 60, 3600, 86400, 86400*30, 86400*30*12) |
| `Conversion.AcceptedUnitHasEntry` | main.py:77-119 | every unit `is_valid` accepts is a key of the table, so after a passing check the lookup `units[self.unit_of_time]` never fails |
| `Conversion.ConvertedAge` | main.py:110-119 | the looked-up age is the age divided by the unit's factor, truncated, and lies between 0 and the age in seconds |
| `Conversion.ConvertedAgeMonotone` | main.py:110-117 | in every unit, an older file never shows a smaller converted age |
| `Conversion.ExceedsIffSeconds` | main.py:110-119 | for a delay of zero or more, the converted age exceeds the delay iff the age in seconds is at least (delay + 1) units |
| `Conversion.ExceedsIffSecondsNegative` | main.py:110-119 | for a negative delay, the converted age exceeds the delay iff the age in seconds exceeds the delay in whole units |
| `Conversion.TruncExceedsNegative` | main.py:112-119 | for a negative delay, a truncated quotient exceeds the delay iff the dividend exceeds the delay times the divisor |
| `Conversion.FutureFilesUnderNegativeDelay` | main.py:114-119 | with a delay of -1 day, an age of -12 hours converts to a candidate and an age of -1 day does not |
| `Cleaner.Validate` | main.py:70-87 | `check` passes iff all four guards hold; otherwise the error is a failing guard and every guard of an earlier step holds (empty name, then invalid unit, then delay 0, then missing path) |
| `Cleaner.NonzeroDelaysAgree` | main.py:81-83 | the delay guard refuses only 0: every nonzero delay, negative ones included, gets the same verdict, which is never the delay error |
| `Cleaner.BlankRepertoryRefused` | main.py:68-74 | after stripping, the check fails at step 1 iff the given repertory name is whitespace only |
| `Cleaner.ActionsPointwise` | main.py:98-133 | the sweep's log has one entry per file, and each entry is that file's own action, so a failed removal does not stop the later files from being handled |
| `Cleaner.CountsBounded` | main.py:96-131 | 0 <= files removed <= candidates <= files |
| `Cleaner.RemovedCountAppend` | main.py:98-131 | the removal count of two runs of files is the sum of their counts |
| `Cleaner.SecondSweepRemovesNothing` | main.py:119-131 | every file is either removed and counted or left in place, and a second sweep with the same settings over what is left removes nothing |
| `Cleaner.NoCandidateSurvives` | main.py:119-131 | when every candidate can be removed, nothing the sweep leaves is a candidate, so a second sweep at the same ages logs every file as kept |
| `Cleaner.NoCandidateAllKept` | main.py:119-131 | a run of files holding no candidate is logged as all kept |
| `Cleaner.CandidateCountAppend` | main.py:98-119 | the candidate count of two runs of files is the sum of their counts |
| `Cleaner.LargerDelayRemovesFewer` | main.py:119 | raising the delay never increases the number of files removed |
| `Cleaner.OtherTargetsAgree` | main.py:107 | every target other than "update" uses the other timestamp, so each sweeps exactly like "creation": the same log, file by file, and the same count |
| `Cleaner.NegativeDelayTakesEverything` | main.py:81-82 | with a negative delay, which passes the check, every file whose measured age is not negative is a candidate |
| `Cleaner.SweepScenarios` | main.py:119-131 | a file modified 40 days ago is removed with a 30-day delay and kept with a 50-day delay; of two old files and a young one, the log is removed, failed removal, kept (the failure does not stop the young file from being handled) and only the successful removal is counted |
| `Cleaner.Cleaner.constructor` | main.py:64-68 | the delay is kept, the target defaults to "update" when absent and is otherwise kept unchanged, and the unit and repertory are stripped |
| `Cleaner.Cleaner.SweepFile` | main.py:103-133 | one file is kept iff it is not a candidate, and removed iff it is a candidate on which removal succeeds; otherwise the removal fails and is logged |
| `Cleaner.Cleaner.SweepDirectory` | main.py:99-133 | the inner loop over one directory's files extends the log by exactly their `Actions` and the counter by exactly their `RemovedCount` |
| `Cleaner.HandleOneMore` | main.py:119-131 | handling one more file appends its action to the log and adds one to the counter iff the file is removed |
| `Cleaner.Cleaner.RemoveFiles` | main.py:89-136 | the nested loops log exactly `Actions` of the walk's files in order, and the counter equals `RemovedCount`, the number of candidates whose removal succeeded |
| `Cleaner.Run` | main.py:138-146 | the run is rejected iff `check` fails on the stripped arguments, with that error and its message; otherwise the sweep's counter and log are those of the specification for the stripped unit and the defaulted target, and the closing line's suffix is "s" iff more than one file was removed |

## Left out

- Argument parsing (main.py:50-53, main.py:64): argparse's usage errors and its integer parsing are library behaviour. The parsed values are the input `Arguments`.
- The banner and every `print` (main.py:55-63, main.py:71-87, main.py:90-95, main.py:120-127, main.py:133, main.py:136, main.py:146): output only. The model keeps what decides the text: the error (`Message`), the per-file `Action` and `PluralSuffix`. The decimal formatting of numbers and the path strings are not modelled.
- Filesystem and clock (main.py:85, main.py:98-105, main.py:130): `os.walk`, `os.path.exists`, `os.path.getmtime`, `os.path.getctime`, `datetime.now`, `os.remove` and the joining of directory and file names become input data: the walk as a sequence of directories' files, `pathExists`, ages already computed, and a per-file removal outcome.
- Actual deletion: the model does not change a filesystem. `Survivors` describes what stays, and `SecondSweepRemovesNothing` and `NoCandidateSurvives` state the second-run behaviour over it.
- `Cleaner.SecondSweepRemovesNothing`: it assumes that a removal which failed once fails again and that ages do not change between the runs. The source's second run would call `os.remove` again on such a file, and a transient failure could then succeed. `NoCandidateSurvives` is the form that needs no frozen outcome: when every candidate can be removed, nothing left is a candidate.
- Fractional seconds (main.py:108-111): ages are whole seconds. For the "second" unit the source compares the fractional age, so an age of 30.5 seconds exceeds a delay of 30 where the model's 30 does not. Float rounding of very large ages in `x / d` is not modelled either.
- Errors outside the per-file `try` (main.py:103-105): a file that vanishes between the walk and `getmtime`/`getctime` raises an exception that ends the run. Errors of the walk itself are not modelled either.
- `Cleaner.Cleaner.RemoveFiles`: the unit is required to be one of the table's six keys. The source would raise `KeyError` for any other unit, and its only caller runs it after a passing check, which ensures this (`AcceptedUnitHasEntry`).
