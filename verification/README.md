# fff-ir-lint in Dafny

A model of the core of `fff-ir-lint`, a linter for Flipper Zero infrared
files (`.ir`). It also models the configuration loader of the linter's
signal-name rewrite feature.

An `.ir` file is a text file. Its first two lines are a header. After them
come `key: value` lines that describe signals, one key per line, in a fixed
order. Comment lines start with `#`.

`check_file` reads the file line by line. It runs a fixed list of eight
checks on every ordinary line, and only the non-ASCII check on comment
lines. Each check either passes or returns a `Result`. A `Result` carries:

- error indicators: column ranges, where `-1` means "the end of the line";
- a message;
- an optional suggestion;
- an exit rule.

The exit rule may end the line, stop the whole file, or switch the
reporting check off for the rest of the file. Every result is reported to a
callback. An `ErrorCounter` counts the reports per file and in total.

The model has one Dafny module per part of the program:

| file | module | models |
|---|---|---|
| `wrappers.dfy` | `Wrappers` | `Option` |
| `text.dfy` | `Text` | the Python `str` operations the checks use: `strip`, `lstrip(' ')`, `rstrip(' ')`, `index`, `split`, `join`, `lower`, and the `replace('  ', ' ')` loop |
| `indicator.dfy` | `Indicators` | `ErrorIndicator`, `fix`, `create_error_indicator_array` |
| `results.dfy` | `Results` | exit rules, `Result` with its builders `mir`/`sir`/`sirf`/`sirt`, and `Context` |
| `foreign.dfy` | `Foreign` | `difflib.get_close_matches` and `float()` as parameters |
| `checks.dfy` | `Checks` | seven of the eight line checks |
| `order.dfy` | `KeyOrder` | `SignalKeyOrderCheck`, the order state machine, and the language of valid signal orders |
| `driver.dfy` | `Driver` | `check_file` |
| `counter.dfy` | `ErrorCounting` | `ErrorCounter`, and counting the reports of a run |
| `config.dfy` | `NameConfig` | `config.py`: pattern parsing, the rewrite lookup, and `load_name_check_config` |

Modelling choices:

- The driver is written over a `Runner`, a function value that runs one
  check on one line. `Driver.Dispatch` is the concrete runner with the
  eight checks. The driver lemmas assume of a runner only what
  `Driver.DispatchBehaves` proves of `Dispatch`.
- A report carries the line number, the line, the resolved `Result`, and
  also the identity of the check that produced it. The extra field lets the
  model state the order of reports within a line.
- `load_name_check_config` shares one dict between all prefixes of a
  comma-separated key, and later keys mutate that dict in place. The model
  keeps an explicit heap of dicts and lists, so this aliasing is reproduced
  (`NameConfig.SharedDictExample`).

Four points where the code does less than it appears to, and the model
follows the code:

- Skip dependencies. Each check declares a method `ignore_if_failed`, whose
  docstring says the check is not run when one of the returned checks failed
  (lint.py:180-182). The driver tests `isinstance(check.ignore_if_failed,
  list)` (lint.py:569). That is always false, because `ignore_if_failed` is
  a method and not a list. So no check is ever skipped, and the model has no
  skip.
- Stored results. `Context.update_result` stores each check's latest result
  in a dict (lint.py:152-155). No check reads that dict, and
  `did_check_fail` (lint.py:157-160) has no caller. The model keeps the dict
  as a map (`Results.Context.UpdateResult`).
- The blank after the colon. The key-value check only asks that the value
  start with a blank (lint.py:326-332). The key-value pattern then accepts
  any number of further blanks.
- The third whitespace test. `WhiteSpaceCheck` tests leading `\s`, then
  trailing `\s`, then `line.strip() != line`. Python's `\s` and `strip()`
  use the same whitespace set, so the third test can never fire
  (`Checks.StripMismatchUnreachable`).

## Model

| member | source | states |
|---|---|---|
| `Text.Strip` | lint.py:241-242 | The result is a contiguous slice of the line that starts after the maximal whitespace prefix. Everything after the slice is whitespace. The slice neither starts nor ends with whitespace. |
| `Text.LStripBlanks` | lint.py:234 | The result is the line after its maximal run of leading blanks, and it does not start with a blank. |
| `Text.RStripBlanks` | lint.py:239 | The result is the line before its maximal run of trailing blanks, and it does not end with a blank. |
| `Text.IndexOf` | lint.py:326 | The result is the first position of the character, or the length when the character is absent. It equals the length exactly when the character does not occur. |
| `Text.FindFrom` | lint.py:501 | The result is the first position at or after `from` where the substring occurs. No earlier position in the range has an occurrence. |
| `Text.Split` | config.py:69 | Splitting yields at least one part, and no part contains the separator. |
| `Text.SplitJoin` | config.py:69 | Joining the parts of a split with the same separator gives back the original string. |
| `Text.Lower` | config.py:9 | Lower-casing keeps the length and lower-cases each character in place. |
| `Text.ReplaceDoubleSpace` | lint.py:250-251 | One `replace('  ', ' ')` never lengthens the string, and it shortens it when a double blank is present. It adds no new character and keeps the string's non-blank characters in order. |
| `Text.ReplaceKeepsCollapse` | lint.py:250-251 | One `replace('  ', ' ')` loses nothing but blanks that follow a blank: collapsing every run of blanks to one blank gives the same string before and after it. |
| `Text.SquashDoubleSpaces` | lint.py:249-251 | The loop returns the string with every run of blanks collapsed to a single blank (`CollapseBlanks`, defined character by character). So it leaves no double blank, keeps the non-blank characters in order, and returns a string without a double blank unchanged. |
| `Text.SquashExample` | lint.py:249-251 | The suggestion for `a   b  c` is `a b c`. |
| `Indicators.Fix` | lint.py:30-41 | A `-1` bound is replaced and every other bound is kept. No `-1` remains. |
| `Indicators.FixIdempotent` | lint.py:30-41 | Resolving twice is the same as resolving once. A `-1` bound becomes exactly the line's length. |
| `Indicators.CoveredBelowMaxEnd` | lint.py:43-62 | Every position covered by some indicator lies below the width of the marker row. |
| `Indicators.CreateErrorIndicatorArray` | lint.py:43-62 | The row is as wide as the longer of `length` and every indicator's end. A cell holds the symbol exactly when some indicator covers it, and a blank otherwise. |
| `Results.Result.Update` | lint.py:87-91 | Each indicator is resolved against the line. The exit rule, the message and the suggestion are unchanged. |
| `Results.Result.WithExitRule` | lint.py:93-103 | Only the exit rule is replaced. The indicators, message and suggestion are kept. |
| `Results.BuildersResolved` | lint.py:105-139 | Once resolved against a line, `sir` marks `[from, to)`, `sirf` marks from `from` to the end of the line, and `sirt` marks from 0 to `to`. All builders leave the exit rule at its default. |
| `Results.Context.UpdateResult` | lint.py:152-155 | The stored checks gain the given check, which maps to the new result. Every other stored result and the last key are unchanged. |
| `Results.Context.SetLastKey` | lint.py:162-165 | The last key becomes the given key, and the stored results are unchanged. |
| `Checks.EmptyLineCheck` | lint.py:194-202 | The check fires exactly when the line is all whitespace. It then reports `[0, 1)`, suggests `#` and ends the line. |
| `Checks.WhiteSpaceCommentCheck` | lint.py:204-214 | The check fires exactly when the first character after the leading whitespace is `#` and that whitespace is not empty. The whitespace is marked and the line is ended. |
| `Checks.CommentAfterSpace` | lint.py:211 | "The stripped line starts with `#`" is the same as "the first non-whitespace character is `#`". |
| `Checks.DoubleSpaceRunsShape` | lint.py:244-247 | Every span the multi-space search reports is a maximal run of two or more whitespace characters. |
| `Checks.DoubleSpaceRunsSorted` | lint.py:244-247 | The reported spans are disjoint, separated from each other, and in increasing order. |
| `Checks.DoubleSpaceRunsCover` | lint.py:244-247 | Every whitespace character that has a whitespace neighbour lies in a reported span. |
| `Checks.DoubleSpaceRunsNonEmpty` | lint.py:244-248 | The search reports something exactly when two whitespace characters are adjacent. |
| `Checks.WhiteSpaceCheck` | lint.py:216-254 | Every result the whitespace check gives leaves the exit rule at its default. |
| `Checks.WhiteSpaceCheckLeading` | lint.py:232-234 | Leading whitespace takes precedence. It is reported as `[0, k)` for the maximal prefix `k`, with the line minus its leading blanks as the suggestion. |
| `Checks.WhiteSpaceCheckTrailing` | lint.py:236-239 | Without leading whitespace, trailing whitespace is reported from the start of the maximal suffix to the end of the line. The suggestion is the line minus its trailing blanks. |
| `Checks.StripMismatchUnreachable` | lint.py:240-242 | A line with neither leading nor trailing whitespace equals its own strip, so the third test never fires. |
| `Checks.WhiteSpaceCheckRuns` | lint.py:243-254 | On a line with whitespace at neither end, the check fires exactly when two whitespace characters are adjacent. It then reports the runs, and the suggestion is the squashed line. |
| `Checks.SquashSuggestionPasses` | lint.py:249-252 | Applying the double-blank suggestion to a line whose only whitespace is blanks gives a line the whitespace check accepts. |
| `Checks.SquashKeepsEnds` | lint.py:249-251 | Collapsing double blanks keeps an empty line empty and a non-empty line non-empty. It keeps a non-blank first and last character. |
| `Checks.DescriptorCheck` | lint.py:256-270 | The check fires exactly when line 1 is neither header literal, or when line 2 does not match `Version:\s\d+`. It reports from column 0 to the end with the fixed suggestion. |
| `Checks.VersionLineExamples` | lint.py:261 | The version pattern accepts `Version: 1` and `Version:\t42`. It rejects `Version:1`, `Version: 1a` and `Version: `. |
| `Checks.NonAsciiMarks` | lint.py:281-284 | The width-one marks flag exactly the positions that are outside printable ASCII, the degree sign and tab. |
| `Checks.KeepAllowed` | lint.py:285-286 | The split-and-join keeps exactly the allowed characters, never lengthens the line, and leaves an all-allowed line unchanged. |
| `Checks.KeepAllowedAppend` | lint.py:285-286 | Filtering a concatenation is concatenating the filtered parts, so the allowed characters keep their order. |
| `Checks.KeepAllowedChar` | lint.py:285-286 | One character is kept exactly when it is allowed. With `KeepAllowedAppend` this fixes the result for every line. |
| `Checks.NonAsciiCheck` | lint.py:272-291 | The check fires exactly when some character is not allowed. It then flags exactly those positions and ends the line. Its suggestion is the line with the disallowed characters removed and every run of blanks collapsed to one blank (`CollapseBlanks`), so it holds only allowed characters and no double blank. |
| `Checks.NonAsciiSuggestionPasses` | lint.py:285-289 | The suggested line passes the non-ASCII check. |
| `Checks.BlankInserted` | lint.py:330-331 | The suggestion has its first colon where the line had it, a blank right after it, and dropping that blank gives the line back. |
| `Checks.MissingBlankResult` | lint.py:326-332 | The colon is flagged with the default exit rule. The suggestion is the line with one blank inserted after the colon. |
| `Checks.KeyValueValidityCheck` | lint.py:318-349 | The stored results are never touched, and a failing line leaves the whole context unchanged. The check never stops the file or switches itself off. |
| `Checks.KeyValueVerdictOwnLine` | lint.py:318-347 | The key-value verdict depends on the line alone, not on the context it is given. |
| `Checks.KeyValueOutcome` | lint.py:318-349 | The check passes exactly when the line is a well-formed pair with a known key. |
| `Checks.KeyValueRecordsKey` | lint.py:348 | The last key changes only when the check passes, and then it becomes the line's key. |
| `Checks.KeyValueNoColon` | lint.py:320-322 | The check ends the line exactly when there is no colon, and then it flags the whole line. |
| `Checks.KeyValueMissingBlank` | lint.py:326-332 | A colon that is not followed by a blank gets exactly the `MissingBlankResult` report. |
| `Checks.KeyValueUnknownKey` | lint.py:339-347 | A well-formed pair with an unknown key is flagged over the key and does not end the line. Any suggestion puts a valid key in front of the original value. |
| `Checks.CheckData` | lint.py:467-481 | The marks flag exactly the characters that are neither blanks, digits, nor a `-` at the start of a token. They are shifted past the key and the colon. |
| `Checks.CheckHex` | lint.py:483-493 | The marks flag exactly the characters that are neither blanks nor hexadecimal digits, shifted past the key and the colon. |
| `Checks.ValueStart` | lint.py:501 | The position is the first occurrence, at or after the colon, of the stripped value. |
| `Checks.StrippedValueOccurs` | lint.py:501 | The stripped value occurs right after the whitespace that follows the colon. |
| `Checks.DataResult` | lint.py:503-506 | A `data` value is reported exactly when some character of it is not allowed. Exactly those characters are then flagged, at their columns in the line. |
| `Checks.HexResult` | lint.py:508-511 | An `address` or `command` value is reported exactly when some character of it is neither a blank nor a hexadecimal digit. Exactly those characters are then flagged, at their columns in the line. |
| `Checks.ProtocolResult` | lint.py:513-520 | The check passes exactly when the stripped value is one of the eleven protocols. Otherwise it reports from the value's start to the end, and any suggestion names a known protocol. |
| `Checks.DutyCycleResult` | lint.py:522-528 | The value passes exactly when it parses as NaN or as a finite float in `[0, 1]`. A NaN passes because both comparisons are false. The message is the "must be a float" one exactly when parsing fails. |
| `Checks.DataValidityCheck` | lint.py:495-530 | A line without a colon is flagged whole. Otherwise the verdict is the value check chosen by the key, on the text after the first colon. |
| `Checks.NoPairResult` | lint.py:497-498 | The report flags the whole line with the default exit rule. |
| `Checks.ValueResultDispatch` | lint.py:503-530 | `data`, `address`/`command`, `protocol` and `duty_cycle` go to their own branches, and every other key passes. |
| `KeyOrder.OrderRule` | lint.py:365-379 | There is an order rule exactly for the keys of the order table. |
| `KeyOrder.Lookup` | lint.py:422-427 | A lookup succeeds exactly when some branch is labelled with the value, and then it gives that branch's target. |
| `KeyOrder.OrderResult` | lint.py:400-431 | Every report of the order logic switches the check off for the rest of the file. |
| `KeyOrder.ValueStartAfterBlanks` | lint.py:393-398 | The value starts after the colon and the blanks that follow it, at the first character that is not a blank. |
| `KeyOrder.SignalKeyOrderCheck` | lint.py:381-433 | Every report either keeps the default exit rule, which is the no-colon case, or switches the check off. |
| `KeyOrder.SignalKeyOrderCheckSkips` | lint.py:382-389 | A line without a colon is reported with the default exit rule and leaves the expectation alone. The keys `Filetype` and `Version` pass without touching the expectation. |
| `KeyOrder.SignalKeyOrderCheckParses` | lint.py:385-433 | Every other line is judged by `OrderResult` on the stripped key and value. The key ends at the colon, and the value starts after the blanks that follow it. |
| `KeyOrder.OrderResultIsStep` | lint.py:400-431 | The verdict agrees with the one-step transition `Step`. The check passes exactly when `Step` accepts, and then the new expectation is `Step`'s. Every report switches the check off. |
| `KeyOrder.OrderResultWrongKey` | lint.py:404-417 | A known key that does not match the expectation is flagged from column 0 to the colon. A mismatch against one expected key suggests that key, and `name` is suggested before any expectation exists. |
| `KeyOrder.StepSpec` | lint.py:365-431 | `Step` accepts exactly a known key that matches the expectation with an acceptable value. It then expects exactly the successors the table gives. |
| `KeyOrder.AcceptsChained` | lint.py:381-433 | From any expectation, a sequence of pairs passes exactly when the first key matches and each following key is a successor of the one before it. |
| `KeyOrder.AcceptsIffValidOrder` | lint.py:381-433 | A fresh check lets a sequence of pairs through exactly when the sequence is a valid signal order: it starts with `name` and follows the table. |
| `KeyOrder.OrderExamples` | lint.py:365-379 | A raw signal in the documented order is valid. A signal whose `type` is neither `parsed` nor `raw` is not. |
| `Driver.RunCheck` | lint.py:539-553 | No check touches the stored results. Only the key-value check changes the context, and only the key-order check changes its expectation. No check stops the file, and only the key-order check switches itself off. |
| `Driver.DispatchBehaves` | lint.py:539-553 | The concrete runner meets both assumptions of the driver lemmas: it leaves the stored results alone, and only the key-order check switches itself off. |
| `Driver.RunLineOnLine` | lint.py:585-591 | Every report of a line carries that line and its number, and all its indicators are resolved. |
| `Driver.RunLineFromActive` | lint.py:567 | Each report of a line comes from a check that was active when the line started. |
| `Driver.RunLineExits` | lint.py:593-602 | Only the last report of a line can end the line, and the file stops exactly when that report asks for it. `Driver.RunLineStep` gives the other direction: a report that does not end the line lets the later checks run and report. |
| `Driver.Step` | lint.py:567-602 | One pass of the inner loop adds a report exactly when the check is on and finds something, and it ends the line exactly when that report's exit rule says so. |
| `Driver.StepReport` | lint.py:574-591 | The report an active check adds is its own result resolved against the line, with the line's number and text. |
| `Driver.RunLineStep` | lint.py:567-602 | The loop from a check is that check's report followed, unless the report ends the line, by every report of the loop from the next check. |
| `Driver.ReachNext` | lint.py:567-602 | The loop reaches the next check exactly when it reaches this one and this one's step does not end the line. |
| `Driver.RunLineReaches` | lint.py:567-602 | The reports of the loop from a check it reaches are the tail of the line's reports. |
| `Driver.RunLineReportsReached` | lint.py:567-591 | Every check the loop reaches that is on and finds something has its resolved result among the line's reports. |
| `Driver.EarlyChecksPass` | lint.py:567-602 | When the blank-line check finds nothing and the comment-indentation check is off or finds nothing, the loop reaches the key-value check with the expectation unchanged. |
| `Driver.LaterChecksReport` | lint.py:567-602 | After a key-value report that does not end the line, the key-order check reports when it is on and finds something, and then, unless that report ends the line, the value check reports when it finds something. |
| `Driver.KeyValueKeepsLine` | lint.py:320-347 | On an ordinary line, a key-value report that does not end the line comes with the key-order and value reports, under the same conditions, with the linter's own checks. |
| `Driver.RunLineRanked` | lint.py:567-602 | Within one line, reports come in the order of the check list. |
| `Driver.RunLineContext` | lint.py:585-588 | The stored results gain exactly the checks that reported, each mapped to its latest result. |
| `Driver.RunLineSwitchOff` | lint.py:598-601 | Under that runner assumption, every switch-off report of a line comes from the key-order check. Only key-order flags are turned off, and a line whose last report switches off has turned off a key-order flag. |
| `Driver.ReadLinesUnlines` | lint.py:558 | Reading lines loses nothing but a missing final newline. Writing the lines back, each with a newline, gives the text with a final newline. |
| `Driver.ScanLinesLines` | lint.py:558-591 | Every report names its line by number and text. Comment lines get only non-ASCII reports, and every indicator is resolved. |
| `Driver.ScanLinesOrdered` | lint.py:558-602 | Reports come in line order, and within a line in check order. |
| `Driver.ScanLinesExits` | lint.py:593-602 | A report that ends its line is the last of its line. A report that stops the file is the last report of all. |
| `Driver.ScanLinesPassed` | lint.py:576-596 | `did_pass` ends true exactly when it started true and nothing was reported. The scan stops early exactly when the last report stops the file. |
| `Driver.ScanLinesContext` | lint.py:585-588 | With a runner that leaves the results alone, the stored results gain exactly the checks that reported. |
| `Driver.OrderOffStaysQuiet` | lint.py:567 | A line run with the key-order flag off has no key-order report and leaves the flag off. |
| `Driver.ScanLinesOrderOff` | lint.py:567 | Once the key-order flag is off, the rest of the file has no key-order report. |
| `Driver.SwitchOffClearsFlag` | lint.py:598-601 | A line whose last report is the key-order check switching itself off leaves the key-order flag off. |
| `Driver.ScanLinesSwitchOff` | lint.py:598-601 | Only the key-order check switches itself off, and after it has done so it reports nothing more. |
| `Driver.CheckFileReports` | lint.py:534-604 | `check_file` returns true exactly when `on_found` was never called. The reports name their lines by number from 1 and come in line and check order. Comment lines get only non-ASCII reports, and every indicator is resolved. |
| `Driver.ScanLinesReaches` | lint.py:558-604 | Every report of a line the file loop reaches is among `check_file`'s reports. |
| `Driver.RunLineNeverStops` | lint.py:593-595 | A runner that never asks to stop the file never stops a line's loop that way. |
| `Driver.AfterKeepsOthersOn` | lint.py:598-601 | With a runner where only the key-order check switches off, a line keeps every other flag on. |
| `Driver.ScanReachesEveryLine` | lint.py:558-604 | Such a runner, which also never stops the file, lets the loop reach every line with every flag but the key-order one on. |
| `Driver.DispatchReachesEveryLine` | lint.py:558-604 | `check_file` reaches every line of the file with every check but the key-order one on. |
| `Driver.CheckFileKeyValueKeepsLine` | lint.py:534-604 | Over a whole file, a key-value report that does not end its line is among the reports, and so are the key-order report, when that check is still on and finds something, and the value report, unless the key-order report ends the line. |
| `Driver.CheckFileExits` | lint.py:585-602 | A line-ending report is the last of its line, and only the key-order check switches itself off. After it has, there is no key-order report. The stored results hold exactly the checks that reported. |
| `ErrorCounting.ErrorCounter.IncTotal` | lint.py:613-616 | The total grows by one and the file count is kept, so the file count never exceeds the total. |
| `ErrorCounting.ErrorCounter.IncFile` | lint.py:618-623 | Both counts grow by one, so the file count never exceeds the total. |
| `ErrorCounting.ErrorCounter.ResetFile` | lint.py:625-628 | The file count drops to zero and the total is kept. |
| `ErrorCounting.CountReportsAdds` | lint.py:613-623 | Counting a list of reports adds its length to both counts. |
| `ErrorCounting.CountFileMatchesCheck` | main.py:39-56 | After a file, its count is its number of reports. The count is zero exactly when `check_file` returned true, and the total grows by the same number. |
| `ErrorCounting.CountRunTotal` | main.py:39-63 | After a run, the total is the number of reports over all files. Starting from zero, it stays zero exactly when every file passed. |
| `ErrorCounting.PassedNoReports` | lint.py:576-604 | A file passes exactly when it has no report. |
| `ErrorCounting.CountRunTotalZero` | lint.py:576-604 | There are no reports over all files exactly when every file passed. |
| `NameConfig.StrGetPattern` | config.py:14-17 | A pattern is a regular expression exactly when it starts and ends with `/`. Otherwise it is the string itself. |
| `NameConfig.PlainCompiles` | config.py:14-17 | A pattern that does not open with `/` is never compiled, so it never raises. |
| `NameConfig.StrGetPatternRoundTrip` | config.py:14-17 | Writing a parsed pattern back gives the original text, for every text except a lone `/`. Parsing a written regular expression gives it back. |
| `NameConfig.StrMatchPatternCaseless` | config.py:7-11 | A plain pattern matches exactly the strings equal to it ignoring case, and this is symmetric. No pattern sees the case of the haystack. |
| `NameConfig.MatchFrom` | config.py:28-29 | The inner loop finds a match exactly when some pattern from `j` on matches. |
| `NameConfig.RewriteForPrefix` | config.py:26-31 | The answer is None exactly when no pattern of the prefix matches. Otherwise it is the name of the first entry whose patterns match. |
| `NameConfig.GetNameRewrite` | config.py:33-38 | The answer is never empty. It is None exactly when no prefix both matches the file name and gives a non-empty name. Otherwise it is the answer of the first such prefix. |
| `NameConfig.GroupListLast` | config.py:47-49 | A group name maps to the parsed patterns of its last row. |
| `NameConfig.GroupListMissing` | config.py:47-49 | A name that no row uses is not a group. |
| `NameConfig.GroupExpansion` | config.py:60-66 | A `$group:` entry of a known group is replaced in place by that group's patterns. |
| `NameConfig.ExpandPlain` | config.py:60-66 | A list without `$group:` entries is parsed pattern by pattern. |
| `NameConfig.AppendMissingSpec` | config.py:78-80 | The old list is kept as a prefix. The result holds exactly the old and new patterns, and nothing appended is repeated. |
| `NameConfig.MergeEntriesSpec` | config.py:74-80 | Merging a signal table into a dict merges every entry. The dict's names become its old names plus the table's. |
| `NameConfig.AddPrefixesKeys` | config.py:69-73 | The prefix table gains exactly the key's pieces behind the path prefix, and no prefix appears twice. |
| `NameConfig.LoadPrefixKeys` | config.py:46-81 | The prefixes of a loaded config are exactly the pieces of the keys that do not start with `$`, each behind `$path-prefix`. No prefix appears twice. |
| `NameConfig.LoadKeepsPatterns` | config.py:54-80 | Every pattern of every signal of a prefix key, after group expansion, is under that signal in each prefix the key names. |
| `NameConfig.LoadOnlyFromRows` | config.py:46-81 | The converse: every signal name under any prefix of a loaded config is the name of a row of some prefix key's table, and every pattern under it is, after group expansion, a pattern of a row with that name. |
| `NameConfig.MergeEntrySourced` | config.py:74-80 | Merging one entry into a dict keeps every list stored under a single name and holding only patterns of rows of that name. |
| `NameConfig.BuildDictSourced` | config.py:56-67 | Building a key's signal table from rows of prefix keys keeps that property: each new list is stored under one name and holds only the expanded patterns of a row of that name. |
| `NameConfig.LoadKeysSourced` | config.py:53-80 | The key loop keeps that property for every dict of the prefix table. |
| `NameConfig.LoadFails` | config.py:46-81 | Loading fails exactly when `$groups` is a string, a `/.../` pattern that the loader parses (one in the last row of its name, since `json.load` drops earlier rows) does not compile, a prefix key holds a string, or `$path-prefix` is an object while there is a prefix key. |
| `NameConfig.BadTableRegexRaises` | config.py:60-66 | One `/.../` pattern that does not compile in the last row of its name in a prefix key's table, other than a `$group:` reference, makes loading fail. |
| `NameConfig.BadGroupRegexRaises` | config.py:47-49 | One `/.../` pattern that does not compile in the last row of its name in `$groups` makes loading fail, even when no key refers to its group. |
| `NameConfig.ReplacedGroupRowLoads` | config.py:47-49 | A `$groups` row replaced by a later row of the same name is never parsed, so its bad pattern does not make loading fail. |
| `NameConfig.ReplacedSignalRowLoads` | config.py:57-66 | Likewise for a signal table: a replaced row's bad pattern does not make loading fail. |
| `NameConfig.PlainTableCompiles` | config.py:14-17 | A table whose patterns are all plain text never raises. |
| `NameConfig.SharedDictExample` | config.py:69-80 | Two prefixes of one key share their dict, so a later key that merges into one of them changes the other too. |
| `NameConfig.SharedDictForeignSignal` | config.py:69-80 | Through that sharing, prefix `b` holds a signal that only key `"a"` supplies, although `"a"` does not split into `b`. |
| `NameConfig.EmptyConfig` | config.py:91-92 | The empty config has no prefixes. |
| `NameConfig.EmptyConfigNoRewrite` | config.py:91-92 | The empty config renames nothing. |

## Left out

- File I/O, the command line and printing in `main.py`, and the output formatters (`lint_*_format.py`), are not part of this model. They only render the reports that `check_file` produces. The counting loop of `main.py` (main.py:39-63: `reset_file` before each file, one `inc_file` per report through `proxy_callback`) is modelled by `ErrorCounting.CountFile` and `ErrorCounting.CountRun`.
- `load_config` (config.py:84-88) is left out. It only opens a file and parses JSON. The model starts from the parsed JSON value.
- JSON values are modelled only as far as the loader looks at them: strings, and objects whose values are lists of strings. Numbers, booleans, `null` and arrays at other places are left out, and so are the `TypeError`s they would cause.
- `fnmatch.fnmatch` and `re.match` in config.py are parameters (`NameConfig.Matchers`). Glob and regular-expression matching are not modelled.
- Whether `re.compile` accepts a regular-expression body is the parameter `compiles` of the loader. The regular-expression syntax is not modelled. A pattern that does not compile makes loading fail, as the `re.error` it raises would.
- The top-level keys of the name-check object are assumed distinct, as they are in the Python dict `json.load` builds. For a repeated key, the model's lookups of `$groups` and `$path-prefix` take the first entry and its key loop visits every entry, while `json.load` keeps only the last. Repeated names inside `$groups` and inside a signal table are modelled as `json.load` treats them: the last row wins (`NameConfig.GroupListLast`, `NameConfig.LoadKeepsPatterns`), and only the last row's patterns are parsed (`NameConfig.ReplacedGroupRowLoads`, `NameConfig.ReplacedSignalRowLoads`).
- `difflib.get_close_matches` and `float()` are parameters (`Foreign.Env`). The model assumes only that a close match is one of the candidates, and that `float()` gives an error, a finite real, NaN or an infinity.
- `str.isdigit()`, `\d` and `str.lower()` are modelled for ASCII only. Non-ASCII digits and letters are treated as other characters.
- Newline translation by the text-mode file object is left out. `Driver.ReadLines` starts from the translated text.
- The branch for a check that returns something other than a `Result` (lint.py:578-580) is left out. Every modelled check returns an `Option<Result>`.
- The skip test on `ignore_if_failed` (lint.py:569) is modelled as never firing, because it never does. `Results.IgnoreIfFailed` records the declared dependencies for reference only.
- `Context.did_check_fail` (lint.py:157-160) has no caller, and it is not modelled beyond the map of stored results.
- The `on_found` callback is modelled as the list of reports `check_file` returns. Each report also carries the reporting check.
- `ErrorIndicator` with a negative bound other than `-1` is not modelled. `create_error_indicator_array` requires non-negative starts, because Python's negative indices would wrap around.
- `NameConfig.LoadKeepsPatterns`: when one signal table repeats a signal name, only the last row's patterns are promised. This matches `json.load`, which keeps the last value for a repeated key.
- `NameConfig.LoadOnlyFromRows`: a pattern is traced to some row of the same name in some prefix key, not to the last row of that name; that finer fact holds but is not stated. The row's key need not name the prefix: prefixes split from one key share one dict (config.py:72), and a later key that merges into one of them (config.py:74-80) changes them all, so a pattern under prefix `p` may come from a key that names another prefix sharing `p`'s dict (`NameConfig.SharedDictForeignSignal`).
