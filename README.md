# byu_pytest_utils, modelled in Dafny

`byu_pytest_utils` grades a student program's console session against an
annotated transcript. This project models the grading core in Dafny and
proves properties of that model:

- **Transcript parsing.** `<<input>>` markers give the queue of recorded
  inputs. ``` ``text;name;weight`` ``` markers give weighted, named regions
  of the expected output. The weights must not add up to more than 100;
  the default group `.` gets what remains.
- **Affine alignment** (`edit_dist.py`). A global alignment with gap-open
  and gap-extend costs is computed over a score table and a pointer table.
  The back-pointers are then walked to produce the two aligned strings.
- **Group scoring** (`DialogChecker._score_output`). The group symbols are
  projected onto the aligned expected text. Matches are counted per group,
  and one score record is built per group.
- **Session driving** (`DialogChecker`). The observed output is a buffer
  with a length cap, and the inputs are a queue read from the front.
  Intercepted `input`/`print` calls drive an in-process script. For an
  external executable, the `run_exec` loop decides from timeouts when to
  feed the next input and when the program is stuck.
- **Older checkers.** `IOChecker` pads both outputs to 80 columns and
  compares them; its edit distance is a linear-gap Needleman–Wunsch score.
  `IOCheckerObsolete` and `ScriptWrapper` check after every call that the
  output is a prefix of the expected text.
- **The side-by-side assertion message** of `large_diff_conftest.py`.

Files and modules:

| file | module | contents |
|---|---|---|
| `text_util.dfy` | `TextUtil` | `Result`/`Option`, Python's `str.find`, slicing, `join`, `strip`, padding |
| `input_markers.dfy` | `InputMarkers` | `<<...>>` extraction, with and without `re.DOTALL` |
| `region_pattern.dfy` | `RegionPattern` | the region regular expression as a scanner; `re.search`, `re.sub` |
| `dialog_groups.dfy` | `DialogGroups` | `_extract_groups`: the scan loop and its specification |
| `edit_dist.dfy` | `AffineAlign` | `edit_dist`: table fill over `array2`, traceback, interpretation |
| `dialog_score.dfy` | `DialogScore` | `_score_output` |
| `dialog_session.dfy` | `DialogSession` | the `DialogChecker` class and the `run_exec` loop |
| `io_checker.dfy` | `IOCheck` | `IOChecker`, its edit distance, and `IOCheckerObsolete` |
| `script_wrapper.dfy` | `ScriptWrap` | `ScriptWrapper` |
| `large_diff.dfy` | `LargeDiff` | `pytest_assertrepr_compare` |

The `DialogChecker.run_exec` loop reads a sequence of events. Each event is either
a chunk of output or a timeout (the reader yielding `None`), and the
sequence ends when the program's output is drained. An in-process script is
modelled as the sequence of its `input(prompt)` and
`print(*values, sep, end)` calls. The values are already converted by
`str`, and the calls stop at the first `input()` that raises.

Group symbols are modelled as `Default` (the source's `.`) and `Region(k)`
(the source's `chr(ord('a') + k)`). This keeps the two kinds apart and
keeps the symbols pairwise distinct. Scores are exact reals.

Where the code and its own comments or description differ, the model
follows the code:
- **Tie order.** When moves tie in `edit_dist.py:66-74`, the code prefers
  a gap in the observed text (the "up" move, which consumes an expected
  character). Next it prefers a gap in the expected text, and the diagonal
  comes last, as the comment at `edit_dist.py:65` says.
  `AffineAlign.TieOrder` states the order the code uses.
- **Comment examples.** The comment at `dialog.py:177-186` puts the
  characters outside any region in group `a` (its example writes them as
  `a` and gives their weight under the key `-`), and the regions in `b`,
  `c`. The comment at `dialog.py:228-229` writes those characters as `-`
  and the first region as `b`. The code uses `.` for the characters
  outside any region and `a`, `b`, ... for the regions.

## Model

| member | source | states |
|---|---|---|
| TextUtil.PadTo | byu_pytest_utils/dialog.py:264-265 | the text is a prefix of the result; only spaces follow it; the length is the larger of the width and the text's length (never truncates) |
| TextUtil.Pad | byu_pytest_utils/io_checker.py:80-81 | the width is 80; a text of 80 or more characters is returned unchanged |
| TextUtil.DeleteChar | byu_pytest_utils/dialog.py:267-270 | `replace(GAP, '')`: the character no longer occurs; the length drops by its number of occurrences; a text without it is unchanged |
| TextUtil.DeleteCharAppend | byu_pytest_utils/dialog.py:277-278 | removing a character distributes over concatenation |
| TextUtil.Find | byu_pytest_utils/script_wrapper.py:22 | `str.find(c, start)`: -1 exactly when `c` does not occur from `start` on; otherwise the first occurrence at or after `start` |
| TextUtil.PySlice | byu_pytest_utils/script_wrapper.py:23 | Python slicing: both bounds are normalised and clamped (`-1` counts from the end); an empty slice when they cross |
| TextUtil.Strip | byu_pytest_utils/io_checker.py:252 | `str.strip()`: the result neither starts nor ends with whitespace |
| TextUtil.StripSlice | byu_pytest_utils/io_checker.py:252 | `str.strip()` keeps one slice of the text: everything before it and everything after it is whitespace |
| TextUtil.StripRight | byu_pytest_utils/io_checker.py:252 | the right strip keeps a prefix and removes only whitespace |
| TextUtil.Join | byu_pytest_utils/dialog.py:308 | `sep.join`: the empty list gives the empty string; one value gives that value |
| InputMarkers.FindCloseFirst | byu_pytest_utils/dialog.py:162 | the lazy `(.*?)>>` stops at the first `>>`; without `re.DOTALL` it crosses no newline |
| InputMarkers.FindCloseNone | byu_pytest_utils/io_checker.py:74 | when the scan finds no closing `>>` although one follows, `re.DOTALL` is off and a newline lies in between |
| InputMarkers.RawPieces | byu_pytest_utils/dialog.py:158-165 | the markers and literal characters the scan reads put back together give the text exactly |
| InputMarkers.ExtractInputFacts | byu_pytest_utils/dialog.py:158-165 | every extracted input is a lazy match (no `>>` inside, and no newline without `re.DOTALL`); the stripped text is 4 characters shorter per input |
| InputMarkers.NoMarkers | byu_pytest_utils/io_checker.py:71-76 | a text without `<<` yields no inputs and is returned unchanged |
| RegionPattern.MatchAtIsLeast | byu_pytest_utils/dialog.py:193-194 | the match reported at a position is a match of ``` ``(.*?);(.+?);(\d+?)`` ```, and its groups are the shortest the lazy quantifiers allow; no match is reported only when there is none |
| RegionPattern.SearchIsFirst | byu_pytest_utils/dialog.py:193-194 | `re.search` reports a match at or before every position where the pattern matches |
| RegionPattern.SearchAtTicks | byu_pytest_utils/dialog.py:190-194 | at backquotes where a match exists, the search reports that very position |
| RegionPattern.DigitsEndDigits | byu_pytest_utils/dialog.py:194 | the weight group is a run of the digits `0`-`9` |
| DialogGroups.Next | byu_pytest_utils/dialog.py:189-204 | one iteration of the scan advances the position; it fails only with `NoRegionMatch` at the position (where the source calls `.group` on `None`) |
| DialogGroups.ExtractGroups | byu_pytest_utils/dialog.py:167-214 | the scan loop computes the specification `Extract` |
| DialogGroups.ReadStep | byu_pytest_utils/dialog.py:189-204 | one pass of the loop body, the backquote test and `re.search` from the position, gives exactly the step `Next` specifies, including `NoRegionMatch` |
| DialogGroups.ExtractOk | byu_pytest_utils/dialog.py:171-214 | on success: the weight and name keys are `.` and the region symbols in order; the weights add up to 100; the default weight is non-negative; one symbol per expected character, each a key; the expected text is the region texts and plain characters in order |
| DialogGroups.ExtractErr | byu_pytest_utils/dialog.py:193-207 | on failure: either the weights exceed 100 (reporting their sum), or at some pair of backquotes the region pattern does not match |
| DialogGroups.NoRegions | byu_pytest_utils/dialog.py:171-214 | without backquotes: the default group alone with weight 100, and the text unchanged |
| DialogGroups.DefaultWeightZero | byu_pytest_utils/dialog.py:171 | the default group's weight is 0 until the remainder is assigned |
| DialogGroups.SymbolsMatchText | byu_pytest_utils/dialog.py:199-203 | the group sequence is exactly as long as the expected text |
| DialogGroups.SymbolsAreKeys | byu_pytest_utils/dialog.py:192-203 | every symbol of the group sequence has a weight |
| DialogGroups.SubstituteIsText | byu_pytest_utils/dialog.py:211-212 | the final `re.sub` produces the same text as the scan: the region texts in place of the regions |
| DialogGroups.KeysUpToFacts | byu_pytest_utils/dialog.py:192 | `.` and the first `n` region symbols are `n + 1` distinct keys |
| DialogGroups.KeysOfWeights | byu_pytest_utils/dialog.py:197-198 | weights and names are keyed by the same symbols: `.` and one per region, in order |
| AffineAlign.EditDist | byu_pytest_utils/edit_dist.py:4-109 | the filled tables give the bottom-right score of the recurrence `Cell`, and the aligned strings are `Align` |
| AffineAlign.FillBorders | byu_pytest_utils/edit_dist.py:30-46 | the border cells hold the recurrence's scores and pointers |
| AffineAlign.FillCell | byu_pytest_utils/edit_dist.py:50-77 | one inner cell gets the recurrence's score and pointer; every other cell is unchanged |
| AffineAlign.FillInner | byu_pytest_utils/edit_dist.py:48-77 | after the fill over the inner cells, row by row, every cell of both tables holds `Cell`'s score and pointer, given borders that already do |
| AffineAlign.TraceBack | byu_pytest_utils/edit_dist.py:79-84 | the pointer walk from the bottom-right cell gives the path `Path` |
| AffineAlign.Interpret | byu_pytest_utils/edit_dist.py:86-107 | the loop over path steps produces `Render` of the path |
| AffineAlign.BorderCells | byu_pytest_utils/edit_dist.py:34-46 | border cell `i` scores `GAP_OPEN + i * GAP_EXTEND` and points back along its border |
| AffineAlign.TieOrder | byu_pytest_utils/edit_dist.py:56-74 | the cell takes the best of the three candidates; ties go to the gap in `i` first, then the gap in `j`, and the diagonal only when it is strictly best |
| AffineAlign.CellScoreIsAffine | byu_pytest_utils/edit_dist.py:56-77 | every cell's score is the affine score of the alignment its path renders, and its pointer is the kind of that alignment's last column |
| AffineAlign.AlignmentFacts | byu_pytest_utils/edit_dist.py:79-109 | when the gap character occurs in neither input: the aligned strings have equal length; deleting gaps gives back the inputs; no column is two gaps; the returned score is the affine score of the alignment |
| AffineAlign.AlignDeletes | byu_pytest_utils/edit_dist.py:86-109 | for any input, the aligned strings have equal length, and deleting the gap character from each gives its input with that character deleted |
| AffineAlign.NoDoubleGap | byu_pytest_utils/edit_dist.py:95-107 | no aligned column has a gap on both sides |
| AffineAlign.RenderLength | byu_pytest_utils/edit_dist.py:91-107 | one aligned column per step of the path |
| AffineAlign.IdenticalInputs | byu_pytest_utils/edit_dist.py:4-109 | identical inputs align to themselves with score `len * MATCH` |
| DialogScore.ScoreOutput | byu_pytest_utils/dialog.py:216-284 | the method computes the specification `Score`: the `edit_dist` alignment, then the rest of the scoring on it |
| DialogScore.ScoreAlignment | byu_pytest_utils/dialog.py:234-284 | on an aligned pair, the gap check and the three loops compute `ScoreAligned`: `TooManyGaps` when the non-gap count differs from the group sequence, else the records of `StatsUpTo` |
| DialogScore.GroupIds | byu_pytest_utils/dialog.py:237-248 | the loop builds `IdsOf`: a non-gap takes the next symbol, a gap repeats the previous id (`.` at the start) |
| DialogScore.CountColumns | byu_pytest_utils/dialog.py:251-260 | the loop over columns builds the four dictionaries `TallyOf` |
| DialogScore.GroupStats | byu_pytest_utils/dialog.py:272-284 | the loop over `group_names` builds the records `StatsUpTo` |
| DialogScore.GroupRecord | byu_pytest_utils/dialog.py:274-282 | one record as the dictionary literal defines it |
| DialogScore.IdsAt | byu_pytest_utils/dialog.py:240-247 | column `k` gets symbol `k - (gaps before k)` when it is not a gap, and the previous column's id when it is |
| DialogScore.IdsWithoutGaps | byu_pytest_utils/dialog.py:240-247 | without gaps the ids are the group sequence itself |
| DialogScore.TallyFacts | byu_pytest_utils/dialog.py:255-260 | per id: the count is the number of columns with that id; the id has entries exactly when it labels a column; the matches are the number of its columns whose two characters are equal (`MatchCount`), never more than the count, and equal to it exactly when every column of the id matches; the texts are the id's columns in order |
| DialogScore.RecordBounds | byu_pytest_utils/dialog.py:274-281 | the record's name and `max_score = weight/100`; passed exactly when matches equal the count; `0 <= score <= max_score`; a passed group scores its maximum |
| DialogScore.RecordTexts | byu_pytest_utils/dialog.py:264-278 | the default group shows the full gap-free texts padded to 80; any other group shows its columns with the gaps removed |
| DialogScore.TooManyGapsIff | byu_pytest_utils/dialog.py:234-235 | "Too many gaps" is raised exactly when the expected text itself contains `~`, whatever the output |
| DialogScore.MissingGroupIff | byu_pytest_utils/dialog.py:273-281 | the `KeyError` of `group_counts[group_id]` names a declared group that labels no expected character; when every group labels one and there is no `~`, scoring succeeds |
| DialogScore.MissingRegionStays | byu_pytest_utils/dialog.py:250-281 | when scoring one output raises `KeyError` for a region, scoring any other output raises too, since only expected characters give a region a count |
| DialogScore.IdsFrom | byu_pytest_utils/dialog.py:237-248 | every aligned column is labelled with a symbol of the group sequence or, before the first expected character, with `.` |
| DialogScore.StatsOkCounted | byu_pytest_utils/dialog.py:273-281 | when the statistics of every group succeed, every declared group was counted |
| DialogScore.RegionUncounted | byu_pytest_utils/dialog.py:250-281 | after the gap check, a declared region that labels no character of the expected output makes `group_stats` fail |
| DialogScore.ScoreRecordFacts | byu_pytest_utils/dialog.py:216-284 | for each group name's last symbol, in terms of the alignment of the output with the expected text: the result holds that symbol's record, with its name, `max_score = weight/100`, passed exactly when every column of the group matches, `score = matching columns / columns * max_score` (so `0 <= score <= max_score`, and the maximum when passed), and the shown texts |
| DialogScore.ScoreNames | byu_pytest_utils/dialog.py:272-275 | the result is keyed by exactly the declared group names |
| DialogScore.IdenticalOutputPasses | byu_pytest_utils/dialog.py:216-284 | the expected text as output passes every group at full score |
| DialogScore.ExtractParsed | byu_pytest_utils/dialog.py:153-155 | what `_extract_groups` returns meets what `_score_output` indexes |
| DialogScore.StatsErrIsMissing | byu_pytest_utils/dialog.py:279 | the only failure of the record loop is a group with no counted column |
| DialogSession.RunFrom | byu_pytest_utils/dialog.py:376-390 | the loop reads no more events than there are, all of them when it is not stopped, and at least one when it stops |
| DialogSession.RunKeepsOrder | byu_pytest_utils/dialog.py:341-390 | over `_exec_give_input` and the read loop, with each chunk appended by `_consume_output` (`dialog.py:286-291`), the output only grows, and the inputs left are a suffix of the queue (taken from the front) |
| DialogSession.RunWithinCap | byu_pytest_utils/dialog.py:290-291 | starting under the cap, the loop raises "printed too much text" exactly when the output ends over the cap |
| DialogSession.RunStalls | byu_pytest_utils/dialog.py:383-388 | the loop breaks or raises "no new output" only on a timeout right after a timeout, or right after an input given before |
| DialogSession.StallNeedsTwoTimeouts | byu_pytest_utils/dialog.py:376-388 | from a fresh start, breaking or raising "no new output" takes two timeouts in a row |
| DialogSession.RunEndsOnTimeout | byu_pytest_utils/dialog.py:341-350 | "blocked" is raised on a timeout with no input left; breaking needs `close_stdin_after_all_inputs_given` and an empty queue |
| DialogSession.ScriptInputs | byu_pytest_utils/dialog.py:293-309 | a script runs without error exactly when it calls `input()` at most as often as there are inputs; then the output is its transcript and the inputs it did not use remain; otherwise it raises "input() called more times than expected" with the queue empty |
| DialogSession.ExpectedOutputPasses | byu_pytest_utils/dialog.py:392-404 | when nothing raised and the output is the expected text, every group passes at full score |
| DialogSession.MatchingScriptPasses | byu_pytest_utils/dialog.py:311-339 | a script whose transcript is the expected text passes every group at full score |
| DialogSession.PrintsRunPasses | byu_pytest_utils/script_wrapper.py:28-50 | from a prefix of the expected text, a script of prints passes every check exactly when its output stays a prefix, and then the output is the earlier output followed by its transcript |
| DialogSession.PrintsRunPrefix | byu_pytest_utils/script_wrapper.py:28-50 | wherever a script of prints stops, its output is a prefix of the earlier output followed by its whole transcript |
| DialogSession.PrintsRunExact | byu_pytest_utils/script_wrapper.py:28-52 | from a prefix of the expected text, a script of prints passes every check and ends on the expected text exactly when the earlier output and its transcript make up that text |
| DialogSession.DialogChecker.Init | byu_pytest_utils/dialog.py:148-156 | the inputs and groups are stored, and the output starts empty |
| DialogSession.DialogChecker.Load | byu_pytest_utils/dialog.py:148-156 | reading a transcript: the inputs come from `<<...>>` with `re.DOTALL`, the groups from the rest; it fails exactly when group extraction fails |
| DialogSession.DialogChecker.ConsumeOutput | byu_pytest_utils/dialog.py:286-291 | the text is appended, then the cap is checked |
| DialogSession.DialogChecker.PyInput | byu_pytest_utils/dialog.py:293-302 | the prompt is appended; the first input is popped and echoed with a newline, or the call raises on an empty queue |
| DialogSession.DialogChecker.PyPrint | byu_pytest_utils/dialog.py:304-309 | the values joined by `sep` (default space) and `end` are appended |
| DialogSession.DialogChecker.ExecGiveInput | byu_pytest_utils/dialog.py:341-350 | the first input and a newline go to the output under the cap; the result says whether stdin is closed; raises "blocked" on an empty queue |
| DialogSession.DialogChecker.RunExec | byu_pytest_utils/dialog.py:352-413 | the state after the loop is `RunFrom`'s; the result scores the output, or the exception text when the loop or the scoring raised |
| DialogSession.DialogChecker.Step | byu_pytest_utils/dialog.py:378-390 | one iteration of the read loop moves the checker's state and the two flags exactly as `LoopStep` does, and reports the same exit (the cap error, "blocked", a break or the "no new output" error) |
| DialogSession.DialogChecker.RunScript | byu_pytest_utils/dialog.py:311-339 | the state after the calls is `ScriptFrom`'s; the result scores the output, or the exception text |
| DialogSession.DialogChecker.Finish | byu_pytest_utils/dialog.py:392-404 | the score of the output, or of the exception text when something raised |
| IOCheck.Pick | byu_pytest_utils/io_checker.py:126-144 | the cell takes the largest of the three candidates |
| IOCheck.EditDist | byu_pytest_utils/io_checker.py:90-179 | the filled table's bottom-right score is the recurrence `NW` |
| IOCheck.FillBorders | byu_pytest_utils/io_checker.py:112-122 | the borders hold `i * INDEL` and `j * INDEL` |
| IOCheck.FillCell | byu_pytest_utils/io_checker.py:124-147 | one inner cell gets the recurrence's score |
| IOCheck.Choice | byu_pytest_utils/io_checker.py:126-144 | each inner cell's score is one of its three candidates |
| IOCheck.NWIsUpperBound | byu_pytest_utils/io_checker.py:90-147 | no alignment of the prefixes scores more than the table cell |
| IOCheck.TraceAchieves | byu_pytest_utils/io_checker.py:149-154 | following the choices back from a cell gives an alignment that scores exactly the cell |
| IOCheck.EditDistIsOptimal | byu_pytest_utils/io_checker.py:90-179 | the returned score is the best score of any alignment, and some alignment attains it |
| IOCheck.NWBounds | byu_pytest_utils/io_checker.py:90-147 | `-(i + j) <= score <= min(i, j)` |
| IOCheck.NWIdentical | byu_pytest_utils/io_checker.py:90-147 | identical texts score their length |
| IOCheck.PadEqual | byu_pytest_utils/io_checker.py:80-84 | the padded outputs are equal exactly when the outputs are equal, or both fit in 80 columns and the longer one adds only spaces |
| IOCheck.IOCheckerPassesIff | byu_pytest_utils/io_checker.py:207-228 | a script that does not run out of inputs passes exactly when its transcript equals the expected text up to trailing spaces within 80 columns |
| IOCheck.SingleLineInputs | byu_pytest_utils/io_checker.py:74 | without `re.DOTALL`, no recorded input spans a newline |
| IOCheck.IOChecker.constructor | byu_pytest_utils/io_checker.py:63-68 | inputs and expected text come from `<<...>>` without `re.DOTALL`; the output starts empty |
| IOCheck.IOChecker.AssertOutput | byu_pytest_utils/io_checker.py:78-88 | passes exactly when the padded outputs are equal |
| IOCheck.IOChecker.ConsumeOutput | byu_pytest_utils/io_checker.py:184-187 | the text is appended (no cap) |
| IOCheck.IOChecker.Input | byu_pytest_utils/io_checker.py:189-198 | as `DialogChecker._py_input` |
| IOCheck.IOChecker.Print | byu_pytest_utils/io_checker.py:200-205 | the values joined by `sep` (default space) and `end` are appended |
| IOCheck.IOChecker.RunScript | byu_pytest_utils/io_checker.py:207-228 | the calls run; an exception appends `\nException: ...\n` and the trace; the final assertion decides the result |
| IOCheck.ObsoleteAssertIsPrefix | byu_pytest_utils/io_checker.py:238-242 | the assertion holds exactly when the output is a prefix of the expected text (its second comparison never rescues a failed first one) |
| IOCheck.ObsoleteInputLine | byu_pytest_utils/io_checker.py:244-256 | the answer is the rest of the expected line, stripped; when stripping changes nothing, the output ends just after that line |
| IOCheck.IOCheckerObsolete.AssertOutput | byu_pytest_utils/io_checker.py:238-242 | the assertion as written |
| IOCheck.IOCheckerObsolete.constructor | byu_pytest_utils/io_checker.py:232-236 | the expected text is the file content, taken as it is, and the output starts empty |
| IOCheck.IOCheckerObsolete.Input | byu_pytest_utils/io_checker.py:244-256 | the prompt is appended and checked; then the stripped answer and a newline |
| IOCheck.IOCheckerObsolete.Print | byu_pytest_utils/io_checker.py:258-266 | the values joined by `sep` (default `, `) and `end` are appended, then checked |
| IOCheck.ObsoletePrintsOnly | byu_pytest_utils/io_checker.py:238-283 | on a script of prints, the run is `PrintsRun`: every check is the prefix test |
| IOCheck.IOCheckerObsolete.RunScript | byu_pytest_utils/io_checker.py:268-283 | the calls run until a check fails; passes exactly when no check failed, the script raised nothing of its own, and the output equals the expected text |
| ScriptWrap.PrefixHoldsIff | byu_pytest_utils/script_wrapper.py:13-14 | the assertion holds exactly when the output is a prefix of the expected text |
| ScriptWrap.WrapperInputLine | byu_pytest_utils/script_wrapper.py:16-26 | with a newline after the prompt, the answer is the rest of the line, unstripped, and the output ends just after that newline |
| ScriptWrap.WrapperInputNoNewline | byu_pytest_utils/script_wrapper.py:22-25 | without a newline after the prompt, `find` gives -1; the answer then drops the last character, and the output is no longer a prefix |
| ScriptWrap.PrintsOnly | byu_pytest_utils/script_wrapper.py:13-50 | on a script of prints, the run is `PrintsRun`: every check is the prefix test |
| ScriptWrap.ScriptWrapper.AssertOutput | byu_pytest_utils/script_wrapper.py:13-14 | the prefix check |
| ScriptWrap.ScriptWrapper.constructor | byu_pytest_utils/script_wrapper.py:8-11 | the expected text is the file content, taken as it is, and the output starts empty |
| ScriptWrap.ScriptWrapper.Input | byu_pytest_utils/script_wrapper.py:16-26 | the prompt is appended and checked; then the answer and a newline |
| ScriptWrap.ScriptWrapper.Print | byu_pytest_utils/script_wrapper.py:28-35 | the values joined by `sep` (default `, `) and `end` are appended, then checked |
| ScriptWrap.ScriptWrapper.RunScript | byu_pytest_utils/script_wrapper.py:37-52 | the calls run until a check fails; passes exactly when no check failed, the script raised nothing of its own, and the output equals the expected text |
| LargeDiff.SplitLines | byu_pytest_utils/large_diff_conftest.py:6-7 | `splitlines()` restricted to `\n`: no lines exactly for the empty text |
| LargeDiff.SplitLinesNoNewline | byu_pytest_utils/large_diff_conftest.py:6-7 | no line contains a newline |
| LargeDiff.SplitLinesJoin | byu_pytest_utils/large_diff_conftest.py:6-7 | joining the lines with newlines gives the text back, up to one final newline |
| LargeDiff.MaxLen | byu_pytest_utils/large_diff_conftest.py:10-11 | every line fits in the width, and some line has exactly that length |
| LargeDiff.RowFacts | byu_pytest_utils/large_diff_conftest.py:12-25 | a row is the left cell, the separator (space, bar, space) and the right cell, each exactly as wide as its side's widest line; a cell starts with its line, and is blank past that side's last line |
| LargeDiff.SideBySideFacts | byu_pytest_utils/large_diff_conftest.py:16-25 | the header, then one row per line of the longer side, all rows equally wide |
| LargeDiff.AssertReprCompare | byu_pytest_utils/large_diff_conftest.py:4-26 | a message exactly when the operator is `==` and both operands are strings of more than `MIN_LINES_DIFF` (3) lines, and then the side-by-side rows built by the padding loops |

## Left out

- Processes, threads, timers and sleeping in `run_exec`, and the reader in
  `_exec_read_stdout_with_timeout`. Their observable effect is the event
  sequence the loop reads, which is a parameter.
- The write and flush to the program's stdin in `_exec_give_input`. The
  model keeps only whether stdin is closed.
- `runpy`, `sys.argv` and the namespace `run_script` returns. A script is
  the sequence of its intercepted calls.
- Scripts that catch an exception any intercepted call raises and carry
  on: the `input()` that runs out of inputs, and under `IOCheckerObsolete`
  and `ScriptWrapper` also the `AssertionError` of a failed check in
  `_print` or `_input` (`io_checker.py:241`, `script_wrapper.py:14`). The
  model's calls stop at the first one that raises.
- Exceptions a script raises by itself. They are a parameter of each
  `RunScript`: `DialogChecker` and `IOChecker` turn one into the text
  they score when it is an `Exception`; `IOCheckerObsolete` and
  `ScriptWrapper` catch nothing, so the run fails. A `SystemExit` from
  `sys.exit()` or `exit()` is not an `Exception` and escapes
  `except Exception` (`dialog.py:334`, `io_checker.py:219`) in all four;
  the model treats it as any other exception.
- `str()` of printed values. Values are given as strings.
- Echoing to the console (`echo_output`).
- Reading the transcript file and `output_file`, including the
  "File not found" text. The model's text is the file content.
- `traceback.format_exc()`. The trace text is a parameter.
- Floating point. Scores are exact reals, so `round` and float rounding
  in `score` are not modelled.
- The group-stats decorators and test-generation helpers in `dialog.py`.
  They are outside the grading core.
- `IOChecker._assert_output`'s partial credit
  (`io_checker.py:86-87`: rounding a float division and attaching it to
  the exception). The edit distance it uses is modelled and proved
  optimal.
- The path matrix, traceback and interpretation of `IOChecker.edit_dist`
  (`io_checker.py:149-177`). The method computes and then drops them. The
  optimality proof instead uses its own trace of the choices, `IOCheck.Trace`.
- RegionPattern.IsDigit: only `0`-`9` are weight digits. On a `str`
  pattern, Python's `\d` also matches every other Unicode decimal digit
  (category Nd, such as the Arabic-Indic `٣`), and `int()` reads them. A
  region whose weight is written in such digits is a match in the source
  and none in the model. The set of those digits depends on the Unicode
  tables of the Python version.
- RegionPattern.DigitsValue: reads `0`-`9` only, for the same reason.
- RegionPattern.DigitsEndDigits: the weight run it states is of `0`-`9`
  only, for the same reason.
- RegionPattern.MatchAtIsLeast: its weight group is a run of `0`-`9`, so
  a region weighted with other Unicode digits is reported as no match.
- DialogGroups.Next: a region weighted with other Unicode digits fails
  with `NoRegionMatch`, for the same reason.
- DialogSession.Symbol: regions 55 200 to 57 247 would need a symbol in
  the surrogate range, which has no `char` in Dafny's Unicode model.
  Their symbol in error texts becomes U+FFFD.
- DialogGroups.Next: from region 1 114 016 on, `chr` (`dialog.py:192`)
  raises `ValueError` past U+10FFFF, so the source's `_extract_groups`
  fails there; the model goes on (its symbol for them is U+FFFD).
- DialogSession.ErrorText: writes the missing group's symbol as it is,
  where `str` of a `KeyError` is `repr` of the key, which escapes
  symbols that are not printable (region 31, `chr(0x7F)`, gives
  `'\x7f'`). A region that is missing for one output is missing for
  every output (`DialogScore.MissingRegionStays`), so scoring the
  exception text fails again and the text never reaches a score.
- LargeDiff.SplitLines: only `\n` ends a line. The other line boundaries
  that `str.splitlines` knows (`\r`, `\r\n`, `\v`, `\f`, `\x1c`–`\x1e`,
  `\x85`, U+2028, U+2029) are not modelled.
- LargeDiff.MaxLen: returns 0 for no lines, where `max()` would raise.
  The source only calls it on more than three lines.
- The `config` argument of `pytest_assertrepr_compare`. It is unused.
