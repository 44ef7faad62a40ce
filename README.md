# TransBench core in Dafny

TransBench is a translation benchmark runner. It reads a tagged exam file
holding Chinese-to-English (`zh_en`) and English-to-Chinese (`en_zh`) lines.
It sends each line to a chat-completion service with bounded retries, over a
pool of worker threads. It then collects the translations back in the order
of the file. This project models the deterministic core of that pipeline and
proves properties of the model:

- `parser.dfy` (module `ExamParser`) models `parse_exam`. This is the
  line-by-line state machine driven by `inside_exam`, `seen_exam_start`,
  `seen_exam_end` and `current_task`. It is the imperative method `ParseExam`
  over the file's lines. The method is proved equal to `ExamSpec`, a
  declarative description of the outcome in terms of where the markers
  stand. The format's properties are proved about `ExamSpec`: which files
  are rejected, what is collected, line numbering, and that lines after
  `</exam>` are ignored.
- `translator.dfy` (module `Translator`) models `Translator.translate`. The
  retry loop is the method `Translate`. The chat service is a parameter: a
  total function from the messages and the attempt number to that attempt's
  outcome. The method is proved against `TranslateSpec`, and the properties
  of retrying are proved about it: at most `retries` calls, the first
  success wins, the last error wins, and an unsupported direction makes no
  call.
- `runner.dfy` (module `Runner`) models three functions of `main.py`:
  - `parse_selected_tasks` as the function `ParseSelectedTasks`.
  - `sample_items` as the function `SampleItems`. The random draw is a
    parameter: the set of indices drawn.
  - `translate_task` as the method `TranslateTask`. It writes each
    translation into a pre-allocated array of rows as the translation
    finishes. The completion order of the thread pool is a parameter: a
    permutation of the item indices. The method is proved against
    `DispatchSpec`. The lemmas beside it cover row order, the counts, when
    and why the dispatch aborts, and how it composes with `Translator`.
- `text.dfy` (module `Text`) models Python's `str.strip()`,
  `str.split(",")` and `",".join(...)`, with their properties as lemmas.
  `Strip` removes every code point for which `str.isspace()` is true, not
  only ASCII whitespace.
- `wrappers.dfy` (module `Wrappers`) holds `Option` and `Result`.

Where a Python function raises, the model returns an error value:
- `ParseError` for the two malformed-file errors.
- `SelectionError` for an unknown task name.
- `SampleError` for a sample size below -1, where `rng.sample` raises.
- The `Aborted` outcome of `TranslateTask` for the error that `translate_task`
  re-raises.

Two points about the code that the model keeps as they are:
- `src/config.py:45` does not check that `retries` is at least 1. With
  `retries <= 0` no call is made, the result is empty text with no error,
  and the dispatcher counts it as a success; see
  `Translator.NoAttemptsNoError` and `Runner.NoAttemptsCountAsSuccess`.
- `ExamItem` carries only `source` and `line_no` (`src/parser.py:10-12`);
  there is no per-direction position counter, and the model's `ExamItem`
  has the same two fields.

## Model

| member | source | states |
|---|---|---|
| `Text.TrimLeftSpec` | src/parser.py:32 | the leading part that `strip` removes is all whitespace, and what remains does not start with whitespace |
| `Text.TrimRightSpec` | src/parser.py:32 | the trailing part that `strip` removes is all whitespace, and what remains does not end with whitespace |
| `Text.StripHasNoSurroundingSpace` | src/parser.py:32 | a stripped string is no longer than the input and neither starts nor ends with whitespace |
| `Text.StripIsSlice` | src/parser.py:32 | the stripped string is a contiguous piece of the input, starting after its leading whitespace |
| `Text.StripRemovesOnlySpace` | src/parser.py:32 | every character removed, before or after the kept piece, is whitespace |
| `Text.StripUnchanged` | src/parser.py:32 | a string with no whitespace at either end strips to itself |
| `Text.StripLineBreak` | src/parser.py:31-32 | a line read with its line break strips to its text |
| `Text.Split` | src/main.py:48 | `split(",")` gives at least one piece, no piece contains the comma, and joining the pieces with it gives back the input |
| `Text.SplitJoin` | src/main.py:48 | splitting a comma-join of comma-free pieces gives back exactly those pieces |
| `ExamParser.ClassifySpec` | src/parser.py:34-55 | the marker tests: `<exam>`, `</exam>`, the two opening markers (which open the direction named by the marker minus its first and last character, one of `zh_en`/`en_zh`), the two closing markers, and everything else, which is never one of the six markers |
| `ExamParser.FirstClose` | src/parser.py:40-44 | the position where reading stops: no earlier line is `</exam>`, and it is one unless the lines ran out |
| `ExamParser.OpenSeen` | src/parser.py:34-36 | `seen_exam_start` before line `n`: true exactly when some earlier line is `<exam>` |
| `ExamParser.LastMarker` | src/parser.py:34-55 | the last line before `n` that changes the open direction, with no such line after it |
| `ExamParser.ActiveTask` | src/parser.py:49-50 | the open direction, when there is one, is `zh_en` or `en_zh` |
| `ExamParser.ExamSpec` | src/parser.py:24-70 | an accepted file always yields exactly the two keys `zh_en` and `en_zh` |
| `ExamParser.OpenSeenStep` | src/parser.py:34-36 | one more line sets the exam-seen flag exactly when it is `<exam>` |
| `ExamParser.ActiveTaskKeep` | src/parser.py:57-63 | a line that is not a marker leaves the open direction unchanged |
| `ExamParser.ActiveTaskOpen` | src/parser.py:49-51 | an opening marker inside the exam opens its direction |
| `ExamParser.ActiveTaskClose` | src/parser.py:34-55 | `<exam>`, a closing marker, or an opening marker outside the exam leaves no direction open |
| `ExamParser.TasksSkip` | src/parser.py:46-61 | a line that is not collected (outside the exam, no open direction, blank, comment or marker) leaves both lists unchanged |
| `ExamParser.TasksCapture` | src/parser.py:63 | a collected line is appended, stripped and with its 1-based number, to the list of the open direction only |
| `ExamParser.ParseExam` | src/parser.py:20-70 | the state machine's outcome, both the error cases and the lists, is exactly `ExamSpec` of the lines |
| `ExamParser.FirstCloseSpec` | src/parser.py:40-44 | reading stops at the first line that strips to `</exam>` |
| `ExamParser.NoExamStartRejected` | src/parser.py:34-68 | no line strips to `<exam>`: rejected for the missing container |
| `ExamParser.CloseBeforeStartRejected` | src/parser.py:40-68 | a `</exam>` before any `<exam>`: rejected for the missing container, whatever follows |
| `ExamParser.MissingEndRejected` | src/parser.py:65-66 | an `<exam>` with no `</exam>` anywhere: rejected for the missing end |
| `ExamParser.AcceptedIff` | src/parser.py:34-68 | accepted exactly when some line is `</exam>` and an `<exam>` comes before the first such line |
| `ExamParser.PrefixAgree` | src/parser.py:31-63 | files whose first `n` lines agree have the same exam-seen flag and the same lists after those lines |
| `ExamParser.FirstCloseOfExtension` | src/parser.py:40-44 | appending lines to a file that has a `</exam>` does not move where reading stops |
| `ExamParser.TrailingLinesIgnored` | src/parser.py:40-44 | once a file has a `</exam>`, appending any lines leaves the outcome unchanged |
| `ExamParser.CapturedWellFormed` | src/parser.py:31-63 | every collected item is its line stripped, is collectable, carries that line's 1-based number, and was read while its direction was open |
| `ExamParser.CapturedIncreasing` | src/parser.py:31-63 | within one direction, line numbers strictly increase |
| `ExamParser.ItemsWellFormed` | src/parser.py:31-63 | in an accepted file, every item is its line stripped, non-blank, not a comment, not a marker, with no surrounding whitespace, numbered by its physical line; numbers strictly increase |
| `ExamParser.ActiveTaskSpec` | src/parser.py:34-58 | a line is collected for a direction only after that direction's opening marker, which follows an `<exam>`, with no marker other than `</exam>` in between; so lines before `<exam>` or with no open direction are dropped |
| `ExamParser.ResetMarkers` | src/parser.py:34-55 | a closing task marker and a repeated `<exam>` both reset the open direction |
| `ExamParser.SingleItemExample` | src/parser.py:24-70 | `<exam>`, `<zh_en>`, `你好`, `</zh_en>`, `</exam>` yield one `zh_en` item `你好` on line 3 and an empty `en_zh` |
| `Translator.Messages` | src/translator.py:53-56 | every attempt sends the system prompt of the direction, then the source text |
| `Translator.FirstSuccess` | src/translator.py:59-63 | the attempt that succeeds first, in `from..retries`, with every attempt before it failing; none when all fail |
| `Translator.TranslateSpec` | src/translator.py:49-69 | a result that carries an error has empty text |
| `Translator.AttemptsMade` | src/translator.py:59 | the service is called at most `retries` times, and never when `retries <= 0` |
| `Translator.Backoff` | src/translator.py:66-67 | one pause after each failed attempt but the last, with multipliers 1, 2, … in order |
| `Translator.Translate` | src/translator.py:49-69 | the loop's result, number of calls and pauses are exactly those of `TranslateSpec`, `AttemptsMade` and `Backoff` |
| `Translator.UnsupportedMakesNoCall` | src/translator.py:50-51 | an unsupported direction gives empty text, the unsupported-task error and no call |
| `Translator.FirstSuccessWins` | src/translator.py:59-63 | when attempt `k` is the first to succeed, its reply stripped is the text, with no error, after exactly `k` calls |
| `Translator.LastErrorWins` | src/translator.py:58-69 | when every attempt fails, exactly `retries` calls are made and the result is empty text with the last attempt's error |
| `Translator.OnlyLastErrorMatters` | src/translator.py:64-69 | earlier errors are discarded: two all-failing services that agree on the last attempt give the same result |
| `Translator.NoAttemptsNoError` | src/translator.py:58-69 | with `retries <= 0`, no call and a result of empty text with no error |
| `Translator.SuccessIsStripped` | src/translator.py:62-63 | a translation without error has no whitespace at either end |
| `Translator.DependsOnlyOnMessages` | src/translator.py:53-61 | the result depends only on what the service answers to the two messages |
| `Runner.Tokens` | src/main.py:48 | the non-empty stripped pieces: never more than the pieces, none empty |
| `Runner.TokensClean` | src/main.py:48 | every token is stripped: non-empty, with no whitespace at either end |
| `Runner.FirstUnknown` | src/main.py:49-51 | the first token that is not a direction, with every earlier token a direction; none when all are |
| `Runner.ParseSelectedTasks` | src/main.py:47-52 | accepted exactly when every token is a direction, giving the tokens in order; otherwise refused with the first unknown token |
| `Runner.TokensAppend` | src/main.py:48 | tokens of concatenated pieces are the concatenated tokens, so input order is kept |
| `Runner.TokensOfClean` | src/main.py:48 | pieces that are already stripped and non-blank come through unchanged |
| `Runner.SelectionRoundTrip` | src/main.py:47-52 | a comma-joined list of directions, repetitions included, reads back as that list |
| `Runner.DefaultSelection` | src/main.py:28 | the default `zh_en,en_zh` selects both directions in that order |
| `Runner.BlankPieceIgnored` | src/main.py:48 | a blank piece contributes nothing |
| `Runner.EmptySelection` | src/main.py:47-52 | an empty value selects no direction and is not an error |
| `Runner.SortedSpec` | src/main.py:71 | the sorted indices are strictly increasing, in range, and exactly the drawn ones there |
| `Runner.SortedLength` | src/main.py:71 | sorting keeps as many indices as were drawn |
| `Runner.SampleItems` | src/main.py:64-72 | all items for `-1` or a size that covers them; none for `0`; an error below `-1`; otherwise exactly `limit` items forming an order-preserving subsequence at the sorted drawn indices |
| `Runner.SampleUsesDrawnIndices` | src/main.py:71-72 | the sample's positions are exactly the drawn indices |
| `Runner.SampleStaysIncreasing` | src/main.py:64-72 | a sample of a parsed list keeps its line numbers strictly increasing |
| `Runner.SubsequenceMultiset` | src/main.py:72 | a sample only holds items of the input, each at most as often |
| `Runner.FinalRows` | src/main.py:85 | one row per item |
| `Runner.FirstFailure` | src/main.py:94-110 | the first position in the completion order whose translation failed, with all earlier ones succeeding; none when none fails |
| `Runner.RowsAfter` | src/main.py:85-113 | writing rows never changes their number |
| `Runner.FailsAfter` | src/main.py:97-99 | the failure count never exceeds the number of finished translations |
| `Runner.RowsAfterSpec` | src/main.py:85-113 | after `p` completions, a row holds its translation (empty for a failure) exactly when its index has finished, and is `(item, "")` before |
| `Runner.FailsAfterSpec` | src/main.py:94-113 | the counters equal the numbers of finished indices that failed and that succeeded |
| `Runner.DispatchComplete` | src/main.py:94-118 | once every translation has finished, the rows are the final rows and the counters are the numbers of failed and of successful outcomes |
| `Runner.TranslateTask` | src/main.py:75-118 | the loop's outcome is exactly `DispatchSpec`; every index is written once, in completion order, up to and including the failure that aborts |
| `Runner.EmptyBatch` | src/main.py:82-83 | no items: no rows and both counts zero |
| `Runner.RowsFollowItems` | src/main.py:85-113 | a completed dispatch has one row per item in item order, holding the text of a success or empty text for a failure |
| `Runner.CountsCoverItems` | src/main.py:94-118 | a completed dispatch's counts add up to the number of items, and the failure count is the number of failed outcomes |
| `Runner.AbortedIff` | src/main.py:94-110 | the dispatch aborts exactly when errors are not tolerated and some translation failed |
| `Runner.AbortCauseFinishedFirst` | src/main.py:94-110 | the abort carries the error of the first failed translation to finish |
| `Runner.ContinuingIgnoresOrder` | src/main.py:94-118 | with errors tolerated, the completion order makes no difference to rows or counts |
| `Runner.NoAttemptsCountAsSuccess` | src/main.py:94-113 | translations allowed no attempts all count as successes with empty rows |
| `Runner.UnsupportedTaskFailsAll` | src/main.py:94-110 | an unsupported direction fails every item: all rows empty and all failures when tolerated, otherwise an abort with the unsupported-task error |
| `Runner.OneFailureScenario` | src/main.py:94-118 | three items with the second failing, errors tolerated: three rows with the failure's empty, two successes and one failure, in any completion order |

## Left out

- File access in `parse_exam` (`src/parser.py:21-22`, `30`) is left out: the existence check, `FileNotFoundError` and UTF-8 decoding. `ParseExam` takes the file's lines, each with whatever line break it was read with.
- The chat client is left out: `ChatOpenAI`, the thread-local `_get_client` cache and its settings (`src/translator.py:31-47`, `61`). The service is the `remote` parameter, and a reply's content is taken to be a string already (`str(...)` is not modelled).
- `time.sleep(0.5 * attempt)` is left out as a side effect. `Translate` returns the multipliers of the half-second pauses instead.
- Exceptions are modelled as values: a failed call carries its message, and exception types and tracebacks are not modelled.
- The thread pool is left out: `ThreadPoolExecutor`, `as_completed`, `cancel`, `shutdown` and the `tqdm` bar. The completion order is the `order` parameter, and each item's translation outcome is `results`. That no new translation starts after an abort is not modelled.
- The `task` parameter of `translate_task` is left out. It only selects the prompt inside `translate` and labels log lines; the outcome of translating each item is given in `results`.
- `random.Random(seed + offset).sample` is left out. The drawn indices are the `chosen` parameter, any `limit` distinct indices below the number of items. For that reason the `task` and `random_seed` parameters of `sample_items`, which only seed the generator, are not modelled.
- All `logger` calls are left out; they are observational only.
- `parse_args`, `configure_logger`, `run` and `main` (`src/main.py:24-44`, `55-61`, `121-209`) are left out. They are command-line parsing, logging set-up, file paths and CSV writes.
- From the configuration module only one fact is kept: `workers >= 1` (`src/config.py:47-48`), a precondition of `TranslateTask`. The rest of `src/config.py` is environment reading and is not part of this model. Neither is `src/writer.py`, which is CSV output.
- Python's universal-newline handling of `\r\n` when reading the file is not modelled. A line keeps its terminator, and `Strip` removes it as whitespace.
