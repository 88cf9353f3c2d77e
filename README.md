# playwright-ci-reporter: a Dafny model of the reporter core

The repository is one Playwright reporter, `CustomReporterConfig` in `src/index.ts`.
`onTestEnd` logs one line per finished test. It also keeps a table of failures,
a JavaScript `Map` from test title to `{message, stack, timeTaken}`. `onEnd`
prints either a numbered list of the failures followed by a failure quote, or a
success header followed by a success quote.

This model covers the reporter's own logic:

- `JsString` (`js_string.dfy`): `trim`, `indexOf`, and `replace` with a string
  pattern and an empty replacement, which removes the first occurrence only.
- `Quotes` (`quotes.dfy`): the two fixed quote lists, and picking an index as
  `floor(r * len)` from a random draw `0 <= r < 1`.
- `FailureTable` (`failure_table.dfy`): the insertion-ordered map as a value. It
  holds an iteration order and a key-to-record map. Its invariant is that the two
  agree and that no key appears twice. `Put` is `Map.set`: a key that is already
  present keeps its position.
- `Reporter` (`reporter.dfy`):
  - the status icon, the stack cleanup and the failure record;
  - `Recorded`, the table after one `onTestEnd`;
  - `Replay`, the table after a whole run, with lemmas comparing it to two
    independent reference definitions;
  - `Summarize`, the `onEnd` output as a list of records;
  - the class `CustomReporter`. Its fields `order` and `records` are updated in
    place by `OnTestEnd`. `OnEnd` reads them in a counting loop and never writes.
  - `RunTests`, the host runner's calls of `onTestEnd` on a fresh reporter. It is
    proved to leave the object's table equal to `Replay` of the same events.

`Wrappers` (`wrappers.dfy`) holds `Option`, which stands for JavaScript's
possibly-`undefined` fields.

Some things are outside the model and are passed in as parameters instead. The
random draw of `Math.random()` becomes a real `r` with `0 <= r < 1`. The
formatting `x.toFixed(2)` becomes a function value `real -> string` that the
reporter receives when it is constructed.

Two behaviours of the code are worth stating outright:

- Stack cleanup removes only the first literal occurrence of the message, not the
  text around it. For message `"boom"` and stack `"Error: boom\n  at foo()"` the
  stored stack is `"Error: \n  at foo()"` (`Reporter.CleanStackExample`).
- A failed result whose first error has neither message nor stack is recorded,
  with message `""` and stack `""`.

The string, table and summary functions carry only light contracts. Their full
characterizations are separate lemmas (`TrimSpec`, `IndexOfSpec`, `PutSpec`,
`RecordedSpec`, `SummarizeSpec`, …), and proofs call these lemmas where they need
them.

## Model

| member | source | states |
|---|---|---|
| `JsString.TrimStartSpec` | src/index.ts:73 | trimming the start leaves the suffix of the input after dropping only whitespace, and that suffix does not start with whitespace |
| `JsString.TrimEndSpec` | src/index.ts:73 | trimming the end leaves the prefix of the input before dropping only whitespace, and that prefix does not end with whitespace |
| `JsString.TrimSpec` | src/index.ts:73 | `trim()` returns a slice `s[i..j]` with only whitespace outside it and none at either end of it |
| `JsString.Trim` | src/index.ts:73 | `stack.trim()` is never longer than its input; `TrimSpec` gives its value: the slice of the input with all leading and trailing whitespace removed |
| `JsString.TrimIdempotent` | src/index.ts:73 | trimming twice is the same as trimming once |
| `JsString.IndexOfFrom` | src/index.ts:73 | a match found from a start index is an occurrence of the pattern |
| `JsString.IndexOfFromSpec` | src/index.ts:73 | the search from a start index returns the first occurrence at or after it, and returns none exactly when no occurrence exists from there on |
| `JsString.IndexOf` | src/index.ts:73 | the first-occurrence search that `replace` performs returns only indexes where the pattern occurs; `IndexOfSpec` gives its value: the first such index, or none exactly when the pattern does not occur |
| `JsString.IndexOfSpec` | src/index.ts:73 | `indexOf` finds a match exactly when the pattern occurs somewhere; the match is an occurrence with none before it |
| `JsString.RemoveFirst` | src/index.ts:73 | `stack.replace(message, '')` is never longer than the stack; `RemoveFirstSpec` gives its value: the stack when the message is absent, otherwise the stack with the message cut out at its first occurrence |
| `JsString.RemoveFirstSpec` | src/index.ts:73 | `replace(pat, '')` returns the input when the pattern is absent; otherwise it drops `|pat|` characters, and putting the pattern back at its first index gives the input |
| `JsString.RemoveEmpty` | src/index.ts:71-73 | removing the empty pattern (an absent message) leaves the stack unchanged |
| `Quotes.PickIndex` | src/index.ts:42 | `floor(r * len)` with `0 <= r < 1` is an index below `len`, and it is the floor of `r * len` |
| `Quotes.FailureQuote` | src/index.ts:30-43 | the failure quote is one of the nine fixed failure quotes |
| `Quotes.SuccessQuote` | src/index.ts:46-57 | the success quote is one of the seven fixed success quotes |
| `Quotes.PickIndexReaches` | src/index.ts:42-56 | every index below `len` is chosen by the draw `k / len` |
| `Quotes.EveryFailureQuoteReachable` | src/index.ts:30-43 | every one of the nine failure quotes can be chosen |
| `Quotes.EverySuccessQuoteReachable` | src/index.ts:46-57 | every one of the seven success quotes can be chosen |
| `FailureTable.Empty` | src/index.ts:27 | the new table is valid and has no entries |
| `FailureTable.Put` | src/index.ts:75 | `Map.set` keeps the table valid: no title appears twice, and the order lists exactly the keys |
| `FailureTable.PutSpec` | src/index.ts:75-79 | `Map.set` stores the record under the key and leaves the other records unchanged; a present key keeps its position, and a new key is appended last |
| `FailureTable.SizeIsOrderLength` | src/index.ts:86-89 | `failures.size` equals the number of entries iterated |
| `FailureTable.PutExisting` | src/index.ts:75-79 | overwriting a title replaces its record, keeps the size and keeps the title's position |
| `FailureTable.PutNew` | src/index.ts:75-79 | setting a new title adds exactly one entry, at the end of iteration order |
| `Reporter.StatusIcon` | src/index.ts:61 | the icon is ✅ exactly when the status is `passed`; every other status gets ❌ |
| `Reporter.CleanStack` | src/index.ts:71-73 | the stored stack has no whitespace at either end and is no longer than the raw stack |
| `Reporter.CleanStackWithoutMessage` | src/index.ts:71-73 | an empty message, or one absent from the stack, gives just `trim(stack)` |
| `Reporter.CleanStackWithMessage` | src/index.ts:73 | otherwise, with `k` the first index where the message occurs, the result is the trim of `stack[..k]` followed by the stack after the message's end, and putting the message back at `k` in the cut stack gives the stack again |
| `Reporter.CleanStackExample` | src/index.ts:73 | `"boom"` removed from `"Error: boom\n  at foo()"` gives `"Error: \n  at foo()"` |
| `Reporter.BoomFirstAtSeven` | src/index.ts:73 | in that stack the first occurrence of `"boom"` is at index 7 |
| `Reporter.FailureOf` | src/index.ts:69-79 | the record takes the first error's message (or `""`), the formatted duration, and the stack `stack.replace(message, '').trim()` with an absent stack read as `""`; the stored stack is trimmed |
| `Reporter.Recorded` | src/index.ts:68-81 | the table after one `onTestEnd` call is valid |
| `Reporter.RecordedSpec` | src/index.ts:68-81 | a result that is not `failed`, or is `failed` with no errors, leaves the table unchanged; otherwise the title maps to the record of `errors[0]`, every other record is unchanged, and the order grows only for a new title |
| `Reporter.RecordedReadsFirstErrorOnly` | src/index.ts:69 | errors after the first do not affect the table |
| `Reporter.Replay` | src/index.ts:27-82 | the table after any sequence of `onTestEnd` calls, starting from the empty map, is valid |
| `Reporter.ReplayStep` | src/index.ts:60-82 | the table after `i + 1` calls is the table after `i` calls, updated by call `i` |
| `Reporter.LastFailure` | src/index.ts:68-81 | reference definition: the record of the last event that recorded a title; it is none exactly when no event recorded the title |
| `Reporter.FirstFailure` | src/index.ts:68-79 | reference definition: the index of the first event that recorded a title, or none if no event did |
| `Reporter.ReplayLastWriteWins` | src/index.ts:68-81 | after a run a title is in the table exactly when some event recorded it, and its record is the one from the last such event; nothing ever deletes an entry |
| `Reporter.ReplayOrder` | src/index.ts:75-79 | iteration order lists exactly the recorded titles, sorted by the first event that recorded each |
| `Reporter.OrderStep` | src/index.ts:75-79 | one more `set` keeps the order sorted by first recording |
| `Reporter.Blocks` | src/index.ts:88-97 | there is one block for each of the first `n` titles |
| `Reporter.BlocksSpec` | src/index.ts:88-97 | block `i` is `Failure #i+1` for the `i`-th title in iteration order, with its record |
| `Reporter.Summarize` | src/index.ts:85-102 | the summary has N + 2 elements for a non-empty table and two for an empty one |
| `Reporter.SummarizeSpec` | src/index.ts:85-102 | a non-empty table gives a header, N blocks numbered 1..N in iteration order and the failure quote; an empty table gives the success header and the success quote |
| `Reporter.SummaryCounts` | src/index.ts:86-102 | the summary has exactly one quote, taken from the list for its branch, and exactly as many failure blocks as the table has entries |
| `Reporter.CustomReporter.constructor` | src/index.ts:27 | the reporter starts with an empty, valid failures table |
| `Reporter.CustomReporter.OnTestEnd` | src/index.ts:60-82 | it returns the log line's icon, title, status and formatted time, and the new table is `Recorded` applied to the old one |
| `Reporter.CustomReporter.OnEnd` | src/index.ts:85-104 | the counting loop returns exactly `Summarize` of the table, and the method has no write permission on the table |
| `Reporter.RunTests` | src/index.ts:60-82 | a fresh reporter given a run's events through `OnTestEnd`, in order, ends with the table `Replay` computes for those events |

## Left out

- The winston logger, its console and file transports, timestamps and colours (src/index.ts:7-23). These are I/O through a library outside the model. `OnTestEnd` returns the content of its log line as a `LogEntry` instead of writing it.
- The final `✨ All tests completed.` log line of `onEnd` (src/index.ts:103). It is output only and writes no state.
- Console printing, ANSI bold codes, emoji and the text layout of the summary (src/index.ts:87-101). The summary is modelled as a list of `Output` records.
- `Math.random()` (src/index.ts:42, 56). It is non-deterministic, so it is a parameter `r` with `0 <= r < 1`. Whether the draw is uniform is not modelled.
- `(duration / 1000).toFixed(2)` (src/index.ts:62). This is floating-point formatting. It is a function value supplied to the constructor, and `duration` is a `real`.
- UTF-16 strings: JavaScript strings are sequences of UTF-16 code units. The model uses Unicode characters, so a message that splits a surrogate pair is not modelled.
- The Playwright `TestCase` and `TestResult` types. Only the fields read are modelled: `title`, `status`, `duration`, and `message` and `stack` of each error. The status is the five-value enum Playwright defines.
