# nightwatch-openai-plugin: snippet extractor and failure-tree flattening, in Dafny

This project models the two computational parts of a Nightwatch post-run reporter plugin.

1. **The code-snippet extractor** (`utils/stackTrace.js`). It takes a raw JavaScript stack
   trace and removes every line that contains one of thirteen deny-list substrings
   (`node_modules`, `(timers.js:`, `node:internal/`, …). It hands the rest to a stack-trace
   parser and takes the first frame. It reads that frame's file, splits it on `/\r?\n/`, and
   collects the lines within four of the failing line. It renders each one as
   `"\n     <n> | <code>"`. Any failure on the way gives `""`.
2. **The failure-tree flattening** (`getErrorMessages` and `getTestFailures` in `index.js`).
   From the results of a test run, it picks every module whose `lastError` is set. In each
   such module it picks every completed test case that has errors or a failing assertion, and
   keeps that case's failing assertions in order.

Modules:

- `Wrappers` (wrappers.dfy): `Option`.
- `Seqs` (seqs.dfy): `Filter`, the order-preserving selection behind every
  "push-if-passes" `reduce` in the source. Its lemmas say which elements it keeps, in what
  order, and how many.
- `Text` (text.dfy): the JavaScript string operations the extractor uses. These are `split`
  and `join` on one character, `split(/\r?\n/)` with the line breaks it consumes,
  `includes`, and the decimal form of a number in a template literal.
- `StackTrace` (stack_trace.dfy): `utils/stackTrace.js`. Each loop (`reduce` with `push`,
  `reduce` that builds a string, `for` with early return) is a method, proved against a
  specification function: `Filter`, `Window`, `Rendered` or `Extract`.
- `Reporter` (reporter.dfy): `getTestFailures` and `getErrorMessages`. These are methods
  whose loops over object keys and assertions are proved against a declarative
  specification, `TestFailures`.

Inputs the source takes from outside are parameters:

- The `stacktrace-parser` library is `parse: string -> seq<Frame>`, applied to the filtered
  trace; its frames come back in top-to-bottom order.
- `fs.readFileSync` is `files: map<string, string>`. A path missing from the map is a file
  that cannot be read.
- The `try`/`catch` of `beautifyStackTrace` is the `Option` returned by `Extract`, which
  `BeautifyStackTrace` turns into `""`.

On these points the model follows the code exactly:

- The trace is split on `'\n'` only (line 58). A `'\r'` at the end of a trace line stays
  part of that line. Only the source file is split on `/\r?\n/`.
- The reducer in `beautifyStackTrace` applies a second window test to each record (line 19).
  It is modelled as written, and `ShownWindow` proves that it never drops a record.
- `contains` falls through to `str.includes(array)` after its loop (line 100). This is
  modelled as written. `CoercedListMatch` proves that the fall-through adds no match for a
  non-empty list and matches every string for an empty one. The deny list is never empty,
  so filtering is unaffected.
- A frame's line number is any integer. The window is clipped at line 1 whatever the frame
  says.

## Model

| member | source | states |
|---|---|---|
| `Text.Includes` | utils/stackTrace.js:100 | `includes` is true iff `sub` occurs in `s` at some position, as a literal, case-sensitive substring (the empty string occurs everywhere) |
| `StackTrace.Contains` | utils/stackTrace.js:91-101 | `contains(line, list)` is true iff some list entry is a substring of the line, or the list is empty (the fall-through on the comma-joined list) |
| `StackTrace.CoercedListMatch` | utils/stackTrace.js:100 | the test on the comma-joined list matches every string when the list is empty, and otherwise matches only if the first entry does |
| `StackTrace.StackTraceFilter` | utils/stackTrace.js:63-89 | the loop result is the lines that contain no deny-list entry, in input order, joined with `'\n'` |
| `StackTrace.FilterStackTrace` | utils/stackTrace.js:57-61 | `filterStackTrace` equals `FilteredTrace`: split on `'\n'`, keep the non-noise lines, rejoin |
| `StackTrace.FilterKeepsQuietLines` | utils/stackTrace.js:57-89 | the kept lines are the input lines read at strictly increasing positions, and a position is read iff its line is not noise; N lines with K noise lines keep N−K; splitting the filtered trace again gives exactly the kept lines, or the result is `""` when none remain |
| `StackTrace.FilterIdempotentTrace` | utils/stackTrace.js:57-89 | filtering an already filtered trace returns it unchanged |
| `StackTrace.NoiseOnlyTraceFiltersToEmpty` | utils/stackTrace.js:63-88 | a trace whose every line is noise filters to `""` |
| `StackTrace.WindowBounds` | utils/stackTrace.js:43-50 | the window has at most 9 records; each number is in `[L-4, L+4]` and in the file (between 1 and its line count); each code is that line verbatim; numbers strictly ascend; every in-range line appears; line L appears when it is in the file |
| `StackTrace.FormatStackTrace` | utils/stackTrace.js:35-55 | `filePath` and `error_line_number` are the frame's own, and the pushed records are exactly `Window(lines, frame.lineNumber)` |
| `StackTrace.RenderSnippet` | utils/stackTrace.js:17-24 | the accumulated string is the render of the records that pass the reducer's test, in order |
| `StackTrace.ShownWindow` | utils/stackTrace.js:19 | the reducer's test (`n === L` or `L-4 <= n <= L+4`) keeps every record of the window |
| `StackTrace.RenderedRows` | utils/stackTrace.js:20 | for records without line breaks, the render split on `'\n'` is `""` followed by one row per record (five spaces, the number, a bar between spaces, the code), in order |
| `StackTrace.BeautifyStackTrace` | utils/stackTrace.js:8-30 | the result is the `Extract` value, or `""` where `Extract` fails |
| `StackTrace.ExtractFailsExactly` | utils/stackTrace.js:9-29 | extraction fails iff the parser finds no frame in the filtered trace or frame 0's file cannot be read |
| `StackTrace.NoiseOnlyTraceGivesNothing` | utils/stackTrace.js:8-30 | a trace made only of noise lines gives no snippet, given a parser that finds no frame in `""` |
| `StackTrace.ExtractShowsWindow` | utils/stackTrace.js:12-26 | a successful snippet, split on newlines, is an empty piece and then one row per record of the window of frame 0's line in its split file, in order (five spaces, the number, a bar between spaces, the line verbatim); `WindowBounds` says which records the window holds |
| `Text.Split` | utils/stackTrace.js:58 | `split('\n')` gives at least one piece, and no piece contains the separator |
| `Text.Join` | utils/stackTrace.js:88 | `join(sep)` of pieces without `sep` is undone by `Split` (`SplitJoin`), `Join` of a `Split` restores the string (`JoinSplit`), and one more piece appends `sep` and that piece (`JoinSnoc`) |
| `Text.JoinSplit` | utils/stackTrace.js:58-88 | joining the pieces of a split with the same separator gives back the original string |
| `Text.SplitJoin` | utils/stackTrace.js:88 | splitting a join of at least one separator-free piece gives back the pieces |
| `Text.SplitLines` | utils/stackTrace.js:14 | `split(/\r?\n/)` gives at least one line, and no line contains `'\n'` |
| `Text.SplitLinesExact` | utils/stackTrace.js:14 | the text is its lines interleaved with the consumed breaks; each break is `"\n"` or `"\r\n"`; a line followed by a lone `"\n"` never ends in `'\r'` |
| `Text.SplitLinesWithoutCarriageReturn` | utils/stackTrace.js:14 | on text without `'\r'`, the regex split equals the split on `'\n'` |
| `Text.Decimal` | utils/stackTrace.js:20 | `${n}` gives a non-empty string of decimal digits, with no leading zero unless n is 0 |
| `Text.DecimalRoundTrip` | utils/stackTrace.js:20 | reading the digits of `${n}` back gives n |
| `Seqs.Filter` | utils/stackTrace.js:64-86 | the push-if-passes `reduce` keeps no more elements than it is given, and only elements of the input that pass |
| `Seqs.FilterSnoc` | utils/stackTrace.js:83 | one more element appends it exactly when it passes |
| `Seqs.FilterSelects` | index.js:76-83 | the filter result is the input read at strictly increasing positions, and a position is read iff its element passes |
| `Seqs.FilterLength` | utils/stackTrace.js:64-86 | the filter keeps the input length minus the number of elements that fail |
| `Seqs.FilterIdempotent` | utils/stackTrace.js:64-86 | filtering twice with the same test is filtering once |
| `Reporter.CollectFailures` | index.js:67-83 | `failures` is exactly the failing assertions in order; `errors` is `errorsPerTest` unchanged; `failed` holds iff `errorsPerTest` is defined and > 0 or some assertion failed |
| `Reporter.GetTestFailures` | index.js:65-91 | the result is `TestFailures`: exactly the failed test cases, each with its failure record |
| `Reporter.GetErrorMessages` | index.js:47-63 | null iff `results.lastError` is falsy; otherwise a module name is a key iff that module's `lastError` is truthy, and its value is `getTestFailures` of that module |
| `Reporter.FailedTestRule` | index.js:70-87 | a test case is a key iff `errorsPerTest` is defined and > 0 or one of its assertions has `failure`; no key lies outside `completed` |
| `Reporter.FailedHasCause` | index.js:70-86 | a failed test case has `errorsPerTest` > 0 or keeps at least one failing assertion |
| `Reporter.FailureRecordExact` | index.js:68-86 | a kept record holds exactly the failing assertions in original order, `errors` equal to `errorsPerTest` unchanged, and `failed = true`; it has errors or at least one failing assertion |

## Left out

- The `stacktrace-parser` grammar (utils/stackTrace.js:2, 10) is a foreign library. Here it is the parameter `parse`. Properties that depend on it, such as "a noise-only trace yields nothing", are stated under an explicit assumption about `parse`.
- `fs.readFileSync` and its UTF-8 decoding (utils/stackTrace.js:13) are file-system I/O. Here they are the map `files`, whose values are already-decoded text.
- The default argument of `filterStackTrace` (`stackTrace = ''`, utils/stackTrace.js:57) is left out: a Dafny string is always defined.
- JavaScript coercions that the source does not intend are left out. One is a `null` or non-numeric `lineNumber` taking part in arithmetic. Another is a non-string `file` passed to `readFileSync`. Frames here carry a string path and an integer line number.
- Other exceptions inside the `try` block are left out. They cannot arise in the model, whose operations are total.
- `sendErrorAnalysisRequest` (index.js:27-45) is left out. It is HTTP transport through axios and FormData.
- Environment loading, markdown-to-terminal rendering, `stripAnsi` and console output (index.js:1-17, 146-149) are left out. They are foreign libraries and output.
- The `reporter` async loop and payload assembly (index.js:95-152) are left out. They are asynchronous orchestration around the network call.
- Object key order is not modelled: modules and test cases are maps. The objects `getErrorMessages` and `getTestFailures` build are key-value maps, so visiting order does not change them.
- Truthiness is not modelled in general. `lastError` and `failure` are booleans that stand for the truthiness of those fields. `errorsPerTest` is an `Option<int>`, with `None` for undefined or `null`.
