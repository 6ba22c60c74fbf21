# Term practice UI — verified model of its sequential core

Term is a small React/Electron app for practising data-structure problems. It asks a
generative-text service for a problem and shows the problem and the feedback paginated to
a fixed-height card. The user can cycle the topic, difficulty and language selectors. This
project models, in Dafny, the parts of that app that are plain sequential logic, and
proves what they promise:

* `auto_paginated.dfy` (module `AutoPaginated`) — the pagination engine of
  `AutoPaginated.jsx`.
  * `NaturalBreak` is the backward scan for a break character among a slice's last 40
    characters.
  * `LargestFit` is the binary search for the longest slice that fits.
  * `NextPageEnd` cuts one page. `PageLoop` and `Paginate` cut the whole text.
  * The hidden DOM measurer is replaced by a `Surface`: a deterministic `measure` from
    formatted text to height, and the viewport's `available` height. A missing viewport or
    measurer is `None`.
  * `GaugeOf` turns a surface into the `Gauge` the search probes: each slice is formatted
    by `Format` (`formatHtml` or `formatProblemText`, as the display will show it), then
    measured.
* `helpers.dfy` (module `Helpers`) — `formatProblemText`, `formatHtml`, `canSubmitGuard`,
  `cycleOption` and the three option lists of `helpers.js`, with the unit-test cases of
  `helpers.test.js` proved as lemmas.
* `js_string.dfy` (module `JsString`) — the JavaScript string built-ins those formatters
  use, over strings as sequences of characters:
  * the whitespace class `\s`;
  * the line terminators that `.` refuses;
  * `trim`;
  * `split` on one character, `filter` and `join`.
* `gemini.dfy` (module `Gemini`) — `callApiWithBackoff`. It is proved equal to `Invoke`, an
  independent loop-free definition of its observable behaviour: its result, its number of
  `fetch` calls and its list of sleeps.
* `paginated_content.dfy` (module `PaginatedContent`) — the page navigator of
  `PaginatedContent.jsx`.
  * The class `PageNavigator` holds the `currentPage` state. `GoToPrev`, `GoToNext` and
    `SetPages` update it, and so do the button clicks `PressPrev` and `PressNext`.
  * The shown content, the "Page x of y" label and the disabled flags are functions of it.
* `numeric.dfy` (module `Numeric`) — `Math.min` and `Math.max`.
* `wrappers.dfy` (module `Wrappers`) — `Option`, which stands for JavaScript's
  `undefined`/`null`.

## Model

| member | source | states |
|---|---|---|
| AutoPaginated.IsBreak | src/components/AutoPaginated.jsx:15 | The break set, character for character: space, newline, `,` `.` `;` `:` `!` `?`, the CJK marks `，` `。` `；` `！` `？` `、`, and the closers `]` `)` `】` `》` `»`. `SnapsTo` and `NaturalBreak` state what is done with it. |
| AutoPaginated.NaturalBreak | src/components/AutoPaginated.jsx:13-20 | The result is `end`, or the position just after the last break character among the final 40 characters of `src[start..end]`. It lies in the range, and inside the 40-character window of a non-empty range. No break character of the window lies at or after it. |
| AutoPaginated.GaugeOf | src/components/AutoPaginated.jsx:36-42 | What one probe of the binary search measures: the slice is formatted by `Format` for the display it will be shown on, and the surface's `measure` gives its height. The available height is the viewport's. |
| AutoPaginated.Fits | src/components/AutoPaginated.jsx:43 | A slice fits when its measured height is at most the available height (`h <= available`). |
| AutoPaginated.Format | src/components/AutoPaginated.jsx:37-41 | The measured text for HTML has no raw newline. The plain text has no Markdown mark and no blank-line run. An empty slice formats to `""` either way. |
| AutoPaginated.MonotoneSlices | src/components/AutoPaginated.jsx:36-43 | A measure monotone on all strings is monotone on the slices of any text from any start, so every guarantee stated under the slice-wise hypothesis holds for it. |
| AutoPaginated.FitsShorter | src/components/AutoPaginated.jsx:43 | Under a measure monotone on the slices from the page start, every shorter slice from the same start fits whenever a longer one does. This is why snapping back keeps a page within the viewport. |
| AutoPaginated.LargestFit | src/components/AutoPaginated.jsx:31-44 | The search settles on an end from `pos+1` to the text's length. An end above `pos+1` is one whose formatted slice fits. Under a monotone measure, the slice fits if one character does, and no longer slice fits. |
| AutoPaginated.NextPageEnd | src/components/AutoPaginated.jsx:31-46 | One page from `pos`: its end is the break snap of an end the search may settle on. The page is non-empty. Under a monotone measure it fits unless it is one character. |
| AutoPaginated.StartAppend | src/components/AutoPaginated.jsx:47 | Pushing a page leaves the earlier pages' start offsets unchanged. |
| AutoPaginated.ConcatAppend | src/components/AutoPaginated.jsx:47 | Pushing a page appends its text to the concatenation of the pages. |
| AutoPaginated.StartLast | src/components/AutoPaginated.jsx:47-48 | A pushed page starts where the earlier pages end. |
| AutoPaginated.PageOkAppend | src/components/AutoPaginated.jsx:47 | Pushing a page keeps every earlier page valid: non-empty, snapped from a search end, and fitting. |
| AutoPaginated.PageOkLast | src/components/AutoPaginated.jsx:46-48 | The page `full[pos..safeEnd]` pushed after pages that spell `full[..pos]` is valid, and the pages now spell `full[..safeEnd]`. |
| AutoPaginated.PagesExtend | src/components/AutoPaginated.jsx:46-48 | One loop step keeps the invariant: the pages spell the text up to the new position, and every page is valid. |
| AutoPaginated.PagesFit | src/components/AutoPaginated.jsx:43-46 | Under a measure monotone on the slices of the text, every valid page fits unless it is a single character. |
| AutoPaginated.PageLoop | src/components/AutoPaginated.jsx:28-49 | The pages spell the text exactly. There are no more pages than characters, and none for empty text. Each page is non-empty and ends at the break snap of an end the search may settle on from its start. Under a measure monotone on the slices of the text, each page fits unless it is one character. |
| AutoPaginated.Paginate | src/components/AutoPaginated.jsx:22-51 | There is always at least one page, and the pages spell `text` (`""` when missing). Empty or missing text gives `[""]`. A missing viewport gives `[full]`. Otherwise every page is valid as in `PageLoop`, for the measure of formatted slices. Under a measure monotone on the slices of the text, each page also fits unless it is one character. |
| Helpers.StripMarks | src/utils/helpers.js:12 | The output has no `*` or backtick and is no longer than the input. With `StripMarksAppend`, `StripMarksUnmarked` and `StripMarksAllMarks`, it is the input with exactly its marks deleted. |
| Helpers.StripMarksFrom | src/utils/helpers.js:12 | Only characters of the input appear in the output. |
| Helpers.StripMarksAppend | src/utils/helpers.js:12 | Mark removal distributes over concatenation. |
| Helpers.StripMarksUnmarked | src/utils/helpers.js:12 | Text without `*` or backtick passes through unchanged. |
| Helpers.StripMarksAllMarks | src/utils/helpers.js:12 | A run of marks disappears entirely. |
| Helpers.StripMarksWrapped | src/utils/helpers.js:12 | A mark-free word wrapped in marks keeps only the word. |
| Helpers.CollapseBlankLines | src/utils/helpers.js:13 | The result is no longer than the input. `CollapseRun`, `CollapseNoBlankRun`, `CollapseKeepsNonSpace` and `CollapseIdentity` state what it does. |
| Helpers.CollapseRun | src/utils/helpers.js:13 | A newline, then whitespace, then a newline, not followed by more of the run, becomes exactly one newline. |
| Helpers.CollapseBetweenLines | src/utils/helpers.js:13 | A blank-line run between two lines becomes one newline, and the line before it is kept. |
| Helpers.CollapsePrefix | src/utils/helpers.js:13 | Text without a newline is copied through the collapse. |
| Helpers.CollapseJump | src/utils/helpers.js:13 | At a newline that starts a run, the greedy `\s*` stops after the run's last newline, and that stretch becomes one newline. |
| Helpers.CollapseKeep | src/utils/helpers.js:13 | A character that starts no run is kept. |
| Helpers.CollapseNoBlankRun | src/utils/helpers.js:13 | After the collapse, no newline is followed by only whitespace and then another newline. |
| Helpers.CollapseKeepsNonSpace | src/utils/helpers.js:13 | The collapse removes whitespace only: the output's non-whitespace characters are the input's, in order. |
| Helpers.CollapseIdentity | src/utils/helpers.js:13 | Text without blank-line runs is left unchanged. |
| Helpers.CollapseFrom | src/utils/helpers.js:13 | Only characters of the input appear in the output. |
| Helpers.LeadingSpace | src/utils/helpers.js:13 | The greedy `\s*`: a prefix of the input, all whitespace, and followed by a non-whitespace character unless it is the whole input (`LeadingSpaceAllSpace`). |
| Helpers.LeadingSpaceAppend | src/utils/helpers.js:13 | The greedy `\s*` consumes all of a whitespace prefix, then the leading whitespace of what follows. |
| Helpers.LastIndexOfAfter | src/utils/helpers.js:13 | The run's last newline is the one after which no newline follows. |
| Helpers.Truthy | src/utils/helpers.js:10 | The `if (!s) return ""` guard of both formatters (also helpers.js:17): a missing value and the empty string are falsy, every other string is truthy. `FormatProblemText` and `FormatHtml` return `""` on falsy input. |
| Helpers.FormatProblemText | src/utils/helpers.js:9-14 | Falsy input gives `""`. The output has no `*` or backtick and no newline–whitespace–newline run. Its non-whitespace characters are those of the input without its marks, in order. |
| Helpers.FormatProblemTextClean | src/utils/helpers.js:9-14 | Text with no marks and no blank-line runs is displayed unchanged. |
| Helpers.FormatProblemTextIdempotent | src/utils/helpers.js:9-14 | Formatting twice gives the same result as formatting once. |
| Helpers.FormatProblemTextOneLine | src/utils/helpers.js:9-14 | Text that has no newline once its marks are gone is displayed with just its marks removed. |
| Helpers.FormatProblemTextUnmarked | src/utils/helpers.js:9-14 | Text without marks is displayed with just its blank-line runs collapsed. |
| Helpers.FormatProblemTextMarksExample | src/utils/helpers.test.js:14-18 | ``**Bold** and `code` text`` displays as `Bold and code text`. |
| Helpers.FormatProblemTextBlankLinesExample | src/utils/helpers.test.js:20-24 | `Line 1\n\n\nLine 2` displays as `Line 1\nLine 2`. |
| Helpers.StripMarksComplexExample | src/utils/helpers.test.js:33 | The complex unit-test input loses its bold and code marks and keeps every other character. |
| Helpers.CollapseComplexExample | src/utils/helpers.test.js:33-35 | Once its marks are gone, both blank-line runs of the complex input each become one newline. |
| Helpers.FormatProblemTextComplexExample | src/utils/helpers.test.js:32-36 | ``**Problem:** `array[i]`\n\n\n**Solution:**\n\nTest`` displays as `Problem: array[i]\nSolution:\nTest`. |
| Helpers.FindClose | src/utils/helpers.js:19 | The lazy closer search finds the first `**` after the opener, on the same line. If it finds none, every later `**` lies past a line terminator. |
| Helpers.StripBold | src/utils/helpers.js:19 | The global replace of `**x**` by `x`, non-greedy and within one line. The lemmas below cover every position of the scan: a character that does not start `**` is copied (`StripBoldCopy`, `StripBoldStarFree`), a `**` with a closer on its line is replaced by its contents (`StripBoldPair`, `StripBoldPairAfter`), and a `**` without one is kept (`StripBoldUnclosed`). |
| Helpers.StripBoldCopy | src/utils/helpers.js:19 | A character that does not start `**` is copied, and the scan resumes at the next character. |
| Helpers.StripBoldStarFree | src/utils/helpers.js:19 | A star-free prefix is copied unchanged, and the scan resumes after it. |
| Helpers.StripBoldPairAfter | src/utils/helpers.js:19 | After a star-free prefix, a same-line `**x**` is replaced by `x`, and the scan resumes after the closing `**`. |
| Helpers.StripBoldUnclosed | src/utils/helpers.js:19 | A `**` with no closing `**` before the end of its line is kept as written, and the scan resumes after it. |
| Helpers.StripBoldPair | src/utils/helpers.js:19 | A same-line `**x**` is replaced by `x`, and the scan continues after the closing `**`. |
| Helpers.StripBoldNoStars | src/utils/helpers.js:19 | Text without `**` passes through the bold stripping unchanged. |
| Helpers.StripBoldPairThenPlain | src/utils/helpers.js:19 | A leading `**x**` followed by text without `**` becomes `x` followed by that text. |
| Helpers.NonBlank | src/utils/helpers.js:21 | The filter's test `line.trim() !== ''`. With `TrimEmptyIffBlank`, a line passes exactly when it is not all whitespace. |
| Helpers.KeepNonBlank | src/utils/helpers.js:21 | Every kept line is non-blank, and all-blank input keeps nothing. |
| Helpers.KeepNonBlankOne | src/utils/helpers.js:21 | A single line is kept exactly when it is not all whitespace. |
| Helpers.KeepNonBlankAppend | src/utils/helpers.js:21 | The filter works line by line: it distributes over concatenation, so it keeps exactly the non-blank lines, in order. |
| Helpers.KeepNonBlankCons | src/utils/helpers.js:21 | The first line is kept exactly when it is not all whitespace, followed by what the rest keeps. |
| Helpers.KeepNonBlankAll | src/utils/helpers.js:21 | Lines that are all non-blank are all kept. |
| Helpers.KeepNonBlankFrom | src/utils/helpers.js:21 | Every kept line is a line of the input. |
| Helpers.FormatHtml | src/utils/helpers.js:16-23 | Falsy input gives `""`. The output contains no newline. |
| Helpers.FormatHtmlBlank | src/utils/helpers.js:20-22 | Input made only of whitespace, such as the unit tests' `\n\n\n`, formats to `""`. |
| Helpers.FormatHtmlOfLines | src/utils/helpers.js:16-23 | When bold stripping leaves the given lines, the output is the `<br />`-join of what the blank-line filter keeps of them. By `KeepNonBlankOne` and `KeepNonBlankAppend`, those are exactly the lines that are not all whitespace, in order. |
| Helpers.FormatHtmlLines | src/utils/helpers.js:16-23 | For text without `**`: the `<br />`-join of the filter's lines. Those are exactly the lines that are not all whitespace, in order (`KeepNonBlankOne`, `KeepNonBlankAppend`). |
| Helpers.FormatHtmlTwoLines | src/utils/helpers.js:16-23 | Two non-blank lines become the first, then `<br />`, then the second. |
| Helpers.FormatHtmlEmptyLines | src/utils/helpers.js:20-22 | Empty lines between three non-blank lines are dropped, and the rest are joined by `<br />`. |
| Helpers.StripBoldExample | src/utils/helpers.test.js:41 | `**Score:** 8/10\nGood solution` loses its bold marks and keeps the rest. |
| Helpers.FormatHtmlBoldExample | src/utils/helpers.test.js:40-44 | `**Score:** 8/10\nGood solution` formats to `Score: 8/10<br />Good solution`. |
| Helpers.FormatHtmlEmptyLinesExample | src/utils/helpers.test.js:46-50 | `Line 1\n\nLine 2\n\n\nLine 3` formats to `Line 1<br />Line 2<br />Line 3`. |
| Helpers.SplitPiecesFrom | src/utils/helpers.js:20 | Each piece of the split consists of characters of the input. |
| Helpers.JoinedLinesAvoidNewline | src/utils/helpers.js:20-22 | Lines split at newlines and joined by `<br />` hold no newline. |
| Helpers.CanSubmitGuard | src/utils/helpers.js:42-49 | True exactly when nothing is loading, a problem was generated, and the problem is non-empty, is not the generating placeholder, and does not start with `Error:`. |
| Helpers.CanSubmitGuardExamples | src/utils/helpers.test.js:65-90 | Loading, not generated, empty or missing, placeholder and error texts are refused, and a real problem is accepted. |
| Helpers.FindIndex | src/utils/helpers.js:52 | The result is the first index holding the value, or -1 when no entry holds it. |
| Helpers.CycleOption | src/utils/helpers.js:51-55 | The entry after the one found, modulo the list's length. `CycleOptionCases`, `CycleFromEntry` and `CycleTimesLands` state what that means. |
| Helpers.CycleOptionCases | src/utils/helpers.js:51-55 | The result is the value after the first match. The last entry wraps to the first. An unknown value gives the first entry. |
| Helpers.FindIndexDistinct | src/utils/helpers.js:52 | With distinct values, the entry found for `options[p].value` is `p`. |
| Helpers.CycleFromEntry | src/utils/helpers.js:51-55 | With distinct values, pressing on entry `p` moves to the entry after it, wrapping at the end. |
| Helpers.CycleTimesLands | src/utils/helpers.js:51-55 | With distinct values, `k <= n` presses from entry `i` land on entry `(i+k) mod n`. |
| Helpers.CycleReturns | src/utils/helpers.js:51-55 | `n` presses bring the selector back to where it started. |
| Helpers.OptionListsDistinct | src/utils/helpers.js:59-80 | The topic (9), difficulty (3) and language (2) lists each hold distinct values. |
| Helpers.LetterCycleExamples | src/utils/helpers.test.js:93-103 | a → b → c → a. |
| Helpers.DifficultyCycleExamples | src/utils/helpers.test.js:105-109 | easy → medium → hard → easy. |
| Helpers.LanguageCycleExamples | src/utils/helpers.test.js:111-114 | en → cn → en. |
| JsString.IsSpace | src/utils/helpers.js:13 | The ECMAScript whitespace class of `\s` and `trim()` (helpers.js:21): tab, line feed, vertical tab, form feed, carriage return, space, no-break space, U+1680, U+2000 to U+200A, U+2028, U+2029, U+202F, U+205F, U+3000 and U+FEFF. |
| JsString.IsLineTerminator | src/utils/helpers.js:19 | The characters the regular-expression `.` refuses: line feed, carriage return, U+2028 and U+2029. |
| JsString.TrimStart | src/utils/helpers.js:21 | The result is a suffix of the input that does not start with whitespace, and the removed prefix is all whitespace. |
| JsString.TrimEnd | src/utils/helpers.js:21 | The result is a prefix of the input that does not end with whitespace, and the removed suffix is all whitespace. |
| JsString.Trim | src/utils/helpers.js:21 | The result neither starts nor ends with whitespace and is no longer than the input. |
| JsString.TrimSlice | src/utils/helpers.js:21 | What `trim()` keeps is one stretch of the input, with only whitespace on either side. |
| JsString.TrimEmptyIffBlank | src/utils/helpers.js:21 | `trim()` of a line is empty exactly when the line is all whitespace. |
| JsString.Split | src/utils/helpers.js:20 | There is at least one piece, and no piece contains the separator. |
| JsString.Filter | src/utils/helpers.js:21 | Every kept element passes the test. Nothing is kept when nothing passes, and the result is no longer than the input. |
| JsString.FilterFrom | src/utils/helpers.js:21 | Every kept element is an element of the input. |
| JsString.FilterAppend | src/utils/helpers.js:21 | Filtering distributes over concatenation. |
| JsString.Join | src/utils/helpers.js:22 | `join`, with the empty list giving `""`. `JoinSplit`, `SplitJoin` and `JoinAvoids` state what it does. |
| JsString.JoinSplit | src/utils/helpers.js:20-22 | Joining the pieces of a split with the separator gives back the string. |
| JsString.SplitJoin | src/utils/helpers.js:20-22 | Splitting a join of separator-free parts gives back the parts. |
| JsString.JoinAvoids | src/utils/helpers.js:22 | A join holds no character that is absent from both its parts and its separator. |
| Numeric.Min | src/components/PaginatedContent.jsx:13 | `Math.min`: the result is one of the two arguments and no larger than either. |
| Numeric.Max | src/components/PaginatedContent.jsx:12 | `Math.max`: the result is one of the two arguments and no smaller than either. |
| Gemini.IsRetryableStatus | src/services/gemini.js:31 | A non-OK status is retryable exactly when it is 429 or at least 500. `RetryClassification` states how the loop uses it. |
| Gemini.Stops | src/services/gemini.js:41-46 | A call ends the loop when its `try` block returns, or when it throws an error marked non-retryable. `RetryClassification` and `FirstStop` state how the loop uses it. |
| Gemini.TryBody | src/services/gemini.js:23-41 | The outcome of one call's `try` block. `RetryClassification` states which outcomes end the loop. |
| Gemini.RetryableMessage | src/services/gemini.js:32 | `API Error: <statusText> (Status: <status>)`. `Status500Message` proves its rendering for a 500. |
| Gemini.NonRetryableMessage | src/services/gemini.js:36 | `API Error: ` followed by the body's error message, or by the status text when the message is missing or empty. `InvalidKeyFailsAtOnce` proves it for the unit test's 401. |
| Gemini.RetryClassification | src/services/gemini.js:29-46 | A non-OK response with a parsed body is retried exactly when its status is 429 or at least 500. An OK one ends the loop. Network rejections and unparsable bodies are always retried. |
| Gemini.BackoffDelay | src/services/gemini.js:50-51 | Every delay is at least 1000 ms. |
| Gemini.Backoff | src/services/gemini.js:48-51 | The first `m` sleeps are `m` delays, the `k`-th being `BackoffDelay(k)`. |
| Gemini.BackoffDelayClosedForm | src/services/gemini.js:48-51 | Sleep `k` (0-based) lasts `1000 * 2^k` ms. |
| Gemini.FirstStop | src/services/gemini.js:22-49 | The call found is the first in range that ends the loop, or the end of the range when none does. |
| Gemini.Invoke | src/services/gemini.js:19-54 | The loop-free definition of an invocation. `InvokeBounds`, `Exhaustion`, `StopsAfterRetries` and the test-case lemmas state its properties, and `CallApiWithBackoff` is proved equal to it. |
| Gemini.CallApiWithBackoff | src/services/gemini.js:19-54 | The result, the number of calls and the sleeps equal those of `Invoke`. Calls stop at the first return or non-retryable error, or after `maxRetries` attempts, with one sleep between consecutive calls. |
| Gemini.InvokeBounds | src/services/gemini.js:19-54 | At most `maxRetries` calls, and one sleep fewer than calls. Sleep `k` lasts `1000*2^k`. With `maxRetries <= 0` there are no calls and the result is `undefined`. |
| Gemini.OkFirstCall | src/services/gemini.js:41 | An OK first response is returned after one call and no sleep. |
| Gemini.ClientErrorFirstCall | src/services/gemini.js:34-46 | A client error on the first call fails after one call, marked non-retryable, with the body's error message (or the status text). |
| Gemini.Exhaustion | src/services/gemini.js:48-49 | Persistent retryable failures give `maxRetries` calls and `maxRetries - 1` sleeps, and throw the last error. |
| Gemini.FirstStopNone | src/services/gemini.js:22-49 | With no stopping call in range, the search runs to the end. |
| Gemini.StopsAfterRetries | src/services/gemini.js:22-49 | After `j` retryable failures, a stopping call is the last one, and its outcome is the result. |
| Gemini.FirstStopAt | src/services/gemini.js:22-49 | The search finds the first stopping call. |
| Gemini.RateLimitThenSuccess | src/services/gemini.test.js:41-73 | With the default 3 attempts, a 429 then an OK response gives two calls, one 1000 ms sleep and the second body. |
| Gemini.ServerErrorExhausts | src/services/gemini.test.js:75-88 | With the default 3 attempts, a persistent 500 gives three calls, sleeps of 1000 and 2000 ms, and the message `API Error: Internal Server Error (Status: 500)`. |
| Gemini.Status500Message | src/services/gemini.js:32 | The retryable message for a 500 response reads `API Error: Internal Server Error (Status: 500)`. |
| Gemini.InvalidKeyFailsAtOnce | src/services/gemini.test.js:90-112 | A 401 with `Invalid API key` fails after one call with `API Error: Invalid API key`. |
| PaginatedContent.PrevIndex | src/components/PaginatedContent.jsx:12 | `Math.max(0, p - 1)`. `MovesStayInRange` and `DisabledIffStuck` state what it does. |
| PaginatedContent.NextIndex | src/components/PaginatedContent.jsx:13 | `Math.min(pages.length - 1, p + 1)`. `MovesStayInRange`, `DisabledIffStuck` and `NextTimesStops` state what it does. |
| PaginatedContent.MovesStayInRange | src/components/PaginatedContent.jsx:12-13 | With at least one page, Prev and Next keep the index in range. Prev stays at 0 and otherwise steps back one. Next stays on the last page and otherwise steps forward one. |
| PaginatedContent.ContentAt | src/components/PaginatedContent.jsx:17 | The page at a present index, otherwise `""`. |
| PaginatedContent.PageLabel | src/components/PaginatedContent.jsx:31-32 | The label's visibility and its two figures. `LabelCounts` states what they read. |
| PaginatedContent.LabelCounts | src/components/PaginatedContent.jsx:31-32 | For a valid index the label reads `p+1` of `max(len,1)`, so `1 <= x <= y`. It is visible exactly when there is more than one page. |
| PaginatedContent.PrevDisabled | src/components/PaginatedContent.jsx:36 | The Prev button's `disabled` flag. `DisabledIffStuck` states what it means. |
| PaginatedContent.NextDisabled | src/components/PaginatedContent.jsx:43 | The Next button's `disabled` flag. `DisabledIffStuck` states what it means. |
| PaginatedContent.DisabledIffStuck | src/components/PaginatedContent.jsx:34-43 | With a valid index, each button is disabled exactly when pressing it would not move the index. |
| PaginatedContent.NextTimesStops | src/components/PaginatedContent.jsx:13 | `k` presses of Next move `k` pages on, stopping at the last page. |
| PaginatedContent.PageNavigator.constructor | src/components/PaginatedContent.jsx:10 | The navigator starts on page 0, which is valid. |
| PaginatedContent.PageNavigator.Content | src/components/PaginatedContent.jsx:17 | With a valid index, the content on show is the current page. It is `""` when there are no pages. |
| PaginatedContent.PageNavigator.GoToPrev | src/components/PaginatedContent.jsx:12 | Sets the index to `max(0, p-1)`, keeps the pages and keeps the index valid. |
| PaginatedContent.PageNavigator.GoToNext | src/components/PaginatedContent.jsx:13 | Sets the index to `min(len-1, p+1)` and keeps the pages. The index stays valid when there is a page. |
| PaginatedContent.PageNavigator.PressPrev | src/components/PaginatedContent.jsx:35-36 | A click on Prev leaves the index alone while the button is disabled, and otherwise steps back one. |
| PaginatedContent.PageNavigator.PressNext | src/components/PaginatedContent.jsx:42-43 | A click on Next leaves the index alone while the button is disabled, and otherwise steps forward one. The index stays valid even with no pages. |
| PaginatedContent.PageNavigator.SetPages | src/components/PaginatedContent.jsx:15-17 | New pages reset the index to 0, and the first page (or `""`) is shown. |

## Left out

- DOM measurement (`clientHeight`, `scrollHeight`, `innerHTML`/`textContent`, refs) is replaced by the pure `measure` and `available` of a `Surface`. `setPages` becomes `Paginate`'s return value.
- React rendering and hooks (JSX, `useState`, `useEffect`, `useCallback`, `Fade`, `CheckRow`) are not modelled; they hold nothing to verify.
- The re-pagination on changes of `text` or `isHtml` is not modelled. Neither is the render PaginatedContent.jsx shows before its reset effect runs.
- The formatting of the shown page (PaginatedContent.jsx:22-28) is the `Helpers` formatters applied to `Content()`. The navigator does not model it separately.
- Default arguments are not modelled as such. `Paginate` takes `isHtml` explicitly, so the default `isHtml = false` of AutoPaginated.jsx:8 is a caller passing `false`.
- The default `maxRetries = 3` of gemini.js:19, on which every caller relies, is the constant `Gemini.DefaultMaxRetries`. The unit-test lemmas call `Invoke` with it, while `CallApiWithBackoff` itself takes `maxRetries` explicitly.
- The line-45 fallback of `paginate` (a page of up to 50 characters when `best <= pos`) cannot run: the search never settles below `pos + 1`. `NextPageEnd` keeps the dead branch as written, and a degenerate page is one character long.
- Paginate: for an arbitrary measure, a page's search end is only known to fit when the page is longer than one character. That it is the longest fitting end is stated only under a measure monotone on the slices of the text from the page's start (`MonotoneAt`), because a non-monotone measure can make the binary search skip a longer fitting slice.
- `fetch`, `JSON.stringify`, `response.json()`, the environment's API key and URL, and `setTimeout`/`await` are outside this model. The k-th call's outcome is a parameter. A body is a parsed `JsonBody` or a parse failure. Each sleep is recorded as a delay rather than waited for.
- Gemini.BackoffDelay: delays are unbounded integers, so JavaScript's double precision for very large retry counts is not modelled.
- A JSON body of `null` on a client error is not modelled. In the source, `errorData.error` then throws before the non-retryable error is built.
- Non-string `error.message` values are not modelled. Only a string or a missing message is.
- `Helpers.CycleOption` requires a non-empty option list. On an empty list the source computes `NaN` and throws a TypeError reading `.value`, which the model does not reproduce.
- Strings are sequences of Unicode code points. JavaScript's UTF-16 code units are not modelled, so neither is a slice that splits a surrogate pair.
- `\s` and `trim()` use the ECMAScript whitespace and line-terminator set listed in `JsString.IsSpace`. No general regular-expression engine is modelled.
- Helpers.FormatHtml: the output is characterised once bold stripping has been resolved. `FormatHtmlOfLines` gives it from the lines that bold stripping leaves, and `FormatHtmlLines` covers text without `**`. Bold stripping itself is characterised step by step, at every position of the scan (`StripBoldCopy`, `StripBoldPair`, `StripBoldUnclosed`), not by a closed formula for arbitrary text.
- src/PracticeComponent.jsx, src/App.jsx, electron/main.js, electron/preload.js and tailwind.config.js are not part of this model: they are UI glue, window bootstrapping and configuration.
