# SycX summarizer core in Dafny

This project models two parts of the SycX summarization API.

- **The per-client rate limiter** (`app/utils/helpers.py`). `RateLimiter` keeps, for each client address, a list of the times of its recently admitted requests. `is_rate_limited(ip)` first drops the times that have left the sliding window. It then refuses the request when the configured limit is already reached; otherwise it records the current time and admits the request. The `rate_limit` decorator wraps a route handler. When the limiter refuses, it answers `{'error': 'Rate limit exceeded', 'retry_after': <window>}` with status 429 and does not call the handler.
- **The summary-shaping heuristics** of `FileProcessor` (`app/utils/file_processor.py`):
  - `_optimize_length_params` picks the depth row nearest to the requested summary depth and turns its two ratios into the `max_length`/`min_length` bounds for a text of a given word count.
  - `_suggest_display_format` classifies a summary as `sections`, `bullet_points` or `paragraph`.
  - `_extract_sections` splits a summary at `'.'` into titled sections.

The model is split into three modules:

- `PyText` (`text.dfy`) models the Python string built-ins these functions rely on: `split('.')`, `split()`, `strip()`, `lower()` and the substring test `in`. Their contracts tie each one to an independent description. Examples: `Join(Split(s)) == s`; split undoing a join; `split()` returning exactly the words of any text built from words, whitespace gaps and whitespace ends; strip removing only whitespace at the ends.
- `Helpers` (`rate_limiter.dfy`):
  - The pure function `Step` specifies one call of `is_rate_limited`.
  - `Run` folds `Step` over a sequence of requests.
  - The class `RateLimiter` holds the `request_counts` table as a field. Its two methods are proved equal to `Step`.
- `FileProcessor` (`file_processor.dfy`):
  - pure functions for the two helpers that only compute;
  - a method with a loop for `_extract_sections`, proved against the function `SectionsFrom`.

Some inputs are parameters of the model rather than values read at run time:

- the clock (`time.time()`) is `now`;
- the configured period (`RATE_LIMIT_PERIOD.total_seconds()`) is `window`;
- the configured limit (`RATE_LIMIT`) is `limit`;
- the client address (`request.remote_addr`) is `ip`;
- the wrapped route handler is a function value `handler`.

A few behaviours of the code, as modelled:

- A timestamp exactly `window` old no longer counts (`now - t < window`).
- The distance tie at depth 0.5 and the other midpoints selects the smaller depth, because `min` keeps the first minimal key.
- `_extract_sections` adds a `'.'` after every non-heading piece that `split('.')` yields, including the empty piece after a final `'.'`; a heading piece gets no `'.'` and becomes a title. So `"Intro."` gives one section with content `"Intro.."` (`TrailingPeriodScenario`).

## Model

| member | source | states |
|---|---|---|
| PyText.Split | app/utils/file_processor.py:96 | `text.split('.')`: there is one more piece than there are separators; no piece contains the separator; joining the pieces with it gives the text back |
| PyText.SplitJoin | app/utils/file_processor.py:123 | splitting a `'.'`-join of separator-free pieces returns exactly those pieces (split is the inverse of join) |
| PyText.Words | app/utils/file_processor.py:95 | `text.split()`: every word is non-empty and free of whitespace, and the words concatenated are the text with its whitespace removed; that they are the maximal runs is `WordsOfSpaced` |
| PyText.WordsOfSpaced | app/utils/file_processor.py:95 | `split()` gives exactly the maximal whitespace-free runs: for words separated by non-empty whitespace gaps, with any whitespace before and after, it returns those words, so `len(text.split())` is the number of such runs |
| PyText.WordsJoin | app/utils/file_processor.py:71 | `split()` on words joined by single spaces returns those words (the single-space case of `WordsOfSpaced`) |
| PyText.Strip | app/utils/file_processor.py:110 | `s.strip()` is `s` with a whitespace-only prefix and suffix removed; neither end of the result is whitespace; the result is empty exactly when `s` is all whitespace |
| PyText.StripFixed | app/utils/file_processor.py:110 | `strip()` leaves a string unchanged if and only if neither of its ends is whitespace |
| PyText.StripIdempotent | app/utils/file_processor.py:110 | stripping twice gives the same string as stripping once |
| PyText.StripSubset | app/utils/file_processor.py:110 | a character absent from a string is absent from its stripped form |
| PyText.Lower | app/utils/file_processor.py:128 | `lower()` keeps the length and maps every character through ASCII lower-casing |
| PyText.Contains | app/utils/file_processor.py:128 | `sub in s` holds exactly when `sub` occurs in `s` at some position |
| Helpers.Get | app/utils/helpers.py:19 | reading `request_counts[ip]` of a `defaultdict(list)`: the stored list if the address is present, an empty list otherwise |
| Helpers.Prune | app/utils/helpers.py:18-21 | the cleaned list keeps exactly the timestamps with `now - t < window` and is never longer |
| Helpers.PruneIsSubsequence | app/utils/helpers.py:18-21 | cleaning only drops timestamps and keeps the survivors in their order |
| Helpers.PruneAppend | app/utils/helpers.py:18-21 | cleaning a concatenation is cleaning each part |
| Helpers.PruneKeepsRecent | app/utils/helpers.py:18-21 | a list whose every timestamp is inside the window survives cleaning whole |
| Helpers.Step | app/utils/helpers.py:12-28 | one call: refused if and only if the cleaned list already holds at least `limit` timestamps; the entry for `ip` always exists afterwards; on refusal it is the cleaned list, otherwise the cleaned list plus `now`; other clients' lists are unchanged; every stored timestamp other than `now` was there before and is inside the window |
| Helpers.StepOnRecent | app/utils/helpers.py:18-28 | when a list ends with timestamps inside the window, those survive the call; the request is refused exactly when the survivors reach the limit |
| Helpers.RunWithinLimit | app/utils/helpers.py:18-28 | from a table within the limit (the empty one in particular), no sequence of calls makes any list longer than `max(limit, 0)` |
| Helpers.AdmittedAfterRecent | app/utils/helpers.py:18-28 | the induction behind the admission bound: timestamps that keep counting plus later admissions from that client never exceed the limit |
| Helpers.AdmittedWithinWindow | app/utils/helpers.py:12-28 | whatever the starting table and however other clients interleave, among requests of one client spanning less than one window at most `max(limit, 0)` are admitted |
| Helpers.StepWithinBudget | app/utils/helpers.py:18-28 | when a client's stored list plus its coming requests stay within the limit, the next call admits a request from it, and the budget still holds for the rest |
| Helpers.AdmittedUnderLimit | app/utils/helpers.py:18-28 | a client whose stored list and coming requests together number at most `limit` has every one of those requests admitted, whatever their times and however other clients interleave |
| Helpers.FirstRequestsAdmitted | app/utils/helpers.py:12-28 | a client with no stored requests that sends at most `limit` requests has all of them admitted, whatever their times (the fresh-client, within-budget case; the positional converse of `AdmittedWithinWindow` is `RefusedPastLimit`) |
| Helpers.RefusedPastRecent | app/utils/helpers.py:12-28 | when the client's stored list is `recent` and every coming request of that client, all within one window, still counts all of `recent`: a request of that client is refused if and only if `recent` plus its earlier requests reach `limit`, however other clients interleave |
| Helpers.RefusedPastLimit | app/utils/helpers.py:12-28 | a client with no stored requests whose requests span less than one window has each request refused if and only if at least `limit` of its requests came before it: the first `limit` are admitted and every later one is refused, however other clients interleave |
| Helpers.SlidingWindowScenario | app/utils/helpers.py:12-28 | for any client address, with limit 2 and a 60 s window, requests at 0, 0.5, 1 and 60 s are answered admitted, admitted, refused, admitted |
| Helpers.RateLimiter.constructor | app/utils/helpers.py:8-10 | a new limiter starts with an empty table |
| Helpers.RateLimiter.IsRateLimited | app/utils/helpers.py:12-28 | the answer and the new `request_counts` are those of `Step` on the old table; a table within the limit stays within it |
| Helpers.RateLimiter.RateLimit | app/utils/helpers.py:32-44 | the table is updated as by `Step`; the handler's result is returned if and only if the request is admitted; otherwise the reply is the error `'Rate limit exceeded'` with `retry_after` equal to the window and status 429 |
| FileProcessor.DepthIsPosition | app/utils/file_processor.py:24-30 | the depths of `depth_configs` are 0.0 to 4.0, in insertion order, each row's depth being its position |
| FileProcessor.RowRatios | app/utils/file_processor.py:24-30 | every row of `depth_configs` has `0 <= min_ratio <= max_ratio <= 1` |
| FileProcessor.RatiosIncrease | app/utils/file_processor.py:24-30 | both ratio columns of `depth_configs` are non-negative and grow with the depth |
| FileProcessor.Closest | app/utils/file_processor.py:33-34 | `min(depths, key=...)`: the chosen row is at least as near as every row and strictly nearer than every earlier row |
| FileProcessor.ClosestAt | app/utils/file_processor.py:33-34 | a row strictly nearer than all earlier rows and at least as near as all later ones is the row chosen |
| FileProcessor.SelectedRowByThresholds | app/utils/file_processor.py:24-35 | the chosen depth is the requested depth rounded at the midpoints 0.5, 1.5, 2.5 and 3.5, a midpoint going to the smaller depth |
| FileProcessor.SelectedIndexMonotone | app/utils/file_processor.py:32-35 | a deeper request never selects an earlier row |
| FileProcessor.Trunc | app/utils/file_processor.py:37-38 | `int(x)` drops the fractional part: it rounds down above zero and up below zero |
| FileProcessor.TruncProductIsTrunc | app/utils/file_processor.py:37-38 | truncating `n * ratio` by the signs of the two factors equals truncating the product |
| FileProcessor.OptimizeLengthParams | app/utils/file_processor.py:22-40 | for a word count of zero or more, `0 <= min_length <= max_length <= text_length` |
| FileProcessor.ScaledFloor | app/utils/file_processor.py:37-38 | a non-negative count times a ratio in [0, 1], truncated, is the floor of the product and lies between 0 and the count |
| FileProcessor.LengthParamsBounds | app/utils/file_processor.py:22-40 | for a word count of zero or more: the row used is the one the rounding thresholds give; both bounds are the floors of the count times that row's ratios; `0 <= min_length <= max_length <= text_length` |
| FileProcessor.LengthParamsFloors | app/utils/file_processor.py:32-38 | for a word count of zero or more, the two bounds are the floors of the count times the ratios of the selected row |
| FileProcessor.LengthParamsMonotone | app/utils/file_processor.py:24-40 | asking for a deeper summary never lowers either bound |
| FileProcessor.ContainsAny | app/utils/file_processor.py:128 | `any(k in s for k in keywords)` holds exactly when some keyword occurs in `s` |
| FileProcessor.IsHeading | app/utils/file_processor.py:128 | a sentence is a heading exactly when its lower-cased form contains one of "first", "second", "finally", "moreover" or "furthermore" |
| FileProcessor.SectionsFrom | app/utils/file_processor.py:127-139 | the sections the loop produces from the remaining sentences all have non-empty content |
| FileProcessor.SectionsOf | app/utils/file_processor.py:120-141 | `_extract_sections(text)` as a function: every section has content; the contents, one after the other, are the non-heading pieces of `text.split('.')`, each followed by `'.'`; there is at most one more section than there are headings; which content goes under which title is `SectionsAtHeading` and `SectionsOfBody` |
| FileProcessor.SectionsAtHeading | app/utils/file_processor.py:128-134 | a heading splits the pieces in two: the sections of the pieces before it, with the section open at the heading closed as at the end, followed by the sections of the pieces after it, starting from a section titled with the stripped heading |
| FileProcessor.SectionsOfBody | app/utils/file_processor.py:135-139 | a run of pieces with no heading all go into the open section, each followed by `'.'`, and that section is returned exactly when its content is non-empty |
| FileProcessor.TwoSections | app/utils/file_processor.py:123-141 | a piece, a heading and a piece (the shape of `"a.first.b"`) give two sections: ("Overview", the first piece plus `'.'`) and (the stripped heading, the last piece plus `'.'`) |
| FileProcessor.ExtractSections | app/utils/file_processor.py:120-141 | the loop returns exactly `SectionsOf(text)`, and every returned section has non-empty content |
| FileProcessor.SectionsKeepBody | app/utils/file_processor.py:127-139 | no text is lost or invented: the contents in order are the non-heading sentences, each followed by `'.'` |
| FileProcessor.SectionsCount | app/utils/file_processor.py:127-139 | there is at most one more section than there are headings |
| FileProcessor.SectionTitles | app/utils/file_processor.py:128-134 | every title is the starting title or a stripped heading among the sentences |
| FileProcessor.FirstSectionKeepsTitle | app/utils/file_processor.py:125-139 | when the current section has content or the next sentence gives it some, it is the first section returned, with its title |
| FileProcessor.OverviewFirst | app/utils/file_processor.py:123-141 | if the first sentence is no heading, the first section exists and is titled "Overview"; otherwise every title is a stripped heading |
| FileProcessor.TrailingPeriodScenario | app/utils/file_processor.py:123-141 | `"Intro."` gives the single section ("Overview", "Intro..") |
| FileProcessor.PointsOf | app/utils/file_processor.py:110 | `[s.strip() for s in sentences if s.strip()]`: one point per non-blank sentence; each non-empty with no whitespace at either end; together they hold exactly the characters of the stripped sentences, in order; which sentence each point comes from is `PointsArePieces` |
| FileProcessor.StripAll | app/utils/file_processor.py:110 | the pieces stripped one by one, at the same positions |
| FileProcessor.PointsArePieces | app/utils/file_processor.py:110 | the j-th point is the j-th non-blank piece, stripped: there are increasing positions, one per point, such that each point is the stripped piece at its position and every non-blank piece has one |
| FileProcessor.PointsOfAppend | app/utils/file_processor.py:110 | the points of two lists of pieces, one after the other, are the points of the lists joined |
| FileProcessor.PointsHaveNoDot | app/utils/file_processor.py:96-110 | points taken from a split at `'.'` contain no `'.'` |
| FileProcessor.RatioBelowTen | app/utils/file_processor.py:106 | `len(words) / len(sentences) < 10`, as exact division, is `len(words) < 10 * len(sentences)` |
| FileProcessor.DisplayFormat.Type | app/utils/file_processor.py:101-117 | the `'type'` entry is "sections", "bullet_points" or "paragraph" exactly for the format of that kind |
| FileProcessor.DisplayFormat.ImageQuery | app/utils/file_processor.py:101-117 | the `'image_query'` entry is "education presentation", "education notes" or "education learning" exactly for the sectioned, bulleted and paragraph format |
| FileProcessor.SuggestDisplayFormat | app/utils/file_processor.py:92-118 | the format is `sections` exactly when there are more than 10 sentences and the lower-cased text contains "first", "second" or "finally"; it is `bullet_points` exactly when it is not `sections` and there are fewer than 5 sentences or fewer than 10 words per sentence; otherwise it is `paragraph`; each format carries its sections or points with fixed `type` and `image_query` strings |
| FileProcessor.BulletPointsShape | app/utils/file_processor.py:106-112 | the suggested points number the non-blank sentences (at most all of them); each is non-empty, stripped and free of `'.'`; together they hold the stripped sentences' characters; the j-th point is the j-th non-blank sentence, stripped |

## Left out

- Text extraction in `process_file` is not modelled. It covers PDF, DOCX, XLSX, PPTX, OCR of images and UTF-8 decoding, all of which call into foreign libraries.
- The summarization model call is not modelled. It is a foreign neural model.
- The exception wrapping in `process_file` is not modelled.
- `pdf_generator.py`, the routes, the configuration and the model wrapper are not part of this model. They are I/O and framework code.
- The lock in `RateLimiter` is not modelled as such. Each call of `is_rate_limited` is one atomic method call, which is what holding the lock guarantees; thread interleavings are not modelled.
- The clock, the Flask configuration and `request.remote_addr` are parameters, not values read at run time.
- The wrapped route handler is modelled as a pure, total function without arguments. Its side effects and exceptions are not modelled.
- `request_counts` never discards a client address, even when that client's list becomes empty, exactly as in the code. Memory growth is not a property the model states.
- Python floats are modelled as exact reals. `int(text_length * ratio)` and `len(words) / len(sentences)` are therefore computed without binary rounding; for example, a product that float arithmetic puts just below an integer is not reproduced.
- FileProcessor.OptimizeLengthParams: `summary_depth` is a real number. The `float(summary_depth)` conversion of strings, and NaN or infinite depths, are not modelled.
- PyText.Lower: lower-cases ASCII letters only, because Unicode case mapping is not modelled. The keywords tested are ASCII, but a non-ASCII capital that Python would fold is left unchanged here.
- The code has no upload validation (file presence, extension, depth range), so none is modelled.
