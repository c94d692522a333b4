# Literature review automation: a verified model of its core

`LitReviewAutomationScript.js` is a Google Apps Script that searches the Semantic
Scholar bulk paper search for a keyword. It fetches with exponential backoff and appends
papers that are not yet in the sheet as new rows, aligned to the sheet's header row. This
project models the four pieces of logic under the spreadsheet and HTTP glue, and proves
what they promise:

- **Header column map** (`getHeaderColumnMap_`). Row 1 becomes a map from each trimmed,
  lower-cased header to its 1-based column. The sheet is a class `HeaderMap.Sheet` whose
  header row is a `seq<string>` field.
- **Missing-header completion** (the start of `automatedLiteratureReviewRunner`). The
  required keys absent from the map, in required order, are written capitalised after the
  last column, and the map is read again.
- **Retry policy** (`fetchWithExponentialBackoff_`). The loop over attempts is a method.
  The network is a function `respond` from the 0-based call number to an outcome: an
  exception or an HTTP response. The method records its calls and its sleeps in ghost
  out-parameters instead of sleeping. It is proved equal to a recursive specification
  `Backoff.Fetch`, and the properties of the policy are proved about that function.
- **Rows and dedupe** (the loop over `payload.data`). Typed paper records become
  fixed-width rows along the column map. Papers with an empty title, or with a title
  already in the sheet, are skipped. The loop stops at the per-run limit.
- **Publication-date filter** (`publicationDateOrYear`). The month `PUBLISHED_PAST_MONTHS`
  before today, and today's month, are written as `YYYY-MM` and joined. A parser reads
  the text back, and the window it names is proved. `Date.setMonth` is modelled with
  its day overflow: 31 March minus one month is 3 March in a common year and 2 March
  in a leap year.

Modules:

- `Wrappers`: `Option`.
- `Numbers`: `Math.max(1, n)`, shared by the retry count and the row limit.
- `Seqs`: `Array.prototype.filter`, and its characterisation as an order-preserving
  selection.
- `Text`: ECMAScript `trim`, ASCII case mapping, `join`, integer `toString`, `padStart`.
- `HeaderMap`, `RequiredHeaders`, `Backoff`, `DateRange` and `RowBuilder`: one module
  per piece above.

## Model

| member | source | states |
|---|---|---|
| HeaderMap.HeaderColumnMap | LitReviewAutomationScript.js:254-266 | the map read from the sheet is `ColumnMapOf` of its header row; an empty sheet gives the empty map |
| HeaderMap.ColumnMapContents | LitReviewAutomationScript.js:260-264 | a key is in the map iff it is non-empty, is not `__proto__` (an assignment the plain object literal does not store) and some header normalises to it; its value is a column carrying it with no later column carrying it (last duplicate wins) |
| HeaderMap.ProtoNeverMapped | LitReviewAutomationScript.js:259-263 | a header reading `__proto__` never enters the map, because assigning a number to that key of `{}` reaches the inherited accessor and adds no property |
| HeaderMap.ColumnMapInjective | LitReviewAutomationScript.js:260-264 | no two keys share a column |
| HeaderMap.ColumnMapWithinRow | LitReviewAutomationScript.js:258-263 | every column in the map lies within the header row |
| HeaderMap.NormalizeIgnoresCaseAndPadding | LitReviewAutomationScript.js:262 | surrounding whitespace and upper case do not change a header's key |
| HeaderMap.NormalizeIdempotent | LitReviewAutomationScript.js:262 | normalising a key again gives the same key |
| HeaderMap.Sheet.SetHeader | LitReviewAutomationScript.js:64 | writing row 1 at a column sets that cell, pads with empty cells up to it, and changes nothing else |
| HeaderMap.Sheet.constructor | LitReviewAutomationScript.js:258 | a sheet holds the given header row |
| RequiredHeaders.MissingKeys | LitReviewAutomationScript.js:54 | every missing key is absent from the map, and there are no more of them than required keys |
| RequiredHeaders.MissingKeysExactly | LitReviewAutomationScript.js:53-54 | the missing list is exactly the required keys absent from the map, in required order |
| RequiredHeaders.DisplayHeaderNormalizesBack | LitReviewAutomationScript.js:62 | the capitalised label of a normalised key normalises back to that key |
| RequiredHeaders.AppendedLabels | LitReviewAutomationScript.js:60-70 | reading back a header row extended by labels gives the old map with the keys placed from the first new column on |
| RequiredHeaders.PlaceKeysContents | LitReviewAutomationScript.js:60-70 | placed keys land on consecutive new columns; old keys keep their columns; nothing else is added |
| RequiredHeaders.CompletionPlacesMissingKeys | LitReviewAutomationScript.js:52-70 | after completion the i-th missing key is at column `lastCol + 1 + i`, old keys keep their columns, and every required key is mapped |
| RequiredHeaders.WriteMissingHeaders | LitReviewAutomationScript.js:58-67 | the header row grows by exactly the capitalised labels of the missing keys, in order |
| RequiredHeaders.CompleteRequiredHeaders | LitReviewAutomationScript.js:52-70 | the sheet gains the labels of the missing keys, the map returned is the one read from the new row, and every required key is then in it |
| RequiredHeaders.RequiredKeysWellFormed | LitReviewAutomationScript.js:53 | the five required keys are non-empty, normalised and distinct |
| Numbers.AtLeastOne | LitReviewAutomationScript.js:216 | `Math.max(1, n)` is at least 1 and at least `n`, and it is `n` or 1; `Backoff.Attempts` (the number of attempts) and `RowBuilder.Cap` (the rows one run may add, line 184) are this of the retry count and of the limit |
| Backoff.FactorMs | LitReviewAutomationScript.js:217 | the backoff factor is at least 100 ms, and it is the given factor when that is at least 100 ms |
| Backoff.FetchWithBackoff | LitReviewAutomationScript.js:215-248 | the loop's result, call count and sleeps are those of `Backoff.Fetch` |
| Backoff.RunFromShape | LitReviewAutomationScript.js:219-245 | from any attempt, at most the remaining attempts are made, with one sleep between consecutive calls, of `factor * 2^(attempt-1)` |
| Backoff.RunFromRetriesOnlyOnTransient | LitReviewAutomationScript.js:227-243 | every call before the last threw or answered 429 or 5xx |
| Backoff.RunFromLastCall | LitReviewAutomationScript.js:224-244 | an exception on the last call gives null and is the last attempt; a response on it is returned, and it is 2xx, not retriable, or the last attempt |
| Backoff.AttemptBoundAndDelays | LitReviewAutomationScript.js:216-230 | 1 to `max(1, retry_count)` calls; the i-th sleep is `factor * 2^i` ms, double the one before |
| Backoff.FetchDecision | LitReviewAutomationScript.js:224-247 | retries follow only exceptions, 429 and 5xx; an exception on the last call gives null after exactly `max(1, retry_count)` calls; otherwise the last response is returned unchanged, and it is a 2xx, a non-retriable status or the answer to the last attempt |
| Backoff.FirstSuccessReturned | LitReviewAutomationScript.js:224 | the first 2xx after retriable failures is returned at once, after exactly that many calls |
| Backoff.AllExceptionsGiveNull | LitReviewAutomationScript.js:236-247 | when every call throws, all attempts are made and the result is null |
| Backoff.TotalDelayBound | LitReviewAutomationScript.js:228-241 | for any run of the shape `AttemptBoundAndDelays` proves of every call (at most `attempts` calls, sleep `i` being `factor * 2^i`), the sleeps add up to `factor * (2^(calls-1) - 1)`, at most `factor * (2^(attempts-1) - 1)` |
| DateRange.SetMonth | LitReviewAutomationScript.js:22 | `setMonth` gives a valid date in the target month keeping the day, or one month later when the day does not fit |
| DateRange.MonthsBackSpan | LitReviewAutomationScript.js:22 | going back `p` months lands `p` months earlier (`p - 1` on day overflow); going back 0 months stays put |
| DateRange.WindowAsWritten | LitReviewAutomationScript.js:20-30 | as written, the start is the corrected start (the month `p` months back, year wrapped), the end month is today's, and both endpoints carry the start month's year |
| DateRange.IntendedWindow | LitReviewAutomationScript.js:20-30 | the corrected window has valid months at both ends |
| DateRange.Pad2RoundTrip | LitReviewAutomationScript.js:21-24 | a padded month is two digits that read back as the month |
| DateRange.IntToStringRoundTrip | LitReviewAutomationScript.js:30 | a year's text reads back as the year and holds no `:` |
| DateRange.WindowRoundTrip | LitReviewAutomationScript.js:30 | the filter text `Y-MM:Y-MM:` reads back as exactly the window it was built from |
| DateRange.DateFilterWindow | LitReviewAutomationScript.js:20-30 | the corrected filter names a window that ends at today's month, starts `p` months earlier (`p - 1` on day overflow) and never starts after it ends |
| DateRange.AsWrittenRightOnlyWithinYear | LitReviewAutomationScript.js:23-30 | the filter as written equals the corrected one iff the start month lies in today's year |
| DateRange.AsWrittenInvertedAcrossYear | LitReviewAutomationScript.js:23-30 | for `0 <= p < 12`, a window as written that crosses a year boundary reads back with its start after its end |
| DateRange.AsWrittenExample | LitReviewAutomationScript.js:20-30 | on 15 March 2026 with 10 months, the filter as written is `2025-05:2025-03:` and the corrected one is `2025-05:2026-03:` |
| RowBuilder.MaxColumn | LitReviewAutomationScript.js:173 | the row width is the largest column in the map, 0 for an empty map |
| RowBuilder.WidthIsMax | LitReviewAutomationScript.js:173 | any bound above every column that is itself a column (or 0 for an empty map) is the width |
| RowBuilder.BlankRow | LitReviewAutomationScript.js:175 | `maxCol` empty cells |
| RowBuilder.WriteField | LitReviewAutomationScript.js:177-181 | one guarded write keeps the row's length and extends the written prefix of fields by one |
| RowBuilder.BuildRow | LitReviewAutomationScript.js:171-181 | the row built is `RowFor`: width cells, each holding the last field written at its column |
| RowBuilder.RowShape | LitReviewAutomationScript.js:171-181 | with distinct field columns, the row is as wide as the map, each mapped field sits at its column minus one, and every other cell is `""` |
| RowBuilder.HeaderFieldsDistinct | LitReviewAutomationScript.js:260-264 | a map read from a header row never gives two fields one column |
| RowBuilder.BuildRows | LitReviewAutomationScript.js:138-190 | the rows built are `NewRows`: one per kept paper, in input order, up to the cap |
| RowBuilder.KeptPapers | LitReviewAutomationScript.js:139-168 | the kept papers are exactly those with a non-empty trimmed title not in the sheet, in input order |
| RowBuilder.NewRowsCount | LitReviewAutomationScript.js:183-186 | a run adds `min(kept, cap)` rows, never more than the limit when it is at least 1, and row k is the row of the k-th kept paper |
| RowBuilder.SameNewTitleTwice | LitReviewAutomationScript.js:134-168 | the set of existing titles is not updated in the loop, so two new papers with one title both become rows |
| RowBuilder.PaddedTitleIsDuplicate | LitReviewAutomationScript.js:141-166 | whitespace around a title does not hide a duplicate |
| RowBuilder.TitleTrimmed | LitReviewAutomationScript.js:141-163 | the title written has no surrounding whitespace, and it is empty exactly when the title is missing or blank |
| RowBuilder.LinkChoice | LitReviewAutomationScript.js:144-149 | the link is the trimmed PDF url when that url is non-empty, otherwise the trimmed canonical url; a PDF url of spaces alone gives an empty link |
| RowBuilder.AuthorsSelected | LitReviewAutomationScript.js:151-157 | the names joined, `AuthorNames` (`a && a.name ? a.name : ""` for each author) filtered by `IsNonEmpty`, are exactly the non-empty author names, in order |
| RowBuilder.AuthorsPlaced | LitReviewAutomationScript.js:154-157 | each name sits unchanged at its offset in the authors cell |
| RowBuilder.AuthorsSeparated | LitReviewAutomationScript.js:157 | each name but the first is preceded by `", "` |
| RowBuilder.AuthorsTiled | LitReviewAutomationScript.js:157 | the authors cell starts with the first name, each name is followed by `", "` and the next name, and the cell ends with the last name, so it holds nothing else |
| RowBuilder.AuthorsEmpty | LitReviewAutomationScript.js:151-158 | the authors cell is `""` exactly when no author has a non-empty name |
| Text.TrimStartSpec | LitReviewAutomationScript.js:141 | `trimStart` removes exactly the leading whitespace |
| Text.TrimEndSpec | LitReviewAutomationScript.js:141 | `trimEnd` removes exactly the trailing whitespace |
| Text.TrimIsInnerSlice | LitReviewAutomationScript.js:262 | `trim` gives the slice between the leading and trailing whitespace; it is empty iff the text is all whitespace |
| Text.TrimIdempotent | LitReviewAutomationScript.js:262 | trimming twice is trimming once |
| Text.TrimIgnoresPadding | LitReviewAutomationScript.js:262 | whitespace added around a text does not change its trim |
| Text.JoinPiece | LitReviewAutomationScript.js:157 | each piece of a join sits unchanged at its offset |
| Text.JoinLength | LitReviewAutomationScript.js:157 | a join ends exactly with its last piece |
| Text.PieceOffsetStep | LitReviewAutomationScript.js:157 | every piece but the last is followed by exactly one separator and then the next piece |
| Text.JoinSeparator | LitReviewAutomationScript.js:157 | the separator stands right before every piece but the first |
| Text.NatToStringRoundTrip | LitReviewAutomationScript.js:21 | the decimal text of a number reads back as the number |
| Text.PadStart | LitReviewAutomationScript.js:21 | `padStart` reaches the width, keeps the text at the end and fills before it |
| Seqs.FilterIsOrderedSelection | LitReviewAutomationScript.js:54 | `filter` keeps exactly the passing elements, in order |
| Seqs.FilterAppend | LitReviewAutomationScript.js:139-168 | filtering a concatenation is concatenating the filtered parts |

## Left out

- The spreadsheet itself is left out beyond the header row. That covers `getSheetByName`,
  `insertSheet`, reading existing titles, `setValues` of the new rows, bold headers and
  the highlight colour. The model has the header row as a field and the existing titles
  as a set parameter.
- `sheet.getLastColumn()` is the last column with content in any row. The model takes
  the length of the header row.
- `UrlFetchApp.fetch` and `Utilities.sleep` are foreign calls. The network is the
  function `respond`, and sleeps are logged instead of taken.
- The query string (`encodeURIComponent`, `join("&")`) and the URL are not part of this
  model.
- `JSON.parse`, the checks on the shape of the response and the per-item `try/catch`
  are not modelled. Papers are typed records with optional fields.
- `Logger.log` output is left out: it is diagnostics only.
- `Backoff.FactorMs` takes the backoff factor in whole milliseconds. `Number()`
  coercion of non-numeric arguments, fractional factors and `Math.round` are not
  modelled. `Backoff.Attempts` takes an integer retry count for the same reason.
- `Backoff.FetchWithBackoff` does not model an exception from `getResponseCode()` or
  from either `Utilities.sleep`. An exception from `getResponseCode()`, or from the sleep
  after a transient status (line 230), is caught like one from `fetch`, and the `catch`
  path then sleeps again. An exception from the sleep inside the `catch` block (line
  241) is not caught and leaves `fetchWithExponentialBackoff_` and the runner.
- `HeaderMap.Normalize` and `Text.ToLower` map only ASCII letters. JavaScript
  `toLowerCase` maps all of Unicode.
- `RequiredHeaders.DisplayHeader` and `Text.UpperChar` upper-case only ASCII letters.
- `HeaderMap.HeaderColumnMap` leaves out the `null`/`undefined` check on a header cell.
  `getValues` gives `""` for an empty cell, so no cell is ever null. Non-string cells
  (numbers, dates) and their `String()` are not modelled either.
- `RequiredHeaders.MissingKeys` reads `h in columnMap` as a look-up of the map's own keys.
  JavaScript's `in` also finds `Object.prototype` names such as `toString`. None of the
  five required keys is such a name, so the runner behaves the same.
- `RowBuilder.Paper` has string fields only. A non-string title and its `toString()`,
  and an `authors` value that is not an array, are not modelled. A missing or
  non-array `authors` field is the empty sequence.
- `DateRange.MonthsBack` models the calendar date only. Time of day, time zones and
  daylight-saving shifts of `Date` are not modelled.

## Findings

| source | as written | input that shows it | evidently intended | confidence | as-written member | corrected member |
|---|---|---|---|---|---|---|
| LitReviewAutomationScript.js:23-30 | `publicationDateOrYear` is built as `${year}-${month}:${year}-${currentMonth}:`, where `year` is read after `setMonth` has moved the date back; both endpoints get the start month's year | today 15 March 2026, `PUBLISHED_PAST_MONTHS = 10`: the filter is `2025-05:2025-03:`, a window that ends before it starts | the end endpoint carries today's year: `2025-05:2026-03:` | high, not executed | DateRange.AsWrittenInvertedAcrossYear | DateRange.DateFilterWindow |
