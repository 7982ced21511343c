# IMDb Top 250 scraper: stabilizer loop and record extractor

A Dafny model of the two computational pieces of `scrapeImdb` in `app.js`
of the imdb-top250-node service.

- **The lazy-load stabilizer** (`stabilizer.dfy`, module `Stabilizer`).
  The scraper scrolls and waits, counts the list items loaded so far, and
  stops once 250 items are present or the count has not grown for 10
  rounds in a row. The count observed in round `k` is `poll(k)` for an
  arbitrary `poll: nat -> nat`. `Stabilize` is the `while` loop with its
  `break`. `StateAfter` is the loop's state after `n` rounds, as a function
  of `poll`. The lemmas prove:
  - termination for every `poll`, with the lexicographic measure
    (250 − lastCount, 10 − counter);
  - the exit condition;
  - that `lastMovieCount` is the running maximum of the observed counts;
  - what a non-zero counter means.
- **The record extractor** (`extractor.dfy`, module `Extractor`, using
  `js_string.dfy`, module `JsString`). This is the callback passed to
  `page.evaluate`. A list item is the text of its title, year and rating
  elements, plus its poster and link elements with their attributes,
  each `None` when missing. Each field is cleaned:
  - the title loses its `^\d+\.\s*` prefix and is trimmed;
  - the year is trimmed;
  - the rating is cut at the first `(` and trimmed;
  - the link is cut at the first `?` and prefixed with
    `https://www.imdb.com`.

  An item is kept only when its name, year and rating are non-empty and
  it has a link. Kept items are numbered by their 1-based position among
  all items. `Extract` is the `forEach` loop that pushes onto `list`.
  `Records` is its specification.
- `JsString` models the JavaScript string operations involved:
  `trim()`, `split(c)[0]`, and the regular-expression classes `\s` and
  `\d`. Whitespace is the explicit ECMAScript WhiteSpace and
  LineTerminator code point set: tab, LF, VT, FF, CR, space, U+00A0,
  U+1680, U+2000–U+200A, U+2028, U+2029, U+202F, U+205F, U+3000 and
  U+FEFF. Both `\s` and `trim` use this set.

The poster follows the code. When the `.ipc-image` element is present but
has no `src`, `getAttribute` returns `null` (modelled as `None`), not
`"N/A"`. `"N/A"` is used only when the element itself is missing.

## Model

| member | source | states |
|---|---|---|
| Stabilizer.StateAfter | app.js:77-103 | the values of `lastMovieCount` and `stabilityCounter` after n rounds, starting from 0 and 0; pinned down by LastCountIsRunningMax and CounterCountsRoundsWithoutGrowth, and equal to `Stabilize`'s result |
| Stabilizer.Finished | app.js:106 | the exit test: at least 250 items, or at least 10 rounds without growth; TargetStopsImmediately and Stabilize use it |
| Stabilizer.Observe | app.js:96-103 | growth sets the count to the new count and resets the counter to 0; otherwise the count is unchanged and the counter goes up by exactly 1 |
| Stabilizer.MaxObserved | app.js:96-99 | an upper bound of every observation so far, and equal to 0 or to one of them |
| Stabilizer.LastCountIsRunningMax | app.js:96-99 | after n rounds `lastMovieCount` is the maximum of 0 and the first n observations |
| Stabilizer.LastCountMonotone | app.js:96-99 | `lastMovieCount` never decreases from one round to a later one |
| Stabilizer.CounterCountsRoundsWithoutGrowth | app.js:96-103 | a counter of c after round n means the last c observations did not exceed the count, the count was already reached c rounds earlier, and the round before those grew and reset the counter |
| Stabilizer.TargetStopsImmediately | app.js:106 | a round that observes at least 250 items ends the loop, whatever the counter |
| Stabilizer.MeasureDecreases | app.js:81-113 | if the exit test fails after each of rounds 0..n, the measure (250 − lastCount) · 10 + (10 − counter) after n rounds is at most its initial value minus n |
| Stabilizer.EventuallyFinished | app.js:81-113 | for every sequence of observations some round within 2500 meets the exit condition |
| Stabilizer.NoGrowthGivesUpAfterMaxChecks | app.js:77-79 | with no items observed in the first n rounds the state after n rounds is count 0 and counter n |
| Stabilizer.NoGrowthStopsAfterMaxChecks | app.js:96-106 | with no items ever observed the exit test fails after rounds 0..9 and holds after round 10 |
| Stabilizer.FirstExitUnique | app.js:106-112 | the first round after which the exit test holds is unique; with `Stabilize`'s first-exit postconditions and NoGrowthStopsAfterMaxChecks, a page that never loads items ends the loop after exactly 10 rounds |
| Stabilizer.Stabilize | app.js:77-114 | the loop terminates after at most 2500 rounds, at the first round that reaches 250 items or 10 rounds without growth; it returns the state after those rounds, a count equal to the maximum observation and a counter of at most 10, which is exactly 10 when fewer than 250 items were reached |
| JsString.IsWhitespace | app.js:130 | the characters `\s` and `trim()` treat as whitespace: the ECMAScript WhiteSpace and LineTerminator code points listed above |
| JsString.IsDigit | app.js:130 | the regular-expression class `\d`: the ASCII digits `0`–`9` |
| JsString.TrimStart | app.js:130 | the `\s*` after the ordinal dot: the text after its longest leading run of whitespace; TrimAfterTrimStart relates it to `trim()` |
| JsString.Trim | app.js:130-136 | `trim()`: the result has no whitespace at its first or last position |
| JsString.TrimRemovesPadding | app.js:130-136 | the input is the trimmed result with only whitespace before and after it |
| JsString.TrimUnique | app.js:130-136 | whitespace, then a trimmed core, then whitespace, trims to exactly that core |
| JsString.TrimIdempotent | app.js:133 | trimming twice is trimming once |
| JsString.TrimAfterTrimStart | app.js:130 | removing leading whitespace before `trim()` does not change the result |
| JsString.BeforeFirst | app.js:136 | `split(c)[0]`: a prefix of the text without `c`, which ends at the first `c` when it is shorter than the text |
| JsString.BeforeFirstAt | app.js:146 | `split(c)[0]` of v, c, w where v has no `c` is v |
| JsString.BeforeFirstAbsent | app.js:146 | `split(c)[0]` of text without `c` is the whole text |
| Extractor.StripOrdinal | app.js:130 | the title's `replace`: a leading digit run, a dot and the whitespace after them are removed, anything else is unchanged; pinned down by StripOrdinalOfPrefixed and StripOrdinalChangesIffPrefixed |
| Extractor.CleanTitle | app.js:130 | the cleaned title (ordinal removed, then `trim()`) has no whitespace at either end; CleanTitleDropsOrdinal and CleanTitleWithoutOrdinal give its value |
| Extractor.StripOrdinalOfPrefixed | app.js:130 | the regular expression removes a leading run of digits, its dot and the whitespace after it |
| Extractor.StripOrdinalChangesIffPrefixed | app.js:130 | the replacement changes the text if and only if the text starts with digits followed by a dot |
| Extractor.CleanTitleDropsOrdinal | app.js:129-130 | the title of digits, `.`, t is `t` trimmed |
| Extractor.CleanTitleWithoutOrdinal | app.js:129-130 | a title without an ordinal prefix is only trimmed |
| Extractor.CleanTitleOfRanked | app.js:130 | a rank, `. ` and a trimmed name clean to the name |
| Extractor.ShawshankTitle | app.js:130 | `"1. The Shawshank Redemption"` cleans to `"The Shawshank Redemption"` |
| Extractor.CleanRating | app.js:136 | the cleaned rating contains no `(` |
| Extractor.CleanRatingBeforeParen | app.js:135-136 | the rating is the trimmed text before the first `(` |
| Extractor.CleanRatingWithoutParen | app.js:135-136 | a rating without `(` is only trimmed |
| Extractor.CleanRatingOfValueAndVotes | app.js:136 | a trimmed value, ` (` and a vote count clean to the value |
| Extractor.RatingWithVoteCount | app.js:136 | `"9.3 ("` followed by any vote count, such as `"9.3 (2.8M)"`, cleans to `"9.3"` |
| Extractor.ResolveLink | app.js:141-148 | `"N/A"` exactly when the href is missing or empty; otherwise the result starts with `https://www.imdb.com`, has no `?`, and continues with the href up to its first `?` |
| Extractor.ResolveLinkDropsQuery | app.js:145-147 | a query string is cut off before the base URL is prefixed |
| Extractor.ResolveLinkWithoutQuery | app.js:145-147 | a non-empty href without `?` is only prefixed with the base URL |
| Extractor.ShawshankLink | app.js:141-148 | `"/title/tt0111161/?"` with any query, and `"/title/tt0111161/"`, both resolve to `"https://www.imdb.com/title/tt0111161/"` |
| Extractor.NameOf | app.js:129-130 | the name: the cleaned title text, or `""` without a title element (MissingElementDefaults) |
| Extractor.YearOf | app.js:132-133 | the year: the trimmed year text, or `""` without a year element (MissingElementDefaults) |
| Extractor.RatingOf | app.js:135-136 | the rating: the cleaned rating text, or `""` without a rating element (MissingElementDefaults) |
| Extractor.PosterOf | app.js:138-139 | the poster: `"N/A"` without an `.ipc-image` element, otherwise its `src`, which is `None` (`null`) when the attribute is missing; MissingElementDefaults and PosterDoesNotFilter use it |
| Extractor.HrefOf | app.js:141-142 | the link element's `href`, or `None` (`null`) without a link element |
| Extractor.LinkOf | app.js:144-148 | the link: ResolveLink of the href, so `"N/A"` exactly when it is missing or empty |
| Extractor.MissingElementDefaults | app.js:129-142 | a missing title, year or rating element gives `""`, a missing poster element `"N/A"`, a missing link or href an `"N/A"` link |
| Extractor.ExtractItem | app.js:150-158 | an item yields a record if and only if name, year and rating are non-empty and the href is present and non-empty; the record carries the given index and the cleaned fields |
| Extractor.PosterDoesNotFilter | app.js:138-139 | replacing or removing the poster element never changes whether the item is kept |
| Extractor.CandidatesNumbered | app.js:124-125 | every candidate record carries its 1-based position |
| Extractor.Kept | app.js:118-151 | what the `push` calls accumulate in `list`: the present candidates in order; KeptFromCandidates, KeptStrictlyIncreasing, KeptComplete and KeptIncludes pin it down |
| Extractor.Records | app.js:165 | the returned `list`: the kept `ExtractItem` records of the items, in document order; RecordsComeFromItems, RecordsStrictlyIncreasing, RecordsIncludeComplete and AllCompleteItemsKept pin it down, and `Extract` computes it |
| Extractor.KeptFromCandidates | app.js:150-151 | every kept record is the candidate at position index − 1, and there are no more kept records than candidates |
| Extractor.KeptStrictlyIncreasing | app.js:124 | kept records appear in candidate order |
| Extractor.KeptComplete | app.js:150-151 | a candidate is present if and only if a kept record carries its index |
| Extractor.KeptIncludes | app.js:150-151 | every present candidate is among the kept records |
| Extractor.KeptAll | app.js:124-125 | when all candidates are present all are kept, numbered 1..N |
| Extractor.RecordsComeFromItems | app.js:124-158 | every output record is the candidate, that is the `ExtractItem` record, of the item at position index − 1; indices lie in 1..N and the output has at most N records |
| Extractor.RecordsStrictlyIncreasing | app.js:124 | output indices strictly increase, so records are in document order |
| Extractor.RecordsIncludeComplete | app.js:150-151 | every item that passes the filter has its record in the output |
| Extractor.AllCompleteItemsKept | app.js:124-158 | a list whose items all pass the filter gives one record per item, numbered 1..N in order |
| Extractor.Extract | app.js:117-166 | the `forEach`/`push` loop returns exactly `Records(items)`, a function of the snapshot alone, so extracting twice gives the same list; it has at most N records, with indices in 1..N and strictly increasing |

## Left out

- Puppeteer: launching the browser, opening the page, setting the user agent and viewport, navigation, the page title and the body-text sample. These are foreign browser calls.
- `window.scrollTo` and the one-second sleep inside the loop. The count each round observes is the parameter `poll`.
- `querySelectorAll` and `querySelector`. The list is given as a sequence of `ListItem` values with optional fields.
- The per-item `try`/`catch`. Once items are plain data nothing in the callback can throw (`textContent` of an element is never `null`).
- All `console` output, including the two messages at the loop's exit and the warning when fewer than 250 records were parsed. These have no effect on the result.
- The outer `catch`/`finally`, `browser.close()`, the callback, and everything outside `scrapeImdb`: the Express routes, CORS, headers, `fs.writeFile`, the port and the TLS flag. This is HTTP and file I/O.
- JavaScript strings are UTF-16. Here a string is a sequence of Unicode scalar values, so a lone surrogate cannot be expressed. None of the characters the code tests (`(`, `?`, `.`, digits, whitespace) is a surrogate.
- Stabilizer.Stabilize: it returns the number of rounds run as an extra result, which the source does not have. It lets the final state be related to `poll`.
- Extractor.ShawshankTitle, Extractor.ShawshankLink: the concrete strings come in through `requires x == "…"` parameters, and the `"9.3 (2.8M)"` example is stated for every vote count (Extractor.RatingWithVoteCount). Each of these states the same equality as the literal example.
