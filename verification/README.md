# Powerball scraper: a Dafny model of its cache and parsers

The scraper is a small Express service. It serves two objects, each read from powerball.com
and kept in an in-memory cache:

- the advertised jackpot, in cents;
- the latest winning numbers.

This project models the logic inside `app.js` that decides what the service returns:

- **`tryToFetchCachedData`** is the refresh-on-read cache policy. On each read, an entry that
  is missing, or more than one minute old, is fetched again through a getter. Any other entry
  is served as it is.
- **`parseJackpot`** works on the text of the jackpot cell. It lower-cases the text and notes
  whether it says "million". It keeps the ASCII digits and reads them as dollars. It converts
  the dollars to cents, then multiplies by a million when "million" was present.
- **`getWinnerNums`** works on the plain-text feed. It splits the feed into lines. The
  second line, trimmed, is split on two spaces to give the numbers. A feed of one line gives
  `{}`, which has neither numbers nor a `lastUpdate`.
- **`getJackpot`, `tryToFetchJackpot` and `tryToFetchWinnerSum`** build the cached objects
  and read them through the cache.

Modules:

- `Wrappers`: `Option` and `Result`.
- `Errors`: the two ways a read fails. `FetchError` is a request that failed. `ParseError`
  is jackpot text that does not parse.
- `Text`: the JavaScript string operations the code relies on:
  - `indexOf`;
  - `split` on a literal separator, with `Join` as its inverse;
  - `trim`, with the ECMAScript white-space set;
  - `toLowerCase`.
- `Jackpot`: `parseJackpot`. Its partner is `FormatJackpot`, which writes an amount the way
  the page displays it ("$1,234 Million"). Parsing is proved to invert it.
- `WinningNumbers`: the text handling of `getWinnerNums`.
- `Cache`: `tryToFetchCachedData` as a pure function. It takes the store (a map), the key,
  the current time in milliseconds, and the outcome of the getter. It returns the new store,
  what the read gives, and whether the getter was called.
- `Scraper`: the two getters, the two cache keys, and the two cached reads.

Two details of the code shape the model:

- Not every cache entry carries a timestamp. The `{}` built from a one-line feed has no
  `lastUpdate`. `new Date() - undefined` is `NaN`, and `NaN > 60000` is false, so that entry is
  never refreshed. The model has `lastUpdate: Option<int>` and proves this
  (`Cache.UndatedNeverRefreshed`, `Scraper.ShortFeedStaysCached`).
- The parse error carries no cause. `new Error('Parsing failed. Cause:', err.message)`
  (app.js:63) passes the cause as the second, options, argument of `Error`. The message is
  the fixed text and the cause is dropped, so `ParseError` carries nothing.

## Model

| member | source | states |
|---|---|---|
| Cache.FetchCached | app.js:105-114 | A missing or stale entry makes the getter be called, and a fresh one does not (an undated entry is fresh). An unrefreshed read returns the stored entry and leaves the store alone. A refreshed read returns the getter's outcome. A successful refresh stores it under the key and changes nothing else. A failed getter leaves the store exactly as it was. |
| Cache.MissRefreshes | app.js:106-113 | On a miss the getter is called, and its entry is both stored under the key and returned. |
| Cache.FreshHitServed | app.js:106-113 | An entry at most 60000 ms old is returned unchanged without calling the getter. The store and the entry's `lastUpdate` are untouched. |
| Cache.PeriodBoundary | app.js:108 | The test is a strict `>`: an entry exactly 60000 ms old is still served, and one 60001 ms old is refreshed. |
| Cache.StaleHitReplaces | app.js:108-110 | A stale entry is replaced by the refreshed one. The set of keys and every other key's entry stay the same. |
| Cache.FailureKeepsStore | app.js:109-110 | A rejecting getter leaves the store as it was, stale entry included, and the read rejects with the getter's error. |
| Cache.UndatedNeverRefreshed | app.js:108 | An entry without `lastUpdate` is never refreshed, whatever the time (the `NaN` comparison). |
| Cache.IsStale | app.js:108 | The staleness test holds exactly when the entry is dated and more than one period old; an undated entry is never stale. It is the exact negation of "undated, or at most one period old". |
| Cache.RefreshThenHit | app.js:106-113 | An entry stored at time `t` is served, unchanged and without a getter call, by every read up to `t + 60000`. |
| Jackpot.ParseJackpot | app.js:47-66 | Parsing fails, with the parse error, exactly when the text has no ASCII digit. Otherwise the result is the text's digits, read in order as a decimal number, times 100. It is multiplied by a further million when the lower-cased text contains "million". So it is always a whole number of cents of whole dollars. |
| Jackpot.HasMillion | app.js:51 | The `indexOf(...) > -1` test is true exactly when "million" occurs in the text. |
| Jackpot.IsDigitListed | app.js:54 | A character is kept by `\d` exactly when it is one of the ten characters "0" to "9". |
| Jackpot.DecimalValue | app.js:57 | `Number` of a string of `n` digits is less than 10 to the `n`. |
| Jackpot.Digits | app.js:54-55 | The kept characters are all digits. They are empty exactly when the text has no digit. A text of digits is kept whole. |
| Jackpot.DigitsAppend | app.js:54-55 | Keeping the digits distributes over concatenation. |
| Jackpot.DigitsOfLower | app.js:48-55 | Lower-casing neither removes nor creates a digit. |
| Jackpot.DecimalValueAppend | app.js:57 | The value of a digit string is its left part shifted by the length of the right part, plus the right part. |
| Jackpot.FormatDollarsValue | app.js:54-57 | The digits of a comma-grouped amount ("1,234") read back as that amount. |
| Jackpot.FormattedMillion | app.js:48-51 | A displayed jackpot says "million" once lower-cased exactly when it is given in millions. |
| Jackpot.ParseFormattedJackpot | app.js:48-61 | Parsing a displayed jackpot gives its dollars times 100, times a further million when it reads "Million". |
| Jackpot.MillionsExample | app.js:48-61 | "$1,234 Million" parses to 123,400,000,000 cents. |
| Jackpot.PlainExample | app.js:54-61 | "500" parses to 50,000 cents. |
| Text.IndexOf | app.js:51 | The result is -1 or the first position where the pattern occurs, and the pattern occurs nowhere before it. |
| Text.IndexOfFound | app.js:51 | `indexOf` gives more than -1 exactly when the pattern occurs. |
| Text.Split | app.js:85 | Splitting gives at least one field, and more than one exactly when the separator occurs. |
| Text.SplitJoin | app.js:85 | Joining the fields of a split with the separator gives back the text. |
| Text.SplitFieldsFree | app.js:87 | No field of a split contains the separator. |
| Text.SplitCutsLeftmost | app.js:87 | Every cut falls at the leftmost occurrence: each field but the last, followed by the separator, first contains the separator right after the field. So "02    PB" splits into "02", "" and "PB". |
| Text.JoinSplit | app.js:87 | Splitting a join gives back the fields when no field uses a separator character. |
| Text.IsWhiteSpaceListed | app.js:87 | `trim` removes exactly the listed ECMAScript white-space and line-terminator code points. |
| Text.Trim | app.js:87 | The trimmed text is no longer than the original and neither starts nor ends with white space. |
| Text.TrimDropsOnlyWhiteSpace | app.js:87 | The trimmed text is a slice of the original, with only white space before and after it. |
| Text.TrimKeepsChars | app.js:87 | Every character of the trimmed text is a character of the original. |
| Text.TrimIdempotent | app.js:87 | Text with non-white-space ends is left as it is, so trimming twice is trimming once. |
| Text.Lower | app.js:48 | Lower-casing keeps the length and maps each character on its own, ASCII capitals to small letters. |
| Text.LowerAppend | app.js:48 | Lower-casing distributes over concatenation. |
| WinningNumbers.ExtractWinners | app.js:85-91 | There are numbers exactly when the feed has a newline, and then at least one field. |
| WinningNumbers.WinnersFields | app.js:85-88 | The numbers are non-empty and no field contains the two-space separator. Joined with two spaces, they give the trimmed second line. |
| WinningNumbers.WinnersIgnoreHeaderAndRest | app.js:85-87 | The numbers are those of the trimmed record line, whatever the header says and whatever follows the record. |
| WinningNumbers.WinnersOfTrimmedRecord | app.js:85-87 | A record line without white space at its ends is split as it stands. |
| WinningNumbers.RecordExample | app.js:87 | "01  02  03  04  05  06" splits into its six numbers. |
| WinningNumbers.FeedExample | app.js:85-88 | "header\n01  02  03  04  05  06\n" gives ["01", "02", "03", "04", "05", "06"]. |
| Scraper.GetJackpot | app.js:70-78 | A failed fetch rejects with its error. Text without a digit rejects with the parse error. Otherwise the entry holds the amount `parseJackpot` gives for the text, in whole cents, stamped with the current time. |
| Scraper.GetWinnerNums | app.js:81-92 | A failed fetch rejects with its error. A feed with a newline gives the numbers extracted from its second line, stamped with the current time. Any other feed gives `{}` with no `lastUpdate`. |
| Scraper.TryToFetchJackpot | app.js:95-97 | The jackpot read calls `getJackpot` exactly when the jackpot entry is missing or stale. A fresh hit resolves with the stored entry and leaves the store alone. A refreshed read gives `getJackpot`'s outcome. A rejected read leaves the store as it was. What it resolves with is what is then cached under "jackpot". |
| Scraper.TryToFetchWinnerSum | app.js:100-102 | The same for the winning numbers under "winnums", with `getWinnerNums` as the getter. A refreshed entry holds numbers or is `{}`. |
| Scraper.KeysDiffer | app.js:15-16 | The two cache keys are different. |
| Scraper.ReadsKeepTheOtherKey | app.js:95-111 | Reading the jackpot leaves the winning numbers' entry as it was, and the other way round. |
| Scraper.ShortFeedStaysCached | app.js:84-111 | A one-line feed is cached as `{}`. Every later read of the winning numbers serves that `{}` without calling the getter. |
| Scraper.FailedFetchKeepsStaleJackpot | app.js:105-111 | A failed page fetch while the jackpot is stale rejects with the fetch error and leaves the store, stale jackpot included, unchanged. |
| Scraper.StaleJackpotReparsed | app.js:70-78 | A stale jackpot is replaced by the parsed amount of the page, stamped with the current time. |
| Scraper.StaleDisplayedJackpotReparsed | app.js:47-78 | For a page displaying "$D" or "$D Million", a stale jackpot is replaced by D dollars in cents, times a million for "Million". |

## Left out

- The Express routes, the 404 handler and the 500 responses (app.js:116-140). They are HTTP glue; the route's `res.json(data.winnersNums)` is not modelled either.
- `getPageContent` and the `request`/bluebird fetch (app.js:23-33). This is network I/O. Its outcome is an input `Result`: the fetched text, or a `FetchError`.
- The cheerio load and DOM selection (app.js:37-47). This is a foreign library. The model starts from the selected text, so a selection that throws is not modelled.
- `Number()` on long digit strings (app.js:57). This is floating point; the model uses unbounded integers, so amounts beyond 2^53 are exact here.
- `new Date()`. The current time is an integer parameter in milliseconds. The getter's timestamp and the cache's staleness test use the same `now`, although the code reads the clock twice.
- NodeCache internals (no TTL is configured). The cache is a `map` from key to entry. Its clone-on-get copies are not modelled.
- Concurrent reads. Two reads that both find an entry stale each call the getter, and the later `set` wins. Each read is modelled on its own.
- The text of the parse error's message (app.js:63).
- Text.Lower: only ASCII capitals are mapped. JavaScript's `toLowerCase` also maps non-ASCII letters, and may change the length. The only such mappings that yield ASCII are the Kelvin sign (to `k`) and the capital I with dot (to `i` and a combining dot). Neither adds a digit, and neither can complete "million".
