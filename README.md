# token-alert ingest core, in Dafny

token-alert watches two listing providers for tokens newly added on the BNB
chain. It stores each new token in a small JSON database and alerts the user
about it. This project models the core of `index.js`:

- the startup read of the database, which creates an empty `{tokens: []}`
  document when there is none;
- `run(notify)`, which re-reads the database and then handles two independent
  provider responses:
  - **CoinMarketCap**: the latest-listings API. Entries whose `platform.symbol`
    is `BNB` are mapped to records.
  - **CoinGecko**: the scraped recently-added table. Rows whose chain is
    `Binance Smart Chain` are mapped to records. The age text "N hours" or
    "N minutes" is turned into an absolute date, the symbol and volume texts
    are trimmed, and the volume loses its first `$` and every `,`.

  Each record is pushed onto the database's token list unless a record with
  the same `(address, dataSource)` is already there. When `notify` holds,
  each push sends one notification. Each callback that finishes writes the
  whole list back to the file.

The modules follow the program's structure:

| file | module | what it holds |
|---|---|---|
| `wrappers.dfy` | `Wrappers` | `Option` |
| `text.dfy` | `Text` | JavaScript `trim`, `split`, `replace` and `Number` on the strings the scraper handles |
| `tokens.dfy` | `Tokens` | the record, its dedupe key, key lookup |
| `dedupe.dfy` | `Dedupe` | `Merge`: what one batch of candidates does to the list, with its declarative partner `Added` |
| `coinmarketcap.dfy` | `CoinMarketCap` | the chain filter and the record mapping for API entries |
| `coingecko.dfy` | `CoinGecko` | the chain filter, relative-age parsing, volume cleaning, the record mapping and the `each` walk over the table, which can stop at an exception |
| `ingest.dfy` | `Ingest` | `Store`, the database as a class (`tokens` in memory, `saved` on file), with the two ingest loops and `Run` |

Times are integer milliseconds since the epoch. The wall clock is a
parameter: `now` is the time at which the CoinGecko callback runs.

CoinGecko's volume is kept as the cleaned string, exactly as
`index.js:242` does. It is not parsed to a number and not replaced by zero
when it is malformed. The model follows the code here.

## Model

| member | source | states |
|---|---|---|
| Ingest.Store.Open | index.js:58-61 | After startup, memory and file both hold the file's token list, or the empty list when the file held no document. |
| Ingest.Store.Load | index.js:157-158 | Reading replaces the in-memory list by the file's, so unsaved pushes are lost. |
| Ingest.Store.Flush | index.js:200 | Writing replaces the whole file with the in-memory list. |
| Ingest.Store.Find | index.js:183-186 | The lookup returns nothing exactly when no record has both the address and the source. Otherwise it returns the first record that has them. |
| Ingest.Store.Offer | index.js:183-196 | One candidate is pushed exactly when its key is absent. The new list is `Merge(old, [t])`. One notification is sent per push, and only when `notify` holds. |
| Ingest.Store.IngestCoinMarketCap | index.js:166-198 | The loop leaves `Merge(old, Candidates(batch))`. With `notify`, the notifications are exactly the appended records, in order. Without it, there are none. |
| Ingest.Store.IngestCoinGecko | index.js:218-263 | The `each` loop leaves `Merge(old, ScanRows(rows).tokens)`. It reports completion exactly when `ScanRows` completes. Notifications are as for CoinMarketCap. |
| Ingest.Store.IngestCoinMarketCapResponse | index.js:162-205 | A failed request changes nothing. A successful one ingests and then writes the file. |
| Ingest.Store.IngestCoinGeckoResponse | index.js:210-270 | A failed request changes nothing. A successful one ingests, and writes the file only when no row threw. |
| Ingest.Store.Run | index.js:156-271 | For either completion order, `Run` gives the final list as two merges from the file read at the start. The file holds what the last completed write saw. With `notify`, the notifications are exactly what was appended to the list read. |
| Ingest.Fetched | index.js:163-205 | A failed request (its `.catch` ran) offers no entries. This is used by `Store.Run`. |
| Ingest.FirstRun | index.js:156-271 | A fresh database and a notifying run where CoinMarketCap returns one on-chain entry and CoinGecko an empty table. In either completion order, the list and the file hold that one record, and exactly one alert is sent. |
| Ingest.RepeatedRun | index.js:183-196 | A notifying run whose CoinMarketCap entry is already stored. The list and the file stay as they were, and no alert is sent. |
| Ingest.CoinMarketCapDown | index.js:202-205 | A notifying run on a fresh database where the CoinMarketCap request fails and CoinGecko has one new on-chain row with a valid age. The list and the file hold that row's record, and it is alerted once. |
| Ingest.OnlyCoinGecko | index.js:218-265 | With one valid on-chain row and no CoinMarketCap entries, the walk completes and the list ends as that row's record, in either order. |
| Ingest.FirstListing | index.js:156-271 | Empty store, one on-chain CoinMarketCap entry, empty CoinGecko table: in either order the list ends as that one record. |
| Ingest.RepeatedListing | index.js:183-196 | An entry whose key the store already holds leaves the store unchanged, so it sends no alert. |
| Dedupe.Merge | index.js:183-196 | The lookup-and-push loop over a batch. The list only grows, and by at most one record per candidate. Its full characterisation is `MergeAppends`. |
| Dedupe.MergeSnoc | index.js:166-198 | One more candidate is offered to the list that the earlier ones left. |
| Dedupe.MergeAppends | index.js:188-196 | A batch only appends. The list becomes the old list followed by exactly the candidates whose key is neither stored nor carried by an earlier candidate. |
| Dedupe.AddedKeys | index.js:183-196 | After a batch, a key is present exactly when it was stored before or some candidate carries it. |
| Dedupe.AddedInOrder | index.js:190 | The appended records are candidates, in batch order. |
| Dedupe.AddedFresh | index.js:183-196 | Appended records have pairwise distinct keys, none of them stored before. |
| Dedupe.MergeKeepsKeysUnique | index.js:183-196 | If the keys were unique before a batch, they stay unique. |
| Dedupe.MergeCovers | index.js:183-196 | After a batch, every candidate's key is present. |
| Dedupe.MergeKnown | index.js:188 | A batch whose keys are all stored changes nothing. |
| Dedupe.MergeIdempotent | index.js:183-196 | Ingesting the same batch again adds nothing. |
| Dedupe.MergeExactlyOnce | index.js:183-196 | Starting from unique keys, every key of the batch is held by exactly one record. |
| Dedupe.DedupeKey | index.js:183-190 | A candidate is skipped exactly when a stored record matches both its address and its source. Otherwise it is appended. |
| Dedupe.OtherSourceDoesNotBlock | index.js:185 | A record of the other provider never blocks a candidate, even one with the same address. |
| Dedupe.MergeOrderKeys | index.js:162-270 | The keys present after both callbacks do not depend on which completed first. |
| Tokens.HasKeyAppend | index.js:183-186 | A key is in a concatenation exactly when it is in one of the parts. |
| Tokens.CountUnique | index.js:183-196 | In a list with unique keys, a present key occurs exactly once. |
| CoinMarketCap.OnBnb | index.js:169 | An entry is kept exactly when it has a platform whose symbol is `BNB`. An entry without a platform is dropped. |
| CoinMarketCap.ToToken | index.js:171-181 | The record's key is (platform token address, CoinMarketCap). Its url is the currencies prefix followed by the slug. Market cap and volume are the fully diluted market cap and the 24h volume. Name, symbol and ISO date are copied. |
| CoinMarketCap.Candidates | index.js:166-181 | The records offered to the list, in response order. There are never more of them than entries. `CandidatesSound` and `CandidatesComplete` characterise them. |
| CoinMarketCap.CandidatesSound | index.js:166-181 | Every candidate is the record of some on-chain entry, so it comes from CoinMarketCap. |
| CoinMarketCap.CandidatesComplete | index.js:166-181 | Every on-chain entry yields a candidate, and there are never more candidates than entries. |
| CoinMarketCap.MixedResponse | index.js:169 | A response with one on-chain entry and one elsewhere yields the first alone. |
| CoinGecko.CleanVolume | index.js:242 | Cleans the volume text. Its result is characterised by `CleanVolumeCounts`, `CleanVolumeExample` and `CleanVolumeKeeps`. |
| CoinGecko.OnBsc | index.js:219-221 | A row is on the chain exactly when its second `.coin-name` carries `data-sort` "Binance Smart Chain". This is used by `Classify`. |
| CoinGecko.Step | index.js:218-263 | One row's outcome within `each`: after an exception nothing changes, Skip leaves the walk as it is, Throw stops it, and Keep offers the record. Its consequences are stated by `WalkHalts` and `WalkCompleteIff`. |
| CoinGecko.Walk | index.js:218-263 | The `each` walk over the outcomes in table order. It is characterised by `WalkSnoc`, `WalkHalts`, `WalkCompleteIff`, `WalkSound` and `WalkComplete`. |
| CoinGecko.ScanRows | index.js:218-263 | The walk over the rows' outcomes. It is characterised by `ScanStep`, `ScanHalts`, `ScanCompleteIff`, `ScanSound` and `ScanComplete`. |
| CoinGecko.CleanVolumeCounts | index.js:242 | The cleaned volume has no `,` and one `$` fewer (if it had one). Every other character keeps its count. |
| CoinGecko.CleanVolumeExample | index.js:242 | "$1,234,567" becomes "1234567". |
| CoinGecko.CleanVolumeKeeps | index.js:242 | A volume without `$` and `,` is kept unchanged. |
| CoinGecko.JoinGroups | index.js:242 | Removing the thousands separators runs three comma-free digit groups together. |
| CoinGecko.AddedAt | index.js:223-232 | Computes the date from the age text. What it yields is stated by `AddedAtWords`, `AgeHours`, `AgeMinutes`, `AgeHoursAgo`, `AgeMinutesAgo`, `AgeAheadHours`, `AgeOtherUnit`, `AgeNoUnit`, `AgeEmpty`, `AgeBadCount` and `AddedAtNotLater`. |
| CoinGecko.AddedAtNotLater | index.js:223-232 | If the age text has no minus sign, the derived date is never later than the fetch time. |
| CoinGecko.AgeAheadHours | index.js:223-229 | "-N hours" dates the token N hours after the fetch, because the code subtracts the signed count. |
| CoinGecko.NegativeCount | index.js:229 | "-N" is a single word, read as the negated count. |
| CoinGecko.AheadWords | index.js:223 | "-N hours" trims to itself and splits into the signed count and "hours". |
| CoinGecko.CountWords | index.js:223 | A decimal count followed by "hours" or "minutes" splits into exactly those two words. |
| CoinGecko.AgeHours | index.js:223-229 | "N hours" dates the token N hours before the fetch, where N is a digit string. |
| CoinGecko.AgeMinutes | index.js:223-232 | "N minutes" dates the token N minutes before the fetch. |
| CoinGecko.ThreeHoursAgo | index.js:223-229 | "3 hours" gives the fetch time minus three hours. |
| CoinGecko.AgoWords | index.js:223 | "N hours ago" and "N minutes ago" trim to themselves and split into the three words. |
| CoinGecko.AgeHoursWords | index.js:223-229 | Whenever the first word is a decimal count and the second is "hours", the date is that many hours before the fetch, whatever words follow. |
| CoinGecko.AgeMinutesWords | index.js:223-232 | Whenever the first word is a decimal count and the second is "minutes", the date is that many minutes before the fetch, whatever words follow. |
| CoinGecko.AgeHoursAgo | index.js:223-229 | "N hours ago" dates the token N hours before the fetch: the trailing "ago" is never read. |
| CoinGecko.AgeMinutesAgo | index.js:223-232 | "N minutes ago" dates the token N minutes before the fetch. |
| CoinGecko.ThreeHoursAgoText | index.js:223-229 | The age "3 hours ago" gives the fetch time minus three hours. |
| CoinGecko.AgeOfWords | index.js:223-232 | When the first word reads as the count `v` and the second is "hours" or "minutes", the date is `v` units before the fetch. `v` may be negative. |
| CoinGecko.AgeOtherUnit | index.js:227-232 | Any other unit word, singular "hour" and "minute" included, leaves the fetch time. |
| CoinGecko.AgeNoUnit | index.js:223-232 | When the trimmed text splits into a single piece there is no unit word, and the date stays the fetch time. |
| CoinGecko.AgeEmpty | index.js:223-232 | An empty age cell, as when the row has no `td.trade`, dates the token at the fetch time. |
| CoinGecko.AgeBadCount | index.js:228-238 | Before "hours" or "minutes", a count that is neither digits nor a sign followed by digits gives no date, because `toISOString` throws. |
| CoinGecko.TwoWords | index.js:223 | "count unit" trims to itself and splits into exactly the two words. |
| CoinGecko.AddedAtWords | index.js:223-232 | Only the first two words of the trimmed text are read: the second picks the unit and the first the count. Any further words change nothing. "hours" or "minutes" with a count that does not read gives no date, and any other second word leaves the fetch time. |
| CoinGecko.CgToken | index.js:234-244 | The record's key is (data-address, CoinGecko). Name and slug are the coin name. Market cap is the "Unable to obtain" sentinel. The url is the coins prefix plus the href. The date is the derived instant. The symbol is the trimmed symbol text. The volume is the trimmed liquidity text after `CleanVolume`. |
| CoinGecko.CgTokenClean | index.js:236-242 | The symbol is the scraped text with the white space around it cut. The volume contains no `,`. |
| CoinGecko.Classify | index.js:219-244 | A row is skipped exactly when it is off the chain. It throws exactly when it is on the chain and its age gives no date. Otherwise it yields a CoinGecko record at that address, dated by `AddedAt`. That record is exactly `CgToken` of the row at that date. |
| CoinGecko.WalkSnoc | index.js:218 | The walk over one more outcome is one more step. |
| CoinGecko.ScanStep | index.js:218-263 | One more row does what `Classify` says. |
| CoinGecko.WalkHalts | index.js:218-263 | After an exception, later outcomes change nothing. |
| CoinGecko.ScanHalts | index.js:218-263 | After a row throws, later rows change nothing. |
| CoinGecko.WalkCompleteIff | index.js:218-263 | The walk completes exactly when no outcome is an exception. |
| CoinGecko.WalkSound | index.js:252-254 | Every record offered is the token of some Keep outcome. |
| CoinGecko.WalkComplete | index.js:218-263 | A completed walk offers the token of every Keep outcome. |
| CoinGecko.ScanCompleteIff | index.js:218-265 | The walk completes, and so the file is written, exactly when every on-chain row has a valid age. |
| CoinGecko.ScanSound | index.js:218-254 | Every offered record is the record of some table row. |
| CoinGecko.ScanComplete | index.js:218-254 | A completed walk offers the record of every on-chain row. |
| Text.TrimSpec | index.js:223 | `trim` leaves the infix of the text that has no white space at its ends, and only white space around it. |
| Text.TrimStartSpec | index.js:236 | Trimming the start leaves a suffix, and everything cut is white space. |
| Text.TrimEndSpec | index.js:236 | Trimming the end leaves a prefix, and everything cut is white space. |
| Text.TrimKeeps | index.js:236 | A text with no white space at its ends is unchanged by `trim`. |
| Text.FirstIndex | index.js:242 | The index found holds the character, and no earlier index does. |
| Text.Split | index.js:223 | `split` always gives at least one piece. |
| Text.SplitPieces | index.js:223 | No piece holds the separator. |
| Text.JoinSplit | index.js:223 | Joining the pieces gives the text back. |
| Text.SplitJoin | index.js:223 | Separator-free pieces come back unchanged from a join followed by a split. |
| Text.RemoveFirst | index.js:242 | `replace('$', '')` leaves a text without `$` unchanged. |
| Text.RemoveFirstSpec | index.js:242 | `replace('$', '')` cuts out the first `$` and nothing else. |
| Text.RemoveAllGone | index.js:242 | After `replace(/,/g, '')`, no `,` is left. |
| Text.RemoveAllCounts | index.js:242 | Removal drops exactly the commas. Every other character keeps its count. |
| Text.RemoveAllAppend | index.js:242 | Removal keeps order and works piecewise on a concatenation. |
| Text.RemoveAllKeeps | index.js:242 | A text without the character is unchanged. |
| Text.ParseCount | index.js:229-231 | `Number(count)` on the count of an age. Its properties are stated by `ParseCountSpec`, `ParseCountDecimal`, `ParseCountNegative` and `ParseCountPlus`. |
| Text.ParseCountSpec | index.js:229-231 | A count is read exactly when it is decimal digits, or a sign followed by at least one digit. Only a leading minus makes it negative. Plain digits read as their value. A signed count reads as its digits, negated after a minus and unchanged after a plus. |
| Text.ParseCountNegative | index.js:229-231 | A minus sign before the decimal rendering of a count reads back as the negated count. |
| Text.ParseCountPlus | index.js:229-231 | A plus sign before the decimal rendering of a count reads back as the count itself. |
| Text.SplitFirst | index.js:223-224 | The first piece of a split is a prefix of the text. |
| Text.Trim | index.js:223 | `trim()`. Its result is characterised by `TrimSpec`. |
| Text.RemoveAll | index.js:242 | `replace(/,/g, '')`. Its result is characterised by `RemoveAllGone`, `RemoveAllCounts` and `RemoveAllAppend`. |
| Text.ParseCountDecimal | index.js:229-231 | Parsing the decimal rendering of any count gives the count back. |

## Left out

- Scheduling (`scheduleAndStart`, the cron task) and the HTTP routes are not modelled. They only decide when `run` is called and with which `notify`.
- The HTTP requests and the HTML parsing (axios, cheerio) are left out. The model starts from the decoded JSON entries and from the attribute values and texts the selectors yield. A request that fails is `None`.
- The lowdb file I/O is reduced to a load-all/replace-all pair on `Store.saved`. A failed read or write, and a crash during a write, are not modelled.
- `sendNotification` (the Pushover message, the e-mail sent through nodemailer, and their currency formatting) is left out. A notification is modelled as the record it is about, in `sent`.
- Concurrency is left out. Within one run, both completion orders of the two callbacks are covered. Overlapping runs, and their race on read and write, are not.
- Logging to the console is left out.
- CoinGecko.AddedAt: `setHours`/`setMinutes` work on local time. The model subtracts exact hours and minutes, so daylight-saving jumps are not modelled. It also uses one `now` per table rather than one `new Date()` per row.
- CoinGecko.AddedAt: a count so large that the date leaves JavaScript's valid range, making `toISOString` throw, is not modelled.
- Text.ParseCount: only digit strings, the empty string, and a sign followed by digits are read as numbers. Other texts that JavaScript's `Number` accepts (decimals such as "1.5", exponents such as "1e2", the hex, binary and octal prefixes such as "0x1f", "0b11" and "0o17", white space other than a space inside the count, and any other numeric literal form) are read as not a number.
- CoinGecko.AgeBadCount: for the counts `ParseCount` does not read but `Number` does, the model gives no date and the row throws. The walk therefore stops, later rows are skipped, and the CoinGecko write is skipped. The code instead stores a dated record and goes on.
- CoinGecko.AddedAtNotLater: the bound holds only for age texts without a minus sign. A negative count dates the token after the fetch, in the model as in the code.
- Missing fields are not modelled. An entry without `quote.USD` throws in the code (`index.js:178-179`), which ends the CoinMarketCap loop. An attribute a selector does not find, or a `token_address` that is missing, does not throw: cheerio's `.attr` and the property read give `undefined`, and the record is stored with an `undefined` address or a url ending in "undefined". The model has no `undefined` value, so every field is a present string or value.
- `for...in` over inherited enumerable properties of the response array is not modelled: the entries are exactly the array's elements.
- The request's `limit=10` and `sort=date_added` are decided by the provider. The batch may have any length.
- Record fields are JSON values copied as they are. Number formatting and Unicode beyond the JavaScript white-space set that `trim` removes are not modelled.
