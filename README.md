# Cache janitor: a verified Dafny model

The system is a GitHub Action. It deletes a repository's Actions caches once they are too old or once
their total size exceeds a budget. Its core is `src/index.ts`, which contains:

- `parseHumanReadableTime`: turns a duration such as `7d`, `24h`, `2w`, `3M` or `1y` into seconds.
- `parseHumanReadableSize`: turns a size such as `500MB`, `1.5 gb` or `10TB` into bytes, using
  1024-based multiples.
- `run`: the action itself. It proceeds in these steps:
  1. Read and validate the inputs.
  2. List the caches page by page: 100 per page, at most 100 pages, stopping at the first empty page.
  3. Add up their sizes.
  4. Sort them largest first.
  5. Walk the sorted list and delete each entry that is selected. An entry is selected when its last
     access (or its creation) lies before the cut-off date and that criterion is switched on, or when
     the running total still exceeds the budget.

The running total drops by an entry's size only after its delete call succeeds.

The model has one module per concern:

| file | module | models |
|---|---|---|
| `wrappers.dfy` | `Wrappers` | `Option` and `Result` |
| `decimal.dfy` | `Decimal` | the `\d` class and `parseInt` on digit strings |
| `duration.dfy` | `Duration` | `parseHumanReadableTime` |
| `size.dfy` | `SizeParser` | `parseHumanReadableSize`, its two regular expressions as scanners proved equal to grammars |
| `caches.dfy` | `Caches` | the cache entry and the `forEach` that totals the sizes |
| `order.dfy` | `SizeOrder` | the stable descending sort, as an in-place insertion sort on an `array` |
| `fetch.dfy` | `Fetch` | the pagination loop |
| `evict.dfy` | `Eviction` | the eviction loop, proved against a left-fold specification |
| `config.dfy` | `Config` | reading and validating the inputs |
| `janitor.dfy` | `Janitor` | `run` as a whole |

The model treats the outside world as follows:
- The clock (`Date.now()`) is the parameter `now`, in milliseconds.
- The listing service is the sequence of its answers to pages 1, 2, and so on. Every page past the end
  of that sequence is empty.
- The delete service is an oracle. It is asked with the number of delete calls made before the current
  one, and answers whether that call succeeds.

A run ends in one of three ways:
- `ConfigFailed(message)`: the message `core.setFailed` receives.
- `Aborted(listCalls)`: a listing call threw.
- `Completed(listCalls, deleteCalls, finalTotal)`.

Two behaviours of the code are worth noting:
- A failed listing call only logs a line and returns (`src/index.ts:155-162`). It does not report a
  failure status. The run ends `Aborted`, and that outcome carries no message.
- The `default` branches of the two unit switches (`src/index.ts:37-38`, `66-67`) cannot be reached
  once the regular expression has matched. `Duration.ParseTime` and `SizeParser.ParseSize` prove this:
  their failures are only ever the format errors, or the "unknown unit" error from the second
  regular expression.

## Model

| member | source | states |
|---|---|---|
| Duration.ParseTime | src/index.ts:17-40 | a failure is always "Invalid time format" naming the input; the `default` branch of the unit switch is never taken |
| Duration.TimeErrorMessage | src/index.ts:19-23 | the message of a format error starts with "Invalid time format: ", and that of an unknown unit with "Unknown time unit: "; each prefix identifies its error |
| Duration.TimeGrammarExact | src/index.ts:18 | the parser succeeds exactly on the strings made of one or more digits followed by one of d, h, w, M, y |
| Duration.MatchTime | src/index.ts:18 | a match splits the input into a nonempty run of digits and one of the five unit letters, which together are the whole input |
| Duration.ConvertTime | src/index.ts:26-39 | each of the five units multiplies the number by its length in seconds; any other unit is the "unknown unit" error naming it |
| Duration.TimeLeadingZero | src/index.ts:25 | a leading zero does not change a duration: "07d" and "7d" are the same |
| Duration.TimeValue | src/index.ts:24-36 | a valid duration's value is the digits' decimal value times the unit's length in seconds |
| Duration.TimeOfNumber | src/index.ts:25-36 | for every natural number n, the decimal rendering of n followed by a unit parses to n times 86400, 3600, 604800, 2592000 or 31536000 |
| Duration.TimeRejectsOtherUnits | src/index.ts:18-23 | a last character other than the five unit letters (wrong case included) is rejected as an invalid format |
| Duration.TimeExamples | src/index.ts:26-32 | "7d", "24h" and "2w" parse to their values in seconds |
| Duration.LongTimeExamples | src/index.ts:33-36 | "3M" and "1y" parse to 30- and 365-day values |
| Duration.TimeRejections | src/index.ts:18-23 | "invalid", "1d2h", "1.5d", "", "5m" and "5D" are invalid formats |
| Decimal.DigitsValue | src/index.ts:25 | the value of k digits is below 10^k |
| Decimal.DigitsValueAppend | src/index.ts:25 | the value of two digit strings joined is the first one's value shifted by the second one's length, plus the second one's value |
| Decimal.ToDecimal | src/index.ts:25 | the rendering of a number is a nonempty digit string without a leading zero |
| Decimal.DigitsValueOfDecimal | src/index.ts:25 | reading back the decimal rendering of n gives n |
| Decimal.LeadingZeroValue | src/index.ts:25 | a leading zero does not change a digit string's value |
| Decimal.DigitChar | src/index.ts:25 | each digit value below 10 has a digit character with that value |
| SizeParser.ParseSize | src/index.ts:42-69 | the parser never reaches the `default` branch of its unit switch |
| SizeParser.SizeErrorMessage | src/index.ts:46-53 | the message of a format error starts with "Invalid size format: " and every other message with "Unknown size unit: ", each prefix identifying its kind |
| SizeParser.DigitsEnd | src/index.ts:43 | the scan for `\d+` stops at the end of the longest run of digits |
| SizeParser.SpacesEnd | src/index.ts:43 | the scan for `\s*` stops at the end of the longest run of blanks |
| SizeParser.DigitsEndAt | src/index.ts:43 | any maximal run of digits is the one the scan finds |
| SizeParser.SpacesEndAt | src/index.ts:43 | any maximal run of blanks is the one the scan finds |
| SizeParser.MatchSize | src/index.ts:43-45 | a match has a nonempty integer part, digit-only fraction digits, and a unit the pattern accepts |
| SizeParser.FractionDigits | src/index.ts:43 | the captured fraction is all digits |
| SizeParser.FractionTextOf | src/index.ts:43 | between the integer digits and the blanks lies exactly the optional decimal point and fraction |
| SizeParser.MatchSizeSound | src/index.ts:43-45 | every match the scanner returns is a decomposition of the input by the pattern's grammar |
| SizeParser.MatchSizeComplete | src/index.ts:43-45 | every decomposition by the grammar is the match the scanner returns, so the match is unique |
| SizeParser.UnitStartsWithLetter | src/index.ts:43-45 | a unit of either pattern starts with a letter |
| SizeParser.KnownUnitIsLetters | src/index.ts:43-45 | the case-insensitive known-unit pattern matches exactly when the letters pattern does and its letters name KB, MB, GB or TB |
| SizeParser.KnownUnitExact | src/index.ts:43 | a unit is accepted by the known-unit alternatives with the `i` flag exactly when its upper-case form is one of the four |
| SizeParser.ParseSizeOutcomes | src/index.ts:43-54 | success, "Invalid size format" and "Unknown size unit" (naming the letters) each hold exactly for the inputs the respective regular expressions select |
| SizeParser.InvalidSizeFormatExact | src/index.ts:51-53 | "Invalid size format" is reported exactly when the input is not a number, optional blanks and letters |
| SizeParser.SizeValue | src/index.ts:55-65 | a matched size is the exact value of its number times the unit's binary multiple |
| SizeParser.ConvertKnownUnit | src/index.ts:57-65 | the switch on a known unit, in any case, multiplies by 1024, 1024², 1024³ or 1024⁴ |
| SizeParser.ConvertSize | src/index.ts:57-68 | the switch succeeds exactly on the units whose upper-case form is KB, MB, GB or TB, and otherwise fails naming the unit as written |
| SizeParser.FractionValue | src/index.ts:56 | k digits after a decimal point are worth their value over 10^k, at least 0 and below 1 |
| SizeParser.DecimalValueRatio | src/index.ts:56 | a number with k fraction digits is the value of all its digits, the decimal point removed, over 10^k |
| SizeParser.DecimalValue | src/index.ts:56 | a matched number is never negative |
| SizeParser.ParseSizeNonNegative | src/index.ts:42-69 | a parsed size is never negative |
| SizeParser.SizeOfNumber | src/index.ts:43-65 | for every natural number n, its decimal rendering followed by a known unit parses to n times the unit's multiple |
| SizeParser.KilobyteExample | src/index.ts:58-59 | "500KB" is 500 × 1024 bytes |
| SizeParser.LowerCaseKilobyteExample | src/index.ts:43 | "500kb" is 500 × 1024 bytes: the unit's case does not matter |
| SizeParser.TerabyteExample | src/index.ts:64-65 | "1TB" is 1024⁴ bytes |
| SizeParser.GigabyteExample | src/index.ts:62-63 | "1GB" is 1073741824 bytes |
| SizeParser.FractionalSizeExample | src/index.ts:43-61 | "1.5MB" is 1.5 × 1024² bytes |
| SizeParser.SizeRejections | src/index.ts:44-53 | "invalid" is an invalid format and "5PB" an unknown unit "PB" |
| Caches.TotalSize | src/index.ts:168-171 | the loop's total is the sum of the entries' sizes, an absent size counting as 0 |
| Caches.SumSizesAppend | src/index.ts:168-171 | the total of two lists joined is the sum of their totals |
| SizeOrder.SortInPlace | src/index.ts:178 | the array ends up as the stable largest-first order of its old contents |
| SizeOrder.InsertStep | src/index.ts:178 | one insertion step puts the next entry after every entry at least as large and leaves the rest of the array alone |
| SizeOrder.InsertAt | src/index.ts:178 | the entry is inserted after the last entry at least as large and before the smaller ones |
| SizeOrder.InsertBounded | src/index.ts:178 | an insertion keeps a lower bound on all sizes |
| SizeOrder.InsertSorted | src/index.ts:178 | an insertion keeps the sizes non-increasing |
| SizeOrder.InsertPermutes | src/index.ts:178 | an insertion adds exactly the inserted entry |
| SizeOrder.InsertWithSize | src/index.ts:178 | an insertion appends the entry to the entries of its size and leaves the other sizes' orders alone |
| SizeOrder.WithSizeAppend | src/index.ts:178 | picking the entries of one size distributes over concatenation |
| SizeOrder.InsertTotal | src/index.ts:178 | an insertion adds the entry's size to the total |
| SizeOrder.Insert | src/index.ts:178 | an insertion adds one element, the inserted entry |
| SizeOrder.SortBySize | src/index.ts:178 | sorting keeps the length |
| SizeOrder.SortBySizeSorted | src/index.ts:178 | the sorted list has non-increasing sizes, absent ones counting as 0 |
| SizeOrder.SortBySizePermutes | src/index.ts:178 | the sorted list holds the same entries, each as often |
| SizeOrder.SortBySizeStable | src/index.ts:178 | entries of equal size keep their relative order |
| SizeOrder.SortBySizeTotal | src/index.ts:178 | sorting does not change the total size |
| SizeOrder.SameGroupsSame | src/index.ts:178 | two largest-first lists that agree on the order within every size are equal |
| SizeOrder.SortBySizeUnique | src/index.ts:178 | any list that is largest first and keeps each size's entries in their original order is exactly the stable sort's result, so a stable descending sort has only one possible outcome |
| Fetch.FetchCaches | src/index.ts:138-162 | the pagination loop computes the recursive listing specification from page 1 |
| Fetch.FetchFrom | src/index.ts:140-154 | from page p on, the loop makes at most 101 - p listing calls, and when p is at most 100 the first of them asks for page p with 100 entries per page |
| Fetch.FetchFromShape | src/index.ts:140-154 | from any page on, the loop asks for consecutive pages of 100 up to page 100; every page but the last asked for was listed and nonempty; it fails exactly when the last one failed; it stops early only at an empty page; and it collects the entries of the pages asked for, in page order |
| Fetch.FetchCachesShape | src/index.ts:138-162 | the whole listing makes 1 to 100 calls for pages 1, 2, …; it fails exactly when its last call failed; otherwise it yields the entries of those pages in order |
| Eviction.Step | src/index.ts:180-221 | one iteration keeps the earlier calls and adds one call, naming the entry's id, exactly when the entry is selected; the total drops by the entry's size exactly when that call succeeds |
| Eviction.Evict | src/index.ts:180-221 | the loop keeps the earlier calls, adds at most as many calls as there are entries, and never raises the total |
| Eviction.EvictPass | src/index.ts:180-235 | the loop over the sorted array computes the left-fold specification of the pass: skip entries without id or timestamps, select by age or by budget, decrement only after a successful delete |
| Eviction.EvictTotal | src/index.ts:211-221 | the final total is the starting total less the sizes of exactly the entries whose delete succeeded |
| Eviction.RemovedAndRemaining | src/index.ts:180-235 | every entry ends up deleted or remaining, and nothing else does |
| Eviction.RemovedAndRemainingSizes | src/index.ts:180-235 | the sizes of the deleted and the remaining entries add up to the size of all entries |
| Eviction.TotalTracksRemaining | src/index.ts:168-221 | started from the sum of all sizes, the final total is the size of the remaining entries, and never negative |
| Eviction.EvictCallsFromEntries | src/index.ts:180-192 | earlier calls are kept; the new calls correspond one to one, in order, to strictly increasing positions of the list, so no entry gets two calls; each names the id of the entry at its position, which has an id and both timestamps; and the positions are exactly those whose entry was selected when the loop reached it |
| Eviction.FailedDeletesKeepTotal | src/index.ts:211-221 | if every delete fails the running total never changes, whatever is selected |
| Eviction.NoBudgetAgeOnly | src/index.ts:112-192 | without a budget the calls are exactly the ids of the entries the age criteria select, in order, whatever the delete outcomes |
| Eviction.BudgetStep | src/index.ts:190-218 | when every entry has an id and both timestamps, one budget-only step either deletes the next entry of the prefix or leaves the state within budget |
| Eviction.BudgetPrefixUpTo | src/index.ts:178-221 | when every entry has an id and both timestamps, over a prefix of the list, the budget-only pass deletes a prefix, and each deletion happened while the total was over budget |
| Eviction.BudgetPrefix | src/index.ts:178-221 | when every entry has an id and both timestamps, with only the budget switched on and every delete succeeding, the pass deletes a leading run of the list, ends within the budget, and deleting one entry fewer would have left the total over it |
| Config.ParseConfig | src/index.ts:73-124 | validation fails exactly when max-age or token is empty, or max-age or a nonempty max-total-size does not parse; the first failing check in source order gives the `setFailed` message; on success the flags are the text "true", the age and budget are the parsed values, and the budget is absent exactly when its input is empty |
| Janitor.Run | src/index.ts:71-235 | `run` computes the composition of the stage specifications: validation, listing from page 1, eviction over the stable largest-first order starting from the total of all sizes |
| Janitor.RunCompleted | src/index.ts:138-235 | a completed run lists pages 1, 2, … (at most 100); its delete calls correspond one to one, in order, to strictly increasing positions of the sorted listing, so no entry is deleted twice, and each names the id of the entry at its position, which has an id and both timestamps; and it ends with the total equal to the size of what was not deleted, never negative |
| Janitor.PolicyOf | src/index.ts:110-124 | the cut-off date lies exactly max-age seconds, in milliseconds, before now; the two age flags and the budget are the validated settings |
| Janitor.RunBudget | src/index.ts:178-221 | when every listed entry has an id and both timestamps, with only a size budget and every delete succeeding, a run deletes the largest entries first and stops as soon as the total is within the budget |
| Janitor.SortedActionable | src/index.ts:178-185 | sorting keeps every entry's id and timestamps present |
| Janitor.TwoEntryRun | src/index.ts:178-221 | with a stale entry and a larger one over the budget together, the larger one is deleted first, for the budget, then the stale one, leaving 0 |
| Janitor.AgeAndSizeScenario | src/index.ts:71-235 | the end-to-end test: a 7-day limit on both timestamps and a 1 GB budget, with an old 500 MB entry and a fresh 600 MB entry, lists pages 1 and 2 and deletes entry 2 and then entry 1 |
| Janitor.ScenarioSettings | src/index.ts:73-124 | the end-to-end test's inputs validate to 604800 seconds, a 1073741824-byte budget and both age criteria |
| Janitor.ScenarioListing | src/index.ts:140-154 | a single nonempty page costs a second listing call for the empty page 2 |
| Janitor.TwoEntryEviction | src/index.ts:180-221 | the pass over the two entries deletes the larger one, then the stale one, and ends at 0 |
| Janitor.ScenarioOrder | src/index.ts:178 | two entries of different sizes are ordered largest first |
| Janitor.ListingFailureScenario | src/index.ts:155-162 | when the first listing call fails the run stops after it, with no delete call |
| Janitor.NoCachesScenario | src/index.ts:138-235 | an empty first page means one listing call, no delete call and a total of 0 |
| Janitor.MissingInputScenarios | src/index.ts:88-96 | an empty max-age, and then an empty token, stop the run with their messages before any listing call |

## Left out

- `core.getInput` is not modelled. The library trims whitespace and throws on an empty required input
  itself; the model starts from the strings it returns and checks lines 88-96 as written.
- Logging and the debug output (`console.log`) are not modelled. They change no state the action
  reports.
- The top-level `try`/`catch` (`src/index.ts:236-245`) is not modelled: no modelled step throws past
  its own handler.
- The "An unknown error occurred" and `String(error)` fallbacks (`src/index.ts:104-106`, `119-121`) are
  not modelled: both parsers throw only `Error` objects, so those branches are unreachable.
- `setFailedWrongValue` (`src/index.ts:4-6`) is not modelled because nothing calls it. The `Inputs`
  enum (`src/index.ts:8-15`) is represented by the fields of `Config.Inputs`.
- Timestamps are taken as already parsed to milliseconds since the epoch. `new Date(...)` on a
  malformed timestamp gives NaN, where every comparison is false; that case is not modelled.
- `Janitor.PolicyOf`: an age so large that `Date.now() - maxAge * 1000` is outside the range of a
  JavaScript `Date` (an Invalid Date, so no age criterion holds) is not modelled; the cut-off is exact
  integer arithmetic.
- Decimal.DigitsValue: `parseInt` is modelled exactly. The source's doubles lose precision beyond
  2^53, which the model does not capture.
- SizeParser.DecimalValue: `parseFloat` is the exact rational value of the digits. IEEE rounding is
  not captured, and neither is overflow to `Infinity`.
- An unset budget is `None`, standing for `Infinity`: `totalSize > Infinity` is always false, which
  is what `OverBudget` says of `None`.
- Caches.SumSizes: the running total is an unbounded integer; the source's doubles are exact only
  below 2^53 bytes.
- Sizes are natural numbers. The listing API never reports a negative size, and `|| 0` maps an absent
  size (and 0) to 0.
- The `owner`, `repo` and `per_page` arguments of the delete call are not modelled, because they are
  the same on every call. The same holds for `owner` and `repo` of the listing call, and for the
  token's use by `getOctokit`. A delete call is represented by its cache id.
- The `ref`, `version` and `key` fields of an entry are carried or dropped, but never inspected; only
  the debug log reads `key`.
- Asynchrony is not modelled: the calls happen strictly one after the other, as the `await`s make
  them.
- SizeOrder.SortInPlace: the engine's own sorting algorithm and the number of comparator calls are
  not modelled. `Array.prototype.sort` is stable, and `SizeOrder.SortBySizeUnique` shows that a stable
  descending sort has exactly one possible result. The model computes that result by insertion sort.
