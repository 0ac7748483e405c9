# Fider front-end utilities, modelled in Dafny

This project models the self-contained transforms in Fider's front-end helper
file `public/services/utils.ts`:

- `timeSince`: turns the distance between two instants into a relative
  phrase ("2 hours ago", "in 5 seconds"). It derives six rounded amounts from
  the millisecond difference. It picks the first bucket whose guard holds and
  hands the negated amount to `Intl.RelativeTimeFormat`. When formatting
  throws, it falls back to `formatDate`.
- `truncate`: cuts a long string and appends `"..."`.
- `classSet`: builds a CSS class string from the keys of an object whose
  values are truthy.
- `uploadedImageURL`: builds the URL of an uploaded image under the assets
  base, with an optional `?size=` query.
- `sortTags`: sorts the caller's tag array in place. Private tags come before
  public ones, and tags of the same visibility are ordered by
  `localeCompare` on their names.

Modules, one file each:

- `JsRuntime` (`js_runtime.dfy`): the JavaScript behaviour these helpers rely
  on. It covers `Math.round`, `String.prototype.trim` and the decimal text of
  an integer-valued number.
- `RelativeTime` (`relative_time.dfy`): `timeSince`.
- `TextUtils` (`text_utils.dfy`): `truncate` and `classSet`.
- `ImageUrl` (`image_url.dfy`): `uploadedImageURL`, and a parser that reads
  such a URL back.
- `TagSort` (`tag_sort.dfy`): `sortTags`.

Modelling choices:

- Instants are integer millisecond timestamps.
- `Math.round(n / d)` is `(2n + d) / (2d)` with floor division. This rounds
  halves toward +infinity, as JavaScript does.
- The browser's formatters are function parameters: `RelFormatFactory`
  stands for the `Intl.RelativeTimeFormat` constructor, `RelFormat` for its
  `format` method, and `DateFormatter` for `formatDate`. A call that throws
  returns `None`. `timeSince` catches a throw from the relative formatter and
  falls back to `formatDate`. A throw from `formatDate` itself is not caught,
  so `RelativeTime.TimeSince` returns `None` exactly when the fallback it
  reached throws.
- The assets base URL (`Fider.settings.assetsURL`) is a parameter.
- `localeCompare` is a parameter `NameCompare`. It must be a consistent
  comparator in the sense of section 23.1.3.30 of ECMA-262: every name
  compares equal to itself, `compare(x, y) < 0` exactly when
  `compare(y, x) > 0`, and "compare(x, y) <= 0" is transitive. With these,
  "compare(x, y) <= 0" is a total preorder.
- `classSet` and `sortTags` change local or caller state step by step, so
  they are methods with loops. `sortTags` works in place on an `array`. The
  other helpers are functions.

Where the prose description of these helpers and the code disagree, the
model follows the code:

- `classSet` does not simply join the truthy keys with spaces. It skips
  empty keys, and its final `trim()` strips every whitespace character at the
  two ends. That includes whitespace that belongs to a key, so a lone key
  `" a "` gives `"a"` (`TextUtils.SingleKeyIsTrimmed`).
- The months bucket is guarded by `days < 365`, not by a month threshold.
  Months can therefore reach 12.
- The relative-time `||` chain also moves on when the formatter returns the
  empty string, because `""` is falsy. `RelativeTime.Chain` models this.
  The main lemma assumes that the formatter never returns `""`, which is true
  of `Intl.RelativeTimeFormat`.

## Model

| member | source | states |
|---|---|---|
| JsRuntime.RoundDivNearest | public/services/utils.ts:44-49 | `Math.round(n/d)` is the integer nearest to n/d, with halves rounded up: `r - 1/2 <= n/d < r + 1/2` |
| JsRuntime.RoundDivBelow | public/services/utils.ts:44-58 | a rounded amount is below k exactly when n/d < k - 1/2; this turns each guard into a bound on the input |
| JsRuntime.RoundDivWithin | public/services/utils.ts:44-49 | rounding a non-negative amount by a divisor of at least 1 gives a value between 0 and the amount |
| JsRuntime.RoundDivMonotone | public/services/utils.ts:44-49 | rounding preserves order |
| JsRuntime.TrimStart | public/services/utils.ts:16 | removes the longest prefix made only of ECMAScript whitespace; the rest starts with a non-whitespace character |
| JsRuntime.TrimEnd | public/services/utils.ts:16 | removes the longest suffix made only of ECMAScript whitespace; the rest ends with a non-whitespace character |
| JsRuntime.Trim | public/services/utils.ts:16 | `trim()` leaves no whitespace at either end |
| JsRuntime.NatToDecimal | public/services/utils.ts:107 | the text of a size is non-empty, all digits, with no leading zero |
| JsRuntime.NatToDecimalRoundTrip | public/services/utils.ts:107 | the digit text of a natural number reads back as that number |
| JsRuntime.IntToDecimal | public/services/utils.ts:107 | the text of an integer is non-empty, starts with '-' exactly when the integer is negative, and the rest is all digits |
| JsRuntime.IntToDecimalRoundTrip | public/services/utils.ts:107 | the text of an integer (with a minus sign when negative) reads back as that integer |
| RelativeTime.DeriveShrinks | public/services/utils.ts:44-49 | for a past target each coarser amount is between 0 and the finer amount it is rounded from: months <= days <= hours <= minutes <= seconds, and years <= days |
| RelativeTime.Select | public/services/utils.ts:52-58 | the bucket handed to the formatter is one of the six operands of the chain, and its guard holds |
| RelativeTime.Chain | public/services/utils.ts:52-59 | whatever the formatter does, the or-chain's result is the formatter's result (a string or a throw) for some operand whose guard holds |
| RelativeTime.TimeSince | public/services/utils.ts:42-62 | `timeSince` throws only when `formatDate` throws for the same locale, date and format |
| RelativeTime.Candidates | public/services/utils.ts:52-58 | the chain has six operands in source order, and the last one (years) is unguarded |
| RelativeTime.FirstHolding | public/services/utils.ts:52-58 | the chosen operand's guard holds, and the guard of every earlier operand fails |
| RelativeTime.ChainFormatsFirstHolding | public/services/utils.ts:52-59 | when the formatter never returns "", the or-chain returns the formatter's result for the first operand whose guard holds, and a throw aborts the chain |
| RelativeTime.TimeSinceFormatsSelection | public/services/utils.ts:42-62 | `timeSince` returns the formatted selected bucket; it returns `formatDate(locale, date, dateFormat)`, or throws when that throws, when the formatter cannot be built or throws on that bucket |
| RelativeTime.SelectByGuards | public/services/utils.ts:52-58 | the bucket is the first of seconds, minutes, hours, days, months (guarded by days < 365) and years whose guard holds, with the negated amount as its value |
| RelativeTime.GuardThresholds | public/services/utils.ts:44-58 | each guard on the compounded roundings holds exactly when the millisecond difference is below 59 500, 3 569 500, 84 569 500, 2 546 969 500 and 31 490 969 500 |
| RelativeTime.SelectMatchesThresholds | public/services/utils.ts:44-58 | the selected unit equals the unit given by those millisecond thresholds |
| RelativeTime.SecondsBucket | public/services/utils.ts:44-53 | a difference below 59.5 s selects seconds with value -round(diff/1000); a target now or in the future gives a value >= 0 |
| RelativeTime.SelectedMagnitude | public/services/utils.ts:44-58 | the value is the negated amount: minutes 1..59, hours 1..23, days 1..29, months 1..12, years >= 1, seconds < 60 |
| RelativeTime.NinetySecondsIsTwoMinutes | public/services/utils.ts:44-54 | 90 s derives 2 minutes and falls in the minutes bucket |
| RelativeTime.RoundingCompounds | public/services/utils.ts:44-55 | 5370 s is 1.49 h, but rounding from the rounded minutes (90) gives 2 hours, in the hours bucket |
| RelativeTime.YearsRoundedFromDays | public/services/utils.ts:47-58 | years come from days: 545 days gives 18 months but 1 year, not round(18/12) = 2 |
| TextUtils.Substr0 | public/services/utils.ts:116 | `substr(0, length)` is the prefix of the string whose length is `length` clamped into [0, length of the string] |
| TextUtils.Truncate | public/services/utils.ts:114-119 | a non-empty input longer than maxLength becomes its first max(maxLength, 0) characters followed by "..."; any other input, the empty string included, is returned unchanged |
| TextUtils.TruncateLength | public/services/utils.ts:114-119 | the result has at most max(maxLength, 0) + 3 characters or is the input, and an input that fits keeps its length |
| TextUtils.TruncateIdempotent | public/services/utils.ts:114-119 | `truncate(truncate(s, n), n) == truncate(s, n)` |
| TextUtils.Kept | public/services/utils.ts:11-15 | no more keys are kept than there are entries, and no kept key is empty |
| TextUtils.ClassSetOf | public/services/utils.ts:8-19 | `classSet` gives "" for a falsy input, and its result never starts or ends with whitespace |
| TextUtils.KeptExactly | public/services/utils.ts:11-15 | a key is kept exactly when it is non-empty and its value is truthy |
| TextUtils.ClassSet | public/services/utils.ts:8-19 | the loop's result is the trimmed accumulator (see ClassSetOf): "" for a falsy input, no whitespace at either end, and with clean keys the kept keys in iteration order joined by single spaces |
| TextUtils.ClassSetOfCleanKeys | public/services/utils.ts:8-19 | when no kept key is empty or has whitespace at its ends, `classSet` is the kept keys joined by single spaces |
| TextUtils.SpacedIsSpaceThenJoin | public/services/utils.ts:13 | the accumulator of `" " + key` pieces is one space followed by the keys joined by single spaces |
| TextUtils.JoinWordsEnds | public/services/utils.ts:13-16 | a join of clean keys starts and ends with a non-whitespace character |
| TextUtils.TrimSpacedCleanKeys | public/services/utils.ts:13-16 | trimming the accumulator of clean keys removes exactly the leading space |
| TextUtils.SingleKeyIsTrimmed | public/services/utils.ts:13-16 | a single kept key comes out trimmed: `trim` also strips the key's own boundary whitespace |
| ImageUrl.UploadedImageURL | public/services/utils.ts:104-112 | the result is `undefined` exactly when the key is missing or empty; otherwise it starts with `assetsURL + "/static/images/"` followed by the key, and is exactly that when the size is missing or zero |
| ImageUrl.KeyAndSizeRoundTrip | public/services/utils.ts:107 | a key without '?' followed by `?size=` and the size's text reads back as that key and that size |
| ImageUrl.ImageURLRoundTrip | public/services/utils.ts:104-112 | a URL built from a key without '?' reads back as that key, with the size when it is non-zero and with no size when it is missing or zero |
| TagSort.TagCompare | public/services/utils.ts:156-164 | tags of different visibility never compare equal and the private one sorts first; tags of the same visibility compare as their names |
| TagSort.TagOrderIsTotalPreorder | public/services/utils.ts:156-164 | given a consistent name comparator, the tag comparator is total and transitive |
| TagSort.SortedMeans | public/services/utils.ts:156-164 | a sorted array has every private tag before every public tag, and names in comparator order within the same visibility |
| TagSort.SortTags | public/services/utils.ts:155-165 | returns the same array, now a permutation of its old contents, sorted by the comparator: private tags first and names in order within each visibility |
| TagSort.InsertAt | public/services/utils.ts:156-164 | one insertion step permutes only the first i + 1 tags, leaves the rest untouched, and makes that prefix sorted |
| TagSort.InsertingSwap | public/services/utils.ts:156-164 | swapping the moving tag with a predecessor that must follow it keeps the insertion invariant |
| TagSort.InsertingDone | public/services/utils.ts:156-164 | once the moving tag may stay after its predecessor, the prefix is sorted |
| TagSort.SortTagsExample | public/services/utils.ts:155-165 | a public "Zeta" given before a private "Alpha" comes back with "Alpha" first and "Zeta" second, whatever the name collation |

## Left out

- `delay` (lines 4-6): a promise resolved by a timer. It has no behaviour to state beyond the timer.
- `fileToBase64` (lines 64-86): asynchronous `FileReader` I/O.
- `timeAgo` (lines 88-91): reads the wall clock and returns a floating-point quotient.
- `isCookieEnabled`, `copyToClipboard`, `clearUrlHash` (lines 93-102, 125-152): these use the cookie store, the clipboard, the history API and DOM event dispatch, which are platform plumbing.
- `formatDate` and the `dateOpts` table (lines 21-40): formatting goes through `Intl.DateTimeFormat` and `toLocaleString`, which are foreign library calls. `formatDate` is the `DateFormatter` parameter.
- The text that `Intl.RelativeTimeFormat` produces is left out. The formatter is a parameter, and the model states only which (value, unit) it is asked for and how its result or throw is used.
- Invalid `Date` values are left out because instants are integers. In the source, a NaN time makes every guard false, and `format(NaN, "years")` then throws, so the result is the `formatDate` fallback.
- Floating point is left out. `(now - date) / 1000` and the later divisions are exact rationals in the model, not doubles. The model also has no negative zero: for `now == date` the source passes `-1 * 0`, which is `-0`, and `Intl.RelativeTimeFormat` may phrase that as past rather than "now".
- JavaScript strings count UTF-16 code units, while the model's `string` counts code points. `truncate` can therefore split a surrogate pair in the source but not in the model.
- TextUtils.ClassSet: the input is modelled as (key, truthy) pairs in `for...in` order. Which properties `for...in` visits (inherited ones, array indices) and the truthiness rules for arbitrary values are folded into that sequence.
- TextUtils.Truncate: `null` and `undefined` inputs are left out, because the model takes a string. The empty string covers the falsy case, and it is returned unchanged.
- TextUtils.Truncate: `maxLength` is an integer. Fractional, NaN and infinite lengths are left out; in the source `substr` truncates a fraction toward zero, and a NaN length makes `length > maxLength` false, so the input is returned unchanged.
- ImageUrl.UploadedImageURL: the size is an optional integer. NaN (falsy, so no query), fractional sizes and magnitudes of 1e21 or more (exponent notation) are left out. Keys are inserted verbatim, so a key containing `?` makes the URL ambiguous. The round-trip lemma therefore excludes such keys.
- TagSort.SortTags: the engine's sorting algorithm is not observable, so insertion by adjacent swaps stands in for it. The contract states permutation and sortedness but not stability. ECMAScript 2019 requires `sort` to be stable, so with a preorder the order of equal tags is also fixed in the source. That part is not stated.
- TagSort.SortTags: an inconsistent `localeCompare` is excluded by the precondition. For such a comparator, JavaScript's sort order is implementation-defined.
- `Tag` fields other than `name` and `isPublic` are carried as an opaque `other` value, because the comparator does not read them.
- `app/pkg/markdown/markdown_test.go` is not part of this model. It holds only tests, and the markdown implementation it tests is not among the source files.
