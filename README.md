# MVG departure board: a Dafny model of its core

This project models the logic of the MVG departure board, a web app that
shows the upcoming departures of one Munich public-transport station. The
app has six parts, and the model covers each:

- **Paging.** `fetchDepartures` assembles the board from the paginated departure feed.
- **Service.** `MvgService` caches one station's departures and notifies subscribers.
- **Configurator page.** It decodes typed filters, colours line pills with a wildcard matcher, and builds the preview configuration.
- **URL codec.** It carries a configuration in the query string.
- **Countdown.** It formats the time until a departure.
- **Badge colours.** They come from a fixed table and a small-number rule.

Times are integer milliseconds. The feed becomes an input sequence of
pages: request k is answered by `pages[k]`. The clock is one input `now`
for each call.

Files, each one module:

| file | module | models |
|---|---|---|
| `types.dfy` | `Types` | `Station`, `Config`, `LineDest`, `Departure`, and one raw feed entry |
| `seqs.dfy` | `Seqs` | first-occurrence dedup (`Distinct`) and the subsequence relation |
| `text.dfy` | `Text` | JavaScript `split`/`join` on one character, `trim`, `parseInt(s, 10)`, `String(n)` |
| `mvg.dfy` | `Mvg` | `src/lib/mvg.ts` |
| `service.dfy` | `Service` | `src/services/mvg.service.ts` |
| `configurator.dfy` | `Configurator` | the helpers of `src/app/page.tsx` |
| `parseconfig.dfy` | `ParseConfig` | `src/lib/parseConfig.ts` |
| `timeformat.dfy` | `TimeFormat` | `src/lib/utils.ts` |
| `colors.dfy` | `Colors` | `src/lib/colors.ts` |

The source's form is kept:

- The page loop of `fetchDepartures` is a method with the same `while` loop. Its inner `for` loop over one page, with the same `continue`s, is the method `ReadPage`, and the labelled `break outer` becomes the flag it returns. Both are proved against the specification function `Collected`: the departures the loop would have gathered from a prefix of the feed.
- `MvgService` is a class with the source's six fields (the request counter is left out). The awaited `_backgroundRefresh` becomes two methods:
  - `BeginRefresh`: the guard, the cache reset and setting `isFetching`, everything before the request;
  - `CompleteRefresh(outcome)`: what happens when the request answers or throws.
- `configToURL` updates a parameter map step by step. It is proved against the function `ConfigParams`.

## Model

| member | source | states |
|---|---|---|
| `Mvg.FilterTestDep` | src/lib/mvg.ts:19-23 | the wildcard test: both fields must match, each as an unanchored regular expression in which `*` is `.*` (see the lemmas below) |
| `Mvg.Search` | src/lib/mvg.ts:21 | definition of the unanchored regular-expression test: a match may start at any position; its properties are in the rows `Mvg.SearchLiteral`, `Mvg.SearchInContext`, `Mvg.SearchSomewhere` and `Mvg.SearchStarAmidText` |
| `Mvg.SearchLiteral` | src/lib/mvg.ts:21 | a pattern without `*` matches exactly the values that contain it somewhere |
| `Mvg.SearchInContext` | src/lib/mvg.ts:21 | the test is unanchored: a match survives any text added before or after the value |
| `Mvg.MatchesPrefixLiteralHead` | src/lib/mvg.ts:21 | star-free text at the head of a pattern matches exactly itself, and the rest of the pattern goes on right after it |
| `Mvg.MatchesPrefixStarHead` | src/lib/mvg.ts:21 | a `*` at the head of a pattern matches any run of characters free of line terminators, as `.*` does, and the rest of the pattern goes on after that run |
| `Mvg.SearchSomewhere` | src/lib/mvg.ts:21 | the unanchored test holds iff the pattern matches from some start position of the value |
| `Mvg.SearchStarAmidText` | src/lib/mvg.ts:21 | for star-free `a` and any `q`, `a*q` is found in a value iff the value contains `a` at some position, then a run free of line terminators, then a match of `q`, with anything before and after |
| `Mvg.EmptyFilterMatchesAll` | src/lib/mvg.ts:19-23 | a filter with empty line and destination matches every departure |
| `Mvg.CeilDiv` | src/lib/mvg.ts:73 | `Math.ceil(a / b)`: the unique `q` with `(q-1)*b < a <= q*b` |
| `Mvg.CandidatesAppend` | src/lib/mvg.ts:31-57 | the per-entry checks work entry by entry, so they distribute over pages |
| `Mvg.CandidatesProvenance` | src/lib/mvg.ts:31-57 | a departure is a candidate iff some entry that passes every check yields it |
| `Mvg.CollectedSnoc` | src/lib/mvg.ts:59-66 | one entry more is appended iff it passes the checks and is not already in the list |
| `Mvg.CollectedPrefixProperties` | src/lib/mvg.ts:31-69 | any prefix of the collected list has no repeated (time, line, destination), keeps feed order, and has each departure from an entry that is not cancelled, at least 10 s ahead, matched by no exclude filter and by some include filter when there are any |
| `Mvg.StopInsidePage` | src/lib/mvg.ts:66-69 | stopping in the middle of a page gives a prefix of what the whole page would give |
| `Mvg.ReadPage` | src/lib/mvg.ts:31-70 | one page's loop appends, entry by entry, what `Collected` adds and stops exactly when the list reaches `min` (the `break outer`); otherwise it reads the whole page and still has fewer than `min` |
| `Mvg.FetchDepartures` | src/lib/mvg.ts:25-76 | `min <= 0` returns `[]` with no request. The first offset is 0. Each later offset is the rounded-up minute distance to the last raw entry of the previous page. Paging continues only while fewer than `min` departures have been collected. A normal return holds exactly `min` departures: the first `min` collected in acceptance order (not time order). An empty page ends in failure. |
| `Mvg.AcceptanceOrderIsNotTimeOrder` | src/lib/mvg.ts:31-66 | a page listing a later departure first yields it first: the result is not sorted |
| `Mvg.RepeatAcrossPagesCollapses` | src/lib/mvg.ts:59-65 | the same entry on two pages is collected once, because dedup runs against everything so far |
| `Mvg.NextOffsetRoundsUp` | src/lib/mvg.ts:71-73 | a cancelled last entry 11 min 1 ms ahead still sets the next offset, to 12 |
| `Mvg.LineDests` | src/lib/mvg.ts:82-86 | one (line, destination) pair per entry, in order |
| `Mvg.FetchDepartingLines` | src/lib/mvg.ts:78-94 | the distinct pairs of the response in first-seen order: no repeats, and a pair is listed iff some entry has it |
| `Seqs.DistinctProperties` | src/lib/mvg.ts:59-66 | the first-occurrence dedup has no repeats, keeps exactly the members of its input, and keeps their order |
| `Seqs.DistinctFirstSeenOrder` | src/lib/mvg.ts:59-66 | the dedup lists its elements in the order of their first occurrences in the input; with `DistinctProperties` this pins the result |
| `Seqs.DistinctKeepsFirst` | src/lib/mvg.ts:59-66 | deduplicating `[1, 2, 1]` gives `[1, 2]`: the first occurrence is the one kept |
| `Seqs.DistinctPrefix` | src/lib/mvg.ts:59-66 | deduplicating a longer input only appends |
| `Service.FilterLine` | src/services/mvg.service.ts:86-91 | `"LUFTHANSA EXPRESS BUS"` becomes `"LH"`; every other label is unchanged |
| `Service.FilterLineIdempotent` | src/services/mvg.service.ts:86-91 | rewriting twice is rewriting once |
| `Service.RefreshCandidatesProvenance` | src/services/mvg.service.ts:107-121 | a departure is a candidate iff some non-cancelled entry at least 10 s ahead yields it, label rewritten |
| `Service.RefreshResultProperties` | src/services/mvg.service.ts:104-131 | what a successful refresh stores has no repeated departure, keeps feed order, and holds exactly the departures of the upcoming entries |
| `Service.Without` | src/services/mvg.service.ts:48 | definition of `subscribers.filter(sub => sub !== callback)`; its properties are in the row `Service.WithoutProperties` |
| `Service.WithoutProperties` | src/services/mvg.service.ts:47-49 | unsubscribing removes every registration of that callback and keeps all others, with their counts and order |
| `Service.ViewFilter` | src/services/mvg.service.ts:148-156 | definition of the view filter of `getDepartures`; its properties are in the rows `Service.ViewFilterProperties` and `Service.ExcludeWins` |
| `Service.ViewFilterProperties` | src/services/mvg.service.ts:148-156 | the view is an order-preserving subsequence of the cache, holding exactly the visible departures, and has no repeats when the cache has none |
| `Service.ExcludeWins` | src/services/mvg.service.ts:149-151 | a departure that any exclude filter matches is hidden, whatever the include filters say |
| `Service.MvgService.constructor` | src/services/mvg.service.ts:24-35 | a fresh service: no station, empty cache, no error, no refresh yet, nothing in flight, no subscribers |
| `Service.MvgService.Subscribe` | src/services/mvg.service.ts:44-46 | the callback is appended to the subscribers |
| `Service.MvgService.Unsubscribe` | src/services/mvg.service.ts:47-49 | the subscribers without that callback |
| `Service.MvgService.Notify` | src/services/mvg.service.ts:52-54 | calls exactly the subscribers as they stood when notify began, in order; the bus afterwards is the effect of the callbacks' own subscribe/unsubscribe actions |
| `Service.MvgService.Initialize` | src/services/mvg.service.ts:56-65 | the current id changes nothing; a different id is stored and the cache emptied, and a refresh starts iff the id is non-empty and nothing is in flight |
| `Service.MvgService.BeginRefresh` | src/services/mvg.service.ts:71-96 | past the guard (a non-empty station id, nothing in flight) the cache is reset and a request is in flight; at the guard nothing changes and nothing is notified |
| `Service.MvgService.CompleteRefresh` | src/services/mvg.service.ts:76-140 | a response clears the error and sets the cache to exactly the deduplicated upcoming departures of the page, replacing what was there. A failure records the thrown value if it is an `Error` and leaves the error otherwise. Either way the station id is kept, nothing is in flight, the time is stamped and notify runs. |
| `Service.MvgService.GetDepartures` | src/services/mvg.service.ts:143-157 | a stored error is returned whenever there is one; otherwise an order-preserving subsequence of the cache holding exactly the visible departures, without repeats when the cache has none (which `Valid()` keeps for every reachable cache) |
| `Service.MvgService.GetAvailableLines` | src/services/mvg.service.ts:159-167 | the distinct pairs of the cache in first-seen order, each from some cached departure |
| `Service.StaleResultAfterSwitch` | src/services/mvg.service.ts:56-140 | a run of the service: a refresh starts for one station, the station changes while it is in flight, and when the request answers its departure lands in the cache of the new station |
| `Service.LineDestsOfMembers` | src/services/mvg.service.ts:161-165 | a pair is among the cache's pairs iff some cached departure has it |
| `Configurator.DecodeFilters` | src/app/page.tsx:14-20 | definition of the page's decoder, which answers `[]` for whitespace-only text; its properties are in the rows `Configurator.DecodersAgree` and `Configurator.BlankTextBoxDiffers` |
| `Configurator.DecodersAgree` | src/app/page.tsx:14-20 | whitespace-only input gives `[]`; any other input decodes exactly as the URL codec decodes it |
| `Configurator.BlankTextBoxDiffers` | src/app/page.tsx:15 | `" "` is no filter on the page but the filter (`" "`, `""`) in a URL |
| `Configurator.PatternMatches` | src/app/page.tsx:21-24 | definition of `patternToRegex(pattern).test(value)`: anchored, ASCII case-insensitive, `*` a run of dots; its properties are in the rows `Configurator.LiteralPattern`, `Configurator.StarMatchesDots`, `Configurator.LiteralHead`, `Configurator.StarHead` and `Configurator.StarAmidText` |
| `Configurator.LiteralPattern` | src/app/page.tsx:21-24 | the matcher is anchored and case-insensitive: a pattern without `*` matches exactly the values equal to it up to ASCII case |
| `Configurator.StarMatchesDots` | src/app/page.tsx:22 | since `*` is escaped before the rewrite, the pattern `*` matches exactly the strings of dots |
| `Configurator.LiteralHead` | src/app/page.tsx:21-24 | star-free text at the head of a pattern matches as many characters of the value, equal up to ASCII case, and the rest of the pattern matches the rest |
| `Configurator.StarHead` | src/app/page.tsx:21-24 | a `*` at the head of a pattern matches a run of dots of any length, and the rest of the pattern matches the rest of the value |
| `Configurator.StarAmidText` | src/app/page.tsx:21-24 | for star-free `a` and any `q`, `a*q` matches a value iff the value splits into a match of `a`, a run of dots, and a match of `q` |
| `Configurator.StarIsNotAnything` | src/app/page.tsx:22 | `U*` does not match `U6` but does match `u..` |
| `Configurator.Matches` | src/app/page.tsx:25-29 | definition of `matches`: both fields must match, an empty field read as `*`; its properties are in the rows `Configurator.EmptyFilterMatchesDotsOnly` and `Configurator.LiteralFilter` |
| `Configurator.EmptyFilterMatchesDotsOnly` | src/app/page.tsx:25-29 | an empty field is replaced by `*`, so the empty filter matches only pairs whose fields are all dots |
| `Configurator.LiteralFilter` | src/app/page.tsx:25-29 | both fields must match; a filter of two literal fields matches the pairs equal to it up to case |
| `Configurator.ComputePillState` | src/app/page.tsx:131-138 | an explicit include or exclude is shown as it is; otherwise the pill shows exclude iff a typed exclude matches, and include iff no typed exclude matches and a typed include does |
| `Configurator.TypedExcludeWins` | src/app/page.tsx:135-136 | an unclicked pill that a typed exclude matches shows exclude |
| `Configurator.Cycle` | src/app/page.tsx:142 | every click changes the state |
| `Configurator.OnPillClick` | src/app/page.tsx:139-145 | only key `idx` changes; it gets the next state after the old one, where a missing entry counts as neutral |
| `Configurator.ThreeClicks` | src/app/page.tsx:139-145 | three clicks bring every pill back to the state it showed |
| `Configurator.FirstClickIncludes` | src/app/page.tsx:133-142 | the first click on a pill makes it include, whatever the typed filters say |
| `Configurator.PicksProperties` | src/app/page.tsx:153-158 | a suggestion is picked iff some pill showing it is set to that state; the picks keep index order |
| `Configurator.PicksIgnoreStrayKeys` | src/app/page.tsx:154-155 | pill states at indices without a suggestion have no effect |
| `Configurator.BuildPreview` | src/app/page.tsx:148-168 | there is no preview and no URL without a station id. Otherwise the includes are the typed includes followed by the pill-included suggestions in ascending index, and likewise the excludes; the URL parameters are the ones `configToURL` writes for that configuration. |
| `Configurator.ClickedPillInPreview` | src/app/page.tsx:156-162 | a pill clicked to include is in the preview's include list |
| `ParseConfig.ParseIntOrDefault` | src/lib/parseConfig.ts:13-17 | definition of `parseIntOrDefault`; its properties are in the rows `ParseConfig.ParseIntOrDefaultFallsBack` and `ParseConfig.ParseIntOrDefaultReadsNumber` |
| `ParseConfig.ParseIntOrDefaultFallsBack` | src/lib/parseConfig.ts:13-17 | missing input, empty input and input with no decimal digit give the default |
| `ParseConfig.ParseIntOrDefaultReadsNumber` | src/lib/parseConfig.ts:13-17 | a written integer, optionally followed by a non-digit, reads back as itself |
| `ParseConfig.TokenToFilter` | src/lib/parseConfig.ts:29-30 | neither field of a decoded filter contains `:` |
| `ParseConfig.TokenWithoutColon` | src/lib/parseConfig.ts:29 | a token without `:` is all line, with destination `""` |
| `ParseConfig.TokenOfPair` | src/lib/parseConfig.ts:29 | `line:destination`, followed or not by more `:`-parts, decodes to that pair; further parts are dropped |
| `ParseConfig.FiltersOfTokensMembers` | src/lib/parseConfig.ts:25-31 | a filter is decoded iff some non-empty `;` token gives it, and there are exactly as many filters as non-empty tokens |
| `ParseConfig.FiltersOfTokensOne` | src/lib/parseConfig.ts:27-30 | one token gives its filter, and the empty token gives none, as `filter(Boolean)` drops it |
| `ParseConfig.FiltersOfTokensAppend` | src/lib/parseConfig.ts:25-31 | the tokens are decoded one by one and in order: the filters of `a + b` are those of `a` followed by those of `b` |
| `ParseConfig.DecodeFilters` | src/lib/parseConfig.ts:23-32 | definition of `decodeFilters`: a missing or empty value gives `[]`, otherwise the filters of the non-empty `;` tokens; its properties are in the rows `ParseConfig.FiltersOfTokensMembers`, `ParseConfig.FiltersOfTokensOne`, `ParseConfig.FiltersOfTokensAppend`, `ParseConfig.DecodeSingleToken` and `ParseConfig.DecodeEncode` |
| `ParseConfig.DecodeSingleToken` | src/lib/parseConfig.ts:23-32 | a single token without separators decodes to one filter with destination `""` |
| `ParseConfig.EncodeFilters` | src/lib/parseConfig.ts:19-21 | definition of `encodeFilters`: the tokens joined with `;`; its properties are in the rows `ParseConfig.FilterTokens` and `ParseConfig.DecodeEncode` |
| `ParseConfig.FilterTokens` | src/lib/parseConfig.ts:20 | the map built from the right is proved equal to its pointwise form: one `line:destination` token per filter, at the same index |
| `ParseConfig.DecodeEncode` | src/lib/parseConfig.ts:19-32 | decoding undoes encoding when no line or destination contains `:` or `;` (the empty list included) |
| `ParseConfig.SearchParamToConfig` | src/lib/parseConfig.ts:34-43 | missing `station` gives id `""`; missing `amount` gives 5; dark mode iff `theme` is `dark`; missing `titlebar` gives `""`; missing filter keys give no filters |
| `ParseConfig.EmptyQueryIsDefault` | src/lib/parseConfig.ts:4-43 | an empty query reads as `defaultConfig` |
| `ParseConfig.ConfigParams` | src/lib/parseConfig.ts:46-55 | definition of the parameters `configToURL` leaves, as chained map updates; its properties are in the rows `ParseConfig.ConfigParamsWrites`, `ParseConfig.ConfigParamsKeepsOthers` and `ParseConfig.ConfigRoundTrip` |
| `ParseConfig.ConfigParamsWrites` | src/lib/parseConfig.ts:47-55 | `station`, `amount`, `theme`, `include` and `exclude` are set from the configuration; `titlebar` is set iff it is non-empty, and deleted otherwise |
| `ParseConfig.ConfigParamsKeepsOthers` | src/lib/parseConfig.ts:46-55 | every other parameter of the page is untouched |
| `ParseConfig.ConfigRoundTrip` | src/lib/parseConfig.ts:34-57 | reading back the written parameters restores station id, integer amount, dark mode, title and both filter lists, given the `:`/`;` condition |
| `ParseConfig.ConfigToURL` | src/lib/parseConfig.ts:45-58 | the step-by-step updates leave exactly `ConfigParams`, other keys untouched, and reading them back restores the configuration |
| `TimeFormat.FormatTimeDiff` | src/lib/utils.ts:1-10 | definition of `formatTimeDiff`; its properties are in the rows `TimeFormat.OverAnHour`, `TimeFormat.ClockFace`, `TimeFormat.UnderASecond` and `TimeFormat.NinetyFiveSeconds` |
| `TimeFormat.WholeSeconds` | src/lib/utils.ts:2-3 | the whole seconds of the difference, rounded down, and 0 for a negative difference |
| `TimeFormat.PadStart` | src/lib/utils.ts:9 | `padStart`: the string, right-aligned in the pad character up to the width |
| `TimeFormat.PaddedTens` | src/lib/utils.ts:5-9 | a multiple of ten below 60 prints as two digits, `00` for zero |
| `TimeFormat.OverAnHour` | src/lib/utils.ts:4-8 | `"> 1h"` exactly for differences of 3 600 000 ms or more |
| `TimeFormat.ClockFace` | src/lib/utils.ts:2-9 | below an hour the output is `m:ss` with `m <= 59`, `ss` one of 00, 10, ..., 50, and `m*60 + ss` the whole-second difference rounded down to a multiple of ten |
| `TimeFormat.UnderASecond` | src/lib/utils.ts:2-3 | any difference under 1000 ms, negative ones included, shows `0:00` |
| `TimeFormat.NinetyFiveSeconds` | src/lib/utils.ts:2-9 | 95 000 ms shows `1:30` |
| `Colors.GetLineBackground` | src/lib/colors.ts:1-27 | a listed label gets its table colour. Any other label is tram red iff its leading integer is below 50, and bus teal otherwise. The result is always a colour of the table. |
| `Colors.GetLineFontcolor` | src/lib/colors.ts:29-31 | `#fdce32` exactly for `S8`, `#fff` otherwise |
| `Colors.U6IsBlue` | src/lib/colors.ts:7-22 | `U6` is `#0065ad` |
| `Colors.Nineteen` | src/lib/colors.ts:23-24 | `19` is tram red |
| `Colors.OneHundred` | src/lib/colors.ts:23-26 | `100` is bus teal |
| `Colors.LetterPrefixIsBus` | src/lib/colors.ts:23-26 | `Tram19` and `N40` have no leading integer and are bus teal |
| `Colors.S8Badge` | src/lib/colors.ts:15-31 | S8 is dark with yellow text |
| `Text.JoinSplit` | src/lib/parseConfig.ts:26 | splitting loses nothing: joining the parts gives the string back |
| `Text.SplitJoin` | src/lib/parseConfig.ts:20-26 | splitting undoes joining parts that avoid the separator |
| `Text.ParseIntOfIntToString` | src/lib/parseConfig.ts:15-48 | `parseInt(String(i) + rest, 10)` is `i` when `rest` does not go on with a digit |
| `Text.ParseIntWithoutDigits` | src/lib/parseConfig.ts:15-16 | a string without a decimal digit is `NaN` |
| `Text.BlankIffAllWhitespace` | src/app/page.tsx:15 | `!str.trim()` holds exactly for strings of JavaScript whitespace |

## Left out

- Network and JSON decoding: the departure feed, the station search (`fetchStations`) and the `fetch`/`json` calls. Pages, responses and, for `CompleteRefresh`, thrown values are inputs.
- Clock reads: every `new Date()`/`Date.now()` of one call is the same `now`. The source reads the clock once per entry and again for the offset.
- Timers and async interleaving. The `setInterval` armed on every station switch, the board's polling, and completions that overlap other calls beyond the begin/complete split are concurrency, and are not modelled.
- `fetchSeq`: the configurator's race guard for stale line suggestions (src/app/page.tsx:85-107) is concurrency, and is not modelled.
- Mvg.FetchDepartures: a rejected `fetch` or `json` await of a page propagates out of the page loop and out of the call; `FetchResult` has no such outcome, so the model does not capture a failing request.
- Mvg.FetchDepartures: the source's loop never ends while the feed keeps answering. The model's feed is a finite list, so running out of pages ends the call as `OutOfPages`, and the contract says what had been collected by then.
- Mvg.FilterTestDep: patterns are literal text and `*`. Other regular-expression metacharacters, which the mvg.ts and service matchers pass through unescaped, are not modelled.
- Configurator.PatternMatches: case-insensitivity is ASCII folding. JavaScript's `i` flag also folds other letters (`Ä`/`ä`).
- Colors.GetLineBackground: `parseInt(line)` is read in base 10. The radix-less `0x` prefix, the overflow to `Infinity` of very long digit strings, and `line in colors` hits on prototype keys such as `"toString"` are not modelled.
- ParseConfig.ParseIntOrDefault: `Infinity` from a very long digit string (which `Number.isFinite` rejects) is not modelled. Integers are unbounded.
- ParseConfig.ConfigToURL: returns the parameter map, not the URL text. `window.location`, the origin, the `/board?` path and percent-encoding are not modelled. `amount` is an integer. A query key with several values is not modelled: one key, one value.
- Service.MvgService.CompleteRefresh: a JSON body that is not an array (`null`, an object) and entries missing fields are not modelled. The console output and the `apiRequestsCount` counter are left out. There is an ordinary instance instead of the `getInstance` singleton.
- Service.MvgService.Notify: a callback is an id. Its only modelled effect is the subscribe/unsubscribe actions it performs on the bus; the function `subscribe` returns is the method `Unsubscribe`.
- Rendering: JSX, `triClasses`, fonts, the layout and board pages, and `document.title`.
- `src/lib/fetchDepartures.ts`, `src/lib/mvv.ts` (HTML scraping) and the `departing-lines` route handler are not part of this model.

Where the code differs from what the app's description suggests, the model follows the code:

- results come in acceptance order, not sorted by time;
- an empty page is a failure, not the end of the feed;
- a refresh still in flight when the station changes is not discarded: its page lands in the new station's cache (`Service.StaleResultAfterSwitch` walks through it);
- the page's `*` matches only dots, although the help text promises wildcards.
