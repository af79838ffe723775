# Ad moderation dashboard: the model of its core logic

This project models, in Dafny, the core logic of a React dashboard that moderators use to review classified ads. The following parts are modelled:

- **The API client** (`src/api/client.ts`):
  - the list pipeline `getAds`, which filters the server's ads by status, category, price range and title, sorts them, counts them and cuts one page;
  - `getCategories`, which deduplicates the categories;
  - the registry of cancel handles that each request keeps by slot name.
- **The ads list page** (`src/pages/AdsList.tsx`):
  - reading the query state from the URL search parameters;
  - `updateParams` and the filter, sort, page and reset handlers built on it;
  - the "new ads" counter and its "Обновить" button;
  - the selection of ads;
  - saved filter sets;
  - the sequential bulk approve and reject loops.
- **The ad detail page** (`src/pages/AdDetail.tsx`):
  - validation and labelling of a rejection;
  - approve and request-changes;
  - the query-cache keys invalidated after a moderation;
  - the previous and next ad in the full list;
  - the colour and text of a history entry.
- **The keyboard shortcut hook** (`src/hooks/useHotkeys.ts`): letters match on the physical key code, other keys on the lower-cased character, modifiers must match exactly, and focus in a text field suppresses every shortcut except `/`.
- **The placeholder image builder** (`src/utils/placeholder.ts`): caption truncation, XML escaping of the five predefined entities (section 4.6 of XML 1.0, Fifth Edition), assembly of the SVG, and the `data:` URI built with `encodeURIComponent`.
- **The record types** of `src/types/index.ts`.

## Files

Each file holds one module:

| file | module | what it holds |
|---|---|---|
| `wrappers.dfy` | `Wrappers` | `Option` and `Result` |
| `js.dfy` | `Js` | the JavaScript built-ins the core calls: ASCII `toLowerCase`/`toUpperCase`, `trim`, `includes`, `split`/`join`, `String(n)` and `Number(s)` on integers |
| `types.dfy` | `Types` | `AdStatus` (with `draft`), `Priority`, the history action, `Seller`, the history item, `Ad` |
| `client.dfy` | `ApiClient` | filter predicates, the in-place insertion sort on an `array` with the stable sort it is proved against, pagination, category deduplication, and the `Client` class with its `cancelTokens` map |
| `gateway.dfy` | `Gateway` | the moderation endpoints as an abstract, fallible gateway |
| `ads_list.dfy` | `AdsList` | URL parameters, `updateParams`, the handlers, the counter, selection, saved sets, bulk moderation |
| `ad_detail.dfy` | `AdDetail` | reject rules, invalidation, the `DetailPage` and `QueryClient` classes, neighbours, status mappings |
| `hotkeys.dfy` | `Hotkeys` | the key-code table, the match predicates and the `handleKeyDown` loop |
| `placeholder.dfy` | `Placeholder` | truncation, `escapeXml`, UTF-8 `encodeURIComponent`/`decodeURIComponent`, the SVG |

### How the model represents the source

- **State the source mutates is a class.**
  - `ApiClient.Client` holds the `cancelTokens` map; it also logs the handles that were cancelled.
  - `Gateway.ModerationGateway` logs every request sent.
  - `AdDetail.QueryClient` logs the invalidated key prefixes.
  - `AdDetail.DetailPage` holds the rejection dialog state.
- **Loops the source runs are methods with invariants:**
  - the sort;
  - `updateParams`;
  - the bulk loops;
  - `handleKeyDown`.
- **Pure expressions are functions with lemmas about them.**
- **URL parameters** (`URLSearchParams`) are an ordered list of name/value pairs. `get`, `set` and `delete` follow the WHATWG URL standard (section 6.2): `set` replaces the first pair in place and drops the later ones.
- **Prices and dates are integers.** A seller's `rating`, which may be fractional, is a real.
- **`Number(s)`** is modelled on optionally signed decimal integers. It first trims JavaScript whitespace, and the empty string gives 0. Anything else gives `NaN`.
- **The moderation endpoints** (`approveAd`, `rejectAd`, `requestChanges`) are called by the pages but are not part of `src/api/client.ts`. They are a gateway whose constructor fixes which log positions fail.

## Model

| member | source | states |
|---|---|---|
| Js.TrimStart | src/pages/AdsList.tsx:150 | the result is a suffix of the input that starts with no JS whitespace, and only whitespace was dropped |
| Js.TrimEnd | src/pages/AdsList.tsx:150 | the result is a prefix of the input that ends with no JS whitespace, and only whitespace was dropped |
| Js.TrimEmptyIff | src/pages/AdsList.tsx:150 | `s.trim()` is empty exactly when `s` consists of whitespace only (the test behind "name is blank" and "comment is blank") |
| Js.TrimUnchanged | src/pages/AdsList.tsx:153 | a string with no whitespace at either end is its own trim |
| Js.Split | src/pages/AdsList.tsx:56 | `split(',')` returns at least one part, and no part contains the separator |
| Js.JoinSplit | src/pages/AdsList.tsx:56 | joining the parts of a split with the same separator gives back the string |
| Js.SplitJoin | src/pages/AdsList.tsx:116 | splitting the join of a non-empty list of separator-free parts gives back the list |
| Js.NatToString | src/pages/AdsList.tsx:125 | `String(n)` of a natural number is a non-empty string of decimal digits with no leading zero: it starts with `0` exactly when `n` is 0, and is then `"0"` |
| Js.NatToStringValue | src/pages/AdsList.tsx:125 | the digits `String(n)` writes denote `n` |
| Js.ToNumberOfString | src/pages/AdsList.tsx:58 | `Number(String(n)) === n` for every integer `n`, negative ones included |
| ApiClient.KeepWhereCount | src/api/client.ts:51-72 | one `filter` call keeps each accepted ad as many times as it occurs and drops every other ad |
| ApiClient.KeepWhereOrder | src/api/client.ts:51-72 | one `filter` call keeps the accepted ads in their original order |
| ApiClient.FilterAdsCount | src/api/client.ts:49-72 | the filter chain keeps every matching ad with its multiplicity and drops every ad that does not match; an ad matches when its status is listed (for a non-empty list), its category equals the one given, its price is within each bound given, and its lower-cased title contains the lower-cased search |
| ApiClient.FilterAdsSound | src/api/client.ts:51-72 | every ad the chain keeps came from the response and satisfies all active filters |
| ApiClient.FilterAdsComplete | src/api/client.ts:49-72 | every ad of the response that satisfies the active filters is kept |
| ApiClient.FilterAdsKeepsOrder | src/api/client.ts:49-72 | the filtered list is a subsequence of the response: relative order is preserved |
| ApiClient.InsertSplit | src/api/client.ts:75-100 | inserting an ad into a list puts it right after the last ad that does not outrank it, before every ad that does |
| ApiClient.InsertWithKey | src/api/client.ts:75-100 | insertion places the new ad after every ad that shares its key, and leaves the order among the others of each key alone |
| ApiClient.InsertPermutes | src/api/client.ts:75-100 | insertion adds exactly the new ad to the multiset |
| ApiClient.InsertSorted | src/api/client.ts:75-100 | inserting into a sorted list gives a sorted list |
| ApiClient.StableSortKeepsTies | src/api/client.ts:75-100 | the sort is stable: the ads sharing any one key come out in the order they came in (the comparator returns 0 for them, and `Array.prototype.sort` is stable) |
| ApiClient.StableSortSorted | src/api/client.ts:75-100 | the sorted list is ordered by the comparator |
| ApiClient.StableSortPermutes | src/api/client.ts:75-100 | the sort is a permutation of its input |
| ApiClient.StableSortUnknownKey | src/api/client.ts:92-93 | a `sortBy` outside date, price and priority makes every comparison 0, so the list is left as it is |
| ApiClient.StableSortFacts | src/api/client.ts:74-101 | the sort is a permutation; with `desc` the keys are non-increasing, otherwise non-decreasing; a `sortBy` outside date, price and priority leaves the list unchanged |
| ApiClient.Swap | src/api/client.ts:75-100 | exchanging two neighbouring ads changes only those two cells |
| ApiClient.InsertedAt | src/api/client.ts:75-100 | an array whose prefix was shifted right by one past the insertion point, with the new ad written there, holds the reference insertion of that ad into the prefix |
| ApiClient.InsertAt | src/api/client.ts:75-100 | one insertion step leaves the first `i + 1` cells holding the reference insertion of the `i`-th ad into the cells before it, and touches nothing after it |
| ApiClient.SortAds | src/api/client.ts:74-101 | the array ends up holding the stable sort of its old contents, so the properties proved of the stable sort (order, permutation, ties kept, unknown key is the identity) hold of it |
| ApiClient.OrderedFacts | src/api/client.ts:74-101 | the list the page is cut from holds exactly the filtered ads; with a `sortBy` their keys are non-increasing for `desc` and non-decreasing otherwise; without a `sortBy`, or with an unknown one, it is the filtered list in server order |
| ApiClient.ListPage | src/api/client.ts:49-110 | after the server's answer, the list the page is cut from is the filtered list, stably sorted when a `sortBy` is given; the page is cut from it, and `total` counts the filtered ads |
| ApiClient.SliceWindowBound | src/api/client.ts:108 | `slice(k, k + l)` with `l >= 0` returns at most `l` elements |
| ApiClient.PageAtMostLimit | src/api/client.ts:104-108 | a page holds at most `limit` ads |
| ApiClient.PageWindow | src/api/client.ts:104-108 | for a positive page and limit, the page is `filtered[(page-1)*limit .. (page-1)*limit+limit)` clipped to the list |
| ApiClient.EveryAdOnItsPage | src/api/client.ts:104-108 | the ad at position `i` appears on page `i / limit + 1`, at position `i % limit` |
| ApiClient.DistinctFromMembers | src/api/client.ts:151-153 | deduplication keeps exactly the values not already seen |
| ApiClient.DistinctFromNoRepeats | src/api/client.ts:151-153 | deduplication yields no value twice |
| ApiClient.DistinctFromOrder | src/api/client.ts:151-153 | deduplication lists values in order of first occurrence |
| ApiClient.CategoriesFacts | src/api/client.ts:151-153 | `getCategories` lists every category of the answer, and only those, each once, in order of first occurrence |
| ApiClient.Client.constructor | src/api/client.ts:6 | the registry starts empty |
| ApiClient.Client.CancelRequest | src/api/client.ts:17-23 | a present slot's handle is cancelled and the slot removed; an absent slot changes nothing |
| ApiClient.Client.CreateCancelToken | src/api/client.ts:25-29 | a fresh handle is stored under the slot, replacing any handle there, and nothing is cancelled |
| ApiClient.Client.GetAds | src/api/client.ts:31-114 | on success: `total` is the filtered count, `data` is the page cut from the stable sort of the filtered list when a `sortBy` is given, else from the filtered list itself; the sorted list is a permutation ordered by the key in the requested direction; on failure the error is passed on; either way the `getAds` slot is gone afterwards |
| ApiClient.Client.GetCategories | src/api/client.ts:145-158 | returns the deduplicated categories or the error, and removes the `getCategories` slot either way |
| Gateway.ModerationGateway.Send | src/pages/AdsList.tsx:185 | each request is appended to the log and succeeds unless its log position is one that fails |
| AdsList.Get | src/pages/AdsList.tsx:56-63 | `get(name)` is absent exactly when no pair has that name, and is otherwise the first value |
| AdsList.DeleteValues | src/pages/AdsList.tsx:103 | `delete(name)` removes every value of that name and leaves other names alone |
| AdsList.SetValues | src/pages/AdsList.tsx:105 | after `set(name, v)` the name has the single value `v`, other names keep theirs |
| AdsList.SetKeepsOthers | src/pages/AdsList.tsx:105 | `set` disturbs no other pair: deleting the name afterwards gives the same list as deleting it before |
| AdsList.DeleteIdempotent | src/pages/AdsList.tsx:103 | deleting a name twice is deleting it once |
| AdsList.LookupPair | src/pages/AdsList.tsx:101 | with two entries in the record, the later entry decides a name |
| AdsList.UpdateParams | src/pages/AdsList.tsx:99-113 | the `forEach` loop plus the page reset computes `Updated` |
| AdsList.ApplyEntriesValues | src/pages/AdsList.tsx:100-107 | a name the record gives `undefined` or `''` is deleted, a name it gives a value holds exactly that value, other names are unchanged |
| AdsList.UpdatedValues | src/pages/AdsList.tsx:99-113 | as `ApplyEntriesValues`, and `page` is `'1'` when the page is reset and the record has no `page` |
| AdsList.UpdatedGet | src/pages/AdsList.tsx:99-113 | the same, as read back by `get` |
| AdsList.DecodeDefaults | src/pages/AdsList.tsx:56-63 | `status` is the comma split or `[]`; `sortBy` defaults to `date`, `sortOrder` to `desc`; `page` is never 0, is 1 when missing, zero or non-numeric, and is the number otherwise |
| AdsList.PageOfTen | src/pages/AdsList.tsx:70-83 | the list page asks for pages of 10: at most 10 ads shown; page `n` starts at `(n-1)*10` (page 0 is read as page 1), and a positive page is the next ten ads from there, fewer at the end of the list |
| AdsList.ResetPageIsOne | src/pages/AdsList.tsx:109-111 | any update without a `page` entry puts the list on page 1 |
| AdsList.StatusChangeRoundTrip | src/pages/AdsList.tsx:115-117 | the statuses chosen read back as the status filter, in order, and the page resets |
| AdsList.CategoryChangeRoundTrip | src/pages/AdsList.tsx:119-121 | the category chosen reads back; the empty choice clears it; the page resets |
| AdsList.PriceRoundTrip | src/pages/AdsList.tsx:123-128 | a price bound reads back as the number entered; 0 and `null` remove it |
| AdsList.PriceRangeChangeRoundTrip | src/pages/AdsList.tsx:123-128 | both bounds read back that way, and the page resets |
| AdsList.SearchChangeRoundTrip | src/pages/AdsList.tsx:130-132 | the search text reads back; the page resets |
| AdsList.SortChangeToggles | src/pages/AdsList.tsx:134-141 | the current key flips `asc` to `desc` and anything else to `asc`; another key sorts by it, descending; the page resets |
| AdsList.PageChangeOnlyPage | src/pages/AdsList.tsx:488 | turning the page changes no other parameter and reads back the chosen page |
| AdsList.ResetFiltersDefaults | src/pages/AdsList.tsx:143-146 | after a reset the query state is all defaults and the selection is empty |
| AdsList.ObserveSettles | src/pages/AdsList.tsx:90-97 | re-running the effect on its own result changes nothing |
| AdsList.ObserveReports | src/pages/AdsList.tsx:90-97 | the last count becomes the total (a missing total changes nothing); the reported count becomes the difference exactly when the total exceeds a positive last count, and stays as it was otherwise |
| AdsList.ObserveAcrossFilterChange | src/pages/AdsList.tsx:90-97 | as written, a filter change from 5 matches to 20 matches announces 15 new ads |
| AdsList.ObserveForReportsSameFilterOnly | src/pages/AdsList.tsx:90-97 | corrected counter: a total under the same filter that exceeds a positive last count is reported as the difference, any other total under the same filter leaves the count as it was, a filter change resets it to 0, and a missing total changes nothing |
| AdsList.ObserveForAcrossFilterChange | src/pages/AdsList.tsx:90-97 | corrected counter: the same scenario announces nothing |
| AdsList.Dismiss | src/pages/AdsList.tsx:254-257 | the "Обновить" button clears the count and keeps the last count |
| AdsList.ObserveAllKeepsAlarm | src/pages/AdsList.tsx:90-97 | once raised, the count never returns to 0 through the effect, whatever totals follow: only the button clears it |
| AdsList.ObserveAllReportsGrowth | src/pages/AdsList.tsx:90-97 | after any run of totals the count is the starting one or the growth of one total in the run over the last count before it |
| AdsList.DismissThenObserve | src/pages/AdsList.tsx:90-97 | after the button, the count is 0 or the growth of a total observed since the dismissal |
| AdsList.DismissFor | src/pages/AdsList.tsx:254-257 | corrected counter: the button clears the count and keeps the filter and the last count |
| AdsList.DismissForThenObserve | src/pages/AdsList.tsx:90-97 | corrected counter: after the button, the next total reports exactly its growth under the same filter, and 0 otherwise |
| AdsList.RemoveAllFacts | src/pages/AdsList.tsx:178 | unchecking removes every occurrence of the id and keeps the other ids, with their counts, in order |
| AdsList.SelectItemFacts | src/pages/AdsList.tsx:174-180 | checking appends the id without deduplicating; unchecking removes all its occurrences and nothing else |
| AdsList.CheckThenUncheck | src/pages/AdsList.tsx:174-180 | checking and then unchecking an unselected id restores the selection |
| AdsList.RemoveAllAppend | src/pages/AdsList.tsx:174-180 | unchecking an id just checked undoes the append |
| AdsList.SaveFilterFacts | src/pages/AdsList.tsx:148-159 | a set is saved exactly when the name entered is not blank; it is appended with the trimmed, non-blank name and the current parameters |
| AdsList.SaveThenLoad | src/pages/AdsList.tsx:161-165 | loading the set just saved restores the query state in effect when it was saved |
| AdsList.DeleteAtRemovesOne | src/pages/AdsList.tsx:167-172 | deleting index `i` removes exactly that entry and keeps the others in order; any other index deletes nothing |
| AdsList.SaveThenDelete | src/pages/AdsList.tsx:148-172 | saving and then deleting the new last entry restores the saved sets |
| AdsList.Attempts | src/pages/AdsList.tsx:184-186 | a sequential loop sends at most as many requests as there are ids |
| AdsList.AttemptsStopAtFirstFailure | src/pages/AdsList.tsx:183-192 | without a failure every id is sent; otherwise the loop stops right after the first failing request |
| AdsList.AttemptsAfterSuccesses | src/pages/AdsList.tsx:184-186 | requests that succeed do not stop the loop |
| AdsList.BulkModerate | src/pages/AdsList.tsx:182-206 | one approve (or reject with the bulk reason and comment) per selected id, in order, up to and including the first failure; full success clears the selection and refetches, a failure keeps the selection |
| AdDetail.FindLabel | src/pages/AdDetail.tsx:145 | `find(...)?.label` is absent exactly when no reason has the id, and is otherwise the label of the first reason with that id |
| AdDetail.ReasonLabels | src/pages/AdDetail.tsx:144-145 | each known id is sent as its label; an unknown id is sent as the comment |
| AdDetail.RejectRules | src/pages/AdDetail.tsx:132-155 | a rejection is sent exactly when a reason is chosen, `other` has a non-blank comment, and the ad is loaded; it carries the label and the comment, which is left out when empty |
| AdDetail.InvalidationScope | src/pages/AdDetail.tsx:73-78 | after a moderation succeeds, a query is stale exactly when its key starts with `['ad', adId]`, `['ads']`, `['summaryStats']`, `['activityChart']`, `['decisionsChart']` or `['categoriesChart']` |
| AdDetail.InvalidationExamples | src/pages/AdDetail.tsx:90-95 | every ads list (including `['ads','all']`) and the ad itself go stale; another ad and the categories do not |
| AdDetail.QueryClient.constructor | src/pages/AdDetail.tsx:52 | no query has been invalidated yet |
| AdDetail.QueryClient.InvalidateQueries | src/pages/AdDetail.tsx:73 | one prefix is appended to the invalidation log |
| AdDetail.QueryClient.OnModerationSuccess | src/pages/AdDetail.tsx:72-80 | the six prefixes are invalidated, in order |
| AdDetail.DetailPage.constructor | src/pages/AdDetail.tsx:53-57 | the dialog starts closed with empty reason and comment |
| AdDetail.DetailPage.Mutate | src/pages/AdDetail.tsx:103-118 | a mutation sends one request; the six prefixes are invalidated on success only |
| AdDetail.DetailPage.HandleApprove | src/pages/AdDetail.tsx:127-130 | without a loaded ad nothing happens; otherwise one approve is sent and the cache invalidated on success |
| AdDetail.DetailPage.HandleRework | src/pages/AdDetail.tsx:157-163 | without a loaded ad nothing happens; otherwise request-changes is sent with reason and comment `Требуется доработка` |
| AdDetail.DetailPage.OpenRejectModal | src/pages/AdDetail.tsx:53 | the dialog opens, keeping the reason and comment |
| AdDetail.DetailPage.HandleReject | src/pages/AdDetail.tsx:132-155 | the outcome is `DecideReject` of the dialog state; a refused rejection changes nothing; a sent one logs one reject request, invalidates on success, and closes and clears the dialog |
| AdDetail.DetailPage.SendRejection | src/pages/AdDetail.tsx:147-154 | the rejection is sent, then the dialog is closed and cleared whatever the outcome |
| AdDetail.FindIndex | src/pages/AdDetail.tsx:120 | `findIndex` returns the first position with the id, or -1 exactly when there is none |
| AdDetail.NeighboursFacts | src/pages/AdDetail.tsx:120-125 | there is a previous ad exactly when the ad is found after position 0, and a next ad exactly when it is found before the last position; a missing ad or a list still loading has neither; the first ad has no previous one; the previous ad is another ad of the list, and so is the next one |
| AdDetail.NextThenPrevious | src/pages/AdDetail.tsx:120-125 | in a list with distinct ids, the next ad's previous ad is the current one |
| AdDetail.AllAdsIsServerOrder | src/pages/AdDetail.tsx:65-68 | the full list is the server's list unfiltered and unsorted, cut to its first 1000 ads |
| AdDetail.StatusMappings | src/pages/AdDetail.tsx:218-242 | an action has the `default` colour exactly when its text is the action itself; none of the three history actions gets the `default` colour; any other string gets it and is shown as itself |
| Hotkeys.KeyToCodeTable | src/hooks/useHotkeys.ts:23-50 | the table maps exactly the 26 lower-case letters, each to `Key` plus the upper-case letter |
| Hotkeys.HandleKeyDown | src/hooks/useHotkeys.ts:66-104 | when enabled, the handlers that run are exactly the shortcuts that fire, each once, in configuration order; `preventDefault` is called exactly when one runs; when disabled none run |
| Hotkeys.LetterMatchesByCode | src/hooks/useHotkeys.ts:77-79 | a letter shortcut (either case) matches exactly the events whose code is that letter's key code |
| Hotkeys.LetterIgnoresCharacter | src/hooks/useHotkeys.ts:77-79 | two events with the same code, modifiers and target trigger the same letter shortcuts, whatever character the layout produces |
| Hotkeys.OtherKeyMatchesByCharacter | src/hooks/useHotkeys.ts:80-83 | any other shortcut matches exactly when the event's character equals it after lower-casing |
| Hotkeys.ModifiersExact | src/hooks/useHotkeys.ts:85-87 | each of Ctrl, Shift and Alt must be down exactly when the shortcut asks for it |
| Hotkeys.EditableOnlySlash | src/hooks/useHotkeys.ts:90-97 | in an INPUT, a TEXTAREA or an editable element only the `/` shortcut can fire, and it fires on its usual rule |
| Hotkeys.NoCodeNoLetter | src/hooks/useHotkeys.ts:77-79 | an event with a character but no code never triggers a letter shortcut |
| Placeholder.DisplayTextFacts | src/utils/placeholder.ts:19 | a caption of at most 30 characters is kept; a longer one becomes its first 30 characters and `...`, 33 characters in all |
| Placeholder.ReplaceAll | src/utils/placeholder.ts:24-28 | replacing a character the string does not contain changes nothing |
| Placeholder.ReplaceAllAppend | src/utils/placeholder.ts:24-28 | a global replace of one character works piecewise on a concatenation |
| Placeholder.EscapeXmlChar | src/utils/placeholder.ts:22-29 | on one character the chain yields its entity (for `&`, `<`, `>`, `"`, `'`) or the character |
| Placeholder.EscapeXmlIsEscapeEach | src/utils/placeholder.ts:22-29 | because `&` is replaced first, the chain equals escaping each character once: nothing is escaped twice |
| Placeholder.EscapeXmlAppend | src/utils/placeholder.ts:22-29 | escaping works piecewise on a concatenation |
| Placeholder.EscapeXmlIdentity | src/utils/placeholder.ts:22-29 | a string without the five special characters is unchanged |
| Placeholder.EscapeXmlWellFormed | src/utils/placeholder.ts:22-29 | the output has no raw `<`, `>`, `"` or `'`, and every `&` in it starts one of the five entities |
| Placeholder.UnescapeEscapeXml | src/utils/placeholder.ts:22-29 | unescaping the output of `escapeXml` recovers its input |
| Placeholder.Utf8 | src/utils/placeholder.ts:38 | a character's UTF-8 form has one to four bytes |
| Placeholder.EncodeUriComponentSafe | src/utils/placeholder.ts:38 | `encodeURIComponent` output contains only unreserved characters and `%` |
| Placeholder.PercentBytesSafe | src/utils/placeholder.ts:38 | percent-encoding gives three characters per byte: `%` at every third position and hexadecimal digits in between |
| Placeholder.HexRoundTrip | src/utils/placeholder.ts:38 | the two hex digits of a byte read back as that byte |
| Placeholder.CodePointAt | src/utils/placeholder.ts:38 | decoding accepts only Unicode scalar values: at most 0x10FFFF, no surrogates |
| Placeholder.Utf8Decodes | src/utils/placeholder.ts:38 | a character's UTF-8 bytes have a valid lead byte and continuation bytes that reassemble the character |
| Placeholder.DecodeEncodeChar | src/utils/placeholder.ts:38 | decoding the encoding of one character yields that character and continues with the rest |
| Placeholder.DecodeEncode | src/utils/placeholder.ts:38 | `decodeURIComponent(encodeURIComponent(s)) === s` for every string of scalar values |
| Placeholder.SvgStartStates | src/utils/placeholder.ts:32 | the root element carries the `width` and `height` attributes verbatim |
| Placeholder.RectElementStates | src/utils/placeholder.ts:33 | the background rectangle carries the background colour |
| Placeholder.TextElementStates | src/utils/placeholder.ts:34 | the text element carries the text colour, is centred, and holds the caption |
| Placeholder.SvgEmbeds | src/utils/placeholder.ts:32-35 | the SVG embeds width, height, background and text colour verbatim, with the truncated, escaped caption as the text element's content |
| Placeholder.GeneratePlaceholderShape | src/utils/placeholder.ts:11-38 | the result is the data-URI prefix followed by characters that are unreserved or `%`, and it decodes back to the SVG; colours default to `#f0f0f0` and `#999999` |

## Left out

- The network:
  - The axios transport, HTTP and the request parameters sent to the server are not modelled. The server's answer is a parameter of `GetAds` and `GetCategories` (`Success` with the ads, or `Failure`).
  - The asynchronous side of cancellation (abort delivery, late results) is concurrency. A cancel handle is a value, and cancelling it is recorded in `cancelCalls`.
- The other client methods: `getAdById`, `updateAd` and `getStatistics` in `src/api/client.ts` serve other pages. They follow the same slot pattern as the methods modelled.
- The query library:
  - TanStack Query caching, `refetchInterval` polling and `retry` are library configuration.
  - Invalidation is modelled only as the log of key prefixes, plus which keys a prefix covers.
  - `refetch` after a bulk action is a returned flag.
  - The refetch the "Обновить" button starts is not modelled as such. Its answer is the next total that `AdsList.Observe` sees.
- Browser side effects:
  - `localStorage` persistence of saved sets and JSON encoding;
  - `message` toasts and their texts;
  - `navigate`;
  - window listener registration;
  - `prompt` (its answer is a parameter).
- `URLSearchParams` serialisation: saved sets store the parameter list itself, not `searchParams.toString()`. `SaveThenLoad` therefore does not cover the `toString`/parse round trip.
- `Number()`: fractions, exponents, hex literals, `Infinity` and float prices are not modelled. Prices and timestamps are integers.
- Placeholder sizes: `width` and `height` are integers, written with `String(n)` (`src/utils/placeholder.ts:32`). A fractional size, which the template would print with its decimals, is not modelled.
- `toLowerCase` and `toUpperCase` map ASCII letters only. Other scripts are left unchanged.
- String length: JavaScript counts UTF-16 code units, the model counts Unicode characters. The two differ only for characters outside the Basic Multilingual Plane, such as emoji. The source has a crash there that the model does not represent:
  - When such a character sits across position 30 of a long title, `substring(0, 30)` (`src/utils/placeholder.ts:19`) keeps only its high surrogate.
  - `encodeURIComponent` (`src/utils/placeholder.ts:38`) then throws `URIError` on the lone surrogate.
  - That error escapes `generatePlaceholder`, so rendering the ad card (`src/pages/AdsList.tsx:438`) or the detail gallery (`src/pages/AdDetail.tsx:274`) fails.
  - `Placeholder.DisplayText` never cuts inside a character, and `Placeholder.EncodeUriComponent` is total, so the model has no such error path.
- `ApiClient.SortAds`: the date key is an integer timestamp standing for `new Date(createdAt).getTime()`. Invalid dates (NaN comparisons) are not modelled.
- `ApiClient.PageAtMostLimit`: states the bound only for a non-negative limit. A negative `limit` makes `slice` count from the end and is not covered.
- `AdsList.SortChangeToggles`: requires a non-empty key. The sort control only offers the three named keys, and an empty key would read back as the default `date`.
- The shortcut lists registered by the pages and their handlers (`useHotkeys` calls in `src/pages/AdsList.tsx` and `src/pages/AdDetail.tsx`) are not modelled. They are configuration: a handler is named by its position.
- Properties `keyToCodeMap` would inherit from `Object.prototype` (such as `constructor`) are not modelled. The table is a finite map of the 26 letters.
- The hook's test that fires a letter event with `key` but no `code` (`src/hooks/__tests__/useHotkeys.test.ts:26`) contradicts code-based matching. The model follows the hook, and `Hotkeys.NoCodeNoLetter` states the consequence.
- The client tests (`src/api/__tests__/client.test.ts`) describe a different API. Properties are taken from `src/api/client.ts`.
- Bulk moderation stops at the first failing request, as the code's `try` around the whole loop does. The model keeps that behaviour (`AdsList.BulkModerate`). The ads approved before the failure stay in the selection, so running the action again sends them again. Per-ad failure reports are not modelled, because the source has none.
- Overlapping requests for one slot: `createCancelToken` (`src/api/client.ts:25-29`) replaces a pending handle without cancelling it, as `ApiClient.Client.CreateCancelToken` states. A second `getAds` started before the first finished therefore leaves the first one out of reach of `cancelRequest`, and the first one's `finally` removes the second one's handle. Interleaved requests are concurrency and are not modelled.
- Pages and components outside the core are not part of this model: `src/pages/Statistics.tsx`, `src/hooks/useTheme.ts`, `src/App.tsx`, `src/components/AppHeader.tsx` and `src/main.tsx`. They are rendering, theme persistence and routing.

## Findings

| source | as written | input that shows it | evidently intended | confidence | as-written member | corrected member |
|---|---|---|---|---|---|---|
| src/pages/AdsList.tsx:90-97 | the new-ads effect compares each total with the last total seen, whichever filter produced it | filter by `approved` (total 5), then clear the filter (total 20): the page announces 15 new ads, although none arrived | a change of filter restarts the count; only growth of the same filter's total is reported | medium, not executed | AdsList.ObserveAcrossFilterChange | AdsList.ObserveForReportsSameFilterOnly |
