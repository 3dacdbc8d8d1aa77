# OSBP-Mobile core, modelled in Dafny

OSBP-Mobile is a mobile web app for the small-business office of a
procurement agency. A single data hook fetches its data once: nine JSON
collections and a forecast spreadsheet. The app then shows screens over that
data: dashboard metrics, contracts and open RFPs, small-business
specialists (contacts), procurement forecasts, NAICS code groups and NAICS
registry details, a vendor database, events, a live event guide, and saved
items (bookmarks).

This project models the logic of those screens and of the two hooks
(`useData`, `useBookmarks`) and proves what the code promises. The
rendering is left out. Each core file has its own Dafny module:

| module | file |
|---|---|
| `DataLoad` | `hooks/useData.ts` — lookups, tile and contact processing, loading/error state |
| `Bookmarks` | `hooks/useBookmarks.ts` — the bookmark store (a class), load from storage |
| `BookmarksScreen` | `components/BookmarksScreen.tsx` |
| `ContractsScreen` | `components/ContractsScreen.tsx` |
| `ContactsScreen` | `components/ContactsScreen.tsx` (including the vCard) |
| `Forecasts` | `components/ForecastsScreen.tsx` (fuzzy headers, POC matcher, facets, filter) |
| `NaicsSearch` | `components/NaicsSearchScreen.tsx` |
| `NaicsDetail` | `components/NaicsDetail.tsx` (a class for the screen state) |
| `VendorSearch` | `components/NvdbSearchScreen.tsx` (a class for the screen state) |
| `Dashboard` | `components/DashboardScreen.tsx` |
| `Events` | `components/EventsScreen.tsx` |
| `EventGuide` | `components/EventGuideScreen.tsx` (a class for the screen state) |

The JavaScript semantics that the code relies on live in shared modules:

- `Strings`: `toLowerCase`, `trim`, `includes`, `indexOf`, `split`, `String(n)`, and the default string sort order.
- `Seqs`: `filter`, `findIndex`/`find`, and counting.
- `StableSort`: `Array.prototype.sort` with a numeric comparator. The sort is stable, as ECMAScript has required since 2019.
- `JsObjects`: plain objects used as dictionaries, with insertion order and the key order of `Object.entries` (ECMA-262, section 10.1.11.1, OrdinaryOwnPropertyKeys).
- `Loose`: the loosely typed spreadsheet rows.
- `FilterOptions`: the sorted `Set`s behind the filter drop-downs.

The screens' state updates are modelled as classes: the bookmark store, the
data hook's state, the NAICS detail view, the vendor search view and the
event guide. Each `setState` becomes a method with a `modifies` clause. The
loops in the source become methods with loop invariants, each proved equal
to a specification function. These are the grouping and counting
`forEach`es, the option-set loops, `getValue`, `getField` and `pushDelay`'s
`map`. Everything else is a function, with lemmas that relate it to an
independent statement of what it means.

Where a comment and the code disagree, the code is followed. The NAICS search
screen keys its groups by the trimmed `naics` field as a whole
(`components/NaicsSearchScreen.tsx:35`). The comment there mentions
"Code - Description" fields, but no leading code is extracted.

## Model

| member | source | states |
|---|---|---|
| DataLoad.MapFromEntriesMeaning | hooks/useData.ts:55-56 | `new Map(entries)` has exactly the keys of the entries, and each key maps to the value of its last entry |
| DataLoad.CentersMapFinds | hooks/useData.ts:55 | a centre id resolves to the name of its last entry in `centers.json`: a later entry with the same id wins |
| DataLoad.CentersMapMisses | hooks/useData.ts:55 | an id missing from `centers.json` is not in the lookup |
| DataLoad.LastSegmentIsFileName | hooks/useData.ts:69 | `split('/').pop()` is the part of the path after its last `/` (the whole path when there is none) |
| DataLoad.FileNameUnique | hooks/useData.ts:69 | a path has only one such file name |
| DataLoad.ImageUrl | hooks/useData.ts:69-70 | the image URL is empty exactly when the path is empty or ends in `/`; otherwise it starts with the CDN image prefix |
| DataLoad.CenterName | hooks/useData.ts:108 | a contact's centre is the looked-up name, or `'Unknown Center'` exactly when the id is missing or its name is empty or already `'Unknown Center'`; it is never empty |
| DataLoad.ProcessContact | hooks/useData.ts:99-117 | a processed contact is the contact with its photo rewritten to a CDN URL, its centre name attached, and no associated contracts |
| DataLoad.ProcessContacts | hooks/useData.ts:99-117 | the contacts are processed one for one, in order |
| DataLoad.ScreenFor | hooks/useData.ts:59-64 | exactly the four links `/contracts`, `/sbs`, `/events`, `/top-stories` open a screen |
| DataLoad.TileTarget | hooks/useData.ts:68-86 | a tile opens node content or a screen, never both; it opens content only when it names a node that exists under the trimmed id |
| DataLoad.DashboardOrder | hooks/useData.ts:66-67 | one tile per item, ordered by weight, with equal weights in input order |
| DataLoad.StoryBody | hooks/useData.ts:92 | a story's body is its node's non-empty body, else the fixed "could not be found" text; it is never empty |
| DataLoad.ProcessTopStories | hooks/useData.ts:90-93 | the top stories are processed one for one, each carrying its body |
| DataLoad.FetchFailure | hooks/useData.ts:21 | the failure message is `Failed to fetch ` followed by the collection key |
| DataLoad.ErrorText | hooks/useData.ts:129 | the error shown is the exception's message, or the fixed text when that is empty; it is never empty |
| DataLoad.FetchFailureShown | hooks/useData.ts:21-129 | a failed collection fetch surfaces its own message, which names the collection |
| DataLoad.DataState.constructor | hooks/useData.ts:8-10 | no data, loading, no error |
| DataLoad.DataState.FetchData | hooks/useData.ts:12-134 | loading ends; success publishes the processed data with no error (an empty sheet when the forecast fetch failed); failure keeps the old data and sets the error text |
| Bookmarks.BookmarkStore.constructor | hooks/useBookmarks.ts:28 | the store starts with the loaded list |
| Bookmarks.BookmarkStore.AddBookmark | hooks/useBookmarks.ts:38-46 | adds the pair unless the id is empty or the pair is present; keeps the list duplicate-free; afterwards a non-empty id is bookmarked |
| Bookmarks.BookmarkStore.RemoveBookmark | hooks/useBookmarks.ts:48-53 | removes every copy of the pair, keeps the list duplicate-free, and afterwards the pair is not bookmarked |
| Bookmarks.BookmarkStore.Toggle | components/BookmarksScreen.tsx:62-68 | the screens' toggle: the list becomes `Toggled`, and for a non-empty id whether it is bookmarked flips |
| Bookmarks.AddedProperties | hooks/useBookmarks.ts:38-46 | adding a present pair or an empty id changes nothing; otherwise the pair is appended; the list grows by at most one and stays duplicate-free |
| Bookmarks.RemovedProperties | hooks/useBookmarks.ts:48-53 | removing drops exactly the matching entries and keeps the others in order |
| Bookmarks.ToggleTwice | components/BookmarksScreen.tsx:62-68 | toggling twice restores whether the pair is bookmarked |
| Bookmarks.AddTwiceSameSize | hooks/useBookmarks.ts:41-43 | adding the same pair twice gives the list the first add gave |
| Bookmarks.ToBookmarks | hooks/useBookmarks.ts:17 | each valid stored item becomes the bookmark with its id and type, in order |
| Bookmarks.LoadBookmarks | hooks/useBookmarks.ts:6-24 | a stored, parseable JSON array whose every item is a valid bookmark loads as those bookmarks, element by element; any other stored value (missing, empty, unparseable, not an array, an invalid item) loads as the empty list |
| Bookmarks.LoadRejectsInvalid | hooks/useBookmarks.ts:12-18 | one invalid element rejects the whole stored list |
| Bookmarks.LoadKeepsDuplicates | hooks/useBookmarks.ts:12-17 | a valid stored list loads one bookmark per item, so two equal stored items give two equal bookmarks: duplicates are kept |
| BookmarksScreen.IdsOf | components/BookmarksScreen.tsx:36-41 | the id set holds exactly the ids bookmarked with the given type |
| BookmarksScreen.BookmarkedContactsMeaning | components/BookmarksScreen.tsx:35-38 | a contact is listed iff its e-mail is the id of a Contact bookmark; the list keeps the input order |
| BookmarksScreen.BookmarkedContractsMeaning | components/BookmarksScreen.tsx:40-43 | a contract is listed iff its number is the id of a Contract bookmark; the list keeps the input order |
| BookmarksScreen.OtherTypesIgnored | components/BookmarksScreen.tsx:36-41 | a bookmark of another type changes neither list |
| BookmarksScreen.OrderIndependent | components/BookmarksScreen.tsx:35-43 | bookmark lists with the same members, in any order or repetition, give the same screen |
| ContractsScreen.Partition | components/ContractsScreen.tsx:55-66 | the `forEach` puts exactly the `is_rfp === true` items on the RFP list and the rest on the contract list, in order |
| ContractsScreen.PartitionMeaning | components/ContractsScreen.tsx:55-66 | the two lists together hold every item exactly once |
| ContractsScreen.UniqueOptions | components/ContractsScreen.tsx:68-79 | the option lists are sorted, duplicate-free, and hold exactly the option sets |
| ContractsScreen.CenterOptionsMeaning | components/ContractsScreen.tsx:72 | a centre is an option iff some item has it and it is neither empty nor `'Unknown Center'` |
| ContractsScreen.TypeOptionsMeaning | components/ContractsScreen.tsx:73 | a type is an option iff some item has it and it is not empty |
| ContractsScreen.FilterItemsMeaning | components/ContractsScreen.tsx:84-96 | an item is kept iff it passes the text, centre and type tests; the order is kept |
| ContractsScreen.FilterItemsUnfiltered | components/ContractsScreen.tsx:84-96 | no search and both drop-downs on `'all'` keep every item |
| ContractsScreen.HandleToggleBookmark | components/ContractsScreen.tsx:101-108 | an empty id changes nothing; otherwise the contract's bookmark flips |
| ContactsScreen.UniqueOptions | components/ContactsScreen.tsx:24-35 | the centre and position lists are sorted, duplicate-free, and hold exactly the option sets |
| ContactsScreen.CenterOptionsMeaning | components/ContactsScreen.tsx:28 | a centre is an option iff some contact has it and it is neither empty nor `'Unknown Center'` |
| ContactsScreen.PositionOptionsMeaning | components/ContactsScreen.tsx:29 | a position is an option iff some contact has it and it is not empty |
| ContactsScreen.FilteredContactsMeaning | components/ContactsScreen.tsx:37-49 | a contact is kept iff it passes the name/title search, centre and position tests; the order is kept |
| ContactsScreen.FilteredContactsUnfiltered | components/ContactsScreen.tsx:37-49 | no search and both drop-downs on `'all'` keep every contact |
| ContactsScreen.HandleToggleBookmark | components/ContactsScreen.tsx:51-58 | an empty e-mail changes nothing; otherwise the contact's bookmark flips |
| ContactsScreen.VCardReadsBack | components/ContactsScreen.tsx:77-88 | when no value holds a line feed, the vCard splits into exactly eleven lines: BEGIN, VERSION, one property per field carrying that field's value, END |
| ContactsScreen.Underscored | components/ContactsScreen.tsx:94 | `replace(/\s/g, '_')` replaces each whitespace character, and only those |
| ContactsScreen.FileName | components/ContactsScreen.tsx:94 | the download name is the contact name with every whitespace character replaced by `_` and every other character kept in place, followed by `.vcf` |
| Forecasts.Aliases | components/ForecastsScreen.tsx:17-26 | every field has at least one candidate header |
| Forecasts.NormalizeKey | components/ForecastsScreen.tsx:29 | the normalised header holds only `[a-z0-9]` and keeps every letter or digit of the lower-cased header |
| Forecasts.NormalizeKeyKeepsOrder | components/ForecastsScreen.tsx:29 | the normalised header is a subsequence of the lower-cased header as long as its count of `[a-z0-9]` characters: exactly those characters, in order |
| Forecasts.NormalizeKeyIdempotent | components/ForecastsScreen.tsx:29 | normalising twice is normalising once |
| Forecasts.FindKey | components/ForecastsScreen.tsx:39-42 | the first header whose normalised form contains the target, or none when no header does |
| Forecasts.GetValue | components/ForecastsScreen.tsx:32-49 | the alias loop returns what `GetValueSpec` gives |
| Forecasts.GetValueMeaning | components/ForecastsScreen.tsx:32-49 | there is no value iff no alias yields one; a value is the value of an alias that yields one |
| Forecasts.GetValueFromRow | components/ForecastsScreen.tsx:44-45 | a returned value is non-null and sits under a non-empty header of the row |
| Forecasts.FirstYieldingAliasWins | components/ForecastsScreen.tsx:35-46 | the first alias that yields a value decides the result |
| Forecasts.FirstMatchingHeaderOnly | components/ForecastsScreen.tsx:39-44 | when the first matching header holds null, a later matching header is not consulted for that alias |
| Forecasts.CleanChars | components/ForecastsScreen.tsx:67 | every character outside `[a-z0-9\s]` becomes a space, one for one |
| Forecasts.CollapseChars | components/ForecastsScreen.tsx:67 | collapsing keeps every non-space character, all of them and in order, and writes whitespace only as a space |
| Forecasts.CollapseSingleSpaces | components/ForecastsScreen.tsx:67 | after `replace(/\s+/g, ' ')`, no two spaces are adjacent |
| Forecasts.CollapseWord | components/ForecastsScreen.tsx:67 | a stretch without whitespace passes through `replace(/\s+/g, ' ')` unchanged, whatever follows it |
| Forecasts.CollapseRun | components/ForecastsScreen.tsx:67 | a whole run of whitespace, up to the next non-space character, becomes a single space |
| Forecasts.CollapseSeparates | components/ForecastsScreen.tsx:67 | a word followed by a maximal whitespace run collapses to the word, one space, then the collapse of the rest; with `CollapseWord` this fixes `Collapse` on every input |
| Forecasts.NormalizeShape | components/ForecastsScreen.tsx:67 | a normalised name is words of `[a-z0-9]` separated by single spaces, with no space at either end |
| Forecasts.Candidates | components/ForecastsScreen.tsx:74-87 | the candidates are exactly the contacts that pass the substring or token test, in order |
| Forecasts.Longest | components/ForecastsScreen.tsx:89-91 | after the sort by name length, the head is a candidate, and it exists iff there are candidates |
| Forecasts.NoPocNoMatch | components/ForecastsScreen.tsx:64 | no POC name or no contacts means no match |
| Forecasts.MatchedContactMeaning | components/ForecastsScreen.tsx:63-92 | the match is a candidate whose name is as long as any candidate's, and there is no match only when no contact is a candidate |
| Forecasts.LongestOfFilter | components/ForecastsScreen.tsx:74-91 | the head of the length-sorted filter has a maximal name among the contacts that pass |
| Forecasts.BlankNameAlwaysCandidate | components/ForecastsScreen.tsx:78 | a contact whose name normalises to nothing matches any POC, through the substring strategy |
| Forecasts.Facets | components/ForecastsScreen.tsx:157-181 | each of the four option lists is sorted, duplicate-free, and holds exactly the trimmed texts of the listed values (truthy and not `n/a`) |
| Forecasts.FilteredData | components/ForecastsScreen.tsx:184-209 | a row is kept iff it passes the search and the four facet filters; the order is kept |
| Forecasts.FilteredDataUnfiltered | components/ForecastsScreen.tsx:184-209 | no search and every facet on `'all'` keep every row |
| Forecasts.DetailTitle | components/ForecastsScreen.tsx:57 | the detail title is the resolved title field when that is truthy, and otherwise `'N/A'` |
| NaicsSearch.FirstSeen | components/NaicsSearchScreen.tsx:31-41 | the group keys, in creation order, are distinct |
| NaicsSearch.FirstSeenCovers | components/NaicsSearchScreen.tsx:33-39 | every contract with a NAICS field has its trimmed code among the keys |
| NaicsSearch.FirstSeenFromContracts | components/NaicsSearchScreen.tsx:35-37 | every key is the trimmed NAICS of some contract |
| NaicsSearch.GroupByNaics | components/NaicsSearchScreen.tsx:31-41 | the grouping loop builds an object whose keys are the first-seen codes and whose every group is the contracts with that code, in order |
| NaicsSearch.ComputeNaicsGroups | components/NaicsSearchScreen.tsx:30-49 | the memoised computation equals `NaicsGroups` |
| NaicsSearch.EntriesAsGroups | components/NaicsSearchScreen.tsx:43-47 | `Object.entries(...).map(...)` gives the group of each key in `Object.entries` key order |
| NaicsSearch.NaicsGroupsPartition | components/NaicsSearchScreen.tsx:30-49 | the groups partition the contracts with a NAICS field: each group is non-empty and is exactly the contracts with its code, no two groups share a code, and every such contract has a group |
| NaicsSearch.NaicsGroupsAreGroups | components/NaicsSearchScreen.tsx:30-49 | each listed group is non-empty and is exactly the contracts with its code; codes are distinct |
| NaicsSearch.NaicsGroupsCover | components/NaicsSearchScreen.tsx:33-39 | every contract with a NAICS field has a listed group |
| NaicsSearch.NaicsGroupsBySize | components/NaicsSearchScreen.tsx:48 | larger groups come first |
| NaicsSearch.NaicsGroupsTies | components/NaicsSearchScreen.tsx:48 | groups of equal size keep their `Object.entries` order |
| NaicsSearch.NaicsGroupsCount | components/NaicsSearchScreen.tsx:30-49 | the group sizes add up to the number of contracts with a NAICS field |
| NaicsSearch.FilteredGroups | components/NaicsSearchScreen.tsx:51-55 | a group is shown iff the search is empty or its lower-cased code contains the lower-cased search |
| NaicsSearch.EmptySearchKeepsAll | components/NaicsSearchScreen.tsx:52 | the empty-search shortcut agrees with the filter |
| NaicsSearch.FilteredGroupsOrder | components/NaicsSearchScreen.tsx:51-55 | filtering keeps the listed order |
| NaicsSearch.HandleToggleBookmark | components/NaicsSearchScreen.tsx:57-64 | an empty id changes nothing; otherwise the contract's bookmark flips |
| NaicsDetail.SplitExamples | components/NaicsDetail.tsx:62 | the split gives at least one piece, the first piece is a prefix of the text, and no piece holds a `;`, a line feed or the bullet |
| NaicsDetail.ExamplesShape | components/NaicsDetail.tsx:62 | every example is non-empty, trimmed and free of separators |
| NaicsDetail.SplitOfPlain | components/NaicsDetail.tsx:62 | a text without separators splits into itself |
| NaicsDetail.ExamplesOfPlain | components/NaicsDetail.tsx:62 | a text without separators yields its trimmed self as the only example, or nothing when blank |
| NaicsDetail.SplitAtSeparator | components/NaicsDetail.tsx:62 | a separator-free piece followed by `;` or a line feed is cut off as one piece |
| NaicsDetail.SplitAtBullet | components/NaicsDetail.tsx:62 | a separator-free piece followed by the three-character bullet is cut off as one piece |
| NaicsDetail.SplitRoundTrip | components/NaicsDetail.tsx:62 | the split loses nothing: one more piece than cut, and putting each separator back between its pieces gives the text again |
| NaicsDetail.ExamplesSection | components/NaicsDetail.tsx:52-58 | the examples part starts right after the marker; it is all of the rest when no cross-reference marker follows, and otherwise ends exactly where the first one starts |
| NaicsDetail.DetailWithoutMarker | components/NaicsDetail.tsx:41-69 | without the examples marker the description is shown whole and untrimmed, with no examples |
| NaicsDetail.DetailWithMarker | components/NaicsDetail.tsx:48-63 | with the marker, the description is the trimmed text before its first occurrence, and the examples come from the text after it, cut at the first cross-reference |
| NaicsDetail.DetailTitle | components/NaicsDetail.tsx:66 | a blank title falls back to `NAICS <code>` |
| NaicsDetail.BlankDescription | components/NaicsDetail.tsx:41 | a blank description shows the fixed text and no examples |
| NaicsDetail.NaicsDetailView.constructor | components/NaicsDetail.tsx:22-24 | loading, no data, no error |
| NaicsDetail.NaicsDetailView.Load | components/NaicsDetail.tsx:26-80 | loading ends; missing rows give the "not available" error and a missing code the "not found" error, each keeping the old data; a found row publishes its detail record with no error |
| VendorSearch.NaicsCodesHaveNoComma | components/NvdbSearchScreen.tsx:33-34 | the split NAICS codes hold no comma |
| VendorSearch.FilteredMeaning | components/NvdbSearchScreen.tsx:20-53 | a row is kept iff it passes every active filter; the order is kept |
| VendorSearch.NoTermsKeepsAll | components/NvdbSearchScreen.tsx:20-53 | with all four terms empty every row is kept |
| VendorSearch.NaicsListed | components/NvdbSearchScreen.tsx:32-36 | a row whose NAICS cell lists the filter, in any case, among other codes passes the NAICS filter |
| VendorSearch.FieldOf | components/NvdbSearchScreen.tsx:71-76 | the field is `'N/A'` or the cell of a listed header, and never null |
| VendorSearch.FieldOfFirst | components/NvdbSearchScreen.tsx:72-74 | the field is the cell of the first listed header that is present and not null |
| VendorSearch.FieldOfNone | components/NvdbSearchScreen.tsx:75 | when every header is absent or null, the field is `'N/A'` |
| VendorSearch.EmptyStringIsAField | components/NvdbSearchScreen.tsx:73 | an empty-string cell stops the search like any other non-null cell |
| VendorSearch.GetField | components/NvdbSearchScreen.tsx:71-76 | the loop returns `FieldOf` |
| VendorSearch.Chips | components/NvdbSearchScreen.tsx:244-246 | the chips are the trimmed comma pieces, in order, and there are no more of them than there are pieces |
| VendorSearch.ChipsAccount | components/NvdbSearchScreen.tsx:244-250 | the shown chips plus the `+k more` count account for every piece; an expanded card shows all pieces, a collapsed one at most three |
| VendorSearch.ToggledIndex | components/NvdbSearchScreen.tsx:61-69 | toggling flips the membership of that index only |
| VendorSearch.ToggleTwice | components/NvdbSearchScreen.tsx:61-69 | toggling the same card twice restores the set |
| VendorSearch.VendorSearchView.constructor | components/NvdbSearchScreen.tsx:12-18 | empty terms, no expanded cards, a first page of 20 |
| VendorSearch.VendorSearchView.VisibleData | components/NvdbSearchScreen.tsx:55 | the visible rows are the first `visibleCount` filtered rows, or all of them |
| VendorSearch.VendorSearchView.ActiveFiltersCount | components/NvdbSearchScreen.tsx:85 | the count is the number of non-empty filters among NAICS, CAGE and State: at most 3, and 0 exactly when all are empty |
| VendorSearch.VendorSearchView.LoadMore | components/NvdbSearchScreen.tsx:57-59 | one more page of 20; nothing else changes |
| VendorSearch.VendorSearchView.ToggleExpand | components/NvdbSearchScreen.tsx:61-69 | the expanded set is toggled at the index; nothing else changes |
| VendorSearch.VendorSearchView.ClearFilters | components/NvdbSearchScreen.tsx:78-83 | the four terms become empty, no filter is active, and every row is shown |
| VendorSearch.ShowLoadMoreMeaning | components/NvdbSearchScreen.tsx:288 | the Load More button shows exactly when more filtered rows exist than are visible |
| Dashboard.CountsAddUp | components/DashboardScreen.tsx:61-62 | RFPs and awarded contracts add up to all contracts, each counted on the side its `is_rfp` decides |
| Dashboard.KeysSeen | components/DashboardScreen.tsx:66-70 | the counting object's keys are distinct and are exactly the keys of the counted elements |
| Dashboard.TallyOf | components/DashboardScreen.tsx:66-70 | the counting object is well formed and its keys are in creation order |
| Dashboard.TallyCounts | components/DashboardScreen.tsx:66-70 | each key counts exactly its elements, at least one |
| Dashboard.TallySnoc | components/DashboardScreen.tsx:69 | one more element creates its key with count 1, or adds 1 to its count |
| Dashboard.TallySum | components/DashboardScreen.tsx:66-70 | the counts add up to the number of elements |
| Dashboard.Tally | components/DashboardScreen.tsx:67-70 | the `forEach` builds `TallyOf` |
| Dashboard.EntriesListsAll | components/DashboardScreen.tsx:71-94 | `Object.entries` lists each key with its value, and nothing else |
| Dashboard.TopMeaning | components/DashboardScreen.tsx:71-96 | the top list is `n` entries or all of them, in non-increasing count order, drawn from the entries, with distinct keys when the entries have them, and no entry left out counts more than any listed one |
| Dashboard.TopOf | components/DashboardScreen.tsx:71-96 | the top `n` of an object: exactly `n` entries, or all of them when there are fewer; each listed key appears once and carries its count, counts do not increase, and an omitted key counts no more than any listed one |
| Dashboard.CenterCountsMeaning | components/DashboardScreen.tsx:66-70 | every awarded contract is counted under its centre or `'Other'`; keys are never empty; the counts add up to the number of awarded contracts |
| Dashboard.TallyMeaning | components/DashboardScreen.tsx:66-70 | every element's key is in the object, each key counts its elements, and the counts add up |
| Dashboard.PhaseOfMeaning | components/DashboardScreen.tsx:85-87 | a forecast falls in the bucket of its first phase-like column, or in `'Unknown'` without one |
| Dashboard.PhaseCounts | components/DashboardScreen.tsx:82-93 | after the deletes, neither `'undefined'` nor `'N/A'` is a bucket |
| Dashboard.PhaseCountsMeaning | components/DashboardScreen.tsx:82-93 | the buckets are exactly the phases of the forecasts other than `'undefined'` and `'N/A'`, each counting the forecasts in it |
| Dashboard.TopPhases | components/DashboardScreen.tsx:94-96 | the top phases never name `'undefined'` or `'N/A'` |
| Dashboard.ComputeMetrics | components/DashboardScreen.tsx:60-105 | the memoised computation with its counting loops equals `MetricsOf` |
| Dashboard.MetricsMeaning | components/DashboardScreen.tsx:98-103 | the RFP and contract counts add up to all contracts; the forecast count is the number of forecasts; the upcoming count is the length of the upcoming list |
| Events.UpcomingMeaning | components/EventsScreen.tsx:35-37 | the upcoming list holds exactly the events dated at or after now, with their multiplicity, earliest first |
| Events.PastMeaning | components/EventsScreen.tsx:39-41 | the past list holds exactly the events dated before now, with their multiplicity, latest first |
| Events.UpcomingSameTimeOrder | components/EventsScreen.tsx:37 | upcoming events at the same time keep their input order |
| Events.PastSameTimeOrder | components/EventsScreen.tsx:41 | past events at the same time keep their input order |
| Events.EventsSplit | components/EventsScreen.tsx:35-41 | every event with a valid date is in exactly one list; an invalid date is in neither |
| EventGuide.CurrentSessionIn | components/EventGuideScreen.tsx:155 | the current session is one of the sessions, in progress and not over; there is none iff no session is in progress |
| EventGuide.CurrentSessionIsFirst | components/EventGuideScreen.tsx:155 | no earlier session is in progress |
| EventGuide.NeverCurrentAndPast | components/EventGuideScreen.tsx:162-163 | a session card is never both current and past |
| EventGuide.MockAgendaAtMount | components/EventGuideScreen.tsx:10-69 | at mount the keynote is over and the procurement workshop is the current session |
| EventGuide.DelayedMeaning | components/EventGuideScreen.tsx:140-144 | every session moves 15 minutes later, keeps its duration and other fields, and the start order is kept |
| EventGuide.DelayShiftsCurrent | components/EventGuideScreen.tsx:140-155 | after the delay, the current session 15 minutes later is the delayed version of the one current now |
| EventGuide.VotedOptions | components/EventGuideScreen.tsx:132-134 | the options keep their ids and texts, and those with the voted id gain one vote |
| EventGuide.VoteAddsToSum | components/EventGuideScreen.tsx:131-134 | a vote adds one to the option sum for every option carrying the voted id |
| EventGuide.VoteKeepsTotal | components/EventGuideScreen.tsx:129-135 | a balanced poll stays balanced after a vote for an id that exactly one option has |
| EventGuide.MockPollBalanced | components/EventGuideScreen.tsx:71-82 | the mock poll's total, 49, is the sum of its options' votes |
| EventGuide.MyScheduleMeaning | components/EventGuideScreen.tsx:156 | a session is on the personal schedule iff its id is bookmarked as a session; the agenda order is kept |
| EventGuide.ToggleFlipsSchedule | components/EventGuideScreen.tsx:118-156 | toggling a non-empty id puts each session with that id onto the schedule when it was off, and takes it off when it was on |
| EventGuide.EventGuideScreen.constructor | components/EventGuideScreen.tsx:100-104 | no sessions before mount, the mock poll, no vote, no announcement, the agenda tab |
| EventGuide.EventGuideScreen.Mount | components/EventGuideScreen.tsx:108-110 | the sessions become the mock agenda; nothing else changes |
| EventGuide.EventGuideScreen.HandleVote | components/EventGuideScreen.tsx:126-136 | once voted nothing changes; otherwise the vote is recorded and counted |
| EventGuide.EventGuideScreen.PushDelay | components/EventGuideScreen.tsx:139-147 | every session is delayed and the delay notice is shown; nothing else changes |
| EventGuide.EventGuideScreen.PushAnnouncement | components/EventGuideScreen.tsx:149-152 | the lunch reminder is shown; nothing else changes |
| EventGuide.EventGuideScreen.ToggleBookmark | components/EventGuideScreen.tsx:118-124 | the session bookmark flips, with no guard on an empty id |
| EventGuide.EventGuideScreen.DisplaySessions | components/EventGuideScreen.tsx:159 | the whole agenda, except on the My Schedule tab, where it is the agenda sessions whose id is bookmarked as a session, in agenda order |
| FilterOptions.OptionSetSnoc | components/ContractsScreen.tsx:71-74 | one more record adds its option text, if it has one, and nothing else |
| FilterOptions.AddOption | components/ContractsScreen.tsx:72-77 | adding to the sorted option list keeps it sorted and duplicate-free, and adds exactly that text |
| Strings.Lower | components/ContactsScreen.tsx:38 | `toLowerCase` maps each character, keeping the length |
| Strings.LowerIdempotent | components/ContactsScreen.tsx:41 | lower-casing twice is lower-casing once, and leaves no upper-case ASCII letter |
| Strings.Trim | hooks/useData.ts:72 | `trim` keeps the slice between leading and trailing whitespace, and the result neither starts nor ends with whitespace |
| Strings.TrimIdempotent | components/NaicsDetail.tsx:38 | trimming twice is trimming once |
| Strings.ContainsIffOccurs | components/ContactsScreen.tsx:41 | `includes` holds iff the needle occurs at some position |
| Strings.IndexOf | components/NaicsDetail.tsx:48 | `indexOf` gives the first position where the needle occurs, and -1 (`None`) iff it does not occur |
| Strings.Split | hooks/useData.ts:69 | `split` gives at least one piece, and no piece holds the separator |
| Strings.SplitThenJoin | hooks/useData.ts:69 | joining the pieces with the separator gives the text back |
| Strings.JoinThenSplit | components/ContactsScreen.tsx:78-88 | splitting lines joined by a separator they do not contain gives the lines back |
| Strings.LastSegment | hooks/useData.ts:105 | `split('/').pop()` holds no `/` |
| Strings.LastSegmentIsSuffix | hooks/useData.ts:105 | the last segment is a suffix of the path |
| Strings.LastSegmentEmpty | hooks/useData.ts:105-112 | the file name is empty exactly when the path is empty or ends with `/` |
| Strings.LastSegmentBoundary | hooks/useData.ts:105 | the last segment is the whole path or follows a `/` |
| Strings.NatToString | hooks/useData.ts:92 | `String(n)` is non-empty decimal digits without a leading zero |
| Strings.DigitsOfNat | hooks/useData.ts:92 | the decimal digits of `n` read back as `n` |
| Strings.IntToStringInjective | hooks/useData.ts:55-92 | distinct ids give distinct lookup keys |
| Strings.InsertSorted | components/ContractsScreen.tsx:76-77 | inserting into a strictly sorted list keeps it strictly sorted and adds exactly that text |
| Strings.SortedUnique | components/ContractsScreen.tsx:76-77 | two strictly sorted lists with the same elements are equal, so `Array.from(set).sort()` does not depend on insertion order |
| Strings.LessTransitive | components/ContractsScreen.tsx:76 | the default sort order is transitive |
| Strings.LessTotal | components/ContractsScreen.tsx:76 | the default sort order orders any two different strings |
| Seqs.Filter | components/ContactsScreen.tsx:39 | `filter` keeps exactly the elements that pass, and no more elements than the input has |
| Seqs.FilterIsSubseq | components/ContactsScreen.tsx:39 | the filtered list keeps the input order |
| Seqs.FilterPartition | components/ContractsScreen.tsx:58-64 | splitting by a predicate and its negation loses and duplicates nothing |
| Seqs.CountIsFilterLength | components/DashboardScreen.tsx:103 | counting matches is the length of the filter |
| Seqs.FindIndex | components/NaicsDetail.tsx:38 | `find` gives the first element that passes, or none iff no element passes |
| Seqs.FilterHead | components/EventGuideScreen.tsx:155 | the head of a non-empty filter is the first element that passes |
| StableSort.Sort | hooks/useData.ts:67 | sorting is a permutation |
| StableSort.SortSorts | hooks/useData.ts:67 | the result is ordered by key |
| StableSort.SortStable | hooks/useData.ts:67 | elements with equal keys keep their input order |
| StableSort.SortHeadIndex | components/ForecastsScreen.tsx:89-91 | the head of the sorted list is the first input element with the head's key |
| StableSort.SortHeadMinimal | components/ForecastsScreen.tsx:89-91 | no input element has a smaller key than the head |
| JsObjects.Put | components/DashboardScreen.tsx:69 | assignment updates the value; a new key goes to the end of the key order |
| JsObjects.Delete | components/DashboardScreen.tsx:91-92 | `delete` removes the key and its value only, and the remaining keys keep their order |
| JsObjects.EntryOrderShape | components/NaicsSearchScreen.tsx:43 | the `Object.entries` order lists each key once, and integer-like keys come first |
| JsObjects.EntryOrderIsPermutation | components/NaicsSearchScreen.tsx:43 | the `Object.entries` order is a permutation of the insertion order |
| JsObjects.Entries | components/DashboardScreen.tsx:71 | `Object.entries` has one pair per key |
| JsObjects.EntriesOf | components/DashboardScreen.tsx:71 | each entry pairs a key with its value, in key order |
| Loose.Keys | components/DashboardScreen.tsx:85 | the keys of a row, one per column, in column order |
| Loose.Values | components/NvdbSearchScreen.tsx:25 | `Object.values` lists the cells in order |
| Loose.Get | components/NvdbSearchScreen.tsx:73 | `row[key]` is defined iff the row has that header, and then gives a cell under it |
| Loose.FirstTruthy | components/NvdbSearchScreen.tsx:33 | `a \|\| b \|\| ''`: the cell under `a` when truthy, otherwise the cell under `b` when truthy, otherwise the empty string |

## Left out

- Rendering, navigation between screens, share sheets (`navigator.share`), `alert`, Blob downloads, and the Slack and chatbot calls are user-interface or foreign I/O. They are not modelled.
- Network I/O is not modelled. The outcome of the nine JSON fetches is an input to `DataLoad.DataState.FetchData`: either all collections parsed, or one failure message. When several fetches fail at once, the message depends on timing, so it is not modelled.
- The forecast workbook's parse (`XLSX.read`, `sheet_to_json`) is an input: the first sheet's rows, or `None` when the fetch or parse failed.
- `Object.keys(DATA_URLS).reduce` only assembles the collections by name. The model receives the assembled record.
- `JSON.parse` is the parameter `parse` of `Bookmarks.LoadBookmarks`. The `localStorage` write-back is not modelled.
- `new Date(...)` is a parameter `parse` from date text to milliseconds, or `None` for an invalid date. The current time is a parameter `now`. The one-minute `setInterval` clock is not modelled.
- `RelativeTime` treats `setMinutes(getMinutes() + k)` as adding `k` minutes. Daylight-saving jumps are ignored.
- The `setTimeout` calls that clear the announcement after 5 and 8 seconds are not modelled.
- Switching `activeTab` and showing the admin panel are presentation. The tab is a field that `DisplaySessions` reads.
- Numbers are integers. Floating-point results are left out: `totalValue` and `parseValue`, the centre percentages, `formatCurrency`, `formatPotentialValue`, `formatDate`, and the poll percentages.
- `toLowerCase` is modelled on ASCII letters only. The default string sort compares characters, which matches JavaScript's UTF-16 order only inside the Basic Multilingual Plane.
- Forecasts.LongestFirst: a name's length is counted in characters, where the `name.length` of `components/ForecastsScreen.tsx:89-91` counts UTF-16 code units; the two agree only for names inside the Basic Multilingual Plane, so a name with a character outside it can make the model pick a different contact.
- Forecasts.MatchedContactMeaning: "at least as long as every other candidate" is stated in characters, with the same Basic Multilingual Plane limit as `Forecasts.LongestFirst`.
- Loose.Keys: a row's keys are listed in column order, whereas `Object.keys` lists array-index keys (such as `2024`) first in ascending order. The only callers search the keys for the first one containing letters ("phase" in `components/DashboardScreen.tsx:85-86`, a normalised alias, every one of which holds letters, in `components/ForecastsScreen.tsx:33-42`), and an array-index key has no letters, so moving those keys to the front does not change which key is found.
- A record field that is absent (`undefined`) is modelled as the empty string, except where the code tests for absence (`node_id`, `is_rfp`). Prototype keys such as `constructor` are not modelled as present in plain objects.
- NaicsDetail.NaicsDetailView.Load: registry rows hold their title and description as text. A numeric `Description` in the sheet would make `indexOf` throw and reach the `catch` branch; that branch is not modelled. No loader in the repository fills `naicsData`, so in the app the screen always shows the "not available" error.
- VendorSearch: the capability-statement text (`getField(...) || 'No capability statement provided.'`) and the city/state line of a card are presentation and are not modelled.
- VendorSearch.VendorSearchView.ToggleExpand: card indices are positions in the visible list, as in the source. The model does not relate them to rows once the filter changes.
- ContactsScreen.VCardReadsBack: values go into the vCard unescaped, as in the source. The read-back is proved only for values without line feeds, and no escaping of `,` or `;` (RFC 2426, section 4) is modelled.
- EventGuide: the render-only fields of a session are kept as data, but no lemma is stated about them. These are speakers, track and description.
