# Country catalogue: the derived view of `CountryList`, in Dafny

The `CountryList` component fetches the list of countries once. It then shows a table
that the user can search, sort and page through. The table rows are a pure function of four
pieces of state: the records, the search term, the sort direction and the current page.
That pipeline has three steps:

1. **Filter**: keep the records whose lowered `name.official` includes the lowered search term.
2. **Sort**: order them by lowered official name, ascending or descending.
3. **Page slice**: show the 25 rows starting at `(currentPage - 1) * 25`.

The view also has three per-row display helpers (native official name, alternative
spellings, dialling suffix). The state changes through four handlers: the search box, the
sort button, Previous and Next. Previous and Next have `disabled` conditions.

Files and modules:

- `wrappers.dfy`, module `Wrappers`: `Option`, where `None` stands for `undefined`.
- `js_string.dfy`, module `JsString`: the JavaScript built-ins the view uses.
  - `toLowerCase` is modelled as `Lower`, with ASCII folding.
  - `includes` is modelled as `Includes`, proved equal to "occurs at some position".
  - `localeCompare` is modelled as the lexicographic order `LexLeq`, proved a total order.
  - `join` is modelled as `Join`.
- `country_record.dfy`, module `CountryRecord`: the `Country` record and the three row helpers.
- `country_pipeline.dfy`, module `CountryPipeline`: filter, sort, the JavaScript `slice`
  semantics, the page slice, the two `disabled` predicates, and the whole view.
- `country_list.dfy`, module `CountryListComponent`: class `CountryList`. It holds the
  component's `useState` fields and its click and change handlers.
- `country_scenarios.dfy`, module `CountryScenarios`: the expected concrete behaviours.
  These are the Zambia/Aruba ordering, the "zam" search, and 30 records on page 2.

Modelling choices that follow the code:

- The search and the sort both use `name.official`.
- The interface declares `altSpellings` and `idd` as required fields, and the code throws
  when they are absent (`formatAltSpellings` calls `filter` on `altSpellings`, and
  `country.idd.suffixes` reads through `idd`). So the model makes both fields required.
  Only `suffixes` and `nativeName` are optional, as in the code.
- Paging uses `Array.prototype.slice`, whose negative indices count from the end. The model
  keeps that (`ResolveIndex`). The guarded buttons keep the page number at 1 or above, and
  for such pages the slice is the plain window (`PageSliceWindow`).

## Model

| member | source | states |
|---|---|---|
| `JsString.Lower` | src/components/CountryList.tsx:55 | `toLowerCase` keeps the length and folds each character on its own |
| `JsString.LowerAppend` | src/components/CountryList.tsx:55 | lowering distributes over concatenation |
| `JsString.IncludesIff` | src/components/CountryList.tsx:55 | `includes` holds exactly when the needle occurs at some position of the string (both directions) |
| `JsString.IncludesSubstring` | src/components/CountryList.tsx:55 | a string includes each of its substrings |
| `JsString.LexLeqReflexive` | src/components/CountryList.tsx:60 | the name comparison is reflexive |
| `JsString.LexLeqTransitive` | src/components/CountryList.tsx:60 | the name comparison is transitive |
| `JsString.LexLeqTotal` | src/components/CountryList.tsx:60 | any two names are comparable |
| `JsString.LexLeqAntisymmetric` | src/components/CountryList.tsx:60 | two names that compare both ways are equal |
| `JsString.JoinAppend` | src/components/CountryList.tsx:71 | joining two non-empty lists puts exactly one separator between their joins |
| `JsString.JoinEmptyIff` | src/components/CountryList.tsx:71 | with no empty part, the join is empty exactly when there are no parts |
| `JsString.JoinLength` | src/components/CountryList.tsx:71 | a join is as long as its parts plus one separator per neighbouring pair |
| `CountryRecord.DisplayNativeOfficialName` | src/components/CountryList.tsx:64-68 | nothing when `nativeName` is absent or empty; otherwise the `official` of the first entry (nothing if that entry lacks it) |
| `CountryRecord.NativeOfficialNameIgnoresLaterEntries` | src/components/CountryList.tsx:65-66 | entries after the first never change the native name shown |
| `CountryRecord.KeepTruthy` | src/components/CountryList.tsx:71 | `filter(Boolean)` keeps only non-empty strings, each present in the input, and never more entries than the input |
| `CountryRecord.KeepTruthyMembers` | src/components/CountryList.tsx:71 | a string is kept exactly when it is a non-empty entry of the input (both directions) |
| `CountryRecord.KeepTruthyAppend` | src/components/CountryList.tsx:71 | the filter keeps the original order: kept(a + b) = kept(a) + kept(b) |
| `CountryRecord.FormatAltSpellingsEmptyIff` | src/components/CountryList.tsx:70-72 | the text is `""` exactly when no entry is truthy, which covers the empty list |
| `CountryRecord.FormatAltSpellingsSingle` | src/components/CountryList.tsx:70-72 | one truthy entry is shown as it is; one falsy entry gives `""` |
| `CountryRecord.FormatAltSpellingsAppend` | src/components/CountryList.tsx:70-72 | formatting a concatenation gives the two formatted parts with one `", "` between them when both are non-empty |
| `CountryRecord.FormatAltSpellingsLength` | src/components/CountryList.tsx:70-72 | the text is the kept entries plus two characters per separator |
| `CountryRecord.DisplayIdd` | src/components/CountryList.tsx:74-76 | a suffix is shown exactly when `suffixes` is present and non-empty, and it is the first one |
| `CountryRecord.DisplayIddIgnoresLaterSuffixes` | src/components/CountryList.tsx:75 | suffixes after the first never change the result |
| `CountryPipeline.ToggleSortBy` | src/components/CountryList.tsx:102 | the sort button always changes the direction |
| `CountryPipeline.ToggleTwice` | src/components/CountryList.tsx:102 | toggling twice restores the direction |
| `CountryPipeline.FilterCountries` | src/components/CountryList.tsx:53-56 | every kept record is an input record that matches; every matching input record is kept; the list never grows |
| `CountryPipeline.FilterIsSubsequence` | src/components/CountryList.tsx:53-56 | the filtered list is a subsequence of the input, so relative order is kept |
| `CountryPipeline.FilterAppend` | src/components/CountryList.tsx:53-56 | filtering a concatenation is the concatenation of the filtered parts |
| `CountryPipeline.FilterMultiplicity` | src/components/CountryList.tsx:53-56 | a matching record keeps all its copies, and a non-matching one has none |
| `CountryPipeline.FilterEmptyTermKeepsAll` | src/components/CountryList.tsx:55 | the empty search term keeps every record, in order |
| `CountryPipeline.MatchesOwnName` | src/components/CountryList.tsx:55 | any piece of a record's official name, in its original case, finds that record |
| `CountryPipeline.InOrderTotal` | src/components/CountryList.tsx:57-61 | the comparator orders every pair in either direction |
| `CountryPipeline.InOrderTransitive` | src/components/CountryList.tsx:57-61 | the comparator is transitive in either direction |
| `CountryPipeline.Insert` | src/components/CountryList.tsx:57-61 | inserting adds exactly the one record (as a multiset) |
| `CountryPipeline.SortCountries` | src/components/CountryList.tsx:57-61 | the sorted list is a permutation of its input |
| `CountryPipeline.SortedCons` | src/components/CountryList.tsx:57-61 | a head that may precede every element of a sorted tail gives a sorted list |
| `CountryPipeline.InsertLowerBound` | src/components/CountryList.tsx:57-61 | insertion keeps a common lower bound |
| `CountryPipeline.InsertSorted` | src/components/CountryList.tsx:57-61 | inserting into a sorted list keeps it sorted |
| `CountryPipeline.SortCountriesSorted` | src/components/CountryList.tsx:57-61 | the result is non-decreasing by lowered name for `asc` and non-increasing for `desc` |
| `CountryPipeline.Keys` | src/components/CountryList.tsx:58-59 | the lowered names of a list, position by position |
| `CountryPipeline.Reverse` | src/components/CountryList.tsx:60 | the reversal of a list, position by position |
| `CountryPipeline.ReverseMultiset` | src/components/CountryList.tsx:60 | reversal keeps the elements |
| `CountryPipeline.ReverseTwice` | src/components/CountryList.tsx:60 | reversal is its own inverse |
| `CountryPipeline.InsertKeys` | src/components/CountryList.tsx:57-61 | insertion adds exactly the inserted record's name to the multiset of names |
| `CountryPipeline.SortKeys` | src/components/CountryList.tsx:57-61 | sorting keeps the multiset of names |
| `CountryPipeline.AscendingSameHead` | src/components/CountryList.tsx:60 | two ascending lists of the same names start with the same name |
| `CountryPipeline.SameTails` | src/components/CountryList.tsx:57-61 | equal heads and equal multisets give tails with equal multisets |
| `CountryPipeline.AscendingUnique` | src/components/CountryList.tsx:60 | the ascending order of a multiset of names is unique |
| `CountryPipeline.AscendingKeys` | src/components/CountryList.tsx:57-61 | a list sorted `asc` has ascending names |
| `CountryPipeline.DescendingKeysReversed` | src/components/CountryList.tsx:57-61 | a list sorted `desc` has names that ascend when read backwards |
| `CountryPipeline.SortDirectionsMirror` | src/components/CountryList.tsx:57-61 | the names sorted `desc` are the names sorted `asc`, reversed, so toggling twice shows the same names in the same order |
| `CountryPipeline.ResolveIndex` | src/components/CountryList.tsx:81 | a resolved `slice` index lies within the array |
| `CountryPipeline.PageSliceWindow` | src/components/CountryList.tsx:78-81 | for page p ≥ 1 the rows are `filtered[min((p-1)*25, L) .. min(p*25, L)]`, and there are `min(25, max(0, L-(p-1)*25))` of them |
| `CountryPipeline.PagePastEndIsEmpty` | src/components/CountryList.tsx:79-81 | a page starting past the end is empty, not an error |
| `CountryPipeline.PageOfRow` | src/components/CountryList.tsx:79-81 | row k of the list is shown on page k/25 + 1 at position k mod 25, so the pages cover the list in order |
| `CountryPipeline.LastPageLength` | src/components/CountryList.tsx:79-81 | there are ceil(L/25) pages, and the last one holds L mod 25 rows, or 25 |
| `CountryPipeline.NextDisabledIff` | src/components/CountryList.tsx:141 | Next is disabled exactly from the last non-empty page on; while it is enabled, rows remain past the current page |
| `CountryPipeline.FilteredCountries` | src/components/CountryList.tsx:53-61 | the filtered, sorted list is a permutation of the filtered records |
| `CountryPipeline.CurrentCountriesMatch` | src/components/CountryList.tsx:53-81 | every shown row is a fetched record matching the search term |
| `CountryPipeline.CurrentCountriesLength` | src/components/CountryList.tsx:78-81 | the number of shown rows is `min(25, max(0, L-(p-1)*25))` for the filtered length L |
| `CountryPipeline.CurrentCountriesOrdered` | src/components/CountryList.tsx:57-61 | the shown rows are in the chosen sort order |
| `CountryListComponent.CountryList.constructor` | src/components/CountryList.tsx:23-30 | the state starts at `asc`, an empty term and page 1 |
| `CountryListComponent.CountryList.ChangeSearchTerm` | src/components/CountryList.tsx:97 | only the term changes; the page and the direction stay |
| `CountryListComponent.CountryList.ClickSort` | src/components/CountryList.tsx:102 | the direction flips and nothing else changes |
| `CountryListComponent.CountryList.ClickPrevious` | src/components/CountryList.tsx:138 | one page back unless on page 1, where the button is disabled; the page stays ≥ 1 |
| `CountryListComponent.CountryList.ClickNext` | src/components/CountryList.tsx:141 | one page forward unless `currentPage*25 >= L`; a move never lands on a page that starts past the end, so the new page shows rows |
| `CountryListComponent.NarrowingSearchKeepsPage` | src/components/CountryList.tsx:97 | page 2 of 30 records followed by a search that keeps at most 25 leaves page 2 showing nothing, with Next disabled and Previous enabled |
| `CountryScenarios.ZambiaKey` | src/components/CountryList.tsx:58 | "Zambia" lowers to "zambia" |
| `CountryScenarios.ArubaKey` | src/components/CountryList.tsx:58 | "Aruba" lowers to "aruba" |
| `CountryScenarios.ZambiaAfterAruba` | src/components/CountryList.tsx:60 | Aruba sorts before Zambia ascending |
| `CountryScenarios.SortZambiaAruba` | src/components/CountryList.tsx:57-61 | sorting [Zambia, Aruba] ascending gives [Aruba, Zambia] |
| `CountryScenarios.EmptySearchShowsAll` | src/components/CountryList.tsx:53-81 | with an empty term the page is a window of all the records, sorted |
| `CountryScenarios.EmptySearchSortsAscending` | src/components/CountryList.tsx:53-81 | [Zambia, Aruba], empty term, `asc`, page 1 shows [Aruba, Zambia] |
| `CountryScenarios.LowerZam` | src/components/CountryList.tsx:55 | "zam" is already lowered |
| `CountryScenarios.ZamMatchesOnlyZambia` | src/components/CountryList.tsx:55 | "zam" matches "Zambia" regardless of case, and not "Aruba" |
| `CountryScenarios.SearchIsCaseInsensitive` | src/components/CountryList.tsx:53-81 | [Zambia, Aruba] searched with "zam" shows [Zambia] only |
| `CountryScenarios.SecondPageOfThirty` | src/components/CountryList.tsx:78-81 | 30 records on page 2 show 5 rows, with Next disabled and Previous enabled |

## Left out

- The fetch (`axios.get`), the mount effect, the `loading` flag and its "Loading..." screen,
  and the console logging (src/components/CountryList.tsx:32-50). These are network I/O and
  async lifecycle. The class constructor takes the settled result instead: the response
  body, or `[]` when the request failed.
- All JSX rendering (src/components/CountryList.tsx:83-147): markup, images, labels, the
  table columns. The model stops at the rows and the values of the helpers.
- src/components/CountryModal.tsx is not part of this model. It renders every field through
  `JSON.stringify`, a library serialiser, and holds no logic to verify.
- Locale-aware collation: `localeCompare` is modelled as lexicographic order on characters
  of the lowered names. Real collation (accents, locale rules) is not modelled. This order
  is antisymmetric, and `CountryPipeline.AscendingUnique` and
  `CountryPipeline.SortDirectionsMirror` depend on that. Real `localeCompare` can return 0
  for two different strings, such as a precomposed and a decomposed "é".
- Unicode case folding: `toLowerCase` folds only the ASCII letters A-Z.
- JavaScript strings are UTF-16 code units. The model's strings are sequences of Dafny
  characters.
- CountryPipeline.SortCountries: stability is not stated. `Array.prototype.sort` is stable,
  and so is this insertion sort, since records with equal lowered names keep their fetch
  order. The contracts state sortedness and permutation, plus the uniqueness of the order
  of names (`AscendingUnique`). They do not state the order among records with equal names.
- The `nativeName` object's key order: it is given as its entries in `Object.values`
  iteration order. JavaScript's rule that integer-like keys come first is not modelled.
- The top-level `official` field of the interface (src/components/CountryList.tsx:10) is
  never read, so it is not modelled.
- Uniqueness of `cca2` as a row key (src/components/CountryList.tsx:121): it is assumed by
  the source and never enforced.
- React's scheduling: each handler's state update takes effect at once. The `disabled`
  attribute is modelled by clicks on a disabled button doing nothing.
