# Appointment list: a verified model of the list logic

The appointment scheduler keeps an in-memory list of appointment records.
Each record has a string identifier, a pet name, an owner name, free-text
notes and a date. The list is displayed through a search box and a sort
selector. This project models the list logic of `src/App.js` as pure Dafny
functions over immutable values:

- **Search** (`Search.Filter`) keeps the records whose lower-cased pet name,
  owner name or notes contain the lower-cased query. Records stay in list
  order.
- **Sort** (`Sorting.Sort`) orders the filtered records by the lower-cased
  value of the selected field. The order is ascending when `orderBy` is
  `"asc"` and descending for any other value.
- **View** (`Store.View`) is search followed by sort. It is what the list on
  screen shows.
- **lastId** (`Ids.LastId`) is the left fold the add form receives. It is the
  largest numeric identifier in the list, or 0 when there is none.
  Identifiers without a numeric value are passed over.
- **Add** (`Store.Add`) puts the new record at the end of the list.
- **Delete** (`Store.Delete`) keeps every record whose identifier differs
  from the given one.
- **State** (`Store.State`, `Store.Step`) holds the list and the three view
  settings as a plain value. The user interface's callbacks are actions on it.

Modules and files:

| file | module | contents |
|---|---|---|
| wrappers.dfy | Wrappers | `Option` |
| text.dfy | Text | ASCII lower-casing, `includes`, string `<`, and their laws |
| decimal.dfy | Decimal | numeric reading of identifiers (`Parse`), `Format`, round trip |
| seqs.dfy | Seqs | `Keep` (order-preserving filter), `IsSubseq` |
| appointments.dfy | Appointments | the record datatype and the sortable `Field`s |
| search.dfy | Search | the match predicate and the search filter |
| sorting.dfy | Sorting | comparator as written, corrected comparator, sort, key determinacy |
| ids.dfy | Ids | the `lastId` fold and its characterisation |
| store.dfy | Store | add, delete, view, identifier uniqueness, state and actions |
| scenarios.dfy | Scenarios | worked examples on two-record lists |

The comparator in `src/App.js:24-30` never returns 0: for equal keys it
answers the sign of the direction, and it answers non-zero even when a record
is compared with itself. It is therefore not a consistent comparator, and the
JavaScript language then leaves the whole order of the sort result to the
engine, not only the order of equal keys. The model sorts with a corrected
comparator (`Sorting.ConsistentCompare`) that returns 0 on equal keys. It
promises only that the result is a permutation of the filtered list, ordered
by key; that is what an engine's comparison sort gives when it is right on
every pair of distinct keys, which the written comparator is.
`Sorting.SortedPermutationsAgreeOnKeys` shows that this fixes the sequence of
keys completely: only records with equal keys can trade places.

## Model

| member | source | states |
|---|---|---|
| Text.Lower | src/App.js:19-21 | lower-casing keeps the length, turns each ASCII capital into its lower-case letter and keeps every other character |
| Text.LowerIdempotent | src/App.js:19-21 | lower-casing an already lower-cased string changes nothing |
| Text.IncludesIffOccurs | src/App.js:19-21 | `includes` holds exactly when the needle occurs at some position of the string |
| Text.IncludesEmpty | src/App.js:19-21 | every string includes the empty string |
| Text.LexLessIffSpec | src/App.js:27 | string `<` holds exactly when the left string is a proper prefix of the right one or has the smaller character at the first difference |
| Text.LexLessIrreflexive | src/App.js:27 | no string is less than itself |
| Text.LexLessAsymmetric | src/App.js:27 | if a < b then not b < a |
| Text.LexLessTransitive | src/App.js:27 | string `<` is transitive |
| Text.LexLessTotal | src/App.js:27 | of two different strings, one is less than the other |
| Decimal.ParseFormat | src/App.js:51 | reading back the decimal spelling of n gives n |
| Seqs.Keep | src/App.js:16-23 | the filter result is a subsequence of the input, holds only passing elements, and holds each passing element exactly as often as the input does |
| Seqs.KeepAll | src/App.js:16-23 | when every element passes, the filter returns its input unchanged |
| Seqs.KeepSnoc | src/App.js:67 | filtering a list with one more element at the end adds that element at the end exactly when it passes |
| Search.Filter | src/App.js:16-23 | every kept record matches the query; every matching record is kept as often as it occurs; no other record is kept; list order is preserved |
| Search.MatchesIffOccurs | src/App.js:18-22 | a record matches exactly when the lowered query occurs in its lowered pet name, owner name or notes |
| Search.MatchesIgnoresQueryCase | src/App.js:19-21 | lower-casing the query first does not change which records match |
| Search.FilterEmptyQuery | src/App.js:16-23 | the empty query keeps the whole list in order |
| Sorting.Direction | src/App.js:25 | the sign is 1 exactly for "asc" and -1 for every other value |
| Sorting.CompareTieInconsistent | src/App.js:24-30 | the comparator as written answers the same non-zero value for (a, b) and (b, a) when the keys are equal, and non-zero for (a, a) |
| Sorting.ConsistentCompare | src/App.js:24-30 | the corrected comparator is 0 exactly on equal keys, agrees with the original otherwise, and its sign matches the requested direction |
| Sorting.ConsistentCompareAntisymmetric | src/App.js:24-30 | swapping the arguments of the corrected comparator negates the answer |
| Sorting.InOrderTransitive | src/App.js:25-28 | "may stand before" in either direction is transitive |
| Sorting.InOrderTotal | src/App.js:25-28 | of any two keys, one may stand before the other |
| Sorting.InOrderAntisymmetric | src/App.js:25-28 | keys that may stand in either order are equal |
| Sorting.Insert | src/App.js:24-30 | inserting a record into an ordered list gives an ordered list with that record added |
| Sorting.Sort | src/App.js:24-30 | the sorted list is a permutation of its input, of the same length, and ordered by key in the requested direction |
| Sorting.SortedByMeaning | src/App.js:25-28 | in an ordered list, "asc" keys are non-decreasing and any other order's keys are non-increasing |
| Sorting.SortedPermutationsAgreeOnKeys | src/App.js:24-30 | two ordered permutations of the same records have the same key sequence |
| Ids.MaxStep | src/App.js:51 | one fold step never decreases the running maximum, reaches the record's number, and yields either the old maximum or that number |
| Ids.LastIdFromBounds | src/App.js:51 | the fold from any start is at least the start and every numeric identifier, and is the start or one of them |
| Ids.LastIdIsMax | src/App.js:51 | lastId is 0 on the empty list, at least every numeric identifier, and 0 or one of them |
| Ids.LastIdUnique | src/App.js:51 | any number with those properties is lastId |
| Ids.LastIdSnoc | src/App.js:51 | lastId of a list with one more record at the end is one more fold step |
| Ids.AboveLastIdIsFresh | src/App.js:49-51 | an identifier numbered above lastId belongs to no record in the list |
| Ids.NextIdIsFresh | src/App.js:51 | the decimal spelling of lastId + 1 belongs to no record in the list |
| Store.Add | src/App.js:50 | the new list is one longer, has the old list as prefix and the new record last |
| Store.Delete | src/App.js:67 | no kept record has the identifier; every other record is kept as often as it occurs; list order is preserved |
| Store.DeleteAbsent | src/App.js:67 | deleting an identifier no record has returns the list unchanged |
| Store.AddThenDelete | src/App.js:50 | adding a record with a new identifier and then deleting that identifier restores the list |
| Store.LastIdAfterAdd | src/App.js:50-51 | after an add, lastId is the new record's number if that is larger, and unchanged otherwise |
| Store.LastIdAfterDelete | src/App.js:67 | deleting never raises lastId |
| Store.KeepKeepsUnique | src/App.js:67 | filtering a list with unique identifiers keeps them unique |
| Store.DeleteKeepsUnique | src/App.js:67 | deleting keeps identifiers unique |
| Store.AddAboveLastIdKeepsUnique | src/App.js:50-51 | adding a record numbered above lastId keeps identifiers unique |
| Store.View | src/App.js:16-30 | the displayed list holds exactly the matching records, each as often as in the list, ordered by key in the requested direction |
| Store.ViewEmptyQuery | src/App.js:16-30 | with the empty query the displayed list is a reordering of the whole list |
| Store.Initial | src/App.js:9-12 | the initial list is empty, its identifiers are trivially unique, and nothing is displayed |
| Store.Step | src/App.js:49-67 | a setting change sets exactly that setting and changes nothing else; add appends the record and delete removes the identifier, leaving the settings alone |
| Store.StepKeepsUnique | src/App.js:49-67 | every action keeps identifiers unique, provided each new record is numbered above lastId |
| Scenarios.NextIdExamples | src/App.js:51 | with identifiers "1" and "3" lastId is 3 and the next spelling is "4"; on an empty list lastId is 0 and the next spelling is "1" |
| Scenarios.SearchRexExample | src/App.js:16-23 | searching "rex" in a Rex/Max list keeps only the Rex record |
| Scenarios.DeleteExample | src/App.js:67 | deleting "2" from the Rex/Max list leaves only the Rex record |

## Left out

- Fetching the list (`fetchData`, `useEffect`, `src/App.js:32-43`) is network I/O and is left out. The `loading` and `error` flags go with it. On failure `loading` stays true, because the catch handler only records the error. With it goes the rule that the list is hidden while loading (line 62).
- React state plumbing (`useState`, `useCallback`) becomes the plain value `Store.State`. Each callback becomes a `Store.Action`. Batching and re-rendering are not modelled. Each callback captures the list of the render it was created in; the model applies every action to the current list.
- Rendering is left out: the JSX, the icons, and the `Search`, `AddAppointment` and `AppointmentInfo` components. Those components are not part of this model. How `AddAppointment` turns `lastId` into a new identifier cannot be seen. `Store.StepKeepsUnique` therefore takes "numbered above lastId" as an assumption about new records.
- Text.Lower: covers ASCII capitals only; JavaScript's `toLowerCase` applies full Unicode case mapping.
- Text.LexLess: compares characters by code point; JavaScript compares UTF-16 code units, which differ only for characters outside the Basic Multilingual Plane.
- Ids.NumericId: treats only non-empty strings of decimal digits as numbers. `Number()` also reads surrounding white space, signs, fractions, exponents and hexadecimal, and it reads the empty string as 0. The empty string and negative numbers never beat the running maximum of at least 0, so they make no difference. Fractional, exponent and hexadecimal identifiers are not modelled. `Number()` yields a double, so digit strings above 2^53 (9007199254740992) are rounded to the nearest double; the model reads every digit string exactly, so it agrees with the source only while identifiers stay at or below 2^53.
- Ids.NextIdIsFresh: holds in the model's exact arithmetic for every list. In the source, once lastId reaches 2^53, lastId + 1 rounds back to lastId, so the max-plus-one identifier can repeat an existing one; freshness is promised by the source only below 2^53.
- Sorting.Sort: the engine's sorting algorithm is not modelled. Because the written comparator is inconsistent (non-zero on equal keys and on a record compared with itself), the language leaves the whole result order implementation-defined. "Ordered by key" is an assumption about the engine: it holds for a comparison sort, such as TimSort, that orders every pair of distinct keys as the comparator says. The model inserts records using the corrected comparator and promises only "a permutation, ordered by key"; the order of records with equal keys is not promised.
- The sort field is the datatype `Appointments.Field`. A `sortBy` string that names no field makes `a[sortBy].toLowerCase()` throw. That case is not modelled.
- The date is an opaque string and is compared as text, as the source does.

## Findings

| source | as written | input that shows it | evidently intended | confidence | as-written member | corrected member |
|---|---|---|---|---|---|---|
| src/App.js:24-30 | the comparator returns `order` when the keys are equal, never 0, so compare(a, b) and compare(b, a) agree and compare(a, a) is non-zero | two records whose lower-cased `sortBy` values are equal, with `orderBy = "asc"`: both argument orders answer 1 | return 0 for equal keys, so the comparator is consistent and equal-key records keep their filtered order under a stable sort | medium; not executed | Sorting.CompareTieInconsistent | Sorting.ConsistentCompare |
