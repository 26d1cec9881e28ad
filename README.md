# Employee table: view derivation and dialog edits

This project models the core of an Angular page that shows a list of
employees in a Material table. The model covers two things.

- **The view.** `ExampleDataSource` keeps the filter text and two derived
  lists. Whenever the service's `dataChange` emits, or the filter, the sort
  header or the paginator changes, it recomputes them in three steps:
  - it filters the list by a case-insensitive substring test on
    `id + name + salary + salary`;
  - it sorts a copy by the active column and direction, using the page's own
    comparator;
  - it cuts out the page that starts at `pageIndex * pageSize`.

  Setting the filter also puts the paginator back on page 0.
- **The edits.** When a dialog closes with result 1, `AppComponent`'s
  callbacks change the service's list in place, then refresh the table:
  - add pushes the dialog's record;
  - edit overwrites the first record with the remembered id;
  - delete splices that record out.

Modules:

- `Employees`: the record.
- `JsString` and `JsArray`: the JavaScript operations the code relies on: `toLowerCase`, number-to-text
  conversion, unary `+`, `indexOf`, `<` on strings, `filter`, `findIndex`,
  `splice` and index assignment.
- `StoreEdits`: what each edit does to the list, as functions.
- `ViewDerivation`: filter, sort, page and their properties.
- `Service`, `TableData` and `App`: the objects whose fields change. These are
  the service that holds the list, the paginator, the sort header, the data
  source and the component.
- `Scenarios`: how an edit shows in the view, and worked examples on a
  three-record list.

Three edge cases of the edits, as the code has them:

- add does not check the id, so a record whose id is already present is
  pushed all the same;
- edit of an id that is absent leaves the list unchanged, since the
  assignment at index -1 touches no element;
- delete of an id that is absent removes the last record, because `findIndex`
  gives -1 and `splice(-1, 1)` removes the last element.

## Model

| member | source | states |
|---|---|---|
| JsString.ToLower | src/app/app.component.ts:303-304 | lower-casing keeps the length |
| JsString.ToLowerChars | src/app/app.component.ts:303-304 | each character is folded on its own (A-Z to a-z, all else kept) |
| JsString.ToLowerIdempotent | src/app/app.component.ts:304 | lower-casing an already lower-cased text changes nothing |
| JsString.ToLowerConcat | src/app/app.component.ts:303 | lower-casing distributes over concatenation |
| JsString.NatToDecimal | src/app/app.component.ts:303 | the decimal text of a number is never empty |
| JsString.NatToDecimalDigits | src/app/app.component.ts:303 | the decimal text is all digits, with a leading zero only for 0 |
| JsString.NumberToString | src/app/app.component.ts:303 | the text of an integer is never empty |
| JsString.NumberToStringShape | src/app/app.component.ts:303 | the text starts with a minus sign exactly for negative numbers; digits follow |
| JsString.TrimStart | src/app/app.component.ts:357-358 | what is left does not start with white space and is no longer than the input |
| JsString.TrimStartDropsBlanks | src/app/app.component.ts:357-358 | what is left is a suffix, and only white space was dropped |
| JsString.TrimEnd | src/app/app.component.ts:357-358 | what is left does not end with white space and is no longer than the input |
| JsString.TrimEndDropsBlanks | src/app/app.component.ts:357-358 | what is left is a prefix, and only white space was dropped |
| JsString.Trim | src/app/app.component.ts:357-358 | the white space `+` strips from both ends before reading a number (partners: the TrimStart and TrimEnd lemmas above) |
| JsString.ToNumber | src/app/app.component.ts:357-358 | blank text converts to 0 |
| JsString.DigitsValueOfDecimal | src/app/app.component.ts:357-358 | reading the digits of a number's decimal text gives the number |
| JsString.SignedValue | src/app/app.component.ts:357-358 | the model's reading of trimmed text: an optional sign, then digits only; anything else is not a number (partner: the round-trip lemmas below) |
| JsString.ToNumberOfLetters | src/app/app.component.ts:357-358 | in the model, text holding an ASCII letter is not an integer literal, so `+` gives no number |
| JsString.ToNumberOfNonNegativeText | src/app/app.component.ts:357-358 | `+` of the text of a non-negative integer gives that integer |
| JsString.ToNumberOfNegativeText | src/app/app.component.ts:357-358 | `+` of the text of a negative integer gives that integer |
| JsString.ToNumberOfNumberToString | src/app/app.component.ts:357-358 | round trip: `+('' + n) == n` for every integer |
| JsString.IndexOfFrom | src/app/app.component.ts:304 | the result is -1 when no occurrence starts at or after `from`; otherwise it is the first such occurrence |
| JsString.IndexOf | src/app/app.component.ts:304 | -1 exactly when the needle occurs nowhere; otherwise the first position where it occurs |
| JsString.IndexOfEmpty | src/app/app.component.ts:304 | the empty needle is found at 0 |
| JsString.OccursInConcat | src/app/app.component.ts:303-304 | a needle found in one part of a concatenation is found in the whole, shifted |
| JsString.TextLessIrreflexive | src/app/app.component.ts:359 | no text is below itself |
| JsString.TextLessTransitive | src/app/app.component.ts:359 | `<` on texts is transitive |
| JsString.TextLessTotal | src/app/app.component.ts:359 | two different texts are ordered one way or the other |
| JsString.TextLess | src/app/app.component.ts:359 | `<` on texts: a proper prefix is below, otherwise the first differing character decides (partners: the three lemmas above) |
| JsArray.FindIndex | src/app/app.component.ts:146 | the result is -1 exactly when no element satisfies the test; otherwise it is the first index that does |
| JsArray.Filter | src/app/app.component.ts:301-305 | the result is no longer than the input |
| JsArray.FilterMembers | src/app/app.component.ts:301-305 | an element is kept exactly when it is in the input and passes the test |
| JsArray.FilterOne | src/app/app.component.ts:301-305 | a one-element input is kept exactly when its element passes |
| JsArray.FilterConcat | src/app/app.component.ts:301-305 | filtering a concatenation gives the concatenation of the filtered parts, so order is kept |
| JsArray.FilterMultiplicity | src/app/app.component.ts:301-305 | each element is kept as often as it occurs if it passes, and never otherwise |
| JsArray.FilterAll | src/app/app.component.ts:301-305 | when every element passes, the result is the input |
| JsArray.SpliceStart | src/app/app.component.ts:186 | a negative start counts back from the end, but not past 0; a start past the end is the end |
| JsArray.SpliceCount | src/app/app.component.ts:186 | the count removed is `min(max(deleteCount, 0), len - start)` |
| JsArray.Splice | src/app/app.component.ts:312 | the removed part has that count, and putting it back at the start rebuilds the input |
| JsArray.AssignAt | src/app/app.component.ts:148 | an index in range is replaced and nothing else changes; at -1 nothing changes |
| JsArray.SpliceOneAt | src/app/app.component.ts:186 | `splice(k, 1)` with k in range removes exactly the element at k |
| JsArray.SpliceMinusOne | src/app/app.component.ts:186 | `splice(-1, 1)` removes the last element, or nothing from an empty array |
| JsArray.SpliceWindow | src/app/app.component.ts:312 | `splice(start, n)` returns the window at start, cut short at the end and empty past it |
| StoreEdits.IndexOfId | src/app/app.component.ts:146 | the index is -1 exactly when no record has the id; otherwise it is the first record with it |
| StoreEdits.Added | src/app/app.component.ts:110 | `push` of the dialog's record (partners: AddAppends, AddUniqueIds) |
| StoreEdits.Edited | src/app/app.component.ts:146-148 | assignment at the index `findIndex` gives for the id (partners: EditPresent, EditAbsent) |
| StoreEdits.Deleted | src/app/app.component.ts:184-186 | `splice(findIndex(id), 1)` (partners: DeletePresent, DeleteAbsent, AddThenDelete) |
| StoreEdits.AddAppends | src/app/app.component.ts:110 | add grows the list by one; the old records come first, unchanged, then the new one |
| StoreEdits.AddAllowsDuplicateIds | src/app/app.component.ts:110 | adding a record whose id is present leaves two records with that id |
| StoreEdits.AddUniqueIds | src/app/app.component.ts:110 | on a list with distinct ids, the ids stay distinct after add exactly when the new id was absent |
| StoreEdits.EditPresent | src/app/app.component.ts:146-148 | edit replaces only the first record with the id |
| StoreEdits.EditAbsent | src/app/app.component.ts:146-148 | edit of an absent id leaves the list unchanged |
| StoreEdits.EditKeepsUniqueIds | src/app/app.component.ts:146-148 | an edit that keeps the id keeps the ids distinct |
| StoreEdits.DeletePresent | src/app/app.component.ts:184-186 | delete removes exactly the first record with the id; the rest keep their order |
| StoreEdits.DeleteAbsent | src/app/app.component.ts:184-186 | delete of an absent id removes the last record, or nothing from an empty list |
| StoreEdits.AddThenDelete | src/app/app.component.ts:184-186 | deleting the id of a freshly added record with a new id restores the list |
| StoreEdits.AddDuplicateThenDelete | src/app/app.component.ts:184-186 | when the added id was already present, delete removes the older record and keeps the new one |
| StoreEdits.DeleteRemovesRecord | src/app/app.component.ts:184-186 | with distinct ids, the deleted record is no longer in the list |
| StoreEdits.DeleteKeepsUniqueIds | src/app/app.component.ts:184-186 | delete keeps the ids distinct |
| ViewDerivation.SearchText | src/app/app.component.ts:303 | the text of id, name, salary and salary again, concatenated, without the age (partners: OwnFieldsMatch, MatchesIgnoresAge) |
| ViewDerivation.Matches | src/app/app.component.ts:304 | the lower-cased search text contains the lower-cased filter (partners: PartMatches, MatchesIgnoresFilterCase) |
| ViewDerivation.FilterRecords | src/app/app.component.ts:301-305 | `filter` of the list by Matches (partners: FilterRecordsMembers, FilterEmptyKeepsAll) |
| ViewDerivation.FilterRecordsMembers | src/app/app.component.ts:301-305 | a record is in the filtered list exactly when it is in the list and its lower-cased search text contains the lower-cased filter |
| ViewDerivation.FilterEmptyKeepsAll | src/app/app.component.ts:301-305 | the empty filter keeps every record, in order |
| ViewDerivation.MatchesIgnoresAge | src/app/app.component.ts:303 | the age never affects the match |
| ViewDerivation.MatchesIgnoresFilterCase | src/app/app.component.ts:304 | the case of the filter never affects the match |
| ViewDerivation.PartMatches | src/app/app.component.ts:303-304 | any piece of the search text is a matching filter |
| ViewDerivation.OwnFieldsMatch | src/app/app.component.ts:303-304 | a record matches its own id, its own name, and its salary written twice |
| ViewDerivation.SortKey | src/app/app.component.ts:337-358 | the column's value after `isNaN(+v) ? v : +v`; `''`, so 0, for an unknown column (partners: NameKey, NumericColumnsUniform) |
| ViewDerivation.KeyLess | src/app/app.component.ts:359 | `valueA < valueB` on two such values (partners: the KeyLess lemmas, MixedKeysUnordered) |
| ViewDerivation.NameKey | src/app/app.component.ts:357-358 | in the model, a name holding an ASCII letter sorts as text; a name that is an integer's text sorts as that integer |
| ViewDerivation.MixedKeysUnordered | src/app/app.component.ts:359 | a number and a text are below one another neither way |
| ViewDerivation.LetterNamesUniform | src/app/app.component.ts:357-358 | in the model, names that each hold an ASCII letter give keys of one kind |
| ViewDerivation.NumericColumnsUniform | src/app/app.component.ts:337-354 | id, salary, age and unknown columns give numbers only |
| ViewDerivation.KeyLessIrreflexive | src/app/app.component.ts:359 | no key is below itself |
| ViewDerivation.KeyLessTransitive | src/app/app.component.ts:359 | `<` on keys is transitive |
| ViewDerivation.KeyLessTotal | src/app/app.component.ts:359 | two different keys of one kind are ordered one way or the other |
| ViewDerivation.KeyNotLessTransitive | src/app/app.component.ts:359 | "not below" is transitive among keys of one kind |
| ViewDerivation.Compare | src/app/app.component.ts:359 | the comparator only returns -1 or 1, never 0 |
| ViewDerivation.CompareOrders | src/app/app.component.ts:359 | a negative result lets a stand before b, a positive one b before a, by key and direction |
| ViewDerivation.InOrderTransitive | src/app/app.component.ts:332-361 | "may stand before" is transitive among keys of one kind |
| ViewDerivation.Insert | src/app/app.component.ts:332 | inserting adds exactly the one record |
| ViewDerivation.InsertSorted | src/app/app.component.ts:332-361 | inserting into an ordered list keeps it ordered |
| ViewDerivation.SortBy | src/app/app.component.ts:332 | the sort is a permutation of its input |
| ViewDerivation.SortBySorted | src/app/app.component.ts:332-361 | with keys of one kind, the sorted list is ordered by key in the chosen direction |
| ViewDerivation.SortDataUnsorted | src/app/app.component.ts:327-329 | with no active column or direction `''` the order is the filter's |
| ViewDerivation.SortDataPermutes | src/app/app.component.ts:326-363 | the sorted data has the same records, as often each, as the filtered data |
| ViewDerivation.SortData | src/app/app.component.ts:326-363 | the input unchanged with no column or direction, else SortBy (partners: SortDataUnsorted, SortDataPermutes, SortDataOrders) |
| ViewDerivation.SortDataOrders | src/app/app.component.ts:332-361 | with a column and a direction set and keys of one kind, keys are non-decreasing for `'asc'` and non-increasing otherwise |
| ViewDerivation.SalarySortIsNumeric | src/app/app.component.ts:357-359 | salaries 9 and 80 sort numerically, although their texts sort the other way |
| ViewDerivation.PageStart | src/app/app.component.ts:311 | `startIndex`, the first row of the page (partner: PageStartIsProduct) |
| ViewDerivation.PageStartIsProduct | src/app/app.component.ts:311 | the page starts at `pageIndex * pageSize` |
| ViewDerivation.Page | src/app/app.component.ts:311-312 | `splice(pageIndex * pageSize, pageSize)` of the sorted list (partners: PageWindow, PageLength) |
| ViewDerivation.PageLength | src/app/app.component.ts:311-312 | a page is `min(pageSize, max(0, len - pageIndex * pageSize))` long |
| ViewDerivation.PageWindow | src/app/app.component.ts:311-312 | the page is the window of the sorted list at the start, at most pageSize long, empty past the end, with no clamping |
| ViewDerivation.Render | src/app/app.component.ts:299-315 | filter, then sort, then cut one page (partners: RenderLength, RenderedRowsMatch, RenderedRowsSorted) |
| ViewDerivation.RenderLength | src/app/app.component.ts:311-312 | the row count is `min(pageSize, max(0, filteredCount - pageIndex * pageSize))` |
| ViewDerivation.RenderFitsPage | src/app/app.component.ts:312 | never more rows than the page size |
| ViewDerivation.PageWithin | src/app/app.component.ts:312 | a page holds only records of the list it is cut from |
| ViewDerivation.SortedWindow | src/app/app.component.ts:312 | any window of an ordered list is ordered |
| ViewDerivation.PageSorted | src/app/app.component.ts:312 | a page of an ordered list is ordered |
| ViewDerivation.RenderedRowsMatch | src/app/app.component.ts:299-315 | every rendered row is a record of the list that matches the filter |
| ViewDerivation.RenderedRowsFromList | src/app/app.component.ts:299-315 | every rendered row is a record of the list |
| ViewDerivation.RenderedRowsSorted | src/app/app.component.ts:299-315 | with a column and a direction set and keys of one kind, the rendered rows are ordered |
| Service.EmployeeService.constructor | src/app/services/employee.service.ts:29 | the list starts empty |
| Service.EmployeeService.Next | src/app/services/employee.service.ts:48-50 | a fetched list replaces the whole value |
| TableData.MatPaginator.constructor | src/app/app.component.ts:68 | the paginator starts on page 0 with the chosen size |
| TableData.MatSort.constructor | src/app/app.component.ts:73 | the sort header starts with no active column and no direction |
| TableData.ExampleDataSource.constructor | src/app/app.component.ts:272-280 | it holds the three objects, the filter is `''`, both lists are empty, and the paginator is back on page 0 |
| TableData.ExampleDataSource.Recompute | src/app/app.component.ts:299-315 | afterwards the filtered list and the rendered page are those of the current list and inputs; the filter is kept |
| TableData.ExampleDataSource.SetFilter | src/app/app.component.ts:251-253 | the filter takes the new text, the page index becomes 0 whatever it was, and the view is recomputed |
| TableData.ExampleDataSource.DataChange | src/app/app.component.ts:288-299 | the `dataChange` emission of a fetched list: the list is replaced, the filter kept, and the view recomputed |
| TableData.ExampleDataSource.SortChange | src/app/app.component.ts:290 | the sort header takes the new column and direction and the view is recomputed |
| TableData.ExampleDataSource.PageChange | src/app/app.component.ts:292 | the paginator takes the new page and size and the view is recomputed |
| App.AppComponent.constructor | src/app/app.component.ts:203-212 | the service, paginator, sort header and data source are new objects; the service's list is empty, the filter is `''`, page 0, no sort, and the view agrees with them |
| App.AppComponent.FilterKeyUp | src/app/app.component.ts:215-222 | the box's text becomes the filter, the page index 0, the list is untouched, and the view is recomputed |
| App.MulDivCancels | src/app/app.component.ts:197 | for a positive size, `Math.floor(pageIndex * size / size)` is pageIndex |
| App.AppComponent.SamePageSizeIndex | src/app/app.component.ts:197 | the index is what `_changePageSize` computes at the same size, `Math.floor(pageIndex * size / size)`, or 0 when that is `NaN`; which keeps the page index except that a size of 0 resets it to 0 |
| App.AppComponent.RefreshTable | src/app/app.component.ts:196-198 | the list, filter, sort and page size are kept, the page index is kept (0 for size 0), and the view is recomputed |
| App.AppComponent.AddNewClosed | src/app/app.component.ts:106-113 | when confirmed the record is appended and the view recomputed under the same filter and page; otherwise nothing changes |
| App.AppComponent.StartEdit | src/app/app.component.ts:126-130 | the row index and id are remembered |
| App.AppComponent.EditClosed | src/app/app.component.ts:143-152 | when confirmed the first record with the remembered id is replaced and the view recomputed under the same filter and page; otherwise nothing changes |
| App.AppComponent.DeleteItem | src/app/app.component.ts:165-169 | the row index and id are remembered |
| App.AppComponent.DeleteClosed | src/app/app.component.ts:182-189 | when confirmed the list is spliced at the id's index, even when that index is -1, and the view recomputed under the same filter and page; otherwise nothing changes |
| Scenarios.DeletedRowHidden | src/app/app.component.ts:184-187 | with distinct ids, a deleted record is shown on no page, whatever the filter and sort |
| Scenarios.SortBySalaryAscending | src/app/app.component.ts:326-363 | salaries 5000, 7000, 3000 sorted ascending show 3000, 5000, 7000 |
| Scenarios.InsertBelow | src/app/app.component.ts:332-361 | a higher salary is inserted after a lower one |
| Scenarios.InsertBetween | src/app/app.component.ts:332-361 | a middle salary is inserted between a lower and a higher one |
| Scenarios.SortThreeBySalary | src/app/app.component.ts:332-361 | three salaries rising in the order c, a, b sort as c, a, b |
| Scenarios.SortStaffBySalary | src/app/app.component.ts:332-361 | the three example records sort by salary as Cy, Ann, Bo |
| Scenarios.LetterAbsent | src/app/app.component.ts:303-304 | a one-letter filter that does not occur in the lower-cased search text does not match |
| Scenarios.AnnMatchesA | src/app/app.component.ts:303-304 | "1Ann50005000" matches the filter "a" |
| Scenarios.BoMissesA | src/app/app.component.ts:303-304 | "2Bo70007000" does not match "a" |
| Scenarios.CyMissesA | src/app/app.component.ts:303-304 | "3Cy30003000" does not match "a" |
| Scenarios.FilterFirstOfThree | src/app/app.component.ts:301-305 | when only the first of three records matches, the filter keeps it alone |
| Scenarios.FilterStaffA | src/app/app.component.ts:301-305 | the filter "a" keeps Ann only |
| Scenarios.RenderSingle | src/app/app.component.ts:299-315 | when the filter keeps one record, the first page shows it alone |
| Scenarios.FilterA | src/app/app.component.ts:299-315 | the filter "a" renders Ann alone |
| Scenarios.SecondPageOfTwo | src/app/app.component.ts:311-312 | with two rows per page the second page holds the third record alone |
| Scenarios.DeleteTwo | src/app/app.component.ts:184-186 | deleting id 2 removes Bo and keeps Ann and Cy in order |

## Left out

- HTTP calls, logging and the asynchronous callbacks of the service are not modelled. The dialog's record is a parameter of `AddNewClosed` and `EditClosed`, the way `getDialogData()` hands it over. A fetched list arriving is `TableData.ExampleDataSource.DataChange`, which calls `Service.EmployeeService.Next` and recomputes the view.
- The dialog components are not part of this model. They are form UI only: the model receives the value the dialog closes with.
- The RxJS streams (`BehaviorSubject`, `merge`, `fromEvent`) are not modelled. Each event that makes the `merge` emit is a method that runs the recomputation at once.
- `refresh()` reloading the data is not modelled.
- `_changePageSize` is Angular Material library code, outside this application. `RefreshTable` models it at the same size: the page index becomes `Math.floor(pageIndex * size / size) || 0`, which is the index itself for a size above 0 and 0 for a size of 0; then the page event recomputes the view.
- The paginator's label text is not modelled.
- `index` is stored and never read: it is kept as a field only.
- Numbers are unbounded integers. Floating-point values, `NaN`, `Infinity`, hexadecimal and exponent notation are not modelled.
- JsString.ToNumber: only integer decimal literals are modelled. An optional sign is accepted, and ASCII white space around the text is ignored. Text that is really a decimal fraction or exponent form is treated as not a number.
- JsString.ToNumberOfLetters: holds of the model's `+`, not of JavaScript's. JavaScript reads some texts holding letters as numbers (`"Infinity"`, `"1e3"`, `"0x1F"`, `"0b1"`, `"0o7"`); the model reads them as not a number, as the ToNumber line says.
- ViewDerivation.NameKey: for the same reason, a name such as `"Infinity"` or `"1e3"` sorts as text in the model but as a number in JavaScript.
- ViewDerivation.LetterNamesUniform: for the same reason, names such as `["Ann", "1e3"]` give keys of one kind in the model but of two kinds in JavaScript.
- JsString.ToLower: folds ASCII letters only, not the full Unicode case mapping.
- JsString.TextLess: compares characters by code point, while JavaScript compares UTF-16 code units. The two disagree only for characters outside the Basic Multilingual Plane.
- JsString.IsWhiteSpace: only ASCII white space is stripped by `+`, not the Unicode space characters.
- ViewDerivation.SortBy: `Array.prototype.sort` is the engine's algorithm. The model uses an insertion sort over the same comparator. Only permutation and ordering are stated. The order among equal keys, and the order the engine gives when a number meets a non-numeric name, are not modelled.
- ViewDerivation.SortBySorted: ordering is proved only when all keys are of one kind (all numbers or all texts). When a name that is an integer's text meets one that is not, `<` is false both ways, so the comparator orders nothing there.
- `sortData` sorts, in place, the copy of the filtered list made by `slice()` and returns that same array, and `splice` then cuts the page out of that same sorted copy. The model works on values, so this in-place work on the copy shows only as its result.
