# Books table view-model in Dafny

This project models the one component of the Open Library admin table that has logic of its own: `BooksTable`. The component holds eight pieces of state: the fetched `books`, `page`, `rowsPerPage`, the sort `order` and column `orderBy`, the `searchQuery`, and an edit session (`editIdx`, `editRow`). Event handlers change that state. The component renders `sortedBooks`, a sorted copy of `books`.

Modules:

- `Wrappers`: `Option`, standing for a JavaScript value that may be `undefined`.
- `JsValue`: record field values and JavaScript's `<` on them, which is what the comparator uses. An array of strings compares as its comma-joined string. Two strings compare character by character. Any other pair compares as numbers, where `undefined` and non-numeric strings become NaN and every comparison with NaN is false. So a record that lacks the sort field is neither smaller nor larger than any other.
- `StableSort`: a generic stable insertion sort by a three-way comparator. It stands for `Array.prototype.sort`, which ECMA-262 (since its 2019 edition) requires to be stable when the comparator is consistent. On a consistent comparator every stable sort gives the same order, so the model's order is the program's. On an inconsistent one the order is the engine's choice, and the model fixes the insertion-sort order. It comes with proofs that the result is a permutation, that it is sorted wherever the comparator is a total preorder, and that it is stable for any comparator whose "tie" answer is symmetric.
- `SortedView`: the comparator of `sortedBooks` and the rendered rows, with lemmas on permutation, order and stability.
- `BooksTableComponent`: class `BooksTable`, with one field per state variable and one method per handler. Each method's `modifies` frame names only the fields that the handler's setters change, so every other field is provably unchanged. The module also has client methods that prove multi-step behaviour.

The model copies the component's quirks exactly:

- The indices that `handleEdit` and `handleSave` receive come from the sorted rendering, yet both read and write `books[idx]`. In the model the index is a position in `books`. `SortedView.RenderedRowIsNotBooksAtSameIndex` shows a case where the two differ.
- Every sorted row is rendered; there is no page slicing. The pagination total is `|books|`.
- A fetch result replaces `books` whenever it arrives, with no guard against stale results.
- A sort change does not end an edit.
- `handleEditChange` updates `editRow` even when no edit is active.
- `handleSave` does not clear `editRow`.

## Model

| member | source | states |
|---|---|---|
| `JsValue.StringToNumber` | src/components/BooksTable.js:77-78 | a string compared with a number gets a number exactly when it consists of decimal digits; the empty string gets 0; any other string is NaN |
| `JsValue.StringToNumberDecimal` | src/components/BooksTable.js:77-78 | the decimal text of a natural number converts back to that number |
| `JsValue.EditedNumberTies` | src/components/BooksTable.js:71-78 | a number field rewritten by an edit as the text of the same number ties with the stored number |
| `JsValue.NonNumericTextTiesNumbers` | src/components/BooksTable.js:77-78 | a string that is not a decimal number is neither `<` nor `>` any number |
| `JsValue.StrLessIrreflexive` | src/components/BooksTable.js:77-78 | no string is `<` itself |
| `JsValue.StrLessAsymmetric` | src/components/BooksTable.js:77-78 | string `<` never holds in both directions |
| `JsValue.StrLessTransitive` | src/components/BooksTable.js:77-78 | string `<` is transitive |
| `JsValue.StrLessTotal` | src/components/BooksTable.js:77-78 | of two distinct strings, one is `<` the other |
| `JsValue.LessAsymmetric` | src/components/BooksTable.js:77-78 | for any two field values, of any types, `x < y` and `y < x` are never both true |
| `JsValue.LessIrreflexive` | src/components/BooksTable.js:77-78 | no field value is `<` itself |
| `JsValue.LessAbsent` | src/components/BooksTable.js:77-78 | a missing field (undefined) is neither `<` nor `>` any value |
| `JsValue.LessNegativelyTransitive` | src/components/BooksTable.js:77-78 | on all-number or all-text values, "not less than" is transitive, so `<` is a strict weak order there |
| `JsValue.MixedComparisons` | src/components/BooksTable.js:73-78 | once an edit has written a number field as text, `<` is not a strict weak order: "10" < "9" < 10, yet "10" ties 10; "N/A" ties 1; an empty list is below 1 |
| `StableSort.InsertPos` | src/components/BooksTable.js:76-80 | an inserted element goes right after the last element that does not compare greater than it, so it passes only greater elements |
| `StableSort.Sort` | src/components/BooksTable.js:76 | the sorted copy has the input's length and the same multiset of elements |
| `StableSort.SortSorted` | src/components/BooksTable.js:76-80 | if the comparator is a total preorder on the elements, every earlier output element compares `<= 0` with every later one |
| `StableSort.SortKeepsTieOrder` | src/components/BooksTable.js:76-80 | elements the comparator ties keep their input order, and no output position repeats an input rank |
| `StableSort.SortIsStablePermutation` | src/components/BooksTable.js:76-80 | output position i holds input element ps[i]; ps is a permutation of the input positions; tied elements keep their input order |
| `SortedView.SortedBooks` | src/components/BooksTable.js:76-80 | `sortedBooks` is a copy of `books` with the same length and the same multiset of records |
| `SortedView.ComparatorLaws` | src/components/BooksTable.js:76-80 | the comparator is antisymmetric; Desc is Asc with the sign flipped; it answers only -1, 0 or 1; a record missing the field ties with every record |
| `SortedView.SortedBooksIsStablePermutation` | src/components/BooksTable.js:76-80 | row i shows books[ps[i]]; ps uses each position of `books` exactly once; rows that compare 0 keep their order in `books` |
| `SortedView.MissingFieldsKeepOrder` | src/components/BooksTable.js:76-80 | records that lack the sort field keep their relative order from `books` |
| `SortedView.ComparatorIsTotalPreorder` | src/components/BooksTable.js:76-80 | on records whose sort field is a number, or whose sort field is text, the comparator is a total preorder in both directions |
| `SortedView.SortedBooksOrdered` | src/components/BooksTable.js:76-80 | on an all-number or all-text column, no later row's key is `<` an earlier one's for `asc`, and no earlier row's key is `<` a later one's for `desc` |
| `SortedView.NumericColumnSorted` | src/components/BooksTable.js:76-80 | on an all-number column, the keys of the rows are non-decreasing for `asc` and non-increasing for `desc` |
| `SortedView.TitleExampleAsc` | src/components/BooksTable.js:76-80 | titles B, A, C sort to A, B, C ascending |
| `SortedView.TitleExampleDesc` | src/components/BooksTable.js:76-80 | titles B, A, C sort to C, B, A descending |
| `SortedView.RenderedRowIsNotBooksAtSameIndex` | src/components/BooksTable.js:118-120 | with books [B, A] sorted by title, row 0 shows A, while position 0 of `books`, which edit and save use, holds B |
| `BooksTableComponent.BooksTable.constructor` | src/components/BooksTable.js:22-29 | initial state: no books, page 0, 10 rows per page, ascending by title, query "harry potter", no edit (-1), empty scratch record |
| `BooksTableComponent.BooksTable.Request` | src/components/BooksTable.js:33 | the search uses the query, the 1-based page `page + 1`, and limit `rowsPerPage` |
| `BooksTableComponent.BooksTable.Receive` | src/components/BooksTable.js:34 | `books` becomes the result's `docs`, or `[]` when `docs` is absent; no other field changes, including an edit in progress |
| `BooksTableComponent.BooksTable.Rows` | src/components/BooksTable.js:118 | the rendered rows are all of `sortedBooks`, a permutation of `books`, not one page of it |
| `BooksTableComponent.BooksTable.Count` | src/components/BooksTable.js:203 | the pagination total equals the number of rendered rows |
| `BooksTableComponent.BooksTable.HandleSort` | src/components/BooksTable.js:39-43 | `orderBy` becomes the clicked column; `order` becomes desc exactly when that column was already the sort column and ascending; nothing else changes, not even an edit in progress |
| `BooksTableComponent.BooksTable.HandleChangePage` | src/components/BooksTable.js:45-47 | sets `page` only |
| `BooksTableComponent.BooksTable.HandleChangeRowsPerPage` | src/components/BooksTable.js:49-52 | sets `rowsPerPage`, resets `page` to 0, and changes nothing else |
| `BooksTableComponent.BooksTable.HandleSearchChange` | src/components/BooksTable.js:54-57 | sets `searchQuery`, resets `page` to 0, and changes nothing else |
| `BooksTableComponent.BooksTable.HandleEdit` | src/components/BooksTable.js:59-62 | `editIdx` becomes idx and `editRow` becomes books[idx], replacing any earlier edit |
| `BooksTableComponent.BooksTable.HandleEditChange` | src/components/BooksTable.js:71-74 | only key `name` of `editRow` changes, to the typed text; all other keys and values stay |
| `BooksTableComponent.BooksTable.HandleSave` | src/components/BooksTable.js:64-69 | `books` keeps its length; slot idx becomes `editRow`; every other slot is unchanged; `editIdx` becomes -1 |
| `BooksTableComponent.SortNewColumnTwice` | src/components/BooksTable.js:39-43 | two clicks on a new column give asc, then desc |
| `BooksTableComponent.SortSameColumnTwice` | src/components/BooksTable.js:39-43 | two clicks on the active column restore the original order |
| `BooksTableComponent.SaveTwice` | src/components/BooksTable.js:64-69 | saving again with the same `editRow` leaves `books` as the first save left it |
| `BooksTableComponent.EditRestarted` | src/components/BooksTable.js:59-62 | starting an edit of row 0 during an edit of row 1 silently discards row 1's scratch copy |
| `BooksTableComponent.EditSurvivesSortAndFetch` | src/components/BooksTable.js:34-69 | neither a sort change nor a newly arrived result ends an edit; the save then writes the old scratch copy into the new list at the same index |
| `BooksTableComponent.FailedFetchEmptiesTable` | src/components/BooksTable.js:34 | a result without docs leaves no rows and a total of 0 |

## Left out

- Rendering (JSX and MUI): the "N/A" fallbacks, header labels (`column.replace("_", " ")`), and the `ratings_average` header versus the `average_rating` cell. These are presentation only.
- The CSV export (`CSVLink`). It calls into the react-csv library, which is not part of this model.
- `fetchBooks` in src/api/openLibrary..js. It is an HTTP call. The model keeps only the shape of its result: `Receive(Some(docs))`, or `Receive(Some([]))` for its failure value. Its `numFound` is never read by the component.
- The `useEffect` scheduling and the async/await order. `Receive` may be called at any point, so results can arrive in any order, as they can in the code.
- Event objects. Each handler takes the values the component reads from its event. `handleChangeRowsPerPage` takes the page size already parsed; `parseInt` and a NaN size are not modelled.
- BooksTableComponent.BooksTable.HandleEdit: requires `idx < |books|`, because its only caller is the edit button of a rendered row, whose index is below `|sortedBooks| == |books|`. The `undefined` that an out-of-range index would read is not modelled.
- BooksTableComponent.BooksTable.HandleSave: requires `idx < |books|` for the same reason. It does not model JavaScript growing the array on an out-of-range write.
- Floating point. Numbers are integers, so fractional ratings are not modelled. JSON `null` field values are not modelled either.
- JsValue.StringToNumber: gives a number only to the empty string and strings of decimal digits. Strings with whitespace, a sign, a fraction, an exponent, hex or "Infinity" become NaN here, but JavaScript gives them a number.
- JsValue.StrLess: compares Dafny characters (Unicode scalar values) rather than UTF-16 code units. The two orders differ only between characters outside the Basic Multilingual Plane and those from U+E000 to U+FFFF.
- SortedView.SortedBooksOrdered: proves sortedness only for columns whose values are all numbers or all text. On a mixed column the comparator is not consistent, and ECMA-262 then leaves the order implementation-defined. The model gives such a column insertion sort's order. That order is a permutation of `books`, but it need not be the one a JavaScript engine produces.
- SortedView.SortedBooksIsStablePermutation (and SortedView.MissingFieldsKeepOrder, StableSort.SortIsStablePermutation): on a column that mixes present and absent values, or numbers and text, the tie order they prove is a property of the model's insertion sort, not a promise of the program. There the comparator is not consistent: a record without a title ties with both "A" and "Aa", yet "A" < "Aa". An engine may then place records differently, for example V8's TimSort by binary insertion. On all-number and all-text columns the comparator is consistent, and the tie order is the one ECMA-262 requires.
