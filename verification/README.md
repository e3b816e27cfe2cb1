# Record table state machine

This project models the state of the `App` component in `src/App.tsx` of a small
React table of users. It also models the six event handlers that change that state.
The state has three slots:

- `internalUsers`: the rows, an ordered list of `{id, name, age, country}` records;
- `sortOrder`: `'asc'` or `'desc'`;
- `selectedItems`: a set of ids.

In the model these are the fields `users`, `asc` and `selected` of the class
`Table.RecordTable`. Each handler is a method of that class, and each method
replaces its slots in one atomic step. Pure functions specify the new values:

- `filter` by id becomes `Records.Without`;
- `findIndex` becomes `Records.FindIndex`;
- `new Set(users.map(item => item.id))` becomes `Records.Ids`;
- the one-cell write becomes `Records.SetField`;
- `String.prototype.trim` becomes `StringTrim.Trim`;
- `toSorted` becomes the stable insertion sort `AgeSort.ToSorted`;
- the two selection updates become `Selection.Toggled` and `Selection.ToggledAll`.

The class invariant `Valid()` says that no two rows share an id. Every handler
keeps it.

Modelling decisions:

- **Cell values.** A cell value is `Num(n) | Text(s)`. Fetched rows, which
  `Load` installs, carry numeric ages. The add form's age field holds text at
  run time, although it is declared as a number, so `SubmitForm` stores a
  `Text` age. An inline edit stores trimmed text into whichever column it
  targets, and that includes the age column. The sort comparator is only
  modelled for numeric ages. So `SortByAge` requires that every age is `Num`.
- **Ids.** Ids and numeric ages are unbounded integers. The add handler's id
  (`Math.random()` in the source) is a parameter that must not already be in
  use.
- **Editing a missing id.** Such an edit is not silently ignored. In the
  code, `findIndex` returns -1, and then
  `Object.prototype.hasOwnProperty.call(undefined, field)` throws a TypeError
  before any state is set. `ChangeField` therefore returns `TypeError` and
  leaves the state unchanged.
- **Select-all.** The checkbox reads as "clear if every id is selected", but
  the code compares the size of the selection with the number of rows, and the
  model follows the code. Two lemmas cover this:
  - `CountTestMeansAllSelected` proves the two readings agree while the
    selection holds only ids of listed rows.
  - `StaleIdDefeatsCountTest` and the client method `Table.StaleSelection` show
    that they diverge once a removed row's id is still selected. The remove
    handler does not prune the selection.
- **Scenario.** The client method `Table.LoadAddSortRemove` loads a row, adds
  one through the form (which stores the age as text), loads two rows with
  numeric ages, sorts them and removes one. Each intermediate state follows
  from the handlers' contracts.

## Model

| member | source | states |
|---|---|---|
| StringTrim.TrimStart | src/App.tsx:88 | the result is the longest suffix of the input that does not start with white space; everything dropped is white space |
| StringTrim.TrimEnd | src/App.tsx:88 | the result is the longest prefix that does not end with white space; everything dropped is white space |
| StringTrim.Trim | src/App.tsx:88 | `value.trim()` is no longer than the input and neither starts nor ends with white space |
| StringTrim.TrimSplits | src/App.tsx:88 | trim only removes characters: the result is a slice s[k..e] of the input, and the input is white space before k and from e on |
| StringTrim.TrimUnique | src/App.tsx:88 | for any white-space padding p and q around a trimmed text t, trim(p + t + q) is t, so trim is the unique such slice |
| StringTrim.TrimIdempotent | src/App.tsx:88 | trimming twice is the same as trimming once |
| Records.EditText | src/App.tsx:88 | the stored text is trimmed; it is '' for null or a number; for a string it is no longer than the string and empty exactly when the string is all white space (its exact content is given by StringTrim.TrimSplits, StringTrim.TrimUnique and Records.EditTextExamples) |
| Records.FindIndex | src/App.tsx:85 | `findIndex`: -1 exactly when no row holds the id; otherwise the row at the index holds it and no earlier row does |
| Records.FindIndexUnique | src/App.tsx:85 | with distinct ids, findIndex returns the one index that holds the id |
| Records.Without | src/App.tsx:52 | the filter keeps every row whose id differs, with all of its occurrences and none of the removed id's rows, as a subsequence in the original order |
| Records.WithoutAbsent | src/App.tsx:52 | removing an id that no row holds leaves the list unchanged |
| Records.WithoutIdempotent | src/App.tsx:51-53 | removing the same id twice gives the same list as removing it once |
| Records.WithoutOne | src/App.tsx:51-53 | with distinct ids, removing the id held at index k removes exactly that row: s[..k] + s[k+1..] |
| Records.WithoutDistinct | src/App.tsx:52 | removing rows keeps the ids distinct |
| Records.Ids | src/App.tsx:107 | the id set holds exactly the ids of the rows |
| Records.IdsCount | src/App.tsx:104-107 | with distinct ids the id set has one element per row |
| Records.SetField | src/App.tsx:87-88 | the edited column now shows the new text; the id and the other columns are unchanged |
| Records.SameFieldsSameUser | src/App.tsx:18-23 | a record is determined by its id and its three columns, so SetField's contract fixes the edited row |
| Records.EditTextExamples | src/App.tsx:88 | the string "  France  " is stored as "France", and null is stored as the empty string |
| AgeSort.CompareMeaning | src/App.tsx:79-80 | the comparator is negative exactly when the first record is younger ('asc') or older ('desc'), zero exactly when the ages are equal, and antisymmetric |
| AgeSort.Insert | src/App.tsx:78-81 | inserting grows the length by one, and the members of the result are the inserted record and the members of the list |
| AgeSort.ToSorted | src/App.tsx:78-81 | the sorted list has the same length and the same records as the input |
| AgeSort.InsertPermutes | src/App.tsx:78-81 | insertion adds exactly one occurrence of the record to the multiset and changes no other count |
| AgeSort.InsertSorted | src/App.tsx:78-81 | inserting into a list in comparator order keeps it in comparator order |
| AgeSort.InsertWithAge | src/App.tsx:78-81 | insertion keeps the records of each age in order, with the new record placed before the records that share its age |
| AgeSort.InsertDistinct | src/App.tsx:78-81 | inserting a record with an unused id keeps the ids distinct |
| AgeSort.ToSortedPermutes | src/App.tsx:78 | the sort result is a permutation of the input |
| AgeSort.ToSortedSorted | src/App.tsx:78-81 | the sort result has no pair out of comparator order |
| AgeSort.ToSortedStable | src/App.tsx:78-81 | for every age, the records with that age appear in the same order before and after the sort |
| AgeSort.ToSortedCorrect | src/App.tsx:76-82 | the sort result is a permutation, stable, non-decreasing by age for 'asc' and non-increasing for 'desc' |
| AgeSort.ToSortedDistinct | src/App.tsx:78 | sorting keeps the ids distinct |
| AgeSort.SortAscendingExample | src/App.tsx:79 | ages 30, 25, 30, 20 sort ascending to 20, 25, 30, 30, with the two 30s in input order |
| AgeSort.SortDescendingExample | src/App.tsx:80 | ages 20, 25, 30, 30 sort descending to 30, 30, 25, 20, with the two 30s keeping their order |
| Selection.Toggled | src/App.tsx:93-101 | the toggled id changes membership and every other id keeps its membership |
| Selection.ToggledTwice | src/App.tsx:93-101 | toggling the same id twice restores the selection |
| Selection.ToggledAll | src/App.tsx:103-109 | when the selection's size equals the number of rows the selection is cleared; otherwise it is exactly the ids of the rows |
| Selection.SelectAllThenClear | src/App.tsx:103-109 | with distinct ids, select-all on a partial selection selects every row, and a second select-all clears the selection |
| Selection.CountTestMeansAllSelected | src/App.tsx:104 | when the selection holds only listed ids and the ids are distinct, the count test holds exactly when every row is selected |
| Selection.StaleIdDefeatsCountTest | src/App.tsx:104-105 | with rows 1 and 2 and the selection {1, 3}, the count test passes and select-all clears the selection although row 2 is unselected |
| Table.RecordTable.constructor | src/App.tsx:39-41 | the initial state has no rows, 'asc' order and an empty selection |
| Table.RecordTable.Load | src/App.tsx:43-45 | the fetch callback replaces the rows with the fetched list, whose ids are distinct; the order and the selection are untouched |
| Table.RecordTable.RemoveItem | src/App.tsx:51-53 | the rows become the filter of the old rows; the id is gone; the order and the selection are untouched, so the removed id may stay selected |
| Table.RecordTable.SubmitForm | src/App.tsx:63-71 | exactly one row is appended: the old rows are a prefix of the new list, and the last row holds the fresh id and the form's name, age and country, with the age as text |
| Table.RecordTable.SortByAge | src/App.tsx:76-82 | the rows become the stable sort of the old rows in the direction held before the call, and the direction flips, so two calls restore it |
| Table.RecordTable.ChangeField | src/App.tsx:84-91 | when the id is absent, a TypeError is raised and nothing changes; otherwise only the row at the found index changes, only in the named column, which gets the trimmed string or ''; the length and all other rows are unchanged |
| Table.RecordTable.SelectItem | src/App.tsx:93-101 | the selection becomes the old selection with `itemId` toggled; the rows and the order are untouched |
| Table.RecordTable.SelectAll | src/App.tsx:103-109 | the selection becomes the select-all toggle of the old selection against the rows |

## Left out

- Fetching the initial rows (`getData`, `fetch`, `response.json()`, the `useEffect` registration and the `console.log` error paths, src/App.tsx:27-35 and 43-49) is network I/O and asynchronous. Only the callback's `setInternalUsers(data)` is modelled, as `Load`, which takes the fetched list as a parameter.
- Table.RecordTable.Load: requires the fetched ids to be distinct. The source does not check this; the model's invariant that no two rows share an id rests on it, and fetched data with repeated ids is not modelled.
- Rendering, the JSX markup, the `contentEditable` blur wiring and the form reset (src/App.tsx:72-73, 111-222) are presentation and are not modelled.
- Table.RecordTable.SubmitForm: the id is a parameter with a precondition that it is unused. The source uses `Math.random()`, whose values are only very probably unused, and this randomness is not modelled. The age is stored as text, because an input element's value is a string whatever the type annotation says. A table holding a row added through the form is therefore outside `SortByAge`'s precondition.
- Table.RecordTable.SortByAge: requires every age to be numeric, so it covers fetched rows only. JavaScript's coercion of text ages inside `a.age - b.age`, from form rows or inline edits (including the NaN that an empty or non-numeric text gives), is not modelled.
- Table.RecordTable.ChangeField: the `hasOwnProperty` test is modelled as always true for a row that exists, because every modelled record has all three columns. Rows that lack a column, such as malformed fetched data, are not modelled.
- React's batching of `setState` calls and stale closures are not modelled. The edit handler writes into the record object that the previous state array shares, and this aliasing is not modelled either. Each handler is one atomic replacement of the state.
- JavaScript numbers are modelled as unbounded integers. Fractional ids and ages, and floating-point rounding, are not modelled. `trim` works on UTF-16 code units while the model works on Unicode characters. Every white-space character lies in the Basic Multilingual Plane, so this does not change which characters are removed.
- A "remove all selected rows" operation does not exist in src/App.tsx, so it is not modelled.
