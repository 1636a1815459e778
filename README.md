# Packing-list state of the "Far Away" todo app

This project models the `App` component of a React packing-list
application. The component keeps a list of item records. Each record has an
id, a quantity, a text and a `checked` ("packed") flag. The component offers
these handlers:

- add a record from the form fields;
- delete the records with an id;
- toggle the `checked` flag of the records with an id;
- clear the list;
- reorder the list by one of three sort options ("order", "description",
  "status");
- count the packed records.

The model has three modules:

- `Sorting` models `Array.prototype.sort` with a comparator, as ECMA-262
  (2023 edition, section 23.1.3.30) defines it. There the sort must be
  stable, and with a consistent comparator the result is ordered by it. A
  stable sort by a consistent comparator has exactly one result, which
  `SortUnique` proves.
  - `Sort` is that result, stated as a stable insertion sort over sequences.
  - `InsertionSort` runs it in place on an array.
  - Lemmas prove that `Sort` gives a permutation of its input, that the
    result is ordered, that the sort is stable, and that every ordered list
    keeping each key's elements in input order is `Sort` of the input.
- `Items` holds the record datatypes and the id rendering
  (`"item-"` followed by the clock's decimal digits). It defines each
  handler's list transformation as a pure function, with lemmas relating
  them:
  - deleting is idempotent;
  - toggling twice is the identity;
  - delete after toggle of the same id is the delete alone;
  - "status" sorting is a stable partition: unchecked records, then
    checked ones;
  - the packed count does not change under add or sort.
- `Component` holds the class `App`. Its fields are the component's three
  state variables. It has one method per handler, and each method's
  postcondition ties the new state to the `Items` functions. The sort
  handler copies the list into an array and sorts it in place with
  `InsertionSort`. `PackingScenario` runs add, add, check and delete in a
  row and states the resulting counts and list.

## Model

| member | source | states |
|---|---|---|
| Sorting.Insert | src/App.jsx:47-51 | Inserting one element into a list gives a list exactly one longer. |
| Sorting.Sort | src/App.jsx:47-51 | The stable sort keeps the length of the list. |
| Sorting.SameKey | src/App.jsx:47-51 | It picks out, in order, the elements that compare equal to a key. It is never longer than the input, and every element it keeps compares equal to the key. |
| Sorting.InsertPermutation | src/App.jsx:47-51 | The list after inserting `x` holds exactly the old elements plus `x`, as a multiset. |
| Sorting.SortPermutation | src/App.jsx:45-51 | The sorted copy is a permutation of the list. |
| Sorting.InsertSorted | src/App.jsx:47-51 | Under a consistent comparator, inserting into an ordered list keeps it ordered. |
| Sorting.SortSorted | src/App.jsx:47-51 | Under a consistent comparator, every element of the sorted copy may precede every later element. |
| Sorting.AfterEqual | src/App.jsx:47-51 | Under a consistent comparator, an element that sorts after `b` also sorts after anything that compares equal to `b`. |
| Sorting.InsertStable | src/App.jsx:47-51 | Inserting `y` leaves the order of the elements equal to any key unchanged, and `y` joins them at their end. |
| Sorting.SortStable | src/App.jsx:47-51 | Stability: for every key, the elements equal to it appear in the sorted copy in the same relative order as in the input. |
| Sorting.Reflexive | src/App.jsx:47-51 | Under a consistent comparator every element compares equal to itself. |
| Sorting.SameKeyIn | src/App.jsx:47-51 | Every element `SameKey` picks out occurs in its input. |
| Sorting.LastFollows | src/App.jsx:47-51 | Every element of an ordered list may precede the list's last element. |
| Sorting.SameKeyLast | src/App.jsx:47-51 | When a list's last element has the key, the elements of that key end with it. |
| Sorting.LastAgree | src/App.jsx:47-51 | Two ordered lists that agree on the elements of every key, in order, end with the same element. |
| Sorting.StripLast | src/App.jsx:47-51 | Dropping a shared last element from two lists that agree on a key's elements keeps them in agreement on that key. |
| Sorting.SortedUnique | src/App.jsx:47-51 | Two ordered lists that agree, for every key, on that key's elements and their order are equal. |
| Sorting.SortUnique | src/App.jsx:45-51 | Under a consistent comparator, any ordered list whose elements of every key are the input's, in input order, equals `Sort` of the input: the stable sort the standard requires has exactly one result, and it is `Sort`. |
| Sorting.ShiftAfter | src/App.jsx:47-51 | It shifts the run of elements before `i` that sort after `x` one place right. The hole it returns has an element that does not sort after `x` (or nothing) before it. Nothing else changes. |
| Sorting.InsertLast | src/App.jsx:47-51 | One in-place insertion step: the prefix up to `i` becomes `Insert` of the old prefix and the old `a[i]`, and the rest of the array is unchanged. |
| Sorting.Placed | src/App.jsx:47-51 | An array slice that matches `t` before `j`, holds `x` at `j` and matches `t` shifted by one after `j` equals `t[..j] + [x] + t[j..]`. |
| Sorting.InsertAt | src/App.jsx:47-51 | `Insert` puts `x` right after the last element that does not sort after it. |
| Sorting.InsertionSort | src/App.jsx:45-51 | Sorting the array in place leaves exactly `Sort` of its old contents. |
| Items.Digit | src/App.jsx:20 | A digit below ten renders as a character from '0' to '9'. |
| Items.Decimal | src/App.jsx:20 | A number's decimal rendering is non-empty, all digits, and a single digit exactly when the number is below ten. |
| Items.DecimalDistinct | src/App.jsx:20 | Distinct numbers render to distinct digit strings. |
| Items.ItemId | src/App.jsx:20 | An id is the prefix `item-` followed by `Decimal` of the time, so it is longer than the prefix. |
| Items.ItemIdDistinct | src/App.jsx:20 | Records added at distinct times get distinct ids. |
| Items.Added | src/App.jsx:17-27 | Adding keeps the old records as a prefix and appends one unchecked record with the form's quantity and text and the time-based id. |
| Items.AddedAfterEarlierKeepsIdsUnique | src/App.jsx:17-27 | If every existing record was added at an earlier time, adding now keeps the ids unique. |
| Items.Deleted | src/App.jsx:29-31 | No record with the id survives a delete, and the list never grows. |
| Items.DeletedCounts | src/App.jsx:29-31 | Records with the id are removed in every copy, and every other record keeps its number of copies. |
| Items.DeletedAppend | src/App.jsx:29-31 | Deleting from a concatenation is deleting from each part, so the survivors keep their order. |
| Items.DeletedAbsent | src/App.jsx:29-31 | Deleting an id that no record has leaves the list unchanged. |
| Items.DeletedIdempotent | src/App.jsx:29-31 | Deleting the same id twice equals deleting it once. |
| Items.Toggled | src/App.jsx:33-37 | Toggling keeps the length and every id, quantity and text. It flips `checked` exactly on the records with the id and leaves every other record identical. |
| Items.ToggledTwice | src/App.jsx:33-37 | Checking the same id twice gives back the original list. |
| Items.DeletedToggled | src/App.jsx:29-37 | Deleting an id after toggling it equals deleting it alone. |
| Items.WithStatus | src/App.jsx:56 | The filter by `checked` never grows the list, and every record it keeps has the requested status. |
| Items.CheckedCount | src/App.jsx:56 | The packed count never exceeds the number of records. |
| Items.WithStatusAppend | src/App.jsx:56 | Filtering a concatenation by status is concatenating the filtered parts. |
| Items.CheckedCountSplit | src/App.jsx:56 | The packed count plus the unpacked count equals the list's length. |
| Items.CheckedCountAppend | src/App.jsx:56 | The packed count of a concatenation is the sum of the parts' counts. |
| Items.RemoveMatching | src/App.jsx:56 | Removing the same record from two permutations of each other leaves two permutations of each other. |
| Items.CheckedCountPermutation | src/App.jsx:56 | Two lists with the same records in any order have the same packed count. |
| Items.AddedCheckedCount | src/App.jsx:17-27 | Adding a record (always unchecked) leaves the packed count unchanged. |
| Items.SortedItems | src/App.jsx:43-54 | Every option gives a permutation of the list. "status" gives the unchecked records and then the checked ones, each group in its old order. An unknown option leaves the list as it was. |
| Items.AsNumber | src/App.jsx:51 | A boolean converts to a number in arithmetic as 0 or 1, and to 1 exactly when it is true. |
| Items.ById | src/App.jsx:47 | No contract; the comparator of the "order" option, `localeCompare` on the ids. Its properties are in `ByIdConsistent` and `SortByOrder`. |
| Items.ByText | src/App.jsx:49 | No contract; the comparator of the "description" option, `localeCompare` on the texts. Its properties are in `ByTextConsistent` and `SortByDescription`. |
| Items.ByStatus | src/App.jsx:51 | The "status" comparator returns -1, 0 or 1. It is 0 exactly when both records have the same status, and negative exactly when the first is unchecked and the second checked. |
| Items.ByIdConsistent | src/App.jsx:47 | The "order" comparator is consistent whenever `localeCompare` is. |
| Items.ByTextConsistent | src/App.jsx:49 | The "description" comparator is consistent whenever `localeCompare` is. |
| Items.ByStatusConsistent | src/App.jsx:51 | Subtracting the `checked` flags as numbers is a consistent comparator. |
| Items.SortByOrder | src/App.jsx:46-47 | After "order", the ids are non-decreasing under `localeCompare`, and records with equal ids keep their relative order. |
| Items.SortByDescription | src/App.jsx:48-49 | After "description", the texts are non-decreasing under `localeCompare`, and records with equal texts keep their relative order. |
| Items.InsertByStatus | src/App.jsx:50-51 | Into an unchecked-then-checked list, an unchecked record goes after the last unchecked one and a checked record goes last. |
| Items.SortByStatus | src/App.jsx:50-51 | Sorting by status equals the unchecked records followed by the checked records, each group in its original order. |
| Items.SortedItemsCheckedCount | src/App.jsx:43-56 | No sort option changes the packed count. |
| Items.SortByStatusExample | src/App.jsx:51 | With only B checked, the stable sort of [A, B, C] by the status comparator is [A, C, B]. |
| Items.StatusSortExample | src/App.jsx:43-54 | With only B checked, choosing the "status" option for [A, B, C] gives [A, C, B]. |
| Items.DescriptionSortExample | src/App.jsx:48-49 | Under a collation that puts "Passport" first, sorting ["Sunscreen", "Passport"] by description gives ["Passport", "Sunscreen"]. |
| Component.App.constructor | src/App.jsx:5-11 | The list starts as the stored list when one was found and empty otherwise. The text field starts empty and the quantity at the number 1. |
| Component.App.SetNewItemText | src/App.jsx:78 | The text field takes the typed value. |
| Component.App.SetNewItemQuantity | src/App.jsx:68 | The quantity becomes the option's value as a string. |
| Component.App.CheckedCount | src/App.jsx:56 | The displayed packed count never exceeds the number of records. |
| Component.App.HandleAddItem | src/App.jsx:17-27 | The list becomes `Added` of the old list with the form's fields. The text field is emptied, the quantity is kept and the packed count is unchanged. |
| Component.App.HandleDeleteItem | src/App.jsx:29-31 | The list becomes `Deleted` of the old list. |
| Component.App.HandleCheckItem | src/App.jsx:33-37 | The list becomes `Toggled` of the old list. |
| Component.App.HandleClearItems | src/App.jsx:39-41 | The list becomes empty and the packed count 0. |
| Component.App.HandleSortItems | src/App.jsx:43-54 | The list becomes `SortedItems` of the old list under the chosen option. It holds the same records and the same packed count. |
| Component.PackingScenario | src/App.jsx:17-56 | Adding "Passport" and then "Sunscreen" (at different times) and checking the first gives 2 records with 1 packed. Deleting the second then leaves only the packed "Passport" record. |

## Left out

- Persistence: reading the list from `localStorage` and parsing it as JSON at start-up (src/App.jsx:6-7), and writing it back after every change (src/App.jsx:13-15), are I/O. The constructor takes the outcome of the read as an `Option`.
- Malformed stored data: in the code, `JSON.parse` throws on such data and the component fails to start; it does not fall back to an empty list. The model follows the code, so no case for malformed data exists: the constructor only sees a list or its absence.
- The clock: `Date.now()` becomes the parameter `now` of `HandleAddItem`, a natural number of milliseconds.
- Component.App.HandleAddItem: the code gives distinct ids only while no two records are added in the same millisecond; it does not promise uniqueness. The model proves uniqueness only under that condition (`AddedAfterEarlierKeepsIdsUnique`) and does not claim it as an invariant of `App`.
- Items.Decimal: a template literal renders numbers of 10^21 and above in exponent notation; the model always writes plain digits, which matches every clock value in practice.
- String collation: `localeCompare` is a parameter, required to be a consistent comparator, as ECMA-262 requires of it. Its locale-dependent order is not modelled.
- Component.App.HandleSortItems: requires a consistent `localeCompare`; the sort's result for an inconsistent comparator is implementation-defined and is not modelled.
- Quantity: the code stores the number 1 at first and afterwards the select's string value. The model keeps both forms (`Quantity`) and does not model the 1 to 20 range of the options, which the code never checks.
- Form validation: the text input's `required` attribute and the `preventDefault` call are browser behaviour. The model accepts any text, the empty text included.
- Rendering (JSX, the empty-list message, the footer text) and React's update scheduling are not modelled; each handler's new state takes effect at once.
