# ShoppingListService in Dafny

A model of the in-memory shopping list behind the ShoppingList web app. The
service keeps its items in a backing array. The first `_nextIndex` slots hold
the live list in display order, and any slots after that are spare capacity.
It offers these operations:

- GetAll returns the live items.
- GetById looks an item up by id.
- Add appends an item, growing the array by one slot when it is full.
- Update, Delete, TogglePurchased and Reorder change one item or the order.
- Search filters by a case-insensitive query over name and notes.
- ClearPurchased removes every purchased item.

The Dafny project has these modules:

- `Text` (text.dfy): ASCII lower-casing and substring search. Together they stand in for `ToLower` and `Contains`.
- `Items` (items.dfy): the `Item` record (the source's `ShoppingItem`) and the search match on one item. It also has the first-order filter `Criterion`, which covers "not this id", "not purchased" and "matches the query".
- `ItemLists` (itemlists.dfy): the value-level specification of each operation on the live list, with the lemmas about it. These are `Select`, `FirstWithId`, `Updated`, `Toggled` and `Reordered`.
- `Service` (service.dfy): the class `ShoppingListService`. Its fields are `items: array<Item>` (for `_items`) and `count: nat` (for `_nextIndex`). Each method is proved against the `ItemLists` function that specifies it, through the view `Contents() == items[..count]`.
- `Scenarios` (scenarios.dfy): concrete runs of the service that follow its test plan and its search test, proved from the method contracts. The search test runs as six `Add`s and a `Search` on one service. Its value-level fact about `Select` over the same six items is a separate lemma.
- `AsWritten` (aswritten.dfy): Delete and Search as the code stands, with the inputs that show where it departs from the intended behaviour (see "## Findings"). Delete as written is a function of the backing array and the count, so stale slots past the count are part of it. Search as written runs over the whole backing array, which as written never holds an empty slot. The model states each as-written operation for one call on a given state. It does not model a whole as-written session.

Several methods are only stubs in the source: Update, ClearPurchased, TogglePurchased and Reorder. Each of them is modelled from the behaviour stated in its comments and in the test plan (ShoppingList.Tests/ShoppingListServiceTests.cs:53-96). `Delete` and `Search` follow the behaviour their code evidently intends. Where the code does something else, the departure is recorded under "## Findings".

`Add` sets no id on the item it creates. Where ids come from is not visible in the service's code, and the `ShoppingItem` type is not part of this model. So the model takes the id as a parameter of `Add`. The predicate `Keyed()` says that every live id is unique and non-empty. Every operation keeps `Keyed()`, and `Add` keeps it when it is handed a fresh, non-empty id.

## Model

| member | source | states |
|---|---|---|
| Text.LowerChar | ShoppingList.Web/Components/ShoppingListService.cs:93-95 | The result is never an upper-case ASCII letter. An upper-case letter maps to its lower-case partner (code + 32), and every other character is unchanged. |
| Text.Lower | ShoppingList.Web/Components/ShoppingListService.cs:93-95 | Lower-casing keeps the length. No upper-case letter remains. Every character that is not an upper-case letter is kept, and each upper-case letter becomes its lower-case partner. |
| Text.Contains | ShoppingList.Web/Components/ShoppingListService.cs:107 | It is true exactly when the needle occurs at some position of the text, in both directions of the iff. |
| Text.ContainsEmpty | ShoppingList.Tests/ShoppingListServiceTests.cs:70 | Every text contains the empty query. |
| Items.MatchesQuery | ShoppingList.Web/Components/ShoppingListService.cs:93-95 | An item matches exactly when the lower-cased query occurs somewhere in the lower-cased name, or somewhere in the lower-cased notes when there are notes. |
| Items.MatchesQueryIgnoresCase | ShoppingList.Tests/ShoppingListServiceTests.cs:74 | Two queries that agree after lower-casing match exactly the same items. |
| Items.MatchesEmptyQuery | ShoppingList.Tests/ShoppingListServiceTests.cs:70 | The empty query matches every item. |
| ItemLists.UniqueIdsDistinct | ShoppingList.Tests/ShoppingListServiceTests.cs:47 | A list has unique ids exactly when its id sequence has no duplicates. |
| ItemLists.FirstWithId | ShoppingList.Web/Components/ShoppingListService.cs:35 | It is None exactly when no item carries the id. Otherwise it is the index of an item carrying the id, and no earlier item carries it. |
| ItemLists.FirstWithIdUnique | ShoppingList.Web/Components/ShoppingListService.cs:32-37 | When ids are unique, looking up the id of the item at k finds position k. |
| ItemLists.Select | ShoppingList.Web/Components/ShoppingListService.cs:73-83 | The filtered list is no longer than the input. An item is in it exactly when it is in the input and the criterion admits it. |
| ItemLists.SelectSnoc | ShoppingList.Web/Components/ShoppingListService.cs:76-83 | Filtering a list with one more item at the end extends the old result by that item when it is admitted, and otherwise leaves the result as it was. This is the step of the compaction loop. |
| ItemLists.SelectAppend | ShoppingList.Web/Components/ShoppingListService.cs:76-83 | Filtering distributes over concatenation. |
| ItemLists.SelectKeepsAll | ShoppingList.Web/Components/ShoppingListService.cs:116-121 | Filtering returns the list unchanged exactly when every item is admitted. That is also exactly when nothing was dropped, so a zero count of removed items means nothing was removed. |
| ItemLists.SelectIdempotent | ShoppingList.Tests/ShoppingListServiceTests.cs:78-82 | Filtering twice by the same criterion gives the result of filtering once, so a second ClearPurchased removes nothing. |
| ItemLists.SelectKeepsUnique | ShoppingList.Web/Components/ShoppingListService.cs:67-87 | Filtering a list with unique ids gives a list with unique ids. |
| ItemLists.RemoveIdAt | ShoppingList.Tests/ShoppingListServiceTests.cs:59-67 | With unique ids, removing the id of the item at k gives the items before k followed by the items after k. The remaining items shift left in order, and the list is one shorter. |
| ItemLists.RemovePresentId | ShoppingList.Tests/ShoppingListServiceTests.cs:64 | With unique ids, deleting a present id removes exactly one item. |
| ItemLists.SearchEmptyQuery | ShoppingList.Web/Components/ShoppingListService.cs:97-100 | Searching for the empty query keeps every item. |
| ItemLists.SearchIgnoresCase | ShoppingList.Tests/ShoppingListServiceTests.cs:74 | Queries that agree after lower-casing give the same search result. |
| ItemLists.Updated | ShoppingList.Tests/ShoppingListServiceTests.cs:53-57 | An update keeps every id and every purchased flag. |
| ItemLists.UpdatedFindsNewValues | ShoppingList.Web/Components/ShoppingListService.cs:60-65 | After updating a present id, the first item carrying it has the new name, quantity and notes. Its id and purchased flag are kept, and every other item is unchanged. |
| ItemLists.Toggled | ShoppingList.Web/Components/ShoppingListService.cs:123-128 | Toggling keeps every id. |
| ItemLists.ToggledFlipsOne | ShoppingList.Tests/ShoppingListServiceTests.cs:84-88 | For a present id, toggling flips the purchased flag of the first item carrying it and changes nothing else. |
| ItemLists.ToggleTwice | ShoppingList.Tests/ShoppingListServiceTests.cs:87-88 | Toggling the same id twice restores the list. |
| ItemLists.Reordered | ShoppingList.Web/Components/ShoppingListService.cs:130-135 | The ids of the new list are exactly the requested ids, and every item of it comes from the old list. |
| ItemLists.ReorderedIsPermutation | ShoppingList.Tests/ShoppingListServiceTests.cs:90-96 | For a valid order over unique ids, the reordered list is a permutation of the old one (equal multisets) and still has unique ids. |
| Service.AllDistinct | ShoppingList.Tests/ShoppingListServiceTests.cs:94 | It returns true exactly when no id occurs twice in the requested order. |
| Service.Resize | ShoppingList.Web/Components/ShoppingListService.cs:49 | It returns a fresh array of the new length whose first slots hold the old elements in order. |
| Service.ShoppingListService.constructor | ShoppingList.Web/Components/ShoppingListService.cs:13-19 | The new list is empty with zero capacity, and it is keyed. |
| Service.ShoppingListService.GetAll | ShoppingList.Web/Components/ShoppingListService.cs:21-30 | It returns exactly the live items in order, never the spare capacity. |
| Service.ShoppingListService.GetById | ShoppingList.Web/Components/ShoppingListService.cs:32-37 | It is None exactly when no live item carries the id. Otherwise it is the first live item carrying it. In a keyed list, the empty id finds nothing. |
| Service.ShoppingListService.Find | ShoppingList.Web/Components/ShoppingListService.cs:35 | The linear scan returns the position the specification `FirstWithId` gives. |
| Service.ShoppingListService.Add | ShoppingList.Web/Components/ShoppingListService.cs:39-58 | It returns the new, unpurchased item and appends it to the live list. When the array is full it is replaced by a fresh array one slot longer, and otherwise it is kept. Capacity stays equal to the count, and ids stay unique when the id is fresh. |
| Service.ShoppingListService.Update | ShoppingList.Web/Components/ShoppingListService.cs:60-65 | The live list becomes `Updated` of the old one. The result is None exactly when the id is absent, and otherwise it is the updated item. Uniqueness of ids is kept. |
| Service.ShoppingListService.Compact | ShoppingList.Web/Components/ShoppingListService.cs:73-83 | The admitted live items are copied in order into a fresh array of the same capacity, which becomes the backing array. The result is the number of items dropped. |
| Service.ShoppingListService.Delete | ShoppingList.Web/Components/ShoppingListService.cs:67-87 | It returns true exactly when the id is live, and the live list loses exactly the items carrying it. When nothing is deleted, the array and the count are untouched. In a keyed list a delete removes exactly one item. |
| Service.ShoppingListService.Search | ShoppingList.Web/Components/ShoppingListService.cs:89-114 | A null or empty query returns every live item. Any other query returns the live items whose name or notes contain it, ignoring case, in list order. |
| Service.ShoppingListService.ClearPurchased | ShoppingList.Web/Components/ShoppingListService.cs:116-121 | It keeps the unpurchased items in order, and no purchased item remains. It returns the number removed, which is zero exactly when nothing was purchased. Uniqueness of ids is kept. |
| Service.ShoppingListService.TogglePurchased | ShoppingList.Web/Components/ShoppingListService.cs:123-128 | The live list becomes `Toggled` of the old one. It returns true exactly when the id is live, and uniqueness of ids is kept. |
| Service.ShoppingListService.Arrange | ShoppingList.Web/Components/ShoppingListService.cs:130-135 | It succeeds exactly when every requested id is live. On success the fresh array holds `Reordered` of the live list. |
| Service.ShoppingListService.CoversLive | ShoppingList.Tests/ShoppingListServiceTests.cs:93 | It returns true exactly when every live item's id is among the requested ids. |
| Service.ShoppingListService.Reorder | ShoppingList.Web/Components/ShoppingListService.cs:130-135 | It succeeds exactly when the order is non-empty, as long as the list, free of duplicates, and names every live id and only live ids. On success the live list becomes `Reordered` of the old one, and ids stay unique. On failure nothing changes. |
| Scenarios.SearchOrangeFindsThree | ShoppingList.Tests/ShoppingListServiceTests.cs:213-230 | Of the six items of the search test, "Orange" finds exactly the two oranges and the dark-orange pear, in that order. |
| Scenarios.SearchItems | ShoppingList.Tests/ShoppingListServiceTests.cs:217-224 | Six Adds to a new list leave exactly the six items of the search test, in order. |
| Scenarios.SearchOrange | ShoppingList.Tests/ShoppingListServiceTests.cs:213-230 | Searching the service holding those six items for "Orange" returns three items: the two oranges and the dark-orange pear. |
| Scenarios.FiveItems | ShoppingList.Tests/ShoppingListServiceTests.cs:155-178 | Five Adds to a new list leave exactly the five items in order, with capacity equal to the count. |
| Scenarios.DeleteFromFive | ShoppingList.Tests/ShoppingListServiceTests.cs:194-212 | Deleting the first, a middle or the last of five items returns true and leaves the other four ids in order. Deleting an unknown id afterwards returns false. |
| Scenarios.ClearTwoOfFive | ShoppingList.Tests/ShoppingListServiceTests.cs:78-82 | After toggling two of five items, ClearPurchased returns 2 and leaves ids a, c and e. A second clear returns 0. |
| Scenarios.ToggledFive | ShoppingList.Tests/ShoppingListServiceTests.cs:84-88 | Toggling "b" and then "d" marks exactly those two items purchased. |
| Scenarios.ReorderFive | ShoppingList.Tests/ShoppingListServiceTests.cs:90-96 | Reorder refuses an empty, a short, a long and a duplicated order. It then applies the reversed order, after which GetAll lists e, d, c, b, a. |
| AsWritten.DeleteAsWrittenLosesLast | ShoppingList.Web/Components/ShoppingListService.cs:67-87 | On a full array with unique ids, deleting any present id as written reports success and leaves every item but the last live. The item carrying the id stays live unless it was the last one. |
| AsWritten.DeleteAsWrittenDropsWrongItem | ShoppingList.Web/Components/ShoppingListService.cs:73-86 | Deleting "a" from [a, b, c] as written leaves [a, b] live, where the intended result is [b, c]. |
| AsWritten.DeleteAsWrittenFindsStaleId | ShoppingList.Web/Components/ShoppingListService.cs:71-83 | After that delete "c" is no longer live. A second delete of "c" as written still finds it in the stale slot, reports success and keeps [a, b] live. |
| AsWritten.MatchAsWritten | ShoppingList.Web/Components/ShoppingListService.cs:107 | As written, one item's test throws (None) exactly when the query does not occur in the name, compared case-sensitively, and the notes are null. It succeeds exactly when the query occurs case-sensitively in the name or in the notes. |
| AsWritten.SearchAsWritten | ShoppingList.Web/Components/ShoppingListService.cs:89-114 | As written, a search returns a slot for every stored item, whether it matched or not. |
| AsWritten.SearchAsWrittenLeavesGaps | ShoppingList.Web/Components/ShoppingListService.cs:102-113 | Searching the array [Apple, Orange] for "Orange" as written gives an empty slot followed by the orange, where the intended result is just the orange. |
| AsWritten.SearchAsWrittenIsCaseSensitive | ShoppingList.Web/Components/ShoppingListService.cs:107 | As written, searching an "Orange" item without notes for "orange" dereferences the null notes. The intended case-insensitive search finds the item. |

## Left out

- Service.ShoppingListService.GetAll: returns exactly the live items. The source returns an array as long as the capacity, with nulls after the live items, and its test counts the non-null entries.
- Service.ShoppingListService.Search: for a null or empty query, returns the live items. The source returns the whole backing array, which includes any spare capacity.
- Service.ShoppingListService.GetById: searches the live items only. The source's `FirstOrDefault` runs over the whole backing array.
- Service.ShoppingListService.Delete: checks for the id among the live items only. The source's `Any` runs over the whole backing array, and its `foreach` does too.
- Service.ShoppingListService.Add: takes the new item's id as a parameter, because the source's `Add` sets no id and the origin of ids is not visible. Id freshness is therefore a hypothesis of the `Keyed()` guarantee.
- Null ids are not modelled. Stored ids are strings, and the lookup operations take a string, so a null id argument has no counterpart. In a keyed list the empty id finds nothing.
- Only ASCII letters are lower-cased. Culture-specific case mapping and the regular expression in the commented-out search are not modelled.
- `quantity` and the count are unbounded integers. The source's 32-bit `int` could only overflow past two billion items, and quantity is stored but never computed on.
- `GenerateDemoItems` is private and never called, so it is not modelled.
- Thread safety, the UI, dependency injection and the `IShoppingListService` interface are not modelled.
- The `AddShouldAddTenItems` test only checks the length of an array it fills itself, so it has no counterpart in the model.
- The reordering loop writes into a fresh array. Like Delete's compaction, it never moves items within the old array.

## Findings

| source | as written | input that shows it | evidently intended | confidence | as-written member | corrected member |
|---|---|---|---|---|---|---|
| ShoppingList.Web/Components/ShoppingListService.cs:73-86 | Delete compacts into a new array but never stores it back in `_items`, while `_nextIndex` drops to the kept count. | With items with ids a, b and c, Delete("a") leaves the live list [a, b]. | The live list becomes [b, c]. | high; not executed | AsWritten.DeleteAsWrittenDropsWrongItem | Service.ShoppingListService.Delete |
| ShoppingList.Web/Components/ShoppingListService.cs:71-83 | Delete tests for the id and counts survivors over the whole backing array. After an earlier delete, that array still holds items past the count. | Delete("a") and then Delete("c") on items a, b and c: the second call returns true although "c" is no longer live. | Only live items are considered, so the second call returns false. | high; not executed | AsWritten.DeleteAsWrittenFindsStaleId | Service.ShoppingListService.Delete |
| ShoppingList.Web/Components/ShoppingListService.cs:102-113 | Search advances the result index on every item, so a non-match leaves a null slot. The result is as long as the array. | Search("Orange") over [Apple, Orange] gives [null, Orange]. | The matches only, contiguous, in list order: [Orange]. | high; not executed | AsWritten.SearchAsWrittenLeavesGaps | Service.ShoppingListService.Search |
| ShoppingList.Web/Components/ShoppingListService.cs:107 | The match is case-sensitive. It also reads `Notes.Contains` before testing `Notes != null`. | Search("orange") over one item named "Orange" with no notes throws a null dereference. | Case-insensitive matching over the name, and over the notes only when they are present, so the item is found. | high; not executed | AsWritten.SearchAsWrittenIsCaseSensitive | Service.ShoppingListService.Search |
