# BaseRecAdapter data management, modelled in Dafny

This project models the data-management contract of `BaseRecAdapter<D>`,
the generic RecyclerView adapter base class of the easy-adapter library. The
adapter owns an ordered list of items, a notify-on-change flag (true by
default), an optional multi-item-type strategy (`RecMultiItemSupport`) and an
item layout id. Each mutator rewrites the list and then calls
`notifyDataSetChanged()` if and only if the flag is set. Most of them first
guard the input, and the guards differ. The single-item forms of `add`,
`insert` and `remove` ignore a null item. The collection and array forms of
`add` and `insert` ignore a null or empty argument. `sort` ignores a null
comparator, and `update` ignores only a null collection.

- `utils.dfy` (module `Utils`): `Nullable<T>` for a Java reference that may be
  null, and `IsEmptyOrNull`, the library's "null or no elements" test.
- `list_algebra.dfy` (module `ListAlgebra`): the `java.util` list operations the
  adapter delegates to, as functions on sequences: `IndexOf` (`List.indexOf`),
  `RemoveFirst` (`List.remove(Object)`), `Filtered` (the copy loop of `filter`)
  and `Reversed` (`Collections.reverse`), with their lemmas.
- `sorting.dfy` (module `Sorting`): the `java.util.Comparator` contract and
  `SortedBy`, a stable insertion sort standing for `Collections.sort`. It is
  proved sorted, a permutation, stable and idempotent, and it is proved to be
  the only sorted list that is stable with respect to the input.
- `adapter.dfy` (module `Adapter`): the class `BaseRecAdapter` with fields
  `data: seq<D>`, `notifyOnChange`, `notifications` (a counter standing for the
  calls of `notifyDataSetChanged()`), `multiItemSupport` and `itemLayoutId`.
  Each Java method is a Dafny method or function. Each mutator's `ensures` gives
  the new `data` in terms of `old(data)` and the new count of notifications.
  Its frame (`modifies this`data, this`notifications`) says that nothing else
  changes. `filter` keeps its copy loop, proved against `Filtered`. Two client
  methods, `ExampleRemoveInsert` and `ExampleSilentBatch`, are verified using
  only these contracts. The first takes [A, B, C] through `remove(1)` and
  `insert(1, X)`. The second shows that switching notification off silences
  later mutations.

Items are compared with Dafny's `==`, which stands for Java's `equals`.
Comparators and filters are function parameters. `getItemViewType` without a
strategy returns `DefaultViewType`, the value 0 that
`RecyclerView.Adapter.getItemViewType` returns when not overridden.

In four cases the code does more than silently ignore the input, and the
model follows the code. `update` with an empty collection clears the list and
notifies. `refresh` has no guard at all, so an empty collection or array also
clears the list and notifies; its null argument is not modelled (see "## Left
out"). `remove(int)` notifies even when the position is out of range and the
list is unchanged. `remove(D)` notifies even when the item is absent.

## Model

| member | source | states |
|---|---|---|
| `ListAlgebra.IndexOf` | library/src/main/java/dpyinjie/adapter/BaseRecAdapter.java:267-270 | the result is -1 exactly when the item is absent; otherwise it is the least index holding the item |
| `ListAlgebra.RemoveFirstSplice` | library/src/main/java/dpyinjie/adapter/BaseRecAdapter.java:207-217 | removing an item cuts out exactly its first occurrence; an absent item leaves the list unchanged |
| `ListAlgebra.RemoveFirstMultiset` | library/src/main/java/dpyinjie/adapter/BaseRecAdapter.java:213 | removal takes away one occurrence of the item, and only if it is present; the length drops by one exactly then |
| `ListAlgebra.RemoveFirstOfAppended` | library/src/main/java/dpyinjie/adapter/BaseRecAdapter.java:139-148 | removing an item just appended, that was not there before, restores the previous list |
| `ListAlgebra.FilteredExact` | library/src/main/java/dpyinjie/adapter/BaseRecAdapter.java:308-321 | the filtered list is no longer than the original, every element is accepted, and each accepted item occurs as often as in the original while each rejected one is gone |
| `ListAlgebra.FilteredConcat` | library/src/main/java/dpyinjie/adapter/BaseRecAdapter.java:312-316 | filtering distributes over concatenation, so relative order is kept |
| `ListAlgebra.FilteredAllAccepted` | library/src/main/java/dpyinjie/adapter/BaseRecAdapter.java:312-316 | when every item is accepted, filtering changes nothing |
| `ListAlgebra.FilteredIdempotent` | library/src/main/java/dpyinjie/adapter/BaseRecAdapter.java:308-321 | applying the same filter twice equals applying it once |
| `ListAlgebra.Reversed` | library/src/main/java/dpyinjie/adapter/BaseRecAdapter.java:302 | the reversal has the same length, and element k is element length-1-k of the original |
| `ListAlgebra.ReversedInvolutive` | library/src/main/java/dpyinjie/adapter/BaseRecAdapter.java:299-306 | reversing twice restores the list |
| `ListAlgebra.ReversedMultiset` | library/src/main/java/dpyinjie/adapter/BaseRecAdapter.java:302 | reversal is a permutation |
| `Sorting.AtMostTransitive` | library/src/main/java/dpyinjie/adapter/BaseRecAdapter.java:236 | under the Comparator contract, compare(a, b) <= 0 and compare(b, c) <= 0 give compare(a, c) <= 0 |
| `Sorting.SortedByIsSorted` | library/src/main/java/dpyinjie/adapter/BaseRecAdapter.java:236 | the sorted list is ordered by the comparator, for every pair of positions |
| `Sorting.SortedByIsPermutation` | library/src/main/java/dpyinjie/adapter/BaseRecAdapter.java:236 | the sorted list has the same multiset of items as the original |
| `Sorting.SortedByIsStable` | library/src/main/java/dpyinjie/adapter/BaseRecAdapter.java:236 | items that compare equal keep their original relative order, as `Collections.sort` promises |
| `Sorting.SortedByOfSorted` | library/src/main/java/dpyinjie/adapter/BaseRecAdapter.java:236 | an already ordered list is left as it is |
| `Sorting.SortedByIdempotent` | library/src/main/java/dpyinjie/adapter/BaseRecAdapter.java:230-240 | sorting twice with the same comparator equals sorting once |
| `Sorting.SortedUnique` | library/src/main/java/dpyinjie/adapter/BaseRecAdapter.java:236 | two sorted lists in which every class of equal-comparing items appears in the same order are equal |
| `Sorting.StableSortIsSortedBy` | library/src/main/java/dpyinjie/adapter/BaseRecAdapter.java:236 | any sorted list that keeps each class of equal-comparing items in its original order is the model's sorted list, so any stable sort (such as the library's) gives the same result |
| `Adapter.BaseRecAdapter.constructor` | library/src/main/java/dpyinjie/adapter/BaseRecAdapter.java:32-90 | a null data set becomes the empty list, otherwise the given items; the flag starts true, no strategy is set, and the layout id is the one given (default 0) |
| `Adapter.BaseRecAdapter.NotifyDataSetChanged` | library/src/main/java/dpyinjie/adapter/BaseRecAdapter.java:146-147 | each refresh signal adds exactly one to the notification count |
| `Adapter.BaseRecAdapter.GetMultiItemSupport` | library/src/main/java/dpyinjie/adapter/BaseRecAdapter.java:95-97 | the strategy handed out is the one currently installed, or none |
| `Adapter.BaseRecAdapter.SetMultiItemSupport` | library/src/main/java/dpyinjie/adapter/BaseRecAdapter.java:95-104 | the strategy is replaced, and the getter returns the new one |
| `Adapter.BaseRecAdapter.CreateViewHolderLayout` | library/src/main/java/dpyinjie/adapter/BaseRecAdapter.java:107-113 | with a strategy the layout id is overwritten by the strategy's layout for the view type; without one it is kept |
| `Adapter.BaseRecAdapter.GetItemViewType` | library/src/main/java/dpyinjie/adapter/BaseRecAdapter.java:130-136 | the strategy's view type for (position, item) when a strategy is set, else the default 0; only the strategy path needs the position in range |
| `Adapter.BaseRecAdapter.Add` | library/src/main/java/dpyinjie/adapter/BaseRecAdapter.java:138-148 | a non-null item is appended and one notification is sent iff the flag is set; null changes nothing and sends nothing |
| `Adapter.BaseRecAdapter.AddAll` | library/src/main/java/dpyinjie/adapter/BaseRecAdapter.java:150-160 | a non-empty collection is appended in order, with one notification iff the flag is set; a null or empty one is a no-op |
| `Adapter.BaseRecAdapter.AddItems` | library/src/main/java/dpyinjie/adapter/BaseRecAdapter.java:162-168 | the varargs form has the same guard and effect as `AddAll` |
| `Adapter.BaseRecAdapter.Insert` | library/src/main/java/dpyinjie/adapter/BaseRecAdapter.java:170-181 | a non-null item lands at the position, between the old prefix and suffix; null is a no-op and needs no valid position |
| `Adapter.BaseRecAdapter.InsertAll` | library/src/main/java/dpyinjie/adapter/BaseRecAdapter.java:183-193 | a non-empty collection is spliced in whole, in order, at the position; a null or empty one is a no-op |
| `Adapter.BaseRecAdapter.InsertItems` | library/src/main/java/dpyinjie/adapter/BaseRecAdapter.java:195-205 | the varargs form splices at the position like `InsertAll` |
| `Adapter.BaseRecAdapter.Remove` | library/src/main/java/dpyinjie/adapter/BaseRecAdapter.java:207-217 | only the first occurrence is cut out; an absent item leaves the list unchanged but still notifies; null returns without notifying |
| `Adapter.BaseRecAdapter.RemoveAt` | library/src/main/java/dpyinjie/adapter/BaseRecAdapter.java:219-228 | exactly the element at the position is removed when the position is below the size, otherwise nothing; one notification iff the flag is set in both cases |
| `Adapter.BaseRecAdapter.Sort` | library/src/main/java/dpyinjie/adapter/BaseRecAdapter.java:230-240 | with a comparator, the list becomes ordered by it, a permutation of the old list, with every class of equal-comparing items in its old order; a null comparator is a no-op without notification |
| `Adapter.BaseRecAdapter.GetDataSet` | library/src/main/java/dpyinjie/adapter/BaseRecAdapter.java:242-245 | the data set handed out holds exactly the adapter's items, as many as `getCount()` reports |
| `Adapter.BaseRecAdapter.SetNotifyOnChange` | library/src/main/java/dpyinjie/adapter/BaseRecAdapter.java:247-250 | the flag takes the given value |
| `Adapter.BaseRecAdapter.GetItemCount` | library/src/main/java/dpyinjie/adapter/BaseRecAdapter.java:252-255 | the count reported to RecyclerView equals `getCount()`, the size of the list |
| `Adapter.BaseRecAdapter.GetCount` | library/src/main/java/dpyinjie/adapter/BaseRecAdapter.java:257-260 | the count is the size of the list |
| `Adapter.BaseRecAdapter.GetItem` | library/src/main/java/dpyinjie/adapter/BaseRecAdapter.java:262-265 | an in-range position yields the item stored there, which is an item of the list |
| `Adapter.BaseRecAdapter.GetPosition` | library/src/main/java/dpyinjie/adapter/BaseRecAdapter.java:267-270 | -1 exactly for null or an absent item; otherwise the least index holding the item |
| `Adapter.BaseRecAdapter.GetItemId` | library/src/main/java/dpyinjie/adapter/BaseRecAdapter.java:272-275 | a row's id is its position |
| `Adapter.BaseRecAdapter.Update` | library/src/main/java/dpyinjie/adapter/BaseRecAdapter.java:277-288 | a non-null data set replaces the contents entirely; null is a no-op without notification |
| `Adapter.BaseRecAdapter.Clear` | library/src/main/java/dpyinjie/adapter/BaseRecAdapter.java:290-297 | the list becomes empty, with one notification iff the flag is set |
| `Adapter.BaseRecAdapter.Reverse` | library/src/main/java/dpyinjie/adapter/BaseRecAdapter.java:299-306 | the list becomes its reversal, a permutation of the old list |
| `Adapter.BaseRecAdapter.Filter` | library/src/main/java/dpyinjie/adapter/BaseRecAdapter.java:308-321 | the list becomes exactly the accepted items in their original order: no longer than before, all accepted, each accepted item as often as before |
| `Adapter.BaseRecAdapter.IsEmpty` | library/src/main/java/dpyinjie/adapter/BaseRecAdapter.java:323-326 | true exactly when the list has no items, that is when the count is 0 |
| `Adapter.BaseRecAdapter.Refresh` | library/src/main/java/dpyinjie/adapter/BaseRecAdapter.java:329-338 | the contents become exactly the given items, with one notification iff the flag is set |
| `Adapter.BaseRecAdapter.RefreshItems` | library/src/main/java/dpyinjie/adapter/BaseRecAdapter.java:340-343 | the varargs form replaces the contents like `Refresh` |

## Left out

- The view holder (`holder/RecHolder.java`) is not modelled. Every method in it delegates to Android `View` setters, memoizes `findViewById`, or is gated on the platform version. `setImageUrl` is an empty stub.
- The `synchronized (mLock)` blocks are not modelled. The model is sequential, so the interleaving of two threads' mutations and notifications is not captured.
- `notifyDataSetChanged()` is reduced to a counter. `onBindViewHolder`, `onBindViews` and the inflation in `onCreateViewHolder` (`RecHolder.createHolder`) are toolkit callbacks and are left out. Only the layout-id choice of `onCreateViewHolder` is modelled. The `Context` is not modelled.
- `GetDataSet` returns the list's value, not a live reference. Aliasing through that reference is not modelled. In Java, `update(getDataSet())` empties the list, because `clear()` also empties the argument. A collection obtained before `filter` goes stale, because `filter` rebinds the field.
- The constructor copies the given items into the adapter. In Java, `init` (BaseRecAdapter.java:88) stores the caller's `List` itself, so until `filter` rebinds the field every in-place mutator also changes the caller's list, and the caller's own changes to it show up in the adapter. The array constructors wrap the caller's array with `Arrays.asList` (lines 49 and 58), so `sort` and `reverse` write through to that array. None of this sharing is modelled.
- The array constructors' `Arrays.asList` gives a fixed-size list, and the model treats every list as resizable. On such a list Java throws `UnsupportedOperationException` in these cases: `add` of a non-null item; `add` of a non-empty collection or array; every `insert` form with non-null or non-empty input; `remove(D)` of a present item; `remove(int)` of an in-range position; `clear` on a non-empty list; `update` and `refresh` when the list or the argument is non-empty. `remove` of an absent item or of an out-of-range position, `sort` and `reverse` do not throw. After `filter` installs a fresh `ArrayList`, nothing throws anymore.
- Positions outside the range that `ArrayList` and `List.get` accept make Java throw `IndexOutOfBoundsException`. The model does not model these throws. It makes them preconditions instead, as follows:
  - `Insert`, `InsertAll`, `InsertItems`: they require `0 <= position <= size` when the input is non-null and non-empty.
  - `RemoveAt`: it requires `0 <= position`.
  - `GetItem`: it requires `0 <= position < size` (`mDataSet.get`, line 264).
  - `GetItemViewType`: it requires `0 <= position < size` when a strategy is set (`mDataSet.get`, line 133).
- Collections passed in are modelled as holding non-null items. Java's `addAll` can put null elements into the list. The single-item guards (`add`, `insert`, `remove`, `getPosition`) are modelled on the argument only.
- Item equality is Dafny `==` standing for `equals`. The item type has no heap references (`!new`), because the comparator contract quantifies over all items.
- Refresh: `refresh(null)` is not modelled. In Java it clears the list and then throws `NullPointerException`. The parameter here is a non-null sequence.
- RefreshItems: a null array is not modelled. In Java `refresh((D[]) null)` throws `NullPointerException` in `Arrays.asList` before the list is touched (line 342). The parameter here is a non-null sequence.
- Filter: a null filter is not modelled. In Java it throws `NullPointerException` on a non-empty list. On an empty list it installs a fresh empty list and notifies.
- Sort: the comparator must keep the `Comparator` contract on all items. `Collections.sort` may throw `IllegalArgumentException` on a comparator that breaks it; that path is not modelled. The sorting algorithm itself (TimSort) is not modelled: `SortedBy` is an insertion sort, and `StableSortIsSortedBy` shows that every stable sort gives the same list.
- Java `int` and `long` widths are not modelled. Sizes and positions are unbounded integers, and `getItemId` widens the position to `long` without change.
- `Utils.isEmptyOrNull` and `Utils.dp2px`/`sp2px` are not part of this model. `isEmptyOrNull` is taken to mean "null or no elements". The dp/sp conversions are floating point.
