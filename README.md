# sorted-list-js in Dafny

A model of the two containers of sorted-list-js (`index.ts`) and proofs
about them.

- `SortedArray<T>` keeps its elements in the order of a compare function.
  `insert` and `push` splice each element in at the position
  `findIndexFor` reports. `findIndexFor` first checks the last element,
  because appending is the common case. Then it scans linearly when there
  are fewer than eight elements, and otherwise runs the lower-bound binary
  search `binarySearchResult`. `delete` and `upsert` also locate their
  value with it, and `fromArray` reaches it through `push`. `deleteAt`,
  `pop`, `clear`, `first` and `last` work on positions or the ends only.
- `DoubleSortedArray<T>` is one sorted sequence split into two
  `SortedArray` halves. `left` is ordered by the inverted compare function
  (`invertCompareFn`), so it is stored in descending order. `right` is
  ordered by the compare function itself. The logical sequence is `left`
  read back to front followed by `right`. `insert` routes each value to
  one half. `at`, the iterator, `toArray` and `deleteAt` translate
  logical positions into positions in a half. `delete` takes a value and
  searches both halves for it.

Files and modules:

- `options.dfy` (`Options`): the `Option` type that stands for `T | undefined` results.
- `ordering.dfy` (`Ordering`): comparators and the orders they induce.
  - `ValidCmp` requires the sign of `cmp` to be antisymmetric and "compares
    at most" to be transitive.
  - Also here: sortedness, `Invert`, `Reverse`.
- `search.dfy` (`Search`): the lower and upper bounds, the outcome of `findIndexFor`
  as a function (`Locate`), and `binarySearchResult` as a loop proved
  against the lower bound.
- `sortedarrays.dfy` (`SortedArrays`): the buffer operations as functions
  (`Inserted`, `Upserted`, `Deleted`, `InsertAll`) with their sortedness
  and permutation lemmas. The class `SortedArray` holds the comparator and
  a `seq` buffer that its methods reassign. `StableInserted` and
  `StableInsertAll` insert at the upper bound instead; they are the
  insertion-order-preserving alternative described under Findings.
- `doublesortedarrays.dfy` (`DoubleSortedArrays`): the class
  `DoubleSortedArray` over two `SortedArray` objects.
  - Its invariant `Halves`: `left` is sorted under the inverted comparator,
    `right` is sorted, and every element of `left` compares at most every
    element of `right`.
  - The lemmas show that routing, deleting and deleting by position keep
    that invariant. They also show the logical sequence stays sorted and
    changes by exactly the element added or removed.
- `scenarios.dfy` (`Scenarios`): the behaviour `index.test.ts` checks,
  stated for `numCmp = (a, b) => a - b` on integers. It also holds the
  concrete inputs behind the Findings, over `index.ts` itself
  (`FstCmpValid`, `InsertionOrderAsWritten`, `InsertionOrderStable`,
  `DeleteAsWrittenRemovesTwo`, `DeleteZeroScenario`).

The comparator is a parameter of type `(T, T) -> int`; only its sign
matters. JavaScript arrays become `seq` fields. `undefined` results become
`Option.None`. The `Result<number, number>` of `findIndexFor` becomes
`SearchResult`, with `Found(i)` for `{ ok: true, value: i }` and
`NotFound(i)` for `{ ok: false, error: i }`.

## Model

| member | source | states |
|---|---|---|
| `Ordering.InvertIsValid` | index.ts:139-141 | negating a valid comparator gives a valid comparator |
| `Ordering.Invert` | index.ts:139-141 | `invertCompareFn`: the comparator that returns the negated result; `InvertIsValid`, `InvertLe` and `InvertHasEqual` state what that does to the order |
| `Ordering.InvertLe` | index.ts:139-141 | under the inverted comparator, `a` compares at most `b` exactly when `b` compares at most `a` under the original; equality is unchanged |
| `Ordering.InvertSortedIsReverseSorted` | index.ts:147 | a buffer is sorted under the inverted comparator exactly when its reversal is sorted under the comparator ("stored in reverse order") |
| `Ordering.InvertHasEqual` | index.ts:139-141 | inverting does not change which elements compare equal to a value |
| `Ordering.AdjacentSortedIsSorted` | index.test.ts:50-52 | under a valid comparator, "each adjacent pair is in order" and "every pair is in order" say the same thing |
| `Ordering.SortedUnique` | index.ts:20-22 | under a strict comparator, two sorted sequences with the same elements are equal, so a sorted result is fixed by its multiset |
| `Search.LowerBound` | index.ts:115-137 | the lower bound is between 0 and the length; every element before it is less than `v`; the element at it is not less |
| `Search.LowerBoundSplits` | index.ts:120-131 | on a sorted sequence, no element from the lower bound on is less than `v` |
| `Search.LowerBoundResult` | index.ts:132-136 | the result `binarySearchResult` builds after its loop: `Found` at the lower bound when an element there compares equal, `NotFound` at the lower bound otherwise; `BinarySearchResult` is proved to return it |
| `Search.Locate` | index.ts:71-102 | the reported index is between 0 and the length, and `Found(i)` has an element comparing equal at `i` |
| `Search.LocateSound` | index.ts:71-102 | on a sorted buffer: `Found(i)` holds an equal element; `NotFound(i)` has only smaller elements before `i` and only greater ones from `i` on; the outcome is `Found` exactly when an equal element exists |
| `Search.LocateFits` | index.ts:39-43 | inserting `v` at the reported index (Found or NotFound) leaves everything before it at most `v` and everything from it on at least `v` |
| `Search.BinarySearchResult` | index.ts:115-137 | the loop ends at the lower bound; the result is `Found` exactly when the element there compares equal to the target |
| `SortedArrays.InsertAt` | index.ts:41 | `splice(i, 0, v)` grows the sequence by one, puts `v` at `i` and adds exactly `v` to the multiset |
| `SortedArrays.InsertAtShifts` | index.ts:41 | `splice(i, 0, v)` keeps the elements before `i` and moves the rest up by one |
| `SortedArrays.RemoveAt` | index.ts:47 | `splice(i, 1)` keeps the elements before `i`, shifts down the ones after it, and removes exactly `s[i]` from the multiset |
| `SortedArrays.Inserted` | index.ts:39-43 | the buffer after `insert(v)`: `v` spliced in at the index `findIndexFor` reports, whether found or not; `InsertedSorted` states its properties |
| `SortedArrays.Upserted` | index.ts:60-69 | the buffer after `upsert(v)`: the found slot overwritten with `v`, or `v` spliced in at the not-found index; `UpsertedSorted` and `UpsertIdempotent` state its properties |
| `SortedArrays.Deleted` | index.ts:52-58 | the buffer after `delete(v)`: the found element spliced out, or the buffer unchanged when the search does not find `v`; `DeletedSorted` states its properties |
| `SortedArrays.InsertAll` | index.ts:24-29 | the buffer after `push(...es)`: each element inserted in turn, first to last; `InsertAllSorted` states its properties |
| `SortedArrays.RemoveAtSorted` | index.ts:45-50 | removing any position keeps a buffer sorted |
| `SortedArrays.InsertedSorted` | index.ts:39-43 | `insert` keeps the buffer sorted, grows it by one and adds exactly `v` |
| `SortedArrays.UpsertedSorted` | index.ts:60-69 | `upsert` keeps the buffer sorted; with an equal element present the length is unchanged; otherwise exactly `v` is added |
| `SortedArrays.UpsertIdempotent` | index.ts:60-69 | after `upsert(v)` an equal element is found, and a second `upsert(v)` leaves the buffer as it was |
| `SortedArrays.DeletedSorted` | index.ts:52-58 | `delete` keeps the buffer sorted; the search finds `v` exactly when an equal element exists; then exactly one equal element is removed; otherwise nothing changes |
| `SortedArrays.InsertAllSorted` | index.ts:24-29 | pushing a list keeps the buffer sorted, adds the list's length and adds exactly its elements |
| `Search.UpperBound` | index.ts:39-43 | the upper bound is between 0 and the length; every element before it is at most `v`; the element at it is greater |
| `Search.UpperBoundSplits` | index.ts:39-43 | on a sorted sequence every element from the upper bound on is greater than `v` |
| `SortedArrays.StableInserted` | index.ts:39-43 | the corrected `insert`: `v` spliced in at the upper bound, after every element comparing at most `v`; `StableInsertedSorted` and `StableInsertedKeepsOrder` state its properties |
| `SortedArrays.StableInsertAll` | index.ts:24-29 | the corrected `push`: each element inserted in turn at its upper bound; `StableInsertAllKeepsOrder` states its properties |
| `SortedArrays.StableInsertedSorted` | index.ts:39-43 | inserting at the upper bound keeps the buffer sorted and adds exactly `v` |
| `SortedArrays.StableInsertedKeepsOrder` | index.ts:39-43 | after inserting `e` at its upper bound, the elements comparing equal to any `v` are the old ones in their old order, followed by `e` when `e` compares equal to `v` |
| `SortedArrays.StableInsertAllKeepsOrder` | index.ts:24-29 | pushing a list at upper bounds keeps the buffer sorted, adds exactly the list's elements, and leaves every class of equal elements as the old ones followed by the pushed ones in push order |
| `SortedArrays.SortedArray.constructor` | index.ts:8-11 | a new container is empty, valid and keeps the given comparator |
| `SortedArrays.SortedArray.FromArray` | index.ts:20-22 | the result is a fresh, sorted container holding exactly the elements of the input |
| `SortedArrays.SortedArray.Push` | index.ts:24-29 | the buffer becomes the given elements inserted in turn; it gains exactly those elements; the returned length is the new length |
| `SortedArrays.SortedArray.Pop` | index.ts:31-33 | absent on an empty buffer; otherwise removes and returns the last element, and no remaining element compares greater than it |
| `SortedArrays.SortedArray.Clear` | index.ts:35-37 | the buffer becomes empty |
| `SortedArrays.SortedArray.Insert` | index.ts:39-43 | the buffer is the old one with `v` spliced in at the search position; it grows by one and gains exactly `v`; the result is `true` |
| `SortedArrays.SortedArray.DeleteAt` | index.ts:45-50 | below the length, removes and returns the element at `idx`; from the length on, returns absent and changes nothing |
| `SortedArrays.SortedArray.Delete` | index.ts:52-58 | returns an element exactly when one compares equal to `v`; that element compares equal and is removed once from the multiset; otherwise nothing changes |
| `SortedArrays.SortedArray.Upsert` | index.ts:60-69 | reports "inserted" exactly when no element compares equal; an update keeps the length; an insertion adds exactly `v` |
| `SortedArrays.SortedArray.FindIndexFor` | index.ts:71-102 | the tail check, the linear scan and the binary search together return `Locate`'s outcome: `NotFound(0)` when empty, `NotFound(length)` when the last element is smaller, and otherwise the bounds and partition `LocateSound` states |
| `SortedArrays.SortedArray.First` | index.ts:104-107 | absent exactly when empty; otherwise the element at index 0, which compares at most every element |
| `SortedArrays.SortedArray.Last` | index.ts:109-112 | absent exactly when empty; otherwise the element at the last index, which compares at least every element |
| `DoubleSortedArrays.JoinSorted` | index.ts:229-232 | under the two-halves invariant, `left` read backwards followed by `right` is sorted |
| `DoubleSortedArrays.RoutesLeft` | index.ts:192-220 | the routing rule of `insert`: right when both halves are empty; with `left` empty, left when `v` compares at most the first element of `right`; otherwise left when `v` compares at most the last or the first element of `left`; `RoutesLeftByMaximum` and `RoutingKeepsBoundary` state its properties |
| `DoubleSortedArrays.RoutingKeepsBoundary` | index.ts:192-220 | the half `insert` chooses keeps every left element at most every right element after `v` joins it |
| `DoubleSortedArrays.RoutesLeftByMaximum` | index.ts:207-219 | with `left` non-empty, `insert` routes `v` left exactly when it compares at most the greatest left element |
| `DoubleSortedArrays.InsertKeepsHalves` | index.ts:192-220 | after routing and inserting, the invariant holds and the logical sequence gains exactly `v` |
| `DoubleSortedArrays.DeleteKeepsHalves` | index.ts:240-242 | `delete` keeps the invariant; the left search finds `v` exactly when `left` holds an equal element |
| `DoubleSortedArrays.DeletedRight` | index.ts:240-242 | the right buffer after `delete(v)`: unchanged when the left search finds `v`, the right buffer with `v` deleted otherwise; `DeleteKeepsHalves` and `DeleteRemovesOne` state its properties |
| `DoubleSortedArrays.DeleteRemovesOne` | index.ts:240-242 | with no equal element the logical sequence is unchanged; otherwise exactly one element comparing equal to `v` leaves it |
| `DoubleSortedArrays.DeletedAsWritten` | index.ts:240-242 | `delete` as written, the left result or else the right one: the right half is searched as well whenever the left result is falsy, including a removed falsy element; `DeletedAsWrittenAgrees` and `DeleteAsWrittenRemovesTwo` state its properties |
| `DoubleSortedArrays.DeletedAsWrittenAgrees` | index.ts:240-242 | when no element of `left` is falsy, the source's truthiness test and the "left returned absent" test give the same buffers |
| `DoubleSortedArrays.RemoveFromLeft` | index.ts:247-248 | removing left position `left.length - 1 - i` removes logical position `i` |
| `DoubleSortedArrays.RemoveFromRight` | index.ts:249-250 | removing right position `i - left.length` removes logical position `i` |
| `DoubleSortedArrays.DeleteAtLeft` | index.ts:247-248 | for a logical position inside `left`, the element there is left slot `left.length - 1 - i`, and removing that slot removes the position and keeps the invariant |
| `DoubleSortedArrays.DeleteAtRight` | index.ts:249-250 | for a logical position past `left`, the element there is right slot `i - left.length`, and removing that slot removes the position and keeps the invariant |
| `DoubleSortedArrays.ShrinkKeepsHalves` | index.ts:244-252 | taking elements out of either half keeps the invariant |
| `DoubleSortedArrays.DoubleSortedArray.constructor` | index.ts:151-155 | both halves are fresh and empty, and the logical sequence is empty |
| `DoubleSortedArrays.DoubleSortedArray.Length` | index.ts:157-159 | the length of the logical sequence, the sum of both halves' lengths |
| `DoubleSortedArrays.DoubleSortedArray.At` | index.ts:224-227 | `Some` of the logical element at `index` inside `[0, length)`, absent outside it |
| `DoubleSortedArrays.DoubleSortedArray.ToArray` | index.ts:254-256 | the iterator's order, `left` read backwards then `right`, is the logical sequence; it is sorted and agrees with `at` at every position |
| `DoubleSortedArrays.DoubleSortedArray.Insert` | index.ts:192-220 | the routed half gains `v` while the other is unchanged; the logical sequence stays sorted and gains exactly `v`; the result is `true` |
| `DoubleSortedArrays.DoubleSortedArray.Clear` | index.ts:235-238 | both halves empty |
| `DoubleSortedArrays.DoubleSortedArray.Delete` | index.ts:240-242 | `left` loses its equal element if it has one; only otherwise does `right` lose one; at most one element comparing equal leaves, and one does whenever one is present |
| `DoubleSortedArrays.DoubleSortedArray.DeleteAt` | index.ts:244-252 | returns what `at(index)` returns; inside the range the logical sequence loses exactly that position, taken from `left` at `left.length - 1 - index` or from `right` at `index - left.length` while the other half is unchanged; outside the range nothing changes |
| `DoubleSortedArrays.DoubleSortedArray.DeleteInLeft` | index.ts:247-248 | the left branch of `deleteAt`: returns the logical element at `index`, removes that position, and removes left slot `left.length - 1 - index`; only `left` changes |
| `DoubleSortedArrays.DoubleSortedArray.DeleteInRight` | index.ts:249-250 | the right branch of `deleteAt`: returns the logical element at `index`, removes that position, and removes right slot `index - left.length`; only `right` changes |
| `Scenarios.NumCmpValid` | index.test.ts:5 | numeric difference is a valid and strict comparator |
| `Scenarios.PushScenario` | index.test.ts:8-12 | `push(3, 1, 4, 1, 5)` reports 5 and iterates as `[1, 1, 3, 4, 5]` |
| `Scenarios.DeleteScenario` | index.test.ts:14-19 | `delete(2)` on `[1, 2, 3]` returns 2 and leaves `[1, 3]` |
| `Scenarios.FromArrayScenario` | index.test.ts:21-24 | `fromArray([3, 1, 2])` iterates as `[1, 2, 3]` |
| `Scenarios.UpsertScenario` | index.test.ts:26-31 | `upsert(1)` twice reports inserted, then updated, and leaves `[1]` |
| `Scenarios.ForLoopScenario` | index.test.ts:33-41 | after `push(3, 1, 2)` iteration visits 1, 2, 3 |
| `Scenarios.LargeScenario` | index.test.ts:43-57 | any pushed list comes out non-decreasing with the same length; deleting the element at position 50 succeeds and removes one |
| `Scenarios.DoubleBasicScenario` | index.test.ts:60-68 | inserting 5, 3, 7, 1, 9 gives `[1, 3, 5, 7, 9]` |
| `Scenarios.DoubleDescendingScenario` | index.test.ts:70-74 | inserting `n` down to 1 gives 1 to `n` |
| `Scenarios.DoubleAscendingScenario` | index.test.ts:76-80 | inserting 1 up to `n` gives 1 to `n` |
| `Scenarios.DoubleRandomScenario` | index.test.ts:82-86 | inserting 5, 2, 8, 1, 9, 3, 7, 4, 6 gives 1 to 9 in order |
| `Scenarios.AtScenario` | index.test.ts:88-95 | after inserting 3, 1, 4, 1, 5: `at(0)` is 1, `at(length - 1)` is 5, and `at(-1)` and `at(100)` are absent |
| `Scenarios.DoubleIteratorScenario` | index.test.ts:97-101 | after inserting 3, 1, 2 the iterator yields `[1, 2, 3]` |
| `Scenarios.LengthScenario` | index.test.ts:103-111 | the length is 0, then 1 after one insertion, then 3 after three |
| `Scenarios.FstCmpValid` | index.ts:3 | comparing pairs by their first component is a valid comparator under which distinct elements compare equal |
| `Scenarios.InsertionOrderAsWritten` | index.ts:78-84 | pushing three equal-comparing elements tagged 1, 2, 3 leaves them in the order 2, 3, 1 |
| `Scenarios.InsertionOrderStable` | index.ts:39-43 | inserting at upper bounds, the same three elements stay in the order 1, 2, 3 |
| `Scenarios.DoubleInsertionOrderAsWritten` | index.ts:197-200 | under `FstCmp`, inserting `(0, 1)` then `(0, 2)` into the two-halves container: the first goes right, the second compares at most `right.first()` and goes left, so `toArray` yields `[(0, 2), (0, 1)]` |
| `Scenarios.DeleteAsWrittenRemovesTwo` | index.ts:240-242 | with `0` in each half, the source's `delete(0)` empties both halves, while the modelled `delete` keeps the right `0` |
| `Scenarios.DeleteZeroScenario` | index.ts:240-242 | inserting `0` twice gives `[0, 0]`, and the modelled `delete(0)` leaves `[0]` |

## Left out

- `SortedArrays.SortedArray.FromArray`: the engine's `arr.sort(compareFn)` is not modelled, nor is its in-place reordering of the caller's array. The model pushes the input as given. The result is the same sorted multiset, and `Ordering.SortedUnique` shows that for a strict comparator it is the same sequence. Under a non-strict comparator, elements that compare equal may come out in a different relative order.
- `Search.BinarySearchResult`: `(lo + hi) >> 1` is a 32-bit shift in JavaScript; the model divides unbounded integers by two. The two differ only past 2^30 elements, once `lo + hi` reaches 2^31.
- `SortedArrays.SortedArray.DeleteAt`: the index is a `nat`. A negative index would reach `splice`'s count-from-the-end behaviour; that and non-integer indices are JavaScript number quirks outside the model.
- `DoubleSortedArrays.DoubleSortedArray.At`: the index is an `int`; fractional and `NaN` indices are not modelled.
- `DoubleSortedArrays.DoubleSortedArray.DeleteAt`: the index is an `int`; fractional and `NaN` indices are not modelled. On a fractional index the source's `deleteAt` and `at` disagree: with two elements in `left`, `deleteAt(0.5)` runs `left.splice(0.5, 1)`, which removes `left[0]` (logical position 1), while `at(0.5)` reads `left[0.5]`, which is `undefined`.
- `DoubleSortedArrays.DoubleSortedArray.Delete`: the second half is searched only when the first returned absent. The source tests JavaScript truthiness, which also searches the second half when the removed element is falsy (`0`, `""`, `false`). See Findings; `DoubleSortedArrays.DeletedAsWritten` models the source's test.
- Comparators return integers and are required to be a total preorder. Floating-point results, `NaN`, and comparators that break that contract are not modelled.
- The iterator is a generator. Its suspension between elements is not modelled; `ToArray` returns the sequence it yields.
- The inherited `Array` machinery is not modelled: methods other than the overridden ones, direct writes to indices or `length`, and `Symbol.species`. `pop` is modelled as the inherited removal of the last element.
- The commented-out `DoubleSortedArray.upsert` (index.ts:161-189) is not code and is not modelled.
- `SortedArray.findIndexFor`'s tail fast path can return a different equal element than the lower bound: `Found(length - 1)` when the last element compares equal. The model keeps this exact behaviour in `Search.Locate`. The lower-bound property is stated only for `binarySearchResult`.
- `SortedArrays.InsertAll`: elements that compare equal do not keep insertion order in a `SortedArray`, because it models the source's placement: before the lower bound, or before the last element when the tail check finds an equal one. The upper-bound insertion that would keep insertion order is modelled and proved beside it (`StableInserted`, `StableInsertAll`), but the classes do not use it. See Findings.
- `DoubleSortedArrays.DoubleSortedArray.Insert`: the two-halves container does not keep insertion order among elements that compare equal, however its halves insert. Routing sends a value that compares equal to `right.first()` into `left` (index.ts:197-200), in front of the equal element already stored. `Scenarios.DoubleInsertionOrderAsWritten` shows it with two elements. No corrected routing is modelled.
- The benchmarks (`benchmark.ts`, the benchmark cases of `index.test.ts`) and the compiled `dist/` files are not part of this model.

## Findings

| source | as written | input that shows it | evidently intended | confidence | as-written member | corrected member |
|---|---|---|---|---|---|---|
| index.ts:240-242 | The logical or of the two halves' `delete` calls goes on to the right half whenever the left half's result is falsy. That includes the case where the left half did remove an element that is itself falsy. | `numCmp`, insert `0` twice (one `0` lands in each half), then `delete(0)` removes both zeros | remove at most one element comparing equal to `value` | medium, not executed | `DoubleSortedArrays.DeletedAsWritten` with `Scenarios.DeleteAsWrittenRemovesTwo` | `DoubleSortedArrays.DoubleSortedArray.Delete` with `DoubleSortedArrays.DeleteRemovesOne` |
| index.ts:39-43 | `insert` splices a new element in at the index `findIndexFor` reports. For an element that compares equal to one already stored, that is in front of the last element when the tail check finds an equal one (index.ts:83-84), and otherwise at the lower bound, in front of every equal element. Elements that compare equal therefore do not keep their insertion order. | a comparator on pairs that looks only at the first component; `push((0, 1), (0, 2), (0, 3))` leaves `[(0, 2), (0, 3), (0, 1)]` | relative order among equal elements is insertion order (stable handling of duplicates) | medium, not executed | `SortedArrays.InsertAll` with `Scenarios.InsertionOrderAsWritten` | `SortedArrays.StableInsertAll` with `SortedArrays.StableInsertAllKeepsOrder` and `Scenarios.InsertionOrderStable`; this corrects `SortedArray` only, since the two-halves routing reorders equal elements on its own (`Scenarios.DoubleInsertionOrderAsWritten`) |
