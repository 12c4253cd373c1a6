# Two index-addressable containers: a growable array list and a singly linked list

This project is a Dafny model of the two generic containers of the `online_intensive` repository.
Both support append, positional insert, positional get, positional remove, an in-place ascending
sort, a size query and clear. The model proves what each of them does.

- `MyArrayList` (`array_list.dfy`) keeps its elements in the first `size` slots of a backing buffer.
  The buffer starts with ten slots and doubles when an append or insert finds it full. Positional
  insert and remove shift slots right and left. `sort` is a selection sort in place, and `clear`
  empties the occupied slots and keeps the buffer.
- `MyLinkedList` (`linked_list.dfy`) is a chain of `Node`s from `head`, plus an element count.
  Append walks to the node whose `next` is null. At index 0, positional insert and remove replace
  `head` without walking. At any other index they walk `index - 1` steps from `head` and relink. `sort` is an insertion sort that re-threads the existing nodes into a new
  sorted chain, and `clear` drops the chain.

Both classes are imperative Dafny: fields updated by methods with `modifies` frames, and loops with
invariants. Each class has ghost state that says what the fields mean:

- `Contents` is the abstract sequence of elements, for both classes.
- `Spine` is the sequence of linked nodes, for the linked list only.

Each method is proved against that abstract state. Sequence-level definitions state the abstract
effect of the operations:

- `Sequences.Inserted` and `Sequences.Removed` give the effect of positional insert and remove.
- `InsertSort.InsertSorted` gives the effect of the linked list's ordered insert.
- `InsertSort.InsertionSort` gives the effect of the whole linked sort.

Lemmas about these definitions give the promised properties: ordering, permutation, round trips,
idempotence, and the no-op on sorted input.

Java's `Comparable` is replaced by a comparison function `le` passed to both sorts, with
`TotalPreorder(le)` required of it (`ordering.dfy`). `le(a, b)` stands for `a.compareTo(b) <= 0`.
Java's exceptions become values (`outcomes.dfy`): `add(int, E)` and `remove(int)` return an
`Outcome`, and `get` returns a `Result`. Each failure carries `IndexOutOfBounds(index, size)`.
The elements of a Java array slot are `Option`s, with `None` for `null`.

The two demonstration programs are replayed in `scenarios.dfy` on integers in their natural
order. Their return values are the values the programs print.

Two behaviours of the code are easy to miss, and the model follows the code in both:

- `MyArrayList.remove` does not clear the slot that falls out of the list. `Remove` states that
  the stale element is still there.
- `MyLinkedList.sort` is not stable: `insert` puts a new element before the first element it is
  `<=` (`compareTo <= 0` at `MyLinkedList.java:203`, `> 0` at `:210`). Of two equal elements, the
  later one therefore comes out first. `InsertSort.TiesReversed` proves this on a concrete input.
  For the same reason, sorting an already sorted list is a no-op only when equal elements are
  identical (`InsertSort.SortedUnchanged`). It is not a no-op for every total preorder.

## Model

| member | source | states |
|---|---|---|
| ArrayList.MyArrayList.Valid | src/arrayList/MyArrayList.java:15-30 | the representation invariant: at least ten slots, the `size` elements in slots `[0, size)`; so the contents always fit in the buffer |
| ArrayList.MyArrayList.constructor | src/arrayList/MyArrayList.java:27-30 | an empty list over a fresh buffer of ten empty slots; the representation invariant holds |
| ArrayList.MyArrayList.IncreaseCapacity | src/arrayList/MyArrayList.java:46-53 | the buffer is replaced by a fresh one of twice the length; slots `[0, size)` are copied positionally, the rest are empty; size and contents unchanged |
| ArrayList.MyArrayList.Add | src/arrayList/MyArrayList.java:36-41 | always succeeds; contents become old contents plus the element and size grows by one; the buffer is kept, with the slots past the new size untouched, unless it was full, in which case it is fresh and twice as long |
| ArrayList.MyArrayList.AddAt | src/arrayList/MyArrayList.java:71-86 | fails with `IndexOutOfBounds(index, size)` exactly when `index < 0 or index > size`, changing nothing; otherwise contents become `Inserted(old, index, element)` and size grows by one; when the buffer was full it is replaced by a fresh one of twice the length, otherwise it is kept with the slots past the new size untouched |
| ArrayList.MyArrayList.Get | src/arrayList/MyArrayList.java:96-103 | fails exactly when `index < 0 or index >= size`; otherwise returns the element at `index`; changes nothing |
| ArrayList.MyArrayList.Remove | src/arrayList/MyArrayList.java:113-122 | fails exactly when `index < 0 or index >= size`, changing nothing; otherwise contents become `Removed(old, index)` and size drops by one; the same buffer is kept, the vacated slot still holds the old last element, and the slots beyond it are untouched |
| ArrayList.MyArrayList.Sort | src/arrayList/MyArrayList.java:138-152 | the contents end ascending and are a permutation of the old contents; size and buffer unchanged, and the slots past the size untouched; a list already sorted is left as it was |
| ArrayList.MyArrayList.SelectionRound | src/arrayList/MyArrayList.java:140-150 | one round of the outer loop: swaps the first least element of `[i, size)` into slot `i`, so the ordered, dominated prefix grows to `i + 1`; the contents stay a permutation, a sorted list is left as it was, and slots past the size are untouched |
| ArrayList.MyArrayList.IndexOfLeast | src/arrayList/MyArrayList.java:141-146 | the inner loop finds an index in `[from, size)` whose element is `le` every element of that range, and no element before it in the range is `le` it (the first least element); changes nothing |
| ArrayList.MyArrayList.Clear | src/arrayList/MyArrayList.java:159-166 | returns true; size becomes zero and the contents empty; slots `[0, old size)` become empty and the others are untouched; the buffer is kept; on an empty list nothing changes |
| ArrayList.MyArrayList.Size | src/arrayList/MyArrayList.java:172-174 | the number of elements |
| ArrayList.SelectionStep | src/arrayList/MyArrayList.java:147-150 | swapping a least element of the unsorted suffix into position `i` extends the sorted, dominated prefix by one and permutes the contents |
| ArrayList.SortedSwapUnchanged | src/arrayList/MyArrayList.java:141-150 | on sorted contents the inner loop finds position `i` itself, so the swap changes nothing |
| ArrayList.SelectionDone | src/arrayList/MyArrayList.java:139 | when the outer loop stops at `size - 1`, the ordered prefix is the whole list |
| Sequences.Inserted | src/arrayList/MyArrayList.java:81-83 | elements before `index` stay, the new element is at `index`, and elements from `index` on move one position to the right |
| Sequences.Removed | src/arrayList/MyArrayList.java:119-121 | elements before `index` stay and elements after `index` move one position to the left; one element fewer |
| Sequences.RemoveInserted | src/arrayList/MyArrayList.java:71-122 | removing at `i` what was just inserted at `i` gives back the original contents |
| Sequences.InsertRemoved | src/arrayList/MyArrayList.java:71-122 | re-inserting at `i` the element just removed from `i` gives back the original contents |
| Sequences.InsertedAtEnd | src/arrayList/MyArrayList.java:60-62 | inserting at index `size` appends, and inserting at 0 into the empty list gives the one-element list |
| Sequences.InsertedAtFront | src/linkedList/MyLinkedList.java:68-72 | inserting at index 0 puts the element in front of all the others |
| Sequences.RemovedMultiset | src/arrayList/MyArrayList.java:113-122 | removal loses exactly the removed element |
| Sequences.InsertedMultiset | src/arrayList/MyArrayList.java:71-86 | positional insert adds exactly the inserted element |
| LinkedList.Node.constructor | src/linkedList/MyLinkedList.java:229-232 | a node holding `data` whose `next` is null |
| LinkedList.MyLinkedList.Valid | src/linkedList/MyLinkedList.java:15-19 | the representation invariant: `head` starts an acyclic, null-terminated chain of exactly `size` nodes holding the contents; so `size` is the number of elements, and `head` is null exactly when the list is empty |
| LinkedList.MyLinkedList.constructor | src/linkedList/MyLinkedList.java:23-26 | an empty list: `head` is null, size zero; the representation invariant (acyclic null-terminated chain of `size` nodes holding the contents) holds |
| LinkedList.MyLinkedList.Add | src/linkedList/MyLinkedList.java:32-50 | always succeeds; contents become old contents plus the element, size grows by one; the chain keeps its nodes and gains one fresh node at its end |
| LinkedList.MyLinkedList.AddAt | src/linkedList/MyLinkedList.java:64-86 | fails with `IndexOutOfBounds(index, size)` exactly when `index < 0 or index > size`, changing nothing; otherwise contents become `Inserted(old, index, element)`, size grows by one, and one fresh node is spliced into the chain at `index` |
| LinkedList.MyLinkedList.Get | src/linkedList/MyLinkedList.java:99-111 | fails exactly when `index < 0 or index >= size`; otherwise returns the element at `index`; changes nothing |
| LinkedList.MyLinkedList.Remove | src/linkedList/MyLinkedList.java:121-140 | fails exactly when `index < 0 or index >= size`, changing nothing; otherwise contents become `Removed(old, index)`, size drops by one, and node `index` is cut out of the chain |
| LinkedList.MyLinkedList.Clear | src/linkedList/MyLinkedList.java:144-149 | `head` becomes null, size zero, contents empty; on an empty list nothing changes, so a second call is a no-op |
| LinkedList.MyLinkedList.Size | src/linkedList/MyLinkedList.java:155-157 | the number of elements |
| LinkedList.MyLinkedList.Sort | src/linkedList/MyLinkedList.java:168-192 | the contents become `InsertionSort(le, old contents)`, which is ascending and a permutation of the old contents; the chain is a rearrangement of the same nodes; size unchanged; with fewer than two elements nothing changes |
| LinkedList.MyLinkedList.InsertAll | src/linkedList/MyLinkedList.java:175-188 | the loop turns the chain of `nodes` into a chain of the same nodes whose elements are the insertion sort of the original elements |
| LinkedList.MyLinkedList.InsertCurrent | src/linkedList/MyLinkedList.java:181-187 | one round of the loop: the saved successor is the next original node; the sorted chain then holds the first `i + 1` original nodes, sorted; the unvisited nodes keep their links |
| LinkedList.MyLinkedList.Insert | src/linkedList/MyLinkedList.java:201-219 | links the new node into the chain before the first element it is `le`, or at the end: the elements become `InsertSorted` of the old ones, and the nodes gain exactly the new node |
| LinkedList.LinkedInserted | src/linkedList/MyLinkedList.java:80-82 | the relinking of a splice leaves a correctly linked, null-terminated chain |
| LinkedList.LinkedRemoved | src/linkedList/MyLinkedList.java:136 | the relinking of a cut leaves a correctly linked, null-terminated chain |
| LinkedList.DistinctInserted | src/linkedList/MyLinkedList.java:80-82 | splicing in a node not already in the chain keeps the chain free of repeated nodes, so acyclic |
| LinkedList.UnvisitedOutside | src/linkedList/MyLinkedList.java:179-187 | while the sorted chain holds the first `i` original nodes, it holds none of the unvisited ones |
| LinkedList.InsertStep | src/linkedList/MyLinkedList.java:184 | inserting original node `i` into the sorted chain of the first `i` nodes gives the sorted chain of the first `i + 1` nodes |
| InsertSort.InsertSorted | src/linkedList/MyLinkedList.java:201-219 | the ordered insert: `x` goes before the first `y` with `le(x, y)`, or at the end; one element longer (its properties are the lemmas below) |
| InsertSort.InsertionSort | src/linkedList/MyLinkedList.java:168-192 | the linked sort: the elements, in list order, inserted one by one into an initially empty sorted sequence; same length (its properties are the lemmas below) |
| InsertSort.InsertSortedMultiset | src/linkedList/MyLinkedList.java:201-219 | ordered insert adds exactly the new element to the multiset of elements |
| InsertSort.InsertSortedSorted | src/linkedList/MyLinkedList.java:201-219 | under a total preorder, ordered insert into an ascending sequence leaves it ascending |
| InsertSort.InsertSortedAt | src/linkedList/MyLinkedList.java:203-216 | ordered insert places the element at the first position whose element it is `le`, or at the end |
| InsertSort.InsertionSortMultiset | src/linkedList/MyLinkedList.java:168-192 | the linked insertion sort permutes its input |
| InsertSort.InsertionSortSorted | src/linkedList/MyLinkedList.java:168-192 | under a total preorder, the linked insertion sort yields an ascending sequence |
| InsertSort.InsertionSortPrefix | src/linkedList/MyLinkedList.java:179-188 | sorting one more element of the original list inserts that element into the sorted earlier elements |
| InsertSort.ShortUnchanged | src/linkedList/MyLinkedList.java:170-172 | lists of at most one element are left as they are |
| InsertSort.SortedUnchanged | src/linkedList/MyLinkedList.java:168-192 | for a total order, sorting an ascending list changes nothing |
| InsertSort.SortIdempotent | src/linkedList/MyLinkedList.java:168-192 | for a total order, sorting twice gives the same as sorting once |
| InsertSort.TiesReversed | src/linkedList/MyLinkedList.java:201-219 | the linked sort is not stable: for a total preorder that compares pairs by their first component, two equal elements come out in reverse order |
| Ordering.SortedPermutationUnique | src/linkedList/MyLinkedList.java:166 | for a total order, two ascending sequences with the same elements are equal |
| Scenarios.ArrayListDriver | src/arrayList/Main.java:6-51 | the array-list demonstration gives size 3, element 10 at index 1, size 2 after the removal, elements 5 and 15 after the sort, and `clear` returns true |
| Scenarios.ArrayListDriverBuild | src/arrayList/Main.java:6-11 | three appends give the contents `[5, 10, 15]` |
| Scenarios.ArrayListDriverRest | src/arrayList/Main.java:29-51 | removing index 1 leaves size 2; the sort leaves `[5, 15]`; `clear` returns true |
| Scenarios.LinkedListDriver | src/linkedList/Main.java:7-47 | the linked-list demonstration gives element 20 at index 1 after the edits, elements 10, 20 and 100 at indices 0, 1 and 4 after the sort, and size 0 after the clear |
| Scenarios.LinkedListDriverBuild | src/linkedList/Main.java:7-12 | five appends give the contents `[20, 50, 10, 40, 30]` |
| Scenarios.LinkedListDriverEdits | src/linkedList/Main.java:18-30 | inserting 100 at index 0, reading index 1 (20) and removing index 2 give `[100, 20, 10, 40, 30]` |
| Scenarios.LinkedListDriverSort | src/linkedList/Main.java:39-43 | the sort of `[100, 20, 10, 40, 30]` makes indices 0, 1 and 4 hold 10, 20 and 100 |
| Scenarios.DriverListSorted | src/linkedList/Main.java:39 | the insertion sort of `[100, 20, 10, 40, 30]` is `[10, 20, 30, 40, 100]` |

## Left out

- `MyLinkedList.printList` (`MyLinkedList.java:239-248`) and all console output of the two demonstration programs. They only print. The scenario methods return the values that would be printed, and the array-list driver returns only the elements its assertions need.
- ArrayList.MyArrayList.Sort and LinkedList.MyLinkedList.Sort: a list that holds `null` makes Java's sorts throw `NullPointerException` (`MyArrayList.java:143`, `MyLinkedList.java:203` and `:210`). The model has no null element: `le` orders every element, so such a list sorts without error.
- The `ClassCastException` of the unchecked `(Comparable<E>)` casts. The model requires a total preorder `le` of the caller instead.
- Exception message strings. A failure is the value `IndexOutOfBounds(index, size)`.
- Java `int` overflow of `size` and of `array.length * 2`. Sizes and capacities are unbounded naturals.
- Garbage collection. Unlinked nodes and cleared slots have no observable effect beyond the contents.
- Method boundaries inside the sorts. One round of the selection sort's outer loop is a separate method, `SelectionRound`. Its inner loop is another, `IndexOfLeast`. The loop of the linked sort and one round of it are the separate methods `InsertAll` and `InsertCurrent`. Java writes all of these inline.
- A mutable `Node.data`. The node's element is a `const`, because Java never assigns it after construction.
- The library call `System.arraycopy`. Positional insert and remove write it as the equivalent element-by-element loop.
  - The shift right copies from the highest slot down, the same overlapping move as the library's.
  - The shift left copies from the lowest slot up.
