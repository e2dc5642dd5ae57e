# algososh data structures and sorts, modelled in Dafny

algososh is a teaching web app that animates classic algorithms. Each page
has a small data structure or algorithm inside it, and that is what this
project models:

- the singly linked list of the list page (`LinkedListNode` and
  `LinkedList` in `list-page.tsx`);
- the fixed-array queue of the queue page (`Queue` in `queue-page.tsx`),
  and how its circles get their "head" and "tail" captions;
- the stack of the stack page (`Stack` in `stack-page.tsx`), and its "top"
  caption;
- the selection sort and bubble sort drivers of the sorting page
  (`getSelectionSort` and `getBubbleSort` in `sorting-page.tsx`).

The project has six modules, one file each:

- `types.dfy` (`Types`) holds the shared shapes:
  - `Option` and `Result`;
  - the `CapacityExceeded` error;
  - the `ElementState` highlight (`Default | Changing | Modified`);
  - the sort `Direction`.
- `list_chain.dfy` (`ListChain`) holds the node graph.
  - Nodes live in an arena, a sequence indexed by node identity. A `next`
    reference is an arena index.
  - `Valid(l)` says that following `next` from `head` visits distinct nodes
    and ends, and that `tail` is the last node visited.
  - `Elements(l)` is the sequence of values met on that walk, which is what
    `toArray` returns.
  - The module also has the chain lemmas used to splice nodes in and out.
- `linked_list.dfy` (`LinkedLists`) models each `LinkedList` method.
  - Constant-time methods are functions.
  - Methods that walk the list are Dafny methods whose loops mirror the
    source's loops.
  - Each one keeps `Valid` and says what it does to `Elements`.
- `queue.dfy` (`Queues`) models the queue as a value: slots, capacity,
  `head` and `tail`.
- `stack.dfy` (`Stacks`) models the stack as a value: items and optional
  capacity.
- `sorting.dfy` (`Sorting`) models the two sorts as methods over columns
  (value plus highlight).
  - Each `await refreshData(arr)` appends a copy of the array to a trace of
    snapshots.
  - The contracts describe the sorted result, the final highlights, and
    exactly how many snapshots are drawn.

A JavaScript method that throws is modelled as a function that returns
`Err(CapacityExceeded)`. A method that returns `null`, `undefined` or the
list is modelled as returning `None`, or an `accepted` flag next to the new
list.

### Two edge behaviours of the code

- **Queue capacity.** `isFull` tests `tail === queueSize - 1`
  (`queue-page.tsx:33`), and the first item goes to slot 0 without
  advancing `tail` (`queue-page.tsx:39-40`). So a fresh queue of size
  `s >= 2` accepts exactly `s` items (`Queues.FreshCapacity`), and a queue
  of size 1 accepts none (`Queues.SingleSlotIsFull`).
- **Insert at the end.** `addByIndex(length, v)` on a non-empty list is a
  no-op, because `list-page.tsx:189` splices only when both neighbours
  exist (`LinkedLists.AddByIndex`).

## Model

| member | source | states |
|---|---|---|
| LinkedLists.Empty | src/components/list-page/list-page.tsx:28-34 | a new list is valid, has no elements, and has head and tail both unset |
| ListChain.HeadTailAgree | src/components/list-page/list-page.tsx:28-30 | in every valid list, head is unset exactly when tail is unset, exactly when there are no elements; the tail node has no successor |
| LinkedLists.Prepend | src/components/list-page/list-page.tsx:36-43 | the elements become the value followed by the old elements; on an empty list the new node is also the tail, otherwise the tail is unchanged |
| LinkedLists.Append | src/components/list-page/list-page.tsx:45-55 | the elements become the old elements followed by the value, and getTail returns the value; on an empty list head and tail are the same new node, otherwise the head is unchanged |
| LinkedLists.Delete | src/components/list-page/list-page.tsx:57-88 | afterwards the list is valid, so the tail is the last surviving node or unset, and its elements are the old ones with every occurrence of the value removed and the rest in order; a value is returned exactly when the value occurred |
| LinkedLists.RemoveAllCounts | src/components/list-page/list-page.tsx:57-88 | what delete leaves contains no occurrence of the value, and every other value as often as before |
| LinkedLists.SkipMatching | src/components/list-page/list-page.tsx:64-68 | the first loop of delete stops at the first node that does not hold the value, or runs off the end; every node it skipped held the value, and it reports a deletion exactly when it skipped one |
| LinkedLists.KeepRest | src/components/list-page/list-page.tsx:70-81 | the second loop of delete links, from the first kept node, exactly the later nodes that do not hold the value, and ends on the last of them |
| LinkedLists.SurvivorValues | src/components/list-page/list-page.tsx:64-80 | the nodes delete keeps carry exactly the old elements with the value removed, in order |
| LinkedLists.DeleteTail | src/components/list-page/list-page.tsx:90-116 | on an empty list it returns nothing and changes nothing; otherwise it returns the last element, drops it, and the new tail holds the element before it, or is unset when one element was left |
| LinkedLists.DeleteHead | src/components/list-page/list-page.tsx:118-133 | on an empty list it returns nothing and changes nothing; otherwise it returns the first element and drops it, and a one-element list ends with head and tail both unset |
| LinkedLists.GetHead | src/components/list-page/list-page.tsx:135-137 | the first element, or nothing on an empty list |
| LinkedLists.GetTail | src/components/list-page/list-page.tsx:139-141 | the last element, or nothing on an empty list |
| LinkedLists.ToArray | src/components/list-page/list-page.tsx:143-154 | returns exactly the list's elements, head first |
| LinkedLists.Collect | src/components/list-page/list-page.tsx:146-153 | walking next references from the first node of a chain collects that chain's values in order |
| LinkedLists.GetByIndex | src/components/list-page/list-page.tsx:156-174 | returns nothing exactly when the index is negative or at least the length; otherwise returns the node at that position, whose value is the element at that index |
| LinkedLists.AddByIndex | src/components/list-page/list-page.tsx:176-194 | index 0 prepends; an index strictly inside the list inserts the value at that position; a negative index, an index past the length, or an index equal to a positive length leaves the list unchanged; the call is refused exactly when the index is negative or past the length |
| LinkedLists.DeleteByIndex | src/components/list-page/list-page.tsx:196-218 | an index in [0, length) removes exactly that element and keeps the rest in order; any other index leaves the list unchanged; the call is refused exactly when the index is negative or past the length |
| LinkedLists.SpliceChain | src/components/list-page/list-page.tsx:186-191 | linking a fresh node between positions index-1 and index gives a chain with the same ends whose values have the new value inserted at index |
| LinkedLists.BypassChain | src/components/list-page/list-page.tsx:210-215 | linking position index-1 to position index+1 gives a chain with the same ends whose values lack exactly the element at index |
| Queues.NewQueue | src/components/queue-page/queue-page.tsx:29-33 | a new queue has the requested number of slots, all empty, and both cursors at 0; it is full from the start exactly when it has one slot |
| Queues.Size | src/components/queue-page/queue-page.tsx:63-65 | the size is always the constructor's capacity, and both cursors lie below it |
| Queues.FullExactlyWhenFilled | src/components/queue-page/queue-page.tsx:33 | `isFull`: on a queue with at least 2 slots that has never been dequeued, the queue is full exactly when it holds as many items as it has slots, that is exactly when every slot holds an item |
| Queues.Enqueue | src/components/queue-page/queue-page.tsx:33-45 | it throws exactly when tail is on the last slot; otherwise the item is written at tail, which stays put when slot 0 was empty with tail at 0 and otherwise moves up by one; head and every other slot are unchanged |
| Queues.Dequeue | src/components/queue-page/queue-page.tsx:47-53 | empties the head slot; head advances by one unless it is on the last slot, where it stays; tail and every other slot are unchanged |
| Queues.Clear | src/components/queue-page/queue-page.tsx:67-71 | every slot empty and both cursors at 0: exactly a fresh queue of the same capacity |
| Queues.EnqueueAllFits | src/components/queue-page/queue-page.tsx:35-45 | on a queue that has never been dequeued, a run of enqueues that fits in the capacity succeeds and places the items in consecutive slots, in order |
| Queues.FreshCapacity | src/components/queue-page/queue-page.tsx:29-45 | from a fresh queue of capacity s >= 2, s enqueues succeed and fill slots 0 to s-1 in order, and the next enqueue throws |
| Queues.SingleSlotIsFull | src/components/queue-page/queue-page.tsx:33-38 | a queue with one slot rejects its first enqueue |
| Queues.FirstInFirstOut | src/components/queue-page/queue-page.tsx:47-53 | after enqueuing items into a fresh queue and dequeuing d of them, head is on the slot holding item d, the oldest one left, and every earlier slot is empty |
| Queues.HeadClampsAtEnd | src/components/queue-page/queue-page.tsx:49-52 | once head is on the last slot, any number of dequeues keeps it there: the cursor never wraps |
| Queues.StrandedBehindHead | src/components/queue-page/queue-page.tsx:39-53 | after one enqueue and one dequeue, the next item lands in slot 0 behind head, and no number of dequeues ever reaches it |
| Queues.Circles | src/components/queue-page/queue-page.tsx:83-96 | one circle per slot; at most one circle is captioned "head" and at most one "tail"; "tail" appears exactly when the tail slot holds an item; a non-empty head slot is captioned "head" |
| Queues.SevenSlotScenario | src/components/queue-page/queue-page.tsx:75-96 | on the page's queue of 7, after enqueuing two items, slot 0 is captioned "head", slot 1 "tail", and the other slots are empty and uncaptioned |
| Stacks.NewStack | src/components/stack-page/stack-page.tsx:18-21 | a new stack is empty and keeps the given capacity, unlimited when none is given |
| Stacks.Push | src/components/stack-page/stack-page.tsx:23-28 | it throws exactly when the size has reached a finite capacity; otherwise the item goes on top, the size grows by one, the items below are unchanged, and the size never exceeds the capacity |
| Stacks.Pop | src/components/stack-page/stack-page.tsx:30-32 | on an empty stack it returns nothing and the stack stays empty; otherwise it returns the top item, which peek would have returned, and removes exactly that item |
| Stacks.Peek | src/components/stack-page/stack-page.tsx:34-36 | returns nothing exactly when the stack is empty; otherwise returns the top item: the stack is the items below it followed by that item |
| Stacks.PushAllSize | src/components/stack-page/stack-page.tsx:38-40 | `size()`: a run of pushes that fits grows the size by exactly the number of items pushed |
| Stacks.PopTimesSize | src/components/stack-page/stack-page.tsx:30-40 | `size()`: each pop shrinks the size by one until the stack is empty, after which it stays 0 |
| Stacks.Clear | src/components/stack-page/stack-page.tsx:42-44 | empties the stack, keeps its capacity, and returns the new size, 0 |
| Stacks.PushPop | src/components/stack-page/stack-page.tsx:23-32 | a successful push followed by a pop returns the pushed item and restores the stack exactly (LIFO) |
| Stacks.PushAllPopAll | src/components/stack-page/stack-page.tsx:23-32 | pushing a run of items that fits and then popping as many returns them last-first and restores the original stack |
| Stacks.CapacityBound | src/components/stack-page/stack-page.tsx:21-27 | with a finite capacity c, exactly c pushes onto a new stack succeed and the next one throws |
| Stacks.Circles | src/components/stack-page/stack-page.tsx:57-68 | one circle per item, in order; only the last is captioned "top", and it is highlighted as changing exactly when a change is being shown; no circle is shown as modified |
| Stacks.TopIsPeek | src/components/stack-page/stack-page.tsx:63 | on a non-empty stack, a circle captioned "top" holds the item peek returns |
| Sorting.Swap | src/components/sorting-page/sorting-page.tsx:70 | exchanging two columns permutes the values: the multiset of values is unchanged |
| Sorting.FindExtreme | src/components/sorting-page/sorting-page.tsx:53-67 | the inner selection loop picks the first position at or after i whose value may come before every value from i on, in the requested direction: every earlier position from i on holds a value strictly after it, so ties go to the first; values are unchanged, and one snapshot is drawn per later column |
| Sorting.SelectionPass | src/components/sorting-page/sorting-page.tsx:51-71 | one outer selection pass exchanges column i with the first extreme of columns i onwards (ties go to the first, as the comparison is strict), leaves the columns before i alone, and marks column i modified |
| Sorting.SelectionSort | src/components/sorting-page/sorting-page.tsx:46-75 | the result is sorted in the requested direction, is a permutation of the input, and has every column modified; n(n-1)/2 snapshots are drawn in the loops plus a final one showing the result, and every snapshot shows a permutation of the input |
| Sorting.ComparisonsClosed | src/components/sorting-page/sorting-page.tsx:50-53 | the passes together make n(n-1)/2 comparisons |
| Sorting.BubbleStep | src/components/sorting-page/sorting-page.tsx:83-99 | the pair is exchanged exactly when it is strictly out of order, so equal values never move; afterwards the pair is in order, the left column is default and the right modified, and a second snapshot is drawn exactly when there was an exchange |
| Sorting.SwapRemovesInversion | src/components/sorting-page/sorting-page.tsx:86-96 | exchanging an adjacent pair that is out of order removes exactly one strict inversion |
| Sorting.InversionsZero | src/components/sorting-page/sorting-page.tsx:86-97 | a sequence has no strict inversion exactly when it is sorted in the requested direction |
| Sorting.BubblePass | src/components/sorting-page/sorting-page.tsx:82-100 | one outer bubble pass settles column n-i-1 after all the others and leaves the settled columns alone; each exchange removes one inversion, and one snapshot is drawn per comparison and per exchange |
| Sorting.BubblePasses | src/components/sorting-page/sorting-page.tsx:81-101 | after all n passes every column is in order after the ones before it and, column 0 excepted, modified; the exchanges plus the inversions left equal the input's inversions, and the snapshots number n(n-1)/2 plus the exchanges |
| Sorting.BubbleSort | src/components/sorting-page/sorting-page.tsx:77-104 | it fails, drawing nothing, exactly on an empty array; otherwise the result is sorted, a permutation of the input, and has every column modified; it draws n(n-1)/2 comparison snapshots plus one per inversion of the input plus a final one, with no early exit; an input already in order keeps its values where they were |

## Left out

- React rendering, hooks, buttons, loaders and delays are left out.
  `refreshData` is only a snapshot appended to a trace. The pages'
  animated handlers, which decorate `toArray()` copies and set `head`/`tail`
  captions, are not part of this model.
- The random array generator of the sorting page uses `Math.random` and is
  left out. The sorts take any input array.
- The queue's cell highlighting while an enqueue or dequeue is shown
  (`queue-page.tsx:97-104`) is left out. It depends on transient button
  flags. Only the captions are modelled.
- The list page's `TListElement` record is left out. It holds React
  elements.
- The Fibonacci and string pages are left out. They contain no algorithm.
- Queues.Valid requires a capacity of at least 1. `new Queue(0)` makes the
  first `enqueue` write past the end of a JavaScript array, which grows it.
  That behaviour is not modelled.
- The list methods take `index: int`. The `undefined` index of
  `getByIndex`, `addByIndex` and `deleteByIndex`, and non-integer numbers,
  are left out.
- LinkedLists.Delete compares values with `==` on the generic type. The
  source compares with JavaScript's `===`, which for objects is reference
  equality.
- The list methods `delete`, `deleteHead` and `deleteTail` return the
  removed `LinkedListNode`, a live object whose `next` may still point
  into the list; the model returns only its value (`Removal.removed`).
  `getByIndex` returns a node, and the model returns its arena index.
  Node identity and aliasing through returned nodes are not modelled.
- Unlinked list nodes stay in the arena, unreachable. JavaScript reclaims
  them; this is not modelled.
- Column values are unbounded integers, not JavaScript numbers. The sorts
  only compare them, so no arithmetic behaviour is lost.
- Stack capacity is `Option<nat>`, with `None` for `Infinity`. Negative or
  fractional capacities are not modelled.
- The JavaScript `Error` messages are reduced to `CapacityExceeded`. A
  thrown error appears as an `Err` result in place of the new state, so
  "nothing changes" holds because the caller keeps the old value.
