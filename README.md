# Priority and blocking queues, modelled in Dafny

This project models the two sequential state machines that sit under the
locks of a Go queue library.

- **The priority queue** (`priority.go`). A binary min-heap is stored in the
  slice `priorityHeap.elems` and ordered by a caller-supplied `lessFunc`. The
  `Priority` wrapper adds three things: a capacity check on `Offer`, an empty
  check on `Get` and `Peek`, and a `Reset` that restores a snapshot taken at
  construction. Construction trims the input to the capacity: it sorts by
  `lessFunc` and keeps the first `capacity` elements. It then heapifies and
  copies the heap as the snapshot.
- **The blocking FIFO queue** (`blocking.go`). It is a growable slice
  `elements` with a read cursor `elementsIndex`. `Take` reads at the cursor
  and advances it. `Push` appends. `Peek` reads without advancing. `Reset`
  rewinds the cursor to 0.

Modules, one per component:

- `QueueErrors` (`errors.dfy`): the sentinel errors `ErrQueueIsFull` and
  `ErrNoElementsAvailable`, the `(T, error)` result pair, and `Option`. The Go
  file declaring the errors is not part of this model.
- `Ordering` (`ordering.dfy`): the strict weak ordering a comparison must be
  for Go's `sort` and `container/heap` to work. Also `SortBy`, which stands in
  for `sort.Slice`: its result is a permutation of the input, and it is sorted
  whenever `less` is a strict weak ordering.
- `HeapAdapter` (`heap_adapter.dfy`): the class `PriorityHeap`, with `elems`
  and `less` and the primitives `Len`, `Less`, `Swap`, `Push` and `Pop`. Also
  `FifoLess` (the source's `fifoLessFunc`) and Go's built-in `copy`.
- `ContainerHeap` (`container_heap.dfy`): Go's `container/heap` algorithm,
  written out as the textbook array heap. `Init` sifts down every internal
  node. `Push` appends, then sifts up. `Pop` swaps the root with the last
  element, sifts down, then truncates. Each one calls the adapter's `Less` and
  `Swap` the way Go does.
- `PriorityQueue` (`priority.dfy`): the class `Priority` (`NewPriority`,
  `Offer`, `Reset`, `Get`, `Peek`, `Size`). It also holds two usage methods.
  `AscendingScenario` shows that `[5, 1, 3]` ordered by `<` comes out as
  1, 3, 5 and then gives the empty error. `TrimScenario` builds a queue with
  capacity 3 from 4, 2, 5, 1, 3. It shows that 1, 2 and 3 are kept and that
  the next `Offer` is refused.
- `BlockingQueue` (`blocking.dfy`): the class `Blocking`. Its invariant is
  `0 <= elementsIndex <= |elements|`, and its abstract view `Unread()` is
  `elements[elementsIndex..]`.

`PriorityHeap.Len` and `PriorityHeap.Less` are plain accessors (the length of
`elems`, and `less` applied to two cells), and `LessOrDefault` picks
`FifoLess` when no comparison is given (priority.go:112-114). They carry no
contract of their own; the algorithms above are proved through them.

**The comparison function.** The queue accepts any `lessFunc`, and so does
the model. The bounds, the error cases and the multiset of elements hold for
every comparison. The ordering claims (heap order, sortedness, "no element
sorts before the head") are stated under `StrictWeakOrder(less)`, which Go's
`sort` and `container/heap` ask of a comparison. The heap order is
"no child sorts before its parent", the parent of index `c > 0` being
`(c - 1) / 2`.

**Where the source's comments and its code disagree, the model follows the code:**

- The comment at `priority.go:61` says that `fifoLessFunc` keeps the elements
  in FIFO order. But `fifoLessFunc` returns `false`, and `heap.Pop` moves the
  last element to the root. By the algorithm as written, `[1, 2, 3]` with no
  comparison would come out as 1, 3, 2. The model makes no FIFO claim for it.
- The comment at `priority.go:78-81` says `>` gives ascending order. But the
  head is the element that no other one sorts before. So with `<` the queue
  yields the smallest element first, as `AscendingScenario` shows.

## Model

| member | source | states |
|---|---|---|
| `Ordering.SortBy` | priority.go:124-126 | The result is a permutation of the input. It is sorted by `less` (no later element sorts before an earlier one) whenever `less` is a strict weak ordering. |
| `Ordering.SortedPrefixFirst` | priority.go:128 | Cutting a sorted sequence at `c` keeps elements that no dropped element sorts before. |
| `PriorityQueue.Trimmed` | priority.go:123-129 | The kept elements are all of the input when it fits the capacity. Otherwise exactly `capacity` of them are kept, drawn from the input, and for a strict weak ordering no dropped element sorts before a kept one. |
| `PriorityQueue.FifoLessIsStrictWeakOrder` | priority.go:61-64 | The default comparison is a strict weak ordering, so every heap-order guarantee also holds for a queue built without a comparison. |
| `HeapAdapter.Copy` | priority.go:183 | Go's `copy`: the length of the destination is kept; the first min(len(dst), len(src)) cells come from the source, the rest are unchanged. |
| `HeapAdapter.PriorityHeap.constructor` | priority.go:116-119 | The adapter holds the given slice and comparison. |
| `HeapAdapter.PriorityHeap.Swap` | priority.go:37-39 | The cells at `i` and `j` are exchanged and nothing else changes. |
| `HeapAdapter.PriorityHeap.Push` | priority.go:42-48 | `elem` is appended at the end. |
| `HeapAdapter.PriorityHeap.Pop` | priority.go:51-59 | The last element is removed and returned, and the rest is kept. |
| `ContainerHeap.RootBelow` | priority.go:50 | In a heap ordered by a strict weak ordering, no element sorts before the root. The proof climbs the ancestor chain. |
| `ContainerHeap.RootIsMinimal` | priority.go:73 | The same for every element at once: the head of a heap is an element no other one sorts before. |
| `ContainerHeap.Down` | priority.go:203 | The sift-down keeps the length and the multiset. It leaves the cells before `i0` and the cells from `n` on untouched. For a strict weak ordering: if every parent-child pair below `n` with parent at or after `i0` is ordered except the pairs at `i0` itself, then afterwards all of them are. |
| `ContainerHeap.Init` | priority.go:131 | Heapify keeps the multiset and establishes the heap property. |
| `ContainerHeap.Up` | priority.go:162 | The sift-up keeps the length and the multiset. For a strict weak ordering: if every pair is ordered except the one whose child is `j0`, then afterwards the sequence is a heap. |
| `ContainerHeap.Push` | priority.go:162 | The heap grows by one, its multiset gains `x`, and it stays a heap. |
| `ContainerHeap.Pop` | priority.go:203 | Returns the old root. The heap shrinks by one and loses exactly that occurrence. It stays a heap, and no remaining element sorts before the returned one. |
| `PriorityQueue.TrimKeepsSmallest` | priority.go:123-129 | Trimming 4, 2, 5, 1, 3 (in any order) to capacity 3 by `<` keeps exactly 1, 2 and 3. |
| `PriorityQueue.Priority.constructor` | priority.go:94-146 | Uses the given comparison, or `FifoLess` when there is none. The live elements are a permutation of `Trimmed` (so `Size() == capacity` when the input was larger). They form a heap when the comparison is a strict weak ordering. The snapshot equals the heapified elements. |
| `PriorityQueue.Priority.Offer` | priority.go:152-165 | Fails with `ErrQueueIsFull` exactly when a capacity is set and reached, changing nothing. Otherwise the size grows by one and the multiset gains `elem`. The capacity bound and heap order are kept. |
| `PriorityQueue.Priority.Reset` | priority.go:169-184 | Afterwards the live elements equal the snapshot exactly, whether the heap was longer, shorter or equally long. |
| `PriorityQueue.Priority.Get` | priority.go:190-204 | On an empty heap, returns `ErrNoElementsAvailable` and changes nothing. Otherwise returns the old root and removes exactly that occurrence, and no remaining element sorts before it. The invariant is kept. |
| `PriorityQueue.Priority.Peek` | priority.go:209-220 | On an empty heap, returns `ErrNoElementsAvailable`. Otherwise returns `elems[0]`, which no element sorts before. State is not changed. |
| `PriorityQueue.Priority.Size` | priority.go:223-230 | The number of live elements, which never exceeds the capacity. |
| `BlockingQueue.Blocking.constructor` | blocking.go:22-32 | Starts with the given elements, cursor 0, and all of them unread. |
| `BlockingQueue.Blocking.GetNextIndexOrWait` | blocking.go:52-60 | When an unread element exists, returns the cursor `elementsIndex` itself: an in-range index holding the head of the unread elements. |
| `BlockingQueue.Blocking.Take` | blocking.go:39-50 | Returns `elements[elementsIndex]` and advances the cursor by one. `elements` is unchanged, so the unread elements lose their head. The cursor invariant is kept. |
| `BlockingQueue.Blocking.Push` | blocking.go:64-71 | Appends `elem` at the end of `elements` and leaves the cursor alone, so it joins the unread elements at the back. |
| `BlockingQueue.Blocking.Peek` | blocking.go:74-85 | Returns `elements[elementsIndex]`, the head of the unread elements, and changes nothing. |
| `BlockingQueue.Blocking.Reset` | blocking.go:89-96 | Sets the cursor to 0 and leaves `elements` untouched, so every element is unread again. |
| `BlockingQueue.TakeAll` | blocking_test.go:23-36 | `n` takes on a new queue of `n` elements return them in input order. |
| `BlockingQueue.TakeResetPeekTake` | blocking_test.go:84-125 | After a take and a `Reset`, both `Peek` and the next `Take` return the first element. |

## Left out

- Locking (`sync.Mutex`, `sync.RWMutex`) is left out. It exists only for concurrency, and the model is sequential.
- Waiting and signalling (`sync.Cond` `Wait`, `Signal`, `Broadcast`) are left out. A wait becomes the precondition that an unread element exists (`elementsIndex < |elements|`) on `Take`, `GetNextIndexOrWait` and `Peek`.
- BlockingQueue.Blocking.Peek: the source waits only once, with no re-check. If the queue is still empty on wake-up, the read goes out of range. The model cannot express a wake-up, so it requires an unread element.
- The lazy `init` through `sync.Once` is left out. It only guards a zero-value `Priority`, and the model always builds one with its constructor.
- The `Lesser` interface is left out because the code shown does not use it. `queue_interface.go` is left out because it only declares the interface.
- `IsEmpty`, `Contains`, `Clear`, `Iterator` and JSON marshalling are not in the files modelled. The same holds for the blocking API that `blocking_test.go` calls but `blocking.go` lacks (`GetWait`, `OfferWait`, `PeekWait`, `Get`, `Offer`, `Size`, capacity options).
- The algorithm inside `sort.Slice` is left out. `SortBy` is an insertion sort, and only its result is relied on: a sorted permutation.
- PriorityQueue.Priority.constructor: when equivalent elements straddle the capacity cut, which of them is kept depends on the sorting algorithm. The model fixes the permutation `SortBy` gives, while Go's unstable sort may keep others.
- PriorityQueue.Priority.Get: "no remaining element sorts before the result" is promised only under a strict weak ordering. Go's `sort` and `container/heap` require one, and with any other comparison the order is unspecified.
- PriorityQueue.Priority.Peek: the same condition applies to its minimality claim.
- Aliasing is not modelled. Go's `NewPriority` sorts and heapifies the caller's slice in place, and `Reset` writes into the live backing array. The model works on sequence values, so the caller's slice is unaffected and only the queue's contents are modelled.
- The error value's companion is not modelled. On an error, Go's `Get` and `Peek` return the zero value of `T` with the error, while the model's `Result` carries only the error.
- Capacity is a `nat`. A negative capacity would make the slice expression at priority.go:128 panic, so it is outside the model.
- Integers are unbounded. The overflow guard `j1 < 0` in `down` cannot fire, and `down`'s boolean result is dropped because `Init` and `Pop` ignore it.
- The FIFO ordering of `fifoLessFunc` announced at priority.go:61 is not claimed, because `heap.Pop` moves the last element to the root.
