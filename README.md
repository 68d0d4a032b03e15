# data-structures, modelled in Dafny

This project models the core of the TypeScript library
`@figliolia/data-structures` and proves properties of that model. The core
is a set of small containers and the algorithms that maintain them:

- the array-backed binary heap `Heap`, with its two variants `MinHeap` and
  `MaxHeap` (`Heap.dfy`);
- the extremum-tracking stack `MinMaxStack`, with `MinStack` and `MaxStack`
  (`MinMaxStack.dfy`);
- `binarySearch` over a list sorted by a numeric key (`BinarySearch.dfy`);
- the doubly linked `LinkedList` with its `ListNode`s (`LinkedList.dfy`);
- the character `Trie` with `add` and `search` (`Trie.dfy`);
- the bucket `PriorityQueue` (`PriorityQueue.dfy`);
- the ID-keyed `QuickList`/`QuickQueue` and `QuickStack` (`QuickLists.dfy`);
- the `Graph` nodes and their `NodeCache`, with breadth-first and
  depth-first traversal (`Graph.dfy`).

`Ordering.dfy` holds what the Min and Max variants share. A key is an
`int`, and `Direction` (`Min` or `Max`) decides whether smaller or larger
keys come first. The variants become one class each: the class holds the
direction as a constant, and the comparison hooks follow each variant's
own code.

Objects whose fields the library updates in place are classes here. This
covers the heap, both stacks, the linked list and its nodes, the priority
queue, the quick lists and the node cache. The exception is the trie: it
is a tree value, and its `add` loop is the recursive function `Tries.Add`
(see Left out). The other classes' methods carry `modifies` clauses and
state the whole new state. Their loops, and the trie's `search` loop, stay
loops, with invariants, and each is proved against a specification
function:

- the heap's sift-up and sift-down keep the heap order (`IsHeap`);
- `findMin`/`findMax` rescan and track the first element of extremal key;
- binary search narrows a window that keeps every matching index;
- `pop` of the priority queue equals `PopEffect`;
- BFS and DFS return exactly the visit sequence that `Traverse` defines.

The properties proved about the specifications include:

- a heap pops its elements in key order, each once;
- a `MinStack`'s tracked minimum and occurrence count agree with its
  contents after any pushes and pops;
- a binary search's `true` is always witnessed, and is exact on a sorted
  list;
- adding to a trie makes exactly the added word and its prefixes newly
  findable, and adding twice is the same as adding once;
- a quick list's IDs are fresh and distinct, and `delete` removes exactly
  one entry;
- BFS and DFS visit exactly the nodes reachable from their start. A node
  that two visited nodes both point to before it is visited is visited
  twice, as in the library: in the graph 1→2, 1→3, 2→3 both orders visit
  1, 2, 3, 3.

## Model

| member | source | states |
|---|---|---|
| `Heaps.Parent` | src/Heap.ts:22 | the parent of index `i > 0` lies below `i`, and `i` is its left or right child |
| `Heaps.ParentIndexIsShift` | src/Heap.ts:22 | for every index of a JavaScript array, `(curr - 1) >>> 1` is the parent index |
| `Heaps.Swapped` | src/Heap.ts:56-61 | swapping exchanges exactly the two elements and keeps the multiset |
| `Heaps.RootIsExtreme` | src/Heap.ts:36-39 | in a heap the root's key may stand before the key at any index |
| `Heaps.RootPrecedesAll` | src/Heap.ts:36-39 | in a non-empty heap the root's key may stand before every element's key |
| `Heaps.SiftUpStep` | src/Heap.ts:21-28 | one swap with the parent moves the only order violation one level up |
| `Heaps.ChosenChildLeads` | src/Heap.ts:42-43 | the child `nextChild` picks may stand before every child of the current node |
| `Heaps.ParentLeadsChildren` | src/Heap.ts:44-46 | when the comparer stops the loop, the current node leads all its children |
| `Heaps.SiftDownDone` | src/Heap.ts:42-46 | a stopped sift-down leaves a heap |
| `Heaps.SiftDownStep` | src/Heap.ts:47-48 | one swap with the chosen child moves the only order violation one level down |
| `Heaps.Heap.constructor` | src/Heap.ts:6-11 | a new heap is empty, is a heap, and keeps the variant and the extractor |
| `Heaps.Heap.Length` | src/Heap.ts:52-54 | the length is the number of stored elements |
| `Heaps.Heap.Extract` | src/Heap.ts:63-68 | the key of a value is what the extractor gives; every comparison of the heap goes through it (the `typeof value === "number"` shortcut: see Left out) |
| `Heaps.Heap.Comparer` | src/MinHeap.ts:34-38 | true exactly when the element at `index2` may stand before the one at `index1` (`>=` for Min; MaxHeap.ts lines 32-36 use `<=` for Max) |
| `Heaps.Heap.NextChild` | src/MinHeap.ts:27-32 | the result is the left child or an existing right child, at least as extreme as both; the right child only when strictly more extreme (MaxHeap.ts lines 25-30) |
| `Heaps.Heap.Swap` | src/Heap.ts:56-61 | the storage becomes `Swapped` |
| `Heaps.Heap.Push` | src/Heap.ts:18-29 | the heap order is kept and the multiset gains exactly the pushed value |
| `Heaps.Heap.Pop` | src/Heap.ts:36-51 | an empty heap gives None and stays empty; otherwise the old root is returned, the multiset loses exactly it, the order is kept, and its key may stand before every key held before and after |
| `Heaps.Heap.SiftDown` | src/Heap.ts:40-49 | from a root-only violation, the loop restores the heap order and keeps the multiset |
| `Heaps.PopAll` | src/Heap.ts:36-51 | popping until empty yields every element once (the same multiset), in the variant's key order |
| `Heaps.InOrderIsUnique` | src/Heap.ts:36-51 | two orderings of the same numbers that both follow one direction are equal, so the popping order is determined |
| `Heaps.MinHeapPopsAscending` | src/MinHeap.ts:11-15 | extends the doc example (which pushes 1, 2, 3 and pops 1) to an unsorted push order: a MinHeap of 5, 3, 8, 1 pops 1, 3, 5, 8 |
| `Heaps.MaxHeapPopsDescending` | src/MaxHeap.ts:11-15 | extends the doc example (which pushes 3, 2, 1 and pops 3) to an unsorted push order: a MaxHeap of 5, 3, 8, 1 pops 8, 5, 3, 1 |
| `Heaps.PopEmptyHeap` | src/Heap.ts:36-39 | popping an empty heap gives None and length 0 |
| `Heaps.PushFiveThreeEightOne` | src/Heap.ts:18-29 | four pushes leave a valid heap holding exactly those four numbers |
| `Heaps.MinHeapOrdersRecordsById` | src/MinHeap.ts:17-23 | the doc's records Jeff (1), Steve (2), Dave (3) pushed in that order: the MinHeap keyed by `id` pops Jeff first |
| `Heaps.MaxHeapOrdersRecordsById` | src/MaxHeap.ts:17-21 | the doc's records Jeff (3), Steve (2), Dave (1) pushed in that order: the MaxHeap keyed by `id` pops Jeff first |
| `Ordering.MoreExtremeIsNotAtLeast` | src/MinHeap.ts:34-38 | "strictly more extreme" is the negation of the comparer's "may stand before", and both directions are antisymmetric |
| `Ordering.AtLeastTransitive` | src/MinHeap.ts:34-38 | "may stand before" is transitive |
| `MinMaxStacks.CountIsMultiplicity` | src/MinMaxStack.ts:8 | the counted ties of a key are its multiplicity among the stored keys |
| `MinMaxStacks.CountZero` | src/MinStack.ts:39-47 | the tie count of a key is zero exactly when no stored element has that key |
| `MinMaxStacks.FirstExtremeIsUnique` | src/MinStack.ts:49-65 | the tracked element (the first of extremal key) is determined by the stored elements alone |
| `MinMaxStacks.MinMaxStack.constructor` | src/MinMaxStack.ts:6-12 | a new stack is empty, tracks null and counts 0 |
| `MinMaxStacks.MinMaxStack.ExtremeKey` | src/MinStack.ts:22-24 | the tracked element's key; on a valid stack it exists exactly when the stack is non-empty, is extremal among the stored keys, and `occurances` counts its ties (at least one) |
| `MinMaxStacks.MinMaxStack.Length` | src/MinMaxStack.ts:52-54 | the length is the number of stored elements |
| `MinMaxStacks.MinMaxStack.Extract` | src/MinMaxStack.ts:60-65 | the key of a value is what the extractor gives; the tracking compares through it (the number shortcut: see Left out) |
| `MinMaxStacks.MinMaxStack.Peek` | src/MinMaxStack.ts:43-45 | the top element, or None exactly when the stack is empty |
| `MinMaxStacks.MinMaxStack.Items` | src/MinMaxStack.ts:67-71 | the iterator yields the storage bottom to top |
| `MinMaxStacks.MinMaxStack.Push` | src/MinMaxStack.ts:19-22 | the value goes on top; a tie with the tracked key adds one to the count, a more extreme key (or an empty stack) takes over with count 1, a less extreme key changes nothing; tracking stays right |
| `MinMaxStacks.MinMaxStack.SetMinMax` | src/MinStack.ts:26-37 | the three cases of `setMinMax` (tie, new extremum or empty stack, neither), with tracking right for the stack including the pushed value |
| `MinMaxStacks.MinMaxStack.Pop` | src/MinMaxStack.ts:29-36 | an empty stack gives None and nothing changes; otherwise the top is removed and returned, a popped non-tie keeps the tracking, a popped tie with more ties left decrements the count, and tracking stays right |
| `MinMaxStacks.MinMaxStack.FindMinMax` | src/MinStack.ts:39-47 | the update on pop: a non-tie changes nothing, a tie decrements the count, and the last tie triggers a rescan; tracking stays right |
| `MinMaxStacks.MinMaxStack.FindExtremum` | src/MinStack.ts:49-65 | the rescan leaves the first element of extremal key tracked with its tie count (null and 0 when empty) and the storage unchanged (`findMax`: MaxStack.ts lines 49-65) |
| `MinMaxStacks.Observe` | src/MinStack.ts:20-24 | on a valid stack of numbers, the tracked key is the extremal element and the count is its multiplicity |
| `MinMaxStacks.PushAll` | src/MinMaxStack.ts:19-22 | pushing a sequence onto a new stack holds exactly that sequence, validly tracked |
| `MinMaxStacks.PopTimes` | src/MinMaxStack.ts:29-36 | popping `n` times removes exactly the top `n` elements, tracking stays right |
| `MinMaxStacks.ObserveAfterPops` | src/MinStack.ts:26-65 | after any pushes and pops, the tracked key is the extremum of what remains and the count its multiplicity; nothing is tracked once all are popped |
| `MinMaxStacks.MinStackTracksMinimum` | src/MinStack.ts:11-16 | extends the doc example (3, 2, 1) with a second 2 to exercise the tie count: a MinStack of 3, 2, 2, 1 tracks 1 (once), then 2 (twice), then 3 after a rescan, then nothing |
| `MinMaxStacks.MaxStackTracksMaximum` | src/MaxStack.ts:11-16 | extends the doc example (1, 2, 3) with a second 2 to exercise the tie count: a MaxStack of 1, 2, 2, 3 tracks 3, then 2 (twice), then 1 after a rescan |
| `BinarySearching.BinarySearch` | src/binary-search.ts:30-63 | a true answer is witnessed by an element with the target's key, on any list; on a list sorted by key the answer is true exactly when such an element exists; an empty list gives false |
| `BinarySearching.ProbeIsHalf` | src/binary-search.ts:44 | `(l + r) >>> 1` is `(l + r) / 2` whenever `l + r < 2^32`, which holds for the indices of a list of at most 2^31 elements |
| `BinarySearching.SearchNumbers` | src/binary-search.ts:9-10 | searching `[1, 2, 3, 4]` finds 3 and does not find 5 |
| `BinarySearching.SearchRecordsById` | src/binary-search.ts:12-21 | records are found by key: Dave's record and any record with his id are found |
| `LinkedLists.ValuesAppend` | src/LinkedList.ts:67-69 | the values of nodes with one appended node gain that node's value at the end |
| `LinkedLists.ValuesPrepend` | src/LinkedList.ts:87-89 | the values of nodes with one prepended node gain that node's value at the front |
| `LinkedLists.ListNode.constructor` | src/LinkedList.ts:5-13 | a node holds the value and the given links |
| `LinkedLists.LinkedList.constructor` | src/LinkedList.ts:41-45 | a list built from items holds exactly those items in order, with fresh nodes and valid links |
| `LinkedLists.LinkedList.Push` | src/LinkedList.ts:47-71 | the item is appended at the tail, the links stay valid, and the new size is returned and equals the number of values |
| `LinkedLists.LinkedList.Unshift` | src/LinkedList.ts:73-90 | the item is prepended at the head and the links stay valid; the new size is returned only when the list held at most one element, otherwise nothing is |
| `LinkedLists.LinkedList.UnshiftCounted` | src/LinkedList.ts:73-90 | the corrected `unshift`: prepends the item and always returns the new size |
| `LinkedLists.LinkedList.Shift` | src/LinkedList.ts:92-106 | an empty list gives None and stays empty; otherwise the head value is removed and returned and the size drops by one |
| `LinkedLists.LinkedList.Pop` | src/LinkedList.ts:108-122 | an empty list gives None and stays empty; otherwise the tail value is removed and returned and the size drops by one |
| `LinkedLists.LinkedList.PeekLeft` | src/LinkedList.ts:124-126 | the head value, None exactly when empty |
| `LinkedLists.LinkedList.PeekRight` | src/LinkedList.ts:128-130 | the tail value, None exactly when empty |
| `LinkedLists.LinkedList.Items` | src/LinkedList.ts:132-138 | following `next` from the head yields exactly the values in order |
| `LinkedLists.DocumentedSession` | src/LinkedList.ts:24-34 | items 1, 2, 3 iterate in order, `pop` gives 3, `shift` gives 1, and after `push(3)` and `unshift(1)` the list is 1, 2, 3 again, that `unshift` returning nothing |
| `Tries.New` | src/Trie.ts:19-24 | a new node carries the value, is not a word and has no children |
| `Tries.HasAdjacent` | src/Trie.ts:64-66 | true exactly when the node has a child for the character |
| `Tries.Get` | src/Trie.ts:73-75 | the child for the character, None exactly when there is none |
| `Tries.Lookup` | src/Trie.ts:48-57 | the meaning of `search`: a word is found exactly when the path of its characters exists from the root and, for a whole-word search, ends at a node flagged as a word |
| `Tries.Add` | src/Trie.ts:31-40 | `add` keeps the root's label; the root is flagged exactly when it was or the word is empty; its children are the old ones plus the first character's, and every other child is unchanged (what it adds overall: `AddWords`, `AddPrefixes`) |
| `Tries.Search` | src/Trie.ts:48-57 | the loop answers exactly `Lookup`: false at the first missing child, else the end node's flag, or true for a prefix search |
| `Tries.NewHoldsOnlyEmptyPrefix` | src/Trie.ts:19-24 | a new trie finds no word and only the empty prefix |
| `Tries.AddWords` | src/Trie.ts:31-40 | after `add(w)` the words found are exactly the earlier words and `w` |
| `Tries.AddPrefixes` | src/Trie.ts:31-40 | after `add(w)` the prefixes found are exactly the earlier prefixes and the prefixes of `w` |
| `Tries.AddThenSearch` | src/Trie.ts:31-57 | after `add(w)`, `search(w)` is true |
| `Tries.AddThenSearchPrefix` | src/Trie.ts:42-57 | after `add(w)`, `search(p, false)` is true for every prefix `p` of `w` |
| `Tries.AddKeeps` | src/Trie.ts:31-40 | adding never loses a word or a prefix found before |
| `Tries.AddIdempotent` | src/Trie.ts:31-40 | adding a word twice gives the same trie as adding it once |
| `Tries.SearchStopsAtMissingChild` | src/Trie.ts:50-53 | once a prefix of the word has no path, the search fails with either flag |
| `Tries.AddKeepsLabels` | src/Trie.ts:34-36 | every node created by `add` carries its edge character as value, and the root keeps its value |
| `Tries.AddAll` | src/Trie.ts:31-40 | adding a list of words to a new trie finds exactly those words, and exactly the empty string and their prefixes as prefixes |
| `Tries.DocumentedSession` | src/Trie.ts:10-15 | after adding "hello", "goodbye", "helpful": "hello" is a word, "help" a prefix but not a word, "hex" not even a prefix |
| `PriorityQueues.Mark` | src/PriorityQueue.ts:40 | marking keeps the keys ascending, adds exactly `p`, and changes nothing when `p` is marked |
| `PriorityQueues.Unmark` | src/PriorityQueue.ts:52 | unmarking keeps the keys ascending and removes exactly `p` |
| `PriorityQueues.SumUpdate` | src/PriorityQueue.ts:37-39 | replacing a listed bucket changes the value count by the change in its size; an unlisted bucket does not count |
| `PriorityQueues.SumMark` | src/PriorityQueue.ts:40 | marking a new priority adds its bucket's size to the count |
| `PriorityQueues.StopAt` | src/PriorityQueue.ts:49-54 | the loop stops at the highest bucket holding exactly one value; no bucket above it, or none at all, holds exactly one |
| `PriorityQueues.DropTopBelow` | src/PriorityQueue.ts:49-54 | the loop has not touched the buckets below the current one |
| `PriorityQueues.DropTopMeaning` | src/PriorityQueue.ts:49-54 | after the loop has passed a bucket, exactly the buckets from there up have lost their last value |
| `PriorityQueues.PopTakesFromReached` | src/PriorityQueue.ts:48-56 | `pop` takes the last value from every bucket it reaches and leaves every other bucket as it was |
| `PriorityQueues.PopKeepsConsistent` | src/PriorityQueue.ts:48-56 | `pop` keeps the keys ascending, a priority marked exactly when its bucket holds a value, and the bound |
| `PriorityQueues.PopResult` | src/PriorityQueue.ts:48-56 | `pop` returns the value of the highest single-value bucket and unmarks it; with no such bucket it returns nothing and keeps the marks |
| `PriorityQueues.PopEmpty` | src/PriorityQueue.ts:48-56 | `pop` on an empty queue returns nothing and changes nothing |
| `PriorityQueues.UnmarkLast` | src/PriorityQueue.ts:52 | unmarking the highest priority drops it from the end of the key list |
| `PriorityQueues.PopSingleTop` | src/PriorityQueue.ts:48-56 | when the highest bucket holds one value, `pop` returns it, empties only that bucket and unmarks only its priority |
| `PriorityQueues.PopStep` | src/PriorityQueue.ts:49-54 | one round of the loop: the bucket is non-empty and untouched, dropping its last value gives the next round's buckets, and the loop stops here exactly when it held one value |
| `PriorityQueues.SumUnmarkEmpty` | src/PriorityQueue.ts:52 | unmarking a priority whose bucket is empty keeps the value count |
| `PriorityQueues.TopPop` | src/PriorityQueue.ts:43-47 | the documented `pop`: the highest bucket loses exactly its last value, which is returned; every other bucket stays; the marks stay consistent |
| `PriorityQueues.TopPopSize` | src/PriorityQueue.ts:43-47 | the documented `pop` removes exactly one value from a non-empty queue |
| `PriorityQueues.PopAgreesWhenTopSingle` | src/PriorityQueue.ts:48-56 | when the highest bucket holds one value, `pop` as written and as documented agree |
| `PriorityQueues.PopDiscardsValues` | src/PriorityQueue.ts:48-56 | with `a` at priority 1 and `b`, `c` at priority 2, `pop` as written returns `a` and leaves one value of three; the documented `pop` returns `c` and leaves two |
| `PriorityQueues.Entries` | src/PriorityQueue.ts:94-104 | the iterator yields each marked priority with its bucket, highest first, every bucket non-empty |
| `PriorityQueues.PopEffect` | src/PriorityQueue.ts:48-56 | `pop` as written, as a value: it never marks a priority and keeps the list ascending; without a result the marks are unchanged, with one a marked priority is removed (the buckets: `PopTakesFromReached`, the result: `PopResult`) |
| `PriorityQueues.PopBuckets` | src/PriorityQueue.ts:48-56 | the loop of `pop` computes exactly `PopEffect` |
| `PriorityQueues.PriorityQueue.constructor` | src/PriorityQueue.ts:20-26 | a new queue has no buckets, no marks, no values, and the given bound |
| `PriorityQueues.PriorityQueue.Push` | src/PriorityQueue.ts:33-41 | for a priority that is an array index (below 2^32 - 1): a priority above the bound gives a RangeError and changes nothing; otherwise the value is appended to its bucket, the priority marked, one more value held, and the invariant kept |
| `PriorityQueues.PriorityQueue.Pop` | src/PriorityQueue.ts:48-56 | the new buckets, marks and result are `PopEffect` of the old ones, and the invariant is kept |
| `PriorityQueues.PriorityQueue.PopTop` | src/PriorityQueue.ts:43-47 | the documented `pop`, with exactly one value fewer afterwards |
| `PriorityQueues.PriorityQueue.Poll` | src/PriorityQueue.ts:63-67 | the last value of the highest marked bucket, None on an empty queue |
| `PriorityQueues.PriorityQueue.Length` | src/PriorityQueue.ts:74-80 | the sum of the bucket sizes, which is the number of values held |
| `PriorityQueues.PriorityQueue.IsEmpty` | src/PriorityQueue.ts:87-92 | true exactly when no priority is marked, exactly when no value is held |
| `PriorityQueues.PopSingle` | src/PriorityQueue.ts:48-56 | a `pop` whose highest bucket holds one value returns it and unmarks exactly that priority |
| `PriorityQueues.MarkAbove` | src/PriorityQueue.ts:40 | marking a priority above every marked one appends it |
| `PriorityQueues.PushAbove` | src/PriorityQueue.ts:33-41 | a push above every marked priority adds a one-value bucket, listed last |
| `PriorityQueues.PushDocumented` | src/PriorityQueue.ts:9-12 | pushing 3, 2, 1 at priorities 1, 2, 3 gives buckets `[3]`, `[2]`, `[1]` |
| `PriorityQueues.DocumentedSession` | src/PriorityQueue.ts:9-17 | that queue has length 3, pops 1, 2, 3 and is then empty |
| `QuickLists.ParseDecimal` | src/QuickList.ts:21 | reading back an ID gives its counter value, so distinct counter values give distinct IDs |
| `QuickLists.Lookup` | src/QuickList.ts:49-51 | `storage.get(id)`: None exactly when `id` is not a key, else an entry under `id` |
| `QuickLists.Without` | src/QuickList.ts:58-60 | `storage.delete(id)`: no entry under `id` remains, and exactly the other entries do |
| `QuickLists.WithoutDistinct` | src/QuickList.ts:58-60 | deleting keeps the IDs distinct |
| `QuickLists.LookupWithout` | src/QuickList.ts:58-60 | after a delete nothing is found under the ID, and every other ID finds what it found before |
| `QuickLists.LookupAppend` | src/QuickList.ts:20-24 | after storing under a new ID, it finds the item and every other ID is unchanged |
| `QuickLists.WithoutAbsent` | src/QuickList.ts:58-60 | deleting an absent ID changes nothing |
| `QuickLists.WithoutFirst` | src/QuickQueue.ts:37-42 | deleting the first ID drops exactly the first entry |
| `QuickLists.WithoutLast` | src/QuickStack.ts:57-65 | deleting the last ID drops exactly the last entry |
| `QuickLists.NextIdIsNew` | src/QuickList.ts:21-22 | the next ID is not a key of the storage |
| `QuickLists.AppendKeyed` | src/QuickList.ts:20-24 | storing under the next ID keeps IDs distinct and issued |
| `QuickLists.WithoutKeyed` | src/QuickList.ts:58-60 | deleting keeps IDs distinct and issued |
| `QuickLists.QuickQueue.constructor` | src/QuickList.ts:10-12 | a new queue is empty and no ID has been issued |
| `QuickLists.QuickQueue.NextId` | src/QuickList.ts:21 | a non-empty ID made from the counter, which advances |
| `QuickLists.QuickQueue.Push` | src/QuickList.ts:20-24 | the item is stored last under a new non-empty ID, which is returned; every other ID finds what it found before |
| `QuickLists.QuickQueue.Enqueue` | src/QuickQueue.ts:27-29 | the same as `push` |
| `QuickLists.QuickQueue.Length` | src/QuickList.ts:31-33 | the number of keys |
| `QuickLists.QuickQueue.IsEmpty` | src/QuickList.ts:40-42 | true exactly when there is no key |
| `QuickLists.QuickQueue.Get` | src/QuickList.ts:49-51 | the item under `id`, None exactly when `id` is not a key |
| `QuickLists.QuickQueue.Delete` | src/QuickList.ts:58-60 | answers whether `id` was a key, removes exactly its entry, and leaves every other ID's item |
| `QuickLists.QuickQueue.Clear` | src/QuickList.ts:67-69 | no entry remains, and IDs handed out stay used |
| `QuickLists.QuickQueue.Dequeue` | src/QuickQueue.ts:37-42 | the oldest item is removed and returned, None on an empty queue |
| `QuickLists.QuickQueue.Peek` | src/QuickQueue.ts:50-54 | the oldest entry, None exactly when empty; its ID finds its item |
| `QuickLists.QuickStack.constructor` | src/QuickStack.ts:18-20 | a new stack is empty and no ID has been issued |
| `QuickLists.QuickStack.NextId` | src/QuickStack.ts:29 | a non-empty ID made from the counter, which advances |
| `QuickLists.QuickStack.Push` | src/QuickStack.ts:28-32 | the item is stored on top under a new non-empty ID, which is returned; every other ID finds what it found before |
| `QuickLists.QuickStack.Length` | src/QuickStack.ts:39-41 | the number of keys |
| `QuickLists.QuickStack.Get` | src/QuickStack.ts:48-50 | the item under `id`, None exactly when `id` is not a key |
| `QuickLists.QuickStack.Pop` | src/QuickStack.ts:57-65 | the newest item is removed and returned, None on an empty stack |
| `QuickLists.QuickStack.Delete` | src/QuickStack.ts:72-74 | answers whether `id` was a key, removes exactly its entry, and leaves every other ID's item |
| `QuickLists.DequeueAll` | src/QuickQueue.ts:37-42 | dequeuing until empty yields the items oldest first |
| `QuickLists.PopAll` | src/QuickStack.ts:57-65 | popping until empty yields the items newest first |
| `QuickLists.QueueOfThree` | src/QuickQueue.ts:27-29 | three enqueues hold the three items in order under their returned IDs |
| `QuickLists.QueueSession` | src/QuickQueue.ts:12-17 | after deleting "b" by its ID, "b" is not found and dequeuing gives "a" then "c" |
| `QuickLists.StackOfThree` | src/QuickStack.ts:28-32 | three pushes hold the three items in order under their returned IDs |
| `QuickLists.StackSession` | src/QuickStack.ts:10-15 | after deleting "c" by its ID, popping gives "b" then "a" |
| `Graphs.Unvisited` | src/Graph.ts:65-69 | the neighbours scheduled are edges of the node that are not yet marked |
| `Graphs.UnvisitedHolds` | src/Graph.ts:65-69 | every unmarked edge of the node is scheduled |
| `Graphs.Reverse` | src/Graph.ts:97-99 | moving the temporary stack onto the stack reverses it |
| `Graphs.TraverseUnfolds` | src/Graph.ts:58-69 | one step of a traversal visits the node taken first, then traverses on from its successor frontier with that node marked |
| `Graphs.TraverseSound` | src/Graph.ts:54-72 | every node a traversal visits is reachable from a node reaching the whole frontier |
| `Graphs.TraverseCovers` | src/Graph.ts:54-72 | a traversal visits every node of its frontier, and afterwards every edge of a visited node leads to a visited node |
| `Graphs.TraverseVisitsReachable` | src/Graph.ts:48-102 | from a node of the graph, BFS and DFS visit it first and visit exactly the nodes reachable from it |
| `Graphs.SetEdge` | src/Graph.ts:34-36 | `edges.set`: the value is then present, nothing is lost, and an existing value keeps its place |
| `Graphs.NodeCache.constructor` | src/Graph.ts:129-130 | a new cache holds no node |
| `Graphs.NodeCache.Create` | src/Graph.ts:139-144 | creates the node without edges when absent, leaves the cache as it is when present, and returns the cached node |
| `Graphs.NodeCache.Reference` | src/Graph.ts:152-154 | the cached node for the value, None exactly when absent |
| `Graphs.NodeCache.AddEdge` | src/Graph.ts:34-36 | the node then connects to the edge, connects to no other new value, and no other node changes |
| `Graphs.NodeCache.ConnectsTo` | src/Graph.ts:44-46 | true exactly when one of the node's edges is the value |
| `Graphs.NodeCache.Edges` | src/Graph.ts:104-108 | the node's iterator yields its edges in insertion order |
| `Graphs.NodeCache.BFS` | src/Graph.ts:54-72 | the visits are the breadth-first `Traverse`, start first, exactly the reachable nodes |
| `Graphs.NodeCache.DFS` | src/Graph.ts:80-102 | the visits are the depth-first `Traverse`, start first, exactly the reachable nodes |
| `Graphs.BreadthFirst` | src/Graph.ts:54-72 | the queue loop computes exactly the breadth-first `Traverse` |
| `Graphs.DepthFirst` | src/Graph.ts:80-102 | the stack loop computes exactly the depth-first `Traverse` |
| `Graphs.DepthSuccessor` | src/Graph.ts:84-99 | the depth-first step takes the top of the stack and pushes its unmarked edges so that the first ends on top |
| `Graphs.DepthUnfolds` | src/Graph.ts:84-99 | one round of the DFS loop, in the terms the loop computes, visits the top and continues from the new stack |
| `Graphs.EnqueueUnvisited` | src/Graph.ts:65-69 | the loop over a node's edges appends exactly its unmarked edges |
| `Graphs.UnvisitedPrefix` | src/Graph.ts:65-69 | one more edge is scheduled exactly when it is unmarked |
| `Graphs.MoveOnto` | src/Graph.ts:97-99 | popping the temporary stack onto the stack appends it reversed |
| `Graphs.DocumentedClosed` | src/Graph.ts:12-17 | the documented graph has every edge inside it |
| `Graphs.DocumentedDepthFirst` | src/Graph.ts:18 | DFS from 1 of the documented graph visits 1, 2, 3, 4 |
| `Graphs.DocumentedBreadthFirst` | src/Graph.ts:19 | BFS from 1 of the documented graph visits 1, 2, 4, 3 |
| `Graphs.DiamondRepeats` | src/Graph.ts:58-69 | a node is marked when it is taken, not when it is scheduled: from a frontier holding 3 twice, with 1 and 2 visited, both orders visit 3 twice |
| `Graphs.DiamondBreadthFirst` | src/Graph.ts:54-72 | BFS from 1 of the graph 1→2, 1→3, 2→3 visits 1, 2, 3, 3: visiting 2 queues 3 again because 3 is not yet marked |
| `Graphs.DiamondDepthFirst` | src/Graph.ts:80-102 | DFS from 1 of the same graph visits 1, 2, 3, 3: visiting 2 stacks 3 on top of the 3 already stacked |
| `Graphs.BuildFirstHalf` | src/Graph.ts:12-16 | creating 1, 2, 4 and adding edges 1 to 2 and 1 to 4 gives those nodes and edges |
| `Graphs.BuildDocumented` | src/Graph.ts:12-17 | the documented construction gives the documented graph |
| `Graphs.DocumentedSession` | src/Graph.ts:12-19 | the documented DFS visits 1, 2, 3, 4 and the documented BFS visits 1, 2, 4, 3 |

## Left out

- `Stack.ts` and `Queue.ts` are not part of this model. The DFS stack and its
  temporary stack are sequences whose push and pop are written inline. The
  BFS queue is a sequence too, where the library uses a `LinkedList`.
- Keys are `int`. Floating-point keys, `NaN` and `Infinity` are not modelled.
- The `typeof value === "number"` shortcut of `extract` in `Heap.ts`,
  `MinMaxStack.ts` and `binary-search.ts` is not modelled: a generic value
  cannot be inspected. Numbers are used with the `Identity` extractor,
  which gives the same keys.
- The `AutoIncrementingID` generator comes from another package and is not
  part of this model. It is modelled as a counter written in decimal. All
  the containers rely on is that each ID is new and non-empty, and that is
  what is proved.
- `Tries.Add` and `Tries.Search` model the trie as a tree value. Two things
  follow:
  - `add` rebuilds the path it walks instead of updating nodes in place;
  - aliasing of nodes, such as a `root` argument that is a node of another
    trie, is not modelled.
- `Tries.Search` and `Tries.Add`: a `char` is a Unicode scalar value, so a
  `string` is the code-point sequence that the `for…of` loops
  (src/Trie.ts:33 and :50) yield. A lone surrogate, which those loops yield
  as a single code unit, cannot be represented.
- `BinarySearching.BinarySearch` probes at `(l + r) / 2` on unbounded
  integers. On a list of more than 2^31 elements, `l + r` can reach 2^32,
  and the source's `(l + r) >>> 1` then wraps (l = r = 2^31 gives 0). The
  probe then falls outside the window. This wrap is not modelled, so the
  contract of `BinarySearching.BinarySearch` holds for the source only on
  lists of at most 2^31 elements.
- `Tries.HasAdjacent`: JavaScript's `in` also sees inherited properties of
  `Object.prototype` (`"constructor"`, say); only single characters are
  looked up, so the model uses the dictionary's own keys.
- The graph identifies nodes by value, as the `NodeCache` does. `Graph`
  node objects and their `value`/`edges` fields are folded into the
  cache's map from value to ordered edge list. A node's methods become
  cache methods taking the node's value, so nodes outside a cache are not
  modelled.
- `Graphs.NodeCache.AddEdge` requires both nodes to be in the cache. An
  edge to a node that was never cached is not modelled.
- BFS and DFS return the sequence of nodes visited instead of calling a
  callback on each. `memo.clear()` at the end has no effect on the result.
- Iterators (`Symbol.iterator`) are methods that return what the iteration
  yields, in order.
- `Heaps.Heap.Pop` on an empty heap returns None. The source's
  `swap(0, -1)` also writes a property named `"-1"` on the array, which is
  not part of the model.
- `PriorityQueues.PriorityQueue.Push`: priorities are natural numbers
  below 2^32 - 1 (`IndexLimit`), and the queue invariant keeps every bucket
  below it. Only such keys are array indices, which `Object.keys` lists in
  ascending numeric order. A larger key is listed in insertion order, and
  from 1e21 up its key string (`"1e+21"`) reads back through `parseInt` as
  another number. Either way the source's `pop`, `poll`, `length` and
  `isEmpty` then walk the wrong order or miss buckets. That behaviour is
  not modelled. A negative or fractional priority, which the source accepts
  as an object key, is not modelled either. The default bound `Infinity` is
  `None`.
- `PriorityQueues.Mark` and `PriorityQueues.Entries` give the ascending key
  listing of array-index keys only, which is all the queue invariant
  admits.
- `PriorityQueues.PriorityQueue.Pop` updates a copy of the bucket map and
  the key list and writes them back. The source mutates the bucket arrays
  through the iterator while iterating; the resulting values are the same.
- `QuickList` is abstract and `QuickQueue` is its only subclass in the
  core, so the two are one class, `QuickQueue`.
- `QuickLists.QuickStack.Pop`: the source's `!last` test is modelled, but
  an issued ID is never empty, so that branch is only taken on an empty
  stack.

## Findings

| source | as written | input that shows it | evidently intended | confidence | as-written member | corrected member |
|---|---|---|---|---|---|---|
| src/PriorityQueue.ts:48-56 | `pop` takes the last value out of every bucket from the highest down, and stops at the first bucket that becomes empty | push `b` and `c` at priority 2 and `a` at priority 1, then `pop`: it returns `a`, and `c` is dropped, so one value of three is left | return the last value of the highest bucket, unmarking its priority once the bucket is empty, as the doc comment at lines 43-47 says | high; not executed | `PriorityQueues.PopDiscardsValues` | `PriorityQueues.PriorityQueue.PopTop` |
| src/LinkedList.ts:73-90 | `unshift` returns the new size only when the list held at most one element; otherwise it falls off the end and returns `undefined` | `unshift(1)` on the list 2, 3 returns `undefined` | return `this.size` on every path, as `push` does | medium; not executed | `LinkedLists.DocumentedSession` | `LinkedLists.LinkedList.UnshiftCounted` |
