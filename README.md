# cpp-data-structures containers in Dafny

This project models the four header-only containers of cpp-data-structures and proves their contracts:

- `list<T>` (`include/list/list.h`): a circular doubly-linked list with a sentinel node.
  - Nodes are relinked, never copied, by `link_nodes`, `insert_node` and `unlink_node`.
  - Built on these primitives: `insert`, `erase`, `push`/`pop` at both ends, `clear`, `resize`, `swap`, the three `splice` forms, `remove_if`, `unique`, `reverse`, a stable `merge`, and the bottom-up merge `sort` with its 64 counter lists.
- `stack<T>` (`include/stack/stack.h`): a LIFO adapter over an owned buffer.
  - The buffer grows to 16 slots and then doubles.
  - `top`, `pop` and `at` are checked.
- `vector<T>` (`include/vector/vector.h`): a growable array.
  - Its growth policy is `capacity == 0 ? 1 : 2 * capacity`.
- `unordered_set<K>` (`include/unordered_set/unordered_set.h`): a hash set with separate chaining.
  - Chains are singly linked.
  - Insertion prepends to the chain.
  - `rehash_impl` relinks every node into a fresh bucket array.
  - The iterator walks a chain and then skips empty buckets.

## How the model is organised

- **`Outcomes`** holds `Result`, which is a value or `out_of_range` with its message, and `Status`, which is done, or failed with a message.
- **`Orders`** holds the strict weak ordering that `merge` and `sort` ask of `comp`.

**The list.** All lists live in one node arena, so `splice`, `merge` and `sort` can move nodes between lists without copying payloads.

- The arena has four parts, indexed by node number:
  - the `next` and `prev` links;
  - a payload map;
  - an owner;
  - for each sentinel, its size field and the ghost sequence of its data nodes.

  A list is named by its sentinel. An iterator is a node number together with a ghost position.
- `ListArena` gives the arena as a value `Arena`.
  - `Wf` states the ring invariant of every list. Following `next` from the sentinel visits exactly `sz` data nodes and returns to the sentinel, and `prev` inverts `next`.
  - Each list-changing operation is a function `Op(h, ...)` on arenas. Its contract, or a companion lemma such as `MergedElems` or `InsertedAllElems`, gives the new element sequence. It also says that every other list is untouched. `ListMoves.Relinked` is the shared link construction of the splices: it has no contract of its own, and the `Relinked*` lemmas state its properties.
- The other list modules:
  - `ListLinks` proves the link-level ring lemmas.
  - `ListSpec` gives the sequence-level specifications: `Kept`, `Unique`, `Rev`, `Merge`, `Class` and `StableSortOf`.
  - `ListOps`, `ListMoves`, `ListMerge` and `ListSort` define the operations.
- `List.ListHeap` is the class. Its fields `nx`, `pv`, `d`, `ow`, `sz` and `ls` are updated in place, statement by statement, as the C++ code does.
  - Every list-changing method ensures `State() == Op(old(State()), ...)`, so the lemmas about `Op` are its properties. The exceptions are the following:
    - The link primitives `LinkNodes`, `InsertNode`, `UnlinkNode`, `CreateNode` and `DestroyNode` give their field updates directly.
    - `Advance` and `Distance` change nothing and state the positions they reach.
    - The sort steps `MakeTemps`, `TakeAll`, `FoldAll` and `ReleaseTemps` state the ladder predicates of `ListSort`.
  - `Sort` is proved directly: its ensures say the result is a stable sorted permutation.

**The stack and the vector.** `Stack.Stack` and `Vector.Vector` are classes over a Dafny `array` with a `size` field. In both, the capacity is the array's length `data.Length`.

**The hash set.** `HashSet.UnorderedSet` keeps its bucket array as an `array<seq<K>>`. Chain `b` holds the keys of the nodes reachable from `buckets_[b]`, front to back. A ghost set `elems` stands for the stored keys.

- Four invariants hold:
  - every key lies in chain `hash(k) % bucket_count`;
  - no chain repeats a key;
  - `size_ == |elems|`;
  - `size_ <= bucket_count`: the load factor stays within `max_load_factor`, which is fixed at 1. Every constructor, `rehash`, `reserve`, `erase`, `clear` and `swap` keeps it. `insert` and `emplace` restore it through `check_and_rehash` before linking a new key.
- The iteration order is `Flatten` of the chains.
  - `Rank` is an iterator's position in that order.
  - `Advance` moves on by exactly one position.
  - `FlattenKeys` proves that the order visits every key exactly once.

I/O, clocks, randomness and concurrency do not occur in the core.

## Model

| member | source | states |
|---|---|---|
| List.ListHeap.LinkNodes | include/list/list.h:121-124 | `prev->next = next; next->prev = prev`: exactly those two links change, and nothing else |
| List.ListHeap.InsertNode | include/list/list.h:126-130 | node `n` is linked between `pos->prev` and `pos`: four links change, nothing else |
| List.ListHeap.UnlinkNode | include/list/list.h:132-134 | the neighbours of `n` are linked to each other, and nothing else changes |
| List.ListHeap.CreateNode | include/list/list.h:103-114 | the fresh node is the next unused node number, holds the value and belongs to the list |
| List.ListHeap.DestroyNode | include/list/list.h:116-119 | the node loses its payload and its owner; the links stay |
| List.ListHeap.NewList | include/list/list.h:137 | a new empty list: a sentinel linked to itself with `sz == 0`; no existing list changes |
| ListArena.Created | include/list/list.h:137 | the new sentinel is a well-formed empty list; every other list is untouched |
| List.ListHeap.Front | include/list/list.h:268-269 | the first element of a non-empty list |
| List.ListHeap.Back | include/list/list.h:270-271 | the last element of a non-empty list |
| List.ListHeap.Begin | include/list/list.h:273-275 | the node at position 0, or the sentinel when the list is empty |
| List.ListHeap.Succ | include/list/list.h:61-65 | `++it` moves from position `p` to `p + 1` |
| List.ListHeap.Pred | include/list/list.h:72-76 | `--it` moves from position `p` to `p - 1` |
| List.ListHeap.Get | include/list/list.h:53-56 | `*it` is the element at the iterator's position |
| List.ListHeap.Size | include/list/list.h:290 | the number of elements |
| List.ListHeap.Empty | include/list/list.h:289 | true exactly when the list has no elements |
| ListArena.InsertWf | include/list/list.h:126-130 | `insert_node` of a fresh node keeps the ring invariant: the ring gains the node at position `p`, and `prev` still inverts `next` |
| ListArena.Inserted | include/list/list.h:305-317 | the list becomes `c[..p] + [v] + c[p..]`, one longer; every other list is untouched |
| List.ListHeap.Insert | include/list/list.h:305-317 | the state becomes `Inserted`: the value stands just before `pos`, the size grows by one, and the new node is returned |
| ListArena.EraseWf | include/list/list.h:357-364 | unlinking and destroying the node at position `p` keeps the ring invariant without it |
| ListArena.Erased | include/list/list.h:357-364 | the list becomes `c[..p] + c[p + 1..]`, one shorter; every other list is untouched |
| List.ListHeap.Erase | include/list/list.h:357-364 | the state becomes `Erased`, and the successor of the erased node, now at position `p`, is returned |
| ListArena.Cleared | include/list/list.h:293-303 | the list is empty, its sentinel is linked to itself, and every other list is untouched |
| List.ListHeap.Clear | include/list/list.h:293-303 | the state becomes `Cleared`; the loop destroys the data nodes front to back |
| ListArena.Destroyed | include/list/list.h:193-195 | after `clear()` the sentinel is released and the list no longer exists; the other lists are untouched |
| List.ListHeap.Destroy | include/list/list.h:193-195 | the state becomes `Destroyed` |
| ListArena.DropKill | include/list/list.h:293-303 | destroying the nodes one at a time, as `clear`'s loop does, removes exactly those payloads and owners |
| ListOps.Fill | include/list/list.h:319-329 | `count` copies of the value: of length `count`, every one equal to the value |
| ListOps.InsertedAll | include/list/list.h:319-343 | inserting `xs` before position `p` puts the fresh nodes, in order, at `p`; every other list is untouched |
| ListOps.InsertedAllElems | include/list/list.h:319-343 | the list becomes `c[..p] + xs + c[p..]`; `pos` moves on by the length of `xs` and the first new node is at `p` |
| List.ListHeap.InsertRange | include/list/list.h:332-347 | the state becomes `InsertedAll` with the range; the iterator to the first inserted element is returned, or `pos` when the range is empty |
| List.ListHeap.InsertCount | include/list/list.h:319-329 | the state becomes `InsertedAll` of `count` copies of the value; the iterator to the first copy is returned, or `pos` |
| ListOps.ErasedRunStep | include/list/list.h:366-371 | erasing `[first, last)` cuts out exactly the elements `c[f..e]`; `last` stands at position `f`; every other list is untouched |
| List.ListHeap.EraseRange | include/list/list.h:366-371 | the state becomes `ErasedRun`, and `last` is returned |
| List.ListHeap.Advance | include/list/list.h:412 | `std::advance(it, n)` reaches the node at position `p + n` |
| List.ListHeap.Distance | include/list/list.h:539 | `std::distance(first, last)` is `e - f` |
| ListOps.PushedBack | include/list/list.h:373-379 | the list becomes `c + [v]`; every other list is untouched |
| ListOps.PushedBackAll | include/list/list.h:421-431 | a `push_back` after appending `xs` is appending `xs + [v]`: the padding loop of `resize` |
| List.ListHeap.PushBack | include/list/list.h:373-379 | the state becomes `PushedBack` |
| List.ListHeap.EmplaceBack | include/list/list.h:382-385 | the state becomes `PushedBack`, and the reference returned is the new last element |
| ListOps.PushedFront | include/list/list.h:391-397 | the list becomes `[v] + c`; every other list is untouched |
| List.ListHeap.PushFront | include/list/list.h:391-397 | the state becomes `PushedFront` |
| List.ListHeap.EmplaceFront | include/list/list.h:400-403 | the state becomes `PushedFront`, and the reference returned is the new first element |
| ListOps.PoppedBack | include/list/list.h:387-389 | a non-empty list loses its last element; every other list is untouched |
| List.ListHeap.PopBack | include/list/list.h:387-389 | the state becomes `PoppedBack` |
| ListOps.PoppedFront | include/list/list.h:405-407 | a non-empty list loses its first element; every other list is untouched |
| List.ListHeap.PopFront | include/list/list.h:405-407 | the state becomes `PoppedFront` |
| ListOps.Resized | include/list/list.h:409-431 | with `count` below the size the list becomes its first `count` elements; otherwise it is padded with copies of the value up to `count` |
| List.ListHeap.Resize | include/list/list.h:421-431 | the state becomes `Resized` |
| ListSpec.KeptSpec | include/list/list.h:559-572 | `remove_if` keeps exactly the elements that fail `p`, never more than there were, and everything exactly when no element satisfies `p` |
| ListSpec.KeptIdempotent | include/list/list.h:559-572 | a second `remove_if` with the same predicate removes nothing |
| ListSpec.KeptAll | include/list/list.h:559-572 | when no element satisfies `p`, nothing is removed |
| ListOps.RemovedIf | include/list/list.h:559-572 | the list becomes `Kept(c, pred)`, the elements failing `pred` in their original order; every other list is untouched |
| List.ListHeap.RemoveIf | include/list/list.h:559-572 | the state becomes `RemovedIf`, and the count returned is the number of elements erased |
| List.ListHeap.Remove | include/list/list.h:555-557 | `remove_if` with equality to the value, returning the count removed |
| ListSpec.Unique | include/list/list.h:584-605 | `unique` keeps the first element and never gains one; its result is a sub-multiset of the input |
| ListSpec.UniqueEnds | include/list/list.h:589-592 | a list of at most one element is left as it is |
| ListSpec.UniqueNoNeighbours | include/list/list.h:589-605 | no two neighbours of `unique`'s result satisfy `p` |
| ListSpec.UniqueFixpoint | include/list/list.h:589-605 | `unique` changes nothing exactly when no two neighbours satisfy `p`, so applying it twice is applying it once |
| ListOps.Uniqued | include/list/list.h:589-605 | the list becomes `Unique(c, pred)`; every other list is untouched |
| List.ListHeap.Unique | include/list/list.h:589-605 | the state becomes `Uniqued`, and the count returned is the number of elements erased |
| ListSpec.RevRev | include/list/list.h:574-582 | reversing twice restores the sequence |
| ListSpec.RevShort | include/list/list.h:574-576 | a sequence of at most one element is its own reverse |
| ListLinks.RingReverse | include/list/list.h:577-581 | swapping `prev` and `next` of every ring node gives the ring of the reversed node sequence |
| ListMoves.Reversed | include/list/list.h:574-582 | the list holds its nodes and elements in reverse order; every other list is untouched |
| ListMoves.ReversedTwice | include/list/list.h:574-582 | `reverse` applied twice restores the list |
| List.ListHeap.Reverse | include/list/list.h:574-582 | the state becomes `Reversed` |
| ListMoves.Swapped | include/list/list.h:433-470 | the two lists exchange nodes, sizes and elements; every other list is untouched; swapping a list with itself changes nothing |
| List.ListHeap.Swap | include/list/list.h:433-470 | the state becomes `Swapped` |
| ListSpec.MovedPermutes | include/list/list.h:532-553 | within one list, moving a run before a position outside it keeps the length and the multiset of elements |
| ListLinks.RingMove | include/list/list.h:532-553 | the three `link_nodes` calls of `splice` keep both rings well formed, with the run moved from one to the other |
| ListMoves.Spliced | include/list/list.h:532-553 | between two lists, the run `[f, e)` of the other list goes before position `p` and the sizes change by the run's length; within one list, the run moves, and a position outside the run is required; other lists are untouched |
| List.ListHeap.Splice | include/list/list.h:532-553 | the state becomes `Spliced` |
| ListMoves.SplicedOne | include/list/list.h:516-530 | the node `it` moves before `pos`; within one list nothing happens when `pos` is `it` or the node after it |
| List.ListHeap.SpliceOne | include/list/list.h:516-530 | the state becomes `SplicedOne` |
| List.ListHeap.MoveNode | include/list/list.h:524-529 | the `unlink_node`/`insert_node` step of `splice(pos, other, it)`, when `pos` is neither `it` nor its successor |
| ListMoves.SplicedAll | include/list/list.h:507-514 | all of the other list goes before `pos` and the other list ends up empty; splicing a list into itself at `end()` changes nothing |
| List.ListHeap.SpliceAll | include/list/list.h:507-514 | the state becomes `SplicedAll` |
| ListSpec.Merge | include/list/list.h:486-505 | `merge`'s output has the length and the multiset of both inputs together |
| ListSpec.MergeSorted | include/list/list.h:486-505 | merging two sorted sequences gives a sorted sequence |
| ListSpec.MergeStable | include/list/list.h:486-505 | stability: among equivalent elements those of this list come first, then those of the other, each group in its original order |
| ListMerge.MergedElems | include/list/list.h:486-505 | this list becomes `Merge(a, b)` and the other list is empty; merging a list with itself changes nothing |
| ListMerge.MergedSortedStable | include/list/list.h:486-505 | two sorted lists merge into a sorted list holding the elements of both, stably |
| List.ListHeap.Merge | include/list/list.h:481-505 | the state becomes `Merged` |
| ListSpec.StableSortIsPermutation | include/list/list.h:612-637 | a stable sorted rearrangement keeps the multiset of elements |
| ListSort.SortShort | include/list/list.h:613 | a list of at most one element is already stably sorted |
| ListSort.SortTake | include/list/list.h:620 | `carry.splice(carry.begin(), *this, begin())` keeps the sort's ladder invariant |
| ListSort.SortMerge | include/list/list.h:623-626 | `counter[i].merge(carry, comp); carry.swap(counter[i])` merges a counter into the carry and keeps the ladder invariant |
| ListSort.SortPlace | include/list/list.h:628-629 | `carry.swap(counter[i])` parks the carry in the first free counter and keeps the ladder invariant |
| ListSort.SortFold | include/list/list.h:632-634 | `counter[i].merge(counter[i - 1], comp)` folds the counters and keeps the fold invariant |
| ListSort.SortFinish | include/list/list.h:632-636 | once all counters are folded the last counter is a stable sort of the original list |
| List.ListHeap.Sort | include/list/list.h:612-637 | the list becomes a sorted permutation of its elements, with equivalent elements in their original order; every other list is untouched |
| List.ListHeap.TakeAll | include/list/list.h:617-630 | the outer `while (!empty())` loop moves every element into the ladder of counters |
| List.ListHeap.FoldAll | include/list/list.h:632-634 | the final loop merges every counter into the last one used |
| List.ListHeap.MakeTemps | include/list/list.h:615-616 | `carry` and the 64 `counter` lists are new empty lists, and the list being sorted and all others are untouched |
| List.ListHeap.ReleaseTemps | include/list/list.h:637 | destroying the 64 counters and `carry` at the end of `sort` leaves the sorted list with its elements and every other list as before sorting |
| Stack.GrownCapacity | include/stack/stack.h:115-116 | `grow` goes to 16 from nothing, otherwise to at least double, and always above the old capacity |
| Stack.Stack.Grow | include/stack/stack.h:115-148 | the capacity becomes `GrownCapacity` of the old one; size and elements are kept in order |
| Stack.Stack.Relocate | include/stack/stack.h:117-147 | the element-by-element move into the new buffer keeps size and elements; the capacity is the requested one |
| Stack.Stack.Reserve | include/stack/stack.h:270-304 | nothing happens unless `new_cap` exceeds the capacity; otherwise the capacity becomes exactly `new_cap`, with the elements kept |
| Stack.Stack.ShrinkToFit | include/stack/stack.h:306-325 | the capacity becomes the size, 0 when empty, with the elements kept; a full buffer is left alone |
| Stack.Stack.Push | include/stack/stack.h:327-333 | `value` is appended on top and `top()` then returns it; the buffer grows first exactly when it is full |
| Stack.Stack.Emplace | include/stack/stack.h:343-350 | as `push`, and the reference returned is the new top |
| Stack.Stack.Pop | include/stack/stack.h:352-356 | on an empty stack it fails with the `out_of_range` message and changes nothing; otherwise exactly the top element goes |
| Stack.Stack.Top | include/stack/stack.h:238-246 | the last pushed element, or `out_of_range` with its message exactly when the stack is empty |
| Stack.Stack.At | include/stack/stack.h:256-264 | element `pos`, counted from the bottom, or `out_of_range` exactly when `pos >= size` |
| Stack.Stack.Clear | include/stack/stack.h:358-363 | the size becomes 0, and the buffer and capacity stay |
| Stack.Stack.Swap | include/stack/stack.h:365-370 | the buffers, elements, sizes and capacities are exchanged |
| Stack.Stack.MoveFrom | include/stack/stack.h:196-201 | the new stack takes over the buffer and elements; the source is left with size 0 and capacity 0 |
| Stack.Stack.Copy | include/stack/stack.h:187-194 | a fresh buffer with capacity `other.size_`, holding equal elements |
| Stack.Stack.Fill | include/stack/stack.h:168-174 | `count` copies of the value, with capacity `count` |
| Stack.Stack.FromSeq | include/stack/stack.h:176-185 | the range, pushed in order from the bottom, with the capacity `CapacityAfterPushes` of that many pushes from an empty stack |
| Stack.Stack.WithCapacity | include/stack/stack.h:163-166 | empty, with capacity `count` |
| Stack.Stack.Size | include/stack/stack.h:267 | the number of elements, never above the capacity |
| Stack.Stack.Capacity | include/stack/stack.h:268 | the capacity is never below the number of elements |
| Stack.Stack.constructor | include/stack/stack.h:160-161 | a default stack holds no elements and has capacity 0 |
| Stack.Stack.Empty | include/stack/stack.h:266 | true exactly when there are no elements |
| Stack.Stack.Equal | include/stack/stack.h:390-393 | true exactly when the sizes are equal and the elements are pointwise equal |
| Stack.Stack.Less | include/stack/stack.h:399-402 | `std::lexicographical_compare` of the two stacks, bottom first |
| Stack.LexLessIrreflexive | include/stack/stack.h:399-402 | no stack is less than itself |
| Stack.LexLessTransitive | include/stack/stack.h:399-402 | `operator<` is transitive for a strict weak ordering of the elements |
| Stack.LexLessAsymmetric | include/stack/stack.h:399-402 | at most one of `a < b` and `b < a` holds |
| Vector.GrownCapacity | include/vector/vector.h:125 | `capacity == 0 ? 1 : 2 * capacity`: above the old capacity, at most double plus one |
| Vector.CapacityAfterPushesBounds | include/vector/vector.h:124-129 | after `n > 0` pushes into a new vector the capacity is at least `n` and below `2n`: growth by doubling. `CapacityAfterPushes` follows `Vector.Vector.PushBack`'s capacity ensures (`GrownCapacity` when full, otherwise unchanged) from the constructor's capacity 0, but no vector member states this link, because `vector.h` has no operation that pushes repeatedly |
| Vector.Vector.PushBack | include/vector/vector.h:124-129 | `value` is appended; when the vector was full the capacity becomes `GrownCapacity` of the old one, otherwise the buffer stays |
| Vector.Vector.EmplaceBack | include/vector/vector.h:131-138 | as `push_back` |
| Vector.ReadOwnElementAsWritten | include/vector/vector.h:124-129 | with the argument referring to element `i` of the vector itself, the code reads it after `reallocate` released the old buffer when the vector was full; the read sees element `i` exactly when the vector was not full |
| Vector.PushBackOwnElementReadsReleased | include/vector/vector.h:124-129 | `v.push_back(v[0])` on a full vector of one element reads released memory |
| Vector.Vector.PushBackElement | include/vector/vector.h:124-129 | `push_back(v[i])` with the element copied before any reallocation appends the old element `i`, with the capacity rule of `push_back` |
| Vector.Vector.Reallocate | include/vector/vector.h:197-211 | a fresh buffer of exactly the requested capacity, holding the same elements in order |
| Vector.Vector.Reserve | include/vector/vector.h:85-101 | nothing happens unless `n` exceeds the capacity; otherwise the capacity becomes `n`, with the elements kept |
| Vector.Vector.ShrinkToFit | include/vector/vector.h:103-121 | the capacity becomes the size, with the elements kept; a full buffer is left alone |
| Vector.Vector.PopBack | include/vector/vector.h:141-146 | nothing happens on an empty vector; otherwise only the last element goes |
| Vector.Vector.Clear | include/vector/vector.h:148-153 | the size becomes 0, and the capacity and buffer stay |
| Vector.Vector.At | include/vector/vector.h:158-163 | element `i`, or `out_of_range("Index is out of range")` exactly when `i >= size()` |
| Vector.Vector.Size | include/vector/vector.h:166 | the number of elements, never above the capacity |
| Vector.Vector.Capacity | include/vector/vector.h:167 | the capacity is never below the number of elements |
| Vector.Vector.constructor | include/vector/vector.h:19 | a default vector holds no elements and has capacity 0 |
| Vector.Vector.Fill | include/vector/vector.h:21-26 | `n` elements, all equal to the value, with capacity `n` |
| Vector.Vector.Copy | include/vector/vector.h:27-33 | a fresh buffer with equal elements and equal capacity |
| Vector.Vector.MoveFrom | include/vector/vector.h:50-56 | takes over the allocation and elements; the source is left empty with capacity 0 |
| Vector.Vector.Swap | include/vector/vector.h:78-83 | the allocations, sizes, elements and capacities are exchanged |
| HashSet.UnorderedSet.BucketIndex | include/unordered_set/unordered_set.h:154-156 | a bucket number below `bucket_count` |
| HashSet.UnorderedSet.Bucket | include/unordered_set/unordered_set.h:468-470 | the bucket whose chain holds the key exactly when the key is stored |
| HashSet.ChainsFind | include/unordered_set/unordered_set.h:154-156 | a key is stored exactly when it is in the chain its hash selects, and it is in no other chain |
| HashSet.ChainsPrepend | include/unordered_set/unordered_set.h:327-331 | prepending an absent key to its chain keeps the placement and no-duplicates invariants and adds the key to the set |
| HashSet.ChainsRemove | include/unordered_set/unordered_set.h:392-405 | unlinking the node at a chain position keeps the invariants and removes exactly that key from the set |
| HashSet.MovingStep | include/unordered_set/unordered_set.h:172-176 | one relink step of `rehash_impl` moves one more key to its chain in the new array; the new chains stay placed and without duplicates |
| HashSet.MovingDone | include/unordered_set/unordered_set.h:167-178 | once every old chain is walked, the new chains hold exactly the old key set |
| HashSet.Relink | include/unordered_set/unordered_set.h:163-178 | the loops of `rehash_impl` leave in the new array exactly the stored keys, each in chain `hash % new_bucket_count`, each once |
| HashSet.RehashTarget | include/unordered_set/unordered_set.h:158-161 | the bucket count allocated is at least the request, at least `size`, above `size` when the request was below it, and at least 1; it differs from the code only where the code gives 0 |
| HashSet.UnorderedSet.RehashImpl | include/unordered_set/unordered_set.h:158-182 | the key set and size are kept, and a fresh array of `RehashTarget(n, size)` buckets holds them |
| HashSet.UnorderedSet.CheckAndRehash | include/unordered_set/unordered_set.h:184-188 | the buckets double through `rehash_impl` exactly when `size + 1 > bucket_count`, and are left alone otherwise; afterwards there is room for one more key within load factor 1 |
| HashSet.UnorderedSet.Rehash | include/unordered_set/unordered_set.h:478-480 | as `rehash_impl(count)` |
| HashSet.UnorderedSet.Reserve | include/unordered_set/unordered_set.h:482-484 | as `rehash(count + 1)` with the load factor 1 |
| HashSet.UnorderedSet.Insert | include/unordered_set/unordered_set.h:314-334 | an absent key is added, `size` grows by one and `true` is returned; a present key leaves the set and size alone and gives `false`; the iterator returned points at the key; the buckets may grow even for a present key; afterwards `size <= bucket_count` |
| HashSet.UnorderedSet.Link | include/unordered_set/unordered_set.h:327-331 | the new node is prepended to the key's chain: the key is added and the size grows by one; it is called only after `check_and_rehash` made room |
| HashSet.UnorderedSet.Emplace | include/unordered_set/unordered_set.h:358-385 | as `insert`, but the chain is searched first, so the buckets only grow when the key is new; afterwards `size <= bucket_count` |
| HashSet.UnorderedSet.Erase | include/unordered_set/unordered_set.h:387-408 | a stored key is removed, `size` drops by one and 1 is returned; otherwise nothing changes and 0 is returned |
| HashSet.UnorderedSet.Find | include/unordered_set/unordered_set.h:425-436 | an iterator at the key exactly when it is stored, otherwise `end()` |
| HashSet.UnorderedSet.Contains | include/unordered_set/unordered_set.h:451-453 | true exactly when the key is stored |
| HashSet.UnorderedSet.Count | include/unordered_set/unordered_set.h:421-423 | 1 for a stored key, 0 otherwise |
| HashSet.ChainsEmpty | include/unordered_set/unordered_set.h:140-152 | empty chains hold no key |
| HashSet.UnorderedSet.Clear | include/unordered_set/unordered_set.h:310-312 | every bucket is empty, the size is 0 and the key set is empty; the bucket array stays |
| HashSet.BucketKeys | include/unordered_set/unordered_set.h:459-467 | the length of chain `n` is the number of stored keys that hash to `n` |
| HashSet.UnorderedSet.BucketSize | include/unordered_set/unordered_set.h:459-467 | the length of chain `n`, which is the number of stored keys in bucket `n` |
| HashSet.UnorderedSet.Swap | include/unordered_set/unordered_set.h:410-419 | the buckets, sizes, key sets and hash functions are exchanged |
| HashSet.UnorderedSet.BucketCount | include/unordered_set/unordered_set.h:455 | the length of the bucket array, never 0 in the model |
| HashSet.UnorderedSet.Size | include/unordered_set/unordered_set.h:305 | the number of stored keys |
| HashSet.UnorderedSet.Empty | include/unordered_set/unordered_set.h:304 | true exactly when no key is stored |
| HashSet.UnorderedSet.constructor | include/unordered_set/unordered_set.h:191-195 | an empty set with 16 empty buckets |
| HashSet.UnorderedSet.WithBuckets | include/unordered_set/unordered_set.h:197-205 | an empty set with the requested number of buckets, or 16 for a request of 0 |
| HashSet.AllocateBuckets | include/unordered_set/unordered_set.h:125-131 | a fresh array of `count` empty chains |
| HashSet.UnorderedSet.Key | include/unordered_set/unordered_set.h:63 | `*it` is a stored key, and it is the key at the iterator's rank in the iteration order |
| HashSet.UnorderedSet.Begin | include/unordered_set/unordered_set.h:274-281 | the front of the first non-empty chain, at rank 0, or `end()` when the set is empty |
| HashSet.UnorderedSet.End | include/unordered_set/unordered_set.h:294-296 | the null-node iterator past the last bucket, at the rank equal to the number of keys, so the iteration from `begin()` has passed every key |
| HashSet.UnorderedSet.Advance | include/unordered_set/unordered_set.h:43-56 | moves on by exactly one position in the iteration order; it reaches the null node only at `end()`, and advancing the null node stays null |
| HashSet.FlattenAt | include/unordered_set/unordered_set.h:43-56 | key `j` of chain `b` comes at position `j` after all the keys of the chains before `b` in the iteration |
| HashSet.FlattenKeys | include/unordered_set/unordered_set.h:43-56 | the iteration visits every stored key exactly once, `size()` keys in all |
| HashSet.RehashTargetAsWritten | include/unordered_set/unordered_set.h:158-161 | the bucket count `rehash_impl` picks as written: at least the request, and `size + 1` when the request is below `size` |
| HashSet.RehashToNoBuckets | include/unordered_set/unordered_set.h:158-188 | as written, `rehash(0)` on an empty set gives 0 buckets, and the doubling in `check_and_rehash` stays at 0 |

## Left out

- List.ListHeap.PopBack: requires a non-empty list. On an empty list the C++ code erases the sentinel itself, which is undefined behaviour and cannot be modelled.
- List.ListHeap.PopFront: requires a non-empty list, for the same reason as `pop_back`.
- List.ListHeap.Sort: requires `comp` to be a strict weak ordering, as the C++ standard does. It also requires the size to be below 2^64: the ladder of 64 counters needs that bound, and a `size_t` size cannot exceed it anyway.
- List.ListHeap.Front: requires a non-empty list; on an empty list the code casts the sentinel to a data node.
- List.ListHeap.Back: requires a non-empty list, for the same reason as `front`.
- `sort()`, `merge(other)` and `unique()` without arguments pass `std::less` or `==`. They are modelled as the forms taking `lt` or `pred`.
- `resize(count)` value-initialises the added elements. It is modelled by `resize(count, value)` with that value given.
- The `list` constructors other than the empty one, `assign`, and the assignment operators are not modelled.
  - `list(count, value)`, the range, initializer-list and copy constructors, the three `assign` forms, and the copy and initializer-list assignments are a `clear` (on a new list, nothing) followed by `push_back`s. Both of those are modelled.
  - `list(count)` calls `emplace_back()` `count` times, which value-initialises each element. `EmplaceBack` is modelled, but only with the value given.
  - The move constructor and the move assignment push nothing. After the assignment's `clear`, they relink `other`'s nodes onto `sentinel` with two `link_nodes` calls, then reset `other`'s sentinel and `sz`. That is the pattern of `SpliceAll` into an empty list, but these two are not modelled as members.
- The list's comparison operators (`==`, `<` and the rest) are not part of the core.
- A list's `sz` and the node count are unbounded integers, so `size_t` overflow is not modelled. `max_size` and `get_allocator` are left out.
- Allocators and memory are not modelled. A destroyed node keeps its arena slot, marked as owned by no list.
- Exception safety is not modelled: `create_node` rolling back after a throwing constructor, and the stack's copy fallback in `grow` and `reserve` when `T`'s move can throw. Both reach the same final state when nothing throws.
- Only `iterator` itself is modelled: `++`, `--` and `*` for the list; `++` and `*` for the hash set. Const and reverse iterators and `operator->` are not modelled.
- The stack's unchecked `operator[]`, copy and move assignment, initializer-list assignment, and `destroy_all` are left out. So are `operator!=`, `<=`, `>` and `>=`, which are negations and swaps of the modelled `==` and `<`.
- The vector's `operator[]`, copy and move assignment, and the private helpers `allocate`, `deallocate`, `construct_uniform` and `destroy_all` are left out; their effect is part of the methods that call them.
- `vector.h` has no `insert` or `erase`, so none is modelled.
- HashSet.UnorderedSet.RehashImpl: allocates at least one bucket where the code, as written, can allocate none (see Findings). Everywhere else it matches the code.
- `max_load_factor_` is fixed at its default 1.0. The float arithmetic of `check_and_rehash`, `rehash_impl`, `reserve` and `load_factor` is done on integers. The `max_load_factor(ml)` setter and `load_factor()` are left out.
- The hash functor is a function parameter `K -> nat` and `KeyEqual` is Dafny equality. `hash_function()`, `key_eq()` and `max_bucket_count()` are left out.
- A chain is a sequence of keys, not of nodes. Node identity, and so the relinking of the same nodes by `rehash_impl`, is not modelled. A hash-set iterator is a bucket number with a position in that chain.
- The hash set's initializer-list, copy and move constructors and its assignment operators are not modelled. The move constructor leaves the source with 0 buckets, where the Findings row applies too.
- `2 * bucket_count` is computed without `size_t` overflow.
- Vector.Vector.PushBack, Vector.Vector.EmplaceBack, Stack.Stack.Push, Stack.Stack.Emplace and List.ListHeap.Remove take their argument by value. The C++ code takes a `const T&`, which may refer into the container itself. Then `v.push_back(v[0])` and `s.push(s.top())` on a full container read the argument after `reallocate` or `grow` released the old buffer. `l.remove(l.front())` goes on comparing against the erased node's value. The model does not capture this aliasing. The vector case is the Findings row; the stack's `grow` (stack.h:115-148 before `construct` at stack.h:331) has the same order of events.
- Stack.Stack.Equal and List.EqualTo use Dafny's built-in equality on `T(==)` for `T::operator==`, so a user-defined `operator==` that is not identity is not modelled.

## Findings

| source | as written | input that shows it | evidently intended | confidence | as-written member | corrected member |
|---|---|---|---|---|---|---|
| include/unordered_set/unordered_set.h:158-161 | `rehash_impl(n)` keeps the request `n` whenever `n >= size / max_load_factor`. So `rehash(0)` on an empty set allocates 0 buckets. Every later `bucket_index` then takes `hash % 0`, and `insert` cannot recover, because `check_and_rehash` asks for `2 * 0` buckets | `rehash(0)` on an empty set: `RehashTargetAsWritten(0, 0) == 0` | a bucket array is never empty: at least one bucket | high, not executed | HashSet.RehashToNoBuckets | HashSet.RehashTarget |
| include/vector/vector.h:124-129 | `push_back(const T& value)` calls `reallocate` when the vector is full, which destroys the elements and deallocates the old buffer, and only then reads `value` in `construct_at(end_, value)` | `v.push_back(v[0])` on a vector whose size equals its capacity: `ReadOwnElementAsWritten([x], 1, 0) == Released` | the argument is copied before the buffer is released, so the old `v[0]` is appended | high, not executed | Vector.PushBackOwnElementReadsReleased | Vector.Vector.PushBackElement |
