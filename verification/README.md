# A Dafny model of the lab0-c string queue

`queue.c` implements a queue of C strings on an intrusive circular doubly
linked list with a sentinel node: the handle is a `struct list_head` whose
`next` is the head element and whose `prev` is the tail element, and every
`element_t` holds a `list_head` and a heap copy of its string. Besides the
constant-time operations at both ends (`q_insert_head`, `q_insert_tail`,
`q_remove_head`, `q_remove_tail`), it offers `q_size`, `q_free` and five
whole-list relinking algorithms: `q_delete_mid`, `q_delete_dup`, `q_swap`,
`q_reverse` and a selection sort `q_sort`.

The model has two layers.

- `QueueSpec` (queue_spec.dfy) is the queue as its callers see it: a
  `seq<Str>` in head-to-tail order. Each whole-list algorithm is a pure
  function on that sequence (`DeleteMiddle`, `DupPass`/`DeleteDup`,
  `SwapPairs`, `Rev`, `SelSort`), and lemmas state what each one means: a
  subsequence that stays sorted, an involution, an ascending permutation,
  and so on.
- `Arena` (arena.dfy) and `Queue` (queue.dfy) are the memory. Three
  sequences `next`, `prev` and `val` are indexed by node id, with the
  sentinel at id 0. A ghost `order` lists the linked nodes from head to
  tail. `Valid(a, order)` says that `next` walks
  0 → `order[0]` → … → `order[|order|-1]` → 0, that `prev` is its exact
  inverse, and that the ids are distinct and allocated. Each method of
  `Queue` performs the pointer writes of its C function in the same order,
  keeps `Valid`, and states the new contents in terms of the old ones.
  Usually it does this by proving it computes the `QueueSpec` function.
- `Bytes` (bytes.dfy) holds strings as byte sequences without their
  terminator, so by their type none of their bytes is NUL. It also holds the sign of `strcmp` as lexicographic comparison of unsigned
  bytes, and the truncating copy into the caller's buffer with `size_t`
  wrap-around.

The outside world enters as parameters. A NULL handle is `Option.None`. A
failing `malloc` is the flag `allocFails`. A non-NULL `sp` buffer is the
flag `sp`, and the bytes written into it are returned as `buf`.

Where the code and its comments disagree, the model follows the code:

- `q_delete_dup` returns false on an empty queue (queue.c:281-283), not
  only on NULL.
- After `q_delete_dup` deletes a run, `prev_li` moves onto the first
  survivor, and that survivor is never compared with its successor. So
  `[a,a,b,b]` becomes `[b,b]` (`QueueSpec.DeleteDupSkipsAfterRun`). The
  promise of "only distinct strings" does not hold in general. The model
  proves the facts that do hold: the result is a subsequence, a sorted
  input stays sorted, a string occurring once survives, and the queue
  changes exactly when two neighbours are equal: with none it is left as
  it is, and with one pair it loses at least one string.
- When a deleted run reaches the tail, `prev_li` becomes the sentinel and
  the scan starts again from the head
  (`QueueSpec.DeleteDupRestartsAfterTailRun`).
- `q_delete_mid` removes the element at zero-based index floor(n/2). For
  six elements that is the fourth one (`QueueSpec.DeleteMiddleOfSix`).

## Model

| member | source | states |
|---|---|---|
| Bytes.Strcmp | queue.c:411 | the sign of `strcmp` is always one of -1, 0, 1 |
| Bytes.Compare | queue.c:299 | a `strcmp` call returns 0 exactly when the two strings are equal |
| Bytes.StrcmpZero | queue.c:299 | `strcmp(a, b) == 0` holds if and only if `a` and `b` are the same byte string |
| Bytes.StrcmpAntisymmetric | queue.c:411 | exchanging the operands of `strcmp` negates its result |
| Bytes.LessTransitive | queue.c:411 | the order `strcmp(a, b) < 0` is transitive |
| Bytes.LessConnected | queue.c:411 | two different strings are always ordered one way or the other |
| Bytes.LessEqTransitive | queue.c:411 | the order `strcmp(a, b) <= 0` is transitive |
| Bytes.CopyLength | queue.c:162-164 | the copied length never exceeds the string; with `bufsize >= 1` it is below `bufsize` and is the whole string when that fits and `bufsize - 1` when it does not; with `bufsize == 0` the wrapped cap lets the whole string through |
| Bytes.CopyOut | queue.c:161-167 | the buffer receives a prefix of the removed string followed by one NUL, and at most `bufsize` bytes when `bufsize >= 1` |
| Bytes.CopyOutWhole | queue.c:161-167 | a buffer longer than the string receives the string unchanged plus its terminator |
| Bytes.CopyOutOverflowsEmptyBuffer | queue.c:162-164 | with `bufsize == 0` at least one byte is written, i.e. more than the buffer holds |
| Arena.Empty | queue.c:62-73 | the sentinel linked to itself is a valid ring with no contents |
| Arena.ElNew | queue.c:38-57 | `el_new` allocates one fresh node holding an exact copy of `s` and leaves every existing node untouched |
| Arena.ElNewValid | queue.c:41-53 | allocating a node keeps the ring valid with the same contents, and the fresh node is not on the ring |
| Arena.Ends | queue.c:154 | `head->next` is the first node and `head->prev` the last; `head->next == head` exactly when the queue is empty |
| Arena.Unlink | queue.c:170-171 | pointing the neighbours of a block at each other leaves a valid ring without the block |
| Arena.Link | queue.c:105 | writing the four links of a new node between two neighbours gives a valid ring with the node inserted there |
| Arena.SwapAdjacent | queue.c:343-352 | the six pointer writes of one `q_swap` round exchange two adjacent nodes and keep the ring valid |
| Arena.Reversed | queue.c:377-385 | exchanging `next` and `prev` on every ring node gives a valid ring in reverse order |
| Arena.DropRun | queue.c:306-311 | unlinking a run of `q_delete_dup` leaves a valid ring of nodes that were linked before, whose contents lack exactly that run, and `prev_li->next` lands on the ring position the scan resumes from |
| Arena.MoveToFrontLinks | queue.c:421-428 | the nodes the splice of `q_sort` reads are the minimum's old neighbours and its new ones at the front of the unsorted part |
| Arena.MoveToFront | queue.c:419-429 | the six pointer writes of the `q_sort` splice yield a valid ring with the minimum moved to the front of the unsorted part |
| Arena.MovedToFrontPlaced | queue.c:419-433 | moving the first minimum to the front of the unsorted part keeps the multiset of strings and extends the sorted prefix by one |
| Arena.ValuesRev | queue.c:368-387 | the contents of the reversed node order are the reversed contents |
| Arena.ValuesSwapPairs | queue.c:330-359 | the contents of the pair-swapped node order are the pair-swapped contents |
| Queue.New | queue.c:62-73 | `q_new` is NULL exactly when allocation fails, and otherwise an empty valid queue |
| Queue.InsertHead | queue.c:96-110 | `q_insert_head` succeeds exactly when the handle is non-NULL and allocation succeeds; on failure nothing changes; on success the contents become `[s] + old` and the size grows by one |
| Queue.InsertTail | queue.c:119-133 | `q_insert_tail` succeeds under the same condition; on failure nothing changes; on success the contents become `old + [s]` |
| Queue.RemoveHead | queue.c:149-174 | on NULL or empty it returns NULL and changes nothing; otherwise it returns the head node with `old[0]`, the contents become `old[1..]`, the stored strings are untouched, and the buffer gets the truncated copy |
| Queue.RemoveTail | queue.c:180-205 | on NULL or empty it returns NULL and changes nothing; otherwise it returns the tail node with the last string, the contents become `old[..n-1]`, and the buffer gets the truncated copy |
| Queue.Size | queue.c:221-233 | `q_size` is 0 for NULL and otherwise the number of stored strings |
| Queue.Free | queue.c:76-87 | the drain loop of `q_free` releases exactly the stored strings, head first, and stops with only the sentinel left |
| Queue.Advance | queue.c:250-258 | after `size` steps from the sentinel, `prev` and `cur` are the nodes at ring positions `size - 1` and `size` |
| Queue.UnlinkMid | queue.c:250-264 | the walk and unlink of `q_delete_mid` remove exactly the node at index floor(n/2) |
| Queue.DeleteMid | queue.c:243-267 | `q_delete_mid` returns false and changes nothing on NULL or empty; otherwise it removes the element at index floor(n/2) and nothing else |
| Queue.RunStep | queue.c:299-304 | one test of the inner loop succeeds exactly when the current string equals the next, and then both cursors move one node on |
| Queue.ExtendRun | queue.c:299-304 | the inner loop of `q_delete_dup` stops at the last node of the run of equal strings; that node holds the run's string, and the node after it is the sentinel or holds a different string |
| Queue.RunBoundary | queue.c:299 | the last index of a run is where the loop test fails: its node keeps the run's string and its successor is the sentinel or differs |
| Queue.DupRound | queue.c:295-322 | one outer round keeps the ring valid, only drops nodes, and leaves the rest of the pass unchanged |
| Queue.DupScan | queue.c:289-323 | the outer loop of `q_delete_dup` leaves every stored string in place, computes the pure pass `DupPass` on the contents, and only drops nodes |
| Queue.DeleteDup | queue.c:278-325 | `q_delete_dup` returns false exactly on NULL or empty, changes nothing on fewer than two elements, and otherwise leaves `DeleteDup` of the contents |
| Queue.SwapPair | queue.c:343-357 | one round of `q_swap` exchanges the nodes at positions `i` and `i + 1` and moves the cursor onto the next pair |
| Queue.SwapLoop | queue.c:337-358 | the loop of `q_swap` relinks the nodes into the pair-swapped order |
| Queue.Swap | queue.c:330-359 | `q_swap` keeps the queue valid and its contents become the pair-swapped contents |
| Queue.Reverse | queue.c:368-387 | `q_reverse` keeps the queue valid and its contents become the reversed contents |
| Queue.ScanStep | queue.c:411-416 | one step of the inner scan of `q_sort` keeps `min_li` on the first minimum of what has been seen |
| Queue.FindMin | queue.c:410-417 | the inner scan of `q_sort` finds the first minimum of the unsorted part and ends on the sentinel |
| Queue.Splice | queue.c:419-429 | the splice moves `min_li` right after `pre_li` and keeps the ring valid |
| Queue.PlaceMinimum | queue.c:419-433 | after the scan, the minimum is placed whether or not it was already in place, the strings are only permuted, and the sorted prefix grows by one |
| Queue.SortRound | queue.c:405-434 | one outer round of `q_sort` keeps the ring valid, permutes the strings, and extends the sorted prefix by one |
| Queue.SortLoop | queue.c:400-434 | the outer loop of `q_sort` leaves exactly `SelSort` of the contents |
| Queue.Sort | queue.c:394-435 | `q_sort` does nothing on NULL, and otherwise relinks the nodes into `SelSort` of the contents |
| QueueSpec.TailInsertIsFifo | queue.c:119-133 | inserting strings one by one at the tail leaves the old contents followed by the strings in insertion order |
| QueueSpec.HeadInsertIsLifo | queue.c:96-110 | inserting strings one by one at the head leaves the strings in reverse insertion order followed by the old contents |
| QueueSpec.Rev | queue.c:368-387 | the result of `q_reverse` on the contents: as long as the input, with index `i` holding the input's element `n - 1 - i` |
| QueueSpec.SwapPairs | queue.c:330-359 | the result of `q_swap` on the contents: as long as the input (where each element goes is `QueueSpec.SwapPairsMovesPairs`) |
| QueueSpec.RevRev | queue.c:368-387 | reversing twice restores the original order |
| QueueSpec.DeleteMiddle | queue.c:250-262 | the result is one shorter, equal to the input before index floor(n/2) and shifted by one after it |
| QueueSpec.DeleteMiddleInverse | queue.c:250-262 | putting the removed element back at index floor(n/2) restores the input, and the multiset loses exactly that element |
| QueueSpec.DeleteMiddleOfSix | queue.c:236-239 | for six elements the one at index 3 is removed |
| QueueSpec.RunEnd | queue.c:299-304 | the inner loop stops on the last index of a run of equal strings |
| QueueSpec.RunEndOfRun | queue.c:299-304 | the end of a run is the only index where equal neighbours stop |
| QueueSpec.DupPass | queue.c:295-323 | the outer loop of `q_delete_dup`, with the scan stopping once `curr_li` or `next_li` is the sentinel, only drops strings: its result is a subsequence of its input, never longer |
| QueueSpec.DupPassKeeps | queue.c:275-276 | the pass gives a subsequence, a sorted input stays sorted, a string occurring once survives, with no two equal neighbours after `prev_li` nothing is dropped, and with two equal neighbours after it at least one string is dropped |
| QueueSpec.DupPassKeepsSingle | queue.c:299-311 | a string occurring once is never part of a run of two or more, so the pass keeps it |
| QueueSpec.DropRunKeepsSingle | queue.c:306-311 | dropping a run of at least two equal strings keeps the one copy of a string occurring once |
| QueueSpec.DupPassShrinks | queue.c:295-322 | with two equal neighbours from `prev_li` on, the pass drops at least one string, because the first run of two or more it meets is unlinked |
| QueueSpec.DupPassNoRuns | queue.c:299-306 | with no two equal neighbours from `prev_li` on, every run is a single string and the pass changes nothing |
| QueueSpec.DeleteDup | queue.c:278-325 | the result of `q_delete_dup` is a subsequence of the input, is sorted when the input is, keeps every string occurring once, and differs from the input exactly when two neighbours are equal: it is the input when none are, and shorter when some are |
| QueueSpec.DeleteDupExample | queue.c:278-325 | `[1,1,2,3,3,3]` becomes `[2]` |
| QueueSpec.DeleteDupSkipsAfterRun | queue.c:320-322 | `[1,1,2,2]` becomes `[2,2]`, because the survivor after a run is not compared |
| QueueSpec.DeleteDupRestartsAfterTailRun | queue.c:310-322 | `[1,1,2,2,3,3]` becomes `[]`, because a run at the tail restarts the scan |
| QueueSpec.DupPassAsWritten | queue.c:295-323 | the pass as written, when it does not read the sentinel as an element, agrees with the corrected pass |
| QueueSpec.DupPassAsWrittenReadsSentinel | queue.c:320-322 | on `[1,1,2]` the pass as written reaches a state that reads the sentinel as an element |
| QueueSpec.PairPartnerInvolutive | queue.c:342-357 | the index exchanged with `k` is exchanged back with `k` |
| QueueSpec.SwapPairsMovesPairs | queue.c:342-357 | elements `2k` and `2k+1` change places for every complete pair, and an odd last element stays put |
| QueueSpec.SwapPairsInvolutive | queue.c:330-359 | swapping pairs twice restores the original order |
| QueueSpec.SwapStep | queue.c:343-357 | one loop round extends the swapped prefix by one pair |
| QueueSpec.SwapDone | queue.c:342 | the loop stops with the whole sequence swapped once fewer than two elements remain |
| QueueSpec.LeftmostMin | queue.c:410-417 | the scan's choice is an index of the queue holding a minimum, and every element before it is strictly greater |
| QueueSpec.FirstMinStep | queue.c:411-414 | taking the new element only when it is strictly smaller keeps the first minimum of the prefix seen |
| QueueSpec.FirstMinIsLeftmostMin | queue.c:410-417 | there is exactly one first minimum, so the loop's result is `LeftmostMin` |
| QueueSpec.PlaceMinPermutes | queue.c:421-428 | moving the minimum to the front of the unsorted part only permutes the strings |
| QueueSpec.PlaceMin | queue.c:419-433 | one outer round permutes the strings and extends the sorted prefix, below everything after it, by one |
| QueueSpec.PlaceMinInPlace | queue.c:419 | when the minimum is already first, the sorted prefix grows without relinking |
| QueueSpec.SelSort | queue.c:400-434 | repeatedly placing the leftmost minimum of the rest after the sorted prefix gives a permutation of the input |
| QueueSpec.SelSortSorts | queue.c:389-394 | the result of the sort is ascending under `strcmp` and a permutation of the input |
| QueueSpec.SortedUnique | queue.c:394-435 | two ascending sequences with the same multiset of strings are equal, so the sort's result is determined |
| QueueSpec.SortedIsSelSort | queue.c:394-435 | any ascending arrangement of the input is the sort's result |
| QueueSpec.SelSortSorted | queue.c:389-394 | sorting an already sorted queue changes nothing |
| QueueSpec.SubseqSorted | queue.c:275-276 | dropping elements from a sorted sequence leaves it sorted |

## Left out

- The commented-out `q_show` printer (queue.c:17-36) is dead code that only does I/O.
- `free` is not modelled as deallocation. `q_release_element` (queue.c:211-215) only frees memory, so it has no member: a removed or deleted node simply leaves `order` and keeps its slot in the arena. `Queue.Free` returns the released strings, and the final `free(l)` of the sentinel is not modelled.
- The release walk of `q_delete_dup` (queue.c:307-308 and 313-317), which sets `curr_li->next = NULL` and then frees the run node by node, is not modelled. The run's nodes only leave `order`.
- `Queue.DeleteDup`: states the contents as the subsequence computed by `DeleteDup`, not that only distinct strings remain, because the code does not guarantee that (see above).
- `Queue.Size`: returns an unbounded `nat`; the `int` result of `q_size` and the `int` loop counters of `q_delete_mid` and `q_sort` are not truncated, so queues of more than 2^31 - 1 elements are not modelled.
- `Bytes.CopyLength`: `cpy_size` is an `int` in the source; its truncation from `size_t` for lengths above 2^31 - 1 is not modelled. The `bufsize - 1` wrap-around on `size_t` is modelled.
- `strlen` in `el_new` (queue.c:40) is stored in an `int`. A `Str` may be longer than 2^31 - 1 bytes, so that truncation is not modelled. A `Str` never contains NUL, because a C string ends at its first NUL.
- The `list.h` primitives (`INIT_LIST_HEAD`, `list_add`, `list_add_tail`, `list_empty`, `list_for_each`, `list_entry`) are not part of this model. Their effect on `next` and `prev` is written out inline in the Dafny.
- The `harness.h` allocator and test harness are not part of this model. Allocation failure is the `allocFails` parameter.
- Use-after-free and double free by callers are not modelled, since the code does not guard against them.
- Stability of `q_sort` is not stated. The leftmost-minimum choice makes it stable, but no comment promises it.

## Findings

| source | as written | input that shows it | evidently intended | confidence | as-written member | corrected member |
|---|---|---|---|---|---|---|
| queue.c:295-322 | The outer loop of `q_delete_dup` tests only `next_li != head`. After a run is deleted and exactly one element follows it, `prev_li` is that element, `curr_li` is the sentinel and `next_li` is the first element. The next round then reads `list_entry(head, element_t, list)->value`, and the sentinel is not inside any `element_t`. | `[a, a, b]` | the scan stops once `curr_li` or `next_li` is the sentinel; `[a, a, b]` becomes `[b]` | not executed | QueueSpec.DupPassAsWritten | QueueSpec.DupPass |

`QueueSpec.DupPassAsWrittenReadsSentinel` exhibits the input. `Queue.DupScan` and `Queue.DeleteDup` use the corrected guard, `curr != Head && next != Head`, and are proved to compute `QueueSpec.DupPass`. The subsequence and sortedness facts for it are `QueueSpec.DupPassKeeps` and `QueueSpec.DeleteDup`.
