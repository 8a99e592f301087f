# A verified model of lab0-c's `queue.c`

`queue.c` keeps a queue of strings as a NULL-terminated singly linked list.
The record `queue_t` holds a pointer to the first element (`head`), a pointer
to the last element (`tail`) and a count of the elements (`size`). Each
element (`list_ele_t`) owns a copy of its string and links to the next
element.

The file has eight operations:

- `q_new` and `q_free` create and destroy a queue.
- `q_insert_head` and `q_insert_tail` add a string at either end.
- `q_remove_head` takes the first string off and copies it into a bounded
  buffer.
- `q_size` reads the count.
- `q_reverse` reverses the list by rewiring links.
- `q_sort` sorts the list in place, using the static `merge` and `mergeSort`.

The model is imperative, like the C code:

- `Queue` and `Node` are classes whose fields the methods update.
- Every state-changing operation is a method with a `modifies` frame;
  `q_size` is a function.
- A ghost sequence `nodes` describes the linked list. `Contents()` is the
  sequence of strings it stores. `Valid()` ties `head`, `tail` and `size` to
  `nodes`.
- The contract of each queue operation states the new state in terms of
  `old(...)`.
- Reversal is stated with the `Reversed` function. Sorting is stated with the
  `Merged` and `MergeSorted` functions, which build exactly the lists `merge`
  and `mergeSort` build, tie-breaking included. Lemmas prove what those
  functions promise: ascending order under `strcmp`, a permutation of the
  input, idempotence, and that reversing twice gives back the original order.

Modules:

- `Text` (`text.dfy`): NUL-free strings, `strcmp` as the strict order `Less`,
  and the reading of a NUL-terminated buffer.
- `Chain` (`chain.dfy`): the element class, the shape of a NULL-terminated
  chain, and the one-link store that `merge`, `mergeSort`, `q_insert_tail` and
  `q_reverse` all perform.
- `Reversal` (`reversal.dfy`): sequence reversal and its lemmas.
- `MergeSortSpec` (`sortspec.dfy`): what `merge` and `mergeSort` compute, as
  functions on node sequences, and the proofs of their properties.
- `ListSort` (`listsort.dfy`): `merge` and `mergeSort` as methods relinking
  the nodes in place.
- `StringQueue` (`queue.dfy`): the queue record and its eight operations.

`q_remove_head` does not clear `tail` when it removes the last element
(queue.c:143-144), so `tail` keeps pointing at the removed element.
`Valid()` therefore constrains `tail` only while `size > 0`, and
`RemoveHead` promises that `tail` is unchanged. The inserts test
`size == 0`, not `tail` (queue.c:70, queue.c:108), so they are unaffected.

## Model

| member | source | states |
|---|---|---|
| StringQueue.Queue.constructor | queue.c:15-20 | the new record is a valid, empty queue: head and tail NULL, size 0, no contents |
| StringQueue.New | queue.c:13-22 | NULL exactly when the record cannot be allocated; otherwise a fresh valid queue with head and tail NULL and size 0 |
| StringQueue.Free | queue.c:25-38 | nothing is done for a NULL queue; otherwise the walk from head takes out exactly the queue's elements, first to last, and ends with head NULL and no element left in the queue |
| StringQueue.InsertHead | queue.c:47-76 | true exactly when q is not NULL and both allocations succeed; on false nothing changes; on true the new element is put in front of the old elements, which keep their order, so the contents become [s] + old contents; size grows by one, the new element is the new head, and tail is the new element exactly when the queue was empty |
| StringQueue.InsertTail | queue.c:85-117 | true exactly when q is not NULL and both allocations succeed; on false nothing changes; on true the new element is put after the old elements, which keep their order (the old last element now links to it), so the contents become old contents + [s]; size grows by one, the new element is the tail, and head moves to it only when the queue was empty |
| StringQueue.CopyLength | queue.c:135-136 | the copy length is min(len, bufsize - 1): at most the string's length, below bufsize, and equal to one of the two |
| StringQueue.CopyOut | queue.c:138-141 | the first n characters of the buffer become the string's first n characters and the next one becomes NUL; nothing after it changes |
| StringQueue.RemoveHead | queue.c:127-150 | true exactly when q is not NULL and not empty; on false neither q nor sp changes; on true the first element leaves and the others keep their order (nodes and contents become old[1..], size drops by one, the element leaves Repr), tail is untouched, and when sp is not NULL it holds the first min(len, bufsize-1) characters and a NUL, reading back as that prefix, with the rest of sp untouched |
| StringQueue.Unlink | queue.c:143-144 | head moves to the second element and size drops by one; the queue stays valid with contents old contents[1..], and tail does not change |
| StringQueue.Size | queue.c:156-162 | 0 for a NULL queue, otherwise the number of stored strings |
| StringQueue.Reverse | queue.c:171-187 | a NULL or empty queue is untouched; otherwise the queue stays valid over the same elements (Repr and size unchanged, nothing allocated), its node order and its contents are the reverse of the old ones, and the old head is the new tail |
| StringQueue.Detach | queue.c:176-179 | the old head becomes tail, with its next link cleared, and the walk starts at the second element |
| StringQueue.Relink | queue.c:181-186 | one loop turn moves head to next and links it back to the previous element, so the reversed prefix grows by that element and the unvisited chain loses it |
| StringQueue.ReversedNodes | queue.c:171-187 | reversal keeps the same set of elements, as many of them, with the old first element last |
| StringQueue.ReversedValues | queue.c:171-187 | the strings of the reversed elements are the reversed strings |
| Reversal.ReversedTwice | queue.c:171-187 | reversing twice restores the original order |
| Reversal.ReversedMultiset | queue.c:171-187 | reversal keeps every element as often as it occurs |
| StringQueue.Sort | queue.c:233-241 | a NULL or empty queue is untouched; otherwise the queue stays valid over the same elements and size, the node order is the one mergeSort builds, the contents ascend by strcmp and are a permutation of the old contents, and tail is the last element again |
| StringQueue.SortedNodes | queue.c:233-241 | the sorted list has the same elements as the old one, as many, including the old tail, with ascending strings that are a permutation of the old ones |
| StringQueue.WalkToTail | queue.c:239-240 | walking tail from any element of the chain stops at its last element, which makes the queue valid again, with nothing else changed |
| StringQueue.SortExample | queue.c:233-241 | sorting a queue holding "c", "a", "b" yields "a", "b", "c" |
| Chain.Node.constructor | queue.c:54-67 | a new element holds the given string and the given next link, as q_insert_head and q_insert_tail (queue.c:92-98) fill them in |
| Chain.Store | queue.c:111 | the one-link store of q->tail->next = node, also used for q->tail->next = NULL (queue.c:179), q->head->next = pre (queue.c:184), merge's *iter stores (queue.c:195-206) and slow->next = NULL (queue.c:224): the list's head variable receives x while there is no last node, otherwise last->next becomes x; the nodes before it stay linked and the chains that do not hold last keep all their links |
| Text.Less | queue.c:202 | strcmp(a, b) < 0: lexicographic strict order, a proper prefix first; it never holds between equal strings |
| MergeSortSpec.Merged | queue.c:189-212 | the list merge builds: the left front node when its string is strictly smaller, otherwise (a tie included) the right front node, then the merge of the rest; once one list is empty the other follows whole; its length is the sum of both |
| MergeSortSpec.MergeSorted | queue.c:213-227 | the list mergeSort returns: at most one node as it is, otherwise the merge of the sorted first ceil(n/2) nodes with the sorted rest; its length is the input's |
| ListSort.ShortChain | queue.c:215 | the test !head \|\| !head->next holds exactly when the chain has at most one node |
| ListSort.MergeHalves | queue.c:226 | merging the two sorted halves, which share no node, relinks them into exactly Merged of the two |
| ListSort.MergeSortList | queue.c:213-227 | mergeSort relinks the chain it is given into exactly the list MergeSorted describes |
| ListSort.SortHalves | queue.c:226 | the two recursive calls leave each half relinked into its sorted order |
| ListSort.SortBeside | queue.c:226 | sorting one half leaves the chain of the other half intact |
| ListSort.Middle | queue.c:218-222 | the slow/fast walk stops slow on element ceil(n/2) - 1, the last one of the left half |
| ListSort.Split | queue.c:218-224 | cutting after the middle leaves the first ceil(n/2) elements and the rest as two separate chains |
| ListSort.MergeLists | queue.c:189-212 | merge relinks the two disjoint chains into exactly the list Merged describes |
| ListSort.MergeStep | queue.c:202-208 | one loop turn appends to the output the left node when its string is strictly smaller, the right node otherwise; that node leaves its chain, the other chain is untouched, and what remains still merges to the rest of Merged |
| ListSort.Take | queue.c:203-207 | storing x through iter appends x to the output and moves on to x->next |
| ListSort.StoreRest | queue.c:194-201 | once one chain is used up, iter is pointed at the rest of the other, completing the merged list |
| MergeSortSpec.MergedPermutation | queue.c:189-212 | merge keeps every node of both inputs as often as it occurs |
| MergeSortSpec.MergedAscending | queue.c:189-212 | merging two ascending lists gives an ascending list |
| MergeSortSpec.MergedDistinct | queue.c:189-212 | merging two disjoint lists without repeats repeats no node |
| MergeSortSpec.MergedTieTakesRight | queue.c:202-208 | on equal strings merge takes the right node first |
| MergeSortSpec.EqualPairSwapped | queue.c:202-226 | mergeSort puts two elements with equal strings in reverse order, so the sort is not stable |
| MergeSortSpec.MergeSortedPermutation | queue.c:213-227 | mergeSort returns a permutation of its input |
| MergeSortSpec.MergeSortedAscending | queue.c:213-227 | mergeSort's result ascends by strcmp |
| MergeSortSpec.MergeSortedValues | queue.c:233-241 | the sorted strings are a permutation of the old strings |
| MergeSortSpec.AscendingUnique | queue.c:233-241 | two ascending sequences holding the same strings are equal, so the sorted contents are determined by the old contents alone |
| MergeSortSpec.MergeSortedKeepsAscending | queue.c:233-241 | sorting an already ascending queue leaves its contents as they were |
| MergeSortSpec.MergeSortedTwice | queue.c:233-241 | sorting twice gives the same contents as sorting once |
| Text.LessIrreflexive | queue.c:202 | no string is strcmp-smaller than itself |
| Text.LessTransitive | queue.c:202 | the strcmp order is transitive |
| Text.LessTotal | queue.c:202 | strcmp tells any two different strings apart |
| Text.CStringOfTerminated | queue.c:138-140 | n copied characters followed by a NUL read back as exactly those n characters |

## Left out

- Memory allocation is not modelled. `malloc` success is a boolean argument:
  `New` takes `allocOk`, and the inserts take `nodeOk` and `valueOk`.
- Insert failure releasing memory is not modelled. When the node allocation
  succeeds but the string allocation fails, C frees the node again. The
  model returns false without making a node, so the result is the same.
- `free` is not modelled. `Free` drops the elements from the queue's ghost
  `Repr` in one step at the end, and it does not release the record itself.
  Use after free cannot be expressed.
- Strings are NUL-free character sequences (`Text`). `strlen`, the `strncpy`
  copy into the new element, and a NULL `s` argument are not modelled. A
  stored string is the caller's string.
- `q_remove_head` with a non-NULL `sp` and `bufsize == 0` is excluded by a
  precondition. `bufsize - 1` wraps around as a `size_t` there and the copy
  would overrun `sp`.
- RemoveHead: `sp` is a character array at least `bufsize` long. A shorter
  buffer overflows in C and is excluded.
- Size: `q_size` returns the count as a C `int`. The model returns it as an
  unbounded natural number and does not model truncation.
- The allocator that injects failures, and the test harness that drives the
  queue, are not part of this model.
