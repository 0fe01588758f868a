# linkedlist: a verified model in Dafny

This project models `src/linkedlist.c`, a C library that provides:

- a doubly-linked list of opaque payloads (`void *`);
- a cursor (the iterator) that walks the list forward or backward, and can remove a node or insert one next to the node it is on;
- a stable merge sort that works on the forward links and then repairs the backward links.

The model keeps the C data structures in their own form:

- A node is a heap object (`Nodes.Node`) with mutable `next` and `previous` links and a constant payload.
- The list and the iterator are classes whose fields the methods update in place: `head`, `tail` and `size` on the list; `current` on the iterator.
- `size` is an `unsigned long`. On the 64-bit (LP64) targets the model assumes, `ULong` is the range 0 .. 2^64-1, and `size++` and `size--` wrap around.

Each list also carries two ghost fields:

- `nodes` is the sequence of nodes that the links spell out.
- `freed` holds the nodes the library has passed to `free`.

On top of these, `LinksOk()` says that the `next` links run from `head` through `nodes` and the `previous` links run back from `tail`. `Live()` says that no listed node is freed, and `Valid()` adds that `size` counts the nodes.

The library's real behaviour is stated as it is, including the places where it breaks the list's invariant:

- `ll_iter_remove` frees the node under the cursor and decrements `size`, but relinks nothing. The freed node stays linked and stays in `nodes`, and `head` and `tail` may name it.
- `ll_clear` is built on that removal. It frees the first `size` nodes and leaves `head`, `tail` and the links pointing at them. With `size` 0 it reads nothing and changes nothing. Otherwise it follows only `next` links, and it loops forever unless `size` is at most the number of nodes, so that bound is its precondition.
- `ll_iter_insert_before` links the new node in correctly, but leaves `size`, `head` and `tail` alone. `size` then undercounts by one.
- `ll_find` and `ll_copy` stop at the first NULL payload, because `ll_iter_get` also returns NULL for an exhausted cursor. `StopIndex` is where those scans stop.

Sorting is specified by the functions `Merge` and `MergeSort` in `SortSpec`, which follow the recursion of `merge_sort` and the left-biased `<= 0` choice of `merge_sort_merge`. `MergeSortCorrect` proves the promise of `linkedlist.h`: for a comparator whose sign is a total preorder, the result is a permutation that is sorted and stable.

The heap methods are proved against these definitions:

- `MergeChains` returns exactly `Merge` of its two chains.
- `MergeSortChain` returns exactly `MergeSort` of its chain.
- `List.Sort` ends with `nodes == MergeSort(old(nodes), cmp)` and all links repaired.

Several functions do less than their names, or the header, lead a caller to expect. The model states what the code does:

- **Removal.** `ll_iter_remove` relinks neither the neighbours of the removed node nor `head`/`tail`, so removing every element leaves `head` and `tail` naming freed nodes.
- **Clearing.** `ll_clear` removes through the cursor, so it does not return the list to the state `ll_new_list` creates: `size` is 0, but `head` and `tail` dangle.
- **Copying.** `ll_copy` stops at the first NULL payload of `src`, because `ll_iter_get` returns NULL both for a NULL payload and for an exhausted cursor.
- **Inserting at the head.** `ll_iter_insert_before` on a forward cursor at the head writes through the NULL `previous` link of the current node, so `Iter.InsertBefore` requires the neighbour on the visited side to exist.

Files:

- `nodes.dfy` (module `Nodes`): the node, the payload, `ULong`, and the ghost vocabulary for chains of links.
- `sort_spec.dfy` (module `SortSpec`): the comparator, `Merge`, `MergeSort` and the sorting proofs.
- `merge_loop.dfy` (module `MergeLoop`): the loop invariant of `merge_sort_merge`.
- `chain_sort.dfy` (module `ChainSort`): `merge_sort_get_middle`, `merge_sort_merge` and `merge_sort` on heap chains.
- `linked_list.dfy` (module `LinkedList`): the list, the iterator and the public functions.

## Model

| member | source | states |
|---|---|---|
| Nodes.Node.constructor | src/linkedlist.c:30-35 | `ll_new_node`: a node holding the payload with both links NULL |
| Nodes.ChainNext | src/linkedlist.c:5-9 | in a chain, the `next` link of every node is its successor in the sequence, and NULL for the last node |
| Nodes.BackChainPrevious | src/linkedlist.c:5-9 | in a backward chain, the `previous` link of every node is its successor in the reversed sequence, and the node sits at the mirrored index there |
| Nodes.ChainCut | src/linkedlist.c:192-194 | setting `middle->next = NULL` at index m-1 splits a chain into the chains of `ns[..m]` and `ns[m..]`, which share no node |
| Nodes.InsertChain | src/linkedlist.c:296-310 | linking a new node between two adjacent nodes of a forward chain gives the chain with the node inserted at that position |
| Nodes.InsertBackChain | src/linkedlist.c:296-310 | the same for the backward chain of `previous` links |
| Nodes.PayloadsInsert | src/linkedlist.c:296-310 | inserting a node into the node sequence inserts its payload at the same position of the payload sequence |
| Nodes.WrapSucc | src/linkedlist.c:83 | `size++` on an `unsigned long` is counting modulo 2^64 |
| SortSpec.Merge | src/linkedlist.c:200-226 | the definition of what `merge_sort_merge` computes, which the merge lemmas below are proved about: take the head of `a` when `cmp(a, b) <= 0`, otherwise the head of `b`, then append the rest; the result has \|a\|+\|b\| nodes |
| SortSpec.MergePermutes | src/linkedlist.c:200-226 | the merge neither loses nor duplicates a node: its multiset is the union of the inputs' (so its length is \|a\|+\|b\|) |
| SortSpec.MergeSorted | src/linkedlist.c:206-225 | for a total-preorder comparator, merging two sorted sequences gives a sorted sequence |
| SortSpec.MergeDistinct | src/linkedlist.c:200-226 | merging two disjoint sequences of distinct nodes gives distinct nodes |
| SortSpec.MergePayloads | src/linkedlist.c:200-226 | the merge permutes the payloads of its inputs |
| SortSpec.FirstHalf | src/linkedlist.c:190-193 | the number of nodes up to and including the node `merge_sort_get_middle` returns; for two or more nodes both halves of the split are non-empty, so the recursion of `merge_sort` terminates |
| SortSpec.MergeSort | src/linkedlist.c:184-197 | the definition of what `merge_sort` computes, which `MergeSortCorrect` and the lemmas before it are proved about: sequences of at most one node are kept, longer ones are split after `FirstHalf`, both halves sorted and merged |
| SortSpec.MergeSortPermutes | src/linkedlist.c:184-197 | sorting preserves the multiset of nodes |
| SortSpec.MergeSortDistinct | src/linkedlist.c:184-197 | sorting distinct nodes gives distinct nodes |
| SortSpec.MergeSortPayloads | src/linkedlist.c:184-197 | sorting preserves the multiset of payloads |
| SortSpec.MergeSortedStable | src/linkedlist.c:206-225 | when every node of `a` came before every node of `b`, merging sorted and stable inputs gives a sorted and stable result (ties are taken from `a`) |
| SortSpec.MergeSortSortedStable | src/linkedlist.c:184-197 | the merge sort of a sequence in original order is sorted and stable |
| SortSpec.MergeSortCorrect | src/linkedlist.h:20-24 | the promise of `ll_sort`: a permutation of the nodes and of the payloads, still distinct; sorted and stable under a total-preorder comparator |
| MergeLoop.MergeFrom | src/linkedlist.c:209-221 | the definition the loop invariant of `merge_sort_merge` uses: the merge of what remains of the inputs after `i` and `j` nodes were taken, of length (\|xs\|-i)+(\|ys\|-j) |
| MergeLoop.MergeFromSlices | src/linkedlist.c:209-221 | the indexed merge the loop keeps track of equals `Merge` of the unconsumed suffixes |
| MergeLoop.Link | src/linkedlist.c:212 | the write `current->next = x`, with the successor map updated to match; `current->previous` is unchanged |
| MergeLoop.MatchesChain | src/linkedlist.c:221-225 | once the successor map links the merged nodes in order, the heap holds their chain |
| MergeLoop.ChainSnapshot | src/linkedlist.c:184-197 | the links of a chain recorded as a map whose domain is the chain's nodes |
| MergeLoop.MergeStart | src/linkedlist.c:203-208 | the loop state at entry: nothing merged, `current` is the placeholder node, and `a` and `b` are the heads of the inputs |
| MergeLoop.TakeLeft | src/linkedlist.c:211-213 | taking `a` because `cmp(a, b) <= 0` advances the loop state by one node of the first input |
| MergeLoop.TakeRight | src/linkedlist.c:214-216 | otherwise taking `b` advances it by one node of the second input |
| MergeLoop.MergeFinish | src/linkedlist.c:220-221 | appending the unexhausted rest links all merged nodes in order behind the placeholder |
| ChainSort.GetMiddle | src/linkedlist.c:229-241 | `merge_sort_get_middle` returns NULL for an empty chain and otherwise the node at index (n-1)/2 |
| ChainSort.MergeStep | src/linkedlist.c:209-219 | one iteration of the merge loop keeps the loop invariant and consumes exactly one node; every recorded `previous` link stays as it was |
| ChainSort.MergeChains | src/linkedlist.c:200-226 | `merge_sort_merge` returns the chain of `Merge(a, b)`, which is NULL when both inputs are empty; it writes no `previous` link: every `previous` link recorded before the call still holds after it |
| ChainSort.SortedHalvesApart | src/linkedlist.c:192-196 | the sorted halves share no node and consist of nodes of the input |
| ChainSort.MergeSortChain | src/linkedlist.c:184-197 | `merge_sort` returns the chain of `MergeSort(ns)`; it writes no `previous` link: every `previous` link recorded before the call still holds after it |
| LinkedList.StopIndex | src/linkedlist.c:145-164 | the first position whose payload is NULL or `item` (or the length): every earlier payload is neither |
| LinkedList.List.constructor | src/linkedlist.c:41-47 | `ll_new_list`: a valid empty list |
| LinkedList.List.Size | src/linkedlist.c:53-56 | on a valid list, `size` is the number of payloads |
| LinkedList.List.Empty | src/linkedlist.c:58-61 | on a valid list, empty exactly when there are no payloads, and exactly when `head` and `tail` are NULL |
| LinkedList.List.Clear | src/linkedlist.c:63-68 | accepts any link state when `size` is 0, and then changes nothing; otherwise needs only the live forward chain. `size` becomes 0 and the first `size` nodes are freed; `head`, `tail` and the links are unchanged, so the links are well formed exactly when they were, and the list is live exactly when it had been empty and live |
| LinkedList.List.Find | src/linkedlist.c:145-153 | needs only the live forward chain (the scan reads no `previous` link and not `tail`); returns a fresh forward cursor at the node at `StopIndex(payloads, item)`, exhausted when no payload stops the scan |
| LinkedList.List.Sort | src/linkedlist.c:166-180 | needs only the forward chain from `head` (a stale `tail` or stale `previous` links are repaired); afterwards the links are well formed, `nodes` is the merge sort of the old nodes, a permutation of nodes and payloads, sorted and stable under a total preorder; `size` and the freed set are unchanged |
| LinkedList.SortChain | src/linkedlist.c:165-180 | the body of `ll_sort` on the chain: the resulting node order is `MergeSort` of the old one, both the `next` and the `previous` links describe it, and only nodes of the old list appear |
| LinkedList.RelinkPrevious | src/linkedlist.c:171-179 | the repair pass: every `previous` link points at the node before it, `head->previous` is NULL, and the returned node is the last one |
| LinkedList.List.PushFront | src/linkedlist.c:70-84 | a fresh node with the payload becomes the head; contents become `[item] + s`; `size` goes up by one with 64-bit wrap-around; the old head's `previous` now points at the new node and its `next` is kept, whatever the state of the rest of the links; well-formed links stay well formed, and `head == tail` if the list was empty |
| LinkedList.List.PushBack | src/linkedlist.c:86-100 | the mirror image at the tail: contents become `s + [item]`; the old tail's `next` points at the new node and its `previous` is kept |
| LinkedList.List.PopFront | src/linkedlist.c:103-122 | NULL and no change when `size` is 0, whatever state the links are in (as after `ll_clear`): neither the list nor the second listed node is written; otherwise returns the first payload, drops the first node (freed), decrements `size`, sets the new head's `previous` to NULL and keeps its `next`, and clears `tail` when `size` reaches 0 |
| LinkedList.List.PopBack | src/linkedlist.c:124-143 | the mirror image at the tail: NULL and no change when `size` is 0, to the list or to the next-to-last listed node; otherwise the new tail's `next` becomes NULL and its `previous` is kept |
| LinkedList.Iter.Forward | src/linkedlist.c:249-255 | `ll_iter`: a forward cursor at `head` |
| LinkedList.Iter.Reverse | src/linkedlist.c:257-263 | `ll_iter_reverse`: a backward cursor at `tail` |
| LinkedList.Iter.Get | src/linkedlist.c:269-272 | NULL when exhausted, otherwise the payload of the current node at its position in the list |
| LinkedList.Iter.Advance | src/linkedlist.c:274-283 | moves to the `next` (forward) or `previous` (reverse) neighbour, that is, one step along the visiting order; an exhausted cursor stays exhausted |
| LinkedList.FollowingInOrder | src/linkedlist.c:274-283 | in a well-linked list, the link in the cursor's direction leads to the next node of its visiting order: the list order, or its reverse |
| LinkedList.Iter.Remove | src/linkedlist.c:285-294 | no-op when exhausted; otherwise the cursor moves one step in its direction, the old node is freed and `size` decrements with wrap-around; `head`, `tail` and `nodes` are unchanged |
| LinkedList.Iter.InsertBefore | src/linkedlist.c:296-310 | the cursor stays; a fresh node holding `item` is linked between the cursor and its visited-side neighbour, so `nodes` and contents get the node and payload inserted at the cursor's position (before it going forward, after it in reverse); the cursor node's outer link and the neighbour's far link are kept in any link state; well-formed links stay well formed; `size`, `head` and `tail` are unchanged, so on a valid list `size` ends one short |
| LinkedList.LinkBefore | src/linkedlist.c:304-309 | the forward branch: the new node goes between the cursor node and its predecessor, and the node sequence gets it just before the cursor; `c.next` and the predecessor's `previous` are kept |
| LinkedList.LinkAfter | src/linkedlist.c:299-304 | the reverse branch: the new node goes between the cursor node and its successor, just after the cursor in list order; `c.previous` and the successor's `next` are kept |
| LinkedList.SpliceBefore | src/linkedlist.c:305-308 | the four writes of the forward branch: the new node points back at the old predecessor and forward at the cursor node, both neighbours point at it, and the far links of the neighbours are kept |
| LinkedList.SpliceAfter | src/linkedlist.c:300-303 | the four writes of the reverse branch, mirrored: the new node sits between the cursor node and its old successor |
| LinkedList.Copy | src/linkedlist.c:155-164 | needs only the live forward chain of `src`, and of `dst` only what `Clear` needs; `dst` is cleared; when it was empty with well-formed links, it ends well formed and live, holding fresh nodes with the payloads of `src` up to its first NULL payload, and `size` is their number modulo 2^64 |
| LinkedList.CopyLoop | src/linkedlist.c:159-162 | the loop alone, reading only the forward chain of `src`: when there is nothing to copy `dst` is unchanged; otherwise an empty, well-formed `dst` ends holding fresh nodes with the payloads of `src` before its first NULL one, with `size` counted modulo 2^64 |
| LinkedList.CopyStep | src/linkedlist.c:159-162 | one loop iteration appends the payload under the cursor to `dst` and advances the cursor over `src`, whose links are not touched |

## Left out

- `unsigned long` is taken to be 64 bits wide (LP64). On a target where it is 32 bits, `size` would wrap at 2^32 instead: after `Iter.Remove` at `size == 0` it would be 2^32-1, not `ULONG_MAX` as modelled.
- Allocation: `malloc` always succeeds, and allocation failure (never checked by the library) is not modelled.
- `free`: freeing a node only adds it to the ghost set `freed`. `ll_free`, `ll_iter_free`, the freeing of the merge's placeholder node and the iterator `ll_clear` leaks are not modelled.
- Reads and writes of freed memory are undefined behaviour in C. The model excludes them with preconditions: pushes require the boundary node not to be freed; pops on a non-zero `size` require well-formed, live links, since they read the end node and its neighbour; `ll_clear` on a non-zero `size`, `ll_find` and `ll_copy` require the live forward chain they walk; the cursor operations require the current node (and, for insertion, its neighbour) not to be freed.
- The `ll_iter_get_as` cast macro and the opaque handle typedefs of `linkedlist.h` carry no behaviour.
- Payloads are opaque references compared by identity; the pointer arithmetic of `void *` and the function-pointer mechanics of `cmp` are not modelled. The comparator is a pure function whose sign is used.
- Iterators made stale by other mutations are outside the model: each operation states only what it does to the list and cursor it is given.
- `ll_copy` with `dst` non-empty and at least one payload to copy writes through `dst`'s dangling `tail`. Copy requires `dst` to be empty, with NULL `head` and `tail`, in that case. It also requires `src` and `dst` to be different lists that share no node, since with `src == dst` the cursor reads freed nodes.
- Copy: appending to a `dst` whose `size` is 0 but whose `tail` still names a live node (reachable after `ll_iter_insert_before` left `size` short) is defined in C but not modelled; Copy requires `dst` to have no nodes whenever something is copied.
- Copy: states `size` modulo 2^64 and does not require the copied count to fit, but `Valid()` of `dst` is not claimed when more than ULONG_MAX payloads are copied, because `size` then wraps.
- Sort: the stability and sortedness claims hold under a total-preorder comparator; for an arbitrary comparator only the permutation and `nodes == MergeSort(old(nodes), cmp)` are stated.
- Iter.InsertBefore: the new node's effect on `nodes` and `Contents()` is stated when the cursor node is in the list; a cursor on a node outside the list leaves `nodes` unchanged in the model.
