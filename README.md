# Binomial and Fibonacci heaps

This project models the two mergeable priority queues over `int` keys in the
Algorithms-and-data-structures repository, `BinomialHeap` and
`FibonacciHeap`, and proves what they promise about their keys, their cached
minimum and the handles (`ManipulationPointer`) they hand out.

Both heaps are pointer structures updated in place. Here the `shared_ptr`
graph is an arena: a `Memory` object holds a `seq` of node records, and a
node index stands in for a pointer. `NIL` (-1) stands for `nullptr`. Each
heap is a class whose fields the operations reassign:

- `BinomialHeap` keeps `head_` and `minimum_`.
- `FibonacciHeap` keeps `fib_trees_list_`.

Ghost fields give the meaning of the pointers:

- `Roots` is the root chain of a binomial heap, or the root ring of a Fibonacci heap.
- `Elems` is the set of live nodes.
- `Memory.kids` is each node's child list.

`Valid()` is the heap invariant: every tree is heap-ordered, and every parent,
child, sibling and left/right pointer agrees with the ghost lists. For a
binomial heap it also requires that the root degrees strictly increase and
that each buffer and its node point at each other. `Handles()`
(binomial) and `Keys()` (Fibonacci) map every live handle to the key it
reads. `MinExact()` says the cached minimum really is a least key; it is kept
apart from `Valid()` because the code does not always restore it.

Pointer walks are loops over the node records (`seq<Node>`). Each loop
sits in a method that returns the new records, and the class method installs
them. Consolidate's local table `nodes[MERGE_ARRAY_SIZE]` is an `array`.
Exceptions (`std::logic_error`, `std::invalid_argument`) become `Err`/`Fail`
values of module `Results`, and a throwing call changes nothing.

Files:

- `results.dfy`: the error results.
- `binomial_shape.dfy`, `binomial_link.dfy`, `binomial_tree.dfy`, `binomial_change.dfy`: binomial forests, the linking pass, trees and sifting, all on the node records.
- `binomial_frame.dfy`: what a binomial operation leaves alone in the shared store, and why another heap over it is undisturbed.
- `binomial.dfy`: the `BinomialHeap` class and its loops.
- `fibonacci_ring.dfy`, `fibonacci_forest.dfy`, `fibonacci_lists.dfy`: circular lists, Fibonacci forests, and the list constructor and merge.
- `fibonacci_consolidate.dfy`, `fibonacci_cut.dfy`, `fibonacci_ops.dfy`: consolidate, cut and cascadingCut, and the steps of insert, extractMin and merge.
- `fibonacci_frame.dfy`: the same for Fibonacci heaps.
- `fibonacci.dfy`: the `FibonacciHeap` class.

## Model

| member | source | states |
|---|---|---|
| Binomial.Memory.Allocate | Binomial-heap/BinomialHeap.cpp:41-45 | a new node with the key, degree 0 and no links, and a new live buffer; node and buffer point at each other |
| Binomial.BinomialHeap.constructor | Binomial-heap/BinomialHeap.cpp:28 | the new heap is valid and empty |
| Binomial.BinomialHeap.FromList | Binomial-heap/BinomialHeap.cpp:244-254 | a list of trees becomes a valid heap: every root's parent is cleared, nothing else changes, and minimum_ is the first root of least value, least among all elements |
| Binomial.BinomialHeap.IsEmpty | Binomial-heap/BinomialHeap.cpp:36-38 | true exactly when the heap has no elements, that is no live handles |
| Binomial.BinomialHeap.GetMin | Binomial-heap/BinomialHeap.cpp:52-57 | EmptyHeap exactly on an empty heap; otherwise a live handle's value, no larger than any handle's value when the cached minimum is exact |
| Binomial.BinomialHeap.GetValue | Binomial-heap/BinomialHeap.cpp:170-178 | EmptyHandle for an empty handle, DeletedElement for a deleted one, otherwise the value of the buffer's node, which is the handle's key |
| Binomial.BinomialHeap.Change | Binomial-heap/BinomialHeap.cpp:180-228 | an empty or deleted handle fails and changes nothing; otherwise the handle reads the new key, every other handle reads what it read, the heap stays valid over the same elements, nodes of other heaps are untouched, the minimum stays exact unless the minimum itself is raised, a raised minimum whose key sinks to a leaf leaves the minimum exact (the rescan), and a key lowered to at most the minimum reaches a root |
| Binomial.BinomialHeap.Decrease | Binomial-heap/BinomialHeap.cpp:188-198 | the lowered key sifts up and only its handle changes; an exact minimum stays exact, and a key no larger than the minimum ends on a root |
| Binomial.BinomialHeap.Increase | Binomial-heap/BinomialHeap.cpp:199-227 | the raised key sifts down and only its handle changes; an exact minimum stays exact when another node was raised; when the minimum itself was raised and its key ends on a node without children, the rescan leaves the minimum exact whatever it was before |
| Binomial.BinomialHeap.Insert | Binomial-heap/BinomialHeap.cpp:40-50 | one new element; the returned handle reads the key, the other handles are unchanged, the minimum is exact, and no record outside this heap changes |
| Binomial.BinomialHeap.NewSingleton | Binomial-heap/BinomialHeap.cpp:41-47 | a fresh valid one-element heap with an exact minimum, holding the new node and buffer; this heap's handles are unchanged and only new records are added to the store |
| Binomial.BinomialHeap.Erase | Binomial-heap/BinomialHeap.cpp:229-239 | an empty or deleted handle fails and changes nothing. A live handle either passes, and then exactly its element is removed, its buffer is deleted and every other handle keeps its value, or its element is left off the root list, and then the handle reads the old minimum's value, the elements are the same and the result is Undefined. With an exact minimum it passes exactly when the element's value was above the minimum or the element was a root. No record outside this heap changes |
| Binomial.BinomialHeap.LiftToMinimum | Binomial-heap/BinomialHeap.cpp:236-237 | the handle takes the minimum's value and the other handles are unchanged; its node is made minimum_ exactly when it is a root, which with an exact minimum happens exactly when its value was above the minimum or it was a root already |
| Binomial.BinomialHeap.LowerToMinimum | Binomial-heap/BinomialHeap.cpp:236 | change to the minimum's value: the handle reads that value, the other handles and the root list are unchanged, and with an exact minimum the node ends on a root exactly when its value was above the minimum or it was a root already |
| Binomial.BinomialHeap.SetMinimum | Binomial-heap/BinomialHeap.cpp:237 | any root may be made minimum_; the heap stays valid and nothing else changes |
| Binomial.BinomialHeap.ExtractMin | Binomial-heap/BinomialHeap.cpp:59-81 | EmptyHeap exactly on an empty heap, which is left unchanged; otherwise returns the cached minimum's value, removes exactly that element, deletes its buffer and keeps every other value; the heap stays valid, and the minimum is exact when the removed node had children |
| Binomial.BinomialHeap.RemoveMinimum | Binomial-heap/BinomialHeap.cpp:63-80 | on a non-empty heap, the cached minimum's value is returned, exactly that element leaves, its buffer is deleted, every other value is kept, the minimum is exact when the removed node had children, and no record outside this heap changes |
| Binomial.BinomialHeap.Absorb | Binomial-heap/BinomialHeap.cpp:83-167 | merge seen from this heap: it holds both element sets, values and buffers are kept, an exact minimum of the other heap gives an exact minimum, and nothing outside both heaps changes |
| Binomial.BinomialHeap.MergeChildren | Binomial-heap/BinomialHeap.cpp:79 | the final merge of extractMin: the heap holds its trees and the children, and, from the store before extractMin, every remaining element keeps its value and buffer and nothing outside the heap changed |
| Binomial.BinomialHeap.TakeOutMinimum | Binomial-heap/BinomialHeap.cpp:63-79 | the minimum's tree leaves the heap, its children form a valid heap with an exact minimum, and its buffer is deleted |
| Binomial.BinomialHeap.SplitMinimum | Binomial-heap/BinomialHeap.cpp:63-77 | the minimum's root leaves the root list, and the list constructor makes a valid heap of its children |
| Binomial.BinomialHeap.DetachMinimum | Binomial-heap/BinomialHeap.cpp:64-76 | the rest of the forest stays a heap, and the minimum's children are a list of trees over the rest of its tree |
| Binomial.BinomialHeap.DeleteMinimumFromMemory | Binomial-heap/BinomialHeap.cpp:331-339 | the node loses its sibling, child and buffer links, the buffer is deleted, and minimum_ becomes head_; this heap and the given other heap stay valid with the same handles, the other's exact minimum stays exact, and no record or buffer but the node's changes |
| Binomial.BinomialHeap.DropMinimum | Binomial-heap/BinomialHeap.cpp:331-339 | the same step as extractMin uses it: from the store before extractMin, only the heap's elements changed, and every node but the removed one keeps its value and buffer |
| Binomial.BinomialHeap.Merge | Binomial-heap/BinomialHeap.cpp:83-167 | this heap holds both element sets, other is left empty, every node keeps its value and buffer, and the minimum is exact when both heaps were non-empty; with one side empty nothing is relinked |
| Binomial.BinomialHeap.MergeNonEmpty | Binomial-heap/BinomialHeap.cpp:93-167 | two non-empty heaps become one valid heap over both element sets, with an exact minimum |
| Binomial.BinomialHeap.Adopt | Binomial-heap/BinomialHeap.cpp:154-167 | this heap takes the merged roots and minimum and other is emptied; the minimum is exact iff it is least |
| Binomial.SpliceRootLists | Binomial-heap/BinomialHeap.cpp:93-122 | the two root lists become one chain over the members of both, with degrees that never fall; only root sibling pointers change |
| Binomial.SpliceLink | Binomial-heap/BinomialHeap.cpp:105-115 | one splicing step: the head of smaller or equal degree is appended and the splice invariant is kept |
| Binomial.MergeTree | Binomial-heap/BinomialHeap.cpp:305-317 | the walk to the last child yields exactly AfterMergeTree |
| BinomialShape.AfterMergeTree | Binomial-heap/BinomialHeap.cpp:305-317 | a's degree goes up by one, b's parent becomes a, and b is appended after a's last child; no other field changes |
| BinomialShape.LinkKeepsForest | Binomial-heap/BinomialHeap.cpp:139-152 | linking two roots of equal degree with the smaller or equal value on top keeps a heap-ordered forest over the same elements |
| Binomial.SkipCursor | Binomial-heap/BinomialHeap.cpp:127-138 | when the degrees differ, or three equal degrees stand in a row, the cursor moves on and the pass invariant holds |
| Binomial.LinkUnderCursor | Binomial-heap/BinomialHeap.cpp:139-143 | next, of equal degree and no smaller value, becomes cur's last child, and the pass invariant holds |
| Binomial.LinkOverCursor | Binomial-heap/BinomialHeap.cpp:144-152 | cur, of equal degree and larger value, becomes next's last child, and the pass invariant holds |
| Binomial.LinkEqualDegrees | Binomial-heap/BinomialHeap.cpp:123-157 | the linking pass leaves a forest over the same elements whose root degrees strictly increase; values and buffers are kept |
| Binomial.MergeRoots | Binomial-heap/BinomialHeap.cpp:93-166 | splice, link and scan give one valid forest over both element sets, and the minimum found is least among them |
| Binomial.ScanMinimum | Binomial-heap/BinomialHeap.cpp:158-165 | the scan returns the first root of least value |
| Binomial.SwapValues | Binomial-heap/BinomialHeap.cpp:318-330 | the result is SwapNodes/SwapBuffers: values and buffers are exchanged, and both buffers are re-pointed |
| BinomialChange.SwapKeeps | Binomial-heap/BinomialHeap.cpp:318-330 | swapValues changes no link, keeps node and buffer pointing at each other, and every live buffer reads the value it read before |
| BinomialChange.SwapHandles | Binomial-heap/BinomialHeap.cpp:318-330 | the handle map of a heap is the same after a swap |
| Binomial.SiftUp | Binomial-heap/BinomialHeap.cpp:190-195 | the climbing key stops at a root or below a smaller parent, the heap is ordered again, and the handles are permuted with their keys |
| Binomial.SiftDown | Binomial-heap/BinomialHeap.cpp:202-216 | the sinking key stops when no child is smaller, the heap is ordered again, another root minimum keeps its value, and the loop returned early exactly when the key ends on a node with children |
| BinomialChange.DecreaseStarts | Binomial-heap/BinomialHeap.cpp:189 | lowering a key leaves a heap ordered everywhere except above that node |
| BinomialChange.SiftUpDone | Binomial-heap/BinomialHeap.cpp:191 | once the parent is smaller, or the node is a root, the heap is ordered |
| BinomialChange.IncreaseStarts | Binomial-heap/BinomialHeap.cpp:201 | raising a key leaves a heap ordered everywhere except below that node |
| BinomialChange.SiftDownDone | Binomial-heap/BinomialHeap.cpp:211-213 | once no child is smaller, the heap is ordered |
| Binomial.DecreaseExact | Binomial-heap/BinomialHeap.cpp:196-198 | after a decrease, the root chosen as minimum_ is least, and a key no larger than the old minimum has reached a root |
| Binomial.ClearParents | Binomial-heap/BinomialHeap.cpp:246-253 | the loop clears the parent of every node on the chain and keeps the first of least value |
| Binomial.UnlinkRoot | Binomial-heap/BinomialHeap.cpp:64-75 | the root leaves the chain, either as the head or by the predecessor's sibling skipping it |
| Binomial.DetachRoot | Binomial-heap/BinomialHeap.cpp:63-75 | after the unlinking, the other trees form a heap over the rest, and the root's children are a list of trees over the rest of its tree |
| BinomialFrame.OtherHeapKept | Binomial-heap/BinomialHeap.cpp:241-242 | a heap whose elements a step did not touch is still a heap with the same root list, minimum, records and handles |
| Binomial.Undisturbed | Binomial-heap/BinomialHeap.cpp:241-242 | after any operation on another heap over the same store, a heap is still valid with the same handles and records, and its minimum is exact if it was least |
| BinomialFrame.SiblingsKept | Binomial-heap/BinomialHeap.cpp:93-122 | splicing root lists, which relinks siblings of the two heaps' roots only, keeps every other record |
| BinomialFrame.MergeTreeKept | Binomial-heap/BinomialHeap.cpp:305-317 | mergeTree changes the two trees' nodes and the last child only |
| Binomial.UnderKept | Binomial-heap/BinomialHeap.cpp:139-143 | linking next under cur keeps every record outside the heap |
| Binomial.OverKept | Binomial-heap/BinomialHeap.cpp:144-152 | linking cur under next keeps every record outside the heap |
| Binomial.OrphanedKept | Binomial-heap/BinomialHeap.cpp:244-254 | the list constructor keeps every record outside the heap |
| Binomial.GrownKept | Binomial-heap/BinomialHeap.cpp:41-47 | insert only adds records and buffers past the end of the store |
| Binomial.DeleteKeepsHeap | Binomial-heap/BinomialHeap.cpp:331-339 | deleting a node outside a heap keeps that heap valid and its handles unchanged |
| BinomialTree.ChildForest | Binomial-heap/BinomialHeap.cpp:66-67 | the children of a root, with parents cleared, form a forest of the rest of its tree |
| BinomialTree.RestForest | Binomial-heap/BinomialHeap.cpp:64-75 | without one root's tree, the other trees remain a forest |
| BinomialShape.LeastRootIsLeast | Binomial-heap/BinomialHeap.cpp:158-165 | a root least among the roots is least among all elements of a heap-ordered forest |
| Fibonacci.Memory.Allocate | Fibonacci-heap/FibonacciHeap.cpp:60-62 | a new node with the key that is a ring of its own, with no parent or child, degree 0, unmarked and not deleted |
| Fibonacci.FibonacciHeap.constructor | Fibonacci-heap/FibonacciHeap.cpp:29 | the new heap is valid and empty |
| Fibonacci.FibonacciHeap.IsEmpty | Fibonacci-heap/FibonacciHeap.cpp:48-50 | true exactly when the heap has no elements |
| Fibonacci.FibonacciHeap.GetMin | Fibonacci-heap/FibonacciHeap.cpp:52-57 | EmptyHeap exactly on an empty heap; otherwise the key of fib_trees_list_, no larger than any live key when the minimum is exact |
| Fibonacci.FibonacciHeap.GetValue | Fibonacci-heap/FibonacciHeap.cpp:145-153 | EmptyHandle for an empty handle, DeletedElement for a deleted node, otherwise the node's key |
| Fibonacci.FibonacciHeap.Insert | Fibonacci-heap/FibonacciHeap.cpp:59-75 | the new node joins the roots and its handle reads the key; the other handles are unchanged; fib_trees_list_ moves to it on an empty heap or a smaller key; an exact minimum stays exact; no record outside this heap changes |
| Fibonacci.FibonacciHeap.ExtractMin | Fibonacci-heap/FibonacciHeap.cpp:77-100 | EmptyHeap exactly on an empty heap, which is left unchanged; otherwise returns the minimum's key and removes exactly that handle; the heap is valid, the minimum is exact, each degree has at most one root, and the node is marked deleted iff other elements remained; no record outside this heap changes |
| Fibonacci.FibonacciHeap.DecreaseKey | Fibonacci-heap/FibonacciHeap.cpp:102-128 | EmptyHandle, DeletedElement and KeyIncrease fail and change nothing; Undefined arises only on the cut path, under a parent whose key is not below the new key; otherwise the key is set and no other key or deleted flag changes. At a root or under a smaller parent, nothing outside the heap changes. At a root, fib_trees_list_ follows a smaller key. Under a smaller parent, only the key changes. An only child whose cascade stops at its parent becomes a root of a valid heap, and nothing outside the heap changes. The only root, whose parent is left over from an earlier tree outside the heap, is cut from it: that parent loses its child and one degree and is marked, and the heap stays valid with the same root |
| Fibonacci.FibonacciHeap.LowerAtRoot | Fibonacci-heap/FibonacciHeap.cpp:113-119 | the root's key is lowered, the heap stays valid, and fib_trees_list_ moves to the root when its key is now smaller |
| Fibonacci.FibonacciHeap.LowerUnderParent | Fibonacci-heap/FibonacciHeap.cpp:120-123 | only the key changes, and the heap stays valid |
| Fibonacci.FibonacciHeap.LowerWithCut | Fibonacci-heap/FibonacciHeap.cpp:124-127 | keys other than the node's are kept; an only child whose cascade stops at its parent joins the roots of a valid heap with the minimum updated, and nothing outside the heap changes; a lone root with a left-over parent stays the valid heap's only root |
| Fibonacci.FibonacciHeap.Merge | Fibonacci-heap/FibonacciHeap.cpp:130-143 | this heap holds both element sets and handles; into an empty heap it takes other's list and other keeps it; from an empty other nothing changes; otherwise the rings are spliced, the smaller minimum is kept and other is cleared; nothing outside both heaps changes |
| FibonacciRing.MergeNodes | Fibonacci-heap/FibonacciHeap.cpp:181-196 | with either argument nullptr nothing changes; otherwise the two rings become one ring over both member sets, with left/right consistent, and only links change |
| FibonacciRing.SpliceRing | Fibonacci-heap/FibonacciHeap.cpp:189-192 | the four pointer assignments of mergeNodes make one ring over the union of two disjoint rings |
| FibonacciRing.Unlink | Fibonacci-heap/FibonacciHeap.cpp:91-92 | a node's neighbours pointing past it leave a ring over the other members |
| FibonacciLists.ListConstructor | Fibonacci-heap/FibonacciHeap.cpp:30-40 | every node of the ring except the last gets its parent cleared and its mark reset |
| FibonacciLists.MergeLists | Fibonacci-heap/FibonacciHeap.cpp:138-141 | two lists become one ring over both member sets, headed by the smaller key |
| FibonacciLists.MergeSingle | Fibonacci-heap/FibonacciHeap.cpp:265-266 | a one-node ring joins the list, which then heads at the smaller key |
| FibonacciOps.AddRoot | Fibonacci-heap/FibonacciHeap.cpp:63-74 | the new node joins the root ring of a heap over one more element, and a least head stays least |
| FibonacciOps.AdoptChildren | Fibonacci-heap/FibonacciHeap.cpp:82-86 | the minimum's children join the root ring and the minimum keeps no child |
| FibonacciOps.SpliceChildren | Fibonacci-heap/FibonacciHeap.cpp:83-85 | the child ring is spliced into the root ring |
| FibonacciOps.RemoveRoot | Fibonacci-heap/FibonacciHeap.cpp:90-95 | the minimum leaves the ring, loses its links and is marked deleted, and the list moves to its right neighbour |
| FibonacciOps.DropMin | Fibonacci-heap/FibonacciHeap.cpp:90-96 | after the removal, a forest over the other elements remains, with keys and deleted flags kept |
| FibonacciOps.TakeMin | Fibonacci-heap/FibonacciHeap.cpp:81-99 | a heap over the other elements, with a least head, one root per degree, the node deleted when others remain, and other keys kept; consolidate's table suffices for at most MERGE_ARRAY_SIZE + 1 elements |
| FibonacciOps.JoinHeaps | Fibonacci-heap/FibonacciHeap.cpp:138-142 | two heaps over disjoint elements become one, headed by the smaller key, and least heads give a least head |
| FibonacciConsolidate.PopRoot | Fibonacci-heap/FibonacciHeap.cpp:201-214 | the head leaves the ring as a ring of its own, and the rest stays a ring |
| FibonacciConsolidate.Absorb | Fibonacci-heap/FibonacciHeap.cpp:222-227 | the table's root of equal degree and no smaller key becomes a child of cur, whose degree goes up by one |
| FibonacciConsolidate.Submit | Fibonacci-heap/FibonacciHeap.cpp:229-234 | cur becomes a child of the table's root of smaller key, whose degree goes up by one |
| FibonacciConsolidate.LinkSlot | Fibonacci-heap/FibonacciHeap.cpp:221-235 | one link: the smaller or equal key wins (ties to cur), its slot is emptied, and the degree grows by one |
| FibonacciConsolidate.Settle | Fibonacci-heap/FibonacciHeap.cpp:215-237 | the inner loop links until a free slot holds the tree; it can overrun the table only with more than MERGE_ARRAY_SIZE elements |
| FibonacciConsolidate.AddSlot | Fibonacci-heap/FibonacciHeap.cpp:246-249 | one table root joins the new list, which heads at the smaller key |
| FibonacciConsolidate.Rebuild | Fibonacci-heap/FibonacciHeap.cpp:239-251 | the table's roots form the new ring, headed by a least key, one root per degree |
| FibonacciConsolidate.Consolidate | Fibonacci-heap/FibonacciHeap.cpp:198-252 | a forest over the same elements with one root per degree and fib_trees_list_ at a least key; keys are kept, and the table suffices for at most MERGE_ARRAY_SIZE elements |
| FibonacciForest.DegreeBound | Fibonacci-heap/FibonacciHeap.cpp:216 | a node's degree is below the number of elements, so it indexes the table when there are at most MERGE_ARRAY_SIZE elements |
| FibonacciForest.AdoptKeepsForest | Fibonacci-heap/FibonacciHeap.cpp:222-234 | linking two roots of equal degree with the smaller or equal key on top keeps a heap-ordered forest |
| FibonacciForest.LeastTop | Fibonacci-heap/FibonacciHeap.cpp:239-251 | a root least among the roots is least among all elements |
| FibonacciForest.DropTop | Fibonacci-heap/FibonacciHeap.cpp:82-95 | removing a root and promoting its children keeps a forest over the rest |
| FibonacciForest.NewKey | Fibonacci-heap/FibonacciHeap.cpp:113-123 | lowering a key at a root, or not below its parent's key, keeps the forest heap-ordered |
| FibonacciForest.CutOnlyChild | Fibonacci-heap/FibonacciHeap.cpp:256-262 | cutting an only child clears its parent's child and degree and keeps a forest with the child as a root |
| FibonacciCut.UnhookOnly | Fibonacci-heap/FibonacciHeap.cpp:256-257 | without siblings, the parent's child becomes nullptr; a missing parent is a nullptr dereference |
| FibonacciCut.UnhookSiblings | Fibonacci-heap/FibonacciHeap.cpp:258-261 | with siblings, the node's parent becomes its right sibling and the sibling ring skips the node |
| FibonacciCut.Isolate | Fibonacci-heap/FibonacciHeap.cpp:262-264 | the degree of the node's parent pointer target falls by one, and the node becomes a ring of its own |
| FibonacciCut.Unhook | Fibonacci-heap/FibonacciHeap.cpp:255-264 | both branches of cut before its merge, including the right sibling as parent on the sibling branch |
| FibonacciCut.Cut | Fibonacci-heap/FibonacciHeap.cpp:254-267 | keys are kept; an only child leaves its parent without a child and one degree lower, and joins the root ring headed by the smaller key |
| FibonacciCut.CascadingCut | Fibonacci-heap/FibonacciHeap.cpp:269-275 | keys are kept and the node where the climb stops is marked; an unmarked or parentless start is only marked |
| FibonacciCut.LowerRoot | Fibonacci-heap/FibonacciHeap.cpp:113-119 | the key is lowered, the heap stays valid, and the list moves to the root when its key is now smaller |
| FibonacciCut.LowerKey | Fibonacci-heap/FibonacciHeap.cpp:120-123 | the key is lowered and the heap stays valid |
| FibonacciCut.LowerCut | Fibonacci-heap/FibonacciHeap.cpp:124-127 | for an only child whose cascade stops at its parent, the result is a valid heap with the node among the roots and the minimum updated, and records outside the heap are kept; for the only root with a left-over parent, that parent loses its child and a degree and is marked, and the heap stays valid |
| FibonacciCut.StaleRootGood | Fibonacci-heap/FibonacciHeap.cpp:124-127 | cutting the only root from a left-over parent outside the heap, which loses its child and a degree and is marked, leaves a valid heap headed by that root, least if the old head was |
| FibonacciFrame.OtherHeapKept | Fibonacci-heap/FibonacciHeap.cpp:155 | a heap whose elements a step did not touch is still a heap with the same list, root ring, records and handles |
| Fibonacci.Undisturbed | Fibonacci-heap/FibonacciHeap.cpp:155 | after any operation on another heap over the same store, a heap is still valid with the same keys and records, and its minimum is exact if it was least |
| FibonacciCut.ShortCutGood | Fibonacci-heap/FibonacciHeap.cpp:124-127 | when the cascade stops at the parent, which is then marked, the forest stays valid |

## Left out

- Memory management is not modelled: `shared_ptr` reference counts, the destructors, and `removeFromMemory` (Binomial-heap/BinomialHeap.cpp:285-304, Fibonacci-heap/FibonacciHeap.cpp:41-46 and 277-308). Nodes stay in the arena, and only the `deleted` flags are modelled.
- Exceptions are error values (`Results.Error`), not C++ exceptions. Undefined behaviour gets its own value, `Undefined`: a nullptr dereference, a climb that does not stop, or a degree-table overrun.
- The gtest drivers (Binomial-heap/tests.cpp, Fibonacci-heap/tests.cpp) use `rand()` and `std::multiset`. They are not part of this model.
- `int` overflow is not modelled: keys and degrees are unbounded integers.
- FibonacciCut.CascadingCut: the climb is bounded by the number of nodes. A climb that reaches the bound reports `ok == false`, not an endless loop.
- FibonacciConsolidate.Consolidate: a degree of `MERGE_ARRAY_SIZE` or more would index past the table. This gives `ok == false` (`Undefined` in extractMin) rather than being a precondition, and it is proved impossible for at most `MERGE_ARRAY_SIZE` elements.
- Fibonacci.FibonacciHeap.DecreaseKey: no invariant and no frame is promised after a cut of a node with siblings, or after a cascade that cuts again. There, line 258 sets the node's parent to its right sibling, and the real parent keeps its `child` pointer and its degree; the nodes changed then need not belong to this heap.
- Fibonacci.FibonacciHeap.DecreaseKey: a cut node becomes a root but keeps its parent pointer, because the list constructor skips the last node of its ring. A later decreaseKey on it takes the parent branch. The exactness of the minimum is promised there only for a node that is not a root.
- Fibonacci.FibonacciHeap.DecreaseKey: the handle must be an element of this heap when its node is not marked deleted. This excludes the handle left by extracting the only element, which is not marked deleted (Fibonacci-heap/FibonacciHeap.cpp:87-89), and the node of another heap. The source accepts such a handle (lines 104-112) and then works on a node outside the heap. At a root of an empty heap, line 115 dereferences nullptr. At a root of a non-empty heap, line 116 may point fib_trees_list_ at the foreign node, and the root ring is lost. Under a parent, cut and its merge (lines 124-127 and 265-266) put the node into this heap's root ring, and an extracted key comes back. The model does not decide membership, which the source never tests, so it cannot branch on it.
- Fibonacci.FibonacciHeap.ExtractMin: when the minimum is the only element, the node is not marked deleted (Fibonacci-heap/FibonacciHeap.cpp:87-89), and the model keeps that.
- FibonacciLists.ListConstructor: the last node of the ring keeps its `parent` and `marked` fields (Fibonacci-heap/FibonacciHeap.cpp:34-38). So `Valid()` allows any parent on a root, and a root's `marked` flag is unconstrained.
- Fibonacci.FibonacciHeap.Merge: into an empty heap, both heaps share one root list afterwards and `other` keeps its elements. The model does not follow the aliasing further; later operations on one heap change the other.
- Binomial.BinomialHeap.ExtractMin: when the removed minimum had no children, merge returns early, and minimum_ is head_ (Binomial-heap/BinomialHeap.cpp:90-91 and 338). The minimum is then not promised to be exact.
- Binomial.BinomialHeap.Change: raising the minimum's own key may return early from the sift-down (Binomial-heap/BinomialHeap.cpp:211-213) and skip the rescan. This happens exactly when the raised key stops on a node that has children. The minimum is then not promised to be exact. When the key sinks to a leaf, the rescan at lines 217-226 runs and the minimum is promised exact.
- Binomial.BinomialHeap.Erase: when change leaves the element off the root list (a non-root node that already holds the minimum's value; one whose parent's value is below a cached minimum that is not exact; or an element whose value is below a cached minimum that is not exact, which change raises to that value and sinks below a smaller child by swapValues at lines 202-215, so that its handle ends on a non-root), the predecessor walk of extractMin (Binomial-heap/BinomialHeap.cpp:72-74) runs off the root list. That undefined behaviour is the result `Undefined`, with the state that change left.
- Binomial.BinomialHeap.Merge: the resulting handle map is stated through `SameKeys`: every node keeps its value and its buffer. Insert and Erase state the map equalities that follow from it.
