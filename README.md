# kbtree — a verified model of klib's in-memory B-tree

`kbtree.h` is a generic, macro-instantiated B-tree that keeps keys sorted and
allows duplicates. `kb_put` inserts a key, `kb_del` removes one, and
`kb_get` and `kb_interval` look keys up. The `kb_itr_*` functions walk the
keys in order with an explicit stack of frames. Every node holds between
`t - 1` and `2t - 1` keys (the root may hold fewer). The minimum degree `t`
is derived from the node size in bytes. Insertion splits full nodes on the
way down. Deletion refills thin children on the way down: it borrows from a
sibling or merges two siblings. Keys are removed from internal nodes by
replacing them with their predecessor or successor.

This project models that code in Dafny, for one instantiation: `int` keys
ordered by `kb_generic_cmp`. The model has two layers.

- **Values** (`TreeModel`, `Keys`, `KeyBounds`, `Descent`). `Tree` is the
  abstract B-tree: `Leaf(keys)` or `Internal(keys, children)`.
  - `InOrder` is its key sequence.
  - `WF(m, t, lo)` states the B-tree shape invariants.
  - `SplitChild`, `MergeChildren`, `RotateRight` and `RotateLeft` are the
    restructuring steps.
  - Lemmas prove that each step keeps the in-order sequence and the shape.
- **Memory** (`NodeStore`, `Restructure`, `Insertion`, `Deletion`).
  - A `kbnode_t` is a `Node` value: kind, keys and child addresses.
  - Memory is a `Store`, a map from node addresses to nodes.
  - `Rep(s, x, m)` says that the nodes reachable from `x` form the tree `m`,
    with no node shared between subtrees.
  - `Grown` and `Shrunk` frame an operation on one subtree.
- **The tree object** (`BTree.KBTree`). This class has the fields of
  `kbtree_t`, the node store, and a ghost `Model`.
  - Each C function is a method that updates the store in place.
  - `Valid()` ties the store to `Model` and keeps `n_keys` equal to the number
    of keys.
  - Insertion and deletion are specified as adding or removing exactly one
    occurrence of the key in the tree's multiset of keys.
- **The iterator** (`Iteration.Itr`). It holds a stack of `Pos` frames in an
  array of `KB_MAX_DEPTH` (64) entries, plus the frame index `p`.
  - `Path` ties a stack of frames to a walk down the tree.
  - `Position` is the in-order index of the key the top frame names.
  - `kb_itr_first` and `kb_itr_next` are proved to visit the keys in
    in-order sequence.
  - `kb_itr_get` is modelled as written, together with a corrected version
    (see Findings).

## Model

| member | source | states |
|---|---|---|
| Keys.Cmp | kbtree.h:438 | `kb_generic_cmp` is negative, zero or positive exactly when `a < b`, `a == b`, `a > b`, and lies in -1..1 |
| Keys.InsertedSorted | kbtree.h:217-221 | writing `k` into a sorted key run at a position that brackets it gives a sorted run one longer, whose multiset gains exactly `k` |
| Keys.RemovedSorted | kbtree.h:271-273 | closing the gap at index `p` of a sorted run keeps it sorted and removes exactly that key from its multiset |
| NodeSearch.GetAux | kbtree.h:130-143 | `__kb_getp_aux`: -1 with `r` untouched on an empty node; otherwise `r == 0` iff `ks[i]` is the leftmost key equal to `k`; `r == 1` iff every key is below `k` (then `i == n - 1`); keys up to `i` are below `k` and keys after it above, on a miss |
| NodeSearch.SearchBrackets | kbtree.h:140-142 | the search result plus one brackets `k`: keys before it are at most `k`, keys from it on at least `k` |
| NodeSearch.InsertPos | kbtree.h:216-219 | the slot `__kb_putp_aux` uses, one past the search result, lies in `0..n` and brackets `k` |
| NodeSearch.DescendSearch | kbtree.h:155 | after a miss in an internal node, `k` is in the subtree iff it is in child `i + 1`, which is sorted |
| TreeModel.ChildWF | kbtree.h:45-47 | a child of a well-formed node is well formed and strictly lower |
| TreeModel.NodeKeysSorted | kbtree.h:130-143 | a node of a tree with a sorted in-order sequence has sorted keys, as the binary search needs |
| TreeModel.ChildBounds | kbtree.h:155 | a child's keys lie between the parent keys that flank it, and the child is sorted |
| TreeModel.RootSplit | kbtree.h:237-243 | splitting a full root under a new empty root gives one key, the old median, keeps the in-order sequence and well-formedness, and raises the height by one |
| TreeModel.SplitHalves | kbtree.h:201-204 | the low half, the median and the high half of a full node concatenate to its in-order sequence |
| TreeModel.SplitChildSpec | kbtree.h:195-210 | `__kb_split` of a full child of a non-full node keeps the in-order sequence, the shape invariants and the height |
| TreeModel.MergedInOrder | kbtree.h:289-292 | a merged node's sequence is the left sibling's, the separator, then the right sibling's |
| TreeModel.MergeChildrenInOrder | kbtree.h:288-295 | merging two siblings around their separator keeps the parent's in-order sequence |
| TreeModel.MergedShape | kbtree.h:287-292 | two `t - 1`-key siblings and their separator merge into a well-formed `2t - 1`-key node of the same height |
| TreeModel.MergeChildrenShape | kbtree.h:316-334 | merging two minimal children keeps the parent well formed at the same height, the merged child holding `2t - 1` keys |
| TreeModel.RotateRightInOrder | kbtree.h:302-308 | borrowing from the left sibling through the parent keeps the in-order sequence |
| TreeModel.RotateRightShape | kbtree.h:302-308 | borrowing from a left sibling with at least `t` keys keeps the shape, and the child then holds `t` keys |
| TreeModel.RotateLeftInOrder | kbtree.h:309-315 | borrowing from the right sibling keeps the in-order sequence |
| TreeModel.RotateLeftShape | kbtree.h:309-315 | borrowing from a right sibling with at least `t` keys keeps the shape, and the child then holds `t` keys |
| TreeModel.ReplaceChildWF | kbtree.h:228 | replacing a child by a well-formed subtree of the same height keeps the parent well formed |
| KeyBounds.Rank | kbtree.h:135-139 | the lower-bound index: every key before it is below `k`, the key at it is at least `k` |
| KeyBounds.RankOf | kbtree.h:135-139 | any index with the lower-bound property is the rank |
| KeyBounds.SearchStep | kbtree.h:177-185 | one round of `kb_intervalp` refines the bracketing pair as the specification function `Descend` does |
| KeyBounds.DescendFromRoot | kbtree.h:171-187 | for an absent key, the descent ends with the greatest key below `k` and the least key above it in the whole tree |
| KeyBounds.DescendSpec | kbtree.h:176-186 | the same within a subtree, with the flanking keys of its ancestors as the starting bounds |
| KeyBounds.Boundary | kbtree.h:182-183 | at a cut where keys before are below `k` and keys after above, the neighbours are the greatest-below and least-above values and `k` is absent |
| Descent.InsertIntoChild | kbtree.h:228 | inserting `k` into the bracketing child inserts it into the parent's in-order sequence, at the matching offset |
| Descent.RemoveFromChild | kbtree.h:297 | removing one key from a child removes the matching element from the parent's in-order sequence |
| Descent.ReplaceByPredecessor | kbtree.h:277-281 | replacing key `i` by the last key of child `i`, removed from that child, removes key `i` from the in-order sequence |
| Descent.ReplaceBySuccessor | kbtree.h:282-286 | replacing key `i` by the first key of child `i + 1`, removed from that child, removes key `i` from the in-order sequence |
| Restructure.SplitRep | kbtree.h:198-209 | after the in-place split, the parent in memory represents `SplitChild`, and its nodes are the old ones plus the new node |
| Restructure.SplitNodes | kbtree.h:195-210 | the store after a split has one more node, and the parent's keys and child pointers have the median and the new node inserted at `i` |
| Restructure.SplitStore | kbtree.h:195-210 | the split grows the subtree by exactly one node, and the in-order sequence, shape and height are those of `SplitChild` |
| Restructure.MergedRep | kbtree.h:288-292 | the left sibling in memory, extended in place by the separator and the right sibling, represents `Merged`; the right sibling's address is gone |
| Restructure.MergeRep | kbtree.h:288-296 | after the merge, the parent in memory represents `MergeChildren`, with the right sibling freed |
| Restructure.RotateRightRep | kbtree.h:302-308 | after the in-place borrow from the left, the parent in memory represents `RotateRight` over the same nodes |
| Restructure.RotateLeftRep | kbtree.h:309-315 | after the in-place borrow from the right, the parent in memory represents `RotateLeft` over the same nodes |
| Insertion.LeafInsert | kbtree.h:215-221 | inserting into a non-full leaf at a bracketing slot inserts `k` at that index and keeps the shape |
| Insertion.SplitBrackets | kbtree.h:224-227 | after splitting child `i`, the median moves to key `i`, the child chosen by comparing `k` with the median brackets `k`, and that child holds `t - 1` keys |
| Insertion.InsertBelow | kbtree.h:222-229 | an insertion into the chosen child is an insertion into the whole subtree, which stays well formed at the same height |
| Insertion.RootGrow | kbtree.h:237-241 | a fresh internal root with no keys over the full old root represents a well-formed tree with the same keys |
| Deletion.LeafDelete | kbtree.h:269-275 | removing key `i` from a leaf removes exactly that key and leaves the leaf with one key fewer |
| Deletion.BorrowLeftNodes | kbtree.h:302-308 | the borrow from the left keeps the set of node addresses |
| Deletion.BorrowLeftStore | kbtree.h:302-308 | the borrow from the left leaves the subtree in memory representing `RotateRight` |
| Deletion.BorrowRightNodes | kbtree.h:309-315 | the borrow from the right keeps the set of node addresses |
| Deletion.BorrowRightStore | kbtree.h:309-315 | the borrow from the right leaves the subtree in memory representing `RotateLeft` |
| Deletion.MergeNodes | kbtree.h:316-334 | a merge frees exactly the absorbed sibling |
| Deletion.MergeStore | kbtree.h:287-296 | a merge leaves the subtree in memory representing `MergeChildren` |
| Deletion.PredecessorRemoved | kbtree.h:277-281 | removing the predecessor from child `i` and writing it over key `i` removes key `i` from the in-order sequence |
| Deletion.SuccessorRemoved | kbtree.h:282-286 | removing the successor from child `i + 1` and writing it over key `i` removes key `i` from the in-order sequence |
| Deletion.RemovedBelow | kbtree.h:337 | a removal in child `j` is a removal in the subtree, of the key mode `s` chose: `k` itself, the last key or the first key |
| Deletion.PredecessorUp | kbtree.h:277-281 | the predecessor case leaves a well-formed subtree with key `i` removed |
| Deletion.SuccessorUp | kbtree.h:282-286 | the successor case leaves a well-formed subtree with key `i` removed |
| Deletion.DeleteBelow | kbtree.h:300-337 | after the refill, a removal in the child the descent went into is a removal in the whole subtree, in every mode |
| BTree.Degree | kbtree.h:73 | the minimum degree `t` makes `2t - 1` the largest odd number at most `(size - 4 - sizeof(void*)) / (sizeof(void*) + sizeof(key_t))`, the number of key-and-pointer slots after the header and the first pointer |
| BTree.RoundUp4 | kbtree.h:77-78 | `(v + 3) >> 2 << 2` is the least multiple of 4 at or above `v` |
| BTree.DegreeFits | kbtree.h:73 | the derived degree gives the largest odd key capacity whose node fits in `size` bytes |
| BTree.KBTree.constructor | kbtree.h:70-86 | `kb_static_init`: degree, capacity, offsets and allocation sizes from the node size; an empty leaf root; no keys; one node |
| BTree.KBTree.Init | kbtree.h:87-96 | `kb_init`: no tree exactly when the degree is below 2, otherwise a fresh valid empty tree |
| BTree.KBTree.Size | kbtree.h:436 | `kb_size` is the number of keys in the tree |
| BTree.KBTree.Record | kbtree.h:182-183 | one round's update of `lower`/`upper` moves them to the bracketing keys of that node |
| BTree.KBTree.GetPos | kbtree.h:146-159 | `kb_getpos` returns a non-null position iff `k` is in the tree, and then it points at a key equal to `k`; it visits at least one node and at most one node per level, `height + 1` in all |
| BTree.KBTree.GetP | kbtree.h:160-168 | `kb_getp`/`kb_get` return a pointer iff `k` is in the tree, and it points at a key equal to `k` |
| BTree.KBTree.Interval | kbtree.h:171-191 | for a present key, `lower == upper`, pointing at `k`; for an absent one, `lower` points at the greatest key below `k` and `upper` at the least key above it, each null when none exists |
| BTree.KBTree.Split | kbtree.h:195-210 | `__kb_split` turns the subtree into `SplitChild` in place, allocating one node and counting it |
| BTree.KBTree.PutLeaf | kbtree.h:215-221 | the leaf branch of `__kb_putp_aux` inserts `k` at the bracketing slot and returns that slot |
| BTree.KBTree.ChildFor | kbtree.h:222-227 | the internal branch picks a bracketing child, splitting it first when full, so that the child is non-full; the keys are unchanged |
| BTree.KBTree.PutAux | kbtree.h:211-231 | `__kb_putp_aux` on a non-full subtree inserts exactly `k` into its in-order sequence, keeps it well formed at the same height, and returns a slot holding `k` |
| BTree.KBTree.GrowRoot | kbtree.h:237-244 | a full root is split under a new root: the same keys, one level higher, with one root key; `n_nodes` grows by 2 (the new root and the split's new node), as the store does |
| BTree.KBTree.PutRoot | kbtree.h:245 | inserting from a non-full root adds exactly `k` to the tree's multiset of keys, and `n_nodes` grows by the number of nodes the splits allocate |
| BTree.KBTree.PutPos | kbtree.h:232-246 | `kb_putpos` keeps the tree valid, adds one occurrence of `k`, counts it, and returns a position holding `k`; `n_nodes` grows exactly by the number of nodes allocated |
| BTree.KBTree.PutP | kbtree.h:247-251 | `kb_putp` does the same and returns a pointer to the inserted key, with the same `n_nodes` accounting |
| BTree.KBTree.Put | kbtree.h:252-255 | `kb_put` keeps the tree valid and adds exactly one occurrence of `k`, with the same `n_nodes` accounting |
| BTree.KBTree.DelLeaf | kbtree.h:269-275 | the leaf case removes the key at the chosen index and returns it |
| BTree.KBTree.BorrowLeft | kbtree.h:302-308 | the thin child gains a key from its left sibling through the parent; keys, shape and height are kept |
| BTree.KBTree.BorrowRight | kbtree.h:309-315 | the thin child gains a key from its right sibling through the parent; keys, shape and height are kept |
| BTree.KBTree.Merge | kbtree.h:316-335 | two minimal siblings merge around their separator into a `2t - 1`-key child; the parent loses a key, and the in-order sequence is kept |
| BTree.KBTree.Refill | kbtree.h:301-336 | a thin child is given at least `t` keys by a borrow or a merge, and the child to descend into still holds what the old one held |
| BTree.KBTree.FixChild | kbtree.h:300-336 | after the refill, the child to descend into holds at least `t` keys and whatever the old child held; the last child stays last and the first stays first |
| BTree.KBTree.DelAux | kbtree.h:259-338 | `__kb_delp_aux` removes exactly one key from the subtree and returns it: `k` in mode 0, the last key in mode 1, the first key in mode 2; the subtree stays well formed at the same height |
| BTree.KBTree.DelAt | kbtree.h:276-299 | with `k` found at key `i` of an internal node, the node loses `k` through the predecessor, successor or merge case |
| BTree.KBTree.DelPredecessor | kbtree.h:277-281 | when child `i` has at least `t` keys, its last key replaces `k`, and `k` is removed |
| BTree.KBTree.DelSuccessor | kbtree.h:282-286 | when child `i + 1` has at least `t` keys, its first key replaces `k`, and `k` is removed |
| BTree.KBTree.DelMerged | kbtree.h:287-297 | when both children are minimal, they merge around `k`, and `k` is then removed from the merged child |
| BTree.KBTree.DelBelow | kbtree.h:300-337 | the descent refills the chosen child and then removes the mode's key from it |
| BTree.KBTree.DelRoot | kbtree.h:343 | deleting from the root removes exactly one occurrence of `k` and keeps the height |
| BTree.KBTree.CollapseRoot | kbtree.h:345-350 | an internal root left with no keys is freed, and its only child becomes the root; the keys are kept and the height drops by one |
| BTree.KBTree.DelP | kbtree.h:339-352 | `kb_delp` keeps the tree valid, removes exactly one occurrence of `k`, decrements `n_keys`, and returns `k`; the height drops by at most one, and `n_nodes` drops by one exactly when it does (the root collapse) |
| BTree.KBTree.Del | kbtree.h:353-356 | `kb_del` does the same, with the same height and `n_nodes` accounting |
| BTree.GrowGood | kbtree.h:237-243 | growing a full root keeps the tree invariant and counts two more nodes |
| BTree.PutGood | kbtree.h:232-246 | an insertion below the root keeps the tree invariant and adds exactly `k` to the multiset |
| BTree.DelGood | kbtree.h:343-344 | a removal below the root keeps the tree invariant except possibly an empty internal root, and removes exactly `k` from the multiset |
| BTree.CollapseGood | kbtree.h:345-350 | promoting the only child of an empty root restores the tree invariant with one node fewer |
| BTree.RootReady | kbtree.h:343 | a tree that holds a key has at least one key at its root, as the deletion's refill assumes |
| BTree.Advance | kbtree.h:185 | a missed search in an internal node continues in child `i + 1`, which represents a sorted, lower subtree holding `k` iff the node did |
| BTree.LeafMiss | kbtree.h:184 | a miss in a leaf means `k` is not in it |
| Iteration.PathRep | kbtree.h:54-56 | every frame of a walk is at a node that represents its subtree |
| Iteration.PathShape | kbtree.h:54-56 | the subtree at depth `d` of a walk is well formed and `d` levels below the root |
| Iteration.PositionKey | kbtree.h:433 | the key the top frame names is the element of the in-order sequence at `Position` |
| Iteration.KeysHeight | kbtree.h:35 | a B-tree of height `h` holds at least `2^(h+1) - 1` keys |
| Iteration.DepthBound | kbtree.h:35 | with fewer than `2^31` keys the tree is at most 30 levels high, so a walk fits the 64 frames |
| Iteration.LeftmostStep | kbtree.h:365-369 | one step of `kb_itr_first` down the first child keeps the walk at index 0 |
| Iteration.LeftmostDone | kbtree.h:365-369 | where `kb_itr_first` stops, at a leaf of a nonempty tree, the iterator stands at in-order index 0 |
| Iteration.AtPassed | kbtree.h:390 | at a key, the iterator has passed its position plus one keys |
| Iteration.StepIndex | kbtree.h:390 | `++p->i` moves from having passed the keys to descending at the next child |
| Iteration.StepDown | kbtree.h:391-394 | pushing child `i` with index 0 keeps the walk and its count of passed keys |
| Iteration.StepLeaf | kbtree.h:391-394 | at a leaf, a null frame is pushed, and the count stands just before the leaf's key `i` |
| Iteration.PopSubtree | kbtree.h:396-397 | popping past a finished subtree lands on its parent's separator, or ends the walk at the total key count |
| Iteration.PopFrame | kbtree.h:396-397 | `--p` either exhausts the stack after every key or lands on a frame whose index is the next key |
| Iteration.StepLanded | kbtree.h:398 | after the pop, `i < n` means the iterator stands at the next key |
| Iteration.GetStep | kbtree.h:380-382 | one descent of `kb_itr_get` as written pushes child `i + 1` with frame index `i`, keeping `k`'s membership |
| Iteration.SeekStep | kbtree.h:380-382 | the corrected descent records `i + 1` in the parent frame and pushes the child at index 0, keeping the walk |
| Iteration.SeekHit | kbtree.h:378 | recording the found index in the top frame puts the iterator at a key equal to `k` |
| Iteration.SampleGood | kbtree.h:61-67 | the three-node sample tree `[10] / [5] [20]` is a valid B-tree of degree 2 holding `5, 10, 20` |
| Iteration.GetMisplaces | kbtree.h:371-385 | on the sample tree, `kb_itr_get` as written finds 5 in leaf `[5]` but leaves the frame index at -1, so the iterator does not stand at any key |
| Iteration.Itr.constructor | kbtree.h:54-56 | a fresh iterator has a stack of 64 frames and no current frame |
| Iteration.Itr.Key | kbtree.h:433 | `kb_itr_key` returns the element of the in-order sequence at the iterator's index |
| Iteration.Itr.First | kbtree.h:359-370 | `kb_itr_first` leaves an empty tree's iterator invalid; otherwise the iterator stands at in-order index 0, every frame at index 0 |
| Iteration.Itr.DescendFirst | kbtree.h:365-369 | the loop down the first children ends at index 0 |
| Iteration.Itr.Next | kbtree.h:386-400 | `kb_itr_next` returns 0 on an invalid iterator; otherwise it returns 1 iff a next key exists, and then it stands at the next in-order index; on 0 the iterator is invalid |
| Iteration.Itr.NextFrom | kbtree.h:389-399 | the outer loop moves from index `pos - 1` to `pos`, or ends the walk when `pos` is the key count |
| Iteration.Itr.Pop | kbtree.h:396-398 | one `--p` and its checks: stack exhausted after every key, at the next key, or past a frame's last key |
| Iteration.Itr.DescendNext | kbtree.h:390-395 | the inner loop ends past a leaf or at a subtree that has no more keys, keeping the count of passed keys |
| Iteration.Itr.PushFrame | kbtree.h:392-394 | one round of the inner loop pushes a frame and keeps the walk |
| Iteration.Itr.Get | kbtree.h:371-385 | `kb_itr_get` as written returns 0 iff `k` is in the tree, and then `k` is a key of the top frame's node; the frames are the search descent, each below the root holding its parent's search result |
| Iteration.Itr.GetFrom | kbtree.h:376-384 | the loop of `kb_itr_get` as written |
| Iteration.Itr.Seek | kbtree.h:371-385 | corrected `kb_itr_get`: returns 0 iff `k` is in the tree, and then the iterator stands at a key equal to `k`, so `kb_itr_key` yields `k` and `kb_itr_next` continues in order |
| Iteration.Itr.SeekFrom | kbtree.h:376-384 | the corrected loop keeps the frames a walk that `kb_itr_next` accepts |
| Iteration.Itr.SeekLand | kbtree.h:377-378 | on a hit, storing the found index `i` in the top frame leaves the iterator standing at a key equal to `k` |
| Iteration.Itr.SeekDown | kbtree.h:380-382 | on a miss at an internal node, the top frame records child `i + 1` and the pushed frame starts at 0: the stack is still a walk, one level deeper within the 64 frames, and `k` is in the new subtree iff it was in the old one |

## Left out

- Memory allocation and release are out of scope. `calloc` becomes the choice of a fresh address (kbtree.h:83, 198, 239). `free` becomes removal from the store. `kb_destroy`/`kb_static_destroy` (kbtree.h:98-127) are not modelled.
- Only `int` keys with `kb_generic_cmp` are modelled. `kb_str_cmp` calls `strcmp`, a foreign function, and other key types are left out.
- Byte layout is modelled as values. `__KB_KEY`/`__KB_PTR` offsets, `memmove` and the 31-bit `n` bit-field become sequences. The layout constants `off_ptr`, `ilen` and `elen` are computed but never used to index memory.
- BTree.KBTree.DelP: requires that `k` is in the tree. The same requirement holds for BTree.KBTree.Del, BTree.KBTree.DelRoot and BTree.KBTree.DelAux in mode 0. On an absent key, the descent still does every borrow and merge on its way down (kbtree.h:300-337). At the leaf it reaches, it removes `K[i]`, where `i` is that leaf's search result, i.e. the greatest key below `k` in that leaf (kbtree.h:268-274). When `k` is below every key of that leaf, `i == -1`: the code reads `K[-1]` and moves keys one slot before the key array, which is undefined behaviour. On an empty tree, the root's `n` and `n_keys` both drop to -1.
- BTree.KBTree.Merge: `n_nodes` is not decremented when a merge frees a node (kbtree.h:296, 324, 334). The model therefore keeps only `|nodes| <= n_nodes`, not equality.
- BTree.KBTree.constructor, BTree.KBTree.Init: require `size >= 4 + sizeof(void*)`. Below that, the unsigned arithmetic at kbtree.h:73 wraps around.
- BTree.KBTree.Split, BTree.KBTree.Put and the other counters: `n_keys` and `n_nodes` are unbounded integers; C `int` overflow is not modelled.
- Iteration.Itr.First, Iteration.Itr.Next, Iteration.Itr.Get and Iteration.Itr.Seek require at most `2^31 - 1` keys. This is the range of the C `int` `n_keys`, and it bounds the depth by the 64-frame stack.
- Iteration.Itr.Next: is specified only for an iterator that stands at a key, as `kb_itr_first`, `kb_itr_next` or the corrected seek leave it, or that is invalid. After `kb_itr_get` as written, the frames need not form such a walk (see Findings).
- A null child pointer in an internal node cannot occur in the model. The test `__KB_PTR(b, x)[0] != 0` (kbtree.h:365) becomes "the node has children".
- The `k == 0` argument of `__kb_delp_aux` in modes 1 and 2 (kbtree.h:280, 285) is not modelled as a pointer; `k` is unused in those modes.
- The deprecated helpers after kbtree.h:441 and the `kb_itr_valid` macro (kbtree.h:434) carry no property. `Itr.IsValid` is its one-line predicate `p >= 0`; what it means for the iterator is stated through the contracts of `First` (which leaves `p < 0` on an empty tree) and `Next` (which leaves `p < 0` exactly when it returns 0).
- Concurrency: the structure is single-threaded and none is modelled.
- Each C loop of the iterator is one `while` loop in the model. The loop bodies are split into helper methods (`Pop`, `PushFrame`, `SeekLand`, `SeekDown`).

## Findings

| source | as written | input that shows it | evidently intended | confidence | as-written member | corrected member |
|---|---|---|---|---|---|---|
| kbtree.h:371-385 | `kb_itr_get` never stores the index it found, and gives each pushed frame its parent's search result `i` as index, while every frame keeps the index it was given when pushed (0 for the root's frame) | the tree with root `[10]` over leaves `[5]` and `[20]`, searching 5: the result is 0, but the top frame is leaf `[5]` with index -1, so `kb_itr_key` reads before the first key and `kb_itr_next` does not continue from 5 | set the top frame's index to the found `i` before returning 0, and set the parent frame's index to `i + 1` (the child descended into) with the pushed frame at 0, the frames `kb_itr_first`/`kb_itr_next` keep | high, not executed | Iteration.GetMisplaces | Iteration.Itr.Seek |
