# llrb in Dafny

A model of the `llrb` Go package. The package is a left-leaning red-black
(LLRB) tree after Sedgewick's 2008 paper, plus an ordered map and an ordered
set built on top of it.

The model has these modules:

- `OrderedSeqs` — the abstract view of a tree: the sequence of its items in key
  order. It defines the reference functions every operation is specified
  against:
  - `Find` — lookup by key;
  - `Upsert` — replace-or-insert;
  - `RemoveKey` — delete by key;
  - `Visit` — a walk with an early-stopping callback;
  - `AscRange` and `DescRange` — the items inside an iteration range.
- `Nodes` — the node datatype (`Leaf | Node(color, left, item, right)`), the
  in-order items `Elems`, the red-black shape predicates, and the balance
  primitives:
  - `NewNode`, `RotateLeft`, `RotateRight`, `ColorFlip`, `FixUp`,
    `MoveRedLeft`, `MoveRedRight`;
  - `Blacken` — the root recolouring done after every update.
- `Balance` — how each primitive keeps, breaks or restores the shape
  invariants: no red right link, no two reds in a row, equal black height.
- `Insertion`, `Deletion`, `Iteration` — the recursive `insert`, `deleteMin`,
  `deleteMax`, `delete` and `iterate`. Each one has a contents lemma, relating
  it to the reference functions. `insert`, `deleteMin`, `deleteMax` and
  `delete` also have a shape lemma, saying the LLRB invariants survive them.
  `iterate` only reads the tree, so it needs none.
- `HeightBounds` — the height bound the invariants give:
  depth ≤ 2·log2(len+1), stated with integers.
- `LLRB` — the public `LLRBTree` class. It holds `root` and `len`; its methods
  update them in place, and its invariant `Valid()` is:
  - a search tree;
  - left-leaning;
  - balanced;
  - black root;
  - `len` equal to the number of items.
- `Maps` and `Sets` — `LLRBMap` (entries ordered by key alone) and `LLRBSet`
  (values ordered by themselves). Each is a class over one `LLRBTree` field,
  specified by `Lookup` and `Elements()`.

The comparator is modelled as an integer key function `key: T -> int`.
`compare(a, b)` is `Compare(key(a), key(b))`, which is `cmp.Compare` on the
keys. "Compares equal" means "has the same key". A Go result pair
`(zeroValue, false)` / `(x, true)` becomes `None` / `Some(x)`.

## Model

| member | source | states |
|---|---|---|
| OrderedSeqs.Compare | map.go:18-20 | the three-way comparison is -1, 0 or 1 and is negative, zero or positive exactly when a < b, a == b, a > b |
| OrderedSeqs.SortedSplit | llrb.go:59-73 | a node's in-order sequence is sorted iff both sides are sorted, everything on the left is smaller and everything on the right larger than the node |
| OrderedSeqs.FindExactly | llrb.go:59-73 | in a sorted sequence, Find(k) gives y exactly when y is stored and has key k (the stored item that compares equal is unique) |
| OrderedSeqs.FindSplit | llrb.go:61-69 | searching a node's sequence: the left side when the key is smaller, the node itself when equal, the right side when larger |
| OrderedSeqs.FindMissing | llrb.go:72 | when no stored item has key k, Find gives nothing |
| OrderedSeqs.UpsertMembers | llrb.go:278-295 | after replace-or-insert of x, x is stored and every other stored item is an old one with a different key, and all those are kept |
| OrderedSeqs.RemoveMembers | llrb.go:243-276 | after deleting key k, exactly the old items with a key other than k remain |
| OrderedSeqs.UpsertSplit | llrb.go:283-292 | replace-or-insert into a node's sequence changes only the side the key points to, or replaces the node's item on an equal key |
| OrderedSeqs.RemoveSplit | llrb.go:243-276 | deleting from a node's sequence changes only the side the key points to, or drops the node's item on an equal key |
| OrderedSeqs.UpsertSorted | llrb.go:278-295 | replace-or-insert keeps the sequence strictly sorted |
| OrderedSeqs.RemoveSorted | llrb.go:243-276 | delete keeps the sequence strictly sorted |
| OrderedSeqs.UpsertLength | llrb.go:48-55 | replace-or-insert grows the sequence by one exactly when no item had x's key, and keeps its length otherwise |
| OrderedSeqs.RemoveLength | llrb.go:109-118 | delete shrinks the sequence by one exactly when an item had the key, and keeps its length otherwise |
| OrderedSeqs.RemoveMissing | llrb.go:109-118 | deleting a key no item has leaves the contents unchanged |
| OrderedSeqs.RemoveAfterUpsert | llrb.go:109-118 | deleting the key just inserted gives the same contents as deleting it before the insert |
| OrderedSeqs.FindAfterUpsert | map.go:32-41 | after replace-or-insert of x, looking up x's key gives x and every other key gives what it gave before |
| OrderedSeqs.FindAfterRemove | map.go:56-62 | after deleting key k, looking up k gives nothing and every other key gives what it gave before |
| OrderedSeqs.VisitStops | llrb.go:319-325 | a walk calls the callback on a prefix of the items; it reports completion exactly when every item was accepted, and otherwise the last item called on is the first one rejected |
| OrderedSeqs.StopsAfter | llrb.go:319-325 | if the callback accepts the first k-1 items and rejects the k-th, the walk makes exactly k calls |
| OrderedSeqs.VisitAppend | llrb.go:319-325 | walking a concatenation walks the first part and, only if it was not stopped, the second |
| OrderedSeqs.VisitNode | llrb.go:319-325 | walking a node: the left part, then the node's item unless already stopped, then the right part unless the item was rejected |
| OrderedSeqs.VisitSorted | llrb.go:312-325 | a walk over sorted items calls the callback in strictly increasing key order |
| OrderedSeqs.AscRangeMembers | llrb.go:131-138 | the ascending range keeps exactly the items e with ge <= e < lt (a missing bound does not restrict) |
| OrderedSeqs.DescRangeMembers | llrb.go:167-174 | the descending range keeps exactly the items e with gt < e <= le |
| OrderedSeqs.AscRangeSorted | llrb.go:131-138 | the ascending range of sorted items is strictly increasing |
| OrderedSeqs.DescRangeDescending | llrb.go:167-174 | the descending range of sorted items is strictly decreasing |
| OrderedSeqs.AscRangeAppend | llrb.go:319-325 | the ascending range of a concatenation is the ranges of the parts in the same order |
| OrderedSeqs.DescRangeAppend | llrb.go:333-339 | the descending range of a concatenation is the second part's range followed by the first part's |
| OrderedSeqs.UnboundedRanges | llrb.go:158-165 | with no bounds, the ascending range is all items and the descending range is their exact reverse |
| OrderedSeqs.ReverseSnoc | llrb.go:94-105 | reversing a sequence with an item appended puts that item first, which is how the items taken out by DeleteMax line up |
| OrderedSeqs.ReverseIndex | llrb.go:194-201 | the reverse order puts the i-th item at position len-1-i |
| OrderedSeqs.SortedCardinality | set.go:49-52 | a sorted sequence has no repeats: it holds as many distinct items as positions |
| OrderedSeqs.SortedCons | llrb.go:81-92 | an item put in front of a sequence keeps it sorted exactly when it is smaller than all of it |
| OrderedSeqs.SortedSnoc | llrb.go:94-105 | an item put behind a sequence keeps it sorted exactly when it is larger than all of it |
| Nodes.IsRed | llrb.go:374-379 | a missing node is not red, and a node is red exactly when its colour is red |
| Nodes.NewNode | llrb.go:343-348 | a new node is red, holds exactly its item, and is a left-leaning balanced tree of black height 0 |
| Nodes.Blacken | llrb.go:50 | blackening the root keeps the items and balance, and turns an almost-left-leaning tree into a left-leaning one |
| Nodes.RotateLeft | llrb.go:350-357 | the right child is promoted and takes the root's colour, the old root becomes its red left child, the three subtrees are re-hung in order and the in-order items are unchanged |
| Nodes.RotateRight | llrb.go:359-366 | the left child is promoted and takes the root's colour, the old root becomes its red right child, the subtrees are re-hung in order and the in-order items are unchanged |
| Nodes.ColorFlip | llrb.go:368-372 | exactly the colours of the node and its two children are inverted; items and grandchildren are untouched |
| Nodes.FixUp | llrb.go:381-392 | fixUp returns a node with the same in-order items |
| Nodes.MoveRedLeft | llrb.go:394-402 | moveRedLeft returns a node with the same in-order items |
| Nodes.MoveRedRight | llrb.go:404-411 | moveRedRight returns a node with the same in-order items |
| Nodes.OrderedNode | llrb.go:62-69 | in a search tree both subtrees are search trees, with the smaller keys left and the larger ones right |
| Balance.FixUpShape | llrb.go:381-392 | on a balanced node with left-leaning children, fixUp keeps balance and black height (except when the node and both children are red), leaves at worst a red root over a red left child, and the result is red exactly when one, but not both, of these holds: the node was red, both children were red |
| Balance.FixUpAfterLeftInsert | llrb.go:381-392 | fixUp of a black node whose left child is a red node over a red left child turns the 4-node into a left-leaning tree of the same black height |
| Balance.MoveRedLeftShape | llrb.go:394-402 | moveRedLeft on a node with black left child and grandchild keeps balance and makes the left child part of a 3- or 4-node; from a red node it keeps the black height and never leaves two reds in a row at the top |
| Balance.MoveRedRightShape | llrb.go:404-411 | moveRedRight keeps balance and makes the right child part of a 3- or 4-node ready for deletion; it keeps the root's item unless the left grandchild was red, and from a red node keeps the black height |
| Balance.RotateRightShape | llrb.go:226-228 | rotating a red left child up keeps balance and black height and leaves a black root with a red right child |
| Balance.ZeroHeightLeaf | llrb.go:208-210 | in a balanced tree a subtree that is not red and has black height 0 is missing; deleteMin and deleteMax rely on this to drop a node without the child they would descend into |
| Insertion.Insert | llrb.go:278-295 | insert always returns a node |
| Insertion.InsertContents | llrb.go:278-295 | on a search tree, insert yields exactly the replace-or-insert of the items, returns the item with the same key if there was one, and keeps the tree a search tree |
| Insertion.InsertShape | llrb.go:278-295 | insert keeps balance and black height and leaves at worst a red root over a red left child; under a black root the result is left-leaning |
| Deletion.Delete | llrb.go:243-276 | delete, defined on a subtree that is ready for deletion (balanced, left-leaning children, no two of node and children red) and a search tree, whose right child is red only when x does not sort before the node; any item it returns compares equal to x. Its contents and shape are stated by Deletion.DeleteContents and Deletion.DeleteShape |
| Deletion.DeleteMin | llrb.go:203-219 | deleteMin returns an item exactly when the subtree is not empty |
| Deletion.DeleteMinContents | llrb.go:203-219 | deleteMin removes and returns exactly the first item in order: the old items are the returned one followed by the new ones |
| Deletion.DeleteMinShape | llrb.go:203-219 | deleteMin keeps balance; from a node that is not a 2-node it keeps the left-leaning shape and black height and never turns a black node red |
| Deletion.DeleteMax | llrb.go:221-241 | deleteMax returns an item exactly when the subtree is not empty |
| Deletion.DeleteMaxStep | llrb.go:226-236 | after the optional rotation and moveRedRight, deleteMax either stands on the only remaining item or recurses into a right child ready for deletion |
| Deletion.DeleteMaxContents | llrb.go:221-241 | deleteMax removes and returns exactly the last item in order: the old items are the new ones followed by the returned one |
| Deletion.DeleteMaxShape | llrb.go:221-241 | deleteMax keeps balance; from a node that is not a 2-node it keeps the left-leaning shape and black height and never turns a black node red |
| Deletion.MoveRedLeftItem | llrb.go:251-253 | moveRedLeft never brings a smaller key to the root, so an item that went left still goes left |
| Deletion.MoveRedRightItem | llrb.go:262-264 | moveRedRight keeps the root's item unless it rotates up the left child, whose key is smaller |
| Deletion.DeleteLeftStep | llrb.go:247-254 | the step to the left keeps the items and leaves a left child that is left-leaning, balanced and ready for deletion, and delete continues there |
| Deletion.DeleteRightStep | llrb.go:255-272 | the step to the right keeps the items; on an equal key the node is either the last item or takes its right subtree's minimum, otherwise delete continues in a right child ready for deletion |
| Deletion.DeleteContents | llrb.go:243-276 | on a search tree, delete leaves exactly the items whose key differs from x's and returns the item with x's key, if there was one |
| Deletion.DeleteRightContents | llrb.go:255-272 | the same for the step to the right, including the case that replaces the node's item by its successor |
| Deletion.RightRemoved | llrb.go:270-272 | removing a larger key from the right subtree removes it from the whole node |
| Deletion.RootRemoved | llrb.go:265-269 | putting the right subtree's minimum in place of the node's item removes exactly the node's item |
| Deletion.DeleteShape | llrb.go:243-276 | delete keeps balance; from a node that is not a 2-node it keeps the left-leaning shape and black height and never turns a black node red |
| Deletion.DeleteRightShape | llrb.go:255-275 | the same for the step to the right |
| Deletion.SuccessorTailShape | llrb.go:265-269 | replacing the item by its successor and fixing up keeps balance, and from a node without two reds in a row keeps the shape and black height |
| Deletion.DeleteTailShape | llrb.go:270-275 | deleting from the right subtree and fixing up keeps balance, and from a node without two reds in a row keeps the shape and black height |
| Iteration.Iterate | llrb.go:302-341 | a walk never calls the callback more often than there are items |
| Iteration.AscRangeSplit | llrb.go:312-325 | the ascending range of a node comes only from the left subtree when the node is not below the upper bound, only from the right when it is below the lower bound, and otherwise is left range, node, right range |
| Iteration.DescRangeSplit | llrb.go:326-340 | the descending range of a node comes only from the right subtree when the node is not above the lower bound, only from the left when it is above the upper bound, and otherwise is right range, node, left range |
| Iteration.IterateAscending | llrb.go:312-325 | on a search tree, the ascending walk makes exactly the calls of a walk over the items in [start, end), in increasing order, stopping after the first false |
| Iteration.IterateDescending | llrb.go:326-340 | on a search tree, the descending walk makes exactly the calls of a walk over the items in (end, start], in decreasing order, stopping after the first false |
| HeightBounds.HeightByBlackHeight | llrb_test.go:311-322 | in a left-leaning balanced tree the depth is at most twice the black height, plus one under a red root |
| HeightBounds.SizeByBlackHeight | llrb_test.go:311-322 | a balanced tree of black height b holds at least 2^b - 1 items |
| HeightBounds.HeightBound | llrb_test.go:311-322 | a left-leaning balanced tree with a black root has 2^depth <= (n+1)^2, that is depth <= floor(2·log2(n+1)) |
| LLRB.LLRBTree.constructor | llrb.go:36-41 | a new tree is empty, satisfies the invariant, and uses the given comparator |
| LLRB.LLRBTree.CountMatches | llrb.go:126-129 | `len` is the number of items, the tree is empty exactly when the root is missing, and the items are strictly sorted |
| LLRB.LLRBTree.DepthBound | llrb_test.go:311-315 | the tree's depth is at most floor(2·log2(len+1)) |
| LLRB.LLRBTree.ReplaceOrInsert | llrb.go:43-55 | the items become the replace-or-insert of item; the result is the item that compared equal, if any; `len` grows by one exactly when there was none; the invariant and black root are kept |
| LLRB.LLRBTree.Get | llrb.go:57-73 | the search loop returns the stored item that compares equal to the probe, or nothing when there is none; the tree is not changed |
| LLRB.LLRBTree.Has | llrb.go:75-79 | true exactly when some stored item compares equal to the probe |
| LLRB.LLRBTree.DeleteMin | llrb.go:81-92 | on an empty tree: nothing, root stays missing, `len` 0; otherwise returns the smallest item, which is below every remaining one, removes exactly it and decrements `len`; the invariant is kept |
| LLRB.LLRBTree.DeleteMax | llrb.go:94-105 | on an empty tree: nothing, root stays missing, `len` 0; otherwise returns the largest item, which is above every remaining one, removes exactly it and decrements `len`; the invariant is kept |
| LLRB.LLRBTree.Delete | llrb.go:107-118 | removes exactly the item comparing equal to the probe and returns it; when there is none, returns nothing and keeps the contents; `len` drops exactly when something was removed; the invariant is kept |
| LLRB.LLRBTree.Clear | llrb.go:120-124 | the tree becomes empty with `len` 0 |
| LLRB.LLRBTree.Len | llrb.go:126-129 | the number of stored items |
| LLRB.LLRBTree.AscendRange | llrb.go:131-138 | the callback is called on the items with greaterOrEqual <= e < lessThan in increasing order, stopping after the first false |
| LLRB.LLRBTree.AscendLessThan | llrb.go:140-147 | the same for the items e < pivot |
| LLRB.LLRBTree.AscendGreaterOrEqual | llrb.go:149-156 | the same for the items e >= pivot |
| LLRB.LLRBTree.Ascend | llrb.go:158-165 | the callback is called on all items in order, stopping after the first false |
| LLRB.LLRBTree.DescendRange | llrb.go:167-174 | the callback is called on the items with greaterThan < e <= lessOrEqual in decreasing order, stopping after the first false |
| LLRB.LLRBTree.DescendLessOrEqual | llrb.go:176-183 | the same for the items e <= pivot |
| LLRB.LLRBTree.DescendGreaterThan | llrb.go:185-192 | the same for the items e > pivot |
| LLRB.LLRBTree.Descend | llrb.go:194-201 | the callback is called on all items in exactly the reverse order, stopping after the first false |
| LLRB.DrainMin | llrb_test.go:75-80 | calling DeleteMin at least once per item leaves the root missing and the count 0; the returned items are exactly the old contents, in increasing order |
| LLRB.DrainMax | llrb_test.go:82-87 | calling DeleteMax at least once per item leaves the root missing and the count 0; the returned items are exactly the old contents in reverse |
| Maps.EntryOrder | map.go:18-20 | the key the map's tree orders its entries by agrees with compareMapEntry on every pair of entries |
| Maps.ValueOf | map.go:46-50 | the value of a found entry, and nothing when no entry was found |
| Maps.OnEntryCalls | map.go:68-70 | the callback given to the tree hands each entry's key and value to the map's callback |
| Maps.CompareMapEntry | map.go:18-20 | entries compare by key alone: equal exactly when the keys are equal (whatever the values), smaller exactly when the key is smaller |
| Maps.LLRBMap.constructor | map.go:22-27 | a new map is empty: every lookup gives nothing |
| Maps.LLRBMap.Set | map.go:29-41 | returns the previous value under the key, if any; afterwards the key maps to the new value, all other keys are unchanged, and the size grows by one exactly for a new key |
| Maps.LLRBMap.Get | map.go:43-51 | the value stored under the key, or nothing |
| Maps.LLRBMap.Delete | map.go:53-62 | returns the value that was under the key, if any; afterwards the key is absent, other keys are unchanged, and the size drops exactly when the key was present |
| Maps.LLRBMap.Range | map.go:64-71 | the callback is called on the (key, value) pairs in strictly increasing key order, stopping after the first false |
| Maps.LLRBMap.Has | map.go:73-77 | true exactly when the key has a value |
| Maps.LLRBMap.Len | map.go:79-82 | the number of entries |
| Maps.LLRBMap.Clear | map.go:84-87 | the map becomes empty: every lookup gives nothing |
| Sets.FindValue | set.go:43-47 | with values as their own keys, the lookup succeeds exactly on the stored values |
| Sets.UpsertValues | set.go:22-27 | inserting a value adds exactly that value to the stored ones |
| Sets.RemoveValues | set.go:29-34 | deleting a value takes exactly that value out of the stored ones |
| Sets.SortedWithin | set_test.go:18-23 | strictly increasing values drawn from [lo, hi) are at most hi - lo many |
| Sets.LLRBSet.constructor | set.go:15-20 | a new set is empty |
| Sets.LLRBSet.Insert | set.go:22-27 | reports whether the value was already present; afterwards the set is the old one plus the value |
| Sets.LLRBSet.Delete | set.go:29-34 | reports whether the value was present; afterwards the set is the old one minus the value |
| Sets.LLRBSet.Range | set.go:36-41 | the callback is called on the values in strictly increasing order, stopping after the first false |
| Sets.LLRBSet.Has | set.go:43-47 | true exactly when the value is in the set |
| Sets.LLRBSet.Len | set.go:49-52 | the number of distinct values |
| Sets.LLRBSet.CountWithin | set_test.go:18-23 | a set whose values all lie in [lo, hi) has at most hi - lo of them |
| Sets.LLRBSet.Clear | set.go:54-57 | the set becomes empty |

## Left out

- Nodes are immutable values, not heap objects. `rotateLeft`, `rotateRight`, `colorFlip`, `fixUp`, `moveRedLeft`, `moveRedRight`, `insert`, `delete`, `deleteMin` and `deleteMax` rewire pointers and overwrite fields in place. Here each one is a function returning the new subtree root, which most of the Go functions also return. `colorFlip` returns nothing in Go; here it returns the recoloured node. So the model does not capture aliasing between nodes or the reuse of node objects. Only the public `LLRBTree`, `LLRBMap` and `LLRBSet` classes hold mutable state (`root`, `len`, `tr`).
- The comparator is an integer key function. It stands only for total orders that embed in the integers. Orders that do not, such as lexicographic string order (used by `NewMap[string, string]` in the map tests), are not modelled, and neither are floating-point keys or NaN. The map's keys and the set's values are integers; the map's values are of a generic type.
- A comparator that is nil, or not a total order, is not modelled. The tree is built with a comparator, and `Valid()` assumes it orders the items.
- Adding a nil item (a panic in Go) is not modelled.
- Go's zero value in the `(zero, false)` results is modelled as `None`. The probe entry the map passes to `Get`, `Has` and `Delete` carries an arbitrary value, because only its key is compared.
- `iterate`'s callback is a pure predicate. Its side effects are not modelled; the model returns the sequence of items the callback was called on.
- `iterate`'s boolean result is not returned by the public Ascend/Descend entry points, because they discard it in Go too. `Iteration.Iterate` returns it, and `Visit` specifies it.
- LLRB.LLRBTree.Len: returns an unbounded integer. Go's `int` overflow of `len` is not modelled, because a tree would need 2^63 nodes to reach it.
- HeightBounds.HeightBound: states the test's floating-point check `depth <= int(2*log2(len+1))` as the integer inequality 2^depth <= (len+1)^2. For integer depths the two say the same thing. The floating-point rounding of `math.Log2` is not modelled.
- `New` (used by `NewMap`) and `NewSet`'s `cmp.Compare` comparator are both modelled by the `LLRBTree` constructor with a key function. `New` is not part of this model.
- Concurrency is not modelled: the code has no synchronisation.
- The test harness is not modelled. Some test checks are restated as members: the depth bound (`DepthBound`), the set size bound (`CountWithin`), and draining the tree by DeleteMin or DeleteMax (`DrainMin`, `DrainMax`).
