# A verified model of the `btree` B+-tree

`btree.h` implements a B+-tree-like search tree that is generic over a totally
ordered value type `T`. Values live in sorted `data` vectors in the leaves.
Internal nodes hold sorted separator `keys` and one more `children` pointer
than keys. Every node points at its `parent`. A node that holds more than `m`
values or keys splits in two: it keeps its left half, a new sibling takes the
right half, and a middle key goes up into the parent at its `lower_bound`
position. A node without a parent first receives a fresh parent, which
becomes the new root. The split then repeats in the parent. Insertion, search
and erase descend from the root by taking `children[lower_bound(keys, d)]`,
or the last child when every key is below `d`.

The model keeps the nodes in an arena (`seq<Node>`), addressed by index:

- `Node = Leaf(data, parent) | Internal(keys, children, parent)`.
- `parent` and `children` hold arena indices.
- The class `BTrees.BTree` owns the arena, the `root` index and `m`. Its
  methods perform the same vector updates as the source, one step at a time.
- Two ghost sequences support the proofs. `level` gives each node's height
  above the leaves. `range` gives each node's interval `(lo, hi]` of values.

`Arena.TreeInv` collects the invariants:

- leaves sit at level 0, and an internal node has `|keys| + 1` children one
  level below it;
- parent pointers agree with the child lists, and only the root has no
  parent;
- every vector strictly increases and lies inside its node's interval;
- child `j` of a node gets exactly the interval `(keys[j-1], keys[j]]`.

`Arena.FanOut` says no node holds more than `m` values. `Elements` is the set
of values below a node, and `Route` is the descent.

The modules:

- `SortedSeq`: `lower_bound`, positional insert and erase, the linear scans.
- `Arena`: nodes and invariants.
- `Routing`: what the descent finds.
- `LeafUpdate`: leaf insert and erase.
- `Split`: growing a root, promotion, the leaf split.
- `SplitInternal`: the internal split, and the split as written.
- `BTrees`: the class.

## Model

| member | source | states |
|---|---|---|
| SortedSeq.LowerBound | btree.h:91 | `std::lower_bound`: every element before the result is below `x`, and the element at the result, if any, is at least `x` |
| SortedSeq.InsertAt | btree.h:232 | `vector::insert` at position `k`: the result is one longer, holds `x` at `k`, the old elements before `k` in place and the rest shifted up by one |
| SortedSeq.RemoveAt | btree.h:241 | `vector::erase` at position `k`: the result is one shorter, with the elements before `k` in place and the rest shifted down by one |
| SortedSeq.InsertAtLowerBound | btree.h:229-232 | leaf insert at the lower bound keeps `data` sorted and its multiset gains exactly one copy of `d`, duplicates allowed |
| SortedSeq.InsertAtLowerBoundStrict | btree.h:229-232 | with distinct values the leaf stays strictly increasing and its set of values gains exactly `d` |
| SortedSeq.RemoveFirstOccurrence | btree.h:237-243 | leaf erase of the first equal element removes exactly one copy of `d` |
| SortedSeq.RemoveFromStrict | btree.h:237-243 | on a strictly increasing leaf, erase keeps the order and the set of values loses exactly `d` |
| SortedSeq.IndexOf | btree.h:237-244 | the linear scan returns the first position holding `d`, or the length when there is none |
| SortedSeq.CopyFrom | btree.h:47-50 | the `push_back` loop copies exactly the elements from the start position on |
| Arena.Route | btree.h:112-122 | the descent from any node ends at a leaf of the arena; what that leaf holds is stated by `Routing.RouteFinds` |
| Routing.ChildIndexUnique | btree.h:91-103 | a value in the interval of child `j` is routed to child `j`, because `j` is its lower bound in the keys |
| Routing.LowerBoundChildRange | btree.h:114-121 | the child the descent takes has an interval that contains the value, including the last child when every key is below it |
| Routing.ElementsInRange | btree.h:89-104 | every value below a node lies in that node's interval |
| Routing.RouteKeepsRange | btree.h:112-122 | a value of a node's interval lies in the interval of the leaf the descent reaches |
| Routing.RouteFinds | btree.h:112-122 | a value is in the subtree exactly when it is in the leaf the descent reaches |
| LeafUpdate.WithLeafData | btree.h:229-245 | a leaf update replaces that leaf's `data` and keeps its parent; every other node is unchanged |
| LeafUpdate.LeafUpdateKeepsInv | btree.h:229-245 | new leaf values that increase and lie in the leaf's interval keep the tree invariant |
| LeafUpdate.InsertIntoRoutedLeaf | btree.h:229-232 | inserting an absent `d` at its lower bound in the routed leaf keeps the invariant and adds exactly `d` to the contents |
| LeafUpdate.EraseFromRoutedLeaf | btree.h:235-245 | erasing a copy of `d` found in the routed leaf keeps the invariant and removes exactly `d` from the contents |
| Split.GrowRoot | btree.h:60-68 | a fresh internal node with no key, the old root as its only child and no parent is added; the old root keeps its values and children and now points at it; nothing else changes |
| Split.GrowRootKeepsInv | btree.h:60-68 | a fresh parent for the root keeps the invariant, adds exactly one level and keeps the contents and the fan-out |
| Split.GrowRootElements | btree.h:62-67 | the new root holds exactly what the old root held |
| Split.NonRootHasParent | btree.h:60-70 | every node other than the root has an internal parent with one more child than keys |
| Split.PlaceInParent | btree.h:211 | the splitting node sits at exactly one position `b` of its parent's children, and every value of its interval routes to `b` |
| Split.Promote | btree.h:70-81 | the parent gains one key and one child and keeps one more child than keys; the promoted key sits at its lower bound `b`, the child at `b` (the split node) stays there and the sibling follows at `b + 1`; no other node changes |
| Split.PromotedChildRanges | btree.h:211-222 | inserting the key at `b` and the sibling at `b + 1` splits child `b`'s interval at the key and shifts the later ones |
| Split.PromotedParentOk | btree.h:70-83 | after the promotion the parent's keys stay strictly increasing, it keeps one more child than keys, and every child has the interval its keys assign |
| Split.SplitLeafNodes | btree.h:189-228 | the leaf keeps its first `m/2 + 1` values and the sibling at the arena's end the rest, so the two halves concatenate to the old data; both hang below the old parent, which gains `data[m/2]` |
| Split.SplitLeafFacts | btree.h:189-224 | after a leaf split the leaf holds `data[0..m/2]`, the sibling the rest, and the parent gains `data[m/2]` at its lower bound and the sibling after the leaf; nothing else changes |
| Split.SplitLeafData | btree.h:194-199 | the two halves concatenate back to the old data, the promoted value is the left half's last, and each half lies on its side of it |
| Split.SplitLeafHalves | btree.h:193-199 | both halves of a leaf split satisfy the per-node invariants |
| Split.SplitLeafParent | btree.h:211-224 | the parent satisfies the per-node invariants after the promotion |
| Split.SplitLeafOther | btree.h:189-228 | every other node satisfies the per-node invariants after a leaf split |
| Split.SplitLeafShape | btree.h:189-228 | the arena after a leaf split satisfies the tree invariant |
| Split.SplitElements | btree.h:189-228 | a split changes the contents of no subtree |
| Split.SplitLeafContents | btree.h:189-228 | a leaf split keeps the tree's contents |
| Split.SplitLeafFanOut | btree.h:191-199 | with `m >= 1` both halves hold at most `m` values and the parent gains exactly one key |
| Split.SplitLeafKeepsInv | btree.h:189-228 | a leaf split keeps the invariant and the contents, and only the parent may now exceed `m`, by one key |
| SplitInternal.Adopt | btree.h:53-57 | the adopted nodes point at the sibling; no other node changes, and no node's values or children change |
| SplitInternal.SplitInternalNodes | btree.h:41-87 | the corrected internal split below an existing parent adds exactly one node, the sibling; what each node becomes is stated by `SplitInternal.SplitInternalHalves` and `SplitInternal.SplitInternalFacts` |
| SplitInternal.SplitInternalHalves | btree.h:45-83 | the node's keys, the promoted key and the sibling's keys are the old keys in order; the two child lists are the old children in order; each half has one child more than keys; the parent receives the promoted key |
| SplitInternal.SplitInternalFacts | btree.h:41-83 | after an internal split the node keeps `keys[0..m/2)` and its first `m/2 + 1` children, the sibling takes the rest, and the parent gains `keys[m/2]` and the sibling |
| SplitInternal.SplitKeys | btree.h:46-51 | the two key halves stay increasing, lie on either side of the promoted key, and give every child its old interval |
| SplitInternal.SplitInternalLeft | btree.h:51-58 | the node keeps its first children, which still point at it, and satisfies the per-node invariants |
| SplitInternal.SplitInternalRight | btree.h:45-57 | the sibling adopts the remaining children and satisfies the per-node invariants |
| SplitInternal.SplitInternalParent | btree.h:70-83 | the parent satisfies the per-node invariants after the promotion |
| SplitInternal.SplitInternalMoved | btree.h:55 | a moved child keeps its invariants with its new parent |
| SplitInternal.SplitInternalOther | btree.h:41-87 | every other node keeps its per-node invariants |
| SplitInternal.SplitInternalShape | btree.h:41-87 | the arena after an internal split satisfies the tree invariant |
| SplitInternal.SplitChildrenElements | btree.h:53-58 | the node and its sibling together hold exactly what the node held |
| SplitInternal.SplitInternalContents | btree.h:41-87 | an internal split keeps the tree's contents |
| SplitInternal.SplitInternalFanOut | btree.h:43-58 | with `m >= 1` both halves hold at most `m` keys and the parent gains exactly one key |
| SplitInternal.SplitInternalKeepsInv | btree.h:41-87 | an internal split keeps the invariant and the contents, and only the parent may now exceed `m`, by one key |
| SplitInternal.SplitInternalAsWritten | btree.h:41-87 | the split as written loses no key and no child (the halves concatenate to the old vectors), but the node keeps `m/2` keys over `(m+1)/2` children |
| SplitInternal.AsWrittenArity | btree.h:51-58 | for odd `m` the split as written equals the corrected one; for even `m` neither half has one more child than keys |
| SplitInternal.ZeroFanOutRegrows | btree.h:43-85 | with `m == 0`, a root with one key and two children splits into a node with no key and no child and a new root that again has one key and two children, so the chain of splits never ends |
| SplitInternal.ExampleIsReady | btree.h:41-87 | the tree with `m == 2` that inserting 1 to 7 builds is a valid tree whose internal node is due to split |
| SplitInternal.ExampleAsWritten | btree.h:41-87 | on the example the split as written leaves node 1 with key 2 over leaf `[1, 2]` only, and hands leaves `[3, 4]`, `[5, 6]` and `[7]` to the sibling under key 6 |
| SplitInternal.AsWrittenStrandsValue | btree.h:53-58 | on the example, the descent for 3 reaches leaf `[1, 2]`, while leaf `[3, 4]` hangs below the sibling |
| SplitInternal.AsWrittenMisroutes | btree.h:112-122 | on the example, the descent for 5 goes to the sibling and then to leaf `[3, 4]`, while 5 is in leaf `[5, 6]` |
| SplitInternal.ExampleCorrected | btree.h:41-87 | on the example the corrected split keeps leaf `[3, 4]` as node 1's second child |
| BTrees.BTree.constructor | btree.h:294 | a new tree is a single empty leaf root with the given `m` |
| BTrees.BTree.Clear | btree.h:340-344 | the tree becomes a single empty leaf root again |
| BTrees.BTree.Descend | btree.h:89-104 | the loop reaches the leaf that routing assigns to `d` |
| BTrees.BTree.Search | btree.h:112-122 | returns a leaf exactly when `d` is in the tree, and that leaf is the routed one and holds `d` |
| BTrees.BTree.Erase | btree.h:106-110 | the contents lose exactly `d`; only the leaf the descent for `d` reaches may change, and the root, the levels, the ranges and the arena's size stay; erasing an absent value leaves the tree unchanged |
| BTrees.BTree.Insert | btree.h:229-233 | the contents gain exactly `d`, and the chain of splits restores the fan-out bound and the invariant |
| BTrees.BTree.SplitNode | btree.h:189-228 | does nothing unless the node exceeds `m`; otherwise it keeps the invariant and the contents, and hands the overflow to the parent, or to a new root that stays within `m` |
| BTrees.BTree.SplitBelowParent | btree.h:193-226 | splitting a non-root node keeps the invariant and the contents, and its parent gains exactly one key |
| BTrees.BTree.AddRoot | btree.h:201-209 | a fresh internal node with the root as its only child becomes the root |
| BTrees.BTree.SplitLeaf | btree.h:193-224 | the step-by-step leaf split produces the arena that `Split.SplitLeafNodes` describes |
| BTrees.BTree.SplitInternal | btree.h:45-83 | the step-by-step internal split produces the arena that `SplitInternal.SplitInternalNodes` describes |
| BTrees.BTree.MoveRightHalf | btree.h:45-58 | the sibling takes the keys and children after position `m/2`, and the moved children point at it |
| BTrees.BTree.PromoteInto | btree.h:211-222 | the key goes in at its lower bound and the sibling right after the split node, appended when the lower bound is the end |
| BTrees.BTree.AdoptChildren | btree.h:53-57 | each child from the start position on is re-parented to the sibling and handed to it |
| BTrees.SplitInternalMatches | btree.h:45-83 | the node-by-node description of the internal split is the arena `SplitInternalNodes` builds |

## Left out

- `print`, `print_histogram` and `print_keys` (btree.h:133-163, 260-283, 346-362) only write to the console.
- `deltree` and the destructor (btree.h:124-131, 255-258, 314-319, 333-337) release memory. `BTrees.BTree.Clear` resets the arena to one empty leaf, and old nodes are dropped rather than freed.
- `data_to_vector` (btree.h:305) is declared but never defined.
- graph.h, shortestPath.h and main.cpp are not part of this model. They are an unrelated graph, a declaration without a body, and a demo program.
- The value type `T` is `int`. Only `<` and `==` on it are used, as `std::lower_bound` and the leaf scans use them.
- `std::lower_bound` is modelled by its result (`SortedSeq.LowerBound`), not by its binary search.
- BTrees.BTree.Insert: requires that `d` is not yet in the tree. With duplicates, the source's `erase` can leave a copy stranded in a right sibling, so contents are stated as sets of distinct values.
- BTrees.BTree.constructor: requires `m >= 1`. With `m == 0` the chain of splits grows new roots without end; see Findings.
- BTrees.BTree.SplitInternal: cuts the children at `m/2 + 1`, not at `(m+1)/2` as btree.h:53 and 58 do; see Findings. The two agree for odd `m` (`SplitInternal.AsWrittenArity`).
- BTrees.BTree.MoveRightHalf: makes that corrected cut: the sibling takes the children after position `m/2`.
- SplitInternal.SplitInternalNodes: defines the corrected cut, and its own contract states only that the arena gains the sibling; the halves are stated by `SplitInternal.SplitInternalHalves` and `SplitInternal.SplitInternalFacts`.
- SplitInternal.SplitInternalHalves, SplitInternal.SplitInternalFacts, SplitInternal.SplitKeys, SplitInternal.SplitInternalLeft, SplitInternal.SplitInternalRight, SplitInternal.SplitInternalParent, SplitInternal.SplitInternalMoved, SplitInternal.SplitInternalOther, SplitInternal.SplitInternalShape, SplitInternal.SplitChildrenElements, SplitInternal.SplitInternalContents, SplitInternal.SplitInternalFanOut, SplitInternal.SplitInternalKeepsInv, BTrees.SplitInternalMatches: are about the corrected cut at `m/2 + 1`, not about the cut at `(m+1)/2` of btree.h:58.
- BTrees.BTree.SplitNode: when the splitting node is the root, the new root is created before the sibling. The source creates the sibling first. Only the arena indices of the two new nodes differ.
- The recursive `parent->split()` call (btree.h:85, 226) is the loop in `BTrees.BTree.Insert`, one `SplitNode` call per level.
- `internal::erase` searches twice (btree.h:108-109). The model searches once, which finds the same leaf.

## Findings

| source | as written | input that shows it | evidently intended | confidence | as-written member | corrected member |
|---|---|---|---|---|---|---|
| btree.h:53, 58 | the internal split keeps `children[0..(m+1)/2)` while it keeps `keys[0..m/2)`; for even `m` the node keeps as many children as keys, and the sibling two more than its keys | `m = 2`, insert 1, 2, ..., 7 into an empty tree: the root's keys become `[2, 4, 6]` and it splits; node 1 keeps key `[2]` over the single leaf `[1, 2]`, the sibling takes key `[6]` over `[3, 4]`, `[5, 6]`, `[7]`, so `search(3)` reaches `[1, 2]` and `search(5)` reaches `[3, 4]`, and both miss | keep `children[0..m/2]`, cutting at `m/2 + 1` | not executed | SplitInternal.AsWrittenStrandsValue | SplitInternal.SplitInternalKeepsInv |
| btree.h:43, 58 | nothing rejects `m == 0`; then every split hands all children to the sibling, and the new root again holds one key, more than `m` | `m = 0`, insert any value into an empty tree: the leaf splits, its new root holds one key and splits, and so on without end | require `m >= 1` | not executed | SplitInternal.ZeroFanOutRegrows | BTrees.BTree.Insert |

In `btree.h` equal keys route to the LEFT child, because the descent takes
`children[lower_bound(keys, d)]`. A leaf split keeps the promoted value in the
left leaf, which is consistent with this. The child intervals `(keys[j-1], keys[j]]`
follow the code.
