# B+-tree of `BTree.cpp`, modelled and verified in Dafny

This project models the B+-tree class `BTree<T>` of BTree.cpp: a tree of
pages of fixed degree `deg`, where leaves hold the (key, value) pairs in a
doubly linked chain and routers (`NODE_ROOT` / `NODE_INTERNAL` pages) hold
separator keys and children. It covers the constructor, `findLeaf`, `set`
with its upward split cascade, `remove(key)`, the recursive
`remove(key, curr)` with its borrow / merge / root-collapse repairs, `find`
and `empty`.

How the C++ objects map onto Dafny:

- The pages live in an arena, `nodes: map<nat, Node<V>>`, a field of the class
  `BPlusTree.BTree<V>`. The pointers `children`, `parent`, `prev` and `next`
  become arena indices. A page is a `Node` value (module `Nodes`) with the
  same fields as the C++ page; `Size()` is the number of keys.
- `deg`, `depth` and `root` are fields of the class, as in BTree.h. `nextId` is
  the arena's allocator.
- Ghost fields `levels` (the pages of each level, left to right, leaves first)
  and `level` (each page's level) describe the layout. The structural
  invariant `Shape.Wf` is stated over them:
  - every page sits on one level, and the children of level `h + 1`, read
    left to right, are exactly level `h`;
  - leaves sit on level 0 and routers above it; a router has one more child
    than keys; only the root has no parent;
  - parent pointers agree with children lists;
  - the leaf chain `prev` / `next` runs through level 0 in order.
- The search order is a second invariant, `Fences.Fenced`, over a ghost field
  `fence` that gives every page the range of keys it owns. The root owns all
  keys, and child `t` of a router owns the part of its parent's range between
  separators `t - 1` and `t`. Every page's keys are sorted and lie in its
  range. Each operation comes with the new ranges it leaves behind:
  - a split cuts the page's range at the key that goes up;
  - a borrow moves the boundary between two siblings to the new separator;
  - a merge joins the two siblings' ranges;
  - a collapse and a leaf rewrite change no range.
- With the search order, the descent of `findLeaf` reaches the only leaf that
  can hold a key. So `find` returns a value exactly for the tree's entries,
  and `set` and `remove` change what `find` returns for their key only.
- `Contents()` is the tree's (key, value) pairs: the leaves' entries read
  along the chain. Every operation is specified by its effect on `Contents()`
  and on the page layout.
- Loops stay loops. `findLeaf` and the split cascade of `set` are `while`
  loops with invariants. The recursion of `remove(key, curr)` is a recursive
  method that climbs one level per call.
- The lower occupancy bound is a third property, `Occupancy.Balanced`: every
  page other than the root holds at least `ceil(deg / 2) - 1` keys, and a
  root router at least one key once that bound is positive. The constructor
  establishes it, and `set` and `remove` keep it.
- The operations that restructure the tree (a split, a borrow, a merge, a
  root collapse) assign all fields at once through `Commit`; the leaf and
  router rewrites of `set` and `remove` assign `nodes` and `fence` directly.

Node.cpp is not part of this model. The page primitives the tree calls
(`keyInsertIndex`, `findKey`, `set`, `removeFromLeaf`, `removeFromInternal`,
`splitNode`, `indexOfChild`, the borrow and merge operations) are defined
here from how BTree.cpp uses them and from the usual B+-tree conventions:

- a split keeps the lower `size / 2` keys and moves the rest to a fresh right
  sibling. A leaf copies its middle key up; a router moves its middle key up.
  Without a parent, a fresh root is made.
- a borrow moves one entry (at a leaf) or one child together with the
  separator (at a router) across the separator, which is updated.
- a merge appends the right page, and for routers the separator too, to the
  left page; the right page leaves the tree.
- `removeFromInternal(key)` replaces a separator equal to `key` with the first
  key of the leftmost leaf to its right, keeping the router's size. This
  differs from a plain "drop the key and a child" reading, which would
  orphan a subtree in a tree that keeps a separator for every child.

## Model

| member | source | states |
|---|---|---|
| BPlusTree.BTree.constructor | BTree.cpp:4-8 | a new tree is one empty leaf which is the root, depth is 1, the tree is well formed and in search order, holds no entries, find returns nothing for every key, every page is below `deg` keys and meets the lower occupancy bound |
| BPlusTree.BTree.FindLeaf | BTree.cpp:15-25 | the loop ends at a leaf of the bottom level, it is the leaf the descent picks for the key, and it takes exactly `depth - 1` steps |
| BPlusTree.BTree.Find | BTree.cpp:134-144 | a value comes back exactly when the leaf findLeaf reaches holds the key, and that (key, value) pair is an entry of the tree |
| BPlusTree.BTree.FindMeansIn | BTree.cpp:134-144 | find returns v for k exactly when (k, v) is an entry of the tree |
| BPlusTree.BTree.FindKept | BTree.cpp:134-144 | between two valid states whose entries agree on every key other than `key`, find agrees on every key other than `key` |
| BPlusTree.BTree.ContentsInOrder | BTree.cpp:15-25 | the tree's entries, read along the leaf chain, have strictly increasing keys |
| BPlusTree.BTree.Empty | BTree.cpp:176-179 | true exactly when the root holds no keys; for a single-leaf tree, exactly when the tree has no entries |
| BPlusTree.BTree.Set | BTree.cpp:27-48 | the tree stays well formed and in search order and then holds (key, val); a present key has only its value overwritten, with root, depth and pages unchanged; a new key is inserted as one entry after every smaller key and before every larger one; depth grows by at most one, and then the new root holds one key; no page is lost; pages stay below `deg` keys and the lower occupancy bound is kept; afterwards find returns val for key and what it returned before for every other key |
| BPlusTree.BTree.PutInLeaf | BTree.cpp:29-36 | Node::set on the leaf findLeaf reaches: the new arena is the old one with that leaf rewritten; `added` says the key was new; the entries change by one overwrite at the key's entry or one insertion |
| BPlusTree.BTree.SplitUpward | BTree.cpp:38-47 | the split cascade keeps the invariant and the entries, never loses a page, adds at most one level (then the root holds one key), leaves every page below `deg` keys when only the starting leaf had reached `deg`, and keeps the lower occupancy bound |
| BPlusTree.BTree.SplitPage | BTree.cpp:39-44 | one splitNode with the root and depth update: a new root exactly when the page was the root (then it is the root and depth grows by one); the page keeps `size / 2` keys and the fresh sibling the rest, less the key that goes up at a router; the parent gains one key, or the fresh root holds one, and sits one level up; no other page changes; the lower occupancy bound is kept |
| BPlusTree.BTree.Remove | BTree.cpp:50-58 | when the leaf findLeaf reaches holds the key, exactly one entry with that key leaves the tree; otherwise the tree is unchanged; the invariant and the search order hold, the lower occupancy bound is kept, and for odd `deg` pages stay below `deg` keys; afterwards find returns nothing for key and what it returned before for every other key |
| BPlusTree.BTree.RemoveFrom | BTree.cpp:60-132 | the recursive remove keeps the invariant; at a leaf holding the key exactly that entry goes and no entry with the key is left, otherwise the entries stay; for odd `deg` pages stay below `deg` keys; a tree that is balanced, or balanced but for the router curr one key short, is balanced when the walk ends |
| BPlusTree.BTree.RemoveKey | BTree.cpp:64-68 | removeFromLeaf or removeFromInternal: the layout is unchanged, no page grows, and only a leaf holding the key loses an entry, after which no entry has the key; afterwards only curr may be one key short of the lower bound |
| BPlusTree.BTree.RemoveFromLeafPage | BTree.cpp:65 | removeFromLeaf: the layout is unchanged, no page grows, the key's entry goes when the leaf holds it and nothing changes otherwise; a balanced tree is left balanced but for curr, at most one key short |
| BPlusTree.BTree.RemoveFromRouterPage | BTree.cpp:67 | removeFromInternal: the layout and the entries are unchanged and no page grows, so a tree balanced but for curr stays so |
| BPlusTree.BTree.Repair | BTree.cpp:70-131 | the new arena is the old one with the repair RepairFix chooses applied: nothing while curr holds minCapacity keys, a collapse of an empty root router, else a borrow from or a merge with a sibling under the same parent; after a collapse the walk stops with the child as root and depth one less; otherwise root and depth stay and the walk goes on with the parent of the surviving page, a router one level above curr; invariant and entries are kept, and for odd `deg` pages stay below `deg` keys |
| BPlusTree.BTree.RepairRouter | BTree.cpp:86-110 | the Internal branch: the new arena is the old one with RouterFix's choice applied (borrow from the right neighbour among the parent's children when it holds more than minCapacity keys, else from the left one, else merge with the right one, else with the left one, else nothing) and x is the page that survives; invariant, entries, depth and root are kept |
| BPlusTree.BTree.MergeRouter | BTree.cpp:105-110 | when neither neighbour lends: merge with the right neighbour under the parent when there is one, otherwise the left-hand case; the arena is RouterFix's choice applied and x the surviving page |
| BPlusTree.BTree.RepairRouterLeft | BTree.cpp:103-110 | the Internal branch once the right neighbour does not lend: borrow from the left neighbour when it holds more than minCapacity keys, otherwise the merge cases; the arena is RouterFix's choice applied, x is the surviving page, and invariant, entries, depth and root are kept |
| BPlusTree.BTree.MergeRouterLeft | BTree.cpp:107-110 | merge with the left neighbour under the parent, after which the walk goes on from that neighbour, or nothing when there is none; the arena is RouterFix's choice applied |
| BPlusTree.BTree.RepairLeaf | BTree.cpp:111-126 | the Leaf branch: the new arena is the old one with LeafFix's choice applied, the siblings taken along the leaf chain and kept only when they share curr's parent, in the same order of preference as for routers; x is the page that survives; invariant, entries, depth and root are kept |
| BPlusTree.BTree.RepairLeafLeft | BTree.cpp:118-125 | when the next leaf does not lend: borrow from the previous leaf when it lends, otherwise the merge cases; the arena is LeafFix's choice applied |
| BPlusTree.BTree.MergeLeaf | BTree.cpp:120-125 | when neither chain neighbour lends: merge with the next leaf when it shares the parent, otherwise the left-hand case; the arena is LeafFix's choice applied and x the surviving page |
| BPlusTree.BTree.MergeLeafLeft | BTree.cpp:122-125 | merge with the previous leaf when it shares the parent, after which the walk goes on from it, or nothing; the arena is LeafFix's choice applied |
| BPlusTree.BTree.BorrowRight | BTree.cpp:101-102 | the new arena is exactly the borrow from the right sibling (leaf or router form); invariant, entries and layout are kept; the borrowing page gains exactly one key and no other page grows |
| BPlusTree.BTree.BorrowLeft | BTree.cpp:103-104 | the new arena is exactly the borrow from the left sibling (leaf or router form); invariant, entries and layout are kept; the borrowing page gains exactly one key and no other page grows |
| BPlusTree.BTree.MergeAt | BTree.cpp:105-109 | the new arena is exactly the merge of the two siblings; invariant and entries are kept, exactly the right page is removed, and the left page holds both pages' keys (plus the separator for routers) and stays on its level |
| BPlusTree.BTree.CollapseRoot | BTree.cpp:71-85 | the new arena is exactly the collapse: the empty root router is removed, its only child becomes the root, depth drops by one, and entries and page sizes are kept |
| BPlusTree.UpsertWf | BTree.cpp:32 | Node::set on a leaf keeps the invariant; the entries change by one overwrite at the key's position or by one insertion |
| BPlusTree.UpsertConcat | BTree.cpp:32 | Node::set inside a stretch of entries overwrites the key's entry in place or inserts it, and the pair is then present |
| BPlusTree.PutStep | BTree.cpp:29-32 | Node::set on the leaf the descent reaches keeps the invariant and the search order, and upserts exactly the key's entry |
| BPlusTree.UpsertedOthers | BTree.cpp:32 | after an upsert, the entries under every other key are the same as before |
| BPlusTree.DropStep | BTree.cpp:65 | removeFromLeaf keeps the invariant and the search order; a held key loses its entry and no entry with the key remains, otherwise nothing changes |
| BPlusTree.DroppedOthers | BTree.cpp:65 | after removing one entry, the entries under every other key are the same as before |
| BPlusTree.RouterStep | BTree.cpp:67 | removeFromInternal keeps the invariant, the search order (with the ranges below the separator moved) and the entries, and no page grows |
| BPlusTree.PutBounded | BTree.cpp:32-38 | an overwrite keeps pages below `deg` keys; an insertion leaves at most `deg` keys in the leaf and the other pages below `deg` |
| BPlusTree.BoundedAfterSplit | BTree.cpp:38-47 | after a split of a page holding at most `deg` keys, in a tree whose other pages were below `deg`, every page except the parent is below `deg` keys |
| BPlusTree.CascadeStep | BTree.cpp:38-46 | one split of the cascade carries its loop invariant to the parent: the bound of `deg` keys on all but the next page, and the lower occupancy bound |
| BPlusTree.InsertionPlace | BTree.cpp:32 | an insertion whose result has increasing keys puts the entry after every smaller key and before every larger one |
| BPlusTree.RouterUnder | BTree.cpp:87-88 | an Internal page has a parent router that lists it among its children |
| BPlusTree.BoundedAfterBorrow | BTree.cpp:101-104 | a borrow keeps pages below `deg` keys when the borrowing page had room for one more |
| BPlusTree.BoundedAfterMerge | BTree.cpp:105-108 | a merge keeps pages below `deg` keys when the surviving page stays below it |
| BPlusTree.SingleLeafWf | BTree.cpp:5-7 | one empty leaf alone is a well-formed tree of depth 1 with no entries |
| Nodes.KeyInsertIndex | BTree.cpp:20 | keyInsertIndex: every key before the index is at most `key` and the key at the index is greater |
| Nodes.KeyInsertIndexUnique | BTree.cpp:20 | on sorted keys that index is the only one with this property |
| Nodes.FindKey | BTree.cpp:30 | findKey: -1 exactly when the key is absent, otherwise the first index holding it |
| Nodes.IndexOfChild | BTree.cpp:88 | indexOfChild: the first position of the child |
| Nodes.SetInLeaf | BTree.cpp:32 | Node::set: a present key keeps the keys and has its entry overwritten; a new key is inserted at keyInsertIndex together with its value |
| Nodes.SetInLeafSorted | BTree.cpp:32 | Node::set keeps a leaf's keys sorted and the key is then present |
| Nodes.RemoveFromLeaf | BTree.cpp:65 | removeFromLeaf: an absent key changes nothing; a present key loses its entry at findKey's index |
| Nodes.RemoveFromLeafSorted | BTree.cpp:65 | on sorted keys, removeFromLeaf leaves the keys sorted, removes every occurrence of the key and keeps every other key |
| Descent.Descend | BTree.cpp:19-22 | the descent through keyInsertIndex ends at a leaf on the bottom level |
| Descent.StepsFromLevel | BTree.cpp:19-22 | from a page on level h the descent takes exactly h steps |
| Split.SplitNode | BTree.cpp:39 | splitNode makes a new root exactly when the page had no parent, and adds one or two pages |
| Split.SplitFacts | BTree.cpp:39 | splitNode page by page: the halves, the separator inserted after the page in its parent (or a fresh root with that one separator), the re-parented children, the leaf chain re-threaded, every other page unchanged |
| SplitProof.SplitWf | BTree.cpp:39-44 | a split of any page of a well-formed tree leaves it well formed with the updated layout and the same entries |
| SplitProof.SplitStep | BTree.cpp:38-46 | as above, and the page's parent after the split sits one level up (the loop's next page) |
| SplitProof.SplitNodeSizes | BTree.cpp:39 | after splitNode the page holds `size / 2` keys, the fresh sibling the rest less the key that goes up at a router, the parent one more key, a fresh root one key, and no other page changes |
| Split.Divide | BTree.cpp:39 | the halves of splitNode: the arena gains exactly the fresh page n; DivideFacts states each half |
| Split.DivideFacts | BTree.cpp:39 | page x keeps the first `size / 2` keys (and children up to there); the fresh page n takes the rest, less the middle key at a router, with x's parent; a leaf threads n after x in the chain; a router's moved children are re-parented to n |
| Rebalance.ShiftLeftLeaf | BTree.cpp:117 | borrowFromRightLeaf on children i and i + 1 of p: the left leaf gains the right leaf's first key, the right leaf loses one key, the parent keeps its size and its separator becomes the right leaf's new first key; ShiftProof.ShiftWf and PairFences.BorrowFromRightFenced prove the invariant, entries and search order kept |
| Rebalance.ShiftRightLeaf | BTree.cpp:119 | borrowFromLeftLeaf: the right leaf gains the left leaf's last key as its first, the left leaf loses one key, the parent keeps its size and that key becomes the separator; ShiftWf and BorrowFromLeftFenced prove the rest |
| Rebalance.ShiftLeftRouter | BTree.cpp:102 | borrowFromRightInternal: the left router gains the separator as its last key and the right router's first child, re-parented to it; the right router loses one key and the parent's separator becomes its old first key; ShiftWf and BorrowFromRightFenced prove the rest |
| Rebalance.ShiftRightRouter | BTree.cpp:104 | borrowFromLeftInternal: the right router gains the separator as its first key and the left router's last child, re-parented to it; the left router loses one key and its old last key becomes the separator; ShiftWf and BorrowFromLeftFenced prove the rest |
| Rebalance.MergeLeaves | BTree.cpp:120-124 | mergeWithRightLeaf / mergeWithLeftLeaf: the right leaf leaves the arena, the left leaf holds as many keys as both leaves and takes over the right one's chain successor, the parent loses one key; MergeProof.MergeWf and PairFences.MergePairFenced prove the rest |
| Rebalance.MergeRouters | BTree.cpp:105-109 | mergeWithRightInternal / mergeWithLeftInternal: the right router leaves the arena, the left router holds as many keys as both routers plus one (the separator) and as many children as both, the parent loses one key; MergeWf and MergePairFenced prove the rest |
| Rebalance.Collapse | BTree.cpp:72-84 | the empty root leaves the arena and its first child, unchanged in size, has no parent; CollapseProof.CollapseWf and PairFences.CollapseFenced prove the invariant one level lower, the entries and the search order |
| RemoveProof.BorrowFromRight | BTree.cpp:101-102 | the borrow from the right in its leaf or router form: the left page gains one key, the right page loses one, the parent keeps its size; its separator becomes the right page's first key (a leaf) or the right page's old first key (a router); BorrowFromRightWf and Occupancy.BorrowFromRightMoved prove the rest |
| RemoveProof.BorrowFromLeft | BTree.cpp:103-104 | the borrow from the left in its leaf or router form: the right page gains one key, the left page loses one, the parent keeps its size and its separator becomes the left page's old last key; BorrowFromLeftWf and BorrowFromLeftMoved prove the rest |
| RemoveProof.MergePair | BTree.cpp:105-108 | a merge in its leaf or router form: the right page leaves the arena, the left page holds as many keys as both pages (plus one, the separator, for routers), the parent loses one key; MergePairWf and MergePairJoined prove the rest |
| RepairChoice.Choose | BTree.cpp:101-110 | the order of preference: some repair exactly when a sibling passed the parent test; a borrow only from a sibling above minCapacity, from the right first; a merge only when the right sibling does not lend, the left-hand merge only with no right sibling at all |
| RepairChoice.RouterFix | BTree.cpp:86-110 | the Internal case: any repair it picks works on curr and a neighbour among curr's parent's children, with curr as the left page of a right-hand repair and the right page of a left-hand one; never a collapse |
| RepairChoice.LeafFix | BTree.cpp:111-126 | the Leaf case: any repair it picks works under curr's parent, which lists curr; never a collapse |
| RepairChoice.RepairFix | BTree.cpp:70-126 | a repair only for a page below minCapacity; a collapse exactly for an empty root router with a child; any other repair for a page with a parent, which it works under |
| RepairChoice.Survivor | BTree.cpp:105-110 | the page the walk goes on from: the left page of the pair after merge-left (`curr = prev`), curr after every other repair |
| Removal.RemoveWf | BTree.cpp:65 | removeFromLeaf keeps the invariant; the tree loses exactly the key's entry when the leaf holds it and nothing otherwise |
| Removal.Leftmost | BTree.cpp:67 | the leftmost descent from any page ends at a leaf of the chain |
| Removal.LeftmostFirst | BTree.cpp:67 | from the first page of any level, the leftmost descent ends at the first leaf of the chain |
| Removal.RemoveFromRouter | BTree.cpp:67 | removeFromInternal: no change when the key is absent; otherwise only the separator equal to the key changes, to the first key of the leftmost leaf to its right |
| Removal.RouterRewriteWf | BTree.cpp:67 | rewriting a router's separators keeps the invariant and the entries |
| ShiftProof.ShiftWf | BTree.cpp:101-104 | a borrow between two sibling pages keeps the invariant and the entries |
| MergeProof.MergeWf | BTree.cpp:105-108 | a merge of two sibling pages keeps the invariant with the right page dropped from its level, and keeps the entries |
| CollapseProof.CollapseWf | BTree.cpp:71-85 | an empty root collapses into its only child: the invariant holds one level lower and the entries are kept |
| RemoveProof.BorrowFromRightWf | BTree.cpp:101-102 | borrowFromRight keeps the invariant and the entries, and the borrowing page grows by exactly one key |
| RemoveProof.BorrowFromLeftWf | BTree.cpp:103-104 | borrowFromLeft keeps the invariant and the entries, and the borrowing page grows by exactly one key |
| RemoveProof.MergePairWf | BTree.cpp:105-108 | mergeWithRight / mergeWithLeft keep the invariant with the right page dropped, and keep the entries |
| RemoveProof.MergePairSizes | BTree.cpp:105-108 | after a merge the left page holds both pages' keys, plus the separator for routers; no other page grows |
| RemoveProof.RootKind | BTree.cpp:71 | a page is NODE_ROOT exactly when it is the root of a tree deeper than one level |
| RemoveProof.LeafSiblings | BTree.cpp:112-114 | a leaf's chain neighbour with the same parent is its neighbour among the parent's children |
| LeafUpdate.LeafEntryIn | BTree.cpp:140 | every entry of a leaf on the chain is an entry of the tree |
| LeafUpdate.LeafEntryFrom | BTree.cpp:140 | every entry of the tree is the entry at some index of some leaf on the chain |
| Fences.SlotIndex | BTree.cpp:20 | on sorted keys, keyInsertIndex picks the one child whose range holds the key |
| Fences.DescendWithin | BTree.cpp:19-22 | a key in a page's range stays in range all the way down to the leaf the descent reaches |
| Fences.RoutesFrom | BTree.cpp:15-25 | the descent from the root passes through every page whose range holds the key |
| Fences.LeafRoutes | BTree.cpp:15-25 | the only leaf that can hold a key is the one findLeaf reaches |
| Fences.FirstSeparatorAbove | BTree.cpp:67 | a router's first key lies above the lower bound of its range |
| Fences.LeafFenced | BTree.cpp:32 | rewriting a leaf keeps the search order when its keys stay sorted and are old ones or ones from its range |
| SplitFences.SplitFence | BTree.cpp:39 | the ranges after splitNode: the page keeps the range below the key that goes up, the new sibling takes the range from it, a fresh root owns every key |
| SplitFences.SplitFenced | BTree.cpp:39-44 | splitNode keeps the search order under those ranges |
| PairFences.Resep | BTree.cpp:101-104 | the ranges after a borrow: the boundary between the siblings moves to the new separator |
| PairFences.Join | BTree.cpp:105-108 | the ranges after a merge: the left page owns both siblings' ranges |
| PairFences.BorrowFromRightFenced | BTree.cpp:101-102 | borrowFromRight keeps the search order with the boundary moved to the new separator |
| PairFences.BorrowFromLeftFenced | BTree.cpp:103-104 | borrowFromLeft keeps the search order with the boundary moved to the new separator |
| PairFences.MergePairFenced | BTree.cpp:105-108 | a merge keeps the search order with the siblings' ranges joined |
| PairFences.CollapseFenced | BTree.cpp:71-85 | collapsing an empty root keeps the search order: its only child owns every key |
| RouterFences.RouterRemoveFenced | BTree.cpp:67 | removeFromInternal keeps the search order; the ranges on either side of the replaced separator move with it |
| SearchOrder.PutFenced | BTree.cpp:29-32 | Node::set on the leaf findLeaf reaches keeps the search order |
| SearchOrder.DropFenced | BTree.cpp:65 | removeFromLeaf keeps the search order |
| SearchOrder.SplitPageFenced | BTree.cpp:39-46 | a split in the cascade of set keeps the search order |
| SearchOrder.EntryFound | BTree.cpp:134-144 | for every entry (k, v) of the tree, the leaf findLeaf reaches for k holds k, with value v |
| SearchOrder.DropGone | BTree.cpp:65 | once removeFromLeaf has taken a key out of the leaf that held it, no leaf holds that key |
| KeyOrder.LevelRanges | BTree.cpp:19-22 | every level of a tree in search order, read left to right, owns ranges that follow each other |
| KeyOrder.ChainAscending | BTree.cpp:15-25 | the entries of leaves whose ranges follow each other have strictly increasing keys |
| KeyOrder.LeavesAscending | BTree.cpp:15-25 | the entries along the leaf chain of a tree in search order have strictly increasing keys |
| RepairChoice.BorrowsFromRight | BTree.cpp:101-102 | a borrow from a right sibling above minCapacity is the FromRight repair |
| RepairChoice.BorrowsFromLeft | BTree.cpp:103-104 | a borrow from a left sibling above minCapacity is the FromLeft repair |
| RepairChoice.RouterChoice | BTree.cpp:86-110 | the Internal case picks, in order, a borrow from the right neighbour, from the left one, a merge with the right one, with the left one, or nothing, each sibling counted only under the same parent |
| RepairChoice.RouterWithLeft | BTree.cpp:107-109 | when only the left-hand merge or nothing is left, a left neighbour under the parent makes it the left-hand merge |
| RepairChoice.RouterAlone | BTree.cpp:86-110 | with no left neighbour to merge with, in that case nothing is done |
| RepairChoice.LeafFromRight | BTree.cpp:116-117 | a next leaf under the same parent above minCapacity makes the leaf borrow from the right |
| RepairChoice.LeafFromLeft | BTree.cpp:118-119 | otherwise a previous leaf under the same parent above minCapacity makes it borrow from the left |
| RepairChoice.LeafWithRight | BTree.cpp:120-121 | when neither lends, a next leaf under the same parent makes it merge with the right |
| RepairChoice.LeafWithLeft | BTree.cpp:122-124 | when neither lends and there is no such next leaf, a previous leaf under the same parent makes it merge with the left |
| RepairChoice.LeafAlone | BTree.cpp:111-126 | a leaf with no chain neighbour under its parent is left alone |
| Occupancy.FloorBelowMin | BTree.cpp:62 | the lower bound is at most minCapacity = `deg >> 1`, and one below it at most |
| Occupancy.FloorAtMostLow | BTree.cpp:62 | the root's bound is at most one and never above the other pages' bound |
| Occupancy.GrownBalanced | BTree.cpp:32 | a page that does not shrink keeps the tree balanced (Node::set, removeFromInternal) |
| Occupancy.ShrunkBalanced | BTree.cpp:65 | a page that loses one key leaves the tree balanced but for that page (removeFromLeaf) |
| Occupancy.SplitBalanced | BTree.cpp:38-46 | a split of a page holding `deg` keys or more keeps the tree balanced, with a fresh root when the root split |
| Occupancy.SplitNodeBalanced | BTree.cpp:39-44 | splitNode with the root and depth update keeps the tree balanced |
| Occupancy.BorrowFromRightMoved | BTree.cpp:101-102 | borrowFromRight moves one key: the borrowing page gains one, the lending page loses one, every other page (the parent too) keeps its size |
| Occupancy.BorrowFromLeftMoved | BTree.cpp:103-104 | borrowFromLeft moves one key in the same way |
| Occupancy.MergePairJoined | BTree.cpp:105-108 | a merge: the right page leaves the arena, the left page holds at least both pages' keys, the parent loses one key, every other page keeps its size |
| Occupancy.BorrowBalanced | BTree.cpp:101-104 | a borrow from a sibling above minCapacity makes a tree balanced but for the borrower balanced |
| Occupancy.MergeBalanced | BTree.cpp:105-108 | a merge makes a tree balanced but for one of the two pages balanced but for their parent |
| Occupancy.CollapseBalanced | BTree.cpp:71-85 | collapsing the root into its child leaves the lower tree balanced |
| Occupancy.FixSpot | BTree.cpp:86-126 | the pair a repair works on: curr is the left page of a right-hand borrow or merge and the right page otherwise, and a lending sibling holds more than minCapacity keys |
| Occupancy.SiblingFix | BTree.cpp:93-99 | a short page that is not the root and has a neighbour under its parent is repaired |
| Occupancy.ParentWide | BTree.cpp:87-88 | in a balanced tree with a positive lower bound, the parent of a page other than the root has two children or more |
| Occupancy.RouterNeighbour | BTree.cpp:88-99 | a router whose parent has two children or more has a neighbour under that parent |
| Occupancy.LeafNeighbour | BTree.cpp:112-114 | a leaf whose parent has two children or more has a chain neighbour under that parent |
| Occupancy.SettledBelow | BTree.cpp:70-126 | with a positive lower bound, a short page other than the root is always repaired |
| Occupancy.Settled | BTree.cpp:70-126 | a page the repair leaves alone meets its lower bound |
| Occupancy.FromRightRebalanced | BTree.cpp:101-102 | a borrow from the right leaves the tree balanced |
| Occupancy.FromLeftRebalanced | BTree.cpp:103-104 | a borrow from the left leaves the tree balanced |
| Occupancy.MergeRebalanced | BTree.cpp:105-109 | a merge leaves the tree balanced but for the parent, which is the surviving page's parent |
| Occupancy.RepairRebalanced | BTree.cpp:70-126 | each repair leaves the tree balanced, or after a merge balanced but for the parent the walk goes on with |
| Occupancy.RepairBalanced | BTree.cpp:70-126 | the same for any page of a well-formed tree |
| Occupancy.RepairCarried | BTree.cpp:70-131 | one step of the upward walk: where the walk ends the tree is balanced, and where it goes on the next router may be one key short |

## Left out

- `printTree` and `size` (which returns -1): output, and a stub.
- `clear` and the destructor: `clear` deletes only the root page, sets the
  root to null and the depth to 0, and a later `set` or `find` would follow
  the null root. The model has no cleared state and no memory release.
- BPlusTree.BTree.Find: `find` returns a pointer into the leaf's values,
  through which a caller may change the stored value in place. The model
  returns the value itself, so that aliasing is not captured.
- The explicit template instantiations: the value type is a type parameter.
- Node.cpp is not part of this model; the page primitives are defined from
  their use in BTree.cpp as described above. `removeFromInternal` leaves a
  router as it is when the leaf it would take the new separator from is
  empty.
- After a root collapse the C++ code reads `curr->parent` of the page it has
  just deleted. The model ends the walk there, as the deleted root had no
  parent.
- The lower occupancy bound is `ceil(deg / 2) - 1` keys below the root, not
  minCapacity = `deg / 2`, because for even `deg` a router split leaves the
  fresh sibling with `deg / 2 - 1` keys. A merge may leave the parent one key
  short until the walk reaches it.
- BPlusTree.BTree.constructor: requires `degree >= 2`. With degree 1 or less
  every page that reaches one key is split, and the split of a one-key root
  makes a new one-key root, so the cascade of `set` never ends.
- BPlusTree.BTree.Remove: keeps pages below `deg` keys only for odd `deg`.
  For even `deg` a router merge can reach `deg` keys (two pages of
  `deg / 2 - 1` and `deg / 2` keys plus the separator).
- BPlusTree.BTree.RemoveFrom: the same bound, only for odd `deg`.
- Integer width: keys are unbounded integers, and `deg`, `depth` and sizes
  do not overflow.
