# 2-3 tree of leaves with cached keys and sizes

This project models the core of a stock-management program's ordered
index: a 2-3 tree (`TwoThreeTree`) whose data sits only in the leaves.
Every internal node has two or three children, all leaves are at the
same depth, and each internal node caches the largest key below it
(`key`) and the number of leaves below it (`size`). The leaves are also
threaded, in key order, into a doubly linked list (`prev`/`next`). Two
sentinel leaves hold the smallest and largest possible keys, so every
real key falls strictly between them. The tree offers `search`,
`insert`, `delete` and `rank`. The program keeps three such trees: one
keyed by stock id (`String`), one keyed by `priceTreeKey` (price, then
stock id), and, inside each stock, one keyed by `Long` timestamps. The
tree here has `int` keys, which stand for all three key types; only the
`priceTreeKey` order is modelled as such.

The model is in Dafny:

- `wrappers.dfy`: the `Option` type.
- `price_tree_key.dfy` (module `PriceTreeKey`): `compareTo` and `equals`,
  with Java's `String.compareTo` over UTF-16 code units (a stock id is a
  sequence of 16-bit units, as a Java `String` is), and proofs that `compareTo` is a strict
  total order (lexicographic on price, then stock id) that agrees with
  `equals`.
- `two_three_node.dfy` (module `TwoThreeNode`): a node is a record
  (`Node`: its `Shape` — key, children, leaf flag, size — plus parent,
  `prev`/`next` and value). The heap is a store `map<Ref, Node>` owned by
  the tree, and `null` is `None`. The abstract shape of the tree is a
  ghost `Tree` datatype. Predicates over the store say when it holds a
  well-formed, balanced tree with current caches (`Wf`, `Sound`,
  `Cached`), ascending leaves (`Ascending`) and a correctly threaded leaf
  list (`List`). `Shaped` ties all of these to a root.
- `two_three_lemmas.dfy`, `two_three_paths.dfy` (modules
  `TwoThreeLemmas`, `TwoThreePaths`): what a path down from the root
  (a zipper of `Frame`s) gives, and why each rewiring step of `insert`
  keeps the tree well formed.
- `two_three_repair.dfy` (module `TwoThreeRepair`): the repair pass of
  `delete`. A node under repair may have a single child while everything
  else is in shape (`Repair`); the lemmas say why removing a leaf sets up
  that state, and why refreshing a node's caches, borrowing from or
  merging with a sibling, or giving up a one-child root each move it one
  level up or end it with the tree in shape again.
- `two_three_rank.dfy` (module `TwoThreeRank`): the path from a leaf up to
  the root and what each step adds to `rank`.
- `two_three_tree.dfy` (class `TwoThreeTree.TwoThreeTree`): the tree
  itself, with the root, the store, the sentinel keys `lo` and `hi`, and
  the operations as methods that update the store in place.
  `Valid()` is the class invariant. `Items()` is the in-order sequence of
  (key, value) pairs at the leaves, sentinels included.

## Model

| member | source | states |
|---|---|---|
| TwoThreeNode.InternalNode | TwoThreeTree.java:26-32 | a new internal node has a null key, size 0, no children, no parent and no list neighbours |
| TwoThreeNode.LeafNode | TwoThreeTree.java:35-46 | a new leaf holds the given key and value, has size 1, and no children, parent or list neighbours |
| TwoThreeTree.TwoThreeTree.constructor | TwoThreeTree.java:70-84 | the new tree is valid and its items are exactly the two sentinels, `lo` then `hi`, both with null values; the root's cached key is still null and its size 0 |
| TwoThreeTree.TwoThreeTree.Alloc | TwoThreeTree.java:172 | `new Node`: a reference not yet in the store now holds the given node, and nothing else changes |
| TwoThreeTree.TwoThreeTree.UpdateKey | TwoThreeTree.java:116-130 | the node's cached key becomes its last child's key and its size the sum of its children's sizes; nothing else changes |
| TwoThreeTree.TwoThreeTree.SetChildren | TwoThreeTree.java:140-148 | the node's children are the given ones (null past the last), each child's parent is the node, and the caches are refreshed; only the node and the children change |
| TwoThreeTree.TwoThreeTree.SearchInternal | TwoThreeTree.java:97-108 | the result is a leaf of the subtree exactly when the key is one of its leaf keys, and then that leaf holds the key |
| TwoThreeTree.TwoThreeTree.Search | TwoThreeTree.java:93-95 | the result is non-null exactly when the key is in the tree, and then it is the leaf holding that key |
| TwoThreeTree.TwoThreeTree.FindLeaf | TwoThreeTree.java:201-211 | the descent of `insert` ends at the first leaf whose key is above the new key (every earlier leaf's key is at most the new key), after as many steps as the tree is tall |
| TwoThreeTree.TwoThreeTree.Splice | TwoThreeTree.java:214-219 | the new leaf is threaded into the leaf list just before the found leaf |
| TwoThreeTree.TwoThreeTree.InsertAndSplit | TwoThreeTree.java:158-190 | the new child joins the node's children in key order; with two children the node becomes a valid 3-node and null is returned; with three, the node keeps the two smallest and a fresh node, which is returned, takes the two largest; only the node and the children change |
| TwoThreeTree.TwoThreeTree.InsertRoom | TwoThreeTree.java:162-170 | with room for a third child, the node becomes a valid 3-node holding the new child in key order |
| TwoThreeTree.TwoThreeTree.InsertSplit | TwoThreeTree.java:171-187 | with four children in all, the node and a fresh node each become valid 2-nodes, the two smallest children under the node and the two largest under the fresh one |
| TwoThreeTree.TwoThreeTree.InsertUp | TwoThreeTree.java:224-228 | one step up while a subtree was split off: the parent takes it in and the zipper moves one level up with the tree still valid around it |
| TwoThreeTree.TwoThreeTree.UpdateUp | TwoThreeTree.java:224-230 | one step up once nothing was split off: the parent's caches are refreshed and the zipper moves one level up |
| TwoThreeTree.TwoThreeTree.Climb | TwoThreeTree.java:222-231 | the upward loop of `insert` ends at the root, after one step per level, with the root's tree (and a split-off sibling, if any) holding all the leaves in order |
| TwoThreeTree.TwoThreeTree.NewLeaf | TwoThreeTree.java:200 | the new leaf is allocated outside the tree, which stays valid with the same items |
| TwoThreeTree.TwoThreeTree.InsertLeaf | TwoThreeTree.java:201-220 | after the descent and the splice, the leaf sequence is the old one with the new leaf at position `i`, and holds the old items with the new one inserted in key order |
| TwoThreeTree.TwoThreeTree.LocateLeaf | TwoThreeTree.java:201-211 | splicing the new leaf before the leaf found by the descent gives the old leaf sequence with the new leaf at position `i`, whose items are the old ones with the new item inserted in key order |
| TwoThreeTree.TwoThreeTree.GrowRoot | TwoThreeTree.java:232-236 | a split root gets a fresh node as parent, which becomes the root, with the old root and the split-off node as its two children; the tree is valid, one level taller, with the same leaves, and the new root's cached key and size are current |
| TwoThreeTree.TwoThreeTree.Reroot | TwoThreeTree.java:232-236 | at the top of the upward pass the tree is valid again, with the new leaf sequence and the root's cached key and size current; without a split the root and height are unchanged, with one a fresh root sits one level higher |
| TwoThreeTree.TwoThreeTree.Rise | TwoThreeTree.java:222-236 | the upward pass from the spliced leaf leaves the tree valid over the new leaf sequence, with the root's size equal to the number of leaves; the height either stays or grows by one under a new root whose left child is the old root |
| TwoThreeTree.TwoThreeTree.Insert | TwoThreeTree.java:199-238 | the tree stays valid, the root's cached key and size are current (one more leaf), its items are the old ones with the new (key, value) inserted in key order (the value may be null), the leaf sequence is the old one with the new leaf at position `i`, so every old leaf stays in the tree, and either the root and height are unchanged or the height grows by one with the old root as the new root's left child |
| TwoThreeTree.TwoThreeTree.Rank | TwoThreeTree.java:326-339 | the result is the 1-based position of the leaf in key order, and equals one plus the number of leaves with a smaller key |
| TwoThreeTree.TwoThreeTree.Unlink | TwoThreeTree.java:291-292 | the leaf's left neighbour now links forward to its right neighbour and the right neighbour back to the left one; no other node changes |
| TwoThreeTree.TwoThreeTree.RemoveChild | TwoThreeTree.java:295-301 | the parent keeps its other children in their order, and is a node under repair with the tree in shape around it and the leaf sequence without the removed leaf |
| TwoThreeTree.TwoThreeTree.Detach | TwoThreeTree.java:288-301 | once the leaf leaves the list and its parent, the parent is under repair at height 1 with the leaf sequence `L`, and no leaf value changes |
| TwoThreeTree.TwoThreeTree.DeleteLeaf | TwoThreeTree.java:288-301 | the first half of `delete` leaves the parent of the removed leaf under repair, with the leaf sequence being the old one without that leaf, still framed by the sentinels, and a path up one shorter than the tree is tall |
| TwoThreeTree.TwoThreeTree.RepairUpdate | TwoThreeTree.java:303-305 | a node under repair with two or three children gets current caches; then either its parent is under repair one level up, or it was the root and the tree is valid with leaf sequence `L`, the root's key and size current, and the same height |
| TwoThreeTree.TwoThreeTree.ShrinkRoot | TwoThreeTree.java:309-312 | a root with a single child gives way to that child, its old left pointer, and the tree is valid again, one level shorter, with leaf sequence `L` and the new root's key and size current |
| TwoThreeTree.TwoThreeTree.Borrow | TwoThreeTree.java:252-253 | the two siblings each take two of the four grandchildren, in order, and both become well-formed 2-nodes; only they and the grandchildren change |
| TwoThreeTree.TwoThreeTree.Merge | TwoThreeTree.java:255-256 | one sibling takes all three grandchildren in order, and the parent takes it in place of both siblings, with its other children kept in order |
| TwoThreeTree.TwoThreeTree.RegroupLeft | TwoThreeTree.java:249-257 | when the node under repair is the left child, it borrows from or merges with the middle child, and the parent's children regroup the same leaves one level down |
| TwoThreeTree.TwoThreeTree.RegroupMiddle | TwoThreeTree.java:258-266 | when it is the middle child, it borrows from or merges with the left child, with the same outcome |
| TwoThreeTree.TwoThreeTree.RegroupRight | TwoThreeTree.java:267-275 | when it is the right child, it borrows from or merges with the middle child, with the same outcome |
| TwoThreeTree.TwoThreeTree.Regroup | TwoThreeTree.java:249-276 | whichever child of its parent the node under repair is, the parent's children are regrouped so that all of them are well formed over the same leaves |
| TwoThreeTree.TwoThreeTree.BorrowOrMerge | TwoThreeTree.java:246-279 | a non-root node under repair with a single child leaves the returned parent under repair one level up, over the same leaf sequence, and no leaf value changes |
| TwoThreeTree.TwoThreeTree.RepairSingle | TwoThreeTree.java:307-313 | a one-child node under repair is the root, and the tree is then valid again, one level shorter under a new root with current key and size, or else the pass moves one level up to its parent with the root unchanged |
| TwoThreeTree.TwoThreeTree.RepairStep | TwoThreeTree.java:303-314 | one round of the loop: either the tree is valid again with leaf sequence `L` and the root's key and size current (same root and height, or a new root one level lower), or the node returned is under repair with a shorter path to the root |
| TwoThreeTree.TwoThreeTree.RepairPass | TwoThreeTree.java:302-315 | the loop of `delete` ends with the tree valid, its leaf sequence `L`, the root's key and size current, no leaf value changed, and either the same root and height or a new root one level lower |
| TwoThreeTree.TwoThreeTree.Remove | TwoThreeTree.java:288-315 | removing an inner leaf leaves the tree valid with the leaf sequence without it, the root's key and size current, no leaf value changed, and either the same root and height or a new root one level lower |
| TwoThreeTree.TwoThreeTree.Delete | TwoThreeTree.java:287-317 | the tree stays valid with the root's key and size current (one leaf fewer), its items are the old ones with exactly the deleted leaf's item removed, which is the same as removing the one item with its key; the leaf sequence is the old one without its `m`-th leaf, so every other leaf stays in the tree; and either the root and height are unchanged or a new root sits one level lower |
| TwoThreeLemmas.UnlinkList | TwoThreeTree.java:291-292 | unlinking an inner leaf of a threaded leaf list leaves the list of the other leaves threaded, and changes no shape, parent or value |
| TwoThreeLemmas.RemoveKeyAt | TwoThreeTree.java:287-317 | in items with strictly ascending keys, removing the item with the `m`-th key is removing the `m`-th item |
| TwoThreeLemmas.ItemsDeleted | TwoThreeTree.java:287-317 | with leaf values kept, the items of the leaf sequence without its `m`-th leaf are the old items without the `m`-th, that is without its key |
| TwoThreeRepair.DeleteStart | TwoThreeTree.java:288-292 | every inner leaf has a parent and both list neighbours, and once it is unlinked the tree is in shape around the hole it leaves, with the leaf sequence without it between the sentinels; its path up is as long as the tree is tall |
| TwoThreeRepair.HoleEnds | TwoThreeTree.java:288-292 | an inner leaf's `prev` and `next` are its neighbours in the leaf sequence, and its parent is the first node on its path up |
| TwoThreeRepair.HoleStart | TwoThreeTree.java:291-292 | unlinking an inner leaf keeps every node and every leaf value, and leaves the tree in shape around the hole, with the leaf sequence without it still between the sentinels |
| TwoThreeRepair.LeafRemoved | TwoThreeTree.java:295-301 | when the parent of the hole keeps only its other children, it is under repair at height 1 with the same leaf sequence |
| TwoThreeRepair.RepairKids | TwoThreeTree.java:303-307 | the node under repair is internal, has a middle child exactly when it has two or more children, and is the root exactly when its path up is empty |
| TwoThreeRepair.RepairRecached | TwoThreeTree.java:303-305 | refreshing the caches of a node under repair with two or three children makes it well formed, with the rest of the tree in shape around it |
| TwoThreeRepair.AscentToRepair | TwoThreeTree.java:305 | after that, its parent is the node under repair, one level up |
| TwoThreeRepair.Regroupable | TwoThreeTree.java:246-250 | a non-root node under repair with one child forms an adjacent pair with a sibling, which follows it only when it is the first child, and the two hold three or four grandchildren |
| TwoThreeRepair.BorrowRegroup | TwoThreeTree.java:251-253 | sharing four grandchildren out two and two leaves the parent's children well formed over the same leaves |
| TwoThreeRepair.Merged | TwoThreeTree.java:254-256 | merging three grandchildren under one sibling, which replaces both below the parent, leaves the parent's children well formed over the same leaves |
| TwoThreeRepair.RepairUp | TwoThreeTree.java:278 | once the parent's children are regrouped, the parent is the node under repair one level up, over the same leaf sequence |
| TwoThreeRepair.RootChild | TwoThreeTree.java:310 | the single child of a root under repair is a well-formed internal node holding all the leaves |
| TwoThreeRepair.CutLoose | TwoThreeTree.java:311 | with its parent cleared, that child is the root of a tree in shape |
| TwoThreeRank.PositionIsCount | TwoThreeTree.java:319-325 | in ascending leaves, the position of a leaf is the number of leaves with a smaller key |
| TwoThreeRank.Located | TwoThreeTree.java:326-329 | every leaf has a path up to the root, as long as the tree is tall, whose left side holds exactly the leaves before it |
| TwoThreePaths.PathLength | TwoThreeTree.java:203-211 | each step of the descent above the leaves adds one node to the path, so after `d` steps the path has `d` nodes |
| TwoThreeRank.RankStep | TwoThreeTree.java:329-336 | at each step up, the child is the parent's middle (right) child exactly when one (two) siblings come before it, and the cached sizes of those siblings count the leaves they add on the left |
| TwoThreeLemmas.ItemsInserted | TwoThreeTree.java:214-220 | splicing a new leaf into the leaf sequence inserts its item in key order |
| PriceTreeKey.CompareTo | priceTreeKey.java:11-18 | a lower price comes first (-1), a higher one last (1), equal prices fall back to the stock ids; the result is 0 exactly when the keys are equal |
| PriceTreeKey.Equals | priceTreeKey.java:31-49 | true exactly when the other object is a key with the same price and stock id |
| PriceTreeKey.StringCompareTo | priceTreeKey.java:17 | Java's `String.compareTo` on UTF-16 code units: the difference of the first differing units, else of the lengths; 0 exactly when the strings are equal |
| PriceTreeKey.StringCompareToIsLexicographic | priceTreeKey.java:17 | the string comparison is negative exactly when the first string comes first lexicographically |
| PriceTreeKey.StringCompareToAntisymmetric | priceTreeKey.java:17 | swapping the strings negates the string comparison |
| PriceTreeKey.StringCompareToTransitive | priceTreeKey.java:17 | the string comparison is transitive |
| PriceTreeKey.CompareToIsLexicographic | priceTreeKey.java:11-18 | `compareTo` is negative exactly when the key comes first by price, then by stock id |
| PriceTreeKey.CompareToAntisymmetric | priceTreeKey.java:11-18 | swapping the arguments flips the sign of `compareTo` |
| PriceTreeKey.CompareToTransitive | priceTreeKey.java:11-18 | `compareTo` is transitive |
| PriceTreeKey.CompareToTotal | priceTreeKey.java:11-18 | any two keys are equal or ordered one way, never both ways |
| PriceTreeKey.EqualsAgreesWithCompareTo | priceTreeKey.java:31-49 | `equals` holds exactly when `compareTo` is 0 |
| PriceTreeKey.EqualsReflexive | priceTreeKey.java:31-49 | a key equals itself |
| PriceTreeKey.ExampleOrder | priceTreeKey.java:11-18 | on concrete keys, a lower price comes first whatever the stock ids, and ids compare by UTF-16 code units (0xFFFF after a surrogate pair) |

## Left out

- Nodes are records in a store (`map<Ref, Node>`) owned by the tree, not shared objects: outside code cannot alias or change them, and nodes that become garbage stay in the store.
- Keys are `int`s and the two sentinels are the constructor's `lo` and `hi`; `SentinelValueProvider.java` is not part of this model. The program instantiates the tree with `String` keys (StockManager.java:2, 19), `priceTreeKey` keys (StockManager.java:3, 20) and `Long` keys (Stock.java:6, 13); the generic `compareTo` on keys is integer comparison, which stands for all three orders. Only the `priceTreeKey` order is modelled on its own, by `PriceTreeKey`; the `String` and `Long` orders are not.
- PriceTreeKey.CompareTo: the price is an integer, not a 32-bit float, so NaN, signed zeros and rounding are not modelled; `hashCode` is left out.
- Leaf values are `Option<V>` (the sentinels hold `null`).
- TwoThreeTree.TwoThreeTree.Search: requires the key to be at most the top sentinel `hi`. Above it, `searchInternal` follows the right spine (TwoThreeTree.java:103-106): it throws on a null right child when some node on that spine has two children, and otherwise reaches the `hi` leaf and returns null (TwoThreeTree.java:99). Neither outcome is modelled.
- TwoThreeTree.TwoThreeTree.Insert: requires `lo < key < hi` and the key not to be in the tree already, so that the leaves stay strictly ascending; duplicates are not modelled. A key below `lo` is placed before the `lo` sentinel with a null `prev` (TwoThreeTree.java:204-219), which can happen with the `String` sentinel `"/u0000"` (SentinelValueProvider.java:20), for example for the stock id `""`; that leaf then cannot be deleted, since `delete` dereferences its null `prev` (TwoThreeTree.java:291). This case is not modelled.
- TwoThreeTree.TwoThreeTree.UpdateKey: the cached size is an unbounded integer, so 32-bit `int` overflow of the summed children's sizes (TwoThreeTree.java:116-130) is not modelled; since `rank` never counts more leaves than the root's size, this sum overflows before `rank`'s count does.
- TwoThreeTree.TwoThreeTree.Rank: requires a leaf of the tree (the source is only ever called on leaves) and does not model 32-bit `int` overflow of the count.
- `printTree` and `printNode` (console output) are left out.
- TwoThreeTree.TwoThreeTree.Delete: requires a leaf of the tree other than the two sentinels; the source's callers only delete leaves they found, and removing a sentinel or an internal node would break the tree.
- The `root != null` test in `delete` (TwoThreeTree.java:311) always holds in the model, since a root with one child has it as its left child; `ShrinkRoot` therefore has no null branch.
