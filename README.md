# Order-statistic binary search tree, modelled in Dafny

This project models the working core of `balanced-tree`, a C library for an
order-statistic binary search tree. Every node stores a key (`value`), a
`rank` equal to one plus the size of its left subtree, child pointers and a
parent pointer. The model covers:

- **Search tree** (`bst.c`, module `SearchTree` in `bst.dfy`). The tree
  object holds the root and a node count.
  - Creation.
  - Key search.
  - Selection of the k-th smallest key by rank: compare k with the rank,
    stop when equal, go left when smaller, subtract the rank and go right
    when larger.
  - Insertion. It walks down from the root. At every left turn it adds one
    to the node's rank and records the node in a log. It hangs a new leaf
    where the walk falls off. If the key is already present, it walks the
    log and takes the extra one back off every recorded rank.
- **Rank-update tracker** (`tracker.c`, module `Tracker` in `tracker.dfy`).
  This is the log: a most-recent-first linked list of links, each naming a
  node. Its head link starts empty. Reverting adds a delta to the rank of
  every logged node.
- **AVL entry points** (`avl.c`, module `Avl` in `avl.dfy`).
  - Single left and right rotations. Each relinks center, pivot and the
    pivot's inner child (beta), and repairs the two ranks that change with
    one addition or one subtraction. It then points the parent's child slot
    at the pivot, or the tree head when there is no parent. The parent's
    slot is found by comparing keys.
  - Create, insert, search and index. These only delegate to the search
    tree; no rebalancing exists in this code.
- **Checkers** (`bst-util.c`, module `BstUtil` in `bst_util.dfy`). These
  are recursive walks that count nodes, compute heights and check rank and
  balance.

The abstraction every contract is stated against is spread over three files:

- `nodes.dfy` (module `TreeNodes`) holds the node class and the datatype
  `Tree`. A `Tree` value records, at every position, the node object there
  and the key and rank it holds; the model uses it only in ghost code.
  - `Matches(t)` says the heap agrees with `t`.
  - `ParentsLinked(t, p)` says the parent pointers agree with it.
- `bst_util.dfy` (module `BstUtil`) defines the functions on `Tree`: `Keys`,
  `Inorder`, `Size`, `Height`, `Ordered` (strictly increasing in-order keys),
  `RankOk` (rank = 1 + size of the left subtree), `Balanced` and
  `SizeBalanced`.
- `bst.dfy` defines `Bst.Valid()`. A `Bst` object is valid when its ghost `T`
  is the tree reachable from `head`, its ghost `Repr` holds exactly the nodes
  of `T`, no node occurs twice, the heap matches `T` and `length` is the size
  of `T`.

Each heap operation is proved against a function on the abstract tree:

- `Find`: the key descent.
- `Select`: the rank descent.
- `Attach` and `InsertTree`: insertion with the rank increments.
- `RotL` and `RotR`: rotation at the top of a subtree.
- `ReplaceAt` and `SubAt`: a rotation at any node.

Lemmas then prove what those functions mean. Insertion and rotation keep
the search order, the keys and the rank invariant. Selection returns the
k-th node in key order. A right rotation at the pivot undoes a left
rotation.

## Model

| member | source | states |
|---|---|---|
| `TreeNodes.Node.constructor` | bst.c:18-26 | a new node holds the key, rank 1, no children (parent starts null) |
| `SearchTree.Bst.constructor` | bst.c:161-171 | a new tree is valid and empty: no head, length 0 |
| `SearchTree.Bst.Search` | bst.c:147-157 | returns the node the key descent finds (`Find`), changes nothing; a returned node is in the tree and holds the key; in an ordered tree it returns a node exactly when the key is present |
| `SearchTree.FindCorrect` | bst.c:147-157 | the key descent only stops at a node of the tree holding the key, and in an ordered tree it stops exactly when the key is present |
| `SearchTree.Bst.Index` | bst.c:124-144 | null when the index is at most 0 or above the length; otherwise the node the rank descent reaches (`Select`), which is a node of the tree; with correct ranks that is the index-th node in key order and holds the index-th smallest key |
| `SearchTree.SelectInTree` | bst.c:129-139 | the rank descent stops only at a node of the tree, whatever the ranks hold |
| `SearchTree.SelectInorder` | bst.c:129-139 | with correct ranks, the descent that subtracts the rank on every right step stops at the k-th node of the in-order sequence, for every 1 <= k <= size |
| `SearchTree.Bst.Insert` | bst.c:16-121 | the new tree is `InsertTree(old tree)`. A present key returns 0 and leaves tree, nodes, ranks and length as they were. An absent key returns 1 and attaches exactly one fresh node; from an empty tree it becomes the head with rank 1. The tree stays valid. Only ranks and child links are written: every parent link stays as it was, and the new node has none |
| `SearchTree.Bst.Descend` | bst.c:43-120 | in a non-empty tree, the tree becomes `InsertTree(old tree)`: 0 and nothing changed when the key was present, 1 and exactly the new node added otherwise; the tree stays valid and the loop never runs off the end |
| `SearchTree.Bst.Step` | bst.c:56-116 | one round of the descent: on the key it rolls back and reports 0; otherwise it turns left (raising and logging the node) or right, and either moves to the child, still on the descent for `x` with the heap raised by the longer log, or hangs the new node and reports 1 |
| `SearchTree.Bst.RollBack` | bst.c:56-69 | after reverting the log with -1, every rank is back to its value before the descent and the tree is valid and unchanged; only ranks are written, so parent links stay |
| `SearchTree.Unbump` | bst.c:60-64 | taking back the number of times the log records each node from its raised rank gives a heap that matches the original tree |
| `SearchTree.Bst.RaiseRank` | bst.c:74-96 | a left turn adds one to the node's rank and puts it at the front of the log; the heap matches the tree raised by the longer log |
| `SearchTree.Bst.Lift` | bst.c:78 | the rank of `current` grows by exactly one, and the heap matches the tree raised by the log with `current` in front |
| `SearchTree.Bst.HangNew` | bst.c:99-115 | the new node is hung on the left when the key is smaller, on the right when larger; length grows by one and the tree becomes `Attach(old tree)` |
| `SearchTree.HangBump` | bst.c:74-115 | raising each node by how often the log records it, with the log being the left turns, and then hanging the leaf, is exactly `Attach` |
| `SearchTree.AttachNodes` | bst.c:99-115 | attaching adds exactly the new node, keeps nodes distinct and the root, and grows the size by one |
| `SearchTree.AttachKeys` | bst.c:99-115 | attaching adds exactly one occurrence of the new key to the multiset of keys |
| `SearchTree.AttachKeySet` | bst.c:99-115 | the keys after attaching are the old keys and the new key |
| `SearchTree.AttachOrdered` | bst.c:99-115 | attaching an absent key to an ordered tree keeps it ordered |
| `SearchTree.AttachRankOk` | bst.c:74-78 | adding one to the rank at every left turn keeps rank = 1 + size of the left subtree at every node |
| `SearchTree.InsertTreeCorrect` | bst.c:16-121 | insertion keeps the order and the rank invariant and adds the key to the keys unless it was already present |
| `Tracker.InitUpdateTracker` | tracker.c:6-19 | a fresh single link holding no node and no successor; its log is empty |
| `Tracker.TrackUpdate` | tracker.c:31-50 | an empty head link is filled in place and returned with no successor; otherwise a fresh link is put in front and the old list is untouched; either way the log is the new node followed by the old log |
| `Tracker.RevertRankUpdates` | tracker.c:22-29 | every logged node's rank changes by the delta times the number of links that record it, stopping at the first empty link; nothing else is written |
| `Tracker.ShiftCount` | tracker.c:25-27 | the running adjustment the loop applies to a node equals the delta times how often the log records it |
| `BstUtil.SubtreeTraverse` | bst-util.c:24-30 | the counter grows by exactly the number of nodes below `head` |
| `BstUtil.InorderTraverse` | bst-util.c:15-22 | the walk visits the keys in in-order: left subtree, node, right subtree |
| `BstUtil.CalculateTreeHeight` | bst-util.c:55-69 | 0 for an empty tree, else 1 + the larger child height (`Height`) |
| `BstUtil.CheckStrictBalance` | bst-util.c:73-93 | succeeds exactly when the subtree heights differ by at most one at every node |
| `BstUtil.SubtreeNodeCounts` | bst-util.c:33-53 | succeeds exactly when the subtree sizes differ by at most one at every node |
| `BstUtil.CheckRank` | bst-util.c:96-113 | with the intended comparison, succeeds exactly when every rank equals 1 + the size of the left subtree |
| `BstUtil.CheckRankAsWritten` | bst-util.c:104-110 | the check as written succeeds exactly when no rank is zero |
| `BstUtil.CheckRankAsWrittenMissesWrongRank` | bst-util.c:110 | a one-node tree with rank 7 passes the check as written though its rank is wrong |
| `BstUtil.RankOkRanksNonZero` | bst-util.c:104-110 | correct ranks are never zero, so the intended check implies the written one |
| `BstUtil.InorderKeys` | bst-util.c:15-22 | the i-th node of the in-order walk holds the i-th key |
| `BstUtil.SizeHeightBounds` | bst-util.c:55-69 | height <= size < 2^height |
| `BstUtil.SizeBalancedIsBalanced` | bst-util.c:73-93 | a size-balanced tree is height-balanced |
| `BstUtil.SizeBalancedHeight` | bst-util.c:55-69 | a size-balanced tree has the height of the bit length of its size |
| `Avl.RotateLeft` | avl.c:15-56 | no change without a right child. Otherwise the tree becomes the old one with the subtree at center rotated left. The heap matches it, parent links stay consistent, the node set is the same and the pivot becomes the head when center had no parent |
| `Avl.RelinkLeft` | avl.c:31-55 | center takes beta as right child; pivot takes center as left child and rank pivot + center; parents of pivot, center and beta follow; the parent's slot that held center holds pivot; no other node and no other rank changes |
| `Avl.RotateRight` | avl.c:59-95 | no change without a left child; otherwise the tree becomes the old one with the subtree at center rotated right, with the same guarantees as the left rotation |
| `Avl.RelinkRight` | avl.c:75-93 | center takes beta as left child and rank center - pivot; pivot takes center as right child; parents follow; the parent's slot is redirected; nothing else changes |
| `Avl.LeftNoop` | avl.c:19 | with no right child, the left rotation leaves the tree as it is |
| `Avl.RightNoop` | avl.c:63 | with no left child, the right rotation leaves the tree as it is |
| `Avl.RotLInorder` | avl.c:34-40 | a left rotation keeps the in-order node sequence, the keys and the node set |
| `Avl.RotLRankOk` | avl.c:43-50 | adding center's rank to pivot's rank keeps the rank invariant |
| `Avl.RotLDistinct` | avl.c:34-40 | a left rotation shares no node |
| `Avl.RotRInorder` | avl.c:78-85 | a right rotation keeps the in-order node sequence, the keys and the node set |
| `Avl.RotRRankOk` | avl.c:87-88 | subtracting pivot's rank from center's rank keeps the rank invariant |
| `Avl.RotRDistinct` | avl.c:78-85 | a right rotation shares no node |
| `Avl.RotLRotR` | avl.c:15-95 | the two rotations at the top of a tree undo each other |
| `Avl.RotateLeftKeeps` | avl.c:34-41 | a left rotation at any node keeps the in-order keys, the node set, the size, distinct nodes and the search order |
| `Avl.RotateLeftRanks` | avl.c:43-50 | a left rotation at any node of a tree with correct ranks leaves every rank equal to 1 + the size of its left subtree |
| `Avl.RotateRightKeeps` | avl.c:78-85 | a right rotation at any node keeps the in-order keys, the node set, the size, distinct nodes and the search order |
| `Avl.RotateRightRanks` | avl.c:87-88 | a right rotation at any node of a tree with correct ranks leaves every rank equal to 1 + the size of its left subtree |
| `Avl.RotateRoundTrip` | avl.c:15-95 | a right rotation at the pivot undoes a left rotation at center |
| `Avl.ParentSlot` | avl.c:52-55 | in an ordered tree the parent holds center in exactly one slot, and the other slot holds a different key, so the slot search finds the right one |
| `Avl.LeftRotated` | avl.c:31-55 | the heap after the left-rotation writes matches the rotated tree and its parent links are consistent |
| `Avl.RightRotated` | avl.c:75-93 | the heap after the right-rotation writes matches the rotated tree and its parent links are consistent |
| `Avl.AvlCreate` | avl.c:98-101 | the tree creation of the search tree |
| `Avl.AvlInsert` | avl.c:114-129 | exactly the search-tree insertion, with its promise that only ranks and child links are written and no parent link changes |
| `Avl.AvlSearch` | avl.c:132-135 | exactly the search-tree search |
| `Avl.AvlIndex` | avl.c:138-141 | exactly the search-tree selection by rank |

## Left out

- Memory allocation and freeing are not modelled: `malloc`, `alloca`, `free` and `exit(-1)` on allocation failure. The same goes for `_traverse_and_free`, `bst_clear`, `bst_destroy`, `bst_clear_destroy`, `avl_clear`, `avl_destroy`, `avl_clear_destroy` and `destroy_update_tracker`. Dafny objects are never freed.
- The new node that `bst_insert` allocates and abandons on a duplicate key is allocated in the model too. It is never linked into the tree.
- `bst_insert` keeps its rank log inline (bst.c:43-49, 82-96, 60-64). The model calls the tracker operations, which do the same steps: `InitUpdateTracker`, then `TrackUpdate`, then `RevertRankUpdates` with -1.
- `SearchTree.Bst.Insert` is split into helper methods: `Descend` holds the C loop, `Step` one round of it, and `RaiseRank`, `Lift`, `HangNew` and `RollBack` its branches, in the same order.
- Printing is not modelled: the `printf` in `inorder_traverse` and the verbose branches of the checkers. `InorderTraverse` returns the sequence of keys it would print.
- The checkers' `assert` aborts the program on the first failing node. The model's checkers instead return whether every node passes.
- Integer widths are not modelled. `rank`, `length`, the index and keys are unbounded integers, so overflow of the C `int` is not covered.
- The C node's `parent` field is never initialised or assigned by `bst_insert`. The model starts it at null. Parent links are a separate predicate (`ParentsLinked`) outside the tree invariant.
- `Avl.RotateLeft` and `Avl.RotateRight` require the parent links to be consistent. The C code reads `center->parent` to find the parent and the head.
- `Avl.RotateLeft` and `Avl.RotateRight` also require an ordered tree. The C code finds the parent's slot by comparing keys, which is only correct when keys are distinct.
- AVL rebalancing and balance factors are not modelled; the code has none. `avl_insert` only calls `bst_insert`, and the `balance_factor` field and the `BAL_*` macros are unused.
- `avl_delete` and `avl_get_index` are not modelled. They call `bst_delete` and `bst_get_index`, which `bst.h` declares but none of the source files modelled here defines.
- The test drivers `avl-test.c` and `bst-test.c` are not part of this model.

## Findings

| source | as written | input that shows it | evidently intended | confidence | as-written member | corrected member |
|---|---|---|---|---|---|---|
| bst-util.c:110 | `assert(calculated_rank = head->rank)` assigns the stored rank to the counted one and asserts it is non-zero | a single node whose stored rank is 7 (its correct rank is 1) passes the check | `calculated_rank == head->rank`, failing on any node whose rank is not 1 + the size of its left subtree | not executed | `BstUtil.CheckRankAsWritten`, `BstUtil.CheckRankAsWrittenMissesWrongRank` | `BstUtil.CheckRank` |
