# A model of the `AVLTree` string-keyed search tree

`AVLTree` is a binary search tree that maps `std::string` keys to `size_t`
values. Its nodes carry a key, a value, a cached height, and links to two
children and a parent. Only three operations of the class have real bodies:

- `insert`: rejects a key that is already present. Otherwise it descends from
  the root, left when the key is smaller than the current key and right
  otherwise. It attaches a new node at the empty slot it reaches, then calls
  `balanceNode` on each ancestor from the parent up to the root.
- `removeNode`: the case analysis of removing the node in a given slot.
  An empty slot gives `false`. A leaf is removed. A one-child node is replaced
  by its child. A two-child node takes the key and value of its in-order
  successor, and the successor is then removed.
- `getHeight`: returns 0 for an empty tree, otherwise the root's stored height.

The helpers these operations call have no bodies, or bodies that return
constants. They are given the meaning their declarations and comments state:

- `contains` is key membership, found by descending the tree.
- `numChildren` counts the occupied child slots (0, 1 or 2).
- `isLeaf` holds when a node has no children.
- `balanceNode` is the identity.
- The removal of the successor deletes the leftmost node of the right subtree.

The model is functional. A slot (`AVLNode*`, possibly null) is an immutable
`Tree`. Insertion and node removal are pure functions that return the
reported boolean together with the new slot. The upward `balanceNode` walk is
the unwinding of the recursion. The walk is also written as a loop over the
descent path (`InsertPath.BalanceWalk`).

Modules:

- `StringOrder` (`string_order.dfy`): `std::string`'s `operator<` as
  lexicographic order on the key's characters, here Unicode scalar values
  compared by code point (see Left out). It is proved to be a strict total
  order.
- `AvlTree` (`avl_tree.dfy`): the tree, its operations, and the search-tree,
  key-set and entry-map facts about them.
- `InsertPath` (`insert_path.dfy`): the descent loop and the upward walk of
  `insert` as loops. Also proves that the recursive insertion attaches the
  new node exactly where that loop stops.
- `InOrder` (`in_order.dfy`): the in-order key listing. A tree is a search tree
  exactly when that listing is strictly ascending.
- `ValueNarrowing` (`value_narrowing.dfy`): the `int` narrowing in the
  two-child removal case, as written (see Findings).

Where the code departs from a textbook AVL tree, the model follows the
code:

- A new node has height 1, not 0.
- No operation computes a height from the children. `insert` leaves stored
  heights alone. The two-child case of `removeNode` assigns the result of
  `AVLNode::getHeight` to the node (AVLTree.cpp:129), and the model reads that
  call as the node's own stored height (see Left out). Under that reading every
  stored height stays 1 (`HeightsAreOne` is preserved), and `getHeight`
  reports at most 1 for every tree built from the empty one.
- Nothing is rebalanced, so no balance invariant is claimed.

## Model

| member | source | states |
|---|---|---|
| StringOrder.LessIrreflexive | AVLTree.h:16 | No key string is smaller than itself under `std::string`'s `<` |
| StringOrder.LessTransitive | AVLTree.h:16 | The key order is transitive |
| StringOrder.LessAsymmetric | AVLTree.h:16 | If `a < b` then not `b < a` |
| StringOrder.LessTotal | AVLTree.cpp:23-27 | Two distinct keys are ordered one way or the other, so "not smaller and not equal" means larger. This is why the descent's "otherwise right" puts an absent key on the correct side |
| AvlTree.NewNode | AVLTree.h:50 | A new node has no children, height 1 and the given key and value. It is a leaf, a one-entry search tree, and a tree whose `getHeight` is 1 |
| AvlTree.NumChildren | AVLTree.h:53-54 | The child count is at most 2. It is 0 exactly when both slots are empty and 2 exactly when both are occupied |
| AvlTree.IsLeaf | AVLTree.h:55-56 | A node is a leaf exactly when both child slots are empty |
| AvlTree.BalanceNode | AVLTree.cpp:143-145 | The empty `balanceNode` keeps the key set, the key/value entries, the search-tree order and the stored heights |
| AvlTree.Height | AVLTree.cpp:66-71 | When every stored height is the constructor's 1, the reported height is at most 1, and it is 0 exactly for the empty tree |
| AvlTree.Contains | AVLTree.h:22 | The descent only finds keys that are in the tree. On a search tree it finds the key exactly when the key is in the tree |
| AvlTree.Attach | AVLTree.cpp:18-40 | Attaching a new node yields a non-empty tree whose key set is the old one plus the new key. Stored heights stay 1 |
| AvlTree.AttachKeepsOrder | AVLTree.cpp:21-35 | Attaching an absent key to a search tree gives a search tree |
| AvlTree.AttachAddsEntry | AVLTree.cpp:29-35 | Attaching an absent key adds exactly its entry, and every other key keeps its value |
| AvlTree.Insert | AVLTree.cpp:6-42 | A refused insert leaves the tree unchanged. Insert into the empty tree makes the new node the root and reports true. An absent key is always accepted. On a search tree the insert succeeds exactly when the key is absent, the result is a search tree with key set old plus `key`, and on success the entries are the old ones plus `key ↦ value` |
| AvlTree.Leftmost | AVLTree.cpp:116-121 | Following left links ends at a node that has no left child and whose key is in the subtree |
| AvlTree.LeftmostIsMinimum | AVLTree.cpp:113-122 | In a search tree, the leftmost node's key is smaller than every other key of the subtree, and its value is the one the subtree maps that key to |
| AvlTree.RemoveNode | AVLTree.cpp:95-137 | Reports true exactly when the slot holds a node. Empty slot and leaf give an empty slot. A one-child node is replaced by its right child if present, else its left. A two-child node keeps its left subtree and height and takes the leftmost right-subtree node's key and value. Its right subtree is the old one with at most that key removed, and in a search tree that key is gone from it. Keys only disappear |
| AvlTree.RemoveMin | AVLTree.cpp:124 | Deleting the successor leaves the key set with at most the leftmost key removed. In a search tree that key is removed, and the result is a search tree. Stored heights stay 1 |
| AvlTree.RemoveMinKeepsEntries | AVLTree.cpp:124 | In a search tree, deleting the leftmost node removes exactly its entry, and every other key keeps its value |
| AvlTree.PromotedKeyIsSuccessor | AVLTree.cpp:113-127 | In a search tree, the two-child case promotes the in-order successor: the smallest key of the subtree that is greater than the removed key, with the value the subtree maps it to. The new right subtree holds the old right subtree's entries minus the successor's |
| AvlTree.RemoveNodeKeepsOrder | AVLTree.cpp:112-132 | Removing a node of a search tree gives a search tree whose key set is the old one minus that node's key |
| AvlTree.RemoveNodeKeepsEntries | AVLTree.cpp:100-136 | Removing a node of a search tree removes exactly that node's entry, and every other key keeps its value |
| InsertPath.FindSlot | AVLTree.cpp:18-28 | The descent loop ends at an empty slot. Each step leaves a node and goes left exactly when the key is smaller than that node's key. In a non-empty tree the last node visited is the new node's parent |
| InsertPath.DescendFollowsOrder | AVLTree.cpp:21-28 | Every step of the descent leaves a node and goes left exactly when the key is smaller than that node's key. The descent ends at an empty slot |
| InsertPath.BalanceWalk | AVLTree.cpp:36-40 | The upward walk terminates and visits each ancestor once, from the parent up to the root. With the empty `balanceNode` it returns the tree unchanged |
| InsertPath.WalkVisitsAncestors | AVLTree.cpp:36-40 | On the descent path of the inserted key, every slot the upward walk visits holds a node of the grown tree, with the same key the old tree has there. So `balanceNode` is called on exactly the new node's ancestors |
| InsertPath.AttachAndWalk | AVLTree.cpp:18-40 | Finding the slot, hanging the new node there and walking up gives the recursive attachment. The walk visits exactly the new node's ancestors, nearest first, and each still holds its old key |
| InsertPath.AttachIsGraft | AVLTree.cpp:29-35 | Recursive attachment puts the new node at the previously empty slot the descent reaches, and changes nothing else |
| InsertPath.InsertAttachesAtSlot | AVLTree.cpp:18-41 | A successful insert into a non-empty search tree is the old tree with the new leaf grafted at the end of a non-empty descent path |
| InOrder.SearchTreeIffAscending | AVLTree.h:26 | A tree is a search tree exactly when its in-order key listing is strictly ascending |
| ValueNarrowing.ToInt | AVLTree.cpp:123 | The `size_t`-to-`int` conversion gives a 32-bit signed value congruent to the input modulo 2^32 |
| ValueNarrowing.ToSizeT | AVLTree.cpp:127 | The `int`-to-`size_t` store gives a value congruent to the input modulo 2^64 |
| ValueNarrowing.PromotedValueAsWritten | AVLTree.cpp:122-127 | The promoted value survives the round trip through `int` exactly when it is below 2^31 or within 2^31 of 2^64 |
| ValueNarrowing.RemoveNodeAsWritten | AVLTree.cpp:112-133 | The removal as written reports true exactly for an occupied slot, and leaves the same keys as the corrected removal |
| ValueNarrowing.AsWrittenDiffersOnlyByNarrowing | AVLTree.cpp:122-127 | The removal as written differs from the corrected one exactly when a two-child removal promotes a value that does not survive the narrowing |
| ValueNarrowing.NarrowingLosesSuccessorValue | AVLTree.cpp:123 | A concrete three-node search tree where removing the root turns the successor's value 2^32 into 0, while the corrected removal keeps 2^32 |

## Left out

- Parent back-pointers and `new`/`delete` ownership (AVLTree.cpp:11, 30, 134). The tree is an inductive value, so the upward walk is the recursion unwinding and nothing needs freeing.
- The stale parent pointer after a one-child removal. Lines 105-111 move the child into the slot but do not reset the child's `parent`, and line 134 then deletes the node that pointer names. A later `insert` below that child walks up through `parent` at lines 37-39 and passes the freed node to `balanceNode`. The model has no parent pointers, so its upward walk cannot go wrong this way.
- The platform. The two-child removal is modelled for a 64-bit `size_t` and a 32-bit `int` (`ValueNarrowing`). With a 32-bit `size_t` the copy through `int` at line 123 loses nothing, and the removal as written equals the corrected one.
- AVL rotations and the balance invariant. `balanceNode` has an empty body, so there is no rotation to model, and no balance property holds.
- The `balance` field. It is set to 0 by the constructor and never read.
- `treeSize` and `size()`. `insert` never updates the counter and `size()` has an empty body, so no size property holds.
- `remove(key)`, `get`, `operator[]`, `findRange`, `keys`, the copy constructor, assignment and the destructor. Their bodies are empty, so there is no behaviour to model. The in-order listing is used only as a specification function.
- The recursive `remove(AVLNode*&, KeyType)` returns `false` without doing anything. Its single use, deleting the successor from the root at line 124, is modelled as the deletion of the leftmost node of the right subtree (`RemoveMin`). In a search tree, a descent from the root for the successor key reaches that node.
- `AVLNode::getHeight` returns a constant 0 (AVLTree.cpp:91-93). Line 129 assigns its result to the node's height. The model reads the call as "the node's own height", so the height is unchanged. Read literally, line 129 stores 0, and a two-child removal leaves a non-empty tree whose `getHeight` reports 0. The evident purpose of line 129 is a third reading: recompute the cached height from the children before `balanceNode`. Under that reading a two-child removal stores at least 2, since the left child has height at least 1. `HeightsAreOne` and the bound in `AvlTree.Height` hold only under the model's reading.
- `AvlTree.Height`: states its bound only for trees whose stored heights are all 1. Under the model's reading of line 129 that is every tree `insert` and `removeNode` can build from the empty tree, since both preserve `HeightsAreOne`.
- `operator<<` printing. It is only declared, and it only produces output.
- Memory exhaustion on `new` is not modelled.
- Keys are modelled as Dafny strings, sequences of Unicode scalar values compared by code point, while `std::string` (AVLTree.h:16) is a sequence of bytes compared as `unsigned char`. The two orders agree on keys that are UTF-8 text, because UTF-8 preserves code-point order under byte comparison. Byte strings that are not valid UTF-8 are not modelled. No proof depends on the choice: only the strict total order matters.

## Findings

| source | as written | input that shows it | evidently intended | confidence | as-written member | corrected member |
|---|---|---|---|---|---|---|
| AVLTree.cpp:123 | The successor's `size_t` value is copied through `int newValue` before being stored back. With a 32-bit `int` this keeps only the low 32 bits, and the store sign-extends them | Remove root "b" of the tree a ↦ 1, b ↦ 2, c ↦ 2^32. "c" is promoted with value 0 | The promoted node keeps the successor's value unchanged | high, not executed | ValueNarrowing.RemoveNodeAsWritten | AvlTree.RemoveNode |

The corrected `AvlTree.RemoveNode` copies the value unchanged.
`AvlTree.RemoveNodeKeepsEntries` proves that every remaining key keeps its
value. `ValueNarrowing.NarrowingLosesSuccessorValue` exhibits the
discrepancy of the version as written.
