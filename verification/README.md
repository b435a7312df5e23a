# AVL tree (soniakeys/avl) in Dafny

A model of the package's bounded recursive AVL tree (`avl.go`). A tree stores
values that are compared only through their key. Duplicate keys are allowed.
Each node carries a balance factor, height(right) − height(left). Insertion
and removal are recursive and return the new subtree root with a `done` flag.
`done` says whether the change of height has already been absorbed. On the
way back up, a node whose factor reaches ±2 is rotated: a single rotation, or
balance adjustment followed by a double rotation.

The model is functional. Nodes are an immutable datatype, a rotation rebuilds
the nodes it touches, and a Go `*node` that is `nil` is the constructor `Nil`.

| module | file | contents |
|---|---|---|
| `Items` | items.dfy | the stored item (an integer key and a tag), key sequences, and the reference definition `InsertSorted` (insertion into a key-sorted sequence) |
| `Nodes` | nodes.dfy | nodes, directions (`opp`, `2*dir-1`), `Height`, `Inorder`, the AVL invariant `Balanced`, the search-tree order `Ordered`, and the primitives `single`, `double` and `adjustBalance` |
| `Rotations` | rotations.dfy | balance and height facts for each rebalancing case |
| `Insertion` | insertion.dfy | `insertBalance` and `insertR` |
| `Removal` | removal.dfy | `removeBalance`, `removeR` and the heir search |
| `Avl` | tree.dfy | `Tree` with `Insert`, `Remove` and `Find`, plus the AVL height bound |
| `Scenarios` | scenarios.dfy | the sequence of operations in `avl_test.go` and two small trees that show how removal treats absent and duplicated keys |

Where the package's documentation and its code disagree, the model follows the
code:
- Equal keys descend left on insertion (avl.go:120-122 goes right only when
  the node's key is less). A new item is therefore placed before every
  stored item with the same key. `Insertion.InsertInorder` proves this
  against `InsertSorted`.
- Removing an absent key is not a no-op (see Findings).
- A removal at a node with two children copies the heir's item into the node
  (avl.go:169). The result keeps the right bag of keys, but not necessarily
  the right bag of items. With duplicated keys, one item can appear twice
  while another one with the same key disappears (`Scenarios.DuplicateKeysRemove`).

## Model

| member | source | states |
|---|---|---|
| `Nodes.Single` | avl.go:63-69 | The child opposite to dir becomes the root. The old root becomes its dir child and takes over that child's dir subtree. The in-order sequence is unchanged. |
| `Nodes.Double` | avl.go:71-83 | The inner grandchild becomes the root. The old root's dir subtree stays the dir-most subtree. The in-order sequence is unchanged. |
| `Nodes.AdjustBalance` | avl.go:85-101 | Only balance fields change. The grandchild that will be promoted gets factor 0, the other side of the root is untouched, and the in-order sequence is unchanged. |
| `Rotations.ReplaceChild` | avl.go:124-125 | Putting back a well-formed child of the same height keeps the node well-formed and its height unchanged. |
| `Rotations.SingleValid` | avl.go:106-109 | The heavy child leans outwards. Zeroing both factors and rotating once gives a well-formed AVL subtree as tall as the heavy child. |
| `Rotations.SingleEvenValid` | avl.go:149-151 | The heavy child is evenly balanced (only after a removal). Giving the root factor −bal and the child factor bal and rotating once gives a well-formed subtree one level taller than the heavy child. |
| `Rotations.DoubleValid` | avl.go:86-101 | The heavy child leans inwards. Its inner child exists, and adjustBalance followed by a double rotation gives a well-formed subtree as tall as the heavy child, for every factor of the inner child. |
| `Insertion.InsertBalance` | avl.go:103-113 | Rebalancing returns a node and never reorders the in-order sequence. |
| `Insertion.InsertBalanceValid` | avl.go:103-113 | The dir child is two levels taller, well-formed and not evenly balanced. Rebalancing then gives a well-formed tree as tall as that child, so the growth is absorbed. |
| `Insertion.Grow` | avl.go:124-134 | After the recursive call, the result's in-order sequence is the node's with the dir child replaced by the child's result. The rotation's preconditions hold. |
| `Insertion.GrowValid` | avl.go:124-134 | After the recursive call, the node is well-formed. done is false exactly when it grew by one level, and a node that grew is never evenly balanced. |
| `Insertion.GrowValidRotate` | avl.go:127-134 | When the factor would reach ±2, insertBalance is called and the node's height is restored (done = true). |
| `Insertion.GrowChild` | avl.go:127-133 | Without a rotation the factor moves towards dir. The node grows unless the new factor is 0. |
| `Insertion.GrowChildRotate` | avl.go:127-134 | With the factor at ±2, the children insertBalance rotates exist and the result has the node's old height. |
| `Insertion.InsertR` | avl.go:115-135 | On a well-formed AVL tree the result is well-formed. done is false exactly when the height grew by one, and a grown non-empty subtree is not evenly balanced. |
| `Insertion.InsertStep` | avl.go:119-126 | Depending on the descent direction, the in-order sequence is the child's result around the node's item and the untouched sibling. |
| `Insertion.InsertBag` | avl.go:115-135 | Insertion adds exactly one item, the new one, whatever the tree's order. |
| `Insertion.InsertInorder` | avl.go:115-135 | On a search tree, the in-order sequence after insertion equals the reference insertion into the sorted sequence: after smaller keys, before equal or greater keys. |
| `Insertion.InsertOrdered` | avl.go:115-135 | Insertion keeps the search-tree order. |
| `Insertion.EqualKeysGoLeft` | avl.go:119-124 | An item whose key is at most the root's key goes into the left subtree and ends up in front of the root's item. |
| `Removal.Heir` | avl.go:165-168 | The heir (rightmost node of the left subtree) holds the last item of that subtree's in-order sequence. |
| `Removal.HeirIsMax` | avl.go:165-170 | In a search tree the heir holds the greatest key. |
| `Removal.RemoveBalance` | avl.go:137-152 | Rebalancing after a shrink returns a node, keeps the in-order sequence, and keeps the shrunken side two levels down on side dir. |
| `Removal.RemoveBalanceValid` | avl.go:137-152 | The dir side is two levels shorter than a well-formed sibling. The result is well-formed. done is true exactly when it is one level taller than the sibling, i.e. as tall as the node was before the removal. |
| `Removal.Rebuild` | avl.go:176-187 | After the recursive call, the in-order sequence is the node's, with its item replaced by the kept item and the dir child replaced by the child's result. |
| `Removal.RebuildShape` | avl.go:176-187 | If the child's result is well-formed and its done flag tells whether it shrank, the same holds for the rebuilt node. |
| `Removal.RebuildKeepsSub` | avl.go:176-187 | The child's result is a subtree of the rebuilt node, so a well-formed rebuilt node has a well-formed child result. |
| `Removal.ShrinkChild` | avl.go:180-185 | Without a rotation the factor moves away from dir. The node shrinks exactly when the new factor is 0. |
| `Removal.ShrinkChildRotate` | avl.go:180-187 | With the factor at ±2, the sibling (and, when needed, its inner child) exists, and removeBalance's done flag tells whether the height dropped. |
| `Removal.RemoveStep` | avl.go:165-178 | Below a node that is not unlinked, the in-order sequence is the child's result, the kept item (the heir's on a key match) and the untouched sibling. |
| `Removal.DescendPresent` | avl.go:165-175 | On a search tree holding the key, the child removeR descends into holds the key searched for next. |
| `Removal.RemoveShapeStep` | avl.go:172-187 | One level of removeR preserves the height bookkeeping. |
| `Removal.RemoveKeysStep` | avl.go:165-187 | One level of removeR removes one occurrence of the key and keeps the order, with or without taking over the heir. |
| `Removal.TakeHeir` | avl.go:169-170 | A node that takes the heir's item above its left subtree minus the heir's key is ordered and has lost one occurrence of its own key. |
| `Removal.RemoveUnlinked` | avl.go:158-164 | A matching node with at most one child is replaced by that child. The child is one level shorter, ordered and well-formed, and has lost exactly the key. |
| `Removal.SurvivorValid` | avl.go:159-163 | The surviving child holds the node's keys minus its own and is one level shorter. |
| `Removal.RemovePresent` | avl.go:154-188 | For a present key on an ordered AVL tree, exactly one occurrence leaves the key bag. The result is ordered and well-formed, and done is false exactly when the height dropped by one. |
| `Removal.RemoveAbsentInorder` | avl.go:154-188 | Removing an absent key keeps the in-order sequence. |
| `Removal.RemoveAbsentAtLeaf` | avl.go:155-187 | As written, a search that falls off at an empty child reports a shrink, and the parent is left with a wrong balance factor. |
| `Removal.RemoveKeepsSub` | avl.go:172-187 | If the node's result is well-formed, so is the result for the child it descended into. |
| `Removal.RemoveAbsentCorrupts` | avl.go:155-156 | As written, removing an absent key from a non-empty AVL tree leaves it not well-formed. |
| `Removal.RemoveAbsentNoEffect` | avl.go:25-30 | As written, removing an absent key leaves the tree unchanged exactly when the tree is empty. |
| `Removal.RemoveAbsentFixed` | avl.go:154-188 | With done = true for an empty subtree, removing an absent key returns the tree itself with done = true. |
| `Removal.RemoveNoNewItems` | avl.go:154-188 | Every item in the result was already stored. |
| `Avl.Insert` | avl.go:18-23 | The item is added even when its key is present. The tree stays well-formed, and on a search tree the result is the sorted insertion. |
| `Avl.Remove` | avl.go:25-30 | A present key on a valid tree: one occurrence goes and the tree stays valid. An absent key: the in-order sequence is kept, but the tree stays well-formed only if it was empty. |
| `Avl.RemoveFixed` | avl.go:25-30 | The corrected removal: the same for a present key, and the tree itself for an absent key. |
| `Avl.LookupCorrect` | avl.go:32-47 | What the search reaches is a stored item with the key. On a search tree it finds one exactly when the key is stored. |
| `Avl.Find` | avl.go:32-47 | The loop returns the item of the first node on the search path with an equal key, or None, and agrees with the recursive Lookup. |
| `Avl.BalancedSize` | avl.go:5-6 | A well-formed AVL tree of height h holds at least MinNodes(h) items. |
| `Avl.HeightBound` | avl.go:5-6 | A well-formed AVL tree of height h holds at least 2^(h/2) − 1 items, which bounds the recursion depth. |
| `Scenarios.TestInserts` | avl_test.go:40-44 | The five insertions of the test build the stated tree, with the second 1 to the left of the first. |
| `Scenarios.TestRun` | avl_test.go:34-57 | The test's finds return three, one, four and five. Removing 3 and then 1 leaves uno, four and five with all factors 0. |
| `Scenarios.AbsentKeyCorrupts` | avl.go:155-156 | Insert 2, insert 1, remove 3 gives root 1 (factor +1) over the leaf 2 with factor −1, which is not well-formed. The corrected removal returns the tree. |
| `Scenarios.DuplicateInserts` | avl.go:18-23 | Inserting 10, 3, 20, 3, 3 keeps all three 3s and rotates once. |
| `Scenarios.DuplicateRemoval` | avl.go:165-170 | Removing 10 from that tree goes through two heir takeovers and ends at the leaf holding the last 3. |
| `Scenarios.DuplicateKeysRemove` | avl.go:169-170 | After that removal the in-order items are c, a, a, y: the key bag is right, item a appears twice and item b is gone. |

## Left out

- `Dump` and the test's printing (avl_test.go:10-21, 36-56) are output only.
- The `Key` interface (avl.go:8-13) is modelled as an integer key per item, compared with `<`, `==` and `>` as the test's `intKey` does. The type assertions in the test's `Less`/`Equal`/`Greater`, which can panic, are not modelled.
- Pointer identity and in-place mutation are not modelled. Nodes are values and rotations rebuild them. Callers holding pointers into the tree are outside the model.
- The balance field is an `int8`. It only ever holds −2..2, so there is no wrap-around, and it is modelled as `int`.
- Trees with wrong balance factors are excluded: `InsertR`, `RemoveR`, `Avl.Insert` and `Avl.Remove` require `Balanced`. On such trees the code can dereference nil in `insertBalance`/`removeBalance`. `Find` has no requirement.
- Avl.Remove: for a present key the contract speaks of the bag of keys, not items. A two-child removal copies the heir's item, so the bag of items is not preserved when keys are duplicated.
- Removal.RemoveR: carries no contract of its own. Its properties are the lemmas `RemovePresent`, `RemoveAbsentInorder`, `RemoveAbsentCorrupts`, `RemoveAbsentFixed` and `RemoveNoNewItems`.
- Concurrency: the package has none, and a `Tree` must not be used concurrently.

## Findings

| source | as written | input that shows it | evidently intended | confidence | as-written member | corrected member |
|---|---|---|---|---|---|---|
| avl.go:155-156 | `removeR` on an empty subtree returns done = false, so a search that misses the key is treated as a removal that shrank the subtree. The parents' balance factors move and may rotate. | Insert 2, insert 1, remove 3: the result is root 1 (factor +1) with right child 2, a leaf whose factor is −1 instead of 0. | Removing an absent key has no effect (avl.go:27), i.e. `return nil, true`. | high; not executed | `Removal.RemoveAbsentCorrupts` | `Avl.RemoveFixed` |
