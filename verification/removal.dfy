/**
 Removal with rebalancing (avl.go:137-188).

 removeR searches for the key. A matching node with at most one child is
 replaced by that child. A matching node with two children takes over the
 item of its in-order predecessor (the heir) and the search continues in the
 left subtree for the heir's key. On the way back up every node whose
 subtree shrank subtracts 2*dir-1 from its balance factor and a node that
 reaches +-2 is rotated.

 The source returns done = false for an empty subtree (avl.go:155-156), so a
 search that misses the key is treated as a removal that shrank the subtree.
 RemoveR takes the value reported for an empty subtree as the parameter
 nilDone: false is the code as written, true the corrected variant.
 */
module Removal {
  import opened Items
  import opened Nodes
  import Rotations

  /** The in-order predecessor of a node with two children: the rightmost
      node of its left subtree (avl.go:165-168). Its item is the last one of
      the subtree's in-order sequence. */
  function Heir(n: Node): (h: Item)
    requires n.Node?
    ensures h == Inorder(n)[|Inorder(n)| - 1]
  {
    if n.right.Nil? then n.item else Heir(n.right)
  }

  /** Rebalancing of a node whose dir side has become two levels shorter
      than the other side (avl.go:137-152). The sibling must exist; the
      double rotation also needs the sibling's inner child. done is true
      only when the sibling was evenly balanced, the one case in which the
      rotation keeps the subtree's height. */
  function RemoveBalance(root: Node, dir: Dir): (r: Step)
    requires root.Node? && Link(root, Opp(dir)).Node?
    requires Link(root, Opp(dir)).balance == Sign(dir) ==> Link(Link(root, Opp(dir)), dir).Node?
    ensures r.node.Node? && Inorder(r.node) == Inorder(root)
    ensures Link(r.node, dir).Node? && Link(Link(r.node, dir), dir) == Link(root, dir)
  {
    var n := Link(root, Opp(dir));
    var bal := Sign(dir);
    if n.balance == -bal then
      var root1 := SetLink(root.(balance := 0), Opp(dir), n.(balance := 0));
      assert Inorder(root1) == Inorder(root);
      Step(Single(root1, dir), false)
    else if n.balance == bal then
      Step(Double(AdjustBalance(root, Opp(dir), -bal), dir), false)
    else
      var root1 := SetLink(root.(balance := -bal), Opp(dir), n.(balance := bal));
      assert Inorder(root1) == Inorder(root);
      Step(Single(root1, dir), true)
  }

  /** Whether removeR unlinks this node directly: its key matches and one of
      its children is missing (avl.go:158-164). */
  predicate Unlinks(root: Node, key: int)
    requires root.Node?
  {
    key == root.item.key && (root.left.Nil? || root.right.Nil?)
  }

  /** The item the node keeps while removeR descends: the heir's item when
      the node's own key matches (avl.go:169), its own item otherwise. */
  function KeptItem(root: Node, key: int): Item
    requires root.Node? && !Unlinks(root, key)
  {
    if key == root.item.key then Heir(root.left) else root.item
  }

  /** The key removeR searches for below the node: the heir's key once the
      node has taken over the heir's item (avl.go:170). */
  function SearchKey(root: Node, key: int): int
    requires root.Node? && !Unlinks(root, key)
  {
    if key == root.item.key then Heir(root.left).key else key
  }

  /** The direction removeR descends in (avl.go:172-175): right only when the
      search key is greater than the key of the (possibly updated) node, so
      after taking over the heir's item it always goes left. */
  function RemoveDir(root: Node, key: int): Dir
    requires root.Node? && !Unlinks(root, key)
  {
    if SearchKey(root, key) > KeptItem(root, key).key then 1 else 0
  }

  /** What removeR does once the recursive call on side dir has returned
      sub (avl.go:176-187): the node, now holding item, takes sub's tree as
      its dir child; if that subtree shrank, the balance factor moves away
      from dir, and a node that reaches +-2 is handed to removeBalance. On a
      well-formed node the rotation always finds the children it needs, and
      no rebuilding reorders the in-order sequence. */
  function Rebuild(root: Node, dir: Dir, item: Item, sub: Step): (r: Step)
    requires Balanced(root) && root.Node?
    ensures Inorder(r.node) == Inorder(SetLink(root.(item := item), dir, sub.node))
  {
    var top := root.(item := item);
    if sub.done then
      Step(SetLink(top, dir, sub.node), true)
    else
      var b1 := root.balance - Sign(dir);
      if -1 <= b1 <= 1 then
        Step(SetLink(top.(balance := b1), dir, sub.node), b1 != 0)
      else
        var sibling := Link(root, Opp(dir));
        assert Height(sibling) == Height(Link(root, dir)) + 1;
        assert sibling.Node? && Balanced(sibling);
        assert sibling.balance == Sign(dir) ==> Height(Link(sibling, dir)) > 0;
        var n := SetLink(top.(balance := b1), dir, sub.node);
        assert Inorder(n) == Inorder(SetLink(top, dir, sub.node));
        RemoveBalance(n, dir)
  }

  /** Recursive removal (avl.go:154-188): an empty subtree reports nilDone;
      a matching node with at most one child is replaced by that child;
      otherwise the search goes on below the node and the node is rebuilt
      around the result. */
  function RemoveR(root: Node, key: int, nilDone: bool): Step
    requires Balanced(root)
    decreases root
  {
    match root
    case Nil => Step(Nil, nilDone)
    case Node(l, _, _, rt) =>
      if Unlinks(root, key) then
        Step(if l.Nil? then rt else l, false)
      else
        var dir := RemoveDir(root, key);
        Rebuild(root, dir, KeptItem(root, key),
          RemoveR(if dir == 0 then l else rt, SearchKey(root, key), nilDone))
  }

  /** Rebalancing after a removal: when the dir side is two levels shorter
      than a well-formed sibling, the result is a well-formed AVL tree;
      done is true exactly when it is one level taller than the sibling,
      i.e. as tall as the node was before the removal. */
  lemma RemoveBalanceValid(root: Node, dir: Dir)
    requires root.Node? && Link(root, Opp(dir)).Node?
    requires Balanced(Link(root, dir)) && Balanced(Link(root, Opp(dir)))
    requires Height(Link(root, Opp(dir))) == Height(Link(root, dir)) + 2
    ensures var r := RemoveBalance(root, dir);
      && Balanced(r.node)
      && (r.done ==> Height(r.node) == Height(Link(root, Opp(dir))) + 1)
      && (!r.done ==> Height(r.node) == Height(Link(root, Opp(dir))))
  {
    var n := Link(root, Opp(dir));
    if n.balance == -Sign(dir) {
      Rotations.SingleValid(root, Opp(dir));
    } else if n.balance == Sign(dir) {
      Rotations.DoubleValid(root, Opp(dir));
    } else {
      Rotations.SingleEvenValid(root, Opp(dir));
    }
  }

  /** Below a node it does not unlink, removeR rebuilds the node around the
      result for its child: the in-order sequence is that of the child's
      result, the kept item and the untouched subtree, in order. */
  lemma RemoveStep(root: Node, key: int, nilDone: bool)
    requires Balanced(root) && root.Node? && !Unlinks(root, key)
    ensures RemoveDir(root, key) == 0 ==>
      Inorder(RemoveR(root, key, nilDone).node)
        == Inorder(RemoveR(root.left, SearchKey(root, key), nilDone).node)
           + [KeptItem(root, key)] + Inorder(root.right)
    ensures RemoveDir(root, key) == 1 ==>
      Inorder(RemoveR(root, key, nilDone).node)
        == Inorder(root.left) + [KeptItem(root, key)]
           + Inorder(RemoveR(root.right, SearchKey(root, key), nilDone).node)
  {
    var dir := RemoveDir(root, key);
    var sub := RemoveR(Link(root, dir), SearchKey(root, key), nilDone);
    assert RemoveR(root, key, nilDone) == Rebuild(root, dir, KeptItem(root, key), sub);
  }

  /** Removing a key that no stored item has leaves the in-order sequence,
      and so the key bag, unchanged (the half of avl.go:27 that holds). */
  lemma {:induction false} RemoveAbsentInorder(root: Node, key: int, nilDone: bool)
    requires Balanced(root) && key !in KeyBag(root)
    ensures Inorder(RemoveR(root, key, nilDone).node) == Inorder(root)
    decreases root
  {
    match root
    case Nil =>
    case Node(l, y, _, rt) =>
      KeysNode(root);
      RemoveStep(root, key, nilDone);
      if RemoveDir(root, key) == 0 {
        RemoveAbsentInorder(l, key, nilDone);
      } else {
        RemoveAbsentInorder(rt, key, nilDone);
      }
  }

  /** On a search tree holding the key, the key searched for below a node
      that is not unlinked is held by the child removeR descends into. */
  lemma DescendPresent(root: Node, key: int)
    requires Ordered(root) && root.Node? && key in KeyBag(root) && !Unlinks(root, key)
    ensures Ordered(Link(root, RemoveDir(root, key)))
    ensures SearchKey(root, key) in KeyBag(Link(root, RemoveDir(root, key)))
  {
    KeysNode(root);
    OrderedNode(root);
    if key == root.item.key {
      HeirIsMax(root.left);
    }
  }

  /** The heir of a search tree holds its greatest key. */
  lemma HeirIsMax(n: Node)
    requires n.Node? && Ordered(n)
    ensures Heir(n).key in KeyBag(n) && AtMost(KeyBag(n), Heir(n).key)
  {
    var s := Inorder(n);
    LastIsMax(s);
    assert Keys(s)[|s| - 1] == Heir(n).key;
  }

  /** The height bookkeeping of one level of removeR: if the child's result
      is a well-formed AVL tree and done tells whether its height dropped,
      the same holds one level up. */
  lemma RemoveShapeStep(root: Node, key: int, nilDone: bool)
    requires Balanced(root) && root.Node? && !Unlinks(root, key)
    requires var child := Link(root, RemoveDir(root, key));
      var sub := RemoveR(child, SearchKey(root, key), nilDone);
      && Balanced(sub.node)
      && (sub.done ==> Height(sub.node) == Height(child))
      && (!sub.done ==> Height(sub.node) + 1 == Height(child))
    ensures var r := RemoveR(root, key, nilDone);
      && Balanced(r.node)
      && (r.done ==> Height(r.node) == Height(root))
      && (!r.done ==> Height(r.node) + 1 == Height(root))
  {
    var dir := RemoveDir(root, key);
    var sub := RemoveR(Link(root, dir), SearchKey(root, key), nilDone);
    assert RemoveR(root, key, nilDone) == Rebuild(root, dir, KeptItem(root, key), sub);
    RebuildShape(root, dir, KeptItem(root, key), sub);
  }

  /** The height bookkeeping of Rebuild: if sub's tree is well-formed and
      its done flag tells whether it is shorter than the dir child it
      replaces, the rebuilt node is well-formed and its done flag tells
      whether it is shorter than the node was. */
  lemma RebuildShape(root: Node, dir: Dir, item: Item, sub: Step)
    requires Balanced(root) && root.Node? && Balanced(sub.node)
    requires sub.done ==> Height(sub.node) == Height(Link(root, dir))
    requires !sub.done ==> Height(sub.node) + 1 == Height(Link(root, dir))
    ensures var r := Rebuild(root, dir, item, sub);
      && Balanced(r.node)
      && (r.done ==> Height(r.node) == Height(root))
      && (!r.done ==> Height(r.node) + 1 == Height(root))
  {
    var top := root.(item := item);
    var b1 := root.balance - Sign(dir);
    var r := Rebuild(root, dir, item, sub);
    if sub.done {
      Rotations.ReplaceChild(top, dir, sub.node);
      assert r == Step(SetLink(top, dir, sub.node), true);
    } else if -1 <= b1 <= 1 {
      ShrinkChild(top, dir, sub.node);
      assert r == Step(SetLink(top.(balance := b1), dir, sub.node), b1 != 0);
    } else {
      ShrinkChildRotate(top, dir, sub.node);
      assert r == RemoveBalance(SetLink(top.(balance := b1), dir, sub.node), dir);
    }
  }

  /** Replacing a child by a well-formed subtree one level shorter, without
      a rotation: the balance factor moves away from dir; the node keeps its
      height unless the new factor is 0, when it becomes one level shorter. */
  lemma ShrinkChild(root: Node, dir: Dir, c: Node)
    requires Balanced(root) && root.Node? && Balanced(c) && Height(c) + 1 == Height(Link(root, dir))
    requires -1 <= root.balance - Sign(dir) <= 1
    ensures var n := SetLink(root.(balance := root.balance - Sign(dir)), dir, c);
      && Balanced(n)
      && (n.balance != 0 ==> Height(n) == Height(root))
      && (n.balance == 0 ==> Height(n) + 1 == Height(root))
  {
  }

  /** Replacing a child by a well-formed subtree one level shorter when the
      balance factor would leave {-1, 0, 1}: removeBalance restores a
      well-formed tree whose done flag tells whether the height dropped. */
  lemma ShrinkChildRotate(root: Node, dir: Dir, c: Node)
    requires Balanced(root) && root.Node? && Balanced(c) && Height(c) + 1 == Height(Link(root, dir))
    requires !(-1 <= root.balance - Sign(dir) <= 1)
    ensures var n := SetLink(root.(balance := root.balance - Sign(dir)), dir, c);
      && Link(n, Opp(dir)).Node?
      && (Link(n, Opp(dir)).balance == Sign(dir) ==> Link(Link(n, Opp(dir)), dir).Node?)
      && var r := RemoveBalance(n, dir);
      && Balanced(r.node)
      && (r.done ==> Height(r.node) == Height(root))
      && (!r.done ==> Height(r.node) + 1 == Height(root))
  {
    var n := SetLink(root.(balance := root.balance - Sign(dir)), dir, c);
    assert Link(n, dir) == c && Link(n, Opp(dir)) == Link(root, Opp(dir));
    assert Height(Link(n, Opp(dir))) == Height(c) + 2;
    RemoveBalanceValid(n, dir);
  }

  /** The key bookkeeping of one level of removeR on a search tree: if the
      child's result lost one occurrence of the searched key and stayed
      ordered, the node's result lost one occurrence of the removed key and
      stays ordered, whether or not the node took over its heir's item. */
  lemma RemoveKeysStep(root: Node, key: int, nilDone: bool)
    requires Balanced(root) && Ordered(root) && root.Node? && !Unlinks(root, key)
    requires key in KeyBag(root)
    requires var child := Link(root, RemoveDir(root, key));
      var k := SearchKey(root, key);
      var sub := RemoveR(child, k, nilDone);
      Ordered(sub.node) && KeyBag(sub.node) == KeyBag(child) - multiset{k}
    ensures var r := RemoveR(root, key, nilDone);
      Ordered(r.node) && KeyBag(r.node) == KeyBag(root) - multiset{key}
  {
    var dir := RemoveDir(root, key);
    var k := SearchKey(root, key);
    var sub := RemoveR(Link(root, dir), k, nilDone);
    var r := RemoveR(root, key, nilDone);
    RemoveStep(root, key, nilDone);
    DescendPresent(root, key);
    if key == root.item.key {
      var shape := Node(sub.node, Heir(root.left), 0, root.right);
      assert Inorder(r.node) == Inorder(shape);
      TakeHeir(root, sub.node);
    } else if dir == 0 {
      var shape := Node(sub.node, root.item, 0, root.right);
      assert Inorder(r.node) == Inorder(shape);
      assert k == key && key < root.item.key && Link(root, dir) == root.left;
      DescendLeft(root, sub.node, key);
    } else {
      var shape := Node(root.left, root.item, 0, sub.node);
      assert Inorder(r.node) == Inorder(shape);
      assert k == key && root.item.key < key && Link(root, dir) == root.right;
      DescendRight(root, sub.node, key);
    }
  }

  /** A node that took over its heir's item, above the left subtree with
      one occurrence of the heir's key removed, is ordered and has lost one
      occurrence of its own former key. */
  lemma TakeHeir(root: Node, sub: Node)
    requires root.Node? && root.left.Node? && Ordered(root)
    requires Ordered(sub) && KeyBag(sub) == KeyBag(root.left) - multiset{Heir(root.left).key}
    ensures var shape := Node(sub, Heir(root.left), 0, root.right);
      Ordered(shape) && KeyBag(shape) == KeyBag(root) - multiset{root.item.key}
  {
    OrderedNode(root);
    HeirIsMax(root.left);
    TakeHeirOrdered(root, sub);
    TakeHeirBag(root, sub);
  }

  lemma TakeHeirOrdered(root: Node, sub: Node)
    requires root.Node? && root.left.Node? && Ordered(root)
    requires Ordered(sub) && KeyBag(sub) == KeyBag(root.left) - multiset{Heir(root.left).key}
    ensures Ordered(Node(sub, Heir(root.left), 0, root.right))
  {
    var h := Heir(root.left);
    OrderedNode(root);
    HeirIsMax(root.left);
    HeirBounds(KeyBag(root.left), KeyBag(sub), KeyBag(root.right), h.key, root.item.key);
    OrderedNode(Node(sub, h, 0, root.right));
  }

  /** The heir's key bounds what is left of the left subtree from above and
      the right subtree from below. */
  lemma HeirBounds(kl: multiset<int>, ks: multiset<int>, kr: multiset<int>, h: int, y: int)
    requires AtMost(kl, y) && AtLeast(kr, y) && h in kl && AtMost(kl, h)
    requires ks == kl - multiset{h}
    ensures AtMost(ks, h) && AtLeast(kr, h)
  {
    assert h <= y;
    forall x | x in ks ensures x <= h {
      assert x in kl;
    }
  }

  lemma TakeHeirBag(root: Node, sub: Node)
    requires root.Node? && root.left.Node?
    requires Heir(root.left).key in KeyBag(root.left)
    requires KeyBag(sub) == KeyBag(root.left) - multiset{Heir(root.left).key}
    ensures KeyBag(Node(sub, Heir(root.left), 0, root.right)) == KeyBag(root) - multiset{root.item.key}
  {
    var h := Heir(root.left);
    var kl, y, kr := KeyBag(root.left), root.item.key, KeyBag(root.right);
    KeysNode(root);
    KeysNode(Node(sub, h, 0, root.right));
    MinusMiddle(kl, y, kr);
    HeirBack(kl, h.key);
  }

  /** Taking one occurrence out of a bag and putting it back. */
  lemma HeirBack(b: multiset<int>, k: int)
    requires k in b
    ensures (b - multiset{k}) + multiset{k} == b
  {
  }

  /** A node above its left subtree with one occurrence of a smaller key
      removed is ordered and has lost that occurrence. */
  lemma DescendLeft(root: Node, sub: Node, key: int)
    requires root.Node? && Ordered(root) && key < root.item.key && key in KeyBag(root.left)
    requires Ordered(sub) && KeyBag(sub) == KeyBag(root.left) - multiset{key}
    ensures var shape := Node(sub, root.item, 0, root.right);
      Ordered(shape) && KeyBag(shape) == KeyBag(root) - multiset{key}
  {
    var shape := Node(sub, root.item, 0, root.right);
    KeysNode(root);
    OrderedNode(root);
    KeysNode(shape);
    OrderedNode(shape);
  }

  /** A node above its right subtree with one occurrence of a greater key
      removed is ordered and has lost that occurrence. */
  lemma DescendRight(root: Node, sub: Node, key: int)
    requires root.Node? && Ordered(root) && root.item.key < key && key in KeyBag(root.right)
    requires Ordered(sub) && KeyBag(sub) == KeyBag(root.right) - multiset{key}
    ensures var shape := Node(root.left, root.item, 0, sub);
      Ordered(shape) && KeyBag(shape) == KeyBag(root) - multiset{key}
  {
    var shape := Node(root.left, root.item, 0, sub);
    KeysNode(root);
    OrderedNode(root);
    KeysNode(shape);
    OrderedNode(shape);
  }

  /** Removing a key that is present from a well-formed AVL search tree
      (avl.go:137-188): exactly one occurrence of the key leaves the key bag,
      the result is again an ordered, well-formed AVL tree, and done is false
      exactly when the tree became one level shorter. */
  lemma {:induction false} RemovePresent(root: Node, key: int, nilDone: bool)
    requires Balanced(root) && Ordered(root) && key in KeyBag(root)
    ensures var r := RemoveR(root, key, nilDone);
      && Balanced(r.node) && Ordered(r.node)
      && KeyBag(r.node) == KeyBag(root) - multiset{key}
      && (r.done ==> Height(r.node) == Height(root))
      && (!r.done ==> Height(r.node) + 1 == Height(root))
    decreases root
  {
    assert root.Node?;
    if Unlinks(root, key) {
      RemoveUnlinked(root, key, nilDone);
    } else {
      var dir := RemoveDir(root, key);
      DescendPresent(root, key);
      RemovePresent(Link(root, dir), SearchKey(root, key), nilDone);
      RemoveShapeStep(root, key, nilDone);
      RemoveKeysStep(root, key, nilDone);
    }
  }

  /** A matching node with at most one child is replaced by that child
      (avl.go:158-164): one occurrence of the key goes, the child is an
      ordered, well-formed AVL tree and is one level shorter. */
  lemma RemoveUnlinked(root: Node, key: int, nilDone: bool)
    requires Balanced(root) && Ordered(root) && root.Node? && Unlinks(root, key)
    ensures var r := RemoveR(root, key, nilDone);
      && !r.done && Balanced(r.node) && Ordered(r.node)
      && KeyBag(r.node) == KeyBag(root) - multiset{key}
      && Height(r.node) + 1 == Height(root)
  {
    assert RemoveR(root, key, nilDone) == Step(Survivor(root), false);
    SurvivorValid(root);
  }

  /** The child that replaces an unlinked node. */
  function Survivor(root: Node): Node
    requires root.Node?
  {
    if root.left.Nil? then root.right else root.left
  }

  /** The surviving child of a node with at most one child holds the
      node's keys but its own, in order, and is one level shorter. */
  lemma SurvivorValid(root: Node)
    requires Balanced(root) && Ordered(root) && root.Node?
    requires root.left.Nil? || root.right.Nil?
    ensures Balanced(Survivor(root)) && Ordered(Survivor(root))
    ensures KeyBag(Survivor(root)) == KeyBag(root) - multiset{root.item.key}
    ensures Height(Survivor(root)) + 1 == Height(root)
  {
    KeysNode(root);
    OrderedNode(root);
    var kl, kr := KeyBag(root.left), KeyBag(root.right);
    MinusMiddle(kl, root.item.key, kr);
    assert KeyBag(Nil) == multiset{};
  }

  lemma MinusMiddle(a: multiset<int>, k: int, b: multiset<int>)
    ensures (a + multiset{k} + b) - multiset{k} == a + b
  {
  }

  /** With the corrected base case (done = true for an empty subtree),
      removing a key no stored item has returns the tree itself: this is the
      "no effect" avl.go:27 promises. */
  lemma {:induction false} RemoveAbsentFixed(root: Node, key: int)
    requires Balanced(root) && key !in KeyBag(root)
    ensures RemoveR(root, key, true) == Step(root, true)
    decreases root
  {
    match root
    case Nil =>
    case Node(l, y, _, rt) =>
      KeysNode(root);
      var dir := RemoveDir(root, key);
      assert KeptItem(root, key) == y && SearchKey(root, key) == key;
      RemoveAbsentFixed(Link(root, dir), key);
      assert SetLink(root.(item := y), dir, Link(root, dir)) == root;
  }

  /** A subtree removeR rebuilds stays in the result: if the result for a
      node is a well-formed AVL tree, so is the result for the child it
      descended into. */
  lemma RemoveKeepsSub(root: Node, key: int, nilDone: bool)
    requires Balanced(root) && root.Node? && !Unlinks(root, key)
    ensures Balanced(RemoveR(root, key, nilDone).node) ==>
      Balanced(RemoveR(Link(root, RemoveDir(root, key)), SearchKey(root, key), nilDone).node)
  {
    var dir := RemoveDir(root, key);
    var sub := RemoveR(Link(root, dir), SearchKey(root, key), nilDone);
    assert RemoveR(root, key, nilDone) == Rebuild(root, dir, KeptItem(root, key), sub);
    RebuildKeepsSub(root, dir, KeptItem(root, key), sub);
  }

  /** Rebuild keeps sub's tree as a subtree of its result, so a well-formed
      result has a well-formed sub. */
  lemma RebuildKeepsSub(root: Node, dir: Dir, item: Item, sub: Step)
    requires Balanced(root) && root.Node?
    ensures Balanced(Rebuild(root, dir, item, sub).node) ==> Balanced(sub.node)
  {
    var r := Rebuild(root, dir, item, sub);
    var b1 := root.balance - Sign(dir);
    if !sub.done && !(-1 <= b1 <= 1) {
      assert Link(Link(r.node, dir), dir) == sub.node;
      if Balanced(r.node) {
        assert Balanced(Link(r.node, dir));
      }
    } else {
      assert Link(r.node, dir) == sub.node;
    }
  }

  /** As written, a search that falls off a well-formed node at an empty
      child reports a shrunken subtree, and the node's balance factor is
      moved although nothing was removed: the result is no longer a
      well-formed AVL tree. */
  lemma RemoveAbsentAtLeaf(root: Node, key: int)
    requires Balanced(root) && root.Node? && key != root.item.key
    requires Link(root, RemoveDir(root, key)).Nil?
    ensures !Balanced(RemoveR(root, key, false).node)
  {
    var dir := RemoveDir(root, key);
    var r := RemoveR(root, key, false);
    assert KeptItem(root, key) == root.item;
    assert RemoveR(Link(root, dir), key, false) == Step(Nil, false);
    assert r == Rebuild(root, dir, root.item, Step(Nil, false));
    var b1 := root.balance - Sign(dir);
    assert root.(item := root.item) == root;
    if b1 == 1 || b1 == -1 {
      assert r.node == root.(balance := b1);
    } else {
      var n := Link(root, Opp(dir));
      assert n.Node? && n.left.Nil? && n.right.Nil? && n.balance == 0;
      assert r == RemoveBalance(root.(balance := b1), dir);
      assert Link(r.node, dir) == SetLink(root.(balance := -Sign(dir)), Opp(dir), Nil);
    }
  }

  /** As written (avl.go:155-156), removing a key that no stored item has
      from a non-empty well-formed AVL tree leaves balance factors that no
      longer match the heights: the doc comment's "no effect" fails. */
  lemma {:induction false} RemoveAbsentCorrupts(root: Node, key: int)
    requires Balanced(root) && root.Node? && key !in KeyBag(root)
    ensures !Balanced(RemoveR(root, key, false).node)
    decreases root
  {
    KeysNode(root);
    var dir := RemoveDir(root, key);
    assert SearchKey(root, key) == key;
    if Link(root, dir).Nil? {
      RemoveAbsentAtLeaf(root, key);
    } else {
      RemoveAbsentCorrupts(Link(root, dir), key);
      RemoveKeepsSub(root, key, false);
    }
  }

  /** As written, removing an absent key leaves the tree unchanged exactly
      when the tree is empty. */
  lemma RemoveAbsentNoEffect(root: Node, key: int)
    requires Balanced(root) && key !in KeyBag(root)
    ensures RemoveR(root, key, false).node == root <==> root.Nil?
  {
    if root.Node? {
      RemoveAbsentCorrupts(root, key);
    }
  }

  /** Removal never invents an item: every item of the result was already
      stored (an item may be stored twice after a two-child removal copies
      the heir, but only when the heir is already there). */
  lemma {:induction false} RemoveNoNewItems(root: Node, key: int, nilDone: bool)
    requires Balanced(root)
    ensures forall e | e in Inorder(RemoveR(root, key, nilDone).node) :: e in Inorder(root)
    decreases root
  {
    match root
    case Nil =>
    case Node(l, y, _, rt) =>
      if !Unlinks(root, key) {
        var dir := RemoveDir(root, key);
        RemoveNoNewItems(Link(root, dir), SearchKey(root, key), nilDone);
        RemoveStep(root, key, nilDone);
        if key == y.key {
          assert Heir(l) in Inorder(l);
        }
      }
  }
}
