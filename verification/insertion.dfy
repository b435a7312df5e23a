/**
 Insertion with rebalancing (avl.go:103-135).

 insertR descends to an empty position, puts a new node there and, on the way
 back up, adds 2*dir-1 to the balance factor of every node whose subtree grew,
 rotating a node whose balance reaches +-2.
 */
module Insertion {
  import opened Items
  import opened Nodes
  import Rotations

  /** Rebalancing of a node whose dir side has become two levels taller
      (avl.go:103-113): a single rotation when the heavy child leans the same
      way, otherwise balance adjustment and a double rotation. The double
      rotation needs the heavy child's inner child. */
  function InsertBalance(root: Node, dir: Dir): (r: Node)
    requires root.Node? && Link(root, dir).Node?
    requires Link(root, dir).balance != Sign(dir) ==> Link(Link(root, dir), Opp(dir)).Node?
    ensures r.Node? && Inorder(r) == Inorder(root)
  {
    var n := Link(root, dir);
    var bal := Sign(dir);
    if n.balance == bal then
      var root1 := SetLink(root.(balance := 0), dir, n.(balance := 0));
      assert Inorder(root1) == Inorder(root);
      Single(root1, Opp(dir))
    else
      Double(AdjustBalance(root, dir, bal), Opp(dir))
  }

  /** When the dir child is two levels taller than its sibling, is a
      well-formed AVL tree and leans to one side, rebalancing yields a
      well-formed AVL tree as tall as that child: the insertion's growth is
      absorbed. */
  lemma InsertBalanceValid(root: Node, dir: Dir)
    requires root.Node? && Link(root, dir).Node?
    requires Balanced(Link(root, dir)) && Balanced(Link(root, Opp(dir)))
    requires Height(Link(root, dir)) == Height(Link(root, Opp(dir))) + 2
    requires Link(root, dir).balance != 0
    ensures Balanced(InsertBalance(root, dir))
    ensures Height(InsertBalance(root, dir)) == Height(Link(root, dir))
  {
    var n := Link(root, dir);
    if n.balance == Sign(dir) {
      Rotations.SingleValid(root, dir);
    } else {
      Rotations.DoubleValid(root, dir);
    }
  }

  /** The direction insertR descends in (avl.go:119-122): right only when
      the node's key is less than the new key, so equal keys go left. */
  function InsertDir(n: Node, data: Item): Dir
    requires n.Node?
  {
    if n.item.key < data.key then 1 else 0
  }

  /** What insertR does once the recursive call on side dir has returned
      sub (avl.go:124-134): the node takes sub's tree as its dir child; if
      that subtree grew, the balance factor moves towards dir, and a node
      that reaches +-2 is handed to insertBalance. The rotation finds the
      children it needs when sub is a well-formed tree whose done flag
      tells whether it grew and a grown non-empty subtree is never evenly
      balanced; the in-order sequence is never reordered. */
  function Grow(root: Node, dir: Dir, sub: Step): (r: Step)
    requires Balanced(root) && root.Node? && Balanced(sub.node)
    requires sub.done ==> Height(sub.node) == Height(Link(root, dir))
    requires !sub.done ==> Height(sub.node) == Height(Link(root, dir)) + 1
    requires !sub.done && Link(root, dir).Node? ==> sub.node.balance != 0
    ensures Inorder(r.node) == Inorder(SetLink(root, dir, sub.node))
  {
    if sub.done then
      Step(SetLink(root, dir, sub.node), true)
    else
      var b1 := root.balance + Sign(dir);
      var n := SetLink(root.(balance := b1), dir, sub.node);
      assert Inorder(n) == Inorder(SetLink(root, dir, sub.node));
      if -1 <= b1 <= 1 then
        Step(n, b1 == 0)
      else
        assert Link(root, dir).Node?;
        GrowChildRotate(root, dir, sub.node);
        Step(InsertBalance(n, dir), true)
  }

  /** The height bookkeeping of Grow: the result is a well-formed AVL tree,
      done is false exactly when it is one level taller than the node was,
      and a taller result is never evenly balanced. */
  lemma GrowValid(root: Node, dir: Dir, sub: Step)
    requires Balanced(root) && root.Node? && Balanced(sub.node)
    requires sub.done ==> Height(sub.node) == Height(Link(root, dir))
    requires !sub.done ==> Height(sub.node) == Height(Link(root, dir)) + 1
    requires !sub.done && Link(root, dir).Node? ==> sub.node.balance != 0
    ensures var r := Grow(root, dir, sub);
      && Balanced(r.node)
      && (r.done ==> Height(r.node) == Height(root))
      && (!r.done ==> Height(r.node) == Height(root) + 1 && r.node.balance != 0)
  {
    var r := Grow(root, dir, sub);
    var b1 := root.balance + Sign(dir);
    if sub.done {
      Rotations.ReplaceChild(root, dir, sub.node);
      assert r == Step(SetLink(root, dir, sub.node), true);
    } else if -1 <= b1 <= 1 {
      GrowChild(root, dir, sub.node);
      assert r == Step(SetLink(root.(balance := b1), dir, sub.node), b1 == 0);
    } else {
      GrowValidRotate(root, dir, sub);
    }
  }

  /** GrowValid when the balance factor would leave {-1, 0, 1}. */
  lemma GrowValidRotate(root: Node, dir: Dir, sub: Step)
    requires Balanced(root) && root.Node? && Balanced(sub.node)
    requires !sub.done && Height(sub.node) == Height(Link(root, dir)) + 1
    requires Link(root, dir).Node? ==> sub.node.balance != 0
    requires !(-1 <= root.balance + Sign(dir) <= 1)
    ensures var r := Grow(root, dir, sub);
      && r.done && Balanced(r.node) && Height(r.node) == Height(root)
  {
    assert Link(root, dir).Node?;
    GrowChildRotate(root, dir, sub.node);
    var n := SetLink(root.(balance := root.balance + Sign(dir)), dir, sub.node);
    assert Grow(root, dir, sub) == Step(InsertBalance(n, dir), true);
  }

  /** Recursive insertion (avl.go:115-135). On a well-formed AVL tree the
      result is a well-formed AVL tree; done is false exactly when the
      subtree grew by one level, and a subtree that grew above a node is
      never left evenly balanced, so the rotation at a node that reaches
      +-2 always finds the child it needs. */
  function InsertR(root: Node, data: Item): (r: Step)
    requires Balanced(root)
    ensures Balanced(r.node)
    ensures r.done ==> Height(r.node) == Height(root)
    ensures !r.done ==> Height(r.node) == Height(root) + 1
    ensures !r.done && root.Node? ==> r.node.balance != 0
    decreases root
  {
    match root
    case Nil => Step(Node(Nil, data, 0, Nil), false)
    case Node(l, _, _, rt) =>
      var dir := InsertDir(root, data);
      var sub := InsertR(if dir == 0 then l else rt, data);
      GrowValid(root, dir, sub);
      Grow(root, dir, sub)
  }

  /** A child that grew by one level, without a rotation: the balance
      factor moves towards dir; the node grows unless the new factor is 0. */
  lemma GrowChild(root: Node, dir: Dir, c: Node)
    requires Balanced(root) && root.Node? && Balanced(c) && Height(c) == Height(Link(root, dir)) + 1
    requires -1 <= root.balance + Sign(dir) <= 1
    ensures var n := SetLink(root.(balance := root.balance + Sign(dir)), dir, c);
      && Balanced(n)
      && (n.balance == 0 ==> Height(n) == Height(root))
      && (n.balance != 0 ==> Height(n) == Height(root) + 1)
  {
  }

  /** A child that grew by one level and leans to one side, when the
      balance factor would leave {-1, 0, 1}: insertBalance finds the
      children it rotates and restores a well-formed tree of the node's old
      height. */
  lemma GrowChildRotate(root: Node, dir: Dir, c: Node)
    requires Balanced(root) && root.Node? && Balanced(c) && Height(c) == Height(Link(root, dir)) + 1
    requires c.Node? && c.balance != 0
    requires !(-1 <= root.balance + Sign(dir) <= 1)
    ensures var n := SetLink(root.(balance := root.balance + Sign(dir)), dir, c);
      && (c.balance != Sign(dir) ==> Link(c, Opp(dir)).Node?)
      && Balanced(InsertBalance(n, dir))
      && Height(InsertBalance(n, dir)) == Height(root)
  {
    var n := SetLink(root.(balance := root.balance + Sign(dir)), dir, c);
    assert Height(c) == Height(Link(n, Opp(dir))) + 2;
    InsertBalanceValid(n, dir);
  }

  /** Rebalancing after the recursive call never reorders items: the
      in-order sequence is that of the node with its dir child replaced by
      the child's insertion result. */
  lemma InsertStep(root: Node, data: Item)
    requires Balanced(root) && root.Node?
    ensures InsertDir(root, data) == 0 ==>
      Inorder(InsertR(root, data).node)
        == Inorder(InsertR(root.left, data).node) + [root.item] + Inorder(root.right)
    ensures InsertDir(root, data) == 1 ==>
      Inorder(InsertR(root, data).node)
        == Inorder(root.left) + [root.item] + Inorder(InsertR(root.right, data).node)
  {
    var dir := InsertDir(root, data);
    assert InsertR(root, data) == Grow(root, dir, InsertR(Link(root, dir), data));
  }

  /** Insertion adds exactly one item, the new one, whatever the order of
      the tree. */
  lemma {:induction false} InsertBag(root: Node, data: Item)
    requires Balanced(root)
    ensures multiset(Inorder(InsertR(root, data).node)) == multiset(Inorder(root)) + multiset{data}
    decreases root
  {
    match root
    case Nil =>
    case Node(l, y, _, rt) =>
      InsertStep(root, data);
      var a, b := multiset(Inorder(l)), multiset(Inorder(rt));
      BagOfParts(Inorder(l), y, Inorder(rt));
      if InsertDir(root, data) == 0 {
        InsertBag(l, data);
        BagOfParts(Inorder(InsertR(l, data).node), y, Inorder(rt));
        AddToPart(a, y, b, data);
      } else {
        InsertBag(rt, data);
        BagOfParts(Inorder(l), y, Inorder(InsertR(rt, data).node));
        AddToPart(b, y, a, data);
      }
  }

  /** Adding an item to one part of a split bag adds it to the whole. */
  lemma AddToPart(a: multiset<Item>, y: Item, b: multiset<Item>, x: Item)
    ensures (a + multiset{x}) + multiset{y} + b == a + multiset{y} + b + multiset{x}
    ensures b + multiset{y} + (a + multiset{x}) == b + multiset{y} + a + multiset{x}
  {
  }

  /** On a search tree, insertion puts the new item exactly where insertion
      into the sorted in-order sequence puts it: after every item with a
      smaller key and before every item with an equal or greater key. */
  lemma {:induction false} InsertInorder(root: Node, data: Item)
    requires Balanced(root) && Ordered(root)
    ensures Inorder(InsertR(root, data).node) == InsertSorted(Inorder(root), data)
    decreases root
  {
    match root
    case Nil =>
    case Node(l, y, _, rt) =>
      OrderedNode(root);
      InsertStep(root, data);
      InsertSortedNode(Inorder(l), y, Inorder(rt), data);
      if InsertDir(root, data) == 0 {
        InsertInorder(l, data);
      } else {
        InsertInorder(rt, data);
      }
  }

  /** Insertion keeps the search-tree order. */
  lemma InsertOrdered(root: Node, data: Item)
    requires Balanced(root) && Ordered(root)
    ensures Ordered(InsertR(root, data).node)
  {
    InsertInorder(root, data);
    InsertSortedSorted(Inorder(root), data);
  }

  /** Equal keys descend left (avl.go:119-124): a new item whose key is at
      most the root's key is inserted into the left subtree, so in the
      result it sits among the left subtree's items, in front of the root's
      item, whatever rotations follow. */
  lemma EqualKeysGoLeft(root: Node, data: Item)
    requires Balanced(root) && root.Node?
    requires data.key <= root.item.key
    ensures Inorder(InsertR(root, data).node)
      == Inorder(InsertR(root.left, data).node) + [root.item] + Inorder(root.right)
  {
    InsertStep(root, data);
  }
}
