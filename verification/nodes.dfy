/**
 Tree nodes, directions and the rotation primitives of the AVL tree.

 A node owns an item, a balance factor and two children indexed by a
 direction (0 = left, 1 = right). The balance factor of a well-formed node is
 height(right) - height(left) and lies in {-1, 0, 1}. Rotations are pure
 functions that rebuild the affected nodes; they never inspect or change
 balance factors, which the callers set beforehand.
 */
module Nodes {
  import opened Items

  /** A direction: 0 for the left child, 1 for the right child. */
  type Dir = d: int | 0 <= d <= 1

  /** The opposite direction. */
  function Opp(dir: Dir): Dir
  {
    1 - dir
  }

  /** The balance change of growing on side dir: -1 for left, +1 for right
      (the source's 2*dir-1). */
  function Sign(dir: Dir): int
  {
    if dir == 0 then -1 else 1
  }

  /** An empty position (Go's nil) or a node. */
  datatype Node = Nil | Node(left: Node, item: Item, balance: int, right: Node)

  /** What insertR and removeR return: the new subtree root and whether the
      change of height has been absorbed ("done"). done = false means the
      subtree grew (insert) or shrank (remove) by one level. */
  datatype Step = Step(node: Node, done: bool)

  /** The child in direction dir (Go's link[dir]). */
  function Link(n: Node, dir: Dir): Node
    requires n.Node?
  {
    if dir == 0 then n.left else n.right
  }

  /** n with its child in direction dir replaced by c. */
  function SetLink(n: Node, dir: Dir, c: Node): (r: Node)
    requires n.Node?
    ensures r.Node? && r.item == n.item && r.balance == n.balance
    ensures Link(r, dir) == c && Link(r, Opp(dir)) == Link(n, Opp(dir))
  {
    if dir == 0 then n.(left := c) else n.(right := c)
  }

  function Max(a: int, b: int): int
  {
    if a < b then b else a
  }

  function Height(n: Node): nat
  {
    match n
    case Nil => 0
    case Node(l, _, _, r) => 1 + Max(Height(l), Height(r))
  }

  /** The items in in-order (left subtree, node, right subtree). */
  function Inorder(n: Node): seq<Item>
  {
    match n
    case Nil => []
    case Node(l, x, _, r) => Inorder(l) + [x] + Inorder(r)
  }

  /** The AVL invariant: every balance field equals height(right) -
      height(left), and that difference is -1, 0 or 1. */
  predicate Balanced(n: Node)
  {
    match n
    case Nil => true
    case Node(l, _, b, r) =>
      && Balanced(l) && Balanced(r)
      && b == Height(r) - Height(l)
      && -1 <= b <= 1
  }

  /** The bag of keys stored in the tree. */
  function KeyBag(n: Node): multiset<int>
  {
    multiset(Keys(Inorder(n)))
  }

  /** The search-tree order: in-order keys never decrease. */
  predicate Ordered(n: Node)
  {
    Sorted(Keys(Inorder(n)))
  }

  /** Single rotation (avl.go:64-69): the child opposite to dir becomes the
      root, and its dir-side subtree moves under the old root. Only the
      child that is promoted has to exist. */
  function Single(root: Node, dir: Dir): (r: Node)
    requires root.Node? && Link(root, Opp(dir)).Node?
    ensures r.Node? && r.item == Link(root, Opp(dir)).item
    ensures Link(r, dir) == SetLink(root, Opp(dir), Link(Link(root, Opp(dir)), dir))
    ensures Inorder(r) == Inorder(root)
  {
    var save := Link(root, Opp(dir));
    SetLink(save, dir, SetLink(root, Opp(dir), Link(save, dir)))
  }

  /** Double rotation (avl.go:72-83): a single rotation towards opp(dir) at
      the opp(dir) child (lines 73-77), then a single rotation towards dir
      at the root (lines 79-82). The grandchild on the inner side is
      promoted to the root. */
  function Double(root: Node, dir: Dir): (r: Node)
    requires root.Node? && Link(root, Opp(dir)).Node?
    requires Link(Link(root, Opp(dir)), dir).Node?
    ensures r.Node? && r.item == Link(Link(root, Opp(dir)), dir).item
    ensures Link(r, dir).Node? && Link(Link(r, dir), dir) == Link(root, dir)
    ensures Inorder(r) == Inorder(root)
  {
    var child := Single(Link(root, Opp(dir)), Opp(dir));
    var root1 := SetLink(root, Opp(dir), child);
    assert Inorder(root1) == Inorder(root) by {
      if dir == 0 { assert root1 == root.(right := child); }
      else { assert root1 == root.(left := child); }
    }
    Single(root1, dir)
  }

  /** Balance factors before a double rotation (avl.go:86-101). n is the
      dir child and nn its opp(dir) child, the node the double rotation
      will promote; bal is the sign of the heavy side. Only balance fields
      change. */
  function AdjustBalance(root: Node, dir: Dir, bal: int): (r: Node)
    requires root.Node? && Link(root, dir).Node?
    requires Link(Link(root, dir), Opp(dir)).Node?
    ensures r.Node? && Link(r, dir).Node? && Link(Link(r, dir), Opp(dir)).Node?
    ensures Link(Link(r, dir), Opp(dir)).balance == 0
    ensures Link(r, Opp(dir)) == Link(root, Opp(dir))
    ensures Inorder(r) == Inorder(root)
  {
    var n := Link(root, dir);
    var nn := Link(n, Opp(dir));
    var rootBal := if nn.balance == 0 then 0 else if nn.balance == bal then -bal else 0;
    var nBal := if nn.balance == 0 then 0 else if nn.balance == bal then 0 else bal;
    var r := SetLink(root.(balance := rootBal), dir, SetLink(n.(balance := nBal), Opp(dir), nn.(balance := 0)));
    assert Inorder(r) == Inorder(root) by {
      assert Inorder(SetLink(n.(balance := nBal), Opp(dir), nn.(balance := 0))) == Inorder(n);
    }
    r
  }

  /** The keys of a node are the keys of its left subtree, its own key and
      the keys of its right subtree, in that order. */
  lemma KeysNode(n: Node)
    requires n.Node?
    ensures Keys(Inorder(n)) == Keys(Inorder(n.left)) + [n.item.key] + Keys(Inorder(n.right))
    ensures KeyBag(n) == KeyBag(n.left) + multiset{n.item.key} + KeyBag(n.right)
  {
    var a, b := Inorder(n.left), Inorder(n.right);
    assert Inorder(n) == a + [n.item] + b;
    KeysAppend(a + [n.item], b);
    KeysAppend(a, [n.item]);
    assert Keys([n.item]) == [n.item.key];
    var ka, kb := Keys(a), Keys(b);
    assert Keys(Inorder(n)) == ka + [n.item.key] + kb;
    assert multiset(ka + [n.item.key] + kb) == multiset(ka) + multiset{n.item.key} + multiset(kb);
  }

  /** Search-tree order of a node, in terms of its parts. */
  lemma OrderedNode(n: Node)
    requires n.Node?
    ensures Ordered(n) <==>
      && Ordered(n.left) && Ordered(n.right)
      && AtMost(KeyBag(n.left), n.item.key) && AtLeast(KeyBag(n.right), n.item.key)
  {
    SortedSplit(Inorder(n.left), n.item, Inorder(n.right));
  }
}
