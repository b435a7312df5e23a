/**
 The public tree (avl.go:15-47): a handle on the root node with Insert,
 Remove and Find.

 Insert and Remove replace the root by the result of the recursive
 operation and drop its done flag. Find walks down from the root without
 changing anything.
 */
module Avl {
  import opened Items
  import opened Nodes
  import Insertion
  import Removal

  /** An AVL tree; Tree(Nil) is the empty tree (Go's zero value). */
  datatype Tree = Tree(root: Node)

  datatype Option<T> = None | Some(value: T)

  /** A well-formed search tree: accurate balance factors in {-1, 0, 1} and
      in-order keys that never decrease. */
  predicate Valid(t: Tree)
  {
    Balanced(t.root) && Ordered(t.root)
  }

  /** Insert (avl.go:18-23): the item is added even when items with the same
      key are already stored. */
  function Insert(t: Tree, x: Item): (r: Tree)
    requires Balanced(t.root)
    ensures Balanced(r.root)
    ensures multiset(Inorder(r.root)) == multiset(Inorder(t.root)) + multiset{x}
    ensures Ordered(t.root) ==> Ordered(r.root) && Inorder(r.root) == InsertSorted(Inorder(t.root), x)
  {
    InsertFacts(t.root, x);
    Tree(Insertion.InsertR(t.root, x).node)
  }

  lemma InsertFacts(root: Node, x: Item)
    requires Balanced(root)
    ensures var n := Insertion.InsertR(root, x).node;
      && multiset(Inorder(n)) == multiset(Inorder(root)) + multiset{x}
      && (Ordered(root) ==> Ordered(n) && Inorder(n) == InsertSorted(Inorder(root), x))
  {
    Insertion.InsertBag(root, x);
    if Ordered(root) {
      Insertion.InsertInorder(root, x);
      Insertion.InsertOrdered(root, x);
    }
  }

  /** Remove (avl.go:25-30) as written: one item with the key goes when the
      key is present; when it is absent the in-order sequence is kept but a
      non-empty tree is left with wrong balance factors. */
  function Remove(t: Tree, key: int): (r: Tree)
    requires Balanced(t.root)
    ensures Valid(t) && key in KeyBag(t.root) ==>
      Valid(r) && KeyBag(r.root) == KeyBag(t.root) - multiset{key}
    ensures key !in KeyBag(t.root) ==> Inorder(r.root) == Inorder(t.root)
    ensures key !in KeyBag(t.root) ==> (Balanced(r.root) <==> t.root.Nil?)
  {
    RemoveFacts(t.root, key);
    Tree(Removal.RemoveR(t.root, key, false).node)
  }

  lemma RemoveFacts(root: Node, key: int)
    requires Balanced(root)
    ensures var n := Removal.RemoveR(root, key, false).node;
      && (Ordered(root) && key in KeyBag(root) ==>
            Balanced(n) && Ordered(n) && KeyBag(n) == KeyBag(root) - multiset{key})
      && (key !in KeyBag(root) ==> Inorder(n) == Inorder(root) && (Balanced(n) <==> root.Nil?))
  {
    if key in KeyBag(root) {
      if Ordered(root) {
        Removal.RemovePresent(root, key, false);
      }
    } else {
      Removal.RemoveAbsentInorder(root, key, false);
      Removal.RemoveAbsentNoEffect(root, key);
      if root.Node? {
        Removal.RemoveAbsentCorrupts(root, key);
      }
    }
  }

  /** Remove with the empty-subtree case returning done = true, as the doc
      comment at avl.go:27 intends: the same removal for a present key, and
      the tree itself for an absent key. */
  function RemoveFixed(t: Tree, key: int): (r: Tree)
    requires Balanced(t.root)
    ensures Valid(t) && key in KeyBag(t.root) ==>
      Valid(r) && KeyBag(r.root) == KeyBag(t.root) - multiset{key}
    ensures key !in KeyBag(t.root) ==> r == t
  {
    RemoveFixedFacts(t.root, key);
    Tree(Removal.RemoveR(t.root, key, true).node)
  }

  lemma RemoveFixedFacts(root: Node, key: int)
    requires Balanced(root)
    ensures var n := Removal.RemoveR(root, key, true).node;
      && (Ordered(root) && key in KeyBag(root) ==>
            Balanced(n) && Ordered(n) && KeyBag(n) == KeyBag(root) - multiset{key})
      && (key !in KeyBag(root) ==> n == root)
  {
    if key in KeyBag(root) {
      if Ordered(root) {
        Removal.RemovePresent(root, key, true);
      }
    } else {
      Removal.RemoveAbsentFixed(root, key);
    }
  }

  /** The item Find reaches from n: go left while the key is smaller, right
      while it is greater, and stop at the first node with an equal key. */
  function Lookup(n: Node, key: int): Option<Item>
  {
    match n
    case Nil => None
    case Node(l, y, _, r) =>
      if key < y.key then Lookup(l, key)
      else if key > y.key then Lookup(r, key)
      else Some(y)
  }

  /** What Lookup finds is a stored item with the key; on a search tree it
      finds one exactly when some stored item has the key. */
  lemma {:induction false} LookupCorrect(n: Node, key: int)
    ensures Lookup(n, key).Some? ==>
      Lookup(n, key).value.key == key && Lookup(n, key).value in Inorder(n)
    ensures Ordered(n) ==> (Lookup(n, key).Some? <==> key in KeyBag(n))
    decreases n
  {
    match n
    case Nil =>
    case Node(l, y, _, r) =>
      KeysNode(n);
      OrderedNode(n);
      LookupCorrect(l, key);
      LookupCorrect(r, key);
  }

  /** Find (avl.go:32-47): the iterative descent. It returns the item of the
      first node on the search path whose key equals the key, or None. */
  method Find(t: Tree, key: int) returns (r: Option<Item>)
    ensures r.Some? ==> r.value.key == key && r.value in Inorder(t.root)
    ensures Ordered(t.root) ==> (r.Some? <==> key in KeyBag(t.root))
    ensures r == Lookup(t.root, key)
  {
    LookupCorrect(t.root, key);
    var node := t.root;
    while node.Node?
      invariant Lookup(node, key) == Lookup(t.root, key)
      decreases node
    {
      if key < node.item.key {
        node := node.left;
      } else if key > node.item.key {
        node := node.right;
      } else {
        return Some(node.item);
      }
    }
    return None;
  }

  /** The fewest nodes an AVL tree of height h can have. */
  function MinNodes(h: nat): nat
  {
    if h == 0 then 0 else if h == 1 then 1 else 1 + MinNodes(h - 1) + MinNodes(h - 2)
  }

  function Pow2(n: nat): nat
  {
    if n == 0 then 1 else 2 * Pow2(n - 1)
  }

  lemma MinNodesMonotone(h: nat)
    ensures MinNodes(h) <= MinNodes(h + 1)
  {
  }

  /** A well-formed AVL tree of height h holds at least MinNodes(h) items. */
  lemma {:induction false} BalancedSize(n: Node)
    requires Balanced(n)
    ensures MinNodes(Height(n)) <= |Inorder(n)|
    decreases n
  {
    match n
    case Nil =>
    case Node(l, _, _, r) =>
      BalancedSize(l);
      BalancedSize(r);
      var h := Height(n);
      assert |Inorder(n)| == |Inorder(l)| + 1 + |Inorder(r)|;
      if h >= 2 {
        MinNodesMonotone(h - 2);
        assert MinNodes(h) == 1 + MinNodes(h - 1) + MinNodes(h - 2);
        if Height(l) < Height(r) {
          assert Height(r) == h - 1 && Height(l) == h - 2;
        } else if Height(r) < Height(l) {
          assert Height(l) == h - 1 && Height(r) == h - 2;
        } else {
          assert Height(l) == h - 1 && Height(r) == h - 1;
        }
      }
  }

  /** MinNodes at least doubles every two levels. */
  lemma {:induction false} MinNodesGrowth(h: nat)
    ensures Pow2(h / 2) <= MinNodes(h) + 1
    decreases h
  {
    if h >= 2 {
      MinNodesGrowth(h - 2);
      MinNodesMonotone(h - 2);
      assert (h - 2) / 2 + 1 == h / 2;
    }
  }

  /** The AVL height bound: a well-formed tree of height h holds at least
      2^(h/2) - 1 items, so its height is at most about twice the binary
      logarithm of its size. */
  lemma HeightBound(n: Node)
    requires Balanced(n)
    ensures Pow2(Height(n) / 2) <= |Inorder(n)| + 1
  {
    BalancedSize(n);
    MinNodesGrowth(Height(n));
  }
}
