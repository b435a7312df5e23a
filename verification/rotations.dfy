/**
 Balance bookkeeping around rotations.

 Both insertion and removal rebalance a node whose side d has become two
 levels taller than the other side. These lemmas state, for each way the
 source resolves that, which balance factors the rebuilt subtree ends up
 with and how tall it is.
 */
module Rotations {
  import opened Nodes

  /** Replacing a child by a well-formed subtree of the same height keeps a
      node well-formed and its height unchanged. */
  lemma ReplaceChild(root: Node, dir: Dir, c: Node)
    requires Balanced(root) && root.Node? && Balanced(c) && Height(c) == Height(Link(root, dir))
    ensures Balanced(SetLink(root, dir, c)) && Height(SetLink(root, dir, c)) == Height(root)
  {
  }

  /** The heavy child leans outwards (its balance has the sign of d): after
      zeroing both balances a single rotation towards opp(d) gives a
      well-formed subtree as tall as the heavy child (avl.go:106-110 and
      avl.go:141-144). */
  lemma SingleValid(root: Node, d: Dir)
    requires root.Node? && Link(root, d).Node?
    requires Balanced(Link(root, d)) && Balanced(Link(root, Opp(d)))
    requires Height(Link(root, d)) == Height(Link(root, Opp(d))) + 2
    requires Link(root, d).balance == Sign(d)
    ensures var r := Single(SetLink(root.(balance := 0), d, Link(root, d).(balance := 0)), Opp(d));
      Balanced(r) && Height(r) == Height(Link(root, d))
  {
    var n := Link(root, d);
    var a := Link(root, Opp(d));
    var r := Single(SetLink(root.(balance := 0), d, n.(balance := 0)), Opp(d));
    if d == 1 {
      var lower := Node(a, root.item, 0, n.left);
      assert r == Node(lower, n.item, 0, n.right);
      assert Balanced(lower) && Height(lower) == Height(a) + 1;
    } else {
      var lower := Node(n.right, root.item, 0, a);
      assert r == Node(n.left, n.item, 0, lower);
      assert Balanced(lower) && Height(lower) == Height(a) + 1;
    }
  }

  /** The heavy child is itself balanced (only possible on removal): the
      single rotation keeps the subtree one level taller than the heavy
      child, with balances -bal and bal (avl.go:149-151). */
  lemma SingleEvenValid(root: Node, d: Dir)
    requires root.Node? && Link(root, d).Node?
    requires Balanced(Link(root, d)) && Balanced(Link(root, Opp(d)))
    requires Height(Link(root, d)) == Height(Link(root, Opp(d))) + 2
    requires Link(root, d).balance == 0
    ensures var s := Sign(d);
      var r := Single(SetLink(root.(balance := s), d, Link(root, d).(balance := -s)), Opp(d));
      Balanced(r) && Height(r) == Height(Link(root, d)) + 1
  {
    var n := Link(root, d);
    var a := Link(root, Opp(d));
    var s := Sign(d);
    var r := Single(SetLink(root.(balance := s), d, n.(balance := -s)), Opp(d));
    if d == 1 {
      var lower := Node(a, root.item, 1, n.left);
      assert r == Node(lower, n.item, -1, n.right);
      assert Balanced(lower) && Height(lower) == Height(a) + 2;
    } else {
      var lower := Node(n.right, root.item, -1, a);
      assert r == Node(n.left, n.item, 1, lower);
      assert Balanced(lower) && Height(lower) == Height(a) + 2;
    }
  }

  /** The heavy child leans inwards: its inner child exists, and balance
      adjustment followed by a double rotation towards opp(d) gives a
      well-formed subtree as tall as the heavy child, whatever the inner
      child's balance (avl.go:86-101, avl.go:111-112, avl.go:145-147). */
  lemma DoubleValid(root: Node, d: Dir)
    requires root.Node? && Link(root, d).Node?
    requires Balanced(Link(root, d)) && Balanced(Link(root, Opp(d)))
    requires Height(Link(root, d)) == Height(Link(root, Opp(d))) + 2
    requires Link(root, d).balance == -Sign(d)
    ensures Link(Link(root, d), Opp(d)).Node?
    ensures var r := Double(AdjustBalance(root, d, Sign(d)), Opp(d));
      Balanced(r) && Height(r) == Height(Link(root, d))
  {
    if d == 1 {
      DoubleValidRight(root);
    } else {
      DoubleValidLeft(root);
    }
  }

  /** DoubleValid for a right-heavy root. */
  lemma DoubleValidRight(root: Node)
    requires root.Node? && root.right.Node?
    requires Balanced(root.right) && Balanced(root.left)
    requires Height(root.right) == Height(root.left) + 2
    requires root.right.balance == -1
    ensures root.right.left.Node?
    ensures var r := Double(AdjustBalance(root, 1, 1), 0);
      Balanced(r) && Height(r) == Height(root.right)
  {
    var n, a := root.right, root.left;
    var nn := n.left;
    var adjusted := AdjustBalance(root, 1, 1);
    var rootBal := if nn.balance == 1 then -1 else 0;
    var nBal := if nn.balance == -1 then 1 else 0;
    assert adjusted == Node(a, root.item, rootBal, Node(nn.(balance := 0), n.item, nBal, n.right));
    var lower := Node(a, root.item, rootBal, nn.left);
    var upper := Node(nn.right, n.item, nBal, n.right);
    assert Double(adjusted, 0) == Node(lower, nn.item, 0, upper);
    assert Balanced(lower) && Balanced(upper);
    assert Height(lower) == Height(a) + 1 && Height(upper) == Height(a) + 1;
  }

  /** DoubleValid for a left-heavy root. */
  lemma DoubleValidLeft(root: Node)
    requires root.Node? && root.left.Node?
    requires Balanced(root.left) && Balanced(root.right)
    requires Height(root.left) == Height(root.right) + 2
    requires root.left.balance == 1
    ensures root.left.right.Node?
    ensures var r := Double(AdjustBalance(root, 0, -1), 1);
      Balanced(r) && Height(r) == Height(root.left)
  {
    var n, a := root.left, root.right;
    var nn := n.right;
    var adjusted := AdjustBalance(root, 0, -1);
    var rootBal := if nn.balance == -1 then 1 else 0;
    var nBal := if nn.balance == 1 then -1 else 0;
    assert adjusted == Node(Node(n.left, n.item, nBal, nn.(balance := 0)), root.item, rootBal, a);
    var lower := Node(n.left, n.item, nBal, nn.left);
    var upper := Node(nn.right, root.item, rootBal, a);
    assert Double(adjusted, 1) == Node(lower, nn.item, 0, upper);
    assert Balanced(lower) && Balanced(upper);
    assert Height(lower) == Height(a) + 1 && Height(upper) == Height(a) + 1;
  }
}
