/**
 Concrete sequences of tree operations: the sequence avl_test.go performs
 and two small trees that show how removal behaves on absent and duplicated
 keys. The items are parameters with fixed keys, so each lemma holds for any
 tags; each lemma states the resulting trees.
 */
module Scenarios {
  import opened Items
  import opened Nodes
  import opened Avl
  import Insertion
  import Removal

  function Leaf(x: Item): Node
  {
    Node(Nil, x, 0, Nil)
  }

  /** A subtree that absorbed the removal is just put back in place. */
  lemma RebuildDone(root: Node, dir: Dir, item: Item, sub: Step)
    requires Balanced(root) && root.Node? && sub.done
    ensures Removal.Rebuild(root, dir, item, sub) == Step(SetLink(root.(item := item), dir, sub.node), true)
  {
  }

  /** The insertions of avl_test.go:40-44 (3 "three", 1 "one", 4 "four",
      1 "uno", 5 "five") build this tree: the second 1 goes below the first
      one, on its left. */
  lemma TestInserts(three: Item, one: Item, four: Item, uno: Item, five: Item)
    requires three.key == 3 && one.key == 1 && four.key == 4 && uno.key == 1 && five.key == 5
    ensures Insert(Insert(Insert(Insert(Insert(Tree(Nil), three), one), four), uno), five).root
      == Node(Node(Leaf(uno), one, -1, Nil), three, 0, Node(Nil, four, 1, Leaf(five)))
  {
    var t1 := Leaf(three);
    assert Insertion.InsertR(Nil, three) == Step(t1, false);
    var t2 := Node(Leaf(one), three, -1, Nil);
    assert Insertion.InsertR(Nil, one) == Step(Leaf(one), false);
    assert Insertion.InsertR(t1, one) == Step(t2, false);
    var t3 := Node(Leaf(one), three, 0, Leaf(four));
    assert Insertion.InsertR(Nil, four) == Step(Leaf(four), false);
    assert Insertion.InsertR(t2, four) == Step(t3, true);
    var left := Node(Leaf(uno), one, -1, Nil);
    var t4 := Node(left, three, -1, Leaf(four));
    assert Insertion.InsertR(Nil, uno) == Step(Leaf(uno), false);
    assert Insertion.InsertR(Leaf(one), uno) == Step(left, false);
    assert Insertion.InsertR(t3, uno) == Step(t4, false);
    var right := Node(Nil, four, 1, Leaf(five));
    assert Insertion.InsertR(Nil, five) == Step(Leaf(five), false);
    assert Insertion.InsertR(Leaf(four), five) == Step(right, false);
    assert Insertion.InsertR(t4, five) == Step(Node(left, three, 0, right), true);
  }

  /** The whole test of avl_test.go:34-57. Find (lines 48-51) locates
      every key and, for the duplicated key 1, stops at the item inserted
      first; removing 3 and then 1 (lines 54-55) leaves the keys 1, 4, 5
      with every balance factor 0, and it is "uno" that survives. */
  lemma TestRun(three: Item, one: Item, four: Item, uno: Item, five: Item)
    requires three.key == 3 && one.key == 1 && four.key == 4 && uno.key == 1 && five.key == 5
    ensures var t := Insert(Insert(Insert(Insert(Insert(Tree(Nil), three), one), four), uno), five);
      && Lookup(t.root, 3) == Some(three) && Lookup(t.root, 1) == Some(one)
      && Lookup(t.root, 4) == Some(four) && Lookup(t.root, 5) == Some(five)
      && var t1 := Remove(t, 3);
      && t1.root == Node(Leaf(uno), one, 1, Node(Nil, four, 1, Leaf(five)))
      && Balanced(t1.root)
      && Remove(t1, 1).root == Node(Leaf(uno), four, 0, Leaf(five))
  {
    TestInserts(three, one, four, uno, five);
    var left := Node(Leaf(uno), one, -1, Nil);
    var right := Node(Nil, four, 1, Leaf(five));
    var t := Node(left, three, 0, right);
    assert Lookup(left, 1) == Some(one);
    assert Lookup(right, 4) == Some(four);
    assert Lookup(Leaf(five), 5) == Some(five);
    assert Lookup(right, 5) == Some(five);
    assert Removal.RemoveR(left, 1, false) == Step(Leaf(uno), false);
    var t1 := Node(Leaf(uno), one, 1, right);
    assert Removal.RemoveR(t, 3, false) == Step(t1, true);
    assert Balanced(Leaf(uno)) && Height(Leaf(uno)) == 1;
    assert Balanced(right) && Height(right) == 2;
    assert Balanced(t1);
    assert Removal.RemoveR(Leaf(uno), 1, false) == Step(Nil, false);
    assert Removal.RemoveR(t1, 1, false) == Step(Node(Leaf(uno), four, 0, Leaf(five)), false);
  }

  /** Removing an absent key, as written: in the tree built by inserting 2
      and then 1, removing 3 rotates as if the right side had shrunk and
      leaves the leaf 2 with balance factor -1; the corrected removal keeps the
      tree. */
  lemma AbsentKeyCorrupts(two: Item, one: Item)
    requires two.key == 2 && one.key == 1
    ensures var t := Insert(Insert(Tree(Nil), two), one);
      && t.root == Node(Leaf(one), two, -1, Nil)
      && Remove(t, 3).root == Node(Nil, one, 1, Node(Nil, two, -1, Nil))
      && !Balanced(Remove(t, 3).root)
      && RemoveFixed(t, 3) == t
  {
    var t1 := Leaf(two);
    assert Insertion.InsertR(Nil, two) == Step(t1, false);
    var t2 := Node(Leaf(one), two, -1, Nil);
    assert Insertion.InsertR(Nil, one) == Step(Leaf(one), false);
    assert Insertion.InsertR(t1, one) == Step(t2, false);
    assert Removal.RemoveR(Nil, 3, false) == Step(Nil, false);
    assert Removal.RemoveR(t2, 3, false) == Step(Node(Nil, one, 1, Node(Nil, two, -1, Nil)), true);
    assert 3 !in KeyBag(t2) by {
      KeysNode(t2);
    }
  }

  /** The insertions of the duplicated-keys example: 10 "x", 3 "a", 20 "y",
      3 "b" and 3 "c". Inserting "c" makes the left subtree lean two levels
      left and a single rotation lifts "b". */
  lemma DuplicateInserts(x: Item, a: Item, y: Item, b: Item, c: Item)
    requires x.key == 10 && a.key == 3 && y.key == 20 && b.key == 3 && c.key == 3
    ensures Insert(Insert(Insert(Insert(Insert(Tree(Nil), x), a), y), b), c).root
      == Node(Node(Leaf(c), b, 0, Leaf(a)), x, -1, Leaf(y))
  {
    var t1 := Leaf(x);
    assert Insertion.InsertR(Nil, x) == Step(t1, false);
    var t2 := Node(Leaf(a), x, -1, Nil);
    assert Insertion.InsertR(Nil, a) == Step(Leaf(a), false);
    assert Insertion.InsertR(t1, a) == Step(t2, false);
    var t3 := Node(Leaf(a), x, 0, Leaf(y));
    assert Insertion.InsertR(Nil, y) == Step(Leaf(y), false);
    assert Insertion.InsertR(t2, y) == Step(t3, true);
    var l4 := Node(Leaf(b), a, -1, Nil);
    var t4 := Node(l4, x, -1, Leaf(y));
    assert Insertion.InsertR(Nil, b) == Step(Leaf(b), false);
    assert Insertion.InsertR(Leaf(a), b) == Step(l4, false);
    assert Insertion.InsertR(t3, b) == Step(t4, false);
    var l5 := Node(Leaf(c), b, 0, Leaf(a));
    assert Insertion.InsertR(Nil, c) == Step(Leaf(c), false);
    assert Insertion.InsertR(Leaf(b), c) == Step(Node(Leaf(c), b, -1, Nil), false);
    assert Insertion.InsertR(l4, c) == Step(l5, true);
    assert Insertion.InsertR(t4, c) == Step(Node(l5, x, -1, Leaf(y)), true);
  }

  /** Removal with duplicated keys copies the heir's item: in the tree the
      insertions above build, removing 10 keeps the keys right (three 3s and
      a 20) but "a" appears twice and "b" is gone. */
  lemma DuplicateKeysRemove(x: Item, a: Item, y: Item, b: Item, c: Item)
    requires x.key == 10 && a.key == 3 && y.key == 20 && b.key == 3 && c.key == 3
    ensures var t := Tree(Node(Node(Leaf(c), b, 0, Leaf(a)), x, -1, Leaf(y)));
      && Balanced(t.root)
      && Inorder(Remove(t, 10).root) == [c, a, a, y]
  {
    DuplicateRemoval(x, a, y, b, c);
    var l := Node(Nil, c, 1, Leaf(a));
    assert Inorder(l) == [c, a];
    assert Inorder(Node(l, a, -1, Leaf(y))) == [c, a] + [a] + [y];
  }

  /** The removal step of the duplicated-keys example on its tree: 10 takes
      over its heir "a", the search for 3 goes on to "b", which takes over
      its own heir "c", and the leaf "c" is unlinked. */
  lemma DuplicateRemoval(x: Item, a: Item, y: Item, b: Item, c: Item)
    requires x.key == 10 && a.key == 3 && y.key == 20 && b.key == 3 && c.key == 3
    ensures var t := Node(Node(Leaf(c), b, 0, Leaf(a)), x, -1, Leaf(y));
      && Balanced(t)
      && Removal.RemoveR(t, 10, false) == Step(Node(Node(Nil, c, 1, Leaf(a)), a, -1, Leaf(y)), true)
  {
    var l5 := Node(Leaf(c), b, 0, Leaf(a));
    var t5 := Node(l5, x, -1, Leaf(y));
    assert Height(Nil) == 0;
    assert Balanced(Leaf(c)) && Height(Leaf(c)) == 1;
    assert Balanced(l5) && Height(l5) == 2;
    assert Balanced(t5);
    assert Removal.Heir(Leaf(a)) == a && Removal.Heir(l5) == a && Removal.Heir(Leaf(c)) == c;
    assert Removal.RemoveR(Leaf(c), 3, false) == Step(Nil, false);
    var l6 := Node(Nil, c, 1, Leaf(a));
    assert Removal.KeptItem(l5, 3) == c && Removal.SearchKey(l5, 3) == 3 && Removal.RemoveDir(l5, 3) == 0;
    assert Removal.RemoveR(l5, 3, false) == Removal.Rebuild(l5, 0, c, Step(Nil, false));
    assert Removal.Rebuild(l5, 0, c, Step(Nil, false)) == Step(l6, true);
    assert Removal.KeptItem(t5, 10) == a && Removal.SearchKey(t5, 10) == 3 && Removal.RemoveDir(t5, 10) == 0;
    assert Removal.RemoveR(t5, 10, false) == Removal.Rebuild(t5, 0, a, Step(l6, true));
    RebuildDone(t5, 0, a, Step(l6, true));
  }
}
