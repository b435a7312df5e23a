/**
 Stored items and the sorted-sequence view of a tree.

 The tree stores values that are compared through their key only; the
 in-order traversal of a well-formed tree is a sequence of items whose keys
 never decrease. This module defines that view and a reference definition of
 "insert into a sorted sequence" against which tree insertion is proved.
 */
module Items {

  /** A stored value: an integer key and an opaque tag that takes no part in
      comparisons (the test's intNode, whose Less/Equal/Greater look at the
      int part only). */
  datatype Item = Item(key: int, tag: string)

  /** The keys of a sequence of items, position by position. */
  function Keys(s: seq<Item>): seq<int>
  {
    seq(|s|, i requires 0 <= i < |s| => s[i].key)
  }

  /** Keys never decrease from left to right (duplicates allowed). */
  predicate Sorted(ks: seq<int>)
  {
    forall i, j :: 0 <= i < j < |ks| ==> ks[i] <= ks[j]
  }

  /** Every key of the bag is at most m. */
  predicate AtMost(b: multiset<int>, m: int)
  {
    forall x | x in b :: x <= m
  }

  /** Every key of the bag is at least m. */
  predicate AtLeast(b: multiset<int>, m: int)
  {
    forall x | x in b :: m <= x
  }

  /** The first position whose key is not less than k. */
  function LowerBound(s: seq<Item>, k: int): (i: nat)
    ensures i <= |s|
    ensures forall j :: 0 <= j < i ==> s[j].key < k
    ensures i < |s| ==> k <= s[i].key
  {
    if |s| == 0 || k <= s[0].key then 0 else 1 + LowerBound(s[1..], k)
  }

  /** Reference definition of insertion into a key-sorted sequence: the new
      item goes before the first item whose key is not less than its own,
      so it lands in front of all items with an equal key. */
  function InsertSorted(s: seq<Item>, x: Item): seq<Item>
  {
    if |s| == 0 || x.key <= s[0].key then [x] + s
    else [s[0]] + InsertSorted(s[1..], x)
  }

  lemma KeysAppend(a: seq<Item>, b: seq<Item>)
    ensures Keys(a + b) == Keys(a) + Keys(b)
  {
  }

  /** The bag of a sequence split around one element. */
  lemma BagOfParts(a: seq<Item>, y: Item, b: seq<Item>)
    ensures multiset(a + [y] + b) == multiset(a) + multiset{y} + multiset(b)
  {
  }

  /** Membership of a key in the bag of a sequence's keys, by position. */
  lemma InBagOfKeys(s: seq<Item>, k: int)
    ensures k in multiset(Keys(s)) <==> exists i :: 0 <= i < |s| && s[i].key == k
  {
    if k in multiset(Keys(s)) {
      assert k in Keys(s);
      var i :| 0 <= i < |Keys(s)| && Keys(s)[i] == k;
      assert s[i].key == k;
    }
    if exists i :: 0 <= i < |s| && s[i].key == k {
      var i :| 0 <= i < |s| && s[i].key == k;
      assert Keys(s)[i] == k;
    }
  }

  /** A sorted key sequence split around one element is bounded on each side. */
  lemma SortedSplit(a: seq<Item>, y: Item, b: seq<Item>)
    ensures Sorted(Keys(a + [y] + b)) <==>
      && Sorted(Keys(a)) && Sorted(Keys(b))
      && AtMost(multiset(Keys(a)), y.key) && AtLeast(multiset(Keys(b)), y.key)
  {
    KeysAppend(a + [y], b);
    KeysAppend(a, [y]);
    assert Keys(a + [y] + b) == Keys(a) + [y.key] + Keys(b);
    if Sorted(Keys(a + [y] + b)) {
      SplitSorted(Keys(a), y.key, Keys(b));
    }
    if && Sorted(Keys(a)) && Sorted(Keys(b))
       && AtMost(multiset(Keys(a)), y.key) && AtLeast(multiset(Keys(b)), y.key)
    {
      JoinSorted(Keys(a), y.key, Keys(b));
    }
  }

  /** The parts of a sorted key sequence split around one key. */
  lemma SplitSorted(ka: seq<int>, k: int, kb: seq<int>)
    requires Sorted(ka + [k] + kb)
    ensures Sorted(ka) && Sorted(kb) && AtMost(multiset(ka), k) && AtLeast(multiset(kb), k)
  {
    var s := ka + [k] + kb;
    var n := |ka|;
    assert s[n] == k;
    forall i, j | 0 <= i < j < |ka| ensures ka[i] <= ka[j] {
      assert s[i] == ka[i] && s[j] == ka[j];
    }
    forall i, j | 0 <= i < j < |kb| ensures kb[i] <= kb[j] {
      assert s[n + 1 + i] == kb[i] && s[n + 1 + j] == kb[j];
    }
    forall v | v in multiset(ka) ensures v <= k {
      var i :| 0 <= i < |ka| && ka[i] == v;
      assert s[i] == v;
    }
    forall v | v in multiset(kb) ensures k <= v {
      var i :| 0 <= i < |kb| && kb[i] == v;
      assert s[n + 1 + i] == v;
    }
  }

  /** Sorted parts bounded by a key join around it into a sorted sequence. */
  lemma JoinSorted(ka: seq<int>, k: int, kb: seq<int>)
    requires Sorted(ka) && Sorted(kb) && AtMost(multiset(ka), k) && AtLeast(multiset(kb), k)
    ensures Sorted(ka + [k] + kb)
  {
    var s := ka + [k] + kb;
    var n := |ka|;
    forall i, j | 0 <= i < j < |s| ensures s[i] <= s[j] {
      if i < n {
        assert ka[i] in multiset(ka);
        if j < n {
          assert s[j] == ka[j];
        } else if j > n {
          assert kb[j - n - 1] in multiset(kb);
        }
      } else if i == n {
        assert kb[j - n - 1] in multiset(kb);
      } else {
        assert s[i] == kb[i - n - 1] && s[j] == kb[j - n - 1];
      }
    }
  }

  /** The last item of a sorted sequence carries its largest key. */
  lemma LastIsMax(s: seq<Item>)
    requires |s| > 0 && Sorted(Keys(s))
    ensures AtMost(multiset(Keys(s)), s[|s| - 1].key)
  {
    forall x | x in multiset(Keys(s)) ensures x <= s[|s| - 1].key {
      InBagOfKeys(s, x);
      var i :| 0 <= i < |s| && s[i].key == x;
      assert Keys(s)[i] == x;
      if i < |s| - 1 {
        assert Keys(s)[i] <= Keys(s)[|s| - 1];
      }
    }
  }

  /** Insertion into a sorted sequence places the new item at the first
      position whose key is not less than its own. */
  lemma {:induction false} InsertSortedAt(s: seq<Item>, x: Item)
    ensures var i := LowerBound(s, x.key);
      InsertSorted(s, x) == s[..i] + [x] + s[i..]
  {
    if |s| == 0 || x.key <= s[0].key {
    } else {
      InsertSortedAt(s[1..], x);
      var i := LowerBound(s[1..], x.key);
      assert s[1..][..i] == s[1..i + 1];
      assert s[1..][i..] == s[i + 1..];
      assert [s[0]] + s[1..i + 1] == s[..i + 1];
    }
  }

  /** Insertion into a sorted sequence adds exactly the new item. */
  lemma {:induction false} InsertSortedBag(s: seq<Item>, x: Item)
    ensures multiset(InsertSorted(s, x)) == multiset(s) + multiset{x}
  {
    InsertSortedAt(s, x);
    var i := LowerBound(s, x.key);
    assert s == s[..i] + s[i..];
  }

  /** An item whose key is at most every key of a sorted sequence can go in
      front of it. */
  lemma SortedCons(h: Item, t: seq<Item>)
    requires Sorted(Keys(t)) && forall j :: 0 <= j < |t| ==> h.key <= t[j].key
    ensures Sorted(Keys([h] + t))
  {
    var r := [h] + t;
    forall p, q | 0 <= p < q < |r| ensures Keys(r)[p] <= Keys(r)[q] {
      assert Keys(r)[q] == Keys(t)[q - 1] == t[q - 1].key;
      if p > 0 {
        assert Keys(r)[p] == Keys(t)[p - 1];
      }
    }
  }

  /** The tail of a sorted sequence is sorted. */
  lemma SortedTail(s: seq<Item>)
    requires |s| > 0 && Sorted(Keys(s))
    ensures Sorted(Keys(s[1..]))
  {
    var t := s[1..];
    forall i, j | 0 <= i < j < |t| ensures Keys(t)[i] <= Keys(t)[j] {
      assert Keys(t)[i] == Keys(s)[i + 1] && Keys(t)[j] == Keys(s)[j + 1];
    }
  }

  /** Insertion into a sorted sequence keeps it sorted. */
  lemma {:induction false} InsertSortedSorted(s: seq<Item>, x: Item)
    requires Sorted(Keys(s))
    ensures Sorted(Keys(InsertSorted(s, x)))
    decreases |s|
  {
    if |s| == 0 || x.key <= s[0].key {
      forall j | 0 <= j < |s| ensures x.key <= s[j].key {
        if j > 0 {
          assert Keys(s)[0] <= Keys(s)[j];
        }
      }
      SortedCons(x, s);
    } else {
      var t := s[1..];
      SortedTail(s);
      InsertSortedSorted(t, x);
      var u := InsertSorted(t, x);
      InsertSortedBag(t, x);
      forall j | 0 <= j < |u| ensures s[0].key <= u[j].key {
        assert u[j] in multiset(u);
        if u[j] != x {
          assert u[j] in multiset(t);
          var k :| 0 <= k < |t| && t[k] == u[j];
          assert Keys(s)[0] <= Keys(s)[k + 1];
        }
      }
      SortedCons(s[0], u);
    }
  }

  /** Inserting in front of a part whose first key is not smaller only
      touches the prefix. */
  lemma {:induction false} InsertSortedBefore(a: seq<Item>, b: seq<Item>, x: Item)
    requires |b| > 0 && x.key <= b[0].key
    ensures InsertSorted(a + b, x) == InsertSorted(a, x) + b
  {
    if |a| == 0 {
      assert a + b == b;
    } else if x.key <= a[0].key {
    } else {
      assert (a + b)[1..] == a[1..] + b;
      InsertSortedBefore(a[1..], b, x);
    }
  }

  /** Inserting after a prefix whose keys are all smaller only touches the
      suffix. */
  lemma {:induction false} InsertSortedAfter(a: seq<Item>, b: seq<Item>, x: Item)
    requires forall j :: 0 <= j < |a| ==> a[j].key < x.key
    ensures InsertSorted(a + b, x) == a + InsertSorted(b, x)
  {
    if |a| == 0 {
      assert a + b == b;
    } else {
      assert (a + b)[1..] == a[1..] + b;
      InsertSortedAfter(a[1..], b, x);
      assert a == [a[0]] + a[1..];
    }
  }

  /** Insertion into the in-order sequence of a node: an item whose key is
      at most the node's key goes into the left part, one whose key is
      greater goes into the right part. */
  lemma InsertSortedNode(a: seq<Item>, y: Item, b: seq<Item>, x: Item)
    requires AtMost(multiset(Keys(a)), y.key)
    ensures x.key <= y.key ==> InsertSorted(a + [y] + b, x) == InsertSorted(a, x) + [y] + b
    ensures y.key < x.key ==> InsertSorted(a + [y] + b, x) == a + [y] + InsertSorted(b, x)
  {
    if x.key <= y.key {
      InsertSortedBefore(a, [y] + b, x);
      assert a + [y] + b == a + ([y] + b);
    } else {
      forall j | 0 <= j < |a + [y]| ensures (a + [y])[j].key < x.key {
        if j < |a| {
          assert Keys(a)[j] in multiset(Keys(a));
        }
      }
      InsertSortedAfter(a + [y], b, x);
    }
  }
}
