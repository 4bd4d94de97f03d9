/** The fixed integer script of the demo driver (Project3/main.cpp), stated
    as facts about the model, and a clients showing that a copied set shares
    nothing with its original. */
module Scenarios {
  import opened Trees
  import OrderedSet

  /** The tree the driver builds by adding 40 20 10 30 60 50 70 in order. */
  function Inserted(): Tree
  {
    Add(Add(Add(Add(Add(Add(Add(Leaf, 40), 20), 10), 30), 60), 50), 70)
  }

  /** The tree drawn out: 40 at the root, 20 and 60 below it, and the leaves
      10, 30, 50 and 70. */
  function Drawn(): Tree
  {
    Node(Node(Node(Leaf, 10, Leaf), 20, Node(Leaf, 30, Leaf)), 40,
         Node(Node(Leaf, 50, Leaf), 60, Node(Leaf, 70, Leaf)))
  }

  /** The driver's insertions produce the tree drawn out. */
  lemma InsertShape()
    ensures Inserted() == Drawn()
  {
    var n10, n30, n50, n70 := Node(Leaf, 10, Leaf), Node(Leaf, 30, Leaf),
                              Node(Leaf, 50, Leaf), Node(Leaf, 70, Leaf);
    assert Add(Leaf, 40) == Node(Leaf, 40, Leaf);
    assert Add(Node(Leaf, 40, Leaf), 20) == Node(Node(Leaf, 20, Leaf), 40, Leaf);
    assert Add(Node(Node(Leaf, 20, Leaf), 40, Leaf), 10)
        == Node(Node(n10, 20, Leaf), 40, Leaf);
    assert Add(Node(Node(n10, 20, Leaf), 40, Leaf), 30)
        == Node(Node(n10, 20, n30), 40, Leaf);
    assert Add(Node(Node(n10, 20, n30), 40, Leaf), 60)
        == Node(Node(n10, 20, n30), 40, Node(Leaf, 60, Leaf));
    assert Add(Node(Node(n10, 20, n30), 40, Node(Leaf, 60, Leaf)), 50)
        == Node(Node(n10, 20, n30), 40, Node(n50, 60, Leaf));
    assert Add(Node(Node(n10, 20, n30), 40, Node(n50, 60, Leaf)), 70)
        == Node(Node(n10, 20, n30), 40, Node(n50, 60, n70));
  }

  /** Seven nodes, four leaves, three levels, not empty. */
  lemma InsertCounts()
    ensures Size(Drawn()) == 7 && LeafCount(Drawn()) == 4 && Height(Drawn()) == 3
    ensures Drawn() != Leaf
  {
  }

  /** The three traversals of the tree drawn out. */
  lemma InsertTraversals()
    ensures PreOrder(Drawn()) == [40, 20, 10, 30, 60, 50, 70]
    ensures InOrder(Drawn()) == [10, 20, 30, 40, 50, 60, 70]
    ensures PostOrder(Drawn()) == [10, 30, 20, 50, 70, 60, 40]
  {
    var a := Node(Node(Leaf, 10, Leaf), 20, Node(Leaf, 30, Leaf));
    var b := Node(Node(Leaf, 50, Leaf), 60, Node(Leaf, 70, Leaf));
    assert Drawn() == Node(a, 40, b);
    assert PreOrder(Node(a, 40, b)) == [40, 20, 10, 30, 60, 50, 70] by {
      assert PreOrder(a) == [20, 10, 30] && PreOrder(b) == [60, 50, 70];
    }
    assert InOrder(Node(a, 40, b)) == [10, 20, 30, 40, 50, 60, 70] by {
      assert InOrder(a) == [10, 20, 30] && InOrder(b) == [50, 60, 70];
    }
    assert PostOrder(Node(a, 40, b)) == [10, 30, 20, 50, 70, 60, 40] by {
      assert PostOrder(a) == [10, 30, 20] && PostOrder(b) == [50, 70, 60];
    }
  }

  /** Removing the root 40, which has two children, promotes its predecessor
      30 into the root; the in-order traversal keeps its order. */
  lemma RemoveRootScript()
    ensures Remove(Drawn(), 40) ==
              Node(Node(Node(Leaf, 10, Leaf), 20, Leaf), 30,
                   Node(Node(Leaf, 50, Leaf), 60, Node(Leaf, 70, Leaf)))
    ensures InOrder(Remove(Drawn(), 40)) == [10, 20, 30, 50, 60, 70]
  {
    var a := Node(Node(Leaf, 10, Leaf), 20, Node(Leaf, 30, Leaf));
    var b := Node(Node(Leaf, 50, Leaf), 60, Node(Leaf, 70, Leaf));
    assert FindMax(a) == 30;
    assert Remove(a, 30) == Node(Node(Leaf, 10, Leaf), 20, Leaf);
    assert InOrder(b) == [50, 60, 70];
  }

  /** The driver then removes 20 40 10 70 99 -2 59 43: the first four are
      present (20 and 40 by the two-child case), the last four absent and
      leave the tree as it is. */
  lemma RemoveScript()
    ensures var t := Remove(Remove(Remove(Remove(Remove(Remove(Remove(Remove(
                       Drawn(), 20), 40), 10), 70), 99), -2), 59), 43);
            t == Node(Leaf, 30, Node(Node(Leaf, 50, Leaf), 60, Leaf)) &&
            Size(t) == 3 && LeafCount(t) == 1 && Height(t) == 3
  {
    var n10, n30, n50, n70 := Node(Leaf, 10, Leaf), Node(Leaf, 30, Leaf),
                              Node(Leaf, 50, Leaf), Node(Leaf, 70, Leaf);
    var t1 := Node(Node(Leaf, 10, n30), 40, Node(n50, 60, n70));
    assert Remove(Drawn(), 20) == t1 by {
      assert Remove(Node(n10, 20, n30), 20) == Node(Leaf, 10, n30) by {
        assert FindMax(n10) == 10;
      }
    }
    var t2 := Node(n10, 30, Node(n50, 60, n70));
    assert Remove(t1, 40) == t2 by {
      assert FindMax(Node(Leaf, 10, n30)) == 30;
      assert Remove(Node(Leaf, 10, n30), 30) == n10;
    }
    var t3 := Node(Leaf, 30, Node(n50, 60, n70));
    assert Remove(t2, 10) == t3;
    var t4 := Node(Leaf, 30, Node(n50, 60, Leaf));
    assert Remove(t3, 70) == t4 by {
      assert Remove(Node(n50, 60, n70), 70) == Node(n50, 60, Leaf);
    }
    assert !Has(t4, 99) && !Has(t4, -2) && !Has(t4, 59) && !Has(t4, 43);
  }

  /** Copy construction then `remove` on the copy, for any set and any key:
      the copy loses the key and the original keeps its tree. */
  method CopyThenRemove(a: OrderedSet.BST, k: int) returns (b: OrderedSet.BST)
    requires a.Valid()
    ensures fresh(b) && b.Valid()
    ensures a.root == old(a.root)
    ensures b.Contents() == a.Contents() - {k}
  {
    b := new OrderedSet.BST.CopyOf(a);
    b.Remove(k);
  }

  /** Copy construction then `add` on the copy, for any set and any key:
      the copy gains the key and the original keeps its tree. */
  method CopyThenAdd(a: OrderedSet.BST, k: int) returns (b: OrderedSet.BST)
    requires a.Valid()
    ensures fresh(b) && b.Valid()
    ensures a.root == old(a.root)
    ensures b.Contents() == a.Contents() + {k}
  {
    b := new OrderedSet.BST.CopyOf(a);
    b.Add(k);
  }
}
