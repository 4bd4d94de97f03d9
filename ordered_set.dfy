/** The public face of the set: class BST of Project3/BST.h, whose only data
    member is the root of the tree. Every mutating operation rebinds `root`
    to the tree its recursive helper returns, as `root = add(root, newKey)`
    and `root = remove(root, key)` do in the source. */
module OrderedSet {
  import Trees

  class BST {
    var root: Trees.Tree

    /** The class invariant: the tree is ordered. */
    ghost predicate Valid()
      reads this
    {
      Trees.IsSearchTree(root)
    }

    /** The abstract value: the set of keys stored. */
    ghost function Contents(): set<int>
      reads this
    {
      Trees.Elems(root)
    }

    /** BST(): the empty set. */
    constructor ()
      ensures Valid() && root == Trees.Leaf && Contents() == {}
    {
      root := Trees.Leaf;
    }

    /** BST(const BST &other): a structural copy of `other`. */
    constructor CopyOf(other: BST)
      requires other.Valid()
      ensures Valid() && root == other.root && Contents() == other.Contents()
    {
      root := Trees.Copy(other.root);
    }

    /** operator=: the old tree is discarded and replaced by a copy of the
        right-hand side (also when `rhs` is this very object). */
    method Assign(rhs: BST)
      requires rhs.Valid()
      modifies this
      ensures Valid() && root == old(rhs.root) && Contents() == old(rhs.Contents())
    {
      root := Trees.Copy(rhs.root);
    }

    /** has(key): true exactly when `key` is an element. */
    method Has(key: int) returns (found: bool)
      requires Valid()
      ensures found <==> key in Contents()
    {
      found := Trees.Has(root, key);
    }

    /** add(newKey): the key is an element afterwards, nothing else changes,
        and a key already present leaves the tree exactly as it was. */
    method Add(newKey: int)
      requires Valid()
      modifies this
      ensures Valid()
      ensures root == Trees.Add(old(root), newKey)
      ensures Contents() == old(Contents()) + {newKey}
      ensures newKey in old(Contents()) ==> root == old(root)
    {
      root := Trees.Add(root, newKey);
    }

    /** remove(key): the key is no element afterwards, nothing else changes,
        and an absent key leaves the tree exactly as it was. */
    method Remove(key: int)
      requires Valid()
      modifies this
      ensures Valid()
      ensures root == Trees.Remove(old(root), key)
      ensures Contents() == old(Contents()) - {key}
      ensures key !in old(Contents()) ==> root == old(root)
    {
      root := Trees.Remove(root, key);
    }

    /** isEmpty(): true exactly when there is no element. */
    method IsEmpty() returns (empty: bool)
      requires Valid()
      ensures empty <==> Contents() == {}
      ensures empty <==> root == Trees.Leaf
    {
      empty := root == Trees.Leaf;
    }

    /** size(): the number of elements, counted node by node. */
    method Size() returns (n: int)
      requires Valid()
      ensures n == |Contents()| == Trees.Size(root)
    {
      Trees.SizeIsCardinality(root);
      n := Trees.Size(root);
    }

    /** getLeafCount(): the number of childless nodes, between 0 and size(),
        and 0 only for the empty set. */
    method GetLeafCount() returns (n: int)
      requires Valid()
      ensures n == Trees.LeafCount(root)
      ensures 0 <= n <= |Contents()|
      ensures n == 0 <==> Contents() == {}
    {
      Trees.SizeIsCardinality(root);
      n := Trees.LeafCount(root);
    }

    /** getHeight(): the number of levels; 0 only for the empty set, and a
        set of height h holds fewer than 2^h elements. */
    method GetHeight() returns (h: int)
      requires Valid()
      ensures h == Trees.Height(root)
      ensures h == 0 <==> Contents() == {}
      ensures 0 <= h <= |Contents()| < Trees.Pow2(h)
    {
      Trees.SizeIsCardinality(root);
      Trees.SizeBoundedByHeight(root);
      h := Trees.Height(root);
    }

    /** getInOrderTraversal(): the elements in strictly ascending order, each
        once. */
    method GetInOrderTraversal() returns (s: seq<int>)
      requires Valid()
      ensures s == Trees.InOrder(root)
      ensures Trees.StrictlyAscending(s)
      ensures |s| == |Contents()| && forall x :: x in s <==> x in Contents()
    {
      Trees.SizeIsCardinality(root);
      Trees.TraversalKeys(root);
      Trees.InOrderAscending(root);
      s := Trees.InOrder(root);
    }

    /** getPreOrderTraversal(): a permutation of the in-order traversal. */
    method GetPreOrderTraversal() returns (s: seq<int>)
      requires Valid()
      ensures s == Trees.PreOrder(root)
      ensures multiset(s) == multiset(Trees.InOrder(root))
      ensures |s| == |Contents()| && forall x :: x in s <==> x in Contents()
    {
      Trees.SizeIsCardinality(root);
      Trees.TraversalKeys(root);
      Trees.TraversalsArePermutations(root);
      s := Trees.PreOrder(root);
    }

    /** getPostOrderTraversal(): a permutation of the in-order traversal. */
    method GetPostOrderTraversal() returns (s: seq<int>)
      requires Valid()
      ensures s == Trees.PostOrder(root)
      ensures multiset(s) == multiset(Trees.InOrder(root))
      ensures |s| == |Contents()| && forall x :: x in s <==> x in Contents()
    {
      Trees.SizeIsCardinality(root);
      Trees.TraversalKeys(root);
      Trees.TraversalsArePermutations(root);
      s := Trees.PostOrder(root);
    }
  }
}
