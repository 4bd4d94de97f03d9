/** The node structure of the binary-search-tree set and the recursive
    algorithms over it (the private helpers of class BST in Project3/BST.h).

    A C++ `Node *` that is either `nullptr` or an owned node becomes a value of
    `Tree`: `Leaf` for the absent subtree, `Node(left, key, right)` for a node.
    Keys are integers; the source compares them only with `<` and `>`. */
module Trees {

  datatype Tree = Leaf | Node(left: Tree, key: int, right: Tree)

  /** The set of keys stored in `t`. */
  function Elems(t: Tree): set<int>
  {
    match t
    case Leaf => {}
    case Node(l, k, r) => Elems(l) + {k} + Elems(r)
  }

  /** The BST order invariant: at every node, every key of the left subtree is
      smaller than the node's key and every key of the right subtree larger. */
  ghost predicate IsSearchTree(t: Tree)
  {
    match t
    case Leaf => true
    case Node(l, k, r) =>
      IsSearchTree(l) && IsSearchTree(r) &&
      (forall x :: x in Elems(l) ==> x < k) &&
      (forall x :: x in Elems(r) ==> k < x)
  }

  // ---------------------------------------------------------------------------
  // Membership

  /** has(me, key): go left on `<`, right on `>`, report found otherwise.
      A key reported found is always stored; on a search tree the converse
      holds too. */
  function Has(t: Tree, k: int): (found: bool)
    ensures found ==> k in Elems(t)
    ensures IsSearchTree(t) ==> (found <==> k in Elems(t))
  {
    match t
    case Leaf => false
    case Node(l, key, r) =>
      if k < key then Has(l, k)
      else if k > key then Has(r, k)
      else true
  }

  // ---------------------------------------------------------------------------
  // Insertion

  /** add(me, newKey): a new leaf where the search falls off the tree, nothing
      when the key is met on the search path. */
  function Add(t: Tree, k: int): (r: Tree)
    ensures Elems(r) == Elems(t) + {k}
    ensures Has(r, k)
    ensures Has(t, k) ==> r == t
    ensures IsSearchTree(t) ==> IsSearchTree(r)
  {
    match t
    case Leaf => Node(Leaf, k, Leaf)
    case Node(l, key, rt) =>
      if k < key then Node(Add(l, k), key, rt)
      else if k > key then Node(l, key, Add(rt, k))
      else t
  }

  // ---------------------------------------------------------------------------
  // Removal

  /** Node::findMax: the key of the right-most node. It is stored in the tree
      and, on a search tree, no key is larger. */
  function FindMax(t: Tree): (m: int)
    requires t.Node?
    ensures m in Elems(t)
    ensures IsSearchTree(t) ==> forall x :: x in Elems(t) ==> x <= m
  {
    if t.right == Leaf then t.key else FindMax(t.right)
  }

  /** remove(me, key): with no left child the node is replaced by its right
      subtree, with no right child by its left subtree, and with two children
      its key is overwritten by the left subtree's maximum (the in-order
      predecessor), which is then removed from the left subtree.
      No key is ever introduced, an absent key leaves the tree as it was, and
      on a search tree exactly `k` disappears and the order is kept. */
  function Remove(t: Tree, k: int): (r: Tree)
    ensures Elems(r) <= Elems(t)
    ensures !Has(t, k) ==> r == t
    ensures IsSearchTree(t) ==> IsSearchTree(r) && Elems(r) == Elems(t) - {k}
  {
    match t
    case Leaf => Leaf
    case Node(l, key, rt) =>
      if k < key then Node(Remove(l, k), key, rt)
      else if k > key then Node(l, key, Remove(rt, k))
      else if l == Leaf then rt
      else if rt == Leaf then l
      else
        var pred := FindMax(l);
        var l' := Remove(l, pred);
        assert IsSearchTree(t) ==> forall x :: x in Elems(l') ==> x < pred;
        Node(l', pred, rt)
  }

  // ---------------------------------------------------------------------------
  // Copy

  /** copy(me): a fresh node for every node, same keys, same shape. */
  function Copy(t: Tree): (c: Tree)
    ensures c == t
  {
    match t
    case Leaf => Leaf
    case Node(l, k, r) => Node(Copy(l), k, Copy(r))
  }

  // ---------------------------------------------------------------------------
  // Derived queries, always recomputed from the structure

  /** Node::size: the number of nodes, 0 for the absent tree only. */
  function Size(t: Tree): (n: nat)
    ensures n == 0 <==> t.Leaf?
  {
    match t
    case Leaf => 0
    case Node(l, _, r) =>
      Size(r) + 1 + Size(l)
  }

  /** Node::isLeaf: both children absent, i.e. the subtree is this one node. */
  function IsLeaf(t: Tree): (b: bool)
    requires t.Node?
    ensures b <==> Size(t) == 1
  {
    t.left == Leaf && t.right == Leaf
  }

  /** getLeafCount(node): the number of childless nodes; between 1 and the
      size for a non-empty tree. */
  function LeafCount(t: Tree): (n: nat)
    ensures n <= Size(t)
    ensures t.Node? ==> 1 <= n
  {
    match t
    case Leaf => 0
    case Node(l, _, r) =>
      if IsLeaf(t) then 1 else LeafCount(l) + LeafCount(r)
  }

  /** 2 to the power `n`. */
  function Pow2(n: nat): (p: nat)
    ensures 1 <= p
  {
    if n == 0 then 1 else Pow2(n - 1) + Pow2(n - 1)
  }

  /** getHeight(node): the number of levels, 0 for the absent tree; never more
      than the number of nodes. */
  function Height(t: Tree): (h: nat)
    ensures h == 0 <==> t.Leaf?
    ensures h <= Size(t)
  {
    match t
    case Leaf => 0
    case Node(l, _, r) =>
      var lHeight := Height(l) + 1;
      var rHeight := Height(r) + 1;
      if lHeight > rHeight then lHeight else rHeight
  }

  // ---------------------------------------------------------------------------
  // Depth-first traversals (the keys only; the text rendering is left out)

  /** getInOrderTraversal(node): left subtree, key, right subtree. */
  function InOrder(t: Tree): (s: seq<int>)
    ensures |s| == Size(t)
  {
    match t
    case Leaf => []
    case Node(l, k, r) => InOrder(l) + [k] + InOrder(r)
  }

  /** getPreOrderTraversal(node): key, left subtree, right subtree. */
  function PreOrder(t: Tree): (s: seq<int>)
    ensures |s| == Size(t)
  {
    match t
    case Leaf => []
    case Node(l, k, r) => [k] + PreOrder(l) + PreOrder(r)
  }

  /** getPostOrderTraversal(node): left subtree, right subtree, key. */
  function PostOrder(t: Tree): (s: seq<int>)
    ensures |s| == Size(t)
  {
    match t
    case Leaf => []
    case Node(l, k, r) => PostOrder(l) + PostOrder(r) + [k]
  }

  predicate StrictlyAscending(s: seq<int>)
  {
    forall i, j :: 0 <= i < j < |s| ==> s[i] < s[j]
  }

  // ---------------------------------------------------------------------------
  // Helper lemmas

  lemma CardUnionBound(a: set<int>, b: set<int>)
    ensures |a + b| <= |a| + |b|
  {
  }

  lemma CardDisjointUnion(a: set<int>, b: set<int>)
    requires forall x :: x in a ==> x !in b
    ensures |a + b| == |a| + |b|
  {
    assert forall x :: x !in a * b;
    assert a * b == {};
  }

  lemma {:induction false} Pow2Monotone(m: nat, n: nat)
    requires m <= n
    ensures Pow2(m) <= Pow2(n)
  {
    if m < n {
      Pow2Monotone(m, n - 1);
    }
  }

  lemma {:induction false} AscendingConcat(a: seq<int>, k: int, b: seq<int>)
    requires StrictlyAscending(a) && StrictlyAscending(b)
    requires forall x :: x in a ==> x < k
    requires forall x :: x in b ==> k < x
    ensures StrictlyAscending(a + [k] + b)
  {
    var s := a + [k] + b;
    forall i, j | 0 <= i < j < |s|
      ensures s[i] < s[j]
    {
      if j < |a| {
      } else if i < |a| {
        assert s[i] in a;
        if j > |a| { assert s[j] == b[j - |a| - 1]; assert s[j] in b; }
      } else if i == |a| {
        assert s[j] == b[j - |a| - 1];
        assert s[j] in b;
      } else {
        assert s[i] == b[i - |a| - 1] && s[j] == b[j - |a| - 1];
      }
    }
  }

  // ---------------------------------------------------------------------------
  // Properties of the set as a whole

  /** No tree holds more distinct keys than nodes. */
  lemma {:induction false} KeysAtMostSize(t: Tree)
    ensures |Elems(t)| <= Size(t)
  {
    match t
    case Leaf =>
    case Node(l, k, r) =>
      KeysAtMostSize(l);
      KeysAtMostSize(r);
      CardUnionBound(Elems(l) + {k}, Elems(r));
      CardUnionBound(Elems(l), {k});
  }

  /** A tree of n nodes has at most (n + 1) / 2 leaves: every node that is
      not a leaf has at least one child. */
  lemma {:induction false} LeafCountAtMostHalf(t: Tree)
    ensures 2 * LeafCount(t) <= Size(t) + 1
  {
    match t
    case Leaf =>
    case Node(l, _, r) =>
      LeafCountAtMostHalf(l);
      LeafCountAtMostHalf(r);
  }

  /** Key uniqueness: a search tree stores every key in exactly one node, so
      the node count is the number of distinct keys. */
  lemma {:induction false} SizeIsCardinality(t: Tree)
    requires IsSearchTree(t)
    ensures Size(t) == |Elems(t)|
  {
    match t
    case Leaf =>
    case Node(l, k, r) =>
      SizeIsCardinality(l);
      SizeIsCardinality(r);
      CardDisjointUnion(Elems(l), {k});
      CardDisjointUnion(Elems(l) + {k}, Elems(r));
  }

  /** The in-order traversal of a search tree is strictly ascending. */
  lemma {:induction false} InOrderAscending(t: Tree)
    requires IsSearchTree(t)
    ensures StrictlyAscending(InOrder(t))
  {
    match t
    case Leaf =>
    case Node(l, k, r) =>
      InOrderAscending(l);
      InOrderAscending(r);
      TraversalKeys(l);
      TraversalKeys(r);
      AscendingConcat(InOrder(l), k, InOrder(r));
  }

  /** Each traversal lists exactly the keys of the tree. */
  lemma {:induction false} TraversalKeys(t: Tree)
    ensures forall x :: x in InOrder(t) <==> x in Elems(t)
    ensures forall x :: x in PreOrder(t) <==> x in Elems(t)
    ensures forall x :: x in PostOrder(t) <==> x in Elems(t)
  {
    match t
    case Leaf =>
    case Node(l, k, r) =>
      TraversalKeys(l);
      TraversalKeys(r);
  }

  /** The three traversals visit the same nodes, each exactly once: pre-order
      and post-order are permutations of in-order. */
  lemma {:induction false} TraversalsArePermutations(t: Tree)
    ensures multiset(PreOrder(t)) == multiset(InOrder(t))
    ensures multiset(PostOrder(t)) == multiset(InOrder(t))
  {
    match t
    case Leaf =>
    case Node(l, k, r) =>
      TraversalsArePermutations(l);
      TraversalsArePermutations(r);
  }

  /** A tree of height h holds at most 2^h - 1 nodes. */
  lemma {:induction false} SizeBoundedByHeight(t: Tree)
    ensures Size(t) < Pow2(Height(t))
  {
    if t.Node? {
      var m := Height(t) - 1;
      var p := Pow2(m);
      assert Pow2(Height(t)) == p + p;
      assert Size(t.left) < p by {
        SizeBoundedByHeight(t.left);
        Pow2Monotone(Height(t.left), m);
      }
      assert Size(t.right) < p by {
        SizeBoundedByHeight(t.right);
        Pow2Monotone(Height(t.right), m);
      }
    }
  }

  /** Adding a key twice is the same as adding it once. */
  lemma AddIdempotent(t: Tree, k: int)
    ensures Add(Add(t, k), k) == Add(t, k)
  {
  }

  /** Adding an absent key and removing it again gives back the very same
      tree: the new leaf is found on the same path and has no left child. */
  lemma {:induction false} RemoveUndoesAdd(t: Tree, k: int)
    requires !Has(t, k)
    ensures Remove(Add(t, k), k) == t
  {
    match t
    case Leaf =>
    case Node(l, key, r) =>
      if k < key {
        RemoveUndoesAdd(l, k);
      } else if k > key {
        RemoveUndoesAdd(r, k);
      }
  }

  /** On a search tree, `Add` grows the node count by one exactly when the key
      was absent and `Remove` shrinks it by one exactly when it was present. */
  lemma SizeAfterUpdate(t: Tree, k: int)
    requires IsSearchTree(t)
    ensures Size(Add(t, k)) == if k in Elems(t) then Size(t) else Size(t) + 1
    ensures Size(Remove(t, k)) == if k in Elems(t) then Size(t) - 1 else Size(t)
  {
    SizeIsCardinality(t);
    SizeIsCardinality(Add(t, k));
    SizeIsCardinality(Remove(t, k));
  }
}
