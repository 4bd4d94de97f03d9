# Binary-search-tree Set, modelled in Dafny

This project models `BST<KeyType>` from `Project3/BST.h`. It is a generic Set
abstract data type backed by an unbalanced binary search tree. It has no parent
pointers, no rebalancing and no cached size or height. Its operations are:

- membership (`has`);
- insertion (`add`), which does nothing for a key already present;
- deletion (`remove`), with three cases: a node with no left child is
  replaced by its right subtree; one with no right child is replaced by its
  left subtree; one with two children takes the maximum of its left subtree
  (the in-order predecessor) as its new key, and that key is then removed
  from the left subtree;
- deep copy (copy constructor and assignment);
- the derived queries `isEmpty`, `size`, `getLeafCount` and `getHeight`, and
  the in-order, pre-order and post-order traversals.

The project has three modules:

- `Trees` (`trees.dfy`): the node structure as the datatype
  `Tree = Leaf | Node(left, key, right)`, where `Leaf` stands for `nullptr`.
  It holds the private recursive helpers of the class as functions. `Add`
  and `Remove` return the rebuilt subtree, just as the C++ helpers return the
  node their caller stores back with `me->left = remove(me->left, key)`.
  `IsSearchTree` is the order invariant: left keys are smaller, right keys
  larger. `Elems` is the set of keys stored.
- `OrderedSet` (`ordered_set.dfy`): the class `BST` itself. Its only field is
  `root`. Each public method either rebinds `root` to what the helper returns
  (`root = add(root, newKey)`) or reads it. Every method keeps `Valid()`,
  which is the order invariant on `root`. Every method states its result
  against `Contents()`, the set of keys.
- `Scenarios` (`scenarios.dfy`): the demo driver's fixed integer script,
  stated as facts. Also two clients that show a copied set is independent
  of its original, for any set and any key.

Keys are `int`. The source compares keys only with `<` and `>`, and a strict
total order on integers is what it assumes of `KeyType`.

`size()` calls `root->size(root)` even when `root` is `nullptr`
(Project3/BST.h:274). `Node::size` never uses its `this` object and returns 0
for a null argument (Project3/BST.h:382-383), so the model defines the size of
the empty tree as 0.

## Model

| member | source | states |
|---|---|---|
| `Trees.Has` | Project3/BST.h:284-293 | a key reported found is stored in the tree; on a search tree, `has` is true exactly when the key is stored |
| `Trees.Add` | Project3/BST.h:296-304 | the keys become the old keys plus the new one, and `has(newKey)` holds afterwards; a key already found leaves the tree unchanged (no duplicate node); the order invariant is preserved |
| `Trees.FindMax` | Project3/BST.h:365-371 | the right-most key of a non-empty subtree is one of its keys and, on a search tree, no key in it is larger |
| `Trees.Remove` | Project3/BST.h:306-336 | no key is ever introduced; a key that `has` does not find leaves the tree unchanged; on a search tree the keys become the old keys minus the removed one, and the order invariant is preserved in all three structural cases |
| `Trees.Copy` | Project3/BST.h:347-353 | the copy has the same shape and the same keys as the original |
| `Trees.Size` | Project3/BST.h:380-386 | the node count is 0 exactly for the absent tree |
| `Trees.IsLeaf` | Project3/BST.h:373-378 | a node is a leaf exactly when its subtree has one node |
| `Trees.LeafCount` | Project3/BST.h:355-363 | the leaf count is at most the node count, and at least 1 for a non-empty tree |
| `Trees.Height` | Project3/BST.h:443-457 | the height is 0 exactly for the absent tree, and never more than the node count |
| `Trees.InOrder` | Project3/BST.h:408-418 | the in-order traversal has one entry per node |
| `Trees.PreOrder` | Project3/BST.h:420-429 | the pre-order traversal has one entry per node |
| `Trees.PostOrder` | Project3/BST.h:431-441 | the post-order traversal has one entry per node |
| `Trees.LeafCountAtMostHalf` | Project3/BST.h:355-363 | a tree of n nodes has at most (n + 1) / 2 leaves |
| `Trees.KeysAtMostSize` | Project3/BST.h:380-386 | no tree holds more distinct keys than it has nodes |
| `Trees.SizeIsCardinality` | Project3/BST.h:11-14 | on a search tree no two nodes hold the same key, so the node count equals the number of keys |
| `Trees.SizeBoundedByHeight` | Project3/BST.h:88-93 | a tree with h levels holds fewer than 2^h nodes |
| `Trees.TraversalKeys` | Project3/BST.h:95-114 | each of the three traversals contains exactly the keys of the tree |
| `Trees.InOrderAscending` | Project3/BST.h:408-418 | the in-order traversal of a search tree is strictly ascending |
| `Trees.TraversalsArePermutations` | Project3/BST.h:420-441 | pre-order and post-order are permutations of in-order |
| `Trees.AddIdempotent` | Project3/BST.h:51-57 | adding a key twice gives the same tree as adding it once |
| `Trees.RemoveUndoesAdd` | Project3/BST.h:296-336 | adding an absent key and then removing it gives back the very same tree |
| `Trees.SizeAfterUpdate` | Project3/BST.h:75-79 | on a search tree, `add` raises the node count by one exactly when the key was absent, and `remove` lowers it by one exactly when the key was present |
| `OrderedSet.BST.constructor` | Project3/BST.h:226-229 | a new set is empty and ordered |
| `OrderedSet.BST.CopyOf` | Project3/BST.h:236-239 | the copy constructor gives an ordered tree equal to the other set's, with the same keys |
| `OrderedSet.BST.Assign` | Project3/BST.h:241-248 | after assignment the tree equals the right-hand side's tree as it was before, also when the right-hand side is the set itself |
| `OrderedSet.BST.Has` | Project3/BST.h:250-253 | true exactly when the key is an element |
| `OrderedSet.BST.Add` | Project3/BST.h:255-258 | the set becomes the old set plus the key, the order invariant is kept, and a present key leaves the tree unchanged |
| `OrderedSet.BST.Remove` | Project3/BST.h:260-263 | the set becomes the old set minus the key (so `has(key)` is false afterwards), the order invariant is kept, and an absent key leaves the tree unchanged |
| `OrderedSet.BST.IsEmpty` | Project3/BST.h:265-270 | true exactly when the root is absent, which is exactly when the set has no element |
| `OrderedSet.BST.Size` | Project3/BST.h:272-275 | the node count equals the number of elements |
| `OrderedSet.BST.GetLeafCount` | Project3/BST.h:277-280 | the leaf count is between 0 and the number of elements, and 0 only for the empty set |
| `OrderedSet.BST.GetHeight` | Project3/BST.h:388-391 | the height is 0 exactly for the empty set, at most the number of elements, and that number is below 2^height |
| `OrderedSet.BST.GetInOrderTraversal` | Project3/BST.h:393-396 | the elements in strictly ascending order, each exactly once |
| `OrderedSet.BST.GetPreOrderTraversal` | Project3/BST.h:398-401 | a permutation of the in-order traversal that lists each element exactly once |
| `OrderedSet.BST.GetPostOrderTraversal` | Project3/BST.h:403-406 | a permutation of the in-order traversal that lists each element exactly once |
| `Scenarios.InsertShape` | Project3/main.cpp:64-72 | adding 40 20 10 30 60 50 70 to an empty set gives the full tree of three levels with root 40 |
| `Scenarios.InsertCounts` | Project3/main.cpp:64-72 | that tree has 7 nodes, 4 leaves and height 3, and is not empty |
| `Scenarios.InsertTraversals` | Project3/main.cpp:78-85 | its pre-order is 40 20 10 30 60 50 70, its in-order 10 20 30 40 50 60 70, and its post-order 10 30 20 50 70 60 40 |
| `Scenarios.RemoveRootScript` | Project3/BST.h:330-333 | removing the root 40, which has two children, puts its predecessor 30 at the root, and the in-order traversal stays ascending |
| `Scenarios.RemoveScript` | Project3/main.cpp:107-118 | removing 20 40 10 70 99 -2 59 43 in turn leaves a three-node tree with one leaf and height 3 |
| `Scenarios.CopyThenRemove` | Project3/BST.h:236-239 | for any set and any key, removing the key from a fresh copy leaves the original's tree as it was, and the copy holds the original's keys minus that key |
| `Scenarios.CopyThenAdd` | Project3/BST.h:236-239 | for any set and any key, adding the key to a fresh copy leaves the original's tree as it was, and the copy holds the original's keys plus that key |

## Left out

- Project3/main.cpp, apart from its integer script: reading keys from a file
  named on standard input, `exit(0)` when the file does not open, and the
  console reports. These are I/O. The string-keyed run is not modelled,
  because keys are `int`.
- Memory management: `clear`, the destructor and the `delete` calls in
  `remove`. They release nodes and have no effect on the set's value.
  Allocation failure in `add` and `copy` is not modelled.
- Update in place: `add` and `remove` rewrite `me->left`, `me->right` and
  `me->key` of heap nodes. The model rebuilds the path as a new value
  instead. The ownership tree has no sharing, so no other reference can
  observe the difference.
- The self-assignment guard `this != &rhs` in `operator=`. In a value model,
  assigning a set to itself already leaves it as it was.
- The text form of the traversals: each key written with `operator<<` and
  followed by one space. The model returns the sequence of keys.
- `Trees.Size`, `Trees.LeafCount` and `Trees.Height` return unbounded
  integers. In the source, `size`, `getLeafCount` and `getHeight` compute a
  signed C++ `int`, which overflows (undefined behaviour) once a tree has more
  than INT_MAX nodes. The model does not capture that overflow.
- Comparators that are not strict total orders: keys are integers, whose
  order is total.
