# Binary search tree (bst.js) in Dafny

This project models the `BinarySearchTree` class of bst.js and its `Node` record. The
class is an unbalanced binary search tree over integers whose values are kept at
mutable nodes linked by `left` and `right` references. Smaller values go left; values
greater than or equal to a node's value go right. It offers:

- iterative and recursive insertion;
- iterative and recursive search;
- removal, which copies the in-order successor into a node that has two children;
- pre-, in- and post-order traversals by recursion;
- a breadth-first traversal driven by a queue;
- an in-order traversal driven by an explicit stack;
- a balance check;
- a second-highest query.

The model has four modules:

- `SeqSpec` (seq_spec.dfy): facts about value sequences. These are sortedness,
  insertion at the sorted position after equal values (`SortedInsert`), removal of the
  first occurrence (`RemoveFirst`), and the second-to-last element (`SecondToLast`).
- `TreeSpec` (tree_spec.dfy): the abstract tree `Tree = Leaf | Branch(left, val,
  right)` and the meaning of every operation on it:
  - `Insert`, `Search`, `Delete`, `Min`, `Max`;
  - the three depth-first orders;
  - `LevelOrder`, and `BfsQueue` (the queue-driven order);
  - `Height` and `Balanced`;
  - the ordering invariant `Ordered`.
  It also holds the lemmas that relate these definitions to one another.
- `Bst` (bst.dfy): the heap model, meaning `class Node` and `class BinarySearchTree` with
  the source's methods.
  - Each node carries a ghost footprint `Repr` and a ghost abstract tree `Subtree`.
    The footprint holds every node reachable from the node; after a removal it may
    also hold nodes that are no longer linked.
  - `Node.Valid()` says that the nodes below form a tree (disjoint footprints, no
    cycles) whose abstract value is `Subtree`.
  - Every method is proved against the `TreeSpec` function it refines.
  - The ordering invariant is not part of `Valid()`. Like the source, the class accepts
    any tree of nodes. Preservation of `Ordered` is stated as a separate property.
- `Examples` (examples.dfy): the worked scenarios.
  - The tree built by inserting 5, 3, 8, 1, 4, 7, 9: its level order, its balance, its
    second-highest value, and what deleting 5 does to it.
  - The chain built by inserting 1, 2, 3, 4, 5, which is not balanced.
  - Removing the only value of a one-node tree, which leaves the tree as it was.

Two behaviours of the source that the model keeps:

- `insertRecursively` and `remove` start at the root by default but never store their
  result back into `root`.
  - On an empty tree, `InsertRecursively` returns a new node and the tree stays empty.
  - Removing a root that has at most one child returns the replacement subtree, and
    the tree seen from `root` stays as it was (`TreeSpec.ReplacesRoot`).
- `findSecondHighest` returns the second-to-last element of the in-order sequence.
  - For the sample tree that is 8, the value just below the maximum 9
    (`Examples.SampleSecondHighest`).

## Model

| member | source | states |
|---|---|---|
| Bst.Node.constructor | bst.js:1-7 | a node built from two separate valid subtrees holds `val`, `left` and `right` as given and stands for `Branch(left, val, right)` |
| Bst.BinarySearchTree.constructor | bst.js:10-12 | the tree's root is the given node (or null) and the tree stands for that node's subtree |
| TreeSpec.Insert | bst.js:15-39 | insertion adds exactly one node |
| Bst.BinarySearchTree.Insert | bst.js:15-39 | the iterative insertion leaves a valid tree that stands for `TreeSpec.Insert(old tree, v)`, setting the root when the tree was empty and keeping the same root node otherwise; the only nodes added are fresh |
| Bst.HangBelow | bst.js:23-38 | the loop below a non-empty tree leaves it valid, with the new node added to its nodes and its tree equal to `TreeSpec.Insert(old tree, v)` |
| Bst.Attach | bst.js:26-28 | hanging the new node on the missing child on the way of `v` makes the whole tree above it valid again, with the same nodes and the same abstract tree |
| TreeSpec.InsertValues | bst.js:15-39 | after insertion the set of values is the old set plus `v` |
| TreeSpec.InsertElems | bst.js:15-39 | after insertion the multiset of values is the old one plus one copy of `v` |
| TreeSpec.InsertOrdered | bst.js:25-36 | insertion keeps the ordering invariant (left smaller, right greater or equal) |
| TreeSpec.InsertInOrder | bst.js:25-36 | on an ordered tree, insertion puts `v` into the in-order sequence at its sorted position after every equal value |
| SeqSpec.SortedInsert | bst.js:25-36 | inserting into a value sequence lengthens it by one |
| SeqSpec.SortedInsertElems | bst.js:25-36 | sorted insertion adds exactly one copy of `v` |
| SeqSpec.SortedInsertSorted | bst.js:25-36 | sorted insertion keeps a sequence sorted |
| Bst.BinarySearchTree.InsertRecursivelyAt | bst.js:42-54 | the recursion returns a valid node standing for `TreeSpec.Insert(old subtree, v)`: the given node itself when there is one, a fresh node otherwise |
| Bst.BinarySearchTree.InsertRecursively | bst.js:42-54 | with the root as the start, the returned node stands for the insertion and is a fresh node when the tree was empty and the root itself otherwise; the tree is the same as after `Insert` when the root exists and stays empty when it does not; the ordering invariant is kept |
| TreeSpec.InsertAllElems | bst.js:15-39 | inserting a sequence of values adds exactly those values |
| TreeSpec.InsertAllOrdered | bst.js:15-39 | a sequence of insertions keeps the ordering invariant |
| TreeSpec.InsertAllSorts | bst.js:15-39 | the in-order sequence of a tree built by insertions is the sorted permutation of the inserted values |
| TreeSpec.InsertAllSearch | bst.js:57-80 | a tree built by insertions finds a value exactly when it was inserted |
| TreeSpec.InsertAllValues | bst.js:15-39 | the values of a tree built by insertions are the old values and the inserted ones |
| TreeSpec.Search | bst.js:57-80 | the search stops at a subtree of the tree, and at a node holding `v` if it stops at a node |
| TreeSpec.SearchFinds | bst.js:57-80 | in an ordered tree the search finds a node exactly when `v` occurs |
| Bst.BinarySearchTree.FindRecursivelyAt | bst.js:74-80 | the recursion returns null exactly when the search runs out, and otherwise a valid node of the subtree that holds `v` and is the search's stopping point |
| Bst.BinarySearchTree.FindRecursively | bst.js:74-80 | the same, started at the root: null exactly when the search runs out, otherwise a valid node of the tree holding `v` whose subtree is the search's stopping point |
| Bst.BinarySearchTree.Find | bst.js:57-71 | the loop returns the very node the recursive search returns (null when absent), and it changes nothing |
| Bst.BinarySearchTree.DfsPreOrderAt | bst.js:83-90 | appends the pre-order sequence of the subtree to the accumulated result |
| Bst.BinarySearchTree.DfsInOrderAt | bst.js:93-100 | appends the in-order sequence of the subtree to the accumulated result |
| Bst.BinarySearchTree.DfsPostOrderAt | bst.js:103-110 | appends the post-order sequence of the subtree to the accumulated result |
| Bst.BinarySearchTree.DfsPreOrder | bst.js:83-90 | returns the pre-order sequence, which holds every value exactly once |
| Bst.BinarySearchTree.DfsInOrder | bst.js:93-100 | returns the in-order sequence, which holds every value exactly once and is sorted when the tree is ordered |
| Bst.BinarySearchTree.DfsPostOrder | bst.js:103-110 | returns the post-order sequence, which holds every value exactly once |
| TreeSpec.InOrder | bst.js:93-100 | the in-order sequence has one entry per node |
| TreeSpec.InOrderElems | bst.js:93-100 | the in-order sequence is a permutation of the tree's values |
| TreeSpec.InOrderValues | bst.js:93-100 | a value occurs in the in-order sequence exactly when it occurs in the tree |
| TreeSpec.OrderedInOrderSorted | bst.js:93-100 | the in-order sequence of an ordered tree is non-decreasing |
| TreeSpec.PreOrder | bst.js:83-90 | the pre-order sequence has one entry per node |
| TreeSpec.PostOrder | bst.js:103-110 | the post-order sequence has one entry per node |
| TreeSpec.PreOrderElems | bst.js:83-90 | the pre-order sequence is a permutation of the tree's values |
| TreeSpec.PostOrderElems | bst.js:103-110 | the post-order sequence is a permutation of the tree's values |
| Bst.BinarySearchTree.DfsInOrderIteratively | bst.js:203-220 | the stack-driven loop returns exactly the in-order sequence, for every shape including the empty tree |
| Bst.BinarySearchTree.Bfs | bst.js:113-128 | the queue-driven loop returns the queue order of the tree, which is its level order (empty for an empty tree) |
| TreeSpec.BfsQueue | bst.js:117-125 | running the FIFO queue emits one value per node of the queued trees |
| TreeSpec.BfsIsLevelOrder | bst.js:113-128 | running the FIFO queue from the root emits the values level by level |
| TreeSpec.BfsQueueLevels | bst.js:119-125 | a queue holding the rest of one level followed by part of the next one emits the rest of that level's roots, then the level order below |
| TreeSpec.LevelOrderElems | bst.js:113-128 | level order holds every value exactly once |
| TreeSpec.Min | bst.js:152-155 | the leftmost value is a value of the tree and the first entry of its in-order sequence |
| TreeSpec.MinIsLeast | bst.js:152-155 | in an ordered tree the leftmost value is the least one |
| Bst.BinarySearchTree.FindMin | bst.js:152-155 | the loop returns a node in the subtree's footprint without a left child whose value is the subtree's leftmost value |
| TreeSpec.Max | bst.js:180-183 | the rightmost value is a value of the tree and the last entry of its in-order sequence |
| TreeSpec.MaxIsGreatest | bst.js:180-183 | in an ordered tree the rightmost value is the greatest one |
| Bst.BinarySearchTree.FindMax | bst.js:180-183 | the loop returns a node in the subtree's footprint without a right child whose value is the subtree's rightmost value |
| Bst.BinarySearchTree.RemoveAt | bst.js:131-149 | the recursion returns a valid subtree standing for `TreeSpec.Delete(old subtree, v)`; it returns the given node unless that node holds `v` and lacks a child, in which case it returns that node's other child itself and the old nodes are untouched |
| Bst.BinarySearchTree.RemoveHere | bst.js:138-146 | the equal-value branch: a leaf yields null, a node with one child yields that very child node, and a node with two children is kept and stands for the deletion |
| Bst.BinarySearchTree.TakeSuccessor | bst.js:144-146 | a node with two children takes the least value of its right subtree, which is removed from there; the node stays valid with the same footprint and stands for `TreeSpec.Delete(old subtree, old value)` |
| Bst.BinarySearchTree.Remove | bst.js:131-149 | with the root as the start, the returned node (if any) is a valid tree within the tree's nodes and stands for the deletion; it is the root itself exactly when the root does not both hold `v` and lack a child, and otherwise it is the root's other child, still hanging from the root because no node changes in that case; the root is never reassigned, so the tree is unchanged in that case and is the deletion otherwise; the ordering invariant is kept |
| TreeSpec.Delete | bst.js:131-149 | removal never adds a node, and leaves the tree as it is when the search for `v` runs out |
| TreeSpec.DeleteValues | bst.js:131-149 | removal adds no value and leaves the tree as it is when `v` is absent |
| TreeSpec.DeleteInOrder | bst.js:131-149 | on an ordered tree, removal deletes the first occurrence of `v` from the in-order sequence and nothing else |
| TreeSpec.DeleteElems | bst.js:131-149 | on an ordered tree, removal takes away exactly one copy of `v`, if there is one |
| TreeSpec.DeleteOrdered | bst.js:131-149 | removal keeps the ordering invariant |
| TreeSpec.InsertThenDelete | bst.js:15-39 | on an ordered tree, the subtree removal returns, applied to the tree just built by inserting `v`, has the old in-order sequence (the tree seen from `root` keeps `v` when the root holds `v` and lacks a child) |
| SeqSpec.RemoveFirstElems | bst.js:131-149 | deleting the first occurrence takes one copy of the value out of the multiset |
| SeqSpec.RemoveFirstAbsent | bst.js:131-149 | deleting an absent value changes nothing |
| SeqSpec.RemoveFirstSortedInsert | bst.js:131-149 | deleting the value just inserted at its sorted position undoes the insertion |
| TreeSpec.Height | bst.js:159-162 | the height is at most the number of nodes and is 0 exactly for the empty tree |
| Bst.BinarySearchTree.HeightOf | bst.js:159-162 | the recursive height of a node equals the height of its subtree |
| TreeSpec.BalancedBranch | bst.js:164-173 | a node is balanced exactly when its children's heights differ by at most one and both children are balanced |
| Bst.BinarySearchTree.CheckBalance | bst.js:164-173 | the recursion is true exactly when every node's subtree heights differ by at most one |
| Bst.BinarySearchTree.IsBalanced | bst.js:158-176 | the result is true exactly when the whole tree is balanced |
| Bst.BinarySearchTree.FindSecondHighestAt | bst.js:185-197 | the recursion returns the second-to-last in-order value, or nothing for a subtree with fewer than two nodes |
| Bst.BinarySearchTree.FindSecondHighest | bst.js:179-200 | the query returns the second-to-last in-order value of the tree, or nothing for an empty or single-node tree |
| TreeSpec.SecondToLastIsSecondHighest | bst.js:179-200 | in an ordered tree with two or more nodes that value exists, is a value of the tree, is no smaller than every in-order entry except the last, and is at most the maximum |
| Examples.SampleBuilt | bst.js:15-39 | inserting 5, 3, 8, 1, 4, 7, 9 builds the full three-level tree 5 / 3, 8 / 1, 4, 7, 9 |
| Examples.ChainBuilt | bst.js:15-39 | inserting 1, 2, 3, 4, 5 builds a chain hanging to the right |
| Examples.SampleOrdered | bst.js:15-39 | the sample tree satisfies the ordering invariant |
| Examples.FullLevels | bst.js:113-128 | a full three-level tree is read level by level |
| Examples.SampleLevels | bst.js:113-128 | breadth-first order of the sample is 5, 3, 8, 1, 4, 7, 9 |
| Examples.SampleBalanced | bst.js:158-176 | the sample tree is balanced |
| Examples.ChainUnbalanced | bst.js:158-176 | the chain built from 1 to 5 is not balanced |
| Examples.SampleSecondHighest | bst.js:179-200 | the sample's in-order sequence is 1, 3, 4, 5, 7, 8, 9 and its second-highest value is 8 |
| Examples.SecondHighestNone | bst.js:186 | an empty tree and a single node have no second-highest value |
| Examples.RemoveOnlyValue | bst.js:131-149 | after inserting `v` into an empty tree and removing it, remove returns null but the tree still holds the one node with `v` |
| Examples.SampleDeleteRoot | bst.js:138-146 | deleting 5 from the sample puts 7 at the root, and the in-order sequence becomes 1, 3, 4, 7, 8, 9 |

## Left out

- `module.exports` (bst.js:223) is packaging only and is not modelled.
- `insert` returns `this` for chaining. `Bst.BinarySearchTree.Insert` returns nothing.
- JavaScript default parameters are modelled as explicit arguments:
  - `node = this.root` and `result = []` become the `...At` methods, which take the
    start node and the accumulated result;
  - argument-free wrappers start them at the root with an empty result.
- The accumulated `result` array, the BFS queue and the in-order stack are modelled as
  Dafny sequences that the methods reassign.
  - The model does not capture that the caller of `dfs*` sees its own array object
    grow in place.
  - `Array.prototype.shift` is taking the sequence's tail.
- Values are `int`.
  - JavaScript's dynamic comparison of mixed types is not modelled.
  - `Math.max` and `Math.abs` are written as integer expressions.
- `undefined` and `null` results are Dafny `null` (for nodes) or `SeqSpec.Option` (for
  the second-highest value).
- Bst.Node.constructor: requires its children to be separate valid trees.
  - JavaScript accepts any objects.
  - Nodes shared between subtrees or linked in cycles are outside the model.
- Bst.BinarySearchTree.constructor: requires the given root, if any, to be a valid tree
  for the same reason.
- Recursion depth and stack exhaustion are runtime resource limits, not functional
  behaviour.
- Callers holding references to nodes returned by `find` are not modelled. Such a
  caller could see those nodes change during a later `remove`.
- Bst.BinarySearchTree.Insert does not itself state that ordering is preserved. That
  property is `TreeSpec.InsertOrdered` applied to `TreeSpec.Insert`, which the method's
  contract equals.
