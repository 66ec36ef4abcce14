/** The linked binary search tree of bst.js: `Node` objects joined by `left` and `right`
    references, and the `BinarySearchTree` that holds the root. Every node carries two
    ghost fields, a footprint that holds every node reachable from it (`Repr`; after a
    removal it may also hold nodes no longer linked) and the abstract tree it stands for
    (`Subtree`); every operation is proved against the definitions in TreeSpec. */
module Bst {
  import opened SeqSpec
  import opened TreeSpec

  /** The footprint of `n`, which holds every node reachable from it; none for the empty
      reference. */
  ghost function ReprOf(n: Node?): set<Node>
    reads n
  {
    if n == null then {} else n.Repr
  }

  /** The abstract tree at `n`, the empty tree for the empty reference. */
  ghost function SubtreeOf(n: Node?): Tree
    reads n
  {
    if n == null then Leaf else n.Subtree
  }

  /** What an in-order traversal driven by a stack still owes once the current subtree
      is done: for each stacked tree, from the top down, its value and then its right
      subtree. */
  ghost function Pending(ts: seq<Tree>): seq<int> {
    if ts == [] then []
    else
      var t := ts[|ts| - 1];
      (if t.Branch? then [t.val] + InOrder(t.right) else []) + Pending(ts[..|ts| - 1])
  }

  /** Each node of a traversal's stack or queue is valid and holds the tree at the same
      position of the ghost sequence beside it. */
  ghost predicate Mirrors(stack: seq<Node>, trees: seq<Tree>)
    reads set i | 0 <= i < |stack| :: stack[i]
    reads set i, x | 0 <= i < |stack| && x in stack[i].Repr :: x
  {
    |stack| == |trees| &&
    forall i | 0 <= i < |stack| :: stack[i].Valid() && stack[i].Subtree == trees[i]
  }

  lemma MirrorsPush(stack: seq<Node>, trees: seq<Tree>, n: Node)
    requires Mirrors(stack, trees) && n.Valid()
    ensures Mirrors(stack + [n], trees + [n.Subtree])
  {
    var stack', trees' := stack + [n], trees + [n.Subtree];
    forall i | 0 <= i < |stack'|
      ensures stack'[i].Valid() && stack'[i].Subtree == trees'[i]
    {
      if i < |stack| {
        assert stack'[i] == stack[i] && trees'[i] == trees[i];
      }
    }
  }

  lemma MirrorsPop(stack: seq<Node>, trees: seq<Tree>)
    requires Mirrors(stack, trees) && stack != []
    ensures Mirrors(stack[..|stack| - 1], trees[..|trees| - 1])
    ensures stack[|stack| - 1].Valid() && stack[|stack| - 1].Subtree == trees[|trees| - 1]
  {
  }

  /** The non-null children of a node, left before right: what bst.js bfs appends to
      its queue. */
  function ChildNodes(n: Node): seq<Node>
    reads n
  {
    (if n.left != null then [n.left] else []) + (if n.right != null then [n.right] else [])
  }

  lemma MirrorsStep(queue: seq<Node>, trees: seq<Tree>, next: seq<Node>)
    requires Mirrors(queue, trees) && queue != []
    requires next == queue[1..] + ChildNodes(queue[0])
    ensures Mirrors(next, trees[1..] + Kids(trees[0]))
    ensures trees[0].Branch? && trees[0].val == queue[0].val
  {
    var n := queue[0];
    ValidBranch(n);
    if n.left != null { ValidBranch(n.left); }
    if n.right != null { ValidBranch(n.right); }
    var kids := trees[1..] + Kids(trees[0]);
    assert |ChildNodes(n)| == |Kids(trees[0])|;
    forall i | 0 <= i < |next|
      ensures next[i].Valid() && next[i].Subtree == kids[i]
    {
      if i < |queue| - 1 {
        assert next[i] == queue[i + 1] && kids[i] == trees[i + 1];
      } else if n.left != null && i == |queue| - 1 {
        assert next[i] == n.left;
      } else {
        assert next[i] == n.right;
      }
    }
  }

  lemma QueueAppend(rest: seq<Node>, lefts: seq<Node>, queue: seq<Node>, n: Node)
    requires lefts == if n.left != null then rest + [n.left] else rest
    requires queue == if n.right != null then lefts + [n.right] else lefts
    ensures queue == rest + ChildNodes(n)
  {
  }

  /** One step of the queue-driven traversal: the front tree's value is emitted and its
      non-empty children join the back of the queue. */
  lemma BfsQueueCons(done: seq<int>, q: seq<Tree>)
    requires q != [] && q[0].Branch?
    ensures done + BfsQueue(q) == (done + [q[0].val]) + BfsQueue(q[1..] + Kids(q[0]))
  {
  }

  /** Pushing a tree onto the stack: its left subtree becomes the current one. */
  lemma PendingPush(done: seq<int>, ts: seq<Tree>, t: Tree)
    requires t.Branch?
    ensures done + InOrder(t) + Pending(ts) == done + InOrder(t.left) + Pending(ts + [t])
  {
    assert (ts + [t])[..|ts|] == ts;
  }

  /** Popping the top of the stack once the current subtree is done: its value is
      emitted and its right subtree becomes the current one. */
  lemma PendingPop(done: seq<int>, ts: seq<Tree>)
    requires ts != [] && ts[|ts| - 1].Branch?
    ensures done + InOrder(Leaf) + Pending(ts)
         == (done + [ts[|ts| - 1].val]) + InOrder(ts[|ts| - 1].right) + Pending(ts[..|ts| - 1])
  {
    var t, rest := ts[|ts| - 1], Pending(ts[..|ts| - 1]);
    assert Pending(ts) == [t.val] + InOrder(t.right) + rest;
    assert done + InOrder(Leaf) == done by { assert InOrder(Leaf) == []; }
    Regroup(done, [t.val], InOrder(t.right), rest);
  }

  class Node {
    var val: int
    var left: Node?
    var right: Node?
    ghost var Repr: set<Node>
    ghost var Subtree: Tree

    /** The node's own part of the tree invariant: its footprint holds itself and the
        footprints of its children, which are disjoint and do not hold it, and its
        abstract tree is built from theirs. */
    ghost predicate LocalValid()
      reads this, left, right
    {
      this in Repr &&
      (left != null ==> left in Repr && left.Repr <= Repr && this !in left.Repr) &&
      (right != null ==> right in Repr && right.Repr <= Repr && this !in right.Repr) &&
      ReprOf(left) !! ReprOf(right) &&
      Subtree == Branch(SubtreeOf(left), val, SubtreeOf(right))
    }

    /** Every node below this one, this one included, keeps its part of the invariant. */
    ghost predicate Valid()
      reads this, Repr
      decreases Repr
    {
      this in Repr &&
      (left != null ==> left in Repr) &&
      (right != null ==> right in Repr) &&
      LocalValid() &&
      (left != null ==> left.Valid()) &&
      (right != null ==> right.Valid())
    }

    /** The state of a node on the path of an insertion of `v` that is under way: its
        footprint and abstract tree already account for the new node `nn`, which is yet
        to be attached somewhere below it; its children are valid and do not hold `nn`. */
    ghost predicate HoleFor(nn: Node, v: int)
      reads this, Repr
    {
      this in Repr && nn in Repr && nn != this &&
      (left != null ==>
        left in Repr && left.Repr <= Repr && this !in left.Repr && nn !in left.Repr && left.Valid()) &&
      (right != null ==>
        right in Repr && right.Repr <= Repr && this !in right.Repr && nn !in right.Repr && right.Valid()) &&
      ReprOf(left) !! ReprOf(right) &&
      Subtree == TreeSpec.Insert(Branch(SubtreeOf(left), val, SubtreeOf(right)), v)
    }

    /** The subtree at this node during an insertion of `v` that has reached `hole`: the
        nodes on the way down to `hole` keep their own part of the invariant, the other
        child of each is a valid subtree without `nn`, and `hole` is as HoleFor says. */
    ghost predicate AroundHole(hole: Node, nn: Node, v: int)
      reads this, Repr
      decreases Repr
    {
      this in Repr && hole in Repr && hole.Repr <= Repr &&
      if this == hole then HoleFor(nn, v)
      else
        (left != null ==> left in Repr) && (right != null ==> right in Repr) &&
        LocalValid() &&
        if v < val then
          left != null && left.AroundHole(hole, nn, v) &&
          (right != null ==> right.Valid() && nn !in right.Repr)
        else
          right != null && right.AroundHole(hole, nn, v) &&
          (left != null ==> left.Valid() && nn !in left.Repr)
    }

    /** bst.js `new Node(val, left, right)`, for children that are separate trees. */
    constructor (val: int, left: Node?, right: Node?)
      requires left != null ==> left.Valid()
      requires right != null ==> right.Valid()
      requires ReprOf(left) !! ReprOf(right)
      ensures Valid()
      ensures this.val == val && this.left == left && this.right == right
      ensures Repr == {this} + ReprOf(left) + ReprOf(right)
      ensures Subtree == Branch(SubtreeOf(left), val, SubtreeOf(right))
    {
      this.val := val;
      this.left := left;
      this.right := right;
      Repr := {this} + ReprOf(left) + ReprOf(right);
      Subtree := Branch(SubtreeOf(left), val, SubtreeOf(right));
    }
  }

  /** A valid node stands for a non-empty tree. */
  lemma ValidBranch(n: Node)
    requires n.Valid()
    ensures n.Subtree.Branch? && n.Subtree.val == n.val
    ensures n.Subtree.left == SubtreeOf(n.left) && n.Subtree.right == SubtreeOf(n.right)
  {
  }

  /** A valid node stays valid while nothing in its footprint changes. */
  twostate lemma StillValid(n: Node)
    requires old(n.Valid()) && unchanged(old(n.Repr))
    ensures n.Valid() && n.Repr == old(n.Repr)
  {
  }

  /** The nodes one step of an iterative insertion of `v` is about: the claim is made at
      `top`, the insertion has got to `hole` and moves on to `next` (null when it attaches
      there), and `added` is the new node. The two-state lemmas below take their nodes
      bundled in this one value: with several parameters, calls to them made the
      verifier crash when run with --warn-contradictory-assumptions. */
  datatype Descent = Descent(top: Node, hole: Node, next: Node?, added: Node, v: int)

  /** The child `next` of the hole on the way of `v`, once it accounts for the new node,
      is a hole for it. */
  twostate lemma NextHole(d: Descent)
    requires var Descent(_, hole, c, nn, v) := d;
      // `== true` keeps the verifier from splitting the predicate into its conjuncts
      old(hole.HoleFor(nn, v)) == true && c == old(if v < hole.val then hole.left else hole.right) &&
      c != null && unchanged(old(hole.Repr) - {c}) &&
      c.val == old(c.val) && c.left == old(c.left) && c.right == old(c.right) &&
      c.Repr == old(c.Repr) + {nn} && c.Subtree == TreeSpec.Insert(old(c.Subtree), v)
    ensures var Descent(_, hole, c, nn, v) := d;
      c != null && c.HoleFor(nn, v) && c in hole.Repr && c.Repr <= hole.Repr && c != nn
  {
    var Descent(_, hole, c, nn, v) := d;
    assert old(c.Valid() && c.LocalValid());
    if c.left != null { StillValid(c.left); }
    if c.right != null { StillValid(c.right); }
  }

  /** One step down during an insertion, at the hole itself: once its child `next` on the
      way of `v` accounts for the new node too, the hole has moved to `next`. */
  twostate lemma StepHere(d: Descent)
    requires var Descent(_, hole, c, nn, v) := d;
      old(hole.HoleFor(nn, v)) && c == old(if v < hole.val then hole.left else hole.right) &&
      c != null && unchanged(old(hole.Repr) - {c}) &&
      c.val == old(c.val) && c.left == old(c.left) && c.right == old(c.right) &&
      c.Repr == old(c.Repr) + {nn} && c.Subtree == TreeSpec.Insert(old(c.Subtree), v)
    ensures var Descent(_, hole, c, nn, v) := d;
      c != null && hole.AroundHole(c, nn, v) && hole.Repr == old(hole.Repr) &&
      c.HoleFor(nn, v) && c.Repr <= hole.Repr && c != nn
  {
    var Descent(_, hole, c, nn, v) := d;
    var w := old(if v < hole.val then hole.right else hole.left);
    NextHole(d);
    if w != null { StillValid(w); }
    assert hole != c && unchanged(hole);
    var was := old(c.Subtree);
    if v < hole.val {
      assert hole.Subtree == Branch(TreeSpec.Insert(was, v), hole.val, SubtreeOf(w));
    } else {
      assert hole.Subtree == Branch(SubtreeOf(w), hole.val, TreeSpec.Insert(was, v));
    }
  }

  /** One step down during an insertion, above the hole: a node `top` whose child on the
      way of `v` is unchanged and has the hole below it has the hole below it too. */
  twostate lemma StepAbove(d: Descent)
    requires var Descent(x, hole, _, nn, v) := d;
      old(x.LocalValid()) && x != hole && unchanged(x) &&
      (var y := if v < x.val then x.left else x.right;
       y != null && y != hole && unchanged(y) && y.AroundHole(hole, nn, v)) &&
      (var w := if v < x.val then x.right else x.left;
       w != null ==> w != hole && old(w.Valid()) && nn !in old(w.Repr) && unchanged(old(w.Repr)))
    ensures d.top.AroundHole(d.hole, d.added, d.v)
  {
    var Descent(x, _, _, _, v) := d;
    var w := if v < x.val then x.right else x.left;
    if w != null { StillValid(w); }
  }

  /** One step down during an insertion, seen from `top`: StepHere at the hole and
      StepAbove on every node above it. */
  twostate lemma {:induction false} StepAround(d: Descent)
    requires var Descent(x, hole, c, nn, v) := d;
      // `== true` keeps the verifier from splitting the predicate into its conjuncts
      old(x.AroundHole(hole, nn, v)) == true && old(hole.HoleFor(nn, v)) == true &&
      c == old(if v < hole.val then hole.left else hole.right) && c != null &&
      c.val == old(c.val) && c.left == old(c.left) && c.right == old(c.right) &&
      c.Repr == old(c.Repr) + {nn} && c.Subtree == TreeSpec.Insert(old(c.Subtree), v) &&
      unchanged(old(x.Repr) - {c})
    ensures var Descent(x, _, c, nn, v) := d;
      c != null && x.AroundHole(c, nn, v) && x.Repr == old(x.Repr) &&
      c.HoleFor(nn, v) && c.Repr <= x.Repr && c != nn
    decreases old(d.top.Repr)
  {
    var Descent(x, hole, c, nn, v) := d;
    if x == hole {
      StepHere(d);
    } else {
      var y := old(if v < x.val then x.left else x.right);
      var w := old(if v < x.val then x.right else x.left);
      assert old(c in hole.Repr && hole.Repr <= y.Repr && x !in y.Repr);
      assert w != null ==> old(w in w.Repr && w.Repr !! y.Repr);
      StepAround(d.(top := y));
      StepAbove(Descent(x, c, null, nn, v));
    }
  }

  /** The ghost side of the start of an insertion below a non-empty tree: its root `top`
      takes the new node `nn` into its footprint and its tree, and is the first hole. */
  ghost method StartHole(top: Node, nn: Node, v: int)
    requires top.Valid() && nn !in top.Repr
    modifies top
    ensures top.val == old(top.val) && top.left == old(top.left) && top.right == old(top.right)
    // `== true` keeps the verifier from splitting the predicate into its conjuncts
    ensures top.AroundHole(top, nn, v) == true && top.HoleFor(nn, v) == true
    ensures top.Repr == old(top.Repr) + {nn} && top.Subtree == TreeSpec.Insert(old(top.Subtree), v)
  {
    top.Repr, top.Subtree := top.Repr + {nn}, TreeSpec.Insert(top.Subtree, v);
  }

  /** The ghost side of one step down during an insertion: the child `c` of `hole` on
      the way of `v` takes the new node `nn` into its footprint and its tree, and the hole
      moves there. */
  ghost method Descend(top: Node, hole: Node, c: Node, nn: Node, v: int)
    // `== true` keeps the verifier from splitting the predicate into its conjuncts
    requires top.AroundHole(hole, nn, v) == true && hole.HoleFor(nn, v) == true
    requires hole == top || top !in hole.Repr
    requires c == if v < hole.val then hole.left else hole.right
    modifies c
    ensures c.val == old(c.val) && c.left == old(c.left) && c.right == old(c.right)
    // `== true` keeps the verifier from splitting the predicate into its conjuncts
    ensures top.AroundHole(c, nn, v) == true && c.HoleFor(nn, v) == true
    ensures c != nn && c in top.Repr && c.Repr <= top.Repr && top !in c.Repr
    ensures hole.Repr == old(hole.Repr) && c.Repr < hole.Repr
    ensures top.Repr == old(top.Repr) && top.Subtree == old(top.Subtree)
  {
    label Step:
    c.Repr, c.Subtree := c.Repr + {nn}, TreeSpec.Insert(c.Subtree, v);
    StepAround@Step(Descent(top, hole, c, nn, v));
  }

  /** The end of an insertion, at the hole: once the new node hangs from `hole` on the
      way of `v`, `hole` is valid again. */
  twostate lemma AttachHere(d: Descent)
    requires var Descent(_, hole, _, nn, v) := d;
      old(hole.HoleFor(nn, v)) &&
      old(if v < hole.val then hole.left else hole.right) == null &&
      unchanged(old(hole.Repr) - {hole}) &&
      hole.val == old(hole.val) && hole.Repr == old(hole.Repr) && hole.Subtree == old(hole.Subtree) &&
      (v < hole.val ==> hole.left == nn && hole.right == old(hole.right)) &&
      (v >= hole.val ==> hole.right == nn && hole.left == old(hole.left)) &&
      nn.val == v && nn.left == null && nn.right == null &&
      nn.Repr == {nn} && nn.Subtree == Branch(Leaf, v, Leaf)
    ensures d.hole.Valid()
  {
    var Descent(_, hole, _, nn, v) := d;
    var w := old(if v < hole.val then hole.right else hole.left);
    assert nn.LocalValid();
    if w != null { StillValid(w); }
    assert w != null ==> w != hole && w.Subtree == old(w.Subtree);
    assert TreeSpec.Insert(Leaf, v) == Branch(Leaf, v, Leaf);
    if v < hole.val {
      assert old(hole.Subtree) == TreeSpec.Insert(Branch(Leaf, hole.val, SubtreeOf(w)), v);
    } else {
      assert old(hole.Subtree) == TreeSpec.Insert(Branch(SubtreeOf(w), hole.val, Leaf), v);
    }
    assert hole.LocalValid();
  }

  /** The end of an insertion, above the hole: a node `top` whose child on the way of `v`
      is valid again, with the same footprint and tree, is valid again too. */
  twostate lemma AttachAbove(d: Descent)
    requires var Descent(x, hole, _, _, v) := d;
      old(x.LocalValid()) && x != hole && unchanged(x) &&
      (var y := if v < x.val then x.left else x.right;
       y != null && y.Valid() && y.Repr == old(y.Repr) && y.Subtree == old(y.Subtree)) &&
      (var w := if v < x.val then x.right else x.left;
       w != null ==> w != hole && old(w.Valid()) && unchanged(old(w.Repr)))
    ensures d.top.Valid()
  {
    var Descent(x, _, _, _, v) := d;
    var w := if v < x.val then x.right else x.left;
    if w != null { StillValid(w); }
    assert x.LocalValid();
  }

  /** The end of an insertion, seen from `top`: AttachHere at the hole and AttachAbove on
      every node above it. */
  twostate lemma {:induction false} AttachAround(d: Descent)
    requires var Descent(x, hole, _, nn, v) := d;
      // `== true` keeps the verifier from splitting the predicate into its conjuncts
      old(x.AroundHole(hole, nn, v)) == true && old(hole.HoleFor(nn, v)) == true &&
      old(if v < hole.val then hole.left else hole.right) == null &&
      hole.val == old(hole.val) && hole.Repr == old(hole.Repr) && hole.Subtree == old(hole.Subtree) &&
      (v < hole.val ==> hole.left == nn && hole.right == old(hole.right)) &&
      (v >= hole.val ==> hole.right == nn && hole.left == old(hole.left)) &&
      nn.val == v && nn.left == null && nn.right == null &&
      nn.Repr == {nn} && nn.Subtree == Branch(Leaf, v, Leaf) &&
      unchanged(old(x.Repr) - {hole})
    ensures d.top.Valid() && d.top.Repr == old(d.top.Repr) && d.top.Subtree == old(d.top.Subtree)
    decreases old(d.top.Repr)
  {
    var Descent(x, hole, _, nn, v) := d;
    if x == hole {
      AttachHere(d);
    } else {
      var y := old(if v < x.val then x.left else x.right);
      var w := old(if v < x.val then x.right else x.left);
      assert old(hole in y.Repr && x !in y.Repr);
      assert w != null ==> old(w in w.Repr && w.Repr !! y.Repr);
      AttachAround(d.(top := y));
      AttachAbove(d);
    }
  }

  /** The last step of an insertion: the new node `nn` hangs from `hole` on the way of
      `v`, and `top`, above it, is valid again with the same footprint and tree. */
  method Attach(top: Node, hole: Node, nn: Node, v: int)
    // `== true` keeps the verifier from splitting the predicate into its conjuncts
    requires top.AroundHole(hole, nn, v) == true && hole.HoleFor(nn, v) == true
    requires (if v < hole.val then hole.left else hole.right) == null
    requires nn != hole && nn.val == v && nn.left == null && nn.right == null
    requires nn.Repr == {nn} && nn.Subtree == Branch(Leaf, v, Leaf)
    modifies hole
    ensures top.Valid() && top.Repr == old(top.Repr) && top.Subtree == old(top.Subtree)
  {
    label Hang:
    if v < hole.val {
      hole.left := nn;
    } else {
      hole.right := nn;
    }
    AttachAround@Hang(Descent(top, hole, null, nn, v));
  }

  /** The loop of bst.js insert below a non-empty tree: from `top` it walks left when
      `v` is smaller than the current value and right otherwise, and hangs the new node
      `nn` on the first missing child. */
  method HangBelow(top: Node, nn: Node, v: int)
    requires top.Valid() && nn !in top.Repr
    requires nn.val == v && nn.left == null && nn.right == null
    requires nn.Repr == {nn} && nn.Subtree == Branch(Leaf, v, Leaf)
    modifies top.Repr
    ensures top.Valid() && top.Repr == old(top.Repr) + {nn}
    ensures top.Subtree == TreeSpec.Insert(old(top.Subtree), v)
  {
    var current := top;
    StartHole(current, nn, v);
    while true
      invariant current in top.Repr && current != nn && current.Repr <= top.Repr
      // `== true` keeps the verifier from splitting the predicate into its conjuncts
      invariant top.AroundHole(current, nn, v) == true && current.HoleFor(nn, v) == true
      invariant current == top || top !in current.Repr
      invariant top.Repr == old(top.Repr) + {nn}
      invariant top.Subtree == TreeSpec.Insert(old(top.Subtree), v)
      decreases current.Repr
    {
      var child := if v < current.val then current.left else current.right;
      if child == null {
        Attach(top, current, nn, v);
        return;
      }
      Descend(top, current, child, nn, v);
      current := child;
    }
  }

  class BinarySearchTree {
    var root: Node?
    ghost var Nodes: set<Node>

    ghost predicate Valid()
      reads this, Nodes
    {
      (root == null ==> Nodes == {}) &&
      (root != null ==> root in Nodes && root.Repr == Nodes && root.Valid())
    }

    /** The abstract tree that the root stands for. */
    ghost function Contents(): Tree
      reads this, root
    {
      SubtreeOf(root)
    }

    /** bst.js `new BinarySearchTree(root)`. */
    constructor (root: Node?)
      requires root != null ==> root.Valid()
      ensures Valid()
      ensures this.root == root && Contents() == SubtreeOf(root)
    {
      this.root := root;
      Nodes := ReprOf(root);
    }

    // -------------------------------------------------------------------------
    // Iterative insertion (bst.js insert).

    /** bst.js insert(val): a new node becomes the root of an empty tree; otherwise the
        loop walks left when `v` is smaller than the current value and right otherwise,
        and hangs the new node on the first missing child. */
    method Insert(v: int)
      requires Valid()
      modifies this, Nodes
      ensures Valid()
      ensures Contents() == TreeSpec.Insert(old(Contents()), v)
      ensures old(root) != null ==> root == old(root)
      ensures old(Nodes) <= Nodes && fresh(Nodes - old(Nodes))
    {
      var newNode := new Node(v, null, null);
      if root == null {
        root := newNode;
        Nodes := {newNode};
        return;
      }
      HangBelow(root, newNode, v);
      Nodes := Nodes + {newNode};
    }

    // -------------------------------------------------------------------------
    // Recursive insertion (bst.js insertRecursively).

    /** bst.js insertRecursively(val, node): below an existing node the new value goes
        into the left subtree when smaller and the right one otherwise, and the child
        reference is overwritten with what the recursive call returns; at an empty
        reference it returns a fresh node. */
    method InsertRecursivelyAt(v: int, node: Node?) returns (r: Node)
      requires node != null ==> node.Valid()
      modifies ReprOf(node)
      decreases ReprOf(node)
      ensures r.Valid()
      ensures r.Subtree == TreeSpec.Insert(old(SubtreeOf(node)), v)
      ensures node != null ==> r == node
      ensures old(ReprOf(node)) <= r.Repr && fresh(r.Repr - old(ReprOf(node)))
    {
      if node == null {
        r := new Node(v, null, null);
        return;
      }
      if v < node.val {
        var l := InsertRecursivelyAt(v, node.left);
        label Attach:
        node.left, node.Repr, node.Subtree :=
          l, node.Repr + l.Repr, Branch(l.Subtree, node.val, SubtreeOf(node.right));
        StillValid@Attach(l);
        if node.right != null { StillValid(node.right); }
      } else {
        var rt := InsertRecursivelyAt(v, node.right);
        label Attach:
        node.right, node.Repr, node.Subtree :=
          rt, node.Repr + rt.Repr, Branch(SubtreeOf(node.left), node.val, rt.Subtree);
        StillValid@Attach(rt);
        if node.left != null { StillValid(node.left); }
      }
      r := node;
    }

    /** bst.js insertRecursively(val) with the root as the starting node. The result is
        not written back to `root`: on an empty tree the new node is returned and the
        tree stays empty. */
    method InsertRecursively(v: int) returns (r: Node)
      requires Valid()
      modifies this, Nodes
      ensures Valid() && root == old(root)
      ensures r.Valid() && r.Subtree == TreeSpec.Insert(old(Contents()), v)
      ensures old(root) == null ==> fresh(r)
      ensures old(root) != null ==> r == root
      ensures Contents() == if old(root) == null then Leaf else TreeSpec.Insert(old(Contents()), v)
      ensures old(Nodes) <= Nodes && fresh(Nodes - old(Nodes))
      ensures Ordered(old(Contents())) ==> Ordered(Contents())
    {
      if Ordered(Contents()) { InsertOrdered(Contents(), v); }
      r := InsertRecursivelyAt(v, root);
      if root != null {
        Nodes := root.Repr;
      }
    }

    // -------------------------------------------------------------------------
    // Removal (bst.js remove, findMin).

    /** bst.js remove(val, node): the new reference for the subtree at `node` once one
        occurrence of `v` is gone. Smaller values are removed from the left subtree and
        larger ones from the right, the child reference being overwritten with the
        result; a node holding `v` is handled by RemoveHere. */
    method RemoveAt(v: int, node: Node?) returns (r: Node?)
      requires node != null ==> node.Valid()
      modifies ReprOf(node)
      decreases ReprOf(node), 2
      ensures r != null ==> r.Valid() && r.Repr <= old(ReprOf(node))
      ensures SubtreeOf(r) == Delete(old(SubtreeOf(node)), v)
      ensures r == node <==> !ReplacesRoot(old(SubtreeOf(node)), v)
      ensures r != node ==> unchanged(old(ReprOf(node)))
      ensures ReplacesRoot(old(SubtreeOf(node)), v) ==> r == old(if node.left == null then node.right else node.left)
      ensures node != null ==> node.Repr == old(node.Repr)
    {
      if node == null {
        return null;
      }
      ValidBranch(node);
      if v < node.val {
        var l := RemoveAt(v, node.left);
        node.left, node.Subtree := l, Branch(SubtreeOf(l), node.val, SubtreeOf(node.right));
        r := node;
      } else if v > node.val {
        var rt := RemoveAt(v, node.right);
        node.right, node.Subtree := rt, Branch(SubtreeOf(node.left), node.val, SubtreeOf(rt));
        r := node;
      } else {
        r := RemoveHere(node);
      }
    }

    /** The branch of bst.js remove(val, node) for a node that holds the value: with no
        children it gives way to nothing, with one child to that child, and with two
        children it stays, as TakeSuccessor says. */
    method RemoveHere(node: Node) returns (r: Node?)
      requires node.Valid()
      modifies node.Repr
      decreases node.Repr, 1
      ensures r != null ==> r.Valid() && r.Repr <= old(node.Repr)
      ensures SubtreeOf(r) == Delete(old(node.Subtree), old(node.val))
      ensures r == node <==> !ReplacesRoot(old(node.Subtree), old(node.val))
      ensures r != node ==> unchanged(old(node.Repr))
      ensures old(node.left) == null ==> r == old(node.right)
      ensures old(node.right) == null ==> r == old(node.left)
      ensures node.Repr == old(node.Repr)
    {
      ValidBranch(node);
      if node.left == null && node.right == null {
        return null;
      }
      if node.left == null {
        return node.right;
      }
      if node.right == null {
        return node.left;
      }
      TakeSuccessor(node);
      r := node;
    }

    /** The two-children case of bst.js remove(val, node): the node takes the smallest
        value of its right subtree (bst.js findMin), which is then removed from there. */
    method TakeSuccessor(node: Node)
      requires node.Valid() && node.left != null && node.right != null
      modifies node.Repr
      decreases node.Repr, 0
      ensures node.Valid() && node.Repr == old(node.Repr)
      ensures node.Subtree == Delete(old(node.Subtree), old(node.val))
    {
      ValidBranch(node);
      ghost var t := node.Subtree;
      var minRight := FindMin(node.right);
      node.val := minRight.val;
      var rt := RemoveAt(minRight.val, node.right);
      node.right, node.Subtree := rt, Branch(SubtreeOf(node.left), node.val, SubtreeOf(rt));
      assert node.Subtree == Delete(t, t.val) by { DeleteTwoChildren(t); }
    }

    /** bst.js remove(val) with the root as the starting node. The result is not written
        back to `root`, so when the root itself holds `v` and lacks a child the tree is
        left as it was. */
    method Remove(v: int) returns (r: Node?)
      requires Valid()
      modifies Nodes
      ensures Valid() && root == old(root) && Nodes == old(Nodes)
      ensures r != null ==> r.Valid() && r.Repr <= Nodes
      ensures SubtreeOf(r) == Delete(old(Contents()), v)
      ensures r == root <==> !ReplacesRoot(old(Contents()), v)
      ensures ReplacesRoot(old(Contents()), v) ==> r == old(if root.left == null then root.right else root.left)
      ensures ReplacesRoot(old(Contents()), v) ==> unchanged(old(Nodes))
      ensures Contents()
           == if ReplacesRoot(old(Contents()), v) then old(Contents()) else Delete(old(Contents()), v)
      ensures Ordered(old(Contents())) ==> Ordered(Contents())
    {
      if Ordered(Contents()) { DeleteOrdered(Contents(), v); }
      r := RemoveAt(v, root);
    }

    // -------------------------------------------------------------------------
    // Search (bst.js find, findRecursively).

    /** bst.js findRecursively(val, node): the node at which the search path from `node`
        meets `v`, or none. */
    function FindRecursivelyAt(v: int, node: Node?): (r: Node?)
      requires node != null ==> node.Valid()
      reads node, if node != null then node.Repr else {}
      decreases ReprOf(node)
      ensures r == null <==> Search(SubtreeOf(node), v) == Leaf
      ensures r != null ==> r in ReprOf(node) && r.Valid() && r.val == v
      ensures r != null ==> r.Subtree == Search(SubtreeOf(node), v)
    {
      if node == null then null
      else if v == node.val then node
      else if v < node.val then FindRecursivelyAt(v, node.left)
      else FindRecursivelyAt(v, node.right)
    }

    /** bst.js findRecursively(val), starting at the root. */
    function FindRecursively(v: int): (r: Node?)
      requires Valid()
      reads this, Nodes
      ensures r == null <==> Search(Contents(), v) == Leaf
      ensures r != null ==> r in Nodes && r.Valid() && r.val == v && r.Subtree == Search(Contents(), v)
    {
      FindRecursivelyAt(v, root)
    }

    /** bst.js find(val): the same search as a loop; it returns the very node the
        recursive search returns. */
    method Find(v: int) returns (r: Node?)
      requires Valid()
      ensures r == FindRecursively(v)
      ensures r == null <==> Search(Contents(), v) == Leaf
      ensures r != null ==> r in Nodes && r.val == v
    {
      var current := root;
      while current != null
        invariant current != null ==> current.Valid() && current in Nodes
        invariant FindRecursivelyAt(v, current) == FindRecursivelyAt(v, root)
        decreases ReprOf(current)
      {
        if v == current.val {
          return current;
        } else if v < current.val {
          current := current.left;
        } else {
          current := current.right;
        }
      }
      return null;
    }

    // -------------------------------------------------------------------------
    // Extremes (bst.js findMin, and findMax inside findSecondHighest).

    /** bst.js findMin(node): follows left references to the leftmost node. */
    method FindMin(node: Node) returns (m: Node)
      requires node.Valid()
      ensures m in node.Repr && m.Valid() && m.left == null
      ensures m.val == Min(node.Subtree)
    {
      m := node;
      while m.left != null
        invariant m in node.Repr && m.Valid()
        invariant Min(m.Subtree) == Min(node.Subtree)
        decreases m.Repr
      {
        m := m.left;
      }
    }

    /** findMax(node) inside bst.js findSecondHighest: follows right references to the
        rightmost node. */
    method FindMax(node: Node) returns (m: Node)
      requires node.Valid()
      ensures m in node.Repr && m.Valid() && m.right == null
      ensures m.val == Max(node.Subtree)
    {
      m := node;
      while m.right != null
        invariant m in node.Repr && m.Valid()
        invariant Max(m.Subtree) == Max(node.Subtree)
        decreases m.Repr
      {
        m := m.right;
      }
    }

    // -------------------------------------------------------------------------
    // Depth-first traversals (bst.js dfsPreOrder, dfsInOrder, dfsPostOrder).

    /** bst.js dfsPreOrder(node, result): appends the values below `node` to `result`,
        each node before its subtrees. */
    method DfsPreOrderAt(node: Node?, result: seq<int>) returns (r: seq<int>)
      requires node != null ==> node.Valid()
      ensures r == result + PreOrder(SubtreeOf(node))
      decreases ReprOf(node)
    {
      r := result;
      if node != null {
        ValidBranch(node);
        r := r + [node.val];
        r := DfsPreOrderAt(node.left, r);
        r := DfsPreOrderAt(node.right, r);
        ghost var a, b := PreOrder(SubtreeOf(node.left)), PreOrder(SubtreeOf(node.right));
        Append3(result, [node.val], a, b);
      }
    }

    /** bst.js dfsInOrder(node, result): appends the values below `node` to `result`,
        each node between its left and its right subtree. */
    method DfsInOrderAt(node: Node?, result: seq<int>) returns (r: seq<int>)
      requires node != null ==> node.Valid()
      ensures r == result + InOrder(SubtreeOf(node))
      decreases ReprOf(node)
    {
      r := result;
      if node != null {
        ValidBranch(node);
        r := DfsInOrderAt(node.left, r);
        r := r + [node.val];
        r := DfsInOrderAt(node.right, r);
        ghost var a, b := InOrder(SubtreeOf(node.left)), InOrder(SubtreeOf(node.right));
        Append3(result, a, [node.val], b);
      }
    }

    /** bst.js dfsPostOrder(node, result): appends the values below `node` to `result`,
        each node after its subtrees. */
    method DfsPostOrderAt(node: Node?, result: seq<int>) returns (r: seq<int>)
      requires node != null ==> node.Valid()
      ensures r == result + PostOrder(SubtreeOf(node))
      decreases ReprOf(node)
    {
      r := result;
      if node != null {
        ValidBranch(node);
        r := DfsPostOrderAt(node.left, r);
        r := DfsPostOrderAt(node.right, r);
        r := r + [node.val];
        ghost var a, b := PostOrder(SubtreeOf(node.left)), PostOrder(SubtreeOf(node.right));
        Append3(result, a, b, [node.val]);
      }
    }

    /** bst.js dfsPreOrder() with its default arguments. */
    method DfsPreOrder() returns (r: seq<int>)
      requires Valid()
      ensures r == PreOrder(Contents())
      ensures multiset(r) == Elems(Contents())
    {
      r := DfsPreOrderAt(root, []);
      PreOrderElems(Contents());
    }

    /** bst.js dfsInOrder() with its default arguments. */
    method DfsInOrder() returns (r: seq<int>)
      requires Valid()
      ensures r == InOrder(Contents())
      ensures multiset(r) == Elems(Contents())
      ensures Ordered(Contents()) ==> Sorted(r)
    {
      r := DfsInOrderAt(root, []);
      InOrderElems(Contents());
      if Ordered(Contents()) {
        OrderedInOrderSorted(Contents());
      }
    }

    /** bst.js dfsPostOrder() with its default arguments. */
    method DfsPostOrder() returns (r: seq<int>)
      requires Valid()
      ensures r == PostOrder(Contents())
      ensures multiset(r) == Elems(Contents())
    {
      r := DfsPostOrderAt(root, []);
      PostOrderElems(Contents());
    }

    /** bst.js dfsInOrderIteratively(): the in-order traversal driven by an explicit
        stack instead of recursion. */
    method DfsInOrderIteratively() returns (result: seq<int>)
      requires Valid()
      ensures result == InOrder(Contents())
    {
      ghost var whole := InOrder(Contents());
      result := [];
      var stack: seq<Node> := [];
      ghost var trees: seq<Tree> := [];
      var current := root;
      while |stack| > 0 || current != null
        invariant current != null ==> current.Valid()
        invariant Mirrors(stack, trees)
        invariant result + InOrder(SubtreeOf(current)) + Pending(trees) == whole
        decreases |whole| - |result|
      {
        while current != null
          invariant current != null ==> current.Valid()
          invariant Mirrors(stack, trees)
          invariant result + InOrder(SubtreeOf(current)) + Pending(trees) == whole
          invariant |stack| > 0 || current != null
          decreases ReprOf(current)
        {
          ValidBranch(current);
          ghost var t := current.Subtree;
          PendingPush(result, trees, t);
          MirrorsPush(stack, trees, current);
          stack := stack + [current];
          trees := trees + [t];
          current := current.left;
        }
        MirrorsPop(stack, trees);
        current := stack[|stack| - 1];
        ValidBranch(current);
        stack := stack[..|stack| - 1];
        PendingPop(result, trees);
        trees := trees[..|trees| - 1];
        result := result + [current.val];
        current := current.right;
      }
    }

    // -------------------------------------------------------------------------
    // Breadth-first traversal (bst.js bfs).

    /** bst.js bfs(): a FIFO queue of nodes, starting with the root; each node taken
        from the front has its value emitted and its children appended at the back. */
    method Bfs() returns (result: seq<int>)
      requires Valid()
      ensures result == BfsQueue([Contents()])
      ensures result == LevelOrder([Contents()])
    {
      BfsIsLevelOrder(Contents());
      if root == null {
        assert BfsQueue([Leaf]) == BfsQueue([]) by { BfsQueueFront([Leaf], []); }
        return [];
      }
      result := [];
      var queue: seq<Node> := [root];
      ghost var trees: seq<Tree> := [root.Subtree];
      ghost var whole := BfsQueue([Contents()]);
      while |queue| > 0
        // `== true` keeps the verifier from splitting the predicate into its conjuncts
        invariant Mirrors(queue, trees) == true
        invariant result + BfsQueue(trees) == whole
        decreases |whole| - |result|
      {
        var current := queue[0];
        ghost var next, nextTrees := queue[1..] + ChildNodes(current), trees[1..] + Kids(trees[0]);
        // `== true` keeps the verifier from splitting the predicate into its conjuncts
        assert Mirrors(next, nextTrees) == true
            && result + BfsQueue(trees) == (result + [current.val]) + BfsQueue(nextTrees) by {
          MirrorsStep(queue, trees, next);
          BfsQueueCons(result, trees);
        }
        queue := queue[1..];
        result := result + [current.val];
        ghost var rest := queue;
        if current.left != null {
          var left: Node := current.left;
          queue := queue + [left];
        }
        ghost var lefts := queue;
        if current.right != null {
          var right: Node := current.right;
          queue := queue + [right];
        }
        assert queue == next by { QueueAppend(rest, lefts, queue, current); }
        trees := nextTrees;
      }
    }

    // -------------------------------------------------------------------------
    // Balance (bst.js isBalanced and its inner height and checkBalance).

    /** height(node) inside bst.js isBalanced. */
    function HeightOf(node: Node?): (h: nat)
      requires node != null ==> node.Valid()
      reads node, if node != null then node.Repr else {}
      decreases ReprOf(node)
      ensures h == Height(SubtreeOf(node))
    {
      if node == null then 0
      else
        var l, r := HeightOf(node.left), HeightOf(node.right);
        1 + (if l < r then r else l)
    }

    /** checkBalance(node) inside bst.js isBalanced. */
    function CheckBalance(node: Node?): (b: bool)
      requires node != null ==> node.Valid()
      reads node, if node != null then node.Repr else {}
      decreases ReprOf(node)
      ensures b == Balanced(SubtreeOf(node))
    {
      if node == null then true
      else
        var lh, rh := HeightOf(node.left), HeightOf(node.right);
        BalancedBranch(SubtreeOf(node.left), node.val, SubtreeOf(node.right));
        -1 <= lh - rh <= 1 && CheckBalance(node.left) && CheckBalance(node.right)
    }

    /** bst.js isBalanced(). */
    function IsBalanced(): (b: bool)
      requires Valid()
      reads this, Nodes
      ensures b == Balanced(Contents())
    {
      CheckBalance(root)
    }

    // -------------------------------------------------------------------------
    // Second highest (bst.js findSecondHighest).

    /** The inner findSecondHighest(node) of bst.js: nothing for an empty tree or a single
        node; the node's value when its right child has no children; otherwise the
        search continues in the right subtree, or, with no right subtree, returns the
        largest value of the left one. */
    method FindSecondHighestAt(node: Node?) returns (r: Option<int>)
      requires node != null ==> node.Valid()
      ensures r == SecondToLast(InOrder(SubtreeOf(node)))
      decreases ReprOf(node)
    {
      if node == null || (node.left == null && node.right == null) {
        return None;
      }
      var a, x, b := InOrder(SubtreeOf(node.left)), node.val, InOrder(SubtreeOf(node.right));
      assert InOrder(node.Subtree) == a + [x] + b;
      if node.right != null && node.right.left == null && node.right.right == null {
        assert b == [node.right.val];
        return Some(node.val);
      }
      if node.right != null {
        ValidBranch(node.right);
        if node.right.left != null {
          ValidBranch(node.right.left);
        } else {
          ValidBranch(node.right.right);
        }
        assert |b| >= 2;
        r := FindSecondHighestAt(node.right);
        SecondToLastAppend(a + [x], b);
      } else {
        var m := FindMax(node.left);
        assert b == [];
        r := Some(m.val);
      }
    }

    /** bst.js findSecondHighest(). */
    method FindSecondHighest() returns (r: Option<int>)
      requires Valid()
      ensures r == SecondToLast(InOrder(Contents()))
    {
      r := FindSecondHighestAt(root);
    }
  }
}
