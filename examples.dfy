// Worked scenarios: the tree built by inserting 5, 3, 8, 1, 4, 7, 9 in that order and
// the chain built by inserting 1, 2, 3, 4, 5, with what each traversal and query of
// bst.js gives on them; and a removal at the root of a one-node tree.
module Examples {
  import opened SeqSpec
  import opened TreeSpec
  import Bst

  function Single(x: int): Tree { Branch(Leaf, x, Leaf) }

  /** A full tree of three levels: `d` at the root, `b` and `f` below it, and `a`, `c`,
      `e`, `g` at the bottom. */
  function Full(a: int, b: int, c: int, d: int, e: int, f: int, g: int): Tree {
    Branch(Branch(Single(a), b, Single(c)), d, Branch(Single(e), f, Single(g)))
  }

  /** One single-node tree per value, in order. */
  function Singles(xs: seq<int>): seq<Tree> {
    if xs == [] then [] else [Single(xs[0])] + Singles(xs[1..])
  }

  /** The tree the seven insertions build, written out. */
  function Sample(): Tree {
    Full(1, 3, 4, 5, 7, 8, 9)
  }

  /** Inserting 1 to 5 in increasing order gives a chain hanging to the right. */
  function Chain(): Tree {
    Branch(Leaf, 1, Branch(Leaf, 2, Branch(Leaf, 3, Branch(Leaf, 4, Single(5)))))
  }

  /** Inserting 5, 3, 8, 1, 4, 7, 9 in that order builds the full tree of the sample. */
  lemma SampleBuilt()
    ensures InsertAll(Leaf, [5, 3, 8, 1, 4, 7, 9]) == Sample()
  {
    var xs := [5, 3, 8, 1, 4, 7, 9];
    assert xs[1..] == [3, 8, 1, 4, 7, 9];
    assert xs[1..][1..] == [8, 1, 4, 7, 9];
    assert xs[1..][1..][1..] == [1, 4, 7, 9];
    assert xs[1..][1..][1..][1..] == [4, 7, 9];
    assert xs[1..][1..][1..][1..][1..] == [7, 9];
    assert xs[1..][1..][1..][1..][1..][1..] == [9];
  }

  /** Inserting 1 to 5 in increasing order builds the chain. */
  lemma ChainBuilt()
    ensures InsertAll(Leaf, [1, 2, 3, 4, 5]) == Chain()
  {
    var t4 := Branch(Leaf, 4, Single(5));
    var t3 := Branch(Leaf, 3, t4);
    var t2 := Branch(Leaf, 2, t3);
    calc {
      InsertAll(Leaf, [1, 2, 3, 4, 5]);
      { assert [1, 2, 3, 4, 5][1..] == [2, 3, 4, 5]; }
      InsertAll(Single(1), [2, 3, 4, 5]);
      { assert [2, 3, 4, 5][1..] == [3, 4, 5]; }
      InsertAll(Branch(Leaf, 1, Single(2)), [3, 4, 5]);
      { assert [3, 4, 5][1..] == [4, 5]; }
      InsertAll(Branch(Leaf, 1, Branch(Leaf, 2, Single(3))), [4, 5]);
      { assert [4, 5][1..] == [5]; }
      InsertAll(Branch(Leaf, 1, Branch(Leaf, 2, Branch(Leaf, 3, Single(4)))), [5]);
      Branch(Leaf, 1, t2);
    }
  }

  /** The sample is a search tree. */
  lemma SampleOrdered()
    ensures Ordered(Sample())
  {
    InsertAllOrdered(Leaf, [5, 3, 8, 1, 4, 7, 9]);
    SampleBuilt();
  }

  /** The forest measures of a tree put in front of a forest. */
  lemma ForestCons(t: Tree, f: seq<Tree>)
    ensures SizeF([t] + f) == Size(t) + SizeF(f)
    ensures Roots([t] + f) == RootVal(t) + Roots(f)
    ensures ChildrenF([t] + f) == Kids(t) + ChildrenF(f)
  {
    assert ([t] + f)[1..] == f;
  }

  /** A forest of single nodes: its values are its level, and there is no level below. */
  lemma {:induction false} SinglesLevel(xs: seq<int>)
    ensures SizeF(Singles(xs)) == |xs|
    ensures Roots(Singles(xs)) == xs
    ensures ChildrenF(Singles(xs)) == []
  {
    if xs != [] {
      SinglesLevel(xs[1..]);
      ForestCons(Single(xs[0]), Singles(xs[1..]));
      assert Singles(xs) == [Single(xs[0])] + Singles(xs[1..]);
      assert xs == [xs[0]] + xs[1..];
    }
  }

  /** A level of single nodes is read as it stands. */
  lemma BottomLevel(xs: seq<int>)
    requires xs != []
    ensures LevelOrder(Singles(xs)) == xs
  {
    SinglesLevel(xs);
    assert LevelOrder([]) == [];
  }

  /** Single-node forests concatenate as their values do. */
  lemma {:induction false} SinglesAppend(xs: seq<int>, ys: seq<int>)
    ensures Singles(xs + ys) == Singles(xs) + Singles(ys)
  {
    if xs == [] {
      assert xs + ys == ys;
    } else {
      assert (xs + ys)[1..] == xs[1..] + ys;
      SinglesAppend(xs[1..], ys);
      assert [Single(xs[0])] + (Singles(xs[1..]) + Singles(ys))
          == ([Single(xs[0])] + Singles(xs[1..])) + Singles(ys);
    }
  }

  /** The children of a three-node tree are two single nodes. */
  lemma KidsOfThree(a: int, b: int, c: int)
    ensures Kids(Branch(Single(a), b, Single(c))) == Singles([a, c])
  {
    assert [a, c][1..] == [c] && [c][1..] == [];
    assert Singles([c]) == [Single(c)];
  }

  /** Two three-node trees side by side are read roots first, then their children. */
  lemma MiddleLevel(a: int, b: int, c: int, e: int, f: int, g: int)
    ensures LevelOrder([Branch(Single(a), b, Single(c)), Branch(Single(e), f, Single(g))])
         == [b, f, a, c, e, g]
  {
    var l, r := Branch(Single(a), b, Single(c)), Branch(Single(e), f, Single(g));
    var fs := [l, r];
    assert fs == [l] + [r] && [r] == [r] + [];
    assert SizeF(fs) == 6 && Roots(fs) == [b, f] && ChildrenF(fs) == Singles([a, c, e, g]) by {
      ForestCons(r, []);
      ForestCons(l, [r]);
      assert Size(Single(a)) == Size(Single(c)) == Size(Single(e)) == Size(Single(g)) == 1;
      assert Size(l) == 3 && Size(r) == 3 && RootVal(l) == [b] && RootVal(r) == [f];
      assert SizeF([]) == 0 && Roots([]) == [] && ChildrenF([]) == [];
      KidsOfThree(a, b, c);
      KidsOfThree(e, f, g);
      SinglesAppend([a, c], [e, g]);
      assert [a, c] + [e, g] == [a, c, e, g];
    }
    assert LevelOrder(Singles([a, c, e, g])) == [a, c, e, g] by {
      BottomLevel([a, c, e, g]);
    }
  }

  /** Breadth-first order reads a full three-level tree level by level. */
  lemma FullLevels(a: int, b: int, c: int, d: int, e: int, f: int, g: int)
    ensures LevelOrder([Full(a, b, c, d, e, f, g)]) == [d, b, f, a, c, e, g]
  {
    var t := Full(a, b, c, d, e, f, g);
    assert [t][1..] == [];
    assert SizeF([t]) == 7 by {
      assert Size(Single(a)) == Size(Single(c)) == Size(Single(e)) == Size(Single(g)) == 1;
      assert Size(t.left) == Size(t.right) == 3;
    }
    assert Roots([t]) == [d];
    assert ChildrenF([t]) == [t.left, t.right] by {
      assert Kids(t) == [t.left, t.right];
    }
    MiddleLevel(a, b, c, e, f, g);
  }

  /** Breadth-first order reads the sample level by level: 5, then 3 and 8, then 1, 4,
      7 and 9. */
  lemma SampleLevels()
    ensures LevelOrder([Sample()]) == [5, 3, 8, 1, 4, 7, 9]
  {
    FullLevels(1, 3, 4, 5, 7, 8, 9);
  }

  /** The sample is balanced. */
  lemma SampleBalanced()
    ensures Balanced(Sample())
  {
    forall x | true
      ensures Balanced(Single(x))
    {
      BalancedBranch(Leaf, x, Leaf);
    }
    BalancedBranch(Single(1), 3, Single(4));
    BalancedBranch(Single(7), 8, Single(9));
    BalancedBranch(Branch(Single(1), 3, Single(4)), 5, Branch(Single(7), 8, Single(9)));
  }

  /** The chain is not balanced: below its root the left side is empty and the right
      side is four levels deep. */
  lemma ChainUnbalanced()
    ensures !Balanced(Chain())
  {
    var c := Chain();
    assert Height(Single(5)) == 1;
    assert Height(Branch(Leaf, 4, Single(5))) == 2;
    assert Height(Branch(Leaf, 3, Branch(Leaf, 4, Single(5)))) == 3;
    assert Height(c.right) == 4;
    assert c in Subtrees(c);
  }

  /** The second-highest value of the sample is 8, the value just below its maximum 9. */
  lemma SampleSecondHighest()
    ensures InOrder(Sample()) == [1, 3, 4, 5, 7, 8, 9]
    ensures SecondToLast(InOrder(Sample())) == Some(8)
  {
    assert InOrder(Branch(Single(1), 3, Single(4))) == [1, 3, 4];
    assert InOrder(Branch(Single(7), 8, Single(9))) == [7, 8, 9];
  }

  /** An empty tree and a single node have no second-highest value. */
  lemma SecondHighestNone(x: int)
    ensures SecondToLast(InOrder(Leaf)) == None
    ensures SecondToLast(InOrder(Single(x))) == None
  {
    assert InOrder(Single(x)) == [x];
  }

  /** Deleting 5, whose node has two children, puts 7 (the least value on its right) in
      its place; the in-order sequence loses exactly the 5. */
  lemma SampleDeleteRoot()
    ensures Delete(Sample(), 5) == Branch(Branch(Single(1), 3, Single(4)), 7, Branch(Leaf, 8, Single(9)))
    ensures InOrder(Delete(Sample(), 5)) == [1, 3, 4, 7, 8, 9]
  {
    assert Min(Branch(Single(7), 8, Single(9))) == 7;
    assert InOrder(Branch(Leaf, 8, Single(9))) == [8, 9];
    assert InOrder(Branch(Single(1), 3, Single(4))) == [1, 3, 4];
  }

  /** Removing the only value of a one-node tree hands back the empty subtree, but the
      tree still holds the value: remove does not write its result back to the root. */
  method RemoveOnlyValue(v: int) returns (t: Bst.BinarySearchTree, r: Bst.Node?)
    ensures t.Valid() && t.Contents() == Single(v) && r == null
  {
    t := new Bst.BinarySearchTree(null);
    t.Insert(v);
    r := t.Remove(v);
  }
}
