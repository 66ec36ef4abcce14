/** Facts about sequences of values that the tree's traversals produce: sortedness,
    insertion at the sorted position after equal values, and removal of the first
    occurrence of a value. */
module SeqSpec {

  datatype Option<T> = None | Some(value: T)

  /** `s` is non-decreasing. */
  ghost predicate Sorted(s: seq<int>) {
    forall i, j | 0 <= i < j < |s| :: s[i] <= s[j]
  }

  /** Inserts `v` just before the first element greater than `v`, that is, after every
      element equal to it. */
  function SortedInsert(s: seq<int>, v: int): (r: seq<int>)
    ensures |r| == |s| + 1
  {
    if s == [] then [v]
    else if v < s[0] then [v] + s
    else
      assert s == [s[0]] + s[1..];
      [s[0]] + SortedInsert(s[1..], v)
  }

  /** Deletes the first occurrence of `v`; leaves `s` as it is when `v` does not occur. */
  function RemoveFirst(s: seq<int>, v: int): seq<int> {
    if s == [] then []
    else if s[0] == v then s[1..]
    else [s[0]] + RemoveFirst(s[1..], v)
  }

  /** Insertion adds one copy of `v`. */
  lemma {:induction false} SortedInsertElems(s: seq<int>, v: int)
    ensures multiset(SortedInsert(s, v)) == multiset(s) + multiset{v}
  {
    if s != [] {
      assert s == [s[0]] + s[1..];
      if v >= s[0] {
        SortedInsertElems(s[1..], v);
      }
    }
  }

  /** Removal takes away one copy of `v`, if there is one. */
  lemma {:induction false} RemoveFirstElems(s: seq<int>, v: int)
    ensures multiset(RemoveFirst(s, v)) == multiset(s) - multiset{v}
  {
    if s != [] {
      assert s == [s[0]] + s[1..];
      if s[0] != v {
        RemoveFirstElems(s[1..], v);
      }
    }
  }

  /** Removing a value that does not occur changes nothing. */
  lemma {:induction false} RemoveFirstAbsent(s: seq<int>, v: int)
    requires v !in s
    ensures RemoveFirst(s, v) == s
  {
    if s != [] {
      assert s[0] != v && v !in s[1..];
      RemoveFirstAbsent(s[1..], v);
      assert s == [s[0]] + s[1..];
    }
  }

  /** The second-to-last element, if there is one. */
  function SecondToLast(s: seq<int>): Option<int> {
    if |s| < 2 then None else Some(s[|s| - 2])
  }

  lemma {:induction false} SortedTail(s: seq<int>)
    requires Sorted(s) && s != []
    ensures Sorted(s[1..])
  {
  }

  /** Inserting a value that is at most the first element puts it in front. */
  lemma {:induction false} SortedInsertFront(s: seq<int>, v: int)
    requires Sorted(s)
    requires s == [] || v <= s[0]
    ensures SortedInsert(s, v) == [v] + s
  {
    if s != [] && v == s[0] {
      SortedTail(s);
      SortedInsertFront(s[1..], v);
      assert s == [s[0]] + s[1..];
    }
  }

  /** Inserting into a sorted sequence keeps it sorted. */
  lemma {:induction false} SortedInsertSorted(s: seq<int>, v: int)
    requires Sorted(s)
    ensures Sorted(SortedInsert(s, v))
  {
    if s != [] && v >= s[0] {
      SortedTail(s);
      SortedInsertSorted(s[1..], v);
      var t := SortedInsert(s[1..], v);
      SortedInsertBound(s[1..], v, s[0]);
      var r := [s[0]] + t;
      forall i, j | 0 <= i < j < |r| ensures r[i] <= r[j] {
        if i == 0 {
          assert r[j] == t[j - 1];
        } else {
          assert r[i] == t[i - 1] && r[j] == t[j - 1];
        }
      }
    }
  }

  /** A lower bound of `s` and `v` bounds the result of the insertion. */
  lemma {:induction false} SortedInsertBound(s: seq<int>, v: int, lo: int)
    requires lo <= v
    requires forall i | 0 <= i < |s| :: lo <= s[i]
    ensures forall i | 0 <= i < |SortedInsert(s, v)| :: lo <= SortedInsert(s, v)[i]
  {
    if s != [] && v >= s[0] {
      SortedInsertBound(s[1..], v, lo);
      var t := SortedInsert(s[1..], v);
      assert SortedInsert(s, v) == [s[0]] + t;
      forall i | 0 <= i < |SortedInsert(s, v)| ensures lo <= SortedInsert(s, v)[i] {
        if i > 0 {
          assert SortedInsert(s, v)[i] == t[i - 1];
        }
      }
    }
  }

  /** Splitting the insertion at a prefix whose elements are all at most `v`. */
  lemma {:induction false} SortedInsertAfter(a: seq<int>, b: seq<int>, v: int)
    requires forall i | 0 <= i < |a| :: a[i] <= v
    ensures SortedInsert(a + b, v) == a + SortedInsert(b, v)
  {
    if a != [] {
      var ab := a + b;
      assert ab[0] == a[0] <= v;
      assert ab[1..] == a[1..] + b;
      assert SortedInsert(ab, v) == [a[0]] + SortedInsert(a[1..] + b, v);
      SortedInsertAfter(a[1..], b, v);
      assert a == [a[0]] + a[1..];
    } else {
      assert a + b == b;
    }
  }

  /** Splitting the insertion at a suffix that starts with an element greater than `v`. */
  lemma {:induction false} SortedInsertBefore(a: seq<int>, x: int, b: seq<int>, v: int)
    requires v < x
    ensures SortedInsert(a + [x] + b, v) == SortedInsert(a, v) + [x] + b
  {
    if a == [] {
      assert a + [x] + b == [x] + b;
    } else {
      assert (a + [x] + b)[0] == a[0];
      assert (a + [x] + b)[1..] == a[1..] + [x] + b;
      SortedInsertBefore(a[1..], x, b, v);
    }
  }

  /** Removal from a concatenation happens in the first part that holds `v`. */
  lemma {:induction false} RemoveFirstAppend(a: seq<int>, b: seq<int>, v: int)
    ensures RemoveFirst(a + b, v) == if v in a then RemoveFirst(a, v) + b else a + RemoveFirst(b, v)
  {
    if a != [] {
      var ab := a + b;
      assert ab[0] == a[0];
      assert ab[1..] == a[1..] + b;
      assert a == [a[0]] + a[1..];
      assert v in a <==> a[0] == v || v in a[1..];
      if a[0] != v {
        RemoveFirstAppend(a[1..], b, v);
        assert RemoveFirst(ab, v) == [a[0]] + RemoveFirst(a[1..] + b, v);
      }
    } else {
      assert a + b == b;
    }
  }

  /** Removing a value right after inserting it gives the sequence back, for sorted input
      (with duplicates the copy removed may differ, but the sequence is the same). */
  lemma {:induction false} RemoveFirstSortedInsert(s: seq<int>, v: int)
    requires Sorted(s)
    ensures RemoveFirst(SortedInsert(s, v), v) == s
  {
    if s != [] && v >= s[0] {
      SortedTail(s);
      if v == s[0] {
        SortedInsertFront(s[1..], v);
        assert s == [s[0]] + s[1..];
      } else {
        RemoveFirstSortedInsert(s[1..], v);
        assert s == [s[0]] + s[1..];
      }
    }
  }

  /** Removal of a value that lies only left of `x`. */
  lemma RemoveFirstLeft(a: seq<int>, x: int, b: seq<int>, v: int)
    requires v != x && v !in b
    ensures RemoveFirst(a + [x] + b, v) == RemoveFirst(a, v) + [x] + b
  {
    assert a + [x] + b == a + ([x] + b);
    RemoveFirstAppend(a, [x] + b, v);
    if v !in a {
      RemoveFirstAbsent(a, v);
      RemoveFirstAbsent([x] + b, v);
    }
  }

  /** Removal of a value that lies only right of `x`. */
  lemma RemoveFirstRight(a: seq<int>, x: int, b: seq<int>, v: int)
    requires v != x && v !in a
    ensures RemoveFirst(a + [x] + b, v) == a + [x] + RemoveFirst(b, v)
  {
    assert v !in a + [x];
    RemoveFirstAppend(a + [x], b, v);
  }

  /** Removal of `x` itself when it does not occur on its left. */
  lemma RemoveFirstMiddle(a: seq<int>, x: int, b: seq<int>)
    requires x !in a
    ensures RemoveFirst(a + [x] + b, x) == a + b
  {
    assert a + [x] + b == a + ([x] + b);
    RemoveFirstAppend(a, [x] + b, x);
    RemoveFirstAbsent(a, x);
    assert ([x] + b)[1..] == b;
  }

  /** A suffix of two or more elements holds the second-to-last element. */
  lemma SecondToLastAppend(a: seq<int>, b: seq<int>)
    requires |b| >= 2
    ensures SecondToLast(a + b) == SecondToLast(b)
  {
    assert (a + b)[|a + b| - 2] == b[|b| - 2];
  }

  /** Putting the head of a non-empty sequence back in front of its tail. */
  lemma ConsTail(a: seq<int>, b: seq<int>)
    requires b != []
    ensures a + [b[0]] + b[1..] == a + b
  {
    assert [b[0]] + b[1..] == b;
    assert a + [b[0]] + b[1..] == a + ([b[0]] + b[1..]);
  }

  /** Moving the first of three blocks next to a prefix. */
  lemma Regroup(d: seq<int>, a: seq<int>, b: seq<int>, c: seq<int>)
    ensures d + (a + b + c) == (d + a) + b + c
  {
    assert d + ((a + b) + c) == (d + (a + b)) + c;
    assert d + (a + b) == (d + a) + b;
  }

  /** Appending three blocks one at a time is appending them joined. */
  lemma Append3(p: seq<int>, a: seq<int>, b: seq<int>, c: seq<int>)
    ensures ((p + a) + b) + c == p + (a + b + c)
  {
    assert (p + a) + b == p + (a + b);
    assert (p + (a + b)) + c == p + ((a + b) + c);
  }
}
