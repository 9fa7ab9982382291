/**
 * Rust's `slice::sort_by`, used by `assemble_tree` to order the children of
 * each directory. It is a stable sort: elements the comparator calls equal
 * keep their relative order. The model is an insertion sort that inserts each
 * element in front of the first one that is not less than it.
 */
module Sorting {
  import opened Nodes

  /** Places `x` before the first element of `ys` that is not less than it. */
  function Insert(x: Node, ys: seq<Node>, cmp: Comparator): (r: seq<Node>)
    ensures multiset(r) == multiset(ys) + multiset{x}
  {
    if ys == [] || cmp(ys[0], x) != Less then [x] + ys
    else
      assert ys == [ys[0]] + ys[1..];
      [ys[0]] + Insert(x, ys[1..], cmp)
  }

  /** `sort_by(cmp)`: the result is a permutation of the input. */
  function SortBy(xs: seq<Node>, cmp: Comparator): (r: seq<Node>)
    ensures multiset(r) == multiset(xs)
    ensures |r| == |xs|
  {
    if xs == [] then []
    else
      assert xs == [xs[0]] + xs[1..];
      Insert(xs[0], SortBy(xs[1..], cmp), cmp)
  }

  /** No element is greater than one that comes after it. */
  ghost predicate Sorted(s: seq<Node>, cmp: Comparator)
  {
    forall i, j :: 0 <= i < j < |s| ==> cmp(s[i], s[j]) != Greater
  }

  /** The elements of `s` that `cmp` calls equal to `c`, in their order in `s`. */
  function Equivalents(s: seq<Node>, c: Node, cmp: Comparator): seq<Node>
  {
    if s == [] then []
    else (if cmp(s[0], c) == Equal then [s[0]] else []) + Equivalents(s[1..], c, cmp)
  }

  lemma EquivalentsCons(x: Node, s: seq<Node>, c: Node, cmp: Comparator)
    ensures Equivalents([x] + s, c, cmp)
         == (if cmp(x, c) == Equal then [x] else []) + Equivalents(s, c, cmp)
  {
    assert ([x] + s)[1..] == s;
  }

  lemma {:induction false} EquivalentsAppend(a: seq<Node>, b: seq<Node>, c: Node, cmp: Comparator)
    ensures Equivalents(a + b, c, cmp) == Equivalents(a, c, cmp) + Equivalents(b, c, cmp)
  {
    if a == [] {
      assert a + b == b;
    } else {
      assert (a + b)[1..] == a[1..] + b;
      EquivalentsAppend(a[1..], b, c, cmp);
    }
  }

  /** A bound below `x` and every element of `ys` is a bound below all of `Insert(x, ys, cmp)`. */
  lemma InsertBound(y: Node, x: Node, ys: seq<Node>, cmp: Comparator)
    requires cmp(y, x) != Greater
    requires forall k :: 0 <= k < |ys| ==> cmp(y, ys[k]) != Greater
    ensures forall j :: 0 <= j < |Insert(x, ys, cmp)| ==> cmp(y, Insert(x, ys, cmp)[j]) != Greater
  {
    var r := Insert(x, ys, cmp);
    forall j | 0 <= j < |r| ensures cmp(y, r[j]) != Greater {
      assert r[j] in multiset(r);
      if r[j] != x {
        assert r[j] in multiset(ys);
        var k :| 0 <= k < |ys| && ys[k] == r[j];
      }
    }
  }

  lemma {:induction false} InsertSorted(x: Node, ys: seq<Node>, cmp: Comparator)
    requires TotalPreorder(cmp)
    requires Sorted(ys, cmp)
    ensures Sorted(Insert(x, ys, cmp), cmp)
  {
    var r := Insert(x, ys, cmp);
    if ys == [] {
    } else if cmp(ys[0], x) != Less {
      assert cmp(x, ys[0]) == Flip(cmp(ys[0], x));
      forall i, j | 0 <= i < j < |r| ensures cmp(r[i], r[j]) != Greater {
        if i == 0 && j > 1 {
          assert cmp(ys[0], ys[j - 1]) != Greater;
        }
      }
    } else {
      var tail := Insert(x, ys[1..], cmp);
      InsertSorted(x, ys[1..], cmp);
      InsertBound(ys[0], x, ys[1..], cmp);
      assert r == [ys[0]] + tail;
      forall i, j | 0 <= i < j < |r| ensures cmp(r[i], r[j]) != Greater {
        if i == 0 {
          assert r[j] == tail[j - 1];
        } else {
          assert r[i] == tail[i - 1] && r[j] == tail[j - 1];
        }
      }
    }
  }

  /** With a total preorder, `sort_by` leaves its output sorted. */
  lemma {:induction false} SortBySorted(xs: seq<Node>, cmp: Comparator)
    requires TotalPreorder(cmp)
    ensures Sorted(SortBy(xs, cmp), cmp)
  {
    if xs != [] {
      SortBySorted(xs[1..], cmp);
      InsertSorted(xs[0], SortBy(xs[1..], cmp), cmp);
    }
  }

  lemma {:induction false} InsertStable(x: Node, ys: seq<Node>, c: Node, cmp: Comparator)
    requires TotalPreorder(cmp)
    ensures Equivalents(Insert(x, ys, cmp), c, cmp) == Equivalents([x] + ys, c, cmp)
  {
    if ys != [] && cmp(ys[0], x) == Less {
      var y, rest := ys[0], ys[1..];
      assert ys == [y] + rest;
      InsertStable(x, rest, c, cmp);
      EquivalentsCons(y, Insert(x, rest, cmp), c, cmp);
      EquivalentsCons(x, rest, c, cmp);
      EquivalentsCons(x, ys, c, cmp);
      EquivalentsCons(y, rest, c, cmp);
      // y is strictly less than x, so at most one of them is equal to c
      assert !(cmp(y, c) == Equal && cmp(x, c) == Equal);
    }
  }

  /**
   * `sort_by` is stable: for every node `c`, the nodes equal to `c` come out
   * in the order they went in.
   */
  lemma {:induction false} SortByStable(xs: seq<Node>, c: Node, cmp: Comparator)
    requires TotalPreorder(cmp)
    ensures Equivalents(SortBy(xs, cmp), c, cmp) == Equivalents(xs, c, cmp)
  {
    if xs != [] {
      SortByStable(xs[1..], c, cmp);
      InsertStable(xs[0], SortBy(xs[1..], cmp), c, cmp);
      EquivalentsAppend([xs[0]], SortBy(xs[1..], cmp), c, cmp);
      EquivalentsAppend([xs[0]], xs[1..], c, cmp);
      assert [xs[0]] + xs[1..] == xs;
    }
  }
}
