/**
 * `Tree::assemble_tree` (src/fs/erdtree/tree/mod.rs, lines 126-156): starting
 * from the root, take the node's pending children out of the branches map,
 * assemble every directory child the same way, threading the map through the
 * siblings in order, total the children's sizes, and sort the children when a
 * comparator is configured.
 */
module Assembly {
  import opened Wrappers
  import opened Nodes
  import opened Sorting
  import opened Aggregation

  /** The total of the children's sizes, a missing size counting as zero. */
  function SumSizes(kids: seq<Node>): nat
  {
    if kids == [] then 0 else SumSizes(kids[..|kids| - 1]) + SizeOf(kids[|kids| - 1])
  }

  /** Sorting by the comparator when there is one; arrival order otherwise. */
  function Arrange(kids: seq<Node>, order: Option<Comparator>): (r: seq<Node>)
    ensures multiset(r) == multiset(kids) && |r| == |kids|
  {
    match order
    case None => kids
    case Some(cmp) => SortBy(kids, cmp)
  }

  /** `m` is what is left of `b` after some entries were removed. */
  ghost predicate Drained(m: Branches, b: Branches)
  {
    m.Keys <= b.Keys && forall p :: p in m ==> m[p] == b[p]
  }

  lemma DrainedCard(m: Branches, b: Branches)
    requires Drained(m, b)
    ensures |m.Keys| <= |b.Keys|
  {
    assert m.Keys + (b.Keys - m.Keys) == b.Keys;
  }

  /**
   * The assembled node and what is left of the map. A node whose path is not
   * a key comes back as it was; otherwise it gets the removed list as its
   * children, each directory among them assembled in turn.
   */
  function Assemble(n: Node, b: Branches, order: Option<Comparator>): (r: (Node, Branches))
    ensures Drained(r.1, b) && SameEntry(r.0, n)
    decreases |b.Keys|, 0
  {
    if n.path !in b then (n, b)
    else
      var rest := b - {n.path};
      assert |rest.Keys| < |b.Keys| by {
        assert rest.Keys + {n.path} == b.Keys;
      }
      var (kids, left) := AssembleKids(b[n.path], rest, order);
      var total := SumSizes(kids);
      (n.(children := Attached(Arrange(kids, order)),
          fileSize := if total > 0 then Some(total) else n.fileSize),
       left)
  }

  /** The children, each directory assembled, the map threaded through them in order. */
  function AssembleKids(kids: seq<Node>, b: Branches, order: Option<Comparator>): (r: (seq<Node>, Branches))
    ensures Drained(r.1, b) && |r.0| == |kids|
    decreases |b.Keys|, 1, |kids|
  {
    if kids == [] then ([], b)
    else
      var (done, m) := AssembleKids(kids[..|kids| - 1], b, order);
      var last := kids[|kids| - 1];
      DrainedCard(m, b);
      if last.isDir then
        var (k, m') := Assemble(last, m, order);
        (done + [k], m')
      else (done + [last], m)
  }

  lemma SumSizesSnoc(kids: seq<Node>, k: Node)
    ensures SumSizes(kids + [k]) == SumSizes(kids) + SizeOf(k)
  {
    assert (kids + [k])[..|kids|] == kids;
  }

  /** `AssembleKids` one sibling further along. */
  lemma AssembleKidsStep(kids: seq<Node>, i: nat, b: Branches, order: Option<Comparator>)
    requires i < |kids|
    ensures
      var (done, m) := AssembleKids(kids[..i], b, order);
      AssembleKids(kids[..i + 1], b, order)
      == if kids[i].isDir then (done + [Assemble(kids[i], m, order).0], Assemble(kids[i], m, order).1)
         else (done + [kids[i]], m)
  {
    assert kids[..i + 1][..i] == kids[..i];
  }

  /** `Assemble` on a node whose path is a key, with the siblings' result named. */
  lemma AssembleKeyed(n: Node, b: Branches, order: Option<Comparator>, done: seq<Node>, left: Branches)
    requires n.path in b
    requires (done, left) == AssembleKids(b[n.path], b - {n.path}, order)
    ensures Assemble(n, b, order)
      == (n.(children := Attached(Arrange(done, order)),
             fileSize := if SumSizes(done) > 0 then Some(SumSizes(done)) else n.fileSize),
          left)
  {
  }

  /** The recursive procedure itself, with the running `dir_size` total. */
  method AssembleTree(node: Node, branches: Branches, order: Option<Comparator>)
      returns (assembled: Node, rest: Branches)
    ensures (assembled, rest) == Assemble(node, branches, order)
    decreases |branches.Keys|
  {
    if node.path !in branches {
      return node, branches;
    }
    var kids := branches[node.path];
    var remaining := branches - {node.path};
    assert |remaining.Keys| < |branches.Keys| by {
      assert remaining.Keys + {node.path} == branches.Keys;
    }
    rest := remaining;
    var done: seq<Node> := [];
    var dirSize := 0;
    var i := 0;
    while i < |kids|
      invariant 0 <= i <= |kids|
      invariant (done, rest) == AssembleKids(kids[..i], remaining, order)
      invariant dirSize == SumSizes(done)
    {
      AssembleKidsStep(kids, i, remaining, order);
      var child := kids[i];
      if child.isDir {
        DrainedCard(rest, remaining);
        assert |rest.Keys| < |branches.Keys|;
        child, rest := AssembleTree(child, rest, order);
      }
      SumSizesSnoc(done, child);
      dirSize := dirSize + SizeOf(child);
      done := done + [child];
      i := i + 1;
    }
    assert kids[..i] == kids;
    AssembleKeyed(node, branches, order, done, rest);
    var size := if dirSize > 0 then Some(dirSize) else node.fileSize;
    var children := done;
    if order.Some? {
      children := SortBy(children, order.value);
    }
    assert children == Arrange(done, order);
    assembled := node.(children := Attached(children), fileSize := size);
  }

  // ---------------------------------------------------------------------------
  // Sizes are unchanged by reordering.

  lemma {:induction false} SumSizesCons(x: Node, ys: seq<Node>)
    ensures SumSizes([x] + ys) == SizeOf(x) + SumSizes(ys)
  {
    if ys != [] {
      assert ([x] + ys)[..|ys|] == [x] + ys[..|ys| - 1];
      SumSizesCons(x, ys[..|ys| - 1]);
    } else {
      assert ([x] + ys)[..0] == [];
    }
  }

  lemma {:induction false} SumSizesInsert(x: Node, ys: seq<Node>, cmp: Comparator)
    ensures SumSizes(Insert(x, ys, cmp)) == SizeOf(x) + SumSizes(ys)
  {
    SumSizesCons(x, ys);
    if ys != [] && cmp(ys[0], x) == Less {
      SumSizesInsert(x, ys[1..], cmp);
      SumSizesCons(ys[0], Insert(x, ys[1..], cmp));
      SumSizesCons(ys[0], ys[1..]);
      assert [ys[0]] + ys[1..] == ys;
    }
  }

  /** Sorting the children does not change their total size. */
  lemma {:induction false} SumSizesArrange(kids: seq<Node>, order: Option<Comparator>)
    ensures SumSizes(Arrange(kids, order)) == SumSizes(kids)
    decreases |kids|
  {
    if order.Some? && kids != [] {
      var cmp := order.value;
      SumSizesArrange(kids[1..], order);
      SumSizesInsert(kids[0], SortBy(kids[1..], cmp), cmp);
      SumSizesCons(kids[0], kids[1..]);
      assert [kids[0]] + kids[1..] == kids;
    }
  }

  // ---------------------------------------------------------------------------
  // One level of assembly.

  /** Assembly changes a node's children and size, never its identity. */
  predicate SameEntry(a: Node, b: Node)
  {
    a.path == b.path && a.depth == b.depth && a.isDir == b.isDir
  }

  /**
   * `done` is `kids` resolved against `b`: position by position the same
   * entries, each file untouched and each directory assembled against what
   * was left of the map when its turn came.
   */
  ghost predicate Resolved(kids: seq<Node>, done: seq<Node>, b: Branches, order: Option<Comparator>)
  {
    && |done| == |kids|
    && forall i :: 0 <= i < |kids| ==>
         && SameEntry(done[i], kids[i])
         && (!kids[i].isDir ==> done[i] == kids[i])
         && (kids[i].isDir ==> exists m :: Drained(m, b) && done[i] == Assemble(kids[i], m, order).0)
  }

  lemma {:induction false} AssembleKidsResolved(kids: seq<Node>, b: Branches, order: Option<Comparator>)
    ensures Resolved(kids, AssembleKids(kids, b, order).0, b, order)
    decreases |kids|
  {
    if kids != [] {
      var prefix := kids[..|kids| - 1];
      AssembleKidsResolved(prefix, b, order);
      var (done, m) := AssembleKids(prefix, b, order);
      var r := AssembleKids(kids, b, order).0;
      forall i | 0 <= i < |kids|
        ensures SameEntry(r[i], kids[i])
        ensures !kids[i].isDir ==> r[i] == kids[i]
        ensures kids[i].isDir ==> exists m :: Drained(m, b) && r[i] == Assemble(kids[i], m, order).0
      {
        if i < |prefix| {
          assert r[i] == done[i] && kids[i] == prefix[i];
        } else if kids[i].isDir {
          assert r[i] == Assemble(kids[i], m, order).0;
        }
      }
    }
  }

  /**
   * Draining one key (lines 127-154). A node whose path is not a key comes
   * back unchanged with the map unchanged. Otherwise the key is removed and
   * nothing is added to the map; the node keeps its identity, its children
   * are a permutation of the removed list resolved (files untouched,
   * directories assembled), stably sorted by the comparator when one is
   * given and in arrival order when not; its size becomes the children's total when that total is
   * positive and is left as it was otherwise.
   */
  lemma AssembleDrains(n: Node, b: Branches, order: Option<Comparator>)
    ensures n.path !in b ==> Assemble(n, b, order) == (n, b)
    ensures n.path in b ==>
      var (node, left) := Assemble(n, b, order);
      var rest := b - {n.path};
      var done := AssembleKids(b[n.path], rest, order).0;
      var kids := node.children.nodes;
      && Drained(left, rest)
      && SameEntry(node, n) && node.children.Attached?
      && Resolved(b[n.path], done, rest, order)
      && multiset(kids) == multiset(done)
      && (order.None? ==> kids == done)
      && (order.Some? ==> kids == SortBy(done, order.value))
      && (order.Some? && TotalPreorder(order.value) ==> Sorted(kids, order.value))
      && node.fileSize == if SumSizes(kids) > 0 then Some(SumSizes(kids)) else n.fileSize
  {
    if n.path in b {
      var rest := b - {n.path};
      var done := AssembleKids(b[n.path], rest, order).0;
      AssembleKidsResolved(b[n.path], rest, order);
      SumSizesArrange(done, order);
      if order.Some? && TotalPreorder(order.value) {
        SortBySorted(done, order.value);
      }
    }
  }

  // ---------------------------------------------------------------------------
  // The whole tree.

  /** Records as the aggregation leaves them: not yet assembled, each under its own parent's path. */
  ghost predicate Unassembled(b: Branches)
  {
    forall p, n :: p in b && n in b[p] ==> n.children.Unset? && Attaches(n, p)
  }

  /**
   * Every node that received children has: children that name it as their
   * parent, none of them a file with children of its own, the children's total as its size whenever that total is positive,
   * and its children sorted when a comparator is given; and so on all the way down.
   */
  ghost predicate WellAssembled(t: Node, order: Option<Comparator>)
  {
    match t.children
    case Unset => true
    case Attached(kids) =>
      && (forall k :: k in kids ==> Attaches(k, t.path))
      && (forall k :: k in kids ==> k.isDir || k.children.Unset?)
      && (SumSizes(kids) > 0 ==> t.fileSize == Some(SumSizes(kids)))
      && (order.Some? ==> Sorted(kids, order.value))
      && (forall k :: k in kids ==> WellAssembled(k, order))
  }

  /**
   * Assembling an unassembled node against the aggregation's map yields a
   * well-assembled tree: the size rule and the sort order hold at every
   * level, independently of the other levels.
   */
  lemma {:induction false} AssembleWell(n: Node, b: Branches, order: Option<Comparator>)
    requires n.children.Unset? && Unassembled(b)
    requires order.Some? ==> TotalPreorder(order.value)
    ensures WellAssembled(Assemble(n, b, order).0, order)
    decreases |b.Keys|, 0
  {
    if n.path in b {
      var rest := b - {n.path};
      assert rest.Keys + {n.path} == b.Keys;
      AssembleKidsWell(b[n.path], rest, order, n.path);
      AssembleDrains(n, b, order);
      var done := AssembleKids(b[n.path], rest, order).0;
      var kids := Assemble(n, b, order).0.children.nodes;
      forall k | k in kids ensures k in done {
        assert k in multiset(kids);
      }
    }
  }

  lemma {:induction false} AssembleKidsWell(kids: seq<Node>, b: Branches, order: Option<Comparator>, p: Path)
    requires forall k :: k in kids ==> k.children.Unset? && Attaches(k, p)
    requires Unassembled(b)
    requires order.Some? ==> TotalPreorder(order.value)
    ensures forall k :: k in AssembleKids(kids, b, order).0 ==>
      Attaches(k, p) && (k.isDir || k.children.Unset?) && WellAssembled(k, order)
    decreases |b.Keys|, 1, |kids|
  {
    if kids != [] {
      var prefix, last := kids[..|kids| - 1], kids[|kids| - 1];
      assert forall k :: k in prefix ==> k in kids;
      AssembleKidsWell(prefix, b, order, p);
      var (done, m) := AssembleKids(prefix, b, order);
      DrainedCard(m, b);
      if last.isDir {
        AssembleWell(last, m, order);
      }
    }
  }

  // ---------------------------------------------------------------------------
  // Depths: assembly moves records, it does not change them.

  /** Every record in `b` is `c` components shorter in depth than in path length. */
  ghost predicate DepthsIn(b: Branches, c: nat)
  {
    forall p, m :: p in b && m in b[p] ==> m.depth + c == |m.path|
  }

  /** Every node of the tree `t` has depth `c` less than its path length. */
  ghost predicate DepthsFrom(t: Node, c: nat)
    decreases t
  {
    && t.depth + c == |t.path|
    && match t.children
       case Unset => true
       case Attached(kids) => forall k :: k in kids ==> DepthsFrom(k, c)
  }

  /** If the records' depths follow their path lengths, so do the assembled tree's. */
  lemma {:induction false} AssembleDepths(n: Node, b: Branches, order: Option<Comparator>, c: nat)
    requires n.children.Unset? && n.depth + c == |n.path|
    requires Unassembled(b) && DepthsIn(b, c)
    ensures DepthsFrom(Assemble(n, b, order).0, c)
    decreases |b.Keys|, 0
  {
    if n.path in b {
      var rest := b - {n.path};
      assert rest.Keys + {n.path} == b.Keys;
      AssembleKidsDepths(b[n.path], rest, order, c);
      AssembleDrains(n, b, order);
      var done := AssembleKids(b[n.path], rest, order).0;
      var kids := Assemble(n, b, order).0.children.nodes;
      forall k | k in kids ensures k in done {
        assert k in multiset(kids);
      }
    }
  }

  lemma {:induction false} AssembleKidsDepths(kids: seq<Node>, b: Branches, order: Option<Comparator>, c: nat)
    requires forall k :: k in kids ==> k.children.Unset? && k.depth + c == |k.path|
    requires Unassembled(b) && DepthsIn(b, c)
    ensures forall k :: k in AssembleKids(kids, b, order).0 ==> DepthsFrom(k, c)
    decreases |b.Keys|, 1, |kids|
  {
    if kids != [] {
      var prefix, last := kids[..|kids| - 1], kids[|kids| - 1];
      assert forall k :: k in prefix ==> k in kids;
      AssembleKidsDepths(prefix, b, order, c);
      var (done, m) := AssembleKids(prefix, b, order);
      DrainedCard(m, b);
      if last.isDir {
        AssembleDepths(last, m, order, c);
      }
    }
  }
}
