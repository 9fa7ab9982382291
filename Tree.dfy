/**
 * The `Tree` type of src/fs/erdtree/tree/mod.rs: the depth limit, the
 * ordering policy and the assembled root, built from the records the walker
 * produced (`Tree::new` and `Tree::traverse`) and displayed as text.
 */
module ErdTree {
  import opened Wrappers
  import opened Nodes
  import opened Aggregation
  import opened Assembly
  import opened Rendering

  /** A built tree. The ordering policy is reduced to its comparator, if any. */
  datatype Tree = Tree(maxDepth: Option<nat>, order: Option<Comparator>, root: Node)
  {
    /** `Tree::root`. */
    function Root(): Node
    {
      root
    }
  }

  /** What `Tree::new` produces from the records in the order they were received. */
  function Build(stream: seq<Node>, order: Option<Comparator>, maxDepth: Option<nat>): Result<Tree, Error>
  {
    match Aggregate(stream)
    case Failure(e) => Failure(e)
    case Success((root, branches)) => Success(Tree(maxDepth, order, Assemble(root, branches, order).0))
  }

  /** `Tree::new` with `Tree::traverse`: collect the records, then assemble from the root. */
  method New(stream: seq<Node>, order: Option<Comparator>, maxDepth: Option<nat>) returns (r: Result<Tree, Error>)
    ensures r == Build(stream, order, maxDepth)
  {
    var components := Collect(stream);
    if components.Failure? {
      return Failure(components.error);
    }
    var (root, branches) := components.value;
    var assembled, _ := AssembleTree(root, branches, order);
    return Success(Tree(maxDepth, order, assembled));
  }

  /** `Display for Tree`, with `name` standing for the nodes' own `Display`. */
  method Display(t: Tree, name: Node -> string) returns (output: string)
    ensures output == Text(Render(t.Root(), t.maxDepth), name)
  {
    output := Fmt(t.Root(), t.maxDepth, name);
  }

  /** Records as the walker produces them: none has children yet. */
  ghost predicate Fresh(stream: seq<Node>)
  {
    forall n :: n in stream ==> n.children.Unset?
  }

  /**
   * A build fails with `ExpectedParent` exactly when some record other than
   * a depth-0 directory has no parent path, and with `MissingRoot` exactly when there is no such record
   * and no depth-0 directory; no partial tree is produced.
   */
  lemma BuildFailure(stream: seq<Node>, order: Option<Comparator>, maxDepth: Option<nat>)
    ensures Build(stream, order, maxDepth) == Failure(ExpectedParent) <==> HasOrphan(stream)
    ensures Build(stream, order, maxDepth) == Failure(MissingRoot)
        <==> !HasOrphan(stream) && forall i :: 0 <= i < |stream| ==> !IsRootDir(stream[i])
  {
    AggregateOutcome(stream);
  }

  /** Fresh records leave every collected list unassembled. */
  lemma FreshBranches(stream: seq<Node>, root: Node, b: Branches)
    requires Fresh(stream)
    requires Aggregate(stream) == Success((root, b))
    ensures Unassembled(b)
  {
    AggregateMembers(stream, root, b);
  }

  /**
   * A successful build's root is the last depth-0 directory received,
   * assembled: every node that received children has children naming it as
   * their parent, the children's total as its size when that total is
   * positive, and its children sorted when a comparator is given.
   */
  lemma BuildSuccess(stream: seq<Node>, order: Option<Comparator>, maxDepth: Option<nat>)
    requires Fresh(stream)
    requires order.Some? ==> TotalPreorder(order.value)
    requires Build(stream, order, maxDepth).Success?
    ensures
      var t := Build(stream, order, maxDepth).value;
      && LastRoot(stream).Some? && SameEntry(t.root, LastRoot(stream).value)
      && IsRootDir(t.root)
      && WellAssembled(t.root, order)
  {
    var agg := Aggregate(stream);
    var root, b := agg.value.0, agg.value.1;
    assert Some(root) == LastRoot(stream) && IsRootDir(root) && root in stream by {
      AggregateOutcome(stream);
    }
    FreshBranches(stream, root, b);
    AssembleWell(root, b, order);
    AssembleDrains(root, b, order);
  }

  /**
   * The root of a successful build has as children exactly the records kept
   * under its path, resolved (files as received, directories assembled) and
   * permuted only by the sort; when parents arrive before their children,
   * those are all the records naming the root as their parent.
   */
  lemma BuildRootChildren(stream: seq<Node>, order: Option<Comparator>, maxDepth: Option<nat>)
    requires Build(stream, order, maxDepth).Success?
    ensures LastRoot(stream).Some?
    ensures
      var t := Build(stream, order, maxDepth).value;
      var p := LastRoot(stream).value.path;
      var rest := Aggregate(stream).value.1 - {p};
      var done := AssembleKids(Kept(stream, p), rest, order).0;
      && t.root.children.Attached?
      && Resolved(Kept(stream, p), done, rest, order)
      && multiset(t.root.children.nodes) == multiset(done)
      && (order.None? ==> t.root.children.nodes == done)
      && (ParentDirsFirst(stream) ==> Kept(stream, p) == ChildrenOf(stream, p))
  {
    var agg := Aggregate(stream);
    var root, b := agg.value.0, agg.value.1;
    assert Some(root) == LastRoot(stream) && root.path in b && b[root.path] == Kept(stream, root.path) by {
      AggregateOutcome(stream);
      var i :| 0 <= i < |stream| && stream[i] == root;
      assert Registers(stream[i], root.path);
    }
    AssembleDrains(root, b, order);
    if ParentDirsFirst(stream) {
      KeptAllWhenParentsFirst(stream, root.path);
    }
  }

  /** In a well-assembled tree only directories have children. */
  lemma {:induction false} WellAssembledLeaves(t: Node, order: Option<Comparator>)
    requires WellAssembled(t, order)
    ensures FilesAreLeaves(t)
    decreases t
  {
    forall k | k in Listed(t) ensures (k.isDir || Listed(k) == []) && FilesAreLeaves(k) {
      WellAssembledLeaves(k, order);
    }
  }

  /**
   * Without a depth limit, displaying a built tree lists every node of the
   * tree once, in pre-order: the root, then each child followed by its own
   * subtree, children in their (sorted or arrival) order.
   */
  lemma BuildRendersPreorder(stream: seq<Node>, order: Option<Comparator>)
    requires Fresh(stream)
    requires order.Some? ==> TotalPreorder(order.value)
    requires Build(stream, order, None).Success?
    ensures
      var t := Build(stream, order, None).value;
      NodesOf(Render(t.Root(), t.maxDepth)) == Preorder(t.root)
  {
    var t := Build(stream, order, None).value;
    BuildSuccess(stream, order, None);
    WellAssembledLeaves(t.root, order);
    RenderUnlimitedIsPreorder(t.root);
  }

  /** Children one path component longer than their parent are one level deeper. */
  lemma {:induction false} DepthsFromConsistent(t: Node, order: Option<Comparator>, c: nat)
    requires WellAssembled(t, order) && DepthsFrom(t, c)
    ensures DepthsConsistent(t)
    decreases t
  {
    forall k | k in Listed(t) ensures k.depth == t.depth + 1 && DepthsConsistent(k) {
      assert ParentPath(k.path) == Some(t.path);
      DepthsFromConsistent(k, order, c);
    }
  }

  /**
   * When the walker gives every record its distance from the traversal root
   * as its depth (path length minus `c`), a built tree displayed with limit
   * `D` shows no node deeper than `D`, or than 1 when `D` is 0.
   */
  lemma BuildDepthBound(stream: seq<Node>, order: Option<Comparator>, limit: nat, c: nat)
    requires Fresh(stream)
    requires order.Some? ==> TotalPreorder(order.value)
    requires forall n :: n in stream ==> n.depth + c == |n.path|
    requires Build(stream, order, Some(limit)).Success?
    ensures
      var t := Build(stream, order, Some(limit)).value;
      forall l :: l in Render(t.Root(), t.maxDepth) ==> l.node.depth <= Max(1, limit)
  {
    var agg := Aggregate(stream);
    var root, b := agg.value.0, agg.value.1;
    assert root in stream && IsRootDir(root) by {
      AggregateOutcome(stream);
    }
    FreshBranches(stream, root, b);
    AggregateMembers(stream, root, b);
    AssembleDepths(root, b, order, c);
    var t := Build(stream, order, Some(limit)).value;
    BuildSuccess(stream, order, Some(limit));
    DepthsFromConsistent(t.root, order, c);
    RenderDepthBound(t.root, limit);
  }

  // ---------------------------------------------------------------------------
  // A worked example: a root holding a 10-byte file and a directory that holds
  // a 5-byte file, received parents first, neither sorted nor limited.

  function ScenarioStream(): (s: seq<Node>)
    ensures |s| == 4
  {
    [Node(["root"], 0, true, None, Unset),
     Node(["root", "a"], 1, false, Some(10), Unset),
     Node(["root", "b"], 1, true, None, Unset),
     Node(["root", "b", "c"], 2, false, Some(5), Unset)]
  }

  lemma ScenarioAggregate()
    ensures
      var s := ScenarioStream();
      Aggregate(s) == Success((s[0], map[["root"] := [s[1], s[2]], ["root", "b"] := [s[3]]]))
  {
    var s := ScenarioStream();
    var r, a, d, c := s[0], s[1], s[2], s[3];
    var R, B := ["root"], ["root", "b"];
    assert s[..3] == [r, a, d] && [r, a, d][..2] == [r, a] && [r, a][..1] == [r] && [r][..0] == [];
    assert a.path[..1] == R && d.path[..1] == R && c.path[..2] == B;
    assert ParentPath(a.path) == Some(R) && ParentPath(d.path) == Some(R) && ParentPath(c.path) == Some(B);
    var e: seq<Node> := [];
    assert Run([r]) == Success(Acc(Some(r), map[R := e]));
    assert e + [a] == [a];
    assert map[R := e][R := e + [a]] == map[R := [a]];
    assert Run([r, a]) == Success(Acc(Some(r), map[R := [a]]));
    var b1: Branches := map[R := [a]];
    assert [a] + [d] == [a, d];
    assert b1[B := e][R := [a] + [d]] == map[R := [a, d], B := e];
    assert Run([r, a, d]) == Success(Acc(Some(r), map[R := [a, d], B := e]));
    var b2: Branches := map[R := [a, d], B := e];
    assert e + [c] == [c];
    assert b2[B := e + [c]] == map[R := [a, d], B := [c]];
  }

  lemma ScenarioAssemble()
    ensures
      var s := ScenarioStream();
      var b' := s[2].(children := Attached([s[3]]), fileSize := Some(5));
      Assemble(s[0], map[["root"] := [s[1], s[2]], ["root", "b"] := [s[3]]], None).0
      == s[0].(children := Attached([s[1], b']), fileSize := Some(15))
  {
    var s := ScenarioStream();
    var r, a, d, c := s[0], s[1], s[2], s[3];
    var R, B := ["root"], ["root", "b"];
    var m: Branches := map[R := [a, d], B := [c]];
    var rest: Branches := map[B := [c]];
    var empty: Branches := map[];
    assert m - {R} == rest;
    assert rest - {B} == empty;
    var d' := d.(children := Attached([c]), fileSize := Some(5));
    var e: seq<Node> := [];
    assert [c][..0] == e && [a, d][..1] == [a] && [a][..0] == e;
    assert e + [c] == [c] && e + [a] == [a] && [a] + [d'] == [a, d'];
    assert AssembleKids([c], empty, None) == ([c], empty);
    assert SumSizes([c]) == 5;
    assert Assemble(d, rest, None) == (d', empty);
    assert AssembleKids([a], rest, None) == ([a], rest);
    assert AssembleKids([a, d], rest, None) == ([a, d'], empty);
    assert SumSizes([a, d']) == 15 by {
      assert [a, d'][..1] == [a];
    }
  }

  lemma ScenarioRender()
    ensures
      var s := ScenarioStream();
      var b' := s[2].(children := Attached([s[3]]), fileSize := Some(5));
      var root := s[0].(children := Attached([s[1], b']), fileSize := Some(15));
      Render(root, None) == [Line("", root), Line(VTRT, s[1]), Line(UPRT, b'), Line(SEP + UPRT, s[3])]
  {
    var s := ScenarioStream();
    var a, c := s[1], s[3];
    var d' := s[2].(children := Attached([c]), fileSize := Some(5));
    var root := s[0].(children := Attached([a, d']), fileSize := Some(15));
    assert "" + VTRT == VTRT && "" + UPRT == UPRT && "" + SEP == SEP;
    assert SiblingLines(d', 0, SEP, None) == [Line(SEP + UPRT, c)];
    assert SiblingLines(root, 1, "", None) == [Line(UPRT, d'), Line(SEP + UPRT, c)];
    assert SiblingLines(root, 0, "", None) == [Line(VTRT, a), Line(UPRT, d'), Line(SEP + UPRT, c)];
  }

  /**
   * Built and displayed, the example gives the root the size 15, the inner
   * directory the size 5, and four lines: the root, `├─ a`, `└─ b` and,
   * under a blank indent, `└─ c`.
   */
  lemma ScenarioBuild()
    ensures
      var s := ScenarioStream();
      var b' := s[2].(children := Attached([s[3]]), fileSize := Some(5));
      var root := s[0].(children := Attached([s[1], b']), fileSize := Some(15));
      && Build(s, None, None) == Success(Tree(None, None, root))
      && Render(root, None) == [Line("", root), Line(VTRT, s[1]), Line(UPRT, b'), Line(SEP + UPRT, s[3])]
  {
    ScenarioAggregate();
    ScenarioAssemble();
    ScenarioRender();
  }
}
