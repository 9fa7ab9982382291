/**
 * The consumer side of `Tree::traverse` (src/fs/erdtree/tree/mod.rs, lines 67-101):
 * it receives the walker's records one at a time, keeps the depth-0 directory
 * as the root, and files every other record under its parent's path in the
 * `Branches` map. The channel and the walker threads are not modelled: the
 * records received are a sequence, in whatever order they arrived.
 */
module Aggregation {
  import opened Wrappers
  import opened Nodes

  /** The failures of a tree build. */
  datatype Error = ExpectedParent | MissingRoot

  /** Children waiting to be attached, keyed by their parent directory's path. */
  type Branches = map<Path, seq<Node>>

  /** What the consumer has built so far: the root slot and the branches map. */
  datatype Acc = Acc(root: Option<Node>, branches: Branches)

  /** The traversal root: a directory at depth 0. */
  predicate IsRootDir(n: Node)
  {
    n.isDir && n.depth == 0
  }

  /** A record that is not the root but whose parent cannot be computed. */
  predicate Orphan(n: Node)
  {
    !IsRootDir(n) && ParentPath(n.path).None?
  }

  /** A record that belongs in the list kept under `p`. */
  predicate Attaches(n: Node, p: Path)
  {
    !IsRootDir(n) && ParentPath(n.path) == Some(p)
  }

  /** A record makes `p` a key: a directory registers its own path, any other record its parent's. */
  predicate Registers(n: Node, p: Path)
  {
    (n.isDir && n.path == p) || Attaches(n, p)
  }

  /** The list under `p`, or the empty list when `p` is not a key. */
  function Pending(b: Branches, p: Path): seq<Node>
  {
    if p in b then b[p] else []
  }

  /**
   * One turn of the receive loop (lines 72-95). A directory registers its own
   * path with an empty list unless the path is already a key; a depth-0
   * directory then becomes the root and goes no further. Any other record is
   * appended to its parent's list when that list exists; when it does not, the
   * parent's path is registered with an EMPTY list and the record is dropped.
   * A record without a parent path aborts with `ExpectedParent`.
   */
  function Receive(acc: Acc, n: Node): (r: Result<Acc, Error>)
    ensures r.Failure? <==> Orphan(n)
    ensures r.Failure? ==> r.error == ExpectedParent
    ensures r.Success? ==> r.value.root == if IsRootDir(n) then Some(n) else acc.root
    ensures r.Success? ==>
      forall p :: p in r.value.branches <==> p in acc.branches || Registers(n, p)
    ensures r.Success? ==>
      forall p :: p in r.value.branches ==>
        r.value.branches[p]
        == Pending(acc.branches, p) + if p in acc.branches && Attaches(n, p) then [n] else []
  {
    var b := if n.isDir && n.path !in acc.branches then acc.branches[n.path := []] else acc.branches;
    if IsRootDir(n) then Success(Acc(Some(n), b))
    else
      match ParentPath(n.path)
      case None => Failure(ExpectedParent)
      case Some(parent) =>
        if parent in b then Success(Acc(acc.root, b[parent := b[parent] + [n]]))
        else Success(Acc(acc.root, b[parent := []]))
  }

  /** The consumer's state after receiving the records of `s` in order (a left fold of `Receive`). */
  function Run(s: seq<Node>): Result<Acc, Error>
  {
    if s == [] then Success(Acc(None, map[]))
    else
      match Run(s[..|s| - 1])
      case Failure(e) => Failure(e)
      case Success(acc) => Receive(acc, s[|s| - 1])
  }

  /** The outcome of the whole loop (lines 71-100): the root and the branches, or an error. */
  function Aggregate(s: seq<Node>): Result<(Node, Branches), Error>
  {
    match Run(s)
    case Failure(e) => Failure(e)
    case Success(acc) =>
      if acc.root.None? then Failure(MissingRoot) else Success((acc.root.value, acc.branches))
  }

  /** The loop state after one more record. */
  lemma RunStep(s: seq<Node>, i: nat)
    requires i < |s|
    ensures Run(s[..i + 1]) == if Run(s[..i]).Failure? then Run(s[..i]) else Receive(Run(s[..i]).value, s[i])
  {
    assert s[..i + 1][..i] == s[..i];
  }

  /** The consumer loop itself, over the records in the order they were received. */
  method Collect(stream: seq<Node>) returns (r: Result<(Node, Branches), Error>)
    ensures r == Aggregate(stream)
  {
    var branches: Branches := map[];
    var root: Option<Node> := None;
    var i := 0;
    while i < |stream|
      invariant 0 <= i <= |stream|
      invariant Run(stream[..i]) == Success(Acc(root, branches))
    {
      var node := stream[i];
      RunStep(stream, i);
      if node.isDir {
        if node.path !in branches {
          branches := branches[node.path := []];
        }
        if node.depth == 0 {
          root := Some(node);
          i := i + 1;
          continue;
        }
      }
      var parent := ParentPath(node.path);
      if parent.None? {
        RunFailsOnOrphan(stream, i);
        return Failure(ExpectedParent);
      }
      if parent.value in branches {
        branches := branches[parent.value := branches[parent.value] + [node]];
      } else {
        branches := branches[parent.value := []];
      }
      i := i + 1;
    }
    assert stream[..i] == stream;
    if root.None? {
      return Failure(MissingRoot);
    }
    return Success((root.value, branches));
  }

  // ---------------------------------------------------------------------------
  // What the loop computes, stated without the loop.

  /** Some record of `s` makes `p` a key. */
  ghost predicate Registered(s: seq<Node>, p: Path)
  {
    exists i :: 0 <= i < |s| && Registers(s[i], p)
  }

  /** The last depth-0 directory received, if any. */
  function LastRoot(s: seq<Node>): Option<Node>
  {
    if s == [] then None
    else if IsRootDir(s[|s| - 1]) then Some(s[|s| - 1])
    else LastRoot(s[..|s| - 1])
  }

  /**
   * The records that end up under `p`: in arrival order, those that attach to
   * `p` and arrive after `p` has become a key.
   */
  ghost function Kept(s: seq<Node>, p: Path): seq<Node>
  {
    if s == [] then []
    else
      var prefix, n := s[..|s| - 1], s[|s| - 1];
      Kept(prefix, p) + if Attaches(n, p) && Registered(prefix, p) then [n] else []
  }

  lemma RegisteredPrefix(s: seq<Node>, p: Path)
    requires s != []
    ensures Registered(s, p) <==> Registered(s[..|s| - 1], p) || Registers(s[|s| - 1], p)
  {
    var prefix := s[..|s| - 1];
    if Registered(s, p) && !Registers(s[|s| - 1], p) {
      var i :| 0 <= i < |s| && Registers(s[i], p);
      assert prefix[i] == s[i];
    }
    if Registered(prefix, p) {
      var i :| 0 <= i < |prefix| && Registers(prefix[i], p);
      assert s[i] == prefix[i];
    }
  }

  /** Nothing is kept under a path that was never registered. */
  lemma {:induction false} KeptUnregistered(s: seq<Node>, p: Path)
    requires !Registered(s, p)
    ensures Kept(s, p) == []
  {
    if s != [] {
      RegisteredPrefix(s, p);
      KeptUnregistered(s[..|s| - 1], p);
    }
  }

  /** Some record of `s` is an orphan. */
  ghost predicate HasOrphan(s: seq<Node>)
  {
    exists i :: 0 <= i < |s| && Orphan(s[i])
  }

  lemma HasOrphanPrefix(s: seq<Node>)
    requires s != []
    ensures HasOrphan(s) <==> HasOrphan(s[..|s| - 1]) || Orphan(s[|s| - 1])
  {
    var prefix := s[..|s| - 1];
    if HasOrphan(s) && !Orphan(s[|s| - 1]) {
      var i :| 0 <= i < |s| && Orphan(s[i]);
      assert prefix[i] == s[i];
    }
    if HasOrphan(prefix) {
      var i :| 0 <= i < |prefix| && Orphan(prefix[i]);
      assert s[i] == prefix[i];
    }
  }

  /** The loop fails exactly when some record is an orphan, and then with `ExpectedParent`. */
  lemma {:induction false} RunFailure(s: seq<Node>)
    ensures Run(s).Failure? <==> HasOrphan(s)
    ensures Run(s).Failure? ==> Run(s).error == ExpectedParent
  {
    if s != [] {
      RunFailure(s[..|s| - 1]);
      HasOrphanPrefix(s);
    }
  }

  /** When the loop succeeds, the root slot holds the last depth-0 directory received. */
  lemma {:induction false} RunRoot(s: seq<Node>)
    requires Run(s).Success?
    ensures Run(s).value.root == LastRoot(s)
  {
    if s != [] {
      RunRoot(s[..|s| - 1]);
    }
  }

  /** When the loop succeeds, its keys are exactly the paths some record registered. */
  lemma {:induction false} RunKeys(s: seq<Node>)
    requires Run(s).Success?
    ensures forall p :: p in Run(s).value.branches <==> Registered(s, p)
  {
    if s != [] {
      RunKeys(s[..|s| - 1]);
      forall p ensures p in Run(s).value.branches <==> Registered(s, p) {
        RegisteredPrefix(s, p);
      }
    }
  }

  /** When the loop succeeds, each key holds exactly the records `Kept` names, in arrival order. */
  lemma {:induction false} RunLists(s: seq<Node>)
    requires Run(s).Success?
    ensures forall p :: p in Run(s).value.branches ==> Run(s).value.branches[p] == Kept(s, p)
  {
    if s != [] {
      var prefix := s[..|s| - 1];
      RunLists(prefix);
      RunKeys(prefix);
      var acc, b := Run(prefix).value, Run(s).value.branches;
      forall p | p in b ensures b[p] == Kept(s, p) {
        if p !in acc.branches {
          KeptUnregistered(prefix, p);
        }
      }
    }
  }

  lemma {:induction false} LastRootIsRootDir(s: seq<Node>)
    ensures LastRoot(s).Some? ==> IsRootDir(LastRoot(s).value) && LastRoot(s).value in s
    ensures LastRoot(s).None? <==> forall i :: 0 <= i < |s| ==> !IsRootDir(s[i])
  {
    if s != [] {
      var prefix := s[..|s| - 1];
      LastRootIsRootDir(prefix);
      if !IsRootDir(s[|s| - 1]) {
        forall i | 0 <= i < |prefix| ensures prefix[i] == s[i] { }
      }
    }
  }

  lemma {:induction false} KeptAttaches(s: seq<Node>, p: Path)
    ensures forall n :: n in Kept(s, p) ==> Attaches(n, p) && n in s
  {
    if s != [] {
      KeptAttaches(s[..|s| - 1], p);
    }
  }

  lemma RunFailsOnOrphan(s: seq<Node>, i: nat)
    requires i < |s| && Orphan(s[i])
    ensures Aggregate(s) == Failure(ExpectedParent)
  {
    RunFailure(s);
  }

  /**
   * The loop's outcome as a whole: `ExpectedParent` exactly when some record
   * has no parent path; `MissingRoot` exactly when there is no such record and
   * no depth-0 directory either; otherwise the root is the last depth-0
   * directory received, the keys are the registered paths, each key holds the
   * records `Kept` names, and every stored record sits under its own parent
   * path and is not a depth-0 directory.
   */
  lemma AggregateOutcome(s: seq<Node>)
    ensures Aggregate(s) == Failure(ExpectedParent) <==> HasOrphan(s)
    ensures Aggregate(s) == Failure(MissingRoot)
        <==> !HasOrphan(s) && forall i :: 0 <= i < |s| ==> !IsRootDir(s[i])
    ensures Aggregate(s).Success? ==>
      var (root, b) := Aggregate(s).value;
      && Some(root) == LastRoot(s)
      && IsRootDir(root) && root in s
      && (forall p :: p in b <==> Registered(s, p))
      && (forall p :: p in b ==> b[p] == Kept(s, p))
      && (forall p, n :: p in b && n in b[p] ==> Attaches(n, p) && n in s)
  {
    RunFailure(s);
    LastRootIsRootDir(s);
    if Run(s).Success? {
      RunRoot(s);
      RunKeys(s);
      RunLists(s);
      forall p | p in Run(s).value.branches {
        KeptAttaches(s, p);
      }
    }
  }

  /** Every collected record attaches to its key and is one of the records received. */
  lemma AggregateMembers(s: seq<Node>, root: Node, b: Branches)
    requires Aggregate(s) == Success((root, b))
    ensures forall p, n :: p in b && n in b[p] ==> Attaches(n, p) && n in s
  {
    RunLists(s);
    forall p | p in b {
      KeptAttaches(s, p);
    }
  }

  /** Every record that is not the root and has a parent path was preceded by its parent directory. */
  ghost predicate ParentDirsFirst(s: seq<Node>)
  {
    forall j :: 0 <= j < |s| && !IsRootDir(s[j]) && ParentPath(s[j].path).Some? ==>
      exists i :: 0 <= i < j && s[i].isDir && Some(s[i].path) == ParentPath(s[j].path)
  }

  /** All records of `s` that attach to `p`, in arrival order. */
  function ChildrenOf(s: seq<Node>, p: Path): seq<Node>
  {
    if s == [] then []
    else ChildrenOf(s[..|s| - 1], p) + if Attaches(s[|s| - 1], p) then [s[|s| - 1]] else []
  }

  /** When parents arrive before their children, no record is dropped. */
  lemma {:induction false} KeptAllWhenParentsFirst(s: seq<Node>, p: Path)
    requires ParentDirsFirst(s)
    ensures Kept(s, p) == ChildrenOf(s, p)
  {
    if s != [] {
      var prefix, n := s[..|s| - 1], s[|s| - 1];
      forall j | 0 <= j < |prefix| && !IsRootDir(prefix[j]) && ParentPath(prefix[j].path).Some?
        ensures exists i :: 0 <= i < j && prefix[i].isDir && Some(prefix[i].path) == ParentPath(prefix[j].path)
      {
        assert prefix[j] == s[j];
        var i :| 0 <= i < j && s[i].isDir && Some(s[i].path) == ParentPath(s[j].path);
        assert prefix[i] == s[i];
      }
      KeptAllWhenParentsFirst(prefix, p);
      if Attaches(n, p) {
        var i :| 0 <= i < |s| - 1 && s[i].isDir && Some(s[i].path) == ParentPath(n.path);
        assert Registers(prefix[i], p);
      }
    }
  }

  /** Three records of a small tree: the root `r`, its directory `r/a` and the file `r/a/f`. */
  function ExampleStream(): (s: seq<Node>)
    ensures |s| == 3
  {
    [Node(["r"], 0, true, None, Unset),
     Node(["r", "a"], 1, true, None, Unset),
     Node(["r", "a", "f"], 2, false, Some(7), Unset)]
  }

  /** Received parents first, the records are filed under their parents. */
  lemma ParentsFirstExample()
    ensures
      var s := ExampleStream();
      Aggregate(s) == Success((s[0], map[["r"] := [s[1]], ["r", "a"] := [s[2]]]))
  {
    var s := ExampleStream();
    var r, a, f := s[0], s[1], s[2];
    var R, A := ["r"], ["r", "a"];
    assert s[..2] == [r, a] && s[..2][..1] == [r] && [r][..0] == [];
    assert a.path[..1] == R && f.path[..2] == A;
    assert ParentPath(a.path) == Some(R) && ParentPath(f.path) == Some(A);
    assert Run([r]) == Success(Acc(Some(r), map[R := []]));
    var b0: Branches := map[R := []];
    var e: seq<Node> := [];
    assert e + [a] == [a] && e + [f] == [f];
    assert b0[A := []][R := e + [a]] == map[R := [a], A := []];
    assert Run([r, a]) == Success(Acc(Some(r), map[R := [a], A := []]));
    var b1: Branches := map[R := [a], A := []];
    assert b1[A := e + [f]] == map[R := [a], A := [f]];
  }

  /**
   * Received child first, the same records are lost: a record whose parent is
   * not yet a key is dropped, and only an empty list is left for the parent.
   */
  lemma ChildFirstExample()
    ensures
      var s := ExampleStream();
      Aggregate([s[2], s[1], s[0]]) == Success((s[0], map[["r"] := [], ["r", "a"] := []]))
  {
    var s := ExampleStream();
    var r, a, f := s[0], s[1], s[2];
    var R, A := ["r"], ["r", "a"];
    assert [f, a, r][..2] == [f, a] && [f, a][..1] == [f] && [f][..0] == [];
    assert a.path[..1] == R && f.path[..2] == A;
    assert ParentPath(a.path) == Some(R) && ParentPath(f.path) == Some(A);
    assert Run([f]) == Success(Acc(None, map[A := []]));
    assert Run([f, a]) == Success(Acc(None, map[A := [], R := []]));
    var b1: Branches := map[A := [], R := []];
    assert Receive(Acc(None, b1), r) == Success(Acc(Some(r), b1));
    assert Run([f, a, r]) == Success(Acc(Some(r), b1));
    assert b1 == map[R := [], A := []];
  }
}
