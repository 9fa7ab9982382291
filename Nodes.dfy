/**
 * The entry record the tree is built from. Its real definition (`Node::from`,
 * `parent_path_buf`, `is_dir`, its `Display`) lives outside the modelled file;
 * here it is reduced to the fields the tree code reads and writes.
 */
module Nodes {
  import opened Wrappers

  /** A filesystem path, as its sequence of components. */
  type Path = seq<string>

  /**
   * One filesystem entry: its path, its distance from the traversal root,
   * whether it is a directory, its size in bytes if known, and its children
   * once the tree has been assembled (`Unset` before that).
   */
  datatype Node = Node(
    path: Path,
    depth: nat,
    isDir: bool,
    fileSize: Option<nat>,
    children: ChildList)

  /** A node's child-list slot: unset until assembly attaches the children. */
  datatype ChildList = Unset | Attached(nodes: seq<Node>)

  /** `parent_path_buf`: the path without its final component; none for the empty path. */
  function ParentPath(p: Path): (r: Option<Path>)
    ensures r.None? <==> p == []
    ensures r.Some? ==> |r.value| + 1 == |p| && r.value <= p
  {
    if p == [] then None else Some(p[..|p| - 1])
  }

  /** `file_size.unwrap_or(0)`: a missing size counts as zero. */
  function SizeOf(n: Node): nat
  {
    match n.fileSize
    case Some(s) => s
    case None => 0
  }

  /** The result of a comparator, as Rust's `std::cmp::Ordering`. */
  datatype Ordering = Less | Equal | Greater

  function Flip(o: Ordering): Ordering
  {
    match o
    case Less => Greater
    case Equal => Equal
    case Greater => Less
  }

  /** A comparator over nodes, as handed to `sort_by`. */
  type Comparator = (Node, Node) -> Ordering

  /**
   * What `sort_by` expects of its comparator: swapping the arguments flips the
   * answer, and "not greater" is transitive. Reflexivity follows from the first.
   */
  ghost predicate TotalPreorder(cmp: Comparator)
  {
    && (forall a, b :: cmp(a, b) == Flip(cmp(b, a)))
    && (forall a, b, c :: cmp(a, b) != Greater && cmp(b, c) != Greater ==> cmp(a, c) != Greater)
  }
}
