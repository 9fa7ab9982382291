/**
 * `impl Display for Tree` (src/fs/erdtree/tree/mod.rs, lines 159-214): one
 * line for the root, then a pre-order walk of its descendants, each line
 * drawn with box-drawing connectors, descending into a directory only while
 * its depth plus one is within the limit.
 */
module Rendering {
  import opened Wrappers
  import opened Nodes

  /** Padding under a last sibling. */
  const SEP: string := "   "

  /** The `│` continuation under a sibling that has more siblings after it. */
  const VT: string := "\U{1B}[35m\U{2502}\U{1B}[0m  "

  /** The `└─` connector of a last sibling. */
  const UPRT: string := "\U{1B}[35m\U{2514}\U{2500}\U{1B}[0m "

  /** The `├─` connector of every other sibling. */
  const VTRT: string := "\U{1B}[35m\U{251C}\U{2500}\U{1B}[0m "

  /** One line of output: the connector prefix and the node it shows. */
  datatype Line = Line(prefix: string, node: Node)

  /** The children a node lists; an unset child list lists nothing. */
  function Listed(n: Node): seq<Node>
  {
    match n.children
    case Unset => []
    case Attached(nodes) => nodes
  }

  /** `depth <= max_depth`, where no limit stands for `usize::MAX`. */
  predicate WithinLimit(depth: nat, maxDepth: Option<nat>)
  {
    maxDepth.None? || depth <= maxDepth.value
  }

  /** The walk goes below a child only if it is a directory whose children are within the limit. */
  predicate Descends(child: Node, maxDepth: Option<nat>)
  {
    child.isDir && WithinLimit(child.depth + 1, maxDepth)
  }

  /**
   * The lines drawn for the children of `parent` from position `i` on, under
   * the prefix `base`: each child's own line, then, if the walk descends into
   * it, the lines of its children under the extended prefix.
   */
  function SiblingLines(parent: Node, i: nat, base: string, maxDepth: Option<nat>): seq<Line>
    decreases parent, |Listed(parent)| - i
  {
    var kids := Listed(parent);
    if i >= |kids| then []
    else
      var child, last := kids[i], i == |kids| - 1;
      [Line(Connector(base, last), child)]
      + (if Descends(child, maxDepth) then SiblingLines(child, 0, Indent(base, last), maxDepth) else [])
      + SiblingLines(parent, i + 1, base, maxDepth)
  }

  /** All the lines: the root with no prefix, then its children whatever the limit. */
  function Render(root: Node, maxDepth: Option<nat>): (lines: seq<Line>)
    ensures |lines| >= 1 && lines[0] == Line("", root)
  {
    [Line("", root)] + SiblingLines(root, 0, "", maxDepth)
  }

  /** A line as written by `extend_output`: prefix, the node's display, a line break. */
  function LineText(l: Line, name: Node -> string): string
  {
    l.prefix + name(l.node) + "\n"
  }

  /** The lines joined into the output string. */
  function Text(lines: seq<Line>, name: Node -> string): string
  {
    if lines == [] then "" else LineText(lines[0], name) + Text(lines[1..], name)
  }

  lemma {:induction false} TextAppend(a: seq<Line>, b: seq<Line>, name: Node -> string)
    ensures Text(a + b, name) == Text(a, name) + Text(b, name)
  {
    if a == [] {
      assert a + b == b;
    } else {
      assert (a + b)[1..] == a[1..] + b;
      TextAppend(a[1..], b, name);
    }
  }

  /** `extend_output`: appends one line to the output. */
  method ExtendOutput(output: string, node: Node, prefix: string, name: Node -> string)
      returns (extended: string)
    ensures extended == output + LineText(Line(prefix, node), name)
  {
    extended := output + prefix + name(node) + "\n";
  }

  /** The prefix of a child's own line. */
  function Connector(base: string, last: bool): string
  {
    base + if last then UPRT else VTRT
  }

  /** The prefix handed down to a child's children. */
  function Indent(base: string, last: bool): string
  {
    base + if last then SEP else VT
  }

  /** What one turn of the loop in `Traverse` appends for the child at position `i`. */
  function ChildText(parent: Node, i: nat, base: string, maxDepth: Option<nat>, name: Node -> string): string
    requires i < |Listed(parent)|
  {
    var kids := Listed(parent);
    var last := i == |kids| - 1;
    LineText(Line(Connector(base, last), kids[i]), name)
    + if Descends(kids[i], maxDepth)
      then Text(SiblingLines(kids[i], 0, Indent(base, last), maxDepth), name)
      else ""
  }

  /** The output of the children from position `i` on is the `i`th child's text, then the rest. */
  lemma SiblingText(parent: Node, i: nat, base: string, maxDepth: Option<nat>, name: Node -> string)
    requires i < |Listed(parent)|
    ensures Text(SiblingLines(parent, i, base, maxDepth), name)
         == ChildText(parent, i, base, maxDepth, name) + Text(SiblingLines(parent, i + 1, base, maxDepth), name)
  {
    var kids := Listed(parent);
    var last := i == |kids| - 1;
    var head := [Line(Connector(base, last), kids[i])];
    var below := if Descends(kids[i], maxDepth)
                 then SiblingLines(kids[i], 0, Indent(base, last), maxDepth)
                 else [];
    var rest := SiblingLines(parent, i + 1, base, maxDepth);
    TextAppend(head + below, rest, name);
    TextAppend(head, below, name);
    assert Text(head, name) == LineText(head[0], name) + Text([], name);
  }

  /**
   * Writing the children from position `i` on after `before` is writing the
   * `i`th child's line, then its subtree if the walk descends into it, then
   * the children after it.
   */
  lemma AppendChild(before: string, parent: Node, i: nat, base: string, maxDepth: Option<nat>, name: Node -> string)
    requires i < |Listed(parent)|
    ensures
      var kids := Listed(parent);
      var last := i == |kids| - 1;
      var line := LineText(Line(Connector(base, last), kids[i]), name);
      var rest := Text(SiblingLines(parent, i + 1, base, maxDepth), name);
      && (Descends(kids[i], maxDepth) ==>
            before + Text(SiblingLines(parent, i, base, maxDepth), name)
            == before + line + Text(SiblingLines(kids[i], 0, Indent(base, last), maxDepth), name) + rest)
      && (!Descends(kids[i], maxDepth) ==>
            before + Text(SiblingLines(parent, i, base, maxDepth), name) == before + line + rest)
  {
    var kids := Listed(parent);
    var last := i == |kids| - 1;
    var line := LineText(Line(Connector(base, last), kids[i]), name);
    var below := if Descends(kids[i], maxDepth) then Text(SiblingLines(kids[i], 0, Indent(base, last), maxDepth), name) else "";
    var rest := Text(SiblingLines(parent, i + 1, base, maxDepth), name);
    assert Text(SiblingLines(parent, i, base, maxDepth), name) == line + below + rest by {
      SiblingText(parent, i, base, maxDepth, name);
    }
    Associative(before, line + below, rest);
    Associative(before, line, below);
    if !Descends(kids[i], maxDepth) {
      assert line + below == line;
    }
  }

  /** Concatenation is associative. */
  lemma Associative<T>(a: seq<T>, b: seq<T>, c: seq<T>)
    ensures a + (b + c) == a + b + c
  {
  }

  /** The inner `traverse`: the loop over the children with a look-ahead for the last one. */
  method Traverse(output: string, parent: Node, base: string, maxDepth: Option<nat>, name: Node -> string)
      returns (extended: string)
    ensures extended == output + Text(SiblingLines(parent, 0, base, maxDepth), name)
    decreases parent
  {
    var kids := Listed(parent);
    extended := output;
    var i := 0;
    while i < |kids|
      invariant 0 <= i <= |kids|
      invariant output + Text(SiblingLines(parent, 0, base, maxDepth), name)
             == extended + Text(SiblingLines(parent, i, base, maxDepth), name)
    {
      var child := kids[i];
      var lastEntry := i + 1 == |kids|;
      AppendChild(extended, parent, i, base, maxDepth, name);
      extended := ExtendOutput(extended, child, Connector(base, lastEntry), name);
      if !child.isDir || !WithinLimit(child.depth + 1, maxDepth) {
        i := i + 1;
        continue;
      }
      assert parent.children.Attached? && child in parent.children.nodes;
      extended := Traverse(extended, child, Indent(base, child.isDir && lastEntry), maxDepth, name);
      i := i + 1;
    }
  }

  /** `Display::fmt`: the root's line, then the walk below it. */
  method Fmt(root: Node, maxDepth: Option<nat>, name: Node -> string) returns (output: string)
    ensures output == Text(Render(root, maxDepth), name)
  {
    output := "";
    output := ExtendOutput(output, root, "", name);
    output := Traverse(output, root, "", maxDepth, name);
    TextAppend([Line("", root)], SiblingLines(root, 0, "", maxDepth), name);
    assert Text([Line("", root)], name) == LineText(Line("", root), name) + Text([], name);
  }

  // ---------------------------------------------------------------------------
  // Connectors and prefixes.

  /** The four glyphs are distinct; the two connectors are as long as the `│` padding and longer than the blank one. */
  lemma GlyphFacts()
    ensures SEP != VT && SEP != UPRT && SEP != VTRT && VT != UPRT && VT != VTRT && UPRT != VTRT
    ensures |UPRT| == |VTRT| == |VT| == 12 && |SEP| == 3
  {
    assert SEP[0] != VT[0] && SEP[0] != UPRT[0] && SEP[0] != VTRT[0];
    assert VT[5] != UPRT[5] && VT[5] != VTRT[5] && UPRT[5] != VTRT[5];
  }

  /** A connector is the base followed by `└─` or `├─`. */
  lemma ConnectorEnds(base: string, last: bool)
    ensures var c := Connector(base, last);
      base <= c && |c| == |base| + |UPRT| && (c[|base|..] == UPRT || c[|base|..] == VTRT)
  {
    GlyphFacts();
    var c := Connector(base, last);
    assert c[|base|..] == if last then UPRT else VTRT;
  }

  /**
   * Every line drawn for the children of `parent` under `base` starts with
   * `base`, is at least one connector longer, and ends in a connector.
   */
  lemma {:induction false} SiblingPrefixes(parent: Node, i: nat, base: string, maxDepth: Option<nat>)
    ensures forall l :: l in SiblingLines(parent, i, base, maxDepth) ==>
      && base <= l.prefix && |l.prefix| >= |base| + |UPRT|
      && (l.prefix[|l.prefix| - |UPRT|..] == UPRT || l.prefix[|l.prefix| - |UPRT|..] == VTRT)
    decreases parent, |Listed(parent)| - i
  {
    GlyphFacts();
    var kids := Listed(parent);
    if i < |kids| {
      var last := i == |kids| - 1;
      ConnectorEnds(base, last);
      SiblingPrefixes(parent, i + 1, base, maxDepth);
      if Descends(kids[i], maxDepth) {
        SiblingPrefixes(kids[i], 0, Indent(base, last), maxDepth);
        forall l | l in SiblingLines(kids[i], 0, Indent(base, last), maxDepth)
          ensures base <= l.prefix
        {
          assert base <= Indent(base, last) <= l.prefix;
        }
      }
    }
  }

  /** The lines whose prefix is exactly `width` long. */
  function AtWidth(lines: seq<Line>, width: nat): seq<Line>
  {
    if lines == [] then []
    else (if |lines[0].prefix| == width then [lines[0]] else []) + AtWidth(lines[1..], width)
  }

  lemma {:induction false} AtWidthAppend(a: seq<Line>, b: seq<Line>, width: nat)
    ensures AtWidth(a + b, width) == AtWidth(a, width) + AtWidth(b, width)
  {
    if a == [] {
      assert a + b == b;
    } else {
      var head := if |a[0].prefix| == width then [a[0]] else [];
      assert AtWidth(a + b, width) == head + AtWidth(a[1..] + b, width) by {
        assert (a + b)[0] == a[0] && (a + b)[1..] == a[1..] + b;
      }
      AtWidthAppend(a[1..], b, width);
      Associative(head, AtWidth(a[1..], width), AtWidth(b, width));
    }
  }

  lemma {:induction false} AtWidthNone(lines: seq<Line>, width: nat)
    requires forall l :: l in lines ==> |l.prefix| > width
    ensures AtWidth(lines, width) == []
  {
    if lines != [] {
      AtWidthNone(lines[1..], width);
    }
  }

  /** The line each child gets in its own sibling group: `├─` for all but the last, `└─` for the last. */
  function Heads(kids: seq<Node>, base: string): (heads: seq<Line>)
    ensures |heads| == |kids|
  {
    seq(|kids|, j requires 0 <= j < |kids| => Line(Connector(base, j == |kids| - 1), kids[j]))
  }

  lemma HeadsSplit(kids: seq<Node>, base: string, i: nat)
    requires i < |kids|
    ensures Heads(kids, base)[i..] == [Line(Connector(base, i == |kids| - 1), kids[i])] + Heads(kids, base)[i + 1..]
  {
    var heads := Heads(kids, base);
    assert heads[i..] == [heads[i]] + heads[i + 1..];
  }

  /**
   * Among the lines drawn under `base` for the children of `parent`, the ones
   * at the children's own level are exactly one per child, in stored order,
   * the last with `base + UPRT` and every other with `base + VTRT`; all other
   * lines belong to deeper levels and have longer prefixes.
   */
  lemma {:induction false} SiblingConnectors(parent: Node, i: nat, base: string, maxDepth: Option<nat>)
    requires i <= |Listed(parent)|
    ensures AtWidth(SiblingLines(parent, i, base, maxDepth), |base| + |UPRT|)
         == Heads(Listed(parent), base)[i..]
    decreases |Listed(parent)| - i
  {
    var kids := Listed(parent);
    var width := |base| + |UPRT|;
    if i < |kids| {
      var last := i == |kids| - 1;
      var head := [Line(Connector(base, last), kids[i])];
      var below := if Descends(kids[i], maxDepth)
                   then SiblingLines(kids[i], 0, Indent(base, last), maxDepth)
                   else [];
      var rest := SiblingLines(parent, i + 1, base, maxDepth);
      assert SiblingLines(parent, i, base, maxDepth) == head + below + rest;
      assert AtWidth(below, width) == [] by {
        GlyphFacts();
        if Descends(kids[i], maxDepth) {
          SiblingPrefixes(kids[i], 0, Indent(base, last), maxDepth);
        }
        AtWidthNone(below, width);
      }
      assert AtWidth(head, width) == head by {
        GlyphFacts();
      }
      SiblingConnectors(parent, i + 1, base, maxDepth);
      AtWidthAppend(head + below, rest, width);
      AtWidthAppend(head, below, width);
      HeadsSplit(kids, base, i);
    }
  }

  /** The root's children are always listed, whatever the depth limit, one line each with its connector. */
  lemma RootChildrenListed(root: Node, maxDepth: Option<nat>)
    ensures AtWidth(Render(root, maxDepth)[1..], |UPRT|) == Heads(Listed(root), "")
  {
    SiblingConnectors(root, 0, "", maxDepth);
    assert Render(root, maxDepth)[1..] == SiblingLines(root, 0, "", maxDepth);
  }

  // ---------------------------------------------------------------------------
  // Depth.

  /** Every child is one level deeper than its parent, all the way down. */
  ghost predicate DepthsConsistent(t: Node)
    decreases t
  {
    forall k :: k in Listed(t) ==> k.depth == t.depth + 1 && DepthsConsistent(k)
  }

  function Max(a: nat, b: nat): nat
  {
    if a < b then b else a
  }

  /** Below `parent`, no line shows a node deeper than the limit, or than `parent`'s children. */
  lemma {:induction false} SiblingDepths(parent: Node, i: nat, base: string, limit: nat)
    requires DepthsConsistent(parent)
    ensures forall l :: l in SiblingLines(parent, i, base, Some(limit)) ==>
      l.node.depth <= Max(parent.depth + 1, limit)
    decreases parent, |Listed(parent)| - i
  {
    var kids := Listed(parent);
    if i < |kids| {
      var last := i == |kids| - 1;
      assert kids[i] in kids;
      SiblingDepths(parent, i + 1, base, limit);
      if Descends(kids[i], Some(limit)) {
        SiblingDepths(kids[i], 0, Indent(base, last), limit);
      }
    }
  }

  /**
   * With a limit `D` and consistent depths, no line shows a node deeper than
   * `D`, except that the root's children (depth 1) are listed even when `D` is 0.
   */
  lemma RenderDepthBound(root: Node, limit: nat)
    requires root.depth == 0 && DepthsConsistent(root)
    ensures forall l :: l in Render(root, Some(limit)) ==> l.node.depth <= Max(1, limit)
  {
    SiblingDepths(root, 0, "", limit);
  }

  /**
   * A limit of 0 still shows the root's children (depth 1), exactly as a limit
   * of 1 does; a limit of 2 also shows their children.
   */
  lemma DepthLimitExample()
    ensures
      var c := Node(["r", "a", "f"], 2, false, None, Unset);
      var a := Node(["r", "a"], 1, true, None, Attached([c]));
      var r := Node(["r"], 0, true, None, Attached([a]));
      && Render(r, Some(0)) == [Line("", r), Line(UPRT, a)]
      && Render(r, Some(1)) == [Line("", r), Line(UPRT, a)]
      && Render(r, Some(2)) == [Line("", r), Line(UPRT, a), Line(SEP + UPRT, c)]
  {
    var c := Node(["r", "a", "f"], 2, false, None, Unset);
    var a := Node(["r", "a"], 1, true, None, Attached([c]));
    var r := Node(["r"], 0, true, None, Attached([a]));
    assert "" + UPRT == UPRT && Indent("", true) == SEP;
    assert SiblingLines(a, 1, SEP, Some(2)) == [];
    assert SiblingLines(r, 0, "", Some(0)) == [Line(UPRT, a)];
    assert SiblingLines(r, 0, "", Some(1)) == [Line(UPRT, a)];
    assert SiblingLines(a, 0, SEP, Some(2)) == [Line(SEP + UPRT, c)];
    assert SiblingLines(r, 0, "", Some(2)) == [Line(UPRT, a), Line(SEP + UPRT, c)];
  }

  // ---------------------------------------------------------------------------
  // Without a limit, every node is shown once, in pre-order.

  /** The tree's nodes in pre-order: a node, then each child's subtree in stored order. */
  function Preorder(n: Node): seq<Node>
    decreases n, |Listed(n)| + 1
  {
    [n] + PreorderFrom(n, 0)
  }

  function PreorderFrom(parent: Node, i: nat): seq<Node>
    decreases parent, |Listed(parent)| - i
  {
    var kids := Listed(parent);
    if i >= |kids| then [] else Preorder(kids[i]) + PreorderFrom(parent, i + 1)
  }

  /** Below `t`, only directories have children to list. */
  ghost predicate FilesAreLeaves(t: Node)
    decreases t
  {
    forall k :: k in Listed(t) ==> (k.isDir || Listed(k) == []) && FilesAreLeaves(k)
  }

  /** The nodes the lines show, in order. */
  function NodesOf(lines: seq<Line>): (nodes: seq<Node>)
    ensures |nodes| == |lines|
  {
    if lines == [] then [] else [lines[0].node] + NodesOf(lines[1..])
  }

  lemma {:induction false} NodesOfAppend(a: seq<Line>, b: seq<Line>)
    ensures NodesOf(a + b) == NodesOf(a) + NodesOf(b)
  {
    if a == [] {
      assert a + b == b;
    } else {
      assert (a + b)[1..] == a[1..] + b;
      NodesOfAppend(a[1..], b);
    }
  }

  lemma {:induction false} SiblingPreorder(parent: Node, i: nat, base: string)
    requires FilesAreLeaves(parent)
    ensures NodesOf(SiblingLines(parent, i, base, None)) == PreorderFrom(parent, i)
    decreases parent, |Listed(parent)| - i
  {
    var kids := Listed(parent);
    if i < |kids| {
      var child, last := kids[i], i == |kids| - 1;
      assert child in kids;
      var head := [Line(Connector(base, last), child)];
      var below := if Descends(child, None) then SiblingLines(child, 0, Indent(base, last), None) else [];
      var rest := SiblingLines(parent, i + 1, base, None);
      SiblingPreorder(parent, i + 1, base);
      if child.isDir {
        SiblingPreorder(child, 0, Indent(base, last));
      } else {
        assert PreorderFrom(child, 0) == [];
      }
      NodesOfAppend(head + below, rest);
      NodesOfAppend(head, below);
    }
  }

  /**
   * With no depth limit, and files without children, the output lists every
   * node of the tree exactly in pre-order: the root, then each child followed
   * by its own subtree, children in their stored order.
   */
  lemma RenderUnlimitedIsPreorder(root: Node)
    requires FilesAreLeaves(root)
    ensures NodesOf(Render(root, None)) == Preorder(root)
  {
    SiblingPreorder(root, 0, "");
    NodesOfAppend([Line("", root)], SiblingLines(root, 0, "", None));
  }
}
