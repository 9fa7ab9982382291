# erdtree: the in-memory tree, modelled in Dafny

erdtree prints a directory tree with file and directory sizes. This project
models how the tree is built and drawn, from `src/fs/erdtree/tree/mod.rs`:

- **Collecting** (`Tree::traverse`). A consumer receives the walker's entry
  records one at a time. The depth-0 directory is kept as the root. Every other
  record is filed in a `Branches` map under its parent directory's path
  (`Aggregation.Collect`, proved against the fold `Aggregation.Aggregate`).
- **Assembling** (`Tree::assemble_tree`). Starting from the root, a node's
  pending children are taken out of the map. Every directory child is assembled
  in the same way. The children's sizes are added up and become the node's size
  when the total is positive. The children are sorted when a comparator is
  configured (`Assembly.AssembleTree`, proved against `Assembly.Assemble`).
- **Drawing** (`Display for Tree`). The output is the root's line, then each
  child with `├─` (last child: `└─`) after its parent's prefix. The walk goes
  into a directory child only while the child's depth plus one is within the
  limit (`Rendering.Traverse` and `Rendering.Fmt`, proved against
  `Rendering.Render`).
- **The tree** (`Tree::new`, `Tree::root`). `ErdTree.New` runs the two stages
  and returns a result equal to `ErdTree.Build`. `Tree.Root` is the root
  accessor.

`Node` is a value. Rust moves nodes into the map and then into their
parent's child vector, so no node is shared. The `&mut` updates of
`assemble_tree` become methods that return the new node and the new map.

Modules: `Wrappers` (Option, Result), `Nodes` (the entry record,
`parent_path_buf`, comparators), `Sorting` (`sort_by`), `Aggregation`,
`Assembly`, `Rendering`, `ErdTree` (the `Tree` type and end-to-end lemmas).

Three consequences of the code:

- When a record arrives before its parent directory, the code registers the
  parent's path with an **empty** list and drops the record (lines 89-95). So a
  record is lost when it arrives before its parent
  (`Aggregation.ChildFirstExample`). No record is lost when parents come first
  (`Aggregation.KeptAllWhenParentsFirst`).
- `ExpectedParent` is raised only for a non-root record whose path has no
  parent at all (lines 85-87). A record whose parent was never seen does not
  raise it: that record is dropped.
- A depth limit of 0 still lists the root's children, just as a limit of 1
  does. The root's children are drawn before any depth test
  (`Rendering.DepthLimitExample`, `Rendering.RenderDepthBound`).

## Model

| member | source | states |
|---|---|---|
| Rendering.GlyphFacts | src/fs/erdtree/tree/mod.rs:19-29 | The four glyph strings are pairwise distinct; `└─`, `├─` and `│` each take 12 characters including their colour escapes, and the blank padding 3 |
| ErdTree.New | src/fs/erdtree/tree/mod.rs:46-50 | Constructing a tree gives exactly the collected-then-assembled outcome `Build`: the same error, or a tree holding the limit, the order and the assembled root |
| ErdTree.BuildFailure | src/fs/erdtree/tree/mod.rs:46-50 | A build fails with `ExpectedParent` iff some record other than a depth-0 directory has no parent path, and with `MissingRoot` iff no record is such an orphan and none is a depth-0 directory |
| ErdTree.BuildSuccess | src/fs/erdtree/tree/mod.rs:117-121 | A successful build's root is the last depth-0 directory received, assembled: at every level the children attach to their parent, files have no children, a positive total of the children's sizes is the node's size (the zero-total case, which keeps the received size, is stated per step by `Assembly.AssembleDrains`) and, with a comparator, children are sorted |
| ErdTree.BuildRootChildren | src/fs/erdtree/tree/mod.rs:117-121 | The built root's children are the records kept under the root's path, each resolved (files as received, directories assembled), as a permutation that is the identity without a comparator; when parents arrive before their children, those are all records naming the root as parent |
| ErdTree.BuildRendersPreorder | src/fs/erdtree/tree/mod.rs:159-214 | With no depth limit, the display of a built tree shows every node of the tree once, in pre-order |
| ErdTree.WellAssembledLeaves | src/fs/erdtree/tree/mod.rs:139-144 | In an assembled tree only directories carry children, since only directories are assembled |
| ErdTree.ScenarioBuild | src/fs/erdtree/tree/mod.rs:62-156 | Worked example: a root holding a 10-byte file `a` and a directory `b` with a 5-byte file `c` builds to root size 15 and `b` size 5, and is drawn as root, `├─ a`, `└─ b`, blank indent plus `└─ c` |
| ErdTree.ScenarioAggregate | src/fs/erdtree/tree/mod.rs:71-100 | In that example, collection keeps the root and files `a`, `b` under the root and `c` under `b` |
| ErdTree.ScenarioAssemble | src/fs/erdtree/tree/mod.rs:126-156 | In that example, assembly gives `b` the child `c` and size 5, and the root children `a`, `b` and size 15 |
| ErdTree.ScenarioRender | src/fs/erdtree/tree/mod.rs:159-214 | In that example, the lines are the root, `├─ a`, `└─ b` and `c` under the blank indent with `└─` |
| ErdTree.Tree.Root | src/fs/erdtree/tree/mod.rs:53-55 | Defines the root accessor: the stored root node |
| ErdTree.Build | src/fs/erdtree/tree/mod.rs:46-50 | Defines the outcome of `Tree::new`: the collection's error, or a tree holding the limit, the order and the root assembled against the collected map |
| ErdTree.DepthsFromConsistent | src/fs/erdtree/tree/mod.rs:188 | In an assembled tree whose depths follow path lengths, every child is exactly one level deeper than its parent |
| ErdTree.BuildDepthBound | src/fs/erdtree/tree/mod.rs:162-188 | When every record's depth is its distance from the root, a built tree displayed with limit `D` shows no node deeper than `D`, or than 1 when `D` is 0 |
| ErdTree.Display | src/fs/erdtree/tree/mod.rs:159-214 | Displaying a tree writes the text of `Render` on its root with its depth limit |
| Nodes.ParentPath | src/fs/erdtree/tree/mod.rs:85-87 | A path has no parent exactly when it is empty; otherwise the parent is the path minus its last component |
| Aggregation.Receive | src/fs/erdtree/tree/mod.rs:72-95 | One received record fails iff it is a non-root record without a parent path, and then with `ExpectedParent`; a depth-0 directory becomes the root; the keys grow by the record's own path (directory) and its parent's path; a list grows by the record only when its parent's path was already a key |
| Aggregation.Run | src/fs/erdtree/tree/mod.rs:71-96 | Defines the loop's state after the records received so far: `Receive` applied to each in arrival order, stopping at the first failure |
| Aggregation.Aggregate | src/fs/erdtree/tree/mod.rs:71-100 | Defines the loop's outcome: its failure, `MissingRoot` when no root was kept, or the root and the map |
| Aggregation.Collect | src/fs/erdtree/tree/mod.rs:67-101 | The receive loop returns exactly `Aggregate` of the records in arrival order, including the early `ExpectedParent` exit and the final `MissingRoot` check |
| Aggregation.RunFailure | src/fs/erdtree/tree/mod.rs:85-87 | The loop fails iff some record is an orphan, and then always with `ExpectedParent` |
| Aggregation.RunRoot | src/fs/erdtree/tree/mod.rs:79-82 | When the loop succeeds, the root slot holds the last depth-0 directory received |
| Aggregation.LastRootIsRootDir | src/fs/erdtree/tree/mod.rs:98 | The last root, when there is one, is a depth-0 directory among the records; there is none iff no record is a depth-0 directory |
| Aggregation.RunKeys | src/fs/erdtree/tree/mod.rs:72-95 | When the loop succeeds, the keys are exactly the paths of received directories and the parent paths of received non-root records |
| Aggregation.RunLists | src/fs/erdtree/tree/mod.rs:89-95 | When the loop succeeds, each key holds the records `Kept` names: those attaching to it that arrived after it became a key, in arrival order |
| Aggregation.KeptUnregistered | src/fs/erdtree/tree/mod.rs:93-95 | Nothing is kept under a path no record registered |
| Aggregation.KeptAttaches | src/fs/erdtree/tree/mod.rs:89-91 | Every record kept under a path names that path as its parent and was received |
| Aggregation.AggregateOutcome | src/fs/erdtree/tree/mod.rs:71-100 | The loop's outcome in full: the two error conditions as iffs, and on success the last root, the exact key set, the exact lists, and every listed record received and attaching to its key |
| Aggregation.AggregateMembers | src/fs/erdtree/tree/mod.rs:89-91 | On success every listed record attaches to its key and is one of the records received |
| Aggregation.RunFailsOnOrphan | src/fs/erdtree/tree/mod.rs:85-87 | An orphan anywhere in the stream makes the whole collection fail with `ExpectedParent` |
| Aggregation.KeptAllWhenParentsFirst | src/fs/erdtree/tree/mod.rs:89-95 | When every record's parent directory arrives before it, each list holds all the records attaching to its key, in arrival order |
| Aggregation.ParentsFirstExample | src/fs/erdtree/tree/mod.rs:89-91 | Parents first: `r/a` is filed under `r` and `r/a/f` under `r/a` |
| Aggregation.ChildFirstExample | src/fs/erdtree/tree/mod.rs:93-95 | Child first: both records are dropped and only empty lists remain under `r` and `r/a` |
| Sorting.SortBy | src/fs/erdtree/tree/mod.rs:149-154 | Sorting returns a permutation of the children |
| Sorting.SortBySorted | src/fs/erdtree/tree/mod.rs:149-154 | With a total preorder as comparator, no child is followed by a smaller one after sorting |
| Sorting.SortByStable | src/fs/erdtree/tree/mod.rs:149-154 | Sorting is stable: children the comparator calls equal keep their arrival order |
| Sorting.InsertSorted | src/fs/erdtree/tree/mod.rs:153 | Inserting into a sorted sequence keeps it sorted |
| Sorting.InsertStable | src/fs/erdtree/tree/mod.rs:153 | Insertion does not reorder equal elements |
| Assembly.Arrange | src/fs/erdtree/tree/mod.rs:149-154 | The children after the optional sort are a permutation of those before |
| Assembly.Assemble | src/fs/erdtree/tree/mod.rs:126-156 | Assembly only removes entries from the map, never adds or changes one, and keeps the node's path, depth and kind |
| Assembly.AssembleKids | src/fs/erdtree/tree/mod.rs:136-145 | Assembling the siblings in turn keeps their number and only drains the map |
| Assembly.AssembleTree | src/fs/erdtree/tree/mod.rs:126-156 | The recursive procedure with its running `dir_size` returns exactly `Assemble`'s node and remaining map |
| Assembly.AssembleDrains | src/fs/erdtree/tree/mod.rs:127-154 | A node whose path is not a key is returned unchanged with the map unchanged. Otherwise the key is removed. The children are a permutation of the removed list, files untouched, directories assembled, stably sorted by the comparator when one is given and in arrival order without. The size is the children's total when positive |
| Assembly.AssembleKidsResolved | src/fs/erdtree/tree/mod.rs:139-144 | Position by position the assembled siblings are the same entries: files untouched, directories assembled against what was left of the map at their turn |
| Nodes.SizeOf | src/fs/erdtree/tree/mod.rs:143 | Defines a node's contribution to its parent's total: its size, zero when unknown |
| Assembly.SumSizes | src/fs/erdtree/tree/mod.rs:134-143 | Defines the children's total size, starting from zero |
| Assembly.SumSizesArrange | src/fs/erdtree/tree/mod.rs:143-154 | The children's total size is the same before and after sorting |
| Assembly.SumSizesCons | src/fs/erdtree/tree/mod.rs:143 | The total of a list is its first size plus the total of the rest |
| Assembly.SumSizesInsert | src/fs/erdtree/tree/mod.rs:143 | Inserting a node adds exactly its size to the total |
| Assembly.AssembleWell | src/fs/erdtree/tree/mod.rs:126-156 | Assembling an unassembled root against the collected map yields a well-assembled tree at every depth |
| Assembly.AssembleDepths | src/fs/erdtree/tree/mod.rs:126-156 | Assembly moves records without changing them: when every record's depth is its path length minus `c`, so is every node's in the assembled tree |
| Assembly.AssembleKidsDepths | src/fs/erdtree/tree/mod.rs:136-145 | The sibling-level partner of `AssembleDepths` |
| Assembly.AssembleKidsWell | src/fs/erdtree/tree/mod.rs:136-145 | Each assembled sibling attaches to the parent, is a directory or childless, and is itself well assembled |
| Rendering.Render | src/fs/erdtree/tree/mod.rs:208-211 | The output starts with the root's own line, without prefix |
| Rendering.ExtendOutput | src/fs/erdtree/tree/mod.rs:165-168 | One line is appended: the prefix, the node's display, a line break |
| Rendering.Traverse | src/fs/erdtree/tree/mod.rs:170-206 | The look-ahead loop appends exactly the text of `SiblingLines` for the children under the base prefix |
| Rendering.Fmt | src/fs/erdtree/tree/mod.rs:160-213 | The whole output is the text of `Render`: the root's line, then its children's lines |
| Rendering.TextAppend | src/fs/erdtree/tree/mod.rs:166-167 | The text of joined line sequences is the joined text |
| Rendering.SiblingText | src/fs/erdtree/tree/mod.rs:174-202 | The text from one child on is that child's line and subtree, then the rest |
| Rendering.SiblingPrefixes | src/fs/erdtree/tree/mod.rs:178-196 | Every line drawn under a base prefix starts with that prefix, is at least one connector's width longer, and ends in `└─` or `├─` |
| Rendering.ConnectorEnds | src/fs/erdtree/tree/mod.rs:178-184 | A child's prefix is the base followed by exactly one connector, `└─` or `├─` |
| Rendering.Connector | src/fs/erdtree/tree/mod.rs:178-184 | Defines a child's own prefix: the base, then `└─` for the last child and `├─` otherwise |
| Rendering.Indent | src/fs/erdtree/tree/mod.rs:190-196 | Defines the prefix handed to a directory child's children: the base, then the blank padding after the last child and `│` otherwise |
| Rendering.WithinLimit | src/fs/erdtree/tree/mod.rs:162 | Defines the depth test: no limit admits every depth, a limit `D` admits depths up to `D` |
| Rendering.Descends | src/fs/erdtree/tree/mod.rs:188 | Defines when the walk goes below a child: it is a directory and its depth plus one passes the depth test |
| Rendering.SiblingLines | src/fs/erdtree/tree/mod.rs:171-206 | Defines the lines drawn for a node's children from one position on: each child's line, then its own children's lines if the walk descends, then the later siblings |
| Rendering.AppendChild | src/fs/erdtree/tree/mod.rs:174-202 | Writing the children from one position on is writing that child's line, then its subtree when the walk descends, then the later siblings |
| Rendering.SiblingConnectors | src/fs/erdtree/tree/mod.rs:175-186 | At the children's own prefix width there is exactly one line per child, in stored order, `└─` for the last and `├─` for every other |
| Rendering.RootChildrenListed | src/fs/erdtree/tree/mod.rs:208-211 | Whatever the limit, every child of the root gets its own top-level line with the right connector |
| Rendering.SiblingDepths | src/fs/erdtree/tree/mod.rs:188 | With consistent depths, below a node no line shows a node deeper than the limit or than that node's children |
| Rendering.RenderDepthBound | src/fs/erdtree/tree/mod.rs:162-188 | With consistent depths, no line shows a node deeper than the limit, or than 1 when the limit is 0 |
| Rendering.DepthLimitExample | src/fs/erdtree/tree/mod.rs:188 | Limits 0 and 1 both show the root and its child; limit 2 also shows the grandchild under the blank indent |
| Rendering.SiblingPreorder | src/fs/erdtree/tree/mod.rs:171-206 | Without a limit and with childless files, the nodes drawn for the children are their subtrees in pre-order |
| Rendering.RenderUnlimitedIsPreorder | src/fs/erdtree/tree/mod.rs:159-214 | Without a limit and with childless files, the output lists the tree's nodes exactly in pre-order |

## Left out

- The walker (`WalkParallel`, the per-entry callback, `Node::from`) and the channel and threads (lines 63-67, 102-117): the records received are a parameter, in whatever order they arrived. The order among worker threads is not modelled.
- Panics from `tx.send(..).unwrap()` and `join().unwrap()`: neither is modelled.
- The node type's own code (`parent_path_buf`, `is_dir`, `set_children`, its `Display`) is not part of this model. A path is a sequence of components, and its parent is the sequence minus the last component (`Nodes.ParentPath`). A node's display is a parameter `name`.
- `Order` and `Order::comparator` are not part of this model: the ordering policy is an optional comparator. Sortedness and stability are proved for comparators that are total preorders, which is what `sort_by` assumes of them.
- Sorting.SortBy: modelled as a stable insertion sort, not Rust's merge sort. Both are stable sorts, so they agree for a total-preorder comparator. That uniqueness is not proved here.
- ErdTree.BuildDepthBound: assumes the walker gives each record its distance from the traversal root as its depth (path length minus the root's). The walker is not part of this model, so this is a precondition.
- Sizes and depths are unbounded: the `u64` total of `dir_size` and the `usize` sum `depth + 1` (with `usize::MAX` standing for "no limit") are not modelled as wrapping.
- In-place mutation through `&mut` (lines 119, 126-154) is modelled on values: `AssembleTree` returns the new node and the new map. Rust's ownership rules out aliasing, so the values are the same as the mutated objects.
- The `Formatter` and `write!` (line 213): the output string is returned. Its text is the model of what is written.
- The `HashMap` iteration order plays no part: the map is only queried by key and drained.
