# Flow diagram of a Python syntax tree

This project models `generate_cfg` from `main.py` of a small Python analyser.
The function takes the syntax tree of a module and describes a graphviz
`Digraph` from it. It walks the tree breadth-first with `ast.walk`. For every
function definition, `if`, `while` and `for` it meets, it adds:

- one node for the construct, labelled `Function: <name>`,
  `If Condition: <dump of the test>`, `While Loop: <dump of the test>` or
  `For Loop: <dump of the target>`;
- one node for each statement directly in the construct's body, labelled
  `Statement: <dump of the statement>`, and one edge from the construct to it;
- for an `if` only, the same for each statement of its `else` branch, labelled
  `Else Statement: <dump>`.

Every other node is walked through and adds nothing. A graph node is named by
the identity (`id`) of the syntax node it comes from. A construct nested in
another construct's body is therefore drawn twice under one name, and its own
edges leave that name: the named graph reaches as deep as constructs are
nested.

The model has four modules:

- `Syntax` (`syntax.dfy`) — the syntax tree as a datatype. Its variants are
  `FunctionDef`, `If`, `While`, `For` and `Other`. Each node carries an integer
  `id` standing for `id(node)` and an opaque `dump` string standing for
  `ast.dump(node)`. `Children` lists a node's children in the order
  `ast.iter_child_nodes` yields them. `Subtree` lists the nodes of a tree in
  pre-order: each node before its children, the children in
  `ast.iter_child_nodes` order. For a function definition that order puts the
  decorators and the return annotation after the body.
- `Traversal` (`traversal.dfy`) — `ast.walk` as the deque-driven loop it is
  (`AstWalk`), specified by the function `Walk`, with lemmas about the order it
  visits nodes in.
- `Digraphs` (`digraph.dfy`) — the graph description as a class whose `AddNode`
  and `AddEdge` methods (graphviz's `node` and `edge`) append to sequences of
  node statements and edge statements.
- `Flow` (`flow.dfy`) — the builder (`AddCfgNode`, `AddStatements`,
  `VisitNode`, `GenerateCfg`). Specification functions give what each visit
  adds (`VisitEntries`, `VisitEdges`) and what a whole visit order adds
  (`GraphEntries`, `GraphEdges`). Lemmas prove the counting, labelling and
  edge-shape properties of the result.

Where two nodes must be told apart by identity, the lemmas require
`IdsIdentify(Subtree(tree))`: two nodes of the tree with the same `id` are the
same node. This is what `id()` guarantees for the objects of one live tree. The
same node may still occur at several positions of the tree. The parser shares
one `Load`, `Store` or operator object among every place that uses it, and
`ast.walk` yields such a shared node once per place.

## Model

| member | source | states |
|---|---|---|
| Digraphs.Digraph.constructor | main.py:34 | A new digraph carries the given comment and has no node statements and no edge statements. |
| Digraphs.Digraph.AddNode | main.py:39 | `dot.node` appends exactly one node statement (name, label) and leaves the edge statements unchanged. |
| Digraphs.Digraph.AddEdge | main.py:48 | `dot.edge` appends exactly one edge statement (tail, head) and leaves the node statements unchanged. |
| Flow.AddCfgNode | main.py:37-40 | The returned name is the syntax node's identity. Exactly one node statement with that name and the given label is appended. The edges are untouched. |
| Flow.AddStatements | main.py:46-48 | The `for stmt in ...` loop appends one node statement per statement, in order, named by the statement and labelled prefix + its dump. It appends one edge per statement, from the parent to that statement. |
| Flow.StatementAt | main.py:46-48 | The k-th statement of a run gets the k-th node statement (its own id, prefix + its dump) and the k-th edge (parent to its id). |
| Flow.VisitNode | main.py:44-66 | One iteration of the builder's loop appends exactly `VisitEntries(node)` and `VisitEdges(node)`. The dispatch covers FunctionDef, If, While and For, and nothing is appended for any other node. |
| Flow.GenerateCfg | main.py:29-68 | The returned fresh digraph has comment "Control Flow Graph". Its node and edge statements are, in walk order, the concatenation of what each node visited by `ast.walk` contributes. |
| Flow.VisitShape | main.py:43-66 | A construct adds its own labelled node first, then one node per linked statement (body, then an `if`'s `else`) with its prefix and dump, and one edge per linked statement from the construct to it. Any other node adds nothing. |
| Flow.FunctionDefShape | main.py:44-48 | A function definition with N body statements adds 1 + N nodes and N edges. The first node is "Function: " + name. Node 1+k is "Statement: " + dump of body[k], and edge k runs from the function to body[k], in body order. |
| Flow.IfShape | main.py:49-56 | An `if` with A body and B `else` statements adds 1 + A + B nodes and A + B edges, all from the `if`. It is labelled "If Condition: " + dump of the test. Body statements come first with "Statement: ", then `else` statements with "Else Statement: ". An empty `else` adds nothing. |
| Flow.WhileShape | main.py:57-61 | A `while` with N body statements adds 1 + N nodes and N edges from the loop, labelled "While Loop: " + dump of the test. Its `else` branch adds nothing. When equal ids mean equal nodes (`IdsIdentify`), no edge it adds points back to the loop. |
| Flow.ForShape | main.py:62-66 | A `for` has the shape of a `while`. It is labelled "For Loop: " + dump of the target, not of the iterable. When equal ids mean equal nodes (`IdsIdentify`), no edge it adds points back to the loop. |
| Flow.LoopShape | main.py:57-66 | The shape shared by `while` and `for`: 1 + N nodes, N body edges in body order, and no edge back to the loop when equal ids mean equal nodes. |
| Flow.GraphSizes | main.py:43-66 | The number of edges is the total number of linked statements over the visited constructs (body lengths, plus `else` lengths for ifs). The number of nodes is the number of visited constructs plus that total. |
| Flow.NoConstructNoEntries | main.py:43-66 | A visit order adds no node statement exactly when it holds no construct, and then it adds no edge either. |
| Flow.EmptyGraphIffNoConstruct | main.py:43-66 | The graph of a tree has no node statement if and only if the tree holds no function definition, `if`, `while` or `for`. It then has no edge either. |
| Flow.EdgesLinkConstructToChild | main.py:43-66 | An edge is in the graph if and only if it runs from a visited construct to one of the statements it links to (its body, or an `if`'s `else` branch). |
| Flow.EdgeEndsAtImmediateStatement | main.py:43-66 | When equal ids mean equal nodes, an edge leaving a tree node leaves a construct and ends at a statement directly in its body or an `if`'s `else` branch, never at one nested deeper. |
| Flow.NoEdgeBackToAncestor | main.py:43-66 | When equal ids mean equal nodes, every edge runs from a construct p to a statement s that p links to, and no node in s's subtree has p's identity. No edge leads back into a loop header from inside its body. |
| Flow.EntryNamesItsNode | main.py:37-40 | Every node statement is named by the identity of a node of the tree and labelled from that same node: its construct label, or "Statement: "/"Else Statement: " + its dump. |
| Flow.VisitEntryNames | main.py:37-40 | The m-th node statement of one visit names the visited node (m = 0, construct label) or its (m-1)-th linked statement (prefixed dump). |
| Flow.NestedConstructTwice | main.py:43-56 | A construct directly in another construct's body or in an `if`'s `else` branch appears twice under the same name. It first appears as a prefixed statement node at an earlier position, and later as a node with its own construct label. |
| Flow.EdgeFromVisit | main.py:43-66 | Every edge of the graph is the k-th edge added by the visit of some node of the visit order. |
| Flow.EntryFromVisit | main.py:43-66 | Every node statement of the graph is the m-th one added by the visit of some node of the visit order. |
| Flow.EntryAt | main.py:43-66 | The node statement at position p of the graph is the m-th one added by the visit of the i-th node of the visit order. |
| Flow.EdgeAt | main.py:43-66 | The edge statement at position p of the graph is the k-th one added by the visit of the i-th node of the visit order. |
| Flow.VisitInGraph | main.py:43-66 | The node statements of the i-th visit form one contiguous block of the graph, starting after those of the earlier visits. Its edges are edges of the graph. |
| Flow.BlocksInOrder | main.py:43-66 | The block of node statements of a visit ends before the block of any later visit begins. |
| Flow.GraphAppend | main.py:43-66 | Visiting `a` then `b` yields the graph of `a` followed by the graph of `b`. |
| Flow.LinkedChild | main.py:44-66 | The k-th statement a construct links to is its child at position 2 + k for a `for` (after the target and the iterable) and 1 + k otherwise (after the arguments or the test). |
| Flow.LinkedInWalk | main.py:43-66 | Every statement linked by a node the walk yields is yielded by the walk too, at a later position. |
| Flow.VisitEntryInTree | main.py:37-40 | The m-th node statement of the i-th visit of the walk names a node of the tree and is labelled from that node. |
| Traversal.AstWalk | main.py:43 | The deque loop yields exactly `Walk([root])`. The root comes first, and the walk yields the tree's nodes, each as often as it occurs in the tree (multiset equality with the tree's pre-order). |
| Traversal.WalkVisitsForest | main.py:43 | From any queue, the walk yields the multiset of the nodes of the trees in the queue. |
| Traversal.WalkCoversTree | main.py:43 | The walk from one root yields the same multiset of nodes as the tree. |
| Traversal.InWalkIffInTree | main.py:43 | A node is yielded by the walk if and only if it is in the tree. |
| Traversal.UniqueNodeYieldedOnce | main.py:43 | A node that occurs once in the tree is yielded at exactly one position of the walk. |
| Traversal.ParentBeforeChildren | main.py:43 | Every child of a yielded node is yielded at a later position: parents come before their children. |
| Traversal.ChildAfterParent | main.py:43 | The k-th child of the node yielded at position i is yielded at some position j > i. |
| Traversal.QueuedAt | main.py:43 | Every node waiting in the deque is eventually yielded. |

## Left out

- `load_code` (main.py:12-17) reads a file. This is I/O.
- `save_cfg_image` (main.py:20-26) renders the graph with graphviz and writes an image. This is rendering and I/O.
- `visualize_memory_allocation` (main.py:70-85) does runtime introspection and plotting with gc, objgraph and matplotlib. It has no algorithm of its own.
- `illustrate_pointers` (main.py:88-111) runs `exec` on code and reads `id`/`sys.getrefcount`. These depend on live runtime state.
- `main` (main.py:114-134) is command-line plumbing: argv, file checks, `sys.exit`.
- `ast.parse` (main.py:33) is a foreign library call and is not modelled. `GenerateCfg` takes the already parsed tree, so a syntax error in the input is not modelled.
- `ast.dump` is a foreign library call. Each node carries its dump as an opaque string.
- `id(node)` is memory identity. It is modelled as an integer field on each node. What `id` guarantees within one live tree, that equal ids mean the same object, is stated as the `IdsIdentify` precondition where it matters.
- `str(id(node))`: node names are kept as the integer, not as its decimal text. Since that conversion is injective, equality of names is the same either way.
- The graphviz body keeps node statements and edge statements interleaved in one list. The model keeps them as two sequences, each in the order it was added. The relative order of a node statement and an edge statement is not captured.
- The DOT syntax and quoting of labels is not modelled.
- `AsyncFunctionDef` and `AsyncFor` are not instances of `ast.FunctionDef` and `ast.For`, so the builder treats them like every other node. The model represents them as `Other`.
- `generate_cfg` has no error path of its own; it fails only when `ast.parse` fails. The model has none.
- Merging node statements that share a name is left to the graphviz renderer, which is not modelled. `ast.walk` is breadth-first and reaches every node, so a construct nested in a body is drawn again under its own label and the same name (`Flow.NestedConstructTwice`). The model keeps both node statements.
- The fields of each node kind that the builder never reads (decorators, return annotations, type parameters) are modelled only as further children. They influence the walk order and nothing else.
