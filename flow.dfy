/** `generate_cfg`: the flow-diagram builder. It walks the whole syntax tree
    breadth-first and, for every function definition, `if`, `while` and `for`
    it meets, adds one node for the construct and one node and one edge per
    statement directly in its body (and, for an `if`, in its `else` branch).
    Every other node is walked through and adds nothing. A graph node is named
    by the identity of the syntax node it comes from.

    The result is not a control-flow graph: no statement nested deeper is
    linked to the construct, no edge returns to a loop header and no node
    merges the branches of an `if`. A nested construct's own edges leave the
    same name as the statement node its parent drew for it
    (NestedConstructTwice), so the named graph reaches as deep as constructs
    are nested. */
module Flow {
  import opened Syntax
  import opened Traversal
  import opened Digraphs

  /** The kinds the builder draws: function definitions, ifs, whiles, fors. */
  predicate IsConstruct(n: Node) {
    !n.Other?
  }

  /** The statements of an `if`'s `else` branch. The `else` branch of a
      `while` or a `for` is walked but never linked, so it counts for nothing
      here. */
  function ElseLinked(n: Node): seq<Node> {
    if n.If? then n.orelse else []
  }

  /** The statements a construct links to: its body, followed for an `if` by
      its `else` branch. */
  function Linked(n: Node): seq<Node> {
    if IsConstruct(n) then n.body + ElseLinked(n) else []
  }

  /** The label of a construct's own node. */
  function ConstructLabel(n: Node): string
    requires IsConstruct(n)
  {
    match n
    case FunctionDef(_, _, name, _, _, _) => "Function: " + name
    case If(_, _, test, _, _) => "If Condition: " + test.dump
    case While(_, _, test, _, _) => "While Loop: " + test.dump
    case For(_, _, target, _, _, _) => "For Loop: " + target.dump
  }

  /** The prefix of the label of the `k`-th statement a construct links to:
      statements of an `if`'s `else` branch are told apart from the others. */
  function ChildPrefix(n: Node, k: nat): string {
    if n.If? && k >= |n.body| then "Else Statement: " else "Statement: "
  }

  /** The node statements for a run of statements: one per statement, in
      order, named by the statement and labelled with its dump. */
  function StatementEntries(prefix: string, stmts: seq<Node>): (r: seq<NodeEntry>)
    ensures |r| == |stmts|
  {
    if stmts == [] then []
    else [NodeEntry(stmts[0].id, prefix + stmts[0].dump)] + StatementEntries(prefix, stmts[1..])
  }

  /** The edge statements for a run of statements: one per statement, in
      order, from `src` to the statement. */
  function StatementEdges(src: int, stmts: seq<Node>): (r: seq<Edge>)
    ensures |r| == |stmts|
  {
    if stmts == [] then []
    else [Edge(src, stmts[0].id)] + StatementEdges(src, stmts[1..])
  }

  /** The `k`-th statement of a run gets the `k`-th node statement and the
      `k`-th edge statement. */
  lemma {:induction false} StatementAt(prefix: string, src: int, stmts: seq<Node>, k: int)
    requires 0 <= k < |stmts|
    ensures StatementEntries(prefix, stmts)[k] == NodeEntry(stmts[k].id, prefix + stmts[k].dump)
    ensures StatementEdges(src, stmts)[k] == Edge(src, stmts[k].id)
  {
    if k > 0 {
      StatementAt(prefix, src, stmts[1..], k - 1);
    }
  }

  /** Appending a statement to a run appends its node and edge statements. */
  lemma {:induction false} StatementsSnoc(prefix: string, src: int, stmts: seq<Node>, s: Node)
    ensures StatementEntries(prefix, stmts + [s]) == StatementEntries(prefix, stmts) + [NodeEntry(s.id, prefix + s.dump)]
    ensures StatementEdges(src, stmts + [s]) == StatementEdges(src, stmts) + [Edge(src, s.id)]
  {
    if stmts != [] {
      assert (stmts + [s])[1..] == stmts[1..] + [s];
      StatementsSnoc(prefix, src, stmts[1..], s);
    } else {
      assert stmts + [s] == [s];
    }
  }

  /** The node statements the builder adds when the walk reaches `n`: for a
      construct, its own node, then its body statements, then (for an `if`)
      its `else` statements; nothing for any other node. */
  function VisitEntries(n: Node): seq<NodeEntry> {
    if IsConstruct(n) then
      [NodeEntry(n.id, ConstructLabel(n))] + StatementEntries("Statement: ", n.body)
        + StatementEntries("Else Statement: ", ElseLinked(n))
    else []
  }

  /** The edge statements the builder adds when the walk reaches `n`. */
  function VisitEdges(n: Node): seq<Edge> {
    if IsConstruct(n) then StatementEdges(n.id, n.body) + StatementEdges(n.id, ElseLinked(n))
    else []
  }

  /** All node statements for the nodes visited in `order`. */
  function GraphEntries(order: seq<Node>): seq<NodeEntry> {
    if order == [] then [] else VisitEntries(order[0]) + GraphEntries(order[1..])
  }

  /** All edge statements for the nodes visited in `order`. */
  function GraphEdges(order: seq<Node>): seq<Edge> {
    if order == [] then [] else VisitEdges(order[0]) + GraphEdges(order[1..])
  }

  /** How many constructs `order` holds. */
  function ConstructCount(order: seq<Node>): nat {
    if order == [] then 0 else (if IsConstruct(order[0]) then 1 else 0) + ConstructCount(order[1..])
  }

  /** How many statements the constructs in `order` link to, in all. */
  function LinkedTotal(order: seq<Node>): nat {
    if order == [] then 0 else |Linked(order[0])| + LinkedTotal(order[1..])
  }

  // ---------------------------------------------------------------------
  // The builder

  /** `add_cfg_node`: adds a node named by the syntax node's identity and
      returns that name. */
  method AddCfgNode(dot: Digraph, node: Node, text: string) returns (nodeId: int)
    modifies dot
    ensures nodeId == node.id
    ensures dot.nodes == old(dot.nodes) + [NodeEntry(node.id, text)]
    ensures dot.edges == old(dot.edges)
  {
    nodeId := node.id;
    dot.AddNode(nodeId, text);
  }

  /** The `for stmt in ...` loop the builder runs over a body or an `else`
      branch: a node for each statement, then an edge to it from `parent`. */
  method AddStatements(dot: Digraph, parent: int, stmts: seq<Node>, prefix: string)
    modifies dot
    ensures dot.nodes == old(dot.nodes) + StatementEntries(prefix, stmts)
    ensures dot.edges == old(dot.edges) + StatementEdges(parent, stmts)
  {
    for i := 0 to |stmts|
      invariant dot.nodes == old(dot.nodes) + StatementEntries(prefix, stmts[..i])
      invariant dot.edges == old(dot.edges) + StatementEdges(parent, stmts[..i])
    {
      var stmt := stmts[i];
      var stmtNode := AddCfgNode(dot, stmt, prefix + stmt.dump);
      dot.AddEdge(parent, stmtNode);
      assert stmts[..i + 1] == stmts[..i] + [stmt];
      StatementsSnoc(prefix, parent, stmts[..i], stmt);
    }
    assert stmts[..|stmts|] == stmts;
  }

  /** One iteration of the builder's loop: what it adds for the node the
      walk yields, dispatching on the node's kind. */
  method VisitNode(dot: Digraph, node: Node)
    modifies dot
    ensures dot.nodes == old(dot.nodes) + VisitEntries(node)
    ensures dot.edges == old(dot.edges) + VisitEdges(node)
  {
    ghost var nodes0, edges0 := dot.nodes, dot.edges;
    match node {
      case FunctionDef(id, _, name, _, body, _) =>
        var funcNode := AddCfgNode(dot, node, "Function: " + name);
        AddStatements(dot, funcNode, body, "Statement: ");
        AppendAssoc(nodes0, [NodeEntry(id, ConstructLabel(node))], StatementEntries("Statement: ", body));
        assert VisitEntries(node) == [NodeEntry(id, ConstructLabel(node))] + StatementEntries("Statement: ", body);
        assert VisitEdges(node) == StatementEdges(id, body);
      case If(id, _, test, body, orelse) =>
        var ifNode := AddCfgNode(dot, node, "If Condition: " + test.dump);
        AddStatements(dot, ifNode, body, "Statement: ");
        AddStatements(dot, ifNode, orelse, "Else Statement: ");
        var head := [NodeEntry(id, ConstructLabel(node))];
        AppendAssoc(nodes0, head, StatementEntries("Statement: ", body));
        AppendAssoc(nodes0, head + StatementEntries("Statement: ", body), StatementEntries("Else Statement: ", orelse));
        AppendAssoc(edges0, StatementEdges(id, body), StatementEdges(id, orelse));
      case While(id, _, test, body, _) =>
        var whileNode := AddCfgNode(dot, node, "While Loop: " + test.dump);
        AddStatements(dot, whileNode, body, "Statement: ");
        AppendAssoc(nodes0, [NodeEntry(id, ConstructLabel(node))], StatementEntries("Statement: ", body));
        assert VisitEntries(node) == [NodeEntry(id, ConstructLabel(node))] + StatementEntries("Statement: ", body);
        assert VisitEdges(node) == StatementEdges(id, body);
      case For(id, _, target, _, body, _) =>
        var forNode := AddCfgNode(dot, node, "For Loop: " + target.dump);
        AddStatements(dot, forNode, body, "Statement: ");
        AppendAssoc(nodes0, [NodeEntry(id, ConstructLabel(node))], StatementEntries("Statement: ", body));
        assert VisitEntries(node) == [NodeEntry(id, ConstructLabel(node))] + StatementEntries("Statement: ", body);
        assert VisitEdges(node) == StatementEdges(id, body);
      case Other(_, _, _) =>
    }
  }

  /** `generate_cfg` on an already parsed tree: the graph holds, in walk
      order, what each visited node contributes. */
  method GenerateCfg(tree: Node) returns (dot: Digraph)
    ensures fresh(dot) && dot.comment == "Control Flow Graph"
    ensures dot.nodes == GraphEntries(Walk([tree]))
    ensures dot.edges == GraphEdges(Walk([tree]))
  {
    dot := new Digraph("Control Flow Graph");
    var order := AstWalk(tree);
    for i := 0 to |order|
      invariant dot.nodes == GraphEntries(order[..i])
      invariant dot.edges == GraphEdges(order[..i])
    {
      VisitNode(dot, order[i]);
      GraphSnoc(order, i);
    }
    assert order[..|order|] == order;
  }

  // ---------------------------------------------------------------------
  // What one visit contributes

  /** A construct adds its own node first and as many further nodes and
      edges as it links statements; any other node adds nothing. */
  lemma VisitHead(n: Node)
    ensures !IsConstruct(n) ==> VisitEntries(n) == [] && VisitEdges(n) == []
    ensures IsConstruct(n) ==>
      |VisitEntries(n)| == 1 + |Linked(n)| &&
      VisitEntries(n)[0] == NodeEntry(n.id, ConstructLabel(n))
    ensures |VisitEdges(n)| == |Linked(n)|
  {
  }

  /** The node statement and the edge statement a construct adds for its
      `k`-th linked statement. */
  lemma LinkedEntry(n: Node, k: int)
    requires 0 <= k < |Linked(n)|
    ensures IsConstruct(n) && |VisitEntries(n)| == 1 + |Linked(n)| && |VisitEdges(n)| == |Linked(n)|
    ensures VisitEntries(n)[1 + k] == NodeEntry(Linked(n)[k].id, ChildPrefix(n, k) + Linked(n)[k].dump)
    ensures VisitEdges(n)[k] == Edge(n.id, Linked(n)[k].id)
  {
    assert IsConstruct(n);
    var b, e := n.body, ElseLinked(n);
    assert Linked(n) == b + e;
    if k < |b| {
      StatementAt("Statement: ", n.id, b, k);
      assert Linked(n)[k] == b[k];
    } else {
      StatementAt("Else Statement: ", n.id, e, k - |b|);
      assert Linked(n)[k] == e[k - |b|];
    }
  }

  /** A construct adds its own node first, then one node per linked
      statement in order, and one edge per linked statement, from the
      construct to that statement; any other node adds nothing. */
  lemma VisitShape(n: Node)
    ensures !IsConstruct(n) ==> VisitEntries(n) == [] && VisitEdges(n) == []
    ensures IsConstruct(n) ==>
      |VisitEntries(n)| == 1 + |Linked(n)| &&
      VisitEntries(n)[0] == NodeEntry(n.id, ConstructLabel(n))
    ensures forall k :: 0 <= k < |Linked(n)| ==>
      VisitEntries(n)[1 + k] == NodeEntry(Linked(n)[k].id, ChildPrefix(n, k) + Linked(n)[k].dump)
    ensures |VisitEdges(n)| == |Linked(n)|
    ensures forall k :: 0 <= k < |Linked(n)| ==> VisitEdges(n)[k] == Edge(n.id, Linked(n)[k].id)
  {
    VisitHead(n);
    forall k | 0 <= k < |Linked(n)|
      ensures VisitEntries(n)[1 + k] == NodeEntry(Linked(n)[k].id, ChildPrefix(n, k) + Linked(n)[k].dump)
      ensures VisitEdges(n)[k] == Edge(n.id, Linked(n)[k].id)
    {
      LinkedEntry(n, k);
    }
  }

  /** A function definition with N body statements adds 1 + N nodes and N
      edges, every edge from the function to a body statement, in body order. */
  lemma FunctionDefShape(n: Node)
    requires n.FunctionDef?
    ensures |VisitEntries(n)| == 1 + |n.body| && |VisitEdges(n)| == |n.body|
    ensures VisitEntries(n)[0] == NodeEntry(n.id, "Function: " + n.name)
    ensures forall k :: 0 <= k < |n.body| ==>
      VisitEntries(n)[1 + k] == NodeEntry(n.body[k].id, "Statement: " + n.body[k].dump) &&
      VisitEdges(n)[k] == Edge(n.id, n.body[k].id)
  {
    VisitHead(n);
    assert Linked(n) == n.body;
    forall k | 0 <= k < |n.body|
      ensures VisitEntries(n)[1 + k] == NodeEntry(n.body[k].id, "Statement: " + n.body[k].dump)
      ensures VisitEdges(n)[k] == Edge(n.id, n.body[k].id)
    {
      LinkedEntry(n, k);
    }
  }

  /** An `if` with A statements in its body and B in its `else` branch adds
      1 + A + B nodes and A + B edges, all from the `if`; the `else`
      statements come last and carry their own label prefix. */
  lemma IfShape(n: Node)
    requires n.If?
    ensures |VisitEntries(n)| == 1 + |n.body| + |n.orelse|
    ensures |VisitEdges(n)| == |n.body| + |n.orelse|
    ensures VisitEntries(n)[0] == NodeEntry(n.id, "If Condition: " + n.test.dump)
    ensures forall k :: 0 <= k < |n.body| ==>
      VisitEntries(n)[1 + k] == NodeEntry(n.body[k].id, "Statement: " + n.body[k].dump) &&
      VisitEdges(n)[k] == Edge(n.id, n.body[k].id)
    ensures forall k :: 0 <= k < |n.orelse| ==>
      VisitEntries(n)[1 + |n.body| + k] == NodeEntry(n.orelse[k].id, "Else Statement: " + n.orelse[k].dump) &&
      VisitEdges(n)[|n.body| + k] == Edge(n.id, n.orelse[k].id)
  {
    VisitHead(n);
    var b, e := n.body, n.orelse;
    assert Linked(n) == b + e;
    forall k | 0 <= k < |b|
      ensures VisitEntries(n)[1 + k] == NodeEntry(b[k].id, "Statement: " + b[k].dump)
      ensures VisitEdges(n)[k] == Edge(n.id, b[k].id)
    {
      LinkedEntry(n, k);
      assert Linked(n)[k] == b[k] && ChildPrefix(n, k) == "Statement: ";
    }
    forall k | 0 <= k < |e|
      ensures VisitEntries(n)[1 + |b| + k] == NodeEntry(e[k].id, "Else Statement: " + e[k].dump)
      ensures VisitEdges(n)[|b| + k] == Edge(n.id, e[k].id)
    {
      LinkedEntry(n, |b| + k);
      assert Linked(n)[|b| + k] == e[k] && ChildPrefix(n, |b| + k) == "Else Statement: ";
    }
  }

  /** A `while` with N body statements adds 1 + N nodes and N edges from the
      loop, labelled by its test; its `else` branch adds nothing, and when
      equal identities mean equal nodes no edge it adds leads back to the loop. */
  lemma WhileShape(n: Node)
    requires n.While?
    ensures |VisitEntries(n)| == 1 + |n.body| && |VisitEdges(n)| == |n.body|
    ensures VisitEntries(n)[0] == NodeEntry(n.id, "While Loop: " + n.test.dump)
    ensures forall k :: 0 <= k < |n.body| ==>
      VisitEntries(n)[1 + k] == NodeEntry(n.body[k].id, "Statement: " + n.body[k].dump) &&
      VisitEdges(n)[k] == Edge(n.id, n.body[k].id)
    ensures IdsIdentify(Subtree(n)) ==> forall e :: e in VisitEdges(n) ==> e.dst != n.id
  {
    LoopShape(n);
  }

  /** A `for` has the shape of a `while`, labelled by its target rather than
      by its iterable or a condition. */
  lemma ForShape(n: Node)
    requires n.For?
    ensures |VisitEntries(n)| == 1 + |n.body| && |VisitEdges(n)| == |n.body|
    ensures VisitEntries(n)[0] == NodeEntry(n.id, "For Loop: " + n.target.dump)
    ensures forall k :: 0 <= k < |n.body| ==>
      VisitEntries(n)[1 + k] == NodeEntry(n.body[k].id, "Statement: " + n.body[k].dump) &&
      VisitEdges(n)[k] == Edge(n.id, n.body[k].id)
    ensures IdsIdentify(Subtree(n)) ==> forall e :: e in VisitEdges(n) ==> e.dst != n.id
  {
    LoopShape(n);
  }

  /** What `while` and `for` have in common. */
  lemma LoopShape(n: Node)
    requires n.While? || n.For?
    ensures |VisitEntries(n)| == 1 + |n.body| && |VisitEdges(n)| == |n.body|
    ensures forall k :: 0 <= k < |n.body| ==>
      VisitEntries(n)[1 + k] == NodeEntry(n.body[k].id, "Statement: " + n.body[k].dump) &&
      VisitEdges(n)[k] == Edge(n.id, n.body[k].id)
    ensures IdsIdentify(Subtree(n)) ==> forall e :: e in VisitEdges(n) ==> e.dst != n.id
  {
    VisitHead(n);
    assert Linked(n) == n.body;
    forall k | 0 <= k < |n.body|
      ensures VisitEntries(n)[1 + k] == NodeEntry(n.body[k].id, "Statement: " + n.body[k].dump)
      ensures VisitEdges(n)[k] == Edge(n.id, n.body[k].id)
    {
      LinkedEntry(n, k);
    }
    if IdsIdentify(Subtree(n)) {
      forall e | e in VisitEdges(n) ensures e.dst != n.id {
        var k :| 0 <= k < |VisitEdges(n)| && VisitEdges(n)[k] == e;
        LinkedEntry(n, k);
        var c := LinkedChild(n, k);
        ChildIdDiffers(n, Children(n)[c]);
      }
    }
  }

  // ---------------------------------------------------------------------
  // The whole graph

  /** Visiting `a` and then `b` yields the graph of `a` followed by that of `b`. */
  lemma GraphAppend(a: seq<Node>, b: seq<Node>)
    ensures GraphEntries(a + b) == GraphEntries(a) + GraphEntries(b)
    ensures GraphEdges(a + b) == GraphEdges(a) + GraphEdges(b)
  {
    EntriesAppend(a, b);
    EdgesAppend(a, b);
  }

  lemma {:induction false} EntriesAppend(a: seq<Node>, b: seq<Node>)
    ensures GraphEntries(a + b) == GraphEntries(a) + GraphEntries(b)
  {
    if a == [] {
      assert a + b == b;
    } else {
      assert (a + b)[0] == a[0] && (a + b)[1..] == a[1..] + b;
      EntriesAppend(a[1..], b);
      AppendAssoc(VisitEntries(a[0]), GraphEntries(a[1..]), GraphEntries(b));
    }
  }

  lemma {:induction false} EdgesAppend(a: seq<Node>, b: seq<Node>)
    ensures GraphEdges(a + b) == GraphEdges(a) + GraphEdges(b)
  {
    if a == [] {
      assert a + b == b;
    } else {
      assert (a + b)[0] == a[0] && (a + b)[1..] == a[1..] + b;
      EdgesAppend(a[1..], b);
      AppendAssoc(VisitEdges(a[0]), GraphEdges(a[1..]), GraphEdges(b));
    }
  }

  /** Visiting one more node appends what that visit adds. */
  lemma GraphSnoc(order: seq<Node>, i: int)
    requires 0 <= i < |order|
    ensures GraphEntries(order[..i + 1]) == GraphEntries(order[..i]) + VisitEntries(order[i])
    ensures GraphEdges(order[..i + 1]) == GraphEdges(order[..i]) + VisitEdges(order[i])
  {
    assert order[..i + 1] == order[..i] + [order[i]];
    GraphAppend(order[..i], [order[i]]);
    assert GraphEntries([order[i]]) == VisitEntries(order[i]) + GraphEntries([]);
    assert GraphEdges([order[i]]) == VisitEdges(order[i]) + GraphEdges([]);
  }

  /** The graph has one node per visited construct plus one per statement
      those constructs link to, and one edge per such statement. */
  lemma {:induction false} GraphSizes(order: seq<Node>)
    ensures |GraphEdges(order)| == LinkedTotal(order)
    ensures |GraphEntries(order)| == ConstructCount(order) + LinkedTotal(order)
  {
    if order != [] {
      VisitHead(order[0]);
      GraphSizes(order[1..]);
    }
  }

  /** A visit order adds no node statement exactly when it holds no
      construct, and then it adds no edge either. */
  lemma {:induction false} NoConstructNoEntries(order: seq<Node>)
    ensures GraphEntries(order) == [] <==> forall x :: x in order ==> !IsConstruct(x)
    ensures GraphEntries(order) == [] ==> GraphEdges(order) == []
  {
    if order != [] {
      VisitHead(order[0]);
      NoConstructNoEntries(order[1..]);
      assert forall x :: x in order <==> x == order[0] || x in order[1..];
    }
  }

  /** A tree yields an empty graph exactly when it holds no function
      definition, `if`, `while` or `for`. */
  lemma EmptyGraphIffNoConstruct(tree: Node)
    ensures GraphEntries(Walk([tree])) == [] <==> forall x :: x in Subtree(tree) ==> !IsConstruct(x)
    ensures GraphEntries(Walk([tree])) == [] ==> GraphEdges(Walk([tree])) == []
  {
    var w := Walk([tree]);
    WalkCoversTree(tree);
    NoConstructNoEntries(w);
    assert forall x :: x in w <==> x in multiset(w);
    assert forall x :: x in Subtree(tree) <==> x in multiset(Subtree(tree));
  }

  /** Every edge statement is the `k`-th one added by the visit of the
      `i`-th node of `order`. */
  lemma EdgeFromVisit(order: seq<Node>, e: Edge) returns (i: int, k: int)
    requires e in GraphEdges(order)
    ensures 0 <= i < |order| && 0 <= k < |VisitEdges(order[i])| && VisitEdges(order[i])[k] == e
  {
    var p :| 0 <= p < |GraphEdges(order)| && GraphEdges(order)[p] == e;
    i, k := EdgeAt(order, p);
  }

  /** The edge statement at position `p` of the graph is the `k`-th one
      added by the visit of the `i`-th node of `order`. */
  lemma {:induction false} EdgeAt(order: seq<Node>, p: int) returns (i: int, k: int)
    requires 0 <= p < |GraphEdges(order)|
    ensures 0 <= i < |order| && 0 <= k < |VisitEdges(order[i])|
    ensures VisitEdges(order[i])[k] == GraphEdges(order)[p]
  {
    var head, rest := VisitEdges(order[0]), order[1..];
    assert GraphEdges(order) == head + GraphEdges(rest);
    if p < |head| {
      i, k := 0, p;
    } else {
      var p' := p - |head|;
      var i';
      i', k := EdgeAt(rest, p');
      i := i' + 1;
      assert order[i] == rest[i'];
      assert GraphEdges(order)[p] == GraphEdges(rest)[p'];
    }
  }

  /** Every node statement is the `m`-th one added by the visit of the
      `i`-th node of `order`. */
  lemma EntryFromVisit(order: seq<Node>, en: NodeEntry) returns (i: int, m: int)
    requires en in GraphEntries(order)
    ensures 0 <= i < |order| && 0 <= m < |VisitEntries(order[i])| && VisitEntries(order[i])[m] == en
  {
    var p :| 0 <= p < |GraphEntries(order)| && GraphEntries(order)[p] == en;
    i, m := EntryAt(order, p);
  }

  /** The node statement at position `p` of the graph is the `m`-th one
      added by the visit of the `i`-th node of `order`. */
  lemma {:induction false} EntryAt(order: seq<Node>, p: int) returns (i: int, m: int)
    requires 0 <= p < |GraphEntries(order)|
    ensures 0 <= i < |order| && 0 <= m < |VisitEntries(order[i])|
    ensures VisitEntries(order[i])[m] == GraphEntries(order)[p]
  {
    var head, rest := VisitEntries(order[0]), order[1..];
    assert GraphEntries(order) == head + GraphEntries(rest);
    if p < |head| {
      i, m := 0, p;
    } else {
      var p' := p - |head|;
      var i';
      i', m := EntryAt(rest, p');
      i := i' + 1;
      assert order[i] == rest[i'];
      assert GraphEntries(order)[p] == GraphEntries(rest)[p'];
    }
  }

  /** What a visit adds is part of the graph, its node statements as one
      contiguous block that starts after the blocks of the earlier visits. */
  lemma VisitInGraph(order: seq<Node>, i: int)
    requires 0 <= i < |order|
    ensures forall e :: e in VisitEdges(order[i]) ==> e in GraphEdges(order)
    ensures |GraphEntries(order[..i])| + |VisitEntries(order[i])| <= |GraphEntries(order)|
    ensures forall m :: 0 <= m < |VisitEntries(order[i])| ==>
      GraphEntries(order)[|GraphEntries(order[..i])| + m] == VisitEntries(order[i])[m]
  {
    assert order == order[..i] + ([order[i]] + order[i + 1..]);
    GraphAppend(order[..i], [order[i]] + order[i + 1..]);
    GraphAppend([order[i]], order[i + 1..]);
    assert GraphEntries([order[i]]) == VisitEntries(order[i]) + GraphEntries([]);
    assert GraphEdges([order[i]]) == VisitEdges(order[i]) + GraphEdges([]);
  }

  /** The `m`-th node statement of visit `i`, located in the graph. */
  lemma EntryInGraph(order: seq<Node>, i: int, m: int)
    requires 0 <= i < |order| && 0 <= m < |VisitEntries(order[i])|
    ensures |GraphEntries(order[..i])| + m < |GraphEntries(order)|
    ensures GraphEntries(order)[|GraphEntries(order[..i])| + m] == VisitEntries(order[i])[m]
  {
    VisitInGraph(order, i);
  }

  /** The block of a visit ends before the block of any later visit. */
  lemma BlocksInOrder(order: seq<Node>, i: int, j: int)
    requires 0 <= i < j <= |order|
    ensures |GraphEntries(order[..i])| + |VisitEntries(order[i])| <= |GraphEntries(order[..j])|
  {
    assert order[..j] == order[..i] + ([order[i]] + order[i + 1..j]);
    GraphAppend(order[..i], [order[i]] + order[i + 1..j]);
    GraphAppend([order[i]], order[i + 1..j]);
    assert GraphEntries([order[i]]) == VisitEntries(order[i]) + GraphEntries([]);
  }

  /** The edges are exactly the pairs (construct, statement it links to)
      over the constructs visited in `order`. */
  lemma EdgesLinkConstructToChild(order: seq<Node>)
    ensures forall e :: e in GraphEdges(order) <==>
      (exists i, k :: 0 <= i < |order| && 0 <= k < |Linked(order[i])| &&
        e == Edge(order[i].id, Linked(order[i])[k].id))
  {
    forall e | e in GraphEdges(order)
      ensures exists i, k :: (0 <= i < |order| && 0 <= k < |Linked(order[i])| &&
        e == Edge(order[i].id, Linked(order[i])[k].id))
    {
      var i, k := EdgeFromVisit(order, e);
      VisitHead(order[i]);
      LinkedEntry(order[i], k);
    }
    forall i, k | 0 <= i < |order| && 0 <= k < |Linked(order[i])|
      ensures Edge(order[i].id, Linked(order[i])[k].id) in GraphEdges(order)
    {
      LinkedEntry(order[i], k);
      VisitInGraph(order, i);
      assert VisitEdges(order[i])[k] in VisitEdges(order[i]);
    }
  }

  /** Where the `k`-th statement a construct links to sits among its
      children: after the test, the arguments or the loop target and
      iterable. */
  lemma LinkedChild(n: Node, k: int) returns (c: int)
    requires 0 <= k < |Linked(n)|
    ensures c == (if n.For? then 2 else 1) + k
    ensures 0 <= c < |Children(n)| && Children(n)[c] == Linked(n)[k]
  {
    c := if n.For? then k + 2 else k + 1;
    assert Linked(n) == n.body + ElseLinked(n);
  }

  /** In a tree where equal identities mean equal nodes, an edge that
      leaves a node of the tree leaves a construct and ends at a statement
      directly in that construct's body or in an `if`'s `else` branch:
      statements nested deeper are never linked to it. */
  lemma EdgeEndsAtImmediateStatement(tree: Node, p: Node, e: Edge)
    requires IdsIdentify(Subtree(tree)) && p in Subtree(tree)
    requires e in GraphEdges(Walk([tree])) && e.src == p.id
    ensures IsConstruct(p)
    ensures exists s :: s in Linked(p) && s.id == e.dst
  {
    var w := Walk([tree]);
    var i, k := EdgeFromVisit(w, e);
    var n := w[i];
    VisitHead(n);
    LinkedEntry(n, k);
    InWalkIffInTree(tree, n);
    assert n in Subtree(tree) && n.id == p.id;
    assert Linked(p)[k] in Linked(p);
  }

  /** Every node statement is named by a node of the tree and labelled from
      that same node: by its construct label, or by its dump as a linked
      statement. */
  lemma {:induction false} EntryNamesItsNode(tree: Node, en: NodeEntry)
    requires en in GraphEntries(Walk([tree]))
    ensures exists x :: (x in Subtree(tree) && en.id == x.id &&
      ((IsConstruct(x) && en.text == ConstructLabel(x)) ||
       en.text == "Statement: " + x.dump || en.text == "Else Statement: " + x.dump))
  {
    var i, m := EntryFromVisit(Walk([tree]), en);
    var x := VisitEntryInTree(tree, i, m);
  }

  /** The `m`-th node statement added by the `i`-th visit of the walk names
      a node of the tree and is labelled from it. */
  lemma VisitEntryInTree(tree: Node, i: int, m: int) returns (x: Node)
    requires 0 <= i < |Walk([tree])| && 0 <= m < |VisitEntries(Walk([tree])[i])|
    ensures x in Subtree(tree) && VisitEntries(Walk([tree])[i])[m].id == x.id
    ensures (IsConstruct(x) && VisitEntries(Walk([tree])[i])[m].text == ConstructLabel(x)) ||
      VisitEntries(Walk([tree])[i])[m].text == "Statement: " + x.dump ||
      VisitEntries(Walk([tree])[i])[m].text == "Else Statement: " + x.dump
  {
    var w := Walk([tree]);
    x := VisitEntryNames(w[i], m);
    var j := i;
    if m > 0 {
      j := LinkedInWalk(tree, i, w[i], m - 1);
    }
    assert w[j] == x;
    InWalkIffInTree(tree, x);
  }

  /** The walk yields every statement linked by a node it yields, at a
      later position. */
  lemma LinkedInWalk(tree: Node, i: int, p: Node, k: int) returns (j: int)
    requires 0 <= i < |Walk([tree])| && Walk([tree])[i] == p && 0 <= k < |Linked(p)|
    ensures i < j < |Walk([tree])| && Walk([tree])[j] == Linked(p)[k]
  {
    var c := LinkedChild(p, k);
    j := ChildAfterParent([tree], i, p, c);
  }

  /** The `m`-th node statement a visit adds names the visited node or a
      statement it links to, and is labelled from that node. */
  lemma VisitEntryNames(n: Node, m: int) returns (x: Node)
    requires 0 <= m < |VisitEntries(n)|
    ensures m == 0 ==> x == n
    ensures m > 0 ==> m - 1 < |Linked(n)| && x == Linked(n)[m - 1]
    ensures VisitEntries(n)[m].id == x.id
    ensures (IsConstruct(x) && VisitEntries(n)[m].text == ConstructLabel(x)) ||
      VisitEntries(n)[m].text == "Statement: " + x.dump ||
      VisitEntries(n)[m].text == "Else Statement: " + x.dump
  {
    VisitHead(n);
    x := n;
    if m > 0 {
      LinkedEntry(n, m - 1);
      x := Linked(n)[m - 1];
    }
  }

  /** A construct nested directly in another construct's body or in an
      `if`'s `else` branch is drawn twice under the same name: first as a
      linked statement when the walk reaches its parent, later under its own
      construct label. */
  lemma NestedConstructTwice(tree: Node, p: Node, k: int)
    requires p in Subtree(tree) && 0 <= k < |Linked(p)| && IsConstruct(Linked(p)[k])
    ensures exists a, b :: (0 <= a < b < |GraphEntries(Walk([tree]))| &&
      GraphEntries(Walk([tree]))[a] == NodeEntry(Linked(p)[k].id, ChildPrefix(p, k) + Linked(p)[k].dump) &&
      GraphEntries(Walk([tree]))[b] == NodeEntry(Linked(p)[k].id, ConstructLabel(Linked(p)[k])))
  {
    var w, c := Walk([tree]), Linked(p)[k];
    InWalkIffInTree(tree, p);
    var i :| 0 <= i < |w| && w[i] == p;
    var ci := LinkedChild(p, k);
    var j := ChildAfterParent([tree], i, p, ci);
    var a, b := |GraphEntries(w[..i])| + 1 + k, |GraphEntries(w[..j])|;
    LinkedEntry(p, k);
    VisitHead(c);
    EntryInGraph(w, i, 1 + k);
    EntryInGraph(w, j, 0);
    BlocksInOrder(w, i, j);
  }

  /** In a tree where equal identities mean equal nodes, every edge runs
      from a construct to a statement it links to, and nothing in that
      statement's subtree bears the construct's identity: no edge leads back
      into a loop header, or into any other node, from inside its body. */
  lemma NoEdgeBackToAncestor(tree: Node, e: Edge)
    requires IdsIdentify(Subtree(tree)) && e in GraphEdges(Walk([tree]))
    ensures exists p, s :: (p in Subtree(tree) && s in Linked(p) && e == Edge(p.id, s.id) &&
      forall d :: d in Subtree(s) ==> d.id != p.id)
  {
    var w := Walk([tree]);
    var i, k := EdgeFromVisit(w, e);
    var p := w[i];
    VisitHead(p);
    LinkedEntry(p, k);
    var s := Linked(p)[k];
    InWalkIffInTree(tree, p);
    var c := LinkedChild(p, k);
    forall d | d in Subtree(s)
      ensures d.id != p.id
    {
      BelowChildSmaller(p, s, d);
      TreeInForest(Children(p), s);
      assert Subtree(p) == [p] + Forest(Children(p));
      SubtreeWithin(tree, p, d);
    }
    assert s in Linked(p) && e == Edge(p.id, s.id);
  }
}
