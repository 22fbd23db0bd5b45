/** The graph description the builder fills in: the part of a graphviz
    `Digraph` it uses. A digraph records, in order, one node statement per
    `node` call and one edge statement per `edge` call; it does not merge
    statements that name the same node. */
module Digraphs {

  /** A node statement: the node's name and its label. */
  datatype NodeEntry = NodeEntry(id: int, text: string)

  /** An edge statement, from the tail node's name to the head node's name. */
  datatype Edge = Edge(src: int, dst: int)

  class Digraph {
    const comment: string
    var nodes: seq<NodeEntry>
    var edges: seq<Edge>

    /** `graphviz.Digraph(comment=...)`: an empty graph. */
    constructor (comment: string)
      ensures this.comment == comment
      ensures nodes == [] && edges == []
    {
      this.comment := comment;
      nodes := [];
      edges := [];
    }

    /** `dot.node(name, label)`: appends one node statement and nothing else. */
    method AddNode(id: int, text: string)
      modifies this
      ensures nodes == old(nodes) + [NodeEntry(id, text)]
      ensures edges == old(edges)
    {
      nodes := nodes + [NodeEntry(id, text)];
    }

    /** `dot.edge(tail, head)`: appends one edge statement and nothing else. */
    method AddEdge(src: int, dst: int)
      modifies this
      ensures edges == old(edges) + [Edge(src, dst)]
      ensures nodes == old(nodes)
    {
      edges := edges + [Edge(src, dst)];
    }
  }
}
