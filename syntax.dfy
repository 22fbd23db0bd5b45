/** The part of Python's abstract syntax tree that the flow-diagram builder
    inspects. Parsing is not modelled: a tree is given, already built.

    Every node carries `id`, standing for the object identity `id(node)` that
    the builder uses as the graph node name, and `dump`, standing for the text
    `ast.dump(node)` (treated as an opaque string). */
module Syntax {

  datatype Node =
    /** `def name(args): body`; `trailing` holds the decorators, the return
        annotation and the type parameters, the child nodes that follow the body */
    | FunctionDef(id: int, dump: string, name: string, args: Node, body: seq<Node>, trailing: seq<Node>)
    | If(id: int, dump: string, test: Node, body: seq<Node>, orelse: seq<Node>)
    | While(id: int, dump: string, test: Node, body: seq<Node>, orelse: seq<Node>)
    | For(id: int, dump: string, target: Node, iter: Node, body: seq<Node>, orelse: seq<Node>)
    /** every other statement, expression or auxiliary node (including
        `AsyncFunctionDef` and `AsyncFor`, which are not instances of
        `FunctionDef` and `For`) */
    | Other(id: int, dump: string, children: seq<Node>)

  /** The direct children of a node in the order `ast.iter_child_nodes`
      yields them: the node's fields in declaration order, lists flattened. */
  function Children(n: Node): seq<Node> {
    match n
    case FunctionDef(_, _, _, args, body, trailing) => [args] + body + trailing
    case If(_, _, test, body, orelse) => [test] + body + orelse
    case While(_, _, test, body, orelse) => [test] + body + orelse
    case For(_, _, target, iter, body, orelse) => [target, iter] + body + orelse
    case Other(_, _, children) => children
  }

  /** Number of nodes in the tree rooted at `n`. */
  function Size(n: Node): nat {
    match n
    case FunctionDef(_, _, _, args, body, trailing) => 1 + Size(args) + SizeOf(body) + SizeOf(trailing)
    case If(_, _, test, body, orelse) => 1 + Size(test) + SizeOf(body) + SizeOf(orelse)
    case While(_, _, test, body, orelse) => 1 + Size(test) + SizeOf(body) + SizeOf(orelse)
    case For(_, _, target, iter, body, orelse) => 1 + Size(target) + Size(iter) + SizeOf(body) + SizeOf(orelse)
    case Other(_, _, children) => 1 + SizeOf(children)
  }

  /** Number of nodes in a forest of trees. */
  function SizeOf(s: seq<Node>): nat {
    if s == [] then 0 else Size(s[0]) + SizeOf(s[1..])
  }

  lemma {:induction false} SizeOfAppend(a: seq<Node>, b: seq<Node>)
    ensures SizeOf(a + b) == SizeOf(a) + SizeOf(b)
  {
    if a != [] {
      assert (a + b)[1..] == a[1..] + b;
      SizeOfAppend(a[1..], b);
    } else {
      assert a + b == b;
    }
  }

  /** A node accounts for one unit of size, its children for the rest. */
  lemma SizeOfChildren(n: Node)
    ensures Size(n) == 1 + SizeOf(Children(n))
  {
    match n
    case FunctionDef(_, _, _, args, body, trailing) =>
      SizeOfAppend([args] + body, trailing);
      SizeOfAppend([args], body);
    case If(_, _, test, body, orelse) =>
      SizeOfAppend([test] + body, orelse);
      SizeOfAppend([test], body);
    case While(_, _, test, body, orelse) =>
      SizeOfAppend([test] + body, orelse);
      SizeOfAppend([test], body);
    case For(_, _, target, iter, body, orelse) =>
      SizeOfAppend([target, iter] + body, orelse);
      SizeOfAppend([target, iter], body);
      assert [target, iter][1..] == [iter];
    case Other(_, _, _) =>
  }

  /** The nodes of the tree rooted at `n` in pre-order: each node before its
      children, children in `ast.iter_child_nodes` order. */
  function Subtree(n: Node): seq<Node>
    decreases Size(n), 0
  {
    SizeOfChildren(n);
    [n] + Forest(Children(n))
  }

  /** The nodes of a forest, tree after tree, each in pre-order. */
  function Forest(s: seq<Node>): seq<Node>
    decreases SizeOf(s), 1
  {
    if s == [] then [] else Subtree(s[0]) + Forest(s[1..])
  }

  /** Nodes of `s` with the same identity are the same node: what `id(node)`
      guarantees within one parsed tree. The same node may still occur at
      several positions, as the parser shares one `Load`, `Store` or operator
      object among all the places that use it. */
  predicate IdsIdentify(s: seq<Node>) {
    forall x, y :: x in s && y in s && x.id == y.id ==> x == y
  }

  lemma {:induction false} ForestAppend(a: seq<Node>, b: seq<Node>)
    ensures Forest(a + b) == Forest(a) + Forest(b)
  {
    if a != [] {
      assert (a + b)[1..] == a[1..] + b;
      ForestAppend(a[1..], b);
    } else {
      assert a + b == b;
    }
  }

  /** Every tree of a forest contributes its root to the forest's nodes. */
  lemma {:induction false} RootsInForest(s: seq<Node>)
    ensures forall x :: x in s ==> x in Forest(s)
  {
    if s != [] {
      RootsInForest(s[1..]);
      assert Forest(s) == [s[0]] + Forest(Children(s[0])) + Forest(s[1..]);
    }
  }

  /** The nodes of a tree in a forest are nodes of the forest. */
  lemma {:induction false} TreeInForest(s: seq<Node>, t: Node)
    requires t in s
    ensures forall d :: d in Subtree(t) ==> d in Forest(s)
  {
    if s[0] != t {
      TreeInForest(s[1..], t);
    }
  }

  lemma SliceLeft(p: seq<Node>, q: seq<Node>, a: nat, len: nat)
    requires a + len <= |p|
    ensures (p + q)[a..a + len] == p[a..a + len]
  {
  }

  lemma SliceRight(p: seq<Node>, q: seq<Node>, a: nat, b: nat, len: nat)
    requires a == |p| + b && b + len <= |q|
    ensures (p + q)[a..a + len] == q[b..b + len]
  {
  }

  /** The nodes of a subtree form one contiguous run of the enclosing
      tree's nodes, starting at the returned position. */
  lemma {:induction false} SubtreeSlice(t: Node, x: Node) returns (a: nat)
    requires x in Subtree(t)
    ensures a + |Subtree(x)| <= |Subtree(t)| && Subtree(t)[a..a + |Subtree(x)|] == Subtree(x)
    decreases Size(t), 0
  {
    var f := Forest(Children(t));
    assert Subtree(t) == [t] + f;
    if x == t {
      a := 0;
      assert Subtree(t)[0..|Subtree(t)|] == Subtree(t);
    } else {
      assert x in f;
      SizeOfChildren(t);
      var b := ForestSlice(Children(t), x);
      a := b + 1;
      SliceRight([t], f, a, b, |Subtree(x)|);
    }
  }

  /** The forest counterpart of SubtreeSlice. */
  lemma {:induction false} ForestSlice(s: seq<Node>, x: Node) returns (a: nat)
    requires x in Forest(s)
    ensures a + |Subtree(x)| <= |Forest(s)| && Forest(s)[a..a + |Subtree(x)|] == Subtree(x)
    decreases SizeOf(s), 1
  {
    var head, rest, len := Subtree(s[0]), Forest(s[1..]), |Subtree(x)|;
    assert Forest(s) == head + rest;
    if x in head {
      a := SubtreeSlice(s[0], x);
      SliceLeft(head, rest, a, len);
      assert Forest(s)[a..a + len] == head[a..a + len] == Subtree(x);
    } else {
      assert x in rest;
      SizeOfChildren(s[0]);
      var b := ForestSlice(s[1..], x);
      a := |head| + b;
      SliceRight(head, rest, a, b, len);
      assert Forest(s)[a..a + len] == rest[b..b + len] == Subtree(x);
    }
  }

  /** A node of a tree is no larger than the tree. */
  lemma {:induction false} SubtreeSmaller(n: Node, d: Node)
    requires d in Subtree(n)
    ensures Size(d) <= Size(n)
    decreases Size(n), 0
  {
    SizeOfChildren(n);
    if d != n {
      assert Subtree(n) == [n] + Forest(Children(n));
      ForestSmaller(Children(n), d);
    }
  }

  /** A node of a forest is no larger than the forest. */
  lemma {:induction false} ForestSmaller(s: seq<Node>, d: Node)
    requires d in Forest(s)
    ensures Size(d) <= SizeOf(s)
    decreases SizeOf(s), 1
  {
    assert Forest(s) == Subtree(s[0]) + Forest(s[1..]);
    if d in Subtree(s[0]) {
      SubtreeSmaller(s[0], d);
    } else {
      SizeOfChildren(s[0]);
      ForestSmaller(s[1..], d);
    }
  }

  /** Every node below a child of `n`, the child included, is strictly
      smaller than `n`, so it is not `n`: no node lies inside its own
      subtree's children. */
  lemma BelowChildSmaller(n: Node, c: Node, d: Node)
    requires c in Children(n) && d in Subtree(c)
    ensures Size(d) < Size(n) && d != n
  {
    TreeInForest(Children(n), c);
    ForestSmaller(Children(n), d);
    SizeOfChildren(n);
  }

  /** When equal identities mean equal nodes, no child of a node shares
      the node's identity. */
  lemma ChildIdDiffers(n: Node, c: Node)
    requires IdsIdentify(Subtree(n)) && c in Children(n)
    ensures c.id != n.id
  {
    assert Subtree(c) == [c] + Forest(Children(c));
    BelowChildSmaller(n, c, c);
    TreeInForest(Children(n), c);
    assert Subtree(n) == [n] + Forest(Children(n));
  }

  /** The nodes of a subtree are nodes of the enclosing tree. */
  lemma SubtreeWithin(t: Node, x: Node, d: Node)
    requires x in Subtree(t) && d in Subtree(x)
    ensures d in Subtree(t)
  {
    var a := SubtreeSlice(t, x);
    var k :| 0 <= k < |Subtree(x)| && Subtree(x)[k] == d;
    assert Subtree(t)[a + k] == Subtree(x)[k];
  }
}
