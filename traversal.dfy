/** `ast.walk`: the breadth-first walk over a syntax tree that the
    flow-diagram builder iterates. It keeps a double-ended queue of nodes
    still to visit, starting with the root; each step pops the leftmost node,
    appends that node's children on the right and yields the node. */
module Traversal {
  import opened Syntax

  /** The nodes `ast.walk` yields when its queue holds `queue`, in order. */
  function Walk(queue: seq<Node>): seq<Node>
    decreases SizeOf(queue)
  {
    if queue == [] then []
    else
      SizeOfAppend(queue[1..], Children(queue[0]));
      SizeOfChildren(queue[0]);
      [queue[0]] + Walk(queue[1..] + Children(queue[0]))
  }

  /** The walk as the deque-driven loop it is: the nodes it yields, in the
      order it yields them. The root comes first and every node of the tree
      is yielded as often as it occurs in it. */
  method AstWalk(root: Node) returns (order: seq<Node>)
    ensures order == Walk([root])
    ensures |order| > 0 && order[0] == root
    ensures multiset(order) == multiset(Subtree(root))
  {
    var todo := [root];
    order := [];
    while todo != []
      invariant order + Walk(todo) == Walk([root])
      decreases SizeOf(todo)
    {
      var node := todo[0];
      WalkUnfold(todo);
      AppendAssoc(order, [node], Walk(todo[1..] + Children(node)));
      todo := todo[1..] + Children(node);
      order := order + [node];
    }
    assert order + [] == order;
    WalkUnfold([root]);
    WalkCoversTree(root);
  }

  lemma AppendAssoc<T>(a: seq<T>, b: seq<T>, c: seq<T>)
    ensures a + b + c == a + (b + c)
  {
  }

  /** One step of the walk: the head of the queue is yielded first. */
  lemma WalkUnfold(queue: seq<Node>)
    requires queue != []
    ensures SizeOf(queue[1..] + Children(queue[0])) < SizeOf(queue)
    ensures Walk(queue) == [queue[0]] + Walk(queue[1..] + Children(queue[0]))
  {
    SizeOfAppend(queue[1..], Children(queue[0]));
    SizeOfChildren(queue[0]);
  }

  /** The walk from a single root yields the nodes of its tree. */
  lemma WalkCoversTree(root: Node)
    ensures multiset(Walk([root])) == multiset(Subtree(root))
  {
    WalkVisitsForest([root]);
    assert Forest([root]) == Subtree(root) + Forest([]);
  }

  /** The walk yields exactly the nodes of the trees in its queue, each as
      often as it occurs there: it differs from pre-order only in the
      order of the nodes. */
  lemma {:induction false} WalkVisitsForest(queue: seq<Node>)
    ensures multiset(Walk(queue)) == multiset(Forest(queue))
    decreases SizeOf(queue)
  {
    if queue != [] {
      var head, rest := queue[0], queue[1..];
      WalkUnfold(queue);
      WalkVisitsForest(rest + Children(head));
      ForestAppend(rest, Children(head));
      assert queue == [head] + rest;
      assert Forest(queue) == [head] + Forest(Children(head)) + Forest(rest);
    }
  }

  /** The position at which the walk yields the node waiting at position
      `p` of the queue. */
  lemma {:induction false} QueuedAt(queue: seq<Node>, p: int) returns (j: int)
    requires 0 <= p < |queue|
    ensures 0 <= j < |Walk(queue)| && Walk(queue)[j] == queue[p]
    decreases p
  {
    var next := queue[1..] + Children(queue[0]);
    WalkHead(queue);
    if p == 0 {
      j := 0;
    } else {
      assert next[p - 1] == queue[p];
      var j' := QueuedAt(next, p - 1);
      j := j' + 1;
      WalkShift(queue, j, j');
    }
  }

  /** A node is yielded before each of its children: the walk visits a
      parent before its descendants. */
  lemma ParentBeforeChildren(queue: seq<Node>)
    ensures forall i, c :: 0 <= i < |Walk(queue)| && c in Children(Walk(queue)[i]) ==>
              exists j :: i < j < |Walk(queue)| && Walk(queue)[j] == c
  {
    forall i, c | 0 <= i < |Walk(queue)| && c in Children(Walk(queue)[i])
      ensures exists j :: i < j < |Walk(queue)| && Walk(queue)[j] == c
    {
      var k :| 0 <= k < |Children(Walk(queue)[i])| && Children(Walk(queue)[i])[k] == c;
      var j := ChildAfterParent(queue, i, Walk(queue)[i], k);
    }
  }

  /** The position at which the walk yields the `k`-th child of the node
      `p` it yields at position `i`: a later one. */
  lemma {:induction false} ChildAfterParent(queue: seq<Node>, i: int, p: Node, k: int) returns (j: int)
    requires 0 <= i < |Walk(queue)| && Walk(queue)[i] == p && 0 <= k < |Children(p)|
    ensures i < j < |Walk(queue)| && Walk(queue)[j] == Children(p)[k]
    decreases i
  {
    assert queue != [];
    var next := queue[1..] + Children(queue[0]);
    WalkHead(queue);
    if i == 0 {
      j := ChildOfHead(queue, k);
    } else {
      WalkShift(queue, i, i - 1);
      var j' := ChildAfterParent(next, i - 1, p, k);
      j := j' + 1;
      WalkShift(queue, j, j');
    }
  }

  /** The walk yields each child of the head of its queue after the head. */
  lemma ChildOfHead(queue: seq<Node>, k: int) returns (j: int)
    requires queue != [] && 0 <= k < |Children(queue[0])|
    ensures 0 < j < |Walk(queue)| && Walk(queue)[j] == Children(queue[0])[k]
  {
    var rest := queue[1..];
    var next := rest + Children(queue[0]);
    assert next[|rest| + k] == Children(queue[0])[k];
    var j' := QueuedAt(next, |rest| + k);
    WalkHead(queue);
    j := j' + 1;
    WalkShift(queue, j, j');
  }

  /** Past its first node, the walk from `queue` is the walk from the queue
      its first step leaves. */
  lemma WalkShift(queue: seq<Node>, j: int, j': int)
    requires queue != [] && j == j' + 1 && 0 <= j' < |Walk(queue[1..] + Children(queue[0]))|
    ensures Walk(queue)[j] == Walk(queue[1..] + Children(queue[0]))[j']
  {
    WalkUnfold(queue);
  }

  /** The walk yields the head of its queue first, then one node for each
      node the walk from the next queue yields. */
  lemma WalkHead(queue: seq<Node>)
    requires queue != []
    ensures |Walk(queue)| == 1 + |Walk(queue[1..] + Children(queue[0]))|
    ensures Walk(queue)[0] == queue[0]
  {
    WalkUnfold(queue);
  }

  /** The walk from a root yields a node exactly when the node is in the
      root's tree. */
  lemma InWalkIffInTree(root: Node, x: Node)
    ensures x in Walk([root]) <==> x in Subtree(root)
  {
    WalkCoversTree(root);
    assert x in Walk([root]) <==> x in multiset(Walk([root]));
    assert x in Subtree(root) <==> x in multiset(Subtree(root));
  }

  /** A node found at two positions occurs at least twice. */
  lemma OccursTwice(s: seq<Node>, i: int, j: int)
    requires 0 <= i < j < |s| && s[i] == s[j]
    ensures multiset(s)[s[i]] >= 2
  {
    assert s == s[..j] + s[j..];
    assert s[i] in s[..j];
    assert s[j] in s[j..];
  }

  /** A node that occurs once in the tree is yielded by the walk at exactly
      one position. (A node the parser shares among several places, such as
      a `Load` context, is yielded once per place, by WalkCoversTree.) */
  lemma UniqueNodeYieldedOnce(root: Node, x: Node) returns (j: int)
    requires multiset(Subtree(root))[x] == 1
    ensures 0 <= j < |Walk([root])| && Walk([root])[j] == x
    ensures forall j' :: 0 <= j' < |Walk([root])| && Walk([root])[j'] == x ==> j' == j
  {
    var w := Walk([root]);
    WalkCoversTree(root);
    assert x in multiset(w);
    j :| 0 <= j < |w| && w[j] == x;
    forall j' | 0 <= j' < |w| && w[j'] == x
      ensures j' == j
    {
      if j' < j {
        OccursTwice(w, j', j);
      } else if j < j' {
        OccursTwice(w, j, j');
      }
    }
  }
}
