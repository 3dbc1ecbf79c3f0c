/** Search-tree nodes of generic_search.py: a state, a link to the parent
    node, the path cost so far and a heuristic estimate. */
module SearchNodes {
  import opened Wrappers
  import opened Collections

  /** `Node`. Parent links point to strictly older nodes, so a node value
      holds its whole chain back to the root. */
  datatype Node<T> = Node(state: T, parent: Option<Node<T>>, cost: int, heuristic: int)

  /** The number of parent links between `n` and the root of its chain. */
  function Depth<T>(n: Node<T>): nat {
    match n.parent
    case None => 0
    case Some(p) => 1 + Depth(p)
  }

  /** The node `k` parent links above `n`. */
  function Ancestor<T>(n: Node<T>, k: nat): Node<T>
    requires k <= Depth(n)
  {
    if k == 0 then n else Ancestor(n.parent.value, k - 1)
  }

  /** The root of the chain holding `n`. */
  function Root<T>(n: Node<T>): (r: Node<T>)
    ensures r.parent.None?
  {
    match n.parent
    case None => n
    case Some(p) => Root(p)
  }

  /** The states along the parent chain, root first: what `node_to_path`
      returns, computed by recursion on the parent link. */
  function Path<T>(n: Node<T>): (p: seq<T>)
    ensures |p| == Depth(n) + 1
    ensures p[0] == Root(n).state && p[|p| - 1] == n.state
    ensures forall i :: 0 <= i < |p| ==> p[i] == Ancestor(n, Depth(n) - i).state
  {
    match n.parent
    case None => [n.state]
    case Some(q) => Path(q) + [n.state]
  }

  /** `node_to_path`, as the source computes it: collect the states from
      `node` up to the root, then reverse. The result starts at the root,
      ends at `node.state` and has one entry per node of the chain, in
      root-to-node order. */
  method NodeToPath<T>(node: Node<T>) returns (path: seq<T>)
    ensures |path| == Depth(node) + 1
    ensures path[0] == Root(node).state && path[|path| - 1] == node.state
    ensures forall i :: 0 <= i < |path| ==> path[i] == Ancestor(node, Depth(node) - i).state
    ensures path == Path(node)
  {
    var n := node;
    var upward := [n.state];
    while n.parent.Some?
      invariant Depth(n) <= Depth(node)
      invariant n == Ancestor(node, Depth(node) - Depth(n))
      invariant |upward| == Depth(node) - Depth(n) + 1
      invariant forall k :: 0 <= k < |upward| ==> upward[k] == Ancestor(node, k).state
      decreases Depth(n)
    {
      AncestorStep(node, Depth(node) - Depth(n));
      n := n.parent.value;
      upward := upward + [n.state];
    }
    path := Reverse(upward);
    RootIsTopAncestor(node);
  }

  lemma {:induction false} AncestorStep<T>(n: Node<T>, k: nat)
    requires k < Depth(n)
    ensures Ancestor(n, k).parent.Some?
    ensures Ancestor(n, k).parent.value == Ancestor(n, k + 1)
    ensures Depth(Ancestor(n, k)) == Depth(n) - k
  {
    if k > 0 {
      AncestorStep(n.parent.value, k - 1);
    }
  }

  lemma {:induction false} RootIsTopAncestor<T>(n: Node<T>)
    ensures Ancestor(n, Depth(n)) == Root(n)
  {
    if n.parent.Some? {
      RootIsTopAncestor(n.parent.value);
    }
  }

  /** `Node.__lt__` exactly as written: the right-hand side adds
      `self.heuristic`, not `other.heuristic`. */
  predicate NodeLessAsWritten<T>(self: Node<T>, other: Node<T>) {
    self.cost + self.heuristic < other.cost + self.heuristic
  }

  /** The ordering A* is meant to use: by `cost + heuristic` of each node. */
  predicate NodeLess<T>(self: Node<T>, other: Node<T>) {
    self.cost + self.heuristic < other.cost + other.heuristic
  }

  /** The heuristic cancels out of the comparison as written: nodes are
      ordered by path cost alone, so the priority queue of A* pops a node of
      least `cost`, whatever the heuristic says. */
  lemma {:induction false} AsWrittenOrdersByCost<T>(a: Node<T>, b: Node<T>)
    ensures NodeLessAsWritten(a, b) <==> a.cost < b.cost
  {
  }

  /** A pair of nodes that the intended ordering and the ordering as written
      rank in opposite directions. */
  lemma {:induction false} AsWrittenDisagrees(s: int)
    ensures NodeLess(Node(s, None, 1, 0), Node(s, None, 0, 5))
    ensures !NodeLessAsWritten(Node(s, None, 1, 0), Node(s, None, 0, 5))
    ensures NodeLessAsWritten(Node(s, None, 0, 5), Node(s, None, 1, 0))
  {
  }

  /** The intended ordering is a strict weak order on `cost + heuristic`:
      irreflexive, transitive, and two nodes are incomparable exactly when
      their estimates tie. */
  lemma {:induction false} NodeLessIsEstimateOrder<T>(a: Node<T>, b: Node<T>, c: Node<T>)
    ensures !NodeLess(a, a)
    ensures NodeLess(a, b) && NodeLess(b, c) ==> NodeLess(a, c)
    ensures !NodeLess(a, b) && !NodeLess(b, a) <==> a.cost + a.heuristic == b.cost + b.heuristic
  {
  }
}
