/** graph.py: an undirected graph stored as a list of vertices and, per
    vertex, the list of edges leaving it. The weighted graph the MST and
    Dijkstra code use has the same shape with weighted edges, so the graph
    here is generic in its edge type. */
module Graphs {
  import opened Wrappers
  import opened Collections
  import opened Edges

  /** What the adjacency lists need to know about an edge: where it starts,
      where it ends, and the same edge the other way round. */
  datatype EdgeKind<!E> = EdgeKind(src: E -> nat, dst: E -> nat, flip: E -> E)

  /** Reversal swaps the ends and undoes itself. */
  ghost predicate Lawful<E(!new)>(k: EdgeKind<E>) {
    forall e :: k.src(k.flip(e)) == k.dst(e) && k.dst(k.flip(e)) == k.src(e) && k.flip(k.flip(e)) == e
  }

  /** The edges of graph.py. */
  function Plain(): EdgeKind<Edge> {
    EdgeKind((e: Edge) => e.u, (e: Edge) => e.v, Reversed)
  }

  /** The weighted edges of the weighted graph. */
  function Weighted(): EdgeKind<WeightedEdge> {
    EdgeKind((e: WeightedEdge) => e.u, (e: WeightedEdge) => e.v, ReversedWeighted)
  }

  lemma {:induction false} KindsAreLawful()
    ensures Lawful(Plain()) && Lawful(Weighted())
  {
    forall e: Edge ensures Plain().src(Plain().flip(e)) == Plain().dst(e) &&
                           Plain().dst(Plain().flip(e)) == Plain().src(e) &&
                           Plain().flip(Plain().flip(e)) == e {
      ReversedInvolution(e);
    }
    forall e: WeightedEdge ensures Weighted().src(Weighted().flip(e)) == Weighted().dst(e) &&
                                   Weighted().dst(Weighted().flip(e)) == Weighted().src(e) &&
                                   Weighted().flip(Weighted().flip(e)) == e {
      ReversedWeightedInvolution(e);
    }
  }

  /** `Graph`: `vertices` and, at the same index, the edges leaving each. */
  datatype Graph<V, E> = Graph(vertices: seq<V>, edges: seq<seq<E>>)

  /** One adjacency list per vertex; every edge in list `i` leaves vertex
      `i` and ends at a vertex of the graph. */
  ghost predicate WellFormed<V, E>(k: EdgeKind<E>, g: Graph<V, E>) {
    && |g.edges| == |g.vertices|
    && forall i, j :: 0 <= i < |g.edges| && 0 <= j < |g.edges[i]| ==>
         k.src(g.edges[i][j]) == i && k.dst(g.edges[i][j]) < |g.vertices|
  }

  /** The graph is undirected: every edge is matched by its reversal in
      the list of the vertex it ends at. */
  ghost predicate Symmetric<V, E>(k: EdgeKind<E>, g: Graph<V, E>) {
    forall i, j :: 0 <= i < |g.edges| && 0 <= j < |g.edges[i]| ==>
      k.dst(g.edges[i][j]) < |g.edges| && k.flip(g.edges[i][j]) in g.edges[k.dst(g.edges[i][j])]
  }

  /** Vertex `b` is a neighbour of vertex `a`. */
  ghost predicate Adjacent<V, E>(k: EdgeKind<E>, g: Graph<V, E>, a: nat, b: nat)
    requires a < |g.edges|
  {
    exists j :: 0 <= j < |g.edges[a]| && k.dst(g.edges[a][j]) == b
  }

  /** In a symmetric graph, `b` is a neighbour of `a` exactly when `a` is a
      neighbour of `b`. */
  lemma {:induction false} AdjacencyIsSymmetric<V, E(!new)>(k: EdgeKind<E>, g: Graph<V, E>, a: nat, b: nat)
    requires Lawful(k) && WellFormed(k, g) && Symmetric(k, g)
    requires a < |g.edges| && b < |g.edges|
    ensures Adjacent(k, g, a, b) <==> Adjacent(k, g, b, a)
  {
    if Adjacent(k, g, a, b) {
      var j :| 0 <= j < |g.edges[a]| && k.dst(g.edges[a][j]) == b;
      var e := g.edges[a][j];
      var m :| 0 <= m < |g.edges[b]| && g.edges[b][m] == k.flip(e);
      assert k.dst(g.edges[b][m]) == a;
    }
    if Adjacent(k, g, b, a) {
      var j :| 0 <= j < |g.edges[b]| && k.dst(g.edges[b][j]) == a;
      var e := g.edges[b][j];
      var m :| 0 <= m < |g.edges[a]| && g.edges[a][m] == k.flip(e);
      assert k.dst(g.edges[a][m]) == b;
    }
  }

  /** The constructor: one empty adjacency list per vertex. */
  function NewGraph<V, E>(vertices: seq<V>): (g: Graph<V, E>)
    ensures g.vertices == vertices && |g.edges| == |vertices|
    ensures forall i :: 0 <= i < |vertices| ==> g.edges[i] == []
  {
    Graph(vertices, seq(|vertices|, _ => []))
  }

  /** A new graph has no edges and keeps both invariants; `vertex_at`
      gives back the vertices it was built from, and every vertex has an
      empty edge list and no neighbours. */
  lemma {:induction false} NewGraphIsEmpty<V, E>(k: EdgeKind<E>, vertices: seq<V>)
    ensures EdgeCount(NewGraph<V, E>(vertices)) == 0
    ensures WellFormed(k, NewGraph<V, E>(vertices)) && Symmetric(k, NewGraph<V, E>(vertices))
    ensures VertexCount(NewGraph<V, E>(vertices)) == |vertices|
    ensures forall i :: 0 <= i < |vertices| ==>
      && VertexAt(NewGraph<V, E>(vertices), i) == Success(vertices[i])
      && EdgesForIndex(NewGraph<V, E>(vertices), i) == Success([])
      && NeighborsForIndex(k, NewGraph<V, E>(vertices), i) == Success([])
  {
    var g := NewGraph<V, E>(vertices);
    SumOfEmpties(g.edges);
  }

  /** The total length of a list of lists. */
  function SumLengths<E>(ls: seq<seq<E>>): nat {
    if |ls| == 0 then 0 else SumLengths(ls[..|ls| - 1]) + |ls[|ls| - 1]|
  }

  lemma {:induction false} SumOfEmpties<E>(ls: seq<seq<E>>)
    requires forall i :: 0 <= i < |ls| ==> ls[i] == []
    ensures SumLengths(ls) == 0
    decreases |ls|
  {
    if |ls| > 0 {
      SumOfEmpties(ls[..|ls| - 1]);
    }
  }

  /** Lengthening one list lengthens the total by as much. */
  lemma {:induction false} SumLengthsUpdate<E>(ls: seq<seq<E>>, i: nat, extra: seq<E>)
    requires i < |ls|
    ensures SumLengths(ls[i := ls[i] + extra]) == SumLengths(ls) + |extra|
    decreases |ls|
  {
    var n := |ls|;
    var ls' := ls[i := ls[i] + extra];
    if i < n - 1 {
      assert ls'[..n - 1] == ls[..n - 1][i := ls[i] + extra];
      SumLengthsUpdate(ls[..n - 1], i, extra);
    } else {
      assert ls'[..n - 1] == ls[..n - 1];
    }
  }

  lemma {:induction false} SumLengthsAppend<E>(ls: seq<seq<E>>, l: seq<E>)
    ensures SumLengths(ls + [l]) == SumLengths(ls) + |l|
  {
    assert (ls + [l])[..|ls|] == ls;
  }

  /** `vertex_count` */
  function VertexCount<V, E>(g: Graph<V, E>): nat {
    |g.vertices|
  }

  /** `edge_count`: the sum of the lengths of the adjacency lists, so an
      undirected edge is counted once from each end. */
  function EdgeCount<V, E>(g: Graph<V, E>): nat {
    SumLengths(g.edges)
  }

  /** `add_vertex`: appends the vertex and an empty adjacency list and
      returns the new vertex's index, `vertex_count - 1`. Nothing else
      changes. */
  function AddVertex<V, E>(g: Graph<V, E>, x: V): (r: (Graph<V, E>, nat))
    ensures r.1 == VertexCount(r.0) - 1 && VertexAt(r.0, r.1) == Success(x)
    ensures r.0.vertices[..r.1] == g.vertices && r.0.edges == g.edges + [[]]
    ensures EdgeCount(r.0) == EdgeCount(g)
  {
    var g' := Graph(g.vertices + [x], g.edges + [[]]);
    SumLengthsAppend(g.edges, []);
    assert g'.vertices[..|g.vertices|] == g.vertices;
    (g', |g.vertices|)
  }

  /** Adding a vertex keeps both invariants. */
  lemma {:induction false} AddVertexKeepsInvariants<V, E>(k: EdgeKind<E>, g: Graph<V, E>, x: V)
    requires WellFormed(k, g) && Symmetric(k, g)
    ensures WellFormed(k, AddVertex(g, x).0) && Symmetric(k, AddVertex(g, x).0)
  {
    var g' := AddVertex(g, x).0;
    forall i, j | 0 <= i < |g'.edges| && 0 <= j < |g'.edges[i]|
      ensures k.src(g'.edges[i][j]) == i && k.dst(g'.edges[i][j]) < |g'.vertices|
      ensures k.dst(g'.edges[i][j]) < |g'.edges| && k.flip(g'.edges[i][j]) in g'.edges[k.dst(g'.edges[i][j])]
    {
      assert i < |g.edges| && g'.edges[i] == g.edges[i];
      assert g'.edges[k.dst(g.edges[i][j])] == g.edges[k.dst(g.edges[i][j])];
    }
  }

  /** `add_edge`: appends `edge` to the list of its start and its reversal
      to the list of its end; `IndexError` when either end has no list. No
      other list changes, and the edge count grows by two. */
  function AddEdge<V, E>(k: EdgeKind<E>, g: Graph<V, E>, e: E): (r: Result<Graph<V, E>>)
    ensures r.Success? <==> k.src(e) < |g.edges| && k.dst(e) < |g.edges|
    ensures r.Failure? ==> r.error == IndexError
    ensures r.Success? ==> && r.value.vertices == g.vertices && |r.value.edges| == |g.edges|
                           && EdgeCount(r.value) == EdgeCount(g) + 2
    ensures r.Success? ==> forall i :: 0 <= i < |g.edges| ==>
      r.value.edges[i] == g.edges[i] + (if i == k.src(e) then [e] else [])
                                     + (if i == k.dst(e) then [k.flip(e)] else [])
  {
    var u, v := k.src(e), k.dst(e);
    if u < |g.edges| && v < |g.edges| then
      var once := g.edges[u := g.edges[u] + [e]];
      var twice := once[v := once[v] + [k.flip(e)]];
      SumLengthsUpdate(g.edges, u, [e]);
      SumLengthsUpdate(once, v, [k.flip(e)]);
      assert forall i :: 0 <= i < |g.edges| && i != u ==> once[i] + [] == once[i];
      Success(Graph(g.vertices, twice))
    else
      Failure(IndexError)
  }

  /** Adding an edge between two vertices of a graph keeps both
      invariants. */
  lemma {:induction false} AddEdgeKeepsInvariants<V, E(!new)>(k: EdgeKind<E>, g: Graph<V, E>, e: E)
    requires Lawful(k) && WellFormed(k, g) && Symmetric(k, g)
    requires k.src(e) < |g.vertices| && k.dst(e) < |g.vertices|
    ensures AddEdge(k, g, e).Success?
    ensures WellFormed(k, AddEdge(k, g, e).value) && Symmetric(k, AddEdge(k, g, e).value)
  {
    var g' := AddEdge(k, g, e).value;
    var u, v := k.src(e), k.dst(e);
    assert k.src(k.flip(e)) == v && k.dst(k.flip(e)) == u && k.flip(k.flip(e)) == e;
    forall i, j | 0 <= i < |g'.edges| && 0 <= j < |g'.edges[i]|
      ensures k.src(g'.edges[i][j]) == i && k.dst(g'.edges[i][j]) < |g'.vertices|
      ensures k.dst(g'.edges[i][j]) < |g'.edges| && k.flip(g'.edges[i][j]) in g'.edges[k.dst(g'.edges[i][j])]
    {
      var x := g'.edges[i][j];
      if j < |g.edges[i]| {
        assert x == g.edges[i][j];
        var d := k.dst(x);
        assert k.flip(x) in g.edges[d];
        assert g'.edges[d][..|g.edges[d]|] == g.edges[d];
      } else if i == u && j == |g.edges[i]| {
        assert x == e;
        assert k.flip(e) in g'.edges[v];
      } else {
        assert i == v && x == k.flip(e);
        assert e in g'.edges[u];
      }
    }
  }

  /** `vertex_at`: `IndexError` past the end. The vertex it returns is one
      `index_of` finds, at `index` or at an earlier index holding the same
      vertex; with no repeated vertex `index_of` undoes `vertex_at`. */
  function VertexAt<V(==), E>(g: Graph<V, E>, index: nat): (r: Result<V>)
    ensures r.Success? <==> index < |g.vertices|
    ensures r.Failure? ==> r.error == IndexError
    ensures r.Success? ==> IndexOf(g.vertices, r.value).Some? && IndexOf(g.vertices, r.value).value <= index
    ensures r.Success? && NoDup(g.vertices) ==> IndexOf(g.vertices, r.value) == Some(index)
  {
    if index < |g.vertices| then
      var x := g.vertices[index];
      assert x in g.vertices[..index + 1];
      Success(x)
    else Failure(IndexError)
  }

  /** `index_of`: the first index holding the vertex; `ValueError` when no
      index does. `vertex_at` of the index gives the vertex back. */
  function IndexOfVertex<V(==), E>(g: Graph<V, E>, x: V): (r: Result<nat>)
    ensures r.Success? <==> x in g.vertices
    ensures r.Failure? ==> r.error == ValueError
    ensures r.Success? ==> && r.value < |g.vertices| && VertexAt(g, r.value) == Success(x)
                           && forall i :: 0 <= i < r.value ==> g.vertices[i] != x
  {
    match IndexOf(g.vertices, x)
    case None => Failure(ValueError)
    case Some(i) => Success(i)
  }

  /** `edges_for_index`: `IndexError` past the end. */
  function EdgesForIndex<V, E>(g: Graph<V, E>, index: nat): (r: Result<seq<E>>)
    ensures r.Success? <==> index < |g.edges|
    ensures r.Success? ==> r.value == g.edges[index]
  {
    if index < |g.edges| then Success(g.edges[index]) else Failure(IndexError)
  }

  /** In a well-formed graph `edges_for_index` answers for exactly the
      vertices; every edge it lists leaves `index` and ends at a vertex, and
      the neighbours are the vertices at the ends of those edges, in order. */
  lemma {:induction false} EdgesForIndexLeaveIndex<V, E>(k: EdgeKind<E>, g: Graph<V, E>, index: nat)
    requires WellFormed(k, g)
    ensures EdgesForIndex(g, index).Success? <==> VertexAt(g, index).Success?
    ensures EdgesForIndex(g, index).Success? ==>
      && (forall j :: 0 <= j < |EdgesForIndex(g, index).value| ==>
            k.src(EdgesForIndex(g, index).value[j]) == index
            && VertexAt(g, k.dst(EdgesForIndex(g, index).value[j])).Success?)
      && NeighborsForIndex(k, g, index).Success?
      && |NeighborsForIndex(k, g, index).value| == |EdgesForIndex(g, index).value|
      && (forall j :: 0 <= j < |EdgesForIndex(g, index).value| ==>
            Success(NeighborsForIndex(k, g, index).value[j])
            == VertexAt(g, k.dst(EdgesForIndex(g, index).value[j])))
  {
  }

  /** `neighbors_for_index`: the vertex at the end of each edge leaving
      `index`, one per edge and in the same order. In a well-formed graph
      it fails only for an index past the end. */
  function NeighborsForIndex<V, E>(k: EdgeKind<E>, g: Graph<V, E>, index: nat): (r: Result<seq<V>>)
    ensures r.Success? ==> && index < |g.edges| && |r.value| == |g.edges[index]|
                           && forall j :: 0 <= j < |r.value| ==>
                                VertexAt(g, k.dst(g.edges[index][j])) == Success(r.value[j])
    ensures WellFormed(k, g) ==> (r.Success? <==> index < |g.vertices|)
  {
    if index >= |g.edges| then Failure(IndexError)
    else
      var es := g.edges[index];
      var targets := Destinations(k, es);
      MapVertexAt(g, targets)
  }

  /** The vertex index each edge ends at, in order. */
  function Destinations<E>(k: EdgeKind<E>, es: seq<E>): (r: seq<nat>)
    ensures |r| == |es| && forall j :: 0 <= j < |es| ==> r[j] == k.dst(es[j])
  {
    if |es| == 0 then [] else Destinations(k, es[..|es| - 1]) + [k.dst(es[|es| - 1])]
  }

  /** `list(map(self.vertex_at, indices))`: stops at the first index with
      no vertex. */
  function MapVertexAt<V, E>(g: Graph<V, E>, indices: seq<nat>): (r: Result<seq<V>>)
    ensures r.Success? <==> forall j :: 0 <= j < |indices| ==> indices[j] < |g.vertices|
    ensures r.Success? ==> && |r.value| == |indices|
                           && forall j :: 0 <= j < |indices| ==> r.value[j] == g.vertices[indices[j]]
  {
    if |indices| == 0 then Success([])
    else if indices[0] >= |g.vertices| then Failure(IndexError)
    else match MapVertexAt(g, indices[1..])
      case Failure(err) => Failure(err)
      case Success(rest) => Success([g.vertices[indices[0]]] + rest)
  }

  /** `add_edge_by_indices` of graph.py. */
  function AddEdgeByIndices<V>(g: Graph<V, Edge>, u: nat, v: nat): Result<Graph<V, Edge>> {
    AddEdge(Plain(), g, Edge(u, v))
  }

  /** `add_edge_by_indices` of the weighted graph: the same, with a weight. */
  function AddWeightedEdgeByIndices<V>(g: Graph<V, WeightedEdge>, u: nat, v: nat, weight: int)
    : Result<Graph<V, WeightedEdge>>
  {
    AddEdge(Weighted(), g, WeightedEdge(u, v, weight))
  }

  /** `add_edge_by_vertices`: looks both vertices up with `list.index` (a
      `ValueError` when either is missing), then adds the edge between
      their first indices. */
  function AddEdgeByVertices<V(==)>(g: Graph<V, Edge>, first: V, second: V): (r: Result<Graph<V, Edge>>)
    requires |g.edges| == |g.vertices|
    ensures r.Success? <==> first in g.vertices && second in g.vertices
    ensures r.Failure? ==> r.error == ValueError
    ensures r.Success? ==> exists u, v :: && IndexOfVertex(g, first) == Success(u)
                                           && IndexOfVertex(g, second) == Success(v)
                                           && r == AddEdgeByIndices(g, u, v)
  {
    match (IndexOfVertex(g, first), IndexOfVertex(g, second))
    case (Success(u), Success(v)) => AddEdgeByIndices(g, u, v)
    case (Failure(err), _) => Failure(err)
    case (_, Failure(err)) => Failure(err)
  }

  /** `add_edge_by_vertices` of the weighted graph. */
  function AddWeightedEdgeByVertices<V(==)>(g: Graph<V, WeightedEdge>, first: V, second: V, weight: int)
    : (r: Result<Graph<V, WeightedEdge>>)
    requires |g.edges| == |g.vertices|
    ensures r.Success? <==> first in g.vertices && second in g.vertices
    ensures r.Failure? ==> r.error == ValueError
    ensures r.Success? ==> exists u, v :: && IndexOfVertex(g, first) == Success(u)
                                           && IndexOfVertex(g, second) == Success(v)
                                           && r == AddWeightedEdgeByIndices(g, u, v, weight)
  {
    match (IndexOfVertex(g, first), IndexOfVertex(g, second))
    case (Success(u), Success(v)) => AddWeightedEdgeByIndices(g, u, v, weight)
    case (Failure(err), _) => Failure(err)
    case (_, Failure(err)) => Failure(err)
  }
}
