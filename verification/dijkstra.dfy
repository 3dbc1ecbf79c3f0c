/** dijkstra.py: single-source shortest distances on the weighted graph,
    with a priority queue of (vertex, distance) entries and a dictionary
    recording, per vertex, the edge its best distance came through. */
module Dijkstra {
  import opened Wrappers
  import opened Collections
  import opened Containers
  import opened Edges
  import opened Graphs
  import opened Mst

  /** `DijkstraNode`: a vertex with the distance it was queued at. */
  datatype DijkstraNode = DijkstraNode(vertex: nat, distance: int)

  /** `DijkstraNode.__lt__` */
  predicate DistanceLess(a: DijkstraNode, b: DijkstraNode) {
    a.distance < b.distance
  }

  /** `DijkstraNode.__eq__` */
  predicate DistanceEqual(a: DijkstraNode, b: DijkstraNode) {
    a.distance == b.distance
  }

  /** Both comparisons look at the distance alone: `<` is a strict order,
      `==` is the equivalence of being incomparable under it, and two
      entries for different vertices compare equal when their distances
      agree. */
  lemma {:induction false} ComparisonsSeeDistanceOnly(a: DijkstraNode, b: DijkstraNode, c: DijkstraNode)
    ensures !DistanceLess(a, a)
    ensures DistanceLess(a, b) && DistanceLess(b, c) ==> DistanceLess(a, c)
    ensures DistanceEqual(a, b) <==> !DistanceLess(a, b) && !DistanceLess(b, a)
    ensures DistanceEqual(a, b) && DistanceEqual(b, c) ==> DistanceEqual(a, c)
    ensures DistanceEqual(DijkstraNode(a.vertex, b.distance), b)
  {
  }

  /** The priority `heappop` uses under `__lt__`. */
  function DistanceKey(n: DijkstraNode): int {
    n.distance
  }

  /** `distances`: `None` for a vertex not reached yet. */
  type Distances = seq<Option<int>>

  /** `path_dict`: from a vertex to the edge its distance came through. */
  type PathDict = map<nat, WeightedEdge>

  /** No edge of the graph has a negative weight. */
  ghost predicate NonNegative<V>(g: Graph<V, WeightedEdge>) {
    forall i, j :: 0 <= i < |g.edges| && 0 <= j < |g.edges[i]| ==> g.edges[i][j].weight >= 0
  }

  /** `dist_v is None or dist_v > we.weight + dist_u`, then the three
      updates of the loop body, for a single edge `we` out of a vertex whose
      distance was `distU` when it was popped. Afterwards the far end has a
      distance no greater than through `we`; it only ever goes down; when it
      changes it becomes exactly the distance through `we`, `we` is recorded
      for it and it is queued at that distance. Nothing else changes. */
  function Relax(d: Distances, pd: PathDict, pq: PriorityQueue<DijkstraNode>, distU: int, we: WeightedEdge)
    : (r: (Distances, PathDict, PriorityQueue<DijkstraNode>))
    requires we.v < |d|
    ensures |r.0| == |d| && r.0[we.v].Some? && r.0[we.v].value <= distU + we.weight
    ensures d[we.v].Some? ==> r.0[we.v].value <= d[we.v].value
    ensures forall x :: 0 <= x < |d| && x != we.v ==> r.0[x] == d[x]
    ensures r.0 == d ==> r.1 == pd && r.2 == pq
    ensures r.0 != d ==> && r.0[we.v] == Some(distU + we.weight)
                         && r.1 == pd[we.v := we]
                         && r.2 == pq.Push(DijkstraNode(we.v, distU + we.weight))
  {
    var alt := we.weight + distU;
    if d[we.v].None? || d[we.v].value > alt then
      (d[we.v := Some(alt)], pd[we.v := we], pq.Push(DijkstraNode(we.v, alt)))
    else
      (d, pd, pq)
  }

  /** Vertex `v` has a distance, and `e`, an edge of the graph into `v`,
      leads there from a vertex whose distance plus the weight is no more
      than that of `v`. */
  ghost predicate Witness<V>(g: Graph<V, WeightedEdge>, d: Distances, v: nat, e: WeightedEdge) {
    && v < |d| && e.v == v && GraphEdge(g, e) && e.u < |d|
    && d[e.u].Some? && d[v].Some? && d[e.u].value + e.weight <= d[v].value
  }

  /** What holds of the tables between any two steps of `dijkstra`: the
      root has a distance of at most 0; exactly the root and the keys of
      `path_dict` have distances; each recorded edge witnesses its vertex's
      distance; every queued vertex has a distance; and with no negative
      weight every distance is non-negative and the root's stays 0. */
  ghost predicate TablesInvariant<V>(g: Graph<V, WeightedEdge>, first: nat, d: Distances, pd: PathDict,
                                     pq: PriorityQueue<DijkstraNode>) {
    && Ends(g) && |d| == |g.vertices| && first < |d|
    && d[first].Some? && d[first].value <= 0
    && (forall v :: 0 <= v < |d| ==> (d[v].Some? <==> v == first || v in pd))
    && (forall v :: v in pd ==> Witness(g, d, v, pd[v]))
    && (forall i :: 0 <= i < |pq.items| ==> pq.items[i].vertex < |d| && d[pq.items[i].vertex].Some?)
    && (NonNegative(g) ==> d[first] == Some(0) && forall v :: 0 <= v < |d| && d[v].Some? ==> d[v].value >= 0)
  }

  /** Some entry for `x` is still queued. */
  ghost predicate Pending(pq: PriorityQueue<DijkstraNode>, x: nat) {
    exists i :: 0 <= i < |pq.items| && pq.items[i].vertex == x
  }

  /** Every edge out of `u` ends at a vertex with a distance no greater
      than through that edge. */
  ghost predicate Relaxed<V>(g: Graph<V, WeightedEdge>, d: Distances, u: nat) {
    && u < |d| && u < |g.edges| && d[u].Some?
    && forall j :: 0 <= j < |g.edges[u]| ==>
         && g.edges[u][j].v < |d| && d[g.edges[u][j].v].Some?
         && d[g.edges[u][j].v].value <= d[u].value + g.edges[u][j].weight
  }

  /** Every vertex with a distance is queued or has all its edges relaxed,
      except perhaps `u`. */
  ghost predicate SettledExcept<V>(g: Graph<V, WeightedEdge>, d: Distances, pq: PriorityQueue<DijkstraNode>,
                                   u: int) {
    forall x :: 0 <= x < |d| && x != u && d[x].Some? ==> Pending(pq, x) || Relaxed(g, d, x)
  }

  /** One relaxation keeps the tables' invariant. */
  lemma {:induction false} RelaxKeepsTables<V>(g: Graph<V, WeightedEdge>, first: nat, d: Distances, pd: PathDict,
                                               pq: PriorityQueue<DijkstraNode>, distU: int, we: WeightedEdge)
    requires TablesInvariant(g, first, d, pd, pq)
    requires GraphEdge(g, we) && we.u < |d| && d[we.u].Some? && d[we.u].value <= distU
    requires NonNegative(g) ==> distU >= 0
    ensures we.v < |d|
    ensures TablesInvariant(g, first, Relax(d, pd, pq, distU, we).0, Relax(d, pd, pq, distU, we).1,
                            Relax(d, pd, pq, distU, we).2)
  {
    var j :| 0 <= j < |g.edges[we.u]| && g.edges[we.u][j] == we;
    var (d', pd', pq') := Relax(d, pd, pq, distU, we);
    if d' != d {
      forall v | v in pd' ensures Witness(g, d', v, pd'[v]) {
        if v != we.v {
          assert Witness(g, d, v, pd[v]);
        }
      }
      if NonNegative(g) {
        assert we.weight >= 0;
      }
      RelaxKeepsQueued(d, pd, pq, distU, we);
    }
  }

  /** Every queued vertex still has a distance after a relaxation. */
  lemma {:induction false} RelaxKeepsQueued(d: Distances, pd: PathDict, pq: PriorityQueue<DijkstraNode>, distU: int,
                                            we: WeightedEdge)
    requires we.v < |d|
    requires forall i :: 0 <= i < |pq.items| ==> pq.items[i].vertex < |d| && d[pq.items[i].vertex].Some?
    ensures forall i :: 0 <= i < |Relax(d, pd, pq, distU, we).2.items| ==>
              Relax(d, pd, pq, distU, we).2.items[i].vertex < |d|
              && Relax(d, pd, pq, distU, we).0[Relax(d, pd, pq, distU, we).2.items[i].vertex].Some?
  {
    var (d', pd', pq') := Relax(d, pd, pq, distU, we);
    forall i | 0 <= i < |pq'.items| ensures pq'.items[i].vertex < |d| && d'[pq'.items[i].vertex].Some? {
      if i < |pq.items| {
        assert pq'.items[i] == pq.items[i];
      }
    }
  }

  /** A vertex queued or relaxed before a relaxation is so afterwards. */
  lemma {:induction false} RelaxKeepsSettled<V>(g: Graph<V, WeightedEdge>, d: Distances, pd: PathDict,
                                                pq: PriorityQueue<DijkstraNode>, distU: int, we: WeightedEdge,
                                                x: nat)
    requires Ends(g) && |d| == |g.vertices| && we.v < |d| && x < |d|
    requires Pending(pq, x) || Relaxed(g, d, x)
    ensures Pending(Relax(d, pd, pq, distU, we).2, x) || Relaxed(g, Relax(d, pd, pq, distU, we).0, x)
  {
    var (d', pd', pq') := Relax(d, pd, pq, distU, we);
    if Pending(pq, x) {
      var i :| 0 <= i < |pq.items| && pq.items[i].vertex == x;
      assert pq'.items[i] == pq.items[i];
    } else if d' != d && x == we.v {
      assert pq'.items[|pq.items|].vertex == x;
    } else {
      assert d'[x] == d[x];
    }
  }

  /** The state of the inner loop over the edges of `u` after `j` of them:
      the tables' invariant; every vertex but `u` settled; `u` queued again
      if its distance dropped below `distU`; the first `j` edges relaxed
      against `distU`; and no distance larger than at the start `d0`. */
  ghost predicate ScanInvariant<V>(g: Graph<V, WeightedEdge>, first: nat, u: nat, distU: int, d0: Distances,
                                   j: nat, d: Distances, pd: PathDict, pq: PriorityQueue<DijkstraNode>) {
    && TablesInvariant(g, first, d, pd, pq)
    && SettledExcept(g, d, pq, u)
    && u < |d| && |d0| == |d| && j <= |g.edges[u]|
    && d[u].Some? && d[u].value <= distU && (d[u].value < distU ==> Pending(pq, u))
    && (NonNegative(g) ==> distU >= 0)
    && (forall k :: 0 <= k < j ==>
          g.edges[u][k].v < |d| && d[g.edges[u][k].v].Some? && d[g.edges[u][k].v].value <= distU + g.edges[u][k].weight)
    && (forall v :: 0 <= v < |d0| && d0[v].Some? ==> d[v].Some? && d[v].value <= d0[v].value)
  }

  /** A relaxation keeps every queued entry queued, and queues the far end
      of the edge whenever it changes that end's distance. */
  lemma {:induction false} RelaxQueues(d: Distances, pd: PathDict, pq: PriorityQueue<DijkstraNode>, distU: int,
                                       we: WeightedEdge, x: nat)
    requires we.v < |d|
    ensures Pending(pq, x) ==> Pending(Relax(d, pd, pq, distU, we).2, x)
    ensures Relax(d, pd, pq, distU, we).0 != d && x == we.v ==> Pending(Relax(d, pd, pq, distU, we).2, x)
  {
    var pq' := Relax(d, pd, pq, distU, we).2;
    if Pending(pq, x) {
      var i :| 0 <= i < |pq.items| && pq.items[i].vertex == x;
      assert pq'.items[i] == pq.items[i];
    }
    if Relax(d, pd, pq, distU, we).0 != d && x == we.v {
      assert pq'.items[|pq.items|].vertex == x;
    }
  }

  /** A relaxation keeps every vertex but `u` settled. */
  lemma {:induction false} RelaxKeepsSettledExcept<V>(g: Graph<V, WeightedEdge>, d: Distances, pd: PathDict,
                                                      pq: PriorityQueue<DijkstraNode>, distU: int,
                                                      we: WeightedEdge, u: int)
    requires Ends(g) && |d| == |g.vertices| && we.v < |d|
    requires SettledExcept(g, d, pq, u)
    ensures SettledExcept(g, Relax(d, pd, pq, distU, we).0, Relax(d, pd, pq, distU, we).2, u)
  {
    var (d', pd', pq') := Relax(d, pd, pq, distU, we);
    forall x | 0 <= x < |d'| && x != u && d'[x].Some? ensures Pending(pq', x) || Relaxed(g, d', x) {
      if d[x].Some? {
        RelaxKeepsSettled(g, d, pd, pq, distU, we, x);
      } else {
        RelaxQueues(d, pd, pq, distU, we, x);
      }
    }
  }

  /** A relaxation against `distU` keeps the edges already relaxed against
      it relaxed, relaxes its own edge, and lowers distances only. */
  lemma {:induction false} RelaxKeepsScanned(es: seq<WeightedEdge>, j: nat, distU: int, d0: Distances,
                                             d: Distances, pd: PathDict, pq: PriorityQueue<DijkstraNode>)
    requires j < |es| && es[j].v < |d| && |d0| == |d|
    requires forall k :: 0 <= k < j ==> es[k].v < |d| && d[es[k].v].Some? && d[es[k].v].value <= distU + es[k].weight
    requires forall v :: 0 <= v < |d0| && d0[v].Some? ==> d[v].Some? && d[v].value <= d0[v].value
    ensures forall k :: 0 <= k < j + 1 ==>
              && es[k].v < |d| && Relax(d, pd, pq, distU, es[j]).0[es[k].v].Some?
              && Relax(d, pd, pq, distU, es[j]).0[es[k].v].value <= distU + es[k].weight
    ensures forall v :: 0 <= v < |d0| && d0[v].Some? ==>
              Relax(d, pd, pq, distU, es[j]).0[v].Some? && Relax(d, pd, pq, distU, es[j]).0[v].value <= d0[v].value
  {
  }

  /** Relaxing edge `j` of `u` advances the inner loop's invariant. */
  lemma {:induction false} RelaxStep<V>(g: Graph<V, WeightedEdge>, first: nat, u: nat, distU: int, d0: Distances,
                                        j: nat, d: Distances, pd: PathDict, pq: PriorityQueue<DijkstraNode>)
    requires ScanInvariant(g, first, u, distU, d0, j, d, pd, pq) && j < |g.edges[u]|
    ensures g.edges[u][j].v < |d|
    ensures ScanInvariant(g, first, u, distU, d0, j + 1,
                          Relax(d, pd, pq, distU, g.edges[u][j]).0, Relax(d, pd, pq, distU, g.edges[u][j]).1,
                          Relax(d, pd, pq, distU, g.edges[u][j]).2)
  {
    var we := g.edges[u][j];
    assert GraphEdge(g, we);
    RelaxKeepsTables(g, first, d, pd, pq, distU, we);
    RelaxKeepsSettledExcept(g, d, pd, pq, distU, we, u);
    RelaxQueues(d, pd, pq, distU, we, u);
    RelaxKeepsScanned(g.edges[u], j, distU, d0, d, pd, pq);
  }

  /** The `for we in wg.edges_for_index(u)` loop, `u` having been popped
      with distance `distU`. It keeps the tables' invariant, leaves every
      vertex with a distance queued or relaxed, and lowers distances only. */
  method RelaxEdges<V>(g: Graph<V, WeightedEdge>, ghost first: nat, u: nat, d: Distances, pd: PathDict,
                       pq: PriorityQueue<DijkstraNode>)
    returns (d': Distances, pd': PathDict, pq': PriorityQueue<DijkstraNode>)
    requires TablesInvariant(g, first, d, pd, pq) && SettledExcept(g, d, pq, u)
    requires u < |d| && d[u].Some?
    ensures TablesInvariant(g, first, d', pd', pq') && SettledExcept(g, d', pq', -1)
    ensures forall v :: 0 <= v < |d| && d[v].Some? ==> d'[v].Some? && d'[v].value <= d[v].value
  {
    var distU := d[u].value;
    var edges := g.edges[u];
    d', pd', pq' := d, pd, pq;
    var j := 0;
    while j < |edges|
      invariant ScanInvariant(g, first, u, distU, d, j, d', pd', pq')
    {
      RelaxStep(g, first, u, distU, d, j, d', pd', pq');
      var next := Relax(d', pd', pq', distU, edges[j]);
      d', pd', pq' := next.0, next.1, next.2;
      j := j + 1;
    }
    if !Pending(pq', u) {
      assert Relaxed(g, d', u);
    }
  }

  /** The vertex a walk of edges from `first` ends at. */
  function WalkEnd(first: nat, es: WeightedPath): nat {
    if |es| == 0 then first else es[|es| - 1].v
  }

  /** A walk from `first` along edges of the graph: each edge starts where
      the previous one ended. */
  ghost predicate IsEdgeWalk<V>(g: Graph<V, WeightedEdge>, first: nat, es: WeightedPath) {
    forall i :: 0 <= i < |es| ==> GraphEdge(g, es[i]) && es[i].u == WalkEnd(first, es[..i])
  }

  /** When every vertex with a distance is relaxed, no walk from the root
      is shorter than the distance of the vertex it ends at. */
  lemma {:induction false} RelaxedBoundsWalks<V>(g: Graph<V, WeightedEdge>, first: nat, d: Distances,
                                                 es: WeightedPath)
    requires Ends(g) && |d| == |g.vertices| && first < |d| && d[first].Some? && d[first].value <= 0
    requires forall x :: 0 <= x < |d| && d[x].Some? ==> Relaxed(g, d, x)
    requires IsEdgeWalk(g, first, es)
    ensures WalkEnd(first, es) < |d| && d[WalkEnd(first, es)].Some?
    ensures d[WalkEnd(first, es)].value <= TotalWeight(es)
    decreases |es|
  {
    if |es| > 0 {
      var init := es[..|es| - 1];
      var e := es[|es| - 1];
      assert IsEdgeWalk(g, first, init) by {
        forall i | 0 <= i < |init| ensures GraphEdge(g, init[i]) && init[i].u == WalkEnd(first, init[..i]) {
          assert init[..i] == es[..i];
        }
      }
      RelaxedBoundsWalks(g, first, d, init);
      assert es[..|es| - 1] == init;
      assert GraphEdge(g, e) && e.u == WalkEnd(first, init);
      var j :| 0 <= j < |g.edges[e.u]| && g.edges[e.u][j] == e;
      assert Relaxed(g, d, e.u);
      TotalWeightAppend(init, [e]);
      assert init + [e] == es;
    }
  }

  /** How a run of `dijkstra` ends: the two tables, or `OutOfFuel` when the
      loop did not finish within the rounds the model allows. */
  datatype Run = Finished(distances: Distances, pathDict: PathDict) | OutOfFuel

  /** `dijkstra`: `ValueError` when `root` is not a vertex (from
      `index_of`). A finished run gives the root, at index `first`, a
      distance of at most 0 (exactly 0 with no negative weight), gives
      distances to the root and the keys of `path_dict` only, records for
      each key an edge of the graph into it whose source distance plus
      weight is exactly the key's distance, and no walk from the root is
      shorter than the distance of its end. */
  method Dijkstra<V(==)>(g: Graph<V, WeightedEdge>, root: V, fuel: nat) returns (r: Result<Run>)
    requires WellFormed(Weighted(), g)
    ensures r.Failure? <==> root !in g.vertices
    ensures r.Failure? ==> r.error == ValueError
    ensures r.Success? && r.value.Finished? ==>
      var d, pd, first := r.value.distances, r.value.pathDict, IndexOfVertex(g, root).value;
      && |d| == |g.vertices| && d[first].Some? && d[first].value <= 0
      && (NonNegative(g) ==> d[first] == Some(0))
      && (forall v :: 0 <= v < |d| ==> (d[v].Some? <==> v == first || v in pd))
      && (forall v :: v in pd ==> && pd[v].v == v && GraphEdge(g, pd[v]) && pd[v].u < |d| && d[pd[v].u].Some?
                                   && d[v].value == d[pd[v].u].value + pd[v].weight)
      && (forall es :: IsEdgeWalk(g, first, es) ==>
            d[WalkEnd(first, es)].Some? && d[WalkEnd(first, es)].value <= TotalWeight(es))
  {
    var index := IndexOfVertex(g, root);
    if index.Failure? {
      return Failure(index.error);
    }
    var first := index.value;
    WellFormedEnds(g);
    var d: Distances := seq(|g.vertices|, _ => None);
    d := d[first := Some(0)];
    var pd: PathDict := map[];
    var pq := PriorityQueue([DijkstraNode(first, 0)]);
    assert pq.items[0].vertex == first;
    var rounds := 0;
    while !pq.Empty()
      invariant TablesInvariant(g, first, d, pd, pq) && SettledExcept(g, d, pq, -1)
      invariant rounds <= fuel
      decreases fuel - rounds
    {
      if rounds == fuel {
        return Success(OutOfFuel);
      }
      rounds := rounds + 1;
      var popped := pq.Pop(DistanceKey);
      var u := popped.0.vertex;
      PopKeepsTables(g, first, d, pd, pq, popped.0, popped.1);
      d, pd, pq := RelaxEdges(g, first, u, d, pd, popped.1);
    }
    FinishedTables(g, first, d, pd);
    return Success(Finished(d, pd));
  }

  /** Popping an entry keeps the tables' invariant, and every vertex but
      the popped one stays settled. */
  lemma {:induction false} PopKeepsTables<V>(g: Graph<V, WeightedEdge>, first: nat, d: Distances, pd: PathDict,
                                             pq: PriorityQueue<DijkstraNode>, n: DijkstraNode,
                                             rest: PriorityQueue<DijkstraNode>)
    requires TablesInvariant(g, first, d, pd, pq) && SettledExcept(g, d, pq, -1)
    requires n in pq.items && multiset(rest.items) + multiset{n} == multiset(pq.items)
    ensures n.vertex < |d| && d[n.vertex].Some?
    ensures TablesInvariant(g, first, d, pd, rest) && SettledExcept(g, d, rest, n.vertex)
  {
    var k :| 0 <= k < |pq.items| && pq.items[k] == n;
    forall i | 0 <= i < |rest.items| ensures rest.items[i].vertex < |d| && d[rest.items[i].vertex].Some? {
      assert rest.items[i] in multiset(pq.items);
    }
    forall x | 0 <= x < |d| && x != n.vertex && d[x].Some? ensures Pending(rest, x) || Relaxed(g, d, x) {
      if Pending(pq, x) {
        var i :| 0 <= i < |pq.items| && pq.items[i].vertex == x;
        var e := pq.items[i];
        assert multiset(pq.items)[e] > 0 && multiset{n}[e] == 0;
        assert e in multiset(rest.items);
        var i' :| 0 <= i' < |rest.items| && rest.items[i'] == e;
      }
    }
  }

  /** With the queue empty every vertex with a distance is relaxed, so the
      walks from the root bound the distances and every recorded edge
      gives its vertex's distance exactly. */
  lemma {:induction false} FinishedTables<V>(g: Graph<V, WeightedEdge>, first: nat, d: Distances, pd: PathDict)
    requires TablesInvariant(g, first, d, pd, PriorityQueue([])) && SettledExcept(g, d, PriorityQueue([]), -1)
    ensures forall v :: v in pd ==> d[v].value == d[pd[v].u].value + pd[v].weight
    ensures forall es :: IsEdgeWalk(g, first, es) ==>
              d[WalkEnd(first, es)].Some? && d[WalkEnd(first, es)].value <= TotalWeight(es)
  {
    forall x | 0 <= x < |d| && d[x].Some? ensures Relaxed(g, d, x) {
      assert !Pending(PriorityQueue([]), x);
    }
    forall v | v in pd ensures d[v].value == d[pd[v].u].value + pd[v].weight {
      var e := pd[v];
      assert Witness(g, d, v, e);
      var j :| 0 <= j < |g.edges[e.u]| && g.edges[e.u][j] == e;
      assert Relaxed(g, d, e.u);
    }
    forall es | IsEdgeWalk(g, first, es)
      ensures d[WalkEnd(first, es)].Some? && d[WalkEnd(first, es)].value <= TotalWeight(es)
    {
      RelaxedBoundsWalks(g, first, d, es);
    }
  }

  /** The dictionary `distance_array_to_vertex_dict` builds from the first
      `|ds|` vertices, one assignment per index in increasing order. */
  function Fill<V>(vs: seq<V>, ds: Distances): map<V, Option<int>>
    requires |ds| <= |vs|
    decreases |ds|
  {
    if |ds| == 0 then map[] else Fill(vs, ds[..|ds| - 1])[vs[|ds| - 1] := ds[|ds| - 1]]
  }

  /** The keys are the vertices at the indices of `ds`, and a vertex maps
      to the distance at its last such index: a later assignment overwrites
      an earlier one. */
  lemma {:induction false} FillContents<V>(vs: seq<V>, ds: Distances)
    requires |ds| <= |vs|
    ensures Fill(vs, ds).Keys == set i | 0 <= i < |ds| :: vs[i]
    ensures forall i :: 0 <= i < |ds| && (forall k :: i < k < |ds| ==> vs[k] != vs[i]) ==>
              vs[i] in Fill(vs, ds) && Fill(vs, ds)[vs[i]] == ds[i]
    decreases |ds|
  {
    if |ds| > 0 {
      var n := |ds| - 1;
      var init := ds[..n];
      FillContents(vs, init);
      assert (set i | 0 <= i < |ds| :: vs[i]) == (set i | 0 <= i < n :: vs[i]) + {vs[n]};
      forall i | 0 <= i < |ds| && (forall k :: i < k < |ds| ==> vs[k] != vs[i])
        ensures vs[i] in Fill(vs, ds) && Fill(vs, ds)[vs[i]] == ds[i]
      {
        if i < n {
          assert init[i] == ds[i];
        }
      }
    }
  }

  /** `distance_array_to_vertex_dict`: `IndexError` (from `vertex_at`) when
      there are more distances than vertices. Otherwise the keys are the
      vertices at the indices of `distances`, and each maps to the distance
      at its last such index; with no repeated vertex, `vertex_at(i)` maps
      to `distances[i]` for every `i`. */
  function DistanceArrayToVertexDict<V>(g: Graph<V, WeightedEdge>, distances: Distances)
    : (r: Result<map<V, Option<int>>>)
    ensures r.Failure? <==> |distances| > |g.vertices|
    ensures r.Failure? ==> r.error == IndexError
    ensures r.Success? ==> r.value.Keys == set i | 0 <= i < |distances| :: g.vertices[i]
    ensures r.Success? ==> forall i :: 0 <= i < |distances| && (forall k :: i < k < |distances| ==> g.vertices[k] != g.vertices[i]) ==>
      VertexAt(g, i).Success? && r.value[VertexAt(g, i).value] == distances[i]
    ensures r.Success? && NoDup(g.vertices) ==> forall i :: 0 <= i < |distances| ==>
      r.value[g.vertices[i]] == distances[i]
  {
    if |distances| > |g.vertices| then Failure(IndexError)
    else
      FillContents(g.vertices, distances);
      Success(Fill(g.vertices, distances))
  }

  /** Every entry of the dictionary is keyed by the vertex its edge ends at,
      as `dijkstra` records them. */
  ghost predicate KeyedByTarget(pd: PathDict) {
    forall k :: k in pd ==> pd[k].v == k
  }

  /** `p` is what following `pathDict` back from `end` to `start` spells,
      read forwards: the first edge leaves `start`, the last is the entry
      for `end`, each edge is the entry for the source of the next, and
      only the first leaves `start`. */
  ghost predicate RebuiltFrom(pathDict: PathDict, start: nat, end: nat, p: WeightedPath) {
    && |p| > 0 && p[0].u == start && end in pathDict && p[|p| - 1] == pathDict[end]
    && forall i :: 1 <= i < |p| ==> p[i].u in pathDict && p[i - 1] == pathDict[p[i].u] && p[i].u != start
  }

  /** The chain collected backwards from `end`, one entry per step. */
  ghost predicate UpwardChain(pathDict: PathDict, start: nat, end: nat, q: WeightedPath) {
    && |q| > 0 && end in pathDict && q[0] == pathDict[end]
    && forall i :: 0 <= i < |q| - 1 ==> q[i].u in pathDict && q[i + 1] == pathDict[q[i].u] && q[i].u != start
  }

  /** Reversing a finished upward chain gives the rebuilt path. */
  lemma {:induction false} ReversedChain(pathDict: PathDict, start: nat, end: nat, q: WeightedPath)
    requires UpwardChain(pathDict, start, end, q) && q[|q| - 1].u == start
    ensures RebuiltFrom(pathDict, start, end, Reverse(q))
  {
    var p := Reverse(q);
    forall i | 1 <= i < |p| ensures p[i].u in pathDict && p[i - 1] == pathDict[p[i].u] && p[i].u != start {
      var k := |p| - 1 - i;
      assert p[i] == q[k] && p[i - 1] == q[k + 1];
    }
  }

  /** Following the dictionary back from `end` reaches an edge leaving
      `start` within `fuel` lookups after the first. */
  ghost predicate ArrivesWithin(pathDict: PathDict, start: nat, end: nat, fuel: nat) {
    exists q: WeightedPath :: UpwardChain(pathDict, start, end, q) && |q| <= fuel + 1 && q[|q| - 1].u == start
  }

  /** Following the dictionary back from `end` meets, within `fuel`
      lookups, an edge whose source is neither `start` nor a key. */
  ghost predicate BreaksWithin(pathDict: PathDict, start: nat, end: nat, fuel: nat) {
    exists q: WeightedPath :: UpwardChain(pathDict, start, end, q) && |q| <= fuel && q[|q| - 1].u != start && q[|q| - 1].u !in pathDict
  }

  /** The backward walk is determined by the dictionary: two upward
      chains agree wherever both are defined. */
  lemma {:induction false} ChainsAgree(pathDict: PathDict, start: nat, end: nat, q1: WeightedPath,
                                       q2: WeightedPath, i: nat)
    requires UpwardChain(pathDict, start, end, q1) && UpwardChain(pathDict, start, end, q2)
    requires i < |q1| && i < |q2|
    ensures q1[i] == q2[i]
    decreases i
  {
    if i > 0 {
      ChainsAgree(pathDict, start, end, q1, q2, i - 1);
    }
  }

  /** A chain that arrives at `start` rules out one that breaks. */
  lemma {:induction false} ArrivalExcludesBreak(pathDict: PathDict, start: nat, end: nat, fuel: nat,
                                                q: WeightedPath)
    requires UpwardChain(pathDict, start, end, q) && q[|q| - 1].u == start
    ensures !BreaksWithin(pathDict, start, end, fuel)
  {
    if BreaksWithin(pathDict, start, end, fuel) {
      var q2: WeightedPath :| UpwardChain(pathDict, start, end, q2) && |q2| <= fuel && q2[|q2| - 1].u != start
                && q2[|q2| - 1].u !in pathDict;
      if |q2| <= |q| {
        ChainsAgree(pathDict, start, end, q, q2, |q2| - 1);
      } else {
        ChainsAgree(pathDict, start, end, q, q2, |q| - 1);
      }
    }
  }

  /** A chain that breaks rules out one that arrives at `start`. */
  lemma {:induction false} BreakExcludesArrival(pathDict: PathDict, start: nat, end: nat, fuel: nat,
                                                q: WeightedPath)
    requires UpwardChain(pathDict, start, end, q) && q[|q| - 1].u != start && q[|q| - 1].u !in pathDict
    ensures !ArrivesWithin(pathDict, start, end, fuel)
  {
    if ArrivesWithin(pathDict, start, end, fuel) {
      var q2: WeightedPath :| UpwardChain(pathDict, start, end, q2) && |q2| <= fuel + 1 && q2[|q2| - 1].u == start;
      ArrivalExcludesBreak(pathDict, start, end, |q|, q2);
      assert false;
    }
  }

  /** A chain of `fuel + 1` entries none of which leaves `start` rules out
      both arriving and breaking within `fuel` lookups. */
  lemma {:induction false} LongChainExcludes(pathDict: PathDict, start: nat, end: nat, fuel: nat,
                                             q: WeightedPath)
    requires UpwardChain(pathDict, start, end, q) && |q| == fuel + 1 && q[fuel].u != start
    ensures !ArrivesWithin(pathDict, start, end, fuel) && !BreaksWithin(pathDict, start, end, fuel)
  {
    if ArrivesWithin(pathDict, start, end, fuel) {
      var q2: WeightedPath :| UpwardChain(pathDict, start, end, q2) && |q2| <= fuel + 1 && q2[|q2| - 1].u == start;
      ChainsAgree(pathDict, start, end, q, q2, |q2| - 1);
    }
    if BreaksWithin(pathDict, start, end, fuel) {
      var q2: WeightedPath :| UpwardChain(pathDict, start, end, q2) && |q2| <= fuel && q2[|q2| - 1].u != start
                && q2[|q2| - 1].u !in pathDict;
      ChainsAgree(pathDict, start, end, q, q2, |q2| - 1);
    }
  }

  /** `path_dict_to_path`: `[]` for an empty dictionary; otherwise, from
      `path_dict[end]`, follow the entry of each edge's source until an
      edge leaves `start`, then reverse. The source loops forever on a
      chain that never reaches `start`; the model gives up with `None`
      after `fuel` lookups. So on a non-empty dictionary the outcome is
      decided by the backward walk: the rebuilt path exactly when the walk
      reaches `start` within `fuel` lookups, `KeyError` exactly when `end`
      or a source met before that has no entry, and `None` otherwise. */
  method PathDictToPath(start: nat, end: nat, pathDict: PathDict, fuel: nat)
    returns (r: Result<Option<WeightedPath>>)
    ensures |pathDict| == 0 ==> r == Success(Some([]))
    ensures r.Failure? ==> r.error == KeyError
    ensures |pathDict| > 0 ==>
      (r.Failure? <==> end !in pathDict || BreaksWithin(pathDict, start, end, fuel))
    ensures |pathDict| > 0 ==>
      (r.Success? && r.value.Some? <==> ArrivesWithin(pathDict, start, end, fuel))
    ensures r.Success? && r.value.Some? && |pathDict| > 0 ==>
      RebuiltFrom(pathDict, start, end, r.value.value) && |r.value.value| <= fuel + 1
  {
    if |pathDict| == 0 {
      return Success(Some([]));
    }
    if end !in pathDict {
      return Failure(KeyError);
    }
    var e := pathDict[end];
    var edgePath := [e];
    var steps := 0;
    while e.u != start
      invariant UpwardChain(pathDict, start, end, edgePath) && e == edgePath[|edgePath| - 1]
      invariant steps <= fuel && |edgePath| == steps + 1
      decreases fuel - steps
    {
      if steps == fuel {
        LongChainExcludes(pathDict, start, end, fuel, edgePath);
        return Success(None);
      }
      steps := steps + 1;
      if e.u !in pathDict {
        BreakExcludesArrival(pathDict, start, end, fuel, edgePath);
        return Failure(KeyError);
      }
      e := pathDict[e.u];
      edgePath := edgePath + [e];
    }
    ArrivalExcludesBreak(pathDict, start, end, fuel, edgePath);
    ReversedChain(pathDict, start, end, edgePath);
    return Success(Some(Reverse(edgePath)));
  }

  /** With entries keyed by their targets, as `dijkstra` records them, the
      rebuilt edges meet end to end and the last ends at `end`; when the
      entries are edges of the graph the path is a walk from `start` to
      `end`. */
  lemma {:induction false} RebuiltPathIsWalk<V>(g: Graph<V, WeightedEdge>, start: nat, end: nat,
                                                pathDict: PathDict, p: WeightedPath)
    requires KeyedByTarget(pathDict) && RebuiltFrom(pathDict, start, end, p)
    ensures p[|p| - 1].v == end && forall i :: 1 <= i < |p| ==> p[i - 1].v == p[i].u
    ensures (forall k :: k in pathDict ==> GraphEdge(g, pathDict[k])) ==>
              IsEdgeWalk(g, start, p) && WalkEnd(start, p) == end
  {
    forall i | 1 <= i < |p| ensures p[i - 1].v == p[i].u {
      assert p[i - 1] == pathDict[p[i].u];
    }
    if forall k :: k in pathDict ==> GraphEdge(g, pathDict[k]) {
      forall i | 0 <= i < |p| ensures GraphEdge(g, p[i]) && p[i].u == WalkEnd(start, p[..i]) {
        if i < |p| - 1 {
          assert p[i] == pathDict[p[i + 1].u];
        }
      }
    }
  }
}
