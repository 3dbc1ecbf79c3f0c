/** mst.py: Prim's algorithm on the weighted graph. The tree grows from
    `start`; each round takes the lightest queued edge and, when its far end
    is new, adds the edge and visits that end. */
module Mst {
  import opened Wrappers
  import opened Collections
  import opened Containers
  import opened Edges
  import opened Graphs

  /** `WeightedPath`: a list of weighted edges. */
  type WeightedPath = seq<WeightedEdge>

  /** `total_weight`: the sum of the weights along the path. */
  function TotalWeight(wp: WeightedPath): int {
    if |wp| == 0 then 0 else TotalWeight(wp[..|wp| - 1]) + wp[|wp| - 1].weight
  }

  /** The empty path weighs nothing, one edge weighs its weight, and the
      weight of a concatenation is the sum of the weights: together these
      make `total_weight` the sum of the weights. */
  lemma {:induction false} TotalWeightAppend(a: WeightedPath, b: WeightedPath)
    ensures TotalWeight([]) == 0
    ensures |b| == 1 ==> TotalWeight(b) == b[0].weight
    ensures TotalWeight(a + b) == TotalWeight(a) + TotalWeight(b)
    decreases |b|
  {
    if |b| == 0 {
      assert a + b == a;
    } else {
      TotalWeightAppend(a, b[..|b| - 1]);
      assert (a + b)[..|a + b| - 1] == a + b[..|b| - 1];
      if |b| == 1 {
        assert b[..0] == [];
      }
    }
  }

  /** With no negative weight the total is not negative either. */
  lemma {:induction false} TotalWeightNonNegative(wp: WeightedPath)
    requires forall i :: 0 <= i < |wp| ==> wp[i].weight >= 0
    ensures TotalWeight(wp) >= 0
    decreases |wp|
  {
    if |wp| > 0 {
      TotalWeightNonNegative(wp[..|wp| - 1]);
    }
  }

  /** The priority of an edge in the queue: `WeightedEdge.__lt__` compares
      weights only. */
  function WeightKey(e: WeightedEdge): int {
    e.weight
  }

  /** The far ends of the edges, in order. */
  function Targets(wp: WeightedPath): (r: seq<nat>)
    ensures |r| == |wp| && forall i :: 0 <= i < |wp| ==> r[i] == wp[i].v
  {
    seq(|wp|, i requires 0 <= i < |wp| => wp[i].v)
  }

  lemma {:induction false} TargetsAppend(wp: WeightedPath, e: WeightedEdge)
    ensures Targets(wp + [e]) == Targets(wp) + [e.v]
    ensures Targets((wp + [e])[..|wp|]) == Targets(wp)
  {
    assert (wp + [e])[..|wp|] == wp;
  }

  /** The vertices `visited` marks, and those it does not. */
  ghost function Marked(visited: seq<bool>): set<nat> {
    set i: nat | i < |visited| && visited[i]
  }

  ghost function Unmarked(visited: seq<bool>): set<nat> {
    set i: nat | i < |visited| && !visited[i]
  }

  /** Marking an unmarked vertex leaves one vertex fewer unmarked. */
  lemma {:induction false} MarkShrinks(visited: seq<bool>, x: nat)
    requires x < |visited| && !visited[x]
    ensures |Unmarked(visited[x := true])| < |Unmarked(visited)|
  {
    assert Unmarked(visited[x := true]) == Unmarked(visited) - {x};
  }

  /** No more vertices are marked than there are entries. */
  lemma {:induction false} MarkedCard(visited: seq<bool>)
    ensures |Marked(visited)| <= |visited|
    decreases |visited|
  {
    if |visited| > 0 {
      var t := visited[..|visited| - 1];
      MarkedCard(t);
      if visited[|t|] {
        assert Marked(visited) == Marked(t) + {|t|};
      } else {
        assert Marked(visited) == Marked(t);
      }
    }
  }

  /** Every edge in adjacency list `i` leaves `i` and ends at a vertex. */
  ghost predicate Ends<V>(g: Graph<V, WeightedEdge>) {
    && |g.edges| == |g.vertices|
    && forall i, j :: 0 <= i < |g.edges| && 0 <= j < |g.edges[i]| ==>
         g.edges[i][j].u == i && g.edges[i][j].v < |g.vertices|
  }

  lemma {:induction false} WellFormedEnds<V>(g: Graph<V, WeightedEdge>)
    requires WellFormed(Weighted(), g)
    ensures Ends(g)
  {
    forall i, j | 0 <= i < |g.edges| && 0 <= j < |g.edges[i]|
      ensures g.edges[i][j].u == i && g.edges[i][j].v < |g.vertices|
    {
      assert Weighted().src(g.edges[i][j]) == i;
      assert Weighted().dst(g.edges[i][j]) < |g.vertices|;
    }
  }

  /** `e` is stored in the adjacency list of its start. */
  ghost predicate GraphEdge<V>(g: Graph<V, WeightedEdge>, e: WeightedEdge) {
    e.u < |g.edges| && e in g.edges[e.u]
  }

  /** `for edge in wg.edges_for_index(index): if not visited[edge.v]:
      pq.push(edge)`, as a filter over the list. */
  function PushUnvisited(pq: PriorityQueue<WeightedEdge>, es: seq<WeightedEdge>, visited: seq<bool>)
    : (r: PriorityQueue<WeightedEdge>)
    requires forall j :: 0 <= j < |es| ==> es[j].v < |visited|
    ensures |pq.items| <= |r.items| && r.items[..|pq.items|] == pq.items
    ensures forall j :: |pq.items| <= j < |r.items| ==> r.items[j] in es && !visited[r.items[j].v]
    ensures forall j :: 0 <= j < |es| ==> visited[es[j].v] || es[j] in r.items
    decreases |es|
  {
    if |es| == 0 then pq
    else
      var pq' := if visited[es[0].v] then pq else pq.Push(es[0]);
      var r := PushUnvisited(pq', es[1..], visited);
      assert forall j :: 1 <= j < |es| ==> es[j] == es[1..][j - 1];
      assert r.items[..|pq.items|] == r.items[..|pq'.items|][..|pq.items|];
      assert !visited[es[0].v] ==> r.items[|pq.items|] == es[0];
      r
  }

  /** `visit(index)`: marks `index`, then queues every edge leaving it whose
      far end is still unmarked. The mark comes first, so an edge from
      `index` back to itself is not queued. */
  function Visit<V>(g: Graph<V, WeightedEdge>, visited: seq<bool>, pq: PriorityQueue<WeightedEdge>, index: nat)
    : (r: (seq<bool>, PriorityQueue<WeightedEdge>))
    requires Ends(g) && |visited| == |g.vertices| && index < |visited|
    ensures r.0 == visited[index := true]
    ensures |pq.items| <= |r.1.items| && r.1.items[..|pq.items|] == pq.items
    ensures forall j :: |pq.items| <= j < |r.1.items| ==>
      r.1.items[j] in g.edges[index] && !r.0[r.1.items[j].v]
    ensures forall j :: 0 <= j < |g.edges[index]| ==> r.0[g.edges[index][j].v] || g.edges[index][j] in r.1.items
  {
    var visited' := visited[index := true];
    (visited', PushUnvisited(pq, g.edges[index], visited'))
  }

  /** Each edge of `result` leaves `start` or the far end of an earlier
      edge: the edges form a tree hanging from `start`. */
  ghost predicate Rooted(start: nat, result: WeightedPath) {
    forall i :: 0 <= i < |result| ==> result[i].u == start || result[i].u in Targets(result[..i])
  }

  /** The tree part of the state `mst` keeps between rounds: the marked
      vertices are `start` and the far ends of the result, each reached
      once, and the result hangs from `start`. */
  ghost predicate TreeInvariant(start: nat, visited: seq<bool>, result: WeightedPath) {
    && start < |visited|
    && Marked(visited) == {start} + Elements(Targets(result))
    && start !in Targets(result) && NoDup(Targets(result))
    && Rooted(start, result)
  }

  /** The queue part: every queued edge is an edge of the graph leaving a
      marked vertex, and every edge out of a marked vertex ends at a marked
      vertex or is still queued. */
  ghost predicate FrontierInvariant<V>(g: Graph<V, WeightedEdge>, visited: seq<bool>,
                                       pq: PriorityQueue<WeightedEdge>) {
    && Ends(g) && |visited| == |g.vertices|
    && (forall i :: 0 <= i < |pq.items| ==> GraphEdge(g, pq.items[i]) && visited[pq.items[i].u])
    && (forall x, j :: 0 <= x < |visited| && visited[x] && 0 <= j < |g.edges[x]| ==>
          visited[g.edges[x][j].v] || g.edges[x][j] in pq.items)
  }

  /** The state `mst` keeps between rounds; the result holds edges of the
      graph. */
  ghost predicate PrimInvariant<V>(g: Graph<V, WeightedEdge>, start: nat, visited: seq<bool>,
                                   pq: PriorityQueue<WeightedEdge>, result: WeightedPath) {
    && FrontierInvariant(g, visited, pq)
    && TreeInvariant(start, visited, result)
    && (forall i :: 0 <= i < |result| ==> GraphEdge(g, result[i]))
  }

  /** `visit(start)` on a fresh `visited` list and an empty queue sets the
      invariant up. */
  lemma {:induction false} StartEstablishes<V>(g: Graph<V, WeightedEdge>, start: nat)
    requires Ends(g) && start < |g.vertices|
    ensures PrimInvariant(g, start, Visit(g, seq(|g.vertices|, _ => false), PriorityQueue([]), start).0,
                          Visit(g, seq(|g.vertices|, _ => false), PriorityQueue([]), start).1, [])
  {
    var blank: seq<bool> := seq(|g.vertices|, _ => false);
    var (visited, pq) := Visit(g, blank, PriorityQueue([]), start);
    assert Marked(visited) == {start};
    assert Elements(Targets([])) == {};
    forall i | 0 <= i < |pq.items| ensures GraphEdge(g, pq.items[i]) && visited[pq.items[i].u] {
      var j :| 0 <= j < |g.edges[start]| && g.edges[start][j] == pq.items[i];
    }
  }

  /** Whatever the pop did not return is still in the queue. */
  lemma {:induction false} StillQueued(pq: PriorityQueue<WeightedEdge>, edge: WeightedEdge,
                                       rest: PriorityQueue<WeightedEdge>, e: WeightedEdge)
    requires multiset(rest.items) + multiset{edge} == multiset(pq.items)
    requires e in pq.items && e != edge
    ensures e in rest.items
  {
    assert multiset(pq.items)[e] > 0;
    assert multiset{edge}[e] == 0;
    assert e in multiset(rest.items);
  }

  /** Dropping a popped edge whose far end is already marked keeps the
      invariant. */
  lemma {:induction false} SkipKeepsInvariant<V>(g: Graph<V, WeightedEdge>, start: nat, visited: seq<bool>,
                                                 pq: PriorityQueue<WeightedEdge>, result: WeightedPath,
                                                 edge: WeightedEdge, rest: PriorityQueue<WeightedEdge>)
    requires PrimInvariant(g, start, visited, pq, result)
    requires multiset(rest.items) + multiset{edge} == multiset(pq.items)
    requires edge.v < |visited| && visited[edge.v]
    ensures PrimInvariant(g, start, visited, rest, result)
  {
    forall i | 0 <= i < |rest.items| ensures GraphEdge(g, rest.items[i]) && visited[rest.items[i].u] {
      assert rest.items[i] in multiset(pq.items);
    }
    forall x, j | 0 <= x < |visited| && visited[x] && 0 <= j < |g.edges[x]|
      ensures visited[g.edges[x][j].v] || g.edges[x][j] in rest.items
    {
      var e := g.edges[x][j];
      if e in pq.items && e != edge {
        StillQueued(pq, edge, rest, e);
      }
    }
  }

  /** Adding an edge from a marked vertex to an unmarked one, and marking
      its far end, keeps the tree part of the invariant. */
  lemma {:induction false} TakeKeepsTree(start: nat, visited: seq<bool>, result: WeightedPath, edge: WeightedEdge)
    requires TreeInvariant(start, visited, result)
    requires edge.u < |visited| && visited[edge.u] && edge.v < |visited| && !visited[edge.v]
    ensures TreeInvariant(start, visited[edge.v := true], result + [edge])
  {
    var visited' := visited[edge.v := true];
    var result' := result + [edge];
    TargetsAppend(result, edge);
    assert Marked(visited') == Marked(visited) + {edge.v};
    assert Elements(Targets(result')) == Elements(Targets(result)) + {edge.v};
    assert edge.v != start && edge.v !in Targets(result);
    assert Rooted(start, result') by {
      forall i | 0 <= i < |result'| ensures result'[i].u == start || result'[i].u in Targets(result'[..i]) {
        if i < |result| {
          assert result'[..i] == result[..i];
        } else {
          assert edge.u in Marked(visited);
        }
      }
    }
    assert NoDup(Targets(result')) by {
      forall i, j | 0 <= i < j < |Targets(result')| ensures Targets(result')[i] != Targets(result')[j] {
        if j == |result| {
          assert Targets(result')[i] == Targets(result)[i];
        }
      }
    }
  }

  /** Visiting the far end of a popped edge keeps the queue part of the
      invariant. */
  lemma {:induction false} TakeKeepsFrontier<V>(g: Graph<V, WeightedEdge>, visited: seq<bool>,
                                                pq: PriorityQueue<WeightedEdge>, edge: WeightedEdge,
                                                rest: PriorityQueue<WeightedEdge>)
    requires FrontierInvariant(g, visited, pq)
    requires multiset(rest.items) + multiset{edge} == multiset(pq.items)
    requires edge in pq.items && !visited[edge.v]
    ensures FrontierInvariant(g, Visit(g, visited, rest, edge.v).0, Visit(g, visited, rest, edge.v).1)
  {
    var (visited', pq') := Visit(g, visited, rest, edge.v);
    forall i | 0 <= i < |pq'.items| ensures GraphEdge(g, pq'.items[i]) && visited'[pq'.items[i].u] {
      if i < |rest.items| {
        assert pq'.items[i] == rest.items[i];
        assert rest.items[i] in multiset(pq.items);
      } else {
        var j :| 0 <= j < |g.edges[edge.v]| && g.edges[edge.v][j] == pq'.items[i];
      }
    }
    forall x, j | 0 <= x < |visited'| && visited'[x] && 0 <= j < |g.edges[x]|
      ensures visited'[g.edges[x][j].v] || g.edges[x][j] in pq'.items
    {
      var e := g.edges[x][j];
      if x != edge.v && e in pq.items && e != edge {
        StillQueued(pq, edge, rest, e);
        assert e in pq'.items[..|rest.items|];
      }
    }
  }

  /** Taking a popped edge whose far end is unmarked, then visiting that
      end, keeps the invariant. */
  lemma {:induction false} TakeKeepsInvariant<V>(g: Graph<V, WeightedEdge>, start: nat, visited: seq<bool>,
                                                 pq: PriorityQueue<WeightedEdge>, result: WeightedPath,
                                                 edge: WeightedEdge, rest: PriorityQueue<WeightedEdge>)
    requires PrimInvariant(g, start, visited, pq, result)
    requires multiset(rest.items) + multiset{edge} == multiset(pq.items)
    requires edge in pq.items && !visited[edge.v]
    ensures PrimInvariant(g, start, Visit(g, visited, rest, edge.v).0, Visit(g, visited, rest, edge.v).1,
                          result + [edge])
  {
    assert GraphEdge(g, edge) && visited[edge.u];
    TakeKeepsTree(start, visited, result, edge);
    TakeKeepsFrontier(g, visited, pq, edge, rest);
  }

  /** A walk from `start` along the edges of the graph. */
  ghost predicate IsWalk<V>(g: Graph<V, WeightedEdge>, start: nat, p: seq<nat>) {
    && |p| > 0 && p[0] == start
    && forall i :: 0 <= i < |p| - 1 ==> p[i] < |g.edges| && Adjacent(Weighted(), g, p[i], p[i + 1])
  }

  /** Once no edge out of a marked vertex leads to an unmarked one, every
      walk from a marked `start` ends at a marked vertex. */
  lemma {:induction false} WalksStayMarked<V>(g: Graph<V, WeightedEdge>, visited: seq<bool>, start: nat,
                                              p: seq<nat>)
    requires Ends(g) && |visited| == |g.vertices| && start < |visited| && visited[start]
    requires forall x, j :: 0 <= x < |visited| && visited[x] && 0 <= j < |g.edges[x]| ==>
               visited[g.edges[x][j].v]
    requires IsWalk(g, start, p)
    ensures p[|p| - 1] < |visited| && visited[p[|p| - 1]]
    decreases |p|
  {
    if |p| > 1 {
      var q := p[..|p| - 1];
      assert IsWalk(g, start, q);
      WalksStayMarked(g, visited, start, q);
      var a := p[|p| - 2];
      assert Adjacent(Weighted(), g, a, p[|p| - 1]);
      var j :| 0 <= j < |g.edges[a]| && Weighted().dst(g.edges[a][j]) == p[|p| - 1];
    }
  }

  /** `mst`: `None` for a `start` outside the vertex indices. Otherwise
      the result holds edges of the graph, each leaving `start` or the far
      end of an earlier edge, no two ending at the same vertex and none at
      `start`: a tree rooted at `start`, so at most `vertex_count - 1`
      edges. Every vertex some walk reaches from `start` is in the tree. */
  method Mst<V>(g: Graph<V, WeightedEdge>, start: int) returns (r: Option<WeightedPath>)
    requires WellFormed(Weighted(), g)
    ensures r.None? <==> start < 0 || start >= |g.vertices|
    ensures r.Some? ==> && (forall i :: 0 <= i < |r.value| ==> GraphEdge(g, r.value[i]))
                        && Rooted(start, r.value)
                        && NoDup(Targets(r.value)) && start !in Targets(r.value)
                        && |r.value| <= |g.vertices| - 1
    ensures r.Some? ==> forall p :: IsWalk(g, start, p) ==> p[|p| - 1] == start || p[|p| - 1] in Targets(r.value)
  {
    if start > |g.vertices| - 1 || start < 0 {
      return None;
    }
    WellFormedEnds(g);
    var result: WeightedPath := [];
    StartEstablishes(g, start);
    var visited, pq := Visit(g, seq(|g.vertices|, _ => false), PriorityQueue([]), start).0,
                       Visit(g, seq(|g.vertices|, _ => false), PriorityQueue([]), start).1;
    while !pq.Empty()
      invariant PrimInvariant(g, start, visited, pq, result)
      decreases |Unmarked(visited)|, |pq.items|
    {
      var popped := pq.Pop(WeightKey);
      var edge := popped.0;
      if visited[edge.v] {
        SkipKeepsInvariant(g, start, visited, pq, result, edge, popped.1);
        pq := popped.1;
        continue;
      }
      TakeKeepsInvariant(g, start, visited, pq, result, edge, popped.1);
      MarkShrinks(visited, edge.v);
      result := result + [edge];
      var next := Visit(g, visited, popped.1, edge.v);
      visited, pq := next.0, next.1;
    }
    MarkedCard(visited);
    ElementsCard(Targets(result));
    forall p | IsWalk(g, start, p) ensures p[|p| - 1] == start || p[|p| - 1] in Targets(result) {
      WalksStayMarked(g, visited, start, p);
      assert p[|p| - 1] in Marked(visited);
    }
    return Some(result);
  }
}
