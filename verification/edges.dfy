/** Graph edges between vertex indices (edge.py) and their weighted
    variant (weighted_edge.py). */
module Edges {
  import opened Wrappers
  import opened Decimal

  /** An edge from vertex index `u` to vertex index `v`. */
  datatype Edge = Edge(u: nat, v: nat)

  /** An edge that also carries a weight; weights are integers here. */
  datatype WeightedEdge = WeightedEdge(u: nat, v: nat, weight: int)

  /** `Edge.reversed`: the same edge traversed the other way. */
  function Reversed(e: Edge): Edge {
    Edge(e.v, e.u)
  }

  /** `WeightedEdge.reversed`. */
  function ReversedWeighted(e: WeightedEdge): WeightedEdge {
    WeightedEdge(e.v, e.u, e.weight)
  }

  /** Reversal swaps the endpoints and undoes itself. */
  lemma {:induction false} ReversedInvolution(e: Edge)
    ensures Reversed(e).u == e.v && Reversed(e).v == e.u
    ensures Reversed(Reversed(e)) == e
  {
  }

  /** Weighted reversal swaps the endpoints, keeps the weight and undoes itself. */
  lemma {:induction false} ReversedWeightedInvolution(e: WeightedEdge)
    ensures ReversedWeighted(e).u == e.v && ReversedWeighted(e).v == e.u
    ensures ReversedWeighted(e).weight == e.weight
    ensures ReversedWeighted(ReversedWeighted(e)) == e
  {
  }

  /** `WeightedEdge.__lt__`: edges are ordered by weight alone. */
  predicate WeightedLess(a: WeightedEdge, b: WeightedEdge) {
    a.weight < b.weight
  }

  /** `__lt__` is a strict order that sees nothing but the weights: it is
      irreflexive and transitive, any two edges of different weight are
      comparable, and edges of equal weight are incomparable whatever their
      endpoints. */
  lemma {:induction false} WeightedLessIsWeightOrder(a: WeightedEdge, b: WeightedEdge, c: WeightedEdge)
    ensures !WeightedLess(a, a)
    ensures WeightedLess(a, b) && WeightedLess(b, c) ==> WeightedLess(a, c)
    ensures a.weight != b.weight <==> WeightedLess(a, b) || WeightedLess(b, a)
    ensures WeightedLess(a, b) <==> WeightedLess(ReversedWeighted(a), ReversedWeighted(b))
  {
  }

  /** `Edge.__str__`: `"u -> v"`. */
  function EdgeToString(e: Edge): string {
    NatToString(e.u) + " -> " + NatToString(e.v)
  }

  /** `WeightedEdge.__str__`: `"u weight> v"`. */
  function WeightedEdgeToString(e: WeightedEdge): string {
    NatToString(e.u) + " " + IntToString(e.weight) + "> " + NatToString(e.v)
  }

  /** Reads an edge back from its printed form. */
  function ParseEdge(s: string): Option<Edge> {
    match SplitOnce(s, ' ')
    case None => None
    case Some((head, rest)) =>
      if |rest| >= 3 && rest[..3] == "-> " then
        match (ParseInt(head), ParseInt(rest[3..]))
        case (Some(u), Some(v)) => if u >= 0 && v >= 0 then Some(Edge(u, v)) else None
        case _ => None
      else None
  }

  /** Reads a weighted edge back from its printed form. */
  function ParseWeightedEdge(s: string): Option<WeightedEdge> {
    match SplitOnce(s, ' ')
    case None => None
    case Some((head, rest)) =>
      match SplitOnce(rest, '>')
      case None => None
      case Some((weight, tail)) =>
        if |tail| >= 1 && tail[0] == ' ' then
          match (ParseInt(head), ParseInt(weight), ParseInt(tail[1..]))
          case (Some(u), Some(w), Some(v)) => if u >= 0 && v >= 0 then Some(WeightedEdge(u, v, w)) else None
          case _ => None
        else None
  }

  /** The printed form of an edge determines the edge: parsing it back
      gives the same endpoints. */
  lemma {:induction false} EdgeToStringRoundTrip(e: Edge)
    ensures ParseEdge(EdgeToString(e)) == Some(e)
  {
    var a := NatToString(e.u);
    var b := NatToString(e.v);
    assert EdgeToString(e) == a + [' '] + ("-> " + b);
    IntToStringHasNo(e.u, ' ');
    SplitOnceOf(a, ' ', "-> " + b);
    assert ("-> " + b)[3..] == b;
    IntToStringRoundTrip(e.u);
    IntToStringRoundTrip(e.v);
  }

  /** The printed form of a weighted edge determines the edge. */
  lemma {:induction false} WeightedEdgeToStringRoundTrip(e: WeightedEdge)
    ensures ParseWeightedEdge(WeightedEdgeToString(e)) == Some(e)
  {
    var a := NatToString(e.u);
    var w := IntToString(e.weight);
    var b := NatToString(e.v);
    var rest := w + ['>'] + (" " + b);
    assert WeightedEdgeToString(e) == a + [' '] + rest;
    IntToStringHasNo(e.u, ' ');
    SplitOnceOf(a, ' ', rest);
    IntToStringHasNo(e.weight, '>');
    SplitOnceOf(w, '>', " " + b);
    assert (" " + b)[1..] == b;
    IntToStringRoundTrip(e.u);
    IntToStringRoundTrip(e.weight);
    IntToStringRoundTrip(e.v);
  }
}
