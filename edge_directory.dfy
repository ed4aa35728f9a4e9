/**
 * The default edge directory of the Dijkstra utility: a nested map
 * start vertex -> end vertex -> edge, filled by `AddEdge` and queried for
 * penalties, destinations, outgoing edges and the cheapest edge between two
 * vertices. Iterators of the source are modelled by the sets they run over.
 */
module EdgeDirectory {
  import opened Wrappers

  /** An edge of the graph; the source's `Edge` interface exposes exactly these three values. */
  datatype Edge<V(!new)> = Edge(start: V, end: V, penalty: int)

  datatype DirectoryError = NegativePenalty   // IllegalStateException("Penalty must not be negative")

  class DefaultEdgeDirectory<V(==,!new)> {
    var edges: map<V, map<V, Edge<V>>>

    /** Every stored edge sits under its own start and end vertex. */
    ghost predicate Valid()
      reads this
    {
      forall s | s in edges :: forall t | t in edges[s] :: edges[s][t].start == s && edges[s][t].end == t
    }

    /** The edge stored for (start, end), if any. */
    function Lookup(start: V, end: V): Option<Edge<V>>
      reads this
    {
      if start in edges && end in edges[start] then Some(edges[start][end]) else None
    }

    constructor ()
      ensures Valid()
      ensures forall s: V, t: V :: Lookup(s, t) == None
    {
      edges := map[];
    }

    /** Stores `edge` under (edge.start, edge.end), replacing an earlier edge there. */
    method AddEdge(edge: Edge<V>)
      requires Valid()
      modifies this
      ensures Valid()
      ensures Lookup(edge.start, edge.end) == Some(edge)
      ensures forall s: V, t: V :: s != edge.start || t != edge.end ==> Lookup(s, t) == old(Lookup(s, t))
    {
      var direct := if edge.start in edges then edges[edge.start] else map[];
      edges := edges[edge.start := direct[edge.end := edge]];
    }

    /** The penalty of the edge start -> end, 0 when there is none, an error when it is negative. */
    function GetPenalty(start: V, end: V): (r: Result<int, DirectoryError>)
      reads this
      ensures Lookup(start, end).None? ==> r == Ok(0)
      ensures r.Fail? <==> Lookup(start, end).Some? && Lookup(start, end).value.penalty < 0
      ensures r.Ok? ==> r.value >= 0
      ensures r.Ok? && Lookup(start, end).Some? ==> r.value == Lookup(start, end).value.penalty
    {
      if start in edges && end in edges[start] then
        var penalty := edges[start][end].penalty;
        if penalty < 0 then Fail(NegativePenalty) else Ok(penalty)
      else
        Ok(0)
    }

    /** The end vertices of the edges leaving `origin`. */
    function GetDestinations(origin: V): (r: set<V>)
      reads this
      ensures forall t :: t in r <==> Lookup(origin, t).Some?
    {
      if origin in edges then edges[origin].Keys else {}
    }

    /** The edges leaving `origin`. */
    function GetEdges(origin: V): (r: set<Edge<V>>)
      requires Valid()
      reads this
      ensures forall e :: e in r <==> e.start == origin && Lookup(origin, e.end) == Some(e)
    {
      if origin in edges then edges[origin].Values else {}
    }

    /** An edge start -> end of least penalty among the edges leaving `start`, or None. */
    method GetBestEdge(start: V, end: V) returns (best: Option<Edge<V>>)
      requires Valid()
      ensures best.None? <==> (forall e :: e in GetEdges(start) ==> e.end != end)
      ensures best.Some? ==> best.value in GetEdges(start) && best.value.end == end
      ensures best.Some? ==> forall e :: e in GetEdges(start) && e.end == end ==> best.value.penalty <= e.penalty
      ensures best == Lookup(start, end)
    {
      best := None;
      var all := GetEdges(start);
      var rest := all;
      while rest != {}
        invariant rest <= all
        invariant best.None? <==> (forall e :: e in all - rest ==> e.end != end)
        invariant best.Some? ==> best.value in all - rest && best.value.end == end
        invariant best.Some? ==> forall e :: e in all - rest && e.end == end ==> best.value.penalty <= e.penalty
        decreases rest
      {
        var edge :| edge in rest;
        if edge.end == end {
          var better := match best
            case None => true
            case Some(b) => edge.penalty < b.penalty;
          if better {
            best := Some(edge);
          }
        }
        rest := rest - {edge};
      }
    }
  }
}
