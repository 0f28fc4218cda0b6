/**
 * The path record (graph.go): an ordered list of edges traced from an
 * implicit source. Its distance is the sum of the weights, or -1 when the
 * path is empty; extending it with a negative-weight edge fails.
 */
module Paths {
  import opened Vertices
  import opened Wrappers

  /** Sum of the weights of es. */
  function Sum(es: seq<Edge>): int
  {
    if es == [] then 0 else Sum(es[..|es| - 1]) + es[|es| - 1].weight
  }

  predicate NonNegative(es: seq<Edge>)
  {
    forall k :: 0 <= k < |es| ==> es[k].weight >= 0
  }

  lemma {:induction false} SumNonNegative(es: seq<Edge>)
    requires NonNegative(es)
    ensures Sum(es) >= 0
  {
    if es != [] {
      SumNonNegative(es[..|es| - 1]);
    }
  }

  /** The error addEdge reports for a negative weight. */
  datatype PathError = NegativeWeight

  datatype Path = Path(edges: seq<Edge>) {

    /** Total distance to the destination: -1 when the path holds no edge. */
    function Distance(): (d: int)
      ensures edges == [] ==> d == -1
      ensures edges != [] ==> d == Sum(edges)
    {
      if |edges| == 0 then -1 else Sum(edges)
    }

    /** The target of the last edge; None when the path holds no edge. */
    function Destination(): (r: Option<VertexID>)
      ensures r.None? <==> edges == []
      ensures r.Some? ==> r.value == edges[|edges| - 1].to
    {
      if |edges| == 0 then None else Some(edges[|edges| - 1].to)
    }

    /** Appends target at the end, or fails when its weight is negative. */
    function AddEdge(target: Edge): (r: Result<Path, PathError>)
      ensures r.Err? <==> target.weight < 0
      ensures r.Ok? ==> r.value.edges == edges + [target]
    {
      if target.weight < 0 then Err(NegativeWeight) else Ok(Path(edges + [target]))
    }

    /**
     * Visits the edges in order until the handler returns false; returns the
     * edges visited, the refused one included.
     */
    method IterateEdge(handler: (VertexID, int) -> bool) returns (visited: seq<Edge>)
      ensures visited <= edges
      ensures forall k :: 0 <= k < |visited| - 1 ==> handler(visited[k].to, visited[k].weight)
      ensures |visited| < |edges| ==> visited != [] && !handler(visited[|visited| - 1].to, visited[|visited| - 1].weight)
    {
      visited := [];
      var k := 0;
      while k < |edges|
        invariant 0 <= k <= |edges|
        invariant visited == edges[..k]
        invariant forall m :: 0 <= m < k ==> handler(edges[m].to, edges[m].weight)
      {
        visited := visited + [edges[k]];
        if !handler(edges[k].to, edges[k].weight) {
          return;
        }
        k := k + 1;
      }
    }
  }

  /** A path whose edges all have a non-negative weight reports -1 exactly when it is empty. */
  lemma DistanceSentinel(p: Path)
    requires NonNegative(p.edges)
    ensures p.Distance() < 0 <==> p.edges == []
    ensures p.edges != [] ==> p.Distance() >= 0
  {
    SumNonNegative(p.edges);
  }

  /** A successful addEdge adds the new weight to the distance, counting from 0 for an empty path. */
  lemma AddEdgeDistance(p: Path, e: Edge)
    requires e.weight >= 0
    ensures p.AddEdge(e).Ok?
    ensures p.AddEdge(e).value.Distance() == (if p.edges == [] then 0 else p.Distance()) + e.weight
  {
    var q := p.edges + [e];
    assert q[..|q| - 1] == p.edges;
    assert Sum(q) == Sum(p.edges) + e.weight;
  }

  /** A successful addEdge makes e's target the destination and keeps every weight non-negative. */
  lemma AddEdgeDestination(p: Path, e: Edge)
    requires NonNegative(p.edges)
    ensures p.AddEdge(e).Ok? ==> p.AddEdge(e).value.Destination() == Some(e.to)
    ensures p.AddEdge(e).Ok? ==> NonNegative(p.AddEdge(e).value.edges)
  {
  }
}
