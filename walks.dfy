/**
 * Walks in an adjacency map: the reference against which the shortest-path
 * engine is judged. A walk from s is a list of edges in which each edge
 * leaves the vertex the previous one entered (s for the first edge).
 */
module Walks {
  import opened Vertices
  import opened Paths

  /** Outgoing edge lists by vertex identity. */
  type Adjacency = map<VertexID, seq<Edge>>

  /** The vertex a walk from s ends at. */
  function End(s: VertexID, p: seq<Edge>): VertexID
  {
    if p == [] then s else p[|p| - 1].to
  }

  /** p is a walk from s in adj. */
  ghost predicate IsWalk(adj: Adjacency, s: VertexID, p: seq<Edge>)
    decreases |p|
  {
    p == [] ||
    (IsWalk(adj, s, p[..|p| - 1]) &&
     End(s, p[..|p| - 1]) in adj &&
     p[|p| - 1] in adj[End(s, p[..|p| - 1])])
  }

  ghost predicate Reachable(adj: Adjacency, s: VertexID, v: VertexID)
  {
    exists p :: IsWalk(adj, s, p) && End(s, p) == v
  }

  /** d is at most the weight of every walk from s to v. */
  ghost predicate AtMostEveryWalk(adj: Adjacency, s: VertexID, v: VertexID, d: int)
  {
    forall q :: IsWalk(adj, s, q) && End(s, q) == v ==> d <= Sum(q)
  }

  /** p is a walk from s to v of least weight. */
  ghost predicate Shortest(adj: Adjacency, s: VertexID, p: seq<Edge>, v: VertexID)
  {
    IsWalk(adj, s, p) && End(s, p) == v && AtMostEveryWalk(adj, s, v, Sum(p))
  }

  /** Every edge targets a vertex of the map. */
  ghost predicate Closed(adj: Adjacency)
  {
    forall u, e :: u in adj && e in adj[u] ==> e.to in adj
  }

  ghost predicate NonNegativeWeights(adj: Adjacency)
  {
    forall u, e :: u in adj && e in adj[u] ==> e.weight >= 0
  }

  lemma WalkExtend(adj: Adjacency, s: VertexID, p: seq<Edge>, e: Edge)
    requires IsWalk(adj, s, p) && End(s, p) in adj && e in adj[End(s, p)]
    ensures IsWalk(adj, s, p + [e]) && End(s, p + [e]) == e.to
  {
    assert (p + [e])[..|p|] == p;
  }

  /** With non-negative weights every walk weighs at least 0. */
  lemma {:induction false} WalkWeightNonNegative(adj: Adjacency, s: VertexID, p: seq<Edge>)
    requires NonNegativeWeights(adj) && IsWalk(adj, s, p)
    ensures Sum(p) >= 0
  {
    if p != [] {
      WalkWeightNonNegative(adj, s, p[..|p| - 1]);
    }
  }

  /** A non-empty set has a member to pick, as a range over a Go map does. */
  lemma Pick(s: set<VertexID>)
    requires s != {}
    ensures exists v :: v in s
  {
    if forall v :: v !in s {
    }
  }
}
