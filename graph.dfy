/**
 * The graph container (graph.go): a map from vertex identity to vertex
 * record, a counter that issues identities, and a mode saying whether edge
 * edits are mirrored. Adjacency() is the abstract view of the container;
 * each state-changing method is tied to a function on that view, and the
 * properties the library promises are lemmas about those functions.
 */
module Graphs {
  import opened Vertices
  import opened Paths
  import opened Walks
  import Dijkstra

  /** Type: Directional (A -> B is not B -> A) or Bidirectional (A <-> B). */
  datatype GraphType = Directional | Bidirectional

  // ---------------------------------------------------------------------------
  // The edits, on the abstract view
  // ---------------------------------------------------------------------------

  /** AddEdge on the view: one edge appended to from's list, mirrored on to's in Bidirectional mode. */
  function AddEdgeSpec(kind: GraphType, adj: Adjacency, from: VertexID, to: VertexID, weight: int): Adjacency
    requires from in adj && to in adj
  {
    var once := adj[from := adj[from] + [Edge(to, weight)]];
    if kind == Bidirectional then once[to := once[to] + [Edge(from, weight)]] else once
  }

  /** RemoveEdges on the view: removeEdge on from's list, mirrored on to's in Bidirectional mode. */
  function RemoveEdgesSpec(kind: GraphType, adj: Adjacency, from: VertexID, to: VertexID): Adjacency
    requires from in adj && to in adj
  {
    var once := adj[from := SwapRemove(adj[from], to)];
    if kind == Bidirectional then once[to := SwapRemove(once[to], from)] else once
  }

  /** RemoveVertex on the view: the vertex is gone and every other list has had removeEdge(id) applied. */
  function RemoveVertexSpec(adj: Adjacency, id: VertexID): Adjacency
  {
    map k | k in adj && k != id :: SwapRemove(adj[k], id)
  }

  /**
   * AddEdge appends exactly (to, weight) to from's list and, in Bidirectional
   * mode, (from, weight) to to's list; no other list changes and no vertex
   * appears or disappears.
   */
  lemma AddEdgeAppends(kind: GraphType, adj: Adjacency, from: VertexID, to: VertexID, weight: int)
    requires from in adj && to in adj
    ensures AddEdgeSpec(kind, adj, from, to, weight).Keys == adj.Keys
    ensures kind == Directional ==> AddEdgeSpec(kind, adj, from, to, weight)[from] == adj[from] + [Edge(to, weight)]
    ensures kind == Bidirectional && from != to ==>
              AddEdgeSpec(kind, adj, from, to, weight)[from] == adj[from] + [Edge(to, weight)] &&
              AddEdgeSpec(kind, adj, from, to, weight)[to] == adj[to] + [Edge(from, weight)]
    ensures kind == Bidirectional && from == to ==>
              AddEdgeSpec(kind, adj, from, to, weight)[from] == adj[from] + [Edge(to, weight), Edge(from, weight)]
    ensures kind == Directional && from != to ==> AddEdgeSpec(kind, adj, from, to, weight)[to] == adj[to]
    ensures forall v :: v in adj && v != from && v != to ==> AddEdgeSpec(kind, adj, from, to, weight)[v] == adj[v]
  {
    if kind == Bidirectional && from == to {
      assert adj[from] + [Edge(to, weight)] + [Edge(from, weight)] == adj[from] + [Edge(to, weight), Edge(from, weight)];
    }
  }

  /** AddEdge between two vertices of the graph keeps every edge pointing at a vertex of the graph. */
  lemma AddEdgeKeepsClosed(kind: GraphType, adj: Adjacency, from: VertexID, to: VertexID, weight: int)
    requires from in adj && to in adj && Closed(adj)
    ensures Closed(AddEdgeSpec(kind, adj, from, to, weight))
  {
    var r := AddEdgeSpec(kind, adj, from, to, weight);
    forall u: VertexID, e: Edge | u in r && e in r[u]
      ensures e.to in r
    {
      if u != from && u != to {
        assert e in adj[u];
      } else if e !in adj[u] {
        assert e == Edge(to, weight) || e == Edge(from, weight);
      }
    }
  }

  /**
   * After RemoveEdges(from, to) from has no edge to to and keeps every other
   * edge; in Bidirectional mode to has no edge to from and keeps every other
   * edge; in Directional mode to's list is untouched; other lists do not change.
   */
  lemma RemoveEdgesCuts(kind: GraphType, adj: Adjacency, from: VertexID, to: VertexID)
    requires from in adj && to in adj
    ensures RemoveEdgesSpec(kind, adj, from, to).Keys == adj.Keys
    ensures forall e :: e in RemoveEdgesSpec(kind, adj, from, to)[from] ==> e.to != to
    ensures kind == Bidirectional ==> forall e :: e in RemoveEdgesSpec(kind, adj, from, to)[to] ==> e.to != from
    ensures forall e :: e in RemoveEdgesSpec(kind, adj, from, to)[from] <==> e in adj[from] && e.to != to
    ensures kind == Bidirectional ==>
              forall e :: e in RemoveEdgesSpec(kind, adj, from, to)[to] <==> e in adj[to] && e.to != from
    ensures kind == Directional && from != to ==> RemoveEdgesSpec(kind, adj, from, to)[to] == adj[to]
    ensures forall v :: v in adj && v != from && v != to ==> RemoveEdgesSpec(kind, adj, from, to)[v] == adj[v]
  {
    var once := adj[from := SwapRemove(adj[from], to)];
    SwapRemoveMembers(adj[from], to);
    SwapRemoveMembers(once[to], from);
    if from == to {
      SwapRemoveIdempotent(adj[from], to);
    }
  }

  /** RemoveEdges keeps every edge pointing at a vertex of the graph. */
  lemma RemoveEdgesKeepsClosed(kind: GraphType, adj: Adjacency, from: VertexID, to: VertexID)
    requires from in adj && to in adj && Closed(adj)
    ensures Closed(RemoveEdgesSpec(kind, adj, from, to))
  {
    var once := adj[from := SwapRemove(adj[from], to)];
    SwapRemoveMembers(adj[from], to);
    SwapRemoveMembers(once[to], from);
  }

  /**
   * The removal cascade: the vertex is gone, no remaining edge targets it,
   * every remaining vertex keeps exactly its other edges, and in a graph
   * whose edges all point at vertices of the graph that stays so.
   */
  lemma RemoveVertexCascades(adj: Adjacency, id: VertexID)
    ensures RemoveVertexSpec(adj, id).Keys == adj.Keys - {id}
    ensures forall k, e :: k in RemoveVertexSpec(adj, id) && e in RemoveVertexSpec(adj, id)[k] ==> e.to != id
    ensures forall k, e :: k in RemoveVertexSpec(adj, id) ==>
              (e in RemoveVertexSpec(adj, id)[k] <==> e in adj[k] && e.to != id)
    ensures Closed(adj) ==> Closed(RemoveVertexSpec(adj, id))
  {
    forall k | k in adj && k != id
      ensures forall e :: e in SwapRemove(adj[k], id) <==> e in adj[k] && e.to != id
    {
      SwapRemoveMembers(adj[k], id);
    }
  }

  /**
   * Removing an identity that is not in a closed graph leaves the view
   * unchanged. RemoveVertex returns early for such an identity and never
   * applies the cascade; this lemma shows that the early return agrees with
   * what the cascade would have done.
   */
  lemma RemoveVertexAbsent(adj: Adjacency, id: VertexID)
    requires id !in adj && Closed(adj)
    ensures RemoveVertexSpec(adj, id) == adj
  {
    forall k | k in adj
      ensures SwapRemove(adj[k], id) == adj[k]
    {
      SwapRemoveNoop(adj[k], id);
    }
  }

  // ---------------------------------------------------------------------------
  // The container
  // ---------------------------------------------------------------------------

  class Graph {
    const kind: GraphType
    var vertices: map<VertexID, Vertex>
    /** vertexIDLast of the identity generator New installs. */
    var lastID: VertexID

    /** Every record sits under its own identity, and every identity was issued by the counter. */
    ghost predicate Valid()
      reads this, vertices.Values
    {
      lastID >= 0 &&
      forall id :: id in vertices ==> vertices[id].id == id && 0 < id <= lastID
    }

    /** The outgoing lists by identity. */
    function Adjacency(): Adjacency
      reads this, vertices.Values
    {
      map id | id in vertices :: vertices[id].outgoing
    }

    /** h is the handle of a vertex of this graph. */
    predicate Live(h: Handle)
      reads this
    {
      h.ID() in vertices && vertices[h.ID()] == h.vertex
    }

    /** New(t): an empty graph whose generator has issued nothing yet. */
    constructor (t: GraphType)
      ensures Valid() && kind == t && vertices == map[] && lastID == 0
    {
      kind := t;
      vertices := map[];
      lastID := 0;
    }

    /** The generator closure: increments the counter and returns it. */
    method GenerateID() returns (id: VertexID)
      requires Valid()
      modifies this
      ensures Valid() && vertices == old(vertices)
      ensures id == lastID == old(lastID) + 1
      ensures id > 0 && id !in vertices
      ensures forall k :: k in vertices ==> k < id
    {
      lastID := lastID + 1;
      id := lastID;
    }

    /** NewVertex: registers a fresh record under a new identity, greater than any issued before. */
    method NewVertex() returns (h: Handle)
      requires Valid()
      modifies this
      ensures Valid() && Live(h) && fresh(h.vertex)
      ensures h.ID() == lastID == old(lastID) + 1
      ensures forall k :: k in old(vertices) ==> k < h.ID()
      ensures vertices == old(vertices)[h.ID() := h.vertex]
      ensures Adjacency() == old(Adjacency())[h.ID() := []]
    {
      var id := GenerateID();
      var v := new Vertex(id);
      vertices := vertices[id := v];
      h := Handle(v);
    }

    /**
     * RemoveVertex(id): false and nothing changed when id is absent;
     * otherwise true, the record is dropped and every remaining record has
     * had removeEdge(id) applied.
     */
    method RemoveVertex(id: VertexID) returns (removed: bool)
      requires Valid()
      modifies this, vertices.Values
      ensures Valid() && lastID == old(lastID)
      ensures removed <==> id in old(vertices)
      ensures !removed ==> vertices == old(vertices) && Adjacency() == old(Adjacency())
      ensures removed ==> vertices == old(vertices) - {id}
      ensures removed ==> Adjacency() == RemoveVertexSpec(old(Adjacency()), id)
    {
      if id !in vertices {
        return false;
      }
      vertices := vertices - {id};
      var todo := vertices.Keys;
      while todo != {}
        invariant vertices == old(vertices) - {id} && lastID == old(lastID)
        invariant todo <= vertices.Keys
        invariant forall k :: k in vertices ==> vertices[k].id == k
        invariant forall k :: k in vertices && k !in todo ==>
                    vertices[k].outgoing == SwapRemove(old(vertices[k].outgoing), id)
        invariant forall k :: k in todo ==> vertices[k].outgoing == old(vertices[k].outgoing)
        decreases todo
      {
        Pick(todo);
        var k :| k in todo;
        vertices[k].RemoveEdge(id);
        todo := todo - {k};
      }
      removed := true;
    }

    /** AddEdge(from, to, weight): from gets (to, weight); in Bidirectional mode to also gets (from, weight). */
    method AddEdge(from: Handle, to: Handle, weight: int)
      requires Valid()
      modifies from.vertex, to.vertex
      ensures Valid()
      ensures kind == Directional ==> from.vertex.outgoing == old(from.vertex.outgoing) + [Edge(to.ID(), weight)]
      ensures kind == Directional && from.vertex != to.vertex ==> to.vertex.outgoing == old(to.vertex.outgoing)
      ensures kind == Bidirectional && from.vertex != to.vertex ==>
                from.vertex.outgoing == old(from.vertex.outgoing) + [Edge(to.ID(), weight)] &&
                to.vertex.outgoing == old(to.vertex.outgoing) + [Edge(from.ID(), weight)]
      ensures kind == Bidirectional && from.vertex == to.vertex ==>
                from.vertex.outgoing == old(from.vertex.outgoing) + [Edge(to.ID(), weight), Edge(from.ID(), weight)]
      ensures old(Live(from)) && old(Live(to)) ==>
                Adjacency() == AddEdgeSpec(kind, old(Adjacency()), from.ID(), to.ID(), weight)
    {
      ghost var before := Adjacency();
      from.vertex.AddEdge(to.ID(), weight);
      if kind == Bidirectional {
        to.vertex.AddEdge(from.ID(), weight);
      }
      if old(Live(from)) && old(Live(to)) {
        AddEdgeAppends(kind, before, from.ID(), to.ID(), weight);
        assert forall id :: id in vertices ==>
          vertices[id].outgoing == AddEdgeSpec(kind, before, from.ID(), to.ID(), weight)[id];
      }
    }

    /** RemoveEdges(from, to): removeEdge(to) on from and, in Bidirectional mode, removeEdge(from) on to. */
    method RemoveEdges(from: Handle, to: Handle)
      requires Valid()
      modifies from.vertex, to.vertex
      ensures Valid()
      ensures kind == Directional ==> from.vertex.outgoing == SwapRemove(old(from.vertex.outgoing), to.ID())
      ensures kind == Directional && from.vertex != to.vertex ==> to.vertex.outgoing == old(to.vertex.outgoing)
      ensures kind == Bidirectional && from.vertex != to.vertex ==>
                from.vertex.outgoing == SwapRemove(old(from.vertex.outgoing), to.ID()) &&
                to.vertex.outgoing == SwapRemove(old(to.vertex.outgoing), from.ID())
      ensures kind == Bidirectional && from.vertex == to.vertex ==>
                from.vertex.outgoing == SwapRemove(old(from.vertex.outgoing), to.ID())
      ensures old(Live(from)) && old(Live(to)) ==>
                Adjacency() == RemoveEdgesSpec(kind, old(Adjacency()), from.ID(), to.ID())
    {
      ghost var before := Adjacency();
      from.vertex.RemoveEdge(to.ID());
      if kind == Bidirectional {
        to.vertex.RemoveEdge(from.ID());
      }
      if kind == Bidirectional && from.vertex == to.vertex {
        SwapRemoveIdempotent(old(from.vertex.outgoing), to.ID());
      }
      if old(Live(from)) && old(Live(to)) {
        assert forall id :: id in vertices ==>
          vertices[id].outgoing == RemoveEdgesSpec(kind, before, from.ID(), to.ID())[id];
      }
    }

    /**
     * ShortestPath(src, dest): the path handed over for dest, or the empty
     * path when dest is never handed over (unreachable, or dest is src).
     */
    method ShortestPath(src: Handle, dest: Handle) returns (p: Path)
      ensures p.edges != [] ==> dest.ID() in Adjacency() && dest.ID() != src.ID()
      ensures NonNegativeWeights(Adjacency()) && Closed(Adjacency()) ==>
                (p.edges != [] <==>
                  dest.ID() in Adjacency() && dest.ID() != src.ID() && Reachable(Adjacency(), src.ID(), dest.ID()))
      ensures NonNegativeWeights(Adjacency()) && Closed(Adjacency()) && p.edges != [] ==>
                Shortest(Adjacency(), src.ID(), p.edges, dest.ID())
    {
      var adj := Adjacency();
      var target := dest.ID();
      var calls := Dijkstra.Dijkstra(adj, src.ID(), (v: VertexID, shortest: Path) => v != target);
      p := Path([]);
      if |calls| > 0 && calls[|calls| - 1].0 == target {
        p := calls[|calls| - 1].1;
      }
      if NonNegativeWeights(adj) && Closed(adj) {
        if p.edges != [] {
          var k := |calls| - 1;
          assert Shortest(adj, src.ID(), calls[k].1.edges, calls[k].0);
        }
      }
    }

    /**
     * ShortestPaths(source): every handed-over vertex with its path, the
     * handler accepting every vertex. Keyed by vertex identity.
     */
    method ShortestPaths(source: Handle) returns (dists: map<VertexID, Path>)
      ensures forall v :: v in dists ==> v in Adjacency() && v != source.ID()
      ensures NonNegativeWeights(Adjacency()) && Closed(Adjacency()) ==>
                forall v :: v in dists <==>
                  v in Adjacency() && v != source.ID() && Reachable(Adjacency(), source.ID(), v)
      ensures NonNegativeWeights(Adjacency()) && Closed(Adjacency()) ==>
                forall v :: v in dists ==> Shortest(Adjacency(), source.ID(), dists[v].edges, v)
    {
      var adj := Adjacency();
      var calls := Dijkstra.Dijkstra(adj, source.ID(), (v: VertexID, p: Path) => true);
      dists := map[];
      var k := 0;
      while k < |calls|
        invariant 0 <= k <= |calls|
        invariant forall j :: 0 <= j < k ==> calls[j].0 in dists && dists[calls[j].0] == calls[j].1
        invariant forall v :: v in dists ==> exists j :: 0 <= j < k && calls[j].0 == v
      {
        dists := dists[calls[k].0 := calls[k].1];
        k := k + 1;
      }
    }
  }
}
