/**
 * The Dijkstra engine (graph.go, dijkstra).
 *
 * The engine runs over the outgoing edge lists of the graph, given as a map
 * from vertex identity to edge list. The handler the caller passes in is a
 * pure function deciding whether to go on; the engine returns the calls it
 * made to it, in order, each with the vertex and the path it was handed.
 *
 * The loop is the source's, including the error from extending a path with
 * a negative weight being ignored. The shortest-path guarantees hold when
 * every weight is non-negative and every edge targets a vertex of the map.
 */
module Dijkstra {
  import opened Vertices
  import opened Paths
  import opened Walks
  import opened DistanceHeaps

  /** shortestPaths[v], with Go's zero value (the empty path) for a missing key. */
  function Lookup(paths: map<VertexID, Path>, v: VertexID): Path
  {
    if v in paths then paths[v] else Path([])
  }

  /** The vertices the handler was called with. */
  ghost function Handed(calls: seq<(VertexID, Path)>): set<VertexID>
  {
    set k | 0 <= k < |calls| :: calls[k].0
  }

  /** The heap entries of the vertices in `remaining`, each carrying its priority. */
  ghost function Entries(remaining: set<VertexID>, prio: map<VertexID, int>): set<Edge>
    requires remaining <= prio.Keys
  {
    set v | v in remaining :: Edge(v, prio[v])
  }

  // ---------------------------------------------------------------------------
  // Bookkeeping of the heap contents
  // ---------------------------------------------------------------------------

  lemma EntriesInsert(r: set<VertexID>, prio: map<VertexID, int>, v: VertexID, w: int)
    requires r <= prio.Keys && v !in r
    ensures multiset(Entries(r + {v}, prio[v := w])) == multiset(Entries(r, prio)) + multiset{Edge(v, w)}
  {
    assert Entries(r + {v}, prio[v := w]) == Entries(r, prio) + {Edge(v, w)};
    assert Edge(v, w) !in Entries(r, prio);
  }

  lemma EntriesRemove(r: set<VertexID>, prio: map<VertexID, int>, v: VertexID)
    requires r <= prio.Keys && v in r
    ensures multiset(Entries(r - {v}, prio)) == multiset(Entries(r, prio)) - multiset{Edge(v, prio[v])}
  {
    assert Entries(r - {v}, prio) == Entries(r, prio) - {Edge(v, prio[v])};
  }

  lemma EntriesReprioritize(r: set<VertexID>, prio: map<VertexID, int>, v: VertexID, w: int)
    requires r <= prio.Keys && v in r
    ensures multiset(Entries(r, prio[v := w])) ==
            multiset(Entries(r, prio)) - multiset{Edge(v, prio[v])} + multiset{Edge(v, w)}
  {
    var rest := r - {v};
    assert Entries(r, prio[v := w]) == Entries(rest, prio) + {Edge(v, w)};
    assert Entries(r, prio) == Entries(rest, prio) + {Edge(v, prio[v])};
    assert Edge(v, w) !in Entries(rest, prio);
    assert Edge(v, prio[v]) !in Entries(rest, prio);
  }

  lemma EntriesUntouched(r: set<VertexID>, prio: map<VertexID, int>, v: VertexID, w: int)
    requires r <= prio.Keys && v !in r
    ensures Entries(r, prio[v := w]) == Entries(r, prio)
  {
  }

  /** Overwriting one slot swaps one element of the multiset for another. */
  lemma SlotUpdate(s: seq<Edge>, k: nat, x: Edge)
    requires k < |s|
    ensures multiset(s[k := x]) == multiset(s) - multiset{s[k]} + multiset{x}
  {
    assert s == s[..k] + [s[k]] + s[k + 1..];
    assert s[k := x] == s[..k] + [x] + s[k + 1..];
  }

  // ---------------------------------------------------------------------------
  // The state the engine keeps, and why it yields shortest paths
  // ---------------------------------------------------------------------------

  /**
   * Every vertex other than src has a tentative path whose distance is its
   * priority; a non-empty one is a walk from src to that vertex. src has
   * priority 0 and no entry, as in the source.
   */
  ghost predicate Tentative(adj: Adjacency, src: VertexID, paths: map<VertexID, Path>, prio: map<VertexID, int>)
  {
    src in prio && prio[src] == 0 && src !in paths &&
    paths.Keys == adj.Keys - {src} && adj.Keys <= prio.Keys &&
    forall v :: v in paths ==>
      prio[v] == paths[v].Distance() &&
      (paths[v].edges != [] ==> IsWalk(adj, src, paths[v].edges) && End(src, paths[v].edges) == v)
  }

  /** A settled vertex has a final, non-negative priority no walk from src undercuts. */
  ghost predicate SettledFinal(adj: Adjacency, src: VertexID, settled: set<VertexID>, prio: map<VertexID, int>)
  {
    settled <= prio.Keys &&
    forall v :: v in settled ==> prio[v] >= 0 && AtMostEveryWalk(adj, src, v, prio[v])
  }

  /** Each edge of es out of u (other than an edge back to src) has been relaxed. */
  ghost predicate RelaxedFrom(src: VertexID, u: VertexID, es: seq<Edge>, paths: map<VertexID, Path>, prio: map<VertexID, int>)
  {
    forall e :: e in es && e.to != src ==>
      e.to in paths && paths[e.to].edges != [] && u in prio && e.to in prio &&
      prio[e.to] <= prio[u] + e.weight
  }

  /** Every edge out of a settled vertex has been relaxed. */
  ghost predicate Relaxed(adj: Adjacency, src: VertexID, settled: set<VertexID>, paths: map<VertexID, Path>, prio: map<VertexID, int>)
  {
    forall u :: u in settled && u in adj ==> RelaxedFrom(src, u, adj[u], paths, prio)
  }

  /** With non-negative weights a non-empty tentative path has a non-negative distance. */
  lemma TentativeFinite(adj: Adjacency, src: VertexID, paths: map<VertexID, Path>, prio: map<VertexID, int>, v: VertexID)
    requires NonNegativeWeights(adj) && Tentative(adj, src, paths, prio)
    requires v in paths && paths[v].edges != []
    ensures prio[v] == Sum(paths[v].edges) >= 0
  {
    WalkWeightNonNegative(adj, src, paths[v].edges);
  }

  /**
   * A walk from src that ends outside the settled set weighs at least m,
   * when m is at most the priority of every discovered unsettled vertex.
   */
  lemma {:induction false} LeavingSettled(adj: Adjacency, src: VertexID, settled: set<VertexID>,
                                          paths: map<VertexID, Path>, prio: map<VertexID, int>, m: int, q: seq<Edge>)
    requires NonNegativeWeights(adj)
    requires Tentative(adj, src, paths, prio) && SettledFinal(adj, src, settled, prio)
    requires Relaxed(adj, src, settled, paths, prio) && src in settled
    requires forall v :: v in paths && v !in settled && paths[v].edges != [] ==> m <= prio[v]
    requires IsWalk(adj, src, q) && End(src, q) !in settled
    ensures m <= Sum(q)
    decreases |q|
  {
    var p := q[..|q| - 1];
    var y := End(src, p);
    var e := q[|q| - 1];
    if y in settled {
      assert RelaxedFrom(src, y, adj[y], paths, prio);
      assert e.to != src && e in adj[y];
      assert prio[y] <= Sum(p);
    } else {
      LeavingSettled(adj, src, settled, paths, prio, m, p);
    }
  }

  /** The vertex popped with the least non-negative priority has its final distance. */
  lemma PoppedIsFinal(adj: Adjacency, src: VertexID, settled: set<VertexID>,
                      paths: map<VertexID, Path>, prio: map<VertexID, int>, u: VertexID)
    requires NonNegativeWeights(adj)
    requires Tentative(adj, src, paths, prio) && SettledFinal(adj, src, settled, prio)
    requires Relaxed(adj, src, settled, paths, prio)
    requires u in adj && u !in settled && prio[u] >= 0
    requires src !in settled ==> settled == {} && forall v :: v in paths ==> paths[v].edges == []
    requires forall v :: v in paths && v !in settled && paths[v].edges != [] ==> prio[u] <= prio[v]
    ensures AtMostEveryWalk(adj, src, u, prio[u])
  {
    if src !in settled {
      assert u == src;
      forall q | IsWalk(adj, src, q) && End(src, q) == u
        ensures prio[u] <= Sum(q)
      {
        WalkWeightNonNegative(adj, src, q);
      }
    } else {
      forall q | IsWalk(adj, src, q) && End(src, q) == u
        ensures prio[u] <= Sum(q)
      {
        LeavingSettled(adj, src, settled, paths, prio, prio[u], q);
      }
    }
  }

  /**
   * When every unsettled vertex still has a negative priority, every walk
   * from src ends at a settled vertex.
   */
  lemma {:induction false} ReachableAreSettled(adj: Adjacency, src: VertexID, settled: set<VertexID>,
                                               paths: map<VertexID, Path>, prio: map<VertexID, int>, q: seq<Edge>)
    requires NonNegativeWeights(adj) && Closed(adj)
    requires Tentative(adj, src, paths, prio) && Relaxed(adj, src, settled, paths, prio)
    requires src in settled && settled <= adj.Keys
    requires forall v :: v in adj && v !in settled ==> prio[v] < 0
    requires IsWalk(adj, src, q)
    ensures End(src, q) in settled
    decreases |q|
  {
    if q != [] {
      var p := q[..|q| - 1];
      ReachableAreSettled(adj, src, settled, paths, prio, p);
      var y := End(src, p);
      var e := q[|q| - 1];
      assert RelaxedFrom(src, y, adj[y], paths, prio);
      if e.to != src {
        TentativeFinite(adj, src, paths, prio, e.to);
      }
    }
  }
  /**
   * Relaxing edge e out of the settled vertex u, when its target has no path
   * yet or the new distance is strictly smaller: the target is not settled,
   * and u's path extended by e is a walk to it of the new distance.
   */
  lemma RelaxTarget(adj: Adjacency, src: VertexID, settled: set<VertexID>, u: VertexID,
                    paths: map<VertexID, Path>, prio: map<VertexID, int>, e: Edge)
    requires NonNegativeWeights(adj) && Closed(adj)
    requires u in settled && u in adj && e in adj[u] && e.to != src
    requires Tentative(adj, src, paths, prio) && SettledFinal(adj, src, settled, prio)
    requires Lookup(paths, e.to).Distance() < 0 || prio[u] + e.weight < Lookup(paths, e.to).Distance()
    ensures e.to !in settled && e.weight >= 0 && e.to in paths
    ensures IsWalk(adj, src, Lookup(paths, u).edges + [e]) && End(src, Lookup(paths, u).edges + [e]) == e.to
    ensures Path(Lookup(paths, u).edges + [e]).Distance() == prio[u] + e.weight
  {
    var walk := Lookup(paths, u).edges + [e];
    if u != src {
      TentativeFinite(adj, src, paths, prio, u);
    }
    WalkExtend(adj, src, Lookup(paths, u).edges, e);
    assert walk[..|walk| - 1] == Lookup(paths, u).edges;
    assert Sum(walk) == prio[u] + e.weight;
    if e.to in settled {
      assert false;
    }
  }

  /** The relaxation of an improving edge keeps every relaxed edge relaxed. */
  lemma RelaxStaysRelaxed(adj: Adjacency, src: VertexID, settled: set<VertexID>, u: VertexID,
                          paths: map<VertexID, Path>, prio: map<VertexID, int>, es: seq<Edge>, e: Edge, p: Path)
    requires NonNegativeWeights(adj)
    requires u in settled && u in prio && e.to !in settled && e.to != src && e.weight >= 0 && p.edges != []
    requires Tentative(adj, src, paths, prio)
    requires Relaxed(adj, src, settled - {u}, paths, prio) && RelaxedFrom(src, u, es, paths, prio)
    requires Lookup(paths, e.to).Distance() < 0 || prio[u] + e.weight < Lookup(paths, e.to).Distance()
    ensures Relaxed(adj, src, settled - {u}, paths[e.to := p], prio[e.to := prio[u] + e.weight])
    ensures RelaxedFrom(src, u, es + [e], paths[e.to := p], prio[e.to := prio[u] + e.weight])
  {
    var paths' := paths[e.to := p];
    var prio' := prio[e.to := prio[u] + e.weight];
    forall v | v in settled - {u} && v in adj
      ensures RelaxedFrom(src, v, adj[v], paths', prio')
    {
      assert RelaxedFrom(src, v, adj[v], paths, prio);
      forall f | f in adj[v] && f.to == e.to
        ensures prio[e.to] >= 0
      {
        TentativeFinite(adj, src, paths, prio, e.to);
      }
    }
    forall f | f in es && f.to == e.to
      ensures prio[e.to] >= 0
    {
      TentativeFinite(adj, src, paths, prio, e.to);
    }
  }

  /** Giving the non-source vertex v a walk p to it, with the priority p's distance, keeps the tentative state. */
  lemma RecordWalk(adj: Adjacency, src: VertexID, paths: map<VertexID, Path>, prio: map<VertexID, int>, v: VertexID, p: Path)
    requires Tentative(adj, src, paths, prio) && v in paths
    requires p.edges != [] && IsWalk(adj, src, p.edges) && End(src, p.edges) == v
    ensures Tentative(adj, src, paths[v := p], prio[v := p.Distance()])
  {
  }

  /** Changing the priority of an unsettled vertex keeps the settled ones final. */
  lemma SettledUntouched(adj: Adjacency, src: VertexID, settled: set<VertexID>, prio: map<VertexID, int>, v: VertexID, w: int)
    requires SettledFinal(adj, src, settled, prio) && v !in settled
    ensures SettledFinal(adj, src, settled, prio[v := w])
  {
  }

  /** Relaxing edge e leaves everything as it is when it does not improve its target. */
  lemma RelaxKeeps(adj: Adjacency, src: VertexID, settled: set<VertexID>, u: VertexID,
                   paths: map<VertexID, Path>, prio: map<VertexID, int>, es: seq<Edge>, e: Edge)
    requires Tentative(adj, src, paths, prio) && RelaxedFrom(src, u, es, paths, prio) && u in prio
    requires e.to != src ==> !(Lookup(paths, e.to).Distance() < 0 || prio[u] + e.weight < Lookup(paths, e.to).Distance())
    ensures RelaxedFrom(src, u, es + [e], paths, prio)
  {
  }

  /** Edge e out of a vertex popped with priority d gives its target a new path. */
  predicate Improves(src: VertexID, d: int, paths: map<VertexID, Path>, e: Edge)
  {
    e.to != src &&
    (Lookup(paths, e.to).Distance() < 0 || d + e.weight < Lookup(paths, e.to).Distance())
  }

  /**
   * Having relaxed the edges es out of a vertex popped with priority d, the
   * path of v is still its path from before the round when no edge of es
   * targets v, or when v already had a path that no edge of es to v beats
   * strictly: paths change only on a strict improvement, ties keep the
   * earlier path.
   */
  ghost predicate KeepsUnimproved(d: int, es: seq<Edge>, paths0: map<VertexID, Path>, paths: map<VertexID, Path>)
  {
    forall v ::
      ((forall e :: e in es ==> e.to != v) ||
       (Lookup(paths0, v).Distance() >= 0 &&
        forall e :: e in es && e.to == v ==> d + e.weight >= Lookup(paths0, v).Distance())) ==>
      Lookup(paths, v) == Lookup(paths0, v)
  }

  /** Relaxing one more edge e, whatever path q it records, keeps KeepsUnimproved. */
  lemma KeepStep(src: VertexID, d: int, es: seq<Edge>, e: Edge,
                 paths0: map<VertexID, Path>, paths: map<VertexID, Path>, q: Path)
    requires KeepsUnimproved(d, es, paths0, paths)
    ensures KeepsUnimproved(d, es + [e], paths0, if Improves(src, d, paths, e) then paths[e.to := q] else paths)
  {
    var paths' := if Improves(src, d, paths, e) then paths[e.to := q] else paths;
    forall v | (forall x :: x in es + [e] ==> x.to != v) ||
               (Lookup(paths0, v).Distance() >= 0 &&
                forall x :: x in es + [e] && x.to == v ==> d + x.weight >= Lookup(paths0, v).Distance())
      ensures Lookup(paths', v) == Lookup(paths0, v)
    {
      assert e in es + [e];
      assert forall x :: x in es ==> x in es + [e];
      assert Lookup(paths, v) == Lookup(paths0, v);
    }
  }

  /**
   * The state of the inner loop of dijkstra while it relaxes the edges of u,
   * popped with priority d: es are the edges relaxed so far.
   */
  ghost predicate RelaxState(adj: Adjacency, src: VertexID, settled: set<VertexID>, u: VertexID, d: int,
                             es: seq<Edge>, paths: map<VertexID, Path>, prio: map<VertexID, int>)
  {
    NonNegativeWeights(adj) && Closed(adj) &&
    u in settled && u in adj && u in prio && prio[u] == d &&
    Tentative(adj, src, paths, prio) && SettledFinal(adj, src, settled, prio) &&
    Relaxed(adj, src, settled - {u}, paths, prio) && RelaxedFrom(src, u, es, paths, prio)
  }

  /** Relaxing edge e of u, improving or not, keeps the state. */
  lemma RelaxEdge(adj: Adjacency, src: VertexID, settled: set<VertexID>, u: VertexID, d: int,
                  es: seq<Edge>, paths: map<VertexID, Path>, prio: map<VertexID, int>, e: Edge)
    requires RelaxState(adj, src, settled, u, d, es, paths, prio) && e in adj[u]
    ensures Improves(src, d, paths, e) ==>
              e.weight >= 0 &&
              RelaxState(adj, src, settled, u, d, es + [e],
                         paths[e.to := Path(Lookup(paths, u).edges + [e])], prio[e.to := d + e.weight])
    ensures !Improves(src, d, paths, e) ==> RelaxState(adj, src, settled, u, d, es + [e], paths, prio)
  {
    if Improves(src, d, paths, e) {
      RelaxTarget(adj, src, settled, u, paths, prio, e);
      var p := Path(Lookup(paths, u).edges + [e]);
      RecordWalk(adj, src, paths, prio, e.to, p);
      SettledUntouched(adj, src, settled, prio, e.to, d + e.weight);
      RelaxStaysRelaxed(adj, src, settled, u, paths, prio, es, e, p);
    } else {
      RelaxKeeps(adj, src, settled, u, paths, prio, es, e);
    }
  }

  /** Once all its edges are relaxed, u joins the relaxed settled vertices. */
  lemma RelaxDone(adj: Adjacency, src: VertexID, settled: set<VertexID>, u: VertexID, d: int,
                  paths: map<VertexID, Path>, prio: map<VertexID, int>)
    requires u in adj && RelaxState(adj, src, settled, u, d, adj[u], paths, prio)
    ensures Relaxed(adj, src, settled, paths, prio)
  {
    assert forall v :: v in settled && v in adj ==> v == u || v in settled - {u};
  }

  /** After the heap's update of v to weight w it holds the entries under v's new priority. */
  lemma UpdatedEntries(before: seq<Edge>, after: seq<Edge>, remaining: set<VertexID>,
                       prio: map<VertexID, int>, v: VertexID, w: int)
    requires remaining <= prio.Keys && multiset(before) == multiset(Entries(remaining, prio))
    requires (forall k :: 0 <= k < |before| ==> before[k].to != v) ==> after == before
    requires forall k :: (0 <= k < |before| && before[k].to == v &&
                          forall m :: 0 <= m < k ==> before[m].to != v) ==>
                         multiset(after) == multiset(before[k := Edge(v, w)])
    ensures multiset(after) == multiset(Entries(remaining, prio[v := w]))
  {
    if v in remaining {
      assert Edge(v, prio[v]) in multiset(before);
      var k :| 0 <= k < |before| && before[k] == Edge(v, prio[v]);
      FirstIndex(before, v, k);
      var f :| 0 <= f < |before| && before[f].to == v && forall m :: 0 <= m < f ==> before[m].to != v;
      assert before[f] in multiset(before);
      SlotUpdate(before, f, Edge(v, w));
      EntriesReprioritize(remaining, prio, v, w);
    } else {
      forall m | 0 <= m < |before|
        ensures before[m].to != v
      {
        assert before[m] in multiset(before);
      }
      EntriesUntouched(remaining, prio, v, w);
    }
  }

  /** In a list holding an entry for v, some entry for v has none before it. */
  lemma {:induction false} FirstIndex(s: seq<Edge>, v: VertexID, k: nat)
    requires k < |s| && s[k].to == v
    ensures exists f :: 0 <= f < |s| && s[f].to == v && forall m :: 0 <= m < f ==> s[m].to != v
    decreases k
  {
    if exists m :: 0 <= m < k && s[m].to == v {
      var m :| 0 <= m < k && s[m].to == v;
      FirstIndex(s, v, m);
    }
  }

  // ---------------------------------------------------------------------------
  // The engine
  // ---------------------------------------------------------------------------

  /** distHeap.update(v, w), read as a change to the priority of v. */
  method Reprioritize(heap: DistanceHeap, v: VertexID, w: int,
                      ghost remaining: set<VertexID>, ghost prio: map<VertexID, int>)
    requires heap.Valid() && remaining <= prio.Keys
    requires multiset(heap.items) == multiset(Entries(remaining, prio))
    modifies heap
    ensures heap.Valid() && |heap.items| == old(|heap.items|)
    ensures multiset(heap.items) == multiset(Entries(remaining, prio[v := w]))
  {
    ghost var before := heap.items;
    heap.Update(v, w);
    UpdatedEntries(before, heap.items, remaining, prio, v, w);
  }

  /**
   * The path an improving edge e out of u records for its target: u's path
   * extended by e. As in the source, a failure to extend (a negative
   * weight) is ignored, and the target then gets u's path unextended.
   */
  function Extended(paths: map<VertexID, Path>, u: VertexID, e: Edge): (p: Path)
    ensures e.weight >= 0 ==> p.edges == Lookup(paths, u).edges + [e]
    ensures e.weight < 0 ==> p == Lookup(paths, u)
  {
    var r := Lookup(paths, u).AddEdge(e);
    if r.Ok? then r.value else Lookup(paths, u)
  }

  /**
   * One pass of the inner loop of dijkstra for edge e out of u, popped with
   * priority d: an edge into src is skipped; otherwise, when the target has
   * no path yet or d + e.weight is strictly smaller than its distance, it
   * gets the extended path and the new priority, and the heap is updated.
   */
  method RelaxOne(src: VertexID, u: VertexID, d: int, heap: DistanceHeap, e: Edge,
                  paths: map<VertexID, Path>, ghost remaining: set<VertexID>, ghost prio: map<VertexID, int>)
    returns (paths': map<VertexID, Path>, ghost prio': map<VertexID, int>)
    requires heap.Valid() && remaining <= prio.Keys
    requires multiset(heap.items) == multiset(Entries(remaining, prio))
    modifies heap
    ensures heap.Valid() && |heap.items| == old(|heap.items|)
    ensures paths' == if Improves(src, d, paths, e) then paths[e.to := Extended(paths, u, e)] else paths
    ensures prio' == if Improves(src, d, paths, e) then prio[e.to := d + e.weight] else prio
    ensures remaining <= prio'.Keys && multiset(heap.items) == multiset(Entries(remaining, prio'))
  {
    paths', prio' := paths, prio;
    if e.to != src {
      var newW := d + e.weight;
      var oldW := Lookup(paths, e.to).Distance();
      if oldW < 0 || newW < oldW {
        var fixedPath := Lookup(paths, u);
        var extended := fixedPath.AddEdge(e);
        if extended.Ok? {
          fixedPath := extended.value;
        }
        paths' := paths[e.to := fixedPath];
        Reprioritize(heap, e.to, newW, remaining, prio);
        prio' := prio[e.to := newW];
      }
    }
  }

  /**
   * The inner loop of dijkstra: relaxes every edge out of u, whose popped
   * priority is d. A vertex gets u's path extended by the edge, and the new
   * priority, when it has no path yet or the new distance is strictly
   * smaller; ties keep the earlier path.
   */
  method RelaxOutgoing(adj: Adjacency, src: VertexID, u: VertexID, d: int, heap: DistanceHeap,
                       paths0: map<VertexID, Path>, ghost remaining: set<VertexID>, ghost prio0: map<VertexID, int>, ghost nn: bool)
    returns (paths: map<VertexID, Path>, ghost prio: map<VertexID, int>)
    requires u in adj && u in prio0 && prio0[u] == d
    requires heap.Valid() && remaining <= adj.Keys <= prio0.Keys && u !in remaining
    requires multiset(heap.items) == multiset(Entries(remaining, prio0))
    requires src !in paths0
    requires nn ==> NonNegativeWeights(adj) && Closed(adj) &&
                    Tentative(adj, src, paths0, prio0) &&
                    SettledFinal(adj, src, adj.Keys - remaining, prio0) &&
                    Relaxed(adj, src, adj.Keys - remaining - {u}, paths0, prio0)
    modifies heap
    ensures heap.Valid() && |heap.items| == old(|heap.items|)
    ensures adj.Keys <= prio.Keys && multiset(heap.items) == multiset(Entries(remaining, prio))
    ensures src !in paths
    ensures KeepsUnimproved(d, adj[u], paths0, paths)
    ensures nn ==> Tentative(adj, src, paths, prio) &&
                   SettledFinal(adj, src, adj.Keys - remaining, prio) &&
                   Relaxed(adj, src, adj.Keys - remaining, paths, prio)
  {
    ghost var settled := adj.Keys - remaining;
    paths, prio := paths0, prio0;
    var out := adj[u];
    var j := 0;
    while j < |out|
      invariant 0 <= j <= |out|
      invariant heap.Valid() && |heap.items| == old(|heap.items|)
      invariant adj.Keys <= prio.Keys && multiset(heap.items) == multiset(Entries(remaining, prio))
      invariant src !in paths
      invariant KeepsUnimproved(d, out[..j], paths0, paths)
      invariant nn ==> RelaxState(adj, src, settled, u, d, out[..j], paths, prio)
    {
      var e := out[j];
      assert out[..j + 1] == out[..j] + [e];
      if nn {
        RelaxEdge(adj, src, settled, u, d, out[..j], paths, prio, e);
        assert e.weight >= 0 ==> Extended(paths, u, e) == Path(Lookup(paths, u).edges + [e]);
      }
      KeepStep(src, d, out[..j], e, paths0, paths, Extended(paths, u, e));
      paths, prio := RelaxOne(src, u, d, heap, e, paths, remaining, prio);
      j := j + 1;
    }
    assert out[..j] == adj[u];
    if nn {
      RelaxDone(adj, src, settled, u, d, paths, prio);
    }
  }

  // ---------------------------------------------------------------------------
  // The main loop
  // ---------------------------------------------------------------------------

  /**
   * The state of the main loop when every weight is non-negative and every
   * edge stays in the map: remaining are the vertices still in the heap,
   * the others are settled with final distances, every settled vertex other
   * than src has been handed over, and every handed path is a shortest walk.
   */
  ghost predicate Progress(adj: Adjacency, src: VertexID, remaining: set<VertexID>,
                           paths: map<VertexID, Path>, prio: map<VertexID, int>, calls: seq<(VertexID, Path)>)
  {
    NonNegativeWeights(adj) && Closed(adj) && src in adj && remaining <= adj.Keys &&
    Tentative(adj, src, paths, prio) &&
    SettledFinal(adj, src, adj.Keys - remaining, prio) &&
    Relaxed(adj, src, adj.Keys - remaining, paths, prio) &&
    (src in remaining ==> remaining == adj.Keys && forall v :: v in paths ==> paths[v].edges == []) &&
    (forall v :: v in adj && v !in remaining && v != src ==> v in Handed(calls)) &&
    AllShortest(adj, src, calls)
  }

  lemma HandedSnoc(calls: seq<(VertexID, Path)>, x: (VertexID, Path))
    ensures Handed(calls + [x]) == Handed(calls) + {x.0}
  {
    assert (calls + [x])[|calls|] == x;
    forall v | v in Handed(calls)
      ensures v in Handed(calls + [x])
    {
      var k :| 0 <= k < |calls| && calls[k].0 == v;
      assert (calls + [x])[k] == calls[k];
    }
  }

  /** What heap.Pop hands back is the entry of a remaining vertex of least priority. */
  lemma PopEntry(before: seq<Edge>, after: seq<Edge>, e: Edge, remaining: set<VertexID>, prio: map<VertexID, int>)
    requires remaining <= prio.Keys && multiset(before) == multiset(Entries(remaining, prio))
    requires multiset(before) == multiset(after) + multiset{e}
    requires forall x :: x in after ==> !Less(x.weight, e.weight)
    ensures e.to in remaining && e.weight == prio[e.to]
    ensures multiset(after) == multiset(Entries(remaining - {e.to}, prio))
    ensures forall v :: v in remaining - {e.to} ==> !Less(prio[v], e.weight)
  {
    assert e in multiset(before);
    EntriesRemove(remaining, prio, e.to);
    forall v | v in remaining - {e.to}
      ensures !Less(prio[v], e.weight)
    {
      assert Edge(v, prio[v]) in Entries(remaining - {e.to}, prio);
      assert Edge(v, prio[v]) in multiset(Entries(remaining - {e.to}, prio));
      assert Edge(v, prio[v]) in multiset(after);
    }
  }

  /**
   * A vertex popped with a non-negative priority is settled: its priority is
   * final, and unless it is src its tentative path is a shortest walk.
   */
  lemma PopSettles(adj: Adjacency, src: VertexID, remaining: set<VertexID>,
                   paths: map<VertexID, Path>, prio: map<VertexID, int>, calls: seq<(VertexID, Path)>, u: VertexID)
    requires Progress(adj, src, remaining, paths, prio, calls)
    requires u in remaining && prio[u] >= 0
    requires forall v :: v in remaining - {u} ==> !Less(prio[v], prio[u])
    ensures src !in remaining - {u}
    ensures SettledFinal(adj, src, adj.Keys - (remaining - {u}), prio)
    ensures u != src ==> Shortest(adj, src, Lookup(paths, u).edges, u)
  {
    var settled := adj.Keys - remaining;
    if src in remaining && u != src {
      assert false;
    }
    if src !in settled {
      assert settled == {};
    }
    forall v | v in paths && v !in settled && paths[v].edges != []
      ensures prio[u] <= prio[v]
    {
      TentativeFinite(adj, src, paths, prio, v);
    }
    PoppedIsFinal(adj, src, settled, paths, prio, u);
    assert adj.Keys - (remaining - {u}) == settled + {u};
  }

  /**
   * A vertex popped with a negative priority means every vertex left has
   * none: then every vertex reachable from src has been handed over.
   */
  lemma SentinelStop(adj: Adjacency, src: VertexID, remaining: set<VertexID>,
                     paths: map<VertexID, Path>, prio: map<VertexID, int>, calls: seq<(VertexID, Path)>, u: VertexID)
    requires Progress(adj, src, remaining, paths, prio, calls) && src in adj
    requires u in remaining && prio[u] < 0
    requires forall v :: v in remaining - {u} ==> !Less(prio[v], prio[u])
    ensures forall v :: v in adj && v != src && Reachable(adj, src, v) ==> v in Handed(calls)
  {
    var settled := adj.Keys - remaining;
    assert forall v :: v in adj && v !in settled ==> prio[v] < 0;
    forall v | v in adj && v != src && Reachable(adj, src, v)
      ensures v in Handed(calls)
    {
      var q :| IsWalk(adj, src, q) && End(src, q) == v;
      ReachableAreSettled(adj, src, settled, paths, prio, q);
    }
  }

  /** Once no vertex remains, every vertex other than src has been handed over. */
  lemma AllHanded(adj: Adjacency, src: VertexID, paths: map<VertexID, Path>, prio: map<VertexID, int>,
                  calls: seq<(VertexID, Path)>)
    requires Progress(adj, src, {}, paths, prio, calls)
    ensures forall v :: v in adj && v != src ==> v in Handed(calls)
  {
  }

  /** From a vertex outside the map only the empty walk starts. */
  lemma {:induction false} NoWalkFromOutside(adj: Adjacency, src: VertexID, q: seq<Edge>)
    requires src !in adj && IsWalk(adj, src, q)
    ensures q == []
    decreases |q|
  {
    if q != [] {
      NoWalkFromOutside(adj, src, q[..|q| - 1]);
    }
  }

  lemma EntriesMember(r: set<VertexID>, prio: map<VertexID, int>, v: VertexID)
    requires r <= prio.Keys && v in r
    ensures Edge(v, prio[v]) in multiset(Entries(r, prio))
  {
  }

  /** An empty heap holds the entries of no vertex. */
  lemma EntriesEmpty(remaining: set<VertexID>, prio: map<VertexID, int>)
    requires remaining <= prio.Keys && multiset(Entries(remaining, prio)) == multiset{}
    ensures remaining == {}
  {
    if remaining != {} {
      Pick(remaining);
      var v :| v in remaining;
      EntriesMember(remaining, prio, v);
      assert false;
    }
  }

  /** The first loop of dijkstra: an empty path for every vertex but src. */
  method InitialPaths(adj: Adjacency, src: VertexID) returns (paths: map<VertexID, Path>)
    ensures paths.Keys == adj.Keys - {src}
    ensures forall v :: v in paths ==> paths[v] == Path([])
  {
    paths := map[];
    var todo := adj.Keys;
    while todo != {}
      invariant todo <= adj.Keys
      invariant paths.Keys == adj.Keys - todo - {src}
      invariant forall v :: v in paths ==> paths[v] == Path([])
      decreases todo
    {
      Pick(todo);
      var v :| v in todo;
      if v != src {
        paths := paths[v := Path([])];
      }
      todo := todo - {v};
    }
  }

  /**
   * The second loop of dijkstra: one heap entry per vertex, with priority 0
   * for src and -1 for every other vertex.
   */
  method InitialEntries(adj: Adjacency, src: VertexID) returns (seed: seq<Edge>, ghost prio: map<VertexID, int>)
    ensures prio.Keys == adj.Keys
    ensures forall v :: v in prio ==> prio[v] == if v == src then 0 else -1
    ensures multiset(seed) == multiset(Entries(adj.Keys, prio))
    ensures |seed| == |adj|
  {
    seed := [];
    prio := map[];
    var todo := adj.Keys;
    while todo != {}
      invariant todo <= adj.Keys
      invariant prio.Keys == adj.Keys - todo
      invariant forall v :: v in prio ==> prio[v] == if v == src then 0 else -1
      invariant multiset(seed) == multiset(Entries(adj.Keys - todo, prio))
      invariant |seed| + |todo| == |adj.Keys|
      decreases todo
    {
      Pick(todo);
      var v :| v in todo;
      var weight := -1;
      if v == src {
        weight := 0;
      }
      EntriesInsert(adj.Keys - todo, prio, v, weight);
      assert adj.Keys - (todo - {v}) == (adj.Keys - todo) + {v};
      seed := seed + [Edge(v, weight)];
      prio := prio[v := weight];
      todo := todo - {v};
    }
    assert adj.Keys - todo == adj.Keys;
  }

  /** The handler calls so far: distinct vertices of the map, none of them src or still in the heap. */
  ghost predicate HandedOver(adj: Adjacency, src: VertexID, remaining: set<VertexID>, calls: seq<(VertexID, Path)>)
  {
    (forall k :: 0 <= k < |calls| ==> calls[k].0 in adj && calls[k].0 !in remaining && calls[k].0 != src) &&
    (forall k, l :: 0 <= k < l < |calls| ==> calls[k].0 != calls[l].0)
  }

  /** Popping u, and handing it over unless it is src, keeps the calls well formed. */
  lemma HandOver(adj: Adjacency, src: VertexID, remaining: set<VertexID>, calls: seq<(VertexID, Path)>,
                 u: VertexID, p: Path)
    requires HandedOver(adj, src, remaining, calls) && u in remaining && u in adj
    ensures HandedOver(adj, src, remaining - {u}, calls)
    ensures u != src ==> HandedOver(adj, src, remaining - {u}, calls + [(u, p)])
  {
  }

  /**
   * One round of the main loop under non-negative weights: u popped with a
   * non-negative priority, handed over unless it is src, and its edges
   * relaxed into paths2 and prio2.
   */
  lemma ProgressStep(adj: Adjacency, src: VertexID, remaining: set<VertexID>,
                     paths: map<VertexID, Path>, prio: map<VertexID, int>, calls: seq<(VertexID, Path)>, u: VertexID,
                     calls2: seq<(VertexID, Path)>, paths2: map<VertexID, Path>, prio2: map<VertexID, int>)
    requires Progress(adj, src, remaining, paths, prio, calls)
    requires u in remaining && prio[u] >= 0
    requires forall v :: v in remaining - {u} ==> !Less(prio[v], prio[u])
    requires calls2 == if u == src then calls else calls + [(u, Lookup(paths, u))]
    requires Tentative(adj, src, paths2, prio2)
    requires SettledFinal(adj, src, adj.Keys - (remaining - {u}), prio2)
    requires Relaxed(adj, src, adj.Keys - (remaining - {u}), paths2, prio2)
    ensures Progress(adj, src, remaining - {u}, paths2, prio2, calls2)
  {
    PopSettles(adj, src, remaining, paths, prio, calls, u);
    if u != src {
      HandedSnoc(calls, (u, Lookup(paths, u)));
      assert calls2[|calls|] == (u, Lookup(paths, u));
      assert forall k :: 0 <= k < |calls| ==> calls2[k] == calls[k];
    }
  }

  /** Every vertex reachable from src, other than src, has been handed over. */
  ghost predicate Complete(adj: Adjacency, src: VertexID, calls: seq<(VertexID, Path)>)
  {
    forall v :: v in adj && v != src && Reachable(adj, src, v) ==> v in Handed(calls)
  }

  /** Every handed path is a shortest walk from src to its vertex. */
  ghost predicate AllShortest(adj: Adjacency, src: VertexID, calls: seq<(VertexID, Path)>)
  {
    forall k :: 0 <= k < |calls| ==> Shortest(adj, src, calls[k].1.edges, calls[k].0)
  }

  /**
   * One round of the main loop of dijkstra: pop the closest entry; stop at a
   * negative priority; hand the vertex over unless it is src, and stop if
   * the handler refuses it; otherwise relax its edges.
   */
  method Round(adj: Adjacency, src: VertexID, handler: (VertexID, Path) -> bool, heap: DistanceHeap,
               paths0: map<VertexID, Path>, ghost remaining0: set<VertexID>, ghost prio0: map<VertexID, int>,
               calls0: seq<(VertexID, Path)>, ghost nn: bool)
    returns (stop: bool, paths: map<VertexID, Path>, ghost remaining: set<VertexID>, ghost prio: map<VertexID, int>,
             calls: seq<(VertexID, Path)>)
    requires heap.Valid() && |heap.items| > 0
    requires remaining0 <= adj.Keys <= prio0.Keys
    requires multiset(heap.items) == multiset(Entries(remaining0, prio0))
    requires src !in paths0 && HandedOver(adj, src, remaining0, calls0)
    requires forall k :: 0 <= k < |calls0| ==> handler(calls0[k].0, calls0[k].1)
    requires src !in adj ==> forall v :: v in prio0 ==> prio0[v] == -1
    requires nn ==> Progress(adj, src, remaining0, paths0, prio0, calls0)
    modifies heap
    ensures heap.Valid() && |heap.items| == old(|heap.items|) - 1
    ensures remaining <= adj.Keys <= prio.Keys
    ensures multiset(heap.items) == multiset(Entries(remaining, prio))
    ensures src !in paths && HandedOver(adj, src, remaining, calls)
    ensures |calls| <= |calls0| + 1
    ensures src !in adj ==> stop && calls == calls0
    ensures !stop ==> forall k :: 0 <= k < |calls| ==> handler(calls[k].0, calls[k].1)
    ensures !stop && nn ==> Progress(adj, src, remaining, paths, prio, calls)
    ensures stop ==> forall k :: 0 <= k < |calls| - 1 ==> handler(calls[k].0, calls[k].1)
    ensures stop && nn ==> AllShortest(adj, src, calls)
    ensures stop && nn && (forall k :: 0 <= k < |calls| ==> handler(calls[k].0, calls[k].1)) ==>
              Complete(adj, src, calls)
  {
    ghost var before := heap.items;
    var closest := heap.PopMin();
    PopEntry(before, heap.items, closest, remaining0, prio0);
    ghost var u := closest.to;
    HandOver(adj, src, remaining0, calls0, u, Lookup(paths0, u));
    remaining, prio, paths, calls := remaining0 - {u}, prio0, paths0, calls0;
    if closest.weight < 0 {
      if nn {
        SentinelStop(adj, src, remaining0, paths0, prio0, calls0, u);
      }
      return true, paths, remaining, prio, calls;
    }
    if nn {
      PopSettles(adj, src, remaining0, paths0, prio0, calls0, u);
    }
    if closest.to != src {
      var shortest := Lookup(paths, closest.to);
      calls := calls + [(closest.to, shortest)];
      if !handler(closest.to, shortest) {
        assert calls[|calls| - 1] == (closest.to, shortest);
        return true, paths, remaining, prio, calls;
      }
    }
    assert adj.Keys - remaining - {u} == adj.Keys - remaining0;
    paths, prio := RelaxOutgoing(adj, src, closest.to, closest.weight, heap, paths, remaining, prio, nn);
    if nn {
      ProgressStep(adj, src, remaining0, paths0, prio0, calls0, u, calls, paths, prio);
    }
    stop := false;
  }

  /**
   * dijkstra(src, handler). Every vertex other than src starts with an empty
   * path and priority -1, src with priority 0; at most as many entries as
   * there are vertices are popped, the loop stops at the first negative
   * priority, src is never handed over, and a handler answering false stops
   * the search. Returns the handler calls made, in order.
   */
  method Dijkstra(adj: Adjacency, src: VertexID, handler: (VertexID, Path) -> bool)
    returns (calls: seq<(VertexID, Path)>)
    ensures forall k :: 0 <= k < |calls| ==> calls[k].0 in adj && calls[k].0 != src
    ensures forall k, l :: 0 <= k < l < |calls| ==> calls[k].0 != calls[l].0
    ensures |calls| <= |adj|
    ensures src !in adj ==> calls == []
    ensures forall k :: 0 <= k < |calls| - 1 ==> handler(calls[k].0, calls[k].1)
    ensures NonNegativeWeights(adj) && Closed(adj) ==>
              forall k :: 0 <= k < |calls| ==> Shortest(adj, src, calls[k].1.edges, calls[k].0)
    ensures NonNegativeWeights(adj) && Closed(adj) &&
            (forall k :: 0 <= k < |calls| ==> handler(calls[k].0, calls[k].1)) ==>
              forall v :: v in adj && v != src && Reachable(adj, src, v) ==> v in Handed(calls)
  {
    ghost var nn := NonNegativeWeights(adj) && Closed(adj) && src in adj;
    var paths := InitialPaths(adj, src);
    var seed, prio := InitialEntries(adj, src);
    var heap := new DistanceHeap(seed);
    heap.Init();
    ghost var remaining := adj.Keys;
    calls := [];
    var entireSize := heap.Len();
    var i := 0;
    var stop := false;
    while i < entireSize
      invariant 0 <= i <= entireSize == |adj|
      invariant heap.Valid() && |heap.items| == entireSize - i
      invariant remaining <= adj.Keys <= prio.Keys
      invariant multiset(heap.items) == multiset(Entries(remaining, prio))
      invariant src !in paths && HandedOver(adj, src, remaining, calls)
      invariant |calls| <= i
      invariant forall k :: 0 <= k < |calls| ==> handler(calls[k].0, calls[k].1)
      invariant src !in adj ==> i == 0 && calls == [] && forall v :: v in prio ==> prio[v] == -1
      invariant nn ==> Progress(adj, src, remaining, paths, prio, calls)
    {
      stop, paths, remaining, prio, calls := Round(adj, src, handler, heap, paths, remaining, prio, calls, nn);
      if stop {
        break;
      }
      i := i + 1;
    }
    if !stop && nn {
      EntriesEmpty(remaining, prio);
      AllHanded(adj, src, paths, prio, calls);
    }
    if src !in adj {
      forall v | Reachable(adj, src, v)
        ensures v == src
      {
        var q :| IsWalk(adj, src, q) && End(src, q) == v;
        NoWalkFromOutside(adj, src, q);
      }
    }
  }
}
