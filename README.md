# graph: an adjacency-list multigraph with Dijkstra, in Dafny

This project models the core of the Go package `graph`: a weighted, directed or
bidirectional multigraph kept as adjacency lists, and the Dijkstra engine behind
its shortest-path queries. It proves properties of that model.

- **Vertex records** (`vertex.dfy`, module `Vertices`). A `Vertex` is a class with an
  identity and an outgoing edge list that it edits in place.
  - `addEdge` appends to the list.
  - `removeEdge` is the swap-with-last loop with its `i--`. It is proved equal to a
    recursive function that takes the same steps. That function is then related to an
    order-keeping filter (same multiset) and to a count of the matching edges.
  - `String` renders the adjacency line.
  - An edge names its target by `VertexID` instead of by pointer.
- **Path record** (`path.dfy`, module `Paths`):
  - the distance, with -1 for an empty path;
  - the destination;
  - the append that rejects a negative weight;
  - edge iteration.
- **Walks** (`walks.dfy`, module `Walks`). These are the reference definitions the
  engine is judged against: a walk from a vertex, reachability, a shortest walk, and
  the two side conditions "every weight is non-negative" and "every edge targets a
  vertex of the graph" (called *closed*).
- **Distance heap** (`heap.dfy`, module `DistanceHeaps`):
  - the `Less` order, which puts negative priorities after every non-negative one;
  - the slice methods `Len`, `Swap`, `Push` and `Pop`;
  - the linear-scan `update`;
  - the standard-library heap algorithms that the package calls (`Init`, `Pop`, `Fix`,
    built from `up` and `down`), written out over the class's sequence.
- **Dijkstra** (`dijkstra.dfy`, module `Dijkstra`). The engine runs over the adjacency
  map, with the source's loop structure:
  - it seeds every vertex except the source with priority -1;
  - it stops at the first negative pop or when the handler refuses;
  - it skips edges back into the source;
  - it replaces a path only on a strict improvement or when the old path is empty;
  - it ignores the error from extending a path with a negative weight.

  The handler is a pure function, and the engine returns the calls it made, in order.
- **Graph** (`graph.dfy`, module `Graphs`). A `Graph` class holds a map from identity
  to vertex record and the identity counter. `Adjacency()` is its abstract view.
  `NewVertex`, `RemoveVertex`, `AddEdge` and `RemoveEdges` are each tied to a function
  on that view, and lemmas state mirroring, the removal cascade and closedness about
  those functions. `ShortestPath` and `ShortestPaths` are built on the engine.

## Model

| member | source | states |
|---|---|---|
| Vertices.Vertex.constructor | graph.go:45 | a new vertex record carries its identity and an empty outgoing list |
| Vertices.Vertex.AddEdge | vertex.go:43-48 | exactly one edge (to, weight) is appended at the end; every earlier edge is unchanged |
| Vertices.Vertex.RemoveEdge | vertex.go:50-58 | the loop (overwrite with the last edge, shrink, step back) terminates and leaves `SwapRemove(old list, dest)` |
| Vertices.SwapRemoveMembers | vertex.go:50-58 | after removeEdge an edge is in the list iff it was before and does not target dest: no edge to dest is left and every other edge is kept |
| Vertices.SwapRemovePermutesWithout | vertex.go:51-56 | the list left by removeEdge is a permutation of the order-keeping filter of the original (order may change, contents do not) |
| Vertices.SwapRemoveLength | vertex.go:51-57 | the length drops by exactly the number of edges that target dest |
| Vertices.SwapRemoveIdempotent | vertex.go:50-58 | removing the edges to dest twice leaves the same list as removing them once |
| Vertices.SwapRemoveNoop | vertex.go:50-58 | when no edge targets dest the list is left exactly as it was |
| Vertices.WithoutCount | vertex.go:50-58 | the reference filter keeps every occurrence of an edge not to dest and none of an edge to dest |
| Vertices.SwapRemoveFromCount | vertex.go:51-56 | from any scan position the occurrences of each edge not to dest are preserved and those of edges to dest drop to zero |
| Vertices.DigitsRoundTrip | vertex.go:35-37 | the decimal rendering of a non-negative identity is made of digits only and reads back to the identity |
| Vertices.Vertex.String | vertex.go:62-79 | yields `[id]` for an empty list, otherwise `[id] -> ` and the `[target]` items joined by `, ` in list order |
| Vertices.Handle.ID | vertex.go:82-84 | a handle's identity is that of the record it refers to |
| Paths.Path.Distance | graph.go:180-189 | -1 for an empty path, the sum of the edge weights otherwise |
| Paths.Path.Destination | graph.go:171-176 | not-ok exactly when the path is empty, otherwise the target of the last edge |
| Paths.Path.AddEdge | graph.go:212-218 | fails exactly when the weight is negative; on success the path is the old one with exactly that edge appended |
| Paths.Path.IterateEdge | graph.go:193-199 | visits a prefix of the edges in order; every visited edge but the last was accepted, and if it stopped early the last was refused |
| Paths.DistanceSentinel | graph.go:178-189 | with non-negative weights the distance is negative exactly when the path is empty |
| Paths.AddEdgeDistance | graph.go:212-218 | appending an edge of non-negative weight succeeds and adds its weight to the distance, counting from 0 for an empty path |
| Paths.AddEdgeDestination | graph.go:212-218 | a successful append makes the new edge's target the destination and keeps every weight non-negative |
| DistanceHeaps.LessOrder | graph.go:222-231 | Less is irreflexive and transitive with transitive incomparability, puts every negative priority after every non-negative one, never orders two negatives, and is `<` on non-negatives |
| DistanceHeaps.DistanceHeap.Len | graph.go:220 | the number of entries |
| DistanceHeaps.DistanceHeap.Swap | graph.go:233 | exchanges two entries and keeps the multiset |
| DistanceHeaps.DistanceHeap.Push | graph.go:235-237 | appends the entry at the end |
| DistanceHeaps.DistanceHeap.Pop | graph.go:239-245 | removes and returns the last entry |
| DistanceHeaps.DistanceHeap.Down | graph.go:103 | sift-down of the entry at i0 within the first n entries leaves that range in heap order (the link into i0 excepted when nothing moved), keeps the multiset and every entry beyond n, and changes nothing when it reports no move |
| DistanceHeaps.DistanceHeap.Up | graph.go:251 | sift-up restores heap order around one changed entry and keeps the multiset |
| DistanceHeaps.DistanceHeap.Init | graph.go:103 | establishes heap order under Less over the same entries |
| DistanceHeaps.DistanceHeap.PopMin | graph.go:107 | removes exactly one entry, one that no remaining entry is Less than, and keeps heap order |
| DistanceHeaps.DistanceHeap.Fix | graph.go:251 | restores heap order after one entry changed, over the same entries |
| DistanceHeaps.DistanceHeap.Update | graph.go:247-255 | sets the priority of the first entry for v and restores heap order; does nothing when v has no entry |
| Dijkstra.InitialPaths | graph.go:85-90 | every vertex other than the source gets the empty path |
| Dijkstra.InitialEntries | graph.go:92-102 | one heap entry per vertex, priority 0 for the source and -1 for every other vertex |
| Dijkstra.PopEntry | graph.go:107 | the popped entry is the entry of a vertex still in the heap, with its current priority, and no vertex left is Less than it |
| Dijkstra.UpdatedEntries | graph.go:126 | after update the heap holds each remaining vertex once, with the new priority for the updated vertex |
| Dijkstra.Reprioritize | graph.go:126 | update as a change to the priority of one vertex |
| Dijkstra.RelaxTarget | graph.go:120-125 | an improving edge out of a settled vertex leads to an unsettled vertex, has a non-negative weight, and the extended path is a walk to its target of the new distance |
| Dijkstra.RelaxEdge | graph.go:117-127 | relaxing one edge, whether it improves its target or not, keeps every tentative path a walk whose distance is its priority, and keeps settled priorities final |
| Dijkstra.Extended | graph.go:123-124 | the path an improving edge records: u's path plus the edge for a non-negative weight, u's path unextended for a negative one (the extension error is ignored) |
| Dijkstra.RelaxOne | graph.go:117-127 | an edge into the source changes nothing; otherwise the target gets the extended path and priority d + weight exactly when it has no path yet or that is strictly smaller than its distance, and the heap holds the new priorities; nothing else changes |
| Dijkstra.KeepStep | graph.go:122 | relaxing one more edge keeps the rule that a path is replaced only on a strict improvement of an existing path or when there was none |
| Dijkstra.RelaxOutgoing | graph.go:116-128 | for every weight: a vertex no edge of u targets keeps its path, and a vertex that already had a path no edge of u beats strictly keeps it (ties keep the earlier path); the heap holds the new priorities; with non-negative weights in a closed graph every edge out of a settled vertex is relaxed afterwards |
| Dijkstra.LeavingSettled | graph.go:106-128 | every walk from the source that ends outside the settled set weighs at least the least priority among the unsettled vertices |
| Dijkstra.PoppedIsFinal | graph.go:107 | a vertex popped with a non-negative priority has no walk from the source lighter than that priority |
| Dijkstra.PopSettles | graph.go:107-115 | the path handed over for a popped vertex is a shortest walk from the source to it |
| Dijkstra.ReachableAreSettled | graph.go:108-110 | when only negative priorities are left, every walk from the source ends at a settled vertex |
| Dijkstra.SentinelStop | graph.go:108-110 | stopping at a negative pop loses nothing: every vertex reachable from the source has been handed over |
| Dijkstra.ProgressStep | graph.go:106-129 | one full round keeps the invariant: settled vertices have final distances, are handed over unless they are the source, and every handed path is shortest |
| Dijkstra.NoWalkFromOutside | graph.go:93-102 | from a source that is not a vertex of the graph no edge can be taken |
| Dijkstra.Round | graph.go:106-129 | one iteration pops one entry and either stops (negative pop, refused vertex) or relaxes, keeping the heap and the handler log consistent |
| Dijkstra.Dijkstra | graph.go:84-130 | the handler never sees the source, sees each vertex at most once, and is called at most once per vertex; every call but the last was accepted; a source outside the graph gives no call; with non-negative weights in a closed graph every handed path is a shortest walk, and if the handler accepts every call exactly the reachable vertices are handed over |
| Graphs.Graph.constructor | graph.go:258-273 | New gives an empty graph of the requested type whose generator has issued nothing |
| Graphs.Graph.GenerateID | graph.go:262-271 | issues the counter plus one, greater than every identity in the graph; the first is 1 |
| Graphs.Graph.NewVertex | graph.go:44-52 | registers a fresh record under a new identity greater than every earlier one, with an empty outgoing list; nothing else changes |
| Graphs.Graph.RemoveVertex | graph.go:56-65 | false and no change when the identity is absent; otherwise true, the vertex is gone and every remaining list has had removeEdge(id) applied |
| Graphs.RemoveVertexCascades | graph.go:54-65 | after removal no remaining edge targets the removed vertex, every other edge is kept, and a closed graph stays closed |
| Graphs.RemoveVertexAbsent | graph.go:56-59 | in a closed graph the cascade for an absent identity changes nothing |
| Graphs.Graph.AddEdge | graph.go:68-73 | from's list gets exactly (to, weight); in Bidirectional mode to's list gets (from, weight); for two vertices of the graph the view changes as AddEdgeSpec says |
| Graphs.AddEdgeAppends | graph.go:68-73 | exactly one edge appended to from, mirrored on to in Bidirectional mode, to untouched in Directional mode, no other list changed |
| Graphs.AddEdgeKeepsClosed | graph.go:68-73 | an edge between two vertices of a closed graph keeps it closed |
| Graphs.Graph.RemoveEdges | graph.go:77-82 | removeEdge(to) on from and, in Bidirectional mode, removeEdge(from) on to; for two vertices of the graph the view changes as RemoveEdgesSpec says |
| Graphs.RemoveEdgesCuts | graph.go:75-82 | afterwards from has no edge to to (and to none to from in Bidirectional mode) and keeps every other edge, self-loop removal `RemoveEdges(v, v)` included; in Directional mode to's list is untouched; other lists unchanged |
| Graphs.RemoveEdgesKeepsClosed | graph.go:77-82 | removing edges keeps a closed graph closed |
| Graphs.Graph.ShortestPath | graph.go:132-144 | with non-negative weights in a closed graph the result is non-empty exactly when dest is a vertex other than src reachable from it, and then it is a shortest walk from src to dest; the empty path (distance -1) otherwise, including dest == src |
| Graphs.Graph.ShortestPaths | graph.go:146-155 | with non-negative weights in a closed graph the keys are exactly the vertices other than the source reachable from it, and each path is a shortest walk to its key |

## Left out

- The `sync.Mutex` around the identity counter: the model is sequential, and the counter is a plain field.
- Go map iteration order: the loops over `g.vertices` pick the next vertex by nondeterministic choice. Heap seeding order, and with it which of two equally short paths reaches a vertex first, is therefore not fixed, and no contract names the winner; once a vertex has a path, an equally short one does not replace it (`Dijkstra.RelaxOutgoing`).
- `Graph.String`, `edge.String` and `Path.String`: diagnostic rendering only. `vertex.String` is modelled.
- The `Value` payload of `Vertex`, the `vertexible` interface, and the `accessor` and `edges` getters: edges name their target by `VertexID`, and vertex identity is identity by `VertexID`. A handle from another graph that carries a clashing identity is not distinguished.
- The zero `Vertex{}` (what `Path.Destination` returns when it is not ok) and the panics it causes: a `Handle` always refers to a vertex record. In Go, `AddEdge` with a zero `from` and `RemoveEdges` with a zero `from` or a zero `to` call a method on a nil interface and panic; a Bidirectional `AddEdge` with a zero `to` first stores an edge to nil in `from`'s list and then panics on the mirrored call; a Directional `AddEdge` with a zero `to` stores an edge to nil that makes a later `RemoveVertex` or `vertex.String` panic.
- Slice aliasing between `Path` values that share a backing array after `append`: paths are immutable sequences, so the guarantees of `ShortestPath` and `ShortestPaths` hold of the model, not of the Go code as written. In Go, `fixedPath.addEdge(e)` can write into spare capacity that an earlier path already uses. For example, with edges s→a, a→b, b→c of weight 1, then c→x of weight 1 and c→y of weight 5: c's path has length 3 and capacity 4, so relaxing c→x and then c→y writes both edges into the same slot, and x's stored path becomes s→a, a→b, b→c, c→y, with destination y and distance 8.
- The handler's side effects: `ShortestPath` and `ShortestPaths` read what their Go closures would capture from the call log the engine returns.
- Graphs.Graph.ShortestPaths: keyed by `VertexID` instead of by `Vertex` handle.
- Graphs.Graph.ShortestPaths: the keys-are-reachable and shortest-walk guarantees assume a closed graph. A graph stops being closed only when `AddEdge` is given the handle of a removed vertex or of a vertex of another graph. The Go result is still right in that case, because such a dangling edge leads to a vertex that is never in the heap and so is never handed over, but the model does not prove it.
- Graphs.Graph.ShortestPath: assumes a closed graph, for the same reason and with the same remark as `ShortestPaths`.
- Dijkstra.Dijkstra: the shortest-path guarantees are stated only for non-negative weights in a closed graph. With a negative weight the loop still runs as in the source (the extension error is ignored and the target keeps the unextended path), but nothing is claimed about its results.
- Graphs.Graph.AddEdge: the view-level contract (`AddEdgeSpec`) is stated only when both handles are vertices of the graph. For the handle of a removed vertex, or of a vertex of another graph, only the per-record list changes are stated, and the graph may then hold edges to a vertex that is not in it.
- Graphs.Graph.RemoveEdges: the view-level contract is stated only when both handles are vertices of the graph.
- Go's 64-bit `int`: weights and distances are unbounded integers, so a sum that would overflow in Go does not wrap in the model.
- `graph_test.go`: it does not match the current API and asserts nothing.
