# Dijkstra single-source shortest paths, modelled in Dafny

This project models the shortest-path engine `DijkstraSP` of the Dijkstra repository and the
matrix-to-edge-list conversion `MatrixToEdgeList`, and proves properties of both.

`DijkstraSP` rejects graphs with a negative-weight edge and validates the source vertex. It sets
`distTo` to infinity everywhere except the source, which gets 0. It then repeatedly takes a
minimum-key vertex out of an indexed min-priority queue and relaxes each of that vertex's outgoing
edges. A relaxation updates `distTo[w]` and `edgeTo[w]` only on a strict improvement, and then
either decreases the key of `w` or inserts `w`. The queries `distTo`, `hasPathTo` and `pathTo`
read the finished arrays. `pathTo` walks `edgeTo` back to the source and pushes the edges on a
stack, so they come out source first.

The model proves these things about the engine:

- The loop keeps a shortest-path-tree invariant. Each `edgeTo[w]` is a graph edge into `w` that
  accounts exactly for `distTo[w]` and comes from a finalized vertex. The source keeps distance 0
  and never gets a parent.
- `decreaseKey` is only ever called on a queued vertex with a strictly smaller key, and `insert`
  only on an absent one.
- When the queue empties, every edge is relaxed. This relaxation certificate makes every finite
  `distTo[v]` the least weight of any walk from the source. `distTo[v]` is infinite exactly when
  `v` is unreachable.
- `pathTo(v)` returns a contiguous chain of graph edges from the source to `v` whose weights sum to
  `distTo[v]`.

For the conversion, the model proves that the emitted lines are exactly the non-zero cells of the
leading n-by-n square, each once, in row-major order.

Modules:

- `Wrappers` (wrappers.dfy): `Option` and `Result`, standing in for `null` and thrown exceptions.
- `Distances` (distances.dfy): `Dist = Inf | Fin(n)`. `Double.POSITIVE_INFINITY` becomes an
  explicit value, and `Add` and `Less` are the double operations the engine uses, with their IEEE
  behaviour at infinity.
- `Graphs` (graphs.dfy): the `EdgeWeightedDigraph` and `DirectedEdge` collaborators, kept to what
  the engine uses. A graph is `V` plus one adjacency sequence per vertex. `Edges` is `G.edges()`.
  This module also defines walks (`IsPath`), their `Weight`, `Reachable` and `IsShortest`.
- `PriorityQueue` (index_min_pq.dfy): the `IndexMinPQ` collaborator as a class whose state is a
  map from index to key.
- `Relaxation` (relaxation.dfy): the greedy loop on values. It holds the loop invariants, the
  effect of a single relaxation, and the optimality theorem.
- `ShortestPaths` (dijkstra_sp.dfy): the class `DijkstraSP` with its arrays `distTo` and `edgeTo`,
  its queue, the constructor loop, `Relax` and the three queries.
- `Scenarios` (scenarios.dfy): the four-vertex example graph, with and without an isolated fifth
  vertex.
- `MatrixToEdgeList` (matrix_to_edge_list.dfy): the row copy of `readMatrixFromFile` and the nested
  scan of `writeEdgeListToFile`.

A Java constructor that throws has no direct Dafny counterpart. So `ShortestPaths.Create` performs
the two checks in Java's order: the negative-weight scan first, then the source validation. It
returns the error, or builds the engine with the class constructor, which then runs the greedy
loop. The loop body after `delMin` is the method `RelaxEdgesOf`. It is a separate method only to
keep each proof small.

Two proof-only ghost fields are kept up to date by the loop. `done` is the set of vertices
`delMin` has returned. `rank` is a number per vertex that strictly grows along `edgeTo`, and it is
what makes the walk in `pathTo` terminate.

## Model

| member | source | states |
|---|---|---|
| ShortestPaths.FindNegativeEdge | Dijkstra/src/Dijkstra/DijkstraSP.java:25-28 | returns no edge exactly when every edge has a non-negative weight; otherwise returns the first edge of `edges()` whose weight is negative |
| ShortestPaths.Create | Dijkstra/src/Dijkstra/DijkstraSP.java:24-47 | a negative edge fails with that first negative edge, before any engine exists; otherwise an out-of-range source fails with InvalidVertex(s); otherwise a fresh, finished engine over g and s |
| ShortestPaths.DijkstraSP.constructor | Dijkstra/src/Dijkstra/DijkstraSP.java:30-45 | on a valid non-negative graph and source, the initialisation and the delMin/relax loop end in the finished state: a shortest-path tree plus the relaxation certificate |
| ShortestPaths.DijkstraSP.RelaxEdgesOf | Dijkstra/src/Dijkstra/DijkstraSP.java:41-43 | the new distTo, edgeTo, ranks and queue keys are RelaxAll of the old ones over adj(v): one relaxation per edge, in adjacency order; the finalized vertices are unchanged and the outer loop invariant holds again |
| ShortestPaths.DijkstraSP.Relax | Dijkstra/src/Dijkstra/DijkstraSP.java:49-57 | new distTo, edgeTo and queue keys are RelaxStep of the old ones; decreaseKey is called only on a queued vertex with a strictly smaller key, insert only on an absent one |
| ShortestPaths.DijkstraSP.ValidateVertex | Dijkstra/src/Dijkstra/DijkstraSP.java:83-87 | succeeds iff 0 <= v < V; otherwise the error names v |
| ShortestPaths.DijkstraSP.DistTo | Dijkstra/src/Dijkstra/DijkstraSP.java:59-62 | an invalid vertex fails; otherwise the distance is infinite iff v is unreachable and, when finite, is the least weight of any walk from the source; distTo(source) is 0 |
| ShortestPaths.DijkstraSP.HasPathTo | Dijkstra/src/Dijkstra/DijkstraSP.java:64-67 | an invalid vertex fails; otherwise true iff v is reachable from the source, which is iff distTo(v) is finite |
| ShortestPaths.DijkstraSP.PathTo | Dijkstra/src/Dijkstra/DijkstraSP.java:69-77 | an invalid vertex fails; an unreachable vertex gives no path; otherwise the edgeTo chain from the source to v, a walk in the graph whose weight is distTo[v]; the path to the source is empty |
| PriorityQueue.IndexMinPQ.IsEmpty | Dijkstra/src/Dijkstra/DijkstraSP.java:40 | true iff no index is queued |
| PriorityQueue.IndexMinPQ.Contains | Dijkstra/src/Dijkstra/DijkstraSP.java:54 | true iff index i is queued |
| Graphs.Edges | Dijkstra/src/Dijkstra/DijkstraSP.java:25 | lists exactly the edges stored in the adjacency lists, vertex by vertex |
| Distances.Add | Dijkstra/src/Dijkstra/DijkstraSP.java:51-52 | infinity plus a weight stays infinite; a finite distance plus w is finite, is increased by exactly w, and is at least the original distance |
| Distances.Less | Dijkstra/src/Dijkstra/DijkstraSP.java:51 | the double comparison: only a finite value is below anything, every finite value is below infinity, and finite values compare numerically |
| PriorityQueue.IndexMinPQ.constructor | Dijkstra/src/Dijkstra/DijkstraSP.java:38 | an empty queue over indices 0..V-1 |
| PriorityQueue.IndexMinPQ.Insert | Dijkstra/src/Dijkstra/DijkstraSP.java:39 | an absent index in range gets its key; the other keys stay as they were |
| PriorityQueue.IndexMinPQ.DecreaseKey | Dijkstra/src/Dijkstra/DijkstraSP.java:54 | a present index gets a strictly smaller key; the other keys stay as they were |
| PriorityQueue.IndexMinPQ.DelMin | Dijkstra/src/Dijkstra/DijkstraSP.java:41 | on a non-empty queue, removes and returns an index whose key is minimal |
| Relaxation.InitialShape | Dijkstra/src/Dijkstra/DijkstraSP.java:34-39 | after initialisation distTo[s] = 0, every other distTo is infinite, and the queue holds exactly s with key 0 |
| Relaxation.InitialInv | Dijkstra/src/Dijkstra/DijkstraSP.java:34-39 | the initial state satisfies the outer loop invariant |
| Relaxation.PopInv | Dijkstra/src/Dijkstra/DijkstraSP.java:40-41 | finalizing a minimum-key vertex keeps every finalized distance at most every queued key and starts the scan of its edges |
| Relaxation.RelaxInv | Dijkstra/src/Dijkstra/DijkstraSP.java:49-57 | each relaxation keeps the scan invariant: distTo[s] stays 0, edgeTo[s] stays unset, queue keys mirror distTo, parents are finalized graph edges accounting exactly for the distance; finalized vertices are never improved |
| Relaxation.RelaxEffect | Dijkstra/src/Dijkstra/DijkstraSP.java:49-57 | the state changes only on a strict improvement; then the endpoint gets the smaller distance, the edge as parent and a queue key equal to its distance, and no other vertex changes |
| Relaxation.ScanDoneInv | Dijkstra/src/Dijkstra/DijkstraSP.java:42-43 | once all edges of the finalized vertex are relaxed the outer loop invariant holds again |
| Relaxation.FinalizeShrinks | Dijkstra/src/Dijkstra/DijkstraSP.java:40-41 | each iteration finalizes a new vertex, so the loop runs at most V times |
| Relaxation.FinishInv | Dijkstra/src/Dijkstra/DijkstraSP.java:40-44 | when the queue is empty every edge satisfies distTo[w] <= distTo[v] + weight (the relaxation certificate) |
| Relaxation.LowerBound | Dijkstra/src/Dijkstra/DijkstraSP.java:40-44 | under the certificate distTo[t] <= distTo[u] + weight(p) for every walk p from u to t; in particular every vertex reachable from the source has a finite distance |
| Relaxation.TreePathSound | Dijkstra/src/Dijkstra/DijkstraSP.java:73-75 | following edgeTo back from a reached vertex gives a walk from the source whose weight is exactly distTo[v]; from the source it is empty |
| Relaxation.ShortestDistances | Dijkstra/src/Dijkstra/DijkstraSP.java:40-44 | in the finished state distTo[t] is finite iff t is reachable, and then it is the shortest-path distance |
| Graphs.FlattenMembership | Dijkstra/src/Dijkstra/DijkstraSP.java:25 | the concatenated adjacency sequences contain exactly the edges of the individual sequences |
| Graphs.EdgesMembership | Dijkstra/src/Dijkstra/DijkstraSP.java:25 | `edges()` lists exactly the edges stored in the adjacency lists |
| Graphs.NonNegativeEdges | Dijkstra/src/Dijkstra/DijkstraSP.java:25-28 | the scan over `edges()` finds no negative weight iff no adjacency list holds one |
| Graphs.PathIsChain | Dijkstra/src/Dijkstra/DijkstraSP.java:69-77 | a walk starts at its source, ends at its target, uses graph edges, and each edge starts where the previous ended |
| Graphs.PathSnoc | Dijkstra/src/Dijkstra/DijkstraSP.java:73-75 | extending a walk by an edge leaving its end gives a walk to that edge's head, heavier by the edge's weight |
| Scenarios.SampleDistances | Dijkstra/src/Dijkstra/DijkstraSP.java:24-47 | on the four-vertex example from source 0 the finished distances are 0, 1, 3, 6 |
| Scenarios.SampleParents | Dijkstra/src/Dijkstra/DijkstraSP.java:49-57 | on the example, edgeTo is forced to none, (0,1,1), (1,2,2), (2,3,3) |
| Scenarios.SamplePath | Dijkstra/src/Dijkstra/DijkstraSP.java:69-77 | on the example, the path to 3 is (0,1,1), (1,2,2), (2,3,3), of weight 6 |
| Scenarios.IsolatedUnreached | Dijkstra/src/Dijkstra/DijkstraSP.java:64-67 | an isolated vertex keeps an infinite distance and is unreachable |
| MatrixToEdgeList.ReadMatrix | Dijkstra/src/Dijkstra/MatrixToEdgeList.java:23-27 | the matrix rows are the parsed lines in input order, row i being line i |
| MatrixToEdgeList.WriteEdgeList | Dijkstra/src/Dijkstra/MatrixToEdgeList.java:35-43 | the nested row-major scan emits exactly EdgeList of the matrix |
| MatrixToEdgeList.RowLinesSound | Dijkstra/src/Dijkstra/MatrixToEdgeList.java:37-41 | a row emits only its own non-zero cells among the scanned columns, with their values, in increasing column order |
| MatrixToEdgeList.RowLinesComplete | Dijkstra/src/Dijkstra/MatrixToEdgeList.java:37-41 | every non-zero cell among a row's scanned columns is emitted |
| MatrixToEdgeList.LinesSound | Dijkstra/src/Dijkstra/MatrixToEdgeList.java:36-42 | the scanned rows emit only non-zero cells inside the square, with their values, in row-major order |
| MatrixToEdgeList.LinesComplete | Dijkstra/src/Dijkstra/MatrixToEdgeList.java:36-42 | every non-zero cell of a scanned row inside the square is emitted |
| MatrixToEdgeList.EdgeListSound | Dijkstra/src/Dijkstra/MatrixToEdgeList.java:35-39 | every emitted (i, j, w) has 0 <= i, j < n, w == matrix[i][j] and w != 0; columns at index n or more are ignored |
| MatrixToEdgeList.EdgeListComplete | Dijkstra/src/Dijkstra/MatrixToEdgeList.java:36-42 | every non-zero cell of the leading n-by-n square is emitted |
| MatrixToEdgeList.EdgeListOrdered | Dijkstra/src/Dijkstra/MatrixToEdgeList.java:36-37 | emission is strictly increasing in i, then in j, so no cell is emitted twice |
| MatrixToEdgeList.OrderedCellsCount | Dijkstra/src/Dijkstra/MatrixToEdgeList.java:36-42 | lines in strictly increasing row-major order name as many distinct cells as there are lines |
| MatrixToEdgeList.EdgeListCount | Dijkstra/src/Dijkstra/MatrixToEdgeList.java:36-43 | the number of emitted lines equals the number of non-zero cells of the leading n-by-n square |

## Left out

- The Swing user interface (`main`, the button listeners and `showCustomMessage` in
  DijkstraSP.java) is left out. This covers loading the edge file and the city file and formatting
  the output. It is user interface and file I/O.
- The unused `cityList` constructor parameter is left out.
- The `check` stub is left out. It always returns true and is reached only through a Java
  `assert`; the optimality theorem `Relaxation.ShortestDistances` states what such a check would
  verify.
- File reading and writing in `MatrixToEdgeList` are left out. This covers the reader and writer
  objects, `split("\\s+")` tokenisation and `Integer.parseInt`. `ReadMatrix` receives the parsed
  rows, and `WriteEdgeList` returns the lines instead of writing them.
- Matrix rows are `seq<int>`, not `int[]`, because neither operation changes a row.
- Weights are integers and distances are naturals with an explicit infinity, not IEEE doubles.
  Rounding in double addition is not modelled.
- Java's 32-bit `int` range for vertex indices and matrix cells is not modelled. The code only
  compares and copies these values, and never does arithmetic on them that could wrap.
- The binary heap of `IndexMinPQ` (swim, sink, the position table, logarithmic cost) is not
  modelled. Its state is the map from index to key, and `DelMin` finds a minimum by a linear scan.
- `PriorityQueue.IndexMinPQ.DelMin`: an empty queue is excluded by a precondition rather than
  modelled as the exception the Java queue throws, because the engine calls it only on a
  non-empty queue.
- `PriorityQueue.IndexMinPQ.Insert`: inserting a present index, or an index outside 0..maxN-1, is
  excluded by a precondition rather than modelled as an exception, because the engine never does
  either (proved through `Relax`).
- `PriorityQueue.IndexMinPQ.DecreaseKey`: an absent index, an index outside 0..maxN-1, or a key
  that is not smaller is excluded by a precondition rather than modelled as an exception, because
  the engine never does any of these (proved through `Relax`).
- `PriorityQueue.IndexMinPQ.Contains`: an index outside 0..maxN-1 is excluded by a precondition
  rather than modelled as an exception, because the engine only asks about vertices of the graph.
- `ShortestPaths.FindNegativeEdge`: the order of `edges()` is taken to be vertex by vertex, then
  adjacency order. The graph class is not part of this model, and a bag-based `edges()` may list
  the edges in another order. The order affects only which negative edge the error names, not
  whether the engine rejects the graph.
- The `size` query of the queue is not modelled, because the engine does not use it. The ordering
  of repeated `delMin` results follows from `DelMin`'s contract; it is not stated as a lemma.
- `EdgeWeightedDigraph.addEdge` and its vertex checks are not modelled. They are part of the graph
  loader; the graph's validity (`Graph.Valid`) is a precondition of the engine.
- `Stack` is a sequence, and a push prepends. Iterating the Java stack yields the same order.
- `MatrixToEdgeList.WriteEdgeList`: a row shorter than the row count is excluded by a
  precondition. In Java it would throw `ArrayIndexOutOfBoundsException` partway through writing.
- In Java the constructor allocates `distTo` and `edgeTo` before it validates the source. `Create`
  checks first and allocates afterwards. A thrown exception discards the object, so the
  difference is not observable.
