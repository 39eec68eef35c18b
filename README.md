# Graph algorithms, a range-add Fenwick tree and a rolling hash, in Dafny

This project models three headers of a competitive-programming library and
proves what each operation computes:

- `graph/graph.hpp`: the `graph` container (adjacency lists of `edge`
  records and an edge-id counter) and its algorithms. These are the
  traversals `bfs`, `zero_one_bfs` and `dijkstra`, then `bellman_ford`
  with its `-INF` marking and `warshall_floyd`. It also covers
  `topological_sort` and `is_dag`, `height` and `diameter`, and
  `bipartite_grouping` and `is_bipartite`. The spanning-tree costs are
  `prim` and `kruskal`. The rest are `centroid`,
  `bridges_and_articulations`, and the two DFS-tree builders
  `root_to_leaf` and `leaf_to_root`.
- `data_structure/range_bit.hpp`: `range_bit`. It adds a value over a
  range and sums a range using two Fenwick (binary indexed) trees.
- `string/rolling_hash.hpp`: `rolling_hash`. It has polynomial prefix
  hashes modulo 2^61 - 1, window hashes, and the binary search for the
  longest common prefix of two suffixes.

Costs are mathematical integers. `INF` is the default `long long`
instantiation's `max() / 3`. A graph is its adjacency lists
(`Graphs.Adj`, a `seq<seq<Edge>>`). The container is the class
`Graphs.Graph`, whose `AddEdge` updates its fields in place.
`Graph.Size` and `Graph.EdgeCount` are plain accessors.

The algorithms read the graph but never change it. Each one is a method
over the adjacency lists that allocates its own scratch arrays, as the
source does. Each recursive DFS lambda becomes a recursive method. Each
method is specified by graph-theoretic predicates:

- walks (`IsPath`) and their costs (`PathCost`);
- `Reachable` and `HasCycle`;
- shortest-walk vectors (`ShortestFrom`) and their witnesses (`Witnessed`);
- two-colourings, topological orders, centroids and low-link values.

Ghost out-parameters expose what each search builds: the DFS tree, the
discovery order, and the walks behind each distance. The spanning-tree
methods expose the accepted edges.

Modules:

| module | file | what it holds |
|---|---|---|
| `Graphs` | `graphs.dfy` | edges, walks, reachability, the `Graph` class |
| `Distances` | `distances.dfy` | certificates for shortest-distance vectors |
| `Traversal` | `traversal.dfy` | `bfs` |
| `ShortestPaths` | `shortest_paths.dfy` | `zero_one_bfs` and `dijkstra` |
| `BellmanFord` | `bellman_ford.dfy` | `bellman_ford` |
| `AllPairs` | `warshall_floyd.dfy` | `warshall_floyd` |
| `TopologicalOrder` | `topological_sort.dfy` | `topological_sort` and `is_dag` |
| `Sweeps` | `sweeps.dfy` | `height` and `diameter` |
| `Bipartite` | `bipartite.dfy` | `bipartite_grouping` and `is_bipartite` |
| `Prim` | `prim.dfy` | `prim` |
| `Kruskal` | `kruskal.dfy` | `kruskal` |
| `Centroids` | `centroid.dfy` | `centroid` |
| `LowLinkFacts`, `LowLink`, `LowLinkExample` | `bridges.dfy` | `bridges_and_articulations` |
| `DfsTrees` | `dfs_tree.dfy` | `root_to_leaf` and `leaf_to_root` |
| `RangeAdd` | `range_bit.dfy` | `range_bit` |
| `RollingHashes` | `rolling_hash.dfy` | `rolling_hash` |

## Model

| member | source | states |
|---|---|---|
| Graphs.EdgeOrderIsStrictWeak | graph/graph.hpp:15-16 | Edges compare by cost alone. `<` is irreflexive and transitive, `>` is `<` with the arguments swapped, and two edges are incomparable exactly when their costs are equal. |
| Graphs.Graph.constructor | graph/graph.hpp:41-42 | `graph(n)` has `n` empty adjacency lists and an id counter of 0, and is valid. |
| Graphs.Graph.At | graph/graph.hpp:28-29 | `operator[](k)` is the list of vertex `k`. In a valid graph each entry leaves `k`, ends at a vertex, and has an id below the counter. |
| Graphs.Graph.AddEdge | graph/graph.hpp:57-62 | Both endpoints are shifted by `idx`, and edge `(u, v, cost, id)` is appended at `u`. The mirror `(v, u, cost, id)` is appended at `v` unless the edge is directed or a self-loop. Every other list is unchanged. The returned id is the old counter, the counter grows by one, and validity is kept. |
| Traversal.Bfs | graph/graph.hpp:65-80 | `dist[s] == 0`. A vertex is finite exactly when it was queued, which is exactly when it is reachable. Every finite entry is the cost of a real walk. When all edges share one non-negative cost, the vector is relaxed and holds the shortest walk costs. |
| Traversal.UniformShortest | graph/graph.hpp:65-80 | With one common non-negative cost, a relaxed and witnessed vector with `d[s] == 0` is the shortest-walk vector. |
| Distances.ShortestPathCertificate | graph/graph.hpp:104-125 | With non-negative costs, a relaxed vector with `d[s] == 0` is at most the cost of every walk from `s`. Any walk cheaper than INF ends at a finite entry. |
| Distances.FiniteIffReachable | graph/graph.hpp:102-105 | For a witnessed vector that is finite along every cheap walk, an entry is finite exactly when its vertex is reachable ("unreachable: INF"). |
| Distances.ShortestUnique | graph/graph.hpp:84-125 | Two shortest-walk vectors from the same source are equal, so `zero_one_bfs` and `dijkstra` agree wherever both apply. |
| Distances.ShortCheapWalk | graph/graph.hpp:134 | With non-negative costs, every walk can be replaced by a vertex-distinct walk with fewer than `n` edges that is no more expensive. This is why `n - 1` rounds suffice. |
| ShortestPaths.RelaxDeque | graph/graph.hpp:89-97 | Relaxing the edges of a popped vertex keeps every label witnessed. Each label is either relaxed or pending in the deque. The sum of labels either drops or nothing changes. |
| ShortestPaths.ZeroOneBfs | graph/graph.hpp:84-100 | With non-negative costs, the result has `dist[s] == 0` and is relaxed and shortest. It is finite along every walk cheaper than INF, and with small costs an entry is finite exactly when its vertex is reachable. |
| ShortestPaths.MinEntry | graph/graph.hpp:113 | `que.top()` is a position whose label is no larger than any other entry's. |
| ShortestPaths.PopAndRelax | graph/graph.hpp:112-122 | Popping the least entry, skipping it if stale, and relaxing its edges keeps every label witnessed and either relaxed or queued with its current value. Either the label sum drops or the queue shrinks. |
| ShortestPaths.Dijkstra | graph/graph.hpp:104-125 | With non-negative costs, the result has `dist[s] == 0` and is relaxed and shortest. It is finite along every walk cheaper than INF, and with small costs an entry is finite exactly when its vertex is reachable. |
| BellmanFord.Rounds | graph/graph.hpp:132-141 | After `n - 1` rounds, every label is witnessed by a walk. Each label is at most the cost of every walk from `s` with at most `n - 1` edges. |
| BellmanFord.Seed | graph/graph.hpp:142-152 | Every target of an edge still improvable after the rounds is marked and queued. Every marked vertex lies downstream of such an edge. |
| BellmanFord.SeedVertex | graph/graph.hpp:145-150 | The edge loop of one finite vertex. It marks and queues the target of each of its improvable edges. Marks stay downstream, and the loop moves past the vertex. |
| BellmanFord.Spread | graph/graph.hpp:153-162 | The flood fill only adds marks. It closes the marks under stored edges, and every mark stays downstream of an improvable edge. |
| BellmanFord.Flag | graph/graph.hpp:163-164 | Every marked entry becomes `-INF`, and the others are unchanged. |
| BellmanFord.UnmarkedIsShortest | graph/graph.hpp:127-166 | An unmarked vertex's label is at most the cost of every walk from `s` to it. |
| BellmanFord.InfIffUnreachable | graph/graph.hpp:128 | After the marking, an entry is INF exactly when its vertex is unreachable. |
| BellmanFord.Conclude | graph/graph.hpp:127-166 | Every edge out of a finite vertex is relaxed or ends at a marked vertex. An entry is `-INF` exactly when marked, and INF exactly when unreachable. Unmarked entries are below every walk. With non-negative costs nothing is marked and the result is shortest. |
| BellmanFord.BellmanFord | graph/graph.hpp:130-166 | The whole of `bellman_ford(s)`. The result is the round labels with marked entries set to `-INF`, and the marks are closed under edges and lie downstream of an improvable edge. An entry is INF exactly when unreachable. Unmarked entries are below every walk. With non-negative costs the result is the shortest-walk vector. |
| AllPairs.Initialize | graph/graph.hpp:171-174 | The initial matrix has 0 on the diagonal and INF elsewhere, lowered to the cheapest stored edge of each pair. Every finite entry is witnessed by a walk. |
| AllPairs.RelaxThrough | graph/graph.hpp:175-182 | Phase `k` only lowers entries and keeps them witnessed. Afterwards every entry bounds every simple walk whose inner vertices are below `k + 1`. |
| AllPairs.AllPairsConclusion | graph/graph.hpp:169-184 | After all phases, the diagonal is at most 0. Every entry bounds every simple walk, and an entry is finite exactly when `i == j` or `j` is reachable from `i`. With non-negative costs every row is the shortest-walk vector. |
| AllPairs.WarshallFloyd | graph/graph.hpp:169-184 | The result is no larger than the initial matrix and at most each stored edge's cost. Its rows are witnessed. It is finite exactly on the reachable pairs and the diagonal, and bounds every simple walk. With non-negative costs each row is shortest. |
| TopologicalOrder.BackEdgeCycle | graph/graph.hpp:196 | Reaching a vertex that is still on the DFS stack (`used[k] == 1`) closes a cycle. |
| TopologicalOrder.Dfs | graph/graph.hpp:193-203 | `dfs(k)` keeps the search state: finished vertices are listed after their successors, and `not_DAG` means a cycle exists. Colours only advance, and unless a cycle is found `k` ends finished. |
| TopologicalOrder.OrderedAcyclic | graph/graph.hpp:187 | A graph that has a topological order has no cycle. |
| TopologicalOrder.SortConclusion | graph/graph.hpp:204-207 | Once all vertices are finished with no cycle met, the reversed finishing list is a topological order. It is a permutation of the vertices with every edge going forward. |
| TopologicalOrder.TopologicalSort | graph/graph.hpp:188-208 | The result is empty exactly when the graph has a cycle or no vertex. Otherwise it is a topological order. |
| TopologicalOrder.IsDag | graph/graph.hpp:210 | True exactly when the graph has a vertex and no cycle. |
| Sweeps.ArgMax | graph/graph.hpp:217-220 | The scan `if (dia < vec[i])` gives the first position of the largest entry and its value, or -1 when every entry is at most -1. |
| Sweeps.FirstMaxUnique | graph/graph.hpp:256 | The first largest position is unique, and it is what `max_element` returns. |
| Sweeps.Height | graph/graph.hpp:215-230 | There are three BFS runs: from 0, from the farthest vertex `v1`, and from that run's farthest vertex `v2`. The result is the larger of the last two distances at each vertex. |
| Sweeps.RaiseTo | graph/graph.hpp:226-229 | The final loop leaves at each position the larger of the two distance vectors' entries. |
| Sweeps.Diameter | graph/graph.hpp:254-261 | There are two BFS runs, from 0 and from its farthest vertex `v`. The result is `v`, the farthest vertex `w` of the second run, and its distance, which no other distance exceeds. |
| Bipartite.WalkParity | graph/graph.hpp:233-234 | Under a two-colouring, the colour at the end of a walk is fixed by the parity of its length. |
| Bipartite.Conflict | graph/graph.hpp:240 | A neighbour with the same colour (`col == colors[e.to]`) proves that a symmetric graph has no two-colouring. |
| Bipartite.ColourEdge | graph/graph.hpp:240-241 | One neighbour of `now`. A neighbour coloured `col` ends the search: every colour is still explained, and a symmetric graph is not bipartite. Otherwise the neighbour ends with the other colour. |
| Bipartite.Colour | graph/graph.hpp:237-244 | `dfs(now, col)` colours `now` with `col` and only adds colours. On success every newly coloured vertex differs from all its neighbours. On failure a symmetric graph is not bipartite. |
| Bipartite.BipartiteGrouping | graph/graph.hpp:235-248 | As written, the result is -1 at every vertex (see Findings). |
| Bipartite.UncolouredIsNotColouring | graph/graph.hpp:246 | An all -1 vector two-colours no graph that has a vertex. |
| Bipartite.BipartiteGroupingFixed | graph/graph.hpp:235-248 | The corrected driver. A non-empty result is a two-colouring. An empty result means there is no vertex, or, for a symmetric graph, that no two-colouring exists. |
| Bipartite.CheckBipartite | graph/graph.hpp:250 | As written, `is_bipartite` is true exactly when the graph has a vertex. |
| Bipartite.CheckBipartiteFixed | graph/graph.hpp:250 | Over the corrected driver, true only for a two-colourable graph with a vertex. For a symmetric graph with a vertex, true exactly when it is two-colourable. |
| Prim.Crossing | graph/graph.hpp:271-278 | A walk from 0 to an unmarked vertex crosses the cut with a stored edge from a marked vertex to an unmarked one. |
| Prim.QueueNotEmpty | graph/graph.hpp:271-272 | On a connected graph the queue is non-empty while fewer than `n` vertices are marked, so `que.top()` is safe. |
| Prim.Accept | graph/graph.hpp:274-278 | Taking an edge into an unmarked vertex marks it, grows the tree by that edge, adds its cost, and pushes the new vertex's edges, keeping the state. |
| Prim.Skip | graph/graph.hpp:274 | Popping an edge into a marked vertex keeps the state. |
| Prim.Prim | graph/graph.hpp:264-281 | On a connected graph, the accepted edges are `n - 1` stored edges. Each leaves the tree grown so far and enters a new vertex, together they span every vertex, and the result is their total cost. |
| Kruskal.FlattenHas | graph/graph.hpp:286-287 | Every stored edge appears as a `(from, to, cost)` triple in the collected list. |
| Kruskal.Collect | graph/graph.hpp:285-287 | The nested loop collects exactly the flattened triple list. |
| Kruskal.SortByCost | graph/graph.hpp:288-290 | Sorting by cost gives a cost-sorted permutation of the list. |
| Kruskal.Root | graph/graph.hpp:292-295 | `root(x)` returns the root of `x` and compresses the path. The partition and the roots are unchanged. |
| Kruskal.Unite | graph/graph.hpp:296-303 | `unite(u, v)` returns true exactly when `u` and `v` have different roots. In that case one root absorbs the other with the combined size, only those two sets merge, and the absorbed root stops being a root. Otherwise the partition and the roots are unchanged. |
| Kruskal.Connected | graph/graph.hpp:305-307 | For a labelling closed under stored edges, a graph reachable from 0 has a single label class. |
| Kruskal.SpanningCount | graph/graph.hpp:305-307 | With a single set left, the number of accepted edges is `n - 1`. |
| Kruskal.GreedyForest | graph/graph.hpp:305-306 | Kruskal's rule keeps a triple exactly when the triples kept before it do not already join its ends. What it keeps is a forest: no kept triple has its ends joined by the triples kept before it. |
| Kruskal.GreedySpans | graph/graph.hpp:305-306 | The triples Kruskal's rule keeps join the two ends of every triple of the list. |
| Kruskal.GreedySorted | graph/graph.hpp:288-290 | On a cost-sorted list, the triples Kruskal's rule keeps stay in cost order. |
| Kruskal.SameSetIffLinked | graph/graph.hpp:292-303 | Suppose the accepted triples join every vertex to its root and each accepted triple lies within one set. Then two vertices have the same root exactly when the accepted triples join them. |
| Kruskal.RootedStep | graph/graph.hpp:296-303 | One `unite` keeps every vertex joined to its root by the accepted triples. The triple is added when `unite` returns true. |
| Kruskal.GreedyStep | graph/graph.hpp:305-306 | `unite` returns true on the next triple exactly when Kruskal's rule keeps it. The accepted triples therefore remain what the rule keeps of the list so far. |
| Kruskal.ScanStep | graph/graph.hpp:305-306 | One iteration keeps the loop state. The forest joins every processed triple, and the accepted triples are what Kruskal's rule keeps and total `ret`. They join every vertex to its root, and each removed one set. |
| Kruskal.Consider | graph/graph.hpp:306 | `if (unite(...)) ret += cost` on the `i`-th triple advances that loop state by one triple. |
| Kruskal.Scan | graph/graph.hpp:301-306 | From `uf_data(size(), -1)`, the loop over all triples ends in that loop state. |
| Kruskal.Finish | graph/graph.hpp:304-307 | The final forest has these properties. `ret` is the cost of the accepted edges, which are stored edges in cost order. They are what Kruskal's rule keeps of the sorted list, and they form a forest. Two vertices get the same label exactly when the accepted edges join them. Accepted edges plus remaining sets equal `n`, so a connected graph has `n - 1` edges. |
| Kruskal.Kruskal | graph/graph.hpp:284-308 | The returned cost is the sum of the accepted edges. These are stored edges in cost order. They are exactly what Kruskal's rule keeps of some cost-sorted arrangement of the graph's edges, with ties in any order, as `std::sort` allows. They form a forest whose trees are the final sets: two vertices share a set exactly when the accepted edges join them. Accepted edges plus sets number `n`, so a connected graph gets `n - 1` edges. |
| Centroids.Visit | graph/graph.hpp:317-323 | Visiting one child records its subtree size, adds it to `sz[now]`, and clears `is_centroid` when it exceeds `n / 2`. |
| Centroids.Report | graph/graph.hpp:324-325 | After the parent-side test, `now` is listed exactly when it is a centroid. |
| Centroids.Dfs | graph/graph.hpp:314-326 | `dfs(now, per)` sets `sz` to the subtree size in `now`'s subtree and leaves the rest unchanged. It returns exactly the centroids inside that subtree. |
| Centroids.Centroid | graph/graph.hpp:311-329 | The result lists every centroid of the tree, each once, and nothing else. It is non-empty. |
| Centroids.HasCentroid | graph/graph.hpp:311-329 | Every tree has a centroid. |
| Centroids.Star | graph/graph.hpp:311-329 | In a star with at least three vertices, the centre is the only centroid. |
| DfsTrees.Record | graph/graph.hpp:373 | `add_edge(now, w, cost, 1, 0)` appends exactly one directed edge, at `now` (or at `w` for `leaf_to_root`), with the next id. |
| DfsTrees.Mark | graph/graph.hpp:371-373 | Marking the unmarked target of one stored edge and recording the edge marks exactly that vertex. The vertex gets the next discovery number, and the tree and numbering invariants are kept. |
| DfsTrees.Discover | graph/graph.hpp:372-373 | The same step on values. The recorded edges still copy stored edges between marked, reachable vertices. Every edge still leads from an earlier-discovered to a later-discovered vertex (`root_to_leaf`), or the other way (`leaf_to_root`). |
| DfsTrees.NumberAdd | graph/graph.hpp:372-373 | The newly marked vertex is numbered after every marked one, so the edge recorded to or from it respects the discovery order. |
| DfsTrees.EdgesMarkedOf | graph/graph.hpp:371-373 | In either direction, every recorded edge joins two marked vertices. |
| DfsTrees.Visit | graph/graph.hpp:370-375 | Handling one stored edge leaves its target marked. The tree stays a copy of stored edges over marked, reachable vertices, numbered in discovery order, and marks are never removed. |
| DfsTrees.Grow | graph/graph.hpp:369-376 | `dfs(now)` ends with every neighbour of `now` marked and every newly marked vertex done, keeping the tree invariant. |
| DfsTrees.Closed | graph/graph.hpp:367-377 | When every marked vertex is done, every vertex reachable from the root is marked. |
| DfsTrees.Build | graph/graph.hpp:366-377 | The marks are exactly the vertices reachable from the root. The new graph has one edge per non-root reachable vertex, each a copy of a stored edge between reachable vertices. In the downward build each such vertex is entered once; in the upward build it holds one edge. Every edge goes from an earlier-discovered vertex to a later one (or the reverse for the upward build), and the root is discovered first. |
| DfsTrees.DownTreeParents | graph/graph.hpp:365-379 | In the downward tree every vertex is entered by at most one edge, and every reachable non-root vertex is entered. |
| DfsTrees.DownReach | graph/graph.hpp:365-379 | In the downward tree, the root reaches every marked vertex, by walking back along entering edges with decreasing discovery numbers. |
| DfsTrees.UpReach | graph/graph.hpp:383-397 | In the upward tree, every marked vertex reaches the root along its one stored edge. |
| DfsTrees.WalkEndsMarked | graph/graph.hpp:371-373 | A non-empty walk in the built graph ends at a marked vertex. |
| DfsTrees.RootToLeaf | graph/graph.hpp:365-379 | The result has `n` lists and one edge per reachable non-root vertex. Each edge is a copy of a stored edge directed away from the root, and no edge enters the root. Each vertex is entered at most once, and every reachable non-root vertex is entered. A discovery numbering with the root at 0 increases along every edge, so there is no cycle. The result reaches from the root exactly the vertices the graph reaches, so it is a tree rooted at `root`. |
| DfsTrees.LeafToRoot | graph/graph.hpp:383-397 | Each reachable non-root vertex holds exactly one edge, a copy of a stored edge reversed towards the root. Every other list is empty. A discovery numbering with the root at 0 decreases along every edge, and every reachable vertex reaches the root in the result, so it is a tree directed towards `root`. |
| LowLinkFacts.MinMax | graph/graph.hpp:347 | `std::minmax` returns the pair in order. |
| LowLinkFacts.Number | graph/graph.hpp:338 | Numbering `now` with `order_next` and recording its parent keeps the search invariant and starts its scan. |
| LowLinkFacts.SkipStep | graph/graph.hpp:343 | Skipping an entry back to the parent keeps the scan invariant. |
| LowLinkFacts.ForwardStep | graph/graph.hpp:350 | An entry to an already numbered, later vertex changes nothing and keeps the scan invariant. |
| LowLinkFacts.BackStep | graph/graph.hpp:350-351 | A back edge to an earlier vertex lowers `low[now]` to that vertex's order and keeps the scan invariant. |
| LowLinkFacts.ChildDone | graph/graph.hpp:344-349 | After the child's search, the child edge is recorded as a bridge exactly when `order[now] < low[nxt]`, and `is_articulation` is set exactly when `order[now] <= low[nxt]`. `low[now]` takes the minimum, keeping the scan invariant. |
| LowLinkFacts.Leave | graph/graph.hpp:354-355 | The root rule (`par == -1` needs two children) decides the report. `now` is finished, with every vertex it finished settled. |
| LowLinkFacts.Start | graph/graph.hpp:334 | Before any search, the invariant holds with nothing numbered or reported. |
| LowLinkFacts.RootDone | graph/graph.hpp:358-359 | After a root's search, every numbered vertex is finished. |
| LowLinkFacts.End | graph/graph.hpp:358-360 | When every vertex is numbered and finished, the search is complete. |
| LowLinkFacts.OrderPermutation | graph/graph.hpp:334-338 | `order` ends as a permutation of `0..n-1`, and the visit sequence is its inverse. |
| LowLinkFacts.LowBounds | graph/graph.hpp:338 | Every vertex ends with `0 <= low[v] <= order[v]`. |
| LowLinkFacts.BridgesOrdered | graph/graph.hpp:332 | Every reported bridge `(s, t)` has `s < t` and joins the two ends of a stored edge that is a DFS tree edge. |
| LowLinkFacts.RootArticulation | graph/graph.hpp:354 | A search root is reported as an articulation point only with at least two tree children. |
| LowLinkFacts.ChildForward | graph/graph.hpp:341-349 | After the search below a child, every entry of `now` seen so far that leads to a later-numbered vertex leads into `now`'s search subtree. |
| LowLinkFacts.SubtreeChild | graph/graph.hpp:344-346 | Every vertex numbered after `now` lies in its search subtree. This holds before the search below a child and again after it. |
| LowLinkFacts.FreshBridge | graph/graph.hpp:347 | The tree edge into a just-finished child is not yet reported, so pushing it keeps the bridge list free of repeats. |
| LowLinkFacts.ForwardEdges | graph/graph.hpp:337-359 | Once the search is complete, every stored edge to a later-numbered vertex leads into its source's search subtree, so no forward edge crosses between subtrees. |
| LowLinkFacts.Ancestry | graph/graph.hpp:337-359 | On a graph whose edges are stored both ways, the two ends of every edge are ancestor and descendant in the search forest, so it is a depth-first forest. |
| LowLinkFacts.CompleteSettled | graph/graph.hpp:337-357 | Every vertex ends numbered. Its `low` is the least of its own order, its children's low values and the orders of earlier vertices reached by non-parent edges. |
| LowLink.Step | graph/graph.hpp:342-352 | Handling one entry of `now`'s list (skip, child, back edge or forward edge) advances the scan invariant by one entry. |
| LowLink.Child | graph/graph.hpp:344-349 | A child search followed by the bridge, articulation and low updates advances the scan invariant by one entry. |
| LowLink.Scan | graph/graph.hpp:341-353 | The edge loop carries the scan invariant from the first entry to the last. |
| LowLink.Dfs | graph/graph.hpp:337-357 | `dfs(now, par)` numbers `now` and finishes it and every vertex it reaches first. Each finished vertex's later-numbered neighbours lie in its search subtree, and so does every vertex numbered after `now`. The bridges are exactly those below finished vertices, with no repeats, and the articulation points are exactly the finished ones. Order, parent and low of earlier numbered vertices are unchanged. |
| LowLink.BridgesAndArticulations | graph/graph.hpp:333-361 | The bridges are exactly the tree edges `(min, max)` whose child has `order[parent] < low[child]`. The articulation points are the vertices with a child where `order[u] <= low[child]`, a root needing two children. Each is reported once, and `low` is the low-link value. The parent links form a search forest in which every edge to a later-numbered vertex goes into the source's subtree. |
| LowLinkExample.PathExample | graph/graph.hpp:331-361 | On the path 0-1-2-3, any complete result reports the bridges {(0,1), (1,2), (2,3)} and the articulation points {1, 2}. |
| LowLinkExample.PathRun | graph/graph.hpp:333-361 | Running the search on the path 0-1-2-3 returns those bridges and articulation points. |
| RangeAdd.LowBitNext | data_structure/range_bit.hpp:18 | `i + (i & -i)` has a strictly larger low bit, so the update loop climbs the tree. |
| RangeAdd.SumBelowAdded | data_structure/range_bit.hpp:14-15 | Adding `x` on `[l, r)` raises the prefix sum below `q` by `x` times the overlap of `[0, q)` with `[l, r)`. |
| RangeAdd.ZeroAbstracts | data_structure/range_bit.hpp:12 | All-zero trees represent the all-zero array. |
| RangeAdd.AddAbstracts | data_structure/range_bit.hpp:15-26 | The two point updates on each tree at `l + 1` and `r + 1` represent the array with `x` added on `[l, r)`. |
| RangeAdd.RangeBit.constructor | data_structure/range_bit.hpp:12 | `range_bit(n_)` represents `n_` zero entries, with `n = n_ + 1`. |
| RangeAdd.RangeBit.PointAdd | data_structure/range_bit.hpp:18-21 | One lowbit loop adds `d1` and `d2` at point `p` of the two trees' abstract arrays. |
| RangeAdd.RangeBit.Add | data_structure/range_bit.hpp:15-26 | `add(l, r, x)` adds `x` to every entry in `[l, r)` and leaves the others unchanged. An empty range changes nothing. For `l > r` it subtracts `x` on `[r, l)`, as the two point updates then cancel the other way round. |
| RangeAdd.RangeBit.Sum | data_structure/range_bit.hpp:29-34 | `sum(r)` is the sum of the entries below `r`, and 0 for `r <= 0`. |
| RangeAdd.RangeBit.SumRange | data_structure/range_bit.hpp:37 | `sum(l, r)` is the difference of the prefix sums, which is the total of `a[l..r)` when `0 <= l <= r`. |
| RangeAdd.RangeBit.Get | data_structure/range_bit.hpp:39 | `operator[](x)` is entry `x`. |
| RollingHashes.CMod | string/rolling_hash.hpp:24 | C++ `%` by the modulus: the usual remainder for non-negative operands. For negative ones it lies in `(-mod, 0]` and is congruent. |
| RollingHashes.Mul | string/rolling_hash.hpp:12-14 | `mul(x, y)` lies strictly between `-mod` and `mod`, and for a non-negative product it is the product's remainder. |
| RollingHashes.GetCorrect | string/rolling_hash.hpp:32-33 | The prefix hash at `r`, minus the prefix hash at `l` times `base^(r-l)`, lifted when negative, is the window polynomial modulo `mod`. |
| RollingHashes.LcpIsCommonPrefix | string/rolling_hash.hpp:40 | The two suffixes agree on their first `Lcp` elements and differ right after, unless one ends there. |
| RollingHashes.LcpSelf | string/rolling_hash.hpp:41-52 | A suffix shares its whole length with itself. |
| RollingHashes.RollingHash.constructor | string/rolling_hash.hpp:19-27 | `hash[i]` is the prefix polynomial of length `i` and `power[i]` is `base^i`, both modulo `mod`, with `hash[0] == 0` and `power[0] == 1`. |
| RollingHashes.RollingHash.Get | string/rolling_hash.hpp:30-35 | `get(l, r)` lies in `[0, mod)` and equals the window polynomial of `s[l..r)` modulo `mod`. |
| RollingHashes.RollingHash.GetAll | string/rolling_hash.hpp:38 | `get_all()` is the hash of the whole sequence. |
| RollingHashes.RollingHash.GetWindow | string/rolling_hash.hpp:30-35 | Equal windows have equal hashes. |
| RollingHashes.RollingHash.Mismatch | string/rolling_hash.hpp:46-47 | Different hashes at length `m` mean the common prefix is shorter than `m`. |
| RollingHashes.RollingHash.SearchResult | string/rolling_hash.hpp:44-51 | Suppose the binary search ends at `ok`, with the hashes agreeing at `ok` and differing at `ok + 1` unless `ok + 1` is the upper end `top`. If `ok + 1 < top`, the longest common prefix is at most `ok`. Without hash collisions, `ok` is at most that prefix. Both hold when the search may reach the full length (`top` one past the shorter suffix), so then `ok` equals the prefix. |
| RollingHashes.RollingHash.GetLcp | string/rolling_hash.hpp:41-52 | As written, the result is below `len`. It is a length at which the hashes agree (when positive), with the next length disagreeing or equal to `len`. For `a == b` it is `n - a - 1` (see Findings). |
| RollingHashes.RollingHash.GetLcpFixed | string/rolling_hash.hpp:41-52 | With the upper end at `len + 1`, the result is at most `len`. The hashes agree at the result and disagree one further unless it is `len`. For `a == b` it is `n - a`. |

## Left out

- `graph::input` and the constructor `graph(n, e, weight, directed, idx)` that calls it read edges from standard input. Each edge they read is one `Graphs.Graph.AddEdge` call.
- `edge::operator<<` and `graph::operator<<` are output only.
- `graph::resize` is left out. Shrinking would cut edges that point past the new size, and the model does not track that.
- `Chu_Liu_Edmonds` is a comment in the source with no body.
- `cost_type` is fixed to unbounded integers with `INF` taken from `long long`. The template parameters `T` of `range_bit` and `rolling_hash` become integers and integer sequences.
- Overflow of `long long` is not modelled. `SmallCosts` says that `n` times the largest absolute cost stays below INF, so no sum reaches the INF sentinel. It is required by Traversal.Bfs, BellmanFord.BellmanFord, AllPairs.WarshallFloyd, Sweeps.Height and Sweeps.Diameter, and by the lemmas behind them. ShortestPaths.ZeroOneBfs, ShortestPaths.Dijkstra, Prim.Prim and Kruskal.Kruskal do not require it. ZeroOneBfs and Dijkstra state their "finite exactly when reachable" conclusion with it as a hypothesis.
- The default arguments are passed explicitly: `add`'s `x = T(1)`, the `root = 0` of `root_to_leaf` and `leaf_to_root`, and the `par = -1` of the search lambdas.
- Each `std::priority_queue` is a sequence searched for a least entry. Heap order, tie-breaking among equal keys, and the running-time bounds in the comments are not modelled.
- `std::queue` and `std::deque` are sequences. Recursion depth is not modelled.
- `rolling_hash`'s base comes from the system clock and is a constructor parameter here. The clock read at `string/rolling_hash.hpp:20` is not part of this model.
- RollingHashes.RollingHash.constructor: requires non-negative elements. A negative `char` (a byte above 127 in a signed `char` string) is not modelled.
- `mul` computes in `__int128`. With operands below `mod` the product fits, so no wrap-around is modelled.
- RollingHashes.RollingHash.SearchResult: equality with the true common prefix is proved only under the assumption of no hash collisions. Collisions are possible, and the model does not bound their probability.
- `kruskal` declares a local `edges` of triples that shadows the member at `graph/graph.hpp:285-287`. The loop `for (auto &e : edges[i])` would then range over a single triple, which does not compile. The model iterates over the member adjacency lists, which is evidently what the code intends.
- `bridges_and_articulations` skips every entry that leads back to the parent vertex (`nxt == par`), parallel edges included, and the model does the same. A doubled edge to the parent is therefore treated like a single one.
- Prim.Prim: proves that the result is the cost of a spanning tree grown from vertex 0, not that this cost is minimal.
- Kruskal.Kruskal: proves that the accepted edges are what Kruskal's rule keeps of a cost-sorted arrangement of the edges, that they form a forest, and that its trees are the final sets. It does not prove that their cost is minimal.
- Kruskal.SortByCost: the model's sort is one stable insertion sort. `std::sort` is not stable, so edges of equal cost may come out in another order and a different forest may be accepted. Kruskal.Kruskal's contract holds for every cost-sorted arrangement, not just the one the model computes. That all these arrangements give the same total cost is not proved.
- RangeAdd.RangeBit.Add: requires `l >= 0` and `r >= 0`. With an end of -1, the loop at data_structure/range_bit.hpp:18 starts at `i = 0`, where `i & -i` is 0, so it never ends. Smaller ends index the vectors out of bounds first.
- Sweeps.Height: states the result as the larger of the two BFS distances from the sweep ends. The tree theorem that this is each vertex's eccentricity is not proved.
- Sweeps.Diameter: states the result in terms of the two BFS sweeps. The tree theorem that `dd` is the diameter is not proved.
- BellmanFord.BellmanFord: a `-INF` entry is shown to lie downstream of an edge still improvable after `n - 1` rounds. That such an edge lies on a negative cycle is not proved.
- LowLink.BridgesAndArticulations: the result is characterised by the low-link criteria over the search forest. On a graph stored both ways, LowLinkFacts.Ancestry proves that this forest is a depth-first forest. That the criteria coincide with "removing the edge or vertex disconnects the graph" is not proved.
- ShortestPaths.Dijkstra: requires non-negative costs. With a negative cycle the source's loop need not terminate, and that behaviour is not modelled.
- Centroids.Centroid: the tree is supplied with a ghost parent and depth witness rooted at 0, which the source's constraint "the graph is a tree" implies.

## Findings

| source | as written | input that shows it | evidently intended | confidence | as-written member | corrected member |
|---|---|---|---|---|---|---|
| graph/graph.hpp:246 | `if (!colors[i] and !dfs(dfs, i, 0))` starts a search only at a vertex whose colour is 0. Colours start at -1 and only `dfs` sets them, so no search ever runs. | The single edge 0-1 returns `{-1, -1}` instead of `{0, 1}`. The triangle returns `{-1, -1, -1}` instead of `{}`, so `is_bipartite` says true. | `colors[i] == -1`: start a search at every uncoloured vertex. | high (not executed) | Bipartite.BipartiteGrouping | Bipartite.BipartiteGroupingFixed |
| string/rolling_hash.hpp:43 | `ng = len`: the search treats `len` as failing without testing it, so the result is always below `len`. | `s = "aa"`, `get_lcp(0, 0)` returns 1 instead of 2. `s = "a"`, `get_lcp(0, 0)` returns 0 instead of 1. | `ng = len + 1`, so a full-length match can be found. | high (not executed) | RollingHashes.RollingHash.GetLcp | RollingHashes.RollingHash.GetLcpFixed |
