/** `bfs` and `zero_one_bfs` of graph/graph.hpp. */
module Traversal {
  import opened Graphs
  import opened Distances

  /** What BFS knows about the vertices it has discovered: `order` lists them
      in discovery order, each once; exactly they are finite; each carries the
      walk it was reached by; and, `B` growing by the largest edge cost per
      discovery, their distances stay far from INF. */
  ghost predicate Discovered(g: Adj, s: int, d: seq<int>, order: seq<int>, paths: seq<seq<Edge>>, B: int, M: int)
  {
    |d| == |g| && |paths| == |g| &&
    |order| >= 1 && order[0] == s && Distinct(order) &&
    (forall i :: 0 <= i < |order| ==> 0 <= order[i] < |g|) &&
    (forall v :: 0 <= v < |g| ==> (d[v] != INF <==> v in order)) &&
    d[s] == 0 &&
    (forall v :: 0 <= v < |g| && d[v] != INF ==> IsPath(g, s, v, paths[v]) && PathCost(paths[v]) == d[v]) &&
    B == Scaled(|order| - 1, M) &&
    (forall v :: 0 <= v < |g| && d[v] != INF ==> -B <= d[v] <= B)
  }

  /** `Discovered` is the conjunction of its three parts below. */
  lemma DiscoveredParts(g: Adj, s: int, d: seq<int>, order: seq<int>, paths: seq<seq<Edge>>, B: int, M: int)
    ensures Discovered(g, s, d, order, paths, B, M) <==>
            DiscoveredOrder(g, s, d, order) && DiscoveredPaths(g, s, d, paths) && DiscoveredBound(g, d, order, B, M)
  {
  }

  /** `order` lists the finite vertices, each once, starting with `s`. */
  ghost predicate DiscoveredOrder(g: Adj, s: int, d: seq<int>, order: seq<int>)
  {
    |d| == |g| && |order| >= 1 && order[0] == s && Distinct(order) &&
    (forall i :: 0 <= i < |order| ==> 0 <= order[i] < |g|) &&
    (forall v :: 0 <= v < |g| ==> (d[v] != INF <==> v in order)) &&
    d[s] == 0
  }

  /** Each finite vertex carries a walk from `s` of its distance's cost. */
  ghost predicate DiscoveredPaths(g: Adj, s: int, d: seq<int>, paths: seq<seq<Edge>>)
  {
    |d| == |g| && |paths| == |g| &&
    forall v :: 0 <= v < |g| && d[v] != INF ==> IsPath(g, s, v, paths[v]) && PathCost(paths[v]) == d[v]
  }

  /** The finite distances lie within `B`, which grows by `M` per discovery. */
  ghost predicate DiscoveredBound(g: Adj, d: seq<int>, order: seq<int>, B: int, M: int)
  {
    |d| == |g| && |order| >= 1 && B == Scaled(|order| - 1, M) &&
    forall v :: 0 <= v < |g| && d[v] != INF ==> -B <= d[v] <= B
  }

  /** The first `upto` discovered vertices have had all their edges followed. */
  ghost predicate Expanded(g: Adj, d: seq<int>, order: seq<int>, upto: int)
    requires |d| == |g| && 0 <= upto <= |order|
    requires forall i :: 0 <= i < |order| ==> 0 <= order[i] < |g|
    requires ValidAdj(g)
  {
    forall j, i :: 0 <= j < upto && 0 <= i < |g[order[j]]| ==> d[g[order[j]][i].to] != INF
  }

  /** The BFS discovery order is sorted by distance, the queue spans at most one
      edge cost, and every dequeued vertex has its edges relaxed: the queue
      discipline that makes BFS exact when every edge costs the same `k`. */
  ghost predicate Layered(g: Adj, d: seq<int>, order: seq<int>, head: int, k: int)
    requires |d| == |g| && 0 <= head <= |order|
    requires forall i :: 0 <= i < |order| ==> 0 <= order[i] < |g|
  {
    (forall i, j :: 0 <= i < j < |order| ==> d[order[i]] <= d[order[j]]) &&
    (head < |order| ==> d[order[|order| - 1]] <= d[order[head]] + k) &&
    (forall j :: 0 <= j < head ==> RelaxedAt(g, d, order[j]))
  }

  /** Discovering `e.to` from `v` keeps the discovery facts. */
  lemma DiscoverStep(g: Adj, s: int, d: seq<int>, order: seq<int>, paths: seq<seq<Edge>>, B: int, v: int, e: Edge,
                     d': seq<int>, order': seq<int>, paths': seq<seq<Edge>>, B': int)
    requires ValidAdj(g) && SmallCosts(g)
    requires Discovered(g, s, d, order, paths, B, MaxAbsCost(g))
    requires 0 <= v < |g| && d[v] != INF && e in g[v] && d[e.to] == INF
    requires d' == d[e.to := d[v] + e.cost] && order' == order + [e.to] && paths' == paths[e.to := paths[v] + [e]]
    requires B' == B + MaxAbsCost(g)
    ensures Discovered(g, s, d', order', paths', B', MaxAbsCost(g))
  {
    var i :| 0 <= i < |g[v]| && g[v][i] == e;
    var w := e.to;
    DiscoveredParts(g, s, d, order, paths, B, MaxAbsCost(g));
    DiscoveredParts(g, s, d', order', paths', B', MaxAbsCost(g));
    DiscoverBound(g, d, order, B, v, e);
    DiscoverOrder(g, s, d, order, w, d[v] + e.cost);
    DiscoverPaths(g, s, d, paths, v, e);
    DiscoverFinite(g, d, order, w, d[v] + e.cost, B, MaxAbsCost(g));
  }

  lemma DiscoverOrder(g: Adj, s: int, d: seq<int>, order: seq<int>, w: int, x: int)
    requires DiscoveredOrder(g, s, d, order) && 0 <= w < |g| && d[w] == INF && x != INF
    ensures DiscoveredOrder(g, s, d[w := x], order + [w])
  {
    assert w !in order;
  }

  lemma DiscoverFinite(g: Adj, d: seq<int>, order: seq<int>, w: int, x: int, B: int, M: int)
    requires DiscoveredBound(g, d, order, B, M) && 0 <= w < |g| && -(B + M) <= x <= B + M && M >= 0
    ensures DiscoveredBound(g, d[w := x], order + [w], B + M, M)
  {
    assert |order + [w]| - 1 == |order|;
  }

  lemma DiscoverBound(g: Adj, d: seq<int>, order: seq<int>, B: int, v: int, e: Edge)
    requires ValidAdj(g) && SmallCosts(g) && |d| == |g|
    requires Distinct(order) && forall i :: 0 <= i < |order| ==> 0 <= order[i] < |g|
    requires |order| >= 1 && B == Scaled(|order| - 1, MaxAbsCost(g))
    requires forall x :: 0 <= x < |g| && d[x] != INF ==> -B <= d[x] <= B
    requires 0 <= v < |g| && d[v] != INF && e in g[v] && e.to !in order
    ensures -(B + MaxAbsCost(g)) <= d[v] + e.cost <= B + MaxAbsCost(g) < INF
  {
    var M := MaxAbsCost(g);
    var i :| 0 <= i < |g[v]| && g[v][i] == e;
    var order' := order + [e.to];
    assert Distinct(order');
    DistinctVertices(order', |g|);
    var c := |order|;
    assert B + M == Scaled(c, M);
    ScaledMono(c, |g|, M);
    assert Abs(e.cost) <= M;
  }

  lemma DiscoverPaths(g: Adj, s: int, d: seq<int>, paths: seq<seq<Edge>>, v: int, e: Edge)
    requires ValidAdj(g) && DiscoveredPaths(g, s, d, paths)
    requires 0 <= v < |g| && d[v] != INF && e in g[v] && d[v] + e.cost != INF
    ensures 0 <= e.to < |g|
    ensures DiscoveredPaths(g, s, d[e.to := d[v] + e.cost], paths[e.to := paths[v] + [e]])
  {
    var i :| 0 <= i < |g[v]| && g[v][i] == e;
    PathExtend(g, s, v, paths[v], e);
  }

  lemma ExpandedGrows(g: Adj, d: seq<int>, d': seq<int>, order: seq<int>, order': seq<int>, upto: int)
    requires ValidAdj(g) && |d| == |g| == |d'| && 0 <= upto <= |order| <= |order'| && order <= order'
    requires forall i :: 0 <= i < |order'| ==> 0 <= order'[i] < |g|
    requires forall x :: 0 <= x < |g| && d[x] != INF ==> d'[x] != INF
    requires Expanded(g, d, order, upto)
    ensures Expanded(g, d', order', upto)
  {
  }

  lemma LayeredDiscover(g: Adj, d: seq<int>, order: seq<int>, head: int, k: int, e: Edge)
    requires ValidAdj(g) && UniformCost(g, k) && |d| == |g| && 0 <= head < |order|
    requires forall i :: 0 <= i < |order| ==> 0 <= order[i] < |g| && d[order[i]] != INF
    requires Layered(g, d, order, head, k)
    requires forall j, t :: 0 <= j < head && 0 <= t < |g[order[j]]| ==> d[g[order[j]][t].to] != INF
    requires e in g[order[head]] && d[e.to] == INF
    ensures 0 <= e.to < |g|
    ensures Layered(g, d[e.to := d[order[head]] + e.cost], order + [e.to], head, k)
  {
    var v := order[head];
    var i :| 0 <= i < |g[v]| && g[v][i] == e;
    var w := e.to;
    var d', order' := d[w := d[v] + e.cost], order + [w];
    assert w !in order;
    forall j | 0 <= j < head ensures RelaxedAt(g, d', order'[j]) {
      assert RelaxedAt(g, d, order[j]);
      forall t | 0 <= t < |g[order[j]]| ensures d'[g[order[j]][t].to] <= d'[order[j]] + g[order[j]][t].cost {
        assert d[g[order[j]][t].to] <= d[order[j]] + g[order[j]][t].cost;
      }
    }
  }

  /** On a uniform-cost graph every already discovered target is already close enough. */
  lemma LayeredSeen(g: Adj, d: seq<int>, order: seq<int>, head: int, k: int, e: Edge)
    requires ValidAdj(g) && UniformCost(g, k) && 0 <= k && |d| == |g| && 0 <= head < |order|
    requires forall i :: 0 <= i < |order| ==> 0 <= order[i] < |g|
    requires forall x :: 0 <= x < |g| ==> (d[x] != INF <==> x in order)
    requires Layered(g, d, order, head, k)
    requires e in g[order[head]] && d[e.to] != INF
    ensures 0 <= e.to < |g| && d[e.to] <= d[order[head]] + e.cost
  {
    var i :| 0 <= i < |g[order[head]]| && g[order[head]][i] == e;
    var j :| 0 <= j < |order| && order[j] == e.to;
    if j < head {
      assert d[order[j]] <= d[order[head]];
    } else if j > head {
      assert d[order[j]] <= d[order[|order| - 1]];
    }
  }

  lemma LayeredAdvance(g: Adj, d: seq<int>, order: seq<int>, head: int, k: int)
    requires ValidAdj(g) && |d| == |g| && 0 <= head < |order|
    requires forall i :: 0 <= i < |order| ==> 0 <= order[i] < |g|
    requires Layered(g, d, order, head, k)
    requires RelaxedAt(g, d, order[head])
    ensures Layered(g, d, order, head + 1, k)
  {
    if head + 1 < |order| {
      assert d[order[head]] <= d[order[head + 1]];
    }
  }

  /** Everything the BFS loops maintain. */
  ghost predicate BfsState(g: Adj, s: int, d: seq<int>, order: seq<int>, paths: seq<seq<Edge>>, B: int,
                           head: int, uni: bool, K: int)
  {
    ValidAdj(g) && SmallCosts(g) &&
    Discovered(g, s, d, order, paths, B, MaxAbsCost(g)) &&
    0 <= head <= |order| &&
    Expanded(g, d, order, head) &&
    (uni ==> 0 <= K && UniformCost(g, K) && Layered(g, d, order, head, K))
  }

  lemma VisitNew(g: Adj, s: int, d: seq<int>, order: seq<int>, paths: seq<seq<Edge>>, B: int,
                 head: int, uni: bool, K: int, e: Edge,
                 d': seq<int>, order': seq<int>, paths': seq<seq<Edge>>, B': int)
    requires BfsState(g, s, d, order, paths, B, head, uni, K) && head < |order|
    requires e in g[order[head]] && d[e.to] == INF
    requires d' == d[e.to := d[order[head]] + e.cost] && order' == order + [e.to]
    requires paths' == paths[e.to := paths[order[head]] + [e]] && B' == B + MaxAbsCost(g)
    ensures BfsState(g, s, d', order', paths', B', head, uni, K)
  {
    var v := order[head];
    DiscoverStep(g, s, d, order, paths, B, v, e, d', order', paths', B');
    if uni { LayeredDiscover(g, d, order, head, K, e); }
    ExpandedGrows(g, d, d[e.to := d[v] + e.cost], order, order + [e.to], head);
  }

  /** The first `i` edges of `v` lead to discovered vertices. */
  ghost predicate SeenUpTo(g: Adj, d: seq<int>, v: int, i: int)
    requires ValidAdj(g) && |d| == |g| && 0 <= v < |g| && 0 <= i <= |g[v]|
  {
    forall j :: 0 <= j < i ==> d[g[v][j].to] != INF
  }

  lemma UpToGrows(g: Adj, d: seq<int>, d': seq<int>, v: int, i: int, uni: bool)
    requires ValidAdj(g) && |d| == |g| == |d'| && 0 <= v < |g| && 0 <= i < |g[v]|
    requires d[v] != INF && SeenUpTo(g, d, v, i) && (uni ==> RelaxedUpTo(g, d, v, i))
    requires forall x :: 0 <= x < |g| && d[x] != INF ==> d'[x] == d[x]
    requires d'[g[v][i].to] != INF && (uni ==> d'[g[v][i].to] <= d'[v] + g[v][i].cost)
    ensures SeenUpTo(g, d', v, i + 1) && (uni ==> RelaxedUpTo(g, d', v, i + 1))
  {
    forall j | 0 <= j < i ensures d'[g[v][j].to] == d[g[v][j].to] {
      assert d[g[v][j].to] != INF;
    }
  }

  /** Following one edge `e` of the vertex at position `head`: its target is
      pushed and given `dist[v] + e.cost` if it was still unseen. */
  method Visit(g: Adj, s: int, d: array<int>, v: int, e: Edge, q: seq<int>,
               ghost order: seq<int>, ghost head: int, ghost paths: seq<seq<Edge>>, ghost B: int,
               ghost uni: bool, ghost K: int)
    returns (q': seq<int>, ghost order': seq<int>, ghost paths': seq<seq<Edge>>, ghost B': int)
    requires d.Length == |g| && BfsState(g, s, d[..], order, paths, B, head, uni, K)
    requires head < |order| && v == order[head] && q == order[head + 1..] && e in g[v]
    modifies d
    ensures BfsState(g, s, d[..], order', paths', B', head, uni, K)
    ensures order <= order' && q' == order'[head + 1..]
    ensures 0 <= e.to < |g| && d[e.to] != INF
    ensures uni ==> d[e.to] <= d[order[head]] + e.cost
    ensures forall x :: 0 <= x < |g| && old(d[x]) != INF ==> d[x] == old(d[x])
  {
    ghost var before := d[..];
    if d[e.to] == INF {
      var w := e.to;
      d[w] := d[v] + e.cost;
      assert d[..] == before[w := before[v] + e.cost];
      paths' := paths[w := paths[v] + [e]];
      order' := order + [w];
      q' := q + [w];
      B' := B + MaxAbsCost(g);
      VisitNew(g, s, before, order, paths, B, head, uni, K, e, d[..], order', paths', B');
    } else {
      q', order', paths', B' := q, order, paths, B;
      if uni { LayeredSeen(g, before, order, head, K, e); }
    }
  }

  /** One iteration of the outer BFS loop: follow every edge of the vertex at
      position `head` of the discovery order. */
  method ExpandVertex(g: Adj, s: int, d: array<int>, v: int, q: seq<int>,
                      ghost order: seq<int>, ghost head: int, ghost paths: seq<seq<Edge>>, ghost B: int,
                      ghost uni: bool, ghost K: int)
    returns (q': seq<int>, ghost order': seq<int>, ghost paths': seq<seq<Edge>>, ghost B': int)
    requires d.Length == |g| && BfsState(g, s, d[..], order, paths, B, head, uni, K)
    requires head < |order| && v == order[head] && q == order[head + 1..]
    modifies d
    ensures order <= order' && q' == order'[head + 1..]
    ensures BfsState(g, s, d[..], order', paths', B', head + 1, uni, K)
  {
    q', order', paths', B' := q, order, paths, B;
    var i := 0;
    while i < |g[v]|
      invariant 0 <= i <= |g[v]|
      invariant order <= order' && q' == order'[head + 1..]
      invariant BfsState(g, s, d[..], order', paths', B', head, uni, K)
      invariant SeenUpTo(g, d[..], v, i)
      invariant uni ==> RelaxedUpTo(g, d[..], v, i)
    {
      ghost var before := d[..];
      assert order'[head] == v && before[v] != INF;
      q', order', paths', B' := Visit(g, s, d, v, g[v][i], q', order', head, paths', B', uni, K);
      UpToGrows(g, before, d[..], v, i, uni);
      i := i + 1;
    }
    assert SeenUpTo(g, d[..], v, |g[v]|);
    if uni { LayeredAdvance(g, d[..], order', head, K); }
  }

  /** `bfs(s)`: breadth-first search from `s`; `dist[e.to] = dist[v] + e.cost` for
      the first edge that reaches each vertex. `order` is the sequence of vertices
      in the order they were pushed, each once. */
  method Bfs(g: Adj, s: int) returns (dist: seq<int>, ghost order: seq<int>)
    requires ValidAdj(g) && 0 <= s < |g| && SmallCosts(g)
    ensures |dist| == |g| && dist[s] == 0 && AtMostInf(dist)
    ensures Distinct(order) && |order| >= 1 && order[0] == s
    ensures forall v :: 0 <= v < |g| ==> (dist[v] != INF <==> v in order)
    ensures forall v :: 0 <= v < |g| ==> (dist[v] != INF <==> Reachable(g, s, v))
    ensures Witnessed(g, s, dist)
    ensures (exists k :: 0 <= k && UniformCost(g, k)) ==> Relaxed(g, dist)
    ensures (exists k :: 0 <= k && UniformCost(g, k)) ==> ShortestFrom(g, s, dist)
  {
    var n := |g|;
    var d := new int[n](_ => INF);
    d[s] := 0;
    var q := [s];
    order := [s];
    ghost var head := 0;
    ghost var paths: seq<seq<Edge>> := seq(n, _ => []);
    ghost var B := 0;
    ghost var uni := exists k :: 0 <= k && UniformCost(g, k);
    ghost var K := if uni then var k :| 0 <= k && UniformCost(g, k); k else 0;
    while q != []
      invariant d.Length == n
      invariant 0 <= head <= |order| && q == order[head..]
      invariant BfsState(g, s, d[..], order, paths, B, head, uni, K)
      decreases n - head
    {
      DistinctVertices(order, n);
      var v := q[0];
      q, order, paths, B := ExpandVertex(g, s, d, v, q[1..], order, head, paths, B, uni, K);
      head := head + 1;
    }
    dist := d[..];
    BfsConclusion(g, s, dist, order, paths, B, uni, K);
    if uni {
      UniformShortest(g, s, dist, K);
    }
  }

  /** What a call `bfs(s)` guarantees about its result. */
  ghost predicate BfsSpec(g: Adj, s: int, dist: seq<int>) {
    ValidAdj(g) && 0 <= s < |g| &&
    |dist| == |g| && dist[s] == 0 && AtMostInf(dist) &&
    (forall v :: 0 <= v < |g| ==> (dist[v] != INF <==> Reachable(g, s, v))) &&
    Witnessed(g, s, dist) &&
    ((exists k :: 0 <= k && UniformCost(g, k)) ==> ShortestFrom(g, s, dist))
  }

  /** With one non-negative cost on every edge, a relaxed, witnessed vector is
      the shortest-walk vector; with cost 1 that is the fewest-edges distance. */
  lemma UniformShortest(g: Adj, s: int, dist: seq<int>, k: int)
    requires ValidAdj(g) && 0 <= s < |g| && 0 <= k && UniformCost(g, k)
    requires Relaxed(g, dist) && AtMostInf(dist) && Witnessed(g, s, dist) && dist[s] == 0
    ensures ShortestFrom(g, s, dist)
  {
    forall v, p | IsPath(g, s, v, p) ensures 0 <= v < |g| && dist[v] <= PathCost(p) {
      ShortestPathCertificate(g, s, dist, v, p);
    }
  }

  /** Once the queue is empty, the discovery facts give the postcondition of `Bfs`. */
  lemma BfsConclusion(g: Adj, s: int, dist: seq<int>, order: seq<int>, paths: seq<seq<Edge>>, B: int, uni: bool, K: int)
    requires BfsState(g, s, dist, order, paths, B, |order|, uni, K)
    requires uni <==> exists k :: 0 <= k && UniformCost(g, k)
    ensures |dist| == |g| && dist[s] == 0 && AtMostInf(dist)
    ensures forall v :: 0 <= v < |g| ==> (dist[v] != INF <==> Reachable(g, s, v))
    ensures Witnessed(g, s, dist)
    ensures uni ==> Relaxed(g, dist)
  {
    BoundBelowInf(g, order, B);
    ghost var S := set v | v in order;
    forall v, p | 0 <= v < |g| && IsPath(g, s, v, p)
      ensures dist[v] != INF
    {
      ClosedSetHoldsReachable(g, S, s, v, p);
    }
  }

  lemma BoundBelowInf(g: Adj, order: seq<int>, B: int)
    requires SmallCosts(g) && Distinct(order) && |order| >= 1
    requires forall i :: 0 <= i < |order| ==> 0 <= order[i] < |g|
    requires B == Scaled(|order| - 1, MaxAbsCost(g))
    ensures B < INF
  {
    DistinctVertices(order, |g|);
    ScaledMono(|order| - 1, |g|, MaxAbsCost(g));
  }
}
