/** What a single-source distance vector means: the shared vocabulary of
    bfs, zero_one_bfs, dijkstra and bellman_ford in graph/graph.hpp. */
module Distances {
  import opened Graphs

  /** Every finite entry is the cost of some walk from `s`. */
  ghost predicate Witnessed(g: Adj, s: int, d: seq<int>) {
    forall v :: 0 <= v < |d| && d[v] != INF ==> exists p :: IsPath(g, s, v, p) && PathCost(p) == d[v]
  }

  /** No stored edge leaving a finite vertex can still shorten its target. */
  ghost predicate Relaxed(g: Adj, d: seq<int>) {
    |d| == |g| &&
    forall u, i :: 0 <= u < |g| && 0 <= i < |g[u]| && d[u] != INF ==>
      0 <= g[u][i].to < |d| && d[g[u][i].to] <= d[u] + g[u][i].cost
  }

  /** The edges stored at `u` are relaxed. */
  ghost predicate RelaxedAt(g: Adj, d: seq<int>, u: int)
    requires 0 <= u < |g| && |d| == |g|
  {
    forall i :: 0 <= i < |g[u]| ==> 0 <= g[u][i].to < |d| && d[g[u][i].to] <= d[u] + g[u][i].cost
  }

  /** The first `i` edges of `v` are relaxed. */
  ghost predicate RelaxedUpTo(g: Adj, d: seq<int>, v: int, i: int)
    requires ValidAdj(g) && |d| == |g| && 0 <= v < |g| && 0 <= i <= |g[v]|
  {
    forall j :: 0 <= j < i ==> d[g[v][j].to] <= d[v] + g[v][j].cost
  }

  ghost predicate AtMostInf(d: seq<int>) {
    forall v :: 0 <= v < |d| ==> d[v] <= INF
  }

  ghost predicate UniformCost(g: Adj, k: int) {
    forall u, i :: 0 <= u < |g| && 0 <= i < |g[u]| ==> g[u][i].cost == k
  }

  /** With non-negative costs, a relaxed vector bounds every walk that starts at a finite vertex. */
  lemma {:induction false} RelaxedBoundsWalks(g: Adj, d: seq<int>, u: int, v: int, p: seq<Edge>)
    requires ValidAdj(g) && NonNegative(g) && Relaxed(g, d) && AtMostInf(d)
    requires 0 <= u < |g| && d[u] != INF && IsPath(g, u, v, p)
    ensures 0 <= v < |g| && d[v] <= d[u] + PathCost(p) && PathCost(p) >= 0
    decreases |p|
  {
    if p != [] {
      var e := p[|p| - 1];
      var x := e.from;
      RelaxedBoundsWalks(g, d, u, x, p[..|p| - 1]);
      var i :| 0 <= i < |g[x]| && g[x][i] == e;
      assert 0 <= v < |g| && d[v] <= INF;
      if d[x] != INF {
        assert d[v] <= d[x] + e.cost;
      }
    }
  }

  /** A relaxed, witnessed vector with `d[s] == 0` holds exactly the shortest
      walk costs: no walk from `s` is cheaper, a finite entry is attained, and
      every vertex reachable by a walk cheaper than INF is finite. */
  lemma ShortestPathCertificate(g: Adj, s: int, d: seq<int>, v: int, p: seq<Edge>)
    requires ValidAdj(g) && NonNegative(g) && Relaxed(g, d) && AtMostInf(d)
    requires 0 <= s < |g| && d[s] == 0 && IsPath(g, s, v, p)
    ensures 0 <= v < |g| && d[v] <= PathCost(p)
    ensures PathCost(p) < INF ==> d[v] != INF
  {
    RelaxedBoundsWalks(g, d, s, v, p);
  }

  /** Sum of a vector: the termination measure of the label-correcting loops. */
  function Sum(s: seq<int>): (r: int)
    ensures (forall i :: 0 <= i < |s| ==> s[i] >= 0) ==> r >= 0
    decreases |s|
  {
    if s == [] then 0 else Sum(s[..|s| - 1]) + s[|s| - 1]
  }

  lemma {:induction false} SumUpdate(s: seq<int>, i: int, x: int)
    requires 0 <= i < |s|
    ensures Sum(s[i := x]) == Sum(s) - s[i] + x
    decreases |s|
  {
    var t := s[i := x];
    if i < |s| - 1 {
      assert t[..|t| - 1] == s[..|s| - 1][i := x];
      SumUpdate(s[..|s| - 1], i, x);
    } else {
      assert t[..|t| - 1] == s[..|s| - 1];
    }
  }

  lemma SumDecrease(s: seq<int>, s': seq<int>, i: int, x: int)
    requires 0 <= i < |s| && x < s[i] && s' == s[i := x]
    ensures Sum(s') < Sum(s)
  {
    SumUpdate(s, i, x);
  }

  /** When walks of fewer than |g| edges stay below INF, a vector that is
      witnessed and finite at the end of every walk cheaper than INF is finite
      exactly at the reachable vertices. */
  lemma FiniteIffReachable(g: Adj, s: int, d: seq<int>)
    requires ValidAdj(g) && SmallCosts(g) && 0 <= s < |g| && |d| == |g| && Witnessed(g, s, d)
    requires forall v, p :: IsPath(g, s, v, p) && PathCost(p) < INF ==> 0 <= v < |g| && d[v] != INF
    ensures forall v :: 0 <= v < |g| ==> (d[v] != INF <==> Reachable(g, s, v))
  {
    forall v | 0 <= v < |g| && Reachable(g, s, v) ensures d[v] != INF {
      var p :| IsPath(g, s, v, p);
      var q := ShortWalk(g, s, v, p);
      ShortWalkCost(g, s, v, q);
    }
  }

  /** Edge `e` leaves a finite vertex and is relaxed under `d`. */
  ghost predicate Tight(d: seq<int>, e: Edge) {
    0 <= e.from < |d| && 0 <= e.to < |d| && d[e.from] != INF && d[e.to] <= d[e.from] + e.cost
  }

  /** Along a walk of relaxed edges the label grows by at most the walk's cost. */
  lemma {:induction false} TightWalk(g: Adj, d: seq<int>, x: int, y: int, p: seq<Edge>)
    requires IsPath(g, x, y, p) && 0 <= x < |d|
    requires forall k :: 0 <= k < |p| ==> Tight(d, p[k])
    ensures 0 <= y < |d| && d[y] <= d[x] + PathCost(p)
    decreases |p|
  {
    if p != [] {
      var e := p[|p| - 1];
      TightWalk(g, d, x, e.from, p[..|p| - 1]);
      assert Tight(d, p[|p| - 1]);
    }
  }

  /** A walk all of whose edges are relaxed under `d` has no negative closed
      part, so it can be shortened to fewer than |g| edges without getting
      more expensive. */
  lemma {:induction false} ShortTightWalk(g: Adj, d: seq<int>, s: int, v: int, p: seq<Edge>) returns (q: seq<Edge>)
    requires ValidAdj(g) && |d| == |g| && 0 <= s < |g| && IsPath(g, s, v, p)
    requires forall k :: 0 <= k < |p| ==> Tight(d, p[k])
    ensures IsPath(g, s, v, q) && |q| < |g| && PathCost(q) <= PathCost(p)
    decreases |p|
  {
    var vs := Visits(s, p);
    forall k | 0 <= k < |vs| ensures 0 <= vs[k] < |g| {
      PathVertexInRange(g, s, v, p, k);
    }
    if Distinct(vs) {
      DistinctVertices(vs, |g|);
      q := p;
    } else {
      var i, j :| 0 <= i < j < |vs| && vs[i] == vs[j];
      CutLoop(g, s, v, p, i, j);
      var x := PathVertex(s, p, i);
      assert forall k :: 0 <= k < |p[i..j]| ==> p[i..j][k] == p[i + k];
      TightWalk(g, d, x, x, p[i..j]);
      var r := p[..i] + p[j..];
      forall k | 0 <= k < |r| ensures Tight(d, r[k]) {
        if k < i { assert r[k] == p[k]; } else { assert r[k] == p[k - i + j]; }
      }
      q := ShortTightWalk(g, d, s, v, r);
    }
  }

  lemma {:induction false} PathCostNonNegative(g: Adj, x: int, y: int, p: seq<Edge>)
    requires NonNegative(g) && IsPath(g, x, y, p)
    ensures PathCost(p) >= 0
    decreases |p|
  {
    if p != [] {
      var e := p[|p| - 1];
      PathCostNonNegative(g, x, e.from, p[..|p| - 1]);
      var i :| 0 <= i < |g[e.from]| && g[e.from][i] == e;
    }
  }

  /** With non-negative costs every walk can be shortened to fewer than |g|
      edges without getting more expensive. */
  lemma {:induction false} ShortCheapWalk(g: Adj, s: int, v: int, p: seq<Edge>) returns (q: seq<Edge>)
    requires ValidAdj(g) && NonNegative(g) && 0 <= s < |g| && IsPath(g, s, v, p)
    ensures IsPath(g, s, v, q) && |q| < |g| && PathCost(q) <= PathCost(p) && Distinct(Visits(s, q))
    decreases |p|
  {
    var vs := Visits(s, p);
    forall k | 0 <= k < |vs| ensures 0 <= vs[k] < |g| {
      PathVertexInRange(g, s, v, p, k);
    }
    if Distinct(vs) {
      DistinctVertices(vs, |g|);
      q := p;
    } else {
      var i, j :| 0 <= i < j < |vs| && vs[i] == vs[j];
      CutLoop(g, s, v, p, i, j);
      PathCostNonNegative(g, PathVertex(s, p, i), PathVertex(s, p, i), p[i..j]);
      q := ShortCheapWalk(g, s, v, p[..i] + p[j..]);
    }
  }

  /** `d` holds exactly the shortest-walk costs from `s`: every finite entry
      is attained by a walk, no walk is cheaper than the entry at its end, and
      entries never exceed INF. */
  ghost predicate ShortestFrom(g: Adj, s: int, d: seq<int>) {
    |d| == |g| && AtMostInf(d) && Witnessed(g, s, d) &&
    forall v, p :: IsPath(g, s, v, p) ==> 0 <= v < |g| && d[v] <= PathCost(p)
  }

  /** Shortest-walk costs are unique: any two algorithms that compute them agree. */
  lemma ShortestUnique(g: Adj, s: int, d1: seq<int>, d2: seq<int>)
    requires ShortestFrom(g, s, d1) && ShortestFrom(g, s, d2)
    ensures d1 == d2
  {
    forall v | 0 <= v < |g| ensures d1[v] == d2[v] {
      if d1[v] != INF {
        var p :| IsPath(g, s, v, p) && PathCost(p) == d1[v];
      }
      if d2[v] != INF {
        var p :| IsPath(g, s, v, p) && PathCost(p) == d2[v];
      }
    }
  }
}
