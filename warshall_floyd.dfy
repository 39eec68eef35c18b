/** `warshall_floyd` of graph/graph.hpp: the all-pairs table, filled with the
    direct edges and then improved through every intermediate vertex `k` in turn. */
module AllPairs {
  import opened Graphs
  import opened Distances

  /** A walk that visits no vertex twice. */
  ghost predicate SimpleWalk(s: int, p: seq<Edge>) {
    Distinct(Visits(s, p))
  }

  /** Every vertex strictly inside the walk is below `k`. */
  ghost predicate InnerBelow(s: int, p: seq<Edge>, k: int) {
    forall t :: 0 < t < |p| ==> PathVertex(s, p, t) < k
  }

  /** `x` is no more than the cost of any simple walk from `i` to `j` whose
      inner vertices are all below `k`. */
  ghost predicate BoundsSimple(g: Adj, i: int, j: int, k: int, x: int) {
    forall p :: IsPath(g, i, j, p) && SimpleWalk(i, p) && InnerBelow(i, p, k) ==> x <= PathCost(p)
  }

  ghost predicate Square(D: seq<seq<int>>, n: int) {
    |D| == n && forall i :: 0 <= i < n ==> |D[i]| == n
  }

  /** The entry a cell starts from before any edge is looked at. */
  function Base(i: int, j: int): (r: int)
    ensures r == 0 || r == INF
    ensures r == 0 <==> i == j
  {
    if i == j then 0 else INF
  }

  /** The table after the two initial loops: each cell is the least of its
      base value and the costs of the direct edges between its two vertices. */
  ghost predicate Initialized(g: Adj, D: seq<seq<int>>)
    requires ValidAdj(g)
  {
    Square(D, |g|) &&
    (forall i, j :: 0 <= i < |g| && 0 <= j < |g| ==> D[i][j] <= Base(i, j)) &&
    (forall u, t :: 0 <= u < |g| && 0 <= t < |g[u]| ==> D[u][g[u][t].to] <= g[u][t].cost) &&
    (forall i, j :: 0 <= i < |g| && 0 <= j < |g| ==>
       D[i][j] == Base(i, j) || exists t :: 0 <= t < |g[i]| && g[i][t].to == j && D[i][j] == g[i][t].cost)
  }

  /** Every finite cell of every row is the cost of a walk between its vertices. */
  ghost predicate RowsWitnessed(g: Adj, D: seq<seq<int>>)
    requires |D| == |g|
  {
    forall i :: 0 <= i < |g| ==> Witnessed(g, i, D[i])
  }

  ghost predicate NoLarger(D: seq<seq<int>>, E: seq<seq<int>>, n: int)
    requires Square(D, n) && Square(E, n)
  {
    forall i, j :: 0 <= i < n && 0 <= j < n ==> D[i][j] <= E[i][j]
  }

  ghost predicate AllBounded(g: Adj, D: seq<seq<int>>, k: int)
    requires Square(D, |g|)
  {
    forall i, j :: 0 <= i < |g| && 0 <= j < |g| ==> BoundsSimple(g, i, j, k, D[i][j])
  }

  /** What holds between the phases of the main loop: `k` intermediate vertices are done. */
  ghost predicate PhaseState(g: Adj, init: seq<seq<int>>, D: seq<seq<int>>, k: int)
    requires ValidAdj(g)
  {
    Initialized(g, init) && Square(D, |g|) && NoLarger(D, init, |g|) &&
    RowsWitnessed(g, D) && AllBounded(g, D, k)
  }

  // ---------------------------------------------------------------- walks

  /** A simple walk has fewer edges than vertices, so under `SmallCosts` it costs less than INF. */
  lemma SimpleWalkCost(g: Adj, s: int, v: int, p: seq<Edge>)
    requires ValidAdj(g) && SmallCosts(g) && 0 <= s < |g| && IsPath(g, s, v, p) && SimpleWalk(s, p)
    ensures |p| < |g| && PathCost(p) < INF
  {
    var vs := Visits(s, p);
    forall t | 0 <= t < |vs| ensures 0 <= vs[t] < |g| {
      PathVertexInRange(g, s, v, p, t);
    }
    DistinctVertices(vs, |g|);
    ShortWalkCost(g, s, v, p);
  }

  /** The first `t` edges of a walk visit what the walk visits first. */
  lemma PrefixVertices(s: int, p: seq<Edge>, t: int)
    requires 0 <= t <= |p|
    ensures forall m :: 0 <= m <= t ==> PathVertex(s, p[..t], m) == PathVertex(s, p, m)
  {
  }

  /** The edges after the first `t` visit what the walk visits from step `t` on. */
  lemma SuffixVertices(s: int, p: seq<Edge>, t: int)
    requires 0 <= t <= |p|
    ensures forall m :: 0 <= m <= |p| - t ==> PathVertex(PathVertex(s, p, t), p[t..], m) == PathVertex(s, p, t + m)
  {
  }

  /** A simple walk whose inner vertices are below `k + 1` but not all below
      `k` passes through `k` exactly once, and splits there into two simple
      walks whose inner vertices are below `k`. */
  lemma SplitAt(g: Adj, i: int, j: int, p: seq<Edge>, k: int) returns (p1: seq<Edge>, p2: seq<Edge>)
    requires IsPath(g, i, j, p) && SimpleWalk(i, p) && InnerBelow(i, p, k + 1) && !InnerBelow(i, p, k)
    ensures IsPath(g, i, k, p1) && SimpleWalk(i, p1) && InnerBelow(i, p1, k)
    ensures IsPath(g, k, j, p2) && SimpleWalk(k, p2) && InnerBelow(k, p2, k)
    ensures PathCost(p) == PathCost(p1) + PathCost(p2)
  {
    var t :| 0 < t < |p| && PathVertex(i, p, t) >= k;
    assert PathVertex(i, p, t) == k;
    var vs := Visits(i, p);
    p1, p2 := p[..t], p[t..];
    PathPrefix(g, i, j, p, t);
    PathSuffix(g, i, j, p, t);
    PrefixVertices(i, p, t);
    SuffixVertices(i, p, t);
    forall a, b | 0 <= a < b < |Visits(i, p1)| ensures Visits(i, p1)[a] != Visits(i, p1)[b] {
      assert vs[a] != vs[b];
    }
    forall m | 0 < m < |p1| ensures PathVertex(i, p1, m) < k {
      assert vs[m] != vs[t];
    }
    forall a, b | 0 <= a < b < |Visits(k, p2)| ensures Visits(k, p2)[a] != Visits(k, p2)[b] {
      assert vs[t + a] != vs[t + b];
    }
    forall m | 0 < m < |p2| ensures PathVertex(k, p2, m) < k {
      assert vs[t] != vs[t + m];
    }
    PathJoin(g, i, k, j, p1, p2);
    assert p1 + p2 == p;
  }

  /** Bounds over fewer inner vertices carry over to a smaller cell value. */
  lemma BoundsSmaller(g: Adj, i: int, j: int, k: int, x: int, y: int)
    requires BoundsSimple(g, i, j, k, x) && y <= x
    ensures BoundsSimple(g, i, j, k, y)
  {
  }

  // ---------------------------------------------------------------- initial table

  /** The initial table bounds every simple walk without inner vertices: the
      empty walk and the single edges. */
  lemma InitialBounds(g: Adj, D: seq<seq<int>>)
    requires ValidAdj(g) && Initialized(g, D)
    ensures AllBounded(g, D, 0)
  {
    forall i, j, p | 0 <= i < |g| && 0 <= j < |g| && IsPath(g, i, j, p) && SimpleWalk(i, p) && InnerBelow(i, p, 0)
      ensures D[i][j] <= PathCost(p)
    {
      if |p| >= 2 {
        PathVertexInRange(g, i, j, p, 1);
        assert false;
      } else if |p| == 1 {
        var e: Edge := p[0];
        assert p[..0] == [];
        assert IsPath(g, i, e.from, p[..0]);
        assert e in g[i];
        var t :| 0 <= t < |g[i]| && g[i][t] == e;
        assert PathCost(p) == e.cost;
      }
    }
  }

  lemma InitialWitnessed(g: Adj, D: seq<seq<int>>)
    requires ValidAdj(g) && Initialized(g, D)
    ensures RowsWitnessed(g, D)
  {
    forall i, j | 0 <= i < |g| && 0 <= j < |g| && D[i][j] != INF
      ensures exists p :: IsPath(g, i, j, p) && PathCost(p) == D[i][j]
    {
      if D[i][j] == Base(i, j) {
        assert IsPath(g, i, j, []) && PathCost([]) == 0;
      } else {
        var t :| 0 <= t < |g[i]| && g[i][t].to == j && D[i][j] == g[i][t].cost;
        var e := g[i][t];
        assert [e][..0] == [];
        assert PathCost([e]) == PathCost([]) + e.cost;
        assert IsPath(g, i, j, [e]);
      }
    }
  }

  /** The edge loop of one row: `dist[u][e.to] = min(dist[u][e.to], e.cost)`
      for every edge `e` stored at `u`. */
  method InitRow(g: Adj, D: seq<seq<int>>, u: int) returns (D': seq<seq<int>>)
    requires ValidAdj(g) && Square(D, |g|) && 0 <= u < |g|
    ensures Square(D', |g|)
    ensures forall a :: 0 <= a < |g| && a != u ==> D'[a] == D[a]
    ensures forall b :: 0 <= b < |g| ==> D'[u][b] <= D[u][b]
    ensures forall t :: 0 <= t < |g[u]| ==> D'[u][g[u][t].to] <= g[u][t].cost
    ensures forall b :: 0 <= b < |g| ==>
      D'[u][b] == D[u][b] || exists t :: 0 <= t < |g[u]| && g[u][t].to == b && D'[u][b] == g[u][t].cost
  {
    D' := D;
    var t := 0;
    while t < |g[u]|
      invariant 0 <= t <= |g[u]| && Square(D', |g|)
      invariant forall a :: 0 <= a < |g| && a != u ==> D'[a] == D[a]
      invariant forall b :: 0 <= b < |g| ==> D'[u][b] <= D[u][b]
      invariant forall r :: 0 <= r < t ==> D'[u][g[u][r].to] <= g[u][r].cost
      invariant forall b :: 0 <= b < |g| ==>
        D'[u][b] == D[u][b] || exists r :: 0 <= r < |g[u]| && g[u][r].to == b && D'[u][b] == g[u][r].cost
    {
      var e := g[u][t];
      if e.cost < D'[u][e.to] {
        D' := D'[u := D'[u][e.to := e.cost]];
      }
      t := t + 1;
    }
  }

  /** The two initial loops: zero on the diagonal, then the cheapest direct edge of every pair. */
  method Initialize(g: Adj) returns (D: seq<seq<int>>)
    requires ValidAdj(g)
    ensures Initialized(g, D)
  {
    var n := |g|;
    D := seq(n, _ => seq(n, _ => INF));
    var i := 0;
    while i < n
      invariant 0 <= i <= n && Square(D, n)
      invariant forall a, b :: 0 <= a < n && 0 <= b < n ==> D[a][b] == (if a == b && a < i then 0 else INF)
    {
      D := D[i := D[i][i := 0]];
      i := i + 1;
    }
    i := 0;
    while i < n
      invariant 0 <= i <= n && Square(D, n)
      invariant forall a, b :: 0 <= a < n && 0 <= b < n ==> D[a][b] <= Base(a, b)
      invariant forall u, t :: 0 <= u < i && 0 <= t < |g[u]| ==> D[u][g[u][t].to] <= g[u][t].cost
      invariant forall a, b :: 0 <= a < n && 0 <= b < n ==>
        D[a][b] == Base(a, b) || exists t :: 0 <= t < |g[a]| && g[a][t].to == b && D[a][b] == g[a][t].cost
    {
      D := InitRow(g, D, i);
      i := i + 1;
    }
  }

  // ---------------------------------------------------------------- one cell

  /** A cell whose route through `k` is improved: the new value bounds every
      simple walk whose inner vertices are below `k + 1`. */
  lemma ImproveBounds(g: Adj, D: seq<seq<int>>, i: int, j: int, k: int, x: int)
    requires Square(D, |g|) && 0 <= i < |g| && 0 <= j < |g| && 0 <= k < |g|
    requires AllBounded(g, D, k) && x <= D[i][j] && x <= D[i][k] + D[k][j]
    ensures BoundsSimple(g, i, j, k + 1, x)
  {
    assert BoundsSimple(g, i, j, k, D[i][j]);
    assert BoundsSimple(g, i, k, k, D[i][k]);
    assert BoundsSimple(g, k, j, k, D[k][j]);
    forall p | IsPath(g, i, j, p) && SimpleWalk(i, p) && InnerBelow(i, p, k + 1) ensures x <= PathCost(p) {
      if !InnerBelow(i, p, k) {
        var p1, p2 := SplitAt(g, i, j, p, k);
      }
    }
  }

  /** When there is no known route from `i` to `k` or from `k` to `j`, no simple
      walk from `i` to `j` can go through `k`, so the old bound already covers `k + 1`. */
  lemma SkipBounds(g: Adj, D: seq<seq<int>>, i: int, j: int, k: int)
    requires ValidAdj(g) && SmallCosts(g) && Square(D, |g|) && 0 <= i < |g| && 0 <= j < |g| && 0 <= k < |g|
    requires AllBounded(g, D, k) && (D[i][k] == INF || D[k][j] == INF)
    ensures BoundsSimple(g, i, j, k + 1, D[i][j])
  {
    assert BoundsSimple(g, i, j, k, D[i][j]);
    assert BoundsSimple(g, i, k, k, D[i][k]);
    assert BoundsSimple(g, k, j, k, D[k][j]);
    forall p | IsPath(g, i, j, p) && SimpleWalk(i, p) && InnerBelow(i, p, k + 1) ensures D[i][j] <= PathCost(p) {
      if !InnerBelow(i, p, k) {
        var p1, p2 := SplitAt(g, i, j, p, k);
        SimpleWalkCost(g, i, k, p1);
        SimpleWalkCost(g, k, j, p2);
      }
    }
  }

  /** Joining the witnesses of two finite cells witnesses their sum. */
  lemma WitnessJoin(g: Adj, D: seq<seq<int>>, i: int, j: int, k: int, x: int)
    requires |D| == |g| && 0 <= i < |g| && 0 <= k < |g| && |D[i]| == |g| && |D[k]| == |g| && 0 <= j < |g|
    requires Witnessed(g, i, D[i]) && Witnessed(g, k, D[k])
    requires D[i][k] != INF && D[k][j] != INF && (x == D[i][j] || x == D[i][k] + D[k][j])
    ensures Witnessed(g, i, D[i][j := x])
  {
    if x != INF && x != D[i][j] {
      var p1 :| IsPath(g, i, k, p1) && PathCost(p1) == D[i][k];
      var p2 :| IsPath(g, k, j, p2) && PathCost(p2) == D[k][j];
      PathJoin(g, i, k, j, p1, p2);
    }
  }

  /** Updating one cell to a smaller, witnessed value keeps the table's invariants. */
  lemma UpdateCell(g: Adj, D: seq<seq<int>>, D': seq<seq<int>>, i: int, j: int, k: int, x: int)
    requires Square(D, |g|) && 0 <= i < |g| && 0 <= j < |g| && x <= D[i][j] && D' == D[i := D[i][j := x]]
    requires RowsWitnessed(g, D) && Witnessed(g, i, D[i][j := x]) && AllBounded(g, D, k)
    ensures Square(D', |g|) && RowsWitnessed(g, D') && AllBounded(g, D', k)
    ensures forall a, b :: 0 <= a < |g| && 0 <= b < |g| ==> D'[a][b] <= D[a][b]
  {
    assert BoundsSimple(g, i, j, k, D[i][j]);
    BoundsSmaller(g, i, j, k, D[i][j], x);
  }

  // ---------------------------------------------------------------- loops

  /** What holds inside row `i` of phase `k` once its first `j` cells are done. */
  ghost predicate RowState(g: Adj, D0: seq<seq<int>>, D: seq<seq<int>>, i: int, j: int, k: int)
    requires Square(D0, |g|) && 0 <= i < |g| && 0 <= k < |g| && 0 <= j <= |g|
  {
    Square(D, |g|) && RowsWitnessed(g, D) && AllBounded(g, D, k) && D[i][k] < INF &&
    (forall a :: 0 <= a < |g| && a != i ==> D[a] == D0[a]) &&
    (forall b :: 0 <= b < |g| ==> D[i][b] <= D0[i][b]) &&
    (forall b :: 0 <= b < j ==> BoundsSimple(g, i, b, k + 1, D[i][b]))
  }

  /** One cell of the inner loop: skipped when `dist[k][j]` is INF, otherwise
      lowered to `dist[i][k] + dist[k][j]` if that is smaller. */
  method RelaxCell(g: Adj, ghost D0: seq<seq<int>>, D: seq<seq<int>>, i: int, j: int, k: int) returns (D': seq<seq<int>>)
    requires ValidAdj(g) && SmallCosts(g) && Square(D0, |g|)
    requires 0 <= i < |g| && 0 <= j < |g| && 0 <= k < |g| && RowState(g, D0, D, i, j, k)
    ensures RowState(g, D0, D', i, j + 1, k)
  {
    D' := D;
    if D[k][j] != INF {
      var x := if D[i][j] < D[i][k] + D[k][j] then D[i][j] else D[i][k] + D[k][j];
      WitnessJoin(g, D, i, j, k, x);
      ImproveBounds(g, D, i, j, k, x);
      D' := D[i := D[i][j := x]];
      UpdateCell(g, D, D', i, j, k, x);
    } else {
      SkipBounds(g, D, i, j, k);
    }
  }

  /** Row `i` of phase `k`. */
  method RelaxRow(g: Adj, D: seq<seq<int>>, i: int, k: int) returns (D': seq<seq<int>>)
    requires ValidAdj(g) && SmallCosts(g) && Square(D, |g|) && 0 <= i < |g| && 0 <= k < |g|
    requires RowsWitnessed(g, D) && AllBounded(g, D, k) && D[i][k] < INF
    ensures RowState(g, D, D', i, |g|, k)
  {
    D' := D;
    var j := 0;
    while j < |g|
      invariant 0 <= j <= |g| && RowState(g, D, D', i, j, k)
    {
      D' := RelaxCell(g, D, D', i, j, k);
      j := j + 1;
    }
  }

  ghost predicate PhaseRows(g: Adj, D0: seq<seq<int>>, D: seq<seq<int>>, i: int, k: int)
    requires Square(D0, |g|)
  {
    Square(D, |g|) && RowsWitnessed(g, D) && AllBounded(g, D, k) &&
    NoLarger(D, D0, |g|) &&
    (forall a, b :: 0 <= a < i && a < |g| && 0 <= b < |g| ==> BoundsSimple(g, a, b, k + 1, D[a][b]))
  }

  /** Row `i` finished: the rows before it keep their values, row `i` gets its bound. */
  lemma PhaseRowStep(g: Adj, D0: seq<seq<int>>, D: seq<seq<int>>, D': seq<seq<int>>, i: int, k: int)
    requires Square(D0, |g|) && 0 <= i < |g| && 0 <= k < |g| && PhaseRows(g, D0, D, i, k)
    requires RowState(g, D, D', i, |g|, k)
    ensures PhaseRows(g, D0, D', i + 1, k)
  {
    forall a, b | 0 <= a < i && 0 <= b < |g| ensures BoundsSimple(g, a, b, k + 1, D'[a][b]) {
      assert D'[a] == D[a];
    }
    forall a, b | 0 <= a < |g| && 0 <= b < |g| ensures D'[a][b] <= D0[a][b] {
      if a != i { assert D'[a] == D[a]; }
    }
  }

  /** A row whose entry towards `k` is INF is skipped whole. */
  lemma SkipRow(g: Adj, D0: seq<seq<int>>, D: seq<seq<int>>, i: int, k: int)
    requires ValidAdj(g) && SmallCosts(g) && Square(D0, |g|) && 0 <= i < |g| && 0 <= k < |g|
    requires PhaseRows(g, D0, D, i, k) && D[i][k] == INF
    ensures PhaseRows(g, D0, D, i + 1, k)
  {
    forall b | 0 <= b < |g| ensures BoundsSimple(g, i, b, k + 1, D[i][b]) {
      SkipBounds(g, D, i, b, k);
    }
  }

  /** Phase `k`: every pair may now route through vertex `k`. */
  method RelaxThrough(g: Adj, D: seq<seq<int>>, k: int) returns (D': seq<seq<int>>)
    requires ValidAdj(g) && SmallCosts(g) && Square(D, |g|) && 0 <= k < |g|
    requires RowsWitnessed(g, D) && AllBounded(g, D, k)
    requires forall a, b :: 0 <= a < |g| && 0 <= b < |g| ==> D[a][b] <= INF
    ensures PhaseRows(g, D, D', |g|, k)
  {
    D' := D;
    var i := 0;
    while i < |g|
      invariant 0 <= i <= |g| && PhaseRows(g, D, D', i, k)
    {
      if D'[i][k] == INF {
        SkipRow(g, D, D', i, k);
      } else {
        var next := RelaxRow(g, D', i, k);
        PhaseRowStep(g, D, D', next, i, k);
        D' := next;
      }
      i := i + 1;
    }
  }

  lemma PhaseStep(g: Adj, init: seq<seq<int>>, D: seq<seq<int>>, D': seq<seq<int>>, k: int)
    requires ValidAdj(g) && PhaseState(g, init, D, k) && PhaseRows(g, D, D', |g|, k)
    ensures PhaseState(g, init, D', k + 1)
  {
  }

  /** `warshall_floyd()`: the n-by-n table of walk costs. Under `SmallCosts`
      (walk costs cannot reach INF), every finite cell is the cost of a walk,
      the cell is INF exactly when its column is unreachable from its row, no
      simple walk is cheaper than its cell, and with non-negative costs each
      row is the single-source shortest-walk vector of its vertex. `init` is
      the table after the initial loops, which the main loop only lowers. */
  method WarshallFloyd(g: Adj) returns (dist: seq<seq<int>>, ghost init: seq<seq<int>>)
    requires ValidAdj(g) && SmallCosts(g)
    ensures Initialized(g, init) && Square(dist, |g|) && NoLarger(dist, init, |g|)
    ensures forall i :: 0 <= i < |g| ==> dist[i][i] <= 0
    ensures forall u, t :: 0 <= u < |g| && 0 <= t < |g[u]| ==> dist[u][g[u][t].to] <= g[u][t].cost
    ensures forall i :: 0 <= i < |g| ==> Witnessed(g, i, dist[i])
    ensures forall i, j :: 0 <= i < |g| && 0 <= j < |g| ==> (dist[i][j] != INF <==> i == j || Reachable(g, i, j))
    ensures forall i, j, p :: 0 <= i < |g| && IsPath(g, i, j, p) && SimpleWalk(i, p) ==> 0 <= j < |g| && dist[i][j] <= PathCost(p)
    ensures NonNegative(g) ==> forall i :: 0 <= i < |g| ==> ShortestFrom(g, i, dist[i])
  {
    var n := |g|;
    var D := Initialize(g);
    init := D;
    InitialBounds(g, D);
    InitialWitnessed(g, D);
    var k := 0;
    while k < n
      invariant 0 <= k <= n && PhaseState(g, init, D, k)
    {
      var next := RelaxThrough(g, D, k);
      PhaseStep(g, init, D, next, k);
      D := next;
      k := k + 1;
    }
    dist := D;
    AllPairsConclusion(g, init, dist);
  }

  /** With every vertex allowed inside, the bounds cover every simple walk. */
  lemma AllPairsConclusion(g: Adj, init: seq<seq<int>>, dist: seq<seq<int>>)
    requires ValidAdj(g) && SmallCosts(g) && PhaseState(g, init, dist, |g|)
    ensures forall i :: 0 <= i < |g| ==> dist[i][i] <= 0
    ensures forall i, j, p :: 0 <= i < |g| && IsPath(g, i, j, p) && SimpleWalk(i, p) ==> 0 <= j < |g| && dist[i][j] <= PathCost(p)
    ensures forall i, j :: 0 <= i < |g| && 0 <= j < |g| ==> (dist[i][j] != INF <==> i == j || Reachable(g, i, j))
    ensures NonNegative(g) ==> forall i :: 0 <= i < |g| ==> ShortestFrom(g, i, dist[i])
  {
    forall i | 0 <= i < |g| ensures dist[i][i] <= 0 {
      assert init[i][i] <= Base(i, i);
    }
    forall i, j, p | 0 <= i < |g| && IsPath(g, i, j, p) && SimpleWalk(i, p)
      ensures 0 <= j < |g| && dist[i][j] <= PathCost(p)
    {
      SimpleBelowAll(g, dist, i, j, p);
    }
    forall i, j | 0 <= i < |g| && 0 <= j < |g| ensures dist[i][j] != INF <==> i == j || Reachable(g, i, j) {
      if dist[i][j] != INF {
        assert Witnessed(g, i, dist[i]);
      } else if i != j && Reachable(g, i, j) {
        var p :| IsPath(g, i, j, p);
        var q := ShortWalk(g, i, j, p);
        SimpleBelowAll(g, dist, i, j, q);
        SimpleWalkCost(g, i, j, q);
      }
    }
    if NonNegative(g) {
      forall i | 0 <= i < |g| ensures ShortestFrom(g, i, dist[i]) {
        forall v | 0 <= v < |g| ensures dist[i][v] <= INF {
          assert init[i][v] <= Base(i, v);
        }
        forall v, p | IsPath(g, i, v, p) ensures 0 <= v < |g| && dist[i][v] <= PathCost(p) {
          var q := ShortCheapWalk(g, i, v, p);
          SimpleBelowAll(g, dist, i, v, q);
        }
      }
    }
  }

  lemma SimpleBelowAll(g: Adj, dist: seq<seq<int>>, i: int, j: int, p: seq<Edge>)
    requires ValidAdj(g) && Square(dist, |g|) && AllBounded(g, dist, |g|)
    requires 0 <= i < |g| && IsPath(g, i, j, p) && SimpleWalk(i, p)
    ensures 0 <= j < |g| && dist[i][j] <= PathCost(p)
  {
    PathVertexInRange(g, i, j, p, |p|);
    forall t | 0 < t < |p| ensures PathVertex(i, p, t) < |g| {
      PathVertexInRange(g, i, j, p, t);
    }
    assert BoundsSimple(g, i, j, |g|, dist[i][j]);
  }
}
