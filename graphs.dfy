/** The adjacency-list graph of graph/graph.hpp: edges, the container class,
    and the vocabulary (walks, their costs, reachability) the algorithms are
    specified with. */
module Graphs {

  /** The "infinity" sentinel: the largest long long divided by three, which
      leaves head-room for adding two distances without overflow. */
  const INF: int := 3074457345618258602

  /** A stored edge. Both mirrored entries of one undirected edge share `id`. */
  datatype Edge = Edge(from: int, to: int, cost: int, id: int)

  /** `edge::operator<` and `edge::operator>`: edges are ordered by cost only. */
  predicate EdgeLess(a: Edge, b: Edge) { a.cost < b.cost }
  predicate EdgeGreater(a: Edge, b: Edge) { a.cost > b.cost }

  lemma EdgeOrderIsStrictWeak(a: Edge, b: Edge, c: Edge)
    ensures !EdgeLess(a, a)
    ensures EdgeLess(a, b) && EdgeLess(b, c) ==> EdgeLess(a, c)
    ensures EdgeGreater(a, b) <==> EdgeLess(b, a)
    ensures !EdgeLess(a, b) && !EdgeLess(b, a) <==> a.cost == b.cost
  {
  }

  /** The adjacency lists: `g[u]` holds the edges stored at vertex `u`. */
  type Adj = seq<seq<Edge>>

  /** Every stored edge leaves the vertex whose list holds it and ends at a vertex of the graph. */
  ghost predicate ValidAdj(g: Adj) {
    forall u, i :: 0 <= u < |g| && 0 <= i < |g[u]| ==> g[u][i].from == u && 0 <= g[u][i].to < |g|
  }

  /** Every stored edge has a stored edge back, as in a graph built from undirected `add_edge` calls. */
  ghost predicate Symmetric(g: Adj)
    requires ValidAdj(g)
  {
    forall u, i :: 0 <= u < |g| && 0 <= i < |g[u]| ==>
      exists j :: 0 <= j < |g[g[u][i].to]| && g[g[u][i].to][j].to == u
  }

  ghost predicate NonNegative(g: Adj) {
    forall u, i :: 0 <= u < |g| && 0 <= i < |g[u]| ==> 0 <= g[u][i].cost
  }

  /** `p` is a walk from `s` to `v` made of stored edges. */
  ghost predicate IsPath(g: Adj, s: int, v: int, p: seq<Edge>)
    decreases |p|
  {
    if p == [] then s == v
    else
      var e := p[|p| - 1];
      0 <= e.from < |g| && e in g[e.from] && e.to == v && IsPath(g, s, e.from, p[..|p| - 1])
  }

  function PathCost(p: seq<Edge>): int
    decreases |p|
  {
    if p == [] then 0 else PathCost(p[..|p| - 1]) + p[|p| - 1].cost
  }

  ghost predicate Reachable(g: Adj, s: int, v: int) {
    exists p :: IsPath(g, s, v, p)
  }

  /** Appending a stored edge that leaves the end of a walk gives a longer walk. */
  lemma PathExtend(g: Adj, s: int, v: int, p: seq<Edge>, e: Edge)
    requires IsPath(g, s, v, p)
    requires 0 <= v < |g| && e in g[v] && e.from == v
    ensures IsPath(g, s, e.to, p + [e]) && PathCost(p + [e]) == PathCost(p) + e.cost
  {
    assert (p + [e])[..|p|] == p;
  }

  /** A set of vertices that holds `s` and is closed under outgoing edges holds
      every vertex reachable from `s`. */
  lemma {:induction false} ClosedSetHoldsReachable(g: Adj, S: set<int>, s: int, v: int, p: seq<Edge>)
    requires s in S
    requires forall u, i :: u in S && 0 <= u < |g| && 0 <= i < |g[u]| ==> g[u][i].to in S
    requires IsPath(g, s, v, p)
    ensures v in S
    decreases |p|
  {
    if p != [] {
      var e := p[|p| - 1];
      ClosedSetHoldsReachable(g, S, s, e.from, p[..|p| - 1]);
      var i :| 0 <= i < |g[e.from]| && g[e.from][i] == e;
    }
  }

  function Abs(x: int): nat { if x < 0 then -x else x }

  /** The largest absolute edge cost in one adjacency list and in the whole graph. */
  function MaxAbsIn(l: seq<Edge>): (m: nat)
    ensures forall i :: 0 <= i < |l| ==> Abs(l[i].cost) <= m
    decreases |l|
  {
    if l == [] then 0
    else
      var rest := MaxAbsIn(l[..|l| - 1]);
      var c := Abs(l[|l| - 1].cost);
      if c < rest then rest else c
  }

  function MaxAbsCost(g: Adj): (m: nat)
    ensures forall u, i :: 0 <= u < |g| && 0 <= i < |g[u]| ==> Abs(g[u][i].cost) <= m
    decreases |g|
  {
    if g == [] then 0
    else
      var pre := g[..|g| - 1];
      var rest := MaxAbsCost(pre);
      assert forall u :: 0 <= u < |pre| ==> pre[u] == g[u];
      var c := MaxAbsIn(g[|g| - 1]);
      if c < rest then rest else c
  }

  /** `k` copies of `m` added up: `k * m`, kept free of multiplication so that
      the solver stays in linear arithmetic. */
  function Scaled(k: nat, m: int): (r: int)
    ensures m >= 0 ==> r >= 0
  {
    if k == 0 then 0 else Scaled(k - 1, m) + m
  }

  lemma {:induction false} ScaledMono(a: nat, b: nat, m: int)
    requires a <= b && 0 <= m
    ensures Scaled(a, m) <= Scaled(b, m)
    decreases b
  {
    if a < b {
      ScaledMono(a, b - 1, m);
    }
  }

  /** |g| times the largest absolute edge cost stays below INF, so walks of
      fewer than |g| edges stay strictly between -INF and INF. */
  ghost predicate SmallCosts(g: Adj) {
    Scaled(|g|, MaxAbsCost(g)) < INF
  }

  ghost predicate Distinct<T>(s: seq<T>) {
    forall i, j :: 0 <= i < j < |s| ==> s[i] != s[j]
  }

  lemma {:induction false} DistinctElements(s: seq<int>)
    requires Distinct(s)
    ensures |set x | x in s| == |s|
    decreases |s|
  {
    if s != [] {
      var t := s[..|s| - 1];
      DistinctElements(t);
      assert (set x | x in s) == (set x | x in t) + {s[|s| - 1]};
    }
  }

  /** The vertex set 0..n-1. */
  function Range(n: nat): (r: set<int>)
    ensures forall x :: x in r <==> 0 <= x < n
    ensures |r| == n
  {
    if n == 0 then {} else Range(n - 1) + {n - 1}
  }

  lemma NonEmptyHasElement(a: set<int>)
    requires a != {}
    ensures exists x :: x in a
  {
    if forall x :: x !in a { assert false; }
  }

  lemma {:induction false} SubsetSize(a: set<int>, b: set<int>)
    requires a <= b
    ensures |a| <= |b|
    decreases |a|
  {
    if a != {} {
      NonEmptyHasElement(a);
      var x :| x in a;
      SubsetSize(a - {x}, b - {x});
    }
  }

  /** Pigeonhole: distinct vertices of an n-vertex graph number at most n. */
  lemma DistinctVertices(s: seq<int>, n: nat)
    requires Distinct(s)
    requires forall i :: 0 <= i < |s| ==> 0 <= s[i] < n
    ensures |s| <= n
  {
    DistinctElements(s);
    SubsetSize((set x | x in s), Range(n));
  }

  /** How many entries of `s` equal `x`: the measure that shrinks as a search marks vertices. */
  function Count(s: seq<int>, x: int): (r: nat)
    ensures r <= |s|
  {
    if s == [] then 0 else Count(s[..|s| - 1], x) + (if s[|s| - 1] == x then 1 else 0)
  }

  /** Changing one `x` entry, and no other entry into `x`, leaves fewer `x` entries. */
  lemma {:induction false} CountShrink(a: seq<int>, b: seq<int>, k: int, x: int)
    requires |a| == |b| && 0 <= k < |a| && a[k] == x && b[k] != x
    requires forall v :: 0 <= v < |a| && a[v] != x ==> b[v] != x
    ensures Count(b, x) < Count(a, x)
    decreases |a|
  {
    var n := |a| - 1;
    if k < n {
      CountShrink(a[..n], b[..n], k, x);
    } else {
      CountNoMore(a[..n], b[..n], x);
    }
  }

  lemma {:induction false} CountNoMore(a: seq<int>, b: seq<int>, x: int)
    requires |a| == |b| && forall v :: 0 <= v < |a| && a[v] != x ==> b[v] != x
    ensures Count(b, x) <= Count(a, x)
    decreases |a|
  {
    if a != [] {
      var n := |a| - 1;
      CountNoMore(a[..n], b[..n], x);
    }
  }

  /** Setting one entry that is not `x` to `x` adds exactly one `x` entry. */
  lemma {:induction false} CountMark(a: seq<int>, k: int, x: int)
    requires 0 <= k < |a| && a[k] != x
    ensures Count(a[k := x], x) == Count(a, x) + 1
    decreases |a|
  {
    var n := |a| - 1;
    assert a[k := x][..n] == if k < n then a[..n][k := x] else a[..n];
    if k < n {
      CountMark(a[..n], k, x);
    }
  }

  /** A fresh all-zero marks vector has no 1 entry. */
  lemma {:induction false} NoOnes(n: nat)
    ensures Count(seq(n, _ => 0), 1) == 0
  {
    if n > 0 {
      assert seq(n, _ => 0)[..n - 1] == seq(n - 1, _ => 0);
      NoOnes(n - 1);
    }
  }

  /** The positions of `s` that hold `x`. */
  ghost function Positions(s: seq<int>, x: int): set<int> {
    set i | 0 <= i < |s| && s[i] == x
  }

  /** `Count` is the size of the set of positions holding `x`. */
  lemma {:induction false} CountPositions(s: seq<int>, x: int)
    ensures Count(s, x) == |Positions(s, x)|
    decreases |s|
  {
    if s != [] {
      var n := |s| - 1;
      CountPositions(s[..n], x);
      if s[n] == x {
        assert Positions(s, x) == Positions(s[..n], x) + {n};
      } else {
        assert Positions(s, x) == Positions(s[..n], x);
      }
    }
  }

  /** The vertex a walk from `s` is at after its first `k` edges. */
  function PathVertex(s: int, p: seq<Edge>, k: int): int
    requires 0 <= k <= |p|
  {
    if k == 0 then s else p[k - 1].to
  }

  lemma {:induction false} PathPrefix(g: Adj, s: int, v: int, p: seq<Edge>, k: int)
    requires IsPath(g, s, v, p) && 0 <= k <= |p|
    ensures IsPath(g, s, PathVertex(s, p, k), p[..k])
    decreases |p|
  {
    if k < |p| {
      var e := p[|p| - 1];
      assert p[..|p| - 1][..k] == p[..k];
      PathPrefix(g, s, e.from, p[..|p| - 1], k);
      if k > 0 {
        assert PathVertex(s, p[..|p| - 1], k) == PathVertex(s, p, k);
      }
    } else {
      assert p[..k] == p;
      if k > 0 {
        assert PathVertex(s, p, k) == v;
      }
    }
  }

  lemma {:induction false} PathSuffix(g: Adj, s: int, v: int, p: seq<Edge>, k: int)
    requires IsPath(g, s, v, p) && 0 <= k <= |p|
    ensures IsPath(g, PathVertex(s, p, k), v, p[k..])
    decreases |p|
  {
    if k == |p| {
      assert p[k..] == [];
      if k > 0 {
        assert PathVertex(s, p, k) == v;
      }
    } else {
      var e := p[|p| - 1];
      PathSuffix(g, s, e.from, p[..|p| - 1], k);
      assert p[k..][..|p[k..]| - 1] == p[..|p| - 1][k..];
      if k > 0 {
        assert PathVertex(s, p[..|p| - 1], k) == PathVertex(s, p, k);
      }
    }
  }

  lemma {:induction false} PathJoin(g: Adj, s: int, x: int, v: int, p: seq<Edge>, q: seq<Edge>)
    requires IsPath(g, s, x, p) && IsPath(g, x, v, q)
    ensures IsPath(g, s, v, p + q) && PathCost(p + q) == PathCost(p) + PathCost(q)
    decreases |q|
  {
    if q == [] {
      assert p + q == p;
    } else {
      var e := q[|q| - 1];
      PathJoin(g, s, x, e.from, p, q[..|q| - 1]);
      assert (p + q)[..|p + q| - 1] == p + q[..|q| - 1];
    }
  }

  lemma {:induction false} PathVertexInRange(g: Adj, s: int, v: int, p: seq<Edge>, k: int)
    requires ValidAdj(g) && 0 <= s < |g| && IsPath(g, s, v, p) && 0 <= k <= |p|
    ensures 0 <= PathVertex(s, p, k) < |g|
  {
    if k > 0 {
      PathPrefix(g, s, v, p, k);
      var e := p[k - 1];
      assert p[..k][k - 1] == e;
      var i :| 0 <= i < |g[e.from]| && g[e.from][i] == e;
    }
  }

  /** The `k`-th edge of a walk leaves the vertex reached after `k` edges and
      enters the one reached after `k + 1`. */
  lemma PathEdge(g: Adj, s: int, v: int, p: seq<Edge>, k: int)
    requires IsPath(g, s, v, p) && 0 <= k < |p|
    ensures p[k].from == PathVertex(s, p, k) && p[k].to == PathVertex(s, p, k + 1)
    ensures 0 <= p[k].from < |g| && p[k] in g[p[k].from]
  {
    PathPrefix(g, s, v, p, k + 1);
    var q := p[..k + 1];
    assert q[..k] == p[..k];
    PathPrefix(g, s, v, p, k);
    PathEnd(g, s, p[k].from, PathVertex(s, p, k), p[..k]);
  }

  /** A walk determines where it ends. */
  lemma PathEnd(g: Adj, s: int, x: int, y: int, p: seq<Edge>)
    requires IsPath(g, s, x, p) && IsPath(g, s, y, p)
    ensures x == y
  {
  }

  /** The vertices a walk visits, in order. */
  function Visits(s: int, p: seq<Edge>): (r: seq<int>)
    ensures |r| == |p| + 1 && forall k :: 0 <= k <= |p| ==> r[k] == PathVertex(s, p, k)
  {
    seq(|p| + 1, k requires 0 <= k <= |p| => PathVertex(s, p, k))
  }

  /** The cost of a walk is additive over concatenation. */
  lemma {:induction false} CostAppend(p: seq<Edge>, q: seq<Edge>)
    ensures PathCost(p + q) == PathCost(p) + PathCost(q)
    decreases |q|
  {
    if q == [] {
      assert p + q == p;
    } else {
      CostAppend(p, q[..|q| - 1]);
      assert (p + q)[..|p + q| - 1] == p + q[..|q| - 1];
    }
  }

  /** A stretch of a walk is a walk between the vertices it starts and ends at. */
  lemma PathSlice(g: Adj, s: int, v: int, p: seq<Edge>, i: int, j: int)
    requires IsPath(g, s, v, p) && 0 <= i <= j <= |p|
    ensures IsPath(g, PathVertex(s, p, i), PathVertex(s, p, j), p[i..j])
  {
    PathPrefix(g, s, v, p, j);
    PathSuffix(g, s, PathVertex(s, p, j), p[..j], i);
    assert p[..j][i..] == p[i..j];
    assert PathVertex(s, p[..j], i) == PathVertex(s, p, i);
  }

  /** Cutting out a closed part of a walk leaves a walk between the same ends. */
  lemma CutLoop(g: Adj, s: int, v: int, p: seq<Edge>, i: int, j: int)
    requires IsPath(g, s, v, p) && 0 <= i < j <= |p| && PathVertex(s, p, i) == PathVertex(s, p, j)
    ensures IsPath(g, s, v, p[..i] + p[j..]) && |p[..i] + p[j..]| < |p|
    ensures PathCost(p) == PathCost(p[..i] + p[j..]) + PathCost(p[i..j])
    ensures IsPath(g, PathVertex(s, p, i), PathVertex(s, p, i), p[i..j])
  {
    PathPrefix(g, s, v, p, i);
    PathSuffix(g, s, v, p, j);
    PathJoin(g, s, PathVertex(s, p, i), v, p[..i], p[j..]);
    PathSlice(g, s, v, p, i, j);
    CostAppend(p[..i], p[i..j]);
    assert p[..i] + p[i..j] == p[..j];
    CostAppend(p[..j], p[j..]);
    assert p[..j] + p[j..] == p;
  }

  /** Every walk can be shortened to one with fewer edges than vertices. */
  lemma {:induction false} ShortWalk(g: Adj, s: int, v: int, p: seq<Edge>) returns (q: seq<Edge>)
    requires ValidAdj(g) && 0 <= s < |g| && IsPath(g, s, v, p)
    ensures IsPath(g, s, v, q) && |q| < |g| && |q| <= |p| && Distinct(Visits(s, q))
    decreases |p|
  {
    var vs := Visits(s, p);
    forall k | 0 <= k < |vs| ensures 0 <= vs[k] < |g| {
      PathVertexInRange(g, s, v, p, k);
    }
    if Distinct(vs) {
      DistinctVertices(vs, |g|);
      q := p;
    } else {
      var i, j :| 0 <= i < j < |vs| && vs[i] == vs[j];
      CutLoop(g, s, v, p, i, j);
      q := ShortWalk(g, s, v, p[..i] + p[j..]);
    }
  }

  /** A walk of `k` stored edges costs at most `k` times the largest absolute cost. */
  lemma {:induction false} PathCostBound(g: Adj, s: int, v: int, p: seq<Edge>)
    requires IsPath(g, s, v, p)
    ensures Abs(PathCost(p)) <= Scaled(|p|, MaxAbsCost(g))
    decreases |p|
  {
    if p != [] {
      var e := p[|p| - 1];
      PathCostBound(g, s, e.from, p[..|p| - 1]);
      var i :| 0 <= i < |g[e.from]| && g[e.from][i] == e;
      assert Abs(e.cost) <= MaxAbsCost(g);
    }
  }

  /** Under `SmallCosts`, a walk with fewer edges than vertices costs strictly between -INF and INF. */
  lemma ShortWalkCost(g: Adj, s: int, v: int, p: seq<Edge>)
    requires SmallCosts(g) && IsPath(g, s, v, p) && |p| < |g|
    ensures -INF < PathCost(p) < INF
  {
    PathCostBound(g, s, v, p);
    ScaledMono(|p|, |g|, MaxAbsCost(g));
  }

  /** The graph container: a vector of adjacency lists and the id counter. */
  class Graph {
    var edges: Adj
    var nextEdgeId: nat

    ghost predicate Valid()
      reads this
    {
      ValidAdj(edges) &&
      forall u, i :: 0 <= u < |edges| && 0 <= i < |edges[u]| ==> 0 <= edges[u][i].id < nextEdgeId
    }

    /** `graph(int n)`: `n` empty adjacency lists and no edges. */
    constructor (n: nat)
      ensures Valid()
      ensures |edges| == n && nextEdgeId == 0
      ensures forall u :: 0 <= u < n ==> edges[u] == []
    {
      edges := seq(n, _ => []);
      nextEdgeId := 0;
    }

    /** `size()`: the vertex count. */
    function Size(): nat
      reads this
    {
      |edges|
    }

    /** `edge_count()`: the number of insertions, which `add_edge` tracks in the id counter. */
    function EdgeCount(): nat
      reads this
    {
      nextEdgeId
    }

    /** `operator[](k)`: the adjacency list of vertex `k`. */
    function At(k: int): (r: seq<Edge>)
      reads this
      requires 0 <= k < |edges|
      ensures Valid() ==> forall i :: 0 <= i < |r| ==> r[i].from == k && 0 <= r[i].to < |edges| && r[i].id < nextEdgeId
    {
      edges[k]
    }

    /** `add_edge(u, v, cost, directed, idx)`: shifts both endpoints by `idx`,
        stores the edge at `u`, mirrors it at `v` unless it is directed or a
        self-loop, and returns the id it assigned. */
    method AddEdge(u0: int, v0: int, cost: int, directed: bool, idx: int) returns (id: nat)
      requires Valid()
      requires 0 <= u0 - idx < |edges| && 0 <= v0 - idx < |edges|
      modifies this
      ensures Valid()
      ensures id == old(nextEdgeId) && nextEdgeId == old(nextEdgeId) + 1
      ensures |edges| == |old(edges)|
      ensures var u, v := u0 - idx, v0 - idx;
        edges[u] == old(edges[u]) + [Edge(u, v, cost, id)] &&
        (if !directed && u != v then edges[v] == old(edges[v]) + [Edge(v, u, cost, id)]
         else v != u ==> edges[v] == old(edges[v])) &&
        forall w :: 0 <= w < |edges| && w != u && w != v ==> edges[w] == old(edges[w])
      ensures directed ==> edges == old(edges)[u0 - idx := old(edges)[u0 - idx] + [Edge(u0 - idx, v0 - idx, cost, id)]]
    {
      var u, v := u0 - idx, v0 - idx;
      id := nextEdgeId;
      edges := edges[u := edges[u] + [Edge(u, v, cost, id)]];
      if !directed && u != v {
        edges := edges[v := edges[v] + [Edge(v, u, cost, id)]];
      }
      nextEdgeId := nextEdgeId + 1;
    }
  }
}
