/** `bellman_ford` of graph/graph.hpp: n - 1 rounds of relaxing every edge,
    then a flood fill that marks every vertex downstream of an edge that can
    still be relaxed, and -INF for the marked vertices. */
module BellmanFord {
  import opened Graphs
  import opened Distances

  /** Every label is at most INF and every finite label is the cost of the walk recorded for it. */
  ghost predicate Walks(g: Adj, s: int, d: seq<int>, paths: seq<seq<Edge>>) {
    |d| == |g| && |paths| == |g| &&
    forall x :: 0 <= x < |g| ==> d[x] <= INF && (d[x] != INF ==> IsPath(g, s, x, paths[x]) && PathCost(paths[x]) == d[x])
  }

  /** No walk from `s` of at most `k` edges is cheaper than the label of its end. */
  ghost predicate BoundedBy(g: Adj, s: int, d: seq<int>, k: int) {
    forall v, p :: IsPath(g, s, v, p) && |p| <= k ==> 0 <= v < |d| && d[v] <= PathCost(p)
  }

  /** Labels only go down. */
  ghost predicate Below(d: seq<int>, d0: seq<int>) {
    |d| == |d0| && forall x :: 0 <= x < |d| ==> d[x] <= d0[x]
  }

  /** Every edge of a vertex before `v` that was finite at the start of the
      round is relaxed against that start label. */
  ghost predicate SettledBefore(g: Adj, d: seq<int>, d0: seq<int>, v: int) {
    forall u, j :: 0 <= u < v && u < |g| && 0 <= j < |g[u]| && u < |d0| && d0[u] != INF ==>
      0 <= g[u][j].to < |d| && d[g[u][j].to] <= d0[u] + g[u][j].cost
  }

  /** The first `i` edges of `v` are relaxed against the label `x`. */
  ghost predicate EdgesBelow(g: Adj, d: seq<int>, v: int, i: int, x: int)
    requires 0 <= v < |g| && 0 <= i <= |g[v]|
  {
    forall j :: 0 <= j < i ==> 0 <= g[v][j].to < |d| && d[g[v][j].to] <= x + g[v][j].cost
  }

  /** `res[e.to] = min(res[e.to], res[v] + e.cost)` for the `i`-th edge of `v`. */
  method RelaxEdge(g: Adj, s: int, d: array<int>, v: int, i: int, ghost x: int, ghost paths: seq<seq<Edge>>)
    returns (ghost paths': seq<seq<Edge>>)
    requires ValidAdj(g) && d.Length == |g| && 0 <= v < |g| && 0 <= i < |g[v]|
    requires Walks(g, s, d[..], paths) && d[v] != INF && d[v] <= x && EdgesBelow(g, d[..], v, i, x)
    modifies d
    ensures Walks(g, s, d[..], paths') && Below(d[..], old(d[..]))
    ensures d[v] != INF && d[v] <= x && EdgesBelow(g, d[..], v, i + 1, x)
  {
    var e := g[v][i];
    ghost var before := d[..];
    paths' := paths;
    if d[v] + e.cost < d[e.to] {
      PathExtend(g, s, v, paths[v], e);
      d[e.to] := d[v] + e.cost;
      assert d[..] == before[e.to := before[v] + e.cost];
      paths' := paths[e.to := paths[v] + [e]];
    }
  }

  /** The edge loop for vertex `v` within one round; skipped when `v` is still unreached. */
  method RelaxVertex(g: Adj, s: int, d: array<int>, v: int, ghost d0: seq<int>, ghost paths: seq<seq<Edge>>)
    returns (ghost paths': seq<seq<Edge>>)
    requires ValidAdj(g) && d.Length == |g| && 0 <= v < |g|
    requires Walks(g, s, d[..], paths) && Below(d[..], d0) && AtMostInf(d0)
    modifies d
    ensures Walks(g, s, d[..], paths') && Below(d[..], old(d[..]))
    ensures d0[v] != INF ==> EdgesBelow(g, d[..], v, |g[v]|, d0[v])
  {
    paths' := paths;
    if d[v] == INF {
      return;
    }
    var i := 0;
    while i < |g[v]|
      invariant 0 <= i <= |g[v]|
      invariant Walks(g, s, d[..], paths') && Below(d[..], old(d[..]))
      invariant d[v] != INF && d[v] <= d0[v] && EdgesBelow(g, d[..], v, i, d0[v])
    {
      ghost var before := d[..];
      paths' := RelaxEdge(g, s, d, v, i, d0[v], paths');
      i := i + 1;
    }
  }

  lemma SettledLower(g: Adj, d: seq<int>, d': seq<int>, d0: seq<int>, v: int)
    requires SettledBefore(g, d, d0, v) && Below(d', d)
    ensures SettledBefore(g, d', d0, v)
  {
  }

  lemma SettledNext(g: Adj, d: seq<int>, d0: seq<int>, v: int)
    requires 0 <= v < |g| && v < |d0| && SettledBefore(g, d, d0, v)
    requires d0[v] != INF ==> EdgesBelow(g, d, v, |g[v]|, d0[v])
    ensures SettledBefore(g, d, d0, v + 1)
  {
  }

  lemma BelowTrans(d: seq<int>, d1: seq<int>, d0: seq<int>)
    requires Below(d, d1) && Below(d1, d0)
    ensures Below(d, d0)
  {
  }

  /** A round that relaxed every edge of every vertex finite at its start
      extends the walk bound by one edge. */
  lemma RoundBound(g: Adj, s: int, d0: seq<int>, d: seq<int>, k: nat)
    requires ValidAdj(g) && SmallCosts(g) && 0 <= s < |g| && |d0| == |g| && k + 1 < |g|
    requires BoundedBy(g, s, d0, k) && Below(d, d0) && SettledBefore(g, d, d0, |g|)
    ensures BoundedBy(g, s, d, k + 1)
  {
    forall v, p | IsPath(g, s, v, p) && |p| <= k + 1
      ensures 0 <= v < |d| && d[v] <= PathCost(p)
    {
      if |p| <= k {
        assert d0[v] <= PathCost(p);
      } else {
        var e: Edge := p[|p| - 1];
        var q := p[..|p| - 1];
        var u := e.from;
        assert IsPath(g, s, u, q);
        var j :| 0 <= j < |g[u]| && g[u][j] == e;
        ShortWalkCost(g, s, u, q);
        assert d0[u] <= PathCost(q);
      }
    }
  }

  /** One of the n - 1 rounds. */
  method RelaxRound(g: Adj, s: int, d: array<int>, ghost k: nat, ghost paths: seq<seq<Edge>>)
    returns (ghost paths': seq<seq<Edge>>)
    requires ValidAdj(g) && SmallCosts(g) && 0 <= s < |g| && d.Length == |g| && k + 1 < |g|
    requires Walks(g, s, d[..], paths) && BoundedBy(g, s, d[..], k)
    modifies d
    ensures Walks(g, s, d[..], paths') && BoundedBy(g, s, d[..], k + 1)
  {
    ghost var d0 := d[..];
    assert AtMostInf(d0);
    var n := |g|;
    paths' := paths;
    var v := 0;
    while v < n
      invariant 0 <= v <= n
      invariant Walks(g, s, d[..], paths') && Below(d[..], d0) && SettledBefore(g, d[..], d0, v)
    {
      ghost var before := d[..];
      paths' := RelaxVertex(g, s, d, v, d0, paths');
      SettledLower(g, before, d[..], d0, v);
      SettledNext(g, d[..], d0, v);
      BelowTrans(d[..], before, d0);
      v := v + 1;
    }
    RoundBound(g, s, d0, d[..], k);
  }

  /** `bellman_ford`'s first phase: `res[s] = 0` and n - 1 rounds. */
  method Rounds(g: Adj, s: int) returns (d: array<int>, ghost paths: seq<seq<Edge>>)
    requires ValidAdj(g) && SmallCosts(g) && 0 <= s < |g|
    ensures fresh(d) && d.Length == |g|
    ensures Walks(g, s, d[..], paths) && BoundedBy(g, s, d[..], |g| - 1)
  {
    var n := |g|;
    d := new int[n](_ => INF);
    d[s] := 0;
    paths := seq(n, _ => []);
    var loop := 0;
    while loop < n - 1
      invariant 0 <= loop <= n - 1
      invariant Walks(g, s, d[..], paths) && BoundedBy(g, s, d[..], loop)
    {
      paths := RelaxRound(g, s, d, loop, paths);
      loop := loop + 1;
    }
  }

  /** Edge `e` leaves a finite vertex and can still shorten its target. */
  ghost predicate Improvable(d: seq<int>, e: Edge) {
    0 <= e.from < |d| && 0 <= e.to < |d| && d[e.from] != INF && d[e.to] > d[e.from] + e.cost
  }

  /** `v` is reachable from the target of a stored edge that can still be relaxed. */
  ghost predicate Downstream(g: Adj, d: seq<int>, v: int) {
    exists u, i, p :: 0 <= u < |g| && 0 <= i < |g[u]| && Improvable(d, g[u][i]) && IsPath(g, g[u][i].to, v, p)
  }

  lemma DownstreamSeed(g: Adj, d: seq<int>, u: int, i: int)
    requires 0 <= u < |g| && 0 <= i < |g[u]| && Improvable(d, g[u][i])
    ensures Downstream(g, d, g[u][i].to)
  {
    assert IsPath(g, g[u][i].to, g[u][i].to, []);
  }

  lemma DownstreamStep(g: Adj, d: seq<int>, v: int, e: Edge)
    requires Downstream(g, d, v) && 0 <= v < |g| && e in g[v] && e.from == v
    ensures Downstream(g, d, e.to)
  {
    var u, i, p :| 0 <= u < |g| && 0 <= i < |g[u]| && Improvable(d, g[u][i]) && IsPath(g, g[u][i].to, v, p);
    PathExtend(g, g[u][i].to, v, p, e);
  }

  /** The marking facts shared by both loops of the second phase. */
  ghost predicate Marks(g: Adj, d: seq<int>, chk: seq<bool>, q: seq<int>) {
    |chk| == |g| && |d| == |g| &&
    (forall x :: 0 <= x < |g| && chk[x] ==> Downstream(g, d, x)) &&
    (forall k :: 0 <= k < |q| ==> 0 <= q[k] < |g| && chk[q[k]])
  }

  /** Every improvable edge out of a vertex before `v` has a marked target. */
  ghost predicate SeededBefore(g: Adj, d: seq<int>, chk: seq<bool>, v: int) {
    forall u, j :: 0 <= u < v && u < |g| && 0 <= j < |g[u]| && Improvable(d, g[u][j]) ==>
      0 <= g[u][j].to < |chk| && chk[g[u][j].to]
  }

  /** The number of unmarked vertices: the flood fill's termination measure. */
  function Unmarked(chk: seq<bool>): (r: nat)
    ensures r <= |chk|
    decreases |chk|
  {
    if chk == [] then 0 else Unmarked(chk[..|chk| - 1]) + (if chk[|chk| - 1] then 0 else 1)
  }

  lemma {:induction false} UnmarkedMark(chk: seq<bool>, x: int)
    requires 0 <= x < |chk| && !chk[x]
    ensures Unmarked(chk[x := true]) == Unmarked(chk) - 1
    decreases |chk|
  {
    var c := chk[x := true];
    if x < |chk| - 1 {
      assert c[..|c| - 1] == chk[..|chk| - 1][x := true];
      UnmarkedMark(chk[..|chk| - 1], x);
    } else {
      assert c[..|c| - 1] == chk[..|chk| - 1];
    }
  }

  /** Marking the target of edge `e` of a downstream or seed vertex. */
  method Mark(g: Adj, d: seq<int>, chk: array<bool>, q: seq<int>, e: Edge) returns (q': seq<int>)
    requires ValidAdj(g) && chk.Length == |g| && Marks(g, d, chk[..], q)
    requires 0 <= e.to < |g| && Downstream(g, d, e.to)
    modifies chk
    ensures chk[..] == old(chk[..])[e.to := true]
    ensures q' == if old(chk[e.to]) then q else q + [e.to]
    ensures Marks(g, d, chk[..], q')
    ensures Unmarked(chk[..]) < Unmarked(old(chk[..])) || (chk[..] == old(chk[..]) && q' == q)
  {
    q' := q;
    if !chk[e.to] {
      UnmarkedMark(chk[..], e.to);
      chk[e.to] := true;
      q' := q + [e.to];
    } else {
      assert chk[..] == chk[..][e.to := true];
    }
  }

  /** Every marked vertex is queued. */
  ghost predicate Queued(chk: seq<bool>, q: seq<int>) {
    forall x :: 0 <= x < |chk| && chk[x] ==> x in q
  }

  /** The seeding loop after the vertices before `v`. */
  ghost predicate Seeding(g: Adj, d: seq<int>, chk: seq<bool>, q: seq<int>, v: int) {
    Marks(g, d, chk, q) && SeededBefore(g, d, chk, v) && Queued(chk, q)
  }

  /** The seeding loop: every target of an improvable edge is marked and queued. */
  method Seed(g: Adj, d: seq<int>) returns (chk: array<bool>, q: seq<int>)
    requires ValidAdj(g) && |d| == |g|
    ensures fresh(chk) && Marks(g, d, chk[..], q) && SeededBefore(g, d, chk[..], |g|)
    ensures forall x :: 0 <= x < |g| && chk[x] ==> x in q
  {
    var n := |g|;
    chk := new bool[n](_ => false);
    q := [];
    var v := 0;
    while v < n
      invariant 0 <= v <= n && chk.Length == n
      invariant Seeding(g, d, chk[..], q, v)
    {
      if d[v] != INF {
        q := SeedVertex(g, d, chk, q, v);
      } else {
        SeedSkip(g, d, chk[..], q, v);
      }
      v := v + 1;
    }
    assert Queued(chk[..], q);
  }

  /** A vertex at INF has no improvable edge. */
  lemma SeedSkip(g: Adj, d: seq<int>, chk: seq<bool>, q: seq<int>, v: int)
    requires ValidAdj(g) && 0 <= v < |g| && |d| == |g| && d[v] == INF && Seeding(g, d, chk, q, v)
    ensures Seeding(g, d, chk, q, v + 1)
  {
    forall u, j | 0 <= u < v + 1 && u < |g| && 0 <= j < |g[u]| && Improvable(d, g[u][j])
      ensures 0 <= g[u][j].to < |chk| && chk[g[u][j].to]
    {
      assert u != v;
    }
  }

  /** The inner seeding loop over the edges of `v`: the target of each improvable
      edge is marked and queued once. */
  method SeedVertex(g: Adj, d: seq<int>, chk: array<bool>, q: seq<int>, v: int) returns (q': seq<int>)
    requires ValidAdj(g) && |d| == |g| && chk.Length == |g| && 0 <= v < |g| && d[v] != INF
    requires Seeding(g, d, chk[..], q, v)
    modifies chk
    ensures Seeding(g, d, chk[..], q', v + 1)
  {
    q' := q;
    var i := 0;
    while i < |g[v]|
      invariant 0 <= i <= |g[v]|
      invariant Seeding(g, d, chk[..], q', v) && SeededEdges(g, d, chk[..], v, i)
    {
      q' := SeedEdge(g, d, chk, q', v, i);
      i := i + 1;
    }
    SeededVertex(g, d, chk[..], q', v);
  }

  /** The improvable edges among the first `i` of `v` have marked targets. */
  ghost predicate SeededEdges(g: Adj, d: seq<int>, chk: seq<bool>, v: int, i: int) {
    0 <= v < |g| && i <= |g[v]| &&
    forall j :: 0 <= j < i && Improvable(d, g[v][j]) ==> 0 <= g[v][j].to < |chk| && chk[g[v][j].to]
  }

  /** One edge of the inner seeding loop. */
  method SeedEdge(g: Adj, d: seq<int>, chk: array<bool>, q: seq<int>, v: int, i: int) returns (q': seq<int>)
    requires ValidAdj(g) && |d| == |g| && chk.Length == |g| && 0 <= v < |g| && d[v] != INF && 0 <= i < |g[v]|
    requires Seeding(g, d, chk[..], q, v) && SeededEdges(g, d, chk[..], v, i)
    modifies chk
    ensures Seeding(g, d, chk[..], q', v) && SeededEdges(g, d, chk[..], v, i + 1)
  {
    q' := q;
    var e := g[v][i];
    if d[e.to] > d[v] + e.cost && !chk[e.to] {
      DownstreamSeed(g, d, v, i);
      q' := Mark(g, d, chk, q, e);
    }
  }

  /** All edges of `v` done: the seeding loop moves past `v`. */
  lemma SeededVertex(g: Adj, d: seq<int>, chk: seq<bool>, q: seq<int>, v: int)
    requires ValidAdj(g) && 0 <= v < |g| && Seeding(g, d, chk, q, v) && SeededEdges(g, d, chk, v, |g[v]|)
    ensures Seeding(g, d, chk, q, v + 1)
  {
    forall u, j | 0 <= u < v + 1 && u < |g| && 0 <= j < |g[u]| && Improvable(d, g[u][j])
      ensures 0 <= g[u][j].to < |chk| && chk[g[u][j].to]
    {
      if u == v {
        assert Improvable(d, g[v][j]);
      }
    }
  }

  /** Every marked vertex outside `que` other than `now` has all its targets marked. */
  ghost predicate ClosedOutside(g: Adj, chk: seq<bool>, que: seq<int>, now: int) {
    forall u, j :: 0 <= u < |g| && 0 <= j < |g[u]| && u < |chk| && chk[u] && u !in que && u != now ==>
      0 <= g[u][j].to < |chk| && chk[g[u][j].to]
  }

  /** Marks are never removed. */
  ghost predicate Grows(c0: seq<bool>, c1: seq<bool>) {
    |c0| == |c1| && forall x :: 0 <= x < |c0| && c0[x] ==> c1[x]
  }

  lemma ClosedOutsideMark(g: Adj, chk: seq<bool>, que: seq<int>, now: int, x: int)
    requires ClosedOutside(g, chk, que, now) && 0 <= x < |chk| && !chk[x]
    ensures ClosedOutside(g, chk[x := true], que + [x], now)
  {
  }

  /** The loop state of `SpreadFrom` after its first `i` edges, starting from marks `c0` and queue `q0`. */
  ghost predicate FromState(g: Adj, d: seq<int>, c0: seq<bool>, q0: seq<int>, c: seq<bool>, q: seq<int>, now: int, i: int)
    requires ValidAdj(g) && 0 <= now < |g| && 0 <= i <= |g[now]|
  {
    Marks(g, d, c, q) && c[now] && Grows(c0, c) &&
    (forall j :: 0 <= j < i ==> c[g[now][j].to]) &&
    ClosedOutside(g, c, q, now) &&
    (Unmarked(c) < Unmarked(c0) || (c == c0 && q == q0))
  }

  lemma FromStateStep(g: Adj, d: seq<int>, c0: seq<bool>, q0: seq<int>, c: seq<bool>, q: seq<int>, now: int, i: int,
                      c': seq<bool>, q': seq<int>)
    requires ValidAdj(g) && 0 <= now < |g| && 0 <= i < |g[now]| && FromState(g, d, c0, q0, c, q, now, i)
    requires var x := g[now][i].to;
      if c[x] then c' == c && q' == q else c' == c[x := true] && q' == q + [x] && Marks(g, d, c', q')
    ensures FromState(g, d, c0, q0, c', q', now, i + 1)
  {
    var x := g[now][i].to;
    if !c[x] {
      ClosedOutsideMark(g, c, q, now, x);
      UnmarkedMark(c, x);
      assert Grows(c0, c');
      assert forall j :: 0 <= j < i + 1 ==> c'[g[now][j].to] by {
        assert forall j :: 0 <= j < i ==> c[g[now][j].to];
      }
      assert Unmarked(c') < Unmarked(c0) by {
        assert Unmarked(c) <= Unmarked(c0);
      }
    }
  }

  /** Marking the target of the `i`-th edge of `now`. */
  method FollowEdge(g: Adj, d: seq<int>, chk: array<bool>, now: int, i: int, ghost c0: seq<bool>, ghost q0: seq<int>, que: seq<int>)
    returns (que': seq<int>)
    requires ValidAdj(g) && chk.Length == |g| && 0 <= now < |g| && 0 <= i < |g[now]|
    requires FromState(g, d, c0, q0, chk[..], que, now, i)
    modifies chk
    ensures FromState(g, d, c0, q0, chk[..], que', now, i + 1)
  {
    ghost var c := chk[..];
    que' := que;
    var e := g[now][i];
    if !chk[e.to] {
      assert e in g[now];
      DownstreamStep(g, d, now, e);
      que' := Mark(g, d, chk, que, e);
    }
    FromStateStep(g, d, c0, q0, c, que, now, i, chk[..], que');
  }

  /** Following the edges of the popped vertex `now` in the flood fill. */
  method SpreadFrom(g: Adj, d: seq<int>, chk: array<bool>, now: int, que: seq<int>) returns (que': seq<int>)
    requires ValidAdj(g) && chk.Length == |g| && Marks(g, d, chk[..], que) && 0 <= now < |g| && chk[now]
    requires ClosedOutside(g, chk[..], que, now)
    modifies chk
    ensures Marks(g, d, chk[..], que') && Grows(old(chk[..]), chk[..])
    ensures ClosedOutside(g, chk[..], que', -1)
    ensures Unmarked(chk[..]) < Unmarked(old(chk[..])) || (chk[..] == old(chk[..]) && que' == que)
  {
    ghost var c0 := chk[..];
    que' := que;
    var i := 0;
    while i < |g[now]|
      invariant 0 <= i <= |g[now]| && FromState(g, d, c0, que, chk[..], que', now, i)
    {
      que' := FollowEdge(g, d, chk, now, i, c0, que, que');
      i := i + 1;
    }
  }

  /** The flood fill: every vertex reachable from a marked one gets marked. */
  method Spread(g: Adj, d: seq<int>, chk: array<bool>, q: seq<int>)
    requires ValidAdj(g) && chk.Length == |g| && Marks(g, d, chk[..], q)
    requires forall x :: 0 <= x < |g| && chk[x] ==> x in q
    modifies chk
    ensures Marks(g, d, chk[..], []) && Grows(old(chk[..]), chk[..])
    ensures forall u, i :: 0 <= u < |g| && 0 <= i < |g[u]| && chk[u] ==> chk[g[u][i].to]
  {
    var que := q;
    while que != []
      invariant Marks(g, d, chk[..], que) && Grows(old(chk[..]), chk[..])
      invariant ClosedOutside(g, chk[..], que, -1)
      decreases Unmarked(chk[..]), |que|
    {
      var now := que[0];
      ghost var que0 := que;
      que := que[1..];
      assert ClosedOutside(g, chk[..], que, now) by {
        assert forall u :: u !in que && u != now ==> u !in que0;
      }
      que := SpreadFrom(g, d, chk, now, que);
    }
    assert ClosedOutside(g, chk[..], [], -1);
  }


  /** What the two phases leave behind, as the theorems below use it. */
  ghost predicate Outcome(g: Adj, s: int, d: seq<int>, marked: seq<bool>) {
    ValidAdj(g) && 0 <= s < |g| && |d| == |g| && |marked| == |g| && Witnessed(g, s, d) &&
    (forall x :: 0 <= x < |g| && Reachable(g, s, x) ==> d[x] != INF) &&
    (forall u, i :: 0 <= u < |g| && 0 <= i < |g[u]| && marked[u] ==> marked[g[u][i].to]) &&
    (forall u, i :: 0 <= u < |g| && 0 <= i < |g[u]| && d[u] != INF ==>
       d[g[u][i].to] <= d[u] + g[u][i].cost || marked[g[u][i].to])
  }

  lemma MarkedReach(g: Adj, s: int, d: seq<int>, marked: seq<bool>, x: int, v: int, p: seq<Edge>)
    requires Outcome(g, s, d, marked) && 0 <= x < |g| && marked[x] && IsPath(g, x, v, p)
    ensures 0 <= v < |g| && marked[v]
  {
    var S := set y | 0 <= y < |g| && marked[y];
    ClosedSetHoldsReachable(g, S, x, v, p);
  }

  /** Every edge of a walk from `s` that ends at an unmarked vertex is relaxed
      under the first-phase labels. */
  lemma UnmarkedWalkTight(g: Adj, s: int, d: seq<int>, marked: seq<bool>, v: int, p: seq<Edge>, k: int)
    requires Outcome(g, s, d, marked) && IsPath(g, s, v, p) && 0 <= v < |g| && !marked[v] && 0 <= k < |p|
    ensures Tight(d, p[k])
  {
    PathEdge(g, s, v, p, k);
    var e := p[k];
    var a := e.from;
    PathPrefix(g, s, v, p, k);
    assert Reachable(g, s, a);
    PathSuffix(g, s, v, p, k + 1);
    PathVertexInRange(g, s, v, p, k + 1);
    if marked[e.to] {
      MarkedReach(g, s, d, marked, e.to, v, p[k + 1..]);
    }
    var i :| 0 <= i < |g[a]| && g[a][i] == e;
  }

  lemma AllTight(g: Adj, s: int, d: seq<int>, marked: seq<bool>, v: int, p: seq<Edge>)
    requires Outcome(g, s, d, marked) && IsPath(g, s, v, p) && 0 <= v < |g| && !marked[v]
    ensures forall k :: 0 <= k < |p| ==> Tight(d, p[k])
  {
    forall k | 0 <= k < |p| ensures Tight(d, p[k]) {
      UnmarkedWalkTight(g, s, d, marked, v, p, k);
    }
  }

  /** An unmarked vertex's label is no larger than any walk from `s` to it. */
  lemma UnmarkedIsShortest(g: Adj, s: int, d: seq<int>, marked: seq<bool>, v: int, p: seq<Edge>)
    requires Outcome(g, s, d, marked) && IsPath(g, s, v, p) && 0 <= v < |g| && !marked[v] && d[s] <= 0
    ensures d[v] <= PathCost(p)
  {
    AllTight(g, s, d, marked, v, p);
    TightWalk(g, d, s, v, p);
  }

  /** An unmarked vertex's label is above -INF. */
  lemma UnmarkedAboveMinusInf(g: Adj, s: int, d: seq<int>, marked: seq<bool>, v: int)
    requires Outcome(g, s, d, marked) && SmallCosts(g) && 0 <= v < |g| && !marked[v] && d[v] != INF
    ensures d[v] > -INF
  {
    var w :| IsPath(g, s, v, w) && PathCost(w) == d[v];
    AllTight(g, s, d, marked, v, w);
    var q := ShortTightWalk(g, d, s, v, w);
    ShortWalkCost(g, s, v, q);
  }

  /** With non-negative costs the first phase leaves no improvable edge. */
  lemma NoImprovableEdge(g: Adj, s: int, d: seq<int>, u: int, i: int)
    requires ValidAdj(g) && NonNegative(g) && 0 <= s < |g| && |d| == |g| && Witnessed(g, s, d)
    requires BoundedBy(g, s, d, |g| - 1)
    requires 0 <= u < |g| && 0 <= i < |g[u]| && d[u] != INF
    ensures !Improvable(d, g[u][i])
  {
    var e := g[u][i];
    var w :| IsPath(g, s, u, w) && PathCost(w) == d[u];
    var q := ShortCheapWalk(g, s, u, w);
    PathExtend(g, s, u, q, e);
    var r := ShortCheapWalk(g, s, e.to, q + [e]);
  }

  lemma SeededGrows(g: Adj, d: seq<int>, c0: seq<bool>, c1: seq<bool>)
    requires SeededBefore(g, d, c0, |g|) && Grows(c0, c1)
    ensures SeededBefore(g, d, c1, |g|)
  {
  }

  /** `d` with every marked entry replaced by -INF. */
  function Flagged(d: seq<int>, marked: seq<bool>): (r: seq<int>)
    requires |d| == |marked|
    ensures |r| == |d|
  {
    seq(|d|, x requires 0 <= x < |d| => if marked[x] then -INF else d[x])
  }

  /** The last loop of `bellman_ford`: every marked entry becomes -INF. */
  method Flag(d: array<int>, chk: array<bool>)
    requires d.Length == chk.Length
    modifies d
    ensures d[..] == Flagged(old(d[..]), chk[..])
  {
    var i := 0;
    while i < d.Length
      invariant 0 <= i <= d.Length
      invariant forall x :: 0 <= x < i ==> d[x] == if chk[x] then -INF else old(d[x])
      invariant forall x :: i <= x < d.Length ==> d[x] == old(d[x])
    {
      if chk[i] {
        d[i] := -INF;
      }
      i := i + 1;
    }
  }

  /** After n - 1 rounds every vertex reachable from `s` has a finite label. */
  lemma ReachableFinite(g: Adj, s: int, d: seq<int>)
    requires ValidAdj(g) && SmallCosts(g) && 0 <= s < |g| && |d| == |g| && BoundedBy(g, s, d, |g| - 1)
    ensures forall x :: 0 <= x < |g| && Reachable(g, s, x) ==> d[x] != INF
  {
    forall x | 0 <= x < |g| && Reachable(g, s, x) ensures d[x] != INF {
      var p :| IsPath(g, s, x, p);
      var q := ShortWalk(g, s, x, p);
      ShortWalkCost(g, s, x, q);
    }
  }

  /** Seeding leaves every edge out of a finite vertex relaxed or with a marked target. */
  lemma SeedsCover(g: Adj, d: seq<int>, marked: seq<bool>)
    requires ValidAdj(g) && |d| == |g| && |marked| == |g| && SeededBefore(g, d, marked, |g|)
    ensures forall u, i :: 0 <= u < |g| && 0 <= i < |g[u]| && d[u] != INF ==>
      d[g[u][i].to] <= d[u] + g[u][i].cost || marked[g[u][i].to]
  {
    forall u, i | 0 <= u < |g| && 0 <= i < |g[u]| && d[u] != INF
      ensures d[g[u][i].to] <= d[u] + g[u][i].cost || marked[g[u][i].to]
    {
      if !(d[g[u][i].to] <= d[u] + g[u][i].cost) {
        assert Improvable(d, g[u][i]);
      }
    }
  }

  /** A vertex downstream of an improvable edge is reachable from `s`. */
  lemma DownstreamReachable(g: Adj, s: int, d: seq<int>, v: int)
    requires ValidAdj(g) && 0 <= s < |g| && |d| == |g| && Witnessed(g, s, d) && Downstream(g, d, v)
    ensures Reachable(g, s, v)
  {
    var u, i, p :| 0 <= u < |g| && 0 <= i < |g[u]| && Improvable(d, g[u][i]) && IsPath(g, g[u][i].to, v, p);
    var e := g[u][i];
    var w :| IsPath(g, s, u, w) && PathCost(w) == d[u];
    PathExtend(g, s, u, w, e);
    PathJoin(g, s, e.to, v, w + [e], p);
  }

  /** Exactly the unreachable vertices end at INF. */
  lemma InfIffUnreachable(g: Adj, s: int, d: seq<int>, marked: seq<bool>, res: seq<int>)
    requires Outcome(g, s, d, marked) && |res| == |g|
    requires forall x :: 0 <= x < |g| ==> res[x] == if marked[x] then -INF else d[x]
    requires forall v :: 0 <= v < |g| && marked[v] ==> Downstream(g, d, v)
    ensures forall v :: 0 <= v < |g| ==> (res[v] == INF <==> !Reachable(g, s, v))
  {
    forall v | 0 <= v < |g| ensures res[v] == INF <==> !Reachable(g, s, v) {
      if marked[v] {
        DownstreamReachable(g, s, d, v);
      } else if d[v] != INF {
        var w :| IsPath(g, s, v, w) && PathCost(w) == d[v];
      }
    }
  }

  /** With non-negative costs nothing is marked, so the result is the first-phase vector. */
  lemma NothingMarked(g: Adj, s: int, d: seq<int>, marked: seq<bool>)
    requires ValidAdj(g) && NonNegative(g) && 0 <= s < |g| && |d| == |g| && |marked| == |g|
    requires Witnessed(g, s, d) && BoundedBy(g, s, d, |g| - 1)
    requires forall v :: 0 <= v < |g| && marked[v] ==> Downstream(g, d, v)
    ensures forall v :: 0 <= v < |g| ==> !marked[v]
  {
    forall v | 0 <= v < |g| ensures !marked[v] {
      if marked[v] {
        var u, i, p :| 0 <= u < |g| && 0 <= i < |g[u]| && Improvable(d, g[u][i]) && IsPath(g, g[u][i].to, v, p);
        NoImprovableEdge(g, s, d, u, i);
      }
    }
  }

  /** Both phases of `bellman_ford(s)` and the last loop, on arrays. */
  method Phases(g: Adj, s: int) returns (res: seq<int>, d1: seq<int>, ghost marked: seq<bool>)
    requires ValidAdj(g) && SmallCosts(g) && 0 <= s < |g|
    ensures |res| == |g| && |d1| == |g| && |marked| == |g|
    ensures Witnessed(g, s, d1) && AtMostInf(d1) && BoundedBy(g, s, d1, |g| - 1)
    ensures res == Flagged(d1, marked)
    ensures forall u, i :: 0 <= u < |g| && 0 <= i < |g[u]| && marked[u] ==> marked[g[u][i].to]
    ensures SeededBefore(g, d1, marked, |g|)
    ensures forall v :: 0 <= v < |g| && marked[v] ==> Downstream(g, d1, v)
  {
    var d, paths := Rounds(g, s);
    d1 := d[..];
    var chk := MarkNegative(g, d1);
    Flag(d, chk);
    res, marked := d[..], chk[..];
  }

  /** The second phase of `bellman_ford`: seed `chk` with the targets of
      improvable edges and flood-fill along the edges. */
  method MarkNegative(g: Adj, d: seq<int>) returns (chk: array<bool>)
    requires ValidAdj(g) && |d| == |g|
    ensures fresh(chk) && chk.Length == |g|
    ensures forall u, i :: 0 <= u < |g| && 0 <= i < |g[u]| && chk[u] ==> chk[g[u][i].to]
    ensures SeededBefore(g, d, chk[..], |g|)
    ensures forall v :: 0 <= v < |g| && chk[v] ==> Downstream(g, d, v)
  {
    var q;
    chk, q := Seed(g, d);
    ghost var c0 := chk[..];
    Spread(g, d, chk, q);
    SeededGrows(g, d, c0, chk[..]);
  }

  /** `bellman_ford(s)`. `phase1` is the vector after the n - 1 rounds and
      `marked` is `chk`. */
  method BellmanFord(g: Adj, s: int) returns (res: seq<int>, ghost phase1: seq<int>, ghost marked: seq<bool>)
    requires ValidAdj(g) && SmallCosts(g) && 0 <= s < |g|
    ensures |res| == |g| && |phase1| == |g| && |marked| == |g|
    ensures Witnessed(g, s, phase1) && AtMostInf(phase1) && BoundedBy(g, s, phase1, |g| - 1)
    ensures res == Flagged(phase1, marked)
    ensures forall v :: 0 <= v < |g| ==> (marked[v] <==> res[v] == -INF)
    ensures forall u, i :: 0 <= u < |g| && 0 <= i < |g[u]| && marked[u] ==> marked[g[u][i].to]
    ensures forall u, i :: 0 <= u < |g| && 0 <= i < |g[u]| && phase1[u] != INF ==>
      phase1[g[u][i].to] <= phase1[u] + g[u][i].cost || marked[g[u][i].to]
    ensures forall v :: 0 <= v < |g| && marked[v] ==> Downstream(g, phase1, v)
    ensures forall v :: 0 <= v < |g| ==> (res[v] == INF <==> !Reachable(g, s, v))
    ensures forall v, p :: IsPath(g, s, v, p) && !marked[v] ==> res[v] <= PathCost(p)
    ensures NonNegative(g) ==> (forall v :: 0 <= v < |g| ==> !marked[v]) && ShortestFrom(g, s, res)
  {
    var d1;
    res, d1, marked := Phases(g, s);
    phase1 := d1;
    Conclude(g, s, res, phase1, marked);
  }

  /** The theorems about the outcome of both phases. */
  lemma Conclude(g: Adj, s: int, res: seq<int>, d: seq<int>, marked: seq<bool>)
    requires ValidAdj(g) && SmallCosts(g) && 0 <= s < |g| && |res| == |g| && |d| == |g| && |marked| == |g|
    requires Witnessed(g, s, d) && AtMostInf(d) && BoundedBy(g, s, d, |g| - 1)
    requires res == Flagged(d, marked)
    requires forall u, i :: 0 <= u < |g| && 0 <= i < |g[u]| && marked[u] ==> marked[g[u][i].to]
    requires SeededBefore(g, d, marked, |g|)
    requires forall v :: 0 <= v < |g| && marked[v] ==> Downstream(g, d, v)
    ensures forall u, i :: 0 <= u < |g| && 0 <= i < |g[u]| && d[u] != INF ==>
      d[g[u][i].to] <= d[u] + g[u][i].cost || marked[g[u][i].to]
    ensures forall v :: 0 <= v < |g| ==> (marked[v] <==> res[v] == -INF)
    ensures forall v :: 0 <= v < |g| ==> (res[v] == INF <==> !Reachable(g, s, v))
    ensures forall v, p :: IsPath(g, s, v, p) && !marked[v] ==> res[v] <= PathCost(p)
    ensures NonNegative(g) ==> (forall v :: 0 <= v < |g| ==> !marked[v]) && ShortestFrom(g, s, res)
  {
    ReachableFinite(g, s, d);
    SeedsCover(g, d, marked);
    assert Outcome(g, s, d, marked);
    InfIffUnreachable(g, s, d, marked, res);
    forall v | 0 <= v < |g| && !marked[v] && d[v] != INF ensures d[v] > -INF {
      UnmarkedAboveMinusInf(g, s, d, marked, v);
    }
    assert d[s] <= 0 by { assert IsPath(g, s, s, []); }
    forall v, p | IsPath(g, s, v, p) && !marked[v] ensures res[v] <= PathCost(p) {
      UnmarkedIsShortest(g, s, d, marked, v, p);
    }
    if NonNegative(g) {
      NothingMarked(g, s, d, marked);
      assert res == d;
    }
  }
}
