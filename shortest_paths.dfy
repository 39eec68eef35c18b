/** `zero_one_bfs` and `dijkstra` of graph/graph.hpp: two label-correcting
    searches that differ only in the container holding the vertices whose
    edges still have to be relaxed. */
module ShortestPaths {
  import opened Graphs
  import opened Distances

  /** The label-correcting invariant: every label is non-negative and at most
      INF, every finite label is the cost of the walk recorded for it, and
      every finite vertex outside the pending set `P` has its edges relaxed. */
  ghost predicate Labels(g: Adj, s: int, d: seq<int>, paths: seq<seq<Edge>>, P: set<int>)
  {
    ValidAdj(g) && NonNegative(g) && |d| == |g| && |paths| == |g| &&
    0 <= s < |g| && d[s] == 0 &&
    (forall x :: 0 <= x < |g| ==> 0 <= d[x] <= INF) &&
    (forall x :: 0 <= x < |g| && d[x] != INF ==> IsPath(g, s, x, paths[x]) && PathCost(paths[x]) == d[x]) &&
    (forall x :: x in P ==> 0 <= x < |g| && d[x] != INF) &&
    (forall x :: 0 <= x < |g| && d[x] != INF && x !in P ==> RelaxedAt(g, d, x))
  }

  lemma LabelsStart(g: Adj, s: int)
    requires ValidAdj(g) && NonNegative(g) && 0 <= s < |g|
    ensures Labels(g, s, seq(|g|, _ => INF)[s := 0], seq(|g|, _ => []), {s})
  {
  }

  /** A pending set may grow by finite vertices. */
  lemma LabelsGrow(g: Adj, s: int, d: seq<int>, paths: seq<seq<Edge>>, P: set<int>, P': set<int>)
    requires Labels(g, s, d, paths, P) && P <= P'
    requires forall x :: x in P' ==> 0 <= x < |g| && d[x] != INF
    ensures Labels(g, s, d, paths, P')
  {
  }

  /** Improving the label of `e.to` through the pending vertex `v` keeps the
      invariant once `e.to` joins the pending set, and lowers the label sum. */
  lemma LabelsImprove(g: Adj, s: int, d: seq<int>, paths: seq<seq<Edge>>, P: set<int>, v: int, e: Edge)
    requires Labels(g, s, d, paths, P) && v in P && e in g[v] && 0 <= e.to < |g|
    requires d[e.to] > d[v] + e.cost
    ensures e.to != v && e.to != s
    ensures Labels(g, s, d[e.to := d[v] + e.cost], paths[e.to := paths[v] + [e]], P + {e.to})
  {
    var i :| 0 <= i < |g[v]| && g[v][i] == e;
    var w := e.to;
    var d', paths', P' := d[w := d[v] + e.cost], paths[w := paths[v] + [e]], P + {w};
    PathExtend(g, s, v, paths[v], e);
    assert e.cost >= 0;
    forall x | 0 <= x < |g| ensures 0 <= d'[x] <= INF {
      if x != w { assert d'[x] == d[x]; }
    }
    forall x | 0 <= x < |g| && d'[x] != INF ensures IsPath(g, s, x, paths'[x]) && PathCost(paths'[x]) == d'[x] {
      if x != w { assert d'[x] == d[x] && paths'[x] == paths[x]; }
    }
    forall x | x in P' ensures 0 <= x < |g| && d'[x] != INF {
      if x != w { assert d'[x] == d[x]; }
    }
    forall x | 0 <= x < |g| && d'[x] != INF && x !in P'
      ensures RelaxedAt(g, d', x)
    {
      assert RelaxedAt(g, d, x);
    }
    LabelsIntro(g, s, d', paths', P');
  }

  lemma LabelsIntro(g: Adj, s: int, d: seq<int>, paths: seq<seq<Edge>>, P: set<int>)
    requires ValidAdj(g) && NonNegative(g) && |d| == |g| && |paths| == |g| && 0 <= s < |g| && d[s] == 0
    requires forall x :: 0 <= x < |g| ==> 0 <= d[x] <= INF
    requires forall x :: 0 <= x < |g| && d[x] != INF ==> IsPath(g, s, x, paths[x]) && PathCost(paths[x]) == d[x]
    requires forall x :: x in P ==> 0 <= x < |g| && d[x] != INF
    requires forall x :: 0 <= x < |g| && d[x] != INF && x !in P ==> RelaxedAt(g, d, x)
    ensures Labels(g, s, d, paths, P)
  {
  }

  /** The edges of `v` relaxed so far stay relaxed when some other label drops. */
  lemma RelaxedUpToImprove(g: Adj, d: seq<int>, v: int, i: int, w: int, x: int)
    requires ValidAdj(g) && |d| == |g| && 0 <= v < |g| && 0 <= i <= |g[v]|
    requires RelaxedUpTo(g, d, v, i) && 0 <= w < |g| && w != v && x < d[w]
    ensures RelaxedUpTo(g, d[w := x], v, i)
  {
  }

  lemma RelaxedUpToNext(g: Adj, d: seq<int>, v: int, i: int)
    requires ValidAdj(g) && |d| == |g| && 0 <= v < |g| && 0 <= i < |g[v]|
    requires RelaxedUpTo(g, d, v, i) && d[g[v][i].to] <= d[v] + g[v][i].cost
    ensures RelaxedUpTo(g, d, v, i + 1)
  {
  }

  /** A vertex whose edges are all relaxed leaves the pending set. */
  lemma LabelsSettle(g: Adj, s: int, d: seq<int>, paths: seq<seq<Edge>>, P: set<int>, v: int)
    requires Labels(g, s, d, paths, P + {v}) && 0 <= v < |g|
    requires RelaxedUpTo(g, d, v, |g[v]|)
    ensures Labels(g, s, d, paths, P)
  {
  }

  /** With nothing pending the labels are exact shortest-walk costs. */
  lemma LabelsDone(g: Adj, s: int, d: seq<int>, paths: seq<seq<Edge>>)
    requires Labels(g, s, d, paths, {})
    ensures |d| == |g| && d[s] == 0 && AtMostInf(d)
    ensures Relaxed(g, d) && ShortestFrom(g, s, d)
    ensures forall v, p :: IsPath(g, s, v, p) && PathCost(p) < INF ==> 0 <= v < |g| && d[v] != INF
  {
    forall u | 0 <= u < |g| && d[u] != INF ensures RelaxedAt(g, d, u) {
    }
    forall v, p | IsPath(g, s, v, p)
      ensures 0 <= v < |g| && d[v] <= PathCost(p) && (PathCost(p) < INF ==> d[v] != INF)
    {
      ShortestPathCertificate(g, s, d, v, p);
    }
  }

  function Elems(q: seq<int>): (r: set<int>)
    ensures forall x :: x in r <==> x in q
  {
    set x | x in q
  }

  /** The state change of relaxing the `i`-th edge of `v`: the target's label
      and walk when the edge improves it, nothing otherwise. */
  ghost predicate RelaxStep(g: Adj, v: int, i: int, d: seq<int>, d': seq<int>, paths: seq<seq<Edge>>, paths': seq<seq<Edge>>)
    requires 0 <= v < |g| && 0 <= i < |g[v]| && |d| == |g| && |paths| == |g| && 0 <= g[v][i].to < |g|
  {
    var e := g[v][i];
    if d[e.to] > d[v] + e.cost then d' == d[e.to := d[v] + e.cost] && paths' == paths[e.to := paths[v] + [e]]
    else d' == d && paths' == paths
  }

  /** Relaxing one edge keeps the invariant with the target pending if its
      label dropped, and the label sum drops exactly then. */
  lemma RelaxStepLabels(g: Adj, s: int, d: seq<int>, d': seq<int>, paths: seq<seq<Edge>>, paths': seq<seq<Edge>>,
                        P: set<int>, v: int, i: int)
    requires Labels(g, s, d, paths, P + {v}) && 0 <= v < |g| && 0 <= i < |g[v]| && RelaxedUpTo(g, d, v, i)
    requires RelaxStep(g, v, i, d, d', paths, paths')
    ensures var w := g[v][i].to; if d[w] > d[v] + g[v][i].cost then
        Labels(g, s, d', paths', P + {w} + {v}) && Sum(d') < Sum(d) && d'[w] == d[v] + g[v][i].cost
      else Labels(g, s, d', paths', P + {v}) && d' == d
    ensures RelaxedUpTo(g, d', v, i + 1)
  {
    var e := g[v][i];
    if d[e.to] > d[v] + e.cost {
      LabelsImprove(g, s, d, paths, P + {v}, v, e);
      assert P + {v} + {e.to} == P + {e.to} + {v};
      RelaxedUpToImprove(g, d, v, i, e.to, d[v] + e.cost);
      SumDecrease(d, d', e.to, d[v] + e.cost);
    }
    RelaxedUpToNext(g, d', v, i);
  }

  /** Relaxing one edge `e` of `v` in 0-1 BFS: an improved target is pushed at
      the back of the deque when the edge has a cost and at the front when it
      is free. */
  method RelaxDequeEdge(g: Adj, s: int, d: array<int>, v: int, i: int, deq: seq<int>, ghost paths: seq<seq<Edge>>)
    returns (deq': seq<int>, ghost paths': seq<seq<Edge>>)
    requires d.Length == |g| && 0 <= v < |g| && 0 <= i < |g[v]|
    requires Labels(g, s, d[..], paths, Elems(deq) + {v}) && RelaxedUpTo(g, d[..], v, i)
    modifies d
    ensures Labels(g, s, d[..], paths', Elems(deq') + {v}) && RelaxedUpTo(g, d[..], v, i + 1)
    ensures Sum(d[..]) < Sum(old(d[..])) || (d[..] == old(d[..]) && deq' == deq)
  {
    var e := g[v][i];
    ghost var before := d[..];
    deq', paths' := deq, paths;
    if d[e.to] > d[v] + e.cost {
      d[e.to] := d[v] + e.cost;
      assert d[..] == before[e.to := before[v] + e.cost];
      paths' := paths[e.to := paths[v] + [e]];
      if e.cost != 0 {
        deq' := deq + [e.to];
      } else {
        deq' := [e.to] + deq;
      }
      assert Elems(deq') == Elems(deq) + {e.to};
    }
    RelaxStepLabels(g, s, before, d[..], paths, paths', Elems(deq), v, i);
  }

  /** One pass of the 0-1 BFS outer loop: relax every edge of `v`. */
  method RelaxDeque(g: Adj, s: int, d: array<int>, v: int, deq: seq<int>, ghost paths: seq<seq<Edge>>)
    returns (deq': seq<int>, ghost paths': seq<seq<Edge>>)
    requires d.Length == |g| && 0 <= v < |g| && Labels(g, s, d[..], paths, Elems(deq) + {v})
    modifies d
    ensures Labels(g, s, d[..], paths', Elems(deq'))
    ensures Sum(d[..]) < Sum(old(d[..])) || (d[..] == old(d[..]) && deq' == deq)
  {
    deq', paths' := deq, paths;
    var i := 0;
    while i < |g[v]|
      invariant 0 <= i <= |g[v]|
      invariant Labels(g, s, d[..], paths', Elems(deq') + {v})
      invariant RelaxedUpTo(g, d[..], v, i)
      invariant Sum(d[..]) < Sum(old(d[..])) || (d[..] == old(d[..]) && deq' == deq)
    {
      deq', paths' := RelaxDequeEdge(g, s, d, v, i, deq', paths');
      i := i + 1;
    }
    LabelsSettle(g, s, d[..], paths', Elems(deq'), v);
  }

  /** `zero_one_bfs(s)`: shortest walk costs from `s` on a graph whose edge
      costs are non-negative (the source states the narrower "zero or one fixed
      value"; the argument below needs only non-negativity), using a deque. */
  method ZeroOneBfs(g: Adj, s: int) returns (dist: seq<int>)
    requires ValidAdj(g) && NonNegative(g) && 0 <= s < |g|
    ensures |dist| == |g| && dist[s] == 0 && AtMostInf(dist)
    ensures Relaxed(g, dist) && ShortestFrom(g, s, dist)
    ensures forall v, p :: IsPath(g, s, v, p) && PathCost(p) < INF ==> 0 <= v < |g| && dist[v] != INF
    ensures SmallCosts(g) ==> forall v :: 0 <= v < |g| ==> (dist[v] != INF <==> Reachable(g, s, v))
  {
    var n := |g|;
    var d := new int[n](_ => INF);
    d[s] := 0;
    ghost var paths: seq<seq<Edge>> := seq(n, _ => []);
    assert d[..] == seq(n, _ => INF)[s := 0];
    LabelsStart(g, s);
    var deq := [s];
    while deq != []
      invariant d.Length == n
      invariant Labels(g, s, d[..], paths, Elems(deq))
      decreases Sum(d[..]), |deq|
    {
      ghost var deq0 := deq;
      var v := deq[0];
      deq := deq[1..];
      assert Elems(deq0) == Elems(deq) + {v} by { assert deq0 == [v] + deq; }
      deq, paths := RelaxDeque(g, s, d, v, deq, paths);
    }
    dist := d[..];
    LabelsDone(g, s, dist, paths);
    if SmallCosts(g) { FiniteIffReachable(g, s, dist); }
  }

  /** Each pending vertex has a queue entry that carries its current label. */
  ghost predicate Queued(P: set<int>, que: seq<(int, int)>, d: seq<int>) {
    forall u :: u in P ==> 0 <= u < |d| && (d[u], u) in que
  }

  /** Every queue entry names a vertex, is no smaller than its label, and is below INF. */
  ghost predicate QueueSound(que: seq<(int, int)>, d: seq<int>) {
    forall k :: 0 <= k < |que| ==> 0 <= que[k].1 < |d| && d[que[k].1] <= que[k].0 < INF
  }

  /** `que.top()`: the position of an entry of least label. */
  function MinEntry(que: seq<(int, int)>): (k: nat)
    requires |que| > 0
    ensures k < |que| && forall j :: 0 <= j < |que| ==> que[k].0 <= que[j].0
    decreases |que|
  {
    if |que| == 1 then 0
    else
      var k := MinEntry(que[..|que| - 1]);
      if que[k].0 <= que[|que| - 1].0 then k else |que| - 1
  }

  /** The queue after `que.pop()` removes the entry at `k`. */
  function RemoveAt(que: seq<(int, int)>, k: nat): (r: seq<(int, int)>)
    requires k < |que|
    ensures |r| == |que| - 1
    ensures forall x :: x in que && x != que[k] ==> x in r
    ensures forall j :: 0 <= j < |r| ==> r[j] in que
  {
    que[..k] + que[k + 1..]
  }

  /** Relaxing one edge `e` of `v` in `dijkstra`: an improved target is queued
      with its new label. */
  method RelaxHeapEdge(g: Adj, s: int, d: array<int>, v: int, i: int, que: seq<(int, int)>,
                       ghost P: set<int>, ghost paths: seq<seq<Edge>>)
    returns (que': seq<(int, int)>, ghost P': set<int>, ghost paths': seq<seq<Edge>>)
    requires d.Length == |g| && 0 <= v < |g| && 0 <= i < |g[v]|
    requires Labels(g, s, d[..], paths, P + {v}) && RelaxedUpTo(g, d[..], v, i)
    requires Queued(P, que, d[..]) && QueueSound(que, d[..])
    modifies d
    ensures Labels(g, s, d[..], paths', P' + {v}) && RelaxedUpTo(g, d[..], v, i + 1)
    ensures Queued(P', que', d[..]) && QueueSound(que', d[..])
    ensures Sum(d[..]) < Sum(old(d[..])) || (d[..] == old(d[..]) && que' == que)
  {
    var e := g[v][i];
    ghost var before := d[..];
    que', P', paths' := que, P, paths;
    if d[e.to] > d[v] + e.cost {
      d[e.to] := d[v] + e.cost;
      assert d[..] == before[e.to := before[v] + e.cost];
      paths' := paths[e.to := paths[v] + [e]];
      que' := que + [(d[e.to], e.to)];
      P' := P + {e.to};
    }
    RelaxStepLabels(g, s, before, d[..], paths, paths', P, v, i);
    QueueStep(g, s, before, d[..], paths, P, que, v, i, que', P');
  }

  /** Queueing the improved target keeps every pending vertex queued with its
      current label, and every entry sound. */
  lemma QueueStep(g: Adj, s: int, d: seq<int>, d': seq<int>, paths: seq<seq<Edge>>, P: set<int>, que: seq<(int, int)>,
                  v: int, i: int, que': seq<(int, int)>, P': set<int>)
    requires Labels(g, s, d, paths, P + {v}) && 0 <= v < |g| && 0 <= i < |g[v]|
    requires Queued(P, que, d) && QueueSound(que, d) && |d'| == |d|
    requires var w := g[v][i].to; if d[w] > d[v] + g[v][i].cost then
        d' == d[w := d[v] + g[v][i].cost] && que' == que + [(d'[w], w)] && P' == P + {w}
      else d' == d && que' == que && P' == P
    ensures Queued(P', que', d') && QueueSound(que', d')
  {
    var e := g[v][i];
    assert e in g[v];
  }

  /** Expanding a popped vertex `v` whose entry was current: relax all its edges. */
  method RelaxHeap(g: Adj, s: int, d: array<int>, v: int, que: seq<(int, int)>,
                   ghost P: set<int>, ghost paths: seq<seq<Edge>>)
    returns (que': seq<(int, int)>, ghost P': set<int>, ghost paths': seq<seq<Edge>>)
    requires d.Length == |g| && 0 <= v < |g|
    requires Labels(g, s, d[..], paths, P + {v}) && Queued(P, que, d[..]) && QueueSound(que, d[..])
    modifies d
    ensures Labels(g, s, d[..], paths', P') && Queued(P', que', d[..]) && QueueSound(que', d[..])
    ensures Sum(d[..]) < Sum(old(d[..])) || (d[..] == old(d[..]) && que' == que)
  {
    que', P', paths' := que, P, paths;
    var i := 0;
    while i < |g[v]|
      invariant 0 <= i <= |g[v]|
      invariant Labels(g, s, d[..], paths', P' + {v}) && RelaxedUpTo(g, d[..], v, i)
      invariant Queued(P', que', d[..]) && QueueSound(que', d[..])
      invariant Sum(d[..]) < Sum(old(d[..])) || (d[..] == old(d[..]) && que' == que)
    {
      que', P', paths' := RelaxHeapEdge(g, s, d, v, i, que', P', paths');
      i := i + 1;
    }
    LabelsSettle(g, s, d[..], paths', P', v);
  }

  /** Popping the entry at `k` keeps every other pending vertex queued; a
      stale entry was not the one any pending vertex relied on. */
  lemma QueuedPop(P: set<int>, que: seq<(int, int)>, d: seq<int>, k: nat)
    requires Queued(P, que, d) && k < |que|
    ensures Queued(P - {que[k].1}, RemoveAt(que, k), d)
    ensures (0 <= que[k].1 < |d| && que[k].0 != d[que[k].1]) ==> Queued(P, RemoveAt(que, k), d)
  {
  }

  /** One pass of the `dijkstra` loop: pop an entry of least label and, unless
      it is stale, relax the edges of its vertex. */
  method PopAndRelax(g: Adj, s: int, d: array<int>, que: seq<(int, int)>, ghost P: set<int>, ghost paths: seq<seq<Edge>>)
    returns (que': seq<(int, int)>, ghost P': set<int>, ghost paths': seq<seq<Edge>>)
    requires d.Length == |g| && que != []
    requires Labels(g, s, d[..], paths, P) && Queued(P, que, d[..]) && QueueSound(que, d[..])
    modifies d
    ensures Labels(g, s, d[..], paths', P') && Queued(P', que', d[..]) && QueueSound(que', d[..])
    ensures Sum(d[..]) < Sum(old(d[..])) || (d[..] == old(d[..]) && |que'| < |que|)
  {
    var k := MinEntry(que);
    var p := que[k];
    QueuedPop(P, que, d[..], k);
    que' := RemoveAt(que, k);
    P', paths' := P, paths;
    var v := p.1;
    if d[v] < p.0 {
    } else {
      LabelsGrow(g, s, d[..], paths, P, (P - {v}) + {v});
      que', P', paths' := RelaxHeap(g, s, d, v, que', P - {v}, paths);
    }
  }

  /** `dijkstra(s)`: shortest walk costs from `s` on a graph with non-negative
      costs; the queue pops an entry of least label, and an entry whose label
      is no longer current is skipped. */
  method Dijkstra(g: Adj, s: int) returns (dist: seq<int>)
    requires ValidAdj(g) && NonNegative(g) && 0 <= s < |g|
    ensures |dist| == |g| && dist[s] == 0 && AtMostInf(dist)
    ensures Relaxed(g, dist) && ShortestFrom(g, s, dist)
    ensures forall v, p :: IsPath(g, s, v, p) && PathCost(p) < INF ==> 0 <= v < |g| && dist[v] != INF
    ensures SmallCosts(g) ==> forall v :: 0 <= v < |g| ==> (dist[v] != INF <==> Reachable(g, s, v))
  {
    var n := |g|;
    var d := new int[n](_ => INF);
    d[s] := 0;
    ghost var paths: seq<seq<Edge>> := seq(n, _ => []);
    assert d[..] == seq(n, _ => INF)[s := 0];
    LabelsStart(g, s);
    var que := [(0, s)];
    ghost var P := {s};
    while que != []
      invariant d.Length == n
      invariant Labels(g, s, d[..], paths, P) && Queued(P, que, d[..]) && QueueSound(que, d[..])
      decreases Sum(d[..]), |que|
    {
      que, P, paths := PopAndRelax(g, s, d, que, P, paths);
    }
    dist := d[..];
    assert P == {} by {
      if P != {} { NonEmptyHasElement(P); }
    }
    LabelsDone(g, s, dist, paths);
    if SmallCosts(g) { FiniteIffReachable(g, s, dist); }
  }
}
