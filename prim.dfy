/** `prim` of graph/graph.hpp: grow a tree from vertex 0, each time taking
    the cheapest queued edge that leaves the marked vertices, until every
    vertex is marked; the result is the total cost of the accepted edges. */
module Prim {
  import opened Graphs

  /** `e` is stored in the list of its own source vertex. */
  ghost predicate Stored(g: Adj, e: Edge) {
    0 <= e.from < |g| && e in g[e.from]
  }

  /** `v` is vertex 0 or the target of an accepted edge. */
  ghost predicate Spanned(acc: seq<Edge>, v: int) {
    v == 0 || exists k :: 0 <= k < |acc| && acc[k].to == v
  }

  /** The accepted edges in order grow a tree from 0: each is a stored edge
      that leaves a vertex already spanned and enters one not yet spanned. */
  ghost predicate GrowsFromZero(g: Adj, acc: seq<Edge>) {
    forall k :: 0 <= k < |acc| ==>
      Stored(g, acc[k]) && Spanned(acc[..k], acc[k].from) && !Spanned(acc[..k], acc[k].to)
  }

  /** Every queued entry is a stored edge leaving a marked vertex. */
  ghost predicate FromMarked(g: Adj, chk: seq<int>, que: seq<Edge>) {
    forall j :: 0 <= j < |que| ==> Stored(g, que[j]) && 0 <= que[j].from < |chk| && chk[que[j].from] == 1
  }

  /** Every edge leaving a marked vertex is queued or already enters a marked one. */
  ghost predicate Covered(g: Adj, chk: seq<int>, que: seq<Edge>)
    requires ValidAdj(g) && |chk| == |g|
  {
    forall u, i :: 0 <= u < |g| && 0 <= i < |g[u]| && chk[u] == 1 ==> g[u][i] in que || chk[g[u][i].to] == 1
  }

  /** The loop state: `chk` marks exactly the spanned vertices, `cnt` counts
      them, `res` is the cost of the accepted edges. */
  ghost predicate State(g: Adj, chk: seq<int>, que: seq<Edge>, acc: seq<Edge>, cnt: int, res: int) {
    ValidAdj(g) && |chk| == |g| && |g| >= 1 &&
    (forall v :: 0 <= v < |g| ==> (chk[v] == 0 || chk[v] == 1) && (chk[v] == 1 <==> Spanned(acc, v))) &&
    Count(chk, 1) == cnt == |acc| + 1 && res == PathCost(acc) &&
    GrowsFromZero(g, acc) && FromMarked(g, chk, que) && Covered(g, chk, que)
  }

  // ---------------------------------------------------------------- the queue

  function MinEdge(que: seq<Edge>): (k: nat)
    requires |que| > 0
    ensures k < |que| && forall j :: 0 <= j < |que| ==> que[k].cost <= que[j].cost
    decreases |que|
  {
    if |que| == 1 then 0
    else
      var k := MinEdge(que[..|que| - 1]);
      if que[k].cost <= que[|que| - 1].cost then k else |que| - 1
  }

  /** `que.pop()`: the queue without the entry at `k`. */
  function Without(que: seq<Edge>, k: nat): (r: seq<Edge>)
    requires k < |que|
    ensures |r| == |que| - 1
    ensures forall x :: x in que && x != que[k] ==> x in r
    ensures forall j :: 0 <= j < |r| ==> r[j] in que
  {
    que[..k] + que[k + 1..]
  }

  /** `for (auto &e : edges[v]) que.push(e)`. */
  method PushAll(que: seq<Edge>, l: seq<Edge>) returns (que': seq<Edge>)
    ensures que' == que + l
  {
    que' := que;
    var i := 0;
    while i < |l|
      invariant 0 <= i <= |l| && que' == que + l[..i]
    {
      que' := que' + [l[i]];
      i := i + 1;
    }
    assert l[..|l|] == l;
  }

  // ---------------------------------------------------------------- cuts

  /** A walk from a marked vertex to an unmarked one crosses the cut somewhere. */
  lemma {:induction false} Crossing(g: Adj, chk: seq<int>, v: int, p: seq<Edge>) returns (u: int, i: int)
    requires ValidAdj(g) && |chk| == |g| && 0 < |g| && chk[0] == 1 && IsPath(g, 0, v, p) && 0 <= v < |g| && chk[v] != 1
    ensures 0 <= u < |g| && 0 <= i < |g[u]| && chk[u] == 1 && chk[g[u][i].to] != 1
    decreases |p|
  {
    var e := p[|p| - 1];
    var k :| 0 <= k < |g[e.from]| && g[e.from][k] == e;
    if chk[e.from] == 1 {
      u, i := e.from, k;
    } else {
      u, i := Crossing(g, chk, e.from, p[..|p| - 1]);
    }
  }

  /** Fewer ones than entries: some entry is not 1. */
  lemma {:induction false} CountBelow(s: seq<int>) returns (v: int)
    requires Count(s, 1) < |s|
    ensures 0 <= v < |s| && s[v] != 1
    decreases |s|
  {
    var n := |s| - 1;
    if s[n] != 1 {
      v := n;
    } else {
      v := CountBelow(s[..n]);
    }
  }

  /** When every vertex is counted, every vertex is spanned. */
  lemma AllSpanned(g: Adj, chk: seq<int>, que: seq<Edge>, acc: seq<Edge>, cnt: int, res: int)
    requires State(g, chk, que, acc, cnt, res) && cnt >= |g|
    ensures forall v :: 0 <= v < |g| ==> Spanned(acc, v)
  {
    forall v | 0 <= v < |g|
      ensures Spanned(acc, v)
    {
      if chk[v] != 1 {
        CountMark(chk, v, 1);
        assert false;
      }
    }
  }

  /** While some vertex is unmarked in a graph where 0 reaches everything,
      the queue is not empty, so `que.top()` is defined. */
  lemma QueueNotEmpty(g: Adj, chk: seq<int>, que: seq<Edge>, acc: seq<Edge>, cnt: int, res: int)
    requires State(g, chk, que, acc, cnt, res) && cnt < |g|
    requires forall v :: 0 <= v < |g| ==> Reachable(g, 0, v)
    ensures que != []
  {
    var v := CountBelow(chk);
    assert Reachable(g, 0, v);
    var p :| IsPath(g, 0, v, p);
    assert chk[0] == 1 by { assert Spanned(acc, 0); }
    var u, i := Crossing(g, chk, v, p);
  }

  // ---------------------------------------------------------------- steps

  lemma SpannedGrow(acc: seq<Edge>, e: Edge, v: int)
    ensures Spanned(acc + [e], v) <==> Spanned(acc, v) || v == e.to
  {
    if Spanned(acc + [e], v) && v != 0 && v != e.to {
      var k :| 0 <= k < |acc + [e]| && (acc + [e])[k].to == v;
      assert acc[k].to == v;
    }
    if Spanned(acc, v) && v != 0 {
      var k :| 0 <= k < |acc| && acc[k].to == v;
      assert (acc + [e])[k].to == v;
    }
    if v == e.to {
      assert (acc + [e])[|acc|].to == v;
    }
  }

  /** An entry of a queue that holds only stored edges ends inside the graph. */
  lemma QueuedInRange(g: Adj, chk: seq<int>, que: seq<Edge>, k: nat)
    requires ValidAdj(g) && FromMarked(g, chk, que) && k < |que|
    ensures 0 <= que[k].to < |g| && 0 <= que[k].from < |chk| && chk[que[k].from] == 1 && Stored(g, que[k])
  {
    var e := que[k];
    var i :| 0 <= i < |g[e.from]| && g[e.from][i] == e;
  }

  lemma AcceptMarks(g: Adj, chk: seq<int>, acc: seq<Edge>, e: Edge)
    requires |chk| == |g| && 0 <= e.to < |g| && chk[e.to] != 1
    requires forall v :: 0 <= v < |g| ==> (chk[v] == 0 || chk[v] == 1) && (chk[v] == 1 <==> Spanned(acc, v))
    ensures forall v :: 0 <= v < |g| ==>
      (chk[e.to := 1][v] == 0 || chk[e.to := 1][v] == 1) && (chk[e.to := 1][v] == 1 <==> Spanned(acc + [e], v))
    ensures Count(chk[e.to := 1], 1) == Count(chk, 1) + 1
  {
    CountMark(chk, e.to, 1);
    forall v | 0 <= v < |g|
      ensures chk[e.to := 1][v] == 1 <==> Spanned(acc + [e], v)
    {
      SpannedGrow(acc, e, v);
    }
  }

  lemma AcceptTree(g: Adj, acc: seq<Edge>, e: Edge)
    requires GrowsFromZero(g, acc) && Stored(g, e) && Spanned(acc, e.from) && !Spanned(acc, e.to)
    ensures GrowsFromZero(g, acc + [e])
  {
    var acc' := acc + [e];
    assert acc'[..|acc|] == acc;
    forall j | 0 <= j < |acc'|
      ensures Stored(g, acc'[j]) && Spanned(acc'[..j], acc'[j].from) && !Spanned(acc'[..j], acc'[j].to)
    {
      if j < |acc| {
        assert acc'[..j] == acc[..j];
      }
    }
  }

  lemma AcceptQueue(g: Adj, chk: seq<int>, que: seq<Edge>, k: nat, que': seq<Edge>)
    requires ValidAdj(g) && |chk| == |g| && k < |que| && FromMarked(g, chk, que) && Covered(g, chk, que)
    requires 0 <= que[k].to < |g| && que' == Without(que, k) + g[que[k].to]
    ensures FromMarked(g, chk[que[k].to := 1], que') && Covered(g, chk[que[k].to := 1], que')
  {
    var e := que[k];
    var w := e.to;
    var chk' := chk[w := 1];
    forall j | 0 <= j < |que'|
      ensures Stored(g, que'[j]) && 0 <= que'[j].from < |chk'| && chk'[que'[j].from] == 1
    {
      if j >= |que| - 1 {
        var i := j - (|que| - 1);
        assert que'[j] == g[w][i];
      } else {
        assert que'[j] in que;
      }
    }
    forall u, i | 0 <= u < |g| && 0 <= i < |g[u]| && chk'[u] == 1
      ensures g[u][i] in que' || chk'[g[u][i].to] == 1
    {
      if u == w {
        assert que'[|que| - 1 + i] == g[u][i];
      } else if g[u][i] != e && g[u][i] in que {
        assert g[u][i] in Without(que, k);
      }
    }
  }

  /** Accepting the popped entry `e`, whose target is unmarked: mark it,
      count it, add its cost and queue its edges. */
  lemma Accept(g: Adj, chk: seq<int>, que: seq<Edge>, acc: seq<Edge>, cnt: int, res: int, k: nat, que': seq<Edge>)
    requires State(g, chk, que, acc, cnt, res) && k < |que| && 0 <= que[k].to < |g| && chk[que[k].to] != 1
    requires que' == Without(que, k) + g[que[k].to]
    ensures State(g, chk[que[k].to := 1], que', acc + [que[k]], cnt + 1, res + que[k].cost)
  {
    var e := que[k];
    QueuedInRange(g, chk, que, k);
    AcceptMarks(g, chk, acc, e);
    AcceptTree(g, acc, e);
    AcceptQueue(g, chk, que, k, que');
    SumAppend(acc, e);
  }

  lemma SumAppend(acc: seq<Edge>, e: Edge)
    ensures PathCost(acc + [e]) == PathCost(acc) + e.cost
  {
    assert (acc + [e])[..|acc|] == acc;
  }

  /** Skipping a popped entry whose target is already marked. */
  lemma Skip(g: Adj, chk: seq<int>, que: seq<Edge>, acc: seq<Edge>, cnt: int, res: int, k: nat)
    requires State(g, chk, que, acc, cnt, res) && k < |que| && 0 <= que[k].to < |chk| && chk[que[k].to] == 1
    ensures State(g, chk, Without(que, k), acc, cnt, res)
  {
    var r := Without(que, k);
    forall u, i | 0 <= u < |g| && 0 <= i < |g[u]| && chk[u] == 1
      ensures g[u][i] in r || chk[g[u][i].to] == 1
    {
    }
  }

  /** `prim()` on a graph with at least one vertex in which every vertex is
      reachable from 0 (otherwise `que.top()` would run on an empty queue).
      It accepts exactly n−1 edges that grow a tree from 0 over every vertex,
      and returns the sum of their costs. */
  method Prim(g: Adj) returns (res: int, ghost acc: seq<Edge>)
    requires ValidAdj(g) && |g| >= 1
    requires forall v :: 0 <= v < |g| ==> Reachable(g, 0, v)
    ensures |acc| == |g| - 1 && GrowsFromZero(g, acc) && res == PathCost(acc)
    ensures forall v :: 0 <= v < |g| ==> Spanned(acc, v)
  {
    res := 0;
    var que := PushAll([], g[0]);
    var chk := new int[|g|](_ => 0);
    chk[0] := 1;
    assert chk[..] == seq(|g|, _ => 0)[0 := 1];
    CountMark(seq(|g|, _ => 0), 0, 1);
    NoOnes(|g|);
    var cnt := 1;
    acc := [];
    while cnt < |g|
      invariant State(g, chk[..], que, acc, cnt, res)
      decreases |g| - cnt, |que|
    {
      QueueNotEmpty(g, chk[..], que, acc, cnt, res);
      var k := MinEdge(que);
      var e := que[k];
      QueuedInRange(g, chk[..], que, k);
      if chk[e.to] == 1 {
        Skip(g, chk[..], que, acc, cnt, res, k);
        que := Without(que, k);
        continue;
      }
      ghost var before := chk[..];
      var rest := Without(que, k);
      var que' := PushAll(rest, g[e.to]);
      Accept(g, before, que, acc, cnt, res, k, que');
      cnt := cnt + 1;
      res := res + e.cost;
      chk[e.to] := 1;
      assert chk[..] == before[e.to := 1];
      acc := acc + [e];
      que := que';
    }
    AllSpanned(g, chk[..], que, acc, cnt, res);
  }

}
