/** `topological_sort` and `is_dag` of graph/graph.hpp: a depth-first search
    that colours vertices 0 (unseen), 1 (on the recursion stack) and 2
    (finished), pushes each vertex when it finishes, and gives up as soon as
    it meets a vertex that is still on the stack. */
module TopologicalOrder {
  import opened Graphs

  ghost predicate HasCycle(g: Adj) {
    exists v, p :: IsPath(g, v, v, p) && p != []
  }

  /** `x` is placed before `y` in `s`. */
  ghost predicate Before(s: seq<int>, x: int, y: int) {
    exists a, b :: 0 <= a < b < |s| && s[a] == x && s[b] == y
  }

  /** `s` lists each of the vertices 0..n-1 exactly once. */
  ghost predicate IsPermutation(s: seq<int>, n: int) {
    |s| == n && Distinct(s) && forall i :: 0 <= i < |s| ==> 0 <= s[i] < n
  }

  /** Every stored edge goes from a vertex placed earlier to one placed later. */
  ghost predicate IsTopologicalOrder(g: Adj, s: seq<int>) {
    IsPermutation(s, |g|) &&
    forall u, i :: 0 <= u < |g| && 0 <= i < |g[u]| ==> Before(s, u, g[u][i].to)
  }

  function Reversed(s: seq<int>): (r: seq<int>)
    ensures |r| == |s| && forall i :: 0 <= i < |s| ==> r[i] == s[|s| - 1 - i]
  {
    seq(|s|, i requires 0 <= i < |s| => s[|s| - 1 - i])
  }

  /** The position of `x` in `s`. */
  function IndexOf(s: seq<int>, x: int): (r: nat)
    requires x in s
    ensures r < |s| && s[r] == x && forall i :: 0 <= i < r ==> s[i] != x
  {
    if s[0] == x then 0 else 1 + IndexOf(s[1..], x)
  }

  // ---------------------------------------------------------------- orders and cycles

  lemma BeforeIndex(s: seq<int>, x: int, y: int)
    requires Distinct(s) && Before(s, x, y)
    ensures x in s && y in s && IndexOf(s, x) < IndexOf(s, y)
  {
    var a, b :| 0 <= a < b < |s| && s[a] == x && s[b] == y;
    assert IndexOf(s, x) == a;
    assert IndexOf(s, y) == b;
  }

  /** Along a walk of forward edges the position strictly grows. */
  lemma {:induction false} ForwardWalk(g: Adj, s: seq<int>, x: int, y: int, p: seq<Edge>)
    requires IsTopologicalOrder(g, s) && ValidAdj(g) && 0 <= x < |g| && IsPath(g, x, y, p) && p != []
    ensures x in s && y in s && IndexOf(s, x) < IndexOf(s, y)
    decreases |p|
  {
    var e := p[|p| - 1];
    var i :| 0 <= i < |g[e.from]| && g[e.from][i] == e;
    assert Before(s, e.from, y);
    BeforeIndex(s, e.from, y);
    if |p| > 1 {
      ForwardWalk(g, s, x, e.from, p[..|p| - 1]);
    } else {
      assert IsPath(g, x, e.from, p[..0]);
    }
  }

  /** A graph with a topological order has no cycle. */
  lemma OrderedAcyclic(g: Adj, s: seq<int>)
    requires ValidAdj(g) && IsTopologicalOrder(g, s)
    ensures !HasCycle(g)
  {
    if HasCycle(g) {
      var v: int, p: seq<Edge> :| IsPath(g, v, v, p) && p != [];
      assert 0 <= v < |g| by {
        var e := p[|p| - 1];
        var i :| 0 <= i < |g[e.from]| && g[e.from][i] == e;
      }
      ForwardWalk(g, s, v, v, p);
    }
  }

  // ---------------------------------------------------------------- search state

  /** Colours are 0, 1 or 2 for every vertex. */
  ghost predicate Colours(used: seq<int>) {
    forall v :: 0 <= v < |used| ==> 0 <= used[v] <= 2
  }

  /** The vertices coloured 1 are exactly those on the recursion stack. */
  ghost predicate GraySet(used: seq<int>, stack: seq<int>) {
    (forall v :: 0 <= v < |used| ==> (used[v] == 1 <==> v in stack)) &&
    (forall a :: 0 <= a < |stack| ==> 0 <= stack[a] < |used|)
  }

  /** The stack is a walk: `links` are its edges, so every stacked vertex reaches the top. */
  ghost predicate StackPaths(g: Adj, stack: seq<int>, links: seq<Edge>) {
    stack != [] ==>
      |links| == |stack| - 1 &&
      forall a :: 0 <= a < |stack| ==> IsPath(g, stack[a], stack[|stack| - 1], links[a..])
  }

  /** The pushed vertices are exactly those coloured 2, each once. */
  ghost predicate Finished(used: seq<int>, res: seq<int>) {
    Distinct(res) &&
    (forall i :: 0 <= i < |res| ==> 0 <= res[i] < |used|) &&
    (forall v :: 0 <= v < |used| ==> (used[v] == 2 <==> v in res))
  }

  /** Every edge out of a finished vertex ends at a finished vertex pushed before it. */
  ghost predicate Ordered(g: Adj, used: seq<int>, res: seq<int>)
    requires |used| == |g|
  {
    forall v, i :: 0 <= v < |g| && 0 <= i < |g[v]| && used[v] == 2 ==>
      0 <= g[v][i].to < |g| && used[g[v][i].to] == 2 && Before(res, g[v][i].to, v)
  }

  ghost predicate SearchState(g: Adj, used: seq<int>, stack: seq<int>, links: seq<Edge>, res: seq<int>, notDag: bool) {
    ValidAdj(g) && |used| == |g| && Colours(used) && GraySet(used, stack) && StackPaths(g, stack, links) &&
    Finished(used, res) && (notDag ==> HasCycle(g)) && (!notDag ==> Ordered(g, used, res))
  }

  /** Colours only move forward: a coloured vertex keeps its colour. */
  ghost predicate Grows(a: seq<int>, b: seq<int>) {
    |a| == |b| && forall v :: 0 <= v < |a| && a[v] != 0 ==> b[v] == a[v]
  }

  // ---------------------------------------------------------------- search steps

  /** The edge `via` leads from the top of the stack to `k`. */
  ghost predicate Entered(g: Adj, stack: seq<int>, via: Edge, k: int) {
    stack != [] ==>
      0 <= stack[|stack| - 1] < |g| && via in g[stack[|stack| - 1]] && via.from == stack[|stack| - 1] && via.to == k
  }

  /** Meeting a vertex that is on the stack closes a cycle. */
  lemma BackEdgeCycle(g: Adj, used: seq<int>, stack: seq<int>, links: seq<Edge>, via: Edge, k: int)
    requires GraySet(used, stack) && StackPaths(g, stack, links) && 0 <= k < |used| && used[k] == 1
    requires Entered(g, stack, via, k)
    ensures HasCycle(g)
  {
    var a :| 0 <= a < |stack| && stack[a] == k;
    var top := stack[|stack| - 1];
    PathExtend(g, k, top, links[a..], via);
  }

  /** Pushing `k` on the stack through the edge `via`. */
  lemma PushStack(g: Adj, used: seq<int>, stack: seq<int>, links: seq<Edge>, via: Edge, k: int)
    requires GraySet(used, stack) && StackPaths(g, stack, links) && 0 <= k < |used| && used[k] == 0
    requires Entered(g, stack, via, k)
    ensures GraySet(used[k := 1], stack + [k])
    ensures StackPaths(g, stack + [k], if stack == [] then [] else links + [via])
  {
    var stack', links' := stack + [k], if stack == [] then [] else links + [via];
    forall a | 0 <= a < |stack'| ensures IsPath(g, stack'[a], k, links'[a..]) {
      if a == |stack| {
        assert links'[a..] == [];
      } else {
        assert links'[a..] == links[a..] + [via];
        PathExtend(g, stack[a], stack[|stack| - 1], links[a..], via);
      }
    }
  }

  /** Finishing `k`: it leaves the stack, turns 2 and is pushed. */
  lemma FinishVertex(g: Adj, used: seq<int>, stack: seq<int>, links: seq<Edge>, links': seq<Edge>,
                     res: seq<int>, notDag: bool, k: int)
    requires 0 <= k < |g| && k !in stack && StackPaths(g, stack, links)
    requires SearchState(g, used, stack + [k], links', res, notDag) && used[k] == 1
    requires !notDag ==> forall i :: 0 <= i < |g[k]| ==> used[g[k][i].to] == 2
    ensures SearchState(g, used[k := 2], stack, links, res + [k], notDag)
  {
    var used', res' := used[k := 2], res + [k];
    assert k !in res;
    forall v | 0 <= v < |used'| ensures used'[v] == 1 <==> v in stack {
      assert v in stack + [k] <==> v in stack || v == k;
    }
    forall a | 0 <= a < |stack| ensures 0 <= stack[a] < |used'| {
      assert (stack + [k])[a] == stack[a];
    }
    if !notDag {
      forall v, i | 0 <= v < |g| && 0 <= i < |g[v]| && used'[v] == 2
        ensures 0 <= g[v][i].to < |g| && used'[g[v][i].to] == 2 && Before(res', g[v][i].to, v)
      {
        var w := g[v][i].to;
        if v == k {
          var a :| 0 <= a < |res| && res[a] == w;
          assert res'[a] == w && res'[|res|] == k;
        } else {
          var a, b :| 0 <= a < b < |res| && res[a] == w && res[b] == v;
          assert res'[a] == w && res'[b] == v;
        }
      }
    }
  }

  // ---------------------------------------------------------------- the search

  /** The recursive `dfs(k)`, entered from the top of `stack` through `via`.
      It returns at once if a cycle was already met, flags a cycle when `k`
      is on the stack, returns when `k` is finished, and otherwise visits the
      targets of `k`'s edges, then finishes and pushes `k`. */
  method Dfs(g: Adj, used: array<int>, k: int, notDag: bool, res: seq<int>,
             ghost stack: seq<int>, ghost links: seq<Edge>, ghost via: Edge) returns (notDag': bool, res': seq<int>)
    requires 0 <= k < |g| && used.Length == |g| && SearchState(g, used[..], stack, links, res, notDag)
    requires Entered(g, stack, via, k)
    modifies used
    ensures SearchState(g, used[..], stack, links, res', notDag')
    ensures Grows(old(used[..]), used[..]) && (notDag ==> notDag')
    ensures !notDag' ==> used[k] == 2
    decreases Count(used[..], 0), 1
  {
    notDag', res' := notDag, res;
    if notDag {
      return;
    }
    if used[k] != 0 {
      if used[k] == 1 {
        BackEdgeCycle(g, used[..], stack, links, via, k);
        notDag' := true;
      }
      return;
    }
    ghost var entry := used[..];
    ghost var links' := if stack == [] then [] else links + [via];
    PushStack(g, used[..], stack, links, via, k);
    used[k] := 1;
    CountShrink(entry, used[..], k, 0);
    notDag', res' := Explore(g, used, k, notDag', res', stack + [k], links', Count(entry, 0));
    ghost var explored := used[..];
    FinishVertex(g, explored, stack, links, links', res', notDag', k);
    GrowsFinish(entry, explored, k);
    used[k] := 2;
    assert used[..] == explored[k := 2];
    res' := res' + [k];
  }

  lemma GrowsFinish(entry: seq<int>, explored: seq<int>, k: int)
    requires 0 <= k < |entry| && entry[k] == 0 && Grows(entry[k := 1], explored)
    ensures Grows(entry, explored[k := 2])
  {
    assert forall v :: 0 <= v < |entry| && v != k ==> entry[k := 1][v] == entry[v];
  }

  /** The edge loop of `dfs(k)`: `self(self, e.to)` for every edge stored at `k`,
      with `k` on top of the stack. */
  method Explore(g: Adj, used: array<int>, k: int, notDag: bool, res: seq<int>,
                 ghost stack: seq<int>, ghost links: seq<Edge>, ghost bound: nat) returns (notDag': bool, res': seq<int>)
    requires 0 <= k < |g| && used.Length == |g| && SearchState(g, used[..], stack, links, res, notDag)
    requires stack != [] && stack[|stack| - 1] == k && Count(used[..], 0) < bound
    modifies used
    ensures SearchState(g, used[..], stack, links, res', notDag')
    ensures Grows(old(used[..]), used[..]) && (notDag ==> notDag')
    ensures !notDag' ==> forall j :: 0 <= j < |g[k]| ==> used[g[k][j].to] == 2
    decreases bound, 0
  {
    notDag', res' := notDag, res;
    var i := 0;
    while i < |g[k]|
      invariant 0 <= i <= |g[k]|
      invariant SearchState(g, used[..], stack, links, res', notDag')
      invariant Grows(old(used[..]), used[..]) && (notDag ==> notDag') && Count(used[..], 0) < bound
      invariant !notDag' ==> forall j :: 0 <= j < i ==> used[g[k][j].to] == 2
    {
      var e := g[k][i];
      ghost var before := used[..];
      notDag', res' := Dfs(g, used, e.to, notDag', res', stack, links, e);
      CountNoMore(before, used[..], 0);
      i := i + 1;
    }
  }

  // ---------------------------------------------------------------- the drivers

  /** `topological_sort()`: `dfs(i)` for every vertex in turn; `{}` if a cycle
      was met, otherwise the finishing order reversed. The result is empty
      exactly when the graph has a cycle (or no vertex), and otherwise lists
      every vertex once with every edge pointing forward. */
  method TopologicalSort(g: Adj) returns (order: seq<int>)
    requires ValidAdj(g)
    ensures order == [] <==> HasCycle(g) || |g| == 0
    ensures order != [] ==> IsTopologicalOrder(g, order)
  {
    var n := |g|;
    var used := new int[n](_ => 0);
    var notDag := false;
    var res: seq<int> := [];
    var i := 0;
    while i < n
      invariant 0 <= i <= n && used.Length == n
      invariant SearchState(g, used[..], [], [], res, notDag)
      invariant !notDag ==> forall j :: 0 <= j < i ==> used[j] == 2
    {
      notDag, res := Dfs(g, used, i, notDag, res, [], [], Edge(0, 0, 0, 0));
      i := i + 1;
    }
    if notDag {
      return [];
    }
    order := Reversed(res);
    SortConclusion(g, used[..], res, order);
  }

  /** With every vertex finished and no cycle met, the reversed finishing order is topological. */
  lemma SortConclusion(g: Adj, used: seq<int>, res: seq<int>, order: seq<int>)
    requires SearchState(g, used, [], [], res, false) && (forall j :: 0 <= j < |g| ==> used[j] == 2)
    requires order == Reversed(res)
    ensures IsTopologicalOrder(g, order)
    ensures order == [] <==> |g| == 0
    ensures order != [] ==> !HasCycle(g)
  {
    DistinctVertices(res, |g|);
    DistinctElements(res);
    SubsetSize(Range(|g|), set x | x in res);
    forall a, b | 0 <= a < b < |order| ensures order[a] != order[b] {
      assert order[a] == res[|res| - 1 - a] && order[b] == res[|res| - 1 - b];
    }
    forall u, i | 0 <= u < |g| && 0 <= i < |g[u]| ensures Before(order, u, g[u][i].to) {
      var a, b :| 0 <= a < b < |res| && res[a] == g[u][i].to && res[b] == u;
      assert order[|res| - 1 - b] == u && order[|res| - 1 - a] == g[u][i].to;
    }
    if order != [] {
      OrderedAcyclic(g, order);
    }
  }

  /** `is_dag()`: whether `topological_sort()` is non-empty, so an empty graph
      counts as not acyclic. */
  method IsDag(g: Adj) returns (r: bool)
    requires ValidAdj(g)
    ensures r <==> |g| > 0 && !HasCycle(g)
  {
    var order := TopologicalSort(g);
    r := order != [];
  }
}
