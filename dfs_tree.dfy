/** `root_to_leaf` and `leaf_to_root` of graph/graph.hpp: a depth-first
    search from `root` that marks each vertex the first time an edge reaches
    it and records that edge in a new graph, directed away from the root
    (`root_to_leaf`) or towards it (`leaf_to_root`). */
module DfsTrees {
  import opened Graphs

  /** Marks are 0 or 1 and the root is marked. */
  ghost predicate Marks(chk: seq<int>, root: int) {
    0 <= root < |chk| && chk[root] == 1 &&
    forall v :: 0 <= v < |chk| ==> chk[v] == 0 || chk[v] == 1
  }

  /** `g` stores an edge from `u` to `w` of cost `c`. */
  ghost predicate Copies(g: Adj, u: int, w: int, c: int) {
    0 <= u < |g| && exists j :: 0 <= j < |g[u]| && g[u][j].to == w && g[u][j].cost == c
  }

  /** A recorded edge stored at `u`: it joins two marked vertices, does not
      enter the root and copies an edge of `g` from `from` to `to`. */
  ghost predicate TreeEdge(g: Adj, root: int, chk: seq<int>, from: int, to: int, c: int) {
    0 <= from < |chk| && 0 <= to < |chk| && chk[from] == 1 && chk[to] == 1 && Copies(g, from, to, c)
  }

  /** The `p.1`-th edge stored at `p.0` in `h` ends at `w`. */
  ghost predicate EntersAt(h: Adj, w: int, p: (int, int)) {
    0 <= p.0 < |h| && 0 <= p.1 < |h[p.0]| && h[p.0][p.1].to == w
  }

  /** The shape `root_to_leaf` builds over the marked vertices: every edge
      copies an edge of `g` between marked vertices and never enters the
      root, and every marked vertex `w` but the root is entered by exactly
      one edge, the one `par[w]` locates. */
  ghost predicate DownTree(g: Adj, root: int, chk: seq<int>, h: Adj, par: seq<(int, int)>)
    requires ValidAdj(h)
  {
    |par| == |h| &&
    (forall u, i :: 0 <= u < |h| && 0 <= i < |h[u]| ==>
      h[u][i].to != root && TreeEdge(g, root, chk, u, h[u][i].to, h[u][i].cost) && par[h[u][i].to] == (u, i)) &&
    (forall w :: 0 <= w < |h| && w < |chk| && chk[w] == 1 && w != root ==> EntersAt(h, w, par[w]))
  }

  /** The shape `leaf_to_root` builds: every marked vertex but the root
      stores exactly one edge, to a marked vertex, copying an edge of `g`
      that enters it; every other vertex stores none. */
  ghost predicate UpTree(g: Adj, root: int, chk: seq<int>, h: Adj)
    requires ValidAdj(h) && |h| == |chk|
  {
    forall w :: 0 <= w < |h| ==>
      if chk[w] == 1 && w != root then
        |h[w]| == 1 && TreeEdge(g, root, chk, h[w][0].to, w, h[w][0].cost)
      else h[w] == []
  }

  /** Every marked vertex is reachable from `root`. */
  ghost predicate MarkedReachable(g: Adj, root: int, chk: seq<int>) {
    forall v :: 0 <= v < |g| && v < |chk| && chk[v] == 1 ==> Reachable(g, root, v)
  }

  /** The search state: `chk` marks only vertices reachable from `root`, one
      more of them than `h` has edges, and `h` has the shape of the direction. */
  ghost predicate Tree(g: Adj, root: int, chk: seq<int>, h: Adj, next: nat, down: bool, par: seq<(int, int)>) {
    |chk| == |g| && |h| == |g| && ValidAdj(h) && Marks(chk, root) && Count(chk, 1) == next + 1 &&
    MarkedReachable(g, root, chk) &&
    if down then DownTree(g, root, chk, h, par) else UpTree(g, root, chk, h)
  }

  /** `num` numbers the marked vertices in marking order, the root 0 and the
      others 1 to `next`, and every recorded edge leads from a smaller number
      to a larger one (`root_to_leaf`) or from a larger to a smaller one
      (`leaf_to_root`). */
  ghost predicate Numbered(root: int, chk: seq<int>, h: Adj, next: int, down: bool, num: seq<int>) {
    |num| == |chk| && 0 <= root < |num| && num[root] == 0 &&
    (forall v :: 0 <= v < |chk| && chk[v] == 1 ==> 0 <= num[v] <= next) &&
    forall u, i :: 0 <= u < |h| && u < |num| && 0 <= i < |h[u]| && 0 <= h[u][i].to < |num| ==>
      if down then num[u] < num[h[u][i].to] else num[h[u][i].to] < num[u]
  }

  /** Every recorded edge joins two marked vertices. */
  ghost predicate EdgesMarked(chk: seq<int>, h: Adj) {
    forall u, i :: 0 <= u < |h| && 0 <= i < |h[u]| ==>
      0 <= u < |chk| && chk[u] == 1 && 0 <= h[u][i].to < |chk| && chk[h[u][i].to] == 1
  }

  /** Marks are never removed. */
  ghost predicate KeepsMarks(a: seq<int>, b: seq<int>) {
    |a| == |b| && forall v :: 0 <= v < |a| && a[v] == 1 ==> b[v] == 1
  }

  /** Every edge stored at `v` leads to a marked vertex. */
  ghost predicate Done(g: Adj, chk: seq<int>, v: int)
    requires ValidAdj(g) && |chk| == |g| && 0 <= v < |g|
  {
    forall j :: 0 <= j < |g[v]| ==> chk[g[v][j].to] == 1
  }

  /** Every vertex unmarked in `a` and marked in `b` is done in `b`. */
  ghost predicate NewlyDone(g: Adj, a: seq<int>, b: seq<int>)
    requires ValidAdj(g) && |a| == |b| == |g|
  {
    forall v :: 0 <= v < |g| && a[v] == 0 && b[v] == 1 ==> Done(g, b, v)
  }

  lemma ReachStep(g: Adj, root: int, now: int, k: int)
    requires ValidAdj(g) && 0 <= now < |g| && 0 <= k < |g[now]| && Reachable(g, root, now)
    ensures Reachable(g, root, g[now][k].to)
  {
    var p :| IsPath(g, root, now, p);
    PathExtend(g, root, now, p, g[now][k]);
  }

  lemma DownAdd(g: Adj, root: int, chk: seq<int>, h: Adj, h': Adj, par: seq<(int, int)>,
                now: int, w: int, c: int, id: int)
    requires ValidAdj(h) && |h| == |chk| && DownTree(g, root, chk, h, par)
    requires 0 <= now < |h| && chk[now] == 1 && 0 <= w < |h| && chk[w] == 0 && w != root && Copies(g, now, w, c)
    requires h' == h[now := h[now] + [Edge(now, w, c, id)]]
    ensures ValidAdj(h') && DownTree(g, root, chk[w := 1], h', par[w := (now, |h[now]|)])
  {
    var chk' := chk[w := 1];
    var par' := par[w := (now, |h[now]|)];
    forall u, i | 0 <= u < |h'| && 0 <= i < |h'[u]|
      ensures h'[u][i].to != root && TreeEdge(g, root, chk', u, h'[u][i].to, h'[u][i].cost) && par'[h'[u][i].to] == (u, i)
    {
      if u != now || i < |h[now]| {
        assert h'[u][i] == h[u][i];
      }
    }
    forall x | 0 <= x < |h'| && chk'[x] == 1 && x != root
      ensures EntersAt(h', x, par'[x])
    {
      if x != w {
        assert EntersAt(h, x, par[x]);
      }
    }
  }

  lemma UpAdd(g: Adj, root: int, chk: seq<int>, h: Adj, h': Adj, now: int, w: int, c: int, id: int)
    requires ValidAdj(h) && |h| == |chk| && UpTree(g, root, chk, h)
    requires 0 <= now < |h| && chk[now] == 1 && 0 <= w < |h| && chk[w] == 0 && w != root && Copies(g, now, w, c)
    requires h' == h[w := h[w] + [Edge(w, now, c, id)]]
    ensures ValidAdj(h') && UpTree(g, root, chk[w := 1], h')
  {
  }

  lemma MarkReachable(g: Adj, root: int, chk: seq<int>, now: int, k: int)
    requires ValidAdj(g) && |chk| == |g| && MarkedReachable(g, root, chk)
    requires 0 <= now < |g| && chk[now] == 1 && 0 <= k < |g[now]|
    ensures MarkedReachable(g, root, chk[g[now][k].to := 1])
  {
    ReachStep(g, root, now, k);
  }

  /** Marking the target of the `k`-th edge of `now` and recording it keeps the state. */
  lemma TreeAdd(g: Adj, root: int, chk: seq<int>, h: Adj, h': Adj, next: nat, down: bool, par: seq<(int, int)>,
                now: int, k: int)
    requires ValidAdj(g) && Tree(g, root, chk, h, next, down, par)
    requires 0 <= now < |g| && chk[now] == 1 && 0 <= k < |g[now]| && chk[g[now][k].to] == 0
    requires var e := g[now][k];
      h' == if down then h[now := h[now] + [Edge(now, e.to, e.cost, next)]]
            else h[e.to := h[e.to] + [Edge(e.to, now, e.cost, next)]]
    ensures Tree(g, root, chk[g[now][k].to := 1], h', next + 1, down,
                 if down then par[g[now][k].to := (now, |h[now]|)] else par)
  {
    var e := g[now][k];
    CountMark(chk, e.to, 1);
    MarkReachable(g, root, chk, now, k);
    assert Copies(g, now, e.to, e.cost);
    if down {
      DownAdd(g, root, chk, h, h', par, now, e.to, e.cost, next);
    } else {
      UpAdd(g, root, chk, h, h', now, e.to, e.cost, next);
    }
  }

  /** In either direction the search state only records edges between marked vertices. */
  lemma EdgesMarkedOf(g: Adj, root: int, chk: seq<int>, h: Adj, next: nat, down: bool, par: seq<(int, int)>)
    requires Tree(g, root, chk, h, next, down, par)
    ensures EdgesMarked(chk, h)
  {
    forall u, i | 0 <= u < |h| && 0 <= i < |h[u]|
      ensures 0 <= u < |chk| && chk[u] == 1 && 0 <= h[u][i].to < |chk| && chk[h[u][i].to] == 1
    {
      if down {
        assert TreeEdge(g, root, chk, u, h[u][i].to, h[u][i].cost);
      } else {
        assert chk[u] == 1 && u != root;
        assert TreeEdge(g, root, chk, h[u][0].to, u, h[u][0].cost);
      }
    }
  }

  /** Marking the target `w` of the `k`-th edge of `now` gives it the next
      number, larger than every earlier one, so the recorded edge rises
      from `now` to `w`. */
  lemma NumberAdd(g: Adj, chk: seq<int>, h: Adj, h': Adj, next: nat, down: bool, num: seq<int>, now: int, k: int,
                  root: int)
    requires ValidAdj(g) && |chk| == |g| && |h| == |g| && EdgesMarked(chk, h) && Numbered(root, chk, h, next, down, num)
    requires chk[root] == 1 && 0 <= now < |g| && chk[now] == 1 && 0 <= k < |g[now]| && chk[g[now][k].to] == 0
    requires var e := g[now][k];
      h' == if down then h[now := h[now] + [Edge(now, e.to, e.cost, next)]]
            else h[e.to := h[e.to] + [Edge(e.to, now, e.cost, next)]]
    ensures Numbered(root, chk[g[now][k].to := 1], h', next + 1, down, num[g[now][k].to := next + 1])
  {
    var w := g[now][k].to;
    var num' := num[w := next + 1];
    var at := if down then now else w;
    forall u, i | 0 <= u < |h'| && u < |num'| && 0 <= i < |h'[u]| && 0 <= h'[u][i].to < |num'|
      ensures if down then num'[u] < num'[h'[u][i].to] else num'[h'[u][i].to] < num'[u]
    {
      if u != at || i < |h[at]| {
        assert h'[u][i] == h[u][i];
        assert chk[u] == 1 && chk[h[u][i].to] == 1;
      }
    }
  }

  /** Marking the target of the `k`-th edge of `now` and recording it,
      stated on the new marks `chk'`, graph `h'`, edge counter `next'`,
      parent witness `par'` and numbering `num'`, keeps the state. */
  lemma Discover(g: Adj, root: int, chk: seq<int>, h: Adj, next: nat, down: bool, par: seq<(int, int)>, num: seq<int>,
                 now: int, k: int, chk': seq<int>, h': Adj, next': nat, par': seq<(int, int)>, num': seq<int>)
    requires ValidAdj(g) && Tree(g, root, chk, h, next, down, par) && Numbered(root, chk, h, next, down, num)
    requires 0 <= now < |g| && chk[now] == 1 && 0 <= k < |g[now]| && chk[g[now][k].to] == 0
    requires var e := g[now][k];
      h' == if down then h[now := h[now] + [Edge(now, e.to, e.cost, next)]]
            else h[e.to := h[e.to] + [Edge(e.to, now, e.cost, next)]]
    requires chk' == chk[g[now][k].to := 1] && next' == next + 1 && num' == num[g[now][k].to := next + 1]
    requires par' == if down then par[g[now][k].to := (now, |h[now]|)] else par
    ensures Tree(g, root, chk', h', next', down, par') && Numbered(root, chk', h', next', down, num')
  {
    TreeAdd(g, root, chk, h, h', next, down, par, now, k);
    EdgesMarkedOf(g, root, chk, h, next, down, par);
    NumberAdd(g, chk, h, h', next, down, num, now, k, root);
  }

  /** The recursive `dfs(now)`, called once `now` is marked. Every vertex it
      marks, and `now`, end with all their neighbours marked. */
  method Grow(g: Adj, chk: array<int>, res: Graph, now: int, down: bool, ghost root: int, ghost par: seq<(int, int)>,
              ghost num: seq<int>)
    returns (ghost par': seq<(int, int)>, ghost num': seq<int>)
    requires ValidAdj(g) && chk.Length == |g| && res.Valid() && 0 <= now < |g| && chk[now] == 1
    requires Tree(g, root, chk[..], res.edges, res.nextEdgeId, down, par)
    requires Numbered(root, chk[..], res.edges, res.nextEdgeId, down, num)
    modifies chk, res
    ensures res.Valid() && Tree(g, root, chk[..], res.edges, res.nextEdgeId, down, par')
    ensures Numbered(root, chk[..], res.edges, res.nextEdgeId, down, num')
    ensures KeepsMarks(old(chk[..]), chk[..]) && Done(g, chk[..], now)
    ensures NewlyDone(g, old(chk[..]), chk[..])
    decreases Count(chk[..], 0), 2
  {
    ghost var entry := chk[..];
    par', num' := par, num;
    var i := 0;
    while i < |g[now]|
      invariant 0 <= i <= |g[now]|
      invariant res.Valid() && Tree(g, root, chk[..], res.edges, res.nextEdgeId, down, par')
      invariant Numbered(root, chk[..], res.edges, res.nextEdgeId, down, num')
      invariant KeepsMarks(entry, chk[..]) && Count(chk[..], 0) <= Count(entry, 0)
      invariant DoneUpTo(g, chk[..], now, i)
      invariant NewlyDone(g, entry, chk[..])
    {
      ghost var before := chk[..];
      par', num' := Visit(g, chk, res, now, i, down, root, par', num', Count(entry, 0));
      KeepsDone(g, entry, before, chk[..]);
      DoneUpToStep(g, before, chk[..], now, i);
      i := i + 1;
    }
  }

  /** The first `i` edges of `now` lead to marked vertices. */
  ghost predicate DoneUpTo(g: Adj, chk: seq<int>, now: int, i: int)
    requires ValidAdj(g) && |chk| == |g| && 0 <= now < |g| && 0 <= i <= |g[now]|
  {
    forall j :: 0 <= j < i ==> chk[g[now][j].to] == 1
  }

  lemma DoneUpToStep(g: Adj, a: seq<int>, b: seq<int>, now: int, i: int)
    requires ValidAdj(g) && |a| == |g| && 0 <= now < |g| && 0 <= i < |g[now]|
    requires DoneUpTo(g, a, now, i) && KeepsMarks(a, b) && b[g[now][i].to] == 1
    ensures DoneUpTo(g, b, now, i + 1)
  {
  }

  /** Marks only grow, so a vertex done before stays done. */
  lemma KeepsDone(g: Adj, entry: seq<int>, a: seq<int>, b: seq<int>)
    requires ValidAdj(g) && |entry| == |a| == |b| == |g| && KeepsMarks(a, b)
    requires forall v :: 0 <= v < |a| ==> a[v] == 0 || a[v] == 1
    requires NewlyDone(g, entry, a) && NewlyDone(g, a, b)
    ensures NewlyDone(g, entry, b)
  {
    forall v | 0 <= v < |g| && entry[v] == 0 && b[v] == 1
      ensures Done(g, b, v)
    {
      if a[v] == 1 {
        assert Done(g, a, v);
      }
    }
  }

  /** `res.add_edge(now, w, cost, 1, 0)` for `root_to_leaf`, `res.add_edge(w, now, cost, 1, 0)` for `leaf_to_root`. */
  method Record(res: Graph, now: int, w: int, cost: int, down: bool) returns (id: nat)
    requires res.Valid() && 0 <= now < |res.edges| && 0 <= w < |res.edges|
    modifies res
    ensures res.Valid() && id == old(res.nextEdgeId) && res.nextEdgeId == id + 1
    ensures res.edges == if down then old(res.edges)[now := old(res.edges)[now] + [Edge(now, w, cost, id)]]
                         else old(res.edges)[w := old(res.edges)[w] + [Edge(w, now, cost, id)]]
  {
    if down {
      id := res.AddEdge(now, w, cost, true, 0);
    } else {
      id := res.AddEdge(w, now, cost, true, 0);
    }
  }

  /** Marking `w` and then finishing it and everything marked after it
      leaves every vertex marked since `a` done. */
  lemma MarkedThenDone(g: Adj, a: seq<int>, w: int, b: seq<int>)
    requires ValidAdj(g) && |a| == |b| == |g| && 0 <= w < |g|
    requires NewlyDone(g, a[w := 1], b) && Done(g, b, w)
    ensures NewlyDone(g, a, b)
  {
  }

  /** One step of the edge loop of `dfs(now)`: skip a marked target,
      otherwise mark it, record the edge and recurse into it. */
  method Visit(g: Adj, chk: array<int>, res: Graph, now: int, k: int, down: bool, ghost root: int,
               ghost par: seq<(int, int)>, ghost num: seq<int>, ghost bound: nat)
    returns (ghost par': seq<(int, int)>, ghost num': seq<int>)
    requires ValidAdj(g) && chk.Length == |g| && res.Valid() && 0 <= now < |g| && chk[now] == 1 && 0 <= k < |g[now]|
    requires Tree(g, root, chk[..], res.edges, res.nextEdgeId, down, par) && Count(chk[..], 0) <= bound
    requires Numbered(root, chk[..], res.edges, res.nextEdgeId, down, num)
    modifies chk, res
    ensures res.Valid() && Tree(g, root, chk[..], res.edges, res.nextEdgeId, down, par')
    ensures Numbered(root, chk[..], res.edges, res.nextEdgeId, down, num')
    ensures KeepsMarks(old(chk[..]), chk[..]) && Count(chk[..], 0) <= bound && chk[g[now][k].to] == 1
    ensures NewlyDone(g, old(chk[..]), chk[..])
    decreases bound, 1
  {
    var w := g[now][k].to;
    if chk[w] == 1 {
      return par, num;
    }
    ghost var before := chk[..];
    par', num' := Mark(g, chk, res, now, k, down, root, par, num);
    CountShrink(before, chk[..], w, 0);
    ghost var mid := chk[..];
    par', num' := Grow(g, chk, res, w, down, root, par', num');
    CountNoMore(mid, chk[..], 0);
    MarkedThenDone(g, before, w, chk[..]);
  }

  /** `chk[e.to] = 1` and the `add_edge` call for an unmarked target `e.to`:
      it gets the next number and the edge is recorded. */
  method Mark(g: Adj, chk: array<int>, res: Graph, now: int, k: int, down: bool, ghost root: int,
              ghost par: seq<(int, int)>, ghost num: seq<int>)
    returns (ghost par': seq<(int, int)>, ghost num': seq<int>)
    requires ValidAdj(g) && chk.Length == |g| && res.Valid() && 0 <= now < |g| && chk[now] == 1 && 0 <= k < |g[now]|
    requires Tree(g, root, chk[..], res.edges, res.nextEdgeId, down, par) && chk[g[now][k].to] == 0
    requires Numbered(root, chk[..], res.edges, res.nextEdgeId, down, num)
    modifies chk, res
    ensures res.Valid() && Tree(g, root, chk[..], res.edges, res.nextEdgeId, down, par')
    ensures Numbered(root, chk[..], res.edges, res.nextEdgeId, down, num')
    ensures chk[..] == old(chk[..])[g[now][k].to := 1] && 0 <= g[now][k].to < |g|
  {
    var e := g[now][k];
    ghost var before := chk[..];
    ghost var h := res.edges;
    chk[e.to] := 1;
    assert chk[..] == before[e.to := 1];
    var id := Record(res, now, e.to, e.cost, down);
    par' := if down then par[e.to := (now, |h[now]|)] else par;
    num' := num[e.to := id + 1];
    Discover(g, root, before, h, id, down, par, num, now, k, chk[..], res.edges, res.nextEdgeId, par', num');
  }

  /** The set of vertices reachable from `root`. */
  ghost function ReachableFrom(g: Adj, root: int): set<int> {
    set v | 0 <= v < |g| && Reachable(g, root, v)
  }

  /** The marks a finished search leaves: 1 on the vertices reachable from `root`, 0 elsewhere. */
  ghost function ReachMarks(g: Adj, root: int): (r: seq<int>)
    ensures |r| == |g|
    ensures forall v :: 0 <= v < |g| ==> (r[v] == 1 <==> Reachable(g, root, v)) && (r[v] == 0 <==> !Reachable(g, root, v))
  {
    seq(|g|, v => if 0 <= v < |g| && Reachable(g, root, v) then 1 else 0)
  }

  /** Before `dfs(root)`: only `root` is marked and the new graph has no edge. */
  lemma TreeStart(g: Adj, root: int, chk: seq<int>, h: Adj, down: bool, par: seq<(int, int)>)
    requires ValidAdj(g) && 0 <= root < |g| && chk == seq(|g|, _ => 0)[root := 1]
    requires |h| == |g| && (forall u :: 0 <= u < |g| ==> h[u] == []) && |par| == |g|
    ensures Tree(g, root, chk, h, 0, down, par)
  {
    CountMark(seq(|g|, _ => 0), root, 1);
    NoOnes(|g|);
    assert Reachable(g, root, root) by { assert IsPath(g, root, root, []); }
  }

  /** Before `dfs(root)`: the root has number 0 and there is no edge to number. */
  lemma NumberStart(g: Adj, root: int, chk: seq<int>, h: Adj, down: bool, num: seq<int>)
    requires 0 <= root < |g| && chk == seq(|g|, _ => 0)[root := 1] && num == seq(|g|, _ => 0)
    requires |h| == |g| && forall u :: 0 <= u < |g| ==> h[u] == []
    ensures Numbered(root, chk, h, 0, down, num)
  {
  }

  /** After `dfs(root)`: the marks are exactly the reachable vertices, one more than the recorded edges. */
  lemma TreeEnd(g: Adj, root: int, c0: seq<int>, chk: seq<int>, h: Adj, next: nat, down: bool, par: seq<(int, int)>)
    requires ValidAdj(g) && 0 <= root < |g| && c0 == seq(|g|, _ => 0)[root := 1]
    requires Tree(g, root, chk, h, next, down, par) && NewlyDone(g, c0, chk) && Done(g, chk, root)
    ensures chk == ReachMarks(g, root) && next + 1 == |ReachableFrom(g, root)|
  {
    forall v | 0 <= v < |g| && chk[v] == 1
      ensures Done(g, chk, v)
    {
      if v != root {
        assert c0[v] == 0;
      }
    }
    Closed(g, root, chk);
    assert chk == ReachMarks(g, root);
    CountPositions(chk, 1);
    assert Positions(chk, 1) == ReachableFrom(g, root);
  }

  /** The search shared by both functions: a new graph with `size()`
      vertices, only `root` marked, then `dfs(root)`. It marks exactly the
      vertices reachable from `root`, and records one edge fewer than those. */
  method Build(g: Adj, root: int, down: bool) returns (res: Graph, ghost par: seq<(int, int)>, ghost num: seq<int>)
    requires ValidAdj(g) && 0 <= root < |g|
    ensures fresh(res) && res.Valid()
    ensures Tree(g, root, ReachMarks(g, root), res.edges, res.nextEdgeId, down, par)
    ensures Numbered(root, ReachMarks(g, root), res.edges, res.nextEdgeId, down, num)
    ensures res.nextEdgeId + 1 == |ReachableFrom(g, root)|
  {
    res := new Graph(|g|);
    var chk := new int[|g|](_ => 0);
    chk[root] := 1;
    ghost var c0 := chk[..];
    assert c0 == seq(|g|, _ => 0)[root := 1];
    TreeStart(g, root, c0, res.edges, down, seq(|g|, _ => (0, 0)));
    NumberStart(g, root, c0, res.edges, down, seq(|g|, _ => 0));
    par, num := Grow(g, chk, res, root, down, root, seq(|g|, _ => (0, 0)), seq(|g|, _ => 0));
    TreeEnd(g, root, c0, chk[..], res.edges, res.nextEdgeId, down, par);
  }

  /** When the root and every marked vertex are done, the marks hold every reachable vertex. */
  lemma Closed(g: Adj, root: int, chk: seq<int>)
    requires ValidAdj(g) && |chk| == |g| && Marks(chk, root)
    requires forall v :: 0 <= v < |g| && chk[v] == 1 ==> Done(g, chk, v)
    ensures forall v :: 0 <= v < |g| && Reachable(g, root, v) ==> chk[v] == 1
  {
    var S := set v | 0 <= v < |g| && chk[v] == 1;
    forall v | 0 <= v < |g| && Reachable(g, root, v)
      ensures chk[v] == 1
    {
      var p :| IsPath(g, root, v, p);
      forall u, i | u in S && 0 <= u < |g| && 0 <= i < |g[u]|
        ensures g[u][i].to in S
      {
        assert Done(g, chk, u);
      }
      ClosedSetHoldsReachable(g, S, root, v, p);
    }
  }

  /** In the downward tree no two edges enter the same vertex, and every
      reachable vertex but the root is entered. */
  lemma DownTreeParents(g: Adj, root: int, h: Adj, par: seq<(int, int)>)
    requires ValidAdj(h) && |h| == |g| && DownTree(g, root, ReachMarks(g, root), h, par)
    ensures forall u, i, u', i' ::
      0 <= u < |h| && 0 <= i < |h[u]| && 0 <= u' < |h| && 0 <= i' < |h[u']| && h[u][i].to == h[u'][i'].to ==>
      u == u' && i == i'
    ensures forall w :: 0 <= w < |h| && w != root && Reachable(g, root, w) ==>
      exists u, i :: 0 <= u < |h| && 0 <= i < |h[u]| && h[u][i].to == w
  {
    forall w | 0 <= w < |h| && w != root && Reachable(g, root, w)
      ensures exists u, i :: 0 <= u < |h| && 0 <= i < |h[u]| && h[u][i].to == w
    {
      assert EntersAt(h, w, par[w]);
    }
  }

  /** Following entering edges backwards from a marked vertex lowers its
      number until the root: the root reaches it in the downward tree. */
  lemma {:induction false} DownReach(g: Adj, root: int, chk: seq<int>, h: Adj, par: seq<(int, int)>, next: int,
                                     num: seq<int>, w: int)
    requires ValidAdj(h) && |h| == |chk| && DownTree(g, root, chk, h, par) && Numbered(root, chk, h, next, true, num)
    requires 0 <= w < |h| && chk[w] == 1
    ensures Reachable(h, root, w)
    decreases num[w]
  {
    if w == root {
      assert IsPath(h, root, root, []);
    } else {
      var p := par[w];
      assert EntersAt(h, w, p);
      var u, e := p.0, h[p.0][p.1];
      assert TreeEdge(g, root, chk, u, w, e.cost);
      DownReach(g, root, chk, h, par, next, num, u);
      var q :| IsPath(h, root, u, q);
      PathExtend(h, root, u, q, e);
    }
  }

  /** Following the one stored edge of each marked vertex lowers its number
      until the root: every marked vertex reaches the root in the upward tree. */
  lemma {:induction false} UpReach(g: Adj, root: int, chk: seq<int>, h: Adj, next: int, num: seq<int>, w: int)
    requires ValidAdj(h) && |h| == |chk| && UpTree(g, root, chk, h) && Numbered(root, chk, h, next, false, num)
    requires 0 <= w < |h| && chk[w] == 1
    ensures Reachable(h, w, root)
    decreases num[w]
  {
    if w == root {
      assert IsPath(h, root, root, []);
    } else {
      var e := h[w][0];
      assert TreeEdge(g, root, chk, e.to, w, e.cost);
      UpReach(g, root, chk, h, next, num, e.to);
      var q :| IsPath(h, e.to, root, q);
      assert IsPath(h, w, w, []);
      PathExtend(h, w, w, [], e);
      assert [] + [e] == [e];
      PathJoin(h, w, e.to, root, [e], q);
    }
  }

  /** A walk of at least one edge in the built graph ends at a marked vertex,
      as every recorded edge joins two marked vertices. */
  lemma WalkEndsMarked(chk: seq<int>, h: Adj, s: int, w: int, p: seq<Edge>)
    requires EdgesMarked(chk, h) && IsPath(h, s, w, p) && p != []
    ensures 0 <= w < |chk| && chk[w] == 1
  {
    var e := p[|p| - 1];
    var i :| 0 <= i < |h[e.from]| && h[e.from][i] == e;
  }

  /** `root_to_leaf(root)`: the depth-first tree of the vertices reachable
      from `root`, each edge directed away from the root. Every edge copies
      an edge of the graph between reachable vertices, and each reachable
      vertex but the root is entered by exactly one edge. The ghost `num`
      is the order of discovery: every edge leads to a later-discovered
      vertex, so the edges form a tree rooted at `root`, and the vertices
      it reaches are exactly those the graph reaches from `root`. */
  method RootToLeaf(g: Adj, root: int) returns (res: Graph, ghost num: seq<int>)
    requires ValidAdj(g) && 0 <= root < |g|
    ensures fresh(res) && res.Valid() && |res.edges| == |g|
    ensures res.EdgeCount() + 1 == |ReachableFrom(g, root)|
    ensures forall u, i :: 0 <= u < |g| && 0 <= i < |res.edges[u]| ==>
      res.edges[u][i].to != root && TreeEdge(g, root, ReachMarks(g, root), u, res.edges[u][i].to, res.edges[u][i].cost)
    ensures forall u, i, u', i' ::
      0 <= u < |g| && 0 <= i < |res.edges[u]| && 0 <= u' < |g| && 0 <= i' < |res.edges[u']| &&
      res.edges[u][i].to == res.edges[u'][i'].to ==>
      u == u' && i == i'
    ensures forall w :: 0 <= w < |g| && w != root && Reachable(g, root, w) ==>
      exists u, i :: 0 <= u < |g| && 0 <= i < |res.edges[u]| && res.edges[u][i].to == w
    ensures |num| == |g| && num[root] == 0
    ensures forall u, i :: 0 <= u < |g| && 0 <= i < |res.edges[u]| ==> num[u] < num[res.edges[u][i].to]
    ensures forall w :: 0 <= w < |g| ==> (Reachable(res.edges, root, w) <==> Reachable(g, root, w))
  {
    ghost var par;
    res, par, num := Build(g, root, true);
    DownTreeParents(g, root, res.edges, par);
    EdgesMarkedOf(g, root, ReachMarks(g, root), res.edges, res.nextEdgeId, true, par);
    forall w | 0 <= w < |g|
      ensures Reachable(res.edges, root, w) <==> Reachable(g, root, w)
    {
      if Reachable(g, root, w) {
        DownReach(g, root, ReachMarks(g, root), res.edges, par, res.nextEdgeId, num, w);
      }
      if Reachable(res.edges, root, w) && w != root {
        var p :| IsPath(res.edges, root, w, p);
        WalkEndsMarked(ReachMarks(g, root), res.edges, root, w, p);
      }
    }
  }

  /** `leaf_to_root(root)`: the same tree with every edge directed towards
      the root, so each reachable vertex but the root stores exactly the one
      edge to its parent, and every other vertex stores none. The parent
      was discovered earlier (the ghost `num`), so following these edges
      from any reachable vertex ends at the root. */
  method LeafToRoot(g: Adj, root: int) returns (res: Graph, ghost num: seq<int>)
    requires ValidAdj(g) && 0 <= root < |g|
    ensures fresh(res) && res.Valid() && |res.edges| == |g|
    ensures res.EdgeCount() + 1 == |ReachableFrom(g, root)|
    ensures forall w :: 0 <= w < |g| ==>
      if w != root && Reachable(g, root, w) then
        |res.edges[w]| == 1 && TreeEdge(g, root, ReachMarks(g, root), res.edges[w][0].to, w, res.edges[w][0].cost)
      else res.edges[w] == []
    ensures |num| == |g| && num[root] == 0
    ensures forall w :: 0 <= w < |g| && |res.edges[w]| == 1 ==> num[res.edges[w][0].to] < num[w]
    ensures forall w :: 0 <= w < |g| && Reachable(g, root, w) ==> Reachable(res.edges, w, root)
  {
    ghost var par;
    res, par, num := Build(g, root, false);
    forall w | 0 <= w < |g| && Reachable(g, root, w)
      ensures Reachable(res.edges, w, root)
    {
      UpReach(g, root, ReachMarks(g, root), res.edges, res.nextEdgeId, num, w);
    }
  }
}
