/** `bridges_and_articulations` of graph/graph.hpp: the low-link depth-first
    search. Each vertex gets `order` (its discovery number) and `low`; a tree
    edge to a child `c` is a bridge when `order[now] < low[c]`, and a vertex
    is an articulation point when some child has `order[now] <= low[c]`,
    except a search root with fewer than two tree children. The search tree
    is recorded in a ghost parent sequence `tp` (-1 for the roots of the
    search), the discovery order in a ghost sequence `visit`, and the
    vertices whose search has finished in a ghost set. */
module LowLinkFacts {
  import opened Graphs

  /** `std::minmax(a, b)`. */
  function MinMax(a: int, b: int): (r: (int, int))
    ensures r.0 <= r.1 && (r == (a, b) || r == (b, a))
  {
    if b < a then (b, a) else (a, b)
  }

  function Min(a: int, b: int): (r: int)
    ensures r <= a && r <= b && (r == a || r == b)
  {
    if b < a then b else a
  }

  ghost predicate HasEdge(g: Adj, u: int, v: int)
    requires 0 <= u < |g|
  {
    exists i :: 0 <= i < |g[u]| && g[u][i].to == v
  }

  ghost predicate Sized(g: Adj, ord: seq<int>, low: seq<int>, tp: seq<int>) {
    |ord| == |g| && |low| == |g| && |tp| == |g|
  }

  // ---------------------------------------------------------------- the search tree and numbering

  /** `visit` lists the numbered vertices by their `ord` value; -1 means not yet numbered. */
  ghost predicate Numbered(ord: seq<int>, visit: seq<int>) {
    (forall k :: 0 <= k < |visit| ==> 0 <= visit[k] < |ord| && ord[visit[k]] == k) &&
    (forall v :: 0 <= v < |ord| && ord[v] != -1 ==> 0 <= ord[v] < |visit|) &&
    (forall v {:trigger visit[ord[v]]} :: 0 <= v < |ord| && ord[v] != -1 ==> visit[ord[v]] == v)
  }

  /** `u` is the tree parent of `v`: `u -> v` is stored and `u` was numbered first. */
  ghost predicate TreeEdge(g: Adj, ord: seq<int>, u: int, v: int)
    requires |ord| == |g| && 0 <= v < |g|
  {
    0 <= u < |g| && 0 <= ord[u] < ord[v] && HasEdge(g, u, v)
  }

  /** Unnumbered vertices have no parent; every other parent is a tree edge. */
  ghost predicate Tree(g: Adj, ord: seq<int>, tp: seq<int>) {
    |ord| == |g| && |tp| == |g| &&
    forall v {:trigger tp[v]} :: 0 <= v < |g| ==> (ord[v] == -1 ==> tp[v] == -1) && (tp[v] != -1 ==> TreeEdge(g, ord, tp[v], v))
  }

  /** A search root `r` was started after every smaller vertex was numbered,
      and no edge enters it from a vertex numbered before it. */
  ghost predicate RootStart(g: Adj, ord: seq<int>, r: int)
    requires |ord| == |g| && 0 <= r < |g|
  {
    (forall u :: 0 <= u < r ==> 0 <= ord[u] < ord[r]) &&
    (forall u, i :: 0 <= u < |g| && 0 <= i < |g[u]| && g[u][i].to == r && ord[u] != -1 ==> ord[r] <= ord[u])
  }

  ghost predicate Roots(g: Adj, ord: seq<int>, tp: seq<int>)
    requires |ord| == |g| && |tp| == |g|
  {
    forall r :: 0 <= r < |g| && ord[r] != -1 && tp[r] == -1 ==> RootStart(g, ord, r)
  }

  /** The tree children of `u`. */
  ghost function Kids(tp: seq<int>, u: int): set<int> {
    set c | 0 <= c < |tp| && tp[c] == u
  }

  /** `x` lies in the search subtree of `u`: `x` is `u`, or its tree parent
      was numbered before it and lies in that subtree. */
  ghost predicate Below(ord: seq<int>, tp: seq<int>, u: int, x: int)
    decreases if 0 <= x < |ord| then ord[x] else 0
  {
    x == u ||
    (0 <= x < |tp| && x < |ord| && 0 <= tp[x] < |ord| && 0 <= ord[tp[x]] < ord[x] && Below(ord, tp, u, tp[x]))
  }

  /** Every entry among the first `k` of `v`'s list that leads to a vertex
      numbered after `v` leads into the subtree of `v`. */
  ghost predicate Forward(g: Adj, ord: seq<int>, tp: seq<int>, v: int, k: int)
    requires |ord| == |g| && 0 <= v < |g| && 0 <= k <= |g[v]|
  {
    forall i {:trigger Below(ord, tp, v, g[v][i].to)} ::
      0 <= i < k && 0 <= g[v][i].to < |g| && ord[v] < ord[g[v][i].to] ==> Below(ord, tp, v, g[v][i].to)
  }

  /** Every vertex numbered after `now` lies in its subtree. */
  ghost predicate Subtree(ord: seq<int>, tp: seq<int>, now: int)
    requires 0 <= now < |ord|
  {
    forall v {:trigger Below(ord, tp, now, v)} :: 0 <= v < |ord| && ord[now] < ord[v] ==> Below(ord, tp, now, v)
  }

  // ---------------------------------------------------------------- low-link values

  /** Entry `i` of `v`'s list is a back edge: it does not lead to `v`'s
      parent and leads to a vertex numbered before `v`. */
  ghost predicate Back(g: Adj, ord: seq<int>, tp: seq<int>, v: int, i: int)
    requires |ord| == |g| && |tp| == |g| && 0 <= v < |g| && 0 <= i < |g[v]|
  {
    var x := g[v][i].to;
    x != tp[v] && 0 <= x < |g| && 0 <= ord[x] < ord[v]
  }

  /** `low[v]` is at most `ord[v]`, the `low` of every child and the `ord`
      of every back edge among the first `k` entries of `v`'s list. */
  ghost predicate LowBelow(g: Adj, ord: seq<int>, low: seq<int>, tp: seq<int>, v: int, k: int)
    requires Sized(g, ord, low, tp) && 0 <= v < |g| && 0 <= k <= |g[v]|
  {
    low[v] <= ord[v] &&
    (forall c :: 0 <= c < |g| && tp[c] == v ==> low[v] <= low[c]) &&
    (forall i :: 0 <= i < k && Back(g, ord, tp, v, i) ==> low[v] <= ord[g[v][i].to])
  }

  /** `low[v]` is one of those values. */
  ghost predicate LowAttained(g: Adj, ord: seq<int>, low: seq<int>, tp: seq<int>, v: int, k: int)
    requires Sized(g, ord, low, tp) && 0 <= v < |g| && 0 <= k <= |g[v]|
  {
    low[v] == ord[v] ||
    (exists c :: 0 <= c < |g| && tp[c] == v && low[v] == low[c]) ||
    (exists i :: 0 <= i < k && Back(g, ord, tp, v, i) && low[v] == ord[g[v][i].to])
  }

  /** Every entry of `v`'s list among the first `k` leads to a numbered vertex. */
  ghost predicate Seen(g: Adj, ord: seq<int>, v: int, k: int)
    requires |ord| == |g| && 0 <= v < |g| && 0 <= k <= |g[v]|
  {
    forall i :: 0 <= i < k ==> 0 <= g[v][i].to < |g| && ord[g[v][i].to] != -1
  }

  /** What holds of a vertex whose search has finished: every neighbour is
      numbered and `low[v]` is the least of `ord[v]`, its children's `low`
      and its back edges' `ord`. */
  ghost predicate Settled(g: Adj, ord: seq<int>, low: seq<int>, tp: seq<int>, v: int)
    requires Sized(g, ord, low, tp) && 0 <= v < |g|
  {
    0 <= low[v] && Seen(g, ord, v, |g[v]|) &&
    LowBelow(g, ord, low, tp, v, |g[v]|) && LowAttained(g, ord, low, tp, v, |g[v]|)
  }

  /** The vertices of `X` are numbered and settled, and their children are in `X` too. */
  ghost predicate Finished(g: Adj, ord: seq<int>, low: seq<int>, tp: seq<int>, X: set<int>)
    requires Sized(g, ord, low, tp)
  {
    forall v {:trigger v in X} :: v in X ==> 0 <= v < |g| && ord[v] != -1 && Settled(g, ord, low, tp, v) && Forward(g, ord, tp, v, |g[v]|)
  }

  // ---------------------------------------------------------------- bridges and articulation points

  /** The tree edge into `v` is a bridge: `ord[parent] < low[v]`. */
  ghost predicate BridgeChild(ord: seq<int>, low: seq<int>, tp: seq<int>, v: int)
    requires |low| == |ord| && |tp| == |ord| && 0 <= v < |ord|
  {
    tp[v] != -1 && 0 <= tp[v] < |ord| && ord[tp[v]] < low[v]
  }

  /** `bridges` holds the tree edges into the vertices of `B` that are bridges, as ordered pairs. */
  ghost predicate Bridged(ord: seq<int>, low: seq<int>, tp: seq<int>, B: set<int>, bridges: seq<(int, int)>)
    requires |low| == |ord| && |tp| == |ord|
  {
    forall p :: p in bridges <==> exists v :: v in B && 0 <= v < |ord| && BridgeChild(ord, low, tp, v) && p == MinMax(tp[v], v)
  }

  /** Some child has `ord[u] <= low[c]`, and a root needs at least two children. */
  ghost predicate Articulation(ord: seq<int>, low: seq<int>, tp: seq<int>, u: int)
    requires |low| == |ord| && |tp| == |ord| && 0 <= u < |ord|
  {
    (exists c :: 0 <= c < |ord| && tp[c] == u && ord[u] <= low[c]) &&
    (tp[u] != -1 || |Kids(tp, u)| >= 2)
  }

  /** `arts` lists the articulation points among `X`, each once. */
  ghost predicate Arted(ord: seq<int>, low: seq<int>, tp: seq<int>, X: set<int>, arts: seq<int>)
    requires |low| == |ord| && |tp| == |ord|
  {
    Distinct(arts) &&
    forall u :: u in arts <==> u in X && 0 <= u < |ord| && Articulation(ord, low, tp, u)
  }

  // ---------------------------------------------------------------- search state

  ghost predicate Inv(g: Adj, ord: seq<int>, low: seq<int>, tp: seq<int>, visit: seq<int>, X: set<int>, arts: seq<int>) {
    ValidAdj(g) && Sized(g, ord, low, tp) &&
    Numbered(ord, visit) && Tree(g, ord, tp) && Roots(g, ord, tp) &&
    Finished(g, ord, low, tp, X) && Arted(ord, low, tp, X, arts)
  }

  /** The loop at `now` after the first `k` entries of its list. */
  ghost predicate ScanInv(g: Adj, ord: seq<int>, low: seq<int>, tp: seq<int>, X: set<int>,
                          now: int, k: int, cnt: int, isArt: bool)
    requires Sized(g, ord, low, tp)
  {
    0 <= now < |g| && 0 <= k <= |g[now]| && ord[now] != -1 &&
    tp[now] !in X && cnt == |Kids(tp, now)| &&
    Seen(g, ord, now, k) && Forward(g, ord, tp, now, k) && 0 <= low[now] &&
    LowBelow(g, ord, low, tp, now, k) && LowAttained(g, ord, low, tp, now, k) &&
    (isArt <==> exists c :: 0 <= c < |g| && tp[c] == now && ord[now] <= low[c])
  }

  /** From state 0 to state 1: numbered vertices keep `ord` and parent,
      and `low` except at `now`; newly numbered ones are numbered from
      `next0` on and hang from `now` or from another new vertex. */
  ghost predicate Keeps(o0: seq<int>, l0: seq<int>, t0: seq<int>, o1: seq<int>, l1: seq<int>, t1: seq<int>,
                        next0: int, now: int) {
    |o1| == |o0| && |l0| == |o0| && |l1| == |o0| && |t0| == |o0| && |t1| == |o0| &&
    forall v {:trigger o1[v]} {:trigger t1[v]} :: 0 <= v < |o0| ==>
      (o0[v] != -1 ==> o1[v] == o0[v] && t1[v] == t0[v] && (v != now ==> l1[v] == l0[v])) &&
      (o0[v] == -1 && o1[v] != -1 ==>
        next0 <= o1[v] && (v == now || (0 <= t1[v] < |o0| && (t1[v] == now || o0[t1[v]] == -1))))
  }

  /** Two states agree on everything the facts about the finished set `X` read. */
  ghost predicate Agree(o0: seq<int>, l0: seq<int>, t0: seq<int>, o1: seq<int>, l1: seq<int>, t1: seq<int>, X: set<int>) {
    |o1| == |o0| && |l0| == |o0| && |l1| == |o0| && |t0| == |o0| && |t1| == |o0| &&
    forall v :: 0 <= v < |o0| ==>
      (o0[v] != -1 ==> o1[v] == o0[v] && t1[v] == t0[v]) &&
      (v in X || t0[v] in X ==> l1[v] == l0[v]) &&
      (o0[v] == -1 ==> t1[v] !in X)
  }

  /** The vertices numbered between state 0 and state 1. */
  ghost function New(o0: seq<int>, o1: seq<int>): set<int> {
    set v | 0 <= v < |o0| && v < |o1| && o0[v] == -1 && o1[v] != -1
  }

  // ---------------------------------------------------------------- contracts of the search

  /** What `dfs(now, par)` is called in: `next` is the next number to hand
      out; a search root is the least unnumbered vertex and every numbered
      vertex is finished; any other parent is numbered, unfinished and has
      an edge to `now`. */
  ghost predicate Entering(g: Adj, ord: seq<int>, low: seq<int>, tp: seq<int>, visit: seq<int>, X: set<int>,
                           arts: seq<int>, bridges: seq<(int, int)>, next: int, now: int, par: int) {
    Inv(g, ord, low, tp, visit, X, arts) && Bridged(ord, low, tp, X, bridges) && next == |visit| &&
    0 <= now < |g| && ord[now] == -1 &&
    (par == -1 ==> (forall v :: 0 <= v < |g| && ord[v] != -1 ==> v in X) && (forall u :: 0 <= u < now ==> ord[u] != -1)) &&
    (par != -1 ==> 0 <= par < |g| && ord[par] != -1 && par !in X && HasEdge(g, par, now))
  }

  /** The edge loop of `dfs(now, par)` after the first `k` entries, from
      the state (`o0`, `l0`, `t0`, `X0`, `next0`) the loop began in. */
  ghost predicate Scanning(g: Adj, o0: seq<int>, l0: seq<int>, t0: seq<int>, X0: set<int>, next0: int,
                           ord: seq<int>, low: seq<int>, tp: seq<int>, visit: seq<int>, X: set<int>,
                           arts: seq<int>, bridges: seq<(int, int)>, next: int,
                           now: int, par: int, k: int, cnt: int, isArt: bool) {
    Inv(g, ord, low, tp, visit, X, arts) && Bridged(ord, low, tp, X, bridges) &&
    next == |visit| && next0 <= next && 0 <= now < |g| && now !in X && tp[now] == par &&
    ScanInv(g, ord, low, tp, X, now, k, cnt, isArt) && Subtree(ord, tp, now) &&
    Keeps(o0, l0, t0, ord, low, tp, next0, now) && X == X0 + New(o0, ord)
  }

  /** What `dfs(now, par)` leaves behind, from the state it was called in:
      `now` is numbered `next0`, finished and hangs from `par`; every vertex
      it numbered is finished and lies in its subtree; the bridges into
      finished vertices other than `now` are reported. */
  ghost predicate Searched(g: Adj, o0: seq<int>, l0: seq<int>, t0: seq<int>, X0: set<int>, next0: int,
                           ord: seq<int>, low: seq<int>, tp: seq<int>, visit: seq<int>, X: set<int>,
                           arts: seq<int>, bridges: seq<(int, int)>, next: int, now: int, par: int) {
    Inv(g, ord, low, tp, visit, X, arts) && Bridged(ord, low, tp, X - {now}, bridges) &&
    next == |visit| && next0 < next && 0 <= now < |g| && 0 <= next0 && ord[now] == next0 && tp[now] == par && now in X &&
    Subtree(ord, tp, now) && Keeps(o0, l0, t0, ord, low, tp, next0, now) && X == X0 + New(o0, ord)
  }

  // ---------------------------------------------------------------- frame lemmas

  /** The subtree of a child lies in the subtree of its parent. */
  lemma {:induction false} BelowParent(ord: seq<int>, tp: seq<int>, c: int, x: int)
    requires 0 <= c < |tp| && c < |ord| && 0 <= tp[c] < |ord| && 0 <= ord[tp[c]] < ord[c] && Below(ord, tp, c, x)
    ensures Below(ord, tp, tp[c], x)
    decreases if 0 <= x < |ord| then ord[x] else 0
  {
    if x != c {
      BelowParent(ord, tp, c, tp[x]);
    }
  }

  /** A later state that keeps the numbers and parents of the numbered
      vertices keeps the subtree of each of them. */
  lemma {:induction false} BelowStable(o0: seq<int>, t0: seq<int>, o1: seq<int>, t1: seq<int>, u: int, x: int)
    requires |o1| == |o0| && |t0| == |o0| && |t1| == |o0|
    requires forall v :: 0 <= v < |o0| && o0[v] != -1 ==> o1[v] == o0[v] && t1[v] == t0[v]
    requires 0 <= x < |o0| && o0[x] != -1 && Below(o0, t0, u, x)
    ensures Below(o1, t1, u, x)
    decreases o0[x]
  {
    if x != u {
      BelowStable(o0, t0, o1, t1, u, t0[x]);
    }
  }

  /** `Forward` of a vertex whose first `k` entries lead to numbered vertices
      survives a change that keeps the numbers and parents of numbered vertices. */
  lemma ForwardAgree(g: Adj, o0: seq<int>, t0: seq<int>, o1: seq<int>, t1: seq<int>, v: int, k: int)
    requires |o0| == |g| && |o1| == |o0| && |t0| == |o0| && |t1| == |o0|
    requires forall x :: 0 <= x < |o0| && o0[x] != -1 ==> o1[x] == o0[x] && t1[x] == t0[x]
    requires 0 <= v < |g| && o0[v] != -1 && 0 <= k <= |g[v]| && Seen(g, o0, v, k) && Forward(g, o0, t0, v, k)
    ensures Forward(g, o1, t1, v, k)
  {
    forall i | 0 <= i < k && 0 <= g[v][i].to < |g| && o1[v] < o1[g[v][i].to]
      ensures Below(o1, t1, v, g[v][i].to)
    {
      BelowStable(o0, t0, o1, t1, v, g[v][i].to);
    }
  }

  lemma KidsAgree(g: Adj, o0: seq<int>, l0: seq<int>, t0: seq<int>, o1: seq<int>, l1: seq<int>, t1: seq<int>, X: set<int>, u: int)
    requires Sized(g, o0, l0, t0) && Agree(o0, l0, t0, o1, l1, t1, X) && u in X && 0 <= u && Tree(g, o0, t0)
    ensures Kids(t1, u) == Kids(t0, u)
  {
    forall c | 0 <= c < |g| ensures t1[c] == u <==> t0[c] == u {
    }
  }

  lemma SettledAgree(g: Adj, o0: seq<int>, l0: seq<int>, t0: seq<int>, o1: seq<int>, l1: seq<int>, t1: seq<int>, X: set<int>, v: int)
    requires Sized(g, o0, l0, t0) && Agree(o0, l0, t0, o1, l1, t1, X) && Tree(g, o0, t0)
    requires Finished(g, o0, l0, t0, X) && v in X
    ensures Settled(g, o1, l1, t1, v)
  {
    var n := |g[v]|;
    forall i | 0 <= i < n
      ensures Back(g, o1, t1, v, i) <==> Back(g, o0, t0, v, i)
      ensures 0 <= g[v][i].to < |g| && o1[g[v][i].to] == o0[g[v][i].to] != -1
    {
    }
    forall c | 0 <= c < |g| && t1[c] == v
      ensures t0[c] == v && l1[c] == l0[c]
    {
    }
    if l0[v] != o0[v] {
      if c :| 0 <= c < |g| && t0[c] == v && l0[v] == l0[c] {
        assert t1[c] == v && l1[v] == l1[c];
      } else {
        var i :| 0 <= i < n && Back(g, o0, t0, v, i) && l0[v] == o0[g[v][i].to];
        assert Back(g, o1, t1, v, i) && l1[v] == o1[g[v][i].to];
      }
    }
  }

  lemma ArticulationAgree(g: Adj, o0: seq<int>, l0: seq<int>, t0: seq<int>, o1: seq<int>, l1: seq<int>, t1: seq<int>, X: set<int>, u: int)
    requires Sized(g, o0, l0, t0) && Agree(o0, l0, t0, o1, l1, t1, X) && Tree(g, o0, t0)
    requires Finished(g, o0, l0, t0, X) && u in X
    ensures Articulation(o1, l1, t1, u) <==> Articulation(o0, l0, t0, u)
  {
    KidsAgree(g, o0, l0, t0, o1, l1, t1, X, u);
    forall c | 0 <= c < |g|
      ensures t1[c] == u <==> t0[c] == u
      ensures t1[c] == u ==> l1[c] == l0[c]
    {
    }
  }

  /** The facts about `X`, the articulation list and the bridge list survive
      any change the two states agree on. */
  lemma Stable(g: Adj, o0: seq<int>, l0: seq<int>, t0: seq<int>, o1: seq<int>, l1: seq<int>, t1: seq<int>,
               X: set<int>, B: set<int>, arts: seq<int>, bridges: seq<(int, int)>)
    requires Sized(g, o0, l0, t0) && Tree(g, o0, t0) && Agree(o0, l0, t0, o1, l1, t1, X)
    requires Finished(g, o0, l0, t0, X) && Arted(o0, l0, t0, X, arts) && Bridged(o0, l0, t0, B, bridges) && B <= X
    ensures Finished(g, o1, l1, t1, X) && Arted(o1, l1, t1, X, arts) && Bridged(o1, l1, t1, B, bridges)
  {
    forall v | v in X ensures Settled(g, o1, l1, t1, v) && Forward(g, o1, t1, v, |g[v]|) {
      SettledAgree(g, o0, l0, t0, o1, l1, t1, X, v);
      ForwardAgree(g, o0, t0, o1, t1, v, |g[v]|);
    }
    forall u | u in X ensures Articulation(o1, l1, t1, u) <==> Articulation(o0, l0, t0, u) {
      ArticulationAgree(g, o0, l0, t0, o1, l1, t1, X, u);
    }
    forall v | v in B
      ensures BridgeChild(o1, l1, t1, v) <==> BridgeChild(o0, l0, t0, v)
      ensures t1[v] == t0[v]
    {
    }
  }

  lemma KeepsTrans(o0: seq<int>, l0: seq<int>, t0: seq<int>, o1: seq<int>, l1: seq<int>, t1: seq<int>,
                   o2: seq<int>, l2: seq<int>, t2: seq<int>, n0: int, n1: int, now: int)
    requires Keeps(o0, l0, t0, o1, l1, t1, n0, now) && Keeps(o1, l1, t1, o2, l2, t2, n1, now) && n0 <= n1
    ensures Keeps(o0, l0, t0, o2, l2, t2, n0, now)
    ensures New(o0, o2) == New(o0, o1) + New(o1, o2)
  {
    forall v | 0 <= v < |o0| && o0[v] != -1 ensures o1[v] != -1 {
    }
  }

  /** After the search below a child `nxt` of `now` and the update of `low[now]`. */
  lemma KeepsChild(o0: seq<int>, l0: seq<int>, t0: seq<int>, o1: seq<int>, l1: seq<int>, t1: seq<int>,
                   l2: seq<int>, next: int, now: int, nxt: int)
    requires Keeps(o0, l0, t0, o1, l1, t1, next, nxt) && 0 <= now < |o0| && o0[now] != -1
    requires 0 <= nxt < |o0| && o0[nxt] == -1 && t1[nxt] == now
    requires |l2| == |l1| && forall v :: 0 <= v < |l1| && v != now ==> l2[v] == l1[v]
    ensures Keeps(o0, l0, t0, o1, l2, t1, next, now)
  {
    forall v | 0 <= v < |o0|
      ensures o0[v] != -1 ==> o1[v] == o0[v] && t1[v] == t0[v] && (v != now ==> l2[v] == l0[v])
      ensures o0[v] == -1 && o1[v] != -1 ==>
        next <= o1[v] && (v == now || (0 <= t1[v] < |o0| && (t1[v] == now || o0[t1[v]] == -1)))
    {
      if o0[v] == -1 && o1[v] != -1 && v != nxt {
        assert 0 <= t1[v] < |o0| && (t1[v] == nxt || o0[t1[v]] == -1);
      }
    }
  }

  // ---------------------------------------------------------------- search steps

  /** Numbering `now` and making `par` its parent: the state before its list is scanned. */
  lemma Number(g: Adj, o0: seq<int>, l0: seq<int>, t0: seq<int>, visit: seq<int>, X: set<int>,
               arts: seq<int>, bridges: seq<(int, int)>, now: int, par: int)
    requires Entering(g, o0, l0, t0, visit, X, arts, bridges, |visit|, now, par)
    ensures var o1, l1, t1 := o0[now := |visit|], l0[now := |visit|], t0[now := par];
      Inv(g, o1, l1, t1, visit + [now], X, arts) && Bridged(o1, l1, t1, X, bridges) &&
      ScanInv(g, o1, l1, t1, X, now, 0, 0, false) && now !in X
  {
    var o1, l1, t1 := o0[now := |visit|], l0[now := |visit|], t0[now := par];
    var visit' := visit + [now];
    assert Agree(o0, l0, t0, o1, l1, t1, X);
    Stable(g, o0, l0, t0, o1, l1, t1, X, X, arts, bridges);
    assert Numbered(o1, visit');
    forall v | 0 <= v < |g| && t1[v] != -1 ensures TreeEdge(g, o1, t1[v], v) {
      if v != now {
        assert TreeEdge(g, o0, t0[v], v);
      }
    }
    forall r | 0 <= r < |g| && o1[r] != -1 && t1[r] == -1 ensures RootStart(g, o1, r) {
      if r == now {
        forall u, i | 0 <= u < |g| && 0 <= i < |g[u]| && g[u][i].to == r && o1[u] != -1
          ensures o1[r] <= o1[u]
        {
          if u != now {
            assert false;
          }
        }
      } else {
        assert RootStart(g, o0, r);
      }
    }
    assert Kids(t1, now) == {};
  }

  /** An entry leading back to the parent is skipped. */
  lemma SkipEntry(g: Adj, ord: seq<int>, low: seq<int>, tp: seq<int>, X: set<int>, now: int, k: int, cnt: int, isArt: bool)
    requires ValidAdj(g) && Sized(g, ord, low, tp) && Tree(g, ord, tp)
    requires ScanInv(g, ord, low, tp, X, now, k, cnt, isArt) && k < |g[now]| && g[now][k].to == tp[now]
    ensures ScanInv(g, ord, low, tp, X, now, k + 1, cnt, isArt)
  {
    assert tp[now] != -1 && TreeEdge(g, ord, tp[now], now);
    assert !Back(g, ord, tp, now, k);
  }

  /** An entry to a vertex numbered after `now` (a descendant met again) changes nothing. */
  lemma ForwardEntry(g: Adj, ord: seq<int>, low: seq<int>, tp: seq<int>, X: set<int>, now: int, k: int, cnt: int, isArt: bool)
    requires ValidAdj(g) && Sized(g, ord, low, tp)
    requires ScanInv(g, ord, low, tp, X, now, k, cnt, isArt) && k < |g[now]|
    requires ord[g[now][k].to] != -1 && ord[now] <= ord[g[now][k].to]
    requires ord[now] < ord[g[now][k].to] ==> Below(ord, tp, now, g[now][k].to)
    ensures ScanInv(g, ord, low, tp, X, now, k + 1, cnt, isArt)
  {
    assert !Back(g, ord, tp, now, k);
  }

  /** A back edge lowers `low[now]` to the `ord` of its target when that is smaller. */
  lemma BackEntry(g: Adj, ord: seq<int>, low: seq<int>, tp: seq<int>, X: set<int>,
                  now: int, k: int, x: int, cnt: int, isArt: bool, low': seq<int>)
    requires ValidAdj(g) && Sized(g, ord, low, tp) && Tree(g, ord, tp) && now !in X
    requires ScanInv(g, ord, low, tp, X, now, k, cnt, isArt) && k < |g[now]| && x == g[now][k].to
    requires x != tp[now] && 0 <= ord[x] < ord[now]
    requires low' == low[now := Min(low[now], ord[x])]
    ensures ScanInv(g, ord, low', tp, X, now, k + 1, cnt, isArt)
  {
    assert Back(g, ord, tp, now, k);
    forall c | 0 <= c < |g| && tp[c] == now ensures low'[c] == low[c] {
      assert TreeEdge(g, ord, tp[c], c);
    }
    forall i | 0 <= i < k + 1 && Back(g, ord, tp, now, i) ensures low'[now] <= ord[g[now][i].to] {
    }
    if low'[now] != ord[x] {
      assert low'[now] == low[now];
      if c :| 0 <= c < |g| && tp[c] == now && low[now] == low[c] {
        assert low'[now] == low'[c];
      } else if low[now] != ord[now] {
        var i :| 0 <= i < k && Back(g, ord, tp, now, i) && low[now] == ord[g[now][i].to];
      }
    }
  }

  /** The children of `now` after the search below `nxt`: the old ones and `nxt`. */
  lemma KidsAfterChild(o0: seq<int>, l0: seq<int>, t0: seq<int>, o1: seq<int>, l1: seq<int>, t1: seq<int>,
                       next: int, now: int, nxt: int)
    requires Keeps(o0, l0, t0, o1, l1, t1, next, nxt) && 0 <= now < |o0| && o0[now] != -1
    requires 0 <= nxt < |o0| && o0[nxt] == -1 && t1[nxt] == now
    requires forall c :: 0 <= c < |o0| && o0[c] == -1 ==> t0[c] == -1
    requires forall c :: 0 <= c < |o0| && o1[c] == -1 ==> t1[c] == -1
    ensures Kids(t1, now) == Kids(t0, now) + {nxt} && nxt !in Kids(t0, now)
    ensures |Kids(t1, now)| == |Kids(t0, now)| + 1
  {
    forall c | 0 <= c < |o0| ensures t1[c] == now <==> t0[c] == now || c == nxt {
    }
    assert Kids(t1, now) == Kids(t0, now) + {nxt};
  }

  /** The loop state after a tree child `nxt` was searched and `low[now]` lowered to its `low`. */
  lemma ChildEntry(g: Adj, o0: seq<int>, l0: seq<int>, t0: seq<int>, X: set<int>,
                   o1: seq<int>, l1: seq<int>, t1: seq<int>, X1: set<int>, l2: seq<int>,
                   next: int, now: int, k: int, nxt: int, cnt: int, isArt: bool, isArt': bool)
    requires ValidAdj(g) && Sized(g, o0, l0, t0) && Sized(g, o1, l1, t1) && Tree(g, o0, t0) && Tree(g, o1, t1)
    requires ScanInv(g, o0, l0, t0, X, now, k, cnt, isArt) && k < |g[now]| && next > o0[now]
    requires nxt == g[now][k].to && 0 <= nxt < |g| && o0[nxt] == -1 && o1[nxt] != -1 && t1[nxt] == now
    requires Keeps(o0, l0, t0, o1, l1, t1, next, nxt) && X1 == X + New(o0, o1) && 0 <= l1[nxt]
    requires l2 == l1[now := Min(l1[now], l1[nxt])] && (isArt' <==> isArt || o1[now] <= l1[nxt])
    ensures ScanInv(g, o1, l2, t1, X1, now, k + 1, cnt + 1, isArt')
  {
    KidsAfterChild(o0, l0, t0, o1, l1, t1, next, now, nxt);
    ChildForward(g, o0, t0, o1, t1, now, k, nxt);
    assert l1[now] == l0[now] && t1[now] == t0[now];
    if t0[now] != -1 {
      assert TreeEdge(g, o0, t0[now], now);
    }
    assert t1[now] !in X1;
    forall c | 0 <= c < |g| && t1[c] == now
      ensures l2[c] == l1[c] && (c != nxt ==> t0[c] == now && l1[c] == l0[c])
    {
      assert TreeEdge(g, o1, t1[c], c);
    }
    ChildLow(g, o0, l0, t0, o1, l1, t1, l2, next, now, k, nxt);
  }

  /** After the search below the child `nxt`, the entries of `now` up to
      `nxt` that lead to later-numbered vertices still lead into its subtree. */
  lemma ChildForward(g: Adj, o0: seq<int>, t0: seq<int>, o1: seq<int>, t1: seq<int>, now: int, k: int, nxt: int)
    requires |o0| == |g| && |o1| == |o0| && |t0| == |o0| && |t1| == |o0|
    requires forall x :: 0 <= x < |o0| && o0[x] != -1 ==> o1[x] == o0[x] && t1[x] == t0[x]
    requires 0 <= now < |g| && o0[now] != -1 && 0 <= k < |g[now]| && Seen(g, o0, now, k) && Forward(g, o0, t0, now, k)
    requires nxt == g[now][k].to && 0 <= nxt < |g| && t1[nxt] == now && 0 <= o1[now] < o1[nxt]
    ensures Forward(g, o1, t1, now, k + 1)
  {
    ForwardAgree(g, o0, t0, o1, t1, now, k);
    assert Below(o1, t1, now, now);
    assert Below(o1, t1, now, nxt);
  }

  /** `low[now]` after the child `nxt`: still bounded by, and one of, the values it ranges over. */
  lemma ChildLow(g: Adj, o0: seq<int>, l0: seq<int>, t0: seq<int>, o1: seq<int>, l1: seq<int>, t1: seq<int>,
                 l2: seq<int>, next: int, now: int, k: int, nxt: int)
    requires ValidAdj(g) && Sized(g, o0, l0, t0) && Sized(g, o1, l1, t1) && 0 <= now < |g| && 0 <= k < |g[now]|
    requires o0[now] != -1 && Seen(g, o0, now, k) && LowBelow(g, o0, l0, t0, now, k) && LowAttained(g, o0, l0, t0, now, k)
    requires nxt == g[now][k].to && 0 <= nxt < |g| && o0[nxt] == -1 && o1[nxt] != -1 && t1[nxt] == now
    requires Keeps(o0, l0, t0, o1, l1, t1, next, nxt) && l1[now] == l0[now] && t1[now] == t0[now]
    requires Tree(g, o0, t0) && next > o0[now] && l2 == l1[now := Min(l1[now], l1[nxt])]
    requires forall c :: 0 <= c < |g| && t1[c] == now ==> l2[c] == l1[c] && (c != nxt ==> t0[c] == now && l1[c] == l0[c])
    ensures Seen(g, o1, now, k + 1) && LowBelow(g, o1, l2, t1, now, k + 1) && LowAttained(g, o1, l2, t1, now, k + 1)
  {
    forall i | 0 <= i < k + 1
      ensures Back(g, o1, t1, now, i) <==> i < k && Back(g, o0, t0, now, i)
      ensures 0 <= g[now][i].to < |g| && o1[g[now][i].to] != -1
      ensures i < k ==> o1[g[now][i].to] == o0[g[now][i].to]
    {
    }
    assert LowBelow(g, o1, l2, t1, now, k + 1);
    if l2[now] != l1[nxt] {
      assert l2[now] == l0[now];
      if c :| 0 <= c < |g| && t0[c] == now && l0[now] == l0[c] {
        assert t1[c] == now && l2[now] == l2[c];
      } else if l0[now] != o0[now] {
        var i :| 0 <= i < k && Back(g, o0, t0, now, i) && l0[now] == o0[g[now][i].to];
        assert Back(g, o1, t1, now, i) && l2[now] == o1[g[now][i].to];
      }
    }
    assert LowAttained(g, o1, l2, t1, now, k + 1);
  }

  /** Reporting the tree edge into a finished child completes the bridge list. */
  lemma AddBridge(ord: seq<int>, low: seq<int>, tp: seq<int>, X1: set<int>, bridges: seq<(int, int)>,
                  bridges': seq<(int, int)>, now: int, nxt: int)
    requires |low| == |ord| && |tp| == |ord| && 0 <= nxt < |ord| && 0 <= now < |ord| && tp[nxt] == now && nxt in X1
    requires Bridged(ord, low, tp, X1 - {nxt}, bridges)
    requires bridges' == if ord[now] < low[nxt] then bridges + [MinMax(now, nxt)] else bridges
    ensures Bridged(ord, low, tp, X1, bridges')
  {
    forall p ensures p in bridges' <==> exists v :: v in X1 && 0 <= v < |ord| && BridgeChild(ord, low, tp, v) && p == MinMax(tp[v], v)
    {
      if p in bridges' && p !in bridges {
        assert BridgeChild(ord, low, tp, nxt) && p == MinMax(tp[nxt], nxt);
      }
      if exists v :: v in X1 && 0 <= v < |ord| && BridgeChild(ord, low, tp, v) && p == MinMax(tp[v], v) {
        var v :| v in X1 && 0 <= v < |ord| && BridgeChild(ord, low, tp, v) && p == MinMax(tp[v], v);
        if v != nxt {
          assert v in X1 - {nxt};
        }
      }
    }
  }

  /** The tree edge into a finished child `nxt` is not reported yet: every
      reported edge enters another finished vertex, and the parent of `now`
      is not `nxt`, which was numbered after `now`. */
  lemma FreshBridge(g: Adj, ord: seq<int>, low: seq<int>, tp: seq<int>, B: set<int>, bridges: seq<(int, int)>,
                    now: int, nxt: int)
    requires Sized(g, ord, low, tp) && Tree(g, ord, tp) && 0 <= now < |g| && 0 <= nxt < |g| && tp[nxt] == now
    requires Bridged(ord, low, tp, B - {nxt}, bridges) && Distinct(bridges)
    ensures Distinct(bridges + [MinMax(now, nxt)])
  {
    assert TreeEdge(g, ord, tp[nxt], nxt);
    if tp[now] != -1 {
      assert TreeEdge(g, ord, tp[now], now);
    }
    forall v | v in B - {nxt} && 0 <= v < |ord| && BridgeChild(ord, low, tp, v)
      ensures MinMax(tp[v], v) != MinMax(now, nxt)
    {
    }
    assert MinMax(now, nxt) !in bridges;
  }

  /** Finishing `now`: it joins the finished set, and the articulation list gains it when it is one. */
  lemma Finish(g: Adj, ord: seq<int>, low: seq<int>, tp: seq<int>, visit: seq<int>, X: set<int>,
               arts: seq<int>, bridges: seq<(int, int)>, now: int, par: int, cnt: int, isArt: bool, arts': seq<int>)
    requires Inv(g, ord, low, tp, visit, X, arts) && Bridged(ord, low, tp, X, bridges) && now !in X
    requires 0 <= now < |g| && ScanInv(g, ord, low, tp, X, now, |g[now]|, cnt, isArt) && tp[now] == par
    requires arts' == if isArt && !(par == -1 && cnt < 2) then arts + [now] else arts
    ensures Inv(g, ord, low, tp, visit, X + {now}, arts') && Bridged(ord, low, tp, X + {now} - {now}, bridges)
  {
    assert X + {now} - {now} == X;
    assert Settled(g, ord, low, tp, now);
    var X' := X + {now};
    assert Articulation(ord, low, tp, now) <==> isArt && !(par == -1 && cnt < 2);
    assert now !in arts;
  }

  /** The facts of the scan state that finishing `now` needs. */
  lemma Scanned(g: Adj, o0: seq<int>, l0: seq<int>, t0: seq<int>, X0: set<int>, next0: int,
                ord: seq<int>, low: seq<int>, tp: seq<int>, visit: seq<int>, X: set<int>,
                arts: seq<int>, bridges: seq<(int, int)>, next: int, now: int, par: int, k: int, cnt: int, isArt: bool)
    requires Scanning(g, o0, l0, t0, X0, next0, ord, low, tp, visit, X, arts, bridges, next, now, par, k, cnt, isArt)
    ensures Inv(g, ord, low, tp, visit, X, arts) && Bridged(ord, low, tp, X, bridges) && now !in X
    ensures 0 <= now < |g| && ScanInv(g, ord, low, tp, X, now, k, cnt, isArt) && tp[now] == par
  {
  }


  // ---------------------------------------------------------------- the steps in terms of the contracts

  /** Entering `dfs(now, par)` and numbering `now` starts its edge loop. */
  lemma Enter(g: Adj, o0: seq<int>, l0: seq<int>, t0: seq<int>, visit: seq<int>, X: set<int>,
              arts: seq<int>, bridges: seq<(int, int)>, next: int, now: int, par: int)
    requires Entering(g, o0, l0, t0, visit, X, arts, bridges, next, now, par)
    ensures var o1, l1, t1 := o0[now := next], l0[now := next], t0[now := par];
      Scanning(g, o1, l1, t1, X, next + 1, o1, l1, t1, visit + [now], X, arts, bridges, next + 1, now, par, 0, 0, false)
  {
    var o1, l1, t1 := o0[now := next], l0[now := next], t0[now := par];
    Number(g, o0, l0, t0, visit, X, arts, bridges, now, par);
    assert forall v :: 0 <= v < |g| && v != now ==> o1[v] < next;
    assert Keeps(o1, l1, t1, o1, l1, t1, next + 1, now);
    assert New(o1, o1) == {};
  }

  lemma SkipStep(g: Adj, o0: seq<int>, l0: seq<int>, t0: seq<int>, X0: set<int>, next0: int,
                 ord: seq<int>, low: seq<int>, tp: seq<int>, visit: seq<int>, X: set<int>,
                 arts: seq<int>, bridges: seq<(int, int)>, next: int, now: int, par: int, k: int, cnt: int, isArt: bool)
    requires Scanning(g, o0, l0, t0, X0, next0, ord, low, tp, visit, X, arts, bridges, next, now, par, k, cnt, isArt)
    requires k < |g[now]| && g[now][k].to == par
    ensures Scanning(g, o0, l0, t0, X0, next0, ord, low, tp, visit, X, arts, bridges, next, now, par, k + 1, cnt, isArt)
  {
    SkipEntry(g, ord, low, tp, X, now, k, cnt, isArt);
  }

  lemma ForwardStep(g: Adj, o0: seq<int>, l0: seq<int>, t0: seq<int>, X0: set<int>, next0: int,
                    ord: seq<int>, low: seq<int>, tp: seq<int>, visit: seq<int>, X: set<int>,
                    arts: seq<int>, bridges: seq<(int, int)>, next: int, now: int, par: int, k: int, cnt: int, isArt: bool)
    requires Scanning(g, o0, l0, t0, X0, next0, ord, low, tp, visit, X, arts, bridges, next, now, par, k, cnt, isArt)
    requires k < |g[now]| && ord[g[now][k].to] != -1 && ord[now] <= ord[g[now][k].to]
    ensures Scanning(g, o0, l0, t0, X0, next0, ord, low, tp, visit, X, arts, bridges, next, now, par, k + 1, cnt, isArt)
  {
    ForwardEntry(g, ord, low, tp, X, now, k, cnt, isArt);
  }

  lemma BackStep(g: Adj, o0: seq<int>, l0: seq<int>, t0: seq<int>, X0: set<int>, next0: int,
                 ord: seq<int>, low: seq<int>, tp: seq<int>, visit: seq<int>, X: set<int>,
                 arts: seq<int>, bridges: seq<(int, int)>, next: int, now: int, par: int, k: int, cnt: int, isArt: bool,
                 low': seq<int>)
    requires Scanning(g, o0, l0, t0, X0, next0, ord, low, tp, visit, X, arts, bridges, next, now, par, k, cnt, isArt)
    requires k < |g[now]| && g[now][k].to != par && ord[g[now][k].to] != -1 && ord[now] > ord[g[now][k].to]
    requires low' == low[now := Min(low[now], ord[g[now][k].to])]
    ensures Scanning(g, o0, l0, t0, X0, next0, ord, low', tp, visit, X, arts, bridges, next, now, par, k + 1, cnt, isArt)
  {
    var x := g[now][k].to;
    assert 0 <= ord[x];
    BackEntry(g, ord, low, tp, X, now, k, x, cnt, isArt, low');
    assert Agree(ord, low, tp, ord, low', tp, X);
    Stable(g, ord, low, tp, ord, low', tp, X, X, arts, bridges);
    assert Keeps(o0, l0, t0, ord, low', tp, next0, now);
  }

  /** An unnumbered target of `now`'s list may be entered with `now` as its parent. */
  lemma ChildEnter(g: Adj, o0: seq<int>, l0: seq<int>, t0: seq<int>, X0: set<int>, next0: int,
                   ord: seq<int>, low: seq<int>, tp: seq<int>, visit: seq<int>, X: set<int>,
                   arts: seq<int>, bridges: seq<(int, int)>, next: int, now: int, par: int, k: int, cnt: int, isArt: bool)
    requires Scanning(g, o0, l0, t0, X0, next0, ord, low, tp, visit, X, arts, bridges, next, now, par, k, cnt, isArt)
    requires k < |g[now]| && ord[g[now][k].to] == -1
    ensures Entering(g, ord, low, tp, visit, X, arts, bridges, next, g[now][k].to, now)
  {
    assert HasEdge(g, now, g[now][k].to);
  }

  /** The state after the search below a tree child `nxt`: its own
      invariants, with `low[now]` not yet lowered. */
  lemma ChildState(g: Adj, o0: seq<int>, l0: seq<int>, t0: seq<int>, X: set<int>, next: int,
                   o1: seq<int>, l1: seq<int>, t1: seq<int>, visit1: seq<int>, X1: set<int>,
                   arts1: seq<int>, br1: seq<(int, int)>, l2: seq<int>, br2: seq<(int, int)>,
                   now: int, nxt: int)
    requires Searched(g, o0, l0, t0, X, next, o1, l1, t1, visit1, X1, arts1, br1, |visit1|, nxt, now)
    requires 0 <= now < |g| && o0[nxt] == -1 && o0[now] != -1 && now !in X && Sized(g, o0, l0, t0) && t1[now] !in X1
    requires br2 == if o1[now] < l1[nxt] then br1 + [MinMax(now, nxt)] else br1
    requires l2 == l1[now := Min(l1[now], l1[nxt])]
    ensures Inv(g, o1, l2, t1, visit1, X1, arts1) && Bridged(o1, l2, t1, X1, br2) && now !in X1
  {
    assert now !in New(o0, o1);
    AddBridge(o1, l1, t1, X1, br1, br2, now, nxt);
    assert Agree(o1, l1, t1, o1, l2, t1, X1);
    Stable(g, o1, l1, t1, o1, l2, t1, X1, X1, arts1, br2);
  }

  /** The vertices numbered after `now` before the search below its child
      `nxt`, and those that search numbered, all lie in the subtree of `now`. */
  lemma SubtreeChild(g: Adj, ord: seq<int>, low: seq<int>, tp: seq<int>, o1: seq<int>, l1: seq<int>, t1: seq<int>,
                     visit1: seq<int>, next: int, now: int, nxt: int)
    requires Tree(g, ord, tp) && 0 <= now < |g| && 0 <= ord[now] < next && Subtree(ord, tp, now)
    requires Keeps(ord, low, tp, o1, l1, t1, next, nxt) && Numbered(o1, visit1)
    requires 0 <= nxt < |g| && o1[nxt] == next && t1[nxt] == now && Subtree(o1, t1, nxt)
    ensures Subtree(o1, t1, now)
  {
    forall v | 0 <= v < |o1| && o1[now] < o1[v] ensures Below(o1, t1, now, v) {
      if ord[v] != -1 {
        BelowStable(ord, tp, o1, t1, now, v);
      } else if v == nxt {
        assert Below(o1, t1, now, now);
      } else {
        assert visit1[o1[v]] == v && visit1[o1[nxt]] == nxt;
        BelowParent(o1, t1, nxt, v);
      }
    }
  }

  /** The whole tree-child case of the edge loop: the search below `nxt`,
      the bridge report, the flag and the update of `low[now]` take the
      loop to its next entry. */
  lemma ChildDone(g: Adj, o0: seq<int>, l0: seq<int>, t0: seq<int>, X0: set<int>, next0: int,
                  ord: seq<int>, low: seq<int>, tp: seq<int>, visit: seq<int>, X: set<int>,
                  arts: seq<int>, bridges: seq<(int, int)>, next: int,
                  o1: seq<int>, l1: seq<int>, t1: seq<int>, visit1: seq<int>, X1: set<int>,
                  arts1: seq<int>, br1: seq<(int, int)>, next1: int, l2: seq<int>, br2: seq<(int, int)>,
                  now: int, par: int, k: int, cnt: int, isArt: bool, isArt': bool)
    requires Scanning(g, o0, l0, t0, X0, next0, ord, low, tp, visit, X, arts, bridges, next, now, par, k, cnt, isArt)
    requires k < |g[now]| && ord[g[now][k].to] == -1
    requires Searched(g, ord, low, tp, X, next, o1, l1, t1, visit1, X1, arts1, br1, next1, g[now][k].to, now)
    requires br2 == if o1[now] < l1[g[now][k].to] then br1 + [MinMax(now, g[now][k].to)] else br1
    requires isArt' == (isArt || o1[now] <= l1[g[now][k].to])
    requires l2 == l1[now := Min(l1[now], l1[g[now][k].to])]
    ensures Scanning(g, o0, l0, t0, X0, next0, o1, l2, t1, visit1, X1, arts1, br2, next1, now, par, k + 1, cnt + 1, isArt')
  {
    var nxt := g[now][k].to;
    ChildEntry(g, ord, low, tp, X, o1, l1, t1, X1, l2, next, now, k, nxt, cnt, isArt, isArt');
    ChildState(g, ord, low, tp, X, next, o1, l1, t1, visit1, X1, arts1, br1, l2, br2, now, nxt);
    KeepsChild(ord, low, tp, o1, l1, t1, l2, next, now, nxt);
    SubtreeChild(g, ord, low, tp, o1, l1, t1, visit1, next, now, nxt);
    KeepsTrans(o0, l0, t0, ord, low, tp, o1, l2, t1, next0, next, now);
  }

  /** Leaving `dfs(now, par)`: after the edge loop `now` is finished. */
  lemma Leave(g: Adj, o0: seq<int>, l0: seq<int>, t0: seq<int>, X: set<int>, next: int,
              o2: seq<int>, l2: seq<int>, t2: seq<int>, visit2: seq<int>, X2: set<int>,
              arts2: seq<int>, br2: seq<(int, int)>, next2: int,
              now: int, par: int, cnt: int, isArt: bool, arts': seq<int>)
    requires |o0| == |g| && |l0| == |g| && |t0| == |g| && 0 <= now < |g| && o0[now] == -1
    requires Scanning(g, o0[now := next], l0[now := next], t0[now := par], X, next + 1,
                      o2, l2, t2, visit2, X2, arts2, br2, next2, now, par, |g[now]|, cnt, isArt)
    requires arts' == if isArt && !(par == -1 && cnt < 2) then arts2 + [now] else arts2
    ensures Searched(g, o0, l0, t0, X, next, o2, l2, t2, visit2, X2 + {now}, arts', br2, next2, now, par)
  {
    var o1, l1, t1 := o0[now := next], l0[now := next], t0[now := par];
    assert Keeps(o0, l0, t0, o1, l1, t1, next, now);
    assert New(o0, o1) == {now};
    KeepsTrans(o0, l0, t0, o1, l1, t1, o2, l2, t2, next, next + 1, now);
    Scanned(g, o1, l1, t1, X, next + 1, o2, l2, t2, visit2, X2, arts2, br2, next2, now, par, |g[now]|, cnt, isArt);
    Finish(g, o2, l2, t2, visit2, X2, arts2, br2, now, par, cnt, isArt, arts');
  }

  // ---------------------------------------------------------------- the whole search

  /** The state `bridges_and_articulations()` ends in: every vertex is
      numbered and finished, every bridge is reported exactly once and
      `arts` lists exactly the articulation points. */
  ghost predicate Complete(g: Adj, ord: seq<int>, low: seq<int>, tp: seq<int>, visit: seq<int>,
                           arts: seq<int>, bridges: seq<(int, int)>) {
    Inv(g, ord, low, tp, visit, Range(|g|), arts) && Bridged(ord, low, tp, Range(|g|), bridges) && Distinct(bridges)
  }

  /** The driver loop before vertex `i`: every vertex below `i` is numbered
      and every numbered vertex is finished. */
  ghost predicate Between(g: Adj, ord: seq<int>, low: seq<int>, tp: seq<int>, visit: seq<int>, X: set<int>,
                          arts: seq<int>, bridges: seq<(int, int)>, next: int, i: int) {
    Inv(g, ord, low, tp, visit, X, arts) && Bridged(ord, low, tp, X, bridges) && next == |visit| && 0 <= i <= |g| &&
    (forall v :: 0 <= v < |g| && ord[v] != -1 ==> v in X) && (forall u :: 0 <= u < i ==> ord[u] != -1)
  }

  /** Before any search: nothing numbered, nothing finished, nothing reported. */
  lemma Start(g: Adj, ord: seq<int>, low: seq<int>, tp: seq<int>)
    requires ValidAdj(g) && Sized(g, ord, low, tp)
    requires forall v :: 0 <= v < |g| ==> ord[v] == -1 && tp[v] == -1
    ensures Between(g, ord, low, tp, [], {}, [], [], 0, 0)
  {
  }

  /** An unnumbered vertex met by the driver is a search root. */
  lemma NewRoot(g: Adj, ord: seq<int>, low: seq<int>, tp: seq<int>, visit: seq<int>, X: set<int>,
                arts: seq<int>, bridges: seq<(int, int)>, next: int, i: int)
    requires Between(g, ord, low, tp, visit, X, arts, bridges, next, i) && i < |g| && ord[i] == -1
    ensures Entering(g, ord, low, tp, visit, X, arts, bridges, next, i, -1)
  {
  }

  /** A vertex the driver finds numbered is already finished. */
  lemma Passed(g: Adj, ord: seq<int>, low: seq<int>, tp: seq<int>, visit: seq<int>, X: set<int>,
               arts: seq<int>, bridges: seq<(int, int)>, next: int, i: int)
    requires Between(g, ord, low, tp, visit, X, arts, bridges, next, i) && i < |g| && ord[i] != -1
    ensures Between(g, ord, low, tp, visit, X, arts, bridges, next, i + 1)
  {
  }

  /** A search root has no tree parent, so it adds no bridge. */
  lemma BridgedRoot(ord: seq<int>, low: seq<int>, tp: seq<int>, B: set<int>, bridges: seq<(int, int)>, r: int)
    requires |low| == |ord| && |tp| == |ord| && 0 <= r < |ord| && tp[r] == -1
    requires Bridged(ord, low, tp, B - {r}, bridges)
    ensures Bridged(ord, low, tp, B, bridges)
  {
    forall p ensures p in bridges <==> exists v :: v in B && 0 <= v < |ord| && BridgeChild(ord, low, tp, v) && p == MinMax(tp[v], v) {
      if exists v :: v in B && 0 <= v < |ord| && BridgeChild(ord, low, tp, v) && p == MinMax(tp[v], v) {
        var v :| v in B && 0 <= v < |ord| && BridgeChild(ord, low, tp, v) && p == MinMax(tp[v], v);
        assert v in B - {r};
      }
    }
  }

  /** After `dfs(r, -1)` from the least unnumbered vertex `r`, every numbered
      vertex is finished again and so is every vertex up to `r`. */
  lemma RootDone(g: Adj, o0: seq<int>, l0: seq<int>, t0: seq<int>, visit0: seq<int>, X0: set<int>,
                 arts0: seq<int>, br0: seq<(int, int)>, next0: int,
                 o1: seq<int>, l1: seq<int>, t1: seq<int>, visit1: seq<int>, X1: set<int>,
                 arts1: seq<int>, br1: seq<(int, int)>, next1: int, r: int)
    requires Entering(g, o0, l0, t0, visit0, X0, arts0, br0, next0, r, -1)
    requires Searched(g, o0, l0, t0, X0, next0, o1, l1, t1, visit1, X1, arts1, br1, next1, r, -1)
    ensures Between(g, o1, l1, t1, visit1, X1, arts1, br1, next1, r + 1)
  {
    BridgedRoot(o1, l1, t1, X1, br1, r);
  }

  /** Once every vertex is numbered and finished, the search is complete. */
  lemma End(g: Adj, ord: seq<int>, low: seq<int>, tp: seq<int>, visit: seq<int>, X: set<int>,
            arts: seq<int>, bridges: seq<(int, int)>, next: int)
    requires Between(g, ord, low, tp, visit, X, arts, bridges, next, |g|) && Distinct(bridges)
    ensures Complete(g, ord, low, tp, visit, arts, bridges)
  {
    assert X == Range(|g|);
  }

  /** Numbering every vertex of 0..n-1 makes `ord` a permutation of 0..n-1 and `visit` its inverse. */
  lemma NumberedPermutation(ord: seq<int>, visit: seq<int>)
    requires Numbered(ord, visit) && forall v :: 0 <= v < |ord| ==> ord[v] != -1
    ensures |visit| == |ord| && Distinct(ord) && Distinct(visit)
    ensures forall v :: 0 <= v < |ord| ==> 0 <= ord[v] < |ord| && visit[ord[v]] == v
  {
    forall i, j | 0 <= i < j < |visit| ensures visit[i] != visit[j] {
      assert ord[visit[i]] == i && ord[visit[j]] == j;
    }
    DistinctVertices(visit, |ord|);
    forall v | v in Range(|ord|) ensures v in set x | x in visit {
      assert visit[ord[v]] == v;
    }
    DistinctElements(visit);
    SubsetSize(Range(|ord|), set x | x in visit);
    forall i, j | 0 <= i < j < |ord| ensures ord[i] != ord[j] {
      assert visit[ord[i]] == i;
    }
  }

  /** `order` ends as a permutation of 0..n-1, read off in `visit`. */
  lemma OrderPermutation(g: Adj, ord: seq<int>, low: seq<int>, tp: seq<int>, visit: seq<int>,
                         arts: seq<int>, bridges: seq<(int, int)>)
    requires Complete(g, ord, low, tp, visit, arts, bridges)
    ensures |visit| == |g| && Distinct(ord) && Distinct(visit)
    ensures forall v :: 0 <= v < |g| ==> 0 <= ord[v] < |g| && visit[ord[v]] == v
  {
    forall v | 0 <= v < |g| ensures ord[v] != -1 {
      assert v in Range(|g|);
    }
    NumberedPermutation(ord, visit);
  }

  /** Every vertex ends with `0 <= low[v] <= order[v]`. */
  lemma LowBounds(g: Adj, ord: seq<int>, low: seq<int>, tp: seq<int>, visit: seq<int>,
                  arts: seq<int>, bridges: seq<(int, int)>)
    requires Complete(g, ord, low, tp, visit, arts, bridges)
    ensures forall v :: 0 <= v < |g| ==> 0 <= low[v] <= ord[v]
  {
    forall v | 0 <= v < |g| ensures 0 <= low[v] <= ord[v] {
      assert v in Range(|g|) && Settled(g, ord, low, tp, v);
    }
  }

  /** Every reported bridge `(a, b)` has `a < b` and is a stored edge, in one
      direction or the other, between a vertex and its tree parent. */
  lemma BridgesOrdered(g: Adj, ord: seq<int>, low: seq<int>, tp: seq<int>, visit: seq<int>,
                       arts: seq<int>, bridges: seq<(int, int)>)
    requires Complete(g, ord, low, tp, visit, arts, bridges)
    ensures forall p :: p in bridges ==>
      0 <= p.0 < p.1 < |g| && (HasEdge(g, p.0, p.1) || HasEdge(g, p.1, p.0)) && (tp[p.1] == p.0 || tp[p.0] == p.1)
  {
    forall p | p in bridges
      ensures 0 <= p.0 < p.1 < |g| && (HasEdge(g, p.0, p.1) || HasEdge(g, p.1, p.0)) && (tp[p.1] == p.0 || tp[p.0] == p.1)
    {
      var v :| v in Range(|g|) && 0 <= v < |ord| && BridgeChild(ord, low, tp, v) && p == MinMax(tp[v], v);
      assert TreeEdge(g, ord, tp[v], v);
    }
  }

  /** A search root is reported only when it has at least two tree children. */
  lemma RootArticulation(g: Adj, ord: seq<int>, low: seq<int>, tp: seq<int>, visit: seq<int>,
                         arts: seq<int>, bridges: seq<(int, int)>)
    requires Complete(g, ord, low, tp, visit, arts, bridges)
    ensures forall u :: u in arts && 0 <= u < |g| && tp[u] == -1 ==> |Kids(tp, u)| >= 2
  {
    forall u | u in arts && 0 <= u < |g| && tp[u] == -1 ensures |Kids(tp, u)| >= 2 {
      assert Articulation(ord, low, tp, u);
    }
  }

  /** In the complete state every vertex is numbered and settled. */
  lemma CompleteSettled(g: Adj, ord: seq<int>, low: seq<int>, tp: seq<int>, visit: seq<int>,
                      arts: seq<int>, bridges: seq<(int, int)>)
    requires Complete(g, ord, low, tp, visit, arts, bridges)
    ensures Sized(g, ord, low, tp) && forall v :: 0 <= v < |g| ==> 0 <= ord[v] && Settled(g, ord, low, tp, v)
  {
    forall v | 0 <= v < |g| ensures 0 <= ord[v] && Settled(g, ord, low, tp, v) {
      assert v in Range(|g|);
    }
  }

  /** Every stored edge to a vertex numbered later leads into the search
      subtree of its source: the search leaves no forward cross edges. */
  lemma ForwardEdges(g: Adj, ord: seq<int>, low: seq<int>, tp: seq<int>, visit: seq<int>,
                     arts: seq<int>, bridges: seq<(int, int)>)
    requires Complete(g, ord, low, tp, visit, arts, bridges)
    ensures forall u, i :: 0 <= u < |g| && 0 <= i < |g[u]| && ord[u] < ord[g[u][i].to] ==> Below(ord, tp, u, g[u][i].to)
  {
    forall u, i | 0 <= u < |g| && 0 <= i < |g[u]| && ord[u] < ord[g[u][i].to]
      ensures Below(ord, tp, u, g[u][i].to)
    {
      assert u in Range(|g|);
      assert Forward(g, ord, tp, u, |g[u]|);
    }
  }

  /** On a graph whose edges are all stored both ways, the two ends of every
      stored edge are an ancestor and a descendant in the search forest `tp`:
      it is a depth-first forest of `g`. */
  lemma Ancestry(g: Adj, ord: seq<int>, low: seq<int>, tp: seq<int>, visit: seq<int>,
                 arts: seq<int>, bridges: seq<(int, int)>)
    requires Complete(g, ord, low, tp, visit, arts, bridges) && Symmetric(g)
    ensures forall u, i :: 0 <= u < |g| && 0 <= i < |g[u]| ==>
      Below(ord, tp, u, g[u][i].to) || Below(ord, tp, g[u][i].to, u)
  {
    ForwardEdges(g, ord, low, tp, visit, arts, bridges);
    OrderPermutation(g, ord, low, tp, visit, arts, bridges);
    forall u, i | 0 <= u < |g| && 0 <= i < |g[u]|
      ensures Below(ord, tp, u, g[u][i].to) || Below(ord, tp, g[u][i].to, u)
    {
      var x := g[u][i].to;
      if ord[x] < ord[u] {
        var j :| 0 <= j < |g[x]| && g[x][j].to == u;
        assert ord[x] < ord[g[x][j].to];
      } else if ord[x] == ord[u] {
        assert x == u;
      }
    }
  }
}

/** The search itself. */
module LowLink {
  import opened Graphs
  import opened LowLinkFacts

  /** The recursive `dfs(now, par)`: numbers `now`, scans its list, and
      reports it as an articulation point when it is one. */
  method Dfs(g: Adj, order: array<int>, low: array<int>, now: int, par: int, next: int,
             bridges: seq<(int, int)>, arts: seq<int>, ghost tp: seq<int>, ghost visit: seq<int>, ghost X: set<int>)
      returns (next': int, bridges': seq<(int, int)>, arts': seq<int>,
               ghost tp': seq<int>, ghost visit': seq<int>, ghost X': set<int>)
    requires order != low && order.Length == |g| && low.Length == |g|
    requires Entering(g, order[..], low[..], tp, visit, X, arts, bridges, next, now, par) && Distinct(bridges)
    modifies order, low
    ensures Searched(g, old(order[..]), old(low[..]), tp, X, next,
                     order[..], low[..], tp', visit', X', arts', bridges', next', now, par)
    ensures Distinct(bridges')
    decreases Count(order[..], -1), 3
  {
    ghost var o0, l0 := order[..], low[..];
    Enter(g, o0, l0, tp, visit, X, arts, bridges, next, now, par);
    order[now] := next;
    low[now] := next;
    assert order[..] == o0[now := next] && low[..] == l0[now := next];
    tp' := tp[now := par];
    visit' := visit + [now];
    CountShrink(o0, order[..], now, -1);
    var isArt, cnt;
    next', bridges', arts', isArt, cnt, tp', visit', X' :=
      Scan(g, order, low, now, par, next + 1, bridges, arts, tp', visit', X, Count(o0, -1));
    ghost var flag, arts2 := isArt, arts';
    if par == -1 && cnt < 2 {
      isArt := false;
    }
    if isArt {
      arts' := arts' + [now];
    }
    Leave(g, o0, l0, tp, X, next, order[..], low[..], tp', visit', X', arts2, bridges', next',
          now, par, cnt, flag, arts');
    X' := X' + {now};
  }

  /** The edge loop of `dfs(now, par)`. */
  method Scan(g: Adj, order: array<int>, low: array<int>, now: int, par: int, next: int,
              bridges: seq<(int, int)>, arts: seq<int>, ghost tp: seq<int>, ghost visit: seq<int>, ghost X: set<int>,
              ghost bound: nat)
      returns (next': int, bridges': seq<(int, int)>, arts': seq<int>, isArt: bool, cnt: int,
               ghost tp': seq<int>, ghost visit': seq<int>, ghost X': set<int>)
    requires order != low && order.Length == |g| && low.Length == |g|
    requires Scanning(g, order[..], low[..], tp, X, next, order[..], low[..], tp, visit, X, arts, bridges, next,
                      now, par, 0, 0, false)
    requires Count(order[..], -1) < bound && Distinct(bridges)
    modifies order, low
    ensures Scanning(g, old(order[..]), old(low[..]), tp, X, next, order[..], low[..], tp', visit', X', arts', bridges', next',
                     now, par, |g[now]|, cnt, isArt)
    ensures Count(order[..], -1) < bound && Distinct(bridges')
    decreases bound, 2
  {
    next', bridges', arts', isArt, cnt, tp', visit', X' := next, bridges, arts, false, 0, tp, visit, X;
    ghost var o0, l0 := order[..], low[..];
    var k := 0;
    while k < |g[now]|
      invariant 0 <= k <= |g[now]|
      invariant Scanning(g, o0, l0, tp, X, next, order[..], low[..], tp', visit', X', arts', bridges', next',
                         now, par, k, cnt, isArt)
      invariant Count(order[..], -1) < bound && Distinct(bridges')
    {
      next', bridges', arts', isArt, cnt, tp', visit', X' :=
        Step(g, order, low, now, par, k, next', bridges', arts', isArt, cnt, tp', visit', X',
             o0, l0, tp, X, next, bound);
      k := k + 1;
    }
  }

  /** One entry of `now`'s list: skip the parent, search an unnumbered
      target as a tree child, or lower `low[now]` along a back edge. */
  method Step(g: Adj, order: array<int>, low: array<int>, now: int, par: int, k: int, next: int,
              bridges: seq<(int, int)>, arts: seq<int>, isArt: bool, cnt: int,
              ghost tp: seq<int>, ghost visit: seq<int>, ghost X: set<int>,
              ghost o0: seq<int>, ghost l0: seq<int>, ghost t0: seq<int>, ghost X0: set<int>, ghost next0: int,
              ghost bound: nat)
      returns (next': int, bridges': seq<(int, int)>, arts': seq<int>, isArt': bool, cnt': int,
               ghost tp': seq<int>, ghost visit': seq<int>, ghost X': set<int>)
    requires order != low && order.Length == |g| && low.Length == |g|
    requires Scanning(g, o0, l0, t0, X0, next0, order[..], low[..], tp, visit, X, arts, bridges, next,
                      now, par, k, cnt, isArt)
    requires k < |g[now]| && Count(order[..], -1) < bound && Distinct(bridges)
    modifies order, low
    ensures Scanning(g, o0, l0, t0, X0, next0, order[..], low[..], tp', visit', X', arts', bridges', next',
                     now, par, k + 1, cnt', isArt')
    ensures Count(order[..], -1) <= old(Count(order[..], -1)) && Distinct(bridges')
    decreases bound, 1
  {
    var nxt := g[now][k].to;
    if nxt != par && order[nxt] == -1 {
      next', bridges', arts', isArt', cnt', tp', visit', X' :=
        Child(g, order, low, now, par, k, next, bridges, arts, isArt, cnt, tp, visit, X, o0, l0, t0, X0, next0, bound);
      return;
    }
    next', bridges', arts', isArt', cnt', tp', visit', X' := next, bridges, arts, isArt, cnt, tp, visit, X;
    if nxt == par {
      SkipStep(g, o0, l0, t0, X0, next0, order[..], low[..], tp, visit, X, arts, bridges, next, now, par, k, cnt, isArt);
    } else if order[now] > order[nxt] {
      ghost var l1 := low[..];
      low[now] := Min(low[now], order[nxt]);
      BackStep(g, o0, l0, t0, X0, next0, order[..], l1, tp, visit, X, arts, bridges, next, now, par, k, cnt, isArt, low[..]);
    } else {
      ForwardStep(g, o0, l0, t0, X0, next0, order[..], low[..], tp, visit, X, arts, bridges, next, now, par, k, cnt, isArt);
    }
  }

  /** An unnumbered target `nxt` becomes a tree child: its search runs,
      the edge is reported when `order[now] < low[nxt]`, `now` is flagged
      when `order[now] <= low[nxt]`, and `low[now]` drops to `low[nxt]`. */
  method Child(g: Adj, order: array<int>, low: array<int>, now: int, par: int, k: int, next: int,
               bridges: seq<(int, int)>, arts: seq<int>, isArt: bool, cnt: int,
               ghost tp: seq<int>, ghost visit: seq<int>, ghost X: set<int>,
               ghost o0: seq<int>, ghost l0: seq<int>, ghost t0: seq<int>, ghost X0: set<int>, ghost next0: int,
               ghost bound: nat)
      returns (next': int, bridges': seq<(int, int)>, arts': seq<int>, isArt': bool, cnt': int,
               ghost tp': seq<int>, ghost visit': seq<int>, ghost X': set<int>)
    requires order != low && order.Length == |g| && low.Length == |g|
    requires Scanning(g, o0, l0, t0, X0, next0, order[..], low[..], tp, visit, X, arts, bridges, next,
                      now, par, k, cnt, isArt)
    requires k < |g[now]| && order[g[now][k].to] == -1 && Count(order[..], -1) < bound && Distinct(bridges)
    modifies order, low
    ensures Scanning(g, o0, l0, t0, X0, next0, order[..], low[..], tp', visit', X', arts', bridges', next',
                     now, par, k + 1, cnt', isArt')
    ensures Count(order[..], -1) <= old(Count(order[..], -1)) && Distinct(bridges')
    decreases bound, 0
  {
    var nxt := g[now][k].to;
    ghost var ord, lw := order[..], low[..];
    ChildEnter(g, o0, l0, t0, X0, next0, ord, lw, tp, visit, X, arts, bridges, next, now, par, k, cnt, isArt);
    next', bridges', arts', tp', visit', X' := Dfs(g, order, low, nxt, now, next, bridges, arts, tp, visit, X);
    ghost var o1, l1, br1 := order[..], low[..], bridges';
    if order[now] < low[nxt] {
      FreshBridge(g, o1, l1, tp', X', br1, now, nxt);
      bridges' := bridges' + [MinMax(now, nxt)];
    }
    isArt' := isArt || order[now] <= low[nxt];
    cnt' := cnt + 1;
    low[now] := Min(low[now], low[nxt]);
    assert order[..] == o1 && low[..] == l1[now := Min(l1[now], l1[nxt])];
    ChildDone(g, o0, l0, t0, X0, next0, ord, lw, tp, visit, X, arts, bridges, next,
              o1, l1, tp', visit', X', arts', br1, next', low[..], bridges', now, par, k, cnt, isArt, isArt');
    CountNoMore(ord, o1, -1);
  }

  /** `bridges_and_articulations()`: a search from each vertex still unnumbered, in increasing order. */
  method BridgesAndArticulations(g: Adj)
      returns (bridges: seq<(int, int)>, arts: seq<int>,
               ghost ord: seq<int>, ghost low: seq<int>, ghost tp: seq<int>, ghost visit: seq<int>)
    requires ValidAdj(g)
    ensures Complete(g, ord, low, tp, visit, arts, bridges)
  {
    var n := |g|;
    var order := new int[n](_ => -1);
    var lw := new int[n](_ => 0);
    var next := 0;
    bridges, arts := [], [];
    tp, visit := seq(n, _ => -1), [];
    ghost var X: set<int> := {};
    Start(g, order[..], lw[..], tp);
    for i := 0 to n
      invariant Between(g, order[..], lw[..], tp, visit, X, arts, bridges, next, i) && Distinct(bridges)
    {
      if order[i] == -1 {
        ghost var o0, l0, t0, visit0, X0, arts0, br0, next0 := order[..], lw[..], tp, visit, X, arts, bridges, next;
        NewRoot(g, o0, l0, t0, visit0, X0, arts0, br0, next0, i);
        next, bridges, arts, tp, visit, X := Dfs(g, order, lw, i, -1, next, bridges, arts, tp, visit, X);
        RootDone(g, o0, l0, t0, visit0, X0, arts0, br0, next0, order[..], lw[..], tp, visit, X, arts, bridges, next, i);
      } else {
        Passed(g, order[..], lw[..], tp, visit, X, arts, bridges, next, i);
      }
    }
    ord, low := order[..], lw[..];
    End(g, ord, low, tp, visit, X, arts, bridges, next);
  }
}


/** The path 0 - 1 - 2 - 3: every edge is a bridge and the two inner
    vertices are the articulation points. */
module LowLinkExample {
  import opened Graphs
  import opened LowLinkFacts
  import opened LowLink

  /** The undirected path 0 - 1 - 2 - 3, each edge stored in both lists. */
  function PathGraph(): (g: Adj)
    ensures |g| == 4
  {
    [[Edge(0, 1, 1, 0)], [Edge(1, 0, 1, 0), Edge(1, 2, 1, 1)], [Edge(2, 1, 1, 1), Edge(2, 3, 1, 2)], [Edge(3, 2, 1, 2)]]
  }

  lemma PathEdges()
    ensures ValidAdj(PathGraph())
    ensures forall u, v :: 0 <= u < 4 && HasEdge(PathGraph(), u, v) ==> v == u - 1 || v == u + 1
  {
    var g: Adj := PathGraph();
    forall u, v | 0 <= u < 4 && HasEdge(g, u, v) ensures v == u - 1 || v == u + 1 {
      var i :| 0 <= i < |g[u]| && g[u][i].to == v;
    }
  }

  /** No vertex but 0 can be a search root on the path: the vertex before
      it is numbered first and has an edge into it. */
  lemma PathRoots(ord: seq<int>, tp: seq<int>)
    requires |ord| == 4 && |tp| == 4 && Roots(PathGraph(), ord, tp)
    requires forall v :: 0 <= v < 4 ==> 0 <= ord[v]
    ensures forall v :: 1 <= v < 4 ==> tp[v] != -1
  {
    var g: Adj := PathGraph();
    forall v: int | 1 <= v < 4 ensures tp[v] != -1 {
      assert g[v - 1][|g[v - 1]| - 1].to == v;
      assert 0 <= ord[v - 1] && 0 <= ord[v];
    }
  }

  /** Whatever order the search takes, on the path it is rooted at 0 and
      goes down the path. */
  lemma PathTree(ord: seq<int>, tp: seq<int>)
    requires Tree(PathGraph(), ord, tp) && Roots(PathGraph(), ord, tp)
    requires forall v :: 0 <= v < 4 ==> 0 <= ord[v]
    ensures tp == [-1, 0, 1, 2] && ord[0] < ord[1] < ord[2] < ord[3]
  {
    var g: Adj := PathGraph();
    PathEdges();
    PathRoots(ord, tp);
    forall v | 0 <= v < 4 && tp[v] != -1 ensures 0 <= tp[v] < 4 && ord[tp[v]] < ord[v] && (tp[v] == v - 1 || tp[v] == v + 1) {
      assert TreeEdge(g, ord, tp[v], v);
    }
    assert tp[3] == 2 && tp[2] == 1 && tp[1] == 0 && tp[0] == -1;
  }

  /** On the path no vertex has a back edge, so `low` is `order` everywhere. */
  lemma PathLow(ord: seq<int>, low: seq<int>, tp: seq<int>)
    requires Sized(PathGraph(), ord, low, tp) && tp == [-1, 0, 1, 2] && ord[0] < ord[1] < ord[2] < ord[3]
    requires forall v :: 0 <= v < 4 ==> Settled(PathGraph(), ord, low, tp, v)
    ensures low == ord
  {
    var g: Adj := PathGraph();
    forall v, i | 0 <= v < 4 && 0 <= i < |g[v]| ensures !Back(g, ord, tp, v, i) {
    }
    assert Settled(g, ord, low, tp, 3);
    assert low[3] == ord[3];
    assert Settled(g, ord, low, tp, 2);
    assert low[2] == ord[2];
    assert Settled(g, ord, low, tp, 1);
    assert low[1] == ord[1];
    assert Settled(g, ord, low, tp, 0);
    assert low[0] == ord[0];
  }

  /** `bridges_and_articulations()` on the path 0 - 1 - 2 - 3 reports the
      bridges (0, 1), (1, 2), (2, 3) and the articulation points 1 and 2. */
  lemma PathExample(ord: seq<int>, low: seq<int>, tp: seq<int>, visit: seq<int>, arts: seq<int>, bridges: seq<(int, int)>)
    requires Complete(PathGraph(), ord, low, tp, visit, arts, bridges)
    ensures (set p | p in bridges) == {(0, 1), (1, 2), (2, 3)}
    ensures (set u | u in arts) == {1, 2}
  {
    CompleteSettled(PathGraph(), ord, low, tp, visit, arts, bridges);
    PathTree(ord, tp);
    PathLow(ord, low, tp);
    PathBridges(ord, low, tp, bridges);
    PathArts(ord, low, tp, arts);
  }

  /** Every tree edge of the path is a bridge. */
  lemma PathBridges(ord: seq<int>, low: seq<int>, tp: seq<int>, bridges: seq<(int, int)>)
    requires |ord| == 4 && tp == [-1, 0, 1, 2] && low == ord && ord[0] < ord[1] < ord[2] < ord[3]
    requires Bridged(ord, low, tp, Range(4), bridges)
    ensures (set p | p in bridges) == {(0, 1), (1, 2), (2, 3)}
  {
    assert BridgeChild(ord, low, tp, 1) && BridgeChild(ord, low, tp, 2) && BridgeChild(ord, low, tp, 3);
    assert 1 in Range(4) && 2 in Range(4) && 3 in Range(4);
    forall p | p in bridges ensures p in {(0, 1), (1, 2), (2, 3)} {
      var v :| v in Range(4) && 0 <= v < |ord| && BridgeChild(ord, low, tp, v) && p == MinMax(tp[v], v);
    }
  }

  /** The inner vertices of the path are its articulation points; the root 0 has one child only. */
  lemma PathArts(ord: seq<int>, low: seq<int>, tp: seq<int>, arts: seq<int>)
    requires |ord| == 4 && tp == [-1, 0, 1, 2] && low == ord && ord[0] < ord[1] < ord[2] < ord[3]
    requires Arted(ord, low, tp, Range(4), arts)
    ensures (set u | u in arts) == {1, 2}
  {
    assert Kids(tp, 0) == {1};
    assert Articulation(ord, low, tp, 1) && Articulation(ord, low, tp, 2);
    assert 1 in Range(4) && 2 in Range(4);
  }

  /** The search itself run on the path. */
  method PathRun() returns (bridges: seq<(int, int)>, arts: seq<int>)
    ensures (set p | p in bridges) == {(0, 1), (1, 2), (2, 3)}
    ensures (set u | u in arts) == {1, 2}
  {
    PathEdges();
    ghost var ord, low, tp, visit;
    bridges, arts, ord, low, tp, visit := BridgesAndArticulations(PathGraph());
    PathExample(ord, low, tp, visit, arts, bridges);
  }
}
