/** `bipartite_grouping` of graph/graph.hpp: a depth-first two-colouring.
    Colours start at -1 (uncoloured); `dfs(now, col)` colours `now` and gives
    every uncoloured neighbour the other colour, failing on a neighbour that
    already has colour `col`. */
module Bipartite {
  import opened Graphs

  /** `!col` read back as an int: 1 for colour 0 and 0 for anything else. */
  function Flip(col: int): (r: int)
    ensures r == 0 || r == 1
    ensures r == 1 <==> col == 0
  {
    if col == 0 then 1 else 0
  }

  /** `c` gives every vertex colour 0 or 1 and the two ends of every stored edge different colours. */
  ghost predicate TwoColouring(g: Adj, c: seq<int>) {
    |c| == |g| &&
    (forall v :: 0 <= v < |c| ==> c[v] == 0 || c[v] == 1) &&
    forall u, i :: 0 <= u < |g| && 0 <= i < |g[u]| ==> 0 <= g[u][i].to < |g| && c[u] != c[g[u][i].to]
  }

  ghost predicate IsBipartite(g: Adj) {
    exists c :: TwoColouring(g, c)
  }

  /** Along a walk, a two-colouring alternates: the colour at the end is fixed by the parity of the length. */
  lemma {:induction false} WalkParity(g: Adj, c: seq<int>, root: int, v: int, p: seq<Edge>)
    requires ValidAdj(g) && TwoColouring(g, c) && 0 <= root < |g| && IsPath(g, root, v, p)
    ensures 0 <= v < |g| && c[v] == (if |p| % 2 == 0 then c[root] else Flip(c[root]))
    decreases |p|
  {
    if p != [] {
      var e := p[|p| - 1];
      WalkParity(g, c, root, e.from, p[..|p| - 1]);
      var i :| 0 <= i < |g[e.from]| && g[e.from][i] == e;
      assert c[e.from] != c[v];
    }
  }

  // ---------------------------------------------------------------- colouring state

  ghost predicate Palette(colors: seq<int>) {
    forall v :: 0 <= v < |colors| ==> -1 <= colors[v] <= 1
  }

  /** Every edge of `v` leads to a coloured vertex of the other colour. */
  ghost predicate Good(g: Adj, colors: seq<int>, v: int)
    requires ValidAdj(g) && |colors| == |g| && 0 <= v < |g|
  {
    forall i :: 0 <= i < |g[v]| ==> colors[g[v][i].to] != -1 && colors[g[v][i].to] != colors[v]
  }

  /** Each coloured vertex is either good or reached from `root` by a walk
      whose parity is its colour. */
  ghost predicate Explained(g: Adj, colors: seq<int>, root: int, walks: seq<seq<Edge>>)
    requires ValidAdj(g) && |colors| == |g|
  {
    |walks| == |g| &&
    forall v :: 0 <= v < |g| && colors[v] != -1 ==>
      Good(g, colors, v) || (IsPath(g, root, v, walks[v]) && |walks[v]| % 2 == colors[v])
  }

  /** Coloured vertices keep their colour. */
  ghost predicate Keeps(a: seq<int>, b: seq<int>) {
    |a| == |b| && forall v :: 0 <= v < |a| && a[v] != -1 ==> b[v] == a[v]
  }

  /** Two vertices joined by an edge and coloured alike, both explained by
      walks from one root: in a symmetric graph the colouring cannot be repaired. */
  lemma Conflict(g: Adj, colors: seq<int>, root: int, walks: seq<seq<Edge>>, now: int, i: int)
    requires ValidAdj(g) && |colors| == |g| && 0 <= root < |g| && Explained(g, colors, root, walks)
    requires 0 <= now < |g| && 0 <= i < |g[now]| && colors[now] != -1
    requires IsPath(g, root, now, walks[now]) && |walks[now]| % 2 == colors[now]
    requires colors[g[now][i].to] == colors[now]
    ensures Symmetric(g) ==> !IsBipartite(g)
  {
    var w := g[now][i].to;
    if Symmetric(g) && IsBipartite(g) {
      var j :| 0 <= j < |g[w]| && g[w][j].to == now;
      assert !Good(g, colors, w);
      var c :| TwoColouring(g, c);
      WalkParity(g, c, root, now, walks[now]);
      WalkParity(g, c, root, w, walks[w]);
      assert false;
    }
  }

  // ---------------------------------------------------------------- the search

  /** The walks of vertices coloured before are kept. */
  ghost predicate KeepsWalks(colors: seq<int>, walks: seq<seq<Edge>>, walks': seq<seq<Edge>>) {
    |walks| == |walks'| == |colors| && forall v :: 0 <= v < |colors| && colors[v] != -1 ==> walks'[v] == walks[v]
  }

  /** Every vertex that was uncoloured in `before` and is coloured now is good. */
  ghost predicate NewlyGood(g: Adj, before: seq<int>, colors: seq<int>)
    requires ValidAdj(g) && |before| == |colors| == |g|
  {
    forall v :: 0 <= v < |g| && before[v] == -1 && colors[v] != -1 ==> Good(g, colors, v)
  }

  /** The recursive `dfs(now, col)`: colour `now`, then its neighbours. On
      success every vertex it coloured is good; on failure the graph, if
      symmetric, has no two-colouring. */
  method Colour(g: Adj, colors: array<int>, now: int, col: int,
                ghost root: int, ghost walks: seq<seq<Edge>>, ghost pw: seq<Edge>) returns (ok: bool, ghost walks': seq<seq<Edge>>)
    requires ValidAdj(g) && colors.Length == |g| && 0 <= now < |g| && 0 <= root < |g|
    requires colors[now] == -1 && (col == 0 || col == 1)
    requires Palette(colors[..]) && Explained(g, colors[..], root, walks)
    requires IsPath(g, root, now, pw) && |pw| % 2 == col
    modifies colors
    ensures Palette(colors[..]) && Explained(g, colors[..], root, walks')
    ensures Keeps(old(colors[..]), colors[..]) && KeepsWalks(old(colors[..]), walks, walks') && colors[now] == col
    ensures ok ==> NewlyGood(g, old(colors[..]), colors[..])
    ensures !ok ==> (Symmetric(g) ==> !IsBipartite(g))
    decreases Count(colors[..], -1), 2
  {
    ghost var entry := colors[..];
    colors[now] := col;
    ghost var w0 := walks[now := pw];
    CountShrink(entry, colors[..], now, -1);
    ok, walks' := ColourNeighbours(g, colors, now, col, root, w0, pw, Count(entry, -1));
  }

  /** What every step of the colouring keeps, from the state `c0` on entry. */
  ghost predicate Kept(g: Adj, c0: seq<int>, colors: seq<int>, root: int, walks: seq<seq<Edge>>, walks': seq<seq<Edge>>)
    requires ValidAdj(g)
  {
    |c0| == |g| && |colors| == |g| && Palette(colors) && Explained(g, colors, root, walks') &&
    Keeps(c0, colors) && KeepsWalks(c0, walks, walks')
  }

  /** The edge loop of `dfs(now, col)` after the first `i` edges: those lead to the other colour. */
  ghost predicate Scan(g: Adj, c0: seq<int>, colors: seq<int>, root: int, walks: seq<seq<Edge>>, walks': seq<seq<Edge>>,
                       now: int, col: int, pw: seq<Edge>, bound: nat, i: int) {
    ValidAdj(g) && 0 <= now < |g| && 0 <= root < |g| && 0 <= i <= |g[now]| &&
    Kept(g, c0, colors, root, walks, walks') && NewlyGood(g, c0, colors) && Count(colors, -1) < bound &&
    c0[now] == col && (col == 0 || col == 1) && walks[now] == pw && IsPath(g, root, now, pw) && |pw| % 2 == col &&
    forall j :: 0 <= j < i ==> colors[g[now][j].to] != -1 && colors[g[now][j].to] != col
  }

  /** The edge loop of `dfs(now, col)`: fail on a neighbour coloured `col`,
      colour every uncoloured neighbour `!col`. */
  method ColourNeighbours(g: Adj, colors: array<int>, now: int, col: int, ghost root: int,
                          ghost walks: seq<seq<Edge>>, ghost pw: seq<Edge>, ghost bound: nat)
    returns (ok: bool, ghost walks': seq<seq<Edge>>)
    requires ValidAdj(g) && colors.Length == |g| && 0 <= now < |g| && 0 <= root < |g|
    requires colors[now] == col && (col == 0 || col == 1) && Count(colors[..], -1) < bound
    requires Palette(colors[..]) && Explained(g, colors[..], root, walks) && walks[now] == pw
    requires IsPath(g, root, now, pw) && |pw| % 2 == col
    modifies colors
    ensures Palette(colors[..]) && Explained(g, colors[..], root, walks')
    ensures Keeps(old(colors[..]), colors[..]) && KeepsWalks(old(colors[..]), walks, walks')
    ensures ok ==> NewlyGood(g, old(colors[..]), colors[..]) && Good(g, colors[..], now)
    ensures !ok ==> (Symmetric(g) ==> !IsBipartite(g))
    decreases bound, 1
  {
    ghost var c0 := colors[..];
    walks' := walks;
    var i := 0;
    while i < |g[now]|
      invariant Scan(g, c0, colors[..], root, walks, walks', now, col, pw, bound, i)
      decreases |g[now]| - i
    {
      ok, walks' := ColourEdge(g, colors, now, col, root, c0, walks, walks', pw, bound, i);
      if !ok {
        return;
      }
      i := i + 1;
    }
    ok := true;
  }

  /** One edge of the loop: a conflict fails; an uncoloured neighbour is coloured `!col`. */
  method ColourEdge(g: Adj, colors: array<int>, now: int, col: int, ghost root: int, ghost c0: seq<int>,
                    ghost walks: seq<seq<Edge>>, ghost walks': seq<seq<Edge>>, ghost pw: seq<Edge>, ghost bound: nat, i: int)
    returns (ok: bool, ghost walks'': seq<seq<Edge>>)
    requires colors.Length == |g| && Scan(g, c0, colors[..], root, walks, walks', now, col, pw, bound, i) && i < |g[now]|
    modifies colors
    ensures ok ==> Scan(g, c0, colors[..], root, walks, walks'', now, col, pw, bound, i + 1)
    ensures !ok ==> Kept(g, c0, colors[..], root, walks, walks'') && (Symmetric(g) ==> !IsBipartite(g))
    decreases bound, 0
  {
    var e := g[now][i];
    walks'' := walks';
    if col == colors[e.to] {
      Conflict(g, colors[..], root, walks', now, i);
      return false, walks'';
    }
    ok := true;
    if colors[e.to] == -1 {
      ghost var before := colors[..];
      PathExtend(g, root, now, pw, e);
      var r;
      r, walks'' := Colour(g, colors, e.to, Flip(col), root, walks', pw + [e]);
      CountNoMore(before, colors[..], -1);
      ok := r;
    }
  }

  /** `bipartite_grouping()` as written: the driver runs `dfs(i, 0)` only when
      `!colors[i]`, i.e. when vertex `i` already has colour 0, which no vertex
      ever gets, so the search never starts and every colour stays -1. */
  method BipartiteGrouping(g: Adj) returns (res: seq<int>)
    requires ValidAdj(g)
    ensures res == seq(|g|, _ => -1)
  {
    var n := |g|;
    var colors := new int[n](_ => -1);
    var i := 0;
    while i < n
      invariant 0 <= i <= n && colors[..] == seq(n, _ => -1)
    {
      if colors[i] == 0 {
        assert false;
      }
      i := i + 1;
    }
    res := colors[..];
  }

  /** A colouring of -1 everywhere does not two-colour any graph with a vertex:
      what `bipartite_grouping` returns contradicts its own description. */
  lemma UncolouredIsNotColouring(g: Adj)
    requires |g| >= 1
    ensures !TwoColouring(g, seq(|g|, _ => -1))
  {
    assert seq(|g|, _ => -1)[0] == -1;
  }

  /** The evidently intended driver: start `dfs(i, 0)` at every vertex that
      is still uncoloured. A non-empty result two-colours the graph; an empty
      one (for a graph with vertices) means a symmetric graph has no two-colouring. */
  method BipartiteGroupingFixed(g: Adj) returns (res: seq<int>)
    requires ValidAdj(g)
    ensures res != [] ==> TwoColouring(g, res)
    ensures res == [] ==> |g| == 0 || (Symmetric(g) ==> !IsBipartite(g))
  {
    var n := |g|;
    var colors := new int[n](_ => -1);
    ghost var walks: seq<seq<Edge>> := seq(n, _ => []);
    var i := 0;
    while i < n
      invariant 0 <= i <= n && colors.Length == n && |walks| == n
      invariant Palette(colors[..])
      invariant forall v :: 0 <= v < n && colors[v] != -1 ==> Good(g, colors[..], v)
      invariant forall j :: 0 <= j < i ==> colors[j] != -1
    {
      if colors[i] == -1 {
        var ok;
        ok, walks := Colour(g, colors, i, 0, i, walks, []);
        if !ok {
          return [];
        }
      }
      i := i + 1;
    }
    res := colors[..];
  }

  /** `is_bipartite()` as written: a non-empty grouping, which with the driver
      above means only that the graph has a vertex. */
  method CheckBipartite(g: Adj) returns (r: bool)
    requires ValidAdj(g)
    ensures r <==> |g| > 0
  {
    var res := BipartiteGrouping(g);
    r := res != [];
  }

  /** `is_bipartite()` over the intended driver: true only for a two-colourable
      graph, and for a symmetric graph with a vertex exactly when it is two-colourable. */
  method CheckBipartiteFixed(g: Adj) returns (r: bool)
    requires ValidAdj(g)
    ensures r ==> |g| > 0 && IsBipartite(g)
    ensures Symmetric(g) && |g| > 0 ==> (r <==> IsBipartite(g))
  {
    var res := BipartiteGroupingFixed(g);
    r := res != [];
  }
}
