/** `centroid` of graph/graph.hpp: one depth-first search from vertex 0 of
    a tree sets `sz[v]` to the size of the subtree below `v` and reports `v`
    when no child subtree and not the rest of the tree, `n - sz[v]`, holds
    more than `n / 2` vertices. The tree is described by a ghost parent and
    depth for every vertex, rooted at 0. */
module Centroids {
  import opened Graphs

  // ---------------------------------------------------------------- rooted trees

  /** `par` and `dep` root a tree at 0: every other vertex has a parent one level up. */
  ghost predicate Shape(par: seq<int>, dep: seq<int>) {
    |par| == |dep| >= 1 && par[0] == -1 && dep[0] == 0 &&
    (forall v :: 0 <= v < |dep| ==> 0 <= dep[v] && (dep[v] == 0 ==> v == 0)) &&
    forall v {:trigger par[v]} :: 0 < v < |par| ==> 0 <= par[v] < |par| && 0 < dep[v] < |par| && dep[v] == dep[par[v]] + 1
  }

  /** The adjacency lists of `g` are the tree `par`: each list holds its
      vertex's children, each once, and possibly edges back to its parent. */
  ghost predicate RootedTree(g: Adj, par: seq<int>, dep: seq<int>) {
    Shape(par, dep) && |g| == |par| &&
    (forall u, i :: 0 <= u < |g| && 0 <= i < |g[u]| ==>
      0 <= g[u][i].to < |g| && (g[u][i].to == par[u] || par[g[u][i].to] == u)) &&
    (forall u, i, j :: 0 <= u < |g| && 0 <= i < j < |g[u]| && g[u][i].to != par[u] ==> g[u][i].to != g[u][j].to) &&
    (forall v :: 0 < v < |g| ==> Listed(g, par[v], v))
  }

  ghost predicate Listed(g: Adj, u: int, v: int)
    requires 0 <= u < |g|
  {
    exists i :: 0 <= i < |g[u]| && g[u][i].to == v
  }

  /** The ancestor of `w` at depth `d`, or `w` when it is not deeper than `d`. */
  ghost function Climb(par: seq<int>, dep: seq<int>, w: int, d: int): (r: int)
    requires Shape(par, dep) && 0 <= w < |par| && 0 <= d
    ensures 0 <= r < |par|
    ensures dep[w] <= d ==> r == w
    ensures d <= dep[w] ==> dep[r] == d
    decreases dep[w]
  {
    if dep[w] <= d then w else Climb(par, dep, par[w], d)
  }

  /** `w` lies in the subtree of `v`. */
  ghost predicate InSub(par: seq<int>, dep: seq<int>, v: int, w: int)
    requires Shape(par, dep) && 0 <= v < |par| && 0 <= w < |par|
  {
    dep[v] <= dep[w] && Climb(par, dep, w, dep[v]) == v
  }

  ghost function Sub(par: seq<int>, dep: seq<int>, v: int): set<int>
    requires Shape(par, dep) && 0 <= v < |par|
  {
    set w | 0 <= w < |par| && InSub(par, dep, v, w)
  }

  /** Neither a child subtree of `v` nor the rest of the tree holds more than half the vertices. */
  ghost predicate IsCentroid(par: seq<int>, dep: seq<int>, v: int)
    requires Shape(par, dep) && 0 <= v < |par|
  {
    (forall c :: 0 < c < |par| && par[c] == v ==> |Sub(par, dep, c)| <= |par| / 2) &&
    |par| - |Sub(par, dep, v)| <= |par| / 2
  }

  /** One level below depth `d + 1` the climb reaches the parent. */
  lemma {:induction false} ClimbStep(par: seq<int>, dep: seq<int>, w: int, d: int)
    requires Shape(par, dep) && 0 <= w < |par| && 0 <= d < dep[w]
    ensures 0 < Climb(par, dep, w, d + 1) && par[Climb(par, dep, w, d + 1)] == Climb(par, dep, w, d)
    decreases dep[w]
  {
    if dep[w] > d + 1 {
      ClimbStep(par, dep, par[w], d);
    }
  }

  /** The subtree of a child `c` of `v` is the part of `v`'s subtree that climbs to `c`. */
  lemma ChildSub(par: seq<int>, dep: seq<int>, v: int, c: int, w: int)
    requires Shape(par, dep) && 0 <= v < |par| && 0 < c < |par| && par[c] == v && 0 <= w < |par|
    ensures InSub(par, dep, c, w) <==> InSub(par, dep, v, w) && w != v && Climb(par, dep, w, dep[v] + 1) == c
  {
    if dep[v] < dep[w] {
      ClimbStep(par, dep, w, dep[v]);
    }
  }

  /** Every vertex strictly below `v` is below one of `v`'s children. */
  lemma Cover(par: seq<int>, dep: seq<int>, v: int, w: int)
    requires Shape(par, dep) && 0 <= v < |par| && 0 <= w < |par| && InSub(par, dep, v, w) && w != v
    ensures dep[v] < dep[w]
    ensures var c := Climb(par, dep, w, dep[v] + 1); 0 < c && par[c] == v && InSub(par, dep, c, w)
  {
    ClimbStep(par, dep, w, dep[v]);
  }

  /** The whole tree is the subtree of the root. */
  lemma RootSub(par: seq<int>, dep: seq<int>, w: int)
    requires Shape(par, dep) && 0 <= w < |par|
    ensures InSub(par, dep, 0, w)
  {
    var r := Climb(par, dep, w, 0);
  }

  // ---------------------------------------------------------------- the search

  /** `D`, children of `v`, have been searched: the vertices counted so far
      are `v` and the subtrees of `D`. */
  ghost function Covered(par: seq<int>, dep: seq<int>, v: int, D: set<int>): set<int>
    requires Shape(par, dep) && 0 <= v < |par|
  {
    set w | 0 <= w < |par| && InSub(par, dep, v, w) && (w == v || Climb(par, dep, w, dep[v] + 1) in D)
  }

  /** `s` lists the set `A`, each element once. */
  ghost predicate Lists(s: seq<int>, A: set<int>) {
    Distinct(s) && forall x :: x in s <==> x in A
  }

  lemma ListsAppend(a: seq<int>, A: set<int>, b: seq<int>, B: set<int>)
    requires Lists(a, A) && Lists(b, B) && A * B == {}
    ensures Lists(a + b, A + B)
  {
    forall i, j | 0 <= i < j < |a + b|
      ensures (a + b)[i] != (a + b)[j]
    {
      if j < |a| {
        assert (a + b)[i] == a[i] && (a + b)[j] == a[j];
        assert a[i] != a[j];
      } else if i >= |a| {
        assert (a + b)[i] == b[i - |a|] && (a + b)[j] == b[j - |a|];
        assert b[i - |a|] != b[j - |a|];
      } else {
        assert (a + b)[i] == a[i] && (a + b)[j] == b[j - |a|];
        assert a[i] in A && b[j - |a|] in B;
        assert a[i] !in A * B;
      }
    }
  }

  /** The centroids among the vertices of `S`. */
  ghost function CenIn(par: seq<int>, dep: seq<int>, S: set<int>): set<int>
    requires Shape(par, dep)
  {
    set x | x in S && 0 <= x < |par| && IsCentroid(par, dep, x)
  }

  /** `D` holds exactly the children named by the first `k` entries of `now`'s list. */
  ghost predicate Kids(g: Adj, par: seq<int>, now: int, k: int, D: set<int>)
    requires 0 <= now < |g| == |par|
  {
    forall c :: c in D <==> Among(g, now, par[now], k, c)
  }

  /** `sz` holds the count of the covered part `C` at `now`, the subtree
      sizes below it, and the values of `sz0` elsewhere. */
  ghost predicate Sized(par: seq<int>, dep: seq<int>, now: int, C: set<int>, sz: seq<int>, sz0: seq<int>)
    requires Shape(par, dep) && 0 <= now < |par|
  {
    |sz| == |par| && |sz0| == |par| && sz[now] == |C| &&
    (forall w :: 0 <= w < |par| && w in C && w != now ==> sz[w] == |Sub(par, dep, w)|) &&
    (forall w :: 0 <= w < |par| && w !in C ==> sz[w] == sz0[w])
  }

  /** The loop state of the search at `now` after the first `k` entries of
      its list: `D` holds the children searched, `sz` their subtree sizes,
      `flag` whether all of them are small and `mine` the centroids found below them. */
  ghost predicate Scanned(g: Adj, par: seq<int>, dep: seq<int>, now: int, k: int, D: set<int>,
                          sz: seq<int>, sz0: seq<int>, flag: bool, mine: seq<int>)
    requires RootedTree(g, par, dep) && 0 <= now < |g|
  {
    0 <= k <= |g[now]| && Kids(g, par, now, k, D) &&
    Sized(par, dep, now, Covered(par, dep, now, D), sz, sz0) &&
    (flag <==> forall c :: c in D ==> Small(par, dep, c)) &&
    Lists(mine, CenIn(par, dep, Covered(par, dep, now, D) - {now}))
  }

  /** `c` is the target of one of the first `k` entries of `u`'s list other than `per`. */
  ghost predicate Among(g: Adj, u: int, per: int, k: int, c: int)
    requires 0 <= u < |g|
  {
    exists j :: 0 <= j < k && j < |g[u]| && g[u][j].to == c && c != per
  }

  ghost predicate Small(par: seq<int>, dep: seq<int>, c: int)
    requires Shape(par, dep)
  {
    0 <= c < |par| && |Sub(par, dep, c)| <= |par| / 2
  }

  /** The subtree of a further child is disjoint from what has been covered and adds to it. */
  lemma CoveredAdd(par: seq<int>, dep: seq<int>, now: int, D: set<int>, c: int)
    requires Shape(par, dep) && 0 <= now < |par| && 0 < c < |par| && par[c] == now && c !in D
    ensures Covered(par, dep, now, D + {c}) == Covered(par, dep, now, D) + Sub(par, dep, c)
    ensures Covered(par, dep, now, D) * Sub(par, dep, c) == {}
    ensures now !in Sub(par, dep, c) && now in Covered(par, dep, now, D)
  {
    forall w | 0 <= w < |par|
      ensures InSub(par, dep, c, w) <==> InSub(par, dep, now, w) && w != now && Climb(par, dep, w, dep[now] + 1) == c
    {
      ChildSub(par, dep, now, c, w);
    }
  }

  /** Before any child is searched only `now` itself is covered. */
  lemma CoveredNone(par: seq<int>, dep: seq<int>, now: int)
    requires Shape(par, dep) && 0 <= now < |par|
    ensures Covered(par, dep, now, {}) == {now}
  {
    assert InSub(par, dep, now, now);
  }

  /** Once every child is searched, the covered vertices are the whole subtree. */
  lemma CoveredAll(par: seq<int>, dep: seq<int>, now: int, D: set<int>)
    requires Shape(par, dep) && 0 <= now < |par|
    requires forall c :: 0 < c < |par| && par[c] == now ==> c in D
    ensures Covered(par, dep, now, D) == Sub(par, dep, now)
  {
    forall w | 0 <= w < |par| && InSub(par, dep, now, w) && w != now
      ensures Climb(par, dep, w, dep[now] + 1) in D
    {
      Cover(par, dep, now, w);
    }
  }

  /** The entries of `now`'s list other than its parent are exactly its children. */
  lemma ChildrenListed(g: Adj, par: seq<int>, dep: seq<int>, now: int)
    requires RootedTree(g, par, dep) && 0 <= now < |g|
    ensures forall c :: Among(g, now, par[now], |g[now]|, c) <==> 0 < c < |g| && par[c] == now
  {
    forall c | 0 < c < |g| && par[c] == now
      ensures Among(g, now, par[now], |g[now]|, c)
    {
      assert Listed(g, par[c], c);
      var i :| 0 <= i < |g[now]| && g[now][i].to == c;
      assert c != par[now] by {
        if now > 0 {
          assert dep[now] == dep[par[now]] + 1;
        }
      }
    }
  }

  /** An entry back to the parent is skipped. */
  lemma SkipParent(g: Adj, par: seq<int>, dep: seq<int>, now: int, k: int, D: set<int>)
    requires RootedTree(g, par, dep) && 0 <= now < |g| && 0 <= k < |g[now]| && g[now][k].to == par[now]
    requires Kids(g, par, now, k, D)
    ensures Kids(g, par, now, k + 1, D)
  {
    forall c
      ensures Among(g, now, par[now], k + 1, c) <==> Among(g, now, par[now], k, c)
    {
      if Among(g, now, par[now], k + 1, c) {
        var j :| 0 <= j < k + 1 && j < |g[now]| && g[now][j].to == c && c != par[now];
        assert j < k;
      }
    }
  }

  /** An entry to a child names a child not searched before. */
  lemma KidsStep(g: Adj, par: seq<int>, dep: seq<int>, now: int, k: int, D: set<int>, to: int)
    requires RootedTree(g, par, dep) && 0 <= now < |g| && 0 <= k < |g[now]| && to == g[now][k].to && to != par[now]
    requires Kids(g, par, now, k, D)
    ensures 0 < to < |g| && par[to] == now && to !in D
    ensures Kids(g, par, now, k + 1, D + {to})
  {
    forall c
      ensures Among(g, now, par[now], k + 1, c) <==> Among(g, now, par[now], k, c) || c == to
    {
      if Among(g, now, par[now], k + 1, c) && c != to {
        var j :| 0 <= j < k + 1 && j < |g[now]| && g[now][j].to == c && c != par[now];
        assert j < k;
      }
    }
  }

  /** Adding the sizes of a child's subtree `S`, disjoint from the covered part `C`. */
  lemma SizedStep(par: seq<int>, dep: seq<int>, now: int, C: set<int>, to: int,
                  sz: seq<int>, sz1: seq<int>, sz2: seq<int>, sz0: seq<int>)
    requires Shape(par, dep) && 0 <= now < |par| && 0 < to < |par|
    requires Sized(par, dep, now, C, sz, sz0) && now in C
    requires C * Sub(par, dep, to) == {} && now !in Sub(par, dep, to) && to in Sub(par, dep, to)
    requires |sz1| == |par|
    requires forall w :: 0 <= w < |par| && w in Sub(par, dep, to) ==> sz1[w] == |Sub(par, dep, w)|
    requires forall w :: 0 <= w < |par| && w !in Sub(par, dep, to) ==> sz1[w] == sz[w]
    requires |sz2| == |par| && sz2[now] == sz1[now] + sz1[to]
    requires forall w :: 0 <= w < |par| && w != now ==> sz2[w] == sz1[w]
    ensures Sized(par, dep, now, C + Sub(par, dep, to), sz2, sz0)
  {
    var S := Sub(par, dep, to);
    assert |C + S| == |C| + |S|;
    forall w | 0 <= w < |par| && w in C && w != now
      ensures sz2[w] == |Sub(par, dep, w)|
    {
      assert w !in C * S;
    }
  }

  /** The centroids of two disjoint parts are the centroids of each. */
  lemma CenInUnion(par: seq<int>, dep: seq<int>, C: set<int>, S: set<int>, now: int)
    requires Shape(par, dep) && now !in S && C * S == {}
    ensures CenIn(par, dep, C + S - {now}) == CenIn(par, dep, C - {now}) + CenIn(par, dep, S)
    ensures CenIn(par, dep, C - {now}) * CenIn(par, dep, S) == {}
  {
  }

  /** A child searched: its subtree joins the covered part, its size is added
      to `now`'s, and the centroids found below it are appended. */
  lemma ChildDone(g: Adj, par: seq<int>, dep: seq<int>, now: int, k: int, D: set<int>,
                  sz: seq<int>, sz1: seq<int>, sz2: seq<int>, sz0: seq<int>, flag: bool, flag': bool,
                  mine: seq<int>, more: seq<int>, to: int)
    requires RootedTree(g, par, dep) && 0 <= now < |g| && 0 <= k < |g[now]| && to == g[now][k].to && to != par[now]
    requires Scanned(g, par, dep, now, k, D, sz, sz0, flag, mine)
    requires |sz1| == |g| && Lists(more, CenIn(par, dep, Sub(par, dep, to)))
    requires forall w :: 0 <= w < |g| && w in Sub(par, dep, to) ==> sz1[w] == |Sub(par, dep, w)|
    requires forall w :: 0 <= w < |g| && w !in Sub(par, dep, to) ==> sz1[w] == sz[w]
    requires |sz2| == |g| && sz2[now] == sz1[now] + sz1[to] && forall w :: 0 <= w < |g| && w != now ==> sz2[w] == sz1[w]
    requires flag' == (flag && sz1[to] <= |g| / 2)
    ensures Scanned(g, par, dep, now, k + 1, D + {to}, sz2, sz0, flag', mine + more)
  {
    KidsStep(g, par, dep, now, k, D, to);
    CoveredAdd(par, dep, now, D, to);
    var C := Covered(par, dep, now, D);
    var S := Sub(par, dep, to);
    assert to in S by {
      assert InSub(par, dep, to, to);
    }
    SizedStep(par, dep, now, C, to, sz, sz1, sz2, sz0);
    CenInUnion(par, dep, C, S, now);
    ListsAppend(mine, CenIn(par, dep, C - {now}), more, CenIn(par, dep, S));
  }

  /** The state after the whole list: the subtree of `now` is exactly what was covered. */
  lemma ScanDone(g: Adj, par: seq<int>, dep: seq<int>, now: int, D: set<int>,
                 sz: seq<int>, sz0: seq<int>, flag: bool, mine: seq<int>)
    requires RootedTree(g, par, dep) && 0 <= now < |g|
    requires Scanned(g, par, dep, now, |g[now]|, D, sz, sz0, flag, mine)
    ensures forall w :: 0 <= w < |g| && w in Sub(par, dep, now) ==> sz[w] == |Sub(par, dep, w)|
    ensures forall w :: 0 <= w < |g| && w !in Sub(par, dep, now) ==> sz[w] == sz0[w]
    ensures (flag && |g| - sz[now] <= |g| / 2) <==> IsCentroid(par, dep, now)
    ensures Lists(mine, CenIn(par, dep, Sub(par, dep, now) - {now}))
    ensures now in Sub(par, dep, now)
  {
    ChildrenListed(g, par, dep, now);
    CoveredAll(par, dep, now, D);
    assert InSub(par, dep, now, now);
  }

  /** Reporting `now` after the vertices below it completes the centroids of `S`. */
  lemma Report(par: seq<int>, dep: seq<int>, now: int, S: set<int>, found: seq<int>, isCentroid: bool)
    requires Shape(par, dep) && 0 <= now < |par| && now in S
    requires Lists(found, CenIn(par, dep, S - {now})) && (isCentroid <==> IsCentroid(par, dep, now))
    ensures Lists(if isCentroid then found + [now] else found, CenIn(par, dep, S))
  {
    if isCentroid {
      ListsAppend(found, CenIn(par, dep, S - {now}), [now], {now});
      assert CenIn(par, dep, S - {now}) + {now} == CenIn(par, dep, S);
    } else {
      assert CenIn(par, dep, S - {now}) == CenIn(par, dep, S);
    }
  }

  /** The search below `now`, entered from its parent `per`: it stores the
      size of every subtree below `now` in `sz`, leaves the rest of `sz`
      alone and returns the centroids below `now`, each once, in the order
      the search reports them. */
  method Dfs(g: Adj, ghost par: seq<int>, ghost dep: seq<int>, sz: array<int>, now: int, per: int)
      returns (found: seq<int>)
    requires RootedTree(g, par, dep) && 0 <= now < |g| && per == par[now] && sz.Length == |g|
    modifies sz
    ensures forall w :: 0 <= w < |g| && w in Sub(par, dep, now) ==> sz[w] == |Sub(par, dep, w)|
    ensures forall w :: 0 <= w < |g| && w !in Sub(par, dep, now) ==> sz[w] == old(sz[w])
    ensures Lists(found, CenIn(par, dep, Sub(par, dep, now)))
    decreases |g| - dep[now], 1
  {
    var n := |g|;
    CoveredNone(par, dep, now);
    sz[now] := 1;
    var isCentroid := true;
    found := [];
    ghost var D: set<int> := {};
    var k := 0;
    while k < |g[now]|
      invariant Scanned(g, par, dep, now, k, D, sz[..], old(sz[..]), isCentroid, found)
    {
      var to := g[now][k].to;
      if to != per {
        isCentroid, found := Visit(g, par, dep, sz, now, k, D, isCentroid, found, old(sz[..]));
        D := D + {to};
      } else {
        SkipParent(g, par, dep, now, k, D);
      }
      k := k + 1;
    }
    ScanDone(g, par, dep, now, D, sz[..], old(sz[..]), isCentroid, found);
    if n - sz[now] > n / 2 {
      isCentroid := false;
    }
    Report(par, dep, now, Sub(par, dep, now), found, isCentroid);
    if isCentroid {
      found := found + [now];
    }
  }

  /** One child entry of the list at `now`: search below the child, add its
      subtree size to `sz[now]` and clear `isCentroid` when it is too large. */
  method Visit(g: Adj, ghost par: seq<int>, ghost dep: seq<int>, sz: array<int>, now: int, k: int,
               ghost D: set<int>, isCentroid: bool, found: seq<int>, ghost sz0: seq<int>)
      returns (isCentroid': bool, found': seq<int>)
    requires RootedTree(g, par, dep) && 0 <= now < |g| && sz.Length == |g|
    requires 0 <= k < |g[now]| && g[now][k].to != par[now]
    requires Scanned(g, par, dep, now, k, D, sz[..], sz0, isCentroid, found)
    modifies sz
    ensures Scanned(g, par, dep, now, k + 1, D + {g[now][k].to}, sz[..], sz0, isCentroid', found')
    decreases |g| - dep[now], 0
  {
    var to := g[now][k].to;
    assert par[to] == now;
    var more := Dfs(g, par, dep, sz, to, now);
    ghost var after := sz[..];
    sz[now] := sz[now] + sz[to];
    isCentroid' := isCentroid;
    if sz[to] > |g| / 2 {
      isCentroid' := false;
    }
    ChildDone(g, par, dep, now, k, D, old(sz[..]), after, sz[..], sz0, isCentroid, isCentroid', found, more, to);
    found' := found + more;
  }

  /** `centroid`: the centroids of the tree, each once. */
  method Centroid(g: Adj, ghost par: seq<int>, ghost dep: seq<int>) returns (cen: seq<int>)
    requires RootedTree(g, par, dep)
    ensures forall v :: v in cen <==> 0 <= v < |g| && IsCentroid(par, dep, v)
    ensures Distinct(cen) && |cen| >= 1
  {
    var sz := new int[|g|];
    cen := Dfs(g, par, dep, sz, 0, -1);
    forall w | 0 <= w < |g|
      ensures w in Sub(par, dep, 0)
    {
      RootSub(par, dep, w);
    }
    HasCentroid(par, dep);
  }

  // ---------------------------------------------------------------- properties

  /** Walking from `v` into a child whose subtree holds more than half the
      vertices keeps the rest of the tree at no more than half, and ends at a centroid. */
  lemma {:induction false} Descend(par: seq<int>, dep: seq<int>, v: int) returns (c: int)
    requires Shape(par, dep) && 0 <= v < |par| && |par| - |Sub(par, dep, v)| <= |par| / 2
    ensures 0 <= c < |par| && IsCentroid(par, dep, c)
    decreases |par| - dep[v]
  {
    if IsCentroid(par, dep, v) {
      c := v;
    } else {
      var h :| 0 < h < |par| && par[h] == v && |Sub(par, dep, h)| > |par| / 2;
      c := Descend(par, dep, h);
    }
  }

  /** Every tree has a centroid. */
  lemma HasCentroid(par: seq<int>, dep: seq<int>)
    requires Shape(par, dep)
    ensures exists v :: 0 <= v < |par| && IsCentroid(par, dep, v)
  {
    var all := Range(|par|);
    assert all <= Sub(par, dep, 0) by {
      forall w | w in all
        ensures w in Sub(par, dep, 0)
      {
        RootSub(par, dep, w);
      }
    }
    SubsetSize(all, Sub(par, dep, 0));
    var c := Descend(par, dep, 0);
  }

  /** A star centred at 0 with at least three vertices has the centre as its only centroid. */
  lemma Star(par: seq<int>, dep: seq<int>)
    requires Shape(par, dep) && |par| >= 3 && forall v :: 0 < v < |par| ==> par[v] == 0
    ensures forall v :: 0 <= v < |par| ==> (IsCentroid(par, dep, v) <==> v == 0)
  {
    var n := |par|;
    forall v | 0 < v < n
      ensures Sub(par, dep, v) == {v}
    {
      forall w | 0 <= w < n && InSub(par, dep, v, w)
        ensures w == v
      {
        assert dep[v] == 1;
      }
      assert InSub(par, dep, v, v);
    }
    HasCentroid(par, dep);
  }
}
