/** `kruskal` of graph/graph.hpp: list every stored edge as a triple
    (from, to, cost), sort the triples by cost and accept each one whose ends
    a union-find structure still keeps apart; the result is the total cost of
    the accepted triples. The union-find `uf_data` holds, for a root, minus
    the size of its set and, for any other vertex, its parent; `root`
    compresses paths and `unite` hangs the smaller set below the larger. */
module Kruskal {
  import opened Graphs

  type Triple = (int, int, int)

  // ---------------------------------------------------------------- the edge list

  /** The triples of the first lists of `g`, in the order the nested loop emits them. */
  function Flatten(g: Adj): (r: seq<Triple>)
    ensures forall k :: 0 <= k < |r| ==> 0 <= r[k].0 < |g|
    decreases |g|
  {
    if g == [] then []
    else
      var n := |g| - 1;
      Flatten(g[..n]) + seq(|g[n]|, i requires 0 <= i < |g[n]| => (n, g[n][i].to, g[n][i].cost))
  }

  /** Every stored edge appears, as its triple, in the list. */
  lemma {:induction false} FlattenHas(g: Adj, u: int, i: int)
    requires 0 <= u < |g| && 0 <= i < |g[u]|
    ensures (u, g[u][i].to, g[u][i].cost) in Flatten(g)
    decreases |g|
  {
    var n := |g| - 1;
    if u < n {
      FlattenHas(g[..n], u, i);
      assert g[..n][u] == g[u];
    } else {
      var tail := seq(|g[n]|, j requires 0 <= j < |g[n]| => (n, g[n][j].to, g[n][j].cost));
      assert tail[i] == (u, g[u][i].to, g[u][i].cost);
    }
  }

  /** Every triple of the list is a stored edge. */
  lemma {:induction false} FlattenStored(g: Adj, t: Triple)
    requires t in Flatten(g)
    ensures 0 <= t.0 < |g| && exists i :: 0 <= i < |g[t.0]| && g[t.0][i].to == t.1 && g[t.0][i].cost == t.2
    decreases |g|
  {
    var n := |g| - 1;
    var tail := seq(|g[n]|, j requires 0 <= j < |g[n]| => (n, g[n][j].to, g[n][j].cost));
    if t in Flatten(g[..n]) {
      FlattenStored(g[..n], t);
      assert g[..n][t.0] == g[t.0];
    } else {
      assert t in tail;
      var j :| 0 <= j < |tail| && tail[j] == t;
    }
  }

  /** The nested loop `for i, for e in edges[i]: emplace_back(i, e.to, e.cost)`. */
  method Collect(g: Adj) returns (list: seq<Triple>)
    ensures list == Flatten(g)
  {
    list := [];
    var u := 0;
    while u < |g|
      invariant 0 <= u <= |g| && list == Flatten(g[..u])
    {
      var i := 0;
      while i < |g[u]|
        invariant 0 <= i <= |g[u]|
        invariant list == Flatten(g[..u]) + seq(i, j requires 0 <= j < i => (u, g[u][j].to, g[u][j].cost))
      {
        list := list + [(u, g[u][i].to, g[u][i].cost)];
        i := i + 1;
      }
      assert g[..u + 1][..u] == g[..u];
      u := u + 1;
    }
    assert g[..|g|] == g;
  }

  // ---------------------------------------------------------------- sorting

  ghost predicate SortedByCost(s: seq<Triple>) {
    forall i, j :: 0 <= i < j < |s| ==> s[i].2 <= s[j].2
  }

  /** Putting in front an entry no dearer than any other keeps the order. */
  lemma ConsSorted(x: Triple, rest: seq<Triple>)
    requires SortedByCost(rest) && forall k :: 0 <= k < |rest| ==> x.2 <= rest[k].2
    ensures SortedByCost([x] + rest)
  {
  }

  /** A lower bound on the costs of a list and of `t` bounds every entry of their merge. */
  lemma MergeBound(rest: seq<Triple>, s: seq<Triple>, t: Triple, c: int)
    requires multiset(rest) == multiset(s) + multiset{t}
    requires c <= t.2 && forall k :: 0 <= k < |s| ==> c <= s[k].2
    ensures forall k :: 0 <= k < |rest| ==> c <= rest[k].2
  {
    forall k | 0 <= k < |rest|
      ensures c <= rest[k].2
    {
      assert rest[k] in multiset(rest);
      if rest[k] != t {
        assert rest[k] in multiset(s);
      }
    }
  }

  function InsertByCost(t: Triple, s: seq<Triple>): (r: seq<Triple>)
    requires SortedByCost(s)
    ensures SortedByCost(r) && multiset(r) == multiset(s) + multiset{t}
    decreases |s|
  {
    if s == [] || t.2 <= s[0].2 then
      ConsSorted(t, s);
      [t] + s
    else
      var rest := InsertByCost(t, s[1..]);
      assert s == [s[0]] + s[1..];
      MergeBound(rest, s[1..], t, s[0].2);
      ConsSorted(s[0], rest);
      [s[0]] + rest
  }

  /** `std::sort` by cost: a permutation of the list in non-decreasing cost
      (which of several equal-cost triples comes first is not pinned down by
      the source; this one is an insertion sort). */
  function SortByCost(s: seq<Triple>): (r: seq<Triple>)
    ensures SortedByCost(r) && multiset(r) == multiset(s)
    decreases |s|
  {
    if s == [] then []
    else
      assert s == [s[0]] + s[1..];
      InsertByCost(s[0], SortByCost(s[1..]))
  }

  // ---------------------------------------------------------------- union-find

  /** `uf_data` is a forest: every non-root entry is a vertex with a larger
      ghost level than its child, and all levels lie below `L`. */
  ghost predicate UF(uf: seq<int>, lvl: seq<int>, L: int) {
    |lvl| == |uf| &&
    forall x {:trigger uf[x]} :: 0 <= x < |uf| ==> 0 <= lvl[x] < L && (uf[x] < 0 || (uf[x] < |uf| && lvl[x] < lvl[uf[x]]))
  }

  /** Re-pointing `x` at `p`, a root marker or a vertex above it, keeps a forest. */
  lemma Repoint(uf: seq<int>, lvl: seq<int>, L: int, x: int, p: int)
    requires UF(uf, lvl, L) && 0 <= x < |uf| && (p < 0 || (p < |uf| && lvl[x] < lvl[p]))
    ensures UF(uf[x := p], lvl, L)
  {
    forall y | 0 <= y < |uf|
      ensures 0 <= lvl[y] < L && (uf[x := p][y] < 0 || (uf[x := p][y] < |uf| && lvl[y] < lvl[uf[x := p][y]]))
    {
      assert 0 <= lvl[y] < L && (uf[y] < 0 || (uf[y] < |uf| && lvl[y] < lvl[uf[y]]));
      if y == x {
        assert uf[x := p][y] == p;
      } else {
        assert uf[x := p][y] == uf[y];
      }
    }
  }

  /** The root of the tree holding `x`. */
  ghost function Find(uf: seq<int>, lvl: seq<int>, L: int, x: int): (r: int)
    requires UF(uf, lvl, L) && 0 <= x < |uf|
    ensures 0 <= r < |uf| && uf[r] < 0 && lvl[x] <= lvl[r]
    ensures uf[x] >= 0 ==> lvl[x] < lvl[r]
    decreases L - lvl[x]
  {
    if uf[x] < 0 then x else Find(uf, lvl, L, uf[x])
  }

  /** The root does not depend on the ghost levels chosen to bound the trees. */
  lemma {:induction false} FindLevels(uf: seq<int>, lvl: seq<int>, L: int, lvl': seq<int>, L': int, x: int)
    requires UF(uf, lvl, L) && UF(uf, lvl', L') && 0 <= x < |uf|
    ensures Find(uf, lvl, L, x) == Find(uf, lvl', L', x)
    decreases L - lvl[x]
  {
    if uf[x] >= 0 {
      FindLevels(uf, lvl, L, lvl', L', uf[x]);
    }
  }

  /** The vertices whose root is `r`. */
  ghost function Class(uf: seq<int>, lvl: seq<int>, L: int, r: int): set<int>
    requires UF(uf, lvl, L)
  {
    set y | 0 <= y < |uf| && Find(uf, lvl, L, y) == r
  }

  /** Every root holds minus the size of its set. */
  ghost predicate Sizes(uf: seq<int>, lvl: seq<int>, L: int)
    requires UF(uf, lvl, L)
  {
    forall r :: 0 <= r < |uf| && uf[r] < 0 ==> -uf[r] == |Class(uf, lvl, L, r)|
  }

  ghost function Roots(uf: seq<int>): set<int> {
    set x | 0 <= x < |uf| && uf[x] < 0
  }

  /** Both forests give every vertex the same root. */
  ghost predicate SamePartition(a: seq<int>, la: seq<int>, La: int, b: seq<int>, lb: seq<int>, Lb: int)
    requires UF(a, la, La) && UF(b, lb, Lb) && |a| == |b|
  {
    forall y :: 0 <= y < |a| ==> Find(b, lb, Lb, y) == Find(a, la, La, y)
  }

  /** Roots stay roots with the same entry, and non-roots stay non-roots. */
  ghost predicate SameRoots(a: seq<int>, b: seq<int>) {
    |a| == |b| && forall y :: 0 <= y < |a| ==> (a[y] < 0 <==> b[y] < 0) && (a[y] < 0 ==> b[y] == a[y])
  }

  lemma RootsSame(a: seq<int>, b: seq<int>)
    requires SameRoots(a, b)
    ensures Roots(a) == Roots(b)
  {
  }

  // ---------------------------------------------------------------- root (path compression)

  /** Pointing `x` straight at its root keeps the forest and every root. */
  lemma {:induction false} RedirectFind(uf: seq<int>, lvl: seq<int>, L: int, x: int, y: int)
    requires UF(uf, lvl, L) && 0 <= x < |uf| && uf[x] >= 0 && 0 <= y < |uf|
    ensures UF(uf[x := Find(uf, lvl, L, x)], lvl, L)
    ensures Find(uf[x := Find(uf, lvl, L, x)], lvl, L, y) == Find(uf, lvl, L, y)
    decreases L - lvl[y]
  {
    Repoint(uf, lvl, L, x, Find(uf, lvl, L, x));
    if y != x && uf[y] >= 0 {
      RedirectFind(uf, lvl, L, x, uf[y]);
    }
  }

  lemma SizesKept(a: seq<int>, la: seq<int>, La: int, b: seq<int>, lb: seq<int>, Lb: int)
    requires UF(a, la, La) && UF(b, lb, Lb) && SameRoots(a, b) && SamePartition(a, la, La, b, lb, Lb)
    requires Sizes(a, la, La)
    ensures Sizes(b, lb, Lb)
  {
    forall r | 0 <= r < |b| && b[r] < 0
      ensures -b[r] == |Class(b, lb, Lb, r)|
    {
      assert Class(b, lb, Lb, r) == Class(a, la, La, r);
    }
  }

  /** `root(x)`: the root of `x`, with every vertex on the way re-pointed at it. */
  method Root(uf: array<int>, x: int, ghost lvl: seq<int>, ghost L: int) returns (r: int)
    requires UF(uf[..], lvl, L) && 0 <= x < uf.Length
    modifies uf
    ensures UF(uf[..], lvl, L) && r == Find(old(uf[..]), lvl, L, x)
    ensures SamePartition(old(uf[..]), lvl, L, uf[..], lvl, L) && SameRoots(old(uf[..]), uf[..])
    decreases L - lvl[x]
  {
    if uf[x] < 0 {
      return x;
    }
    ghost var before := uf[..];
    r := Root(uf, uf[x], lvl, L);
    ghost var mid := uf[..];
    assert Find(mid, lvl, L, x) == r;
    Repoint(mid, lvl, L, x, r);
    uf[x] := r;
    assert uf[..] == mid[x := r];
    forall y | 0 <= y < uf.Length
      ensures Find(uf[..], lvl, L, y) == Find(before, lvl, L, y)
    {
      RedirectFind(mid, lvl, L, x, y);
    }
  }

  // ---------------------------------------------------------------- unite

  function Max(a: int, b: int): (r: int)
    ensures r >= a && r >= b && (r == a || r == b)
  {
    if a < b then b else a
  }

  /** Hanging root `v` below root `u`, with `u` raised above `v`, keeps a forest. */
  lemma LinkForest(uf: seq<int>, lvl: seq<int>, L: int, u: int, v: int, sz: int, lvl': seq<int>, L': int)
    requires UF(uf, lvl, L) && 0 <= u < |uf| && 0 <= v < |uf| && u != v && uf[u] < 0 && uf[v] < 0 && sz < 0
    requires lvl' == lvl[u := Max(lvl[u], lvl[v] + 1)] && L' == Max(L, lvl'[u] + 1)
    ensures UF(uf[u := sz][v := u], lvl', L')
  {
    var uf' := uf[u := sz][v := u];
    forall y | 0 <= y < |uf|
      ensures 0 <= lvl'[y] < L' && (uf'[y] < 0 || (uf'[y] < |uf| && lvl'[y] < lvl'[uf'[y]]))
    {
      assert 0 <= lvl[y] < L && (uf[y] < 0 || (uf[y] < |uf| && lvl[y] < lvl[uf[y]]));
      if y == v {
        assert uf'[y] == u && lvl'[y] == lvl[v] < lvl'[u];
      } else if y == u {
        assert uf'[y] == sz;
      } else {
        assert uf'[y] == uf[y] && lvl'[y] == lvl[y];
        if uf[y] >= 0 {
          assert lvl[uf[y]] <= lvl'[uf[y]];
        }
      }
    }
  }

  /** Hanging root `v` below root `u`: `v`'s set now has root `u`. */
  lemma {:induction false} LinkFind(uf: seq<int>, lvl: seq<int>, L: int, u: int, v: int, sz: int,
                                    lvl': seq<int>, L': int, y: int)
    requires UF(uf, lvl, L) && 0 <= u < |uf| && 0 <= v < |uf| && u != v && uf[u] < 0 && uf[v] < 0 && sz < 0
    requires lvl' == lvl[u := Max(lvl[u], lvl[v] + 1)] && L' == Max(L, lvl'[u] + 1)
    requires 0 <= y < |uf|
    ensures UF(uf[u := sz][v := u], lvl', L')
    ensures Find(uf[u := sz][v := u], lvl', L', y) == if Find(uf, lvl, L, y) == v then u else Find(uf, lvl, L, y)
    decreases L - lvl[y]
  {
    LinkForest(uf, lvl, L, u, v, sz, lvl', L');
    if uf[y] >= 0 {
      LinkFind(uf, lvl, L, u, v, sz, lvl', L', uf[y]);
    }
  }

  /** After the link, `u`'s set is the union of the two old sets and every other set is unchanged. */
  lemma LinkClasses(uf: seq<int>, lvl: seq<int>, L: int, u: int, v: int, sz: int, lvl': seq<int>, L': int)
    requires UF(uf, lvl, L) && 0 <= u < |uf| && 0 <= v < |uf| && u != v && uf[u] < 0 && uf[v] < 0 && sz < 0
    requires lvl' == lvl[u := Max(lvl[u], lvl[v] + 1)] && L' == Max(L, lvl'[u] + 1)
    ensures UF(uf[u := sz][v := u], lvl', L')
    ensures forall y :: 0 <= y < |uf| ==>
      Find(uf[u := sz][v := u], lvl', L', y) == if Find(uf, lvl, L, y) == v then u else Find(uf, lvl, L, y)
  {
    LinkFind(uf, lvl, L, u, v, sz, lvl', L', u);
    forall y | 0 <= y < |uf|
      ensures Find(uf[u := sz][v := u], lvl', L', y) == if Find(uf, lvl, L, y) == v then u else Find(uf, lvl, L, y)
    {
      LinkFind(uf, lvl, L, u, v, sz, lvl', L', y);
    }
  }

  /** The relabelling a link performs, stated on the two forests. */
  ghost predicate Relabels(uf: seq<int>, lvl: seq<int>, L: int, uf': seq<int>, lvl': seq<int>, L': int, u: int, v: int)
    requires UF(uf, lvl, L) && UF(uf', lvl', L') && |uf'| == |uf|
  {
    forall y :: 0 <= y < |uf| ==> Find(uf', lvl', L', y) == if Find(uf, lvl, L, y) == v then u else Find(uf, lvl, L, y)
  }

  lemma MergedClass(uf: seq<int>, lvl: seq<int>, L: int, uf': seq<int>, lvl': seq<int>, L': int, u: int, v: int)
    requires UF(uf, lvl, L) && UF(uf', lvl', L') && |uf'| == |uf| && Relabels(uf, lvl, L, uf', lvl', L', u, v) && u != v
    ensures Class(uf', lvl', L', u) == Class(uf, lvl, L, u) + Class(uf, lvl, L, v)
    ensures Class(uf, lvl, L, u) * Class(uf, lvl, L, v) == {}
  {
  }

  lemma OtherClass(uf: seq<int>, lvl: seq<int>, L: int, uf': seq<int>, lvl': seq<int>, L': int, u: int, v: int, r: int)
    requires UF(uf, lvl, L) && UF(uf', lvl', L') && |uf'| == |uf| && Relabels(uf, lvl, L, uf', lvl', L', u, v)
    requires r != u && r != v
    ensures Class(uf', lvl', L', r) == Class(uf, lvl, L, r)
  {
  }

  lemma CardUnion(a: set<int>, b: set<int>)
    requires a * b == {}
    ensures |a + b| == |a| + |b|
  {
  }

  lemma LinkSizes(uf: seq<int>, lvl: seq<int>, L: int, u: int, v: int, lvl': seq<int>, L': int)
    requires UF(uf, lvl, L) && Sizes(uf, lvl, L) && 0 <= u < |uf| && 0 <= v < |uf| && u != v && uf[u] < 0 && uf[v] < 0
    requires lvl' == lvl[u := Max(lvl[u], lvl[v] + 1)] && L' == Max(L, lvl'[u] + 1)
    ensures UF(uf[u := uf[u] + uf[v]][v := u], lvl', L') && Sizes(uf[u := uf[u] + uf[v]][v := u], lvl', L')
    ensures Relabels(uf, lvl, L, uf[u := uf[u] + uf[v]][v := u], lvl', L', u, v)
  {
    var uf' := uf[u := uf[u] + uf[v]][v := u];
    LinkClasses(uf, lvl, L, u, v, uf[u] + uf[v], lvl', L');
    assert Relabels(uf, lvl, L, uf', lvl', L', u, v);
    forall r | 0 <= r < |uf'| && uf'[r] < 0
      ensures -uf'[r] == |Class(uf', lvl', L', r)|
    {
      if r == u {
        MergedClass(uf, lvl, L, uf', lvl', L', u, v);
        CardUnion(Class(uf, lvl, L, u), Class(uf, lvl, L, v));
      } else {
        OtherClass(uf, lvl, L, uf', lvl', L', u, v, r);
      }
    }
  }

  /** A relabelling after a change that kept the partition is a relabelling of the original. */
  lemma RelabelsAfterSame(a: seq<int>, la: seq<int>, La: int, b: seq<int>, c: seq<int>, lc: seq<int>, Lc: int, u: int, v: int)
    requires UF(a, la, La) && UF(b, la, La) && UF(c, lc, Lc) && |a| == |b| == |c|
    requires SamePartition(a, la, La, b, la, La) && Relabels(b, la, La, c, lc, Lc, u, v)
    ensures Relabels(a, la, La, c, lc, Lc, u, v)
  {
  }

  /** Linking `v` below `u` in `a`, whose roots are those of `o`, removes `v` from the roots. */
  lemma RootsLink(o: seq<int>, a: seq<int>, n: seq<int>, u: int, v: int)
    requires SameRoots(o, a) && 0 <= u < |a| && 0 <= v < |a| && u != v && a[u] < 0 && a[v] < 0
    requires n == a[u := a[u] + a[v]][v := u]
    ensures Roots(n) == Roots(o) - {v}
  {
    RootsSame(o, a);
  }

  /** `s` and `t` are `x` and `y` in some order. */
  predicate Ends(x: int, y: int, s: int, t: int) {
    (s == x && t == y) || (s == y && t == x)
  }

  /** What `unite(u0, v0)` promises about the forest `o` before and `n`
      after: `ok` says the two roots differed, and then the root `s`
      absorbed the root `t`, adding its size; otherwise nothing changed. */
  ghost predicate UniteSpec(o: seq<int>, lvl: seq<int>, L: int, n: seq<int>, lvl': seq<int>, L': int,
                            u0: int, v0: int, ok: bool, s: int, t: int)
  {
    UF(o, lvl, L) && UF(n, lvl', L') && |o| == |n| && 0 <= u0 < |o| && 0 <= v0 < |o| &&
    (ok <==> Find(o, lvl, L, u0) != Find(o, lvl, L, v0)) &&
    (!ok ==> SamePartition(o, lvl, L, n, lvl', L') && Roots(n) == Roots(o)) &&
    (ok ==>
      Ends(Find(o, lvl, L, u0), Find(o, lvl, L, v0), s, t) && 0 <= s < |o| && 0 <= t < |o| &&
      n[s] == o[s] + o[t] && Roots(n) == Roots(o) - {t} && Relabels(o, lvl, L, n, lvl', L', s, t))
  }

  /** The link step on values: `a` has the partition and the roots of `o`,
      `u` and `v` are the roots of `u0` and `v0`, and `n` is `a` with `v`
      hung below `u`. */
  lemma LinkFacts(o: seq<int>, a: seq<int>, lvl: seq<int>, L: int, u0: int, v0: int, u: int, v: int,
                  n: seq<int>, lvl': seq<int>, L': int)
    requires UF(o, lvl, L) && UF(a, lvl, L) && Sizes(a, lvl, L) && |o| == |a| && 0 <= u0 < |o| && 0 <= v0 < |o|
    requires SamePartition(o, lvl, L, a, lvl, L) && SameRoots(o, a)
    requires Ends(Find(o, lvl, L, u0), Find(o, lvl, L, v0), u, v) && u != v
    requires lvl' == lvl[u := Max(lvl[u], lvl[v] + 1)] && L' == Max(L, lvl'[u] + 1)
    requires n == a[u := a[u] + a[v]][v := u]
    ensures UF(n, lvl', L') && Sizes(n, lvl', L') && UniteSpec(o, lvl, L, n, lvl', L', u0, v0, true, u, v)
  {
    LinkSizes(a, lvl, L, u, v, lvl', L');
    RootsLink(o, a, n, u, v);
    RelabelsAfterSame(o, lvl, L, a, n, lvl', L', u, v);
  }

  /** `uf_data[u] += uf_data[v]; uf_data[v] = u;` */
  method Link(uf: array<int>, u: int, v: int, ghost a: seq<int>, ghost n: seq<int>)
    requires 0 <= u < uf.Length && 0 <= v < uf.Length
    requires a == uf[..] && n == a[u := a[u] + a[v]][v := u]
    modifies uf
    ensures uf[..] == n
  {
    uf[u] := uf[u] + uf[v];
    assert uf[..] == a[u := a[u] + a[v]];
    uf[v] := u;
  }

  /** The two `root` calls of `unite` on values: `b` and then `c` keep the
      partition and the roots of `o`, and `u` and `v` are the roots found. */
  lemma KeptTwice(o: seq<int>, b: seq<int>, c: seq<int>, lvl: seq<int>, L: int, u0: int, v0: int, u: int, v: int)
    requires UF(o, lvl, L) && UF(b, lvl, L) && UF(c, lvl, L) && |o| == |b| == |c| && Sizes(o, lvl, L)
    requires 0 <= u0 < |o| && 0 <= v0 < |o|
    requires SamePartition(o, lvl, L, b, lvl, L) && SameRoots(o, b) && u == Find(o, lvl, L, u0)
    requires SamePartition(b, lvl, L, c, lvl, L) && SameRoots(b, c) && v == Find(b, lvl, L, v0)
    ensures SamePartition(o, lvl, L, c, lvl, L) && SameRoots(o, c) && Sizes(c, lvl, L)
    ensures 0 <= u < |c| && 0 <= v < |c| && c[u] < 0 && c[v] < 0 && v == Find(o, lvl, L, v0)
    ensures u == v ==> UniteSpec(o, lvl, L, c, lvl, L, u0, v0, false, u, v)
  {
    SizesKept(o, lvl, L, b, lvl, L);
    SizesKept(b, lvl, L, c, lvl, L);
    RootsSame(o, b);
    RootsSame(b, c);
  }

  /** `unite(u, v)`: false when both already share a root; otherwise the
      root `s` of the larger set absorbs the root `t` of the other, whose
      size is added to `s`'s and which stops being a root. */
  method Unite(uf: array<int>, u0: int, v0: int, ghost lvl: seq<int>, ghost L: int)
    returns (ok: bool, ghost s: int, ghost t: int, ghost lvl': seq<int>, ghost L': int)
    requires UF(uf[..], lvl, L) && Sizes(uf[..], lvl, L) && 0 <= u0 < uf.Length && 0 <= v0 < uf.Length
    modifies uf
    ensures UF(uf[..], lvl', L') && Sizes(uf[..], lvl', L')
    ensures UniteSpec(old(uf[..]), lvl, L, uf[..], lvl', L', u0, v0, ok, s, t)
  {
    ghost var u00 := uf[..];
    var u := Root(uf, u0, lvl, L);
    ghost var u01 := uf[..];
    var v := Root(uf, v0, lvl, L);
    ghost var u02 := uf[..];
    KeptTwice(u00, u01, u02, lvl, L, u0, v0, u, v);
    if u == v {
      return false, u, v, lvl, L;
    }
    var a, b := u, v;
    if uf[u] > uf[v] {
      a, b := v, u;
    }
    s, t := a, b;
    lvl', L' := lvl[a := Max(lvl[a], lvl[b] + 1)], Max(L, Max(lvl[a], lvl[b] + 1) + 1);
    ghost var n := u02[a := u02[a] + u02[b]][b := a];
    LinkFacts(u00, u02, lvl, L, u0, v0, a, b, n, lvl', L');
    Link(uf, a, b, u02, n);
    ok := true;
  }

  // ---------------------------------------------------------------- the driver

  /** Total cost of the accepted triples, in acceptance order. */
  function CostSum(s: seq<Triple>): (r: int)
    ensures s != [] ==> r == CostSum(s[..|s| - 1]) + s[|s| - 1].2
    decreases |s|
  {
    if s == [] then 0 else CostSum(s[..|s| - 1]) + s[|s| - 1].2
  }

  // ---------------------------------------------------------------- what the accepted triples join

  /** One of the triples has ends `x` and `y`, in either order. */
  ghost predicate Adjacent(acc: seq<Triple>, x: int, y: int) {
    exists k :: 0 <= k < |acc| && Ends(acc[k].0, acc[k].1, x, y)
  }

  /** `w` steps from vertex to vertex along the triples, each used in either direction. */
  ghost predicate Chain(acc: seq<Triple>, w: seq<int>) {
    |w| >= 1 && forall i :: 0 <= i < |w| - 1 ==> Adjacent(acc, w[i], w[i + 1])
  }

  /** The triples join `x` and `y`. */
  ghost predicate Linked(acc: seq<Triple>, x: int, y: int) {
    exists w :: Chain(acc, w) && w[0] == x && w[|w| - 1] == y
  }

  /** Each triple joins two parts that the triples before it keep apart, so the triples form a forest. */
  ghost predicate Forest(acc: seq<Triple>) {
    forall k :: 0 <= k < |acc| ==> !Linked(acc[..k], acc[k].0, acc[k].1)
  }

  /** Kruskal's rule on a list: keep each triple whose ends the triples kept
      before it do not join yet. */
  ghost function Greedy(list: seq<Triple>): seq<Triple>
    decreases |list|
  {
    if list == [] then []
    else
      var acc := Greedy(list[..|list| - 1]);
      var t := list[|list| - 1];
      if Linked(acc, t.0, t.1) then acc else acc + [t]
  }

  lemma LinkedRefl(acc: seq<Triple>, x: int)
    ensures Linked(acc, x, x)
  {
    assert Chain(acc, [x]);
  }

  lemma LinkedSym(acc: seq<Triple>, x: int, y: int)
    requires Linked(acc, x, y)
    ensures Linked(acc, y, x)
  {
    var w :| Chain(acc, w) && w[0] == x && w[|w| - 1] == y;
    var n := |w|;
    var r := seq(n, i requires 0 <= i < n => w[n - 1 - i]);
    forall i | 0 <= i < n - 1
      ensures Adjacent(acc, r[i], r[i + 1])
    {
      assert Adjacent(acc, w[n - 2 - i], w[n - 1 - i]);
      var k :| 0 <= k < |acc| && Ends(acc[k].0, acc[k].1, w[n - 2 - i], w[n - 1 - i]);
    }
    assert Chain(acc, r);
  }

  lemma LinkedTrans(acc: seq<Triple>, x: int, y: int, z: int)
    requires Linked(acc, x, y) && Linked(acc, y, z)
    ensures Linked(acc, x, z)
  {
    var w1 :| Chain(acc, w1) && w1[0] == x && w1[|w1| - 1] == y;
    var w2 :| Chain(acc, w2) && w2[0] == y && w2[|w2| - 1] == z;
    var w := w1 + w2[1..];
    forall i | 0 <= i < |w| - 1
      ensures Adjacent(acc, w[i], w[i + 1])
    {
      if i < |w1| - 1 {
        assert w[i] == w1[i] && w[i + 1] == w1[i + 1];
      } else {
        var j := i - |w1| + 1;
        assert w[i] == w2[j] && w[i + 1] == w2[j + 1];
      }
    }
    assert Chain(acc, w);
  }

  /** A longer list of triples joins at least what a shorter one joins. */
  lemma LinkedGrow(acc: seq<Triple>, t: Triple, x: int, y: int)
    requires Linked(acc, x, y)
    ensures Linked(acc + [t], x, y)
  {
    var w :| Chain(acc, w) && w[0] == x && w[|w| - 1] == y;
    forall i | 0 <= i < |w| - 1
      ensures Adjacent(acc + [t], w[i], w[i + 1])
    {
      var k :| 0 <= k < |acc| && Ends(acc[k].0, acc[k].1, w[i], w[i + 1]);
      assert (acc + [t])[k] == acc[k];
    }
    assert Chain(acc + [t], w);
  }

  /** A triple joins its own ends. */
  lemma LinkedNew(acc: seq<Triple>, t: Triple)
    ensures Linked(acc + [t], t.0, t.1) && Linked(acc + [t], t.1, t.0)
  {
    assert (acc + [t])[|acc|] == t;
    assert Chain(acc + [t], [t.0, t.1]);
    assert Chain(acc + [t], [t.1, t.0]);
  }

  /** Kruskal's rule keeps a forest: no kept triple closes a cycle. */
  lemma {:induction false} GreedyForest(list: seq<Triple>)
    ensures Forest(Greedy(list))
    decreases |list|
  {
    if list != [] {
      var pre := list[..|list| - 1];
      var acc := Greedy(pre);
      var t := list[|list| - 1];
      GreedyForest(pre);
      if !Linked(acc, t.0, t.1) {
        var r := acc + [t];
        forall k | 0 <= k < |r|
          ensures !Linked(r[..k], r[k].0, r[k].1)
        {
          if k < |acc| {
            assert r[..k] == acc[..k] && r[k] == acc[k];
          } else {
            assert r[..k] == acc;
          }
        }
      }
    }
  }

  /** Kruskal's rule spans the list: the kept triples join the ends of every triple of it. */
  lemma {:induction false} GreedySpans(list: seq<Triple>)
    ensures forall j :: 0 <= j < |list| ==> Linked(Greedy(list), list[j].0, list[j].1)
    decreases |list|
  {
    if list != [] {
      var pre := list[..|list| - 1];
      var acc := Greedy(pre);
      var t := list[|list| - 1];
      GreedySpans(pre);
      var r := Greedy(list);
      assert r == if Linked(acc, t.0, t.1) then acc else acc + [t];
      forall j | 0 <= j < |list|
        ensures Linked(r, list[j].0, list[j].1)
      {
        if j < |pre| {
          assert list[j] == pre[j] && Linked(acc, pre[j].0, pre[j].1);
          if r != acc {
            LinkedGrow(acc, t, list[j].0, list[j].1);
          }
        } else if r != acc {
          LinkedNew(acc, t);
        }
      }
    }
  }

  /** Kruskal's rule keeps triples of the list only. */
  lemma {:induction false} GreedySub(list: seq<Triple>)
    ensures forall k :: 0 <= k < |Greedy(list)| ==> Greedy(list)[k] in list
    decreases |list|
  {
    if list != [] {
      var pre := list[..|list| - 1];
      GreedySub(pre);
      assert forall t :: t in pre ==> t in list;
    }
  }

  /** Kruskal's rule on a cost-sorted list keeps triples in cost order. */
  lemma {:induction false} GreedySorted(list: seq<Triple>)
    requires SortedByCost(list)
    ensures SortedByCost(Greedy(list))
    decreases |list|
  {
    if list != [] {
      var pre := list[..|list| - 1];
      var acc := Greedy(pre);
      var t := list[|list| - 1];
      GreedySorted(pre);
      if !Linked(acc, t.0, t.1) {
        GreedySub(pre);
        var r := acc + [t];
        forall i, j | 0 <= i < j < |r|
          ensures r[i].2 <= r[j].2
        {
          assert r[i] == acc[i];
          if j == |acc| {
            var m :| 0 <= m < |pre| && pre[m] == acc[i];
            assert list[m] == acc[i];
          } else {
            assert r[j] == acc[j];
          }
        }
      }
    }
  }

  /** The set holding `x`, and -1 outside the vertex range. */
  ghost function Part(uf: seq<int>, lvl: seq<int>, L: int, x: int): int
    requires UF(uf, lvl, L)
  {
    if 0 <= x < |uf| then Find(uf, lvl, L, x) else -1
  }

  /** Each of the first `i` triples has both ends in one set. */
  ghost predicate Joins(uf: seq<int>, lvl: seq<int>, L: int, list: seq<Triple>, i: int)
    requires UF(uf, lvl, L)
  {
    forall k :: 0 <= k < i && k < |list| ==> Part(uf, lvl, L, list[k].0) == Part(uf, lvl, L, list[k].1)
  }

  /** Every vertex is joined to the root of its set by the triples. */
  ghost predicate Rooted(uf: seq<int>, lvl: seq<int>, L: int, acc: seq<Triple>)
    requires UF(uf, lvl, L)
  {
    forall x :: 0 <= x < |uf| ==> Linked(acc, x, Find(uf, lvl, L, x))
  }

  /** Every triple has both ends in one set. */
  ghost predicate Within(uf: seq<int>, lvl: seq<int>, L: int, acc: seq<Triple>)
    requires UF(uf, lvl, L)
  {
    forall k :: 0 <= k < |acc| ==> Part(uf, lvl, L, acc[k].0) == Part(uf, lvl, L, acc[k].1)
  }

  /** A walk along triples that stay within sets stays in one set. */
  lemma {:induction false} ChainPart(uf: seq<int>, lvl: seq<int>, L: int, acc: seq<Triple>, w: seq<int>)
    requires UF(uf, lvl, L) && Within(uf, lvl, L, acc) && Chain(acc, w)
    ensures Part(uf, lvl, L, w[0]) == Part(uf, lvl, L, w[|w| - 1])
    decreases |w|
  {
    var n := |w|;
    if n > 1 {
      var pre := w[..n - 1];
      assert forall i :: 0 <= i < n - 1 ==> pre[i] == w[i];
      assert Chain(acc, pre);
      ChainPart(uf, lvl, L, acc, pre);
      assert Adjacent(acc, w[n - 2], w[n - 1]);
      var k :| 0 <= k < |acc| && Ends(acc[k].0, acc[k].1, w[n - 2], w[n - 1]);
    }
  }

  /** With every vertex joined to its root, and every triple within a set,
      two vertices share a set exactly when the triples join them. */
  lemma SameSetIffLinked(uf: seq<int>, lvl: seq<int>, L: int, acc: seq<Triple>, x: int, y: int)
    requires UF(uf, lvl, L) && Rooted(uf, lvl, L, acc) && Within(uf, lvl, L, acc)
    requires 0 <= x < |uf| && 0 <= y < |uf|
    ensures Find(uf, lvl, L, x) == Find(uf, lvl, L, y) <==> Linked(acc, x, y)
  {
    if Find(uf, lvl, L, x) == Find(uf, lvl, L, y) {
      LinkedSym(acc, y, Find(uf, lvl, L, y));
      LinkedTrans(acc, x, Find(uf, lvl, L, x), y);
    }
    if Linked(acc, x, y) {
      var w :| Chain(acc, w) && w[0] == x && w[|w| - 1] == y;
      ChainPart(uf, lvl, L, acc, w);
    }
  }

  /** After a `unite` that accepted the triple `e`, the roots `s` and `t` it merged are joined. */
  lemma JoinRoots(o: seq<int>, lvl: seq<int>, L: int, acc: seq<Triple>, e: Triple, s: int, t: int)
    requires UF(o, lvl, L) && Rooted(o, lvl, L, acc) && 0 <= e.0 < |o| && 0 <= e.1 < |o|
    requires Ends(Find(o, lvl, L, e.0), Find(o, lvl, L, e.1), s, t)
    ensures Linked(acc + [e], t, s)
  {
    var a := acc + [e];
    var fu, fv := Find(o, lvl, L, e.0), Find(o, lvl, L, e.1);
    LinkedGrow(acc, e, e.0, fu);
    LinkedGrow(acc, e, e.1, fv);
    LinkedNew(acc, e);
    LinkedSym(a, e.0, fu);
    LinkedSym(a, e.1, fv);
    if s == fu {
      LinkedTrans(a, t, e.1, e.0);
      LinkedTrans(a, t, e.0, s);
    } else {
      LinkedTrans(a, t, e.0, e.1);
      LinkedTrans(a, t, e.1, s);
    }
  }

  /** One `unite` on the triple `e` keeps every vertex joined to its root
      by the triples, `e` added when it was accepted. */
  lemma RootedStep(o: seq<int>, lvl: seq<int>, L: int, n: seq<int>, lvl': seq<int>, L': int,
                   acc: seq<Triple>, e: Triple, ok: bool, s: int, t: int, acc': seq<Triple>)
    requires UniteSpec(o, lvl, L, n, lvl', L', e.0, e.1, ok, s, t) && Rooted(o, lvl, L, acc)
    requires acc' == if ok then acc + [e] else acc
    ensures Rooted(n, lvl', L', acc')
  {
    if ok {
      JoinRoots(o, lvl, L, acc, e, s, t);
      forall y | 0 <= y < |n|
        ensures Linked(acc', y, Find(n, lvl', L', y))
      {
        var r := Find(o, lvl, L, y);
        LinkedGrow(acc, e, y, r);
        if r == t {
          LinkedTrans(acc', y, t, s);
        }
      }
    }
  }

  /** Kruskal's rule on one more triple: `unite` accepts it exactly when the
      triples accepted so far do not join its ends. */
  lemma GreedyStep(uf: seq<int>, lvl: seq<int>, L: int, edges: seq<Triple>, i: int, acc: seq<Triple>,
                   ok: bool, acc': seq<Triple>)
    requires UF(uf, lvl, L) && Rooted(uf, lvl, L, acc) && Within(uf, lvl, L, acc)
    requires 0 <= i < |edges| && 0 <= edges[i].0 < |uf| && 0 <= edges[i].1 < |uf| && acc == Greedy(edges[..i])
    requires ok <==> Find(uf, lvl, L, edges[i].0) != Find(uf, lvl, L, edges[i].1)
    requires acc' == if ok then acc + [edges[i]] else acc
    ensures acc' == Greedy(edges[..i + 1])
  {
    SameSetIffLinked(uf, lvl, L, acc, edges[i].0, edges[i].1);
    var list := edges[..i + 1];
    assert list[..|list| - 1] == edges[..i] && list[|list| - 1] == edges[i];
  }

  /** Every triple of the list is a stored edge between vertices of `g`. */
  ghost predicate EdgeList(g: Adj, list: seq<Triple>) {
    forall k :: 0 <= k < |list| ==> 0 <= list[k].0 < |g| && 0 <= list[k].1 < |g| && list[k] in Flatten(g)
  }

  lemma SortedEdgeList(g: Adj, list: seq<Triple>)
    requires ValidAdj(g) && multiset(list) == multiset(Flatten(g))
    ensures EdgeList(g, list)
  {
    forall k | 0 <= k < |list|
      ensures 0 <= list[k].0 < |g| && 0 <= list[k].1 < |g| && list[k] in Flatten(g)
    {
      assert list[k] in multiset(list);
      assert list[k] in multiset(Flatten(g));
      FlattenStored(g, list[k]);
    }
  }

  /** One `unite` on the `i`-th triple: the earlier triples stay joined, the
      `i`-th becomes joined, and an accepted triple removes one set. */
  lemma UniteStep(o: seq<int>, lvl: seq<int>, L: int, n: seq<int>, lvl': seq<int>, L': int,
                  list: seq<Triple>, i: int, ok: bool, s: int, t: int)
    requires UF(o, lvl, L) && UF(n, lvl', L') && 0 <= i < |list| && Joins(o, lvl, L, list, i)
    requires UniteSpec(o, lvl, L, n, lvl', L', list[i].0, list[i].1, ok, s, t)
    ensures Joins(n, lvl', L', list, i + 1)
    ensures |Roots(n)| + (if ok then 1 else 0) == |Roots(o)|
  {
    if ok {
      assert t in Roots(o);
      assert Roots(o) == Roots(n) + {t};
    }
  }

  /** All vertices are their own sets: `uf_data(size(), -1)`. */
  lemma Singletons(uf: seq<int>, lvl: seq<int>)
    requires |lvl| == |uf| && forall x :: 0 <= x < |uf| ==> uf[x] == -1 && lvl[x] == 0
    ensures UF(uf, lvl, 1) && Sizes(uf, lvl, 1) && |Roots(uf)| == |uf|
  {
    var n := |uf|;
    assert Roots(uf) == Range(n);
    forall r | 0 <= r < n
      ensures -uf[r] == |Class(uf, lvl, 1, r)|
    {
      assert Class(uf, lvl, 1, r) == {r};
    }
  }

  /** The vertices that label their own set. */
  ghost function Reps(comp: seq<int>): set<int> {
    set x | 0 <= x < |comp| && comp[x] == x
  }

  /** `comp` labels each vertex of `g` with a representative of its set, and
      the two ends of every stored edge carry the same label. */
  ghost predicate Labelling(g: Adj, comp: seq<int>) {
    |comp| == |g| &&
    (forall v :: 0 <= v < |g| ==> 0 <= comp[v] < |g| && comp[comp[v]] == comp[v]) &&
    (forall u, i :: 0 <= u < |g| && 0 <= i < |g[u]| ==> 0 <= g[u][i].to < |g| && comp[u] == comp[g[u][i].to])
  }

  /** A walk stays inside one labelled set. */
  lemma {:induction false} WalkLabel(g: Adj, comp: seq<int>, s: int, v: int, p: seq<Edge>)
    requires Labelling(g, comp) && 0 <= s < |g| && IsPath(g, s, v, p)
    ensures 0 <= v < |g| && comp[v] == comp[s]
    decreases |p|
  {
    if p != [] {
      var e := p[|p| - 1];
      WalkLabel(g, comp, s, e.from, p[..|p| - 1]);
      var i :| 0 <= i < |g[e.from]| && g[e.from][i] == e;
    }
  }

  /** On a graph whose vertices are all reachable from 0 there is one set. */
  lemma Connected(g: Adj, comp: seq<int>)
    requires Labelling(g, comp) && |g| >= 1 && forall v :: 0 <= v < |g| ==> Reachable(g, 0, v)
    ensures Reps(comp) == {comp[0]}
  {
    assert comp[comp[0]] == comp[0];
    forall x | x in Reps(comp)
      ensures x == comp[0]
    {
      assert Reachable(g, 0, x);
      var p :| IsPath(g, 0, x, p);
      WalkLabel(g, comp, 0, x, p);
    }
  }

  /** With one set, a count of `|g|` minus the number of sets is `|g| - 1`. */
  lemma SpanningCount(g: Adj, comp: seq<int>, m: int)
    requires Labelling(g, comp) && m + |Reps(comp)| == |g|
    ensures |g| >= 1 && (forall v :: 0 <= v < |g| ==> Reachable(g, 0, v)) ==> m == |g| - 1
  {
    if |g| >= 1 && forall v :: 0 <= v < |g| ==> Reachable(g, 0, v) {
      Connected(g, comp);
    }
  }

  /** The labelling read off the final forest. */
  lemma FinalLabels(g: Adj, uf: seq<int>, lvl: seq<int>, L: int, list: seq<Triple>, comp: seq<int>)
    requires ValidAdj(g) && UF(uf, lvl, L) && |uf| == |g| && Joins(uf, lvl, L, list, |list|)
    requires multiset(list) == multiset(Flatten(g))
    requires comp == seq(|g|, v requires 0 <= v < |g| => Find(uf, lvl, L, v))
    ensures Labelling(g, comp) && |Reps(comp)| == |Roots(uf)|
  {
    forall u, i | 0 <= u < |g| && 0 <= i < |g[u]|
      ensures comp[u] == comp[g[u][i].to]
    {
      FlattenHas(g, u, i);
      var t := (u, g[u][i].to, g[u][i].cost);
      assert t in multiset(Flatten(g));
      assert t in multiset(list);
      var k :| 0 <= k < |list| && list[k] == t;
    }
    forall x | 0 <= x < |g|
      ensures x in Reps(comp) <==> x in Roots(uf)
    {
    }
    assert Reps(comp) == Roots(uf);
  }

  /** The triples kept from a prefix of a list lie within the sets of a forest that joins that prefix. */
  lemma GreedyWithin(uf: seq<int>, lvl: seq<int>, L: int, edges: seq<Triple>, i: int)
    requires UF(uf, lvl, L) && 0 <= i <= |edges| && Joins(uf, lvl, L, edges, i)
    ensures Within(uf, lvl, L, Greedy(edges[..i]))
  {
    var acc := Greedy(edges[..i]);
    GreedySub(edges[..i]);
    forall k | 0 <= k < |acc|
      ensures Part(uf, lvl, L, acc[k].0) == Part(uf, lvl, L, acc[k].1)
    {
      var j :| 0 <= j < i && edges[..i][j] == acc[k];
      assert edges[j] == acc[k];
    }
  }

  /** The state of the loop over `edges` after `i` triples, from a forest
      of `n0` singleton sets: `cur` is a forest joining every processed
      triple, `acc` is what Kruskal's rule keeps of those triples and joins
      every vertex to its root, `ret` totals `acc`, and each accepted triple
      removed one set. */
  ghost predicate ScanState(edges: seq<Triple>, n0: int, i: int, cur: seq<int>, lvl: seq<int>, L: int,
                            ret: int, acc: seq<Triple>)
  {
    0 <= i <= |edges| && UF(cur, lvl, L) && Sizes(cur, lvl, L) && Joins(cur, lvl, L, edges, i) &&
    |Roots(cur)| + |acc| == n0 && ret == CostSum(acc) && Rooted(cur, lvl, L, acc) && acc == Greedy(edges[..i])
  }

  /** One iteration of that loop, on values. */
  lemma ScanStep(edges: seq<Triple>, n0: int, i: int, cur: seq<int>, lvl: seq<int>, L: int,
                 ret: int, acc: seq<Triple>,
                 next: seq<int>, lvl': seq<int>, L': int, ok: bool, s: int, t: int,
                 ret': int, acc': seq<Triple>)
    requires 0 <= i < |edges| && ScanState(edges, n0, i, cur, lvl, L, ret, acc)
    requires UF(next, lvl', L') && Sizes(next, lvl', L')
    requires UniteSpec(cur, lvl, L, next, lvl', L', edges[i].0, edges[i].1, ok, s, t)
    requires ok ==> ret' == ret + edges[i].2 && acc' == acc + [edges[i]]
    requires !ok ==> ret' == ret && acc' == acc
    ensures ScanState(edges, n0, i + 1, next, lvl', L', ret', acc')
  {
    UniteStep(cur, lvl, L, next, lvl', L', edges, i, ok, s, t);
    RootedStep(cur, lvl, L, next, lvl', L', acc, edges[i], ok, s, t, acc');
    GreedyWithin(cur, lvl, L, edges, i);
    GreedyStep(cur, lvl, L, edges, i, acc, ok, acc');
  }

  /** What the final forest of the loop says about `g`. */
  lemma Finish(g: Adj, edges: seq<Triple>, n0: int, i: int, fin: seq<int>, lvl: seq<int>, L: int,
               ret: int, acc: seq<Triple>) returns (comp: seq<int>)
    requires ValidAdj(g) && SortedByCost(edges) && multiset(edges) == multiset(Flatten(g)) && |fin| == |g|
    requires n0 == |g| && i == |edges| && ScanState(edges, n0, i, fin, lvl, L, ret, acc)
    ensures ret == CostSum(acc) && SortedByCost(acc) && acc == Greedy(edges) && Forest(acc)
    ensures forall k :: 0 <= k < |acc| ==> acc[k] in Flatten(g)
    ensures Labelling(g, comp) && |acc| + |Reps(comp)| == |g|
    ensures forall x, y :: 0 <= x < |g| && 0 <= y < |g| ==> (comp[x] == comp[y] <==> Linked(acc, x, y))
    ensures |g| >= 1 && (forall v :: 0 <= v < |g| ==> Reachable(g, 0, v)) ==> |acc| == |g| - 1
  {
    SortedEdgeList(g, edges);
    assert edges[..i] == edges;
    GreedyForest(edges);
    GreedySorted(edges);
    GreedySub(edges);
    comp := seq(|g|, v requires 0 <= v < |g| => Find(fin, lvl, L, v));
    FinalLabels(g, fin, lvl, L, edges, comp);
    GreedyWithin(fin, lvl, L, edges, i);
    forall x, y | 0 <= x < |g| && 0 <= y < |g|
      ensures comp[x] == comp[y] <==> Linked(acc, x, y)
    {
      SameSetIffLinked(fin, lvl, L, acc, x, y);
    }
    forall k | 0 <= k < |acc|
      ensures acc[k] in Flatten(g)
    {
      assert acc[k] in multiset(edges);
    }
    SpanningCount(g, comp, |acc|);
  }

  /** One iteration of that loop: `if (unite(e.from, e.to)) ret += e.cost;` on the `i`-th triple `e`. */
  method Consider(edges: seq<Triple>, i: int, uf: array<int>, ghost lvl: seq<int>, ghost L: int, ghost n0: int,
                  ret: int, ghost acc: seq<Triple>)
    returns (ret': int, ghost acc': seq<Triple>, ghost lvl': seq<int>, ghost L': int)
    requires 0 <= i < |edges| && 0 <= edges[i].0 < uf.Length && 0 <= edges[i].1 < uf.Length
    requires ScanState(edges, n0, i, uf[..], lvl, L, ret, acc)
    modifies uf
    ensures ScanState(edges, n0, i + 1, uf[..], lvl', L', ret', acc')
  {
    ghost var cur := uf[..];
    var e := edges[i];
    var ok;
    ghost var s, t;
    ok, s, t, lvl', L' := Unite(uf, e.0, e.1, lvl, L);
    ret', acc' := ret, acc;
    if ok {
      ret' := ret + e.2;
      acc' := acc + [e];
    }
    ScanStep(edges, n0, i, cur, lvl, L, ret, acc, uf[..], lvl', L', ok, s, t, ret', acc');
  }

  /** With no triple yet, every vertex of a forest of singletons is its own root. */
  lemma SingletonsRooted(uf: seq<int>, lvl: seq<int>, L: int)
    requires UF(uf, lvl, L) && forall x :: 0 <= x < |uf| ==> uf[x] < 0
    ensures Rooted(uf, lvl, L, [])
  {
    forall x | 0 <= x < |uf|
      ensures Linked([], x, Find(uf, lvl, L, x))
    {
      LinkedRefl([], x);
    }
  }

  /** The loop `for (auto &e : edges) if (unite(...)) ret += cost` over
      the triples, from `uf_data(size(), -1)`: at the end every triple
      lies within one set, the accepted triples are exactly those Kruskal's
      rule keeps and join every vertex to the root of its set, and each
      accepted triple removed one of the `|g|` singleton sets. */
  method Scan(ghost g: Adj, edges: seq<Triple>, uf: array<int>) returns (ret: int, ghost acc: seq<Triple>, ghost lvl: seq<int>, ghost L: int)
    requires EdgeList(g, edges) && uf.Length == |g|
    requires forall x :: 0 <= x < uf.Length ==> uf[x] == -1
    modifies uf
    ensures ScanState(edges, |g|, |edges|, uf[..], lvl, L, ret, acc)
  {
    lvl, L := seq(|g|, _ => 0), 1;
    Singletons(uf[..], lvl);
    SingletonsRooted(uf[..], lvl, L);
    assert edges[..0] == [];
    ret, acc := 0, [];
    var i := 0;
    while i < |edges|
      invariant 0 <= i <= |edges|
      invariant ScanState(edges, |g|, i, uf[..], lvl, L, ret, acc)
    {
      ret, acc, lvl, L := Consider(edges, i, uf, lvl, L, |g|, ret, acc);
      i := i + 1;
    }
  }

  /** `kruskal()`: the sum of the costs of the accepted triples. `std::sort`
      with a cost-only comparator may leave triples of equal cost in any
      order, so the contract holds for the ghost `sorted`, which is some
      cost-sorted arrangement of the graph's triples. The ghost results are
      the accepted triples `acc`, in acceptance order, which are exactly
      what Kruskal's rule keeps of `sorted`, and the final partition `comp`,
      which labels every vertex with the root of its set. The accepted
      triples form a forest whose trees are the sets. */
  method Kruskal(g: Adj) returns (ret: int, ghost sorted: seq<Triple>, ghost acc: seq<Triple>, ghost comp: seq<int>)
    requires ValidAdj(g)
    ensures SortedByCost(sorted) && multiset(sorted) == multiset(Flatten(g))
    ensures acc == Greedy(sorted) && ret == CostSum(acc) && SortedByCost(acc)
    ensures forall k :: 0 <= k < |acc| ==> acc[k] in Flatten(g)
    ensures Forest(acc)
    ensures Labelling(g, comp) && |acc| + |Reps(comp)| == |g|
    ensures forall x, y :: 0 <= x < |g| && 0 <= y < |g| ==> (comp[x] == comp[y] <==> Linked(acc, x, y))
    ensures |g| >= 1 && (forall v :: 0 <= v < |g| ==> Reachable(g, 0, v)) ==> |acc| == |g| - 1
  {
    var edges := Collect(g);
    edges := SortByCost(edges);
    var uf := new int[|g|](_ => -1);
    SortedEdgeList(g, edges);
    ghost var lvl, L;
    ret, acc, lvl, L := Scan(g, edges, uf);
    comp := Finish(g, edges, |g|, |edges|, uf[..], lvl, L, ret, acc);
    sorted := edges;
  }
}
