/** `height` and `diameter` of graph/graph.hpp: two or three breadth-first
    sweeps, each started at the farthest vertex the previous one found. */
module Sweeps {
  import opened Graphs
  import opened Distances
  import opened Traversal

  /** `std::max_element`: the position of the first largest entry. */
  function MaxElement(d: seq<int>): (r: nat)
    requires |d| >= 1
    ensures r < |d|
    ensures forall i :: 0 <= i < |d| ==> d[i] <= d[r]
    ensures forall i :: 0 <= i < r ==> d[i] < d[r]
    decreases |d|
  {
    if |d| == 1 then 0
    else
      var r := MaxElement(d[..|d| - 1]);
      if d[|d| - 1] > d[r] then |d| - 1 else r
  }

  /** Only one position is largest and before every other largest one. */
  lemma FirstMaxUnique(d: seq<int>, v: int)
    requires 0 <= v < |d| && (forall i :: 0 <= i < |d| ==> d[i] <= d[v]) && (forall i :: 0 <= i < v ==> d[i] < d[v])
    ensures v == MaxElement(d)
  {
  }

  /** The arg-max loop of `height`: `dia` starts at -1 and `v` moves to every
      strictly larger entry. It ends at the first largest entry, or at -1 when
      no entry exceeds -1. */
  method ArgMax(d: seq<int>) returns (v: int, dia: int)
    ensures v == -1 <==> forall i :: 0 <= i < |d| ==> d[i] <= -1
    ensures v == -1 ==> dia == -1
    ensures v != -1 ==> 0 <= v < |d| && dia == d[v] && v == MaxElement(d)
  {
    v, dia := -1, -1;
    var i := 0;
    while i < |d|
      invariant 0 <= i <= |d|
      invariant v == -1 ==> dia == -1 && forall j :: 0 <= j < i ==> d[j] <= -1
      invariant v != -1 ==> 0 <= v < i && dia == d[v] && dia > -1
      invariant forall j :: 0 <= j < i ==> d[j] <= dia
      invariant forall j :: 0 <= j < v ==> d[j] < dia
    {
      if dia < d[i] {
        dia, v := d[i], i;
      }
      i := i + 1;
    }
    if v != -1 {
      FirstMaxUnique(d, v);
    }
  }

  /** The larger of two entries, as `if (vec1[i] < vec2[i]) vec1[i] = vec2[i]` leaves it. */
  function Max(a: int, b: int): (r: int)
    ensures r >= a && r >= b && (r == a || r == b)
  {
    if a < b then b else a
  }

  /** `height()`: sweep from 0, then from the farthest vertex `v1`, then from
      the farthest vertex `v2` of that sweep; the result is the elementwise
      larger of the last two sweeps. (On a tree that is every vertex's
      distance to its farthest vertex.) */
  method Height(g: Adj) returns (h: seq<int>, ghost v1: int, ghost v2: int,
                                 ghost d0: seq<int>, ghost d1: seq<int>, ghost d2: seq<int>)
    requires ValidAdj(g) && |g| >= 1 && SmallCosts(g)
    ensures BfsSpec(g, 0, d0) && v1 == MaxElement(d0)
    ensures BfsSpec(g, v1, d1) && v2 == MaxElement(d1)
    ensures BfsSpec(g, v2, d2)
    ensures |h| == |g| && forall i :: 0 <= i < |g| ==> h[i] == Max(d1[i], d2[i])
  {
    var vec1, order := Bfs(g, 0);
    d0 := vec1;
    var a, dia := ArgMax(vec1);
    vec1, order := Bfs(g, a);
    d1 := vec1;
    var b;
    b, dia := ArgMax(vec1);
    var vec2;
    vec2, order := Bfs(g, b);
    d2 := vec2;
    v1, v2 := a, b;
    h := RaiseTo(vec1, vec2);
  }

  /** The last loop of `height()`: every entry of `vec1` below the entry of
      `vec2` at the same position is raised to it. */
  method RaiseTo(vec1: seq<int>, vec2: seq<int>) returns (h: seq<int>)
    requires |vec2| == |vec1|
    ensures |h| == |vec1| && forall i :: 0 <= i < |vec1| ==> h[i] == Max(vec1[i], vec2[i])
  {
    h := vec1;
    var i := 0;
    while i < |h|
      invariant 0 <= i <= |h| && |h| == |vec1|
      invariant forall j :: 0 <= j < i ==> h[j] == Max(vec1[j], vec2[j])
      invariant forall j :: i <= j < |h| ==> h[j] == vec1[j]
    {
      if h[i] < vec2[i] {
        h := h[i := vec2[i]];
      }
      i := i + 1;
    }
  }

  /** `diameter()`: sweep from 0, then from the first farthest vertex `v`;
      the result is `v`, the first farthest vertex `w` of the second sweep and
      its distance, which no other distance of that sweep exceeds. */
  method Diameter(g: Adj) returns (v: int, w: int, dd: int, ghost d0: seq<int>, ghost d1: seq<int>)
    requires ValidAdj(g) && |g| >= 1 && SmallCosts(g)
    ensures BfsSpec(g, 0, d0) && v == MaxElement(d0)
    ensures BfsSpec(g, v, d1) && w == MaxElement(d1) && dd == d1[w]
    ensures forall i :: 0 <= i < |g| ==> d1[i] <= dd
  {
    var dist, order := Bfs(g, 0);
    d0 := dist;
    v := MaxElement(dist);
    dist, order := Bfs(g, v);
    d1 := dist;
    w := MaxElement(dist);
    dd := dist[w];
  }
}
