/** `range_bit` of data_structure/range_bit.hpp: a pair of Fenwick trees that
    together support adding a value on a half-open range and summing a
    prefix. The abstract state is a ghost array `a`; two ghost point arrays
    `b1`, `b2` are what the Fenwick arrays `vec1`, `vec2` hold partial sums of. */
module RangeAdd {

  // ---------------------------------------------------------------- lowbit

  /** `i & -i` for positive `i`: the largest power of two dividing `i`. */
  function LowBit(i: int): (r: int)
    requires i >= 1
    ensures 1 <= r <= i
    decreases i
  {
    if i % 2 == 1 then 1 else 2 * LowBit(i / 2)
  }

  /** Adding the low bit clears it: the next index has a strictly larger low bit. */
  lemma {:induction false} LowBitNext(i: int)
    requires i >= 1
    ensures LowBit(i + LowBit(i)) >= 2 * LowBit(i)
    decreases i
  {
    if i % 2 == 0 {
      LowBitNext(i / 2);
      assert i + LowBit(i) == 2 * (i / 2 + LowBit(i / 2));
      assert (i + LowBit(i)) / 2 == i / 2 + LowBit(i / 2);
    } else {
      assert (i + 1) % 2 == 0;
    }
  }

  /** Below the low bit of `i`, adding `d` to `i` leaves the low bit of `d`. */
  lemma {:induction false} LowBitGap(i: int, d: int)
    requires i >= 1 && 0 < d < LowBit(i)
    ensures LowBit(i + d) == LowBit(d)
    decreases i
  {
    if i % 2 == 0 {
      if d % 2 == 0 {
        LowBitGap(i / 2, d / 2);
        assert (i + d) / 2 == i / 2 + d / 2;
      }
    }
  }

  /** Fenwick node `j` holds the points `(j - LowBit(j), j]`. */
  predicate Covers(j: int, p: int)
    requires j >= 1
  {
    j - LowBit(j) < p <= j
  }

  /** The nodes covering a point form the chain `p, p + LowBit(p), ...`: the
      next node of the chain covers it and none in between does. */
  lemma CoverStep(i: int, p: int)
    requires i >= 1 && Covers(i, p)
    ensures Covers(i + LowBit(i), p)
    ensures forall j :: i < j < i + LowBit(i) ==> !Covers(j, p)
  {
    LowBitNext(i);
    forall j | i < j < i + LowBit(i)
      ensures !Covers(j, p)
    {
      LowBitGap(i, j - i);
    }
  }

  // ---------------------------------------------------------------- sums

  /** `b[lo+1] + ... + b[hi]`. */
  function RangeSum(b: seq<int>, lo: int, hi: int): (r: int)
    requires 0 <= lo <= hi < |b|
    ensures lo == hi ==> r == 0
    decreases hi - lo
  {
    if lo == hi then 0 else RangeSum(b, lo, hi - 1) + b[hi]
  }

  lemma {:induction false} RangeSumSplit(b: seq<int>, lo: int, mid: int, hi: int)
    requires 0 <= lo <= mid <= hi < |b|
    ensures RangeSum(b, lo, hi) == RangeSum(b, lo, mid) + RangeSum(b, mid, hi)
    decreases hi - mid
  {
    if mid < hi {
      RangeSumSplit(b, lo, mid, hi - 1);
    }
  }

  /** `b` with `v` added at point `p`, when `p` is a node of the tree (`p <= n`). */
  function Bump(b: seq<int>, p: int, v: int): (r: seq<int>)
    requires p >= 1
    ensures |r| == |b|
    ensures forall j :: 0 <= j < |b| ==> r[j] == b[j] + (if j == p then v else 0)
  {
    if p < |b| then b[p := b[p] + v] else b
  }

  lemma {:induction false} RangeSumBump(b: seq<int>, p: int, v: int, lo: int, hi: int)
    requires p >= 1 && 0 <= lo <= hi < |b|
    ensures RangeSum(Bump(b, p, v), lo, hi) == RangeSum(b, lo, hi) + (if lo < p <= hi then v else 0)
    decreases hi - lo
  {
    if lo < hi {
      RangeSumBump(b, p, v, lo, hi - 1);
    }
  }

  lemma {:induction false} RangeSumZero(b: seq<int>, lo: int, hi: int)
    requires 0 <= lo <= hi < |b| && forall j :: 0 <= j < |b| ==> b[j] == 0
    ensures RangeSum(b, lo, hi) == 0
    decreases hi - lo
  {
    if lo < hi {
      RangeSumZero(b, lo, hi - 1);
    }
  }

  /** `a[0] + ... + a[r-1]`, and 0 for `r <= 0`. */
  function SumBelow(a: seq<int>, r: int): (s: int)
    requires r <= |a|
    ensures r <= 0 ==> s == 0
    decreases r
  {
    if r <= 0 then 0 else SumBelow(a, r - 1) + a[r - 1]
  }

  function Total(s: seq<int>): (t: int)
    ensures s == [] ==> t == 0
    ensures |s| == 1 ==> t == s[0]
    decreases |s|
  {
    if s == [] then 0 else Total(s[..|s| - 1]) + s[|s| - 1]
  }

  /** The difference of two prefix sums is the sum of the window between them. */
  lemma {:induction false} SumBelowWindow(a: seq<int>, l: int, r: int)
    requires 0 <= l <= r <= |a|
    ensures SumBelow(a, r) - SumBelow(a, l) == Total(a[l..r])
    decreases r - l
  {
    if l < r {
      SumBelowWindow(a, l, r - 1);
      assert a[l..r][..r - l - 1] == a[l..r - 1];
    }
  }

  // ---------------------------------------------------------------- range addition

  /** How `add(l, r, x)` changes entry `i`: by `x` on `[l, r)`, and by `-x` on
      `[r, l)` when the bounds come reversed. */
  function Delta(l: int, r: int, i: int): (d: int)
    ensures l <= r ==> (d == if l <= i < r then 1 else 0)
    ensures r < l ==> (d == if r <= i < l then -1 else 0)
  {
    (if l <= i then 1 else 0) - (if r <= i then 1 else 0)
  }

  /** The abstract effect of `add(l, r, x)`. */
  function Added(a: seq<int>, l: int, r: int, x: int): (a': seq<int>)
    ensures |a'| == |a|
    ensures forall i :: 0 <= i < |a| ==> a'[i] == a[i] + x * Delta(l, r, i)
    ensures l <= r ==> forall i :: 0 <= i < |a| ==> a'[i] == if l <= i < r then a[i] + x else a[i]
    ensures r < l ==> forall i :: 0 <= i < |a| ==> a'[i] == if r <= i < l then a[i] - x else a[i]
  {
    seq(|a|, i requires 0 <= i < |a| => a[i] + x * Delta(l, r, i))
  }

  function Clip(z: int): (r: int)
    ensures r >= 0 && r >= z && (r == 0 || r == z)
  {
    if z > 0 then z else 0
  }

  function Min(a: int, b: int): (m: int)
    ensures m <= a && m <= b && (m == a || m == b)
  {
    if a < b then a else b
  }

  /** Summed `Delta(l, r, i)` over `i < q`: how many of the indices below `q`
      lie in `[l, r)` (negated for reversed bounds). */
  function Overlap(l: int, r: int, q: int): (c: int)
    ensures 0 <= l <= r ==> c == Clip(Min(q, r) - l)
  {
    Clip(q - l) - Clip(q - r)
  }

  lemma Distribute(x: int, o: int, d: int)
    ensures x * (o + d) == x * o + x * d
  {
  }

  /** `sum(q)` grows by `x` times the overlap of `[0, q)` with `[l, r)`. */
  lemma {:induction false} SumBelowAdded(a: seq<int>, l: int, r: int, x: int, q: int)
    requires 0 <= l && 0 <= r && 0 <= q <= |a|
    ensures SumBelow(Added(a, l, r, x), q) == SumBelow(a, q) + x * Overlap(l, r, q)
    decreases q
  {
    if q > 0 {
      SumBelowAdded(a, l, r, x, q - 1);
      var a' := Added(a, l, r, x);
      var o, d := Overlap(l, r, q - 1), Delta(l, r, q - 1);
      assert Overlap(l, r, q) == o + d;
      assert a'[q - 1] == a[q - 1] + x * d;
      assert SumBelow(a', q) == SumBelow(a', q - 1) + a'[q - 1];
      Distribute(x, o, d);
    }
  }

  // ---------------------------------------------------------------- the tree invariant

  /** Node `j` of `v` holds the sum of `b` over `(j - LowBit(j), j]`. */
  ghost predicate Fenwick(v: seq<int>, b: seq<int>) {
    |v| == |b| && forall j :: 1 <= j < |v| ==> NodeHolds(v, b, j, 0)
  }

  /** Node `j` of `v` holds the sum of `b` over its points, plus `extra`. */
  ghost predicate NodeHolds(v: seq<int>, b: seq<int>, j: int, extra: int)
    requires |v| == |b| && 1 <= j < |v|
  {
    v[j] == RangeSum(b, j - LowBit(j), j) + extra
  }

  /** What node `j` has received so far of the `d` added at point `p`, with the loop at node `i`. */
  function Received(j: int, i: int, p: int, d: int): (r: int)
    requires j >= 1
    ensures r == if j < i && Covers(j, p) then d else 0
  {
    if j < i && Covers(j, p) then d else 0
  }

  /** Part way through the lowbit loop that adds `d` at point `p`: the nodes
      below `i` that cover `p` have received `d`, the rest are as before. */
  ghost predicate Partial(v: seq<int>, b: seq<int>, p: int, d: int, i: int)
    requires p >= 1
  {
    |v| == |b| &&
    forall j :: 1 <= j < |v| ==> NodeHolds(v, b, j, Received(j, i, p, d))
  }

  lemma PartialStart(v: seq<int>, b: seq<int>, p: int, d: int)
    requires p >= 1 && Fenwick(v, b)
    ensures Partial(v, b, p, d, p)
  {
    forall j | 1 <= j < |v|
      ensures NodeHolds(v, b, j, Received(j, p, p, d))
    {
      assert NodeHolds(v, b, j, 0);
    }
  }

  lemma PartialStep(v: seq<int>, b: seq<int>, p: int, d: int, i: int)
    requires p >= 1 && Partial(v, b, p, d, i) && 1 <= i < |v| && Covers(i, p)
    ensures Partial(v[i := v[i] + d], b, p, d, i + LowBit(i))
    ensures i + LowBit(i) < |v| ==> Covers(i + LowBit(i), p)
  {
    CoverStep(i, p);
    var v', i' := v[i := v[i] + d], i + LowBit(i);
    forall j | 1 <= j < |v|
      ensures NodeHolds(v', b, j, Received(j, i', p, d))
    {
      assert NodeHolds(v, b, j, Received(j, i, p, d));
    }
  }

  lemma PartialDone(v: seq<int>, b: seq<int>, p: int, d: int, i: int)
    requires p >= 1 && Partial(v, b, p, d, i) && i >= |v|
    ensures Fenwick(v, Bump(b, p, d))
  {
    forall j | 1 <= j < |v|
      ensures NodeHolds(v, Bump(b, p, d), j, 0)
    {
      assert NodeHolds(v, b, j, Received(j, i, p, d));
      RangeSumBump(b, p, d, j - LowBit(j), j);
    }
  }

  /** One step `x -= x & -x` of the query loop of `sum`, which adds
      `vec1[x] + vec2[x] * k`: the sums it has gathered now start at the next node. */
  lemma QueryStep(v1: seq<int>, v2: seq<int>, b1: seq<int>, b2: seq<int>, x: int, k: int, ret: int)
    requires Fenwick(v1, b1) && Fenwick(v2, b2) && |b1| == |b2| && 1 <= x <= k < |b1|
    requires ret == RangeSum(b1, x, k) + k * RangeSum(b2, x, k)
    ensures ret + (v1[x] + v2[x] * k) == RangeSum(b1, x - LowBit(x), k) + k * RangeSum(b2, x - LowBit(x), k)
  {
    var x' := x - LowBit(x);
    assert NodeHolds(v1, b1, x, 0) && NodeHolds(v2, b2, x, 0);
    RangeSumSplit(b1, x', x, k);
    RangeSumSplit(b2, x', x, k);
    assert k * RangeSum(b2, x', k) == k * RangeSum(b2, x', x) + k * RangeSum(b2, x, k);
  }

  /** The prefix query `sum(q)` reads `vec1` and `vec2` at index `k = q + 1`:
      their prefixes, with the second scaled by `k`, add up to the sum of the
      abstract array below `q`. */
  ghost predicate Abstracts(b1: seq<int>, b2: seq<int>, a: seq<int>)
    requires |b1| == |b2| == |a| + 2
  {
    forall q :: 0 <= q <= |a| ==> RangeSum(b1, 0, q + 1) + (q + 1) * RangeSum(b2, 0, q + 1) == SumBelow(a, q)
  }

  lemma ZeroAbstracts(b1: seq<int>, b2: seq<int>, a: seq<int>)
    requires |b1| == |b2| == |a| + 2
    requires forall j :: 0 <= j < |b1| ==> b1[j] == 0 && b2[j] == 0
    requires forall i :: 0 <= i < |a| ==> a[i] == 0
    ensures Abstracts(b1, b2, a)
  {
    forall q | 0 <= q <= |a|
      ensures RangeSum(b1, 0, q + 1) + (q + 1) * RangeSum(b2, 0, q + 1) == SumBelow(a, q)
    {
      RangeSumZero(b1, 0, q + 1);
      RangeSumZero(b2, 0, q + 1);
      SumBelowZero(a, q);
    }
  }

  lemma {:induction false} SumBelowZero(a: seq<int>, q: int)
    requires q <= |a| && forall i :: 0 <= i < |a| ==> a[i] == 0
    ensures SumBelow(a, q) == 0
    decreases q
  {
    if q > 0 {
      SumBelowZero(a, q - 1);
    }
  }

  /** The arithmetic of one prefix `q` under the four point updates of `add`:
      `u1`, `u2` are the new prefixes of the point arrays, `s1`, `s2` the old. */
  lemma AddAbstractsAt(s1: int, s2: int, u1: int, u2: int, t: int, l: int, r: int, x: int, q: int)
    requires u1 == s1 + (if l + 1 <= q + 1 then -x * (l + 1) else 0) + (if r + 1 <= q + 1 then x * (r + 1) else 0)
    requires u2 == s2 + (if l + 1 <= q + 1 then x else 0) + (if r + 1 <= q + 1 then -x else 0)
    requires s1 + (q + 1) * s2 == t
    ensures u1 + (q + 1) * u2 == t + x * Overlap(l, r, q)
  {
    var k := q + 1;
    if l <= q {
      assert k * x - x * (l + 1) == x * (q - l);
    }
    if r <= q {
      assert k * x - x * (r + 1) == x * (q - r);
    }
    assert k * u2 == k * s2 + (if l <= q then k * x else 0) - (if r <= q then k * x else 0);
    assert x * Overlap(l, r, q) == (if l <= q then x * (q - l) else 0) - (if r <= q then x * (q - r) else 0);
  }

  /** The four point updates `add(l, r, x)` makes keep the abstraction, with
      the abstract array changed by `Added`. */
  lemma AddAbstracts(b1: seq<int>, b2: seq<int>, a: seq<int>, l: int, r: int, x: int)
    requires |b1| == |b2| == |a| + 2 && l >= 0 && r >= 0
    requires Abstracts(b1, b2, a)
    ensures Abstracts(Bump(Bump(b1, l + 1, -x * (l + 1)), r + 1, x * (r + 1)),
                      Bump(Bump(b2, l + 1, x), r + 1, -x), Added(a, l, r, x))
  {
    var c1 := Bump(b1, l + 1, -x * (l + 1));
    var d1 := Bump(c1, r + 1, x * (r + 1));
    var c2 := Bump(b2, l + 1, x);
    var d2 := Bump(c2, r + 1, -x);
    forall q | 0 <= q <= |a|
      ensures RangeSum(d1, 0, q + 1) + (q + 1) * RangeSum(d2, 0, q + 1) == SumBelow(Added(a, l, r, x), q)
    {
      var k := q + 1;
      RangeSumBump(b1, l + 1, -x * (l + 1), 0, k);
      RangeSumBump(c1, r + 1, x * (r + 1), 0, k);
      RangeSumBump(b2, l + 1, x, 0, k);
      RangeSumBump(c2, r + 1, -x, 0, k);
      SumBelowAdded(a, l, r, x, q);
      AddAbstractsAt(RangeSum(b1, 0, k), RangeSum(b2, 0, k), RangeSum(d1, 0, k), RangeSum(d2, 0, k),
                     SumBelow(a, q), l, r, x, q);
    }
  }

  /** The two Fenwick trees of `range_bit`. Indices are 1-based inside:
      entry `i` of the abstract array sits at node `i + 1`, and `n` is one more
      than the number of entries. */
  class RangeBit {
    var vec1: array<int>
    var vec2: array<int>
    var n: int
    ghost var a: seq<int>
    ghost var b1: seq<int>
    ghost var b2: seq<int>

    /** Both arrays have `n + 1` slots, slot 0 unused. */
    ghost predicate Shape()
      reads this
    {
      n >= 1 && vec1 != vec2 && vec1.Length == n + 1 && vec2.Length == n + 1 &&
      |a| == n - 1 && |b1| == n + 1 && |b2| == n + 1
    }

    ghost predicate Valid()
      reads this, vec1, vec2
    {
      Shape() && Fenwick(vec1[..], b1) && Fenwick(vec2[..], b2) && Abstracts(b1, b2, a)
    }

    /** `range_bit(n_)`: `n_` entries, all zero. */
    constructor (n_: int)
      requires n_ >= 0
      ensures Valid() && a == seq(n_, _ => 0) && n == n_ + 1
      ensures fresh(vec1) && fresh(vec2)
    {
      n := n_ + 1;
      vec1 := new int[n_ + 2](_ => 0);
      vec2 := new int[n_ + 2](_ => 0);
      a := seq(n_, _ => 0);
      b1 := seq(n_ + 2, _ => 0);
      b2 := seq(n_ + 2, _ => 0);
      new;
      forall j | 1 <= j < vec1.Length
        ensures NodeHolds(vec1[..], b1, j, 0) && NodeHolds(vec2[..], b2, j, 0)
      {
        RangeSumZero(b1, j - LowBit(j), j);
        RangeSumZero(b2, j - LowBit(j), j);
      }
      ZeroAbstracts(b1, b2, a);
    }

    /** One lowbit loop of `add`: `for (i = p; i <= n; i += i & -i)`, adding
        `d1` to `vec1[i]` and `d2` to `vec2[i]`, i.e. `d1`, `d2` at point `p`. */
    method PointAdd(p: int, d1: int, d2: int)
      requires Shape() && Fenwick(vec1[..], b1) && Fenwick(vec2[..], b2) && p >= 1
      modifies this, vec1, vec2
      ensures Shape() && Fenwick(vec1[..], b1) && Fenwick(vec2[..], b2)
      ensures vec1 == old(vec1) && vec2 == old(vec2) && n == old(n) && a == old(a)
      ensures b1 == Bump(old(b1), p, d1) && b2 == Bump(old(b2), p, d2)
    {
      PartialStart(vec1[..], b1, p, d1);
      PartialStart(vec2[..], b2, p, d2);
      var i := p;
      while i <= n
        invariant p <= i && (i <= n ==> Covers(i, p))
        invariant Partial(vec1[..], b1, p, d1, i) && Partial(vec2[..], b2, p, d2, i)
        modifies vec1, vec2
        decreases n - i
      {
        ghost var v1, v2 := vec1[..], vec2[..];
        vec1[i] := vec1[i] + d1;
        vec2[i] := vec2[i] + d2;
        assert vec1[..] == v1[i := v1[i] + d1] && vec2[..] == v2[i := v2[i] + d2];
        PartialStep(v1, b1, p, d1, i);
        PartialStep(v2, b2, p, d2, i);
        i := i + LowBit(i);
      }
      PartialDone(vec1[..], b1, p, d1, i);
      PartialDone(vec2[..], b2, p, d2, i);
      b1 := Bump(b1, p, d1);
      b2 := Bump(b2, p, d2);
    }

    /** `add(l, r, x)`: add `x` to the entries in `[l, r)`. */
    method Add(l: int, r: int, x: int)
      requires Valid() && l >= 0 && r >= 0
      modifies this, vec1, vec2
      ensures Valid() && a == Added(old(a), l, r, x)
      ensures vec1 == old(vec1) && vec2 == old(vec2) && n == old(n)
    {
      ghost var a0, c1, c2 := a, b1, b2;
      var l', r' := l + 1, r + 1;
      PointAdd(l', -x * l', x);
      PointAdd(r', x * r', -x);
      AddAbstracts(c1, c2, a0, l, r, x);
      a := Added(a0, l, r, x);
    }

    /** `sum(r)`: the sum of the entries below `r` (0 when `r <= 0`). */
    method Sum(r: int) returns (ret: int)
      requires Valid() && r <= n - 1
      ensures ret == SumBelow(a, r)
    {
      var k := r + 1;
      ret := 0;
      var x := k;
      while x > 0
        invariant k <= 0 ==> x == k && ret == 0
        invariant k > 0 ==> 0 <= x <= k && ret == RangeSum(b1, x, k) + k * RangeSum(b2, x, k)
        decreases x
      {
        var x' := x - LowBit(x);
        QueryStep(vec1[..], vec2[..], b1, b2, x, k, ret);
        ret := ret + (vec1[x] + vec2[x] * k);
        x := x';
      }
    }

    /** `sum(l, r)`: the sum of the entries in `[l, r)`, as the difference of two prefix sums. */
    method SumRange(l: int, r: int) returns (ret: int)
      requires Valid() && l <= n - 1 && r <= n - 1
      ensures ret == SumBelow(a, r) - SumBelow(a, l)
      ensures 0 <= l <= r ==> ret == Total(a[l..r])
    {
      var hi := Sum(r);
      var lo := Sum(l);
      ret := hi - lo;
      if 0 <= l <= r {
        SumBelowWindow(a, l, r);
      }
    }

    /** `operator[](x)`: entry `x`, read as `sum(x, x + 1)`. */
    method Get(x: int) returns (ret: int)
      requires Valid() && x < n - 1
      ensures ret == if x >= 0 then a[x] else 0
    {
      ret := SumRange(x, x + 1);
      if x >= 0 {
        assert a[x..x + 1] == [a[x]];
      }
    }
  }
}
