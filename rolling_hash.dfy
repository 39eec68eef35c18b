/** `rolling_hash` of string/rolling_hash.hpp: polynomial hashes of every
    prefix of a sequence modulo the Mersenne prime 2^61 - 1, substring
    hashes from two prefixes, and a longest-common-prefix search by
    binary search on hash equality. */
module RollingHashes {

  /** `(1ll << 61) - 1`. */
  const MOD: int := 0x1FFF_FFFF_FFFF_FFFF

  /** C++ `%`, which truncates toward zero: the remainder takes the sign of `a`. */
  function CMod(a: int): (r: int)
    ensures a >= 0 ==> r == a % MOD
    ensures a < 0 ==> -MOD < r <= 0 && (r - a) % MOD == 0
  {
    if a >= 0 then a % MOD else -((-a) % MOD)
  }

  /** `mul(x, y)`: the product taken modulo `MOD` in 128-bit arithmetic (which cannot overflow
      for 61-bit operands). */
  function Mul(x: int, y: int): (r: int)
    ensures -MOD < r < MOD
    ensures x * y >= 0 ==> 0 <= r && r == (x * y) % MOD
  {
    CMod(x * y)
  }

  // ---------------------------------------------------------------- the polynomial

  function Pow(b: int, k: nat): (r: int)
    ensures b >= 0 ==> r >= 0
    decreases k
  {
    if k == 0 then 1 else Pow(b, k - 1) * b
  }

  /** The hash polynomial of `s[l..r)`: `s[l] * b^(r-1-l) + ... + s[r-1] * b^0`, computed by Horner's rule. */
  function Poly(s: seq<int>, l: int, r: int, b: int): (h: int)
    requires 0 <= l <= r <= |s|
    decreases r - l
  {
    if r == l then 0 else Poly(s, l, r - 1, b) * b + s[r - 1]
  }

  ghost predicate NonNegative(s: seq<int>) {
    forall i :: 0 <= i < |s| ==> s[i] >= 0
  }

  lemma {:induction false} PolyNonNegative(s: seq<int>, l: int, r: int, b: int)
    requires 0 <= l <= r <= |s| && NonNegative(s) && b >= 0
    ensures Poly(s, l, r, b) >= 0
    decreases r - l
  {
    if r > l {
      PolyNonNegative(s, l, r - 1, b);
    }
  }

  /** A prefix polynomial splits at any middle point: the left part is shifted by the length of the right part. */
  lemma {:induction false} PolySplit(s: seq<int>, l: int, m: int, r: int, b: int)
    requires 0 <= l <= m <= r <= |s|
    ensures Poly(s, l, r, b) == Poly(s, l, m, b) * Pow(b, r - m) + Poly(s, m, r, b)
    decreases r - m
  {
    if r > m {
      PolySplit(s, l, m, r - 1, b);
      var x, p, y := Poly(s, l, m, b), Pow(b, r - 1 - m), Poly(s, m, r - 1, b);
      assert (x * p + y) * b == x * (p * b) + y * b;
    }
  }

  /** The polynomial of a window depends only on the window's contents. */
  lemma {:induction false} PolyWindow(s: seq<int>, l: int, r: int, b: int)
    requires 0 <= l <= r <= |s|
    ensures Poly(s, l, r, b) == Poly(s[l..r], 0, r - l, b)
    decreases r - l
  {
    if r > l {
      PolyWindow(s, l, r - 1, b);
      PolyPrefix(s[l..r], r - l - 1, b);
      assert s[l..r][..r - l - 1] == s[l..r - 1];
    }
  }

  /** A polynomial over a prefix only reads the prefix. */
  lemma {:induction false} PolyPrefix(t: seq<int>, k: int, b: int)
    requires 0 <= k <= |t|
    ensures Poly(t, 0, k, b) == Poly(t[..k], 0, k, b)
    decreases k
  {
    if k > 0 {
      PolyPrefix(t, k - 1, b);
      PolyPrefix(t[..k], k - 1, b);
      assert t[..k][..k - 1] == t[..k - 1];
    }
  }

  // ---------------------------------------------------------------- modular arithmetic

  lemma ModShift(k: int, z: int)
    ensures (MOD * k + z) % MOD == z % MOD
  {
  }

  lemma ModMulLeft(a: int, b: int)
    requires a >= 0 && b >= 0
    ensures ((a % MOD) * b) % MOD == (a * b) % MOD
  {
    var q, r := a / MOD, a % MOD;
    assert a * b == MOD * (q * b) + r * b by {
      assert a == MOD * q + r;
    }
    ModShift(q * b, r * b);
  }

  lemma ModMul(a: int, b: int)
    requires a >= 0 && b >= 0
    ensures ((a % MOD) * (b % MOD)) % MOD == (a * b) % MOD
  {
    ModMulLeft(a, b % MOD);
    ModMulLeft(b, a);
    assert (a * (b % MOD)) == (b % MOD) * a;
    assert a * b == b * a;
  }

  lemma ModSub(a: int, b: int)
    ensures ((a % MOD) - (b % MOD)) % MOD == (a - b) % MOD
  {
    ModShift(a / MOD - b / MOD, (a % MOD) - (b % MOD));
  }

  // ---------------------------------------------------------------- longest common prefix

  function Min(x: int, y: int): (m: int)
    ensures m <= x && m <= y && (m == x || m == y)
  {
    if x < y then x else y
  }

  /** The length of the longest common prefix of the suffixes of `s` at `a` and at `b`. */
  function Lcp(s: seq<int>, a: int, b: int): (k: int)
    requires 0 <= a <= |s| && 0 <= b <= |s|
    ensures 0 <= k <= Min(|s| - a, |s| - b)
    decreases |s| - a
  {
    if a < |s| && b < |s| && s[a] == s[b] then 1 + Lcp(s, a + 1, b + 1) else 0
  }

  /** The common prefix is common, and the entries right after it differ
      unless it reaches the end of a suffix. */
  lemma {:induction false} LcpIsCommonPrefix(s: seq<int>, a: int, b: int)
    requires 0 <= a <= |s| && 0 <= b <= |s|
    ensures var k := Lcp(s, a, b);
      s[a..a + k] == s[b..b + k] && (k < Min(|s| - a, |s| - b) ==> s[a + k] != s[b + k])
    decreases |s| - a
  {
    if a < |s| && b < |s| && s[a] == s[b] {
      LcpIsCommonPrefix(s, a + 1, b + 1);
      var k' := Lcp(s, a + 1, b + 1);
      assert Lcp(s, a, b) == k' + 1;
      assert s[a..a + k' + 1] == [s[a]] + s[a + 1..a + 1 + k'];
      assert s[b..b + k' + 1] == [s[b]] + s[b + 1..b + 1 + k'];
    } else {
      assert Lcp(s, a, b) == 0;
    }
  }

  /** Two windows of length `m` agree exactly when `m` is at most the common prefix length. */
  lemma LcpWindows(s: seq<int>, a: int, b: int, m: int)
    requires 0 <= a <= |s| && 0 <= b <= |s| && 0 <= m <= Min(|s| - a, |s| - b)
    ensures s[a..a + m] == s[b..b + m] <==> m <= Lcp(s, a, b)
  {
    var k := Lcp(s, a, b);
    LcpIsCommonPrefix(s, a, b);
    if m <= k {
      assert s[a..a + m] == s[a..a + k][..m];
      assert s[b..b + m] == s[b..b + k][..m];
    } else {
      assert s[a..a + m][k] == s[a + k];
      assert s[b..b + m][k] == s[b + k];
    }
  }

  /** A suffix shares all of itself with itself. */
  lemma {:induction false} LcpSelf(s: seq<int>, a: int)
    requires 0 <= a <= |s|
    ensures Lcp(s, a, a) == |s| - a
    decreases |s| - a
  {
    if a < |s| {
      LcpSelf(s, a + 1);
    }
  }

  // ---------------------------------------------------------------- the structure

  class RollingHash {
    var n: int
    var base: int
    var hash: array<int>
    var power: array<int>
    /** The hashed sequence (the source keeps only its hashes). */
    ghost var s: seq<int>

    /** `hash[i]` is the prefix polynomial of length `i` and `power[i]` is `base^i`, both modulo `MOD`. */
    ghost predicate Valid()
      reads this, hash, power
    {
      n == |s| && base >= 0 && NonNegative(s) &&
      hash.Length == n + 1 && power.Length == n + 1 && Tables(hash[..], power[..], s, base, n)
    }

    /** `rolling_hash(s)`, with the base supplied by the caller. */
    constructor (str: seq<int>, b: int)
      requires b >= 0 && NonNegative(str)
      ensures Valid() && s == str && base == b && n == |str|
      ensures hash[0] == 0 && power[0] == 1
    {
      n := |str|;
      base := b;
      s := str;
      var h := new int[|str| + 1](_ => 0);
      var p := new int[|str| + 1](_ => 1);
      hash, power := h, p;
      new;
      var i := 0;
      while i < n
        invariant 0 <= i <= n && n == |s| && s == str && hash == h && power == p && h != p
        invariant Tables(h[..], p[..], s, base, i)
        modifies h, p
      {
        ghost var hs, ps := h[..], p[..];
        h[i + 1] := CMod(Mul(h[i], base) + str[i]);
        p[i + 1] := CMod(Mul(p[i], base));
        TablesStep(hs, ps, s, base, i);
        assert h[..] == hs[i + 1 := CMod(Mul(hs[i], base) + s[i])];
        assert p[..] == ps[i + 1 := CMod(Mul(ps[i], base))];
        i := i + 1;
      }
    }

    /** `get(l, r)`: the hash of `s[l..r)`, in `[0, MOD)`. */
    function Get(l: int, r: int): (res: int)
      reads this, hash, power
      requires Valid() && 0 <= l < r <= n
      ensures 0 <= res < MOD && res == Poly(s, l, r, base) % MOD
    {
      GetCorrect(s, l, r, base, hash[l], hash[r], power[r - l]);
      var res := hash[r] - CMod(Mul(hash[l], power[r - l]));
      if res < 0 then res + MOD else res
    }

    /** `get_all()`: the hash of the whole sequence. */
    function GetAll(): (res: int)
      reads this, hash, power
      requires Valid() && n >= 1
      ensures 0 <= res < MOD && res == Poly(s, 0, n, base) % MOD
    {
      Get(0, n)
    }

    /** The windows of length `m` at `a` and at `b` hash alike: the test
        `get(a, a + m) == get(b, b + m)` of the binary search. */
    predicate Agree(a: int, b: int, m: int)
      reads this, hash, power
      requires Valid() && 0 <= a && 0 <= b && 1 <= m && a + m <= n && b + m <= n
    {
      Get(a, a + m) == Get(b, b + m)
    }

    /** `get_lcp(a, b)` as written: a binary search whose upper end starts at
        `len`, the longest length both suffixes have, so `len` itself is never
        tried. The result is below `len`, its hashes agree, and one past it
        they differ unless the search range ends there; equal suffixes get
        `len - 1`. */
    method GetLcp(a: int, b: int) returns (ok: int)
      requires Valid() && 0 <= a < n && 0 <= b < n
      ensures 0 <= ok < Min(n - a, n - b)
      ensures ok > 0 ==> Agree(a, b, ok)
      ensures ok + 1 == Min(n - a, n - b) || !Agree(a, b, ok + 1)
      ensures a == b ==> ok == n - a - 1
    {
      var len := Min(n - a, n - b);
      ok := 0;
      var ng := len;
      while ng - ok > 1
        invariant 0 <= ok < ng <= len
        invariant ok > 0 ==> Agree(a, b, ok)
        invariant ng < len ==> !Agree(a, b, ng)
        invariant a == b ==> ng == len
        decreases ng - ok
      {
        var mid := (ok + ng) / 2;
        if !Agree(a, b, mid) {
          ng := mid;
        } else {
          ok := mid;
        }
      }
    }

    /** `get_lcp` with the upper end started at `len + 1`, so that a full-length match can be found. */
    method GetLcpFixed(a: int, b: int) returns (ok: int)
      requires Valid() && 0 <= a < n && 0 <= b < n
      ensures 0 <= ok <= Min(n - a, n - b)
      ensures ok > 0 ==> Agree(a, b, ok)
      ensures ok == Min(n - a, n - b) || !Agree(a, b, ok + 1)
      ensures a == b ==> ok == n - a
    {
      var len := Min(n - a, n - b);
      ok := 0;
      var ng := len + 1;
      while ng - ok > 1
        invariant 0 <= ok < ng <= len + 1
        invariant ok > 0 ==> Agree(a, b, ok)
        invariant ng <= len ==> !Agree(a, b, ng)
        invariant a == b ==> ng == len + 1
        decreases ng - ok
      {
        var mid := (ok + ng) / 2;
        if !Agree(a, b, mid) {
          ng := mid;
        } else {
          ok := mid;
        }
      }
    }

    /** No two windows at `a` and `b` of the same positive length collide: equal hashes mean equal windows. */
    ghost predicate CollisionFree(a: int, b: int)
      reads this, hash, power
      requires Valid() && 0 <= a < n && 0 <= b < n
    {
      forall m :: 1 <= m <= Min(n - a, n - b) ==> Agree(a, b, m) ==> s[a..a + m] == s[b..b + m]
    }

    /** `get` depends only on the window contents. */
    lemma GetWindow(l: int, r: int, l': int, r': int)
      requires Valid() && 0 <= l < r <= n && 0 <= l' < r' <= n && s[l..r] == s[l'..r']
      ensures Get(l, r) == Get(l', r')
    {
      PolyWindow(s, l, r, base);
      PolyWindow(s, l', r', base);
    }

    /** Different hashes at length `m` mean the windows differ, so the common prefix is shorter than `m`. */
    lemma Mismatch(a: int, b: int, m: int)
      requires Valid() && 0 <= a < n && 0 <= b < n && 1 <= m <= Min(n - a, n - b)
      requires !Agree(a, b, m)
      ensures Lcp(s, a, b) < m
    {
      LcpWindows(s, a, b, m);
      if s[a..a + m] == s[b..b + m] {
        GetWindow(a, a + m, b, b + m);
      }
    }

    /** What a search result `ok` with agreeing hashes at `ok` and differing
        ones at `ok + 1` (or `ok + 1` past `top`) says about the true common
        prefix: it is at most `ok`, unless the search stopped at `top`; with
        no collisions it is at least `ok`, so a search run to `top = len + 1`
        finds it exactly. */
    lemma SearchResult(a: int, b: int, ok: int, top: int)
      requires Valid() && 0 <= a < n && 0 <= b < n && 0 <= ok < top <= Min(n - a, n - b) + 1
      requires ok > 0 ==> Agree(a, b, ok)
      requires ok + 1 == top || !Agree(a, b, ok + 1)
      ensures ok + 1 < top ==> Lcp(s, a, b) <= ok
      ensures CollisionFree(a, b) ==> ok <= Lcp(s, a, b)
      ensures CollisionFree(a, b) && top == Min(n - a, n - b) + 1 ==> ok == Lcp(s, a, b)
    {
      if ok + 1 < top {
        Mismatch(a, b, ok + 1);
      }
      if CollisionFree(a, b) && ok > 0 {
        LcpWindows(s, a, b, ok);
      }
    }
  }

  /** The arithmetic of one hash step: reducing the old hash first changes nothing modulo `MOD`. */
  lemma HashStepMod(h: int, b: int, c: int)
    requires h >= 0 && b >= 0 && c >= 0
    ensures CMod(Mul(h % MOD, b) + c) == (h * b + c) % MOD
  {
    var hm := h % MOD;
    assert hm * b >= 0;
    ModMulLeft(h, b);
    var m := Mul(hm, b);
    assert m == (h * b) % MOD;
    ModShift((h * b) / MOD, m + c);
  }

  /** The first `k + 1` entries of `hs` and `ps` are the prefix hashes and powers modulo `MOD`. */
  ghost predicate Tables(hs: seq<int>, ps: seq<int>, s: seq<int>, b: int, k: int)
    requires 0 <= k <= |s|
  {
    |hs| == |ps| == |s| + 1 &&
    (forall j :: 0 <= j <= k ==> hs[j] == Poly(s, 0, j, b) % MOD) &&
    (forall j :: 0 <= j <= k ==> ps[j] == Pow(b, j) % MOD)
  }

  lemma TablesStep(hs: seq<int>, ps: seq<int>, s: seq<int>, b: int, i: int)
    requires 0 <= i < |s| && NonNegative(s) && b >= 0 && Tables(hs, ps, s, b, i)
    ensures Tables(hs[i + 1 := CMod(Mul(hs[i], b) + s[i])], ps[i + 1 := CMod(Mul(ps[i], b))], s, b, i + 1)
  {
    PrefixStep(s, i, b);
  }

  /** One step of the constructor's loop computes the next prefix hash and power. */
  lemma PrefixStep(s: seq<int>, i: int, b: int)
    requires 0 <= i < |s| && NonNegative(s) && b >= 0
    ensures CMod(Mul(Poly(s, 0, i, b) % MOD, b) + s[i]) == Poly(s, 0, i + 1, b) % MOD
    ensures CMod(Mul(Pow(b, i) % MOD, b)) == Pow(b, i + 1) % MOD
  {
    PolyNonNegative(s, 0, i, b);
    HashStepMod(Poly(s, 0, i, b), b, s[i]);
    HashStepMod(Pow(b, i), b, 0);
  }

  /** The product of two reduced operands, reduced, is the reduced product. */
  lemma MulReduced(B: int, P: int, hl: int, p: int)
    requires B >= 0 && P >= 0 && hl == B % MOD && p == P % MOD
    ensures CMod(Mul(hl, p)) == (B * P) % MOD
  {
    assert hl * p >= 0;
    ModMul(B, P);
  }

  /** The arithmetic of `get`: with `A = B * P + W`, the reduced `A` minus the
      reduced product, brought into `[0, MOD)`, is `W` modulo `MOD`. */
  lemma GetArith(A: int, B: int, P: int, W: int, hl: int, hr: int, p: int)
    requires A == B * P + W && B >= 0 && P >= 0
    requires hl == B % MOD && hr == A % MOD && p == P % MOD
    ensures var res := hr - CMod(Mul(hl, p));
      (if res < 0 then res + MOD else res) == W % MOD
  {
    var BP := B * P;
    MulReduced(B, P, hl, p);
    SubReduced(A, BP, W, hr, CMod(Mul(hl, p)));
  }

  lemma SubReduced(A: int, BP: int, W: int, hr: int, m: int)
    requires A == BP + W && hr == A % MOD && m == BP % MOD
    ensures var res := hr - m;
      (if res < 0 then res + MOD else res) == W % MOD
  {
    ModSub(A, BP);
    var res := hr - m;
    if res < 0 {
      ModShift(1, res);
    } else {
      ModShift(0, res);
    }
  }

  /** `get(l, r)` recovers the window hash from two prefix hashes and a power. */
  lemma GetCorrect(s: seq<int>, l: int, r: int, b: int, hl: int, hr: int, p: int)
    requires 0 <= l < r <= |s| && NonNegative(s) && b >= 0
    requires hl == Poly(s, 0, l, b) % MOD && hr == Poly(s, 0, r, b) % MOD && p == Pow(b, r - l) % MOD
    ensures var res := hr - CMod(Mul(hl, p));
      (if res < 0 then res + MOD else res) == Poly(s, l, r, b) % MOD
  {
    PolySplit(s, 0, l, r, b);
    PolyNonNegative(s, 0, l, b);
    GetArith(Poly(s, 0, r, b), Poly(s, 0, l, b), Pow(b, r - l), Poly(s, l, r, b), hl, hr, p);
  }
}
