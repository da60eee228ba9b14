/** Triangular probing modulo a power of two: the number theory behind the probe loops
    of GHashTable (glib_compat/glib_compat.c). */
module Probing {
  import opened Arithmetic

  /** 0 + 1 + ... + k, the distance from the first bucket after k steps. */
  function Tri(k: nat): nat {
    if k == 0 then 0 else Tri(k - 1) + k
  }

  /** Bucket number `k` of the probe sequence that starts at `start`. */
  function Probe(start: nat, k: nat, size: nat): (i: nat)
    requires size > 0
    ensures i < size
  {
    (start + Tri(k)) % size
  }

  lemma ProbeStep(start: nat, k: nat, size: nat)
    requires size > 0
    ensures Probe(start, k + 1, size) == (Probe(start, k, size) + (k + 1)) % size
    ensures start < size ==> Probe(start, 0, size) == start
  {
    var x := start + Tri(k);
    ModSum(x, k + 1, size);
    if start < size { DivModUnique(start, 0, start, size); }
  }

  lemma ModSum(x: nat, y: nat, m: nat)
    requires m > 0
    ensures (x % m + y) % m == (x + y) % m
  {
    var r := x % m + y;
    DivModEq(x, m);
    DivModEq(r, m);
    var q, q' := x / m, r / m;
    Distribute(q, q', m);
    DivModUnique(x + y, q + q', r % m, m);
  }

  lemma {:induction false} TwiceTri(k: nat)
    ensures 2 * Tri(k) == k * (k + 1)
  {
    if k > 0 {
      TwiceTri(k - 1);
      assert (k - 1) * k + 2 * k == k * (k + 1);
    }
  }

  /** An odd factor does not help a product to be divisible by a power of two. */
  lemma {:induction false} OddFactor(m: nat, a: int, b: int, q: int) returns (r: int)
    requires a % 2 == 1 && a * b == q * Pow2(m)
    ensures b == r * Pow2(m)
  {
    if m == 0 {
      r := b;
    } else {
      var p := Pow2(m - 1);
      var c := a / 2;
      HalveProduct(a, b, c, q, p);
      var b' := b / 2;
      r := OddFactor(m - 1, a, b', q);
      assert b == 2 * (r * p);
      MulAssoc(2, r, p);
      MulAssoc(r, 2, p);
    }
  }

  lemma HalveProduct(a: int, b: int, c: int, q: int, p: int)
    requires a == 2 * c + 1 && a * b == q * (2 * p)
    ensures b == 2 * (b / 2) && a * (b / 2) == q * p
  {
    assert a * b == 2 * (c * b) + b by { Distribute(2 * c, 1, b); MulAssoc(2, c, b); }
    MulAssoc(q, 2, p);
    assert q * (2 * p) == 2 * (q * p) by { MulAssoc(2, q, p); }
    var b' := b / 2;
    assert b == 2 * b';
    assert a * b == 2 * (a * b') by { MulAssoc(a, 2, b'); MulAssoc(2, a, b'); }
  }

  /** Two different steps below 2^n never meet: the probes are all different. */
  lemma ProbesDiffer(start: nat, i: nat, j: nat, n: nat)
    requires i < j < Pow2(n)
    ensures Probe(start, i, Pow2(n)) != Probe(start, j, Pow2(n))
  {
    if Probe(start, i, Pow2(n)) == Probe(start, j, Pow2(n)) {
      var q := SameRemainder(start + Tri(i), start + Tri(j), Pow2(n));
      DistanceProduct(i, j, q, Pow2(n));
      NotAMultiple(i, j, q, n);
    }
  }

  lemma DistanceProduct(i: nat, j: nat, q: int, size: nat)
    requires Tri(j) - Tri(i) == q * size
    ensures (j - i) * (j + i + 1) == q * (2 * size)
  {
    TwiceTri(i);
    TwiceTri(j);
    FactorDifference(i, j);
    MulAssoc(q, 2, size);
    MulAssoc(2, q, size);
  }

  lemma NotAMultiple(i: nat, j: nat, q: int, n: nat)
    requires i < j < Pow2(n)
    ensures (j - i) * (j + i + 1) != q * (2 * Pow2(n))
  {
    var x, y, m := j - i, j + i + 1, Pow2(n + 1);
    assert m == 2 * Pow2(n);
    hide Pow2;
    if x * y == q * m {
      if x % 2 == 1 {
        var r := OddFactor(n + 1, x, y, q);
        TooSmall(y, r, m);
      } else {
        Commute(x, y);
        var r := OddFactor(n + 1, y, x, q);
        TooSmall(x, r, m);
      }
    }
  }

  lemma Commute(x: int, y: int)
    ensures x * y == y * x
  {}

  lemma FactorDifference(i: nat, j: nat)
    ensures j * (j + 1) - i * (i + 1) == (j - i) * (j + i + 1)
  {
    Distribute(j, i, j + i + 1);
    assert j * (j + i + 1) == j * (j + 1) + j * i;
    assert i * (j + i + 1) == i * j + i * (i + 1);
  }

  lemma SameRemainder(x: nat, y: nat, m: nat) returns (q: int)
    requires m > 0 && x % m == y % m
    ensures y - x == q * m
  {
    DivModEq(x, m);
    DivModEq(y, m);
    q := y / m - x / m;
    Distribute(y / m, x / m, m);
  }

  lemma TooSmall(x: int, r: int, m: nat)
    requires 0 < x < m
    ensures x != r * m
  {
    if r >= 1 { MulAtLeast(r, m); } else { MulOrder(r, 0, m); }
  }

  ghost function Buckets(start: nat, k: nat, size: nat): set<nat>
    requires size > 0
  {
    set j | 0 <= j < k :: Probe(start, j, size)
  }

  lemma {:induction false} BucketCount(start: nat, k: nat, n: nat)
    requires k <= Pow2(n)
    ensures |Buckets(start, k, Pow2(n))| == k
  {
    var size := Pow2(n);
    if k == 0 {
      assert Buckets(start, k, size) == {};
    } else {
      BucketCount(start, k - 1, n);
      var x := Probe(start, k - 1, size);
      if x in Buckets(start, k - 1, size) {
        var j :| 0 <= j < k - 1 && Probe(start, j, size) == x;
        ProbesDiffer(start, j, k - 1, n);
      }
      assert Buckets(start, k, size) == Buckets(start, k - 1, size) + {x};
    }
  }

  lemma {:induction false} Below(n: nat) returns (s: set<nat>)
    ensures (forall i: nat :: i in s <==> i < n) && |s| == n
  {
    if n == 0 {
      s := {};
    } else {
      s := Below(n - 1);
      s := s + {n - 1};
    }
  }

  /** Every bucket is visited within `size` steps. */
  lemma ProbesReach(start: nat, i: nat, n: nat) returns (k: nat)
    requires i < Pow2(n)
    ensures k < Pow2(n) && Probe(start, k, Pow2(n)) == i
  {
    var size := Pow2(n);
    var b := Buckets(start, size, size);
    BucketCount(start, size, n);
    var all := Below(size);
    SubsetOfSameSize(b, all);
    assert i in b;
    k :| 0 <= k < size && Probe(start, k, size) == i;
  }

  lemma {:induction false} SubsetOfSameSize(a: set<nat>, b: set<nat>)
    requires a <= b && |a| == |b|
    ensures a == b
  {
    if a != {} {
      var x :| x in a;
      SubsetOfSameSize(a - {x}, b - {x});
    }
  }
}
