/** The few facts about products, quotients and powers of two that the other
    modules need; each is stated for arbitrary operands so that no other proof
    has to reason about nonlinear terms. */
module Arithmetic {

  function Min(a: int, b: int): int { if a < b then a else b }

  lemma MulAtLeast(a: int, s: nat)
    requires a >= 1
    ensures a * s >= s
  {
    MulOrder(1, a, s);
  }

  lemma {:induction false} MulOrder(a: int, b: int, s: nat)
    requires a <= b
    ensures a * s <= b * s
  {
    if s > 0 {
      MulOrder(a, b, s - 1);
      assert a * s == a * (s - 1) + a && b * s == b * (s - 1) + b;
    }
  }

  lemma Distribute(a: int, b: int, s: int)
    ensures (a + b) * s == a * s + b * s
    ensures (a - b) * s == a * s - b * s
  {}

  /** Quotient and remainder are determined by the division equation. */
  lemma DivModUnique(x: int, q: int, r: int, s: nat)
    requires s > 0 && x == q * s + r && 0 <= r < s
    ensures x / s == q && x % s == r
  {
    var q', r' := x / s, x % s;
    assert x == q' * s + r';
    Distribute(q', q, s);
    Distribute(q, q', s);
    if q' > q { MulAtLeast(q' - q, s); assert false; }
    if q' < q { MulAtLeast(q - q', s); assert false; }
  }

  lemma DivModEq(x: int, s: nat)
    requires s > 0
    ensures x == x / s * s + x % s && 0 <= x % s < s
  {}

  lemma DivLess(x: nat, q: nat, s: nat)
    requires s > 0 && x < q * s
    ensures 0 <= x / s < q
  {
    DivModEq(x, s);
    if x / s >= q { MulOrder(q, x / s, s); assert false; }
    if x / s < 0 { MulOrder(x / s, -1, s); assert false; }
  }

  /** `p` lies `t` whole strides of `s` above the multiple `q * s`. */
  lemma StridesAbove(p: nat, q: nat, n: nat, s: nat) returns (t: nat)
    requires s > 0 && q * s <= p < q * s + n * s
    ensures t < n && p / s == q + t
    ensures q * s + t * s <= p < q * s + t * s + s
  {
    var d := p - q * s;
    DivModEq(d, s);
    DivLess(d, n, s);
    t := d / s;
    Distribute(q, t, s);
    DivModUnique(p, q + t, d % s, s);
  }

  function Pow2(n: nat): (r: nat)
    ensures r >= 1
  {
    if n == 0 then 1 else 2 * Pow2(n - 1)
  }

  lemma {:induction false} Pow2Add(m: nat, n: nat)
    ensures Pow2(m + n) == Pow2(m) * Pow2(n)
  {
    if m > 0 {
      Pow2Add(m - 1, n);
      assert Pow2(m + n) == 2 * Pow2(m - 1 + n);
      MulAssoc(2, Pow2(m - 1), Pow2(n));
    }
  }

  lemma MulAssoc(a: int, b: int, c: int)
    ensures a * (b * c) == a * b * c
  {}

  lemma {:induction false} Pow2Mono(m: nat, n: nat)
    requires m <= n
    ensures Pow2(m) <= Pow2(n)
    decreases n
  {
    if m < n { Pow2Mono(m, n - 1); }
  }
}
