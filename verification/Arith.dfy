/** Division with remainder by a variable, step by step. */
module Arith {

  lemma {:induction false} MulAtLeast(t: int, d: nat)
    requires t >= 1
    ensures t * d >= d
    decreases t
  {
    if t > 1 {
      MulAtLeast(t - 1, d);
      assert t * d == (t - 1) * d + d;
    }
  }

  /** More whole multiples differ by at least one. */
  lemma MultiplesApart(a: int, b: int, d: nat)
    requires a < b
    ensures b * d >= a * d + d
  {
    MulAtLeast(b - a, d);
    assert (b - a) * d == b * d - a * d;
  }

  lemma Split(x: nat, d: nat)
    requires d > 0
    ensures x == x / d * d + x % d && 0 <= x % d < d
  {}

  lemma Quotient(x: nat, d: nat) returns (q: nat, m: nat)
    requires d > 0
    ensures q == x / d && m == x % d < d && x == m + d * q
  {
    Split(x, d);
    q, m := x / d, x % d;
  }

  /** Quotient and remainder are unique. */
  lemma DivMod(q: nat, d: nat, m: nat)
    requires m < d
    ensures (q * d + m) / d == q && (q * d + m) % d == m
  {
    var x := q * d + m;
    var k := x / d;
    Split(x, d);
    if k < q {
      MultiplesApart(k, q, d);
    } else if q < k {
      MultiplesApart(q, k, d);
    }
  }

  lemma ModApart(i: nat, j: nat, d: nat)
    requires i < j < i + d
    ensures i % d != j % d
  {
    var p, q := i / d, j / d;
    Split(i, d);
    Split(j, d);
    if p < q {
      MultiplesApart(p, q, d);
    } else if q < p {
      MultiplesApart(q, p, d);
    }
  }

  lemma NextMod(n: nat, d: nat)
    requires d > 0
    ensures (n + 1) % d == (n % d + 1) % d
    ensures (n + 1) / d == n / d + if (n + 1) % d == 0 then 1 else 0
  {
    var q, m := n / d, n % d;
    Split(n, d);
    if m + 1 < d {
      DivMod(q, d, m + 1);
    } else {
      assert n + 1 == (q + 1) * d;
      DivMod(q + 1, d, 0);
      DivMod(1, d, 0);
    }
  }

  lemma AddMultiple(n: nat, k: nat, d: nat)
    requires d > 0
    ensures (n + k * d) % d == n % d && (n + k * d) / d == n / d + k
  {
    Split(n, d);
    assert n + k * d == (n / d + k) * d + n % d;
    DivMod(n / d + k, d, n % d);
  }

  lemma SameResidue(x: nat, y: nat, m: nat, d: int)
    requires x < m && y < m && y == x + m * d
    ensures x == y
  {
    if d > 0 {
      MulAtLeast(d, m);
    } else if d < 0 {
      assert m * d == -(-d * m);
      MulAtLeast(-d, m);
    }
  }

  function Pow2(k: nat): (p: nat)
    ensures p > 0
  {
    if k == 0 then 1 else 2 * Pow2(k - 1)
  }

  lemma {:induction false} PowAdd(i: nat, j: nat)
    ensures Pow2(i + j) == Pow2(i) * Pow2(j)
  {
    if i > 0 {
      PowAdd(i - 1, j);
    }
  }

  lemma PowDouble(k: nat, p: nat) returns (w: nat)
    requires Pow2(k) == p
    ensures w == 2 * k && Pow2(w) == p * p
  {
    w := k + k;
    PowAdd(k, k);
  }
}
