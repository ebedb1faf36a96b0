/** The 48-bit generator behind mehcached_rand_d: one multiplication and addition in 64 bits, cut
    to 48. Its period is found for every modulus 2^e by doubling the number of steps. */
module Lcg48 {
  import opened Arith

  const A := 0x5deece66d
  const C := 0xb

  // ---- The code ----------------------------------------------------------------------------------

  /** Multiply and add in 64 bits, keep the low 48. */
  function RandStep(state: nat): nat {
    ((state * A) % 0x1_0000_0000_0000_0000 + C) % 0x1_0000_0000_0000_0000 % 0x1_0000_0000_0000
  }

  class Generator {
    var state: nat

    constructor (seed: nat)
      ensures state == seed
    {
      state := seed;
    }

    /** The quotient is taken in the reals; the code rounds it to a double. */
    method RandD() returns (r: real)
      modifies this
      ensures state == RandStep(old(state)) && 0.0 <= r <= 1.0
      ensures state == (old(state) * 0x5deece66d + 0xb) % 0x1_0000_0000_0000
      ensures old(state) == 0 ==> state == 11
      ensures r * 0xffff_ffff_ffff as real == state as real
    {
      Written(state);
      state := ((state * A) % 0x1_0000_0000_0000_0000 + C) % 0x1_0000_0000_0000_0000 % 0x1_0000_0000_0000;
      r := state as real / 0xffff_ffff_ffff as real;
    }
  }

  lemma Written(x: nat)
    ensures RandStep(x) == (x * 0x5deece66d + 0xb) % 0x1_0000_0000_0000
  {
    Cut(x * A);
  }

  /** The step from 0 gives 11, and neighbouring states lead to states that differ by 0x5deece66d. */
  lemma NeighboursApart(x: nat)
    ensures RandStep(0) == 11 && RandStep(x + 1) == (RandStep(x) + 0x5deece66d) % 0x1_0000_0000_0000
  {
    Written(0);
    Written(x);
    Written(x + 1);
    ModSum(x * 0x5deece66d + 0xb, 0x5deece66d);
  }

  lemma ModSum(u: nat, v: nat)
    ensures (u + v) % 0x1_0000_0000_0000 == (u % 0x1_0000_0000_0000 + v) % 0x1_0000_0000_0000
  {}

  function RandSteps(state: nat, n: nat): nat {
    if n == 0 then state else RandStep(RandSteps(state, n - 1))
  }

  // ---- The same modulo 2^e -----------------------------------------------------------------------

  function Next(e: nat, x: int): (r: nat)
    ensures r < Pow2(e)
  {
    (A * x + C) % Pow2(e)
  }

  function Iter(e: nat, x: nat, n: nat): (r: nat)
    ensures x < Pow2(e) || n > 0 ==> r < Pow2(e)
  {
    if n == 0 then x else Next(e, Iter(e, x, n - 1))
  }

  lemma {:induction false} IterAdd(e: nat, x: nat, i: nat, j: nat)
    ensures Iter(e, x, i + j) == Iter(e, Iter(e, x, i), j)
    decreases j
  {
    if j > 0 {
      IterAdd(e, x, i, j - 1);
    }
  }

  /** 2^k steps multiply by Factor(k) and add Summand(k). */
  ghost function Factor(k: nat): int {
    if k == 0 then A else Factor(k - 1) * Factor(k - 1)
  }

  ghost function Summand(k: nat): int {
    if k == 0 then C else (Factor(k - 1) + 1) * Summand(k - 1)
  }

  /** An affine map taken twice, up to multiples of `m`. */
  lemma Twice(f: int, c: int, m: int, x: int, y: int, s: int, t: int)
    requires y == f * x + c - m * s
    ensures f * y + c - m * t == f * f * x + (f + 1) * c - m * (f * s + t)
  {
    assert f * y == f * (f * x + c) - f * (m * s);
    assert f * (m * s) == m * (f * s);
  }

  /** 2^k steps are one affine map, up to a multiple `s` of the modulus. */
  lemma {:induction false} JumpIsAffine(e: nat, k: nat, x: nat) returns (s: int)
    ensures Iter(e, x, Pow2(k)) == Factor(k) * x + Summand(k) - Pow2(e) * s
    decreases k
  {
    if k == 0 {
      s := OneStep(e, x);
    } else {
      var y := Iter(e, x, Pow2(k - 1));
      var s0 := JumpIsAffine(e, k - 1, x);
      var t := JumpIsAffine(e, k - 1, y);
      IterAdd(e, x, Pow2(k - 1), Pow2(k - 1));
      Twice(Factor(k - 1), Summand(k - 1), Pow2(e), x, y, s0, t);
      s := Factor(k - 1) * s0 + t;
    }
  }

  lemma OneStep(e: nat, x: nat) returns (s: int)
    ensures Iter(e, x, 1) == A * x + C - Pow2(e) * s
  {
    s := (A * x + C) / Pow2(e);
    assert Iter(e, x, 1) == Next(e, Iter(e, x, 0));
    Split(A * x + C, Pow2(e));
  }

  lemma FactorSquares(w: int, p: int)
    ensures (1 + 4 * w * p) * (1 + 4 * w * p) == 1 + 4 * (2 * w) * (p + 2 * w * p * p)
  {}

  lemma SummandDoubles(w: int, p: int, q: int)
    ensures (1 + 4 * w * p + 1) * (w * (1 + 2 * q)) == 2 * w * (1 + 2 * (q + w * (p * (1 + 2 * q))))
  {
    var o := 1 + 2 * q;
    assert 2 * w * (1 + 2 * (q + w * (p * o))) == 2 * w * o + 4 * w * (w * (p * o));
    assert (2 + 4 * w * p) * (w * o) == 2 * (w * o) + (4 * w * p) * (w * o);
  }

  /** The factor is 1 modulo 4 * 2^k, and the summand is an odd multiple of 2^k. */
  lemma {:induction false} Shapes(k: nat) returns (p: int, q: int)
    ensures Factor(k) == 1 + 4 * Pow2(k) * p && Summand(k) == Pow2(k) * (1 + 2 * q)
    decreases k
  {
    if k == 0 {
      p, q := (A - 1) / 4, (C - 1) / 2;
    } else {
      var p0, q0 := Shapes(k - 1);
      var w := Pow2(k - 1);
      FactorSquares(w, p0);
      SummandDoubles(w, p0, q0);
      p, q := p0 + 2 * w * p0 * p0, q0 + w * (p0 * (1 + 2 * q0));
    }
  }

  lemma OddPart(w: int, h: int, p: int, q: int, x: int, s: int)
    ensures (1 + 4 * w * p) * x + w * (1 + 2 * q) - 2 * w * h * s == x + w * (1 + 2 * (2 * p * x + q - h * s))
  {
    assert (1 + 4 * w * p) * x == x + w * (4 * (p * x));
    assert 2 * w * h * s == w * (2 * (h * s));
    assert 2 * p * x == 2 * (p * x);
  }

  /** 2^k steps move by an odd multiple of 2^k. */
  lemma OddMove(e: nat, k: nat, x: nat) returns (t: int)
    requires k < e
    ensures Iter(e, x, Pow2(k)) == x + Pow2(k) * (1 + 2 * t)
  {
    var s := JumpIsAffine(e, k, x);
    var h := Pow2(e - k - 1);
    var p, q := Shapes(k);
    PowAdd(k + 1, e - k - 1);
    OddPart(Pow2(k), h, p, q, x, s);
    t := 2 * p * x + q - h * s;
  }

  lemma OneMore(w: nat, m: nat)
    ensures w * m == w * (m - 1) + w
  {}

  /** m times 2^k steps move by 2^k times a number of the parity of m. */
  lemma {:induction false} Moves(e: nat, k: nat, x: nat, m: nat) returns (t: int)
    requires k < e
    ensures Iter(e, x, Pow2(k) * m) == x + Pow2(k) * (m + 2 * t)
    decreases m
  {
    if m == 0 {
      t := 0;
    } else {
      var t0 := Moves(e, k, x, m - 1);
      var y := Iter(e, x, Pow2(k) * (m - 1));
      var t1 := OddMove(e, k, y);
      OneMore(Pow2(k), m);
      IterAdd(e, x, Pow2(k) * (m - 1), Pow2(k));
      t := t0 + t1;
      AddMoves(Pow2(k), m, t0, t1);
    }
  }

  lemma AddMoves(w: nat, m: int, t0: int, t1: int)
    ensures w * (m - 1 + 2 * t0) + w * (1 + 2 * t1) == w * (m + 2 * (t0 + t1))
  {}

  lemma OddIsNotZero(w: nat, o: int)
    requires w > 0 && o % 2 == 1
    ensures w * o != 0
  {
    if o > 0 {
      MulAtLeast(o, w);
    } else {
      MulAtLeast(-o, w);
      assert w * o == -(-o * w);
    }
  }

  lemma {:induction false} Decompose(n: nat) returns (k: nat, m: nat)
    requires n > 0
    ensures n == Pow2(k) * m && m % 2 == 1
  {
    if n % 2 == 1 {
      k, m := 0, n;
    } else {
      var k0, m0 := Decompose(n / 2);
      k, m := k0 + 1, m0;
      assert Pow2(k) * m == 2 * (Pow2(k0) * m);
    }
  }

  lemma FullTurn(e: nat, x: nat)
    requires x < Pow2(e)
    ensures Iter(e, x, Pow2(e)) == x
  {
    var m := Pow2(e);
    var s := JumpIsAffine(e, e, x);
    var p, q := Shapes(e);
    FullPart(m, p, q, x, s);
    SameResidue(x, Iter(e, x, m), m, 4 * (p * x) + 1 + 2 * q - s);
  }

  lemma FullPart(m: int, p: int, q: int, x: int, s: int)
    ensures (1 + 4 * m * p) * x + m * (1 + 2 * q) - m * s == x + m * (4 * (p * x) + 1 + 2 * q - s)
  {
    assert (1 + 4 * m * p) * x == x + m * (4 * (p * x));
  }

  lemma {:induction false} FullTurns(e: nat, x: nat, m: nat)
    requires x < Pow2(e)
    ensures Iter(e, x, Pow2(e) * m) == x
    decreases m
  {
    if m > 0 {
      FullTurns(e, x, m - 1);
      OneMore(Pow2(e), m);
      IterAdd(e, x, Pow2(e) * (m - 1), Pow2(e));
      FullTurn(e, x);
    }
  }

  lemma HighPower(e: nat, k: nat, m: nat)
    requires k >= e
    ensures Pow2(k) * m % Pow2(e) == 0
  {
    PowAdd(e, k - e);
    Whole(Pow2(e), Pow2(k - e), m);
  }

  lemma Whole(a: nat, b: nat, m: nat)
    requires a > 0
    ensures (a * b) * m % a == 0
  {
    Regroup(a, b, m);
    DivMod(b * m, a, 0);
  }

  lemma Regroup(a: nat, b: nat, m: nat)
    ensures (a * b) * m == (b * m) * a
  {}

  lemma OddSum(m: int, t: int)
    requires m % 2 == 1
    ensures (m + 2 * t) % 2 == 1
  {}

  lemma OddTimes(e: nat, k: nat, x: nat, m: nat)
    requires k < e && m % 2 == 1
    ensures Iter(e, x, Pow2(k) * m) != x
  {
    var t := Moves(e, k, x, m);
    OddSum(m, t);
    OddIsNotZero(Pow2(k), m + 2 * t);
  }

  lemma NotFull(e: nat, x: nat, n: nat)
    requires n > 0 && n % Pow2(e) != 0
    ensures Iter(e, x, n) != x
  {
    var k, m := Decompose(n);
    if k < e {
      OddTimes(e, k, x, m);
    } else {
      HighPower(e, k, m);
    }
  }

  /** The state comes back after multiples of 2^e steps and at no other time. */
  lemma Period(e: nat, x: nat, n: nat)
    requires x < Pow2(e)
    ensures Iter(e, x, n) == x <==> n % Pow2(e) == 0
  {
    DivMod(0, Pow2(e), 0);
    if n % Pow2(e) == 0 {
      Split(n, Pow2(e));
      FullTurns(e, x, n / Pow2(e));
    } else {
      NotFull(e, x, n);
    }
  }

  // ---- Every value is visited --------------------------------------------------------------------

  ghost function Below(m: nat): (s: set<nat>)
    ensures |s| == m && forall i: nat :: i in s <==> i < m
  {
    if m == 0 then {} else Below(m - 1) + {m - 1}
  }

  lemma NoRepetition(e: nat, x: nat, i: nat, j: nat)
    requires x < Pow2(e) && i < j < i + Pow2(e)
    ensures Iter(e, x, i) != Iter(e, x, j)
  {
    IterAdd(e, x, i, j - i);
    DivMod(0, Pow2(e), j - i);
    NotFull(e, Iter(e, x, i), j - i);
  }

  ghost function Visited(e: nat, x: nat, n: nat): set<nat> {
    if n == 0 then {} else Visited(e, x, n - 1) + {Iter(e, x, n - 1)}
  }

  lemma {:induction false} VisitedWhen(e: nat, x: nat, n: nat, y: nat) returns (i: nat)
    requires y in Visited(e, x, n)
    ensures i < n && Iter(e, x, i) == y
    decreases n
  {
    if y == Iter(e, x, n - 1) {
      i := n - 1;
    } else {
      i := VisitedWhen(e, x, n - 1, y);
    }
  }

  lemma {:induction false} VisitedSize(e: nat, x: nat, n: nat)
    requires x < Pow2(e) && n <= Pow2(e)
    ensures |Visited(e, x, n)| == n
    decreases n
  {
    if n > 0 {
      VisitedSize(e, x, n - 1);
      if Iter(e, x, n - 1) in Visited(e, x, n - 1) {
        var i := VisitedWhen(e, x, n - 1, Iter(e, x, n - 1));
        NoRepetition(e, x, i, n - 1);
      }
    }
  }

  lemma VisitedBelow(e: nat, x: nat, n: nat)
    requires x < Pow2(e)
    ensures Visited(e, x, n) <= Below(Pow2(e))
  {
    forall y | y in Visited(e, x, n)
      ensures y in Below(Pow2(e))
    {
      var i := VisitedWhen(e, x, n, y);
    }
  }

  lemma FullSubset(a: set<nat>, b: set<nat>)
    requires a <= b && |a| == |b|
    ensures a == b
  {
    assert |b - a| == |b| - |a|;
  }

  /** Within 2^e steps every value below 2^e comes up. */
  lemma VisitsAll(e: nat, x: nat, y: nat) returns (n: nat)
    requires x < Pow2(e) && y < Pow2(e)
    ensures n < Pow2(e) && Iter(e, x, n) == y
  {
    VisitedSize(e, x, Pow2(e));
    VisitedBelow(e, x, Pow2(e));
    FullSubset(Visited(e, x, Pow2(e)), Below(Pow2(e)));
    n := VisitedWhen(e, x, Pow2(e), y);
  }

  // ---- The generator -----------------------------------------------------------------------------

  lemma Pow48()
    ensures Pow2(48) == 0x1_0000_0000_0000
  {
    assert Pow2(8) == 256;
    PowAdd(8, 8);
    PowAdd(16, 16);
    PowAdd(16, 32);
  }

  /** The overflow of 64 bits does not reach the 48 bits that are kept. */
  lemma WrapIsHarmless(x: nat)
    ensures RandStep(x) == Next(48, x)
  {
    Pow48();
    Cut(x * A);
    assert x * A == A * x;
  }

  lemma Cut(v: nat)
    ensures (v % 0x1_0000_0000_0000_0000 + C) % 0x1_0000_0000_0000_0000 % 0x1_0000_0000_0000 == (v + C) % 0x1_0000_0000_0000
  {}

  lemma {:induction false} RandStepsAre(x: nat, n: nat)
    ensures RandSteps(x, n) == Iter(48, x, n)
  {
    if n > 0 {
      RandStepsAre(x, n - 1);
      WrapIsHarmless(RandSteps(x, n - 1));
    }
  }

  /** Any 64-bit seed: the state returns to it only if it is below 2^48, and then after exactly the
      multiples of 2^48 steps. */
  lemma FullPeriod(seed: nat, n: nat)
    requires seed < 0x1_0000_0000_0000_0000 && n > 0
    ensures RandSteps(seed, n) == seed <==> seed < 0x1_0000_0000_0000 && n % 0x1_0000_0000_0000 == 0
  {
    Pow48();
    RandStepsAre(seed, n);
    if seed < 0x1_0000_0000_0000 {
      Period(48, seed, n);
    }
  }

  /** Every 48-bit value comes up within one period. */
  lemma VisitsEveryValue(seed: nat, y: nat)
    requires seed < 0x1_0000_0000_0000 && y < 0x1_0000_0000_0000
    ensures exists n: nat :: n < 0x1_0000_0000_0000 && RandSteps(seed, n) == y
  {
    Pow48();
    var n := VisitsAll(48, seed, y);
    RandStepsAre(seed, n);
  }
}
