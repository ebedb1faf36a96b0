/** Exclusive or and shifts of natural numbers, bit by bit. */
module Bits {
  import opened Arith

  /** Exclusive or of the last bits. */
  function LastBit(a: nat, b: nat): (r: nat)
    ensures r < 2
  {
    if a % 2 == b % 2 then 0 else 1
  }

  function NatXor(a: nat, b: nat): nat {
    if a == 0 then b else LastBit(a, b) + 2 * NatXor(a / 2, b / 2)
  }

  function ShiftRight(a: nat, k: nat): nat
    decreases k, a
  {
    if k == 0 then a else ShiftRight(a / 2, k - 1)
  }

  function ShiftLeft(a: nat, k: nat): nat
    decreases k, a
  {
    if k == 0 then a else 2 * ShiftLeft(a, k - 1)
  }

  lemma {:induction false} XorZero(a: nat)
    ensures NatXor(a, 0) == a
  {
    if a > 0 {
      XorZero(a / 2);
    }
  }

  lemma XorStep(a: nat, b: nat)
    ensures NatXor(a, b) % 2 == LastBit(a, b) && NatXor(a, b) / 2 == NatXor(a / 2, b / 2)
  {
    if a == 0 {
      assert NatXor(0, b / 2) == b / 2;
    } else {
      BitAndRest(LastBit(a, b), NatXor(a / 2, b / 2));
    }
  }

  lemma BitAndRest(p: nat, t: nat)
    requires p < 2
    ensures (p + 2 * t) % 2 == p && (p + 2 * t) / 2 == t
  {}

  /** A number is its last bit and the rest. */
  lemma SameHalves(a: nat, b: nat)
    requires a % 2 == b % 2 && a / 2 == b / 2
    ensures a == b
  {}

  lemma {:induction false} XorCancels(a: nat, b: nat)
    ensures NatXor(NatXor(a, b), b) == a
    decreases a + b
  {
    if a + b > 0 {
      XorCancels(a / 2, b / 2);
      XorStep(a, b);
      XorStep(NatXor(a, b), b);
      SameHalves(NatXor(NatXor(a, b), b), a);
    } else {
      XorZero(0);
    }
  }

  lemma {:induction false} XorCommutes(a: nat, b: nat)
    ensures NatXor(a, b) == NatXor(b, a)
    decreases a + b
  {
    if a + b > 0 {
      XorCommutes(a / 2, b / 2);
      XorStep(a, b);
      XorStep(b, a);
      SameHalves(NatXor(a, b), NatXor(b, a));
    }
  }

  lemma {:induction false} XorAssociates(a: nat, b: nat, c: nat)
    ensures NatXor(NatXor(a, b), c) == NatXor(a, NatXor(b, c))
    decreases a + b + c
  {
    if a + b + c > 0 {
      XorAssociates(a / 2, b / 2, c / 2);
      XorStep(a, b);
      XorStep(b, c);
      XorStep(NatXor(a, b), c);
      XorStep(a, NatXor(b, c));
      SameHalves(NatXor(NatXor(a, b), c), NatXor(a, NatXor(b, c)));
    }
  }

  lemma {:induction false} XorBound(a: nat, b: nat, k: nat)
    requires a < Pow2(k) && b < Pow2(k)
    ensures NatXor(a, b) < Pow2(k)
    decreases k
  {
    if k > 0 {
      XorBound(a / 2, b / 2, k - 1);
      XorStep(a, b);
    }
  }

  lemma {:induction false} XorShifts(a: nat, b: nat, k: nat)
    ensures ShiftRight(NatXor(a, b), k) == NatXor(ShiftRight(a, k), ShiftRight(b, k))
    decreases k
  {
    if k > 0 {
      XorStep(a, b);
      XorShifts(a / 2, b / 2, k - 1);
    }
  }

  lemma {:induction false} ShiftRightBound(a: nat, k: nat, i: nat)
    requires a < Pow2(i + k)
    ensures ShiftRight(a, k) < Pow2(i)
    decreases k
  {
    if k > 0 {
      ShiftRightBound(a / 2, k - 1, i);
    }
  }

  /** Where the bits do not meet, exclusive or is addition. */
  lemma {:induction false} XorDisjoint(lo: nat, hi: nat, k: nat)
    requires lo < Pow2(k)
    ensures NatXor(lo, ShiftLeft(hi, k)) == lo + ShiftLeft(hi, k)
    decreases k
  {
    if k > 0 {
      XorStep(lo, ShiftLeft(hi, k));
      XorDisjoint(lo / 2, hi, k - 1);
    }
  }

  /** Exclusive or with the number shifted by at least half its width undoes itself. */
  lemma ShiftUndoes(x: nat, r: nat, w: nat)
    requires x < Pow2(w) && r <= w <= 2 * r
    ensures var y := NatXor(x, ShiftRight(x, r)); NatXor(y, ShiftRight(y, r)) == x
  {
    var s := ShiftRight(x, r);
    ShiftRightBound(x, r, w - r);
    PowGrows(w - r, r);
    ShiftRightBound(s, r, 0);
    XorShifts(x, s, r);
    XorZero(s);
    XorCancels(x, s);
  }

  lemma {:induction false} PowGrows(i: nat, j: nat)
    requires i <= j
    ensures Pow2(i) <= Pow2(j)
    decreases j
  {
    if i < j {
      PowGrows(i, j - 1);
    }
  }

  lemma {:induction false} ShiftLeftBound(a: nat, k: nat, w: nat)
    requires a < Pow2(w)
    ensures ShiftLeft(a, k) < Pow2(w + k)
    decreases k, a
  {
    if k > 0 {
      ShiftLeftBound(a, k - 1, w);
    }
  }

  lemma {:induction false} ShiftLeftAdd(a: nat, i: nat, j: nat)
    ensures ShiftLeft(a, i + j) == ShiftLeft(ShiftLeft(a, i), j)
    decreases j, a
  {
    if j > 0 {
      ShiftLeftAdd(a, i, j - 1);
    }
  }

  lemma {:induction false} XorShiftLeft(a: nat, b: nat, k: nat)
    ensures NatXor(ShiftLeft(a, k), ShiftLeft(b, k)) == ShiftLeft(NatXor(a, b), k)
    decreases k, a
  {
    if k > 0 {
      XorShiftLeft(a, b, k - 1);
      XorTwice(ShiftLeft(a, k - 1), ShiftLeft(b, k - 1));
    }
  }

  lemma XorTwice(a: nat, b: nat)
    ensures NatXor(2 * a, 2 * b) == 2 * NatXor(a, b)
  {
    XorStep(2 * a, 2 * b);
  }

  lemma Halves(lo: nat, t: nat)
    ensures (lo + 2 * t) % 2 == lo % 2 && (lo + 2 * t) / 2 == lo / 2 + t
  {}

  /** Exclusive or of the low `k` bits and of the rest. */
  lemma {:induction false} XorJoin(a: nat, b: nat, x: nat, y: nat, k: nat)
    requires a < Pow2(k) && b < Pow2(k)
    ensures NatXor(a + ShiftLeft(x, k), b + ShiftLeft(y, k)) == NatXor(a, b) + ShiftLeft(NatXor(x, y), k)
    decreases k
  {
    if k == 0 {
      assert a == 0 && b == 0;
    } else {
      XorJoin(a / 2, b / 2, x, y, k - 1);
      XorLifts(a, b, ShiftLeft(x, k - 1), ShiftLeft(y, k - 1), ShiftLeft(NatXor(x, y), k - 1));
    }
  }

  lemma {:induction false} ShiftLeftIsProduct(x: nat, k: nat)
    ensures ShiftLeft(x, k) == Pow2(k) * x
    decreases k
  {
    if k > 0 {
      ShiftLeftIsProduct(x, k - 1);
      Twice(Pow2(k - 1), x);
    }
  }

  lemma XorLifts(a: nat, b: nat, x: nat, y: nat, z: nat)
    requires NatXor(a / 2 + x, b / 2 + y) == NatXor(a / 2, b / 2) + z
    ensures NatXor(a + 2 * x, b + 2 * y) == NatXor(a, b) + 2 * z
  {
    Halves(a, x);
    Halves(b, y);
    XorStep(a + 2 * x, b + 2 * y);
    XorStep(a, b);
    Halves(NatXor(a, b), z);
    SameHalves(NatXor(a + 2 * x, b + 2 * y), NatXor(a, b) + 2 * z);
  }

  lemma Twice(p: nat, x: nat)
    ensures 2 * p * x == 2 * (p * x) && p * x >= 0
  {}

  lemma {:induction false} ShiftIsDivision(x: nat, k: nat)
    ensures ShiftRight(x, k) == x / Pow2(k)
    decreases k
  {
    if k > 0 {
      var p := Pow2(k - 1);
      ShiftIsDivision(x / 2, k - 1);
      var q, m := Quotient(x / 2, p);
      assert x == q * (2 * p) + (2 * m + x % 2);
      DivMod(q, 2 * p, 2 * m + x % 2);
    }
  }

  /** The i-th bit. */
  predicate Bit(n: nat, i: nat) {
    n / Pow2(i) % 2 == 1
  }

  /** A bit of the exclusive or tells whether the bits differ. */
  lemma XorBit(a: nat, b: nat, i: nat)
    ensures Bit(NatXor(a, b), i) == (Bit(a, i) != Bit(b, i))
  {
    XorShifts(a, b, i);
    XorStep(ShiftRight(a, i), ShiftRight(b, i));
    ShiftIsDivision(a, i);
    ShiftIsDivision(b, i);
    ShiftIsDivision(NatXor(a, b), i);
  }

  /** Shifting moves the bits down. */
  lemma ShiftedBit(a: nat, k: nat, i: nat)
    ensures Bit(ShiftRight(a, k), i) == Bit(a, i + k)
  {
    ShiftRightAdd(a, k, i);
    ShiftIsDivision(ShiftRight(a, k), i);
    ShiftIsDivision(a, i + k);
  }

  lemma {:induction false} ShiftRightAdd(a: nat, k: nat, i: nat)
    ensures ShiftRight(a, i + k) == ShiftRight(ShiftRight(a, k), i)
    decreases k, a
  {
    if k > 0 {
      ShiftRightAdd(a / 2, k - 1, i);
    }
  }
}
