/** MurmurHash64A: no collisions between keys of one length that differ in a single 8-byte word
    or only behind the last whole word. */
module Murmur {
  import opened Arith
  import opened Bits
  import opened RawMemory

  const WRAP := 0x1_0000_0000_0000_0000
  const M := 0xc6a4_a793_5bd1_e995
  const INVERSE := 0x5f7a_0ea7_e59b_19bd  // of M modulo 2^64
  const R := 47

  type Word = w: nat | w < 0x1_0000_0000_0000_0000
  type Key = seq<Byte>

  // ---- Words -------------------------------------------------------------------------------------

  /** The width of a word: enough for 47 bits, and less than twice as much. */
  lemma WordWidth() returns (w: nat)
    ensures Pow2(w) == WRAP && R <= w <= 2 * R && w == 8 * 8
  {
    w := PowDouble(8, 256);
    w := PowDouble(w, 0x1_0000);
    w := PowDouble(w, 0x1_0000_0000);
  }

  lemma XorWordBound(a: Word, b: Word)
    ensures NatXor(a, b) < WRAP
  {
    var w := WordWidth();
    XorBound(a, b, w);
  }

  function XorWord(a: Word, b: Word): (r: Word)
    ensures r == NatXor(a, b)
  {
    XorWordBound(a, b);
    NatXor(a, b)
  }

  /** `x ^= x >> 47` */
  function XorShift(x: Word): (r: Word)
    ensures r == NatXor(x, ShiftRight(x, R))
  {
    ShiftRightLess(x, R);
    XorWord(x, ShiftRight(x, R))
  }

  lemma {:induction false} ShiftRightLess(x: nat, k: nat)
    ensures ShiftRight(x, k) <= x
    decreases k, x
  {
    if k > 0 {
      ShiftRightLess(x / 2, k - 1);
    }
  }

  lemma XorShiftUndoes(x: Word)
    ensures XorShift(XorShift(x)) == x
  {
    var w := WordWidth();
    ShiftUndoes(x, R, w);
  }

  function Mul(x: nat): Word {
    x * M % WRAP
  }

  /** The multiplier is odd, so its multiples modulo 2^64 determine the factor. */
  lemma MulUndoes(x: Word)
    ensures Mul(x) * INVERSE % WRAP == x
  {
    var q, r := x * M / WRAP, Mul(x);
    Split(x * M, WRAP);
    Split(r * INVERSE, WRAP);
    var c := M * INVERSE / WRAP;
    assert M * INVERSE == c * WRAP + 1;
    Cancel(x, M, INVERSE, c, WRAP, q, r);
    SameResidue(x, r * INVERSE % WRAP, WRAP, x * c - q * INVERSE - r * INVERSE / WRAP);
  }

  lemma Cancel(x: int, m: int, v: int, c: int, w: int, q: int, r: int)
    requires m * v == c * w + 1 && x * m == q * w + r
    ensures r * v == x + w * (x * c - q * v)
  {
    assert r * v == (x * m - q * w) * v == x * (m * v) - w * (q * v);
  }

  lemma MulInjective(x: Word, y: Word)
    requires Mul(x) == Mul(y)
    ensures x == y
  {
    MulUndoes(x);
    MulUndoes(y);
  }

  lemma XorInjective(a: nat, b: nat, c: nat)
    requires NatXor(a, c) == NatXor(b, c)
    ensures a == b
  {
    XorCancels(a, c);
    XorCancels(b, c);
  }

  // ---- The hash ----------------------------------------------------------------------------------

  function Mix(k: Word): Word {
    Mul(XorShift(Mul(k)))
  }

  /** One round of the loop. */
  function Round(h: Word, k: Word): Word {
    Mul(XorWord(h, Mix(k)))
  }

  function LittleEndian(bytes: seq<Byte>): nat {
    if bytes == [] then 0 else bytes[0] + 256 * LittleEndian(bytes[1..])
  }

  lemma {:induction false} LittleEndianBound(bytes: seq<Byte>, k: nat)
    requires |bytes| <= k
    ensures LittleEndian(bytes) < Pow2(8 * k)
    decreases k
  {
    if bytes == [] {
    } else {
      LittleEndianBound(bytes[1..], k - 1);
      PowAdd(8, 8 * (k - 1));
      assert Pow2(8) == 256;
    }
  }

  lemma WordBound(bytes: seq<Byte>)
    requires |bytes| <= 8
    ensures LittleEndian(bytes) < WRAP
  {
    var w := WordWidth();
    LittleEndianBound(bytes, 8);
  }

  /** The `j`-th whole word of the key. */
  function WordAt(key: Key, j: nat): Word
    requires 8 * j + 8 <= |key|
  {
    WordBound(key[8 * j..8 * j + 8]);
    LittleEndian(key[8 * j..8 * j + 8])
  }

  /** The state after `j` words. */
  function Rounds(key: Key, h: Word, j: nat): Word
    requires 8 * j <= |key|
  {
    if j == 0 then h else Round(Rounds(key, h, j - 1), WordAt(key, j - 1))
  }

  /** The bytes behind the last whole word. */
  function Rest(key: Key): (bytes: seq<Byte>)
    ensures |bytes| == |key| % 8
  {
    key[|key| / 8 * 8..]
  }

  function Tail(h: Word, bytes: seq<Byte>): Word
    requires |bytes| <= 8
  {
    if bytes == [] then h
    else
      WordBound(bytes);
      Mul(XorWord(h, LittleEndian(bytes)))
  }

  function Finish(h: Word): Word {
    XorShift(Mul(XorShift(h)))
  }

  function Hash(key: Key, seed: Word): Word {
    Finish(Tail(Rounds(key, XorWord(seed, Mul(|key|)), |key| / 8), Rest(key)))
  }

  // ---- Every part is injective -------------------------------------------------------------------

  lemma FinishInjective(g: Word, h: Word)
    requires Finish(g) == Finish(h)
    ensures g == h
  {
    XorShiftUndoes(Mul(XorShift(g)));
    XorShiftUndoes(Mul(XorShift(h)));
    MulInjective(XorShift(g), XorShift(h));
    XorShiftUndoes(g);
    XorShiftUndoes(h);
  }

  lemma MixInjective(k: Word, l: Word)
    requires Mix(k) == Mix(l)
    ensures k == l
  {
    MulInjective(XorShift(Mul(k)), XorShift(Mul(l)));
    XorShiftUndoes(Mul(k));
    XorShiftUndoes(Mul(l));
    MulInjective(k, l);
  }

  /** A round keeps apart different states, and different words. */
  lemma RoundInjective(g: Word, h: Word, k: Word, l: Word)
    requires Round(g, k) == Round(h, l) && (g == h || k == l)
    ensures g == h && k == l
  {
    MulInjective(XorWord(g, Mix(k)), XorWord(h, Mix(l)));
    if g == h {
      XorCommutes(g, Mix(k));
      XorCommutes(g, Mix(l));
      XorInjective(Mix(k), Mix(l), g);
      MixInjective(k, l);
    } else {
      XorInjective(g, h, Mix(k));
    }
  }

  lemma {:induction false} LittleEndianInjective(a: seq<Byte>, b: seq<Byte>)
    requires |a| == |b| && LittleEndian(a) == LittleEndian(b)
    ensures a == b
  {
    if a == [] {
    } else {
      LittleEndianInjective(a[1..], b[1..]);
      assert a == [a[0]] + a[1..] && b == [b[0]] + b[1..];
    }
  }

  lemma TailInjective(g: Word, h: Word, a: seq<Byte>, b: seq<Byte>)
    requires |a| == |b| <= 8 && Tail(g, a) == Tail(h, b) && (g == h || a == b)
    ensures g == h && a == b
  {
    if a != [] {
      var x, y := LittleEndian(a), LittleEndian(b);
      WordBound(a);
      WordBound(b);
      MulInjective(XorWord(g, x), XorWord(h, y));
      if g == h {
        XorCommutes(g, x);
        XorCommutes(g, y);
        XorInjective(x, y, g);
        LittleEndianInjective(a, b);
      } else {
        XorInjective(g, h, x);
      }
    }
  }

  // ---- Keys that differ in one unit --------------------------------------------------------------

  /** The keys agree outside unit `u`: a whole word, or the rest behind the last one. */
  predicate AgreeOutside(a: Key, b: Key, u: nat) {
    |a| == |b| && forall i :: 0 <= i < |a| && i / 8 != u ==> a[i] == b[i]
  }

  lemma SameWord(a: Key, b: Key, u: nat, j: nat)
    requires AgreeOutside(a, b, u) && j != u && 8 * j + 8 <= |a|
    ensures a[8 * j..8 * j + 8] == b[8 * j..8 * j + 8]
  {
    forall i | 8 * j <= i < 8 * j + 8
      ensures a[i] == b[i]
    {
      assert i / 8 == j;
    }
  }

  lemma SameRest(a: Key, b: Key, u: nat)
    requires AgreeOutside(a, b, u) && u != |a| / 8
    ensures Rest(a) == Rest(b)
  {
    forall i | |a| / 8 * 8 <= i < |a|
      ensures a[i] == b[i]
    {
      assert i / 8 == |a| / 8;
    }
  }

  lemma {:induction false} RoundsApart(a: Key, b: Key, u: nat, h: Word, j: nat)
    requires AgreeOutside(a, b, u) && 8 * j <= |a|
    ensures j <= u ==> Rounds(a, h, j) == Rounds(b, h, j)
    ensures j > u && WordAt(a, u) != WordAt(b, u) ==> Rounds(a, h, j) != Rounds(b, h, j)
    decreases j
  {
    if j > 0 {
      RoundsApart(a, b, u, h, j - 1);
      if j - 1 != u {
        SameWord(a, b, u, j - 1);
      }
      var g, g' := Rounds(a, h, j - 1), Rounds(b, h, j - 1);
      if Round(g, WordAt(a, j - 1)) == Round(g', WordAt(b, j - 1)) && (g == g' || j - 1 != u) {
        RoundInjective(g, g', WordAt(a, j - 1), WordAt(b, j - 1));
      }
    }
  }

  /** Different keys that agree outside one unit differ in that unit. */
  lemma UnitDiffers(a: Key, b: Key, u: nat)
    requires AgreeOutside(a, b, u) && a != b
    ensures u <= |a| / 8
    ensures u < |a| / 8 ==> WordAt(a, u) != WordAt(b, u)
    ensures u == |a| / 8 ==> Rest(a) != Rest(b)
  {
    var i :| 0 <= i < |a| && a[i] != b[i];
    assert i / 8 == u;
    if u < |a| / 8 {
      var x, y := a[8 * u..8 * u + 8], b[8 * u..8 * u + 8];
      assert x[i - 8 * u] != y[i - 8 * u];
      if LittleEndian(x) == LittleEndian(y) {
        LittleEndianInjective(x, y);
      }
    } else {
      assert Rest(a)[i - 8 * u] != Rest(b)[i - 8 * u];
    }
  }

  /** For one seed, different keys of one length that differ in a single whole word, or only behind
      the last one, never collide. */
  lemma NoCollision(a: Key, b: Key, u: nat, seed: Word)
    requires AgreeOutside(a, b, u) && a != b
    ensures Hash(a, seed) != Hash(b, seed)
  {
    var h, n := XorWord(seed, Mul(|a|)), |a| / 8;
    UnitDiffers(a, b, u);
    RoundsApart(a, b, u, h, n);
    var g, g' := Rounds(a, h, n), Rounds(b, h, n);
    if u < n {
      SameRest(a, b, u);
    }
    if Tail(g, Rest(a)) == Tail(g', Rest(b)) {
      TailInjective(g, g', Rest(a), Rest(b));
    }
    if Finish(Tail(g, Rest(a))) == Finish(Tail(g', Rest(b))) {
      FinishInjective(Tail(g, Rest(a)), Tail(g', Rest(b)));
    }
  }

  /** So the hash is injective on the keys of any length up to 8. */
  lemma ShortKeys(a: Key, b: Key, seed: Word)
    requires |a| == |b| <= 8
    ensures Hash(a, seed) == Hash(b, seed) <==> a == b
  {
    if a != b {
      assert forall i :: 0 <= i < |a| ==> i / 8 == 0;
      NoCollision(a, b, 0, seed);
    }
  }
}
