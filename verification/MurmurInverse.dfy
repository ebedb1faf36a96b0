/** MurmurHash64A read backwards: from the hash and the key to the seed. Everything here is written with
    its own numbers and weights, and by division in place of the shift. */
module MurmurInverse {
  import opened Arith
  import opened Bits
  import opened Murmur
  import opened RawMemory

  /** `x ^ x >> 47` */
  function Fold(x: nat): nat {
    NatXor(x, x / 0x8000_0000_0000)
  }

  function Times(x: nat): nat {
    x * 0xc6a4_a793_5bd1_e995 % 0x1_0000_0000_0000_0000
  }

  function Unmul(x: nat): nat {
    x * 0x5f7a_0ea7_e59b_19bd % 0x1_0000_0000_0000_0000
  }

  function Digit(bytes: seq<Byte>, i: nat): nat {
    if i < |bytes| then bytes[i] else 0
  }

  /** The eight bytes from `i` on as a word, the first one lowest; there are zeros behind the end. */
  function WordFrom(bytes: seq<Byte>, i: nat): nat {
    Digit(bytes, i) + 0x100 * Digit(bytes, i + 1) + 0x1_0000 * Digit(bytes, i + 2) + 0x100_0000 * Digit(bytes, i + 3)
    + 0x1_0000_0000 * Digit(bytes, i + 4) + 0x100_0000_0000 * Digit(bytes, i + 5)
    + 0x1_0000_0000_0000 * Digit(bytes, i + 6) + 0x100_0000_0000_0000 * Digit(bytes, i + 7)
  }

  /** The state before the first `j` words. */
  function UndoRounds(h: nat, key: Key, j: nat): nat
    decreases j
  {
    if j == 0 then h
    else UndoRounds(NatXor(Unmul(h), Times(Fold(Times(WordFrom(key, 8 * (j - 1)))))), key, j - 1)
  }

  function UndoTail(h: nat, key: Key): nat {
    if |key| % 8 == 0 then h else NatXor(Unmul(h), WordFrom(key, |key| / 8 * 8))
  }

  /** The seed under which `key` has the hash `h`. */
  function SeedOf(h: nat, key: Key): nat {
    NatXor(UndoRounds(UndoTail(Fold(Unmul(Fold(h))), key), key, |key| / 8), Times(|key|))
  }

  /** The word of the eight-byte key that has the hash `h` under `seed`. */
  function KeyOf(h: nat, seed: nat): nat {
    Unmul(Fold(Unmul(NatXor(Unmul(Fold(Unmul(Fold(h)))), NatXor(seed, Times(8))))))
  }

  // ---- The parts ---------------------------------------------------------------------------------

  lemma ShiftBy47()
    ensures Pow2(47) == 0x8000_0000_0000
  {
    var w := PowDouble(8, 256);
    w := PowDouble(w, 0x1_0000);
    PowAdd(w, 15);
    assert Pow2(15) == 0x8000;
  }

  lemma FoldIsXorShift(x: Word)
    ensures Fold(x) == XorShift(x)
  {
    ShiftBy47();
    ShiftIsDivision(x, 47);
  }

  lemma FoldUndoes(x: Word)
    ensures Fold(x) < WRAP && Fold(Fold(x)) == x
  {
    FoldIsXorShift(x);
    FoldIsXorShift(XorShift(x));
    XorShiftUndoes(x);
  }

  lemma UnmulUndoes(x: Word)
    ensures Unmul(x) < WRAP && Unmul(Mul(x)) == x && Mul(Unmul(x)) == x
  {
    MulUndoes(x);
    UnmulOnto(x);
  }

  lemma UnmulOnto(x: Word)
    ensures Mul(Unmul(x)) == x
  {
    var q, r := x * INVERSE / WRAP, Unmul(x);
    Split(x * INVERSE, WRAP);
    Split(r * M, WRAP);
    var c := M * INVERSE / WRAP;
    assert INVERSE * M == c * WRAP + 1;
    Cancel(x, INVERSE, M, c, WRAP, q, r);
    SameResidue(x, r * M % WRAP, WRAP, x * c - q * M - r * M / WRAP);
  }

  function Weighted(bytes: seq<Byte>, i: nat, k: nat): nat
    decreases k
  {
    if k == 0 then 0 else Digit(bytes, i) + 0x100 * Weighted(bytes, i + 1, k - 1)
  }

  lemma {:induction false} LittleEndianIsWeighted(bytes: seq<Byte>, i: nat, n: nat, k: nat)
    requires i + n <= |bytes| && n <= k && (n < k ==> i + n == |bytes|)
    ensures LittleEndian(bytes[i..i + n]) == Weighted(bytes, i, k)
    decreases k
  {
    if n > 0 {
      assert bytes[i..i + n][1..] == bytes[i + 1..i + n];
      LittleEndianIsWeighted(bytes, i + 1, n - 1, k - 1);
    } else if k > 0 {
      LittleEndianIsWeighted(bytes, i, 0, k - 1);
      WeightedBehind(bytes, i, k);
    }
  }

  lemma {:induction false} WeightedBehind(bytes: seq<Byte>, i: nat, k: nat)
    requires |bytes| <= i
    ensures Weighted(bytes, i, k) == 0
    decreases k
  {
    if k > 0 {
      WeightedBehind(bytes, i + 1, k - 1);
    }
  }

  lemma EightDigits(bytes: seq<Byte>, i: nat)
    ensures Weighted(bytes, i, 8) == WordFrom(bytes, i)
  {}

  lemma WordFromIs(key: Key, j: nat)
    requires 8 * j <= |key|
    ensures 8 * j + 8 <= |key| ==> WordFrom(key, 8 * j) == WordAt(key, j)
    ensures |key| < 8 * j + 8 ==> WordFrom(key, 8 * j) == LittleEndian(key[8 * j..])
    ensures WordFrom(key, 8 * j) < WRAP
  {
    EightDigits(key, 8 * j);
    if 8 * j + 8 <= |key| {
      LittleEndianIsWeighted(key, 8 * j, 8, 8);
    } else {
      LittleEndianIsWeighted(key, 8 * j, |key| - 8 * j, 8);
      assert key[8 * j..8 * j + (|key| - 8 * j)] == key[8 * j..];
      WordBound(key[8 * j..]);
    }
  }

  lemma MixIs(k: Word)
    ensures Times(Fold(Times(k))) == Mix(k)
  {
    FoldIsXorShift(Times(k));
  }

  // ---- Bits and steps ----------------------------------------------------------------------------

  /** `x ^= x >> 47` bit by bit. */
  lemma XorShiftBits(x: Word, i: nat)
    ensures Bit(XorShift(x), i) == (Bit(x, i) != Bit(x, i + 47))
  {
    XorBit(x, ShiftRight(x, 47), i);
    ShiftedBit(x, 47, i);
  }

  /** The product grows by the multiplier modulo 2^64. */
  lemma MulSteps(x: nat)
    ensures Mul(0) == 0
    ensures Mul(x + 1) == (Mul(x) + 0xc6a4_a793_5bd1_e995) % 0x1_0000_0000_0000_0000
  {
    Split(x * M, WRAP);
    assert (x + 1) * M == x * M / WRAP * WRAP + (Mul(x) + M);
    AddMultiple(Mul(x) + M, x * M / WRAP, WRAP);
  }

  // ---- Both ways ---------------------------------------------------------------------------------

  lemma {:induction false} RoundsUndone(key: Key, h: Word, j: nat)
    requires 8 * j <= |key|
    ensures UndoRounds(Rounds(key, h, j), key, j) == h
    decreases j
  {
    if j > 0 {
      var g, k := Rounds(key, h, j - 1), WordAt(key, j - 1);
      WordFromIs(key, j - 1);
      MixIs(k);
      UnmulUndoes(XorWord(g, Mix(k)));
      XorCancels(g, Mix(k));
      RoundsUndone(key, h, j - 1);
    }
  }

  lemma {:induction false} RoundsRedone(key: Key, h: Word, j: nat)
    requires 8 * j <= |key|
    ensures UndoRounds(h, key, j) < WRAP && Rounds(key, UndoRounds(h, key, j), j) == h
    decreases j
  {
    if j > 0 {
      var k := WordAt(key, j - 1);
      WordFromIs(key, j - 1);
      MixIs(k);
      UnmulUndoes(h);
      XorCancels(Unmul(h), Mix(k));
      RoundsRedone(key, XorWord(Unmul(h), Mix(k)), j - 1);
    }
  }

  lemma TailUndone(key: Key, h: Word)
    ensures UndoTail(Tail(h, Rest(key)), key) == h
    ensures UndoTail(h, key) < WRAP && Tail(UndoTail(h, key), Rest(key)) == h
  {
    if |key| % 8 != 0 {
      var x := LittleEndian(Rest(key));
      WordFromIs(key, |key| / 8);
      UnmulUndoes(h);
      UnmulUndoes(XorWord(h, x));
      XorCancels(h, x);
      XorCancels(Unmul(h), x);
      XorWordBound(Unmul(h), x);
    }
  }

  lemma FinishUndone(h: Word)
    ensures Fold(Unmul(Fold(Finish(h)))) == h
    ensures Fold(Unmul(Fold(h))) < WRAP && Finish(Fold(Unmul(Fold(h)))) == h
  {
    FoldUndoes(h);
    FoldUndoes(Unmul(Fold(h)));
    FoldIsXorShift(h);
    UnmulUndoes(Fold(h));
    FoldIsXorShift(Unmul(Fold(h)));
    FoldIsXorShift(h);
    FoldIsXorShift(Fold(Unmul(Fold(h))));
    FoldIsXorShift(Mul(XorShift(h)));
    FoldUndoes(Mul(XorShift(h)));
    UnmulUndoes(XorShift(h));
    FoldIsXorShift(XorShift(h));
  }

  /** For every key the hash is a permutation of the seeds, and reading it backwards is its inverse. */
  lemma SeedsPermuted(key: Key, seed: Word, h: Word)
    ensures SeedOf(Hash(key, seed), key) == seed
    ensures SeedOf(h, key) < WRAP && Hash(key, SeedOf(h, key)) == h
  {
    var n := |key| / 8;
    var s := XorWord(seed, Mul(|key|));
    var t := Rounds(key, s, n);
    FinishUndone(Tail(t, Rest(key)));
    TailUndone(key, t);
    RoundsUndone(key, s, n);
    XorCancels(seed, Mul(|key|));
    var f := Fold(Unmul(Fold(h)));
    FinishUndone(h);
    TailUndone(key, f);
    RoundsRedone(key, UndoTail(f, key), n);
    var r := UndoRounds(UndoTail(f, key), key, n);
    XorCancels(r, Mul(|key|));
    XorWordBound(r, Mul(|key|));
  }

  /** A key of one word is got back from its hash and the seed. */
  lemma KeyRecovered(key: Key, seed: Word)
    requires |key| == 8
    ensures KeyOf(Hash(key, seed), seed) == WordFrom(key, 0)
  {
    var s, k := XorWord(seed, Mul(8)), WordAt(key, 0);
    WordFromIs(key, 0);
    assert Rounds(key, s, 1) == Round(Rounds(key, s, 0), k);
    assert Rest(key) == [];
    var x := XorWord(s, Mix(k));
    FinishUndone(Mul(x));
    UnmulUndoes(x);
    XorCommutes(s, Mix(k));
    XorCancels(Mix(k), s);
    UnmulUndoes(XorShift(Mul(k)));
    FoldIsXorShift(Mul(k));
    FoldUndoes(Mul(k));
    UnmulUndoes(k);
  }
}
