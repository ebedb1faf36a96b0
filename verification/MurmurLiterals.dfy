/** Hashes of three given keys under the default seed, worked out number by number. */
module MurmurLiterals {
  import opened Arith
  import opened Bits
  import opened Murmur
  import opened MurmurInverse
  import opened RawMemory

  // ---- Exclusive or of literals ------------------------------------------------------------------

  function Num(v: bv8): nat {
    v as nat
  }

  predicate Odd(v: bv8) {
    v & 1 == 1
  }

  function Flag(odd: bool): nat {
    if odd then 1 else 0
  }

  lemma ByteHalf(v: bv8)
    ensures Num(v) == Flag(Odd(v)) + 2 * Num(v >> 1)
    ensures Num(v) == 0 <==> v == 0
  {
    assert v as nat == (v & 1) as nat + 2 * ((v >> 1) as nat);
    assert (v & 1) as nat < 2 && ((v & 1) as nat == 1 <==> v & 1 == 1);
  }

  lemma XorHalf(v: bv8, w: bv8)
    ensures Odd(v ^ w) == (Odd(v) != Odd(w)) && (v ^ w) >> 1 == (v >> 1) ^ (w >> 1)
  {}

  lemma XorFromHalves(p: bool, q: bool, a: nat, b: nat)
    ensures NatXor(Flag(p) + 2 * a, Flag(q) + 2 * b) == Flag(p != q) + 2 * NatXor(a, b)
  {
    hide NatXor;
    var x, y := Flag(p) + 2 * a, Flag(q) + 2 * b;
    XorStep(x, y);
    SameHalves(NatXor(x, y), Flag(p != q) + 2 * NatXor(a, b));
  }

  lemma {:induction false} XorOfBytes(v: bv8, w: bv8, k: nat)
    requires Num(v) < Pow2(k) && Num(w) < Pow2(k)
    ensures NatXor(Num(v), Num(w)) == Num(v ^ w)
    decreases k
  {
    hide NatXor, Flag, Num, Odd, Pow2;
    if k == 0 {
      XorOfZeros(v, w);
    } else {
      ByteHalf(v);
      ByteHalf(w);
      BelowHalf(Odd(v), Num(v >> 1), k);
      BelowHalf(Odd(w), Num(w >> 1), k);
      XorOfBytes(v >> 1, w >> 1, k - 1);
      XorOfHalves(v, w);
    }
  }

  lemma XorOfZeros(v: bv8, w: bv8)
    requires Num(v) < Pow2(0) && Num(w) < Pow2(0)
    ensures NatXor(Num(v), Num(w)) == Num(v ^ w)
  {
    hide NatXor, Num;
    XorZero(0);
    ByteHalf(v);
    ByteHalf(w);
    ByteHalf(0);
  }

  lemma XorOfHalves(v: bv8, w: bv8)
    requires NatXor(Num(v >> 1), Num(w >> 1)) == Num((v >> 1) ^ (w >> 1))
    ensures NatXor(Num(v), Num(w)) == Num(v ^ w)
  {
    hide NatXor, Flag, Num, Odd;
    ByteHalf(v);
    ByteHalf(w);
    ByteHalf(v ^ w);
    XorHalf(v, w);
    XorFromHalves(Odd(v), Odd(w), Num(v >> 1), Num(w >> 1));
  }

  lemma BelowHalf(p: bool, x: nat, k: nat)
    requires Flag(p) + 2 * x < Pow2(k) && k > 0
    ensures x < Pow2(k - 1)
  {}

  /** The number of four bytes, highest first, behind `x`. */
  function Behind(x: nat, b3: bv8, b2: bv8, b1: bv8, b0: bv8): nat {
    Num(b0) + 0x100 * (Num(b1) + 0x100 * (Num(b2) + 0x100 * (Num(b3) + 0x100 * x)))
  }

  lemma ByteRange(v: bv8)
    ensures Num(v) < 0x100 == Pow2(8)
  {}

  lemma ByteStep(x: nat, y: nat, a: bv8, b: bv8)
    ensures NatXor(Num(a) + 0x100 * x, Num(b) + 0x100 * y) == Num(a ^ b) + 0x100 * NatXor(x, y)
  {
    hide NatXor, ShiftLeft, Pow2, Num;
    ByteRange(a);
    ByteRange(b);
    XorOfBytes(a, b, 8);
    XorJoin(Num(a), Num(b), x, y, 8);
    ShiftLeftIsProduct(x, 8);
    ShiftLeftIsProduct(y, 8);
    ShiftLeftIsProduct(NatXor(x, y), 8);
  }

  /** Exclusive or of words by their low four bytes and the rest. */
  lemma XorBehind(x: nat, y: nat, a3: bv8, a2: bv8, a1: bv8, a0: bv8, b3: bv8, b2: bv8, b1: bv8, b0: bv8)
    ensures NatXor(Behind(x, a3, a2, a1, a0), Behind(y, b3, b2, b1, b0))
         == Behind(NatXor(x, y), a3 ^ b3, a2 ^ b2, a1 ^ b1, a0 ^ b0)
    ensures NatXor(x, 0) == x
  {
    hide NatXor, Num;
    XorZero(x);
    ByteStep(x, y, a3, b3);
    ByteStep(Num(a3) + 0x100 * x, Num(b3) + 0x100 * y, a2, b2);
    var x2, y2 := Num(a2) + 0x100 * (Num(a3) + 0x100 * x), Num(b2) + 0x100 * (Num(b3) + 0x100 * y);
    ByteStep(x2, y2, a1, b1);
    ByteStep(Num(a1) + 0x100 * x2, Num(b1) + 0x100 * y2, a0, b0);
  }

  lemma TimesLiteral(x: nat, q: nat, r: Word)
    requires x * 0xc6a4_a793_5bd1_e995 == q * 0x1_0000_0000_0000_0000 + r
    ensures Mul(x) == r
  {
    DivMod(q, 0x1_0000_0000_0000_0000, r);
  }

  lemma FoldLiteral(x: Word, q: nat, m: nat)
    requires x == q * 0x8000_0000_0000 + m && m < 0x8000_0000_0000
    ensures XorShift(x) == NatXor(x, q)
  {
    hide NatXor, XorShift;
    FoldIsXorShift(x);
    DivMod(q, 0x8000_0000_0000, m);
  }

  // ---- The empty key -----------------------------------------------------------------------------

  lemma EmptyFinished()
    ensures Finish(0xe_383d) == 0x83f3_2fad_9242_4767
  {
    hide NatXor, Mul, XorShift;
    FoldLiteral(0xe_383d, 0, 0xe_383d);
    XorZero(0xe_383d);
    TimesLiteral(0xe_383d, 0xb_08a4, 0x83f3_2fad_9243_4081);
    FoldLiteral(0x83f3_2fad_9243_4081, 0x1_07e6, 0x2fad_9243_4081);
    XorBehind(0x83f3_2fad, 0, 0x92, 0x43, 0x40, 0x81, 0x00, 0x01, 0x07, 0xe6);
  }

  lemma EmptyKey()
    ensures Hash([], 931901) == 0x83f3_2fad_9242_4767
  {
    hide NatXor, Mul, Finish;
    TimesLiteral(0, 0, 0);
    XorZero(931901);
    assert Rest([]) == [];
    EmptyFinished();
  }

  // ---- A key of one byte -------------------------------------------------------------------------

  lemma OneByteStarted()
    ensures NatXor(Mul(1), 931901) == 0xc6a4_a793_5bdf_d1a8
    ensures Mul(NatXor(0xc6a4_a793_5bdf_d1a8, 0x61)) == 0x4974_ce1a_e74e_0afd
  {
    hide NatXor, Mul, XorShift;
    TimesLiteral(1, 0, 0xc6a4_a793_5bd1_e995);
    XorBehind(0xc6a4_a793, 0, 0x5b, 0xd1, 0xe9, 0x95, 0x00, 0x0e, 0x38, 0x3d);
    XorBehind(0xc6a4_a793, 0, 0x5b, 0xdf, 0xd1, 0xa8, 0x00, 0x00, 0x00, 0x61);
    TimesLiteral(0xc6a4_a793_5bdf_d1c9, 0x9a23_1d1f_1492_bb6e, 0x4974_ce1a_e74e_0afd);
  }

  lemma OneByteFinished()
    ensures Finish(0x4974_ce1a_e74e_0afd) == 0xe0e8_98e4_6d7d_7675
  {
    hide NatXor, Mul, XorShift;
    FoldLiteral(0x4974_ce1a_e74e_0afd, 0x92e9, 0x4e1a_e74e_0afd);
    XorBehind(0x4974_ce1a, 0, 0xe7, 0x4e, 0x0a, 0xfd, 0x00, 0x00, 0x92, 0xe9);
    TimesLiteral(0x4974_ce1a_e74e_9814, 0x38ff_9652_5301_9ef5, 0xe0e8_98e4_6d7c_b7a4);
    FoldLiteral(0xe0e8_98e4_6d7c_b7a4, 0x1_c1d1, 0x18e4_6d7c_b7a4);
    XorBehind(0xe0e8_98e4, 0, 0x6d, 0x7c, 0xb7, 0xa4, 0x00, 0x01, 0xc1, 0xd1);
  }

  lemma OneByteKey()
    ensures Hash([0x61], 931901) == 0xe0e8_98e4_6d7d_7675
  {
    hide NatXor, Mul, Finish;
    OneByteStarted();
    XorCommutes(931901, Mul(1));
    assert Rest([0x61]) == [0x61];
    OneByteFinished();
  }

  // ---- A key of one word -------------------------------------------------------------------------

  lemma OneWordStarted()
    ensures NatXor(Mul(8), 931901) == 0x3525_3c9a_de81_7495
  {
    hide NatXor, Mul, XorShift;
    TimesLiteral(8, 6, 0x3525_3c9a_de8f_4ca8);
    XorBehind(0x3525_3c9a, 0, 0xde, 0x8f, 0x4c, 0xa8, 0x00, 0x0e, 0x38, 0x3d);
  }

  lemma OneWordMixed()
    ensures Mix(0x6867_6665_6463_6261) == 0x5291_c0b7_ed8e_047e
  {
    hide NatXor, Mul, XorShift;
    TimesLiteral(0x6867_6665_6463_6261, 0x5103_1fc7_9137_7b8b, 0xa39_ef30_ae93_8b75);
    FoldLiteral(0xa39_ef30_ae93_8b75, 0x1473, 0x6f30_ae93_8b75);
    XorBehind(0xa39_ef30, 0, 0xae, 0x93, 0x8b, 0x75, 0x00, 0x00, 0x14, 0x73);
    TimesLiteral(0xa39_ef30_ae93_9f06, 0x7ef_62ce_902e_190e, 0x5291_c0b7_ed8e_047e);
  }

  lemma OneWordRound()
    ensures Mul(NatXor(0x3525_3c9a_de81_7495, 0x5291_c0b7_ed8e_047e)) == 0x84fc_3a77_7e9d_9bc7
  {
    hide NatXor, Mul, XorShift;
    XorBehind(0, 0, 0x35, 0x25, 0x3c, 0x9a, 0x52, 0x91, 0xc0, 0xb7);
    XorBehind(0x3525_3c9a, 0x5291_c0b7, 0xde, 0x81, 0x74, 0x95, 0xed, 0x8e, 0x04, 0x7e);
    TimesLiteral(0x67b4_fc2d_330f_70eb, 0x5078_aedf_4513_5083, 0x84fc_3a77_7e9d_9bc7);
  }

  lemma OneWordFinished()
    ensures Finish(0x84fc_3a77_7e9d_9bc7) == 0x6f3f_e2c5_fcab_abd4
  {
    hide NatXor, Mul, XorShift;
    FoldLiteral(0x84fc_3a77_7e9d_9bc7, 0x1_09f8, 0x3a77_7e9d_9bc7);
    XorBehind(0x84fc_3a77, 0, 0x7e, 0x9d, 0x9b, 0xc7, 0x00, 0x01, 0x09, 0xf8);
    TimesLiteral(0x84fc_3a77_7e9c_923f, 0x6730_9dda_f726_6fab, 0x6f3f_e2c5_fcab_75ab);
    FoldLiteral(0x6f3f_e2c5_fcab_75ab, 0xde7f, 0x62c5_fcab_75ab);
    XorBehind(0x6f3f_e2c5, 0, 0xfc, 0xab, 0x75, 0xab, 0x00, 0x00, 0xde, 0x7f);
  }

  const LETTERS: seq<Byte> := [0x61, 0x62, 0x63, 0x64, 0x65, 0x66, 0x67, 0x68]

  lemma OneWordRead()
    ensures WordAt(LETTERS, 0) == 0x6867_6665_6463_6261
  {
    WordFromIs(LETTERS, 0);
  }

  lemma OneWordKey()
    ensures Hash(LETTERS, 931901) == 0x6f3f_e2c5_fcab_abd4
  {
    hide NatXor, Mul, Finish, Mix;
    OneWordRead();
    OneWordStarted();
    OneWordMixed();
    OneWordRound();
    OneWordFinished();
    XorCommutes(931901, Mul(8));
    assert Rest(LETTERS) == [];
    var s := XorWord(931901, Mul(8));
    assert Rounds(LETTERS, s, 1) == Round(Rounds(LETTERS, s, 0), WordAt(LETTERS, 0));
  }
}
