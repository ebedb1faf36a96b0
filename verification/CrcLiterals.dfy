/** Words written as machine literals: the polynomial, the table entry that shows it, and the check
    value of CRC-32C. */
module CrcLiterals {
  import opened Words
  import opened CrcSpec
  import opened CrcTables

  function Half(v: bv32): bv32 {
    v >> 1
  }

  predicate Odd(v: bv32) {
    v & 1 == 1
  }

  /** The low `width` bits of `v`. */
  function Literal(v: bv32, width: nat): (w: Bits)
    ensures |w| == width
    decreases width, v
  {
    if width == 0 then [] else [Odd(v)] + Literal(Half(v), width - 1)
  }

  function Word(v: bv32): Word32 {
    Literal(v, 32)
  }

  function Octet(v: bv32): ByteBits {
    Literal(v, 8)
  }

  // ---- Spelling ----------------------------------------------------------------------------------

  /** The low `n` bits of `v` are those of `w` from `i` on. */
  predicate Spells(v: bv32, w: Bits, i: nat, n: nat)
    requires i + n <= |w|
    decreases n, i, v
  {
    n == 0 || (w[i] == Odd(v) && Spells(Half(v), w, i + 1, n - 1))
  }

  lemma {:induction false} Spelled(v: bv32, w: Bits, i: nat, n: nat)
    requires i + n <= |w| && Spells(v, w, i, n)
    ensures Literal(v, n) == w[i..i + n]
    decreases n
  {
    if n > 0 {
      Spelled(Half(v), w, i + 1, n - 1);
      assert w[i..i + n] == [w[i]] + w[i + 1..i + n];
    }
  }

  /** `v >> k` */
  function Down(v: bv32, k: nat): bv32
    decreases k, v
  {
    if k == 0 then v else Down(Half(v), k - 1)
  }

  lemma {:induction false} SpellsMore(v: bv32, w: Bits, i: nat, k: nat, n: nat)
    requires i + k + n <= |w| && Spells(v, w, i, k) && Spells(Down(v, k), w, i + k, n)
    ensures Spells(v, w, i, k + n)
    decreases k
  {
    if k > 0 {
      SpellsMore(Half(v), w, i + 1, k - 1, n);
    }
  }

  lemma SpelledWord(v: bv32, v1: bv32, v2: bv32, v3: bv32, w: Word32)
    requires Down(v, 8) == v1 && Down(v1, 8) == v2 && Down(v2, 8) == v3
    requires Spells(v, w, 0, 8) && Spells(v1, w, 8, 8) && Spells(v2, w, 16, 8) && Spells(v3, w, 24, 8)
    ensures Word(v) == w
  {
    SpellsMore(v2, w, 16, 8, 8);
    SpellsMore(v1, w, 8, 8, 16);
    SpellsMore(v, w, 0, 8, 24);
    Spelled(v, w, 0, 32);
  }

  lemma OnesIsLiteral()
    ensures Ones(32) == Word(0xffff_ffff)
  {
    SpelledWord(0xffff_ffff, 0xff_ffff, 0xffff, 0xff, Ones(32));
  }

  lemma {:induction false} LiteralXor(a: bv32, b: bv32, width: nat)
    ensures Literal(a ^ b, width) == Xor(Literal(a, width), Literal(b, width))
    decreases width
  {
    if width > 0 {
      XorParts(a, b);
      LiteralXor(Half(a), Half(b), width - 1);
      XorCons(Odd(a), Odd(b), Literal(Half(a), width - 1), Literal(Half(b), width - 1));
    }
  }

  lemma XorParts(a: bv32, b: bv32)
    ensures Odd(a ^ b) == (Odd(a) != Odd(b)) && Half(a ^ b) == Half(a) ^ Half(b)
  {}

  lemma XorCons(p: bool, q: bool, x: Bits, y: Bits)
    ensures Xor([p] + x, [q] + y) == [p != q] + Xor(x, y)
  {}

  /** Every bit of `v` from `width` on is zero. */
  predicate Fits(v: bv32, width: nat)
    decreases width, v
  {
    if width == 0 then v == 0 else Fits(Half(v), width - 1)
  }

  lemma {:induction false} FitsBelow(v: bv32, m: bv32, width: nat)
    requires v <= m && Fits(m, width)
    ensures Fits(v, width)
    decreases width
  {
    hide Half;
    if width > 0 {
      HalfMonotone(v, m);
      FitsBelow(Half(v), Half(m), width - 1);
    }
  }

  lemma HalfMonotone(v: bv32, m: bv32)
    requires v <= m
    ensures Half(v) <= Half(m)
  {}

  lemma {:induction false} FitsMore(m: bv32, k: nat, width: nat)
    requires Fits(Down(m, k), width)
    ensures Fits(m, k + width)
    decreases k
  {
    if k > 0 {
      FitsMore(Half(m), k - 1, width);
    }
  }

  lemma {:induction false} LiteralExtends(v: bv32, width: nat, more: nat)
    requires Fits(v, width)
    ensures Literal(v, width + more) == Literal(v, width) + Zero(more)
    decreases width + more
  {
    if width > 0 {
      LiteralExtends(Half(v), width - 1, more);
    } else if more > 0 {
      LiteralExtends(Half(v), 0, more - 1);
      assert [false] + Zero(more - 1) == Zero(more);
    }
  }

  // ---- The polynomial ----------------------------------------------------------------------------

  lemma PolyDown()
    ensures Down(0x82f63b78, 8) == 0x82f63b && Down(0x82f63b, 8) == 0x82f6 && Down(0x82f6, 8) == 0x82
  {}

  lemma PolyFirst()
    ensures Spells(0x82f63b78, Poly(), 0, 8)
  {}

  lemma PolySecond()
    ensures Spells(0x82f63b, Poly(), 8, 8)
  {}

  lemma PolyThird()
    ensures Spells(0x82f6, Poly(), 16, 8)
  {}

  lemma PolyFourth()
    ensures Spells(0x82, Poly(), 24, 8)
  {}

  /** The generator of section 12.1 of RFC 3720, 0x11edc6f41, in reflected order. */
  lemma PolyIsLiteral()
    ensures Poly() == Word(0x82f63b78)
  {
    PolyDown();
    PolyFirst();
    PolySecond();
    PolyThird();
    PolyFourth();
    SpelledWord(0x82f63b78, 0x82f63b, 0x82f6, 0x82, Poly());
  }

  function ShiftOf(v: bv32): bv32 {
    if Odd(v) then Half(v) ^ 0x82f63b78 else Half(v)
  }

  function ZerosOf(v: bv32, n: nat): bv32
    decreases n, v
  {
    if n == 0 then v else ZerosOf(ShiftOf(v), n - 1)
  }

  lemma LargestDown()
    ensures Down(0x7fff_ffff, 8) == 0x7f_ffff && Down(0x7f_ffff, 8) == 0x7fff && Down(0x7fff, 8) == 0x7f && Fits(0x7f, 7)
  {}

  lemma LargestFits()
    ensures Fits(0x7fff_ffff, 31)
  {
    LargestDown();
    hide Fits, Down;
    FitsMore(0x7fff, 8, 7);
    FitsMore(0x7f_ffff, 8, 15);
    FitsMore(0x7fff_ffff, 8, 23);
  }

  lemma TopIsFree(v: bv32)
    ensures Fits(Half(v), 31)
  {
    hide Fits;
    LargestFits();
    assert Half(v) <= 0x7fff_ffff;
    FitsBelow(Half(v), 0x7fff_ffff, 31);
  }

  lemma ShiftLiteral(v: bv32)
    ensures Shift(Word(v)) == Word(ShiftOf(v))
  {
    PolyIsLiteral();
    TopIsFree(v);
    LiteralExtends(Half(v), 31, 1);
    assert Word(v)[1..] + [false] == Word(Half(v));
    LiteralXor(Half(v), 0x82f63b78, 32);
  }

  lemma {:induction false} ZerosLiteral(v: bv32, n: nat)
    ensures Zeros(Word(v), n) == Word(ZerosOf(v, n))
    decreases n
  {
    if n > 0 {
      ShiftLiteral(v);
      ZerosLiteral(ShiftOf(v), n - 1);
    }
  }

  lemma OctetExtends(b: bv32)
    requires b <= 0xff
    ensures Extend(Octet(b), 32) == Word(b)
  {
    FitsBelow(b, 0xff, 8);
    LiteralExtends(b, 8, 24);
  }

  // ---- A table entry -----------------------------------------------------------------------------

  lemma OnesSpelled()
    ensures Ones(8) == Octet(0xff) && Place(Ones(8), 3) == Word(0xff00_0000)
  {
    Spelled(0xff, Ones(8), 0, 8);
    SpelledWord(0xff00_0000, 0xff_0000, 0xff00, 0xff, Place(Ones(8), 3));
  }

  /** The entry at 0x7f is the polynomial with the complement behind it, as the table has it. */
  lemma TableEntry()
    ensures SwTable(0, Octet(0x7f)) == Word(0x7df63b78)
  {
    OnesSpelled();
    LiteralXor(0x7f, 0xff, 8);
    OctetExtends(0x80);
    ZerosLiteral(0x80, 8);
    assert ZerosOf(0x80, 8) == 0x82f63b78;
    LiteralXor(0x82f63b78, 0xff00_0000, 32);
  }

  // ---- The check value ---------------------------------------------------------------------------

  function ByteOf(r: bv32, b: bv32): bv32 {
    ZerosOf(r ^ b, 8)
  }

  /** The bytes of a text. */
  function Octets(text: seq<bv32>): (d: seq<ByteBits>)
    ensures |d| == |text|
  {
    seq(|text|, i requires 0 <= i < |text| => Octet(text[i]))
  }

  lemma NextRegister(r: Word32, d: seq<ByteBits>, i: nat, v: bv32, b: bv32)
    requires i < |d| && d[i] == Octet(b) && b <= 0xff
    requires Register(r, d[..i]) == Word(v)
    ensures Register(r, d[..i + 1]) == Word(ByteOf(v, b))
  {
    assert d[..i + 1] == d[..i] + [d[i]];
    assert MessageBits([d[i]]) == d[i];
    RegisterConcat(r, d[..i], [d[i]]);
    Crc32bIsSerial(Word(v), d[i]);
    OctetExtends(b);
    assert Xor(Word(v), Octet(b)) == Xor(Word(v), Word(b));
    LiteralXor(v, b, 32);
    ZerosLiteral(v ^ b, 8);
  }

  /** `regs` are the registers over `text`, one after each byte. */
  ghost predicate Registers(regs: seq<bv32>, text: seq<bv32>) {
    && |regs| == |text| + 1
    && forall i :: 0 <= i < |text| ==> text[i] <= 0xff && regs[i + 1] == ByteOf(regs[i], text[i])
  }

  lemma {:induction false} RegisterOfText(regs: seq<bv32>, text: seq<bv32>, n: nat)
    requires Registers(regs, text) && n <= |text|
    ensures Register(Word(regs[0]), Octets(text)[..n]) == Word(regs[n])
    decreases n
  {
    if n == 0 {
      assert Octets(text)[..0] == [];
    } else {
      RegisterOfText(regs, text, n - 1);
      NextRegister(Word(regs[0]), Octets(text), n - 1, regs[n - 1], text[n - 1]);
    }
  }

  /** The text "123456789". */
  const DIGITS: seq<bv32> := [0x31, 0x32, 0x33, 0x34, 0x35, 0x36, 0x37, 0x38, 0x39]

  lemma FirstRegisters()
    ensures ByteOf(0xffff_ffff, 0x31) == 0x6f0a_661c && ByteOf(0x6f0a_661c, 0x32) == 0x8caa_3b9f
    ensures ByteOf(0x8caa_3b9f, 0x33) == 0xef84_d04d && ByteOf(0xef84_d04d, 0x34) == 0x09c5_0b11
  {}

  lemma LastRegisters()
    ensures ByteOf(0x09c5_0b11, 0x35) == 0xe72e_dcca && ByteOf(0xe72e_dcca, 0x36) == 0xbeca_8e79
    ensures ByteOf(0xbeca_8e79, 0x37) == 0xedbd_6815 && ByteOf(0xedbd_6815, 0x38) == 0x9f78_7f65
    ensures ByteOf(0x9f78_7f65, 0x39) == 0x1cf9_6d7c
  {}

  lemma DigitRegisters() returns (regs: seq<bv32>)
    ensures Registers(regs, DIGITS) && regs[0] == 0xffff_ffff && regs[9] == 0x1cf9_6d7c
  {
    regs := [0xffff_ffff, 0x6f0a_661c, 0x8caa_3b9f, 0xef84_d04d, 0x09c5_0b11, 0xe72e_dcca, 0xbeca_8e79,
      0xedbd_6815, 0x9f78_7f65, 0x1cf9_6d7c];
    FirstRegisters();
    LastRegisters();
  }

  /** The check value of CRC-32C. */
  lemma CheckValue()
    ensures Crc32c(Word(0), Octets(DIGITS)) == Word(0xe306_9283)
  {
    OnesIsLiteral();
    LiteralXor(0, 0xffff_ffff, 32);
    var regs := DigitRegisters();
    RegisterOfText(regs, DIGITS, 9);
    assert Octets(DIGITS)[..9] == Octets(DIGITS);
    LiteralXor(0x1cf9_6d7c, 0xffff_ffff, 32);
  }
}
