/** The constant tables of the CRC-32C engines and the machine instructions they use, each
    by the function its entries tabulate, and what a table lookup computes on the register. */
module CrcTables {
  import opened Words
  import opened CrcSpec

  /** Block sizes of the three-way parallel computation, in bytes. */
  const LONG := 8192
  const SHORT := 256

  function Xor4(a: Word32, b: Word32, c: Word32, d: Word32): Word32 {
    Xor(Xor(Xor(a, b), c), d)
  }

  // ---- Tables -----------------------------------------------------------------------------

  /** Byte `b` of a 32-bit word at byte position `j`: `b << 8 * j`. */
  function Place(b: ByteBits, j: nat): Word32
    requires j < 4
  {
    seq(32, i requires 0 <= i < 32 => 8 * j <= i < 8 * j + 8 && b[i - 8 * j])
  }

  /** The plain slicing table: byte `i` followed by `k` zero bytes. */
  function Slice(k: nat, i: ByteBits): Word32 {
    Zeros(Extend(i, 32), 8 * (k + 1))
  }

  /** `crc32c_table`: the slicing table with the complement before and after built in. */
  function SwTable(k: nat, i: ByteBits): Word32
    requires k < 8
  {
    Xor(Slice(k, Not(i)), if k < 4 then Place(Ones(8), 3 - k) else Slice(k - 4, Ones(8)))
  }

  /** `crc32c_long` and `crc32c_short`: byte `i` at position `n` moved over `len` zero bytes. */
  function ZerosTable(len: nat, n: nat, i: ByteBits): Word32
    requires n < 4
  {
    Zeros(Place(i, n), 8 * len)
  }

  /** `crc32c_shift`: apply the zeros operator table for `len` bytes. */
  function ShiftByTable(len: nat, crc: Word32): Word32 {
    Xor4(ZerosTable(len, 0, crc[..8]), ZerosTable(len, 1, crc[8..16]),
         ZerosTable(len, 2, crc[16..24]), ZerosTable(len, 3, crc[24..]))
  }

  lemma {:induction false} ZerosOfZero(n: nat)
    ensures Zeros(Zero(32), n) == Zero(32)
    decreases n
  {
    if n > 0 {
      assert Shift(Zero(32)) == Zero(32);
      ZerosOfZero(n - 1);
    }
  }

  /** The last entries: 0xff000000, 0x00ff0000, 0x0000ff00 and 0x000000ff end the first four tables,
      and what a byte 0xff leaves behind k - 4 zero bytes ends the others. */
  lemma TableEnds(k: nat)
    requires k < 8
    ensures SwTable(k, Ones(8)) == if k < 4 then Place(Ones(8), 3 - k) else Slice(k - 4, Ones(8))
  {
    assert Extend(Not(Ones(8)), 32) == Zero(32);
    ZerosOfZero(8 * (k + 1));
    assert Slice(k, Not(Ones(8))) == Zero(32);
    var e := if k < 4 then Place(Ones(8), 3 - k) else Slice(k - 4, Ones(8));
    assert Xor(Zero(32), e) == e;
  }

  // ---- Instructions -----------------------------------------------------------------------

  /** `crc32b`: the register after one byte. */
  function Crc32b(r: Word32, b: ByteBits): Word32 {
    Zeros(Xor(r, b), 8)
  }

  /** `crc32q`: a 64-bit shift register takes the quadword at once and runs 64 steps. */
  function Crc32q(r: Word32, w: Bits): Word32
    requires |w| == 64
  {
    Zeros(Xor(Extend(r, 64), w), 64)[..32]
  }

  lemma Crc32bIsSerial(r: Word32, b: ByteBits)
    ensures Crc32b(r, b) == Serial(r, b)
  {
    Absorb(r, b);
  }

  lemma Crc32qIsSerial(r: Word32, w: Bits)
    requires |w| == 64
    ensures Crc32q(r, w) == Serial(r, w)
  {
    Absorb(Extend(r, 64), w);
    SerialExtend(r, 64, w);
  }

  // ---- Byte decomposition of the zeros operator --------------------------------------------------

  function Join(b0: ByteBits, b1: ByteBits, b2: ByteBits, b3: ByteBits): Word32 {
    b0 + b1 + b2 + b3
  }

  lemma JoinIsSum(b0: ByteBits, b1: ByteBits, b2: ByteBits, b3: ByteBits)
    ensures Join(b0, b1, b2, b3) == Xor4(Place(b0, 0), Place(b1, 1), Place(b2, 2), Place(b3, 3))
  {}

  /** Running over zeros is the exclusive or of what it does to the four bytes. */
  lemma ZerosByBytes(b0: ByteBits, b1: ByteBits, b2: ByteBits, b3: ByteBits, n: nat)
    ensures Zeros(Join(b0, b1, b2, b3), n)
         == Xor4(Zeros(Place(b0, 0), n), Zeros(Place(b1, 1), n), Zeros(Place(b2, 2), n), Zeros(Place(b3, 3), n))
  {
    var a, b, c, d := Place(b0, 0), Place(b1, 1), Place(b2, 2), Place(b3, 3);
    JoinIsSum(b0, b1, b2, b3);
    ZerosXor(Xor(Xor(a, b), c), d, n);
    ZerosXor(Xor(a, b), c, n);
    ZerosXor(a, b, n);
  }

  /** The table-driven shift moves a register over `len` zero bytes. */
  lemma ShiftByTableIsZeros(len: nat, crc: Word32)
    ensures ShiftByTable(len, crc) == Zeros(crc, 8 * len)
  {
    var b0: ByteBits, b1: ByteBits, b2: ByteBits, b3: ByteBits := crc[..8], crc[8..16], crc[16..24], crc[24..];
    assert crc == Join(b0, b1, b2, b3);
    ZerosByBytes(b0, b1, b2, b3, 8 * len);
  }

  /** A register over `a`, `b` and `c` is recombined from three independent streams. */
  lemma ThreeStreams(r: Word32, a: seq<ByteBits>, b: seq<ByteBits>, c: seq<ByteBits>, s0: Word32, s1: Word32, s2: Word32)
    requires |a| == |b| == |c|
    requires s0 == Register(r, a) && s1 == Register(Zero(32), b) && s2 == Register(Zero(32), c)
    ensures Register(r, a + b + c) == Xor(ShiftByTable(|a|, Xor(ShiftByTable(|a|, s0), s1)), s2)
  {
    var s01 := Register(s0, b);
    RegisterConcat(r, a + b, c);
    RegisterConcat(r, a, b);
    ShiftByTableIsZeros(|a|, s0);
    ShiftByTableIsZeros(|a|, s01);
    StreamLinear(s0, b);
    StreamLinear(s01, c);
  }

  lemma StreamLinear(r: Word32, d: seq<ByteBits>)
    ensures Register(r, d) == Xor(Zeros(r, 8 * |d|), Register(Zero(32), d))
  {
    assert Xor(r, Zero(32)) == r;
    SerialLinear(r, Zero(32), MessageBits(d));
  }

  // ---- Slicing by eight ---------------------------------------------------------------------

  /** A byte at position `j` reaches the low end after `j` zero bytes. */
  lemma PlaceShiftsOut(b: ByteBits, j: nat, n: nat)
    requires j < 4
    ensures Zeros(Place(b, j), 8 * j + n) == Zeros(Extend(b, 32), n)
  {
    var p := Place(b, j);
    assert p[..8 * j] == Zero(8 * j);
    ShiftOut(p, 8 * j, n);
    assert ShiftRight(p, 8 * j) == Extend(b, 32);
  }

  /** Four consecutive slicing tables together run a word over at least four zero bytes. */
  lemma SlicesAreZeros(b0: ByteBits, b1: ByteBits, b2: ByteBits, b3: ByteBits, k: nat)
    ensures Xor4(Slice(k + 3, b0), Slice(k + 2, b1), Slice(k + 1, b2), Slice(k, b3))
         == Zeros(Join(b0, b1, b2, b3), 8 * (k + 4))
  {
    ZerosByBytes(b0, b1, b2, b3, 8 * (k + 4));
    PlaceShiftsOut(b0, 0, 8 * (k + 4));
    PlaceShiftsOut(b1, 1, 8 * (k + 3));
    PlaceShiftsOut(b2, 2, 8 * (k + 2));
    PlaceShiftsOut(b3, 3, 8 * (k + 1));
  }

  lemma Regroup(a0: Word32, a1: Word32, a2: Word32, a3: Word32, b0: Word32, b1: Word32, b2: Word32, b3: Word32)
    ensures Xor4(Xor(a0, b0), Xor(a1, b1), Xor(a2, b2), Xor(a3, b3))
         == Xor(Xor4(a0, a1, a2, a3), Xor4(b0, b1, b2, b3))
         == Xor(Xor(Xor(Xor(Xor4(a0, a1, a2, a3), b0), b1), b2), b3)
  {}

  lemma JoinOfComplements(b0: ByteBits, b1: ByteBits, b2: ByteBits, b3: ByteBits)
    ensures Join(Not(b0), Not(b1), Not(b2), Not(b3)) == Not(Join(b0, b1, b2, b3))
  {}

  lemma JoinOfOnes()
    ensures Join(Ones(8), Ones(8), Ones(8), Ones(8)) == Ones(32)
  {}

  lemma PlacesOfOnes()
    ensures Xor4(Place(Ones(8), 0), Place(Ones(8), 1), Place(Ones(8), 2), Place(Ones(8), 3)) == Ones(32)
  {
    JoinIsSum(Ones(8), Ones(8), Ones(8), Ones(8));
    JoinOfOnes();
  }

  lemma SlicesOfComplements(b0: ByteBits, b1: ByteBits, b2: ByteBits, b3: ByteBits, k: nat)
    ensures Xor4(Slice(k + 3, Not(b0)), Slice(k + 2, Not(b1)), Slice(k + 1, Not(b2)), Slice(k, Not(b3)))
         == Zeros(Not(Join(b0, b1, b2, b3)), 8 * (k + 4))
  {
    SlicesAreZeros(Not(b0), Not(b1), Not(b2), Not(b3), k);
    JoinOfComplements(b0, b1, b2, b3);
  }

  lemma SlicesOfOnes()
    ensures Xor4(Slice(3, Ones(8)), Slice(2, Ones(8)), Slice(1, Ones(8)), Slice(0, Ones(8))) == Zeros(Ones(32), 32)
  {
    SlicesAreZeros(Ones(8), Ones(8), Ones(8), Ones(8), 0);
    JoinOfOnes();
  }

  /** The lookups for the half of a quadword that the running register is mixed into. */
  lemma LowTables(b0: ByteBits, b1: ByteBits, b2: ByteBits, b3: ByteBits)
    ensures Xor4(SwTable(7, b0), SwTable(6, b1), SwTable(5, b2), SwTable(4, b3))
         == Xor(Zeros(Not(Join(b0, b1, b2, b3)), 64), Zeros(Ones(32), 32))
  {
    Regroup(Slice(7, Not(b0)), Slice(6, Not(b1)), Slice(5, Not(b2)), Slice(4, Not(b3)),
            Slice(3, Ones(8)), Slice(2, Ones(8)), Slice(1, Ones(8)), Slice(0, Ones(8)));
    SlicesOfComplements(b0, b1, b2, b3, 4);
    SlicesOfOnes();
  }

  /** The lookups for the half that holds message bytes only. */
  lemma HighTables(b0: ByteBits, b1: ByteBits, b2: ByteBits, b3: ByteBits)
    ensures Xor4(SwTable(3, b0), SwTable(2, b1), SwTable(1, b2), SwTable(0, b3))
         == Xor(Zeros(Not(Join(b0, b1, b2, b3)), 32), Ones(32))
  {
    var s0, s1, s2, s3 := Slice(3, Not(b0)), Slice(2, Not(b1)), Slice(1, Not(b2)), Slice(0, Not(b3));
    var p0, p1, p2, p3 := Place(Ones(8), 0), Place(Ones(8), 1), Place(Ones(8), 2), Place(Ones(8), 3);
    Regroup(s0, s1, s2, s3, p0, p1, p2, p3);
    assert Xor4(s0, s1, s2, s3) == Zeros(Not(Join(b0, b1, b2, b3)), 32) by {
      SlicesOfComplements(b0, b1, b2, b3, 0);
    }
    assert Xor4(p0, p1, p2, p3) == Ones(32) by {
      PlacesOfOnes();
    }
  }

  lemma ComplementCancels(x: Word32, y: Word32, z: Word32)
    ensures Xor(Xor(x, z), Xor(Xor(y, z), Ones(32))) == Not(Xor(x, y))
  {}

  /** The eight lookups of a quadword: the complements built into the tables cancel. */
  lemma LookupsAreZeros(b0: ByteBits, b1: ByteBits, b2: ByteBits, b3: ByteBits, b4: ByteBits, b5: ByteBits, b6: ByteBits, b7: ByteBits)
    ensures Lookups(b0, b1, b2, b3, b4, b5, b6, b7)
         == Not(Xor(Zeros(Not(Join(b0, b1, b2, b3)), 64), Zeros(Join(b4, b5, b6, b7), 32)))
  {
    var lo, hi := Join(b0, b1, b2, b3), Join(b4, b5, b6, b7);
    LowTables(b0, b1, b2, b3);
    HighTables(b4, b5, b6, b7);
    ZerosXor(hi, Ones(32), 32);
    ComplementCancels(Zeros(Not(lo), 64), Zeros(hi, 32), Zeros(Ones(32), 32));
    Regroup(SwTable(7, b0), SwTable(6, b1), SwTable(5, b2), SwTable(4, b3),
            SwTable(3, b4), SwTable(2, b5), SwTable(1, b6), SwTable(0, b7));
  }

  // ---- Steps of the software loops ------------------------------------------------------------

  /** The eight table lookups for the bytes of one quadword. */
  function Lookups(b0: ByteBits, b1: ByteBits, b2: ByteBits, b3: ByteBits, b4: ByteBits, b5: ByteBits, b6: ByteBits, b7: ByteBits): Word32 {
    var low := Xor4(SwTable(7, b0), SwTable(6, b1), SwTable(5, b2), SwTable(4, b3));
    Xor(Xor(Xor(Xor(low, SwTable(3, b4)), SwTable(2, b5)), SwTable(1, b6)), SwTable(0, b7))
  }

  /** One byte of the software loops. */
  function SwByte(crc: Word32, b: ByteBits): Word32 {
    Xor(ShiftRight(crc, 8), SwTable(0, Xor(crc, b)[..8]))
  }

  /** The eight table lookups are 64 register steps seen through the complement. */
  lemma LookupsAreSerial(crc: Word32, data: Bits, b0: ByteBits, b1: ByteBits, b2: ByteBits, b3: ByteBits,
                         b4: ByteBits, b5: ByteBits, b6: ByteBits, b7: ByteBits)
    requires |data| == 64
    requires Xor(data, crc) == Join(b0, b1, b2, b3) + Join(b4, b5, b6, b7)
    ensures Lookups(b0, b1, b2, b3, b4, b5, b6, b7) == Not(Serial(Not(crc), data))
  {
    LookupsAreZeros(b0, b1, b2, b3, b4, b5, b6, b7);
    SerialByHalves(Not(crc), data);
    HalvesOfWord(crc, data, Join(b0, b1, b2, b3), Join(b4, b5, b6, b7));
  }

  lemma HalvesOfWord(crc: Word32, data: Bits, lo: Word32, hi: Word32)
    requires |data| == 64
    requires Xor(data, crc) == lo + hi
    ensures Not(lo) == Xor(Not(crc), data[..32]) && hi == data[32..]
  {
    assert forall i :: 0 <= i < 32 ==> lo[i] == (lo + hi)[i] && hi[i] == (lo + hi)[i + 32];
  }

  lemma SerialByHalves(r: Word32, data: Bits)
    requires |data| == 64
    ensures Serial(r, data) == Xor(Zeros(Xor(r, data[..32]), 64), Zeros(data[32..], 32))
  {
    var x := Xor(r, data[..32]);
    assert data == data[..32] + data[32..];
    SerialConcat(r, data[..32], data[32..]);
    Absorb(r, data[..32]);
    Absorb(Zeros(x, 32), data[32..]);
    ZerosXor(Zeros(x, 32), data[32..], 32);
    ZerosAdd(x, 32, 32);
  }

  /** The byte step is eight register steps seen through the complement. */
  lemma SwByteIsSerial(crc: Word32, b: ByteBits)
    ensures SwByte(crc, b) == Not(Serial(Not(crc), b))
  {
    var x: Word32 := Xor(Not(crc), b);
    Absorb(Not(crc), b);
    ZerosByteStep(x);
    assert Not(Xor(crc, b)[..8]) == x[..8];
    ByteAlgebra(crc, b, Slice(0, x[..8]));
  }

  lemma ZerosByteStep(x: Word32)
    ensures Zeros(x, 8) == Xor(Slice(0, x[..8]), ShiftRight(x, 8))
  {
    var low, high: Bits := Extend(x[..8], 32), Zero(8) + x[8..];
    assert x == Xor(low, high);
    ZerosXor(low, high, 8);
    assert high[..8] == Zero(8);
    ShiftOut(high, 8, 0);
    assert ShiftRight(high, 8) == ShiftRight(x, 8);
  }

  lemma ByteAlgebra(crc: Word32, b: ByteBits, s: Word32)
    ensures Xor(ShiftRight(crc, 8), Xor(s, Place(Ones(8), 3)))
         == Not(Xor(s, ShiftRight(Xor(Not(crc), b), 8)))
  {}
}
