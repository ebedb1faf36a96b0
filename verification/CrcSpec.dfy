/** Machine words as the sequence of their bits, least significant bit first. A shorter
    word stands for its zero extension, a right shift by k drops the first k bits, and
    masking with 2^k - 1 keeps them. */
module Words {

  type Bits = seq<bool>
  /** The bits of a byte. */
  type ByteBits = b: Bits | |b| == 8 witness Zero(8)
  type Word32 = w: Bits | |w| == 32 witness Zero(32)

  function Zero(n: nat): (w: Bits)
    ensures |w| == n
    ensures forall i :: 0 <= i < n ==> !w[i]
  {
    seq(n, i => false)
  }

  function Ones(n: nat): (w: Bits)
    ensures |w| == n
    ensures forall i :: 0 <= i < n ==> w[i]
  {
    seq(n, i => true)
  }

  /** Bit `i` of the zero extension of `w`. */
  predicate At(w: Bits, i: nat) {
    i < |w| && w[i]
  }

  /** `a ^ b`, as wide as `a`. */
  function Xor(a: Bits, b: Bits): (c: Bits)
    ensures |c| == |a|
    ensures forall i :: 0 <= i < |a| ==> c[i] == (a[i] != At(b, i))
  {
    seq(|a|, i requires 0 <= i < |a| => a[i] != At(b, i))
  }

  /** `a >> k`, as wide as `a`. */
  function ShiftRight(a: Bits, k: nat): (c: Bits)
    requires k <= |a|
    ensures |c| == |a|
  {
    a[k..] + Zero(k)
  }

  /** `~a` */
  function Not(a: Bits): (c: Bits)
    ensures |c| == |a|
  {
    Xor(a, Ones(|a|))
  }

  /** `a` zero-extended to `n` bits. */
  function Extend(a: Bits, n: nat): (c: Bits)
    requires |a| <= n
    ensures |c| == n
    ensures forall i :: 0 <= i < n ==> c[i] == At(a, i)
  {
    a + Zero(n - |a|)
  }

  lemma XorCancels(a: Bits, b: Bits)
    ensures Xor(Xor(a, b), b) == a
  {}

  lemma NotNot(a: Bits)
    ensures Not(Not(a)) == a
  {}
}

/** The reference definition of CRC-32C (section 12.1 of RFC 3720): a 32-bit register
    that consumes the message one bit at a time, least significant bit of each byte first,
    complemented before the first bit and after the last one.

    Everything the fast engines rely on is proved here about that register: it is linear
    over GF(2), it splits over concatenation, it may take up to a register's width of bits
    at once, and running it over zeros is invertible. */
module CrcSpec {
  import opened Words

  /** The generator polynomial of section 12.1 of RFC 3720, 0x11edc6f41, below its x^32. */
  predicate Generator(power: int) {
    power in {28, 27, 26, 25, 23, 22, 20, 19, 18, 14, 13, 11, 10, 9, 8, 6, 0}
  }

  /** The polynomial in reflected bit order: 0x82f63b78. */
  function Poly(): Word32 {
    seq(32, i => Generator(31 - i))
  }

  /** One shift of a register of any width over a zero bit. */
  function Shift(r: Bits): (s: Bits)
    ensures |s| == |r|
  {
    if r == [] then [] else if r[0] then Xor(r[1..] + [false], Poly()) else r[1..] + [false]
  }

  /** The register after `n` zero bits. */
  function Zeros(r: Bits, n: nat): (s: Bits)
    ensures |s| == |r|
    decreases n, |r|
  {
    if n == 0 then r else Zeros(Shift(r), n - 1)
  }

  /** The register after consuming `bits`, first bit first. */
  function Serial(r: Bits, bits: Bits): (s: Bits)
    ensures |s| == |r|
    decreases |bits|
  {
    if bits == [] then r else Serial(Shift(Xor(r, [bits[0]])), bits[1..])
  }

  /** The bits of a message, in the order they are consumed. */
  function MessageBits(data: seq<ByteBits>): (bits: Bits)
    ensures |bits| == 8 * |data|
  {
    if data == [] then [] else data[0] + MessageBits(data[1..])
  }

  /** The register after the bytes of `data`. */
  function Register(r: Bits, data: seq<ByteBits>): (s: Bits)
    ensures |s| == |r|
  {
    Serial(r, MessageBits(data))
  }

  /** The running checksum: `crc` is the checksum of what came before `data`. */
  function Crc32c(crc: Word32, data: seq<ByteBits>): Word32 {
    Not(Register(Not(crc), data))
  }

  // ---- Linearity ----------------------------------------------------------------------------

  lemma ShiftXor(a: Bits, b: Bits)
    requires |a| == |b|
    ensures Shift(Xor(a, b)) == Xor(Shift(a), Shift(b))
  {
    if a != [] {
      var x, y := a[1..] + [false], b[1..] + [false];
      assert Xor(a, b)[1..] + [false] == Xor(x, y);
      assert Xor(Xor(x, Poly()), Xor(y, Poly())) == Xor(x, y);
      assert Xor(Xor(x, Poly()), y) == Xor(Xor(x, y), Poly()) == Xor(x, Xor(y, Poly()));
    }
  }

  lemma {:induction false} ZerosXor(a: Bits, b: Bits, n: nat)
    requires |a| == |b|
    ensures Zeros(Xor(a, b), n) == Xor(Zeros(a, n), Zeros(b, n))
    decreases n
  {
    if n > 0 {
      ShiftXor(a, b);
      ZerosXor(Shift(a), Shift(b), n - 1);
    }
  }

  lemma {:induction false} ZerosAdd(r: Bits, m: nat, n: nat)
    ensures Zeros(Zeros(r, m), n) == Zeros(r, m + n)
    decreases m
  {
    if m > 0 {
      ZerosAdd(Shift(r), m - 1, n);
    }
  }

  lemma {:induction false} SerialConcat(r: Bits, a: Bits, b: Bits)
    ensures Serial(r, a + b) == Serial(Serial(r, a), b)
    decreases |a|
  {
    if a == [] {
      assert a + b == b;
    } else {
      assert (a + b)[1..] == a[1..] + b;
      SerialConcat(Shift(Xor(r, [a[0]])), a[1..], b);
    }
  }

  /** The register is the superposition of what it held and of what the message alone gives. */
  lemma {:induction false} SerialLinear(r: Bits, s: Bits, bits: Bits)
    requires |r| == |s|
    ensures Serial(Xor(r, s), bits) == Xor(Zeros(r, |bits|), Serial(s, bits))
    decreases |bits|
  {
    if bits != [] {
      var b := [bits[0]];
      assert Xor(Xor(r, s), b) == Xor(r, Xor(s, b));
      ShiftXor(r, Xor(s, b));
      SerialLinear(Shift(r), Shift(Xor(s, b)), bits[1..]);
    }
  }

  lemma {:induction false} MessageBitsConcat(a: seq<ByteBits>, b: seq<ByteBits>)
    ensures MessageBits(a + b) == MessageBits(a) + MessageBits(b)
    decreases |a|
  {
    if a == [] {
      assert a + b == b;
    } else {
      assert (a + b)[1..] == a[1..] + b;
      MessageBitsConcat(a[1..], b);
    }
  }

  lemma RegisterConcat(r: Bits, a: seq<ByteBits>, b: seq<ByteBits>)
    ensures Register(r, a + b) == Register(Register(r, a), b)
  {
    MessageBitsConcat(a, b);
    SerialConcat(r, MessageBits(a), MessageBits(b));
  }

  /** Checksumming `a` and then `b` from the running value is checksumming `a + b`. */
  lemma ChecksumConcat(crc: Word32, a: seq<ByteBits>, b: seq<ByteBits>)
    ensures Crc32c(crc, a + b) == Crc32c(Crc32c(crc, a), b)
  {
    RegisterConcat(Not(crc), a, b);
    NotNot(Register(Not(crc), a));
  }

  // ---- Many bits at once ----------------------------------------------------------------------

  /** A register may take up to its own width of message bits in one exclusive or. */
  lemma {:induction false} Absorb(r: Bits, bits: Bits)
    requires |bits| <= |r|
    ensures Serial(r, bits) == Zeros(Xor(r, bits), |bits|)
    decreases |bits|
  {
    if bits == [] {
      assert Xor(r, bits) == r;
    } else {
      var x := Xor(r, [bits[0]]);
      var later := Extend([false] + bits[1..], |r|);
      assert Xor(r, bits) == Xor(x, later);
      ShiftXor(x, later);
      assert Xor(Shift(x), Shift(later)) == Xor(Shift(x), bits[1..]);
      Absorb(Shift(x), bits[1..]);
    }
  }

  /** Low-order zeros leave the register by plain shifting. */
  lemma {:induction false} ShiftOut(r: Bits, k: nat, n: nat)
    requires k <= |r|
    requires r[..k] == Zero(k)
    ensures Zeros(r, k + n) == Zeros(ShiftRight(r, k), n)
    decreases k
  {
    if k == 0 {
      assert ShiftRight(r, 0) == r;
    } else {
      assert !r[0] by {
        assert r[0] == r[..k][0];
      }
      var s := Shift(r);
      assert s[..k - 1] == Zero(k - 1) by {
        assert forall i :: 0 <= i < k - 1 ==> s[i] == r[..k][i + 1];
      }
      ShiftOut(s, k - 1, n);
      assert ShiftRight(s, k - 1) == ShiftRight(r, k);
    }
  }

  /** A wider register whose upper bits are zero behaves like the 32-bit one. */
  lemma {:induction false} SerialExtend(r: Word32, n: nat, bits: Bits)
    requires 32 <= n
    ensures Serial(Extend(r, n), bits) == Extend(Serial(r, bits), n)
    decreases |bits|
  {
    if bits != [] {
      var x := Xor(r, [bits[0]]);
      assert Xor(Extend(r, n), [bits[0]]) == Extend(x, n);
      assert Shift(Extend(x, n)) == Extend(Shift(x), n);
      SerialExtend(Shift(x), n, bits[1..]);
    }
  }

  // ---- Invertibility ------------------------------------------------------------------------

  lemma ShiftInjective(a: Word32, b: Word32)
    requires Shift(a) == Shift(b)
    ensures a == b
  {
    assert Shift(a)[31] == a[0] && Shift(b)[31] == b[0];
    forall i | 1 <= i < 32
      ensures a[i] == b[i]
    {
      assert (a[1..] + [false])[i - 1] == a[i] && (b[1..] + [false])[i - 1] == b[i];
      assert Shift(a)[i - 1] == Shift(b)[i - 1];
    }
  }

  lemma {:induction false} ZerosInjective(a: Word32, b: Word32, n: nat)
    requires Zeros(a, n) == Zeros(b, n)
    ensures a == b
    decreases n
  {
    if n > 0 {
      ZerosInjective(Shift(a), Shift(b), n - 1);
      ShiftInjective(a, b);
    }
  }
}
