/** What the checksum is for: any corruption confined to 32 consecutive bits is detected. */
module CrcBurst {
  import opened Words
  import opened CrcSpec

  /** A register started from the same value tells any two windows of up to 32 bits apart. */
  lemma WindowsDiffer(r: Word32, a: Bits, b: Bits)
    requires |a| == |b| <= 32
    requires a != b
    ensures Serial(r, a) != Serial(r, b)
  {
    Absorb(r, a);
    Absorb(r, b);
    if Serial(r, a) == Serial(r, b) {
      ZerosInjective(Xor(r, a), Xor(r, b), |a|);
      forall i | 0 <= i < |a|
        ensures a[i] == b[i]
      {
        assert Xor(r, a)[i] == Xor(r, b)[i];
      }
    }
  }

  /** Registers that differ stay different over the same message. */
  lemma SerialInjective(r: Word32, s: Word32, bits: Bits)
    requires Serial(r, bits) == Serial(s, bits)
    ensures r == s
  {
    var z := Zero(32);
    assert Xor(r, z) == r && Xor(s, z) == s;
    SerialLinear(r, z, bits);
    SerialLinear(s, z, bits);
    XorCancels(Zeros(r, |bits|), Serial(z, bits));
    XorCancels(Zeros(s, |bits|), Serial(z, bits));
    ZerosInjective(r, s, |bits|);
  }

  lemma SerialInThree(r: Word32, bits: Bits, from: nat, to: nat)
    requires from <= to <= |bits|
    ensures Serial(r, bits) == Serial(Serial(Serial(r, bits[..from]), bits[from..to]), bits[to..])
  {
    assert bits == bits[..from] + bits[from..to] + bits[to..];
    SerialConcat(r, bits[..from] + bits[from..to], bits[to..]);
    SerialConcat(r, bits[..from], bits[from..to]);
  }

  /** Equally long messages that differ, but only inside one window of 32 consecutive bits,
      have different checksums from the same running value. */
  lemma BurstDetected(crc: Word32, a: seq<ByteBits>, b: seq<ByteBits>, from: nat, to: nat)
    requires |a| == |b|
    requires from <= to <= 8 * |a| && to - from <= 32
    requires a != b
    requires forall i :: 0 <= i < 8 * |a| && !(from <= i < to) ==> MessageBits(a)[i] == MessageBits(b)[i]
    ensures Crc32c(crc, a) != Crc32c(crc, b)
  {
    MessageBitsInjective(a, b);
    BitsDiffer(Not(crc), MessageBits(a), MessageBits(b), from, to);
    NotNot(Register(Not(crc), a));
    NotNot(Register(Not(crc), b));
  }

  lemma BitsDiffer(r: Word32, x: Bits, y: Bits, from: nat, to: nat)
    requires |x| == |y| && from <= to <= |x| && to - from <= 32
    requires x != y
    requires forall i :: 0 <= i < |x| && !(from <= i < to) ==> x[i] == y[i]
    ensures Serial(r, x) != Serial(r, y)
  {
    assert x[..from] == y[..from] && x[to..] == y[to..];
    assert x == x[..from] + x[from..to] + x[to..] && y == y[..from] + y[from..to] + y[to..];
    SerialInThree(r, x, from, to);
    SerialInThree(r, y, from, to);
    var m := Serial(r, x[..from]);
    WindowsDiffer(m, x[from..to], y[from..to]);
    if Serial(r, x) == Serial(r, y) {
      SerialInjective(Serial(m, x[from..to]), Serial(m, y[from..to]), x[to..]);
    }
  }

  lemma {:induction false} MessageBitsInjective(a: seq<ByteBits>, b: seq<ByteBits>)
    requires |a| == |b| && a != b
    ensures MessageBits(a) != MessageBits(b)
    decreases |a|
  {
    if a[0] == b[0] {
      assert a == [a[0]] + a[1..] && b == [b[0]] + b[1..];
      MessageBitsInjective(a[1..], b[1..]);
      assert MessageBits(a)[8..] == MessageBits(a[1..]) && MessageBits(b)[8..] == MessageBits(b[1..]);
    } else {
      assert MessageBits(a)[..8] == a[0] && MessageBits(b)[..8] == b[0];
    }
  }
}
