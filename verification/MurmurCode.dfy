/** MurmurHash64A as written: a loop over the words and a switch that falls through the bytes
    behind them. */
module MurmurCode {
  import opened Arith
  import opened Bits
  import opened Murmur
  import opened MurmurInverse
  import opened MurmurLiterals
  import opened RawMemory

  /** The bytes from `i` on, at their places in the last word. */
  function High(rest: seq<Byte>, i: nat): nat
    requires i <= |rest|
  {
    ShiftLeft(LittleEndian(rest[i..]), 8 * i)
  }

  lemma {:induction false} ShiftLeftZero(k: nat)
    ensures ShiftLeft(0, k) == 0
  {
    if k > 0 {
      ShiftLeftZero(k - 1);
    }
  }

  lemma ByteBehind(b: Byte, x: nat)
    ensures NatXor(ShiftLeft(x, 8), b) == b + 256 * x
  {
    ShiftLeftIsProduct(x, 8);
    assert Pow2(8) == 256;
    XorDisjoint(b, x, 8);
    XorCommutes(b, ShiftLeft(x, 8));
  }

  /** One case of the switch brings in one more byte of the last word. */
  lemma CaseStep(h: nat, rest: seq<Byte>, i: nat)
    requires i < |rest|
    ensures NatXor(NatXor(h, High(rest, i + 1)), ShiftLeft(rest[i], 8 * i)) == NatXor(h, High(rest, i))
  {
    var x := LittleEndian(rest[i + 1..]);
    assert rest[i..][1..] == rest[i + 1..];
    ShiftLeftAdd(x, 8, 8 * i);
    XorShiftLeft(ShiftLeft(x, 8), rest[i], 8 * i);
    ByteBehind(rest[i], x);
    XorAssociates(h, High(rest, i + 1), ShiftLeft(rest[i], 8 * i));
  }

  lemma ByteFits(b: Byte, i: nat)
    requires i < 8
    ensures ShiftLeft(b, 8 * i) < WRAP
  {
    assert Pow2(8) == 256;
    ShiftLeftBound(b, 8 * i, 8);
    PowGrows(8 + 8 * i, 64);
    var w := WordWidth();
  }

  /** Mix byte `i` in at its place. */
  function PutByte(h: Word, rest: seq<Byte>, i: nat): (r: Word)
    requires i < |rest| <= 8
    ensures r == NatXor(h, ShiftLeft(rest[i], 8 * i))
  {
    ByteFits(rest[i], i);
    XorWord(h, ShiftLeft(rest[i], 8 * i))
  }

  /** The switch: without a break every case goes on with the next. */
  method Switch(h0: Word, rest: seq<Byte>) returns (h: Word)
    requires |rest| < 8
    ensures h == Tail(h0, rest)
  {
    h := h0;
    var n := |rest|;
    ShiftLeftZero(8 * n);
    XorZero(h0);
    assert rest[n..] == [] && rest[0..] == rest;
    if n >= 7 {
      CaseStep(h0, rest, 6);
      h := PutByte(h, rest, 6);
    }
    if n >= 6 {
      CaseStep(h0, rest, 5);
      h := PutByte(h, rest, 5);
    }
    if n >= 5 {
      CaseStep(h0, rest, 4);
      h := PutByte(h, rest, 4);
    }
    if n >= 4 {
      CaseStep(h0, rest, 3);
      h := PutByte(h, rest, 3);
    }
    if n >= 3 {
      CaseStep(h0, rest, 2);
      h := PutByte(h, rest, 2);
    }
    if n >= 2 {
      CaseStep(h0, rest, 1);
      h := PutByte(h, rest, 1);
    }
    if n >= 1 {
      CaseStep(h0, rest, 0);
      h := PutByte(h, rest, 0);
      h := Mul(h);
    }
  }

  /** The loop over the whole words. */
  method Body(key: Key, h0: Word) returns (h: Word)
    ensures h == Rounds(key, h0, |key| / 8)
  {
    h := h0;
    var data, end := 0, |key| / 8;
    while data != end
      invariant 0 <= data <= end && h == Rounds(key, h0, data)
    {
      var k := WordAt(key, data);
      data := data + 1;
      k := Mul(k);
      k := XorShift(k);
      k := Mul(k);
      h := XorWord(h, k);
      h := Mul(h);
    }
  }

  /** The length is an int. */
  method MurmurHash64A(key: Key, seed: Word) returns (h: Word)
    requires |key| < 0x8000_0000
    ensures h == Hash(key, seed)
    ensures SeedOf(h, key) == seed
    ensures |key| == 8 ==> KeyOf(h, seed) == WordFrom(key, 0)
    ensures key == [] && seed == 931901 ==> h == 0x83f3_2fad_9242_4767
    ensures key == [0x61] && seed == 931901 ==> h == 0xe0e8_98e4_6d7d_7675
    ensures key == LETTERS && seed == 931901 ==> h == 0x6f3f_e2c5_fcab_abd4
  {
    h := XorWord(seed, Mul(|key|));
    h := Body(key, h);
    h := Switch(h, key[|key| / 8 * 8..]);
    h := XorShift(h);
    h := Mul(h);
    h := XorShift(h);
    Known(key, seed);
  }

  lemma Known(key: Key, seed: Word)
    ensures SeedOf(Hash(key, seed), key) == seed
    ensures |key| == 8 ==> KeyOf(Hash(key, seed), seed) == WordFrom(key, 0)
    ensures Hash([], 931901) == 0x83f3_2fad_9242_4767
    ensures Hash([0x61], 931901) == 0xe0e8_98e4_6d7d_7675
    ensures Hash(LETTERS, 931901) == 0x6f3f_e2c5_fcab_abd4
  {
    hide *;
    SeedsPermuted(key, seed, 0);
    if |key| == 8 {
      KeyRecovered(key, seed);
    }
    EmptyKey();
    OneByteKey();
    OneWordKey();
  }
}
