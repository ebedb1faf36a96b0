/** The two CRC-32C engines, loop for loop, and the dispatch between them. A buffer is a
    nullable array together with the machine address of its first byte, which decides how
    many leading bytes are taken singly to reach an eight-byte boundary. */
module CrcEngine {
  import opened Words
  import opened CrcSpec
  import opened CrcTables
  import opened CrcLiterals

  /** The quadword at offset `at`, which holds the bytes `d`, read in little-endian order. */
  method LoadQuad(buf: array<ByteBits>, at: nat, ghost d: seq<ByteBits>) returns (word: Bits)
    requires at + 8 <= buf.Length && d == buf[at..at + 8]
    ensures |word| == 64
    ensures word == MessageBits(d)
  {
    var lo: Bits := Join(buf[at], buf[at + 1], buf[at + 2], buf[at + 3]);
    var hi: Bits := Join(buf[at + 4], buf[at + 5], buf[at + 6], buf[at + 7]);
    word := lo + hi;
    JoinBits(d[..4]);
    JoinBits(d[4..]);
    MessageBitsConcat(d[..4], d[4..]);
    assert d == d[..4] + d[4..];
  }

  lemma JoinBits(d: seq<ByteBits>)
    requires |d| == 4
    ensures MessageBits(d) == Join(d[0], d[1], d[2], d[3])
  {
    assert d[1..][1..] == d[2..] && d[2..][1..] == d[3..] && d[3..][1..] == [];
    assert MessageBits(d[2..]) == d[2] + MessageBits(d[3..]);
    assert MessageBits(d[3..]) == d[3];
  }

  lemma EmptyRegister(r: Bits)
    ensures Register(r, []) == r
  {}

  lemma ByteStep(start: Word32, d: seq<ByteBits>, i: nat)
    requires i < |d|
    ensures Register(start, d[..i + 1]) == Crc32b(Register(start, d[..i]), d[i])
  {
    assert d[..i + 1] == d[..i] + [d[i]];
    assert MessageBits([d[i]]) == d[i];
    RegisterConcat(start, d[..i], [d[i]]);
    Crc32bIsSerial(Register(start, d[..i]), d[i]);
  }

  lemma QuadStep(start: Word32, d: seq<ByteBits>, i: nat, word: Bits)
    requires i + 8 <= |d| && word == MessageBits(d[i..i + 8])
    ensures Register(start, d[..i + 8]) == Crc32q(Register(start, d[..i]), word)
  {
    Crc32qIsSerial(Register(start, d[..i]), word);
    RegisterConcat(start, d[..i], d[i..i + 8]);
    assert d[..i + 8] == d[..i] + d[i..i + 8];
  }

  lemma BlockStep(start: Word32, d: seq<ByteBits>, from: nat, to: nat)
    requires from <= to <= |d|
    ensures Register(start, d[..to]) == Register(Register(start, d[..from]), d[from..to])
  {
    assert d[..to] == d[..from] + d[from..to];
    RegisterConcat(start, d[..from], d[from..to]);
  }

  // ---- Hardware ----------------------------------------------------------------------------
  // `d` is the whole message and `start` the register before its first byte.

  /** The leading bytes up to an eight-byte boundary. */
  method HwHead(buf: array<ByteBits>, addr: nat, ghost d: seq<ByteBits>, length: nat, crc: Word32) returns (crc0: Word32, next: nat)
    requires length <= buf.Length && d == buf[..length]
    ensures next <= length && (next == length || (addr + next) % 8 == 0)
    ensures crc0 == Register(crc, d[..next])
  {
    crc0, next := crc, 0;
    EmptyRegister(crc);
    assert d[..0] == [];
    var len := length;
    while len != 0 && (addr + next) % 8 != 0
      invariant next + len == length
      invariant crc0 == Register(crc, d[..next])
    {
      ByteStep(crc, d, next);
      crc0 := Crc32b(crc0, buf[next]);
      next := next + 1;
      len := len - 1;
    }
  }

  lemma SliceOfStream(buf: array<ByteBits>, from: nat, s: seq<ByteBits>, done: nat)
    requires from + |s| <= buf.Length && s == buf[from..from + |s|] && done + 8 <= |s|
    ensures s[done..done + 8] == buf[from + done..from + done + 8]
  {
    var a, b := s[done..done + 8], buf[from + done..from + done + 8];
    forall j | 0 <= j < 8
      ensures a[j] == b[j]
    {
      assert s[done + j] == buf[from..from + |s|][done + j];
    }
    assert a == b;
  }

  /** `crc32q` on the quadword after the first `done` bytes of the stream `s` that begins at `from`. */
  method HwQuad(buf: array<ByteBits>, from: nat, ghost s: seq<ByteBits>, done: nat, crc: Word32, ghost start: Word32)
    returns (crc0: Word32)
    requires from + |s| <= buf.Length && s == buf[from..from + |s|]
    requires done + 8 <= |s|
    requires crc == Register(start, s[..done])
    ensures crc0 == Register(start, s[..done + 8])
  {
    SliceOfStream(buf, from, s, done);
    var word := LoadQuad(buf, from + done, s[done..done + 8]);
    QuadStep(start, s, done, word);
    crc0 := Crc32q(crc, word);
  }

  /** The inner loop: three independent streams of `size` bytes each. */
  method RunStreams(buf: array<ByteBits>, base: nat, size: nat, crc: Word32)
    returns (crc0: Word32, crc1: Word32, crc2: Word32)
    requires size % 8 == 0 && base + 3 * size <= buf.Length
    ensures crc0 == Register(crc, buf[base..base + size])
    ensures crc1 == Register(Zero(32), buf[base + size..base + 2 * size])
    ensures crc2 == Register(Zero(32), buf[base + 2 * size..base + 3 * size])
  {
    ghost var a, b, c := buf[base..base + size], buf[base + size..base + 2 * size], buf[base + 2 * size..base + 3 * size];
    crc0, crc1, crc2 := crc, Zero(32), Zero(32);
    EmptyRegister(crc);
    EmptyRegister(Zero(32));
    assert a[..0] == b[..0] == c[..0] == [];
    var done := 0;
    while done < size
      invariant 0 <= done <= size && done % 8 == 0
      invariant crc0 == Register(crc, a[..done])
      invariant crc1 == Register(Zero(32), b[..done])
      invariant crc2 == Register(Zero(32), c[..done])
    {
      crc0, crc1, crc2 := StepStreams(buf, base, size, a, b, c, done, crc0, crc1, crc2, crc, Zero(32));
      done := done + 8;
    }
    assert a[..size] == a && b[..size] == b && c[..size] == c;
  }

  /** One quadword of each stream. */
  method StepStreams(buf: array<ByteBits>, base: nat, size: nat, ghost a: seq<ByteBits>, ghost b: seq<ByteBits>, ghost c: seq<ByteBits>,
                     done: nat, r0: Word32, r1: Word32, r2: Word32, ghost start: Word32, ghost zero: Word32)
    returns (crc0: Word32, crc1: Word32, crc2: Word32)
    requires base + 3 * size <= buf.Length && done + 8 <= size == |a| == |b| == |c|
    requires a == buf[base..base + size] && b == buf[base + size..base + 2 * size]
    requires c == buf[base + 2 * size..base + 3 * size]
    requires r0 == Register(start, a[..done]) && r1 == Register(zero, b[..done]) && r2 == Register(zero, c[..done])
    ensures crc0 == Register(start, a[..done + 8])
    ensures crc1 == Register(zero, b[..done + 8])
    ensures crc2 == Register(zero, c[..done + 8])
  {
    crc0 := HwQuad(buf, base, a, done, r0, start);
    crc1 := HwQuad(buf, base + size, b, done, r1, zero);
    crc2 := HwQuad(buf, base + 2 * size, c, done, r2, zero);
  }

  /** One block of three streams, recombined with the zeros tables. */
  method ThreeWayBlock(buf: array<ByteBits>, base: nat, size: nat, crc: Word32) returns (crc0: Word32)
    requires size % 8 == 0 && base + 3 * size <= buf.Length
    ensures crc0 == Register(crc, buf[base..base + 3 * size])
  {
    var s0, s1, s2 := RunStreams(buf, base, size, crc);
    ghost var a, b, c := buf[base..base + size], buf[base + size..base + 2 * size], buf[base + 2 * size..base + 3 * size];
    assert buf[base..base + 3 * size] == a + b + c;
    ThreeStreams(crc, a, b, c, s0, s1, s2);
    crc0 := Xor(ShiftByTable(size, s0), s1);
    crc0 := Xor(ShiftByTable(size, crc0), s2);
  }

  lemma SliceOfPrefix(buf: array<ByteBits>, length: nat, from: nat, to: nat)
    requires from <= to <= length <= buf.Length
    ensures buf[..length][from..to] == buf[from..to]
  {}

  /** Blocks of three streams for as long as a whole block is left. */
  method HwBlocks(buf: array<ByteBits>, ghost d: seq<ByteBits>, from: nat, length: nat, size: nat, crc: Word32, ghost start: Word32)
    returns (crc0: Word32, next: nat)
    requires length <= buf.Length && d == buf[..length]
    requires 0 < size && size % 8 == 0 && from <= length
    requires crc == Register(start, d[..from])
    ensures from <= next <= length && length - next < size * 3
    ensures crc0 == Register(start, d[..next])
  {
    crc0, next := crc, from;
    var len: nat := length - from;
    while len >= size * 3
      invariant from <= next && next + len == length
      invariant crc0 == Register(start, d[..next])
    {
      SliceOfPrefix(buf, length, next, next + 3 * size);
      BlockStep(start, d, next, next + 3 * size);
      crc0 := ThreeWayBlock(buf, next, size, crc0);
      next := next + size * 3;
      len := len - size * 3;
    }
  }

  /** The eight-byte units up to `end`. */
  method HwQuads(buf: array<ByteBits>, ghost d: seq<ByteBits>, from: nat, end: nat, crc: Word32, ghost start: Word32)
    returns (crc0: Word32)
    requires |d| <= buf.Length && d == buf[0..|d|]
    requires from <= end <= |d| && (end - from) % 8 == 0
    requires crc == Register(start, d[..from])
    ensures crc0 == Register(start, d[..end])
  {
    crc0 := crc;
    var next := from;
    while next < end
      invariant from <= next <= end && (end - next) % 8 == 0
      invariant crc0 == Register(start, d[..next])
    {
      crc0 := HwQuad(buf, 0, d, next, crc0, start);
      next := next + 8;
    }
  }

  /** The trailing bytes. */
  method HwTail(buf: array<ByteBits>, ghost d: seq<ByteBits>, from: nat, length: nat, crc: Word32, ghost start: Word32)
    returns (crc0: Word32)
    requires length <= buf.Length && d == buf[..length] && from <= length
    requires crc == Register(start, d[..from])
    ensures crc0 == Register(start, d)
  {
    crc0 := crc;
    var next: nat, len: nat := from, length - from;
    while len != 0
      invariant from <= next && next + len == length
      invariant crc0 == Register(start, d[..next])
    {
      ByteStep(start, d, next);
      crc0 := Crc32b(crc0, buf[next]);
      next := next + 1;
      len := len - 1;
    }
    assert d[..length] == d;
  }

  /** `crc32c_hw` */
  method Crc32cHw(crc: Word32, buf: array?<ByteBits>, addr: nat, length: nat) returns (r: Word32)
    requires buf != null ==> length <= buf.Length
    ensures buf == null ==> r == Zero(32)
    ensures buf != null ==> r == Crc32c(crc, buf[..length])
    ensures buf != null && buf[..length] == Octets(DIGITS) && crc == Word(0) ==> r == Word(0xe306_9283)
  {
    CheckValue();
    if buf == null {
      return Zero(32);
    }
    ghost var d := buf[..length];
    var start: Word32 := Xor(crc, Ones(32));
    var crc0, next := HwHead(buf, addr, d, length, start);
    crc0, next := HwBlocks(buf, d, next, length, LONG, crc0, start);
    crc0, next := HwBlocks(buf, d, next, length, SHORT, crc0, start);
    var len := length - next;
    var end := next + (len - len % 8);
    crc0 := HwQuads(buf, d, next, end, crc0, start);
    crc0 := HwTail(buf, d, end, length, crc0, start);
    r := Not(crc0);
  }

  // ---- Software ----------------------------------------------------------------------------

  /** One byte through the first table. */
  method SwByteAt(buf: array<ByteBits>, data: nat, crc: Word32, ghost before: Word32) returns (crc': Word32)
    requires data < buf.Length
    requires crc == Crc32c(before, buf[..data])
    ensures crc' == Crc32c(before, buf[..data + 1])
  {
    crc' := SwByte(crc, buf[data]);
    SwByteIsSerial(crc, buf[data]);
    NotNot(Register(Not(before), buf[..data]));
    ByteStep(Not(before), buf[..], data);
    Crc32bIsSerial(Register(Not(before), buf[..data]), buf[data]);
    assert buf[..][..data] == buf[..data] && buf[..][..data + 1] == buf[..data + 1];
  }

  /** The eight table lookups for one quadword. */
  method SwWord(crc: Word32, quad: Bits) returns (crc': Word32)
    requires |quad| == 64
    ensures crc' == Not(Serial(Not(crc), quad))
  {
    var word := Xor(quad, crc);
    crc' := Lookups(word[..8], word[8..16], word[16..24], word[24..32],
                    word[32..40], word[40..48], word[48..56], word[56..]);
    WordLookups(crc, quad);
  }

  /** The step of the middle loop at `data`. */
  method SwWordAt(buf: array<ByteBits>, data: nat, crc: Word32, ghost before: Word32) returns (crc': Word32)
    requires data + 8 <= buf.Length
    requires crc == Crc32c(before, buf[..data])
    ensures crc' == Crc32c(before, buf[..data + 8])
  {
    var quad := LoadQuad(buf, data, buf[data..data + 8]);
    crc' := SwWord(crc, quad);
    ChecksumQuad(before, buf[..data], buf[data..data + 8]);
    assert buf[..data + 8] == buf[..data] + buf[data..data + 8];
  }

  lemma ChecksumQuad(before: Word32, d: seq<ByteBits>, q: seq<ByteBits>)
    ensures Crc32c(before, d + q) == Not(Serial(Not(Crc32c(before, d)), MessageBits(q)))
  {
    ChecksumConcat(before, d, q);
  }

  lemma SplitQuad(word: Bits)
    requires |word| == 64
    ensures word == Join(word[..8], word[8..16], word[16..24], word[24..32])
                  + Join(word[32..40], word[40..48], word[48..56], word[56..])
  {}

  lemma WordLookups(crc: Word32, quad: Bits)
    requires |quad| == 64
    ensures var word := Xor(quad, crc);
            Lookups(word[..8], word[8..16], word[16..24], word[24..32],
                    word[32..40], word[40..48], word[48..56], word[56..]) == Not(Serial(Not(crc), quad))
  {
    var word := Xor(quad, crc);
    SplitQuad(word);
    LookupsAreSerial(crc, quad, word[..8], word[8..16], word[16..24], word[24..32],
                     word[32..40], word[40..48], word[48..56], word[56..]);
  }

  /** The middle loop: `n` quadwords from `data` on. */
  method SwWords(buf: array<ByteBits>, data: nat, n: nat, crc: Word32, ghost before: Word32) returns (crc': Word32)
    requires data + 8 * n <= buf.Length
    requires crc == Crc32c(before, buf[..data])
    ensures crc' == Crc32c(before, buf[..data + 8 * n])
  {
    crc' := crc;
    for i := 0 to n
      invariant crc' == Crc32c(before, buf[..data + 8 * i])
    {
      crc' := SwWordAt(buf, data + 8 * i, crc', before);
    }
  }

  /** Single bytes for as long as `len` and, at the head, the alignment ask for them. */
  method SwBytes(buf: array<ByteBits>, from: nat, length: nat, toBoundary: bool, addr: nat, crc: Word32, ghost before: Word32)
    returns (crc0: Word32, data: nat)
    requires from <= length <= buf.Length
    requires crc == Crc32c(before, buf[..from])
    ensures from <= data <= length && (data == length || (toBoundary && (addr + data) % 8 == 0))
    ensures crc0 == Crc32c(before, buf[..data])
  {
    crc0, data := crc, from;
    var len: nat := length - from;
    while len != 0 && (!toBoundary || (addr + data) % 8 != 0)
      invariant from <= data && data + len == length
      invariant crc0 == Crc32c(before, buf[..data])
    {
      crc0 := SwByteAt(buf, data, crc0, before);
      data := data + 1;
      len := len - 1;
    }
  }

  /** `crc32c_sw` */
  method Crc32cSw(crc: Word32, buf: array?<ByteBits>, addr: nat, length: nat) returns (r: Word32)
    requires buf != null ==> length <= buf.Length
    ensures buf == null ==> r == Zero(32)
    ensures buf != null ==> r == Crc32c(crc, buf[..length])
    ensures buf != null && buf[..length] == Octets(DIGITS) && crc == Word(0) ==> r == Word(0xe306_9283)
  {
    CheckValue();
    if buf == null {
      return Zero(32);
    }
    EmptyChecksum(crc);
    assert buf[..0] == [];
    var crc0, data := SwBytes(buf, 0, length, true, addr, crc, crc);
    var n := (length - data) / 8;
    crc0 := SwWords(buf, data, n, crc0, crc);
    r, data := SwBytes(buf, data + 8 * n, length, false, addr, crc0, crc);
  }

  lemma EmptyChecksum(crc: Word32)
    ensures Crc32c(crc, []) == crc
  {
    NotNot(crc);
  }

  // ---- Dispatch ----------------------------------------------------------------------------

  /** `crc32c`: the instruction set decides the engine, not the checksum. */
  method Checksum(sse42: bool, crc: Word32, buf: array?<ByteBits>, addr: nat, len: nat) returns (r: Word32)
    requires buf != null ==> len <= buf.Length
    ensures r == if buf == null then Zero(32) else Crc32c(crc, buf[..len])
    ensures buf != null && buf[..len] == Octets(DIGITS) && crc == Word(0) ==> r == Word(0xe306_9283)
  {
    if sse42 {
      r := Crc32cHw(crc, buf, addr, len);
    } else {
      r := Crc32cSw(crc, buf, addr, len);
    }
  }

  /** The seed of `calculate_crc32`. */
  const SEED: Word32 := Word(0x00ab_cdef)

  /** `calculate_crc32` */
  method CalculateCrc32(x86: bool, s: array?<ByteBits>, addr: nat, len: nat) returns (r: Word32)
    requires s != null ==> len <= s.Length
    ensures r == if s == null then Zero(32) else Crc32c(Word(0x00ab_cdef), s[..len])
  {
    if x86 {
      r := Crc32cHw(SEED, s, addr, len);
    } else {
      r := Crc32cSw(SEED, s, addr, len);
    }
  }
}
