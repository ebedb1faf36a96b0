/** Messages with typed fields and length-prefixed strings behind a packed header. */
module RpcMessage {
  import opened RawMemory
  import Rowan

  type Bytes = seq<Byte>

  const HEADER := 6                              // magic, type, node, thread and a 16-bit size
  const CAPACITY := Rowan.MESSAGE_SIZE - HEADER  // what is left of a buffer for `msg`
  const WRAP16 := 0x1_0000
  const WRAP32 := 0x1_0000_0000

  // ---- The encoding ------------------------------------------------------------------------------

  /** A uint32_t in memory. */
  function Encode32(k: nat): (b: Bytes)
    ensures |b| == 4
  {
    var k1 := k / 256;
    var k2 := k1 / 256;
    [k % 256, k1 % 256, k2 % 256, k2 / 256 % 256]
  }

  function Decode32(b: Bytes): nat
    requires |b| == 4
  {
    b[0] as int + 256 * (b[1] as int + 256 * (b[2] as int + 256 * b[3] as int))
  }

  /** The weights of the four bytes of `k`, lowest first. */
  predicate LittleEndian32(k: nat, b: Bytes) {
    |b| == 4 && b[0] as int + 0x100 * b[1] as int + 0x1_0000 * b[2] as int + 0x100_0000 * b[3] as int == k
  }

  lemma LowestFirst(k: nat)
    requires k < WRAP32
    ensures LittleEndian32(k, Encode32(k))
  {}

  lemma Decode32Inverts(k: nat)
    requires k < WRAP32
    ensures Decode32(Encode32(k)) == k
  {}

  /** What one call adds: a value as the bytes of its type, a string behind its length, or a string
      alone. */
  datatype Field = Value(bytes: Bytes) | Text(bytes: Bytes) | Raw(bytes: Bytes)

  /** What the matching call of the reader knows beforehand. */
  datatype Shape = ValueOf(size: nat) | AnyText | RawOf(size: nat)

  function ShapeOf(f: Field): Shape {
    match f
    case Value(b) => ValueOf(|b|)
    case Text(_) => AnyText
    case Raw(b) => RawOf(|b|)
  }

  function EncodeField(f: Field): (e: Bytes)
    ensures |f.bytes| <= |e|
  {
    match f
    case Value(b) => b
    case Text(b) => Encode32(|b|) + b
    case Raw(b) => b
  }

  /** The first `n` chunks one after the other. */
  function Concat(chunks: seq<Bytes>, n: nat): Bytes
    requires n <= |chunks|
  {
    if n == 0 then [] else Concat(chunks, n - 1) + chunks[n - 1]
  }

  function Chunks(fs: seq<Field>): (c: seq<Bytes>)
    ensures |c| == |fs|
  {
    seq(|fs|, i requires 0 <= i < |fs| => EncodeField(fs[i]))
  }

  /** The first `n` fields. */
  function Encode(fs: seq<Field>, n: nat): Bytes
    requires n <= |fs|
  {
    Concat(Chunks(fs), n)
  }

  function ShapesOf(fs: seq<Field>): (s: seq<Shape>)
    ensures |s| == |fs|
  {
    seq(|fs|, i requires 0 <= i < |fs| => ShapeOf(fs[i]))
  }

  /** Reading stays within the buffer. */
  predicate Inside(msg: Bytes, s: Shape, off: nat) {
    match s
    case ValueOf(n) => off + n <= |msg|
    case RawOf(n) => off + n <= |msg|
    case AnyText => off + 4 <= |msg| && off + 4 + Decode32(msg[off..off + 4]) <= |msg|
  }

  function DecodeField(msg: Bytes, s: Shape, off: nat): (r: (Field, nat))
    requires Inside(msg, s, off)
    ensures off <= r.1 <= |msg|
  {
    match s
    case ValueOf(n) => (Value(msg[off..off + n]), off + n)
    case RawOf(n) => (Raw(msg[off..off + n]), off + n)
    case AnyText =>
      var k := Decode32(msg[off..off + 4]);
      (Text(msg[off + 4..off + 4 + k]), off + 4 + k)
  }

  /** The fields that a reader gets, if all lie inside the buffer. */
  datatype Read = Read(fields: seq<Field>, off: nat) | Outside

  function Decode(msg: Bytes, shapes: seq<Shape>, n: nat): Read
    requires n <= |shapes|
  {
    if n == 0 then Read([], 0)
    else
      match Decode(msg, shapes, n - 1)
      case Outside => Outside
      case Read(fs, off) =>
        var s := shapes[n - 1];
        if Inside(msg, s, off) then Read(fs + [DecodeField(msg, s, off).0], DecodeField(msg, s, off).1) else Outside
  }

  // ---- Round trip --------------------------------------------------------------------------------

  /** The bytes of `f` lie at `off`. */
  ghost predicate LiesAt(msg: Bytes, f: Field, off: nat) {
    && |f.bytes| < WRAP32 && off + |EncodeField(f)| <= |msg|
    && msg[off..off + |EncodeField(f)|] == EncodeField(f)
  }

  lemma FieldRoundTrip(msg: Bytes, f: Field, off: nat)
    requires LiesAt(msg, f, off)
    ensures Inside(msg, ShapeOf(f), off) && DecodeField(msg, ShapeOf(f), off) == (f, off + |EncodeField(f)|)
  {
    if f.Text? {
      var e := EncodeField(f);
      Decode32Inverts(|f.bytes|);
      assert msg[off..off + 4] == msg[off..off + |e|][..4] == Encode32(|f.bytes|);
      assert msg[off + 4..off + |e|] == msg[off..off + |e|][4..] == f.bytes;
    }
  }

  lemma {:induction false} PrefixOf(chunks: seq<Bytes>, i: nat, n: nat)
    requires i <= n <= |chunks|
    ensures Concat(chunks, i) <= Concat(chunks, n)
    decreases n
  {
    if i < n {
      PrefixOf(chunks, i, n - 1);
    }
  }

  lemma Behind(msg: Bytes, front: Bytes, e: Bytes)
    requires front + e <= msg
    ensures |front| + |e| <= |msg| && msg[|front|..|front| + |e|] == e
  {
    assert msg[|front|..|front| + |e|] == (front + e)[|front|..];
  }

  lemma ChunkLiesAt(msg: Bytes, chunks: seq<Bytes>, n: nat, i: nat)
    requires i < n <= |chunks| && Concat(chunks, n) <= msg
    ensures var off, next := |Concat(chunks, i)|, |Concat(chunks, i + 1)|;
            next == off + |chunks[i]| <= |Concat(chunks, n)| <= |msg| && msg[off..next] == chunks[i]
  {
    PrefixOf(chunks, i + 1, n);
    Behind(msg, Concat(chunks, i), chunks[i]);
  }

  lemma EncodeNext(fs: seq<Field>, i: nat)
    requires i < |fs|
    ensures Encode(fs, i + 1) == Encode(fs, i) + EncodeField(fs[i])
    ensures |Encode(fs, i)| + |EncodeField(fs[i])| <= |Encode(fs, |fs|)|
  {
    ConcatNext(Chunks(fs), i);
  }

  lemma ConcatNext(chunks: seq<Bytes>, i: nat)
    requires i < |chunks|
    ensures Concat(chunks, i + 1) == Concat(chunks, i) + chunks[i]
    ensures |Concat(chunks, i)| + |chunks[i]| <= |Concat(chunks, |chunks|)|
  {
    PrefixOf(chunks, i + 1, |chunks|);
  }

  lemma FieldLiesAt(msg: Bytes, fs: seq<Field>, n: nat, i: nat)
    requires i < n <= |fs| && Encode(fs, n) <= msg && |Encode(fs, n)| < WRAP32
    ensures LiesAt(msg, fs[i], |Encode(fs, i)|) && |Encode(fs, i + 1)| == |Encode(fs, i)| + |EncodeField(fs[i])|
  {
    ChunkLiesAt(msg, Chunks(fs), n, i);
  }

  /** The reader's next call gets the next field. */
  lemma FieldReads(msg: Bytes, fs: seq<Field>, n: nat, i: nat)
    requires i < n <= |fs| && Encode(fs, n) <= msg && |Encode(fs, n)| < WRAP32
    ensures Inside(msg, ShapeOf(fs[i]), |Encode(fs, i)|)
    ensures DecodeField(msg, ShapeOf(fs[i]), |Encode(fs, i)|) == (fs[i], |Encode(fs, i + 1)|)
  {
    FieldLiesAt(msg, fs, n, i);
    FieldRoundTrip(msg, fs[i], |Encode(fs, i)|);
  }

  lemma DecodeNext(msg: Bytes, shapes: seq<Shape>, n: nat, got: seq<Field>, off: nat, f: Field, off': nat)
    requires n < |shapes| && Decode(msg, shapes, n) == Read(got, off)
    requires Inside(msg, shapes[n], off) && DecodeField(msg, shapes[n], off) == (f, off')
    ensures Decode(msg, shapes, n + 1) == Read(got + [f], off')
  {}

  lemma TakeNext(fs: seq<Field>, n: nat)
    requires n < |fs|
    ensures fs[..n] + [fs[n]] == fs[..n + 1]
  {}

  lemma {:induction false} PrefixRoundTrip(msg: Bytes, fs: seq<Field>, n: nat, i: nat)
    requires i <= n <= |fs| && Encode(fs, n) <= msg && |Encode(fs, n)| < WRAP32
    ensures Decode(msg, ShapesOf(fs), i) == Read(fs[..i], |Encode(fs, i)|)
    decreases i
  {
    if i > 0 {
      PrefixRoundTrip(msg, fs, n, i - 1);
      FieldReads(msg, fs, n, i - 1);
      DecodeNext(msg, ShapesOf(fs), i - 1, fs[..i - 1], |Encode(fs, i - 1)|, fs[i - 1], |Encode(fs, i)|);
      TakeNext(fs, i - 1);
    }
  }

  /** Fields read back in the order they were written, whatever lies behind them in the buffer. */
  lemma RoundTrip(msg: Bytes, fs: seq<Field>)
    requires |Encode(fs, |fs|)| < WRAP32 && Encode(fs, |fs|) <= msg
    ensures Decode(msg, ShapesOf(fs), |fs|) == Read(fs, |Encode(fs, |fs|)|)
  {
    PrefixRoundTrip(msg, fs, |fs|, |fs|);
    assert fs[..|fs|] == fs;
  }

  // ---- The code ----------------------------------------------------------------------------------

  class Cursor {
    var off: nat

    constructor ()
      ensures off == 0
    {
      off := 0;
    }
  }

  class Message {
    var magic: Byte
    var kind: Byte
    var nodeId: Byte
    var threadId: Byte
    var msgSize: nat
    const msg: array<Byte>

    ghost predicate Valid()
      reads this
    {
      msg.Length == CAPACITY && msgSize <= CAPACITY
    }

    /** What has been added since the last clear. */
    ghost function Contents(): Bytes
      requires Valid()
      reads this, msg
    {
      msg[..msgSize]
    }

    /** A message in a new buffer. */
    constructor ()
      ensures Valid() && fresh(msg) && Contents() == []
    {
      msg := new Byte[CAPACITY];
      msgSize := 0;
    }

    method Size() returns (r: nat)
      requires Valid()
      ensures r == HEADER + |Contents()| <= Rowan.MESSAGE_SIZE
    {
      r := HEADER + msgSize;
    }

    method Clear()
      requires Valid()
      modifies this`msgSize
      ensures Valid() && Contents() == []
    {
      msgSize := 0;
    }

    /** memcpy behind the contents. */
    method AddRaw(s: Bytes)
      requires Valid() && msgSize + |s| <= CAPACITY
      modifies this`msgSize, msg
      ensures Valid() && Contents() == old(Contents()) + EncodeField(Raw(s))
      ensures msgSize == old(msgSize) + |s| && msg[old(msgSize)..msgSize] == s
      ensures forall i :: 0 <= i < old(msgSize) || msgSize <= i < msg.Length ==> msg[i] == old(msg[i])
    {
      forall i | 0 <= i < |s| {
        msg[msgSize + i] := s[i];
      }
      msgSize := (msgSize + |s|) % WRAP16;
      assert msg[..msgSize] == old(msg[..msgSize]) + s;
    }

    /** `v` holds the bytes of a value of type T. */
    method Add(v: Bytes)
      requires Valid() && msgSize + |v| <= CAPACITY
      modifies this`msgSize, msg
      ensures Valid() && Contents() == old(Contents()) + EncodeField(Value(v))
      ensures msgSize == old(msgSize) + |v| && msg[old(msgSize)..msgSize] == v
      ensures forall i :: 0 <= i < old(msgSize) || msgSize <= i < msg.Length ==> msg[i] == old(msg[i])
    {
      AddRaw(v);
    }

    /** `add<uint32_t>` */
    method AddUint32(k: nat)
      requires Valid() && k < WRAP32 && msgSize + 4 <= CAPACITY
      modifies this`msgSize, msg
      ensures Valid() && Contents() == old(Contents()) + Encode32(k)
      ensures msgSize == old(msgSize) + 4
      ensures var at := old(msgSize);
              msg[at] as int + 0x100 * msg[at + 1] as int + 0x1_0000 * msg[at + 2] as int + 0x100_0000 * msg[at + 3] as int == k
      ensures forall i :: 0 <= i < old(msgSize) || msgSize <= i < msg.Length ==> msg[i] == old(msg[i])
    {
      hide Encode32;
      ghost var at := msgSize;
      LowestFirst(k);
      var e := Encode32(k);
      Add(e);
      assert forall i :: 0 <= i < 4 ==> msg[at + i] == msg[at..at + 4][i] == e[i];
    }

    method AddString(s: Bytes)
      requires Valid() && msgSize + 4 + |s| <= CAPACITY
      modifies this`msgSize, msg
      ensures Valid() && Contents() == old(Contents()) + EncodeField(Text(s))
      ensures msgSize == old(msgSize) + 4 + |s| && msg[old(msgSize) + 4..msgSize] == s
      ensures var at := old(msgSize);
              msg[at] as int + 0x100 * msg[at + 1] as int + 0x1_0000 * msg[at + 2] as int + 0x100_0000 * msg[at + 3] as int == |s|
      ensures forall i :: 0 <= i < old(msgSize) || msgSize <= i < msg.Length ==> msg[i] == old(msg[i])
    {
      hide Encode32;
      ghost var before := Contents();
      AddUint32(|s|);
      AddRaw(s);
      assert before + Encode32(|s|) + s == before + (Encode32(|s|) + s);
    }

    method Get(cur: Cursor, size: nat) returns (v: Bytes)
      requires Valid() && Inside(msg[..], ValueOf(size), cur.off)
      modifies cur
      ensures (Value(v), cur.off) == DecodeField(msg[..], ValueOf(size), old(cur.off))
      ensures v == msg[old(cur.off)..old(cur.off) + size] && cur.off == old(cur.off) + size
    {
      v := msg[cur.off..cur.off + size];
      cur.off := (cur.off + size) % WRAP32;
    }

    method GetRaw(cur: Cursor, size: nat) returns (s: Bytes)
      requires Valid() && Inside(msg[..], RawOf(size), cur.off)
      modifies cur
      ensures (Raw(s), cur.off) == DecodeField(msg[..], RawOf(size), old(cur.off))
      ensures s == msg[old(cur.off)..old(cur.off) + size] && cur.off == old(cur.off) + size
    {
      s := msg[cur.off..cur.off + size];
      cur.off := (cur.off + size) % WRAP32;
    }

    method GetString(cur: Cursor) returns (s: Bytes)
      requires Valid() && Inside(msg[..], AnyText, cur.off)
      modifies cur
      ensures (Text(s), cur.off) == DecodeField(msg[..], AnyText, old(cur.off))
      ensures var at := old(cur.off);
              var k := msg[at] as int + 0x100 * msg[at + 1] as int + 0x1_0000 * msg[at + 2] as int + 0x100_0000 * msg[at + 3] as int;
              at + 4 + k <= msg.Length && s == msg[at + 4..at + 4 + k] && cur.off == at + 4 + k
    {
      var b := msg[cur.off..cur.off + 4];
      assert b == msg[..][cur.off..cur.off + 4];
      var k := Decode32(b);
      s := msg[cur.off + 4..cur.off + 4 + k];
      cur.off := (cur.off + 4 + k) % WRAP32;
    }

    /** The whole message as it is sent. */
    ghost function Wire(): Bytes
      requires Valid()
      reads this, msg
    {
      var low: Byte := msgSize % 256;
      var high: Byte := msgSize / 256;
      [magic, kind, nodeId, threadId, low, high] + Contents()
    }

    /** The six bytes of the header at their places, the size with its low byte first, and then the contents. */
    lemma HeaderBytes()
      requires Valid()
      ensures |Wire()| == 6 + msgSize <= 4096 && Wire()[6..] == Contents()
      ensures Wire()[0] == magic && Wire()[1] == kind && Wire()[2] == nodeId && Wire()[3] == threadId
      ensures Wire()[4] as int + 256 * Wire()[5] as int == msgSize
    {}

    /** With a magic byte other than zero the message is one that the Rowan server can take. */
    lemma Sendable()
      requires Valid() && magic != 0
      ensures |Wire()| == 6 + msgSize && Rowan.ValidMessage(Wire())
      ensures 0 < |Wire()| <= 4096 && Wire()[0] == magic != 0
    {}

    /** A buffer with a message in it, as a receiver takes it. */
    constructor Received(buffer: Bytes)
      requires |buffer| == 4096 && 6 + buffer[4] as int + 256 * buffer[5] as int <= 4096
      ensures Valid() && fresh(msg) && msg[..] == buffer[6..]
      ensures magic == buffer[0] && kind == buffer[1] && nodeId == buffer[2] && threadId == buffer[3]
      ensures msgSize == buffer[4] as int + 256 * buffer[5] as int
    {
      magic, kind, nodeId, threadId := buffer[0], buffer[1], buffer[2], buffer[3];
      msgSize := buffer[4] as int + 256 * buffer[5] as int;
      msg := new Byte[CAPACITY](i requires 0 <= i < CAPACITY => buffer[HEADER + i]);
      new;
      assert msg[..] == buffer[6..];
    }
  }

  /** What is sent is what is received: all fields of the header and the contents, whatever the receiver's
      buffer holds behind them. */
  method Receive(m: Message, buffer: Bytes) returns (r: Message)
    requires m.Valid() && |buffer| == 4096 && m.Wire() <= buffer
    ensures fresh(r) && r.Valid() && r.Contents() == m.Contents() && r.Wire() == m.Wire()
    ensures r.magic == m.magic && r.kind == m.kind && r.nodeId == m.nodeId && r.threadId == m.threadId
    ensures r.msgSize == m.msgSize
  {
    m.HeaderBytes();
    assert forall i :: 0 <= i < |m.Wire()| ==> buffer[i] == m.Wire()[i];
    r := new Message.Received(buffer);
    assert r.Contents() == buffer[6..6 + m.msgSize] == m.Wire()[6..];
    r.HeaderBytes();
  }

  // ---- Whole sequences of calls ------------------------------------------------------------------

  method AddField(m: Message, f: Field)
    requires m.Valid() && m.msgSize + |EncodeField(f)| <= CAPACITY
    modifies m, m.msg
    ensures m.Valid() && m.Contents() == old(m.Contents()) + EncodeField(f)
  {
    match f {
      case Value(b) => m.Add(b);
      case Text(b) => m.AddString(b);
      case Raw(b) => m.AddRaw(b);
    }
  }

  /** Add all fields to a message, in order. */
  method Write(m: Message, fs: seq<Field>)
    requires m.Valid() && m.msgSize == 0 && |Encode(fs, |fs|)| <= CAPACITY
    modifies m, m.msg
    ensures m.Valid() && m.Contents() == Encode(fs, |fs|)
  {
    var i := 0;
    while i < |fs|
      invariant 0 <= i <= |fs| && m.Valid() && m.Contents() == Encode(fs, i)
    {
      EncodeNext(fs, i);
      AddField(m, fs[i]);
      i := i + 1;
    }
  }

  method GetField(m: Message, cur: Cursor, s: Shape) returns (f: Field)
    requires m.Valid() && Inside(m.msg[..], s, cur.off)
    modifies cur
    ensures (f, cur.off) == DecodeField(m.msg[..], s, old(cur.off))
  {
    match s {
      case ValueOf(n) => var b := m.Get(cur, n); f := Value(b);
      case AnyText => var b := m.GetString(cur); f := Text(b);
      case RawOf(n) => var b := m.GetRaw(cur, n); f := Raw(b);
    }
  }

  method GetNext(m: Message, cur: Cursor, ghost fs: seq<Field>, ghost i: nat, s: Shape) returns (f: Field)
    requires m.Valid() && i < |fs| && s == ShapeOf(fs[i]) && m.Contents() == Encode(fs, |fs|)
    requires cur.off == |Encode(fs, i)|
    modifies cur
    ensures f == fs[i] && cur.off == |Encode(fs, i + 1)|
  {
    assert m.Contents() <= m.msg[..];
    FieldReads(m.msg[..], fs, |fs|, i);
    f := GetField(m, cur, s);
  }

  /** A reader that knows what was written gets all of it back and ends behind the last byte. */
  method ReadBack(m: Message, cur: Cursor, ghost fs: seq<Field>, shapes: seq<Shape>) returns (got: seq<Field>)
    requires m.Valid() && cur.off == 0 && m.Contents() == Encode(fs, |fs|) && shapes == ShapesOf(fs)
    modifies cur
    ensures got == fs && cur.off == m.msgSize
  {
    got := [];
    var i := 0;
    while i < |shapes|
      invariant 0 <= i <= |shapes| && got == fs[..i] && cur.off == |Encode(fs, i)|
    {
      var f := GetNext(m, cur, fs, i, shapes[i]);
      TakeNext(fs, i);
      got := got + [f];
      i := i + 1;
    }
  }
}
