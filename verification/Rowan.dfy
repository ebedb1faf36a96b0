/** The Rowan server and the network card that appends to its memory, as a transition system.
    The server polls one byte of the next segment and recycles the one behind it in separate
    steps; between any two of them the card may place messages. */
module Rowan {
  import opened RawMemory
  import opened Srq

  const SEGMENTS := 36          // kSrqBufferCnt
  const STRIDE := 64            // 1 << kLogStrideBytes
  const SEGMENT_SIZE := 65536   // kStrideBufSize: 1 << kLogNumStrides strides
  const MESSAGE_SIZE := 4096

  type Message = seq<Byte>
  type Image = seq<Byte>

  /** What clients send: up to MESSAGE_SIZE bytes, the first one (`magic`) not zero. */
  predicate ValidMessage(m: Message) {
    0 < |m| <= MESSAGE_SIZE && m[0] != 0
  }

  datatype Pc =
    | InitClear(k: nat) | InitPost(k: nat)  // the loop that hands out all segments
    | Poll | FreeEntry | Clear | Repost     // the endless loop
    | Failed                                // the post routine found the list exhausted

  /** The card: how many posts it has taken, where in the list it is, and where it writes. */
  datatype Nic = Nic(taken: nat, entry: nat, seg: nat, used: nat)

  /** `head` and `entry` are the server's variables head and mlx5_srq_head. The rest is
      auxiliary: how often the server posted, cleared and freed, what arrived, which messages
      went to which post, and what every recycled segment held just before it was cleared. */
  datatype State = State(
    pc: Pc, head: nat, entry: nat, queue: Queue, nic: Nic, mem: seq<Image>,
    posts: nat, clears: nat, frees: nat,
    arrivals: seq<Message>, logs: seq<seq<Message>>, archive: seq<Image>)

  predicate WellFormed(s: State) {
    && Shaped(s.queue) && s.head < SEGMENTS && s.entry < ENTRIES
    && s.nic.entry < ENTRIES && s.nic.seg < SEGMENTS && s.nic.used <= SEGMENT_SIZE
    && |s.mem| == SEGMENTS && (forall g :: 0 <= g < SEGMENTS ==> |s.mem[g]| == SEGMENT_SIZE)
    && (s.pc.InitClear? || s.pc.InitPost? ==> s.pc.k < SEGMENTS)
    && |s.logs| == s.nic.taken
    && (forall i :: 0 <= i < ENTRIES ==> s.queue.seg[i] < SEGMENTS)
  }

  /** The memory starts with arbitrary contents. */
  predicate Init(s: State) {
    && |s.mem| == SEGMENTS && (forall g :: 0 <= g < SEGMENTS ==> |s.mem[g]| == SEGMENT_SIZE)
    && s == State(InitClear(0), 0, 0, NewQueue(), Nic(0, 0, 0, 0), s.mem, 0, 0, 0, [], [], [])
  }

  // ---- Server steps ----------------------------------------------------------------------------

  function ClearFirst(image: Image): (r: Image)
    requires |image| == SEGMENT_SIZE
    ensures |r| == SEGMENT_SIZE
  {
    image[0 := 0]
  }

  /** `ep->recv(seg)` and then `after`. */
  function PostSegment(s: State, seg: nat, after: Pc): State
    requires WellFormed(s)
  {
    if Exhausted(s.queue) then s.(pc := Failed)
    else s.(queue := Post(s.queue, seg), posts := s.posts + 1, pc := after)
  }

  function NextHead(head: nat): nat {
    (head + 1) % SEGMENTS
  }

  /** One step of raw_manage_srq. */
  function ServerStep(s: State): State
    requires WellFormed(s)
  {
    match s.pc
    case InitClear(k) =>
      s.(mem := s.mem[k := ClearFirst(s.mem[k])], clears := s.clears + 1, pc := InitPost(k))
    case InitPost(k) =>
      PostSegment(s, k, if k + 1 < SEGMENTS then InitClear(k + 1) else Poll)
    case Poll =>
      if s.mem[NextHead(s.head)][0] != 0 then s.(pc := FreeEntry) else s
    case FreeEntry =>
      s.(queue := Free(s.queue, s.entry), entry := (s.entry + 1) % ENTRIES, frees := s.frees + 1, pc := Clear)
    case Clear =>
      s.(mem := s.mem[s.head := ClearFirst(s.mem[s.head])], archive := s.archive + [s.mem[s.head]],
         clears := s.clears + 1, pc := Repost)
    case Repost =>
      PostSegment(s, s.head, Poll).(head := NextHead(s.head))
    case Failed => s
  }

  // ---- Card steps ------------------------------------------------------------------------------

  /** The bytes that a message of length `n` occupies: whole strides. */
  function Strides(n: nat): (r: nat)
    ensures n <= r < n + STRIDE && r % STRIDE == 0
  {
    (n + STRIDE - 1) / STRIDE * STRIDE
  }

  /** The current segment has room. */
  predicate Fits(s: State, m: Message) {
    s.nic.taken > 0 && s.nic.used + Strides(|m|) <= SEGMENT_SIZE
  }

  /** The card can place `m` now; otherwise the sender's transport retries later. */
  predicate CanPlace(s: State, m: Message) {
    ValidMessage(m) && (Fits(s, m) || s.nic.taken < s.posts)
  }

  /** Leave the current segment and take the next posted one. */
  function TakeNext(s: State): State
    requires WellFormed(s)
  {
    s.(nic := Nic(s.nic.taken + 1, s.queue.next[s.nic.entry], s.queue.seg[s.nic.entry], 0), logs := s.logs + [[]])
  }

  /** Append `m` to the current segment. */
  function Append(s: State, m: Message): State
    requires WellFormed(s) && ValidMessage(m) && Fits(s, m)
  {
    var last := s.nic.taken - 1;
    s.(nic := s.nic.(used := s.nic.used + Strides(|m|)),
       mem := s.mem[s.nic.seg := WriteAt(s.mem[s.nic.seg], s.nic.used, m)],
       arrivals := s.arrivals + [m],
       logs := s.logs[last := s.logs[last] + [m]])
  }

  function Place(s: State, m: Message): State
    requires WellFormed(s) && CanPlace(s, m)
  {
    if Fits(s, m) then Append(s, m) else Append(TakeNext(s), m)
  }

  // ---- Reading segments ------------------------------------------------------------------------

  /** The end of the messages with lengths `lens` placed from `off` on. */
  function End(lens: seq<nat>, off: nat): (r: nat)
    ensures r >= off
    decreases |lens|
  {
    if lens == [] then off else End(lens[1..], off + Strides(lens[0]))
  }

  /** The messages with lengths `lens` found in `image` from `off` on. */
  function ReadSegment(image: Image, lens: seq<nat>, off: nat): seq<Message>
    requires End(lens, off) <= |image|
    decreases |lens|
  {
    if lens == [] then [] else [image[off..off + lens[0]]] + ReadSegment(image, lens[1..], off + Strides(lens[0]))
  }

  function Lengths(log: seq<Message>): (lens: seq<nat>)
    ensures |lens| == |log|
  {
    seq(|log|, i requires 0 <= i < |log| => |log[i]|)
  }

  function Flatten(logs: seq<seq<Message>>): seq<Message> {
    if logs == [] then [] else Flatten(logs[..|logs| - 1]) + logs[|logs| - 1]
  }

  lemma {:induction false} EndAppend(lens: seq<nat>, n: nat, off: nat)
    ensures End(lens + [n], off) == End(lens, off) + Strides(n)
    decreases |lens|
  {
    if lens == [] {
      assert (lens + [n])[1..] == [];
    } else {
      assert (lens + [n])[1..] == lens[1..] + [n];
      EndAppend(lens[1..], n, off + Strides(lens[0]));
    }
  }

  /** Reading depends only on the bytes before the end of the messages. */
  lemma {:induction false} ReadFrame(a: Image, b: Image, lens: seq<nat>, off: nat)
    requires |a| == |b| && End(lens, off) <= |a|
    requires a[off..End(lens, off)] == b[off..End(lens, off)]
    ensures ReadSegment(a, lens, off) == ReadSegment(b, lens, off)
    decreases |lens|
  {
    if lens != [] {
      var end, mid := End(lens, off), off + Strides(lens[0]);
      assert a[off..off + lens[0]] == a[off..end][..lens[0]];
      assert b[off..off + lens[0]] == b[off..end][..lens[0]];
      assert a[mid..end] == a[off..end][mid - off..] && b[mid..end] == b[off..end][mid - off..];
      ReadFrame(a, b, lens[1..], mid);
    }
  }

  lemma {:induction false} ReadAppend(image: Image, lens: seq<nat>, n: nat, off: nat)
    requires End(lens, off) + Strides(n) <= |image|
    ensures End(lens + [n], off) == End(lens, off) + Strides(n)
    ensures ReadSegment(image, lens + [n], off) == ReadSegment(image, lens, off) + [image[End(lens, off)..End(lens, off) + n]]
    decreases |lens|
  {
    EndAppend(lens, n, off);
    if lens == [] {
      assert (lens + [n])[1..] == [];
    } else {
      assert (lens + [n])[1..] == lens[1..] + [n];
      ReadAppend(image, lens[1..], n, off + Strides(lens[0]));
    }
  }

  // ---- Invariant ------------------------------------------------------------------------------

  /** How many posts' segments have been cleared for reuse. */
  function Recycled(s: State): nat {
    if s.clears < SEGMENTS then 0 else s.clears - SEGMENTS
  }

  /** Where the program counter is tells how far the counters are apart. */
  ghost predicate PcInv(s: State) {
    match s.pc
    case InitClear(k) => s.clears == s.posts == k && s.frees == 0 && s.head == s.entry == 0
    case InitPost(k) => s.clears == k + 1 && s.posts == k && s.frees == 0 && s.head == s.entry == 0
    case Poll => s.clears == s.posts == SEGMENTS + s.frees && s.head == s.frees % SEGMENTS && s.entry == s.frees % ENTRIES
    case FreeEntry =>
      && s.clears == s.posts == SEGMENTS + s.frees && s.head == s.frees % SEGMENTS && s.entry == s.frees % ENTRIES
      && s.nic.taken >= s.frees + 2
    case Clear =>
      && s.frees > 0 && s.clears == s.posts == SEGMENTS + s.frees - 1 && s.head == (s.frees - 1) % SEGMENTS
      && s.entry == s.frees % ENTRIES && s.nic.taken >= s.frees + 1
    case Repost =>
      && s.frees > 0 && s.clears == SEGMENTS + s.frees && s.posts == s.clears - 1
      && s.head == (s.frees - 1) % SEGMENTS && s.entry == s.frees % ENTRIES && s.nic.taken >= s.frees + 1
    case Failed => false
  }

  ghost predicate NicInv(s: State) {
    && s.nic.taken <= s.posts && s.nic.entry == s.nic.taken % ENTRIES
    && (s.nic.taken > 0 ==> s.nic.taken > Recycled(s) && s.nic.seg == (s.nic.taken - 1) % SEGMENTS)
    && (s.nic.taken == 0 ==> Recycled(s) == 0)
  }

  /** The posts whose segment currently belongs to them: cleared for them and not yet for a later one. */
  predicate Owns(s: State, t: nat) {
    Recycled(s) <= t < s.clears
  }

  /** The first byte of a segment tells whether the post that owns it has been started. */
  ghost predicate FlagInv(s: State)
    requires WellFormed(s)
  {
    forall t: nat :: Owns(s, t) ==> (s.mem[t % SEGMENTS][0] != 0 <==> t < s.nic.taken)
  }

  /** What the segment of post `t` holds, or held when it was recycled. */
  function ImageOf(s: State, t: nat): Image
    requires WellFormed(s)
  {
    if t < |s.archive| then s.archive[t] else s.mem[t % SEGMENTS]
  }

  /** The segment of post `t` holds the messages of its log, one after the other. */
  ghost predicate Holds(image: Image, log: seq<Message>) {
    && |image| == SEGMENT_SIZE && End(Lengths(log), 0) <= SEGMENT_SIZE
    && ReadSegment(image, Lengths(log), 0) == log
  }

  ghost predicate LogInv(s: State)
    requires WellFormed(s)
  {
    && |s.archive| == Recycled(s)
    && s.arrivals == Flatten(s.logs)
    && (forall t :: 0 <= t < s.nic.taken ==> Holds(ImageOf(s, t), s.logs[t]))
    && (s.nic.taken > 0 ==> s.nic.used == End(Lengths(s.logs[s.nic.taken - 1]), 0) && s.nic.used > 0)
  }

  /** The part of the invariant about counters and the list of entries. */
  ghost predicate QueueInv(s: State) {
    WellFormed(s) && PcInv(s) && Rolling(s.queue, SEGMENTS, s.posts, s.frees) && NicInv(s)
  }

  ghost predicate Inv(s: State) {
    QueueInv(s) && FlagInv(s) && LogInv(s)
  }
}
