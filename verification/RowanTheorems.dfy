/** What the Rowan server guarantees in every interleaving with the card. */
module RowanTheorems {
  import opened RawMemory
  import opened Srq
  import opened Rowan

  // ---- Server steps keep the invariant ---------------------------------------------------------

  lemma SegmentsApart(i: nat, j: nat)
    requires i < j < i + SEGMENTS
    ensures i % SEGMENTS != j % SEGMENTS
  {}

  /** Clearing a segment that the card has left, or was never given, disturbs no live message. */
  lemma ClearKeepsFlags(s: State, s': State)
    requires WellFormed(s) && WellFormed(s') && FlagInv(s)
    requires s'.clears == s.clears + 1 && s'.nic == s.nic && s.nic.taken <= s.clears
    requires var g := s.clears % SEGMENTS; s'.mem == s.mem[g := ClearFirst(s.mem[g])]
    ensures FlagInv(s')
  {
    forall t: nat | Owns(s', t)
      ensures s'.mem[t % SEGMENTS][0] != 0 <==> t < s'.nic.taken
    {
      if t < s.clears {
        SegmentsApart(t, s.clears);
        assert Owns(s, t);
      }
    }
  }

  lemma InitClearKeepsInv(s: State)
    requires Inv(s) && s.pc.InitClear?
    ensures Inv(ServerStep(s))
  {
    var s' := ServerStep(s);
    assert s.clears % SEGMENTS == s.pc.k;
    ClearKeepsFlags(s, s');
    forall t | 0 <= t < s'.nic.taken
      ensures Holds(ImageOf(s', t), s'.logs[t])
    {
      assert t != s.pc.k;
    }
  }

  /** How far the counters can be apart, wherever the server is. */
  lemma Counters(s: State)
    requires WellFormed(s) && PcInv(s)
    ensures s.posts <= s.clears <= s.posts + 1 && s.clears <= Recycled(s) + SEGMENTS
    ensures Recycled(s) <= s.frees <= Recycled(s) + 1 && s.frees <= s.posts <= s.frees + SEGMENTS
  {}

  /** A step that touches neither memory nor what arrived. */
  lemma QuietStep(s: State, s': State)
    requires WellFormed(s) && FlagInv(s) && LogInv(s) && WellFormed(s')
    requires s'.mem == s.mem && s'.nic == s.nic && s'.clears == s.clears
    requires s'.arrivals == s.arrivals && s'.logs == s.logs && s'.archive == s.archive
    ensures FlagInv(s') && LogInv(s')
  {
    assert forall t :: 0 <= t < s.nic.taken ==> ImageOf(s', t) == ImageOf(s, t);
    assert forall t: nat :: Owns(s', t) <==> Owns(s, t);
  }

  lemma InitPostKeepsQueue(s: State)
    requires QueueInv(s) && s.pc.InitPost?
    ensures QueueInv(ServerStep(s))
  {
    PostRolls(s.queue, SEGMENTS, s.posts, s.frees);
  }

  lemma InitPostKeepsInv(s: State)
    requires Inv(s) && s.pc.InitPost?
    ensures Inv(ServerStep(s))
  {
    InitPostKeepsQueue(s);
    QuietStep(s, ServerStep(s));
  }

  /** The polled byte belongs to the post after the one that the server recycles next. */
  lemma PolledFlag(s: State)
    requires WellFormed(s) && PcInv(s) && FlagInv(s) && s.pc.Poll?
    ensures s.mem[NextHead(s.head)][0] != 0 <==> s.nic.taken >= s.frees + 2
  {
    NextSegment(s.frees);
    assert Owns(s, s.frees + 1);
  }

  lemma NextSegment(f: nat)
    ensures NextHead(f % SEGMENTS) == (f + 1) % SEGMENTS
  {}

  lemma PollKeepsQueue(s: State)
    requires QueueInv(s) && FlagInv(s) && s.pc.Poll?
    ensures QueueInv(ServerStep(s))
  {
    PolledFlag(s);
  }

  lemma PollKeepsInv(s: State)
    requires Inv(s) && s.pc.Poll?
    ensures Inv(ServerStep(s))
  {
    PollKeepsQueue(s);
    QuietStep(s, ServerStep(s));
  }

  lemma FreeKeepsQueue(s: State)
    requires QueueInv(s) && s.pc.FreeEntry?
    ensures QueueInv(ServerStep(s))
  {
    FreeRolls(s.queue, SEGMENTS, s.posts, s.frees);
    ModNext(s.frees);
  }

  lemma FreeKeepsInv(s: State)
    requires Inv(s) && s.pc.FreeEntry?
    ensures Inv(ServerStep(s))
  {
    FreeKeepsQueue(s);
    QuietStep(s, ServerStep(s));
  }

  lemma ClearKeepsQueue(s: State)
    requires QueueInv(s) && s.pc.Clear?
    ensures QueueInv(ServerStep(s)) && s.clears % SEGMENTS == s.head
  {
    assert s.clears == (s.frees - 1) + SEGMENTS;
  }

  /** The image that is archived belongs to the post whose segment is cleared. */
  lemma ClearKeepsImages(s: State, t: nat)
    requires WellFormed(s) && PcInv(s) && NicInv(s) && s.pc.Clear? && |s.archive| == Recycled(s)
    requires t < s.nic.taken && s.clears % SEGMENTS == s.head && WellFormed(ServerStep(s))
    ensures ImageOf(ServerStep(s), t) == ImageOf(s, t)
  {
    if t > |s.archive| {
      SegmentsApart(|s.archive|, t);
    }
    assert |s.archive| % SEGMENTS == s.head;
  }

  lemma ClearKeepsLogs(s: State)
    requires WellFormed(s) && PcInv(s) && NicInv(s) && LogInv(s) && s.pc.Clear?
    requires s.clears % SEGMENTS == s.head && WellFormed(ServerStep(s))
    ensures LogInv(ServerStep(s))
  {
    forall t: nat | t < s.nic.taken
      ensures ImageOf(ServerStep(s), t) == ImageOf(s, t)
    {
      ClearKeepsImages(s, t);
    }
  }

  lemma ClearKeepsInv(s: State)
    requires Inv(s) && s.pc.Clear?
    ensures Inv(ServerStep(s))
  {
    ClearKeepsQueue(s);
    ClearKeepsFlags(s, ServerStep(s));
    ClearKeepsLogs(s);
  }

  lemma RepostCounters(s: State)
    requires WellFormed(s) && PcInv(s) && s.pc.Repost?
    ensures s.posts % SEGMENTS == s.head && NextHead(s.head) == s.frees % SEGMENTS
  {
    NextSegment(s.frees - 1);
  }

  lemma RepostKeepsQueue(s: State)
    requires QueueInv(s) && s.pc.Repost?
    ensures QueueInv(ServerStep(s))
  {
    RepostCounters(s);
    PostRolls(s.queue, SEGMENTS, s.posts, s.frees);
  }

  lemma RepostKeepsInv(s: State)
    requires Inv(s) && s.pc.Repost?
    ensures Inv(ServerStep(s))
  {
    RepostKeepsQueue(s);
    QuietStep(s, ServerStep(s));
  }

  lemma ServerKeepsInv(s: State)
    requires Inv(s)
    ensures Inv(ServerStep(s))
  {
    match s.pc
    case InitClear(_) => InitClearKeepsInv(s);
    case InitPost(_) => InitPostKeepsInv(s);
    case Poll => PollKeepsInv(s);
    case FreeEntry => FreeKeepsInv(s);
    case Clear => ClearKeepsInv(s);
    case Repost => RepostKeepsInv(s);
  }

  // ---- Card steps keep the invariant -----------------------------------------------------------

  /** A message written behind the ones already there is read after them. */
  lemma WriteExtends(image: Image, log: seq<Message>, m: Message)
    requires ValidMessage(m) && |image| == SEGMENT_SIZE
    requires End(Lengths(log), 0) + Strides(|m|) <= SEGMENT_SIZE
    requires ReadSegment(image, Lengths(log), 0) == log
    ensures var image' := WriteAt(image, End(Lengths(log), 0), m);
            Holds(image', log + [m]) && End(Lengths(log + [m]), 0) == End(Lengths(log), 0) + Strides(|m|)
  {
    var off := End(Lengths(log), 0);
    var image' := WriteAt(image, off, m);
    assert Lengths(log + [m]) == Lengths(log) + [|m|];
    ReadAppend(image', Lengths(log), |m|, 0);
    assert image[0..off] == image'[0..off];
    ReadFrame(image, image', Lengths(log), 0);
    assert image'[off..off + |m|] == m;
  }

  lemma FlattenExtends(logs: seq<seq<Message>>, m: Message)
    requires logs != []
    ensures var last := |logs| - 1; Flatten(logs[last := logs[last] + [m]]) == Flatten(logs) + [m]
  {
    var last := |logs| - 1;
    assert logs[last := logs[last] + [m]][..last] == logs[..last];
  }

  /** Where a message goes: into the segment of post `last`, from `off` on. */
  ghost predicate PlacedAt(s: State, m: Message, last: nat, off: nat)
    requires WellFormed(s) && CanPlace(s, m)
  {
    && Owns(s, last) && last < s.posts && off + Strides(|m|) <= SEGMENT_SIZE
    && var s' := Place(s, m);
       && s'.nic == Nic(last + 1, (last + 1) % ENTRIES, last % SEGMENTS, off + Strides(|m|))
       && s'.mem == s.mem[last % SEGMENTS := WriteAt(s.mem[last % SEGMENTS], off, m)]
       && s'.arrivals == s.arrivals + [m]
       && s'.logs == (if last == s.nic.taken then s.logs + [[m]] else s.logs[last := s.logs[last] + [m]])
       && s' == s.(nic := s'.nic, mem := s'.mem, arrivals := s'.arrivals, logs := s'.logs)
  }

  lemma PlaceInCurrent(s: State, m: Message)
    requires WellFormed(s) && PcInv(s) && NicInv(s) && CanPlace(s, m) && Fits(s, m)
    ensures PlacedAt(s, m, s.nic.taken - 1, s.nic.used)
  {
    Counters(s);
  }

  lemma TakenSegment(q: Queue, p: nat, f: nat, t: nat)
    requires Rolling(q, SEGMENTS, p, f) && f <= t < p
    ensures q.seg[t % ENTRIES] == t % SEGMENTS && q.next[t % ENTRIES] == (t + 1) % ENTRIES
  {
    ModNext(t);
  }

  lemma PlaceInNext(s: State, m: Message)
    requires WellFormed(s) && PcInv(s) && NicInv(s) && CanPlace(s, m) && !Fits(s, m)
    requires var t := s.nic.taken; s.queue.seg[t % ENTRIES] == t % SEGMENTS && s.queue.next[t % ENTRIES] == (t + 1) % ENTRIES
    ensures PlacedAt(s, m, s.nic.taken, 0)
  {
    Counters(s);
    var t := TakeNext(s);
    var last := s.nic.taken;
    assert t.logs[last] == [] && [] + [m] == [m];
    assert t.logs[last := [m]] == s.logs + [[m]];
  }

  lemma PlaceKeepsCounters(s: State, m: Message, last: nat, off: nat)
    requires WellFormed(s) && PcInv(s) && NicInv(s) && CanPlace(s, m) && PlacedAt(s, m, last, off)
    requires last == s.nic.taken || last == s.nic.taken - 1
    ensures WellFormed(Place(s, m)) && PcInv(Place(s, m)) && NicInv(Place(s, m))
  {
    Counters(s);
  }

  lemma PlaceKeepsQueue(s: State, m: Message, last: nat, off: nat)
    requires QueueInv(s) && CanPlace(s, m) && PlacedAt(s, m, last, off)
    requires last == s.nic.taken || last == s.nic.taken - 1
    ensures QueueInv(Place(s, m))
  {
    PlaceKeepsCounters(s, m, last, off);
    var s' := Place(s, m);
    assert s'.queue == s.queue && s'.posts == s.posts && s'.frees == s.frees;
  }

  /** Other owned segments are not written. */
  lemma PlaceFrame(s: State, m: Message, last: nat, off: nat, t: nat)
    requires WellFormed(s) && PcInv(s) && CanPlace(s, m) && PlacedAt(s, m, last, off) && Owns(s, t) && t != last
    ensures Place(s, m).mem[t % SEGMENTS] == s.mem[t % SEGMENTS]
  {
    Counters(s);
    if t < last {
      SegmentsApart(t, last);
    } else {
      SegmentsApart(last, t);
    }
  }

  lemma PlaceFlags(s: State, m: Message, last: nat, off: nat)
    requires WellFormed(s) && PcInv(s) && FlagInv(s)
    requires CanPlace(s, m) && PlacedAt(s, m, last, off) && WellFormed(Place(s, m))
    requires (off == 0 && last == s.nic.taken) || (off > 0 && last == s.nic.taken - 1)
    ensures FlagInv(Place(s, m))
  {
    var s' := Place(s, m);
    forall t: nat | Owns(s', t)
      ensures s'.mem[t % SEGMENTS][0] != 0 <==> t < s'.nic.taken
    {
      assert Owns(s, t);
      if t != last {
        PlaceFrame(s, m, last, off, t);
      } else {
        WriteFirst(s.mem[last % SEGMENTS], off, m);
      }
    }
  }

  lemma WriteFirst(image: Image, off: nat, m: Message)
    requires ValidMessage(m) && off + |m| <= |image|
    ensures WriteAt(image, off, m)[0] == if off == 0 then m[0] else image[0]
  {}

  /** The images of the other posts. */
  lemma PlaceKeepsImages(s: State, m: Message, last: nat, off: nat, t: nat)
    requires WellFormed(s) && PcInv(s) && NicInv(s) && |s.archive| == Recycled(s)
    requires CanPlace(s, m) && PlacedAt(s, m, last, off) && WellFormed(Place(s, m)) && t < s.nic.taken && t != last
    ensures ImageOf(Place(s, m), t) == ImageOf(s, t)
  {
    Counters(s);
    if t >= |s.archive| {
      PlaceFrame(s, m, last, off, t);
    }
  }

  lemma LastLog(s: State, m: Message, last: nat, log: seq<Message>)
    requires WellFormed(s) && |s.archive| == Recycled(s)
    requires CanPlace(s, m) && PlacedAt(s, m, last, End(Lengths(log), 0)) && WellFormed(Place(s, m))
    requires if last == s.nic.taken then log == [] else last == s.nic.taken - 1 && log == s.logs[last]
    requires last < s.nic.taken ==> Holds(ImageOf(s, last), log)
    ensures var s' := Place(s, m);
            && last < |s'.logs| && s'.logs[last] == log + [m] && Holds(ImageOf(s', last), s'.logs[last])
            && s'.nic.used == End(Lengths(s'.logs[last]), 0)
  {
    WriteExtends(s.mem[last % SEGMENTS], log, m);
  }

  lemma PlaceArrivals(s: State, m: Message, last: nat, off: nat)
    requires WellFormed(s) && s.arrivals == Flatten(s.logs) && CanPlace(s, m) && PlacedAt(s, m, last, off)
    requires last == s.nic.taken || last == s.nic.taken - 1
    ensures Place(s, m).arrivals == Flatten(Place(s, m).logs)
  {
    var s' := Place(s, m);
    if last == s.nic.taken {
      assert s'.logs[..last] == s.logs;
    } else {
      FlattenExtends(s.logs, m);
    }
  }

  lemma PlaceLogs(s: State, m: Message, last: nat, off: nat)
    requires WellFormed(s) && PcInv(s) && NicInv(s) && LogInv(s)
    requires CanPlace(s, m) && PlacedAt(s, m, last, off) && WellFormed(Place(s, m))
    requires if last == s.nic.taken then off == 0 else last == s.nic.taken - 1 && off == s.nic.used
    ensures LogInv(Place(s, m))
  {
    var s' := Place(s, m);
    LastLog(s, m, last, if last == s.nic.taken then [] else s.logs[last]);
    PlaceArrivals(s, m, last, off);
    forall t: nat | t < s'.nic.taken && t != last
      ensures ImageOf(s', t) == ImageOf(s, t) && s'.logs[t] == s.logs[t]
    {
      PlaceKeepsImages(s, m, last, off, t);
    }
  }

  lemma PlacedKeepsInv(s: State, m: Message, last: nat, off: nat)
    requires Inv(s) && CanPlace(s, m) && PlacedAt(s, m, last, off)
    requires if last == s.nic.taken then off == 0 else last == s.nic.taken - 1 && off == s.nic.used > 0
    ensures Inv(Place(s, m))
  {
    PlaceKeepsQueue(s, m, last, off);
    PlaceFlags(s, m, last, off);
    PlaceLogs(s, m, last, off);
  }

  /** The card has room in the segment it is in. */
  lemma AppendKeepsInv(s: State, m: Message)
    requires Inv(s) && CanPlace(s, m) && Fits(s, m)
    ensures Inv(Place(s, m))
  {
    PlaceInCurrent(s, m);
    PlacedKeepsInv(s, m, s.nic.taken - 1, s.nic.used);
  }

  lemma NextEntry(s: State)
    requires QueueInv(s) && s.nic.taken < s.posts
    ensures var t := s.nic.taken; s.queue.seg[t % ENTRIES] == t % SEGMENTS && s.queue.next[t % ENTRIES] == (t + 1) % ENTRIES
  {
    Counters(s);
    TakenSegment(s.queue, s.posts, s.frees, s.nic.taken);
  }

  lemma PlaceKeepsInv(s: State, m: Message)
    requires Inv(s) && CanPlace(s, m)
    ensures Inv(Place(s, m))
  {
    if Fits(s, m) {
      AppendKeepsInv(s, m);
    } else {
      NextEntry(s);
      PlaceInNext(s, m);
      PlacedKeepsInv(s, m, s.nic.taken, 0);
    }
  }
}
