/** The Rowan server over whole runs: any interleaving of server steps and arriving messages. */
module RowanRuns {
  import opened Srq
  import opened Rowan
  import opened RowanTheorems

  datatype Event = Server | Arrive(m: Message)

  /** A message that finds no room is not placed: its sender has to try again. */
  function Next(s: State, e: Event): State
    requires WellFormed(s)
  {
    match e
    case Server => ServerStep(s)
    case Arrive(m) => if CanPlace(s, m) then Place(s, m) else s
  }

  lemma NextWellFormed(s: State, e: Event)
    requires WellFormed(s)
    ensures WellFormed(Next(s, e))
  {}

  ghost function Run(s: State, es: seq<Event>): (r: State)
    requires WellFormed(s)
    ensures WellFormed(r)
    decreases |es|
  {
    if es == [] then s
    else
      NextWellFormed(s, es[0]);
      Run(Next(s, es[0]), es[1..])
  }

  lemma InitHasInv(s: State)
    requires Init(s)
    ensures Inv(s)
  {
    NewQueueRolls(SEGMENTS);
  }

  lemma NextKeepsInv(s: State, e: Event)
    requires Inv(s)
    ensures Inv(Next(s, e))
  {
    match e
    case Server => ServerKeepsInv(s);
    case Arrive(m) => if CanPlace(s, m) { PlaceKeepsInv(s, m); }
  }

  lemma {:induction false} RunKeepsInv(s: State, es: seq<Event>)
    requires Inv(s)
    ensures Inv(Run(s, es))
    decreases |es|
  {
    if es != [] {
      NextKeepsInv(s, es[0]);
      RunKeepsInv(Next(s, es[0]), es[1..]);
    }
  }

  ghost predicate Reachable(s: State) {
    exists s0: State, es: seq<Event> :: Init(s0) && WellFormed(s0) && s == Run(s0, es)
  }

  lemma ReachableInv(s: State)
    requires Reachable(s)
    ensures Inv(s)
  {
    var s0: State, es: seq<Event> :| Init(s0) && WellFormed(s0) && s == Run(s0, es);
    InitHasInv(s0);
    RunKeepsInv(s0, es);
  }

  lemma {:induction false} RunConcat(s: State, a: seq<Event>, b: seq<Event>)
    requires WellFormed(s)
    ensures Run(s, a + b) == Run(Run(s, a), b)
    decreases |a|
  {
    if a == [] {
      assert a + b == b;
    } else {
      assert (a + b)[1..] == a[1..] + b;
      NextWellFormed(s, a[0]);
      RunConcat(Next(s, a[0]), a[1..], b);
    }
  }

  // ---- Posting -----------------------------------------------------------------------------------

  /** The server is about to post. */
  predicate Posting(s: State) {
    s.pc.InitPost? || s.pc.Repost?
  }

  /** No run fails; the t-th post takes entry t mod 128 and names segment t mod 36. */
  lemma PostsNeverFail(s: State)
    requires Reachable(s)
    ensures !s.pc.Failed? && !ServerStep(s).pc.Failed?
    ensures Posting(s) ==>
              var t := s.posts;
              && !Exhausted(s.queue) && s.queue.head == t % 128 && ServerStep(s).posts == t + 1
              && ServerStep(s).queue.seg[t % 128] == t % 36
  {
    ReachableInv(s);
    ServerKeepsInv(s);
    if s.pc.InitPost? {
      InitPostRoom(s);
    } else if s.pc.Repost? {
      RepostRoom(s);
    }
  }

  lemma InitPostRoom(s: State)
    requires QueueInv(s) && s.pc.InitPost?
    ensures !Exhausted(s.queue) && s.posts % SEGMENTS == s.pc.k && s.posts % ENTRIES == s.queue.head
  {
    PostRolls(s.queue, SEGMENTS, s.posts, s.frees);
  }

  lemma RepostRoom(s: State)
    requires QueueInv(s) && s.pc.Repost?
    ensures !Exhausted(s.queue) && s.posts % SEGMENTS == s.head && s.posts % ENTRIES == s.queue.head
  {
    RepostCounters(s);
    PostRolls(s.queue, SEGMENTS, s.posts, s.frees);
  }

  /** The list of entries is always the one cycle 0, 1, ..., 127 and back. */
  lemma ListStaysCycle(s: State, i: nat)
    requires Reachable(s) && i < 128
    ensures |s.queue.next| == 128 && s.queue.next[i] == (i + 1) % 128
  {
    ReachableInv(s);
  }

  /** The entry that is freed describes the segment that is sealed. */
  lemma FreedEntryMatches(s: State)
    requires Reachable(s) && s.pc.FreeEntry?
    ensures s.entry == s.frees % 128 && s.queue.seg[s.entry] == s.head == s.frees % 36
  {
    ReachableInv(s);
    FreeRolls(s.queue, SEGMENTS, s.posts, s.frees);
  }

  // ---- Recycling ---------------------------------------------------------------------------------

  /** The server holds the segment `head` between its poll and its repost. */
  predicate Recycling(s: State) {
    s.pc.FreeEntry? || s.pc.Clear? || s.pc.Repost?
  }

  lemma RecyclingApart(s: State)
    requires WellFormed(s) && PcInv(s) && NicInv(s) && Recycling(s)
    ensures s.nic.taken > 0 && s.nic.seg != s.head && (s.nic.taken < s.posts ==> s.nic.taken % SEGMENTS != s.head)
  {
    var r := if s.pc.FreeEntry? then s.frees else s.frees - 1;
    assert r % SEGMENTS == s.head;
    Counters(s);
    SegmentsApart(r, s.nic.taken - 1);
    if s.nic.taken < s.posts {
      SegmentsApart(r, s.nic.taken);
    }
  }

  /** While the server recycles a segment, no message is placed in it: the card has moved on to a
      later post, and the segment is not posted again before the server has finished. */
  lemma RecyclingIsExclusive(s: State, m: Message)
    requires Reachable(s) && Recycling(s) && CanPlace(s, m)
    ensures Place(s, m).mem[s.head] == s.mem[s.head]
    ensures s.nic.taken > 0 && s.nic.seg != s.head
  {
    ReachableInv(s);
    PlacedElsewhere(s, m);
  }

  lemma PlacedElsewhere(s: State, m: Message)
    requires Inv(s) && Recycling(s) && CanPlace(s, m)
    ensures Place(s, m).mem[s.head] == s.mem[s.head]
    ensures s.nic.taken > 0 && s.nic.seg != s.head
  {
    RecyclingApart(s);
    if Fits(s, m) {
      PlaceInCurrent(s, m);
    } else {
      NextEntry(s);
      PlaceInNext(s, m);
    }
  }

  // ---- Flags -------------------------------------------------------------------------------------

  /** The segment that post `t` names. */
  function SegmentOf(t: nat): (g: nat)
    ensures g < SEGMENTS
  {
    t % SEGMENTS
  }

  /** The post that owns segment `g` once all segments have been handed out. */
  function Owner(s: State, g: nat): (t: nat)
    requires g < SEGMENTS && s.clears >= SEGMENTS
    ensures Owns(s, t) && SegmentOf(t) == g
    ensures forall u: nat :: Owns(s, u) && SegmentOf(u) == g ==> u == t
  {
    var r := Recycled(s);
    var t := r + (g + SEGMENTS - r % SEGMENTS) % SEGMENTS;
    OwnerUnique(r, g, t);
    t
  }

  lemma OwnerUnique(r: nat, g: nat, t: nat)
    requires g < SEGMENTS && t == r + (g + SEGMENTS - r % SEGMENTS) % SEGMENTS
    ensures t < r + SEGMENTS && SegmentOf(t) == g
    ensures forall u: nat :: r <= u < r + SEGMENTS && SegmentOf(u) == g ==> u == t
  {
    forall u: nat | r <= u < r + SEGMENTS && u != t
      ensures SegmentOf(u) != SegmentOf(t)
    {
      if u < t { SegmentsApart(u, t); } else { SegmentsApart(t, u); }
    }
  }

  /** The non-zero first bytes mark exactly the segments that are started and not yet recycled:
      those of the consecutive posts from the one recycled next to the one the card is in. */
  lemma FlagsMarkStarted(s: State, g: nat)
    requires Reachable(s) && s.clears >= SEGMENTS && g < SEGMENTS
    ensures s.mem[g][0] != 0 <==> exists t: nat :: Recycled(s) <= t < s.nic.taken && SegmentOf(t) == g
  {
    ReachableInv(s);
    OwnedFlag(s, g);
    StartedIsOwned(s);
  }

  lemma OwnedFlag(s: State, g: nat)
    requires WellFormed(s) && FlagInv(s) && s.clears >= SEGMENTS && g < SEGMENTS
    ensures s.mem[g][0] != 0 <==> Owner(s, g) < s.nic.taken
  {
    var t := Owner(s, g);
    assert Owns(s, t) && t % SEGMENTS == g;
  }

  lemma StartedIsOwned(s: State)
    requires WellFormed(s) && PcInv(s) && NicInv(s)
    ensures forall t: nat :: Recycled(s) <= t < s.nic.taken ==> Owns(s, t)
  {
    Counters(s);
  }

  /** The poll looks at the post after the one that would be recycled, and while it reads zero
      at least 35 posted segments are still untouched. */
  lemma PollIsExact(s: State)
    requires Reachable(s) && s.pc.Poll?
    ensures ServerStep(s).pc.FreeEntry? <==> s.nic.taken >= s.frees + 2
    ensures ServerStep(s).pc.FreeEntry? <==> s.mem[(s.head + 1) % 36][0] != 0
    ensures ServerStep(s).pc.Poll? ==> s.posts - s.nic.taken >= 35
    ensures forall t: nat :: s.nic.taken <= t < s.posts ==> s.mem[t % 36][0] == 0
  {
    ReachableInv(s);
    PolledFlag(s);
    forall t: nat | s.nic.taken <= t < s.posts
      ensures s.mem[t % SEGMENTS][0] == 0
    {
      assert Owns(s, t);
    }
  }

  // ---- The log -----------------------------------------------------------------------------------

  /** The message that `e` brings, if it finds room. */
  function AcceptedNow(s: State, e: Event): seq<Message> {
    if e.Arrive? && CanPlace(s, e.m) then [e.m] else []
  }

  ghost function Accepted(s: State, es: seq<Event>): seq<Message>
    requires WellFormed(s)
    decreases |es|
  {
    if es == [] then []
    else
      NextWellFormed(s, es[0]);
      AcceptedNow(s, es[0]) + Accepted(Next(s, es[0]), es[1..])
  }

  lemma NextArrivals(s: State, e: Event)
    requires WellFormed(s)
    ensures Next(s, e).arrivals == s.arrivals + AcceptedNow(s, e)
  {
    if e.Arrive? && CanPlace(s, e.m) && !Fits(s, e.m) {
      assert TakeNext(s).arrivals == s.arrivals;
    }
  }

  lemma {:induction false} ArrivalsAreAccepted(s: State, es: seq<Event>)
    requires WellFormed(s)
    ensures Run(s, es).arrivals == s.arrivals + Accepted(s, es)
    decreases |es|
  {
    if es != [] {
      RunUnfolds(s, es);
      NextArrivals(s, es[0]);
      ArrivalsAreAccepted(Next(s, es[0]), es[1..]);
      Associate(s.arrivals, AcceptedNow(s, es[0]), Accepted(Next(s, es[0]), es[1..]));
    }
  }

  lemma Associate(a: seq<Message>, b: seq<Message>, c: seq<Message>)
    ensures a + b + c == a + (b + c)
  {}

  lemma RunUnfolds(s: State, es: seq<Event>)
    requires WellFormed(s) && es != []
    ensures WellFormed(Next(s, es[0])) && Run(s, es) == Run(Next(s, es[0]), es[1..])
    ensures Accepted(s, es) == AcceptedNow(s, es[0]) + Accepted(Next(s, es[0]), es[1..])
  {
    NextWellFormed(s, es[0]);
  }

  /** What a reader finds in the segments of the first `n` posts, recycled ones as they were when
      they were cleared. */
  ghost function ReadAll(s: State, n: nat): seq<Message>
    requires Inv(s) && n <= s.nic.taken
  {
    if n == 0 then []
    else
      assert Holds(ImageOf(s, n - 1), s.logs[n - 1]);
      ReadAll(s, n - 1) + ReadSegment(ImageOf(s, n - 1), Lengths(s.logs[n - 1]), 0)
  }

  lemma {:induction false} ReadAllIsFlatten(s: State, n: nat)
    requires Inv(s) && n <= s.nic.taken
    ensures ReadAll(s, n) == Flatten(s.logs[..n])
  {
    if n > 0 {
      ReadAllIsFlatten(s, n - 1);
      assert Holds(ImageOf(s, n - 1), s.logs[n - 1]);
      assert s.logs[..n][..n - 1] == s.logs[..n - 1];
    }
  }

  /** Reading the segments in the order of their posts gives the accepted messages in the order
      of their arrival: none lost, repeated, overlapped or altered. */
  lemma OneLog(s0: State, es: seq<Event>)
    requires Init(s0)
    ensures WellFormed(s0) && Inv(Run(s0, es)) && var s := Run(s0, es); ReadAll(s, s.nic.taken) == Accepted(s0, es)
  {
    InitHasInv(s0);
    RunKeepsInv(s0, es);
    var s := Run(s0, es);
    ArrivalsAreAccepted(s0, es);
    ReadAllIsFlatten(s, s.nic.taken);
    assert s.logs[..s.nic.taken] == s.logs;
  }

  /** `after` keeps everything that `before` has stored; logs only grow, and recycled segments
      are the image their log had filled. */
  ghost predicate Keeps(before: State, after: State) {
    && |before.logs| <= |after.logs| && (forall t :: 0 <= t < |before.logs| ==> before.logs[t] <= after.logs[t])
    && before.archive <= after.archive
  }

  lemma PlaceKeepsLogs(s: State, m: Message)
    requires Inv(s) && CanPlace(s, m)
    ensures Keeps(s, Place(s, m))
  {
    if Fits(s, m) {
      PlaceInCurrent(s, m);
    } else {
      NextEntry(s);
      PlaceInNext(s, m);
    }
  }

  lemma NextKeepsLogs(s: State, e: Event)
    requires Inv(s)
    ensures Keeps(s, Next(s, e))
  {
    if e.Arrive? && CanPlace(s, e.m) {
      PlaceKeepsLogs(s, e.m);
    }
  }

  lemma KeepsTransitive(a: State, b: State, c: State)
    requires Keeps(a, b) && Keeps(b, c)
    ensures Keeps(a, c)
  {
    forall t | 0 <= t < |a.logs|
      ensures a.logs[t] <= c.logs[t]
    {
      assert a.logs[t] <= b.logs[t] <= c.logs[t];
    }
  }

  /** Nothing that was ever stored is altered or forgotten. */
  lemma {:induction false} RunKeepsLogs(s: State, es: seq<Event>)
    requires Inv(s)
    ensures Keeps(s, Run(s, es))
    decreases |es|
  {
    if es != [] {
      RunUnfolds(s, es);
      NextKeepsInv(s, es[0]);
      NextKeepsLogs(s, es[0]);
      RunKeepsLogs(Next(s, es[0]), es[1..]);
      KeepsTransitive(s, Next(s, es[0]), Run(s, es));
    }
  }

  // ---- Progress ----------------------------------------------------------------------------------

  /** The server steps that are left until it has posted. */
  function Ahead(pc: Pc): nat {
    match pc
    case InitClear(_) => 2
    case InitPost(_) => 1
    case Poll => 4
    case FreeEntry => 3
    case Clear => 2
    case Repost => 1
    case Failed => 0
  }

  lemma StepTo(s: State)
    requires Inv(s) && s.nic.taken == s.posts
    ensures ServerStep(s).nic == s.nic
    ensures Ahead(s.pc) == 1 ==> ServerStep(s).posts == s.posts + 1
    ensures Ahead(s.pc) > 1 ==> ServerStep(s).posts == s.posts && Ahead(ServerStep(s).pc) == Ahead(s.pc) - 1
  {
    match s.pc
    case InitPost(_) => InitPostRoom(s);
    case Repost => RepostRoom(s);
    case Poll => PolledFlag(s);
    case _ =>
  }

  /** The arrivals in one gap between two server steps. */
  function Arrivals(ms: seq<Message>): (es: seq<Event>)
    ensures |es| == |ms|
  {
    if ms == [] then [] else Arrivals(ms[..|ms| - 1]) + [Arrive(ms[|ms| - 1])]
  }

  lemma RunOne(s: State, es: seq<Event>, e: Event)
    requires WellFormed(s)
    ensures Run(s, es + [e]) == Next(Run(s, es), e)
  {
    RunConcat(s, es, [e]);
    RunUnfolds(Run(s, es), [e]);
  }

  /** Server steps with the gaps between them. */
  function ServerSteps(gaps: seq<seq<Message>>): (es: seq<Event>)
    decreases |gaps|
  {
    if gaps == [] then [Server] else [Server] + Arrivals(gaps[0]) + ServerSteps(gaps[1..])
  }

  /** While the card has no post left, an arrival moves neither the server nor the card to another segment. */
  lemma ArrivalWaits(s: State, m: Message)
    requires Inv(s) && s.nic.taken == s.posts
    ensures var t := Next(s, Arrive(m)); Inv(t) && t.pc == s.pc && t.posts == s.posts && t.nic.taken == s.nic.taken
  {
    NextKeepsInv(s, Arrive(m));
    if CanPlace(s, m) {
      PlaceInCurrent(s, m);
    }
  }

  lemma {:induction false} GapWaits(s: State, ms: seq<Message>)
    requires Inv(s) && s.nic.taken == s.posts
    ensures var t := Run(s, Arrivals(ms));
            Inv(t) && t.pc == s.pc && t.posts == s.posts && t.nic.taken == s.nic.taken
    decreases |ms|
  {
    if ms != [] {
      var n := |ms| - 1;
      GapWaits(s, ms[..n]);
      RunOne(s, Arrivals(ms[..n]), Arrive(ms[n]));
      ArrivalWaits(Run(s, Arrivals(ms[..n])), ms[n]);
    }
  }

  lemma GapAfterStep(s: State, gaps: seq<seq<Message>>)
    requires WellFormed(s) && gaps != []
    ensures WellFormed(ServerStep(s))
    ensures Run(s, ServerSteps(gaps)) == Run(Run(ServerStep(s), Arrivals(gaps[0])), ServerSteps(gaps[1..]))
  {
    var es := Arrivals(gaps[0]) + ServerSteps(gaps[1..]);
    assert ServerSteps(gaps) == [Server] + es;
    RunUnfolds(s, [Server] + es);
    assert ([Server] + es)[1..] == es;
    RunConcat(ServerStep(s), Arrivals(gaps[0]), ServerSteps(gaps[1..]));
  }

  /** When the card has used up all posts, the server posts another segment within four steps, whatever
      arrives between them; then any message finds room. */
  lemma {:induction false} ServerUnblocks(s: State, gaps: seq<seq<Message>>)
    requires Inv(s) && s.nic.taken == s.posts && |gaps| + 1 == Ahead(s.pc)
    ensures Ahead(s.pc) <= 4
    ensures var t := Run(s, ServerSteps(gaps));
            t.posts == s.posts + 1 && t.nic.taken == s.nic.taken && forall m :: ValidMessage(m) ==> CanPlace(t, m)
    decreases |gaps|
  {
    StepTo(s);
    ServerKeepsInv(s);
    if gaps == [] {
      RunUnfolds(s, [Server]);
    } else {
      GapAfterStep(s, gaps);
      GapWaits(ServerStep(s), gaps[0]);
      ServerUnblocks(Run(ServerStep(s), Arrivals(gaps[0])), gaps[1..]);
    }
  }

  /** Server steps with `gaps[i]` arriving behind the i-th one. */
  function Interleave(gaps: seq<seq<Message>>): seq<Event> {
    if gaps == [] then [] else Interleave(gaps[..|gaps| - 1]) + ([Server] + Arrivals(gaps[|gaps| - 1]))
  }

  /** One more server step and the gap behind it. */
  lemma RunStep(s: State, gaps: seq<seq<Message>>, i: nat, t: State)
    requires WellFormed(s) && i < |gaps| && t == Run(s, Interleave(gaps[..i]))
    ensures WellFormed(ServerStep(t)) && Run(s, Interleave(gaps[..i + 1])) == Run(ServerStep(t), Arrivals(gaps[i]))
  {
    assert gaps[..i + 1][..i] == gaps[..i];
    RunConcat(s, Interleave(gaps[..i]), [Server] + Arrivals(gaps[i]));
    RunUnfolds(t, [Server] + Arrivals(gaps[i]));
    assert ([Server] + Arrivals(gaps[i]))[1..] == Arrivals(gaps[i]);
  }
}
