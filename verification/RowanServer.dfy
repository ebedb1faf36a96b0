/** The server's own code in its imperative form, one method per step, and its loops with the
    card at work in every gap between two steps. */
module RowanServer {
  import opened RawMemory
  import opened Srq
  import opened Rowan
  import opened RowanRuns
  import opened RowanBytes

  class Mlx5Srq {
    const next: array<nat>
    const seg: array<nat>
    var head: nat
    var tail: nat

    ghost predicate Valid()
      reads this, next, seg
    {
      next != seg && Shaped(View())
    }

    ghost function View(): Queue
      reads this, next, seg
    {
      Queue(next[..], seg[..], head, tail)
    }

    constructor ()
      ensures Valid() && fresh(next) && fresh(seg) && View() == NewQueue()
      ensures next.Length == seg.Length == 128 && head == 0 && tail == 127
      ensures forall i :: 0 <= i < 128 ==> next[i] == (i + 1) % 128
    {
      next := new nat[ENTRIES](i => (i + 1) % ENTRIES);
      seg := new nat[ENTRIES](_ => 0);
      head := 0;
      tail := ENTRIES - 1;
      new;
      assert next[..] == NewQueue().next && seg[..] == NewQueue().seg;
    }

    method FreeWqe(ind: nat)
      requires Valid() && ind < ENTRIES
      modifies this`tail, next
      ensures Valid() && View() == Free(old(View()), ind)
      ensures next[..] == old(next[..])[old(tail) := ind] && tail == ind
    {
      next[tail] := ind;
      tail := ind;
    }

    /** The provider's post routine. */
    method Post(segment: nat) returns (ok: bool)
      requires Valid()
      modifies this`head, seg
      ensures Valid() && ok == !Exhausted(old(View()))
      ensures View() == if ok then Srq.Post(old(View()), segment) else old(View())
      ensures ok == (old(head) != tail)
      ensures ok ==> seg[..] == old(seg[..])[old(head) := segment] && head == next[old(head)]
    {
      ok := head != tail;
      if ok {
        seg[head] := segment;
        head := next[head];
      }
    }
  }

  /** A post finds a free entry. */
  predicate RoomToPost(s: State) {
    Posting(s) ==> !Exhausted(s.queue)
  }

  lemma NoFailure(s: State, gaps: seq<seq<Message>>)
    requires Reachable(s)
    ensures RoomToPost(Run(s, Interleave(gaps)))
  {
    ReachableInv(s);
    RunKeepsInv(s, Interleave(gaps));
    if Run(s, Interleave(gaps)).pc.InitPost? {
      InitPostRoom(Run(s, Interleave(gaps)));
    } else if Run(s, Interleave(gaps)).pc.Repost? {
      RepostRoom(Run(s, Interleave(gaps)));
    }
  }

  lemma RecycledBytes(s: State, gaps: seq<seq<Message>>)
    requires Reachable(s) && s.pc.Poll? && ServerStep(s).pc.FreeEntry? && |gaps| == 4
    ensures WellFormed(s)
    ensures var t := Run(s, Interleave(gaps));
            && (Quiet(gaps) ==> t.mem == s.mem[s.head := s.mem[s.head][0 := 0]])
            && (gaps[3] == [] ==> t.mem[s.head][0] == 0 && forall b :: 0 < b < 65536 ==> t.mem[s.head][b] == s.mem[s.head][b])
  {
    ReachableInv(s);
    SealedBytes(s, gaps);
    if Quiet(gaps) {
      QuietRecycling(s, gaps);
    }
  }

  class Server {
    const srq: Mlx5Srq
    const buf: array<Image>
    var head: nat
    var mlx5SrqHead: nat
    var nic: Nic       // the card's registers
    var doorbell: nat  // how many posts the card has been told of
    ghost var state: State

    ghost predicate Valid()
      reads this, srq, srq.next, srq.seg, buf
    {
      && srq.Valid() && buf.Length == SEGMENTS
      && state.mem == buf[..] && state.queue == srq.View() && state.head == head && state.entry == mlx5SrqHead
      && state.nic == nic && state.posts == doorbell
      && WellFormed(state)
    }

    ghost function Repr(): set<object> {
      {this, srq, srq.next, srq.seg, buf}
    }

    constructor (memory: seq<Image>)
      requires |memory| == SEGMENTS && forall g :: 0 <= g < SEGMENTS ==> |memory[g]| == SEGMENT_SIZE
      ensures Valid() && fresh(Repr()) && Init(state) && state.mem == memory
    {
      srq := new Mlx5Srq();
      buf := new Image[SEGMENTS](i requires 0 <= i < SEGMENTS => memory[i]);
      head, mlx5SrqHead, nic, doorbell := 0, 0, Nic(0, 0, 0, 0), 0;
      state := State(InitClear(0), 0, 0, NewQueue(), Nic(0, 0, 0, 0), memory, 0, 0, 0, [], [], []);
      new;
      assert buf[..] == memory;
    }

    // ---- The card ----------------------------------------------------------------------------------

    /** The card places `m` if it finds room. */
    method CardStep(m: Message)
      requires Valid()
      modifies this`state, this`nic, buf
      ensures Valid() && state == Next(old(state), Arrive(m)) && state.pc == old(state).pc
      ensures var fits := old(nic).taken > 0 && old(nic).used + (|m| + 63) / 64 * 64 <= 65536;
              var seg, off := if fits then old(nic).seg else srq.seg[old(nic).entry], if fits then old(nic).used else 0;
              forall g: nat, i: nat :: g < 36 && i < 65536 ==>
                buf[g][i] == if 0 < |m| <= 4096 && m[0] != 0 && (fits || old(nic).taken < doorbell) && g == seg && off <= i < off + |m|
                             then m[i - off] else old(buf[g])[i]
    {
      forall g: nat, i: nat | g < 36 && i < 65536 {
        ArriveBytes(state, m, g, i);
      }
      state := Next(state, Arrive(m));
      if 0 < |m| <= MESSAGE_SIZE && m[0] != 0 {
        if nic.taken > 0 && nic.used + Strides(|m|) <= SEGMENT_SIZE {
          buf[nic.seg] := WriteAt(buf[nic.seg], nic.used, m);
          nic := nic.(used := nic.used + Strides(|m|));
        } else if nic.taken < doorbell {
          nic := Nic(nic.taken + 1, srq.next[nic.entry], srq.seg[nic.entry], Strides(|m|));
          buf[nic.seg] := WriteAt(buf[nic.seg], 0, m);
        }
      }
    }

    /** What the card does in a gap. */
    method Gap(ms: seq<Message>)
      requires Valid()
      modifies this`state, this`nic, buf
      ensures Valid() && state == Run(old(state), Arrivals(ms)) && state.pc == old(state).pc
    {
      var i := 0;
      while i < |ms|
        invariant 0 <= i <= |ms| && Valid() && state.pc == old(state).pc
        invariant state == Run(old(state), Arrivals(ms[..i]))
      {
        assert ms[..i + 1][..i] == ms[..i];
        RunOne(old(state), Arrivals(ms[..i]), Arrive(ms[i]));
        CardStep(ms[i]);
        i := i + 1;
      }
      assert ms[..i] == ms;
    }

    // ---- The server's steps, each with what arrives before the next one ---------------------------

    method ClearForInit(k: nat, ms: seq<Message>)
      requires Valid() && state.pc == InitClear(k)
      modifies Repr()
      ensures Valid() && state == Run(ServerStep(old(state)), Arrivals(ms)) && state.pc == ServerStep(old(state)).pc
      ensures ms == [] ==> forall g: nat, i: nat :: g < 36 && i < 65536 ==>
                             buf[g][i] == if g == k && i == 0 then 0 else old(buf[g])[i]
    {
      buf[k] := ClearFirst(buf[k]);
      state := ServerStep(state);
      Gap(ms);
    }

    method RecvForInit(k: nat, ms: seq<Message>)
      requires Valid() && state.pc == InitPost(k)
      modifies Repr()
      ensures Valid() && state == Run(ServerStep(old(state)), Arrivals(ms)) && state.pc == ServerStep(old(state)).pc
      ensures ms == [] ==> buf[..] == old(buf[..])
    {
      var ok := srq.Post(k);
      doorbell := if ok then doorbell + 1 else doorbell;
      state := ServerStep(state);
      Gap(ms);
    }

    method PollNext(ms: seq<Message>) returns (used: bool)
      requires Valid() && state.pc.Poll?
      modifies Repr()
      ensures Valid() && state == Run(ServerStep(old(state)), Arrivals(ms)) && state.pc == ServerStep(old(state)).pc
      ensures ms == [] ==> buf[..] == old(buf[..])
      ensures used == state.pc.FreeEntry?
    {
      used := buf[(head + 1) % SEGMENTS][0] != 0;
      state := ServerStep(state);
      Gap(ms);
    }

    method FreeEntry(ms: seq<Message>)
      requires Valid() && state.pc.FreeEntry?
      modifies Repr()
      ensures Valid() && state == Run(ServerStep(old(state)), Arrivals(ms)) && state.pc == ServerStep(old(state)).pc
      ensures ms == [] ==> buf[..] == old(buf[..])
    {
      srq.FreeWqe(mlx5SrqHead);
      mlx5SrqHead := (mlx5SrqHead + 1) % ENTRIES;
      state := ServerStep(state);
      Gap(ms);
    }

    method ClearHead(ms: seq<Message>)
      requires Valid() && state.pc.Clear?
      modifies Repr()
      ensures Valid() && state == Run(ServerStep(old(state)), Arrivals(ms)) && state.pc == ServerStep(old(state)).pc
      ensures ms == [] ==> forall g: nat, i: nat :: g < 36 && i < 65536 ==>
                             buf[g][i] == if g == old(head) && i == 0 then 0 else old(buf[g])[i]
    {
      buf[head] := ClearFirst(buf[head]);
      state := ServerStep(state);
      Gap(ms);
    }

    method RepostHead(ms: seq<Message>)
      requires Valid() && state.pc.Repost?
      modifies Repr()
      ensures Valid() && state == Run(ServerStep(old(state)), Arrivals(ms)) && state.pc == ServerStep(old(state)).pc
      ensures ms == [] ==> buf[..] == old(buf[..])
    {
      var ok := srq.Post(head);
      doorbell := if ok then doorbell + 1 else doorbell;
      head := (head + 1) % SEGMENTS;
      state := ServerStep(state);
      Gap(ms);
    }

    // ---- The server's loops -----------------------------------------------------------------------
    // `s0` is a state that the loop started from, `i` the steps taken since then.

    method ClearNext(ghost s0: State, gaps: seq<seq<Message>>, i: nat, k: nat)
      requires Valid() && WellFormed(s0) && i < |gaps| && state == Run(s0, Interleave(gaps[..i]))
      requires state.pc == InitClear(k)
      modifies Repr()
      ensures Valid() && state == Run(s0, Interleave(gaps[..i + 1])) && state.pc == InitPost(k)
      ensures gaps[i] == [] ==> forall g: nat, b: nat :: g < 36 && b < 65536 ==>
                                  buf[g][b] == if g == k && b == 0 then 0 else old(buf[g])[b]
    {
      RunStep(s0, gaps, i, state);
      ClearForInit(k, gaps[i]);
    }

    method RecvNext(ghost s0: State, gaps: seq<seq<Message>>, i: nat, k: nat)
      requires Valid() && WellFormed(s0) && i < |gaps| && state == Run(s0, Interleave(gaps[..i]))
      requires state.pc == InitPost(k) && k < SEGMENTS && RoomToPost(state)
      modifies Repr()
      ensures Valid() && state == Run(s0, Interleave(gaps[..i + 1])) && state.pc == (if k + 1 < SEGMENTS then InitClear(k + 1) else Poll)
      ensures gaps[i] == [] ==> buf[..] == old(buf[..])
    {
      RunStep(s0, gaps, i, state);
      RecvForInit(k, gaps[i]);
    }

    method FreeNext(ghost s0: State, gaps: seq<seq<Message>>, i: nat)
      requires Valid() && WellFormed(s0) && i < |gaps| && state == Run(s0, Interleave(gaps[..i]))
      requires state.pc == Pc.FreeEntry
      modifies Repr()
      ensures Valid() && state == Run(s0, Interleave(gaps[..i + 1])) && state.pc == Pc.Clear
    {
      RunStep(s0, gaps, i, state);
      FreeEntry(gaps[i]);
    }

    method ClearSealed(ghost s0: State, gaps: seq<seq<Message>>, i: nat)
      requires Valid() && WellFormed(s0) && i < |gaps| && state == Run(s0, Interleave(gaps[..i]))
      requires state.pc == Pc.Clear
      modifies Repr()
      ensures Valid() && state == Run(s0, Interleave(gaps[..i + 1])) && state.pc == Pc.Repost
    {
      RunStep(s0, gaps, i, state);
      ClearHead(gaps[i]);
    }

    method RepostNext(ghost s0: State, gaps: seq<seq<Message>>, i: nat)
      requires Valid() && WellFormed(s0) && i < |gaps| && state == Run(s0, Interleave(gaps[..i]))
      requires state.pc == Pc.Repost && RoomToPost(state)
      modifies Repr()
      ensures Valid() && state == Run(s0, Interleave(gaps[..i + 1])) && state.pc == Pc.Poll
    {
      RunStep(s0, gaps, i, state);
      RepostHead(gaps[i]);
    }

    /** One round of the first loop. */
    method InitSegment(ghost s0: State, gaps: seq<seq<Message>>, k: nat)
      requires Valid() && WellFormed(s0) && Reachable(s0) && k < SEGMENTS && 2 * k + 2 <= |gaps|
      requires state == Run(s0, Interleave(gaps[..2 * k])) && state.pc == InitClear(k)
      modifies Repr()
      ensures Valid() && state == Run(s0, Interleave(gaps[..2 * k + 2]))
      ensures state.pc == if k + 1 < SEGMENTS then InitClear(k + 1) else Poll
      ensures Quiet(gaps) ==> forall g: nat, b: nat :: g < 36 && b < 65536 ==>
                                buf[g][b] == if g == k && b == 0 then 0 else old(buf[g])[b]
    {
      ClearNext(s0, gaps, 2 * k, k);
      NoFailure(s0, gaps[..2 * k + 1]);
      RecvNext(s0, gaps, 2 * k + 1, k);
    }

    /** The first loop: every segment is cleared and posted, in order, whatever arrives meanwhile. */
    method InitSegments(gaps: seq<seq<Message>>)
      requires Valid() && Init(state) && |gaps| == 72
      modifies Repr()
      ensures Valid() && state == Run(old(state), Interleave(gaps)) && state.pc.Poll?
      ensures Quiet(gaps) ==> forall g: nat, b: nat :: g < 36 && b < 65536 ==>
                                buf[g][b] == if b == 0 then 0 else old(buf[g])[b]
    {
      ghost var s0 := state;
      assert s0 == Run(s0, []);
      var k := 0;
      while k < SEGMENTS
        invariant 0 <= k <= SEGMENTS && Valid() && WellFormed(s0) && Reachable(s0)
        invariant state == Run(s0, Interleave(gaps[..2 * k]))
        invariant state.pc == if k < SEGMENTS then InitClear(k) else Poll
        invariant Quiet(gaps) ==> forall g: nat, b: nat :: g < 36 && b < 65536 ==>
                                    buf[g][b] == if b == 0 && g < k then 0 else old(buf[g])[b]
      {
        InitSegment(s0, gaps, k);
        k := k + 1;
      }
      assert gaps[..2 * k] == gaps;
    }

    /** The branch of the endless loop that recycles the segment `head`. */
    method Recycle(ghost s0: State, gaps: seq<seq<Message>>)
      requires Valid() && |gaps| == 4 && WellFormed(s0) && RoomToPost(Run(s0, Interleave(gaps[..3])))
      requires state == Run(s0, Interleave(gaps[..1])) && state.pc.FreeEntry?
      modifies Repr()
      ensures Valid() && state == Run(s0, Interleave(gaps)) && state.pc.Poll?
    {
      FreeNext(s0, gaps, 1);
      ClearSealed(s0, gaps, 2);
      RepostNext(s0, gaps, 3);
      assert gaps[..4] == gaps;
    }

    /** The body of the endless loop; `n` tells how many steps it took. */
    method LoopBody(gaps: seq<seq<Message>>) returns (n: nat)
      requires Valid() && Reachable(state) && state.pc.Poll? && |gaps| == 4
      modifies Repr()
      ensures Valid() && n == (if ServerStep(old(state)).pc.FreeEntry? then 4 else 1)
      ensures state == Run(old(state), Interleave(gaps[..n])) && state.pc.Poll?
      ensures n == 1 && gaps[0] == [] ==> buf[..] == old(buf[..])
      ensures n == 4 && Quiet(gaps) ==> forall g: nat, b: nat :: g < 36 && b < 65536 ==>
                                          buf[g][b] == if g == old(head) && b == 0 then 0 else old(buf[g])[b]
      ensures n == 4 && gaps[3] == [] ==>
                buf[old(head)][0] == 0 && forall b :: 0 < b < 65536 ==> buf[old(head)][b] == old(buf[head])[b]
    {
      ghost var s0 := state;
      assert Run(s0, Interleave(gaps[..0])) == s0;
      RunStep(s0, gaps, 0, s0);
      NoFailure(s0, gaps[..3]);
      var used := PollNext(gaps[0]);
      n := 1;
      if used {
        Recycle(s0, gaps);
        n := 4;
        assert gaps[..4] == gaps;
        RecycledBytes(s0, gaps);
      }
    }
  }
}
