/** What server steps and arriving messages do to each byte of the memory. */
module RowanBytes {
  import opened RawMemory
  import opened Srq
  import opened Rowan
  import opened RowanTheorems
  import opened RowanRuns

  /** A server step changes at most one byte: the first one of the segment that it clears. */
  lemma ServerStepBytes(s: State, g: nat, i: nat)
    requires WellFormed(s) && g < 36 && i < 65536
    ensures |ServerStep(s).mem| == 36 && |s.mem[g]| == |ServerStep(s).mem[g]| == 65536
    ensures ServerStep(s).mem[g][i]
         == if i == 0 && (s.pc == InitClear(g) || (s.pc.Clear? && s.head == g)) then 0 else s.mem[g][i]
  {}

  /** The whole strides of 64 bytes for `n` bytes. */
  lemma StrideBytes(n: nat)
    ensures Strides(n) == (n + 63) / 64 * 64
  {}

  /** An arriving message of 1 to 4096 bytes that does not begin with zero goes behind the last one as long
      as 65536 bytes are not exceeded, or else to the start of the next posted segment, and changes no
      other byte; it is dropped if there is neither. */
  lemma ArriveBytes(s: State, m: Message, g: nat, i: nat)
    requires WellFormed(s) && g < 36 && i < 65536
    ensures var s', fits := Next(s, Arrive(m)), s.nic.taken > 0 && s.nic.used + (|m| + 63) / 64 * 64 <= 65536;
            var seg, off := if fits then s.nic.seg else s.queue.seg[s.nic.entry], if fits then s.nic.used else 0;
            && |s'.mem| == 36 && |s.mem[g]| == |s'.mem[g]| == 65536
            && if 0 < |m| <= 4096 && m[0] != 0 && (fits || s.nic.taken < s.posts) then
                 && s'.mem[g][i] == (if g == seg && off <= i < off + |m| then m[i - off] else s.mem[g][i])
                 && s'.nic.seg == seg && s'.nic.used == off + (|m| + 63) / 64 * 64
                 && s'.nic.taken == (if fits then s.nic.taken else s.nic.taken + 1)
               else s' == s
  {
    StrideBytes(|m|);
  }

  lemma {:induction false} EndAligned(lens: seq<nat>, off: nat)
    ensures End(lens, off) % 64 == off % 64
    decreases |lens|
  {
    if lens != [] {
      EndAligned(lens[1..], off + Strides(lens[0]));
    }
  }

  /** The card always writes at whole strides of the segment that its last post names. */
  lemma CardAligned(s: State)
    requires Reachable(s) && s.nic.taken > 0
    ensures s.nic.used % 64 == 0 && 64 <= s.nic.used <= 65536 && s.nic.seg == (s.nic.taken - 1) % 36
  {
    ReachableInv(s);
    EndAligned(Lengths(s.logs[s.nic.taken - 1]), 0);
  }

  // ---- The sealed segment ------------------------------------------------------------------------

  /** Whatever arrives, the segment being recycled keeps its bytes. */
  lemma {:induction false} GapKeepsHead(s: State, ms: seq<Message>)
    requires Inv(s) && Recycling(s)
    ensures var t := Run(s, Arrivals(ms));
            Inv(t) && t.pc == s.pc && t.head == s.head && t.mem[s.head] == s.mem[s.head]
    decreases |ms|
  {
    if ms != [] {
      var n := |ms| - 1;
      GapKeepsHead(s, ms[..n]);
      RunOne(s, Arrivals(ms[..n]), Arrive(ms[n]));
      ArrivalKeepsHead(Run(s, Arrivals(ms[..n])), ms[n]);
    }
  }

  lemma ArrivalKeepsHead(s: State, m: Message)
    requires Inv(s) && Recycling(s)
    ensures var t := Next(s, Arrive(m));
            Inv(t) && t.pc == s.pc && t.head == s.head && t.mem[s.head] == s.mem[s.head]
  {
    NextKeepsInv(s, Arrive(m));
    if CanPlace(s, m) {
      PlacedElsewhere(s, m);
    }
  }

  /** The steps of the recycling before the segment is posted again. */
  predicate Sealing(s: State)
    requires WellFormed(s)
  {
    s.pc.FreeEntry? || s.pc.Clear? || (s.pc.Poll? && ServerStep(s).pc.FreeEntry?)
  }

  /** How a step of the recycling changes the sealed segment. */
  ghost predicate SealedOn(u: State, t: State)
    requires WellFormed(u) && WellFormed(t)
  {
    && t.head == u.head
    && t.pc == (if u.pc.Poll? then Pc.FreeEntry else if u.pc.FreeEntry? then Pc.Clear else Pc.Repost)
    && t.mem[u.head] == (if u.pc.Clear? then u.mem[u.head][0 := 0] else u.mem[u.head])
  }

  lemma SealStep(u: State)
    requires Inv(u) && Sealing(u)
    ensures Inv(ServerStep(u)) && SealedOn(u, ServerStep(u)) && Recycling(ServerStep(u))
  {
    ServerKeepsInv(u);
  }

  /** One step of the recycling, and what arrives behind it. */
  lemma HeadStep(u: State, ms: seq<Message>)
    requires Inv(u) && Sealing(u)
    ensures Inv(Run(ServerStep(u), Arrivals(ms))) && SealedOn(u, Run(ServerStep(u), Arrivals(ms)))
  {
    hide FlagInv, LogInv, PcInv, NicInv, Rolling, ServerStep, Run;
    SealStep(u);
    GapKeepsHead(ServerStep(u), ms);
  }

  lemma RepostStep(t: State)
    requires Inv(t) && t.pc.Repost?
    ensures var u := ServerStep(t); WellFormed(u) && u.pc.Poll? && u.mem == t.mem && u.head == (t.head + 1) % 36
  {
    RepostRoom(t);
  }

  /** The recycling begun in `s` has come through `i` of its four steps. */
  ghost predicate Reached(s: State, t: State, i: nat)
    requires WellFormed(s)
  {
    && Inv(t) && t.head == s.head
    && t.pc == (match i case 0 => Pc.Poll case 1 => Pc.FreeEntry case 2 => Pc.Clear case _ => Pc.Repost)
    && (i == 0 ==> t == s)
    && t.mem[s.head] == (if i < 3 then s.mem[s.head] else s.mem[s.head][0 := 0])
  }

  lemma ReachedNext(s: State, u: State, ms: seq<Message>, i: nat)
    requires Inv(s) && Sealing(s) && Reached(s, u, i) && i < 3
    ensures Reached(s, Run(ServerStep(u), Arrivals(ms)), i + 1)
  {
    hide FlagInv, LogInv, PcInv, NicInv, Rolling, ServerStep, Run;
    HeadStep(u, ms);
  }

  lemma {:induction false} RecyclingStep(s: State, gaps: seq<seq<Message>>, i: nat)
    requires Inv(s) && s.pc.Poll? && Sealing(s) && i <= 3 <= |gaps|
    ensures Reached(s, Run(s, Interleave(gaps[..i])), i)
  {
    if i == 0 {
      assert gaps[..0] == [] && Run(s, Interleave(gaps[..0])) == s;
    } else {
      hide Reached, ServerStep, Run, Interleave;
      var u := Run(s, Interleave(gaps[..i - 1]));
      RecyclingStep(s, gaps, i - 1);
      RunStep(s, gaps, i - 1, u);
      ReachedNext(s, u, gaps[i - 1], i - 1);
    }
  }

  /** Recycling takes the first byte of the sealed segment to zero and leaves all others as they were at the
      poll, whatever arrives before the segment is posted again. */
  lemma SealedBytes(s: State, gaps: seq<seq<Message>>)
    requires Inv(s) && s.pc.Poll? && ServerStep(s).pc.FreeEntry? && |gaps| == 4
    ensures var u := ServerStep(Run(s, Interleave(gaps[..3])));
            && WellFormed(u) && u.pc.Poll? && Run(s, Interleave(gaps)) == Run(u, Arrivals(gaps[3]))
            && u.mem[s.head][0] == 0 && u.head == (s.head + 1) % 36
            && forall i :: 0 < i < 65536 ==> u.mem[s.head][i] == s.mem[s.head][i]
  {
    hide FlagInv, LogInv, PcInv, NicInv, Rolling, ServerStep, Run, Interleave;
    RecyclingStep(s, gaps, 3);
    var t := Run(s, Interleave(gaps[..3]));
    RunStep(s, gaps, 3, t);
    assert gaps[..4] == gaps;
    RepostStep(t);
  }

  // ---- Nothing arrives ---------------------------------------------------------------------------

  predicate Quiet(gaps: seq<seq<Message>>) {
    forall j :: 0 <= j < |gaps| ==> gaps[j] == []
  }

  lemma QuietGap(s: State, gaps: seq<seq<Message>>, i: nat, t: State)
    requires WellFormed(s) && i < |gaps| && t == Run(s, Interleave(gaps[..i])) && gaps[i] == []
    ensures WellFormed(ServerStep(t)) && Run(s, Interleave(gaps[..i + 1])) == ServerStep(t)
  {
    RunStep(s, gaps, i, t);
    assert Run(ServerStep(t), []) == ServerStep(t);
  }

  lemma SealedMemory(u: State)
    requires Inv(u) && Sealing(u)
    ensures WellFormed(ServerStep(u))
    ensures ServerStep(u).mem == if u.pc.Clear? then u.mem[u.head := u.mem[u.head][0 := 0]] else u.mem
  {}

  lemma SealedNext(s: State, u: State, i: nat)
    requires Inv(s) && Sealing(s) && Reached(s, u, i) && i < 3 && u.mem == s.mem
    ensures WellFormed(ServerStep(u))
    ensures ServerStep(u).mem == if i < 2 then s.mem else s.mem[s.head := s.mem[s.head][0 := 0]]
  {
    hide FlagInv, LogInv, PcInv, NicInv, Rolling, ServerStep;
    SealedMemory(u);
  }

  lemma {:induction false} QuietSealing(s: State, gaps: seq<seq<Message>>, i: nat)
    requires Inv(s) && s.pc.Poll? && Sealing(s) && Quiet(gaps) && i <= 3 <= |gaps|
    ensures Run(s, Interleave(gaps[..i])).mem == if i < 3 then s.mem else s.mem[s.head := s.mem[s.head][0 := 0]]
  {
    if i == 0 {
      assert gaps[..0] == [] && Run(s, Interleave(gaps[..0])) == s;
    } else {
      hide Reached, ServerStep, Run, Interleave;
      var u := Run(s, Interleave(gaps[..i - 1]));
      QuietSealing(s, gaps, i - 1);
      RecyclingStep(s, gaps, i - 1);
      QuietGap(s, gaps, i - 1, u);
      SealedNext(s, u, i - 1);
    }
  }

  /** Without arrivals, recycling clears the first byte of the sealed segment and changes no other byte. */
  lemma QuietRecycling(s: State, gaps: seq<seq<Message>>)
    requires Inv(s) && s.pc.Poll? && Sealing(s) && Quiet(gaps) && |gaps| == 4
    ensures Run(s, Interleave(gaps)).mem == s.mem[s.head := s.mem[s.head][0 := 0]]
  {
    hide FlagInv, LogInv, PcInv, NicInv, Rolling, ServerStep, Run, Interleave;
    QuietSealing(s, gaps, 3);
    RecyclingStep(s, gaps, 3);
    var t := Run(s, Interleave(gaps[..3]));
    QuietGap(s, gaps, 3, t);
    assert gaps[..4] == gaps;
    RepostStep(t);
  }
}
