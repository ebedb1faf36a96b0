/** What bring-up guarantees: no assertion ever fails, it cannot deadlock, every fair
    schedule finishes it, and a node that leaves the barrier finds the whole cluster wired. */
module BringUpTheorems {
  import opened Keys
  import opened Wiring
  import opened BringUp

  ghost predicate ValidSchedule(c: Config, schedule: seq<nat>) {
    forall i :: 0 <= i < |schedule| ==> schedule[i] < c.nodes
  }

  /** The state after the processes in `schedule` have taken one step each, in that order. */
  ghost function Run(c: Config, s: State, schedule: seq<nat>): State
    requires c.dirs > 0 && |s.nodes| == c.nodes
    requires ValidSchedule(c, schedule)
    ensures |Run(c, s, schedule).nodes| == c.nodes
    decreases |schedule|
  {
    if schedule == [] then s else Run(c, Step(c, s, schedule[0]), schedule[1..])
  }

  /** The invariant holds after every run. */
  lemma {:induction false} RunKeepsInv(c: Config, s: State, schedule: seq<nat>)
    requires Inv(c, s) && ValidSchedule(c, schedule)
    ensures Inv(c, Run(c, s, schedule))
    decreases |schedule|
  {
    if schedule != [] {
      StepKeepsInv(c, s, schedule[0]);
      RunKeepsInv(c, Step(c, s, schedule[0]), schedule[1..]);
    }
  }

  ghost predicate AllReady(s: State) {
    forall p :: 0 <= p < |s.nodes| ==> s.nodes[p].pc.Ready?
  }

  // ---- Progress --------------------------------------------------------------------------------

  /** Every step that changes anything brings bring-up closer to its end. */
  lemma StepLowersTotal(c: Config, s: State, p: nat)
    requires Inv(c, s) && p < c.nodes
    ensures Step(c, s, p) == s || Total(c, Step(c, s, p).nodes) < Total(c, s.nodes)
  {
    var s' := Step(c, s, p);
    RankDrops(c, s, p);
    if s' != s {
      TotalUpdate(c, s.nodes, p, s'.nodes[p]);
    }
  }

  lemma PollStutters(c: Config, s: State, p: nat)
    requires Inv(c, s) && p < c.nodes && s.nodes[p].pc == Polling(|s.order|) && |s.order| < c.nodes
    ensures Step(c, s, p) == s
  {
    var n := s.nodes[p];
    assert n.(pc := LoopAt(|s.order|, |s.order|)) == n;
    assert s.nodes[p := n] == s.nodes;
  }

  /** `s'` is `s` with process `p` moved to a program point of lower rank. */
  ghost predicate RankLower(c: Config, s: State, s': State, p: nat)
    requires p < |s.nodes|
  {
    |s'.nodes| == |s.nodes| && s'.nodes == s.nodes[p := s'.nodes[p]] && Rank(c, s'.nodes[p].pc) < Rank(c, s.nodes[p].pc)
  }

  lemma PollRank(c: Config, s: State, p: nat)
    requires Inv(c, s) && p < c.nodes && s.nodes[p].pc.Polling?
    ensures StepPoll(c, s, p) == s || RankLower(c, s, StepPoll(c, s, p), p)
  {
    var n := s.nodes[p];
    EnteredBound(c, s, p);
    if n.pc.cur == |s.order| && n.pc.cur < c.nodes {
      PollStutters(c, s, p);
    }
  }

  lemma VisitRank(c: Config, s: State, p: nat)
    requires Inv(c, s) && p < c.nodes && s.nodes[p].pc.Visiting?
    ensures RankLower(c, s, StepVisit(c, s, p), p)
  {
    EnteredBound(c, s, p);
    LoopPc(c, s.nodes[p], s.nodes[p].pc.k + 1, s.nodes[p].pc.bound);
  }

  lemma WaitRank(c: Config, s: State, p: nat)
    requires Inv(c, s) && p < c.nodes && s.nodes[p].pc.Waiting?
    ensures StepWait(c, s, p) == s || RankLower(c, s, StepWait(c, s, p), p)
  {
    EnteredBound(c, s, p);
    LoopPc(c, s.nodes[p], s.nodes[p].pc.k + 1, s.nodes[p].pc.bound);
  }

  lemma RankDrops(c: Config, s: State, p: nat)
    requires Inv(c, s) && p < c.nodes
    ensures Step(c, s, p) == s || RankLower(c, s, Step(c, s, p), p)
  {
    match s.nodes[p].pc
    case Polling(_) => PollRank(c, s, p);
    case Visiting(_, _) => VisitRank(c, s, p);
    case Waiting(_, _) => WaitRank(c, s, p);
    case _ =>
  }

  /** A process is stuck when it can only poll. */
  ghost predicate Stuck(c: Config, s: State, p: nat)
    requires c.dirs > 0 && p < |s.nodes|
  {
    Step(c, s, p) == s
  }

  /** Where a process can be when it can only poll. */
  lemma StuckPlaces(c: Config, s: State, p: nat)
    requires Inv(c, s) && p < c.nodes && Stuck(c, s, p)
    ensures match s.nodes[p].pc
            case Polling(cur) => cur < c.nodes && cur == |s.order|
            case Waiting(k, _) => SetKey(k, s.nodes[p].id) !in s.store
            case BarrierAdd => BARRIER !in s.store
            case BarrierWait => BARRIER in s.store ==> s.store[BARRIER] != Num(c.nodes)
            case Ready => true
            case _ => false
  {
    var n := s.nodes[p];
    EnteredBound(c, s, p);
    var s' := Step(c, s, p);
    assert s'.nodes[p] == n;
  }

  lemma AllEntered(c: Config, s: State)
    requires Inv(c, s) && forall p :: 0 <= p < c.nodes ==> Entered(s.nodes[p])
    ensures |s.order| == c.nodes
  {
    CountBound(s.nodes, Entered);
  }

  ghost predicate WaitsAt(s: State, a: nat)
    requires a < |s.order| && s.order[a] < |s.nodes|
  {
    s.nodes[s.order[a]].pc.Waiting?
  }

  /** The peer that the node with id `a` waits for. */
  ghost function PeerOf(s: State, a: nat): nat
    requires a < |s.order| && s.order[a] < |s.nodes| && WaitsAt(s, a)
  {
    s.nodes[s.order[a]].pc.k
  }

  /** If everybody can only poll, ids decrease along a wait chain from every second node to the
      next: the peer itself waits, for a node that it has not passed on its way up to us. */
  lemma WaitChainDescends(c: Config, s: State, a: nat)
    requires Inv(c, s) && |s.order| == c.nodes && a < c.nodes && WaitsAt(s, a)
    requires forall p :: 0 <= p < c.nodes ==> Stuck(c, s, p)
    ensures PeerOf(s, a) < c.nodes && WaitsAt(s, PeerOf(s, a))
    ensures PeerOf(s, PeerOf(s, a)) < a && WaitsAt(s, PeerOf(s, PeerOf(s, a)))
  {
    var k := s.nodes[s.order[a]].pc.k;
    StuckPlaces(c, s, s.order[a]);
    StuckPlaces(c, s, s.order[k]);
    assert !HasPublished(c, s.nodes[s.order[k]], a);
    var b := s.nodes[s.order[k]].pc.k;
    assert b < a;
    StuckPlaces(c, s, s.order[b]);
    assert !HasPublished(c, s.nodes[s.order[b]], k);
    assert WaitsAt(s, b);
  }

  lemma {:induction false} NobodyWaits(c: Config, s: State, a: nat)
    requires Inv(c, s) && |s.order| == c.nodes && a < c.nodes
    requires forall p :: 0 <= p < c.nodes ==> Stuck(c, s, p)
    ensures !WaitsAt(s, a)
    decreases a
  {
    if WaitsAt(s, a) {
      WaitChainDescends(c, s, a);
      NobodyWaits(c, s, PeerOf(s, PeerOf(s, a)));
    }
  }

  /** No deadlock: as long as somebody is not ready, somebody can do more than poll. */
  lemma Progress(c: Config, s: State)
    requires Inv(c, s) && !AllReady(s)
    ensures exists p :: 0 <= p < c.nodes && !Stuck(c, s, p)
  {
    if forall p :: 0 <= p < c.nodes ==> Stuck(c, s, p) {
      forall p | 0 <= p < c.nodes
        ensures Entered(s.nodes[p])
      {
        StuckPlaces(c, s, p);
      }
      AllEntered(c, s);
      forall p | 0 <= p < c.nodes
        ensures s.nodes[p].pc.BarrierAdd? || Added(s.nodes[p])
      {
        StuckPlaces(c, s, p);
        NobodyWaits(c, s, s.nodes[p].id);
      }
      assert PastSet(s.nodes[s.order[c.nodes - 1]]);
      forall p | 0 <= p < c.nodes
        ensures Added(s.nodes[p])
      {
        StuckPlaces(c, s, p);
      }
      CountBound(s.nodes, Added);
      var p :| 0 <= p < c.nodes && !s.nodes[p].pc.Ready?;
      StuckPlaces(c, s, p);
      assert false;
    }
  }

  // ---- Termination -----------------------------------------------------------------------------

  /** A round in which every process takes at least one step. */
  ghost predicate FairRound(c: Config, round: seq<nat>) {
    ValidSchedule(c, round) && forall p: nat :: p < c.nodes ==> p in round
  }

  lemma {:induction false} RunLowersTotal(c: Config, s: State, schedule: seq<nat>)
    requires Inv(c, s) && ValidSchedule(c, schedule)
    ensures Total(c, Run(c, s, schedule).nodes) <= Total(c, s.nodes)
    ensures (exists p :: p in schedule && !Stuck(c, s, p)) ==> Total(c, Run(c, s, schedule).nodes) < Total(c, s.nodes)
    decreases |schedule|
  {
    if schedule != [] {
      var p := schedule[0];
      StepKeepsInv(c, s, p);
      StepLowersTotal(c, s, p);
      RunLowersTotal(c, Step(c, s, p), schedule[1..]);
    }
  }

  ghost function Rounds(c: Config, s: State, rounds: seq<seq<nat>>): State
    requires c.dirs > 0 && |s.nodes| == c.nodes
    requires forall i :: 0 <= i < |rounds| ==> FairRound(c, rounds[i])
    decreases |rounds|
  {
    if rounds == [] then s
    else
      assert FairRound(c, rounds[0]);
      Rounds(c, Run(c, s, rounds[0]), rounds[1..])
  }

  lemma {:induction false} ReadyStays(c: Config, s: State, schedule: seq<nat>)
    requires c.dirs > 0 && |s.nodes| == c.nodes && AllReady(s) && ValidSchedule(c, schedule)
    ensures Run(c, s, schedule) == s
    decreases |schedule|
  {
    if schedule != [] {
      assert s.nodes[schedule[0]].pc.Ready?;
      ReadyStays(c, s, schedule[1..]);
    }
  }

  /** From any reachable state, as many fair rounds as the measure counts finish bring-up. */
  lemma {:induction false} FairRoundsFinish(c: Config, s: State, rounds: seq<seq<nat>>)
    requires Inv(c, s) && (forall i :: 0 <= i < |rounds| ==> FairRound(c, rounds[i]))
    requires Total(c, s.nodes) <= |rounds| || AllReady(s)
    ensures AllReady(Rounds(c, s, rounds))
    decreases |rounds|
  {
    if rounds == [] {
      if !AllReady(s) {
        Progress(c, s);
        var p :| 0 <= p < c.nodes && !Stuck(c, s, p);
        StepLowersTotal(c, s, p);
      }
    } else {
      var next := Run(c, s, rounds[0]);
      RunKeepsInv(c, s, rounds[0]);
      RunLowersTotal(c, s, rounds[0]);
      if AllReady(s) {
        ReadyStays(c, s, rounds[0]);
      } else {
        Progress(c, s);
        var p :| 0 <= p < c.nodes && !Stuck(c, s, p);
        assert p in rounds[0];
      }
      FairRoundsFinish(c, next, rounds[1..]);
    }
  }

  lemma {:induction false} TotalInit(c: Config, nodes: seq<Node>)
    requires forall p :: 0 <= p < |nodes| ==> nodes[p].pc.Entering?
    ensures Total(c, nodes) == |nodes| * (3 * c.nodes + 7)
  {
    if nodes != [] {
      TotalInit(c, nodes[..|nodes| - 1]);
    }
  }

  /** Bring-up of N nodes is over after N * (3N + 7) fair rounds, whatever the schedule. */
  lemma BringUpFinishes(c: Config, rounds: seq<seq<nat>>)
    requires ValidConfig(c) && forall i :: 0 <= i < |rounds| ==> FairRound(c, rounds[i])
    requires |rounds| >= c.nodes * (3 * c.nodes + 7)
    ensures AllReady(Rounds(c, Init(c), rounds))
  {
    InitInv(c);
    TotalInit(c, Init(c).nodes);
    FairRoundsFinish(c, Init(c), rounds);
  }

  // ---- Safety -----------------------------------------------------------------------------------

  /** In no run does a non-zero assertion of `setDataFromRemote` fail. */
  lemma NoAssertionFails(c: Config, schedule: seq<nat>, p: nat)
    requires ValidConfig(c) && ValidSchedule(c, schedule) && p < c.nodes
    ensures !Run(c, Init(c), schedule).nodes[p].pc.Aborted?
  {
    InitInv(c);
    RunKeepsInv(c, Init(c), schedule);
    assert NodeInv(c, |Run(c, Init(c), schedule).order|, Run(c, Init(c), schedule).nodes[p]);
  }

  /** The barrier's counter never passes the number of nodes, and nobody leaves before everybody
      has added to it. */
  lemma BarrierHolds(c: Config, schedule: seq<nat>, p: nat)
    requires ValidConfig(c) && ValidSchedule(c, schedule) && p < c.nodes
    ensures var s := Run(c, Init(c), schedule);
            && (BARRIER in s.store ==> s.store[BARRIER].Num? && s.store[BARRIER].n <= c.nodes)
            && (s.nodes[p].pc.Ready? ==> forall r :: 0 <= r < c.nodes ==> Added(s.nodes[r]))
  {
    var s := Run(c, Init(c), schedule);
    InitInv(c);
    RunKeepsInv(c, Init(c), schedule);
    CountBound(s.nodes, Added);
  }

  /** Node `a` holds queue pair `q`, connected once and to the queue pair that its peer holds. */
  ghost predicate ConnectedToPeer(c: Config, s: State, a: nat, q: Qp)
    requires |s.order| == |s.nodes| == c.nodes && forall i :: 0 <= i < |s.order| ==> s.order[i] < c.nodes
  {
    && a < c.nodes && q.remote < c.nodes
    && var here, there := s.nodes[s.order[a]].links, s.nodes[s.order[q.remote]].links;
       var peer := PeerName(a, q);
       && q in here && peer in there
       && here[q].dest == Some(Address(q.remote, there[peer].number))
       && there[peer].dest == Some(Address(a, here[q].number))
       && here[q].connects == 1 && there[peer].connects == 1
  }

  /** Once any node is ready, ids are handed out one-to-one and every queue pair of every node
      (towards itself included) is connected exactly once, to a peer that is connected back. */
  lemma ReadyMeansWired(c: Config, schedule: seq<nat>, p: nat)
    requires ValidConfig(c) && ValidSchedule(c, schedule) && p < c.nodes
    requires Run(c, Init(c), schedule).nodes[p].pc.Ready?
    ensures var s := Run(c, Init(c), schedule);
            && |s.order| == c.nodes
            && (forall i :: 0 <= i < c.nodes ==> s.order[i] < c.nodes && s.nodes[s.order[i]].id == i)
            && (forall a: nat, q: Qp :: a < c.nodes && Created(c, a, q) ==> ConnectedToPeer(c, s, a, q))
            && (forall a: nat, q: Qp :: a < c.nodes && q in s.nodes[s.order[a]].links ==> Created(c, a, q))
  {
    InitInv(c);
    RunKeepsInv(c, Init(c), schedule);
    AddedMeansWired(c, Run(c, Init(c), schedule), p);
  }

  /** Then every application thread `k` of every node `a` has one queue pair to every node `r`: towards
      directory (a * threads + k) mod dirs, which holds the other end. */
  lemma EveryThreadConnected(c: Config, schedule: seq<nat>, p: nat, a: nat, k: nat, r: nat, i: nat)
    requires ValidConfig(c) && ValidSchedule(c, schedule) && p < c.nodes
    requires Run(c, Init(c), schedule).nodes[p].pc.Ready? && a < c.nodes && k < c.threads && r < c.nodes
    ensures var s := Run(c, Init(c), schedule);
            && |s.order| == c.nodes && s.order[a] < c.nodes && s.order[r] < c.nodes
            && var here, there := s.nodes[s.order[a]].links, s.nodes[s.order[r]].links;
               && (App(k, i, r) in here <==> i == (a * c.threads + k) % c.dirs)
               && (Dir(i, k, a) in there <==> i == (a * c.threads + k) % c.dirs)
               && (App(k, i, r) in here ==>
                    && here[App(k, i, r)].dest == Some(Address(r, there[Dir(i, k, a)].number))
                    && there[Dir(i, k, a)].dest == Some(Address(a, here[App(k, i, r)].number)))
  {
    ReadyMeansWired(c, schedule, p);
    var s := Run(c, Init(c), schedule);
    PeersMatch(c, a, App(k, i, r));
    if Created(c, a, App(k, i, r)) {
      assert ConnectedToPeer(c, s, a, App(k, i, r));
      assert ConnectedToPeer(c, s, r, Dir(i, k, a));
    }
  }

  lemma WiredWhenAdded(c: Config, s: State, a: nat)
    requires Inv(c, s) && a < |s.order| && Added(s.nodes[s.order[a]])
    ensures Wired(c, a, s.nodes[s.order[a]].links, c.nodes, true)
  {
    assert NodeInv(c, |s.order|, s.nodes[s.order[a]]);
  }

  lemma PairConnected(c: Config, s: State, a: nat, q: Qp)
    requires Inv(c, s) && |s.order| == c.nodes && a < c.nodes && Created(c, a, q)
    requires Wired(c, a, s.nodes[s.order[a]].links, c.nodes, true)
    requires Wired(c, q.remote, s.nodes[s.order[q.remote]].links, c.nodes, true)
    ensures ConnectedToPeer(c, s, a, q)
  {
    PeersMatch(c, a, q);
  }

  lemma AddedMeansWired(c: Config, s: State, p: nat)
    requires Inv(c, s) && p < c.nodes && s.nodes[p].pc.Ready?
    ensures |s.order| == c.nodes
    ensures forall i :: 0 <= i < c.nodes ==> s.order[i] < c.nodes && s.nodes[s.order[i]].id == i
    ensures forall a: nat, q: Qp :: a < c.nodes && Created(c, a, q) ==> ConnectedToPeer(c, s, a, q)
    ensures forall a: nat, q: Qp :: a < c.nodes && q in s.nodes[s.order[a]].links ==> Created(c, a, q)
  {
    CountBound(s.nodes, Added);
    AllEntered(c, s);
    forall a: nat | a < c.nodes
      ensures Wired(c, a, s.nodes[s.order[a]].links, c.nodes, true)
    {
      WiredWhenAdded(c, s, a);
    }
    forall a: nat, q: Qp | a < c.nodes && Created(c, a, q)
      ensures ConnectedToPeer(c, s, a, q)
    {
      PairConnected(c, s, a, q);
    }
  }
}
