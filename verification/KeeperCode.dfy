/** Bring-up as the processes run it: the operations on the store, and the loops of serverConnect
    around them. In the gap behind every operation other processes take their steps; a call that
    has to wait ends with the gaps. */
module KeeperCode {
  import opened Keys
  import opened Schedules
  import opened Wiring
  import opened BringUp
  import opened BringUpTheorems

  lemma {:induction false} RunSnoc(c: Config, s: State, schedule: seq<nat>, p: nat)
    requires c.dirs > 0 && |s.nodes| == c.nodes && ValidSchedule(c, schedule) && p < c.nodes
    ensures ValidSchedule(c, schedule + [p])
    ensures Run(c, s, schedule + [p]) == Step(c, Run(c, s, schedule), p)
    decreases |schedule|
  {
    if schedule == [] {
      assert (schedule + [p])[1..] == [];
    } else {
      assert (schedule + [p])[1..] == schedule[1..] + [p];
      RunSnoc(c, Step(c, s, schedule[0]), schedule[1..], p);
    }
  }

  /** A step of another process leaves `p` as it is. */
  lemma OthersKeep(c: Config, s: State, q: nat, p: nat)
    requires c.dirs > 0 && q < |s.nodes| && p < |s.nodes| && p != q
    ensures Step(c, s, q).nodes[p] == s.nodes[p]
  {}

  class Cluster {
    const c: Config
    var store: map<Key, Value>
    var nodes: seq<Node>
    var order: seq<nat>  // which process got which id
    ghost var trace: seq<nat>

    ghost function View(): State
      reads this
    {
      State(store, nodes, order)
    }

    /** The run that led here; the theorems about runs apply. */
    ghost predicate Valid()
      reads this
    {
      c.dirs > 0 && ValidSchedule(c, trace) && View() == Run(c, Init(c), trace)
    }

    constructor (c: Config)
      requires c.dirs > 0
      ensures Valid() && this.c == c && View() == Init(c)
    {
      this.c := c;
      var s := Init(c);
      store, nodes, order, trace := s.store, s.nodes, s.order, [];
    }

    /** Record that process `p` has taken a step. */
    ghost method Record(p: nat, before: State)
      requires c.dirs > 0 && ValidSchedule(c, trace) && before == Run(c, Init(c), trace) && p < c.nodes
      requires View() == Step(c, before, p)
      modifies this`trace
      ensures Valid() && trace == old(trace) + [p]
    {
      RunSnoc(c, Init(c), trace, p);
      trace := trace + [p];
    }

    /** Any step of another process `q`. */
    method OneOther(p: nat, q: nat)
      requires Valid() && p < c.nodes && q < c.nodes && p != q
      modifies this
      ensures Valid() && nodes[p] == old(nodes)[p] && trace == old(trace) + [q]
    {
      ghost var before := View();
      OthersKeep(c, before, q, p);
      var s := Step(c, State(store, nodes, order), q);
      store, nodes, order := s.store, s.nodes, s.order;
      Record(q, before);
    }

    static lemma Snoc(was: seq<nat>, gap: seq<nat>, i: nat)
      requires i < |gap|
      ensures was + gap[..i] + [gap[i]] == was + gap[..i + 1]
    {}

    /** The other processes in a gap. */
    method Others(p: nat, gap: seq<nat>)
      requires Valid() && p < c.nodes && p !in gap && ValidSchedule(c, gap)
      modifies this
      ensures Valid() && nodes[p] == old(nodes)[p] && trace == old(trace) + gap
    {
      var i := 0;
      ghost var was := trace;
      while i < |gap|
        invariant 0 <= i <= |gap| && Valid() && nodes[p] == old(nodes)[p] && trace == was + gap[..i]
      {
        OneOther(p, gap[i]);
        Snoc(was, gap, i);
        i := i + 1;
      }
      assert gap[..i] == gap;
    }

    // ---- Operations of one process ---------------------------------------------------------------

    /** serverEnter, one try. */
    method ServerEnter(p: nat) returns (ok: bool)
      requires Valid() && p < c.nodes && nodes[p].pc.Entering?
      modifies this
      ensures Valid() && View() == Step(c, old(View()), p) && trace == old(trace) + [p]
      ensures ok ==> nodes[p].pc == Polling(0)
      ensures ok <==> ServerNum in old(store) && old(store)[ServerNum].Num?
      ensures ok ==> var n := old(store)[ServerNum].n;
                store == old(store)[ServerNum := Num(n + 1)] && nodes[p].id == n % 65536 && order == old(order) + [p]
      ensures !ok ==> nodes[p].pc.Entering?
    {
      ghost var before := View();
      ok := ServerNum in store && store[ServerNum].Num?;
      if ok {
        var num := store[ServerNum].n + 1;
        var id := Word16(num - 1);
        store := store[ServerNum := Num(num)];
        nodes := nodes[p := Node(Polling(0), id, InitialLinks(c, id))];
        order := order + [p];
      }
      Record(p, before);
    }

    /** The counter is read at the top of serverConnect's loop. */
    method ReadServerNum(p: nat, curServer: nat) returns (ok: bool, serverNum: nat)
      requires Valid() && p < c.nodes && nodes[p].pc == Polling(curServer) && curServer < c.nodes
      modifies this
      ensures Valid() && View() == Step(c, old(View()), p) && trace == old(trace) + [p]
      ensures nodes[p].pc == if ok then LoopAt(curServer, serverNum) else Polling(curServer)
    {
      ghost var before := View();
      ok, serverNum := ServerNum in store && store[ServerNum].Num?, 0;
      if ok {
        serverNum := store[ServerNum].n;
        nodes := nodes[p := nodes[p].(pc := LoopAt(curServer, serverNum))];
      }
      Record(p, before);
    }

    /** The loop passes over the node itself. */
    method SkipSelf(p: nat, k: nat, bound: nat)
      requires Valid() && p < c.nodes && nodes[p].pc == Visiting(k, bound) && k == nodes[p].id
      modifies this
      ensures Valid() && View() == Step(c, old(View()), p) && trace == old(trace) + [p]
      ensures nodes[p].pc == LoopAt(k + 1, bound) && nodes[p].id == old(nodes)[p].id
    {
      ghost var before := View();
      nodes := nodes[p := nodes[p].(pc := LoopAt(k + 1, bound))];
      Record(p, before);
    }

    /** connectNode up to its memSet. */
    method Publish(p: nat, k: nat, bound: nat)
      requires Valid() && p < c.nodes && nodes[p].pc == Visiting(k, bound) && k != nodes[p].id
      modifies this
      ensures Valid() && View() == Step(c, old(View()), p) && trace == old(trace) + [p]
      ensures nodes[p].pc == Waiting(k, bound) && nodes[p].id == old(nodes)[p].id
      ensures store == old(store)[Pair(nodes[p].id, k) := Published(MetaTo(c.threads, c.dirs, nodes[p].id, nodes[p].links, k))]
    {
      ghost var before := View();
      var n := nodes[p];
      var localMeta := MetaTo(c.threads, c.dirs, n.id, n.links, k);
      store := store[SetKey(n.id, k) := Published(localMeta)];
      nodes := nodes[p := n.(pc := Waiting(k, bound))];
      Record(p, before);
    }

    /** One try of connectNode's memGet and, if it succeeds, the connection. */
    method Receive(p: nat, k: nat, bound: nat) returns (ok: bool)
      requires Valid() && p < c.nodes && nodes[p].pc == Waiting(k, bound)
      modifies this
      ensures Valid() && View() == Step(c, old(View()), p) && trace == old(trace) + [p]
      ensures nodes[p].id == old(nodes)[p].id && store == old(store)
      ensures ok <==> var key := Pair(k, nodes[p].id); key in store && store[key].Published?
      ensures !ok ==> nodes[p].pc == Waiting(k, bound)
      ensures ok ==> nodes[p].pc == LoopAt(k + 1, bound) || nodes[p].pc.Aborted?
    {
      ghost var before := View();
      var n := nodes[p];
      var key := GetKey(n.id, k);
      ok := key in store && store[key].Published?;
      if ok {
        nodes := nodes[p := ConnectTo(c, n, k, store[key].m, LoopAt(k + 1, bound))];
      }
      Record(p, before);
    }

    /** The loop condition of serverConnect fails. */
    method LeaveConnect(p: nat, curServer: nat)
      requires Valid() && p < c.nodes && nodes[p].pc == Polling(curServer) && curServer >= c.nodes
      modifies this
      ensures Valid() && View() == Step(c, old(View()), p) && trace == old(trace) + [p]
      ensures nodes[p].pc == SelfConnect
    {
      ghost var before := View();
      nodes := nodes[p := nodes[p].(pc := SelfConnect)];
      Record(p, before);
    }

    method ConnectMySelf(p: nat)
      requires Valid() && p < c.nodes && nodes[p].pc == SelfConnect
      modifies this
      ensures Valid() && View() == Step(c, old(View()), p) && trace == old(trace) + [p]
    {
      ghost var before := View();
      nodes := nodes[p := ConnectSelf(c, nodes[p])];
      Record(p, before);
    }

    // ---- The loops -------------------------------------------------------------------------------
    // `g` counts the gaps used before a call, `h` those used when it returns: the call has taken
    // exactly the steps of `p` and of the others that Played(p, gaps, g, h) lists.

    ghost predicate GapsOf(p: nat, gaps: seq<seq<nat>>) {
      forall g :: 0 <= g < |gaps| ==> p !in gaps[g] && ValidSchedule(c, gaps[g])
    }

    /** connectNode's retried memGet. */
    method AwaitPeer(p: nat, k: nat, bound: nat, gaps: seq<seq<nat>>, g: nat) returns (ok: bool, h: nat)
      requires Valid() && p < c.nodes && GapsOf(p, gaps) && nodes[p].pc == Waiting(k, bound)
      modifies this
      ensures Valid() && h >= g && trace == old(trace) + Played(p, gaps, g, h) && nodes[p].id == old(nodes)[p].id
      ensures ok ==> nodes[p].pc == LoopAt(k + 1, bound)
      ensures !ok ==> h >= |gaps| || nodes[p].pc.Aborted?
    {
      ghost var was := trace;
      h, ok := g, false;
      while !ok && h < |gaps|
        invariant Valid() && h >= g && trace == was + Played(p, gaps, g, h) && nodes[p].id == old(nodes)[p].id
        invariant !ok ==> nodes[p].pc == Waiting(k, bound)
        invariant ok ==> nodes[p].pc == LoopAt(k + 1, bound) || nodes[p].pc.Aborted?
      {
        ok := Receive(p, k, bound);
        Others(p, Gap(gaps, h));
        PlayedNext(was, p, gaps, g, h);
        h := h + 1;
      }
      ok := ok && !nodes[p].pc.Aborted?;
    }

    /** connectNode */
    method ConnectNode(p: nat, k: nat, bound: nat, gaps: seq<seq<nat>>, g: nat) returns (ok: bool, h: nat)
      requires Valid() && p < c.nodes && GapsOf(p, gaps) && nodes[p].pc == Visiting(k, bound) && k != nodes[p].id
      modifies this
      ensures Valid() && h > g && trace == old(trace) + Played(p, gaps, g, h) && nodes[p].id == old(nodes)[p].id
      ensures ok ==> nodes[p].pc == LoopAt(k + 1, bound)
      ensures !ok ==> h >= |gaps| || nodes[p].pc.Aborted?
    {
      ghost var was := trace;
      Publish(p, k, bound);
      Others(p, Gap(gaps, g));
      PlayedNext(was, p, gaps, g, g);
      assert trace == was + Played(p, gaps, g, g + 1);
      ok, h := AwaitPeer(p, k, bound, gaps, g + 1);
      Joined(was, p, gaps, g, g + 1, h);
    }

    static lemma Joined(was: seq<nat>, p: nat, gaps: seq<seq<nat>>, a: nat, b: nat, d: nat)
      requires a <= b <= d
      ensures was + Played(p, gaps, a, b) + Played(p, gaps, b, d) == was + Played(p, gaps, a, d)
    {
      PlayedConcat(p, gaps, a, b, d);
    }

    /** One round of the for loop. */
    method VisitPeer(p: nat, k: nat, bound: nat, gaps: seq<seq<nat>>, g: nat) returns (ok: bool, h: nat)
      requires Valid() && p < c.nodes && GapsOf(p, gaps) && nodes[p].pc == Visiting(k, bound)
      modifies this
      ensures Valid() && h > g && trace == old(trace) + Played(p, gaps, g, h)
      ensures ok ==> nodes[p].pc == LoopAt(k + 1, bound)
      ensures !ok ==> h >= |gaps| || nodes[p].pc.Aborted?
    {
      if k == nodes[p].id {
        ghost var was := trace;
        SkipSelf(p, k, bound);
        Others(p, Gap(gaps, g));
        PlayedNext(was, p, gaps, g, g);
        ok, h := true, g + 1;
      } else {
        ok, h := ConnectNode(p, k, bound, gaps, g);
      }
    }

    /** The for loop: peers from `curServer` up to `serverNum`, except the node itself. */
    method ConnectPeers(p: nat, curServer: nat, serverNum: nat, gaps: seq<seq<nat>>, g: nat) returns (ok: bool, h: nat)
      requires Valid() && p < c.nodes && GapsOf(p, gaps) && nodes[p].pc == LoopAt(curServer, serverNum)
      modifies this
      ensures Valid() && h >= g && trace == old(trace) + Played(p, gaps, g, h)
      ensures ok ==> nodes[p].pc == Polling(Word16(serverNum))
      ensures !ok ==> h >= |gaps| || nodes[p].pc.Aborted?
    {
      ok, h := true, g;
      ghost var was := trace;
      var k := curServer;
      while ok && k < serverNum
        invariant Valid() && h >= g && curServer <= k && trace == was + Played(p, gaps, g, h)
        invariant ok ==> nodes[p].pc == LoopAt(k, serverNum)
        invariant !ok ==> h >= |gaps| || nodes[p].pc.Aborted?
        decreases serverNum - k
      {
        ghost var h1 := h;
        ok, h := VisitPeer(p, k, serverNum, gaps, h);
        Joined(was, p, gaps, g, h1, h);
        k := k + 1;
      }
    }

    /** One round of serverConnect's loop. */
    method ConnectRound(p: nat, curServer: nat, gaps: seq<seq<nat>>, g: nat) returns (ok: bool, next: nat, h: nat)
      requires Valid() && p < c.nodes && GapsOf(p, gaps) && nodes[p].pc == Polling(curServer) && curServer < c.nodes
      modifies this
      ensures Valid() && h > g && trace == old(trace) + Played(p, gaps, g, h)
      ensures ok ==> nodes[p].pc == Polling(next)
      ensures !ok ==> h >= |gaps| || nodes[p].pc.Aborted?
    {
      ghost var was := trace;
      var read, serverNum := ReadServerNum(p, curServer);
      Others(p, Gap(gaps, g));
      PlayedNext(was, p, gaps, g, g);
      ok, next, h := true, curServer, g + 1;
      assert trace == was + Played(p, gaps, g, g + 1);
      if read {
        ok, h := ConnectPeers(p, curServer, serverNum, gaps, h);
        Joined(was, p, gaps, g, g + 1, h);
        next := Word16(serverNum);
      }
    }

    /** serverConnect: it goes on until every node has entered and is connected. */
    method ServerConnect(p: nat, gaps: seq<seq<nat>>, g: nat) returns (done: bool, h: nat)
      requires Valid() && p < c.nodes && GapsOf(p, gaps) && nodes[p].pc == Polling(0)
      modifies this
      ensures Valid() && h >= g && trace == old(trace) + Played(p, gaps, g, h)
      ensures done ==> nodes[p].pc == SelfConnect
      ensures !done ==> h >= |gaps| || nodes[p].pc.Aborted?
    {
      ghost var was := trace;
      var curServer: nat := 0;
      var ok := true;
      h := g;
      while ok && curServer < c.nodes && h < |gaps|
        invariant Valid() && h >= g && trace == was + Played(p, gaps, g, h)
        invariant ok ==> nodes[p].pc == Polling(curServer)
        invariant !ok ==> h >= |gaps| || nodes[p].pc.Aborted?
        decreases |gaps| - h
      {
        ghost var h1 := h;
        ok, curServer, h := ConnectRound(p, curServer, gaps, h);
        Joined(was, p, gaps, g, h1, h);
      }
      done := ok && curServer >= c.nodes;
      if done {
        LeaveConnect(p, curServer);
        Others(p, Gap(gaps, h));
        PlayedNext(was, p, gaps, g, h);
        h := h + 1;
      }
    }

    /** serverEnter: tried until it succeeds. */
    method Enter(p: nat, gaps: seq<seq<nat>>) returns (entered: bool, h: nat)
      requires Valid() && p < c.nodes && GapsOf(p, gaps) && nodes[p].pc.Entering?
      modifies this
      ensures Valid() && trace == old(trace) + Played(p, gaps, 0, h) && (entered || h >= |gaps|)
      ensures nodes[p].pc == if entered then Polling(0) else Entering
    {
      ghost var was := trace;
      entered, h := false, 0;
      while !entered && h < |gaps|
        invariant Valid() && trace == was + Played(p, gaps, 0, h)
        invariant nodes[p].pc == if entered then Polling(0) else Entering
      {
        entered := ServerEnter(p);
        Others(p, Gap(gaps, h));
        PlayedNext(was, p, gaps, 0, h);
        h := h + 1;
      }
    }

    /** The constructor's serverEnter, and then `run`. */
    method BringUpNode(p: nat, gaps: seq<seq<nat>>) returns (done: bool, h: nat)
      requires Valid() && p < c.nodes && GapsOf(p, gaps) && nodes[p].pc.Entering?
      modifies this
      ensures Valid() && trace == old(trace) + Played(p, gaps, 0, h)
      ensures done ==> nodes[p].pc.BarrierSet? || nodes[p].pc.BarrierAdd?
      ensures !done ==> h >= |gaps| || nodes[p].pc.Aborted?
    {
      ghost var was := trace;
      done, h := Enter(p, gaps);
      if done {
        ghost var h1 := h;
        done, h := ServerConnect(p, gaps, h);
        Joined(was, p, gaps, 0, h1, h);
      }
      if done {
        done := Finish(p, Gap(gaps, h));
        PlayedNext(was, p, gaps, 0, h);
        h := h + 1;
      }
    }

    /** connectMySelf, and the gap behind it. */
    method Finish(p: nat, gap: seq<nat>) returns (done: bool)
      requires Valid() && p < c.nodes && p !in gap && ValidSchedule(c, gap) && nodes[p].pc == SelfConnect
      modifies this
      ensures Valid() && trace == old(trace) + [p] + gap
      ensures if done then nodes[p].pc.BarrierSet? || nodes[p].pc.BarrierAdd? else nodes[p].pc.Aborted?
    {
      ConnectMySelf(p);
      Others(p, gap);
      done := !nodes[p].pc.Aborted?;
    }
  }
}
