/** Cluster bring-up: `nodes` processes take ids from a shared counter, exchange their queue
    pair numbers pairwise through a key-value store, connect, and meet at a barrier. Every
    step of a process is one operation on the store (or a local step between two of them);
    the schedule is arbitrary. A step that only polls leaves the state unchanged. */
module BringUp {
  import opened Keys
  import opened Wiring
  import B = Barrier

  datatype Pc =
    | Entering                      // serverEnter
    | Polling(cur: nat)             // top of serverConnect, curServer == cur
    | Visiting(k: nat, bound: nat)  // in its for loop, before connectNode(k)
    | Waiting(k: nat, bound: nat)   // in connectNode(k), published, memGet retries
    | SelfConnect                   // connectMySelf
    | BarrierSet | BarrierAdd | BarrierWait
    | Ready
    | Aborted                       // an assertion failed

  datatype Value = Num(n: nat) | Published(m: Meta)

  datatype Node = Node(pc: Pc, id: nat, links: map<Qp, Link>)

  /** `order` is auxiliary: which process got which id. */
  datatype State = State(store: map<Key, Value>, nodes: seq<Node>, order: seq<nat>)

  const BARRIER := Barrier("DSM-init")

  lemma BarrierName()
    ensures Render(BARRIER) == "barrier-DSM-init" && Render(ServerNum) == "serverNum"
  {}

  function Init(c: Config): State {
    State(map[ServerNum := Num(0)], seq(c.nodes, _ => Node(Entering, 0, map[])), [])
  }

  /** A `uint16_t` field. */
  function Word16(n: nat): nat {
    n % 0x10000
  }

  /** The for loop of serverConnect goes on with peer `k`, or curServer becomes `bound`. */
  function LoopAt(k: nat, bound: nat): Pc {
    if k < bound then Visiting(k, bound) else Polling(Word16(bound))
  }

  function Move(s: State, p: nat, n: Node): State
    requires p < |s.nodes|
  {
    s.(nodes := s.nodes[p := n])
  }

  /** `setDataFromRemote` followed by `next`. */
  function ConnectTo(c: Config, n: Node, remote: nat, m: Meta, next: Pc): Node {
    if Shaped(c.threads, c.dirs, m) && InRange(c.threads, c.dirs, n.links) && Covered(c.threads, c.dirs, n.links, remote, m)
    then Node(next, n.id, Connected(c.threads, c.dirs, n.links, remote, m))
    else n.(pc := Aborted)
  }

  /** serverEnter: the counter's old value is the id. Connections are created for it. */
  function StepEnter(c: Config, s: State, p: nat): State
    requires c.dirs > 0 && p < |s.nodes|
  {
    if ServerNum in s.store && s.store[ServerNum].Num? then
      var num := s.store[ServerNum].n + 1;
      var id := Word16(num - 1);
      State(s.store[ServerNum := Num(num)], s.nodes[p := Node(Polling(0), id, InitialLinks(c, id))], s.order + [p])
    else s
  }

  /** The test of serverConnect's loop and the read of the counter. */
  function StepPoll(c: Config, s: State, p: nat): State
    requires p < |s.nodes| && s.nodes[p].pc.Polling?
  {
    var n := s.nodes[p];
    if n.pc.cur >= c.nodes then Move(s, p, n.(pc := SelfConnect))
    else if ServerNum in s.store && s.store[ServerNum].Num? then
      Move(s, p, n.(pc := LoopAt(n.pc.cur, s.store[ServerNum].n)))
    else s
  }

  /** Skip oneself, or publish for peer `k`. */
  function StepVisit(c: Config, s: State, p: nat): State
    requires p < |s.nodes| && s.nodes[p].pc.Visiting?
  {
    var n := s.nodes[p];
    var k, bound := n.pc.k, n.pc.bound;
    if k == n.id then Move(s, p, n.(pc := LoopAt(k + 1, bound)))
    else State(s.store[SetKey(n.id, k) := Published(MetaTo(c.threads, c.dirs, n.id, n.links, k))],
               s.nodes[p := n.(pc := Waiting(k, bound))], s.order)
  }

  /** memGet of what peer `k` published, and the connection to it. */
  function StepWait(c: Config, s: State, p: nat): State
    requires p < |s.nodes| && s.nodes[p].pc.Waiting?
  {
    var n := s.nodes[p];
    var key := GetKey(n.id, n.pc.k);
    if key in s.store && s.store[key].Published?
    then Move(s, p, ConnectTo(c, n, n.pc.k, s.store[key].m, LoopAt(n.pc.k + 1, n.pc.bound)))
    else s
  }

  function ConnectSelf(c: Config, n: Node): Node {
    ConnectTo(c, n, n.id, MetaTo(c.threads, c.dirs, n.id, n.links, n.id),
              if n.id == c.nodes - 1 then BarrierSet else BarrierAdd)
  }

  /** The barrier's counter. */
  function CounterOf(store: map<Key, Value>): (v: int)
    ensures v >= B.ABSENT
  {
    if BARRIER in store && store[BARRIER].Num? then store[BARRIER].n else B.ABSENT
  }

  predicate InBarrier(pc: Pc) {
    pc.BarrierSet? || pc.BarrierAdd? || pc.BarrierWait? || pc.Ready?
  }

  /** Where a process is in its call of the barrier, and back. */
  function CallOf(pc: Pc): B.Pc
    requires InBarrier(pc)
  {
    match pc
    case BarrierSet => B.Set
    case BarrierAdd => B.Incr
    case BarrierWait => B.Poll
    case Ready => B.Done
  }

  function AfterCall(q: B.Pc): Pc {
    match q
    case Set => BarrierSet
    case Incr => BarrierAdd
    case Poll => BarrierWait
    case Done => Ready
  }

  /** One access of the barrier's protocol to its counter in the store. */
  function StepBarrier(c: Config, s: State, p: nat): State
    requires p < |s.nodes|
  {
    var n := s.nodes[p];
    if !InBarrier(n.pc) || (BARRIER in s.store && !s.store[BARRIER].Num?) then s
    else
      var value := CounterOf(s.store);
      var (v, q) := B.Access(value, CallOf(n.pc), c.nodes);
      if v == value && q == CallOf(n.pc) then s
      else State(if v == value then s.store else s.store[BARRIER := Num(v)], s.nodes[p := n.(pc := AfterCall(q))], s.order)
  }

  /** One step of process `p`. */
  function Step(c: Config, s: State, p: nat): State
    requires c.dirs > 0 && p < |s.nodes|
  {
    match s.nodes[p].pc
    case Entering => StepEnter(c, s, p)
    case Polling(_) => StepPoll(c, s, p)
    case Visiting(_, _) => StepVisit(c, s, p)
    case Waiting(_, _) => StepWait(c, s, p)
    case SelfConnect => Move(s, p, ConnectSelf(c, s.nodes[p]))
    case _ => StepBarrier(c, s, p)
  }

  // ---- Counting over the processes ------------------------------------------------------------

  function Count(nodes: seq<Node>, f: Node -> bool): nat {
    if nodes == [] then 0 else Count(nodes[..|nodes| - 1], f) + (if f(nodes[|nodes| - 1]) then 1 else 0)
  }

  lemma {:induction false} CountUpdate(nodes: seq<Node>, f: Node -> bool, p: nat, n: Node)
    requires p < |nodes|
    ensures Count(nodes[p := n], f) == Count(nodes, f) - (if f(nodes[p]) then 1 else 0) + (if f(n) then 1 else 0)
  {
    var last := |nodes| - 1;
    if p == last {
      assert nodes[p := n][..last] == nodes[..last];
    } else {
      assert nodes[p := n][..last] == nodes[..last][p := n];
      CountUpdate(nodes[..last], f, p, n);
    }
  }

  lemma {:induction false} CountBound(nodes: seq<Node>, f: Node -> bool)
    ensures Count(nodes, f) <= |nodes|
    ensures Count(nodes, f) == |nodes| <==> forall p :: 0 <= p < |nodes| ==> f(nodes[p])
    ensures Count(nodes, f) == 0 <==> forall p :: 0 <= p < |nodes| ==> !f(nodes[p])
  {
    if nodes != [] {
      var last := |nodes| - 1;
      CountBound(nodes[..last], f);
      assert forall p :: 0 <= p < last ==> nodes[..last][p] == nodes[p];
    }
  }

  function Total(c: Config, nodes: seq<Node>): nat {
    if nodes == [] then 0 else Total(c, nodes[..|nodes| - 1]) + Rank(c, nodes[|nodes| - 1].pc)
  }

  lemma {:induction false} TotalUpdate(c: Config, nodes: seq<Node>, p: nat, n: Node)
    requires p < |nodes|
    ensures Total(c, nodes[p := n]) == Total(c, nodes) - Rank(c, nodes[p].pc) + Rank(c, n.pc)
  {
    var last := |nodes| - 1;
    if p == last {
      assert nodes[p := n][..last] == nodes[..last];
    } else {
      assert nodes[p := n][..last] == nodes[..last][p := n];
      TotalUpdate(c, nodes[..last], p, n);
    }
  }

  /** How many steps that change anything a process can still take, at most. */
  function Rank(c: Config, pc: Pc): nat {
    match pc
    case Entering => 3 * c.nodes + 7
    case Polling(cur) => if cur < c.nodes then 3 * (c.nodes - cur) + 6 else 6
    case Visiting(k, _) => if k < c.nodes then 3 * (c.nodes - k) + 5 else 5
    case Waiting(k, _) => if k < c.nodes then 3 * (c.nodes - k) + 4 else 4
    case SelfConnect => 5
    case BarrierSet => 4
    case BarrierAdd => 3
    case BarrierWait => 2
    case Ready => 1
    case Aborted => 0
  }

  // ---- Invariant ------------------------------------------------------------------------------

  predicate Entered(n: Node) { !n.pc.Entering? }
  predicate PastSelf(n: Node) { n.pc.BarrierSet? || n.pc.BarrierAdd? || n.pc.BarrierWait? || n.pc.Ready? }
  predicate PastSet(n: Node) { n.pc.BarrierAdd? || n.pc.BarrierWait? || n.pc.Ready? }
  predicate Added(n: Node) { n.pc.BarrierWait? || n.pc.Ready? }

  /** The first peer that is not connected yet. */
  function NextPeer(c: Config, n: Node): nat {
    match n.pc
    case Entering => 0
    case Polling(cur) => cur
    case Visiting(k, _) => k
    case Waiting(k, _) => k
    case _ => c.nodes
  }

  /** The peers that a node has published its data for. */
  predicate HasPublished(c: Config, n: Node, k: nat) {
    k != n.id && (k < NextPeer(c, n) || (n.pc.Waiting? && k == n.pc.k))
  }

  ghost predicate OrderInv(c: Config, s: State) {
    && |s.nodes| == c.nodes
    && ServerNum in s.store && s.store[ServerNum] == Num(|s.order|)
    && |s.order| == Count(s.nodes, Entered)
    && (forall i :: 0 <= i < |s.order| ==> s.order[i] < c.nodes && Entered(s.nodes[s.order[i]]) && s.nodes[s.order[i]].id == i)
    && (forall p :: 0 <= p < c.nodes && Entered(s.nodes[p]) ==> s.nodes[p].id < |s.order| && s.order[s.nodes[p].id] == p)
  }

  ghost predicate NodeInv(c: Config, entered: nat, n: Node)
    requires c.dirs > 0
  {
    Entered(n) ==>
      && !n.pc.Aborted?
      && (n.pc.Polling? ==> n.pc.cur <= entered)
      && (n.pc.Visiting? ==> n.pc.k < n.pc.bound <= entered)
      && (n.pc.Waiting? ==> n.pc.k < n.pc.bound <= entered && n.pc.k != n.id)
      && (n.pc.BarrierSet? ==> n.id == c.nodes - 1)
      && Wired(c, n.id, n.links, NextPeer(c, n), PastSelf(n))
  }

  ghost predicate StoreInv(c: Config, s: State)
    requires OrderInv(c, s) && c.dirs > 0
  {
    forall a: nat, k: nat ::
      && (SetKey(a, k) in s.store <==> a < |s.order| && HasPublished(c, s.nodes[s.order[a]], k))
      && (SetKey(a, k) in s.store ==> s.store[SetKey(a, k)].Published? && MetaFor(c, a, k, s.store[SetKey(a, k)].m))
  }

  ghost predicate BarrierInv(c: Config, s: State)
    requires |s.nodes| == c.nodes
  {
    var count := Count(s.nodes, Added);
    && (if BARRIER in s.store then s.store[BARRIER] == Num(count) else count == 0)
    && (forall p :: 0 <= p < c.nodes && Entered(s.nodes[p]) && s.nodes[p].id == c.nodes - 1
          ==> (BARRIER in s.store <==> PastSet(s.nodes[p])))
    && (Count(s.nodes, Entered) < c.nodes ==> BARRIER !in s.store)
    && (forall p :: 0 <= p < c.nodes && s.nodes[p].pc.Ready? ==> count == c.nodes)
  }

  ghost predicate Inv(c: Config, s: State) {
    && ValidConfig(c)
    && OrderInv(c, s)
    && (forall p :: 0 <= p < c.nodes ==> NodeInv(c, |s.order|, s.nodes[p]))
    && StoreInv(c, s)
    && BarrierInv(c, s)
  }

  lemma InitInv(c: Config)
    requires ValidConfig(c)
    ensures Inv(c, Init(c))
  {
    var s := Init(c);
    CountBound(s.nodes, Entered);
    CountBound(s.nodes, Added);
  }

  /** Process `p` moves to `n` and the counter is left alone. */
  ghost predicate Replaces(c: Config, s: State, s': State, p: nat, n: Node) {
    && |s.nodes| == c.nodes && p < c.nodes && s'.order == s.order && s'.nodes == s.nodes[p := n]
    && Entered(s.nodes[p]) && Entered(n) && n.id == s.nodes[p].id
    && ServerNum in s.store && ServerNum in s'.store && s'.store[ServerNum] == s.store[ServerNum]
  }

  lemma FrameOrder(c: Config, s: State, s': State, p: nat, n: Node)
    requires OrderInv(c, s) && Replaces(c, s, s', p, n)
    ensures OrderInv(c, s')
  {
    CountUpdate(s.nodes, Entered, p, n);
  }

  lemma FrameStore(c: Config, s: State, s': State, p: nat, n: Node)
    requires c.dirs > 0 && OrderInv(c, s) && StoreInv(c, s) && Replaces(c, s, s', p, n) && OrderInv(c, s')
    requires forall k: nat :: HasPublished(c, n, k) == HasPublished(c, s.nodes[p], k)
    requires forall a: nat, k: nat :: SetKey(a, k) in s'.store <==> SetKey(a, k) in s.store
    requires forall a: nat, k: nat :: SetKey(a, k) in s.store ==> s'.store[SetKey(a, k)] == s.store[SetKey(a, k)]
    ensures StoreInv(c, s')
  {
    forall a: nat, k: nat | a < |s.order|
      ensures HasPublished(c, s'.nodes[s.order[a]], k) == HasPublished(c, s.nodes[s.order[a]], k)
    {}
  }

  lemma FrameBarrier(c: Config, s: State, s': State, p: nat, n: Node)
    requires |s.nodes| == c.nodes && BarrierInv(c, s) && Replaces(c, s, s', p, n)
    requires BARRIER in s'.store <==> BARRIER in s.store
    requires BARRIER in s.store ==> s'.store[BARRIER] == s.store[BARRIER]
    requires !PastSet(s.nodes[p]) && !Added(n) && (PastSet(n) ==> n.id != c.nodes - 1)
    ensures BarrierInv(c, s')
  {
    CountUpdate(s.nodes, Entered, p, n);
    CountUpdate(s.nodes, Added, p, n);
  }

  /** A step of one process that neither publishes nor touches the barrier keeps the invariant. */
  lemma LocalStep(c: Config, s: State, p: nat, n: Node)
    requires Inv(c, s) && p < c.nodes
    requires Entered(s.nodes[p]) && NodeStep(c, |s.order|, s.nodes[p], n)
    requires !PastSet(s.nodes[p]) && !Added(n) && (PastSet(n) ==> n.id != c.nodes - 1)
    ensures Inv(c, Move(s, p, n))
  {
    FrameOrder(c, s, Move(s, p, n), p, n);
    FrameStore(c, s, Move(s, p, n), p, n);
    FrameBarrier(c, s, Move(s, p, n), p, n);
  }

  lemma StepKeepsInv(c: Config, s: State, p: nat)
    requires Inv(c, s) && p < c.nodes
    ensures Inv(c, Step(c, s, p))
  {
    match s.nodes[p].pc
    case Entering => EnterKeepsInv(c, s, p);
    case Polling(_) => PollKeepsInv(c, s, p);
    case Visiting(k, _) =>
      if k == s.nodes[p].id {
        SkipKeepsInv(c, s, p);
      } else {
        PublishKeepsInv(c, s, p);
      }
    case Waiting(_, _) => WaitKeepsInv(c, s, p);
    case SelfConnect => SelfKeepsInv(c, s, p);
    case _ => BarrierKeepsInv(c, s, p);
  }

  lemma EnteredBound(c: Config, s: State, p: nat)
    requires OrderInv(c, s) && p < c.nodes
    ensures |s.order| <= c.nodes
    ensures !Entered(s.nodes[p]) ==> |s.order| < c.nodes
    ensures Entered(s.nodes[p]) ==> s.nodes[p].id < c.nodes
  {
    CountBound(s.nodes, Entered);
  }

  lemma EnterOrder(c: Config, s: State, p: nat)
    requires ValidConfig(c) && OrderInv(c, s) && p < c.nodes && s.nodes[p].pc.Entering?
    ensures OrderInv(c, StepEnter(c, s, p))
    ensures StepEnter(c, s, p) == State(s.store[ServerNum := Num(|s.order| + 1)],
              s.nodes[p := Node(Polling(0), |s.order|, InitialLinks(c, |s.order|))], s.order + [p])
  {
    hide InitialLinks;
    EnteredBound(c, s, p);
    CountUpdate(s.nodes, Entered, p, Node(Polling(0), |s.order|, InitialLinks(c, |s.order|)));
  }

  lemma EnterStore(c: Config, s: State, p: nat)
    requires ValidConfig(c) && OrderInv(c, s) && p < c.nodes && s.nodes[p].pc.Entering?
    requires OrderInv(c, StepEnter(c, s, p)) && StoreInv(c, s)
    ensures StoreInv(c, StepEnter(c, s, p))
  {
    EnterOrder(c, s, p);
  }

  lemma EnterBarrier(c: Config, s: State, p: nat)
    requires ValidConfig(c) && OrderInv(c, s) && BarrierInv(c, s) && p < c.nodes && s.nodes[p].pc.Entering?
    ensures BarrierInv(c, StepEnter(c, s, p))
  {
    EnterOrder(c, s, p);
    EnteredBound(c, s, p);
    var n := StepEnter(c, s, p).nodes[p];
    CountUpdate(s.nodes, Entered, p, n);
    CountUpdate(s.nodes, Added, p, n);
  }

  lemma EnterKeepsInv(c: Config, s: State, p: nat)
    requires Inv(c, s) && p < c.nodes && s.nodes[p].pc.Entering?
    ensures Inv(c, StepEnter(c, s, p))
  {
    EnterOrder(c, s, p);
    EnterStore(c, s, p);
    EnterBarrier(c, s, p);
  }

  /** A step that does not publish keeps what is known about the node alone. */
  ghost predicate NodeStep(c: Config, entered: nat, n: Node, n': Node)
    requires c.dirs > 0
  {
    && Entered(n') && n'.id == n.id && NodeInv(c, entered, n')
    && (forall k: nat :: HasPublished(c, n', k) == HasPublished(c, n, k))
  }

  lemma LoopPc(c: Config, n: Node, k: nat, bound: nat)
    requires k <= bound < 0x10000
    ensures var n' := n.(pc := LoopAt(k, bound));
            && NextPeer(c, n') == k && !PastSelf(n') && Entered(n')
            && (n'.pc == Polling(k) || (n'.pc == Visiting(k, bound) && k < bound))
  {}

  lemma PollNode(c: Config, entered: nat, n: Node)
    requires ValidConfig(c) && NodeInv(c, entered, n) && n.pc.Polling? && n.id < entered <= c.nodes
    ensures NodeStep(c, entered, n, n.(pc := if n.pc.cur >= c.nodes then SelfConnect else LoopAt(n.pc.cur, entered)))
  {
    LoopPc(c, n, n.pc.cur, entered);
  }

  lemma SkipNode(c: Config, entered: nat, n: Node)
    requires ValidConfig(c) && NodeInv(c, entered, n) && n.pc.Visiting? && n.pc.k == n.id < entered <= c.nodes
    ensures NodeStep(c, entered, n, n.(pc := LoopAt(n.pc.k + 1, n.pc.bound)))
  {
    LoopPc(c, n, n.pc.k + 1, n.pc.bound);
    assert forall r: nat :: Reached(n.id, n.pc.k, false, r) == Reached(n.id, n.pc.k + 1, false, r);
  }

  lemma ConnectNode(c: Config, n: Node, remote: nat, m: Meta, next: Pc)
    requires ValidConfig(c) && n.id < c.nodes && Wired(c, n.id, n.links, NextPeer(c, n), false) && MetaFor(c, remote, n.id, m)
    requires remote < c.nodes && (remote == n.id || remote == NextPeer(c, n))
    ensures var n' := ConnectTo(c, n, remote, m, next);
            && n'.pc == next && n'.id == n.id
            && Wired(c, n.id, n'.links, if remote == n.id then NextPeer(c, n) else remote + 1, remote == n.id)
  {
    ConnectExtends(c, n.id, n.links, NextPeer(c, n), false, remote, m);
  }

  lemma WaitNode(c: Config, entered: nat, n: Node, m: Meta)
    requires ValidConfig(c) && NodeInv(c, entered, n) && n.pc.Waiting? && n.id < entered <= c.nodes
    requires MetaFor(c, n.pc.k, n.id, m)
    ensures NodeStep(c, entered, n, ConnectTo(c, n, n.pc.k, m, LoopAt(n.pc.k + 1, n.pc.bound)))
    ensures !PastSet(ConnectTo(c, n, n.pc.k, m, LoopAt(n.pc.k + 1, n.pc.bound)))
  {
    var k, next := n.pc.k, LoopAt(n.pc.k + 1, n.pc.bound);
    ConnectNode(c, n, k, m, next);
    LoopPc(c, n, k + 1, n.pc.bound);
    AfterConnect(c, entered, n, ConnectTo(c, n, k, m, next));
  }

  lemma AfterConnect(c: Config, entered: nat, n: Node, n': Node)
    requires ValidConfig(c) && NodeInv(c, entered, n) && n.pc.Waiting? && n.id < entered <= c.nodes
    requires n'.id == n.id && Wired(c, n.id, n'.links, n.pc.k + 1, false)
    requires n'.pc == Polling(n.pc.k + 1) || (n'.pc == Visiting(n.pc.k + 1, n.pc.bound) && n.pc.k + 1 < n.pc.bound)
    ensures NodeStep(c, entered, n, n')
  {}

  lemma SelfNode(c: Config, entered: nat, n: Node)
    requires ValidConfig(c) && NodeInv(c, entered, n) && n.pc.SelfConnect? && n.id < entered <= c.nodes
    ensures NodeStep(c, entered, n, ConnectSelf(c, n))
    ensures PastSelf(ConnectSelf(c, n)) && !Added(ConnectSelf(c, n))
    ensures PastSet(ConnectSelf(c, n)) <==> n.id != c.nodes - 1
  {
    var m := MetaTo(c.threads, c.dirs, n.id, n.links, n.id);
    PublishesMeta(c, n.id, n.links, c.nodes, false, n.id);
    ConnectNode(c, n, n.id, m, if n.id == c.nodes - 1 then BarrierSet else BarrierAdd);
  }

  lemma PollKeepsInv(c: Config, s: State, p: nat)
    requires Inv(c, s) && p < c.nodes && s.nodes[p].pc.Polling?
    ensures Inv(c, StepPoll(c, s, p))
  {
    var n := s.nodes[p];
    EnteredBound(c, s, p);
    PollNode(c, |s.order|, n);
    LocalStep(c, s, p, n.(pc := if n.pc.cur >= c.nodes then SelfConnect else LoopAt(n.pc.cur, |s.order|)));
  }

  lemma SkipKeepsInv(c: Config, s: State, p: nat)
    requires Inv(c, s) && p < c.nodes && s.nodes[p].pc.Visiting? && s.nodes[p].pc.k == s.nodes[p].id
    ensures Inv(c, StepVisit(c, s, p))
  {
    var n := s.nodes[p];
    EnteredBound(c, s, p);
    SkipNode(c, |s.order|, n);
    LocalStep(c, s, p, n.(pc := LoopAt(n.pc.k + 1, n.pc.bound)));
  }

  lemma PublishStore(c: Config, s: State, p: nat)
    requires Inv(c, s) && p < c.nodes && s.nodes[p].pc.Visiting? && s.nodes[p].pc.k != s.nodes[p].id
    requires OrderInv(c, StepVisit(c, s, p))
    ensures StoreInv(c, StepVisit(c, s, p))
  {
    var n := s.nodes[p];
    var s' := StepVisit(c, s, p);
    PublishesMeta(c, n.id, n.links, n.pc.k, false, n.pc.k);
    forall a: nat, k: nat | a < |s.order|
      ensures HasPublished(c, s'.nodes[s.order[a]], k)
         <==> HasPublished(c, s.nodes[s.order[a]], k) || (a == n.id && k == n.pc.k)
    {}
  }

  lemma PublishKeepsInv(c: Config, s: State, p: nat)
    requires Inv(c, s) && p < c.nodes && s.nodes[p].pc.Visiting? && s.nodes[p].pc.k != s.nodes[p].id
    ensures Inv(c, StepVisit(c, s, p))
  {
    var n := s.nodes[p];
    var n' := n.(pc := Waiting(n.pc.k, n.pc.bound));
    FrameOrder(c, s, StepVisit(c, s, p), p, n');
    FrameBarrier(c, s, StepVisit(c, s, p), p, n');
    PublishStore(c, s, p);
  }

  /** What a waiting node finds is what the peer published for it. */
  lemma FoundMeta(c: Config, s: State, a: nat, k: nat)
    requires OrderInv(c, s) && c.dirs > 0 && StoreInv(c, s) && SetKey(a, k) in s.store
    ensures a < |s.order| && s.store[SetKey(a, k)].Published? && MetaFor(c, a, k, s.store[SetKey(a, k)].m)
  {}

  /** The peer has published: the step connects to it. */
  lemma WaitConnects(c: Config, s: State, p: nat)
    requires Inv(c, s) && p < c.nodes && s.nodes[p].pc.Waiting?
    requires SetKey(s.nodes[p].pc.k, s.nodes[p].id) in s.store
    ensures var n' := StepWait(c, s, p).nodes[p];
            StepWait(c, s, p) == Move(s, p, n') && NodeStep(c, |s.order|, s.nodes[p], n') && !PastSet(n') && !Added(n')
  {
    var n := s.nodes[p];
    FoundMeta(c, s, n.pc.k, n.id);
    EnteredBound(c, s, p);
    WaitNode(c, |s.order|, n, s.store[SetKey(n.pc.k, n.id)].m);
  }

  lemma WaitKeepsInv(c: Config, s: State, p: nat)
    requires Inv(c, s) && p < c.nodes && s.nodes[p].pc.Waiting?
    ensures Inv(c, StepWait(c, s, p))
  {
    if SetKey(s.nodes[p].pc.k, s.nodes[p].id) in s.store {
      WaitConnects(c, s, p);
      LocalStep(c, s, p, StepWait(c, s, p).nodes[p]);
    } else {
      assert StepWait(c, s, p) == s;
    }
  }

  lemma SelfKeepsInv(c: Config, s: State, p: nat)
    requires Inv(c, s) && p < c.nodes && s.nodes[p].pc.SelfConnect?
    ensures Inv(c, Move(s, p, ConnectSelf(c, s.nodes[p])))
  {
    EnteredBound(c, s, p);
    SelfNode(c, |s.order|, s.nodes[p]);
    LocalStep(c, s, p, ConnectSelf(c, s.nodes[p]));
  }

  /** The barrier's counter starts at zero and is never reset once someone has added to it. */
  lemma BarrierSetCount(c: Config, s: State, p: nat)
    requires OrderInv(c, s) && BarrierInv(c, s) && p < c.nodes
    requires s.nodes[p].pc.BarrierSet? && s.nodes[p].id == c.nodes - 1
    ensures BarrierInv(c, StepBarrier(c, s, p))
  {
    var n' := StepBarrier(c, s, p).nodes[p];
    CountUpdate(s.nodes, Entered, p, n');
    CountUpdate(s.nodes, Added, p, n');
    CountBound(s.nodes, Entered);
  }

  lemma BarrierAddCount(c: Config, s: State, p: nat)
    requires OrderInv(c, s) && BarrierInv(c, s) && p < c.nodes && s.nodes[p].pc.BarrierAdd? && BARRIER in s.store
    ensures BarrierInv(c, StepBarrier(c, s, p))
  {
    var n' := StepBarrier(c, s, p).nodes[p];
    CountUpdate(s.nodes, Entered, p, n');
    CountUpdate(s.nodes, Added, p, n');
    CountBound(s.nodes[p := n'], Added);
  }

  lemma BarrierWaitCount(c: Config, s: State, p: nat)
    requires OrderInv(c, s) && BarrierInv(c, s) && p < c.nodes && s.nodes[p].pc.BarrierWait?
    ensures BarrierInv(c, StepBarrier(c, s, p))
  {
    var n' := StepBarrier(c, s, p).nodes[p];
    if StepBarrier(c, s, p) != s {
      CountUpdate(s.nodes, Entered, p, n');
      CountUpdate(s.nodes, Added, p, n');
    }
  }

  lemma BarrierCount(c: Config, s: State, p: nat)
    requires OrderInv(c, s) && BarrierInv(c, s) && p < c.nodes && StepBarrier(c, s, p) != s
    requires s.nodes[p].pc.BarrierSet? ==> s.nodes[p].id == c.nodes - 1
    ensures BarrierInv(c, StepBarrier(c, s, p))
  {
    if s.nodes[p].pc.BarrierSet? {
      BarrierSetCount(c, s, p);
    } else if s.nodes[p].pc.BarrierAdd? {
      BarrierAddCount(c, s, p);
    } else {
      BarrierWaitCount(c, s, p);
    }
  }

  lemma BarrierKeepsInv(c: Config, s: State, p: nat)
    requires Inv(c, s) && p < c.nodes
    requires s.nodes[p].pc.BarrierSet? || PastSet(s.nodes[p]) || s.nodes[p].pc.Aborted?
    ensures Inv(c, StepBarrier(c, s, p))
  {
    var s' := StepBarrier(c, s, p);
    if s' != s {
      FrameOrder(c, s, s', p, s'.nodes[p]);
      FrameStore(c, s, s', p, s'.nodes[p]);
      BarrierCount(c, s, p);
    }
  }
}
