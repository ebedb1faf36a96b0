/** Sending messages: every 32nd send asks for a completion and waits for the one before. The card
    completes sends in order; a send is retired once the sender has polled a completion that
    tells it so. */
module SendRing {
  import opened Arith

  const SIGNAL := 32                         // SIGNAL_BATCH + 1
  const WRAP16 := 0x1_0000                   // messageNR is a uint16_t
  const WRAP64 := 0x1_0000_0000_0000_0000    // sendCounter is a uint64_t

  /** Where sendRawMessage is: about to look whether to poll, or about to post. */
  datatype Pc = Check | Post

  /** `gets` counts getSendPool calls, `sends` posted sends, `completed` those the card is done
      with, `polled` completions taken by the sender. */
  datatype State = State(pc: Pc, gets: nat, sends: nat, completed: nat, polled: nat)

  const INIT := State(Check, 0, 0, 0, 0)

  /** The number of slots for the constructor's argument. */
  function MessageNR(arg: nat): nat {
    arg % WRAP16
  }

  /** sendCounter before send `c`, which wraps. */
  function Counter(c: nat): nat {
    c % WRAP64
  }

  /** The low five bits of the counter are zero: the send asks for a completion. */
  predicate Signaled(c: nat) {
    Counter(c) % SIGNAL == 0
  }

  /** The send waits first for the completion of an earlier one. */
  predicate Polls(c: nat) {
    Signaled(c) && Counter(c) > 0
  }

  /** Every 32nd send asks for a completion, and waits for the one before unless the counter is 0. */
  lemma WhenSignaled(c: nat)
    ensures Signaled(c) <==> c % 32 == 0
    ensures Polls(c) <==> c % 32 == 0 && c % 0x1_0000_0000_0000_0000 > 0
  {}

  lemma CounterBits(c: nat)
    ensures Counter(c) % SIGNAL == c % 32
  {}

  /** How many of the first `c` sends ask for a completion. */
  function Signals(c: nat): nat {
    if c == 0 then 0 else Signals(c - 1) + if Signaled(c - 1) then 1 else 0
  }

  /** Completions that the card has written and nobody has taken. */
  function Pending(s: State): int {
    Signals(s.completed) - s.polled
  }

  datatype Event = Get | Send | Complete

  /** The slot that the next getSendPool hands out. */
  function Slot(s: State, nr: nat): nat
    requires nr > 0
  {
    s.gets % nr
  }

  /** The caller takes at most `ahead` slots before the turn of the one it sends next. */
  function Next(s: State, ahead: nat, e: Event): State {
    match e
    case Get => if s.gets - s.sends <= ahead then s.(gets := s.gets + 1) else s
    case Complete => if s.completed < s.sends then s.(completed := s.completed + 1) else s
    case Send =>
      if s.sends >= s.gets then s
      else if s.pc.Check? then
        if !Polls(s.sends) then s.(pc := Post)
        else if Pending(s) > 0 then s.(pc := Post, polled := s.polled + 1)
        else s
      else s.(pc := Check, sends := s.sends + 1)
  }

  function Run(ahead: nat, es: seq<Event>): State {
    if es == [] then INIT else Next(Run(ahead, es[..|es| - 1]), ahead, es[|es| - 1])
  }

  ghost predicate Reachable(ahead: nat, s: State) {
    exists es: seq<Event> :: s == Run(ahead, es)
  }

  /** The sends before this one are known to be completed. */
  function Retired(polled: nat): nat {
    if polled == 0 then 0 else SIGNAL * (polled - 1) + 1
  }

  /** How often the counter has wrapped before the last send. */
  function Wraps(sends: nat): nat {
    if sends == 0 then 0 else (sends - 1) / WRAP64
  }

  // ---- The invariant -----------------------------------------------------------------------------

  /** Polls made before send `c` is posted, its own included. */
  function PolledFor(c: nat): nat {
    c / SIGNAL - c / WRAP64
  }

  function PolledAfter(sends: nat): nat {
    if sends == 0 then 0 else PolledFor(sends - 1)
  }

  lemma PolledStep(c: nat)
    ensures PolledFor(c) == PolledAfter(c) + if Polls(c) then 1 else 0
  {
    SignaledIs(c);
  }

  /** The wrap does not disturb the low five bits. */
  lemma SignaledIs(c: nat)
    ensures Signaled(c) <==> c % SIGNAL == 0
  {
    var q := c / WRAP64;
    assert c == WRAP64 * q + Counter(c);
  }

  lemma {:induction false} SignalsIs(c: nat)
    ensures Signals(c) == (c + SIGNAL - 1) / SIGNAL
  {
    if c > 0 {
      SignalsIs(c - 1);
      SignaledIs(c - 1);
      CeilStep(c - 1);
    }
  }

  lemma CeilStep(c: nat)
    ensures (c + SIGNAL) / SIGNAL == (c + SIGNAL - 1) / SIGNAL + if c % SIGNAL == 0 then 1 else 0
  {}

  ghost predicate Inv(ahead: nat, s: State) {
    && s.completed <= s.sends <= s.gets <= s.sends + ahead + 1
    && s.polled <= Signals(s.completed)
    && (s.pc.Post? ==> s.sends < s.gets && s.polled == PolledFor(s.sends))
    && (s.pc.Check? ==> s.polled == PolledAfter(s.sends))
  }

  lemma SignalsGrow(c: nat)
    ensures Signals(c) <= Signals(c + 1)
  {}

  lemma NextKeepsInv(ahead: nat, s: State, e: Event)
    requires Inv(ahead, s)
    ensures Inv(ahead, Next(s, ahead, e))
  {
    SignalsGrow(s.completed);
    PolledStep(s.sends);
  }

  lemma {:induction false} RunInv(ahead: nat, es: seq<Event>)
    ensures Inv(ahead, Run(ahead, es))
    decreases |es|
  {
    if es != [] {
      RunInv(ahead, es[..|es| - 1]);
      NextKeepsInv(ahead, Run(ahead, es[..|es| - 1]), es[|es| - 1]);
    }
  }

  lemma ReachableInv(ahead: nat, s: State)
    requires Reachable(ahead, s)
    ensures Inv(ahead, s)
  {
    var es: seq<Event> :| s == Run(ahead, es);
    RunInv(ahead, es);
  }

  // ---- Signalling --------------------------------------------------------------------------------

  /** What is retired is completed; before sendCounter wraps at most 63 sends are not retired and at
      most one completion that was asked for has not been taken. With every wrap a poll is left out,
      which makes it 32 sends and one completion more. */
  lemma FewUnretired(ahead: nat, s: State)
    requires Reachable(ahead, s)
    ensures Retired(s.polled) <= s.completed <= s.sends <= Retired(s.polled) + 63 + 32 * Wraps(s.sends)
    ensures 0 <= Pending(s) <= Signals(s.sends) - s.polled <= 1 + Wraps(s.sends)
  {
    ReachableInv(ahead, s);
    SignalsIs(s.completed);
    SignalsIs(s.sends);
    if s.polled > 0 {
      LastSignal(s.completed, s.polled);
    }
    PolledStep(s.sends);
    BetweenSignals(s.sends, s.polled);
    SignalsMonotone(s.completed, s.sends);
  }

  lemma {:induction false} SignalsMonotone(a: nat, b: nat)
    requires a <= b
    ensures Signals(a) <= Signals(b)
    decreases b
  {
    if a < b {
      SignalsMonotone(a, b - 1);
    }
  }

  /** The last completion taken tells of a send that is completed. */
  lemma LastSignal(completed: nat, polled: nat)
    requires 0 < polled <= (completed + SIGNAL - 1) / SIGNAL
    ensures SIGNAL * (polled - 1) + 1 <= completed
  {}

  lemma BetweenSignals(sends: nat, polled: nat)
    requires polled == PolledFor(sends) || polled == PolledAfter(sends)
    ensures polled <= (sends + SIGNAL - 1) / SIGNAL <= polled + 1 + Wraps(sends)
    ensures sends <= Retired(polled) + 63 + SIGNAL * Wraps(sends)
  {}

  /** A poll waits for a completion that was asked for, and ends once the card has caught up. */
  lemma PollEnds(ahead: nat, s: State)
    requires Reachable(ahead, s) && s.pc.Check? && Polls(s.sends)
    ensures Signals(s.sends) == s.polled + 1 + Wraps(s.sends)
    ensures s.completed == s.sends < s.gets ==> Next(s, ahead, Send).pc.Post?
  {
    ReachableInv(ahead, s);
    SignalsIs(s.sends);
    SignaledIs(s.sends);
  }

  // ---- Reuse of slots ----------------------------------------------------------------------------

  /** The next getSendPool call hands out a slot that no uncompleted send uses. */
  ghost predicate SlotIsFree(s: State, nr: nat)
    requires nr > 0
  {
    forall k: nat :: s.completed <= k < s.gets ==> k % nr != Slot(s, nr)
  }

  /** The sender is about to take a slot, within its first `(w + 1) * 2^64` sends. */
  predicate MayGet(s: State, ahead: nat, w: nat) {
    s.gets - s.sends <= ahead && s.sends <= (w + 1) * WRAP64
  }

  lemma FreeWhenLarge(ahead: nat, nr: nat, w: nat, s: State)
    requires Reachable(ahead, s) && MayGet(s, ahead, w) && nr >= 64 + ahead + SIGNAL * w
    ensures SlotIsFree(s, nr)
  {
    FewUnretired(ahead, s);
    assert Wraps(s.sends) <= w;
    forall k: nat | s.completed <= k < s.gets
      ensures k % nr != Slot(s, nr)
    {
      ModApart(k, s.gets, nr);
    }
  }

  /** The state after `c` sends of which the card has completed just what the polls waited for. */
  function Lazy(c: nat): State {
    State(Check, c, c, Retired(PolledAfter(c)), PolledAfter(c))
  }

  lemma Extend(ahead: nat, s: State, e: Event)
    requires Reachable(ahead, s)
    ensures Reachable(ahead, Next(s, ahead, e))
  {
    var es: seq<Event> :| s == Run(ahead, es);
    assert (es + [e])[..|es|] == es;
    assert Next(s, ahead, e) == Run(ahead, es + [e]);
  }

  lemma {:induction false} CompleteAll(ahead: nat, s: State, c: nat)
    requires Reachable(ahead, s) && s.completed <= c <= s.sends
    ensures Reachable(ahead, s.(completed := c))
    decreases c - s.completed
  {
    if s.completed < c {
      Extend(ahead, s, Complete);
      CompleteAll(ahead, Next(s, ahead, Complete), c);
    } else {
      assert s.(completed := c) == s;
    }
  }

  /** A whole call of sendRawMessage, with the card getting as far as `c` during its poll. */
  lemma SendKeepsReachable(ahead: nat, s: State, c: nat)
    requires Reachable(ahead, s) && s.pc.Check? && s.sends < s.gets && s.completed <= c <= s.sends
    requires Polls(s.sends) ==> Signals(c) > s.polled
    ensures Reachable(ahead, State(Check, s.gets, s.sends + 1, c, s.polled + if Polls(s.sends) then 1 else 0))
  {
    CompleteAll(ahead, s, c);
    Extend(ahead, s.(completed := c), Send);
    Extend(ahead, Next(s.(completed := c), ahead, Send), Send);
  }

  /** The polled completion is that of an earlier send. */
  lemma RetiredInTime(c: nat)
    requires c > 0
    ensures Retired(PolledAfter(c)) <= Retired(PolledFor(c)) <= c
    ensures Signals(Retired(PolledFor(c))) >= PolledFor(c)
  {
    SignalsIs(Retired(PolledFor(c)));
    PolledStep(c);
  }

  lemma {:induction false} LazyReachable(ahead: nat, c: nat)
    ensures Reachable(ahead, Lazy(c))
    decreases c
  {
    if c == 0 {
      assert Run(ahead, []) == Lazy(0);
    } else {
      LazyReachable(ahead, c - 1);
      LazyNext(ahead, c - 1);
    }
  }

  lemma LazyNext(ahead: nat, c: nat)
    requires Reachable(ahead, Lazy(c))
    ensures Reachable(ahead, Lazy(c + 1))
  {
    var s := Lazy(c);
    Extend(ahead, s, Get);
    PolledStep(c);
    if c > 0 {
      RetiredInTime(c);
    }
    SendKeepsReachable(ahead, s.(gets := c + 1), Retired(PolledFor(c)));
  }

  lemma {:induction false} GetMore(ahead: nat, s: State, g: nat)
    requires Reachable(ahead, s) && s.gets <= g <= s.sends + ahead + 1
    ensures Reachable(ahead, s.(gets := g))
    decreases g - s.gets
  {
    if s.gets < g {
      Extend(ahead, s, Get);
      GetMore(ahead, Next(s, ahead, Get), g);
    } else {
      assert s.(gets := g) == s;
    }
  }

  lemma LazyLags(w: nat)
    ensures Lazy(w * WRAP64 + 64).completed == w * WRAP64 + 1 - SIGNAL * w
  {
    var c := w * WRAP64 + 63;
    assert c / WRAP64 == w;
    assert c / SIGNAL == w * (WRAP64 / SIGNAL) + 1;
  }

  /** With a smaller pool some slot comes round again before its send is completed. */
  lemma TakenWhenSmall(ahead: nat, nr: nat, w: nat)
    requires 0 < nr < 64 + ahead + SIGNAL * w
    ensures exists s: State :: Reachable(ahead, s) && MayGet(s, ahead, w) && !SlotIsFree(s, nr)
  {
    var c := w * WRAP64 + 64;
    LazyReachable(ahead, c);
    GetMore(ahead, Lazy(c), c + ahead);
    LazyLags(w);
    var s := Lazy(c).(gets := c + ahead);
    AddMultiple(c + ahead - nr, 1, nr);
    assert (c + ahead - nr) % nr == Slot(s, nr);
  }

  /** No slot is ever handed out within the first 2^64 sends while the card may still read it, if and
      only if the argument leaves at least 64 slots in its low 16 bits, and one more for every slot that
      is taken ahead of its turn. After every further 2^64 sends it takes 32 more. */
  lemma ReuseIff(ahead: nat, arg: nat, w: nat)
    requires MessageNR(arg) > 0
    ensures (forall s: State :: Reachable(ahead, s) && MayGet(s, ahead, w) ==> SlotIsFree(s, MessageNR(arg)))
       <==> arg % 0x1_0000 >= 64 + ahead + 32 * w
  {
    var nr := MessageNR(arg);
    if nr >= 64 + ahead + SIGNAL * w {
      forall s: State | Reachable(ahead, s) && MayGet(s, ahead, w)
        ensures SlotIsFree(s, nr)
      {
        FreeWhenLarge(ahead, nr, w, s);
      }
    } else {
      TakenWhenSmall(ahead, nr, w);
    }
  }
}
