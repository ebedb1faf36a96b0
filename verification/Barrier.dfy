/** The barrier on one shared counter: every call made on the node with the last id sets it to
    zero, every call adds one and then polls until the counter is `k`. Every access is one atomic
    step. */
module Barrier {
  import opened Schedules

  const ABSENT := -1

  /** What a call does next. */
  datatype Pc = Set | Incr | Poll | Done

  datatype State = State(value: int, pcs: seq<Pc>)

  /** The calls that take part: `last[i]` tells whether call i is made on the node with the last
      id. `start` is the counter that an earlier use of the key has left, if any. */
  function InitState(last: seq<bool>, start: int): (s: State)
    ensures |s.pcs| == |last|
  {
    State(start, seq(|last|, i requires 0 <= i < |last| => if last[i] then Set else Incr))
  }

  /** One access to the counter; an increment of an absent key fails and is tried again. */
  function Access(value: int, p: Pc, k: nat): (r: (int, Pc))
    ensures value >= ABSENT && r.0 != value ==> r.0 >= 0
  {
    match p
    case Set => (0, Incr)
    case Incr => if value == ABSENT then (value, Incr) else (value + 1, Poll)
    case Poll => if value == k then (value, Done) else (value, Poll)
    case Done => (value, Done)
  }

  function Step(s: State, k: nat, i: nat): (r: State)
    ensures |r.pcs| == |s.pcs|
  {
    if i >= |s.pcs| then s
    else
      var (value, p) := Access(s.value, s.pcs[i], k);
      State(value, s.pcs[i := p])
  }

  function Run(s: State, k: nat, es: seq<nat>): (r: State)
    ensures |r.pcs| == |s.pcs|
  {
    if es == [] then s else Step(Run(s, k, es[..|es| - 1]), k, es[|es| - 1])
  }

  predicate Entered(p: Pc) {
    p.Poll? || p.Done?
  }

  function Count(pcs: seq<Pc>): (c: nat)
    ensures c <= |pcs|
  {
    if pcs == [] then 0 else Count(pcs[..|pcs| - 1]) + if Entered(pcs[|pcs| - 1]) then 1 else 0
  }

  lemma {:induction false} CountUpdate(pcs: seq<Pc>, i: nat, p: Pc)
    requires i < |pcs|
    ensures Count(pcs[i := p]) == Count(pcs) + (if Entered(p) then 1 else 0) - if Entered(pcs[i]) then 1 else 0
    ensures Entered(pcs[i]) ==> Count(pcs) > 0
  {
    var n := |pcs| - 1;
    if i < n {
      assert pcs[i := p][..n] == pcs[..n][i := p];
      CountUpdate(pcs[..n], i, p);
    } else {
      assert pcs[i := p][..n] == pcs[..n];
    }
  }

  lemma {:induction false} CountAll(pcs: seq<Pc>)
    ensures Count(pcs) == |pcs| <==> forall i :: 0 <= i < |pcs| ==> Entered(pcs[i])
  {
    if pcs != [] {
      CountAll(pcs[..|pcs| - 1]);
    }
  }

  lemma {:induction false} CountNone(pcs: seq<Pc>)
    requires forall i :: 0 <= i < |pcs| ==> !Entered(pcs[i])
    ensures Count(pcs) == 0
  {
    if pcs != [] {
      CountNone(pcs[..|pcs| - 1]);
    }
  }

  ghost predicate Reachable(last: seq<bool>, k: nat, start: int, s: State) {
    exists es: seq<nat> :: s == Run(InitState(last, start), k, es)
  }

  lemma Extend(last: seq<bool>, k: nat, start: int, s: State, i: nat)
    requires Reachable(last, k, start, s)
    ensures Reachable(last, k, start, Step(s, k, i))
  {
    var es: seq<nat> :| s == Run(InitState(last, start), k, es);
    RunSnoc(InitState(last, start), k, es, i);
  }

  lemma RunSnoc(s: State, k: nat, es: seq<nat>, i: nat)
    ensures Run(s, k, es + [i]) == Step(Run(s, k, es), k, i)
  {
    assert (es + [i])[..|es|] == es;
  }

  lemma StartReachable(last: seq<bool>, k: nat, start: int)
    ensures Reachable(last, k, start, InitState(last, start))
  {
    assert InitState(last, start) == Run(InitState(last, start), k, []);
  }

  // ---- What the barrier is for -------------------------------------------------------------------

  /** Nobody returns before everybody has entered. */
  ghost predicate Holds(s: State) {
    (exists i :: 0 <= i < |s.pcs| && s.pcs[i].Done?) ==> forall j :: 0 <= j < |s.pcs| ==> Entered(s.pcs[j])
  }

  ghost predicate AllDone(s: State) {
    forall i :: 0 <= i < |s.pcs| ==> s.pcs[i].Done?
  }

  ghost predicate NoneDone(s: State) {
    forall i :: 0 <= i < |s.pcs| ==> !s.pcs[i].Done?
  }

  ghost predicate CanFinish(k: nat, s: State) {
    exists es: seq<nat> :: AllDone(Run(s, k, es))
  }

  /** It holds everybody back long enough, and nobody forever. */
  ghost predicate Works(last: seq<bool>, k: nat, start: int) {
    && (forall s: State :: Reachable(last, k, start, s) ==> Holds(s))
    && (forall s: State :: Reachable(last, k, start, s) ==> CanFinish(k, s))
  }

  predicate Nobody(last: seq<bool>) {
    forall i :: 0 <= i < |last| ==> !last[i]
  }

  ghost predicate ExactlyOne(last: seq<bool>) {
    exists i :: 0 <= i < |last| && last[i] && forall j :: 0 <= j < |last| && last[j] ==> j == i
  }

  /** What has to be known before the calls. */
  ghost predicate Condition(last: seq<bool>, k: nat, start: int) {
    if start == ABSENT then k == |last| && ExactlyOne(last)
    else if Nobody(last) then k == start + |last|
    else k == |last| == 1
  }

  /** What the counter counts from. */
  function Base(last: seq<bool>, start: int): int {
    if Nobody(last) then start else 0
  }

  // ---- Calls that work ---------------------------------------------------------------------------

  /** The counter counts those who have entered, from `base` on. */
  ghost predicate Open(s: State, base: int) {
    && base >= 0 && s.value == base + Count(s.pcs)
    && (forall i :: 0 <= i < |s.pcs| ==> !s.pcs[i].Set?)
    && (forall i :: 0 <= i < |s.pcs| && s.pcs[i].Done? ==> s.value == base + |s.pcs|)
  }

  /** The only call that sets the counter has not done so, and no other can have entered. */
  ghost predicate Closed(s: State, setter: int) {
    && 0 <= setter < |s.pcs| && (s.value == ABSENT || |s.pcs| == 1)
    && forall i :: 0 <= i < |s.pcs| ==> s.pcs[i] == if i == setter then Set else Incr
  }

  ghost predicate Good(s: State, base: int, setter: int) {
    Open(s, base) || (base == 0 && Closed(s, setter))
  }

  lemma StepKeepsOpen(s: State, k: nat, base: int, i: nat)
    requires k == base + |s.pcs| && Open(s, base)
    ensures Open(Step(s, k, i), base)
  {
    if i < |s.pcs| {
      CountUpdate(s.pcs, i, Step(s, k, i).pcs[i]);
    }
  }

  lemma SetterOpens(s: State, k: nat, setter: nat)
    requires Closed(s, setter)
    ensures Open(Step(s, k, setter), 0)
  {
    CountNone(Step(s, k, setter).pcs);
  }

  lemma ClosedWaits(s: State, k: nat, setter: nat, i: nat)
    requires Closed(s, setter) && i != setter
    ensures Step(s, k, i) == s
  {
    if i < |s.pcs| {
      assert s.pcs[i := Incr] == s.pcs;
    }
  }

  lemma StepKeepsGood(s: State, k: nat, base: int, setter: int, i: nat)
    requires k == base + |s.pcs| && Good(s, base, setter)
    ensures Good(Step(s, k, i), base, setter)
  {
    if Open(s, base) {
      StepKeepsOpen(s, k, base, i);
    } else if i == setter {
      SetterOpens(s, k, setter);
    } else {
      ClosedWaits(s, k, setter, i);
    }
  }

  lemma {:induction false} RunKeepsGood(s: State, k: nat, base: int, setter: int, es: seq<nat>)
    requires k == base + |s.pcs| && Good(s, base, setter)
    ensures Good(Run(s, k, es), base, setter)
    decreases |es|
  {
    if es != [] {
      RunKeepsGood(s, k, base, setter, es[..|es| - 1]);
      StepKeepsGood(Run(s, k, es[..|es| - 1]), k, base, setter, es[|es| - 1]);
    }
  }

  lemma {:induction false} RunKeepsOpen(s: State, k: nat, base: int, es: seq<nat>)
    requires k == base + |s.pcs| && Open(s, base)
    ensures Open(Run(s, k, es), base)
    decreases |es|
  {
    if es != [] {
      RunKeepsOpen(s, k, base, es[..|es| - 1]);
      StepKeepsOpen(Run(s, k, es[..|es| - 1]), k, base, es[|es| - 1]);
    }
  }

  lemma StartIsGood(last: seq<bool>, k: nat, start: int) returns (setter: int)
    requires last != [] && start >= ABSENT && Condition(last, k, start)
    ensures k == Base(last, start) + |last| && Good(InitState(last, start), Base(last, start), setter)
  {
    var s := InitState(last, start);
    if Nobody(last) {
      setter := 0;
      CountNone(s.pcs);
    } else {
      setter :| 0 <= setter < |last| && last[setter] && (start == ABSENT ==> forall j :: 0 <= j < |last| && last[j] ==> j == setter);
    }
  }

  lemma ReachableGood(last: seq<bool>, k: nat, start: int, s: State) returns (setter: int)
    requires last != [] && start >= ABSENT && Condition(last, k, start) && Reachable(last, k, start, s)
    ensures |s.pcs| == |last| && k == Base(last, start) + |last| && Good(s, Base(last, start), setter)
  {
    setter := StartIsGood(last, k, start);
    var es: seq<nat> :| s == Run(InitState(last, start), k, es);
    RunKeepsGood(InitState(last, start), k, Base(last, start), setter, es);
  }

  lemma GoodHolds(s: State, base: int, setter: int)
    requires Good(s, base, setter)
    ensures Holds(s)
  {
    CountAll(s.pcs);
  }

  /** Nobody returns before everybody has entered; on a fresh key, and on an old one that nobody
      sets, the counter stops at k, and once it is there everybody's next step is to return. */
  lemma BarrierHolds(last: seq<bool>, k: nat, start: int, s: State)
    requires last != [] && start >= ABSENT && Condition(last, k, start) && Reachable(last, k, start, s)
    ensures Holds(s)
    ensures start == ABSENT || Nobody(last) ==>
              s.value <= k && (s.value == k ==> forall i :: 0 <= i < |last| ==> Step(s, k, i).pcs[i].Done?)
  {
    var setter := ReachableGood(last, k, start, s);
    GoodHolds(s, Base(last, start), setter);
    if start == ABSENT || Nobody(last) {
      CountAll(s.pcs);
      FreshIsAbsent(last, k, start, s);
    }
  }

  /** As long as somebody has still to set the counter of a fresh key, it is absent. */
  lemma FreshIsAbsent(last: seq<bool>, k: nat, start: int, s: State)
    requires last != [] && start >= ABSENT && Condition(last, k, start) && Reachable(last, k, start, s)
    requires start == ABSENT || Nobody(last)
    ensures (exists i :: 0 <= i < |s.pcs| && s.pcs[i].Set?) ==> s.value == ABSENT
  {
    var es: seq<nat> :| s == Run(InitState(last, start), k, es);
    AbsentUntilSet(last, k, start, es);
  }

  lemma {:induction false} AbsentUntilSet(last: seq<bool>, k: nat, start: int, es: seq<nat>)
    requires last != [] && start >= ABSENT && Condition(last, k, start) && (start == ABSENT || Nobody(last))
    ensures var s := Run(InitState(last, start), k, es);
            (exists i :: 0 <= i < |s.pcs| && s.pcs[i].Set?) ==> s.value == ABSENT
    decreases |es|
  {
    if es != [] {
      var front := es[..|es| - 1];
      AbsentUntilSet(last, k, start, front);
      var s := Run(InitState(last, start), k, front);
      assert Reachable(last, k, start, s);
      var setter := ReachableGood(last, k, start, s);
    }
  }

  // ---- Progress ----------------------------------------------------------------------------------

  /** Everybody takes a step. */
  ghost predicate Covers(es: seq<nat>, n: nat) {
    forall i: nat :: i < n ==> i in es
  }

  lemma {:induction false} RunConcat(s: State, k: nat, a: seq<nat>, b: seq<nat>)
    ensures Run(s, k, a + b) == Run(Run(s, k, a), k, b)
    decreases |b|
  {
    if b == [] {
      assert a + b == a;
    } else {
      assert (a + b)[..|a + b| - 1] == a + b[..|b| - 1];
      RunConcat(s, k, a, b[..|b| - 1]);
    }
  }

  lemma {:induction false} Opens(s: State, k: nat, base: int, setter: int, es: seq<nat>)
    requires k == base + |s.pcs| && Good(s, base, setter) && Covers(es, |s.pcs|)
    ensures Open(Run(s, k, es), base)
  {
    if Open(s, base) {
      RunKeepsOpen(s, k, base, es);
    } else {
      OpensWith(s, k, setter, es);
    }
  }

  lemma {:induction false} OpensWith(s: State, k: nat, setter: nat, es: seq<nat>)
    requires k == |s.pcs| && Closed(s, setter) && setter in es
    ensures Open(Run(s, k, es), 0)
    decreases |es|
  {
    var front := es[..|es| - 1];
    if setter in front {
      OpensWith(s, k, setter, front);
      StepKeepsOpen(Run(s, k, front), k, 0, es[|es| - 1]);
    } else {
      StaysClosed(s, k, setter, front);
      SetterOpens(s, k, setter);
    }
  }

  lemma {:induction false} StaysClosed(s: State, k: nat, setter: nat, es: seq<nat>)
    requires Closed(s, setter) && setter !in es
    ensures Run(s, k, es) == s
    decreases |es|
  {
    if es != [] {
      StaysClosed(s, k, setter, es[..|es| - 1]);
      ClosedWaits(s, k, setter, es[|es| - 1]);
    }
  }

  lemma {:induction false} Enters(s: State, k: nat, base: int, es: seq<nat>, i: nat)
    requires k == base + |s.pcs| && Open(s, base) && i < |s.pcs| && (i in es || Entered(s.pcs[i]))
    ensures Entered(Run(s, k, es).pcs[i])
    decreases |es|
  {
    if es != [] {
      var front := es[..|es| - 1];
      RunKeepsOpen(s, k, base, front);
      if i in front || Entered(s.pcs[i]) {
        Enters(s, k, base, front, i);
      }
    }
  }

  lemma {:induction false} Waits(s: State, k: nat, es: seq<nat>)
    requires forall j :: 0 <= j < |s.pcs| ==> Entered(s.pcs[j])
    ensures Run(s, k, es).value == s.value && forall j :: 0 <= j < |s.pcs| ==> Entered(Run(s, k, es).pcs[j])
    decreases |es|
  {
    if es != [] {
      Waits(s, k, es[..|es| - 1]);
    }
  }

  lemma {:induction false} Returns(s: State, k: nat, es: seq<nat>, i: nat)
    requires i < |s.pcs| && s.value == k && forall j :: 0 <= j < |s.pcs| ==> Entered(s.pcs[j])
    requires i in es || s.pcs[i].Done?
    ensures Run(s, k, es).pcs[i].Done?
    decreases |es|
  {
    if es != [] {
      var front := es[..|es| - 1];
      Waits(s, k, front);
      if i in front || s.pcs[i].Done? {
        Returns(s, k, front, i);
      }
    }
  }

  lemma RoundsFromGood(s: State, k: nat, base: int, setter: int, a: seq<nat>, b: seq<nat>, c: seq<nat>)
    requires k == base + |s.pcs| && Good(s, base, setter)
    requires Covers(a, |s.pcs|) && Covers(b, |s.pcs|) && Covers(c, |s.pcs|)
    ensures AllDone(Run(s, k, a + b + c))
  {
    RunConcat(s, k, a, b);
    RunConcat(s, k, a + b, c);
    Opens(s, k, base, setter, a);
    var s1 := Run(s, k, a);
    RunKeepsOpen(s1, k, base, b);
    var s2 := Run(s1, k, b);
    forall i: nat | i < |s.pcs|
      ensures Entered(s2.pcs[i])
    {
      Enters(s1, k, base, b, i);
    }
    CountAll(s2.pcs);
    forall i: nat | i < |s.pcs|
      ensures Run(s2, k, c).pcs[i].Done?
    {
      Returns(s2, k, c, i);
    }
  }

  /** From any reachable state three fair rounds, however interleaved, let everybody return. */
  lemma FairRoundsFinish(last: seq<bool>, k: nat, start: int, s: State, a: seq<nat>, b: seq<nat>, c: seq<nat>)
    requires last != [] && start >= ABSENT && Condition(last, k, start) && Reachable(last, k, start, s)
    requires Covers(a, |last|) && Covers(b, |last|) && Covers(c, |last|)
    ensures AllDone(Run(s, k, a + b + c))
  {
    var setter := ReachableGood(last, k, start, s);
    RoundsFromGood(s, k, Base(last, start), setter, a, b, c);
  }

  lemma ConditionSuffices(last: seq<bool>, k: nat, start: int)
    requires last != [] && start >= ABSENT && Condition(last, k, start)
    ensures Works(last, k, start)
  {
    var round: seq<nat> := seq(|last|, i requires 0 <= i < |last| => i);
    forall i: nat | i < |last|
      ensures i in round
    {
      assert round[i] == i;
    }
    forall s: State | Reachable(last, k, start, s)
      ensures Holds(s) && CanFinish(k, s)
    {
      BarrierHolds(last, k, start, s);
      FairRoundsFinish(last, k, start, s, round, round, round);
    }
  }

  // ---- Calls that hang: nobody creates the counter -----------------------------------------------

  /** Whatever happens, nobody returns any more. */
  ghost predicate Hangs(k: nat, s: State) {
    forall es: seq<nat> :: NoneDone(Run(s, k, es))
  }

  lemma {:induction false} NeverCreated(s: State, k: nat, es: seq<nat>)
    requires s.value == ABSENT && forall i :: 0 <= i < |s.pcs| ==> s.pcs[i].Incr?
    ensures Run(s, k, es).value == ABSENT && forall i :: 0 <= i < |s.pcs| ==> Run(s, k, es).pcs[i].Incr?
    decreases |es|
  {
    if es != [] {
      NeverCreated(s, k, es[..|es| - 1]);
    }
  }

  lemma NobodyCreates(last: seq<bool>, k: nat)
    requires Nobody(last)
    ensures Hangs(k, InitState(last, ABSENT))
  {
    forall es: seq<nat>
      ensures NoneDone(Run(InitState(last, ABSENT), k, es))
    {
      NeverCreated(InitState(last, ABSENT), k, es);
    }
  }

  // ---- Calls that hang: the wrong number ---------------------------------------------------------

  /** Nothing is left to set, and the first `j` calls have entered. */
  function FirstEntered(n: nat, base: int, j: nat): (s: State)
    ensures |s.pcs| == n
  {
    State(base + j, seq(n, i => if i < j then Poll else Incr))
  }

  /** The first `j` calls have set the counter if they do. */
  function FirstSet(last: seq<bool>, start: int, j: nat): (s: State)
    requires j <= |last|
    ensures |s.pcs| == |last|
  {
    State(Base(last[..j], start), seq(|last|, i requires 0 <= i < |last| => if i >= j && last[i] then Set else Incr))
  }

  lemma {:induction false} FirstSetReachable(last: seq<bool>, k: nat, start: int, j: nat)
    requires j <= |last|
    ensures Reachable(last, k, start, FirstSet(last, start, j))
    decreases j
  {
    if j == 0 {
      StartReachable(last, k, start);
      assert FirstSet(last, start, 0) == InitState(last, start);
    } else {
      FirstSetReachable(last, k, start, j - 1);
      var s, t := FirstSet(last, start, j - 1), FirstSet(last, start, j);
      assert last[..j] == last[..j - 1] + [last[j - 1]];
      if last[j - 1] {
        Extend(last, k, start, s, j - 1);
        assert !Nobody(last[..j]) by {
          assert last[..j][j - 1];
        }
        assert s.pcs[j - 1 := Incr] == t.pcs;
      } else {
        SameUntil(last, j);
        assert s.pcs == t.pcs;
      }
    }
  }

  lemma SameUntil(last: seq<bool>, j: nat)
    requires 0 < j <= |last| && !last[j - 1]
    ensures Nobody(last[..j]) <==> Nobody(last[..j - 1])
  {
    assert forall i :: 0 <= i < j - 1 ==> last[..j][i] == last[..j - 1][i];
  }

  lemma {:induction false} FirstReachable(last: seq<bool>, k: nat, start: int, j: nat)
    requires j <= |last| && Base(last, start) >= 0
    ensures Reachable(last, k, start, FirstEntered(|last|, Base(last, start), j))
    decreases j
  {
    var n, base := |last|, Base(last, start);
    if j == 0 {
      FirstSetReachable(last, k, start, n);
      assert last[..n] == last;
      assert FirstSet(last, start, n).pcs == FirstEntered(n, base, 0).pcs;
    } else {
      FirstReachable(last, k, start, j - 1);
      Extend(last, k, start, FirstEntered(n, base, j - 1), j - 1);
      assert FirstEntered(n, base, j - 1).pcs[j - 1 := Poll] == FirstEntered(n, base, j).pcs;
    }
  }

  lemma {:induction false} PollsForever(s: State, k: nat, es: seq<nat>)
    requires s.value != k && forall i :: 0 <= i < |s.pcs| ==> s.pcs[i].Poll?
    ensures Run(s, k, es) == s
    decreases |es|
  {
    if es != [] {
      PollsForever(s, k, es[..|es| - 1]);
      var i := es[|es| - 1];
      if i < |s.pcs| {
        assert s.pcs[i := Poll] == s.pcs;
      }
    }
  }

  /** When everybody polls and nothing was lost, the counter has its last value. */
  lemma WrongNumber(last: seq<bool>, k: nat, start: int)
    requires Base(last, start) >= 0 && k != Base(last, start) + |last|
    ensures var s := FirstEntered(|last|, Base(last, start), |last|); Reachable(last, k, start, s) && Hangs(k, s)
  {
    var s := FirstEntered(|last|, Base(last, start), |last|);
    FirstReachable(last, k, start, |last|);
    forall es: seq<nat>
      ensures NoneDone(Run(s, k, es))
    {
      PollsForever(s, k, es);
    }
  }

  // ---- Calls that hang: an increment is lost -----------------------------------------------------

  /** Somebody has entered whom the counter does not count. */
  ghost predicate Lost(s: State) {
    0 <= s.value < Count(s.pcs) && NoneDone(s)
  }

  lemma {:induction false} LostForever(s: State, k: nat, es: seq<nat>)
    requires Lost(s) && k >= |s.pcs|
    ensures Lost(Run(s, k, es))
    decreases |es|
  {
    if es != [] {
      var i, front := es[|es| - 1], es[..|es| - 1];
      LostForever(s, k, front);
      var t := Run(s, k, front);
      if i < |t.pcs| {
        CountUpdate(t.pcs, i, Step(t, k, i).pcs[i]);
      }
    }
  }

  /** Call `j` can enter before call `setter` sets the counter. */
  predicate Overtakes(last: seq<bool>, start: int, j: nat, setter: nat) {
    j < |last| && setter < |last| && j != setter && last[setter] && (start == ABSENT ==> last[j])
  }

  /** Call `j` enters, and then call `setter` sets the counter. */
  function Overtaken(last: seq<bool>, j: nat, setter: nat): seq<nat>
    requires j < |last|
  {
    if last[j] then [j, j, setter] else [j, setter]
  }

  lemma SettingLoses(s: State, k: nat, j: nat, setter: nat)
    requires j < |s.pcs| && setter < |s.pcs| && s.pcs[j].Poll? && s.pcs[setter].Set? && NoneDone(s)
    ensures Lost(Step(s, k, setter))
  {
    CountUpdate(Step(s, k, setter).pcs, j, Poll);
  }

  /** The state in which call `j` has entered. */
  lemma OneEnters(last: seq<bool>, k: nat, start: int, j: nat)
    requires j < |last| && start >= ABSENT && (start == ABSENT ==> last[j])
    ensures var s := Run(InitState(last, start), k, if last[j] then [j, j] else [j]);
            s.pcs == InitState(last, start).pcs[j := Poll]
  {
    var s := InitState(last, start);
    assert Run(s, k, []) == s && [] + [j] == [j] && [j] + [j] == [j, j];
    RunSnoc(s, k, [], j);
    RunSnoc(s, k, [j], j);
  }

  lemma OvertakenLoses(last: seq<bool>, k: nat, start: int, j: nat, setter: nat)
    requires Overtakes(last, start, j, setter) && start >= ABSENT
    ensures Lost(Run(InitState(last, start), k, Overtaken(last, j, setter)))
  {
    var before := if last[j] then [j, j] else [j];
    OneEnters(last, k, start, j);
    RunSnoc(InitState(last, start), k, before, setter);
    assert before + [setter] == Overtaken(last, j, setter);
    SettingLoses(Run(InitState(last, start), k, before), k, j, setter);
  }

  lemma LosesCalls(last: seq<bool>, k: nat, start: int, j: nat, setter: nat)
    requires Overtakes(last, start, j, setter) && start >= ABSENT && k >= |last|
    ensures Hangs(k, Run(InitState(last, start), k, Overtaken(last, j, setter)))
  {
    var s := Run(InitState(last, start), k, Overtaken(last, j, setter));
    OvertakenLoses(last, k, start, j, setter);
    forall es: seq<nat>
      ensures NoneDone(Run(s, k, es))
    {
      LostForever(s, k, es);
    }
  }

  // ---- The exact condition -----------------------------------------------------------------------

  ghost predicate CanOvertake(last: seq<bool>, start: int) {
    exists j: nat, setter: nat :: Overtakes(last, start, j, setter)
  }

  lemma HangingRun(last: seq<bool>, k: nat, start: int) returns (s: State)
    requires last != [] && start >= ABSENT && !Condition(last, k, start)
    ensures Reachable(last, k, start, s) && Hangs(k, s)
  {
    if start == ABSENT && Nobody(last) {
      s := InitState(last, start);
      StartReachable(last, k, start);
      NobodyCreates(last, k);
    } else if k != Base(last, start) + |last| {
      s := FirstEntered(|last|, Base(last, start), |last|);
      WrongNumber(last, k, start);
    } else {
      var setter: nat :| setter < |last| && last[setter];
      var j: nat :| j < |last| && j != setter && (start == ABSENT ==> last[j]);
      s := Run(InitState(last, start), k, Overtaken(last, j, setter));
      LosesCalls(last, k, start, j, setter);
    }
  }

  lemma HangingNeverFinishes(k: nat, s: State)
    requires s.pcs != [] && Hangs(k, s)
    ensures !CanFinish(k, s)
  {
    forall es: seq<nat>
      ensures !AllDone(Run(s, k, es))
    {
      assert !Run(s, k, es).pcs[0].Done?;
    }
  }

  lemma ReachableLength(last: seq<bool>, k: nat, start: int, s: State)
    requires Reachable(last, k, start, s)
    ensures |s.pcs| == |last|
  {}

  /** The barrier works if and only if: on a fresh key, k is the number of calls and exactly one of
      them is made on the node with the last id; on a key that was used before, no call is made there
      and k is what the counter was plus the number of calls, or there is a single call and k is 1. */
  lemma BarrierIff(last: seq<bool>, k: nat, start: int)
    requires last != [] && start >= ABSENT
    ensures Works(last, k, start) <==>
              if start == ABSENT then k == |last| && ExactlyOne(last)
              else if Nobody(last) then k == start + |last|
              else k == |last| == 1
  {
    if Condition(last, k, start) {
      ConditionSuffices(last, k, start);
    } else {
      var s := HangingRun(last, k, start);
      ReachableLength(last, k, start, s);
      HangingNeverFinishes(k, s);
    }
  }

  /** Whenever that condition fails, and for no other calls, there is a run after which no call ever
      returns. */
  lemma HangsIff(last: seq<bool>, k: nat, start: int)
    requires last != [] && start >= ABSENT
    ensures (exists s: State :: Reachable(last, k, start, s) && Hangs(k, s)) <==> !Condition(last, k, start)
  {
    if Condition(last, k, start) {
      ConditionSuffices(last, k, start);
      forall s: State | Reachable(last, k, start, s)
        ensures !Hangs(k, s)
      {
        ReachableLength(last, k, start, s);
        if Hangs(k, s) {
          HangingNeverFinishes(k, s);
        }
      }
    } else {
      var s := HangingRun(last, k, start);
    }
  }

  // ---- Calls that return too early ---------------------------------------------------------------

  /** The calls that do not set the counter. */
  function NonSetters(last: seq<bool>): (c: nat)
    ensures c <= |last|
  {
    if last == [] then 0 else NonSetters(last[..|last| - 1]) + if last[|last| - 1] then 0 else 1
  }

  /** Somebody can read k before everybody has entered: before the counter is set, after it was set,
      or right after it was set over an increment. */
  ghost predicate CanReturnEarly(last: seq<bool>, k: nat, start: int) {
    if Nobody(last) then 0 <= start < k < start + |last|
    else 0 < k < |last| || 0 <= start < k <= start + NonSetters(last) || (k == 0 && CanOvertake(last, start))
  }

  /** No call that sets the counter has done so. */
  ghost predicate Untouched(last: seq<bool>, start: int, s: State) {
    && |s.pcs| == |last|
    && (forall i :: 0 <= i < |last| ==> (s.pcs[i].Set? <==> last[i]))
    && (if start == ABSENT then s.value == ABSENT && Count(s.pcs) == 0 else s.value == start + Count(s.pcs))
  }

  /** The counter counts at most those who have entered, and all of them if nobody could overtake. */
  ghost predicate Touched(last: seq<bool>, start: int, s: State) {
    && |s.pcs| == |last| && !Nobody(last) && 0 <= s.value <= Count(s.pcs)
    && (forall i :: 0 <= i < |last| && s.pcs[i].Set? ==> last[i])
    && (!CanOvertake(last, start) ==> s.value == Count(s.pcs) && forall i :: 0 <= i < |last| ==> !s.pcs[i].Set?)
  }

  lemma {:induction false} CountNonSetters(last: seq<bool>, pcs: seq<Pc>)
    requires |pcs| == |last| && forall i :: 0 <= i < |last| && last[i] ==> !Entered(pcs[i])
    ensures Count(pcs) <= NonSetters(last)
  {
    if last != [] {
      CountNonSetters(last[..|last| - 1], pcs[..|pcs| - 1]);
    }
  }

  ghost predicate Safe(last: seq<bool>, start: int, s: State) {
    Holds(s) && (Untouched(last, start, s) || Touched(last, start, s))
  }

  /** Without overtaking, nobody has entered when the counter is set. */
  lemma SetsFirst(last: seq<bool>, start: int, s: State, i: nat)
    requires Untouched(last, start, s) && i < |last| && last[i] && !CanOvertake(last, start)
    ensures Count(s.pcs) == 0 && forall j :: 0 <= j < |last| && j != i ==> !last[j]
  {
    forall j: nat | j < |last| && j != i
      ensures !last[j] && start == ABSENT
    {
      assert !Overtakes(last, start, j, i);
    }
    assert start != ABSENT && |last| > 1 ==> Overtakes(last, start, if i == 0 then 1 else 0, i);
    if start != ABSENT {
      CountNone(s.pcs);
    }
  }

  lemma StepKeepsPhase(last: seq<bool>, k: nat, start: int, s: State, i: nat)
    requires start >= ABSENT && (Untouched(last, start, s) || Touched(last, start, s))
    ensures Untouched(last, start, Step(s, k, i)) || Touched(last, start, Step(s, k, i))
  {
    if i < |s.pcs| {
      CountUpdate(s.pcs, i, Step(s, k, i).pcs[i]);
      if Untouched(last, start, s) && last[i] && !CanOvertake(last, start) {
        SetsFirst(last, start, s, i);
      }
    }
  }

  /** Whoever reads k is not early. */
  lemma ReadsInTime(last: seq<bool>, k: nat, start: int, s: State, i: nat)
    requires last != [] && start >= ABSENT && !CanReturnEarly(last, k, start)
    requires Untouched(last, start, s) || Touched(last, start, s)
    requires i < |s.pcs| && s.pcs[i].Poll? && s.value == k
    ensures forall j :: 0 <= j < |s.pcs| ==> Entered(s.pcs[j])
  {
    CountUpdate(s.pcs, i, Poll);
    CountAll(s.pcs);
    if Untouched(last, start, s) {
      CountNonSetters(last, s.pcs);
    }
  }

  lemma StepKeepsSafe(last: seq<bool>, k: nat, start: int, s: State, i: nat)
    requires last != [] && start >= ABSENT && !CanReturnEarly(last, k, start) && Safe(last, start, s)
    ensures Safe(last, start, Step(s, k, i))
  {
    StepKeepsPhase(last, k, start, s, i);
    if i < |s.pcs| && s.pcs[i].Poll? && s.value == k {
      ReadsInTime(last, k, start, s, i);
    }
  }

  lemma {:induction false} RunKeepsSafe(last: seq<bool>, k: nat, start: int, es: seq<nat>)
    requires last != [] && start >= ABSENT && !CanReturnEarly(last, k, start)
    ensures Safe(last, start, Run(InitState(last, start), k, es))
    decreases |es|
  {
    if es == [] {
      CountNone(InitState(last, start).pcs);
    } else {
      RunKeepsSafe(last, k, start, es[..|es| - 1]);
      StepKeepsSafe(last, k, start, Run(InitState(last, start), k, es[..|es| - 1]), es[|es| - 1]);
    }
  }

  /** The next step of call `i` is to return, although call `j` has not entered. */
  lemma EarlyStep(last: seq<bool>, k: nat, start: int, s: State, i: nat, j: nat)
    requires Reachable(last, k, start, s) && i < |s.pcs| && j < |s.pcs|
    requires s.pcs[i].Poll? && s.value == k && !Entered(s.pcs[j])
    ensures Reachable(last, k, start, Step(s, k, i)) && !Holds(Step(s, k, i))
  {
    Extend(last, k, start, s, i);
    assert Step(s, k, i).pcs[i].Done? && !Entered(Step(s, k, i).pcs[j]);
  }

  /** Those of the first `j` calls that do not set an old counter have entered. */
  function NonSettersEntered(last: seq<bool>, start: int, j: nat): (s: State)
    requires j <= |last|
    ensures |s.pcs| == |last|
  {
    State(start + NonSetters(last[..j]),
          seq(|last|, i requires 0 <= i < |last| => if last[i] then Set else if i < j then Poll else Incr))
  }

  lemma {:induction false} NonSettersReachable(last: seq<bool>, k: nat, start: int, j: nat)
    requires j <= |last| && start >= 0
    ensures Reachable(last, k, start, NonSettersEntered(last, start, j))
    decreases j
  {
    if j == 0 {
      StartReachable(last, k, start);
      assert NonSettersEntered(last, start, 0) == InitState(last, start);
    } else {
      NonSettersReachable(last, k, start, j - 1);
      var s, t := NonSettersEntered(last, start, j - 1), NonSettersEntered(last, start, j);
      assert last[..j][..j - 1] == last[..j - 1];
      if last[j - 1] {
        assert s.pcs == t.pcs;
      } else {
        Extend(last, k, start, s, j - 1);
        assert s.pcs[j - 1 := Poll] == t.pcs;
      }
    }
  }

  /** The number of others grows by steps of one. */
  lemma {:induction false} NonSettersReach(last: seq<bool>, c: nat, n: nat) returns (j: nat)
    requires n <= |last| && 0 < c <= NonSetters(last[..n])
    ensures 0 < j <= n && !last[j - 1] && NonSetters(last[..j]) == c
    decreases n
  {
    assert last[..n][..n - 1] == last[..n - 1];
    if c <= NonSetters(last[..n - 1]) {
      j := NonSettersReach(last, c, n - 1);
    } else {
      j := n;
    }
  }

  lemma EarlyRun(last: seq<bool>, k: nat, start: int) returns (s: State)
    requires last != [] && start >= ABSENT && CanReturnEarly(last, k, start)
    ensures Reachable(last, k, start, s) && !Holds(s)
  {
    var n, base := |last|, Base(last, start);
    if base >= 0 && base < k < base + n {
      s := FirstEntered(n, base, k - base);
      FirstReachable(last, k, start, k - base);
      EarlyStep(last, k, start, s, 0, n - 1);
      s := Step(s, k, 0);
    } else if k == 0 {
      var j: nat, setter: nat :| Overtakes(last, start, j, setter);
      s := OvertakenRun(last, start, j, setter);
      EarlyStep(last, 0, start, s, j, setter);
      s := Step(s, k, j);
    } else {
      assert last[..n] == last;
      var j := NonSettersReach(last, k - start, n);
      s := NonSettersEntered(last, start, j);
      NonSettersReachable(last, k, start, j);
      var setter: nat :| setter < n && last[setter];
      EarlyStep(last, k, start, s, j - 1, setter);
      s := Step(s, k, j - 1);
    }
  }

  lemma OvertakenRun(last: seq<bool>, start: int, j: nat, setter: nat) returns (s: State)
    requires Overtakes(last, start, j, setter) && start >= ABSENT
    ensures Reachable(last, 0, start, s) && |s.pcs| == |last| && s.value == 0 && s.pcs[j].Poll? && s.pcs[setter].Incr?
  {
    var before := if last[j] then [j, j] else [j];
    OneEnters(last, 0, start, j);
    RunSnoc(InitState(last, start), 0, before, setter);
    assert before + [setter] == Overtaken(last, j, setter);
    s := Run(InitState(last, start), 0, Overtaken(last, j, setter));
  }

  /** Somebody can return before everybody has entered if and only if k lies below the number that the
      counter ends with, or is a value that an old counter has before it is set, or is 0 where a call
      can be overtaken. */
  lemma EarlyIff(last: seq<bool>, k: nat, start: int)
    requires last != [] && start >= ABSENT
    ensures (exists s: State :: Reachable(last, k, start, s) && !Holds(s)) <==> CanReturnEarly(last, k, start)
  {
    if CanReturnEarly(last, k, start) {
      var s := EarlyRun(last, k, start);
    } else {
      forall s: State | Reachable(last, k, start, s)
        ensures Holds(s)
      {
        var es: seq<nat> :| s == Run(InitState(last, start), k, es);
        RunKeepsSafe(last, k, start, es);
      }
    }
  }

  // ---- The code ----------------------------------------------------------------------------------

  /** All participants and the counter. */
  class Cluster {
    const k: nat
    var value: int
    var pcs: seq<Pc>
    ghost var start: State
    ghost var trace: seq<nat>

    ghost function View(): State
      reads this
    {
      State(value, pcs)
    }

    ghost predicate Valid()
      reads this
    {
      View() == Run(start, k, trace)
    }

    constructor (last: seq<bool>, start: int, k: nat)
      ensures Valid() && this.k == k && this.start == View() == InitState(last, start) && trace == []
    {
      this.k := k;
      value, trace := start, [];
      pcs := seq(|last|, i requires 0 <= i < |last| => if last[i] then Set else Incr);
      this.start := InitState(last, start);
    }

    /** Record that participant `i` has taken a step. */
    ghost method Record(i: nat, before: State)
      requires before == Run(start, k, trace) && View() == Step(before, k, i)
      modifies this`trace
      ensures Valid() && trace == old(trace) + [i]
    {
      RunSnoc(start, k, trace, i);
      trace := trace + [i];
    }

    /** Other participants take their steps. */
    method Others(i: nat, es: seq<nat>)
      requires Valid() && i < |pcs| && i !in es
      modifies this`value, this`pcs, this`trace
      ensures Valid() && |pcs| == |old(pcs)| && pcs[i] == old(pcs)[i] && trace == old(trace) + es
    {
      var e := 0;
      ghost var was := trace;
      while e < |es|
        invariant 0 <= e <= |es| && Valid() && |pcs| == |old(pcs)| && pcs[i] == old(pcs)[i]
        invariant trace == was + es[..e]
      {
        assert was + es[..e] + [es[e]] == was + es[..e + 1];
        ghost var before := View();
        var s := Step(State(value, pcs), k, es[e]);
        value, pcs := s.value, s.pcs;
        Record(es[e], before);
        e := e + 1;
      }
      assert es[..e] == es;
    }

    /** `memSet(key, "0")` */
    method SetZero(i: nat)
      requires Valid() && i < |pcs| && pcs[i].Set?
      modifies this`value, this`pcs, this`trace
      ensures value == 0 && pcs == old(pcs)[i := Incr]
      ensures Valid() && View() == Step(old(View()), k, i) && trace == old(trace) + [i]
    {
      ghost var before := View();
      value, pcs := 0, pcs[i := Incr];
      Record(i, before);
    }

    /** `memcached_increment`, which fails on an absent key. */
    method Increment(i: nat) returns (ok: bool)
      requires Valid() && i < |pcs| && pcs[i].Incr?
      modifies this`value, this`pcs, this`trace
      ensures Valid() && View() == Step(old(View()), k, i) && trace == old(trace) + [i]
      ensures ok == pcs[i].Poll? == (old(value) != -1) && value == (if ok then old(value) + 1 else old(value))
    {
      ghost var before := View();
      ok := value != ABSENT;
      if ok {
        value, pcs := value + 1, pcs[i := Poll];
      }
      Record(i, before);
    }

    /** `memGet`, compared with k. */
    method Reached(i: nat) returns (ok: bool)
      requires Valid() && i < |pcs| && pcs[i].Poll?
      modifies this`value, this`pcs, this`trace
      ensures Valid() && View() == Step(old(View()), k, i) && trace == old(trace) + [i]
      ensures ok == pcs[i].Done? == (old(value) == k) && value == old(value)
    {
      ghost var before := View();
      ok := value == k;
      if ok {
        pcs := pcs[i := Done];
      }
      Record(i, before);
    }

    /** The increment is tried until it succeeds. */
    method EnterCounter(i: nat, gaps: seq<seq<nat>>) returns (entered: bool, n: nat)
      requires Valid() && i < |pcs| && pcs[i].Incr? && forall es :: es in gaps ==> i !in es
      modifies this`value, this`pcs, this`trace
      ensures Valid() && |pcs| == |old(pcs)| && n <= |gaps| && (entered || n == |gaps|)
      ensures trace == old(trace) + Played(i, gaps, 0, n)
      ensures pcs[i] == if entered then Poll else Incr
    {
      ghost var was := trace;
      entered, n := false, 0;
      while !entered && n < |gaps|
        invariant 0 <= n <= |gaps| && Valid() && |pcs| == |old(pcs)| && trace == was + Played(i, gaps, 0, n)
        invariant pcs[i] == if entered then Poll else Incr
      {
        assert gaps[n] in gaps;
        entered := Increment(i);
        Others(i, gaps[n]);
        PlayedNext(was, i, gaps, 0, n);
        n := n + 1;
      }
    }

    /** The loop that polls. */
    method AwaitAll(i: nat, gaps: seq<seq<nat>>, from: nat) returns (done: bool, n: nat)
      requires Valid() && i < |pcs| && pcs[i].Poll? && from <= |gaps| && forall es :: es in gaps ==> i !in es
      modifies this`value, this`pcs, this`trace
      ensures Valid() && |pcs| == |old(pcs)| && from <= n <= |gaps| && (done || n == |gaps|)
      ensures trace == old(trace) + Played(i, gaps, from, n)
      ensures pcs[i] == if done then Done else Poll
    {
      ghost var was := trace;
      done, n := false, from;
      while !done && n < |gaps|
        invariant from <= n <= |gaps| && Valid() && |pcs| == |old(pcs)| && trace == was + Played(i, gaps, from, n)
        invariant pcs[i] == if done then Done else Poll
      {
        assert gaps[n] in gaps;
        done := Reached(i);
        Others(i, gaps[n]);
        PlayedNext(was, i, gaps, from, n);
        n := n + 1;
      }
    }

    /** The call of participant `i`, which makes `n` accesses to increment and to poll, with the
        others going on in the gaps behind them. It ends with the gaps. */
    method Enter(i: nat, gaps: seq<seq<nat>>) returns (done: bool, n: nat)
      requires Valid() && i < |pcs| && (pcs[i].Set? || pcs[i].Incr?) && forall es :: es in gaps ==> i !in es
      modifies this`value, this`pcs, this`trace
      ensures Valid() && |pcs| == |old(pcs)| && done == pcs[i].Done? && n <= |gaps| && (done || n == |gaps|)
      ensures trace == old(trace) + (if old(pcs)[i].Set? then [i] else []) + Played(i, gaps, 0, n)
    {
      ghost var was := trace;
      if pcs[i].Set? {
        SetZero(i);
      }
      assert trace == was + if old(pcs)[i].Set? then [i] else [];
      was := trace;
      var entered;
      entered, n := EnterCounter(i, gaps);
      done := false;
      if entered {
        ghost var m := n;
        done, n := AwaitAll(i, gaps, n);
        PlayedConcat(i, gaps, 0, m, n);
        Associate(was, Played(i, gaps, 0, m), Played(i, gaps, m, n));
      }
    }
  }

  lemma Associate(a: seq<nat>, b: seq<nat>, c: seq<nat>)
    ensures a + b + c == a + (b + c)
  {}
}
