/** The reader-writer lock in one 16-bit word, shared by any number of threads. Every access to
    the word is one atomic step; between two of them other threads may take theirs. */
module WRLock {

  const WRAP := 65536
  const UNLOCKED := 0
  const LOCKED := 1

  type Word = w: nat | w < WRAP

  /** Where a thread is: outside, about to load or to compare-and-swap for one of the calls, or
      holding the lock. `once` tells the try_ calls from the ones that wait. */
  datatype Pc =
    | Idle
    | WLoad(once: bool) | WCas(once: bool)
    | RLoad(once: bool) | RCas(once: bool, v: Word)
    | HoldR | RUnlockLoad | RUnlockCas(v: Word)
    | HoldW

  datatype Call = Lock(write: bool, once: bool)

  datatype State = State(word: Word, pcs: seq<Pc>)

  /** What a thread does next; `call` matters only when it is idle. */
  datatype Event = Event(thread: nat, call: Call)

  function InitState(n: nat): State {
    State(UNLOCKED, seq(n, _ => Idle))
  }

  function Add16(v: Word, k: nat): Word {
    (v + k) % WRAP
  }

  /** compare_exchange_strong: `yes` and the new word if it still is `v`, else `no`. */
  function Cas(s: State, i: nat, v: Word, w: Word, yes: Pc, no: Pc): State
    requires i < |s.pcs|
  {
    if s.word == v then State(w, s.pcs[i := yes]) else s.(pcs := s.pcs[i := no])
  }

  /** One step of thread `i`. */
  function Step(s: State, i: nat, call: Call): (r: State)
    requires i < |s.pcs|
    ensures |r.pcs| == |s.pcs|
  {
    match s.pcs[i]
    case Idle => s.(pcs := s.pcs[i := if call.write then WLoad(call.once) else RLoad(call.once)])
    case WLoad(once) =>
      s.(pcs := s.pcs[i := if s.word == UNLOCKED then WCas(once) else if once then Idle else WLoad(once)])
    case WCas(once) => Cas(s, i, UNLOCKED, LOCKED, HoldW, if once then Idle else WLoad(once))
    case RLoad(once) =>
      s.(pcs := s.pcs[i := if s.word != LOCKED then RCas(once, s.word) else if once then Idle else RLoad(once)])
    case RCas(once, v) => Cas(s, i, v, Add16(v, 2), HoldR, RLoad(once))
    case HoldR => s.(pcs := s.pcs[i := RUnlockLoad])
    case RUnlockLoad => s.(pcs := s.pcs[i := RUnlockCas(s.word)])
    case RUnlockCas(v) => Cas(s, i, v, Add16(v, WRAP - 2), Idle, RUnlockLoad)
    case HoldW => State(UNLOCKED, s.pcs[i := Idle])
  }

  function Next(s: State, e: Event): (r: State)
    ensures |r.pcs| == |s.pcs|
  {
    if e.thread < |s.pcs| then Step(s, e.thread, e.call) else s
  }

  function Run(s: State, es: seq<Event>): (r: State)
    ensures |r.pcs| == |s.pcs|
    decreases |es|
  {
    if es == [] then s else Next(Run(s, es[..|es| - 1]), es[|es| - 1])
  }

  ghost predicate Reachable(n: nat, s: State) {
    exists es: seq<Event> :: s == Run(InitState(n), es)
  }

  // ---- Who holds the lock ------------------------------------------------------------------------

  /** A reader holds the lock until its unlocking compare-and-swap has succeeded. */
  predicate Reads(p: Pc) {
    p.HoldR? || p.RUnlockLoad? || p.RUnlockCas?
  }

  predicate Writes(p: Pc) {
    p.HoldW?
  }

  function Count(pcs: seq<Pc>, holds: Pc -> bool): (c: nat)
    ensures c <= |pcs|
  {
    if pcs == [] then 0
    else Count(pcs[..|pcs| - 1], holds) + if holds(pcs[|pcs| - 1]) then 1 else 0
  }

  function Readers(s: State): nat { Count(s.pcs, Reads) }

  function Writers(s: State): nat { Count(s.pcs, Writes) }

  function One(b: bool): nat { if b then 1 else 0 }

  lemma {:induction false} CountUpdate(pcs: seq<Pc>, holds: Pc -> bool, i: nat, p: Pc)
    requires i < |pcs|
    ensures Count(pcs[i := p], holds) == Count(pcs, holds) - One(holds(pcs[i])) + One(holds(p))
    ensures holds(pcs[i]) ==> Count(pcs, holds) > 0
  {
    var n := |pcs| - 1;
    if i < n {
      assert pcs[i := p][..n] == pcs[..n][i := p];
      CountUpdate(pcs[..n], holds, i, p);
    } else {
      assert pcs[i := p][..n] == pcs[..n];
    }
  }

  lemma {:induction false} HoldersBound(pcs: seq<Pc>)
    ensures Count(pcs, Reads) + Count(pcs, Writes) <= |pcs|
  {
    if pcs != [] {
      HoldersBound(pcs[..|pcs| - 1]);
    }
  }

  /** A thread that holds nothing is not among the holders. */
  lemma OthersBound(s: State, i: nat)
    requires i < |s.pcs| && !Reads(s.pcs[i]) && !Writes(s.pcs[i])
    ensures Readers(s) + Writers(s) < |s.pcs|
  {
    CountUpdate(s.pcs, Reads, i, HoldR);
    CountUpdate(s.pcs, Writes, i, HoldR);
    HoldersBound(s.pcs[i := HoldR]);
  }

  lemma {:induction false} CountZero(pcs: seq<Pc>, holds: Pc -> bool)
    ensures Count(pcs, holds) == 0 <==> forall i :: 0 <= i < |pcs| ==> !holds(pcs[i])
  {
    if pcs != [] {
      CountZero(pcs[..|pcs| - 1], holds);
    }
  }

  // ---- The invariant -----------------------------------------------------------------------------

  /** The word is 1 under a writer, and otherwise twice the number of readers modulo 2^16. */
  ghost predicate WordInv(s: State) {
    && (Writers(s) == 0 ==> s.word == 2 * Readers(s) % WRAP)
    && (Writers(s) > 0 ==> Writers(s) == 1 && Readers(s) == 0 && s.word == LOCKED)
  }

  /** No reader has loaded the word of a writer. */
  ghost predicate LoadInv(s: State) {
    forall i :: 0 <= i < |s.pcs| ==> !(s.pcs[i].RCas? && s.pcs[i].v == LOCKED)
  }

  ghost predicate Inv(s: State) {
    WordInv(s) && LoadInv(s)
  }

  lemma StepCounts(s: State, i: nat, call: Call)
    requires i < |s.pcs|
    ensures var s' := Step(s, i, call);
            && Readers(s') == Readers(s) - One(Reads(s.pcs[i])) + One(Reads(s'.pcs[i]))
            && Writers(s') == Writers(s) - One(Writes(s.pcs[i])) + One(Writes(s'.pcs[i]))
    ensures Reads(s.pcs[i]) ==> Readers(s) > 0
    ensures Writes(s.pcs[i]) ==> Writers(s) > 0
  {
    var s' := Step(s, i, call);
    assert s'.pcs == s.pcs[i := s'.pcs[i]];
    CountUpdate(s.pcs, Reads, i, s'.pcs[i]);
    CountUpdate(s.pcs, Writes, i, s'.pcs[i]);
  }

  lemma WrapUp(r: nat)
    ensures Add16(2 * r % WRAP, 2) == 2 * (r + 1) % WRAP
    ensures r > 0 ==> Add16(2 * r % WRAP, WRAP - 2) == 2 * (r - 1) % WRAP
    ensures 2 * r % WRAP != LOCKED
  {
    assert 2 * r % WRAP % 2 == 0;
  }

  lemma StepKeepsWord(s: State, i: nat, call: Call)
    requires i < |s.pcs| <= WRAP / 2 && Inv(s)
    ensures WordInv(Step(s, i, call))
  {
    StepCounts(s, i, call);
    WrapUp(Readers(s));
    if s.pcs[i].WCas? {
      OthersBound(s, i);
    }
  }

  /** Up to 2^15 threads, every step keeps the invariant. */
  lemma NextKeepsInv(s: State, e: Event)
    requires |s.pcs| <= 32768 && Inv(s)
    ensures Inv(Next(s, e))
  {
    if e.thread < |s.pcs| {
      StepKeepsWord(s, e.thread, e.call);
    }
  }

  lemma {:induction false} RunKeepsInv(s: State, es: seq<Event>)
    requires |s.pcs| <= WRAP / 2 && Inv(s)
    ensures Inv(Run(s, es))
    decreases |es|
  {
    if es != [] {
      RunKeepsInv(s, es[..|es| - 1]);
      NextKeepsInv(Run(s, es[..|es| - 1]), es[|es| - 1]);
    }
  }

  lemma ReachableInv(n: nat, s: State)
    requires n <= WRAP / 2 && Reachable(n, s)
    ensures |s.pcs| == n && Inv(s)
  {
    CountZero(InitState(n).pcs, Reads);
    CountZero(InitState(n).pcs, Writes);
    var es: seq<Event> :| s == Run(InitState(n), es);
    RunKeepsInv(InitState(n), es);
  }

  // ---- Exclusion ---------------------------------------------------------------------------------

  /** A writer excludes everyone else. */
  ghost predicate Exclusive(s: State) {
    forall i, j :: 0 <= i < |s.pcs| && 0 <= j < |s.pcs| && i != j && Writes(s.pcs[i]) ==>
      !Writes(s.pcs[j]) && !Reads(s.pcs[j])
  }

  ghost predicate Free(s: State) {
    forall i :: 0 <= i < |s.pcs| ==> !Writes(s.pcs[i]) && !Reads(s.pcs[i])
  }

  lemma CountsExclude(s: State)
    requires Writers(s) <= 1 && (Writers(s) == 1 ==> Readers(s) == 0)
    ensures Exclusive(s)
  {
    forall i, j | 0 <= i < |s.pcs| && 0 <= j < |s.pcs| && i != j && Writes(s.pcs[i])
      ensures !Writes(s.pcs[j]) && !Reads(s.pcs[j])
    {
      CountUpdate(s.pcs, Writes, i, Idle);
      CountZero(s.pcs, Reads);
      CountZero(s.pcs[i := Idle], Writes);
      assert s.pcs[i := Idle][j] == s.pcs[j];
    }
  }

  /** With at most 32767 threads the word is exact: 1 under the one writer, and otherwise twice the
      number of readers without any wrap. */
  lemma WordIsExact(n: nat, s: State)
    requires n <= 32767 && Reachable(n, s)
    ensures s.word == 1 <==> Writers(s) == 1
    ensures s.word != 1 <==> Writers(s) == 0
    ensures s.word != 1 ==> s.word == 2 * Readers(s)
    ensures s.word == 1 ==> Readers(s) == 0
    ensures s.word == 0 <==> Free(s)
  {
    ReachableInv(n, s);
    HoldersBound(s.pcs);
    WrapUp(Readers(s));
    CountZero(s.pcs, Reads);
    CountZero(s.pcs, Writes);
  }

  // ---- The exact bounds --------------------------------------------------------------------------

  /** The first `k` of `n` threads read. */
  function ReadersOf(n: nat, k: nat): (s: State)
    requires k <= n
    ensures |s.pcs| == n
  {
    State(2 * k % WRAP, seq(n, i => if i < k then HoldR else Idle))
  }

  lemma Extend(n: nat, s: State, e: Event)
    requires Reachable(n, s)
    ensures Reachable(n, Next(s, e))
  {
    var es: seq<Event> :| s == Run(InitState(n), es);
    assert (es + [e])[..|es|] == es;
    assert Next(s, e) == Run(InitState(n), es + [e]);
  }

  const READ := Lock(false, false)
  const WRITE := Lock(true, false)

  /** Any number of readers can hold the lock together. */
  lemma {:induction false} ManyReaders(n: nat, k: nat)
    requires k <= n
    ensures Reachable(n, ReadersOf(n, k))
    decreases k
  {
    if k == 0 {
      assert ReadersOf(n, 0) == Run(InitState(n), []);
    } else {
      var i := k - 1;
      ManyReaders(n, i);
      WrapUp(i);
      var s0 := ReadersOf(n, i);
      var s1 := Next(s0, Event(i, READ));
      var s2 := Next(s1, Event(i, READ));
      var s3 := Next(s2, Event(i, READ));
      Extend(n, s0, Event(i, READ));
      Extend(n, s1, Event(i, READ));
      Extend(n, s2, Event(i, READ));
      assert s3.pcs == s0.pcs[i := HoldR] == ReadersOf(n, k).pcs;
    }
  }

  /** With 2^15 readers the word is 0 again, and one more thread can lock for writing. */
  lemma WriterAmongReaders(n: nat)
    requires n > WRAP / 2
    ensures exists s: State :: Reachable(n, s) && !Exclusive(s)
  {
    var i := WRAP / 2;
    ManyReaders(n, i);
    var s0 := ReadersOf(n, i);
    assert s0.word == 0;
    var s1 := Next(s0, Event(i, WRITE));
    var s2 := Next(s1, Event(i, WRITE));
    var s3 := Next(s2, Event(i, WRITE));
    Extend(n, s0, Event(i, WRITE));
    Extend(n, s1, Event(i, WRITE));
    Extend(n, s2, Event(i, WRITE));
    assert Writes(s3.pcs[i]) && Reads(s3.pcs[0]);
  }

  /** Writers exclude everyone in every run if and only if there are at most 32768 threads. */
  lemma ExclusionIff(n: nat)
    ensures (forall s: State :: Reachable(n, s) ==> Exclusive(s)) <==> n <= 32768
  {
    if n <= WRAP / 2 {
      forall s: State | Reachable(n, s)
        ensures Exclusive(s)
      {
        ReachableInv(n, s);
        CountsExclude(s);
      }
    } else {
      WriterAmongReaders(n);
    }
  }

  /** The word tells in every run whether anybody holds the lock if and only if there are at most
      32767 threads. */
  lemma ZeroIffFree(n: nat)
    ensures (forall s: State :: Reachable(n, s) ==> (s.word == 0 <==> Free(s))) <==> n <= 32767
  {
    if n < WRAP / 2 {
      forall s: State | Reachable(n, s)
        ensures s.word == 0 <==> Free(s)
      {
        WordIsExact(n, s);
      }
    } else {
      ManyReaders(n, WRAP / 2);
      var s := ReadersOf(n, WRAP / 2);
      assert Reads(s.pcs[0]);
      assert s.word == UNLOCKED;
    }
  }

  // ---- Retries and progress ----------------------------------------------------------------------

  /** The step takes or releases the lock. */
  predicate Completes(s: State, e: Event) {
    && e.thread < |s.pcs|
    && var p, q := s.pcs[e.thread], Next(s, e).pcs[e.thread];
       (Reads(p) != Reads(q)) || (Writes(p) != Writes(q))
  }

  lemma OnlyCompletionsWrite(s: State, e: Event)
    ensures Next(s, e).word != s.word ==> Completes(s, e)
  {}

  /** Events of other threads than `i`. */
  predicate Foreign(es: seq<Event>, i: nat) {
    forall e :: e in es ==> e.thread != i
  }

  lemma {:induction false} ChangedWord(s: State, es: seq<Event>, i: nat)
    requires Foreign(es, i) && Run(s, es).word != s.word
    ensures exists k: nat :: k < |es| && es[k].thread != i && Completes(Run(s, es[..k]), es[k])
    decreases |es|
  {
    var n := |es| - 1;
    var t := Run(s, es[..n]);
    assert es[n] in es;
    if t.word == s.word {
      OnlyCompletionsWrite(t, es[n]);
    } else {
      ChangedWord(s, es[..n], i);
      var k: nat :| k < n && es[..n][k].thread != i && Completes(Run(s, es[..n][..k]), es[..n][k]);
      assert es[..n][..k] == es[..k];
    }
  }

  lemma {:induction false} ForeignKeeps(s: State, es: seq<Event>, i: nat)
    requires i < |s.pcs| && Foreign(es, i)
    ensures Run(s, es).pcs[i] == s.pcs[i]
    decreases |es|
  {
    if es != [] {
      var n := |es| - 1;
      ForeignKeeps(s, es[..n], i);
      assert es[n] in es;
    }
  }

  /** The reader `i` loads the word, the others take the steps `es`, and its compare-and-swap sends
      it back to loading: then one of these steps took or released the lock. */
  lemma RetryMeansUpdate(s: State, es: seq<Event>, i: nat, call: Call)
    requires i < |s.pcs| && (s.pcs[i].RLoad? || s.pcs[i].RUnlockLoad?) && Foreign(es, i)
    requires var loaded := Step(s, i, call);
             (loaded.pcs[i].RCas? || loaded.pcs[i].RUnlockCas?) && Step(Run(loaded, es), i, call).pcs[i] == s.pcs[i]
    ensures var loaded := Step(s, i, call);
            exists k: nat :: k < |es| && es[k].thread != i && Completes(Run(loaded, es[..k]), es[k])
  {
    var loaded := Step(s, i, call);
    ForeignKeeps(loaded, es, i);
    ChangedWord(loaded, es, i);
  }

  /** The thread `i` has found the lock free, the others take the steps `es`, and its compare-and-swap
      does not take the lock: then one of these steps took or released it. */
  lemma WriterFailsOnUpdate(s: State, es: seq<Event>, i: nat, call: Call)
    requires i < |s.pcs| && s.pcs[i].WLoad? && Foreign(es, i)
    requires var loaded := Step(s, i, call); loaded.pcs[i].WCas? && !Step(Run(loaded, es), i, call).pcs[i].HoldW?
    ensures var loaded := Step(s, i, call);
            exists k: nat :: k < |es| && es[k].thread != i && Completes(Run(loaded, es[..k]), es[k])
  {
    var loaded := Step(s, i, call);
    ForeignKeeps(loaded, es, i);
    ChangedWord(loaded, es, i);
  }

  /** A try_ call gives up only while the lock is held, and a reader only because of a writer. */
  lemma TryFailsOnlyIfHeld(n: nat, s: State, i: nat, call: Call)
    requires n <= 32768 && Reachable(n, s) && i < n && !Reads(s.pcs[i]) && !Writes(s.pcs[i]) && !s.pcs[i].Idle?
    requires Step(s, i, call).pcs[i].Idle?
    ensures !Free(s)
    ensures s.pcs[i].RLoad? ==> Writers(s) == 1
  {
    ReachableInv(n, s);
    WrapUp(Readers(s));
    CountZero(s.pcs, Reads);
    CountZero(s.pcs, Writes);
  }

  /** Left alone, a thread gets a free lock, a reader gets a lock without a writer, and a reader
      that unlocks is out, each within two steps. */
  lemma AloneSucceeds(n: nat, s: State, i: nat, call: Call)
    requires n <= 32768 && Reachable(n, s) && i < n
    ensures var t := Step(Step(s, i, call), i, call);
            && (Free(s) && s.pcs[i].WLoad? ==> Writes(t.pcs[i]))
            && (Writers(s) == 0 && s.pcs[i].RLoad? ==> Reads(t.pcs[i]))
            && (s.pcs[i].RUnlockLoad? ==> t.pcs[i].Idle?)
  {
    ReachableInv(n, s);
    WrapUp(Readers(s));
    CountZero(s.pcs, Reads);
    CountZero(s.pcs, Writes);
  }
}
