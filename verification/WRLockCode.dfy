/** The lock's calls as loops over single accesses to the word. Every access is followed by the
    steps of other threads in the gap behind it; a call that has to wait ends with the gaps. */
module WRLockCode {
  import opened Schedules
  import opened WRLock

  class Machine {
    var l: Word
    var pcs: seq<Pc>
    ghost var trace: seq<Event>

    ghost function View(): State
      reads this
    {
      State(l, pcs)
    }

    /** The run that led here; all theorems about reachable states apply. */
    ghost predicate Valid()
      reads this
    {
      View() == Run(InitState(|pcs|), trace)
    }

    constructor (n: nat)
      ensures Valid() && View() == InitState(n)
    {
      l, pcs, trace := UNLOCKED, seq(n, _ => Idle), [];
    }

    method IsUnlock() returns (r: bool)
      ensures r == (l == 0)
    {
      r := l == UNLOCKED;
    }

    static lemma Snoc(before: seq<Event>, es: seq<Event>, k: nat)
      requires k < |es|
      ensures before + es[..k] + [es[k]] == before + es[..k + 1]
    {}

    /** The other threads run. */
    method Others(i: nat, es: seq<Event>)
      requires Valid() && Foreign(es, i) && i < |pcs|
      modifies this
      ensures Valid() && |pcs| == |old(pcs)| && pcs[i] == old(pcs)[i]
      ensures trace == old(trace) + es && (es == [] ==> l == old(l))
    {
      var k := 0;
      ghost var before := trace;
      while k < |es|
        invariant 0 <= k <= |es| && Valid() && |pcs| == |old(pcs)| && pcs[i] == old(pcs)[i]
        invariant trace == before + es[..k] && (es == [] ==> l == old(l))
      {
        assert es[k] in es;
        Advance(es[k]);
        Snoc(before, es, k);
        k := k + 1;
      }
      assert es[..k] == es;
    }

    /** One step of some thread. */
    method Advance(e: Event)
      requires Valid()
      modifies this
      ensures Valid() && View() == Next(old(View()), e) && trace == old(trace) + [e]
    {
      var s := Next(State(l, pcs), e);
      assert (trace + [e])[..|trace|] == trace;
      l, pcs, trace := s.word, s.pcs, trace + [e];
    }

    // ---- Accesses to the word --------------------------------------------------------------------

    predicate Loads(p: Pc) {
      p.WLoad? || p.RLoad? || p.RUnlockLoad?
    }

    /** `p` is about to replace `v` by `w`. */
    predicate Swaps(p: Pc, v: Word, w: Word) {
      match p
      case WCas(_) => v == UNLOCKED && w == LOCKED
      case RCas(_, u) => v == u && w == Add16(u, 2)
      case RUnlockCas(u) => v == u && w == Add16(u, WRAP - 2)
      case _ => false
    }

    method Load(i: nat, gap: seq<Event>) returns (v: Word)
      requires Valid() && i < |pcs| && Loads(pcs[i]) && Foreign(gap, i)
      modifies this
      ensures Valid() && |pcs| == |old(pcs)| && trace == old(trace) + [Event(i, READ)] + gap
      ensures v == old(l) && pcs[i] == Step(old(View()), i, READ).pcs[i]
      ensures gap == [] ==> l == old(l)
    {
      v := l;
      Advance(Event(i, READ));
      Others(i, gap);
    }

    method CompareExchange(i: nat, v: Word, w: Word, gap: seq<Event>) returns (ok: bool)
      requires Valid() && i < |pcs| && Swaps(pcs[i], v, w) && Foreign(gap, i)
      modifies this
      ensures Valid() && |pcs| == |old(pcs)| && trace == old(trace) + [Event(i, READ)] + gap
      ensures ok == (old(l) == v) && pcs[i] == Step(old(View()), i, READ).pcs[i]
      ensures gap == [] ==> l == if ok then w else old(l)
    {
      ghost var s := View();
      ok := l == v;
      if ok {
        l := w;
      }
      pcs := pcs[i := if !ok then Failed(pcs[i]) else Succeeded(pcs[i])];
      assert View() == Step(s, i, READ);
      assert (trace + [Event(i, READ)])[..|trace|] == trace;
      trace := trace + [Event(i, READ)];
      Others(i, gap);
    }

    function Succeeded(p: Pc): Pc {
      match p
      case WCas(_) => HoldW
      case RCas(_, _) => HoldR
      case _ => Idle
    }

    function Failed(p: Pc): Pc {
      match p
      case WCas(once) => if once then Idle else WLoad(once)
      case RCas(once, _) => RLoad(once)
      case _ => RUnlockLoad
    }

    /** Enter a call: no access to the word. */
    method Enter(i: nat, call: Call)
      requires Valid() && i < |pcs| && (pcs[i].Idle? || pcs[i].HoldR?)
      modifies this
      ensures Valid() && |pcs| == |old(pcs)| && l == old(l) && trace == old(trace) + [Event(i, call)]
      ensures pcs[i] == Step(old(View()), i, call).pcs[i]
    {
      Advance(Event(i, call));
    }

    // ---- The calls -------------------------------------------------------------------------------

    method WUnlock(i: nat)
      requires Valid() && i < |pcs| && pcs[i].HoldW?
      modifies this
      ensures Valid() && l == 0 && pcs == old(pcs)[i := Idle] && trace == old(trace) + [Event(i, WRITE)]
    {
      Advance(Event(i, WRITE));
    }

    /** After entering the call the thread makes `n` accesses, with the given gaps behind them. */
    method TryWLock(i: nat, gaps: seq<seq<Event>>) returns (ok: bool, n: nat)
      requires Valid() && i < |pcs| && pcs[i].Idle? && |gaps| == 2 && forall g :: g in gaps ==> Foreign(g, i)
      modifies this
      ensures Valid() && |pcs| == |old(pcs)| && 1 <= n <= 2
      ensures trace == old(trace) + [Event(i, Lock(true, true))] + Played(Event(i, READ), gaps, 0, n)
      ensures pcs[i] == if ok then HoldW else Idle
      ensures old(l) != 0 ==> !ok && n == 1
      ensures old(l) == 0 && gaps == [[], []] ==> ok && n == 2 && l == 1
    {
      assert gaps[0] in gaps && gaps[1] in gaps;
      Enter(i, Lock(true, true));
      ghost var was := trace;
      PlayedNext(was, Event(i, READ), gaps, 0, 0);
      PlayedNext(was, Event(i, READ), gaps, 0, 1);
      assert was + Played(Event(i, READ), gaps, 0, 0) == was;
      var v := Load(i, gaps[0]);
      if v != UNLOCKED {
        return false, 1;
      }
      ok := CompareExchange(i, UNLOCKED, LOCKED, gaps[1]);
      n := 2;
    }

    /** One round of wLock's outer loop: look, and if the lock is free try to take it. */
    method WRound(i: nat, gaps: seq<seq<Event>>, n: nat, ghost was: seq<Event>) returns (done: bool, m: nat)
      requires Valid() && i < |pcs| && pcs[i] == WLoad(false) && n + 2 <= |gaps| && forall g :: g in gaps ==> Foreign(g, i)
      requires trace == was + Played(Event(i, READ), gaps, 0, n)
      modifies this
      ensures Valid() && |pcs| == |old(pcs)| && n < m <= n + 2
      ensures trace == was + Played(Event(i, READ), gaps, 0, m)
      ensures pcs[i] == if done then HoldW else WLoad(false)
      ensures old(l) == 0 && gaps[n] == gaps[n + 1] == [] ==> done && m == n + 2 && l == 1
    {
      assert gaps[n] in gaps && gaps[n + 1] in gaps;
      PlayedNext(was, Event(i, READ), gaps, 0, n);
      PlayedNext(was, Event(i, READ), gaps, 0, n + 1);
      var v := Load(i, gaps[n]);
      done, m := false, n + 1;
      if v == UNLOCKED {
        done := CompareExchange(i, UNLOCKED, LOCKED, gaps[m]);
        m := n + 2;
      }
    }

    method WLock(i: nat, gaps: seq<seq<Event>>) returns (done: bool, n: nat)
      requires Valid() && i < |pcs| && pcs[i].Idle? && forall g :: g in gaps ==> Foreign(g, i)
      modifies this
      ensures Valid() && |pcs| == |old(pcs)| && n <= |gaps| && (done || n + 2 > |gaps|)
      ensures trace == old(trace) + [Event(i, WRITE)] + Played(Event(i, READ), gaps, 0, n)
      ensures pcs[i] == if done then HoldW else WLoad(false)
      ensures old(l) == 0 && |gaps| >= 2 && gaps[0] == gaps[1] == [] ==> done && n == 2 && l == 1
    {
      Enter(i, WRITE);
      done, n := false, 0;
      ghost var was := trace;
      while !done && n + 2 <= |gaps|
        invariant 0 <= n <= |gaps| && Valid() && |pcs| == |old(pcs)|
        invariant trace == was + Played(Event(i, READ), gaps, 0, n)
        invariant pcs[i] == if done then HoldW else WLoad(false)
        invariant old(l) == 0 && |gaps| >= 2 && gaps[0] == gaps[1] == [] ==>
                    (n == 0 && l == 0) || (done && n == 2 && l == 1)
      {
        done, n := WRound(i, gaps, n, was);
      }
    }

    /** One round of the readers' loop. */
    method RRound(i: nat, once: bool, gaps: seq<seq<Event>>, n: nat, ghost was: seq<Event>)
      returns (done: bool, ok: bool, m: nat)
      requires Valid() && i < |pcs| && pcs[i] == RLoad(once) && n + 2 <= |gaps| && forall g :: g in gaps ==> Foreign(g, i)
      requires trace == was + Played(Event(i, READ), gaps, 0, n)
      modifies this
      ensures Valid() && |pcs| == |old(pcs)| && n < m <= n + 2
      ensures trace == was + Played(Event(i, READ), gaps, 0, m)
      ensures if done then pcs[i] == (if ok then HoldR else Idle) && (ok || once) else !ok && pcs[i] == RLoad(once)
      ensures gaps[n] == gaps[n + 1] == [] && old(l) != 1 ==> done && ok && m == n + 2 && l == (old(l) + 2) % 65536
      ensures gaps[n] == [] && old(l) == 1 ==> done == once && !ok && m == n + 1 && l == 1
    {
      assert gaps[n] in gaps && gaps[n + 1] in gaps;
      PlayedNext(was, Event(i, READ), gaps, 0, n);
      PlayedNext(was, Event(i, READ), gaps, 0, n + 1);
      var v := Load(i, gaps[n]);
      ok, m := false, n + 1;
      if v == LOCKED {
        done := once;
      } else {
        ok := CompareExchange(i, v, Add16(v, 2), gaps[m]);
        done := ok;
        m := n + 2;
      }
    }

    /** rLock when `once` is false, try_rLock when it is true: it gives up at the sight of a writer. */
    method ReadLock(i: nat, once: bool, gaps: seq<seq<Event>>) returns (done: bool, ok: bool, n: nat)
      requires Valid() && i < |pcs| && pcs[i].Idle? && forall g :: g in gaps ==> Foreign(g, i)
      modifies this
      ensures Valid() && |pcs| == |old(pcs)| && n <= |gaps| && (done || n + 2 > |gaps|)
      ensures trace == old(trace) + [Event(i, Lock(false, once))] + Played(Event(i, READ), gaps, 0, n)
      ensures if done then pcs[i] == (if ok then HoldR else Idle) && (ok || once) else !ok && pcs[i] == RLoad(once)
      ensures |gaps| >= 2 && gaps[0] == gaps[1] == [] && old(l) != 1 ==> done && ok && n == 2 && l == (old(l) + 2) % 65536
      ensures |gaps| >= 2 && gaps[0] == [] && old(l) == 1 && once ==> done && !ok && n == 1 && l == 1
    {
      Enter(i, Lock(false, once));
      done, ok, n := false, false, 0;
      ghost var was := trace;
      while !done && n + 2 <= |gaps|
        invariant 0 <= n <= |gaps| && Valid() && |pcs| == |old(pcs)|
        invariant trace == was + Played(Event(i, READ), gaps, 0, n)
        invariant if done then pcs[i] == (if ok then HoldR else Idle) && (ok || once) else !ok && pcs[i] == RLoad(once)
        invariant |gaps| >= 2 && gaps[0] == gaps[1] == [] && old(l) != 1 ==>
                    (n == 0 && l == old(l)) || (done && ok && n == 2 && l == (old(l) + 2) % 65536)
        invariant |gaps| >= 2 && gaps[0] == [] && old(l) == 1 && once ==>
                    (n == 0 && l == 1) || (done && !ok && n == 1 && l == 1)
      {
        done, ok, n := RRound(i, once, gaps, n, was);
      }
    }

    /** One round of rUnlock's loop. */
    method UnlockRound(i: nat, gaps: seq<seq<Event>>, n: nat, ghost was: seq<Event>) returns (done: bool)
      requires Valid() && i < |pcs| && pcs[i].RUnlockLoad? && n + 2 <= |gaps| && forall g :: g in gaps ==> Foreign(g, i)
      requires trace == was + Played(Event(i, READ), gaps, 0, n)
      modifies this
      ensures Valid() && |pcs| == |old(pcs)| && trace == was + Played(Event(i, READ), gaps, 0, n + 2)
      ensures pcs[i] == if done then Idle else RUnlockLoad
      ensures gaps[n] == gaps[n + 1] == [] ==> done && l == (old(l) + 65534) % 65536
    {
      assert gaps[n] in gaps && gaps[n + 1] in gaps;
      PlayedNext(was, Event(i, READ), gaps, 0, n);
      PlayedNext(was, Event(i, READ), gaps, 0, n + 1);
      var v := Load(i, gaps[n]);
      done := CompareExchange(i, v, Add16(v, WRAP - 2), gaps[n + 1]);
    }

    method RUnlock(i: nat, gaps: seq<seq<Event>>) returns (done: bool, n: nat)
      requires Valid() && i < |pcs| && pcs[i].HoldR? && forall g :: g in gaps ==> Foreign(g, i)
      modifies this
      ensures Valid() && |pcs| == |old(pcs)| && n <= |gaps| && (done || n + 2 > |gaps|)
      ensures trace == old(trace) + [Event(i, READ)] + Played(Event(i, READ), gaps, 0, n)
      ensures pcs[i] == if done then Idle else RUnlockLoad
      ensures |gaps| >= 2 && gaps[0] == gaps[1] == [] ==> done && n == 2 && l == (old(l) + 65534) % 65536
    {
      Enter(i, READ);
      done, n := false, 0;
      ghost var was := trace;
      while !done && n + 2 <= |gaps|
        invariant 0 <= n <= |gaps| && Valid() && |pcs| == |old(pcs)|
        invariant trace == was + Played(Event(i, READ), gaps, 0, n)
        invariant pcs[i] == if done then Idle else RUnlockLoad
        invariant |gaps| >= 2 && gaps[0] == gaps[1] == [] ==>
                    (n == 0 && l == old(l)) || (done && n == 2 && l == (old(l) + 65534) % 65536)
      {
        done := UnlockRound(i, gaps, n, was);
        n := n + 2;
      }
    }
  }
}
