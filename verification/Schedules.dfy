/** Runs of one participant: each of its own accesses is followed by a gap in which others act. */
module Schedules {

  /** Behind the last gap nobody else acts. */
  function Gap<T>(gaps: seq<seq<T>>, g: nat): seq<T> {
    if g < |gaps| then gaps[g] else []
  }

  /** The accesses `own` with numbers from `from` to `to`, and the gaps behind them. */
  function Played<T>(own: T, gaps: seq<seq<T>>, from: nat, to: nat): seq<T>
    decreases to
  {
    if to <= from then [] else Played(own, gaps, from, to - 1) + [own] + Gap(gaps, to - 1)
  }

  lemma PlayedNext<T>(before: seq<T>, own: T, gaps: seq<seq<T>>, from: nat, to: nat)
    requires from <= to
    ensures before + Played(own, gaps, from, to) + [own] + Gap(gaps, to) == before + Played(own, gaps, from, to + 1)
  {}

  lemma {:induction false} PlayedConcat<T>(own: T, gaps: seq<seq<T>>, a: nat, b: nat, c: nat)
    requires a <= b <= c
    ensures Played(own, gaps, a, c) == Played(own, gaps, a, b) + Played(own, gaps, b, c)
    decreases c
  {
    if b < c {
      PlayedConcat(own, gaps, a, b, c - 1);
    }
  }
}
