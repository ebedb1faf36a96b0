/** Receiving messages: a ring of buffers posted in four batches. The card fills buffers in the
    order of their posts; getMessage hands them out in turn and reposts a batch with its last one. */
module ReceiveRing {
  import opened Arith

  const BATCHES := 4              // kBatchCount
  const WIDTH32 := 0x1_0000_0000  // subNR is a uint32_t

  /** What the constructor's assertion and the 16-bit field messageNR ask for. */
  predicate ValidNR(nr: nat) {
    0 < nr < 0x1_0000 && nr % BATCHES == 0
  }

  function SubNR(nr: nat): nat {
    nr / BATCHES
  }

  /** `posted[i]` is the buffer of the i-th posted receive, `placed` of them are filled already;
      `returned` counts the calls of getMessage. */
  datatype Ring<T> = Ring(nr: nat, cur: nat, posted: seq<nat>, placed: nat, mem: seq<T>,
                          returned: nat, arrivals: seq<T>)

  /** Buffers of batch `k`. */
  function Batch(k: nat, sub: nat): (b: seq<nat>)
    ensures |b| == sub
  {
    seq(sub, i requires 0 <= i < sub => k * sub + i)
  }

  /** The batch to repost, in unsigned 32-bit arithmetic. */
  function RepostIndex(cur: nat, sub: nat): (k: nat)
    requires sub > 0
    ensures k < BATCHES
  {
    ((cur / sub + WIDTH32 - 1) % WIDTH32 + BATCHES) % WIDTH32 % BATCHES
  }

  /** After initRecv. */
  function InitRing<T>(nr: nat, mem: seq<T>): Ring<T> {
    var sub := SubNR(nr);
    Ring(nr, 0, Batch(0, sub) + Batch(1, sub) + Batch(2, sub) + Batch(3, sub), 0, mem, 0, [])
  }

  predicate WellFormed<T>(r: Ring<T>) {
    && ValidNR(r.nr) && r.cur < r.nr && |r.mem| == r.nr
    && forall i :: 0 <= i < |r.posted| ==> r.posted[i] < r.nr
  }

  /** The buffer that the next getMessage hands out is r.cur. */
  function GetMessage<T>(r: Ring<T>): Ring<T>
    requires WellFormed(r)
  {
    var cur := (r.cur + 1) % r.nr;
    var sub := SubNR(r.nr);
    r.(cur := cur, returned := r.returned + 1,
       posted := if cur % sub == 0 then r.posted + Batch(RepostIndex(cur, sub), sub) else r.posted)
  }

  /** The card drops what arrives when no receive is posted. */
  function Arrive<T>(r: Ring<T>, x: T): Ring<T>
    requires WellFormed(r)
  {
    if r.placed < |r.posted|
    then r.(mem := r.mem[r.posted[r.placed] := x], placed := r.placed + 1, arrivals := r.arrivals + [x])
    else r
  }

  datatype Event<T> = Get | Arrival(x: T)

  /** getMessage is called once for every completion, so never ahead of the arrivals. */
  function Next<T>(r: Ring<T>, e: Event<T>): Ring<T>
    requires WellFormed(r)
  {
    match e
    case Get => if r.returned < r.placed then GetMessage(r) else r
    case Arrival(x) => Arrive(r, x)
  }

  // ---- The invariant -----------------------------------------------------------------------------

  /** How many buffers were posted after `n` calls of getMessage: all, and then each finished batch. */
  function PostedCount(nr: nat, n: nat): nat
    requires ValidNR(nr)
  {
    nr + n / SubNR(nr) * SubNR(nr)
  }

  ghost predicate CountInv<T>(r: Ring<T>) {
    && WellFormed(r) && r.cur == r.returned % r.nr
    && |r.posted| == PostedCount(r.nr, r.returned)
    && (forall i: nat :: i < |r.posted| ==> r.posted[i] == i % r.nr)
    && r.returned <= r.placed == |r.arrivals| && r.placed <= |r.posted|
  }

  /** The last `nr` arrivals are in their buffers. */
  ghost predicate DataInv<T>(r: Ring<T>)
    requires WellFormed(r)
  {
    forall n: nat :: n < |r.arrivals| <= n + r.nr ==> r.mem[n % r.nr] == r.arrivals[n]
  }

  ghost predicate Inv<T>(r: Ring<T>) {
    CountInv(r) && DataInv(r)
  }

  lemma BatchAt(k: nat, sub: nat, i: nat)
    requires k < BATCHES && i < sub
    ensures Batch(k, sub)[i] == k * sub + i
  {}

  lemma Quarters(nr: nat)
    requires ValidNR(nr)
    ensures SubNR(nr) > 0 && nr == BATCHES * SubNR(nr)
  {}

  lemma FirstPosts(sub: nat, i: nat)
    requires i < 4 * sub
    ensures (Batch(0, sub) + Batch(1, sub) + Batch(2, sub) + Batch(3, sub))[i] == i
  {}

  lemma InitHasInv<T>(nr: nat, mem: seq<T>)
    requires ValidNR(nr) && |mem| == nr
    ensures Inv(InitRing(nr, mem))
  {
    var sub, r := SubNR(nr), InitRing(nr, mem);
    Quarters(nr);
    forall i: nat | i < nr
      ensures r.posted[i] == i % nr
    {
      FirstPosts(sub, i);
      DivMod(0, nr, i);
    }
    DivMod(0, sub, 0);
    DivMod(0, nr, 0);
  }

  /** A position in the ring is a batch and a place in it. */
  lemma ModFlat(n: nat, sub: nat)
    requires sub > 0
    ensures var k, m := n / sub % BATCHES, n % sub;
            && n % (BATCHES * sub) == k * sub + m
            && n % (BATCHES * sub) % sub == m && n % (BATCHES * sub) / sub == k
  {
    var q, m := n / sub, n % sub;
    var p, k := q / BATCHES, q % BATCHES;
    Split(n, sub);
    Regroup(p, k, BATCHES, sub);
    MultiplesApart(k, BATCHES, sub);
    DivMod(k, sub, m);
    DivMod(p, BATCHES * sub, k * sub + m);
  }

  lemma Regroup(p: nat, k: nat, b: nat, sub: nat)
    ensures (p * b + k) * sub == p * (b * sub) + k * sub
  {}

  lemma RingSlot(nr: nat, q: nat, i: nat)
    requires ValidNR(nr) && i < SubNR(nr)
    ensures (q * SubNR(nr) + i) % nr == q % BATCHES * SubNR(nr) + i
  {
    Quarters(nr);
    DivMod(q, SubNR(nr), i);
    ModFlat(q * SubNR(nr) + i, SubNR(nr));
  }

  /** The index wraps below zero when curMessage is 0, and still names the batch before. */
  lemma RepostIndexIsPrevious(q: nat, sub: nat)
    requires 0 < sub && q > 0
    ensures RepostIndex(q % BATCHES * sub, sub) == (q - 1) % BATCHES
  {
    DivMod(q % BATCHES, sub, 0);
    PreviousBatch(q % BATCHES, q);
  }

  lemma PreviousBatch(k: nat, q: nat)
    requires q > 0 && k == q % BATCHES
    ensures ((k + WIDTH32 - 1) % WIDTH32 + BATCHES) % WIDTH32 % BATCHES == (q - 1) % BATCHES
  {}

  /** What the n-th call reposts: the batch that it finishes, and only when it finishes one. */
  lemma RepostsFinishedBatch(nr: nat, n: nat)
    requires ValidNR(nr)
    ensures var sub, cur := SubNR(nr), (n + 1) % nr;
            && (cur % sub == 0 <==> (n + 1) % sub == 0)
            && (cur % sub == 0 ==> RepostIndex(cur, sub) == n / sub % BATCHES)
  {
    var sub := SubNR(nr);
    Quarters(nr);
    ModFlat(n + 1, sub);
    NextMod(n, sub);
    if (n + 1) % sub == 0 {
      RepostIndexIsPrevious((n + 1) / sub, sub);
    }
  }

  // ---- Every event keeps it ----------------------------------------------------------------------

  lemma RoundAgain(nr: nat, base: nat, i: nat)
    requires nr > 0
    ensures (nr + base + i) % nr == (base + i) % nr
  {
    AddMultiple(base + i, 1, nr);
  }

  /** The posts stay in the order of the ring. */
  lemma PostsContinue(nr: nat, n: nat, i: nat)
    requires ValidNR(nr) && i < SubNR(nr)
    ensures var sub := SubNR(nr); Batch(n / sub % BATCHES, sub)[i] == (PostedCount(nr, n) + i) % nr
  {
    var q := n / SubNR(nr);
    RingSlot(nr, q, i);
    RoundAgain(nr, q * SubNR(nr), i);
    BatchAt(q % BATCHES, SubNR(nr), i);
  }

  lemma PostedCountGrows(nr: nat, n: nat)
    requires ValidNR(nr)
    ensures PostedCount(nr, n + 1) == PostedCount(nr, n) + if (n + 1) % SubNR(nr) == 0 then SubNR(nr) else 0
    ensures n + nr - SubNR(nr) < PostedCount(nr, n) <= n + nr
  {
    var sub := SubNR(nr);
    Quarters(nr);
    NextMod(n, sub);
    Split(n, sub);
    if (n + 1) % sub == 0 {
      assert (n / sub + 1) * sub == n / sub * sub + sub;
    }
  }

  lemma GetKeepsCounts<T>(r: Ring<T>)
    requires CountInv(r) && r.returned < r.placed
    ensures CountInv(GetMessage(r))
  {
    var n, sub := r.returned, SubNR(r.nr);
    var r' := GetMessage(r);
    RepostsFinishedBatch(r.nr, n);
    PostedCountGrows(r.nr, n);
    NextMod(n, r.nr);
    forall i: nat | i < |r'.posted|
      ensures r'.posted[i] == i % r.nr
    {
      if i >= |r.posted| {
        PostsContinue(r.nr, n, i - |r.posted|);
      }
    }
  }

  lemma ArriveKeepsInv<T>(r: Ring<T>, x: T)
    requires Inv(r)
    ensures Inv(Arrive(r, x))
  {
    var r' := Arrive(r, x);
    if r.placed < |r.posted| {
      forall n: nat | n < |r'.arrivals| <= n + r.nr
        ensures r'.mem[n % r.nr] == r'.arrivals[n]
      {
        if n < r.placed {
          ModApart(n, r.placed, r.nr);
        }
      }
    }
  }

  lemma NextKeepsInv<T>(r: Ring<T>, e: Event<T>)
    requires Inv(r)
    ensures Inv(Next(r, e))
  {
    match e
    case Get => if r.returned < r.placed { GetKeepsCounts(r); }
    case Arrival(x) => ArriveKeepsInv(r, x);
  }

  ghost function Run<T>(r: Ring<T>, es: seq<Event<T>>): (t: Ring<T>)
    requires Inv(r)
    ensures Inv(t)
    decreases |es|
  {
    if es == [] then r
    else
      NextKeepsInv(r, es[0]);
      Run(Next(r, es[0]), es[1..])
  }

  ghost predicate Reachable<T(!new)>(r: Ring<T>) {
    exists nr: nat, mem: seq<T>, es: seq<Event<T>> ::
      ValidNR(nr) && |mem| == nr && Inv(InitRing(nr, mem)) && r == Run(InitRing(nr, mem), es)
  }

  // ---- What callers rely on ----------------------------------------------------------------------

  /** The n-th call hands out the buffer that the n-th arrival was placed in, still unchanged. */
  lemma GetReturnsArrival<T(!new)>(r: Ring<T>)
    requires Reachable(r) && r.returned < r.placed
    ensures r.cur == r.posted[r.returned] && r.mem[r.cur] == r.arrivals[r.returned]
  {
    PostedCountGrows(r.nr, r.returned);
  }

  /** A repost covers exactly the buffers handed out since the last one. */
  lemma RepostCoversBatch<T(!new)>(r: Ring<T>)
    requires Reachable(r) && r.returned < r.placed
    ensures var n, sub, r' := r.returned + 1, r.nr / 4, GetMessage(r);
            if n % sub == 0
            then n >= sub && r'.posted == r.posted + seq(sub, i requires 0 <= i < sub => (n - sub + i) % r.nr)
            else r'.posted == r.posted
  {
    RepostSlots(r);
  }

  lemma RepostSlots<T>(r: Ring<T>)
    requires WellFormed(r) && r.cur == r.returned % r.nr
    ensures var n, sub, r' := r.returned + 1, SubNR(r.nr), GetMessage(r);
            if n % sub == 0
            then n >= sub && r'.posted == r.posted + Slots(r.nr, n - sub, sub)
            else r'.posted == r.posted
  {
    NextMod(r.returned, r.nr);
    RepostsFinishedBatch(r.nr, r.returned);
    if (r.returned + 1) % SubNR(r.nr) == 0 {
      BatchIsSlots(r.nr, r.returned);
    }
  }

  /** The buffers of `len` calls of getMessage from the n-th on. */
  function Slots(nr: nat, n: nat, len: nat): (b: seq<nat>)
    requires nr > 0
    ensures |b| == len
  {
    seq(len, i requires 0 <= i < len => (n + i) % nr)
  }

  lemma BatchIsSlots(nr: nat, n: nat)
    requires ValidNR(nr) && (n + 1) % SubNR(nr) == 0
    ensures var sub := SubNR(nr); n + 1 >= sub && Batch(n / sub % BATCHES, sub) == Slots(nr, n + 1 - sub, sub)
  {
    var sub := SubNR(nr);
    var q := n / sub;
    Quarters(nr);
    NextMod(n, sub);
    Split(n + 1, sub);
    assert n + 1 == (q + 1) * sub == q * sub + sub;
    forall i: nat | i < sub
      ensures Batch(q % BATCHES, sub)[i] == (n + 1 - sub + i) % nr
    {
      RingSlot(nr, q, i);
    }
  }

  /** getMessage has returned every message of the batch of message `n`. */
  predicate Finished(nr: nat, returned: nat, n: nat)
    requires ValidNR(nr)
  {
    n / SubNR(nr) < returned / SubNR(nr)
  }

  /** The buffer of a message is posted once more exactly when its batch is finished. */
  lemma PostedAgainIff(nr: nat, returned: nat, n: nat)
    requires ValidNR(nr)
    ensures Finished(nr, returned, n) <==> n + nr < PostedCount(nr, returned)
  {
    var sub := SubNR(nr);
    Split(n, sub);
    if n / sub < returned / sub {
      MultiplesApart(n / sub, returned / sub, sub);
    } else if returned / sub < n / sub {
      MultiplesApart(returned / sub, n / sub, sub);
    }
  }

  /** Whatever happens, a message is intact until the nr-th arrival after it; the buffer is posted for
      that arrival if and only if getMessage has returned the whole batch, so no message is replaced
      before. */
  lemma NoEarlyOverwrite<T(!new)>(r: Ring<T>, n: nat)
    requires Reachable(r) && n < r.placed
    ensures r.placed <= n + r.nr ==> r.mem[n % r.nr] == r.arrivals[n]
    ensures n / (r.nr / 4) < r.returned / (r.nr / 4) <==> n + r.nr < |r.posted|
    ensures n / (r.nr / 4) < r.returned / (r.nr / 4) ==> r.posted[n + r.nr] == n % r.nr
    ensures n / (r.nr / 4) >= r.returned / (r.nr / 4) ==> r.placed <= n + r.nr
  {
    PostedAgainIff(r.nr, r.returned, n);
    AddMultiple(n, 1, r.nr);
  }

  function Arrivals<T>(xs: seq<T>): (es: seq<Event<T>>)
    ensures |es| == |xs|
  {
    seq(|xs|, i requires 0 <= i < |xs| => Arrival(xs[i]))
  }

  function Gets<T>(m: nat): (es: seq<Event<T>>)
    ensures |es| == m
  {
    seq(m, _ => Get)
  }

  /** Arrivals for which receives are posted. */
  lemma {:induction false} RunArrivals<T>(r: Ring<T>, xs: seq<T>)
    requires Inv(r) && r.placed + |xs| <= |r.posted|
    ensures var t := Run(r, Arrivals(xs));
            && t.nr == r.nr && t.cur == r.cur && t.posted == r.posted && t.returned == r.returned
            && t.placed == r.placed + |xs| && t.arrivals == r.arrivals + xs
    decreases |xs|
  {
    if xs != [] {
      var r1 := Arrive(r, xs[0]);
      NextKeepsInv(r, Arrival(xs[0]));
      RunArrivals(r1, xs[1..]);
      assert Arrivals(xs)[1..] == Arrivals(xs[1..]);
      assert r1.arrivals + xs[1..] == r.arrivals + xs;
    }
  }

  /** Arrivals beyond the posted receives are dropped. */
  lemma {:induction false} ArrivalsBounded<T>(r: Ring<T>, xs: seq<T>)
    requires Inv(r)
    ensures var t := Run(r, Arrivals(xs)); t.posted == r.posted && t.nr == r.nr
    decreases |xs|
  {
    if xs != [] {
      NextKeepsInv(r, Arrival(xs[0]));
      ArrivalsBounded(Arrive(r, xs[0]), xs[1..]);
      assert Arrivals(xs)[1..] == Arrivals(xs[1..]);
    }
  }

  /** Of a finished batch, the nr-th arrival after a message replaces it, without any further call. */
  lemma Replaced<T(!new)>(r: Ring<T>, n: nat, xs: seq<T>)
    requires Reachable(r) && n < r.placed <= n + r.nr && n / (r.nr / 4) < r.returned / (r.nr / 4)
    requires |xs| == n + r.nr + 1 - r.placed
    ensures var t := Run(r, Arrivals(xs));
            && t.nr == r.nr && t.returned == r.returned && t.arrivals == r.arrivals + xs
            && |t.mem| == t.nr && t.mem[n % t.nr] == xs[|xs| - 1]
  {
    PostedAgainIff(r.nr, r.returned, n);
    RunArrivals(r, xs);
    AddMultiple(n, 1, r.nr);
    var t := Run(r, Arrivals(xs));
    assert t.mem[(n + r.nr) % r.nr] == t.arrivals[n + r.nr];
  }

  /** Arrivals alone can replace a message that is there if and only if its batch is finished. */
  lemma ReplaceableIff<T(!new)>(r: Ring<T>, n: nat)
    requires Reachable(r) && n < r.placed <= n + r.nr
    ensures n / (r.nr / 4) < r.returned / (r.nr / 4) <==> exists xs: seq<T> :: Run(r, Arrivals(xs)).placed > n + r.nr
  {
    PostedAgainIff(r.nr, r.returned, n);
    if Finished(r.nr, r.returned, n) {
      var xs := seq(n + r.nr + 1 - r.placed, _ => r.arrivals[n]);
      RunArrivals(r, xs);
    } else {
      forall xs: seq<T>
        ensures Run(r, Arrivals(xs)).placed <= n + r.nr
      {
        ArrivalsBounded(r, xs);
      }
    }
  }

  lemma {:induction false} RunGets<T>(r: Ring<T>, m: nat)
    requires Inv(r) && r.returned + m <= r.placed
    ensures var t := Run(r, Gets(m));
            && t.nr == r.nr && t.returned == r.returned + m
            && t.placed == r.placed && t.mem == r.mem && t.arrivals == r.arrivals
    decreases m
  {
    if m > 0 {
      NextKeepsInv(r, Get);
      RunGets(GetMessage(r), m - 1);
      assert Gets<T>(m)[1..] == Gets<T>(m - 1);
    }
  }

  lemma {:induction false} RunConcat<T>(r: Ring<T>, a: seq<Event<T>>, b: seq<Event<T>>)
    requires Inv(r)
    ensures Run(r, a + b) == Run(Run(r, a), b)
    decreases |a|
  {
    if a == [] {
      assert a + b == b;
    } else {
      assert (a + b)[1..] == a[1..] + b;
      NextKeepsInv(r, a[0]);
      RunConcat(Next(r, a[0]), a[1..], b);
    }
  }

  lemma ExtendReachable<T(!new)>(r: Ring<T>, more: seq<Event<T>>)
    requires Reachable(r)
    ensures Reachable(Run(r, more))
  {
    var nr: nat, mem: seq<T>, es: seq<Event<T>> :|
      ValidNR(nr) && |mem| == nr && Inv(InitRing(nr, mem)) && r == Run(InitRing(nr, mem), es);
    RunConcat(InitRing(nr, mem), es, more);
  }

  /** All buffers are filled and all but one message of the first batch returned. */
  lemma BeforeLast<T(!new)>(nr: nat, mem: seq<T>, x: T) returns (r: Ring<T>)
    requires ValidNR(nr) && |mem| == nr
    ensures Reachable(r) && r.nr == nr && r.placed == nr && r.returned == SubNR(nr) - 1
    ensures forall i :: 0 <= i < nr ==> r.arrivals[i] == x
  {
    InitHasInv(nr, mem);
    Quarters(nr);
    var r0 := InitRing(nr, mem);
    assert r0 == Run(r0, []);
    assert Reachable(r0);
    var xs := seq(nr, _ => x);
    RunArrivals(r0, xs);
    ExtendReachable(r0, Arrivals(xs));
    var r1 := Run(r0, Arrivals(xs));
    RunGets(r1, SubNR(nr) - 1);
    ExtendReachable(r1, Gets(SubNR(nr) - 1));
    r := Run(r1, Gets(SubNR(nr) - 1));
  }

  /** The call that returns the last message of a batch posts its buffer again itself: in a ring of any
      size there is a run in which that message `x`, just returned, is replaced by arrivals `y` alone. */
  lemma LastOfBatchReplaced<T(!new)>(nr: nat, mem: seq<T>, x: T, y: T) returns (r: Ring<T>)
    requires ValidNR(nr) && |mem| == nr && x != y
    ensures Reachable(r) && r.nr == |r.mem| == nr && r.returned < r.placed
    ensures r.cur == nr / 4 - 1 && r.mem[r.cur] == x
    ensures Inv(GetMessage(r)) && GetMessage(r).mem == r.mem
    ensures var t := Run(GetMessage(r), Arrivals(seq(nr / 4, _ => y)));
            t.returned == r.returned + 1 && |t.mem| == nr && t.mem[r.cur] == y
  {
    Quarters(nr);
    r := BeforeLast(nr, mem, x);
    var n := SubNR(nr) - 1;
    DivMod(0, nr, n);
    GetReturnsArrival(r);
    NextKeepsInv(r, Get);
    RunOne(r);
    ExtendReachable(r, [Get]);
    var r1 := GetMessage(r);
    DivMod(0, SubNR(nr), n);
    DivMod(1, SubNR(nr), 0);
    Replaced(r1, n, seq(SubNR(nr), _ => y));
  }

  lemma RunOne<T>(r: Ring<T>)
    requires Inv(r) && r.returned < r.placed
    ensures Inv(GetMessage(r)) && Run(r, [Get]) == GetMessage(r)
  {
    NextKeepsInv(r, Get);
    var es: seq<Event<T>> := [Get];
    assert es[1..] == [];
  }

  /** The queue pair never holds more receives than it was made for, and while the caller keeps up
      more than three quarters of them are waiting for messages. */
  lemma EnoughPosted<T(!new)>(r: Ring<T>)
    requires Reachable(r)
    ensures |r.posted| - r.placed <= r.nr
    ensures r.returned == r.placed ==> |r.posted| - r.placed > r.nr - r.nr / 4
  {
    PostedCountGrows(r.nr, r.returned);
  }
}
