/** The driver's shared receive queue: a linked list of work-queue entries. Posting takes
    the entry at the head, the server gives entries back at the tail. */
module Srq {
  import opened Arith

  /** Twice kMpSrqSize, the number of entries the driver allocates for it. */
  const ENTRIES := 128

  /** `next[i]` is entry i's next_wqe_index, `seg[i]` the segment its scatter entry names. */
  datatype Queue = Queue(next: seq<nat>, seg: seq<nat>, head: nat, tail: nat)

  predicate Shaped(q: Queue) {
    && |q.next| == |q.seg| == ENTRIES && q.head < ENTRIES && q.tail < ENTRIES
    && forall i :: 0 <= i < ENTRIES ==> q.next[i] < ENTRIES
  }

  /** As the driver creates it. */
  function NewQueue(): (q: Queue)
    ensures Shaped(q)
  {
    Queue(seq(ENTRIES, i requires 0 <= i < ENTRIES => (i + 1) % ENTRIES), seq(ENTRIES, _ => 0), 0, ENTRIES - 1)
  }

  /** The provider's post routine fails when only the tail entry is left. */
  predicate Exhausted(q: Queue) {
    q.head == q.tail
  }

  function Post(q: Queue, seg: nat): (r: Queue)
    requires Shaped(q)
    ensures Shaped(r)
  {
    q.(seg := q.seg[q.head := seg], head := q.next[q.head])
  }

  /** `mlx5_free_srq_wqe` */
  function Free(q: Queue, ind: nat): (r: Queue)
    requires Shaped(q) && ind < ENTRIES
    ensures Shaped(r)
  {
    q.(next := q.next[q.tail := ind], tail := ind)
  }

  /** After `p` posts and `f` frees: the list is one cycle, and the entries of the posts that
      are not freed yet still name their segments, which go round in `segments`. */
  ghost predicate Rolling(q: Queue, segments: nat, p: nat, f: nat)
    requires segments > 0
  {
    && Shaped(q) && f <= p
    && (forall i :: 0 <= i < ENTRIES ==> q.next[i] == (i + 1) % ENTRIES)
    && q.head == p % ENTRIES && q.tail == (f + ENTRIES - 1) % ENTRIES
    && forall t: nat :: f <= t < p ==> q.seg[t % ENTRIES] == t % segments
  }

  lemma ModNext(t: nat)
    ensures (t + 1) % ENTRIES == (t % ENTRIES + 1) % ENTRIES
  {}

  lemma NewQueueRolls(segments: nat)
    requires segments > 0
    ensures Rolling(NewQueue(), segments, 0, 0)
  {}

  /** A post never finds the list exhausted, takes entry p mod 128 and keeps the cycle. */
  lemma PostRolls(q: Queue, segments: nat, p: nat, f: nat)
    requires segments > 0 && Rolling(q, segments, p, f) && p - f < ENTRIES - 1
    ensures !Exhausted(q) && Rolling(Post(q, p % segments), segments, p + 1, f)
  {
    ModNext(p);
    ModApart(p, f + ENTRIES - 1, ENTRIES);
    var r := Post(q, p % segments);
    forall t: nat | f <= t < p + 1
      ensures r.seg[t % ENTRIES] == t % segments
    {
      if t < p {
        ModApart(t, p, ENTRIES);
      }
    }
  }

  /** Freeing entries in the order of their posts keeps the cycle. */
  lemma FreeRolls(q: Queue, segments: nat, p: nat, f: nat)
    requires segments > 0 && Rolling(q, segments, p, f) && f < p
    ensures q.seg[f % ENTRIES] == f % segments
    ensures Rolling(Free(q, f % ENTRIES), segments, p, f + 1)
  {
    ModNext(f + ENTRIES - 1);
    assert (f + ENTRIES) % ENTRIES == f % ENTRIES;
  }
}
