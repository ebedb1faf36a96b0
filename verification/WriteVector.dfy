/** rdmaWriteVector: a list of local pieces is written to one remote range by a chain of work
    requests with a bounded number of pieces each. */
module WriteVector {
  import opened Arith
  import opened RawMemory

  type Memory = seq<Byte>

  const INT_MAX := 0x7fff_ffff
  const NULL := -1

  /** A piece of local memory; its size is a uint16_t. */
  datatype Source = Source(addr: nat, size: nat)

  predicate Readable(local: Memory, list: seq<Source>) {
    forall i :: 0 <= i < |list| ==> list[i].size < 0x1_0000 && list[i].addr + list[i].size <= |local|
  }

  function Total(list: seq<Source>): nat {
    if list == [] then 0 else Total(list[..|list| - 1]) + list[|list| - 1].size
  }

  function Piece(local: Memory, s: Source): Memory
    requires s.addr + s.size <= |local|
  {
    local[s.addr..s.addr + s.size]
  }

  /** The pieces one after the other. */
  function Gather(local: Memory, list: seq<Source>): (r: Memory)
    requires Readable(local, list)
    ensures |r| == Total(list)
  {
    if list == [] then []
    else
      var s := list[|list| - 1];
      Gather(local, list[..|list| - 1]) + Piece(local, s)
  }

  // ---- The chain ---------------------------------------------------------------------------------

  datatype Request = Request(pieces: seq<Source>, remoteAddr: nat, rkey: nat, wrId: nat, signaled: bool)

  /** kCntWr */
  function Count(n: nat, per: nat): nat
    requires per > 0
  {
    (n + per - 1) / per
  }

  function Min(a: int, b: int): int {
    if a < b then a else b
  }

  /** Request `q` takes the pieces from q * per on. */
  function RequestAt(list: seq<Source>, dest: nat, rkey: nat, wrId: nat, per: nat, q: nat): Request
    requires per > 0 && q * per < |list|
  {
    Request(list[q * per..q * per + Min(per, |list| - q * per)], dest + Total(list[..q * per]), rkey, wrId,
            q == Count(|list|, per) - 1)
  }

  lemma CountBounds(n: nat, per: nat, q: nat)
    requires per > 0
    ensures q < Count(n, per) <==> q * per < n
  {
    var c := Count(n, per);
    Split(n + per - 1, per);
    if q < c {
      MultiplesApart(q, c, per);
    } else if c < q {
      MultiplesApart(c, q, per);
    }
  }

  /** The card executes one request: it writes the gathered pieces to consecutive addresses. */
  function Execute(local: Memory, remote: Memory, r: Request): (m: Memory)
    requires Readable(local, r.pieces) && r.remoteAddr + Total(r.pieces) <= |remote|
    ensures |m| == |remote|
  {
    WriteAt(remote, r.remoteAddr, Gather(local, r.pieces))
  }

  lemma Snoc(local: Memory, list: seq<Source>, s: Source)
    requires Readable(local, list) && Readable(local, [s])
    ensures Readable(local, list + [s]) && Total(list + [s]) == Total(list) + s.size
    ensures [s][0].addr + s.size <= |local| && Gather(local, list + [s]) == Gather(local, list) + Piece(local, s)
  {
    assert (list + [s])[..|list|] == list;
    assert [s][0] == s;
  }

  lemma Associate(a: Memory, b: Memory, c: Memory)
    ensures a + b + c == a + (b + c)
  {}

  lemma {:induction false} GatherConcat(local: Memory, a: seq<Source>, b: seq<Source>)
    requires Readable(local, a) && Readable(local, b)
    ensures Readable(local, a + b) && Gather(local, a + b) == Gather(local, a) + Gather(local, b)
    ensures Total(a + b) == Total(a) + Total(b)
    decreases |b|
  {
    if b == [] {
      assert a + b == a;
    } else {
      var front, s := b[..|b| - 1], b[|b| - 1];
      assert b == front + [s] && a + b == a + front + [s];
      GatherConcat(local, a, front);
      Snoc(local, a + front, s);
      Snoc(local, front, s);
      Associate(Gather(local, a), Gather(local, front), Piece(local, s));
    }
  }

  lemma {:induction false} TotalPrefix(list: seq<Source>, i: nat)
    requires i <= |list|
    ensures Total(list[..i]) <= Total(list)
    decreases |list|
  {
    if i < |list| {
      TotalPrefix(list[..|list| - 1], i);
      assert list[..|list| - 1][..i] == list[..i];
    } else {
      assert list[..i] == list;
    }
  }

  /** Two writes to adjacent ranges are one. */
  lemma WriteTwice(mem: Memory, at: nat, x: Memory, y: Memory)
    requires at + |x| + |y| <= |mem|
    ensures WriteAt(WriteAt(mem, at, x), at + |x|, y) == WriteAt(mem, at, x + y)
  {
    var one := WriteAt(mem, at, x);
    assert one[..at + |x|] == mem[..at] + x;
    assert one[at + |x| + |y|..] == mem[at + |x| + |y|..];
  }

  lemma TotalSplit(list: seq<Source>, from: nat, to: nat)
    requires from <= to <= |list|
    ensures Total(list[..from]) + Total(list[from..to]) == Total(list[..to]) <= Total(list)
  {
    TotalPrefix(list, to);
    TotalPrefix(list[..to], from);
    assert list[..to][..from] == list[..from];
    assert list[..to] == list[..from] + list[from..to];
    TotalConcat(list[..from], list[from..to]);
  }

  lemma {:induction false} TotalConcat(a: seq<Source>, b: seq<Source>)
    ensures Total(a + b) == Total(a) + Total(b)
    decreases |b|
  {
    if b == [] {
      assert a + b == a;
    } else {
      assert (a + b)[..|a + b| - 1] == a + b[..|b| - 1];
      TotalConcat(a, b[..|b| - 1]);
    }
  }

  /** One more request extends the range written so far. */
  lemma ExecuteExtends(local: Memory, remote: Memory, list: seq<Source>, dest: nat, r: Request, from: nat, to: nat)
    requires Readable(local, list) && dest + Total(list) <= |remote| && from <= to <= |list|
    requires r.pieces == list[from..to] && r.remoteAddr == dest + Total(list[..from])
    ensures Total(list[..from]) <= Total(list) && Total(list[..to]) <= Total(list)
    ensures r.remoteAddr + Total(r.pieces) <= |remote| && Readable(local, r.pieces)
    ensures Execute(local, WriteAt(remote, dest, Gather(local, list[..from])), r)
         == WriteAt(remote, dest, Gather(local, list[..to]))
  {
    TotalSplit(list, from, to);
    assert list[..to] == list[..from] + r.pieces;
    ExecuteAfter(local, remote, list[..from], dest, r);
  }

  lemma ExecuteAfter(local: Memory, remote: Memory, a: seq<Source>, dest: nat, r: Request)
    requires Readable(local, a) && Readable(local, r.pieces) && r.remoteAddr == dest + Total(a)
    requires dest + Total(a) + Total(r.pieces) <= |remote|
    ensures Readable(local, a + r.pieces) && Total(a + r.pieces) == Total(a) + Total(r.pieces)
    ensures Execute(local, WriteAt(remote, dest, Gather(local, a)), r) == WriteAt(remote, dest, Gather(local, a + r.pieces))
  {
    GatherConcat(local, a, r.pieces);
    WriteTwice(remote, dest, Gather(local, a), Gather(local, r.pieces));
  }

  /** A chain that can be run on this memory. */
  ghost predicate Runnable(local: Memory, size: nat, chain: seq<Request>) {
    forall q :: 0 <= q < |chain| ==>
      Readable(local, chain[q].pieces) && chain[q].remoteAddr + Total(chain[q].pieces) <= size
  }

  ghost function RunChain(local: Memory, remote: Memory, chain: seq<Request>): (m: Memory)
    requires Runnable(local, |remote|, chain)
    ensures |m| == |remote|
  {
    if chain == [] then remote
    else Execute(local, RunChain(local, remote, chain[..|chain| - 1]), chain[|chain| - 1])
  }

  lemma RunSnoc(local: Memory, remote: Memory, chain: seq<Request>, r: Request)
    requires Runnable(local, |remote|, chain) && Readable(local, r.pieces) && r.remoteAddr + Total(r.pieces) <= |remote|
    ensures Runnable(local, |remote|, chain + [r])
    ensures RunChain(local, remote, chain + [r]) == Execute(local, RunChain(local, remote, chain), r)
  {
    assert (chain + [r])[..|chain|] == chain;
  }

  ghost function Chain(list: seq<Source>, dest: nat, rkey: nat, wrId: nat, per: nat, k: nat): (chain: seq<Request>)
    requires per > 0 && k <= Count(|list|, per)
    ensures |chain| == k && forall q: nat :: q < k ==> q * per < |list| && chain[q] == RequestAt(list, dest, rkey, wrId, per, q)
  {
    if k == 0 then []
    else
      CountBounds(|list|, per, k - 1);
      Chain(list, dest, rkey, wrId, per, k - 1) + [RequestAt(list, dest, rkey, wrId, per, k - 1)]
  }

  function Upto(n: nat, per: nat, k: nat): nat {
    Min(n, k * per)
  }

  /** The first `k` requests name the first min(n, k * per) pieces. */
  lemma NextRequest(list: seq<Source>, dest: nat, rkey: nat, wrId: nat, per: nat, k: nat)
    requires per > 0 && k < Count(|list|, per)
    ensures k * per < |list|
    ensures var r := RequestAt(list, dest, rkey, wrId, per, k);
            var from, to := Upto(|list|, per, k), Upto(|list|, per, k + 1);
            && from < to <= from + per && to <= |list| && r.pieces == list[from..to]
            && r.remoteAddr == dest + Total(list[..from])
            && Chain(list, dest, rkey, wrId, per, k + 1) == Chain(list, dest, rkey, wrId, per, k) + [r]
  {
    CountBounds(|list|, per, k);
    assert (k + 1) * per == k * per + per;
  }

  /** The first `k` requests, run in order, write the pieces they name to one range. */
  ghost predicate WritesRange(local: Memory, remote: Memory, list: seq<Source>, dest: nat, chain: seq<Request>, to: nat)
    requires Readable(local, list) && dest + Total(list) <= |remote|
  {
    && Runnable(local, |remote|, chain) && to <= |list| && Total(list[..to]) <= Total(list)
    && RunChain(local, remote, chain) == WriteAt(remote, dest, Gather(local, list[..to]))
  }

  lemma RangeExtends(local: Memory, remote: Memory, list: seq<Source>, dest: nat, chain: seq<Request>, r: Request,
                     from: nat, to: nat)
    requires Readable(local, list) && dest + Total(list) <= |remote| && from <= to <= |list|
    requires WritesRange(local, remote, list, dest, chain, from)
    requires r.pieces == list[from..to] && r.remoteAddr == dest + Total(list[..from])
    ensures WritesRange(local, remote, list, dest, chain + [r], to)
  {
    ExecuteExtends(local, remote, list, dest, r, from, to);
    RunSnoc(local, remote, chain, r);
  }

  lemma {:induction false} ChainWritesRange(local: Memory, remote: Memory, list: seq<Source>, dest: nat, rkey: nat,
                                            wrId: nat, per: nat, k: nat)
    requires Readable(local, list) && dest + Total(list) <= |remote| && per > 0 && k <= Count(|list|, per)
    ensures WritesRange(local, remote, list, dest, Chain(list, dest, rkey, wrId, per, k), Upto(|list|, per, k))
    decreases k
  {
    if k == 0 {
      assert list[..0] == [];
    } else {
      ChainWritesRange(local, remote, list, dest, rkey, wrId, per, k - 1);
      NextRequest(list, dest, rkey, wrId, per, k - 1);
      RangeExtends(local, remote, list, dest, Chain(list, dest, rkey, wrId, per, k - 1),
                   RequestAt(list, dest, rkey, wrId, per, k - 1), Upto(|list|, per, k - 1), Upto(|list|, per, k));
    }
  }

  /** The whole chain leaves the remote memory as one write of the concatenated pieces would. */
  lemma ChainIsOneWrite(local: Memory, remote: Memory, list: seq<Source>, dest: nat, rkey: nat, wrId: nat, per: nat)
    requires Readable(local, list) && dest + Total(list) <= |remote| && per > 0
    ensures var chain := Chain(list, dest, rkey, wrId, per, Count(|list|, per));
            && Runnable(local, |remote|, chain)
            && RunChain(local, remote, chain) == WriteAt(remote, dest, Gather(local, list))
  {
    var k := Count(|list|, per);
    ChainWritesRange(local, remote, list, dest, rkey, wrId, per, k);
    CountBounds(|list|, per, k);
    assert list[..Upto(|list|, per, k)] == list;
  }

  // ---- Byte by byte ------------------------------------------------------------------------------

  lemma TotalSteps(list: seq<Source>, i: nat)
    requires i < |list|
    ensures Total([]) == 0 && Total(list[..i + 1]) == Total(list[..i]) + list[i].size <= Total(list)
  {
    assert list[..i + 1][..i] == list[..i];
    TotalPrefix(list, i + 1);
  }

  /** Piece `i` begins where the pieces before it end. */
  lemma GatherAt(local: Memory, list: seq<Source>, i: nat)
    requires Readable(local, list) && i < |list|
    ensures Total(list[..i]) + list[i].size <= Total(list)
    ensures Gather(local, list)[Total(list[..i])..Total(list[..i]) + list[i].size]
         == local[list[i].addr..list[i].addr + list[i].size]
  {
    hide Gather, Total;
    var front, s, back := list[..i], list[i], list[i + 1..];
    assert list == front + [s] + back && [s][0] == s;
    GatherConcat(local, front + [s], back);
    Snoc(local, front, s);
    Middle(Gather(local, front), Piece(local, s), Gather(local, back));
  }

  lemma Middle(a: Memory, b: Memory, c: Memory)
    ensures (a + b + c)[|a|..|a| + |b|] == b
  {}

  lemma WrittenBytes(mem: Memory, at: nat, bytes: Memory)
    requires at + |bytes| <= |mem|
    ensures var m := WriteAt(mem, at, bytes);
            && (forall x :: 0 <= x < at || at + |bytes| <= x < |mem| ==> m[x] == mem[x])
            && m[at..at + |bytes|] == bytes
  {}

  lemma PartOfPart(m: Memory, at: nat, bytes: Memory, from: nat, to: nat)
    requires at + |bytes| <= |m| && m[at..at + |bytes|] == bytes && from <= to <= |bytes|
    ensures m[at + from..at + to] == bytes[from..to]
  {
    forall j | from <= j < to
      ensures m[at + j] == bytes[j]
    {
      assert m[at..at + |bytes|][j] == m[at + j];
    }
    assert forall k :: 0 <= k < to - from ==> m[at + from..at + to][k] == bytes[from..to][k];
  }

  /** Piece `i` is found where the pieces before it end. */
  lemma PieceLanded(local: Memory, remote: Memory, list: seq<Source>, dest: nat, i: nat)
    requires Readable(local, list) && dest + Total(list) <= |remote| && i < |list|
    ensures var m, at := WriteAt(remote, dest, Gather(local, list)), dest + Total(list[..i]);
            at + list[i].size <= |m| && m[at..at + list[i].size] == local[list[i].addr..list[i].addr + list[i].size]
  {
    var bytes := Gather(local, list);
    GatherAt(local, list, i);
    WrittenBytes(remote, dest, bytes);
    PartOfPart(WriteAt(remote, dest, bytes), dest, bytes, Total(list[..i]), Total(list[..i]) + list[i].size);
  }

  /** Outside the range nothing changes, and every piece lands behind those before it. */
  lemma ListWritten(local: Memory, remote: Memory, list: seq<Source>, dest: nat)
    requires Readable(local, list) && dest + Total(list) <= |remote|
    ensures var m := WriteAt(remote, dest, Gather(local, list));
            && (forall x :: 0 <= x < dest || dest + Total(list) <= x < |m| ==> m[x] == remote[x])
            && (forall i :: 0 <= i < |list| ==>
                  var at := dest + Total(list[..i]);
                  && at + list[i].size <= |m|
                  && m[at..at + list[i].size] == local[list[i].addr..list[i].addr + list[i].size])
    ensures Total([]) == 0 && forall i :: 0 <= i < |list| ==> Total(list[..i + 1]) == Total(list[..i]) + list[i].size
  {
    hide WriteAt, Gather;
    WrittenBytes(remote, dest, Gather(local, list));
    forall i | 0 <= i < |list|
      ensures var m, at := WriteAt(remote, dest, Gather(local, list)), dest + Total(list[..i]);
              at + list[i].size <= |m| && m[at..at + list[i].size] == local[list[i].addr..list[i].addr + list[i].size]
      ensures Total(list[..i + 1]) == Total(list[..i]) + list[i].size
    {
      PieceLanded(local, remote, list, dest, i);
      TotalSteps(list, i);
    }
  }

  function Pieces(chain: seq<Request>): nat {
    if chain == [] then 0 else Pieces(chain[..|chain| - 1]) + |chain[|chain| - 1].pieces|
  }

  lemma {:induction false} PiecesUpto(list: seq<Source>, dest: nat, rkey: nat, wrId: nat, per: nat, k: nat)
    requires per > 0 && k <= Count(|list|, per)
    ensures Pieces(Chain(list, dest, rkey, wrId, per, k)) == Upto(|list|, per, k)
    decreases k
  {
    if k > 0 {
      PiecesUpto(list, dest, rkey, wrId, per, k - 1);
      NextRequest(list, dest, rkey, wrId, per, k - 1);
      var chain := Chain(list, dest, rkey, wrId, per, k);
      assert chain[..k - 1] == Chain(list, dest, rkey, wrId, per, k - 1);
    }
  }

  lemma RequestShape(list: seq<Source>, dest: nat, rkey: nat, wrId: nat, per: nat, q: nat)
    requires per > 0 && q < Count(|list|, per)
    ensures q * per < |list|
    ensures var r := RequestAt(list, dest, rkey, wrId, per, q);
            1 <= |r.pieces| <= per && (r.signaled <==> q == Count(|list|, per) - 1)
  {
    NextRequest(list, dest, rkey, wrId, per, q);
  }

  /** ceil(n / per) requests, each with 1 to `per` pieces and together with all of them; the last
      one asks for the completion, and no other. */
  lemma ChainShape(list: seq<Source>, dest: nat, rkey: nat, wrId: nat, per: nat)
    requires per > 0 && list != []
    ensures var chain := Chain(list, dest, rkey, wrId, per, Count(|list|, per));
            && (|chain| - 1) * per < |list| <= |chain| * per
            && (forall q :: 0 <= q < |chain| ==> 1 <= |chain[q].pieces| <= per)
            && Pieces(chain) == |list|
            && (forall q :: 0 <= q < |chain| ==> (chain[q].signaled <==> q == |chain| - 1))
  {
    var k := Count(|list|, per);
    CountBounds(|list|, per, k);
    CountBounds(|list|, per, 0);
    CountBounds(|list|, per, k - 1);
    PiecesUpto(list, dest, rkey, wrId, per, k);
    forall q: nat | q < k
      ensures q * per < |list|
      ensures var r := RequestAt(list, dest, rkey, wrId, per, q); 1 <= |r.pieces| <= per && (r.signaled <==> q == k - 1)
    {
      RequestShape(list, dest, rkey, wrId, per, q);
    }
  }

  /** Every request names its pieces and where the pieces before them end, with the key and the id given. */
  lemma ChainFields(list: seq<Source>, dest: nat, rkey: nat, wrId: nat, per: nat)
    requires per > 0
    ensures var chain := Chain(list, dest, rkey, wrId, per, Count(|list|, per));
            forall q :: 0 <= q < |chain| ==>
              && q * per + |chain[q].pieces| <= |list| && chain[q].pieces == list[q * per..q * per + |chain[q].pieces|]
              && chain[q].remoteAddr == dest + Total(list[..q * per]) && chain[q].rkey == rkey && chain[q].wrId == wrId
  {
    hide Total;
  }

  // ---- The code ----------------------------------------------------------------------------------

  datatype Sge = Sge(addr: nat, length: nat, lkey: nat)

  /** `row` is the row of the scatter table that sg_list points to, `next` an index or NULL. */
  datatype SendWr = SendWr(row: nat, numSge: int, remoteAddr: nat, rkey: nat, wrId: nat, signaled: bool, next: int)

  /** The arguments the code can handle: a list, and sizes within the range of an int. */
  predicate Acceptable(list: seq<Source>, per: nat) {
    list != [] && per > 0 && |list| + per <= INT_MAX && Total(list) <= INT_MAX
  }

  /** Request `q` in the table; the last one is closed only by the last piece. */
  function Entry(list: seq<Source>, dest: nat, rkey: nat, wrId: nat, per: nat, q: nat, done: bool): SendWr
    requires per > 0 && q * per < |list|
  {
    var last := done && q == Count(|list|, per) - 1;
    SendWr(q, Min(per, |list| - q * per), dest + Total(list[..q * per]), rkey, wrId, last, if last then NULL else q + 1)
  }

  function SgeOf(s: Source, lkey: nat): Sge {
    Sge(s.addr, s.size, lkey)
  }

  /** The piece in cell (q, j) of the scatter table. */
  function Cell(per: nat, q: nat, j: nat): nat {
    q * per + j
  }

  ghost predicate Scattered(sg: array2<Sge>, list: seq<Source>, lkey: nat, per: nat, i: nat)
    requires i <= |list|
    reads sg
  {
    && sg.Length1 == per
    && forall q: nat, j: nat :: q < sg.Length0 && j < per && Cell(per, q, j) < i ==>
         sg[q, j] == SgeOf(list[Cell(per, q, j)], lkey)
  }

  ghost predicate Requested(wr: array<SendWr>, list: seq<Source>, dest: nat, rkey: nat, wrId: nat, per: nat, i: nat)
    requires per > 0 && i <= |list|
    reads wr
  {
    && wr.Length == Count(|list|, per)
    && forall q: nat :: q < wr.Length && q * per < i ==> wr[q] == Entry(list, dest, rkey, wrId, per, q, i == |list|)
  }

  lemma CellUnique(per: nat, i: nat)
    requires per > 0
    ensures Cell(per, i / per, i % per) == i
    ensures forall q: nat, j: nat :: j < per && Cell(per, q, j) == i ==> q == i / per && j == i % per
  {
    Split(i, per);
    forall q: nat, j: nat | j < per && Cell(per, q, j) == i
      ensures q == i / per && j == i % per
    {
      DivMod(q, per, j);
    }
  }

  /** Where piece `i` goes. */
  lemma PieceRow(n: nat, per: nat, i: nat)
    requires per > 0 && i < n
    ensures i / per < Count(n, per) && i / per * per <= i && (i % per == 0 ==> i / per * per == i)
    ensures i == n - 1 ==> i / per == Count(n, per) - 1
  {
    var q, last := i / per, Count(n, per) - 1;
    Split(i, per);
    CountBounds(n, per, q);
    if i == n - 1 && q < last {
      CountBounds(n, per, last);
      MultiplesApart(q, last, per);
    }
  }

  /** Which requests have begun after one more piece. */
  lemma BegunRows(n: nat, per: nat, i: nat, q: nat)
    requires per > 0 && i < n
    ensures q * per < i + 1 <==> q * per < i || (i % per == 0 && q == i / per)
  {
    Split(i, per);
    if q * per == i {
      DivMod(q, per, 0);
    }
  }

  method PutPiece(sg: array2<Sge>, list: seq<Source>, lkey: nat, per: nat, i: nat)
    requires per > 0 && i < |list| && sg.Length0 == Count(|list|, per) && Scattered(sg, list, lkey, per, i)
    modifies sg
    ensures Scattered(sg, list, lkey, per, i + 1)
  {
    PieceRow(|list|, per, i);
    CellUnique(per, i);
    sg[i / per, i % per] := Sge(list[i].addr, list[i].size, lkey);
  }

  method PutRequest(wr: array<SendWr>, list: seq<Source>, dest: nat, rkey: nat, wrId: nat, per: nat, i: nat, accSize: nat)
    requires per > 0 && i < |list| && accSize == Total(list[..i]) && Requested(wr, list, dest, rkey, wrId, per, i)
    modifies wr
    ensures Requested(wr, list, dest, rkey, wrId, per, i + 1)
  {
    var req, sge := i / per, i % per;
    PieceRow(|list|, per, i);
    if sge == 0 {
      wr[req] := SendWr(req, Min(per, |list| - req * per), dest + accSize, rkey, wrId, false, req + 1);
    }
    if i == |list| - 1 {
      wr[req] := wr[req].(signaled := true, next := NULL);
    }
    forall q: nat | q < wr.Length && q * per < i + 1
      ensures wr[q] == Entry(list, dest, rkey, wrId, per, q, i + 1 == |list|)
    {
      BegunRows(|list|, per, i, q);
    }
  }

  /** The loop over the pieces. */
  method Fill(wr: array<SendWr>, sg: array2<Sge>, list: seq<Source>, dest: nat, lkey: nat, rkey: nat, wrId: nat, per: nat)
    requires Acceptable(list, per) && wr.Length == sg.Length0 == Count(|list|, per) && sg.Length1 == per
    modifies wr, sg
    ensures Scattered(sg, list, lkey, per, |list|) && Requested(wr, list, dest, rkey, wrId, per, |list|)
  {
    var accSize := 0;
    var i := 0;
    while i < |list|
      invariant 0 <= i <= |list| && accSize == Total(list[..i])
      invariant Scattered(sg, list, lkey, per, i) && Requested(wr, list, dest, rkey, wrId, per, i)
    {
      PutPiece(sg, list, lkey, per, i);
      PutRequest(wr, list, dest, rkey, wrId, per, i, accSize);
      assert list[..i + 1][..i] == list[..i];
      accSize := accSize + list[i].size;
      i := i + 1;
    }
  }

  /** The pieces that a request names. */
  method Row(sg: array2<Sge>, row: nat, numSge: nat) returns (pieces: seq<Source>)
    requires row < sg.Length0 && numSge <= sg.Length1
    ensures |pieces| == numSge
    ensures forall j :: 0 <= j < numSge ==> pieces[j] == Source(sg[row, j].addr, sg[row, j].length)
  {
    pieces := [];
    var j := 0;
    while j < numSge
      invariant 0 <= j == |pieces| <= numSge
      invariant forall i :: 0 <= i < j ==> pieces[i] == Source(sg[row, i].addr, sg[row, i].length)
    {
      pieces := pieces + [Source(sg[row, j].addr, sg[row, j].length)];
      j := j + 1;
    }
  }

  /** What the card finds in entry `q` of the table. */
  method ReadRequest(wr: array<SendWr>, sg: array2<Sge>, q: nat, ghost list: seq<Source>, ghost dest: nat,
                     ghost lkey: nat, ghost rkey: nat, ghost wrId: nat, ghost per: nat)
    returns (r: Request)
    requires per > 0 && sg.Length0 == Count(|list|, per) && q < sg.Length0 && q * per < |list|
    requires Scattered(sg, list, lkey, per, |list|) && Requested(wr, list, dest, rkey, wrId, per, |list|)
    ensures r == RequestAt(list, dest, rkey, wrId, per, q)
  {
    var w := wr[q];
    var pieces := Row(sg, w.row, w.numSge);
    forall j: nat | j < w.numSge
      ensures pieces[j] == list[q * per + j]
    {
      assert Cell(per, q, j) < |list|;
    }
    assert pieces == list[q * per..q * per + w.numSge];
    r := Request(pieces, w.remoteAddr, w.rkey, w.wrId, w.signaled);
  }

  lemma RequestFits(local: Memory, remote: Memory, list: seq<Source>, dest: nat, r: Request, from: nat, to: nat)
    requires Readable(local, list) && dest + Total(list) <= |remote| && from <= to <= |list|
    requires r.pieces == list[from..to] && r.remoteAddr == dest + Total(list[..from])
    ensures Readable(local, r.pieces) && r.remoteAddr + Total(r.pieces) <= |remote|
  {
    TotalSplit(list, from, to);
  }

  /** Executing one more request of the chain. */
  lemma PostNext(local: Memory, remote: Memory, list: seq<Source>, dest: nat, rkey: nat, wrId: nat, per: nat, k: nat)
    requires Readable(local, list) && dest + Total(list) <= |remote| && per > 0 && k < Count(|list|, per)
    requires Runnable(local, |remote|, Chain(list, dest, rkey, wrId, per, k))
    ensures k * per < |list|
    ensures var c, c', r := Chain(list, dest, rkey, wrId, per, k), Chain(list, dest, rkey, wrId, per, k + 1),
              RequestAt(list, dest, rkey, wrId, per, k);
            && c' == c + [r] && Runnable(local, |remote|, c')
            && Readable(local, r.pieces) && r.remoteAddr + Total(r.pieces) <= |remote|
            && RunChain(local, remote, c') == Execute(local, RunChain(local, remote, c), r)
  {
    NextRequest(list, dest, rkey, wrId, per, k);
    var r := RequestAt(list, dest, rkey, wrId, per, k);
    RequestFits(local, remote, list, dest, r, Upto(|list|, per, k), Upto(|list|, per, k + 1));
    RunSnoc(local, remote, Chain(list, dest, rkey, wrId, per, k), r);
  }

  /** `ibv_post_send`: the card follows the links from request 0. */
  method PostChain(wr: array<SendWr>, sg: array2<Sge>, local: Memory, remote: Memory, ghost list: seq<Source>,
                   ghost dest: nat, ghost lkey: nat, ghost rkey: nat, ghost wrId: nat, ghost per: nat)
    returns (m: Memory, chain: seq<Request>)
    requires Acceptable(list, per) && sg.Length0 == Count(|list|, per)
    requires Scattered(sg, list, lkey, per, |list|) && Requested(wr, list, dest, rkey, wrId, per, |list|)
    requires Readable(local, list) && dest + Total(list) <= |remote|
    ensures chain == Chain(list, dest, rkey, wrId, per, Count(|list|, per))
    ensures Runnable(local, |remote|, chain) && m == RunChain(local, remote, chain)
  {
    m, chain := remote, [];
    var at, k := 0, 0;
    CountBounds(|list|, per, 0);
    while at != NULL
      invariant 0 <= k <= wr.Length && at == if k < wr.Length then k else NULL
      invariant chain == Chain(list, dest, rkey, wrId, per, k)
      invariant Runnable(local, |remote|, chain) && m == RunChain(local, remote, chain)
      decreases wr.Length - k
    {
      PostNext(local, remote, list, dest, rkey, wrId, per, k);
      var r := ReadRequest(wr, sg, at, list, dest, lkey, rkey, wrId, per);
      m, chain := Execute(local, m, r), chain + [r];
      at, k := wr[at].next, k + 1;
    }
  }

  /** rdmaWriteVector. The parameter isSignaled has no influence. */
  method RdmaWriteVector(local: Memory, remote: Memory, list: seq<Source>, dest: nat, lkey: nat, rkey: nat,
                         isSignaled: bool, wrId: nat, per: nat)
    returns (m: Memory, chain: seq<Request>)
    requires Acceptable(list, per) && Readable(local, list) && dest + Total(list) <= |remote|
    ensures m == WriteAt(remote, dest, Gather(local, list))
    ensures |m| == |remote| && forall x :: 0 <= x < dest || dest + Total(list) <= x < |m| ==> m[x] == remote[x]
    ensures forall i :: 0 <= i < |list| ==>
              var at := dest + Total(list[..i]);
              at + list[i].size <= |m| && m[at..at + list[i].size] == local[list[i].addr..list[i].addr + list[i].size]
    ensures Total([]) == 0 && forall i :: 0 <= i < |list| ==> Total(list[..i + 1]) == Total(list[..i]) + list[i].size
    ensures forall q :: 0 <= q < |chain| ==>
              && q * per + |chain[q].pieces| <= |list| && chain[q].pieces == list[q * per..q * per + |chain[q].pieces|]
              && chain[q].remoteAddr == dest + Total(list[..q * per]) && chain[q].rkey == rkey && chain[q].wrId == wrId
    ensures (|chain| - 1) * per < |list| <= |chain| * per && Pieces(chain) == |list|
    ensures forall q :: 0 <= q < |chain| ==> 1 <= |chain[q].pieces| <= per
    ensures forall q :: 0 <= q < |chain| ==> (chain[q].signaled <==> q == |chain| - 1)
  {
    hide WriteAt, Gather, Total, RunChain, Pieces, Chain, RequestAt;
    var count := (|list| + per - 1) / per;
    var wr := new SendWr[count];
    var sg := new Sge[count, per];
    Fill(wr, sg, list, dest, lkey, rkey, wrId, per);
    m, chain := PostChain(wr, sg, local, remote, list, dest, lkey, rkey, wrId, per);
    ChainIsOneWrite(local, remote, list, dest, rkey, wrId, per);
    ChainShape(list, dest, rkey, wrId, per);
    ListWritten(local, remote, list, dest);
    ChainFields(list, dest, rkey, wrId, per);
  }
}
