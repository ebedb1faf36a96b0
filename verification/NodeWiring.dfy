/** The in-place code of one node: the assignment of threads to directories, the creation
    of queue pairs, and the two passes over them for every peer. */
module NodeWiring {
  import opened Wiring

  // ---- RCMapping ---------------------------------------------------------------------------

  /** The (node, thread) pairs with unique id below `n` that directory `d` serves, in order. */
  function Clients(threads: nat, dirs: nat, d: nat, n: nat): seq<(nat, nat)>
    requires threads > 0 && dirs > 0
  {
    if n == 0 then []
    else Clients(threads, dirs, d, n - 1)
         + (if (n - 1) % dirs == d then [((n - 1) / threads, (n - 1) % threads)] else [])
  }

  lemma UniqueId(threads: nat, node: nat, thread: nat, u: nat)
    requires thread < threads
    ensures u == node * threads + thread <==> node == u / threads && thread == u % threads
  {
    if u == node * threads + thread {
      var k := u / threads - node;
      assert k * threads == thread - u % threads;
      assert k >= 1 ==> k * threads >= threads;
      assert k <= -1 ==> k * threads + threads <= 0;
    }
  }

  /** A pair is in a directory's list exactly if that directory is its target. */
  lemma {:induction false} ClientsListed(threads: nat, dirs: nat, d: nat, n: nat, node: nat, thread: nat)
    requires threads > 0 && dirs > 0 && thread < threads
    ensures (node, thread) in Clients(threads, dirs, d, n)
       <==> node * threads + thread < n && TargetDir(threads, dirs, node, thread) == d
  {
    if n > 0 {
      ClientsListed(threads, dirs, d, n - 1, node, thread);
      UniqueId(threads, node, thread, n - 1);
    }
  }

  lemma {:induction false} ClientsThread(threads: nat, dirs: nat, d: nat, n: nat)
    requires threads > 0 && dirs > 0
    ensures forall j :: 0 <= j < |Clients(threads, dirs, d, n)| ==> Clients(threads, dirs, d, n)[j].1 < threads
  {
    if n > 0 {
      ClientsThread(threads, dirs, d, n - 1);
    }
  }

  /** No pair is listed twice. */
  lemma {:induction false} ClientsDistinct(threads: nat, dirs: nat, d: nat, n: nat)
    requires threads > 0 && dirs > 0
    ensures var list := Clients(threads, dirs, d, n);
            forall i, j :: 0 <= i < j < |list| ==> list[i] != list[j]
  {
    if n > 0 {
      ClientsDistinct(threads, dirs, d, n - 1);
      var c := ((n - 1) / threads, (n - 1) % threads);
      ClientsListed(threads, dirs, d, n - 1, c.0, c.1);
      UniqueId(threads, c.0, c.1, n - 1);
    }
  }

  lemma UniqueIdBound(threads: nat, nodes: nat, node: nat, thread: nat)
    requires thread < threads
    ensures node * threads + thread < nodes * threads <==> node < nodes
  {
    if node < nodes {
      ProductMonotone(node + 1, nodes, threads);
    } else {
      ProductMonotone(nodes, node, threads);
    }
  }

  lemma {:induction false} ProductMonotone(a: nat, b: nat, t: nat)
    requires a <= b
    ensures a * t <= b * t
    decreases b - a
  {
    if a < b {
      ProductMonotone(a + 1, b, t);
    }
  }

  /** Every application thread is served by exactly one directory. */
  lemma ServedOnce(threads: nat, dirs: nat, nodes: nat, node: nat, thread: nat, d: nat)
    requires threads > 0 && dirs > 0 && thread < threads
    ensures (node, thread) in Clients(threads, dirs, d, nodes * threads)
       <==> node < nodes && d == (node * threads + thread) % dirs
  {
    ClientsListed(threads, dirs, d, nodes * threads, node, thread);
    UniqueIdBound(threads, nodes, node, thread);
  }

  class RCMapping {
    const machineCnt: nat
    const threads: nat
    const dirs: nat
    var threadToDir: seq<seq<nat>>
    var dirToThread: seq<seq<(nat, nat)>>

    ghost predicate Valid()
      reads this
    {
      && threads > 0 && dirs > 0
      && |threadToDir| == machineCnt && |dirToThread| == dirs
      && (forall i :: 0 <= i < machineCnt ==> |threadToDir[i]| == threads)
      && (forall i, k :: 0 <= i < machineCnt && 0 <= k < threads ==> threadToDir[i][k] == TargetDir(threads, dirs, i, k))
      && (forall d :: 0 <= d < dirs ==> dirToThread[d] == Clients(threads, dirs, d, machineCnt * threads))
    }

    constructor (machineCnt: nat, threads: nat, dirs: nat)
      requires threads > 0 && dirs > 0
      ensures Valid() && this.machineCnt == machineCnt && this.threads == threads && this.dirs == dirs
      ensures forall i, k :: 0 <= i < machineCnt && 0 <= k < threads ==> threadToDir[i][k] == (i * threads + k) % dirs
    {
      this.machineCnt, this.threads, this.dirs := machineCnt, threads, dirs;
      threadToDir := seq(machineCnt, _ => seq(threads, _ => 0));
      dirToThread := seq(dirs, _ => []);
      new;
      var i := 0;
      while i < machineCnt
        invariant 0 <= i <= machineCnt
        invariant Filled(i, 0)
      {
        var k := 0;
        while k < threads
          invariant 0 <= k <= threads
          invariant Filled(i, k)
        {
          Assign(i, k);
          k := k + 1;
        }
        i := i + 1;
        assert (i - 1) * threads + threads == i * threads;
      }
    }

    /** Thread `k` of node `i` gets its directory, and the directory gets the thread. */
    method Assign(i: nat, k: nat)
      requires Filled(i, k) && i < machineCnt && k < threads
      modifies this
      ensures Filled(i, k + 1)
    {
      var d := TargetDir(threads, dirs, i, k);
      UniqueId(threads, i, k, i * threads + k);
      threadToDir := threadToDir[i := threadToDir[i][k := d]];
      dirToThread := dirToThread[d := dirToThread[d] + [(i, k)]];
      assert Clients(threads, dirs, d, i * threads + k + 1) == Clients(threads, dirs, d, i * threads + k) + [(i, k)];
    }

    /** The loops have handled every pair before (`i`, `k`). */
    ghost predicate Filled(i: nat, k: nat)
      reads this
    {
      && threads > 0 && dirs > 0 && i <= machineCnt && k <= threads
      && |threadToDir| == machineCnt && |dirToThread| == dirs
      && (forall a :: 0 <= a < machineCnt ==> |threadToDir[a]| == threads)
      && (forall a, b :: 0 <= a < machineCnt && 0 <= b < threads && (a < i || (a == i && b < k))
            ==> threadToDir[a][b] == TargetDir(threads, dirs, a, b))
      && (forall d :: 0 <= d < dirs ==> dirToThread[d] == Clients(threads, dirs, d, i * threads + k))
    }
  }

  // ---- Creation of queue pairs ------------------------------------------------------------------

  /** `now` is `was` with the queue pairs in `added` created for node `id`. */
  ghost predicate Grown(id: nat, number: (nat, Qp) -> nat, was: map<Qp, Link>, now: map<Qp, Link>, added: Qp -> bool) {
    && (forall q :: q in now <==> q in was || added(q))
    && (forall q :: q in now ==> now[q] == if added(q) then Link(number(id, q), None, 0) else was[q])
  }

  lemma GrowOne(id: nat, number: (nat, Qp) -> nat, was: map<Qp, Link>, now: map<Qp, Link>,
                added: Qp -> bool, one: Qp, all: Qp -> bool)
    requires Grown(id, number, was, now, added)
    requires forall q :: all(q) <==> added(q) || q == one
    ensures Grown(id, number, was, now[one := Link(number(id, one), None, 0)], all)
  {}

  lemma GrowMany(id: nat, number: (nat, Qp) -> nat, was: map<Qp, Link>, mid: map<Qp, Link>, now: map<Qp, Link>,
                 first: Qp -> bool, second: Qp -> bool, all: Qp -> bool)
    requires Grown(id, number, was, mid, first) && Grown(id, number, mid, now, second)
    requires forall q :: all(q) <==> first(q) || second(q)
    ensures Grown(id, number, was, now, all)
  {}

  // ---- Connections of one node -----------------------------------------------------------------

  class NodeConnections {
    const id: nat
    const machineNR: nat
    const threads: nat
    const dirs: nat
    var links: map<Qp, Link>          // `data` of every thread and `data2app` of every directory
    var appQpn2dir: seq<seq<nat>>     // `localMeta`
    var dirQpn2app: seq<seq<nat>>

    ghost predicate Valid()
      reads this
    {
      && InRange(threads, dirs, links)
      && Shaped(threads, dirs, Meta(id, appQpn2dir, dirQpn2app))
    }

    constructor (mapping: RCMapping, id: nat, number: (nat, Qp) -> nat)
      requires mapping.Valid() && id < mapping.machineCnt
      ensures Valid() && this.id == id && machineNR == mapping.machineCnt
      ensures threads == mapping.threads && dirs == mapping.dirs
      ensures Wired(Config(machineNR, threads, dirs, number), id, links, 0, false)
    {
      this.id, machineNR, threads, dirs := id, mapping.machineCnt, mapping.threads, mapping.dirs;
      links := map[];
      appQpn2dir := seq(mapping.threads, _ => seq(mapping.dirs, _ => 0));
      dirQpn2app := seq(mapping.dirs, _ => seq(mapping.threads, _ => 0));
      new;
      CreateThreads(mapping, number);
      CreateDirectories(mapping, number);
    }

    /** All application threads' ends. */
    method CreateThreads(mapping: RCMapping, number: (nat, Qp) -> nat)
      requires Serves(mapping)
      modifies this`links
      ensures Grown(id, number, old(links), links, (q: Qp) => AppCreated(q))
    {
      ghost var was := links;
      ghost var done := (k: nat, q: Qp) => AppCreated(q) && q.thread < k;
      for k := 0 to threads
        invariant Grown(id, number, was, links, (q: Qp) => done(k, q))
      {
        ghost var mid := links;
        var target := mapping.threadToDir[id][k];
        CreateThread(k, target, number);
        GrowMany(id, number, was, mid, links, (q: Qp) => done(k, q), (q: Qp) => ThreadQp(q, k, target),
                 (q: Qp) => done(k + 1, q));
      }
    }

    /** All directories' ends. */
    method CreateDirectories(mapping: RCMapping, number: (nat, Qp) -> nat)
      requires Serves(mapping)
      modifies this`links
      ensures Grown(id, number, old(links), links, (q: Qp) => DirCreated(q))
    {
      ghost var was := links;
      ghost var done := (d: nat, q: Qp) => DirCreated(q) && q.dir < d;
      for d := 0 to dirs
        invariant Grown(id, number, was, links, (q: Qp) => done(d, q))
      {
        ghost var mid := links;
        var list := mapping.dirToThread[d];
        ServesList(mapping, d);
        CreateDirectory(d, list, number);
        GrowMany(id, number, was, mid, links, (q: Qp) => done(d, q), (q: Qp) => ListedQp(q, d, list),
                 (q: Qp) => done(d + 1, q));
      }
    }

    ghost predicate Serves(mapping: RCMapping)
      reads mapping
    {
      mapping.Valid() && id < mapping.machineCnt == machineNR && threads == mapping.threads && dirs == mapping.dirs
    }

    lemma ServesList(mapping: RCMapping, d: nat)
      requires Serves(mapping) && d < dirs
      ensures forall q: Qp :: q.Dir? && q.dir == d ==> ((q.remote, q.thread) in mapping.dirToThread[d] <==> DirCreated(q))
    {
      ClientsThread(threads, dirs, d, machineNR * threads);
      forall q: Qp | q.Dir? && q.dir == d
        ensures (q.remote, q.thread) in mapping.dirToThread[d] <==> DirCreated(q)
      {
        if q.thread < threads {
          ServedOnce(threads, dirs, machineNR, q.remote, q.thread, d);
        }
      }
    }

    ghost predicate AppCreated(q: Qp) {
      dirs > 0 && q.App? && q.thread < threads && q.dir == TargetDir(threads, dirs, id, q.thread) && q.remote < machineNR
    }

    ghost predicate DirCreated(q: Qp) {
      dirs > 0 && q.Dir? && q.thread < threads && q.remote < machineNR && q.dir == TargetDir(threads, dirs, q.remote, q.thread)
    }

    /** `createQueuePair` */
    method CreateQueuePair(q: Qp, number: (nat, Qp) -> nat)
      modifies this`links
      ensures links == old(links)[q := Link(number(id, q), None, 0)]
    {
      links := links[q := Link(number(id, q), None, 0)];
    }

    /** The queue pairs of application thread `k`. */
    predicate ThreadQp(q: Qp, k: nat, target: nat) {
      q.App? && q.thread == k && q.dir == target < dirs && q.remote < machineNR
    }

    /** The queue pairs of directory `d` for the threads in `list`. */
    static predicate ListedQp(q: Qp, d: nat, list: seq<(nat, nat)>) {
      q.Dir? && q.dir == d && (q.remote, q.thread) in list
    }

    /** The loops of the `ThreadConnection` constructor. */
    method CreateThread(k: nat, target: nat, number: (nat, Qp) -> nat)
      modifies this`links
      ensures Grown(id, number, old(links), links, (q: Qp) => ThreadQp(q, k, target))
    {
      ghost var was := links;
      ghost var done := (i: nat, q: Qp) => ThreadQp(q, k, target) && q.dir < i;
      ghost var part := (i: nat, r: nat, q: Qp) => ThreadQp(q, k, target) && (q.dir < i || (q.dir == i && q.remote < r));
      for i := 0 to dirs
        invariant Grown(id, number, was, links, (q: Qp) => done(i, q))
      {
        for r := 0 to machineNR
          invariant Grown(id, number, was, links, (q: Qp) => part(i, r, q))
        {
          if i == target {
            ghost var mid := links;
            CreateQueuePair(App(k, i, r), number);
            GrowOne(id, number, was, mid, (q: Qp) => part(i, r, q), App(k, i, r), (q: Qp) => part(i, r + 1, q));
          }
        }
      }
    }

    /** The loop of the `DirectoryConnection` constructor. */
    method CreateDirectory(d: nat, list: seq<(nat, nat)>, number: (nat, Qp) -> nat)
      modifies this`links
      ensures Grown(id, number, old(links), links, (q: Qp) => ListedQp(q, d, list))
    {
      ghost var was := links;
      for j := 0 to |list|
        invariant Grown(id, number, was, links, (q: Qp) => ListedQp(q, d, list[..j]))
      {
        ghost var mid := links;
        var c := list[j];
        CreateQueuePair(Dir(d, c.1, c.0), number);
        assert list[..j + 1] == list[..j] + [c];
        GrowOne(id, number, was, mid, (q: Qp) => ListedQp(q, d, list[..j]), Dir(d, c.1, c.0),
                (q: Qp) => ListedQp(q, d, list[..j + 1]));
      }
      assert list[..|list|] == list;
    }

    function LocalMeta(): Meta
      reads this
    {
      Meta(id, appQpn2dir, dirQpn2app)
    }

    /** `setDataToRemote`: every entry is overwritten, so nothing of the last peer is left. */
    method SetDataToRemote(remote: nat)
      requires Valid()
      modifies this`appQpn2dir, this`dirQpn2app
      ensures Valid()
      ensures LocalMeta() == MetaTo(threads, dirs, id, links, remote)
    {
      for i := 0 to dirs
        invariant Valid()
        invariant forall a :: 0 <= a < i ==> dirQpn2app[a] == DirRow(threads, links, remote, a)
      {
        for k := 0 to threads
          invariant Valid()
          invariant forall a :: 0 <= a < i ==> dirQpn2app[a] == DirRow(threads, links, remote, a)
          invariant forall b :: 0 <= b < k ==> dirQpn2app[i][b] == NumberOf(links, Dir(i, b, remote))
        {
          var q := Dir(i, k, remote);
          dirQpn2app := dirQpn2app[i := dirQpn2app[i][k := if q in links then links[q].number else 0]];
        }
        assert dirQpn2app[i] == DirRow(threads, links, remote, i);
      }
      for i := 0 to threads
        invariant Valid()
        invariant dirQpn2app == MetaTo(threads, dirs, id, links, remote).dirQpn2app
        invariant forall a :: 0 <= a < i ==> appQpn2dir[a] == AppRow(dirs, links, remote, a)
      {
        for k := 0 to dirs
          invariant Valid()
          invariant dirQpn2app == MetaTo(threads, dirs, id, links, remote).dirQpn2app
          invariant forall a :: 0 <= a < i ==> appQpn2dir[a] == AppRow(dirs, links, remote, a)
          invariant forall b :: 0 <= b < k ==> appQpn2dir[i][b] == NumberOf(links, App(i, b, remote))
        {
          var q := App(i, k, remote);
          appQpn2dir := appQpn2dir[i := appQpn2dir[i][k := if q in links then links[q].number else 0]];
        }
        assert appQpn2dir[i] == AppRow(dirs, links, remote, i);
      }
    }

    /** One queue pair of `setDataFromRemote`: assert that the peer has one, then connect. */
    method ConnectQueuePair(q: Qp, m: Meta) returns (ok: bool)
      requires Valid() && Shaped(threads, dirs, m) && q.thread < threads && q.dir < dirs
      modifies this`links
      ensures ok <==> (q in old(links) ==> PeerNumber(threads, dirs, m, q) != 0)
      ensures links == if q in old(links) && ok
                       then old(links)[q := Connect(old(links)[q], Address(m.owner, PeerNumber(threads, dirs, m, q)))]
                       else old(links)
    {
      if q !in links {
        return true;
      }
      if PeerNumber(threads, dirs, m, q) == 0 {
        return false;
      }
      links := links[q := Connect(links[q], Address(m.owner, PeerNumber(threads, dirs, m, q)))];
      return true;
    }

    /** The queue pairs that the loops have visited: all of `Dir` below (`di`, `dk`), then `App`. */
    static predicate Visited(q: Qp, remote: nat, di: nat, dk: nat, ai: nat, ak: nat) {
      q.remote == remote && match q
        case Dir(i, k, _) => i < di || (i == di && k < dk)
        case App(k, i, _) => k < ai || (k == ai && i < ak)
    }

    ghost predicate Progress(was: map<Qp, Link>, remote: nat, m: Meta, di: nat, dk: nat, ai: nat, ak: nat)
      requires Shaped(threads, dirs, m) && InRange(threads, dirs, was)
      reads this`links
    {
      && links.Keys == was.Keys
      && forall q :: q in was ==>
           if Visited(q, remote, di, dk, ai, ak)
           then PeerNumber(threads, dirs, m, q) != 0
                && links[q] == Connect(was[q], Address(m.owner, PeerNumber(threads, dirs, m, q)))
           else links[q] == was[q]
    }

    /** The loops over the directories' ends. */
    method ConnectDirectories(remote: nat, m: Meta) returns (ok: bool)
      requires Valid() && Shaped(threads, dirs, m)
      modifies this`links
      ensures Valid()
      ensures ok ==> Progress(old(links), remote, m, dirs, 0, 0, 0)
      ensures !ok ==> !Covered(threads, dirs, old(links), remote, m)
    {
      ghost var was := links;
      for i := 0 to dirs
        invariant Valid() && Progress(was, remote, m, i, 0, 0, 0)
      {
        for k := 0 to threads
          invariant Valid() && Progress(was, remote, m, i, k, 0, 0)
        {
          var fine := ConnectQueuePair(Dir(i, k, remote), m);
          if !fine {
            return false;
          }
        }
      }
      return true;
    }

    /** The loops over the application threads' ends. */
    method ConnectThreads(remote: nat, m: Meta, ghost was: map<Qp, Link>) returns (ok: bool)
      requires Valid() && Shaped(threads, dirs, m) && InRange(threads, dirs, was)
      requires Progress(was, remote, m, dirs, 0, 0, 0)
      modifies this`links
      ensures Valid()
      ensures ok ==> Progress(was, remote, m, dirs, 0, threads, 0)
      ensures !ok ==> !Covered(threads, dirs, was, remote, m)
    {
      for i := 0 to threads
        invariant Valid() && Progress(was, remote, m, dirs, 0, i, 0)
      {
        for k := 0 to dirs
          invariant Valid() && Progress(was, remote, m, dirs, 0, i, k)
        {
          var fine := ConnectQueuePair(App(i, k, remote), m);
          if !fine {
            return false;
          }
        }
      }
      return true;
    }

    /** `setDataFromRemote`: false when an assertion fails. */
    method SetDataFromRemote(remote: nat, m: Meta) returns (ok: bool)
      requires Valid() && Shaped(threads, dirs, m)
      modifies this`links
      ensures ok <==> Covered(threads, dirs, old(links), remote, m)
      ensures ok ==> links == Connected(threads, dirs, old(links), remote, m)
    {
      ghost var was := links;
      ok := ConnectDirectories(remote, m);
      if ok {
        ok := ConnectThreads(remote, m, was);
      }
    }
  }
}
