/** Which queue pairs a node creates, what it tells its peers about them, and how it
    connects them to what a peer told it. The numbers of nodes, application threads per
    node and directories per node are arbitrary. */
module Wiring {

  /** A queue pair of one node: an application thread's end towards a directory of `remote`,
      or a directory's end towards an application thread of `remote`. */
  datatype Qp =
    | App(thread: nat, dir: nat, remote: nat)
    | Dir(dir: nat, thread: nat, remote: nat)

  /** The address of a queue pair on the network. */
  datatype Address = Address(node: nat, number: nat)

  datatype Option<T> = None | Some(value: T)

  /** A queue pair's number, where it is connected to and how often it was connected. */
  datatype Link = Link(number: nat, dest: Option<Address>, connects: nat)

  /** `ExchangeMeta`: `owner` stands for the fields that do not depend on the reader. */
  datatype Meta = Meta(owner: nat, appQpn2dir: seq<seq<nat>>, dirQpn2app: seq<seq<nat>>)

  /** `number` is the device's choice of queue pair numbers: never zero, never the same twice. */
  datatype Config = Config(nodes: nat, threads: nat, dirs: nat, number: (nat, Qp) -> nat)

  ghost predicate ValidConfig(c: Config) {
    && 0 < c.nodes < 0x10000 && 0 < c.threads && 0 < c.dirs
    && (forall node: nat, q :: c.number(node, q) != 0)
    && (forall node: nat, q, r :: c.number(node, q) == c.number(node, r) ==> q == r)
  }

  /** `calacuate_target_dir` */
  function TargetDir(threads: nat, dirs: nat, node: nat, thread: nat): nat
    requires dirs > 0
  {
    (node * threads + thread) % dirs
  }

  /** Which queue pairs node `id` creates. */
  predicate Created(c: Config, id: nat, q: Qp)
    requires c.dirs > 0
  {
    && q.thread < c.threads && q.dir < c.dirs && q.remote < c.nodes
    && q.dir == TargetDir(c.threads, c.dirs, if q.App? then id else q.remote, q.thread)
  }

  /** The node at the other end and the name the queue pair has there. */
  function PeerName(id: nat, q: Qp): Qp {
    match q
    case App(thread, dir, remote) => Dir(dir, thread, id)
    case Dir(dir, thread, remote) => App(thread, dir, id)
  }

  /** The wiring is a perfect matching: a queue pair exists iff its peer does, and being
      each other's peer is symmetric. */
  lemma PeersMatch(c: Config, id: nat, q: Qp)
    requires c.dirs > 0 && id < c.nodes && q.remote < c.nodes
    ensures Created(c, id, q) <==> Created(c, q.remote, PeerName(id, q))
    ensures PeerName(q.remote, PeerName(id, q)) == q && PeerName(id, q).remote == id
  {}

  /** A queue pair of node `id`, connected to its peer or not at all. */
  function LinkFor(c: Config, id: nat, q: Qp, connected: bool): Link {
    if connected then Link(c.number(id, q), Some(Address(q.remote, c.number(q.remote, PeerName(id, q)))), 1)
    else Link(c.number(id, q), None, 0)
  }

  /** Node `id` is connected to its peers below `bound` and, if `self`, to itself. */
  predicate Reached(id: nat, bound: nat, self: bool, remote: nat) {
    if remote == id then self else remote < bound
  }

  ghost predicate Wired(c: Config, id: nat, links: map<Qp, Link>, bound: nat, self: bool)
    requires c.dirs > 0
  {
    && (forall q :: q in links <==> Created(c, id, q))
    && (forall q :: q in links ==> links[q] == LinkFor(c, id, q, Reached(id, bound, self, q.remote)))
  }

  /** The queue pairs of node `id` right after their creation. */
  function InitialLinks(c: Config, id: nat): (links: map<Qp, Link>)
    requires c.dirs > 0
    ensures Wired(c, id, links, 0, false)
  {
    var all := (set k: nat, i: nat, r: nat | k < c.threads && i < c.dirs && r < c.nodes :: App(k, i, r))
               + (set k: nat, i: nat, r: nat | k < c.threads && i < c.dirs && r < c.nodes :: Dir(i, k, r));
    map q | q in all && Created(c, id, q) :: LinkFor(c, id, q, false)
  }

  // ---- What a node publishes and what it does with it -----------------------------------------

  function NumberOf(links: map<Qp, Link>, q: Qp): nat {
    if q in links then links[q].number else 0
  }

  function AppRow(dirs: nat, links: map<Qp, Link>, remote: nat, k: nat): (row: seq<nat>)
    ensures |row| == dirs
  {
    seq(dirs, i requires 0 <= i < dirs => NumberOf(links, App(k, i, remote)))
  }

  function DirRow(threads: nat, links: map<Qp, Link>, remote: nat, i: nat): (row: seq<nat>)
    ensures |row| == threads
  {
    seq(threads, k requires 0 <= k < threads => NumberOf(links, Dir(i, k, remote)))
  }

  /** `setDataToRemote`: the queue pair numbers for `remote`, zero where there is none. */
  function MetaTo(threads: nat, dirs: nat, id: nat, links: map<Qp, Link>, remote: nat): Meta {
    Meta(id,
         seq(threads, k requires 0 <= k < threads => AppRow(dirs, links, remote, k)),
         seq(dirs, i requires 0 <= i < dirs => DirRow(threads, links, remote, i)))
  }

  predicate Shaped(threads: nat, dirs: nat, m: Meta) {
    && |m.appQpn2dir| == threads && (forall k :: 0 <= k < threads ==> |m.appQpn2dir[k]| == dirs)
    && |m.dirQpn2app| == dirs && (forall i :: 0 <= i < dirs ==> |m.dirQpn2app[i]| == threads)
  }

  /** The number that a peer published for the other end of `q`. */
  function PeerNumber(threads: nat, dirs: nat, m: Meta, q: Qp): nat
    requires Shaped(threads, dirs, m) && q.thread < threads && q.dir < dirs
  {
    match q
    case App(k, i, _) => m.dirQpn2app[i][k]
    case Dir(i, k, _) => m.appQpn2dir[k][i]
  }

  predicate InRange(threads: nat, dirs: nat, links: map<Qp, Link>) {
    forall q :: q in links ==> q.thread < threads && q.dir < dirs
  }

  /** None of the non-zero assertions of `setDataFromRemote` fails. */
  predicate Covered(threads: nat, dirs: nat, links: map<Qp, Link>, remote: nat, m: Meta)
    requires Shaped(threads, dirs, m) && InRange(threads, dirs, links)
  {
    forall q :: q in links && q.remote == remote ==> PeerNumber(threads, dirs, m, q) != 0
  }

  function Connect(l: Link, dest: Address): Link {
    l.(dest := Some(dest), connects := l.connects + 1)
  }

  /** `setDataFromRemote`: every queue pair towards `remote` is connected. */
  function Connected(threads: nat, dirs: nat, links: map<Qp, Link>, remote: nat, m: Meta): map<Qp, Link>
    requires Shaped(threads, dirs, m) && InRange(threads, dirs, links)
  {
    map q | q in links ::
      if q.remote == remote then Connect(links[q], Address(m.owner, PeerNumber(threads, dirs, m, q))) else links[q]
  }

  ghost function SpecNumber(c: Config, id: nat, q: Qp): nat
    requires c.dirs > 0
  {
    if Created(c, id, q) then c.number(id, q) else 0
  }

  /** What node `id` publishes for `remote`, whatever it is connected to. */
  ghost predicate MetaFor(c: Config, id: nat, remote: nat, m: Meta)
    requires c.dirs > 0
  {
    && m.owner == id && Shaped(c.threads, c.dirs, m)
    && (forall k, i :: 0 <= k < c.threads && 0 <= i < c.dirs ==> m.appQpn2dir[k][i] == SpecNumber(c, id, App(k, i, remote)))
    && (forall k, i :: 0 <= k < c.threads && 0 <= i < c.dirs ==> m.dirQpn2app[i][k] == SpecNumber(c, id, Dir(i, k, remote)))
  }

  lemma PublishesMeta(c: Config, id: nat, links: map<Qp, Link>, bound: nat, self: bool, remote: nat)
    requires c.dirs > 0 && Wired(c, id, links, bound, self)
    ensures MetaFor(c, id, remote, MetaTo(c.threads, c.dirs, id, links, remote))
  {}

  lemma PeerPublished(c: Config, id: nat, q: Qp, m: Meta)
    requires ValidConfig(c) && id < c.nodes && Created(c, id, q) && MetaFor(c, q.remote, id, m)
    ensures PeerNumber(c.threads, c.dirs, m, q) == c.number(q.remote, PeerName(id, q)) != 0
  {
    PeersMatch(c, id, q);
  }

  /** What `remote` publishes for `id` lets `id` connect all its queue pairs to it, each to its peer. */
  lemma ConnectExtends(c: Config, id: nat, links: map<Qp, Link>, bound: nat, self: bool, remote: nat, m: Meta)
    requires ValidConfig(c) && id < c.nodes && Wired(c, id, links, bound, self) && MetaFor(c, remote, id, m)
    requires !Reached(id, bound, self, remote) && remote < c.nodes && (remote == id || remote == bound)
    ensures InRange(c.threads, c.dirs, links) && Covered(c.threads, c.dirs, links, remote, m)
    ensures Wired(c, id, Connected(c.threads, c.dirs, links, remote, m),
                  if remote == id then bound else bound + 1, if remote == id then true else self)
  {
    forall q | q in links && q.remote == remote
      ensures PeerNumber(c.threads, c.dirs, m, q) == c.number(remote, PeerName(id, q)) != 0
    {
      PeerPublished(c, id, q, m);
    }
  }
}
