/** Many honest daemons passing LSAs on to each other: the paths they hold are loop-free. */
module Network {
  import opened Bytes
  import opened Lsas
  import opened Codec
  import opened PathCost
  import opened LocRib
  import opened RtBuilder
  import opened AdjRibIn
  import opened Accounting
  import opened Reader
  import opened Writer
  import opened Replication

  /** A daemon: its own LSA, the store of each connected peer, and the Loc-RIB. */
  datatype Node = Node(me: Obj, adj: map<NodeId, Store>, ids: Ids)

  /** The daemons, and the LSAs under way from one to another, oldest first. */
  datatype Net = Net(nodes: map<NodeId, Node>, chans: map<(NodeId, NodeId), seq<Lsa>>)

  datatype Action =
    | Renew(me: Obj)
    | Hear(q: NodeId, size: nat, o: Obj)
    | Join(q: NodeId, adds: seq<Event>)
    | Leave(q: NodeId)
    | Recompute(es: seq<Event>)

  // ------------------------------------------------------------------------- one daemon

  /** What a node's own LSA looks like. */
  predicate Own(n: NodeId, l: Lsa) {
    l.id == n && HasPath(l) && Path(l) == [] && NoEmptySet(l.attrs)
  }

  /** The own LSA, or one that passes the filter of a connected peer's store. */
  ghost predicate Contributed(c: Crypto, n: NodeId, x: Node, p: Obj) {
    p == x.me || exists q | q in x.adj :: p in AcceptedIn(c, Some(n), Some(q), x.adj[q])
  }

  /** The Loc-RIB stores nothing else. */
  ghost predicate Exact(c: Crypto, n: NodeId, x: Node) {
    forall p :: Stored(x.ids, p) <==> Contributed(c, n, x, p)
  }

  /** The events that take listeners from the bests of `ids` to those of `ids'`. */
  ghost predicate Told(ids: Ids, ids': Ids, es: seq<Event>) {
    && ids'.Keys == ids.Keys && Orderly(Bests(ids), es) && Follow(Bests(ids), es) == Bests(ids')
    && forall k | 0 <= k < |es| :: EventId(es[k]) in ids && es[k] in Changes(ids[EventId(es[k])], ids'[EventId(es[k])])
  }

  /** What one operation of the daemon does to it. */
  ghost predicate NodeStep(c: Crypto, n: NodeId, x: Node, a: Action, y: Node) {
    && RibOk(x.ids) && Exact(c, n, y)
    && match a
       case Renew(me) => Own(n, me.lsa) && y.me == me && y.adj == x.adj && Bests(y.ids) == Bests(x.ids)
       case Hear(q, size, o) =>
         q in x.adj && y.me == x.me && y.adj == x.adj[q := Receive(x.adj[q], size, o)] && Bests(y.ids) == Bests(x.ids)
       case Join(q, _) => q !in x.adj && y == x.(adj := x.adj[q := map[]])
       case Leave(q) => y.me == x.me && y.adj == x.adj - {q} && Bests(y.ids) == Bests(x.ids)
       case Recompute(es) =>
         && y == x.(ids := y.ids) && SameInputs(y.ids, x.ids) && Told(x.ids, y.ids, es)
         && forall id | id in x.ids :: y.ids[id] == Renewed(x.ids, Some(n), x.ids[id])
  }

  // ------------------------------------------------------------------------ the network

  function Chan(net: Net, m: NodeId, n: NodeId): seq<Lsa> {
    if (m, n) in net.chans then net.chans[(m, n)] else []
  }

  /** What peer `q` gets to read of events at `n`. */
  function Wire(n: NodeId, q: NodeId, es: seq<Event>): seq<Lsa> {
    if es == [] then []
    else
      Wire(n, q, es[..|es| - 1])
      + match EventMessage(Some(q), es[|es| - 1]) case Some(l) => [Prepend(l, n)] case None => []
  }

  /** What an operation of `n` reads from and writes to its connections. */
  ghost predicate Moves(net: Net, n: NodeId, x: Node, a: Action, net': Net) {
    match a
    case Renew(_) => net'.chans == net.chans
    case Hear(q, _, o) =>
      // the next LSA from a peer
      && Chan(net, q, n) != [] && o.lsa == Chan(net, q, n)[0]
      && net'.chans == net.chans[(q, n) := Chan(net, q, n)[1..]]
    case Join(q, adds) =>
      // the bests are the first messages to a new peer
      DumpOf(x.ids, adds) && net'.chans == net.chans[(n, q) := Wire(n, q, adds)]
    case Leave(q) => net'.chans == net.chans - {(n, q)}
    case Recompute(es) =>
      // connected peers are told
      forall m, q :: Chan(net', m, q) == Chan(net, m, q) + if m == n && q in x.adj then Wire(n, q, es) else []
  }

  ghost predicate OthersSame(net: Net, net': Net, n: NodeId) {
    net'.nodes.Keys == net.nodes.Keys && forall m | m in net.nodes && m != n :: net'.nodes[m] == net.nodes[m]
  }

  /** One step of one daemon. */
  ghost predicate Step(c: Crypto, net: Net, n: NodeId, a: Action, net': Net) {
    && n in net.nodes && OthersSame(net, net', n)
    && NodeStep(c, n, net.nodes[n], a, net'.nodes[n]) && Moves(net, n, net.nodes[n], a, net')
  }

  // ---------------------------------------------------------------------------- the paths

  ghost predicate NoRepeats(s: seq<NodeId>) {
    forall i, j | 0 <= i < j < |s| :: s[i] != s[j]
  }

  /**
   * An LSA node `n` may hold: its path visits no node twice nor `n`, and ends at the originator,
   * and it can be dropped safely.
   */
  ghost predicate Sound(n: NodeId, l: Lsa) {
    && HasPath(l) && NoRepeats(Path(l)) && n !in Path(l)
    && (if Path(l) == [] then n else Path(l)[|Path(l)| - 1]) == l.id
    && NoEmptySet(l.attrs)
  }

  /**
   * An LSA under way from `q` to `n`: a withdrawal, or one with `q` in front of a sound path, that
   * did not go through `n` before.
   */
  ghost predicate SoundFrom(q: NodeId, n: NodeId, l: Lsa) {
    && NoEmptySet(l.attrs)
    && (l.attrs == [] || (HasPath(l) && Path(l) != [] && Path(l)[0] == q && NoRepeats(Path(l))
                          && Path(l)[|Path(l)| - 1] == l.id && n !in Path(l)[1..]))
  }

  ghost predicate SoundNode(c: Crypto, n: NodeId, x: Node) {
    && Own(n, x.me.lsa) && Exact(c, n, x)
    && (forall id | id in Bests(x.ids) :: Sound(n, Bests(x.ids)[id].0.lsa))
    && forall q, id | q in x.adj && id in x.adj[q] :: SoundFrom(q, n, x.adj[q][id].lsa)
  }

  ghost predicate SoundNet(c: Crypto, net: Net) {
    && (forall n | n in net.nodes :: SoundNode(c, n, net.nodes[n]))
    && forall m, n, i | 0 <= i < |Chan(net, m, n)| :: SoundFrom(m, n, Chan(net, m, n)[i])
  }

  /** What a sound node sends is sound on the way. */
  lemma SentSound(n: NodeId, q: NodeId, l: Lsa)
    requires Sound(n, l)
    ensures Advertised(Some(q), l) ==> SoundFrom(n, q, Prepend(l, n))
  {
    hide HasPath, Path;
    PathPrepended(l, n);
    assert ([n] + Path(l))[1..] == Path(l);
    PrefixKeepsSets(l.attrs, n);
  }

  /** What a node accepts from a peer is sound there. */
  lemma AcceptedSound(c: Crypto, n: NodeId, q: NodeId, l: Lsa)
    requires SoundFrom(q, n, l) && Accepts(c, Some(n), Some(q), l)
    ensures Sound(n, l)
  {
    hide Authentic, Path, WithPrefix;
    NoPathWithoutAttrs(l);
  }

  lemma NoPathWithoutAttrs(l: Lsa)
    ensures HasPath(l) ==> l.attrs != []
  {
  }

  lemma WithdrawalSound(id: NodeId, n: NodeId, q: NodeId)
    ensures SoundFrom(n, q, Prepend(Withdrawal(id), n))
  {
  }

  lemma {:induction false} WireSound(n: NodeId, q: NodeId, es: seq<Event>)
    requires forall i | 0 <= i < |es| ::
               match es[i] case AddEv(o, _) => Sound(n, o.lsa) case ModEv(_, _, o, _) => Sound(n, o.lsa)
               case DelEv(_, _) => true
    ensures forall i | 0 <= i < |Wire(n, q, es)| :: SoundFrom(n, q, Wire(n, q, es)[i])
  {
    hide Sound, SoundFrom, Prepend, Advertised;
    if es != [] {
      WireSound(n, q, es[..|es| - 1]);
      match es[|es| - 1] {
        case AddEv(o, _) => SentSound(n, q, o.lsa);
        case ModEv(o, _, p, _) =>
          SentSound(n, q, p.lsa);
          WithdrawalSound(o.lsa.id, n, q);
        case DelEv(o, _) => WithdrawalSound(o.lsa.id, n, q);
      }
    }
  }

  lemma DumpSound(n: NodeId, q: NodeId, ids: Ids, adds: seq<Event>)
    requires forall id | id in Bests(ids) :: Sound(n, Bests(ids)[id].0.lsa)
    requires DumpOf(ids, adds)
    ensures forall i | 0 <= i < |Wire(n, q, adds)| :: SoundFrom(n, q, Wire(n, q, adds)[i])
  {
    hide Sound, SoundFrom, Orderly, Follow, Wire;
    forall k | 0 <= k < |adds| ensures adds[k].AddEv? && Sound(n, adds[k].lsa.lsa) {
      assert Has(Bests(ids), adds[k].lsa, adds[k].cost);
    }
    WireSound(n, q, adds);
  }

  // ---------------------------------------------------------------------------- the bytes

  /** What a writer sends of orderly events, read back: the messages of `Wire` and nothing that waits. */
  lemma {:induction false} WireBytes(s: seq<byte>, n: NodeId, q: NodeId, v: View, es: seq<Event>)
    requires ParseStream(s).link == Open && ParseStream(s).rest == []
    requires Orderly(v, es)
    ensures ParseStream(s + Sent(Some(n), Some(q), es)) == Stream(ParseStream(s).lsas + Wire(n, q, es), [], Open)
  {
    hide ParseStream, Frame, EventMessage, Expected, Follow, Prepend, WithinLimit, Regular;
    if es == [] {
      assert s + [] == s && ParseStream(s).lsas + [] == ParseStream(s).lsas;
    } else {
      var k := |es| - 1;
      WireBytes(s, n, q, v, es[..k]);
      var t, m := s + Sent(Some(n), Some(q), es[..k]), EventMessage(Some(q), es[k]);
      assert s + Sent(Some(n), Some(q), es) == t + Output(Some(n), m);
      MessageFits(Follow(v, es[..k]), es[k], q);
      if m.Some? {
        FrameAppends(t, m.value, n);
      } else {
        assert t + [] == t;
      }
    }
  }

  /** A dump is the beginning of a stream that holds the advertised bests. */
  lemma DumpBytes(n: NodeId, q: NodeId, ids: Ids, adds: seq<Event>)
    requires DumpOf(ids, adds)
    ensures ParseStream(Sent(Some(n), Some(q), adds) + [0]) == Stream(Wire(n, q, adds), [], Open)
    ensures TakeAll(map[], Wire(n, q, adds)) == Want(Bests(ids), n, q)
  {
    hide ParseStream, Orderly, Follow, Wire, Sent;
    var out := Sent(Some(n), Some(q), adds);
    StreamEnd();
    WireBytes([], n, q, map[], adds);
    assert [] + out == out && ParseStream([]).lsas + Wire(n, q, adds) == Wire(n, q, adds);
    KeepaliveAppends(out);
    WireWanted(n, q, map[], adds);
  }

  /** The messages of orderly events take what the peer should have from before them to after them. */
  lemma {:induction false} WireWanted(n: NodeId, q: NodeId, v: View, es: seq<Event>)
    requires Orderly(v, es)
    ensures TakeAll(Want(v, n, q), Wire(n, q, es)) == Want(Follow(v, es), n, q)
  {
    hide Want, Expected, EventMessage, Take, Prepend;
    if es != [] {
      var k := |es| - 1;
      WireWanted(n, q, v, es[..k]);
      WantStep(Follow(v, es[..k]), es[k], n, q);
      var m := EventMessage(Some(q), es[k]);
      var ls := Wire(n, q, es[..k]);
      if m.Some? {
        assert (ls + [Prepend(m.value, n)])[..|ls|] == ls;
      } else {
        assert ls + [] == ls;
      }
    }
  }

  // ---------------------------------------------------------------------------- the steps

  lemma OwnSound(n: NodeId, me: Lsa)
    requires Own(n, me)
    ensures Sound(n, me)
  {
  }

  /** Whatever the Loc-RIB stores is sound, because of where it comes from. */
  lemma StoredSound(c: Crypto, n: NodeId, x: Node, p: Obj)
    requires Own(n, x.me.lsa) && Exact(c, n, x) && Stored(x.ids, p)
    requires forall q, id | q in x.adj && id in x.adj[q] :: SoundFrom(q, n, x.adj[q][id].lsa)
    ensures Sound(n, p.lsa)
    ensures p == x.me || exists q :: q in x.adj && FromPeer(c, n, q, x.adj[q], p)
  {
    hide Sound, SoundFrom, Accepts, Own, Stored;
    if p == x.me {
      OwnSound(n, p.lsa);
    } else {
      assert Contributed(c, n, x, p);
      var q :| q in x.adj && p in AcceptedIn(c, Some(n), Some(q), x.adj[q]);
      var id :| id in x.adj[q] && x.adj[q][id] == p && Accepts(c, Some(n), Some(q), p.lsa);
      AcceptedSound(c, n, q, p.lsa);
      AcceptedFirst(c, n, q, p.lsa);
      assert FromPeer(c, n, q, x.adj[q], p);
    }
  }

  /** `p` is in the store of peer `q`, passes its filter, and starts with `q`. */
  ghost predicate FromPeer(c: Crypto, n: NodeId, q: NodeId, store: Store, p: Obj) {
    && p in AcceptedIn(c, Some(n), Some(q), store)
    && HasPath(p.lsa) && Path(p.lsa) != [] && Path(p.lsa)[0] == q
  }

  lemma AcceptedFirst(c: Crypto, n: NodeId, q: NodeId, l: Lsa)
    requires Accepts(c, Some(n), Some(q), l)
    ensures HasPath(l) && Path(l) != [] && Path(l)[0] == q
  {
  }

  lemma RecomputedBests(c: Crypto, n: NodeId, x: Node, y: Node, id: NodeId)
    requires SoundNode(c, n, x) && RibOk(x.ids) && id in x.ids && y.ids.Keys == x.ids.Keys
    requires y.ids[id] == Renewed(x.ids, Some(n), x.ids[id]) && y.ids[id].best.Some?
    ensures Sound(n, y.ids[id].best.value.lsa)
  {
    hide Sound, SoundFrom, Renewed, Exact, RibOk, Own;
    RenewedOk(x.ids, Some(n), id);
    StoredSound(c, n, x, y.ids[id].best.value);
  }

  lemma RecomputedWire(c: Crypto, n: NodeId, x: Node, y: Node, es: seq<Event>, q: NodeId)
    requires SoundNode(c, n, x) && NodeStep(c, n, x, Recompute(es), y)
    ensures forall i | 0 <= i < |Wire(n, q, es)| :: SoundFrom(n, q, Wire(n, q, es)[i])
  {
    hide Sound, SoundFrom, Wire, Renewed, Exact, Orderly, Follow, RibOk, SoundNode;
    forall k | 0 <= k < |es|
      ensures match es[k] case AddEv(o, _) => Sound(n, o.lsa) case ModEv(_, _, o, _) => Sound(n, o.lsa)
              case DelEv(_, _) => true
    {
      var id := EventId(es[k]);
      if y.ids[id].best.Some? {
        RecomputedBests(c, n, x, y, id);
      }
    }
    WireSound(n, q, es);
  }

  /** A daemon stays sound if what it reads is. */
  lemma NodeStaysSound(c: Crypto, n: NodeId, x: Node, a: Action, y: Node)
    requires SoundNode(c, n, x) && NodeStep(c, n, x, a, y)
    requires a.Hear? ==> SoundFrom(a.q, n, a.o.lsa)
    ensures SoundNode(c, n, y)
  {
    hide Sound, SoundFrom, Exact, Renewed, RibOk, Own, LsaBytes;
    match a {
      case Recompute(es) =>
        forall id | id in Bests(y.ids) ensures Sound(n, Bests(y.ids)[id].0.lsa) {
          RecomputedBests(c, n, x, y, id);
        }
      case _ =>
    }
  }

  lemma ChanStep(c: Crypto, net: Net, n: NodeId, a: Action, net': Net, m: NodeId, k: NodeId)
    requires SoundNet(c, net) && Step(c, net, n, a, net')
    ensures forall i | 0 <= i < |Chan(net', m, k)| :: SoundFrom(m, k, Chan(net', m, k)[i])
  {
    hide Sound, SoundFrom, DumpOf, Wire, NodeStep, SoundNode, Exact;
    var x, y := net.nodes[n], net'.nodes[n];
    assert SoundNode(c, n, x);
    match a {
      case Renew(_) => assert Chan(net', m, k) == Chan(net, m, k);
      case Hear(q, _, _) =>
        assert Chan(net', m, k) == if (m, k) == (q, n) then Chan(net, m, k)[1..] else Chan(net, m, k);
      case Join(q, adds) =>
        NodeBests(c, n, x);
        DumpSound(n, q, x.ids, adds);
        assert Chan(net', m, k) == if (m, k) == (n, q) then Wire(n, q, adds) else Chan(net, m, k);
      case Leave(q) => assert Chan(net', m, k) == if (m, k) == (n, q) then [] else Chan(net, m, k);
      case Recompute(es) => RecomputedWire(c, n, x, y, es, k);
    }
  }

  lemma NodeBests(c: Crypto, n: NodeId, x: Node)
    requires SoundNode(c, n, x)
    ensures forall id | id in Bests(x.ids) :: Sound(n, Bests(x.ids)[id].0.lsa)
  {
  }

  /** A step keeps every daemon and every message sound. */
  lemma StepSound(c: Crypto, net: Net, n: NodeId, a: Action, net': Net)
    requires SoundNet(c, net) && Step(c, net, n, a, net')
    ensures SoundNet(c, net')
  {
    hide NodeStep, SoundNode, SoundFrom;
    if a.Hear? {
      assert SoundFrom(a.q, n, Chan(net, a.q, n)[0]);
    }
    NodeStaysSound(c, n, net.nodes[n], a, net'.nodes[n]);
    forall m, k, i | 0 <= i < |Chan(net', m, k)| ensures SoundFrom(m, k, Chan(net', m, k)[i]) {
      ChanStep(c, net, n, a, net', m, k);
    }
  }

  /** Every daemon has just started: no peers, no bests, and only its own LSA. */
  ghost predicate Quiet(c: Crypto, net: Net) {
    && net.chans == map[]
    && forall n | n in net.nodes ::
         var x := net.nodes[n]; Own(n, x.me.lsa) && x.adj == map[] && Exact(c, n, x) && Bests(x.ids) == map[]
  }

  ghost predicate IsRun(c: Crypto, run: seq<Net>, actions: seq<(NodeId, Action)>) {
    && |run| == |actions| + 1 && Quiet(c, run[0])
    && forall i | 0 <= i < |actions| :: Step(c, run[i], actions[i].0, actions[i].1, run[i + 1])
  }

  lemma {:induction false} AlwaysSound(c: Crypto, run: seq<Net>, actions: seq<(NodeId, Action)>, k: nat)
    requires IsRun(c, run, actions) && k < |run|
    ensures SoundNet(c, run[k])
  {
    hide Step, SoundNet;
    if k == 0 {
      QuietSound(c, run[0]);
    } else {
      AlwaysSound(c, run, actions, k - 1);
      StepSound(c, run[k - 1], actions[k - 1].0, actions[k - 1].1, run[k]);
    }
  }

  lemma QuietSound(c: Crypto, net: Net)
    requires Quiet(c, net)
    ensures SoundNet(c, net)
  {
    hide Own, Exact, Sound, SoundFrom;
  }

  /**
   * In every run, every LSA in a node's Loc-RIB has a path without repetition that avoids the
   * node and ends at the originator; it is the node's own, or in the store of a connected peer
   * and starts with that peer; and dropping it is safe.
   */
  lemma NoLoops(c: Crypto, run: seq<Net>, actions: seq<(NodeId, Action)>, k: nat, n: NodeId, p: Obj)
    requires IsRun(c, run, actions) && k < |run| && n in run[k].nodes && Stored(run[k].nodes[n].ids, p)
    ensures HasPath(p.lsa) && NoRepeats(Path(p.lsa)) && n !in Path(p.lsa)
    ensures (if Path(p.lsa) == [] then n else Path(p.lsa)[|Path(p.lsa)| - 1]) == p.lsa.id
    ensures Path(p.lsa) == [] <==> p == run[k].nodes[n].me
    ensures Path(p.lsa) != [] ==>
              exists q :: q in run[k].nodes[n].adj && FromPeer(c, n, q, run[k].nodes[n].adj[q], p)
    ensures NoEmptySet(p.lsa.attrs)
  {
    hide IsRun, Stored, Exact, FromPeer;
    AlwaysSound(c, run, actions, k);
    var x := run[k].nodes[n];
    assert SoundNode(c, n, x);
    StoredSound(c, n, x, p);
    if p != x.me {
      var q :| q in x.adj && FromPeer(c, n, q, x.adj[q], p);
      FromPeerPath(c, n, q, x.adj[q], p);
    }
  }

  /**
   * In every run, no LSA is sent to a node its path went through: every one under way from `m`
   * to `n`, and every one in a store, has the sender in front and then a path without `n`.
   */
  lemma NothingReturns(c: Crypto, run: seq<Net>, actions: seq<(NodeId, Action)>, k: nat, m: NodeId, n: NodeId)
    requires IsRun(c, run, actions) && k < |run|
    ensures forall l | l in Chan(run[k], m, n) && l.attrs != [] ::
              HasPath(l) && Path(l) != [] && Path(l)[0] == m && n !in Path(l)[1..]
    ensures n in run[k].nodes && m in run[k].nodes[n].adj ==>
              forall id | id in run[k].nodes[n].adj[m] :: var l := run[k].nodes[n].adj[m][id].lsa;
                l.attrs != [] ==> HasPath(l) && Path(l) != [] && Path(l)[0] == m && n !in Path(l)[1..]
  {
    hide IsRun, HasPath, Path, SoundNode;
    AlwaysSound(c, run, actions, k);
    forall l | l in Chan(run[k], m, n) && l.attrs != []
      ensures HasPath(l) && Path(l) != [] && Path(l)[0] == m && n !in Path(l)[1..]
    {
      var i :| 0 <= i < |Chan(run[k], m, n)| && Chan(run[k], m, n)[i] == l;
      assert SoundFrom(m, n, Chan(run[k], m, n)[i]);
    }
    if n in run[k].nodes {
      StoreSound(c, n, run[k].nodes[n]);
    }
  }

  /**
   * In every run, once a node's recompute is done, the route of a reachable best of another node
   * goes by way of the connected peer that sent the LSA, or is attached if that peer is the
   * originator; the node's own LSA has no route.
   */
  lemma GatewayIsPeer(c: Crypto, run: seq<Net>, actions: seq<(NodeId, Action)>, k: nat, n: NodeId,
                      t: Table, known: iset<NodeId>, id: NodeId)
    requires IsRun(c, run, actions) && k < |run| && n in run[k].nodes
    requires RibOk(run[k].nodes[n].ids) && Cached(run[k].nodes[n].ids, Some(n))
    requires Matches(Some(n), t, Bests(run[k].nodes[n].ids))
    requires Injective(known) && (forall y | y in Bests(run[k].nodes[n].ids) :: y in known)
    requires id in Bests(run[k].nodes[n].ids)
    ensures var x := run[k].nodes[n]; var (o, cost) := Bests(x.ids)[id];
            && (GlobalAddr(id) in t <==> o != x.me && cost != RIB_COST_UNREACHABLE)
            && (o != x.me ==> exists q :: q in x.adj && FromPeer(c, n, q, x.adj[q], o)
                                         && (GlobalAddr(id) in t ==>
                                               t[GlobalAddr(id)] == if q == id then None else Some(GlobalAddr(q))))
  {
    hide IsRun, Stored, FromPeer, Matches, Injective, GlobalAddr, Cached, RibOk, HasPath, Path;
    var x := run[k].nodes[n];
    var o := Bests(x.ids)[id].0;
    StoredBest(x.ids, Some(n), id);
    NoLoops(c, run, actions, k, n, o);
    RouteOfPath(Some(n), t, Bests(x.ids), known, id, Path(o.lsa));
    if o != x.me {
      var q :| q in x.adj && FromPeer(c, n, q, x.adj[q], o);
      FromPeerPath(c, n, q, x.adj[q], o);
    }
  }

  lemma StoredBest(ids: Ids, myid: Option<NodeId>, id: NodeId)
    requires RibOk(ids) && Cached(ids, myid) && id in Bests(ids)
    ensures Stored(ids, Bests(ids)[id].0) && Bests(ids)[id].0.lsa.id == id
    ensures Storables(Bests(ids))
  {
    hide Storable, Select, Ascending;
    CachedIsBest(ids, myid, id);
    forall y | y in ids ensures RidOk(ids[y], y) {}
  }

  lemma StoreSound(c: Crypto, n: NodeId, x: Node)
    requires SoundNode(c, n, x)
    ensures forall q, id | q in x.adj && id in x.adj[q] :: SoundFrom(q, n, x.adj[q][id].lsa)
  {
  }

  lemma FromPeerPath(c: Crypto, n: NodeId, q: NodeId, store: Store, p: Obj)
    requires FromPeer(c, n, q, store, p)
    ensures HasPath(p.lsa) && Path(p.lsa) != [] && Path(p.lsa)[0] == q
  {
  }

  /** The same holds of the bests, which may be older than the store, and so of what is advertised. */
  lemma BestsSound(c: Crypto, run: seq<Net>, actions: seq<(NodeId, Action)>, k: nat, n: NodeId, id: NodeId)
    requires IsRun(c, run, actions) && k < |run| && n in run[k].nodes && id in Bests(run[k].nodes[n].ids)
    ensures Sound(n, Bests(run[k].nodes[n].ids)[id].0.lsa)
  {
    hide IsRun;
    AlwaysSound(c, run, actions, k);
    assert SoundNode(c, n, run[k].nodes[n]);
  }

  /** In a network of such nodes no LSA that is held or under way has an empty set: dropping any of them is safe. */
  lemma DropsAreSafe(c: Crypto, run: seq<Net>, actions: seq<(NodeId, Action)>, k: nat)
    requires IsRun(c, run, actions) && k < |run|
    ensures forall n, p | n in run[k].nodes && Holds(run[k].nodes[n].ids, p) :: NoEmptySet(p.lsa.attrs)
    ensures forall n, q, id | n in run[k].nodes && q in run[k].nodes[n].adj && id in run[k].nodes[n].adj[q] ::
              NoEmptySet(run[k].nodes[n].adj[q][id].lsa.attrs)
    ensures forall m, n, i | 0 <= i < |Chan(run[k], m, n)| :: NoEmptySet(Chan(run[k], m, n)[i].attrs)
  {
    hide IsRun, Exact, Own, Chan;
    AlwaysSound(c, run, actions, k);
    forall n, p | n in run[k].nodes && Holds(run[k].nodes[n].ids, p) ensures NoEmptySet(p.lsa.attrs) {
      HeldSafe(c, n, run[k].nodes[n], p);
    }
    forall n | n in run[k].nodes ensures SoundNode(c, n, run[k].nodes[n]) {
    }
  }

  lemma HeldSafe(c: Crypto, n: NodeId, x: Node, p: Obj)
    requires SoundNode(c, n, x) && Holds(x.ids, p)
    ensures NoEmptySet(p.lsa.attrs)
  {
    hide Exact, Own, Stored;
    if Stored(x.ids, p) {
      StoredSound(c, n, x, p);
    } else {
      assert p.lsa.id in Bests(x.ids) && Bests(x.ids)[p.lsa.id].0 == p;
    }
  }
}
