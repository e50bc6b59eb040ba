/** `lsa_peer.c` and the path policy of `loc_rib.c`. */
module PathCost {
  import opened Bytes
  import opened Lsas
  import opened Routes
  import opened Graphs

  const LSA_PEER_ATTR_TYPE_METRIC: int := 1
  const LSA_PEER_ATTR_TYPE_PEER_FLAGS: int := 2

  const RIB_COST_UNREACHABLE: int := 0xffff_fffe
  const RIB_COST_INELIGIBLE: int := 0xffff_ffff

  /** An LSA object: its address tells it from others of the same contents. */
  datatype Obj = Obj(ptr: nat, lsa: Lsa)

  /** `loc_rib_id`; `lsas` is in the order of its tree. */
  datatype Rid = Rid(hvs: nat, lsas: seq<Obj>, best: Option<Obj>, bestcost: int)

  type Ids = map<NodeId, Rid>

  function BigEndian(s: seq<byte>): nat {
    if s == [] then 0 else BigEndian(s[..|s| - 1]) * 256 + s[|s| - 1]
  }

  /** `lsa_get_version`. */
  function Version(l: Lsa): nat {
    match Find(l.attrs, LSA_ATTR_TYPE_VERSION, [])
    case Some(a) => if a.signed && DataLen(a.data) == 8 then BigEndian(a.data.bytes) else 0
    case None => 0
  }

  datatype PeerInfo = PeerInfo(metric: nat, customer: bool, transit: bool)

  /** `lsa_get_peer_info`. */
  function GetPeerInfo(l: Lsa, peer: NodeId): Option<PeerInfo> {
    match Find(l.attrs, LSA_ATTR_TYPE_PEER, peer)
    case None => None
    case Some(a) =>
      if !a.signed || !a.data.Set? then None
      else
        var metric := match Find(a.data.attrs, LSA_PEER_ATTR_TYPE_METRIC, [])
          case Some(m) => if m.signed && DataLen(m.data) == 2 then BigEndian(m.data.bytes) else 1
          case None => 1;
        var flags := match Find(a.data.attrs, LSA_PEER_ATTR_TYPE_PEER_FLAGS, [])
          case Some(f) => if f.signed && DataLen(f.data) == 1 then f.data.bytes[0] else 0
          case None => 0;
        Some(PeerInfo(metric, flags % 2 == 1, (flags / 2) % 2 == 1))
  }

  /** `struct lsa_peer_info`. */
  class LsaPeerInfo {
    var metric: nat
    var flags: byte

    constructor ()
    {
      metric, flags := 0, 0;
    }

    predicate Customer()
      reads this
    {
      flags % 2 == 1
    }

    predicate Transit()
      reads this
    {
      (flags / 2) % 2 == 1
    }

    /** `lsa_get_peer_info`: fills the fields, with defaults for what is missing, unsigned or of the wrong size. */
    method Get(lsa: Lsa, peerid: NodeId) returns (ret: int)
      modifies this
      ensures ret == if GetPeerInfo(lsa, peerid) == None then -1 else 0
      ensures ret == 0 ==> GetPeerInfo(lsa, peerid) == Some(PeerInfo(metric, Customer(), Transit()))
    {
      var peer := Find(lsa.attrs, LSA_ATTR_TYPE_PEER, peerid);
      if peer == None || !peer.value.signed || !peer.value.data.Set? {
        return -1;
      }
      var attrs := peer.value.data.attrs;
      var attr := Find(attrs, LSA_PEER_ATTR_TYPE_METRIC, []);
      if attr.Some? && attr.value.signed && DataLen(attr.value.data) == 2 {
        metric := BigEndian(attr.value.data.bytes);
      } else {
        metric := 1;
      }
      attr := Find(attrs, LSA_PEER_ATTR_TYPE_PEER_FLAGS, []);
      if attr.Some? && attr.value.signed && DataLen(attr.value.data) == 1 {
        flags := attr.value.data.bytes[0];
      } else {
        flags := 0;
      }
      return 0;
    }
  }

  /** A peer set with a metric `hi lo` and flags: bit 0 marks a customer, bit 1 a transit. */
  lemma PeerInfoBytes(l: Lsa, peer: NodeId, hi: byte, lo: byte, flags: byte)
    requires Find(l.attrs, LSA_ATTR_TYPE_PEER, peer) ==
             Some(Attr(2, peer, true, Set([Attr(1, [], true, Plain([hi, lo])), Attr(2, [], true, Plain([flags]))])))
    ensures GetPeerInfo(l, peer) ==
            Some(PeerInfo(hi * 256 + lo, flags % 2 != 0, flags % 4 >= 2))
  {
    var s := [Attr(1, [], true, Plain([hi, lo])), Attr(2, [], true, Plain([flags]))];
    assert s[1..][0] == s[1];
    assert BigEndian([hi, lo]) == BigEndian([hi]) * 256 + lo && BigEndian([hi]) == hi;
  }

  /** What is missing, unsigned or of the wrong size: a metric counts as 1, flags as none; the set itself is needed. */
  lemma PeerDefaults(l: Lsa, peer: NodeId, s: Attr)
    requires Find(l.attrs, LSA_ATTR_TYPE_PEER, peer) == Some(s)
    ensures GetPeerInfo(l, peer).Some? <==> s.signed && s.data.Set?
    ensures s.signed && s.data.Set? ==>
              var r := GetPeerInfo(l, peer).value;
              && ((forall a | a in s.data.attrs && a.typ == 1 :: !a.signed || DataLen(a.data) != 2) ==> r.metric == 1)
              && ((forall a | a in s.data.attrs && a.typ == 2 :: !a.signed || DataLen(a.data) != 1) ==>
                    !r.customer && !r.transit)
  {
  }

  /** Without eight signed bytes the version counts as 0. */
  lemma VersionDefault(l: Lsa)
    requires forall a | a in l.attrs && a.typ == LSA_ATTR_TYPE_VERSION && a.key == [] ::
               !a.signed || DataLen(a.data) != 8
    ensures Version(l) == 0
  {
  }

  lemma MetricBound(l: Lsa, peer: NodeId)
    ensures GetPeerInfo(l, peer).Some? ==> GetPeerInfo(l, peer).value.metric <= 65535
  {
    var a := Find(l.attrs, LSA_ATTR_TYPE_PEER, peer);
    if a.Some? && a.value.data.Set? {
      var m := Find(a.value.data.attrs, LSA_PEER_ATTR_TYPE_METRIC, []);
      if m.Some? && DataLen(m.value.data) == 2 {
        var b := m.value.data.bytes;
        assert BigEndian(b) == BigEndian(b[..1]) * 256 + b[1] && BigEndian(b[..1]) == b[..1][0];
      }
    }
  }

  /** The tests at whose failure the path code aborts. */
  predicate HasPath(l: Lsa) {
    match Find(l.attrs, LSA_ATTR_TYPE_ADV_PATH, [])
    case Some(a) => DataLen(a.data) % NODE_ID_LEN == 0
    case None => false
  }

  function PathBytes(l: Lsa): (p: seq<byte>)
    requires HasPath(l)
    ensures |p| % NODE_ID_LEN == 0
  {
    Find(l.attrs, LSA_ATTR_TYPE_ADV_PATH, []).value.data.bytes
  }

  /** The node ids of a path. */
  function Hops(p: seq<byte>): (r: seq<NodeId>)
    requires |p| % NODE_ID_LEN == 0
    ensures |r| * NODE_ID_LEN == |p|
  {
    if p == [] then [] else [p[..NODE_ID_LEN]] + Hops(p[NODE_ID_LEN..])
  }

  function Path(l: Lsa): seq<NodeId>
    requires HasPath(l)
  {
    Hops(PathBytes(l))
  }

  /** `find_recent_lsa`: the last LSA of the tree, unless a newer version was seen. */
  function FindRecent(ids: Ids, id: NodeId): Option<Lsa> {
    if id !in ids || ids[id].lsas == [] then None
    else
      var l := ids[id].lsas[|ids[id].lsas| - 1].lsa;
      if Version(l) < ids[id].hvs then None else Some(l)
  }

  /** The loop of `lsa_path_cost`; `None` is RIB_COST_UNREACHABLE. */
  function Phase(ids: Ids, path: seq<NodeId>, from: Option<Lsa>, climbing: bool, cost: nat): Option<nat> {
    if path == [] then Some(cost)
    else
      match FindRecent(ids, path[0])
      case None => None
      case Some(to) =>
        if from == None then Phase(ids, path[1..], Some(to), climbing, cost)
        else
          var forward := GetPeerInfo(from.value, to.id);
          var reverse := GetPeerInfo(to, from.value.id);
          if forward == None || reverse == None then None
          else if !climbing && !(forward.value.customer && reverse.value.transit) then None
          else Phase(ids, path[1..], Some(to),
                     climbing && forward.value.transit && reverse.value.customer, cost + forward.value.metric)
  }

  /** `lsa_path_cost` past its version test. */
  function Policy(ids: Ids, myid: Option<NodeId>, path: seq<NodeId>): Option<nat> {
    match myid
    case None => Phase(ids, path, None, true, 0)
    case Some(me) =>
      match FindRecent(ids, me)
      case None => None
      case Some(from) => Phase(ids, path, Some(from), true, 0)
  }

  /** `lsa_path_cost`. */
  function Cost(ids: Ids, myid: Option<NodeId>, rid: Rid, l: Lsa): int
    requires HasPath(l)
  {
    if Version(l) < rid.hvs then RIB_COST_INELIGIBLE
    else match Policy(ids, myid, Path(l)) case Some(c) => c case None => RIB_COST_UNREACHABLE
  }

  lemma HopsStep(p: seq<byte>)
    requires p != [] && |p| % NODE_ID_LEN == 0
    ensures |p| >= NODE_ID_LEN && Hops(p) == [p[..NODE_ID_LEN]] + Hops(p[NODE_ID_LEN..])
  {
    assert |p| >= NODE_ID_LEN;
    assert |p[..NODE_ID_LEN]| == NODE_ID_LEN && |p[NODE_ID_LEN..]| == |p| - NODE_ID_LEN;
    assert |p[NODE_ID_LEN..]| % NODE_ID_LEN == 0;
  }

  lemma PhaseEnd(ids: Ids, from: Option<Lsa>, climbing: bool, cost: nat)
    ensures Phase(ids, Hops([]), from, climbing, cost) == Some(cost)
  {
  }

  /** One turn of the phase machine. */
  lemma PhaseStep(ids: Ids, id: NodeId, rest: seq<NodeId>, from: Option<Lsa>, climbing: bool, cost: nat)
    ensures Phase(ids, [id] + rest, from, climbing, cost) ==
            match FindRecent(ids, id)
            case None => None
            case Some(to) =>
              if from == None then Phase(ids, rest, Some(to), climbing, cost)
              else
                var forward := GetPeerInfo(from.value, to.id);
                var reverse := GetPeerInfo(to, from.value.id);
                if forward == None || reverse == None then None
                else if !climbing && !(forward.value.customer && reverse.value.transit) then None
                else Phase(ids, rest, Some(to),
                           climbing && forward.value.transit && reverse.value.customer, cost + forward.value.metric)
  {
    hide FindRecent, GetPeerInfo;
    assert ([id] + rest)[1..] == rest;
  }

  /** `lsa_path_cost` as a loop over the bytes of the path. */
  method LsaPathCost(ids: Ids, myid: Option<NodeId>, rid: Rid, lsa: Lsa) returns (r: int)
    requires HasPath(lsa)
    ensures r == Cost(ids, myid, rid, lsa)
  {
    hide FindRecent, GetPeerInfo, Version, Hops, Phase;
    if Version(lsa) < rid.hvs {
      return RIB_COST_INELIGIBLE;
    }
    var path := PathBytes(lsa);
    var pathlen := |path|;
    var from: Option<Lsa> := None;
    if myid.Some? {
      from := FindRecent(ids, myid.value);
      if from == None {
        return RIB_COST_UNREACHABLE;
      }
    }
    var traversingTransits := true;
    var cost: nat := 0;
    var i := 0;
    assert path[0..] == path;
    while i < pathlen
      invariant 0 <= i <= pathlen && i % NODE_ID_LEN == 0
      invariant Phase(ids, Hops(path[i..]), from, traversingTransits, cost) == Policy(ids, myid, Hops(path))
      invariant 0 < i ==> from.Some?
    {
      HopsStep(path[i..]);
      ghost var rest := Hops(path[i + NODE_ID_LEN..]);
      assert path[i..][..NODE_ID_LEN] == path[i..i + NODE_ID_LEN];
      assert path[i..][NODE_ID_LEN..] == path[i + NODE_ID_LEN..];
      PhaseStep(ids, path[i..i + NODE_ID_LEN], rest, from, traversingTransits, cost);
      var id: NodeId := path[i..i + NODE_ID_LEN];
      i := i + NODE_ID_LEN;
      var to := FindRecent(ids, id);
      if to == None {
        return RIB_COST_UNREACHABLE;
      }
      if from == None {
        from := to;
        continue;
      }
      var forward := new LsaPeerInfo();
      var ret := forward.Get(from.value, to.value.id);
      if ret < 0 {
        return RIB_COST_UNREACHABLE;
      }
      var reverse := new LsaPeerInfo();
      ret := reverse.Get(to.value, from.value.id);
      if ret < 0 {
        return RIB_COST_UNREACHABLE;
      }
      if traversingTransits {
        if !forward.Transit() {
          traversingTransits := false;
        }
        if !reverse.Customer() {
          traversingTransits := false;
        }
      } else {
        if !forward.Customer() {
          return RIB_COST_UNREACHABLE;
        }
        if !reverse.Transit() {
          return RIB_COST_UNREACHABLE;
        }
      }
      cost := cost + forward.metric;
      from := to;
    }
    assert path[i..] == [];
    PhaseEnd(ids, from, traversingTransits, cost);
    return cost;
  }

  // ------------------------------------------------- the policy against the layered graph

  /** Every LSA is filed under its own id. */
  ghost predicate Filed(ids: Ids) {
    forall id, i | id in ids && 0 <= i < |ids[id].lsas| :: ids[id].lsas[i].lsa.id == id
  }

  /** The peer type a hop has when both ends' flags are taken together. */
  function HopType(forward: PeerInfo, reverse: PeerInfo): PeerType {
    var up := forward.transit && reverse.customer;
    var down := forward.customer && reverse.transit;
    if up && down then IPEER else if up then TRANSIT else if down then CUSTOMER else EPEER
  }

  /** The link from `x` to `y`, if both LSAs are known and list each other. */
  function Hop(ids: Ids, x: NodeId, y: NodeId): Option<Link<NodeId>> {
    match FindRecent(ids, x)
    case None => None
    case Some(from) =>
      match FindRecent(ids, y)
      case None => None
      case Some(to) =>
        var forward, reverse := GetPeerInfo(from, y), GetPeerInfo(to, x);
        if forward == None || reverse == None then None
        else Some(Link(x, y, HopType(forward.value, reverse.value), forward.value.metric))
  }

  /** `links` holds exactly the links of the RIB. */
  ghost predicate LinksOf(ids: Ids, links: seq<Link<NodeId>>) {
    && (forall l | l in links :: Hop(ids, l.from, l.to) == Some(l))
    && (forall x, y | x in ids && y in ids && Hop(ids, x, y).Some? :: Hop(ids, x, y).value in links)
  }

  /** A valley-free route over the RIB's links through exactly the nodes of `path`. */
  ghost predicate Realises(links: seq<Link<NodeId>>, s: NodeId, path: seq<NodeId>, r: seq<Link<NodeId>>) {
    IsRoute(links, s, r) && Stops(r) == path && ValleyFree(r)
  }

  /** One turn of the machine, in terms of links. */
  lemma PhaseHop(ids: Ids, x: NodeId, y: NodeId, rest: seq<NodeId>, climbing: bool, cost: nat)
    requires Filed(ids) && FindRecent(ids, x).Some?
    ensures Hop(ids, x, y) == None ==> Phase(ids, [y] + rest, FindRecent(ids, x), climbing, cost) == None
    ensures Hop(ids, x, y).Some? ==>
              var l := Hop(ids, x, y).value;
              && l.from == x && l.to == y && 0 <= l.cost && FindRecent(ids, y).Some?
              && Phase(ids, [y] + rest, FindRecent(ids, x), climbing, cost) ==
                 if !climbing && !Descends(l.typ) then None
                 else Phase(ids, rest, FindRecent(ids, y), climbing && Climbs(l.typ), cost + l.cost)
  {
    hide FindRecent, GetPeerInfo, Phase;
    PhaseStep(ids, y, rest, FindRecent(ids, x), climbing, cost);
    RecentId(ids, x);
    RecentId(ids, y);
  }

  lemma RecentId(ids: Ids, x: NodeId)
    requires Filed(ids)
    ensures FindRecent(ids, x).Some? ==> x in ids && FindRecent(ids, x).value.id == x
  {
  }

  /** The state of the phase machine after the hops of `r`. */
  lemma {:induction false} PhaseFollows(ids: Ids, links: seq<Link<NodeId>>, s: NodeId, r: seq<Link<NodeId>>,
                                        rest: seq<NodeId>)
    requires Filed(ids) && LinksOf(ids, links) && FindRecent(ids, s).Some?
    requires IsRoute(links, s, r) && ValleyFree(r)
    ensures FindRecent(ids, RouteEnd(s, r)).Some? && RouteCost(r) >= 0
    ensures Phase(ids, Stops(r) + rest, FindRecent(ids, s), true, 0) ==
            Phase(ids, rest, FindRecent(ids, RouteEnd(s, r)), Climb(r), RouteCost(r))
    decreases |r|
  {
    hide FindRecent, Phase, Hop, ValleyFree, Filed;
    if r == [] {
      assert Stops(r) + rest == rest;
    } else {
      var q, l := r[..|r| - 1], r[|r| - 1];
      RoutePrefix(r);
      PhaseFollows(ids, links, s, q, [l.to] + rest);
      assert Stops(r) + rest == Stops(q) + ([l.to] + rest);
      assert Hop(ids, l.from, l.to) == Some(l);
      PhaseHop(ids, l.from, l.to, rest, Climb(q), RouteCost(q));
      ClimbStep(r);
    }
  }

  lemma RoutePrefix(r: seq<Link<NodeId>>)
    requires r != [] && ValleyFree(r)
    ensures ValleyFree(r[..|r| - 1])
    ensures Climb(r[..|r| - 1]) || Descends(r[|r| - 1].typ)
  {
    if Climb(r) {
      ClimbStep(r);
    } else {
      ValleyFreePrefix(r);
    }
    if Climb(r[..|r| - 1]) {
      ClimbIsValleyFree(r[..|r| - 1]);
    }
  }

  lemma ClimbStep(r: seq<Link<NodeId>>)
    requires r != []
    ensures Climb(r) <==> Climb(r[..|r| - 1]) && Climbs(r[|r| - 1].typ)
  {
    var q := r[..|r| - 1];
    if Climb(q) && Climbs(r[|r| - 1].typ) {
      forall k | 0 <= k < |r| ensures Climbs(r[k].typ) {
        if k < |q| { assert r[k] == q[k]; }
      }
    }
  }

  /** A run of the machine that accepts has walked a valley-free route of its cost. */
  lemma {:induction false} PhaseAccepts(ids: Ids, links: seq<Link<NodeId>>, s: NodeId, r: seq<Link<NodeId>>,
                                        rest: seq<NodeId>)
    returns (whole: seq<Link<NodeId>>)
    requires Filed(ids) && LinksOf(ids, links) && FindRecent(ids, s).Some?
    requires IsRoute(links, s, r) && ValleyFree(r)
    requires Phase(ids, Stops(r) + rest, FindRecent(ids, s), true, 0).Some?
    ensures Realises(links, s, Stops(r) + rest, whole)
    ensures Phase(ids, Stops(r) + rest, FindRecent(ids, s), true, 0) == Some(RouteCost(whole))
    decreases |rest|
  {
    hide FindRecent, Phase, Hop, ValleyFree, Filed;
    PhaseFollows(ids, links, s, r, rest);
    if rest == [] {
      whole := r;
      assert Stops(r) + rest == Stops(r);
      PhaseNothing(ids, FindRecent(ids, RouteEnd(s, r)), Climb(r), RouteCost(r));
    } else {
      var x, y := RouteEnd(s, r), rest[0];
      assert rest == [y] + rest[1..];
      PhaseHop(ids, x, y, rest[1..], Climb(r), RouteCost(r));
      KnownIds(ids, x, y);
      var l := Hop(ids, x, y).value;
      ExtendRoute(links, s, r, l);
      ValleyFreeExtend(r, l);
      assert (r + [l])[..|r|] == r;
      assert Stops(r + [l]) + rest[1..] == Stops(r) + rest;
      whole := PhaseAccepts(ids, links, s, r + [l], rest[1..]);
    }
  }

  lemma PhaseNothing(ids: Ids, from: Option<Lsa>, climbing: bool, cost: nat)
    ensures Phase(ids, [], from, climbing, cost) == Some(cost)
  {
  }

  lemma KnownIds(ids: Ids, x: NodeId, y: NodeId)
    ensures Hop(ids, x, y).Some? ==>
              x in ids && y in ids && var t := Hop(ids, x, y).value.typ; Climbs(t) || Descends(t) || t == EPEER
  {
  }

  /**
   * The policy on a path, started at a known node, accepts exactly the paths that some
   * valley-free route over the RIB's links takes, at the cost of that route.
   */
  lemma PolicyAgrees(ids: Ids, links: seq<Link<NodeId>>, me: NodeId, path: seq<NodeId>, c: nat)
    requires Filed(ids) && LinksOf(ids, links) && FindRecent(ids, me).Some?
    ensures Policy(ids, Some(me), path) == Some(c) <==>
            exists r :: Realises(links, me, path, r) && RouteCost(r) == c
  {
    hide FindRecent, Phase, Filed, LinksOf;
    if Policy(ids, Some(me), path) == Some(c) {
      var none: seq<Link<NodeId>> := [];
      ClimbIsValleyFree(none);
      assert Stops(none) + path == path;
      var r := PhaseAccepts(ids, links, me, none, path);
    }
    if exists r :: Realises(links, me, path, r) && RouteCost(r) == c {
      var r :| Realises(links, me, path, r) && RouteCost(r) == c;
      PhaseFollows(ids, links, me, r, []);
      assert Stops(r) + [] == path;
      PhaseNothing(ids, FindRecent(ids, RouteEnd(me, r)), Climb(r), RouteCost(r));
    }
  }

  /** Without an own id the path starts at its first node. */
  lemma PolicyAgreesWithoutSelf(ids: Ids, links: seq<Link<NodeId>>, path: seq<NodeId>, c: nat)
    requires Filed(ids) && LinksOf(ids, links)
    ensures Policy(ids, None, path) == Some(c) <==>
            if path == [] then c == 0
            else FindRecent(ids, path[0]).Some?
                 && exists r :: Realises(links, path[0], path[1..], r) && RouteCost(r) == c
  {
    hide Realises, LinksOf, Filed;
    if path != [] && FindRecent(ids, path[0]).Some? {
      PolicyAgrees(ids, links, path[0], path[1..], c);
    }
  }

  /**
   * The same over the two-layer graph: the accepted paths are exactly those that some walk
   * from layer A of this node to layer B visits, at the cost of that walk.
   */
  lemma PolicyAgreesWithLayers(ids: Ids, links: seq<Link<NodeId>>, me: NodeId, path: seq<NodeId>, c: nat)
    requires Filed(ids) && LinksOf(ids, links) && FindRecent(ids, me).Some?
    ensures Policy(ids, Some(me), path) == Some(c) <==>
            exists w :: && IsWalk(LayerGraph(ids.Keys, links), A(me), w) && End(A(me), w).B?
                        && Visits(links, A(me), w, path) && Graphs.Cost(w) == c
  {
    hide FindRecent, Policy, LinksOf, LayerGraph, ValleyFree, Visits, IsWalk, End;
    PolicyAgrees(ids, links, me, path, c);
    RecentId(ids, me);
    LinksInside(ids, links);
    var g := LayerGraph(ids.Keys, links);
    if Policy(ids, Some(me), path) == Some(c) {
      var r :| Realises(links, me, path, r) && RouteCost(r) == c;
      var w := RouteToWalk(ids.Keys, links, me, r);
    }
    if exists w :: IsWalk(g, A(me), w) && End(A(me), w).B? && Visits(links, A(me), w, path) && Graphs.Cost(w) == c {
      var w :| IsWalk(g, A(me), w) && End(A(me), w).B? && Visits(links, A(me), w, path) && Graphs.Cost(w) == c;
      var r := WalkToRoute(ids.Keys, links, me, w, path);
      assert Realises(links, me, path, r);
    }
  }

  /**
   * No accepted path is cheaper than the constrained shortest path: it is itself a walk of
   * its cost through the two-layer graph.
   */
  lemma PolicyNotBelowCspf(ids: Ids, links: seq<Link<NodeId>>, me: NodeId, path: seq<NodeId>, c: nat)
    requires Filed(ids) && LinksOf(ids, links) && FindRecent(ids, me).Some?
    requires Policy(ids, Some(me), path) == Some(c)
    ensures HasWalk(LayerGraph(ids.Keys, links), A(me), B(PathEnd(me, path)), c)
    ensures forall d :: LeastCost(LayerGraph(ids.Keys, links), A(me), B(PathEnd(me, path)), d) ==> d <= c
  {
    hide FindRecent, Policy, LinksOf, LayerGraph, ValleyFree;
    PolicyAgrees(ids, links, me, path, c);
    var r :| Realises(links, me, path, r) && RouteCost(r) == c;
    RecentId(ids, me);
    LinksInside(ids, links);
    StopsEnd(me, r);
    var w := RouteToWalk(ids.Keys, links, me, r);
    assert HasWalk(LayerGraph(ids.Keys, links), A(me), B(PathEnd(me, path)), c);
  }

  function PathEnd(me: NodeId, path: seq<NodeId>): NodeId {
    if path == [] then me else path[|path| - 1]
  }

  lemma {:induction false} StopsEnd(s: NodeId, r: seq<Link<NodeId>>)
    ensures |Stops(r)| == |r|
    ensures RouteEnd(s, r) == PathEnd(s, Stops(r))
  {
    if r != [] {
      StopsEnd(s, r[..|r| - 1]);
    }
  }

  lemma LinksInside(ids: Ids, links: seq<Link<NodeId>>)
    requires LinksOf(ids, links)
    ensures LinksWithin(ids.Keys, links)
  {
    forall k | 0 <= k < |links| ensures links[k].from in ids && links[k].to in ids {
      assert links[k] in links;
    }
  }

  /** At most one link per ordered pair of nodes. */
  ghost predicate OnePerPair(links: seq<Link<NodeId>>) {
    forall i, j | 0 <= i < j < |links| :: (links[i].from, links[i].to) != (links[j].from, links[j].to)
  }

  /** The links between the pairs of `pairs`. */
  lemma {:induction false} LinksAmong(ids: Ids, pairs: set<(NodeId, NodeId)>) returns (links: seq<Link<NodeId>>)
    ensures forall l | l in links :: (l.from, l.to) in pairs && Hop(ids, l.from, l.to) == Some(l)
    ensures forall p | p in pairs && Hop(ids, p.0, p.1).Some? :: Hop(ids, p.0, p.1).value in links
    ensures OnePerPair(links)
    decreases |pairs|
  {
    if pairs == {} {
      links := [];
    } else {
      var p :| p in pairs;
      var rest := LinksAmong(ids, pairs - {p});
      var h := Hop(ids, p.0, p.1);
      links := if h.Some? then rest + [h.value] else rest;
    }
  }

  /** Every RIB has a list of exactly its links, one for each pair of nodes that list each other. */
  lemma LinksExist(ids: Ids) returns (links: seq<Link<NodeId>>)
    ensures LinksOf(ids, links) && OnePerPair(links)
  {
    hide Hop, OnePerPair;
    var pairs := set x, y | x in ids && y in ids :: (x, y);
    links := LinksAmong(ids, pairs);
    forall x, y | x in ids && y in ids && Hop(ids, x, y).Some? ensures Hop(ids, x, y).value in links {
      assert (x, y) in pairs;
      assert Hop(ids, (x, y).0, (x, y).1).Some?;
    }
  }

  /** Path costs stay clear of the two marks, and of the range of `int`. */
  lemma {:induction false} PhaseBound(ids: Ids, path: seq<NodeId>, from: Option<Lsa>, climbing: bool, cost: nat)
    ensures match Phase(ids, path, from, climbing, cost)
            case Some(c) => cost <= c <= cost + 65535 * |path|
            case None => true
  {
    hide GetPeerInfo, FindRecent;
    if path != [] && FindRecent(ids, path[0]).Some? {
      var to := FindRecent(ids, path[0]).value;
      if from == None {
        PhaseBound(ids, path[1..], Some(to), climbing, cost);
      } else {
        var forward, reverse := GetPeerInfo(from.value, to.id), GetPeerInfo(to, from.value.id);
        MetricBound(from.value, to.id);
        if forward.Some? && reverse.Some? {
          PhaseBound(ids, path[1..], Some(to), climbing && forward.value.transit && reverse.value.customer,
                     cost + forward.value.metric);
        }
      }
    }
  }

  lemma CostBound(ids: Ids, myid: Option<NodeId>, rid: Rid, l: Lsa)
    requires HasPath(l) && |PathBytes(l)| <= 32768
    ensures var c := Cost(ids, myid, rid, l);
            0 <= c <= 0x7fff_ffff || c == RIB_COST_UNREACHABLE || c == RIB_COST_INELIGIBLE
    ensures Cost(ids, myid, rid, l) == RIB_COST_INELIGIBLE <==> Version(l) < rid.hvs
    ensures Cost(ids, myid, rid, l) == RIB_COST_UNREACHABLE <==>
            Version(l) >= rid.hvs && Policy(ids, myid, Path(l)) == None
  {
    var path := Path(l);
    PhaseBound(ids, path, None, true, 0);
    if myid.Some? && FindRecent(ids, myid.value).Some? {
      PhaseBound(ids, path, Some(FindRecent(ids, myid.value).value), true, 0);
    }
  }
}
