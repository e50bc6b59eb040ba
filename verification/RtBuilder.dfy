/** `rt_builder.c`: the routing table, kept up to date from the events of the Loc-RIB. */
module RtBuilder {
  import opened Bytes
  import opened Lsas
  import opened Codec
  import opened PathCost
  import opened LocRib

  type Addr = s: seq<byte> | |s| == 16 witness seq(16, _ => 0)

  /** `v6_global_addr_from_key_id`: the prefix, then the middle 12 bytes of the id. */
  function GlobalAddr(id: NodeId): Addr {
    [0x20, 0x01, 0x00, 0x2f] + id[(NODE_ID_LEN - 12) / 2..][..12]
  }

  /** Routes by destination; `None` is a directly attached one. */
  type Table = map<Addr, Option<Addr>>

  /** The hops beyond this node. */
  function Beyond(myid: Option<NodeId>, path: seq<NodeId>): seq<NodeId> {
    if myid.Some? && path != [] && path[0] == myid.value then path[1..] else path
  }

  /** A reachable LSA that leads away from this node gets a route. */
  predicate Routed(myid: Option<NodeId>, l: Lsa, cost: int)
    requires HasPath(l)
  {
    cost != RIB_COST_UNREACHABLE && Beyond(myid, Path(l)) != []
  }

  function NextHop(myid: Option<NodeId>, l: Lsa): Option<Addr>
    requires HasPath(l) && Beyond(myid, Path(l)) != []
  {
    var hops := Beyond(myid, Path(l));
    if |hops| == 1 then None else Some(GlobalAddr(hops[0]))
  }

  ghost predicate Storables(v: View) {
    forall id | id in v :: Storable(v[id].0.lsa) && v[id].0.lsa.id == id && v[id].1 != RIB_COST_INELIGIBLE
  }

  predicate RoutedId(myid: Option<NodeId>, v: View, id: NodeId) {
    id in v && HasPath(v[id].0.lsa) && Routed(myid, v[id].0.lsa, v[id].1)
  }

  /** The table is the one computed from the bests in `v` alone. */
  ghost predicate Matches(myid: Option<NodeId>, t: Table, v: View) {
    Complete(myid, t, v) && Justified(myid, t, v)
  }

  ghost predicate Complete(myid: Option<NodeId>, t: Table, v: View) {
    forall id | RoutedId(myid, v, id) :: GlobalAddr(id) in t && t[GlobalAddr(id)] == NextHop(myid, v[id].0.lsa)
  }

  ghost predicate Justified(myid: Option<NodeId>, t: Table, v: View) {
    forall a | a in t :: exists id :: RoutedId(myid, v, id) && GlobalAddr(id) == a
  }

  ghost predicate Injective(known: iset<NodeId>) {
    forall x, y | x in known && y in known :: GlobalAddr(x) == GlobalAddr(y) ==> x == y
  }

  // ------------------------------------------------------------------ one event at a time

  /** The effect of one event on the table. */
  function Reroute(myid: Option<NodeId>, t: Table, v: View, e: Event): Table
    requires Storables(v) && Expected(v, e)
  {
    var id := EventId(e);
    var was, now := RoutedId(myid, v, id), RoutedId(myid, Apply(v, e), id);
    if now then t[GlobalAddr(id) := NextHop(myid, Apply(v, e)[id].0.lsa)]
    else if was then t - {GlobalAddr(id)}
    else t
  }

  lemma StorablesKept(v: View, e: Event)
    requires Storables(v) && Expected(v, e)
    ensures Storables(Apply(v, e))
  {
    hide Storable;
  }

  lemma ApplyElsewhere(myid: Option<NodeId>, v: View, e: Event, x: NodeId)
    requires x != EventId(e) && Expected(v, e)
    ensures RoutedId(myid, v, x) <==> RoutedId(myid, Apply(v, e), x)
    ensures x in v ==> x in Apply(v, e) && Apply(v, e)[x] == v[x]
  {
    hide HasPath, Routed, Storable;
  }

  lemma RerouteComplete(myid: Option<NodeId>, t: Table, v: View, e: Event, known: iset<NodeId>)
    requires Storables(v) && Expected(v, e) && Matches(myid, t, v)
    requires Injective(known) && EventId(e) in known && forall id | id in v :: id in known
    ensures Complete(myid, Reroute(myid, t, v, e), Apply(v, e))
  {
    hide Storable, HasPath, NextHop, GlobalAddr, Expected, Storables;
    var w, id, r := Apply(v, e), EventId(e), Reroute(myid, t, v, e);
    forall x | RoutedId(myid, w, x)
      ensures GlobalAddr(x) in r && r[GlobalAddr(x)] == NextHop(myid, w[x].0.lsa)
    {
      if x != id {
        ApplyElsewhere(myid, v, e, x);
        assert GlobalAddr(x) != GlobalAddr(id);
      }
    }
  }

  lemma RerouteJustified(myid: Option<NodeId>, t: Table, v: View, e: Event)
    requires Storables(v) && Expected(v, e) && Matches(myid, t, v)
    ensures Justified(myid, Reroute(myid, t, v, e), Apply(v, e))
  {
    hide Storable, HasPath, Routed, NextHop, GlobalAddr, Expected, Storables, Apply;
    var w, id, r := Apply(v, e), EventId(e), Reroute(myid, t, v, e);
    forall a | a in r ensures exists x :: RoutedId(myid, w, x) && GlobalAddr(x) == a {
      if a == GlobalAddr(id) && RoutedId(myid, w, id) {
      } else {
        var x :| RoutedId(myid, v, x) && GlobalAddr(x) == a;
        ApplyElsewhere(myid, v, e, x);
      }
    }
  }

  // ----------------------------------------------------------------------------- whole runs

  /** The table after the events of a run. */
  ghost function Build(myid: Option<NodeId>, es: seq<Event>): Table
    requires Orderly(map[], es)
  {
    if es == [] then map[]
    else
      var before := es[..|es| - 1];
      ViewStorable(before);
      Reroute(myid, Build(myid, before), Follow(map[], before), es[|es| - 1])
  }

  lemma {:induction false} ViewStorable(es: seq<Event>)
    requires Orderly(map[], es)
    ensures Storables(Follow(map[], es))
  {
    if es != [] {
      ViewStorable(es[..|es| - 1]);
      StorablesKept(Follow(map[], es[..|es| - 1]), es[|es| - 1]);
    }
  }

  lemma {:induction false} ViewWithin(es: seq<Event>, known: iset<NodeId>)
    requires Orderly(map[], es) && Within(es, known)
    ensures forall id | id in Follow(map[], es) :: id in known
  {
    if es != [] {
      ViewWithin(es[..|es| - 1], known);
    }
  }

  /** In every run over ids with distinct addresses, the table equals a recomputation. */
  lemma {:induction false} BuildMatches(myid: Option<NodeId>, es: seq<Event>, known: iset<NodeId>)
    requires Orderly(map[], es) && Within(es, known) && Injective(known)
    ensures Matches(myid, Build(myid, es), Follow(map[], es))
  {
    hide Matches, Injective, Reroute, Storables, Expected;
    if es != [] {
      var before := es[..|es| - 1];
      BuildMatches(myid, before, known);
      ViewStorable(before);
      ViewWithin(before, known);
      MatchesStep(myid, Build(myid, before), Follow(map[], before), es[|es| - 1], known);
    } else {
      NothingMatches(myid);
    }
  }

  lemma MatchesStep(myid: Option<NodeId>, t: Table, v: View, e: Event, known: iset<NodeId>)
    requires Storables(v) && Expected(v, e) && Matches(myid, t, v)
    requires Injective(known) && EventId(e) in known && forall id | id in v :: id in known
    ensures Matches(myid, Reroute(myid, t, v, e), Apply(v, e))
  {
    RerouteComplete(myid, t, v, e, known);
    RerouteJustified(myid, t, v, e);
  }

  /**
   * The route of a best, read off its path `p` without an own id in front: attached if the
   * originator is the only hop left, else by way of the first hop; no route if nothing is left
   * or the best is unreachable.
   */
  lemma RouteOfPath(myid: Option<NodeId>, t: Table, v: View, known: iset<NodeId>, id: NodeId, p: seq<NodeId>)
    requires Storables(v) && Matches(myid, t, v) && Injective(known) && id in v && forall x | x in v :: x in known
    requires if myid.Some? && Path(v[id].0.lsa) != [] && Path(v[id].0.lsa)[0] == myid.value
             then Path(v[id].0.lsa) == [myid.value] + p else Path(v[id].0.lsa) == p
    ensures GlobalAddr(id) in t <==> v[id].1 != RIB_COST_UNREACHABLE && p != []
    ensures GlobalAddr(id) in t ==>
              t[GlobalAddr(id)] == if |p| == 1 then None else Some(GlobalAddr(p[0]))
  {
    hide Path, GlobalAddr, Justified, Injective, Storable;
    NoRoute(myid, t, v, known, id);
    StorablePath(v, id);
  }

  lemma StorablePath(v: View, id: NodeId)
    requires Storables(v) && id in v
    ensures HasPath(v[id].0.lsa)
  {
  }

  /** And every route is one of these. */
  lemma RouteHasBest(myid: Option<NodeId>, t: Table, v: View, a: Addr) returns (id: NodeId)
    requires Matches(myid, t, v) && a in t
    ensures id in v && GlobalAddr(id) == a && v[id].1 != RIB_COST_UNREACHABLE
  {
    id :| RoutedId(myid, v, id) && GlobalAddr(id) == a;
  }

  /** The address of an id: a fixed prefix, and its bytes 10 to 21; the others play no part. */
  lemma AddressBytes(x: NodeId, y: NodeId)
    ensures GlobalAddr(x)[..4] == [0x20, 0x01, 0x00, 0x2f] && GlobalAddr(x)[4..] == x[10..22]
    ensures GlobalAddr(x) == GlobalAddr(y) <==> x[10..22] == y[10..22]
  {
    assert x[10..][..12] == x[10..22] && y[10..][..12] == y[10..22];
    assert GlobalAddr(x)[4..] == x[10..22] && GlobalAddr(y)[4..] == y[10..22];
    assert GlobalAddr(x) == GlobalAddr(x)[..4] + GlobalAddr(x)[4..];
    assert GlobalAddr(y) == GlobalAddr(y)[..4] + GlobalAddr(y)[4..];
  }

  lemma NothingMatches(myid: Option<NodeId>)
    ensures Matches(myid, map[], map[])
  {
  }

  // ---------------------------------------------------------------- colliding addresses

  /** The table is right in every run over these ids. */
  ghost predicate AlwaysMatches(myid: Option<NodeId>, known: iset<NodeId>) {
    forall es {:trigger Within(es, known)} | Orderly(map[], es) && Within(es, known) ::
      Matches(myid, Build(myid, es), Follow(map[], es))
  }

  function TwoHops(ptr: nat, id: NodeId): (o: Obj)
    ensures o.ptr == ptr && o.lsa.id == id
  {
    Obj(ptr, Lsa(id, [Attr(LSA_ATTR_TYPE_ADV_PATH, [], false, Plain(id + id))]))
  }

  lemma TwoHopsRouted(myid: Option<NodeId>, ptr: nat, id: NodeId)
    ensures Storable(TwoHops(ptr, id).lsa) && Routed(myid, TwoHops(ptr, id).lsa, 0)
  {
    var l := TwoHops(ptr, id).lsa;
    var a := l.attrs[0];
    assert l.attrs[1..] == [];
    assert SetSize(l.attrs) == DeepSize(a) + SetSize(l.attrs[1..]);
    assert RegularAttr(a, MAX_DEPTH);
    HopsStep(PathBytes(l));
    HopsStep(PathBytes(l)[NODE_ID_LEN..]);
  }

  /** Two ids with one address: withdrawing the first takes the route of the second along. */
  lemma CollisionBreaks(myid: Option<NodeId>, x: NodeId, y: NodeId) returns (es: seq<Event>)
    requires x != y && GlobalAddr(x) == GlobalAddr(y)
    ensures Orderly(map[], es) && Within(es, iset{x, y}) && !Matches(myid, Build(myid, es), Follow(map[], es))
  {
    hide Storable, HasPath, Routed, NextHop, GlobalAddr;
    var ox, oy := TwoHops(1, x), TwoHops(2, y);
    TwoHopsRouted(myid, 1, x);
    TwoHopsRouted(myid, 2, y);
    var e, f, g := AddEv(ox, 0), AddEv(oy, 0), DelEv(ox, 0);
    RunStep(myid, [], e);
    RunStep(myid, [e], f);
    RunStep(myid, [e] + [f], g);
    es := [e] + [f] + [g];
    assert RoutedId(myid, Follow(map[], es), y);
    assert GlobalAddr(y) !in Build(myid, es);
  }

  /** Two ids that differ in their first byte only have one address. */
  lemma CollidingIds() returns (x: NodeId, y: NodeId)
    ensures x != y && GlobalAddr(x) == GlobalAddr(y)
  {
    x := seq(NODE_ID_LEN, _ => 0);
    y := [1] + seq(NODE_ID_LEN - 1, _ => 0);
    assert x[0] != y[0];
    assert x[(NODE_ID_LEN - 12) / 2..][..12] == y[(NODE_ID_LEN - 12) / 2..][..12];
  }

  lemma RunStep(myid: Option<NodeId>, es: seq<Event>, e: Event)
    requires Orderly(map[], es) && Expected(Follow(map[], es), e)
    ensures Orderly(map[], es + [e]) && Follow(map[], es + [e]) == Apply(Follow(map[], es), e)
    ensures Storables(Follow(map[], es))
    ensures Build(myid, es + [e]) == Reroute(myid, Build(myid, es), Follow(map[], es), e)
  {
    hide Expected, Reroute, Storables;
    assert (es + [e])[..|es|] == es;
    ViewStorable(es);
  }

  /** So distinct addresses are exactly what the incremental table needs. */
  lemma MatchesIffInjective(myid: Option<NodeId>, known: iset<NodeId>)
    ensures AlwaysMatches(myid, known) <==> Injective(known)
  {
    hide Matches, GlobalAddr, Expected;
    if Injective(known) {
      forall es | Orderly(map[], es) && Within(es, known) ensures Matches(myid, Build(myid, es), Follow(map[], es)) {
        BuildMatches(myid, es, known);
      }
    } else {
      var x, y :| x in known && y in known && GlobalAddr(x) == GlobalAddr(y) && x != y;
      var es := CollisionBreaks(myid, x, y);
      assert Within(es, known);
    }
  }

  // -------------------------------------------------------------------------- the builder

  /** A destination without a routed id has no route. */
  lemma NoRoute(myid: Option<NodeId>, t: Table, v: View, known: iset<NodeId>, id: NodeId)
    requires Matches(myid, t, v) && Injective(known) && id in known && forall x | x in v :: x in known
    ensures !RoutedId(myid, v, id) ==> GlobalAddr(id) !in t
  {
    hide HasPath, Routed, NextHop, GlobalAddr;
  }

  /** `struct rt_builder` with the table its callbacks maintain. */
  class RtBuilder {
    const myid: Option<NodeId>
    var table: Table
    ghost var view: View
    ghost const known: iset<NodeId>

    ghost predicate Valid()
      reads this
    {
      Storables(view) && Matches(myid, table, view) && Injective(known) && forall id | id in view :: id in known
    }

    constructor (myid: Option<NodeId>, ghost known: iset<NodeId>)
      requires Injective(known)
      ensures Valid() && this.myid == myid && this.known == known && view == map[] && table == map[]
    {
      this.myid := myid;
      this.known := known;
      view := map[];
      table := map[];
    }

    method Map(l: Lsa, cost: int) returns (r: bool)
      requires Storable(l) && cost != RIB_COST_INELIGIBLE
      ensures r <==> Routed(myid, l, cost)
    {
      if cost == RIB_COST_UNREACHABLE {
        return false;
      }
      var path := PathBytes(l);
      if path == [] {
        return false;
      }
      HopsStep(path);
      if myid.Some? && |path| == NODE_ID_LEN && path[..NODE_ID_LEN] == myid.value {
        return false;
      }
      return true;
    }

    /** The abort for a path that is over is not reached. */
    method GetNh(l: Lsa) returns (nh: Option<Addr>)
      requires Storable(l) && Beyond(myid, Path(l)) != []
      ensures nh == NextHop(myid, l)
      ensures var own := myid.Some? && Path(l)[0] == myid.value;
              nh == if own then (if |Path(l)| == 2 then None else Some(GlobalAddr(Path(l)[1])))
                    else if |Path(l)| == 1 then None else Some(GlobalAddr(Path(l)[0]))
    {
      var advPath := PathBytes(l);
      HopsStep(advPath);
      if myid.Some? && |advPath| >= NODE_ID_LEN && advPath[..NODE_ID_LEN] == myid.value {
        advPath := advPath[NODE_ID_LEN..];
        HopsStep(advPath);
      }
      if |advPath| == NODE_ID_LEN {
        return None;
      }
      return Some(GlobalAddr(advPath[..NODE_ID_LEN]));
    }

    method RtAdd(dest: Addr, nh: Option<Addr>)
      requires dest !in table
      modifies this`table
      ensures table == old(table)[dest := nh]
    {
      table := table[dest := nh];
    }

    method RtMod(dest: Addr, nhold: Option<Addr>, nhnew: Option<Addr>)
      requires dest in table && table[dest] == nhold
      modifies this`table
      ensures table == old(table)[dest := nhnew]
    {
      if nhold == None && nhnew == None {
        return;
      }
      if nhold.Some? && nhnew.Some? && nhold.value == nhnew.value {
        return;
      }
      table := table[dest := nhnew];
    }

    method RtDel(dest: Addr, nh: Option<Addr>)
      requires dest in table && table[dest] == nh
      modifies this`table
      ensures table == old(table) - {dest}
    {
      table := table - {dest};
    }

    /** `lsa_add`. */
    method LsaAdd(a: Obj, cost: int)
      requires Valid() && Expected(view, AddEv(a, cost)) && EventId(AddEv(a, cost)) in known
      modifies this
      ensures Valid() && view == Apply(old(view), AddEv(a, cost))
      ensures table == Reroute(myid, old(table), old(view), AddEv(a, cost))
    {
      hide HasPath, NextHop, GlobalAddr, Justified, Beyond, Injective, Path;
      ghost var e := AddEv(a, cost);
      NoRoute(myid, table, view, known, EventId(e));
      MatchesStep(myid, table, view, e, known);
      StorablesKept(view, e);
      var routed := Map(a.lsa, cost);
      if routed {
        var nh := GetNh(a.lsa);
        RtAdd(GlobalAddr(a.lsa.id), nh);
      }
      view := Apply(view, e);
    }

    /** `lsa_mod`. */
    method LsaMod(a: Obj, acost: int, b: Obj, bcost: int)
      requires Valid() && Expected(view, ModEv(a, acost, b, bcost)) && EventId(ModEv(a, acost, b, bcost)) in known
      modifies this
      ensures Valid() && view == Apply(old(view), ModEv(a, acost, b, bcost))
      ensures table == Reroute(myid, old(table), old(view), ModEv(a, acost, b, bcost))
    {
      hide HasPath, NextHop, GlobalAddr, Justified, Beyond, Injective, Path;
      ghost var e := ModEv(a, acost, b, bcost);
      NoRoute(myid, table, view, known, EventId(e));
      MatchesStep(myid, table, view, e, known);
      StorablesKept(view, e);
      var before := Map(a.lsa, acost);
      var after := Map(b.lsa, bcost);
      if !before && after {
        var nh := GetNh(b.lsa);
        RtAdd(GlobalAddr(b.lsa.id), nh);
      } else if before && after {
        var nhold := GetNh(a.lsa);
        var nhnew := GetNh(b.lsa);
        RtMod(GlobalAddr(b.lsa.id), nhold, nhnew);
      } else if before {
        var nh := GetNh(a.lsa);
        RtDel(GlobalAddr(a.lsa.id), nh);
      }
      view := Apply(view, e);
    }

    /** `lsa_del`. */
    method LsaDel(a: Obj, cost: int)
      requires Valid() && Expected(view, DelEv(a, cost)) && EventId(DelEv(a, cost)) in known
      modifies this
      ensures Valid() && view == Apply(old(view), DelEv(a, cost))
      ensures table == Reroute(myid, old(table), old(view), DelEv(a, cost))
    {
      hide HasPath, NextHop, GlobalAddr, Justified, Beyond, Injective, Path;
      ghost var e := DelEv(a, cost);
      NoRoute(myid, table, view, known, EventId(e));
      MatchesStep(myid, table, view, e, known);
      StorablesKept(view, e);
      var routed := Map(a.lsa, cost);
      if routed {
        var nh := GetNh(a.lsa);
        RtDel(GlobalAddr(a.lsa.id), nh);
      }
      view := Apply(view, e);
    }

    /** A run of events leaves the table that a recomputation from the new view gives. */
    method Listen(es: seq<Event>)
      requires Valid() && Orderly(view, es) && Within(es, known)
      modifies this
      ensures Valid() && view == Follow(old(view), es) && Matches(myid, table, view)
    {
      hide Matches, Expected, Storables, Injective;
      var i := 0;
      while i < |es|
        invariant 0 <= i <= |es|
        invariant Valid() && view == Follow(old(view), es[..i])
      {
        ghost var rest := es[i + 1..];
        assert es == es[..i + 1] + rest && es[..i + 1][..i] == es[..i];
        FollowSplit(old(view), es[..i + 1], rest);
        match es[i] {
          case AddEv(a, cost) => LsaAdd(a, cost);
          case ModEv(a, acost, b, bcost) => LsaMod(a, acost, b, bcost);
          case DelEv(a, cost) => LsaDel(a, cost);
        }
        i := i + 1;
      }
      assert es[..i] == es;
    }
  }
}
