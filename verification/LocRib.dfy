/** `loc_rib.c`: the best LSA of every id, kept up to date through events. */
module LocRib {
  import opened Bytes
  import opened Lsas
  import opened Codec
  import opened Accounting
  import opened Routes
  import opened PathCost
  import Graphs

  /** What `rib_listener` callbacks are told. */
  datatype Event =
    | AddEv(lsa: Obj, cost: int)
    | ModEv(old_: Obj, oldcost: int, new_: Obj, newcost: int)
    | DelEv(lsa: Obj, cost: int)

  /** `compare_lsas`: by version, then by address. */
  predicate ObjLess(a: Obj, b: Obj) {
    Version(a.lsa) < Version(b.lsa) || (Version(a.lsa) == Version(b.lsa) && a.ptr < b.ptr)
  }

  function InsertObj(s: seq<Obj>, o: Obj): seq<Obj> {
    if s == [] then [o]
    else if ObjLess(o, s[0]) then [o] + s
    else [s[0]] + InsertObj(s[1..], o)
  }

  function RemoveObj(s: seq<Obj>, o: Obj): seq<Obj> {
    if s == [] then []
    else if s[0] == o then s[1..]
    else [s[0]] + RemoveObj(s[1..], o)
  }

  /** What every stored LSA satisfies: the path code, the parser and the writer depend on it. */
  ghost predicate Storable(l: Lsa) {
    HasPath(l) && WithinLimit(l) && Regular(l.attrs, MAX_DEPTH)
  }

  lemma PathWithinSize(l: Lsa)
    requires HasPath(l)
    ensures |PathBytes(l)| <= LsaBytes(l)
  {
    var a := Find(l.attrs, LSA_ATTR_TYPE_ADV_PATH, []).value;
    MemberSize(l.attrs, a);
  }

  lemma {:induction false} MemberSize(attrs: seq<Attr>, a: Attr)
    requires a in attrs
    ensures DeepSize(a) <= SetSize(attrs)
  {
    hide DeepSize;
    if a != attrs[0] {
      MemberSize(attrs[1..], a);
    }
  }

  function EmptyRid(): Rid {
    Rid(0, [], None, RIB_COST_INELIGIBLE)
  }

  function RidOf(ids: Ids, id: NodeId): Rid {
    if id in ids then ids[id] else EmptyRid()
  }

  function Max(a: nat, b: nat): nat { if a < b then b else a }

  function PutRef(ids: Ids, rid: Rid, o: Obj): Ids {
    ids[o.lsa.id := rid.(lsas := InsertObj(rid.lsas, o))]
  }

  /** `loc_rib_add_lsa`. */
  function AddRef(ids: Ids, o: Obj): Ids {
    var rid := RidOf(ids, o.lsa.id);
    PutRef(ids, rid.(hvs := Max(rid.hvs, Version(o.lsa))), o)
  }

  /** `loc_rib_del_lsa`. */
  function DelRef(ids: Ids, o: Obj): Ids
    requires o.lsa.id in ids
  {
    var rid := ids[o.lsa.id];
    ids[o.lsa.id := rid.(lsas := RemoveObj(rid.lsas, o))]
  }

  /** `loc_rib_mod_lsa`, which leaves `highest_version_seen` alone. */
  function ModRef(ids: Ids, o: Obj, n: Obj): Ids
    requires o.lsa.id in ids && n.lsa.id == o.lsa.id
  {
    var mid := DelRef(ids, o);
    PutRef(mid, mid[n.lsa.id], n)
  }

  // ------------------------------------------------------------------------- selection

  /** `lsa_has_shorter_adv_path`. */
  predicate ShorterPath(a: Lsa, b: Option<Obj>)
    requires HasPath(a) && (b.Some? ==> HasPath(b.value.lsa))
  {
    b.Some? && |PathBytes(a)| < |PathBytes(b.value.lsa)|
  }

  /** The loop of `recompute_rid` after the first `n` LSAs. */
  function Select(ids: Ids, myid: Option<NodeId>, rid: Rid, n: nat): (Option<Obj>, int)
    requires n <= |rid.lsas| && forall i | 0 <= i < |rid.lsas| :: Storable(rid.lsas[i].lsa)
    ensures Select(ids, myid, rid, n).0.Some? ==> Storable(Select(ids, myid, rid, n).0.value.lsa)
  {
    if n == 0 then (None, RIB_COST_INELIGIBLE)
    else
      var (best, bestcost) := Select(ids, myid, rid, n - 1);
      var o := rid.lsas[n - 1];
      var cost := Cost(ids, myid, rid, o.lsa);
      if cost < bestcost then (Some(o), cost)
      else if cost == bestcost && ShorterPath(o.lsa, best) then (Some(o), bestcost)
      else (best, bestcost)
  }

  /** `o` is no worse than `p`: cheaper, or as cheap and no longer. */
  predicate NoWorse(cost: int, o: Lsa, cost': int, p: Lsa)
    requires Storable(o) && Storable(p)
  {
    cost < cost' || (cost == cost' && |PathBytes(o)| <= |PathBytes(p)|)
  }

  /** The best LSA of an id: eligible, and no worse than any other. */
  ghost predicate IsBest(ids: Ids, myid: Option<NodeId>, rid: Rid, o: Obj, cost: int) {
    && o in rid.lsas && Storable(o.lsa) && cost == Cost(ids, myid, rid, o.lsa)
    && Version(o.lsa) >= rid.hvs
    && forall p | p in rid.lsas && Storable(p.lsa) && Version(p.lsa) >= rid.hvs ::
         NoWorse(cost, o.lsa, Cost(ids, myid, rid, p.lsa), p.lsa)
  }

  lemma StorableCost(ids: Ids, myid: Option<NodeId>, rid: Rid, l: Lsa)
    requires Storable(l)
    ensures 0 <= Cost(ids, myid, rid, l) <= RIB_COST_INELIGIBLE
    ensures Cost(ids, myid, rid, l) == RIB_COST_INELIGIBLE <==> Version(l) < rid.hvs
  {
    hide Version, PathBytes, Regular;
    PathWithinSize(l);
    CostBound(ids, myid, rid, l);
  }

  lemma {:induction false} SelectLoop(ids: Ids, myid: Option<NodeId>, rid: Rid, n: nat)
    requires n <= |rid.lsas| && forall i | 0 <= i < |rid.lsas| :: Storable(rid.lsas[i].lsa)
    ensures var (best, cost) := Select(ids, myid, rid, n);
            && (best == None <==> cost == RIB_COST_INELIGIBLE) && 0 <= cost <= RIB_COST_INELIGIBLE
            && (best == None ==> forall i | 0 <= i < n :: Version(rid.lsas[i].lsa) < rid.hvs)
            && (best.Some? ==> best.value in rid.lsas && cost == Cost(ids, myid, rid, best.value.lsa)
                               && forall i | 0 <= i < n ::
                                    var l := rid.lsas[i].lsa;
                                    NoWorse(cost, best.value.lsa, Cost(ids, myid, rid, l), l))
  {
    hide Cost, Version, HasPath, PathBytes, WithinLimit, Regular;
    if n > 0 {
      SelectLoop(ids, myid, rid, n - 1);
      StorableCost(ids, myid, rid, rid.lsas[n - 1].lsa);
      var before, after := Select(ids, myid, rid, n - 1), Select(ids, myid, rid, n);
      if after.0.Some? {
        forall i | 0 <= i < n
          ensures NoWorse(after.1, after.0.value.lsa, Cost(ids, myid, rid, rid.lsas[i].lsa), rid.lsas[i].lsa)
        {
          if i < n - 1 && before.0.Some? {
            assert NoWorse(before.1, before.0.value.lsa, Cost(ids, myid, rid, rid.lsas[i].lsa), rid.lsas[i].lsa);
          } else if i < n - 1 {
            StorableCost(ids, myid, rid, rid.lsas[i].lsa);
          }
        }
      }
    }
  }

  /** The selection is the lexicographically least pair of cost and path length among the eligible. */
  lemma SelectIsBest(ids: Ids, myid: Option<NodeId>, rid: Rid)
    requires forall i | 0 <= i < |rid.lsas| :: Storable(rid.lsas[i].lsa)
    ensures var (best, cost) := Select(ids, myid, rid, |rid.lsas|);
            && (best == None <==> cost == RIB_COST_INELIGIBLE)
            && (best == None <==> forall o | o in rid.lsas :: Version(o.lsa) < rid.hvs)
            && (best.Some? ==> IsBest(ids, myid, rid, best.value, cost))
  {
    hide Cost, Version, HasPath, PathBytes, Select;
    SelectLoop(ids, myid, rid, |rid.lsas|);
    var (best, cost) := Select(ids, myid, rid, |rid.lsas|);
    if best.Some? {
      StorableCost(ids, myid, rid, best.value.lsa);
    }
  }

  /** Everything before the selected LSA is worse than it. */
  lemma {:induction false} SelectFirst(ids: Ids, myid: Option<NodeId>, rid: Rid, n: nat) returns (k: nat)
    requires n <= |rid.lsas| && forall i | 0 <= i < |rid.lsas| :: Storable(rid.lsas[i].lsa)
    requires Select(ids, myid, rid, n).0.Some?
    ensures var (best, cost) := Select(ids, myid, rid, n);
            && k < n && rid.lsas[k] == best.value
            && forall i | 0 <= i < k ::
                 !NoWorse(Cost(ids, myid, rid, rid.lsas[i].lsa), rid.lsas[i].lsa, cost, best.value.lsa)
  {
    hide Cost, Version, HasPath, PathBytes, WithinLimit, Regular;
    SelectLoop(ids, myid, rid, n - 1);
    SelectLoop(ids, myid, rid, n);
    var before, after := Select(ids, myid, rid, n - 1), Select(ids, myid, rid, n);
    if before == after {
      k := SelectFirst(ids, myid, rid, n - 1);
    } else {
      k := n - 1;
      forall i | 0 <= i < k
        ensures !NoWorse(Cost(ids, myid, rid, rid.lsas[i].lsa), rid.lsas[i].lsa, after.1, after.0.value.lsa)
      {
        if before.0.Some? {
          var l := rid.lsas[i].lsa;
          assert NoWorse(before.1, before.0.value.lsa, Cost(ids, myid, rid, l), l);
        } else {
          StorableCost(ids, myid, rid, rid.lsas[i].lsa);
          StorableCost(ids, myid, rid, rid.lsas[k].lsa);
        }
      }
    }
  }

  /** The RIB as far as costs can see it. */
  ghost predicate SameInputs(a: Ids, b: Ids) {
    a.Keys == b.Keys && forall id | id in a :: a[id].hvs == b[id].hvs && a[id].lsas == b[id].lsas
  }

  /** Costs never read what a recompute writes, so its order does not matter. */
  lemma {:induction false} PhaseInputs(a: Ids, b: Ids, path: seq<NodeId>, from: Option<Lsa>, climbing: bool, cost: nat)
    requires SameInputs(a, b)
    ensures Phase(a, path, from, climbing, cost) == Phase(b, path, from, climbing, cost)
  {
    hide GetPeerInfo;
    if path != [] {
      assert FindRecent(a, path[0]) == FindRecent(b, path[0]);
      if FindRecent(a, path[0]).Some? {
        var to := FindRecent(a, path[0]).value;
        if from == None {
          PhaseInputs(a, b, path[1..], Some(to), climbing, cost);
        } else {
          var forward, reverse := GetPeerInfo(from.value, to.id), GetPeerInfo(to, from.value.id);
          if forward.Some? && reverse.Some? {
            PhaseInputs(a, b, path[1..], Some(to), climbing && forward.value.transit && reverse.value.customer,
                        cost + forward.value.metric);
          }
        }
      }
    }
  }

  lemma CostInputs(a: Ids, b: Ids, myid: Option<NodeId>, ra: Rid, rb: Rid, l: Lsa)
    requires SameInputs(a, b) && HasPath(l) && ra.hvs == rb.hvs
    ensures Cost(a, myid, ra, l) == Cost(b, myid, rb, l)
  {
    var path := Path(l);
    PhaseInputs(a, b, path, None, true, 0);
    if myid.Some? {
      assert FindRecent(a, myid.value) == FindRecent(b, myid.value);
      if FindRecent(a, myid.value).Some? {
        PhaseInputs(a, b, path, FindRecent(a, myid.value), true, 0);
      }
    }
  }

  lemma {:induction false} SelectInputs(a: Ids, b: Ids, myid: Option<NodeId>, ra: Rid, rb: Rid, n: nat)
    requires SameInputs(a, b) && ra.hvs == rb.hvs && ra.lsas == rb.lsas && n <= |ra.lsas|
    requires forall i | 0 <= i < |ra.lsas| :: Storable(ra.lsas[i].lsa)
    ensures Select(a, myid, ra, n) == Select(b, myid, rb, n)
  {
    hide Cost, HasPath, PathBytes;
    if n > 0 {
      SelectInputs(a, b, myid, ra, rb, n - 1);
      CostInputs(a, b, myid, ra, rb, ra.lsas[n - 1].lsa);
    }
  }

  // ----------------------------------------------------------------------------- events

  type View = map<NodeId, (Obj, int)>

  /** What a listener believes after an event. */
  function Apply(v: View, e: Event): View {
    match e
    case AddEv(o, c) => v[o.lsa.id := (o, c)]
    case ModEv(_, _, o, c) => v[o.lsa.id := (o, c)]
    case DelEv(o, _) => v - {o.lsa.id}
  }

  /** An event a listener holding `v` expects: add if absent, else modify or delete what it holds. */
  ghost predicate Expected(v: View, e: Event) {
    match e
    case AddEv(o, c) => o.lsa.id !in v && Storable(o.lsa) && c != RIB_COST_INELIGIBLE
    case ModEv(o, c, n, d) =>
      o.lsa.id == n.lsa.id && Has(v, o, c) && Storable(n.lsa) && d != RIB_COST_INELIGIBLE && (o, c) != (n, d)
    case DelEv(o, c) => Has(v, o, c)
  }

  predicate Has(v: View, o: Obj, c: int) {
    o.lsa.id in v && v[o.lsa.id] == (o, c)
  }

  /** What a listener that started from `v` believes after `es`. */
  function Follow(v: View, es: seq<Event>): View {
    if es == [] then v else Apply(Follow(v, es[..|es| - 1]), es[|es| - 1])
  }

  /** Every event of `es` was expected by a listener that started from `v`. */
  ghost predicate Orderly(v: View, es: seq<Event>) {
    es != [] ==> Orderly(v, es[..|es| - 1]) && Expected(Follow(v, es[..|es| - 1]), es[|es| - 1])
  }

  lemma {:induction false} FollowSplit(v: View, a: seq<Event>, b: seq<Event>)
    ensures Follow(v, a + b) == Follow(Follow(v, a), b)
    ensures Orderly(v, a + b) <==> Orderly(v, a) && Orderly(Follow(v, a), b)
  {
    if b == [] {
      assert a + b == a;
    } else {
      assert (a + b)[..|a + b| - 1] == a + b[..|b| - 1];
      FollowSplit(v, a, b[..|b| - 1]);
    }
  }

  function EventId(e: Event): NodeId {
    match e case AddEv(o, _) => o.lsa.id case ModEv(_, _, n, _) => n.lsa.id case DelEv(o, _) => o.lsa.id
  }

  ghost predicate Within(es: seq<Event>, known: iset<NodeId>) {
    forall k | 0 <= k < |es| :: EventId(es[k]) in known
  }

  /** The bests of the RIB. */
  function Bests(ids: Ids): View {
    map id | id in ids && ids[id].best.Some? :: (ids[id].best.value, ids[id].bestcost)
  }

  // --------------------------------------------------------------------------- the state

  ghost predicate RidOk(rid: Rid, id: NodeId) {
    && (forall i | 0 <= i < |rid.lsas| :: Storable(rid.lsas[i].lsa) && rid.lsas[i].lsa.id == id)
    && Ascending(rid.lsas)
    && (rid.best == None <==> rid.bestcost == RIB_COST_INELIGIBLE)
    && (rid.best.Some? ==> rid.best.value.lsa.id == id && Storable(rid.best.value.lsa))
  }

  ghost predicate IdsOk(ids: Ids) {
    forall id | id in ids :: RidOk(ids[id], id)
  }

  /** The cached bests are what a recompute would find. */
  ghost predicate Cached(ids: Ids, myid: Option<NodeId>)
    requires IdsOk(ids)
  {
    forall id | id in ids :: (ids[id].best, ids[id].bestcost) == Select(ids, myid, ids[id], |ids[id].lsas|)
  }

  lemma {:induction false} InsertObjMembers(s: seq<Obj>, o: Obj)
    ensures forall x :: x in InsertObj(s, o) <==> x in s || x == o
  {
    if s != [] && !ObjLess(o, s[0]) {
      InsertObjMembers(s[1..], o);
    }
  }

  lemma ObjLessTransitive(a: Obj, b: Obj, c: Obj)
    requires ObjLess(a, b) && ObjLess(b, c)
    ensures ObjLess(a, c)
  {
  }

  ghost predicate Ascending(s: seq<Obj>) {
    forall i, j | 0 <= i < j < |s| :: ObjLess(s[i], s[j])
  }

  lemma AscendingCons(x: Obj, s: seq<Obj>)
    requires Ascending(s) && forall y | y in s :: ObjLess(x, y)
    ensures Ascending([x] + s)
  {
  }

  lemma {:induction false} InsertObjOrder(s: seq<Obj>, o: Obj)
    requires Ascending(s) && forall x | x in s :: x.ptr != o.ptr
    ensures Ascending(InsertObj(s, o))
  {
    hide Version;
    if s != [] {
      if ObjLess(o, s[0]) {
        forall y | y in s ensures ObjLess(o, y) {
          var j :| 0 <= j < |s| && s[j] == y;
          if j > 0 { ObjLessTransitive(o, s[0], y); }
        }
        AscendingCons(o, s);
      } else {
        InsertObjOrder(s[1..], o);
        InsertObjMembers(s[1..], o);
        assert s[0].ptr != o.ptr;
        AscendingCons(s[0], InsertObj(s[1..], o));
      }
    }
  }

  lemma {:induction false} RemoveObjMembers(s: seq<Obj>, o: Obj)
    requires Ascending(s)
    ensures forall x :: x in RemoveObj(s, o) <==> x in s && x != o
    ensures Ascending(RemoveObj(s, o))
  {
    hide Version;
    if s != [] {
      assert s == [s[0]] + s[1..];
      if s[0] == o {
        assert o !in s[1..];
      } else {
        RemoveObjMembers(s[1..], o);
        AscendingCons(s[0], RemoveObj(s[1..], o));
      }
    }
  }

  // ------------------------------------------------------------------------- the updates

  predicate Stored(ids: Ids, o: Obj) {
    o.lsa.id in ids && o in ids[o.lsa.id].lsas
  }

  /** Objects the RIB keeps a reference to. */
  predicate Holds(ids: Ids, o: Obj) {
    Stored(ids, o) || (o.lsa.id in ids && ids[o.lsa.id].best == Some(o))
  }

  /** The allocator never hands out the address of a held object. */
  ghost predicate Fresh(ids: Ids, o: Obj) {
    forall p | Holds(ids, p) :: p.ptr != o.ptr
  }

  /** Comparing addresses is comparing objects. */
  ghost predicate PtrsOk(ids: Ids) {
    forall p, q | Holds(ids, p) && Holds(ids, q) :: p.ptr == q.ptr ==> p == q
  }

  ghost predicate RibOk(ids: Ids) {
    IdsOk(ids) && PtrsOk(ids)
  }

  lemma RidOfOk(ids: Ids, id: NodeId)
    requires IdsOk(ids)
    ensures RidOk(RidOf(ids, id), id)
  {
  }

  lemma PutRefEntry(ids: Ids, rid: Rid, o: Obj)
    requires IdsOk(ids) && Storable(o.lsa) && Fresh(ids, o)
    requires rid.(hvs := 0) == RidOf(ids, o.lsa.id).(hvs := 0)
    ensures RidOk(PutRef(ids, rid, o)[o.lsa.id], o.lsa.id)
    ensures forall p :: p in InsertObj(rid.lsas, o) <==> p in rid.lsas || p == o
  {
    hide Storable, Version, Ascending, InsertObj, ObjLess;
    RidOfOk(ids, o.lsa.id);
    InsertObjMembers(rid.lsas, o);
    forall x | x in rid.lsas ensures x.ptr != o.ptr {
      assert x.lsa.id == o.lsa.id;
      assert Holds(ids, x);
    }
    InsertObjOrder(rid.lsas, o);
    MembersOk(InsertObj(rid.lsas, o), o.lsa.id);
  }

  lemma PutRefOk(ids: Ids, rid: Rid, o: Obj)
    requires RibOk(ids) && Storable(o.lsa) && Fresh(ids, o)
    requires rid.(hvs := 0) == RidOf(ids, o.lsa.id).(hvs := 0)
    ensures var r := PutRef(ids, rid, o);
            RibOk(r) && Bests(r) == Bests(ids) && forall p :: Stored(r, p) <==> Stored(ids, p) || p == o
  {
    hide Storable, InsertObj, RidOk;
    PutRefEntry(ids, rid, o);
    var new_ := PutRef(ids, rid, o);
    assert forall p | Holds(new_, p) :: Holds(ids, p) || p == o;
    assert Bests(new_) == Bests(ids);
  }

  lemma MembersOk(s: seq<Obj>, id: NodeId)
    requires forall x | x in s :: Storable(x.lsa) && x.lsa.id == id
    ensures forall i | 0 <= i < |s| :: Storable(s[i].lsa) && s[i].lsa.id == id
  {
  }

  lemma DelRefOk(ids: Ids, o: Obj)
    requires RibOk(ids) && Stored(ids, o)
    ensures RibOk(DelRef(ids, o)) && Bests(DelRef(ids, o)) == Bests(ids)
    ensures forall p :: Stored(DelRef(ids, o), p) <==> Stored(ids, p) && p != o
    ensures forall p | Holds(DelRef(ids, o), p) :: Holds(ids, p)
  {
    hide Storable, Version, Ascending, RemoveObj, ObjLess;
    var rid := ids[o.lsa.id];
    RemoveObjMembers(rid.lsas, o);
    var new_ := DelRef(ids, o);
    MembersOk(RemoveObj(rid.lsas, o), o.lsa.id);
    assert RidOk(new_[o.lsa.id], o.lsa.id);
    assert forall p | Holds(new_, p) :: Holds(ids, p);
    assert Bests(new_) == Bests(ids);
  }

  // ---------------------------------------------------------------- highest_version_seen

  /** No stored version is above `highest_version_seen`. */
  ghost predicate Bounded(ids: Ids) {
    forall id, o | id in ids && o in ids[id].lsas :: Version(o.lsa) <= ids[id].hvs
  }

  /** An addition raises the mark of its id to the new version if that is higher, and no other mark. */
  lemma AddRaisesMark(ids: Ids, o: Obj)
    ensures var r, id := AddRef(ids, o), o.lsa.id;
            && r.Keys == ids.Keys + {id}
            && r[id].hvs >= Version(o.lsa) && (id in ids ==> r[id].hvs >= ids[id].hvs)
            && (r[id].hvs == Version(o.lsa) || (id in ids && r[id].hvs == ids[id].hvs))
            && forall x | x in ids && x != id :: r[x] == ids[x]
  {
  }

  /** What the operations of the Loc-RIB do to its entries. */
  datatype Update = Added(o: Obj) | Replaced(o: Obj, n: Obj) | Removed(o: Obj) | Recomputed

  ghost predicate Updated(myid: Option<NodeId>, ids: Ids, u: Update, ids': Ids) {
    && RibOk(ids)
    && match u
       case Added(o) => Storable(o.lsa) && Fresh(ids, o) && ids' == AddRef(ids, o)
       case Replaced(o, n) =>
         Stored(ids, o) && n.lsa.id == o.lsa.id && Storable(n.lsa) && Fresh(ids, n) && ids' == ModRef(ids, o, n)
       case Removed(o) => Stored(ids, o) && ids' == DelRef(ids, o)
       case Recomputed => ids'.Keys == ids.Keys && forall id | id in ids :: ids'[id] == Renewed(ids, myid, ids[id])
  }

  ghost predicate IsHistory(myid: Option<NodeId>, run: seq<Ids>, us: seq<Update>) {
    && |run| == |us| + 1 && run[0] == map[]
    && forall i | 0 <= i < |us| :: Updated(myid, run[i], us[i], run[i + 1])
  }

  predicate AddedTo(us: seq<Update>, i: int, id: NodeId)
    requires 0 <= i < |us|
  {
    us[i].Added? && us[i].o.lsa.id == id
  }

  lemma OtherMarks(myid: Option<NodeId>, ids: Ids, u: Update, ids': Ids)
    requires Updated(myid, ids, u, ids') && !u.Added?
    ensures ids'.Keys == ids.Keys && forall x | x in ids :: ids'[x].hvs == ids[x].hvs
  {
    hide Version, InsertObj, RemoveObj, Storable, Fresh;
  }

  /** The mark of an id is the greatest version that was ever added under it. */
  lemma {:induction false} MarkIsHighest(myid: Option<NodeId>, run: seq<Ids>, us: seq<Update>, k: nat, id: NodeId)
    requires IsHistory(myid, run, us) && k < |run| && id in run[k]
    ensures forall i | 0 <= i < k && AddedTo(us, i, id) :: Version(us[i].o.lsa) <= run[k][id].hvs
    ensures exists i | 0 <= i < k :: AddedTo(us, i, id) && Version(us[i].o.lsa) == run[k][id].hvs
  {
    hide Version, Updated;
    var u := us[k - 1];
    assert Updated(myid, run[k - 1], u, run[k]);
    if id in run[k - 1] {
      MarkIsHighest(myid, run, us, k - 1, id);
    } else {
      NothingAdded(myid, run, us, k - 1, id);
    }
    if u.Added? {
      AddedMark(myid, run[k - 1], u, run[k]);
      if u.o.lsa.id == id && run[k][id].hvs == Version(u.o.lsa) {
        assert AddedTo(us, k - 1, id);
      }
    } else {
      OtherMarks(myid, run[k - 1], u, run[k]);
    }
  }

  lemma AddedMark(myid: Option<NodeId>, ids: Ids, u: Update, ids': Ids)
    requires Updated(myid, ids, u, ids') && u.Added?
    ensures ids' == AddRef(ids, u.o)
    ensures var id := u.o.lsa.id;
            && ids'.Keys == ids.Keys + {id}
            && ids'[id].hvs >= Version(u.o.lsa) && (id in ids ==> ids'[id].hvs >= ids[id].hvs)
            && (ids'[id].hvs == Version(u.o.lsa) || (id in ids && ids'[id].hvs == ids[id].hvs))
            && forall x | x in ids && x != id :: ids'[x] == ids[x]
  {
    hide Version, AddRef, RibOk, Storable, Fresh;
    AddRaisesMark(ids, u.o);
  }

  lemma {:induction false} NothingAdded(myid: Option<NodeId>, run: seq<Ids>, us: seq<Update>, k: nat, id: NodeId)
    requires IsHistory(myid, run, us) && k < |run| && id !in run[k]
    ensures forall i | 0 <= i < k :: !AddedTo(us, i, id)
  {
    hide Version, Updated;
    if k > 0 {
      var u := us[k - 1];
      assert Updated(myid, run[k - 1], u, run[k]);
      if u.Added? {
        AddedMark(myid, run[k - 1], u, run[k]);
      } else {
        OtherMarks(myid, run[k - 1], u, run[k]);
      }
      NothingAdded(myid, run, us, k - 1, id);
    }
  }

  /**
   * In every history, once no recompute is due: an id has a best exactly if it stores an LSA that
   * is no older than any ever added under it, and no best is older than that.
   */
  lemma BestIsCurrent(myid: Option<NodeId>, run: seq<Ids>, us: seq<Update>, k: nat, id: NodeId)
    requires IsHistory(myid, run, us) && k < |run| && id in run[k] && IdsOk(run[k]) && Cached(run[k], myid)
    ensures run[k][id].best.Some? <==>
            exists o | o in run[k][id].lsas ::
              forall i | 0 <= i < k && AddedTo(us, i, id) :: Version(us[i].o.lsa) <= Version(o.lsa)
    ensures run[k][id].best.Some? ==>
              forall i | 0 <= i < k && AddedTo(us, i, id) ::
                Version(us[i].o.lsa) <= Version(run[k][id].best.value.lsa)
  {
    hide Version, Updated, Storable, Select, Cached, IdsOk, Cost, PathBytes;
    MarkIsHighest(myid, run, us, k, id);
    CachedIsBest(run[k], myid, id);
    var rid := run[k][id];
    if rid.best.Some? {
      assert Version(rid.best.value.lsa) >= rid.hvs;
    }
  }

  /** An addition that no newer one preceded leaves its id with a best at the next recompute. */
  lemma NewestIsEligible(ids: Ids, myid: Option<NodeId>, o: Obj)
    requires RibOk(ids) && Storable(o.lsa) && Fresh(ids, o)
    requires o.lsa.id in ids ==> ids[o.lsa.id].hvs <= Version(o.lsa)
    ensures var r := AddRef(ids, o);
            RidOk(r[o.lsa.id], o.lsa.id) && Renewed(r, myid, r[o.lsa.id]).best.Some?
  {
    hide Storable, Version, InsertObj, Fresh, Select, Ascending;
    var r, id, rid := AddRef(ids, o), o.lsa.id, RidOf(ids, o.lsa.id);
    AddRaisesMark(ids, o);
    PutRefOk(ids, rid.(hvs := Max(rid.hvs, Version(o.lsa))), o);
    assert RidOk(r[id], id);
    assert Stored(r, o);
    SelectIsBest(r, myid, r[id]);
  }

  lemma AddKeepsBound(ids: Ids, o: Obj)
    requires Bounded(ids)
    ensures Bounded(AddRef(ids, o))
  {
    hide Version;
    InsertObjMembers(RidOf(ids, o.lsa.id).lsas, o);
  }

  lemma {:induction false} RemovedAreMembers(s: seq<Obj>, o: Obj)
    ensures forall x | x in RemoveObj(s, o) :: x in s
  {
    if s != [] {
      RemovedAreMembers(s[1..], o);
    }
  }

  lemma DelKeepsBound(ids: Ids, o: Obj)
    requires Bounded(ids) && o.lsa.id in ids
    ensures Bounded(DelRef(ids, o))
  {
    hide Version;
    RemovedAreMembers(ids[o.lsa.id].lsas, o);
  }

  /** A modification keeps the bound exactly if the new version was already seen. */
  lemma ModKeepsBound(ids: Ids, o: Obj, n: Obj)
    requires Bounded(ids) && o.lsa.id in ids && n.lsa.id == o.lsa.id
    ensures Bounded(ModRef(ids, o, n)) <==> Version(n.lsa) <= ids[n.lsa.id].hvs
  {
    hide Version;
    DelKeepsBound(ids, o);
    var mid := DelRef(ids, o);
    InsertObjMembers(mid[n.lsa.id].lsas, n);
    assert n in ModRef(ids, o, n)[n.lsa.id].lsas;
  }

  function Versioned(ptr: nat, id: NodeId, version: byte): (o: Obj)
    ensures o.lsa.id == id && o.ptr == ptr
  {
    Obj(ptr, Lsa(id, [Attr(LSA_ATTR_TYPE_ADV_PATH, [], false, Plain([])),
                      Attr(LSA_ATTR_TYPE_VERSION, [], true, Plain([0, 0, 0, 0, 0, 0, 0, version]))]))
  }

  lemma VersionedVersion(ptr: nat, id: NodeId, version: byte)
    ensures Version(Versioned(ptr, id, version).lsa) == version && Storable(Versioned(ptr, id, version).lsa)
  {
    var attrs := Versioned(ptr, id, version).lsa.attrs;
    var zeros: seq<byte> := [0, 0, 0, 0, 0, 0, 0];
    assert attrs[1].data.bytes[..7] == zeros;
    Zeros(zeros);
    assert Find(attrs, LSA_ATTR_TYPE_VERSION, []) == Some(attrs[1]);
    assert attrs[1..] == [attrs[1]] && attrs[1..][1..] == [];
    assert SetSize(attrs) == DeepSize(attrs[0]) + (DeepSize(attrs[1]) + SetSize([]));
    assert RegularAttr(attrs[0], MAX_DEPTH) && RegularAttr(attrs[1], MAX_DEPTH);
  }

  lemma {:induction false} Zeros(s: seq<byte>)
    requires forall i | 0 <= i < |s| :: s[i] == 0
    ensures BigEndian(s) == 0
  {
    if s != [] {
      Zeros(s[..|s| - 1]);
    }
  }

  /** A new version of a stored LSA takes the RIB beyond its `highest_version_seen`. */
  lemma ModBreaksBound(id: NodeId) returns (ids: Ids, o: Obj, n: Obj)
    ensures RibOk(ids) && Stored(ids, o) && Storable(n.lsa) && Fresh(ids, n) && n.lsa.id == o.lsa.id
    ensures Bounded(ids) && !Bounded(ModRef(ids, o, n))
  {
    hide Storable, Version, Versioned;
    o, n := Versioned(1, id, 1), Versioned(2, id, 2);
    VersionedVersion(1, id, 1);
    VersionedVersion(2, id, 2);
    PutRefOk(map[], EmptyRid().(hvs := 1), o);
    ids := AddRef(map[], o);
    assert ids[id].lsas == [o] && ids[id].hvs == 1;
    ModKeepsBound(ids, o, n);
  }

  // ------------------------------------------------------------------------ the recompute

  /** `recompute_rid` on the entry of one id. */
  function Renewed(ids: Ids, myid: Option<NodeId>, rid: Rid): Rid
    requires forall i | 0 <= i < |rid.lsas| :: Storable(rid.lsas[i].lsa)
  {
    var (best, bestcost) := Select(ids, myid, rid, |rid.lsas|);
    rid.(best := best, bestcost := bestcost)
  }

  /** What listeners are told when an entry changes. */
  function Changes(old_: Rid, new_: Rid): seq<Event> {
    if (old_.best, old_.bestcost) == (new_.best, new_.bestcost) then []
    else if old_.best == None && new_.best.Some? then [AddEv(new_.best.value, new_.bestcost)]
    else if old_.best.Some? && new_.best.Some? then
      [ModEv(old_.best.value, old_.bestcost, new_.best.value, new_.bestcost)]
    else if old_.best.Some? then [DelEv(old_.best.value, old_.bestcost)]
    else []
  }

  /** The change of one entry, followed by a listener. */
  lemma ChangesFollow(ids: Ids, id: NodeId, new_: Rid)
    requires IdsOk(ids) && id in ids && RidOk(new_, id)
    ensures Follow(Bests(ids), Changes(ids[id], new_)) == Bests(ids[id := new_])
    ensures Orderly(Bests(ids), Changes(ids[id], new_))
    ensures forall e | e in Changes(ids[id], new_) :: EventId(e) == id
    ensures |Changes(ids[id], new_)| == if (ids[id].best, ids[id].bestcost) == (new_.best, new_.bestcost) then 0 else 1
  {
    hide Storable, Ascending;
    var es := Changes(ids[id], new_);
    assert RidOk(ids[id], id);
    if es != [] {
      assert es[..|es| - 1] == [];
    }
    assert Follow(Bests(ids), es) == Bests(ids[id := new_]);
  }

  lemma RenewedOk(ids: Ids, myid: Option<NodeId>, id: NodeId)
    requires RibOk(ids) && id in ids
    ensures var new_ := Renewed(ids, myid, ids[id]); RidOk(new_, id) && RibOk(ids[id := new_])
    ensures var best := Renewed(ids, myid, ids[id]).best; best.Some? ==> Stored(ids, best.value)
  {
    hide Storable, Version, Select, Ascending, Cost;
    SelectIsBest(ids, myid, ids[id]);
    var new_ := Renewed(ids, myid, ids[id]);
    assert RidOk(new_, id);
    assert forall p | Holds(ids[id := new_], p) :: Holds(ids, p);
  }

  lemma RenewedInputs(a: Ids, b: Ids, myid: Option<NodeId>, id: NodeId)
    requires IdsOk(a) && IdsOk(b) && SameInputs(a, b) && id in a
    ensures Renewed(a, myid, a[id]).(best := None, bestcost := 0) == a[id].(best := None, bestcost := 0)
    ensures Renewed(a, myid, a[id]) == Renewed(b, myid, b[id])
    ensures a[id] == Renewed(b, myid, b[id]) <==> (a[id].best, a[id].bestcost) == Select(a, myid, a[id], |a[id].lsas|)
  {
    hide Select, Storable;
    assert RidOk(a[id], id);
    SelectInputs(a, b, myid, a[id], b[id], |a[id].lsas|);
  }

  /** A pass over the entries of `was` with those of `todo` still to come. */
  ghost predicate MidPass(ids: Ids, was: Ids, myid: Option<NodeId>, todo: set<NodeId>)
    requires IdsOk(was)
  {
    && SameInputs(ids, was) && todo <= ids.Keys
    && forall id | id in ids :: ids[id] == if id in todo then was[id] else Renewed(was, myid, was[id])
  }

  lemma PassStep(ids: Ids, was: Ids, myid: Option<NodeId>, todo: set<NodeId>, id: NodeId)
    requires IdsOk(ids) && IdsOk(was) && MidPass(ids, was, myid, todo) && id in todo
    ensures id in ids && id in was && ids[id] == was[id] && ids[id := Renewed(ids, myid, ids[id])].Keys == ids.Keys
    ensures MidPass(ids[id := Renewed(ids, myid, ids[id])], was, myid, todo - {id})
  {
    hide Select, Storable, Renewed, IdsOk;
    RenewedInputs(ids, was, myid, id);
  }

  /** Each event of a pass, from the `n`-th on, is of the change of its entry, which is done. */
  ghost predicate Reported(was: Ids, ids: Ids, es: seq<Event>, n: nat, todo: set<NodeId>) {
    n <= |es| && forall k | n <= k < |es| ::
      var id := EventId(es[k]); id in was && id in ids && id !in todo && es[k] in Changes(was[id], ids[id])
  }

  lemma ReportedRenewed(was: Ids, ids: Ids, myid: Option<NodeId>, es: seq<Event>, n: nat, todo: set<NodeId>, id: NodeId)
    requires Reported(was, ids, es, n, todo) && id in todo && id in ids && id in was && was[id] == ids[id]
    requires RibOk(ids)
    ensures RidOk(ids[id], id)
    ensures var new_ := Renewed(ids, myid, ids[id]);
            Reported(was, ids[id := new_], es + Changes(ids[id], new_), n, todo - {id})
  {
    hide Renewed, Changes, Reported, Storable, Ascending;
    assert RidOk(ids[id], id);
    RenewedOk(ids, myid, id);
    ChangesFollow(ids, id, Renewed(ids, myid, ids[id]));
    ReportedStep(was, ids, es, n, todo, id, Renewed(ids, myid, ids[id]));
  }

  lemma ReportedStep(was: Ids, ids: Ids, es: seq<Event>, n: nat, todo: set<NodeId>, id: NodeId, new_: Rid)
    requires Reported(was, ids, es, n, todo) && id in todo && id in ids && id in was && was[id] == ids[id]
    requires forall e | e in Changes(ids[id], new_) :: EventId(e) == id
    ensures Reported(was, ids[id := new_], es + Changes(ids[id], new_), n, todo - {id})
  {
    hide Changes;
  }

  /** One pass over all entries leaves the cache right. */
  lemma PassDone(ids: Ids, was: Ids, myid: Option<NodeId>)
    requires IdsOk(ids) && IdsOk(was) && MidPass(ids, was, myid, {})
    ensures Cached(ids, myid)
  {
    hide Select, Storable, Renewed;
    forall id | id in ids ensures (ids[id].best, ids[id].bestcost) == Select(ids, myid, ids[id], |ids[id].lsas|) {
      RenewedInputs(ids, was, myid, id);
    }
  }

  /** With no recompute due, every cached best is the best there is, and missing only if nothing is eligible. */
  lemma CachedIsBest(ids: Ids, myid: Option<NodeId>, id: NodeId)
    requires IdsOk(ids) && Cached(ids, myid) && id in ids
    ensures ids[id].best == None <==> ids[id].bestcost == RIB_COST_INELIGIBLE
    ensures ids[id].best == None <==> forall o | o in ids[id].lsas :: Version(o.lsa) < ids[id].hvs
    ensures ids[id].best.Some? ==> IsBest(ids, myid, ids[id], ids[id].best.value, ids[id].bestcost)
  {
    hide Storable, Select, IsBest, Version;
    assert RidOk(ids[id], id);
    SelectIsBest(ids, myid, ids[id]);
  }

  /** Of LSAs that are as good as the best, the best is the one of the lowest version and address. */
  lemma TiesGoToOldest(ids: Ids, myid: Option<NodeId>, id: NodeId, p: Obj)
    requires IdsOk(ids) && Cached(ids, myid) && id in ids && ids[id].best.Some? && p in ids[id].lsas
    ensures Storable(p.lsa) && Storable(ids[id].best.value.lsa)
    ensures var o := ids[id].best.value;
            Cost(ids, myid, ids[id], p.lsa) == ids[id].bestcost && |PathBytes(p.lsa)| == |PathBytes(o.lsa)| ==>
              p == o || Version(o.lsa) < Version(p.lsa) || (Version(o.lsa) == Version(p.lsa) && o.ptr < p.ptr)
  {
    hide Cost, Version, HasPath, PathBytes, WithinLimit, Regular, Select;
    var rid := ids[id];
    assert RidOk(rid, id);
    var k := SelectFirst(ids, myid, rid, |rid.lsas|);
    var i :| 0 <= i < |rid.lsas| && rid.lsas[i] == p;
  }

  /**
   * No cached best is cheaper than the constrained shortest path to the end of its path, over
   * the links that the RIB's LSAs give.
   */
  lemma BestNotBelowCspf(ids: Ids, me: NodeId, id: NodeId, links: seq<Link<NodeId>>, d: int)
    requires IdsOk(ids) && Cached(ids, Some(me)) && id in ids && LinksOf(ids, links) && FindRecent(ids, me).Some?
    requires ids[id].best.Some? && ids[id].bestcost != RIB_COST_UNREACHABLE
    requires Graphs.LeastCost(LayerGraph(ids.Keys, links), A(me), B(PathEnd(me, Path(ids[id].best.value.lsa))), d)
    ensures d <= ids[id].bestcost
  {
    hide Select, Policy, LinksOf, LayerGraph, Graphs.LeastCost, FindRecent, Version, Regular;
    CachedIsBest(ids, Some(me), id);
    var o := ids[id].best.value;
    PathWithinSize(o.lsa);
    CostBound(ids, Some(me), ids[id], o.lsa);
    IdsFiled(ids);
    PolicyNotBelowCspf(ids, links, me, Path(o.lsa), ids[id].bestcost);
  }

  lemma IdsFiled(ids: Ids)
    requires IdsOk(ids)
    ensures Filed(ids)
  {
    hide Storable, Ascending;
    forall id, i | id in ids && 0 <= i < |ids[id].lsas| ensures ids[id].lsas[i].lsa.id == id {
      assert RidOk(ids[id], id);
    }
  }

  /** `o` is the newest stored LSA of `id`, by version and then by address, and no newer one was seen. */
  ghost predicate IsNewest(ids: Ids, id: NodeId, o: Obj) {
    && id in ids && o in ids[id].lsas && Version(o.lsa) >= ids[id].hvs
    && forall p | p in ids[id].lsas && p != o ::
         Version(p.lsa) < Version(o.lsa) || (Version(p.lsa) == Version(o.lsa) && p.ptr < o.ptr)
  }

  /** The recent LSA of an id is its newest one, unless all are older than one that was seen. */
  lemma RecentIsNewest(ids: Ids, id: NodeId)
    requires IdsOk(ids)
    ensures FindRecent(ids, id) == None <==> id !in ids || forall o | o in ids[id].lsas :: Version(o.lsa) < ids[id].hvs
    ensures forall o | IsNewest(ids, id, o) :: FindRecent(ids, id) == Some(o.lsa)
    ensures FindRecent(ids, id).Some? ==> exists o :: IsNewest(ids, id, o)
  {
    hide Storable, Version;
    if id in ids && ids[id].lsas != [] {
      assert RidOk(ids[id], id);
      var s := ids[id].lsas;
      var o := s[|s| - 1];
      forall p | p in s && p != o ensures ObjLess(p, o) {
        var i :| 0 <= i < |s| && s[i] == p;
      }
      assert Version(o.lsa) >= ids[id].hvs ==> IsNewest(ids, id, o);
    }
  }

  /**
   * The links of the RIB join the newest LSAs of two ids that list each other: the cost is the
   * first one's, and a link climbs or descends if both ends say so.
   */
  lemma LinkEnds(ids: Ids, links: seq<Link<NodeId>>, x: NodeId, y: NodeId, from: Obj, to: Obj)
    requires IdsOk(ids) && LinksOf(ids, links) && IsNewest(ids, x, from) && IsNewest(ids, y, to)
    ensures (exists l | l in links :: l.from == x && l.to == y) <==>
            GetPeerInfo(from.lsa, y).Some? && GetPeerInfo(to.lsa, x).Some?
    ensures forall l | l in links && l.from == x && l.to == y ::
              var f, t := GetPeerInfo(from.lsa, y).value, GetPeerInfo(to.lsa, x).value;
              && l.cost == f.metric
              && (l.typ in {TRANSIT, IPEER} <==> f.transit && t.customer)
              && (l.typ in {CUSTOMER, IPEER} <==> f.customer && t.transit)
              && l.typ in {EPEER, CUSTOMER, TRANSIT, IPEER}
  {
    hide GetPeerInfo, FindRecent, IsNewest, IdsOk;
    RecentIsNewest(ids, x);
    RecentIsNewest(ids, y);
    KnownNewest(ids, x, from);
    KnownNewest(ids, y, to);
  }

  lemma KnownNewest(ids: Ids, id: NodeId, o: Obj)
    requires IsNewest(ids, id, o)
    ensures id in ids
  {
  }

  /** Every link has such ends. */
  lemma LinksHaveEnds(ids: Ids, links: seq<Link<NodeId>>, l: Link<NodeId>) returns (from: Obj, to: Obj)
    requires IdsOk(ids) && LinksOf(ids, links) && l in links
    ensures IsNewest(ids, l.from, from) && IsNewest(ids, l.to, to)
  {
    hide GetPeerInfo, FindRecent, IsNewest, IdsOk;
    RecentIsNewest(ids, l.from);
    RecentIsNewest(ids, l.to);
    assert Hop(ids, l.from, l.to) == Some(l);
    from :| IsNewest(ids, l.from, from);
    to :| IsNewest(ids, l.to, to);
  }

  /** A best found at the old address is the old best. */
  lemma SameBest(ids: Ids, myid: Option<NodeId>, id: NodeId)
    requires RibOk(ids) && id in ids
    ensures var new_ := Renewed(ids, myid, ids[id]);
            ids[id].best.Some? == new_.best.Some? && ids[id].bestcost == new_.bestcost ==>
              (new_.best.Some? ==> ids[id].best.value.ptr == new_.best.value.ptr) ==> new_ == ids[id]
  {
    hide Storable, Select, Ascending;
    assert RidOk(ids[id], id);
    RenewedOk(ids, myid, id);
    var new_ := Renewed(ids, myid, ids[id]);
    assert new_.best.Some? ==> Holds(ids, new_.best.value);
    assert ids[id].best.Some? ==> Holds(ids, ids[id].best.value);
  }

  /** `struct loc_rib`; `events` is everything its listeners were told so far. */
  class LocRib {
    const myid: Option<NodeId>
    var ids: Ids
    /** Whether the recompute task is registered. */
    var pending: bool
    var events: seq<Event>

    /** The listeners' view is the cached bests, and the cache is right unless a recompute is due. */
    ghost predicate Valid()
      reads this
    {
      && RibOk(ids)
      && Orderly(map[], events) && Follow(map[], events) == Bests(ids)
      && (!pending ==> Cached(ids, myid))
    }

    constructor (myid: Option<NodeId>)
      ensures Valid() && this.myid == myid && ids == map[] && events == [] && !pending
    {
      this.myid := myid;
      ids := map[];
      pending := false;
      events := [];
    }

    /** `loc_rib_add_lsa`: the duplicate abort is not reached. */
    method AddLsa(o: Obj)
      requires Valid() && Storable(o.lsa) && Fresh(ids, o)
      modifies this`ids, this`pending
      ensures Valid() && ids == AddRef(old(ids), o) && pending
      ensures forall p :: Stored(ids, p) <==> old(Stored(ids, p)) || p == o
      ensures Bests(ids) == old(Bests(ids)) && ids.Keys == old(ids.Keys) + {o.lsa.id}
      // the mark goes to the new version if that is higher
      ensures ids[o.lsa.id].hvs >= Version(o.lsa)
      ensures o.lsa.id in old(ids) ==> ids[o.lsa.id].hvs >= old(ids)[o.lsa.id].hvs
      ensures ids[o.lsa.id].hvs == Version(o.lsa)
              || (o.lsa.id in old(ids) && ids[o.lsa.id].hvs == old(ids)[o.lsa.id].hvs)
      ensures forall id | id in old(ids) && id != o.lsa.id :: ids[id] == old(ids)[id]
    {
      hide Storable, Version, InsertObj, Fresh, Cached;
      AddRaisesMark(ids, o);
      var rid := RidOf(ids, o.lsa.id);
      PutRefOk(ids, rid.(hvs := Max(rid.hvs, Version(o.lsa))), o);
      ids := AddRef(ids, o);
      pending := true;
    }

    /** `loc_rib_mod_lsa`: both aborts are not reached. */
    method ModLsa(o: Obj, n: Obj)
      requires Valid() && Stored(ids, o) && n.lsa.id == o.lsa.id && Storable(n.lsa) && Fresh(ids, n)
      modifies this`ids, this`pending
      ensures Valid() && ids == ModRef(old(ids), o, n) && pending
      ensures forall p :: Stored(ids, p) <==> (old(Stored(ids, p)) && p != o) || p == n
      ensures Bests(ids) == old(Bests(ids)) && ids.Keys == old(ids.Keys)
      ensures forall id | id in ids :: ids[id].hvs == old(ids)[id].hvs
    {
      hide Storable, Version, InsertObj, Cached;
      DelRefOk(ids, o);
      var mid := DelRef(ids, o);
      PutRefOk(mid, mid[n.lsa.id], n);
      ids := ModRef(ids, o, n);
      pending := true;
    }

    /** `loc_rib_del_lsa`: both aborts are not reached. */
    method DelLsa(o: Obj)
      requires Valid() && Stored(ids, o)
      modifies this`ids, this`pending
      ensures Valid() && ids == DelRef(old(ids), o) && pending
      ensures forall p :: Stored(ids, p) <==> old(Stored(ids, p)) && p != o
      ensures Bests(ids) == old(Bests(ids)) && ids.Keys == old(ids.Keys)
      ensures forall id | id in ids :: ids[id].hvs == old(ids)[id].hvs
    {
      DelRefOk(ids, o);
      ids := DelRef(ids, o);
      pending := true;
    }

    /** `recompute_rid`. */
    method RecomputeRid(id: NodeId)
      requires RibOk(ids) && id in ids
      requires Orderly(map[], events) && Follow(map[], events) == Bests(ids)
      modifies this`ids, this`events
      ensures RibOk(ids) && ids == old(ids)[id := Renewed(old(ids), myid, old(ids)[id])]
      ensures events == old(events) + Changes(old(ids)[id], ids[id])
      ensures Orderly(map[], events) && Follow(map[], events) == Bests(ids)
      ensures forall k | |old(events)| <= k < |events| :: EventId(events[k]) == id
    {
      hide Cost, Version, PathBytes, HasPath, Ascending, Orderly, Follow, PtrsOk, Holds, WithinLimit, Regular, Bests;
      var rid := ids[id];
      assert RidOk(rid, id);
      var best: Option<Obj>, bestcost := None, RIB_COST_INELIGIBLE;
      var i := 0;
      while i < |rid.lsas|
        invariant 0 <= i <= |rid.lsas|
        invariant (best, bestcost) == Select(ids, myid, rid, i)
        invariant ids == old(ids) && events == old(events)
      {
        var lsa := rid.lsas[i];
        var cost := LsaPathCost(ids, myid, rid, lsa.lsa);
        if cost < bestcost {
          best, bestcost := Some(lsa), cost;
        } else if cost == bestcost && ShorterPath(lsa.lsa, best) {
          best := Some(lsa);
        }
        i := i + 1;
      }
      var new_ := rid.(best := best, bestcost := bestcost);
      assert new_ == Renewed(ids, myid, rid);
      RenewedOk(ids, myid, id);
      ChangesFollow(ids, id, new_);
      FollowSplit(map[], events, Changes(rid, new_));
      if rid.best.Some? == best.Some? && rid.bestcost == bestcost
         && (best.Some? ==> rid.best.value.ptr == best.value.ptr) {
        SameBest(ids, myid, id);
        assert ids[id := new_] == ids;
        assert events + [] == events;
        return;
      }
      ids := ids[id := new_];
      if rid.best == None && best.Some? {
        events := events + [AddEv(best.value, bestcost)];
      } else if rid.best.Some? && best.Some? {
        events := events + [ModEv(rid.best.value, rid.bestcost, best.value, bestcost)];
      } else if rid.best.Some? {
        events := events + [DelEv(rid.best.value, rid.bestcost)];
      }
    }

    /** `recompute_rib`: one pass in any order of the ids leaves every entry right. */
    method Recompute()
      requires Valid()
      modifies this
      ensures Valid() && !pending && SameInputs(ids, old(ids))
      ensures forall p :: Stored(ids, p) <==> old(Stored(ids, p))
      ensures forall id | id in ids :: ids[id] == Renewed(old(ids), myid, old(ids)[id])
      ensures old(events) <= events && Reported(old(ids), ids, events, |old(events)|, {})
    {
      hide Storable, Ascending, Orderly, Follow, Select, PtrsOk, Bests, Renewed, Changes, Cached, RidOk;
      pending := false;
      var todo := ids.Keys;
      while todo != {}
        invariant MidPass(ids, old(ids), myid, todo) && ids.Keys == old(ids.Keys)
        invariant old(events) <= events && Reported(old(ids), ids, events, |old(events)|, todo)
        invariant RibOk(ids) && Orderly(map[], events) && Follow(map[], events) == Bests(ids) && !pending
        decreases |todo|
      {
        hide MidPass, SameInputs, Reported;
        var id :| id in todo;
        PassStep(ids, old(ids), myid, todo, id);
        ReportedRenewed(old(ids), ids, myid, events, |old(events)|, todo, id);
        RecomputeRid(id);
        todo := todo - {id};
      }
      PassDone(ids, old(ids), myid);
      assert ids.Keys == old(ids.Keys);
    }
  }
}
