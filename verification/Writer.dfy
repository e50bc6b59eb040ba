/** `dgp_writer.c`: advertising the bests of the Loc-RIB to one peer. */
module Writer {
  import opened Bytes
  import opened Lsas
  import opened Codec
  import opened Accounting
  import opened Serialiser
  import opened PathCost
  import opened LocRib
  import opened AdjRibIn

  /** `map`: LSAs that went through the peer are not advertised to it. */
  predicate Advertised(remoteid: Option<NodeId>, l: Lsa) {
    HasPath(l) && (remoteid.Some? ==> remoteid.value !in Path(l))
  }

  /** The peer's id is in the path. */
  predicate Through(remoteid: Option<NodeId>, l: Lsa)
    requires HasPath(l)
  {
    remoteid.Some? && exists i | 0 <= i < |Path(l)| :: Path(l)[i] == remoteid.value
  }

  function Withdrawal(id: NodeId): Lsa {
    Lsa(id, [])
  }

  /** The LSA sent when the best of an id changes from `old_` to `new_`. */
  function Message(remoteid: Option<NodeId>, old_: Option<Lsa>, new_: Option<Lsa>): Option<Lsa> {
    if new_.Some? && Advertised(remoteid, new_.value) then new_
    else if old_.Some? && Advertised(remoteid, old_.value) then Some(Withdrawal(old_.value.id))
    else None
  }

  function Prefix(myid: Option<NodeId>): seq<byte> {
    if myid.Some? then myid.value else []
  }

  function Output(myid: Option<NodeId>, m: Option<Lsa>): seq<byte> {
    if m.Some? then Frame(m.value, false, Prefix(myid)) else []
  }

  function EventMessage(remoteid: Option<NodeId>, e: Event): Option<Lsa> {
    match e
    case AddEv(o, _) => Message(remoteid, None, Some(o.lsa))
    case ModEv(o, _, n, _) => Message(remoteid, Some(o.lsa), Some(n.lsa))
    case DelEv(o, _) => Message(remoteid, Some(o.lsa), None)
  }

  /** What is written for a series of events. */
  function Sent(myid: Option<NodeId>, remoteid: Option<NodeId>, es: seq<Event>): seq<byte> {
    if es == [] then []
    else Sent(myid, remoteid, es[..|es| - 1]) + Output(myid, EventMessage(remoteid, es[|es| - 1]))
  }

  /** `adds` adds the bests of `ids`, each once. */
  ghost predicate DumpOf(ids: Ids, adds: seq<Event>) {
    Orderly(map[], adds) && Follow(map[], adds) == Bests(ids) && AddsOf(Bests(ids), adds)
  }

  ghost predicate AddsOf(v: View, adds: seq<Event>) {
    forall k | 0 <= k < |adds| :: adds[k].AddEv? && Has(v, adds[k].lsa, adds[k].cost)
  }

  lemma WithdrawalFits(id: NodeId)
    ensures WithinLimit(Withdrawal(id)) && Regular(Withdrawal(id).attrs, MAX_DEPTH)
  {
  }

  class DgpWriter {
    const myid: Option<NodeId>
    const remoteid: Option<NodeId>
    /** Everything written to the connection. */
    var out: seq<byte>

    constructor (myid: Option<NodeId>, remoteid: Option<NodeId>)
      ensures this.myid == myid && this.remoteid == remoteid && out == []
    {
      this.myid, this.remoteid := myid, remoteid;
      out := [];
    }

    method Map(lsa: Option<Lsa>) returns (r: Option<Lsa>)
      requires lsa.Some? ==> Storable(lsa.value)
      ensures r == if lsa.Some? && Advertised(remoteid, lsa.value) then lsa else None
    {
      hide Hops;
      if lsa == None {
        return None;
      }
      if remoteid.Some? {
        var looped := LsaPathContains(PathBytes(lsa.value), remoteid.value);
        if looped {
          return None;
        }
      }
      return lsa;
    }

    /**
     * `dgp_writer_output_lsa`: neither length test aborts. The new LSA is sent unless it went
     * through the peer; if it did, or is none, the peer is told to drop the old one if it had it.
     */
    method OutputLsa(old_: Option<Lsa>, new_: Option<Lsa>)
      requires (old_.Some? ==> Storable(old_.value)) && (new_.Some? ==> Storable(new_.value))
      modifies this`out
      ensures out == old(out) + Output(myid, Message(remoteid, old_, new_))
      ensures new_.Some? && !Through(remoteid, new_.value) ==> out == old(out) + Frame(new_.value, false, Prefix(myid))
      ensures (new_.Some? ==> Through(remoteid, new_.value)) && old_.Some? && !Through(remoteid, old_.value) ==>
                out == old(out) + Frame(Lsa(old_.value.id, []), false, Prefix(myid))
      ensures (new_.Some? ==> Through(remoteid, new_.value)) && (old_.Some? ==> Through(remoteid, old_.value)) ==>
                out == old(out)
    {
      hide WithinLimit, Frame, Body, Path;
      var lsa := Map(new_);
      if lsa == None {
        var before := Map(old_);
        if before == None {
          assert out + [] == out;
          return;
        }
        lsa := Some(Lsa(old_.value.id, []));
        WithdrawalFits(old_.value.id);
      }
      LimitFitsBuffers(lsa.value, Prefix(myid));
      var data := SerialiseFrame(lsa.value, false, Prefix(myid));
      out := out + data;
    }

    /** The listener callbacks. */
    method Listen(e: Event)
      requires match e
               case AddEv(o, _) => Storable(o.lsa)
               case ModEv(o, _, n, _) => Storable(o.lsa) && Storable(n.lsa)
               case DelEv(o, _) => Storable(o.lsa)
      modifies this`out
      ensures out == old(out) + Output(myid, EventMessage(remoteid, e))
    {
      hide Storable, Message, Output;
      match e
      case AddEv(o, _) => OutputLsa(None, Some(o.lsa));
      case ModEv(o, _, n, _) => OutputLsa(Some(o.lsa), Some(n.lsa));
      case DelEv(o, _) => OutputLsa(Some(o.lsa), None);
    }

    /** `dgp_writer_send_keepalive`. */
    method SendKeepalive()
      modifies this`out
      ensures out == old(out) + [0]
    {
      out := out + [0];
    }

    /**
     * `dgp_writer_rib_dump`: what a new peer is sent is what it would have been sent had it
     * listened while the bests were added, in any order, and a keepalive.
     */
    method RibDump(ids: Ids) returns (ghost adds: seq<Event>)
      requires RibOk(ids)
      modifies this`out
      ensures DumpOf(ids, adds)
      ensures out == old(out) + Sent(myid, remoteid, adds) + [0]
    {
      hide Storable, Output, Orderly, Follow, Apply, Expected, Bests, Restricted, Sent, RidOk, Has, AddsOf;
      adds := [];
      NothingFollows(myid, remoteid, ids);
      assert out == old(out) + [];
      var todo := ids.Keys;
      while todo != {}
        invariant todo <= ids.Keys
        invariant Orderly(map[], adds) && Follow(map[], adds) == Restricted(Bests(ids), ids.Keys - todo)
        invariant AddsOf(Bests(ids), adds)
        invariant out == old(out) + Sent(myid, remoteid, adds)
        decreases |todo|
      {
        var id :| id in todo;
        BestNext(ids, ids.Keys - todo, id);
        assert ids.Keys - todo + {id} == ids.Keys - (todo - {id});
        if ids[id].best.Some? {
          ghost var e := AddEv(ids[id].best.value, ids[id].bestcost);
          OutputLsa(None, Some(ids[id].best.value.lsa));
          OneMore(myid, remoteid, adds, e);
          OneAdd(Bests(ids), adds, e);
          adds := adds + [e];
        }
        todo := todo - {id};
      }
      assert ids.Keys - {} == ids.Keys;
      AllRestricted(ids);
      SendKeepalive();
    }
  }

  function Restricted(v: View, s: set<NodeId>): View {
    map id | id in v && id in s :: v[id]
  }

  lemma NothingFollows(myid: Option<NodeId>, remoteid: Option<NodeId>, ids: Ids)
    ensures Orderly(map[], []) && Follow(map[], []) == map[] == Restricted(Bests(ids), ids.Keys - ids.Keys)
    ensures Sent(myid, remoteid, []) == [] && AddsOf(Bests(ids), [])
  {
  }

  lemma OneAdd(v: View, adds: seq<Event>, e: Event)
    requires AddsOf(v, adds) && e.AddEv? && Has(v, e.lsa, e.cost)
    ensures AddsOf(v, adds + [e])
  {
  }

  lemma AllRestricted(ids: Ids)
    ensures Restricted(Bests(ids), ids.Keys) == Bests(ids)
  {
  }

  /** The next entry of a dump. */
  lemma BestNext(ids: Ids, done: set<NodeId>, id: NodeId)
    requires IdsOk(ids) && id in ids && id !in done
    ensures match ids[id].best
            case None => Restricted(Bests(ids), done + {id}) == Restricted(Bests(ids), done)
            case Some(o) =>
              var e := AddEv(o, ids[id].bestcost);
              && Storable(o.lsa) && Has(Bests(ids), o, ids[id].bestcost) && Expected(Restricted(Bests(ids), done), e)
              && Apply(Restricted(Bests(ids), done), e) == Restricted(Bests(ids), done + {id})
  {
    hide Storable, Ascending;
    assert RidOk(ids[id], id);
  }

  lemma OneMore(myid: Option<NodeId>, remoteid: Option<NodeId>, es: seq<Event>, e: Event)
    requires Orderly(map[], es) && Expected(Follow(map[], es), e)
    ensures Orderly(map[], es + [e]) && Follow(map[], es + [e]) == Apply(Follow(map[], es), e)
    ensures Sent(myid, remoteid, es + [e]) == Sent(myid, remoteid, es) + Output(myid, EventMessage(remoteid, e))
  {
    hide Expected, Apply;
    assert (es + [e])[..|es|] == es;
  }
}
