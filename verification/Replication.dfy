/**
 * `dgp_writer.c` to `dgp_reader.c` to `adj_rib_in.c`: a connection keeps, behind what is in
 * flight, a copy of the sender's bests at the receiver.
 */
module Replication {
  import opened Bytes
  import opened Lsas
  import opened Codec
  import opened Accounting
  import opened Reader
  import opened LsaDiff
  import opened PathCost
  import opened LocRib
  import opened AdjRibIn
  import opened Writer

  /** What a store holds, as far as `lsa_diff` can tell. */
  type Contents = map<NodeId, seq<Attr>>

  function ContentsOf(store: Store): Contents {
    map id | id in store :: Normal(store[id].lsa.attrs)
  }

  /** The effect of a message without a quota. */
  function Take(m: Contents, l: Lsa): Contents {
    if l.attrs == [] then m - {l.id} else m[l.id := Normal(l.attrs)]
  }

  function TakeAll(m: Contents, ls: seq<Lsa>): Contents {
    if ls == [] then m else Take(TakeAll(m, ls[..|ls| - 1]), ls[|ls| - 1])
  }

  /** The bests the peer should have: those that did not go through it, with `me` in front. */
  function Want(v: View, me: NodeId, you: NodeId): Contents {
    map id | id in v && Advertised(Some(you), v[id].0.lsa) :: Normal(Prepend(v[id].0.lsa, me).attrs)
  }

  /** `adj_rib_in_add_lsa` on each object in turn, with the sizes accounted at the time. */
  function ReceiveAll(store: Store, sizes: seq<nat>, os: seq<Obj>): Store
    requires |sizes| == |os|
  {
    if os == [] then store
    else
      var n := |os| - 1;
      Receive(ReceiveAll(store, sizes[..n], os[..n]), sizes[n], os[n])
  }

  ghost predicate WithinQuota(sizes: seq<nat>, os: seq<Obj>)
    requires |sizes| == |os|
  {
    forall i | 0 <= i < |os| :: sizes[i] + LsaBytes(os[i].lsa) <= ADJ_RIB_IN_MAX_BYTES
  }

  /** A connection: the bests the writer was told, bytes under way, bytes buffered, and the store. */
  datatype Conn = Conn(view: View, chan: seq<byte>, buf: seq<byte>, store: Store)

  datatype Step =
    | Tell(e: Event)
    | Keepalive
    | Arrive(n: nat, sizes: seq<nat>, os: seq<Obj>)

  ghost predicate Start(c: Conn) {
    c == Conn(map[], [], [], map[])
  }

  /** The objects a read delivers hold the LSAs of the frames it completes. */
  ghost predicate Delivered(os: seq<Obj>, ls: seq<Lsa>) {
    |os| == |ls| && forall i | 0 <= i < |os| :: os[i].lsa == ls[i]
  }

  ghost predicate Next(me: NodeId, you: NodeId, c: Conn, step: Step, d: Conn) {
    match step
    case Tell(e) =>
      && Expected(c.view, e)
      && d == c.(view := Apply(c.view, e), chan := c.chan + Output(Some(me), EventMessage(Some(you), e)))
    case Keepalive => d == c.(chan := c.chan + [0])
    case Arrive(n, sizes, os) =>
      && n <= |c.chan| && |sizes| == |os| && WithinQuota(sizes, os)
      && Delivered(os, ParseStream(c.buf + c.chan[..n]).lsas)
      && d == c.(chan := c.chan[n..], buf := ParseStream(c.buf + c.chan[..n]).rest,
                 store := ReceiveAll(c.store, sizes, os))
  }

  /** The bytes under way are whole frames, and once they are applied the store is as wanted. */
  ghost predicate Replicated(me: NodeId, you: NodeId, c: Conn) {
    var r := ParseStream(c.buf + c.chan);
    && r.link == Open && r.rest == [] && TakeAll(ContentsOf(c.store), r.lsas) == Want(c.view, me, you)
    && ParseStream(c.buf) == Stream([], c.buf, Open)
  }

  // -------------------------------------------------------------------------- the stream

  lemma {:induction false} TakeAllSplit(m: Contents, a: seq<Lsa>, b: seq<Lsa>)
    ensures TakeAll(m, a + b) == TakeAll(TakeAll(m, a), b)
  {
    if b == [] {
      assert a + b == a;
    } else {
      assert (a + b)[..|a + b| - 1] == a + b[..|b| - 1];
      TakeAllSplit(m, a, b[..|b| - 1]);
    }
  }

  /** A whole frame at the end of a stream adds its LSA, with the sender in its path. */
  lemma FrameAppends(s: seq<byte>, l: Lsa, me: NodeId)
    requires ParseStream(s).link == Open && ParseStream(s).rest == []
    requires WithinLimit(l) && Regular(l.attrs, MAX_DEPTH)
    ensures ParseStream(s + Frame(l, false, me)) == Stream(ParseStream(s).lsas + [Prepend(l, me)], [], Open)
  {
    hide ParseStream, Deser, WithinLimit, Frame, Body, Regular;
    var f := Frame(l, false, me);
    StreamSplit(s, f);
    LimitFitsBuffers(l, me);
    FrameRoundTrip(l, me, []);
    assert f + [] == f && [] + f == f && f[|f|..] == [];
    assert Window(f) == f;
    StreamEnd();
    FrameNonempty(l, me);
    StreamTurn(f);
    assert Listed(Some(Prepend(l, me))) + [] == [Prepend(l, me)];
  }

  lemma FrameNonempty(l: Lsa, me: NodeId)
    ensures Frame(l, false, me) != []
  {
  }

  lemma KeepaliveAppends(s: seq<byte>)
    requires ParseStream(s).link == Open && ParseStream(s).rest == []
    ensures ParseStream(s + [0]) == ParseStream(s)
  {
    hide ParseStream;
    StreamSplit(s, [0]);
    assert [] + [0] == [0] && Window([0]) == [0];
    assert Deser([0]) == Got(None, 1);
    StreamTurn([0]);
    StreamEnd();
    assert [0][1..] == [];
    assert ParseStream(s).lsas + [] == ParseStream(s).lsas;
  }

  // --------------------------------------------------------------------------- the steps

  lemma PathGrows(l: Lsa, me: NodeId)
    requires HasPath(l)
    ensures Prepend(l, me).attrs != [] && Prepend(l, me).id == l.id
  {
  }

  /** Each message takes the wanted contents from before the event to those after it. */
  lemma WantStep(v: View, e: Event, me: NodeId, you: NodeId)
    requires Expected(v, e)
    ensures match EventMessage(Some(you), e)
            case Some(l) => Take(Want(v, me, you), Prepend(l, me)) == Want(Apply(v, e), me, you)
            case None => Want(v, me, you) == Want(Apply(v, e), me, you)
  {
    hide Storable, Prepend, Normal, HasPath, Path;
    WithdrawalPrepended(EventId(e), me);
    match e {
      case AddEv(o, _) => AdvertisedGrows(o.lsa, me, you);
      case ModEv(_, _, n, _) => AdvertisedGrows(n.lsa, me, you);
      case DelEv(_, _) =>
    }
  }

  /** The peer should have exactly the bests whose path avoids it, each with this node in front. */
  lemma WantedPaths(v: View, me: NodeId, you: NodeId, id: NodeId)
    requires id in v ==> HasPath(v[id].0.lsa)
    ensures id in Want(v, me, you) <==>
              id in v && forall i | 0 <= i < |Path(v[id].0.lsa)| :: Path(v[id].0.lsa)[i] != you
    ensures id in Want(v, me, you) ==>
              exists l: Lsa ::
                HasPath(l) && Path(l) == [me] + Path(v[id].0.lsa) && Normal(l.attrs) == Want(v, me, you)[id]
  {
    hide Path, Normal, Prepend, WithinLimit, Regular;
    if id in Want(v, me, you) {
      PathPrepended(v[id].0.lsa, me);
      assert HasPath(Prepend(v[id].0.lsa, me));
    }
  }

  lemma WithdrawalPrepended(id: NodeId, me: NodeId)
    ensures Prepend(Withdrawal(id), me) == Withdrawal(id)
  {
  }

  lemma AdvertisedGrows(l: Lsa, me: NodeId, you: NodeId)
    ensures Advertised(Some(you), l) ==> Prepend(l, me).attrs != [] && Prepend(l, me).id == l.id
  {
    if HasPath(l) {
      PathGrows(l, me);
    }
  }

  /** Without an overflow the store takes every message, up to what `lsa_diff` cannot see. */
  lemma ReceiveContents(store: Store, size: nat, o: Obj)
    requires size + LsaBytes(o.lsa) <= ADJ_RIB_IN_MAX_BYTES
    ensures ContentsOf(Receive(store, size, o)) == Take(ContentsOf(store), o.lsa)
  {
  }

  lemma {:induction false} ReceiveAllContents(store: Store, sizes: seq<nat>, os: seq<Obj>, ls: seq<Lsa>)
    requires |sizes| == |os| && WithinQuota(sizes, os) && Delivered(os, ls)
    ensures ContentsOf(ReceiveAll(store, sizes, os)) == TakeAll(ContentsOf(store), ls)
    decreases |os|
  {
    hide LsaBytes, Receive, Take, ContentsOf;
    if os != [] {
      var n := |os| - 1;
      ReceiveAllContents(store, sizes[..n], os[..n], ls[..n]);
      ReceiveContents(ReceiveAll(store, sizes[..n], os[..n]), sizes[n], os[n]);
    }
  }

  lemma TellStep(me: NodeId, you: NodeId, c: Conn, e: Event, d: Conn)
    requires Replicated(me, you, c) && Next(me, you, c, Tell(e), d)
    ensures Replicated(me, you, d)
  {
    hide ParseStream, Want, Expected, Apply, Take, Frame, Prepend;
    var s, m := c.buf + c.chan, EventMessage(Some(you), e);
    assert d.buf + d.chan == s + Output(Some(me), m);
    WantStep(c.view, e, me, you);
    if m.Some? {
      MessageFits(c.view, e, you);
      FrameAppends(s, m.value, me);
      var ls := ParseStream(s).lsas;
      assert (ls + [Prepend(m.value, me)])[..|ls|] == ls;
    } else {
      assert s + [] == s;
    }
  }

  lemma MessageFits(v: View, e: Event, you: NodeId)
    requires Expected(v, e)
    ensures match EventMessage(Some(you), e)
            case Some(l) => WithinLimit(l) && Regular(l.attrs, MAX_DEPTH)
            case None => true
  {
    hide WithinLimit, Regular, Advertised;
    WithdrawalFits(EventId(e));
  }

  lemma ArriveStep(me: NodeId, you: NodeId, c: Conn, n: nat, sizes: seq<nat>, os: seq<Obj>, d: Conn)
    requires Replicated(me, you, c) && Next(me, you, c, Arrive(n, sizes, os), d)
    ensures Replicated(me, you, d)
  {
    hide ParseStream, Want, ReceiveAll, TakeAll, WithinQuota, Delivered;
    var a, b := c.buf + c.chan[..n], c.chan[n..];
    assert c.buf + c.chan == a + b;
    StreamSplit(a, b);
    Drained(a);
    var r := ParseStream(a);
    assert r.link == Open;
    ReceiveAllContents(c.store, sizes, os, r.lsas);
    TakeAllSplit(ContentsOf(c.store), r.lsas, ParseStream(r.rest + b).lsas);
  }

  lemma StartReplicated(me: NodeId, you: NodeId, c: Conn)
    requires Start(c)
    ensures Replicated(me, you, c)
  {
    StreamEnd();
    assert c.buf + c.chan == [];
  }

  lemma StepReplicated(me: NodeId, you: NodeId, c: Conn, step: Step, d: Conn)
    requires Replicated(me, you, c) && Next(me, you, c, step, d)
    ensures Replicated(me, you, d)
  {
    match step {
      case Tell(e) => TellStep(me, you, c, e, d);
      case Keepalive =>
        hide ParseStream;
        KeepaliveAppends(c.buf + c.chan);
        assert d.buf + d.chan == c.buf + c.chan + [0];
      case Arrive(n, sizes, os) => ArriveStep(me, you, c, n, sizes, os, d);
    }
  }

  ghost predicate IsRun(me: NodeId, you: NodeId, run: seq<Conn>, steps: seq<Step>) {
    && |run| == |steps| + 1 && Start(run[0])
    && forall i | 0 <= i < |steps| :: Next(me, you, run[i], steps[i], run[i + 1])
  }

  /** In every state of every run without an overflow, applying what is in flight gives the wanted bests. */
  lemma {:induction false} AlwaysReplicated(me: NodeId, you: NodeId, run: seq<Conn>, steps: seq<Step>, k: nat)
    requires IsRun(me, you, run, steps) && k < |run|
    ensures Replicated(me, you, run[k])
  {
    hide Replicated, Next;
    if k == 0 {
      StartReplicated(me, you, run[0]);
    } else {
      AlwaysReplicated(me, you, run, steps, k - 1);
      StepReplicated(me, you, run[k - 1], steps[k - 1], run[k]);
    }
  }

  /** Once everything was read the receiver holds exactly the wanted bests, and waits for nothing. */
  lemma QuietMeansEqual(me: NodeId, you: NodeId, c: Conn)
    requires Replicated(me, you, c) && c.chan == []
    ensures ContentsOf(c.store) == Want(c.view, me, you) && c.buf == []
  {
    hide ParseStream;
    assert c.buf + c.chan == c.buf;
  }
}
