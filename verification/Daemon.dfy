/** `dvpn.c`: the daemon's own LSA, its Loc-RIB, the routing table and the readers of its peers. */
module Daemon {
  import opened Bytes
  import opened PathCost
  import opened LsaDiff
  import opened LocRib
  import opened RtBuilder
  import opened AdjRibIn
  import opened Network

  // ------------------------------------------------------------------ who contributed what

  /** `s` is `me` and the shares, which do not overlap. */
  ghost predicate Exactly(me: Obj, shares: map<NodeId, set<Obj>>, s: iset<Obj>) {
    && (forall r | r in shares :: me !in shares[r])
    && (forall r, q | r in shares && q in shares && r != q :: shares[r] !! shares[q])
    && forall p :: p in s <==> p == me || Shared(shares, p)
  }

  ghost predicate Shared(shares: map<NodeId, set<Obj>>, p: Obj) {
    exists r | r in shares :: p in shares[r]
  }

  lemma MeReplaced(me: Obj, n: Obj, shares: map<NodeId, set<Obj>>, s: iset<Obj>, s': iset<Obj>)
    requires Exactly(me, shares, s) && n !in s
    requires forall p :: p in s' <==> (p in s && p != me) || p == n
    ensures Exactly(n, shares, s')
  {
    assert forall r, p | r in shares && p in shares[r] :: Shared(shares, p);
  }

  lemma ShareReplaced(me: Obj, shares: map<NodeId, set<Obj>>, s: iset<Obj>, r: NodeId, t: set<Obj>, o: Obj,
                      s': iset<Obj>)
    requires Exactly(me, shares, s) && r in shares && o !in s && t <= shares[r] + {o}
    requires forall p :: p in s' <==> (p in s && p !in shares[r]) || p in t
    ensures Exactly(me, shares[r := t], s')
  {
    var now := shares[r := t];
    assert forall q, p | q in shares && p in shares[q] :: Shared(shares, p);
    forall p ensures p in s' <==> p == me || Shared(now, p) {
      if p in t {
        assert p in now[r];
      } else if Shared(shares, p) {
        var q :| q in shares && p in shares[q];
        if q != r {
          assert p in now[q];
        }
      }
    }
  }

  lemma ShareDropped(me: Obj, shares: map<NodeId, set<Obj>>, s: iset<Obj>, r: NodeId, s': iset<Obj>)
    requires Exactly(me, shares, s) && r in shares && forall p :: p in s' <==> p in s && p !in shares[r]
    ensures Exactly(me, shares - {r}, s')
  {
    assert forall q, p | q in shares && p in shares[q] :: Shared(shares, p);
    forall p ensures p in s' <==> p == me || Shared(shares - {r}, p) {
      if Shared(shares, p) && p !in shares[r] {
        var q :| q in shares && p in shares[q];
        assert p in (shares - {r})[q];
      }
    }
  }

  ghost function StoredIn(ids: Ids): iset<Obj> {
    iset p: Obj | Stored(ids, p)
  }

  lemma ExactNode(c: Crypto, n: NodeId, x: Node, shares: map<NodeId, set<Obj>>)
    requires Exactly(x.me, shares, StoredIn(x.ids)) && shares.Keys == x.adj.Keys
    requires forall q | q in shares :: shares[q] == AcceptedIn(c, Some(n), Some(q), x.adj[q])
    ensures Exact(c, n, x)
  {
    hide Stored, AcceptedIn;
    forall p ensures Stored(x.ids, p) <==> Contributed(c, n, x, p) {
      assert Stored(x.ids, p) <==> p in StoredIn(x.ids);
      if Shared(shares, p) {
        var q :| q in shares && p in shares[q];
        assert p in AcceptedIn(c, Some(n), Some(q), x.adj[q]);
      }
      if exists q | q in x.adj :: p in AcceptedIn(c, Some(n), Some(q), x.adj[q]) {
        var q :| q in x.adj && p in AcceptedIn(c, Some(n), Some(q), x.adj[q]);
        assert p in shares[q];
      }
    }
  }

  // ------------------------------------------------------------------------- the process

  class Daemon {
    const crypto: Crypto
    const myid: NodeId
    const rib: LocRib
    const rb: RtBuilder
    /** The own LSA. */
    var me: Obj
    /** The Adj-RIB-In of every connected peer. */
    var readers: map<NodeId, AdjRibIn>

    ghost function Shares(): map<NodeId, set<Obj>>
      reads this`readers, readers.Values
    {
      map q | q in readers :: readers[q].Accepted()
    }

    ghost function Stores(): map<NodeId, Store>
      reads this`readers, readers.Values
    {
      map q | q in readers :: readers[q].lsas
    }

    /** The daemon as a node of the network. */
    ghost function AsNode(): Node
      reads this, rib, readers.Values
    {
      Node(me, Stores(), rib.ids)
    }

    ghost predicate ReadersOk()
      reads this, rib, readers.Values
    {
      forall q | q in readers ::
        && readers[q].dest == rib && readers[q].crypto == crypto
        && readers[q].myid == Some(myid) && readers[q].remoteid == Some(q) && readers[q].Valid()
    }

    ghost predicate TableOk()
      reads rib, rb
    {
      rb.Valid() && rb.myid == Some(myid) && rb.view == Bests(rib.ids) && forall id | id in rib.ids :: id in rb.known
    }

    /**
     * The Loc-RIB holds the own LSA and exactly what each reader accepts; the routing table is
     * the one computed from the cached bests.
     */
    ghost predicate Valid()
      reads this, rib, rb, readers.Values
    {
      && rib.Valid() && rib.myid == Some(myid) && Own(myid, me.lsa) && ReadersOk() && TableOk()
      && Exactly(me, Shares(), StoredIn(rib.ids))
    }

    constructor (crypto: Crypto, myid: NodeId, me: Obj, ghost known: iset<NodeId>)
      requires Own(myid, me.lsa) && Storable(me.lsa) && me.lsa.id in known && Injective(known)
      ensures Valid() && this.crypto == crypto && this.myid == myid && this.me == me && readers == map[]
      ensures rb.known == known && AsNode().adj == map[] && Bests(rib.ids) == map[]
    {
      this.crypto, this.myid, this.me, readers := crypto, myid, me, map[];
      rib := new LocRib(Some(myid));
      rb := new RtBuilder(Some(myid), known);
      new;
      rib.AddLsa(me);
    }

    lemma NodeFacts()
      requires Valid()
      ensures Exact(crypto, myid, AsNode()) && RibOk(rib.ids)
    {
      hide Stored, AcceptedIn, Exactly, Own, RibOk, Injective, Storables, Cached, Bests;
      ExactNode(crypto, myid, AsNode(), Shares());
    }

    /** A new reader adds an empty store and share. */
    twostate lemma NewReader(q: NodeId)
      requires q !in old(readers) && readers.Keys == old(readers).Keys + {q}
      requires forall k | k in old(readers) :: readers[k] == old(readers)[k] && unchanged(readers[k])
      requires readers[q].lsas == map[] && readers[q].Accepted() == {}
      ensures Shares() == old(Shares())[q := {}] && q !in old(Shares())
      ensures Stores() == old(Stores())[q := map[]] && q !in old(Stores())
    {
      hide AcceptedIn;
      forall k | k in old(readers) ensures Shares()[k] == old(Shares())[k] && Stores()[k] == old(Stores())[k] {
      }
    }

    /** A peer connects; `adds` is what its writer makes of the bests. */
    method Connect(q: NodeId, ghost adds: seq<Event>) returns (r: AdjRibIn)
      requires Valid() && q !in readers
      modifies this`readers
      ensures Valid() && fresh(r) && readers == old(readers)[q := r]
      ensures NodeStep(crypto, myid, old(AsNode()), Join(q, adds), AsNode())
    {
      hide AcceptedIn, StoreOk, Total, Stored, Accepts, RibOk, Bests, Exactly, Exact, Own, NodeStep;
      hide LocRib.Valid, AdjRibIn.Valid, TableOk, Shares, Stores;
      NodeFacts();
      ghost var x := AsNode();
      r := new AdjRibIn(crypto, Some(myid), Some(q), rib);
      readers := readers[q := r];
      NewReader(q);
      EmptyShare(me, old(Shares()), StoredIn(rib.ids), q);
      NodeFacts();
      JoinStep(crypto, myid, x, q, adds, AsNode());
    }

    /** Readers whose own state is right are right as long as the Loc-RIB has what they accept. */
    lemma ReadersStay()
      requires rib.Valid() && Exactly(me, Shares(), StoredIn(rib.ids))
      requires forall q | q in readers ::
                 && readers[q].dest == rib && readers[q].crypto == crypto
                 && readers[q].myid == Some(myid) && readers[q].remoteid == Some(q) && readers[q].Local()
      ensures ReadersOk()
    {
      hide Exactly, Stored, AcceptedIn, LocRib.Valid, AdjRibIn.Local;
      SharesStored(me, Shares(), rib.ids);
      forall q | q in readers ensures readers[q].Valid() {
        assert Shares()[q] == readers[q].Accepted();
      }
    }

    /** One reader's change changes its store and its share. */
    twostate lemma ReaderChanged(q: NodeId)
      requires readers == old(readers) && q in readers
      requires forall k | k in readers && k != q :: unchanged(readers[k])
      ensures Shares() == old(Shares())[q := readers[q].Accepted()] && q in old(Shares())
      ensures old(Shares())[q] == old(readers[q].Accepted()) && old(Stores())[q] == old(readers[q].lsas)
      ensures Stores() == old(Stores())[q := readers[q].lsas] && q in old(Stores())
    {
      hide AcceptedIn;
      forall k | k in readers && k != q ensures Shares()[k] == old(Shares())[k] && Stores()[k] == old(Stores())[k] {
      }
    }

    /** A peer sends an LSA. */
    method OnLsa(q: NodeId, o: Obj) returns (ret: int)
      requires Valid() && q in readers
      requires AllComparable(o.lsa.attrs) && Fresh(rib.ids, o)
      requires Accepts(crypto, Some(myid), Some(q), o.lsa) ==> o.lsa.id in rb.known
      modifies readers[q], rib`ids, rib`pending
      ensures Valid()
      ensures NodeStep(crypto, myid, old(AsNode()), Hear(q, old(readers[q].size), o), AsNode())
    {
      hide AcceptedIn, StoreOk, Total, Stored, Accepts, RibOk, Bests, Exactly, Exact, Own, NodeStep, Receive, Fresh;
      hide LocRib.Valid, RtBuilder.Valid, AdjRibIn.Local, Shares, Stores;
      NodeFacts();
      ghost var x, size, was := AsNode(), readers[q].size, rib.ids;
      FreshNotStored(was, o);
      ReadersApart();
      ret := readers[q].AddLsa(o);
      ReaderChanged(q);
      ShareReplaced(me, old(Shares()), StoredIn(was), q, readers[q].Accepted(), o, StoredIn(rib.ids));
      ReadersStay();
      NodeFacts();
      HearStep(crypto, myid, x, q, size, o, AsNode());
    }

    /** A peer disconnects. */
    method Disconnect(q: NodeId)
      requires Valid() && q in readers
      modifies this`readers, readers[q], rib`ids, rib`pending
      ensures Valid() && readers == old(readers) - {q}
      ensures NodeStep(crypto, myid, old(AsNode()), Leave(q), AsNode())
    {
      hide AcceptedIn, StoreOk, Total, Stored, Accepts, RibOk, Bests, Exactly, Exact, Own, NodeStep;
      hide LocRib.Valid, RtBuilder.Valid, AdjRibIn.Local, Shares, Stores;
      NodeFacts();
      ghost var x, was := AsNode(), rib.ids;
      ReadersApart();
      readers[q].Truncate();
      readers := readers - {q};
      ReaderGone(q);
      ShareDropped(me, old(Shares()), StoredIn(was), q, StoredIn(rib.ids));
      ReadersStay();
      NodeFacts();
      LeaveStep(crypto, myid, x, q, AsNode());
    }

    /** A reader takes its store and its share along. */
    twostate lemma ReaderGone(q: NodeId)
      requires q in old(readers) && readers == old(readers) - {q}
      requires forall k | k in readers :: unchanged(readers[k])
      ensures Shares() == old(Shares()) - {q} && q in old(Shares())
      ensures old(Shares())[q] == old(readers[q].Accepted())
      ensures Stores() == old(Stores()) - {q}
    {
      hide AcceptedIn;
      forall k | k in readers ensures Shares()[k] == old(Shares())[k] && Stores()[k] == old(Stores())[k] {
      }
    }

    /** `mylsa_add_peer` and `mylsa_del_peer`: a new own LSA takes the place of the old one. */
    method Renew(newme: Obj)
      requires Valid() && Own(myid, newme.lsa) && Storable(newme.lsa) && Fresh(rib.ids, newme)
      modifies this`me, rib`ids, rib`pending
      ensures Valid() && me == newme && readers == old(readers)
      ensures NodeStep(crypto, myid, old(AsNode()), Network.Renew(newme), AsNode())
    {
      hide AcceptedIn, StoreOk, Total, Stored, Accepts, RibOk, Bests, Exactly, Exact, NodeStep, Storable, Fresh;
      hide HasPath, Path, LocRib.Valid, RtBuilder.Valid, AdjRibIn.Local, Shares, Stores;
      NodeFacts();
      ghost var x, was := AsNode(), rib.ids;
      FreshNotStored(was, newme);
      SharesStored(me, Shares(), was);
      rib.ModLsa(me, newme);
      MeReplaced(me, newme, Shares(), StoredIn(was), StoredIn(rib.ids));
      me := newme;
      ReadersStay();
      NodeFacts();
      RenewStep(crypto, myid, x, newme, AsNode());
    }

    /** The recompute task: afterwards the routing table is computed from the true bests. */
    method Recompute()
      requires Valid()
      modifies rib, rb
      ensures Valid() && Cached(rib.ids, rib.myid) && readers == old(readers)
      ensures Matches(Some(myid), rb.table, Bests(rib.ids))
      ensures old(rib.events) <= rib.events
      ensures NodeStep(crypto, myid, old(AsNode()), Network.Recompute(rib.events[|old(rib.events)|..]), AsNode())
    {
      hide AcceptedIn, StoreOk, Total, Stored, Accepts, RibOk, Bests, Exactly, Exact, Own, NodeStep;
      hide Orderly, Follow, Matches, Storables, Injective, AdjRibIn.Local, Shares, Stores, Renewed;
      NodeFacts();
      ghost var x := AsNode();
      var told := |rib.events|;
      rib.Recompute();
      ghost var es := rib.events[told..];
      assert old(rib.events) == rib.events[..told] && rib.events == rib.events[..told] + es;
      FollowSplit(map[], rib.events[..told], es);
      rb.Listen(rib.events[told..]);
      assert StoredIn(rib.ids) == StoredIn(x.ids);
      ReadersStay();
      NodeFacts();
      RecomputeStep(crypto, myid, x, es, AsNode());
    }

    lemma ReadersApart()
      requires ReadersOk()
      ensures forall q, k | q in readers && k in readers && q != k :: readers[q] != readers[k]
    {
    }
  }

  lemma SharesStored(me: Obj, shares: map<NodeId, set<Obj>>, ids: Ids)
    requires Exactly(me, shares, StoredIn(ids))
    ensures forall q, p | q in shares && p in shares[q] :: Stored(ids, p)
    ensures Stored(ids, me)
  {
    hide Stored;
    forall q, p | q in shares && p in shares[q] ensures Stored(ids, p) {
      assert Shared(shares, p);
      assert p in StoredIn(ids);
    }
    assert me in StoredIn(ids);
  }

  lemma HearStep(c: Crypto, n: NodeId, x: Node, q: NodeId, size: nat, o: Obj, y: Node)
    requires RibOk(x.ids) && Exact(c, n, y) && q in x.adj && Bests(y.ids) == Bests(x.ids)
    requires y == x.(adj := x.adj[q := Receive(x.adj[q], size, o)], ids := y.ids)
    ensures NodeStep(c, n, x, Hear(q, size, o), y)
  {
    hide RibOk, Exact;
  }

  lemma LeaveStep(c: Crypto, n: NodeId, x: Node, q: NodeId, y: Node)
    requires RibOk(x.ids) && Exact(c, n, y) && Bests(y.ids) == Bests(x.ids)
    requires y == x.(adj := x.adj - {q}, ids := y.ids)
    ensures NodeStep(c, n, x, Leave(q), y)
  {
    hide RibOk, Exact;
  }

  lemma RenewStep(c: Crypto, n: NodeId, x: Node, me: Obj, y: Node)
    requires RibOk(x.ids) && Exact(c, n, y) && Bests(y.ids) == Bests(x.ids)
    requires Own(n, me.lsa) && y == x.(me := me, ids := y.ids)
    ensures NodeStep(c, n, x, Renew(me), y)
  {
    hide RibOk, Exact, Own;
  }

  lemma RecomputeStep(c: Crypto, n: NodeId, x: Node, es: seq<Event>, y: Node)
    requires RibOk(x.ids) && Exact(c, n, y) && y == x.(ids := y.ids)
    requires SameInputs(y.ids, x.ids) && Told(x.ids, y.ids, es)
    requires forall id | id in x.ids :: y.ids[id] == Renewed(x.ids, Some(n), x.ids[id])
    ensures NodeStep(c, n, x, Recompute(es), y)
  {
    hide RibOk, Exact, Told, SameInputs;
  }

  lemma JoinStep(c: Crypto, n: NodeId, x: Node, q: NodeId, adds: seq<Event>, y: Node)
    requires RibOk(x.ids) && Exact(c, n, y) && q !in x.adj && y == x.(adj := x.adj[q := map[]])
    ensures NodeStep(c, n, x, Join(q, adds), y)
  {
    hide RibOk, Exact;
  }

  lemma EmptyShare(me: Obj, shares: map<NodeId, set<Obj>>, s: iset<Obj>, q: NodeId)
    requires Exactly(me, shares, s) && q !in shares
    ensures Exactly(me, shares[q := {}], s)
  {
    forall p ensures p in s <==> p == me || Shared(shares[q := {}], p) {
      if Shared(shares, p) {
        var r :| r in shares && p in shares[r];
        assert p in shares[q := {}][r];
      }
    }
  }
}
