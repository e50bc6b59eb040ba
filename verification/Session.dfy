/** `dgp_reader.c` with its Adj-RIB-In: what one read from a peer does. */
module Session {
  import opened Bytes
  import opened Lsas
  import opened Codec
  import opened Reader
  import opened Reprint
  import opened LsaDiff
  import opened PathCost
  import opened LocRib
  import opened AdjRibIn
  import opened Replication

  /** Every LSA that comes off a stream can be stored and compared. */
  lemma {:induction false} StreamComparable(s: seq<byte>)
    ensures forall i | 0 <= i < |ParseStream(s).lsas| :: AllComparable(ParseStream(s).lsas[i].attrs)
    decreases |s|
  {
    hide ParseStream, Deser, AllComparable;
    if s == [] {
      StreamEnd();
    } else {
      StreamTurn(s);
      var r := Deser(Window(s));
      if r.Got? {
        StreamComparable(s[r.n..]);
        if r.lsa.Some? {
          ReceivedComparable(Window(s));
        }
      }
    }
  }

  /** The allocator: the `i`-th new object never takes the address of one in use. */
  ghost predicate Allocates(alloc: (Ids, nat) -> nat) {
    forall ids, i, p | Holds(ids, p) :: p.ptr != alloc(ids, i)
  }

  lemma AllocatedFresh(alloc: (Ids, nat) -> nat, ids: Ids, i: nat, l: Lsa)
    requires Allocates(alloc)
    ensures Fresh(ids, Obj(alloc(ids, i), l))
  {
  }

  lemma OneReceived(store: Store, sizes: seq<nat>, os: seq<Obj>, size: nat, o: Obj)
    requires |sizes| == |os|
    ensures ReceiveAll(store, sizes + [size], os + [o]) == Receive(ReceiveAll(store, sizes, os), size, o)
  {
    assert (sizes + [size])[..|os|] == sizes && (os + [o])[..|os|] == os;
  }

  /** Each size is that of what the store accepted when the object came. */
  ghost predicate Accounted(c: Crypto, myid: Option<NodeId>, remoteid: Option<NodeId>, store: Store,
                            sizes: seq<nat>, os: seq<Obj>)
    requires |sizes| == |os|
  {
    forall i | 0 <= i < |os| :: sizes[i] == Total(AcceptedIn(c, myid, remoteid, ReceiveAll(store, sizes[..i], os[..i])))
  }

  lemma OneAccounted(c: Crypto, myid: Option<NodeId>, remoteid: Option<NodeId>, store: Store,
                     sizes: seq<nat>, os: seq<Obj>, size: nat, o: Obj)
    requires |sizes| == |os| && Accounted(c, myid, remoteid, store, sizes, os)
    requires size == Total(AcceptedIn(c, myid, remoteid, ReceiveAll(store, sizes, os)))
    ensures Accounted(c, myid, remoteid, store, sizes + [size], os + [o])
  {
    hide ReceiveAll, AcceptedIn, Total;
    var more, all := sizes + [size], os + [o];
    assert more[..|os|] == sizes && all[..|os|] == os;
    forall i | 0 <= i < |all|
      ensures more[i] == Total(AcceptedIn(c, myid, remoteid, ReceiveAll(store, more[..i], all[..i])))
    {
      if i < |os| {
        assert more[..i] == sizes[..i] && all[..i] == os[..i];
      }
    }
  }

  class Session {
    const reader: DgpReader
    const adj: AdjRibIn

    constructor (reader: DgpReader, adj: AdjRibIn)
      ensures this.reader == reader && this.adj == adj
    {
      this.reader, this.adj := reader, adj;
    }

    /** The LSAs of a read are added one after the other, each a new object. */
    method AddAll(ls: seq<Lsa>, alloc: (Ids, nat) -> nat) returns (ghost sizes: seq<nat>, ghost os: seq<Obj>)
      requires adj.Valid() && Allocates(alloc)
      requires forall i | 0 <= i < |ls| :: AllComparable(ls[i].attrs)
      modifies adj`lsas, adj`size, adj.dest`ids, adj.dest`pending
      ensures adj.Valid() && |sizes| == |os| && Delivered(os, ls)
      ensures adj.lsas == ReceiveAll(old(adj.lsas), sizes, os)
      ensures Accounted(adj.crypto, adj.myid, adj.remoteid, old(adj.lsas), sizes, os)
    {
      hide AllComparable, Stored, StoreOk, Receive, ReceiveAll, Bests, Accepts, AcceptedIn, Fresh, Allocates,
           Accounted, Total;
      sizes, os := [], [];
      NoneReceived(adj.crypto, adj.myid, adj.remoteid, adj.lsas);
      var i := 0;
      while i < |ls|
        invariant 0 <= i <= |ls| && |sizes| == |os| == i
        invariant adj.Valid()
        invariant Delivered(os, ls[..i])
        invariant adj.lsas == ReceiveAll(old(adj.lsas), sizes, os)
        invariant Accounted(adj.crypto, adj.myid, adj.remoteid, old(adj.lsas), sizes, os)
      {
        var o := Obj(alloc(adj.dest.ids, i), ls[i]);
        ghost var size := adj.size;
        AllocatedFresh(alloc, adj.dest.ids, i, ls[i]);
        OneAccounted(adj.crypto, adj.myid, adj.remoteid, old(adj.lsas), sizes, os, size, o);
        OneReceived(old(adj.lsas), sizes, os, size, o);
        var ret := adj.AddLsa(o);
        sizes, os := sizes + [size], os + [o];
        i := i + 1;
      }
      assert ls[..i] == ls;
    }

    /** `dgp_reader_read`: a chunk of the stream updates the store by exactly the frames it completes. */
    method Readable(chunk: seq<byte>, alloc: (Ids, nat) -> nat)
      returns (link: Link, ghost sizes: seq<nat>, ghost os: seq<Obj>)
      requires reader.Valid() && adj.Valid() && 0 < |chunk| <= BUFSIZE - reader.bytes
      requires Allocates(alloc)
      modifies reader, reader.buf, adj`lsas, adj`size, adj.dest`ids, adj.dest`pending
      ensures var r := ParseStream(old(reader.buf[..reader.bytes]) + chunk);
              && link == r.link && |sizes| == |os| && Delivered(os, r.lsas)
              && adj.lsas == ReceiveAll(old(adj.lsas), sizes, os)
              && Accounted(adj.crypto, adj.myid, adj.remoteid, old(adj.lsas), sizes, os)
              && (link == Open ==> reader.Valid() && reader.buf[..reader.bytes] == r.rest)
      ensures adj.Valid()
    {
      hide ParseStream, AllComparable, Stored, StoreOk, Allocates, Delivered, Accounted, Total;
      var before := |reader.lsas|;
      StreamComparable(reader.buf[..reader.bytes] + chunk);
      link := reader.Read(chunk);
      sizes, os := AddAll(reader.lsas[before..], alloc);
    }
  }

  lemma NoneReceived(c: Crypto, myid: Option<NodeId>, remoteid: Option<NodeId>, store: Store)
    ensures ReceiveAll(store, [], []) == store && Accounted(c, myid, remoteid, store, [], [])
  {
  }
}
