/** `adj_rib_in.c`, `lsa_path.c`: what one peer advertised, and what of it reaches the Loc-RIB. */
module AdjRibIn {
  import opened Bytes
  import opened Lsas
  import opened Codec
  import opened Signing
  import opened Accounting
  import opened Serialiser
  import opened LsaDiff
  import opened PathCost
  import opened LocRib

  const ADJ_RIB_IN_MAX_BYTES: nat := 1048576

  /** Hashing and signature checks, which are deterministic. */
  datatype Crypto = Crypto(keyId: Data -> NodeId, importable: Data -> bool, verifies: (Data, Data, seq<byte>) -> bool)

  /** The pass conditions of `map`. */
  predicate Accepts(c: Crypto, myid: Option<NodeId>, remoteid: Option<NodeId>, l: Lsa) {
    && WithinLimit(l)
    && HasPath(l) && Path(l) != []
    && remoteid == Some(Path(l)[0])
    && (myid.Some? ==> myid.value !in Path(l))
    && Authentic(c, l)
  }

  /** The LSA carries the key its id stands for, and a signature by that key. */
  predicate Authentic(c: Crypto, l: Lsa) {
    match Find(l.attrs, LSA_ATTR_TYPE_PUBKEY, [])
    case None => false
    case Some(key) =>
      && c.keyId(key.data) == l.id && c.importable(key.data)
      && match Find(l.attrs, LSA_ATTR_TYPE_SIGNATURE, [])
         case None => false
         case Some(sig) => c.verifies(key.data, sig.data, SignedBytes(l))
  }

  lemma AcceptsStorable(c: Crypto, myid: Option<NodeId>, remoteid: Option<NodeId>, l: Lsa)
    requires Accepts(c, myid, remoteid, l) && AllComparable(l.attrs)
    ensures Storable(l)
  {
  }

  /** `lsa_path_contains`. */
  method LsaPathContains(path: seq<byte>, id: NodeId) returns (r: bool)
    requires |path| % NODE_ID_LEN == 0
    ensures r <==> id in Hops(path)
  {
    hide Hops;
    var i := 0;
    assert path[0..] == path;
    while i < |path|
      invariant 0 <= i <= |path| && i % NODE_ID_LEN == 0
      invariant id in Hops(path) <==> id in Hops(path[i..])
    {
      HopsStep(path[i..]);
      assert path[i..][..NODE_ID_LEN] == path[i..i + NODE_ID_LEN];
      assert path[i..][NODE_ID_LEN..] == path[i + NODE_ID_LEN..];
      if path[i..i + NODE_ID_LEN] == id {
        return true;
      }
      i := i + NODE_ID_LEN;
    }
    assert path[i..] == [];
    NoHops();
    return false;
  }

  lemma NoHops()
    ensures Hops([]) == []
  {
  }

  lemma {:induction false} FindPrefixed(attrs: seq<Attr>, pre: seq<byte>, typ: int, key: seq<byte>)
    ensures Find(PrefixAll(attrs, pre), typ, key) ==
            match Find(attrs, typ, key) case Some(a) => Some(WithPrefix(a, pre)) case None => None
  {
    if attrs != [] {
      FindPrefixed(attrs[1..], pre, typ, key);
      assert PrefixAll(attrs, pre)[1..] == PrefixAll(attrs[1..], pre);
    }
  }

  /** Passing an LSA on puts the sender in front of its path. */
  lemma PathPrepended(l: Lsa, n: NodeId)
    requires HasPath(l)
    ensures HasPath(Prepend(l, n)) && Path(Prepend(l, n)) == [n] + Path(l)
  {
    FindPrefixed(l.attrs, n, LSA_ATTR_TYPE_ADV_PATH, []);
    var p := PathBytes(Prepend(l, n));
    assert p == n + PathBytes(l);
    HopsStep(p);
    assert p[..NODE_ID_LEN] == n && p[NODE_ID_LEN..] == PathBytes(l);
  }

  // ------------------------------------------------------------------------- the signature

  /** A key whose id is the LSA's own, and a signature that verifies over the frame of the signed part. */
  ghost predicate Vouched(c: Crypto, l: Lsa) {
    exists key, sig | key in l.attrs && sig in l.attrs ::
      && key.typ == LSA_ATTR_TYPE_PUBKEY && key.key == [] && c.keyId(key.data) == l.id && c.importable(key.data)
      && sig.typ == LSA_ATTR_TYPE_SIGNATURE && sig.key == []
      && c.verifies(key.data, sig.data, Frame(Lsa(l.id, SignedOnly(l.attrs)), false, []))
  }

  lemma AcceptedVouched(c: Crypto, myid: Option<NodeId>, remoteid: Option<NodeId>, l: Lsa)
    requires Accepts(c, myid, remoteid, l)
    ensures Vouched(c, l)
  {
    hide Frame, SignedOnly, Path;
    SignedBytesOfPart(l);
    var key := Find(l.attrs, LSA_ATTR_TYPE_PUBKEY, []).value;
    var sig := Find(l.attrs, LSA_ATTR_TYPE_SIGNATURE, []).value;
    assert key in l.attrs && sig in l.attrs;
  }

  /** The bytes to sign of an LSA that the owner of `key` issued under its id. */
  ghost predicate Issued(c: Crypto, issued: iset<Lsa>, key: Data, bytes: seq<byte>) {
    exists m | m in issued :: m.id == c.keyId(key) && bytes == Frame(Lsa(m.id, SignedOnly(m.attrs)), false, [])
  }

  /** If keys verify only what their owners signed, an accepted LSA has the signed part of one of theirs. */
  lemma AcceptedWasIssued(c: Crypto, issued: iset<Lsa>, myid: Option<NodeId>, remoteid: Option<NodeId>, l: Lsa)
    requires forall key, sig, bytes | c.verifies(key, sig, bytes) :: Issued(c, issued, key, bytes)
    requires forall m | m in issued :: Regular(m.attrs, MAX_DEPTH)
    requires Accepts(c, myid, remoteid, l) && Regular(l.attrs, MAX_DEPTH)
    ensures exists m | m in issued :: m.id == l.id && SignedOnly(m.attrs) == SignedOnly(l.attrs)
  {
    hide Frame, SignedOnly, Path, Body, Regular;
    AcceptedVouched(c, myid, remoteid, l);
    LimitFitsBuffers(l, []);
    var key, sig :| key in l.attrs && sig in l.attrs && c.keyId(key.data) == l.id &&
                    c.verifies(key.data, sig.data, Frame(Lsa(l.id, SignedOnly(l.attrs)), false, []));
    var m :| m in issued && m.id == c.keyId(key.data)
             && Frame(Lsa(l.id, SignedOnly(l.attrs)), false, []) == Frame(Lsa(m.id, SignedOnly(m.attrs)), false, []);
    SignedBytesOfPart(l);
    SignedBytesOfPart(m);
    SignedBytesBind(l, m);
  }

  lemma {:induction false} FindSigned(attrs: seq<Attr>, typ: int, key: seq<byte>)
    requires Sorted(attrs)
    ensures Find(SignedOnly(attrs), typ, key) ==
            match Find(attrs, typ, key)
            case Some(a) => if a.signed then Some(SignedAttr(a)) else None
            case None => None
  {
    hide KeyLess, SignedAttr;
    if attrs != [] {
      FindSigned(attrs[1..], typ, key);
      OnlyFirst(attrs);
      SignedKey(attrs[0]);
      var rest := SignedOnly(attrs[1..]);
      if attrs[0].signed {
        assert SignedOnly(attrs)[0] == SignedAttr(attrs[0]) && SignedOnly(attrs)[1..] == rest;
      } else {
        assert SignedOnly(attrs) == rest;
      }
    }
  }

  lemma SignedKey(a: Attr)
    ensures SameKey(SignedAttr(a), a)
  {
  }

  lemma OnlyFirst(attrs: seq<Attr>)
    requires attrs != [] && Sorted(attrs)
    ensures Find(attrs[1..], attrs[0].typ, attrs[0].key) == None && Sorted(attrs[1..])
  {
    var r := Find(attrs[1..], attrs[0].typ, attrs[0].key);
    if r.Some? {
      var i :| 0 <= i < |attrs[1..]| && attrs[1..][i] == r.value;
      assert KeyLess(attrs[0], attrs[i + 1]);
      KeyTrichotomy(attrs[0], r.value);
    }
  }

  /** What costs and routes depend on, the path aside, is read from the signed part only. */
  lemma SignedInputs(l: Lsa, peer: NodeId)
    requires Regular(l.attrs, MAX_DEPTH)
    ensures var part := Lsa(l.id, SignedOnly(l.attrs));
            Version(part) == Version(l) && GetPeerInfo(part, peer) == GetPeerInfo(l, peer)
  {
    hide SignedOnly, BigEndian, Find;
    FindSigned(l.attrs, LSA_ATTR_TYPE_VERSION, []);
    FindSigned(l.attrs, LSA_ATTR_TYPE_PEER, peer);
    var a := Find(l.attrs, LSA_ATTR_TYPE_PEER, peer);
    if a.Some? && a.value.data.Set? {
      InnerSorted(l.attrs, a.value);
      FindSigned(a.value.data.attrs, LSA_PEER_ATTR_TYPE_METRIC, []);
      FindSigned(a.value.data.attrs, LSA_PEER_ATTR_TYPE_PEER_FLAGS, []);
    }
  }

  lemma InnerSorted(attrs: seq<Attr>, a: Attr)
    requires Regular(attrs, MAX_DEPTH) && a in attrs && a.data.Set?
    ensures Sorted(a.data.attrs)
  {
    var i :| 0 <= i < |attrs| && attrs[i] == a;
    assert RegularAttr(attrs[i], MAX_DEPTH);
    assert Regular(a.data.attrs, MAX_DEPTH - 1);
  }

  /** So these are as their owner signed them, whoever passed the LSA on. */
  lemma AcceptedInputs(c: Crypto, issued: iset<Lsa>, myid: Option<NodeId>, remoteid: Option<NodeId>, l: Lsa)
    returns (m: Lsa)
    requires forall key, sig, bytes | c.verifies(key, sig, bytes) :: Issued(c, issued, key, bytes)
    requires forall m | m in issued :: Regular(m.attrs, MAX_DEPTH)
    requires Accepts(c, myid, remoteid, l) && Regular(l.attrs, MAX_DEPTH)
    ensures m in issued && m.id == l.id && Version(m) == Version(l)
    ensures forall peer :: GetPeerInfo(m, peer) == GetPeerInfo(l, peer)
  {
    hide Regular, Accepts, SignedOnly, Frame, GetPeerInfo, Version;
    AcceptedWasIssued(c, issued, myid, remoteid, l);
    m :| m in issued && m.id == l.id && SignedOnly(m.attrs) == SignedOnly(l.attrs);
    forall peer ensures GetPeerInfo(m, peer) == GetPeerInfo(l, peer) && Version(m) == Version(l) {
      SignedInputs(l, peer);
      SignedInputs(m, peer);
    }
    SignedInputs(l, l.id);
    SignedInputs(m, l.id);
  }

  function Reversed(s: seq<NodeId>): (r: seq<NodeId>)
    ensures |r| == |s| && forall i | 0 <= i < |s| :: r[i] == s[|s| - 1 - i]
  {
    if s == [] then [] else [s[|s| - 1]] + Reversed(s[..|s| - 1])
  }

  /** Hops put their ids in front of the path, the last one first, and touch nothing else. */
  lemma {:induction false} TravelPath(l: Lsa, hops: seq<NodeId>)
    requires HasPath(l)
    ensures HasPath(Travel(l, hops)) && Path(Travel(l, hops)) == Reversed(hops) + Path(l)
    ensures Travel(l, hops).id == l.id
    ensures forall typ, key | typ != LSA_ATTR_TYPE_ADV_PATH ::
              Find(Travel(l, hops).attrs, typ, key) == Find(l.attrs, typ, key)
  {
    hide HasPath, Path, Find;
    if hops == [] {
      assert [] + Path(l) == Path(l);
    } else {
      var n, q := hops[|hops| - 1], hops[..|hops| - 1];
      var m := Travel(l, q);
      TravelPath(l, q);
      PathPrepended(m, n);
      assert [n] + (Reversed(q) + Path(l)) == Reversed(hops) + Path(l);
      forall typ, key | typ != LSA_ATTR_TYPE_ADV_PATH
        ensures Find(Prepend(m, n).attrs, typ, key) == Find(m.attrs, typ, key)
      {
        FindPrefixed(m.attrs, n, typ, key);
        FoundType(m.attrs, typ, key);
      }
    }
  }

  lemma FoundType(attrs: seq<Attr>, typ: int, key: seq<byte>)
    ensures Find(attrs, typ, key).Some? ==> Find(attrs, typ, key).value.typ == typ
  {
  }

  /**
   * An originator's LSA with an unsigned empty path, its key, and a signature over the frame of
   * its signed part: after any chain of hops it passes the filter of the peer that sent it last,
   * unless it went through this node or has become too large.
   */
  lemma HonestAccepted(c: Crypto, myid: Option<NodeId>, q: NodeId, l: Lsa, hops: seq<NodeId>, key: Attr, sig: Attr)
    requires HasPath(l) && Path(l) == [] && forall a | a in l.attrs && a.typ == LSA_ATTR_TYPE_ADV_PATH :: !a.signed
    requires Find(l.attrs, LSA_ATTR_TYPE_PUBKEY, []) == Some(key) && c.keyId(key.data) == l.id && c.importable(key.data)
    requires Find(l.attrs, LSA_ATTR_TYPE_SIGNATURE, []) == Some(sig)
    requires c.verifies(key.data, sig.data, Frame(Lsa(l.id, SignedOnly(l.attrs)), false, []))
    requires hops != []
    ensures Accepts(c, myid, Some(q), Travel(l, hops)) <==>
              && q == hops[|hops| - 1] && (myid.Some? ==> myid.value !in hops)
              && LsaBytes(Travel(l, hops)) + NODE_ID_LEN <= LSA_MAX_BYTES
  {
    hide Frame, SignedOnly, Path, HasPath, Find, LsaBytes, Travel;
    TravelPath(l, hops);
    assert !SignsPath(l);
    SignedBytesSurvive(l, hops);
    SignedBytesOfPart(l);
    var r := Reversed(hops);
    assert r + [] == r && r[0] == hops[|hops| - 1];
    if myid.Some? && myid.value in hops {
      var i :| 0 <= i < |hops| && hops[i] == myid.value;
      assert r[|hops| - 1 - i] == myid.value;
    }
    if myid.Some? && myid.value in r {
      var i :| 0 <= i < |r| && r[i] == myid.value;
      assert hops[|hops| - 1 - i] == myid.value;
    }
  }

  // -------------------------------------------------------------------------- the store

  /** The tree of stored LSAs, by id. */
  type Store = map<NodeId, Obj>

  /** The next store: an empty LSA withdraws, one beyond the quota is dropped with what it was to replace. */
  function Receive(store: Store, size: nat, o: Obj): Store {
    if o.lsa.attrs == [] || size + LsaBytes(o.lsa) > ADJ_RIB_IN_MAX_BYTES then store - {o.lsa.id}
    else if o.lsa.id in store && Normal(store[o.lsa.id].lsa.attrs) == Normal(o.lsa.attrs) then store
    else store[o.lsa.id := o]
  }

  ghost predicate StoreOk(store: Store) {
    forall id | id in store :: store[id].lsa.id == id && AllComparable(store[id].lsa.attrs)
  }

  function AcceptedIn(c: Crypto, myid: Option<NodeId>, remoteid: Option<NodeId>, store: Store): set<Obj> {
    set id | id in store && Accepts(c, myid, remoteid, store[id].lsa) :: store[id]
  }

  lemma AcceptedMembers(c: Crypto, myid: Option<NodeId>, remoteid: Option<NodeId>, store: Store)
    requires StoreOk(store)
    ensures forall p :: p in AcceptedIn(c, myid, remoteid, store) <==>
              p.lsa.id in store && store[p.lsa.id] == p && Accepts(c, myid, remoteid, p.lsa)
  {
    hide Accepts, AllComparable;
  }

  /** What a stored object adds to the accepted ones. */
  function Share(c: Crypto, myid: Option<NodeId>, remoteid: Option<NodeId>, o: Option<Obj>): set<Obj> {
    if o.Some? && Accepts(c, myid, remoteid, o.value.lsa) then {o.value} else {}
  }

  function At(store: Store, id: NodeId): Option<Obj> {
    if id in store then Some(store[id]) else None
  }

  lemma AcceptedWithout(c: Crypto, myid: Option<NodeId>, remoteid: Option<NodeId>, store: Store, id: NodeId)
    requires StoreOk(store)
    ensures StoreOk(store - {id})
    ensures Share(c, myid, remoteid, At(store, id)) <= AcceptedIn(c, myid, remoteid, store)
    ensures AcceptedIn(c, myid, remoteid, store - {id}) ==
            AcceptedIn(c, myid, remoteid, store) - Share(c, myid, remoteid, At(store, id))
  {
    hide Accepts, AllComparable;
    AcceptedMembers(c, myid, remoteid, store);
    AcceptedMembers(c, myid, remoteid, store - {id});
  }

  lemma AcceptedWith(c: Crypto, myid: Option<NodeId>, remoteid: Option<NodeId>, store: Store, o: Obj)
    requires StoreOk(store) && AllComparable(o.lsa.attrs)
    ensures StoreOk(store[o.lsa.id := o])
    ensures AcceptedIn(c, myid, remoteid, store[o.lsa.id := o]) ==
            AcceptedIn(c, myid, remoteid, store - {o.lsa.id}) + Share(c, myid, remoteid, Some(o))
  {
    hide Accepts, AllComparable;
    AcceptedMembers(c, myid, remoteid, store - {o.lsa.id});
    AcceptedMembers(c, myid, remoteid, store[o.lsa.id := o]);
  }

  /** The bytes of a set of LSAs. */
  ghost function Total(s: set<Obj>): nat {
    if s == {} then 0
    else
      var o :| o in s;
      LsaBytes(o.lsa) + Total(s - {o})
  }

  lemma {:induction false} TotalWithout(s: set<Obj>, o: Obj)
    requires o in s
    ensures Total(s) == LsaBytes(o.lsa) + Total(s - {o})
    decreases |s|
  {
    var p :| p in s && Total(s) == LsaBytes(p.lsa) + Total(s - {p});
    if p != o {
      TotalWithout(s - {p}, o);
      TotalWithout(s - {o}, p);
      assert s - {p} - {o} == s - {o} - {p};
    }
  }

  lemma TotalWith(s: set<Obj>, o: Obj)
    requires o !in s
    ensures Total(s + {o}) == LsaBytes(o.lsa) + Total(s)
  {
    TotalWithout(s + {o}, o);
    assert s + {o} - {o} == s;
  }

  class AdjRibIn {
    const crypto: Crypto
    const myid: Option<NodeId>
    const remoteid: Option<NodeId>
    /** Where its listener, `rib_listener_to_loc.c`, passes events on to. */
    const dest: LocRib
    var lsas: Store
    var size: nat

    predicate Passes(l: Lsa) {
      Accepts(crypto, myid, remoteid, l)
    }

    /** The stored LSAs that `map` lets through. */
    function Accepted(): set<Obj>
      reads this
    {
      AcceptedIn(crypto, myid, remoteid, lsas)
    }

    /** `size` accounts for exactly what is accepted, within the quota. */
    ghost predicate Local()
      reads this
    {
      StoreOk(lsas) && size == Total(Accepted()) && size <= ADJ_RIB_IN_MAX_BYTES
    }

    /** Everything accepted is in the Loc-RIB. */
    ghost predicate Valid()
      reads this, dest
    {
      dest.Valid() && Local() && forall o | o in Accepted() :: Stored(dest.ids, o)
    }

    /** `adj_rib_in_init` and the registration of the listener. */
    constructor (crypto: Crypto, myid: Option<NodeId>, remoteid: Option<NodeId>, dest: LocRib)
      requires dest.Valid()
      ensures Valid() && this.dest == dest && lsas == map[] && Accepted() == {} && this.crypto == crypto
      ensures this.myid == myid && this.remoteid == remoteid
    {
      this.crypto, this.myid, this.remoteid, this.dest := crypto, myid, remoteid, dest;
      lsas := map[];
      size := 0;
    }

    /** `map`. */
    method Map(lsa: Option<Obj>) returns (r: Option<Obj>)
      ensures r == if lsa.Some? && Passes(lsa.value.lsa) then lsa else None
      ensures r.Some? ==> Vouched(crypto, r.value.lsa)
    {
      hide Hops, SignedBytes, Vouched;
      if lsa.Some? && Passes(lsa.value.lsa) {
        AcceptedVouched(crypto, myid, remoteid, lsa.value.lsa);
      }
      if lsa == None {
        return None;
      }
      var l := lsa.value.lsa;
      if LsaBytes(l) + NODE_ID_LEN > LSA_MAX_BYTES {
        return None;
      }
      var attr := Find(l.attrs, LSA_ATTR_TYPE_ADV_PATH, []);
      if attr == None {
        return None;
      }
      if DataLen(attr.value.data) < NODE_ID_LEN || DataLen(attr.value.data) % NODE_ID_LEN != 0 {
        NoHops();
        return None;
      }
      var path := attr.value.data.bytes;
      HopsStep(path);
      if remoteid == None || remoteid.value != path[..NODE_ID_LEN] {
        return None;
      }
      if myid.Some? {
        var looped := LsaPathContains(path, myid.value);
        if looped {
          return None;
        }
      }
      var key := Find(l.attrs, LSA_ATTR_TYPE_PUBKEY, []);
      if key == None || crypto.keyId(key.value.data) != l.id || !crypto.importable(key.value.data) {
        return None;
      }
      var sig := Find(l.attrs, LSA_ATTR_TYPE_SIGNATURE, []);
      if sig == None {
        return None;
      }
      LimitFitsBuffers(l, []);
      var data := SerialiseFrame(l, true, []);
      SignedFrame(l);
      if !crypto.verifies(key.value.data, sig.value.data, data) {
        return None;
      }
      return lsa;
    }

    /** `notify`: the size and the Loc-RIB follow what `map` makes of the change. */
    method Notify(old_: Option<Obj>, new_: Option<Obj>)
      requires dest.Valid()
      requires old_.Some? && Passes(old_.value.lsa) ==> Stored(dest.ids, old_.value) && LsaBytes(old_.value.lsa) <= size
      requires new_.Some? && Passes(new_.value.lsa) ==> Fresh(dest.ids, new_.value)
      requires new_.Some? ==> AllComparable(new_.value.lsa.attrs)
      requires old_.Some? && new_.Some? ==> old_.value.lsa.id == new_.value.lsa.id
      modifies this`size, dest`ids, dest`pending
      ensures dest.Valid()
      ensures size == old(size) - (if old_.Some? && Passes(old_.value.lsa) then LsaBytes(old_.value.lsa) else 0)
                      + (if new_.Some? && Passes(new_.value.lsa) then LsaBytes(new_.value.lsa) else 0)
      ensures forall p :: Stored(dest.ids, p) <==>
                (old(Stored(dest.ids, p)) && !(old_ == Some(p) && Passes(p.lsa))) || (new_ == Some(p) && Passes(p.lsa))
      ensures Bests(dest.ids) == old(Bests(dest.ids))
      ensures dest.ids.Keys <= old(dest.ids.Keys) +
                (if new_.Some? && Passes(new_.value.lsa) then {new_.value.lsa.id} else {})
    {
      hide Storable, Bests, AllComparable;
      var was := Map(old_);
      var now := Map(new_);
      if was.Some? {
        size := size - LsaBytes(was.value.lsa);
      }
      if now.Some? {
        AcceptsStorable(crypto, myid, remoteid, now.value.lsa);
        size := size + LsaBytes(now.value.lsa);
      }
      if was == None && now.Some? {
        dest.AddLsa(now.value);
      } else if was.Some? && now.Some? {
        dest.ModLsa(was.value, now.value);
      } else if was.Some? && now == None {
        dest.DelLsa(was.value);
      }
    }

    /** Only this reader's LSAs changed in the Loc-RIB, and to what it accepts now. */
    twostate predicate Replaced()
      reads this, dest
    {
      && (forall p :: Stored(dest.ids, p) <==> (old(Stored(dest.ids, p)) && p !in old(Accepted())) || p in Accepted())
      && Bests(dest.ids) == old(Bests(dest.ids))
    }

    /** `adj_rib_in_del_lsa`. */
    method DelLsa(id: NodeId)
      requires Valid() && id in lsas
      modifies this`lsas, this`size, dest`ids, dest`pending
      ensures Valid() && lsas == old(lsas) - {id} && Replaced()
      ensures Accepted() <= old(Accepted()) && dest.ids.Keys <= old(dest.ids.Keys)
    {
      hide Accepts, AllComparable, Stored, AcceptedIn, StoreOk, LsaBytes, Bests;
      var o := lsas[id];
      AcceptedWithout(crypto, myid, remoteid, lsas, id);
      if Passes(o.lsa) {
        TotalWithout(Accepted(), o);
      }
      assert Accepted() - {} == Accepted();
      Notify(Some(o), None);
      lsas := lsas - {id};
    }

    /** Tells the listener and files the new LSA. */
    method Put(old_: Option<Obj>, o: Obj)
      requires Valid() && AllComparable(o.lsa.attrs) && Fresh(dest.ids, o)
      requires size + LsaBytes(o.lsa) <= ADJ_RIB_IN_MAX_BYTES
      requires old_ == if o.lsa.id in lsas then Some(lsas[o.lsa.id]) else None
      modifies this`lsas, this`size, dest`ids, dest`pending
      ensures Valid() && lsas == old(lsas)[o.lsa.id := o] && Replaced()
      ensures Accepted() <= old(Accepted()) + {o}
      ensures dest.ids.Keys <= old(dest.ids.Keys) + if Passes(o.lsa) then {o.lsa.id} else {}
    {
      hide Accepts, AllComparable, Stored, AcceptedIn, StoreOk, LsaBytes, Fresh, Bests, Total, LocRib.Valid;
      AcceptedWithout(crypto, myid, remoteid, lsas, o.lsa.id);
      AcceptedWith(crypto, myid, remoteid, lsas, o);
      if old_.Some? && Passes(old_.value.lsa) {
        TotalWithout(Accepted(), old_.value);
      }
      FreshNotStored(dest.ids, o);
      ghost var left := Accepted() - Share(crypto, myid, remoteid, old_);
      assert Accepted() - {} == Accepted() && left + {} == left;
      if Passes(o.lsa) {
        TotalWith(left, o);
      }
      assert old_.Some? ==> old_.value.lsa.id == o.lsa.id by { FiledAt(lsas, o.lsa.id); }
      Notify(old_, Some(o));
      lsas := lsas[o.lsa.id := o];
    }

    /** `adj_rib_in_add_lsa`. */
    method AddLsa(o: Obj) returns (ret: int)
      requires Valid() && AllComparable(o.lsa.attrs) && Fresh(dest.ids, o)
      modifies this`lsas, this`size, dest`ids, dest`pending
      ensures Valid() && Replaced()
      ensures Accepted() <= old(Accepted()) + {o}
      ensures dest.ids.Keys <= old(dest.ids.Keys) + if Passes(o.lsa) then {o.lsa.id} else {}
      ensures lsas == Receive(old(lsas), old(size), o)
      // a withdrawal, or an LSA beyond the quota, leaves none of its id; any other is there afterwards
      ensures o.lsa.id in lsas <==> o.lsa.attrs != [] && old(size) + LsaBytes(o.lsa) <= ADJ_RIB_IN_MAX_BYTES
      ensures o.lsa.id in lsas ==> Normal(lsas[o.lsa.id].lsa.attrs) == Normal(o.lsa.attrs)
      ensures forall id | id != o.lsa.id :: At(lsas, id) == At(old(lsas), id)
      // one that does not differ is not passed on
      ensures o.lsa.id in lsas && o.lsa.id in old(lsas)
              && Normal(old(lsas)[o.lsa.id].lsa.attrs) == Normal(o.lsa.attrs) ==>
                lsas == old(lsas) && dest.ids == old(dest.ids) && dest.pending == old(dest.pending)
      ensures ret == if o.lsa.attrs == [] then (if o.lsa.id in old(lsas) then 0 else -1)
                     else if old(size) + LsaBytes(o.lsa) > ADJ_RIB_IN_MAX_BYTES then -1
                     else 0
    {
      hide Accepts, AllComparable, LsaBytes, Stored, DiffKeys, Normal, Bests, AcceptedIn, Receive, At, Total;
      hide StoreOk, LocRib.Valid;
      ReceiveFacts(lsas, size, o);
      var id := o.lsa.id;
      if o.lsa.attrs == [] {
        if id !in lsas {
          return -1;
        }
        DelLsa(id);
        return 0;
      }
      if size + LsaBytes(o.lsa) > ADJ_RIB_IN_MAX_BYTES {
        if id in lsas {
          DelLsa(id);
        }
        return -1;
      }
      if id !in lsas {
        Put(None, o);
      } else {
        StoredComparable(lsas, id);
        var diffs := Diff(lsas[id].lsa.attrs, o.lsa.attrs);
        DiffersOrNot(lsas[id].lsa.attrs, o.lsa.attrs);
        if diffs != 0 {
          Put(Some(lsas[id]), o);
        }
      }
      return 0;
    }

    /** `adj_rib_in_truncate` empties the store and this reader's part of the Loc-RIB. */
    method Truncate()
      requires Valid()
      modifies this`lsas, this`size, dest`ids, dest`pending
      ensures Valid() && lsas == map[] && size == 0 && Accepted() == {} && Replaced()
      ensures dest.ids.Keys <= old(dest.ids.Keys)
    {
      hide Accepts, Stored, StoreOk, Total, Bests;
      while lsas != map[]
        invariant Valid() && Accepted() <= old(Accepted()) && Replaced() && dest.ids.Keys <= old(dest.ids.Keys)
        decreases |lsas|
      {
        var id :| id in lsas;
        assert |lsas - {id}| < |lsas| by { Smaller(lsas, id); }
        DelLsa(id);
      }
      assert Accepted() == {};
      NothingTotal();
    }
  }

  lemma StoredComparable(store: Store, id: NodeId)
    requires StoreOk(store) && id in store
    ensures AllComparable(store[id].lsa.attrs)
  {
  }

  /** The next store by the slot of the LSA's id and those of the others. */
  lemma ReceiveFacts(store: Store, size: nat, o: Obj)
    ensures var id, r := o.lsa.id, Receive(store, size, o);
            && (id in r <==> o.lsa.attrs != [] && size + LsaBytes(o.lsa) <= ADJ_RIB_IN_MAX_BYTES)
            && (id in r ==> Normal(r[id].lsa.attrs) == Normal(o.lsa.attrs))
            && (forall x | x != id :: At(r, x) == At(store, x))
            && (id !in r ==> r == store - {id}) && (id !in r && id !in store ==> r == store)
            && (id in r && id in store && Normal(store[id].lsa.attrs) == Normal(o.lsa.attrs) ==> r == store)
            && (id in r && !(id in store && Normal(store[id].lsa.attrs) == Normal(o.lsa.attrs)) ==> r == store[id := o])
  {
    hide LsaBytes, Normal;
  }

  lemma Smaller(store: Store, id: NodeId)
    requires id in store
    ensures |store - {id}| < |store|
  {
    assert (store - {id}).Keys == store.Keys - {id};
    assert |(store - {id}).Keys| == |store - {id}| && |store.Keys| == |store|;
  }

  lemma NothingTotal()
    ensures Total({}) == 0
  {
  }

  lemma FiledAt(store: Store, id: NodeId)
    requires StoreOk(store)
    ensures id in store ==> store[id].lsa.id == id
  {
  }

  lemma DiffersOrNot(a: seq<Attr>, b: seq<Attr>)
    requires AllComparable(a) && AllComparable(b)
    ensures |DiffKeys(a, b)| == 0 <==> Normal(a) == Normal(b)
  {
    NoDiffs(a, b);
  }

  lemma FreshNotStored(ids: Ids, o: Obj)
    requires Fresh(ids, o)
    ensures !Stored(ids, o)
  {
    assert Stored(ids, o) ==> Holds(ids, o);
  }

  lemma SignedFrame(l: Lsa)
    ensures Frame(l, true, []) == SignedBytes(l)
  {
  }
}
