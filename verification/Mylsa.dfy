/** `dvpn.c`: how a daemon builds, versions and signs its own LSA. */
module Mylsa {
  import opened Bytes
  import opened Varint
  import opened Lsas
  import opened Codec
  import opened Signing
  import opened Serialiser
  import opened PathCost
  import opened LocRib
  import opened AdjRibIn
  import Accounting
  import LsaObjects
  import Routes

  type LsaObject = LsaObjects.LsaObject

  const LSA_ATTR_TYPE_NODE_NAME: int := 3

  /** The public key in DER form, and signing with the private one. */
  datatype Keys = Keys(pubkey: seq<byte>, sign: seq<byte> -> seq<byte>)

  // ----------------------------------------------------------------------- the attributes

  /** `v` in network byte order, cut to `n` bytes. */
  function NetworkOrder(v: nat, n: nat): (r: seq<byte>)
    ensures |r| == n
  {
    if n == 0 then [] else NetworkOrder(v / 256, n - 1) + [v % 256]
  }

  function Pow256(n: nat): (r: nat)
    ensures r > 0
  {
    if n == 0 then 1 else 256 * Pow256(n - 1)
  }

  /** Reading the bytes gives the value modulo what they can hold. */
  lemma {:induction false} NetworkOrderValue(v: nat, n: nat) returns (q: nat)
    ensures v == q * Pow256(n) + BigEndian(NetworkOrder(v, n)) && BigEndian(NetworkOrder(v, n)) < Pow256(n)
  {
    q := v;
    if n > 0 {
      q := NetworkOrderValue(v / 256, n - 1);
      var r, m := NetworkOrder(v, n), Pow256(n - 1);
      assert r[..n - 1] == NetworkOrder(v / 256, n - 1);
      assert q * (256 * m) == 256 * (q * m);
    }
  }

  lemma EightBytes(v: nat)
    ensures BigEndian(NetworkOrder(v, 8)) == v % TWO_64
  {
    hide Pow256, BigEndian, NetworkOrder;
    var q := NetworkOrderValue(v, 8);
    EightPowers();
  }

  lemma EightPowers()
    ensures Pow256(8) == TWO_64
  {
    assert Pow256(4) == 0x1_0000_0000;
  }

  lemma TwoBytes(v: nat)
    ensures BigEndian(NetworkOrder(v, 2)) == v % 65536
  {
    var q := NetworkOrderValue(v, 2);
    assert Pow256(2) == 65536;
  }

  /** `conf_peer_type_to_lsa_peer_flags`, which aborts on the other types. */
  function PeerFlags(t: Routes.PeerType): Option<byte> {
    match t
    case EPEER => Some(0)
    case CUSTOMER => Some(1)
    case TRANSIT => Some(2)
    case IPEER => Some(3)
    case _ => None
  }

  function MetricAttr(cost: int): Attr {
    Attr(LSA_PEER_ATTR_TYPE_METRIC, [], true, Plain(NetworkOrder(cost % 65536, 2)))
  }

  function FlagsAttr(flags: byte): Attr {
    Attr(LSA_PEER_ATTR_TYPE_PEER_FLAGS, [], true, Plain([flags]))
  }

  function PeerAttr(id: NodeId, cost: int, flags: byte): Attr {
    Attr(LSA_ATTR_TYPE_PEER, id, true, Set([MetricAttr(cost), FlagsAttr(flags)]))
  }

  function VersionAttr(v: nat): Attr {
    Attr(LSA_ATTR_TYPE_VERSION, [], true, Plain(NetworkOrder(v, 8)))
  }

  function PubkeyAttr(keys: Keys): Attr {
    Attr(LSA_ATTR_TYPE_PUBKEY, [], true, Plain(keys.pubkey))
  }

  function SignatureAttr(sig: seq<byte>): Attr {
    Attr(LSA_ATTR_TYPE_SIGNATURE, [], false, Plain(sig))
  }

  const PATH_ATTR := Attr(LSA_ATTR_TYPE_ADV_PATH, [], false, Plain([]))

  /** The set without the attribute of a type, if it has one without a key. */
  function Without(attrs: seq<Attr>, typ: int): seq<Attr> {
    match Find(attrs, typ, [])
    case Some(a) => LsaObjects.Remove(attrs, a)
    case None => attrs
  }

  /** The set with a new `SIGNATURE`, over the signed part. */
  function Signed(keys: Keys, id: NodeId, attrs: seq<Attr>): seq<Attr> {
    var rest := Without(attrs, LSA_ATTR_TYPE_SIGNATURE);
    Insert(rest, SignatureAttr(keys.sign(Frame(Lsa(id, rest), true, []))))
  }

  /** The version is in eight plain bytes. */
  predicate HasVersion(attrs: seq<Attr>) {
    match Find(attrs, LSA_ATTR_TYPE_VERSION, [])
    case Some(a) => a.signed && a.data.Plain? && |a.data.bytes| == 8
    case None => false
  }

  /** The clock in units of 1/256 second, or one more than the current version. */
  function NextVersion(current: nat, now: nat): nat {
    var t := (now * 256) % TWO_64;
    if t <= current then (current + 1) % TWO_64 else t
  }

  function Reversioned(id: NodeId, attrs: seq<Attr>, now: nat): seq<Attr> {
    Insert(Without(attrs, LSA_ATTR_TYPE_VERSION), VersionAttr(NextVersion(Version(Lsa(id, attrs)), now)))
  }

  // -------------------------------------------------------------------------- the own LSA

  /** What every operation keeps: an unsigned empty path, the key, a version, and a signature that fits. */
  ghost predicate Mine(keys: Keys, l: Lsa) {
    && Ready(keys, l.attrs)
    && Find(l.attrs, LSA_ATTR_TYPE_SIGNATURE, []) ==
       Some(SignatureAttr(keys.sign(Frame(Lsa(l.id, SignedOnly(l.attrs)), false, []))))
  }

  /** The same before it is signed. */
  ghost predicate Ready(keys: Keys, attrs: seq<Attr>) {
    && Regular(attrs, MAX_DEPTH) && NoEmptySet(attrs)
    && Find(attrs, LSA_ATTR_TYPE_ADV_PATH, []) == Some(PATH_ATTR)
    && (forall a | a in attrs && a.typ == LSA_ATTR_TYPE_ADV_PATH :: a == PATH_ATTR)
    && Find(attrs, LSA_ATTR_TYPE_PUBKEY, []) == Some(PubkeyAttr(keys))
    && HasVersion(attrs)
    && (forall a | a in attrs && a.typ == LSA_ATTR_TYPE_SIGNATURE :: !a.signed && a.data.Plain?)
  }

  // ------------------------------------------------------------------- sets and their keys

  lemma {:induction false} FindInsert(attrs: seq<Attr>, a: Attr, typ: int, key: seq<byte>)
    requires Find(attrs, a.typ, a.key) == None
    ensures Find(Insert(attrs, a), typ, key) == if a.typ == typ && a.key == key then Some(a) else Find(attrs, typ, key)
  {
    if attrs != [] && !KeyLess(a, attrs[0]) {
      FindInsert(attrs[1..], a, typ, key);
    }
  }

  lemma {:induction false} FindRemove(attrs: seq<Attr>, a: Attr, typ: int, key: seq<byte>)
    requires Sorted(attrs) && a in attrs
    ensures Find(LsaObjects.Remove(attrs, a), typ, key) ==
            if a.typ == typ && a.key == key then None else Find(attrs, typ, key)
  {
    FindUnique(attrs, a);
    if attrs[0] == a {
      if a.typ == typ && a.key == key && Find(attrs[1..], typ, key).Some? {
        var b := Find(attrs[1..], typ, key).value;
        var i :| 0 <= i < |attrs[1..]| && attrs[1..][i] == b;
        assert KeyLess(attrs[0], attrs[i + 1]);
        KeyTrichotomy(attrs[0], b);
      }
    } else {
      var rest := attrs[1..];
      assert a in rest;
      FindRemove(rest, a, typ, key);
    }
  }

  lemma RemoveMembers(attrs: seq<Attr>, a: Attr)
    requires a in attrs
    ensures forall x | x in LsaObjects.Remove(attrs, a) :: x in attrs
  {
    var k := LsaObjects.RemoveAt(attrs, a);
  }

  lemma RemoveRegular(attrs: seq<Attr>, a: Attr, depth: nat)
    requires Regular(attrs, depth) && a in attrs
    ensures Regular(LsaObjects.Remove(attrs, a), depth)
  {
    var k := LsaObjects.RemoveAt(attrs, a);
    var r := LsaObjects.Remove(attrs, a);
    forall i, j | 0 <= i < j < |r| ensures KeyLess(r[i], r[j]) {
      assert KeyLess(attrs[if i < k then i else i + 1], attrs[if j < k then j else j + 1]);
    }
    forall i | 0 <= i < |r| ensures RegularAttr(r[i], depth) {
      assert r[i] == attrs[if i < k then i else i + 1];
    }
  }

  /** What a removal does to everything that matters. */
  lemma WithoutFacts(attrs: seq<Attr>, typ: int)
    requires Regular(attrs, MAX_DEPTH) && NoEmptySet(attrs)
    ensures var r := Without(attrs, typ);
            && Regular(r, MAX_DEPTH) && NoEmptySet(r) && Find(r, typ, []) == None
            && (forall x | x in r :: x in attrs)
            && forall t, k | !(t == typ && k == []) :: Find(r, t, k) == Find(attrs, t, k)
  {
    hide Regular, Find, LsaObjects.Remove, NoEmptySet;
    if Find(attrs, typ, []).Some? {
      var a := Find(attrs, typ, []).value;
      FoundKey(attrs, typ, []);
      RegularSorted(attrs, MAX_DEPTH);
      RemoveRegular(attrs, a, MAX_DEPTH);
      RemoveMembers(attrs, a);
      NoEmptySetMembers(attrs);
      NoEmptySetMembers(LsaObjects.Remove(attrs, a));
      forall t, k
        ensures Find(LsaObjects.Remove(attrs, a), t, k) == if t == typ && k == [] then None else Find(attrs, t, k)
      {
        FindRemove(attrs, a, t, k);
      }
    }
  }

  lemma FoundKey(attrs: seq<Attr>, typ: int, key: seq<byte>)
    ensures Find(attrs, typ, key).Some? ==>
              var a := Find(attrs, typ, key).value; a in attrs && a.typ == typ && a.key == key
  {
  }

  lemma RegularSorted(attrs: seq<Attr>, depth: nat)
    requires Regular(attrs, depth)
    ensures Sorted(attrs)
  {
  }

  lemma InsertFacts(attrs: seq<Attr>, a: Attr)
    requires Regular(attrs, MAX_DEPTH) && NoEmptySet(attrs) && Find(attrs, a.typ, a.key) == None
    requires RegularAttr(a, MAX_DEPTH) && Freeable(a)
    ensures var r := Insert(attrs, a);
            && Regular(r, MAX_DEPTH) && NoEmptySet(r) && Find(r, a.typ, a.key) == Some(a)
            && (forall x :: x in r <==> x in attrs || x == a)
            && forall t, k | !(t == a.typ && k == a.key) :: Find(r, t, k) == Find(attrs, t, k)
  {
    hide Regular, RegularAttr, Find, Insert, NoEmptySet, Freeable;
    var r := Insert(attrs, a);
    InsertRegular(attrs, a, MAX_DEPTH);
    InsertMembers(attrs, a);
    forall x ensures x in r <==> x in attrs || x == a {
      assert x in r <==> x in multiset(r);
      assert x in attrs <==> x in multiset(attrs);
    }
    NoEmptySetMembers(attrs);
    NoEmptySetMembers(r);
    forall t, k ensures Find(r, t, k) == if t == a.typ && k == a.key then Some(a) else Find(attrs, t, k) {
      FindInsert(attrs, a, t, k);
    }
  }

  /** Unsigned attributes are not in the signed part. */
  lemma {:induction false} UnsignedInvisible(attrs: seq<Attr>, a: Attr)
    requires !a.signed
    ensures SignedOnly(Insert(attrs, a)) == SignedOnly(attrs)
  {
    if attrs != [] && !KeyLess(a, attrs[0]) {
      UnsignedInvisible(attrs[1..], a);
    }
  }

  // -------------------------------------------------------------------------- the operations

  lemma SignedMine(keys: Keys, id: NodeId, attrs: seq<Attr>)
    requires Ready(keys, attrs)
    ensures Mine(keys, Lsa(id, Signed(keys, id, attrs)))
    ensures forall t, k | t != LSA_ATTR_TYPE_SIGNATURE :: Find(Signed(keys, id, attrs), t, k) == Find(attrs, t, k)
  {
    hide Regular, Find, Insert, NoEmptySet, Frame, SignedOnly, Without;
    var rest := Without(attrs, LSA_ATTR_TYPE_SIGNATURE);
    var a := SignatureAttr(keys.sign(Frame(Lsa(id, rest), true, [])));
    WithoutFacts(attrs, LSA_ATTR_TYPE_SIGNATURE);
    InsertFacts(rest, a);
    UnsignedInvisible(rest, a);
    SignedBytesOfPart(Lsa(id, rest));
  }

  lemma ReversionedReady(keys: Keys, id: NodeId, attrs: seq<Attr>, now: nat)
    requires Ready(keys, attrs)
    ensures Ready(keys, Reversioned(id, attrs, now))
    ensures Version(Lsa(id, Reversioned(id, attrs, now))) == NextVersion(Version(Lsa(id, attrs)), now)
    ensures forall t, k | t != LSA_ATTR_TYPE_VERSION :: Find(Reversioned(id, attrs, now), t, k) == Find(attrs, t, k)
  {
    hide Regular, Find, Insert, NoEmptySet, Without, BigEndian, NetworkOrder;
    var v := NextVersion(Version(Lsa(id, attrs)), now);
    WithoutFacts(attrs, LSA_ATTR_TYPE_VERSION);
    InsertFacts(Without(attrs, LSA_ATTR_TYPE_VERSION), VersionAttr(v));
    EightBytes(v);
  }

  /** A peer that is added is read back with its cost and type. */
  lemma PeerReadBack(l: Lsa, id: NodeId, cost: int, flags: byte)
    requires Find(l.attrs, LSA_ATTR_TYPE_PEER, id) == Some(PeerAttr(id, cost, flags))
    ensures GetPeerInfo(l, id) == Some(PeerInfo(cost % 65536, flags % 2 == 1, (flags / 2) % 2 == 1))
  {
    hide NetworkOrder;
    TwoBytes(cost % 65536);
    var s := [MetricAttr(cost), FlagsAttr(flags)];
    assert Find(s, LSA_PEER_ATTR_TYPE_METRIC, []) == Some(s[0]);
    assert s[1..][0] == s[1];
    assert Find(s, LSA_PEER_ATTR_TYPE_PEER_FLAGS, []) == Some(s[1]);
  }

  function WithPeer(attrs: seq<Attr>, id: NodeId, cost: int, flags: byte): seq<Attr> {
    Insert(attrs, PeerAttr(id, cost, flags))
  }

  function WithoutPeer(attrs: seq<Attr>, id: NodeId): seq<Attr>
    requires Find(attrs, LSA_ATTR_TYPE_PEER, id).Some?
  {
    LsaObjects.Remove(attrs, Find(attrs, LSA_ATTR_TYPE_PEER, id).value)
  }

  /** A new version, signed anew. */
  function Renewed(keys: Keys, id: NodeId, attrs: seq<Attr>, now: nat): seq<Attr> {
    Signed(keys, id, Reversioned(id, attrs, now))
  }

  lemma MineReady(keys: Keys, l: Lsa)
    requires Mine(keys, l)
    ensures Ready(keys, l.attrs)
  {
  }

  lemma RenewedMine(keys: Keys, id: NodeId, attrs: seq<Attr>, now: nat)
    requires Ready(keys, attrs)
    ensures Mine(keys, Lsa(id, Renewed(keys, id, attrs, now)))
    ensures Version(Lsa(id, Renewed(keys, id, attrs, now))) == NextVersion(Version(Lsa(id, attrs)), now)
    ensures forall q :: GetPeerInfo(Lsa(id, Renewed(keys, id, attrs, now)), q) == GetPeerInfo(Lsa(id, attrs), q)
  {
    hide Ready, Mine, Find, Reversioned, Signed, BigEndian, NextVersion;
    ReversionedReady(keys, id, attrs, now);
    SignedMine(keys, id, Reversioned(id, attrs, now));
  }

  /** The next version is greater, unless it wraps around. */
  lemma VersionGrows(current: nat, now: nat)
    requires current < TWO_64 - 1
    ensures current < NextVersion(current, now) < TWO_64 && (now * 256) % TWO_64 <= NextVersion(current, now)
  {
  }

  lemma PeerFits(id: NodeId, cost: int, flags: byte)
    ensures RegularAttr(PeerAttr(id, cost, flags), MAX_DEPTH) && Freeable(PeerAttr(id, cost, flags))
  {
    hide NetworkOrder;
    var s := [MetricAttr(cost), FlagsAttr(flags)];
    assert RegularAttr(s[0], MAX_DEPTH - 1) && RegularAttr(s[1], MAX_DEPTH - 1);
    assert s[1..] == [s[1]] && s[1..][1..] == [];
    assert Freeable(s[0]) && Freeable(s[1]);
    assert NoEmptySet([s[1]]) && NoEmptySet(s);
  }

  lemma PeerAdded(keys: Keys, attrs: seq<Attr>, id: NodeId, cost: int, flags: byte)
    requires Ready(keys, attrs) && Find(attrs, LSA_ATTR_TYPE_PEER, id) == None
    ensures Ready(keys, WithPeer(attrs, id, cost, flags))
    ensures Find(WithPeer(attrs, id, cost, flags), LSA_ATTR_TYPE_PEER, id) == Some(PeerAttr(id, cost, flags))
    ensures forall t, k | !(t == LSA_ATTR_TYPE_PEER && k == id) ::
              Find(WithPeer(attrs, id, cost, flags), t, k) == Find(attrs, t, k)
  {
    hide Regular, RegularAttr, Find, Insert, NoEmptySet, Freeable;
    PeerFits(id, cost, flags);
    InsertFacts(attrs, PeerAttr(id, cost, flags));
  }

  lemma PeerDeleted(keys: Keys, attrs: seq<Attr>, id: NodeId)
    requires Ready(keys, attrs) && Find(attrs, LSA_ATTR_TYPE_PEER, id).Some?
    ensures Ready(keys, WithoutPeer(attrs, id))
    ensures Find(WithoutPeer(attrs, id), LSA_ATTR_TYPE_PEER, id) == None
    ensures forall t, k | !(t == LSA_ATTR_TYPE_PEER && k == id) ::
              Find(WithoutPeer(attrs, id), t, k) == Find(attrs, t, k)
  {
    hide Regular, Find, LsaObjects.Remove, NoEmptySet;
    var a, r := Find(attrs, LSA_ATTR_TYPE_PEER, id).value, WithoutPeer(attrs, id);
    FoundKey(attrs, LSA_ATTR_TYPE_PEER, id);
    RegularSorted(attrs, MAX_DEPTH);
    RemoveRegular(attrs, a, MAX_DEPTH);
    RemoveMembers(attrs, a);
    NoEmptySetMembers(attrs);
    NoEmptySetMembers(r);
    forall t, k ensures Find(r, t, k) == if t == LSA_ATTR_TYPE_PEER && k == id then None else Find(attrs, t, k) {
      FindRemove(attrs, a, t, k);
    }
  }

  /** The own LSA with a peer more: read back with its cost and type, newer, and signed as before. */
  lemma AddedPeer(keys: Keys, l: Lsa, id: NodeId, typ: Routes.PeerType, cost: int, now: nat)
    requires Mine(keys, l) && Find(l.attrs, LSA_ATTR_TYPE_PEER, id) == None && PeerFlags(typ).Some?
    ensures var r := Lsa(l.id, Renewed(keys, l.id, WithPeer(l.attrs, id, cost, PeerFlags(typ).value), now));
            && Mine(keys, r)
            && GetPeerInfo(r, id) ==
               Some(PeerInfo(cost % 65536, typ.CUSTOMER? || typ.IPEER?, typ.TRANSIT? || typ.IPEER?))
            && (forall q | q != id :: GetPeerInfo(r, q) == GetPeerInfo(l, q))
            && (Version(l) < TWO_64 - 1 ==> Version(l) < Version(r) && (now * 256) % TWO_64 <= Version(r))
  {
    hide Ready, Mine, Renewed, WithPeer, NextVersion, Find;
    var attrs := WithPeer(l.attrs, id, cost, PeerFlags(typ).value);
    MineReady(keys, l);
    PeerAdded(keys, l.attrs, id, cost, PeerFlags(typ).value);
    RenewedMine(keys, l.id, attrs, now);
    PeerReadBack(Lsa(l.id, attrs), id, cost, PeerFlags(typ).value);
    assert Version(Lsa(l.id, attrs)) == Version(l);
    if Version(l) < TWO_64 - 1 {
      VersionGrows(Version(l), now);
    }
  }

  /** The own LSA with a peer less. */
  lemma DeletedPeer(keys: Keys, l: Lsa, id: NodeId, now: nat)
    requires Mine(keys, l) && Find(l.attrs, LSA_ATTR_TYPE_PEER, id).Some?
    ensures var r := Lsa(l.id, Renewed(keys, l.id, WithoutPeer(l.attrs, id), now));
            && Mine(keys, r)
            && GetPeerInfo(r, id) == None
            && (forall q | q != id :: GetPeerInfo(r, q) == GetPeerInfo(l, q))
            && (Version(l) < TWO_64 - 1 ==> Version(l) < Version(r) && (now * 256) % TWO_64 <= Version(r))
  {
    hide Ready, Mine, Renewed, WithoutPeer, NextVersion, Find;
    var attrs := WithoutPeer(l.attrs, id);
    MineReady(keys, l);
    PeerDeleted(keys, l.attrs, id);
    RenewedMine(keys, l.id, attrs, now);
    assert Version(Lsa(l.id, attrs)) == Version(l);
    if Version(l) < TWO_64 - 1 {
      VersionGrows(Version(l), now);
    }
  }

  /** The own LSA is one the rest of the daemon expects: an empty path, and nothing that cannot be dropped. */
  lemma MineIsOwn(keys: Keys, l: Lsa)
    requires Mine(keys, l)
    ensures HasPath(l) && Path(l) == [] && NoEmptySet(l.attrs) && Regular(l.attrs, MAX_DEPTH)
  {
    hide Regular, NoEmptySet;
  }

  /**
   * Two nodes that list each other with the types and costs of their configurations are joined by
   * a link of that cost, on which both ends must agree about who is whose customer.
   */
  lemma ConfiguredLink(ids: Ids, links: seq<Routes.Link<NodeId>>, x: NodeId, y: NodeId, from: Obj, to: Obj,
                       tx: Routes.PeerType, ty: Routes.PeerType, cx: int, cy: int)
    requires IdsOk(ids) && LinksOf(ids, links) && IsNewest(ids, x, from) && IsNewest(ids, y, to)
    requires PeerFlags(tx).Some? && PeerFlags(ty).Some?
    requires Find(from.lsa.attrs, LSA_ATTR_TYPE_PEER, y) == Some(PeerAttr(y, cx, PeerFlags(tx).value))
    requires Find(to.lsa.attrs, LSA_ATTR_TYPE_PEER, x) == Some(PeerAttr(x, cy, PeerFlags(ty).value))
    ensures (exists l | l in links :: l.from == x && l.to == y)
            && forall l | l in links && l.from == x && l.to == y ::
                 l.cost == cx % 65536
                 && l.typ == if tx.IPEER? && ty.IPEER? then Routes.IPEER
                             else if (tx.TRANSIT? || tx.IPEER?) && (ty.CUSTOMER? || ty.IPEER?) then Routes.TRANSIT
                             else if (tx.CUSTOMER? || tx.IPEER?) && (ty.TRANSIT? || ty.IPEER?) then Routes.CUSTOMER
                             else Routes.EPEER
  {
    hide Find, IdsOk, LinksOf, IsNewest, GetPeerInfo;
    PeerReadBack(from.lsa, y, cx, PeerFlags(tx).value);
    PeerReadBack(to.lsa, x, cy, PeerFlags(ty).value);
    LinkEnds(ids, links, x, y, from, to);
  }

  // -------------------------------------------------------------------------------- its travels

  /** Each hop adds one id to the size. */
  lemma {:induction false} TravelSize(keys: Keys, l: Lsa, hops: seq<NodeId>)
    requires Mine(keys, l)
    ensures Accounting.PathCount(Travel(l, hops).attrs) == 1
    ensures LsaBytes(Travel(l, hops)) == LsaBytes(l) + |hops| * NODE_ID_LEN
  {
    hide Mine;
    if hops == [] {
      MinePath(keys, l);
    } else {
      TravelSize(keys, l, hops[..|hops| - 1]);
      PrefixSize(Travel(l, hops[..|hops| - 1]).attrs, hops[|hops| - 1]);
    }
  }

  lemma MinePath(keys: Keys, l: Lsa)
    requires Mine(keys, l)
    ensures Accounting.PathCount(l.attrs) == 1
  {
    FoundKey(l.attrs, LSA_ATTR_TYPE_ADV_PATH, []);
    var i :| 0 <= i < |l.attrs| && l.attrs[i] == PATH_ATTR;
    forall j | 0 <= j < |l.attrs| && l.attrs[j].typ == LSA_ATTR_TYPE_ADV_PATH ensures j == i {
      assert l.attrs[j] in l.attrs;
      KeyTrichotomy(PATH_ATTR, PATH_ATTR);
    }
    OneCounted(l.attrs, i);
  }

  lemma {:induction false} OneCounted(attrs: seq<Attr>, i: int)
    requires i < |attrs| && (i >= 0 ==> attrs[i].data.Plain?)
    requires forall j | 0 <= j < |attrs| :: attrs[j].typ == LSA_ATTR_TYPE_ADV_PATH <==> j == i
    ensures Accounting.PathCount(attrs) == if i >= 0 then 1 else 0
    decreases |attrs|
  {
    if attrs != [] {
      OneCounted(attrs[1..], if i >= 0 then i - 1 else i);
    }
  }

  lemma {:induction false} PrefixSize(attrs: seq<Attr>, n: NodeId)
    ensures Accounting.PathCount(PrefixAll(attrs, n)) == Accounting.PathCount(attrs)
    ensures SetSize(PrefixAll(attrs, n)) == SetSize(attrs) + Accounting.PathCount(attrs) * NODE_ID_LEN
  {
    hide DeepSize;
    if attrs != [] {
      PrefixSize(attrs[1..], n);
      var r := PrefixAll(attrs, n);
      assert r[0] == WithPrefix(attrs[0], n) && r[1..] == PrefixAll(attrs[1..], n);
      PrefixedSize(attrs[0], n);
    }
  }

  lemma PrefixedSize(a: Attr, n: NodeId)
    ensures DeepSize(WithPrefix(a, n)) == DeepSize(a) +
              if a.typ == LSA_ATTR_TYPE_ADV_PATH && a.data.Plain? then NODE_ID_LEN else 0
  {
  }

  /** The keys are those of `id`, for everyone. */
  ghost predicate KeysOf(c: Crypto, id: NodeId, keys: Keys) {
    && c.keyId(Plain(keys.pubkey)) == id && c.importable(Plain(keys.pubkey))
    && forall bytes {:trigger keys.sign(bytes)} :: c.verifies(Plain(keys.pubkey), Plain(keys.sign(bytes)), bytes)
  }

  /**
   * A node's own LSA, whatever was done to it, is accepted after any chain of hops: by every node
   * it did not go through, from the peer that sent it last, until it has grown to the limit.
   */
  lemma AcceptedEverywhere(c: Crypto, keys: Keys, l: Lsa, hops: seq<NodeId>, n: NodeId, q: NodeId)
    requires KeysOf(c, l.id, keys) && Mine(keys, l) && hops != []
    ensures Accepts(c, Some(n), Some(q), Travel(l, hops)) <==>
              && q == hops[|hops| - 1] && n !in hops
              && LsaBytes(l) + (|hops| + 1) * NODE_ID_LEN <= Accounting.LSA_MAX_BYTES
  {
    hide Regular, NoEmptySet, Frame, SignedOnly, LsaBytes, Travel, Find, Path, HasPath;
    MineIsOwn(keys, l);
    TravelSize(keys, l, hops);
    var key := PubkeyAttr(keys);
    var sig := SignatureAttr(keys.sign(Frame(Lsa(l.id, SignedOnly(l.attrs)), false, [])));
    HonestAccepted(c, Some(n), q, l, hops, key, sig);
  }

  // -------------------------------------------------------------------------------- the code

  /** `lsa_clone`. */
  method Clone(l: LsaObject) returns (c: LsaObject)
    requires l.Valid()
    ensures fresh(c) && c.Valid() && c.Value() == l.Value() && c.refcount == 1
  {
    c := new LsaObjects.LsaObject(l.id);
    c.root, c.bytes := l.root, l.bytes;
  }

  /** `lsa_update_version`, with the clock's value. */
  method UpdateVersion(l: LsaObject, now: nat)
    requires l.Valid() && l.refcount == 1 && HasVersion(l.root)
    modifies l`bytes, l`root
    ensures l.Valid() && l.root == Reversioned(l.id, old(l.root), now)
  {
    hide LsaObjects.Ordered, LsaBytes, Insert, LsaObjects.Remove, NetworkOrder, BigEndian;
    var attr := Find(l.root, LSA_ATTR_TYPE_VERSION, []).value;
    var curver := BigEndian(attr.data.bytes);
    OrderedSorted(l.root);
    FindRemove(l.root, attr, LSA_ATTR_TYPE_VERSION, []);
    var ok := l.DelAttr(LSA_ATTR_TYPE_VERSION, []);
    var t64 := (now * 256) % TWO_64;
    if t64 <= curver {
      t64 := (curver + 1) % TWO_64;
    }
    l.AddAttr([], LSA_ATTR_TYPE_VERSION, true, [], NetworkOrder(t64, 8));
  }

  lemma OrderedSorted(attrs: seq<Attr>)
    requires LsaObjects.Ordered(attrs)
    ensures Sorted(attrs)
  {
  }

  /** The bytes to sign fit the buffer test. */
  predicate Signable(id: NodeId, attrs: seq<Attr>) {
    |Body(Lsa(id, Without(attrs, LSA_ATTR_TYPE_SIGNATURE)), true, [])| <= 65536 - 128
  }

  /** `lsa_sign`: `!ok` is its abort on bytes beyond the buffer test. */
  method Sign(keys: Keys, l: LsaObject) returns (ok: bool)
    requires l.Valid() && l.refcount == 1
    requires Find(l.root, LSA_ATTR_TYPE_SIGNATURE, []).Some? ==>
               Find(l.root, LSA_ATTR_TYPE_SIGNATURE, []).value.data.Plain?
    requires l.bytes <= SIZE_MAX
    modifies l`bytes, l`root
    ensures ok <==> Signable(l.id, old(l.root))
    ensures ok ==> l.Valid() && l.root == Signed(keys, l.id, old(l.root))
  {
    hide LsaObjects.Ordered, LsaBytes, Insert, LsaObjects.Remove, Body, NetworkOrder;
    var attr := Find(l.root, LSA_ATTR_TYPE_SIGNATURE, []);
    OrderedSorted(l.root);
    WithoutSize(l.id, l.root, LSA_ATTR_TYPE_SIGNATURE);
    if attr.Some? {
      FindRemove(l.root, attr.value, LSA_ATTR_TYPE_SIGNATURE, []);
      var deleted := l.DelAttr(LSA_ATTR_TYPE_SIGNATURE, []);
    }
    var value := Lsa(l.id, l.root);
    SignedSize(value);
    var serlen := SerialiseLength(value, true, []);
    if serlen > 65536 - 128 {
      return false;
    }
    var data := SerialiseFrame(value, true, []);
    l.AddAttr([], LSA_ATTR_TYPE_SIGNATURE, false, [], keys.sign(data));
    return true;
  }

  lemma WithoutSize(id: NodeId, attrs: seq<Attr>, typ: int)
    ensures LsaBytes(Lsa(id, Without(attrs, typ))) <= LsaBytes(Lsa(id, attrs))
  {
    var a := Find(attrs, typ, []);
    if a.Some? {
      var k := LsaObjects.RemoveAt(attrs, a.value);
    }
  }

  lemma SignedSize(l: Lsa)
    requires LsaBytes(l) <= SIZE_MAX
    ensures |Body(l, true, [])| <= LsaBytes(l)
  {
    Accounting.EncAttrsSize(l.attrs, true, []);
  }

  lemma {:induction false} ReplaceInserted(attrs: seq<Attr>, a: Attr, b: Attr)
    requires Find(attrs, a.typ, a.key) == None && SameKey(a, b)
    ensures LsaObjects.Replace(Insert(attrs, a), a, b) == Insert(attrs, b)
  {
    if attrs != [] {
      if KeyLess(a, attrs[0]) {
        assert ([a] + attrs)[1..] == attrs;
      } else {
        ReplaceInserted(attrs[1..], a, b);
      }
    }
  }

  /** An attribute added to a set that was just added. */
  lemma NestedInsert(attrs: seq<Attr>, s: Attr, a: Attr)
    requires Find(attrs, s.typ, s.key) == None && s.data.Set? && Find(s.data.attrs, a.typ, a.key) == None
    ensures var path := [LsaObjects.Step(s.typ, s.key)];
            && LsaObjects.HasRoom(Insert(attrs, s), path, a)
            && LsaObjects.InsertAt(Insert(attrs, s), path, a) == Insert(attrs, s.(data := Set(Insert(s.data.attrs, a))))
  {
    hide Insert, Find;
    var path := [LsaObjects.Step(s.typ, s.key)];
    FindInsert(attrs, s, s.typ, s.key);
    assert path[1..] == [];
    ReplaceInserted(attrs, s, s.(data := Set(Insert(s.data.attrs, a))));
  }

  lemma PeerInserted(attrs: seq<Attr>, id: NodeId, cost: int, flags: byte)
    requires Find(attrs, LSA_ATTR_TYPE_PEER, id) == None
    ensures var path, empty := [LsaObjects.Step(LSA_ATTR_TYPE_PEER, id)], Attr(LSA_ATTR_TYPE_PEER, id, true, Set([]));
            && LsaObjects.HasRoom(Insert(attrs, empty), path, MetricAttr(cost))
            && var mid := LsaObjects.InsertAt(Insert(attrs, empty), path, MetricAttr(cost));
               LsaObjects.HasRoom(mid, path, FlagsAttr(flags))
               && LsaObjects.InsertAt(mid, path, FlagsAttr(flags)) == WithPeer(attrs, id, cost, flags)
  {
    hide LsaObjects.HasRoom, LsaObjects.InsertAt, NetworkOrder;
    var empty := Attr(LSA_ATTR_TYPE_PEER, id, true, Set([]));
    var one := empty.(data := Set([MetricAttr(cost)]));
    NestedInsert(attrs, empty, MetricAttr(cost));
    NestedInsert(attrs, one, FlagsAttr(flags));
    assert Insert([], MetricAttr(cost)) == [MetricAttr(cost)];
    assert Insert([MetricAttr(cost)], FlagsAttr(flags)) == [MetricAttr(cost), FlagsAttr(flags)];
  }

  /** A new version and a new signature. */
  method Renew(keys: Keys, l: LsaObject, now: nat) returns (ok: bool)
    requires l.Valid() && l.refcount == 1 && Ready(keys, l.root) && l.bytes <= SSIZE_MAX
    modifies l`bytes, l`root
    ensures ok <==> Signable(l.id, Reversioned(l.id, old(l.root), now))
    ensures ok ==> l.Valid() && l.root == Renewed(keys, l.id, old(l.root), now)
  {
    hide LsaObjects.Ordered, LsaBytes, Reversioned, Signable, Signed, Regular, NoEmptySet;
    ReversionedReady(keys, l.id, l.root, now);
    ReversionedSize(l.id, l.root, now);
    UpdateVersion(l, now);
    SignatureIsPlain(keys, l.root);
    ok := Sign(keys, l);
  }

  lemma ReversionedSize(id: NodeId, attrs: seq<Attr>, now: nat)
    requires HasVersion(attrs)
    ensures LsaBytes(Lsa(id, Reversioned(id, attrs, now))) == LsaBytes(Lsa(id, attrs))
  {
    hide Insert, LsaObjects.Remove, NetworkOrder, BigEndian;
    var a, b := Find(attrs, LSA_ATTR_TYPE_VERSION, []).value, VersionAttr(NextVersion(Version(Lsa(id, attrs)), now));
    var k := LsaObjects.RemoveAt(attrs, a);
    InsertSize(LsaObjects.Remove(attrs, a), b);
  }

  lemma SignatureIsPlain(keys: Keys, attrs: seq<Attr>)
    requires Ready(keys, attrs)
    ensures Find(attrs, LSA_ATTR_TYPE_SIGNATURE, []).Some? ==>
              Find(attrs, LSA_ATTR_TYPE_SIGNATURE, []).value.data.Plain?
  {
  }

  /**
   * `mylsa_add_peer`: `!ok` stands for its aborts, on a peer that is listed already, a type without
   * flags, or more to sign than the buffer test allows.
   */
  method AddPeer(keys: Keys, me: LsaObject, id: NodeId, typ: Routes.PeerType, cost: int, now: nat)
    returns (ok: bool, newme: LsaObject)
    requires me.Valid() && Mine(keys, me.Value()) && me.bytes <= SSIZE_MAX - 200
    ensures ok <==> && Find(me.root, LSA_ATTR_TYPE_PEER, id) == None && PeerFlags(typ).Some?
                    && Signable(me.id, Reversioned(me.id, WithPeer(me.root, id, cost, PeerFlags(typ).value), now))
    ensures fresh(newme) && newme.id == me.id
    ensures ok ==> newme.Valid() && Mine(keys, newme.Value())
    ensures ok ==> newme.root == Renewed(keys, me.id, WithPeer(me.root, id, cost, PeerFlags(typ).value), now)
  {
    hide LsaObjects.Ordered, LsaBytes, Reversioned, Signable, Signed, Regular, NoEmptySet, Renewed, Ready, Mine;
    hide LsaObjects.HasRoom, LsaObjects.InsertAt, WithPeer, Find;
    newme := Clone(me);
    if Find(me.root, LSA_ATTR_TYPE_PEER, id).Some? || PeerFlags(typ) == None {
      return false, newme;
    }
    var flags := PeerFlags(typ).value;
    MineReady(keys, me.Value());
    PeerInserted(me.root, id, cost, flags);
    PeerAdded(keys, me.root, id, cost, flags);
    PeerSize(me.id, me.root, id, cost, flags);
    RenewedMine(keys, me.id, WithPeer(me.root, id, cost, flags), now);
    TopLevel(newme.root, Attr(LSA_ATTR_TYPE_PEER, id, true, Set([])));
    newme.AddAttrSet([], LSA_ATTR_TYPE_PEER, true, id);
    var set_ := [LsaObjects.Step(LSA_ATTR_TYPE_PEER, id)];
    newme.AddAttr(set_, LSA_PEER_ATTR_TYPE_METRIC, true, [], NetworkOrder(cost % 65536, 2));
    newme.AddAttr(set_, LSA_PEER_ATTR_TYPE_PEER_FLAGS, true, [], [flags]);
    ok := Renew(keys, newme, now);
  }

  lemma TopLevel(attrs: seq<Attr>, a: Attr)
    requires Find(attrs, a.typ, a.key) == None
    ensures LsaObjects.HasRoom(attrs, [], a) && LsaObjects.InsertAt(attrs, [], a) == Insert(attrs, a)
  {
  }

  /** A peer accounts for 135 bytes: 72 for the set and its key, 32 for the metric, 31 for the flags. */
  lemma PeerSize(me: NodeId, attrs: seq<Attr>, id: NodeId, cost: int, flags: byte)
    ensures LsaBytes(Lsa(me, WithPeer(attrs, id, cost, flags))) == LsaBytes(Lsa(me, attrs)) + 135
  {
    hide NetworkOrder;
    InsertSize(attrs, PeerAttr(id, cost, flags));
    var s := [MetricAttr(cost), FlagsAttr(flags)];
    assert s[1..] == [s[1]] && s[1..][1..] == [];
    assert SetSize(s) == DeepSize(s[0]) + (DeepSize(s[1]) + SetSize([]));
  }

  /** `mylsa_del_peer`: `!ok` stands for its aborts, on a peer that is not listed or too much to sign. */
  method DelPeer(keys: Keys, me: LsaObject, id: NodeId, now: nat) returns (ok: bool, newme: LsaObject)
    requires me.Valid() && Mine(keys, me.Value()) && me.bytes <= SSIZE_MAX
    ensures ok <==> && Find(me.root, LSA_ATTR_TYPE_PEER, id).Some?
                    && Signable(me.id, Reversioned(me.id, WithoutPeer(me.root, id), now))
    ensures fresh(newme) && newme.id == me.id
    ensures ok ==> newme.Valid() && Mine(keys, newme.Value())
    ensures ok ==> newme.root == Renewed(keys, me.id, WithoutPeer(me.root, id), now)
  {
    hide LsaObjects.Ordered, LsaBytes, Reversioned, Signable, Signed, Regular, Renewed, Ready, Mine, Find;
    newme := Clone(me);
    if Find(me.root, LSA_ATTR_TYPE_PEER, id) == None {
      return false, newme;
    }
    MineReady(keys, me.Value());
    PeerDeleted(keys, me.root, id);
    PeerGone(keys, me.id, me.root, id);
    RenewedMine(keys, me.id, WithoutPeer(me.root, id), now);
    var deleted := newme.DelAttr(LSA_ATTR_TYPE_PEER, id);
    ok := Renew(keys, newme, now);
  }

  lemma PeerGone(keys: Keys, me: NodeId, attrs: seq<Attr>, id: NodeId)
    requires Ready(keys, attrs) && Find(attrs, LSA_ATTR_TYPE_PEER, id).Some?
    ensures var a := Find(attrs, LSA_ATTR_TYPE_PEER, id).value; a.data.Set? ==> NoEmptySet(a.data.attrs)
    ensures LsaBytes(Lsa(me, WithoutPeer(attrs, id))) <= LsaBytes(Lsa(me, attrs))
  {
    var a := Find(attrs, LSA_ATTR_TYPE_PEER, id).value;
    NoEmptySetMembers(attrs);
    assert Freeable(a);
    var k := LsaObjects.RemoveAt(attrs, a);
  }

  /** `lsa_add_attr` with a type beyond those of the LSA. */
  method Append(l: LsaObject, typ: int32, sign: bool, data: seq<byte>)
    requires l.Valid() && l.refcount == 1 && forall i | 0 <= i < |l.root| :: l.root[i].typ < typ
    modifies l`bytes, l`root
    ensures l.Valid() && l.root == old(l.root) + [Attr(typ, [], sign, Plain(data))]
  {
    hide LsaObjects.Ordered, LsaBytes;
    StartStep(l.root, Attr(typ, [], sign, Plain(data)));
    l.AddAttr([], typ, sign, [], data);
  }

  /** The attributes a daemon starts with, before it signs them. */
  method Describe(keys: Keys, id: NodeId, name: Option<seq<byte>>, v: nat) returns (me: LsaObject)
    ensures fresh(me) && me.id == id && me.Valid() && me.refcount == 1 && me.root == StartAttrs(keys, name, v)
  {
    hide LsaObjects.Ordered, LsaBytes, NetworkOrder;
    me := new LsaObjects.LsaObject(id);
    Append(me, LSA_ATTR_TYPE_ADV_PATH, false, []);
    if name.Some? {
      Append(me, LSA_ATTR_TYPE_NODE_NAME, true, name.value);
    }
    assert me.root == [PATH_ATTR] + NameAttrs(name);
    Append(me, LSA_ATTR_TYPE_VERSION, true, NetworkOrder(v, 8));
    Append(me, LSA_ATTR_TYPE_PUBKEY, true, keys.pubkey);
  }

  /** The LSA a daemon starts with; `!ok` is the abort on too much to sign. */
  method Start(keys: Keys, id: NodeId, name: Option<seq<byte>>, now: nat) returns (ok: bool, me: LsaObject)
    requires |keys.pubkey| <= 65536 && (name.Some? ==> |name.value| <= SSIZE_MAX - 100000)
    ensures fresh(me) && me.id == id
    ensures ok <==> Signable(id, StartAttrs(keys, name, ((now + 1) * 256) % TWO_64))
    ensures ok ==> me.Valid() && Mine(keys, me.Value())
    ensures ok ==> me.root == Signed(keys, id, StartAttrs(keys, name, ((now + 1) * 256) % TWO_64))
  {
    hide LsaObjects.Ordered, Signable, Signed, Ready, Mine, StartAttrs, LsaBytes;
    var v := ((now + 1) * 256) % TWO_64;
    StartReady(keys, name, v);
    StartSize(keys, id, name, v);
    me := Describe(keys, id, name, v);
    SignedMine(keys, id, me.root);
    SignatureIsPlain(keys, me.root);
    ok := Sign(keys, me);
  }

  /** A restart is newer than every version of up to 255 renewals in the same second. */
  lemma RestartIsNewer(keys: Keys, id: NodeId, name: Option<seq<byte>>, now: nat, before: nat)
    requires (now + 1) * 256 < TWO_64 && before < now * 256 + 256
    ensures before < Version(Lsa(id, Signed(keys, id, StartAttrs(keys, name, ((now + 1) * 256) % TWO_64))))
  {
    hide Signed, Find, NetworkOrder, BigEndian;
    var v := ((now + 1) * 256) % TWO_64;
    StartReady(keys, name, v);
    SignedMine(keys, id, StartAttrs(keys, name, v));
    StartVersion(keys, name, v);
    EightBytes(v);
  }

  lemma StartVersion(keys: Keys, name: Option<seq<byte>>, v: nat)
    ensures Find(StartAttrs(keys, name, v), LSA_ATTR_TYPE_VERSION, []) == Some(VersionAttr(v))
  {
    hide NetworkOrder;
    var s := StartAttrs(keys, name, v);
    StartReady(keys, name, v);
    assert s[|s| - 2] == VersionAttr(v);
    FindUnique(s, VersionAttr(v));
  }

  /** The size of the first LSA, before its signature. */
  lemma StartSize(keys: Keys, id: NodeId, name: Option<seq<byte>>, v: nat)
    ensures LsaBytes(Lsa(id, StartAttrs(keys, name, v))) ==
            140 + |keys.pubkey| + if name.Some? then 30 + |name.value| else 0
  {
    hide NetworkOrder;
    var a, b := [PATH_ATTR] + NameAttrs(name), [VersionAttr(v)];
    SetSizeSplit([PATH_ATTR], NameAttrs(name));
    SetSizeSplit(a, b);
    SetSizeSplit(a + b, [PubkeyAttr(keys)]);
  }

  lemma StartStep(attrs: seq<Attr>, a: Attr)
    requires forall i | 0 <= i < |attrs| :: attrs[i].typ < a.typ
    ensures LsaObjects.HasRoom(attrs, [], a) && LsaObjects.InsertAt(attrs, [], a) == attrs + [a]
  {
    InsertLast(attrs, a);
  }

  function NameAttrs(name: Option<seq<byte>>): seq<Attr> {
    if name.Some? then [Attr(LSA_ATTR_TYPE_NODE_NAME, [], true, Plain(name.value))] else []
  }

  /** What the first signature covers, and the path. */
  function StartAttrs(keys: Keys, name: Option<seq<byte>>, v: nat): seq<Attr> {
    [PATH_ATTR] + NameAttrs(name) + [VersionAttr(v)] + [PubkeyAttr(keys)]
  }

  lemma StartReady(keys: Keys, name: Option<seq<byte>>, v: nat)
    ensures Ready(keys, StartAttrs(keys, name, v))
  {
    hide NetworkOrder, NoEmptySet, Find, Less;
    var s := StartAttrs(keys, name, v);
    var n := |s|;
    assert s[0] == PATH_ATTR && s[n - 2] == VersionAttr(v) && s[n - 1] == PubkeyAttr(keys);
    assert forall i, j | 0 <= i < j < n :: s[i].typ < s[j].typ;
    assert Sorted(s);
    assert forall i | 0 <= i < n :: RegularAttr(s[i], MAX_DEPTH) && Freeable(s[i]);
    NoEmptySetMembers(s);
    FindUnique(s, s[0]);
    FindUnique(s, s[n - 2]);
    FindUnique(s, s[n - 1]);
  }
}
