/** The bytes a signature covers, and what hops from node to node do to them. */
module Signing {
  import opened Bytes
  import opened Varint
  import opened Lsas
  import opened Codec

  /** The signed attributes, with only the signed ones left inside their sets. */
  function SignedAttr(a: Attr): Attr
    decreases a, 1
  {
    match a.data
    case Set(attrs) => a.(data := Set(SignedOnly(attrs)))
    case Plain(_) => a
  }

  function SignedOnly(attrs: seq<Attr>): seq<Attr>
    decreases attrs, 0
  {
    if attrs == [] then []
    else (if attrs[0].signed then [SignedAttr(attrs[0])] else []) + SignedOnly(attrs[1..])
  }

  /** Everything in the tree is signed. */
  ghost predicate AllSigned(attrs: seq<Attr>)
    decreases attrs
  {
    forall i | 0 <= i < |attrs| :: attrs[i].signed && (attrs[i].data.Set? ==> AllSigned(attrs[i].data.attrs))
  }

  /** The signed part is signed throughout, and a tree that is signed throughout is its own signed part. */
  lemma {:induction false} SignedPart(attrs: seq<Attr>)
    ensures AllSigned(SignedOnly(attrs))
    ensures AllSigned(attrs) ==> SignedOnly(attrs) == attrs
    decreases attrs
  {
    if attrs != [] {
      SignedPart(attrs[1..]);
      if attrs[0].data.Set? {
        SignedPart(attrs[0].data.attrs);
      }
      assert attrs == [attrs[0]] + attrs[1..];
    }
  }

  /** It has every signed attribute under its key, plain ones unchanged and sets with their signed part. */
  lemma {:induction false} SignedMembers(attrs: seq<Attr>)
    ensures forall b :: b in SignedOnly(attrs) <==> exists a | a in attrs :: a.signed && IsSignedPart(a, b)
  {
    if attrs != [] {
      SignedMembers(attrs[1..]);
      assert attrs == [attrs[0]] + attrs[1..];
    }
  }

  ghost predicate IsSignedPart(a: Attr, b: Attr) {
    && b.typ == a.typ && b.key == a.key && b.signed == a.signed
    && if a.data.Plain? then b.data == a.data else b.data == Set(SignedOnly(a.data.attrs))
  }

  lemma {:induction false} SignedRegular(attrs: seq<Attr>, depth: nat)
    requires Regular(attrs, depth)
    ensures Regular(SignedOnly(attrs), depth)
    ensures forall a, i | 0 <= i < |SignedOnly(attrs)| && (forall j | 0 <= j < |attrs| :: KeyLess(a, attrs[j])) ::
              KeyLess(a, SignedOnly(attrs)[i])
    decreases attrs
  {
    if attrs != [] {
      RegularStep(attrs, depth);
      SignedRegular(attrs[1..], depth);
      if attrs[0].data.Set? {
        SignedRegular(attrs[0].data.attrs, depth - 1);
      }
      forall j | 0 <= j < |attrs[1..]| ensures KeyLess(attrs[0], attrs[1..][j]) {
        assert KeyLess(attrs[0], attrs[j + 1]);
      }
    }
  }

  /** Printing signed attributes only is printing the signed part. */
  lemma {:induction false} EncSignedAttr(a: Attr, pre: seq<byte>)
    requires a.signed
    ensures EncAttr(a, true, pre) == EncAttr(SignedAttr(a), false, pre)
    decreases a, 1
  {
    if a.data.Set? {
      EncSigned(a.data.attrs, []);
    }
  }

  lemma {:induction false} EncSigned(attrs: seq<Attr>, pre: seq<byte>)
    ensures EncAttrs(attrs, true, pre) == EncAttrs(SignedOnly(attrs), false, pre)
    decreases attrs, 0
  {
    if attrs != [] {
      hide EncAttr;
      var a := attrs[0];
      EncSigned(attrs[1..], pre);
      EncAttrsStep(attrs, true, pre);
      if a.signed {
        EncSignedAttr(a, if a.typ == LSA_ATTR_TYPE_ADV_PATH then pre else []);
        var s := SignedOnly(attrs);
        assert s == [SignedAttr(a)] + SignedOnly(attrs[1..]) && s[1..] == SignedOnly(attrs[1..]);
      } else {
        Unsigned(a, pre);
        assert SignedOnly(attrs) == SignedOnly(attrs[1..]);
      }
    }
  }

  lemma Unsigned(a: Attr, pre: seq<byte>)
    requires !a.signed
    ensures EncAttr(a, true, pre) == [] && EncAttr(a, true, []) == []
  {
  }

  /** What is signed and verified: the frame of the signed part. */
  function SignedBytes(l: Lsa): seq<byte> {
    Frame(l, true, [])
  }

  lemma SignedBytesOfPart(l: Lsa)
    ensures SignedBytes(l) == Frame(Lsa(l.id, SignedOnly(l.attrs)), false, [])
  {
    EncSigned(l.attrs, []);
  }

  /** A signature fixes the id and the signed part: LSAs with the same signed bytes agree in both. */
  lemma SignedBytesBind(l: Lsa, m: Lsa)
    requires Regular(l.attrs, MAX_DEPTH) && Regular(m.attrs, MAX_DEPTH)
    requires |Body(l, true, [])| <= SSIZE_MAX - MAX_LEN
    ensures SignedBytes(l) == SignedBytes(m) <==> l.id == m.id && SignedOnly(l.attrs) == SignedOnly(m.attrs)
  {
    hide Regular, SignedOnly, EncAttrs, EncInt, Deser;
    var p, q := Lsa(l.id, SignedOnly(l.attrs)), Lsa(m.id, SignedOnly(m.attrs));
    SignedBytesOfPart(l);
    SignedBytesOfPart(m);
    EncSigned(l.attrs, []);
    EncSigned(m.attrs, []);
    if SignedBytes(l) == SignedBytes(m) {
      SignedRegular(l.attrs, MAX_DEPTH);
      SignedRegular(m.attrs, MAX_DEPTH);
      BodyOfFrame(p, q);
      FrameRoundTrip(p, [], []);
      FrameRoundTrip(q, [], []);
      PrefixNothing(p.attrs);
      PrefixNothing(q.attrs);
    }
  }

  lemma BodyOfFrame(p: Lsa, q: Lsa)
    requires Frame(p, false, []) == Frame(q, false, []) && |Body(p, false, [])| < TWO_64
    ensures |Body(q, false, [])| == |Body(p, false, [])|
  {
    hide EncInt;
    var m, n := |Body(p, false, [])|, |Body(q, false, [])|;
    if m < n {
      EncMonotone(m, n);
    } else if n < m {
      EncMonotone(n, m);
    }
  }

  /** Some attribute that hops rewrite is covered by the signature. */
  ghost predicate SignsPath(l: Lsa) {
    exists a | a in l.attrs :: a.signed && a.typ == LSA_ATTR_TYPE_ADV_PATH && a.data.Plain?
  }

  /** A rewritten attribute grows; every other one keeps its bytes. */
  lemma PrefixedLength(a: Attr, pre: seq<byte>)
    ensures |EncAttr(a, true, [])| <= |EncAttr(WithPrefix(a, pre), true, [])|
    ensures a.signed && a.typ == LSA_ATTR_TYPE_ADV_PATH && a.data.Plain? && pre != [] ==>
              |EncAttr(a, true, [])| < |EncAttr(WithPrefix(a, pre), true, [])|
    ensures !(a.signed && a.typ == LSA_ATTR_TYPE_ADV_PATH && a.data.Plain?) ==>
              EncAttr(WithPrefix(a, pre), true, []) == EncAttr(a, true, [])
  {
    if a.signed && a.typ == LSA_ATTR_TYPE_ADV_PATH && a.data.Plain? {
      EncMonotone(|a.data.bytes|, |pre + a.data.bytes|);
    }
  }

  lemma {:induction false} PrefixedLengths(attrs: seq<Attr>, pre: seq<byte>)
    ensures |EncAttrs(attrs, true, [])| <= |EncAttrs(PrefixAll(attrs, pre), true, [])|
    ensures pre != [] && (exists a | a in attrs :: a.signed && a.typ == LSA_ATTR_TYPE_ADV_PATH && a.data.Plain?) ==>
              |EncAttrs(attrs, true, [])| < |EncAttrs(PrefixAll(attrs, pre), true, [])|
    ensures !(exists a | a in attrs :: a.signed && a.typ == LSA_ATTR_TYPE_ADV_PATH && a.data.Plain?) ==>
              EncAttrs(PrefixAll(attrs, pre), true, []) == EncAttrs(attrs, true, [])
  {
    if attrs != [] {
      hide EncAttr, WithPrefix;
      PrefixedLength(attrs[0], pre);
      PrefixedLengths(attrs[1..], pre);
      var p := PrefixAll(attrs, pre);
      assert p == [WithPrefix(attrs[0], pre)] + PrefixAll(attrs[1..], pre) && p[1..] == PrefixAll(attrs[1..], pre);
      EncAttrsStep(attrs, true, []);
      EncAttrsStep(p, true, []);
      assert attrs == [attrs[0]] + attrs[1..];
    }
  }

  /** The LSA after each node of `hops` passed it on. */
  function Travel(l: Lsa, hops: seq<NodeId>): Lsa {
    if hops == [] then l else Prepend(Travel(l, hops[..|hops| - 1]), hops[|hops| - 1])
  }

  lemma {:induction false} PrefixRegular(attrs: seq<Attr>, pre: seq<byte>, depth: nat)
    requires Regular(attrs, depth)
    ensures Regular(PrefixAll(attrs, pre), depth)
  {
    var p := PrefixAll(attrs, pre);
    forall i, j | 0 <= i < j < |p| ensures KeyLess(p[i], p[j]) {
      assert KeyLess(attrs[i], attrs[j]);
    }
    forall i | 0 <= i < |p| ensures RegularAttr(p[i], depth) {
      assert RegularAttr(attrs[i], depth);
    }
  }

  /** The next node decodes exactly the LSA `Travel` describes. */
  lemma {:induction false} HopDelivers(l: Lsa, hops: seq<NodeId>, n: NodeId, t: seq<byte>)
    requires Regular(l.attrs, MAX_DEPTH) && |Body(Travel(l, hops), false, n)| <= SSIZE_MAX - MAX_LEN
    ensures Regular(Travel(l, hops).attrs, MAX_DEPTH)
    ensures Deser(Frame(Travel(l, hops), false, n) + t) ==
            Got(Some(Travel(l, hops + [n])), |Frame(Travel(l, hops), false, n)|)
  {
    TravelRegular(l, hops);
    FrameRoundTrip(Travel(l, hops), n, t);
    assert (hops + [n])[..|hops|] == hops;
  }

  lemma {:induction false} TravelRegular(l: Lsa, hops: seq<NodeId>)
    requires Regular(l.attrs, MAX_DEPTH)
    ensures Regular(Travel(l, hops).attrs, MAX_DEPTH)
  {
    if hops != [] {
      TravelRegular(l, hops[..|hops| - 1]);
      PrefixRegular(Travel(l, hops[..|hops| - 1]).attrs, hops[|hops| - 1], MAX_DEPTH);
    }
  }

  lemma OneHop(l: Lsa, n: NodeId)
    ensures SignsPath(Prepend(l, n)) <==> SignsPath(l)
    ensures Prepend(l, n).id == l.id
    ensures !SignsPath(l) ==> SignedBytes(Prepend(l, n)) == SignedBytes(l)
    ensures SignsPath(l) ==> |SignedBytes(l)| < |SignedBytes(Prepend(l, n))|
  {
    var p := Prepend(l, n);
    PrefixedLengths(l.attrs, n);
    if SignsPath(l) {
      var a :| a in l.attrs && a.signed && a.typ == LSA_ATTR_TYPE_ADV_PATH && a.data.Plain?;
      var i :| 0 <= i < |l.attrs| && l.attrs[i] == a;
      assert p.attrs[i] == WithPrefix(a, n) && p.attrs[i] in p.attrs;
      EncMonotone(|Body(l, true, [])|, |Body(p, true, [])|);
    }
    if SignsPath(p) {
      var a :| a in p.attrs && a.signed && a.typ == LSA_ATTR_TYPE_ADV_PATH && a.data.Plain?;
      var i :| 0 <= i < |p.attrs| && p.attrs[i] == a;
      assert l.attrs[i] in l.attrs;
    }
  }

  /**
   * However many nodes pass an LSA on, the bytes its signature covers stay those of the
   * originator exactly when no ADV_PATH data was signed.
   */
  lemma {:induction false} SignedBytesSurvive(l: Lsa, hops: seq<NodeId>)
    requires hops != []
    ensures SignedBytes(Travel(l, hops)) == SignedBytes(l) <==> !SignsPath(l)
  {
    hide SignsPath, SignedBytes, Prepend;
    TravelSigned(l, hops);
  }

  lemma {:induction false} TravelSigned(l: Lsa, hops: seq<NodeId>)
    ensures SignsPath(Travel(l, hops)) <==> SignsPath(l)
    ensures !SignsPath(l) ==> SignedBytes(Travel(l, hops)) == SignedBytes(l)
    ensures SignsPath(l) ==> |SignedBytes(l)| + |hops| <= |SignedBytes(Travel(l, hops))|
  {
    if hops != [] {
      hide SignsPath, SignedBytes, Prepend;
      TravelSigned(l, hops[..|hops| - 1]);
      OneHop(Travel(l, hops[..|hops| - 1]), hops[|hops| - 1]);
    }
  }

  /** Parsing only ever yields regular trees. */
  lemma {:induction false} ParseRegular(s: seq<byte>, acc: seq<Attr>, depth: nat)
    requires Regular(acc, depth) && ParseAttrs(s, acc, depth).Parsed?
    ensures Regular(ParseAttrs(s, acc, depth).attrs, depth)
    decreases |s|
  {
    hide ParseHead, Insert, Find, Regular, RegularAttr;
    if s == [] {
    } else {
      hide ParseAttrs;
      ParsedFirst(s, acc, depth);
      var h := ParseHead(s).value;
      if (h.flags / 2) % 2 == 1 {
        var sub := ParseAttrs(h.data, [], depth - 1).attrs;
        ParseSet(s, h, acc, depth, sub);
        EmptyRegular(depth - 1);
        ParseRegular(h.data, [], depth - 1);
        SetRegular(AttrOf(h, Set(sub)), depth);
        InsertRegular(acc, AttrOf(h, Set(sub)), depth);
        ParseRegular(s[h.size..], Insert(acc, AttrOf(h, Set(sub))), depth);
      } else {
        ParsePlain(s, h, acc, depth);
        SetRegular(AttrOf(h, Plain(h.data)), depth);
        InsertRegular(acc, AttrOf(h, Plain(h.data)), depth);
        ParseRegular(s[h.size..], Insert(acc, AttrOf(h, Plain(h.data))), depth);
      }
      assert Regular(ParseAttrs(s, acc, depth).attrs, depth);
    }
  }

  lemma EmptyRegular(depth: nat)
    ensures Regular([], depth)
  {
  }

  lemma SetRegular(a: Attr, depth: nat)
    requires 0 <= a.typ && (a.data.Set? ==> depth > 0 && Regular(a.data.attrs, depth - 1))
    ensures RegularAttr(a, depth)
  {
  }

  lemma InsertRegular(acc: seq<Attr>, a: Attr, depth: nat)
    requires Regular(acc, depth) && RegularAttr(a, depth) && Find(acc, a.typ, a.key) == None
    ensures Regular(Insert(acc, a), depth)
  {
    InsertSorted(acc, a);
    InsertMembers(acc, a);
    var r := Insert(acc, a);
    forall i | 0 <= i < |r| ensures RegularAttr(r[i], depth) {
      assert r[i] in multiset(r);
    }
  }

  lemma DeserRegular(s: seq<byte>)
    requires Deser(s).Got? && Deser(s).lsa.Some?
    ensures Regular(Deser(s).lsa.value.attrs, MAX_DEPTH)
  {
    hide ParseAttrs, DecInt, Regular;
    var IntOk(len, off) := DecInt(s);
    EmptyRegular(MAX_DEPTH);
    ParseRegular(s[off + NODE_ID_LEN..off + len], [], MAX_DEPTH);
  }
}
