/** What `lsa_serialise.c` writes and `lsa_deserialise.c` reads, as functions on byte strings. */
module Codec {
  import opened Bytes
  import opened Varint
  import opened Lsas

  const INT_MAX: int := 0x7fff_ffff
  const SSIZE_MAX: int := 0x7fff_ffff_ffff_ffff
  const MAX_DEPTH: nat := 8

  // --------------------------------------------------------------------------- printing

  /** LSA_ATTR_FLAG_HAS_KEY, LSA_ATTR_FLAG_DATA_IS_TLV and LSA_ATTR_FLAG_SIGNED. */
  function Flags(a: Attr): nat {
    (if a.key != [] then 1 else 0) + (if a.data.Set? then 2 else 0) + (if a.signed then 4 else 0)
  }

  /** The conversion of a C `int` to `uint64_t`. */
  function AsUnsigned(x: int32): nat {
    if x < 0 then x + TWO_64 else x
  }

  function EncKey(key: seq<byte>): seq<byte> {
    if key == [] then [] else EncInt(|key|) + key
  }

  /** An attribute; `pre` is put in front of plain data (`[]` for a null `preid`). */
  function EncAttr(a: Attr, signedOnly: bool, pre: seq<byte>): seq<byte>
    decreases a, 1
  {
    if signedOnly && !a.signed then []
    else
      EncInt(AsUnsigned(a.typ)) + EncInt(Flags(a)) + EncKey(a.key) +
      match a.data
      case Set(attrs) => var body := EncAttrs(attrs, signedOnly, []); EncInt(|body|) + body
      case Plain(bytes) => EncInt(|bytes| + |pre|) + pre + bytes
  }

  /** A set in key order, where `pre` goes to the ADV_PATH attributes. */
  function EncAttrs(attrs: seq<Attr>, signedOnly: bool, pre: seq<byte>): seq<byte>
    decreases attrs, 0
  {
    if attrs == [] then []
    else EncAttr(attrs[0], signedOnly, if attrs[0].typ == LSA_ATTR_TYPE_ADV_PATH then pre else [])
         + EncAttrs(attrs[1..], signedOnly, pre)
  }

  function Body(l: Lsa, signedOnly: bool, pre: seq<byte>): seq<byte> {
    l.id + EncAttrs(l.attrs, signedOnly, pre)
  }

  /** `lsa_serialise` with the length `lsa_serialise_length` gives. */
  function Frame(l: Lsa, signedOnly: bool, pre: seq<byte>): seq<byte> {
    EncInt(|Body(l, signedOnly, pre)|) + Body(l, signedOnly, pre)
  }

  // ---------------------------------------------------------------------------- parsing

  /** One attribute as read, up to the end of its data. */
  datatype Head = Head(typ: int32, flags: nat, key: seq<byte>, data: seq<byte>, size: nat)

  /** An integer no larger than `limit`, and where it ends. */
  function ReadInt(s: seq<byte>, off: nat, limit: int): (r: Option<(nat, nat)>)
    requires off <= |s|
    ensures r.Some? ==> r.value.0 <= limit && off < r.value.1 <= |s|
  {
    match DecInt(s[off..])
    case IntOk(v, n) => if v > limit then None else Some((v, off + n))
    case _ => None
  }

  /** A length and that many bytes. */
  function ReadBytes(s: seq<byte>, off: nat): (r: Option<(seq<byte>, nat)>)
    requires off <= |s|
    ensures r.Some? ==> off < r.value.1 <= |s| && |r.value.0| < r.value.1 - off
  {
    match ReadInt(s, off, TWO_64)
    case None => None
    case Some((len, at)) => if |s| - at < len then None else Some((s[at..at + len], at + len))
  }

  function ParseHead(s: seq<byte>): (r: Option<Head>)
    ensures r.Some? ==> 0 <= r.value.typ && 0 < r.value.size <= |s| && |r.value.data| < |s|
  {
    match ReadInt(s, 0, INT_MAX)
    case None => None
    case Some((typ, at)) =>
      match ReadInt(s, at, INT_MAX)
      case None => None
      case Some((flags, at)) =>
        var key := if flags % 2 == 1 then ReadBytes(s, at) else Some(([], at));
        match key
        case None => None
        case Some((key, at)) =>
          match ReadBytes(s, at)
          case None => None
          case Some((data, at)) => Some(Head(typ, flags, key, data, at))
  }

  /**
   * A whole set, a failed parse with the set as far as it was built, or the `abort()` on a key
   * that is already in the set.
   */
  datatype ParseResult = Parsed(attrs: seq<Attr>) | ParseBad(attrs: seq<Attr>) | ParseAbort

  function Duplicate(acc: seq<Attr>, key: seq<byte>): ParseResult {
    if |key| > 65536 then ParseBad(acc) else ParseAbort
  }

  /** `lsa_deserialise_attr_set` on the bytes `s`, with `acc` already in the set. */
  function ParseAttrs(s: seq<byte>, acc: seq<Attr>, depth: nat): ParseResult
    decreases |s|
  {
    if s == [] then Parsed(acc)
    else
      match ParseHead(s)
      case None => ParseBad(acc)
      case Some(h) =>
        var sign := (h.flags / 4) % 2 == 1;
        if (h.flags / 2) % 2 == 1 then
          if depth == 0 then ParseBad(acc)
          else if Find(acc, h.typ, h.key).Some? then Duplicate(acc, h.key)
          else
            match ParseAttrs(h.data, [], depth - 1)
            case Parsed(sub) => ParseAttrs(s[h.size..], Insert(acc, Attr(h.typ, h.key, sign, Set(sub))), depth)
            case ParseBad(sub) => ParseBad(Insert(acc, Attr(h.typ, h.key, sign, Set(sub))))
            case ParseAbort => ParseAbort
        else if Find(acc, h.typ, h.key).Some? then Duplicate(acc, h.key)
        else ParseAttrs(s[h.size..], Insert(acc, Attr(h.typ, h.key, sign, Plain(h.data))), depth)
  }

  /**
   * `Got` a frame of `n` bytes (no LSA in a keepalive), need `More` bytes, or fail. `Abort` is an
   * `abort()`, or the null pointer that freeing a half-built tree with an empty set follows.
   */
  datatype DeserResult = Got(lsa: Option<Lsa>, n: nat) | More | Bad | Abort

  /** `lsa_deserialise` on a buffer. */
  function Deser(buf: seq<byte>): (r: DeserResult)
    ensures r.Got? ==> 1 <= r.n <= |buf|
  {
    match DecInt(buf)
    case IntShort => More
    case IntBad => Bad
    case IntOk(len, off) =>
      if len == 0 then Got(None, off)
      else if len > SSIZE_MAX - off then Bad
      else if len + off > |buf| then More
      else if len < NODE_ID_LEN then More
      else
        var id: NodeId := buf[off..off + NODE_ID_LEN];
        match ParseAttrs(buf[off + NODE_ID_LEN..off + len], [], MAX_DEPTH)
        case Parsed(attrs) => Got(Some(Lsa(id, attrs)), off + len)
        case ParseBad(attrs) => if NoEmptySet(attrs) then Bad else Abort
        case ParseAbort => Abort
  }

  /** A result other than `More` never changes when more bytes arrive. */
  lemma DeserStable(s: seq<byte>, t: seq<byte>)
    requires !Deser(s).More?
    ensures Deser(s + t) == Deser(s)
  {
    hide ParseAttrs, DecInt;
    DecStable(s, t);
    if DecInt(s).IntOk? {
      var IntOk(len, off) := DecInt(s);
      if len + off <= |s| && len >= NODE_ID_LEN {
        assert (s + t)[off..off + NODE_ID_LEN] == s[off..off + NODE_ID_LEN];
        assert (s + t)[off + NODE_ID_LEN..off + len] == s[off + NODE_ID_LEN..off + len];
      }
    }
  }

  // ----------------------------------------------------------- empty sets, short frames

  function EmptySet(typ: int32): Attr {
    Attr(typ, [], false, Set([]))
  }

  lemma SmallIntAt(s: seq<byte>, off: nat, limit: int)
    requires off < |s| && s[off] < 128 <= limit
    ensures ReadInt(s, off, limit) == Some((s[off], off + 1))
  {
    assert s[off..][0] == s[off];
  }

  lemma ShortFrame(id: NodeId, s: seq<byte>)
    requires |s| < 96
    ensures Deser([NODE_ID_LEN + |s|] + id + s) ==
            match ParseAttrs(s, [], MAX_DEPTH)
            case Parsed(attrs) => Got(Some(Lsa(id, attrs)), NODE_ID_LEN + |s| + 1)
            case ParseBad(attrs) => if NoEmptySet(attrs) then Bad else Abort
            case ParseAbort => Abort
  {
    hide ParseAttrs, NoEmptySet, DecInt;
    var f := [NODE_ID_LEN + |s|] + id + s;
    ShortFrameParts(f, NODE_ID_LEN + |s|, id, s);
  }

  lemma ShortFrameParts(f: seq<byte>, n: byte, id: NodeId, s: seq<byte>)
    requires n == NODE_ID_LEN + |s| < 128 && f == [n] + id + s
    ensures DecInt(f) == IntOk(n, 1) && |f| == n + 1
    ensures f[1..1 + NODE_ID_LEN] == id && f[1 + NODE_ID_LEN..1 + n] == s
  {
    assert f[0] == n;
  }

  /** The head of a set of type 2 without key or signature. */
  lemma SetHead(data: seq<byte>)
    requires |data| < 128
    ensures ParseHead([2, 2, |data|] + data) == Some(Head(2, 2, [], data, 3 + |data|))
  {
    hide DecInt;
    var s: seq<byte> := [2, 2, |data|] + data;
    SmallIntAt(s, 0, INT_MAX);
    SmallIntAt(s, 1, INT_MAX);
    SmallIntAt(s, 2, TWO_64);
    assert s[3..3 + |data|] == data;
  }

  lemma EmptySetParsed()
    ensures ParseAttrs([2, 2, 0], [], MAX_DEPTH) == Parsed([EmptySet(2)])
    ensures !NoEmptySet([EmptySet(2)])
  {
    hide ParseHead;
    SetHead([]);
    assert [2, 2, 0] + [] == [2 as byte, 2, 0];
    var h := Head(2, 2, [], [], 3);
    assert ParseAttrs(h.data, [], MAX_DEPTH - 1) == Parsed([]);
    ParseSet([2, 2, 0], h, [], MAX_DEPTH, []);
    assert [2 as byte, 2, 0][3..] == [];
    assert !Freeable(EmptySet(2));
  }

  lemma EmptySetLeft()
    ensures ParseAttrs([2, 2, 1, 128], [], MAX_DEPTH) == ParseBad([EmptySet(2)])
  {
    SetHead([128]);
    assert [2, 2, 1] + [128] == [2 as byte, 2, 1, 128];
    assert [128 as byte][0..] == [128];
    hide ParseHead;
    assert ParseHead([128]) == None by { NoHead(); }
    assert ParseAttrs([128], [], MAX_DEPTH - 1) == ParseBad([]);
  }

  lemma NoHead()
    ensures ParseHead([128]) == None
  {
    assert [128 as byte][0..] == [128];
  }

  /** An LSA with an empty set can arrive: freeing it follows a null pointer. */
  lemma EmptySetArrives(id: NodeId)
    ensures Deser([35] + id + [2, 2, 0]) == Got(Some(Lsa(id, [EmptySet(2)])), 36) && !NoEmptySet([EmptySet(2)])
  {
    hide Deser, ParseAttrs;
    EmptySetParsed();
    ShortFrame(id, [2, 2, 0]);
  }

  /** A set whose first attribute is malformed is still empty when the half-built tree is freed. */
  lemma EmptySetFails(id: NodeId)
    ensures Deser([36] + id + [2, 2, 1, 128]) == Abort
  {
    hide Deser, ParseAttrs;
    EmptySetParsed();
    EmptySetLeft();
    ShortFrame(id, [2, 2, 1, 128]);
  }

  /** Passing an LSA on neither adds nor removes empty sets. */
  lemma {:induction false} PrefixKeepsSets(attrs: seq<Attr>, pre: seq<byte>)
    ensures NoEmptySet(PrefixAll(attrs, pre)) <==> NoEmptySet(attrs)
  {
    if attrs != [] {
      PrefixKeepsSets(attrs[1..], pre);
      var p := PrefixAll(attrs, pre);
      assert p[0] == WithPrefix(attrs[0], pre) && p[1..] == PrefixAll(attrs[1..], pre);
    }
  }

  /** Flag bits without a meaning are read and forgotten. */
  lemma UnknownFlags(id: NodeId)
    ensures Deser([35] + id + [2, 120, 0]) == Got(Some(Lsa(id, [Attr(2, [], false, Plain([]))])), 36)
  {
    hide Deser, ParseHead;
    var s: seq<byte> := [2, 120, 0];
    PlainHead(120);
    ParsePlain(s, Head(2, 120, [], [], 3), [], MAX_DEPTH);
    assert s[3..] == [];
    ShortFrame(id, s);
  }

  lemma PlainHead(flags: byte)
    requires flags < 128 && flags % 2 == 0
    ensures ParseHead([2, flags, 0]) == Some(Head(2, flags, [], [], 3))
  {
    hide DecInt;
    var s: seq<byte> := [2, flags, 0];
    SmallIntAt(s, 0, INT_MAX);
    SmallIntAt(s, 1, INT_MAX);
    SmallIntAt(s, 2, TWO_64);
    assert s[3..3] == [];
  }

  /** A frame that is all there is reported as incomplete exactly if its length is 1 to 31. */
  lemma ShortFrameWaits(s: seq<byte>)
    requires DecInt(s).IntOk? && DecInt(s).v + DecInt(s).n <= |s| && DecInt(s).v <= SSIZE_MAX - DecInt(s).n
    ensures Deser(s).More? <==> 1 <= DecInt(s).v < NODE_ID_LEN
  {
    hide ParseAttrs, DecInt;
  }

  /** Such a frame: two bytes, and all of it is there. */
  lemma OneByteFrameWaits()
    ensures DecInt([1, 0]) == IntOk(1, 1) && Deser([1, 0]) == More
  {
  }

  // ------------------------------------------------------------------------- round trip

  /** Trees the parser can return: ordered, types not negative, sets nested at most `depth` deep. */
  ghost predicate Regular(attrs: seq<Attr>, depth: nat)
    decreases attrs, 0
  {
    Sorted(attrs) && forall i | 0 <= i < |attrs| :: RegularAttr(attrs[i], depth)
  }

  ghost predicate RegularAttr(a: Attr, depth: nat)
    decreases a, 1
  {
    0 <= a.typ && (a.data.Set? ==> depth > 0 && Regular(a.data.attrs, depth - 1))
  }

  /** The attribute as a peer stores it: `pre` joins the front of plain data. */
  function WithPrefix(a: Attr, pre: seq<byte>): Attr {
    if a.typ == LSA_ATTR_TYPE_ADV_PATH && a.data.Plain? then a.(data := Plain(pre + a.data.bytes)) else a
  }

  function PrefixAll(attrs: seq<Attr>, pre: seq<byte>): (r: seq<Attr>)
    ensures |r| == |attrs| && forall i | 0 <= i < |r| :: r[i] == WithPrefix(attrs[i], pre)
  {
    if attrs == [] then [] else [WithPrefix(attrs[0], pre)] + PrefixAll(attrs[1..], pre)
  }

  function Prepend(l: Lsa, pre: seq<byte>): Lsa {
    Lsa(l.id, PrefixAll(l.attrs, pre))
  }

  /** The data bytes of an attribute on the wire. */
  function DataBytes(a: Attr, pre: seq<byte>): seq<byte> {
    match a.data
    case Set(attrs) => EncAttrs(attrs, false, [])
    case Plain(bytes) => pre + bytes
  }

  lemma EncAttrParts(a: Attr, pre: seq<byte>)
    ensures EncAttr(a, false, pre) ==
            EncInt(AsUnsigned(a.typ)) + (EncInt(Flags(a)) + (EncKey(a.key) +
              (EncInt(|DataBytes(a, pre)|) + DataBytes(a, pre))))
  {
  }

  lemma ReadIntAt(p: seq<byte>, v: nat, t: seq<byte>, limit: int)
    requires v < TWO_64 && v <= limit
    ensures ReadInt(p + (EncInt(v) + t), |p|, limit) == Some((v, |p| + |EncInt(v)|))
  {
    DecEnc(v, t);
    assert (p + (EncInt(v) + t))[|p|..] == EncInt(v) + t;
  }

  lemma ReadBytesAt(p: seq<byte>, b: seq<byte>, t: seq<byte>)
    requires |b| < TWO_64
    ensures ReadBytes(p + ((EncInt(|b|) + b) + t), |p|) == Some((b, |p| + |EncInt(|b|)| + |b|))
  {
    var s := p + ((EncInt(|b|) + b) + t);
    assert s == p + (EncInt(|b|) + (b + t));
    ReadIntAt(p, |b|, b + t, TWO_64);
    var at := |p| + |EncInt(|b|)|;
    assert s[at..at + |b|] == b;
  }

  /** A head put together from its four parts. */
  lemma HeadFrom(s: seq<byte>, typ: int32, p1: nat, flags: nat, p2: nat, key: seq<byte>, p3: nat,
                 data: seq<byte>, p4: nat)
    requires ReadInt(s, 0, INT_MAX) == Some((typ, p1)) && p1 <= |s| && ReadInt(s, p1, INT_MAX) == Some((flags, p2))
    requires p2 <= |s| && (if flags % 2 == 1 then ReadBytes(s, p2) == Some((key, p3)) else (key, p3) == ([], p2))
    requires p3 <= |s| && ReadBytes(s, p3) == Some((data, p4))
    ensures ParseHead(s) == Some(Head(typ, flags, key, data, p4))
  {
    hide ReadInt, ReadBytes;
  }

  lemma HeadRoundTrip(a: Attr, pre: seq<byte>, t: seq<byte>)
    requires 0 <= a.typ && |EncAttr(a, false, pre)| < TWO_64
    ensures ParseHead(EncAttr(a, false, pre) + t) ==
            Some(Head(a.typ, Flags(a), a.key, DataBytes(a, pre), |EncAttr(a, false, pre)|))
  {
    hide DecInt, EncInt, ReadInt, ReadBytes, EncAttr, ParseHead, DataBytes;
    EncAttrParts(a, pre);
    var s := EncAttr(a, false, pre) + t;
    var d := DataBytes(a, pre);
    var p1 := EncInt(a.typ);
    var p2 := p1 + EncInt(Flags(a));
    var p3 := p2 + EncKey(a.key);
    var data := EncInt(|d|) + d;
    assert s == [] + (p1 + (EncInt(Flags(a)) + (EncKey(a.key) + (data + t))));
    ReadIntAt([], a.typ, EncInt(Flags(a)) + (EncKey(a.key) + (data + t)), INT_MAX);
    assert s == p1 + (EncInt(Flags(a)) + (EncKey(a.key) + (data + t)));
    ReadIntAt(p1, Flags(a), EncKey(a.key) + (data + t), INT_MAX);
    if a.key != [] {
      assert s == p2 + ((EncInt(|a.key|) + a.key) + (data + t));
      ReadBytesAt(p2, a.key, data + t);
    }
    assert s == p3 + (data + t);
    ReadBytesAt(p3, d, t);
    HeadFrom(s, a.typ, |p1|, Flags(a), |p2|, a.key, |p3|, d, |p3| + |data|);
  }

  /** The attribute a head and its parsed contents stand for. */
  function AttrOf(h: Head, data: Data): Attr {
    Attr(h.typ, h.key, (h.flags / 4) % 2 == 1, data)
  }

  lemma ParsePlain(s: seq<byte>, h: Head, acc: seq<Attr>, depth: nat)
    requires s != [] && ParseHead(s) == Some(h) && (h.flags / 2) % 2 == 0 && Find(acc, h.typ, h.key) == None
    ensures ParseAttrs(s, acc, depth) == ParseAttrs(s[h.size..], Insert(acc, AttrOf(h, Plain(h.data))), depth)
  {
  }

  lemma ParseSet(s: seq<byte>, h: Head, acc: seq<Attr>, depth: nat, sub: seq<Attr>)
    requires s != [] && ParseHead(s) == Some(h) && (h.flags / 2) % 2 == 1 && Find(acc, h.typ, h.key) == None
    requires 0 < depth && ParseAttrs(h.data, [], depth - 1) == Parsed(sub)
    ensures ParseAttrs(s, acc, depth) == ParseAttrs(s[h.size..], Insert(acc, AttrOf(h, Set(sub))), depth)
  {
  }

  /** What a successful parse says about its first attribute. */
  lemma ParsedFirst(s: seq<byte>, acc: seq<Attr>, depth: nat)
    requires s != [] && ParseAttrs(s, acc, depth).Parsed?
    ensures ParseHead(s).Some?
    ensures var h := ParseHead(s).value;
            && Find(acc, h.typ, h.key) == None
            && ((h.flags / 2) % 2 == 1 ==> 0 < depth && ParseAttrs(h.data, [], depth - 1).Parsed?)
  {
  }

  lemma EncAttrsStep(attrs: seq<Attr>, signedOnly: bool, pre: seq<byte>)
    requires attrs != []
    ensures EncAttrs(attrs, signedOnly, pre) ==
            EncAttr(attrs[0], signedOnly, if attrs[0].typ == LSA_ATTR_TYPE_ADV_PATH then pre else [])
            + EncAttrs(attrs[1..], signedOnly, pre)
  {
  }

  lemma DataBytesFit(a: Attr, pre: seq<byte>)
    ensures |DataBytes(a, pre)| <= |EncAttr(a, false, pre)|
    ensures EncAttr(a, false, pre) != []
  {
    EncAttrParts(a, pre);
  }

  /** One printed attribute is parsed back, given that its contents are. */
  lemma ParseOneEnc(a: Attr, pre: seq<byte>, rest: seq<byte>, acc: seq<Attr>, depth: nat)
    requires RegularAttr(a, depth) && forall i | 0 <= i < |acc| :: KeyLess(acc[i], a)
    requires a.data.Set? ==> ParseAttrs(EncAttrs(a.data.attrs, false, []), [], depth - 1) == Parsed(a.data.attrs)
    requires |EncAttr(a, false, if a.typ == LSA_ATTR_TYPE_ADV_PATH then pre else [])| < TWO_64
    ensures ParseAttrs(EncAttr(a, false, if a.typ == LSA_ATTR_TYPE_ADV_PATH then pre else []) + rest, acc, depth)
            == ParseAttrs(rest, acc + [WithPrefix(a, pre)], depth)
  {
    hide ParseHead, ParseAttrs, EncAttr, EncAttrs, Flags, AttrOf, WithPrefix, Insert, Find, KeyLess, DataBytes;
    var apre := if a.typ == LSA_ATTR_TYPE_ADV_PATH then pre else [];
    var e := EncAttr(a, false, apre);
    DataBytesFit(a, apre);
    HeadRoundTrip(a, apre, rest);
    var h := Head(a.typ, Flags(a), a.key, DataBytes(a, apre), |e|);
    assert (e + rest)[|e|..] == rest;
    InsertPrefixed(acc, a, pre);
    match a.data
    case Set(sub) =>
      SetBytes(a, sub, pre, |e|);
      ParseSet(e + rest, h, acc, depth, sub);
    case Plain(bytes) =>
      PlainBytes(a, bytes, pre, |e|);
      ParsePlain(e + rest, h, acc, depth);
  }

  lemma RegularStep(attrs: seq<Attr>, depth: nat)
    requires Regular(attrs, depth) && attrs != []
    ensures Sorted(attrs) && RegularAttr(attrs[0], depth) && Regular(attrs[1..], depth)
    ensures attrs[0].data.Set? ==> depth > 0 && Regular(attrs[0].data.attrs, depth - 1)
  {
  }

  /** Parsing what was printed appends the printed attributes, with `pre` where it was put. */
  lemma {:induction false} ParseEnc(attrs: seq<Attr>, pre: seq<byte>, acc: seq<Attr>, depth: nat)
    requires Regular(attrs, depth) && |EncAttrs(attrs, false, pre)| < TWO_64
    requires forall i, j | 0 <= i < |acc| && 0 <= j < |attrs| :: KeyLess(acc[i], attrs[j])
    ensures ParseAttrs(EncAttrs(attrs, false, pre), acc, depth) == Parsed(acc + PrefixAll(attrs, pre))
    decreases attrs
  {
    if attrs == [] {
      assert acc + [] == acc;
    } else {
      hide ParseAttrs, EncAttr, EncAttrs, PrefixAll, WithPrefix, KeyLess, Regular, RegularAttr;
      var a := attrs[0];
      RegularStep(attrs, depth);
      EncAttrsStep(attrs, false, pre);
      if a.data.Set? {
        SetBytes(a, a.data.attrs, pre, 0);
        DataBytesFit(a, if a.typ == LSA_ATTR_TYPE_ADV_PATH then pre else []);
        ParseEnc(a.data.attrs, [], [], depth - 1);
        PrefixNothing(a.data.attrs);
        assert [] + a.data.attrs == a.data.attrs;
      }
      ParseOneEnc(a, pre, EncAttrs(attrs[1..], false, pre), acc, depth);
      KeysAfter(acc, attrs, pre);
      ParseEnc(attrs[1..], pre, acc + [WithPrefix(a, pre)], depth);
      PrefixStep(acc, attrs, pre);
    }
  }

  lemma PrefixStep(acc: seq<Attr>, attrs: seq<Attr>, pre: seq<byte>)
    requires attrs != []
    ensures (acc + [WithPrefix(attrs[0], pre)]) + PrefixAll(attrs[1..], pre) == acc + PrefixAll(attrs, pre)
  {
    assert PrefixAll(attrs, pre) == [WithPrefix(attrs[0], pre)] + PrefixAll(attrs[1..], pre);
  }

  lemma SetBytes(a: Attr, sub: seq<Attr>, pre: seq<byte>, n: nat)
    requires a.data == Set(sub)
    ensures var apre := if a.typ == LSA_ATTR_TYPE_ADV_PATH then pre else [];
            && DataBytes(a, apre) == EncAttrs(sub, false, [])
            && AttrOf(Head(a.typ, Flags(a), a.key, DataBytes(a, apre), n), Set(sub)) == WithPrefix(a, pre)
            && (Flags(a) / 2) % 2 == 1
  {
  }

  lemma PlainBytes(a: Attr, bytes: seq<byte>, pre: seq<byte>, n: nat)
    requires a.data == Plain(bytes)
    ensures var apre := if a.typ == LSA_ATTR_TYPE_ADV_PATH then pre else [];
            var h := Head(a.typ, Flags(a), a.key, DataBytes(a, apre), n);
            AttrOf(h, Plain(DataBytes(a, apre))) == WithPrefix(a, pre) && (Flags(a) / 2) % 2 == 0
  {
    assert [] + bytes == bytes;
  }

  lemma InsertPrefixed(acc: seq<Attr>, a: Attr, pre: seq<byte>)
    requires forall i | 0 <= i < |acc| :: KeyLess(acc[i], a)
    ensures Find(acc, a.typ, a.key) == None && Insert(acc, WithPrefix(a, pre)) == acc + [WithPrefix(a, pre)]
  {
    InsertLast(acc, WithPrefix(a, pre));
  }

  lemma KeysAfter(acc: seq<Attr>, attrs: seq<Attr>, pre: seq<byte>)
    requires attrs != [] && Sorted(attrs)
    requires forall i, j | 0 <= i < |acc| && 0 <= j < |attrs| :: KeyLess(acc[i], attrs[j])
    ensures forall i, j | 0 <= i < |acc + [WithPrefix(attrs[0], pre)]| && 0 <= j < |attrs[1..]| ::
              KeyLess((acc + [WithPrefix(attrs[0], pre)])[i], attrs[1..][j])
  {
  }

  lemma PrefixNothing(attrs: seq<Attr>)
    ensures PrefixAll(attrs, []) == attrs
  {
    forall i | 0 <= i < |attrs| ensures WithPrefix(attrs[i], []) == attrs[i] {
      if attrs[i].data.Plain? {
        assert [] + attrs[i].data.bytes == attrs[i].data.bytes;
      }
    }
  }

  /** What a node can hold and send: a regular tree whose frame length fits in `ssize_t`. */
  ghost predicate Sendable(l: Lsa, pre: seq<byte>) {
    Regular(l.attrs, MAX_DEPTH) && |Body(l, false, pre)| <= SSIZE_MAX - MAX_LEN
  }

  lemma EncTwo(x: Attr, y: Attr, signedOnly: bool, pre: seq<byte>)
    ensures EncAttrs([x, y], signedOnly, pre) ==
            EncAttr(x, signedOnly, if x.typ == LSA_ATTR_TYPE_ADV_PATH then pre else [])
            + EncAttr(y, signedOnly, if y.typ == LSA_ATTR_TYPE_ADV_PATH then pre else [])
  {
    hide EncAttr;
    assert [x, y][1..] == [y] && [y][1..] == [];
    EncAttrsStep([x, y], signedOnly, pre);
    EncAttrsStep([y], signedOnly, pre);
    assert EncAttrs([], signedOnly, pre) == [];
  }

  lemma SmallInt(v: nat)
    requires v < 128
    ensures EncInt(v) == [v]
  {
    assert High(v / 128) == [];
  }

  /** An attribute whose numbers are small. */
  lemma SmallAttr(a: Attr, signedOnly: bool, pre: seq<byte>, key: seq<byte>, body: seq<byte>)
    requires 0 <= a.typ < 128 && |a.key| < 128 && |body| < 128 && (signedOnly ==> a.signed)
    requires body == if a.data.Set? then EncAttrs(a.data.attrs, signedOnly, []) else pre + a.data.bytes
    requires key == if a.key == [] then [] else [|a.key|] + a.key
    ensures EncAttr(a, signedOnly, pre) == [a.typ] + [Flags(a)] + key + ([|body|] + body)
  {
    hide EncInt, EncAttrs, Flags;
    SmallInt(a.typ);
    assert Flags(a) < 128 by { FlagsSmall(a); }
    SmallInt(Flags(a));
    SmallInt(|a.key|);
    SmallInt(|body|);
    if a.data.Plain? {
      assert [|body|] + body == [|body|] + pre + a.data.bytes;
    }
  }

  lemma FlagsSmall(a: Attr)
    ensures Flags(a) < 8
  {
  }

  lemma EncOne(x: Attr, signedOnly: bool, pre: seq<byte>)
    ensures EncAttrs([x], signedOnly, pre) ==
            EncAttr(x, signedOnly, if x.typ == LSA_ATTR_TYPE_ADV_PATH then pre else [])
  {
    hide EncAttr;
    EncAttrsStep([x], signedOnly, pre);
    assert [x][1..] == [] && EncAttrs([], signedOnly, pre) == [];
  }

  /** A signed set of type 2 with the key 9 9, that holds a signed attribute of type 1. */
  function SampleSet(): Attr {
    Attr(2, [9, 9], true, Set([Attr(1, [], true, Plain([1, 44]))]))
  }

  lemma SampleBytes(signedOnly: bool)
    ensures EncAttr(SampleSet(), signedOnly, []) == [2, 7, 2, 9, 9, 5, 1, 4, 2, 1, 44]
  {
    hide EncAttr, EncAttrs;
    var x := Attr(1, [], true, Plain([1, 44]));
    EncOne(x, signedOnly, []);
    SmallAttr(x, signedOnly, [], [], [1, 44]);
    assert EncAttrs([x], signedOnly, []) == [1, 4, 2, 1, 44];
    SmallAttr(SampleSet(), signedOnly, [], [2, 9, 9], [1, 4, 2, 1, 44]);
  }

  lemma NotPrinted(a: Attr)
    requires !a.signed
    ensures EncAttr(a, true, []) == []
  {
  }

  /** The layout on the wire: type, flags, key and data, the last two behind their lengths; seven-bit groups. */
  lemma WireFormat()
    ensures var attrs := [Attr(1, [], false, Plain([7])), SampleSet()];
            && EncAttrs(attrs, false, [8, 8]) == [1, 0, 3, 8, 8, 7] + [2, 7, 2, 9, 9, 5, 1, 4, 2, 1, 44]
            && EncAttrs(attrs, true, []) == [2, 7, 2, 9, 9, 5, 1, 4, 2, 1, 44]
            && EncInt(300) == [130, 44]
  {
    hide EncAttr, EncAttrs, SampleSet;
    var p := Attr(1, [], false, Plain([7]));
    EncTwo(p, SampleSet(), false, [8, 8]);
    EncTwo(p, SampleSet(), true, []);
    SmallAttr(p, false, [8, 8], [], [8, 8, 7]);
    assert [1] + [0] + [] + ([3] + [8, 8, 7]) == [1 as byte, 0, 3, 8, 8, 7];
    NotPrinted(p);
    assert SampleSet().typ != LSA_ATTR_TYPE_ADV_PATH by { SampleType(); }
    SampleBytes(false);
    SampleBytes(true);
  }

  lemma SampleType()
    ensures SampleSet().typ == 2
  {
  }

  /** A frame decodes to the LSA it was made from, with `pre` in its path, whatever follows. */
  lemma FrameRoundTrip(l: Lsa, pre: seq<byte>, t: seq<byte>)
    requires Sendable(l, pre)
    ensures Deser(Frame(l, false, pre) + t) == Got(Some(Prepend(l, pre)), |Frame(l, false, pre)|)
  {
    hide ParseAttrs, EncAttrs, EncInt, DecInt, PrefixAll, Regular;
    var body := Body(l, false, pre);
    var s := Frame(l, false, pre) + t;
    assert s == EncInt(|body|) + (body + t);
    DecEnc(|body|, body + t);
    EncLength(|body|);
    var off := |EncInt(|body|)|;
    assert s[off..off + NODE_ID_LEN] == l.id;
    assert s[off + NODE_ID_LEN..off + |body|] == EncAttrs(l.attrs, false, pre);
    ParseEnc(l.attrs, pre, [], MAX_DEPTH);
    assert [] + PrefixAll(l.attrs, pre) == PrefixAll(l.attrs, pre);
  }

  /** Printing is injective on regular trees. */
  lemma EncInjective(a: seq<Attr>, b: seq<Attr>, depth: nat)
    requires Regular(a, depth) && Regular(b, depth) && |EncAttrs(a, false, [])| < TWO_64
    requires EncAttrs(a, false, []) == EncAttrs(b, false, [])
    ensures a == b
  {
    hide ParseAttrs, EncAttrs, Regular;
    ParseEnc(a, [], [], depth);
    ParseEnc(b, [], [], depth);
    PrefixNothing(a);
    PrefixNothing(b);
    assert [] + a == a && [] + b == b;
  }
}
