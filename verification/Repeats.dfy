/** What the parser makes of attributes in any order, and of keys that occur twice. */
module Repeats {
  import opened Bytes
  import opened Varint
  import opened Lsas
  import opened Codec
  import opened Signing

  /** Attributes as a sender may list them: any order, any keys the lookup accepts. */
  ghost predicate Listable(l: seq<Attr>, depth: nat)
    decreases l, 0
  {
    l != [] ==> ListableAttr(l[0], depth) && Listable(l[1..], depth)
  }

  ghost predicate ListableAttr(a: Attr, depth: nat)
    decreases a, 1
  {
    0 <= a.typ && |a.key| <= 65536 && (a.data.Set? ==> depth > 0 && Listable(a.data.attrs, depth - 1))
  }

  /** Some set, at any level, holds two attributes of one key. */
  ghost predicate Repeats(l: seq<Attr>)
    decreases l, 0
  {
    || (exists i, j | 0 <= i < j < |l| :: SameKey(l[i], l[j]))
    || (exists i | 0 <= i < |l| :: RepeatsInside(l[i]))
  }

  ghost predicate RepeatsInside(a: Attr)
    decreases a, 1
  {
    a.data.Set? && Repeats(a.data.attrs)
  }

  /** The tree that holds the attributes of `l`, put in one by one after those of `acc`. */
  function Arrange(acc: seq<Attr>, l: seq<Attr>): seq<Attr>
    decreases l, 0
  {
    if l == [] then acc else Arrange(Insert(acc, ArrangeAttr(l[0])), l[1..])
  }

  function ArrangeAttr(a: Attr): (b: Attr)
    ensures b.typ == a.typ && b.key == a.key && b.signed == a.signed && b.data.Set? == a.data.Set?
    ensures a.data.Plain? ==> b == a
    decreases a, 1
  {
    match a.data
    case Plain(_) => a
    case Set(sub) => a.(data := Set(Arrange([], sub)))
  }

  /** Some attribute of `l` has a key that `acc` holds. */
  ghost predicate Clashes(acc: seq<Attr>, l: seq<Attr>) {
    exists i, j | 0 <= i < |acc| && 0 <= j < |l| :: SameKey(acc[i], l[j])
  }

  lemma RepeatsFirst(l: seq<Attr>)
    requires l != []
    ensures Repeats(l) <==> Clashes([l[0]], l[1..]) || RepeatsInside(l[0]) || Repeats(l[1..])
  {
    hide RepeatsInside;
    var t := l[1..];
    if Repeats(l) {
      if exists i | 0 <= i < |l| :: RepeatsInside(l[i]) {
        var i :| 0 <= i < |l| && RepeatsInside(l[i]);
        assert i > 0 ==> RepeatsInside(t[i - 1]);
      } else {
        var i, j :| 0 <= i < j < |l| && SameKey(l[i], l[j]);
        if i > 0 {
          assert SameKey(t[i - 1], t[j - 1]);
        } else {
          assert SameKey([l[0]][0], t[j - 1]);
        }
      }
    }
    if Clashes([l[0]], t) {
      var i, j :| 0 <= i < 1 && 0 <= j < |t| && SameKey([l[0]][i], t[j]);
      assert SameKey(l[0], l[j + 1]);
    }
    if Repeats(t) {
      if exists i | 0 <= i < |t| :: RepeatsInside(t[i]) {
        var i :| 0 <= i < |t| && RepeatsInside(t[i]);
        assert RepeatsInside(l[i + 1]);
      } else {
        var i, j :| 0 <= i < j < |t| && SameKey(t[i], t[j]);
        assert SameKey(l[i + 1], l[j + 1]);
      }
    }
  }

  lemma ClashFirst(acc: seq<Attr>, l: seq<Attr>)
    requires l != []
    ensures Clashes(acc, l) <==> Find(acc, l[0].typ, l[0].key).Some? || Clashes(acc, l[1..])
  {
    var t := l[1..];
    if Clashes(acc, l) {
      var i, j :| 0 <= i < |acc| && 0 <= j < |l| && SameKey(acc[i], l[j]);
      assert acc[i] in acc;
      if j > 0 {
        assert SameKey(acc[i], t[j - 1]);
      }
    }
    if Find(acc, l[0].typ, l[0].key).Some? {
      var a := Find(acc, l[0].typ, l[0].key).value;
      var i :| 0 <= i < |acc| && acc[i] == a;
      assert SameKey(acc[i], l[0]);
    }
    if Clashes(acc, t) {
      var i, j :| 0 <= i < |acc| && 0 <= j < |t| && SameKey(acc[i], t[j]);
      assert SameKey(acc[i], l[j + 1]);
    }
  }

  lemma ClashInserted(acc: seq<Attr>, a: Attr, b: Attr, l: seq<Attr>)
    requires SameKey(a, b)
    ensures Clashes(Insert(acc, b), l) <==> Clashes(acc, l) || Clashes([a], l)
  {
    InsertMembers(acc, b);
    var r := Insert(acc, b);
    if Clashes(r, l) {
      var i, j :| 0 <= i < |r| && 0 <= j < |l| && SameKey(r[i], l[j]);
      assert r[i] in multiset(r);
      if r[i] == b {
        assert SameKey([a][0], l[j]);
      } else {
        assert r[i] in acc;
        var k :| 0 <= k < |acc| && acc[k] == r[i];
        assert SameKey(acc[k], l[j]);
      }
    }
    if Clashes(acc, l) {
      var i, j :| 0 <= i < |acc| && 0 <= j < |l| && SameKey(acc[i], l[j]);
      assert acc[i] in multiset(acc) && acc[i] in multiset(r) && acc[i] in r;
      var k :| 0 <= k < |r| && r[k] == acc[i];
      assert SameKey(r[k], l[j]);
    }
    if Clashes([a], l) {
      var i, j :| 0 <= i < 1 && 0 <= j < |l| && SameKey([a][i], l[j]);
      assert b in multiset(r) && b in r;
      var k :| 0 <= k < |r| && r[k] == b;
      assert SameKey(r[k], l[j]);
    }
  }

  lemma NothingRepeats(acc: seq<Attr>)
    ensures !Repeats([]) && !Clashes(acc, [])
  {
  }

  // ------------------------------------------------------------------------- the parse

  /** One attribute, given what its set parses to. */
  lemma ParseOneAny(a: Attr, rest: seq<byte>, acc: seq<Attr>, depth: nat)
    requires ListableAttr(a, depth) && |EncAttr(a, false, [])| < TWO_64
    requires a.data.Set? ==>
               ParseAttrs(EncAttrs(a.data.attrs, false, []), [], depth - 1) ==
               if Repeats(a.data.attrs) then ParseAbort else Parsed(Arrange([], a.data.attrs))
    ensures ParseAttrs(EncAttr(a, false, []) + rest, acc, depth) ==
            if Find(acc, a.typ, a.key).Some? || RepeatsInside(a) then ParseAbort
            else ParseAttrs(rest, Insert(acc, ArrangeAttr(a)), depth)
  {
    hide ParseHead, EncAttr, EncAttrs, Insert, Find, Arrange, Repeats;
    var e := EncAttr(a, false, []);
    DataBytesFit(a, []);
    HeadRoundTrip(a, [], rest);
    var h := Head(a.typ, Flags(a), a.key, DataBytes(a, []), |e|);
    assert (e + rest)[|e|..] == rest;
    match a.data
    case Set(sub) => SetBytes(a, sub, [], |e|);
    case Plain(bytes) =>
      PlainBytes(a, bytes, [], |e|);
      assert [] + bytes == bytes;
  }

  /** The parse of printed attributes, whatever their order and keys. */
  lemma {:induction false} ParseAny(l: seq<Attr>, acc: seq<Attr>, depth: nat)
    requires Listable(l, depth) && |EncAttrs(l, false, [])| < TWO_64
    ensures ParseAttrs(EncAttrs(l, false, []), acc, depth) ==
            if Clashes(acc, l) || Repeats(l) then ParseAbort else Parsed(Arrange(acc, l))
    decreases l
  {
    hide ParseAttrs, EncAttr, EncAttrs, Insert, Find, Clashes, Repeats, RepeatsInside, Arrange, ArrangeAttr;
    if l == [] {
      NothingRepeats(acc);
      NothingParsed(acc, depth);
    } else {
      var a, rest := l[0], l[1..];
      EncAttrsStep(l, false, []);
      if a.data.Set? {
        SetBytes(a, a.data.attrs, [], 0);
        DataBytesFit(a, []);
        ParseAny(a.data.attrs, [], depth - 1);
        NoClash(a.data.attrs);
      }
      ParseOneAny(a, EncAttrs(rest, false, []), acc, depth);
      ParseAny(rest, Insert(acc, ArrangeAttr(a)), depth);
      RepeatsFirst(l);
      ClashFirst(acc, l);
      ClashInserted(acc, a, ArrangeAttr(a), rest);
      ArrangeFirst(acc, l);
    }
  }

  lemma NothingParsed(acc: seq<Attr>, depth: nat)
    ensures EncAttrs([], false, []) == [] && ParseAttrs([], acc, depth) == Parsed(acc) && Arrange(acc, []) == acc
  {
  }

  lemma NoClash(l: seq<Attr>)
    ensures !Clashes([], l)
  {
  }

  lemma ArrangeFirst(acc: seq<Attr>, l: seq<Attr>)
    requires l != []
    ensures Arrange(acc, l) == Arrange(Insert(acc, ArrangeAttr(l[0])), l[1..])
  {
  }

  /** Printed attributes end the parse exactly if some set holds a key twice; else they give the ordered tree. */
  lemma RepeatsEndParse(l: seq<Attr>, depth: nat)
    requires Listable(l, depth) && |EncAttrs(l, false, [])| < TWO_64
    ensures ParseAttrs(EncAttrs(l, false, []), [], depth) == ParseAbort <==> Repeats(l)
    ensures !Repeats(l) ==> ParseAttrs(EncAttrs(l, false, []), [], depth) == Parsed(Arrange([], l))
  {
    hide ParseAttrs, EncAttrs, Repeats, Arrange;
    ParseAny(l, [], depth);
    NoClash(l);
  }

  // ------------------------------------------------------------------- the ordered tree

  /** The tree is ordered and regular if no key repeats. */
  lemma {:induction false} ArrangedTree(l: seq<Attr>, acc: seq<Attr>, depth: nat)
    requires Listable(l, depth) && Regular(acc, depth) && !Repeats(l) && !Clashes(acc, l)
    ensures Regular(Arrange(acc, l), depth)
    decreases l
  {
    hide Insert, Find, Clashes, Repeats, RepeatsInside, Regular, Listable;
    if l == [] {
    } else {
      var a, b, rest := l[0], ArrangeAttr(l[0]), l[1..];
      ListableFirst(l, depth);
      RepeatsFirst(l);
      ClashFirst(acc, l);
      ClashInserted(acc, a, b, rest);
      ArrangedOne(a, depth);
      InsertRegular(acc, b, depth);
      ArrangedTree(rest, Insert(acc, b), depth);
    }
  }

  /** It holds each attribute of the list once, with its sets arranged too. */
  lemma {:induction false} ArrangedMembers(acc: seq<Attr>, l: seq<Attr>)
    ensures multiset(Arrange(acc, l)) == multiset(acc) + multiset(ArrangedAll(l))
    decreases l
  {
    hide Insert, ArrangeAttr;
    if l == [] {
    } else {
      var b := ArrangeAttr(l[0]);
      InsertMembers(acc, b);
      ArrangedMembers(Insert(acc, b), l[1..]);
      assert ArrangedAll(l) == [b] + ArrangedAll(l[1..]);
    }
  }

  function ArrangedAll(l: seq<Attr>): (r: seq<Attr>)
    ensures |r| == |l| && forall i | 0 <= i < |r| :: r[i] == ArrangeAttr(l[i])
  {
    if l == [] then [] else [ArrangeAttr(l[0])] + ArrangedAll(l[1..])
  }

  lemma ListableFirst(l: seq<Attr>, depth: nat)
    requires l != [] && Listable(l, depth)
    ensures ListableAttr(l[0], depth) && Listable(l[1..], depth)
  {
  }

  lemma ArrangedOne(a: Attr, depth: nat)
    requires ListableAttr(a, depth) && !RepeatsInside(a)
    ensures RegularAttr(ArrangeAttr(a), depth)
    decreases a
  {
    if a.data.Set? {
      NoClash(a.data.attrs);
      EmptyRegular(depth - 1);
      ArrangedTree(a.data.attrs, [], depth - 1);
    }
  }

  // ------------------------------------------------------------------------- the frames

  /** A received frame ends the program exactly if some set of its LSA holds a key twice. */
  lemma RepeatsEndFrame(id: NodeId, l: seq<Attr>, t: seq<byte>)
    requires Listable(l, MAX_DEPTH) && |Body(Lsa(id, l), false, [])| <= SSIZE_MAX - MAX_LEN
    ensures var f := Frame(Lsa(id, l), false, []);
            Deser(f + t) == if Repeats(l) then Abort else Got(Some(Lsa(id, Arrange([], l))), |f|)
  {
    hide ParseAttrs, EncAttrs, EncInt, DecInt, Repeats, Arrange, Listable;
    var body := Body(Lsa(id, l), false, []);
    var s := Frame(Lsa(id, l), false, []) + t;
    assert s == EncInt(|body|) + (body + t);
    DecEnc(|body|, body + t);
    EncLength(|body|);
    var off := |EncInt(|body|)|;
    assert s[off..off + NODE_ID_LEN] == id;
    assert s[off + NODE_ID_LEN..off + |body|] == EncAttrs(l, false, []);
    ParseAny(l, [], MAX_DEPTH);
    NoClash(l);
  }

  /** Such a frame: two attributes of type 2, without keys. */
  lemma RepeatArrives(id: NodeId)
    ensures Deser([38] + id + [2, 0, 0, 2, 0, 0]) == Abort
  {
    hide Deser, ParseAttrs;
    var a := Attr(2, [], false, Plain([]));
    var l := [a, a];
    TwoPrinted(a);
    assert l[1..] == [a] && l[1..][1..] == [];
    assert SameKey(l[0], l[1]) && Repeats(l);
    assert ListableAttr(a, MAX_DEPTH) && Listable([], MAX_DEPTH) && Listable([a], MAX_DEPTH) && Listable(l, MAX_DEPTH);
    RepeatsEndParse(l, MAX_DEPTH);
    ShortFrame(id, [2, 0, 0, 2, 0, 0]);
  }

  lemma TwoPrinted(a: Attr)
    requires a == Attr(2, [], false, Plain([]))
    ensures EncAttrs([a, a], false, []) == [2, 0, 0, 2, 0, 0]
  {
    assert EncInt(2) == [2] && EncInt(0) == [0];
    assert EncAttr(a, false, []) == [2, 0, 0];
    assert [a, a][1..] == [a] && [a][1..] == [];
    EncAttrsStep([a, a], false, []);
    EncAttrsStep([a], false, []);
  }
}
