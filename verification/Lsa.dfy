/** `lsa.h`, `lsa_type.h`, `lsa.c`: link-state advertisements as ordered attribute trees. */
module Lsas {
  import opened Bytes

  const LSA_ATTR_TYPE_ADV_PATH: int := 1
  const LSA_ATTR_TYPE_PEER: int := 2
  const LSA_ATTR_TYPE_VERSION: int := 4
  const LSA_ATTR_TYPE_PUBKEY: int := 5
  const LSA_ATTR_TYPE_SIGNATURE: int := 6

  const MAX_SERIALISED_INT_LEN: nat := 10

  /** `sizeof(struct lsa_attr_set)` with 64-bit pointers: what `datalen` is for a set. */
  const SET_DATALEN: nat := 16

  type int32 = x: int | -0x8000_0000 <= x < 0x8000_0000

  datatype Data = Plain(bytes: seq<byte>) | Set(attrs: seq<Attr>)

  datatype Attr = Attr(typ: int32, key: seq<byte>, signed: bool, data: Data)

  /** An LSA; its attributes are in the order the tree keeps them. */
  datatype Lsa = Lsa(id: NodeId, attrs: seq<Attr>)

  /** `lsa_attr_compare_keys`: by type, then by key. */
  predicate KeyLess(a: Attr, b: Attr) {
    a.typ < b.typ || (a.typ == b.typ && Less(a.key, b.key))
  }

  predicate SameKey(a: Attr, b: Attr) {
    a.typ == b.typ && a.key == b.key
  }

  ghost predicate Sorted(attrs: seq<Attr>) {
    forall i, j | 0 <= i < j < |attrs| :: KeyLess(attrs[i], attrs[j])
  }

  lemma KeyTrichotomy(a: Attr, b: Attr)
    ensures KeyLess(a, b) || KeyLess(b, a) || SameKey(a, b)
    ensures !(KeyLess(a, b) && KeyLess(b, a)) && (SameKey(a, b) ==> !KeyLess(a, b))
  {
    LessTrichotomy(a.key, b.key);
    LessTrichotomy(a.key, a.key);
  }

  lemma KeyTransitive(a: Attr, b: Attr, c: Attr)
    requires KeyLess(a, b) && KeyLess(b, c)
    ensures KeyLess(a, c)
  {
    if a.typ == b.typ == c.typ {
      LessTransitive(a.key, b.key, c.key);
    }
  }

  /** `lsa_attr_set_find_attr` on a tree, by its contents. */
  function Find(attrs: seq<Attr>, typ: int, key: seq<byte>): (r: Option<Attr>)
    ensures r.Some? ==> r.value in attrs && r.value.typ == typ && r.value.key == key
    ensures r == None ==> forall a | a in attrs :: !(a.typ == typ && a.key == key)
  {
    if attrs == [] then None
    else if attrs[0].typ == typ && attrs[0].key == key then Some(attrs[0])
    else Find(attrs[1..], typ, key)
  }

  /** In a sorted set the attribute of a given key is the only one. */
  lemma FindUnique(attrs: seq<Attr>, a: Attr)
    requires Sorted(attrs) && a in attrs
    ensures Find(attrs, a.typ, a.key) == Some(a)
  {
    var i :| 0 <= i < |attrs| && attrs[i] == a;
    var b := Find(attrs, a.typ, a.key).value;
    var j :| 0 <= j < |attrs| && attrs[j] == b;
    KeyTrichotomy(a, b);
  }

  /** Where the tree puts a new attribute. */
  function Insert(attrs: seq<Attr>, a: Attr): (r: seq<Attr>) {
    if attrs == [] then [a]
    else if KeyLess(a, attrs[0]) then [a] + attrs
    else [attrs[0]] + Insert(attrs[1..], a)
  }

  lemma {:induction false} InsertMembers(attrs: seq<Attr>, a: Attr)
    ensures multiset(Insert(attrs, a)) == multiset(attrs) + multiset{a}
  {
    if attrs != [] && !KeyLess(a, attrs[0]) {
      InsertMembers(attrs[1..], a);
      assert attrs == [attrs[0]] + attrs[1..];
    }
  }

  /** A new key keeps the tree ordered. */
  lemma {:induction false} InsertSorted(attrs: seq<Attr>, a: Attr)
    requires Sorted(attrs) && Find(attrs, a.typ, a.key) == None
    ensures Sorted(Insert(attrs, a))
  {
    if attrs != [] {
      KeyTrichotomy(a, attrs[0]);
      if KeyLess(a, attrs[0]) {
        forall j | 0 <= j < |attrs| ensures KeyLess(a, attrs[j]) {
          if j > 0 { KeyTransitive(a, attrs[0], attrs[j]); }
        }
      } else {
        var rest := Insert(attrs[1..], a);
        InsertSorted(attrs[1..], a);
        InsertMembers(attrs[1..], a);
        forall j | 0 <= j < |rest| ensures KeyLess(attrs[0], rest[j]) {
          assert rest[j] in multiset(rest);
          assert rest[j] == a || rest[j] in attrs[1..];
        }
      }
    }
  }

  lemma {:induction false} InsertLast(attrs: seq<Attr>, a: Attr)
    requires forall i | 0 <= i < |attrs| :: KeyLess(attrs[i], a)
    ensures Insert(attrs, a) == attrs + [a] && Find(attrs, a.typ, a.key) == None
  {
    if attrs != [] {
      KeyTrichotomy(a, attrs[0]);
      InsertLast(attrs[1..], a);
      assert attrs == [attrs[0]] + attrs[1..];
    }
  }

  function DataLen(d: Data): nat {
    if d.Plain? then |d.bytes| else SET_DATALEN
  }

  /** `lsa_attr_size`: what one attribute adds to `bytes`, its contents aside if it is a set. */
  function AttrSize(a: Attr): nat {
    2 * MAX_SERIALISED_INT_LEN + (if a.key != [] then MAX_SERIALISED_INT_LEN + |a.key| else 0)
    + MAX_SERIALISED_INT_LEN + (if a.data.Plain? then |a.data.bytes| else 0)
  }

  /** An attribute and everything inside it. */
  function DeepSize(a: Attr): nat
    decreases a, 1
  {
    AttrSize(a) + if a.data.Set? then SetSize(a.data.attrs) else 0
  }

  function SetSize(attrs: seq<Attr>): nat
    decreases attrs, 0
  {
    if attrs == [] then 0 else DeepSize(attrs[0]) + SetSize(attrs[1..])
  }

  /** The `bytes` an LSA accounts for. */
  function LsaBytes(l: Lsa): nat {
    MAX_SERIALISED_INT_LEN + NODE_ID_LEN + SetSize(l.attrs)
  }

  lemma {:induction false} SetSizeSplit(a: seq<Attr>, b: seq<Attr>)
    ensures SetSize(a + b) == SetSize(a) + SetSize(b)
  {
    if a == [] {
      assert a + b == b;
    } else {
      SetSizeSplit(a[1..], b);
      assert (a + b)[1..] == a[1..] + b;
    }
  }

  lemma {:induction false} InsertSize(attrs: seq<Attr>, a: Attr)
    ensures SetSize(Insert(attrs, a)) == SetSize(attrs) + DeepSize(a)
  {
    if attrs != [] && !KeyLess(a, attrs[0]) {
      InsertSize(attrs[1..], a);
    }
  }

  /** No set inside the tree is empty; the tree itself may be. */
  predicate NoEmptySet(attrs: seq<Attr>)
    decreases attrs, 0
  {
    attrs != [] ==> Freeable(attrs[0]) && NoEmptySet(attrs[1..])
  }

  predicate Freeable(a: Attr)
    decreases a, 1
  {
    a.data.Set? ==> a.data.attrs != [] && NoEmptySet(a.data.attrs)
  }

  lemma {:induction false} NoEmptySetMembers(attrs: seq<Attr>)
    ensures NoEmptySet(attrs) <==> forall a | a in attrs :: Freeable(a)
  {
    if attrs != [] {
      NoEmptySetMembers(attrs[1..]);
      assert attrs[0] in attrs && forall a | a in attrs :: a == attrs[0] || a in attrs[1..];
    }
  }
}
