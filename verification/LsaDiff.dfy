/** `lsa_diff.c`: how many attributes of two LSAs differ. */
module LsaDiff {
  import opened Bytes
  import opened Varint
  import opened Lsas
  import opened Codec
  import opened AvlDiff
  import opened Serialiser

  function AttrOrder(): (Attr, Attr) -> bool {
    (x, y) => KeyLess(x, y)
  }

  lemma AttrOrderStrict()
    ensures StrictOrder(AttrOrder())
    ensures forall x, y :: SameSpot(AttrOrder(), x, y) <==> SameKey(x, y)
  {
    forall x: Attr, y: Attr, z: Attr | KeyLess(x, y) && KeyLess(y, z) ensures KeyLess(x, z) {
      KeyTransitive(x, y, z);
    }
    forall x: Attr, y: Attr ensures SameSpot(AttrOrder(), x, y) <==> SameKey(x, y) {
      KeyTrichotomy(x, y);
      KeyTrichotomy(x, x);
    }
    forall x: Attr ensures !KeyLess(x, x) {
      KeyTrichotomy(x, x);
    }
    forall x: Attr, y: Attr, z: Attr | SameSpot(AttrOrder(), x, y)
      ensures KeyLess(y, z) ==> KeyLess(x, z)
      ensures KeyLess(z, y) ==> KeyLess(z, x)
    {
      KeyTrichotomy(x, y);
    }
  }

  /** What `attr_cmp` calls equal: the signed bit counts only inside and on sets. */
  predicate SameContent(a: Attr, b: Attr) {
    a.data == b.data && (a.data.Set? ==> a.signed == b.signed)
  }

  /** Sets this large make `attr_cmp` abort. */
  predicate Comparable(a: Attr) {
    a.data.Set? ==> |EncAttr(a, false, [])| <= 65536 - 16
  }

  ghost predicate AllComparable(attrs: seq<Attr>) {
    Regular(attrs, MAX_DEPTH) && forall a | a in attrs :: Comparable(a)
  }

  /** Equal bytes mean equal set attributes. */
  lemma SetBytesDecide(a: Attr, b: Attr, depth: nat)
    requires a.data.Set? && b.data.Set? && RegularAttr(a, depth) && RegularAttr(b, depth)
    requires |EncAttr(a, false, [])| < TWO_64 && EncAttr(a, false, []) == EncAttr(b, false, [])
    ensures a == b
  {
    hide ParseHead, EncAttr, EncAttrs;
    HeadRoundTrip(a, [], []);
    HeadRoundTrip(b, [], []);
    assert EncAttr(a, false, []) + [] == EncAttr(b, false, []) + [];
    DataBytesFit(a, []);
    SetBytes(a, a.data.attrs, [], 0);
    SetBytes(b, b.data.attrs, [], 0);
    EncInjective(a.data.attrs, b.data.attrs, depth - 1);
  }

  /** `attr_cmp`. */
  method AttrCmp(a: Attr, b: Attr) returns (r: int)
    requires SameKey(a, b) && Comparable(a) && Comparable(b)
    requires RegularAttr(a, MAX_DEPTH) && RegularAttr(b, MAX_DEPTH)
    ensures r == 0 <==> SameContent(a, b)
  {
    hide EncAttr, RegularAttr;
    if a.data.Set? != b.data.Set? {
      return 1;
    }
    if a.data.Plain? {
      if |a.data.bytes| != |b.data.bytes| {
        return 1;
      }
      return if a.data.bytes == b.data.bytes then 0 else 1;
    }
    var abuf := Printed(a);
    var bbuf := Printed(b);
    if |abuf| != |bbuf| {
      return 1;
    }
    if abuf == bbuf {
      SetBytesDecide(a, b, MAX_DEPTH);
      return 0;
    }
    return 1;
  }

  /** `lsa_attr_serialise` into a buffer of the right size. */
  method Printed(a: Attr) returns (s: seq<byte>)
    requires |EncAttr(a, false, [])| <= 65536 - 16
    ensures s == EncAttr(a, false, [])
  {
    hide EncAttr;
    var none := new byte[0];
    var count := new Dst(none, 0);
    AttrSerialise(count, a, false, []);
    var buf := new byte[count.off + 16](_ => 0);
    var dst := new Dst(buf, count.off + 16);
    AttrSerialise(dst, a, false, []);
    s := buf[..dst.off];
    assert s == dst.log;
  }

  type Key = (int32, seq<byte>)

  function KeyOf(a: Attr): Key { (a.typ, a.key) }

  function Keys(attrs: seq<Attr>): set<Key> {
    set a | a in attrs :: KeyOf(a)
  }

  /** The keys under which two sets do not hold the same content. */
  ghost function DiffKeys(a: seq<Attr>, b: seq<Attr>): set<Key> {
    set k | k in Keys(a) + Keys(b) &&
      !(exists x, y | x in a && y in b :: KeyOf(x) == k && KeyOf(y) == k && SameContent(x, y))
  }

  predicate Differs(c: Change<Attr>) {
    c.Mod? ==> !SameContent(c.a, c.b)
  }

  function Count(cs: seq<Change<Attr>>): nat {
    if cs == [] then 0 else (if Differs(cs[0]) then 1 else 0) + Count(cs[1..])
  }

  ghost function CountedKeys(cs: seq<Change<Attr>>): set<Key> {
    set c | c in cs && Differs(c) :: KeyOf(Spot(c))
  }

  lemma {:induction false} CountIsKeys(cs: seq<Change<Attr>>)
    requires Increasing(cs, AttrOrder())
    ensures |CountedKeys(cs)| == Count(cs)
  {
    hide KeyLess, CountedKeys;
    CountedStep(cs);
    if cs == [] {
    } else {
      assert Increasing(cs[1..], AttrOrder());
      CountIsKeys(cs[1..]);
      FirstKeyNew(cs);
    }
  }

  lemma CountedStep(cs: seq<Change<Attr>>)
    ensures cs == [] ==> CountedKeys(cs) == {}
    ensures cs != [] ==> CountedKeys(cs) == (if Differs(cs[0]) then {KeyOf(Spot(cs[0]))} else {}) + CountedKeys(cs[1..])
  {
    if cs != [] {
      assert cs == [cs[0]] + cs[1..];
    }
  }

  lemma FirstKeyNew(cs: seq<Change<Attr>>)
    requires cs != [] && Increasing(cs, AttrOrder())
    ensures KeyOf(Spot(cs[0])) !in CountedKeys(cs[1..])
  {
    forall c | c in cs[1..] ensures KeyOf(Spot(c)) != KeyOf(Spot(cs[0])) {
      var i :| 0 <= i < |cs[1..]| && cs[1..][i] == c;
      assert AttrOrder()(Spot(cs[0]), Spot(cs[i + 1]));
      KeyTrichotomy(Spot(cs[0]), Spot(c));
    }
  }

  lemma SortedInOrder(attrs: seq<Attr>)
    requires Sorted(attrs)
    ensures InOrder(attrs, AttrOrder())
  {
  }

  lemma UniqueKey(attrs: seq<Attr>, x: Attr, y: Attr)
    requires Sorted(attrs) && x in attrs && y in attrs && KeyOf(x) == KeyOf(y)
    ensures x == y
  {
    FindUnique(attrs, x);
    FindUnique(attrs, y);
  }

  /** The calls that count are those for the keys that differ. */
  lemma WalkFindsDiffs(a: seq<Attr>, b: seq<Attr>)
    requires Sorted(a) && Sorted(b)
    ensures CountedKeys(Walk(a, b, AttrOrder())) == DiffKeys(a, b)
  {
    hide Walk;
    AttrOrderStrict();
    SortedInOrder(a);
    SortedInOrder(b);
    var cs := Walk(a, b, AttrOrder());
    forall c | c in cs
      ensures KeyOf(Spot(c)) in Keys(a) + Keys(b) && (Differs(c) <==> KeyOf(Spot(c)) in DiffKeys(a, b))
    {
      WalkIsRight(a, b, AttrOrder(), c);
      CallDiffers(a, b, c);
    }
    WalkCovers(a, b, AttrOrder());
    forall k | k in DiffKeys(a, b) ensures k in CountedKeys(cs) {
      if k in Keys(a) {
        var x :| x in a && KeyOf(x) == k;
        var c :| c in cs && !c.Add? && c.a == x;
        assert KeyOf(Spot(c)) == k;
      } else {
        var y :| y in b && KeyOf(y) == k;
        var c :| c in cs && !c.Del? && c.b == y;
        WalkIsRight(a, b, AttrOrder(), c);
        assert KeyOf(Spot(c)) == k;
      }
    }
  }

  lemma CallDiffers(a: seq<Attr>, b: seq<Attr>, c: Change<Attr>)
    requires Sorted(a) && Sorted(b) && Right(c, a, b, AttrOrder())
    requires forall x, y :: SameSpot(AttrOrder(), x, y) <==> SameKey(x, y)
    ensures KeyOf(Spot(c)) in Keys(a) + Keys(b)
    ensures Differs(c) <==> KeyOf(Spot(c)) in DiffKeys(a, b)
  {
    var k := KeyOf(Spot(c));
    if c.Mod? {
      forall x, y | x in a && y in b && KeyOf(x) == k && KeyOf(y) == k ensures x == c.a && y == c.b {
        UniqueKey(a, x, c.a);
        UniqueKey(b, y, c.b);
      }
    }
  }

  /**
   * `lsa_diff`: walks both attribute trees once and returns the number of keys whose
   * attributes differ.
   */
  method Diff(a: seq<Attr>, b: seq<Attr>) returns (diffs: nat)
    requires AllComparable(a) && AllComparable(b)
    ensures diffs == |DiffKeys(a, b)|
  {
    hide EncAttr, RegularAttr, DiffKeys;
    diffs := 0;
    var i, j := 0, 0;
    ghost var total := Count(Walk(a, b, AttrOrder()));
    assert a[0..] == a && b[0..] == b;
    while i < |a| || j < |b|
      invariant 0 <= i <= |a| && 0 <= j <= |b|
      invariant diffs + Count(Walk(a[i..], b[j..], AttrOrder())) == total
      decreases |a| - i + |b| - j
    {
      ghost var cs := Walk(a[i..], b[j..], AttrOrder());
      WalkTurn(a, b, i, j);
      if j == |b| || (i < |a| && KeyLess(a[i], b[j])) {
        diffs := diffs + 1;
        i := i + 1;
      } else if i == |a| || KeyLess(b[j], a[i]) {
        diffs := diffs + 1;
        j := j + 1;
      } else {
        KeyTrichotomy(a[i], b[j]);
        var r := AttrCmp(a[i], b[j]);
        if r != 0 {
          diffs := diffs + 1;
        }
        i := i + 1;
        j := j + 1;
      }
    }
    AttrOrderStrict();
    SortedInOrder(a);
    SortedInOrder(b);
    WalkIncreases(a, b, AttrOrder());
    CountIsKeys(Walk(a, b, AttrOrder()));
    WalkFindsDiffs(a, b);
  }

  lemma WalkTurn(a: seq<Attr>, b: seq<Attr>, i: nat, j: nat)
    requires i <= |a| && j <= |b| && (i < |a| || j < |b|)
    ensures var n := Count(Walk(a[i..], b[j..], AttrOrder()));
            if j == |b| || (i < |a| && KeyLess(a[i], b[j])) then
              n == 1 + Count(Walk(a[i + 1..], b[j..], AttrOrder()))
            else if i == |a| || KeyLess(b[j], a[i]) then
              n == 1 + Count(Walk(a[i..], b[j + 1..], AttrOrder()))
            else
              n == (if SameContent(a[i], b[j]) then 0 else 1) + Count(Walk(a[i + 1..], b[j + 1..], AttrOrder()))
  {
    var cs := Walk(a[i..], b[j..], AttrOrder());
    if i < |a| { assert a[i..][1..] == a[i + 1..] && a[i..][0] == a[i]; }
    if j < |b| { assert b[j..][1..] == b[j + 1..] && b[j..][0] == b[j]; }
    var a', b' := if cs[0].Add? then a[i..] else a[i + 1..], if cs[0].Del? then b[j..] else b[j + 1..];
    assert cs[1..] == Walk(a', b', AttrOrder());
  }

  /** The set as `lsa_diff` sees it: the signed bit of plain attributes is ignored. */
  function Unmarked(a: Attr): Attr {
    if a.data.Plain? then a.(signed := false) else a
  }

  function Normal(attrs: seq<Attr>): (r: seq<Attr>)
    ensures |r| == |attrs| && forall i | 0 <= i < |r| :: r[i] == Unmarked(attrs[i])
  {
    if attrs == [] then [] else [Unmarked(attrs[0])] + Normal(attrs[1..])
  }

  /** Ordered sets with the same members are the same sequence. */
  lemma {:induction false} SameMembers(a: seq<Attr>, b: seq<Attr>)
    requires Sorted(a) && Sorted(b) && forall x :: x in a <==> x in b
    ensures a == b
  {
    if a == [] {
      if b != [] { NoMember(b, a); }
    } else if b == [] {
      NoMember(a, b);
    } else {
      assert a[0] in a && b[0] in b;
      assert a[0] in b && b[0] in a;
      var i :| 0 <= i < |b| && b[i] == a[0];
      var j :| 0 <= j < |a| && a[j] == b[0];
      KeyTrichotomy(a[0], b[0]);
      assert a[0] == b[0];
      NotTwice(a);
      NotTwice(b);
      forall x ensures x in a[1..] <==> x in b[1..] {
        assert x in a <==> x == a[0] || x in a[1..];
        assert x in b <==> x == b[0] || x in b[1..];
      }
      SameMembers(a[1..], b[1..]);
    }
  }

  lemma NoMember(a: seq<Attr>, b: seq<Attr>)
    requires a != [] && b == []
    ensures exists x :: x in a && x !in b
  {
    assert a[0] in a;
  }

  lemma NotTwice(a: seq<Attr>)
    requires Sorted(a) && a != []
    ensures a[0] !in a[1..]
  {
    KeyTrichotomy(a[0], a[0]);
  }

  /** `lsa_diff` returns 0 exactly for LSAs equal up to the signed bit of plain attributes. */
  lemma NoDiffs(a: seq<Attr>, b: seq<Attr>)
    requires Sorted(a) && Sorted(b)
    ensures DiffKeys(a, b) == {} <==> Normal(a) == Normal(b)
  {
    if DiffKeys(a, b) == {} {
      hide DiffKeys, Normal;
      HalfSame(a, b);
      DiffSymmetric(a, b);
      HalfSame(b, a);
      NormalSorted(a);
      NormalSorted(b);
      SameMembers(Normal(a), Normal(b));
    } else if Normal(a) == Normal(b) {
      SameNormal(a, b);
    }
  }

  lemma SameNormal(a: seq<Attr>, b: seq<Attr>)
    requires Normal(a) == Normal(b)
    ensures DiffKeys(a, b) == {}
  {
    forall k | k in Keys(a) + Keys(b) ensures k !in DiffKeys(a, b) {
      SameAt(a, b, k);
    }
  }

  lemma SameAt(a: seq<Attr>, b: seq<Attr>, k: Key)
    requires Normal(a) == Normal(b) && k in Keys(a) + Keys(b)
    ensures exists x, y | x in a && y in b :: KeyOf(x) == k && KeyOf(y) == k && SameContent(x, y)
  {
    hide Normal;
    var x :| (x in a || x in b) && KeyOf(x) == k;
    assert |Normal(a)| == |a| && |Normal(b)| == |b|;
    var i :| 0 <= i < |a| && (a[i] == x || b[i] == x);
    assert Unmarked(a[i]) == Normal(a)[i] == Normal(b)[i] == Unmarked(b[i]);
    assert a[i] in a && b[i] in b && KeyOf(a[i]) == k && KeyOf(b[i]) == k && SameContent(a[i], b[i]);
  }

  lemma DiffSymmetric(a: seq<Attr>, b: seq<Attr>)
    requires DiffKeys(a, b) == {}
    ensures DiffKeys(b, a) == {}
  {
    forall k | k in Keys(b) + Keys(a) ensures k !in DiffKeys(b, a) {
      assert k !in DiffKeys(a, b);
      var x, y :| x in a && y in b && KeyOf(x) == k && KeyOf(y) == k && SameContent(x, y);
      assert SameContent(y, x);
    }
  }

  lemma HalfSame(a: seq<Attr>, b: seq<Attr>)
    requires Sorted(a) && Sorted(b) && DiffKeys(a, b) == {}
    ensures forall x | x in Normal(a) :: x in Normal(b)
  {
    forall n | n in Normal(a) ensures n in Normal(b) {
      var i :| 0 <= i < |a| && Normal(a)[i] == n;
      assert KeyOf(a[i]) in Keys(a) && KeyOf(a[i]) !in DiffKeys(a, b);
      var x, y :| x in a && y in b && KeyOf(x) == KeyOf(a[i]) && KeyOf(y) == KeyOf(a[i]) && SameContent(x, y);
      UniqueKey(a, x, a[i]);
      var j :| 0 <= j < |b| && b[j] == y;
      assert Normal(b)[j] == n;
    }
  }

  lemma NormalSorted(a: seq<Attr>)
    requires Sorted(a)
    ensures Sorted(Normal(a))
  {
  }

  /** Attribute by attribute: the keys and the data, sets to the last bit, and on sets the signed bit. */
  lemma NoDiffsByAttribute(a: seq<Attr>, b: seq<Attr>)
    requires Sorted(a) && Sorted(b)
    ensures DiffKeys(a, b) == {} <==>
            |a| == |b| && forall i | 0 <= i < |a| ::
              a[i].typ == b[i].typ && a[i].key == b[i].key && a[i].data == b[i].data
              && (a[i].data.Set? ==> a[i].signed == b[i].signed)
  {
    hide DiffKeys;
    NoDiffs(a, b);
    if Normal(a) == Normal(b) {
      forall i | 0 <= i < |a| ensures Unmarked(a[i]) == Unmarked(b[i]) {
        assert Normal(a)[i] == Normal(b)[i];
      }
    }
  }

  /** Two trees that differ in a signed bit and have no difference. */
  lemma SignedBitUnseen() returns (a: seq<Attr>, b: seq<Attr>)
    ensures Sorted(a) && Sorted(b) && a != b && DiffKeys(a, b) == {}
  {
    a := [Attr(LSA_ATTR_TYPE_VERSION, [], true, Plain([]))];
    b := [Attr(LSA_ATTR_TYPE_VERSION, [], false, Plain([]))];
    assert a[0].signed != b[0].signed;
    assert Normal(a) == [Unmarked(a[0])] && Normal(b) == [Unmarked(b[0])];
    NoDiffs(a, b);
  }
}
