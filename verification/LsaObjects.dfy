/** `lsa.c`: building LSAs in place, with `bytes` kept up to date. */
module LsaObjects {
  import opened Bytes
  import opened Lsas

  /** The way to a nested set: the keys of the set attributes that lead to it. */
  datatype Step = Step(typ: int32, key: seq<byte>)

  /** `path` leads through set attributes, and the last set lacks the key of `a`. */
  predicate HasRoom(attrs: seq<Attr>, path: seq<Step>, a: Attr)
    decreases |path|
  {
    if path == [] then Find(attrs, a.typ, a.key) == None
    else
      match Find(attrs, path[0].typ, path[0].key)
      case Some(s) => s.data.Set? && HasRoom(s.data.attrs, path[1..], a)
      case None => false
  }

  /** Replaces the attribute of `old`'s key. */
  function Replace(attrs: seq<Attr>, old_: Attr, new_: Attr): (r: seq<Attr>)
    ensures |r| == |attrs|
  {
    if attrs == [] then []
    else if attrs[0] == old_ then [new_] + attrs[1..]
    else [attrs[0]] + Replace(attrs[1..], old_, new_)
  }

  /** The tree after `a` was added to the set at `path`. */
  function InsertAt(attrs: seq<Attr>, path: seq<Step>, a: Attr): seq<Attr>
    requires HasRoom(attrs, path, a)
    decreases |path|
  {
    if path == [] then Insert(attrs, a)
    else
      var s := Find(attrs, path[0].typ, path[0].key).value;
      Replace(attrs, s, s.(data := Set(InsertAt(s.data.attrs, path[1..], a))))
  }

  lemma {:induction false} ReplaceSize(attrs: seq<Attr>, a: Attr, b: Attr)
    requires a in attrs
    ensures SetSize(Replace(attrs, a, b)) == SetSize(attrs) - DeepSize(a) + DeepSize(b)
  {
    if attrs[0] != a {
      ReplaceSize(attrs[1..], a, b);
    }
  }

  /** Wherever it goes, an attribute adds its own size and nothing else. */
  lemma {:induction false} InsertAtSize(attrs: seq<Attr>, path: seq<Step>, a: Attr)
    requires HasRoom(attrs, path, a)
    ensures SetSize(InsertAt(attrs, path, a)) == SetSize(attrs) + DeepSize(a)
    decreases |path|
  {
    if path == [] {
      InsertSize(attrs, a);
    } else {
      var s := Find(attrs, path[0].typ, path[0].key).value;
      InsertAtSize(s.data.attrs, path[1..], a);
      ReplaceSize(attrs, s, s.(data := Set(InsertAt(s.data.attrs, path[1..], a))));
    }
  }

  /** Every set in the tree is in key order. */
  ghost predicate Ordered(attrs: seq<Attr>)
    decreases attrs
  {
    Sorted(attrs) && forall i | 0 <= i < |attrs| && attrs[i].data.Set? :: Ordered(attrs[i].data.attrs)
  }

  lemma {:induction false} ReplaceAt(attrs: seq<Attr>, a: Attr, b: Attr) returns (k: nat)
    requires a in attrs
    ensures k < |attrs| && attrs[k] == a && Replace(attrs, a, b) == attrs[k := b]
  {
    if attrs[0] == a {
      k := 0;
    } else {
      var j := ReplaceAt(attrs[1..], a, b);
      k := j + 1;
    }
  }

  lemma {:induction false} InsertAtOrdered(attrs: seq<Attr>, path: seq<Step>, a: Attr)
    requires Ordered(attrs) && HasRoom(attrs, path, a) && (a.data.Set? ==> Ordered(a.data.attrs))
    ensures Ordered(InsertAt(attrs, path, a))
    decreases |path|
  {
    var r := InsertAt(attrs, path, a);
    if path == [] {
      InsertSorted(attrs, a);
      InsertMembers(attrs, a);
      forall i | 0 <= i < |r| && r[i].data.Set? ensures Ordered(r[i].data.attrs) {
        assert r[i] in multiset(r);
      }
    } else {
      var s := Find(attrs, path[0].typ, path[0].key).value;
      var s' := s.(data := Set(InsertAt(s.data.attrs, path[1..], a)));
      var k := ReplaceAt(attrs, s, s');
      InsertAtOrdered(s.data.attrs, path[1..], a);
      forall i, j | 0 <= i < j < |r| ensures KeyLess(r[i], r[j]) {
        assert KeyLess(attrs[i], attrs[j]);
      }
    }
  }

  /** The set without the attribute of `a`'s key. */
  function Remove(attrs: seq<Attr>, a: Attr): seq<Attr> {
    if attrs == [] then []
    else if attrs[0] == a then attrs[1..]
    else [attrs[0]] + Remove(attrs[1..], a)
  }

  lemma {:induction false} RemoveAt(attrs: seq<Attr>, a: Attr) returns (k: nat)
    requires a in attrs
    ensures k < |attrs| && attrs[k] == a && Remove(attrs, a) == attrs[..k] + attrs[k + 1..]
    ensures SetSize(Remove(attrs, a)) == SetSize(attrs) - DeepSize(a)
  {
    hide DeepSize;
    if attrs[0] == a {
      k := 0;
    } else {
      var j := RemoveAt(attrs[1..], a);
      k := j + 1;
      assert attrs[..k] == [attrs[0]] + attrs[1..][..j] && attrs[k + 1..] == attrs[1..][j + 1..];
    }
  }

  lemma StillOrdered(was: seq<Attr>, now: seq<Attr>, k: nat)
    requires k < |was| && now == was[..k] + was[k + 1..] && Ordered(was)
    ensures Ordered(now)
  {
    forall i, j | 0 <= i < j < |now| ensures KeyLess(now[i], now[j]) {
      assert KeyLess(was[if i < k then i else i + 1], was[if j < k then j else j + 1]);
    }
    forall i | 0 <= i < |now| && now[i].data.Set? ensures Ordered(now[i].data.attrs) {
      assert now[i] == was[if i < k then i else i + 1];
    }
  }

  lemma DeepSizeParts(a: Attr)
    ensures DeepSize(a) == AttrSize(a) + if a.data.Set? then SetSize(a.data.attrs) else 0
    ensures SetSize([]) == 0 && NoEmptySet([])
  {
  }

  class LsaObject {
    const id: NodeId
    var refcount: int
    var bytes: nat
    var root: seq<Attr>

    ghost function Value(): Lsa
      reads this
    {
      Lsa(id, root)
    }

    ghost predicate Valid()
      reads this
    {
      Ordered(root) && bytes == LsaBytes(Value())
    }

    /** `lsa_alloc`. */
    constructor (id: NodeId)
      ensures Valid() && Value() == Lsa(id, []) && refcount == 1
    {
      this.id := id;
      refcount := 1;
      bytes := MAX_SERIALISED_INT_LEN + NODE_ID_LEN;
      root := [];
    }

    /** `lsa_attr_set_add_attr` on the set at `path`; only an unshared LSA may change. */
    method AddAttr(path: seq<Step>, typ: int32, sign: bool, key: seq<byte>, data: seq<byte>)
      requires Valid() && refcount == 1 && HasRoom(root, path, Attr(typ, key, sign, Plain(data)))
      modifies this`bytes, this`root
      ensures Valid() && root == InsertAt(old(root), path, Attr(typ, key, sign, Plain(data)))
    {
      var attr := Attr(typ, key, sign, Plain(data));
      InsertAtSize(root, path, attr);
      InsertAtOrdered(root, path, attr);
      root := InsertAt(root, path, attr);
      bytes := bytes + AttrSize(attr);
    }

    /** `lsa_attr_set_add_attr_set`: the new set starts empty. */
    method AddAttrSet(path: seq<Step>, typ: int32, sign: bool, key: seq<byte>)
      requires Valid() && refcount == 1 && HasRoom(root, path, Attr(typ, key, sign, Set([])))
      modifies this`bytes, this`root
      ensures Valid() && root == InsertAt(old(root), path, Attr(typ, key, sign, Set([])))
    {
      var attr := Attr(typ, key, sign, Set([]));
      InsertAtSize(root, path, attr);
      InsertAtOrdered(root, path, attr);
      root := InsertAt(root, path, attr);
      bytes := bytes + AttrSize(attr);
    }

    /**
     * `lsa_del_attr_bykey`, which frees what a deleted set holds and takes it off `bytes` too;
     * `!ok` stands for the null pointer it follows if a set inside is empty.
     */
    method DelAttr(typ: int32, key: seq<byte>) returns (ok: bool)
      requires Valid() && refcount == 1 && Find(root, typ, key).Some?
      modifies this`bytes, this`root
      ensures var attr := Find(old(root), typ, key).value; ok <==> attr.data.Set? ==> NoEmptySet(attr.data.attrs)
      ensures ok ==> Valid() && root == Remove(old(root), Find(old(root), typ, key).value)
    {
      hide SetSize, DeepSize, AttrSize, Remove, NoEmptySet, Ordered;
      var attr := Find(root, typ, key).value;
      ghost var was := root;
      DeepSizeParts(attr);
      ghost var k := RemoveAt(root, attr);
      assert SetSize(was) == SetSize(Remove(was, attr)) + DeepSize(attr);
      bytes := bytes - AttrSize(attr);
      root := Remove(root, attr);
      StillOrdered(was, root, k);
      ok := true;
      if attr.data.Set? && attr.data.attrs != [] {
        ok := FreeTree(attr.data.attrs);
      }
    }

    /**
     * `attr_tree_free`: takes every attribute of a tree off `bytes`. It looks at the root before
     * any test, so it fails on an empty tree; only siblings are tested.
     */
    method FreeTree(attrs: seq<Attr>) returns (ok: bool)
      requires SetSize(attrs) <= bytes
      modifies this`bytes
      ensures ok <==> attrs != [] && NoEmptySet(attrs)
      ensures if ok then bytes == old(bytes) - SetSize(attrs) else bytes <= old(bytes)
      decreases attrs
    {
      if attrs == [] {
        return false;
      }
      var attr := attrs[0];
      bytes := bytes - AttrSize(attr);
      if attrs[1..] != [] {
        ok := FreeTree(attrs[1..]);
        if !ok {
          return;
        }
      }
      if attr.data.Set? {
        ok := FreeTree(attr.data.attrs);
        return;
      }
      return true;
    }

    /** `lsa_put`: dropping a reference is safe unless it is the last one and a set inside is empty. */
    method Release() returns (ok: bool)
      requires Valid() && refcount > 0
      modifies this`refcount, this`bytes
      ensures refcount == old(refcount) - 1
      ensures ok <==> refcount > 0 || NoEmptySet(root)
    {
      refcount := refcount - 1;
      ok := true;
      if refcount == 0 && root != [] {
        ok := FreeTree(root);
      }
    }
  }
}
