/** `lsa_deserialise.c`: a cursor that builds the attribute tree of an LSA in place. */
module Deserialiser {
  import opened Bytes
  import opened Varint
  import opened Lsas
  import opened LsaObjects
  import opened Codec

  // -------------------------------------------------------------- sets inside a tree

  /** `path` leads to a set. */
  predicate PathOk(attrs: seq<Attr>, path: seq<Step>)
    decreases |path|
  {
    path != [] ==>
      match Find(attrs, path[0].typ, path[0].key)
      case Some(s) => s.data.Set? && PathOk(s.data.attrs, path[1..])
      case None => false
  }

  /** The set at `path`. */
  function At(attrs: seq<Attr>, path: seq<Step>): seq<Attr>
    requires PathOk(attrs, path)
    decreases |path|
  {
    if path == [] then attrs else At(Find(attrs, path[0].typ, path[0].key).value.data.attrs, path[1..])
  }

  /** The tree with `set` in place of the set at `path`. */
  function Put(attrs: seq<Attr>, path: seq<Step>, set_: seq<Attr>): seq<Attr>
    requires PathOk(attrs, path)
    decreases |path|
  {
    if path == [] then set_
    else
      var s := Find(attrs, path[0].typ, path[0].key).value;
      Replace(attrs, s, s.(data := Set(Put(s.data.attrs, path[1..], set_))))
  }

  lemma {:induction false} FindReplaced(attrs: seq<Attr>, typ: int32, key: seq<byte>, b: Attr)
    requires Find(attrs, typ, key).Some? && b.typ == typ && b.key == key
    ensures Find(Replace(attrs, Find(attrs, typ, key).value, b), typ, key) == Some(b)
    ensures forall c: Attr :: Replace(Replace(attrs, Find(attrs, typ, key).value, b), b, c) ==
                              Replace(attrs, Find(attrs, typ, key).value, c)
  {
    if !(attrs[0].typ == typ && attrs[0].key == key) {
      FindReplaced(attrs[1..], typ, key, b);
    }
  }

  lemma {:induction false} AtPut(attrs: seq<Attr>, path: seq<Step>, x: seq<Attr>)
    requires PathOk(attrs, path)
    ensures PathOk(Put(attrs, path, x), path) && At(Put(attrs, path, x), path) == x
    ensures forall y :: Put(Put(attrs, path, x), path, y) == Put(attrs, path, y)
    decreases |path|
  {
    if path != [] {
      var s := Find(attrs, path[0].typ, path[0].key).value;
      AtPut(s.data.attrs, path[1..], x);
      FindReplaced(attrs, path[0].typ, path[0].key, s.(data := Set(Put(s.data.attrs, path[1..], x))));
    }
  }

  lemma {:induction false} PutAt(attrs: seq<Attr>, path: seq<Step>)
    requires PathOk(attrs, path)
    ensures Put(attrs, path, At(attrs, path)) == attrs
    decreases |path|
  {
    if path != [] {
      var s := Find(attrs, path[0].typ, path[0].key).value;
      PutAt(s.data.attrs, path[1..]);
      ReplaceSame(attrs, s);
    }
  }

  lemma {:induction false} ReplaceSame(attrs: seq<Attr>, a: Attr)
    ensures Replace(attrs, a, a) == attrs
  {
    if attrs != [] && attrs[0] != a {
      ReplaceSame(attrs[1..], a);
    }
  }

  /** Adding to the set at `path` changes that set and nothing else. */
  lemma {:induction false} InsertAtIsPut(attrs: seq<Attr>, path: seq<Step>, a: Attr)
    requires PathOk(attrs, path) && Find(At(attrs, path), a.typ, a.key) == None
    ensures HasRoom(attrs, path, a) && InsertAt(attrs, path, a) == Put(attrs, path, Insert(At(attrs, path), a))
    decreases |path|
  {
    if path != [] {
      InsertAtIsPut(Find(attrs, path[0].typ, path[0].key).value.data.attrs, path[1..], a);
    }
  }

  /** One step further down. */
  lemma {:induction false} PutDeeper(attrs: seq<Attr>, path: seq<Step>, st: Step, x: seq<Attr>)
    requires PathOk(attrs, path)
    requires var f := Find(At(attrs, path), st.typ, st.key); f.Some? && f.value.data.Set?
    ensures PathOk(attrs, path + [st])
    ensures At(attrs, path + [st]) == Find(At(attrs, path), st.typ, st.key).value.data.attrs
    ensures Put(attrs, path + [st], x) ==
            (var s := Find(At(attrs, path), st.typ, st.key).value;
             Put(attrs, path, Replace(At(attrs, path), s, s.(data := Set(x)))))
    decreases |path|
  {
    var p := path + [st];
    if path == [] {
      assert p[1..] == [];
    } else {
      assert p[1..] == path[1..] + [st];
      PutDeeper(Find(attrs, path[0].typ, path[0].key).value.data.attrs, path[1..], st, x);
    }
  }

  /** A set attribute inserted empty and then filled is the set attribute inserted full. */
  lemma {:induction false} FillInserted(acc: seq<Attr>, a: Attr, sub: seq<Attr>)
    requires Find(acc, a.typ, a.key) == None && a.data == Set([])
    ensures Find(Insert(acc, a), a.typ, a.key) == Some(a)
    ensures Replace(Insert(acc, a), a, a.(data := Set(sub))) == Insert(acc, a.(data := Set(sub)))
  {
    if acc != [] && !KeyLess(a, acc[0]) {
      FillInserted(acc[1..], a, sub);
    }
  }

  // ------------------------------------------------------------------------ the cursor

  lemma SubSlice(s: seq<byte>, from: nat, to: nat, a: nat, b: nat)
    requires from <= to <= |s| && a <= b <= to - from
    ensures s[from..to][a..b] == s[from + a..from + b]
  {
    var x, y := s[from..to][a..b], s[from + a..from + b];
    assert |x| == |y| && forall i | 0 <= i < |x| :: x[i] == y[i];
  }

  class Src {
    const src: seq<byte>
    const srclen: nat
    var off: nat

    ghost predicate Valid()
      reads this
    {
      off <= srclen <= |src|
    }

    /** What is still to be read. */
    ghost function Rest(): seq<byte>
      requires Valid()
      reads this
    {
      src[off..srclen]
    }

    constructor (src: seq<byte>, srclen: nat, off: nat)
      requires off <= srclen <= |src|
      ensures Valid() && this.src == src && this.srclen == srclen && this.off == off
    {
      this.src := src;
      this.srclen := srclen;
      this.off := off;
    }

    /** `SRC_READ_UINT64_T`. */
    method ReadUint64() returns (r: IntResult)
      requires Valid()
      modifies this`off
      ensures Valid() && r == DecInt(old(Rest()))
      ensures r.IntOk? ==> off == old(off) + r.n
    {
      ghost var s := Rest();
      var start := off;
      if srclen - off < 1 {
        return IntShort;
      }
      var val := src[off];
      off := off + 1;
      if val == 0x80 {
        return IntBad;
      }
      var cnt := 0;
      var v: nat := val % 128;
      while val >= 128
        invariant Valid() && 0 <= cnt < 10 && off == start + cnt + 1 <= start + |s|
        invariant val == s[cnt] && DecInt(s) == DecLoop(s, cnt + 1, v)
        decreases srclen - off
      {
        cnt := cnt + 1;
        if cnt == 10 {
          return IntBad;
        }
        if srclen - off < 1 {
          return IntShort;
        }
        val := src[off];
        off := off + 1;
        v := (v * 128) % TWO_64 + val % 128;
      }
      return IntOk(v, off - start);
    }

    /** `SRC_READ_INT` and `SRC_READ_SIZE_T`: no value above `limit`. */
    method ReadLimited(limit: int) returns (r: Option<nat>)
      requires Valid()
      modifies this`off
      ensures Valid() && r.Some? == ReadInt(old(Rest()), 0, limit).Some?
      ensures r.Some? ==> (r.value, off - old(off)) == ReadInt(old(Rest()), 0, limit).value
    {
      assert Rest()[0..] == Rest();
      var v := ReadUint64();
      match v {
        case IntOk(n, _) =>
          if n > limit {
            return None;
          }
          return Some(n);
        case _ => return None;
      }
    }

    /** A length, then `SRC_GET_PTR`. */
    method ReadBlock() returns (r: Option<seq<byte>>)
      requires Valid()
      modifies this`off
      ensures Valid() && r.Some? == ReadBytes(old(Rest()), 0).Some?
      ensures r.Some? ==> (r.value, off - old(off)) == ReadBytes(old(Rest()), 0).value
    {
      var len := ReadLimited(TWO_64);
      if len == None || srclen - off < len.value {
        return None;
      }
      ghost var s, at := old(Rest()), off - old(off);
      off := off + len.value;
      SubSlice(src, old(off), srclen, at, at + len.value);
      assert src[off - len.value..off] == s[at..at + len.value];
      return Some(src[off - len.value..off]);
    }
  }

  lemma ReadIntShift(s: seq<byte>, at: nat, limit: int)
    requires at <= |s|
    ensures match ReadInt(s[at..], 0, limit)
            case None => ReadInt(s, at, limit) == None
            case Some((v, n)) => ReadInt(s, at, limit) == Some((v, at + n))
  {
    assert s[at..][0..] == s[at..];
  }

  lemma ReadBytesShift(s: seq<byte>, at: nat)
    requires at <= |s|
    ensures match ReadBytes(s[at..], 0)
            case None => ReadBytes(s, at) == None
            case Some((b, n)) => ReadBytes(s, at) == Some((b, at + n))
  {
    ReadIntShift(s, at, TWO_64);
    match ReadInt(s[at..], 0, TWO_64)
    case None =>
    case Some((len, n)) =>
      if |s| - at - n >= len {
        assert s[at..][n..n + len] == s[at + n..at + n + len];
      }
  }

  /** The reads at the top of the loop in `lsa_deserialise_attr_set`. */
  method ReadHead(src: Src) returns (r: Option<Head>)
    requires src.Valid()
    modifies src`off
    ensures src.Valid() && r == ParseHead(old(src.Rest()))
    ensures r.Some? ==> src.off == old(src.off) + r.value.size
  {
    hide DecInt, ReadInt, ReadBytes;
    ghost var s := src.Rest();
    var start := src.off;
    var typ := src.ReadLimited(INT_MAX);
    if typ == None {
      return None;
    }
    ReadIntShift(s, src.off - start, INT_MAX);
    assert src.Rest() == s[src.off - start..];
    var flags := src.ReadLimited(INT_MAX);
    if flags == None {
      return None;
    }
    assert src.Rest() == s[src.off - start..];
    ReadBytesShift(s, src.off - start);
    var key := [];
    if flags.value % 2 == 1 {
      var k := src.ReadBlock();
      if k == None {
        return None;
      }
      key := k.value;
      assert src.Rest() == s[src.off - start..];
      ReadBytesShift(s, src.off - start);
    }
    var data := src.ReadBlock();
    if data == None {
      return None;
    }
    return Some(Head(typ.value, flags.value, key, data.value, src.off - start));
  }

  /** How parsing a set ended. */
  datatype Status = Done | Failed | Aborted

  predicate Reports(st: Status, r: ParseResult) {
    match r
    case Parsed(_) => st == Done
    case ParseBad(_) => st == Failed
    case ParseAbort => st == Aborted
  }

  lemma TurnNoHead(s: seq<byte>, acc: seq<Attr>, depth: nat)
    requires s != []
    ensures ParseHead(s) == None ==> ParseAttrs(s, acc, depth) == ParseBad(acc)
    ensures ParseHead(s).Some? && (ParseHead(s).value.flags / 2) % 2 == 1 && depth == 0 ==>
              ParseAttrs(s, acc, depth) == ParseBad(acc)
  {
  }

  lemma TurnDuplicate(s: seq<byte>, acc: seq<Attr>, depth: nat, h: Head)
    requires s != [] && ParseHead(s) == Some(h) && Find(acc, h.typ, h.key).Some?
    requires (h.flags / 2) % 2 == 1 ==> depth > 0
    ensures ParseAttrs(s, acc, depth) == Duplicate(acc, h.key)
  {
  }

  lemma TurnSubset(s: seq<byte>, acc: seq<Attr>, depth: nat, h: Head)
    requires s != [] && ParseHead(s) == Some(h) && Find(acc, h.typ, h.key) == None
    requires (h.flags / 2) % 2 == 1 && depth > 0
    ensures var r := ParseAttrs(h.data, [], depth - 1);
            ParseAttrs(s, acc, depth) ==
              match r
              case Parsed(sub) => ParseAttrs(s[h.size..], Insert(acc, AttrOf(h, Set(sub))), depth)
              case ParseBad(sub) => ParseBad(Insert(acc, AttrOf(h, Set(sub))))
              case ParseAbort => ParseAbort
  {
  }

  lemma ParseNothing(acc: seq<Attr>, depth: nat)
    ensures ParseAttrs([], acc, depth) == Parsed(acc)
  {
  }

  /** The branch for a nested set: it is added empty, then filled. */
  method DeserialiseSubset(lsa: LsaObject, path: seq<Step>, h: Head, depth: nat) returns (st: Status)
    requires lsa.Valid() && lsa.refcount == 1 && PathOk(lsa.root, path)
    requires Find(At(lsa.root, path), h.typ, h.key) == None
    modifies lsa`bytes, lsa`root
    ensures lsa.Valid() && Reports(st, ParseAttrs(h.data, [], depth))
    ensures st != Aborted ==>
              lsa.root == Put(old(lsa.root), path,
                              Insert(At(old(lsa.root), path), AttrOf(h, Set(ParseAttrs(h.data, [], depth).attrs))))
    decreases |h.data|, 1
  {
    hide ParseAttrs, At, Put, PathOk, HasRoom, InsertAt, Find, Insert, Replace;
    var sign := (h.flags / 4) % 2 == 1;
    var empty := Attr(h.typ, h.key, sign, Set([]));
    ghost var root, acc := lsa.root, At(lsa.root, path);
    InsertAtIsPut(root, path, empty);
    lsa.AddAttrSet(path, h.typ, sign, h.key);
    ghost var added := lsa.root;
    AtPut(root, path, Insert(acc, empty));
    FillInserted(acc, empty, []);
    PutDeeper(added, path, Step(h.typ, h.key), []);
    var srcdata := new Src(h.data, |h.data|, 0);
    assert srcdata.Rest() == h.data;
    st := DeserialiseAttrSet(lsa, path + [Step(h.typ, h.key)], srcdata, depth);
    if st != Aborted {
      var sub := ParseAttrs(h.data, [], depth).attrs;
      PutDeeper(added, path, Step(h.typ, h.key), sub);
      FillInserted(acc, empty, sub);
    }
  }

  /**
   * `lsa_deserialise_attr_set` on the set at `path` of `lsa`. The set becomes what `ParseAttrs`
   * computes (also when the parse fails), the rest of the tree stays, and `bytes` follows.
   */
  method DeserialiseAttrSet(lsa: LsaObject, path: seq<Step>, src: Src, maxdepth: nat) returns (st: Status)
    requires lsa.Valid() && lsa.refcount == 1 && PathOk(lsa.root, path) && src.Valid()
    modifies lsa`bytes, lsa`root, src`off
    ensures lsa.Valid() && src.Valid()
    ensures Reports(st, ParseAttrs(old(src.Rest()), At(old(lsa.root), path), maxdepth))
    ensures var r := ParseAttrs(old(src.Rest()), At(old(lsa.root), path), maxdepth);
            st != Aborted ==> lsa.root == Put(old(lsa.root), path, r.attrs)
    ensures st == Done ==> src.off == src.srclen
    decreases |src.Rest()|, 0
  {
    hide ParseHead, ParseAttrs, At, Put, PathOk, HasRoom, InsertAt, Find, Insert;
    ghost var root := lsa.root;
    ghost var goal := ParseAttrs(src.Rest(), At(root, path), maxdepth);
    PutAt(root, path);
    while src.off < src.srclen
      invariant lsa.Valid() && src.Valid() && PathOk(lsa.root, path)
      invariant lsa.root == Put(root, path, At(lsa.root, path))
      invariant ParseAttrs(src.Rest(), At(lsa.root, path), maxdepth) == goal
      invariant |src.Rest()| <= |old(src.Rest())|
      decreases |src.Rest()|
    {
      ghost var s, acc := src.Rest(), At(lsa.root, path);
      TurnNoHead(s, acc, maxdepth);
      var head := ReadHead(src);
      if head == None {
        return Failed;
      }
      var h := head.value;
      assert src.Rest() == s[h.size..];
      var tlv := (h.flags / 2) % 2 == 1;
      if tlv && maxdepth == 0 {
        return Failed;
      }
      if Find(At(lsa.root, path), h.typ, h.key).Some? {
        TurnDuplicate(s, acc, maxdepth, h);
        return if |h.key| > 65536 then Failed else Aborted;
      }
      ghost var was := lsa.root;
      AtPut(root, path, acc);
      if tlv {
        TurnSubset(s, acc, maxdepth, h);
        st := DeserialiseSubset(lsa, path, h, maxdepth - 1);
        if st != Done {
          return;
        }
        AtPut(was, path, Insert(acc, AttrOf(h, Set(ParseAttrs(h.data, [], maxdepth - 1).attrs))));
      } else {
        ParsePlain(s, h, acc, maxdepth);
        InsertAtIsPut(was, path, AttrOf(h, Plain(h.data)));
        lsa.AddAttr(path, h.typ, (h.flags / 4) % 2 == 1, h.key, h.data);
        AtPut(was, path, Insert(acc, AttrOf(h, Plain(h.data))));
      }
    }
    assert src.Rest() == [];
    ParseNothing(At(lsa.root, path), maxdepth);
    st := Done;
  }

  /**
   * `lsa_deserialise`: the object it allocates holds the LSA that `Deser` finds. After a failure
   * the half-built object is released.
   */
  method Deserialise(buf: seq<byte>) returns (lsa: LsaObject?, r: DeserResult)
    ensures r == Deser(buf)
    ensures lsa != null <==> r.Got? && r.lsa.Some?
    ensures lsa != null ==> fresh(lsa) && lsa.Valid() && lsa.refcount == 1 && lsa.Value() == r.lsa.value
  {
    hide ParseAttrs, DecInt;
    lsa := null;
    var src := new Src(buf, |buf|, 0);
    assert src.Rest() == buf;
    var len := src.ReadUint64();
    match len {
      case IntShort => return null, More;
      case IntBad => return null, Bad;
      case IntOk(n, off) =>
        if n == 0 {
          return null, Got(None, off);
        }
        if n > SSIZE_MAX - off {
          return null, Bad;
        }
        if n + off > |buf| {
          return null, More;
        }
        if n < NODE_ID_LEN {
          return null, More;
        }
        var id: NodeId := buf[off..off + NODE_ID_LEN];
        var obj := new LsaObject(id);
        var frame := new Src(buf, off + n, off + NODE_ID_LEN);
        RootSet([]);
        var st := DeserialiseAttrSet(obj, [], frame, MAX_DEPTH);
        match st {
          case Failed =>
            var ok := obj.Release();
            return null, if ok then Bad else Abort;
          case Aborted => return null, Abort;
          case Done =>
            return obj, Got(Some(Lsa(obj.id, obj.root)), frame.off);
        }
    }
  }

  lemma RootSet(attrs: seq<Attr>)
    ensures PathOk(attrs, []) && At(attrs, []) == attrs
    ensures forall x :: Put(attrs, [], x) == x
  {
  }
}
