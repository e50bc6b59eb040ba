/** Printing what was parsed never takes more bytes than were read. */
module Reprint {
  import opened Bytes
  import opened Varint
  import opened Lsas
  import opened Codec
  import opened Accounting
  import opened Signing
  import opened LsaDiff

  lemma {:induction false} DecLoopBound(s: seq<byte>, i: nat, v: nat)
    requires 1 <= i <= |s| && v < Pow128(i)
    ensures DecLoop(s, i, v).IntOk? ==> DecLoop(s, i, v).v < Pow128(DecLoop(s, i, v).n)
    decreases |s| - i
  {
    if s[i - 1] >= 128 && i < 10 && i < |s| {
      assert Pow128(i + 1) == 128 * Pow128(i);
      DecLoopBound(s, i + 1, (v * 128) % TWO_64 + s[i] % 128);
    }
  }

  lemma ShortestInt(s: seq<byte>)
    ensures DecInt(s).IntOk? ==> |EncInt(DecInt(s).v)| <= DecInt(s).n
  {
    if DecInt(s).IntOk? {
      assert Pow128(1) == 128 * Pow128(0) && Pow128(0) == 1;
      DecLoopBound(s, 1, s[0] % 128);
      var v, n := DecInt(s).v, DecInt(s).n;
      assert Pow128(n) == 128 * Pow128(n - 1);
      HighLength(v / 128, n - 1);
    }
  }

  lemma ReadIntShortest(s: seq<byte>, off: nat, limit: int)
    requires off <= |s| && ReadInt(s, off, limit).Some?
    ensures |EncInt(ReadInt(s, off, limit).value.0)| <= ReadInt(s, off, limit).value.1 - off
  {
    ShortestInt(s[off..]);
  }

  lemma ReadBytesShortest(s: seq<byte>, off: nat)
    requires off <= |s| && ReadBytes(s, off).Some?
    ensures var (b, at) := ReadBytes(s, off).value; |EncInt(|b|)| + |b| <= at - off
  {
    hide EncInt, ReadInt;
    ReadIntShortest(s, off, TWO_64);
  }

  lemma HeadShortest(s: seq<byte>, data: Data)
    requires ParseHead(s).Some?
    requires match data
             case Set(sub) => |EncAttrs(sub, false, [])| <= |ParseHead(s).value.data|
             case Plain(bytes) => bytes == ParseHead(s).value.data
    ensures |EncAttr(AttrOf(ParseHead(s).value, data), false, [])| <= ParseHead(s).value.size
  {
    hide EncInt, ReadInt, ReadBytes, EncAttrs;
    var h := ParseHead(s).value;
    var a := AttrOf(h, data);
    var at := ReadInt(s, 0, INT_MAX).value.1;
    ReadIntShortest(s, 0, INT_MAX);
    var bt := ReadInt(s, at, INT_MAX).value.1;
    ReadIntShortest(s, at, INT_MAX);
    var ct := if h.flags % 2 == 1 then ReadBytes(s, bt).value.1 else bt;
    if h.flags % 2 == 1 {
      ReadBytesShortest(s, bt);
    }
    ReadBytesShortest(s, ct);
    EncAttrParts(a, []);
    OneByte(Flags(a));
    EncMonotone(|DataBytes(a, [])|, |h.data|);
  }

  lemma {:induction false} InsertPrinted(acc: seq<Attr>, a: Attr)
    ensures |EncAttrs(Insert(acc, a), false, [])| == |EncAttrs(acc, false, [])| + |EncAttr(a, false, [])|
  {
    hide EncAttr;
    var r := Insert(acc, a);
    EncAttrsStep(r, false, []);
    if acc != [] {
      EncAttrsStep(acc, false, []);
      if !KeyLess(a, acc[0]) {
        InsertPrinted(acc[1..], a);
        assert r[1..] == Insert(acc[1..], a);
      } else {
        assert r[1..] == acc;
      }
    }
  }

  lemma {:induction false} ParseShortest(s: seq<byte>, acc: seq<Attr>, depth: nat)
    requires ParseAttrs(s, acc, depth).Parsed?
    ensures |EncAttrs(ParseAttrs(s, acc, depth).attrs, false, [])| <= |EncAttrs(acc, false, [])| + |s|
    decreases |s|
  {
    hide ParseHead, Insert, Find, EncAttr, EncAttrs, AttrOf;
    if s == [] {
    } else {
      hide ParseAttrs;
      ParsedFirst(s, acc, depth);
      var h := ParseHead(s).value;
      var data := Plain(h.data);
      if (h.flags / 2) % 2 == 1 {
        var sub := ParseAttrs(h.data, [], depth - 1).attrs;
        ParseSet(s, h, acc, depth, sub);
        ParseShortest(h.data, [], depth - 1);
        NothingPrinted();
        data := Set(sub);
      } else {
        ParsePlain(s, h, acc, depth);
      }
      HeadShortest(s, data);
      InsertPrinted(acc, AttrOf(h, data));
      ParseShortest(s[h.size..], Insert(acc, AttrOf(h, data)), depth);
    }
  }

  lemma NothingPrinted()
    ensures EncAttrs([], false, []) == []
  {
  }

  lemma {:induction false} MemberPrinted(attrs: seq<Attr>, a: Attr)
    requires a in attrs
    ensures |EncAttr(a, false, [])| <= |EncAttrs(attrs, false, [])|
  {
    hide EncAttr;
    EncAttrsStep(attrs, false, []);
    if a != attrs[0] {
      MemberPrinted(attrs[1..], a);
    }
  }

  /** Printing a received LSA again takes no more bytes than its frame had. */
  lemma ReprintNoLonger(s: seq<byte>)
    requires Deser(s).Got? && Deser(s).lsa.Some?
    ensures |Frame(Deser(s).lsa.value, false, [])| <= Deser(s).n
  {
    hide ParseAttrs, EncAttrs, EncInt, DecInt;
    var IntOk(len, off) := DecInt(s);
    ShortestInt(s);
    ParseShortest(s[off + NODE_ID_LEN..off + len], [], MAX_DEPTH);
    NothingPrinted();
    EncMonotone(|Body(Deser(s).lsa.value, false, [])|, len);
  }

  /** So `lsa_diff` compares any two received LSAs without the abort for large sets. */
  lemma ReceivedComparable(s: seq<byte>)
    requires |s| <= 65536 && Deser(s).Got? && Deser(s).lsa.Some?
    ensures AllComparable(Deser(s).lsa.value.attrs)
  {
    hide ParseAttrs, EncAttrs, EncAttr, Deser, EncInt;
    var attrs := Deser(s).lsa.value.attrs;
    ReprintNoLonger(s);
    DeserRegular(s);
    forall a | a in attrs ensures Comparable(a) {
      MemberPrinted(attrs, a);
    }
  }
}
