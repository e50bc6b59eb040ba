/** `lsa_serialise.c`: printing through a destination that counts past the end of its buffer. */
module Serialiser {
  import opened Bytes
  import opened Varint
  import opened Lsas
  import opened Codec

  const SIZE_MAX: int := 0xffff_ffff_ffff_ffff

  function Min(a: nat, b: nat): nat { if a < b then a else b }

  class Dst {
    const dst: array<byte>
    const dstlen: nat
    var off: nat
    ghost var log: seq<byte>

    /** `log` is everything appended; the buffer holds as much of it as fits. */
    ghost predicate Valid()
      reads this, dst
    {
      && dstlen <= dst.Length && off == |log|
      && forall i | 0 <= i < Min(off, dstlen) :: dst[i] == log[i]
    }

    constructor (dst: array<byte>, dstlen: nat)
      requires dstlen <= dst.Length
      ensures Valid() && log == [] && off == 0 && this.dst == dst && this.dstlen == dstlen
    {
      this.dst := dst;
      this.dstlen := dstlen;
      off := 0;
      log := [];
    }

    /** `dst_append`. */
    method Append(buf: seq<byte>)
      requires Valid() && |log| + |buf| <= SIZE_MAX
      modifies this`off, this`log, dst
      ensures Valid() && log == old(log) + buf
    {
      var at := off;
      off := off + |buf|;
      log := log + buf;
      if at < dstlen {
        var space := dstlen - at;
        if space > |buf| {
          space := |buf|;
        }
        forall i | 0 <= i < space {
          dst[at + i] := buf[i];
        }
      }
    }

    /** `dst_append_int`: all ten groups, then the leading zero groups are skipped. */
    method AppendInt(value: nat)
      requires Valid() && value < TWO_64 && |log| + |EncInt(value)| <= SIZE_MAX
      modifies this`off, this`log, dst
      ensures Valid() && log == old(log) + EncInt(value)
    {
      var val := [
        128 + (value / 0x8000_0000_0000_0000) % 2,
        128 + (value / 0x100_0000_0000_0000) % 128,
        128 + (value / 0x2_0000_0000_0000) % 128,
        128 + (value / 0x400_0000_0000) % 128,
        128 + (value / 0x8_0000_0000) % 128,
        128 + (value / 0x1000_0000) % 128,
        128 + (value / 0x20_0000) % 128,
        128 + (value / 0x4000) % 128,
        128 + (value / 0x80) % 128,
        value % 128];
      AllGroups(value);
      HighFits(value);
      SkipZeroGroups(value / 128, 9);
      var i := 0;
      while val[i] == 128
        invariant 0 <= i <= 9 - |High(value / 128)|
        decreases 10 - i
      {
        i := i + 1;
      }
      assert i == 9 - |High(value / 128)|;
      assert val[i..] == EncInt(value);
      Append(val[i..]);
    }
  }

  /** The `k` low groups of `w`, zero groups included. */
  function Groups(w: nat, k: nat): (s: seq<byte>)
    ensures |s| == k
  {
    if k == 0 then [] else Groups(w / 128, k - 1) + [128 + w % 128]
  }

  lemma Quotients(v: nat)
    requires v < TWO_64
    ensures v / 0x4000 == v / 128 / 128 && v / 0x20_0000 == v / 0x4000 / 128 && v / 0x1000_0000 == v / 0x20_0000 / 128
    ensures v / 0x8_0000_0000 == v / 0x1000_0000 / 128 && v / 0x400_0000_0000 == v / 0x8_0000_0000 / 128
    ensures v / 0x2_0000_0000_0000 == v / 0x400_0000_0000 / 128
    ensures v / 0x100_0000_0000_0000 == v / 0x2_0000_0000_0000 / 128
    ensures v / 0x8000_0000_0000_0000 == v / 0x100_0000_0000_0000 / 128
    ensures v / 0x8000_0000_0000_0000 < 2
  {
  }

  lemma GroupStep(w: nat, k: nat, s: seq<byte>)
    requires 0 < k && Groups(w / 128, k - 1) == s
    ensures Groups(w, k) == s + [128 + w % 128]
  {
  }

  lemma TopGroups(v: nat)
    requires v < TWO_64
    ensures Groups(v / 0x8_0000_0000, 5) == [
              128 + (v / 0x8000_0000_0000_0000) % 2,
              128 + (v / 0x100_0000_0000_0000) % 128,
              128 + (v / 0x2_0000_0000_0000) % 128,
              128 + (v / 0x400_0000_0000) % 128,
              128 + (v / 0x8_0000_0000) % 128]
  {
    hide Groups;
    Quotients(v);
    var e, f, g := v / 0x8_0000_0000, v / 0x400_0000_0000, v / 0x2_0000_0000_0000;
    var h, i := v / 0x100_0000_0000_0000, v / 0x8000_0000_0000_0000;
    NoGroups(i / 128);
    GroupStep(i, 1, []);
    GroupStep(h, 2, [128 + i % 128]);
    GroupStep(g, 3, [128 + i % 128, 128 + h % 128]);
    GroupStep(f, 4, [128 + i % 128, 128 + h % 128, 128 + g % 128]);
    GroupStep(e, 5, [128 + i % 128, 128 + h % 128, 128 + g % 128, 128 + f % 128]);
    assert i % 128 == i % 2;
  }

  lemma AllGroups(v: nat)
    requires v < TWO_64
    ensures Groups(v / 128, 9) == [
              128 + (v / 0x8000_0000_0000_0000) % 2,
              128 + (v / 0x100_0000_0000_0000) % 128,
              128 + (v / 0x2_0000_0000_0000) % 128,
              128 + (v / 0x400_0000_0000) % 128,
              128 + (v / 0x8_0000_0000) % 128,
              128 + (v / 0x1000_0000) % 128,
              128 + (v / 0x20_0000) % 128,
              128 + (v / 0x4000) % 128,
              128 + (v / 0x80) % 128]
  {
    hide Groups;
    Quotients(v);
    TopGroups(v);
    var a, b, c, d, e := v / 0x80, v / 0x4000, v / 0x20_0000, v / 0x1000_0000, v / 0x8_0000_0000;
    var top := Groups(e, 5);
    GroupStep(d, 6, top);
    GroupStep(c, 7, top + [128 + d % 128]);
    GroupStep(b, 8, top + [128 + d % 128] + [128 + c % 128]);
    GroupStep(a, 9, top + [128 + d % 128] + [128 + c % 128] + [128 + b % 128]);
  }

  lemma NoGroups(w: nat)
    ensures Groups(w, 0) == []
  {
  }

  lemma HighFits(v: nat)
    requires v < TWO_64
    ensures |High(v / 128)| <= 9
  {
    Pow128Values();
    HighLength(v / 128, 9);
  }

  /** Without its leading zero groups, `Groups` is `High`. */
  lemma {:induction false} SkipZeroGroups(w: nat, k: nat)
    requires |High(w)| <= k
    ensures var z := k - |High(w)|;
            && (forall i | 0 <= i < z :: Groups(w, k)[i] == 128)
            && Groups(w, k)[z..] == High(w)
            && (High(w) != [] ==> High(w)[0] != 128)
  {
    HighBytes(w);
    if k == 0 {
    } else if w == 0 {
      SkipZeroGroups(0, k - 1);
    } else {
      SkipZeroGroups(w / 128, k - 1);
      var z := k - |High(w)|;
      assert Groups(w, k)[z..] == Groups(w / 128, k - 1)[z..] + [128 + w % 128];
    }
  }

  /** `lsa_attr_set_serialise_length`: printing to nowhere. */
  method SetSerialiseLength(attrs: seq<Attr>, signedOnly: bool, pre: seq<byte>) returns (len: nat)
    requires |EncAttrs(attrs, signedOnly, pre)| <= SIZE_MAX
    ensures len == |EncAttrs(attrs, signedOnly, pre)|
    decreases attrs, 1
  {
    var none := new byte[0];
    var dst := new Dst(none, 0);
    AttrsSerialise(dst, attrs, signedOnly, pre);
    len := dst.off;
  }

  /** What an attribute's data adds after its key. */
  function EncData(a: Attr, signedOnly: bool, pre: seq<byte>): seq<byte> {
    match a.data
    case Set(attrs) => EncInt(|EncAttrs(attrs, signedOnly, [])|) + EncAttrs(attrs, signedOnly, [])
    case Plain(bytes) => EncInt(|bytes| + |pre|) + pre + bytes
  }

  function EncHead(a: Attr): seq<byte> {
    EncInt(AsUnsigned(a.typ)) + EncInt(Flags(a)) + EncKey(a.key)
  }

  lemma AttrParts(a: Attr, signedOnly: bool, pre: seq<byte>)
    requires !(signedOnly && !a.signed)
    ensures EncAttr(a, signedOnly, pre) == EncHead(a) + EncData(a, signedOnly, pre)
    ensures AsUnsigned(a.typ) < TWO_64 && Flags(a) < TWO_64
  {
  }

  /** The part of `__lsa_attr_serialise` up to the key. */
  method HeadSerialise(dst: Dst, attr: Attr)
    requires dst.Valid() && |dst.log| + |EncHead(attr)| <= SIZE_MAX
    requires AsUnsigned(attr.typ) < TWO_64
    modifies dst`off, dst`log, dst.dst
    ensures dst.Valid() && dst.log == old(dst.log) + EncHead(attr)
  {
    hide EncInt;
    dst.AppendInt(AsUnsigned(attr.typ));
    var flags := 0;
    if attr.key != [] {
      flags := flags + 1;
    }
    if attr.data.Set? {
      flags := flags + 2;
    }
    if attr.signed {
      flags := flags + 4;
    }
    dst.AppendInt(flags);
    if attr.key != [] {
      dst.AppendInt(|attr.key|);
      dst.Append(attr.key);
    }
  }

  /** `__lsa_attr_serialise`. */
  method AttrSerialise(dst: Dst, attr: Attr, signedOnly: bool, pre: seq<byte>)
    requires dst.Valid() && |dst.log| + |EncAttr(attr, signedOnly, pre)| <= SIZE_MAX
    modifies dst`off, dst`log, dst.dst
    ensures dst.Valid() && dst.log == old(dst.log) + EncAttr(attr, signedOnly, pre)
    decreases attr, 3
  {
    if signedOnly && !attr.signed {
      return;
    }
    hide EncAttr, EncHead, EncData;
    AttrParts(attr, signedOnly, pre);
    HeadSerialise(dst, attr);
    DataSerialise(dst, attr, signedOnly, pre);
  }

  /** The part of `__lsa_attr_serialise` after the key. */
  method DataSerialise(dst: Dst, attr: Attr, signedOnly: bool, pre: seq<byte>)
    requires dst.Valid() && |dst.log| + |EncData(attr, signedOnly, pre)| <= SIZE_MAX
    modifies dst`off, dst`log, dst.dst
    ensures dst.Valid() && dst.log == old(dst.log) + EncData(attr, signedOnly, pre)
    decreases attr, 2
  {
    hide EncAttrs, EncInt;
    match attr.data {
      case Set(attrs) =>
        var len := SetSerialiseLength(attrs, signedOnly, []);
        dst.AppendInt(len);
        AttrsSerialise(dst, attrs, signedOnly, []);
      case Plain(bytes) =>
        dst.AppendInt(|bytes| + |pre|);
        dst.Append(pre);
        dst.Append(bytes);
    }
  }

  /** `lsa_attrs_serialise`. */
  method AttrsSerialise(dst: Dst, attrs: seq<Attr>, signedOnly: bool, pre: seq<byte>)
    requires dst.Valid() && |dst.log| + |EncAttrs(attrs, signedOnly, pre)| <= SIZE_MAX
    modifies dst`off, dst`log, dst.dst
    ensures dst.Valid() && dst.log == old(dst.log) + EncAttrs(attrs, signedOnly, pre)
    decreases attrs, 0
  {
    hide EncAttr, EncAttrs;
    ghost var log, all := dst.log, EncAttrs(attrs, signedOnly, pre);
    assert attrs[0..] == attrs;
    var i := 0;
    while i < |attrs|
      invariant 0 <= i <= |attrs| && dst.Valid()
      invariant dst.log + EncAttrs(attrs[i..], signedOnly, pre) == log + all
    {
      var attr := attrs[i];
      ghost var rest := attrs[i..];
      EncAttrsStep(rest, signedOnly, pre);
      assert rest[1..] == attrs[i + 1..];
      assert |dst.log| + |EncAttrs(rest, signedOnly, pre)| == |log| + |all|;
      if attr.typ == LSA_ATTR_TYPE_ADV_PATH {
        AttrSerialise(dst, attr, signedOnly, pre);
      } else {
        AttrSerialise(dst, attr, signedOnly, []);
      }
      i := i + 1;
    }
    NoAttrs(signedOnly, pre);
    assert attrs[i..] == [];
    assert dst.log + [] == dst.log;
  }

  lemma NoAttrs(signedOnly: bool, pre: seq<byte>)
    ensures EncAttrs([], signedOnly, pre) == []
  {
  }

  /** `lsa_serialise_length`. */
  method SerialiseLength(lsa: Lsa, signedOnly: bool, pre: seq<byte>) returns (len: nat)
    requires |Body(lsa, signedOnly, pre)| <= SIZE_MAX
    ensures len == |Body(lsa, signedOnly, pre)|
  {
    var n := SetSerialiseLength(lsa.attrs, signedOnly, pre);
    len := NODE_ID_LEN + n;
  }

  /** `lsa_serialise`: `ok` is false where the code aborts on a wrong `serlen`. */
  method Serialise(buf: array<byte>, buflen: nat, serlen: nat, lsa: Lsa, signedOnly: bool, pre: seq<byte>)
    returns (ok: bool, len: nat)
    requires buflen <= buf.Length && serlen < TWO_64
    requires |EncInt(serlen)| + |Body(lsa, signedOnly, pre)| <= SIZE_MAX
    modifies buf
    ensures ok <==> serlen == |Body(lsa, signedOnly, pre)|
    ensures ok ==> len == |Frame(lsa, signedOnly, pre)|
    ensures ok ==> buf[..Min(len, buflen)] == Frame(lsa, signedOnly, pre)[..Min(len, buflen)]
  {
    hide EncInt, EncAttrs;
    var dst := new Dst(buf, buflen);
    dst.AppendInt(serlen);
    var expected := serlen + dst.off;
    dst.Append(lsa.id);
    AttrsSerialise(dst, lsa.attrs, signedOnly, pre);
    assert dst.log == EncInt(serlen) + Body(lsa, signedOnly, pre);
    ok := expected == dst.off;
    len := dst.off;
  }

  /** The frame as its users print it: into a buffer of its length and 128 bytes, where it always fits. */
  method SerialiseFrame(lsa: Lsa, signedOnly: bool, pre: seq<byte>) returns (data: seq<byte>)
    requires |Body(lsa, signedOnly, pre)| <= 65536 - 128
    ensures data == Frame(lsa, signedOnly, pre)
  {
    hide EncInt, Body;
    var serlen := SerialiseLength(lsa, signedOnly, pre);
    EncLength(serlen);
    var buflen := serlen + 128;
    var buf := new byte[buflen](_ => 0);
    var ok, len := Serialise(buf, buflen, serlen, lsa, signedOnly, pre);
    assert ok && len <= buflen;
    data := buf[..len];
  }
}
