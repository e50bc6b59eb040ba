/** What `bytes` accounts for, against what is really written. */
module Accounting {
  import opened Bytes
  import opened Varint
  import opened Lsas
  import opened Codec

  const LSA_MAX_BYTES: nat := 32768

  /** How many attributes of a set get a node id put in front. */
  function PathCount(attrs: seq<Attr>): nat {
    if attrs == [] then 0
    else (if attrs[0].typ == LSA_ATTR_TYPE_ADV_PATH && attrs[0].data.Plain? then 1 else 0) + PathCount(attrs[1..])
  }

  lemma {:induction false} EncAttrSize(a: Attr, signedOnly: bool, pre: seq<byte>)
    requires DeepSize(a) + |pre| < TWO_64
    ensures |EncAttr(a, signedOnly, pre)| <= DeepSize(a) + if a.data.Plain? then |pre| else 0
    decreases a, 1
  {
    hide EncInt;
    EncLength(AsUnsigned(a.typ));
    EncLength(Flags(a));
    EncLength(|a.key|);
    match a.data
    case Set(attrs) =>
      EncAttrsSize(attrs, signedOnly, []);
      EncLength(|EncAttrs(attrs, signedOnly, [])|);
    case Plain(bytes) =>
      EncLength(|bytes| + |pre|);
  }

  /** What prefixes add to a set. */
  function Extra(attrs: seq<Attr>, pre: seq<byte>): nat {
    |pre| * PathCount(attrs)
  }

  lemma ExtraStep(attrs: seq<Attr>, pre: seq<byte>)
    requires attrs != []
    ensures Extra(attrs, pre) == Extra(attrs[1..], pre)
              + if attrs[0].typ == LSA_ATTR_TYPE_ADV_PATH && attrs[0].data.Plain? then |pre| else 0
  {
    var n := PathCount(attrs[1..]);
    assert |pre| * (n + 1) == |pre| * n + |pre|;
  }

  /** Printed attributes take at most their accounted sizes, plus a prefix per rewritten one. */
  lemma {:induction false} EncAttrsSize(attrs: seq<Attr>, signedOnly: bool, pre: seq<byte>)
    requires SetSize(attrs) + |pre| < TWO_64
    ensures |EncAttrs(attrs, signedOnly, pre)| <= SetSize(attrs) + Extra(attrs, pre)
    decreases attrs, 0
  {
    hide EncAttr, Extra, DeepSize;
    if attrs == [] {
    } else {
      var a := attrs[0];
      EncAttrSize(a, signedOnly, if a.typ == LSA_ATTR_TYPE_ADV_PATH then pre else []);
      EncAttrsSize(attrs[1..], signedOnly, pre);
      EncAttrsStep(attrs, signedOnly, pre);
      ExtraStep(attrs, pre);
    }
  }

  /** A frame is never longer than `bytes` and one node id for each rewritten attribute. */
  lemma FrameSize(l: Lsa, signedOnly: bool, pre: seq<byte>)
    requires LsaBytes(l) + Extra(l.attrs, pre) + |pre| < TWO_64
    ensures |Frame(l, signedOnly, pre)| <= LsaBytes(l) + Extra(l.attrs, pre)
  {
    hide EncInt, EncAttrs;
    EncAttrsSize(l.attrs, signedOnly, pre);
    EncLength(|Body(l, signedOnly, pre)|);
  }

  /** An ADV_PATH attribute leaves room in its accounted size for most of a node id. */
  lemma PathAttrSize(a: Attr, pre: seq<byte>)
    requires a.typ == LSA_ATTR_TYPE_ADV_PATH && a.data.Plain? && |pre| <= NODE_ID_LEN && DeepSize(a) < LSA_MAX_BYTES
    ensures 2 * |EncAttr(a, false, pre)| <= 3 * DeepSize(a)
  {
    hide EncInt;
    EncLength(|a.key|);
    EncLength(|a.data.bytes| + |pre|);
    EncAttrParts(a, pre);
    OneByte(1);
    OneByte(Flags(a));
  }

  lemma OneByte(v: nat)
    requires v < 128
    ensures |EncInt(v)| == 1
  {
    assert High(v / 128) == [];
  }

  lemma {:induction false} EncAttrsBudget(attrs: seq<Attr>, pre: seq<byte>)
    requires SetSize(attrs) < LSA_MAX_BYTES && |pre| <= NODE_ID_LEN
    ensures 2 * |EncAttrs(attrs, false, pre)| <= 3 * SetSize(attrs)
  {
    if attrs != [] {
      hide EncAttr;
      var a := attrs[0];
      EncAttrsBudget(attrs[1..], pre);
      EncAttrsStep(attrs, false, pre);
      if a.typ == LSA_ATTR_TYPE_ADV_PATH && a.data.Plain? {
        PathAttrSize(a, pre);
      } else {
        EncAttrSize(a, false, if a.typ == LSA_ATTR_TYPE_ADV_PATH then pre else []);
      }
    }
  }

  /** The size test of `adj_rib_in.c`. */
  predicate WithinLimit(l: Lsa) {
    LsaBytes(l) + NODE_ID_LEN <= LSA_MAX_BYTES
  }

  /**
   * Every LSA within the limit can be passed on: the buffer tests in `dgp_writer.c` and
   * `adj_rib_in.c` never abort, and the frame is one a reader's buffer can hold.
   */
  lemma LimitFitsBuffers(l: Lsa, pre: seq<byte>)
    requires WithinLimit(l) && |pre| <= NODE_ID_LEN
    ensures |Body(l, false, pre)| <= 65536 - 128
    ensures |Body(l, true, [])| <= 65536 - 128
    ensures |Frame(l, false, pre)| <= |Body(l, false, pre)| + 10
    ensures |Frame(l, false, pre)| < 65536
  {
    hide EncInt, EncAttrs;
    EncAttrsBudget(l.attrs, pre);
    EncAttrsSize(l.attrs, true, []);
    EncLength(|Body(l, false, pre)|);
  }
}
