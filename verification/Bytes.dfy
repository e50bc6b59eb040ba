/** Bytes, node ids and the order `memcmp` gives them. */
module Bytes {

  type byte = x: int | 0 <= x < 256

  const NODE_ID_LEN: nat := 32

  type NodeId = s: seq<byte> | |s| == NODE_ID_LEN witness seq(NODE_ID_LEN, _ => 0)

  datatype Option<+T> = None | Some(value: T)

  /** The lexicographic order of byte strings; a proper prefix comes first. */
  predicate Less(a: seq<byte>, b: seq<byte>) {
    b != [] && (a == [] || a[0] < b[0] || (a[0] == b[0] && Less(a[1..], b[1..])))
  }

  lemma {:induction false} LessTransitive(a: seq<byte>, b: seq<byte>, c: seq<byte>)
    requires Less(a, b) && Less(b, c)
    ensures Less(a, c)
  {
    if a != [] && a[0] == b[0] == c[0] {
      LessTransitive(a[1..], b[1..], c[1..]);
    }
  }

  /** Exactly one of `a < b`, `a == b`, `b < a` holds. */
  lemma {:induction false} LessTrichotomy(a: seq<byte>, b: seq<byte>)
    ensures Less(a, b) || Less(b, a) || a == b
    ensures !(Less(a, b) && Less(b, a))
    decreases |a| + |b|
  {
    if a != [] {
      if b != [] {
        LessTrichotomy(a[1..], b[1..]);
        if a[0] == b[0] && a[1..] == b[1..] {
          assert a == [a[0]] + a[1..] == [b[0]] + b[1..] == b;
        }
      }
    }
  }

  /** The first byte in which two strings differ decides. */
  ghost predicate DifferAt(a: seq<byte>, b: seq<byte>, i: nat) {
    i < |a| && i < |b| && a[..i] == b[..i] && a[i] != b[i]
  }

  lemma {:induction false} FirstDifferenceDecides(a: seq<byte>, b: seq<byte>, i: nat)
    requires DifferAt(a, b, i)
    ensures Less(a, b) <==> a[i] < b[i]
  {
    if i > 0 {
      assert a[0] == a[..i][0] == b[..i][0] == b[0];
      assert a[1..][..i - 1] == a[..i][1..] == b[..i][1..] == b[1..][..i - 1];
      FirstDifferenceDecides(a[1..], b[1..], i - 1);
    }
  }

  lemma {:induction false} FirstDifference(a: seq<byte>, b: seq<byte>) returns (i: nat)
    requires |a| == |b| && a != b
    ensures DifferAt(a, b, i)
  {
    if a[0] != b[0] {
      i := 0;
    } else {
      assert a == [a[0]] + a[1..] && b == [b[0]] + b[1..];
      var j := FirstDifference(a[1..], b[1..]);
      i := j + 1;
      assert a[..i] == [a[0]] + a[1..][..j] == [b[0]] + b[1..][..j] == b[..i];
    }
  }

  lemma SamePrefix(a: seq<byte>, b: seq<byte>, n: nat)
    requires n <= |a| && n <= |b| && a[..n] == b[..n]
    ensures forall k | 0 <= k < n :: a[k] == b[k]
  {
    forall k | 0 <= k < n ensures a[k] == b[k] {
      assert a[..n][k] == a[k] && b[..n][k] == b[k];
    }
  }

  lemma SameFirst(a: seq<byte>, b: seq<byte>, i: nat, j: nat)
    requires DifferAt(a, b, i) && DifferAt(a, b, j)
    ensures i == j
  {
    SamePrefix(a, b, i);
    SamePrefix(a, b, j);
  }

  /** `memcmp` on strings of one length: negative, zero or positive as the first is below, equal or above. */
  method Memcmp(a: seq<byte>, b: seq<byte>) returns (r: int)
    requires |a| == |b|
    ensures r == 0 <==> a == b
    ensures r < 0 <==> Less(a, b)
    ensures r > 0 <==> Less(b, a)
  {
    LessTrichotomy(a, b);
    LessTrichotomy(a, a);
    var i := 0;
    while i < |a|
      invariant 0 <= i <= |a| && a[..i] == b[..i]
    {
      if a[i] != b[i] {
        FirstDifferenceDecides(a, b, i);
        var d: int := a[i];
        return d - b[i];
      }
      i := i + 1;
    }
    assert a == a[..i] == b[..i] == b;
    return 0;
  }
}
