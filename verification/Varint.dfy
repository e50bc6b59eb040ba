/**
 * Integers on the wire: big-endian groups of seven bits, the high bit set on all but the
 * last byte, no leading zero group, at most ten bytes.
 */
module Varint {
  import opened Bytes

  const TWO_64: int := 0x1_0000_0000_0000_0000
  const TWO_57: int := 0x200_0000_0000_0000

  /** The groups before the last one. */
  function High(v: nat): seq<byte> {
    if v == 0 then [] else High(v / 128) + [128 + v % 128]
  }

  function EncInt(v: nat): seq<byte> {
    High(v / 128) + [v % 128]
  }

  datatype IntResult = IntOk(v: nat, n: nat) | IntShort | IntBad

  /** `i` bytes are read and hold the value `v`; shifting drops what exceeds 64 bits. */
  function DecLoop(s: seq<byte>, i: nat, v: nat): (r: IntResult)
    requires 1 <= i <= |s|
    ensures r.IntOk? ==> i <= r.n <= |s|
    decreases |s| - i
  {
    if s[i - 1] < 128 then IntOk(v, i)
    else if i >= 10 then IntBad
    else if i == |s| then IntShort
    else DecLoop(s, i + 1, (v * 128) % TWO_64 + s[i] % 128)
  }

  /** `SRC_READ_UINT64_T` at the start of `s`. */
  function DecInt(s: seq<byte>): (r: IntResult)
    ensures r.IntOk? ==> 1 <= r.n <= |s|
  {
    if s == [] then IntShort
    else if s[0] == 128 then IntBad
    else DecLoop(s, 1, s[0] % 128)
  }

  function Pow128(k: nat): nat {
    if k == 0 then 1 else 128 * Pow128(k - 1)
  }

  lemma {:induction false} HighLength(v: nat, k: nat)
    requires v < Pow128(k)
    ensures |High(v)| <= k
  {
    if v != 0 {
      HighLength(v / 128, k - 1);
    }
  }

  lemma Pow128Values()
    ensures Pow128(8) == 0x100_0000_0000_0000 && Pow128(9) == 0x8000_0000_0000_0000
  {
    assert Pow128(4) == 0x1000_0000;
    assert Pow128(6) == 0x400_0000_0000;
  }

  lemma EncLength(v: nat)
    requires v < TWO_64
    ensures 1 <= |EncInt(v)| <= MAX_LEN
  {
    Pow128Values();
    HighLength(v / 128, 9);
  }

  const MAX_LEN: nat := 10

  lemma {:induction false} HighMonotone(v: nat, w: nat)
    requires v <= w
    ensures |High(v)| <= |High(w)|
  {
    if v != 0 {
      HighMonotone(v / 128, w / 128);
    }
  }

  lemma EncMonotone(v: nat, w: nat)
    requires v <= w
    ensures |EncInt(v)| <= |EncInt(w)|
  {
    HighMonotone(v / 128, w / 128);
  }

  lemma DecStep(s: seq<byte>, i: nat, v: nat)
    requires 1 <= i < |s| && i < 10 && s[i - 1] >= 128 && v * 128 < TWO_64
    ensures DecLoop(s, i, v) == DecLoop(s, i + 1, v * 128 + s[i] % 128)
  {
  }

  /** Reading the groups of `w` leaves the reader holding `w`. */
  lemma {:induction false} DecHigh(w: nat, t: seq<byte>)
    requires 0 < w < TWO_57
    ensures 1 <= |High(w)| <= 9
    ensures DecInt(High(w) + t) == DecLoop(High(w) + t, |High(w)|, w)
  {
    hide DecLoop;
    Pow128Values();
    HighLength(w, 9);
    var s, h := High(w) + t, High(w / 128);
    if w < 128 {
      assert h == [] && s[0] == 128 + w;
    } else {
      var t' := [128 + w % 128] + t;
      DecHigh(w / 128, t');
      HighBytes(w / 128);
      assert h + t' == s;
      assert s[|h|] == 128 + w % 128 && s[|h| - 1] == h[|h| - 1];
      DecStep(s, |h|, w / 128);
      assert (128 + w % 128) % 128 == w % 128;
    }
  }

  lemma {:induction false} HighBytes(w: nat)
    ensures forall i | 0 <= i < |High(w)| :: High(w)[i] >= 128
    ensures w != 0 ==> High(w)[0] != 128
  {
    if w != 0 {
      HighBytes(w / 128);
    }
  }

  /** Decoding inverts encoding, whatever follows. */
  lemma DecEnc(v: nat, t: seq<byte>)
    requires v < TWO_64
    ensures DecInt(EncInt(v) + t) == IntOk(v, |EncInt(v)|)
  {
    var h, s := High(v / 128), EncInt(v) + t;
    var t' := [v % 128] + t;
    assert s == h + t';
    if v >= 128 {
      DecHigh(v / 128, t');
      HighBytes(v / 128);
      assert s[|h|] == v % 128 && s[|h| - 1] == h[|h| - 1];
      DecStep(s, |h|, v / 128);
    } else {
      assert h == [];
    }
  }

  /** A result never changes when more bytes arrive. */
  lemma {:induction false} DecLoopStable(s: seq<byte>, t: seq<byte>, i: nat, v: nat)
    requires 1 <= i <= |s| && !DecLoop(s, i, v).IntShort?
    ensures DecLoop(s + t, i, v) == DecLoop(s, i, v)
    decreases |s| - i
  {
    if s[i - 1] >= 128 && i < 10 && i < |s| {
      DecLoopStable(s, t, i + 1, (v * 128) % TWO_64 + s[i] % 128);
    }
  }

  lemma DecStable(s: seq<byte>, t: seq<byte>)
    requires !DecInt(s).IntShort?
    ensures DecInt(s + t) == DecInt(s)
  {
    if s[0] != 128 {
      DecLoopStable(s, t, 1, s[0] % 128);
    }
  }

  lemma {:induction false} DecLoopRange(s: seq<byte>, i: nat, v: nat)
    requires 1 <= i <= |s| && v < TWO_64
    ensures DecLoop(s, i, v).IntOk? ==> DecLoop(s, i, v).v < TWO_64
    decreases |s| - i
  {
    if s[i - 1] >= 128 && i < 10 && i < |s| {
      assert (v * 128) % TWO_64 <= TWO_64 - 128 by { ShiftRoom(v); }
      DecLoopRange(s, i + 1, (v * 128) % TWO_64 + s[i] % 128);
    }
  }

  lemma ShiftRoom(v: nat)
    ensures (v * 128) % TWO_64 <= TWO_64 - 128
  {
    var q := (v * 128) / TWO_64;
    assert v * 128 == q * TWO_64 + (v * 128) % TWO_64;
    assert (v * 128) % TWO_64 == 128 * (v - q * TWO_57);
  }

  lemma DecRange(s: seq<byte>)
    ensures DecInt(s).IntOk? ==> DecInt(s).v < TWO_64
  {
    if s != [] && s[0] != 128 {
      DecLoopRange(s, 1, s[0] % 128);
    }
  }

  /** While nothing is dropped, the bytes read are the groups of the value held. */
  lemma {:induction false} LoopKeepsGroups(s: seq<byte>, i: nat, v: nat)
    requires 1 <= i <= |s| && i <= 10 && s[0] != 128
    requires if s[i - 1] < 128 then s[..i] == EncInt(v) else s[..i] == High(v)
    requires v < (s[0] % 128 + 1) * Pow128(i - 1)
    requires DecLoop(s, i, v).IntOk? && (DecLoop(s, i, v).n < 10 || s[0] % 128 <= 1)
    ensures s[..DecLoop(s, i, v).n] == EncInt(DecLoop(s, i, v).v)
    decreases |s| - i
  {
    if s[i - 1] >= 128 {
      var v' := v * 128 + s[i] % 128;
      NothingDropped(s[0] % 128, i, v);
      DecStep(s, i, v);
      NextGroup(s, i, v);
      NextBound(s[0] % 128 + 1, i, v, s[i] % 128);
      LoopKeepsGroups(s, i + 1, v');
    }
  }

  lemma NextBound(d: nat, i: nat, v: nat, low: nat)
    requires 1 <= i && v < d * Pow128(i - 1) && low < 128
    ensures v * 128 + low < d * Pow128(i)
  {
    assert Pow128(i) == 128 * Pow128(i - 1);
    assert d * Pow128(i) == 128 * (d * Pow128(i - 1));
  }

  lemma NextGroup(s: seq<byte>, i: nat, v: nat)
    requires 1 <= i < |s| && s[..i] == High(v)
    ensures var v' := v * 128 + s[i] % 128;
            if s[i] < 128 then s[..i + 1] == EncInt(v') else s[..i + 1] == High(v')
  {
    var v' := v * 128 + s[i] % 128;
    assert s[..i + 1] == s[..i] + [s[i]];
    assert v == v' / 128 && v' % 128 == s[i] % 128;
    HighNonzero(s, i, v);
  }

  lemma HighNonzero(s: seq<byte>, i: nat, v: nat)
    requires 1 <= i <= |s| && s[..i] == High(v)
    ensures v != 0
  {
  }

  lemma {:induction false} NothingDropped(d: nat, i: nat, v: nat)
    requires 1 <= i <= 9 && d < 128 && v < (d + 1) * Pow128(i - 1)
    requires i < 9 || d <= 1
    ensures v * 128 < TWO_64
  {
    Pow128Values();
    PowMonotone(i - 1, 8);
    if i < 9 {
      PowMonotone(i - 1, 7);
      assert Pow128(8) == 128 * Pow128(7);
      assert (d + 1) * Pow128(i - 1) <= 128 * Pow128(7);
    }
  }

  lemma {:induction false} PowMonotone(i: nat, j: nat)
    requires i <= j
    ensures 1 <= Pow128(i) <= Pow128(j)
    decreases j
  {
    if i < j {
      PowMonotone(i, j - 1);
    } else if i > 0 {
      PowMonotone(i - 1, j - 1);
    }
  }

  /** The top group of a ten-byte encoding holds one bit. */
  lemma {:induction false} TopGroup(w: nat, k: nat)
    requires 0 < k && w < 2 * Pow128(k - 1) && |High(w)| == k
    ensures High(w)[0] <= 129
    decreases k
  {
    if k > 1 {
      TopGroup(w / 128, k - 1);
    }
  }

  /**
   * Encoding inverts decoding exactly when no high bits were dropped: a ten-byte form whose
   * first group exceeds one bit decodes to the value of another form.
   */
  lemma EncDec(s: seq<byte>)
    requires DecInt(s).IntOk?
    ensures EncInt(DecInt(s).v) == s[..DecInt(s).n] <==> (DecInt(s).n < 10 || s[0] <= 129)
  {
    var IntOk(v, n) := DecInt(s);
    if n < 10 || s[0] <= 129 {
      FirstGroup(s);
      LoopKeepsGroups(s, 1, s[0] % 128);
    } else {
      DecRange(s);
      Pow128Values();
      HighLength(v / 128, 9);
      TenAtMost(s, 1, s[0] % 128);
      if EncInt(v) == s[..n] {
        TopGroup(v / 128, 9);
      }
    }
  }

  lemma FirstGroup(s: seq<byte>)
    requires s != [] && s[0] != 128
    ensures if s[0] < 128 then s[..1] == EncInt(s[0] % 128) else s[..1] == High(s[0] % 128)
  {
    if s[0] >= 128 {
      assert High((s[0] % 128) / 128) == [];
    }
  }

  lemma {:induction false} TenAtMost(s: seq<byte>, i: nat, v: nat)
    requires 1 <= i <= |s| && i <= 10 && DecLoop(s, i, v).IntOk?
    ensures DecLoop(s, i, v).n <= 10
    decreases |s| - i
  {
    if s[i - 1] >= 128 {
      TenAtMost(s, i + 1, (v * 128) % TWO_64 + s[i] % 128);
    }
  }

  lemma {:induction false} TenBytes(s: seq<byte>, i: nat, v: nat)
    requires |s| >= 10 && 1 <= i <= 10 && (forall k | 0 <= k < 9 :: s[k] >= 128) && s[9] < 128
    ensures DecLoop(s, i, v).IntOk? && DecLoop(s, i, v).n == 10
    decreases 10 - i
  {
    if i < 10 {
      TenBytes(s, i + 1, (v * 128) % TWO_64 + s[i] % 128);
    }
  }

  /** An integer that is read and printed as other bytes: its first group has more than one bit. */
  lemma LongIntLosesBits()
    ensures var s: seq<byte> := [255, 255, 255, 255, 255, 255, 255, 255, 255, 127];
            DecInt(s).IntOk? && EncInt(DecInt(s).v) != s[..DecInt(s).n]
  {
    hide EncInt, DecLoop;
    var s: seq<byte> := [255, 255, 255, 255, 255, 255, 255, 255, 255, 127];
    TenBytes(s, 1, s[0] % 128);
    EncDec(s);
  }
}
