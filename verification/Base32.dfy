/** `util.c`: key fingerprints, 32 bytes written as 52 characters of five bits, low bits first. */
module Base32 {
  import opened Bytes

  const FINGERPRINT_LEN: nat := 52

  const BASE32: string := "0123456789bcdfghjklmnpqrstuvwxyz"

  const DIGITS: seq<bv8> := [0, 1, 2, 3, 4, 5, 6, 7, 8, 9]

  const LETTERS: seq<Option<bv8>> := [
    None, Some(10), Some(11), Some(12), None, Some(13), Some(14), Some(15), None, Some(16), Some(17),
    Some(18), Some(19),
    Some(20), None, Some(21), Some(22), Some(23), Some(24), Some(25), Some(26), Some(27), Some(28), Some(29),
    Some(30), Some(31)
  ]

  /** `base32char`, with `None` for -1. */
  function Base32Char(c: char): Option<bv8> {
    if '0' <= c <= '9' then Some(DIGITS[c as int - '0' as int])
    else if 'A' <= c <= 'Z' then LETTERS[c as int - 'A' as int]
    else if 'a' <= c <= 'z' then LETTERS[c as int - 'a' as int]
    else None
  }

  function Lower(c: char): char {
    if 'A' <= c <= 'Z' then (c as int - 'A' as int + 'a' as int) as char else c
  }

  /** Every five-bit value has one character, whose value it is. */
  lemma AlphabetValues(v: bv8)
    requires v < 32
    ensures Base32Char(BASE32[v]) == Some(v)
  {
  }

  predicate InAlphabet(c: char) {
    ('0' <= c <= '9' || 'a' <= c <= 'z') && c != 'a' && c != 'e' && c != 'i' && c != 'o'
  }

  /** The alphabet: digits and lower-case letters in order, without a, e, i and o. */
  lemma AlphabetOrder(u: nat, v: nat)
    requires u < v < 32
    ensures BASE32[u] < BASE32[v]
    ensures InAlphabet(BASE32[u]) && InAlphabet(BASE32[v])
  {
  }

  /** Characters of the same value differ in case only. */
  lemma ValueCharacter(c: char)
    ensures Base32Char(c).Some? ==> Base32Char(c).value < 32 && BASE32[Base32Char(c).value] == Lower(c)
  {
    hide LETTERS, DIGITS, BASE32;
    if '0' <= c <= '9' {
      DigitCharacter(c as int - '0' as int);
    } else if 'A' <= c <= 'Z' {
      LetterCharacter(c as int - 'A' as int);
    } else if 'a' <= c <= 'z' {
      LetterCharacter(c as int - 'a' as int);
    }
  }

  lemma DigitCharacter(k: nat)
    requires k < 10
    ensures DIGITS[k] < 32 && BASE32[DIGITS[k]] == ('0' as int + k) as char
  {
  }

  lemma LetterCharacter(k: nat)
    requires k < 26
    ensures LETTERS[k].Some? ==> LETTERS[k].value < 32 && BASE32[LETTERS[k].value] == ('a' as int + k) as char
  {
    if k < 13 {
      assert k == 0 || k == 1 || k == 2 || k == 3 || k == 4 || k == 5 || k == 6 || k == 7 || k == 8 || k >= 9;
    }
  }

  // -------------------------------------------------------------------------------- bits

  predicate Bit(x: bv8, k: nat)
    requires k < 8
  {
    (x >> k) & 1 == 1
  }

  lemma SameBits(x: bv8, y: bv8)
    requires forall k | 0 <= k < 8 :: Bit(x, k) == Bit(y, k)
    ensures x == y
  {
    assert Bit(x, 0) == Bit(y, 0) && Bit(x, 1) == Bit(y, 1) && Bit(x, 2) == Bit(y, 2) && Bit(x, 3) == Bit(y, 3);
    assert Bit(x, 4) == Bit(y, 4) && Bit(x, 5) == Bit(y, 5) && Bit(x, 6) == Bit(y, 6) && Bit(x, 7) == Bit(y, 7);
  }

  /** Bit `k` of an id. */
  predicate IdBit(id: seq<bv8>, k: nat)
    requires |id| == NODE_ID_LEN && k < 256
  {
    Bit(id[k / 8], k % 8)
  }

  /** The five bits from bit `s` of `lo` on, continuing in `hi`. */
  function Window(lo: bv8, hi: bv8, s: nat): (w: bv8)
    requires s < 8
    ensures w < 32
  {
    (((lo as bv16 | (hi as bv16 << 8)) >> s) & 0x1f) as bv8
  }

  lemma WindowBits(lo: bv8, hi: bv8, s: nat, t: nat)
    requires s < 8 && t < 5
    ensures Bit(Window(lo, hi, s), t) == if s + t < 8 then Bit(lo, s + t) else Bit(hi, s + t - 8)
  {
    assert s == 0 || s == 1 || s == 2 || s == 3 || s == 4 || s == 5 || s == 6 || s == 7;
    assert t == 0 || t == 1 || t == 2 || t == 3 || t == 4;
  }

  /** Two five-bit values with the same five bits are equal. */
  lemma SameFive(x: bv8, y: bv8)
    requires x < 32 && y < 32 && forall t | 0 <= t < 5 :: Bit(x, t) == Bit(y, t)
    ensures x == y
  {
    assert Bit(x, 0) == Bit(y, 0) && Bit(x, 1) == Bit(y, 1) && Bit(x, 2) == Bit(y, 2);
    assert Bit(x, 3) == Bit(y, 3) && Bit(x, 4) == Bit(y, 4);
  }

  /** The part of the shifted value that stays in the byte, and the part that goes to the next one. */
  function Low(v: bv8, s: nat): bv8
    requires s < 8
  {
    ((v as bv16 << s) & 0xff) as bv8
  }

  function High(v: bv8, s: nat): bv8
    requires s < 8
  {
    ((v as bv16 << s) >> 8) as bv8
  }

  function Or(x: bv8, y: bv8): bv8 { x | y }

  lemma ShiftOr(x: bv8, y: bv8, p: nat)
    requires p < 8
    ensures (x | y) >> p == (x >> p) | (y >> p)
  {
  }

  lemma OneBitOr(x: bv8, y: bv8)
    ensures (x | y) & 1 == 1 <==> x & 1 == 1 || y & 1 == 1
  {
  }

  lemma OrBits(x: bv8, y: bv8, p: nat)
    requires p < 8
    ensures Bit(Or(x, y), p) == (Bit(x, p) || Bit(y, p))
  {
    ShiftOr(x, y, p);
    OneBitOr(x >> p, y >> p);
  }

  lemma LowBits(v: bv8, s: nat, p: nat)
    requires v < 32 && s < 8 && p < 8
    ensures Bit(Low(v, s), p) == (s <= p < s + 5 && Bit(v, p - s))
  {
    assert s == 0 || s == 1 || s == 2 || s == 3 || s == 4 || s == 5 || s == 6 || s == 7;
    assert p == 0 || p == 1 || p == 2 || p == 3 || p == 4 || p == 5 || p == 6 || p == 7;
  }

  lemma HighBits(v: bv8, s: nat, p: nat)
    requires v < 32 && s < 8 && p < 8
    ensures Bit(High(v, s), p) == (p + 8 < s + 5 && Bit(v, p + 8 - s))
  {
    assert s == 0 || s == 1 || s == 2 || s == 3 || s == 4 || s == 5 || s == 6 || s == 7;
    assert p == 0 || p == 1 || p == 2 || p == 3 || p == 4 || p == 5 || p == 6 || p == 7;
  }

  /** Whether a shifted value reaches into the next byte. */
  method Shifted(v: bv8, s: nat) returns (low: bv8, high: bv8, spills: bool)
    requires v < 32 && s < 8
    ensures low == Low(v, s) && high == High(v, s) && (spills <==> high != 0)
  {
    var shifted := v as bv16 << s;
    low, high := (shifted & 0xff) as bv8, (shifted >> 8) as bv8;
    spills := shifted & 0xff00 != 0;
    assert s == 0 || s == 1 || s == 2 || s == 3 || s == 4 || s == 5 || s == 6 || s == 7;
  }

  lemma OrZero(x: bv8)
    ensures Or(x, 0) == x
  {
  }

  // ------------------------------------------------------------------------ the two forms

  /** Character `i` of a string that may end early. */
  function CharAt(fp: string, i: nat): char {
    if i < |fp| then fp[i] else '\0'
  }

  predicate Readable(fp: string) {
    forall i | 0 <= i < FINGERPRINT_LEN :: Base32Char(CharAt(fp, i)).Some?
  }

  /** Bit `k` of the string: bit `k % 5` of the value of character `k / 5`. */
  predicate CharBit(fp: string, k: nat) {
    var v := Base32Char(CharAt(fp, k / 5));
    v.Some? && Bit(v.value, k % 5)
  }

  /** The string gives every bit of the id. */
  ghost predicate Spells(fp: string, id: seq<bv8>) {
    |id| == NODE_ID_LEN && Readable(fp) && forall k | 0 <= k < 256 :: IdBit(id, k) == CharBit(fp, k)
  }

  /** The form that is printed: 52 lower-case characters, the last of which has a single bit. */
  ghost predicate Printed(fp: string, id: seq<bv8>) {
    && |fp| == FINGERPRINT_LEN && Spells(fp, id)
    && (forall i | 0 <= i < FINGERPRINT_LEN :: Lower(fp[i]) == fp[i])
    && Base32Char(CharAt(fp, 51)).value <= 1
  }

  /** The `j`-th of 52 windows. */
  function Digit(id: seq<bv8>, i: nat): (w: bv8)
    requires |id| == NODE_ID_LEN && i < FINGERPRINT_LEN
    ensures w < 32
  {
    var j := 5 * i;
    Window(id[j / 8], if j / 8 + 1 < NODE_ID_LEN then id[j / 8 + 1] else 0, j % 8)
  }

  lemma DigitBits(id: seq<bv8>, i: nat, t: nat)
    requires |id| == NODE_ID_LEN && i < FINGERPRINT_LEN && t < 5
    ensures Bit(Digit(id, i), t) == (5 * i + t < 256 && IdBit(id, 5 * i + t))
  {
    hide Bit, Window;
    var j := 5 * i;
    var hi := if j / 8 + 1 < NODE_ID_LEN then id[j / 8 + 1] else 0;
    WindowBits(id[j / 8], hi, j % 8, t);
    if j % 8 + t < 8 {
      assert (j + t) / 8 == j / 8 && (j + t) % 8 == j % 8 + t;
    } else {
      assert (j + t) / 8 == j / 8 + 1 && (j + t) % 8 == j % 8 + t - 8;
      ZeroBits(j % 8 + t - 8);
    }
  }

  lemma ZeroBits(p: nat)
    requires p < 8
    ensures !Bit(0, p)
  {
    assert p == 0 || p == 1 || p == 2 || p == 3 || p == 4 || p == 5 || p == 6 || p == 7;
  }

  /** `print_fingerprint`. */
  method PrintFingerprint(id: array<bv8>) returns (out: string)
    requires id.Length == NODE_ID_LEN
    ensures Printed(out, id[..])
  {
    hide Window, Bit;
    out := "";
    var i, j := 0, 0;
    while i < FINGERPRINT_LEN
      invariant 0 <= i <= FINGERPRINT_LEN && j == 5 * i && |out| == i
      invariant forall k | 0 <= k < i :: out[k] == BASE32[Digit(id[..], k)]
    {
      var at := j / 8;
      var hi := 0;
      if at + 1 < NODE_ID_LEN {
        hi := id[at + 1];
      }
      out := out + [BASE32[Window(id[at], hi, j % 8)]];
      i, j := i + 1, j + 5;
    }
    DigitsPrint(out, id[..]);
  }

  lemma DigitsPrint(out: string, id: seq<bv8>)
    requires |out| == FINGERPRINT_LEN && |id| == NODE_ID_LEN
    requires forall k | 0 <= k < FINGERPRINT_LEN :: out[k] == BASE32[Digit(id, k)]
    ensures Printed(out, id)
  {
    hide Digit, Bit, Base32Char, BASE32, Lower;
    forall i | 0 <= i < FINGERPRINT_LEN
      ensures Base32Char(out[i]) == Some(Digit(id, i)) && Lower(out[i]) == out[i] && CharAt(out, i) == out[i]
    {
      AlphabetValues(Digit(id, i));
      ValueCharacter(out[i]);
    }
    forall k | 0 <= k < 256 ensures IdBit(id, k) == CharBit(out, k) {
      DigitBits(id, k / 5, k % 5);
    }
    forall t | 1 <= t < 5 ensures !Bit(Digit(id, 51), t) {
      DigitBits(id, 51, t);
    }
    SmallDigit(Digit(id, 51));
  }

  lemma SmallDigit(v: bv8)
    requires v < 32
    ensures v <= 1 <==> forall t | 1 <= t < 5 :: !Bit(v, t)
  {
    if forall t | 1 <= t < 5 :: !Bit(v, t) {
      assert !Bit(v, 1) && !Bit(v, 2) && !Bit(v, 3) && !Bit(v, 4);
    } else {
      var t :| 1 <= t < 5 && Bit(v, t);
      assert t == 1 || t == 2 || t == 3 || t == 4;
    }
  }

  /** The bits of a five-bit value put in from bit `j` on. */
  function Placed(id: seq<bv8>, v: bv8, j: nat): (r: seq<bv8>)
    requires |id| == NODE_ID_LEN && j < 256
    ensures |r| == NODE_ID_LEN
  {
    var at := j / 8;
    var low := id[at := Or(id[at], Low(v, j % 8))];
    if at + 1 < NODE_ID_LEN then low[at + 1 := Or(low[at + 1], High(v, j % 8))] else low
  }

  lemma PlacedByte(id: seq<bv8>, v: bv8, j: nat, b: nat)
    requires |id| == NODE_ID_LEN && j < 256 && b < NODE_ID_LEN
    ensures Placed(id, v, j)[b] ==
            if b == j / 8 then Or(id[b], Low(v, j % 8))
            else if b == j / 8 + 1 then Or(id[b], High(v, j % 8))
            else id[b]
  {
    hide Low, High, Or;
  }

  lemma PlacedBits(id: seq<bv8>, v: bv8, j: nat, k: nat)
    requires |id| == NODE_ID_LEN && j < 256 && v < 32 && k < 256
    ensures IdBit(Placed(id, v, j), k) == (IdBit(id, k) || (j <= k < j + 5 && Bit(v, k - j)))
  {
    hide Bit, Low, High, Placed, Or;
    var at, s, b, p := j / 8, j % 8, k / 8, k % 8;
    assert j == 8 * at + s && k == 8 * b + p;
    PlacedByte(id, v, j, b);
    if b == at {
      OrBits(id[b], Low(v, s), p);
      LowBits(v, s, p);
      assert k - j == p - s;
    } else if b == at + 1 {
      OrBits(id[b], High(v, s), p);
      HighBits(v, s, p);
      assert k - j == p + 8 - s;
    }
  }

  /** The next character gives the next five bits. */
  lemma PlacedNext(id: seq<bv8>, fp: string, i: nat, k: nat)
    requires |id| == NODE_ID_LEN && i < FINGERPRINT_LEN && k < 256 && Base32Char(CharAt(fp, i)).Some?
    requires IdBit(id, k) == (k < 5 * i && CharBit(fp, k))
    ensures IdBit(Placed(id, Base32Char(CharAt(fp, i)).value, 5 * i), k) == (k < 5 * (i + 1) && CharBit(fp, k))
  {
    hide Bit, Placed, Base32Char, IdBit, CharAt;
    ValueCharacter(CharAt(fp, i));
    PlacedBits(id, Base32Char(CharAt(fp, i)).value, 5 * i, k);
    if 5 * i <= k < 5 * i + 5 {
      assert k / 5 == i && k % 5 == k - 5 * i;
    }
  }

  lemma NoBits(id: seq<bv8>)
    requires |id| == NODE_ID_LEN && forall k | 0 <= k < NODE_ID_LEN :: id[k] == 0
    ensures forall k | 0 <= k < 256 :: !IdBit(id, k)
  {
    hide Bit;
    forall k | 0 <= k < 256 ensures !IdBit(id, k) {
      ZeroBits(k % 8);
    }
  }

  /** The turn of the parse that adds the bits of one character to at most two bytes. */
  method PlaceBits(id: array<bv8>, v: bv8, j: nat)
    requires id.Length == NODE_ID_LEN && j < 256 && v < 32
    modifies id
    ensures id[..] == Placed(old(id[..]), v, j)
  {
    hide Low, High, Or;
    var at := j / 8;
    var low, high, spills := Shifted(v, j % 8);
    id[at] := Or(id[at], low);
    if at + 1 < NODE_ID_LEN {
      OrZero(id[at + 1]);
      if spills {
        id[at + 1] := Or(id[at + 1], high);
      }
    }
  }

  /** `parse_base32_fingerprint`. */
  method ParseFingerprint(id: array<bv8>, fp: string) returns (ret: int)
    requires id.Length == NODE_ID_LEN
    modifies id
    ensures ret == (if Readable(fp) then 0 else -1)
    ensures ret == 0 ==> Spells(fp, id[..])
  {
    hide Bit, Base32Char, CharBit, CharAt, IdBit, Placed;
    forall k | 0 <= k < NODE_ID_LEN {
      id[k] := 0;
    }
    NoBits(id[..]);
    var i, j := 0, 0;
    while i < FINGERPRINT_LEN
      invariant 0 <= i <= FINGERPRINT_LEN && j == 5 * i
      invariant forall k | 0 <= k < i :: Base32Char(CharAt(fp, k)).Some?
      invariant forall k | 0 <= k < 256 :: IdBit(id[..], k) == (k < j && CharBit(fp, k))
    {
      var v := Base32Char(CharAt(fp, i));
      if v == None {
        return -1;
      }
      ValueCharacter(CharAt(fp, i));
      ghost var was := id[..];
      PlaceBits(id, v.value, j);
      forall k | 0 <= k < 256 ensures IdBit(id[..], k) == (k < j + 5 && CharBit(fp, k)) {
        assert IdBit(was, k) == (k < 5 * i && CharBit(fp, k));
        PlacedNext(was, fp, i, k);
      }
      i, j := i + 1, j + 5;
    }
    return 0;
  }

  // ------------------------------------------------------------------------- round trips

  /** A string gives one id only: parsing what was printed for `a` returns `a`. */
  lemma ParseOfPrint(fp: string, a: seq<bv8>, b: seq<bv8>)
    requires Printed(fp, a) && Spells(fp, b)
    ensures a == b
  {
    hide Bit, CharBit, Readable;
    forall i | 0 <= i < NODE_ID_LEN ensures a[i] == b[i] {
      forall p | 0 <= p < 8 ensures Bit(a[i], p) == Bit(b[i], p) {
        assert IdBit(a, 8 * i + p) == IdBit(b, 8 * i + p);
        assert (8 * i + p) / 8 == i && (8 * i + p) % 8 == p;
      }
      SameBits(a[i], b[i]);
    }
  }

  function Lowered(fp: string): (r: string)
    ensures |r| == |fp| && forall i | 0 <= i < |r| :: r[i] == Lower(fp[i])
  {
    if fp == "" then "" else [Lower(fp[0])] + Lowered(fp[1..])
  }

  lemma ReadableLength(fp: string)
    requires Readable(fp)
    ensures |fp| >= FINGERPRINT_LEN
  {
    assert |fp| < FINGERPRINT_LEN ==> Base32Char(CharAt(fp, |fp|)).Some?;
  }

  /** Before the last character, the values are settled by the id. */
  lemma SameValue(fp: string, out: string, id: seq<bv8>, i: nat)
    requires Spells(fp, id) && Printed(out, id) && i < FINGERPRINT_LEN
    requires i == 51 ==> Base32Char(CharAt(fp, 51)).value <= 1
    ensures Base32Char(CharAt(out, i)) == Base32Char(CharAt(fp, i))
  {
    hide Bit, Base32Char, Lower, CharAt;
    ValueCharacter(CharAt(fp, i));
    ValueCharacter(CharAt(out, i));
    var v, w := Base32Char(CharAt(fp, i)).value, Base32Char(CharAt(out, i)).value;
    forall t | 0 <= t < 5 ensures Bit(v, t) == Bit(w, t) {
      if 5 * i + t < 256 {
        assert (5 * i + t) / 5 == i && (5 * i + t) % 5 == t;
        assert CharBit(fp, 5 * i + t) == IdBit(id, 5 * i + t) == CharBit(out, 5 * i + t);
      } else {
        SmallDigit(v);
        SmallDigit(w);
      }
    }
    SameFive(v, w);
  }

  /** Printing the id that was parsed gives the string back in lower case, exactly if no bit beyond the id was set. */
  lemma PrintOfParse(fp: string, id: seq<bv8>, out: string)
    requires Spells(fp, id) && Printed(out, id)
    ensures |fp| >= FINGERPRINT_LEN
    ensures out == Lowered(fp[..FINGERPRINT_LEN]) <==> Base32Char(CharAt(fp, 51)).value <= 1
  {
    hide Bit, Base32Char, Lower, CharBit, IdBit;
    ReadableLength(fp);
    assert CharAt(fp, 51) == fp[51] && CharAt(out, 51) == out[51];
    if Base32Char(fp[51]).value <= 1 {
      forall i | 0 <= i < FINGERPRINT_LEN ensures out[i] == Lower(fp[i]) {
        SameValue(fp, out, id, i);
        assert CharAt(fp, i) == fp[i] && CharAt(out, i) == out[i];
        ValueCharacter(fp[i]);
        ValueCharacter(out[i]);
      }
    } else {
      LowerValue(fp[51]);
    }
  }

  lemma LowerValue(c: char)
    ensures Base32Char(Lower(c)) == Base32Char(c)
  {
    hide LETTERS;
  }
}
