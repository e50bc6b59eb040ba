/** `avl_diff` in `util.c`: one walk over two ordered trees. */
module AvlDiff {

  /** The three callbacks. */
  datatype Change<T> = Add(b: T) | Mod(a: T, b: T) | Del(a: T)

  /** `less` is a strict order; elements neither below the other have the same key. */
  ghost predicate StrictOrder<T(!new)>(less: (T, T) -> bool) {
    && (forall x, y, z :: less(x, y) && less(y, z) ==> less(x, z))
    && (forall x :: !less(x, x))
    && (forall x, y, z :: !less(x, y) && !less(y, x) && less(y, z) ==> less(x, z))
    && (forall x, y, z :: !less(x, y) && !less(y, x) && less(z, y) ==> less(z, x))
  }

  ghost predicate InOrder<T>(s: seq<T>, less: (T, T) -> bool) {
    forall i, j | 0 <= i < j < |s| :: less(s[i], s[j])
  }

  predicate SameSpot<T>(less: (T, T) -> bool, x: T, y: T) {
    !less(x, y) && !less(y, x)
  }

  /** The calls `avl_diff` makes. */
  function Walk<T>(a: seq<T>, b: seq<T>, less: (T, T) -> bool): seq<Change<T>>
    decreases |a| + |b|
  {
    if a == [] && b == [] then []
    else if b == [] then [Del(a[0])] + Walk(a[1..], b, less)
    else if a == [] then [Add(b[0])] + Walk(a, b[1..], less)
    else if less(a[0], b[0]) then [Del(a[0])] + Walk(a[1..], b, less)
    else if less(b[0], a[0]) then [Add(b[0])] + Walk(a, b[1..], less)
    else [Mod(a[0], b[0])] + Walk(a[1..], b[1..], less)
  }

  /** The tree position a call is about. */
  function Spot<T>(c: Change<T>): T {
    if c.Add? then c.b else c.a
  }

  /** Each call is the right one for its key. */
  ghost predicate Right<T>(c: Change<T>, a: seq<T>, b: seq<T>, less: (T, T) -> bool) {
    match c
    case Add(y) => y in b && forall x | x in a :: !SameSpot(less, x, y)
    case Del(x) => x in a && forall y | y in b :: !SameSpot(less, x, y)
    case Mod(x, y) => x in a && y in b && SameSpot(less, x, y)
  }

  /** Calls come in key order, so at most one for each key. */
  ghost predicate Increasing<T>(cs: seq<Change<T>>, less: (T, T) -> bool) {
    forall i, j | 0 <= i < j < |cs| :: less(Spot(cs[i]), Spot(cs[j]))
  }

  /** Nothing in `s` comes at or before `x`. */
  ghost predicate Above<T>(s: seq<T>, x: T, less: (T, T) -> bool) {
    forall y | y in s :: less(x, y)
  }

  lemma HeadAbove<T(!new)>(s: seq<T>, x: T, less: (T, T) -> bool)
    requires StrictOrder(less) && InOrder(s, less) && s != [] && (less(x, s[0]) || SameSpot(less, x, s[0]))
    ensures Above(s[1..], x, less)
    ensures less(x, s[0]) ==> Above(s, x, less)
  {
    forall y | y in s[1..] ensures less(x, y) {
      var i :| 1 <= i < |s| && s[i] == y;
      assert less(s[0], s[i]);
    }
    forall y | y in s && less(x, s[0]) ensures less(x, y) {
      var i :| 0 <= i < |s| && s[i] == y;
      assert i > 0 ==> less(s[0], s[i]);
    }
  }

  /** Every call is right, and all calls after the first lie above it. */
  lemma {:induction false} WalkIsRight<T(!new)>(a: seq<T>, b: seq<T>, less: (T, T) -> bool, c: Change<T>)
    requires StrictOrder(less) && InOrder(a, less) && InOrder(b, less) && c in Walk(a, b, less)
    ensures Right(c, a, b, less) && (Spot(c) in a || Spot(c) in b)
    decreases |a| + |b|
  {
    if a != [] && (b == [] || less(a[0], b[0])) {
      if c == Del(a[0]) {
        if b != [] { HeadAbove(b, a[0], less); }
      } else {
        WalkIsRight(a[1..], b, less, c);
        FirstElsewhere(a, b, less, c);
      }
    } else if b != [] && (a == [] || less(b[0], a[0])) {
      if c == Add(b[0]) {
        if a != [] { HeadAbove(a, b[0], less); }
      } else {
        WalkIsRight(a, b[1..], less, c);
        if c.Del? && SameSpot(less, c.a, b[0]) {
          HeadAbove(a, b[0], less);
        }
      }
    } else {
      if c == Mod(a[0], b[0]) {
      } else {
        WalkIsRight(a[1..], b[1..], less, c);
        HeadAbove(a, a[0], less);
        HeadAbove(b, b[0], less);
        if c.Add? { assert less(b[0], c.b); }
        if c.Del? { assert less(a[0], c.a); }
      }
    }
  }

  lemma FirstElsewhere<T(!new)>(a: seq<T>, b: seq<T>, less: (T, T) -> bool, c: Change<T>)
    requires StrictOrder(less) && InOrder(a, less) && InOrder(b, less) && a != []
    requires b == [] || less(a[0], b[0])
    requires Right(c, a[1..], b, less)
    ensures Right(c, a, b, less)
  {
    if c.Add? && b != [] {
      HeadAbove(b, a[0], less);
      forall x | x in a ensures !SameSpot(less, x, c.b) {
        assert x == a[0] || x in a[1..];
      }
    }
  }

  lemma {:induction false} WalkIncreases<T(!new)>(a: seq<T>, b: seq<T>, less: (T, T) -> bool)
    requires StrictOrder(less) && InOrder(a, less) && InOrder(b, less)
    ensures Increasing(Walk(a, b, less), less)
    decreases |a| + |b|
  {
    var cs := Walk(a, b, less);
    if cs != [] {
      var a', b' := if Spot(cs[0]) in a && !cs[0].Add? then a[1..] else a, if cs[0].Del? then b else b[1..];
      assert cs == [cs[0]] + Walk(a', b', less);
      WalkIncreases(a', b', less);
      forall j | 1 <= j < |cs| ensures less(Spot(cs[0]), Spot(cs[j])) {
        assert cs[j] == Walk(a', b', less)[j - 1];
        WalkIsRight(a', b', less, cs[j]);
        if a != [] && !less(a[0], Spot(cs[0])) { HeadAbove(a, Spot(cs[0]), less); }
        if b != [] && !less(b[0], Spot(cs[0])) { HeadAbove(b, Spot(cs[0]), less); }
      }
    }
  }

  /** Every element of either tree is in some call. */
  lemma {:induction false} WalkCovers<T(!new)>(a: seq<T>, b: seq<T>, less: (T, T) -> bool)
    ensures forall x | x in a :: exists c | c in Walk(a, b, less) :: !c.Add? && c.a == x
    ensures forall y | y in b :: exists c | c in Walk(a, b, less) :: !c.Del? && c.b == y
    decreases |a| + |b|
  {
    var cs := Walk(a, b, less);
    if cs != [] {
      var a', b' := if cs[0].Add? then a else a[1..], if cs[0].Del? then b else b[1..];
      assert cs == [cs[0]] + Walk(a', b', less);
      WalkCovers(a', b', less);
      forall x | x in a ensures exists c | c in cs :: !c.Add? && c.a == x {
        if x in a' {
          var c :| c in Walk(a', b', less) && !c.Add? && c.a == x;
          assert c in cs;
        } else {
          assert cs[0] in cs && cs[0].a == x;
        }
      }
      forall y | y in b ensures exists c | c in cs :: !c.Del? && c.b == y {
        if y in b' {
          var c :| c in Walk(a', b', less) && !c.Del? && c.b == y;
          assert c in cs;
        } else {
          assert cs[0] in cs && cs[0].b == y;
        }
      }
    }
  }
}
