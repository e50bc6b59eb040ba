/** `confdiff.c` and the `avl_diff` of `util.c`: moving entries between the live and the new configuration. */
module ConfDiff {
  import opened Bytes

  /** A name or a listening address, in the form the tree compares. */
  type Key = seq<byte>

  datatype FpType = FpAny | FpCname | FpMatch

  datatype Settings = Settings(hostname: seq<byte>, port: seq<byte>, fpType: FpType, fingerprint: seq<byte>,
                               peerType: nat, tunitf: seq<byte>, cost: int, connLimit: int)

  /** An object in a tree: a connect or listen entry, or a listening socket with its listen entries. */
  datatype Item =
    | Entry(ptr: nat, settings: Settings)
    | Socket(ptr: nat, entries: map<Key, Item>)

  type Tree = map<Key, Item>

  /** Which callbacks a walk uses: `cce_*`, `cle_*` or `cls_*`. */
  datatype Kind = Connect | Listen | Sockets

  function Slot(t: Tree, k: Key): Option<Item> {
    if k in t then Some(t[k]) else None
  }

  predicate SameFingerprint(a: Settings, b: Settings) {
    a.fpType == b.fpType && (a.fpType == FpMatch ==> a.fingerprint == b.fingerprint)
  }

  /** The comparisons at the top of `cce_mod` and `cle_mod`. */
  predicate SameSettings(kind: Kind, a: Settings, b: Settings) {
    && (kind.Connect? ==> a.hostname == b.hostname && a.port == b.port)
    && SameFingerprint(a, b) && a.peerType == b.peerType && a.tunitf == b.tunitf && a.cost == b.cost
    && (kind.Listen? ==> a.connLimit == b.connLimit)
  }

  /** Trees of sockets hold sockets whose trees hold entries; the other trees hold entries. */
  ghost predicate WellFormed(kind: Kind, t: Tree) {
    forall k | k in t :: ItemOk(kind, t[k])
  }

  ghost predicate ItemOk(kind: Kind, i: Item) {
    if kind.Sockets? then i.Socket? && forall j | j in i.entries :: i.entries[j].Entry? else i.Entry?
  }

  /** Which starts fail, by object. */
  type Refusals = nat -> bool

  /** The slots of one key in the live and the new tree after the callback for it. */
  ghost function Settle(kind: Kind, refuses: Refusals, a: Option<Item>, b: Option<Item>): (Option<Item>, Option<Item>)
    decreases kind.Sockets?, 0
  {
    if b == None then (None, a)
    else if a == None then (if refuses(b.value.ptr) then (None, b) else (b, None))
    else if a.value.Socket? && b.value.Socket? then
      if kind.Sockets? then
        var (live, spare) := Outcome(Listen, refuses, a.value.entries, b.value.entries);
        (Some(Socket(a.value.ptr, live)), Some(Socket(b.value.ptr, spare)))
      else (a, b)
    else if a.value.Socket? || b.value.Socket? || SameSettings(kind, a.value.settings, b.value.settings) then (a, b)
    else if !refuses(b.value.ptr) then (b, a)
    else if kind.Connect? then (a, b)
    else (None, b)
  }

  ghost function Outcome(kind: Kind, refuses: Refusals, a: Tree, b: Tree): (Tree, Tree)
    decreases kind.Sockets?, 1
  {
    (map k | k in a.Keys + b.Keys && Settle(kind, refuses, Slot(a, k), Slot(b, k)).0.Some? ::
       Settle(kind, refuses, Slot(a, k), Slot(b, k)).0.value,
     map k | k in a.Keys + b.Keys && Settle(kind, refuses, Slot(a, k), Slot(b, k)).1.Some? ::
       Settle(kind, refuses, Slot(a, k), Slot(b, k)).1.value)
  }

  /**
   * The rollback of a changed entry ends the program if neither form starts; for a socket in
   * both trees, if that holds of some entry in both of its trees.
   */
  ghost predicate Aborts(kind: Kind, refuses: Refusals, a: Option<Item>, b: Option<Item>)
    decreases kind.Sockets?
  {
    && a.Some? && b.Some?
    && if kind.Sockets? then
         && a.value.Socket? && b.value.Socket?
         && exists k :: Aborts(Listen, refuses, Slot(a.value.entries, k), Slot(b.value.entries, k))
       else
         && a.value.Entry? && b.value.Entry? && !SameSettings(kind, a.value.settings, b.value.settings)
         && refuses(b.value.ptr) && refuses(a.value.ptr)
  }

  ghost predicate TreeAborts(kind: Kind, refuses: Refusals, a: Tree, b: Tree) {
    exists k :: Aborts(kind, refuses, Slot(a, k), Slot(b, k))
  }

  // ----------------------------------------------------------------------------- cursors

  /** A cursor is a key, or at the end. */
  type Cursor = Option<Key>

  predicate Below(k: Key, c: Cursor) {
    c == None || Less(k, c.value)
  }

  /** The least key of a tree beyond `k`, or the least of all. */
  ghost predicate IsNext(t: Tree, after: Cursor, c: Cursor) {
    && (c.Some? ==> c.value in t && (after.Some? ==> Less(after.value, c.value)))
    && forall k | k in t && (after.Some? ==> Less(after.value, k)) :: !Below(k, c)
  }

  predicate IsLeast(k: Key, s: set<Key>) {
    k in s && forall j | j in s :: !Less(j, k)
  }

  lemma {:induction false} LeastExists(s: set<Key>) returns (k: Key)
    requires s != {}
    ensures IsLeast(k, s)
    decreases |s|
  {
    hide Less;
    var x :| x in s;
    LessTrichotomy(x, x);
    if s == {x} {
      k := x;
    } else {
      assert s - {x} != {};
      var m := LeastExists(s - {x});
      LessTrichotomy(x, m);
      if Less(x, m) {
        forall j | j in s ensures !Less(j, x) {
          if Less(j, x) { LessTransitive(j, x, m); }
        }
        k := x;
      } else {
        k := m;
      }
    }
  }

  /** `iv_avl_tree_min` and `iv_avl_tree_next` on the tree as it is now. */
  method NextIn(t: Tree, after: Cursor) returns (c: Cursor)
    ensures IsNext(t, after, c)
  {
    var s := set k | k in t && (after.Some? ==> Less(after.value, k));
    assert forall k | k in t && (after.Some? ==> Less(after.value, k)) :: k in s;
    if s == {} {
      return None;
    }
    ghost var least := LeastExists(s);
    var m :| m in s && IsLeast(m, s);
    assert IsLeast(m, s);
    return Some(m);
  }

  // -------------------------------------------------------------------------- the walk

  /** Keys both cursors have passed. */
  predicate Done(k: Key, an: Cursor, bn: Cursor) {
    Below(k, an) && Below(k, bn)
  }

  /** A cursor on `t` passed no key that the other cursor did not. */
  ghost predicate InStep(t: Tree, c: Cursor, other: Cursor) {
    (c.Some? ==> c.value in t) && forall k | k in t && Below(k, c) :: Below(k, other)
  }

  /** The callbacks came in key order, one for each key that is done. */
  ghost predicate InTurn(calls: seq<Key>, keys: set<Key>, an: Cursor, bn: Cursor) {
    && (forall i, j | 0 <= i < j < |calls| :: Less(calls[i], calls[j]))
    && forall k :: k in calls <==> k in keys && Done(k, an, bn)
  }

  /** What the trees hold at a key when the walk is at `an` and `bn`. */
  ghost predicate Partly(kind: Kind, refuses: Refusals, a0: Tree, b0: Tree, a: Tree, b: Tree, an: Cursor, bn: Cursor) {
    forall k :: (Slot(a, k), Slot(b, k)) ==
      if Done(k, an, bn) then Settle(kind, refuses, Slot(a0, k), Slot(b0, k)) else (Slot(a0, k), Slot(b0, k))
  }

  /** A cursor stayed because it is beyond `at`, or went from `at` to the next key of the tree. */
  ghost predicate Advanced(t: Tree, c: Cursor, c2: Cursor, at: Key) {
    if c == Some(at) then IsNext(t, c, c2) else c2 == c && Below(at, c)
  }

  /** The callback for `at` moves the cursors on. */
  ghost predicate Turn(a0: Tree, b0: Tree, an: Cursor, bn: Cursor, an2: Cursor, bn2: Cursor, at: Key) {
    && InStep(a0, an, bn) && InStep(b0, bn, an)
    && Advanced(a0, an, an2, at) && Advanced(b0, bn, bn2, at) && (an == Some(at) || bn == Some(at))
  }

  lemma TurnDone(a0: Tree, b0: Tree, an: Cursor, bn: Cursor, an2: Cursor, bn2: Cursor, at: Key, k: Key)
    requires Turn(a0, b0, an, bn, an2, bn2, at)
    ensures Done(k, an, bn) <==> Less(k, at)
    ensures Less(k, at) ==> Done(k, an2, bn2)
    ensures Done(at, an2, bn2) && !Less(at, at)
    ensures (k in a0 || k in b0) && k != at ==> (Done(k, an2, bn2) <==> Less(k, at))
  {
    hide Less;
    LessTrichotomy(at, at);
    LessTrichotomy(k, at);
    if Less(k, at) {
      if an.Some? && an.value != at { LessTransitive(k, at, an.value); }
      if bn.Some? && bn.value != at { LessTransitive(k, at, bn.value); }
      if an2.Some? { LessTransitive(k, at, an2.value); }
      if bn2.Some? { LessTransitive(k, at, bn2.value); }
    }
  }

  lemma TurnInStep(a0: Tree, b0: Tree, an: Cursor, bn: Cursor, an2: Cursor, bn2: Cursor, at: Key)
    requires Turn(a0, b0, an, bn, an2, bn2, at)
    ensures InStep(a0, an2, bn2) && InStep(b0, bn2, an2)
  {
    hide Less;
    LessTrichotomy(at, at);
    forall k | k in a0 && Below(k, an2) ensures Below(k, bn2) {
      LessTrichotomy(k, at);
      TurnDone(a0, b0, an, bn, an2, bn2, at, k);
    }
    forall k | k in b0 && Below(k, bn2) ensures Below(k, an2) {
      LessTrichotomy(k, at);
      TurnDone(a0, b0, an, bn, an2, bn2, at, k);
    }
  }

  /** Beyond the callback's key the trees are still those of the start. */
  lemma NextOfStart(t: Tree, t0: Tree, at: Key, c: Cursor)
    requires forall k | Less(at, k) :: Slot(t, k) == Slot(t0, k)
    requires IsNext(t, Some(at), c)
    ensures IsNext(t0, Some(at), c)
  {
    hide Less;
    assert forall k | Less(at, k) :: k in t <==> k in t0;
  }

  lemma StartPartly(kind: Kind, refuses: Refusals, a0: Tree, b0: Tree, an: Cursor, bn: Cursor)
    requires IsNext(a0, None, an) && IsNext(b0, None, bn)
    ensures InStep(a0, an, bn) && InStep(b0, bn, an)
    ensures Partly(kind, refuses, a0, b0, a0, b0, an, bn) && InTurn([], a0.Keys + b0.Keys, an, bn)
  {
    hide Less;
    forall k ensures Done(k, an, bn) ==> k !in a0 && k !in b0 {
    }
    assert Settle(kind, refuses, None, None) == (None, None);
  }

  /** The callback for `at` settles its slots; all other slots stay. */
  ghost predicate Settled(kind: Kind, refuses: Refusals, a: Tree, b: Tree, a2: Tree, b2: Tree, at: Key) {
    && (Slot(a2, at), Slot(b2, at)) == Settle(kind, refuses, Slot(a, at), Slot(b, at))
    && forall k | k != at :: Slot(a2, k) == Slot(a, k) && Slot(b2, k) == Slot(b, k)
  }

  lemma TurnPartly(kind: Kind, refuses: Refusals, a0: Tree, b0: Tree, a: Tree, b: Tree, a2: Tree, b2: Tree,
                   an: Cursor, bn: Cursor, an2: Cursor, bn2: Cursor, at: Key)
    requires Partly(kind, refuses, a0, b0, a, b, an, bn) && Turn(a0, b0, an, bn, an2, bn2, at)
    requires Settled(kind, refuses, a, b, a2, b2, at)
    ensures Partly(kind, refuses, a0, b0, a2, b2, an2, bn2)
  {
    hide Less, Turn, Done, Settle, Outcome;
    forall k ensures (Slot(a2, k), Slot(b2, k)) ==
      if Done(k, an2, bn2) then Settle(kind, refuses, Slot(a0, k), Slot(b0, k)) else (Slot(a0, k), Slot(b0, k))
    {
      TurnDone(a0, b0, an, bn, an2, bn2, at, at);
      TurnDone(a0, b0, an, bn, an2, bn2, at, k);
      SettleNothing(kind, refuses);
      assert (Slot(a, k), Slot(b, k)) ==
        if Done(k, an, bn) then Settle(kind, refuses, Slot(a0, k), Slot(b0, k)) else (Slot(a0, k), Slot(b0, k));
    }
  }

  lemma SettleNothing(kind: Kind, refuses: Refusals)
    ensures Settle(kind, refuses, None, None) == (None, None)
  {
  }

  lemma TurnInTurn(a0: Tree, b0: Tree, calls: seq<Key>, an: Cursor, bn: Cursor, an2: Cursor, bn2: Cursor, at: Key)
    requires InTurn(calls, a0.Keys + b0.Keys, an, bn) && Turn(a0, b0, an, bn, an2, bn2, at)
    ensures InTurn(calls + [at], a0.Keys + b0.Keys, an2, bn2)
  {
    hide Less, Done;
    forall k ensures k in calls + [at] <==> k in a0.Keys + b0.Keys && Done(k, an2, bn2) {
      TurnDone(a0, b0, an, bn, an2, bn2, at, k);
    }
    forall i | 0 <= i < |calls| ensures Less(calls[i], at) {
      assert calls[i] in calls;
      TurnDone(a0, b0, an, bn, an2, bn2, at, calls[i]);
    }
  }

  lemma PartlyWhole(kind: Kind, refuses: Refusals, a0: Tree, b0: Tree, a: Tree, b: Tree)
    requires Partly(kind, refuses, a0, b0, a, b, None, None)
    ensures (a, b) == Outcome(kind, refuses, a0, b0)
  {
    hide Settle;
    SettleNothing(kind, refuses);
    forall k ensures (Slot(a, k), Slot(b, k)) == Settle(kind, refuses, Slot(a0, k), Slot(b0, k)) {
      assert Done(k, None, None);
    }
    var (oa, ob) := Outcome(kind, refuses, a0, b0);
    forall k ensures Slot(oa, k) == Slot(a, k) && Slot(ob, k) == Slot(b, k) {
    }
    SameSlots(oa, a);
    SameSlots(ob, b);
  }

  lemma SameSlots(a: Tree, b: Tree)
    requires forall k :: Slot(a, k) == Slot(b, k)
    ensures a == b
  {
    forall k ensures k in a <==> k in b {
      assert Slot(a, k) == Slot(b, k);
    }
    forall k | k in a ensures a[k] == b[k] {
      assert Slot(a, k) == Slot(b, k);
    }
  }

  /** The callback that is due finds the slots of its key as they were, and the other tree without the key. */
  lemma TurnSlots(kind: Kind, refuses: Refusals, a0: Tree, b0: Tree, a: Tree, b: Tree, an: Cursor, bn: Cursor, at: Key)
    requires Partly(kind, refuses, a0, b0, a, b, an, bn) && InStep(a0, an, bn) && InStep(b0, bn, an)
    requires (an == Some(at) && Below(at, bn)) || (bn == Some(at) && Below(at, an)) || (an == bn == Some(at))
    ensures Slot(a, at) == Slot(a0, at) && Slot(b, at) == Slot(b0, at)
    ensures at in a0 <==> an == Some(at)
    ensures at in b0 <==> bn == Some(at)
    ensures forall k | Less(at, k) :: Slot(a, k) == Slot(a0, k) && Slot(b, k) == Slot(b0, k)
  {
    hide Less, Settle;
    LessTrichotomy(at, at);
    assert !Done(at, an, bn);
    forall k | Less(at, k) ensures Slot(a, k) == Slot(a0, k) && Slot(b, k) == Slot(b0, k) {
      LessTrichotomy(at, k);
      assert !Done(k, an, bn);
    }
  }

  ghost function Undone(keys: set<Key>, an: Cursor, bn: Cursor): set<Key> {
    set k | k in keys && !Done(k, an, bn)
  }

  lemma TurnShrinks(a0: Tree, b0: Tree, an: Cursor, bn: Cursor, an2: Cursor, bn2: Cursor, at: Key)
    requires Turn(a0, b0, an, bn, an2, bn2, at)
    ensures Undone(a0.Keys + b0.Keys, an2, bn2) < Undone(a0.Keys + b0.Keys, an, bn)
  {
    hide Less, Done;
    var keys := a0.Keys + b0.Keys;
    TurnDone(a0, b0, an, bn, an2, bn2, at, at);
    assert at in keys;
    forall k | k in Undone(keys, an2, bn2) ensures k in Undone(keys, an, bn) {
      TurnDone(a0, b0, an, bn, an2, bn2, at, k);
    }
    assert at in Undone(keys, an, bn) && at !in Undone(keys, an2, bn2);
  }

  /** No callback so far ended the program. */
  ghost predicate Unaborted(kind: Kind, refuses: Refusals, a0: Tree, b0: Tree, an: Cursor, bn: Cursor) {
    forall k | Done(k, an, bn) :: !Aborts(kind, refuses, Slot(a0, k), Slot(b0, k))
  }

  lemma StartUnaborted(kind: Kind, refuses: Refusals, a0: Tree, b0: Tree, an: Cursor, bn: Cursor)
    requires IsNext(a0, None, an) && IsNext(b0, None, bn)
    ensures Unaborted(kind, refuses, a0, b0, an, bn)
  {
    hide Less;
  }

  lemma TurnUnaborted(kind: Kind, refuses: Refusals, a0: Tree, b0: Tree,
                      an: Cursor, bn: Cursor, an2: Cursor, bn2: Cursor, at: Key)
    requires Unaborted(kind, refuses, a0, b0, an, bn) && Turn(a0, b0, an, bn, an2, bn2, at)
    requires !Aborts(kind, refuses, Slot(a0, at), Slot(b0, at))
    ensures Unaborted(kind, refuses, a0, b0, an2, bn2)
  {
    hide Less, Turn, Done, Aborts;
    forall k | Done(k, an2, bn2) ensures !Aborts(kind, refuses, Slot(a0, k), Slot(b0, k)) {
      TurnDone(a0, b0, an, bn, an2, bn2, at, k);
      NothingAborts(kind, refuses);
    }
  }

  lemma NothingAborts(kind: Kind, refuses: Refusals)
    ensures !Aborts(kind, refuses, None, None)
  {
  }

  lemma WalkUnaborted(kind: Kind, refuses: Refusals, a0: Tree, b0: Tree)
    requires Unaborted(kind, refuses, a0, b0, None, None)
    ensures !TreeAborts(kind, refuses, a0, b0)
  {
    hide Aborts;
    forall k ensures !Aborts(kind, refuses, Slot(a0, k), Slot(b0, k)) {
      assert Done(k, None, None);
    }
  }

  /** One pair of trees, the live and the new one, that a walk makes alike. */
  class Request {
    const kind: Kind
    const refuses: Refusals
    var conf: Tree
    var newconf: Tree
    /** Whether a failed rollback ended the program. */
    var aborted: bool
    ghost var calls: seq<Key>

    constructor (kind: Kind, refuses: Refusals, conf: Tree, newconf: Tree)
      ensures this.kind == kind && this.refuses == refuses
      ensures this.conf == conf && this.newconf == newconf && calls == [] && !aborted
    {
      this.kind, this.refuses, this.conf, this.newconf, aborted := kind, refuses, conf, newconf, false;
      calls := [];
    }

    /** `cce_add`, `cle_add` and `cls_add`. */
    method Add(k: Key)
      requires k in newconf && k !in conf
      modifies this`conf, this`newconf
      ensures Settled(kind, refuses, old(conf), old(newconf), conf, newconf, k)
    {
      var a := newconf[k];
      newconf := newconf - {k};
      conf := conf[k := a];
      if refuses(a.ptr) {
        conf := conf - {k};
        newconf := newconf[k := a];
      }
    }

    /** `cce_del`, `cle_del` and `cls_del`. */
    method Del(k: Key)
      requires k in conf && k !in newconf
      modifies this`conf, this`newconf
      ensures Settled(kind, refuses, old(conf), old(newconf), conf, newconf, k)
    {
      var a := conf[k];
      conf := conf - {k};
      newconf := newconf[k := a];
    }

    /** `cce_mod` and `cle_mod`, whose rollback deletes the old entry where the other inserts it; `cls_mod`. */
    method Mod(k: Key)
      requires k in conf && k in newconf && ItemOk(kind, conf[k]) && ItemOk(kind, newconf[k]) && !aborted
      modifies this`conf, this`newconf, this`aborted
      ensures aborted <==> Aborts(kind, refuses, Slot(old(conf), k), Slot(old(newconf), k))
      ensures !aborted ==> Settled(kind, refuses, old(conf), old(newconf), conf, newconf, k)
      decreases kind.Sockets?, 1
    {
      if kind.Sockets? {
        ModSocket(k);
      } else {
        ModEntry(k);
      }
    }

    method ModSocket(k: Key)
      requires kind.Sockets? && !aborted
      requires k in conf && k in newconf && ItemOk(kind, conf[k]) && ItemOk(kind, newconf[k])
      modifies this`conf, this`newconf, this`aborted
      ensures aborted <==> Aborts(kind, refuses, Slot(old(conf), k), Slot(old(newconf), k))
      ensures !aborted ==> Settled(kind, refuses, old(conf), old(newconf), conf, newconf, k)
      decreases true, 0
    {
      hide Outcome;
      var a, b := conf[k], newconf[k];
      var op := new Request(Listen, refuses, a.entries, b.entries);
      op.Diff();
      if op.aborted {
        aborted := true;
        return;
      }
      conf := conf[k := Socket(a.ptr, op.conf)];
      newconf := newconf[k := Socket(b.ptr, op.newconf)];
    }

    method ModEntry(k: Key)
      requires !kind.Sockets? && k in conf && k in newconf && conf[k].Entry? && newconf[k].Entry? && !aborted
      modifies this`conf, this`newconf, this`aborted
      ensures aborted <==> Aborts(kind, refuses, Slot(old(conf), k), Slot(old(newconf), k))
      ensures !aborted ==> Settled(kind, refuses, old(conf), old(newconf), conf, newconf, k)
    {
      hide SameSettings, Outcome, Settle, Settled;
      var a, b := conf[k], newconf[k];
      SettleEntries(kind, refuses, a, b);
      if !SameSettings(kind, a.settings, b.settings) {
        Swap(k);
        if refuses(b.ptr) {
          Rollback(k, a);
        } else {
          newconf := newconf[k := a];
        }
      }
      SlotsSet(kind, refuses, old(conf), old(newconf), conf, newconf, k);
    }

    /** The new entry takes the place of the old one, which is then in neither tree. */
    method Swap(k: Key)
      requires k in conf && k in newconf
      modifies this`conf, this`newconf
      ensures conf == old(conf)[k := old(newconf)[k]] && newconf == old(newconf) - {k}
    {
      var b := newconf[k];
      conf := conf - {k};
      newconf := newconf - {k};
      conf := conf[k := b];
    }

    /** The new entry did not start: `cle_mod` deletes the old one, which is in no tree, where `cce_mod` inserts it. */
    method Rollback(k: Key, a: Item)
      requires k in conf && !aborted
      modifies this`conf, this`newconf, this`aborted
      ensures conf == if kind.Connect? then old(conf)[k := a] else old(conf) - {k}
      ensures newconf == old(newconf)[k := old(conf)[k]] && aborted == refuses(a.ptr)
    {
      var b := conf[k];
      conf := conf - {k};
      newconf := newconf[k := b];
      if kind.Connect? {
        conf := conf[k := a];
      } else {
        conf := conf - {k};
      }
      if refuses(a.ptr) {
        aborted := true;
      }
    }

    /** `avl_diff`: the cursors run on trees that the callbacks change. */
    method Diff()
      requires WellFormed(kind, conf) && WellFormed(kind, newconf) && calls == [] && !aborted
      modifies this
      ensures aborted <==> TreeAborts(kind, refuses, old(conf), old(newconf))
      ensures !aborted ==> (conf, newconf) == Outcome(kind, refuses, old(conf), old(newconf))
      ensures !aborted ==> InTurn(calls, old(conf).Keys + old(newconf).Keys, None, None)
      decreases kind.Sockets?, 3
    {
      hide Partly, InStep, InTurn, Settled, Turn, IsNext, Outcome, Undone, Below, Unaborted, TreeAborts;
      ghost var a0, b0 := conf, newconf;
      var an := NextIn(conf, None);
      var bn := NextIn(newconf, None);
      StartPartly(kind, refuses, a0, b0, an, bn);
      StartUnaborted(kind, refuses, a0, b0, an, bn);
      while an.Some? || bn.Some?
        invariant Partly(kind, refuses, a0, b0, conf, newconf, an, bn) && !aborted
        invariant InStep(a0, an, bn) && InStep(b0, bn, an) && InTurn(calls, a0.Keys + b0.Keys, an, bn)
        invariant Unaborted(kind, refuses, a0, b0, an, bn)
        decreases Undone(a0.Keys + b0.Keys, an, bn)
      {
        an, bn := Advance(a0, b0, an, bn);
        if aborted {
          return;
        }
      }
      PartlyWhole(kind, refuses, a0, b0, conf, newconf);
      WalkUnaborted(kind, refuses, a0, b0);
    }

    /** One turn of the walk: the next positions are found before the callback moves anything. */
    method Advance(ghost a0: Tree, ghost b0: Tree, an: Cursor, bn: Cursor) returns (an2: Cursor, bn2: Cursor)
      requires (an.Some? || bn.Some?) && !aborted
      requires WellFormed(kind, a0) && WellFormed(kind, b0)
      requires Partly(kind, refuses, a0, b0, conf, newconf, an, bn)
      requires InStep(a0, an, bn) && InStep(b0, bn, an) && InTurn(calls, a0.Keys + b0.Keys, an, bn)
      requires Unaborted(kind, refuses, a0, b0, an, bn)
      modifies this
      ensures aborted ==> TreeAborts(kind, refuses, a0, b0)
      ensures !aborted ==>
                && Partly(kind, refuses, a0, b0, conf, newconf, an2, bn2)
                && InStep(a0, an2, bn2) && InStep(b0, bn2, an2) && InTurn(calls, a0.Keys + b0.Keys, an2, bn2)
                && Unaborted(kind, refuses, a0, b0, an2, bn2)
                && Undone(a0.Keys + b0.Keys, an2, bn2) < Undone(a0.Keys + b0.Keys, an, bn)
      decreases kind.Sockets?, 2
    {
      hide Partly, InStep, InTurn, Settled, IsNext, Outcome, Undone, Less, Settle, Unaborted, Aborts;
      an2, bn2 := an, bn;
      ghost var a, b := conf, newconf;
      if an.Some? && bn.Some? {
        LessTrichotomy(an.value, bn.value);
      }
      var at := if an.Some? && Below(an.value, bn) then an.value else bn.value;
      TurnSlots(kind, refuses, a0, b0, a, b, an, bn, at);
      if an == Some(at) {
        an2 := NextIn(conf, an);
        NextOfStart(a, a0, at, an2);
      }
      if bn == Some(at) {
        bn2 := NextIn(newconf, bn);
        NextOfStart(b, b0, at, bn2);
      }
      calls := calls + [at];
      if an == Some(at) && bn == Some(at) {
        Mod(at);
        if aborted {
          return;
        }
      } else if an == Some(at) {
        Del(at);
        OneSlotAborts(kind, refuses, Slot(a0, at), Slot(b0, at));
      } else {
        Add(at);
        OneSlotAborts(kind, refuses, Slot(a0, at), Slot(b0, at));
      }
      TurnPartly(kind, refuses, a0, b0, a, b, conf, newconf, an, bn, an2, bn2, at);
      TurnInStep(a0, b0, an, bn, an2, bn2, at);
      TurnInTurn(a0, b0, old(calls), an, bn, an2, bn2, at);
      TurnShrinks(a0, b0, an, bn, an2, bn2, at);
      TurnUnaborted(kind, refuses, a0, b0, an, bn, an2, bn2, at);
    }
  }

  lemma SettleEntries(kind: Kind, refuses: Refusals, a: Item, b: Item)
    requires !kind.Sockets? && a.Entry? && b.Entry?
    ensures Settle(kind, refuses, Some(a), Some(b)) ==
            if SameSettings(kind, a.settings, b.settings) then (Some(a), Some(b))
            else if !refuses(b.ptr) then (Some(b), Some(a))
            else if kind.Connect? then (Some(a), Some(b))
            else (None, Some(b))
  {
    hide SameSettings;
  }

  lemma SlotsSet(kind: Kind, refuses: Refusals, a: Tree, b: Tree, a2: Tree, b2: Tree, at: Key)
    requires (Slot(a2, at), Slot(b2, at)) == Settle(kind, refuses, Slot(a, at), Slot(b, at))
    requires a2 == a || a2 == a - {at} || (at in a2 && a2 == a[at := a2[at]])
    requires b2 == b || b2 == b - {at} || (at in b2 && b2 == b[at := b2[at]])
    ensures Settled(kind, refuses, a, b, a2, b2, at)
  {
    hide Settle;
  }

  lemma OneSlotAborts(kind: Kind, refuses: Refusals, a: Option<Item>, b: Option<Item>)
    ensures a == None || b == None ==> !Aborts(kind, refuses, a, b)
  {
  }

  // ---------------------------------------------------------------------- what a walk does

  /** The live tree has the keys of the wanted one, with the same settings. */
  ghost predicate Alike(kind: Kind, live: Tree, wanted: Tree)
    requires WellFormed(kind, live) && WellFormed(kind, wanted)
    decreases kind.Sockets?
  {
    live.Keys == wanted.Keys && forall k | k in live ::
      if kind.Sockets? then WellFormed(Listen, live[k].entries) && WellFormed(Listen, wanted[k].entries)
                            && Alike(Listen, live[k].entries, wanted[k].entries)
      else SameSettings(kind, live[k].settings, wanted[k].settings)
  }

  lemma OutcomeAt(kind: Kind, refuses: Refusals, a: Tree, b: Tree, k: Key)
    ensures var (live, spare) := Outcome(kind, refuses, a, b);
            (Slot(live, k), Slot(spare, k)) == Settle(kind, refuses, Slot(a, k), Slot(b, k))
  {
    hide Settle;
    SettleNothing(kind, refuses);
  }

  /** When every start succeeds, the live configuration becomes the new one. */
  lemma {:induction false} NewConfigIsLive(kind: Kind, refuses: Refusals, a: Tree, b: Tree)
    requires WellFormed(kind, a) && WellFormed(kind, b) && forall p :: !refuses(p)
    ensures WellFormed(kind, Outcome(kind, refuses, a, b).0) && Alike(kind, Outcome(kind, refuses, a, b).0, b)
    ensures !TreeAborts(kind, refuses, a, b)
    decreases kind.Sockets?
  {
    hide SameFingerprint, Outcome, Aborts;
    forall k ensures !Aborts(kind, refuses, Slot(a, k), Slot(b, k)) {
      NoRefusalNoAbort(kind, refuses, Slot(a, k), Slot(b, k));
    }
    var live := Outcome(kind, refuses, a, b).0;
    forall k ensures k in live <==> k in b {
      OutcomeAt(kind, refuses, a, b, k);
      assert k in a ==> ItemOk(kind, a[k]);
      assert k in b ==> ItemOk(kind, b[k]);
    }
    forall k | k in live
      ensures k in b && ItemOk(kind, live[k])
      ensures !kind.Sockets? ==> SameSettings(kind, live[k].settings, b[k].settings)
      ensures kind.Sockets? ==> WellFormed(Listen, live[k].entries) && WellFormed(Listen, b[k].entries)
                                && Alike(Listen, live[k].entries, b[k].entries)
    {
      OutcomeAt(kind, refuses, a, b, k);
      assert ItemOk(kind, b[k]);
      SameSettingsReflexive(kind, b[k]);
      if k in a {
        assert ItemOk(kind, a[k]);
        if kind.Sockets? {
          NewConfigIsLive(Listen, refuses, a[k].entries, b[k].entries);
        }
      } else if kind.Sockets? {
        AlikeReflexive(b[k].entries);
      }
    }
  }

  /** Without a failing start nothing ends the program. */
  lemma {:induction false} NoRefusalNoAbort(kind: Kind, refuses: Refusals, a: Option<Item>, b: Option<Item>)
    requires forall p :: !refuses(p)
    ensures !Aborts(kind, refuses, a, b)
    decreases kind.Sockets?
  {
    if kind.Sockets? && a.Some? && b.Some? && a.value.Socket? && b.value.Socket? {
      forall k ensures !Aborts(Listen, refuses, Slot(a.value.entries, k), Slot(b.value.entries, k)) {
        NoRefusalNoAbort(Listen, refuses, Slot(a.value.entries, k), Slot(b.value.entries, k));
      }
    }
  }

  lemma SameSettingsReflexive(kind: Kind, i: Item)
    ensures i.Entry? ==> SameSettings(kind, i.settings, i.settings)
  {
  }

  lemma AlikeReflexive(t: Tree)
    requires WellFormed(Listen, t)
    ensures Alike(Listen, t, t)
  {
  }

  /** The objects in the two slots of a key. */
  function Held(a: Option<Item>, b: Option<Item>): multiset<Item> {
    (if a.Some? then multiset{a.value} else multiset{}) + (if b.Some? then multiset{b.value} else multiset{})
  }

  /** The rollback of a changed listen entry whose new form fails to start loses the old entry. */
  predicate Loses(kind: Kind, refuses: Refusals, a: Option<Item>, b: Option<Item>) {
    && kind.Listen? && a.Some? && b.Some? && a.value.Entry? && b.value.Entry?
    && !SameSettings(kind, a.value.settings, b.value.settings) && refuses(b.value.ptr)
  }

  lemma SettleKeeps(kind: Kind, refuses: Refusals, a: Option<Item>, b: Option<Item>)
    requires !kind.Sockets? && (a.Some? ==> ItemOk(kind, a.value)) && (b.Some? ==> ItemOk(kind, b.value))
    ensures var (x, y) := Settle(kind, refuses, a, b); Held(x, y) == Held(a, b) <==> !Loses(kind, refuses, a, b)
  {
    hide SameSettings, Held, Outcome;
    HeldFacts(a, b);
    SettleCases(kind, refuses, a, b);
  }

  lemma HeldFacts(a: Option<Item>, b: Option<Item>)
    ensures Held(a, b) == Held(b, a)
    ensures a.Some? ==> Held(None, b) != Held(a, b)
  {
    if a.Some? {
      assert |Held(a, b)| == |Held(None, b)| + 1;
    }
  }

  lemma SettleCases(kind: Kind, refuses: Refusals, a: Option<Item>, b: Option<Item>)
    requires !kind.Sockets? && (a.Some? ==> ItemOk(kind, a.value)) && (b.Some? ==> ItemOk(kind, b.value))
    ensures var r := Settle(kind, refuses, a, b);
            if Loses(kind, refuses, a, b) then r == (None, b) && a.Some? else r == (a, b) || r == (b, a)
  {
    hide SameSettings;
  }

  /**
   * Every entry object ends in exactly one of the two trees, where it stays under its key,
   * exactly if no changed listen entry fails to start.
   */
  lemma EntriesKept(kind: Kind, refuses: Refusals, a: Tree, b: Tree)
    requires !kind.Sockets? && WellFormed(kind, a) && WellFormed(kind, b)
    ensures var (live, spare) := Outcome(kind, refuses, a, b);
            (forall k :: Held(Slot(live, k), Slot(spare, k)) == Held(Slot(a, k), Slot(b, k)))
            <==> forall k :: !Loses(kind, refuses, Slot(a, k), Slot(b, k))
  {
    hide Settle, Outcome, Held, Loses;
    var (live, spare) := Outcome(kind, refuses, a, b);
    forall k ensures Held(Slot(live, k), Slot(spare, k)) == Held(Slot(a, k), Slot(b, k)) <==>
                     !Loses(kind, refuses, Slot(a, k), Slot(b, k))
    {
      OutcomeAt(kind, refuses, a, b, k);
      assert k in a ==> ItemOk(kind, a[k]);
      assert k in b ==> ItemOk(kind, b[k]);
      SettleKeeps(kind, refuses, Slot(a, k), Slot(b, k));
    }
  }

  /** What the configurations compare of an entry. */
  function Compared(kind: Kind, s: Settings): Settings {
    s.(hostname := if kind.Connect? then s.hostname else [], port := if kind.Connect? then s.port else [],
       fingerprint := if s.fpType.FpMatch? then s.fingerprint else [],
       connLimit := if kind.Listen? then s.connLimit else 0)
  }

  /**
   * The entry that is live under a key afterwards: the old object if nothing compared differs;
   * else the new one if it starts; else, of a connect entry, the old one, which is started again.
   */
  lemma LiveEntry(kind: Kind, refuses: Refusals, a: Tree, b: Tree, k: Key)
    requires !kind.Sockets? && WellFormed(kind, a) && WellFormed(kind, b)
    ensures var live := Outcome(kind, refuses, a, b).0;
            && (k !in b ==> k !in live)
            && (k in b && k in a && Compared(kind, a[k].settings) == Compared(kind, b[k].settings) ==>
                  Slot(live, k) == Some(a[k]))
            && (k in b && (k in a ==> Compared(kind, a[k].settings) != Compared(kind, b[k].settings)) ==>
                  Slot(live, k) == if !refuses(b[k].ptr) then Some(b[k])
                                   else if k in a && kind.Connect? then Some(a[k]) else None)
  {
    hide Outcome;
    OutcomeAt(kind, refuses, a, b, k);
    assert k in a ==> ItemOk(kind, a[k]);
    assert k in b ==> ItemOk(kind, b[k]);
  }

  /** A walk of entries aborts exactly if a changed entry starts neither in its new nor in its old form. */
  lemma AbortsWithoutEither(kind: Kind, refuses: Refusals, a: Tree, b: Tree)
    requires !kind.Sockets? && WellFormed(kind, a) && WellFormed(kind, b)
    ensures TreeAborts(kind, refuses, a, b) <==>
            exists k | k in a && k in b ::
              Compared(kind, a[k].settings) != Compared(kind, b[k].settings) && refuses(a[k].ptr) && refuses(b[k].ptr)
  {
    if TreeAborts(kind, refuses, a, b) {
      var k :| Aborts(kind, refuses, Slot(a, k), Slot(b, k));
      assert k in a && k in b;
    }
    if k :| k in a && k in b && Compared(kind, a[k].settings) != Compared(kind, b[k].settings)
            && refuses(a[k].ptr) && refuses(b[k].ptr) {
      assert ItemOk(kind, a[k]) && ItemOk(kind, b[k]);
      assert Aborts(kind, refuses, Slot(a, k), Slot(b, k));
    }
  }

  /** A walk of sockets aborts exactly if that of the entries of a socket in both trees does. */
  lemma SocketsAbort(refuses: Refusals, a: Tree, b: Tree)
    requires WellFormed(Sockets, a) && WellFormed(Sockets, b)
    ensures TreeAborts(Sockets, refuses, a, b) <==>
            exists k | k in a && k in b :: TreeAborts(Listen, refuses, a[k].entries, b[k].entries)
  {
    if TreeAborts(Sockets, refuses, a, b) {
      var k :| Aborts(Sockets, refuses, Slot(a, k), Slot(b, k));
      assert k in a && k in b && TreeAborts(Listen, refuses, a[k].entries, b[k].entries);
    }
    if k :| k in a && k in b && TreeAborts(Listen, refuses, a[k].entries, b[k].entries) {
      assert ItemOk(Sockets, a[k]) && ItemOk(Sockets, b[k]);
      assert Aborts(Sockets, refuses, Slot(a, k), Slot(b, k));
    }
  }

  /** Listening sockets stay or change sides whole; those in both trees stay and have their entries walked. */
  lemma SocketsKept(refuses: Refusals, a: Tree, b: Tree, k: Key)
    requires WellFormed(Sockets, a) && WellFormed(Sockets, b)
    ensures var (live, spare) := Outcome(Sockets, refuses, a, b);
            if k in a && k in b then
              && k in live && k in spare && live[k].Socket? && spare[k].Socket?
              && live[k].ptr == a[k].ptr && spare[k].ptr == b[k].ptr
              && (live[k].entries, spare[k].entries) == Outcome(Listen, refuses, a[k].entries, b[k].entries)
            else Held(Slot(live, k), Slot(spare, k)) == Held(Slot(a, k), Slot(b, k))
  {
    hide Outcome;
    OutcomeAt(Sockets, refuses, a, b, k);
    assert k in a ==> ItemOk(Sockets, a[k]);
    assert k in b ==> ItemOk(Sockets, b[k]);
  }

  /** `diff_configs`: an abort among the connect entries ends it before the sockets are looked at. */
  method DiffConfigs(connects: Request, sockets: Request)
    requires connects != sockets && connects.kind == Connect && sockets.kind == Sockets
    requires connects.calls == [] && sockets.calls == [] && !connects.aborted && !sockets.aborted
    requires WellFormed(Connect, connects.conf) && WellFormed(Connect, connects.newconf)
    requires WellFormed(Sockets, sockets.conf) && WellFormed(Sockets, sockets.newconf)
    modifies connects, sockets
    ensures connects.aborted <==> TreeAborts(Connect, connects.refuses, old(connects.conf), old(connects.newconf))
    ensures sockets.aborted <==>
              !connects.aborted && TreeAborts(Sockets, sockets.refuses, old(sockets.conf), old(sockets.newconf))
    ensures !connects.aborted ==>
              (connects.conf, connects.newconf) ==
              Outcome(Connect, connects.refuses, old(connects.conf), old(connects.newconf))
    ensures !connects.aborted && !sockets.aborted ==>
              (sockets.conf, sockets.newconf) ==
              Outcome(Sockets, sockets.refuses, old(sockets.conf), old(sockets.newconf))
  {
    connects.Diff();
    if connects.aborted {
      return;
    }
    sockets.Diff();
  }
}
