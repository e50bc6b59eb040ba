/**
 * What Dijkstra's search knows at each step, over maps instead of node fields.
 * `Spf` shows that the heap-based code takes exactly these steps.
 */
module Dijkstra {
  import opened Bytes
  import opened Graphs

  const INT_MAX: int := 0x7fff_ffff

  /**
   * Tentative costs and parents, the vertices already taken from the queue, and for each
   * reached vertex a walk that has its cost.
   */
  datatype State<V> = State(cost: map<V, int>, parent: map<V, Option<V>>, done: set<V>,
                            walk: map<V, seq<Edge<V>>>)

  /** Edge `i` of `d` has been relaxed; `cur` is being expanded and has relaxed its first `k`. */
  ghost predicate Processed<V>(g: Graph<V>, st: State<V>, cur: Option<V>, k: nat, d: V, i: int) {
    d in st.done && d in g && 0 <= i < |g[d]| && (cur == Some(d) ==> i < k)
  }

  ghost predicate Shape<V>(g: Graph<V>, ids: map<V, NodeId>, s: V, st: State<V>) {
    && s in g && Closed(g) && NonNegative(g) && ids.Keys == g.Keys
    && st.cost.Keys == g.Keys && st.parent.Keys == g.Keys && st.done <= g.Keys
    && st.cost[s] == 0
    && (forall v | v in g :: 0 <= st.cost[v] <= INT_MAX)
    && (forall d | d in st.done :: st.cost[d] < INT_MAX)
  }

  /** A finite cost is the cost of some walk. */
  ghost predicate WalkKnown<V>(g: Graph<V>, s: V, st: State<V>, v: V)
    requires v in st.cost
  {
    st.cost[v] < INT_MAX ==>
      v in st.walk && IsWalk(g, s, st.walk[v]) && End(s, st.walk[v]) == v && Cost(st.walk[v]) == st.cost[v]
  }

  ghost predicate Sound<V>(g: Graph<V>, s: V, st: State<V>)
    requires st.cost.Keys == g.Keys
  {
    forall v {:trigger WalkKnown(g, s, st, v)} | v in g :: WalkKnown(g, s, st, v)
  }

  ghost predicate Monotone<V>(g: Graph<V>, st: State<V>)
    requires st.cost.Keys == g.Keys && st.done <= g.Keys
  {
    forall d, q | d in st.done && q in g && q !in st.done :: st.cost[d] <= st.cost[q]
  }

  ghost predicate Relaxed<V>(g: Graph<V>, st: State<V>, cur: Option<V>, k: nat)
    requires st.cost.Keys == g.Keys && Closed(g)
  {
    forall d, i | d in g && Processed(g, st, cur, k, d, i) :: st.cost[g[d][i].to] <= st.cost[d] + g[d][i].cost
  }

  /** Edge `i` of `p` realises the cost of `v`. */
  ghost predicate Tight<V>(g: Graph<V>, cost: map<V, int>, p: V, i: int, v: V)
    requires cost.Keys == g.Keys
  {
    p in g && v in g && 0 <= i < |g[p]| && g[p][i].to == v && cost[p] + g[p][i].cost == cost[v]
  }

  /** `v`'s parent realises its cost. */
  ghost predicate HasParent<V>(g: Graph<V>, st: State<V>, cur: Option<V>, k: nat, v: V)
    requires v in st.parent && st.cost.Keys == g.Keys
  {
    && st.parent[v].Some?
    && st.parent[v].value in g
    && exists i :: Processed(g, st, cur, k, st.parent[v].value, i) && Tight(g, st.cost, st.parent[v].value, i, v)
  }

  /** No relaxed edge that realises `v`'s cost comes from a smaller id than its parent's. */
  ghost predicate LeastParent<V>(g: Graph<V>, ids: map<V, NodeId>, st: State<V>, cur: Option<V>, k: nat, v: V)
    requires v in st.parent && st.cost.Keys == g.Keys && ids.Keys == g.Keys
  {
    && st.parent[v].Some?
    && st.parent[v].value in g
    && forall d, i | d in g && Processed(g, st, cur, k, d, i) && Tight(g, st.cost, d, i, v) ::
         d == st.parent[v].value || Less(ids[st.parent[v].value], ids[d])
  }

  /** What the search knows about `v`'s parent. */
  ghost predicate ParentKnown<V>(g: Graph<V>, ids: map<V, NodeId>, s: V, st: State<V>, cur: Option<V>, k: nat, v: V)
    requires v in g && st.cost.Keys == g.Keys && st.parent.Keys == g.Keys && ids.Keys == g.Keys
  {
    if v == s || st.cost[v] == INT_MAX then st.parent[v] == None
    else HasParent(g, st, cur, k, v) && LeastParent(g, ids, st, cur, k, v)
  }

  ghost predicate Parents<V>(g: Graph<V>, ids: map<V, NodeId>, s: V, st: State<V>, cur: Option<V>, k: nat)
    requires st.cost.Keys == g.Keys && st.parent.Keys == g.Keys && ids.Keys == g.Keys
  {
    forall v {:trigger ParentKnown(g, ids, s, st, cur, k, v)} | v in g :: ParentKnown(g, ids, s, st, cur, k, v)
  }

  /** No relaxed edge is a free way back to the source. */
  ghost predicate SourceClear<V>(g: Graph<V>, s: V, st: State<V>, cur: Option<V>, k: nat)
    requires st.cost.Keys == g.Keys
  {
    forall d, i | d in g && Processed(g, st, cur, k, d, i) && g[d][i].to == s :: 0 < st.cost[d] + g[d][i].cost
  }

  ghost predicate Inv<V>(g: Graph<V>, ids: map<V, NodeId>, s: V, st: State<V>, cur: Option<V>, k: nat) {
    && Shape(g, ids, s, st)
    && (cur.Some? ==>
          && cur.value in st.done && k <= |g[cur.value]|
          && (forall d | d in st.done :: st.cost[d] <= st.cost[cur.value]))
    && Sound(g, s, st)
    && Monotone(g, st)
    && Relaxed(g, st, cur, k)
    && Parents(g, ids, s, st, cur, k)
    && SourceClear(g, s, st, cur, k)
  }

  ghost function InitialState<V>(g: Graph<V>, s: V): State<V> {
    State(map v | v in g :: if v == s then 0 else INT_MAX, map v | v in g :: None, {}, map[s := []])
  }

  lemma InitInv<V>(g: Graph<V>, ids: map<V, NodeId>, s: V)
    requires s in g && Closed(g) && NonNegative(g) && ids.Keys == g.Keys
    ensures Inv(g, ids, s, InitialState(g, s), None, 0) && StepsFit(g, InitialState(g, s))
  {
  }

  /** Takes `v` from the queue. */
  lemma PopInv<V>(g: Graph<V>, ids: map<V, NodeId>, s: V, st: State<V>, v: V)
    requires Inv(g, ids, s, st, None, 0)
    requires v in g && v !in st.done && st.cost[v] < INT_MAX
    requires forall q | q in g && q !in st.done :: st.cost[v] <= st.cost[q]
    ensures Inv(g, ids, s, st.(done := st.done + {v}), Some(v), 0)
  {
    var st' := st.(done := st.done + {v});
    forall d, i | Processed(g, st', Some(v), 0, d, i) ensures Processed(g, st, None, 0, d, i) {}
    forall d, i | Processed(g, st, None, 0, d, i) ensures Processed(g, st', Some(v), 0, d, i) {}
    forall u | u in g ensures ParentKnown(g, ids, s, st', Some(v), 0, u) {
      assert ParentKnown(g, ids, s, st, None, 0, u);
    }
    forall u | u in g ensures WalkKnown(g, s, st', u) {
      assert WalkKnown(g, s, st, u);
    }
  }

  /** The vertex `v` taken from the queue already has its least cost. */
  lemma {:induction false} PopIsLeast<V>(g: Graph<V>, ids: map<V, NodeId>, s: V, st: State<V>, v: V, w: seq<Edge<V>>)
    requires Inv(g, ids, s, st, None, 0)
    requires v in g && v !in st.done
    requires forall q | q in g && q !in st.done :: st.cost[v] <= st.cost[q]
    requires IsWalk(g, s, w)
    ensures End(s, w) in g
    ensures st.cost[v] <= Cost(w) || (End(s, w) in st.done && st.cost[End(s, w)] <= Cost(w))
  {
    WalkStays(g, s, w);
    if w != [] {
      PopIsLeast(g, ids, s, st, v, Init(w));
      var u := End(s, Init(w));
      var i :| 0 <= i < |g[u]| && g[u][i] == Last(w);
      if u in st.done {
        assert Processed(g, st, None, 0, u, i);
      }
    }
  }

  /** What one edge does to a state; `None` is the abort in `nl` or its missing parent. */
  ghost function Relax<V>(ids: map<V, NodeId>, st: State<V>, from: V, e: Edge<V>): Option<State<V>>
    requires from in st.cost && from in ids && from in st.walk && e.to in st.cost && e.to in st.parent
    requires st.parent[e.to].Some? ==> st.parent[e.to].value in ids
  {
    var c := st.cost[from] + e.cost;
    if c < st.cost[e.to] then
      Some(st.(cost := st.cost[e.to := c], parent := st.parent[e.to := Some(from)],
               walk := st.walk[e.to := st.walk[from] + [e]]))
    else if c > st.cost[e.to] then Some(st)
    else if st.parent[e.to] == None || ids[st.parent[e.to].value] == ids[from] then None
    else if Less(ids[from], ids[st.parent[e.to].value]) then Some(st.(parent := st.parent[e.to := Some(from)]))
    else Some(st)
  }

  lemma ParentsHaveIds<V>(g: Graph<V>, ids: map<V, NodeId>, s: V, st: State<V>, cur: Option<V>, k: nat)
    requires Inv(g, ids, s, st, cur, k)
    ensures forall v | v in st.parent && st.parent[v].Some? :: st.parent[v].value in ids
  {
    forall v | v in st.parent && st.parent[v].Some? ensures st.parent[v].value in ids {
      assert ParentKnown(g, ids, s, st, cur, k, v);
      var i :| Processed(g, st, cur, k, st.parent[v].value, i) && Tight(g, st.cost, st.parent[v].value, i, v);
    }
  }

  ghost predicate CanRelax<V>(g: Graph<V>, ids: map<V, NodeId>, s: V, st: State<V>, from: V, k: nat) {
    && Inv(g, ids, s, st, Some(from), k)
    && k < |g[from]|
    && st.cost[from] + g[from][k].cost < INT_MAX
    && from in st.walk
    && (forall v | v in st.parent && st.parent[v].Some? :: st.parent[v].value in ids)
  }

  lemma RelaxInv<V>(g: Graph<V>, ids: map<V, NodeId>, s: V, st: State<V>, from: V, k: nat)
    requires CanRelax(g, ids, s, st, from, k)
    requires Relax(ids, st, from, g[from][k]).Some?
    ensures Inv(g, ids, s, Relax(ids, st, from, g[from][k]).value, Some(from), k + 1)
  {
    var e := g[from][k];
    var st' := Relax(ids, st, from, e).value;
    if st.cost[from] + e.cost < st.cost[e.to] {
      ImproveInv(g, ids, s, st, from, k, st');
    } else {
      TieInv(g, ids, s, st, from, k, st');
    }
  }

  lemma RelaxedStep<V>(g: Graph<V>, ids: map<V, NodeId>, s: V, st: State<V>, from: V, k: nat, st': State<V>)
    requires CanRelax(g, ids, s, st, from, k)
    requires st'.cost.Keys == g.Keys && st'.done == st.done
    requires forall u | u in g :: st'.cost[u] <= st.cost[u]
    requires forall u | u in st.done :: st'.cost[u] == st.cost[u]
    requires st'.cost[g[from][k].to] <= st.cost[from] + g[from][k].cost
    ensures Relaxed(g, st', Some(from), k + 1)
  {
    forall d, i | d in g && Processed(g, st', Some(from), k + 1, d, i)
      ensures st'.cost[g[d][i].to] <= st'.cost[d] + g[d][i].cost
    {
      assert Processed(g, st, Some(from), k, d, i) || (d == from && i == k);
    }
  }

  /** A free way back to the source would have been an abort. */
  lemma ClearStep<V>(g: Graph<V>, ids: map<V, NodeId>, s: V, st: State<V>, from: V, k: nat, st': State<V>)
    requires CanRelax(g, ids, s, st, from, k)
    requires Relax(ids, st, from, g[from][k]) == Some(st')
    requires st'.cost.Keys == g.Keys && st'.done == st.done && forall u | u in st.done :: st'.cost[u] == st.cost[u]
    ensures SourceClear(g, s, st', Some(from), k + 1)
  {
    hide Sound, Monotone, Relaxed, Closed, HasParent, LeastParent;
    assert ParentKnown(g, ids, s, st, Some(from), k, s);
    assert 0 <= st.cost[from] && 0 <= g[from][k].cost;
    forall d, i | d in g && Processed(g, st', Some(from), k + 1, d, i) && g[d][i].to == s
      ensures 0 < st'.cost[d] + g[d][i].cost
    {
      if d == from && i == k {
        assert st.cost[from] + g[from][k].cost != 0;
      } else {
        assert Processed(g, st, Some(from), k, d, i);
      }
    }
  }

  lemma ImproveSound<V>(g: Graph<V>, ids: map<V, NodeId>, s: V, st: State<V>, from: V, k: nat, st': State<V>)
    requires CanRelax(g, ids, s, st, from, k)
    requires st.cost[from] + g[from][k].cost < st.cost[g[from][k].to]
    requires Relax(ids, st, from, g[from][k]) == Some(st')
    ensures Sound(g, s, st')
  {
    assert WalkKnown(g, s, st, from);
    ExtendWalk(g, s, st.walk[from], g[from][k]);
    forall v | v in g ensures WalkKnown(g, s, st', v) {
      assert WalkKnown(g, s, st, v);
    }
  }

  /** An improved vertex is still in the queue: the taken ones cost no more than `from`. */
  lemma ImproveShape<V>(g: Graph<V>, ids: map<V, NodeId>, s: V, st: State<V>, from: V, k: nat, st': State<V>)
    requires CanRelax(g, ids, s, st, from, k)
    requires st.cost[from] + g[from][k].cost < st.cost[g[from][k].to]
    requires Relax(ids, st, from, g[from][k]) == Some(st')
    ensures Shape(g, ids, s, st')
    ensures g[from][k].to !in st.done && g[from][k].to != s
  {
    hide Sound, Monotone, Relaxed, Parents, SourceClear;
  }

  lemma ImproveMonotone<V>(g: Graph<V>, ids: map<V, NodeId>, s: V, st: State<V>, from: V, k: nat, st': State<V>)
    requires CanRelax(g, ids, s, st, from, k)
    requires st.cost[from] + g[from][k].cost < st.cost[g[from][k].to]
    requires Relax(ids, st, from, g[from][k]) == Some(st')
    ensures Monotone(g, st')
  {
    hide Sound, Relaxed, Parents, SourceClear;
  }

  lemma ImproveInv<V>(g: Graph<V>, ids: map<V, NodeId>, s: V, st: State<V>, from: V, k: nat, st': State<V>)
    requires CanRelax(g, ids, s, st, from, k)
    requires st.cost[from] + g[from][k].cost < st.cost[g[from][k].to]
    requires Relax(ids, st, from, g[from][k]) == Some(st')
    ensures Inv(g, ids, s, st', Some(from), k + 1)
  {
    ImproveShape(g, ids, s, st, from, k, st');
    ImproveMonotone(g, ids, s, st, from, k, st');
    ImproveSound(g, ids, s, st, from, k, st');
    ClearStep(g, ids, s, st, from, k, st');
    RelaxedStep(g, ids, s, st, from, k, st');
    forall v | v in g ensures ParentKnown(g, ids, s, st', Some(from), k + 1, v) {
      ImproveParent(g, ids, s, st, from, k, st', v);
    }
  }

  lemma ImproveParent<V>(g: Graph<V>, ids: map<V, NodeId>, s: V, st: State<V>, from: V, k: nat, st': State<V>, v: V)
    requires CanRelax(g, ids, s, st, from, k) && v in g
    requires g[from][k].to !in st.done && g[from][k].to != s
    requires st.cost[from] + g[from][k].cost < st.cost[g[from][k].to]
    requires Relax(ids, st, from, g[from][k]) == Some(st')
    ensures ParentKnown(g, ids, s, st', Some(from), k + 1, v)
  {
    assert ParentKnown(g, ids, s, st, Some(from), k, v);
    if v == g[from][k].to {
      ImproveTarget(g, ids, s, st, from, k, st');
    } else if v != s && st.cost[v] < INT_MAX {
      OtherVertex(g, ids, s, st, from, k, st', v);
    }
  }

  lemma ImproveTarget<V>(g: Graph<V>, ids: map<V, NodeId>, s: V, st: State<V>, from: V, k: nat, st': State<V>)
    requires CanRelax(g, ids, s, st, from, k)
    requires g[from][k].to !in st.done
    requires st.cost[from] + g[from][k].cost < st.cost[g[from][k].to]
    requires Relax(ids, st, from, g[from][k]) == Some(st')
    ensures HasParent(g, st', Some(from), k + 1, g[from][k].to)
    ensures LeastParent(g, ids, st', Some(from), k + 1, g[from][k].to)
  {
    var v := g[from][k].to;
    assert Processed(g, st', Some(from), k + 1, from, k) && Tight(g, st'.cost, from, k, v);
    forall d, i | d in g && Processed(g, st', Some(from), k + 1, d, i) && Tight(g, st'.cost, d, i, v)
      ensures d == from
    {
      // an edge relaxed earlier costs at least v's previous cost
      if d != from || i != k {
        assert !Processed(g, st, Some(from), k, d, i);
      }
    }
  }

  /** A vertex the edge does not change, and does not tie with. */
  lemma OtherVertex<V>(g: Graph<V>, ids: map<V, NodeId>, s: V, st: State<V>, from: V, k: nat, st': State<V>, v: V)
    requires ids.Keys == st.cost.Keys == st.parent.Keys == g.Keys && st'.cost.Keys == st'.parent.Keys == g.Keys
    requires v in g && ParentKnown(g, ids, s, st, Some(from), k, v)
    requires from in st.done && st.done <= g.Keys && k < |g[from]| && g[from][k].to in g && st'.done == st.done
    requires forall u | u in g && (u in st.done || u == v) :: st'.cost[u] == st.cost[u]
    requires v != s && st.cost[v] != INT_MAX && st'.parent[v] == st.parent[v]
    requires v != g[from][k].to || st.cost[v] < st.cost[from] + g[from][k].cost
    ensures HasParent(g, st', Some(from), k + 1, v)
    ensures LeastParent(g, ids, st', Some(from), k + 1, v)
  {
    var p := st.parent[v].value;
    var i :| Processed(g, st, Some(from), k, p, i) && Tight(g, st.cost, p, i, v);
    assert Processed(g, st', Some(from), k + 1, p, i) && Tight(g, st'.cost, p, i, v);
    forall d, i | d in g && Processed(g, st', Some(from), k + 1, d, i) && Tight(g, st'.cost, d, i, v)
      ensures d == p || Less(ids[p], ids[d])
    {
      assert Processed(g, st, Some(from), k, d, i) && Tight(g, st.cost, d, i, v);
    }
  }

  lemma TieInv<V>(g: Graph<V>, ids: map<V, NodeId>, s: V, st: State<V>, from: V, k: nat, st': State<V>)
    requires CanRelax(g, ids, s, st, from, k)
    requires st.cost[from] + g[from][k].cost >= st.cost[g[from][k].to]
    requires Relax(ids, st, from, g[from][k]) == Some(st')
    ensures Inv(g, ids, s, st', Some(from), k + 1)
  {
    hide HasParent, LeastParent, SourceClear, Sound, Monotone, Less;
    TieSame(g, ids, s, st, st');
    ClearStep(g, ids, s, st, from, k, st');
    RelaxedStep(g, ids, s, st, from, k, st');
    forall v | v in g ensures ParentKnown(g, ids, s, st', Some(from), k + 1, v) {
      TieParent(g, ids, s, st, from, k, st', v);
    }
  }

  /** A change of parents only. */
  lemma TieSame<V>(g: Graph<V>, ids: map<V, NodeId>, s: V, st: State<V>, st': State<V>)
    requires Shape(g, ids, s, st) && Sound(g, s, st) && Monotone(g, st)
    requires st' == st.(parent := st'.parent) && st'.parent.Keys == g.Keys
    ensures Shape(g, ids, s, st') && Sound(g, s, st') && Monotone(g, st')
  {
    forall v | v in g ensures WalkKnown(g, s, st', v) {
      assert WalkKnown(g, s, st, v);
    }
  }

  lemma TieParent<V>(g: Graph<V>, ids: map<V, NodeId>, s: V, st: State<V>, from: V, k: nat, st': State<V>, v: V)
    requires CanRelax(g, ids, s, st, from, k) && v in g
    requires st.cost[from] + g[from][k].cost >= st.cost[g[from][k].to]
    requires Relax(ids, st, from, g[from][k]) == Some(st')
    ensures ParentKnown(g, ids, s, st', Some(from), k + 1, v)
  {
    assert ParentKnown(g, ids, s, st, Some(from), k, v);
    if v == s || st.cost[v] == INT_MAX {
    } else if v == g[from][k].to && st.cost[from] + g[from][k].cost == st.cost[v] {
      TieTarget(g, ids, s, st, from, k, st');
    } else {
      OtherVertex(g, ids, s, st, from, k, st', v);
    }
  }

  lemma TieTarget<V>(g: Graph<V>, ids: map<V, NodeId>, s: V, st: State<V>, from: V, k: nat, st': State<V>)
    requires CanRelax(g, ids, s, st, from, k)
    requires g[from][k].to != s
    requires st.cost[from] + g[from][k].cost == st.cost[g[from][k].to]
    requires Relax(ids, st, from, g[from][k]) == Some(st')
    ensures HasParent(g, st', Some(from), k + 1, g[from][k].to)
    ensures LeastParent(g, ids, st', Some(from), k + 1, g[from][k].to)
  {
    var v := g[from][k].to;
    assert ParentKnown(g, ids, s, st, Some(from), k, v);
    var p := st.parent[v].value;
    var p' := st'.parent[v].value;
    var i :| Processed(g, st, Some(from), k, p, i) && Tight(g, st.cost, p, i, v);
    assert Processed(g, st', Some(from), k + 1, p, i) && Tight(g, st'.cost, p, i, v);
    assert Processed(g, st', Some(from), k + 1, from, k) && Tight(g, st'.cost, from, k, v);
    LessTrichotomy(ids[from], ids[p]);
    forall d, i | d in g && Processed(g, st', Some(from), k + 1, d, i) && Tight(g, st'.cost, d, i, v)
      ensures d == p' || Less(ids[p'], ids[d])
    {
      if d != from || i != k {
        assert Processed(g, st, Some(from), k, d, i) && Tight(g, st.cost, d, i, v);
        if d != p && p' != p {
          LessTransitive(ids[from], ids[p], ids[d]);
        }
      }
    }
  }

  /** The last edge of the expanded vertex is done. */
  lemma FinishInv<V>(g: Graph<V>, ids: map<V, NodeId>, s: V, st: State<V>, v: V)
    requires v in g && Inv(g, ids, s, st, Some(v), |g[v]|)
    ensures Inv(g, ids, s, st, None, 0)
  {
    assert forall d, i :: Processed(g, st, None, 0, d, i) <==> Processed(g, st, Some(v), |g[v]|, d, i);
    forall u | u in g ensures ParentKnown(g, ids, s, st, None, 0, u) {
      assert ParentKnown(g, ids, s, st, Some(v), |g[v]|, u);
    }
  }

  /** No edge of a popped vertex overflows. */
  ghost predicate StepsFit<V>(g: Graph<V>, st: State<V>) {
    forall v, i | v in st.done && v in g && v in st.cost && 0 <= i < |g[v]| :: st.cost[v] + g[v][i].cost < INT_MAX
  }

  lemma PopFits<V>(g: Graph<V>, ids: map<V, NodeId>, s: V, st: State<V>, v: V)
    requires Inv(g, ids, s, st, None, 0) && StepsFit(g, st) && CostsBelow(g, s, INT_MAX)
    requires v in g && v !in st.done && st.cost[v] < INT_MAX
    requires forall q | q in g && q !in st.done && st.cost[q] < INT_MAX :: st.cost[v] <= st.cost[q]
    ensures StepsFit(g, st.(done := st.done + {v}))
  {
    assert WalkKnown(g, s, st, v);
    var w0 := st.walk[v];
    forall w | IsWalk(g, s, w) && End(s, w) == v ensures st.cost[v] <= Cost(w) {
      PopIsLeast(g, ids, s, st, v, w);
    }
    assert LeastCost(g, s, v, Cost(w0));
  }

  /** One round of the outer loop up to the inner loop. */
  lemma PopStep<V>(g: Graph<V>, ids: map<V, NodeId>, s: V, st: State<V>, v: V)
    requires Inv(g, ids, s, st, None, 0) && StepsFit(g, st) && CostsBelow(g, s, INT_MAX)
    requires v in g && v in st.cost && v !in st.done && st.cost[v] < INT_MAX
    requires st.cost.Keys == g.Keys
    requires forall q | q in g && q !in st.done && st.cost[q] < INT_MAX :: st.cost[v] <= st.cost[q]
    ensures Inv(g, ids, s, st.(done := st.done + {v}), Some(v), 0)
    ensures StepsFit(g, st.(done := st.done + {v}))
  {
    PopFits(g, ids, s, st, v);
    PopInv(g, ids, s, st, v);
  }

  /** The queue is empty. */
  ghost predicate Finished<V>(g: Graph<V>, ids: map<V, NodeId>, s: V, st: State<V>) {
    && Inv(g, ids, s, st, None, 0) && StepsFit(g, st)
    && forall q | q in g && q !in st.done :: st.cost[q] == INT_MAX
  }

  lemma KeepFits<V>(g: Graph<V>, st: State<V>, before: State<V>)
    requires StepsFit(g, before) && st.done == before.done
    requires st.cost.Keys == before.cost.Keys && st.done <= st.cost.Keys
    requires forall v | v in before.done :: st.cost[v] == before.cost[v]
    ensures StepsFit(g, st)
  {
  }

  lemma EmptyQueue<V>(g: Graph<V>, ids: map<V, NodeId>, s: V, st: State<V>)
    requires Inv(g, ids, s, st, None, 0) && StepsFit(g, st)
    requires forall q | q in g && q !in st.done :: st.cost[q] >= INT_MAX
    ensures Finished(g, ids, s, st)
  {
  }

  lemma {:induction false} FinalLeast<V>(g: Graph<V>, ids: map<V, NodeId>, s: V, st: State<V>, w: seq<Edge<V>>)
    requires Finished(g, ids, s, st)
    requires IsWalk(g, s, w)
    ensures End(s, w) in st.done && st.cost[End(s, w)] <= Cost(w)
  {
    if w != [] {
      FinalLeast(g, ids, s, st, Init(w));
      var u := End(s, Init(w));
      var i :| 0 <= i < |g[u]| && g[u][i] == Last(w);
      assert Processed(g, st, None, 0, u, i);
    }
  }

  /** A search that ends has shown that no free walk leads back to the source. */
  lemma FinalClear<V>(g: Graph<V>, ids: map<V, NodeId>, s: V, st: State<V>)
    requires Finished(g, ids, s, st)
    ensures NoFreeReturn(g, s)
  {
    forall w | IsWalk(g, s, w) && w != [] && End(s, w) == s ensures Cost(w) != 0 {
      var u := End(s, Init(w));
      FinalLeast(g, ids, s, st, Init(w));
      var i :| 0 <= i < |g[u]| && g[u][i] == Last(w);
      assert Processed(g, st, None, 0, u, i);
    }
  }

  /** A search that ends has computed every least cost. */
  lemma FinalCosts<V>(g: Graph<V>, ids: map<V, NodeId>, s: V, st: State<V>, v: V)
    requires Finished(g, ids, s, st) && v in g
    ensures st.cost[v] == INT_MAX <==> !Reachable(g, s, v)
    ensures st.cost[v] != INT_MAX ==> LeastCost(g, s, v, st.cost[v])
  {
    assert WalkKnown(g, s, st, v);
    forall w | IsWalk(g, s, w) && End(s, w) == v ensures st.cost[v] < INT_MAX && st.cost[v] <= Cost(w) {
      FinalLeast(g, ids, s, st, w);
    }
  }

  /**
   * `p` is the parent `v` should have: it realises `v`'s cost, and every other vertex
   * that does has a larger id. The order in which vertices and edges were added plays no part.
   */
  ghost predicate CanonicalParent<V>(g: Graph<V>, ids: map<V, NodeId>, cost: map<V, int>, v: V, p: V)
    requires cost.Keys == g.Keys && ids.Keys == g.Keys
  {
    && (exists i :: Tight(g, cost, p, i, v))
    && (forall d, i | d in g && Tight(g, cost, d, i, v) :: d == p || Less(ids[p], ids[d]))
  }

  lemma CanonicalParentUnique<V>(g: Graph<V>, ids: map<V, NodeId>, cost: map<V, int>, v: V, p: V, q: V)
    requires cost.Keys == g.Keys && ids.Keys == g.Keys
    requires CanonicalParent(g, ids, cost, v, p) && CanonicalParent(g, ids, cost, v, q)
    ensures p == q
  {
    var i :| Tight(g, cost, p, i, v);
    var j :| Tight(g, cost, q, j, v);
    LessTrichotomy(ids[p], ids[q]);
  }

  /** Two edges into one vertex never come from vertices of the same id. */
  ghost predicate Unambiguous<V>(g: Graph<V>, ids: map<V, NodeId>)
    requires ids.Keys == g.Keys
  {
    forall u, v, i, j | u in g && v in g && 0 <= i < |g[u]| && 0 <= j < |g[v]| ::
      (u != v || i != j) && g[u][i].to == g[v][j].to ==> ids[u] != ids[v]
  }

  /** An abort needs two edges from the same id into one vertex, or a free way back to the source. */
  lemma RelaxAborts<V>(g: Graph<V>, ids: map<V, NodeId>, s: V, st: State<V>, from: V, k: nat)
    requires CanRelax(g, ids, s, st, from, k)
    requires Relax(ids, st, from, g[from][k]) == None
    ensures !Unambiguous(g, ids) || !NoFreeReturn(g, s)
  {
    var e := g[from][k];
    assert ParentKnown(g, ids, s, st, Some(from), k, e.to);
    assert WalkKnown(g, s, st, from);
    if e.to == s {
      ExtendWalk(g, s, st.walk[from], e);
    } else {
      var p := st.parent[e.to].value;
      var i :| Processed(g, st, Some(from), k, p, i) && Tight(g, st.cost, p, i, e.to);
      assert ids[p] == ids[from] && g[p][i].to == g[from][k].to;
    }
  }

  lemma FinalParents<V>(g: Graph<V>, ids: map<V, NodeId>, s: V, st: State<V>, v: V)
    requires Finished(g, ids, s, st) && v in g
    ensures st.parent[v] == None <==> v == s || st.cost[v] == INT_MAX
    ensures st.parent[v].Some? ==> CanonicalParent(g, ids, st.cost, v, st.parent[v].value)
  {
    assert ParentKnown(g, ids, s, st, None, 0, v);
    if st.parent[v].Some? {
      forall d, i | d in g && Tight(g, st.cost, d, i, v)
        ensures d == st.parent[v].value || Less(ids[st.parent[v].value], ids[d])
      {
        assert d in st.done && Processed(g, st, None, 0, d, i);
      }
    }
  }

  /**
   * What `spf_run` promises: least costs over all walks, INT_MAX for what no walk reaches,
   * and for every other vertex but the source its canonical parent.
   */
  ghost predicate Solved<V>(g: Graph<V>, ids: map<V, NodeId>, s: V, cost: map<V, int>, parent: map<V, Option<V>>) {
    && cost.Keys == g.Keys && parent.Keys == g.Keys && ids.Keys == g.Keys
    && forall v | v in g ::
         && cost[v] <= INT_MAX
         && (cost[v] == INT_MAX <==> !Reachable(g, s, v))
         && (cost[v] != INT_MAX ==> LeastCost(g, s, v, cost[v]))
         && (parent[v] == None <==> v == s || cost[v] == INT_MAX)
         && (parent[v].Some? ==> CanonicalParent(g, ids, cost, v, parent[v].value))
  }

  lemma FinalAnswer<V>(g: Graph<V>, ids: map<V, NodeId>, s: V, st: State<V>)
    requires Finished(g, ids, s, st)
    ensures Solved(g, ids, s, st.cost, st.parent)
  {
    hide LeastCost, Reachable, CanonicalParent;
    forall v | v in g
      ensures st.cost[v] <= INT_MAX
      ensures st.cost[v] == INT_MAX <==> !Reachable(g, s, v)
      ensures st.cost[v] != INT_MAX ==> LeastCost(g, s, v, st.cost[v])
      ensures st.parent[v] == None <==> v == s || st.cost[v] == INT_MAX
      ensures st.parent[v].Some? ==> CanonicalParent(g, ids, st.cost, v, st.parent[v].value)
    {
      FinalCosts(g, ids, s, st, v);
      FinalParents(g, ids, s, st, v);
    }
  }

  /** A cheapest walk to `v` whose last step comes from `v`'s parent. */
  lemma TightWalk<V>(g: Graph<V>, ids: map<V, NodeId>, s: V, cost: map<V, int>, parent: map<V, Option<V>>, v: V)
    returns (w: seq<Edge<V>>)
    requires NonNegative(g) && Solved(g, ids, s, cost, parent) && v in g && parent[v].Some?
    ensures IsWalk(g, s, w) && w != [] && End(s, Init(w)) == parent[v].value && End(s, w) == v && Cost(w) == cost[v]
    ensures parent[v].value in g && Cost(Init(w)) == cost[parent[v].value]
  {
    var p := parent[v].value;
    var i :| Tight(g, cost, p, i, v);
    var q :| IsWalk(g, s, q) && End(s, q) == p && Cost(q) == cost[p];
    ExtendWalk(g, s, q, g[p][i]);
    w := q + [g[p][i]];
    assert Init(w) == q;
  }

  lemma SolvedFacts<V>(g: Graph<V>, ids: map<V, NodeId>, s: V, cost: map<V, int>, parent: map<V, Option<V>>)
    requires Solved(g, ids, s, cost, parent)
    ensures cost.Keys == g.Keys && parent.Keys == g.Keys && ids.Keys == g.Keys
    ensures forall v | v in g && parent[v].Some? :: parent[v].value in g
  {
    hide LeastCost, Reachable;
    forall v | v in g && parent[v].Some? ensures parent[v].value in g {
      var i :| Tight(g, cost, parent[v].value, i, v);
    }
  }

  /** One edge: the code may take the step, and the step keeps what is known. */
  lemma RelaxStep<V>(g: Graph<V>, ids: map<V, NodeId>, s: V, st: State<V>, from: V, k: nat)
    requires from in g && from in st.cost && Inv(g, ids, s, st, Some(from), k) && k < |g[from]|
    requires st.cost[from] + g[from][k].cost < INT_MAX
    ensures CanRelax(g, ids, s, st, from, k)
    ensures g[from][k].to in g && from in st.walk && ids.Keys == g.Keys
    ensures st.parent[g[from][k].to].Some? ==> st.parent[g[from][k].to].value in g
    ensures forall v | v in g :: st.cost[v] <= INT_MAX
    ensures st.cost[from] + g[from][k].cost < st.cost[g[from][k].to] ==> g[from][k].to !in st.done
    ensures Relax(ids, st, from, g[from][k]).Some? ==>
              var st' := Relax(ids, st, from, g[from][k]).value;
              && Inv(g, ids, s, st', Some(from), k + 1)
              && st'.done == st.done && st'.cost.Keys == g.Keys
              && forall v | v in st.done :: st'.cost[v] == st.cost[v]
  {
    hide Sound, Monotone, Relaxed, Parents, NonNegative, SourceClear;
    RelaxReady(g, ids, s, st, from, k);
    if Relax(ids, st, from, g[from][k]).Some? {
      RelaxInv(g, ids, s, st, from, k);
    }
  }

  lemma RelaxReady<V>(g: Graph<V>, ids: map<V, NodeId>, s: V, st: State<V>, from: V, k: nat)
    requires from in g && from in st.cost && Inv(g, ids, s, st, Some(from), k) && k < |g[from]|
    requires st.cost[from] + g[from][k].cost < INT_MAX
    ensures CanRelax(g, ids, s, st, from, k)
    ensures st.cost[from] + g[from][k].cost < st.cost[g[from][k].to] ==> g[from][k].to !in st.done
  {
    assert WalkKnown(g, s, st, from);
    ParentsHaveIds(g, ids, s, st, Some(from), k);
  }
}
