/** Directed graphs with edge costs, and the walks in them. */
module Graphs {

  datatype Edge<V> = Edge(to: V, cost: int)

  type Graph<V> = map<V, seq<Edge<V>>>

  ghost predicate Closed<V>(g: Graph<V>) {
    forall v, i | v in g && 0 <= i < |g[v]| :: g[v][i].to in g
  }

  ghost predicate NonNegative<V>(g: Graph<V>) {
    forall v, i | v in g && 0 <= i < |g[v]| :: 0 <= g[v][i].cost
  }

  ghost function Last<V>(w: seq<Edge<V>>): Edge<V>
    requires w != []
  {
    w[|w| - 1]
  }

  ghost function Init<V>(w: seq<Edge<V>>): seq<Edge<V>>
    requires w != []
  {
    w[..|w| - 1]
  }

  /** The vertex where a walk from `s` ends. */
  ghost function End<V>(s: V, w: seq<Edge<V>>): V {
    if w == [] then s else Last(w).to
  }

  ghost function Cost<V>(w: seq<Edge<V>>): int {
    if w == [] then 0 else Cost(Init(w)) + Last(w).cost
  }

  ghost predicate IsWalk<V>(g: Graph<V>, s: V, older w: seq<Edge<V>>) {
    if w == [] then s in g
    else IsWalk(g, s, Init(w)) && End(s, Init(w)) in g && Last(w) in g[End(s, Init(w))]
  }

  ghost predicate Reachable<V>(g: Graph<V>, s: V, v: V) {
    exists w :: IsWalk(g, s, w) && End(s, w) == v
  }

  ghost predicate HasWalk<V>(g: Graph<V>, s: V, v: V, c: int) {
    exists w :: IsWalk(g, s, w) && End(s, w) == v && Cost(w) == c
  }

  /** `c` is the cost of a cheapest walk from `s` to `v`. */
  ghost predicate LeastCost<V>(g: Graph<V>, s: V, v: V, c: int) {
    && HasWalk(g, s, v, c)
    && (forall w | IsWalk(g, s, w) && End(s, w) == v :: c <= Cost(w))
  }

  /** A cheapest walk with one more edge costs less than `limit`. */
  ghost predicate CostsBelow<V>(g: Graph<V>, s: V, limit: int) {
    forall w, e | IsWalk(g, s, w) && End(s, w) in g && e in g[End(s, w)] && LeastCost(g, s, End(s, w), Cost(w)) ::
      Cost(w) + e.cost < limit
  }

  /** No way back to `s` is free. */
  ghost predicate NoFreeReturn<V>(g: Graph<V>, s: V) {
    forall w | IsWalk(g, s, w) && w != [] && End(s, w) == s :: Cost(w) != 0
  }

  lemma ExtendWalk<V>(g: Graph<V>, s: V, w: seq<Edge<V>>, e: Edge<V>)
    requires IsWalk(g, s, w) && End(s, w) in g && e in g[End(s, w)]
    ensures IsWalk(g, s, w + [e])
    ensures End(s, w + [e]) == e.to
    ensures Cost(w + [e]) == Cost(w) + e.cost
  {
    assert Init(w + [e]) == w;
  }

  lemma {:induction false} WalkStays<V>(g: Graph<V>, s: V, w: seq<Edge<V>>)
    requires Closed(g) && IsWalk(g, s, w)
    ensures s in g && End(s, w) in g
  {
    if w != [] {
      WalkStays(g, s, Init(w));
    }
  }
}
