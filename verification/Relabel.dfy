/** Renaming the vertices of a graph one to one changes neither walks, costs nor parents. */
module Relabel {
  import opened Bytes
  import opened Graphs
  import opened Dijkstra

  ghost function MapEdges<V, W>(f: map<V, W>, es: seq<Edge<V>>): (r: seq<Edge<W>>)
    requires forall i | 0 <= i < |es| :: es[i].to in f
    ensures |r| == |es|
  {
    seq(|es|, i requires 0 <= i < |es| => Edge(f[es[i].to], es[i].cost))
  }

  ghost predicate Relabels<V, W>(g: Graph<V>, h: Graph<W>, f: map<V, W>, inv: map<W, V>) {
    && f.Keys == g.Keys && inv.Keys == h.Keys
    && (forall v | v in g :: f[v] in h && inv[f[v]] == v)
    && (forall x | x in h :: inv[x] in g && f[inv[x]] == x)
    && Closed(g)
    && (forall v | v in g :: h[f[v]] == MapEdges(f, g[v]))
  }

  lemma RelabelBack<V, W>(g: Graph<V>, h: Graph<W>, f: map<V, W>, inv: map<W, V>)
    requires Relabels(g, h, f, inv)
    ensures Relabels(h, g, inv, f)
  {
    forall x, i | x in h && 0 <= i < |h[x]| ensures h[x][i].to in h {
      assert h[f[inv[x]]] == MapEdges(f, g[inv[x]]);
    }
    forall x | x in h ensures g[inv[x]] == MapEdges(inv, h[x]) {
      assert h[f[inv[x]]] == MapEdges(f, g[inv[x]]);
    }
  }

  lemma {:induction false} MapWalk<V, W>(g: Graph<V>, h: Graph<W>, f: map<V, W>, inv: map<W, V>, s: V, w: seq<Edge<V>>)
    returns (w': seq<Edge<W>>)
    requires Relabels(g, h, f, inv) && IsWalk(g, s, w)
    ensures s in g && End(s, w) in g
    ensures IsWalk(h, f[s], w') && End(f[s], w') == f[End(s, w)] && Cost(w') == Cost(w) && |w'| == |w|
    decreases |w|
  {
    if w == [] {
      w' := [];
    } else {
      var q := MapWalk(g, h, f, inv, s, Init(w));
      var u := End(s, Init(w));
      var i :| 0 <= i < |g[u]| && g[u][i] == Last(w);
      assert h[f[u]][i] == MapEdges(f, g[u])[i];
      ExtendWalk(h, f[s], q, h[f[u]][i]);
      w' := q + [h[f[u]][i]];
    }
  }

  lemma MapReachable<V, W>(g: Graph<V>, h: Graph<W>, f: map<V, W>, inv: map<W, V>, s: V, v: V)
    requires Relabels(g, h, f, inv) && s in g && v in g && Reachable(g, s, v)
    ensures Reachable(h, f[s], f[v])
  {
    var w :| IsWalk(g, s, w) && End(s, w) == v;
    var w' := MapWalk(g, h, f, inv, s, w);
  }

  lemma MapLeastCost<V, W>(g: Graph<V>, h: Graph<W>, f: map<V, W>, inv: map<W, V>, s: V, v: V, c: int)
    requires Relabels(g, h, f, inv) && s in g && v in g && LeastCost(g, s, v, c)
    ensures LeastCost(h, f[s], f[v], c)
  {
    var w :| IsWalk(g, s, w) && End(s, w) == v && Cost(w) == c;
    var w' := MapWalk(g, h, f, inv, s, w);
    RelabelBack(g, h, f, inv);
    forall x | IsWalk(h, f[s], x) && End(f[s], x) == f[v] ensures c <= Cost(x) {
      var x' := MapWalk(h, g, inv, f, f[s], x);
    }
  }

  ghost predicate SameIds<V, W>(f: map<V, W>, ids: map<V, NodeId>, ids': map<W, NodeId>) {
    f.Keys == ids.Keys && forall v | v in f :: f[v] in ids' && ids'[f[v]] == ids[v]
  }

  lemma MapTight<V, W>(g: Graph<V>, h: Graph<W>, f: map<V, W>, inv: map<W, V>, cost: map<V, int>, cost': map<W, int>,
                       p: V, i: int, v: V)
    requires Relabels(g, h, f, inv) && cost.Keys == g.Keys && cost'.Keys == h.Keys
    requires forall u | u in g :: cost'[f[u]] == cost[u]
    requires p in g && v in g
    ensures Tight(h, cost', f[p], i, f[v]) <==> Tight(g, cost, p, i, v)
  {
    assert h[f[p]] == MapEdges(f, g[p]);
    if 0 <= i < |g[p]| {
      assert h[f[p]][i].to == f[g[p][i].to] && inv[f[g[p][i].to]] == g[p][i].to && inv[f[v]] == v;
    }
  }

  lemma MapCanonical<V, W>(g: Graph<V>, h: Graph<W>, f: map<V, W>, inv: map<W, V>,
                           ids: map<V, NodeId>, ids': map<W, NodeId>, cost: map<V, int>, cost': map<W, int>, v: V, p: V)
    requires Relabels(g, h, f, inv) && SameIds(f, ids, ids') && ids'.Keys == h.Keys
    requires cost.Keys == g.Keys && cost'.Keys == h.Keys && forall u | u in g :: cost'[f[u]] == cost[u]
    requires v in g && p in g && CanonicalParent(g, ids, cost, v, p)
    ensures CanonicalParent(h, ids', cost', f[v], f[p])
  {
    var i :| Tight(g, cost, p, i, v);
    MapTight(g, h, f, inv, cost, cost', p, i, v);
    forall d, j | d in h && Tight(h, cost', d, j, f[v]) ensures d == f[p] || Less(ids'[f[p]], ids'[d]) {
      MapTight(g, h, f, inv, cost, cost', inv[d], j, v);
    }
  }

  /** An answer for one graph is the answer for the renamed one. */
  lemma MapSolved<V, W>(g: Graph<V>, h: Graph<W>, f: map<V, W>, inv: map<W, V>,
                        ids: map<V, NodeId>, ids': map<W, NodeId>,
                        s: V, cost: map<V, int>, parent: map<V, Option<V>>,
                        cost': map<W, int>, parent': map<W, Option<W>>)
    requires Relabels(g, h, f, inv) && SameIds(f, ids, ids') && ids'.Keys == h.Keys && s in g
    requires Solved(g, ids, s, cost, parent)
    requires forall v | v in g && parent[v].Some? :: parent[v].value in g
    requires cost'.Keys == h.Keys && forall v | v in g :: cost'[f[v]] == cost[v]
    requires parent'.Keys == h.Keys
    requires forall v | v in g :: parent'[f[v]] == if parent[v].Some? then Some(f[parent[v].value]) else None
    ensures Solved(h, ids', f[s], cost', parent')
  {
    hide Reachable, LeastCost, CanonicalParent, Closed;
    RelabelBack(g, h, f, inv);
    forall x | x in h
      ensures cost'[x] <= INT_MAX
      ensures cost'[x] == INT_MAX <==> !Reachable(h, f[s], x)
      ensures cost'[x] != INT_MAX ==> LeastCost(h, f[s], x, cost'[x])
      ensures parent'[x] == None <==> x == f[s] || cost'[x] == INT_MAX
      ensures parent'[x].Some? ==> CanonicalParent(h, ids', cost', x, parent'[x].value)
    {
      var v := inv[x];
      if Reachable(g, s, v) { MapReachable(g, h, f, inv, s, v); }
      if Reachable(h, f[s], x) { MapReachable(h, g, inv, f, f[s], x); }
      if cost[v] != INT_MAX { MapLeastCost(g, h, f, inv, s, v, cost[v]); }
      if parent[v].Some? { MapCanonical(g, h, f, inv, ids, ids', cost, cost', v, parent[v].value); }
    }
  }

  lemma MapNoFreeReturn<V, W>(g: Graph<V>, h: Graph<W>, f: map<V, W>, inv: map<W, V>, s: V)
    requires Relabels(g, h, f, inv) && s in g && NoFreeReturn(g, s)
    ensures NoFreeReturn(h, f[s])
  {
    RelabelBack(g, h, f, inv);
    forall x | IsWalk(h, f[s], x) && x != [] && End(f[s], x) == f[s] ensures Cost(x) != 0 {
      var w := MapWalk(h, g, inv, f, f[s], x);
    }
  }

  lemma MapCostsBelow<V, W>(g: Graph<V>, h: Graph<W>, f: map<V, W>, inv: map<W, V>, s: V, limit: int)
    requires Relabels(g, h, f, inv) && s in g && CostsBelow(g, s, limit)
    ensures CostsBelow(h, f[s], limit)
  {
    RelabelBack(g, h, f, inv);
    forall x, e | IsWalk(h, f[s], x) && End(f[s], x) in h && e in h[End(f[s], x)]
                  && LeastCost(h, f[s], End(f[s], x), Cost(x))
      ensures Cost(x) + e.cost < limit
    {
      var w := MapWalk(h, g, inv, f, f[s], x);
      var u := End(f[s], x);
      MapLeastCost(h, g, inv, f, f[s], u, Cost(x));
      var i :| 0 <= i < |h[u]| && h[u][i] == e;
      assert g[inv[u]] == MapEdges(inv, h[u]);
      assert g[inv[u]][i] in g[inv[u]];
    }
  }

  lemma MapShape<V, W>(g: Graph<V>, h: Graph<W>, f: map<V, W>, inv: map<W, V>,
                       ids: map<V, NodeId>, ids': map<W, NodeId>)
    requires Relabels(g, h, f, inv) && SameIds(f, ids, ids') && ids'.Keys == h.Keys && NonNegative(g)
    ensures Closed(h) && NonNegative(h)
    ensures Unambiguous(g, ids) ==> Unambiguous(h, ids')
  {
    RelabelBack(g, h, f, inv);
    forall x | x in h ensures h[x] == MapEdges(f, g[inv[x]]) {}
    if Unambiguous(g, ids) {
      forall x, y, i, j | x in h && y in h && 0 <= i < |h[x]| && 0 <= j < |h[y]|
                          && (x != y || i != j) && h[x][i].to == h[y][j].to
        ensures ids'[x] != ids'[y]
      {
        var u, v := inv[x], inv[y];
        assert g[u][i].to == inv[h[x][i].to] && g[v][j].to == inv[h[y][j].to];
        assert ids[u] != ids[v];
      }
    }
  }
}
