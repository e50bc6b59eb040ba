/** What Dijkstra's search finds on the two-layer graph: costs, parents and the absence of aborts. */
module LayeredSearch {
  import opened Bytes
  import opened Graphs
  import opened Dijkstra
  import opened Routes

  /** At most one link per ordered pair of nodes, none from a node to itself, all of positive cost. */
  ghost predicate SimpleLinks<C>(links: seq<Link<C>>) {
    && (forall k | 0 <= k < |links| :: links[k].from != links[k].to && 0 < links[k].cost)
    && (forall j, k | 0 <= j < k < |links| :: !(links[j].from == links[k].from && links[j].to == links[k].to))
  }

  /** Both layers of a node carry the node's id, and no two nodes share one. */
  ghost predicate LayerIds<C>(nodes: set<C>, ids: map<Layered<C>, NodeId>) {
    && ids.Keys == LayerNodes(nodes)
    && (forall x, y | x in ids && y in ids :: ids[x] == ids[y] <==> x.node == y.node)
  }

  lemma LayerShape<C>(nodes: set<C>, links: seq<Link<C>>)
    requires LinksWithin(nodes, links) && forall k | 0 <= k < |links| :: 0 <= links[k].cost
    ensures Closed(LayerGraph(nodes, links)) && NonNegative(LayerGraph(nodes, links))
  {
    var g: Graph<Layered<C>> := LayerGraph(nodes, links);
    forall x, i | x in g && 0 <= i < |g[x]| ensures g[x][i].to in g && 0 <= g[x][i].cost {
      var e := g[x][i];
      if e in LinkEdges(x, links) {
        var k := EdgeOrigin(x, links, e);
      } else {
        assert e == Edge(B(x.node), 0);
      }
    }
  }

  /** Different positions in a node's edge list lead to different nodes. */
  lemma {:induction false} LinkTargetsDiffer<C>(x: Layered<C>, links: seq<Link<C>>, i: int, j: int)
    requires SimpleLinks(links) && 0 <= i < j < |LinkEdges(x, links)|
    ensures LinkEdges(x, links)[i].to.node != LinkEdges(x, links)[j].to.node
  {
    var rest := links[..|links| - 1];
    var es := LinkEdges(x, rest);
    if j < |es| {
      LinkTargetsDiffer(x, rest, i, j);
    } else {
      assert es[i] in LinkEdges(x, rest);
      var k := EdgeOrigin(x, rest, es[i]);
    }
  }

  lemma LayersAreUnambiguous<C>(nodes: set<C>, links: seq<Link<C>>, ids: map<Layered<C>, NodeId>)
    requires LinksWithin(nodes, links) && SimpleLinks(links) && LayerIds(nodes, ids)
    ensures Unambiguous(LayerGraph(nodes, links), ids)
  {
    var g: Graph<Layered<C>> := LayerGraph(nodes, links);
    forall x, y, i, j | x in g && y in g && 0 <= i < |g[x]| && 0 <= j < |g[y]|
                        && (x != y || i != j) && g[x][i].to == g[y][j].to
      ensures ids[x] != ids[y]
    {
      if x.node == y.node {
        EdgesApart(nodes, links, x, y, i, j);
      }
    }
  }

  lemma EdgesApart<C>(nodes: set<C>, links: seq<Link<C>>, x: Layered<C>, y: Layered<C>, i: int, j: int)
    requires SimpleLinks(links) && x.node == y.node && (x != y || i != j)
    requires 0 <= i < |LayerEdges(x, links)| && 0 <= j < |LayerEdges(y, links)|
    ensures LayerEdges(x, links)[i].to != LayerEdges(y, links)[j].to
  {
    var e, f := LayerEdges(x, links)[i], LayerEdges(y, links)[j];
    var i' := if x.A? then i - 1 else i;
    var j' := if y.A? then j - 1 else j;
    if i' >= 0 {
      assert e == LinkEdges(x, links)[i'];
      var k := EdgeOrigin(x, links, e);
      if j' >= 0 {
        assert f == LinkEdges(y, links)[j'];
        var l := EdgeOrigin(y, links, f);
        if e.to.node == f.to.node {
          assert k == l;
          if x == y {
            if i' < j' { LinkTargetsDiffer(x, links, i', j'); } else { LinkTargetsDiffer(x, links, j', i'); }
          }
        }
      }
    } else if j' >= 0 {
      assert f == LinkEdges(y, links)[j'];
      var l := EdgeOrigin(y, links, f);
    }
  }

  /** A walk costs at least nothing, and a walk that leaves its node costs something. */
  lemma {:induction false} WalkCosts<C>(nodes: set<C>, links: seq<Link<C>>, s: C, w: seq<Edge<Layered<C>>>)
    requires SimpleLinks(links) && IsWalk(LayerGraph(nodes, links), A(s), w)
    ensures 0 <= Cost(w)
    ensures Cost(w) == 0 ==> End(A(s), w).node == s && (w != [] ==> End(A(s), w).B?)
  {
    if w != [] {
      WalkCosts(nodes, links, s, Init(w));
      var e, x := Last(w), End(A(s), Init(w));
      if e in LinkEdges(x, links) {
        var k := EdgeOrigin(x, links, e);
      } else {
        assert e == Edge(B(x.node), 0);
      }
    }
  }

  lemma NoFreeReturnToSource<C>(nodes: set<C>, links: seq<Link<C>>, s: C)
    requires SimpleLinks(links)
    ensures NoFreeReturn(LayerGraph(nodes, links), A(s))
  {
    forall w | IsWalk(LayerGraph(nodes, links), A(s), w) && w != [] && End(A(s), w) == A(s) ensures Cost(w) != 0 {
      WalkCosts(nodes, links, s, w);
    }
  }

  /** `cspf_node_parent`: the parent in layer B, looking through the free step down. */
  ghost function LayeredParent<C>(parent: map<Layered<C>, Option<Layered<C>>>, n: C): Option<Layered<C>>
    requires A(n) in parent && B(n) in parent
  {
    if parent[B(n)] == Some(A(n)) then parent[A(n)] else parent[B(n)]
  }

  /** `p` is the node before `n` on some cheapest valley-free route. */
  ghost predicate PrecedesOnBest<C>(links: seq<Link<C>>, s: C, n: C, p: C) {
    exists r: seq<Link<C>> :: IsRoute(links, s, r) && ValleyFree(r) && RouteEnd(s, r) == n
                              && LeastRoute(links, s, n, RouteCost(r)) && r != [] && r[|r| - 1].from == p
  }

  /** The last link of a cheapest walk to `n` leaves the node before `n`. */
  lemma LastLink<C>(nodes: set<C>, links: seq<Link<C>>, s: C, n: C, w: seq<Edge<Layered<C>>>)
    requires SimpleLinks(links) && IsWalk(LayerGraph(nodes, links), A(s), w) && w != []
    requires End(A(s), w).node == n && !(End(A(s), Init(w)) == A(n) && End(A(s), w) == B(n))
    requires LeastRoute(links, s, n, Cost(w))
    ensures End(A(s), Init(w)).node != n && PrecedesOnBest(links, s, n, End(A(s), Init(w)).node)
  {
    var e, x := Last(w), End(A(s), Init(w));
    if e in LinkEdges(x, links) {
      var k := EdgeOrigin(x, links, e);
      var path := WalkVisits(nodes, links, A(s), w);
      var r := WalkToRoute(nodes, links, s, w, path);
    } else {
      assert false;
    }
  }

  /** The layer-B parent of the source is its layer-A node. */
  lemma SourceParent<C>(nodes: set<C>, links: seq<Link<C>>, s: C, w: seq<Edge<Layered<C>>>)
    requires s in nodes && SimpleLinks(links) && IsWalk(LayerGraph(nodes, links), A(s), w) && w != []
    requires End(A(s), w) == B(s) && LeastCost(LayerGraph(nodes, links), A(s), B(s), Cost(w))
    ensures End(A(s), Init(w)) == A(s)
  {
    hide SimpleLinks, LinkEdges;
    var free := StepDown(nodes, links, A(s), [], []);
    assert Cost(w) <= 0;
    BackForFree(nodes, links, s, w);
  }

  lemma BackForFree<C>(nodes: set<C>, links: seq<Link<C>>, s: C, w: seq<Edge<Layered<C>>>)
    requires SimpleLinks(links) && IsWalk(LayerGraph(nodes, links), A(s), w) && w != []
    requires End(A(s), w) == B(s) && Cost(w) <= 0
    ensures End(A(s), Init(w)) == A(s)
  {
    WalkCosts(nodes, links, s, Init(w));
    var e, x := Last(w), End(A(s), Init(w));
    if e in LinkEdges(x, links) {
      var k := EdgeOrigin(x, links, e);
    }
  }

  /** When layer B's parent is the free step down, both layers cost the same. */
  lemma FreeStepCost<C>(nodes: set<C>, links: seq<Link<C>>, n: C, i: int)
    requires SimpleLinks(links) && 0 <= i < |LayerEdges(A(n), links)| && LayerEdges(A(n), links)[i].to == B(n)
    ensures LayerEdges(A(n), links)[i].cost == 0
  {
    var e := LayerEdges(A(n), links)[i];
    if e in LinkEdges(A(n), links) {
      var k := EdgeOrigin(A(n), links, e);
    }
  }

  lemma ParentPrecedes<C>(nodes: set<C>, links: seq<Link<C>>, ids: map<Layered<C>, NodeId>, s: C, n: C,
                          cost: map<Layered<C>, int>, parent: map<Layered<C>, Option<Layered<C>>>)
    requires s in nodes && n in nodes && LinksWithin(nodes, links) && SimpleLinks(links)
    requires Solved(LayerGraph(nodes, links), ids, A(s), cost, parent)
    ensures A(n) in parent && B(n) in parent
    ensures LayeredParent(parent, n) == None <==> n == s || !HasRoute(links, s, n)
    ensures LayeredParent(parent, n).Some? ==>
              var p := LayeredParent(parent, n).value.node; p != n && PrecedesOnBest(links, s, n, p)
  {
    hide LeastCost, LeastRoute, Reachable, HasRoute, CanonicalParent, PrecedesOnBest;
    var g := LayerGraph(nodes, links);
    LayerShape(nodes, links);
    assert A(n) in LayerNodes(nodes) && B(n) in LayerNodes(nodes);
    LayersEncodeRoutes(nodes, links, s, n, cost[B(n)]);
    if cost[B(n)] != INT_MAX {
      var w := TightWalk(g, ids, A(s), cost, parent, B(n));
      if parent[B(n)] == Some(A(n)) {
        var i := CanonicalEdge(g, ids, cost, B(n), A(n));
        FreeStepCost(nodes, links, n, i);
        if n != s {
          var w' := TightWalk(g, ids, A(s), cost, parent, A(n));
          LastLink(nodes, links, s, n, w');
        }
      } else {
        if n == s {
          SourceParent(nodes, links, s, w);
        }
        LastLink(nodes, links, s, n, w);
      }
    }
  }

  lemma CanonicalEdge<V>(g: Graph<V>, ids: map<V, NodeId>, cost: map<V, int>, v: V, p: V) returns (i: int)
    requires cost.Keys == g.Keys && ids.Keys == g.Keys && CanonicalParent(g, ids, cost, v, p)
    ensures Tight(g, cost, p, i, v)
  {
    i :| Tight(g, cost, p, i, v);
  }
}
