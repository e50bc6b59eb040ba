/**
 * Valley-free routes, and the two-layer graph of `cspf.c` that turns them into plain walks:
 * a route climbs through transits in layer A, crosses over once, and descends through
 * customers in layer B.
 */
module Routes {
  import opened Graphs

  datatype PeerType = INVALID | DBONLY | EPEER | CUSTOMER | TRANSIT | IPEER

  datatype Layered<+C> = A(node: C) | B(node: C)

  /** A peering from one node to another, of the type the first sees in the second. */
  datatype Link<+C> = Link(from: C, to: C, typ: PeerType, cost: int)

  predicate Climbs(t: PeerType) { t == TRANSIT || t == IPEER }

  predicate Descends(t: PeerType) { t == CUSTOMER || t == IPEER }

  function RouteEnd<C>(s: C, r: seq<Link<C>>): C {
    if r == [] then s else r[|r| - 1].to
  }

  function RouteCost<C>(r: seq<Link<C>>): int {
    if r == [] then 0 else RouteCost(r[..|r| - 1]) + r[|r| - 1].cost
  }

  /** The nodes a route visits. */
  function Stops<C>(r: seq<Link<C>>): seq<C> {
    if r == [] then [] else Stops(r[..|r| - 1]) + [r[|r| - 1].to]
  }

  ghost predicate IsRoute<C>(links: seq<Link<C>>, s: C, older r: seq<Link<C>>)
    decreases |r|
  {
    r != [] ==> IsRoute(links, s, r[..|r| - 1]) && r[|r| - 1] in links && r[|r| - 1].from == RouteEnd(s, r[..|r| - 1])
  }

  ghost predicate Climb<C>(r: seq<Link<C>>) {
    forall k | 0 <= k < |r| :: Climbs(r[k].typ)
  }

  /** The types read (TRANSIT | IPEER)* EPEER? (CUSTOMER | IPEER)*. */
  ghost predicate ValleyFree<C>(r: seq<Link<C>>) {
    exists i, j :: CrossesAt(r, i, j)
  }

  ghost predicate CrossesAt<C>(r: seq<Link<C>>, i: int, j: int) {
    && 0 <= i <= j <= |r| && j <= i + 1
    && (forall k | 0 <= k < i :: Climbs(r[k].typ))
    && (i < j ==> r[i].typ == EPEER)
    && (forall k | j <= k < |r| :: Descends(r[k].typ))
  }

  /** `c` is the cost of a cheapest valley-free route from `s` to `t`. */
  ghost predicate LeastRoute<C>(links: seq<Link<C>>, s: C, t: C, c: int) {
    && (exists r :: IsRoute(links, s, r) && ValleyFree(r) && RouteEnd(s, r) == t && RouteCost(r) == c)
    && (forall r | IsRoute(links, s, r) && ValleyFree(r) && RouteEnd(s, r) == t :: c <= RouteCost(r))
  }

  ghost predicate HasRoute<C>(links: seq<Link<C>>, s: C, t: C) {
    exists r :: IsRoute(links, s, r) && ValleyFree(r) && RouteEnd(s, r) == t
  }

  /** The edges `cspf_edge_add` gives to the A node of the link's origin. */
  function EdgesOfA<C>(l: Link<C>): seq<Edge<Layered<C>>> {
    match l.typ
    case EPEER => [Edge(B(l.to), l.cost)]
    case TRANSIT => [Edge(A(l.to), l.cost)]
    case IPEER => [Edge(A(l.to), l.cost)]
    case _ => []
  }

  function EdgesOfB<C>(l: Link<C>): seq<Edge<Layered<C>>> {
    match l.typ
    case CUSTOMER => [Edge(B(l.to), l.cost)]
    case IPEER => [Edge(B(l.to), l.cost)]
    case _ => []
  }

  function EdgesOf<C>(l: Link<C>, x: Layered<C>): seq<Edge<Layered<C>>> {
    if x.A? then EdgesOfA(l) else EdgesOfB(l)
  }

  /** The edge list of `x` after the links were added in order. */
  ghost function LinkEdges<C>(x: Layered<C>, links: seq<Link<C>>): seq<Edge<Layered<C>>> {
    if links == [] then []
    else
      var l := links[|links| - 1];
      LinkEdges(x, links[..|links| - 1]) + if l.from == x.node then EdgesOf(l, x) else []
  }

  /** `cspf_node_add` starts each A node with the free edge down to its B node. */
  ghost function LayerEdges<C>(x: Layered<C>, links: seq<Link<C>>): seq<Edge<Layered<C>>> {
    (if x.A? then [Edge(B(x.node), 0)] else []) + LinkEdges(x, links)
  }

  ghost function LayerNodes<C>(nodes: set<C>): set<Layered<C>> {
    (set c | c in nodes :: A(c)) + (set c | c in nodes :: B(c))
  }

  ghost function LayerGraph<C>(nodes: set<C>, links: seq<Link<C>>): Graph<Layered<C>> {
    map x | x in LayerNodes(nodes) :: LayerEdges(x, links)
  }

  /** The walk `w` from `s` visits the nodes of `path`: one with each step but the free step down. */
  ghost predicate Visits<C>(links: seq<Link<C>>, s: Layered<C>, w: seq<Edge<Layered<C>>>, path: seq<C>)
    decreases |w|
  {
    if w == [] then path == []
    else
      var x, e := End(s, Init(w)), Last(w);
      || (x.A? && e == Edge(B(x.node), 0) && Visits(links, s, Init(w), path))
      || (&& e in LinkEdges(x, links) && path != [] && path[|path| - 1] == e.to.node
          && Visits(links, s, Init(w), path[..|path| - 1]))
  }

  ghost predicate LinksWithin<C>(nodes: set<C>, links: seq<Link<C>>) {
    forall k | 0 <= k < |links| :: links[k].from in nodes && links[k].to in nodes
  }

  /** An edge of the layered graph is the free step down or comes from one link. */
  lemma {:induction false} EdgeOrigin<C>(x: Layered<C>, links: seq<Link<C>>, e: Edge<Layered<C>>) returns (k: int)
    requires e in LinkEdges(x, links)
    ensures 0 <= k < |links| && links[k].from == x.node && e in EdgesOf(links[k], x) && e.to.node == links[k].to
  {
    k := |links| - 1;
    var rest := links[..k];
    if e in LinkEdges(x, rest) {
      k := EdgeOrigin(x, rest, e);
    }
  }

  lemma {:induction false} LinkHasEdge<C>(x: Layered<C>, links: seq<Link<C>>, l: Link<C>, e: Edge<Layered<C>>)
    requires l in links && l.from == x.node && e in EdgesOf(l, x)
    ensures e in LinkEdges(x, links)
  {
    var rest := links[..|links| - 1];
    if l != links[|links| - 1] {
      assert l in rest;
      LinkHasEdge(x, rest, l, e);
    }
  }

  lemma {:induction false} RouteStays<C>(nodes: set<C>, links: seq<Link<C>>, s: C, r: seq<Link<C>>)
    requires s in nodes && LinksWithin(nodes, links) && IsRoute(links, s, r)
    ensures RouteEnd(s, r) in nodes
  {
  }

  lemma ValleyFreePrefix<C>(r: seq<Link<C>>)
    requires r != [] && ValleyFree(r) && !Climb(r)
    ensures var t := r[|r| - 1].typ; var q := r[..|r| - 1];
            (t == EPEER && Climb(q)) || (Descends(t) && ValleyFree(q))
  {
    var n := |r| - 1;
    var i, j :| CrossesAt(r, i, j);
    if j <= n {
      assert CrossesAt(r[..n], i, j);
    } else if i < j {
      assert Climb(r[..n]);
    }
  }

  lemma ValleyFreeExtend<C>(r: seq<Link<C>>, l: Link<C>)
    requires (ValleyFree(r) && Descends(l.typ)) || (Climb(r) && (Climbs(l.typ) || l.typ == EPEER))
    ensures ValleyFree(r + [l])
  {
    var q := r + [l];
    if ValleyFree(r) && Descends(l.typ) {
      var i, j :| CrossesAt(r, i, j);
      assert CrossesAt(q, i, j);
    } else if Climbs(l.typ) {
      assert CrossesAt(q, |q|, |q|);
    } else {
      assert CrossesAt(q, |r|, |q|);
    }
  }

  lemma ClimbIsValleyFree<C>(r: seq<Link<C>>)
    requires Climb(r)
    ensures ValleyFree(r)
  {
    assert CrossesAt(r, |r|, |r|);
  }

  /** A climbing route is a walk of equal cost inside layer A. */
  lemma {:induction false} ClimbToWalk<C>(nodes: set<C>, links: seq<Link<C>>, s: C, r: seq<Link<C>>)
    returns (w: seq<Edge<Layered<C>>>)
    requires s in nodes && LinksWithin(nodes, links) && IsRoute(links, s, r) && Climb(r)
    ensures IsWalk(LayerGraph(nodes, links), A(s), w) && End(A(s), w) == A(RouteEnd(s, r)) && Cost(w) == RouteCost(r)
    ensures Visits(links, A(s), w, Stops(r))
  {
    if r == [] {
      w := [];
    } else {
      var q, l := r[..|r| - 1], r[|r| - 1];
      w := ClimbToWalk(nodes, links, s, q);
      w := Step(nodes, links, A(s), w, Stops(q), l, Edge(A(l.to), l.cost));
    }
  }

  lemma Step<C>(nodes: set<C>, links: seq<Link<C>>, s: Layered<C>, w: seq<Edge<Layered<C>>>,
                path: seq<C>, l: Link<C>, e: Edge<Layered<C>>)
    returns (w': seq<Edge<Layered<C>>>)
    requires IsWalk(LayerGraph(nodes, links), s, w) && Visits(links, s, w, path)
    requires End(s, w).node in nodes && l in links && l.from == End(s, w).node && e in EdgesOf(l, End(s, w))
    ensures IsWalk(LayerGraph(nodes, links), s, w') && End(s, w') == e.to && Cost(w') == Cost(w) + e.cost
    ensures Visits(links, s, w', path + [e.to.node])
  {
    var g, x := LayerGraph(nodes, links), End(s, w);
    assert x in LayerNodes(nodes) by { assert x == A(x.node) || x == B(x.node); }
    LinkHasEdge(x, links, l, e);
    assert e in g[x];
    ExtendWalk(g, s, w, e);
    w' := w + [e];
    assert Init(w') == w && (path + [e.to.node])[..|path|] == path;
  }

  lemma StepDown<C>(nodes: set<C>, links: seq<Link<C>>, s: Layered<C>, w: seq<Edge<Layered<C>>>, path: seq<C>)
    returns (w': seq<Edge<Layered<C>>>)
    requires IsWalk(LayerGraph(nodes, links), s, w) && Visits(links, s, w, path)
    requires End(s, w).A? && End(s, w).node in nodes
    ensures IsWalk(LayerGraph(nodes, links), s, w') && End(s, w') == B(End(s, w).node) && Cost(w') == Cost(w)
    ensures Visits(links, s, w', path)
  {
    var g := LayerGraph(nodes, links);
    var x := End(s, w);
    var e := Edge(B(x.node), 0);
    assert x == A(x.node) && x in LayerNodes(nodes);
    assert g[x][0] == e;
    ExtendWalk(g, s, w, e);
    w' := w + [e];
    assert Init(w') == w;
  }

  /** Every valley-free route is a walk of equal cost, through the same nodes, from layer A to layer B. */
  lemma {:induction false} RouteToWalk<C>(nodes: set<C>, links: seq<Link<C>>, s: C, r: seq<Link<C>>)
    returns (w: seq<Edge<Layered<C>>>)
    requires s in nodes && LinksWithin(nodes, links) && IsRoute(links, s, r) && ValleyFree(r)
    ensures IsWalk(LayerGraph(nodes, links), A(s), w) && End(A(s), w) == B(RouteEnd(s, r)) && Cost(w) == RouteCost(r)
    ensures Visits(links, A(s), w, Stops(r))
    decreases |r|
  {
    RouteStays(nodes, links, s, r);
    if Climb(r) {
      w := ClimbToWalk(nodes, links, s, r);
      w := StepDown(nodes, links, A(s), w, Stops(r));
    } else {
      var q, l := r[..|r| - 1], r[|r| - 1];
      ValleyFreePrefix(r);
      if l.typ == EPEER && Climb(q) {
        w := ClimbToWalk(nodes, links, s, q);
        w := Step(nodes, links, A(s), w, Stops(q), l, Edge(B(l.to), l.cost));
      } else {
        w := RouteToWalk(nodes, links, s, q);
        w := Step(nodes, links, A(s), w, Stops(q), l, Edge(B(l.to), l.cost));
      }
    }
  }

  lemma ExtendRoute<C>(links: seq<Link<C>>, s: C, r: seq<Link<C>>, l: Link<C>)
    requires IsRoute(links, s, r) && l in links && l.from == RouteEnd(s, r)
    ensures IsRoute(links, s, r + [l]) && RouteEnd(s, r + [l]) == l.to && RouteCost(r + [l]) == RouteCost(r) + l.cost
    ensures Stops(r + [l]) == Stops(r) + [l.to]
  {
    assert (r + [l])[..|r|] == r;
  }

  lemma NoLinks<C>(links: seq<Link<C>>, s: C, r: seq<Link<C>>)
    requires r == []
    ensures IsRoute(links, s, r) && RouteEnd(s, r) == s && RouteCost(r) == 0 && Climb(r) && ValleyFree(r)
    ensures Stops(r) == []
  {
    ClimbIsValleyFree(r);
  }

  /** The link behind an edge goes on as the layer of the edge says. */
  lemma EdgeToLink<C>(links: seq<Link<C>>, s: C, q: seq<Link<C>>, x: Layered<C>, e: Edge<Layered<C>>)
    returns (r: seq<Link<C>>)
    requires IsRoute(links, s, q) && RouteEnd(s, q) == x.node && ValleyFree(q) && (x.A? ==> Climb(q))
    requires e in LinkEdges(x, links)
    ensures IsRoute(links, s, r) && RouteEnd(s, r) == e.to.node && RouteCost(r) == RouteCost(q) + e.cost
    ensures ValleyFree(r) && (e.to.A? ==> Climb(r)) && Stops(r) == Stops(q) + [e.to.node]
    ensures r != [] && r[|r| - 1].from == x.node
  {
    hide ValleyFree, IsRoute, RouteCost, Stops;
    var k := EdgeOrigin(x, links, e);
    var l := links[k];
    ExtendRoute(links, s, q, l);
    ValleyFreeExtend(q, l);
    r := q + [l];
  }

  /**
   * Every walk from layer A is a route of equal cost through the nodes it visits: climbing if
   * it stays in layer A, else valley-free.
   */
  lemma {:induction false} WalkToRoute<C>(nodes: set<C>, links: seq<Link<C>>, s: C, w: seq<Edge<Layered<C>>>,
                                          path: seq<C>)
    returns (r: seq<Link<C>>)
    requires IsWalk(LayerGraph(nodes, links), A(s), w) && Visits(links, A(s), w, path)
    ensures IsRoute(links, s, r) && RouteEnd(s, r) == End(A(s), w).node && RouteCost(r) == Cost(w) && ValleyFree(r)
    ensures Stops(r) == path
    ensures End(A(s), w).A? ==> Climb(r)
    // the last link leaves the node before the last edge, unless that edge is the free step down
    ensures w != [] && End(A(s), Init(w)).node != End(A(s), w).node ==>
              r != [] && r[|r| - 1].from == End(A(s), Init(w)).node
    decreases |w|
  {
    hide ValleyFree, IsRoute, RouteCost, RouteEnd, Stops, Climb, LinkEdges;
    if w == [] {
      r := [];
      NoLinks(links, s, r);
    } else {
      var e, x := Last(w), End(A(s), Init(w));
      if x.A? && e == Edge(B(x.node), 0) && Visits(links, A(s), Init(w), path) {
        r := WalkToRoute(nodes, links, s, Init(w), path);
      } else {
        var q := WalkToRoute(nodes, links, s, Init(w), path[..|path| - 1]);
        r := EdgeToLink(links, s, q, x, e);
      }
    }
  }

  /** Every walk visits some nodes. */
  lemma {:induction false} WalkVisits<C>(nodes: set<C>, links: seq<Link<C>>, s: Layered<C>, w: seq<Edge<Layered<C>>>)
    returns (path: seq<C>)
    requires IsWalk(LayerGraph(nodes, links), s, w)
    ensures Visits(links, s, w, path)
    decreases |w|
  {
    path := [];
    if w != [] {
      path := WalkVisits(nodes, links, s, Init(w));
      var e, x := Last(w), End(s, Init(w));
      if e in LinkEdges(x, links) {
        assert (path + [e.to.node])[..|path|] == path;
        path := path + [e.to.node];
      }
    }
  }

  /**
   * The encoding is exact: the cheapest walks to layer B of the two-layer graph cost what
   * the cheapest valley-free routes cost.
   */
  lemma LayersEncodeRoutes<C>(nodes: set<C>, links: seq<Link<C>>, s: C, t: C, c: int)
    requires s in nodes && LinksWithin(nodes, links)
    ensures LeastCost(LayerGraph(nodes, links), A(s), B(t), c) <==> LeastRoute(links, s, t, c)
    ensures Reachable(LayerGraph(nodes, links), A(s), B(t)) <==> HasRoute(links, s, t)
  {
    hide LayerGraph, ValleyFree, IsWalk, IsRoute, RouteCost;
    var g := LayerGraph(nodes, links);
    if Reachable(g, A(s), B(t)) {
      var w :| IsWalk(g, A(s), w) && End(A(s), w) == B(t);
      var path := WalkVisits(nodes, links, A(s), w);
      var r := WalkToRoute(nodes, links, s, w, path);
    }
    if HasRoute(links, s, t) {
      var r :| IsRoute(links, s, r) && ValleyFree(r) && RouteEnd(s, r) == t;
      var w := RouteToWalk(nodes, links, s, r);
    }
    if LeastCost(g, A(s), B(t), c) {
      var w :| IsWalk(g, A(s), w) && End(A(s), w) == B(t) && Cost(w) == c;
      var path := WalkVisits(nodes, links, A(s), w);
      var r := WalkToRoute(nodes, links, s, w, path);
      forall r' | IsRoute(links, s, r') && ValleyFree(r') && RouteEnd(s, r') == t ensures c <= RouteCost(r') {
        var w' := RouteToWalk(nodes, links, s, r');
      }
    }
    if LeastRoute(links, s, t, c) {
      var r :| IsRoute(links, s, r) && ValleyFree(r) && RouteEnd(s, r) == t && RouteCost(r) == c;
      var w := RouteToWalk(nodes, links, s, r);
      forall w' | IsWalk(g, A(s), w') && End(A(s), w') == B(t) ensures c <= Cost(w') {
        var path' := WalkVisits(nodes, links, A(s), w');
        var r' := WalkToRoute(nodes, links, s, w', path');
      }
    }
  }
}
