/** `cspf.c`: constrained shortest paths as plain shortest paths on a two-layer graph. */
module Cspf {
  import opened Bytes
  import opened Graphs
  import opened Dijkstra
  import opened Routes
  import opened LayeredSearch
  import opened Relabel
  import opened Spf

  class CNode {
    const id: NodeId
    const cookie: object?
    const a: Node
    const b: Node

    constructor (id: NodeId, cookie: object?)
      ensures this.id == id && this.cookie == cookie
      ensures fresh(a) && fresh(b) && a != b
      ensures a.id == b.id == id && a.cookie == b.cookie == cookie
    {
      this.id := id;
      this.cookie := cookie;
      a := new Node(id, cookie);
      b := new Node(id, cookie);
    }
  }

  ghost function NodeOf(x: Layered<CNode>): Node {
    if x.A? then x.node.a else x.node.b
  }

  ghost function NodesOf(xs: set<Layered<CNode>>): set<Node> {
    set x | x in xs :: NodeOf(x)
  }

  /** The edges of the layered graph as edges between `spf_node`s. */
  ghost function Named(es: seq<Edge<Layered<CNode>>>): (r: seq<Edge<Node>>)
    ensures |r| == |es|
  {
    seq(|es|, i requires 0 <= i < |es| => Edge(NodeOf(es[i].to), es[i].cost))
  }

  /** The calls of `cspf_node_add`. */
  method LayersAdd(ctx: Context, node: CNode)
    requires node.a != node.b
    modifies ctx, node.a`edges, node.b`edges
    ensures ctx.nodes == old(ctx.nodes) + [node.a, node.b]
    ensures node.a.edges == [Edge(node.b, 0)] && node.b.edges == []
  {
    ctx.NodeAdd(node.a);
    ctx.NodeAdd(node.b);
    Spf.EdgeAdd(node.a, Edge(node.b, 0));
  }

  /** The switch of `cspf_edge_add`. */
  method LinkAdd(from: CNode, to: CNode, typ: PeerType, cost: int)
    requires from.a != from.b
    modifies from.a`edges, from.b`edges
    ensures from.a.edges == old(from.a.edges) + Named(EdgesOfA(Link(from, to, typ, cost)))
    ensures from.b.edges == old(from.b.edges) + Named(EdgesOfB(Link(from, to, typ, cost)))
  {
    match typ {
      case EPEER => Spf.EdgeAdd(from.a, Edge(to.b, cost));
      case CUSTOMER => Spf.EdgeAdd(from.b, Edge(to.b, cost));
      case TRANSIT => Spf.EdgeAdd(from.a, Edge(to.a, cost));
      case IPEER =>
        Spf.EdgeAdd(from.a, Edge(to.a, cost));
        Spf.EdgeAdd(from.b, Edge(to.b, cost));
      case _ =>
    }
  }

  /** An `spf_context` used through the `cspf_` calls, with what was added to it. */
  class CContext {
    const ctx: Context
    ghost var nodes: set<CNode>
    ghost var links: seq<Link<CNode>>

    constructor ()
      ensures Valid() && nodes == {} && links == [] && fresh(ctx)
    {
      ctx := new Context();
      nodes := {};
      links := [];
    }

    ghost predicate Apart()
      reads this
    {
      NodesApart(nodes)
    }

    ghost predicate EdgesMatch(x: Layered<CNode>)
      reads this, NodeOf(x)`edges
    {
      NodeOf(x).edges == Named(LayerEdges(x, links))
    }

    ghost predicate Valid()
      reads this, ctx, NodesOf(LayerNodes(nodes))`edges
    {
      && Apart() && LinksWithin(nodes, links)
      && Elems(ctx.nodes) == NodesOf(LayerNodes(nodes))
      && forall x {:trigger NodeOf(x)} | x in LayerNodes(nodes) :: EdgesMatch(x)
    }

    method NodeAdd(node: CNode)
      requires Valid() && node !in nodes
      requires node.a !in ctx.nodes && node.b !in ctx.nodes && node.a != node.b
      requires node.a.id == node.b.id == node.id && node.a.cookie == node.b.cookie == node.cookie
      modifies this`nodes, ctx, node.a`edges, node.b`edges
      ensures Valid() && nodes == old(nodes) + {node} && links == old(links)
      ensures ctx.nodes == old(ctx.nodes) + [node.a, node.b]
    {
      hide LinkEdges, LayerNodes, NodesApart;
      ghost var before := nodes;
      ApartAdd(before, node);
      LayerNodesAdd(before, node);
      NodeElems(ctx.nodes, node);
      NoLinkEdges(A(node), links);
      NoLinkEdges(B(node), links);
      assert LayerEdges(A(node), links) == [Edge(B(node), 0)] && LayerEdges(B(node), links) == [];
      assert Named([Edge(B(node), 0)]) == [Edge(node.b, 0)];
      ghost var was := Elems(ctx.nodes);
      forall x | x in LayerNodes(before) ensures NodeOf(x) in was && NodeOf(x).edges == Named(LayerEdges(x, links)) {
        assert NodeOf(x) in NodesOf(LayerNodes(before));
        assert EdgesMatch(x);
      }
      LayersAdd(ctx, node);
      nodes := nodes + {node};
      forall x | x in LayerNodes(nodes) ensures EdgesMatch(x) {
        assert x == A(node) || x == B(node) || (x in LayerNodes(before) && NodeOf(x) in was);
      }
    }

    method EdgeAdd(from: CNode, to: CNode, typ: PeerType, cost: int)
      requires Valid() && from in nodes && to in nodes
      modifies this`links, from.a`edges, from.b`edges
      ensures Valid() && nodes == old(nodes) && links == old(links) + [Link(from, to, typ, cost)]
    {
      hide LinkEdges, LayerEdges;
      ghost var l := Link(from, to, typ, cost);
      ghost var before := links;
      InLayers(nodes, from);
      LinkAdd(from, to, typ, cost);
      links := links + [l];
      forall x | x in LayerNodes(nodes) ensures EdgesMatch(x) {
        LayerEdgesAdd(x, before, l);
      }
    }

    ghost function LayerOf(): map<Node, Layered<CNode>>
      reads this
      requires Apart()
    {
      map n | n in NodesOf(LayerNodes(nodes)) :: OwnerOf(n)
    }

    ghost function OwnerOf(n: Node): (x: Layered<CNode>)
      reads this
      requires n in NodesOf(LayerNodes(nodes))
      ensures x in LayerNodes(nodes) && NodeOf(x) == n
    {
      var x :| x in LayerNodes(nodes) && NodeOf(x) == n; x
    }

    ghost function LayerCosts(): map<Layered<CNode>, int>
      reads this, NodesOf(LayerNodes(nodes))`cost
    {
      map x | x in LayerNodes(nodes) :: NodeOf(x).cost
    }

    /** The parents, as layered nodes. */
    ghost function LayerParents(): map<Layered<CNode>, Option<Layered<CNode>>>
      reads this, NodesOf(LayerNodes(nodes))`parent
    {
      map x | x in LayerNodes(nodes) ::
        var p := NodeOf(x).parent;
        if p == null || p !in NodesOf(LayerNodes(nodes)) then None else Some(OwnerOf(p))
    }

    ghost predicate ParentsInside()
      reads this, ctx, NodesOf(LayerNodes(nodes))`parent
    {
      forall x | x in LayerNodes(nodes) :: NodeOf(x).parent != null ==> NodeOf(x).parent in NodesOf(LayerNodes(nodes))
    }

    ghost function LayerIdMap(): map<Layered<CNode>, NodeId>
      reads this
    {
      map x | x in LayerNodes(nodes) :: x.node.id
    }

    ghost function ToNode(): map<Layered<CNode>, Node>
      reads this
    {
      map x | x in LayerNodes(nodes) :: NodeOf(x)
    }

    /** The `spf` graph is the layered graph under other names. */
    lemma Renaming()
      requires Valid()
      ensures Relabels(LayerGraph(nodes, links), ctx.Snapshot(), ToNode(), LayerOf())
      ensures SameIds(ToNode(), LayerIdMap(), ctx.Ids()) && ctx.Ids().Keys == ctx.Snapshot().Keys
    {
      hide MapEdges, LayerEdges, SameIds;
      var h: Graph<Layered<CNode>> := LayerGraph(nodes, links);
      RenamedEdges();
      assert forall x | x in h :: h[x] == LayerEdges(x, links);
      RenamedBack();
      RenamedIds();
    }

    lemma RenamedIds()
      requires Valid()
      ensures SameIds(ToNode(), LayerIdMap(), ctx.Ids()) && ctx.Ids().Keys == ctx.Snapshot().Keys
    {
      forall x | x in LayerNodes(nodes) ensures NodeOf(x) in Elems(ctx.nodes) && NodeOf(x).id == x.node.id {
        assert NodeOf(x) in NodesOf(LayerNodes(nodes));
        assert x == A(x.node) || x == B(x.node);
      }
    }

    lemma RenamedEdges()
      requires Valid()
      ensures Closed(LayerGraph(nodes, links))
      ensures forall x | x in LayerNodes(nodes) ::
                && (forall i | 0 <= i < |LayerEdges(x, links)| :: LayerEdges(x, links)[i].to in ToNode())
                && NodeOf(x).edges == MapEdges(ToNode(), LayerEdges(x, links))
    {
      forall x | x in LayerNodes(nodes)
        ensures forall i | 0 <= i < |LayerEdges(x, links)| :: LayerEdges(x, links)[i].to in LayerNodes(nodes)
        ensures NodeOf(x).edges == MapEdges(ToNode(), LayerEdges(x, links))
      {
        EdgesStay(nodes, links, x);
        assert EdgesMatch(x);
      }
    }

    lemma RenamedBack()
      requires Apart()
      ensures forall x | x in LayerNodes(nodes) :: NodeOf(x) in LayerOf() && LayerOf()[NodeOf(x)] == x
    {
      forall x | x in LayerNodes(nodes) ensures NodeOf(x) in LayerOf() && LayerOf()[NodeOf(x)] == x {
        assert NodeOf(x) in NodesOf(LayerNodes(nodes));
      }
    }

    lemma RunReady(source: CNode)
      requires Valid() && source in nodes && (forall k | 0 <= k < |links| :: 0 <= links[k].cost)
      requires CostsBelow(LayerGraph(nodes, links), A(source), INT_MAX)
      ensures source.a in ctx.nodes
      ensures Closed(ctx.Snapshot()) && NonNegative(ctx.Snapshot()) && CostsBelow(ctx.Snapshot(), source.a, INT_MAX)
      ensures SimpleLinks(links) && LayerIds(nodes, LayerIdMap()) ==>
                Unambiguous(ctx.Snapshot(), ctx.Ids()) && NoFreeReturn(ctx.Snapshot(), source.a)
    {
      hide Relabels, Closed, NonNegative, CostsBelow, Unambiguous, NoFreeReturn, SimpleLinks;
      var h, g, f := LayerGraph(nodes, links), ctx.Snapshot(), ToNode();
      Renaming();
      InLayers(nodes, source);
      assert source.a in NodesOf(LayerNodes(nodes));
      LayerShape(nodes, links);
      MapShape(h, g, f, LayerOf(), LayerIdMap(), ctx.Ids());
      MapCostsBelow(h, g, f, LayerOf(), A(source), INT_MAX);
      if SimpleLinks(links) && LayerIds(nodes, LayerIdMap()) {
        LayersAreUnambiguous(nodes, links, LayerIdMap());
        NoFreeReturnToSource(nodes, links, source);
        MapNoFreeReturn(h, g, f, LayerOf(), A(source));
      }
    }

    /** `cspf_run`. */
    method Run(source: CNode) returns (ok: bool)
      requires Valid() && source in nodes && (forall k | 0 <= k < |links| :: 0 <= links[k].cost)
      requires CostsBelow(LayerGraph(nodes, links), A(source), INT_MAX)
      modifies Elems(ctx.nodes)`cost, Elems(ctx.nodes)`parent, Elems(ctx.nodes)`heapidx
      ensures Valid() && nodes == old(nodes) && links == old(links)
      ensures SimpleLinks(links) && LayerIds(nodes, LayerIdMap()) ==> ok
      ensures ok ==> Solved(LayerGraph(nodes, links), LayerIdMap(), A(source), LayerCosts(), LayerParents())
      ensures ok ==> ParentsInside()
    {
      hide Solved, SimpleLinks, LayerIds, CostsBelow, Closed, NonNegative, Unambiguous, NoFreeReturn;
      hide LayerEdges, LinkEdges, LayerNodes, LayerGraph, LinksWithin, Named, NodesOf;
      RunReady(source);
      ok := ctx.Run(source.a);
      if ok {
        RunDone(source);
      }
    }

    lemma ParentsStay()
      requires forall n | n in ctx.nodes && ctx.NodeParents()[n].Some? :: ctx.NodeParents()[n].value in ctx.nodes
      ensures forall n | n in ctx.nodes && n.parent != null :: n.parent in ctx.nodes
    {
      forall n | n in ctx.nodes && n.parent != null ensures n.parent in ctx.nodes {
        assert ctx.NodeParents()[n] == Some(n.parent);
      }
    }

    lemma RunDone(source: CNode)
      requires Valid() && source in nodes
      requires Solved(ctx.Snapshot(), ctx.Ids(), source.a, ctx.NodeCosts(), ctx.NodeParents())
      ensures Solved(LayerGraph(nodes, links), LayerIdMap(), A(source), LayerCosts(), LayerParents()) && ParentsInside()
    {
      hide Solved, Relabels, SameIds;
      var h, g, f := LayerGraph(nodes, links), ctx.Snapshot(), ToNode();
      Renaming();
      InLayers(nodes, source);
      RelabelBack(h, g, f, LayerOf());
      SolvedFacts(g, ctx.Ids(), source.a, ctx.NodeCosts(), ctx.NodeParents());
      ParentsStay();
      LayerFields();
      LayerIdsMatch();
      MapSolved(g, h, LayerOf(), f, ctx.Ids(), LayerIdMap(), source.a, ctx.NodeCosts(), ctx.NodeParents(),
                LayerCosts(), LayerParents());
    }

    /** The layered maps read the fields of the nodes they name. */
    lemma LayerFields()
      requires Valid() && forall n | n in ctx.nodes && n.parent != null :: n.parent in ctx.nodes
      ensures ParentsInside()
      ensures forall n | n in ctx.Snapshot() :: n in LayerOf() && LayerOf()[n] in LayerNodes(nodes)
      ensures forall n | n in ctx.Snapshot() :: LayerCosts()[LayerOf()[n]] == ctx.NodeCosts()[n]
      ensures forall n | n in ctx.Snapshot() && ctx.NodeParents()[n].Some? :: ctx.NodeParents()[n].value in LayerOf()
      ensures forall n | n in ctx.Snapshot() ::
                LayerParents()[LayerOf()[n]] ==
                  if ctx.NodeParents()[n].Some? then Some(LayerOf()[ctx.NodeParents()[n].value]) else None
      ensures LayerCosts().Keys == LayerParents().Keys == LayerNodes(nodes)
    {
      SameNodes();
      hide LayerNodes, Apart, EdgesMatch, LinksWithin;
    }

    lemma LayerIdsMatch()
      requires Valid()
      ensures SameIds(LayerOf(), ctx.Ids(), LayerIdMap())
    {
      SameNodes();
      hide EdgesMatch, LinksWithin;
    }

    lemma SameNodes()
      requires Valid()
      ensures forall n | n in ctx.nodes :: n in NodesOf(LayerNodes(nodes))
      ensures forall x | x in LayerNodes(nodes) :: NodeOf(x) in ctx.nodes
    {
      hide LayerNodes, Apart, LinksWithin;
      forall n | n in ctx.nodes ensures n in NodesOf(LayerNodes(nodes)) {
        assert n in Elems(ctx.nodes);
      }
      forall x | x in LayerNodes(nodes) ensures NodeOf(x) in ctx.nodes {
        assert NodeOf(x) in NodesOf(LayerNodes(nodes));
        assert NodeOf(x) in Elems(ctx.nodes);
      }
    }

    /** `cspf_node_cost` after a run: the cost of a cheapest valley-free route, or INT_MAX without one. */
    method NodeCost(node: CNode, ghost source: CNode) returns (cost: int)
      requires Valid() && source in nodes && node in nodes
      requires Solved(LayerGraph(nodes, links), LayerIdMap(), A(source), LayerCosts(), LayerParents())
      ensures cost == INT_MAX <==> !HasRoute(links, source, node)
      ensures cost != INT_MAX ==> LeastRoute(links, source, node, cost)
    {
      cost := node.b.cost;
      InLayers(nodes, node);
      LayersEncodeRoutes(nodes, links, source, node, cost);
    }

    /**
     * `cspf_node_parent` after a run: the cookie of a different node that comes before `node` on a
     * cheapest valley-free route, or null for the source and for nodes no route reaches.
     */
    method NodeParent(node: CNode, ghost source: CNode) returns (cookie: object?)
      requires Valid() && source in nodes && node in nodes && SimpleLinks(links)
      requires Solved(LayerGraph(nodes, links), LayerIdMap(), A(source), LayerCosts(), LayerParents())
      requires ParentsInside()
      ensures node == source || !HasRoute(links, source, node) ==> cookie == null
      ensures node != source && HasRoute(links, source, node) ==>
                exists p | p in nodes && p != node && PrecedesOnBest(links, source, node, p) :: cookie == p.cookie
    {
      hide Solved, SimpleLinks, HasRoute, PrecedesOnBest, LayeredParent, LayerParents, EdgesMatch;
      var parent: Node? := node.b.parent;
      if parent == node.a {
        parent := node.a.parent;
      }
      ParentPrecedes(nodes, links, LayerIdMap(), source, node, LayerCosts(), LayerParents());
      ParentFields(node);
      if parent != null {
        cookie := parent.cookie;
      } else {
        cookie := null;
      }
    }

    /** The layered parent, read off the fields. */
    lemma ParentFields(node: CNode)
      requires Valid() && node in nodes && ParentsInside()
      ensures A(node) in LayerParents() && B(node) in LayerParents()
      ensures var p := if node.b.parent == node.a then node.a.parent else node.b.parent;
              var q := LayeredParent(LayerParents(), node);
              && (p == null <==> q == None)
              && (p != null ==> q.value.node in nodes && p.cookie == q.value.node.cookie)
    {
      hide LinksWithin, EdgesMatch;
      InLayers(nodes, node);
      ParentLayer(A(node));
      ParentLayer(B(node));
    }

    lemma ParentLayer(x: Layered<CNode>)
      requires Valid() && x in LayerNodes(nodes) && ParentsInside()
      ensures x in LayerParents()
      ensures NodeOf(x).parent == null <==> LayerParents()[x] == None
      ensures NodeOf(x).parent != null ==>
                var y := LayerParents()[x].value;
                y in LayerNodes(nodes) && y.node in nodes
                && NodeOf(y) == NodeOf(x).parent && NodeOf(y).cookie == y.node.cookie
    {
    }
  }

  lemma InLayers(nodes: set<CNode>, c: CNode)
    requires c in nodes
    ensures A(c) in LayerNodes(nodes) && B(c) in LayerNodes(nodes)
    ensures NodeOf(A(c)) == c.a && NodeOf(B(c)) == c.b
  {
  }

  /** No spf node stands for two layered ones, and both layers of a node carry its id and cookie. */
  ghost predicate NodesApart(nodes: set<CNode>) {
    && (forall x, y | x in LayerNodes(nodes) && y in LayerNodes(nodes) && NodeOf(x) == NodeOf(y) :: x == y)
    && (forall c | c in nodes :: c.a.id == c.b.id == c.id && c.a.cookie == c.b.cookie == c.cookie)
  }

  lemma ApartAdd(nodes: set<CNode>, c: CNode)
    requires NodesApart(nodes) && c.a !in NodesOf(LayerNodes(nodes)) && c.b !in NodesOf(LayerNodes(nodes))
    requires c.a != c.b && c.a.id == c.b.id == c.id && c.a.cookie == c.b.cookie == c.cookie
    ensures NodesApart(nodes + {c})
  {
    hide LayerNodes;
    LayerNodesAdd(nodes, c);
    forall x, y | x in LayerNodes(nodes + {c}) && y in LayerNodes(nodes + {c}) && NodeOf(x) == NodeOf(y)
      ensures x == y
    {
      assert x in LayerNodes(nodes) ==> NodeOf(x) in NodesOf(LayerNodes(nodes));
      assert y in LayerNodes(nodes) ==> NodeOf(y) in NodesOf(LayerNodes(nodes));
    }
  }

  lemma LayerNodesAdd(nodes: set<CNode>, c: CNode)
    ensures LayerNodes(nodes + {c}) == LayerNodes(nodes) + {A(c), B(c)}
    ensures NodesOf(LayerNodes(nodes + {c})) == NodesOf(LayerNodes(nodes)) + {c.a, c.b}
  {
    assert NodeOf(A(c)) == c.a && NodeOf(B(c)) == c.b;
  }

  lemma NodeElems(s: seq<Node>, c: CNode)
    ensures Elems(s + [c.a, c.b]) == Elems(s) + {c.a, c.b}
  {
  }

  lemma {:induction false} NoLinkEdges(x: Layered<CNode>, links: seq<Link<CNode>>)
    requires forall k | 0 <= k < |links| :: links[k].from != x.node
    ensures LinkEdges(x, links) == []
  {
    if links != [] {
      NoLinkEdges(x, links[..|links| - 1]);
    }
  }

  lemma LayerEdgesAdd(x: Layered<CNode>, links: seq<Link<CNode>>, l: Link<CNode>)
    ensures l.from == x.node ==> LayerEdges(x, links + [l]) == LayerEdges(x, links) + EdgesOf(l, x)
    ensures l.from == x.node ==> Named(LayerEdges(x, links + [l])) == Named(LayerEdges(x, links)) + Named(EdgesOf(l, x))
    ensures l.from != x.node ==> LayerEdges(x, links + [l]) == LayerEdges(x, links)
  {
    assert (links + [l])[..|links|] == links;
  }

  lemma EdgesStay(nodes: set<CNode>, links: seq<Link<CNode>>, x: Layered<CNode>)
    requires x in LayerNodes(nodes) && LinksWithin(nodes, links)
    ensures forall i | 0 <= i < |LayerEdges(x, links)| :: LayerEdges(x, links)[i].to in LayerNodes(nodes)
  {
    var es := LayerEdges(x, links);
    forall i | 0 <= i < |es| ensures es[i].to in LayerNodes(nodes) {
      if es[i] in LinkEdges(x, links) {
        var k := EdgeOrigin(x, links, es[i]);
        assert es[i].to == A(links[k].to) || es[i].to == B(links[k].to);
      } else {
        assert es[i] == Edge(B(x.node), 0);
      }
    }
  }
}
