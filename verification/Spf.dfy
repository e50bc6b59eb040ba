/** `spf.c`: Dijkstra's search with an indexed binary heap kept in place. */
module Spf {
  import opened Bytes
  import opened Graphs
  import opened Dijkstra

  class Node {
    const id: NodeId
    const cookie: object?
    var edges: seq<Edge<Node>>
    var parent: Node?
    var cost: int
    var heapidx: int

    constructor (id: NodeId, cookie: object?)
      ensures this.id == id && this.cookie == cookie && edges == []
    {
      this.id := id;
      this.cookie := cookie;
      edges := [];
    }
  }

  method EdgeAdd(from: Node, edge: Edge<Node>)
    modifies from`edges
    ensures from.edges == old(from.edges) + [edge]
  {
    from.edges := from.edges + [edge];
  }

  function Par(k: int): int {
    (k - 1) / 2
  }

  ghost function Elems(s: seq<Node>): set<Node> {
    set n | n in s
  }

  /**
   * The first `n` slots hold the nodes of `queue`, each of which knows its slot.
   * Counting makes the slots hold all of them (`OnHeap`).
   */
  ghost predicate Indexed(heap: array<Node>, n: nat, queue: set<Node>)
    reads heap, queue`heapidx
  {
    && |queue| == n <= heap.Length
    && forall k | 0 <= k < n :: heap[k] in queue && heap[k].heapidx == k
  }

  lemma {:induction false} DistinctSize(s: seq<Node>)
    requires forall i, j | 0 <= i < j < |s| :: s[i] != s[j]
    ensures |Elems(s)| == |s|
  {
    if s == [] {
      assert Elems(s) == {};
    } else {
      DistinctSize(s[1..]);
      assert Elems(s) == {s[0]} + Elems(s[1..]);
    }
  }

  lemma SubsetSize(a: set<Node>, b: set<Node>)
    requires a <= b
    ensures |a| <= |b| && (|a| == |b| ==> a == b)
  {
    assert b == a + (b - a);
  }

  /** Every queued node is in the slot it names. */
  lemma OnHeap(heap: array<Node>, n: nat, queue: set<Node>, x: Node)
    requires Indexed(heap, n, queue) && x in queue
    ensures 0 <= x.heapidx < n && heap[x.heapidx] == x
  {
    var s := heap[..n];
    DistinctSize(s);
    SubsetSize(Elems(s), queue);
    assert x in Elems(s);
  }

  ghost function Costs(heap: array<Node>, n: nat, queue: set<Node>): (c: seq<int>)
    requires n <= heap.Length && forall k | 0 <= k < n :: heap[k] in queue
    reads heap, queue`cost
    ensures |c| == n && forall k | 0 <= k < n :: c[k] == heap[k].cost
  {
    if n == 0 then [] else Costs(heap, n - 1, queue) + [heap[n - 1].cost]
  }

  function Swapped<T>(s: seq<T>, i: nat, j: nat): seq<T>
    requires i < |s| && j < |s|
  {
    s[i := s[j]][j := s[i]]
  }

  ghost predicate Ordered(c: seq<int>) {
    forall k {:trigger Par(k)} | 0 < k < |c| :: c[Par(k)] <= c[k]
  }

  /** The children of `index` are not below its parent. */
  ghost predicate Bridged(c: seq<int>, index: nat) {
    forall k {:trigger Par(k)} | 0 < k < |c| && Par(k) == index && 0 < index :: c[Par(index)] <= c[k]
  }

  /** Order holds everywhere, except perhaps below `index`. */
  ghost predicate OrderedBelow(c: seq<int>, index: nat) {
    (forall k {:trigger Par(k)} | 0 < k < |c| && Par(k) != index :: c[Par(k)] <= c[k]) && Bridged(c, index)
  }

  /** Order holds everywhere, except perhaps between `index` and its parent. */
  ghost predicate OrderedAbove(c: seq<int>, index: nat) {
    (forall k {:trigger Par(k)} | 0 < k < |c| && k != index :: c[Par(k)] <= c[k]) && Bridged(c, index)
  }

  lemma {:induction false} RootIsLeast(c: seq<int>, k: nat)
    requires Ordered(c) && k < |c|
    ensures c[0] <= c[k]
  {
    if k != 0 {
      RootIsLeast(c, Par(k));
    }
  }

  /** `m` is `index` or one of its children, and none of the three is cheaper. */
  ghost predicate LeastOfThree(c: seq<int>, index: nat, m: nat) {
    && index < |c| && m < |c| && (m == index || m == 2 * index + 1 || m == 2 * index + 2)
    && c[m] <= c[index]
    && (2 * index + 1 < |c| ==> c[m] <= c[2 * index + 1])
    && (2 * index + 2 < |c| ==> c[m] <= c[2 * index + 2])
  }

  lemma SinkDone(c: seq<int>, index: nat)
    requires OrderedBelow(c, index) && LeastOfThree(c, index, index)
    ensures Ordered(c)
  {
    forall k {:trigger Par(k)} | 0 < k < |c| ensures c[Par(k)] <= c[k] {
      assert Par(k) == index ==> k == 2 * index + 1 || k == 2 * index + 2;
    }
  }

  lemma Sink(c: seq<int>, index: nat, min: nat)
    requires OrderedBelow(c, index) && LeastOfThree(c, index, min) && c[min] < c[index]
    ensures OrderedBelow(Swapped(c, index, min), min)
  {
    var d := Swapped(c, index, min);
    assert Par(min) == index;
    forall k {:trigger Par(k)} | 0 < k < |d| && Par(k) != min ensures d[Par(k)] <= d[k] {
      assert Par(k) == index ==> k == 2 * index + 1 || k == 2 * index + 2;
    }
    forall k {:trigger Par(k)} | 0 < k < |d| && Par(k) == min ensures d[Par(min)] <= d[k] {
      assert k != min && k != index && c[Par(k)] <= c[k];
    }
  }

  lemma Rise(c: seq<int>, index: nat)
    requires OrderedAbove(c, index) && 0 < index < |c| && c[index] < c[Par(index)]
    ensures OrderedAbove(Swapped(c, index, Par(index)), Par(index))
  {
  }

  lemma AppendedOrder(c: seq<int>, d: seq<int>)
    requires Ordered(c) && |c| <= |d| <= |c| + 1
    requires (forall k | 0 <= k < |c| :: d[k] == c[k]) && (forall k | 0 <= k < |d| :: d[k] <= d[|d| - 1] || |c| == |d|)
    ensures Ordered(d)
  {
    forall k {:trigger Par(k)} | 0 < k < |d| ensures d[Par(k)] <= d[k] {
      if k < |c| {
        assert c[Par(k)] <= c[k];
      }
    }
  }

  lemma Decrease(c: seq<int>, index: nat, v: int)
    requires Ordered(c) && index < |c| && v <= c[index]
    ensures OrderedAbove(c[index := v], index)
  {
    var d := c[index := v];
    forall k {:trigger Par(k)} | 0 < k < |d| && Par(k) == index && 0 < index ensures d[Par(index)] <= d[k] {
      assert c[Par(index)] <= c[index] <= c[k];
    }
  }

  method Swap(heap: array<Node>, i: nat, j: nat, ghost n: nat, ghost queue: set<Node>)
    requires Indexed(heap, n, queue) && i < n && j < n && i != j
    modifies heap, queue`heapidx
    ensures Indexed(heap, n, queue)
    ensures Costs(heap, n, queue) == old(Swapped(Costs(heap, n, queue), i, j))
  {
    hide Costs;
    ghost var c := Costs(heap, n, queue);
    var temp := heap[i];
    heap[i] := heap[j];
    heap[j] := temp;
    heap[i].heapidx := i;
    heap[j].heapidx := j;
    assert forall k | 0 <= k < n :: Costs(heap, n, queue)[k] == Swapped(c, i, j)[k];
  }

  method PushDown(heap: array<Node>, heapsize: nat, ghost queue: set<Node>)
    requires Indexed(heap, heapsize, queue) && OrderedBelow(Costs(heap, heapsize, queue), 0)
    modifies heap, queue`heapidx
    ensures Indexed(heap, heapsize, queue) && Ordered(Costs(heap, heapsize, queue))
  {
    var index: nat := 0;
    while true
      invariant index < heapsize || index == 0
      invariant Indexed(heap, heapsize, queue) && OrderedBelow(Costs(heap, heapsize, queue), index)
      decreases heapsize - index
    {
      var min := index;
      var child := 2 * index + 1;
      if child < heapsize && heap[min].cost > heap[child].cost {
        min := child;
      }
      child := 2 * index + 2;
      if child < heapsize && heap[min].cost > heap[child].cost {
        min := child;
      }
      ghost var c := Costs(heap, heapsize, queue);
      if index == min {
        if heapsize != 0 {
          SinkDone(c, index);
        }
        break;
      }
      Sink(c, index, min);
      Swap(heap, index, min, heapsize, queue);
      index := min;
    }
  }

  method PullUp(heap: array<Node>, start: nat, ghost heapsize: nat, ghost queue: set<Node>)
    requires start < heapsize && Indexed(heap, heapsize, queue) && OrderedAbove(Costs(heap, heapsize, queue), start)
    modifies heap, queue`heapidx
    ensures Indexed(heap, heapsize, queue) && Ordered(Costs(heap, heapsize, queue))
  {
    var index: nat := start;
    while index != 0
      invariant index < heapsize
      invariant Indexed(heap, heapsize, queue) && OrderedAbove(Costs(heap, heapsize, queue), index)
    {
      var parent: nat := (index - 1) / 2;
      if heap[parent].cost <= heap[index].cost {
        break;
      }
      Rise(Costs(heap, heapsize, queue), index);
      Swap(heap, index, parent, heapsize, queue);
      index := parent;
    }
  }

  /** Takes the cheapest node from the queue. */
  method Pop(heap: array<Node>, heapsize: nat, ghost queue: set<Node>) returns (from: Node)
    requires 0 < heapsize && Indexed(heap, heapsize, queue) && Ordered(Costs(heap, heapsize, queue))
    modifies heap, queue`heapidx
    ensures from in queue && from.heapidx == -1 && forall x | x in queue :: from.cost <= x.cost
    ensures Indexed(heap, heapsize - 1, queue - {from}) && Ordered(Costs(heap, heapsize - 1, queue - {from}))
  {
    ghost var c := Costs(heap, heapsize, queue);
    forall x | x in queue ensures heap[0].cost <= x.cost {
      OnHeap(heap, heapsize, queue, x);
      RootIsLeast(c, x.heapidx);
    }
    from := heap[0];
    from.heapidx := -1;
    var left := heapsize - 1;
    if left != 0 {
      heap[0] := heap[left];
      heap[0].heapidx := 0;
      ghost var d := Costs(heap, left, queue - {from});
      forall k {:trigger Par(k)} | 0 < k < |d| && Par(k) != 0 ensures d[Par(k)] <= d[k] {
        assert d[k] == c[k] && d[Par(k)] == c[Par(k)];
      }
      PushDown(heap, left, queue - {from});
    }
  }

  /** There is always a free slot for a node that is not queued. */
  lemma QueueFits(heap: array<Node>, heapsize: nat, queue: set<Node>, to: Node, all: set<Node>)
    requires Indexed(heap, heapsize, queue) && queue <= all && |all| <= heap.Length
    requires to in all && to !in queue
    ensures heapsize < heap.Length
  {
    SubsetSize(queue + {to}, all);
  }

  ghost function AsOption(n: Node?): Option<Node> {
    if n == null then None else Some(n)
  }

  /** The fields of the nodes in `all` hold the state `st`. */
  ghost predicate Holds(all: set<Node>, st: State<Node>)
    reads all`cost, all`parent
  {
    && st.cost.Keys == all && st.parent.Keys == all
    && forall n | n in all :: st.cost[n] == n.cost && st.parent[n] == AsOption(n.parent)
  }

  /** The reached nodes that were not popped. */
  ghost function Queue(all: set<Node>, st: State<Node>): set<Node>
    requires st.cost.Keys == all
  {
    set n | n in all && st.cost[n] < INT_MAX && n !in st.done
  }

  /** The queue is kept as a heap. */
  ghost predicate Queued(all: set<Node>, st: State<Node>, heap: array<Node>, heapsize: nat)
    reads heap, all`heapidx, all`cost
  {
    && st.cost.Keys == all && |all| <= heap.Length
    && Indexed(heap, heapsize, Queue(all, st)) && Ordered(Costs(heap, heapsize, Queue(all, st)))
  }

  ghost predicate IdsOf(all: set<Node>, ids: map<Node, NodeId>) {
    ids.Keys == all && forall n | n in all :: ids[n] == n.id
  }

  ghost predicate GraphOf(all: set<Node>, g: Graph<Node>)
    reads all`edges
  {
    g.Keys == all && forall n | n in all :: g[n] == n.edges
  }

  /** `nl`: whether the id of `a` is below that of `b`; equal ids abort. */
  method Nl(a: Node, b: Node) returns (ok: bool, less: bool)
    ensures ok <==> exists i: nat :: DifferAt(a.id, b.id, i)
    ensures ok ==> (less <==> exists i: nat :: DifferAt(a.id, b.id, i) && a.id[i] < b.id[i])
    ensures ok == (a.id != b.id) && (ok ==> less == Less(a.id, b.id))
  {
    var ret := Memcmp(a.id, b.id);
    if ret != 0 {
      var i := FirstDifference(a.id, b.id);
      FirstDifferenceDecides(a.id, b.id, i);
      forall j | DifferAt(a.id, b.id, j) ensures j == i {
        SameFirst(a.id, b.id, i, j);
      }
    }
    if ret < 0 {
      return true, true;
    }
    if ret > 0 {
      return true, false;
    }
    return false, false;
  }

  /** Lowers the cost of `to`, which joins the queue if it was never reached. */
  method Improve(heap: array<Node>, heapsize: nat, from: Node, to: Node, cost: int,
                 ghost queue: set<Node>, ghost all: set<Node>)
    returns (newsize: nat)
    requires |all| <= heap.Length && to in all && cost < to.cost <= INT_MAX
    requires Indexed(heap, heapsize, queue) && Ordered(Costs(heap, heapsize, queue))
    requires queue <= all && (to in queue <==> to.cost < INT_MAX)
    requires forall n | n in queue :: n.cost <= INT_MAX
    modifies heap, to`cost, to`parent, (queue + {to})`heapidx
    ensures to.parent == from && to.cost == cost
    ensures Indexed(heap, newsize, queue + {to}) && Ordered(Costs(heap, newsize, queue + {to}))
  {
    hide Costs, Ordered, OrderedAbove;
    newsize := heapsize;
    ghost var c := Costs(heap, heapsize, queue);
    if to.cost == INT_MAX {
      QueueFits(heap, heapsize, queue, to, all);
      to.heapidx := heapsize;
      heap[heapsize] := to;
      newsize := heapsize + 1;
    } else {
      OnHeap(heap, heapsize, queue, to);
      assert queue + {to} == queue;
    }
    ghost var d := Costs(heap, newsize, queue + {to});
    AppendedOrder(c, d);
    to.parent := from;
    to.cost := cost;
    assert Costs(heap, newsize, queue + {to}) == d[to.heapidx := cost];
    Decrease(d, to.heapidx, cost);
    PullUp(heap, to.heapidx, newsize, queue + {to});
  }

  /** What one turn of the inner loop may assume of the two ends of the edge. */
  ghost predicate EdgeReady(all: set<Node>, ids: map<Node, NodeId>, st: State<Node>, from: Node, to: Node)
    reads all`cost, all`parent
  {
    && IdsOf(all, ids) && Holds(all, st)
    && from in all && to in all && from in st.walk
    && (to.parent != null ==> to.parent in all)
    && forall n | n in all :: n.cost <= INT_MAX
  }

  lemma RelaxImproves(ids: map<Node, NodeId>, st: State<Node>, from: Node, edge: Edge<Node>)
    requires from in st.cost && edge.to in st.cost && from in st.walk && from in ids
    requires edge.to in st.parent && (st.parent[edge.to].Some? ==> st.parent[edge.to].value in ids)
    requires st.cost[from] + edge.cost < st.cost[edge.to]
    ensures Relax(ids, st, from, edge).Some?
    ensures var t := Relax(ids, st, from, edge).value;
            && t.cost == st.cost[edge.to := st.cost[from] + edge.cost]
            && t.parent == st.parent[edge.to := Some(from)] && t.done == st.done
  {
  }

  lemma HeldFields(all: set<Node>, st: State<Node>)
    requires Holds(all, st)
    ensures st.cost.Keys == all && st.parent.Keys == all
    ensures forall n | n in all :: st.cost[n] == n.cost && st.parent[n] == AsOption(n.parent)
  {
  }

  lemma QueuedHeap(all: set<Node>, st: State<Node>, heap: array<Node>, n: nat)
    requires st.cost.Keys == all
    ensures Queued(all, st, heap, n) <==>
              |all| <= heap.Length && Indexed(heap, n, Queue(all, st)) && Ordered(Costs(heap, n, Queue(all, st)))
  {
  }

  lemma IdsKnown(all: set<Node>, ids: map<Node, NodeId>)
    requires IdsOf(all, ids)
    ensures ids.Keys == all
  {
  }

  lemma GraphKnown(all: set<Node>, g: Graph<Node>)
    requires GraphOf(all, g)
    ensures g.Keys == all && forall n | n in all :: g[n] == n.edges
  {
  }

  lemma FieldsHeld(all: set<Node>, st: State<Node>)
    requires st.cost.Keys == all && st.parent.Keys == all
    requires forall n | n in all :: st.cost[n] == n.cost && st.parent[n] == AsOption(n.parent)
    ensures Holds(all, st)
  {
  }

  lemma QueueGrows(all: set<Node>, st: State<Node>, t: State<Node>, to: Node)
    requires st.cost.Keys == all && to in all && to !in st.done && t.done == st.done
    requires t.cost.Keys == all && t.cost[to] < INT_MAX && forall n | n in all && n != to :: t.cost[n] == st.cost[n]
    ensures Queue(all, t) == Queue(all, st) + {to}
    ensures Queue(all, st) <= all && (to in Queue(all, st) <==> st.cost[to] < INT_MAX)
    ensures forall n | n in Queue(all, st) :: n in all && st.cost[n] < INT_MAX
  {
  }

  /** The branch that found a cheaper walk. */
  method RelaxCheaper(heap: array<Node>, heapsize: nat, from: Node, edge: Edge<Node>, cost: int,
                      ghost all: set<Node>, ghost ids: map<Node, NodeId>, ghost st: State<Node>)
    returns (newsize: nat, ghost st': State<Node>)
    requires EdgeReady(all, ids, st, from, edge.to) && Queued(all, st, heap, heapsize)
    requires cost == from.cost + edge.cost < edge.to.cost && edge.to !in st.done
    modifies heap, edge.to`cost, edge.to`parent, all`heapidx
    ensures Relax(ids, st, from, edge) == Some(st')
    ensures Holds(all, st') && Queued(all, st', heap, newsize)
  {
    hide Less, Indexed, Ordered, Costs, Relax, Queue, Holds, Queued, IdsOf;
    HeldFields(all, st);
    QueuedHeap(all, st, heap, heapsize);
    IdsKnown(all, ids);
    RelaxImproves(ids, st, from, edge);
    st' := Relax(ids, st, from, edge).value;
    QueueGrows(all, st, st', edge.to);
    newsize := Improve(heap, heapsize, from, edge.to, cost, Queue(all, st), all);
    forall n | n in all ensures st'.cost[n] == n.cost && st'.parent[n] == AsOption(n.parent) {
      if n != edge.to {
        assert n.cost == old(n.cost) && n.parent == old(n.parent);
      }
    }
    FieldsHeld(all, st');
    QueuedHeap(all, st', heap, newsize);
  }

  /** The branch for a walk of the same cost, where the smaller id wins. */
  method RelaxTie(from: Node, edge: Edge<Node>,
                  ghost all: set<Node>, ghost ids: map<Node, NodeId>, ghost st: State<Node>)
    returns (ok: bool, ghost st': State<Node>)
    requires EdgeReady(all, ids, st, from, edge.to)
    requires from.cost + edge.cost == edge.to.cost
    modifies edge.to`parent
    ensures ok <==> Relax(ids, st, from, edge).Some?
    ensures ok ==> st' == Relax(ids, st, from, edge).value && Holds(all, st')
    ensures ok ==> st'.cost == st.cost && st'.done == st.done
  {
    hide Less;
    st' := st;
    if edge.to.parent == null {
      return false, st;
    }
    var less: bool;
    ok, less := Nl(from, edge.to.parent);
    if !ok {
      return;
    }
    st' := Relax(ids, st, from, edge).value;
    if less {
      edge.to.parent := from;
    }
  }

  /** One turn of the inner loop; `!ok` stands for the abort in `nl` or its null parent. */
  method RelaxEdge(heap: array<Node>, heapsize: nat, from: Node, edge: Edge<Node>,
                   ghost all: set<Node>, ghost ids: map<Node, NodeId>, ghost st: State<Node>)
    returns (ok: bool, newsize: nat, ghost st': State<Node>)
    requires EdgeReady(all, ids, st, from, edge.to) && Queued(all, st, heap, heapsize)
    // the search never improves a node it has popped
    requires from.cost + edge.cost < edge.to.cost ==> edge.to !in st.done
    modifies heap, all`cost, all`parent, all`heapidx
    ensures ok <==> Relax(ids, st, from, edge).Some?
    ensures ok ==> st' == Relax(ids, st, from, edge).value
    ensures ok ==> Holds(all, st') && Queued(all, st', heap, newsize)
  {
    hide Less, Indexed, Ordered, Costs;
    ok, newsize, st' := true, heapsize, st;
    var cost := from.cost + edge.cost;
    if cost < edge.to.cost {
      newsize, st' := RelaxCheaper(heap, heapsize, from, edge, cost, all, ids, st);
    } else if cost == edge.to.cost {
      ok, st' := RelaxTie(from, edge, all, ids, st);
      assert ok ==> Queue(all, st') == Queue(all, st);
    }
  }

  /** The search may relax edge `k` of `from`, and what it knows survives. */
  lemma EdgeStep(all: set<Node>, g: Graph<Node>, ids: map<Node, NodeId>, source: Node,
                 st: State<Node>, from: Node, k: nat)
    requires GraphOf(all, g) && IdsOf(all, ids) && Holds(all, st)
    requires from in all && k < |from.edges| && Inv(g, ids, source, st, Some(from), k) && StepsFit(g, st)
    ensures EdgeReady(all, ids, st, from, from.edges[k].to)
    ensures from.cost + from.edges[k].cost < from.edges[k].to.cost ==> from.edges[k].to !in st.done
    ensures match Relax(ids, st, from, from.edges[k])
            case Some(st') => Inv(g, ids, source, st', Some(from), k + 1) && StepsFit(g, st') && st'.done == st.done
            case None => !Unambiguous(g, ids) || !NoFreeReturn(g, source)
  {
    RelaxStep(g, ids, source, st, from, k);
    match Relax(ids, st, from, from.edges[k])
    case Some(st') => KeepFits(g, st', st);
    case None => RelaxAborts(g, ids, source, st, from, k);
  }

  /** The inner loop: relaxes every edge of the node just popped. */
  method Expand(heap: array<Node>, heapsize: nat, from: Node, ghost source: Node,
                ghost all: set<Node>, ghost g: Graph<Node>, ghost ids: map<Node, NodeId>, ghost st: State<Node>)
    returns (ok: bool, newsize: nat, ghost st': State<Node>)
    requires GraphOf(all, g) && IdsOf(all, ids) && Holds(all, st) && Queued(all, st, heap, heapsize)
    requires from in all && Inv(g, ids, source, st, Some(from), 0) && StepsFit(g, st)
    modifies heap, all`cost, all`parent, all`heapidx
    ensures ok ==> Holds(all, st') && Queued(all, st', heap, newsize)
    ensures ok ==> Inv(g, ids, source, st', Some(from), |from.edges|) && StepsFit(g, st') && st'.done == st.done
    ensures !ok ==> !Unambiguous(g, ids) || !NoFreeReturn(g, source)
  {
    hide Inv, StepsFit, Unambiguous, NoFreeReturn, Holds, Queued, EdgeReady, Relax;
    ok, newsize, st' := true, heapsize, st;
    var k: nat := 0;
    while k < |from.edges|
      invariant k <= |from.edges| && ok && GraphOf(all, g)
      invariant Holds(all, st') && Queued(all, st', heap, newsize)
      invariant Inv(g, ids, source, st', Some(from), k) && StepsFit(g, st') && st'.done == st.done
    {
      EdgeStep(all, g, ids, source, st', from, k);
      ok, newsize, st' := RelaxEdge(heap, newsize, from, from.edges[k], all, ids, st');
      if !ok {
        return;
      }
      k := k + 1;
    }
  }

  /** Takes the cheapest queued node; `st.done` gains it. */
  method PopNode(heap: array<Node>, heapsize: nat, ghost all: set<Node>, ghost st: State<Node>) returns (from: Node)
    requires Holds(all, st) && Queued(all, st, heap, heapsize) && heapsize != 0
    modifies heap, all`heapidx
    ensures from in all && from !in st.done && st.cost[from] < INT_MAX
    ensures forall n | n in all && n !in st.done && st.cost[n] < INT_MAX :: st.cost[from] <= st.cost[n]
    ensures Holds(all, st.(done := st.done + {from}))
    ensures Queued(all, st.(done := st.done + {from}), heap, heapsize - 1)
  {
    from := Pop(heap, heapsize, Queue(all, st));
    assert Queue(all, st.(done := st.done + {from})) == Queue(all, st) - {from};
    forall n | n in all && n !in st.done && st.cost[n] < INT_MAX ensures st.cost[from] <= st.cost[n] {
      assert n in Queue(all, st);
    }
  }

  lemma NoneQueued(all: set<Node>, st: State<Node>, heap: array<Node>)
    requires Queued(all, st, heap, 0)
    ensures forall n | n in all && n !in st.done :: st.cost[n] >= INT_MAX
  {
    forall n | n in all && n !in st.done ensures st.cost[n] >= INT_MAX {
      assert n !in Queue(all, st);
    }
  }

  /** The main loop. */
  method Search(heap: array<Node>, source: Node,
                ghost all: set<Node>, ghost g: Graph<Node>, ghost ids: map<Node, NodeId>)
    returns (ok: bool, ghost st: State<Node>)
    requires GraphOf(all, g) && IdsOf(all, ids)
    requires source in all && Closed(g) && NonNegative(g) && CostsBelow(g, source, INT_MAX)
    requires Holds(all, InitialState(g, source)) && Queued(all, InitialState(g, source), heap, 1)
    modifies heap, all`cost, all`parent, all`heapidx
    ensures ok ==> Holds(all, st) && Finished(g, ids, source, st)
    ensures !ok ==> !Unambiguous(g, ids) || !NoFreeReturn(g, source)
  {
    hide Inv, StepsFit, Closed, NonNegative, Unambiguous, NoFreeReturn, CostsBelow, Holds, Queued;
    hide Finished, IdsOf, GraphOf;
    IdsKnown(all, ids);
    GraphKnown(all, g);
    var heapsize: nat := 1;
    ok, st := true, InitialState(g, source);
    InitInv(g, ids, source);
    while heapsize != 0
      invariant ok && Holds(all, st) && Queued(all, st, heap, heapsize)
      invariant Inv(g, ids, source, st, None, 0) && StepsFit(g, st) && st.done <= all
      decreases all - st.done
    {
      var from := PopNode(heap, heapsize, all, st);
      PopStep(g, ids, source, st, from);
      st := st.(done := st.done + {from});
      ok, heapsize, st := Expand(heap, heapsize - 1, from, source, all, g, ids, st);
      if !ok {
        return;
      }
      GraphKnown(all, g);
      FinishInv(g, ids, source, st, from);
    }
    NoneQueued(all, st, heap);
    EmptyQueue(g, ids, source, st);
  }

  /** Before the search only the source is reached, and alone in the heap. */
  lemma Prepared(all: set<Node>, g: Graph<Node>, source: Node, heap: array<Node>)
    requires g.Keys == all && source in all && |all| <= heap.Length && heap.Length > 0
    requires forall n | n in all :: n.parent == null && n.cost == if n == source then 0 else INT_MAX
    requires source.heapidx == 0 && heap[0] == source
    ensures Holds(all, InitialState(g, source)) && Queued(all, InitialState(g, source), heap, 1)
  {
    assert Queue(all, InitialState(g, source)) == {source};
  }

  class Context {
    var nodes: seq<Node>

    constructor ()
      ensures nodes == []
    {
      nodes := [];
    }

    method NodeAdd(node: Node)
      modifies this, node`edges
      ensures nodes == old(nodes) + [node]
      ensures node.edges == []
    {
      nodes := nodes + [node];
      node.edges := [];
    }

    ghost function Ids(): map<Node, NodeId>
      reads this
    {
      map n | n in nodes :: n.id
    }

    ghost function Snapshot(): Graph<Node>
      reads this, Elems(nodes)`edges
    {
      map n | n in nodes :: n.edges
    }

    ghost function NodeCosts(): map<Node, int>
      reads this, Elems(nodes)`cost
    {
      map n | n in nodes :: n.cost
    }

    ghost function NodeParents(): map<Node, Option<Node>>
      reads this, Elems(nodes)`parent
    {
      map n | n in nodes :: AsOption(n.parent)
    }

    lemma SnapshotMaps()
      ensures GraphOf(Elems(nodes), Snapshot()) && IdsOf(Elems(nodes), Ids())
    {
    }

    lemma HeldMaps(st: State<Node>)
      requires Holds(Elems(nodes), st)
      ensures NodeCosts() == st.cost && NodeParents() == st.parent
    {
    }

    lemma {:induction false} NodesSize(s: seq<Node>)
      ensures |Elems(s)| <= |s|
    {
      if s == [] {
        assert Elems(s) == {};
      } else {
        NodesSize(s[1..]);
        assert Elems(s) == {s[0]} + Elems(s[1..]);
      }
    }

    /** The first loop: no node is reached but the source. */
    method Prepare(source: Node) returns (heap: array<Node>)
      requires source in nodes
      modifies Elems(nodes)`cost, Elems(nodes)`parent, Elems(nodes)`heapidx
      ensures fresh(heap)
      ensures Holds(Elems(nodes), InitialState(Snapshot(), source))
      ensures Queued(Elems(nodes), InitialState(Snapshot(), source), heap, 1)
    {
      var i := 0;
      while i < |nodes|
        invariant i <= |nodes|
        invariant forall j | 0 <= j < i :: nodes[j].parent == null && nodes[j].cost == INT_MAX && nodes[j].heapidx == -1
      {
        var node := nodes[i];
        node.parent := null;
        node.cost := INT_MAX;
        node.heapidx := -1;
        i := i + 1;
      }
      source.cost := 0;
      source.heapidx := 0;
      heap := new Node[|nodes|](_ => source);
      NodesSize(nodes);
      Prepared(Elems(nodes), Snapshot(), source, heap);
    }

    /**
     * `spf_run`. The answer is the least cost over all walks, and the canonical parent,
     * unless an abort stopped the run.
     */
    method Run(source: Node) returns (ok: bool)
      requires source in nodes
      requires Closed(Snapshot()) && NonNegative(Snapshot())
      requires CostsBelow(Snapshot(), source, INT_MAX)
      modifies Elems(nodes)`cost, Elems(nodes)`parent, Elems(nodes)`heapidx
      ensures Unambiguous(Snapshot(), Ids()) && NoFreeReturn(Snapshot(), source) ==> ok
      ensures ok ==> Solved(Snapshot(), Ids(), source, NodeCosts(), NodeParents())
      ensures ok ==> NoFreeReturn(Snapshot(), source)
    {
      hide Snapshot, Ids, NodeCosts, NodeParents, Inv, Finished, Solved;
      hide Holds, Unambiguous, NoFreeReturn, CostsBelow, Queued;
      ghost var g: Graph<Node> := Snapshot();
      ghost var ids := Ids();
      SnapshotMaps();
      var heap := Prepare(source);
      ghost var st: State<Node>;
      ok, st := Search(heap, source, Elems(nodes), g, ids);
      if ok {
        FinalAnswer(g, ids, source, st);
        FinalClear(g, ids, source, st);
        HeldMaps(st);
      }
    }
  }
}
