/** The normalised form of a minimum-cost flow problem. Every edge gets lower
    bound zero by moving its lower bound out of the supplies, and every
    negative-cost edge is turned around (with its cost negated) after moving
    its whole capacity, so that all normalised costs are non-negative. The
    base graph's lower, upper, cost and supply values, which `normalized_network.rs` reads
    through closures, are given here as the values those closures return: a
    `Bounds` per edge and a supply per node. */
module MinimumCostFlowNormalizedNetwork {
  import opened Graph
  import opened Sums

  /** What `lower_fn`, `upper_fn` and `cost_fn` return for one base edge. */
  datatype Bounds = Bounds(lower: int, upper: int, cost: int)

  datatype NormalizedEdge = NormalizedEdge(u: nat, v: nat, lower: int, upper: int, cost: int, isReversed: bool)

  /** The base graph's node count and edges, and the normalised supplies `b`. */
  datatype NormalizedNetwork = NormalizedNetwork(numNodes: nat, base: seq<Edge<Bounds>>, b: seq<int>)

  /** The flow an edge is assumed to carry from the start, and so moves from
      its tail's supply to its head's: its lower bound, or its whole capacity
      when its cost is negative. */
  function Shift(d: Bounds): int
  {
    if d.cost >= 0 then d.lower else d.upper
  }

  /** `b` after the edges shift their flow, one after the other. */
  function Balance(supply: seq<int>, edges: seq<Edge<Bounds>>): (b: seq<int>)
    requires EndpointsIn(edges, |supply|)
    ensures |b| == |supply|
  {
    if |edges| == 0 then supply
    else
      var b := Balance(supply, edges[..|edges| - 1]);
      var e := edges[|edges| - 1];
      Moved(b, e.u, e.v, Shift(e.data))
  }

  /** `b[u] -= s; b[v] += s`. */
  function Moved(b: seq<int>, u: nat, v: nat, s: int): (b': seq<int>)
    requires u < |b| && v < |b|
    ensures |b'| == |b|
  {
    var b1 := b[u := b[u] - s];
    b1[v := b1[v] + s]
  }

  /** Net flow that the shifted edges carry into `x`. */
  function ShiftedInto(edges: seq<Edge<Bounds>>, x: nat): int
  {
    if |edges| == 0 then 0
    else
      var e := edges[|edges| - 1];
      ShiftedInto(edges[..|edges| - 1], x) + (if e.v == x then Shift(e.data) else 0) - (if e.u == x then Shift(e.data) else 0)
  }

  /** Each node's normalised supply is its own supply plus what the shifted
      edges carry into it. */
  lemma {:induction false} BalanceAt(supply: seq<int>, edges: seq<Edge<Bounds>>, x: nat)
    requires EndpointsIn(edges, |supply|) && x < |supply|
    ensures Balance(supply, edges)[x] == supply[x] + ShiftedInto(edges, x)
  {
    if |edges| > 0 {
      BalanceAt(supply, edges[..|edges| - 1], x);
    }
  }

  /** Moving flow between two nodes leaves the total supply unchanged. */
  lemma MovedSum(b: seq<int>, u: nat, v: nat, s: int)
    requires u < |b| && v < |b|
    ensures Sum(Moved(b, u, v, s)) == Sum(b)
  {
    SumMove(b, u, v, s);
  }

  /** The total supply is unchanged by normalisation. */
  lemma {:induction false} BalanceSum(supply: seq<int>, edges: seq<Edge<Bounds>>)
    requires EndpointsIn(edges, |supply|)
    ensures Sum(Balance(supply, edges)) == Sum(supply)
  {
    if |edges| > 0 {
      var e := edges[|edges| - 1];
      BalanceSum(supply, edges[..|edges| - 1]);
      MovedSum(Balance(supply, edges[..|edges| - 1]), e.u, e.v, Shift(e.data));
    }
  }

  /** `from`: `b` starts as the supplies and then each edge shifts its lower
      bound, or for a negative cost its capacity, from its tail to its head. */
  method From(n: nat, base: seq<Edge<Bounds>>, supply: seq<int>) returns (net: NormalizedNetwork)
    requires |supply| == n && EndpointsIn(base, n)
    ensures net.numNodes == n && net.base == base
    ensures net.b == Balance(supply, base)
  {
    var b: seq<int> := [];
    for u := 0 to n
      invariant b == supply[..u]
    {
      b := b + [supply[u]];
    }
    assert b == supply;
    for i := 0 to |base|
      invariant b == Balance(supply, base[..i])
    {
      var e := base[i];
      assert base[..i + 1][..i] == base[..i];
      if e.data.cost >= 0 {
        b := b[e.u := b[e.u] - e.data.lower];
        b := b[e.v := b[e.v] + e.data.lower];
      } else {
        b := b[e.u := b[e.u] - e.data.upper];
        b := b[e.v := b[e.v] + e.data.upper];
      }
    }
    assert base[..|base|] == base;
    net := NormalizedNetwork(n, base, b);
  }

  /** One edge as `iter_edges` yields it. */
  function Normalize(e: Edge<Bounds>): (ne: NormalizedEdge)
    ensures ne.cost >= 0 && ne.lower == e.data.lower && ne.upper == e.data.upper - e.data.lower
    ensures ne.isReversed <==> e.data.cost < 0
    ensures {ne.u, ne.v} == {e.u, e.v}
  {
    if e.data.cost < 0 then NormalizedEdge(e.v, e.u, e.data.lower, e.data.upper - e.data.lower, -e.data.cost, true)
    else NormalizedEdge(e.u, e.v, e.data.lower, e.data.upper - e.data.lower, e.data.cost, false)
  }

  /** The cost an edge had in the base graph: the normalised one, negated
      back for a reversed edge. */
  function OriginalCost(ne: NormalizedEdge): int
  {
    if ne.isReversed then -ne.cost else ne.cost
  }

  /** Turning a normalised edge back recovers the base edge's endpoints and
      cost. */
  lemma NormalizeRoundTrip(e: Edge<Bounds>)
    ensures var ne := Normalize(e);
            OriginalCost(ne) == e.data.cost &&
            (if ne.isReversed then (ne.v, ne.u) else (ne.u, ne.v)) == (e.u, e.v)
  {
  }

  /** `iter_edges`: the base edges, normalised one by one, in order. */
  function IterEdges(net: NormalizedNetwork): (r: seq<NormalizedEdge>)
    ensures |r| == |net.base|
  {
    seq(|net.base|, i requires 0 <= i < |net.base| => Normalize(net.base[i]))
  }

  /** No normalised edge has a negative cost, and none whose base edge has
      `lower <= upper` has a negative capacity; endpoints stay nodes. */
  lemma IterEdgesNonNegative(net: NormalizedNetwork)
    requires EndpointsIn(net.base, net.numNodes)
    ensures forall i :: 0 <= i < |IterEdges(net)| ==>
              IterEdges(net)[i].cost >= 0 && IterEdges(net)[i].u < net.numNodes && IterEdges(net)[i].v < net.numNodes &&
              (net.base[i].data.lower <= net.base[i].data.upper ==> IterEdges(net)[i].upper >= 0)
  {
  }

  /** The flow a base edge carries when its normalised edge carries `f`
      (`flow_original_graph`). */
  function OriginalFlow(ne: NormalizedEdge, f: int): int
  {
    if ne.isReversed then ne.upper + ne.lower - f else f + ne.lower
  }

  /** Net flow an edge carrying `x` brings into node `w`. */
  function Into(u: nat, v: nat, x: int, w: nat): int
  {
    (if v == w then x else 0) - (if u == w then x else 0)
  }

  /** Normalisation keeps each edge's capacity window: the normalised flow
      lies within `0 .. upper` exactly when the base flow lies within the
      base edge's bounds. */
  lemma OriginalFlowWithin(e: Edge<Bounds>, f: int)
    ensures var ne := Normalize(e);
            0 <= f <= ne.upper <==> e.data.lower <= OriginalFlow(ne, f) <= e.data.upper
  {
  }

  /** What the normalised edge carries into a node, plus what its shift
      moved there, is what the base edge carries there. */
  lemma OriginalFlowInto(e: Edge<Bounds>, f: int, w: nat)
    ensures var ne := Normalize(e);
            Into(ne.u, ne.v, f, w) + Into(e.u, e.v, Shift(e.data), w) == Into(e.u, e.v, OriginalFlow(ne, f), w)
  {
  }

  /** Normalisation changes the cost of every flow by the same constant:
      the base cost of the base flow is the normalised cost of the normalised
      flow plus a term that depends on the edge only. */
  lemma OriginalFlowCost(e: Edge<Bounds>, f: int)
    ensures var ne := Normalize(e);
            e.data.cost * OriginalFlow(ne, f) == ne.cost * f + e.data.cost * Shift(e.data)
  {
  }

  /** Net inflow at `w` of all base edges carrying the flows `x`. */
  function NetInto(edges: seq<Edge<Bounds>>, x: seq<int>, w: nat): int
    requires |x| == |edges|
  {
    if |edges| == 0 then 0
    else
      var k := |edges| - 1;
      NetInto(edges[..k], x[..k], w) + Into(edges[k].u, edges[k].v, x[k], w)
  }

  /** Net inflow at `w` of all normalised edges carrying the flows `f`. */
  function NormalizedNetInto(edges: seq<Edge<Bounds>>, f: seq<int>, w: nat): int
    requires |f| == |edges|
  {
    if |edges| == 0 then 0
    else
      var k := |edges| - 1;
      var ne := Normalize(edges[k]);
      NormalizedNetInto(edges[..k], f[..k], w) + Into(ne.u, ne.v, f[k], w)
  }

  /** The mapping back to base flows is exact at every node: the normalised
      supply plus the normalised flows' inflow equals the base supply plus
      the base flows' inflow. So flows that balance the normalised supplies
      map to flows that balance the base supplies, and back. */
  lemma {:induction false} NormalizationKeepsBalance(supply: seq<int>, edges: seq<Edge<Bounds>>, f: seq<int>, w: nat)
    requires EndpointsIn(edges, |supply|) && |f| == |edges| && w < |supply|
    ensures Balance(supply, edges)[w] + NormalizedNetInto(edges, f, w)
         == supply[w] + NetInto(edges, seq(|f|, i requires 0 <= i < |f| => OriginalFlow(Normalize(edges[i]), f[i])), w)
  {
    var x := seq(|f|, i requires 0 <= i < |f| => OriginalFlow(Normalize(edges[i]), f[i]));
    BalanceAt(supply, edges, w);
    if |edges| > 0 {
      var k := |edges| - 1;
      NormalizationKeepsBalance(supply, edges[..k], f[..k], w);
      BalanceAt(supply, edges[..k], w);
      var x' := seq(k, i requires 0 <= i < k => OriginalFlow(Normalize(edges[..k][i]), f[..k][i]));
      assert x' == x[..k];
      OriginalFlowInto(edges[k], f[k], w);
    }
  }
}
