/** The two ways the minimum-cost flow solvers extend a normalised network
    with artificial nodes and edges: a single super source and super sink
    (for successive shortest paths), or a root joined to every node, whose
    saturated edges make a first feasible flow (for network simplex). */
module MinimumCostFlowExtendNetwork {
  import opened Sums
  import opened MinimumCostFlowNormalizedNetwork

  /** The artificial edge node `u` with supply `e` gets: from the super
      source when `e` is positive, to the super sink when it is negative. */
  function SupplyDemandEdge(n: nat, u: nat, e: int): NormalizedEdge
  {
    if e > 0 then NormalizedEdge(n, u, 0, e, 0, false) else NormalizedEdge(u, n + 1, 0, -e, 0, false)
  }

  /** The artificial edges for the supplies `b`, in node order; a zero
      supply gets none. */
  function SupplyDemandEdges(b: seq<int>, n: nat): (r: seq<NormalizedEdge>)
  {
    if |b| == 0 then []
    else
      var u := |b| - 1;
      SupplyDemandEdges(b[..u], n) + (if b[u] != 0 then [SupplyDemandEdge(n, u, b[u])] else [])
  }

  /** `construct_extend_network_one_supply_one_demand`: the source is node
      `n`, the sink node `n + 1`; every node's supply moves onto an edge from
      the source or to the sink, and the fix takes the supply off the node and
      puts the positive total on the source and the negative total on the
      sink. */
  method OneSupplyOneDemand(net: NormalizedNetwork)
    returns (source: nat, sink: nat, edges: seq<NormalizedEdge>, excesses: seq<int>)
    requires |net.b| == net.numNodes
    ensures source == net.numNodes && sink == net.numNodes + 1
    ensures edges == SupplyDemandEdges(net.b, net.numNodes)
    ensures |excesses| == net.numNodes + 2
    ensures forall u :: 0 <= u < net.numNodes ==> excesses[u] == -net.b[u]
    ensures excesses[source] == PositivePart(net.b) && excesses[sink] == NegativePart(net.b)
  {
    var n := net.numNodes;
    source := n;
    sink := source + 1;
    edges := [];
    excesses := seq(n + 2, _ => 0);
    var totalPositive := PositivePart(net.b);
    var totalNegative := NegativePart(net.b);
    for u := 0 to n
      invariant |excesses| == n + 2
      invariant edges == SupplyDemandEdges(net.b[..u], n)
      invariant forall x :: 0 <= x < u ==> excesses[x] == -net.b[x]
      invariant forall x :: u <= x < n + 2 ==> excesses[x] == 0
    {
      assert net.b[..u + 1][..u] == net.b[..u];
      var excess := net.b[u];
      if excess > 0 {
        edges := edges + [NormalizedEdge(source, u, 0, excess, 0, false)];
      } else if excess < 0 {
        edges := edges + [NormalizedEdge(u, sink, 0, -excess, 0, false)];
      }
      excesses := excesses[u := excesses[u] - excess];
    }
    assert net.b[..n] == net.b;
    excesses := excesses[source := totalPositive];
    excesses := excesses[sink := totalNegative];
  }

  /** Every artificial edge joins the source to a node of positive supply,
      or a node of negative supply to the sink, with capacity the size of
      that supply, lower bound and cost zero. */
  lemma {:induction false} SupplyDemandEdgesShape(b: seq<int>, n: nat)
    requires |b| <= n
    ensures forall i :: 0 <= i < |SupplyDemandEdges(b, n)| ==>
              var e := SupplyDemandEdges(b, n)[i];
              e.lower == 0 && e.cost == 0 && !e.isReversed && e.upper > 0 &&
              ((e.u == n && e.v < |b| && b[e.v] == e.upper) || (e.v == n + 1 && e.u < |b| && b[e.u] == -e.upper))
  {
    if |b| > 0 {
      var u := |b| - 1;
      SupplyDemandEdgesShape(b[..u], n);
    }
  }

  /** A node gets an artificial edge exactly when its supply is not zero:
      `i` is its edge, or `-1` when it has none. */
  lemma {:induction false} SupplyDemandEdgeOf(b: seq<int>, n: nat, x: nat) returns (i: int)
    requires |b| <= n && x < |b|
    ensures 0 <= i < |SupplyDemandEdges(b, n)| <==> b[x] != 0
    ensures b[x] == 0 ==> i == -1
    ensures 0 <= i < |SupplyDemandEdges(b, n)| ==> SupplyDemandEdges(b, n)[i] == SupplyDemandEdge(n, x, b[x])
    ensures b[x] == 0 ==> forall j :: 0 <= j < |SupplyDemandEdges(b, n)| ==>
              SupplyDemandEdges(b, n)[j].u != x && SupplyDemandEdges(b, n)[j].v != x
  {
    SupplyDemandEdgesShape(b, n);
    var u := |b| - 1;
    var init := SupplyDemandEdges(b[..u], n);
    var tail: seq<NormalizedEdge> := if b[u] != 0 then [SupplyDemandEdge(n, u, b[u])] else [];
    assert SupplyDemandEdges(b, n) == init + tail;
    if x < u {
      i := SupplyDemandEdgeOf(b[..u], n, x);
      assert b[..u][x] == b[x];
    } else {
      i := if b[x] != 0 then |init| else -1;
    }
  }

  /** The fix of the one-supply-one-demand extension adds up to zero, so
      the extended network is as balanced as the normalised one. */
  lemma OneSupplyOneDemandBalanced(b: seq<int>, excesses: seq<int>)
    requires |excesses| == |b| + 2
    requires forall u :: 0 <= u < |b| ==> excesses[u] == -b[u]
    requires excesses[|b|] == PositivePart(b) && excesses[|b| + 1] == NegativePart(b)
    ensures Sum(excesses) == 0
  {
    SumSplitsBySign(b);
    var neg := seq(|b|, u requires 0 <= u < |b| => -b[u]);
    NegatedSum(b, neg);
    assert excesses == neg + [PositivePart(b)] + [NegativePart(b)];
    SumAppend(neg + [PositivePart(b)], NegativePart(b));
    SumAppend(neg, PositivePart(b));
  }

  lemma {:induction false} NegatedSum(b: seq<int>, neg: seq<int>)
    requires |neg| == |b| && forall u :: 0 <= u < |b| ==> neg[u] == -b[u]
    ensures Sum(neg) == -Sum(b)
  {
    if |b| > 0 {
      NegatedSum(b[..|b| - 1], neg[..|b| - 1]);
    }
  }

  /** `1 + ` the sum of the normalised costs. */
  function InfCost(edges: seq<NormalizedEdge>): int
  {
    if |edges| == 0 then 1 else InfCost(edges[..|edges| - 1]) + edges[|edges| - 1].cost
  }

  /** With no negative cost, `inf_cost` is larger than the cost of every
      edge and than the total cost of any of them. */
  lemma {:induction false} InfCostDominates(edges: seq<NormalizedEdge>)
    requires forall i :: 0 <= i < |edges| ==> edges[i].cost >= 0
    ensures InfCost(edges) >= 1
    ensures forall i :: 0 <= i < |edges| ==> edges[i].cost < InfCost(edges)
  {
    if |edges| > 0 {
      InfCostDominates(edges[..|edges| - 1]);
    }
  }

  /** The root edge of node `u` with supply `e`: into the root when `e` is
      not negative, out of it otherwise, at cost `inf`. */
  function RootEdge(root: nat, u: nat, e: int, inf: int): NormalizedEdge
  {
    if e >= 0 then NormalizedEdge(u, root, 0, e, inf, false) else NormalizedEdge(root, u, 0, -e, inf, false)
  }

  /** `construct_extend_network_feasible_solution`: the root is node `n`;
      node `u` gets root edge `u`, saturated by its initial flow `|b[u]|`
      after the `m` zero flows of the normalised edges; the fix moves every
      supply onto the root. */
  method FeasibleSolution(net: NormalizedNetwork)
    returns (root: nat, edges: seq<NormalizedEdge>, flows: seq<int>, fix: seq<int>)
    requires |net.b| == net.numNodes
    ensures root == net.numNodes
    ensures |edges| == net.numNodes && |flows| == |net.base| + net.numNodes && |fix| == net.numNodes + 1
    ensures forall u :: 0 <= u < net.numNodes ==> edges[u] == RootEdge(root, u, net.b[u], InfCost(IterEdges(net)))
    ensures forall j :: 0 <= j < |net.base| ==> flows[j] == 0
    ensures forall u :: 0 <= u < net.numNodes ==> flows[|net.base| + u] == edges[u].upper
    ensures forall u :: 0 <= u < net.numNodes ==> fix[u] == -net.b[u]
    ensures fix[root] == Sum(net.b)
  {
    var n, m := net.numNodes, |net.base|;
    var infCost := InfCost(IterEdges(net));
    root := n;
    edges := [];
    flows := seq(m, _ => 0);
    fix := seq(n + 1, _ => 0);
    for u := 0 to n
      invariant |edges| == u && |flows| == m + u && |fix| == n + 1
      invariant forall x :: 0 <= x < u ==> edges[x] == RootEdge(root, x, net.b[x], infCost)
      invariant forall j :: 0 <= j < m ==> flows[j] == 0
      invariant forall x :: 0 <= x < u ==> flows[m + x] == edges[x].upper
      invariant forall x :: 0 <= x < u ==> fix[x] == -net.b[x]
      invariant forall x :: u <= x < n ==> fix[x] == 0
      invariant fix[root] == Sum(net.b[..u])
    {
      var excess := net.b[u];
      var e := RootEdge(root, u, excess, infCost);
      ghost var edges0, flows0 := edges, flows;
      flows := flows + [e.upper];
      edges := edges + [e];
      assert forall x :: 0 <= x < u ==> flows[m + x] == flows0[m + x] && edges[x] == edges0[x];
      assert Sum(net.b[..u + 1]) == Sum(net.b[..u]) + excess by {
        assert net.b[..u + 1] == net.b[..u] + [excess];
        SumAppend(net.b[..u], excess);
      }
      fix := fix[u := fix[u] - excess];
      fix := fix[root := fix[root] + excess];
    }
    assert net.b[..n] == net.b;
  }

  /** Net inflow at `w` of the first `k` root edges carrying their initial
      flows. */
  function RootInto(edges: seq<NormalizedEdge>, flows: seq<int>, k: nat, w: nat): int
    requires k <= |edges| <= |flows|
  {
    if k == 0 then 0 else RootInto(edges, flows, k - 1, w) + Into(edges[k - 1].u, edges[k - 1].v, flows[k - 1], w)
  }

  /** The fix is exactly what the initial root flows do at each node: at an
      ordinary node they carry its supply away (or bring in its deficit), and
      at the root they collect the total supply. So the starting flow keeps
      every node in balance. */
  lemma {:induction false} RootFlowsMatchFix(b: seq<int>, edges: seq<NormalizedEdge>, flows: seq<int>, inf: int, k: nat, w: nat)
    requires |edges| == |flows| == |b| && k <= |b| && w <= |b|
    requires forall u :: 0 <= u < |b| ==> edges[u] == RootEdge(|b|, u, b[u], inf) && flows[u] == edges[u].upper
    ensures RootInto(edges, flows, k, w) == if w == |b| then Sum(b[..k]) else if w < k then -b[w] else 0
  {
    if k > 0 {
      RootFlowsMatchFix(b, edges, flows, inf, k - 1, w);
      assert b[..k] == b[..k - 1] + [b[k - 1]];
      SumAppend(b[..k - 1], b[k - 1]);
    }
  }
}
