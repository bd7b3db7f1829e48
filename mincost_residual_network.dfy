/** The residual network the minimum-cost flow solvers work on. It is laid
    out as the maximum-flow one is (`MaximumFlowResidualNetwork`): normalised
    edge `j` from `u` to `v` becomes a forward arc `u -> v` and a reverse arc
    `v -> u`, each the other's `rev`, in the slots of their tails. Both arcs
    have the edge's capacity as `upper`; the forward arc has the edge's cost
    and the reverse arc its negation; the flow on the edge is the reverse
    arc's residual. */
module MinimumCostFlowResidualNetwork {
  import opened Wrappers
  import opened Graph
  import opened Csr
  import opened Sums
  import M = MaximumFlowResidualNetwork
  import opened MinimumCostFlowNormalizedNetwork

  /** The edges as the layout sees them: endpoints and capacity. */
  function Ends(edges: seq<NormalizedEdge>): (r: seq<Edge<int>>)
    ensures |r| == |edges|
    ensures forall j :: 0 <= j < |edges| ==> r[j] == Edge(edges[j].u, edges[j].v, edges[j].upper)
  {
    seq(|edges|, j requires 0 <= j < |edges| => Edge(edges[j].u, edges[j].v, edges[j].upper))
  }

  /** Every edge joins two of the `n` nodes. */
  ghost predicate EndsIn(edges: seq<NormalizedEdge>, n: nat)
  {
    forall j :: 0 <= j < |edges| ==> edges[j].u < n && edges[j].v < n
  }

  /** The flow edge `j` starts with: from `initial_flows` when given, else 0. */
  function InitialFlow(init: Option<seq<int>>, j: nat): int
  {
    if init.Some? && j < |init.value| then init.value[j] else 0
  }

  /** Node `u`'s excess once built: its normalised supply (0 for an
      artificial node) plus its fix when one is given. */
  function Supply(b: seq<int>, fix: Option<seq<int>>, u: nat): int
  {
    (if u < |b| then b[u] else 0) + (if fix.Some? && u < |fix.value| then fix.value[u] else 0)
  }

  /** The per-arc and per-edge arrays build fills in. */
  datatype Arrays = Arrays(eid: seq<nat>, to: seq<nat>, upper: seq<int>, cost: seq<int>, rev: seq<nat>,
                           residual: seq<int>, lower: seq<int>, isReversed: seq<bool>)

  ghost predicate Sized(A: Arrays, m: nat)
  {
    |A.eid| == |A.lower| == |A.isReversed| == m &&
    |A.to| == |A.upper| == |A.cost| == |A.rev| == |A.residual| == 2 * m
  }

  /** Edge `j`'s two arcs and its own entries, as build writes them. */
  ghost predicate Placed(edges: seq<NormalizedEdge>, init: Option<seq<int>>, A: Arrays, j: nat)
    requires Sized(A, |edges|) && j < |edges|
  {
    var E := Ends(edges);
    var f, r := M.ForwardArc(E, j), M.ReverseArc(E, j);
    A.eid[j] == f && M.EdgeArcs(E, false, A.upper, A.to, A.rev, j) &&
    A.cost[f] == edges[j].cost && A.cost[r] == -edges[j].cost &&
    A.residual[f] == edges[j].upper - InitialFlow(init, j) && A.residual[r] == InitialFlow(init, j) &&
    A.lower[j] == edges[j].lower && A.isReversed[j] == edges[j].isReversed
  }

  /** Writing edge `i`'s arcs keeps the earlier edges placed. */
  lemma PlaceKeeps(edges: seq<NormalizedEdge>, init: Option<seq<int>>, A: Arrays, A': Arrays, i: nat, j: nat)
    requires Sized(A, |edges|) && Sized(A', |edges|) && j < i < |edges|
    requires Placed(edges, init, A, j)
    requires A'.eid[j] == A.eid[j] && A'.lower[j] == A.lower[j] && A'.isReversed[j] == A.isReversed[j]
    requires forall a :: 0 <= a < 2 * |edges| && a != M.ForwardArc(Ends(edges), i) && a != M.ReverseArc(Ends(edges), i) ==>
               A'.to[a] == A.to[a] && A'.upper[a] == A.upper[a] && A'.cost[a] == A.cost[a] &&
               A'.rev[a] == A.rev[a] && A'.residual[a] == A.residual[a]
    ensures Placed(edges, init, A', j)
  {
    M.FreshSlots(Ends(edges), i, j);
  }

  /** Edge `i` (here `e`, with initial flow `x`) written with its forward
      arc in slot `f` and its reverse arc in slot `r`. */
  function Write(A: Arrays, e: NormalizedEdge, x: int, i: nat, f: nat, r: nat): Arrays
    requires i < |A.eid| == |A.lower| == |A.isReversed|
    requires f < |A.to| && r < |A.to| && |A.to| == |A.upper| == |A.cost| == |A.rev| == |A.residual|
  {
    Arrays(A.eid[i := f], A.to[f := e.v][r := e.u], A.upper[f := e.upper][r := e.upper],
           A.cost[f := e.cost][r := -e.cost], A.rev[f := r][r := f],
           A.residual[f := e.upper - x][r := x], A.lower[i := e.lower], A.isReversed[i := e.isReversed])
  }

  /** Writing edge `i`'s two arcs into their slots places it and keeps the
      earlier edges placed. */
  lemma PlaceEdge(edges: seq<NormalizedEdge>, init: Option<seq<int>>, A: Arrays, A': Arrays, i: nat, f: nat, r: nat)
    requires Sized(A, |edges|) && i < |edges|
    requires forall j :: 0 <= j < i ==> Placed(edges, init, A, j)
    requires f == M.ForwardArc(Ends(edges), i) && r == M.ReverseArc(Ends(edges), i)
    requires A' == Write(A, edges[i], InitialFlow(init, i), i, f, r)
    ensures Sized(A', |edges|)
    ensures forall j :: 0 <= j <= i ==> Placed(edges, init, A', j)
  {
    M.OwnSlots(Ends(edges), i);
    forall j | 0 <= j <= i
      ensures Placed(edges, init, A', j)
    {
      if j < i {
        PlaceKeeps(edges, init, A, A', i, j);
      }
    }
  }

  /** build, one round of the placement loop: edge `i`'s arcs take the next
      free slots of its endpoints, the forward arc first. */
  method PlaceNext(n: nat, edges: seq<NormalizedEdge>, init: Option<seq<int>>, start: seq<nat>, i: nat,
                   A: Arrays, counter: seq<nat>)
    returns (A': Arrays, counter': seq<nat>)
    requires EndsIn(edges, n) && i < |edges| && Sized(A, |edges|)
    requires init.Some? ==> |init.value| >= |edges|
    requires M.Offsets(n, Ends(edges), start)
    requires |counter| == n && forall x :: 0 <= x < n ==> counter[x] == Count(M.Keys(Ends(edges))[..2 * i], x)
    requires forall j :: 0 <= j < i ==> Placed(edges, init, A, j)
    ensures Sized(A', |edges|)
    ensures |counter'| == n && forall x :: 0 <= x < n ==> counter'[x] == Count(M.Keys(Ends(edges))[..2 * (i + 1)], x)
    ensures forall j :: 0 <= j <= i ==> Placed(edges, init, A', j)
  {
    ghost var E := Ends(edges);
    var e := edges[i];
    var u, v := e.u, e.v;
    var arcU := start[u] + counter[u];
    var c1 := counter[u := counter[u] + 1];
    var arcV := start[v] + c1[v];
    counter' := c1[v := c1[v] + 1];
    assert E[i] == Edge(u, v, e.upper);
    M.SlotsOfEdge(n, E, start, counter, c1, counter', i);
    var initialFlow := if init.Some? then init.value[i] else 0;
    A' := Write(A, e, initialFlow, i, arcU, arcV);
    PlaceEdge(edges, init, A, A', i, arcU, arcV);
  }

  /** build, the placement loop over all edges. */
  method PlaceArcs(n: nat, edges: seq<NormalizedEdge>, init: Option<seq<int>>, start: seq<nat>) returns (A: Arrays)
    requires EndsIn(edges, n)
    requires init.Some? ==> |init.value| >= |edges|
    requires M.Offsets(n, Ends(edges), start)
    ensures Sized(A, |edges|)
    ensures forall j :: 0 <= j < |edges| ==> Placed(edges, init, A, j)
  {
    var m := |edges|;
    A := Arrays(seq(m, _ => M.Invalid), seq(2 * m, _ => M.Invalid), seq(2 * m, _ => 0), seq(2 * m, _ => 0),
                seq(2 * m, _ => M.Invalid), seq(2 * m, _ => 0), seq(m, _ => 0), seq(m, _ => false));
    var counter := seq(n, _ => 0);
    var i := 0;
    while i < m
      invariant 0 <= i <= m && Sized(A, m) && |counter| == n
      invariant forall x :: 0 <= x < n ==> counter[x] == Count(M.Keys(Ends(edges))[..2 * i], x)
      invariant forall j :: 0 <= j < i ==> Placed(edges, init, A, j)
    {
      A, counter := PlaceNext(n, edges, init, start, i, A, counter);
      i := i + 1;
    }
  }

  /** build, the first two loops: each node's excess is its normalised
      supply, plus its fix when one is given. */
  method InitialExcesses(n: nat, b: seq<int>, fix: Option<seq<int>>) returns (excesses: seq<int>)
    requires |b| <= n && (fix.Some? ==> |fix.value| >= n)
    ensures |excesses| == n && forall u :: 0 <= u < n ==> excesses[u] == Supply(b, fix, u)
  {
    excesses := seq(n, _ => 0);
    for u := 0 to |b|
      invariant |excesses| == n
      invariant forall x :: 0 <= x < u ==> excesses[x] == b[x]
      invariant forall x :: u <= x < n ==> excesses[x] == 0
    {
      excesses := excesses[u := b[u]];
    }
    if fix.Some? {
      var f := fix.value;
      for u := 0 to n
        invariant |excesses| == n
        invariant forall x :: 0 <= x < u ==> excesses[x] == Supply(b, fix, x)
        invariant forall x :: u <= x < n ==> excesses[x] == if x < |b| then b[x] else 0
      {
        excesses := excesses[u := excesses[u] + f[u]];
      }
    }
  }

  /** What the placement adds up to: the maximum-flow layout of the edges'
      endpoints and capacities, with the arc properties it brings. */
  lemma BuildOk(n: nat, edges: seq<NormalizedEdge>, init: Option<seq<int>>, start: seq<nat>, A: Arrays)
    requires EndsIn(edges, n) && Sized(A, |edges|)
    requires M.Offsets(n, Ends(edges), start)
    requires forall j :: 0 <= j < |edges| ==> Placed(edges, init, A, j)
    ensures M.Layout(n, Ends(edges), false, A.eid, start, A.upper, A.to, A.rev)
    ensures M.ArcsOk(n, start, A.to, A.rev)
  {
    var E := Ends(edges);
    forall j | 0 <= j < |edges|
      ensures A.eid[j] == M.ForwardArc(E, j) && M.EdgeArcs(E, false, A.upper, A.to, A.rev, j)
    {
      assert Placed(edges, init, A, j);
    }
    assert EndpointsIn(E, n);
    M.LayoutArcs(n, E, false, A.eid, start, A.upper, A.to, A.rev);
  }

  /** Arc `a`'s cost is the negation of its reverse's, both have the same
      capacity, and their residuals add up to it; with initial flows within
      the capacities, its residual is not negative; with no initial flow and
      no negative cost, it has residual capacity only if its cost is not
      negative. */
  ghost predicate PairOk(edges: seq<NormalizedEdge>, init: Option<seq<int>>, A: Arrays, a: nat)
    requires Sized(A, |edges|) && a < 2 * |edges|
  {
    A.rev[a] < 2 * |edges| &&
    A.cost[A.rev[a]] == -A.cost[a] && A.upper[A.rev[a]] == A.upper[a] &&
    A.residual[a] + A.residual[A.rev[a]] == A.upper[a] &&
    ((forall j :: 0 <= j < |edges| ==> 0 <= InitialFlow(init, j) <= edges[j].upper) ==> A.residual[a] >= 0) &&
    ((forall j :: 0 <= j < |edges| ==> InitialFlow(init, j) == 0 && edges[j].cost >= 0) ==> A.residual[a] > 0 ==> A.cost[a] >= 0)
  }

  lemma PlacedPair(n: nat, edges: seq<NormalizedEdge>, init: Option<seq<int>>, A: Arrays, a: nat)
    requires EndsIn(edges, n) && Sized(A, |edges|) && a < 2 * |edges|
    requires forall j :: 0 <= j < |edges| ==> Placed(edges, init, A, j)
    ensures PairOk(edges, init, A, a)
  {
    var E := Ends(edges);
    var k := M.Keys(E);
    assert EndpointsIn(E, n);
    M.KeysIn(E, n);
    var p := SlotOnto(k, n, a);
    var j := p / 2;
    assert Placed(edges, init, A, j);
    assert p == 2 * j || p == 2 * j + 1;
  }

  /** Edge `j`'s forward arc and its reverse, as build leaves them. */
  ghost predicate ForwardOk(edges: seq<NormalizedEdge>, init: Option<seq<int>>, A: Arrays, j: nat)
    requires Sized(A, |edges|) && j < |edges|
  {
    var f := A.eid[j];
    f < 2 * |edges| && A.rev[f] < 2 * |edges| &&
    A.to[f] == edges[j].v && A.to[A.rev[f]] == edges[j].u && A.upper[f] == edges[j].upper &&
    A.cost[f] == edges[j].cost && A.lower[j] == edges[j].lower && A.isReversed[j] == edges[j].isReversed &&
    A.residual[f] == edges[j].upper - InitialFlow(init, j) && A.residual[A.rev[f]] == InitialFlow(init, j)
  }

  lemma PlacedForward(edges: seq<NormalizedEdge>, init: Option<seq<int>>, A: Arrays, j: nat)
    requires Sized(A, |edges|) && j < |edges| && Placed(edges, init, A, j)
    ensures ForwardOk(edges, init, A, j)
  {
    assert M.EdgeArcs(Ends(edges), false, A.upper, A.to, A.rev, j);
  }

  /** The arrays build leaves for `n` nodes and these edges. */
  ghost predicate ArraysOk(n: nat, edges: seq<NormalizedEdge>, init: Option<seq<int>>, start: seq<nat>, A: Arrays)
  {
    Sized(A, |edges|) && |start| == n + 1 &&
    M.Layout(n, Ends(edges), false, A.eid, start, A.upper, A.to, A.rev) && M.ArcsOk(n, start, A.to, A.rev) &&
    (forall a :: 0 <= a < 2 * |edges| ==> PairOk(edges, init, A, a)) &&
    (forall j :: 0 <= j < |edges| ==> ForwardOk(edges, init, A, j))
  }

  /** build, from the degree count on: the arrays for the edges `edges` on
      `n` nodes. */
  method BuildArrays(n: nat, edges: seq<NormalizedEdge>, init: Option<seq<int>>) returns (start: seq<nat>, A: Arrays)
    requires EndsIn(edges, n)
    requires init.Some? ==> |init.value| >= |edges|
    ensures ArraysOk(n, edges, init, start, A)
  {
    var E := Ends(edges);
    var degree := M.CountDegrees(n, E);
    start := M.Starts(n, E, degree);
    A := PlaceArcs(n, edges, init, start);
    BuildOk(n, edges, init, start, A);
    forall a | 0 <= a < 2 * |edges|
      ensures PairOk(edges, init, A, a)
    {
      PlacedPair(n, edges, init, A, a);
    }
    forall j | 0 <= j < |edges|
      ensures ForwardOk(edges, init, A, j)
    {
      PlacedForward(edges, init, A, j);
    }
  }

  /** The arrays before build writes them. */
  function Defaults(m: nat): (A: Arrays)
    ensures Sized(A, m)
  {
    Arrays(seq(m, _ => M.Invalid), seq(2 * m, _ => M.Invalid), seq(2 * m, _ => 0), seq(2 * m, _ => 0),
           seq(2 * m, _ => M.Invalid), seq(2 * m, _ => 0), seq(m, _ => 0), seq(m, _ => false))
  }

  /** build, as `new` calls it on the `n` nodes and the edges `all` of the
      extended network: nothing when the normalised network has no node,
      else the excesses and the arrays. */
  method Build(net: NormalizedNetwork, n: nat, all: seq<NormalizedEdge>, init: Option<seq<int>>, fix: Option<seq<int>>)
    returns (start: seq<nat>, A: Arrays, excesses: seq<int>)
    requires |net.b| == net.numNodes <= n
    requires net.numNodes > 0 ==> EndsIn(all, n)
    requires net.numNodes > 0 && init.Some? ==> |init.value| >= |all|
    requires net.numNodes > 0 && fix.Some? ==> |fix.value| >= n
    ensures Sized(A, |all|) && |start| == n + 1 && |excesses| == n
    ensures net.numNodes == 0 ==> start == seq(n + 1, _ => 0) && A == Defaults(|all|) && excesses == seq(n, _ => 0)
    ensures net.numNodes > 0 ==>
              ArraysOk(n, all, init, start, A) && forall u :: 0 <= u < n ==> excesses[u] == Supply(net.b, fix, u)
  {
    if net.numNodes == 0 {
      start, A, excesses := seq(n + 1, _ => 0), Defaults(|all|), seq(n, _ => 0);
    } else {
      excesses := InitialExcesses(n, net.b, fix);
      start, A := BuildArrays(n, all, init);
    }
  }

  /** Every arc's residual lies between zero and its capacity, the rest of
      the capacity being on its reverse. */
  ghost predicate FlowWithin(residual: seq<int>, upper: seq<int>, rev: seq<nat>)
    requires |residual| == |upper| == |rev| && forall a :: 0 <= a < |rev| ==> rev[a] < |rev|
  {
    forall a :: 0 <= a < |rev| ==> 0 <= residual[a] && residual[a] + residual[rev[a]] == upper[a]
  }

  /** `any(|e| e != 0)` over `s`. */
  function AnyNonZero(s: seq<int>): (r: bool)
    ensures r <==> exists i :: 0 <= i < |s| && s[i] != 0
  {
    if |s| == 0 then false
    else
      var r := AnyNonZero(s[..|s| - 1]);
      assert forall i :: 0 <= i < |s| - 1 ==> s[..|s| - 1][i] == s[i];
      r || s[|s| - 1] != 0
  }

  /** Complementary slackness for one arc of capacity `upper` carrying
      flow `f` at reduced cost `r`: an empty arc may not have negative
      reduced cost, a partly used one must have none, a full one may not
      have positive. */
  predicate Slack(f: int, upper: int, r: int)
  {
    if f == 0 then r >= 0 else if 0 < f < upper then r == 0 else r <= 0
  }

  /** Total base cost of the base edges `base` carrying the flows `x`. */
  function ObjectiveOf(base: seq<Edge<Bounds>>, x: seq<int>): int
    requires |x| == |base|
  {
    if |base| == 0 then 0
    else
      var k := |base| - 1;
      ObjectiveOf(base[..k], x[..k]) + base[k].data.cost * x[k]
  }

  lemma ObjectiveStep(base: seq<Edge<Bounds>>, x: seq<int>, j: nat)
    requires |x| == |base| && j < |base|
    ensures ObjectiveOf(base[..j + 1], x[..j + 1]) == ObjectiveOf(base[..j], x[..j]) + base[j].data.cost * x[j]
  {
    assert base[..j + 1][..j] == base[..j] && x[..j + 1][..j] == x[..j];
  }

  class ResidualNetwork {
    const numNodes: nat
    const numEdges: nat
    const edgeIdToArcId: seq<nat>
    const start: seq<nat>
    const to: seq<nat>
    const upper: seq<int>
    const cost: seq<int>
    const rev: seq<nat>
    var residual: seq<int>
    var excesses: seq<int>
    var potentials: seq<int>
    const numNodesOriginalGraph: nat
    const numEdgesOriginalGraph: nat
    const b: seq<int>
    const isReversed: seq<bool>
    const lower: seq<int>
    /** The normalised network and all the edges (normalised, then
        artificial) the network was built from. */
    ghost const net: NormalizedNetwork
    ghost const edges: seq<NormalizedEdge>

    /** The sizes build gives the arrays, and the normalised edges leading
        the edge list. */
    ghost predicate Wf()
    {
      numEdges == |edges| && |edgeIdToArcId| == |isReversed| == |lower| == numEdges &&
      |start| == numNodes + 1 && |b| == numNodes &&
      |to| == |upper| == |cost| == |rev| == 2 * numEdges &&
      numNodesOriginalGraph == net.numNodes <= numNodes && numEdgesOriginalGraph == |net.base| <= numEdges &&
      EndpointsIn(net.base, net.numNodes) &&
      edges[..numEdgesOriginalGraph] == IterEdges(net)
    }

    /** The arcs once built: the arc properties of the maximum-flow layout,
        paired costs and capacities, and each edge's forward arc carrying the
        edge's head, tail, capacity and cost. */
    ghost predicate Built()
      requires Wf()
    {
      M.ArcsOk(numNodes, start, to, rev) &&
      (forall a :: 0 <= a < 2 * numEdges ==> cost[rev[a]] == -cost[a] && upper[rev[a]] == upper[a]) &&
      (forall j {:trigger EdgeOk(j)} {:trigger edgeIdToArcId[j]} :: 0 <= j < numEdges ==> EdgeOk(j))
    }

    ghost predicate EdgeOk(j: nat)
      requires Wf() && j < numEdges
    {
      var f := edgeIdToArcId[j];
      f < 2 * numEdges && rev[f] < 2 * numEdges &&
      to[f] == edges[j].v && to[rev[f]] == edges[j].u && upper[f] == edges[j].upper && cost[f] == edges[j].cost &&
      lower[j] == edges[j].lower && isReversed[j] == edges[j].isReversed
    }

    /** Each edge's forward arc has the capacity less the initial flow as
        residual, and its reverse arc the initial flow. */
    ghost predicate StartFlows(init: Option<seq<int>>)
      reads this
      requires Wf() && |residual| == 2 * numEdges && Built()
    {
      forall j {:trigger edges[j]} :: 0 <= j < numEdges ==>
        EdgeOk(j) &&
        residual[edgeIdToArcId[j]] == edges[j].upper - InitialFlow(init, j) &&
        residual[rev[edgeIdToArcId[j]]] == InitialFlow(init, j)
    }

    /** The residuals of every arc and its reverse add up to the capacity. */
    ghost predicate PairSums()
      reads this
      requires Wf() && |residual| == 2 * numEdges && Built()
    {
      forall a :: 0 <= a < 2 * numEdges ==> rev[a] < 2 * numEdges && residual[a] + residual[rev[a]] == upper[a]
    }

    /** Build runs only when the normalised network has a node; otherwise
        the arrays keep their initial contents, which are a layout only when
        there is no edge. */
    ghost predicate Valid()
      reads this
    {
      Wf() && |residual| == 2 * numEdges && |excesses| == numNodes && |potentials| == numNodes &&
      (numNodesOriginalGraph > 0 || numEdges == 0 ==> Built())
    }

    /** `new`: the network of `net` extended by `numArtificialNodes` nodes
        and `artificialEdges`, each edge starting with its initial flow and
        each node with its normalised supply plus its fix. With no node in
        `net`, build returns at once and leaves the initial arrays. */
    constructor (net: NormalizedNetwork, numArtificialNodes: nat, artificialEdges: seq<NormalizedEdge>,
                 initialFlows: Option<seq<int>>, fix: Option<seq<int>>)
      requires |net.b| == net.numNodes && EndpointsIn(net.base, net.numNodes)
      requires net.numNodes > 0 ==> EndsIn(artificialEdges, net.numNodes + numArtificialNodes)
      requires net.numNodes > 0 && initialFlows.Some? ==> |initialFlows.value| >= |net.base| + |artificialEdges|
      requires net.numNodes > 0 && fix.Some? ==> |fix.value| >= net.numNodes + numArtificialNodes
      ensures Valid() && this.net == net && edges == IterEdges(net) + artificialEdges
      ensures numNodes == net.numNodes + numArtificialNodes && numEdges == |net.base| + |artificialEdges|
      ensures forall u :: 0 <= u < numNodes ==> potentials[u] == 0
      ensures net.numNodes == 0 ==>
                excesses == b && (forall u :: 0 <= u < numNodes ==> excesses[u] == 0) && residual == seq(2 * numEdges, _ => 0) &&
                start == seq(numNodes + 1, _ => 0) && edgeIdToArcId == seq(numEdges, _ => M.Invalid)
      ensures net.numNodes > 0 ==>
                Built() && M.Layout(numNodes, Ends(edges), false, edgeIdToArcId, start, upper, to, rev) &&
                excesses == b && (forall u :: 0 <= u < numNodes ==> excesses[u] == Supply(net.b, fix, u)) &&
                StartFlows(initialFlows) && PairSums()
      ensures net.numNodes > 0 && (forall j :: 0 <= j < |edges| ==> 0 <= InitialFlow(initialFlows, j) <= edges[j].upper) ==>
                FlowWithin(residual, upper, rev)
      ensures net.numNodes > 0 && (forall j :: 0 <= j < |edges| ==> InitialFlow(initialFlows, j) == 0 && edges[j].cost >= 0) ==>
                forall a :: 0 <= a < 2 * numEdges && residual[a] > 0 ==> cost[a] >= 0
    {
      var N := net.numNodes + numArtificialNodes;
      var all := IterEdges(net) + artificialEdges;
      assert net.numNodes > 0 ==> EndsIn(all, N) by { IterEdgesNonNegative(net); }
      var s, arrays, ex := Build(net, N, all, initialFlows, fix);
      start := s;
      edgeIdToArcId, to, upper, cost, rev := arrays.eid, arrays.to, arrays.upper, arrays.cost, arrays.rev;
      residual := arrays.residual;
      excesses, b := ex, ex;
      isReversed, lower := arrays.isReversed, arrays.lower;
      potentials := seq(N, _ => 0);
      numNodes, numEdges := N, |all|;
      numNodesOriginalGraph, numEdgesOriginalGraph := net.numNodes, |net.base|;
      this.net, edges := net, all;
      new;
      Initialized(net, numArtificialNodes, artificialEdges, initialFlows, fix, arrays);
    }

    /** What the fields hold after `new`, from what build returned. */
    lemma Initialized(net: NormalizedNetwork, numArtificialNodes: nat, artificialEdges: seq<NormalizedEdge>,
                      initialFlows: Option<seq<int>>, fix: Option<seq<int>>, A: Arrays)
      requires |net.b| == net.numNodes && EndpointsIn(net.base, net.numNodes)
      requires numNodes == net.numNodes + numArtificialNodes && edges == IterEdges(net) + artificialEdges
      requires numEdges == |edges| && numNodesOriginalGraph == net.numNodes && numEdgesOriginalGraph == |net.base|
      requires this.net == net && potentials == seq(numNodes, _ => 0) && excesses == b
      requires A.eid == edgeIdToArcId && A.to == to && A.upper == upper && A.cost == cost && A.rev == rev
      requires A.residual == residual && A.lower == lower && A.isReversed == isReversed
      requires Sized(A, |edges|) && |start| == numNodes + 1 && |excesses| == numNodes
      requires net.numNodes == 0 ==> start == seq(numNodes + 1, _ => 0) && A == Defaults(numEdges) && excesses == seq(numNodes, _ => 0)
      requires net.numNodes > 0 ==>
                 ArraysOk(numNodes, edges, initialFlows, start, A) && forall u :: 0 <= u < numNodes ==> excesses[u] == Supply(net.b, fix, u)
      ensures Valid() && this.net == net && edges == IterEdges(net) + artificialEdges
      ensures numNodes == net.numNodes + numArtificialNodes && numEdges == |net.base| + |artificialEdges|
      ensures forall u :: 0 <= u < numNodes ==> potentials[u] == 0
      ensures net.numNodes == 0 ==>
                excesses == b && (forall u :: 0 <= u < numNodes ==> excesses[u] == 0) && residual == seq(2 * numEdges, _ => 0) &&
                start == seq(numNodes + 1, _ => 0) && edgeIdToArcId == seq(numEdges, _ => M.Invalid)
      ensures net.numNodes > 0 ==>
                Built() && M.Layout(numNodes, Ends(edges), false, edgeIdToArcId, start, upper, to, rev) &&
                excesses == b && (forall u :: 0 <= u < numNodes ==> excesses[u] == Supply(net.b, fix, u)) &&
                StartFlows(initialFlows) && PairSums()
      ensures net.numNodes > 0 && (forall j :: 0 <= j < |edges| ==> 0 <= InitialFlow(initialFlows, j) <= edges[j].upper) ==>
                FlowWithin(residual, upper, rev)
      ensures net.numNodes > 0 && (forall j :: 0 <= j < |edges| ==> InitialFlow(initialFlows, j) == 0 && edges[j].cost >= 0) ==>
                forall a :: 0 <= a < 2 * numEdges && residual[a] > 0 ==> cost[a] >= 0
    {
      assert edges[..|net.base|] == IterEdges(net);
      if net.numNodes > 0 {
        BuiltFrom(initialFlows, A);
      } else if numEdges == 0 {
        assert M.ArcsOk(numNodes, start, to, rev) by {
          assert forall x :: 0 <= x < numNodes ==> M.StepUp(start, x);
        }
      }
    }

    /** The fields hold the arrays build produced. */
    lemma BuiltFrom(init: Option<seq<int>>, A: Arrays)
      requires Wf() && |residual| == 2 * numEdges
      requires A.eid == edgeIdToArcId && A.to == to && A.upper == upper && A.cost == cost && A.rev == rev
      requires A.residual == residual && A.lower == lower && A.isReversed == isReversed
      requires ArraysOk(numNodes, edges, init, start, A)
      ensures Built() && M.Layout(numNodes, Ends(edges), false, edgeIdToArcId, start, upper, to, rev)
      ensures StartFlows(init) && PairSums()
      ensures (forall j :: 0 <= j < |edges| ==> 0 <= InitialFlow(init, j) <= edges[j].upper) ==>
                FlowWithin(residual, upper, rev)
      ensures (forall j :: 0 <= j < |edges| ==> InitialFlow(init, j) == 0 && edges[j].cost >= 0) ==>
                forall a :: 0 <= a < 2 * numEdges && residual[a] > 0 ==> cost[a] >= 0
    {
      forall j | 0 <= j < numEdges
        ensures EdgeOk(j)
        ensures residual[edgeIdToArcId[j]] == edges[j].upper - InitialFlow(init, j)
        ensures residual[rev[edgeIdToArcId[j]]] == InitialFlow(init, j)
      {
        assert ForwardOk(edges, init, A, j);
      }
      forall a | 0 <= a < 2 * numEdges
        ensures cost[rev[a]] == -cost[a] && upper[rev[a]] == upper[a]
        ensures residual[a] + residual[rev[a]] == upper[a]
        ensures (forall j :: 0 <= j < |edges| ==> 0 <= InitialFlow(init, j) <= edges[j].upper) ==> residual[a] >= 0
        ensures (forall j :: 0 <= j < |edges| ==> InitialFlow(init, j) == 0 && edges[j].cost >= 0) ==> residual[a] > 0 ==> cost[a] >= 0
      {
        assert PairOk(edges, init, A, a);
      }
    }

    /** `neighbors`: the slots of the arcs leaving `u`, all with tail `u`. */
    method Neighbors(u: nat) returns (lo: nat, hi: nat)
      requires Valid() && Built() && u < numNodes
      ensures lo == start[u] && hi == start[u + 1] && lo <= hi <= 2 * numEdges
      ensures forall a :: lo <= a < hi ==> to[rev[a]] == u
    {
      lo, hi := start[u], start[u + 1];
      assert M.StepUp(start, u);
      M.StartsGrowIn(numNodes, start, to, rev, u + 1, numNodes);
      forall a | lo <= a < hi
        ensures to[rev[a]] == u
      {
        M.ArcTailIn(numNodes, start, to, rev, a, u);
      }
    }

    /** `push_flow`: `f` units of residual move from arc `a` to its reverse
        and `f` units of excess from `u` to the arc's head; every arc pair
        keeps its sum and the total excess is unchanged. */
    method PushFlow(u: nat, a: nat, f: int)
      requires Valid() && Built() && u < numNodes && a < 2 * numEdges
      modifies this
      ensures Valid() && potentials == old(potentials)
      ensures residual == M.Pushed(old(residual), rev, a, f)
      ensures excesses == Moved(old(excesses), u, to[a], f)
      ensures forall c :: 0 <= c < 2 * numEdges ==> residual[c] + residual[rev[c]] == old(residual[c] + residual[rev[c]])
      ensures Sum(excesses) == old(Sum(excesses))
      ensures old(FlowWithin(residual, upper, rev)) && 0 <= f <= old(residual[a]) ==> FlowWithin(residual, upper, rev)
    {
      var r, t := rev[a], to[a];
      residual := residual[a := residual[a] - f];
      residual := residual[r := residual[r] + f];
      excesses := excesses[u := excesses[u] - f];
      excesses := excesses[t := excesses[t] + f];
      M.PushedKeepsPairs(old(residual), rev, a, f);
      MovedSum(old(excesses), u, t, f);
    }

    /** `reduced_cost`: the arc's cost less its tail's potential plus its
        head's (the tail being `u`). */
    function ReducedCost(u: nat, a: nat): int
      reads this
      requires Valid() && u < numNodes && a < 2 * numEdges && to[a] < numNodes
    {
      cost[a] - potentials[u] + potentials[to[a]]
    }

    /** `reduced_cost_rev`: the negated reduced cost. */
    function ReducedCostRev(u: nat, a: nat): int
      reads this
      requires Valid() && u < numNodes && a < 2 * numEdges && to[a] < numNodes
    {
      -(cost[a] - potentials[u] + potentials[to[a]])
    }

    /** The reduced cost of an arc's reverse, from the arc's head, is the
        negation of the arc's: `reduced_cost_rev` is the reduced cost of the
        way back. */
    lemma ReverseReducedCost(a: nat)
      requires Valid() && Built() && a < 2 * numEdges
      ensures to[a] < numNodes && rev[a] < 2 * numEdges && to[rev[a]] < numNodes
      ensures ReducedCost(to[a], rev[a]) == ReducedCostRev(to[rev[a]], a) == -ReducedCost(to[rev[a]], a)
    {
      assert rev[rev[a]] == a;
    }

    /** `residual_capacity`. */
    function ResidualCapacity(a: nat): int
      reads this
      requires Valid() && a < 2 * numEdges
    {
      residual[a]
    }

    /** Every edge from `j` on whose forward arc's residual differs from its
        capacity. */
    function ArtificialFlowFrom(j: nat): (r: bool)
      reads this
      requires Valid() && numEdgesOriginalGraph <= j <= numEdges
      requires forall k :: numEdgesOriginalGraph <= k < numEdges ==> edgeIdToArcId[k] < 2 * numEdges
      ensures r <==> exists k :: j <= k < numEdges && residual[edgeIdToArcId[k]] != upper[edgeIdToArcId[k]]
      decreases numEdges - j
    {
      if j == numEdges then false
      else residual[edgeIdToArcId[j]] != upper[edgeIdToArcId[j]] || ArtificialFlowFrom(j + 1)
    }

    /** `have_flow_in_artificial_arc`: some artificial edge carries flow. */
    function HaveFlowInArtificialArc(): (r: bool)
      reads this
      requires Valid()
      requires forall k :: numEdgesOriginalGraph <= k < numEdges ==> edgeIdToArcId[k] < 2 * numEdges
      ensures r <==> exists k :: numEdgesOriginalGraph <= k < numEdges && residual[edgeIdToArcId[k]] != upper[edgeIdToArcId[k]]
    {
      ArtificialFlowFrom(numEdgesOriginalGraph)
    }

    /** `have_excess`: some node's excess is not zero. */
    function HaveExcess(): (r: bool)
      reads this
      requires Valid()
      ensures r <==> exists u :: 0 <= u < numNodes && excesses[u] != 0
    {
      AnyNonZero(excesses)
    }

    /** `flow_original_graph`: the flow of edge `j` in the graph before
        normalisation, from the flow its forward arc carries. */
    function FlowOriginalGraph(j: nat): (x: int)
      reads this
      requires Valid() && Built() && j < numEdges
      ensures x == OriginalFlow(edges[j], upper[edgeIdToArcId[j]] - residual[edgeIdToArcId[j]])
    {
      assert EdgeOk(j);
      var a := edgeIdToArcId[j];
      var flow := upper[a] - residual[a];
      if isReversed[j] then upper[a] + lower[j] - flow else flow + lower[j]
    }

    /** A base edge's flow lies within its lower and upper bounds exactly
        when its forward arc's flow lies within `0 .. upper`. */
    lemma FlowOriginalGraphWithin(j: nat)
      requires Valid() && Built() && j < numEdgesOriginalGraph
      ensures var a := edgeIdToArcId[j];
              0 <= upper[a] - residual[a] <= upper[a] <==>
              net.base[j].data.lower <= FlowOriginalGraph(j) <= net.base[j].data.upper
    {
      assert EdgeOk(j);
      OriginalFlowWithin(net.base[j], upper[edgeIdToArcId[j]] - residual[edgeIdToArcId[j]]);
    }

    /** `flows_original_graph`: the base flows of all base edges. */
    function FlowsOriginalGraph(): (x: seq<int>)
      reads this
      requires Valid() && Built()
      ensures |x| == numEdgesOriginalGraph
      ensures forall j :: 0 <= j < numEdgesOriginalGraph ==>
                x[j] == OriginalFlow(Normalize(net.base[j]), upper[edgeIdToArcId[j]] - residual[edgeIdToArcId[j]])
    {
      seq(numEdgesOriginalGraph, j requires 0 <= j < numEdgesOriginalGraph && Valid() && Built() reads this => FlowOriginalGraph(j))
    }

    /** `potentials_original_graph`: the potentials of the normalised
        network's own nodes, without the artificial ones. */
    function PotentialsOriginalGraph(): (p: seq<int>)
      reads this
      requires Valid()
      ensures |p| == numNodesOriginalGraph && forall u :: 0 <= u < numNodesOriginalGraph ==> p[u] == potentials[u]
    {
      potentials[..numNodesOriginalGraph]
    }

    /** The cost the objective uses for edge `j`, the forward arc's negated
        back for a reversed edge, is the base edge's cost. */
    lemma CostOriginalGraph(j: nat)
      requires Valid() && Built() && j < numEdgesOriginalGraph
      ensures edgeIdToArcId[j] < 2 * numEdges
      ensures (if isReversed[j] then -cost[edgeIdToArcId[j]] else cost[edgeIdToArcId[j]]) == net.base[j].data.cost
    {
      assert EdgeOk(j);
      NormalizeRoundTrip(net.base[j]);
    }

    /** `calculate_objective_value_original_graph`: the cost, with the base
        costs, of the base flows. */
    method CalculateObjectiveValueOriginalGraph() returns (value: int)
      requires Valid() && Built()
      ensures value == ObjectiveOf(net.base, FlowsOriginalGraph())
    {
      var x := FlowsOriginalGraph();
      value := 0;
      for j := 0 to numEdgesOriginalGraph
        invariant value == ObjectiveOf(net.base[..j], x[..j])
      {
        var a := edgeIdToArcId[j];
        var c := if isReversed[j] then -cost[a] else cost[a];
        CostOriginalGraph(j);
        ObjectiveStep(net.base, x, j);
        value := value + c * FlowOriginalGraph(j);
      }
      assert net.base[..numEdgesOriginalGraph] == net.base && x[..numEdgesOriginalGraph] == x;
    }

    /** Arc `a` out of `x` meets complementary slackness (or has no
        capacity). */
    ghost predicate ArcSlack(x: nat, a: nat)
      reads this
      requires Valid() && Built() && x < numNodes && a < 2 * numEdges
    {
      upper[a] != 0 ==> Slack(upper[a] - residual[a], upper[a], ReducedCost(x, a))
    }

    /** Every arc out of `x` meets complementary slackness. */
    ghost predicate NodeSlack(x: nat)
      reads this
      requires Valid() && Built() && x < numNodes
    {
      forall a :: start[x] <= a < start[x + 1] ==> a < 2 * numEdges && ArcSlack(x, a)
    }

    /** Every arc out of the nodes below `u` meets complementary slackness. */
    ghost predicate SlackBelow(u: nat)
      reads this
      requires Valid() && Built() && u <= numNodes
    {
      forall x :: 0 <= x < u ==> NodeSlack(x)
    }

    /** `check_optimality`: true exactly when every arc with capacity meets
        complementary slackness for the current potentials. */
    method CheckOptimality() returns (ok: bool)
      requires Valid() && Built()
      ensures ok <==> SlackBelow(numNodes)
    {
      ok := true;
      for u := 0 to numNodes
        invariant ok <==> SlackBelow(u)
      {
        var lo, hi := Neighbors(u);
        ghost var ok0 := ok;
        for a := lo to hi
          invariant ok <==> ok0 && forall c :: lo <= c < a ==> ArcSlack(u, c)
        {
          M.ArcTailIn(numNodes, start, to, rev, a, u);
          if upper[a] == 0 {
            assert ArcSlack(u, a);
            continue;
          }
          var f := upper[a] - residual[a];
          var r := ReducedCost(u, a);
          assert ArcSlack(u, a) <==> Slack(f, upper[a], r);
          ok := ok && if f == 0 then r >= 0 else if 0 < f < upper[a] then r == 0 else r <= 0;
        }
        assert NodeSlack(u) <==> forall c :: lo <= c < hi ==> ArcSlack(u, c);
      }
    }
  }
}
