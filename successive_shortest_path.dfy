/** The successive-shortest-path minimum-cost flow solver. The normalised
    network is extended by a super source joined to every node of positive
    supply and a super sink joined from every node of negative supply. Then,
    while the source has excess left, a Dijkstra search over the reduced
    costs finds a nearest node of negative excess; the potentials move by the
    distances found, and the largest amount the path and its two ends allow
    is pushed along the search's predecessor path.

    The whole run keeps the dual invariant of the method: every arc with
    residual capacity has a non-negative reduced cost. That is what makes
    the search's predecessor links a tree (so that the path walks end), the
    pushed amount positive (so that the loop ends), and the final flow
    optimal: no node keeps excess and every arc meets complementary
    slackness. */
module SuccessiveShortestPath {
  import opened Wrappers
  import opened Graph
  import opened Sums
  import M = MaximumFlowResidualNetwork
  import opened BinaryHeapModel
  import opened MinimumCostFlowNormalizedNetwork
  import opened MinimumCostFlowExtendNetwork
  import opened MinimumCostFlowResidualNetwork
  import opened MinimumCostFlowValidate

  /** The super source's and super sink's edges join nodes of the extended
      network. */
  lemma SupplyDemandEdgesEnds(b: seq<int>, n: nat)
    requires |b| <= n
    ensures EndsIn(SupplyDemandEdges(b, n), n + 2)
  {
    SupplyDemandEdgesShape(b, n);
  }

  /** The residual network `new` builds: the graph normalised, extended by
      the super source `n` and super sink `n + 1` with their edges, without
      initial flows and with the extension's `fix` added to the supplies. */
  method NewNetwork(n: nat, base: seq<Edge<Bounds>>, supply: seq<int>)
    returns (r: ResidualNetwork, net: NormalizedNetwork, ghost edges: seq<NormalizedEdge>, ghost fix: seq<int>)
    requires |supply| == n && EndpointsIn(base, n)
    ensures fresh(r)
    ensures net.numNodes == n && net.base == base && net.b == Balance(supply, base)
    ensures edges == SupplyDemandEdges(net.b, n) && |fix| == n + 2
    ensures forall u :: 0 <= u < n ==> fix[u] == -net.b[u]
    ensures fix[n] == PositivePart(net.b) && fix[n + 1] == NegativePart(net.b)
    ensures r.Valid() && r.net == net && r.edges == IterEdges(net) + edges
    ensures r.numNodes == net.numNodes + 2 && r.numEdges == |net.base| + |edges|
    ensures r.Built()
    ensures forall u :: 0 <= u < r.numNodes ==> r.potentials[u] == 0
    ensures net.numNodes == 0 ==> forall u :: 0 <= u < r.numNodes ==> r.excesses[u] == 0
    ensures net.numNodes > 0 ==> r.Built() && forall u :: 0 <= u < r.numNodes ==> r.excesses[u] == Supply(net.b, Some(fix), u)
    ensures net.numNodes > 0 && (forall j :: 0 <= j < |r.edges| ==> 0 <= InitialFlow(None, j) <= r.edges[j].upper) ==>
              FlowWithin(r.residual, r.upper, r.rev)
    ensures net.numNodes > 0 && (forall j :: 0 <= j < |r.edges| ==> InitialFlow(None, j) == 0 && r.edges[j].cost >= 0) ==>
              forall a :: 0 <= a < 2 * r.numEdges && r.residual[a] > 0 ==> r.cost[a] >= 0
  {
    net := From(n, base, supply);
    var s, t, e, ex := OneSupplyOneDemand(net);
    SupplyDemandEdgesEnds(net.b, n);
    edges, fix := e, ex;
    r := new ResidualNetwork(net, 2, e, None, Some(ex));
    NoNodeNoEdge(base, n);
  }

  /** `new`'s residual network as the solver needs it: built, with no
      excess at an ordinary node, the total positive supply at the super
      source `n`, the total negative one at the super sink `n + 1`, all
      potentials zero and, when no edge has its lower bound above its upper
      bound, residuals within capacity and no arc of positive residual
      capacity of negative cost. */
  method Network(n: nat, base: seq<Edge<Bounds>>, supply: seq<int>) returns (r: ResidualNetwork)
    requires |supply| == n && EndpointsIn(base, n)
    ensures fresh(r)
    ensures r.Valid() && r.Built() && r.numNodesOriginalGraph == n && r.numNodes == n + 2
    ensures r.net.numNodes == n && r.net.base == base && r.net.b == Balance(supply, base)
    ensures r.edges == IterEdges(r.net) + SupplyDemandEdges(r.net.b, n)
    ensures forall u :: 0 <= u < n + 2 ==> r.potentials[u] == 0
    ensures forall u :: 0 <= u < n ==> r.excesses[u] == 0
    ensures r.excesses[n] == PositivePart(r.net.b) && r.excesses[n + 1] == NegativePart(r.net.b)
    ensures (forall j :: 0 <= j < |base| ==> base[j].data.lower <= base[j].data.upper) ==>
              FlowWithin(r.residual, r.upper, r.rev) &&
              forall a :: 0 <= a < 2 * r.numEdges && r.residual[a] > 0 ==> r.cost[a] >= 0
  {
    var net; ghost var edges, fix;
    r, net, edges, fix := NewNetwork(n, base, supply);
    SuccessiveShortestPath.ExtendedExcesses(r.excesses, net.b, fix, n);
    if forall j :: 0 <= j < |base| ==> base[j].data.lower <= base[j].data.upper {
      SuccessiveShortestPath.ExtendedFlows(r, net, edges);
    }
  }

  /** The smallest of `init` and the residuals of the arcs of `p`. */
  function Bottleneck(res: seq<int>, p: seq<nat>, init: int): (d: int)
    requires forall i :: 0 <= i < |p| ==> p[i] < |res|
    ensures d <= init && forall i :: 0 <= i < |p| ==> d <= res[p[i]]
    ensures d == init || exists i :: 0 <= i < |p| && d == res[p[i]]
    decreases |p|
  {
    if |p| == 0 then init
    else
      var d := M.Min(Bottleneck(res, p[1..], init), res[p[0]]);
      assert d == res[p[0]] || d == init || exists i :: 1 <= i < |p| && d == res[p[i]];
      d
  }

  /** The residuals after pushing `f` along every arc of `p`, the last arc
      first. */
  function PushAlong(res: seq<int>, rev: seq<nat>, p: seq<nat>, f: int): (r: seq<int>)
    requires |rev| == |res| && (forall a :: 0 <= a < |rev| ==> rev[a] < |rev|) && forall i :: 0 <= i < |p| ==> p[i] < |res|
    ensures |r| == |res|
    decreases |p|
  {
    if |p| == 0 then res else M.Pushed(PushAlong(res, rev, p[1..], f), rev, p[0], f)
  }

  class SuccessiveShortestPath {
    const rn: ResidualNetwork
    const source: nat

    /** The network is the extension of a normalised network by a super
        source and a super sink, built. */
    ghost predicate Valid()
      reads this, rn
    {
      rn.Valid() && rn.Built() && source == rn.numNodesOriginalGraph && rn.numNodes == source + 2
    }

    /** What every round keeps: residuals within the capacities, and the
        dual invariant. */
    ghost predicate Inv()
      reads this, rn
    {
      Valid() && FlowWithin(rn.residual, rn.upper, rn.rev) && Dual(rn.residual, rn.potentials)
    }

    /** `new`: normalises the graph on `n` nodes with edges `base` and node
        supplies `supply`, adds the super source `n` and super sink `n + 1`
        with their edges, and builds the residual network without initial
        flows and with the extension's fix: every ordinary node starts with
        no excess, the source with the total positive supply and the sink with
        the total negative one. When no edge has a lower bound above its
        upper bound, the invariant holds from the start, with all potentials
        zero. */
    constructor (n: nat, base: seq<Edge<Bounds>>, supply: seq<int>)
      requires |supply| == n && EndpointsIn(base, n)
      ensures Valid() && fresh(rn) && source == n
      ensures rn.net.numNodes == n && rn.net.base == base && rn.net.b == Balance(supply, base)
      ensures rn.edges == IterEdges(rn.net) + SupplyDemandEdges(rn.net.b, n)
      ensures forall u :: 0 <= u < n + 2 ==> rn.potentials[u] == 0
      ensures forall u :: 0 <= u < n ==> rn.excesses[u] == 0
      ensures rn.excesses[n] == PositivePart(rn.net.b) && rn.excesses[n + 1] == NegativePart(rn.net.b)
      ensures (forall j :: 0 <= j < |base| ==> base[j].data.lower <= base[j].data.upper) ==>
                FlowWithin(rn.residual, rn.upper, rn.rev) &&
                forall a :: 0 <= a < 2 * rn.numEdges && rn.residual[a] > 0 ==> rn.cost[a] >= 0
    {
      var r := Network(n, base, supply);
      rn, source := r, n;
    }

    /** The invariant holds from the start when no edge has a lower bound
        above its upper bound: all potentials are then zero, and no arc with
        residual capacity has a negative cost. */
    lemma Initially()
      requires Valid() && forall u :: 0 <= u < rn.numNodes ==> rn.potentials[u] == 0
      requires FlowWithin(rn.residual, rn.upper, rn.rev)
      requires forall a :: 0 <= a < 2 * rn.numEdges && rn.residual[a] > 0 ==> rn.cost[a] >= 0
      ensures Inv()
    {
      ZeroDual(rn.residual, rn.potentials);
    }

    /** Without negative capacities, the extended network starts with its
        residuals within capacity and no arc of positive residual capacity
        has a negative cost. */
    static lemma ExtendedFlows(r: ResidualNetwork, net: NormalizedNetwork, edges: seq<NormalizedEdge>)
      requires EndpointsIn(net.base, net.numNodes) && |net.b| == net.numNodes && edges == SupplyDemandEdges(net.b, net.numNodes)
      requires r.Valid() && r.Built() && r.net == net && r.edges == IterEdges(net) + edges
      requires net.numNodes > 0 && (forall j :: 0 <= j < |r.edges| ==> 0 <= InitialFlow(None, j) <= r.edges[j].upper) ==>
                 FlowWithin(r.residual, r.upper, r.rev)
      requires net.numNodes > 0 && (forall j :: 0 <= j < |r.edges| ==> InitialFlow(None, j) == 0 && r.edges[j].cost >= 0) ==>
                 forall a :: 0 <= a < 2 * r.numEdges && r.residual[a] > 0 ==> r.cost[a] >= 0
      requires forall j :: 0 <= j < |net.base| ==> net.base[j].data.lower <= net.base[j].data.upper
      ensures FlowWithin(r.residual, r.upper, r.rev)
      ensures forall a :: 0 <= a < 2 * r.numEdges && r.residual[a] > 0 ==> r.cost[a] >= 0
    {
      if net.numNodes == 0 {
        NoNodeNoEdge(net.base, net.numNodes);
        assert |r.edges| == 0;
      } else {
        ExtendedEdges(net, edges, r.edges);
      }
    }

    /** The excesses build leaves: none at an ordinary node, the total
        positive supply at the super source and the total negative one at the
        super sink. */
    static lemma ExtendedExcesses(ex: seq<int>, b: seq<int>, fix: seq<int>, n: nat)
      requires |b| == n && |ex| == n + 2 && |fix| == n + 2
      requires (forall u :: 0 <= u < n ==> fix[u] == -b[u]) && fix[n] == PositivePart(b) && fix[n + 1] == NegativePart(b)
      requires n == 0 ==> forall u :: 0 <= u < n + 2 ==> ex[u] == 0
      requires n > 0 ==> forall u :: 0 <= u < n + 2 ==> ex[u] == Supply(b, Some(fix), u)
      ensures forall u :: 0 <= u < n ==> ex[u] == 0
      ensures ex[n] == PositivePart(b) && ex[n + 1] == NegativePart(b)
    {
      if n > 0 {
        assert ex[n] == Supply(b, Some(fix), n);
        assert ex[n + 1] == Supply(b, Some(fix), n + 1);
      }
    }

    /** No edge of the extended network costs anything negative, and none has
        a negative capacity when no base edge has its lower bound above its
        upper bound. */
    static lemma ExtendedEdges(net: NormalizedNetwork, edges: seq<NormalizedEdge>, all: seq<NormalizedEdge>)
      requires EndpointsIn(net.base, net.numNodes) && |net.b| <= net.numNodes
      requires edges == SupplyDemandEdges(net.b, net.numNodes) && all == IterEdges(net) + edges
      ensures forall j :: 0 <= j < |all| ==> InitialFlow(None, j) == 0 && all[j].cost >= 0
      ensures (forall j :: 0 <= j < |net.base| ==> net.base[j].data.lower <= net.base[j].data.upper) ==>
                forall j :: 0 <= j < |all| ==> 0 <= InitialFlow(None, j) <= all[j].upper
    {
      SupplyDemandEdgesShape(net.b, net.numNodes);
      IterEdgesNonNegative(net);
      forall j | 0 <= j < |all|
        ensures InitialFlow(None, j) == 0 && all[j].cost >= 0
        ensures (forall k :: 0 <= k < |net.base| ==> net.base[k].data.lower <= net.base[k].data.upper) ==>
                  0 <= InitialFlow(None, j) <= all[j].upper
      {
        if j >= |net.base| {
          assert all[j] == edges[j - |net.base|];
        }
      }
    }

    /** With all potentials zero, the reduced costs are the costs. */
    lemma ZeroDual(res: seq<int>, pot: seq<int>)
      requires Net() && |res| == 2 * rn.numEdges && |pot| == rn.numNodes
      requires forall u :: 0 <= u < |pot| ==> pot[u] == 0
      requires forall a :: 0 <= a < 2 * rn.numEdges && res[a] > 0 ==> rn.cost[a] >= 0
      ensures Dual(res, pot)
    {
    }

    /** The arc arrays, built once and never changed. */
    ghost predicate Net()
    {
      rn.Wf() && rn.Built()
    }

    /** The tail of arc `a`: the head of its reverse. */
    function Tail(a: nat): (u: nat)
      requires Net() && a < 2 * rn.numEdges
      ensures u < rn.numNodes
    {
      rn.to[rn.rev[a]]
    }

    /** `reduced_cost(u, a)` under the potentials `pot`. */
    function Rc(pot: seq<int>, u: nat, a: nat): int
      requires Net() && |pot| == rn.numNodes && u < rn.numNodes && a < 2 * rn.numEdges
    {
      rn.cost[a] - pot[u] + pot[rn.to[a]]
    }

    /** The dual invariant: no arc with residual capacity has a negative
        reduced cost. */
    ghost predicate Dual(res: seq<int>, pot: seq<int>)
      requires Net() && |res| == 2 * rn.numEdges && |pot| == rn.numNodes
    {
      forall a :: 0 <= a < 2 * rn.numEdges && res[a] > 0 ==> Rc(pot, Tail(a), a) >= 0
    }

    /** The sizes of a search's arrays. */
    ghost predicate Shaped(res: seq<int>, pot: seq<int>, visited: seq<bool>, dist: seq<Option<int>>,
                           prev: seq<Option<nat>>, ord: seq<nat>)
    {
      Net() && |res| == 2 * rn.numEdges &&
      |pot| == |visited| == |dist| == |prev| == |ord| == rn.numNodes
    }

    /** `prev[x]` is an arc with residual capacity into `x` from a settled
        node `u`, settled (numbered by `ord`) before `x`, or before every node
        still to settle when `x` is not settled yet; and `x`'s distance is
        `u`'s plus the arc's reduced cost. */
    ghost predicate Linked(res: seq<int>, pot: seq<int>, visited: seq<bool>, dist: seq<Option<int>>,
                           prev: seq<Option<nat>>, ord: seq<nat>, cnt: nat, x: nat)
      requires Shaped(res, pot, visited, dist, prev, ord) && x < rn.numNodes && dist[x].Some?
    {
      prev[x].Some? && prev[x].value < 2 * rn.numEdges &&
      var a := prev[x].value;
      var u := Tail(a);
      rn.to[a] == x && res[a] > 0 && visited[u] && dist[u].Some? &&
      ord[u] < (if visited[x] then ord[x] else cnt) && dist[x].value == dist[u].value + Rc(pot, u, a)
    }

    /** The search tree from `s`: `s` at distance 0 without a predecessor;
        settled nodes numbered below `cnt`, at distances up to `last`, the key
        last popped; every other node with a distance `Linked`. */
    ghost predicate Tree(res: seq<int>, pot: seq<int>, visited: seq<bool>, dist: seq<Option<int>>,
                         prev: seq<Option<nat>>, ord: seq<nat>, cnt: nat, last: int, s: nat)
      requires Shaped(res, pot, visited, dist, prev, ord) && s < rn.numNodes
    {
      dist[s] == Some(0) && prev[s].None? &&
      (forall x :: 0 <= x < rn.numNodes && visited[x] ==> dist[x].Some? && dist[x].value <= last && ord[x] < cnt) &&
      (forall x {:trigger Linked(res, pot, visited, dist, prev, ord, cnt, x)} ::
         0 <= x < rn.numNodes && x != s && dist[x].Some? ==> Linked(res, pot, visited, dist, prev, ord, cnt, x))
    }

    /** Every heap entry is for a node with a distance no greater than its
        key, and no key is below `last`; every unsettled node with a distance
        has an entry with that distance as key. */
    ghost predicate HeapOk(h: seq<(int, nat)>, visited: seq<bool>, dist: seq<Option<int>>, last: int)
      requires |visited| == |dist| == rn.numNodes
    {
      (forall i :: 0 <= i < |h| ==>
         h[i].1 < rn.numNodes && dist[h[i].1].Some? && dist[h[i].1].value <= h[i].0 && last <= h[i].0) &&
      (forall x :: 0 <= x < rn.numNodes && !visited[x] && dist[x].Some? ==> (dist[x].value, x) in h)
    }

    /** Every arc out of `x` below slot `hi` with residual capacity leads to
        a node with a distance at most `x`'s plus the arc's reduced cost. */
    ghost predicate Relaxed(res: seq<int>, pot: seq<int>, dist: seq<Option<int>>, x: nat, hi: nat)
      requires Net() && |res| == 2 * rn.numEdges && |pot| == |dist| == rn.numNodes && x < rn.numNodes && dist[x].Some?
    {
      forall b :: rn.start[x] <= b < hi && b < 2 * rn.numEdges && res[b] > 0 ==>
        dist[rn.to[b]].Some? && dist[rn.to[b]].value <= dist[x].value + Rc(pot, x, b)
    }

    /** `Relaxed` for all arcs of every settled node but `skip`. */
    ghost predicate Closed(res: seq<int>, pot: seq<int>, visited: seq<bool>, dist: seq<Option<int>>, skip: int)
      requires Net() && |res| == 2 * rn.numEdges && |pot| == |visited| == |dist| == rn.numNodes
    {
      forall x {:trigger Relaxed(res, pot, dist, x, rn.start[x + 1])} ::
        0 <= x < rn.numNodes && visited[x] && x != skip && dist[x].Some? ==> Relaxed(res, pot, dist, x, rn.start[x + 1])
    }

    /** The search's invariant, `skip` being the settled node whose arcs are
        still to be scanned (or -1). */
    ghost predicate Searching(res: seq<int>, pot: seq<int>, visited: seq<bool>, dist: seq<Option<int>>,
                              prev: seq<Option<nat>>, ord: seq<nat>, cnt: nat, last: int, s: nat,
                              h: seq<(int, nat)>, skip: int)
      requires Shaped(res, pot, visited, dist, prev, ord) && s < rn.numNodes
    {
      Tree(res, pot, visited, dist, prev, ord, cnt, last, s) && HeapOk(h, visited, dist, last) &&
      Closed(res, pot, visited, dist, skip) && cnt + Unvisited(visited) == rn.numNodes && last >= 0
    }

    /** The entry `pop` takes has the smallest key, no key is below `last`,
        and an unsettled node's own entry carries its distance: that entry
        is the one popped when its node is unsettled. */
    lemma PopKey(h: seq<(int, nat)>, visited: seq<bool>, dist: seq<Option<int>>, last: int, i: nat)
      requires |visited| == |dist| == rn.numNodes && HeapOk(h, visited, dist, last)
      requires i < |h| && (forall k :: 0 <= k < |h| ==> h[i].0 <= h[k].0) && !visited[h[i].1]
      ensures h[i].1 < rn.numNodes && dist[h[i].1] == Some(h[i].0) && last <= h[i].0
    {
      var u := h[i].1;
      assert (dist[u].value, u) in h;
    }

    /** After a pop the heap invariant holds with the popped key as `last`,
        the popped node now settled. */
    lemma HeapPop(h0: seq<(int, nat)>, v0: seq<bool>, dist: seq<Option<int>>, last: int, i: nat,
                  h1: seq<(int, nat)>, v1: seq<bool>)
      requires |v0| == |dist| == rn.numNodes && HeapOk(h0, v0, dist, last)
      requires i < |h0| && forall k :: 0 <= k < |h0| ==> h0[i].0 <= h0[k].0
      requires (forall x :: x in h0 && x != h0[i] ==> x in h1) && (forall x :: x in h1 ==> x in h0)
      requires h0[i].1 < rn.numNodes && v1 == v0[h0[i].1 := true]
      ensures HeapOk(h1, v1, dist, h0[i].0)
    {
      forall k | 0 <= k < |h1|
        ensures h1[k].1 < rn.numNodes && dist[h1[k].1].Some? && dist[h1[k].1].value <= h1[k].0 && h0[i].0 <= h1[k].0
      {
        assert h1[k] in h0;
      }
      forall x | 0 <= x < rn.numNodes && !v1[x] && dist[x].Some?
        ensures (dist[x].value, x) in h1
      {
        assert (dist[x].value, x) in h0;
      }
    }

    /** Settling `u`, at distance `d` no smaller than `last`, as number `cnt`
        keeps the search tree. */
    lemma TreeMark(res: seq<int>, pot: seq<int>, v0: seq<bool>, dist: seq<Option<int>>, prev: seq<Option<nat>>,
                   ord0: seq<nat>, cnt: nat, last: int, s: nat, u: nat, d: int, v1: seq<bool>, ord1: seq<nat>)
      requires Shaped(res, pot, v0, dist, prev, ord0) && s < rn.numNodes
      requires Tree(res, pot, v0, dist, prev, ord0, cnt, last, s)
      requires u < rn.numNodes && !v0[u] && dist[u] == Some(d) && last <= d
      requires v1 == v0[u := true] && ord1 == ord0[u := cnt]
      ensures Shaped(res, pot, v1, dist, prev, ord1)
      ensures Tree(res, pot, v1, dist, prev, ord1, cnt + 1, d, s)
    {
      forall x | 0 <= x < rn.numNodes && x != s && dist[x].Some?
        ensures Linked(res, pot, v1, dist, prev, ord1, cnt + 1, x)
      {
        assert Linked(res, pot, v0, dist, prev, ord0, cnt, x);
      }
    }

    /** A larger `last` keeps the search tree. */
    lemma TreeRaise(res: seq<int>, pot: seq<int>, visited: seq<bool>, dist: seq<Option<int>>, prev: seq<Option<nat>>,
                    ord: seq<nat>, cnt: nat, last: int, s: nat, last1: int)
      requires Shaped(res, pot, visited, dist, prev, ord) && s < rn.numNodes
      requires Tree(res, pot, visited, dist, prev, ord, cnt, last, s) && last <= last1
      ensures Tree(res, pot, visited, dist, prev, ord, cnt, last1, s)
    {
    }

    /** Settling `u` leaves every other settled node relaxed. */
    lemma ClosedMark(res: seq<int>, pot: seq<int>, v0: seq<bool>, dist: seq<Option<int>>, u: nat, v1: seq<bool>)
      requires Net() && |res| == 2 * rn.numEdges && |pot| == |v0| == |dist| == rn.numNodes
      requires Closed(res, pot, v0, dist, -1) && u < rn.numNodes && v1 == v0[u := true]
      ensures Closed(res, pot, v1, dist, u)
    {
      forall x | 0 <= x < rn.numNodes && v1[x] && x != u && dist[x].Some?
        ensures Relaxed(res, pot, dist, x, rn.start[x + 1])
      {
        assert v0[x];
      }
    }

    /** Popping the entry of an unsettled node `u` settles it: its key is its
        distance, it is numbered `cnt0`, and its arcs are next to scan. */
    lemma PopFresh(res: seq<int>, pot: seq<int>, v0: seq<bool>, dist: seq<Option<int>>, prev: seq<Option<nat>>,
                   ord0: seq<nat>, cnt0: nat, last0: int, s: nat, h0: seq<(int, nat)>, i: nat, h1: seq<(int, nat)>,
                   v1: seq<bool>, ord1: seq<nat>)
      requires Shaped(res, pot, v0, dist, prev, ord0) && s < rn.numNodes
      requires Searching(res, pot, v0, dist, prev, ord0, cnt0, last0, s, h0, -1)
      requires i < |h0| && forall k :: 0 <= k < |h0| ==> h0[i].0 <= h0[k].0
      requires (forall x :: x in h0 && x != h0[i] ==> x in h1) && (forall x :: x in h1 ==> x in h0)
      requires h0[i].1 < rn.numNodes && !v0[h0[i].1]
      requires v1 == v0[h0[i].1 := true] && ord1 == ord0[h0[i].1 := cnt0]
      ensures Shaped(res, pot, v1, dist, prev, ord1) && dist[h0[i].1] == Some(h0[i].0)
      ensures Searching(res, pot, v1, dist, prev, ord1, cnt0 + 1, h0[i].0, s, h1, h0[i].1)
    {
      PopKey(h0, v0, dist, last0, i);
      HeapPop(h0, v0, dist, last0, i, h1, v1);
      TreeMark(res, pot, v0, dist, prev, ord0, cnt0, last0, s, h0[i].1, h0[i].0, v1, ord1);
      ClosedMark(res, pot, v0, dist, h0[i].1, v1);
      UnvisitedMark(v0, h0[i].1);
    }

    /** Popping the entry of a settled node changes nothing but the heap. */
    lemma PopStale(res: seq<int>, pot: seq<int>, visited: seq<bool>, dist: seq<Option<int>>, prev: seq<Option<nat>>,
                   ord: seq<nat>, cnt: nat, last0: int, s: nat, h0: seq<(int, nat)>, i: nat, h1: seq<(int, nat)>)
      requires Shaped(res, pot, visited, dist, prev, ord) && s < rn.numNodes
      requires Searching(res, pot, visited, dist, prev, ord, cnt, last0, s, h0, -1)
      requires i < |h0| && forall k :: 0 <= k < |h0| ==> h0[i].0 <= h0[k].0
      requires (forall x :: x in h0 && x != h0[i] ==> x in h1) && (forall x :: x in h1 ==> x in h0)
      requires h0[i].1 < rn.numNodes && visited[h0[i].1]
      ensures Searching(res, pot, visited, dist, prev, ord, cnt, h0[i].0, s, h1, -1)
    {
      assert visited[h0[i].1 := true] == visited;
      HeapPop(h0, visited, dist, last0, i, h1, visited);
      TreeRaise(res, pot, visited, dist, prev, ord, cnt, last0, s, h0[i].0);
    }

    /** Lowering the distance of an unsettled node `t` to `d` plus the
        reduced cost of arc `a` from the node `u` being scanned, and making
        `a` its predecessor, keeps the search tree. */
    lemma TreeRelax(res: seq<int>, pot: seq<int>, visited: seq<bool>, dist: seq<Option<int>>, prev: seq<Option<nat>>,
                    ord: seq<nat>, cnt: nat, d: int, s: nat, u: nat, a: nat)
      requires Shaped(res, pot, visited, dist, prev, ord) && s < rn.numNodes
      requires Tree(res, pot, visited, dist, prev, ord, cnt, d, s) && d >= 0
      requires u < rn.numNodes && visited[u] && dist[u] == Some(d)
      requires a < 2 * rn.numEdges && Tail(a) == u && res[a] > 0 && Rc(pot, u, a) >= 0
      requires dist[rn.to[a]].None? || dist[rn.to[a]].value > d + Rc(pot, u, a)
      ensures !visited[rn.to[a]] && rn.to[a] != s
      ensures Shaped(res, pot, visited, dist[rn.to[a] := Some(d + Rc(pot, u, a))], prev[rn.to[a] := Some(a)], ord)
      ensures Tree(res, pot, visited, dist[rn.to[a] := Some(d + Rc(pot, u, a))], prev[rn.to[a] := Some(a)], ord, cnt, d, s)
    {
      var t, nd := rn.to[a], d + Rc(pot, u, a);
      var dist1, prev1 := dist[t := Some(nd)], prev[t := Some(a)];
      forall x | 0 <= x < rn.numNodes && x != s && dist1[x].Some?
        ensures Linked(res, pot, visited, dist1, prev1, ord, cnt, x)
      {
        if x != t {
          assert Linked(res, pot, visited, dist, prev, ord, cnt, x);
        }
      }
    }

    /** The same relaxation keeps the heap invariant: the new entry carries
        the new distance, which is no smaller than `d`. */
    lemma HeapRelax(h: seq<(int, nat)>, visited: seq<bool>, dist: seq<Option<int>>, d: int, t: nat, nd: int)
      requires |visited| == |dist| == rn.numNodes && HeapOk(h, visited, dist, d)
      requires t < rn.numNodes && d <= nd && (dist[t].None? || dist[t].value > nd)
      ensures HeapOk(h + [(nd, t)], visited, dist[t := Some(nd)], d)
    {
      var h1, dist1 := h + [(nd, t)], dist[t := Some(nd)];
      forall x | 0 <= x < rn.numNodes && !visited[x] && dist1[x].Some?
        ensures (dist1[x].value, x) in h1
      {
        if x != t {
          assert (dist[x].value, x) in h;
        } else {
          assert h1[|h|] == (nd, t);
        }
      }
    }

    /** Lowering a distance keeps every arc already relaxed relaxed. */
    lemma ClosedRelax(res: seq<int>, pot: seq<int>, visited: seq<bool>, dist: seq<Option<int>>, skip: int, t: nat, nd: int)
      requires Net() && |res| == 2 * rn.numEdges && |pot| == |visited| == |dist| == rn.numNodes
      requires Closed(res, pot, visited, dist, skip) && t < rn.numNodes && !visited[t]
      requires dist[t].None? || dist[t].value > nd
      ensures Closed(res, pot, visited, dist[t := Some(nd)], skip)
    {
      var dist1 := dist[t := Some(nd)];
      forall x | 0 <= x < rn.numNodes && visited[x] && x != skip && dist1[x].Some?
        ensures Relaxed(res, pot, dist1, x, rn.start[x + 1])
      {
        assert Relaxed(res, pot, dist, x, rn.start[x + 1]);
      }
    }

    /** Relaxation goes on to arc `a` of `u`: distances only fall, `u`'s
        stays, and arc `a`, when it has residual capacity, leads to a node no
        farther than `u`'s distance plus its reduced cost. */
    lemma RelaxedNext(res: seq<int>, pot: seq<int>, dist: seq<Option<int>>, u: nat, a: nat, dist1: seq<Option<int>>)
      requires Net() && |res| == 2 * rn.numEdges && |pot| == |dist| == |dist1| == rn.numNodes && u < rn.numNodes
      requires dist[u].Some? && Relaxed(res, pot, dist, u, a) && a < 2 * rn.numEdges && dist1[u] == dist[u]
      requires forall x :: 0 <= x < rn.numNodes && dist[x].Some? ==> dist1[x].Some? && dist1[x].value <= dist[x].value
      requires res[a] > 0 ==> dist1[rn.to[a]].Some? && dist1[rn.to[a]].value <= dist[u].value + Rc(pot, u, a)
      ensures Relaxed(res, pot, dist1, u, a + 1)
    {
    }

    /** Once all of `u`'s arcs are relaxed, every settled node is. */
    lemma CloseScan(res: seq<int>, pot: seq<int>, visited: seq<bool>, dist: seq<Option<int>>, u: nat)
      requires Net() && |res| == 2 * rn.numEdges && |pot| == |visited| == |dist| == rn.numNodes && u < rn.numNodes
      requires Closed(res, pot, visited, dist, u) && dist[u].Some? && Relaxed(res, pot, dist, u, rn.start[u + 1])
      ensures Closed(res, pot, visited, dist, -1)
    {
    }

    /** One step of the scan: arc `a` of `u`, when it has residual
        capacity and brings its head nearer, gives the head the distance
        `d` plus the arc's reduced cost, the arc as predecessor, and a heap
        entry. */
    method RelaxArc(u: nat, d: int, a: nat, visited: seq<bool>, dist0: seq<Option<int>>, prev0: seq<Option<nat>>,
                    ghost ord: seq<nat>, ghost cnt: nat, h0: seq<(int, nat)>, ghost s: nat)
      returns (dist: seq<Option<int>>, prev: seq<Option<nat>>, h: seq<(int, nat)>)
      requires Inv() && s < rn.numNodes && u < rn.numNodes && rn.start[u] <= a < rn.start[u + 1]
      requires Shaped(rn.residual, rn.potentials, visited, dist0, prev0, ord)
      requires Searching(rn.residual, rn.potentials, visited, dist0, prev0, ord, cnt, d, s, h0, u)
      requires visited[u] && dist0[u] == Some(d) && Relaxed(rn.residual, rn.potentials, dist0, u, a)
      ensures Shaped(rn.residual, rn.potentials, visited, dist, prev, ord)
      ensures Searching(rn.residual, rn.potentials, visited, dist, prev, ord, cnt, d, s, h, u)
      ensures dist[u] == Some(d) && Relaxed(rn.residual, rn.potentials, dist, u, a + 1)
    {
      ghost var res, pot := rn.residual, rn.potentials;
      M.ArcTailIn(rn.numNodes, rn.start, rn.to, rn.rev, a, u);
      dist, prev, h := dist0, prev0, h0;
      if rn.residual[a] == 0 {
        RelaxedNext(res, pot, dist, u, a, dist);
        return;
      }
      assert Tail(a) == u && res[a] > 0 && Rc(pot, u, a) >= 0;
      var t := rn.to[a];
      var nd := d + rn.ReducedCost(u, a);
      if dist[t].None? || dist[t].value > nd {
        TreeRelax(res, pot, visited, dist, prev, ord, cnt, d, s, u, a);
        HeapRelax(h, visited, dist, d, t, nd);
        ClosedRelax(res, pot, visited, dist, u, t, nd);
        RelaxedNext(res, pot, dist, u, a, dist[t := Some(nd)]);
        dist, prev, h := dist[t := Some(nd)], prev[t := Some(a)], h + [(nd, t)];
      } else {
        RelaxedNext(res, pot, dist, u, a, dist);
      }
    }

    /** The scan of the arcs of the node `u` just settled at distance `d`;
        afterwards `u` is relaxed like every other settled node. */
    method Scan(u: nat, d: int, visited: seq<bool>, dist0: seq<Option<int>>, prev0: seq<Option<nat>>,
                ghost ord: seq<nat>, ghost cnt: nat, h0: seq<(int, nat)>, ghost s: nat)
      returns (dist: seq<Option<int>>, prev: seq<Option<nat>>, h: seq<(int, nat)>)
      requires Inv() && s < rn.numNodes && u < rn.numNodes
      requires Shaped(rn.residual, rn.potentials, visited, dist0, prev0, ord)
      requires Searching(rn.residual, rn.potentials, visited, dist0, prev0, ord, cnt, d, s, h0, u)
      requires visited[u] && dist0[u] == Some(d)
      ensures Shaped(rn.residual, rn.potentials, visited, dist, prev, ord)
      ensures Searching(rn.residual, rn.potentials, visited, dist, prev, ord, cnt, d, s, h, -1)
    {
      var lo, hi := rn.Neighbors(u);
      dist, prev, h := dist0, prev0, h0;
      for a := lo to hi
        invariant Shaped(rn.residual, rn.potentials, visited, dist, prev, ord)
        invariant Searching(rn.residual, rn.potentials, visited, dist, prev, ord, cnt, d, s, h, u)
        invariant dist[u] == Some(d) && Relaxed(rn.residual, rn.potentials, dist, u, a)
      {
        dist, prev, h := RelaxArc(u, d, a, visited, dist, prev, ord, cnt, h, s);
      }
      CloseScan(rn.residual, rn.potentials, visited, dist, u);
    }

    /** No unsettled node with a distance is nearer than `last`. */
    ghost predicate Frontier(visited: seq<bool>, dist: seq<Option<int>>, last: int)
      requires |visited| == |dist| == rn.numNodes
    {
      forall x :: 0 <= x < rn.numNodes && !visited[x] && dist[x].Some? ==> last <= dist[x].value
    }

    /** The settled nodes are closed under arcs with residual capacity: they
        hold every node such an arc path reaches from them. */
    ghost predicate ReachClosed(res: seq<int>, visited: seq<bool>)
      requires Net() && |res| == 2 * rn.numEdges && |visited| == rn.numNodes
    {
      forall a :: 0 <= a < 2 * rn.numEdges && res[a] > 0 && visited[Tail(a)] ==> visited[rn.to[a]]
    }

    /** The search's start: only `s` has a distance, 0, and it is the only
        heap entry; nothing is settled. */
    lemma SearchStart(res: seq<int>, pot: seq<int>, s: nat)
      requires Net() && |res| == 2 * rn.numEdges && |pot| == rn.numNodes && s < rn.numNodes
      ensures Shaped(res, pot, seq(rn.numNodes, _ => false), seq(rn.numNodes, _ => None)[s := Some(0)],
                     seq(rn.numNodes, _ => None), seq(rn.numNodes, _ => 0))
      ensures Searching(res, pot, seq(rn.numNodes, _ => false), seq(rn.numNodes, _ => None)[s := Some(0)],
                        seq(rn.numNodes, _ => None), seq(rn.numNodes, _ => 0), 0, 0, s, [(0, s)], -1)
    {
      var n := rn.numNodes;
      var visited, dist := seq(n, _ => false), seq(n, _ => None)[s := Some(0)];
      forall x | 0 <= x < n && !visited[x] && dist[x].Some?
        ensures (dist[x].value, x) in [(0, s)]
      {
        assert x == s;
      }
      UnvisitedNone(n);
    }

    /** What the heap invariant says once the search stops: no unsettled
        node is nearer than `last`, and with the heap empty every node with
        a distance is settled. */
    lemma HeapFrontier(h: seq<(int, nat)>, visited: seq<bool>, dist: seq<Option<int>>, last: int)
      requires |visited| == |dist| == rn.numNodes && HeapOk(h, visited, dist, last)
      ensures Frontier(visited, dist, last)
      ensures |h| == 0 ==> forall x :: 0 <= x < rn.numNodes && dist[x].Some? ==> visited[x]
    {
      forall x | 0 <= x < rn.numNodes && !visited[x] && dist[x].Some?
        ensures last <= dist[x].value && |h| > 0
      {
        assert (dist[x].value, x) in h;
      }
    }

    /** A search that empties its heap has settled everything reachable:
        every arc with residual capacity out of a settled node leads to a
        settled node. */
    lemma Exhausted(res: seq<int>, pot: seq<int>, visited: seq<bool>, dist: seq<Option<int>>)
      requires Net() && |res| == 2 * rn.numEdges && |pot| == |visited| == |dist| == rn.numNodes
      requires Closed(res, pot, visited, dist, -1)
      requires forall x :: 0 <= x < rn.numNodes ==> (visited[x] <==> dist[x].Some?)
      ensures ReachClosed(res, visited)
    {
      forall a | 0 <= a < 2 * rn.numEdges && res[a] > 0 && visited[Tail(a)]
        ensures visited[rn.to[a]]
      {
        var x := Tail(a);
        assert Relaxed(res, pot, dist, x, rn.start[x + 1]);
      }
    }

    /** The search has settled `t` as its target: it has a distance, the
        tree reaches as far as it, every other settled node is relaxed and
        no unsettled node is nearer. */
    ghost predicate Target(res: seq<int>, pot: seq<int>, visited: seq<bool>, dist: seq<Option<int>>,
                           prev: seq<Option<nat>>, ord: seq<nat>, cnt: nat, s: nat, t: nat)
      requires Shaped(res, pot, visited, dist, prev, ord) && s < rn.numNodes && t < rn.numNodes
    {
      visited[t] && dist[t].Some? && Tree(res, pot, visited, dist, prev, ord, cnt, dist[t].value, s) &&
      Closed(res, pot, visited, dist, t) && Frontier(visited, dist, dist[t].value)
    }

    /** The node just settled at distance `last` is a target for the search. */
    lemma FoundTarget(res: seq<int>, pot: seq<int>, visited: seq<bool>, dist: seq<Option<int>>,
                      prev: seq<Option<nat>>, ord: seq<nat>, cnt: nat, last: int, s: nat, h: seq<(int, nat)>, u: nat)
      requires Shaped(res, pot, visited, dist, prev, ord) && s < rn.numNodes && u < rn.numNodes
      requires Searching(res, pot, visited, dist, prev, ord, cnt, last, s, h, u)
      requires visited[u] && dist[u] == Some(last)
      ensures Target(res, pot, visited, dist, prev, ord, cnt, s, u)
    {
      HeapFrontier(h, visited, dist, last);
    }

    /** One round of the search loop: pop the nearest entry; skip it if its
        node is settled; otherwise settle the node and stop there if its
        excess is negative, else scan its arcs. */
    method SearchStep(s: nat, v0: seq<bool>, dist0: seq<Option<int>>, prev0: seq<Option<nat>>,
                      ghost ord0: seq<nat>, ghost cnt0: nat, ghost last0: int, h0: seq<(int, nat)>)
      returns (stop: Option<nat>, visited: seq<bool>, dist: seq<Option<int>>, prev: seq<Option<nat>>,
               ghost ord: seq<nat>, ghost cnt: nat, ghost last: int, h: seq<(int, nat)>)
      requires Inv() && s < rn.numNodes && |h0| > 0
      requires Shaped(rn.residual, rn.potentials, v0, dist0, prev0, ord0)
      requires Searching(rn.residual, rn.potentials, v0, dist0, prev0, ord0, cnt0, last0, s, h0, -1)
      requires forall x :: 0 <= x < rn.numNodes && v0[x] ==> rn.excesses[x] >= 0
      ensures Shaped(rn.residual, rn.potentials, visited, dist, prev, ord)
      ensures stop.None? ==> Searching(rn.residual, rn.potentials, visited, dist, prev, ord, cnt, last, s, h, -1)
      ensures stop.None? ==> forall x :: 0 <= x < rn.numNodes && visited[x] ==> rn.excesses[x] >= 0
      ensures stop.None? ==> Unvisited(visited) < Unvisited(v0) || (Unvisited(visited) == Unvisited(v0) && |h| < |h0|)
      ensures stop.Some? ==> stop.value < rn.numNodes && rn.excesses[stop.value] < 0
      ensures stop.Some? ==> forall x :: 0 <= x < rn.numNodes && visited[x] && x != stop.value ==> rn.excesses[x] >= 0
      ensures stop.Some? ==> Target(rn.residual, rn.potentials, visited, dist, prev, ord, cnt, s, stop.value)
    {
      var i, rest := Pop(h0);
      assert forall k :: 0 <= k < |h0| ==> h0[i].0 <= h0[k].0;
      var d, u := h0[i].0, h0[i].1;
      assert u < rn.numNodes;
      dist, prev := dist0, prev0;
      if v0[u] {
        PopStale(rn.residual, rn.potentials, v0, dist, prev, ord0, cnt0, last0, s, h0, i, rest);
        stop, visited, ord, cnt, last, h := None, v0, ord0, cnt0, d, rest;
        return;
      }
      stop, visited, dist, prev, ord, cnt, last, h := Settle(s, v0, dist, prev, ord0, cnt0, last0, h0, i, rest);
    }

    /** The popped entry `h0[i]` of an unsettled node `u`: `u` is settled at
        the entry's distance; the search stops there if its excess is
        negative, otherwise it scans `u`'s arcs. */
    method Settle(s: nat, v0: seq<bool>, dist0: seq<Option<int>>, prev0: seq<Option<nat>>,
                  ghost ord0: seq<nat>, ghost cnt0: nat, ghost last0: int, h0: seq<(int, nat)>, i: nat, rest: seq<(int, nat)>)
      returns (stop: Option<nat>, visited: seq<bool>, dist: seq<Option<int>>, prev: seq<Option<nat>>,
               ghost ord: seq<nat>, ghost cnt: nat, ghost last: int, h: seq<(int, nat)>)
      requires Inv() && s < rn.numNodes
      requires Shaped(rn.residual, rn.potentials, v0, dist0, prev0, ord0)
      requires Searching(rn.residual, rn.potentials, v0, dist0, prev0, ord0, cnt0, last0, s, h0, -1)
      requires forall x :: 0 <= x < rn.numNodes && v0[x] ==> rn.excesses[x] >= 0
      requires i < |h0| && forall k :: 0 <= k < |h0| ==> h0[i].0 <= h0[k].0
      requires (forall x :: x in h0 && x != h0[i] ==> x in rest) && (forall x :: x in rest ==> x in h0)
      requires h0[i].1 < rn.numNodes && !v0[h0[i].1]
      ensures Shaped(rn.residual, rn.potentials, visited, dist, prev, ord)
      ensures stop.None? ==> Searching(rn.residual, rn.potentials, visited, dist, prev, ord, cnt, last, s, h, -1)
      ensures stop.None? ==> forall x :: 0 <= x < rn.numNodes && visited[x] ==> rn.excesses[x] >= 0
      ensures stop.None? ==> Unvisited(visited) < Unvisited(v0)
      ensures stop.Some? ==> stop.value < rn.numNodes && rn.excesses[stop.value] < 0
      ensures stop.Some? ==> forall x :: 0 <= x < rn.numNodes && visited[x] && x != stop.value ==> rn.excesses[x] >= 0
      ensures stop.Some? ==> Target(rn.residual, rn.potentials, visited, dist, prev, ord, cnt, s, stop.value)
    {
      var d, u := h0[i].0, h0[i].1;
      PopFresh(rn.residual, rn.potentials, v0, dist0, prev0, ord0, cnt0, last0, s, h0, i, rest,
               v0[u := true], ord0[u := cnt0]);
      visited, ord, cnt, last := v0[u := true], ord0[u := cnt0], cnt0 + 1, d;
      if rn.excesses[u] < 0 {
        FoundTarget(rn.residual, rn.potentials, visited, dist0, prev0, ord, cnt, d, s, rest, u);
        stop, dist, prev, h := Some(u), dist0, prev0, rest;
        return;
      }
      stop := None;
      dist, prev, h := Scan(u, d, visited, dist0, prev0, ord, cnt, rest, s);
    }

    /** `calculate_distance(s)`: Dijkstra's search from `s` over the arcs
        with residual capacity, by reduced cost, settling nodes in order of
        distance until it settles one of negative excess, `t`. Then `t` is
        the only settled node of negative excess, the predecessor links form
        a tree from `s` numbered by `ord`, every other settled node has all
        its arcs relaxed and no unsettled node is nearer than `t`. When the
        heap runs out, the settled nodes, `s` among them, hold everything
        reachable from `s` and none has negative excess. */
    method CalculateDistance(s: nat)
      returns (found: Option<nat>, visited: seq<bool>, dist: seq<Option<int>>, prev: seq<Option<nat>>,
               ghost ord: seq<nat>, ghost cnt: nat)
      requires Inv() && s < rn.numNodes
      ensures Shaped(rn.residual, rn.potentials, visited, dist, prev, ord)
      ensures forall x :: 0 <= x < rn.numNodes && visited[x] && found != Some(x) ==> rn.excesses[x] >= 0
      ensures found.Some? ==> found.value < rn.numNodes && rn.excesses[found.value] < 0
      ensures found.Some? ==> Target(rn.residual, rn.potentials, visited, dist, prev, ord, cnt, s, found.value)
      ensures found.None? ==> visited[s] && ReachClosed(rn.residual, visited)
    {
      var n := rn.numNodes;
      visited, dist, prev := seq(n, _ => false), seq(n, _ => None)[s := Some(0)], seq(n, _ => None);
      ord, cnt := seq(n, _ => 0), 0;
      var h: seq<(int, nat)> := [(0, s)];
      ghost var last := 0;
      SearchStart(rn.residual, rn.potentials, s);
      while |h| > 0
        invariant Shaped(rn.residual, rn.potentials, visited, dist, prev, ord)
        invariant Searching(rn.residual, rn.potentials, visited, dist, prev, ord, cnt, last, s, h, -1)
        invariant forall x :: 0 <= x < n && visited[x] ==> rn.excesses[x] >= 0
        decreases Unvisited(visited), |h|
      {
        var stop;
        stop, visited, dist, prev, ord, cnt, last, h := SearchStep(s, visited, dist, prev, ord, cnt, last, h);
        if stop.Some? {
          found := stop;
          return;
        }
      }
      HeapFrontier(h, visited, dist, last);
      Exhausted(rn.residual, rn.potentials, visited, dist);
      found := None;
    }

    /** The potentials after a search whose target is at distance `dt`:
        each settled node's moves by `dt` less its own distance; the others
        stay. */
    ghost predicate Shifted(pot0: seq<int>, pot1: seq<int>, visited: seq<bool>, dist: seq<Option<int>>, dt: int)
      requires |pot0| == |visited| == |dist| == rn.numNodes
    {
      |pot1| == rn.numNodes &&
      forall u :: 0 <= u < rn.numNodes ==>
        pot1[u] == if visited[u] && dist[u].Some? then pot0[u] - dist[u].value + dt else pot0[u]
    }

    /** `update potentials`: the loop over the nodes that moves the potential
        of every settled node `u` by `dist[t] - dist[u]`. */
    method UpdatePotentials(visited: seq<bool>, dist: seq<Option<int>>, t: nat)
      requires Valid() && |visited| == |dist| == rn.numNodes && t < rn.numNodes && dist[t].Some?
      requires forall u :: 0 <= u < rn.numNodes && visited[u] ==> dist[u].Some?
      modifies rn
      ensures Valid() && rn.residual == old(rn.residual) && rn.excesses == old(rn.excesses)
      ensures Shifted(old(rn.potentials), rn.potentials, visited, dist, dist[t].value)
    {
      ghost var pot0 := rn.potentials;
      for u := 0 to rn.numNodes
        invariant Valid() && rn.residual == old(rn.residual) && rn.excesses == old(rn.excesses)
        invariant |rn.potentials| == rn.numNodes
        invariant forall x :: 0 <= x < u ==>
                    rn.potentials[x] == if visited[x] && dist[x].Some? then pot0[x] - dist[x].value + dist[t].value else pot0[x]
        invariant forall x :: u <= x < rn.numNodes ==> rn.potentials[x] == pot0[x]
      {
        if visited[u] {
          rn.potentials := rn.potentials[u := rn.potentials[u] - dist[u].value + dist[t].value];
        }
      }
    }

    /** Moving the potentials by the distances of a search to target `t`
        keeps the dual invariant, and makes each tree arc's reduced cost
        zero: settled nodes are no farther than `t`, unsettled ones no
        nearer, and every arc out of a settled node other than `t` is
        relaxed. */
    lemma ShiftDual(res: seq<int>, pot0: seq<int>, pot1: seq<int>, visited: seq<bool>, dist: seq<Option<int>>,
                    prev: seq<Option<nat>>, ord: seq<nat>, cnt: nat, s: nat, t: nat)
      requires Shaped(res, pot0, visited, dist, prev, ord) && s < rn.numNodes && t < rn.numNodes
      requires Target(res, pot0, visited, dist, prev, ord, cnt, s, t) && Dual(res, pot0)
      requires Shifted(pot0, pot1, visited, dist, dist[t].value)
      ensures Dual(res, pot1)
      ensures forall x :: 0 <= x < rn.numNodes && visited[x] && x != s ==>
                prev[x].Some? && prev[x].value < 2 * rn.numEdges && Rc(pot1, Tail(prev[x].value), prev[x].value) == 0
    {
      var dt := dist[t].value;
      forall a | 0 <= a < 2 * rn.numEdges && res[a] > 0
        ensures Rc(pot1, Tail(a), a) >= 0
      {
        var u, v := Tail(a), rn.to[a];
        assert Rc(pot0, u, a) >= 0;
        if visited[u] && u != t {
          assert Relaxed(res, pot0, dist, u, rn.start[u + 1]);
        }
      }
      forall x | 0 <= x < rn.numNodes && visited[x] && x != s
        ensures prev[x].Some? && prev[x].value < 2 * rn.numEdges && Rc(pot1, Tail(prev[x].value), prev[x].value) == 0
      {
        assert Linked(res, pot0, visited, dist, prev, ord, cnt, x);
      }
    }

    /** The tree path's arcs from `s` to the settled node `v`. */
    ghost function Chain(res: seq<int>, pot: seq<int>, visited: seq<bool>, dist: seq<Option<int>>, prev: seq<Option<nat>>,
                         ord: seq<nat>, cnt: nat, last: int, s: nat, v: nat): (p: seq<nat>)
      requires Shaped(res, pot, visited, dist, prev, ord) && s < rn.numNodes
      requires Tree(res, pot, visited, dist, prev, ord, cnt, last, s) && v < rn.numNodes && visited[v]
      ensures forall i :: 0 <= i < |p| ==> p[i] < 2 * rn.numEdges
      decreases ord[v]
    {
      if v == s then []
      else
        assert Linked(res, pot, visited, dist, prev, ord, cnt, v);
        Chain(res, pot, visited, dist, prev, ord, cnt, last, s, Tail(prev[v].value)) + [prev[v].value]
    }

    /** The tree path's nodes from `s` to the settled node `v`. */
    ghost function ChainNodes(res: seq<int>, pot: seq<int>, visited: seq<bool>, dist: seq<Option<int>>, prev: seq<Option<nat>>,
                              ord: seq<nat>, cnt: nat, last: int, s: nat, v: nat): seq<nat>
      requires Shaped(res, pot, visited, dist, prev, ord) && s < rn.numNodes
      requires Tree(res, pot, visited, dist, prev, ord, cnt, last, s) && v < rn.numNodes && visited[v]
      decreases ord[v]
    {
      if v == s then [s]
      else
        assert Linked(res, pot, visited, dist, prev, ord, cnt, v);
        ChainNodes(res, pot, visited, dist, prev, ord, cnt, last, s, Tail(prev[v].value)) + [v]
    }

    /** Arcs `p` walk through `nodes` from `s` to `v`, settled nodes in
        increasing settling order (so none twice), each arc with residual
        capacity and recorded as its head's predecessor; `s` has none. */
    /** The arc arrays' sizes, and every reverse an arc. */
    ghost predicate Arcs()
    {
      |rn.to| == |rn.rev| == 2 * rn.numEdges && forall a :: 0 <= a < 2 * rn.numEdges ==> rn.rev[a] < 2 * rn.numEdges
    }

    ghost predicate ChainOk(res: seq<int>, visited: seq<bool>, prev: seq<Option<nat>>, ord: seq<nat>, s: nat, v: nat,
                            p: seq<nat>, nodes: seq<nat>)
      requires Arcs() && |res| == 2 * rn.numEdges && |visited| == |prev| == |ord| == rn.numNodes
    {
      |nodes| == |p| + 1 && nodes[0] == s && nodes[|p|] == v && s < rn.numNodes && prev[s].None? &&
      (forall i :: 0 <= i <= |p| ==> nodes[i] < rn.numNodes && visited[nodes[i]]) &&
      (forall i :: 0 <= i < |p| ==>
         p[i] < 2 * rn.numEdges && rn.to[rn.rev[p[i]]] == nodes[i] && rn.to[p[i]] == nodes[i + 1] &&
         res[p[i]] > 0 && prev[nodes[i + 1]] == Some(p[i])) &&
      (forall i, j :: 0 <= i < j <= |p| ==> ord[nodes[i]] < ord[nodes[j]])
    }

    lemma {:induction false} ChainShape(res: seq<int>, pot: seq<int>, visited: seq<bool>, dist: seq<Option<int>>,
                                        prev: seq<Option<nat>>, ord: seq<nat>, cnt: nat, last: int, s: nat, v: nat)
      requires Shaped(res, pot, visited, dist, prev, ord) && s < rn.numNodes
      requires Tree(res, pot, visited, dist, prev, ord, cnt, last, s) && v < rn.numNodes && visited[v]
      ensures ChainOk(res, visited, prev, ord, s, v, Chain(res, pot, visited, dist, prev, ord, cnt, last, s, v),
                      ChainNodes(res, pot, visited, dist, prev, ord, cnt, last, s, v))
      decreases ord[v]
    {
      if v != s {
        assert Linked(res, pot, visited, dist, prev, ord, cnt, v);
        var u := Tail(prev[v].value);
        ChainShape(res, pot, visited, dist, prev, ord, cnt, last, s, u);
        ChainExtend(res, visited, prev, ord, s, u, v, Chain(res, pot, visited, dist, prev, ord, cnt, last, s, u),
                    ChainNodes(res, pot, visited, dist, prev, ord, cnt, last, s, u));
      }
    }

    /** A tree path to `u` extended by the tree arc from `u` to `v`. */
    lemma ChainExtend(res: seq<int>, visited: seq<bool>, prev: seq<Option<nat>>, ord: seq<nat>, s: nat, u: nat, v: nat,
                      p0: seq<nat>, n0: seq<nat>)
      requires Arcs() && |res| == 2 * rn.numEdges && |visited| == |prev| == |ord| == rn.numNodes
      requires ChainOk(res, visited, prev, ord, s, u, p0, n0)
      requires v < rn.numNodes && visited[v] && prev[v].Some? && prev[v].value < 2 * rn.numEdges && ord[u] < ord[v]
      requires rn.to[rn.rev[prev[v].value]] == u && rn.to[prev[v].value] == v && res[prev[v].value] > 0
      ensures ChainOk(res, visited, prev, ord, s, v, p0 + [prev[v].value], n0 + [v])
    {
      var p, nodes := p0 + [prev[v].value], n0 + [v];
      assert forall i :: 0 <= i < |p0| ==> p[i] == p0[i];
      assert forall i :: 0 <= i <= |p0| ==> nodes[i] == n0[i];
      forall i, j | 0 <= i < j <= |p|
        ensures ord[nodes[i]] < ord[nodes[j]]
      {
        if j == |p| && i < |p0| {
          assert ord[n0[i]] < ord[n0[|p0|]];
        }
      }
    }

    /** Pushing along an arc of reduced cost zero keeps the dual invariant:
        the reverse arc, which gains residual capacity, has reduced cost zero
        as well. */
    lemma PushDual(res: seq<int>, pot: seq<int>, a: nat, f: int)
      requires Net() && |res| == 2 * rn.numEdges && |pot| == rn.numNodes && a < 2 * rn.numEdges
      requires Dual(res, pot) && Rc(pot, Tail(a), a) == 0
      ensures Dual(M.Pushed(res, rn.rev, a, f), pot)
    {
      var r := M.Pushed(res, rn.rev, a, f);
      var b := rn.rev[a];
      assert rn.rev[b] == a && rn.cost[b] == -rn.cost[a];
      forall c | 0 <= c < 2 * rn.numEdges && r[c] > 0
        ensures Rc(pot, Tail(c), c) >= 0
      {
        if c != a && c != b {
          assert r[c] == res[c];
        }
      }
    }

    /** Pushing at most an arc's residual keeps the residuals within the
        capacities. */
    lemma PushWithin(res: seq<int>, a: nat, f: int)
      requires Net() && |res| == 2 * rn.numEdges && a < 2 * rn.numEdges
      requires FlowWithin(res, rn.upper, rn.rev) && 0 <= f <= res[a]
      ensures FlowWithin(M.Pushed(res, rn.rev, a, f), rn.upper, rn.rev)
    {
      M.PushedKeepsPairs(res, rn.rev, a, f);
    }

    /** Halfway through the push walk: `delta` has gone along the arcs of
        `p` from `k` on, the residuals are within capacity, the dual
        invariant holds, and the arcs before `k` keep their residuals from
        `res0`. */
    ghost predicate Pushing(res0: seq<int>, pot: seq<int>, p: seq<nat>, k: nat, delta: int, res: seq<int>)
      requires Net() && |res0| == |res| == 2 * rn.numEdges && |pot| == rn.numNodes && k <= |p|
      requires forall i :: 0 <= i < |p| ==> p[i] < 2 * rn.numEdges
    {
      res == PushAlong(res0, rn.rev, p[k..], delta) && FlowWithin(res, rn.upper, rn.rev) && Dual(res, pot) &&
      forall j :: 0 <= j < k ==> res[p[j]] == res0[p[j]]
    }

    /** Pushing along the path arc `p[k - 1]` extends the pushed suffix: that
        arc still has its residual from `res0`, and the arcs before it are
        neither it nor its reverse, their tails coming earlier on the path. */
    lemma AugmentStep(res0: seq<int>, pot: seq<int>, visited: seq<bool>, prev: seq<Option<nat>>, ord: seq<nat>,
                      s: nat, t: nat, p: seq<nat>, nodes: seq<nat>, k: nat, delta: int, res: seq<int>)
      requires Net() && |res0| == |res| == 2 * rn.numEdges && |pot| == |visited| == |prev| == |ord| == rn.numNodes
      requires ChainOk(res0, visited, prev, ord, s, t, p, nodes) && 0 < k <= |p|
      requires Pushing(res0, pot, p, k, delta, res) && 0 <= delta <= res0[p[k - 1]]
      requires Rc(pot, Tail(p[k - 1]), p[k - 1]) == 0
      ensures Pushing(res0, pot, p, k - 1, delta, M.Pushed(res, rn.rev, p[k - 1], delta))
    {
      var a := p[k - 1];
      assert p[k - 1..][1..] == p[k..];
      PushWithin(res, a, delta);
      PushDual(res, pot, a, delta);
      M.PushedKeepsPairs(res, rn.rev, a, delta);
      assert rn.to[rn.rev[rn.rev[a]]] == nodes[k];
      forall j | 0 <= j < k - 1
        ensures p[j] != a && p[j] != rn.rev[a]
      {
        assert ord[nodes[j]] < ord[nodes[j + 1]] < ord[nodes[k]];
      }
    }

    /** Along a tree path, a node has a predecessor exactly when it is not
        the first, and then it is the arc before it. */
    lemma ChainPrev(res: seq<int>, visited: seq<bool>, prev: seq<Option<nat>>, ord: seq<nat>, s: nat, t: nat,
                    p: seq<nat>, nodes: seq<nat>, k: nat)
      requires Arcs() && |res| == 2 * rn.numEdges && |visited| == |prev| == |ord| == rn.numNodes
      requires ChainOk(res, visited, prev, ord, s, t, p, nodes) && k <= |p|
      ensures nodes[k] < rn.numNodes && (prev[nodes[k]].Some? <==> k > 0)
      ensures k > 0 ==> prev[nodes[k]] == Some(p[k - 1])
    {
      if k > 0 {
        var i := k - 1;
        assert prev[nodes[i + 1]] == Some(p[i]);
      }
    }

    /** `calculate delta`: the walk from `t` back along the predecessor arcs
        to `s`, taking the smallest of `s`'s excess, `t`'s deficit and the
        path's residuals. */
    method PathDelta(s: nat, t: nat, prev: seq<Option<nat>>, ghost visited: seq<bool>, ghost ord: seq<nat>,
                     ghost p: seq<nat>, ghost nodes: seq<nat>)
      returns (delta: int)
      requires Arcs() && |rn.residual| == 2 * rn.numEdges && |rn.excesses| == rn.numNodes
      requires |visited| == |prev| == |ord| == rn.numNodes && t < rn.numNodes
      requires ChainOk(rn.residual, visited, prev, ord, s, t, p, nodes)
      ensures delta == Bottleneck(rn.residual, p, M.Min(rn.excesses[s], -rn.excesses[t]))
    {
      ghost var init := M.Min(rn.excesses[s], -rn.excesses[t]);
      delta := M.Min(rn.excesses[s], -rn.excesses[t]);
      var v := t;
      ghost var k := |p|;
      assert p[k..] == [];
      while prev[v].Some?
        invariant 0 <= k <= |p| && v == nodes[k] && delta == Bottleneck(rn.residual, p[k..], init)
        decreases k
      {
        ChainPrev(rn.residual, visited, prev, ord, s, t, p, nodes, k);
        var a := prev[v].value;
        assert a == p[k - 1] && p[k - 1..][1..] == p[k..];
        delta := M.Min(delta, rn.residual[a]);
        v := rn.to[rn.rev[a]];
        k := k - 1;
      }
      ChainPrev(rn.residual, visited, prev, ord, s, t, p, nodes, k);
      assert p[k..] == p;
      delta := M.Min(delta, rn.excesses[v]);
    }

    /** `update flow`: the walk from `t` back to `s` pushing `delta` along
        every predecessor arc. */
    method Augment(s: nat, t: nat, prev: seq<Option<nat>>, delta: int, ghost visited: seq<bool>, ghost ord: seq<nat>,
                   ghost p: seq<nat>, ghost nodes: seq<nat>)
      requires Valid() && FlowWithin(rn.residual, rn.upper, rn.rev) && Dual(rn.residual, rn.potentials)
      requires |visited| == |prev| == |ord| == rn.numNodes && t < rn.numNodes
      requires ChainOk(rn.residual, visited, prev, ord, s, t, p, nodes)
      requires forall i :: 0 <= i < |p| ==> Rc(rn.potentials, Tail(p[i]), p[i]) == 0
      requires 0 <= delta && forall i :: 0 <= i < |p| ==> delta <= rn.residual[p[i]]
      modifies rn
      ensures Valid() && FlowWithin(rn.residual, rn.upper, rn.rev) && Dual(rn.residual, rn.potentials)
      ensures rn.residual == PushAlong(old(rn.residual), rn.rev, p, delta)
      ensures rn.excesses == old(rn.excesses) && rn.potentials == old(rn.potentials)
    {
      ghost var res0 := rn.residual;
      var v := t;
      ghost var k := |p|;
      assert p[k..] == [];
      while prev[v].Some?
        invariant 0 <= k <= |p| && v == nodes[k] && Valid()
        invariant rn.excesses == old(rn.excesses) && rn.potentials == old(rn.potentials)
        invariant Pushing(res0, rn.potentials, p, k, delta, rn.residual)
        decreases k
      {
        ChainPrev(res0, visited, prev, ord, s, t, p, nodes, k);
        var a := prev[v].value;
        AugmentStep(res0, rn.potentials, visited, prev, ord, s, t, p, nodes, k, delta, rn.residual);
        // the residual of `a` falls by `delta` and that of its reverse rises by it
        rn.residual := M.Pushed(rn.residual, rn.rev, a, delta);
        v := rn.to[rn.rev[a]];
        k := k - 1;
      }
      ChainPrev(res0, visited, prev, ord, s, t, p, nodes, k);
      assert p[k..] == p;
    }

    /** The end of `update flow`: `t`'s excess rises by `d` and `s`'s falls
        by it, so the total is unchanged. */
    method MoveExcess(s: nat, t: nat, d: int)
      requires Valid() && s < rn.numNodes && t < rn.numNodes
      modifies rn
      ensures Valid() && rn.residual == old(rn.residual) && rn.potentials == old(rn.potentials)
      ensures rn.excesses == Moved(old(rn.excesses), s, t, d) && Sum(rn.excesses) == old(Sum(rn.excesses))
    {
      rn.excesses := Moved(rn.excesses, s, t, d);
      MovedSum(old(rn.excesses), s, t, d);
    }

    /** `update_flow(s, t, prev)`: pushes along the predecessor path from
        `s` to `t` the smallest of `s`'s excess, `t`'s deficit and the
        path's residuals, which is positive, and moves that much excess from
        `s` to `t`. The residuals stay within capacity, every arc pair keeps
        its sum, and the dual invariant holds, the path's arcs having reduced
        cost zero. */
    method UpdateFlow(s: nat, t: nat, prev: seq<Option<nat>>, ghost visited: seq<bool>, ghost ord: seq<nat>,
                      ghost p: seq<nat>, ghost nodes: seq<nat>)
      returns (ghost delta: int)
      requires Valid() && FlowWithin(rn.residual, rn.upper, rn.rev) && Dual(rn.residual, rn.potentials)
      requires |visited| == |prev| == |ord| == rn.numNodes && s < rn.numNodes && t < rn.numNodes
      requires ChainOk(rn.residual, visited, prev, ord, s, t, p, nodes)
      requires forall i :: 0 <= i < |p| ==> Rc(rn.potentials, Tail(p[i]), p[i]) == 0
      requires rn.excesses[s] > 0 && rn.excesses[t] < 0
      modifies rn
      ensures Valid() && FlowWithin(rn.residual, rn.upper, rn.rev) && Dual(rn.residual, rn.potentials)
      ensures rn.potentials == old(rn.potentials)
      ensures delta == Bottleneck(old(rn.residual), p, M.Min(old(rn.excesses[s]), -old(rn.excesses[t]))) && delta > 0
      ensures rn.residual == PushAlong(old(rn.residual), rn.rev, p, delta)
      ensures rn.excesses == Moved(old(rn.excesses), s, t, delta) && Sum(rn.excesses) == old(Sum(rn.excesses))
    {
      var d := PathDelta(s, t, prev, visited, ord, p, nodes);
      assert d > 0;
      Augment(s, t, prev, d, visited, ord, p, nodes);
      MoveExcess(s, t, d);
      delta := d;
    }

    /** With residuals within capacity, the dual invariant is complementary
        slackness at arc `a` out of `x`: an arc with residual capacity has no
        negative reduced cost, and one carrying flow, whose reverse then has
        residual capacity, no positive one. */
    lemma ArcOptimal(x: nat, a: nat)
      requires Inv() && x < rn.numNodes && rn.start[x] <= a < rn.start[x + 1]
      ensures a < 2 * rn.numEdges && rn.ArcSlack(x, a)
    {
      M.ArcTailIn(rn.numNodes, rn.start, rn.to, rn.rev, a, x);
      var b := rn.rev[a];
      assert rn.rev[b] == a && rn.cost[b] == -rn.cost[a] && rn.upper[b] == rn.upper[a];
      assert Rc(rn.potentials, Tail(b), b) == -rn.ReducedCost(x, a);
    }

    /** Once the invariant holds, `check_optimality` would find every arc
        meeting complementary slackness: the flow is of least cost for its
        supplies, the potentials proving it. */
    lemma Optimal()
      requires Inv()
      ensures rn.SlackBelow(rn.numNodes)
    {
      forall x, a | 0 <= x < rn.numNodes && rn.start[x] <= a < rn.start[x + 1]
        ensures a < 2 * rn.numEdges && rn.ArcSlack(x, a)
      {
        ArcOptimal(x, a);
      }
    }

    /** The arcs of the tree path to a settled node have reduced cost zero
        once the potentials have moved. */
    lemma PathTight(res: seq<int>, pot: seq<int>, visited: seq<bool>, prev: seq<Option<nat>>, ord: seq<nat>,
                    s: nat, t: nat, p: seq<nat>, nodes: seq<nat>)
      requires Net() && |res| == 2 * rn.numEdges && |pot| == |visited| == |prev| == |ord| == rn.numNodes
      requires ChainOk(res, visited, prev, ord, s, t, p, nodes)
      requires forall x :: 0 <= x < rn.numNodes && visited[x] && x != s ==>
                 prev[x].Some? && prev[x].value < 2 * rn.numEdges && Rc(pot, Tail(prev[x].value), prev[x].value) == 0
      ensures forall i :: 0 <= i < |p| ==> Rc(pot, Tail(p[i]), p[i]) == 0
    {
      forall i | 0 <= i < |p|
        ensures Rc(pot, Tail(p[i]), p[i]) == 0
      {
        assert ord[nodes[0]] < ord[nodes[i + 1]];
      }
    }

    /** One round of `run`'s loop: a search from the source; when it finds
        a node of negative excess, the potentials move by the distances and
        the path's bottleneck is pushed, which lowers the source's excess.
        Otherwise nothing changes. The invariant holds throughout. */
    method Round() returns (progress: bool)
      requires Inv() && rn.excesses[source] > 0
      modifies rn
      ensures Inv()
      ensures progress ==> rn.excesses[source] < old(rn.excesses[source])
      ensures !progress ==> unchanged(rn)
    {
      var found, visited, dist, prev, ord, cnt := CalculateDistance(source);
      if found.None? {
        return false;
      }
      var t := found.value;
      ghost var res0, pot0 := rn.residual, rn.potentials;
      UpdatePotentials(visited, dist, t);
      ShiftDual(res0, pot0, rn.potentials, visited, dist, prev, ord, cnt, source, t);
      ghost var last := dist[t].value;
      ChainShape(res0, pot0, visited, dist, prev, ord, cnt, last, source, t);
      ghost var p := Chain(res0, pot0, visited, dist, prev, ord, cnt, last, source, t);
      ghost var nodes := ChainNodes(res0, pot0, visited, dist, prev, ord, cnt, last, source, t);
      PathTight(res0, rn.potentials, visited, prev, ord, source, t, p, nodes);
      ghost var delta := UpdateFlow(source, t, prev, visited, ord, p, nodes);
      return true;
    }

    /** `run`: fails with `Unbalanced` when the supplies do not balance and
        with `Infeasible` when no edge can carry the excess left, in both
        cases changing nothing; answers 0 when there is no edge. Otherwise it
        runs rounds while the source has excess and a search reaches a node
        of negative excess. It answers `Infeasible` exactly when excess is
        left somewhere, and otherwise the base cost of the base flows, which
        meet complementary slackness with the final potentials. */
    method Run() returns (r: Result<int, Status>)
      requires Inv()
      modifies rn
      ensures Inv()
      ensures old(ValidateBalance(rn)).Err? ==> r == Err(Unbalanced) && unchanged(rn)
      ensures old(ValidateBalance(rn)).Ok? && old(ValidateInfeasible(rn)).Err? ==> r == Err(Infeasible) && unchanged(rn)
      ensures old(ValidateBalance(rn)).Ok? && old(ValidateInfeasible(rn)).Ok? && old(TrivialSolutionIfAny(rn)).Some? ==>
                r == Ok(0) && unchanged(rn)
      ensures r.Err? ==> r.error == Unbalanced || r.error == Infeasible
      ensures r.Ok? <==> old(ValidateBalance(rn)).Ok? && old(ValidateInfeasible(rn)).Ok? &&
                         forall u :: 0 <= u < rn.numNodes ==> rn.excesses[u] == 0
      ensures r.Ok? ==> rn.SlackBelow(rn.numNodes) && r.value == ObjectiveOf(rn.net.base, rn.FlowsOriginalGraph())
    {
      var balance := ValidateBalance(rn);
      if balance.Err? {
        return Err(balance.error);
      }
      var feasible := ValidateInfeasible(rn);
      if feasible.Err? {
        return Err(feasible.error);
      }
      var trivial := TrivialSolutionIfAny(rn);
      if trivial.Some? {
        TrivialSolutionExact(rn);
        Optimal();
        return trivial.value;
      }
      r := Solve();
    }

    /** The loop of `run` and its answer, once the checks have passed. */
    method Solve() returns (r: Result<int, Status>)
      requires Inv()
      modifies rn
      ensures Inv()
      ensures r.Err? ==> r.error == Infeasible
      ensures r.Ok? <==> forall u :: 0 <= u < rn.numNodes ==> rn.excesses[u] == 0
      ensures r.Ok? ==> rn.SlackBelow(rn.numNodes) && r.value == ObjectiveOf(rn.net.base, rn.FlowsOriginalGraph())
    {
      while rn.excesses[source] > 0
        invariant Inv()
        decreases rn.excesses[source]
      {
        var progress := Round();
        if !progress {
          break;
        }
      }
      if rn.HaveExcess() {
        return Err(Infeasible);
      }
      Optimal();
      var value := rn.CalculateObjectiveValueOriginalGraph();
      return Ok(value);
    }

    /** `flow`: the base flow of edge `j`. While the invariant holds it lies
        within the edge's bounds. */
    function Flow(j: nat): (x: int)
      reads this, rn
      requires Valid() && j < rn.numEdges
      ensures Inv() && j < rn.numEdgesOriginalGraph ==> rn.net.base[j].data.lower <= x <= rn.net.base[j].data.upper
    {
      FlowBounded(j);
      rn.FlowOriginalGraph(j)
    }

    /** Under the invariant every base edge's flow lies within its bounds. */
    lemma FlowBounded(j: nat)
      requires Valid() && j < rn.numEdges
      ensures Inv() && j < rn.numEdgesOriginalGraph ==>
                rn.net.base[j].data.lower <= rn.FlowOriginalGraph(j) <= rn.net.base[j].data.upper
    {
      if Inv() && j < rn.numEdgesOriginalGraph {
        assert rn.EdgeOk(j);
        var a := rn.edgeIdToArcId[j];
        assert 0 <= rn.residual[rn.rev[a]];
        rn.FlowOriginalGraphWithin(j);
      }
    }

    /** `flows`: the base flows of all base edges, each within its bounds
        while the invariant holds. */
    function Flows(): (x: seq<int>)
      reads this, rn
      requires Valid()
      ensures |x| == rn.numEdgesOriginalGraph
      ensures Inv() ==> forall j :: 0 <= j < |x| ==> rn.net.base[j].data.lower <= x[j] <= rn.net.base[j].data.upper
    {
      var x := rn.FlowsOriginalGraph();
      assert forall j :: 0 <= j < |x| ==> x[j] == rn.FlowOriginalGraph(j);
      assert forall j :: 0 <= j < |x| ==> Inv() ==>
               rn.net.base[j].data.lower <= rn.FlowOriginalGraph(j) <= rn.net.base[j].data.upper by {
        forall j | 0 <= j < |x| {
          FlowBounded(j);
        }
      }
      x
    }

    /** `potential`: the potential of node `u`. */
    function Potential(u: nat): (p: int)
      reads this, rn
      requires Valid() && u < rn.numNodes
      ensures u < rn.numNodesOriginalGraph ==> p == rn.PotentialsOriginalGraph()[u]
    {
      rn.potentials[u]
    }

    /** `potentials`: the potentials of the base nodes. */
    function Potentials(): (p: seq<int>)
      reads this, rn
      requires Valid()
      ensures |p| == rn.numNodesOriginalGraph
      ensures forall u :: 0 <= u < |p| ==> p[u] == Potential(u)
    {
      rn.PotentialsOriginalGraph()
    }
  }
}
