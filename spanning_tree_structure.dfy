/** The spanning-tree structure of the network simplex solvers: per-node
    excesses, tree parents and the depth-first thread; per-edge endpoints,
    capacity, cost, flow and state (at its lower bound, at its upper bound,
    or in the tree). The edges are the normalised base edges followed by any
    artificial ones. The per-edge attributes `build` fills in and nothing
    modelled here rewrites afterwards are constants; what the tree
    operations update is state. */
module NetworkSimplexSpanningTree {
  import opened Wrappers
  import opened Graph
  import opened MinimumCostFlowNormalizedNetwork
  import R = MinimumCostFlowResidualNetwork

  /** `usize::MAX`, the "no node" and "no edge". */
  const Invalid: nat := 0xffff_ffff_ffff_ffff

  datatype EdgeState = Lower | Upper | Tree

  /** The excess loops of `build`: each node's normalised supply, then its
      fix added when one is given. */
  method BuildExcesses(n: nat, b: seq<int>, fix: Option<seq<int>>) returns (ex: seq<int>)
    requires |b| <= n && (fix.Some? ==> |fix.value| >= n)
    ensures |ex| == n && forall u :: 0 <= u < n ==> ex[u] == R.Supply(b, fix, u)
  {
    ex := seq(n, _ => 0);
    for u := 0 to |b|
      invariant |ex| == n
      invariant forall x :: 0 <= x < n ==> ex[x] == if x < u then b[x] else 0
    {
      ex := ex[u := b[u]];
    }
    if fix.Some? {
      for u := 0 to n
        invariant |ex| == n
        invariant forall x :: 0 <= x < n ==> ex[x] == R.Supply(b, if x < u then fix else None, x)
      {
        ex := ex[u := ex[u] + fix.value[u]];
      }
    }
  }

  /** The edge loop of `build`: each edge's endpoints, capacity, cost,
      orientation and lower bound, and its initial flow. */
  method BuildEdges(all: seq<NormalizedEdge>, initialFlows: Option<seq<int>>)
    returns (fr: seq<nat>, tt: seq<nat>, up: seq<int>, co: seq<int>, fl: seq<int>, rv: seq<bool>, lo: seq<int>)
    requires initialFlows.Some? ==> |initialFlows.value| >= |all|
    ensures |fr| == |tt| == |up| == |co| == |fl| == |rv| == |all| && |lo| == 2 * |all|
    ensures forall e :: 0 <= e < |all| ==>
              fr[e] == all[e].u && tt[e] == all[e].v && up[e] == all[e].upper && co[e] == all[e].cost &&
              fl[e] == R.InitialFlow(initialFlows, e) && rv[e] == all[e].isReversed && lo[e] == all[e].lower
    ensures forall e :: |all| <= e < 2 * |all| ==> lo[e] == 0
  {
    var m := |all|;
    fr, tt, up, co := seq(m, _ => 0), seq(m, _ => 0), seq(m, _ => 0), seq(m, _ => 0);
    fl, rv, lo := seq(m, _ => 0), seq(m, _ => false), seq(2 * m, _ => 0);
    for e := 0 to m
      invariant |fr| == |tt| == |up| == |co| == |fl| == |rv| == m && |lo| == 2 * m
      invariant forall f :: 0 <= f < e ==>
                  fr[f] == all[f].u && tt[f] == all[f].v && up[f] == all[f].upper && co[f] == all[f].cost &&
                  fl[f] == R.InitialFlow(initialFlows, f) && rv[f] == all[f].isReversed && lo[f] == all[f].lower
      invariant forall f :: e <= f < 2 * m ==> lo[f] == 0
    {
      var edge := all[e];
      var initialFlow := if initialFlows.Some? then initialFlows.value[e] else 0;
      fr, tt, fl, up, co := fr[e := edge.u], tt[e := edge.v], fl[e := initialFlow], up[e := edge.upper], co[e := edge.cost];
      rv, lo := rv[e := edge.isReversed], lo[e := edge.lower];
    }
  }

  /** The lowest bit of `a`. */
  function Bit(a: nat): (r: nat)
    ensures r < 2
  {
    a % 2
  }

  /** `a` without its lowest bit. */
  function Half(a: nat): (h: nat)
    ensures a == 2 * h + Bit(a) && (a > 0 ==> h < a)
  {
    a / 2
  }

  /** Exclusive or of two bits. */
  function BitXor(p: nat, q: nat): nat
  {
    if p == q then 0 else 1
  }

  /** Bitwise exclusive or of two naturals, lowest bit first; on indices
      below 2^64 it is Rust's `^` on `usize`. */
  function Xor(a: nat, b: nat): nat
    decreases a + b
  {
    if a == 0 && b == 0 then 0
    else 2 * Xor(Half(a), Half(b)) + BitXor(Bit(a), Bit(b))
  }

  /** A natural splits into its half and its bit in one way only. */
  lemma Split(x: nat, h: nat, r: nat)
    requires r < 2 && x == 2 * h + r
    ensures Half(x) == h && Bit(x) == r
  {
  }

  /** The half and the bit of `Xor(a, b)`. */
  lemma XorHalf(a: nat, b: nat)
    ensures Half(Xor(a, b)) == Xor(Half(a), Half(b)) && Bit(Xor(a, b)) == BitXor(Bit(a), Bit(b))
  {
    if a == 0 && b == 0 {
      assert Half(0) == 0 && Bit(0) == 0;
    }
    Split(Xor(a, b), Xor(Half(a), Half(b)), BitXor(Bit(a), Bit(b)));
  }

  lemma {:induction false} XorComm(a: nat, b: nat)
    ensures Xor(a, b) == Xor(b, a)
    decreases a + b
  {
    if a != 0 || b != 0 {
      XorComm(Half(a), Half(b));
    }
  }

  lemma {:induction false} XorSelf(a: nat)
    ensures Xor(a, a) == 0
    decreases a
  {
    if a != 0 {
      XorSelf(Half(a));
    }
  }

  lemma {:induction false} XorZero(a: nat)
    ensures Xor(a, 0) == a
    decreases a
  {
    if a != 0 {
      assert Half(0) == 0 && Bit(0) == 0;
      XorZero(Half(a));
    }
  }

  lemma {:induction false} XorAssoc(a: nat, b: nat, c: nat)
    ensures Xor(Xor(a, b), c) == Xor(a, Xor(b, c))
    decreases a + b + c
  {
    var l, r := Xor(Xor(a, b), c), Xor(a, Xor(b, c));
    if a + b + c > 0 {
      XorAssoc(Half(a), Half(b), Half(c));
      XorHalf(a, b);
      XorHalf(b, c);
      XorHalf(Xor(a, b), c);
      XorHalf(a, Xor(b, c));
      assert Half(l) == Half(r) && Bit(l) == Bit(r);
    } else {
      assert Xor(0, 0) == 0;
    }
  }

  /** `x ^ y ^ z` is `y` when `x` is `z`, and `z` when `x` is `y`. */
  lemma XorCancel(x: nat, y: nat, z: nat)
    ensures x == z ==> Xor(Xor(x, y), z) == y
    ensures x == y ==> Xor(Xor(x, y), z) == z
  {
    if x == z {
      XorComm(x, y);
      XorAssoc(y, x, x);
      XorSelf(x);
      XorZero(y);
    }
    if x == y {
      XorSelf(x);
      XorComm(0, z);
      XorZero(z);
    }
  }

  class SpanningTreeStructure {
    const numNodes: nat
    const numEdges: nat
    const numNodesOriginalGraph: nat
    const numEdgesOriginalGraph: nat
    /** The normalised network the structure was built from. */
    ghost const net: NormalizedNetwork
    /** The normalised edges followed by the artificial ones. */
    ghost const edges: seq<NormalizedEdge>

    const from: seq<nat>
    const to: seq<nat>
    const upper: seq<int>
    const cost: seq<int>
    const isReversed: seq<bool>
    /** Sized twice the edge count, as in `spanning_tree_structure.rs`; only the first
        `numEdges` entries are written. */
    const lowerInOriginalGraph: seq<int>

    var excesses: seq<int>
    var parent: seq<nat>
    var parentEdgeId: seq<nat>
    var potential: seq<int>
    var flow: seq<int>
    var state: seq<EdgeState>
    var root: nat
    var nextNodeDft: seq<nat>
    var prevNodeDft: seq<nat>
    var lastDescendentDft: seq<nat>
    var numSuccessors: seq<nat>

    /** The edge attributes are those of `edges`, which are the normalised
        edges of `net` and then artificial ones, every edge joining two
        nodes. */
    ghost predicate Laid()
    {
      numEdges == |edges| && numEdgesOriginalGraph == |net.base| <= numEdges &&
      numNodesOriginalGraph == net.numNodes <= numNodes < Invalid &&
      edges[..numEdgesOriginalGraph] == IterEdges(net) &&
      |from| == |to| == |upper| == |cost| == |isReversed| == numEdges && |lowerInOriginalGraph| == 2 * numEdges &&
      (forall e :: 0 <= e < numEdges ==>
         from[e] == edges[e].u < numNodes && to[e] == edges[e].v < numNodes &&
         upper[e] == edges[e].upper >= 0 && cost[e] == edges[e].cost >= 0 &&
         isReversed[e] == edges[e].isReversed && lowerInOriginalGraph[e] == edges[e].lower)
    }

    ghost predicate Valid()
      reads this
    {
      Laid() &&
      |excesses| == |parent| == |parentEdgeId| == |potential| == numNodes &&
      |nextNodeDft| == |prevNodeDft| == |lastDescendentDft| == |numSuccessors| == numNodes &&
      |flow| == |state| == numEdges
    }

    /** `new` and `build`: the normalised edges of `net` and then
        `artificialEdges`, every one starting at its lower bound with its
        initial flow (0 without `initialFlows`); each node's excess is its
        normalised supply (0 for an artificial node) plus its fix; no node
        has a parent or a thread yet, and every potential is 0. `build`
        asserts that no edge has a negative capacity or cost, and indexes the
        initial flows and fixes by edge and by node. */
    constructor (net: NormalizedNetwork, numArtificialNodes: nat, artificialEdges: seq<NormalizedEdge>,
                 initialFlows: Option<seq<int>>, fix: Option<seq<int>>)
      requires |net.b| == net.numNodes && EndpointsIn(net.base, net.numNodes)
      requires net.numNodes + numArtificialNodes < Invalid
      requires R.EndsIn(artificialEdges, net.numNodes + numArtificialNodes)
      requires forall j :: 0 <= j < |artificialEdges| ==> artificialEdges[j].upper >= 0 && artificialEdges[j].cost >= 0
      requires forall j :: 0 <= j < |net.base| ==> net.base[j].data.lower <= net.base[j].data.upper
      requires initialFlows.Some? ==> |initialFlows.value| >= |net.base| + |artificialEdges|
      requires fix.Some? ==> |fix.value| >= net.numNodes + numArtificialNodes
      ensures Valid() && this.net == net && edges == IterEdges(net) + artificialEdges
      ensures numNodes == net.numNodes + numArtificialNodes && numEdges == |net.base| + |artificialEdges|
      ensures forall u :: 0 <= u < numNodes ==> excesses[u] == R.Supply(net.b, fix, u)
      ensures forall e :: 0 <= e < numEdges ==> flow[e] == R.InitialFlow(initialFlows, e) && state[e] == Lower
      ensures forall e :: numEdges <= e < 2 * numEdges ==> lowerInOriginalGraph[e] == 0
      ensures parent == parentEdgeId == nextNodeDft == prevNodeDft == lastDescendentDft == seq(numNodes, _ => Invalid)
      ensures potential == seq(numNodes, _ => 0) && numSuccessors == seq(numNodes, _ => 0) && root == Invalid
    {
      var n := net.numNodes + numArtificialNodes;
      var all := IterEdges(net) + artificialEdges;
      var m := |all|;
      IterEdgesNonNegative(net);
      var ex := BuildExcesses(n, net.b, fix);
      var fr, tt, up, co, fl, rv, lo := BuildEdges(all, initialFlows);
      numNodes, numEdges := n, m;
      numNodesOriginalGraph, numEdgesOriginalGraph := net.numNodes, |net.base|;
      this.net, edges := net, all;
      from, to, upper, cost, isReversed, lowerInOriginalGraph := fr, tt, up, co, rv, lo;
      excesses, flow, state := ex, fl, seq(m, _ => Lower);
      parent, parentEdgeId, potential := seq(n, _ => Invalid), seq(n, _ => Invalid), seq(n, _ => 0);
      root := Invalid;
      nextNodeDft, prevNodeDft, lastDescendentDft := seq(n, _ => Invalid), seq(n, _ => Invalid), seq(n, _ => Invalid);
      numSuccessors := seq(n, _ => 0);
      assert all[..|net.base|] == IterEdges(net);
    }

    /** `reduced_cost`: the edge's cost less its tail's potential plus its
        head's. */
    function ReducedCost(e: nat): int
      reads this
      requires Valid() && e < numEdges
    {
      cost[e] - potential[from[e]] + potential[to[e]]
    }

    /** `is_feasible`: the flow lies within `0 .. upper`. */
    predicate IsFeasible(e: nat)
      reads this
      requires Valid() && e < numEdges
    {
      0 <= flow[e] <= upper[e]
    }

    /** `is_lower`: no flow. */
    predicate IsLower(e: nat)
      reads this
      requires Valid() && e < numEdges
    {
      flow[e] == 0
    }

    /** `is_upper`: flow at capacity. */
    predicate IsUpper(e: nat)
      reads this
      requires Valid() && e < numEdges
    {
      flow[e] == upper[e]
    }

    /** `residual_capacity`: what the edge can still take. */
    function ResidualCapacity(e: nat): (r: int)
      reads this
      requires Valid() && e < numEdges
      ensures r >= 0 <==> flow[e] <= upper[e]
      ensures r == 0 <==> IsUpper(e)
    {
      upper[e] - flow[e]
    }

    /** `satisfy_optimality_conditions`: a tree edge has reduced cost 0, and
        an edge of positive capacity at its lower (upper) bound has a
        non-negative (non-positive) one. */
    predicate SatisfyOptimalityConditions()
      reads this
      requires Valid()
    {
      forall e {:trigger state[e]} :: 0 <= e < numEdges ==>
        match state[e]
        case Tree => ReducedCost(e) == 0
        case Lower => upper[e] == 0 || ReducedCost(e) >= 0
        case Upper => upper[e] == 0 || ReducedCost(e) <= 0
    }

    /** `opposite_side`: `u ^ to ^ from`, the other endpoint
        of `e` when `u` is one of them, as its debug assertion
        demands. */
    function OppositeSide(u: nat, e: nat): (r: nat)
      requires Laid() && e < numEdges && (u == from[e] || u == to[e])
      ensures r == if u == from[e] then to[e] else from[e]
      ensures r < numNodes
    {
      XorCancel(u, to[e], from[e]);
      Xor(Xor(u, to[e]), from[e])
    }

    /** `satisfy_constraints`: every edge feasible and every excess 0. */
    method SatisfyConstraints() returns (b: bool)
      requires Valid()
      ensures b <==> (forall e :: 0 <= e < numEdges ==> IsFeasible(e)) &&
                     (forall u :: 0 <= u < numNodes ==> excesses[u] == 0)
    {
      for e := 0 to numEdges
        invariant forall f :: 0 <= f < e ==> IsFeasible(f)
      {
        if !IsFeasible(e) {
          return false;
        }
      }
      b := forall u :: 0 <= u < |excesses| ==> excesses[u] == 0;
    }

    /** The part of `Valid` the tree walks read: the parent arrays. */
    ghost predicate Parents()
      reads this`parent, this`parentEdgeId
    {
      Laid() && |parent| == |parentEdgeId| == numNodes
    }

    /** Net flow out of node `u` over the first `k` edges, flows `f`. */
    ghost function NetOut(f: seq<int>, u: nat, k: nat): int
      requires Laid() && k <= |f| && k <= numEdges
    {
      if k == 0 then 0
      else NetOut(f, u, k - 1) + (if from[k - 1] == u then f[k - 1] else 0) - (if to[k - 1] == u then f[k - 1] else 0)
    }

    /** Adding `d` to the flow of edge `e` adds `d` to the net outflow of
        its tail and takes it from its head's. */
    lemma {:induction false} NetOutUpdate(f: seq<int>, e: nat, d: int, u: nat, k: nat)
      requires Laid() && k <= |f| <= numEdges && e < |f|
      ensures NetOut(f[e := f[e] + d], u, k) ==
              NetOut(f, u, k) + if e < k then (if from[e] == u then d else 0) - (if to[e] == u then d else 0) else 0
      decreases k
    {
      if k > 0 {
        NetOutUpdate(f, e, d, u, k - 1);
      }
    }

    /** `path` climbs the tree from `sink` through parents to `source`, which
        it meets only at its end, every step over a parent edge. */
    ghost predicate Chain(path: seq<nat>, sink: nat, source: nat)
      reads this`parent, this`parentEdgeId
      requires Parents()
    {
      |path| > 0 && path[0] == sink && path[|path| - 1] == source &&
      (forall i :: 0 <= i < |path| ==> path[i] < numNodes) &&
      (forall i :: 0 <= i < |path| - 1 ==>
         path[i] != source && parent[path[i]] == path[i + 1] && parentEdgeId[path[i]] < numEdges)
    }

    /** Every parent edge on `path` joins its node to the next one, in one
        direction or the other. */
    ghost predicate TreeEdges(path: seq<nat>)
      reads this`parent, this`parentEdgeId
      requires Parents()
    {
      forall i :: 0 <= i < |path| - 1 ==>
        path[i] < numNodes && parentEdgeId[path[i]] < numEdges &&
        var e := parentEdgeId[path[i]];
        (from[e] == path[i + 1] && to[e] == path[i]) || (from[e] == path[i] && to[e] == path[i + 1])
    }

    lemma TreeEdgesTail(path: seq<nat>)
      requires Parents() && |path| > 1 && TreeEdges(path)
      requires forall i :: 0 <= i < |path| - 1 ==> parent[path[i]] == path[i + 1]
      ensures TreeEdges(path[1..])
      ensures forall i :: 0 <= i < |path[1..]| - 1 ==> parent[path[1..][i]] == path[1..][i + 1]
    {
      forall i | 0 <= i < |path| - 1
        ensures path[1..][i] == path[i + 1]
      {
      }
    }

    /** The flow change of one step at `c`: `delta` more on its parent edge
        when that edge points down to `c`, `delta` less when it points up. */
    ghost function Step(f: seq<int>, c: nat, delta: int): seq<int>
      reads this`parent, this`parentEdgeId
      requires Parents() && |f| == numEdges && c < numNodes && parentEdgeId[c] < numEdges
    {
      var e := parentEdgeId[c];
      f[e := f[e] + if from[e] == parent[c] then delta else -delta]
    }

    /** The flows after `update_flow_in_path` along `path`, step by step from
        its start. */
    ghost function PathFlow(f: seq<int>, path: seq<nat>, delta: int): (r: seq<int>)
      reads this`parent, this`parentEdgeId
      requires Parents() && |f| == numEdges
      requires forall i :: 0 <= i < |path| - 1 ==> path[i] < numNodes && parentEdgeId[path[i]] < numEdges
      ensures |r| == numEdges
      decreases |path|
    {
      if |path| <= 1 then f else PathFlow(Step(f, path[0], delta), path[1..], delta)
    }

    /** Pushing `delta` down a tree path from its last node to its first
        moves `delta` of net outflow from the first node to the last and
        changes no other node's: flow is conserved along the path. */
    lemma {:induction false} PathFlowBalance(f: seq<int>, path: seq<nat>, delta: int, u: nat)
      requires Parents() && |f| == numEdges && |path| > 0 && TreeEdges(path)
      requires forall i :: 0 <= i < |path| - 1 ==> parent[path[i]] == path[i + 1]
      ensures NetOut(PathFlow(f, path, delta), u, numEdges) ==
              NetOut(f, u, numEdges) + (if u == path[|path| - 1] then delta else 0) - (if u == path[0] then delta else 0)
      decreases |path|
    {
      if |path| > 1 {
        var c, p := path[0], path[1];
        var e := parentEdgeId[c];
        var d := if from[e] == p then delta else -delta;
        NetOutUpdate(f, e, d, u, numEdges);
        TreeEdgesTail(path);
        PathFlowBalance(Step(f, c, delta), path[1..], delta, u);
      }
    }

    lemma PathFlowUnfold(f: seq<int>, path: seq<nat>, delta: int, i: nat, sink: nat, source: nat)
      requires Parents() && |f| == numEdges && Chain(path, sink, source) && i < |path| && path[i] != source
      ensures i < |path| - 1
      ensures parentEdgeId[path[i]] < numEdges
      ensures var e := parentEdgeId[path[i]];
              PathFlow(f, path[i..], delta) ==
              PathFlow(f[e := f[e] + if from[e] == parent[path[i]] then delta else -delta], path[i + 1..], delta)
    {
      assert path[i..][1..] == path[i + 1..];
    }

    /** The walk of `update_flow_in_path` from `sink` up the parents to
        `source`, pushing `delta` down each parent edge on the way. */
    method PushAlongPath(source: nat, sink: nat, delta: int, ghost path: seq<nat>) returns (f: seq<int>)
      requires Valid() && Chain(path, sink, source)
      ensures f == PathFlow(flow, path, delta)
    {
      var now := sink;
      f := flow;
      ghost var i := 0;
      while now != source
        invariant 0 <= i < |path| && now == path[i] && |f| == numEdges
        invariant PathFlow(f, path[i..], delta) == PathFlow(flow, path, delta)
        decreases |path| - i
      {
        var p, e := parent[now], parentEdgeId[now];
        PathFlowUnfold(f, path, delta, i, sink, source);
        f := f[e := f[e] + if from[e] == p then delta else -delta];
        now, i := p, i + 1;
      }
      assert |path[i..]| == 1;
    }

    /** `update_flow_in_path`: push `delta` along the tree path from
        `source` down to `sink`, then move `delta` of excess from `source`
        to `sink`. The walk follows the parents, so `path` names the chain
        they form; `PathFlowBalance` shows that the pushes move exactly
        `delta` of net outflow the same way. */
    method UpdateFlowInPath(source: nat, sink: nat, delta: int, ghost path: seq<nat>)
      requires Valid() && Chain(path, sink, source)
      modifies this`flow, this`excesses
      ensures Valid() && flow == PathFlow(old(flow), path, delta)
      ensures forall u :: 0 <= u < numNodes ==>
        excesses[u] == old(excesses)[u] + (if u == sink then delta else 0) - (if u == source then delta else 0)
    {
      flow := PushAlongPath(source, sink, delta, path);
      excesses := excesses[source := excesses[source] - delta];
      excesses := excesses[sink := excesses[sink] + delta];
    }

    /** `anc` is `x` and its ancestors in order, ending at the root, whose
        parent is `Invalid`; no node repeats. */
    ghost predicate Ancestors(anc: seq<nat>, x: nat)
      reads this`parent
    {
      |parent| == numNodes && |anc| > 0 && anc[0] == x &&
      (forall i :: 0 <= i < |anc| ==> anc[i] < numNodes) &&
      (forall i :: 0 <= i < |anc| - 1 ==> parent[anc[i]] == anc[i + 1]) &&
      parent[anc[|anc| - 1]] == Invalid &&
      (forall i, j :: 0 <= i < j < |anc| ==> anc[i] != anc[j])
    }

    /** The climb that ends `attach_tree` and `detach_tree`: from `x` up to
        the root, each subtree size grows by `size` (or shrinks by it), and
        a last descendant equal to `last` becomes `newLast`. */
    method Climb(x: nat, ghost anc: seq<nat>, size: nat, grow: bool, last: nat, newLast: nat)
      returns (succ: seq<nat>, lastDesc: seq<nat>)
      requires Valid() && Ancestors(anc, x)
      requires !grow ==> forall u :: u in anc ==> numSuccessors[u] >= size
      ensures |succ| == |lastDesc| == numNodes
      ensures forall u :: 0 <= u < numNodes ==>
        succ[u] == if u !in anc then numSuccessors[u] else if grow then numSuccessors[u] + size else numSuccessors[u] - size
      ensures forall u :: 0 <= u < numNodes ==>
        lastDesc[u] == if u in anc && lastDescendentDft[u] == last then newLast else lastDescendentDft[u]
    {
      succ, lastDesc := numSuccessors, lastDescendentDft;
      var now := x;
      ghost var i := 0;
      while now != Invalid
        invariant 0 <= i <= |anc| && |succ| == |lastDesc| == numNodes
        invariant now == if i < |anc| then anc[i] else Invalid
        invariant forall u :: 0 <= u < numNodes ==>
          succ[u] == if u !in anc[..i] then numSuccessors[u] else if grow then numSuccessors[u] + size else numSuccessors[u] - size
        invariant forall u :: 0 <= u < numNodes ==>
          lastDesc[u] == if u in anc[..i] && lastDescendentDft[u] == last then newLast else lastDescendentDft[u]
        decreases |anc| - i
      {
        assert now !in anc[..i];
        assert anc[..i + 1] == anc[..i] + [now];
        if grow {
          succ := succ[now := succ[now] + size];
        } else {
          succ := succ[now := succ[now] - size];
        }
        if lastDesc[now] == last {
          lastDesc := lastDesc[now := newLast];
        }
        now, i := parent[now], i + 1;
      }
      assert anc[..i] == anc;
    }

    /** `attach_tree`: `entering` becomes a tree edge and hangs the subtree
        rooted at `q` below `p`; the subtree's thread is spliced in after
        `p`'s last descendant, and every ancestor of `p` (`anc`, from `p` up)
        gains the subtree's size, the ones whose last descendant was `p`'s
        taking the subtree's last one. The thread entries the splice indexes
        are nodes. */
    method AttachTree(root: nat, p: nat, q: nat, entering: nat, ghost anc: seq<nat>)
      requires Valid() && p < numNodes && q < numNodes && entering < numEdges
      requires Ancestors(anc, p) && q !in anc
      requires lastDescendentDft[p] < numNodes && lastDescendentDft[q] < numNodes
      requires nextNodeDft[lastDescendentDft[p]] < numNodes
      modifies this`state, this`parent, this`parentEdgeId, this`nextNodeDft, this`prevNodeDft,
               this`numSuccessors, this`lastDescendentDft
      ensures Valid()
      ensures state == old(state)[entering := Tree]
      ensures parent == old(parent)[q := p] && parentEdgeId == old(parentEdgeId)[q := entering]
      ensures var lastP, lastQ := old(lastDescendentDft[p]), old(lastDescendentDft[q]);
              var nextLastP := old(nextNodeDft[lastP]);
              nextNodeDft == old(nextNodeDft)[lastP := q][lastQ := nextLastP] &&
              prevNodeDft == old(prevNodeDft)[q := lastP][nextLastP := lastQ] &&
              forall u :: 0 <= u < numNodes ==>
                numSuccessors[u] == old(numSuccessors[u]) + (if u in anc then old(numSuccessors[q]) else 0) &&
                lastDescendentDft[u] == if u in anc && old(lastDescendentDft[u]) == lastP then lastQ else old(lastDescendentDft[u])
    {
      var lastP := lastDescendentDft[p];
      var nextLastP := nextNodeDft[lastP];
      var lastQ := lastDescendentDft[q];
      var succ, lastDesc := Climb(p, anc, numSuccessors[q], true, lastP, lastQ);
      state, parent, parentEdgeId := state[entering := Tree], parent[q := p], parentEdgeId[q := entering];
      nextNodeDft, prevNodeDft := nextNodeDft[lastP := q][lastQ := nextLastP], prevNodeDft[q := lastP][nextLastP := lastQ];
      numSuccessors, lastDescendentDft := succ, lastDesc;
    }

    /** The state `detach_tree` leaves: `leaving` out of the tree, at its
        lower bound when it carried no flow and at its upper one otherwise;
        `t` without a parent; the subtree's thread cut out into a ring of its
        own; every node of `anc` short of the subtree's size, the ones whose
        last descendant was the subtree's taking the node the thread reached
        the subtree from. */
    twostate predicate Detached(t: nat, leaving: nat, anc: seq<nat>)
      reads this
      requires old(Valid()) && t < numNodes && leaving < numEdges
      requires old(prevNodeDft[t]) < numNodes && old(lastDescendentDft[t]) < numNodes
      requires old(nextNodeDft[lastDescendentDft[t]]) < numNodes
    {
      var prevT, lastT := old(prevNodeDft[t]), old(lastDescendentDft[t]);
      var nextLastT := old(nextNodeDft[lastT]);
      state == old(state)[leaving := if old(IsLower(leaving)) then Lower else Upper] &&
      parent == old(parent)[t := Invalid] && parentEdgeId == old(parentEdgeId)[t := Invalid] &&
      nextNodeDft == old(nextNodeDft)[prevT := nextLastT][lastT := t] &&
      prevNodeDft == old(prevNodeDft)[nextLastT := prevT][t := lastT] &&
      |numSuccessors| == |lastDescendentDft| == numNodes &&
      forall u :: 0 <= u < numNodes ==>
        numSuccessors[u] + (if u in anc then old(numSuccessors[t]) else 0) == old(numSuccessors[u]) &&
        lastDescendentDft[u] == if u in anc && old(lastDescendentDft[u]) == lastT then prevT else old(lastDescendentDft[u])
    }

    /** `detach_tree`: cut the subtree rooted at `t` off along `leaving`,
        whose other end is `anc[0]`; `anc` lists it and its ancestors.
        Sizes are unsigned, so no ancestor may have fewer successors than
        the subtree; the thread entries the cut indexes are nodes. */
    method DetachTree(root: nat, t: nat, leaving: nat, ghost anc: seq<nat>)
      requires Valid() && t < numNodes && leaving < numEdges && (t == from[leaving] || t == to[leaving])
      requires Ancestors(anc, OppositeSide(t, leaving)) && t !in anc
      requires forall u :: u in anc ==> numSuccessors[u] >= numSuccessors[t]
      requires prevNodeDft[t] < numNodes && lastDescendentDft[t] < numNodes
      requires nextNodeDft[lastDescendentDft[t]] < numNodes
      modifies this`state, this`parent, this`parentEdgeId, this`nextNodeDft, this`prevNodeDft,
               this`numSuccessors, this`lastDescendentDft
      ensures Valid() && Detached(t, leaving, anc)
    {
      DetachBelow(t, leaving, OppositeSide(t, leaving), anc);
    }

    /** `detach_tree` once the other end `x` of `leaving` is known. */
    method DetachBelow(t: nat, leaving: nat, x: nat, ghost anc: seq<nat>)
      requires Valid() && t < numNodes && leaving < numEdges && Ancestors(anc, x) && t !in anc
      requires forall u :: u in anc ==> numSuccessors[u] >= numSuccessors[t]
      requires prevNodeDft[t] < numNodes && lastDescendentDft[t] < numNodes
      requires nextNodeDft[lastDescendentDft[t]] < numNodes
      modifies this`state, this`parent, this`parentEdgeId, this`nextNodeDft, this`prevNodeDft,
               this`numSuccessors, this`lastDescendentDft
      ensures Valid() && Detached(t, leaving, anc)
    {
      var prevT := prevNodeDft[t];
      var lastT := lastDescendentDft[t];
      var nextLastT := nextNodeDft[lastT];
      var succ, lastDesc := Climb(x, anc, numSuccessors[t], false, lastT, prevT);
      state := state[leaving := if IsLower(leaving) then Lower else Upper];
      parent, parentEdgeId := parent[t := Invalid], parentEdgeId[t := Invalid];
      nextNodeDft, prevNodeDft := nextNodeDft[prevT := nextLastT][lastT := t], prevNodeDft[nextLastT := prevT][t := lastT];
      numSuccessors, lastDescendentDft := succ, lastDesc;
    }

    /** The flow of edge `j` in the graph before normalisation. */
    function FlowInOriginalGraph(j: nat): (x: int)
      reads this
      requires Valid() && j < numEdgesOriginalGraph
      ensures x == OriginalFlow(Normalize(net.base[j]), flow[j])
    {
      assert edges[j] == edges[..numEdgesOriginalGraph][j];
      if isReversed[j] then upper[j] + lowerInOriginalGraph[j] - flow[j] else flow[j] + lowerInOriginalGraph[j]
    }

    /** The flows of all base edges in the graph before normalisation. */
    ghost function OriginalFlows(): (x: seq<int>)
      reads this
      requires Valid()
      ensures |x| == numEdgesOriginalGraph
      ensures forall j :: 0 <= j < numEdgesOriginalGraph ==> x[j] == OriginalFlow(Normalize(net.base[j]), flow[j])
    {
      seq(numEdgesOriginalGraph, j requires 0 <= j < numEdgesOriginalGraph && Valid() reads this => FlowInOriginalGraph(j))
    }

    /** A base edge is within its original bounds exactly when its
        normalised edge is feasible. */
    lemma FeasibleInOriginalGraph(j: nat)
      requires Valid() && j < numEdgesOriginalGraph
      ensures IsFeasible(j) <==> net.base[j].data.lower <= OriginalFlows()[j] <= net.base[j].data.upper
    {
      assert edges[j] == edges[..numEdgesOriginalGraph][j];
      OriginalFlowWithin(net.base[j], flow[j]);
    }

    /** `make_minimum_cost_flow_in_original_graph`: the base flows, edge by
        edge. */
    method MakeMinimumCostFlowInOriginalGraph() returns (flows: seq<int>)
      requires Valid()
      ensures flows == OriginalFlows()
    {
      flows := [];
      for j := 0 to numEdgesOriginalGraph
        invariant flows == OriginalFlows()[..j]
      {
        var f := flow[j];
        var originalFlow := if isReversed[j] then upper[j] + lowerInOriginalGraph[j] - f else f + lowerInOriginalGraph[j];
        flows := flows + [originalFlow];
      }
    }

    /** `calculate_objective_value_in_original_graph`: the base flows priced
        at the base costs; a reversed edge's cost is its normalised one
        negated back. */
    method CalculateObjectiveValueInOriginalGraph() returns (value: int)
      requires Valid()
      ensures value == R.ObjectiveOf(net.base, OriginalFlows())
    {
      ghost var x := OriginalFlows();
      value := 0;
      for j := 0 to numEdgesOriginalGraph
        invariant value == R.ObjectiveOf(net.base[..j], x[..j])
      {
        var f := flow[j];
        assert edges[j] == edges[..numEdgesOriginalGraph][j];
        NormalizeRoundTrip(net.base[j]);
        R.ObjectiveStep(net.base, x, j);
        if isReversed[j] {
          var originalFlow := upper[j] + lowerInOriginalGraph[j] - f;
          value := value + originalFlow * -cost[j];
        } else {
          var originalFlow := f + lowerInOriginalGraph[j];
          value := value + originalFlow * cost[j];
        }
      }
      assert net.base[..numEdgesOriginalGraph] == net.base && x[..numEdgesOriginalGraph] == x;
    }
  }
}
