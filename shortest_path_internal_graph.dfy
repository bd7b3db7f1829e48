/** The compressed adjacency graph the shortest-path solvers read: the arcs
    leaving node `u` occupy the slots `start[u] .. start[u + 1]`, slot `a`
    holding the arc's head `to[a]` and weight `weight[a]`. Edge `i` of the
    input (`u -> v`) lands in node `u`'s range, the edges of one node in
    input order: the layout of `Csr` with the edges' tails as keys.

    The walks over this graph, and what a "relaxed" distance table says
    about them, are defined here too: they are what both solvers promise. */
module ShortestPathInternalGraph {
  import opened Graph
  import opened Csr
  import Sums

  /** `INVALID_NODE_ID` (`usize::MAX`), the placeholder the heads start from. */
  const Invalid: nat := 0xffff_ffff_ffff_ffff

  /** `W::max_value()`, the distance of a node not reached, for 64-bit
      weights. */
  const Max: int := 0x7fff_ffff_ffff_ffff

  /** The shortest-path solver status values (`NotSolved` is the default). */
  datatype Status = NotSolved | BadInput | Optimal | NegativeCycle

  /** The edges' tails, the keys of the layout. */
  function Tails(edges: seq<Edge<int>>): (k: seq<nat>)
    ensures |k| == |edges| && forall i :: 0 <= i < |edges| ==> k[i] == edges[i].u
  {
    seq(|edges|, i requires 0 <= i < |edges| => edges[i].u)
  }

  /** The slot edge `i` takes. */
  function SlotOf(edges: seq<Edge<int>>, i: nat): nat
    requires i < |edges|
  {
    Slot(Tails(edges), i)
  }

  /** The number of edges leaving `x`. */
  function OutDegree(edges: seq<Edge<int>>, x: nat): nat
  {
    Count(Tails(edges), x)
  }

  /** The edges with weights from `weightFn`, as `new_graph_with` reads them:
      `weightFn(EdgeId(i), edge)` for edge `i`. */
  function Weighted<E>(graph: seq<Edge<E>>, weightFn: (nat, Edge<E>) -> int): (edges: seq<Edge<int>>)
    ensures |edges| == |graph|
    ensures forall i :: 0 <= i < |graph| ==>
              edges[i] == Edge(graph[i].u, graph[i].v, weightFn(i, graph[i]))
  {
    seq(|graph|, i requires 0 <= i < |graph| => Edge(graph[i].u, graph[i].v, weightFn(i, graph[i])))
  }

  /** `start[x]` is where node `x`'s range begins, for `x` up to `n`. */
  ghost predicate Offsets(n: nat, edges: seq<Edge<int>>, start: seq<nat>)
  {
    |start| == n + 1 && forall x {:trigger start[x]} :: 0 <= x <= n ==> start[x] == Start(Tails(edges), x)
  }

  /** Edge `i` sits in its slot: head, weight, and `eid` naming it back. */
  ghost predicate Placed(edges: seq<Edge<int>>, to: seq<nat>, weight: seq<int>, eid: seq<nat>, i: nat)
    requires i < |edges|
  {
    var a := SlotOf(edges, i);
    a < |to| && a < |weight| && a < |eid| && to[a] == edges[i].v && weight[a] == edges[i].data && eid[a] == i
  }

  /** The whole layout build produces; `eid` (not kept by `internal_graph.rs`) names
      the edge in each slot. */
  ghost predicate Layout(n: nat, edges: seq<Edge<int>>, start: seq<nat>, to: seq<nat>, weight: seq<int>, eid: seq<nat>)
  {
    Offsets(n, edges, start) && |to| == |weight| == |eid| == |edges| &&
    (forall i :: 0 <= i < |edges| ==> Placed(edges, to, weight, eid, i)) &&
    (forall a :: 0 <= a < |edges| ==> eid[a] < |edges| && SlotOf(edges, eid[a]) == a)
  }

  /** Every slot holds an arc between two nodes. */
  ghost predicate Heads(n: nat, edges: seq<Edge<int>>, to: seq<nat>, eid: seq<nat>)
    requires |to| == |eid| == |edges| && forall a :: 0 <= a < |edges| ==> eid[a] < |edges|
  {
    forall a :: 0 <= a < |edges| ==> to[a] < n && edges[eid[a]].u < n
  }

  lemma LayoutHeads(n: nat, edges: seq<Edge<int>>, start: seq<nat>, to: seq<nat>, weight: seq<int>, eid: seq<nat>)
    requires EndpointsIn(edges, n) && Layout(n, edges, start, to, weight, eid)
    ensures Heads(n, edges, to, eid)
  {
    forall a | 0 <= a < |edges|
      ensures to[a] < n && edges[eid[a]].u < n
    {
      assert Placed(edges, to, weight, eid, eid[a]);
    }
  }

  lemma TailsIn(edges: seq<Edge<int>>, n: nat)
    requires EndpointsIn(edges, n)
    ensures forall p :: 0 <= p < |Tails(edges)| ==> Tails(edges)[p] < n
  {
  }

  /** Every edge's slot is below the edge count. */
  lemma SlotBelow(edges: seq<Edge<int>>, n: nat, i: nat)
    requires EndpointsIn(edges, n) && i < |edges|
    ensures SlotOf(edges, i) < |edges|
  {
    var k := Tails(edges);
    SlotInGroup(k, i);
    StartMonotone(k, k[i] + 1, n);
    TailsIn(edges, n);
    StartAll(k, n);
  }

  /** Two edges of one tail keep their input order. */
  lemma SlotOrder(keys: seq<nat>, p: nat, q: nat)
    requires p < q < |keys| && keys[p] == keys[q]
    ensures Slot(keys, p) < Slot(keys, q)
  {
    CountPrefix(keys, p, keys[p]);
    CountPrefixBound(keys[..q], p + 1, keys[p]);
    assert keys[..q][..p + 1] == keys[..p + 1];
  }

  /** `build`, first loop: count each node's out-degree. */
  method CountDegrees(n: nat, edges: seq<Edge<int>>) returns (degree: seq<nat>)
    requires EndpointsIn(edges, n)
    ensures |degree| == n && forall x :: 0 <= x < n ==> degree[x] == OutDegree(edges, x)
  {
    ghost var k := Tails(edges);
    degree := seq(n, _ => 0);
    for i := 0 to |edges|
      invariant |degree| == n
      invariant forall x :: 0 <= x < n ==> degree[x] == Count(k[..i], x)
    {
      var u := edges[i].u;
      var d := degree[u := degree[u] + 1];
      CountStep(k, i, degree, d, n);
      degree := d;
    }
    assert k[..|edges|] == k;
  }

  /** `build`, second loop: `start` is the running sum of the degrees. */
  method Starts(n: nat, ghost edges: seq<Edge<int>>, degree: seq<nat>) returns (start: seq<nat>)
    requires |degree| == n && forall x :: 0 <= x < n ==> degree[x] == OutDegree(edges, x)
    ensures Offsets(n, edges, start)
  {
    ghost var k := Tails(edges);
    start := seq(n + 1, _ => 0);
    for u := 1 to n + 1
      invariant |start| == n + 1
      invariant forall x :: 0 <= x < u ==> start[x] == Start(k, x)
      invariant forall x :: u <= x <= n ==> start[x] == 0
    {
      assert Start(k, u) == Start(k, u - 1) + Count(k, u - 1);
      start := start[u := start[u - 1] + degree[u - 1]];
    }
  }

  /** Writing edge `i` into its slot places it and keeps every earlier edge
      placed, their slots being different. */
  lemma PlaceEdge(n: nat, edges: seq<Edge<int>>, to: seq<nat>, weight: seq<int>, eid: seq<nat>, i: nat, a: nat,
                  to': seq<nat>, weight': seq<int>, eid': seq<nat>)
    requires EndpointsIn(edges, n) && i < |edges| && |to| == |weight| == |eid| == |edges|
    requires forall j :: 0 <= j < i ==> Placed(edges, to, weight, eid, j)
    requires a == SlotOf(edges, i) && a < |edges|
    requires to' == to[a := edges[i].v] && weight' == weight[a := edges[i].data] && eid' == eid[a := i]
    ensures forall j :: 0 <= j <= i ==> Placed(edges, to', weight', eid', j)
  {
    forall j | 0 <= j <= i
      ensures Placed(edges, to', weight', eid', j)
    {
      if j < i {
        SlotInjective(Tails(edges), j, i);
        assert Placed(edges, to, weight, eid, j);
      }
    }
  }

  /** `build`, third loop: each edge goes to the next free slot of its tail. */
  method PlaceEdges(n: nat, edges: seq<Edge<int>>, start: seq<nat>)
    returns (to: seq<nat>, weight: seq<int>, ghost eid: seq<nat>)
    requires EndpointsIn(edges, n) && Offsets(n, edges, start)
    ensures |to| == |weight| == |eid| == |edges|
    ensures forall i :: 0 <= i < |edges| ==> Placed(edges, to, weight, eid, i)
  {
    var m := |edges|;
    ghost var k := Tails(edges);
    to, weight, eid := seq(m, _ => Invalid), seq(m, _ => 0), seq(m, _ => 0);
    var counter := seq(n, _ => 0);
    for i := 0 to m
      invariant |to| == |weight| == |eid| == m && |counter| == n
      invariant forall x :: 0 <= x < n ==> counter[x] == Count(k[..i], x)
      invariant forall j :: 0 <= j < i ==> Placed(edges, to, weight, eid, j)
    {
      var u := edges[i].u;
      var a := start[u] + counter[u];
      SlotBelow(edges, n, i);
      PlaceEdge(n, edges, to, weight, eid, i, a, to[a := edges[i].v], weight[a := edges[i].data], eid[a := i]);
      to, weight, eid := to[a := edges[i].v], weight[a := edges[i].data], eid[a := i];
      var c := counter[u := counter[u] + 1];
      CountStep(k, i, counter, c, n);
      counter := c;
    }
  }

  /** Every slot holds the edge `eid` names. */
  lemma PlacedOnto(n: nat, edges: seq<Edge<int>>, start: seq<nat>, to: seq<nat>, weight: seq<int>, eid: seq<nat>)
    requires EndpointsIn(edges, n) && Offsets(n, edges, start) && |to| == |weight| == |eid| == |edges|
    requires forall i :: 0 <= i < |edges| ==> Placed(edges, to, weight, eid, i)
    ensures Layout(n, edges, start, to, weight, eid)
  {
    var k := Tails(edges);
    TailsIn(edges, n);
    forall a | 0 <= a < |edges|
      ensures eid[a] < |edges| && SlotOf(edges, eid[a]) == a
    {
      var p := SlotOnto(k, n, a);
      assert Placed(edges, to, weight, eid, p);
    }
  }

  /** `build` / `build_graph_with`: the three loops. */
  method Build(n: nat, edges: seq<Edge<int>>) returns (start: seq<nat>, to: seq<nat>, weight: seq<int>, ghost eid: seq<nat>)
    requires EndpointsIn(edges, n)
    ensures Layout(n, edges, start, to, weight, eid) && Heads(n, edges, to, eid)
  {
    var degree := CountDegrees(n, edges);
    start := Starts(n, edges, degree);
    to, weight, eid := PlaceEdges(n, edges, start);
    PlacedOnto(n, edges, start, to, weight, eid);
    LayoutHeads(n, edges, start, to, weight, eid);
  }

  /** The first `i` elements and the next `j - i` make the first `j`. */
  lemma SliceJoin(p: seq<nat>, i: nat, j: nat)
    requires i <= j <= |p|
    ensures p[..i] + p[i..j] == p[..j]
  {
  }

  /** The total weight of a sequence of slots, those out of range weighing
      nothing. */
  ghost function PathWeight(weight: seq<int>, p: seq<nat>): int
  {
    if |p| == 0 then 0
    else PathWeight(weight, p[..|p| - 1]) + (if p[|p| - 1] < |weight| then weight[p[|p| - 1]] else 0)
  }

  /** The weight of a concatenation is the sum of the weights. */
  lemma {:induction false} PathWeightAppend(weight: seq<int>, p: seq<nat>, q: seq<nat>)
    ensures PathWeight(weight, p + q) == PathWeight(weight, p) + PathWeight(weight, q)
    decreases |q|
  {
    if |q| == 0 {
      assert p + q == p;
    } else {
      var r := q[..|q| - 1];
      PathWeightAppend(weight, p, r);
      assert (p + q)[..|p + q| - 1] == p + r;
    }
  }

  /** Every prefix of `p`, from the empty one to `p` itself, weighs less than
      `Max`. */
  ghost predicate BelowMax(weight: seq<int>, p: seq<nat>)
  {
    forall i :: 0 <= i <= |p| ==> PathWeight(weight, p[..i]) < Max
  }

  /** A prefix of a sequence below `Max` is below `Max`. */
  lemma BelowMaxPrefix(weight: seq<int>, p: seq<nat>, j: nat)
    requires BelowMax(weight, p) && j <= |p|
    ensures BelowMax(weight, p[..j]) && PathWeight(weight, p[..j]) < Max
  {
    forall i | 0 <= i <= j
      ensures PathWeight(weight, p[..j][..i]) < Max
    {
      assert p[..j][..i] == p[..i];
    }
  }

  /** Extending by one slot keeps a sequence below `Max` while its weight
      stays below `Max`. */
  lemma BelowMaxExtend(weight: seq<int>, p: seq<nat>, a: nat)
    requires BelowMax(weight, p) && PathWeight(weight, p + [a]) < Max
    ensures BelowMax(weight, p + [a])
  {
    forall i | 0 <= i <= |p| + 1
      ensures PathWeight(weight, (p + [a])[..i]) < Max
    {
      if i <= |p| {
        assert (p + [a])[..i] == p[..i];
      } else {
        assert (p + [a])[..i] == p + [a];
      }
    }
  }

  /** Removing a stretch `p[i..j]` of non-negative weight takes no weight
      from the prefix of `p` that ends `j - i` slots later. */
  lemma CutPrefix(weight: seq<int>, p: seq<nat>, i: nat, j: nat, k: nat)
    requires i < j <= |p| && PathWeight(weight, p[i..j]) >= 0 && i < k <= |p| - (j - i)
    ensures PathWeight(weight, (p[..i] + p[j..])[..k]) <= PathWeight(weight, p[..j + (k - i)])
  {
    var m := j + (k - i);
    assert (p[..i] + p[j..])[..k] == p[..i] + p[j..m];
    assert p[..m] == (p[..i] + p[i..j]) + p[j..m];
    PathWeightAppend(weight, p[..i], p[j..m]);
    PathWeightAppend(weight, p[..i] + p[i..j], p[j..m]);
    PathWeightAppend(weight, p[..i], p[i..j]);
  }

  /** Removing a stretch of non-negative weight does not add weight. */
  lemma CutWeight(weight: seq<int>, p: seq<nat>, i: nat, j: nat)
    requires i < j <= |p| && PathWeight(weight, p[i..j]) >= 0
    ensures PathWeight(weight, p[..i] + p[j..]) <= PathWeight(weight, p)
  {
    var a, b, c := p[..i], p[i..j], p[j..];
    assert p == (a + b) + c;
    PathWeightAppend(weight, a, c);
    PathWeightAppend(weight, a, b);
    PathWeightAppend(weight, a + b, c);
  }

  /** Removing a stretch of non-negative weight from a sequence below `Max`
      leaves it below `Max`, and no heavier. */
  lemma CutBelowMax(weight: seq<int>, p: seq<nat>, i: nat, j: nat)
    requires BelowMax(weight, p) && i < j <= |p| && PathWeight(weight, p[i..j]) >= 0
    ensures BelowMax(weight, p[..i] + p[j..]) && PathWeight(weight, p[..i] + p[j..]) <= PathWeight(weight, p)
  {
    var q := p[..i] + p[j..];
    forall k | 0 <= k <= |q|
      ensures PathWeight(weight, q[..k]) < Max
    {
      if k <= i {
        assert q[..k] == p[..k];
      } else {
        CutPrefix(weight, p, i, j, k);
      }
    }
    CutWeight(weight, p, i, j);
  }

  class InternalGraph {
    const numNodes: nat
    const numEdges: nat
    const start: seq<nat>
    const to: seq<nat>
    const weight: seq<int>
    /** The edges the graph was built from, weights as data. */
    ghost const edges: seq<Edge<int>>
    /** The edge each slot holds. */
    ghost const eid: seq<nat>

    ghost predicate Valid()
    {
      EndpointsIn(edges, numNodes) && numEdges == |edges| && Layout(numNodes, edges, start, to, weight, eid) &&
      Heads(numNodes, edges, to, eid)
    }

    /** `new`: the graph of `graph`'s edges, each weighted by its data. */
    constructor (n: nat, graph: seq<Edge<int>>)
      requires EndpointsIn(graph, n)
      ensures Valid() && numNodes == n && edges == graph
    {
      var s, t, w;
      ghost var e;
      s, t, w, e := Build(n, graph);
      numNodes, numEdges, start, to, weight := n, |graph|, s, t, w;
      edges, eid := graph, e;
    }

    /** `new_graph_with`: edge `i` weighted by `weightFn(i, edge)`. */
    constructor NewGraphWith<E>(n: nat, graph: seq<Edge<E>>, weightFn: (nat, Edge<E>) -> int)
      requires EndpointsIn(graph, n)
      ensures Valid() && numNodes == n && edges == Weighted(graph, weightFn)
    {
      var weighted := Weighted(graph, weightFn);
      var s, t, w;
      ghost var e;
      s, t, w, e := Build(n, weighted);
      numNodes, numEdges, start, to, weight := n, |graph|, s, t, w;
      edges, eid := weighted, e;
    }

    /** The tail of the arc in slot `a`. */
    ghost function Tail(a: nat): nat
      requires Valid() && a < numEdges
    {
      edges[eid[a]].u
    }

    /** The starts are the running sums of the out-degrees, from 0 to the
        edge count. */
    lemma StartSums()
      requires Valid()
      ensures start[0] == 0 && start[numNodes] == numEdges
      ensures forall x :: 0 <= x < numNodes ==> start[x + 1] == start[x] + OutDegree(edges, x)
    {
      var k := Tails(edges);
      TailsIn(edges, numNodes);
      StartAll(k, numNodes);
      forall x | 0 <= x < numNodes
        ensures start[x + 1] == start[x] + OutDegree(edges, x)
      {
        assert start[x + 1] == Start(k, x + 1);
      }
    }

    /** Edge `i` lands inside its tail's range, with its head and weight,
        and the edges of one tail keep their input order. */
    lemma EdgeSlot(i: nat)
      requires Valid() && i < numEdges
      ensures var a := SlotOf(edges, i);
              a < numEdges && start[edges[i].u] <= a < start[edges[i].u + 1] && to[a] == edges[i].v && weight[a] == edges[i].data
      ensures forall j :: i < j < numEdges && edges[j].u == edges[i].u ==> SlotOf(edges, i) < SlotOf(edges, j)
    {
      var k := Tails(edges);
      assert Placed(edges, to, weight, eid, i);
      SlotInGroup(k, i);
      assert edges[i].u + 1 <= numNodes;
      forall j | i < j < numEdges && edges[j].u == edges[i].u
        ensures SlotOf(edges, i) < SlotOf(edges, j)
      {
        SlotOrder(k, i, j);
      }
    }

    /** Slot `a` holds an edge out of `x` exactly when it lies in `x`'s
        range. */
    lemma RangeTail(x: nat, a: nat)
      requires Valid() && x < numNodes && a < numEdges
      ensures start[x] <= a < start[x + 1] <==> Tail(a) == x
    {
      var k := Tails(edges);
      var i := eid[a];
      assert Placed(edges, to, weight, eid, i);
      SlotInGroup(k, i);
      var y := edges[i].u;
      if y < x {
        StartMonotone(k, y + 1, x);
      } else if x < y {
        StartMonotone(k, x + 1, y);
      }
    }

    /** The arc in slot `a` goes from its tail to its head, both nodes. */
    lemma ArcEnds(a: nat)
      requires Valid() && a < numEdges
      ensures Tail(a) < numNodes && to[a] < numNodes && to[a] == edges[eid[a]].v && weight[a] == edges[eid[a]].data
    {
      assert Placed(edges, to, weight, eid, eid[a]);
    }

    /** `neighbors(u)`: the slot range `start[u] .. start[u + 1]`, which
        holds exactly the arcs out of `u`, as many as its out-degree. */
    function Neighbors(u: nat): (r: (nat, nat))
      requires Valid() && u < numNodes
      ensures r.0 <= r.1 <= numEdges && r.1 - r.0 == OutDegree(edges, u)
      ensures forall a :: r.0 <= a < r.1 ==> Tail(a) == u
      ensures forall a :: 0 <= a < numEdges && Tail(a) == u ==> r.0 <= a < r.1
    {
      StartSums();
      StartsUpTo(u + 1);
      assert forall a :: start[u] <= a < start[u + 1] ==> Tail(a) == u by {
        forall a | start[u] <= a < start[u + 1] {
          RangeTail(u, a);
        }
      }
      assert forall a :: 0 <= a < numEdges && Tail(a) == u ==> start[u] <= a < start[u + 1] by {
        forall a | 0 <= a < numEdges && Tail(a) == u {
          RangeTail(u, a);
        }
      }
      (start[u], start[u + 1])
    }

    lemma StartsUpTo(x: nat)
      requires Valid() && x <= numNodes
      ensures start[x] <= start[numNodes]
    {
      StartMonotone(Tails(edges), x, numNodes);
    }

    /** `p`, a sequence of slots, is a walk from `s` to `v`. */
    ghost predicate Walk(s: nat, p: seq<nat>, v: nat)
      requires Valid()
      decreases |p|
    {
      if |p| == 0 then s == v
      else
        var a := p[|p| - 1];
        a < numEdges && to[a] == v && Walk(s, p[..|p| - 1], Tail(a))
    }

    /** The total weight of a walk. */
    ghost function Weight(p: seq<nat>): int
    {
      PathWeight(weight, p)
    }

    /** Every arc of `p` leaves a node of the set `inS`. */
    ghost predicate Inside(p: seq<nat>, inS: seq<bool>)
      requires Valid() && |inS| == numNodes
    {
      forall i :: 0 <= i < |p| ==> p[i] < numEdges && inS[Tail(p[i])]
    }

    /** No arc out of a node of `inS` leads anywhere cheaper than its tail's
        distance plus its weight. */
    ghost predicate Relaxed(d: seq<int>, inS: seq<bool>)
      requires Valid() && |d| == |inS| == numNodes
    {
      forall a :: 0 <= a < numEdges && inS[Tail(a)] ==> d[to[a]] <= d[Tail(a)] + weight[a]
    }

    /** A walk followed by arc `a` out of its end. */
    lemma WalkExtend(s: nat, p: seq<nat>, v: nat, a: nat)
      requires Valid() && Walk(s, p, v) && a < numEdges && Tail(a) == v
      ensures Walk(s, p + [a], to[a]) && Weight(p + [a]) == Weight(p) + weight[a]
    {
      var q := p + [a];
      assert q[..|q| - 1] == p && q[|q| - 1] == a;
    }

    /** A walk stays inside a set that grows. */
    lemma InsideGrow(p: seq<nat>, inS: seq<bool>, inS': seq<bool>)
      requires Valid() && |inS| == |inS'| == numNodes && Inside(p, inS)
      requires forall x :: 0 <= x < numNodes && inS[x] ==> inS'[x]
      ensures Inside(p, inS')
    {
      forall i | 0 <= i < |p|
        ensures inS'[Tail(p[i])]
      {
        ArcEnds(p[i]);
      }
    }

    /** Extending by an arc out of the set keeps a walk inside it. */
    lemma InsideExtend(p: seq<nat>, inS: seq<bool>, a: nat)
      requires Valid() && |inS| == numNodes && Inside(p, inS) && a < numEdges && inS[Tail(a)]
      ensures Inside(p + [a], inS)
    {
      assert forall i :: 0 <= i < |p| ==> (p + [a])[i] == p[i];
    }

    /** With relaxed distances, no walk inside the set from `s` to `v` is
        cheaper than `d[v] - d[s]`. */
    lemma {:induction false} WalkBound(d: seq<int>, inS: seq<bool>, s: nat, p: seq<nat>, v: nat)
      requires Valid() && |d| == |inS| == numNodes && s < numNodes
      requires Relaxed(d, inS) && Walk(s, p, v) && Inside(p, inS)
      ensures v < numNodes && d[v] <= d[s] + Weight(p)
      decreases |p|
    {
      if |p| > 0 {
        var q, a := p[..|p| - 1], p[|p| - 1];
        assert Inside(q, inS) by {
          assert forall i :: 0 <= i < |q| ==> q[i] == p[i];
        }
        assert a < numEdges && inS[Tail(a)];
        ArcEnds(a);
        WalkBound(d, inS, s, q, Tail(a));
      }
    }

    /** With relaxed distances, no closed walk inside the set has negative
        weight. */
    lemma NoNegativeCycle(d: seq<int>, inS: seq<bool>, s: nat, p: seq<nat>)
      requires Valid() && |d| == |inS| == numNodes && s < numNodes
      requires Relaxed(d, inS) && Walk(s, p, s) && Inside(p, inS)
      ensures Weight(p) >= 0
    {
      WalkBound(d, inS, s, p, s);
    }

    /** The node a walk from `s` has reached after its first `i` arcs. */
    ghost function At(s: nat, p: seq<nat>, i: nat): nat
      requires Valid() && i <= |p|
    {
      if i == 0 || numEdges <= p[i - 1] then s else to[p[i - 1]]
    }

    /** A walk splits after its first `i` arcs into two walks meeting at
        `At(s, p, i)`, a node. */
    lemma {:induction false} WalkSplit(s: nat, p: seq<nat>, v: nat, i: nat)
      requires Valid() && s < numNodes && Walk(s, p, v) && i <= |p|
      ensures At(s, p, i) < numNodes && Walk(s, p[..i], At(s, p, i)) && Walk(At(s, p, i), p[i..], v)
      decreases |p|
    {
      if i == |p| {
        assert p[..i] == p;
        if i > 0 {
          ArcEnds(p[i - 1]);
        }
      } else {
        var q, a := p[..|p| - 1], p[|p| - 1];
        WalkSplit(s, q, Tail(a), i);
        assert q[..i] == p[..i];
        assert At(s, q, i) == At(s, p, i);
        WalkExtend(At(s, p, i), q[i..], Tail(a), a);
        assert q[i..] + [a] == p[i..];
      }
    }

    /** Two walks meeting at `x` make one. */
    lemma {:induction false} WalkConcat(s: nat, p: seq<nat>, x: nat, q: seq<nat>, v: nat)
      requires Valid() && Walk(s, p, x) && Walk(x, q, v)
      ensures Walk(s, p + q, v)
      decreases |q|
    {
      if |q| == 0 {
        assert p + q == p;
      } else {
        var r, a := q[..|q| - 1], q[|q| - 1];
        WalkConcat(s, p, x, r, Tail(a));
        WalkExtend(s, p + r, Tail(a), a);
        assert p + r + [a] == p + q;
      }
    }

    /** Every prefix of `p`, from the empty one to `p` itself, weighs less
        than `Max`: the walks along which distances capped at `Max` can
        spread. */
    ghost predicate Bounded(p: seq<nat>)
    {
      BelowMax(weight, p)
    }

    /** A walk with at least as many arcs as there are nodes visits some node
        twice. */
    lemma Repeat(s: nat, p: seq<nat>, v: nat) returns (i: nat, j: nat)
      requires Valid() && s < numNodes && Walk(s, p, v) && |p| >= numNodes
      ensures i < j <= |p| && At(s, p, i) == At(s, p, j)
    {
      var f := seq(|p| + 1, k requires 0 <= k <= |p| => At(s, p, k));
      forall k | 0 <= k < |f|
        ensures f[k] < numNodes
      {
        WalkSplit(s, p, v, k);
      }
      if forall j, k :: 0 <= j < k < |f| ==> f[j] != f[k] {
        Sums.InjectiveBound(f, numNodes);
        assert false;
      }
      i, j :| 0 <= i < j < |f| && f[i] == f[j];
    }

    /** Cutting a closed stretch `p[i..j]` of non-negative weight out of a
        bounded walk leaves a shorter bounded walk with the same ends and no
        more weight. */
    lemma Cut(s: nat, p: seq<nat>, v: nat, i: nat, j: nat) returns (q: seq<nat>)
      requires Valid() && s < numNodes && Walk(s, p, v) && Bounded(p)
      requires i < j <= |p| && At(s, p, i) == At(s, p, j) && Weight(p[i..j]) >= 0
      ensures Walk(s, q, v) && Bounded(q) && |q| < |p| && Weight(q) <= Weight(p)
    {
      q := p[..i] + p[j..];
      WalkSplit(s, p, v, i);
      WalkSplit(s, p, v, j);
      WalkConcat(s, p[..i], At(s, p, i), p[j..], v);
      CutBelowMax(weight, p, i, j);
    }

    /** A closed walk `c` at `x` of negative weight, reached from `s` by the
        walk `p`, with every prefix of `p + c` bounded. */
    ghost predicate NegativeLoop(s: nat, p: seq<nat>, x: nat, c: seq<nat>)
      requires Valid()
    {
      Walk(s, p, x) && Walk(x, c, x) && Bounded(p + c) && Weight(c) < 0
    }

    /** A stretch `p[i..j]` of a bounded walk between two visits of one node
        is a closed walk there, reached by `p[..i]`. */
    lemma Stretch(s: nat, p: seq<nat>, v: nat, i: nat, j: nat)
      requires Valid() && s < numNodes && Walk(s, p, v) && Bounded(p)
      requires i < j <= |p| && At(s, p, i) == At(s, p, j)
      ensures Walk(s, p[..i], At(s, p, i)) && Walk(At(s, p, i), p[i..j], At(s, p, i))
      ensures Bounded(p[..i] + p[i..j])
    {
      WalkSplit(s, p, v, i);
      WalkMiddle(s, p, v, i, j);
      SliceJoin(p, i, j);
      BelowMaxPrefix(weight, p, j);
    }

    /** The stretch `p[i..j]` of a walk is a walk from `At(s, p, i)` to
        `At(s, p, j)`. */
    lemma WalkMiddle(s: nat, p: seq<nat>, v: nat, i: nat, j: nat)
      requires Valid() && s < numNodes && Walk(s, p, v) && i <= j <= |p|
      ensures Walk(At(s, p, i), p[i..j], At(s, p, j))
    {
      var q := p[..j];
      WalkSplit(s, p, v, j);
      WalkSplit(s, q, At(s, p, j), i);
      assert q[i..] == p[i..j];
      AtPrefix(s, p, i, j);
    }

    /** Cutting a walk after `j` arcs leaves its first `i` nodes alone. */
    lemma AtPrefix(s: nat, p: seq<nat>, i: nat, j: nat)
      requires Valid() && i <= j <= |p|
      ensures At(s, p[..j], i) == At(s, p, i)
    {
      if i > 0 {
        assert p[..j][i - 1] == p[i - 1];
      }
    }

    /** Without a negative loop from `s`, every bounded walk from `s` has a
        bounded counterpart with the same ends, fewer arcs than there are
        nodes and no more weight. */
    lemma {:induction false} Shorten(s: nat, p: seq<nat>, v: nat) returns (q: seq<nat>)
      requires Valid() && s < numNodes && Walk(s, p, v) && Bounded(p)
      requires forall p', x, c :: !NegativeLoop(s, p', x, c)
      ensures Walk(s, q, v) && Bounded(q) && |q| < numNodes && Weight(q) <= Weight(p)
      decreases |p|
    {
      if |p| < numNodes {
        q := p;
      } else {
        var i, j := Repeat(s, p, v);
        Stretch(s, p, v, i, j);
        assert !NegativeLoop(s, p[..i], At(s, p, i), p[i..j]);
        var r := Cut(s, p, v, i, j);
        q := Shorten(s, r, v);
      }
    }
  }
}
