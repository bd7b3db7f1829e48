/** Bellman-Ford single-source shortest paths over an `InternalGraph`: up to
    `n` rounds, each relaxing every arc out of every node with a distance,
    stopping at the first round that changes nothing. Distances are
    integers, `Max` meaning "not reached"; `reached` (a `BitVector` in the
    source) is a sequence of booleans. */
module BellmanFord {
  import opened Wrappers
  import opened Graph
  import opened ShortestPathInternalGraph

  /** The nodes with a distance below `Max`. */
  function Finite(d: seq<int>): (f: seq<bool>)
    ensures |f| == |d| && forall v :: 0 <= v < |d| ==> (f[v] <==> d[v] < Max)
  {
    seq(|d|, v requires 0 <= v < |d| => d[v] < Max)
  }

  /** No distance of `d` above its value in `d0`. */
  ghost predicate Below(d: seq<int>, d0: seq<int>)
  {
    |d| == |d0| && forall v :: 0 <= v < |d| ==> d[v] <= d0[v]
  }

  class BellmanFord {
    const ig: InternalGraph
    var reached: seq<bool>
    var distances: seq<int>

    ghost predicate Valid()
      reads this
    {
      ig.Valid() && |reached| == |distances| == ig.numNodes
    }

    /** `new`: the graph built from `graph`'s edges, weights as data; nothing
        reached, every distance `Max`. */
    constructor (n: nat, graph: seq<Edge<int>>)
      requires EndpointsIn(graph, n)
      ensures Valid() && ig.numNodes == n && ig.edges == graph
      ensures reached == seq(n, _ => false) && distances == seq(n, _ => Max)
    {
      ig := new InternalGraph(n, graph);
      reached, distances := seq(n, _ => false), seq(n, _ => Max);
    }

    /** `new_graph_with`: each edge weighted by `weightFn`. */
    constructor NewGraphWith<E>(n: nat, graph: seq<Edge<E>>, weightFn: Edge<E> -> int)
      requires EndpointsIn(graph, n)
      ensures Valid() && ig.numNodes == n && ig.edges == Weighted(graph, (i: nat, e: Edge<E>) => weightFn(e))
      ensures reached == seq(n, _ => false) && distances == seq(n, _ => Max)
    {
      ig := new InternalGraph.NewGraphWith(n, graph, (i: nat, e: Edge<E>) => weightFn(e));
      reached, distances := seq(n, _ => false), seq(n, _ => Max);
    }

    /** Node `v`'s distance is the weight of the walk `wit[v]` from `s`,
        which only leaves nodes with distances and has every prefix below
        `Max`. */
    ghost predicate Witness(s: nat, d: seq<int>, wit: seq<seq<nat>>, v: nat)
      requires ig.Valid() && |d| == |wit| == ig.numNodes && v < ig.numNodes
    {
      ig.Walk(s, wit[v], v) && ig.Weight(wit[v]) == d[v] && ig.Inside(wit[v], Finite(d)) && ig.Bounded(wit[v])
    }

    /** What holds throughout `run` from `s`: no distance above `Max`, `s`'s
        at most 0; a node other than `s` is reached exactly when it has a
        distance; and every distance is witnessed by a walk. */
    ghost predicate Progress(s: nat, d: seq<int>, rch: seq<bool>, wit: seq<seq<nat>>)
      requires ig.Valid()
    {
      |d| == |rch| == |wit| == ig.numNodes && s < ig.numNodes && d[s] <= 0 &&
      (forall v :: 0 <= v < ig.numNodes ==> d[v] <= Max) &&
      (forall v :: 0 <= v < ig.numNodes ==> (rch[v] ==> d[v] < Max) && (v != s && d[v] < Max ==> rch[v])) &&
      (forall v {:trigger Witness(s, d, wit, v)} :: 0 <= v < ig.numNodes && d[v] < Max ==> Witness(s, d, wit, v))
    }

    /** Every arc out of a node below `u` that had a distance in `d0` is
        relaxed in `d` against that distance. */
    ghost predicate Swept(d0: seq<int>, d: seq<int>, u: nat)
      requires ig.Valid() && |d0| == |d| == ig.numNodes
    {
      forall b :: 0 <= b < ig.numEdges && ig.Tail(b) < u && d0[ig.Tail(b)] < Max ==>
        d[ig.to[b]] <= d0[ig.Tail(b)] + ig.weight[b]
    }

    /** No bounded walk from `s` of at most `k` arcs weighs less than the
        distance of the node it ends at: what `k` rounds achieve. */
    ghost predicate Covers(s: nat, d: seq<int>, k: nat)
      requires ig.Valid() && |d| == ig.numNodes
    {
      forall p: seq<nat>, v: nat :: ig.Walk(s, p, v) && ig.Bounded(p) && |p| <= k && v < ig.numNodes ==> d[v] <= ig.Weight(p)
    }

    /** Lowering `t`'s distance to that of `u` plus the weight of arc `a`
        from `u`, with `u`'s walk extended by `a` as `t`'s, keeps the
        invariant. */
    lemma RelaxKeeps(s: nat, d: seq<int>, rch: seq<bool>, wit: seq<seq<nat>>, u: nat, a: nat,
                     d1: seq<int>, rch1: seq<bool>, wit1: seq<seq<nat>>)
      requires ig.Valid() && Progress(s, d, rch, wit)
      requires u < ig.numNodes && d[u] < Max && a < ig.numEdges && ig.Tail(a) == u
      requires d[u] + ig.weight[a] < d[ig.to[a]]
      requires d1 == d[ig.to[a] := d[u] + ig.weight[a]] && rch1 == rch[ig.to[a] := true]
      requires wit1 == wit[ig.to[a] := wit[u] + [a]]
      ensures Progress(s, d1, rch1, wit1)
    {
      var t, nd := ig.to[a], d[u] + ig.weight[a];
      assert |d1| == |rch1| == |wit1| == ig.numNodes && d1[s] <= 0;
      assert forall v :: 0 <= v < ig.numNodes ==> d1[v] <= Max;
      assert forall v :: 0 <= v < ig.numNodes ==> (rch1[v] ==> d1[v] < Max) && (v != s && d1[v] < Max ==> rch1[v]);
      assert Finite(d1)[u];
      assert Witness(s, d, wit, u);
      forall x | 0 <= x < ig.numNodes && Finite(d)[x]
        ensures Finite(d1)[x]
      {
      }
      forall v | 0 <= v < ig.numNodes && d1[v] < Max
        ensures Witness(s, d1, wit1, v)
      {
        if v == t {
          ig.WalkExtend(s, wit[u], u, a);
          BelowMaxExtend(ig.weight, wit[u], a);
          ig.InsideGrow(wit[u], Finite(d), Finite(d1));
          ig.InsideExtend(wit[u], Finite(d1), a);
        } else {
          assert Witness(s, d, wit, v);
          ig.InsideGrow(wit[v], Finite(d), Finite(d1));
        }
      }
    }

    /** One relaxation: arc `a` out of `u`. */
    method RelaxArc(ghost s: nat, u: nat, a: nat, d0: seq<int>, rch0: seq<bool>, ghost wit0: seq<seq<nat>>)
      returns (d: seq<int>, rch: seq<bool>, ghost wit: seq<seq<nat>>, improved: bool)
      requires ig.Valid() && Progress(s, d0, rch0, wit0)
      requires u < ig.numNodes && d0[u] < Max && a < ig.numEdges && ig.Tail(a) == u
      ensures Progress(s, d, rch, wit) && Below(d, d0) && d[u] < Max
      ensures !improved ==> d == d0 && rch == rch0 && wit == wit0 && d[ig.to[a]] <= d[u] + ig.weight[a]
      ensures improved ==> d[ig.to[a]] < d0[ig.to[a]] && d[ig.to[a]] == d0[u] + ig.weight[a]
    {
      var t := ig.to[a];
      var w := ig.weight[a];
      var newDist := d0[u] + w;
      if newDist < d0[t] {
        RelaxKeeps(s, d0, rch0, wit0, u, a, d0[t := d0[u] + w], rch0[t := true], wit0[t := wit0[u] + [a]]);
        d, rch, wit := d0[t := d0[u] + w], rch0[t := true], wit0[t := wit0[u] + [a]];
        improved := true;
      } else {
        d, rch, wit, improved := d0, rch0, wit0, false;
      }
    }

    /** The scan of `u`'s arcs in one round: each of them ends relaxed
        against `u`'s distance at the start of the scan. */
    method RelaxFrom(ghost s: nat, u: nat, d0: seq<int>, rch0: seq<bool>, ghost wit0: seq<seq<nat>>)
      returns (d: seq<int>, rch: seq<bool>, ghost wit: seq<seq<nat>>, update: bool)
      requires ig.Valid() && Progress(s, d0, rch0, wit0) && u < ig.numNodes && d0[u] < Max
      ensures Progress(s, d, rch, wit) && Below(d, d0)
      ensures update ==> exists v :: 0 <= v < ig.numNodes && d[v] < d0[v]
      ensures !update ==> d == d0 && rch == rch0 && wit == wit0
      ensures forall b :: 0 <= b < ig.numEdges && ig.Tail(b) == u ==> d[ig.to[b]] <= d0[u] + ig.weight[b]
    {
      var r := ig.Neighbors(u);
      d, rch, wit, update := d0, rch0, wit0, false;
      for a := r.0 to r.1
        invariant Progress(s, d, rch, wit) && Below(d, d0) && d[u] < Max
        invariant update ==> exists v :: 0 <= v < ig.numNodes && d[v] < d0[v]
        invariant !update ==> d == d0 && rch == rch0 && wit == wit0
        invariant forall b :: r.0 <= b < a ==> d[ig.to[b]] <= d0[u] + ig.weight[b]
      {
        ghost var dPrev := d;
        var improved;
        d, rch, wit, improved := RelaxArc(s, u, a, d, rch, wit);
        if improved {
          assert d[ig.to[a]] < d0[ig.to[a]];
          update := true;
        }
      }
    }

    /** One round: every node with a distance has its arcs relaxed, in node
        order. Every arc out of a node that had a distance at the start ends
        relaxed against that distance; a round that changes nothing leaves
        every arc out of a node with a distance relaxed. */
    method Round(ghost s: nat, d0: seq<int>, rch0: seq<bool>, ghost wit0: seq<seq<nat>>)
      returns (d: seq<int>, rch: seq<bool>, ghost wit: seq<seq<nat>>, update: bool)
      requires ig.Valid() && Progress(s, d0, rch0, wit0)
      ensures Progress(s, d, rch, wit) && Below(d, d0)
      ensures update ==> exists v :: 0 <= v < ig.numNodes && d[v] < d0[v]
      ensures Swept(d0, d, ig.numNodes)
      ensures !update ==> d == d0 && ig.Relaxed(d, Finite(d))
    {
      d, rch, wit, update := d0, rch0, wit0, false;
      for u := 0 to ig.numNodes
        invariant Progress(s, d, rch, wit) && Below(d, d0)
        invariant update ==> exists v :: 0 <= v < ig.numNodes && d[v] < d0[v]
        invariant Swept(d0, d, u)
        invariant !update ==> d == d0
      {
        if d[u] == Max {
          continue;
        }
        ghost var dPrev := d;
        var changed;
        d, rch, wit, changed := RelaxFrom(s, u, d, rch, wit);
        if changed {
          ghost var v :| 0 <= v < ig.numNodes && d[v] < dPrev[v];
          assert d[v] < d0[v];
          update := true;
        }
      }
    }

    /** The start of `run`: only `s` has a distance, 0, by the empty walk. */
    lemma Start(s: nat, d: seq<int>, rch: seq<bool>, wit: seq<seq<nat>>)
      requires ig.Valid() && s < ig.numNodes
      requires d == seq(ig.numNodes, _ => Max)[s := 0] && rch == seq(ig.numNodes, _ => false)
      requires wit == seq(ig.numNodes, _ => [])
      ensures Progress(s, d, rch, wit)
    {
      forall v | 0 <= v < ig.numNodes && d[v] < Max
        ensures Witness(s, d, wit, v)
      {
        assert v == s;
      }
    }

    /** Once every arc out of a node with a distance is relaxed, the source's
        distance is 0: its walk is a closed walk, which cannot weigh less. */
    lemma SourceZero(s: nat, d: seq<int>, rch: seq<bool>, wit: seq<seq<nat>>)
      requires ig.Valid() && Progress(s, d, rch, wit) && ig.Relaxed(d, Finite(d))
      ensures d[s] == 0
    {
      assert Witness(s, d, wit, s);
      ig.NoNegativeCycle(d, Finite(d), s, wit[s]);
    }

    /** A round after which every arc out of a node that had a distance is
        relaxed against that distance extends the covered walks by one arc. */
    lemma CoversRound(s: nat, d0: seq<int>, d: seq<int>, k: nat)
      requires ig.Valid() && |d0| == |d| == ig.numNodes && Covers(s, d0, k)
      requires Swept(d0, d, ig.numNodes) && Below(d, d0)
      ensures Covers(s, d, k + 1)
    {
      forall p: seq<nat>, v: nat | ig.Walk(s, p, v) && ig.Bounded(p) && |p| <= k + 1 && v < ig.numNodes
        ensures d[v] <= ig.Weight(p)
      {
        if |p| == k + 1 {
          CoversArc(s, d0, d, k, p, v);
        }
      }
    }

    /** The step of `CoversRound` for a walk of `k + 1` arcs: its last arc
        leaves a node whose distance its first `k` arcs bound. */
    lemma CoversArc(s: nat, d0: seq<int>, d: seq<int>, k: nat, p: seq<nat>, v: nat)
      requires ig.Valid() && |d0| == |d| == ig.numNodes && Covers(s, d0, k) && Swept(d0, d, ig.numNodes)
      requires ig.Walk(s, p, v) && ig.Bounded(p) && |p| == k + 1
      ensures d[v] <= ig.Weight(p)
    {
      var q, a := p[..k], p[k];
      assert ig.Walk(s, q, ig.Tail(a)) && a < ig.numEdges && ig.to[a] == v;
      ig.ArcEnds(a);
      BelowMaxPrefix(ig.weight, p, k);
      assert d0[ig.Tail(a)] <= ig.Weight(q);
      assert ig.Weight(p) == ig.Weight(q) + ig.weight[a];
    }

    /** After `n - 1` rounds cover every bounded walk of fewer arcs than
        there are nodes, a further round that lowers a distance must have
        found a negative loop: otherwise the lowered distance's walk could be
        shortened to one already covered. */
    lemma NegativeLoopFound(s: nat, last: seq<int>, d: seq<int>, rch: seq<bool>, wit: seq<seq<nat>>, v: nat)
      requires ig.Valid() && Progress(s, d, rch, wit) && |last| == ig.numNodes
      requires Covers(s, last, ig.numNodes - 1) && v < ig.numNodes && d[v] < last[v] <= Max
      ensures exists p, x, c :: ig.NegativeLoop(s, p, x, c)
    {
      if forall p, x, c :: !ig.NegativeLoop(s, p, x, c) {
        assert Witness(s, d, wit, v);
        var q := ig.Shorten(s, wit[v], v);
        assert false;
      }
    }

    /** With every arc out of a node with a distance relaxed, a bounded walk
        from `s` only leaves nodes with distances, and the distance of its
        end is at most `d[s]` plus its weight. */
    lemma {:induction false} ReachFinite(s: nat, d: seq<int>, p: seq<nat>, v: nat)
      requires ig.Valid() && |d| == ig.numNodes && s < ig.numNodes && d[s] <= 0
      requires ig.Relaxed(d, Finite(d)) && ig.Walk(s, p, v) && ig.Bounded(p)
      ensures v < ig.numNodes && d[v] <= ig.Weight(p) && ig.Inside(p, Finite(d))
      decreases |p|
    {
      if |p| > 0 {
        var q, a := p[..|p| - 1], p[|p| - 1];
        ig.ArcEnds(a);
        BelowMaxPrefix(ig.weight, p, |p| - 1);
        ReachFinite(s, d, q, ig.Tail(a));
        assert ig.Weight(p) == ig.Weight(q) + ig.weight[a];
        ig.InsideExtend(q, Finite(d), a);
        assert q + [a] == p;
      }
    }

    /** Once every arc out of a node with a distance is relaxed, no negative
        loop is reached from `s`: the loop would lie among nodes with
        distances, where no closed walk weighs less than nothing. */
    lemma NoNegativeLoop(s: nat, d: seq<int>, p: seq<nat>, x: nat, c: seq<nat>)
      requires ig.Valid() && |d| == ig.numNodes && s < ig.numNodes && d[s] <= 0
      requires ig.Relaxed(d, Finite(d))
      ensures !ig.NegativeLoop(s, p, x, c)
    {
      if ig.NegativeLoop(s, p, x, c) {
        ig.WalkConcat(s, p, x, c, x);
        ReachFinite(s, d, p + c, x);
        assert ig.Inside(c, Finite(d)) by {
          assert forall i :: 0 <= i < |c| ==> c[i] == (p + c)[|p| + i];
        }
        ig.NoNegativeCycle(d, Finite(d), x, c);
        assert false;
      }
    }

    /** `run(source)`: clears `reached`, sets every distance to `Max` but the
        source's to 0, then performs rounds until one changes nothing, at
        most `n` of them. It fails with `NegativeCycle` exactly when all `n`
        rounds changed something (`rounds` counts the rounds that did).
        Throughout, a node other than the source is reached exactly when it
        has a distance, and every distance is the weight of a walk `wit[v]`
        from the source through nodes with distances. On success every arc
        out of a node with a distance is relaxed and the source's distance is
        0: by `InternalGraph.WalkBound`, no walk through nodes with distances
        is shorter than a node's distance. It fails exactly when the graph has
        a negative loop reached from the source along a walk whose every
        prefix weighs less than `Max`. */
    method Run(source: nat) returns (r: Result<(), Status>, ghost wit: seq<seq<nat>>, ghost rounds: nat)
      requires Valid() && source < ig.numNodes
      modifies this
      ensures Valid() && Progress(source, distances, reached, wit)
      ensures rounds <= ig.numNodes && (r.Err? <==> rounds == ig.numNodes)
      ensures r.Err? ==> r.error == NegativeCycle
      ensures r.Ok? ==> ig.Relaxed(distances, Finite(distances)) && distances[source] == 0
      ensures r.Err? <==> exists p, x, c :: ig.NegativeLoop(source, p, x, c)
    {
      var n := ig.numNodes;
      reached := seq(n, _ => false);
      distances := seq(n, _ => Max);
      distances := distances[source := 0];
      var d, rch := distances, reached;
      wit := seq(n, _ => []);
      Start(source, d, rch, wit);
      ghost var last := d;
      var numLoop := 0;
      for k := 0 to n
        invariant Progress(source, d, rch, wit) && numLoop == k && Covers(source, d, k)
        invariant k > 0 ==> |last| == n && Covers(source, last, k - 1)
        invariant k > 0 ==> exists v :: 0 <= v < n && d[v] < last[v] <= Max
      {
        ghost var dPrev := d;
        var update;
        d, rch, wit, update := Round(source, d, rch, wit);
        if !update {
          SourceZero(source, d, rch, wit);
          break;
        }
        CoversRound(source, dPrev, d, k);
        last := dPrev;
        numLoop := numLoop + 1;
      }
      distances, reached := d, rch;
      rounds := numLoop;
      if numLoop == n {
        ghost var v :| 0 <= v < n && d[v] < last[v] <= Max;
        NegativeLoopFound(source, last, d, rch, wit, v);
        r := Err(NegativeCycle);
      } else {
        forall p, x, c
          ensures !ig.NegativeLoop(source, p, x, c)
        {
          NoNegativeLoop(source, d, p, x, c);
        }
        r := Ok(());
      }
    }
  }
}
