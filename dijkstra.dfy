/** Dijkstra's single-source shortest paths over the compressed graph (a
    `CSR` in `dijkstra.rs`, laid out as `InternalGraph` lays it out): a
    binary heap of `(distance, node)` entries, nodes settled once, on their
    first pop, and arcs into settled nodes skipped. The `distances` array is
    not reset by `run`, only the entry of the start node `s` is; `reached` is never
    touched. */
module Dijkstra {
  import opened Wrappers
  import opened Graph
  import opened ShortestPathInternalGraph
  import opened BinaryHeapModel
  import opened Sums

  /** `weight.iter().any(|&w| w < 0)`. */
  function AnyNegative(weight: seq<int>): (r: bool)
    ensures r <==> exists a :: 0 <= a < |weight| && weight[a] < 0
  {
    if |weight| == 0 then false
    else weight[|weight| - 1] < 0 || AnyNegative(weight[..|weight| - 1])
  }

  /** No distance of `d` above its value in `d0`. */
  ghost predicate Below(d: seq<int>, d0: seq<int>)
  {
    |d| == |d0| && forall v :: 0 <= v < |d| ==> d[v] <= d0[v]
  }

  class Dijkstra {
    const ig: InternalGraph
    var reached: seq<bool>
    var distances: seq<int>

    ghost predicate Valid()
      reads this
    {
      ig.Valid() && |reached| == |distances| == ig.numNodes
    }

    /** `new`: the graph built from `graph`'s edges, weights as data; nothing
        reached, every distance `Max`. */
    constructor (n: nat, graph: seq<Edge<int>>)
      requires EndpointsIn(graph, n)
      ensures Valid() && ig.numNodes == n && ig.edges == graph
      ensures reached == seq(n, _ => false) && distances == seq(n, _ => Max)
    {
      ig := new InternalGraph(n, graph);
      reached, distances := seq(n, _ => false), seq(n, _ => Max);
    }

    /** Every weight is non-negative. */
    ghost predicate NonNegative()
      requires ig.Valid()
    {
      forall a :: 0 <= a < ig.numEdges ==> ig.weight[a] >= 0
    }

    /** Node `x`'s distance is the weight of the walk `wit[x]` from `s`,
        which leaves settled nodes only. */
    ghost predicate Reached(s: nat, d: seq<int>, visited: seq<bool>, wit: seq<seq<nat>>, x: nat)
      requires ig.Valid() && |d| == |visited| == |wit| == ig.numNodes && x < ig.numNodes
    {
      ig.Walk(s, wit[x], x) && ig.Weight(wit[x]) == d[x] && ig.Inside(wit[x], visited)
    }

    /** Every heap entry is for a node pushed in this run, with a distance
        no greater than its key, and no key is below `last`; every unsettled
        pushed node has an entry with its distance as key. */
    ghost predicate HeapOk(h: seq<(int, nat)>, visited: seq<bool>, pushed: seq<bool>, d: seq<int>, last: int)
      requires |visited| == |pushed| == |d| == ig.numNodes
    {
      (forall i :: 0 <= i < |h| ==>
         h[i].1 < ig.numNodes && pushed[h[i].1] && d[h[i].1] <= h[i].0 && last <= h[i].0) &&
      (forall x :: 0 <= x < ig.numNodes && !visited[x] && pushed[x] ==> (d[x], x) in h)
    }

    /** Every arc out of a settled node other than `skip` is relaxed. */
    ghost predicate Closed(d: seq<int>, visited: seq<bool>, skip: int)
      requires ig.Valid() && |d| == |visited| == ig.numNodes
    {
      forall a :: 0 <= a < ig.numEdges && visited[ig.Tail(a)] && ig.Tail(a) != skip ==>
        d[ig.to[a]] <= d[ig.Tail(a)] + ig.weight[a]
    }

    /** The arcs of `u` below slot `hi` are relaxed. */
    ghost predicate RelaxedAt(d: seq<int>, u: nat, hi: nat)
      requires ig.Valid() && |d| == ig.numNodes && u < ig.numNodes
    {
      forall b :: ig.Neighbors(u).0 <= b < hi && b < ig.numEdges ==> d[ig.to[b]] <= d[u] + ig.weight[b]
    }

    /** The search's invariant from `s`, the distances having started as
        `dInit`: `s` pushed at distance 0; settled nodes pushed, no farther
        than `last`; a node not pushed keeps its distance and a pushed one
        other than `s` has a lower one; each pushed node `Reached`; the heap
        invariant; and every settled node but `skip` relaxed. */
    ghost predicate Searching(s: nat, dInit: seq<int>, d: seq<int>, visited: seq<bool>, pushed: seq<bool>,
                              wit: seq<seq<nat>>, h: seq<(int, nat)>, last: int, skip: int)
      requires ig.Valid()
    {
      |dInit| == |d| == |visited| == |pushed| == |wit| == ig.numNodes && s < ig.numNodes && 0 <= last &&
      pushed[s] && d[s] == 0 && NodesOk(s, dInit, d, visited, pushed, wit, last) &&
      HeapOk(h, visited, pushed, d, last) && Closed(d, visited, skip)
    }

    /** The per-node part of `Searching`. */
    ghost predicate NodesOk(s: nat, dInit: seq<int>, d: seq<int>, visited: seq<bool>, pushed: seq<bool>,
                            wit: seq<seq<nat>>, last: int)
      requires ig.Valid() && |dInit| == |d| == |visited| == |pushed| == |wit| == ig.numNodes
    {
      (forall x :: 0 <= x < ig.numNodes && visited[x] ==> pushed[x] && d[x] <= last) &&
      (forall x :: 0 <= x < ig.numNodes && !pushed[x] ==> d[x] == dInit[x]) &&
      (forall x :: 0 <= x < ig.numNodes && pushed[x] && x != s ==> d[x] < dInit[x]) &&
      (forall x {:trigger Reached(s, d, visited, wit, x)} ::
         0 <= x < ig.numNodes && pushed[x] ==> Reached(s, d, visited, wit, x))
    }

    /** Popping an entry of a settled node: only the heap shrinks. */
    lemma PopStale(s: nat, dInit: seq<int>, d: seq<int>, visited: seq<bool>, pushed: seq<bool>,
                   wit: seq<seq<nat>>, h: seq<(int, nat)>, last: int, i: nat, rest: seq<(int, nat)>)
      requires ig.Valid() && Searching(s, dInit, d, visited, pushed, wit, h, last, -1)
      requires i < |h| && visited[h[i].1]
      requires forall x :: x in h && x != h[i] ==> x in rest
      requires forall x :: x in rest ==> x in h
      ensures Searching(s, dInit, d, visited, pushed, wit, rest, last, -1)
    {
      forall j | 0 <= j < |rest|
        ensures rest[j].1 < ig.numNodes && pushed[rest[j].1] && d[rest[j].1] <= rest[j].0 && last <= rest[j].0
      {
        assert rest[j] in h;
      }
    }

    /** Popping the first entry `(k, u)` of an unsettled node settles it:
        its distance is `k`, and the invariant holds with `u` settled, `k`
        as the new bound and every arc but `u`'s relaxed. */
    lemma PopFresh(s: nat, dInit: seq<int>, d: seq<int>, visited: seq<bool>, pushed: seq<bool>,
                   wit: seq<seq<nat>>, h: seq<(int, nat)>, last: int, i: nat, rest: seq<(int, nat)>,
                   visited': seq<bool>)
      requires ig.Valid() && Searching(s, dInit, d, visited, pushed, wit, h, last, -1)
      requires i < |h| && (forall j :: 0 <= j < |h| ==> Before(h[i], h[j]))
      requires forall x :: x in h && x != h[i] ==> x in rest
      requires forall x :: x in rest ==> x in h
      requires h[i].1 < |visited| && !visited[h[i].1] && visited' == visited[h[i].1 := true]
      ensures d[h[i].1] == h[i].0
      ensures Searching(s, dInit, d, visited', pushed, wit, rest, h[i].0, h[i].1)
    {
      var (k, u) := h[i];
      assert (d[u], u) in h;
      forall x | 0 <= x < ig.numNodes && pushed[x]
        ensures Reached(s, d, visited', wit, x)
      {
        assert Reached(s, d, visited, wit, x);
        ig.InsideGrow(wit[x], visited, visited');
      }
      forall j | 0 <= j < |rest|
        ensures rest[j].1 < ig.numNodes && pushed[rest[j].1] && d[rest[j].1] <= rest[j].0 && k <= rest[j].0
      {
        assert rest[j] in h;
        var q :| 0 <= q < |h| && h[q] == rest[j];
        assert Before(h[i], h[q]);
      }
    }

    /** One arc `a` of the settled node `u`, at distance `k`: skipped when
        its head is settled, otherwise relaxed, the head pushed with the
        new distance and its walk extended by `a`. */
    method RelaxArc(ghost s: nat, ghost dInit: seq<int>, u: nat, k: int, a: nat, d0: seq<int>, visited: seq<bool>,
                    ghost pushed0: seq<bool>, ghost wit0: seq<seq<nat>>, h0: seq<(int, nat)>)
      returns (d: seq<int>, ghost pushed: seq<bool>, ghost wit: seq<seq<nat>>, h: seq<(int, nat)>)
      requires ig.Valid() && NonNegative() && u < ig.numNodes
      requires Searching(s, dInit, d0, visited, pushed0, wit0, h0, k, u) && visited[u] && d0[u] == k
      requires ig.Neighbors(u).0 <= a < ig.Neighbors(u).1 && RelaxedAt(d0, u, a)
      ensures Searching(s, dInit, d, visited, pushed, wit, h, k, u) && d[u] == k && RelaxedAt(d, u, a + 1)
      ensures Below(d, d0)
    {
      ig.ArcEnds(a);
      var t, w := ig.to[a], ig.weight[a];
      d, pushed, wit, h := d0, pushed0, wit0, h0;
      if visited[t] {
        return;
      }
      var nd := k + w;
      if nd < d[t] {
        assert Reached(s, d0, visited, wit0, u);
        ig.WalkExtend(s, wit0[u], u, a);
        ig.InsideExtend(wit0[u], visited, a);
        d := d0[t := nd];
        pushed := pushed0[t := true];
        wit := wit0[t := wit0[u] + [a]];
        h := h0 + [(nd, t)];
        Relaxed1(s, dInit, d0, visited, pushed0, wit0, h0, k, u, a, d, pushed, wit, h);
      }
    }

    /** The invariant after lowering the distance of the unsettled head `t`
        of `u`'s arc `a` to `k + weight[a]`. */
    lemma Relaxed1(s: nat, dInit: seq<int>, d0: seq<int>, visited: seq<bool>, pushed0: seq<bool>,
                   wit0: seq<seq<nat>>, h0: seq<(int, nat)>, k: int, u: nat, a: nat,
                   d: seq<int>, pushed: seq<bool>, wit: seq<seq<nat>>, h: seq<(int, nat)>)
      requires ig.Valid() && NonNegative() && u < ig.numNodes
      requires Searching(s, dInit, d0, visited, pushed0, wit0, h0, k, u) && visited[u] && d0[u] == k
      requires ig.Neighbors(u).0 <= a < ig.Neighbors(u).1 && RelaxedAt(d0, u, a)
      requires ig.Tail(a) == u && ig.to[a] < ig.numNodes && !visited[ig.to[a]]
      requires k + ig.weight[a] < d0[ig.to[a]]
      requires ig.Walk(s, wit0[u] + [a], ig.to[a]) && ig.Weight(wit0[u] + [a]) == ig.Weight(wit0[u]) + ig.weight[a]
      requires ig.Inside(wit0[u] + [a], visited) && ig.Weight(wit0[u]) == k
      requires d == d0[ig.to[a] := k + ig.weight[a]] && pushed == pushed0[ig.to[a] := true]
      requires wit == wit0[ig.to[a] := wit0[u] + [a]] && h == h0 + [(k + ig.weight[a], ig.to[a])]
      ensures Searching(s, dInit, d, visited, pushed, wit, h, k, u) && d[u] == k && RelaxedAt(d, u, a + 1)
      ensures Below(d, d0)
    {
      RelaxedNodes(s, dInit, d0, visited, pushed0, wit0, h0, k, u, a, d, pushed, wit, h);
      HeapPush(h0, visited, pushed0, d0, k, ig.to[a], k + ig.weight[a]);
      ClosedLower(d0, visited, u, ig.to[a], k + ig.weight[a]);
      RelaxedAtStep(d0, u, a, k + ig.weight[a]);
    }

    /** The per-node parts of the invariant after the same lowering. */
    lemma RelaxedNodes(s: nat, dInit: seq<int>, d0: seq<int>, visited: seq<bool>, pushed0: seq<bool>,
                       wit0: seq<seq<nat>>, h0: seq<(int, nat)>, k: int, u: nat, a: nat,
                       d: seq<int>, pushed: seq<bool>, wit: seq<seq<nat>>, h: seq<(int, nat)>)
      requires ig.Valid() && NonNegative() && u < ig.numNodes
      requires Searching(s, dInit, d0, visited, pushed0, wit0, h0, k, u) && visited[u] && d0[u] == k
      requires ig.Neighbors(u).0 <= a < ig.Neighbors(u).1 && RelaxedAt(d0, u, a)
      requires ig.Tail(a) == u && ig.to[a] < ig.numNodes && !visited[ig.to[a]]
      requires k + ig.weight[a] < d0[ig.to[a]]
      requires ig.Walk(s, wit0[u] + [a], ig.to[a]) && ig.Weight(wit0[u] + [a]) == ig.Weight(wit0[u]) + ig.weight[a]
      requires ig.Inside(wit0[u] + [a], visited) && ig.Weight(wit0[u]) == k
      requires d == d0[ig.to[a] := k + ig.weight[a]] && pushed == pushed0[ig.to[a] := true]
      requires wit == wit0[ig.to[a] := wit0[u] + [a]] && h == h0 + [(k + ig.weight[a], ig.to[a])]
      ensures |dInit| == |d| == |visited| == |pushed| == |wit| == ig.numNodes
      ensures NodesOk(s, dInit, d, visited, pushed, wit, k)
    {
      var t, nd, n := ig.to[a], k + ig.weight[a], ig.numNodes;
      assert t != s;
      forall x | 0 <= x < n && pushed[x]
        ensures Reached(s, d, visited, wit, x)
      {
        if x != t {
          assert Reached(s, d0, visited, wit0, x);
        }
      }
      forall x | 0 <= x < n && visited[x]
        ensures pushed[x] && d[x] <= k
      {
        assert x != t;
      }
      forall x | 0 <= x < n && !pushed[x]
        ensures d[x] == dInit[x]
      {
        assert x != t;
      }
      forall x | 0 <= x < n && pushed[x] && x != s
        ensures d[x] < dInit[x]
      {
        if x == t {
          assert !pushed0[t] ==> d0[t] == dInit[t];
        }
      }
    }

    /** Pushing `(nd, t)` for the unsettled `t` whose distance drops to
        `nd >= last` keeps the heap invariant. */
    lemma HeapPush(h0: seq<(int, nat)>, visited: seq<bool>, pushed0: seq<bool>, d0: seq<int>, last: int, t: nat, nd: int)
      requires |visited| == |pushed0| == |d0| == ig.numNodes && t < ig.numNodes && !visited[t]
      requires HeapOk(h0, visited, pushed0, d0, last) && last <= nd < d0[t]
      ensures HeapOk(h0 + [(nd, t)], visited, pushed0[t := true], d0[t := nd], last)
    {
      var h, pushed, d := h0 + [(nd, t)], pushed0[t := true], d0[t := nd];
      forall j | 0 <= j < |h|
        ensures h[j].1 < ig.numNodes && pushed[h[j].1] && d[h[j].1] <= h[j].0 && last <= h[j].0
      {
        if j < |h0| {
          assert h[j] == h0[j];
        }
      }
      forall x | 0 <= x < ig.numNodes && !visited[x] && pushed[x]
        ensures (d[x], x) in h
      {
        if x != t {
          assert (d0[x], x) in h0;
        } else {
          assert h[|h0|] == (nd, t);
        }
      }
    }

    /** Lowering the distance of an unsettled node keeps the settled
        nodes' arcs relaxed. */
    lemma ClosedLower(d0: seq<int>, visited: seq<bool>, skip: int, t: nat, nd: int)
      requires ig.Valid() && |d0| == |visited| == ig.numNodes && t < ig.numNodes && !visited[t]
      requires Closed(d0, visited, skip) && nd < d0[t]
      ensures Closed(d0[t := nd], visited, skip)
    {
    }

    /** Lowering the distance of the head of `u`'s arc `a` to the tail's
        distance plus `weight[a]` relaxes one more arc of `u`. */
    lemma RelaxedAtStep(d0: seq<int>, u: nat, a: nat, nd: int)
      requires ig.Valid() && |d0| == ig.numNodes && u < ig.numNodes && a < ig.numEdges
      requires ig.Neighbors(u).0 <= a && RelaxedAt(d0, u, a)
      requires ig.to[a] < ig.numNodes && ig.to[a] != u && nd == d0[u] + ig.weight[a] && nd < d0[ig.to[a]]
      ensures RelaxedAt(d0[ig.to[a] := nd], u, a + 1)
    {
    }

    /** All arcs of the settled node `u`, in slot order. */
    method Scan(ghost s: nat, ghost dInit: seq<int>, u: nat, k: int, d0: seq<int>, visited: seq<bool>,
                ghost pushed0: seq<bool>, ghost wit0: seq<seq<nat>>, h0: seq<(int, nat)>)
      returns (d: seq<int>, ghost pushed: seq<bool>, ghost wit: seq<seq<nat>>, h: seq<(int, nat)>)
      requires ig.Valid() && NonNegative() && u < ig.numNodes
      requires Searching(s, dInit, d0, visited, pushed0, wit0, h0, k, u) && visited[u] && d0[u] == k
      ensures Searching(s, dInit, d, visited, pushed, wit, h, k, -1)
      ensures Below(d, d0)
    {
      var (lo, hi) := ig.Neighbors(u);
      d, pushed, wit, h := d0, pushed0, wit0, h0;
      for a := lo to hi
        invariant Searching(s, dInit, d, visited, pushed, wit, h, k, u) && d[u] == k && RelaxedAt(d, u, a)
        invariant Below(d, d0)
      {
        d, pushed, wit, h := RelaxArc(s, dInit, u, k, a, d, visited, pushed, wit, h);
      }
    }

    /** One iteration of the pop loop: a node settles, or a stale entry
        goes. */
    method SearchStep(ghost s: nat, ghost dInit: seq<int>, d0: seq<int>, visited0: seq<bool>, ghost pushed0: seq<bool>,
                      ghost wit0: seq<seq<nat>>, h0: seq<(int, nat)>, ghost last0: int)
      returns (d: seq<int>, visited: seq<bool>, ghost pushed: seq<bool>, ghost wit: seq<seq<nat>>,
               h: seq<(int, nat)>, ghost last: int)
      requires ig.Valid() && NonNegative() && |h0| > 0
      requires Searching(s, dInit, d0, visited0, pushed0, wit0, h0, last0, -1)
      ensures Searching(s, dInit, d, visited, pushed, wit, h, last, -1)
      ensures Below(d, d0) && |visited| == |visited0|
      ensures forall x :: 0 <= x < |visited0| && visited0[x] ==> visited[x]
      ensures Unvisited(visited) < Unvisited(visited0) || (visited == visited0 && |h| < |h0|)
    {
      var i, rest := Pop(h0);
      var (k, u) := h0[i];
      if visited0[u] {
        PopStale(s, dInit, d0, visited0, pushed0, wit0, h0, last0, i, rest);
        return d0, visited0, pushed0, wit0, rest, last0;
      }
      visited := visited0[u := true];
      PopFresh(s, dInit, d0, visited0, pushed0, wit0, h0, last0, i, rest, visited);
      UnvisitedMark(visited0, u);
      d, pushed, wit, h := Scan(s, dInit, u, k, d0, visited, pushed0, wit0, rest);
      last := k;
    }

    /** `run`: `BadInput`, and nothing changed, exactly when some weight is
        negative. Otherwise the source's distance is 0, no distance rose
        above its old value, the source is settled, every arc out of a
        settled node is relaxed and every settled node's distance is the
        weight of a walk from the source through settled nodes. From fresh
        distances the settled nodes are exactly those with a distance below
        `Max`. `reached` is left alone. */
    method Run(source: nat) returns (r: Result<(), Status>, ghost visited: seq<bool>, ghost wit: seq<seq<nat>>)
      requires Valid() && source < ig.numNodes
      modifies this
      ensures Valid() && reached == old(reached)
      ensures r.Err? <==> exists a :: 0 <= a < ig.numEdges && ig.weight[a] < 0
      ensures r.Err? ==> r.error == BadInput && distances == old(distances)
      ensures r.Ok? ==> distances[source] == 0 && Below(distances, old(distances)[source := 0])
      ensures r.Ok? ==> |visited| == |wit| == ig.numNodes && visited[source] && ig.Relaxed(distances, visited)
      ensures r.Ok? ==> forall v :: 0 <= v < ig.numNodes && visited[v] ==> Reached(source, distances, visited, wit, v)
      ensures r.Ok? && old(distances) == seq(ig.numNodes, _ => Max) ==>
                forall v :: 0 <= v < ig.numNodes ==> (visited[v] <==> distances[v] < Max)
    {
      var n := ig.numNodes;
      if AnyNegative(ig.weight) {
        return Err(BadInput), [], [];
      }
      var h := [(0, source)];
      var settled := seq(n, _ => false);
      ghost var dInit := distances[source := 0];
      distances := distances[source := 0];
      var d := distances;
      ghost var pushed := seq(n, x => x == source);
      wit := seq(n, _ => []);
      ghost var last := 0;
      assert Reached(source, d, settled, wit, source);
      while |h| > 0
        invariant Searching(source, dInit, d, settled, pushed, wit, h, last, -1)
        invariant Below(d, dInit) && reached == old(reached) && |distances| == n
        decreases Unvisited(settled), |h|
      {
        d, settled, pushed, wit, h, last := SearchStep(source, dInit, d, settled, pushed, wit, h, last);
      }
      Finish(source, dInit, d, settled, pushed, wit, last);
      distances, visited := d, settled;
      r := Ok(());
    }

    /** When the heap runs dry every pushed node is settled, so every arc
        out of a settled node is relaxed; from distances all `Max` but the
        source's, the settled nodes are those below `Max`. */
    lemma Finish(s: nat, dInit: seq<int>, d: seq<int>, visited: seq<bool>, pushed: seq<bool>,
                 wit: seq<seq<nat>>, last: int)
      requires ig.Valid() && Searching(s, dInit, d, visited, pushed, wit, [], last, -1)
      ensures visited[s] && ig.Relaxed(d, visited)
      ensures forall v :: 0 <= v < ig.numNodes && visited[v] ==> Reached(s, d, visited, wit, v)
      ensures (forall x :: 0 <= x < ig.numNodes && x != s ==> dInit[x] == Max) ==>
                forall v :: 0 <= v < ig.numNodes ==> (visited[v] <==> d[v] < Max)
    {
    }

    /** The settled set from fresh distances is exactly what a walk of
        weight below `Max` from the source reaches, and no such walk is
        shorter than its end's distance. */
    lemma {:induction false} Shortest(d: seq<int>, visited: seq<bool>, s: nat, p: seq<nat>, v: nat)
      requires ig.Valid() && NonNegative() && |d| == |visited| == ig.numNodes && s < ig.numNodes
      requires ig.Relaxed(d, visited) && visited[s] && d[s] == 0
      requires forall x :: 0 <= x < ig.numNodes ==> (visited[x] <==> d[x] < Max)
      requires ig.Walk(s, p, v) && ig.Weight(p) < Max
      ensures v < ig.numNodes && visited[v] && d[v] <= ig.Weight(p)
      decreases |p|
    {
      if |p| > 0 {
        var q, a := p[..|p| - 1], p[|p| - 1];
        ig.ArcEnds(a);
        Shortest(d, visited, s, q, ig.Tail(a));
      }
    }
  }
}
