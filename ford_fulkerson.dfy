/** The Ford-Fulkerson maximum-flow solver: repeated depth-first searches for
    a path with residual capacity from the source to the sink, each pushing
    the smallest residual on its path, until the flow reaches the bound (the
    cutoff, or the capacity out of the source) or no path is left. */
module FordFulkerson {
  import opened Wrappers
  import opened Graph
  import opened Sums
  import opened MaximumFlowResidualNetwork
  import opened MaximumFlowValidate

  /** Every capacity is non-negative. */
  ghost predicate NonNegative(s: seq<int>)
  {
    forall a :: 0 <= a < |s| ==> s[a] >= 0
  }

  class FordFulkerson {
    var status: Status
    var source: Option<nat>
    const rn: ResidualNetwork
    var visited: seq<bool>
    var cutoff: Option<int>

    ghost predicate Valid()
      reads this, rn
    {
      rn.Valid() && |visited| == rn.numNodes
    }

    /** `new`: the residual network of the directed graph, nothing solved,
        no cutoff and no node visited. */
    constructor (n: nat, edges: seq<Edge<int>>)
      requires EndpointsIn(edges, n)
      ensures Valid() && fresh(rn) && rn.numNodes == n && rn.edges == edges && rn.directed
      ensures rn.residual == rn.upper
      ensures status == NotSolved && source == None && cutoff == None && visited == seq(n, _ => false)
    {
      rn := new ResidualNetwork(n, edges, true);
      status := NotSolved;
      source := None;
      visited := seq(n, _ => false);
      cutoff := None;
    }

    /** `cutoff(k)`: the next runs stop once the flow reaches `k`. */
    method Cutoff(k: int)
      modifies this`cutoff
      ensures cutoff == Some(k)
    {
      cutoff := Some(k);
    }

    /** `clear_cutoff`: the next runs are bounded by the source's capacity. */
    method ClearCutoff()
      modifies this`cutoff
      ensures cutoff == None
    {
      cutoff := None;
    }

    /** `x` was visited between `v0` and `v1`. */
    ghost predicate Fresh(v0: seq<bool>, v1: seq<bool>, x: nat)
    {
      x < |v0| == |v1| && v1[x] && !v0[x]
    }

    /** No visited node becomes unvisited. */
    ghost predicate Grows(v0: seq<bool>, v1: seq<bool>)
    {
      |v0| == |v1| && forall x :: 0 <= x < |v0| && v0[x] ==> v1[x]
    }

    /** A search from `u` that moved the residuals from `res0` to `res1` and
        the visited marks from `v0` to `v1` returned `d`: `0 < d <= flow`, it
        pushed `d` along a path from `u` to the sink every arc of which had at
        least `d` residual, and every node of the path but the sink was
        visited by it. */
    ghost predicate Augmented(res0: seq<int>, res1: seq<int>, v0: seq<bool>, v1: seq<bool>,
                              u: nat, sink: nat, flow: int, d: int, path: seq<nat>)
      requires rn.Wf() && |res0| == 2 * rn.numEdges
    {
      0 < d <= flow &&
      (forall i :: 0 <= i < |path| ==> path[i] < 2 * rn.numEdges) && rn.PathFrom(path, u, sink) &&
      (forall i :: 0 <= i < |path| ==> res0[path[i]] >= d) &&
      res1 == rn.PushPath(res0, path, d) &&
      (forall i :: 0 <= i < |path| ==>
         Fresh(v0, v1, rn.to[rn.rev[path[i]]]) && (Fresh(v0, v1, rn.to[path[i]]) || rn.to[path[i]] == sink))
    }

    /** A search that found nothing: the residuals are as they were, and
        every node it visited has its arcs with residual capacity leading to
        visited nodes. */
    ghost predicate Blocked(res0: seq<int>, res1: seq<int>, v0: seq<bool>, v1: seq<bool>)
      requires rn.Wf() && |res0| == 2 * rn.numEdges && |v1| == rn.numNodes
    {
      res1 == res0 &&
      forall x :: 0 <= x < rn.numNodes && Fresh(v0, v1, x) ==> rn.Leads(res1, v1, x)
    }

    /** `dfs(u, sink, flow)`: looks for a path from `u` to the sink through
        unvisited nodes along arcs with residual capacity. When it finds one
        it pushes `d`, the smaller of `flow` and the smallest residual on the
        path, along the path and returns it (`Augmented`). When it finds none
        it changes no residual, and every node it visited has all its arcs
        with residual capacity leading to visited nodes (`Blocked`). It never
        enters a visited node and never marks the sink. */
    method Dfs(u: nat, sink: nat, flow: int) returns (r: Option<int>, ghost path: seq<nat>)
      requires Valid() && u < rn.numNodes && sink < rn.numNodes && !visited[u] && !visited[sink]
      requires flow > 0 && Feasible(rn.residual, rn.upper, rn.rev)
      modifies this`visited, rn
      ensures Valid() && Feasible(rn.residual, rn.upper, rn.rev) && !visited[sink] && Grows(old(visited), visited)
      ensures rn.excesses == old(rn.excesses) && rn.distances == old(rn.distances)
      ensures u != sink ==> visited[u]
      ensures r.None? ==> u != sink && Blocked(old(rn.residual), rn.residual, old(visited), visited)
      ensures r.Some? ==> Augmented(old(rn.residual), rn.residual, old(visited), visited, u, sink, flow, r.value, path)
      decreases Unvisited(visited), 0
    {
      if u == sink {
        return Some(flow), [];
      }
      ghost var v0 := visited;
      visited := visited[u := true];
      var lo, hi := rn.Neighbors(u);
      var a := lo;
      while a < hi
        invariant lo <= a <= hi && Valid() && visited[u] && !visited[sink] && Grows(v0, visited)
        invariant rn.residual == old(rn.residual) && rn.excesses == old(rn.excesses) && rn.distances == old(rn.distances)
        invariant forall x :: 0 <= x < rn.numNodes && Fresh(v0, visited, x) && x != u ==> rn.Leads(rn.residual, visited, x)
        invariant forall b :: lo <= b < a && rn.residual[b] > 0 ==> visited[rn.to[b]]
        decreases hi - a
      {
        ghost var v1 := visited;
        UnvisitedShrinks(v0, visited, u);
        r, path := Try(u, a, sink, flow, v0);
        if r.Some? {
          return;
        }
        KeepLeads(v0, v1, visited, u, lo, a);
        a := a + 1;
      }
      r, path := None, [];
    }

    /** One arc `a` of `dfs(u, ...)`'s scan: skipped when its head is visited
        or it has no residual, otherwise searched from its head, and on
        success extended by `a` and pushed along. */
    method Try(u: nat, a: nat, sink: nat, flow: int, ghost v0: seq<bool>) returns (r: Option<int>, ghost path: seq<nat>)
      requires Valid() && u < rn.numNodes && sink < rn.numNodes && u != sink && rn.start[u] <= a < rn.start[u + 1]
      requires Grows(v0, visited) && visited[u] && !v0[u] && !visited[sink]
      requires flow > 0 && Feasible(rn.residual, rn.upper, rn.rev)
      modifies this`visited, rn
      ensures Valid() && Feasible(rn.residual, rn.upper, rn.rev) && !visited[sink] && Grows(old(visited), visited)
      ensures rn.excesses == old(rn.excesses) && rn.distances == old(rn.distances)
      ensures r.None? ==> Blocked(old(rn.residual), rn.residual, old(visited), visited)
      ensures r.None? ==> a < 2 * rn.numEdges && (rn.residual[a] > 0 ==> visited[rn.to[a]])
      ensures r.Some? ==> Augmented(old(rn.residual), rn.residual, v0, visited, u, sink, flow, r.value, path)
      decreases Unvisited(visited), 1
    {
      rn.StartsBelow(u + 1);
      var t := rn.to[a];
      var rc := rn.residual[a];
      if visited[t] || rc == 0 {
        return None, [];
      }
      ghost var v1 := visited;
      var d, p := Dfs(t, sink, Min(flow, rc));
      if d.Some? {
        AugmentOk(u, a, t, sink, d.value, p, v0, v1, visited, old(rn.residual), rn.residual);
        rn.PushFlowWithoutExcess(u, a, d.value);
        path := [a] + p;
        return d, path;
      }
      r, path := None, [];
    }

    /** Extending the path found from `t` by the arc `a` from `u` to `t`:
        `a` and its reverse are off that path, since `u` was visited before
        the search from `t` started and every node of that path was not, so
        `a` still has the residual it was chosen with and pushing along it
        keeps the residuals feasible. */
    lemma AugmentOk(u: nat, a: nat, t: nat, sink: nat, d: int, p: seq<nat>, v0: seq<bool>, v1: seq<bool>, v2: seq<bool>,
                    res0: seq<int>, res1: seq<int>)
      requires rn.Valid() && u < rn.numNodes && sink < rn.numNodes && u != sink
      requires rn.start[u] <= a < rn.start[u + 1] && a < 2 * rn.numEdges && t == rn.to[a]
      requires |v0| == rn.numNodes && Grows(v0, v1) && Grows(v1, v2) && v1[u] && !v0[u]
      requires !v1[t] && (t != sink ==> v2[t])
      requires |res0| == |res1| == 2 * rn.numEdges && res0[a] >= d && Feasible(res1, rn.upper, rn.rev)
      requires Augmented(res0, res1, v1, v2, t, sink, d, d, p)
      ensures Feasible(Pushed(res1, rn.rev, a, d), rn.upper, rn.rev)
      ensures Augmented(res0, Pushed(res1, rn.rev, a, d), v0, v2, u, sink, d, d, [a] + p)
    {
      rn.ArcTail(a, u);
      assert rn.to[rn.rev[rn.rev[a]]] == t;
      rn.PushPathOutside(res0, p, d, a);
      PushedFeasible(res1, rn.upper, rn.rev, a, d);
      assert ([a] + p)[1..] == p;
    }

    /** After a search from `u`'s arc `a` found nothing, every node visited
        since `v0` other than `u` still leads only to visited nodes, and so
        do `u`'s arcs up to `a`. */
    lemma KeepLeads(v0: seq<bool>, v1: seq<bool>, v2: seq<bool>, u: nat, lo: nat, a: nat)
      requires rn.Valid() && |v0| == rn.numNodes && Grows(v0, v1) && Grows(v1, v2) && u < rn.numNodes
      requires Blocked(rn.residual, rn.residual, v1, v2)
      requires forall x :: 0 <= x < rn.numNodes && Fresh(v0, v1, x) && x != u ==> rn.Leads(rn.residual, v1, x)
      requires a < 2 * rn.numEdges && (rn.residual[a] > 0 ==> v2[rn.to[a]])
      requires forall b :: lo <= b < a && rn.residual[b] > 0 ==> v1[rn.to[b]]
      ensures forall x :: 0 <= x < rn.numNodes && Fresh(v0, v2, x) && x != u ==> rn.Leads(rn.residual, v2, x)
      ensures forall b :: lo <= b < a + 1 && rn.residual[b] > 0 ==> v2[rn.to[b]]
    {
      forall x | 0 <= x < rn.numNodes && Fresh(v0, v2, x) && x != u
        ensures rn.Leads(rn.residual, v2, x)
      {
        if v1[x] {
          rn.LeadsGrow(rn.residual, v1, v2, x);
        } else {
          assert Fresh(v1, v2, x);
        }
      }
    }

  
    /** `run`: rejects bad terminals with `BadInput` before changing
        anything. Otherwise it resets every residual to its capacity, takes
        as bound the cutoff or else the capacity out of the source, and
        augments along the paths the searches find. The value returned is
        never above a positive bound and is 0 for any other; it is the flow
        out of the source and into the sink, every other node conserves
        flow, and the residuals stay feasible. Unless the bound was reached,
        the nodes of the last search form a cut that no residual path
        crosses, so the flow is maximum. */
    method Run(s: nat, t: nat) returns (r: Result<int, Status>)
      requires Valid() && NonNegative(rn.upper)
      modifies this, rn
      ensures Valid() && cutoff == old(cutoff)
      ensures r.Err? <==> !ValidTerminals(rn.numNodes, s, t)
      ensures r.Err? ==> r.error == BadInput && unchanged(this) && unchanged(rn)
      ensures r.Ok? ==> status == Optimal && source == Some(s) && Feasible(rn.residual, rn.upper, rn.rev)
      ensures r.Ok? ==> rn.excesses == old(rn.excesses) && rn.distances == old(rn.distances)
      ensures r.Ok? ==> forall x :: 0 <= x < rn.numNodes ==>
                rn.OutRes(rn.residual, x) == rn.OutRes(rn.upper, x) - (if x == s then r.value else 0) + (if x == t then r.value else 0)
      ensures r.Ok? ==> var bound := if cutoff.Some? then cutoff.value else rn.OutRes(rn.upper, s);
                (bound <= 0 ==> r.value == 0) && (bound > 0 ==> 0 <= r.value <= bound) &&
                (r.value < bound ==> rn.Cut(rn.residual, visited, s, t))
    {
      var check := ValidateInput(rn.numNodes, s, t);
      if check.Err? {
        return Err(check.error);
      }
      source := Some(s);
      rn.residual := rn.upper;
      var residual: int;
      if cutoff.Some? {
        residual := cutoff.value;
      } else {
        residual := rn.NeighborSum(s, rn.residual);
      }
      ghost var bound := residual;
      var value := 0;
      while residual > 0
        invariant Valid() && cutoff == old(cutoff) && source == Some(s) && Feasible(rn.residual, rn.upper, rn.rev)
        invariant rn.excesses == old(rn.excesses) && rn.distances == old(rn.distances)
        invariant value + residual == bound && value >= 0 && (bound > 0 ==> residual >= 0) && (bound <= 0 ==> value == 0)
        invariant forall x :: 0 <= x < rn.numNodes ==>
                    rn.OutRes(rn.residual, x) == rn.OutRes(rn.upper, x) - (if x == s then value else 0) + (if x == t then value else 0)
        decreases residual
      {
        visited := seq(rn.numNodes, _ => false);
        ghost var res0 := rn.residual;
        var d, p := Dfs(s, t, residual);
        if d.None? {
          FoundCut(s, t);
          break;
        }
        forall x | 0 <= x < rn.numNodes
          ensures rn.OutRes(rn.residual, x) == rn.OutRes(res0, x) - (if x == s then d.value else 0) + (if x == t then d.value else 0)
        {
          rn.PushPathOut(res0, p, d.value, s, t, x);
        }
        value := value + d.value;
        residual := residual - d.value;
      }
      status := Optimal;
      return Ok(value);
    }

    /** A search from the source that found nothing, started with no node
        visited, leaves a cut behind. */
    lemma FoundCut(s: nat, t: nat)
      requires Valid() && s < rn.numNodes && t < rn.numNodes && s != t && visited[s] && !visited[t]
      requires Blocked(rn.residual, rn.residual, seq(rn.numNodes, _ => false), visited)
      ensures rn.Cut(rn.residual, visited, s, t)
    {
      forall x | 0 <= x < rn.numNodes && visited[x]
        ensures rn.Leads(rn.residual, visited, x)
      {
        assert Fresh(seq(rn.numNodes, _ => false), visited, x);
      }
    }
  }
}
