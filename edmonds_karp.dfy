/** The Edmonds-Karp maximum-flow solver: repeated breadth-first searches
    from the source, each followed by an augmentation along the tree path to
    the sink by its smallest residual, until the flow reaches the bound (the
    cutoff, or the capacity out of the source) or the sink is out of reach. */
module EdmondsKarp {
  import opened Wrappers
  import opened Graph
  import opened Sums
  import opened MaximumFlowResidualNetwork
  import opened MaximumFlowValidate

  /** `(INVALID_NODE_ID, INVALID_ARC_ID)`: the predecessor entry of a node
      the search has not reached. */
  const NoPrev: (nat, nat) := (Invalid, Invalid)

  class EdmondsKarp {
    const rn: ResidualNetwork
    var cutoff: Option<int>
    var source: nat

    ghost predicate Valid()
      reads this, rn
    {
      rn.Valid()
    }

    /** `new`: the residual network of the directed graph, no cutoff and no
        source yet. */
    constructor (n: nat, edges: seq<Edge<int>>)
      requires EndpointsIn(edges, n)
      ensures Valid() && fresh(rn) && rn.numNodes == n && rn.edges == edges && rn.directed
      ensures rn.residual == rn.upper && cutoff == None && source == Invalid
    {
      rn := new ResidualNetwork(n, edges, true);
      cutoff := None;
      source := Invalid;
    }

    /** The sizes every search snapshot has. */
    ghost predicate Shaped(res: seq<int>, visited: seq<bool>, prev: seq<(nat, nat)>, ord: seq<nat>)
    {
      rn.Wf() && |res| == 2 * rn.numEdges && |visited| == |prev| == |ord| == rn.numNodes
    }

    /** `prev[x] == (u, a)` names a visited node `u`, numbered (by `ord`, the
        order in which nodes were first popped) before `x`, or before every
        node still to be popped when `x` is not visited yet, and an arc `a`
        out of `u` into `x` with residual capacity. */
    ghost predicate Linked(res: seq<int>, visited: seq<bool>, prev: seq<(nat, nat)>, ord: seq<nat>, cnt: nat, x: nat)
      requires Shaped(res, visited, prev, ord) && x < rn.numNodes
    {
      var u, a := prev[x].0, prev[x].1;
      u < rn.numNodes && visited[u] && ord[u] < (if visited[x] then ord[x] else cnt) &&
      rn.start[u] <= a < rn.start[u + 1] && a < 2 * rn.numEdges && rn.to[a] == x && res[a] > 0
    }

    /** The search tree: visited nodes are numbered below `cnt`, and every
        visited node but `s`, and every queued node but `s`, is `Linked`. */
    ghost predicate Tree(res: seq<int>, visited: seq<bool>, prev: seq<(nat, nat)>, ord: seq<nat>, cnt: nat, s: nat, q: seq<nat>)
      requires Shaped(res, visited, prev, ord)
    {
      (forall x :: 0 <= x < rn.numNodes && visited[x] ==> ord[x] < cnt) &&
      (forall x {:trigger Linked(res, visited, prev, ord, cnt, x)} ::
         0 <= x < rn.numNodes && visited[x] && x != s ==> Linked(res, visited, prev, ord, cnt, x)) &&
      (forall i :: 0 <= i < |q| ==> q[i] < rn.numNodes && (q[i] != s ==> Linked(res, visited, prev, ord, cnt, q[i])))
    }

    /** The queue holds the generation `g` in its first `k` entries and
        generation `g + 1` after them; an entry is visited only if some node
        of a later generation was already popped. `cnt` counts the visited
        nodes. */
    ghost predicate Front(visited: seq<bool>, q: seq<nat>, g: nat, k: nat, cnt: nat)
    {
      k <= |q| && (k > 0 ==> g <= cnt) && (|q| > k ==> g + 1 <= cnt) &&
      cnt + Unvisited(visited) == |visited| &&
      forall i :: 0 <= i < |q| ==> q[i] < |visited| && (visited[q[i]] ==> (if i < k then g else g + 1) < cnt)
    }

    /** Every arc out of `x` below slot `hi` with residual capacity goes to a
        visited or a queued node. */
    ghost predicate Reach(res: seq<int>, visited: seq<bool>, q: seq<nat>, x: nat, hi: nat)
      requires rn.Wf() && |res| == 2 * rn.numEdges && |visited| == rn.numNodes && x < rn.numNodes
    {
      forall b :: rn.start[x] <= b < hi && b < 2 * rn.numEdges && res[b] > 0 ==> visited[rn.to[b]] || rn.to[b] in q
    }

    /** `Reach` for all arcs of every visited node but `skip`. */
    ghost predicate Closed(res: seq<int>, visited: seq<bool>, q: seq<nat>, skip: int)
      requires rn.Wf() && |res| == 2 * rn.numEdges && |visited| == rn.numNodes
    {
      forall x {:trigger Reach(res, visited, q, x, rn.start[x + 1])} ::
        0 <= x < rn.numNodes && visited[x] && x != skip ==> Reach(res, visited, q, x, rn.start[x + 1])
    }

    /** The bfs's pop: the front node `u` is marked visited (numbered `cnt0`
        if it was not yet), which keeps the tree and the generations, leaves
        room for `u`'s pushes in generation `g + 1`, and keeps every other
        visited node's arcs leading to visited or queued nodes. */
    lemma PopOk(res: seq<int>, v0: seq<bool>, prev: seq<(nat, nat)>, ord0: seq<nat>, cnt0: nat, s: nat, q0: seq<nat>,
                g: nat, k: nat, v1: seq<bool>, ord1: seq<nat>, cnt1: nat)
      requires Shaped(res, v0, prev, ord0) && |q0| > 0 && k > 0 && s < rn.numNodes
      requires Tree(res, v0, prev, ord0, cnt0, s, q0) && Front(v0, q0, g, k, cnt0) && Closed(res, v0, q0, -1)
      requires v0[s] || (q0 == [s] && cnt0 == 0)
      requires q0[0] < rn.numNodes && v1 == v0[q0[0] := true]
      requires if v0[q0[0]] then ord1 == ord0 && cnt1 == cnt0 else ord1 == ord0[q0[0] := cnt0] && cnt1 == cnt0 + 1
      ensures Shaped(res, v1, prev, ord1) && v1[s] && g + 1 <= cnt1
      ensures Tree(res, v1, prev, ord1, cnt1, s, q0[1..]) && Front(v1, q0[1..], g, k - 1, cnt1)
      ensures Closed(res, v1, q0[1..], q0[0])
    {
      PopTree(res, v0, prev, ord0, cnt0, s, q0, v1, ord1, cnt1);
      PopFront(v0, q0, g, k, cnt0, v1, cnt1);
      PopClosed(res, v0, q0, v1);
    }

    lemma PopTree(res: seq<int>, v0: seq<bool>, prev: seq<(nat, nat)>, ord0: seq<nat>, cnt0: nat, s: nat, q0: seq<nat>,
                  v1: seq<bool>, ord1: seq<nat>, cnt1: nat)
      requires Shaped(res, v0, prev, ord0) && |q0| > 0 && Tree(res, v0, prev, ord0, cnt0, s, q0)
      requires q0[0] < rn.numNodes && v1 == v0[q0[0] := true]
      requires if v0[q0[0]] then ord1 == ord0 && cnt1 == cnt0 else ord1 == ord0[q0[0] := cnt0] && cnt1 == cnt0 + 1
      ensures Shaped(res, v1, prev, ord1) && Tree(res, v1, prev, ord1, cnt1, s, q0[1..])
    {
      var u, q1 := q0[0], q0[1..];
      forall x | 0 <= x < rn.numNodes && v1[x] && x != s
        ensures Linked(res, v1, prev, ord1, cnt1, x)
      {
        if x == u {
          assert Linked(res, v0, prev, ord0, cnt0, q0[0]);
        } else {
          assert Linked(res, v0, prev, ord0, cnt0, x);
        }
      }
      forall i | 0 <= i < |q1|
        ensures q1[i] < rn.numNodes && (q1[i] != s ==> Linked(res, v1, prev, ord1, cnt1, q1[i]))
      {
        assert q1[i] == q0[i + 1];
        if q1[i] != s && q1[i] != u {
          assert Linked(res, v0, prev, ord0, cnt0, q0[i + 1]);
        }
      }
    }

    lemma PopFront(v0: seq<bool>, q0: seq<nat>, g: nat, k: nat, cnt0: nat, v1: seq<bool>, cnt1: nat)
      requires |q0| > 0 && k > 0 && Front(v0, q0, g, k, cnt0)
      requires v1 == v0[q0[0] := true] && cnt1 == if v0[q0[0]] then cnt0 else cnt0 + 1
      ensures g + 1 <= cnt1 && Front(v1, q0[1..], g, k - 1, cnt1)
    {
      var u, q1 := q0[0], q0[1..];
      if !v0[u] {
        UnvisitedMark(v0, u);
      } else {
        assert v1 == v0;
      }
      forall i | 0 <= i < |q1|
        ensures q1[i] < |v1| && (v1[q1[i]] ==> (if i < k - 1 then g else g + 1) < cnt1)
      {
        assert q1[i] == q0[i + 1];
      }
    }

    lemma PopClosed(res: seq<int>, v0: seq<bool>, q0: seq<nat>, v1: seq<bool>)
      requires rn.Wf() && |res| == 2 * rn.numEdges && |v0| == rn.numNodes && |q0| > 0
      requires Closed(res, v0, q0, -1) && q0[0] < rn.numNodes && v1 == v0[q0[0] := true]
      ensures Closed(res, v1, q0[1..], q0[0])
    {
      var u, q1 := q0[0], q0[1..];
      forall x | 0 <= x < rn.numNodes && v1[x] && x != u
        ensures Reach(res, v1, q1, x, rn.start[x + 1])
      {
        assert Reach(res, v0, q0, x, rn.start[x + 1]);
        forall b | rn.start[x] <= b < rn.start[x + 1] && b < 2 * rn.numEdges && res[b] > 0
          ensures v1[rn.to[b]] || rn.to[b] in q1
        {
          if rn.to[b] in q0 && rn.to[b] != u {
            var i :| 0 <= i < |q0| && q0[i] == rn.to[b];
            assert q1[i - 1] == rn.to[b];
          }
        }
      }
    }

    /** Once the generation `g` is used up, the queue is all generation
        `g + 1`. */
    lemma NextGeneration(visited: seq<bool>, q: seq<nat>, g: nat, cnt: nat)
      requires Front(visited, q, g, 0, cnt)
      ensures Front(visited, q, g + 1, |q|, cnt)
    {
    }

    /** The bfs's scan of `u`'s arcs: each arc with residual capacity into an
        unvisited node queues that node and records `(u, arc)` as its
        predecessor. */
    method Scan(res: seq<int>, u: nat, s: nat, visited: seq<bool>, prev0: seq<(nat, nat)>, q0: seq<nat>,
                ghost ord: seq<nat>, ghost cnt: nat, ghost g: nat, ghost k: nat)
      returns (prev: seq<(nat, nat)>, q: seq<nat>)
      requires Shaped(res, visited, prev0, ord) && u < rn.numNodes && visited[u] && g + 1 <= cnt
      requires forall b :: 0 <= b < |res| ==> res[b] >= 0
      requires Tree(res, visited, prev0, ord, cnt, s, q0) && Front(visited, q0, g, k, cnt) && Closed(res, visited, q0, u)
      ensures Shaped(res, visited, prev, ord)
      ensures Tree(res, visited, prev, ord, cnt, s, q) && Front(visited, q, g, k, cnt) && Closed(res, visited, q, -1)
    {
      var lo, hi := rn.Neighbors(u);
      prev, q := prev0, q0;
      for a := lo to hi
        invariant Shaped(res, visited, prev, ord)
        invariant Tree(res, visited, prev, ord, cnt, s, q) && Front(visited, q, g, k, cnt)
        invariant |q| >= |q0| && q[..|q0|] == q0
        invariant Closed(res, visited, q, u) && Reach(res, visited, q, u, a)
      {
        var t := rn.to[a];
        if visited[t] || res[a] == 0 {
          continue;
        }
        rn.ArcTail(a, u);
        ghost var q1 := q;
        ghost var prev1 := prev;
        q := q + [t];
        prev := prev[t := (u, a)];
        ScanOk(res, u, a, s, visited, prev1, prev, q0, q1, q, ord, cnt, g, k);
      }
    }

    /** Queueing `t` through the arc `a` out of `u` keeps the scan's
        invariants. */
    lemma ScanOk(res: seq<int>, u: nat, a: nat, s: nat, visited: seq<bool>, prev1: seq<(nat, nat)>, prev2: seq<(nat, nat)>,
                 q0: seq<nat>, q1: seq<nat>, q2: seq<nat>, ord: seq<nat>, cnt: nat, g: nat, k: nat)
      requires Shaped(res, visited, prev1, ord) && u < rn.numNodes && visited[u] && g + 1 <= cnt
      requires rn.start[u] <= a < rn.start[u + 1] && a < 2 * rn.numEdges && res[a] > 0 && !visited[rn.to[a]]
      requires Tree(res, visited, prev1, ord, cnt, s, q1) && Front(visited, q1, g, k, cnt)
      requires |q1| >= |q0| && q1[..|q0|] == q0
      requires Closed(res, visited, q1, u) && Reach(res, visited, q1, u, a)
      requires q2 == q1 + [rn.to[a]] && prev2 == prev1[rn.to[a] := (u, a)]
      ensures Shaped(res, visited, prev2, ord)
      ensures Tree(res, visited, prev2, ord, cnt, s, q2) && Front(visited, q2, g, k, cnt)
      ensures |q2| >= |q0| && q2[..|q0|] == q0
      ensures Closed(res, visited, q2, u) && Reach(res, visited, q2, u, a + 1)
    {
      ScanTree(res, u, a, s, visited, prev1, prev2, q1, q2, ord, cnt);
      ScanFront(visited, q1, q2, g, k, cnt);
      assert q2[..|q0|] == q1[..|q0|];
      ScanClosed(res, u, a, visited, q1, q2);
    }

    lemma ScanTree(res: seq<int>, u: nat, a: nat, s: nat, visited: seq<bool>, prev1: seq<(nat, nat)>, prev2: seq<(nat, nat)>,
                   q1: seq<nat>, q2: seq<nat>, ord: seq<nat>, cnt: nat)
      requires Shaped(res, visited, prev1, ord) && u < rn.numNodes && visited[u]
      requires rn.start[u] <= a < rn.start[u + 1] && a < 2 * rn.numEdges && res[a] > 0 && !visited[rn.to[a]]
      requires Tree(res, visited, prev1, ord, cnt, s, q1)
      requires q2 == q1 + [rn.to[a]] && prev2 == prev1[rn.to[a] := (u, a)]
      ensures Shaped(res, visited, prev2, ord) && Tree(res, visited, prev2, ord, cnt, s, q2)
    {
      var t := rn.to[a];
      assert Linked(res, visited, prev2, ord, cnt, t);
      forall x | 0 <= x < rn.numNodes && x != t && Linked(res, visited, prev1, ord, cnt, x)
        ensures Linked(res, visited, prev2, ord, cnt, x)
      {
        LinkedOther(res, visited, prev1, prev2, ord, cnt, t, x);
      }
      forall x | 0 <= x < rn.numNodes && visited[x] && x != s
        ensures Linked(res, visited, prev2, ord, cnt, x)
      {
        assert Linked(res, visited, prev1, ord, cnt, x);
      }
      forall i | 0 <= i < |q2|
        ensures q2[i] < rn.numNodes && (q2[i] != s ==> Linked(res, visited, prev2, ord, cnt, q2[i]))
      {
        if i < |q1| && q2[i] != s && q2[i] != t {
          assert Linked(res, visited, prev1, ord, cnt, q1[i]);
        }
      }
    }

    /** Setting `prev[t]` leaves every other node's link as it was. */
    lemma LinkedOther(res: seq<int>, visited: seq<bool>, prev1: seq<(nat, nat)>, prev2: seq<(nat, nat)>, ord: seq<nat>, cnt: nat,
                      t: nat, x: nat)
      requires Shaped(res, visited, prev1, ord) && |prev2| == |prev1| && t < rn.numNodes && x < rn.numNodes && x != t
      requires prev2[x] == prev1[x] && Linked(res, visited, prev1, ord, cnt, x)
      ensures Linked(res, visited, prev2, ord, cnt, x)
    {
    }

    lemma ScanFront(visited: seq<bool>, q1: seq<nat>, q2: seq<nat>, g: nat, k: nat, cnt: nat)
      requires Front(visited, q1, g, k, cnt) && g + 1 <= cnt
      requires |q2| == |q1| + 1 && q2[..|q1|] == q1 && q2[|q1|] < |visited| && !visited[q2[|q1|]]
      ensures Front(visited, q2, g, k, cnt)
    {
      forall i | 0 <= i < |q2|
        ensures q2[i] < |visited| && (visited[q2[i]] ==> (if i < k then g else g + 1) < cnt)
      {
        if i < |q1| {
          assert q2[i] == q1[i];
        }
      }
    }

    lemma ScanClosed(res: seq<int>, u: nat, a: nat, visited: seq<bool>, q1: seq<nat>, q2: seq<nat>)
      requires rn.Wf() && |res| == 2 * rn.numEdges && |visited| == rn.numNodes && u < rn.numNodes
      requires a < 2 * rn.numEdges && q2 == q1 + [rn.to[a]]
      requires Closed(res, visited, q1, u) && Reach(res, visited, q1, u, a)
      ensures Closed(res, visited, q2, u) && Reach(res, visited, q2, u, a + 1)
    {
      forall x | 0 <= x < rn.numNodes && visited[x] && x != u
        ensures Reach(res, visited, q2, x, rn.start[x + 1])
      {
        assert Reach(res, visited, q1, x, rn.start[x + 1]);
        forall b | rn.start[x] <= b < rn.start[x + 1] && b < 2 * rn.numEdges && res[b] > 0 && !visited[rn.to[b]]
          ensures rn.to[b] in q2
        {
          var i :| 0 <= i < |q1| && q1[i] == rn.to[b];
          assert q2[i] == rn.to[b];
        }
      }
      forall b | rn.start[u] <= b < a + 1 && b < 2 * rn.numEdges && res[b] > 0 && !visited[rn.to[b]]
        ensures rn.to[b] in q2
      {
        if b < a {
          var i :| 0 <= i < |q1| && q1[i] == rn.to[b];
          assert q2[i] == rn.to[b];
        } else {
          assert q2[|q1|] == rn.to[a];
        }
      }
    }

    /** The bfs from `s` in the residuals `res`: `visited` marks the nodes
        popped before the sink (the sink included when it was reached), and
        `prev` links each of them but `s` to its tree parent by an arc with
        residual capacity (`Tree`, with `ord` the popping order). When the
        sink was not reached, the visited nodes form a cut. */
    method Search(res: seq<int>, s: nat, t: nat)
      returns (visited: seq<bool>, prev: seq<(nat, nat)>, ghost ord: seq<nat>, ghost cnt: nat)
      requires rn.Wf() && |res| == 2 * rn.numEdges && s < rn.numNodes && t < rn.numNodes
      requires forall b :: 0 <= b < |res| ==> res[b] >= 0
      ensures Shaped(res, visited, prev, ord) && visited[s]
      ensures Tree(res, visited, prev, ord, cnt, s, [])
      ensures !visited[t] ==> rn.Cut(res, visited, s, t)
    {
      var n := rn.numNodes;
      visited := seq(n, _ => false);
      prev := seq(n, _ => NoPrev);
      ord := seq(n, _ => 0);
      cnt := 0;
      ghost var g: nat := 0;
      ghost var k: nat := 1;
      var q: seq<nat> := [s];
      UnvisitedNone(n);
      while |q| > 0
        invariant Shaped(res, visited, prev, ord) && (|q| > 0 ==> k > 0)
        invariant Tree(res, visited, prev, ord, cnt, s, q) && Front(visited, q, g, k, cnt) && Closed(res, visited, q, -1)
        invariant visited[s] || (q == [s] && cnt == 0)
        invariant !visited[t]
        decreases n + 1 - g, k
      {
        ghost var v0, ord0, cnt0, q0 := visited, ord, cnt, q;
        var u := q[0];
        q := q[1..];
        if !visited[u] {
          ord := ord[u := cnt];
          cnt := cnt + 1;
        }
        visited := visited[u := true];
        PopOk(res, v0, prev, ord0, cnt0, s, q0, g, k, visited, ord, cnt);
        if u == t {
          return;
        }
        prev, q := Scan(res, u, s, visited, prev, q, ord, cnt, g, k - 1);
        k := k - 1;
        if k == 0 {
          NextGeneration(visited, q, g, cnt);
          g, k := g + 1, |q|;
        }
      }
      forall x | 0 <= x < n && visited[x]
        ensures rn.Leads(res, visited, x)
      {
        assert Reach(res, visited, [], x, rn.start[x + 1]);
      }
    }

    /** The tree path's arcs from `s` to `v`. */
    ghost function Chain(res: seq<int>, visited: seq<bool>, prev: seq<(nat, nat)>, ord: seq<nat>, cnt: nat, s: nat, v: nat): (p: seq<nat>)
      requires Shaped(res, visited, prev, ord) && Tree(res, visited, prev, ord, cnt, s, []) && v < rn.numNodes && visited[v]
      ensures forall i :: 0 <= i < |p| ==> p[i] < 2 * rn.numEdges
      decreases ord[v]
    {
      if v == s then []
      else
        assert Linked(res, visited, prev, ord, cnt, v);
        Chain(res, visited, prev, ord, cnt, s, prev[v].0) + [prev[v].1]
    }

    /** The tree path's nodes from `s` to `v`. */
    ghost function ChainNodes(res: seq<int>, visited: seq<bool>, prev: seq<(nat, nat)>, ord: seq<nat>, cnt: nat, s: nat, v: nat): seq<nat>
      requires Shaped(res, visited, prev, ord) && Tree(res, visited, prev, ord, cnt, s, []) && v < rn.numNodes && visited[v]
      decreases ord[v]
    {
      if v == s then [s]
      else
        assert Linked(res, visited, prev, ord, cnt, v);
        ChainNodes(res, visited, prev, ord, cnt, s, prev[v].0) + [v]
    }

    /** The tree path to `v` goes from `s` to `v` through visited nodes in
        increasing popping order (so no node twice), each arc with residual
        capacity and recorded as its head's `prev`. */
    ghost predicate ChainOk(res: seq<int>, prev: seq<(nat, nat)>, visited: seq<bool>, ord: seq<nat>, s: nat, v: nat, p: seq<nat>, nodes: seq<nat>)
      requires Shaped(res, visited, prev, ord)
    {
      |nodes| == |p| + 1 && nodes[0] == s && nodes[|p|] == v &&
      (forall i :: 0 <= i <= |p| ==> nodes[i] < rn.numNodes && visited[nodes[i]]) &&
      (forall i :: 0 <= i < |p| ==>
         p[i] < 2 * rn.numEdges && rn.to[rn.rev[p[i]]] == nodes[i] && rn.to[p[i]] == nodes[i + 1] &&
         res[p[i]] > 0 && prev[nodes[i + 1]] == (nodes[i], p[i])) &&
      (forall i, j :: 0 <= i < j <= |p| ==> ord[nodes[i]] < ord[nodes[j]])
    }

    lemma {:induction false} ChainShape(res: seq<int>, visited: seq<bool>, prev: seq<(nat, nat)>, ord: seq<nat>, cnt: nat, s: nat, v: nat)
      requires Shaped(res, visited, prev, ord) && Tree(res, visited, prev, ord, cnt, s, []) && v < rn.numNodes && visited[v]
      ensures ChainOk(res, prev, visited, ord, s, v, Chain(res, visited, prev, ord, cnt, s, v), ChainNodes(res, visited, prev, ord, cnt, s, v))
      decreases ord[v]
    {
      if v != s {
        assert Linked(res, visited, prev, ord, cnt, v);
        var u := prev[v].0;
        ChainShape(res, visited, prev, ord, cnt, s, u);
        rn.ArcTail(prev[v].1, u);
        ChainExtend(res, prev, visited, ord, s, u, v, Chain(res, visited, prev, ord, cnt, s, u), ChainNodes(res, visited, prev, ord, cnt, s, u));
      }
    }

    /** A tree path to `u` extended by the tree arc from `u` to `v`. */
    lemma ChainExtend(res: seq<int>, prev: seq<(nat, nat)>, visited: seq<bool>, ord: seq<nat>, s: nat, u: nat, v: nat,
                      p0: seq<nat>, n0: seq<nat>)
      requires Shaped(res, visited, prev, ord) && ChainOk(res, prev, visited, ord, s, u, p0, n0)
      requires v < rn.numNodes && visited[v] && prev[v].0 == u && ord[u] < ord[v]
      requires prev[v].1 < 2 * rn.numEdges && rn.to[rn.rev[prev[v].1]] == u && rn.to[prev[v].1] == v && res[prev[v].1] > 0
      ensures ChainOk(res, prev, visited, ord, s, v, p0 + [prev[v].1], n0 + [v])
    {
      var p, nodes := p0 + [prev[v].1], n0 + [v];
      assert forall i :: 0 <= i < |p0| ==> p[i] == p0[i];
      assert forall i :: 0 <= i <= |p0| ==> nodes[i] == n0[i];
      forall i, j | 0 <= i < j <= |p|
        ensures ord[nodes[i]] < ord[nodes[j]]
      {
        if j == |p| && i < |p0| {
          assert ord[n0[i]] < ord[n0[|p0|]];
        }
      }
    }

    /** The smallest residual along the tree path to `t`, and `residual`: the
        `calculate delta` walk from the sink back to the source. */
    method Bottleneck(res: seq<int>, prev: seq<(nat, nat)>, s: nat, t: nat, residual: int,
                      ghost visited: seq<bool>, ghost ord: seq<nat>, ghost cnt: nat, ghost p: seq<nat>)
      returns (delta: int)
      requires Shaped(res, visited, prev, ord) && Tree(res, visited, prev, ord, cnt, s, [])
      requires t < rn.numNodes && visited[t] && s != t && residual > 0
      requires p == Chain(res, visited, prev, ord, cnt, s, t)
      ensures 0 < delta <= residual && forall i :: 0 <= i < |p| ==> delta <= res[p[i]]
      ensures delta == residual || exists i :: 0 <= i < |p| && delta == res[p[i]]
    {
      ChainShape(res, visited, prev, ord, cnt, s, t);
      ghost var nodes := ChainNodes(res, visited, prev, ord, cnt, s, t);
      assert |p| > 0 && prev[nodes[|p|]] == (nodes[|p| - 1], p[|p| - 1]);
      delta := Min(res[prev[t].1], residual);
      var v := t;
      ghost var k := |p|;
      while v != s
        invariant 0 <= k <= |p| && v == nodes[k] && 0 < delta <= residual && delta <= res[p[|p| - 1]]
        invariant forall i :: k <= i < |p| ==> delta <= res[p[i]]
        invariant delta == residual || exists i :: 0 <= i < |p| && delta == res[p[i]]
        decreases k
      {
        if k == 0 {
          assert false;
        }
        var u, a := prev[v].0, prev[v].1;
        assert u == nodes[k - 1] && a == p[k - 1];
        delta := Min(delta, res[a]);
        v := u;
        k := k - 1;
      }
    }

    /** The `update flow` walk: pushes `delta` along every arc of the tree
        path to `t`, from the sink back to the source. */
    method Augment(prev: seq<(nat, nat)>, s: nat, t: nat, delta: int,
                   ghost res0: seq<int>, ghost visited: seq<bool>, ghost ord: seq<nat>, ghost cnt: nat, ghost p: seq<nat>)
      requires Valid() && rn.residual == res0 && Feasible(res0, rn.upper, rn.rev)
      requires Shaped(res0, visited, prev, ord) && Tree(res0, visited, prev, ord, cnt, s, [])
      requires t < rn.numNodes && visited[t] && s != t && delta > 0
      requires p == Chain(res0, visited, prev, ord, cnt, s, t) && forall i :: 0 <= i < |p| ==> delta <= res0[p[i]]
      modifies rn
      ensures Valid() && Feasible(rn.residual, rn.upper, rn.rev)
      ensures rn.excesses == old(rn.excesses) && rn.distances == old(rn.distances)
      ensures rn.PathFrom(p, s, t) && rn.residual == rn.PushPath(res0, p, delta)
    {
      ChainShape(res0, visited, prev, ord, cnt, s, t);
      ghost var nodes := ChainNodes(res0, visited, prev, ord, cnt, s, t);
      rn.PathOfNodes(p, nodes);
      assert Walk(p, nodes, ord);
      var v := t;
      ghost var k := |p|;
      assert p[k..] == [];
      while v != s
        invariant 0 <= k <= |p| && v == nodes[k] && Valid()
        invariant rn.excesses == old(rn.excesses) && rn.distances == old(rn.distances)
        invariant Pushing(res0, p, k, delta, rn.residual)
        decreases k
      {
        if k == 0 {
          assert false;
        }
        var u, a := prev[v].0, prev[v].1;
        assert u == nodes[k - 1] && a == p[k - 1] && delta <= res0[p[k - 1]];
        AugmentStep(res0, p, nodes, ord, k, delta, rn.residual);
        rn.PushFlowWithoutExcess(u, a, delta);
        v := u;
        k := k - 1;
      }
      assert p[k..] == p;
    }

    /** Arc `p[i]` goes from `nodes[i]` to `nodes[i + 1]`, and the nodes come
        in increasing popping order. */
    ghost predicate Walk(p: seq<nat>, nodes: seq<nat>, ord: seq<nat>)
      requires rn.Wf()
    {
      |nodes| == |p| + 1 && |ord| == rn.numNodes &&
      (forall i :: 0 <= i < |p| ==> p[i] < 2 * rn.numEdges && rn.to[rn.rev[p[i]]] == nodes[i] && rn.to[p[i]] == nodes[i + 1]) &&
      (forall i :: 0 <= i <= |p| ==> nodes[i] < rn.numNodes) &&
      (forall i, j :: 0 <= i < j <= |p| ==> ord[nodes[i]] < ord[nodes[j]])
    }

    /** Halfway through the walk: `delta` has been pushed along the arcs of
        `p` from `k` on, the residuals are feasible, and the arcs before `k`
        still have their residuals from `res0`. */
    ghost predicate Pushing(res0: seq<int>, p: seq<nat>, k: nat, delta: int, res: seq<int>)
      requires rn.Wf() && |res0| == 2 * rn.numEdges && k <= |p| && forall i :: 0 <= i < |p| ==> p[i] < 2 * rn.numEdges
    {
      res == rn.PushPath(res0, p[k..], delta) && Feasible(res, rn.upper, rn.rev) &&
      forall j :: 0 <= j < k ==> res[p[j]] == res0[p[j]]
    }

    /** Pushing along the tree arc `p[k - 1]` extends the pushed suffix, keeps
        the residuals feasible, and leaves the arcs before it alone: their
        tails come earlier on the path than the tail of `p[k - 1]` and than
        the tail of its reverse. */
    lemma AugmentStep(res0: seq<int>, p: seq<nat>, nodes: seq<nat>, ord: seq<nat>, k: nat, delta: int, res: seq<int>)
      requires rn.Wf() && |res0| == 2 * rn.numEdges && 0 < k <= |p| && Walk(p, nodes, ord)
      requires Pushing(res0, p, k, delta, res) && 0 < delta <= res0[p[k - 1]]
      ensures Pushing(res0, p, k - 1, delta, Pushed(res, rn.rev, p[k - 1], delta))
    {
      var a := p[k - 1];
      assert p[k - 1..][1..] == p[k..];
      PushedFeasible(res, rn.upper, rn.rev, a, delta);
      assert rn.to[rn.rev[rn.rev[a]]] == nodes[k];
      forall j | 0 <= j < k - 1
        ensures p[j] != a && p[j] != rn.rev[a]
      {
        assert ord[nodes[j]] < ord[nodes[k - 1]] < ord[nodes[k]];
      }
    }

    /** `run`: rejects bad terminals with `BadInput` before changing
        anything. Otherwise it records the source, takes as bound the cutoff
        or else the capacity out of the source, and augments along the bfs
        tree paths from the residuals it finds (a previous run's included).
        The value returned is never above a positive bound and is 0 for any
        other; it is the flow it added out of the source and into the sink,
        every other node conserves flow, and the residuals stay feasible.
        Unless the bound was reached, the nodes the last search visited form
        a cut that no residual path crosses. */
    method Run(s: nat, t: nat) returns (r: Result<int, Status>)
      requires Valid() && Feasible(rn.residual, rn.upper, rn.rev)
      modifies this, rn
      ensures Valid() && cutoff == old(cutoff) && Feasible(rn.residual, rn.upper, rn.rev)
      ensures r.Err? <==> !ValidTerminals(rn.numNodes, s, t)
      ensures r.Err? ==> r.error == BadInput && unchanged(this) && unchanged(rn)
      ensures r.Ok? ==> source == s && rn.excesses == old(rn.excesses) && rn.distances == old(rn.distances)
      ensures r.Ok? ==> forall x :: 0 <= x < rn.numNodes ==>
                rn.OutRes(rn.residual, x) == rn.OutRes(old(rn.residual), x) - (if x == s then r.value else 0) + (if x == t then r.value else 0)
      ensures r.Ok? ==> var bound := if cutoff.Some? then cutoff.value else rn.OutRes(rn.upper, s);
                (bound <= 0 ==> r.value == 0) && (bound > 0 ==> 0 <= r.value <= bound) &&
                (r.value < bound ==> exists inside :: rn.Cut(rn.residual, inside, s, t))
    {
      var check := ValidateInput(rn.numNodes, s, t);
      if check.Err? {
        return Err(check.error);
      }
      source := s;
      var residual: int;
      if cutoff.Some? {
        residual := cutoff.value;
      } else {
        residual := rn.NeighborSum(s, rn.upper);
      }
      ghost var bound := residual;
      ghost var res00 := rn.residual;
      var flow := 0;
      while residual > 0
        invariant Valid() && cutoff == old(cutoff) && source == s && Feasible(rn.residual, rn.upper, rn.rev)
        invariant rn.excesses == old(rn.excesses) && rn.distances == old(rn.distances)
        invariant flow + residual == bound && flow >= 0 && (bound > 0 ==> residual >= 0) && (bound <= 0 ==> flow == 0)
        invariant forall x :: 0 <= x < rn.numNodes ==>
                    rn.OutRes(rn.residual, x) == rn.OutRes(res00, x) - (if x == s then flow else 0) + (if x == t then flow else 0)
        decreases residual
      {
        ghost var res0 := rn.residual;
        var visited, prev, ord, cnt := Search(rn.residual, s, t);
        if !visited[t] {
          return Ok(flow);
        }
        ghost var p := Chain(res0, visited, prev, ord, cnt, s, t);
        var delta := Bottleneck(rn.residual, prev, s, t, residual, visited, ord, cnt, p);
        Augment(prev, s, t, delta, res0, visited, ord, cnt, p);
        forall x | 0 <= x < rn.numNodes
          ensures rn.OutRes(rn.residual, x) == rn.OutRes(res0, x) - (if x == s then delta else 0) + (if x == t then delta else 0)
        {
          rn.PushPathOut(res0, p, delta, s, t, x);
        }
        flow := flow + delta;
        residual := residual - delta;
      }
      return Ok(flow);
    }
  }
}
