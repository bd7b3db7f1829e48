/** Edmonds' algorithm for a maximum-weight branching of a directed graph.
    Every node picks its costliest positive entering edge (its critical
    edge); when those edges close no cycle they are the answer, otherwise
    every cycle is contracted to one node, entering edges are reweighted,
    the smaller graph is solved recursively and the cycles are expanded
    again. The sentinel `usize::MAX` of `edmonds.rs` (no tail, no component,
    no stamp, no edge id) is `None` here, and so is the sentinel
    `W::max_value()` of the cheapest cycle edge. The result is proved to be a
    branching with the sum of its weights as cost; that it is of maximum
    weight is proved only when the critical edges close no cycle. */
module EdmondsBranching {
  import opened Wrappers
  import Graph
  import Sums

  /** An edge of one level of the recursion: the id of the input edge it
      stands for, its tail, its head and its (reweighted) cost. */
  datatype Edge = Edge(id: nat, from: nat, to: nat, cost: int)

  /** An entry of `critical_edge`: the tail, cost and edge id of a node's
      critical edge, the tail `None` when it has none. */
  datatype Critical = Critical(from: Option<nat>, cost: int, id: nat)

  /** The initial entry `(usize::MAX, 0, EdgeId(0))`. */
  const NoCritical := Critical(None, 0, 0)

  /** Every edge joins two of the `n` nodes and names one of the `numIds`
      input edges. */
  ghost predicate EdgesIn(edges: seq<Edge>, n: nat, numIds: nat)
  {
    forall i :: 0 <= i < |edges| ==> edges[i].from < n && edges[i].to < n && edges[i].id < numIds
  }

  /** An edge that can be critical: no self-loop, positive cost. */
  predicate Eligible(e: Edge)
  {
    e.from != e.to && e.cost > 0
  }

  /** The critical edge of `v` among `edges`: the first of the costliest
      eligible edges into `v`, or none. */
  function BestInto(edges: seq<Edge>, v: nat): Critical
  {
    if |edges| == 0 then NoCritical
    else
      var c := BestInto(edges[..|edges| - 1], v);
      var e := edges[|edges| - 1];
      if Eligible(e) && e.to == v && e.cost > c.cost then Critical(Some(e.from), e.cost, e.id) else c
  }

  /** The critical edge is an eligible edge into `v` of the largest cost,
      the first such; without an eligible edge into `v` there is none. */
  lemma {:induction false} BestIntoIsMax(edges: seq<Edge>, v: nat)
    ensures BestInto(edges, v).from.None? ==> BestInto(edges, v) == NoCritical
    ensures BestInto(edges, v).from.None? <==> forall i :: 0 <= i < |edges| ==> !(Eligible(edges[i]) && edges[i].to == v)
    ensures BestInto(edges, v).from.Some? ==>
              exists i :: 0 <= i < |edges| && Eligible(edges[i]) && edges[i].to == v
                && BestInto(edges, v) == Critical(Some(edges[i].from), edges[i].cost, edges[i].id)
                && forall j :: 0 <= j < i && Eligible(edges[j]) && edges[j].to == v ==> edges[j].cost < edges[i].cost
    ensures forall i :: 0 <= i < |edges| && Eligible(edges[i]) && edges[i].to == v ==> edges[i].cost <= BestInto(edges, v).cost
  {
    if |edges| > 0 {
      var n := |edges| - 1;
      var pre := edges[..n];
      assert forall i :: 0 <= i < n ==> pre[i] == edges[i];
      BestIntoIsMax(pre, v);
    }
  }

  /** The critical edge of `v` comes from `v`'s own edges: its tail is
      another node and its cost is positive. */
  lemma BestIntoProper(edges: seq<Edge>, n: nat, numIds: nat, v: nat)
    requires EdgesIn(edges, n, numIds)
    ensures BestInto(edges, v).from.Some? ==>
              BestInto(edges, v).from.value < n && BestInto(edges, v).from.value != v
              && BestInto(edges, v).cost > 0 && BestInto(edges, v).id < numIds
  {
    BestIntoIsMax(edges, v);
  }

  /** `edge_id_to_node` after `edges`: every eligible edge's id maps to its
      head, the last such edge winning. */
  function IdToNode(edges: seq<Edge>, numIds: nat): (r: seq<Option<nat>>)
    requires forall i :: 0 <= i < |edges| ==> edges[i].id < numIds
    ensures |r| == numIds
  {
    if |edges| == 0 then seq(numIds, _ => None)
    else
      var e := edges[|edges| - 1];
      var r := IdToNode(edges[..|edges| - 1], numIds);
      if Eligible(e) then r[e.id := Some(e.to)] else r
  }

  /** An edge id maps to a node exactly when an eligible edge has that id,
      and then to the head of one. */
  lemma {:induction false} IdToNodeHeads(edges: seq<Edge>, numIds: nat, id: nat)
    requires forall i :: 0 <= i < |edges| ==> edges[i].id < numIds
    requires id < numIds
    ensures IdToNode(edges, numIds)[id].Some? <==> exists i :: 0 <= i < |edges| && Eligible(edges[i]) && edges[i].id == id
    ensures IdToNode(edges, numIds)[id].Some? ==>
              exists i :: 0 <= i < |edges| && Eligible(edges[i]) && edges[i].id == id && edges[i].to == IdToNode(edges, numIds)[id].value
  {
    if |edges| > 0 {
      var n := |edges| - 1;
      var pre := edges[..n];
      assert forall i :: 0 <= i < n ==> pre[i] == edges[i];
      IdToNodeHeads(pre, numIds, id);
    }
  }

  /** The first loop of `maximum_branching`: every node's critical edge,
      and the head each eligible edge's id leads to. */
  method CriticalEdges(n: nat, numIds: nat, edges: seq<Edge>) returns (critical: seq<Critical>, idToNode: seq<Option<nat>>)
    requires EdgesIn(edges, n, numIds)
    ensures |critical| == n && forall v :: 0 <= v < n ==> critical[v] == BestInto(edges, v)
    ensures idToNode == IdToNode(edges, numIds)
  {
    critical := seq(n, _ => NoCritical);
    idToNode := seq(numIds, _ => None);
    for i := 0 to |edges|
      invariant |critical| == n && forall v :: 0 <= v < n ==> critical[v] == BestInto(edges[..i], v)
      invariant idToNode == IdToNode(edges[..i], numIds)
    {
      assert edges[..i + 1][..i] == edges[..i];
      var e := edges[i];
      if e.from == e.to || e.cost <= 0 {
        continue;
      }
      if e.cost > critical[e.to].cost {
        critical := critical[e.to := Critical(Some(e.from), e.cost, e.id)];
      }
      idToNode := idToNode[e.id := Some(e.to)];
    }
    assert edges[..|edges|] == edges;
  }

  /** Every critical tail is another node. */
  ghost predicate Tails(critical: seq<Critical>)
  {
    forall v :: 0 <= v < |critical| && critical[v].from.Some? ==> critical[v].from.value < |critical| && critical[v].from.value != v
  }

  /** Where `k` steps along critical edges (from head to tail) lead from
      `u`; `None` once a node without a critical edge is passed. */
  function Walk(critical: seq<Critical>, u: nat, k: nat): (r: Option<nat>)
    requires Tails(critical) && u < |critical|
    ensures r.Some? ==> r.value < |critical|
  {
    if k == 0 then Some(u)
    else
      match Walk(critical, u, k - 1)
      case None => None
      case Some(y) => critical[y].from
  }

  /** `a` steps and then `b` steps are `a + b` steps. */
  lemma {:induction false} WalkAdd(critical: seq<Critical>, u: nat, a: nat, b: nat)
    requires Tails(critical) && u < |critical|
    ensures Walk(critical, u, a + b) == (match Walk(critical, u, a) case None => None case Some(y) => Walk(critical, y, b))
    decreases b
  {
    if b > 0 {
      WalkAdd(critical, u, a, b - 1);
    }
  }

  /** A walk that has fallen off stays off. */
  lemma {:induction false} WalkStaysOff(critical: seq<Critical>, u: nat, k: nat, k': nat)
    requires Tails(critical) && u < |critical| && k <= k' && Walk(critical, u, k).None?
    ensures Walk(critical, u, k').None?
    decreases k'
  {
    if k < k' {
      WalkStaysOff(critical, u, k, k' - 1);
    }
  }

  /** `u` lies on a cycle of critical edges. */
  ghost predicate OnCycle(critical: seq<Critical>, u: nat)
    requires Tails(critical) && u < |critical|
  {
    exists len: nat :: len > 0 && Walk(critical, u, len) == Some(u)
  }

  /** A walk from a node on a cycle never falls off. */
  lemma {:induction false} CycleWalk(critical: seq<Critical>, u: nat, len: nat, k: nat)
    requires Tails(critical) && u < |critical| && len > 0 && Walk(critical, u, len) == Some(u)
    ensures Walk(critical, u, k).Some?
    decreases k
  {
    if k < len {
      if Walk(critical, u, k).None? {
        WalkStaysOff(critical, u, k, len);
      }
    } else {
      WalkAdd(critical, u, len, k - len);
      CycleWalk(critical, u, len, k - len);
    }
  }

  /** The walk from `u` ends, after `k` steps, off the critical edges or at
      a node already given a component. */
  ghost predicate EndsAt(critical: seq<Critical>, ids: seq<Option<nat>>, u: nat, k: nat)
    requires Tails(critical) && u < |critical| && |ids| == |critical|
  {
    Walk(critical, u, k).None? || ids[Walk(critical, u, k).value].Some?
  }

  /** The walk from `u` falls off the critical edges or reaches a cycle
      found. */
  ghost predicate Settled(critical: seq<Critical>, ids: seq<Option<nat>>, u: nat)
    requires Tails(critical) && u < |critical| && |ids| == |critical|
  {
    exists k: nat :: EndsAt(critical, ids, u, k)
  }

  /** Component `c` has a node. */
  ghost predicate Inhabited(ids: seq<Option<nat>>, c: nat)
  {
    exists x :: 0 <= x < |ids| && ids[x] == Some(c)
  }

  /** The components found so far: each node given one has its critical
      tail in the same one, and the `numCycles` components are all
      inhabited. */
  ghost predicate CycleIds(critical: seq<Critical>, ids: seq<Option<nat>>, numCycles: nat)
  {
    && |ids| == |critical|
    && (forall x :: 0 <= x < |ids| && ids[x].Some? ==>
          ids[x].value < numCycles && critical[x].from.Some? && critical[x].from.value < |ids| && ids[critical[x].from.value] == ids[x])
    && (forall c :: 0 <= c < numCycles ==> Inhabited(ids, c))
  }

  /** `ids` only gained components since `ids0`. */
  ghost predicate Grown(ids0: seq<Option<nat>>, ids: seq<Option<nat>>)
  {
    |ids| == |ids0| && forall x :: 0 <= x < |ids0| && ids0[x].Some? ==> ids[x] == ids0[x]
  }

  /** A settled node stays settled as components are added. */
  lemma SettledGrown(critical: seq<Critical>, ids0: seq<Option<nat>>, ids: seq<Option<nat>>, u: nat)
    requires Tails(critical) && u < |critical| && |ids0| == |critical| && Grown(ids0, ids) && Settled(critical, ids0, u)
    ensures Settled(critical, ids, u)
  {
    var k: nat :| EndsAt(critical, ids0, u, k);
    assert EndsAt(critical, ids, u, k);
  }

  /** Every node given a component lies on a cycle of critical edges. */
  ghost predicate OnCycles(critical: seq<Critical>, ids: seq<Option<nat>>)
    requires Tails(critical) && |ids| == |critical|
  {
    forall x :: 0 <= x < |ids| && ids[x].Some? ==> OnCycle(critical, x)
  }

  /** `path` follows critical edges: each node's tail is the next one. */
  ghost predicate Linked(critical: seq<Critical>, path: seq<nat>)
  {
    && (forall k :: 0 <= k < |path| ==> path[k] < |critical|)
    && (forall k :: 0 <= k < |path| - 1 ==> critical[path[k]].from == Some(path[k + 1]))
  }

  /** No node occurs twice in `path`. */
  ghost predicate Distinct(path: seq<nat>)
  {
    forall k, l :: 0 <= k < l < |path| ==> path[k] != path[l]
  }

  /** Following `t` critical edges from `path[k]` reaches `path[k + t]`. */
  lemma {:induction false} PathWalk(critical: seq<Critical>, path: seq<nat>, k: nat, t: nat)
    requires Tails(critical) && Linked(critical, path) && k + t < |path|
    ensures Walk(critical, path[k], t) == Some(path[k + t])
    decreases t
  {
    if t > 0 {
      PathWalk(critical, path, k, t - 1);
    }
  }

  /** Every node on the loop part of a path that closes at `path[i]` is on
      a cycle. */
  lemma LoopOnCycle(critical: seq<Critical>, path: seq<nat>, i: nat, k: nat)
    requires Tails(critical) && Linked(critical, path) && i <= k < |path|
    requires critical[path[|path| - 1]].from == Some(path[i])
    ensures OnCycle(critical, path[k])
  {
    var n := |path|;
    PathWalk(critical, path, k, n - 1 - k);
    WalkAdd(critical, path[k], n - 1 - k, 1);
    assert Walk(critical, path[k], n - k) == Some(path[i]);
    PathWalk(critical, path, i, k - i);
    WalkAdd(critical, path[k], n - k, k - i);
    assert Walk(critical, path[k], n - i) == Some(path[k]);
  }

  /** The `while` walk of the stamp loop from `u`: stamps every node it
      passes with `u` and stops at the end of the critical edges, at a node
      stamped `u` or at one already given a component. */
  method StampWalk(critical: seq<Critical>, ids: seq<Option<nat>>, stamp0: seq<Option<nat>>, u: nat)
      returns (v: Option<nat>, stamp: seq<Option<nat>>, ghost path: seq<nat>)
    requires Tails(critical) && |ids| == |critical| && |stamp0| == |critical| && u < |critical|
    requires forall x :: 0 <= x < |stamp0| && stamp0[x].Some? ==> stamp0[x].value < u
    ensures |stamp| == |critical| && forall x :: 0 <= x < |stamp| && stamp[x].Some? ==> stamp[x].value <= u
    ensures Walked(critical, ids, u, path, v)
    ensures forall x :: 0 <= x < |stamp| ==> (stamp[x] == Some(u) <==> x in path)
    ensures v.None? || stamp[v.value] == Some(u) || ids[v.value].Some?
  {
    v, stamp, path := Some(u), stamp0, [];
    while v.Some? && stamp[v.value] != Some(u) && ids[v.value].None?
      invariant |stamp| == |critical| && forall x :: 0 <= x < |stamp| && stamp[x].Some? ==> stamp[x].value <= u
      invariant Walked(critical, ids, u, path, v)
      invariant forall x :: 0 <= x < |stamp| ==> (stamp[x] == Some(u) <==> x in path)
      decreases set x | 0 <= x < |stamp| && stamp[x] != Some(u)
    {
      var x := v.value;
      ghost var before := set y | 0 <= y < |stamp| && stamp[y] != Some(u);
      WalkedStep(critical, ids, u, path, x);
      stamp := stamp[x := Some(u)];
      path := path + [x];
      v := critical[x].from;
      assert x in before;
    }
  }

  /** What the stamp walk from `u` has done: `path` starts at `u`, follows
      critical edges through nodes without a component and never repeats
      a node, and `v` is where the next step leads. */
  ghost predicate Walked(critical: seq<Critical>, ids: seq<Option<nat>>, u: nat, path: seq<nat>, v: Option<nat>)
  {
    && Linked(critical, path) && Distinct(path)
    && (forall k :: 0 <= k < |path| ==> path[k] < |ids| && ids[path[k]].None?)
    && (if |path| == 0 then v == Some(u) else path[0] == u && critical[path[|path| - 1]].from == v)
  }

  /** One step of the stamp walk. */
  lemma WalkedStep(critical: seq<Critical>, ids: seq<Option<nat>>, u: nat, path: seq<nat>, x: nat)
    requires Walked(critical, ids, u, path, Some(x)) && x < |critical| && x < |ids| && ids[x].None? && x !in path
    ensures Walked(critical, ids, u, path + [x], critical[x].from)
  {
    var p := path + [x];
    assert forall k :: 0 <= k < |path| ==> p[k] == path[k];
  }

  /** The stamp walk from `u` is the walk from `u`. */
  lemma WalkedWalk(critical: seq<Critical>, ids: seq<Option<nat>>, u: nat, path: seq<nat>, v: Option<nat>)
    requires Tails(critical) && u < |critical| && Walked(critical, ids, u, path, v)
    ensures v == Walk(critical, u, |path|)
  {
    if |path| > 0 {
      PathWalk(critical, path, 0, |path| - 1);
    }
  }

  /** `y` is one of `path[i..j]`. */
  ghost predicate OnPath(path: seq<nat>, i: nat, j: nat, y: nat)
  {
    exists k :: i <= k < j && k < |path| && path[k] == y
  }

  /** The cycle-marking walk of the stamp loop: gives the cycle through
      `x`, which closes the path just walked, the new component
      `numCycles0`. */
  method MarkCycle(critical: seq<Critical>, ids0: seq<Option<nat>>, numCycles0: nat, x: nat, ghost path: seq<nat>, ghost i: nat)
      returns (ids: seq<Option<nat>>, numCycles: nat)
    requires Tails(critical) && CycleIds(critical, ids0, numCycles0) && OnCycles(critical, ids0)
    requires Linked(critical, path) && Distinct(path) && i < |path| && path[i] == x
    requires critical[path[|path| - 1]].from == Some(x)
    requires forall k :: 0 <= k < |path| ==> ids0[path[k]].None?
    requires Connected(critical, ids0)
    ensures CycleIds(critical, ids, numCycles) && OnCycles(critical, ids) && Grown(ids0, ids)
    ensures Connected(critical, ids)
    ensures numCycles == numCycles0 + 1 && ids[x] == Some(numCycles0)
  {
    var c := numCycles0;
    ids := MarkPath(critical, ids0, c, x, path, i);
    numCycles := c + 1;
    MarkedCycle(critical, ids0, ids, c, x, path, i);
    MarkedConnected(critical, ids0, ids, c, path, i);
  }

  /** The `while w != v` walk round the cycle through `x`: gives its nodes,
      the loop part of `path`, component `c`. */
  method MarkPath(critical: seq<Critical>, ids0: seq<Option<nat>>, c: nat, x: nat, ghost path: seq<nat>, ghost i: nat)
      returns (ids: seq<Option<nat>>)
    requires |ids0| == |critical| && Linked(critical, path) && Distinct(path) && i < |path| && path[i] == x
    requires critical[path[|path| - 1]].from == Some(x)
    ensures Marking(ids0, ids, path, i, |path|, c)
  {
    var w := critical[x].from;
    ids := ids0[x := Some(c)];
    ghost var j := i + 1;
    while w != Some(x)
      invariant i < j <= |path|
      invariant w == if j < |path| then Some(path[j]) else Some(x)
      invariant Marking(ids0, ids, path, i, j, c)
      decreases |path| - j
    {
      MarkingStep(ids0, ids, path, i, j, c);
      ids := ids[w.value := Some(c)];
      w := critical[w.value].from;
      j := j + 1;
    }
  }

  /** Some number of critical steps lead from `y` to `z`. */
  ghost predicate Reaches(critical: seq<Critical>, y: nat, z: nat)
    requires Tails(critical) && y < |critical|
  {
    exists k: nat :: Walk(critical, y, k) == Some(z)
  }

  /** Within every component found so far each node reaches every other. */
  ghost predicate Connected(critical: seq<Critical>, ids: seq<Option<nat>>)
    requires Tails(critical) && |ids| == |critical|
  {
    forall y, z :: 0 <= y < |ids| && 0 <= z < |ids| && ids[y].Some? && ids[z] == ids[y] ==> Reaches(critical, y, z)
  }

  /** On the loop part of a path closing at `path[i]` every node reaches
      every other. */
  lemma ReachesOnLoop(critical: seq<Critical>, path: seq<nat>, i: nat, a: nat, b: nat)
    requires Tails(critical) && Linked(critical, path) && i <= a < |path| && i <= b < |path|
    requires critical[path[|path| - 1]].from == Some(path[i])
    ensures Reaches(critical, path[a], path[b])
  {
    var n := |path|;
    if a <= b {
      PathWalk(critical, path, a, b - a);
      assert Walk(critical, path[a], b - a) == Some(path[b]);
    } else {
      PathWalk(critical, path, a, n - 1 - a);
      WalkAdd(critical, path[a], n - 1 - a, 1);
      assert Walk(critical, path[a], n - a) == Some(path[i]);
      PathWalk(critical, path, i, b - i);
      WalkAdd(critical, path[a], n - a, b - i);
      assert Walk(critical, path[a], n - a + (b - i)) == Some(path[b]);
    }
  }

  /** Marking a cycle keeps every component connected. */
  lemma MarkedConnected(critical: seq<Critical>, ids0: seq<Option<nat>>, ids: seq<Option<nat>>, c: nat, path: seq<nat>, i: nat)
    requires Tails(critical) && |ids0| == |critical| && Connected(critical, ids0)
    requires forall x :: 0 <= x < |ids0| && ids0[x].Some? ==> ids0[x].value < c
    requires Linked(critical, path) && i < |path| && critical[path[|path| - 1]].from == Some(path[i])
    requires Marking(ids0, ids, path, i, |path|, c)
    ensures Connected(critical, ids)
  {
    forall y, z | 0 <= y < |ids| && 0 <= z < |ids| && ids[y].Some? && ids[z] == ids[y]
      ensures Reaches(critical, y, z)
    {
      if ids[y] == Some(c) {
        assert ids[y] != ids0[y] && ids[z] != ids0[z];
        var a :| i <= a < |path| && a < |path| && path[a] == y;
        var b :| i <= b < |path| && b < |path| && path[b] == z;
        ReachesOnLoop(critical, path, i, a, b);
      } else {
        assert ids[y] == ids0[y] && ids[z] == ids0[z];
      }
    }
  }

  /** The cycle marking after `path[i..j]`: those nodes have component
      `c`, and no other node changed. */
  ghost predicate Marking(ids0: seq<Option<nat>>, ids: seq<Option<nat>>, path: seq<nat>, i: nat, j: nat, c: nat)
  {
    && |ids| == |ids0|
    && (forall k :: i <= k < j && k < |path| ==> path[k] < |ids| && ids[path[k]] == Some(c))
    && (forall y :: 0 <= y < |ids| && ids[y] != ids0[y] ==> ids[y] == Some(c) && OnPath(path, i, j, y))
  }

  /** Marking one more node of the path. */
  lemma MarkingStep(ids0: seq<Option<nat>>, ids: seq<Option<nat>>, path: seq<nat>, i: nat, j: nat, c: nat)
    requires Marking(ids0, ids, path, i, j, c) && i <= j < |path| && path[j] < |ids|
    ensures Marking(ids0, ids[path[j] := Some(c)], path, i, j + 1, c)
  {
    var ids' := ids[path[j] := Some(c)];
    forall y | 0 <= y < |ids'| && ids'[y] != ids0[y]
      ensures OnPath(path, i, j + 1, y)
    {
      if y != path[j] {
        var k :| i <= k < j && k < |path| && path[k] == y;
      } else {
        assert path[j] == y;
      }
    }
  }

  /** The components after a cycle is marked. */
  lemma MarkedCycle(critical: seq<Critical>, ids0: seq<Option<nat>>, ids: seq<Option<nat>>, c: nat, x: nat, path: seq<nat>, i: nat)
    requires Tails(critical) && CycleIds(critical, ids0, c) && OnCycles(critical, ids0)
    requires Linked(critical, path) && i < |path| && path[i] == x
    requires critical[path[|path| - 1]].from == Some(x)
    requires forall k :: 0 <= k < |path| ==> ids0[path[k]].None?
    requires Marking(ids0, ids, path, i, |path|, c)
    ensures CycleIds(critical, ids, c + 1) && OnCycles(critical, ids) && Grown(ids0, ids) && ids[x] == Some(c)
  {
    forall y | 0 <= y < |ids| && ids[y].Some?
      ensures ids[y].value < c + 1
      ensures critical[y].from.Some? && critical[y].from.value < |ids| && ids[critical[y].from.value] == ids[y]
    {
      MarkedClosed(critical, ids0, ids, c, x, path, i, y);
    }
    forall y | 0 <= y < |ids| && ids[y].Some?
      ensures OnCycle(critical, y)
    {
      MarkedOnCycle(critical, ids0, ids, c, path, i, y);
    }
    forall d | 0 <= d < c + 1
      ensures Inhabited(ids, d)
    {
      MarkedInhabited(ids0, ids, c, x, path, i, d);
    }
    MarkedGrown(ids0, ids, c, path, i);
  }

  /** Marking a cycle changes no node that had a component. */
  lemma MarkedGrown(ids0: seq<Option<nat>>, ids: seq<Option<nat>>, c: nat, path: seq<nat>, i: nat)
    requires Marking(ids0, ids, path, i, |path|, c)
    requires forall k :: 0 <= k < |path| ==> path[k] < |ids0| && ids0[path[k]].None?
    ensures Grown(ids0, ids)
  {
    forall y | 0 <= y < |ids0| && ids0[y].Some?
      ensures ids[y] == ids0[y]
    {
      assert !OnPath(path, i, |path|, y);
    }
  }

  /** A node of a marked cycle lies on a cycle. */
  lemma MarkedOnCycle(critical: seq<Critical>, ids0: seq<Option<nat>>, ids: seq<Option<nat>>, c: nat, path: seq<nat>, i: nat, y: nat)
    requires Tails(critical) && |ids0| == |critical| && OnCycles(critical, ids0)
    requires Linked(critical, path) && i < |path| && critical[path[|path| - 1]].from == Some(path[i])
    requires Marking(ids0, ids, path, i, |path|, c)
    requires y < |ids| && ids[y].Some?
    ensures OnCycle(critical, y)
  {
    if ids[y] != ids0[y] {
      var k :| i <= k < |path| && path[k] == y;
      LoopOnCycle(critical, path, i, k);
    }
  }

  /** Every component up to the new one has a node. */
  lemma MarkedInhabited(ids0: seq<Option<nat>>, ids: seq<Option<nat>>, c: nat, x: nat, path: seq<nat>, i: nat, d: nat)
    requires forall d :: 0 <= d < c ==> Inhabited(ids0, d)
    requires forall y :: 0 <= y < |ids0| && ids0[y].Some? ==> ids0[y].value < c
    requires Marking(ids0, ids, path, i, |path|, c) && i < |path| && path[i] == x
    requires forall k :: 0 <= k < |path| ==> path[k] < |ids0| && ids0[path[k]].None?
    requires d < c + 1
    ensures Inhabited(ids, d)
  {
    if d < c {
      assert Inhabited(ids0, d);
      var z :| 0 <= z < |ids0| && ids0[z] == Some(d);
      assert ids[z] == Some(d);
    } else {
      assert ids[x] == Some(c);
    }
  }

  /** A node of a marked cycle has its tail in the same component. */
  lemma MarkedClosed(critical: seq<Critical>, ids0: seq<Option<nat>>, ids: seq<Option<nat>>, c: nat, x: nat, path: seq<nat>, i: nat, y: nat)
    requires Tails(critical) && CycleIds(critical, ids0, c)
    requires Linked(critical, path) && i < |path| && path[i] == x
    requires critical[path[|path| - 1]].from == Some(x)
    requires forall k :: 0 <= k < |path| ==> ids0[path[k]].None?
    requires Marking(ids0, ids, path, i, |path|, c)
    requires y < |ids| && ids[y].Some?
    ensures ids[y].value < c + 1
    ensures critical[y].from.Some? && critical[y].from.value < |ids| && ids[critical[y].from.value] == ids[y]
  {
    if ids[y] != ids0[y] {
      MarkedNew(critical, ids0, ids, c, x, path, i, y);
    } else {
      MarkedOld(critical, ids0, ids, c, x, path, i, y);
    }
  }

  /** `MarkedClosed` for a node the marking numbers `c`. */
  lemma MarkedNew(critical: seq<Critical>, ids0: seq<Option<nat>>, ids: seq<Option<nat>>, c: nat, x: nat, path: seq<nat>, i: nat, y: nat)
    requires Tails(critical) && CycleIds(critical, ids0, c)
    requires Linked(critical, path) && i < |path| && path[i] == x
    requires critical[path[|path| - 1]].from == Some(x)
    requires forall k :: 0 <= k < |path| ==> ids0[path[k]].None?
    requires Marking(ids0, ids, path, i, |path|, c)
    requires y < |ids| && ids[y].Some? && ids[y] != ids0[y]
    ensures ids[y].value < c + 1
    ensures critical[y].from.Some? && critical[y].from.value < |ids| && ids[critical[y].from.value] == ids[y]
  {
    var k :| i <= k < |path| && path[k] == y;
    if k < |path| - 1 {
      assert ids[path[k + 1]] == Some(c);
    }
  }

  /** `MarkedClosed` for a node of an earlier cycle. */
  lemma MarkedOld(critical: seq<Critical>, ids0: seq<Option<nat>>, ids: seq<Option<nat>>, c: nat, x: nat, path: seq<nat>, i: nat, y: nat)
    requires Tails(critical) && CycleIds(critical, ids0, c)
    requires Linked(critical, path) && i < |path| && path[i] == x
    requires forall k :: 0 <= k < |path| ==> ids0[path[k]].None?
    requires Marking(ids0, ids, path, i, |path|, c)
    requires y < |ids| && ids[y].Some? && ids[y] == ids0[y]
    ensures ids[y].value < c + 1
    ensures critical[y].from.Some? && critical[y].from.value < |ids| && ids[critical[y].from.value] == ids[y]
  {
    var p := critical[y].from.value;
    assert ids0[p] == ids0[y];
    assert !OnPath(path, i, |path|, p);
  }

  /** The stamp loop of `maximum_branching`: walks the critical edges from
      every node in turn and gives each cycle it closes a component of its
      own, numbered from 0. */
  method FindCycles(critical: seq<Critical>) returns (ids: seq<Option<nat>>, numCycles: nat)
    requires Tails(critical)
    ensures CycleIds(critical, ids, numCycles) && OnCycles(critical, ids) && Connected(critical, ids)
    ensures forall u :: 0 <= u < |critical| ==> Settled(critical, ids, u)
  {
    var n := |critical|;
    ids, numCycles := seq(n, _ => None), 0;
    var stamp: seq<Option<nat>> := seq(n, _ => None);
    for u := 0 to n
      invariant |stamp| == n && forall x :: 0 <= x < n && stamp[x].Some? ==> stamp[x].value < u
      invariant CycleIds(critical, ids, numCycles) && OnCycles(critical, ids) && Connected(critical, ids)
      invariant forall u' :: 0 <= u' < u ==> Settled(critical, ids, u')
    {
      var v;
      ghost var path;
      v, stamp, path := StampWalk(critical, ids, stamp, u);
      WalkedWalk(critical, ids, u, path, v);
      ghost var ids0 := ids;
      if v.Some? && ids[v.value].None? {
        var x := v.value;
        assert x in path;
        ghost var i :| 0 <= i < |path| && path[i] == x;
        ids, numCycles := MarkCycle(critical, ids, numCycles, x, path, i);
      }
      SettledAfter(critical, ids0, ids, u, |path|);
    }
  }

  /** After the walk from `u`, which ended off the critical edges or at a
      node with a component, the nodes up to `u` are settled. */
  lemma SettledAfter(critical: seq<Critical>, ids0: seq<Option<nat>>, ids: seq<Option<nat>>, u: nat, k: nat)
    requires Tails(critical) && u < |critical| && |ids0| == |critical| && Grown(ids0, ids)
    requires forall u' :: 0 <= u' < u ==> Settled(critical, ids0, u')
    requires EndsAt(critical, ids, u, k)
    ensures forall u' :: 0 <= u' < u + 1 ==> Settled(critical, ids, u')
  {
    forall u' | 0 <= u' < u
      ensures Settled(critical, ids, u')
    {
      SettledGrown(critical, ids0, ids, u');
    }
  }

  /** Following critical edges from a node with a component keeps to nodes
      with a component. */
  lemma {:induction false} StaysInCycles(critical: seq<Critical>, ids: seq<Option<nat>>, z: nat, t: nat)
    requires Tails(critical) && |ids| == |critical| && z < |critical| && ids[z].Some?
    requires forall x :: 0 <= x < |ids| && ids[x].Some? ==> critical[x].from.Some? && ids[critical[x].from.value].Some?
    ensures Walk(critical, z, t).Some? && ids[Walk(critical, z, t).value].Some?
    decreases t
  {
    if t > 0 {
      StaysInCycles(critical, ids, z, t - 1);
      var y := Walk(critical, z, t - 1).value;
      assert ids[y].Some?;
      assert Walk(critical, z, t) == critical[y].from;
    }
  }

  /** From any node of a cycle some number of steps leads back to `x`. */
  lemma {:induction false} CycleBack(critical: seq<Critical>, x: nat, len: nat, k: nat) returns (t: nat)
    requires Tails(critical) && x < |critical| && len > 0 && Walk(critical, x, len) == Some(x)
    ensures Walk(critical, x, k).Some? && Walk(critical, Walk(critical, x, k).value, t) == Some(x)
    decreases k
  {
    CycleWalk(critical, x, len, k);
    if k >= len {
      WalkAdd(critical, x, len, k - len);
      t := CycleBack(critical, x, len, k - len);
    } else {
      WalkAdd(critical, x, k, len - k);
      t := len - k;
    }
  }

  /** The stamp loop gives a component to exactly the nodes on cycles of
      critical edges. */
  lemma CyclesExact(critical: seq<Critical>, ids: seq<Option<nat>>, numCycles: nat, x: nat)
    requires Tails(critical) && CycleIds(critical, ids, numCycles) && OnCycles(critical, ids)
    requires forall u :: 0 <= u < |critical| ==> Settled(critical, ids, u)
    requires x < |critical|
    ensures ids[x].Some? <==> OnCycle(critical, x)
  {
    if OnCycle(critical, x) {
      var len: nat :| len > 0 && Walk(critical, x, len) == Some(x);
      assert Settled(critical, ids, x);
      var k: nat :| EndsAt(critical, ids, x, k);
      var t := CycleBack(critical, x, len, k);
      StaysInCycles(critical, ids, Walk(critical, x, k).value, t);
    }
  }

  /** The stamp loop finds no cycle exactly when the critical edges close
      none. */
  lemma NoCycleFound(critical: seq<Critical>, ids: seq<Option<nat>>, numCycles: nat)
    requires Tails(critical) && CycleIds(critical, ids, numCycles) && OnCycles(critical, ids)
    requires forall u :: 0 <= u < |critical| ==> Settled(critical, ids, u)
    ensures numCycles == 0 <==> forall u :: 0 <= u < |critical| ==> !OnCycle(critical, u)
  {
    if numCycles > 0 {
      assert Inhabited(ids, 0);
    } else {
      forall u | 0 <= u < |critical|
        ensures !OnCycle(critical, u)
      {
        CyclesExact(critical, ids, numCycles, u);
      }
    }
  }

  /** Some node is in component `c`. */
  ghost predicate Hit(ids: seq<nat>, c: nat)
  {
    exists x :: 0 <= x < |ids| && ids[x] == c
  }

  /** The second numbering loop: every node without a component (a node on
      no cycle) becomes a component of its own, numbered on from
      `numCycles`; afterwards every node has a component below `numScc`. */
  method NumberRest(ids0: seq<Option<nat>>, numCycles: nat) returns (ids: seq<nat>, numScc: nat)
    requires forall x :: 0 <= x < |ids0| && ids0[x].Some? ==> ids0[x].value < numCycles
    ensures |ids| == |ids0| && numCycles <= numScc
    ensures forall x :: 0 <= x < |ids| && ids0[x].Some? ==> ids[x] == ids0[x].value
    ensures forall x :: 0 <= x < |ids| ==> ids[x] < numScc
    ensures forall x :: 0 <= x < |ids| && ids0[x].None? ==> numCycles <= ids[x]
    ensures forall c :: numCycles <= c < numScc ==> Hit(ids, c)
    ensures forall x, y :: 0 <= x < |ids| && 0 <= y < |ids| && ids0[x].None? && ids[y] == ids[x] ==> x == y
  {
    var n := |ids0|;
    var opt := ids0;
    numScc := numCycles;
    for u := 0 to n
      invariant |opt| == n && numCycles <= numScc
      invariant forall x :: 0 <= x < n && ids0[x].Some? ==> opt[x] == ids0[x]
      invariant forall x :: u <= x < n ==> opt[x] == ids0[x]
      invariant forall x :: 0 <= x < u ==> opt[x].Some?
      invariant forall x :: 0 <= x < n && opt[x].Some? ==> opt[x].value < numScc
      invariant forall x :: 0 <= x < n && ids0[x].None? && opt[x].Some? ==> numCycles <= opt[x].value
      invariant forall c :: numCycles <= c < numScc ==> Inhabited(opt, c)
      invariant forall x, y :: 0 <= x < n && 0 <= y < n && ids0[x].None? && opt[x].Some? && opt[y] == opt[x] ==> x == y
    {
      if opt[u].None? {
        ghost var before := opt;
        opt := opt[u := Some(numScc)];
        forall c | numCycles <= c < numScc
          ensures Inhabited(opt, c)
        {
          assert Inhabited(before, c);
          var x :| 0 <= x < n && before[x] == Some(c);
          assert opt[x] == Some(c);
        }
        assert opt[u] == Some(numScc);
        numScc := numScc + 1;
      }
    }
    ids := seq(n, x requires 0 <= x < n => opt[x].value);
    forall c | numCycles <= c < numScc
      ensures Hit(ids, c)
    {
      assert Inhabited(opt, c);
      var x :| 0 <= x < n && opt[x] == Some(c);
      assert ids[x] == c;
    }
  }

  /** What the numbering loops leave: components below `numScc`, each with
      a node; the first `numCycles` are cycles of critical edges, closed
      under taking the tail; the others hold one node each. */
  ghost predicate Components(critical: seq<Critical>, ids: seq<nat>, numCycles: nat, numScc: nat)
  {
    && |ids| == |critical| && numCycles <= numScc
    && (forall x :: 0 <= x < |ids| ==> ids[x] < numScc)
    && (forall c :: 0 <= c < numScc ==> Hit(ids, c))
    && (forall x :: 0 <= x < |ids| && ids[x] < numCycles ==>
          critical[x].from.Some? && critical[x].from.value < |ids| && ids[critical[x].from.value] == ids[x])
    && (forall x, y :: 0 <= x < |ids| && 0 <= y < |ids| && numCycles <= ids[x] && ids[y] == ids[x] ==> x == y)
  }

  /** The two numbering loops together produce `Components`, and a node is
      in one of the first `numCycles` components exactly when it lies on a
      cycle of critical edges. */
  lemma Numbered(critical: seq<Critical>, ids0: seq<Option<nat>>, numCycles: nat, ids: seq<nat>, numScc: nat)
    requires Tails(critical) && CycleIds(critical, ids0, numCycles) && OnCycles(critical, ids0)
    requires forall u :: 0 <= u < |critical| ==> Settled(critical, ids0, u)
    requires |ids| == |ids0| && numCycles <= numScc
    requires forall x :: 0 <= x < |ids| && ids0[x].Some? ==> ids[x] == ids0[x].value
    requires forall x :: 0 <= x < |ids| ==> ids[x] < numScc
    requires forall x :: 0 <= x < |ids| && ids0[x].None? ==> numCycles <= ids[x]
    requires forall c :: numCycles <= c < numScc ==> Hit(ids, c)
    requires forall x, y :: 0 <= x < |ids| && 0 <= y < |ids| && ids0[x].None? && ids[y] == ids[x] ==> x == y
    requires Connected(critical, ids0)
    ensures Components(critical, ids, numCycles, numScc) && CyclesConnected(critical, ids, numCycles)
    ensures forall x :: 0 <= x < |ids| ==> (ids[x] < numCycles <==> OnCycle(critical, x))
  {
    NumberedConnected(critical, ids0, numCycles, ids);
    NumberedHit(critical, ids0, numCycles, ids);
    NumberedExact(critical, ids0, numCycles, ids);
  }

  /** The nodes of one cycle component reach each other. */
  lemma NumberedConnected(critical: seq<Critical>, ids0: seq<Option<nat>>, numCycles: nat, ids: seq<nat>)
    requires Tails(critical) && |ids| == |ids0| == |critical| && Connected(critical, ids0)
    requires forall x :: 0 <= x < |ids| && ids0[x].Some? ==> ids[x] == ids0[x].value
    requires forall x :: 0 <= x < |ids| && ids0[x].None? ==> numCycles <= ids[x]
    ensures forall y, z :: 0 <= y < |ids| && 0 <= z < |ids| && ids[y] < numCycles && ids[z] == ids[y] ==> Reaches(critical, y, z)
  {
    forall y, z | 0 <= y < |ids| && 0 <= z < |ids| && ids[y] < numCycles && ids[z] == ids[y]
      ensures Reaches(critical, y, z)
    {
      assert ids0[y] == Some(ids[y]) && ids0[z] == Some(ids[z]);
    }
  }

  /** Every cycle component has a node. */
  lemma NumberedHit(critical: seq<Critical>, ids0: seq<Option<nat>>, numCycles: nat, ids: seq<nat>)
    requires CycleIds(critical, ids0, numCycles) && |ids| == |ids0|
    requires forall x :: 0 <= x < |ids| && ids0[x].Some? ==> ids[x] == ids0[x].value
    ensures forall c :: 0 <= c < numCycles ==> Hit(ids, c)
  {
    forall c | 0 <= c < numCycles
      ensures Hit(ids, c)
    {
      assert Inhabited(ids0, c);
      var x :| 0 <= x < |ids0| && ids0[x] == Some(c);
      assert ids[x] == c;
    }
  }

  /** A node is in a cycle component exactly when it lies on a cycle. */
  lemma NumberedExact(critical: seq<Critical>, ids0: seq<Option<nat>>, numCycles: nat, ids: seq<nat>)
    requires Tails(critical) && CycleIds(critical, ids0, numCycles) && OnCycles(critical, ids0)
    requires forall u :: 0 <= u < |critical| ==> Settled(critical, ids0, u)
    requires |ids| == |ids0|
    requires forall x :: 0 <= x < |ids| && ids0[x].Some? ==> ids[x] == ids0[x].value
    requires forall x :: 0 <= x < |ids| && ids0[x].None? ==> numCycles <= ids[x]
    ensures forall x :: 0 <= x < |ids| ==> (ids[x] < numCycles <==> OnCycle(critical, x))
    ensures forall x :: 0 <= x < |ids| ==> (ids[x] < numCycles <==> ids0[x].Some?)
  {
    forall x | 0 <= x < |ids|
      ensures ids[x] < numCycles <==> OnCycle(critical, x)
      ensures ids[x] < numCycles <==> ids0[x].Some?
    {
      CyclesExact(critical, ids0, numCycles, x);
    }
  }

  /** Within each cycle component every node reaches every other. */
  ghost predicate CyclesConnected(critical: seq<Critical>, ids: seq<nat>, numCycles: nat)
    requires Tails(critical) && |ids| == |critical|
  {
    forall y, z :: 0 <= y < |ids| && 0 <= z < |ids| && ids[y] < numCycles && ids[z] == ids[y] ==> Reaches(critical, y, z)
  }

  /** The pigeonhole principle: a sequence that takes every value below `k`
      is at least `k` long. */
  lemma {:induction false} Pigeonhole(f: seq<nat>, k: nat)
    requires forall c :: 0 <= c < k ==> Hit(f, c)
    ensures k <= |f|
    decreases k
  {
    if k > 0 {
      assert Hit(f, 0);
      var m := |f| - 1;
      var last := f[m];
      var g := seq(m, i requires 0 <= i < m => if f[i] == k - 1 then last else f[i]);
      forall c | 0 <= c < k - 1
        ensures Hit(g, c)
      {
        assert Hit(f, c);
        var i :| 0 <= i < |f| && f[i] == c;
        if i < m {
          assert g[i] == c;
        } else {
          assert Hit(f, k - 1);
          var j :| 0 <= j < |f| && f[j] == k - 1;
          assert g[j] == c;
        }
      }
      Pigeonhole(g, k - 1);
    }
  }

  /** Once a cycle is found there are fewer components than nodes, so the
      recursion works on a smaller graph (the assertion before it). */
  lemma FewerComponents(critical: seq<Critical>, ids: seq<nat>, numCycles: nat, numScc: nat)
    requires Tails(critical) && Components(critical, ids, numCycles, numScc) && numCycles > 0
    ensures numScc < |ids|
  {
    assert Hit(ids, 0);
    var a :| 0 <= a < |ids| && ids[a] == 0;
    Collision(ids, numScc, a, critical[a].from.value);
  }

  /** A sequence that takes every value below `k` and repeats one is
      longer than `k`. */
  lemma Collision(ids: seq<nat>, k: nat, a: nat, b: nat)
    requires forall c :: 0 <= c < k ==> Hit(ids, c)
    requires a < |ids| && b < |ids| && a != b && ids[a] == ids[b]
    ensures k < |ids|
  {
    var m := |ids| - 1;
    var f := seq(m, i requires 0 <= i < m => if i < b then ids[i] else ids[i + 1]);
    forall c | 0 <= c < k
      ensures Hit(f, c)
    {
      assert Hit(ids, c);
      var z :| 0 <= z < |ids| && ids[z] == c;
      if z == b {
        z := a;
      }
      if z < b {
        assert f[z] == c;
      } else {
        assert f[z - 1] == c;
      }
    }
    Pigeonhole(f, k);
  }

  /** How many nodes are in component `c`. */
  function CountIn(ids: seq<nat>, c: nat): nat
  {
    if |ids| == 0 then 0 else CountIn(ids[..|ids| - 1], c) + if ids[|ids| - 1] == c then 1 else 0
  }

  /** The component size loop. */
  method CountComponents(ids: seq<nat>, numScc: nat) returns (numComponents: seq<nat>)
    requires forall x :: 0 <= x < |ids| ==> ids[x] < numScc
    ensures |numComponents| == numScc && forall c :: 0 <= c < numScc ==> numComponents[c] == CountIn(ids, c)
  {
    numComponents := seq(numScc, _ => 0);
    for u := 0 to |ids|
      invariant |numComponents| == numScc && forall c :: 0 <= c < numScc ==> numComponents[c] == CountIn(ids[..u], c)
    {
      assert ids[..u + 1][..u] == ids[..u];
      numComponents := numComponents[ids[u] := numComponents[ids[u]] + 1];
    }
    assert ids[..|ids|] == ids;
  }

  lemma {:induction false} CountNone(ids: seq<nat>, c: nat)
    requires forall y :: 0 <= y < |ids| ==> ids[y] != c
    ensures CountIn(ids, c) == 0
  {
    if |ids| > 0 {
      CountNone(ids[..|ids| - 1], c);
    }
  }

  lemma {:induction false} CountAtMostOne(ids: seq<nat>, c: nat, x: nat)
    requires forall y :: 0 <= y < |ids| && ids[y] == c ==> y == x
    ensures CountIn(ids, c) <= 1
  {
    if |ids| > 0 {
      var pre := ids[..|ids| - 1];
      if ids[|ids| - 1] == c {
        CountNone(pre, c);
      } else {
        CountAtMostOne(pre, c, x);
      }
    }
  }

  lemma {:induction false} CountAtLeast(ids: seq<nat>, c: nat, x: nat, y: nat)
    requires x <= y < |ids| && ids[x] == c && ids[y] == c
    ensures CountIn(ids, c) >= if x == y then 1 else 2
  {
    var pre := ids[..|ids| - 1];
    if y < |ids| - 1 {
      CountAtLeast(pre, c, x, y);
    } else if x < y {
      CountAtLeast(pre, c, x, x);
    }
  }

  /** A component has more than one node exactly when it is a cycle. */
  lemma CycleSizes(critical: seq<Critical>, ids: seq<nat>, numCycles: nat, numScc: nat, c: nat)
    requires Tails(critical) && Components(critical, ids, numCycles, numScc) && c < numScc
    ensures CountIn(ids, c) > 1 <==> c < numCycles
  {
    assert Hit(ids, c);
    var x :| 0 <= x < |ids| && ids[x] == c;
    if c < numCycles {
      var p := critical[x].from.value;
      if x < p {
        CountAtLeast(ids, c, x, p);
      } else {
        CountAtLeast(ids, c, p, x);
      }
    } else {
      CountAtMostOne(ids, c, x);
    }
  }

  /** The critical edge of `to` joins two nodes of one component, so it is
      an edge of a cycle. */
  predicate InCycle(critical: seq<Critical>, ids: seq<nat>, to: nat)
  {
    && to < |critical| && to < |ids| && critical[to].from.Some?
    && critical[to].from.value < |ids| && ids[critical[to].from.value] == ids[to]
  }

  /** The first cheapest critical edge inside component `c` among the heads
      below `k`, `None` for a component without one. */
  function Cheapest(critical: seq<Critical>, ids: seq<nat>, c: nat, k: nat): Option<Critical>
    requires k <= |critical|
  {
    if k == 0 then None
    else
      var r := Cheapest(critical, ids, c, k - 1);
      if InCycle(critical, ids, k - 1) && ids[k - 1] == c && (r.None? || critical[k - 1].cost < r.value.cost)
      then Some(critical[k - 1]) else r
  }

  /** `e` is the critical edge of a head below `k` inside component `c`. */
  ghost predicate CycleEdge(critical: seq<Critical>, ids: seq<nat>, c: nat, k: nat, e: Critical)
  {
    exists to :: 0 <= to < k && InCycle(critical, ids, to) && ids[to] == c && critical[to] == e
  }

  /** `Cheapest` is an edge of the cycle no dearer than any other of its
      edges, and missing only when the component has no edge inside. */
  lemma {:induction false} CheapestIsMin(critical: seq<Critical>, ids: seq<nat>, c: nat, k: nat)
    requires k <= |critical|
    ensures Cheapest(critical, ids, c, k).None? <==> forall to :: 0 <= to < k ==> !(InCycle(critical, ids, to) && ids[to] == c)
    ensures Cheapest(critical, ids, c, k).Some? ==> CycleEdge(critical, ids, c, k, Cheapest(critical, ids, c, k).value)
    ensures Cheapest(critical, ids, c, k).Some? ==>
              forall to :: 0 <= to < k && InCycle(critical, ids, to) && ids[to] == c ==>
                Cheapest(critical, ids, c, k).value.cost <= critical[to].cost
  {
    if k > 0 {
      CheapestIsMin(critical, ids, c, k - 1);
      var r := Cheapest(critical, ids, c, k - 1);
      if r.Some? && Cheapest(critical, ids, c, k) == r {
        var to :| 0 <= to < k - 1 && InCycle(critical, ids, to) && ids[to] == c && critical[to] == r.value;
        assert CycleEdge(critical, ids, c, k, r.value);
      }
    }
  }

  /** The total cost of the critical edges inside components, heads below `k`. */
  function InsideCost(critical: seq<Critical>, ids: seq<nat>, k: nat): int
    requires k <= |critical|
  {
    if k == 0 then 0
    else InsideCost(critical, ids, k - 1) + if InCycle(critical, ids, k - 1) then critical[k - 1].cost else 0
  }

  /** The recorded minima, 0 where a component has none. */
  function Present(mini: seq<Option<int>>): (r: seq<int>)
    ensures |r| == |mini|
  {
    seq(|mini|, c requires 0 <= c < |mini| => if mini[c].Some? then mini[c].value else 0)
  }

  function CostOf(e: Option<Critical>): Option<int>
  {
    if e.Some? then Some(e.value.cost) else None
  }

  function IdOf(e: Option<Critical>): Option<nat>
  {
    if e.Some? then Some(e.value.id) else None
  }

  /** The cycle cost loops: per component the cost and id of its cheapest
      cycle edge, and the cost of all cycle edges but the cheapest of each
      cycle. */
  method CycleCosts(critical: seq<Critical>, ids: seq<nat>, numScc: nat)
    returns (totalCost: int, miniCost: seq<Option<int>>, miniId: seq<Option<nat>>)
    requires Tails(critical) && |ids| == |critical| && forall x :: 0 <= x < |ids| ==> ids[x] < numScc
    ensures |miniCost| == numScc && |miniId| == numScc
    ensures forall c :: 0 <= c < numScc ==>
              miniCost[c] == CostOf(Cheapest(critical, ids, c, |critical|))
              && miniId[c] == IdOf(Cheapest(critical, ids, c, |critical|))
    ensures totalCost == InsideCost(critical, ids, |critical|) - Sums.Sum(Present(miniCost))
  {
    var n := |critical|;
    totalCost := 0;
    miniCost, miniId := seq(numScc, _ => None), seq(numScc, _ => None);
    for to := 0 to n
      invariant |miniCost| == numScc && |miniId| == numScc
      invariant forall c :: 0 <= c < numScc ==>
                  miniCost[c] == CostOf(Cheapest(critical, ids, c, to)) && miniId[c] == IdOf(Cheapest(critical, ids, c, to))
      invariant totalCost == InsideCost(critical, ids, to)
    {
      var e := critical[to];
      if e.from.Some? && ids[e.from.value] == ids[to] {
        var cycleNo := ids[to];
        if miniCost[cycleNo].None? || e.cost < miniCost[cycleNo].value {
          miniCost := miniCost[cycleNo := Some(e.cost)];
          miniId := miniId[cycleNo := Some(e.id)];
        }
        totalCost := totalCost + e.cost;
      }
    }
    ghost var inside := totalCost;
    for c := 0 to numScc
      invariant totalCost == inside - Sums.Sum(Present(miniCost)[..c])
    {
      assert Present(miniCost)[..c + 1] == Present(miniCost)[..c] + [Present(miniCost)[c]];
      Sums.SumAppend(Present(miniCost)[..c], Present(miniCost)[c]);
      if miniCost[c].Some? {
        totalCost := totalCost - miniCost[c].value;
      }
    }
    assert Present(miniCost)[..numScc] == Present(miniCost);
  }

  /** `e` joins two different components, so it survives the contraction. */
  predicate Crossing(ids: seq<nat>, e: Edge)
  {
    e.from < |ids| && e.to < |ids| && ids[e.from] != ids[e.to]
  }

  /** What the contraction asks of its inputs: every node has a counted
      component, and every component of more than one node has a cheapest
      cycle edge. */
  ghost predicate Contractible(critical: seq<Critical>, ids: seq<nat>, numComponents: seq<nat>, miniCost: seq<Option<int>>)
  {
    && |ids| == |critical| && |numComponents| == |miniCost|
    && (forall x :: 0 <= x < |ids| ==> ids[x] < |numComponents|)
    && (forall c :: 0 <= c < |numComponents| && numComponents[c] > 1 ==> miniCost[c].Some?)
  }

  /** `e` in the contracted graph: its ends become their components, and an
      edge into a cycle costs what it gains over the cycle edge it would
      replace, on top of the cycle's cheapest edge. */
  function Image(critical: seq<Critical>, ids: seq<nat>, numComponents: seq<nat>, miniCost: seq<Option<int>>, e: Edge): Edge
    requires Contractible(critical, ids, numComponents, miniCost) && e.from < |ids| && e.to < |ids|
  {
    var c := ids[e.to];
    var cost := if numComponents[c] > 1 then e.cost - critical[e.to].cost + miniCost[c].value else e.cost;
    Edge(e.id, ids[e.from], c, cost)
  }

  /** The contraction loop: the edges between different components, in
      order, each as its `Image`; `origin` tells which input edge each one
      comes from. */
  method Contract(critical: seq<Critical>, ids: seq<nat>, numComponents: seq<nat>, miniCost: seq<Option<int>>, edges: seq<Edge>)
    returns (next: seq<Edge>, ghost origin: seq<nat>)
    requires Contractible(critical, ids, numComponents, miniCost)
    requires forall i :: 0 <= i < |edges| ==> edges[i].from < |ids| && edges[i].to < |ids|
    ensures |origin| == |next|
    ensures forall j :: 0 <= j < |next| ==>
              origin[j] < |edges| && Crossing(ids, edges[origin[j]])
              && next[j] == Image(critical, ids, numComponents, miniCost, edges[origin[j]])
    ensures forall j, l :: 0 <= j < l < |next| ==> origin[j] < origin[l]
    ensures forall i :: 0 <= i < |edges| && Crossing(ids, edges[i]) ==> i in origin
  {
    next, origin := [], [];
    for i := 0 to |edges|
      invariant |origin| == |next|
      invariant forall j :: 0 <= j < |next| ==>
                  origin[j] < i && Crossing(ids, edges[origin[j]])
                  && next[j] == Image(critical, ids, numComponents, miniCost, edges[origin[j]])
      invariant forall j, l :: 0 <= j < l < |next| ==> origin[j] < origin[l]
      invariant forall i' :: 0 <= i' < i && Crossing(ids, edges[i']) ==> i' in origin
    {
      var e := edges[i];
      if ids[e.from] == ids[e.to] {
        continue;
      }
      if numComponents[ids[e.to]] > 1 {
        next := next + [Edge(e.id, ids[e.from], ids[e.to], e.cost - critical[e.to].cost + miniCost[ids[e.to]].value)];
      } else {
        next := next + [Edge(e.id, ids[e.from], ids[e.to], e.cost)];
      }
      origin := origin + [i];
    }
  }

  /** An edge of `branching` (as far as `edge_id_to_node` knows it) ends at `t`. */
  ghost predicate EntersNode(branching: seq<nat>, idToNode: seq<Option<nat>>, t: nat)
  {
    exists k :: 0 <= k < |branching| && branching[k] < |idToNode| && idToNode[branching[k]] == Some(t)
  }

  /** An edge of `branching` ends in component `c`. */
  ghost predicate EntersComponent(branching: seq<nat>, idToNode: seq<Option<nat>>, ids: seq<nat>, c: nat)
  {
    exists k :: 0 <= k < |branching| && branching[k] < |idToNode| && idToNode[branching[k]].Some?
      && idToNode[branching[k]].value < |ids| && ids[idToNode[branching[k]].value] == c
  }

  /** The entry loop after the recursion: which nodes and which components
      an edge of the contracted graph's branching enters. */
  method EntryMarks(branching: seq<nat>, idToNode: seq<Option<nat>>, ids: seq<nat>, numScc: nat)
    returns (nodeHas: seq<bool>, cycleHas: seq<bool>)
    requires forall k :: 0 <= k < |branching| ==> branching[k] < |idToNode|
    requires forall i :: 0 <= i < |idToNode| && idToNode[i].Some? ==> idToNode[i].value < |ids|
    requires forall x :: 0 <= x < |ids| ==> ids[x] < numScc
    ensures |nodeHas| == |ids| && |cycleHas| == numScc
    ensures forall t :: 0 <= t < |ids| ==> (nodeHas[t] <==> EntersNode(branching, idToNode, t))
    ensures forall c :: 0 <= c < numScc ==> (cycleHas[c] <==> EntersComponent(branching, idToNode, ids, c))
  {
    nodeHas, cycleHas := seq(|ids|, _ => false), seq(numScc, _ => false);
    for k := 0 to |branching|
      invariant |nodeHas| == |ids| && |cycleHas| == numScc
      invariant forall t :: 0 <= t < |ids| ==> (nodeHas[t] <==> EntersNode(branching[..k], idToNode, t))
      invariant forall c :: 0 <= c < numScc ==> (cycleHas[c] <==> EntersComponent(branching[..k], idToNode, ids, c))
    {
      EntriesStep(branching, idToNode, ids, k);
      var to := idToNode[branching[k]];
      if to.Some? {
        nodeHas := nodeHas[to.value := true];
        cycleHas := cycleHas[ids[to.value] := true];
      }
    }
    assert branching[..|branching|] == branching;
  }

  /** One more edge of `branching` enters its own node and component. */
  lemma EntriesStep(branching: seq<nat>, idToNode: seq<Option<nat>>, ids: seq<nat>, k: nat)
    requires k < |branching| && branching[k] < |idToNode|
    ensures forall t: nat :: EntersNode(branching[..k + 1], idToNode, t) <==>
              EntersNode(branching[..k], idToNode, t) || idToNode[branching[k]] == Some(t)
    ensures forall c: nat :: EntersComponent(branching[..k + 1], idToNode, ids, c) <==>
              EntersComponent(branching[..k], idToNode, ids, c)
              || (idToNode[branching[k]].Some? && idToNode[branching[k]].value < |ids| && ids[idToNode[branching[k]].value] == c)
  {
    var b := branching[..k + 1];
    assert b[..k] == branching[..k] && b[k] == branching[k];
    forall t: nat | EntersNode(b, idToNode, t) && !EntersNode(branching[..k], idToNode, t)
      ensures idToNode[branching[k]] == Some(t)
    {
      var l :| 0 <= l < |b| && b[l] < |idToNode| && idToNode[b[l]] == Some(t);
    }
    forall t: nat | EntersNode(branching[..k], idToNode, t)
      ensures EntersNode(b, idToNode, t)
    {
      var l :| 0 <= l < k && branching[..k][l] < |idToNode| && idToNode[branching[..k][l]] == Some(t);
      assert b[l] == branching[..k][l];
    }
    assert idToNode[branching[k]].Some? ==> EntersNode(b, idToNode, idToNode[branching[k]].value);
    forall c: nat | EntersComponent(b, idToNode, ids, c) && !EntersComponent(branching[..k], idToNode, ids, c)
      ensures idToNode[branching[k]].Some? && idToNode[branching[k]].value < |ids| && ids[idToNode[branching[k]].value] == c
    {
      var l :| 0 <= l < |b| && b[l] < |idToNode| && idToNode[b[l]].Some? && idToNode[b[l]].value < |ids| && ids[idToNode[b[l]].value] == c;
    }
    forall c: nat | EntersComponent(branching[..k], idToNode, ids, c)
      ensures EntersComponent(b, idToNode, ids, c)
    {
      var l :| 0 <= l < k && branching[..k][l] < |idToNode| && idToNode[branching[..k][l]].Some?
                && idToNode[branching[..k][l]].value < |ids| && ids[idToNode[branching[..k][l]].value] == c;
      assert b[l] == branching[..k][l];
    }
    if idToNode[branching[k]].Some? && idToNode[branching[k]].value < |ids| {
      assert EntersComponent(b, idToNode, ids, ids[idToNode[branching[k]].value]);
    }
  }

  /** Whether the cycle edge into `to` stays: in a cycle the branching
      enters, every edge but the one into the entered node; in a cycle it
      does not enter, every edge but the cheapest. */
  predicate Keep(critical: seq<Critical>, ids: seq<nat>, nodeHas: seq<bool>, cycleHas: seq<bool>, miniId: seq<Option<nat>>, to: nat)
    requires to < |ids| && to < |critical| && to < |nodeHas| && ids[to] < |cycleHas| && ids[to] < |miniId|
  {
    var c := ids[to];
    (cycleHas[c] && !nodeHas[to]) || (!cycleHas[c] && Some(critical[to].id) != miniId[c])
  }

  /** The expansion loop: appends, in order of their heads, the ids of
      the cycle edges that `Keep` retains. */
  method ExpandCycles(critical: seq<Critical>, ids: seq<nat>, nodeHas: seq<bool>, cycleHas: seq<bool>, miniId: seq<Option<nat>>, branching0: seq<nat>)
    returns (branching: seq<nat>, ghost tos: seq<nat>)
    requires Tails(critical) && |ids| == |critical| && |nodeHas| == |ids| && |cycleHas| == |miniId|
    requires forall x :: 0 <= x < |ids| ==> ids[x] < |cycleHas|
    ensures |branching| == |branching0| + |tos| && branching[..|branching0|] == branching0
    ensures forall j :: 0 <= j < |tos| ==> tos[j] < |critical| && branching[|branching0| + j] == critical[tos[j]].id
    ensures forall j, l :: 0 <= j < l < |tos| ==> tos[j] < tos[l]
    ensures forall to :: 0 <= to < |critical| ==>
              (to in tos <==> InCycle(critical, ids, to) && Keep(critical, ids, nodeHas, cycleHas, miniId, to))
  {
    branching, tos := branching0, [];
    for to := 0 to |critical|
      invariant |branching| == |branching0| + |tos| && branching[..|branching0|] == branching0
      invariant forall j :: 0 <= j < |tos| ==> tos[j] < to && branching[|branching0| + j] == critical[tos[j]].id
      invariant forall j, l :: 0 <= j < l < |tos| ==> tos[j] < tos[l]
      invariant forall t :: 0 <= t < |critical| ==>
                  (t in tos <==> t < to && InCycle(critical, ids, t) && Keep(critical, ids, nodeHas, cycleHas, miniId, t))
    {
      if critical[to].from.None? {
        continue;
      }
      var edgeId := critical[to].id;
      if ids[to] == ids[critical[to].from.value] {
        if cycleHas[ids[to]] && !nodeHas[to] {
          branching, tos := branching + [edgeId], tos + [to];
        }
        if !cycleHas[ids[to]] && Some(edgeId) != miniId[ids[to]] {
          branching, tos := branching + [edgeId], tos + [to];
        }
      }
    }
  }

  /** Every node's critical edge among `edges`. */
  ghost function Criticals(edges: seq<Edge>, n: nat): (r: seq<Critical>)
    ensures |r| == n
  {
    seq(n, v requires 0 <= v < n => BestInto(edges, v))
  }

  /** The critical edges close no cycle: they already form a branching. */
  ghost predicate Acyclic(critical: seq<Critical>)
  {
    Tails(critical) && forall u :: 0 <= u < |critical| ==> !OnCycle(critical, u)
  }

  /** The fold of the no-cycle answer: the total cost of the critical edges. */
  function CriticalCost(critical: seq<Critical>): int
  {
    if |critical| == 0 then 0 else CriticalCost(critical[..|critical| - 1]) + critical[|critical| - 1].cost
  }

  /** The `filter_map` of the no-cycle answer: the ids of the critical edges
      of the nodes that have one, in node order. */
  function CriticalIds(critical: seq<Critical>): seq<nat>
  {
    if |critical| == 0 then []
    else
      var last := critical[|critical| - 1];
      CriticalIds(critical[..|critical| - 1]) + if last.from.Some? then [last.id] else []
  }

  /** No two edges share an id, as with the input graph's edges. */
  ghost predicate UniqueIds(edges: seq<Edge>)
  {
    forall i, j :: 0 <= i < j < |edges| ==> edges[i].id != edges[j].id
  }

  /** The edge behind the critical entry of `v`, by index into `edges`. */
  ghost function CriticalIndex(edges: seq<Edge>, v: nat): (i: nat)
    requires BestInto(edges, v).from.Some?
    ensures i < |edges| && Eligible(edges[i]) && edges[i].to == v && Some(edges[i].from) == BestInto(edges, v).from
    ensures edges[i].id == BestInto(edges, v).id && edges[i].cost == BestInto(edges, v).cost
  {
    BestIntoIsMax(edges, v);
    var i :| 0 <= i < |edges| && Eligible(edges[i]) && edges[i].to == v
               && BestInto(edges, v) == Critical(Some(edges[i].from), edges[i].cost, edges[i].id);
    i
  }

  /** Critical edges with the same id are the critical edges of one node. */
  lemma SameHead(edges: seq<Edge>, v: nat, w: nat)
    requires UniqueIds(edges) && BestInto(edges, v).from.Some? && BestInto(edges, w).from.Some?
    ensures BestInto(edges, v).id == BestInto(edges, w).id ==> v == w
  {
    var i := CriticalIndex(edges, v);
    var j := CriticalIndex(edges, w);
    assert BestInto(edges, v).id == BestInto(edges, w).id ==> i == j;
  }

  /** The critical entries of `edges` have tails among the nodes, and ids
      among the input edges'. */
  lemma CriticalsProper(edges: seq<Edge>, n: nat, numIds: nat, critical: seq<Critical>)
    requires EdgesIn(edges, n, numIds) && |critical| == n && forall v :: 0 <= v < n ==> critical[v] == BestInto(edges, v)
    ensures Tails(critical) && critical == Criticals(edges, n)
    ensures forall v :: 0 <= v < n && critical[v].from.Some? ==> critical[v].id < numIds && critical[v].cost > 0
  {
    forall v | 0 <= v < n
      ensures critical[v].from.Some? ==>
                critical[v].from.value < n && critical[v].from.value != v && critical[v].id < numIds && critical[v].cost > 0
    {
      BestIntoProper(edges, n, numIds, v);
    }
    assert critical == Criticals(edges, n);
  }

  /** `which` names, by index into `edges`, the edge behind every id of
      `branching`; each is one the first loop could make critical. */
  ghost predicate Picks(edges: seq<Edge>, branching: seq<nat>, which: seq<nat>)
  {
    |which| == |branching|
    && forall k :: 0 <= k < |which| ==> which[k] < |edges| && edges[which[k]].id == branching[k] && Eligible(edges[which[k]])
  }

  /** The edges `which` join nodes below `n`, and no two enter the same node. */
  ghost predicate InDegreeOne(edges: seq<Edge>, n: nat, which: seq<nat>)
  {
    && (forall k :: 0 <= k < |which| ==> which[k] < |edges| && edges[which[k]].from < n && edges[which[k]].to < n)
    && (forall j, k :: 0 <= j < k < |which| ==> edges[which[j]].to != edges[which[k]].to)
  }

  /** `rank` rises along every edge of `which`, so those edges close no cycle. */
  ghost predicate Ranked(edges: seq<Edge>, which: seq<nat>, rank: seq<nat>)
  {
    forall k :: 0 <= k < |which| ==>
      which[k] < |edges| && edges[which[k]].from < |rank| && edges[which[k]].to < |rank|
      && rank[edges[which[k]].from] < rank[edges[which[k]].to]
  }

  /** The edges `which` form a branching of the `n` nodes: at most one edge
      into each node and no cycle. */
  ghost predicate Branching(edges: seq<Edge>, n: nat, which: seq<nat>, rank: seq<nat>)
  {
    InDegreeOne(edges, n, which) && |rank| == n && Ranked(edges, which, rank)
  }

  /** The total cost of the edges `which`. */
  function ChosenCost(edges: seq<Edge>, which: seq<nat>): int
    requires forall k :: 0 <= k < |which| ==> which[k] < |edges|
  {
    if |which| == 0 then 0 else ChosenCost(edges, which[..|which| - 1]) + edges[which[|which| - 1]].cost
  }

  /** With unique edge ids, a branching names every edge once. */
  lemma BranchingDistinct(edges: seq<Edge>, n: nat, branching: seq<nat>, which: seq<nat>)
    requires UniqueIds(edges) && Picks(edges, branching, which) && InDegreeOne(edges, n, which)
    ensures Distinct(branching)
  {
    forall j, k | 0 <= j < k < |branching|
      ensures branching[j] != branching[k]
    {
      assert edges[which[j]].to != edges[which[k]].to;
    }
  }

  /** The cost entering each of the `n` nodes by the edges `which`. */
  ghost function Into(edges: seq<Edge>, which: seq<nat>, n: nat): (r: seq<int>)
    requires forall k :: 0 <= k < |which| ==> which[k] < |edges| && edges[which[k]].to < n
    ensures |r| == n
  {
    if |which| == 0 then seq(n, _ => 0)
    else
      var p := Into(edges, which[..|which| - 1], n);
      var e := edges[which[|which| - 1]];
      p[e.to := p[e.to] + e.cost]
  }

  /** The costs entering the nodes add up to the cost of the edges. */
  lemma {:induction false} IntoSum(edges: seq<Edge>, which: seq<nat>, n: nat)
    requires forall k :: 0 <= k < |which| ==> which[k] < |edges| && edges[which[k]].to < n
    ensures Sums.Sum(Into(edges, which, n)) == ChosenCost(edges, which)
  {
    if |which| == 0 {
      Sums.SumZeros(Into(edges, which, n));
    } else {
      var m := |which| - 1;
      IntoSum(edges, which[..m], n);
      var p := Into(edges, which[..m], n);
      var e := edges[which[m]];
      Sums.SumUpdate(p, e.to, p[e.to] + e.cost);
    }
  }

  /** No edge of `which` enters `t`. */
  ghost predicate Unentered(edges: seq<Edge>, which: seq<nat>, t: nat)
  {
    forall k :: 0 <= k < |which| && which[k] < |edges| ==> edges[which[k]].to != t
  }

  /** With at most one edge into each node, a node receives the cost of the
      edge into it, or nothing. */
  lemma {:induction false} IntoAt(edges: seq<Edge>, which: seq<nat>, n: nat)
    requires InDegreeOne(edges, n, which)
    ensures forall k :: 0 <= k < |which| ==> Into(edges, which, n)[edges[which[k]].to] == edges[which[k]].cost
    ensures forall t :: 0 <= t < n && Unentered(edges, which, t) ==> Into(edges, which, n)[t] == 0
  {
    if |which| > 0 {
      var m := |which| - 1;
      var pre := which[..m];
      assert forall k :: 0 <= k < m ==> pre[k] == which[k];
      IntoAt(edges, pre, n);
      forall t | 0 <= t < n && Unentered(edges, which, t)
        ensures Unentered(edges, pre, t)
      {
      }
    }
  }

  /** Some number of critical steps from `u` leads to `target`. */
  ghost predicate Arrives(critical: seq<Critical>, u: nat, target: Option<nat>)
    requires Tails(critical) && u < |critical|
  {
    exists k: nat :: Walk(critical, u, k) == target
  }

  /** The fewest critical steps, from `j` on, after which the walk from `u`
      is at `target` (a node, or `None` once it has fallen off); it gets
      there after `k`. */
  ghost function LeastFrom(critical: seq<Critical>, u: nat, target: Option<nat>, j: nat, k: nat): (r: nat)
    requires Tails(critical) && u < |critical| && j <= k && Walk(critical, u, k) == target
    ensures j <= r <= k && Walk(critical, u, r) == target
    ensures forall i :: j <= i < r ==> Walk(critical, u, i) != target
    decreases k - j
  {
    if Walk(critical, u, j) == target then j else LeastFrom(critical, u, target, j + 1, k)
  }

  /** The fewest critical steps after which the walk from `u` is at `target`. */
  ghost function Least(critical: seq<Critical>, u: nat, target: Option<nat>): (r: nat)
    requires Tails(critical) && u < |critical| && Arrives(critical, u, target)
    ensures Walk(critical, u, r) == target && forall i :: 0 <= i < r ==> Walk(critical, u, i) != target
  {
    var k: nat :| Walk(critical, u, k) == target;
    LeastFrom(critical, u, target, 0, k)
  }

  /** Stepping along the critical edge of `v` brings `target` one step nearer. */
  lemma LeastStep(critical: seq<Critical>, v: nat, target: Option<nat>)
    requires Tails(critical) && v < |critical| && critical[v].from.Some? && target != Some(v)
    requires Arrives(critical, v, target)
    ensures Arrives(critical, critical[v].from.value, target)
    ensures Least(critical, critical[v].from.value, target) < Least(critical, v, target)
  {
    var r := Least(critical, v, target);
    var p := critical[v].from.value;
    assert Walk(critical, v, 0) == Some(v);
    WalkAdd(critical, v, 1, r - 1);
    assert Walk(critical, v, 1) == Some(p);
    assert Walk(critical, p, r - 1) == target;
  }

  /** A node reached at all is reached in fewer steps than there are nodes. */
  lemma LeastBound(critical: seq<Critical>, v: nat, b: nat)
    requires Tails(critical) && v < |critical| && Reaches(critical, v, b)
    ensures Least(critical, v, Some(b)) < |critical|
  {
    var r := Least(critical, v, Some(b));
    forall i | 0 <= i <= r
      ensures Walk(critical, v, i).Some?
    {
      if Walk(critical, v, i).None? {
        WalkStaysOff(critical, v, i, r);
      }
    }
    var f := seq(r + 1, i requires 0 <= i <= r => Walk(critical, v, i).value);
    forall i, j | 0 <= i < j < r + 1
      ensures f[i] != f[j]
    {
      WalkAdd(critical, v, i, r - j);
      WalkAdd(critical, v, j, r - j);
    }
    Sums.InjectiveBound(f, |critical|);
  }

  /** The no-cycle answer's edges: those behind the critical entries of the
      nodes below `m` that have one, in node order. */
  ghost function CriticalPicks(edges: seq<Edge>, m: nat): (r: seq<nat>)
  {
    if m == 0 then []
    else CriticalPicks(edges, m - 1) + if BestInto(edges, m - 1).from.Some? then [CriticalIndex(edges, m - 1)] else []
  }

  /** The no-cycle answer names the critical edges. */
  lemma {:induction false} CriticalPicksIds(edges: seq<Edge>, critical: seq<Critical>)
    requires forall v :: 0 <= v < |critical| ==> critical[v] == BestInto(edges, v)
    ensures Picks(edges, CriticalIds(critical), CriticalPicks(edges, |critical|))
  {
    if |critical| > 0 {
      var m := |critical| - 1;
      CriticalPicksIds(edges, critical[..m]);
    }
  }

  /** The no-cycle answer's edges enter distinct nodes, in increasing order,
      each from the tail of that node's critical edge. */
  lemma {:induction false} CriticalPicksHeads(edges: seq<Edge>, m: nat)
    ensures forall k :: 0 <= k < |CriticalPicks(edges, m)| ==>
              var i := CriticalPicks(edges, m)[k];
              i < |edges| && edges[i].to < m && BestInto(edges, edges[i].to).from == Some(edges[i].from)
    ensures forall j, k :: 0 <= j < k < |CriticalPicks(edges, m)| ==>
              edges[CriticalPicks(edges, m)[j]].to < edges[CriticalPicks(edges, m)[k]].to
  {
    if m > 0 {
      CriticalPicksHeads(edges, m - 1);
    }
  }

  /** A node without a critical edge contributes no cost. */
  lemma NoneCostsNothing(edges: seq<Edge>, v: nat)
    requires BestInto(edges, v).from.None?
    ensures BestInto(edges, v).cost == 0
  {
    BestIntoIsMax(edges, v);
  }

  /** The no-cycle answer names edges of `edges`. */
  lemma {:induction false} CriticalPicksIn(edges: seq<Edge>, m: nat)
    ensures forall k :: 0 <= k < |CriticalPicks(edges, m)| ==> CriticalPicks(edges, m)[k] < |edges|
  {
    if m > 0 {
      CriticalPicksIn(edges, m - 1);
    }
  }

  /** Choosing one more edge adds its cost. */
  lemma ChosenCostAppend(edges: seq<Edge>, which: seq<nat>, i: nat)
    requires (forall k :: 0 <= k < |which| ==> which[k] < |edges|) && i < |edges|
    ensures ChosenCost(edges, which + [i]) == ChosenCost(edges, which) + edges[i].cost
  {
    assert (which + [i])[..|which|] == which;
  }

  /** The no-cycle answer costs what its edges do. */
  lemma {:induction false} CriticalPicksCost(edges: seq<Edge>, critical: seq<Critical>)
    requires forall v :: 0 <= v < |critical| ==> critical[v] == BestInto(edges, v)
    ensures forall k :: 0 <= k < |CriticalPicks(edges, |critical|)| ==> CriticalPicks(edges, |critical|)[k] < |edges|
    ensures ChosenCost(edges, CriticalPicks(edges, |critical|)) == CriticalCost(critical)
  {
    CriticalPicksIn(edges, |critical|);
    if |critical| > 0 {
      var m := |critical| - 1;
      CriticalPicksCost(edges, critical[..m]);
      var w := CriticalPicks(edges, |critical|);
      var w0 := CriticalPicks(edges, m);
      assert critical[m] == BestInto(edges, m);
      if critical[m].from.Some? {
        var i := CriticalIndex(edges, m);
        assert w == w0 + [i];
        ChosenCostAppend(edges, w0, i);
      } else {
        NoneCostsNothing(edges, m);
        assert w == w0;
      }
    }
  }

  /** Without a cycle every critical walk falls off after some steps. */
  lemma FallsOff(critical: seq<Critical>, ids0: seq<Option<nat>>, u: nat)
    requires Tails(critical) && CycleIds(critical, ids0, 0) && u < |critical| && Settled(critical, ids0, u)
    ensures Arrives(critical, u, None)
  {
    var k: nat :| EndsAt(critical, ids0, u, k);
    assert Walk(critical, u, k) == None;
  }

  /** The no-cycle answer is a branching, ranked by how far each node's
      critical walk goes, and its cost is that of its edges. */
  lemma NoCycleBranching(edges: seq<Edge>, n: nat, critical: seq<Critical>, ids0: seq<Option<nat>>)
      returns (which: seq<nat>, rank: seq<nat>)
    requires |critical| == n && (forall v :: 0 <= v < n ==> critical[v] == BestInto(edges, v)) && Tails(critical)
    requires CycleIds(critical, ids0, 0) && forall u :: 0 <= u < n ==> Settled(critical, ids0, u)
    ensures Picks(edges, CriticalIds(critical), which) && Branching(edges, n, which, rank)
    ensures ChosenCost(edges, which) == CriticalCost(critical)
  {
    which := CriticalPicks(edges, n);
    CriticalPicksIds(edges, critical);
    CriticalPicksHeads(edges, n);
    CriticalPicksCost(edges, critical);
    forall u | 0 <= u < n
      ensures Arrives(critical, u, None)
    {
      FallsOff(critical, ids0, u);
    }
    rank := seq(n, v requires 0 <= v < n => Least(critical, v, None));
    forall k | 0 <= k < |which|
      ensures edges[which[k]].from < n && rank[edges[which[k]].from] < rank[edges[which[k]].to]
    {
      LeastStep(critical, edges[which[k]].to, None);
    }
  }

  /** A choice of at most one entering edge per node, by index into `edges`,
      none of them a self-loop; every branching is one. */
  ghost predicate Choice(edges: seq<Edge>, n: nat, choice: seq<Option<nat>>)
  {
    |choice| == n && forall v :: 0 <= v < n && choice[v].Some? ==>
      choice[v].value < |edges| && edges[choice[v].value].to == v && edges[choice[v].value].from != v
  }

  /** The total cost of a choice. */
  ghost function ChoiceCost(edges: seq<Edge>, choice: seq<Option<nat>>): int
  {
    if |choice| == 0 then 0
    else
      var last := choice[|choice| - 1];
      ChoiceCost(edges, choice[..|choice| - 1]) + if last.Some? && last.value < |edges| then edges[last.value].cost else 0
  }

  /** No choice of entering edges costs more than the critical edges: when
      those close no cycle, the no-cycle answer is a maximum branching. */
  lemma {:induction false} CriticalBound(edges: seq<Edge>, n: nat, choice: seq<Option<nat>>)
    requires Choice(edges, n, choice)
    ensures ChoiceCost(edges, choice) <= CriticalCost(Criticals(edges, n))
    decreases n
  {
    if n > 0 {
      var m := n - 1;
      assert Criticals(edges, n)[..m] == Criticals(edges, m);
      assert Choice(edges, m, choice[..m]);
      CriticalBound(edges, m, choice[..m]);
      BestIntoIsMax(edges, m);
    }
  }

  /** The contracted graph's edges lie among its components and keep the
      ids of edges between components, still unique. */
  lemma ContractedProper(critical: seq<Critical>, ids: seq<nat>, numComponents: seq<nat>, miniCost: seq<Option<int>>,
                         edges: seq<Edge>, numIds: nat, numScc: nat, next: seq<Edge>, origin: seq<nat>)
    requires Contractible(critical, ids, numComponents, miniCost) && EdgesIn(edges, |ids|, numIds)
    requires forall x :: 0 <= x < |ids| ==> ids[x] < numScc
    requires |origin| == |next|
    requires forall j :: 0 <= j < |next| ==>
               origin[j] < |edges| && Crossing(ids, edges[origin[j]])
               && next[j] == Image(critical, ids, numComponents, miniCost, edges[origin[j]])
    requires forall j, l :: 0 <= j < l < |next| ==> origin[j] < origin[l]
    ensures EdgesIn(next, numScc, numIds)
    ensures forall j :: 0 <= j < |next| ==> next[j].from != next[j].to
    ensures UniqueIds(edges) ==> UniqueIds(next)
  {
  }

  /** The components of a graph with a cycle are ready to be contracted. */
  lemma CanContract(critical: seq<Critical>, ids: seq<nat>, numCycles: nat, numScc: nat, numComponents: seq<nat>, miniCost: seq<Option<int>>)
    requires Tails(critical) && Components(critical, ids, numCycles, numScc)
    requires |numComponents| == numScc && forall c :: 0 <= c < numScc ==> numComponents[c] == CountIn(ids, c)
    requires |miniCost| == numScc && forall c :: 0 <= c < numScc ==> miniCost[c] == CostOf(Cheapest(critical, ids, c, |critical|))
    ensures Contractible(critical, ids, numComponents, miniCost)
  {
    forall c | 0 <= c < numScc && numComponents[c] > 1
      ensures miniCost[c].Some?
    {
      CycleSizes(critical, ids, numCycles, numScc, c);
      assert Hit(ids, c);
      var x :| 0 <= x < |ids| && ids[x] == c;
      assert InCycle(critical, ids, x);
      CheapestIsMin(critical, ids, c, |critical|);
    }
  }

  /** Every edge id `edge_id_to_node` knows leads to one of the nodes. */
  lemma IdToNodeRange(edges: seq<Edge>, n: nat, numIds: nat)
    requires EdgesIn(edges, n, numIds)
    ensures forall id :: 0 <= id < numIds && IdToNode(edges, numIds)[id].Some? ==> IdToNode(edges, numIds)[id].value < n
  {
    forall id | 0 <= id < numIds && IdToNode(edges, numIds)[id].Some?
      ensures IdToNode(edges, numIds)[id].value < n
    {
      IdToNodeHeads(edges, numIds, id);
    }
  }

  /** With unique ids, `edge_id_to_node` leads the id of an eligible edge to
      that edge's head. */
  lemma IdToNodeOf(edges: seq<Edge>, numIds: nat, i: nat)
    requires (forall j :: 0 <= j < |edges| ==> edges[j].id < numIds) && UniqueIds(edges)
    requires i < |edges| && Eligible(edges[i])
    ensures IdToNode(edges, numIds)[edges[i].id] == Some(edges[i].to)
  {
    IdToNodeHeads(edges, numIds, edges[i].id);
    var j :| 0 <= j < |edges| && Eligible(edges[j]) && edges[j].id == edges[i].id && edges[j].to == IdToNode(edges, numIds)[edges[i].id].value;
    assert i == j;
  }

  /** What one level of `maximum_branching` has computed once it found a
      cycle, up to its recursive call. */
  datatype Contraction = Contraction(critical: seq<Critical>, ids: seq<nat>, numCycles: nat, numScc: nat,
                                     numComponents: seq<nat>, miniCost: seq<Option<int>>, miniId: seq<Option<nat>>,
                                     next: seq<Edge>, origin: seq<nat>)

  /** The critical edges of `edges` on `n` nodes. */
  ghost predicate Level(edges: seq<Edge>, n: nat, numIds: nat, critical: seq<Critical>)
  {
    EdgesIn(edges, n, numIds) && |critical| == n && (forall v :: 0 <= v < n ==> critical[v] == BestInto(edges, v)) && Tails(critical)
  }

  /** The components of `lv`, cycles first and each connected, and their sizes. */
  ghost predicate Comps(lv: Contraction)
  {
    && Tails(lv.critical) && Components(lv.critical, lv.ids, lv.numCycles, lv.numScc)
    && CyclesConnected(lv.critical, lv.ids, lv.numCycles)
    && |lv.numComponents| == lv.numScc && (forall c :: 0 <= c < lv.numScc ==> lv.numComponents[c] == CountIn(lv.ids, c))
  }

  /** The cheapest cycle edge of every component of `lv`. */
  ghost predicate Minis(lv: Contraction)
  {
    && |lv.ids| == |lv.critical| && |lv.miniCost| == lv.numScc && |lv.miniId| == lv.numScc
    && (forall c :: 0 <= c < lv.numScc ==>
          lv.miniCost[c] == CostOf(Cheapest(lv.critical, lv.ids, c, |lv.critical|))
          && lv.miniId[c] == IdOf(Cheapest(lv.critical, lv.ids, c, |lv.critical|)))
    && Contractible(lv.critical, lv.ids, lv.numComponents, lv.miniCost)
  }

  /** The contracted graph of `lv`: the images of the edges of `edges`
      between components, `origin` naming each one's original. */
  ghost predicate Contracts(edges: seq<Edge>, numIds: nat, lv: Contraction)
    requires Minis(lv)
  {
    && |lv.origin| == |lv.next| && EdgesIn(lv.next, lv.numScc, numIds)
    && (forall j :: 0 <= j < |lv.next| ==>
          lv.origin[j] < |edges| && Crossing(lv.ids, edges[lv.origin[j]])
          && lv.next[j] == Image(lv.critical, lv.ids, lv.numComponents, lv.miniCost, edges[lv.origin[j]]))
  }

  /** `lv` is that level for `edges` on `n` nodes: the critical edges, the
      components, their cheapest cycle edges and the contracted graph. */
  ghost predicate Contracted(edges: seq<Edge>, n: nat, numIds: nat, lv: Contraction)
  {
    Level(edges, n, numIds, lv.critical) && Comps(lv) && Minis(lv) && Contracts(edges, numIds, lv)
  }

  /** A node's critical edge lies inside its component exactly when the
      component is a cycle and has more than one node. */
  lemma NodeKind(lv: Contraction, t: nat)
    requires Comps(lv) && t < |lv.ids|
    ensures InCycle(lv.critical, lv.ids, t) <==> lv.ids[t] < lv.numCycles
    ensures InCycle(lv.critical, lv.ids, t) <==> lv.numComponents[lv.ids[t]] > 1
  {
    CycleSizes(lv.critical, lv.ids, lv.numCycles, lv.numScc, lv.ids[t]);
    if InCycle(lv.critical, lv.ids, t) {
      assert lv.critical[t].from.value != t;
    }
  }

  /** A component has a cheapest cycle edge exactly when a node's critical
      edge lies inside it, and that edge costs no more. */
  lemma MiniKind(lv: Contraction, t: nat)
    requires Comps(lv) && Minis(lv) && t < |lv.ids|
    ensures InCycle(lv.critical, lv.ids, t) <==> lv.miniCost[lv.ids[t]].Some?
    ensures InCycle(lv.critical, lv.ids, t) ==> lv.miniCost[lv.ids[t]].value <= lv.critical[t].cost
  {
    CheapestIsMin(lv.critical, lv.ids, lv.ids[t], |lv.critical|);
    NodeKind(lv, t);
  }

  /** The edges of `edges` behind the contracted graph's edges `subWhich`. */
  ghost function Lifted(origin: seq<nat>, subWhich: seq<nat>): (r: seq<nat>)
    requires forall k :: 0 <= k < |subWhich| ==> subWhich[k] < |origin|
    ensures |r| == |subWhich| && forall k :: 0 <= k < |subWhich| ==> r[k] == origin[subWhich[k]]
  {
    seq(|subWhich|, k requires 0 <= k < |subWhich| => origin[subWhich[k]])
  }

  /** An edge of the contracted graph's branching stands for an eligible edge
      between the components it joins, which cost what the contraction
      took off it more. */
  lemma SubEdge(edges: seq<Edge>, n: nat, numIds: nat, lv: Contraction, sub: seq<nat>, subWhich: seq<nat>, k: nat)
    requires Contracted(edges, n, numIds, lv) && Picks(lv.next, sub, subWhich) && k < |sub|
    ensures subWhich[k] < |lv.origin| && lv.origin[subWhich[k]] < |edges|
    ensures var e, e' := edges[lv.origin[subWhich[k]]], lv.next[subWhich[k]];
      && Eligible(e) && e.id == sub[k] && e.from < n && e.to < n
      && lv.ids[e.from] == e'.from && lv.ids[e.to] == e'.to
      && e.cost == e'.cost + if InCycle(lv.critical, lv.ids, e.to) then lv.critical[e.to].cost - Present(lv.miniCost)[lv.ids[e.to]] else 0
  {
    var j := subWhich[k];
    var e := edges[lv.origin[j]];
    assert lv.next[j] == Image(lv.critical, lv.ids, lv.numComponents, lv.miniCost, e);
    NodeKind(lv, e.to);
    MiniKind(lv, e.to);
    var c := lv.ids[e.to];
    if lv.numComponents[c] > 1 {
      assert Present(lv.miniCost)[c] == lv.miniCost[c].value;
    }
  }

  /** The entry marks of `sub`: which nodes and which components of `lv`
      its edges enter. */
  ghost predicate Marked(lv: Contraction, idToNode: seq<Option<nat>>, sub: seq<nat>, nodeHas: seq<bool>, cycleHas: seq<bool>)
  {
    && |nodeHas| == |lv.ids| && |cycleHas| == lv.numScc
    && (forall t :: 0 <= t < |lv.ids| ==> (nodeHas[t] <==> EntersNode(sub, idToNode, t)))
    && (forall c :: 0 <= c < lv.numScc ==> (cycleHas[c] <==> EntersComponent(sub, idToNode, lv.ids, c)))
  }

  /** `tos` lists, in increasing order, the nodes whose critical edges are
      kept. */
  ghost predicate KeptAt(lv: Contraction, nodeHas: seq<bool>, cycleHas: seq<bool>, tos: seq<nat>)
    requires Comps(lv) && Minis(lv) && |nodeHas| == |lv.ids| && |cycleHas| == lv.numScc
  {
    && (forall t :: 0 <= t < |lv.ids| ==>
          (t in tos <==> InCycle(lv.critical, lv.ids, t) && Keep(lv.critical, lv.ids, nodeHas, cycleHas, lv.miniId, t)))
    && (forall j :: 0 <= j < |tos| ==> tos[j] < |lv.ids|)
    && (forall j, l :: 0 <= j < l < |tos| ==> tos[j] < tos[l])
  }

  /** The expansion's view of one level: unique ids, the contraction, the
      recursion's branching `sub` (edges `subWhich` of the contracted
      graph), the entry marks and the kept cycle edges `tos`. */
  ghost predicate Expansion(edges: seq<Edge>, n: nat, numIds: nat, lv: Contraction, idToNode: seq<Option<nat>>,
                            sub: seq<nat>, subWhich: seq<nat>, nodeHas: seq<bool>, cycleHas: seq<bool>, tos: seq<nat>)
  {
    && UniqueIds(edges) && Contracted(edges, n, numIds, lv)
    && Picks(lv.next, sub, subWhich) && InDegreeOne(lv.next, lv.numScc, subWhich)
    && idToNode == IdToNode(edges, numIds)
    && Marked(lv, idToNode, sub, nodeHas, cycleHas) && KeptAt(lv, nodeHas, cycleHas, tos)
  }

  /** `edge_id_to_node` leads every id of the recursion's branching to the
      head of the edge behind it, whose component is the head of the
      contracted edge. */
  lemma SubHeads(edges: seq<Edge>, n: nat, numIds: nat, lv: Contraction, sub: seq<nat>, subWhich: seq<nat>)
    requires UniqueIds(edges) && Contracted(edges, n, numIds, lv) && Picks(lv.next, sub, subWhich)
    ensures forall k :: 0 <= k < |sub| ==>
              subWhich[k] < |lv.origin| && lv.origin[subWhich[k]] < |edges| && edges[lv.origin[subWhich[k]]].to < n
              && lv.next[subWhich[k]].to == lv.ids[edges[lv.origin[subWhich[k]]].to]
              && sub[k] < numIds && IdToNode(edges, numIds)[sub[k]] == Some(edges[lv.origin[subWhich[k]]].to)
  {
    forall k | 0 <= k < |sub|
      ensures subWhich[k] < |lv.origin| && lv.origin[subWhich[k]] < |edges| && edges[lv.origin[subWhich[k]]].to < n
      ensures lv.next[subWhich[k]].to == lv.ids[edges[lv.origin[subWhich[k]]].to]
      ensures sub[k] < numIds && IdToNode(edges, numIds)[sub[k]] == Some(edges[lv.origin[subWhich[k]]].to)
    {
      SubEdge(edges, n, numIds, lv, sub, subWhich, k);
      IdToNodeOf(edges, numIds, lv.origin[subWhich[k]]);
    }
  }

  /** Every node and component the recursion's branching enters is
      entered by one of its edges, whose heads are `heads`. */
  lemma MarksOnly(lv: Contraction, idToNode: seq<Option<nat>>, sub: seq<nat>, nodeHas: seq<bool>, cycleHas: seq<bool>, heads: seq<nat>)
    requires Marked(lv, idToNode, sub, nodeHas, cycleHas)
    requires |heads| == |sub| && forall k :: 0 <= k < |sub| ==> sub[k] < |idToNode| && idToNode[sub[k]] == Some(heads[k])
    ensures forall t :: 0 <= t < |lv.ids| && nodeHas[t] ==> exists k :: 0 <= k < |sub| && heads[k] == t
    ensures forall c :: 0 <= c < lv.numScc && cycleHas[c] ==> exists k :: 0 <= k < |sub| && heads[k] < |lv.ids| && lv.ids[heads[k]] == c
  {
    forall t | 0 <= t < |lv.ids| && nodeHas[t]
      ensures exists k :: 0 <= k < |sub| && heads[k] == t
    {
      var k :| 0 <= k < |sub| && sub[k] < |idToNode| && idToNode[sub[k]] == Some(t);
    }
    forall c | 0 <= c < lv.numScc && cycleHas[c]
      ensures exists k :: 0 <= k < |sub| && heads[k] < |lv.ids| && lv.ids[heads[k]] == c
    {
      var k :| 0 <= k < |sub| && sub[k] < |idToNode| && idToNode[sub[k]].Some?
                 && idToNode[sub[k]].value < |lv.ids| && lv.ids[idToNode[sub[k]].value] == c;
    }
  }

  /** The heads of the recursion's edges are marked, and their cycle edges
      are not kept. */
  lemma MarksAt(lv: Contraction, idToNode: seq<Option<nat>>, sub: seq<nat>, nodeHas: seq<bool>, cycleHas: seq<bool>,
                tos: seq<nat>, heads: seq<nat>)
    requires Comps(lv) && Minis(lv) && Marked(lv, idToNode, sub, nodeHas, cycleHas) && KeptAt(lv, nodeHas, cycleHas, tos)
    requires |heads| == |sub| && forall k :: 0 <= k < |sub| ==> heads[k] < |lv.ids| && sub[k] < |idToNode| && idToNode[sub[k]] == Some(heads[k])
    ensures forall k :: 0 <= k < |sub| ==> nodeHas[heads[k]] && cycleHas[lv.ids[heads[k]]] && heads[k] !in tos
  {
    forall k | 0 <= k < |sub|
      ensures nodeHas[heads[k]] && cycleHas[lv.ids[heads[k]]]
    {
      assert EntersNode(sub, idToNode, heads[k]);
      assert EntersComponent(sub, idToNode, lv.ids, lv.ids[heads[k]]);
    }
  }

  /** What the expansion knows of the recursion's edges `subWhich`:
      `heads[k]` is the head of the edge behind the `k`th, in the component
      its contracted edge enters; the heads are marked and not kept; and
      every mark comes from a head. */
  ghost predicate HeadsOf(lv: Contraction, subWhich: seq<nat>, nodeHas: seq<bool>, cycleHas: seq<bool>, tos: seq<nat>, heads: seq<nat>)
  {
    && |heads| == |subWhich| && |nodeHas| == |lv.ids| && |cycleHas| == lv.numScc
    && (forall x :: 0 <= x < |lv.ids| ==> lv.ids[x] < lv.numScc)
    && (forall k :: 0 <= k < |heads| ==>
          subWhich[k] < |lv.next| && heads[k] < |lv.ids| && lv.next[subWhich[k]].to == lv.ids[heads[k]]
          && nodeHas[heads[k]] && cycleHas[lv.ids[heads[k]]] && heads[k] !in tos)
    && (forall t :: 0 <= t < |lv.ids| && nodeHas[t] ==> exists k :: 0 <= k < |heads| && heads[k] == t)
    && (forall c :: 0 <= c < lv.numScc && cycleHas[c] ==> exists k :: 0 <= k < |heads| && lv.ids[heads[k]] == c)
  }

  /** The heads of the recursion's edges. */
  lemma Heads(edges: seq<Edge>, n: nat, numIds: nat, lv: Contraction, idToNode: seq<Option<nat>>,
              sub: seq<nat>, subWhich: seq<nat>, nodeHas: seq<bool>, cycleHas: seq<bool>, tos: seq<nat>) returns (heads: seq<nat>)
    requires Expansion(edges, n, numIds, lv, idToNode, sub, subWhich, nodeHas, cycleHas, tos)
    ensures HeadsOf(lv, subWhich, nodeHas, cycleHas, tos, heads)
    ensures forall k :: 0 <= k < |sub| ==>
              subWhich[k] < |lv.origin| && lv.origin[subWhich[k]] < |edges| && heads[k] == edges[lv.origin[subWhich[k]]].to
  {
    SubHeads(edges, n, numIds, lv, sub, subWhich);
    heads := seq(|sub|, k requires 0 <= k < |sub| => edges[lv.origin[subWhich[k]]].to);
    MarksOnly(lv, idToNode, sub, nodeHas, cycleHas, heads);
    MarksAt(lv, idToNode, sub, nodeHas, cycleHas, tos, heads);
  }

  /** A cycle edge whose id is the cheapest one's is the cheapest edge. */
  lemma MiniNode(edges: seq<Edge>, critical: seq<Critical>, ids: seq<nat>, miniCost: seq<Option<int>>, miniId: seq<Option<nat>>, t: nat)
    requires UniqueIds(edges) && forall v :: 0 <= v < |critical| ==> critical[v] == BestInto(edges, v)
    requires InCycle(critical, ids, t) && ids[t] < |miniCost| && ids[t] < |miniId|
    requires miniCost[ids[t]] == CostOf(Cheapest(critical, ids, ids[t], |critical|))
    requires miniId[ids[t]] == IdOf(Cheapest(critical, ids, ids[t], |critical|))
    ensures miniId[ids[t]] == Some(critical[t].id) ==> miniCost[ids[t]] == Some(critical[t].cost)
  {
    var c := ids[t];
    CheapestIsMin(critical, ids, c, |critical|);
    var to :| 0 <= to < |critical| && InCycle(critical, ids, to) && ids[to] == c && critical[to] == Cheapest(critical, ids, c, |critical|).value;
    SameHead(edges, to, t);
  }

  /** A cycle node not kept is one the branching enters, or, in a cycle the
      branching does not enter, the head of the cheapest edge. */
  lemma Unkept(lv: Contraction, nodeHas: seq<bool>, cycleHas: seq<bool>, tos: seq<nat>, t: nat)
    requires Comps(lv) && Minis(lv) && |nodeHas| == |lv.ids| && |cycleHas| == lv.numScc && KeptAt(lv, nodeHas, cycleHas, tos)
    requires t < |lv.ids| && InCycle(lv.critical, lv.ids, t) && t !in tos
    ensures cycleHas[lv.ids[t]] ==> nodeHas[t]
    ensures !cycleHas[lv.ids[t]] ==> lv.miniId[lv.ids[t]] == Some(lv.critical[t].id)
  {
  }

  /** A node of component `c`, the head of its cheapest cycle edge when it
      has cycle edges. */
  lemma CheapestNode(critical: seq<Critical>, ids: seq<nat>, c: nat) returns (t: nat)
    requires |ids| == |critical| && Hit(ids, c)
    ensures t < |ids| && ids[t] == c
    ensures InCycle(critical, ids, t) ==> IdOf(Cheapest(critical, ids, c, |critical|)) == Some(critical[t].id)
  {
    t :| 0 <= t < |ids| && ids[t] == c;
    CheapestIsMin(critical, ids, c, |critical|);
    if Cheapest(critical, ids, c, |critical|).Some? {
      t :| 0 <= t < |critical| && InCycle(critical, ids, t) && ids[t] == c
             && critical[t] == Cheapest(critical, ids, c, |critical|).value;
    }
  }

  /** Every component has a node that is not kept. */
  lemma RepExists(lv: Contraction, subWhich: seq<nat>, nodeHas: seq<bool>, cycleHas: seq<bool>, tos: seq<nat>, heads: seq<nat>, c: nat)
      returns (t: nat)
    requires Comps(lv) && Minis(lv) && HeadsOf(lv, subWhich, nodeHas, cycleHas, tos, heads) && KeptAt(lv, nodeHas, cycleHas, tos)
    requires c < lv.numScc
    ensures t < |lv.ids| && lv.ids[t] == c && t !in tos
  {
    if cycleHas[c] {
      var k :| 0 <= k < |heads| && lv.ids[heads[k]] == c;
      t := heads[k];
    } else {
      assert Hit(lv.ids, c);
      t := CheapestNode(lv.critical, lv.ids, c);
    }
  }

  /** Two nodes of one component that the recursion's branching enters are
      one node. */
  lemma EnteredOnce(lv: Contraction, subWhich: seq<nat>, nodeHas: seq<bool>, cycleHas: seq<bool>, tos: seq<nat>,
                    heads: seq<nat>, t1: nat, t2: nat)
    requires HeadsOf(lv, subWhich, nodeHas, cycleHas, tos, heads) && InDegreeOne(lv.next, lv.numScc, subWhich)
    requires t1 < |lv.ids| && t2 < |lv.ids| && lv.ids[t1] == lv.ids[t2] && nodeHas[t1] && nodeHas[t2]
    ensures t1 == t2
  {
    var k1 :| 0 <= k1 < |heads| && heads[k1] == t1;
    var k2 :| 0 <= k2 < |heads| && heads[k2] == t2;
    OneEdgeInto(lv.next, lv.numScc, subWhich, k1, k2);
  }

  /** Two edges of a branching into one node are one edge. */
  lemma OneEdgeInto(edges: seq<Edge>, n: nat, which: seq<nat>, j: nat, k: nat)
    requires InDegreeOne(edges, n, which) && j < |which| && k < |which|
    requires edges[which[j]].to == edges[which[k]].to
    ensures j == k
  {
  }

  /** Every component has only one node that is not kept. */
  lemma RepUnique(edges: seq<Edge>, lv: Contraction, subWhich: seq<nat>, nodeHas: seq<bool>, cycleHas: seq<bool>, tos: seq<nat>,
                  heads: seq<nat>, t1: nat, t2: nat)
    requires UniqueIds(edges) && forall v :: 0 <= v < |lv.critical| ==> lv.critical[v] == BestInto(edges, v)
    requires Comps(lv) && Minis(lv) && HeadsOf(lv, subWhich, nodeHas, cycleHas, tos, heads) && KeptAt(lv, nodeHas, cycleHas, tos)
    requires InDegreeOne(lv.next, lv.numScc, subWhich)
    requires t1 < |lv.ids| && t2 < |lv.ids| && lv.ids[t1] == lv.ids[t2] && t1 !in tos && t2 !in tos
    ensures t1 == t2
  {
    var c := lv.ids[t1];
    NodeKind(lv, t1);
    NodeKind(lv, t2);
    if c < lv.numCycles {
      Unkept(lv, nodeHas, cycleHas, tos, t1);
      Unkept(lv, nodeHas, cycleHas, tos, t2);
      if cycleHas[c] {
        EnteredOnce(lv, subWhich, nodeHas, cycleHas, tos, heads, t1, t2);
      } else {
        SameHead(edges, t1, t2);
      }
    }
  }

  /** One node per component that is not kept: where the branching enters
      it, or the head of its cheapest cycle edge, or its only node. */
  lemma Reps(edges: seq<Edge>, lv: Contraction, subWhich: seq<nat>, nodeHas: seq<bool>, cycleHas: seq<bool>, tos: seq<nat>,
             heads: seq<nat>) returns (rep: seq<nat>)
    requires UniqueIds(edges) && forall v :: 0 <= v < |lv.critical| ==> lv.critical[v] == BestInto(edges, v)
    requires Comps(lv) && Minis(lv) && HeadsOf(lv, subWhich, nodeHas, cycleHas, tos, heads) && KeptAt(lv, nodeHas, cycleHas, tos)
    requires InDegreeOne(lv.next, lv.numScc, subWhich)
    ensures Represents(lv, tos, rep)
  {
    rep := [];
    for c := 0 to lv.numScc
      invariant |rep| == c && forall d :: 0 <= d < c ==> rep[d] < |lv.ids| && lv.ids[rep[d]] == d && rep[d] !in tos
    {
      var t := RepExists(lv, subWhich, nodeHas, cycleHas, tos, heads, c);
      rep := rep + [t];
    }
    forall t | 0 <= t < |lv.ids| && t !in tos
      ensures rep[lv.ids[t]] == t
    {
      RepUnique(edges, lv, subWhich, nodeHas, cycleHas, tos, heads, t, rep[lv.ids[t]]);
    }
  }

  /** `rep` names, for every component, its one node that is not kept. */
  ghost predicate Represents(lv: Contraction, tos: seq<nat>, rep: seq<nat>)
  {
    && (forall x :: 0 <= x < |lv.ids| ==> lv.ids[x] < lv.numScc)
    && |rep| == lv.numScc && (forall c :: 0 <= c < lv.numScc ==> rep[c] < |lv.ids| && lv.ids[rep[c]] == c && rep[c] !in tos)
    && (forall t :: 0 <= t < |lv.ids| && t !in tos ==> rep[lv.ids[t]] == t)
  }

  /** The expanded branching's edges: those behind the recursion's, then the
      kept cycle edges. */
  ghost function ExpandedWhich(edges: seq<Edge>, origin: seq<nat>, subWhich: seq<nat>, tos: seq<nat>): seq<nat>
    requires forall k :: 0 <= k < |subWhich| ==> subWhich[k] < |origin|
    requires forall j :: 0 <= j < |tos| ==> BestInto(edges, tos[j]).from.Some?
  {
    Lifted(origin, subWhich) + seq(|tos|, j requires 0 <= j < |tos| => CriticalIndex(edges, tos[j]))
  }

  /** The `k`th edge of the expanded branching `which` stands for the
      recursion's `k`th: it lies between the components its contracted edge
      joins and costs that edge's cost plus what the contraction took off. */
  ghost predicate SubStep(edges: seq<Edge>, lv: Contraction, subWhich: seq<nat>, which: seq<nat>, k: nat)
    requires Minis(lv) && (forall x :: 0 <= x < |lv.ids| ==> lv.ids[x] < lv.numScc) && k < |subWhich| && k < |which|
  {
    && which[k] < |edges| && edges[which[k]].from < |lv.ids| && edges[which[k]].to < |lv.ids| && subWhich[k] < |lv.next|
    && lv.ids[edges[which[k]].from] == lv.next[subWhich[k]].from && lv.ids[edges[which[k]].to] == lv.next[subWhich[k]].to
    && edges[which[k]].cost
       == lv.next[subWhich[k]].cost
          + if InCycle(lv.critical, lv.ids, edges[which[k]].to)
            then lv.critical[edges[which[k]].to].cost - Present(lv.miniCost)[lv.ids[edges[which[k]].to]] else 0
  }

  /** The edge of `which` after the recursion's, `j` places on, is the
      critical edge of the kept node `tos[j]`. */
  ghost predicate KeptStep(edges: seq<Edge>, lv: Contraction, subWhich: seq<nat>, tos: seq<nat>, which: seq<nat>, j: nat)
    requires Minis(lv) && j < |tos| && |subWhich| + j < |which|
  {
    && which[|subWhich| + j] < |edges| && tos[j] < |lv.ids| && InCycle(lv.critical, lv.ids, tos[j])
    && edges[which[|subWhich| + j]].from < |lv.ids| && edges[which[|subWhich| + j]].to == tos[j]
    && edges[which[|subWhich| + j]].cost == lv.critical[tos[j]].cost
    && Some(edges[which[|subWhich| + j]].from) == lv.critical[tos[j]].from
  }

  /** The shape of the expanded branching `which`: first the edges behind the
      recursion's `subWhich`, then the kept critical edges into the nodes
      `tos`. */
  ghost predicate Expands(edges: seq<Edge>, lv: Contraction, subWhich: seq<nat>, tos: seq<nat>, which: seq<nat>)
    requires Minis(lv) && forall x :: 0 <= x < |lv.ids| ==> lv.ids[x] < lv.numScc
  {
    && |which| == |subWhich| + |tos|
    && (forall k :: 0 <= k < |which| ==> which[k] < |edges| && edges[which[k]].from < |lv.ids| && edges[which[k]].to < |lv.ids|)
    && (forall k :: 0 <= k < |subWhich| ==> SubStep(edges, lv, subWhich, which, k))
    && (forall j :: 0 <= j < |tos| ==> KeptStep(edges, lv, subWhich, tos, which, j))
  }

  /** The expanded answer names eligible edges of `edges`, those behind the
      recursion's first. */
  lemma ExpandedPicks(edges: seq<Edge>, n: nat, critical: seq<Critical>, ids: seq<nat>, origin: seq<nat>,
                      sub: seq<nat>, subWhich: seq<nat>, branching: seq<nat>, tos: seq<nat>)
    requires |critical| == n && forall v :: 0 <= v < n ==> critical[v] == BestInto(edges, v)
    requires |subWhich| == |sub| && |branching| == |sub| + |tos|
    requires forall k :: 0 <= k < |sub| ==>
               subWhich[k] < |origin| && origin[subWhich[k]] < |edges|
               && edges[origin[subWhich[k]]].id == branching[k] && Eligible(edges[origin[subWhich[k]]])
    requires forall j :: 0 <= j < |tos| ==> tos[j] < n && branching[|sub| + j] == critical[tos[j]].id
    requires forall t :: 0 <= t < n && t in tos ==> InCycle(critical, ids, t)
    ensures forall k :: 0 <= k < |subWhich| ==> subWhich[k] < |origin|
    ensures forall j :: 0 <= j < |tos| ==> BestInto(edges, tos[j]).from.Some?
    ensures Picks(edges, branching, ExpandedWhich(edges, origin, subWhich, tos))
    ensures forall k :: 0 <= k < |sub| ==> ExpandedWhich(edges, origin, subWhich, tos)[k] == origin[subWhich[k]]
  {
    KeptPicks(edges, n, critical, ids, |sub|, branching, tos);
    PicksJoin(edges, origin, subWhich, branching, tos);
  }

  /** The edges behind the recursion's name its ids. */
  lemma SubPicks(edges: seq<Edge>, n: nat, numIds: nat, lv: Contraction, sub: seq<nat>, subWhich: seq<nat>, branching: seq<nat>)
    requires Contracted(edges, n, numIds, lv) && Picks(lv.next, sub, subWhich)
    requires |sub| <= |branching| && branching[..|sub|] == sub
    ensures forall k :: 0 <= k < |sub| ==>
              subWhich[k] < |lv.origin| && lv.origin[subWhich[k]] < |edges|
              && edges[lv.origin[subWhich[k]]].id == branching[k] && Eligible(edges[lv.origin[subWhich[k]]])
  {
    forall k | 0 <= k < |sub|
      ensures subWhich[k] < |lv.origin| && lv.origin[subWhich[k]] < |edges|
      ensures edges[lv.origin[subWhich[k]]].id == branching[k] && Eligible(edges[lv.origin[subWhich[k]]])
    {
      SubEdge(edges, n, numIds, lv, sub, subWhich, k);
      assert branching[k] == branching[..|sub|][k];
    }
  }

  /** The kept cycle edges name the critical edges of their heads. */
  lemma KeptPicks(edges: seq<Edge>, n: nat, critical: seq<Critical>, ids: seq<nat>, off: nat, branching: seq<nat>, tos: seq<nat>)
    requires |critical| == n && forall v :: 0 <= v < n ==> critical[v] == BestInto(edges, v)
    requires |branching| == off + |tos|
    requires forall j :: 0 <= j < |tos| ==> tos[j] < n && branching[off + j] == critical[tos[j]].id
    requires forall t :: 0 <= t < n && t in tos ==> InCycle(critical, ids, t)
    ensures forall j :: 0 <= j < |tos| ==>
              BestInto(edges, tos[j]).from.Some?
              && edges[CriticalIndex(edges, tos[j])].id == branching[off + j] && Eligible(edges[CriticalIndex(edges, tos[j])])
  {
    forall j | 0 <= j < |tos|
      ensures BestInto(edges, tos[j]).from.Some?
    {
      assert tos[j] in tos;
    }
  }

  /** Joined, they name the whole expanded answer. */
  lemma PicksJoin(edges: seq<Edge>, origin: seq<nat>, subWhich: seq<nat>, branching: seq<nat>, tos: seq<nat>)
    requires |subWhich| + |tos| == |branching|
    requires forall k :: 0 <= k < |subWhich| ==>
               subWhich[k] < |origin| && origin[subWhich[k]] < |edges|
               && edges[origin[subWhich[k]]].id == branching[k] && Eligible(edges[origin[subWhich[k]]])
    requires forall j :: 0 <= j < |tos| ==>
               BestInto(edges, tos[j]).from.Some?
               && edges[CriticalIndex(edges, tos[j])].id == branching[|subWhich| + j] && Eligible(edges[CriticalIndex(edges, tos[j])])
    ensures Picks(edges, branching, ExpandedWhich(edges, origin, subWhich, tos))
    ensures forall k :: 0 <= k < |subWhich| ==> ExpandedWhich(edges, origin, subWhich, tos)[k] == origin[subWhich[k]]
  {
    var which := ExpandedWhich(edges, origin, subWhich, tos);
    forall k | 0 <= k < |which|
      ensures which[k] < |edges| && edges[which[k]].id == branching[k] && Eligible(edges[which[k]])
    {
      if k >= |subWhich| {
        assert which[k] == CriticalIndex(edges, tos[k - |subWhich|]);
      }
    }
  }

  /** The expanded answer's `k`th edge stands for the recursion's. */
  lemma ExpandedSub(edges: seq<Edge>, n: nat, numIds: nat, lv: Contraction, sub: seq<nat>, subWhich: seq<nat>, tos: seq<nat>, k: nat)
    requires Contracted(edges, n, numIds, lv) && Picks(lv.next, sub, subWhich) && k < |sub|
    requires forall k :: 0 <= k < |subWhich| ==> subWhich[k] < |lv.origin|
    requires forall j :: 0 <= j < |tos| ==> BestInto(edges, tos[j]).from.Some?
    ensures SubStep(edges, lv, subWhich, ExpandedWhich(edges, lv.origin, subWhich, tos), k)
  {
    assert ExpandedWhich(edges, lv.origin, subWhich, tos)[k] == lv.origin[subWhich[k]];
    SubEdge(edges, n, numIds, lv, sub, subWhich, k);
  }

  /** The expanded answer's edges after the recursion's are the kept
      critical edges. */
  lemma ExpandedKept(edges: seq<Edge>, n: nat, numIds: nat, lv: Contraction, subWhich: seq<nat>, tos: seq<nat>, j: nat)
    requires Level(edges, n, numIds, lv.critical) && Minis(lv) && j < |tos|
    requires forall j :: 0 <= j < |tos| ==> tos[j] < n
    requires forall t :: 0 <= t < n && t in tos ==> InCycle(lv.critical, lv.ids, t)
    requires forall k :: 0 <= k < |subWhich| ==> subWhich[k] < |lv.origin|
    requires forall j :: 0 <= j < |tos| ==> BestInto(edges, tos[j]).from.Some?
    ensures KeptStep(edges, lv, subWhich, tos, ExpandedWhich(edges, lv.origin, subWhich, tos), j)
  {
    assert tos[j] in tos;
    assert ExpandedWhich(edges, lv.origin, subWhich, tos)[|subWhich| + j] == CriticalIndex(edges, tos[j]);
  }

  /** The expanded answer has the shape `Expands` describes. */
  lemma ExpandedEdges(edges: seq<Edge>, n: nat, numIds: nat, lv: Contraction, sub: seq<nat>, subWhich: seq<nat>, tos: seq<nat>)
    requires Contracted(edges, n, numIds, lv) && Picks(lv.next, sub, subWhich)
    requires forall j :: 0 <= j < |tos| ==> tos[j] < n
    requires forall t :: 0 <= t < n && t in tos ==> InCycle(lv.critical, lv.ids, t)
    requires forall k :: 0 <= k < |subWhich| ==> subWhich[k] < |lv.origin|
    requires forall j :: 0 <= j < |tos| ==> BestInto(edges, tos[j]).from.Some?
    ensures Expands(edges, lv, subWhich, tos, ExpandedWhich(edges, lv.origin, subWhich, tos))
  {
    var which := ExpandedWhich(edges, lv.origin, subWhich, tos);
    forall k | 0 <= k < |sub|
      ensures SubStep(edges, lv, subWhich, which, k)
    {
      ExpandedSub(edges, n, numIds, lv, sub, subWhich, tos, k);
    }
    forall j | 0 <= j < |tos|
      ensures KeptStep(edges, lv, subWhich, tos, which, j)
    {
      ExpandedKept(edges, n, numIds, lv, subWhich, tos, j);
    }
    forall k | 0 <= k < |which|
      ensures which[k] < |edges| && edges[which[k]].from < |lv.ids| && edges[which[k]].to < |lv.ids|
    {
      if k >= |sub| {
        assert KeptStep(edges, lv, subWhich, tos, which, k - |sub|);
      }
    }
  }

  /** The expanded branching enters every node at most once. */
  lemma ExpandedHeads(edges: seq<Edge>, lv: Contraction, subWhich: seq<nat>, tos: seq<nat>, which: seq<nat>)
    requires Minis(lv) && (forall x :: 0 <= x < |lv.ids| ==> lv.ids[x] < lv.numScc) && Expands(edges, lv, subWhich, tos, which)
    requires InDegreeOne(lv.next, lv.numScc, subWhich)
    requires forall k :: 0 <= k < |subWhich| ==> edges[which[k]].to !in tos
    requires forall j, l :: 0 <= j < l < |tos| ==> tos[j] < tos[l]
    ensures InDegreeOne(edges, |lv.ids|, which)
  {
    forall j, k | 0 <= j < k < |which|
      ensures edges[which[j]].to != edges[which[k]].to
    {
      if k < |subWhich| {
        assert SubStep(edges, lv, subWhich, which, j) && SubStep(edges, lv, subWhich, which, k);
        assert lv.next[subWhich[j]].to != lv.next[subWhich[k]].to;
      } else if j < |subWhich| {
        assert KeptStep(edges, lv, subWhich, tos, which, k - |subWhich|);
        assert tos[k - |subWhich|] in tos;
      } else {
        assert KeptStep(edges, lv, subWhich, tos, which, j - |subWhich|) && KeptStep(edges, lv, subWhich, tos, which, k - |subWhich|);
        assert tos[j - |subWhich|] < tos[k - |subWhich|];
      }
    }
  }

  /** Each node reaches the node of its component that is not kept. */
  lemma ReachRep(lv: Contraction, tos: seq<nat>, rep: seq<nat>)
    requires Comps(lv) && Represents(lv, tos, rep)
    ensures forall v :: 0 <= v < |lv.ids| ==> Reaches(lv.critical, v, rep[lv.ids[v]])
  {
    forall v | 0 <= v < |lv.ids|
      ensures Reaches(lv.critical, v, rep[lv.ids[v]])
    {
      if lv.ids[v] >= lv.numCycles {
        assert rep[lv.ids[v]] == v;
        assert Walk(lv.critical, v, 0) == Some(v);
      }
    }
  }

  /** The rank `d` steps into a component of rank `a`, among `n` nodes. */
  function LexRank(a: nat, n: nat, d: nat): nat
  {
    a * n + d
  }

  /** `a * n + d` with `d < n` lies below `b * n + e` once `a < b`. */
  lemma {:induction false} Scaled(a: nat, b: nat, d: nat, e: nat, n: nat)
    requires a < b && d < n
    ensures a * n + d < b * n + e
    decreases b
  {
    if a + 1 < b {
      Scaled(a, b - 1, d, e, n);
      assert b * n == (b - 1) * n + n;
    } else {
      assert b * n == a * n + n;
    }
  }

  /** The rank of every node of the expanded graph: first the recursion's
      rank of its component, then its distance to that component's node
      that is not kept. */
  ghost function ExpandedRanks(lv: Contraction, tos: seq<nat>, rep: seq<nat>, subRank: seq<nat>): (rank: seq<nat>)
    requires Comps(lv) && Represents(lv, tos, rep) && |subRank| == lv.numScc
    ensures |rank| == |lv.ids|
    ensures forall v :: 0 <= v < |lv.ids| ==>
              Reaches(lv.critical, v, rep[lv.ids[v]])
              && rank[v] == LexRank(subRank[lv.ids[v]], |lv.ids|, Least(lv.critical, v, Some(rep[lv.ids[v]])))
  {
    ReachRep(lv, tos, rep);
    seq(|lv.ids|, v requires 0 <= v < |lv.ids| => LexRank(subRank[lv.ids[v]], |lv.ids|, Least(lv.critical, v, Some(rep[lv.ids[v]]))))
  }

  /** Between components the rank follows the recursion's. */
  lemma RankAcross(lv: Contraction, tos: seq<nat>, rep: seq<nat>, subRank: seq<nat>, f: nat, t: nat)
    requires Comps(lv) && Represents(lv, tos, rep) && |subRank| == lv.numScc
    requires f < |lv.ids| && t < |lv.ids| && subRank[lv.ids[f]] < subRank[lv.ids[t]]
    ensures ExpandedRanks(lv, tos, rep, subRank)[f] < ExpandedRanks(lv, tos, rep, subRank)[t]
  {
    var cr, n := lv.critical, |lv.ids|;
    var r := ExpandedRanks(lv, tos, rep, subRank);
    var df, dt := Least(cr, f, Some(rep[lv.ids[f]])), Least(cr, t, Some(rep[lv.ids[t]]));
    LeastBound(cr, f, rep[lv.ids[f]]);
    Scaled(subRank[lv.ids[f]], subRank[lv.ids[t]], df, dt, n);
    assert r[f] == LexRank(subRank[lv.ids[f]], n, df) && r[t] == LexRank(subRank[lv.ids[t]], n, dt);
  }

  /** Along a kept cycle edge the rank rises, nearer the node not kept. */
  lemma RankAlong(lv: Contraction, tos: seq<nat>, rep: seq<nat>, subRank: seq<nat>, t: nat)
    requires Comps(lv) && Represents(lv, tos, rep) && |subRank| == lv.numScc
    requires t < |lv.ids| && t in tos && InCycle(lv.critical, lv.ids, t)
    ensures ExpandedRanks(lv, tos, rep, subRank)[lv.critical[t].from.value] < ExpandedRanks(lv, tos, rep, subRank)[t]
  {
    var r := ExpandedRanks(lv, tos, rep, subRank);
    LeastStep(lv.critical, t, Some(rep[lv.ids[t]]));
  }

  /** The expanded branching closes no cycle. */
  lemma ExpandedRank(edges: seq<Edge>, lv: Contraction, subWhich: seq<nat>, tos: seq<nat>, which: seq<nat>,
                     subRank: seq<nat>, rep: seq<nat>) returns (rank: seq<nat>)
    requires Comps(lv) && Minis(lv) && Represents(lv, tos, rep) && Expands(edges, lv, subWhich, tos, which)
    requires |subRank| == lv.numScc && Ranked(lv.next, subWhich, subRank)
    ensures |rank| == |lv.ids| && Ranked(edges, which, rank)
  {
    rank := ExpandedRanks(lv, tos, rep, subRank);
    forall k | 0 <= k < |which|
      ensures edges[which[k]].from < |rank| && edges[which[k]].to < |rank| && rank[edges[which[k]].from] < rank[edges[which[k]].to]
    {
      if k < |subWhich| {
        assert SubStep(edges, lv, subWhich, which, k);
        RankAcross(lv, tos, rep, subRank, edges[which[k]].from, edges[which[k]].to);
      } else {
        assert KeptStep(edges, lv, subWhich, tos, which, k - |subWhich|);
        assert tos[k - |subWhich|] in tos;
        RankAlong(lv, tos, rep, subRank, edges[which[k]].to);
      }
    }
  }

  /** What the expanded branching brings into node `t`: its critical edge's
      cost inside a cycle, and, at the node of its component that is not
      kept, what the recursion brings into the component less the cheapest
      cycle edge. */
  ghost predicate CostAt(edges: seq<Edge>, lv: Contraction, subWhich: seq<nat>, which: seq<nat>, rep: seq<nat>, t: nat)
    requires Minis(lv) && (forall x :: 0 <= x < |lv.ids| ==> lv.ids[x] < lv.numScc) && |rep| == lv.numScc && t < |lv.ids|
    requires InDegreeOne(edges, |lv.ids|, which) && InDegreeOne(lv.next, lv.numScc, subWhich)
  {
    Into(edges, which, |lv.ids|)[t]
    == (if InCycle(lv.critical, lv.ids, t) then lv.critical[t].cost else 0)
       + (if rep[lv.ids[t]] == t then Into(lv.next, subWhich, lv.numScc)[lv.ids[t]] - Present(lv.miniCost)[lv.ids[t]] else 0)
  }

  /** A kept node receives its critical edge. */
  lemma CostKept(edges: seq<Edge>, lv: Contraction, subWhich: seq<nat>, tos: seq<nat>, which: seq<nat>, rep: seq<nat>, t: nat)
    requires Minis(lv) && (forall x :: 0 <= x < |lv.ids| ==> lv.ids[x] < lv.numScc) && Represents(lv, tos, rep)
    requires Expands(edges, lv, subWhich, tos, which)
    requires InDegreeOne(edges, |lv.ids|, which) && InDegreeOne(lv.next, lv.numScc, subWhich)
    requires t < |lv.ids| && t in tos
    ensures CostAt(edges, lv, subWhich, which, rep, t)
  {
    IntoAt(edges, which, |lv.ids|);
    var j :| 0 <= j < |tos| && tos[j] == t;
    assert KeptStep(edges, lv, subWhich, tos, which, j);
  }

  /** A node the recursion's branching enters is the head of the `k`th edge
      of the expanded branching, and its component's node not kept. */
  lemma EnteredAt(lv: Contraction, edges: seq<Edge>, subWhich: seq<nat>, nodeHas: seq<bool>, cycleHas: seq<bool>, tos: seq<nat>,
                  heads: seq<nat>, which: seq<nat>, rep: seq<nat>, t: nat) returns (k: nat)
    requires Minis(lv) && HeadsOf(lv, subWhich, nodeHas, cycleHas, tos, heads) && Represents(lv, tos, rep)
    requires Expands(edges, lv, subWhich, tos, which)
    requires forall k :: 0 <= k < |subWhich| ==> edges[which[k]].to == heads[k]
    requires t < |lv.ids| && t !in tos && nodeHas[t]
    ensures k < |subWhich| && k < |which| && SubStep(edges, lv, subWhich, which, k)
    ensures edges[which[k]].to == t && rep[lv.ids[t]] == t
  {
    k :| 0 <= k < |heads| && heads[k] == t;
  }

  /** A node the recursion's branching enters receives the edge behind the
      contracted one. */
  lemma CostEntered(edges: seq<Edge>, lv: Contraction, subWhich: seq<nat>, which: seq<nat>, rep: seq<nat>, t: nat, k: nat)
    requires Comps(lv) && Minis(lv) && (forall x :: 0 <= x < |lv.ids| ==> lv.ids[x] < lv.numScc) && |rep| == lv.numScc
    requires InDegreeOne(edges, |lv.ids|, which) && InDegreeOne(lv.next, lv.numScc, subWhich)
    requires t < |lv.ids| && k < |subWhich| && k < |which| && SubStep(edges, lv, subWhich, which, k)
    requires edges[which[k]].to == t && rep[lv.ids[t]] == t
    ensures CostAt(edges, lv, subWhich, which, rep, t)
  {
    IntoAt(edges, which, |lv.ids|);
    IntoAt(lv.next, subWhich, lv.numScc);
    MiniKind(lv, t);
  }

  /** A node that is not kept and has no head of the recursion's edges at
      it receives no edge. */
  lemma NoneEnters(edges: seq<Edge>, lv: Contraction, subWhich: seq<nat>, tos: seq<nat>, which: seq<nat>, heads: seq<nat>, t: nat)
    requires Minis(lv) && (forall x :: 0 <= x < |lv.ids| ==> lv.ids[x] < lv.numScc) && Expands(edges, lv, subWhich, tos, which)
    requires |heads| == |subWhich| && forall k :: 0 <= k < |subWhich| ==> edges[which[k]].to == heads[k] && heads[k] != t
    requires t !in tos
    ensures Unentered(edges, which, t)
  {
    forall k | 0 <= k < |which|
      ensures edges[which[k]].to != t
    {
      if k >= |subWhich| {
        assert KeptStep(edges, lv, subWhich, tos, which, k - |subWhich|);
        assert tos[k - |subWhich|] in tos;
      }
    }
  }

  /** The component of a node neither kept nor entered is one the
      recursion's branching does not enter. */
  lemma ComponentNone(lv: Contraction, subWhich: seq<nat>, nodeHas: seq<bool>, cycleHas: seq<bool>, tos: seq<nat>,
                      heads: seq<nat>, rep: seq<nat>, t: nat)
    requires HeadsOf(lv, subWhich, nodeHas, cycleHas, tos, heads) && Represents(lv, tos, rep)
    requires t < |lv.ids| && t !in tos && !nodeHas[t]
    ensures !cycleHas[lv.ids[t]] && Unentered(lv.next, subWhich, lv.ids[t]) && rep[lv.ids[t]] == t
    ensures forall k :: 0 <= k < |heads| ==> heads[k] != t
  {
    if cycleHas[lv.ids[t]] {
      assert false;
    }
  }

  /** What `CostNone` needs of a node neither kept nor entered. */
  lemma NoneFacts(lv: Contraction, edges: seq<Edge>, subWhich: seq<nat>, nodeHas: seq<bool>, cycleHas: seq<bool>, tos: seq<nat>,
                  heads: seq<nat>, which: seq<nat>, rep: seq<nat>, t: nat)
    requires Comps(lv) && Minis(lv) && HeadsOf(lv, subWhich, nodeHas, cycleHas, tos, heads) && KeptAt(lv, nodeHas, cycleHas, tos)
    requires Represents(lv, tos, rep) && Expands(edges, lv, subWhich, tos, which)
    requires forall k :: 0 <= k < |subWhich| ==> edges[which[k]].to == heads[k]
    requires t < |lv.ids| && t !in tos && !nodeHas[t]
    ensures Unentered(edges, which, t) && Unentered(lv.next, subWhich, lv.ids[t]) && rep[lv.ids[t]] == t
    ensures InCycle(lv.critical, lv.ids, t) ==> lv.miniId[lv.ids[t]] == Some(lv.critical[t].id)
  {
    ComponentNone(lv, subWhich, nodeHas, cycleHas, tos, heads, rep, t);
    NoneEnters(edges, lv, subWhich, tos, which, heads, t);
    if InCycle(lv.critical, lv.ids, t) {
      Unkept(lv, nodeHas, cycleHas, tos, t);
    }
  }

  /** A node neither kept nor entered receives nothing, and, as its
      component's node not kept, nothing enters the component and its
      critical edge, if in a cycle, is the cheapest. */
  lemma CostNone(edges: seq<Edge>, lv: Contraction, subWhich: seq<nat>, which: seq<nat>, rep: seq<nat>, t: nat)
    requires UniqueIds(edges) && forall v :: 0 <= v < |lv.critical| ==> lv.critical[v] == BestInto(edges, v)
    requires Comps(lv) && Minis(lv) && (forall x :: 0 <= x < |lv.ids| ==> lv.ids[x] < lv.numScc) && |rep| == lv.numScc
    requires InDegreeOne(edges, |lv.ids|, which) && InDegreeOne(lv.next, lv.numScc, subWhich)
    requires t < |lv.ids| && Unentered(edges, which, t) && Unentered(lv.next, subWhich, lv.ids[t]) && rep[lv.ids[t]] == t
    requires InCycle(lv.critical, lv.ids, t) ==> lv.miniId[lv.ids[t]] == Some(lv.critical[t].id)
    ensures CostAt(edges, lv, subWhich, which, rep, t)
  {
    IntoAt(edges, which, |lv.ids|);
    IntoAt(lv.next, subWhich, lv.numScc);
    MiniKind(lv, t);
    if InCycle(lv.critical, lv.ids, t) {
      MiniNode(edges, lv.critical, lv.ids, lv.miniCost, lv.miniId, t);
    }
  }

  /** Every node receives what `CostAt` says. */
  lemma NodeCost(edges: seq<Edge>, lv: Contraction, subWhich: seq<nat>, nodeHas: seq<bool>, cycleHas: seq<bool>, tos: seq<nat>,
                 heads: seq<nat>, which: seq<nat>, rep: seq<nat>, t: nat)
    requires UniqueIds(edges) && forall v :: 0 <= v < |lv.critical| ==> lv.critical[v] == BestInto(edges, v)
    requires Comps(lv) && Minis(lv) && HeadsOf(lv, subWhich, nodeHas, cycleHas, tos, heads) && KeptAt(lv, nodeHas, cycleHas, tos)
    requires Represents(lv, tos, rep) && Expands(edges, lv, subWhich, tos, which)
    requires forall k :: 0 <= k < |subWhich| ==> edges[which[k]].to == heads[k]
    requires InDegreeOne(edges, |lv.ids|, which) && InDegreeOne(lv.next, lv.numScc, subWhich)
    requires t < |lv.ids|
    ensures CostAt(edges, lv, subWhich, which, rep, t)
  {
    if t in tos {
      CostKept(edges, lv, subWhich, tos, which, rep, t);
    } else if nodeHas[t] {
      var k := EnteredAt(lv, edges, subWhich, nodeHas, cycleHas, tos, heads, which, rep, t);
      CostEntered(edges, lv, subWhich, which, rep, t, k);
    } else {
      NoneFacts(lv, edges, subWhich, nodeHas, cycleHas, tos, heads, which, rep, t);
      CostNone(edges, lv, subWhich, which, rep, t);
    }
  }

  /** `CostAt` holds at every node. */
  lemma NodeCosts(edges: seq<Edge>, lv: Contraction, subWhich: seq<nat>, nodeHas: seq<bool>, cycleHas: seq<bool>, tos: seq<nat>,
                  heads: seq<nat>, which: seq<nat>, rep: seq<nat>)
    requires UniqueIds(edges) && forall v :: 0 <= v < |lv.critical| ==> lv.critical[v] == BestInto(edges, v)
    requires Comps(lv) && Minis(lv) && HeadsOf(lv, subWhich, nodeHas, cycleHas, tos, heads) && KeptAt(lv, nodeHas, cycleHas, tos)
    requires Represents(lv, tos, rep) && Expands(edges, lv, subWhich, tos, which)
    requires forall k :: 0 <= k < |subWhich| ==> edges[which[k]].to == heads[k]
    requires InDegreeOne(edges, |lv.ids|, which) && InDegreeOne(lv.next, lv.numScc, subWhich)
    ensures forall t :: 0 <= t < |lv.ids| ==> CostAt(edges, lv, subWhich, which, rep, t)
  {
    forall t | 0 <= t < |lv.ids|
      ensures CostAt(edges, lv, subWhich, which, rep, t)
    {
      NodeCost(edges, lv, subWhich, nodeHas, cycleHas, tos, heads, which, rep, t);
    }
  }

  /** The inside cost is the sum over the nodes of their critical edges'
      costs inside cycles. */
  lemma {:induction false} InsideSum(critical: seq<Critical>, ids: seq<nat>, k: nat)
    requires k <= |critical|
    ensures InsideCost(critical, ids, k)
            == Sums.Sum(seq(k, t requires 0 <= t < k => if InCycle(critical, ids, t) then critical[t].cost else 0))
  {
    if k > 0 {
      InsideSum(critical, ids, k - 1);
      var s := seq(k, t requires 0 <= t < k => if InCycle(critical, ids, t) then critical[t].cost else 0);
      assert s[..k - 1] == seq(k - 1, t requires 0 <= t < k - 1 => if InCycle(critical, ids, t) then critical[t].cost else 0);
    }
  }

  /** The expanded branching costs what the recursion's does plus every
      cycle edge but the cheapest of each cycle: `cost + total_cost`. */
  lemma ExpandedCost(edges: seq<Edge>, lv: Contraction, subWhich: seq<nat>, which: seq<nat>, rep: seq<nat>)
    requires Minis(lv) && (forall x :: 0 <= x < |lv.ids| ==> lv.ids[x] < lv.numScc)
    requires |rep| == lv.numScc && forall c :: 0 <= c < lv.numScc ==> rep[c] < |lv.ids| && lv.ids[rep[c]] == c
    requires InDegreeOne(edges, |lv.ids|, which) && InDegreeOne(lv.next, lv.numScc, subWhich)
    requires forall t :: 0 <= t < |lv.ids| ==> CostAt(edges, lv, subWhich, which, rep, t)
    ensures ChosenCost(edges, which)
            == ChosenCost(lv.next, subWhich) + InsideCost(lv.critical, lv.ids, |lv.ids|) - Sums.Sum(Present(lv.miniCost))
  {
    var n := |lv.ids|;
    var into := Into(edges, which, n);
    var into' := Into(lv.next, subWhich, lv.numScc);
    var present := Present(lv.miniCost);
    var h := seq(lv.numScc, c requires 0 <= c < lv.numScc => into'[c] - present[c]);
    var inside := seq(n, t requires 0 <= t < n => if InCycle(lv.critical, lv.ids, t) then lv.critical[t].cost else 0);
    var atReps := Sums.AtReps(lv.ids, rep, h, n);
    forall t | 0 <= t < n
      ensures into[t] == inside[t] + atReps[t]
    {
      assert CostAt(edges, lv, subWhich, which, rep, t);
    }
    Sums.SumPlus(into, inside, atReps);
    Sums.Regroup(lv.ids, rep, h);
    Sums.SumPlus(into', h, present);
    IntoSum(edges, which, n);
    IntoSum(lv.next, subWhich, lv.numScc);
    InsideSum(lv.critical, lv.ids, n);
  }

  /** `solve`: the input graph's edges, numbered by position. */
  function InputEdges(es: seq<Graph.Edge<int>>): (r: seq<Edge>)
    ensures |r| == |es| && UniqueIds(r)
    ensures forall i :: 0 <= i < |es| ==> r[i] == Edge(i, es[i].u, es[i].v, es[i].data)
  {
    seq(|es|, i requires 0 <= i < |es| => Edge(i, es[i].u, es[i].v, es[i].data))
  }

  /** On the input graph an edge id is the edge's position. */
  lemma InputPicks(es: seq<Graph.Edge<int>>, branching: seq<nat>, which: seq<nat>)
    requires Picks(InputEdges(es), branching, which)
    ensures which == branching
  {
  }

  /** The solver; `numEdges` is the number of edges of the graph being solved,
      which sizes `edge_id_to_node` on every level. */
  class Edmonds {
    var numEdges: nat

    constructor ()
      ensures numEdges == 0
    {
      numEdges := 0;
    }

    /** A branching of `graph`: the ids of its edges, at most one into each
        node, closing no cycle (`rank` rises along each), and its cost, the
        sum of their weights. It is of maximum weight when the critical
        edges form no cycle. */
    method Solve(graph: Graph.Graph<(), int>) returns (cost: int, branching: seq<nat>, ghost rank: seq<nat>)
      requires graph.Valid()
      modifies this
      ensures numEdges == |graph.edges|
      ensures forall k :: 0 <= k < |branching| ==> branching[k] < |graph.edges|
      ensures Distinct(branching)
      ensures Branching(InputEdges(graph.edges), |graph.nodes|, branching, rank)
      ensures cost == ChosenCost(InputEdges(graph.edges), branching)
      ensures Acyclic(Criticals(InputEdges(graph.edges), |graph.nodes|)) ==>
                cost == CriticalCost(Criticals(InputEdges(graph.edges), |graph.nodes|))
                && branching == CriticalIds(Criticals(InputEdges(graph.edges), |graph.nodes|))
    {
      numEdges := |graph.edges|;
      var es := graph.edges;
      var edges := [];
      for i := 0 to |es|
        invariant |edges| == i && forall j :: 0 <= j < i ==> edges[j] == Edge(j, es[j].u, es[j].v, es[j].data)
      {
        edges := edges + [Edge(i, es[i].u, es[i].v, es[i].data)];
      }
      assert edges == InputEdges(es);
      ghost var which;
      cost, branching, which, rank := MaximumBranching(|graph.nodes|, edges);
      InputPicks(es, branching, which);
    }

    /** `maximum_branching` on `n` nodes: the critical edges if they close no
        cycle, otherwise the solution of the contracted graph with the cycles
        expanded again. `which` gives the edge behind every id. */
    method MaximumBranching(n: nat, edges: seq<Edge>) returns (cost: int, branching: seq<nat>, ghost which: seq<nat>, ghost rank: seq<nat>)
      requires EdgesIn(edges, n, numEdges)
      ensures Picks(edges, branching, which)
      ensures UniqueIds(edges) ==>
                Distinct(branching) && Branching(edges, n, which, rank) && cost == ChosenCost(edges, which)
      ensures Acyclic(Criticals(edges, n)) ==>
                cost == CriticalCost(Criticals(edges, n)) && branching == CriticalIds(Criticals(edges, n))
      decreases n, 1
    {
      var critical, idToNode := CriticalEdges(n, numEdges, edges);
      CriticalsProper(edges, n, numEdges, critical);
      var ids0, numCycles := FindCycles(critical);
      NoCycleFound(critical, ids0, numCycles);
      if numCycles == 0 {
        cost, branching := CriticalCost(critical), CriticalIds(critical);
        which, rank := NoCycleBranching(edges, n, critical, ids0);
        if UniqueIds(edges) {
          BranchingDistinct(edges, n, branching, which);
        }
        return;
      }
      cost, branching, which, rank := ContractAndExpand(n, edges, critical, idToNode, ids0, numCycles);
    }

    /** The rest of `maximum_branching` once a cycle is found: contract the
        cycles, solve the smaller graph, expand the cycles again. */
    method ContractAndExpand(n: nat, edges: seq<Edge>, critical: seq<Critical>, idToNode: seq<Option<nat>>,
                             ids0: seq<Option<nat>>, numCycles: nat)
        returns (cost: int, branching: seq<nat>, ghost which: seq<nat>, ghost rank: seq<nat>)
      requires EdgesIn(edges, n, numEdges) && |critical| == n && forall v :: 0 <= v < n ==> critical[v] == BestInto(edges, v)
      requires Tails(critical) && idToNode == IdToNode(edges, numEdges)
      requires CycleIds(critical, ids0, numCycles) && OnCycles(critical, ids0) && Connected(critical, ids0) && numCycles > 0
      requires forall u :: 0 <= u < n ==> Settled(critical, ids0, u)
      ensures Picks(edges, branching, which)
      ensures UniqueIds(edges) ==>
                Distinct(branching) && Branching(edges, n, which, rank) && cost == ChosenCost(edges, which)
      decreases n, 0
    {
      var ids, numScc, totalCost, miniCost, miniId, next;
      ghost var lv;
      ids, numScc, totalCost, miniCost, miniId, next, lv := ContractCycles(n, numEdges, edges, critical, ids0, numCycles);
      var sub;
      ghost var subWhich, subRank;
      cost, sub, subWhich, subRank := MaximumBranching(numScc, next);
      branching, which, rank := Expand(n, numEdges, edges, critical, ids, numScc, miniId, idToNode, sub, lv, subWhich, subRank);
      cost := cost + totalCost;
    }
  }

  /** The contracting part of `maximum_branching`: number the components, count
      them, find each cycle's cheapest edge and the cost of the others, and
      build the contracted graph on fewer nodes. */
  method ContractCycles(n: nat, numIds: nat, edges: seq<Edge>, critical: seq<Critical>, ids0: seq<Option<nat>>, numCycles: nat)
      returns (ids: seq<nat>, numScc: nat, totalCost: int, miniCost: seq<Option<int>>, miniId: seq<Option<nat>>,
               next: seq<Edge>, ghost lv: Contraction)
    requires EdgesIn(edges, n, numIds) && |critical| == n && forall v :: 0 <= v < n ==> critical[v] == BestInto(edges, v)
    requires Tails(critical)
    requires CycleIds(critical, ids0, numCycles) && OnCycles(critical, ids0) && Connected(critical, ids0) && numCycles > 0
    requires forall u :: 0 <= u < n ==> Settled(critical, ids0, u)
    ensures Contracted(edges, n, numIds, lv) && numScc < n
    ensures lv.critical == critical && lv.ids == ids && lv.numScc == numScc && lv.miniCost == miniCost
    ensures lv.miniId == miniId && lv.next == next
    ensures totalCost == InsideCost(critical, ids, n) - Sums.Sum(Present(miniCost))
    ensures UniqueIds(edges) ==> UniqueIds(next)
  {
    ids, numScc := NumberRest(ids0, numCycles);
    Numbered(critical, ids0, numCycles, ids, numScc);
    var numComponents := CountComponents(ids, numScc);
    totalCost, miniCost, miniId := CycleCosts(critical, ids, numScc);
    CanContract(critical, ids, numCycles, numScc, numComponents, miniCost);
    ghost var origin;
    next, origin := Contract(critical, ids, numComponents, miniCost, edges);
    ContractedProper(critical, ids, numComponents, miniCost, edges, numIds, numScc, next, origin);
    FewerComponents(critical, ids, numCycles, numScc);
    lv := Contraction(critical, ids, numCycles, numScc, numComponents, miniCost, miniId, next, origin);
  }

  /** What the recursion's answer gives the expansion: ids in range for
      `edge_id_to_node`, which leads them to nodes. */
  lemma Expanded(edges: seq<Edge>, n: nat, idToNode: seq<Option<nat>>, numScc: nat, next: seq<Edge>, sub: seq<nat>, subWhich: seq<nat>)
    requires EdgesIn(next, numScc, |idToNode|) && EdgesIn(edges, n, |idToNode|)
    requires idToNode == IdToNode(edges, |idToNode|)
    requires Picks(next, sub, subWhich)
    ensures forall k :: 0 <= k < |sub| ==> sub[k] < |idToNode|
    ensures forall i :: 0 <= i < |idToNode| && idToNode[i].Some? ==> idToNode[i].value < n
  {
    IdToNodeRange(edges, n, |idToNode|);
  }

  /** The expanding part of `maximum_branching`: mark where the recursion's
      branching enters, then add every kept cycle edge. */
  method Expand(n: nat, numIds: nat, edges: seq<Edge>, critical: seq<Critical>, ids: seq<nat>, numScc: nat,
                miniId: seq<Option<nat>>, idToNode: seq<Option<nat>>, sub: seq<nat>,
                ghost lv: Contraction, ghost subWhich: seq<nat>, ghost subRank: seq<nat>)
      returns (branching: seq<nat>, ghost which: seq<nat>, ghost rank: seq<nat>)
    requires Contracted(edges, n, numIds, lv)
    requires lv.critical == critical && lv.ids == ids && lv.numScc == numScc && lv.miniId == miniId
    requires idToNode == IdToNode(edges, numIds)
    requires Picks(lv.next, sub, subWhich)
    requires UniqueIds(edges) ==> Branching(lv.next, numScc, subWhich, subRank)
    ensures Picks(edges, branching, which)
    ensures UniqueIds(edges) ==>
              Distinct(branching) && Branching(edges, n, which, rank)
              && ChosenCost(edges, which) == ChosenCost(lv.next, subWhich) + InsideCost(critical, ids, n) - Sums.Sum(Present(lv.miniCost))
  {
    Expanded(edges, n, idToNode, numScc, lv.next, sub, subWhich);
    var nodeHas, cycleHas := EntryMarks(sub, idToNode, ids, numScc);
    ghost var tos;
    branching, tos := ExpandCycles(critical, ids, nodeHas, cycleHas, miniId, sub);
    SubPicks(edges, n, numIds, lv, sub, subWhich, branching);
    ExpandedPicks(edges, n, critical, ids, lv.origin, sub, subWhich, branching, tos);
    ExpandedEdges(edges, n, numIds, lv, sub, subWhich, tos);
    which := ExpandedWhich(edges, lv.origin, subWhich, tos);
    rank := [];
    if UniqueIds(edges) {
      var heads := Heads(edges, n, numIds, lv, idToNode, sub, subWhich, nodeHas, cycleHas, tos);
      ExpandedHeads(edges, lv, subWhich, tos, which);
      var rep := Reps(edges, lv, subWhich, nodeHas, cycleHas, tos, heads);
      rank := ExpandedRank(edges, lv, subWhich, tos, which, subRank, rep);
      NodeCosts(edges, lv, subWhich, nodeHas, cycleHas, tos, heads, which, rep);
      ExpandedCost(edges, lv, subWhich, which, rep);
      BranchingDistinct(edges, n, branching, which);
    }
  }
}
