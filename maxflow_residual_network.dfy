/** The residual network the maximum-flow solvers work on. Each edge `u -> v`
    with capacity `upper` becomes a forward arc `u -> v` and a reverse arc
    `v -> u`, each the other's `rev`. The arcs leaving node `x` occupy the
    slots `start[x] .. start[x + 1]`; they are laid out as in `Csr`, with the
    key sequence listing each edge's two endpoints in turn. */
module MaximumFlowResidualNetwork {
  import opened Graph
  import opened Csr
  import opened Sums

  /** `usize::MAX`, the placeholder the arc arrays start from. */
  const Invalid: nat := 0xffff_ffff_ffff_ffff

  /** Keys of the arcs in the order build visits them: edge `j`'s forward arc
      is item `2 j` (key: its tail `u`) and its reverse arc item `2 j + 1`
      (key: `v`). */
  function Keys(edges: seq<Edge<int>>): (k: seq<nat>)
    ensures |k| == 2 * |edges|
  {
    seq(2 * |edges|, p requires 0 <= p < 2 * |edges| => if p % 2 == 0 then edges[p / 2].u else edges[p / 2].v)
  }

  /** The number of edge endpoints at `x`, a self-loop counting twice. */
  function Degree(edges: seq<Edge<int>>, x: nat): nat
  {
    Count(Keys(edges), x)
  }

  /** Where edge `j`'s forward arc goes. */
  function ForwardArc(edges: seq<Edge<int>>, j: nat): (a: nat)
    requires j < |edges|
    ensures a < 2 * |edges|
  {
    SlotInGroupOf(edges, 2 * j);
    Slot(Keys(edges), 2 * j)
  }

  /** Where edge `j`'s reverse arc goes. */
  function ReverseArc(edges: seq<Edge<int>>, j: nat): (a: nat)
    requires j < |edges|
    ensures a < 2 * |edges|
  {
    SlotInGroupOf(edges, 2 * j + 1);
    Slot(Keys(edges), 2 * j + 1)
  }

  /** Initial capacity of a reverse arc: none for a directed graph, the
      edge's own for an undirected one. */
  function RevInit(directed: bool, upper: int): int
  {
    if directed then 0 else upper
  }

  /** Edge `j`'s two arcs, as build leaves them. */
  ghost predicate EdgeArcs(edges: seq<Edge<int>>, directed: bool, upper: seq<int>, to: seq<nat>, rev: seq<nat>, j: nat)
    requires j < |edges| && |upper| == |to| == |rev| == 2 * |edges|
  {
    var f, r := ForwardArc(edges, j), ReverseArc(edges, j);
    to[f] == edges[j].v && rev[f] == r && upper[f] == edges[j].data &&
    to[r] == edges[j].u && rev[r] == f && upper[r] == RevInit(directed, edges[j].data)
  }

  /** Slots are below `2 m`. */
  lemma SlotInGroupOf(edges: seq<Edge<int>>, p: nat)
    requires p < 2 * |edges|
    ensures Slot(Keys(edges), p) < 2 * |edges|
  {
    var k := Keys(edges);
    SlotInGroup(k, p);
    SlotBelowTotal(k, p);
  }

  lemma SlotBelowTotal(k: seq<nat>, p: nat)
    requires p < |k|
    ensures Slot(k, p) < |k|
  {
    var n := k[p] + 1;
    var m := Max(k);
    StartMonotone(k, n, m + 1);
    StartAll(k, m + 1);
    SlotInGroup(k, p);
  }

  function Max(k: seq<nat>): (m: nat)
    ensures forall q :: 0 <= q < |k| ==> k[q] <= m
  {
    if |k| == 0 then 0 else
      var m := Max(k[..|k| - 1]);
      if k[|k| - 1] > m then k[|k| - 1] else m
  }

  /** `start[x]` is where node `x`'s group of arcs begins, for `x` up to `n`. */
  ghost predicate Offsets(n: nat, edges: seq<Edge<int>>, start: seq<nat>)
  {
    |start| == n + 1 && forall x {:trigger start[x]} :: 0 <= x <= n ==> start[x] == Start(Keys(edges), x)
  }

  /** The whole layout build produces from the edges. */
  ghost predicate Layout(n: nat, edges: seq<Edge<int>>, directed: bool, eid: seq<nat>, start: seq<nat>,
                         upper: seq<int>, to: seq<nat>, rev: seq<nat>)
  {
    Offsets(n, edges, start) &&
    |eid| == |edges| && |upper| == |to| == |rev| == 2 * |edges| &&
    (forall j :: 0 <= j < |edges| ==> eid[j] == ForwardArc(edges, j) && EdgeArcs(edges, directed, upper, to, rev, j))
  }

  /** What the solvers rely on about the arcs: the starts run from 0 to the
      arc count in order; an arc's reverse is another arc whose reverse is
      the arc again; its head is a node; and it sits in the slot range of
      its tail, the head of its reverse. */
  ghost predicate ArcsOk(n: nat, start: seq<nat>, to: seq<nat>, rev: seq<nat>)
    requires |start| == n + 1 && |to| == |rev|
  {
    start[0] == 0 && start[n] == |to| &&
    (forall x :: 0 <= x < n ==> StepUp(start, x)) &&
    (forall a :: 0 <= a < |to| ==> rev[a] < |rev| && to[a] < n) &&
    (forall a :: 0 <= a < |to| ==> rev[a] != a && rev[rev[a]] == a) &&
    (forall a :: 0 <= a < |to| ==> start[to[rev[a]]] <= a < start[to[rev[a]] + 1])
  }

  /** Node `x`'s slots do not start after node `x + 1`'s. */
  ghost predicate StepUp(start: seq<nat>, x: nat)
    requires x + 1 < |start|
  {
    start[x] <= start[x + 1]
  }

  /** Slot ranges do not shrink from node to node. */
  lemma {:induction false} StartsGrowIn(n: nat, start: seq<nat>, to: seq<nat>, rev: seq<nat>, x: nat, y: nat)
    requires |start| == n + 1 && |to| == |rev| && ArcsOk(n, start, to, rev) && x <= y <= n
    ensures start[x] <= start[y]
    decreases y - x
  {
    if x < y {
      assert StepUp(start, x);
      StartsGrowIn(n, start, to, rev, x + 1, y);
    }
  }

  /** An arc in node `u`'s slot range is an arc, and its tail is `u`. */
  lemma ArcTailIn(n: nat, start: seq<nat>, to: seq<nat>, rev: seq<nat>, a: nat, u: nat)
    requires |start| == n + 1 && |to| == |rev| && ArcsOk(n, start, to, rev)
    requires u < n && start[u] <= a < start[u + 1]
    ensures a < |to| && to[rev[a]] == u
  {
    StartsGrowIn(n, start, to, rev, u + 1, n);
    var x := to[rev[a]];
    if x < u {
      StartsGrowIn(n, start, to, rev, x + 1, u);
    } else if u < x {
      StartsGrowIn(n, start, to, rev, u + 1, x);
    }
  }

  /** The arc in slot `p`'s position is an arc as `ArcsOk` describes. */
  lemma SlotArc(n: nat, edges: seq<Edge<int>>, directed: bool, eid: seq<nat>, start: seq<nat>,
                upper: seq<int>, to: seq<nat>, rev: seq<nat>, p: nat)
    requires EndpointsIn(edges, n)
    requires Layout(n, edges, directed, eid, start, upper, to, rev)
    requires p < 2 * |edges|
    ensures var a := Slot(Keys(edges), p);
            a < |to| && rev[a] < |rev| && to[a] < n && rev[a] != a && rev[rev[a]] == a &&
            to[rev[a]] == Keys(edges)[p]
  {
    var j := p / 2;
    assert EdgeArcs(edges, directed, upper, to, rev, j);
    KeysAt(edges, j);
    OwnSlots(edges, j);
    assert p == 2 * j || p == 2 * j + 1;
  }

  /** Every arc belongs to one edge, and gets `ArcsOk` from it. */
  lemma LayoutArcs(n: nat, edges: seq<Edge<int>>, directed: bool, eid: seq<nat>, start: seq<nat>,
                   upper: seq<int>, to: seq<nat>, rev: seq<nat>)
    requires EndpointsIn(edges, n)
    requires Layout(n, edges, directed, eid, start, upper, to, rev)
    ensures ArcsOk(n, start, to, rev)
  {
    var k := Keys(edges);
    KeysIn(edges, n);
    StartAll(k, n);
    forall x | 0 <= x < n
      ensures StepUp(start, x)
    {
      StartMonotone(k, x, x + 1);
    }
    forall a | 0 <= a < |to|
      ensures rev[a] < |rev| && to[a] < n && rev[a] != a && rev[rev[a]] == a && to[rev[a]] < n &&
              start[to[rev[a]]] <= a < start[to[rev[a]] + 1]
    {
      var p := SlotOnto(k, n, a);
      SlotArc(n, edges, directed, eid, start, upper, to, rev, p);
      SlotInGroup(k, p);
    }
  }

  lemma KeysAt(edges: seq<Edge<int>>, j: nat)
    requires j < |edges|
    ensures Keys(edges)[2 * j] == edges[j].u && Keys(edges)[2 * j + 1] == edges[j].v
  {
  }

  lemma KeysIn(edges: seq<Edge<int>>, n: nat)
    requires EndpointsIn(edges, n)
    ensures forall p :: 0 <= p < |Keys(edges)| ==> Keys(edges)[p] < n
  {
  }

  /** build, first loop: count each node's edge endpoints. */
  method CountDegrees(n: nat, edges: seq<Edge<int>>) returns (degree: seq<nat>)
    requires EndpointsIn(edges, n)
    ensures |degree| == n && forall x :: 0 <= x < n ==> degree[x] == Degree(edges, x)
  {
    ghost var k := Keys(edges);
    degree := seq(n, _ => 0);
    var i := 0;
    while i < |edges|
      invariant 0 <= i <= |edges| && |degree| == n
      invariant forall x :: 0 <= x < n ==> degree[x] == Count(k[..2 * i], x)
    {
      var e := edges[i];
      KeysAt(edges, i);
      var d1 := degree[e.u := degree[e.u] + 1];
      CountStep(k, 2 * i, degree, d1, n);
      degree := d1[e.v := d1[e.v] + 1];
      CountStep(k, 2 * i + 1, d1, degree, n);
      i := i + 1;
    }
    assert k[..2 * i] == k;
  }

  /** build, second loop: `start` is the running sum of the degrees. */
  method Starts(n: nat, ghost edges: seq<Edge<int>>, degree: seq<nat>) returns (start: seq<nat>)
    requires |degree| == n && forall x :: 0 <= x < n ==> degree[x] == Degree(edges, x)
    ensures Offsets(n, edges, start)
  {
    ghost var k := Keys(edges);
    start := seq(n + 1, _ => 0);
    for u := 1 to n + 1
      invariant |start| == n + 1
      invariant forall x :: 0 <= x < u ==> start[x] == Start(k, x)
      invariant forall x :: u <= x <= n ==> start[x] == 0
    {
      assert Start(k, u) == Start(k, u - 1) + Count(k, u - 1);
      start := start[u := start[u] + start[u - 1] + degree[u - 1]];
    }
  }

  /** Edge `i`'s two slots differ from each other. */
  lemma OwnSlots(edges: seq<Edge<int>>, i: nat)
    requires i < |edges|
    ensures ForwardArc(edges, i) != ReverseArc(edges, i)
  {
    SlotInjective(Keys(edges), 2 * i, 2 * i + 1);
  }

  /** Edge `i`'s slots differ from those of every earlier edge. */
  lemma FreshSlots(edges: seq<Edge<int>>, i: nat, j: nat)
    requires j < i < |edges|
    ensures ForwardArc(edges, i) != ForwardArc(edges, j) && ForwardArc(edges, i) != ReverseArc(edges, j)
    ensures ReverseArc(edges, i) != ForwardArc(edges, j) && ReverseArc(edges, i) != ReverseArc(edges, j)
  {
    var k := Keys(edges);
    var fi, ri := 2 * i, 2 * i + 1;
    var fj, rj := 2 * j, 2 * j + 1;
    assert fj < rj < fi < ri < |k|;
    SlotInjective(k, fj, fi);
    SlotInjective(k, fj, ri);
    SlotInjective(k, rj, fi);
    SlotInjective(k, rj, ri);
  }

  /** The arcs of edge `j` and their residuals, as build leaves them. */
  ghost predicate Placed(edges: seq<Edge<int>>, directed: bool, eid: seq<nat>, upper: seq<int>, to: seq<nat>, rev: seq<nat>,
                         residual: seq<int>, j: nat)
    requires j < |edges| == |eid| && |upper| == |to| == |rev| == |residual| == 2 * |edges|
  {
    eid[j] == ForwardArc(edges, j) && EdgeArcs(edges, directed, upper, to, rev, j) &&
    residual[ForwardArc(edges, j)] == upper[ForwardArc(edges, j)] &&
    residual[ReverseArc(edges, j)] == upper[ReverseArc(edges, j)]
  }

  /** Writing edge `i`'s arcs keeps those of earlier edges. */
  lemma PlaceKeeps(edges: seq<Edge<int>>, directed: bool, eid: seq<nat>, upper: seq<int>, to: seq<nat>, rev: seq<nat>, residual: seq<int>,
                   eid': seq<nat>, upper': seq<int>, to': seq<nat>, rev': seq<nat>, residual': seq<int>, i: nat, j: nat)
    requires j < i < |edges| == |eid| == |eid'|
    requires |upper| == |to| == |rev| == |residual| == |upper'| == |to'| == |rev'| == |residual'| == 2 * |edges|
    requires Placed(edges, directed, eid, upper, to, rev, residual, j)
    requires eid'[j] == eid[j]
    requires forall a :: 0 <= a < 2 * |edges| && a != ForwardArc(edges, i) && a != ReverseArc(edges, i) ==>
               upper'[a] == upper[a] && to'[a] == to[a] && rev'[a] == rev[a] && residual'[a] == residual[a]
    ensures Placed(edges, directed, eid', upper', to', rev', residual', j)
  {
    FreshSlots(edges, i, j);
  }

  /** Writing edge `i`'s two arcs into their slots places edge `i` and keeps
      the earlier edges placed. */
  lemma PlaceEdge(edges: seq<Edge<int>>, directed: bool, eid: seq<nat>, upper: seq<int>, to: seq<nat>, rev: seq<nat>,
                  residual: seq<int>, i: nat, f: nat, r: nat,
                  eid': seq<nat>, upper': seq<int>, to': seq<nat>, rev': seq<nat>, residual': seq<int>)
    requires i < |edges| == |eid| && |upper| == |to| == |rev| == |residual| == 2 * |edges|
    requires forall j :: 0 <= j < i ==> Placed(edges, directed, eid, upper, to, rev, residual, j)
    requires f == ForwardArc(edges, i) && r == ReverseArc(edges, i)
    requires eid' == eid[i := f] && to' == to[f := edges[i].v][r := edges[i].u] && rev' == rev[f := r][r := f]
    requires upper' == upper[f := edges[i].data][r := RevInit(directed, edges[i].data)]
    requires residual' == residual[f := edges[i].data][r := RevInit(directed, edges[i].data)]
    ensures forall j :: 0 <= j <= i ==> Placed(edges, directed, eid', upper', to', rev', residual', j)
  {
    OwnSlots(edges, i);
    forall j | 0 <= j <= i
      ensures Placed(edges, directed, eid', upper', to', rev', residual', j)
    {
      if j < i {
        PlaceKeeps(edges, directed, eid, upper, to, rev, residual, eid', upper', to', rev', residual', i, j);
      }
    }
  }

  /** The next free slots of edge `i`'s endpoints are the slots of its two
      arcs, and the counters move on past them. */
  lemma SlotsOfEdge(n: nat, edges: seq<Edge<int>>, start: seq<nat>, counter: seq<nat>, c1: seq<nat>, c2: seq<nat>, i: nat)
    requires EndpointsIn(edges, n) && i < |edges|
    requires Offsets(n, edges, start)
    requires |counter| == n && forall x :: 0 <= x < n ==> counter[x] == Count(Keys(edges)[..2 * i], x)
    requires c1 == counter[edges[i].u := counter[edges[i].u] + 1] && c2 == c1[edges[i].v := c1[edges[i].v] + 1]
    ensures start[edges[i].u] + counter[edges[i].u] == ForwardArc(edges, i)
    ensures start[edges[i].v] + c1[edges[i].v] == ReverseArc(edges, i)
    ensures forall x :: 0 <= x < n ==> c2[x] == Count(Keys(edges)[..2 * (i + 1)], x)
  {
    var k := Keys(edges);
    KeysAt(edges, i);
    CountStep(k, 2 * i, counter, c1, n);
    CountStep(k, 2 * i + 1, c1, c2, n);
  }

  /** One round of build's third loop: edge `i`'s arcs take the next free
      slots of its endpoints. */
  method PlaceNext(n: nat, edges: seq<Edge<int>>, directed: bool, start: seq<nat>, i: nat,
                   eid: seq<nat>, upper: seq<int>, to: seq<nat>, rev: seq<nat>, residual: seq<int>, counter: seq<nat>)
    returns (eid': seq<nat>, upper': seq<int>, to': seq<nat>, rev': seq<nat>, residual': seq<int>, counter': seq<nat>)
    requires EndpointsIn(edges, n) && i < |edges|
    requires Offsets(n, edges, start)
    requires |eid| == |edges| && |upper| == |to| == |rev| == |residual| == 2 * |edges|
    requires |counter| == n && forall x :: 0 <= x < n ==> counter[x] == Count(Keys(edges)[..2 * i], x)
    requires forall j :: 0 <= j < i ==> Placed(edges, directed, eid, upper, to, rev, residual, j)
    ensures |eid'| == |edges| && |upper'| == |to'| == |rev'| == |residual'| == 2 * |edges|
    ensures |counter'| == n && forall x :: 0 <= x < n ==> counter'[x] == Count(Keys(edges)[..2 * (i + 1)], x)
    ensures forall j :: 0 <= j <= i ==> Placed(edges, directed, eid', upper', to', rev', residual', j)
  {
    var u, v := edges[i].u, edges[i].v;
    var arcU := start[u] + counter[u];
    var c1 := counter[u := counter[u] + 1];
    var arcV := start[v] + c1[v];
    counter' := c1[v := c1[v] + 1];
    SlotsOfEdge(n, edges, start, counter, c1, counter', i);
    var up := edges[i].data;
    var revInit := RevInit(directed, up);
    eid', to', rev' := eid[i := arcU], to[arcU := v][arcV := u], rev[arcU := arcV][arcV := arcU];
    upper', residual' := upper[arcU := up][arcV := revInit], residual[arcU := up][arcV := revInit];
    PlaceEdge(edges, directed, eid, upper, to, rev, residual, i, arcU, arcV, eid', upper', to', rev', residual');
  }

  /** build, third loop: each edge's arcs go to the next free slot of their
      tails, forward arc first. */
  method PlaceArcs(n: nat, edges: seq<Edge<int>>, directed: bool, start: seq<nat>)
    returns (eid: seq<nat>, upper: seq<int>, to: seq<nat>, rev: seq<nat>, residual: seq<int>)
    requires EndpointsIn(edges, n)
    requires Offsets(n, edges, start)
    ensures |eid| == |edges| && |upper| == |to| == |rev| == |residual| == 2 * |edges|
    ensures forall j :: 0 <= j < |edges| ==> Placed(edges, directed, eid, upper, to, rev, residual, j)
  {
    var m := |edges|;
    ghost var k := Keys(edges);
    eid := seq(m, _ => Invalid);
    upper := seq(2 * m, _ => 0);
    to := seq(2 * m, _ => Invalid);
    rev := seq(2 * m, _ => Invalid);
    residual := seq(2 * m, _ => 0);
    var counter := seq(n, _ => 0);
    var i := 0;
    while i < m
      invariant 0 <= i <= m && |eid| == m && |upper| == |to| == |rev| == |residual| == 2 * m && |counter| == n
      invariant forall x :: 0 <= x < n ==> counter[x] == Count(k[..2 * i], x)
      invariant forall j :: 0 <= j < i ==> Placed(edges, directed, eid, upper, to, rev, residual, j)
    {
      eid, upper, to, rev, residual, counter := PlaceNext(n, edges, directed, start, i, eid, upper, to, rev, residual, counter);
      i := i + 1;
    }
  }

  /** What the three loops of build add up to. */
  lemma BuildOk(n: nat, edges: seq<Edge<int>>, directed: bool, eid: seq<nat>, start: seq<nat>,
                upper: seq<int>, to: seq<nat>, rev: seq<nat>, residual: seq<int>)
    requires EndpointsIn(edges, n)
    requires Offsets(n, edges, start)
    requires |eid| == |edges| && |upper| == |to| == |rev| == |residual| == 2 * |edges|
    requires forall j :: 0 <= j < |edges| ==> Placed(edges, directed, eid, upper, to, rev, residual, j)
    ensures Layout(n, edges, directed, eid, start, upper, to, rev) && ArcsOk(n, start, to, rev)
    ensures residual == upper
    ensures forall x :: 0 <= x < n ==> start[x + 1] == start[x] + Degree(edges, x)
    ensures forall j :: 0 <= j < |edges| ==> eid[j] < 2 * |edges|
  {
    PlacedLayout(n, edges, directed, eid, start, upper, to, rev, residual);
    LayoutArcs(n, edges, directed, eid, start, upper, to, rev);
    PlacedResidual(n, edges, directed, eid, upper, to, rev, residual);
    var k := Keys(edges);
    forall x | 0 <= x < n
      ensures start[x + 1] == start[x] + Degree(edges, x)
    {
      assert start[x + 1] == Start(k, x + 1) == Start(k, x) + Count(k, x);
    }
  }

  lemma PlacedLayout(n: nat, edges: seq<Edge<int>>, directed: bool, eid: seq<nat>, start: seq<nat>,
                     upper: seq<int>, to: seq<nat>, rev: seq<nat>, residual: seq<int>)
    requires Offsets(n, edges, start)
    requires |eid| == |edges| && |upper| == |to| == |rev| == |residual| == 2 * |edges|
    requires forall j :: 0 <= j < |edges| ==> Placed(edges, directed, eid, upper, to, rev, residual, j)
    ensures Layout(n, edges, directed, eid, start, upper, to, rev)
  {
    forall j | 0 <= j < |edges|
      ensures eid[j] == ForwardArc(edges, j) && EdgeArcs(edges, directed, upper, to, rev, j)
    {
      assert Placed(edges, directed, eid, upper, to, rev, residual, j);
    }
  }

  /** Every slot holds one of an edge's two arcs, each written with its
      capacity as residual. */
  lemma PlacedResidual(n: nat, edges: seq<Edge<int>>, directed: bool, eid: seq<nat>,
                       upper: seq<int>, to: seq<nat>, rev: seq<nat>, residual: seq<int>)
    requires EndpointsIn(edges, n)
    requires |eid| == |edges| && |upper| == |to| == |rev| == |residual| == 2 * |edges|
    requires forall j :: 0 <= j < |edges| ==> Placed(edges, directed, eid, upper, to, rev, residual, j)
    ensures residual == upper
  {
    var k := Keys(edges);
    KeysIn(edges, n);
    forall a | 0 <= a < 2 * |edges|
      ensures residual[a] == upper[a]
    {
      var p := SlotOnto(k, n, a);
      var j := p / 2;
      assert Placed(edges, directed, eid, upper, to, rev, residual, j);
      assert p == 2 * j || p == 2 * j + 1;
    }
  }

  /** The residual of every arc lies between zero and the capacity of the
      arc pair it belongs to: the shape that pushes along admissible arcs
      keep. */
  ghost predicate Feasible(residual: seq<int>, upper: seq<int>, rev: seq<nat>)
    requires |residual| == |upper| == |rev| && forall a :: 0 <= a < |rev| ==> rev[a] < |rev|
  {
    forall a :: 0 <= a < |rev| ==> 0 <= residual[a] && residual[a] + residual[rev[a]] == upper[a] + upper[rev[a]]
  }

  /** The residuals after pushing `f` along arc `a`. */
  function Pushed(residual: seq<int>, rev: seq<nat>, a: nat, f: int): (r: seq<int>)
    requires a < |residual| && a < |rev| && rev[a] < |residual|
    ensures |r| == |residual|
  {
    var r1 := residual[a := residual[a] - f];
    r1[rev[a] := r1[rev[a]] + f]
  }

  /** A push moves `f` from an arc to its reverse and changes nothing else:
      the pair's sum, and every other pair, stay as they were. */
  lemma PushedKeepsPairs(residual: seq<int>, rev: seq<nat>, a: nat, f: int)
    requires |residual| == |rev| && forall b :: 0 <= b < |rev| ==> rev[b] < |rev| && rev[b] != b && rev[rev[b]] == b
    requires a < |rev|
    ensures var r := Pushed(residual, rev, a, f);
            r[a] == residual[a] - f && r[rev[a]] == residual[rev[a]] + f &&
            (forall b :: 0 <= b < |rev| && b != a && b != rev[a] ==> r[b] == residual[b]) &&
            (forall b :: 0 <= b < |rev| ==> r[b] + r[rev[b]] == residual[b] + residual[rev[b]])
  {
    var r := Pushed(residual, rev, a, f);
    forall b | 0 <= b < |rev|
      ensures r[b] + r[rev[b]] == residual[b] + residual[rev[b]]
    {
      if b != a && b != rev[a] {
        assert rev[rev[b]] == b && rev[rev[a]] == a;
      }
    }
  }

  /** Pushing at most an arc's residual keeps the residuals feasible. */
  lemma PushedFeasible(residual: seq<int>, upper: seq<int>, rev: seq<nat>, a: nat, f: int)
    requires |residual| == |upper| == |rev| && forall b :: 0 <= b < |rev| ==> rev[b] < |rev| && rev[b] != b && rev[rev[b]] == b
    requires a < |rev| && Feasible(residual, upper, rev) && 0 <= f <= residual[a]
    ensures Feasible(Pushed(residual, rev, a, f), upper, rev)
  {
    PushedKeepsPairs(residual, rev, a, f);
  }

  /** The number of entries of `d` below `n`: the nodes a distance labelling
      has reached. */
  function CountBelow(d: seq<nat>, n: nat): (c: nat)
    ensures c <= |d|
  {
    if |d| == 0 then 0 else CountBelow(d[..|d| - 1], n) + (if d[|d| - 1] < n then 1 else 0)
  }

  /** Labelling one more node raises the count by one. */
  lemma {:induction false} CountBelowUpdate(d: seq<nat>, n: nat, t: nat, val: nat)
    requires t < |d| && d[t] >= n && val < n
    ensures CountBelow(d[t := val], n) == CountBelow(d, n) + 1
  {
    var d' := d[t := val];
    if t < |d| - 1 {
      assert d'[..|d| - 1] == d[..|d| - 1][t := val];
      CountBelowUpdate(d[..|d| - 1], n, t, val);
    } else {
      assert d'[..|d| - 1] == d[..|d| - 1];
    }
  }

  lemma {:induction false} CountBelowNone(d: seq<nat>, n: nat)
    requires forall i :: 0 <= i < |d| ==> d[i] >= n
    ensures CountBelow(d, n) == 0
  {
    if |d| > 0 {
      CountBelowNone(d[..|d| - 1], n);
    }
  }

  /** With a node not yet reached, fewer than all nodes are reached. */
  lemma {:induction false} CountBelowMissing(d: seq<nat>, n: nat, t: nat)
    requires t < |d| && d[t] >= n
    ensures CountBelow(d, n) < |d|
  {
    if t < |d| - 1 {
      CountBelowMissing(d[..|d| - 1], n, t);
    }
  }

  function Min(a: int, b: int): (m: int)
    ensures m <= a && m <= b && (m == a || m == b)
  {
    if a < b then a else b
  }

  class ResidualNetwork {
    const numNodes: nat
    const numEdges: nat
    const edgeIdToArcId: seq<nat>
    const start: seq<nat>
    const upper: seq<int>
    const to: seq<nat>
    const rev: seq<nat>
    var residual: seq<int>
    var excesses: seq<int>
    var distances: seq<nat>
    /** The edges the network was built from. */
    ghost const edges: seq<Edge<int>>
    ghost const directed: bool

    /** The fixed part: the arc arrays as build leaves them. */
    ghost predicate Wf()
    {
      numEdges == |edges| && EndpointsIn(edges, numNodes) &&
      |start| == numNodes + 1 && |edgeIdToArcId| == numEdges && |upper| == |to| == |rev| == 2 * numEdges &&
      ArcsOk(numNodes, start, to, rev) &&
      (forall j :: 0 <= j < numEdges ==> edgeIdToArcId[j] < 2 * numEdges)
    }

    ghost predicate Valid()
      reads this
    {
      Wf() && |residual| == 2 * numEdges && |excesses| == numNodes && |distances| == numNodes
    }

    /** `new`: the network of the graph with `n` nodes and these edges; each
        residual starts at its arc's capacity, excesses and distances at 0. */
    constructor (n: nat, edges: seq<Edge<int>>, directed: bool)
      requires EndpointsIn(edges, n)
      ensures Valid() && numNodes == n && this.edges == edges && this.directed == directed
      ensures Layout(n, edges, directed, edgeIdToArcId, start, upper, to, rev)
      ensures residual == upper && excesses == seq(n, _ => 0) && distances == seq(n, _ => 0)
      ensures forall x :: 0 <= x < n ==> start[x + 1] == start[x] + Degree(edges, x)
      ensures forall j :: 0 <= j < |edges| ==>
                var f := edgeIdToArcId[j];
                f < 2 * |edges| && to[f] == edges[j].v && to[rev[f]] == edges[j].u &&
                upper[f] == edges[j].data && upper[rev[f]] == RevInit(directed, edges[j].data)
    {
      var degree := CountDegrees(n, edges);
      var s := Starts(n, edges, degree);
      var eid, up, t, r, res := PlaceArcs(n, edges, directed, s);
      BuildOk(n, edges, directed, eid, s, up, t, r, res);
      numNodes := n;
      numEdges := |edges|;
      edgeIdToArcId := eid;
      start := s;
      upper := up;
      to := t;
      rev := r;
      residual := res;
      excesses := seq(n, _ => 0);
      distances := seq(n, _ => 0);
      this.edges := edges;
      this.directed := directed;
    }

    /** `get_flows`: each edge's flow is its forward arc's capacity minus that
        arc's residual in `res`. */
    method GetFlows(res: seq<int>) returns (flows: seq<int>)
      requires Wf() && |res| == 2 * numEdges
      ensures |flows| == numEdges
      ensures forall j :: 0 <= j < numEdges ==> flows[j] == upper[edgeIdToArcId[j]] - res[edgeIdToArcId[j]]
    {
      var eid, up := edgeIdToArcId, upper;
      assert |eid| == numEdges && |up| == |res| == 2 * numEdges;
      assert forall j :: 0 <= j < numEdges ==> eid[j] < 2 * numEdges;
      flows := [];
      for j := 0 to numEdges
        invariant |flows| == j
        invariant forall i :: 0 <= i < j ==> flows[i] == up[eid[i]] - res[eid[i]]
      {
        var a := eid[j];
        flows := flows + [up[a] - res[a]];
      }
    }

    /** `neighbors`: the slots of the arcs leaving `u`. */
    method Neighbors(u: nat) returns (lo: nat, hi: nat)
      requires Wf() && u < numNodes
      ensures lo == start[u] && hi == start[u + 1] && lo <= hi <= 2 * numEdges
      ensures forall a :: lo <= a < hi ==> to[rev[a]] == u
    {
      lo, hi := start[u], start[u + 1];
      assert StepUp(start, u);
      StartsBelow(u + 1);
      forall a | lo <= a < hi
        ensures to[rev[a]] == u
      {
        ArcTail(a, u);
      }
    }

    /** An arc in `u`'s slot range has tail `u`. */
    lemma ArcTail(a: nat, u: nat)
      requires Wf() && u < numNodes && start[u] <= a < start[u + 1]
      ensures a < 2 * numEdges && to[rev[a]] == u
    {
      ArcTailIn(numNodes, start, to, rev, a, u);
    }

    lemma StartsGrow(x: nat, y: nat)
      requires Wf() && x <= y <= numNodes
      ensures start[x] <= start[y]
    {
      StartsGrowIn(numNodes, start, to, rev, x, y);
    }

    lemma StartsBelow(x: nat)
      requires Wf() && x <= numNodes
      ensures start[x] <= 2 * numEdges
    {
      StartsGrowIn(numNodes, start, to, rev, x, numNodes);
    }

    /** `push_flow_without_excess`: moves `f` units of residual from arc `a`
        to its reverse; every arc pair keeps its sum. */
    method PushFlowWithoutExcess(u: nat, a: nat, f: int)
      requires Valid() && a < 2 * numEdges
      modifies this
      ensures Valid() && excesses == old(excesses) && distances == old(distances)
      ensures residual == Pushed(old(residual), rev, a, f)
      ensures forall b :: 0 <= b < 2 * numEdges ==> residual[b] + residual[rev[b]] == old(residual[b] + residual[rev[b]])
    {
      residual := residual[a := residual[a] - f];
      residual := residual[rev[a] := residual[rev[a]] + f];
      PushedKeepsPairs(old(residual), rev, a, f);
    }

    /** `push_flow`: the push above, and `f` units of excess move from `u` to
        the arc's head, so the total excess is unchanged. */
    method PushFlow(u: nat, a: nat, f: int)
      requires Valid() && u < numNodes && a < 2 * numEdges
      modifies this
      ensures Valid() && distances == old(distances)
      ensures residual == Pushed(old(residual), rev, a, f)
      ensures excesses == old(excesses)[u := old(excesses[u]) - f][to[a] := old(excesses)[u := old(excesses[u]) - f][to[a]] + f]
      ensures Sum(excesses) == old(Sum(excesses))
    {
      PushFlowWithoutExcess(u, a, f);
      ghost var e0 := excesses;
      excesses := excesses[u := excesses[u] - f];
      SumUpdate(e0, u, e0[u] - f);
      ghost var e1 := excesses;
      excesses := excesses[to[a] := excesses[to[a]] + f];
      SumUpdate(e1, to[a], e1[to[a]] + f);
    }

    /** Node `x` has an arc with residual capacity (in `res`) to a node one
        label (in `d`) closer to the sink. */
    ghost predicate StepVia(res: seq<int>, d: seq<nat>, x: nat, a: nat)
      requires Wf() && |res| == 2 * numEdges && |d| == numNodes && x < numNodes
    {
      start[x] <= a < start[x + 1] && a < 2 * numEdges && res[a] > 0 &&
      d[to[a]] + 1 == d[x]
    }

    /** Every arc into `x` with residual capacity, among those whose
        reverses sit in `x`'s slots below `hi`, comes from a reached node at
        most one label farther from the sink. */
    ghost predicate ClosedBelow(res: seq<int>, d: seq<nat>, x: nat, hi: nat)
      requires Wf() && |res| == 2 * numEdges && |d| == numNodes && x < numNodes
    {
      forall b {:trigger res[rev[b]]} :: start[x] <= b < hi && b < 2 * numEdges && res[rev[b]] > 0 ==>
        d[to[b]] < numNodes && d[to[b]] <= d[x] + 1
    }

    ghost predicate Closed(res: seq<int>, d: seq<nat>, x: nat)
      requires Wf() && |res| == 2 * numEdges && |d| == numNodes && x < numNodes
    {
      ClosedBelow(res, d, x, start[x + 1])
    }

    /** The labels during the search: the sink is at 0, reached nodes are
        below both the number of reached nodes and `lvl + 1`, where `lvl` is
        the label of the node being expanded. */
    ghost predicate LabelsOk(d: seq<nat>, lvl: nat, sink: nat)
      requires Wf()
    {
      |d| == numNodes && sink < numNodes && d[sink] == 0 &&
      (forall x :: 0 <= x < numNodes ==> d[x] <= numNodes) &&
      (forall x :: 0 <= x < numNodes && d[x] < numNodes ==> d[x] < CountBelow(d, numNodes) && d[x] <= lvl + 1)
    }

    /** The queue holds reached nodes in label order: its first `k` entries
        are at label `lvl`, the rest at `lvl + 1`. */
    ghost predicate QueueOk(d: seq<nat>, q: seq<nat>, lvl: nat, k: nat)
      requires Wf() && |d| == numNodes
    {
      k <= |q| &&
      forall i :: 0 <= i < |q| ==> q[i] < numNodes && d[q[i]] < numNodes && d[q[i]] == (if i < k then lvl else lvl + 1)
    }

    /** Taking the head `v` of the queue: the labels of the rest are at
        `d[v]` or one above, and no reached node is more than one above. */
    lemma PopKeeps(d: seq<nat>, q: seq<nat>, lvl: nat, k: nat, sink: nat) returns (k': nat)
      requires Wf() && LabelsOk(d, lvl, sink) && QueueOk(d, q, lvl, k) && |q| > 0
      ensures d[q[0]] == lvl || d[q[0]] == lvl + 1
      ensures LabelsOk(d, d[q[0]], sink) && QueueOk(d, q[1..], d[q[0]], k')
    {
      k' := if k > 0 then k - 1 else |q| - 1;
      assert forall i :: 0 <= i < |q| - 1 ==> q[1..][i] == q[i + 1];
    }

    ghost predicate ViaOk(res: seq<int>, d: seq<nat>, via: seq<nat>, sink: nat)
      requires Wf() && |res| == 2 * numEdges && |d| == numNodes
    {
      |via| == numNodes &&
      forall x {:trigger via[x]} :: 0 <= x < numNodes && x != sink && d[x] < numNodes ==> StepVia(res, d, x, via[x])
    }

    ghost predicate DoneOk(res: seq<int>, d: seq<nat>, done: set<nat>)
      requires Wf() && |res| == 2 * numEdges && |d| == numNodes
    {
      forall x {:trigger x in done} :: x in done ==> x < numNodes && d[x] < numNodes && Closed(res, d, x)
    }

    /** Every reached node but the source is expanded, queued or `v`. */
    ghost predicate Covered(d: seq<nat>, done: set<nat>, q: seq<nat>, source: nat, v: nat)
      requires Wf() && |d| == numNodes
    {
      forall x :: 0 <= x < numNodes && x != source && d[x] < numNodes ==> x in done || x in q || x == v
    }

    lemma LabelKeepsCovered(d: seq<nat>, done: set<nat>, q: seq<nat>, source: nat, v: nat, t: nat, val: nat)
      requires Wf() && |d| == numNodes && Covered(d, done, q, source, v) && t < numNodes
      ensures Covered(d[t := val], done, if t != source then q + [t] else q, source, v)
    {
      var q' := if t != source then q + [t] else q;
      forall x | 0 <= x < numNodes && x != source && d[t := val][x] < numNodes
        ensures x in done || x in q' || x == v
      {
        if x != t {
          assert x in done || x in q || x == v;
        }
      }
    }

    lemma LabelKeepsLabels(d: seq<nat>, lvl: nat, sink: nat, t: nat)
      requires Wf() && LabelsOk(d, lvl, sink) && t < numNodes && d[t] == numNodes
      requires lvl < CountBelow(d, numNodes)
      ensures lvl + 1 < numNodes && LabelsOk(d[t := lvl + 1], lvl, sink)
      ensures CountBelow(d[t := lvl + 1], numNodes) == CountBelow(d, numNodes) + 1
    {
      CountBelowMissing(d, numNodes, t);
      CountBelowUpdate(d, numNodes, t, lvl + 1);
    }

    lemma LabelKeepsQueue(d: seq<nat>, q: seq<nat>, lvl: nat, k: nat, t: nat, q': seq<nat>)
      requires Wf() && |d| == numNodes && QueueOk(d, q, lvl, k) && t < numNodes && d[t] == numNodes
      requires lvl + 1 < numNodes && (q' == q || q' == q + [t])
      ensures QueueOk(d[t := lvl + 1], q', lvl, k)
    {
      assert forall i :: 0 <= i < |q| ==> q[i] != t;
    }

    lemma LabelKeepsVia(res: seq<int>, d: seq<nat>, via: seq<nat>, sink: nat, v: nat, a: nat)
      requires Wf() && |res| == 2 * numEdges && |d| == numNodes && ViaOk(res, d, via, sink)
      requires v < numNodes && start[v] <= a < start[v + 1] && a < 2 * numEdges
      requires res[rev[a]] > 0 && d[to[a]] == numNodes && d[v] + 1 < numNodes
      ensures ViaOk(res, d[to[a] := d[v] + 1], via[to[a] := rev[a]], sink)
    {
      var t := to[a];
      ArcTail(a, v);
      var d', via' := d[t := d[v] + 1], via[t := rev[a]];
      forall x | 0 <= x < numNodes && x != sink && d'[x] < numNodes
        ensures StepVia(res, d', x, via'[x])
      {
        if x != t {
          assert StepVia(res, d, x, via[x]);
        }
      }
    }

    lemma LabelKeepsDone(res: seq<int>, d: seq<nat>, done: set<nat>, t: nat, val: nat, d': seq<nat>)
      requires Wf() && |res| == 2 * numEdges && |d| == numNodes && DoneOk(res, d, done)
      requires t < numNodes && d[t] == numNodes && val < numNodes && d' == d[t := val]
      ensures DoneOk(res, d', done)
    {
      forall x | x in done
        ensures Closed(res, d', x)
      {
        assert Closed(res, d, x);
      }
    }

    lemma LabelKeepsClosed(res: seq<int>, d: seq<nat>, v: nat, a: nat)
      requires Wf() && |res| == 2 * numEdges && |d| == numNodes && v < numNodes
      requires start[v] <= a < start[v + 1] && a < 2 * numEdges && ClosedBelow(res, d, v, a)
      requires d[to[a]] == numNodes && d[v] + 1 < numNodes
      ensures ClosedBelow(res, d[to[a] := d[v] + 1], v, a + 1)
    {
      ArcTail(a, v);
    }

    /** A node whose in-arcs have all been looked at joins the expanded ones. */
    lemma ExpandDone(res: seq<int>, d: seq<nat>, done: set<nat>, v: nat)
      requires Wf() && |res| == 2 * numEdges && |d| == numNodes && DoneOk(res, d, done)
      requires v < numNodes && d[v] < numNodes && ClosedBelow(res, d, v, start[v + 1])
      ensures DoneOk(res, d, done + {v})
    {
    }

    /** Skipping `v`'s arc `a` keeps the search invariant. */
    lemma SkipKeeps(res: seq<int>, d: seq<nat>, v: nat, a: nat)
      requires Wf() && |res| == 2 * numEdges && |d| == numNodes && v < numNodes && start[v] <= a < start[v + 1]
      requires a < 2 * numEdges && ClosedBelow(res, d, v, a)
      requires !(res[rev[a]] > 0 && d[to[a]] == numNodes)
      requires forall x :: 0 <= x < numNodes ==> d[x] <= numNodes
      requires forall x :: 0 <= x < numNodes && d[x] < numNodes ==> d[x] <= d[v] + 1
      ensures ClosedBelow(res, d, v, a + 1)
    {
      ArcTail(a, v);
      assert to[a] < numNodes;
    }

    /** Labelling `t = to[a]`, an in-neighbour of `v` in the residual graph
        that is not yet reached: it gets label `lvl + 1` and joins the queue
        unless it is the source. */
    method Label(res: seq<int>, v: nat, a: nat, lvl: nat, d0: seq<nat>, q0: seq<nat>, ghost k: nat,
                 ghost via0: seq<nat>, ghost done: set<nat>, source: nat, sink: nat)
      returns (d: seq<nat>, q: seq<nat>, ghost via: seq<nat>)
      requires Wf() && |res| == 2 * numEdges && v < numNodes && start[v] <= a < start[v + 1] && a < 2 * numEdges
      requires LabelsOk(d0, lvl, sink) && QueueOk(d0, q0, lvl, k) && ViaOk(res, d0, via0, sink) && DoneOk(res, d0, done)
      requires Covered(d0, done, q0, source, v) && d0[v] == lvl < numNodes && ClosedBelow(res, d0, v, a)
      requires res[rev[a]] > 0 && d0[to[a]] == numNodes
      ensures LabelsOk(d, lvl, sink) && QueueOk(d, q, lvl, k) && ViaOk(res, d, via, sink) && DoneOk(res, d, done)
      ensures d == d0[to[a] := lvl + 1] && q == (if to[a] != source then q0 + [to[a]] else q0) && via == via0[to[a] := rev[a]]
      ensures Covered(d, done, q, source, v) && d[v] == lvl && ClosedBelow(res, d, v, a + 1)
      ensures 2 * (numNodes - CountBelow(d, numNodes)) + |q| < 2 * (numNodes - CountBelow(d0, numNodes)) + |q0|
    {
      var t := to[a];
      q := if t != source then q0 + [t] else q0;
      LabelKeepsLabels(d0, lvl, sink, t);
      LabelKeepsQueue(d0, q0, lvl, k, t, q);
      LabelKeepsVia(res, d0, via0, sink, v, a);
      LabelKeepsClosed(res, d0, v, a);
      LabelKeepsCovered(d0, done, q0, source, v, t, lvl + 1);
      LabelKeepsDone(res, d0, done, t, lvl + 1, d0[t := lvl + 1]);
      d := d0[t := lvl + 1];
      via := via0[t := rev[a]];
    }

    /** Expanding the queue's head `v`, at label `lvl`: its arcs are scanned
        in slot order and the unreached in-neighbours labelled. Afterwards
        `v`'s in-arcs with residual capacity all come from reached nodes. */
    method Expand(res: seq<int>, v: nat, lvl: nat, d0: seq<nat>, q0: seq<nat>, ghost k: nat,
                  ghost via0: seq<nat>, ghost done: set<nat>, source: nat, sink: nat)
      returns (d: seq<nat>, q: seq<nat>, ghost via: seq<nat>)
      requires Wf() && |res| == 2 * numEdges && v < numNodes
      requires LabelsOk(d0, lvl, sink) && QueueOk(d0, q0, lvl, k) && ViaOk(res, d0, via0, sink) && DoneOk(res, d0, done)
      requires Covered(d0, done, q0, source, v) && d0[v] == lvl < numNodes
      ensures LabelsOk(d, lvl, sink) && QueueOk(d, q, lvl, k) && ViaOk(res, d, via, sink) && DoneOk(res, d, done + {v})
      ensures Covered(d, done + {v}, q, source, sink) && (sink in q0 ==> sink in q)
      ensures 2 * (numNodes - CountBelow(d, numNodes)) + |q| <= 2 * (numNodes - CountBelow(d0, numNodes)) + |q0|
    {
      d, q, via := d0, q0, via0;
      var lo, hi := Neighbors(v);
      for a := lo to hi
        invariant LabelsOk(d, lvl, sink) && QueueOk(d, q, lvl, k) && ViaOk(res, d, via, sink) && DoneOk(res, d, done)
        invariant Covered(d, done, q, source, v) && d[v] == lvl && ClosedBelow(res, d, v, a) && (sink in q0 ==> sink in q)
        invariant 2 * (numNodes - CountBelow(d, numNodes)) + |q| <= 2 * (numNodes - CountBelow(d0, numNodes)) + |q0|
      {
        if res[rev[a]] > 0 && d[to[a]] == numNodes {
          d, q, via := Label(res, v, a, lvl, d, q, k, via, done, source, sink);
        } else {
          SkipKeeps(res, d, v, a);
        }
      }
      ExpandDone(res, d, done, v);
    }

    /** The breadth-first labelling of `update_distances_to_sink`, on a
        snapshot of the residuals. */
    method Distances(source: nat, sink: nat, res: seq<int>) returns (d: seq<nat>)
      requires Wf() && sink < numNodes && |res| == 2 * numEdges
      ensures |d| == numNodes && d[sink] == 0
      ensures forall x :: 0 <= x < numNodes ==> d[x] <= numNodes
      ensures forall x :: 0 <= x < numNodes && x != sink && d[x] < numNodes ==> exists a :: StepVia(res, d, x, a)
      ensures forall x :: 0 <= x < numNodes && x != source && d[x] < numNodes ==> Closed(res, d, x)
    {
      var n := numNodes;
      var q: seq<nat> := [sink];
      d := seq(n, _ => n);
      CountBelowNone(d, n);
      CountBelowUpdate(d, n, sink, 0);
      d := d[sink := 0];
      ghost var done: set<nat> := {};
      ghost var via: seq<nat> := seq(n, _ => 0);
      var lvl: nat := 0;
      ghost var k: nat := 1;
      while |q| > 0
        invariant LabelsOk(d, lvl, sink) && QueueOk(d, q, lvl, k) && ViaOk(res, d, via, sink) && DoneOk(res, d, done)
        invariant Covered(d, done, q, source, sink)
        invariant sink in q || sink in done
        decreases 2 * (n - CountBelow(d, n)) + |q|
      {
        var v := q[0];
        k := PopKeeps(d, q, lvl, k, sink);
        q := q[1..];
        lvl := d[v];
        d, q, via := Expand(res, v, lvl, d, q, k, via, done, source, sink);
        done := done + {v};
      }
      SearchEnd(res, d, lvl, via, done, source, sink);
    }

    /** With the queue empty, every reached node but the source is expanded,
        so the labelling has the properties `update_distances_to_sink`
        promises. */
    lemma SearchEnd(res: seq<int>, d: seq<nat>, lvl: nat, via: seq<nat>, done: set<nat>, source: nat, sink: nat)
      requires Wf() && |res| == 2 * numEdges
      requires LabelsOk(d, lvl, sink) && ViaOk(res, d, via, sink) && DoneOk(res, d, done)
      requires Covered(d, done, [], source, sink) && sink in done
      ensures |d| == numNodes && d[sink] == 0
      ensures forall x :: 0 <= x < numNodes ==> d[x] <= numNodes
      ensures forall x :: 0 <= x < numNodes && x != sink && d[x] < numNodes ==> exists a :: StepVia(res, d, x, a)
      ensures forall x :: 0 <= x < numNodes && x != source && d[x] < numNodes ==> Closed(res, d, x)
    {
      forall x | 0 <= x < numNodes && x != sink && d[x] < numNodes
        ensures exists a :: StepVia(res, d, x, a)
      {
        assert StepVia(res, d, x, via[x]);
      }
    }

    /** `update_distances_to_sink`: a breadth-first search from the sink along
        arcs with residual capacity, read backwards. The sink gets label 0 and
        nodes it does not reach keep `numNodes`. Every other reached node has
        an arc with residual capacity to a node one label lower, so its label
        is the length of a residual path to the sink. Every reached node other
        than the source (which is labelled but not expanded) has its
        in-neighbours in the residual graph reached, at most one label
        higher. */
    method UpdateDistancesToSink(source: nat, sink: nat)
      requires Valid() && sink < numNodes
      modifies this
      ensures Valid() && residual == old(residual) && excesses == old(excesses)
      ensures distances[sink] == 0
      ensures forall x :: 0 <= x < numNodes ==> distances[x] <= numNodes
      ensures forall x :: 0 <= x < numNodes && x != sink && distances[x] < numNodes ==>
                exists a :: StepVia(residual, distances, x, a)
      ensures forall x :: 0 <= x < numNodes && x != source && distances[x] < numNodes ==> Closed(residual, distances, x)
    {
      distances := Distances(source, sink, residual);
    }

    /** `is_admissible_arc`: the arc has residual and leads one step closer to
        the sink. */
    method IsAdmissibleArc(from: nat, a: nat) returns (b: bool)
      requires Valid() && from < numNodes && a < 2 * numEdges
      ensures b <==> residual[a] > 0 && distances[from] == distances[to[a]] + 1
    {
      b := residual[a] > 0 && distances[from] == distances[to[a]] + 1;
    }

    /** The residual left on the arcs out of `x`. */
    function OutRes(res: seq<int>, x: nat): int
      requires Wf() && |res| == 2 * numEdges && x < numNodes
    {
      assert StepUp(start, x);
      StartsBelow(x + 1);
      SumRange(res, start[x], start[x + 1])
    }

    /** Arcs `p[i]` going from `nodes[i]` to `nodes[i + 1]` make a path from
        the first node to the last. */
    lemma {:induction false} PathOfNodes(p: seq<nat>, nodes: seq<nat>)
      requires Wf() && |nodes| == |p| + 1
      requires forall i :: 0 <= i < |p| ==> p[i] < 2 * numEdges && to[rev[p[i]]] == nodes[i] && to[p[i]] == nodes[i + 1]
      ensures PathFrom(p, nodes[0], nodes[|p|])
      decreases |p|
    {
      if |p| > 0 {
        PathOfNodes(p[1..], nodes[1..]);
      }
    }

    /** `neighbors(u)` folded with `+` over the values `vals` of its arcs. */
    method NeighborSum(u: nat, vals: seq<int>) returns (total: int)
      requires Wf() && |vals| == 2 * numEdges && u < numNodes
      ensures total == OutRes(vals, u)
    {
      var lo, hi := Neighbors(u);
      total := 0;
      for a := lo to hi
        invariant total == Sum(vals[lo..a])
      {
        assert vals[lo..a + 1] == vals[lo..a] + [vals[a]];
        SumAppend(vals[lo..a], vals[a]);
        total := total + vals[a];
      }
    }

    /** Pushing `f` along arc `a` takes `f` from the residual out of its tail
        and gives it to the residual out of its head. */
    lemma PushedOut(res: seq<int>, a: nat, f: int, x: nat)
      requires Wf() && |res| == 2 * numEdges && a < 2 * numEdges && x < numNodes
      ensures OutRes(Pushed(res, rev, a, f), x)
           == OutRes(res, x) - (if x == to[rev[a]] then f else 0) + (if x == to[a] then f else 0)
    {
      assert StepUp(start, x);
      StartsBelow(x + 1);
      var lo, hi := start[x], start[x + 1];
      var r1 := res[a := res[a] - f];
      SumRangeUpdate(res, lo, hi, a, res[a] - f);
      SumRangeUpdate(r1, lo, hi, rev[a], r1[rev[a]] + f);
      if lo <= a < hi {
        ArcTail(a, x);
      }
      if lo <= rev[a] < hi {
        ArcTail(rev[a], x);
      }
    }

    /** The arcs of `p`, in order, lead from node `u` to node `v`. */
    ghost predicate PathFrom(p: seq<nat>, u: nat, v: nat)
      requires Wf()
      decreases |p|
    {
      if |p| == 0 then u == v
      else p[0] < 2 * numEdges && to[rev[p[0]]] == u && PathFrom(p[1..], to[p[0]], v)
    }

    /** The residuals after pushing `f` along every arc of `p`, the last arc
        first. */
    ghost function PushPath(res: seq<int>, p: seq<nat>, f: int): (r: seq<int>)
      requires Wf() && |res| == 2 * numEdges && forall i :: 0 <= i < |p| ==> p[i] < 2 * numEdges
      ensures |r| == |res|
      decreases |p|
    {
      if |p| == 0 then res else Pushed(PushPath(res, p[1..], f), rev, p[0], f)
    }

    /** Augmenting along a path from `u` to `v` takes `f` from the residual out
        of `u`, gives `f` to the residual out of `v`, and leaves every other
        node's as it was: flow is conserved along the path. */
    lemma {:induction false} PushPathOut(res: seq<int>, p: seq<nat>, f: int, u: nat, v: nat, x: nat)
      requires Wf() && |res| == 2 * numEdges && x < numNodes && u < numNodes
      requires (forall i :: 0 <= i < |p| ==> p[i] < 2 * numEdges) && PathFrom(p, u, v)
      ensures OutRes(PushPath(res, p, f), x)
           == OutRes(res, x) - (if x == u then f else 0) + (if x == v then f else 0)
      decreases |p|
    {
      if |p| > 0 {
        PushPathOut(res, p[1..], f, to[p[0]], v, x);
        PushedOut(PushPath(res, p[1..], f), p[0], f, x);
      }
    }

    /** An arc that is neither on `p` nor the reverse of an arc on `p` keeps
        its residual. */
    lemma {:induction false} PushPathOutside(res: seq<int>, p: seq<nat>, f: int, b: nat)
      requires Wf() && |res| == 2 * numEdges && b < 2 * numEdges
      requires forall i :: 0 <= i < |p| ==> p[i] < 2 * numEdges && p[i] != b && p[i] != rev[b]
      ensures PushPath(res, p, f)[b] == res[b]
      decreases |p|
    {
      if |p| > 0 {
        PushPathOutside(res, p[1..], f, b);
        assert rev[rev[b]] == b;
      }
    }

    /** Every arc out of `x` with residual capacity ends inside. */
    ghost predicate Leads(res: seq<int>, inside: seq<bool>, x: nat)
      requires Wf() && |res| == 2 * numEdges && |inside| == numNodes && x < numNodes
    {
      forall b :: start[x] <= b < start[x + 1] && b < 2 * numEdges && res[b] > 0 ==> inside[to[b]]
    }

    /** `Leads` survives enlarging the inside. */
    lemma LeadsGrow(res: seq<int>, in1: seq<bool>, in2: seq<bool>, x: nat)
      requires Wf() && |res| == 2 * numEdges && |in1| == |in2| == numNodes && x < numNodes
      requires Leads(res, in1, x) && forall y :: 0 <= y < numNodes && in1[y] ==> in2[y]
      ensures Leads(res, in2, x)
    {
      forall b | start[x] <= b < start[x + 1] && b < 2 * numEdges && res[b] > 0
        ensures in2[to[b]]
      {
        assert in1[to[b]];
      }
    }

    /** `inside` holds `s` but not `t`, and no arc with residual capacity
        leaves it: a cut the residual graph cannot cross. */
    ghost predicate Cut(res: seq<int>, inside: seq<bool>, s: nat, t: nat)
      requires Wf() && |res| == 2 * numEdges
    {
      |inside| == numNodes && s < numNodes && t < numNodes && inside[s] && !inside[t] &&
      forall x :: 0 <= x < numNodes && inside[x] ==> Leads(res, inside, x)
    }

    /** With such a cut, every path from the source to the sink has an arc
        without residual capacity: no augmenting path is left. */
    lemma {:induction false} CutBlocksPaths(res: seq<int>, inside: seq<bool>, s: nat, t: nat, p: seq<nat>, x: nat)
      requires Wf() && |res| == 2 * numEdges && Cut(res, inside, s, t)
      requires x < numNodes && inside[x] && (forall i :: 0 <= i < |p| ==> p[i] < 2 * numEdges) && PathFrom(p, x, t)
      ensures exists i :: 0 <= i < |p| && res[p[i]] <= 0
      decreases |p|
    {
      if |p| > 0 {
        var a := p[0];
        ArcTail(a, to[rev[a]]);
        if res[a] > 0 {
          assert Leads(res, inside, x);
          CutBlocksPaths(res, inside, s, t, p[1..], to[a]);
          var i :| 0 <= i < |p[1..]| && res[p[1..][i]] <= 0;
          assert res[p[i + 1]] <= 0;
        }
      }
    }
  }
}
