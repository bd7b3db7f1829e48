/** Hopcroft-Karp maximum bipartite matching. `mate[v]` is the left node
    matched to right node `v`, if any; the arcs from left to right nodes are
    kept in the compressed layout of `Csr` with the edges' left ends as keys.
    Each round labels the left nodes by breadth-first search from the free
    ones along alternating paths (`update_distances`) and then augments along
    layered paths by depth-first search (`dfs`). */
module HopcroftKarp {
  import opened Wrappers
  import opened Csr
  import opened BipartiteGraph
  import Sums

  /** `usize::MAX`: the distance of a left node not (or no longer) labelled. */
  const Invalid: nat := 0xffff_ffff_ffff_ffff

  /** How `solve` seeds the matching (`None` is the default). */
  datatype WarmStart = NoWarmStart | Greedy | KarpSipser | UserDefined(matching: seq<nat>)

  /** The edges' left ends, the keys of the layout. */
  function Lefts<E>(edges: seq<BipartiteEdge<E>>): (k: seq<nat>)
    ensures |k| == |edges| && forall i :: 0 <= i < |edges| ==> k[i] == edges[i].u
  {
    seq(|edges|, i requires 0 <= i < |edges| => edges[i].u)
  }

  /** The graph's left degree of `x` is the number of keys `x`. */
  lemma {:induction false} LeftCountIsCount<E>(edges: seq<BipartiteEdge<E>>, x: nat)
    ensures LeftCount(edges, x) == Count(Lefts(edges), x)
    decreases |edges|
  {
    if |edges| > 0 {
      var init := edges[..|edges| - 1];
      assert Lefts(edges)[..|edges| - 1] == Lefts(init);
      LeftCountIsCount(init, x);
    }
  }

  /** The number of right nodes matched to left node `w`. */
  function Partners(mate: seq<Option<nat>>, w: nat): nat
  {
    if |mate| == 0 then 0
    else Partners(mate[..|mate| - 1], w) + (if mate[|mate| - 1] == Some(w) then 1 else 0)
  }

  /** The number of matched right nodes. */
  function Matched(mate: seq<Option<nat>>): (r: nat)
    ensures r <= |mate|
  {
    if |mate| == 0 then 0
    else Matched(mate[..|mate| - 1]) + (if mate[|mate| - 1].Some? then 1 else 0)
  }

  /** No left node is matched twice. */
  ghost predicate IsMatching(mate: seq<Option<nat>>)
  {
    forall w :: Partners(mate, w) <= 1
  }

  /** Re-pointing right node `v` moves one partner from its old mate to its
      new one. */
  lemma {:induction false} PartnersUpdate(mate: seq<Option<nat>>, v: nat, x: Option<nat>, w: nat)
    requires v < |mate|
    ensures Partners(mate[v := x], w) + (if mate[v] == Some(w) then 1 else 0) ==
            Partners(mate, w) + (if x == Some(w) then 1 else 0)
    decreases |mate|
  {
    var k := |mate| - 1;
    assert mate[v := x][..k] == if v < k then mate[..k][v := x] else mate[..k];
    if v < k {
      PartnersUpdate(mate[..k], v, x, w);
    }
  }

  /** Re-pointing right node `v` changes the matched count only when it
      matches or unmatches `v`. */
  lemma {:induction false} MatchedUpdate(mate: seq<Option<nat>>, v: nat, x: Option<nat>)
    requires v < |mate|
    ensures Matched(mate[v := x]) + (if mate[v].Some? then 1 else 0) == Matched(mate) + (if x.Some? then 1 else 0)
    decreases |mate|
  {
    var k := |mate| - 1;
    assert mate[v := x][..k] == if v < k then mate[..k][v := x] else mate[..k];
    if v < k {
      MatchedUpdate(mate[..k], v, x);
    }
  }

  /** A left node has a partner exactly when some right node names it. */
  lemma {:induction false} PartnersPositive(mate: seq<Option<nat>>, w: nat)
    ensures Partners(mate, w) > 0 <==> exists v :: 0 <= v < |mate| && mate[v] == Some(w)
    decreases |mate|
  {
    if |mate| > 0 {
      var k := |mate| - 1;
      PartnersPositive(mate[..k], w);
      if Partners(mate[..k], w) > 0 {
        var v :| 0 <= v < k && mate[..k][v] == Some(w);
        assert mate[v] == Some(w);
      }
      if exists v :: 0 <= v < |mate| && mate[v] == Some(w) {
        var v :| 0 <= v < |mate| && mate[v] == Some(w);
        if v < k {
          assert mate[..k][v] == Some(w);
        }
      }
    }
  }

  /** `(degree, node)` pairs in the order `sort_unstable` puts them. */
  predicate PairLe(a: (nat, nat), b: (nat, nat))
  {
    a.0 < b.0 || (a.0 == b.0 && a.1 <= b.1)
  }

  ghost predicate SortedPairs(s: seq<(nat, nat)>)
  {
    forall i, j :: 0 <= i < j < |s| ==> PairLe(s[i], s[j])
  }

  /** The number of pairs naming node `w`. */
  function Occurrences(s: seq<(nat, nat)>, w: nat): nat
  {
    if |s| == 0 then 0 else (if s[0].1 == w then 1 else 0) + Occurrences(s[1..], w)
  }

  /** `x` put in its place in the sorted `s`. */
  function Insert(x: (nat, nat), s: seq<(nat, nat)>): (r: seq<(nat, nat)>)
    ensures multiset(r) == multiset(s) + multiset{x}
    ensures forall w :: Occurrences(r, w) == Occurrences(s, w) + (if x.1 == w then 1 else 0)
  {
    if |s| == 0 then [x]
    else if PairLe(x, s[0]) then [x] + s
    else
      assert s == [s[0]] + s[1..];
      [s[0]] + Insert(x, s[1..])
  }

  /** Insertion keeps a sorted sequence sorted. */
  lemma {:induction false} InsertSorted(x: (nat, nat), s: seq<(nat, nat)>)
    requires SortedPairs(s)
    ensures SortedPairs(Insert(x, s))
  {
    if |s| > 0 && !PairLe(x, s[0]) {
      var t := Insert(x, s[1..]);
      assert SortedPairs(s[1..]);
      InsertSorted(x, s[1..]);
      forall i | 0 <= i < |t|
        ensures PairLe(s[0], t[i])
      {
        assert t[i] in multiset(t);
        assert t[i] == x || t[i] in multiset(s[1..]);
        if t[i] != x {
          var j :| 0 <= j < |s[1..]| && s[1..][j] == t[i];
          assert s[j + 1] == t[i];
        }
      }
    }
  }

  /** A sorted rearrangement of `s`, by insertion. The pairs `sort_unstable`
      sorts are distinct, so any sort gives this order. */
  function SortPairs(s: seq<(nat, nat)>): (r: seq<(nat, nat)>)
    ensures SortedPairs(r) && multiset(r) == multiset(s)
    ensures forall w :: Occurrences(r, w) == Occurrences(s, w)
  {
    if |s| == 0 then []
    else
      assert s == [s[0]] + s[1..];
      InsertSorted(s[0], SortPairs(s[1..]));
      Insert(s[0], SortPairs(s[1..]))
  }

  /** Every edge goes from a left node below `nL` to a right node below
      `nR`. */
  ghost predicate EndsIn(edges: seq<BipartiteEdge<()>>, nL: nat, nR: nat)
  {
    forall i :: 0 <= i < |edges| ==> edges[i].u < nL && edges[i].v < nR
  }

  /** Edge `i` sits in its slot, with its right end, and `eid` (not kept by
      `hopcroft_karp.rs`) names it back. */
  ghost predicate Placed(edges: seq<BipartiteEdge<()>>, to: seq<nat>, eid: seq<nat>, i: nat)
    requires i < |edges|
  {
    var a := Slot(Lefts(edges), i);
    a < |to| && a < |eid| && to[a] == edges[i].v && eid[a] == i
  }

  /** `preprocess`, first loop: `start` is the running sum of the left
      degrees. */
  method LeftStarts(nL: nat, ghost edges: seq<BipartiteEdge<()>>, degreeLeft: seq<nat>) returns (start: seq<nat>)
    requires |degreeLeft| == nL && forall x :: 0 <= x < nL ==> degreeLeft[x] == LeftCount(edges, x)
    ensures |start| == nL + 1 && forall x :: 0 <= x <= nL ==> start[x] == Start(Lefts(edges), x)
  {
    ghost var k := Lefts(edges);
    start := seq(nL + 1, _ => 0);
    for u := 1 to nL + 1
      invariant |start| == nL + 1
      invariant forall x :: 0 <= x < u ==> start[x] == Start(k, x)
      invariant forall x :: u <= x <= nL ==> start[x] == 0
    {
      LeftCountIsCount(edges, u - 1);
      var next := start[u] + start[u - 1] + degreeLeft[u - 1];
      assert next == Start(k, u);
      start := start[u := next];
    }
  }

  /** Every edge's slot is below the edge count. */
  lemma SlotBelow(edges: seq<BipartiteEdge<()>>, nL: nat, nR: nat, i: nat)
    requires EndsIn(edges, nL, nR) && i < |edges|
    ensures Slot(Lefts(edges), i) < |edges|
  {
    var k := Lefts(edges);
    SlotInGroup(k, i);
    StartMonotone(k, k[i] + 1, nL);
    StartAll(k, nL);
  }

  /** Writing edge `i` into its slot places it and keeps every earlier edge
      placed, their slots being different. */
  lemma PlaceEdge(edges: seq<BipartiteEdge<()>>, to: seq<nat>, eid: seq<nat>, i: nat, a: nat, to': seq<nat>, eid': seq<nat>)
    requires i < |edges| && |to| == |eid| == |edges|
    requires forall j :: 0 <= j < i ==> Placed(edges, to, eid, j)
    requires a == Slot(Lefts(edges), i) && a < |edges|
    requires to' == to[a := edges[i].v] && eid' == eid[a := i]
    ensures forall j :: 0 <= j <= i ==> Placed(edges, to', eid', j)
  {
    forall j | 0 <= j <= i
      ensures Placed(edges, to', eid', j)
    {
      if j < i {
        SlotInjective(Lefts(edges), j, i);
        assert Placed(edges, to, eid, j);
      }
    }
  }

  /** `preprocess`, second loop: each edge goes to the next free slot of its
      left end. */
  method PlaceArcs(nL: nat, nR: nat, edges: seq<BipartiteEdge<()>>, start: seq<nat>) returns (to: seq<nat>, ghost eid: seq<nat>)
    requires EndsIn(edges, nL, nR)
    requires |start| == nL + 1 && forall x :: 0 <= x <= nL ==> start[x] == Start(Lefts(edges), x)
    ensures |to| == |eid| == |edges|
    ensures forall i :: 0 <= i < |edges| ==> Placed(edges, to, eid, i)
  {
    var m := |edges|;
    ghost var k := Lefts(edges);
    to, eid := seq(m, _ => 0), seq(m, _ => 0);
    var count := seq(nL, _ => 0);
    for i := 0 to m
      invariant |to| == |eid| == m && |count| == nL
      invariant forall x :: 0 <= x < nL ==> count[x] == Count(k[..i], x)
      invariant forall j :: 0 <= j < i ==> Placed(edges, to, eid, j)
    {
      var u := edges[i].u;
      var a := start[u] + count[u];
      SlotBelow(edges, nL, nR, i);
      PlaceEdge(edges, to, eid, i, a, to[a := edges[i].v], eid[a := i]);
      to, eid := to[a := edges[i].v], eid[a := i];
      var c := count[u := count[u] + 1];
      CountStep(k, i, count, c, nL);
      count := c;
    }
  }

  /** The arcs of the layout: `start` runs from 0 to the arc count, and the
      range of left node `x` holds exactly the right ends of `x`'s edges,
      `eid` naming each. */
  ghost predicate Arcs(nL: nat, nR: nat, edges: seq<BipartiteEdge<()>>, start: seq<nat>, to: seq<nat>, eid: seq<nat>)
  {
    && EndsIn(edges, nL, nR)
    && |start| == nL + 1 && start[0] == 0 && start[nL] == |to| == |eid| == |edges|
    && (forall x, y :: 0 <= x <= y <= nL ==> start[x] <= start[y])
    && (forall a :: 0 <= a < |to| ==> to[a] < nR && eid[a] < |edges|)
    && (forall x, a :: 0 <= x < nL && start[x] <= a < start[x + 1] ==> edges[eid[a]].u == x && edges[eid[a]].v == to[a])
  }

  /** Edge `i` sits in its slot: inside its left end's range, after the
      earlier edges of that end. */
  ghost predicate Laid(edges: seq<BipartiteEdge<()>>, start: seq<nat>, to: seq<nat>, eid: seq<nat>)
  {
    forall i :: 0 <= i < |edges| ==>
      var a := Slot(Lefts(edges), i);
      edges[i].u + 1 < |start| && start[edges[i].u] <= a < start[edges[i].u + 1] && a < |to| && a < |eid| && to[a] == edges[i].v && eid[a] == i
  }

  /** Once every edge is placed, the layout is the one `Arcs` describes. */
  lemma PlacedArcs(nL: nat, nR: nat, edges: seq<BipartiteEdge<()>>, start: seq<nat>, to: seq<nat>, eid: seq<nat>)
    requires EndsIn(edges, nL, nR) && |to| == |eid| == |edges|
    requires |start| == nL + 1 && forall x :: 0 <= x <= nL ==> start[x] == Start(Lefts(edges), x)
    requires forall i :: 0 <= i < |edges| ==> Placed(edges, to, eid, i)
    ensures Arcs(nL, nR, edges, start, to, eid) && Laid(edges, start, to, eid)
  {
    StartsOrdered(nL, edges, start);
    SlotsInRanges(nL, nR, edges, start, to, eid);
    SlotsOnto(nL, nR, edges, to, eid);
    RangesHoldEdges(nL, nR, edges, start, to, eid);
  }

  lemma StartsOrdered(nL: nat, edges: seq<BipartiteEdge<()>>, start: seq<nat>)
    requires forall i :: 0 <= i < |edges| ==> edges[i].u < nL
    requires |start| == nL + 1 && forall x :: 0 <= x <= nL ==> start[x] == Start(Lefts(edges), x)
    ensures start[0] == 0 && start[nL] == |edges|
    ensures forall x, y :: 0 <= x <= y <= nL ==> start[x] <= start[y]
  {
    var k := Lefts(edges);
    StartAll(k, nL);
    forall x, y | 0 <= x <= y <= nL
      ensures start[x] <= start[y]
    {
      StartMonotone(k, x, y);
    }
  }

  lemma SlotsInRanges(nL: nat, nR: nat, edges: seq<BipartiteEdge<()>>, start: seq<nat>, to: seq<nat>, eid: seq<nat>)
    requires EndsIn(edges, nL, nR)
    requires |start| == nL + 1 && forall x :: 0 <= x <= nL ==> start[x] == Start(Lefts(edges), x)
    requires forall i :: 0 <= i < |edges| ==> Placed(edges, to, eid, i)
    ensures Laid(edges, start, to, eid)
  {
    forall i | 0 <= i < |edges|
      ensures var a := Slot(Lefts(edges), i);
        edges[i].u + 1 < |start| && start[edges[i].u] <= a < start[edges[i].u + 1] && a < |to| && a < |eid| && to[a] == edges[i].v && eid[a] == i
    {
      assert Placed(edges, to, eid, i);
      SlotInGroup(Lefts(edges), i);
    }
  }

  lemma SlotsOnto(nL: nat, nR: nat, edges: seq<BipartiteEdge<()>>, to: seq<nat>, eid: seq<nat>)
    requires EndsIn(edges, nL, nR) && |to| == |eid| == |edges|
    requires forall i :: 0 <= i < |edges| ==> Placed(edges, to, eid, i)
    ensures forall a :: 0 <= a < |to| ==> to[a] < nR && eid[a] < |edges| && Slot(Lefts(edges), eid[a]) == a
  {
    forall a | 0 <= a < |to|
      ensures to[a] < nR && eid[a] < |edges| && Slot(Lefts(edges), eid[a]) == a
    {
      var p := SlotOnto(Lefts(edges), nL, a);
      assert Placed(edges, to, eid, p);
    }
  }

  lemma RangesHoldEdges(nL: nat, nR: nat, edges: seq<BipartiteEdge<()>>, start: seq<nat>, to: seq<nat>, eid: seq<nat>)
    requires EndsIn(edges, nL, nR) && |to| == |eid| == |edges|
    requires |start| == nL + 1 && forall x :: 0 <= x <= nL ==> start[x] == Start(Lefts(edges), x)
    requires forall i :: 0 <= i < |edges| ==> Placed(edges, to, eid, i)
    requires forall a :: 0 <= a < |to| ==> eid[a] < |edges| && Slot(Lefts(edges), eid[a]) == a
    requires start[nL] == |edges| && forall x, y :: 0 <= x <= y <= nL ==> start[x] <= start[y]
    ensures forall x, a :: 0 <= x < nL && start[x] <= a < start[x + 1] ==> edges[eid[a]].u == x && edges[eid[a]].v == to[a]
  {
    var k := Lefts(edges);
    forall x, a | 0 <= x < nL && start[x] <= a < start[x + 1]
      ensures edges[eid[a]].u == x && edges[eid[a]].v == to[a]
    {
      var i := eid[a];
      assert Placed(edges, to, eid, i);
      SlotInGroup(k, i);
    }
  }

  /** The deg_u vector of the greedy start: `(degreeU[u], u)` for every
      left node `u`. */
  function Keyed(degreeU: seq<nat>): (r: seq<(nat, nat)>)
    ensures |r| == |degreeU| && forall u :: 0 <= u < |r| ==> r[u] == (degreeU[u], u)
  {
    seq(|degreeU|, u requires 0 <= u < |degreeU| => (degreeU[u], u))
  }

  /** Each node from `m` on is keyed once. */
  lemma {:induction false} KeyedOnce(degreeU: seq<nat>, m: nat, w: nat)
    requires m <= |degreeU|
    ensures Occurrences(Keyed(degreeU)[m..], w) == if m <= w < |degreeU| then 1 else 0
    decreases |degreeU| - m
  {
    if m < |degreeU| {
      KeyedOnce(degreeU, m + 1, w);
      assert Keyed(degreeU)[m..][1..] == Keyed(degreeU)[m + 1..];
    }
  }

  /** The left nodes named in `s`. */
  ghost function NodesOf(s: seq<(nat, nat)>): set<nat>
  {
    set k | 0 <= k < |s| :: s[k].1
  }

  /** A node named at position `k` occurs, and one named at two positions
      occurs twice. */
  lemma {:induction false} OccursAt(s: seq<(nat, nat)>, j: nat, k: nat)
    requires j <= k < |s| && s[j].1 == s[k].1
    ensures Occurrences(s, s[k].1) >= if j < k then 2 else 1
  {
    if j > 0 {
      OccursAt(s[1..], j - 1, k - 1);
    } else if j < k {
      OccursAt(s[1..], k - 1, k - 1);
    }
  }

  /** A node that occurs is named at some position. */
  lemma {:induction false} OccursSomewhere(s: seq<(nat, nat)>, w: nat) returns (k: nat)
    requires Occurrences(s, w) > 0
    ensures k < |s| && s[k].1 == w
  {
    if s[0].1 == w {
      k := 0;
    } else {
      k := OccursSomewhere(s[1..], w);
      k := k + 1;
    }
  }

  /** `deg_u` after `sort_unstable`: the left nodes, each once, in degree
      order. */
  lemma SortedNodes(degreeU: seq<nat>, order: seq<(nat, nat)>)
    requires order == SortPairs(Keyed(degreeU))
    ensures SortedPairs(order) && |order| == |degreeU|
    ensures forall k :: 0 <= k < |order| ==> order[k].1 < |degreeU|
    ensures forall j, k :: 0 <= j < k < |order| ==> order[j].1 != order[k].1
    ensures forall u :: 0 <= u < |degreeU| ==> u in NodesOf(order)
  {
    var src := Keyed(degreeU);
    assert |order| == |degreeU| by {
      assert |multiset(order)| == |multiset(src)|;
    }
    assert Keyed(degreeU)[0..] == Keyed(degreeU);
    OrderNodesBelow(degreeU, order);
    OrderNodesDistinct(degreeU, order);
    OrderNodesAll(degreeU, order);
  }

  lemma OrderNodesBelow(degreeU: seq<nat>, order: seq<(nat, nat)>)
    requires forall w :: Occurrences(order, w) == Occurrences(Keyed(degreeU)[0..], w)
    ensures forall k :: 0 <= k < |order| ==> order[k].1 < |degreeU|
  {
    forall k | 0 <= k < |order|
      ensures order[k].1 < |degreeU|
    {
      OccursAt(order, k, k);
      KeyedOnce(degreeU, 0, order[k].1);
    }
  }

  lemma OrderNodesDistinct(degreeU: seq<nat>, order: seq<(nat, nat)>)
    requires forall w :: Occurrences(order, w) == Occurrences(Keyed(degreeU)[0..], w)
    ensures forall j, k :: 0 <= j < k < |order| ==> order[j].1 != order[k].1
  {
    forall j, k | 0 <= j < k < |order|
      ensures order[j].1 != order[k].1
    {
      if order[j].1 == order[k].1 {
        OccursAt(order, j, k);
        KeyedOnce(degreeU, 0, order[k].1);
      }
    }
  }

  lemma OrderNodesAll(degreeU: seq<nat>, order: seq<(nat, nat)>)
    requires forall w :: Occurrences(order, w) == Occurrences(Keyed(degreeU)[0..], w)
    ensures forall u :: 0 <= u < |degreeU| ==> u in NodesOf(order)
  {
    forall u | 0 <= u < |degreeU|
      ensures u in NodesOf(order)
    {
      KeyedOnce(degreeU, 0, u);
      var k := OccursSomewhere(order, u);
    }
  }

  /** `deg_u` sorted: every left node once, by increasing degree and then
      id. */
  function DegreeOrder(degreeU: seq<nat>): (order: seq<(nat, nat)>)
    ensures SortedPairs(order) && multiset(order) == multiset(Keyed(degreeU)) && |order| == |degreeU|
    ensures forall k :: 0 <= k < |order| ==> order[k].1 < |degreeU|
    ensures forall j, k :: 0 <= j < k < |order| ==> order[j].1 != order[k].1
    ensures forall u :: 0 <= u < |degreeU| ==> u in NodesOf(order)
  {
    var order := SortPairs(Keyed(degreeU));
    SortedNodes(degreeU, order);
    order
  }

  /** No right node matched: every left node has no partner. */
  lemma {:induction false} NoPartners(mate: seq<Option<nat>>, w: nat)
    requires forall v :: 0 <= v < |mate| ==> mate[v].None?
    ensures Partners(mate, w) == 0
    decreases |mate|
  {
    if |mate| > 0 {
      NoPartners(mate[..|mate| - 1], w);
    }
  }

  class HopcroftKarp {
    var numLeftNodes: nat
    var numRightNodes: nat
    /** `mate[v]`: the left node right node `v` is matched with. */
    var mate: seq<Option<nat>>
    var distances: seq<nat>
    var start: seq<nat>
    var to: seq<nat>
    var warmStart: WarmStart
    var queue: seq<nat>
    /** The edges the layout was built from, and the edge in each slot. */
    ghost var edges: seq<BipartiteEdge<()>>
    ghost var eid: seq<nat>

    /** The default solver: no warm start, everything empty. */
    constructor ()
      ensures warmStart == NoWarmStart && numLeftNodes == 0 && numRightNodes == 0
      ensures mate == [] && distances == [] && start == [] && to == [] && queue == []
    {
      numLeftNodes, numRightNodes := 0, 0;
      mate, distances, start, to := [], [], [], [];
      warmStart, queue := NoWarmStart, [];
      edges, eid := [], [];
    }

    /** `set_warm_start`. */
    method SetWarmStart(w: WarmStart)
      modifies this`warmStart
      ensures warmStart == w
    {
      warmStart := w;
    }

    /** `set_warm_start_user`: the user's edge ids become the warm start. */
    method SetWarmStartUser(matching: seq<nat>)
      modifies this`warmStart
      ensures warmStart == UserDefined(matching)
    {
      warmStart := UserDefined(matching);
    }

    /** The layout of the arcs from left to right nodes. */
    ghost predicate Layout()
      reads this`numLeftNodes, this`numRightNodes, this`edges, this`start, this`to, this`eid
    {
      numLeftNodes < Invalid && Arcs(numLeftNodes, numRightNodes, edges, start, to, eid)
    }

    /** Arc `a` goes from left node `w` (one with a range) to right node
        `v`. */
    ghost predicate IsArc(w: nat, a: nat, v: nat)
      reads this`start, this`to
    {
      w + 1 < |start| && start[w] <= a < start[w + 1] && a < |to| && to[a] == v
    }

    /** Some edge of the graph joins left node `w` and right node `v`. */
    ghost predicate OnEdge(w: nat, v: nat)
      reads this`edges
    {
      Joined(edges, w, v)
    }

    /** `m` matches right nodes to left nodes along edges. */
    ghost predicate MatesOn(m: seq<Option<nat>>)
      reads this`numLeftNodes, this`numRightNodes, this`edges
    {
      Mates(numLeftNodes, numRightNodes, edges, m)
    }

    ghost predicate Valid()
      reads this`numLeftNodes, this`numRightNodes, this`edges, this`start, this`to, this`eid, this`mate, this`distances
    {
      Layout() && MatesOn(mate) && |distances| == numLeftNodes
    }

    /** `neighbors(u)`: the slot range of `u`, which holds exactly the arcs
        of `u`'s edges. */
    function Neighbors(u: nat): (r: (nat, nat))
      reads this`numLeftNodes, this`numRightNodes, this`edges, this`start, this`to, this`eid
      requires Layout() && u < numLeftNodes
      ensures r.0 <= r.1 <= |to|
      ensures forall a :: r.0 <= a < r.1 ==> edges[eid[a]].u == u && edges[eid[a]].v == to[a]
    {
      (start[u], start[u + 1])
    }

    /** An arc of the layout lies on an edge of the graph. */
    lemma ArcOnEdge(w: nat, a: nat)
      requires Layout() && w < numLeftNodes && start[w] <= a < start[w + 1]
      ensures a < |to| && to[a] < numRightNodes && OnEdge(w, to[a])
    {
      assert edges[eid[a]].u == w && edges[eid[a]].v == to[a];
    }

    /** Left node `w` and right node `v` are joined by an arc. */
    ghost predicate Adjacent(w: nat, v: nat)
      reads this`start, this`to
    {
      exists a :: IsArc(w, a, v)
    }

    /** Left node `u` is matched in `m`, or every neighbour of `u` is. */
    ghost predicate Saturated(m: seq<Option<nat>>, u: nat)
      reads this`start, this`to
      requires u + 1 < |start|
    {
      Partners(m, u) > 0 || forall a :: start[u] <= a < start[u + 1] ==> a < |to| && to[a] < |m| && m[to[a]].Some?
    }

    /** `preprocess`: lays out the arcs by left node, every right node
        unmatched, every distance 0, the queue empty. */
    method Preprocess(graph: BipartiteGraph<(), ()>)
      requires graph.Valid() && |graph.leftNodes| < Invalid
      modifies this`numLeftNodes, this`numRightNodes, this`edges, this`start, this`to, this`eid, this`mate, this`distances, this`queue
      ensures Valid() && numLeftNodes == |graph.leftNodes| && numRightNodes == |graph.rightNodes| && edges == graph.edges
      ensures start[0] == 0 && forall x :: 0 <= x < numLeftNodes ==> start[x + 1] == start[x] + graph.degreeLeft[x]
      ensures Laid(edges, start, to, eid)
      ensures (forall v :: 0 <= v < numRightNodes ==> mate[v].None?) && (forall u :: 0 <= u < numLeftNodes ==> distances[u] == 0)
      ensures queue == []
    {
      Lay(|graph.leftNodes|, |graph.rightNodes|, graph.edges, graph.degreeLeft);
    }

    /** The state `preprocess` leaves for a graph with `nL` left and `nR`
        right nodes, these edges and these left degrees. */
    method Lay(nL: nat, nR: nat, es: seq<BipartiteEdge<()>>, degrees: seq<nat>)
      requires EndsIn(es, nL, nR) && nL < Invalid
      requires |degrees| == nL && forall x :: 0 <= x < nL ==> degrees[x] == LeftCount(es, x)
      modifies this`numLeftNodes, this`numRightNodes, this`edges, this`start, this`to, this`eid, this`mate, this`distances, this`queue
      ensures Valid() && numLeftNodes == nL && numRightNodes == nR && edges == es
      ensures start[0] == 0 && forall x :: 0 <= x < nL ==> start[x + 1] == start[x] + degrees[x]
      ensures Laid(edges, start, to, eid)
      ensures (forall v :: 0 <= v < nR ==> mate[v].None?) && (forall u :: 0 <= u < nL ==> distances[u] == 0)
      ensures queue == []
    {
      var s, t;
      ghost var e;
      s, t, e := BuildArcs(nL, nR, es, degrees);
      var m, d := seq(nR, _ => None), seq(nL, _ => 0);
      numLeftNodes, numRightNodes, start, to := nL, nR, s, t;
      mate, distances, queue := m, d, [];
      edges, eid := es, e;
      assert numLeftNodes == nL && numRightNodes == nR && edges == es && start == s && to == t && eid == e && mate == m && distances == d;
    }

    /** The inner loop of `initial_solution_greedy`: the first free
        neighbour of `u` of least right degree, at arc `arc`, or none when
        every neighbour is matched. */
    method BestNeighbor(m: seq<Option<nat>>, u: nat, degreeV: seq<nat>) returns (best: Option<nat>, ghost arc: nat)
      requires Layout() && MatesOn(m) && u < numLeftNodes && |degreeV| == numRightNodes
      ensures best.None? <==> forall a :: start[u] <= a < start[u + 1] ==> m[to[a]].Some?
      ensures best.Some? ==> IsArc(u, arc, best.value) && m[best.value].None?
      ensures best.Some? ==> forall a :: start[u] <= a < start[u + 1] && m[to[a]].None? ==>
                degreeV[best.value] <= degreeV[to[a]] && (a < arc ==> degreeV[best.value] < degreeV[to[a]])
    {
      best, arc := None, 0;
      for a := start[u] to start[u + 1]
        invariant best.None? ==> forall b :: start[u] <= b < a ==> m[to[b]].Some?
        invariant best.Some? ==> start[u] <= arc < a && to[arc] == best.value && m[best.value].None?
        invariant best.Some? ==> forall b :: start[u] <= b < a && m[to[b]].None? ==>
                    degreeV[best.value] <= degreeV[to[b]] && (b < arc ==> degreeV[best.value] < degreeV[to[b]])
      {
        var v := to[a];
        if m[v].None? && (best.None? || degreeV[v] < degreeV[best.value]) {
          best, arc := Some(v), a;
        }
      }
    }

    /** `initial_solution_greedy`: the left nodes, by increasing degree
        (ties by id), each take the first free neighbour of least right
        degree. Only free right nodes get matched, each to a neighbour; a
        left node gains at most one partner; and afterwards every left node
        is matched or has only matched neighbours. */
    method InitialSolutionGreedy(degreeU: seq<nat>, degreeV: seq<nat>)
      requires Valid() && |degreeU| == numLeftNodes && |degreeV| == numRightNodes
      modifies this`mate
      ensures MatesOn(mate)
      ensures forall v :: 0 <= v < numRightNodes && old(mate)[v].Some? ==> mate[v] == old(mate)[v]
      ensures forall v :: 0 <= v < numRightNodes && mate[v] != old(mate)[v] ==> mate[v].Some? && Adjacent(mate[v].value, v)
      ensures forall w :: Partners(mate, w) <= Partners(old(mate), w) + 1
      ensures forall u :: 0 <= u < numLeftNodes ==> Saturated(mate, u)
    {
      mate := GreedyMates(degreeU, degreeV, mate);
    }

    /** What the greedy loop keeps after `k` turns from `m0`: matched right
        nodes stay matched, a newly matched one is a neighbour of its mate,
        only the nodes of the turns taken gained a partner, at most one, and
        each of them is saturated. */
    ghost predicate GreedyInv(m0: seq<Option<nat>>, m: seq<Option<nat>>, order: seq<(nat, nat)>, k: nat)
      reads this`numLeftNodes, this`numRightNodes, this`edges, this`start, this`to, this`eid
      requires Layout() && |m0| == |m| == numRightNodes && k <= |order|
      requires forall j :: 0 <= j < |order| ==> order[j].1 < numLeftNodes
    {
      && MatesOn(m)
      && (forall v :: 0 <= v < numRightNodes && m0[v].Some? ==> m[v] == m0[v])
      && (forall v :: 0 <= v < numRightNodes && m[v] != m0[v] ==> m[v].Some? && Adjacent(m[v].value, v))
      && (forall w :: Partners(m, w) <= Partners(m0, w) + (if w in NodesOf(order[..k]) then 1 else 0))
      && (forall j :: 0 <= j < k ==> Saturated(m, order[j].1))
    }

    /** The outer loop of `initial_solution_greedy`: each left node in
        degree order takes its best free neighbour, if any. */
    method GreedyMates(degreeU: seq<nat>, degreeV: seq<nat>, m0: seq<Option<nat>>) returns (m: seq<Option<nat>>)
      requires Layout() && MatesOn(m0) && |degreeU| == numLeftNodes && |degreeV| == numRightNodes
      ensures MatesOn(m)
      ensures forall v :: 0 <= v < numRightNodes && m0[v].Some? ==> m[v] == m0[v]
      ensures forall v :: 0 <= v < numRightNodes && m[v] != m0[v] ==> m[v].Some? && Adjacent(m[v].value, v)
      ensures forall w :: Partners(m, w) <= Partners(m0, w) + 1
      ensures forall u :: 0 <= u < numLeftNodes ==> Saturated(m, u)
    {
      var order := DegreeOrder(degreeU);
      m := m0;
      assert order[..0] == [];
      for k := 0 to |order|
        invariant |m| == numRightNodes && GreedyInv(m0, m, order, k)
      {
        m := GreedyTurn(order, k, degreeV, m0, m);
      }
      assert order[..|order|] == order;
      forall u | 0 <= u < numLeftNodes
        ensures Saturated(m, u)
      {
        assert u in NodesOf(order);
        var k :| 0 <= k < |order| && order[k].1 == u;
      }
    }

    /** One turn of the greedy loop. */
    method GreedyTurn(order: seq<(nat, nat)>, k: nat, degreeV: seq<nat>, ghost m0: seq<Option<nat>>, m: seq<Option<nat>>)
      returns (m': seq<Option<nat>>)
      requires Layout() && |m0| == |m| == numRightNodes && |degreeV| == numRightNodes && k < |order|
      requires forall j :: 0 <= j < |order| ==> order[j].1 < numLeftNodes
      requires forall j, k :: 0 <= j < k < |order| ==> order[j].1 != order[k].1
      requires GreedyInv(m0, m, order, k)
      ensures |m'| == numRightNodes && GreedyInv(m0, m', order, k + 1)
    {
      var u := order[k].1;
      var best;
      ghost var arc;
      best, arc := BestNeighbor(m, u, degreeV);
      NodesOfStep(order, k);
      if best.Some? {
        m' := m[best.value := Some(u)];
        GreedyStep(m, best.value, u, arc, m', order, k, m0);
      } else {
        m' := m;
      }
    }

    /** Matching the free right node `v` to `u` over arc `arc` keeps the
        invariants of the greedy loop. */
    lemma GreedyStep(m: seq<Option<nat>>, v: nat, u: nat, arc: nat, m': seq<Option<nat>>, order: seq<(nat, nat)>, k: nat, m0: seq<Option<nat>>)
      requires Layout() && |m0| == |m| == numRightNodes && k < |order| && u == order[k].1
      requires forall j :: 0 <= j < |order| ==> order[j].1 < numLeftNodes
      requires IsArc(u, arc, v) && m[v].None? && m' == m[v := Some(u)]
      requires GreedyInv(m0, m, order, k)
      requires u !in NodesOf(order[..k]) && NodesOf(order[..k + 1]) == NodesOf(order[..k]) + {u}
      ensures GreedyInv(m0, m', order, k + 1)
    {
      ArcOnEdge(u, arc);
      assert Adjacent(u, v);
      forall w
        ensures Partners(m', w) == Partners(m, w) + (if w == u then 1 else 0)
      {
        PartnersUpdate(m, v, Some(u), w);
      }
    }

    /** The first loops of `update_distances`: label 0 on the left nodes
        free in `m` and `Invalid` on the matched ones. */
    method InitialLabels(m: seq<Option<nat>>) returns (d: seq<nat>)
      requires Layout() && MatesOn(m)
      ensures |d| == numLeftNodes
      ensures forall x :: 0 <= x < numLeftNodes ==> d[x] == (if Partners(m, x) == 0 then 0 else Invalid)
    {
      d := seq(numLeftNodes, _ => 0);
      for v := 0 to numRightNodes
        invariant |d| == numLeftNodes
        invariant forall x :: 0 <= x < numLeftNodes ==> d[x] == (if Partners(m[..v], x) == 0 then 0 else Invalid)
      {
        assert m[..v + 1][..v] == m[..v];
        if m[v].Some? {
          d := d[m[v].value := Invalid];
        }
      }
      assert m[..numRightNodes] == m;
    }

    /** The initial labels satisfy `Labels`. */
    lemma InitialLabelsHold(m: seq<Option<nat>>, d: seq<nat>)
      requires Layout() && |d| == numLeftNodes
      requires forall x :: 0 <= x < numLeftNodes ==> d[x] == (if Partners(m, x) == 0 then 0 else Invalid)
      ensures Labels(start, to, m, d)
    {
      forall x | 0 <= x < |d| && d[x] != Invalid
        ensures d[x] < FiniteCount(d)
      {
        FiniteCountPositive(d, x);
      }
    }

    /** The search loop of `update_distances`: pop the front of the queue,
        and for every arc of the popped node either label and queue the
        unlabelled mate of its matched right node, or note that the right
        node is free. */
    method Bfs(m: seq<Option<nat>>, d0: seq<nat>, q0: seq<nat>) returns (d: seq<nat>, found: bool)
      requires Layout() && MatesOn(m) && Labels(start, to, m, d0) && Queued(d0, q0) && Covered(d0, q0, {})
      ensures Layered(start, to, m, d)
      ensures found <==> exists x :: 0 <= x < |d| && d[x] != Invalid && FreeArc(start, to, m, x, start[x + 1])
    {
      var q := q0;
      ghost var done: set<nat> := {};
      d, found := d0, false;
      while |q| > 0
        invariant Frontier(start, to, m, d, q, done, found)
        decreases numLeftNodes - FiniteCount(d), |q|
      {
        var u := q[0];
        Pop(start, to, m, d, q, done, found);
        q := q[1..];
        d, q, found := ScanArcs(m, d, q, done, found, u);
        done := done + {u};
      }
      Drained(start, to, m, d, done, found);
    }

    /** The scan of the arcs of `u`. */
    method ScanArcs(m: seq<Option<nat>>, d: seq<nat>, q: seq<nat>, ghost done: set<nat>, found: bool, u: nat)
      returns (d': seq<nat>, q': seq<nat>, found': bool)
      requires Layout() && MatesOn(m) && u < numLeftNodes
      requires Scan(start, to, m, d, q, done, found, u, start[u])
      ensures Frontier(start, to, m, d', q', done + {u}, found')
      ensures FiniteCount(d) <= FiniteCount(d') && |q'| + FiniteCount(d) == |q| + FiniteCount(d')
    {
      d', q', found' := d, q, found;
      for a := start[u] to start[u + 1]
        invariant Scan(start, to, m, d', q', done, found', u, a)
        invariant FiniteCount(d) <= FiniteCount(d') && |q'| + FiniteCount(d) == |q| + FiniteCount(d')
      {
        ArcOnEdge(u, a);
        var v := to[a];
        match m[v]
        case Some(u2) =>
          if d'[u2] == Invalid {
            LabelStep(start, to, m, d', q', done, found', u, a, u2);
            d' := d'[u2 := d'[u] + 1];
            q' := q' + [u2];
          } else {
            KnownStep(start, to, m, d', q', done, found', u, a);
          }
        case None =>
          FreeStep(start, to, m, d', q', done, found', u, a);
          found' := true;
      }
      ScanDone(start, to, m, d', q', done, found', u);
    }

    /** `update_distances`: labels the left nodes by breadth-first search
        from the free ones over arcs to matched right nodes and on to their
        mates, and tells whether the search meets a free right node. */
    method UpdateDistances() returns (found: bool)
      requires Valid()
      modifies this`distances, this`queue
      ensures Layered(start, to, mate, distances) && queue == []
      ensures found <==> exists x :: 0 <= x < numLeftNodes && distances[x] != Invalid && FreeArc(start, to, mate, x, start[x + 1])
    {
      var m := mate;
      var d0 := InitialLabels(m);
      InitialLabelsHold(m, d0);
      var q0 := Roots(d0);
      assert Queued(d0, q0);
      assert Covered(d0, q0, {});
      var d;
      d, found := Bfs(m, d0, q0);
      distances, queue := d, [];
      assert mate == m && distances == d;
    }

    /** `dfs`: uses up `u` (its label becomes `Invalid`) and walks its arcs
        in order; a free right node, or one whose mate is labelled one more
        than `u` and from which `dfs` succeeds, is re-matched to `u`. On
        success `u` gains a partner along one of its arcs, the number of
        matched right nodes grows by one and no other left node gains or
        loses a partner; on failure the matching is unchanged and every node
        the call used up is a dead end. Right nodes matched to `u` or to a
        node already used up keep their mates either way. */
    method Dfs(u: nat) returns (found: bool)
      requires Layout() && Mates(numLeftNodes, numRightNodes, edges, mate) && |distances| == numLeftNodes && u < numLeftNodes
      requires distances[u] != Invalid && Bounded(distances)
      modifies this`mate, this`distances
      decreases FiniteCount(distances), 1
      ensures Mates(numLeftNodes, numRightNodes, edges, mate) && Bounded(distances) && Shrunk(old(distances), distances) && distances[u] == Invalid
      ensures Kept(old(mate), mate, old(distances), u)
      ensures !found ==> mate == old(mate) && DeadEnds(start, to, mate, old(distances), distances)
      ensures found ==> exists a :: start[u] <= a < start[u + 1] && a < |to| && mate[to[a]] == Some(u)
      ensures found ==> GainedOne(old(mate), mate, u)
    {
      ghost var d0 := distances;
      var now := distances[u];
      distances := distances[u := Invalid];
      var a := start[u];
      while a < start[u + 1]
        invariant start[u] <= a <= start[u + 1]
        invariant mate == old(mate) && Mates(numLeftNodes, numRightNodes, edges, mate)
        invariant |distances| == numLeftNodes && Bounded(distances) && Shrunk(d0, distances) && distances[u] == Invalid
        invariant DfsInv(start, to, mate, d0, distances, u, a)
      {
        FiniteCountDrop(d0, distances, u);
        found := DfsArc(u, a, now, d0);
        if found {
          return;
        }
        a := a + 1;
      }
      DfsInvDone(start, to, mate, d0, distances, u);
      found := false;
    }

    /** One arc `a` of the `dfs` from `u`, whose label was `now`. */
    method DfsArc(u: nat, a: nat, now: nat, ghost d0: seq<nat>) returns (found: bool)
      requires Layout() && Mates(numLeftNodes, numRightNodes, edges, mate) && |distances| == numLeftNodes && Bounded(distances)
      requires u < numLeftNodes && start[u] <= a < start[u + 1]
      requires |d0| == numLeftNodes && now == d0[u] && now < numLeftNodes && distances[u] == Invalid && Shrunk(d0, distances)
      requires DfsInv(start, to, mate, d0, distances, u, a)
      modifies this`mate, this`distances
      decreases FiniteCount(distances) + 1, 0
      ensures Mates(numLeftNodes, numRightNodes, edges, mate) && Bounded(distances) && Shrunk(d0, distances) && distances[u] == Invalid
      ensures Kept(old(mate), mate, d0, u)
      ensures !found ==> mate == old(mate) && DfsInv(start, to, mate, d0, distances, u, a + 1)
      ensures found ==> a < |to| && mate[to[a]] == Some(u)
      ensures found ==> GainedOne(old(mate), mate, u)
    {
      ArcOnEdge(u, a);
      var v := to[a];
      match mate[v]
      case None =>
        AugmentAtFree(mate, v, u);
        MatesAssign(numLeftNodes, numRightNodes, edges, mate, v, u);
        mate := mate[v := Some(u)];
        found := true;
      case Some(y) =>
        if distances[y] == now + 1 {
          ghost var c, m1 := distances, mate;
          found := Dfs(y);
          if found {
            AugmentAlong(m1, mate, v, u, y);
            MatesAssign(numLeftNodes, numRightNodes, edges, mate, v, u);
            mate := mate[v := Some(u)];
          } else {
            DfsInvAfterCall(start, to, m1, d0, c, distances, u, a, y);
          }
        } else {
          DfsInvSkip(start, to, mate, d0, distances, u, a, y);
          found := false;
        }
    }

    /** The user-defined warm start: for each listed edge id in turn, the
        edge's right node is matched to its left node. */
    method ApplyUserMatching(es: seq<BipartiteEdge<()>>, ids: seq<nat>)
      requires Layout() && MatesOn(mate) && es == edges
      requires forall k :: 0 <= k < |ids| ==> ids[k] < |es|
      modifies this`mate
      ensures Mates(numLeftNodes, numRightNodes, edges, mate)
      ensures mate == ApplyEdges(old(mate), es, ids)
    {
      ghost var m0 := mate;
      var m := mate;
      for k := 0 to |ids|
        invariant Mates(numLeftNodes, numRightNodes, es, m) && m == ApplyEdges(m0, es, ids[..k])
      {
        assert ids[..k + 1][..k] == ids[..k];
        var e := es[ids[k]];
        assert Joined(es, e.u, e.v);
        m := m[e.v := Some(e.u)];
      }
      assert ids[..|ids|] == ids;
      mate := m;
    }

    /** One phase of `solve`: a `dfs` from every left node labelled 0 by
        the search just made. When that search met a free right node, the
        phase matches at least one more right node; and it never gives a
        left node a second partner. */
    method Phase(ghost m0: seq<Option<nat>>, ghost d0: seq<nat>)
      requires Layout() && Mates(numLeftNodes, numRightNodes, edges, mate) && mate == m0 && distances == d0
      requires Layered(start, to, m0, d0)
      requires exists x :: 0 <= x < |d0| && d0[x] != Invalid && FreeArc(start, to, m0, x, start[x + 1])
      modifies this`mate, this`distances
      ensures Mates(numLeftNodes, numRightNodes, edges, mate) && |distances| == numLeftNodes
      ensures Matched(mate) > Matched(m0)
      ensures IsMatching(m0) ==> IsMatching(mate)
    {
      LabelsBounded(start, to, m0, d0);
      for u := 0 to numLeftNodes
        invariant Mates(numLeftNodes, numRightNodes, edges, mate) && |distances| == numLeftNodes
        invariant PhaseInv(start, to, m0, d0, mate, distances, u)
      {
        if distances[u] == 0 {
          ghost var m1, d1 := mate, distances;
          var found := Dfs(u);
          PhaseStep(start, to, m0, d0, m1, d1, mate, distances, u, found);
        } else {
          PhaseSkip(start, to, m0, d0, mate, distances, u);
        }
      }
      PhaseEnd(start, to, m0, d0, mate, distances);
    }

    /** The warm start of `solve`, applied to the empty matching of
        `preprocess`: none, the greedy one, or the user's edges. Only the
        user's edges can give a left node two partners. */
    method WarmStartMates(es: seq<BipartiteEdge<()>>, degreeU: seq<nat>, degreeV: seq<nat>)
      requires Valid() && es == edges && |degreeU| == numLeftNodes && |degreeV| == numRightNodes
      requires forall v :: 0 <= v < numRightNodes ==> mate[v].None?
      requires warmStart != KarpSipser
      requires warmStart.UserDefined? ==> forall k :: 0 <= k < |warmStart.matching| ==> warmStart.matching[k] < |edges|
      modifies this`mate
      ensures Valid()
      ensures (!warmStart.UserDefined? || EdgeMatching(edges, warmStart.matching)) ==> IsMatching(mate)
      ensures warmStart.UserDefined? ==> mate == ApplyEdges(old(mate), edges, warmStart.matching)
    {
      ghost var free := mate;
      forall w
        ensures Partners(free, w) == 0
      {
        NoPartners(free, w);
      }
      if warmStart == Greedy {
        InitialSolutionGreedy(degreeU, degreeV);
        assert forall w :: Partners(mate, w) <= Partners(free, w) + 1;
      } else if warmStart.UserDefined? {
        ApplyUserMatching(es, warmStart.matching);
        if EdgeMatching(edges, warmStart.matching) {
          ApplyEdgesMatching(free, edges, warmStart.matching);
        }
      }
    }

    /** The main loop of `solve`: phases until the search meets no free
        right node. Then every labelled left node has no arc to a free
        right node, and no left node gained a second partner. */
    method Augment()
      requires Valid()
      modifies this`mate, this`distances, this`queue
      ensures Mates(numLeftNodes, numRightNodes, edges, mate) && |distances| == numLeftNodes
      ensures IsMatching(old(mate)) ==> IsMatching(mate)
      ensures Matched(mate) >= Matched(old(mate))
      ensures Layered(start, to, mate, distances)
      ensures forall x :: 0 <= x < numLeftNodes && distances[x] != Invalid ==> !FreeArc(start, to, mate, x, start[x + 1])
    {
      while true
        invariant Mates(numLeftNodes, numRightNodes, edges, mate) && |distances| == numLeftNodes
        invariant IsMatching(old(mate)) ==> IsMatching(mate)
        invariant Matched(mate) >= Matched(old(mate))
        decreases numRightNodes - Matched(mate)
      {
        var found := UpdateDistances();
        if !found {
          return;
        }
        Phase(mate, distances);
      }
    }

    /** The extraction loop that ends `solve`, and why its result is a
        maximum matching: once the last search met no free right node, no
        set of edges forming a matching is larger. */
    method Extract(es: seq<BipartiteEdge<()>>) returns (matching: seq<nat>)
      requires es == edges && Layout() && Laid(edges, start, to, eid) && Mates(numLeftNodes, numRightNodes, edges, mate) && |distances| == numLeftNodes
      requires Layered(start, to, mate, distances)
      requires forall x :: 0 <= x < numLeftNodes && distances[x] != Invalid ==> !FreeArc(start, to, mate, x, start[x + 1])
      ensures forall k :: 0 <= k < |matching| ==> matching[k] < |edges|
      ensures forall j, k :: 0 <= j < k < |matching| ==> matching[j] < matching[k]
      ensures forall k :: 0 <= k < |matching| ==> mate[edges[matching[k]].v] == Some(edges[matching[k]].u)
      ensures forall j, k :: 0 <= j < k < |matching| ==>
                edges[matching[j]].u != edges[matching[k]].u && edges[matching[j]].v != edges[matching[k]].v
      ensures IsMatching(mate) ==> forall j :: 0 <= j < |edges| && mate[edges[j].v] == Some(edges[j].u) ==>
                exists k :: 0 <= k < |matching| && edges[matching[k]].v == edges[j].v
      ensures IsMatching(mate) ==> forall other :: EdgeMatching(edges, other) ==> |other| <= |matching|
    {
      matching := SelectMatching(es, mate, numLeftNodes, numRightNodes);
      if IsMatching(mate) {
        MaximumMatchings(edges, start, to, eid, mate, distances, matching);
      }
    }

    /** `solve`: lays out the graph, applies the warm start, runs phases
        until the search meets no free right node, and returns the ids of
        the edges, in increasing order, whose right node is matched to
        their left node, skipping an edge whose left or right node an
        earlier returned edge already has. */
    method Solve(graph: BipartiteGraph<(), ()>) returns (matching: seq<nat>)
      requires graph.Valid() && |graph.leftNodes| < Invalid
      requires warmStart != KarpSipser
      requires warmStart.UserDefined? ==> forall k :: 0 <= k < |warmStart.matching| ==> warmStart.matching[k] < |graph.edges|
      modifies this`numLeftNodes, this`numRightNodes, this`edges, this`start, this`to, this`eid, this`mate, this`distances, this`queue
      ensures numLeftNodes == |graph.leftNodes| && numRightNodes == |graph.rightNodes| && edges == graph.edges
      ensures EndsIn(edges, numLeftNodes, numRightNodes) && |start| == numLeftNodes + 1
      ensures Mates(numLeftNodes, numRightNodes, edges, mate) && |distances| == numLeftNodes
      ensures forall k :: 0 <= k < |matching| ==> matching[k] < |edges|
      ensures forall j, k :: 0 <= j < k < |matching| ==> matching[j] < matching[k]
      ensures forall k :: 0 <= k < |matching| ==> mate[edges[matching[k]].v] == Some(edges[matching[k]].u)
      ensures forall j, k :: 0 <= j < k < |matching| ==>
                edges[matching[j]].u != edges[matching[k]].u && edges[matching[j]].v != edges[matching[k]].v
      ensures (!warmStart.UserDefined? || EdgeMatching(edges, warmStart.matching)) ==> IsMatching(mate)
      ensures IsMatching(mate) ==> forall j :: 0 <= j < |edges| && mate[edges[j].v] == Some(edges[j].u) ==>
                exists k :: 0 <= k < |matching| && edges[matching[k]].v == edges[j].v
      ensures Layered(start, to, mate, distances)
      ensures forall x :: 0 <= x < numLeftNodes && distances[x] != Invalid ==> !FreeArc(start, to, mate, x, start[x + 1])
      ensures IsMatching(mate) ==> forall other :: EdgeMatching(edges, other) ==> |other| <= |matching|
    {
      Prepare(graph);
      Augment();
      matching := Extract(graph.edges);
    }

    /** The first half of `solve`: `preprocess`, then the warm start. */
    method Prepare(graph: BipartiteGraph<(), ()>)
      requires graph.Valid() && |graph.leftNodes| < Invalid
      requires warmStart != KarpSipser
      requires warmStart.UserDefined? ==> forall k :: 0 <= k < |warmStart.matching| ==> warmStart.matching[k] < |graph.edges|
      modifies this`numLeftNodes, this`numRightNodes, this`edges, this`start, this`to, this`eid, this`mate, this`distances, this`queue
      ensures Valid() && Laid(edges, start, to, eid)
      ensures numLeftNodes == |graph.leftNodes| && numRightNodes == |graph.rightNodes| && edges == graph.edges
      ensures (!warmStart.UserDefined? || EdgeMatching(edges, warmStart.matching)) ==> IsMatching(mate)
    {
      Preprocess(graph);
      WarmStartMates(graph.edges, graph.degreeLeft, graph.degreeRight);
    }
  }

  /** The left nodes of one more position of `order`. */
  lemma NodesOfStep(order: seq<(nat, nat)>, k: nat)
    requires k < |order| && forall j :: 0 <= j < k ==> order[j].1 != order[k].1
    ensures order[k].1 !in NodesOf(order[..k]) && NodesOf(order[..k + 1]) == NodesOf(order[..k]) + {order[k].1}
  {
    assert forall j :: 0 <= j < k ==> order[..k + 1][j] == order[..k][j];
    assert order[..k + 1][k] == order[k];
  }

  /** The two loops of `preprocess`. */
  method BuildArcs(nL: nat, nR: nat, edges: seq<BipartiteEdge<()>>, degreeLeft: seq<nat>) returns (start: seq<nat>, to: seq<nat>, ghost eid: seq<nat>)
    requires EndsIn(edges, nL, nR)
    requires |degreeLeft| == nL && forall x :: 0 <= x < nL ==> degreeLeft[x] == LeftCount(edges, x)
    ensures Arcs(nL, nR, edges, start, to, eid) && Laid(edges, start, to, eid)
    ensures start[0] == 0 && forall x :: 0 <= x < nL ==> start[x + 1] == start[x] + degreeLeft[x]
  {
    start := LeftStarts(nL, edges, degreeLeft);
    to, eid := PlaceArcs(nL, nR, edges, start);
    PlacedArcs(nL, nR, edges, start, to, eid);
    StartsAreSums(nL, edges, degreeLeft, start);
  }

  /** The starts are the running sums of the left degrees. */
  lemma StartsAreSums(nL: nat, edges: seq<BipartiteEdge<()>>, degreeLeft: seq<nat>, start: seq<nat>)
    requires |degreeLeft| == nL && forall x :: 0 <= x < nL ==> degreeLeft[x] == LeftCount(edges, x)
    requires |start| == nL + 1 && forall x :: 0 <= x <= nL ==> start[x] == Start(Lefts(edges), x)
    ensures start[0] == 0 && forall x :: 0 <= x < nL ==> start[x + 1] == start[x] + degreeLeft[x]
  {
    forall x | 0 <= x < nL
      ensures start[x + 1] == start[x] + degreeLeft[x]
    {
      LeftCountIsCount(edges, x);
      assert start[x + 1] == Start(Lefts(edges), x + 1);
    }
  }

  /** The number of finite labels in `d`. */
  function FiniteCount(d: seq<nat>): (r: nat)
    ensures r <= |d|
    decreases |d|
  {
    if |d| == 0 then 0 else FiniteCount(d[..|d| - 1]) + (if d[|d| - 1] != Invalid then 1 else 0)
  }

  /** A finite label makes the count positive. */
  lemma {:induction false} FiniteCountPositive(d: seq<nat>, x: nat)
    requires x < |d| && d[x] != Invalid
    ensures FiniteCount(d) > 0
    decreases |d|
  {
    if x < |d| - 1 {
      assert d[..|d| - 1][x] == d[x];
      FiniteCountPositive(d[..|d| - 1], x);
    }
  }

  /** Labelling an unlabelled node adds one to the count. */
  lemma {:induction false} FiniteCountLabel(d: seq<nat>, i: nat, val: nat)
    requires i < |d| && d[i] == Invalid && val != Invalid
    ensures FiniteCount(d[i := val]) == FiniteCount(d) + 1
    decreases |d|
  {
    var k := |d| - 1;
    if i < k {
      assert d[i := val][..k] == d[..k][i := val];
      FiniteCountLabel(d[..k], i, val);
    } else {
      assert d[i := val][..k] == d[..k];
    }
  }

  /** Un-labelling nodes never raises the count, and un-labelling `u`
      lowers it. */
  lemma {:induction false} FiniteCountDrop(d0: seq<nat>, d: seq<nat>, u: nat)
    requires |d| == |d0| && forall x :: 0 <= x < |d| ==> d[x] == d0[x] || d[x] == Invalid
    ensures FiniteCount(d) <= FiniteCount(d0)
    ensures u < |d| && d0[u] != Invalid && d[u] == Invalid ==> FiniteCount(d) < FiniteCount(d0)
    decreases |d|
  {
    if |d| > 0 {
      var k := |d| - 1;
      assert forall x :: 0 <= x < k ==> d[..k][x] == d[x] && d0[..k][x] == d0[x];
      FiniteCountDrop(d0[..k], d[..k], u);
    }
  }

  /** The queue `update_distances` starts from: the left nodes labelled 0,
      in increasing order. */
  method Roots(d: seq<nat>) returns (q: seq<nat>)
    ensures forall i :: 0 <= i < |q| ==> q[i] < |d| && d[q[i]] == 0
    ensures forall x :: 0 <= x < |d| && d[x] == 0 ==> x in q
    ensures forall i, j :: 0 <= i < j < |q| ==> q[i] < q[j]
  {
    q := [];
    for u := 0 to |d|
      invariant forall i :: 0 <= i < |q| ==> q[i] < u && d[q[i]] == 0
      invariant forall x :: 0 <= x < u && d[x] == 0 ==> x in q
      invariant forall i, j :: 0 <= i < j < |q| ==> q[i] < q[j]
    {
      if d[u] == 0 {
        q := q + [u];
      }
    }
  }

  /** Every queued node is labelled. */
  ghost predicate Queued(d: seq<nat>, q: seq<nat>)
  {
    forall i :: 0 <= i < |q| ==> q[i] < |d| && d[q[i]] != Invalid
  }

  /** Every labelled node is scanned or queued. */
  ghost predicate Covered(d: seq<nat>, q: seq<nat>, done: set<nat>)
  {
    forall x :: 0 <= x < |d| && d[x] != Invalid ==> x in done || x in q
  }

  /** Every arc of `x` in the slots below `hi` goes to a right node that
      is free in `m` or whose mate has a finite label in `d`. */
  ghost predicate ClosedUpTo(start: seq<nat>, to: seq<nat>, m: seq<Option<nat>>, d: seq<nat>, x: nat, hi: nat)
    requires x + 1 < |start|
  {
    forall b :: start[x] <= b < hi ==>
      b < |to| && to[b] < |m| && (m[to[b]].Some? ==> m[to[b]].value < |d| && d[m[to[b]].value] != Invalid)
  }

  /** Some arc of `x` in the slots below `hi` goes to a right node free in
      `m`. */
  ghost predicate FreeArc(start: seq<nat>, to: seq<nat>, m: seq<Option<nat>>, x: nat, hi: nat)
    requires x + 1 < |start|
  {
    exists b :: start[x] <= b < hi && b < |to| && to[b] < |m| && m[to[b]].None?
  }

  /** Left node `x` is matched to a right node reached by arc `b` of a
      left node `p` whose label is one less than `x`'s. */
  ghost predicate PredArc(start: seq<nat>, to: seq<nat>, m: seq<Option<nat>>, d: seq<nat>, x: nat, p: nat, b: nat)
    requires x < |d|
  {
    p + 1 < |start| && p < |d| && start[p] <= b < start[p + 1] && b < |to| && to[b] < |m|
    && m[to[b]] == Some(x) && d[p] != Invalid && d[p] + 1 == d[x]
  }

  /** The labels of the breadth-first search over `m`: 0 on exactly the
      free left nodes, every finite label below the number of finite
      labels, and every positive finite label one more than that of a
      predecessor. */
  ghost predicate Labels(start: seq<nat>, to: seq<nat>, m: seq<Option<nat>>, d: seq<nat>)
  {
    && |d| + 1 == |start|
    && (forall x :: 0 <= x < |d| ==> (d[x] == 0 <==> Partners(m, x) == 0))
    && (forall x :: 0 <= x < |d| && d[x] != Invalid ==> d[x] < FiniteCount(d))
    && (forall x {:trigger HasPred(start, to, m, d, x)} :: 0 <= x < |d| && d[x] != Invalid && d[x] > 0 ==> HasPred(start, to, m, d, x))
  }

  /** Left node `x` has a predecessor arc. */
  ghost predicate HasPred(start: seq<nat>, to: seq<nat>, m: seq<Option<nat>>, d: seq<nat>, x: nat)
    requires x < |d|
  {
    exists p: nat, b: nat :: PredArc(start, to, m, d, x, p, b)
  }

  /** The labels a completed search leaves: `Labels`, and the arcs of
      every labelled node go to free right nodes or to labelled mates. */
  ghost predicate Layered(start: seq<nat>, to: seq<nat>, m: seq<Option<nat>>, d: seq<nat>)
  {
    Labels(start, to, m, d) && Closed(start, to, m, d)
  }

  /** Every labelled node is closed: each of its arcs goes to a free right
      node or to one whose mate is labelled. */
  ghost predicate Closed(start: seq<nat>, to: seq<nat>, m: seq<Option<nat>>, d: seq<nat>)
  {
    forall x :: 0 <= x < |d| && d[x] != Invalid ==> x + 1 < |start| && ClosedUpTo(start, to, m, d, x, start[x + 1])
  }

  /** The scanned nodes `done` are labelled and closed. */
  ghost predicate Scanned(start: seq<nat>, to: seq<nat>, m: seq<Option<nat>>, d: seq<nat>, done: set<nat>)
  {
    forall x :: x in done ==> x < |d| && d[x] != Invalid && x + 1 < |start| && ClosedUpTo(start, to, m, d, x, start[x + 1])
  }

  /** Some scanned node has an arc to a free right node. */
  ghost predicate DoneFree(start: seq<nat>, to: seq<nat>, m: seq<Option<nat>>, done: set<nat>)
  {
    exists x :: x in done && x + 1 < |start| && FreeArc(start, to, m, x, start[x + 1])
  }

  /** The state of the search between two pops: every queued node is
      labelled, the scanned nodes are labelled and closed, every labelled
      node is scanned or queued, and `found` says whether a scanned node
      has an arc to a free right node. */
  ghost predicate Frontier(start: seq<nat>, to: seq<nat>, m: seq<Option<nat>>, d: seq<nat>, q: seq<nat>, done: set<nat>, found: bool)
  {
    Labels(start, to, m, d) && Queued(d, q) && Scanned(start, to, m, d, done) && Covered(d, q, done) && (found <==> DoneFree(start, to, m, done))
  }

  /** The state of the search while the arcs of the popped node `u` are
      scanned up to slot `hi`. */
  ghost predicate Scan(start: seq<nat>, to: seq<nat>, m: seq<Option<nat>>, d: seq<nat>, q: seq<nat>, done: set<nat>, found: bool, u: nat, hi: nat)
  {
    && Labels(start, to, m, d) && Queued(d, q) && Scanned(start, to, m, d, done) && Covered(d, q, done + {u})
    && u < |d| && d[u] != Invalid && u + 1 < |start| && start[u] <= hi <= start[u + 1]
    && ClosedUpTo(start, to, m, d, u, hi)
    && (found <==> DoneFree(start, to, m, done) || FreeArc(start, to, m, u, hi))
  }

  /** Popping the front of the queue starts the scan of its arcs. */
  lemma Pop(start: seq<nat>, to: seq<nat>, m: seq<Option<nat>>, d: seq<nat>, q: seq<nat>, done: set<nat>, found: bool)
    requires |q| > 0 && Frontier(start, to, m, d, q, done, found)
    requires forall x, y :: 0 <= x <= y < |start| ==> start[x] <= start[y]
    ensures q[0] + 1 < |start| && Scan(start, to, m, d, q[1..], done, found, q[0], start[q[0]])
  {
    forall x | 0 <= x < |d| && d[x] != Invalid
      ensures x in done + {q[0]} || x in q[1..]
    {
      if x !in done && x != q[0] {
        var i :| 0 <= i < |q| && q[i] == x;
        assert q[1..][i - 1] == x;
      }
    }
  }

  /** With the queue empty, the search has scanned every labelled node. */
  lemma Drained(start: seq<nat>, to: seq<nat>, m: seq<Option<nat>>, d: seq<nat>, done: set<nat>, found: bool)
    requires Frontier(start, to, m, d, [], done, found)
    ensures Layered(start, to, m, d)
    ensures found <==> exists x :: 0 <= x < |d| && d[x] != Invalid && FreeArc(start, to, m, x, start[x + 1])
  {
  }

  /** Labels grow by one over arc `a` of the labelled `u` to the
      unlabelled mate `u2`. */
  lemma LabelsExtend(start: seq<nat>, to: seq<nat>, m: seq<Option<nat>>, d: seq<nat>, u: nat, a: nat, u2: nat)
    requires Labels(start, to, m, d) && |d| < Invalid && u < |d| && d[u] != Invalid
    requires start[u] <= a < start[u + 1] && a < |to| && to[a] < |m| && m[to[a]] == Some(u2) && u2 < |d| && d[u2] == Invalid
    ensures d[u] + 1 != Invalid
    ensures Labels(start, to, m, d[u2 := d[u] + 1])
    ensures FiniteCount(d[u2 := d[u] + 1]) == FiniteCount(d) + 1
  {
    var d' := d[u2 := d[u] + 1];
    var n := FiniteCount(d);
    assert d[u] < n <= |d|;
    assert FiniteCount(d') == n + 1 by {
      FiniteCountLabel(d, u2, d[u] + 1);
    }
    assert Partners(m, u2) > 0 by {
      PartnersPositive(m, u2);
    }
    assert forall x :: 0 <= x < |d'| ==> (d'[x] == 0 <==> Partners(m, x) == 0);
    assert forall x :: 0 <= x < |d'| && d'[x] != Invalid ==> d'[x] < n + 1;
    PredsExtend(start, to, m, d, u, a, u2, d');
  }

  /** Over that arc, every positive finite label keeps a predecessor. */
  lemma PredsExtend(start: seq<nat>, to: seq<nat>, m: seq<Option<nat>>, d: seq<nat>, u: nat, a: nat, u2: nat, d': seq<nat>)
    requires Labels(start, to, m, d) && u < |d| && d[u] != Invalid && d[u] + 1 != Invalid
    requires start[u] <= a < start[u + 1] && a < |to| && to[a] < |m| && m[to[a]] == Some(u2) && u2 < |d| && d[u2] == Invalid
    requires d' == d[u2 := d[u] + 1]
    ensures forall x :: 0 <= x < |d'| && d'[x] != Invalid && d'[x] > 0 ==> HasPred(start, to, m, d', x)
  {
    forall x | 0 <= x < |d'| && d'[x] != Invalid && d'[x] > 0
      ensures HasPred(start, to, m, d', x)
    {
      if x == u2 {
        assert PredArc(start, to, m, d', u2, u, a);
      } else {
        assert HasPred(start, to, m, d, x);
        var p: nat, b: nat :| PredArc(start, to, m, d, x, p, b);
        PredArcKeep(start, to, m, d, d', x, p, b);
      }
    }
  }

  /** A predecessor arc survives a change of other labels. */
  lemma PredArcKeep(start: seq<nat>, to: seq<nat>, m: seq<Option<nat>>, d: seq<nat>, d': seq<nat>, x: nat, p: nat, b: nat)
    requires x < |d| && PredArc(start, to, m, d, x, p, b)
    requires |d'| == |d| && d'[x] == d[x] && d'[p] == d[p]
    ensures PredArc(start, to, m, d', x, p, b)
  {
  }

  /** Labelling more nodes keeps arcs closed. */
  lemma ClosedMore(start: seq<nat>, to: seq<nat>, m: seq<Option<nat>>, d: seq<nat>, d': seq<nat>, x: nat, hi: nat)
    requires x + 1 < |start| && ClosedUpTo(start, to, m, d, x, hi)
    requires |d'| == |d| && forall y :: 0 <= y < |d| && d[y] != Invalid ==> d'[y] != Invalid
    ensures ClosedUpTo(start, to, m, d', x, hi)
  {
  }

  /** Labelling more nodes keeps the scanned nodes scanned. */
  lemma ScannedMore(start: seq<nat>, to: seq<nat>, m: seq<Option<nat>>, d: seq<nat>, d': seq<nat>, done: set<nat>)
    requires Scanned(start, to, m, d, done)
    requires |d'| == |d| && forall y :: 0 <= y < |d| && d[y] != Invalid ==> d'[y] != Invalid
    ensures Scanned(start, to, m, d', done)
  {
    forall x | x in done
      ensures x < |d'| && d'[x] != Invalid && x + 1 < |start| && ClosedUpTo(start, to, m, d', x, start[x + 1])
    {
      ClosedMore(start, to, m, d, d', x, start[x + 1]);
    }
  }

  /** Labelling and queueing the unlabelled mate `u2` over arc `a` of
      `u`. */
  lemma LabelStep(start: seq<nat>, to: seq<nat>, m: seq<Option<nat>>, d: seq<nat>, q: seq<nat>, done: set<nat>, found: bool, u: nat, a: nat, u2: nat)
    requires Scan(start, to, m, d, q, done, found, u, a) && a < start[u + 1] && a < |to| && to[a] < |m|
    requires m[to[a]] == Some(u2) && u2 < |d| && d[u2] == Invalid && |d| < Invalid
    ensures d[u] + 1 != Invalid
    ensures Scan(start, to, m, d[u2 := d[u] + 1], q + [u2], done, found, u, a + 1)
    ensures FiniteCount(d[u2 := d[u] + 1]) == FiniteCount(d) + 1
  {
    var d' := d[u2 := d[u] + 1];
    LabelsExtend(start, to, m, d, u, a, u2);
    assert forall y :: 0 <= y < |d| && d[y] != Invalid ==> d'[y] != Invalid;
    ScannedMore(start, to, m, d, d', done);
    ClosedMore(start, to, m, d, d', u, a);
    assert Queued(d', q + [u2]);
    assert Covered(d', q + [u2], done + {u});
    assert ClosedUpTo(start, to, m, d', u, a + 1);
    FreeNext(start, to, m, u, a);
  }

  /** The free arcs of `u` below `a + 1` are those below `a`, and `a`
      when its right node is free. */
  lemma FreeNext(start: seq<nat>, to: seq<nat>, m: seq<Option<nat>>, u: nat, a: nat)
    requires u + 1 < |start| && start[u] <= a && a < |to| && to[a] < |m|
    ensures FreeArc(start, to, m, u, a + 1) <==> FreeArc(start, to, m, u, a) || m[to[a]].None?
  {
    if FreeArc(start, to, m, u, a + 1) && m[to[a]].Some? {
      var b :| start[u] <= b < a + 1 && b < |to| && to[b] < |m| && m[to[b]].None?;
      assert b < a;
    }
    if m[to[a]].None? {
      assert start[u] <= a < a + 1 && a < |to| && to[a] < |m| && m[to[a]].None?;
    }
  }

  /** Passing over arc `a` of `u` whose right node's mate is labelled. */
  lemma KnownStep(start: seq<nat>, to: seq<nat>, m: seq<Option<nat>>, d: seq<nat>, q: seq<nat>, done: set<nat>, found: bool, u: nat, a: nat)
    requires Scan(start, to, m, d, q, done, found, u, a) && a < start[u + 1] && a < |to| && to[a] < |m|
    requires m[to[a]].Some? && m[to[a]].value < |d| && d[m[to[a]].value] != Invalid
    ensures Scan(start, to, m, d, q, done, found, u, a + 1)
  {
    FreeNext(start, to, m, u, a);
  }

  /** Noting the free right node at arc `a` of `u`. */
  lemma FreeStep(start: seq<nat>, to: seq<nat>, m: seq<Option<nat>>, d: seq<nat>, q: seq<nat>, done: set<nat>, found: bool, u: nat, a: nat)
    requires Scan(start, to, m, d, q, done, found, u, a) && a < start[u + 1] && a < |to| && to[a] < |m|
    requires m[to[a]].None?
    ensures Scan(start, to, m, d, q, done, true, u, a + 1)
  {
    FreeNext(start, to, m, u, a);
  }

  /** The end of the scan of `u`: `u` joins the scanned nodes. */
  lemma ScanDone(start: seq<nat>, to: seq<nat>, m: seq<Option<nat>>, d: seq<nat>, q: seq<nat>, done: set<nat>, found: bool, u: nat)
    requires u + 1 < |start| && Scan(start, to, m, d, q, done, found, u, start[u + 1])
    ensures Frontier(start, to, m, d, q, done + {u}, found)
  {
    ScannedAdd(start, to, m, d, done, u);
    DoneFreeAdd(start, to, m, done, u);
  }

  /** A closed node joins the scanned ones. */
  lemma ScannedAdd(start: seq<nat>, to: seq<nat>, m: seq<Option<nat>>, d: seq<nat>, done: set<nat>, u: nat)
    requires Scanned(start, to, m, d, done) && u < |d| && d[u] != Invalid && u + 1 < |start|
    requires ClosedUpTo(start, to, m, d, u, start[u + 1])
    ensures Scanned(start, to, m, d, done + {u})
  {
  }

  /** The free arcs of the scanned nodes after `u` joins them. */
  lemma DoneFreeAdd(start: seq<nat>, to: seq<nat>, m: seq<Option<nat>>, done: set<nat>, u: nat)
    requires u + 1 < |start|
    ensures DoneFree(start, to, m, done + {u}) <==> DoneFree(start, to, m, done) || FreeArc(start, to, m, u, start[u + 1])
  {
    if DoneFree(start, to, m, done + {u}) {
      var x :| x in done + {u} && x + 1 < |start| && FreeArc(start, to, m, x, start[x + 1]);
    }
  }

  /** Every finite label is below the number of left nodes. */
  ghost predicate Bounded(d: seq<nat>)
  {
    forall x :: 0 <= x < |d| && d[x] != Invalid ==> d[x] < |d|
  }

  /** `d` is `d0` with some labels turned to `Invalid`. */
  ghost predicate Shrunk(d0: seq<nat>, d: seq<nat>)
  {
    |d| == |d0| && forall x :: 0 <= x < |d| ==> d[x] == d0[x] || d[x] == Invalid
  }

  /** Left node `x` was labelled in `d0` and is used up in `d`. */
  ghost predicate Killed(d0: seq<nat>, d: seq<nat>, x: nat)
  {
    x < |d0| && x < |d| && d0[x] != Invalid && d[x] == Invalid
  }

  /** Arc `b` of `x` leads nowhere from the labels `d0` on: its right node
      is matched in `m`, and its mate, when labelled one more than `x` in
      `d0`, is used up in `d`. */
  ghost predicate Blocked(start: seq<nat>, to: seq<nat>, m: seq<Option<nat>>, d0: seq<nat>, d: seq<nat>, x: nat, b: nat)
  {
    && b < |to| && to[b] < |m| && m[to[b]].Some? && m[to[b]].value < |d0| && m[to[b]].value < |d| && x < |d0|
    && (d0[m[to[b]].value] == d0[x] + 1 ==> d[m[to[b]].value] == Invalid)
  }

  /** Every arc of `x` is blocked. */
  ghost predicate DeadEnd(start: seq<nat>, to: seq<nat>, m: seq<Option<nat>>, d0: seq<nat>, d: seq<nat>, x: nat)
  {
    x + 1 < |start| && forall b :: start[x] <= b < start[x + 1] ==> Blocked(start, to, m, d0, d, x, b)
  }

  /** Every node used up between `d0` and `d` is a dead end. */
  ghost predicate DeadEnds(start: seq<nat>, to: seq<nat>, m: seq<Option<nat>>, d0: seq<nat>, d: seq<nat>)
  {
    forall x :: Killed(d0, d, x) ==> DeadEnd(start, to, m, d0, d, x)
  }

  /** Inside the `dfs` from `u`, before arc `a`: the other used up nodes are
      dead ends and the arcs of `u` before `a` are blocked. */
  ghost predicate DfsInv(start: seq<nat>, to: seq<nat>, m: seq<Option<nat>>, d0: seq<nat>, d: seq<nat>, u: nat, a: nat)
  {
    && (forall x :: Killed(d0, d, x) && x != u ==> DeadEnd(start, to, m, d0, d, x))
    && u + 1 < |start| && (forall b :: start[u] <= b < a ==> Blocked(start, to, m, d0, d, u, b))
  }

  /** The right nodes matched in `m0` to `u` or to a left node unlabelled in
      `d0` keep their mates in `m`. */
  ghost predicate Kept(m0: seq<Option<nat>>, m: seq<Option<nat>>, d0: seq<nat>, u: nat)
  {
    |m| == |m0| && forall v :: 0 <= v < |m0| && m0[v].Some? && (m0[v].value == u || (m0[v].value < |d0| && d0[m0[v].value] == Invalid)) ==> m[v] == m0[v]
  }

  /** `m` matches one more right node than `m0`, and the new partner is
      `u`'s: every other left node keeps its count. */
  ghost predicate GainedOne(m0: seq<Option<nat>>, m: seq<Option<nat>>, u: nat)
  {
    Matched(m) == Matched(m0) + 1 && forall w :: Partners(m, w) == Partners(m0, w) + (if w == u then 1 else 0)
  }

  /** Matching the free right node `v` to `u` gives `u` one more partner. */
  lemma AugmentAtFree(m: seq<Option<nat>>, v: nat, u: nat)
    requires v < |m| && m[v].None?
    ensures GainedOne(m, m[v := Some(u)], u)
  {
    MatchedUpdate(m, v, Some(u));
    forall w
      ensures Partners(m[v := Some(u)], w) == Partners(m, w) + (if w == u then 1 else 0)
    {
      PartnersUpdate(m, v, Some(u), w);
    }
  }

  /** After an augmenting path from `y` succeeded, re-matching `v` from `y`
      to `u` moves the partner `y` gained over to `u`. */
  lemma AugmentAlong(m0: seq<Option<nat>>, m1: seq<Option<nat>>, v: nat, u: nat, y: nat)
    requires v < |m1| && m1[v] == Some(y)
    requires GainedOne(m0, m1, y)
    ensures GainedOne(m0, m1[v := Some(u)], u)
  {
    MatchedUpdate(m1, v, Some(u));
    forall w
      ensures Partners(m1[v := Some(u)], w) == Partners(m0, w) + (if w == u then 1 else 0)
    {
      PartnersUpdate(m1, v, Some(u), w);
    }
  }

  /** Using up more nodes keeps a blocked arc blocked. */
  lemma BlockedMore(start: seq<nat>, to: seq<nat>, m: seq<Option<nat>>, d0: seq<nat>, d: seq<nat>, d': seq<nat>, x: nat, b: nat)
    requires Blocked(start, to, m, d0, d, x, b) && Shrunk(d, d')
    ensures Blocked(start, to, m, d0, d', x, b)
  {
  }

  /** Using up more nodes keeps a dead end dead. */
  lemma DeadEndMore(start: seq<nat>, to: seq<nat>, m: seq<Option<nat>>, d0: seq<nat>, d: seq<nat>, d': seq<nat>, x: nat)
    requires DeadEnd(start, to, m, d0, d, x) && Shrunk(d, d')
    ensures DeadEnd(start, to, m, d0, d', x)
  {
    forall b | start[x] <= b < start[x + 1]
      ensures Blocked(start, to, m, d0, d', x, b)
    {
      BlockedMore(start, to, m, d0, d, d', x, b);
    }
  }

  /** An arc blocked from the labels `c` on, where `c` only used up nodes
      of `d0` and `x` is still labelled, is blocked from `d0` on. */
  lemma BlockedRebase(start: seq<nat>, to: seq<nat>, m: seq<Option<nat>>, d0: seq<nat>, c: seq<nat>, d: seq<nat>, x: nat, b: nat)
    requires Shrunk(d0, c) && Shrunk(c, d) && x < |c| && c[x] != Invalid
    requires Blocked(start, to, m, c, d, x, b)
    ensures Blocked(start, to, m, d0, d, x, b)
  {
  }

  /** A dead end from `c` on is one from `d0` on. */
  lemma DeadEndRebase(start: seq<nat>, to: seq<nat>, m: seq<Option<nat>>, d0: seq<nat>, c: seq<nat>, d: seq<nat>, x: nat)
    requires Shrunk(d0, c) && Shrunk(c, d) && x < |c| && c[x] != Invalid
    requires DeadEnd(start, to, m, c, d, x)
    ensures DeadEnd(start, to, m, d0, d, x)
  {
    forall b | start[x] <= b < start[x + 1]
      ensures Blocked(start, to, m, d0, d, x, b)
    {
      BlockedRebase(start, to, m, d0, c, d, x, b);
    }
  }

  /** After a failed `dfs` from the mate `y` of arc `a`'s right node, arc
      `a` is blocked and the nodes that call used up are dead ends. */
  lemma DfsInvAfterCall(start: seq<nat>, to: seq<nat>, m: seq<Option<nat>>, d0: seq<nat>, c: seq<nat>, d: seq<nat>, u: nat, a: nat, y: nat)
    requires DfsInv(start, to, m, d0, c, u, a) && Shrunk(d0, c) && Shrunk(c, d) && DeadEnds(start, to, m, c, d)
    requires start[u] <= a && a < |to| && to[a] < |m| && m[to[a]] == Some(y) && y < |d| && d[y] == Invalid
    requires u < |c| && c[u] == Invalid
    ensures DfsInv(start, to, m, d0, d, u, a + 1)
  {
    forall x | Killed(d0, d, x) && x != u
      ensures DeadEnd(start, to, m, d0, d, x)
    {
      if Killed(d0, c, x) {
        DeadEndMore(start, to, m, d0, c, d, x);
      } else {
        assert Killed(c, d, x);
        DeadEndRebase(start, to, m, d0, c, d, x);
      }
    }
    forall b | start[u] <= b < a + 1
      ensures Blocked(start, to, m, d0, d, u, b)
    {
      if b < a {
        BlockedMore(start, to, m, d0, c, d, u, b);
      }
    }
  }

  /** Passing an arc whose right node's mate is not labelled one more than
      `u` keeps the `dfs` invariant. */
  lemma DfsInvSkip(start: seq<nat>, to: seq<nat>, m: seq<Option<nat>>, d0: seq<nat>, d: seq<nat>, u: nat, a: nat, y: nat)
    requires DfsInv(start, to, m, d0, d, u, a) && Shrunk(d0, d) && u < |d0| && d0[u] != Invalid
    requires start[u] <= a && a < |to| && to[a] < |m| && m[to[a]] == Some(y) && y < |d| && d[y] != d0[u] + 1
    ensures DfsInv(start, to, m, d0, d, u, a + 1)
  {
    assert Blocked(start, to, m, d0, d, u, a);
  }

  /** With every arc of `u` blocked, all the nodes used up are dead ends. */
  lemma DfsInvDone(start: seq<nat>, to: seq<nat>, m: seq<Option<nat>>, d0: seq<nat>, d: seq<nat>, u: nat)
    requires u + 1 < |start| && DfsInv(start, to, m, d0, d, u, start[u + 1])
    ensures DeadEnds(start, to, m, d0, d)
  {
  }

  /** Some edge joins left node `w` and right node `v`. */
  ghost predicate Joined(edges: seq<BipartiteEdge<()>>, w: nat, v: nat)
  {
    exists i :: 0 <= i < |edges| && edges[i].u == w && edges[i].v == v
  }

  /** `m` matches right nodes to left nodes along edges. */
  ghost predicate Mates(nL: nat, nR: nat, edges: seq<BipartiteEdge<()>>, m: seq<Option<nat>>)
  {
    |m| == nR && forall v :: 0 <= v < |m| && m[v].Some? ==> m[v].value < nL && Joined(edges, m[v].value, v)
  }

  /** Matching right node `v` to a neighbour `u` keeps `m` along edges. */
  lemma MatesAssign(nL: nat, nR: nat, edges: seq<BipartiteEdge<()>>, m: seq<Option<nat>>, v: nat, u: nat)
    requires Mates(nL, nR, edges, m) && v < |m| && u < nL && Joined(edges, u, v)
    ensures Mates(nL, nR, edges, m[v := Some(u)])
  {
  }

  /** The mates after the user's edges `ids` are applied in order to `m`. */
  function ApplyEdges(m: seq<Option<nat>>, es: seq<BipartiteEdge<()>>, ids: seq<nat>): (r: seq<Option<nat>>)
    requires forall k :: 0 <= k < |ids| ==> ids[k] < |es| && es[ids[k]].v < |m|
    ensures |r| == |m|
  {
    if |ids| == 0 then m
    else ApplyEdges(m, es, ids[..|ids| - 1])[es[ids[|ids| - 1]].v := Some(es[ids[|ids| - 1]].u)]
  }

  /** Applying the user's edges leaves a right node that no listed edge
      ends at as it was. */
  lemma {:induction false} ApplyEdgesUntouched(m: seq<Option<nat>>, es: seq<BipartiteEdge<()>>, ids: seq<nat>, v: nat)
    requires forall k :: 0 <= k < |ids| ==> ids[k] < |es| && es[ids[k]].v < |m|
    requires v < |m| && forall k :: 0 <= k < |ids| ==> es[ids[k]].v != v
    ensures ApplyEdges(m, es, ids)[v] == m[v]
    decreases |ids|
  {
    if |ids| > 0 {
      var n := |ids| - 1;
      var pre := ids[..n];
      assert forall k :: 0 <= k < n ==> pre[k] == ids[k];
      ApplyEdgesUntouched(m, es, pre, v);
    }
  }

  /** Applying the user's edges matches a right node to the left end of the
      last listed edge ending at it. */
  lemma {:induction false} ApplyEdgesLast(m: seq<Option<nat>>, es: seq<BipartiteEdge<()>>, ids: seq<nat>, v: nat, k: nat)
    requires forall k :: 0 <= k < |ids| ==> ids[k] < |es| && es[ids[k]].v < |m|
    requires k < |ids| && es[ids[k]].v == v && forall j :: k < j < |ids| ==> es[ids[j]].v != v
    ensures ApplyEdges(m, es, ids)[v] == Some(es[ids[k]].u)
    decreases |ids|
  {
    var n := |ids| - 1;
    if k < n {
      var pre := ids[..n];
      assert forall j :: 0 <= j < n ==> pre[j] == ids[j];
      ApplyEdgesLast(m, es, pre, v, k);
    }
  }

  /** A right node that was free and is matched after the user's edges are
      applied got its mate from one of those edges. */
  lemma {:induction false} ApplyEdgesFrom(m: seq<Option<nat>>, es: seq<BipartiteEdge<()>>, ids: seq<nat>, v: nat)
    requires forall k :: 0 <= k < |ids| ==> ids[k] < |es| && es[ids[k]].v < |m|
    requires v < |m| && m[v].None? && ApplyEdges(m, es, ids)[v].Some?
    ensures exists k :: 0 <= k < |ids| && es[ids[k]].u == ApplyEdges(m, es, ids)[v].value
    decreases |ids|
  {
    var n := |ids| - 1;
    var pre := ids[..n];
    assert forall j :: 0 <= j < n ==> pre[j] == ids[j];
    if es[ids[n]].v != v {
      ApplyEdgesFrom(m, es, pre, v);
      var k :| 0 <= k < n && es[pre[k]].u == ApplyEdges(m, es, pre)[v].value;
      assert es[ids[k]].u == ApplyEdges(m, es, ids)[v].value;
    }
  }

  /** The user's edges, when they form a matching, give a matching from the
      all-free start of `solve`: each left node is named by at most one of
      them. */
  lemma {:induction false} ApplyEdgesMatching(m: seq<Option<nat>>, es: seq<BipartiteEdge<()>>, ids: seq<nat>)
    requires forall k :: 0 <= k < |ids| ==> ids[k] < |es| && es[ids[k]].v < |m|
    requires forall v :: 0 <= v < |m| ==> m[v].None?
    requires EdgeMatching(es, ids)
    ensures IsMatching(ApplyEdges(m, es, ids))
    decreases |ids|
  {
    if |ids| == 0 {
      forall w
        ensures Partners(m, w) <= 1
      {
        PartnersPositive(m, w);
      }
    } else {
      var n := |ids| - 1;
      var pre := ids[..n];
      assert forall j :: 0 <= j < n ==> pre[j] == ids[j];
      var r := ApplyEdges(m, es, pre);
      var u, v := es[ids[n]].u, es[ids[n]].v;
      ApplyEdgesMatching(m, es, pre);
      ApplyEdgesUntouched(m, es, pre, v);
      forall w
        ensures Partners(ApplyEdges(m, es, ids), w) <= 1
      {
        PartnersUpdate(r, v, Some(u), w);
        if w == u && Partners(r, u) > 0 {
          PartnersPositive(r, u);
          var x :| 0 <= x < |r| && r[x] == Some(u);
          ApplyEdgesFrom(m, es, pre, x);
          assert false;
        }
      }
    }
  }

  /** The state of a phase after the `dfs` calls from the left nodes below
      `u`: labels only turned `Invalid`, the nodes still labelled kept their
      partners, no left node got a second partner; and while no right node
      got matched, the matching is the one the phase began with, every node
      used up is a dead end and every root below `u` is used up. */
  ghost predicate PhaseInv(start: seq<nat>, to: seq<nat>, m0: seq<Option<nat>>, d0: seq<nat>, m: seq<Option<nat>>, d: seq<nat>, u: nat)
  {
    && Bounded(d) && Shrunk(d0, d) && |m| == |m0|
    && Matched(m) >= Matched(m0)
    && (forall x :: 0 <= x < |d| && d[x] != Invalid ==> Partners(m, x) == Partners(m0, x))
    && (IsMatching(m0) ==> IsMatching(m))
    && (Matched(m) == Matched(m0) ==>
          m == m0 && DeadEnds(start, to, m0, d0, d) && forall x :: 0 <= x < u && x < |d| && d0[x] == 0 ==> d[x] == Invalid)
  }

  /** The labels of a search are below the number of left nodes. */
  lemma LabelsBounded(start: seq<nat>, to: seq<nat>, m: seq<Option<nat>>, d: seq<nat>)
    requires Labels(start, to, m, d)
    ensures Bounded(d)
  {
  }

  /** A `dfs` from the root `u` keeps the phase invariant. */
  lemma PhaseStep(start: seq<nat>, to: seq<nat>, m0: seq<Option<nat>>, d0: seq<nat>, m1: seq<Option<nat>>, d1: seq<nat>,
                  m: seq<Option<nat>>, d: seq<nat>, u: nat, found: bool)
    requires Labels(start, to, m0, d0) && PhaseInv(start, to, m0, d0, m1, d1, u)
    requires u < |d1| && d1[u] == 0 && |m| == |m1|
    requires Shrunk(d1, d) && Bounded(d) && d[u] == Invalid
    requires !found ==> m == m1 && DeadEnds(start, to, m1, d1, d)
    requires found ==> GainedOne(m1, m, u)
    ensures PhaseInv(start, to, m0, d0, m, d, u + 1)
  {
    assert d0[u] == 0 && Partners(m0, u) == 0;
    if found {
      assert forall w :: Partners(m, w) <= Partners(m1, w) + (if w == u then 1 else 0);
      assert Partners(m1, u) == 0;
    } else if Matched(m) == Matched(m0) {
      forall x | Killed(d0, d, x)
        ensures DeadEnd(start, to, m0, d0, d, x)
      {
        if Killed(d0, d1, x) {
          DeadEndMore(start, to, m0, d0, d1, d, x);
        } else {
          assert Killed(d1, d, x);
          DeadEndRebase(start, to, m0, d0, d1, d, x);
        }
      }
    }
  }

  /** Skipping a node not labelled 0 keeps the phase invariant. */
  lemma PhaseSkip(start: seq<nat>, to: seq<nat>, m0: seq<Option<nat>>, d0: seq<nat>, m: seq<Option<nat>>, d: seq<nat>, u: nat)
    requires PhaseInv(start, to, m0, d0, m, d, u) && u < |d| && d[u] != 0
    ensures PhaseInv(start, to, m0, d0, m, d, u + 1)
  {
  }

  /** When every root is used up and every used up node is a dead end,
      every node of level `k` is used up. */
  lemma {:induction false} LevelUsedUp(start: seq<nat>, to: seq<nat>, m0: seq<Option<nat>>, d0: seq<nat>, d: seq<nat>, k: nat, x: nat)
    requires Labels(start, to, m0, d0) && Shrunk(d0, d) && DeadEnds(start, to, m0, d0, d)
    requires forall y :: 0 <= y < |d| && d0[y] == 0 ==> d[y] == Invalid
    requires x < |d0| && d0[x] == k && k != Invalid
    ensures d[x] == Invalid
    decreases k
  {
    if k > 0 {
      assert HasPred(start, to, m0, d0, x);
      var p: nat, b: nat :| PredArc(start, to, m0, d0, x, p, b);
      LevelUsedUp(start, to, m0, d0, d, k - 1, p);
      assert Killed(d0, d, p);
      assert Blocked(start, to, m0, d0, d, p, b);
    }
  }

  /** A phase after a search that met a free right node matches one more
      right node: otherwise every labelled node would be used up and a dead
      end, the labelled node with an arc to a free right node included. */
  lemma PhaseEnd(start: seq<nat>, to: seq<nat>, m0: seq<Option<nat>>, d0: seq<nat>, m: seq<Option<nat>>, d: seq<nat>)
    requires Labels(start, to, m0, d0) && PhaseInv(start, to, m0, d0, m, d, |d0|)
    requires exists x :: 0 <= x < |d0| && d0[x] != Invalid && FreeArc(start, to, m0, x, start[x + 1])
    ensures Matched(m) > Matched(m0)
  {
    if Matched(m) == Matched(m0) {
      var x :| 0 <= x < |d0| && d0[x] != Invalid && FreeArc(start, to, m0, x, start[x + 1]);
      LevelUsedUp(start, to, m0, d0, d, d0[x], x);
      assert Killed(d0, d, x);
      FreeArcLive(start, to, m0, d0, d, x);
      assert false;
    }
  }

  /** A node with an arc to a free right node is no dead end. */
  lemma FreeArcLive(start: seq<nat>, to: seq<nat>, m: seq<Option<nat>>, d0: seq<nat>, d: seq<nat>, x: nat)
    requires x + 1 < |start| && FreeArc(start, to, m, x, start[x + 1])
    ensures !DeadEnd(start, to, m, d0, d, x)
  {
    var b :| start[x] <= b < start[x + 1] && b < |to| && to[b] < |m| && m[to[b]].None?;
    assert !Blocked(start, to, m, d0, d, x, b);
  }

  /** Two right nodes matched to `w` give it two partners. */
  lemma {:induction false} TwoPartners(m: seq<Option<nat>>, v1: nat, v2: nat, w: nat)
    requires v1 < v2 < |m| && m[v1] == Some(w) && m[v2] == Some(w)
    ensures Partners(m, w) >= 2
    decreases |m|
  {
    var k := |m| - 1;
    assert forall v :: 0 <= v < k ==> m[..k][v] == m[v];
    if v2 < k {
      TwoPartners(m[..k], v1, v2, w);
    } else {
      PartnersPositive(m[..k], w);
    }
  }

  /** The invariant of the extraction loop of `solve` after `i` edges. */
  ghost predicate Selected(es: seq<BipartiteEdge<()>>, mate: seq<Option<nat>>, usedU: seq<bool>, usedV: seq<bool>, matching: seq<nat>, i: nat)
  {
    Chosen(es, mate, |usedU|, |usedV|, matching, i) && Marks(es, usedU, usedV, matching) && Covers(es, mate, matching, i)
  }

  /** The edges chosen among the first `i`: in increasing order, each with
      its right node matched to its left node, no two sharing a node. */
  ghost predicate Chosen(es: seq<BipartiteEdge<()>>, mate: seq<Option<nat>>, nL: nat, nR: nat, matching: seq<nat>, i: nat)
  {
    && (forall k :: 0 <= k < |matching| ==>
          matching[k] < i && matching[k] < |es| && es[matching[k]].u < nL && es[matching[k]].v < nR && es[matching[k]].v < |mate|)
    && (forall j, k :: 0 <= j < k < |matching| ==> matching[j] < matching[k])
    && (forall k :: 0 <= k < |matching| ==> mate[es[matching[k]].v] == Some(es[matching[k]].u))
    && (forall j, k :: 0 <= j < k < |matching| ==> es[matching[j]].u != es[matching[k]].u && es[matching[j]].v != es[matching[k]].v)
  }

  /** `usedU` and `usedV` mark exactly the nodes of the chosen edges. */
  ghost predicate Marks(es: seq<BipartiteEdge<()>>, usedU: seq<bool>, usedV: seq<bool>, matching: seq<nat>)
    requires forall k :: 0 <= k < |matching| ==> matching[k] < |es|
  {
    && (forall x :: 0 <= x < |usedU| ==> (usedU[x] <==> exists k :: 0 <= k < |matching| && es[matching[k]].u == x))
    && (forall y :: 0 <= y < |usedV| ==> (usedV[y] <==> exists k :: 0 <= k < |matching| && es[matching[k]].v == y))
  }

  /** When no left node has two partners, every edge among the first `i`
      whose right node is matched to its left node has its right node
      covered by a chosen edge. */
  ghost predicate Covers(es: seq<BipartiteEdge<()>>, mate: seq<Option<nat>>, matching: seq<nat>, i: nat)
    requires forall k :: 0 <= k < |matching| ==> matching[k] < |es|
  {
    IsMatching(mate) ==> forall j :: 0 <= j < i && j < |es| && es[j].v < |mate| && mate[es[j].v] == Some(es[j].u) ==>
      exists k :: 0 <= k < |matching| && es[matching[k]].v == es[j].v
  }

  /** The extraction loop of `solve`: the ids of the edges, in order, whose
      right node is matched to their left node, except those whose left or
      right node an earlier chosen edge already has. No two chosen edges
      share a node, and when no left node has two partners every matched
      edge's right node is covered. */
  method SelectMatching(es: seq<BipartiteEdge<()>>, mate: seq<Option<nat>>, nL: nat, nR: nat) returns (matching: seq<nat>)
    requires EndsIn(es, nL, nR) && |mate| == nR
    ensures forall k :: 0 <= k < |matching| ==> matching[k] < |es|
    ensures forall j, k :: 0 <= j < k < |matching| ==> matching[j] < matching[k]
    ensures forall k :: 0 <= k < |matching| ==> mate[es[matching[k]].v] == Some(es[matching[k]].u)
    ensures forall j, k :: 0 <= j < k < |matching| ==> es[matching[j]].u != es[matching[k]].u && es[matching[j]].v != es[matching[k]].v
    ensures IsMatching(mate) ==> forall j :: 0 <= j < |es| && mate[es[j].v] == Some(es[j].u) ==>
              exists k :: 0 <= k < |matching| && es[matching[k]].v == es[j].v
  {
    var usedU, usedV := seq(nL, _ => false), seq(nR, _ => false);
    matching := [];
    for i := 0 to |es|
      invariant |usedU| == nL && |usedV| == nR
      invariant Selected(es, mate, usedU, usedV, matching, i)
    {
      var e := es[i];
      assert e.u < nL && e.v < nR;
      if usedU[e.u] || usedV[e.v] {
        SelectSkip(es, mate, usedU, usedV, matching, i);
        continue;
      }
      if mate[e.v] == Some(e.u) {
        SelectTake(es, mate, usedU, usedV, matching, i);
        matching := matching + [i];
        usedU := usedU[e.u := true];
        usedV := usedV[e.v := true];
      } else {
        SelectPass(es, mate, usedU, usedV, matching, i);
      }
    }
    SelectDone(es, mate, usedU, usedV, matching);
  }

  /** Passing over an edge whose right node is not matched to its left
      node. */
  lemma SelectPass(es: seq<BipartiteEdge<()>>, mate: seq<Option<nat>>, usedU: seq<bool>, usedV: seq<bool>, matching: seq<nat>, i: nat)
    requires Selected(es, mate, usedU, usedV, matching, i) && i < |es| && es[i].v < |mate| && mate[es[i].v] != Some(es[i].u)
    ensures Selected(es, mate, usedU, usedV, matching, i + 1)
  {
  }

  /** What the extraction loop has chosen once every edge is passed. */
  lemma SelectDone(es: seq<BipartiteEdge<()>>, mate: seq<Option<nat>>, usedU: seq<bool>, usedV: seq<bool>, matching: seq<nat>)
    requires Chosen(es, mate, |usedU|, |usedV|, matching, |es|) && Covers(es, mate, matching, |es|)
    requires forall j :: 0 <= j < |es| ==> es[j].v < |mate|
    ensures forall k :: 0 <= k < |matching| ==> matching[k] < |es|
    ensures forall j, k :: 0 <= j < k < |matching| ==> matching[j] < matching[k]
    ensures forall k :: 0 <= k < |matching| ==> mate[es[matching[k]].v] == Some(es[matching[k]].u)
    ensures forall j, k :: 0 <= j < k < |matching| ==> es[matching[j]].u != es[matching[k]].u && es[matching[j]].v != es[matching[k]].v
    ensures IsMatching(mate) ==> forall j :: 0 <= j < |es| && mate[es[j].v] == Some(es[j].u) ==>
              exists k :: 0 <= k < |matching| && es[matching[k]].v == es[j].v
  {
  }

  /** Passing over an edge whose left or right node is already taken. */
  lemma SelectSkip(es: seq<BipartiteEdge<()>>, mate: seq<Option<nat>>, usedU: seq<bool>, usedV: seq<bool>, matching: seq<nat>, i: nat)
    requires Selected(es, mate, usedU, usedV, matching, i) && i < |es|
    requires es[i].u < |usedU| && es[i].v < |usedV| && es[i].v < |mate| && (usedU[es[i].u] || usedV[es[i].v])
    ensures Selected(es, mate, usedU, usedV, matching, i + 1)
  {
    if IsMatching(mate) && mate[es[i].v] == Some(es[i].u) {
      SkipCovered(es, mate, usedU, usedV, matching, i);
    }
  }

  /** An edge passed over because its node is taken has, when no left
      node has two partners, its right node covered: if only its left node
      is taken, the chosen edge there has the same mates, so the same
      right node. */
  lemma SkipCovered(es: seq<BipartiteEdge<()>>, mate: seq<Option<nat>>, usedU: seq<bool>, usedV: seq<bool>, matching: seq<nat>, i: nat)
    requires Chosen(es, mate, |usedU|, |usedV|, matching, i) && Marks(es, usedU, usedV, matching) && i < |es|
    requires es[i].u < |usedU| && es[i].v < |usedV| && es[i].v < |mate| && (usedU[es[i].u] || usedV[es[i].v])
    requires IsMatching(mate) && mate[es[i].v] == Some(es[i].u)
    ensures exists k :: 0 <= k < |matching| && es[matching[k]].v == es[i].v
  {
    if !usedV[es[i].v] {
      var k :| 0 <= k < |matching| && es[matching[k]].u == es[i].u;
      var v1, v2 := es[matching[k]].v, es[i].v;
      if v1 < v2 {
        TwoPartners(mate, v1, v2, es[i].u);
      } else if v2 < v1 {
        TwoPartners(mate, v2, v1, es[i].u);
      }
    }
  }

  /** Choosing edge `i`. */
  lemma SelectTake(es: seq<BipartiteEdge<()>>, mate: seq<Option<nat>>, usedU: seq<bool>, usedV: seq<bool>, matching: seq<nat>, i: nat)
    requires Selected(es, mate, usedU, usedV, matching, i) && i < |es|
    requires es[i].u < |usedU| && es[i].v < |usedV| && es[i].v < |mate| && !usedU[es[i].u] && !usedV[es[i].v]
    requires mate[es[i].v] == Some(es[i].u)
    ensures Selected(es, mate, usedU[es[i].u := true], usedV[es[i].v := true], matching + [i], i + 1)
  {
    TakeChosen(es, mate, usedU, usedV, matching, i);
    TakeMarks(es, usedU, usedV, matching, i);
    TakeCovers(es, mate, matching, i);
  }

  /** Choosing edge `i` keeps the chosen edges apart. */
  lemma TakeChosen(es: seq<BipartiteEdge<()>>, mate: seq<Option<nat>>, usedU: seq<bool>, usedV: seq<bool>, matching: seq<nat>, i: nat)
    requires Chosen(es, mate, |usedU|, |usedV|, matching, i) && Marks(es, usedU, usedV, matching) && i < |es|
    requires es[i].u < |usedU| && es[i].v < |usedV| && es[i].v < |mate| && !usedU[es[i].u] && !usedV[es[i].v]
    requires mate[es[i].v] == Some(es[i].u)
    ensures Chosen(es, mate, |usedU|, |usedV|, matching + [i], i + 1)
  {
    var m' := matching + [i];
    assert m'[|matching|] == i;
    assert forall k :: 0 <= k < |matching| ==> m'[k] == matching[k];
  }

  /** Choosing edge `i` marks its two nodes. */
  lemma TakeMarks(es: seq<BipartiteEdge<()>>, usedU: seq<bool>, usedV: seq<bool>, matching: seq<nat>, i: nat)
    requires forall k :: 0 <= k < |matching| ==> matching[k] < |es|
    requires Marks(es, usedU, usedV, matching) && i < |es| && es[i].u < |usedU| && es[i].v < |usedV|
    ensures Marks(es, usedU[es[i].u := true], usedV[es[i].v := true], matching + [i])
  {
    var m' := matching + [i];
    assert m'[|matching|] == i;
    assert forall k :: 0 <= k < |matching| ==> m'[k] == matching[k];
  }

  /** Choosing edge `i` covers its right node. */
  lemma TakeCovers(es: seq<BipartiteEdge<()>>, mate: seq<Option<nat>>, matching: seq<nat>, i: nat)
    requires forall k :: 0 <= k < |matching| ==> matching[k] < |es|
    requires Covers(es, mate, matching, i) && i < |es|
    ensures Covers(es, mate, matching + [i], i + 1)
  {
    var m' := matching + [i];
    if IsMatching(mate) {
      forall j | 0 <= j < i + 1 && j < |es| && es[j].v < |mate| && mate[es[j].v] == Some(es[j].u)
        ensures exists k :: 0 <= k < |m'| && es[m'[k]].v == es[j].v
      {
        if j == i {
          assert es[m'[|matching|]].v == es[j].v;
        } else {
          var k :| 0 <= k < |matching| && es[matching[k]].v == es[j].v;
          assert m'[k] == matching[k];
        }
      }
    }
  }

  /** An alternating path of left nodes in `m`: it starts at a free left
      node, and each next node is the mate of a right node reached by an
      arc of the one before. */
  ghost predicate AltPath(start: seq<nat>, to: seq<nat>, m: seq<Option<nat>>, p: seq<nat>)
  {
    && |p| > 0 && Partners(m, p[0]) == 0
    && forall i :: 0 <= i < |p| - 1 ==> p[i] + 1 < |start| && StepTo(start, to, m, p[i], p[i + 1])
  }

  /** Some arc of left node `x` goes to a right node matched to `y`. */
  ghost predicate StepTo(start: seq<nat>, to: seq<nat>, m: seq<Option<nat>>, x: nat, y: nat)
    requires x + 1 < |start|
  {
    exists b :: start[x] <= b < start[x + 1] && b < |to| && to[b] < |m| && m[to[b]] == Some(y)
  }

  /** After a search that met no free right node, no alternating path ends
      at a left node with an arc to a free right node: there is no
      augmenting path. */
  lemma NoAugmentingPath(start: seq<nat>, to: seq<nat>, m: seq<Option<nat>>, d: seq<nat>, p: seq<nat>)
    requires Layered(start, to, m, d)
    requires forall x :: 0 <= x < |d| && d[x] != Invalid ==> !FreeArc(start, to, m, x, start[x + 1])
    requires AltPath(start, to, m, p) && p[0] < |d|
    ensures p[|p| - 1] < |d| && d[p[|p| - 1]] != Invalid
    ensures !FreeArc(start, to, m, p[|p| - 1], start[p[|p| - 1] + 1])
  {
    assert d[p[0]] == 0;
    AltPathLabelled(start, to, m, d, p, |p| - 1);
  }

  /** Every node of an alternating path is labelled by the search. */
  lemma {:induction false} AltPathLabelled(start: seq<nat>, to: seq<nat>, m: seq<Option<nat>>, d: seq<nat>, p: seq<nat>, i: nat)
    requires Closed(start, to, m, d) && AltPath(start, to, m, p) && p[0] < |d| && d[p[0]] != Invalid && i < |p|
    ensures p[i] < |d| && d[p[i]] != Invalid
    decreases i
  {
    if i > 0 {
      AltPathLabelled(start, to, m, d, p, i - 1);
      assert StepTo(start, to, m, p[i - 1], p[i]);
      var b :| start[p[i - 1]] <= b < start[p[i - 1] + 1] && b < |to| && to[b] < |m| && m[to[b]] == Some(p[i]);
      assert ClosedUpTo(start, to, m, d, p[i - 1], start[p[i - 1] + 1]);
    }
  }

  /** The edges `ids` of `es` form a matching: each is an edge, and no two
      share a left or a right node. */
  ghost predicate EdgeMatching(es: seq<BipartiteEdge<()>>, ids: seq<nat>)
  {
    && (forall k :: 0 <= k < |ids| ==> ids[k] < |es|)
    && (forall j, k :: 0 <= j < k < |ids| ==> es[ids[j]].u != es[ids[k]].u && es[ids[j]].v != es[ids[k]].v)
  }

  /** The labels `d` of the last search split the nodes into a vertex
      cover: the unlabelled left nodes and the right nodes matched to
      labelled ones. Edge `e` is covered at one of them, and chosen edge
      `c` holds that node. */
  ghost predicate CoveredBy(es: seq<BipartiteEdge<()>>, mate: seq<Option<nat>>, d: seq<nat>, matching: seq<nat>, e: BipartiteEdge<()>, c: nat)
  {
    && c < |matching| && matching[c] < |es| && e.u < |d|
    && if d[e.u] == Invalid then es[matching[c]].u == e.u
       else es[matching[c]].v == e.v && e.v < |mate| && mate[e.v].Some? && mate[e.v].value < |d| && d[mate[e.v].value] != Invalid
  }

  /** Once the search meets no free right node, every edge is covered, and
      the chosen edge that holds its cover node is found. */
  lemma CoverOf(es: seq<BipartiteEdge<()>>, start: seq<nat>, to: seq<nat>, eid: seq<nat>, mate: seq<Option<nat>>, d: seq<nat>, matching: seq<nat>, i: nat)
    returns (c: nat)
    requires EndsIn(es, |d|, |mate|) && Laid(es, start, to, eid) && Mates(|d|, |mate|, es, mate)
    requires Layered(start, to, mate, d)
    requires forall x :: 0 <= x < |d| && d[x] != Invalid ==> !FreeArc(start, to, mate, x, start[x + 1])
    requires forall k :: 0 <= k < |matching| ==> matching[k] < |es| && mate[es[matching[k]].v] == Some(es[matching[k]].u)
    requires forall j :: 0 <= j < |es| && mate[es[j].v] == Some(es[j].u) ==>
               exists k :: 0 <= k < |matching| && es[matching[k]].v == es[j].v
    requires i < |es|
    ensures CoveredBy(es, mate, d, matching, es[i], c)
  {
    var e := es[i];
    var y: nat;
    if d[e.u] == Invalid {
      y := LeftCover(mate, d, e.u);
    } else {
      RightCover(es, start, to, eid, mate, d, i);
      y := e.v;
    }
    c := ChosenAt(es, mate, matching, y);
  }

  /** An unlabelled left node is matched: labels 0 mark the free ones. */
  lemma LeftCover(mate: seq<Option<nat>>, d: seq<nat>, x: nat) returns (y: nat)
    requires forall w :: 0 <= w < |d| ==> (d[w] == 0 <==> Partners(mate, w) == 0)
    requires x < |d| && d[x] == Invalid
    ensures y < |mate| && mate[y] == Some(x)
  {
    assert Partners(mate, x) != 0;
    PartnersPositive(mate, x);
    y :| 0 <= y < |mate| && mate[y] == Some(x);
  }

  /** The right end of an edge whose left end is labelled is matched, to a
      labelled node: the search closed the left end and met no free right
      node there. */
  lemma RightCover(es: seq<BipartiteEdge<()>>, start: seq<nat>, to: seq<nat>, eid: seq<nat>, mate: seq<Option<nat>>, d: seq<nat>, i: nat)
    requires Laid(es, start, to, eid) && Closed(start, to, mate, d)
    requires forall x :: 0 <= x < |d| && d[x] != Invalid ==> x + 1 < |start| && !FreeArc(start, to, mate, x, start[x + 1])
    requires i < |es| && es[i].u < |d| && d[es[i].u] != Invalid
    ensures es[i].v < |mate| && mate[es[i].v].Some? && mate[es[i].v].value < |d| && d[mate[es[i].v].value] != Invalid
  {
    var e := es[i];
    var a := Slot(Lefts(es), i);
    var hi := start[e.u + 1];
    assert ClosedUpTo(start, to, mate, d, e.u, hi);
    assert !FreeArc(start, to, mate, e.u, hi);
    assert to[a] == e.v && start[e.u] <= a < hi && a < |to| && to[a] < |mate|;
  }

  /** A matched right node `y` is the right end of a chosen edge. */
  lemma ChosenAt(es: seq<BipartiteEdge<()>>, mate: seq<Option<nat>>, matching: seq<nat>, y: nat) returns (c: nat)
    requires y < |mate| && mate[y].Some? && Joined(es, mate[y].value, y)
    requires forall j :: 0 <= j < |es| ==> es[j].v < |mate|
    requires forall k :: 0 <= k < |matching| ==> matching[k] < |es| && mate[es[matching[k]].v] == Some(es[matching[k]].u)
    requires forall j :: 0 <= j < |es| && mate[es[j].v] == Some(es[j].u) ==>
               exists k :: 0 <= k < |matching| && es[matching[k]].v == es[j].v
    ensures c < |matching| && es[matching[c]].v == y && es[matching[c]].u == mate[y].value
  {
    var j :| 0 <= j < |es| && es[j].u == mate[y].value && es[j].v == y;
    c :| 0 <= c < |matching| && es[matching[c]].v == es[j].v;
  }

  /** Two edges covered by the same chosen edge share a node: the cover
      node they are covered at is the same one. */
  lemma CoverShared(es: seq<BipartiteEdge<()>>, mate: seq<Option<nat>>, d: seq<nat>, matching: seq<nat>, e1: BipartiteEdge<()>, e2: BipartiteEdge<()>, c1: nat, c2: nat)
    requires forall k :: 0 <= k < |matching| ==> matching[k] < |es| && es[matching[k]].v < |mate| && mate[es[matching[k]].v] == Some(es[matching[k]].u)
    requires CoveredBy(es, mate, d, matching, e1, c1) && CoveredBy(es, mate, d, matching, e2, c2)
    ensures c1 == c2 ==> e1.u == e2.u || e1.v == e2.v
  {
    var m := es[matching[c1]];
    assert mate[m.v] == Some(m.u);
  }

  /** Some chosen edge covers edge `e`. */
  ghost predicate Coverable(es: seq<BipartiteEdge<()>>, mate: seq<Option<nat>>, d: seq<nat>, matching: seq<nat>, e: BipartiteEdge<()>)
  {
    exists c :: CoveredBy(es, mate, d, matching, e, c)
  }

  /** Once the search meets no free right node, every edge is covered. */
  lemma AllCovered(es: seq<BipartiteEdge<()>>, start: seq<nat>, to: seq<nat>, eid: seq<nat>, mate: seq<Option<nat>>, d: seq<nat>, matching: seq<nat>)
    requires EndsIn(es, |d|, |mate|) && Laid(es, start, to, eid) && Mates(|d|, |mate|, es, mate)
    requires Layered(start, to, mate, d)
    requires forall x :: 0 <= x < |d| && d[x] != Invalid ==> !FreeArc(start, to, mate, x, start[x + 1])
    requires forall k :: 0 <= k < |matching| ==> matching[k] < |es| && mate[es[matching[k]].v] == Some(es[matching[k]].u)
    requires forall j :: 0 <= j < |es| && mate[es[j].v] == Some(es[j].u) ==>
               exists k :: 0 <= k < |matching| && es[matching[k]].v == es[j].v
    ensures forall i :: 0 <= i < |es| ==> Coverable(es, mate, d, matching, es[i])
  {
    forall i | 0 <= i < |es|
      ensures Coverable(es, mate, d, matching, es[i])
    {
      var c := CoverOf(es, start, to, eid, mate, d, matching, i);
    }
  }

  /** The chosen edge covering each edge of `other`, in order. */
  lemma CoverMap(es: seq<BipartiteEdge<()>>, mate: seq<Option<nat>>, d: seq<nat>, matching: seq<nat>, other: seq<nat>)
    returns (f: seq<nat>)
    requires forall i :: 0 <= i < |es| ==> Coverable(es, mate, d, matching, es[i])
    requires forall k :: 0 <= k < |other| ==> other[k] < |es|
    ensures |f| == |other| && forall k :: 0 <= k < |f| ==> CoveredBy(es, mate, d, matching, es[other[k]], f[k])
    decreases |other|
  {
    if |other| == 0 {
      f := [];
    } else {
      var n := |other| - 1;
      var g := CoverMap(es, mate, d, matching, other[..n]);
      assert Coverable(es, mate, d, matching, es[other[n]]);
      var c :| CoveredBy(es, mate, d, matching, es[other[n]], c);
      f := g + [c];
      forall k | 0 <= k < n
        ensures CoveredBy(es, mate, d, matching, es[other[k]], f[k])
      {
        assert other[..n][k] == other[k] && f[k] == g[k];
      }
    }
  }

  /** Distinct edges of a matching are covered by distinct chosen edges. */
  lemma CoverMapInjective(es: seq<BipartiteEdge<()>>, mate: seq<Option<nat>>, d: seq<nat>, matching: seq<nat>, other: seq<nat>, f: seq<nat>)
    requires forall k :: 0 <= k < |matching| ==> matching[k] < |es| && es[matching[k]].v < |mate| && mate[es[matching[k]].v] == Some(es[matching[k]].u)
    requires EdgeMatching(es, other)
    requires |f| == |other| && forall k :: 0 <= k < |f| ==> CoveredBy(es, mate, d, matching, es[other[k]], f[k])
    ensures forall j, k :: 0 <= j < k < |f| ==> f[j] != f[k]
  {
    forall j, k | 0 <= j < k < |f|
      ensures f[j] != f[k]
    {
      CoverShared(es, mate, d, matching, es[other[j]], es[other[k]], f[j], f[k]);
    }
  }

  /** The maximality of the result: when `mate` is a matching, the search
      met no free right node, and `matching` holds a chosen edge for each
      matched right node, no set of edges forming a matching has more
      edges than `matching` (weak duality against the cover of
      `CoveredBy`, which the chosen edges meet once each). */
  lemma MaximumMatching(es: seq<BipartiteEdge<()>>, start: seq<nat>, to: seq<nat>, eid: seq<nat>, mate: seq<Option<nat>>, d: seq<nat>, matching: seq<nat>, other: seq<nat>)
    requires EndsIn(es, |d|, |mate|) && Laid(es, start, to, eid) && Mates(|d|, |mate|, es, mate)
    requires Layered(start, to, mate, d)
    requires forall x :: 0 <= x < |d| && d[x] != Invalid ==> !FreeArc(start, to, mate, x, start[x + 1])
    requires forall k :: 0 <= k < |matching| ==> matching[k] < |es| && mate[es[matching[k]].v] == Some(es[matching[k]].u)
    requires forall j :: 0 <= j < |es| && mate[es[j].v] == Some(es[j].u) ==>
               exists k :: 0 <= k < |matching| && es[matching[k]].v == es[j].v
    requires EdgeMatching(es, other)
    ensures |other| <= |matching|
  {
    AllCovered(es, start, to, eid, mate, d, matching);
    var f := CoverMap(es, mate, d, matching, other);
    CoverMapInjective(es, mate, d, matching, other, f);
    Sums.InjectiveBound(f, |matching|);
  }

  /** `MaximumMatching` for every matching of `es`. */
  lemma MaximumMatchings(es: seq<BipartiteEdge<()>>, start: seq<nat>, to: seq<nat>, eid: seq<nat>, mate: seq<Option<nat>>, d: seq<nat>, matching: seq<nat>)
    requires EndsIn(es, |d|, |mate|) && Laid(es, start, to, eid) && Mates(|d|, |mate|, es, mate) && IsMatching(mate)
    requires Layered(start, to, mate, d)
    requires forall x :: 0 <= x < |d| && d[x] != Invalid ==> !FreeArc(start, to, mate, x, start[x + 1])
    requires forall k :: 0 <= k < |matching| ==> matching[k] < |es| && mate[es[matching[k]].v] == Some(es[matching[k]].u)
    requires IsMatching(mate) ==> forall j :: 0 <= j < |es| && mate[es[j].v] == Some(es[j].u) ==>
               exists k :: 0 <= k < |matching| && es[matching[k]].v == es[j].v
    ensures forall other :: EdgeMatching(es, other) ==> |other| <= |matching|
  {
    forall other | EdgeMatching(es, other)
      ensures |other| <= |matching|
    {
      MaximumMatching(es, start, to, eid, mate, d, matching, other);
    }
  }
}
