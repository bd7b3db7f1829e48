/** The bipartite graph container: left and right nodes in two lists, edges
    from a left node to a right node, and the degree of every node kept up to
    date as edges are added. */
module BipartiteGraph {
  import opened Wrappers
  import opened Sums

  datatype BipartiteEdge<E> = BipartiteEdge(u: nat, v: nat, data: E)

  /** The number of edges at left node `x`. */
  function LeftCount<E>(edges: seq<BipartiteEdge<E>>, x: nat): nat
  {
    if |edges| == 0 then 0
    else LeftCount(edges[..|edges| - 1], x) + (if edges[|edges| - 1].u == x then 1 else 0)
  }

  /** The number of edges at right node `y`. */
  function RightCount<E>(edges: seq<BipartiteEdge<E>>, y: nat): nat
  {
    if |edges| == 0 then 0
    else RightCount(edges[..|edges| - 1], y) + (if edges[|edges| - 1].v == y then 1 else 0)
  }

  /** An edge at a left node has one more edge at that node than before. */
  lemma LeftCountAppend<E>(edges: seq<BipartiteEdge<E>>, e: BipartiteEdge<E>, x: nat)
    ensures LeftCount(edges + [e], x) == LeftCount(edges, x) + (if e.u == x then 1 else 0)
  {
    assert (edges + [e])[..|edges|] == edges;
  }

  lemma RightCountAppend<E>(edges: seq<BipartiteEdge<E>>, e: BipartiteEdge<E>, y: nat)
    ensures RightCount(edges + [e], y) == RightCount(edges, y) + (if e.v == y then 1 else 0)
  {
    assert (edges + [e])[..|edges|] == edges;
  }

  /** Counting the edges at every left node counts every edge once. */
  lemma {:induction false} LeftCountsSum<E>(edges: seq<BipartiteEdge<E>>, n: nat)
    requires forall i :: 0 <= i < |edges| ==> edges[i].u < n
    ensures SumCounts(edges, n) == |edges|
  {
    if |edges| > 0 {
      var init, e := edges[..|edges| - 1], edges[|edges| - 1];
      assert init + [e] == edges;
      assert e.u < n;
      LeftCountsSum(init, n);
      SumCountsStep(init, e, n);
    } else {
      NoEdgesNoCounts(edges, n);
    }
  }

  lemma {:induction false} NoEdgesNoCounts<E>(edges: seq<BipartiteEdge<E>>, n: nat)
    requires |edges| == 0
    ensures SumCounts(edges, n) == 0
  {
    if n > 0 {
      NoEdgesNoCounts(edges, n - 1);
    }
  }

  /** `LeftCount` summed over left nodes `0..n`. */
  function SumCounts<E>(edges: seq<BipartiteEdge<E>>, n: nat): nat
  {
    if n == 0 then 0 else SumCounts(edges, n - 1) + LeftCount(edges, n - 1)
  }

  lemma {:induction false} SumCountsStep<E>(edges: seq<BipartiteEdge<E>>, e: BipartiteEdge<E>, n: nat)
    ensures SumCounts(edges + [e], n) == SumCounts(edges, n) + (if e.u < n then 1 else 0)
  {
    if n > 0 {
      SumCountsStep(edges, e, n - 1);
      LeftCountAppend(edges, e, n - 1);
    }
  }

  ghost predicate Degrees<E>(edges: seq<BipartiteEdge<E>>, degreeLeft: seq<nat>, degreeRight: seq<nat>)
  {
    && (forall x :: 0 <= x < |degreeLeft| ==> degreeLeft[x] == LeftCount(edges, x))
    && (forall y :: 0 <= y < |degreeRight| ==> degreeRight[y] == RightCount(edges, y))
  }

  class BipartiteGraph<N, E> {
    const directed: bool
    var leftNodes: seq<N>
    var rightNodes: seq<N>
    var edges: seq<BipartiteEdge<E>>
    var degreeLeft: seq<nat>
    var degreeRight: seq<nat>

    /** Edges go from a left node to a right node, and each degree counts the
        edges at its node. */
    ghost predicate Valid()
      reads this
    {
      && |degreeLeft| == |leftNodes| && |degreeRight| == |rightNodes|
      && (forall i :: 0 <= i < |edges| ==> edges[i].u < |leftNodes| && edges[i].v < |rightNodes|)
      && Degrees(edges, degreeLeft, degreeRight)
    }

    /** `new_directed` / `new_undirected`: the empty graph. */
    constructor (directed: bool)
      ensures Valid() && this.directed == directed
      ensures leftNodes == [] && rightNodes == [] && edges == []
    {
      this.directed := directed;
      leftNodes, rightNodes, edges := [], [], [];
      degreeLeft, degreeRight := [], [];
    }

    /** `add_left_node_with`: a left node of degree 0, whose id is the
        previous left node count. */
    method AddLeftNodeWith(data: N) returns (id: nat)
      requires Valid()
      modifies this
      ensures Valid() && id == |old(leftNodes)|
      ensures leftNodes == old(leftNodes) + [data] && degreeLeft == old(degreeLeft) + [0]
      ensures rightNodes == old(rightNodes) && degreeRight == old(degreeRight) && edges == old(edges)
    {
      id := |leftNodes|;
      leftNodes := leftNodes + [data];
      degreeLeft := degreeLeft + [0];
      assert LeftCount(edges, id) == 0 by {
        NoEdgesAtNewLeft(edges, id);
      }
    }

    /** `add_right_node_with`: a right node of degree 0, whose id is the
        previous right node count. */
    method AddRightNodeWith(data: N) returns (id: nat)
      requires Valid()
      modifies this
      ensures Valid() && id == |old(rightNodes)|
      ensures rightNodes == old(rightNodes) + [data] && degreeRight == old(degreeRight) + [0]
      ensures leftNodes == old(leftNodes) && degreeLeft == old(degreeLeft) && edges == old(edges)
    {
      id := |rightNodes|;
      rightNodes := rightNodes + [data];
      degreeRight := degreeRight + [0];
      assert RightCount(edges, id) == 0 by {
        NoEdgesAtNewRight(edges, id);
      }
    }

    /** `add_left_nodes_with`: appends in order, with consecutive ids. */
    method AddLeftNodesWith(datas: seq<N>) returns (ids: seq<nat>)
      requires Valid()
      modifies this
      ensures Valid() && leftNodes == old(leftNodes) + datas
      ensures rightNodes == old(rightNodes) && edges == old(edges)
      ensures |ids| == |datas| && forall k :: 0 <= k < |ids| ==> ids[k] == |old(leftNodes)| + k
    {
      ids := [];
      var k := 0;
      while k < |datas|
        invariant 0 <= k <= |datas| && Valid()
        invariant leftNodes == old(leftNodes) + datas[..k] && rightNodes == old(rightNodes) && edges == old(edges)
        invariant |ids| == k && forall j :: 0 <= j < k ==> ids[j] == |old(leftNodes)| + j
      {
        var id := AddLeftNodeWith(datas[k]);
        ids := ids + [id];
        assert datas[..k + 1] == datas[..k] + [datas[k]];
        k := k + 1;
      }
      assert datas[..k] == datas;
    }

    /** `add_right_nodes_with`: appends in order, with consecutive ids. */
    method AddRightNodesWith(datas: seq<N>) returns (ids: seq<nat>)
      requires Valid()
      modifies this
      ensures Valid() && rightNodes == old(rightNodes) + datas
      ensures leftNodes == old(leftNodes) && edges == old(edges)
      ensures |ids| == |datas| && forall k :: 0 <= k < |ids| ==> ids[k] == |old(rightNodes)| + k
    {
      ids := [];
      var k := 0;
      while k < |datas|
        invariant 0 <= k <= |datas| && Valid()
        invariant rightNodes == old(rightNodes) + datas[..k] && leftNodes == old(leftNodes) && edges == old(edges)
        invariant |ids| == k && forall j :: 0 <= j < k ==> ids[j] == |old(rightNodes)| + j
      {
        var id := AddRightNodeWith(datas[k]);
        ids := ids + [id];
        assert datas[..k + 1] == datas[..k] + [datas[k]];
        k := k + 1;
      }
      assert datas[..k] == datas;
    }

    /** `num_left_nodes`, `num_right_nodes`, `num_edges`. */
    method NumLeftNodes() returns (n: nat)
      ensures n == |leftNodes|
    {
      n := |leftNodes|;
    }

    method NumRightNodes() returns (n: nat)
      ensures n == |rightNodes|
    {
      n := |rightNodes|;
    }

    method NumEdges() returns (m: nat)
      ensures m == |edges|
    {
      m := |edges|;
    }

    /** `add_left_node` and `add_left_nodes`: `count` left nodes carrying the
        default datum `d`. */
    method AddLeftNodes(count: nat, d: N) returns (ids: seq<nat>)
      requires Valid()
      modifies this
      ensures Valid() && leftNodes == old(leftNodes) + seq(count, _ => d)
      ensures rightNodes == old(rightNodes) && edges == old(edges)
      ensures |ids| == count && forall k :: 0 <= k < count ==> ids[k] == |old(leftNodes)| + k
    {
      ids := AddLeftNodesWith(seq(count, _ => d));
    }

    /** `add_right_node` and `add_right_nodes`. */
    method AddRightNodes(count: nat, d: N) returns (ids: seq<nat>)
      requires Valid()
      modifies this
      ensures Valid() && rightNodes == old(rightNodes) + seq(count, _ => d)
      ensures leftNodes == old(leftNodes) && edges == old(edges)
      ensures |ids| == count && forall k :: 0 <= k < count ==> ids[k] == |old(rightNodes)| + k
    {
      ids := AddRightNodesWith(seq(count, _ => d));
    }

    /** `add_edge`: rejected with `None`, and nothing changed, when `u` is not
        a left node or `v` not a right node; otherwise appended with the
        previous edge count as id, and the degrees of `u` and `v` (only) go up
        by one. */
    method AddEdge(u: nat, v: nat, data: E) returns (id: Option<nat>)
      requires Valid()
      modifies this
      ensures Valid() && leftNodes == old(leftNodes) && rightNodes == old(rightNodes)
      ensures (u >= |leftNodes| || v >= |rightNodes|) <==> id == None
      ensures id == None ==> edges == old(edges) && degreeLeft == old(degreeLeft) && degreeRight == old(degreeRight)
      ensures id != None ==>
                && id == Some(|old(edges)|) && edges == old(edges) + [BipartiteEdge(u, v, data)]
                && degreeLeft == old(degreeLeft)[u := old(degreeLeft)[u] + 1]
                && degreeRight == old(degreeRight)[v := old(degreeRight)[v] + 1]
    {
      if u >= |leftNodes| || v >= |rightNodes| {
        return None;
      }
      var e := BipartiteEdge(u, v, data);
      ghost var old_edges := edges;
      id := Some(|edges|);
      edges := edges + [e];
      degreeLeft := degreeLeft[u := degreeLeft[u] + 1];
      degreeRight := degreeRight[v := degreeRight[v] + 1];
      forall x | 0 <= x < |degreeLeft| ensures degreeLeft[x] == LeftCount(edges, x) {
        LeftCountAppend(old_edges, e, x);
      }
      forall y | 0 <= y < |degreeRight| ensures degreeRight[y] == RightCount(edges, y) {
        RightCountAppend(old_edges, e, y);
      }
    }

    /** `get_left_node`: `None` exactly for ids that are not left nodes. */
    method GetLeftNode(id: nat) returns (r: Option<N>)
      ensures id < |leftNodes| <==> r.Some?
      ensures id < |leftNodes| ==> r == Some(leftNodes[id])
    {
      if id >= |leftNodes| {
        return None;
      }
      r := Some(leftNodes[id]);
    }

    /** `get_right_node`: `None` exactly for ids that are not right nodes. */
    method GetRightNode(id: nat) returns (r: Option<N>)
      ensures id < |rightNodes| <==> r.Some?
      ensures id < |rightNodes| ==> r == Some(rightNodes[id])
    {
      if id >= |rightNodes| {
        return None;
      }
      r := Some(rightNodes[id]);
    }

    /** `get_edge`: `None` exactly for ids that are not edges. */
    method GetEdge(id: nat) returns (r: Option<BipartiteEdge<E>>)
      requires Valid()
      ensures id < |edges| <==> r.Some?
      ensures id < |edges| ==> r == Some(edges[id]) && r.value.u < |leftNodes| && r.value.v < |rightNodes|
    {
      if id >= |edges| {
        return None;
      }
      r := Some(edges[id]);
    }

    /** The left degrees add up to the number of edges. */
    lemma DegreeSum()
      requires Valid()
      ensures Sum(degreeLeft) == |edges|
    {
      LeftCountsSum(edges, |leftNodes|);
      SumSeqCounts(edges, degreeLeft, |degreeLeft|);
      assert degreeLeft[..|degreeLeft|] == degreeLeft;
    }
  }

  /** No edge of a graph whose left nodes are all below `x` is at `x`. */
  lemma {:induction false} NoEdgesAtNewLeft<E>(edges: seq<BipartiteEdge<E>>, x: nat)
    requires forall i :: 0 <= i < |edges| ==> edges[i].u < x
    ensures LeftCount(edges, x) == 0
  {
    if |edges| > 0 {
      NoEdgesAtNewLeft(edges[..|edges| - 1], x);
    }
  }

  lemma {:induction false} NoEdgesAtNewRight<E>(edges: seq<BipartiteEdge<E>>, y: nat)
    requires forall i :: 0 <= i < |edges| ==> edges[i].v < y
    ensures RightCount(edges, y) == 0
  {
    if |edges| > 0 {
      NoEdgesAtNewRight(edges[..|edges| - 1], y);
    }
  }

  lemma {:induction false} SumSeqCounts<E>(edges: seq<BipartiteEdge<E>>, d: seq<nat>, n: nat)
    requires n <= |d| && forall x :: 0 <= x < |d| ==> d[x] == LeftCount(edges, x)
    ensures Sum(d[..n]) == SumCounts(edges, n)
  {
    if n > 0 {
      SumSeqCounts(edges, d, n - 1);
      assert d[..n][..n - 1] == d[..n - 1];
    }
  }
}
