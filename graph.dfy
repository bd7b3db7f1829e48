/** The general graph container: nodes and edges kept in insertion order, each
    named by its position. Whether the graph is directed only affects how
    algorithms read it, so it is a constant flag here. */
module Graph {
  import opened Wrappers

  datatype Edge<E> = Edge(u: nat, v: nat, data: E)

  /** Every edge joins two existing nodes. */
  ghost predicate EndpointsIn<E>(edges: seq<Edge<E>>, n: nat)
  {
    forall i :: 0 <= i < |edges| ==> edges[i].u < n && edges[i].v < n
  }

  /** Edge `j` of edges among `n` nodes joins two of them. */
  lemma EdgeEndpoints<E>(edges: seq<Edge<E>>, n: nat, j: nat)
    requires EndpointsIn(edges, n) && j < |edges|
    ensures edges[j].u < n && edges[j].v < n
  {
  }

  /** Without nodes there is no edge. */
  lemma NoNodeNoEdge<E>(edges: seq<Edge<E>>, n: nat)
    requires EndpointsIn(edges, n)
    ensures n == 0 ==> |edges| == 0
  {
    if n == 0 && |edges| > 0 {
      EdgeEndpoints(edges, n, 0);
      assert false;
    }
  }

  class Graph<N, E> {
    const directed: bool
    var nodes: seq<N>
    var edges: seq<Edge<E>>

    ghost predicate Valid()
      reads this
    {
      EndpointsIn(edges, |nodes|)
    }

    /** `new_directed` / `new_undirected`: the empty graph. */
    constructor (directed: bool)
      ensures Valid() && this.directed == directed && nodes == [] && edges == []
    {
      this.directed := directed;
      nodes := [];
      edges := [];
    }

    method NumNodes() returns (n: nat)
      ensures n == |nodes|
    {
      n := |nodes|;
    }

    method NumEdges() returns (m: nat)
      ensures m == |edges|
    {
      m := |edges|;
    }

    /** `add_node_with`: the new node's id is the previous node count. */
    method AddNodeWith(data: N) returns (id: nat)
      requires Valid()
      modifies this
      ensures Valid() && id == |old(nodes)|
      ensures nodes == old(nodes) + [data] && edges == old(edges)
    {
      id := |nodes|;
      nodes := nodes + [data];
    }

    /** `add_nodes_with`: appends the data in order and returns their ids,
        which are consecutive. */
    method AddNodesWith(datas: seq<N>) returns (ids: seq<nat>)
      requires Valid()
      modifies this
      ensures Valid() && nodes == old(nodes) + datas && edges == old(edges)
      ensures |ids| == |datas| && forall k :: 0 <= k < |ids| ==> ids[k] == |old(nodes)| + k
    {
      ids := [];
      var k := 0;
      while k < |datas|
        invariant 0 <= k <= |datas| && Valid()
        invariant nodes == old(nodes) + datas[..k] && edges == old(edges)
        invariant |ids| == k && forall j :: 0 <= j < k ==> ids[j] == |old(nodes)| + j
      {
        var id := AddNodeWith(datas[k]);
        ids := ids + [id];
        assert datas[..k + 1] == datas[..k] + [datas[k]];
        k := k + 1;
      }
      assert datas[..k] == datas;
    }

    /** `add_node` (one) and `add_nodes`: `count` nodes carrying the default
        datum `d`. */
    method AddNodes(count: nat, d: N) returns (ids: seq<nat>)
      requires Valid()
      modifies this
      ensures Valid() && nodes == old(nodes) + seq(count, _ => d) && edges == old(edges)
      ensures |ids| == count && forall k :: 0 <= k < count ==> ids[k] == |old(nodes)| + k
    {
      ids := AddNodesWith(seq(count, _ => d));
    }

    /** `add_edge`: rejected with `None`, and nothing added, when an endpoint
        is not a node; otherwise appended, with the previous edge count as id. */
    method AddEdge(u: nat, v: nat, data: E) returns (id: Option<nat>)
      requires Valid()
      modifies this
      ensures Valid() && nodes == old(nodes)
      ensures (u >= |nodes| || v >= |nodes|) <==> id == None
      ensures id == None ==> edges == old(edges)
      ensures id != None ==> id == Some(|old(edges)|) && edges == old(edges) + [Edge(u, v, data)]
    {
      if u >= |nodes| || v >= |nodes| {
        return None;
      }
      id := Some(|edges|);
      edges := edges + [Edge(u, v, data)];
    }

    /** `get_node`: `None` exactly for ids that are not nodes. */
    method GetNode(id: nat) returns (r: Option<N>)
      ensures id < |nodes| <==> r.Some?
      ensures id < |nodes| ==> r == Some(nodes[id])
    {
      if id >= |nodes| {
        return None;
      }
      r := Some(nodes[id]);
    }

    /** `get_edge`: `None` exactly for ids that are not edges; an edge that is
        returned joins existing nodes. */
    method GetEdge(id: nat) returns (r: Option<Edge<E>>)
      requires Valid()
      ensures id < |edges| <==> r.Some?
      ensures id < |edges| ==> r == Some(edges[id]) && r.value.u < |nodes| && r.value.v < |nodes|
    {
      if id >= |edges| {
        return None;
      }
      r := Some(edges[id]);
    }
  }
}
