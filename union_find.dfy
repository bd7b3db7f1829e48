/** Disjoint-set forest with union by size, path compression, a set count, the
    set of leaders and a circular `next` list per set (so that a whole group can
    be listed). Negative `parent` entries mark roots and hold minus the set size. */
module UnionFind {

  /** No entry of `c` occurs twice. */
  ghost predicate Distinct(c: seq<nat>)
  {
    forall i, j :: 0 <= i < j < |c| ==> c[i] != c[j]
  }

  /** `next` walks `c` in order and returns from its last entry to its first. */
  ghost predicate Ring(next: seq<nat>, c: seq<nat>)
  {
    && |c| >= 1
    && (forall i :: 0 <= i < |c| ==> c[i] < |next|)
    && (forall i :: 0 <= i < |c| - 1 ==> Step(next, c, i))
    && next[c[|c| - 1]] == c[0]
  }

  /** `next` leads from the `i`-th entry of `c` to the following one. */
  ghost predicate Step(next: seq<nat>, c: seq<nat>, i: nat)
    requires i + 1 < |c| && c[i] < |next|
  {
    next[c[i]] == c[i + 1]
  }

  /** The roots of a parent array: the entries that are negative. */
  ghost function Roots(p: seq<int>): set<nat>
  {
    set r: nat | r < |p| && p[r] < 0
  }

  /** The nodes whose representative is `r`. */
  ghost function MembersOf(root: seq<nat>, r: nat): set<nat>
  {
    set u: nat | u < |root| && root[u] == r
  }

  /** Parent links stay in range, keep the representative, and climb in height. */
  ghost predicate ForestOf(p: seq<int>, root: seq<nat>, h: seq<nat>)
  {
    && |p| == |root| == |h|
    && (forall u :: 0 <= u < |p| ==> NodeOk(p, root, h, u))
  }

  /** Node `u` points at a node of the same set that is higher, or is its root. */
  ghost predicate NodeOk(p: seq<int>, root: seq<nat>, h: seq<nat>, u: nat)
    requires |p| == |root| == |h| && u < |p|
  {
    && root[u] < |p| && p[root[u]] < 0 && h[u] <= h[root[u]]
    && (p[u] < 0 ==> root[u] == u)
    && (p[u] >= 0 ==> p[u] < |p| && root[p[u]] == root[u] && h[p[u]] > h[u])
  }

  /** The cycle of root `r` lists its members without repetition, in ring order,
      starting at `r`, and its length is the size kept at `p[r]`. */
  ghost predicate GroupOk(p: seq<int>, next: seq<nat>, root: seq<nat>, c: seq<nat>, r: nat)
    requires r < |p|
  {
    && Ring(next, c) && c[0] == r && |c| == -p[r] && Distinct(c)
    && (forall i :: 0 <= i < |c| ==> c[i] < |root| && root[c[i]] == r)
    && (forall u :: 0 <= u < |root| && root[u] == r ==> u in c)
  }

  ghost predicate GroupsOf(p: seq<int>, next: seq<nat>, root: seq<nat>, cycle: seq<seq<nat>>)
  {
    && |next| == |p| && |cycle| == |p|
    && forall r :: 0 <= r < |p| && p[r] < 0 ==> GroupOk(p, next, root, cycle[r], r)
  }

  /** The whole state: the forest, the rings, the leaders and their count. */
  ghost predicate Inv(p: seq<int>, next: seq<nat>, root: seq<nat>, h: seq<nat>, cycle: seq<seq<nat>>,
                      leaders: set<nat>, count: nat)
  {
    ForestOf(p, root, h) && GroupsOf(p, next, root, cycle) && leaders == Roots(p) && count == |leaders|
  }

  /** A sequence without repetitions has as many elements as its set. */
  lemma {:induction false} DistinctCard(c: seq<nat>)
    requires Distinct(c)
    ensures |set i | 0 <= i < |c| :: c[i]| == |c|
  {
    if |c| > 0 {
      var t := c[1..];
      DistinctCard(t);
      var st := set i | 0 <= i < |t| :: t[i];
      var sc := set i | 0 <= i < |c| :: c[i];
      assert sc == {c[0]} + st by {
        forall x | x in sc ensures x in {c[0]} + st {
          var i :| 0 <= i < |c| && c[i] == x;
          if i > 0 { assert t[i - 1] == x; }
        }
      }
      assert c[0] !in st;
    }
  }

  /** Members of a root are the entries of its cycle, so their number is `-p[r]`. */
  lemma MembersCount(p: seq<int>, next: seq<nat>, root: seq<nat>, c: seq<nat>, r: nat)
    requires r < |p| && GroupOk(p, next, root, c, r)
    ensures MembersOf(root, r) == set i | 0 <= i < |c| :: c[i]
    ensures |MembersOf(root, r)| == -p[r]
  {
    DistinctCard(c);
  }

  /** Path compression: re-pointing a non-root at another node keeps the groups. */
  lemma CompressKeepsGroups(p: seq<int>, next: seq<nat>, root: seq<nat>, cycle: seq<seq<nat>>, u: nat, v: nat)
    requires GroupsOf(p, next, root, cycle) && u < |p| && p[u] >= 0
    ensures GroupsOf(p[u := v], next, root, cycle)
    ensures Roots(p[u := v]) == Roots(p)
  {
    var p' := p[u := v];
    forall r | 0 <= r < |p'| && p'[r] < 0 ensures GroupOk(p', next, root, cycle[r], r) {
      assert p'[r] == p[r];
    }
  }

  /** Path compression keeps the forest when `u` is pointed at its own root. */
  lemma CompressKeepsForest(p: seq<int>, root: seq<nat>, h: seq<nat>, u: nat)
    requires ForestOf(p, root, h) && u < |p| && p[u] >= 0
    ensures ForestOf(p[u := root[u]], root, h)
  {
    var p' := p[u := root[u]];
    forall x | 0 <= x < |p'| ensures NodeOk(p', root, h, x) {
      assert NodeOk(p, root, h, x);
      if x == u {
        // climbing from `u` only reaches higher nodes of the same set
        assert NodeOk(p, root, h, p[u]);
        assert NodeOk(p, root, h, root[u]);
      }
    }
  }

  /** Path compression keeps the whole state. */
  lemma CompressKeepsInv(p: seq<int>, next: seq<nat>, root: seq<nat>, h: seq<nat>, cycle: seq<seq<nat>>,
                         leaders: set<nat>, count: nat, u: nat)
    requires Inv(p, next, root, h, cycle, leaders, count) && u < |p| && p[u] >= 0
    ensures Inv(p[u := root[u]], next, root, h, cycle, leaders, count)
  {
    CompressKeepsGroups(p, next, root, cycle, u, root[u]);
    CompressKeepsForest(p, root, h, u);
  }

  /** Cycle of the union of the sets rooted at `u` and `v`, after `next[u]` and
      `next[v]` are exchanged. */
  function Splice(cu: seq<nat>, cv: seq<nat>, u: nat, v: nat): seq<nat>
    requires |cu| >= 1 && |cv| >= 1
  {
    [u] + cv[1..] + [v] + cu[1..]
  }

  function Relabel(root: seq<nat>, v: nat, u: nat): (root': seq<nat>)
    ensures |root'| == |root|
  {
    seq(|root|, i requires 0 <= i < |root| => if root[i] == v then u else root[i])
  }

  /** After relabelling `v`'s set to `u`, `u` owns both sets, `v` none, and
      every other representative keeps its members. */
  lemma RelabelMembers(root: seq<nat>, u: nat, v: nat, w: nat)
    requires u != v
    ensures MembersOf(Relabel(root, v, u), w) ==
              if w == u then MembersOf(root, u) + MembersOf(root, v)
              else if w == v then {} else MembersOf(root, w)
  {
  }

  lemma SpliceRing(next: seq<nat>, cu: seq<nat>, cv: seq<nat>, u: nat, v: nat)
    requires Ring(next, cu) && Ring(next, cv) && cu[0] == u && cv[0] == v
    requires forall i :: 0 <= i < |cu| ==> cu[i] !in cv
    requires u < |next| && v < |next|
    requires Distinct(cu) && Distinct(cv)
    ensures Ring(next[v := next[u]][u := next[v]], Splice(cu, cv, u, v))
  {
    var nx := next[v := next[u]][u := next[v]];
    var c := Splice(cu, cv, u, v);
    assert forall i :: 0 <= i < |cv| ==> cv[i] != u by { assert u == cu[0]; }
    assert forall i :: 1 <= i < |cv| ==> cv[i] != v;
    assert forall i :: 1 <= i < |cu| ==> cu[i] != u;
    assert forall i :: 0 <= i < |cu| ==> cu[i] != v by { assert v == cv[0]; }
    forall i | 0 <= i < |c| ensures c[i] < |nx| {
      if 1 <= i < |cv| { assert c[i] == cv[i]; }
      else if i > |cv| { assert c[i] == cu[i - |cv|]; }
    }
    forall i | 0 <= i < |c| - 1 ensures Step(nx, c, i) {
      if i == 0 {
        if |cv| > 1 { assert Step(next, cv, 0); }
      } else if i < |cv| - 1 {
        assert c[i] == cv[i] && c[i + 1] == cv[i + 1];
        assert Step(next, cv, i);
      } else if i == |cv| - 1 {
        assert c[i] == cv[i];
      } else if i == |cv| {
        if |cu| > 1 { assert Step(next, cu, 0); }
      } else {
        assert c[i] == cu[i - |cv|] && c[i + 1] == cu[i - |cv| + 1];
        assert Step(next, cu, i - |cv|);
      }
    }
    if |cu| > 1 {
      assert c[|c| - 1] == cu[|cu| - 1];
    }
  }

  lemma SpliceDistinct(cu: seq<nat>, cv: seq<nat>, u: nat, v: nat)
    requires |cu| >= 1 && |cv| >= 1 && cu[0] == u && cv[0] == v
    requires forall i :: 0 <= i < |cu| ==> cu[i] !in cv
    requires Distinct(cu) && Distinct(cv)
    ensures Distinct(Splice(cu, cv, u, v))
  {
    var c := Splice(cu, cv, u, v);
    assert c == [cu[0]] + cv[1..] + [cv[0]] + cu[1..];
    forall i, j | 0 <= i < j < |c| ensures c[i] != c[j] {
      // positions 1..|cv|-1 and |cv| come from cv, positions 0 and > |cv| from cu
      var fromV := (k: int) => 1 <= k <= |cv|;
      if fromV(i) && fromV(j) {
        var a := if i == |cv| then 0 else i;
        var b := if j == |cv| then 0 else j;
        assert c[i] == cv[a] && c[j] == cv[b];
      } else if !fromV(i) && !fromV(j) {
        var a := if i == 0 then 0 else i - |cv|;
        var b := j - |cv|;
        assert c[i] == cu[a] && c[j] == cu[b];
      } else if fromV(i) {
        var a := if i == |cv| then 0 else i;
        assert c[i] == cv[a] && c[j] == cu[j - |cv|];
      } else {
        var b := if j == |cv| then 0 else j;
        assert c[i] == cu[0] && c[j] == cv[b];
      }
    }
  }

  /** Parent array after root `v` is linked under root `u`. */
  function LinkParent(p: seq<int>, u: nat, v: nat): seq<int>
    requires u < |p| && v < |p|
  {
    p[u := p[u] + p[v]][v := u]
  }

  /** `next` after exchanging the successors of `u` and `v`. */
  function LinkNext(next: seq<nat>, u: nat, v: nat): seq<nat>
    requires u < |next| && v < |next|
  {
    next[v := next[u]][u := next[v]]
  }

  function LinkHeight(h: seq<nat>, u: nat, v: nat): seq<nat>
    requires u < |h| && v < |h|
  {
    h[u := if h[u] > h[v] then h[u] else h[v] + 1]
  }

  /** Roots `u` and `v` have disjoint cycles. */
  lemma CyclesDisjoint(p: seq<int>, next: seq<nat>, root: seq<nat>, cu: seq<nat>, cv: seq<nat>, u: nat, v: nat)
    requires u < |p| && v < |p| && u != v
    requires GroupOk(p, next, root, cu, u) && GroupOk(p, next, root, cv, v)
    ensures forall i :: 0 <= i < |cu| ==> cu[i] !in cv
  {
  }

  lemma LinkKeepsForest(p: seq<int>, root: seq<nat>, h: seq<nat>, u: nat, v: nat)
    requires ForestOf(p, root, h)
    requires u < |p| && v < |p| && u != v && p[u] < 0 && p[v] < 0
    ensures ForestOf(LinkParent(p, u, v), Relabel(root, v, u), LinkHeight(h, u, v))
    ensures Roots(LinkParent(p, u, v)) == Roots(p) - {v}
  {
    var p', root', h' := LinkParent(p, u, v), Relabel(root, v, u), LinkHeight(h, u, v);
    assert NodeOk(p, root, h, u) && NodeOk(p, root, h, v);
    forall x | 0 <= x < |p'| ensures NodeOk(p', root', h', x) {
      assert NodeOk(p, root, h, x);
    }
  }

  /** The merged root's cycle is the splice of the two old cycles. */
  lemma LinkGroupMerged(p: seq<int>, next: seq<nat>, root: seq<nat>, cu: seq<nat>, cv: seq<nat>, u: nat, v: nat)
    requires |next| == |p| == |root|
    requires u < |p| && v < |p| && u != v && p[u] < 0 && p[v] < 0
    requires GroupOk(p, next, root, cu, u) && GroupOk(p, next, root, cv, v)
    ensures GroupOk(LinkParent(p, u, v), LinkNext(next, u, v), Relabel(root, v, u), Splice(cu, cv, u, v), u)
  {
    var p', next', root' := LinkParent(p, u, v), LinkNext(next, u, v), Relabel(root, v, u);
    var c := Splice(cu, cv, u, v);
    CyclesDisjoint(p, next, root, cu, cv, u, v);
    SpliceRing(next, cu, cv, u, v);
    SpliceDistinct(cu, cv, u, v);
    assert |c| == |cu| + |cv|;
    forall i | 0 <= i < |c| ensures c[i] < |root'| && root'[c[i]] == u {
      if 1 <= i <= |cv| {
        var a := if i == |cv| then 0 else i;
        assert c[i] == cv[a];
      } else {
        var a := if i == 0 then 0 else i - |cv|;
        assert c[i] == cu[a];
      }
    }
    forall x | 0 <= x < |root'| && root'[x] == u ensures x in c {
      if root[x] == u {
        var a :| 0 <= a < |cu| && cu[a] == x;
        if a > 0 { assert c[a + |cv|] == x; } else { assert c[0] == x; }
      } else {
        var a :| 0 <= a < |cv| && cv[a] == x;
        if a > 0 { assert c[a] == x; } else { assert c[|cv|] == x; }
      }
    }
  }

  /** Any other root keeps its cycle: it holds neither `u` nor `v`. */
  lemma LinkGroupOther(p: seq<int>, next: seq<nat>, root: seq<nat>, cr: seq<nat>, r: nat, u: nat, v: nat)
    requires |next| == |p| == |root|
    requires u < |p| && v < |p| && r < |p| && r != u && r != v && u != v
    requires p[u] < 0 && p[v] < 0 && p[r] < 0
    requires GroupOk(p, next, root, cr, r) && root[u] == u && root[v] == v
    ensures GroupOk(LinkParent(p, u, v), LinkNext(next, u, v), Relabel(root, v, u), cr, r)
  {
    var next', root' := LinkNext(next, u, v), Relabel(root, v, u);
    forall i | 0 <= i < |cr| ensures cr[i] != u && cr[i] != v && root'[cr[i]] == r {
      assert root[cr[i]] == r;
    }
    forall i | 0 <= i < |cr| - 1 ensures Step(next', cr, i) {
      assert Step(next, cr, i);
    }
  }

  /** Linking root `v` under root `u` keeps forest and groups. */
  lemma LinkKeepsInvariant(p: seq<int>, next: seq<nat>, root: seq<nat>, h: seq<nat>,
                           cycle: seq<seq<nat>>, leaders: set<nat>, count: nat, u: nat, v: nat,
                           p': seq<int>, next': seq<nat>, root': seq<nat>, h': seq<nat>,
                           cycle': seq<seq<nat>>, leaders': set<nat>, count': int)
    requires Inv(p, next, root, h, cycle, leaders, count)
    requires u < |p| && v < |p| && u != v && p[u] < 0 && p[v] < 0
    requires p' == LinkParent(p, u, v) && next' == LinkNext(next, u, v)
    requires root' == Relabel(root, v, u) && h' == LinkHeight(h, u, v)
    requires cycle' == cycle[u := Splice(cycle[u], cycle[v], u, v)]
    requires leaders' == leaders - {v} && count' == count - 1
    ensures count' >= 0
    ensures Inv(p', next', root', h', cycle', leaders', count')
    ensures MembersOf(root', u) == MembersOf(root, u) + MembersOf(root, v)
  {
    assert v in Roots(p);
    LinkKeepsForest(p, root, h, u, v);
    assert NodeOk(p, root, h, u) && NodeOk(p, root, h, v);
    assert GroupOk(p, next, root, cycle[u], u) && GroupOk(p, next, root, cycle[v], v);
    forall r | 0 <= r < |p'| && p'[r] < 0 ensures GroupOk(p', next', root', cycle'[r], r) {
      if r == u {
        LinkGroupMerged(p, next, root, cycle[u], cycle[v], u, v);
      } else {
        assert GroupOk(p, next, root, cycle[r], r);
        LinkGroupOther(p, next, root, cycle[r], r, u, v);
      }
    }
  }

  /** The array writes of a link: `v` hangs under `u`, which takes `v`'s size,
      and the successors of `u` and `v` are exchanged. */
  method LinkArrays(parent: array<int>, next: array<nat>, u: nat, v: nat)
    requires u < parent.Length && v < parent.Length && u < next.Length && v < next.Length
    modifies parent, next
    ensures parent[..] == LinkParent(old(parent[..]), u, v)
    ensures next[..] == LinkNext(old(next[..]), u, v)
  {
    parent[u] := parent[u] + parent[v];
    parent[v] := u;
    next[v], next[u] := next[u], next[v];
  }

  class UnionFind {
    const numNodes: nat
    var setSize: nat
    var leaders: set<nat>
    var parent: array<int>
    var next: array<nat>

    /** The representative of each node's set. */
    ghost var root: seq<nat>
    /** Heights strictly increase along parent links: the links form a forest. */
    ghost var height: seq<nat>
    /** For each root, the members of its set in the order `next` visits them. */
    ghost var cycle: seq<seq<nat>>

    ghost predicate Valid()
      reads this, parent, next
    {
      && parent.Length == numNodes
      && Inv(parent[..], next[..], root, height, cycle, leaders, setSize)
    }

    /** The members of the set whose root is `r`. */
    ghost function Members(r: nat): set<nat>
      reads this
    {
      MembersOf(root, r)
    }

    constructor (n: nat)
      ensures Valid() && numNodes == n && setSize == n
      ensures fresh(parent) && fresh(next)
      ensures forall u :: 0 <= u < n ==> root[u] == u && Members(u) == {u}
    {
      numNodes := n;
      var ids := seq(n, i => i);
      leaders := set i | 0 <= i < |ids| :: ids[i];
      setSize := n;
      parent := new int[n](_ => -1);
      next := new nat[n](i => i);
      root := ids;
      height := seq(n, _ => 0);
      cycle := seq(n, i => [i]);
      new;
      assert Distinct(ids);
      DistinctCard(ids);
      assert leaders == Roots(parent[..]) by {
        forall x | x in Roots(parent[..]) ensures x in leaders { assert ids[x] == x; }
      }
      assert forall u | 0 <= u < n :: NodeOk(parent[..], root, height, u);
      forall r | 0 <= r < n ensures GroupOk(parent[..], next[..], root, cycle[r], r) {
        assert cycle[r] == [r];
      }
      forall u | 0 <= u < n ensures Members(u) == {u} {
        assert forall x :: x in Members(u) ==> x == u;
      }
    }

    /** How far `u` is below its root; parent links strictly reduce it. */
    ghost function Slack(u: nat): nat
      reads this, parent, next
      requires Valid() && u < numNodes
    {
      assert NodeOk(parent[..], root, height, u);
      height[root[u]] - height[u]
    }

    /** A root's set has as many members as its entry says. */
    lemma RootMembers(r: nat)
      requires Valid() && r < numNodes && parent[r] < 0
      ensures |Members(r)| == -parent[r]
    {
      assert GroupOk(parent[..], next[..], root, cycle[r], r);
      MembersCount(parent[..], next[..], root, cycle[r], r);
    }

    /** `find_root`: follows parent links to the root and points every node on
        the way straight at it. Sets, sizes, leaders and the ring are unchanged. */
    method FindRoot(u: nat) returns (r: nat)
      requires Valid() && u < numNodes
      modifies parent
      ensures Valid() && unchanged(this)
      ensures r == root[u] && r < numNodes && parent[r] < 0
      ensures parent[u] < 0 || parent[u] == r
      ensures forall x :: 0 <= x < numNodes && old(parent[x]) < 0 ==> parent[x] == old(parent[x])
      ensures forall x :: 0 <= x < numNodes && old(parent[x]) >= 0 ==> parent[x] >= 0
      decreases Slack(u)
    {
      assert NodeOk(parent[..], root, height, u);
      if parent[u] < 0 {
        r := u;
      } else {
        r := FindRoot(parent[u]);
        CompressKeepsInv(parent[..], next[..], root, height, cycle, leaders, setSize, u);
        parent[u] := r;
      }
    }

    /** `same`: whether `u` and `v` are in one set. */
    method Same(u: nat, v: nat) returns (b: bool)
      requires Valid() && u < numNodes && v < numNodes
      modifies parent
      ensures Valid() && unchanged(this)
      ensures b == (root[u] == root[v])
    {
      var ru := FindRoot(u);
      var rv := FindRoot(v);
      b := ru == rv;
    }

    /** `find`. */
    method Find(u: nat) returns (r: nat)
      requires Valid() && u < numNodes
      modifies parent
      ensures Valid() && unchanged(this)
      ensures r == root[u] && u in Members(r)
    {
      r := FindRoot(u);
    }

    /** `size`: number of members of `u`'s set, read off its root's entry. */
    method Size(u: nat) returns (s: nat)
      requires Valid() && u < numNodes
      modifies parent
      ensures Valid() && unchanged(this)
      ensures s == |Members(root[u])|
    {
      var p := FindRoot(u);
      RootMembers(p);
      s := -parent[p];
    }

    /** `group`: walks the ring of `u`'s set, starting at the root, once round. */
    method Group(u: nat) returns (g: seq<nat>)
      requires Valid() && u < numNodes
      modifies parent
      ensures Valid() && unchanged(this)
      ensures |g| == |Members(root[u])| >= 1 && g[0] == root[u]
      ensures forall i, j :: 0 <= i < j < |g| ==> g[i] != g[j]
      ensures forall x :: x in Members(root[u]) <==> x in g
    {
      var size := Size(u);
      var now := FindRoot(u);
      ghost var c := cycle[now];
      assert GroupOk(parent[..], next[..], root, c, now);
      MembersCount(parent[..], next[..], root, c, now);
      g := [];
      var k := 0;
      while k < size
        invariant 0 <= k <= size == |c|
        invariant g == c[..k]
        invariant k < size ==> now == c[k]
      {
        if k + 1 < size { assert Step(next[..], c, k); }
        g := g + [now];
        now := next[now];
        k := k + 1;
      }
      assert g == c;
    }

    /** Hangs root `v` under root `u`, adding `v`'s size to `u`'s entry and
        splicing the two rings by exchanging the successors of `u` and `v`. */
    method Link(u: nat, v: nat)
      requires Valid() && u < numNodes && v < numNodes && u != v
      requires parent[u] < 0 && parent[v] < 0
      modifies this, parent, next
      ensures Valid() && parent == old(parent) && next == old(next)
      ensures setSize == old(setSize) - 1
      ensures root == Relabel(old(root), v, u)
      ensures Members(u) == old(Members(u)) + old(Members(v))
    {
      ghost var p0, n0, root0, h0, cycle0, leaders0, count0 := parent[..], next[..], root, height, cycle, leaders, setSize;
      assert GroupOk(p0, n0, root0, cycle0[u], u) && GroupOk(p0, n0, root0, cycle0[v], v);
      assert v in Roots(p0);
      setSize, leaders := setSize - 1, leaders - {v};
      root, height := Relabel(root, v, u), LinkHeight(height, u, v);
      cycle := cycle[u := Splice(cycle[u], cycle[v], u, v)];
      LinkArrays(parent, next, u, v);
      LinkKeepsInvariant(p0, n0, root0, h0, cycle0, leaders0, count0, u, v,
                         parent[..], next[..], root, height, cycle, leaders, setSize);
    }

    /** `union`: joins the sets of `u` and `v`; the root of the larger set (of
        `u` on a tie) becomes the root of the union, whose size is the sum. */
    method Union(u0: nat, v0: nat) returns (merged: bool)
      requires Valid() && u0 < numNodes && v0 < numNodes
      modifies this, parent, next
      ensures Valid() && parent == old(parent) && next == old(next)
      ensures merged == (old(root[u0]) != old(root[v0]))
      ensures !merged ==> root == old(root) && setSize == old(setSize) && leaders == old(leaders)
      ensures merged ==> setSize == old(setSize) - 1 && root[u0] == root[v0]
      ensures merged ==> forall x :: 0 <= x < numNodes ==>
                root[x] == (if old(root[x]) == old(root[u0]) || old(root[x]) == old(root[v0])
                            then root[u0] else old(root[x]))
      ensures merged ==> root[u0] == (if old(|Members(root[u0])|) >= old(|Members(root[v0])|)
                                      then old(root[u0]) else old(root[v0]))
      ensures merged ==> |Members(root[u0])| == old(|Members(root[u0])|) + old(|Members(root[v0])|)
    {
      var u := FindRoot(u0);
      var v := FindRoot(v0);
      if u == v {
        return false;
      }
      RootMembers(u);
      RootMembers(v);
      assert MembersOf(root, u) !! MembersOf(root, v);
      if parent[u] > parent[v] {
        u, v := v, u;
      }
      Link(u, v);
      merged := true;
    }
  }
}
