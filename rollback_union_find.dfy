/** Union-find with union by size and no path compression, whose unions can be
    undone: every successful `join` pushes the overwritten parent entry of the
    child root onto a history stack, and `rollback(t)` pops back to length `t`. */
module RollbackUnionFind {
  import opened UnionFind

  /** Every root's entry holds minus the number of its members. */
  ghost predicate SizesOk(p: seq<int>, root: seq<nat>)
  {
    forall r :: 0 <= r < |p| && p[r] < 0 ==> |MembersOf(root, r)| == -p[r]
  }

  /** A forest with its representatives, heights and sizes. */
  ghost predicate State(p: seq<int>, root: seq<nat>, h: seq<nat>)
  {
    ForestOf(p, root, h) && SizesOk(p, root)
  }

  /** History entry `e` records linking root `y` under root `x`, which turned
      parent array `s` into `s'`; `e` holds `y` and its overwritten entry. */
  ghost predicate LinkStep(e: (nat, int), s: seq<int>, s': seq<int>)
  {
    var (y, old_) := e;
    && y < |s| && |s'| == |s| && 0 <= s'[y] < |s|
    && var x := s'[y];
       x != y && s[x] < 0 && s[y] < 0 && old_ == s[y] && s' == LinkParent(s, x, y)
  }

  /** Linking root `y` under root `x` keeps a forest with correct sizes. */
  lemma LinkKeepsState(s: seq<int>, rt: seq<nat>, h: seq<nat>, x: nat, y: nat)
    requires State(s, rt, h) && x < |s| && y < |s| && x != y && s[x] < 0 && s[y] < 0
    ensures State(LinkParent(s, x, y), Relabel(rt, y, x), LinkHeight(h, x, y))
    ensures MembersOf(Relabel(rt, y, x), x) == MembersOf(rt, x) + MembersOf(rt, y)
    ensures |MembersOf(Relabel(rt, y, x), x)| == |MembersOf(rt, x)| + |MembersOf(rt, y)|
  {
    LinkKeepsForest(s, rt, h, x, y);
    var rt' := Relabel(rt, y, x);
    var s' := LinkParent(s, x, y);
    assert NodeOk(s, rt, h, x) && NodeOk(s, rt, h, y);
    assert MembersOf(rt, x) !! MembersOf(rt, y);
    forall r | 0 <= r < |s'| && s'[r] < 0 ensures |MembersOf(rt', r)| == -s'[r] {
      RelabelMembers(rt, x, y, r);
    }
    RelabelMembers(rt, x, y, x);
  }

  class RollbackUnionFind {
    var p: array<int>
    var hist: seq<(nat, int)>

    /** `snaps[k]` is the parent array when the history had length `k`. */
    ghost var snaps: seq<seq<int>>
    ghost var roots: seq<seq<nat>>
    ghost var heights: seq<seq<nat>>

    ghost predicate Valid()
      reads this, p
    {
      && |snaps| == |roots| == |heights| == |hist| + 1
      && snaps[|hist|] == p[..]
      && (forall k :: 0 <= k < |snaps| ==> State(snaps[k], roots[k], heights[k]))
      && (forall k :: 0 <= k < |snaps| ==> |snaps[k]| == p.Length)
      && (forall k :: 0 <= k < |hist| ==> LinkStep(hist[k], snaps[k], snaps[k + 1]))
    }

    /** Representative of `u` in the current forest. */
    ghost function Root(u: nat): nat
      reads this
      requires |roots| > 0 && u < |roots[|roots| - 1]|
    {
      roots[|roots| - 1][u]
    }

    ghost function Members(r: nat): set<nat>
      reads this
      requires |roots| > 0
    {
      MembersOf(roots[|roots| - 1], r)
    }

    constructor (n: nat)
      ensures Valid() && fresh(p) && hist == []
      ensures p[..] == seq(n, _ => -1)
      ensures forall u :: 0 <= u < n ==> Root(u) == u && Members(u) == {u}
    {
      p := new int[n](_ => -1);
      hist := [];
      var ids := seq(n, i => i);
      snaps := [seq(n, _ => -1)];
      roots := [ids];
      heights := [seq(n, _ => 0)];
      new;
      forall r | 0 <= r < n ensures MembersOf(ids, r) == {r} {
        assert forall x :: x in MembersOf(ids, r) ==> x == r;
      }
      assert forall u | 0 <= u < n :: NodeOk(snaps[0], ids, heights[0], u);
    }

    /** `find`: follows parent links to the root without changing anything. */
    method Find(v0: nat) returns (r: nat)
      requires Valid() && v0 < p.Length
      ensures r == Root(v0) && r < p.Length && p[r] < 0
    {
      ghost var s, rt, h := snaps[|hist|], roots[|hist|], heights[|hist|];
      assert State(s, rt, h);
      var v: nat := v0;
      assert NodeOk(s, rt, h, v);
      while p[v] >= 0
        invariant v < p.Length && rt[v] == rt[v0] && NodeOk(s, rt, h, v)
        decreases h[rt[v]] - h[v]
      {
        v := p[v];
        assert NodeOk(s, rt, h, v);
      }
      r := v;
    }

    /** `same`. */
    method Same(a: nat, b: nat) returns (same: bool)
      requires Valid() && a < p.Length && b < p.Length
      ensures same == (Root(a) == Root(b))
    {
      var ra := Find(a);
      var rb := Find(b);
      same := ra == rb;
    }

    /** `time`: the number of joins that have not been rolled back. */
    method Time() returns (t: nat)
      requires Valid()
      ensures t == |hist| == |snaps| - 1
    {
      t := |hist|;
    }

    /** Hangs root `y` under root `x` and pushes `y`'s old entry. */
    method Link(x: nat, y: nat)
      requires Valid() && x < p.Length && y < p.Length && x != y && p[x] < 0 && p[y] < 0
      modifies this, p
      ensures Valid() && p == old(p)
      ensures hist == old(hist) + [(y, old(p[y]))]
      ensures snaps == old(snaps) + [p[..]]
      ensures roots == old(roots) + [Relabel(old(roots[|hist|]), y, x)]
      ensures Members(x) == old(Members(x)) + old(Members(y))
      ensures |Members(x)| == old(|Members(x)|) + old(|Members(y)|)
    {
      ghost var s, rt, h := snaps[|hist|], roots[|hist|], heights[|hist|];
      assert State(s, rt, h);
      LinkKeepsState(s, rt, h, x, y);
      hist := hist + [(y, p[y])];
      p[x] := p[x] + p[y];
      p[y] := x;
      snaps := snaps + [p[..]];
      roots := roots + [Relabel(rt, y, x)];
      heights := heights + [LinkHeight(h, x, y)];
      assert p[..] == LinkParent(s, x, y);
      assert LinkStep(hist[|hist| - 1], snaps[|hist| - 1], snaps[|hist|]);
    }

    /** `join`: links the smaller set's root under the larger one's (the root of
        `a` on a tie) and records the child root's old entry. */
    method Join(a: nat, b: nat) returns (joined: bool)
      requires Valid() && a < p.Length && b < p.Length
      modifies this, p
      ensures Valid() && p == old(p)
      ensures joined == (old(Root(a)) != old(Root(b)))
      ensures !joined ==> hist == old(hist) && p[..] == old(p[..]) && snaps == old(snaps)
      ensures !joined ==> roots == old(roots)
      ensures joined ==> |hist| == old(|hist|) + 1 && hist[..old(|hist|)] == old(hist)
      ensures joined ==> snaps == old(snaps) + [p[..]]
      ensures joined ==> Root(a) == Root(b)
      ensures joined ==> forall x :: 0 <= x < p.Length ==>
                Root(x) == (if old(Root(x)) == old(Root(a)) || old(Root(x)) == old(Root(b))
                            then Root(a) else old(Root(x)))
      ensures joined ==> Root(a) == (if old(|Members(Root(a))|) >= old(|Members(Root(b))|)
                                     then old(Root(a)) else old(Root(b)))
      ensures joined ==> |Members(Root(a))| == old(|Members(Root(a))|) + old(|Members(Root(b))|)
    {
      var x := Find(a);
      var y := Find(b);
      if x == y {
        return false;
      }
      ghost var s, rt, h := snaps[|hist|], roots[|hist|], heights[|hist|];
      assert State(s, rt, h);
      assert s[x] == p[x] && s[y] == p[y];
      assert NodeOk(s, rt, h, x) && NodeOk(s, rt, h, y);
      assert |MembersOf(rt, x)| == -p[x] && |MembersOf(rt, y)| == -p[y];
      if p[x] > p[y] {
        x, y := y, x;
      }
      Link(x, y);
      joined := true;
    }

    /** `rollback(t)`: undoes joins until the history has length `t`; the
        parent array is then the one recorded at time `t`. */
    method Rollback(t: nat)
      requires Valid()
      modifies this, p
      ensures Valid() && p == old(p)
      ensures t >= old(|hist|) ==> hist == old(hist) && p[..] == old(p[..]) && snaps == old(snaps)
      ensures t < old(|hist|) ==> hist == old(hist[..t]) && snaps == old(snaps[..t + 1])
      ensures t < old(|hist|) ==> p[..] == old(snaps[t])
      ensures roots == old(roots)[..|hist| + 1]
    {
      while |hist| > t
        invariant Valid() && p == old(p)
        invariant |hist| <= old(|hist|) && (t < old(|hist|) ==> t <= |hist|)
        invariant hist == old(hist)[..|hist|] && snaps == old(snaps)[..|hist| + 1]
        invariant roots == old(roots)[..|hist| + 1]
        invariant t >= old(|hist|) ==> hist == old(hist) && p[..] == old(p[..])
      {
        var k := |hist| - 1;
        assert LinkStep(hist[k], snaps[k], snaps[k + 1]);
        var (v, old_) := hist[k];
        hist := hist[..k];
        var q := p[v];
        p[q] := p[q] - old_;
        p[v] := old_;
        assert p[..] == snaps[k];
        snaps := snaps[..k + 1];
        roots := roots[..k + 1];
        heights := heights[..k + 1];
      }
    }
  }
}
