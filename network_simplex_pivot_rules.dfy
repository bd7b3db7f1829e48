/** The pivot rules a network simplex driver asks for its entering edge.
    Each rule scans the edges' violations, the amounts by which their reduced
    costs break optimality for their state; the violation callback is
    modelled as the sequence of its values, one per edge, which is all a
    single call of `find_entering_edge` can observe. An edge is eligible
    when its violation is positive. */
module NetworkSimplexPivotRules {
  import opened Wrappers

  /** The `p`-th edge of a cyclic scan over `m` edges from `start`, for a
      scan of at most one full turn. */
  function Pos(start: nat, p: nat, m: nat): (e: nat)
    requires start < m && p <= m
    ensures e < m && (p < m ==> (e >= start <==> p < m - start))
  {
    if start + p < m then start + p else start + p - m
  }

  /** A scan position moves on by one, wrapping from `m - 1` to 0. */
  lemma PosNext(start: nat, p: nat, m: nat)
    requires start < m && p < m
    ensures (if Pos(start, p, m) + 1 == m then 0 else Pos(start, p, m) + 1) == Pos(start, p + 1, m)
  {
  }

  /** Position `p` holds the first largest violation among the first `k`
      positions of the scan from `start`, and it is positive. */
  ghost predicate BestIn(v: seq<int>, start: nat, k: nat, p: nat)
    requires |v| > 0 && start < |v| && k <= |v|
  {
    p < k && v[Pos(start, p, |v|)] > 0 &&
    (forall q :: 0 <= q < k ==> v[Pos(start, q, |v|)] <= v[Pos(start, p, |v|)]) &&
    (forall q :: 0 <= q < p ==> v[Pos(start, q, |v|)] < v[Pos(start, p, |v|)])
  }

  /** `BestEligibleArcPivotRule::find_entering_edge`: the first edge of
      largest positive violation, or `None` when no edge is eligible. The
      rule keeps no state, so it is a plain method. */
  method FindBestEligibleArc(v: seq<int>) returns (r: Option<nat>)
    ensures r.None? <==> forall e :: 0 <= e < |v| ==> v[e] <= 0
    ensures r.Some? ==> r.value < |v| && v[r.value] > 0
    ensures r.Some? ==> forall e :: 0 <= e < |v| ==> v[e] <= v[r.value]
    ensures r.Some? ==> forall e :: 0 <= e < r.value ==> v[e] < v[r.value]
  {
    var maxi := 0;
    r := None;
    for e := 0 to |v|
      invariant r.None? ==> maxi == 0 && forall f :: 0 <= f < e ==> v[f] <= 0
      invariant r.Some? ==> r.value < e && maxi == v[r.value] > 0
      invariant r.Some? ==> forall f :: 0 <= f < e ==> v[f] <= maxi
      invariant r.Some? ==> forall f :: 0 <= f < r.value ==> v[f] < maxi
    {
      if v[e] > maxi {
        maxi := v[e];
        r := Some(e);
      }
    }
  }

  /** `FirstEligibleArcPivotRule`: a cursor that resumes where the last
      entering edge was found. */
  class FirstEligibleArc {
    var current: nat

    /** A fresh rule starts at edge 0. */
    constructor ()
      ensures current == 0
    {
      current := 0;
    }

    /** `clear`: back to edge 0. */
    method Clear()
      modifies this
      ensures current == 0
    {
      current := 0;
    }

    /** `find_entering_edge`: the first eligible edge in cyclic order from the
        cursor, which is left on it; `None`, with the cursor back where it
        was after one full turn, when no edge is eligible. The cursor must
        name an edge, as `find_entering_edge` indexes with it. */
    method FindEnteringEdge(v: seq<int>) returns (r: Option<nat>)
      requires |v| == 0 || current < |v|
      modifies this
      ensures r.None? <==> forall e :: 0 <= e < |v| ==> v[e] <= 0
      ensures r.None? ==> current == old(current)
      ensures r.Some? ==> r.value == current < |v| && v[r.value] > 0
      ensures r.Some? ==>
                exists p {:trigger Pos(old(current), p, |v|)} ::
                  0 <= p < |v| && r.value == Pos(old(current), p, |v|) &&
                  (forall q :: 0 <= q < p ==> v[Pos(old(current), q, |v|)] <= 0)
    {
      var m := |v|;
      ghost var start := current;
      for i := 0 to m
        invariant if m > 0 then current == Pos(start, i, m) else current == start
        invariant forall q :: 0 <= q < i ==> v[Pos(start, q, m)] <= 0
      {
        if v[current] > 0 {
          return Some(current);
        }
        PosNext(start, i, m);
        current := current + 1;
        if current == m {
          current := 0;
        }
      }
      if m > 0 {
        Covers(v, start);
      }
      return None;
    }
  }

  /** `BlockSearchPivotRule`: the cursor scans blocks of `blockSize`
      edges and stops at the end of the first block in which an eligible
      edge has been seen, returning the best edge seen since the call began. */
  class BlockSearch {
    var current: nat
    var blockSize: nat
    var initialized: bool

    /** `default`: block size 64, to be set by `initialize`. */
    constructor ()
      ensures current == 0 && blockSize == 64 && !initialized
    {
      current, blockSize, initialized := 0, 64, false;
    }

    /** `new_with_parameter`: the block size is the larger of the minimum and
        the scaled square root of the edge count, here the input `scaled`. */
    constructor WithParameter(minBlockSize: nat, scaled: nat)
      requires minBlockSize > 0
      ensures current == 0 && initialized
      ensures blockSize >= minBlockSize && blockSize >= scaled && (blockSize == minBlockSize || blockSize == scaled)
    {
      current := 0;
      blockSize := if minBlockSize >= scaled then minBlockSize else scaled;
      initialized := true;
    }

    /** `initialize`: nothing once initialized; otherwise the cursor goes to
        edge 0 and the block size becomes the larger of 10 and the square root
        of the edge count, here the input `sqrtEdges`. */
    method Initialize(sqrtEdges: nat)
      modifies this
      ensures old(initialized) ==> current == old(current) && blockSize == old(blockSize)
      ensures !old(initialized) ==> current == 0 && blockSize == (if sqrtEdges <= 10 then 10 else sqrtEdges)
      ensures initialized
    {
      if initialized {
        return;
      }
      current := 0;
      blockSize := if sqrtEdges <= 10 then 10 else sqrtEdges;
      initialized := true;
    }

    /** `clear`: cursor and block size back to 0, not initialized. */
    method Clear()
      modifies this
      ensures current == 0 && blockSize == 0 && !initialized
    {
      current, blockSize, initialized := 0, 0, false;
    }

    /** The state of a block scan from `start` after `i` steps: the cursor
        on the next edge; `count` steps left in the current block, which
        began at `cleared`, a whole number of blocks in; nothing eligible
        before `cleared`; and `r` the first best edge of the first `i`,
        found at step `at`, with violation `maxi`, or `None` with `maxi` 0
        when none of them is eligible. */
    ghost predicate Scanning(v: seq<int>, start: nat, i: nat, count: nat, cleared: nat,
                             r: Option<nat>, maxi: int, at: nat)
      reads this
    {
      |v| > 0 && start < |v| && i <= |v| && blockSize > 0 &&
      current == Pos(start, i, |v|) && Aligned(cleared, blockSize) &&
      count == blockSize - (i - cleared) && cleared <= i < cleared + blockSize &&
      (forall q :: 0 <= q < cleared ==> v[Pos(start, q, |v|)] <= 0) &&
      (r.None? ==> maxi == 0 && forall q :: 0 <= q < i ==> v[Pos(start, q, |v|)] <= 0) &&
      (r.Some? ==> BestIn(v, start, i, at) && r.value == Pos(start, at, |v|) && maxi == v[r.value])
    }

    /** One step of the scan: the edge under the cursor is weighed; at the
        end of a block the scan stops if it has seen an eligible edge, and
        otherwise the cursor moves on. */
    method ScanStep(v: seq<int>, ghost start: nat, ghost i: nat, count0: nat, ghost cleared0: nat,
                    r0: Option<nat>, maxi0: int, ghost at0: nat)
      returns (stop: bool, count: nat, ghost cleared: nat, r: Option<nat>, maxi: int, ghost at: nat)
      requires i < |v| && Scanning(v, start, i, count0, cleared0, r0, maxi0, at0)
      modifies this
      ensures blockSize == old(blockSize) && initialized == old(initialized)
      ensures stop ==> r.Some? && current == old(current) && i + 1 == cleared + blockSize &&
                       BestIn(v, start, i + 1, at) && r.value == Pos(start, at, |v|) &&
                       Aligned(cleared, blockSize) && forall q :: 0 <= q < cleared ==> v[Pos(start, q, |v|)] <= 0
      ensures !stop ==> Scanning(v, start, i + 1, count, cleared, r, maxi, at)
    {
      var x := v[current];
      r, maxi, at := r0, maxi0, at0;
      if x > maxi {
        maxi, r, at := x, Some(current), i;
      }
      count, cleared := count0 - 1, cleared0;
      if count == 0 {
        if r.Some? {
          return true, count, cleared, r, maxi, at;
        }
        count := blockSize;
        AlignedNext(cleared, blockSize);
        cleared := cleared + blockSize;
      }
      PosNext(start, i, |v|);
      current := current + 1;
      if current == |v| {
        current := 0;
      }
      stop := false;
    }

    /** `find_entering_edge`: `None` exactly when no edge is eligible.
        Otherwise the scan, `scanned` edges long, ended either at the end of
        its first block holding an eligible edge, the cursor left on its last
        edge, or after a full turn, the cursor back where it started; the
        first `cleared` edges, whole blocks, held no eligible edge, and the
        answer is the first best edge of the scan. The cursor must name an
        edge and the block size be positive, as `find_entering_edge` indexes with the
        one and counts down the other. */
    method FindEnteringEdge(v: seq<int>) returns (r: Option<nat>, ghost scanned: nat, ghost cleared: nat)
      requires |v| == 0 || (current < |v| && blockSize > 0)
      modifies this
      ensures blockSize == old(blockSize) && initialized == old(initialized)
      ensures r.None? <==> forall e :: 0 <= e < |v| ==> v[e] <= 0
      ensures |v| == 0 ==> current == old(current)
      ensures |v| > 0 ==> current < |v| && 0 < scanned <= |v| && cleared <= scanned <= cleared + blockSize
      ensures |v| > 0 ==> Aligned(cleared, blockSize)
      ensures |v| > 0 ==> forall q :: 0 <= q < cleared ==> v[Pos(old(current), q, |v|)] <= 0
      ensures |v| > 0 ==>
                current == if r.Some? && scanned == cleared + blockSize
                           then Pos(old(current), scanned - 1, |v|) else old(current)
      ensures r.Some? ==> scanned == |v| || scanned == cleared + blockSize
      ensures r.Some? ==>
                r.value < |v| &&
                exists p {:trigger BestIn(v, old(current), scanned, p)} ::
                  BestIn(v, old(current), scanned, p) && r.value == Pos(old(current), p, |v|)
    {
      var m := |v|;
      if m == 0 {
        return None, 0, 0;
      }
      ghost var start := current;
      var maxi := 0;
      var count := blockSize;
      ghost var at := 0;
      r, scanned, cleared := None, 0, 0;
      assert Aligned(0, blockSize) by {
        assert 0 == 0 * blockSize;
      }
      for i := 0 to m
        invariant Scanning(v, start, i, count, cleared, r, maxi, at)
        invariant blockSize == old(blockSize) && initialized == old(initialized)
      {
        var stop;
        stop, count, cleared, r, maxi, at := ScanStep(v, start, i, count, cleared, r, maxi, at);
        if stop {
          scanned := i + 1;
          assert BestIn(v, start, scanned, at);
          return;
        }
      }
      scanned := m;
      if r.None? {
        Covers(v, start);
      } else {
        assert BestIn(v, start, scanned, at);
      }
    }
  }

  /** `c` is a whole number of blocks of size `b`. */
  ghost predicate Aligned(c: nat, b: nat)
  {
    exists j: nat :: c == j * b
  }

  /** One more block keeps a count aligned. */
  lemma AlignedNext(c: nat, b: nat)
    requires Aligned(c, b)
    ensures Aligned(c + b, b)
  {
    var j: nat :| c == j * b;
    assert c + b == (j + 1) * b;
  }

  /** A full cyclic scan visits every edge. */
  lemma Covers(v: seq<int>, start: nat)
    requires |v| > 0 && start < |v|
    requires forall q :: 0 <= q < |v| ==> v[Pos(start, q, |v|)] <= 0
    ensures forall e :: 0 <= e < |v| ==> v[e] <= 0
  {
    var m := |v|;
    forall e | 0 <= e < m
      ensures v[e] <= 0
    {
      var q := if start <= e then e - start else e + m - start;
      assert Pos(start, q, m) == e;
    }
  }
}
