/** Sums of integer sequences, used wherever the Rust code folds `+` over a
    slice, and the counting facts the proofs about them need. */
module Sums {

  /** Sum of `s`, peeling off the last element so that a left-to-right loop can
      keep `acc == Sum(s[..i])`. */
  function Sum(s: seq<int>): int
  {
    if |s| == 0 then 0 else Sum(s[..|s| - 1]) + s[|s| - 1]
  }

  lemma {:induction false} SumAppend(s: seq<int>, x: int)
    ensures Sum(s + [x]) == Sum(s) + x
  {
    assert (s + [x])[..|s + [x]| - 1] == s;
  }

  lemma {:induction false} SumConcat(s: seq<int>, t: seq<int>)
    ensures Sum(s + t) == Sum(s) + Sum(t)
    decreases |t|
  {
    if |t| == 0 {
      assert s + t == s;
    } else {
      var t' := t[..|t| - 1];
      assert s + t == (s + t') + [t[|t| - 1]];
      SumAppend(s + t', t[|t| - 1]);
      SumConcat(s, t');
      assert t == t' + [t[|t| - 1]];
      SumAppend(t', t[|t| - 1]);
    }
  }

  /** Changing one entry changes the sum by the difference. */
  lemma SumUpdate(s: seq<int>, i: int, v: int)
    requires 0 <= i < |s|
    ensures Sum(s[i := v]) == Sum(s) - s[i] + v
  {
    assert s == s[..i] + [s[i]] + s[i + 1..];
    assert s[i := v] == s[..i] + [v] + s[i + 1..];
    SumConcat(s[..i] + [s[i]], s[i + 1..]);
    SumConcat(s[..i], [s[i]]);
    SumConcat(s[..i] + [v], s[i + 1..]);
    SumConcat(s[..i], [v]);
    assert Sum([s[i]]) == s[i] by { assert [s[i]][..0] == []; }
    assert Sum([v]) == v by { assert [v][..0] == []; }
  }

  /** Moving `x` from entry `u` to entry `v` keeps the sum. */
  lemma SumMove(s: seq<int>, u: nat, v: nat, x: int)
    requires u < |s| && v < |s|
    ensures Sum(s[u := s[u] - x][v := s[u := s[u] - x][v] + x]) == Sum(s)
  {
    var s1 := s[u := s[u] - x];
    SumUpdate(s, u, s[u] - x);
    SumUpdate(s1, v, s1[v] + x);
  }

  /** A sum of entries that are all zero is zero. */
  lemma {:induction false} SumZeros(s: seq<int>)
    requires forall i :: 0 <= i < |s| ==> s[i] == 0
    ensures Sum(s) == 0
  {
    if |s| > 0 { SumZeros(s[..|s| - 1]); }
  }

  /** Sum of the slice `s[lo..hi]`: the arcs of one node in a CSR layout. */
  function SumRange(s: seq<int>, lo: int, hi: int): int
    requires 0 <= lo <= hi <= |s|
  {
    Sum(s[lo..hi])
  }

  /** Changing entry `i` changes a range sum only when `i` lies in the range. */
  lemma SumRangeUpdate(s: seq<int>, lo: int, hi: int, i: int, v: int)
    requires 0 <= lo <= hi <= |s| && 0 <= i < |s|
    ensures SumRange(s[i := v], lo, hi)
         == SumRange(s, lo, hi) + (if lo <= i < hi then v - s[i] else 0)
  {
    if lo <= i < hi {
      assert s[i := v][lo..hi] == s[lo..hi][i - lo := v];
      SumUpdate(s[lo..hi], i - lo, v);
    } else {
      assert s[i := v][lo..hi] == s[lo..hi];
    }
  }

  /** Sum of the positive entries (`filter(e > 0).fold(+)`). */
  function PositivePart(s: seq<int>): int
  {
    if |s| == 0 then 0
    else PositivePart(s[..|s| - 1]) + (if s[|s| - 1] > 0 then s[|s| - 1] else 0)
  }

  /** Sum of the negative entries (`filter(e < 0).fold(+)`). */
  function NegativePart(s: seq<int>): int
  {
    if |s| == 0 then 0
    else NegativePart(s[..|s| - 1]) + (if s[|s| - 1] < 0 then s[|s| - 1] else 0)
  }

  /** The sum splits into its positive and negative parts. */
  lemma {:induction false} SumSplitsBySign(s: seq<int>)
    ensures Sum(s) == PositivePart(s) + NegativePart(s)
    ensures PositivePart(s) >= 0 && NegativePart(s) <= 0
  {
    if |s| > 0 { SumSplitsBySign(s[..|s| - 1]); }
  }

  /** Entrywise sums add up. */
  lemma {:induction false} SumPlus(a: seq<int>, b: seq<int>, c: seq<int>)
    requires |a| == |b| == |c| && forall i :: 0 <= i < |a| ==> a[i] == b[i] + c[i]
    ensures Sum(a) == Sum(b) + Sum(c)
  {
    if |a| > 0 {
      var m := |a| - 1;
      SumPlus(a[..m], b[..m], c[..m]);
    }
  }

  /** The members below `m` of `group`, each carrying the value `h` of its
      group when it is the group's representative `rep`, and 0 otherwise. */
  function AtReps(group: seq<nat>, rep: seq<nat>, h: seq<int>, m: nat): (r: seq<int>)
    requires m <= |group| && |rep| == |h| && forall t :: 0 <= t < |group| ==> group[t] < |h|
    ensures |r| == m
  {
    seq(m, t requires 0 <= t < m => if rep[group[t]] == t then h[group[t]] else 0)
  }

  /** `h` restricted to the groups whose representative is below `m`. */
  function RepsBelow(rep: seq<nat>, h: seq<int>, m: nat): (r: seq<int>)
    requires |rep| == |h|
    ensures |r| == |h|
  {
    seq(|h|, c requires 0 <= c < |h| => if rep[c] < m then h[c] else 0)
  }

  /** Summing over the members at their representatives the values of their
      groups is summing the values of the groups. */
  lemma Regroup(group: seq<nat>, rep: seq<nat>, h: seq<int>)
    requires |rep| == |h| && forall t :: 0 <= t < |group| ==> group[t] < |h|
    requires forall c :: 0 <= c < |h| ==> rep[c] < |group| && group[rep[c]] == c
    ensures Sum(AtReps(group, rep, h, |group|)) == Sum(h)
  {
    RegroupBelow(group, rep, h, |group|);
    assert RepsBelow(rep, h, |group|) == h;
  }

  lemma {:induction false} RegroupBelow(group: seq<nat>, rep: seq<nat>, h: seq<int>, m: nat)
    requires m <= |group| && |rep| == |h| && forall t :: 0 <= t < |group| ==> group[t] < |h|
    requires forall c :: 0 <= c < |h| ==> rep[c] < |group| && group[rep[c]] == c
    ensures Sum(AtReps(group, rep, h, m)) == Sum(RepsBelow(rep, h, m))
  {
    if m == 0 {
      SumZeros(AtReps(group, rep, h, 0));
      SumZeros(RepsBelow(rep, h, 0));
    } else {
      var t := m - 1;
      RegroupBelow(group, rep, h, t);
      var a := AtReps(group, rep, h, m);
      assert a[..t] == AtReps(group, rep, h, t);
      var g := group[t];
      var below := RepsBelow(rep, h, t);
      if rep[g] == t {
        assert RepsBelow(rep, h, m) == below[g := h[g]];
        SumUpdate(below, g, h[g]);
      } else {
        assert RepsBelow(rep, h, m) == below;
      }
    }
  }

  /** A sequence of distinct values below `b` has at most `b` entries. */
  lemma {:induction false} InjectiveBound(f: seq<nat>, b: nat)
    requires forall k :: 0 <= k < |f| ==> f[k] < b
    requires forall j, k :: 0 <= j < k < |f| ==> f[j] != f[k]
    ensures |f| <= b
    decreases |f|
  {
    if |f| > 0 {
      var n := |f| - 1;
      var c := f[n];
      var g := seq(n, i requires 0 <= i < n => if f[i] == b - 1 then c else f[i]);
      forall j, k | 0 <= j < k < n
        ensures g[j] != g[k]
      {
        assert f[j] != f[k] && f[j] != c && f[k] != c;
      }
      forall k | 0 <= k < n
        ensures g[k] < b - 1
      {
        assert f[k] != c;
      }
      InjectiveBound(g, b - 1);
    }
  }

  /** Number of unvisited nodes: what each depth-first step uses up. */
  function Unvisited(v: seq<bool>): nat
  {
    if |v| == 0 then 0 else Unvisited(v[..|v| - 1]) + (if v[|v| - 1] then 0 else 1)
  }

  /** Visiting more nodes never raises the count, and marking a node that
      was unvisited lowers it. */
  lemma {:induction false} UnvisitedShrinks(v: seq<bool>, w: seq<bool>, u: nat)
    requires |v| == |w| && forall x :: 0 <= x < |v| && v[x] ==> w[x]
    ensures Unvisited(w) <= Unvisited(v)
    ensures u < |v| && !v[u] && w[u] ==> Unvisited(w) < Unvisited(v)
    decreases |v|
  {
    if |v| > 0 {
      UnvisitedShrinks(v[..|v| - 1], w[..|w| - 1], u);
    }
  }

  lemma {:induction false} UnvisitedNone(n: nat)
    ensures Unvisited(seq(n, _ => false)) == n
  {
    if n > 0 {
      UnvisitedNone(n - 1);
      assert seq(n, _ => false)[..n - 1] == seq(n - 1, _ => false);
    }
  }

  /** Marking one unvisited node lowers the count by exactly one. */
  lemma {:induction false} UnvisitedMark(v: seq<bool>, u: nat)
    requires u < |v| && !v[u]
    ensures Unvisited(v[u := true]) == Unvisited(v) - 1
    decreases |v|
  {
    var w := v[u := true];
    assert w[..|w| - 1] == if u < |v| - 1 then v[..|v| - 1][u := true] else v[..|v| - 1];
    if u < |v| - 1 {
      UnvisitedMark(v[..|v| - 1], u);
    }
  }
}
