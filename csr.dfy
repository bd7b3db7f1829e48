/** Compressed adjacency ("CSR") layout shared by the residual networks and
    the shortest-path graph: items with keys `keys[0], keys[1], ...` are laid
    out grouped by key, key `x`'s group starting at the number of items with
    smaller keys, and inside a group in the order the items come. */
module Csr {

  /** Number of items with key `x`. */
  function Count(keys: seq<nat>, x: nat): nat
  {
    if |keys| == 0 then 0
    else Count(keys[..|keys| - 1], x) + (if keys[|keys| - 1] == x then 1 else 0)
  }

  /** Number of items whose key is below `x`: where key `x`'s group starts. */
  function Start(keys: seq<nat>, x: nat): nat
  {
    if x == 0 then 0 else Start(keys, x - 1) + Count(keys, x - 1)
  }

  /** The slot item `p` is placed in: its group's start plus the number of
      earlier items with the same key. */
  function Slot(keys: seq<nat>, p: nat): nat
    requires p < |keys|
  {
    Start(keys, keys[p]) + Count(keys[..p], keys[p])
  }

  lemma CountPrefix(keys: seq<nat>, p: nat, x: nat)
    requires p < |keys|
    ensures Count(keys[..p + 1], x) == Count(keys[..p], x) + (if keys[p] == x then 1 else 0)
  {
    assert keys[..p + 1][..p] == keys[..p];
  }

  /** One more item counted: the counter of its key goes up by one. */
  lemma CountStep(keys: seq<nat>, p: nat, c: seq<nat>, c': seq<nat>, n: nat)
    requires p < |keys| && keys[p] < n && |c| == n && c' == c[keys[p] := c[keys[p]] + 1]
    requires forall x :: 0 <= x < n ==> c[x] == Count(keys[..p], x)
    ensures forall x :: 0 <= x < n ==> c'[x] == Count(keys[..p + 1], x)
  {
    assert keys[..p + 1][..p] == keys[..p];
  }

  lemma {:induction false} CountPrefixBound(keys: seq<nat>, p: nat, x: nat)
    requires p <= |keys|
    ensures Count(keys[..p], x) <= Count(keys, x)
    decreases |keys| - p
  {
    if p < |keys| {
      CountPrefix(keys, p, x);
      CountPrefixBound(keys, p + 1, x);
    } else {
      assert keys[..p] == keys;
    }
  }

  /** Groups are laid out in key order. */
  lemma {:induction false} StartMonotone(keys: seq<nat>, x: nat, y: nat)
    requires x <= y
    ensures Start(keys, x) + (if x < y then Count(keys, x) else 0) <= Start(keys, y)
    decreases y - x
  {
    if x < y {
      StartMonotone(keys, x + 1, y);
    }
  }

  /** With every key below `n`, the groups of keys `0..n` fill exactly the
      `|keys|` slots. */
  lemma {:induction false} StartAll(keys: seq<nat>, n: nat)
    requires forall p :: 0 <= p < |keys| ==> keys[p] < n
    ensures Start(keys, n) == |keys|
    decreases |keys|
  {
    if |keys| == 0 {
      StartEmpty(keys, n);
    } else {
      var init, last := keys[..|keys| - 1], keys[|keys| - 1];
      assert init + [last] == keys;
      StartAll(init, n);
      StartAppend(init, last, n);
    }
  }

  lemma {:induction false} StartEmpty(keys: seq<nat>, x: nat)
    requires |keys| == 0
    ensures Start(keys, x) == 0
  {
    if x > 0 {
      StartEmpty(keys, x - 1);
    }
  }

  lemma {:induction false} StartAppend(keys: seq<nat>, k: nat, x: nat)
    ensures Start(keys + [k], x) == Start(keys, x) + (if k < x then 1 else 0)
  {
    if x > 0 {
      StartAppend(keys, k, x - 1);
      assert (keys + [k])[..|keys|] == keys;
    }
  }

  /** Item `p` lands inside its own key's group. */
  lemma SlotInGroup(keys: seq<nat>, p: nat)
    requires p < |keys|
    ensures Start(keys, keys[p]) <= Slot(keys, p) < Start(keys, keys[p] + 1)
  {
    CountPrefix(keys, p, keys[p]);
    CountPrefixBound(keys, p + 1, keys[p]);
  }

  /** Different items land in different slots. */
  lemma SlotInjective(keys: seq<nat>, p: nat, q: nat)
    requires p < q < |keys|
    ensures Slot(keys, p) != Slot(keys, q)
  {
    SlotInGroup(keys, p);
    SlotInGroup(keys, q);
    if keys[p] == keys[q] {
      CountPrefix(keys, p, keys[p]);
      CountPrefixBound(keys[..q], p + 1, keys[p]);
      assert keys[..q][..p + 1] == keys[..p + 1];
    } else if keys[p] < keys[q] {
      StartMonotone(keys, keys[p] + 1, keys[q]);
    } else {
      StartMonotone(keys, keys[q] + 1, keys[p]);
    }
  }

  /** The item that is the `k`-th (from 0) with key `x`. */
  lemma {:induction false} KthOccurrence(keys: seq<nat>, x: nat, k: nat) returns (p: nat)
    requires k < Count(keys, x)
    ensures p < |keys| && keys[p] == x && Count(keys[..p], x) == k
    decreases |keys|
  {
    var init, last := keys[..|keys| - 1], keys[|keys| - 1];
    if k < Count(init, x) {
      p := KthOccurrence(init, x, k);
      assert keys[..p] == init[..p];
    } else {
      p := |keys| - 1;
      assert keys[..p] == init;
    }
  }

  /** The group of an occupied slot: the key `x` with `Start(x) <= a <
      Start(x + 1)`. */
  lemma {:induction false} GroupOf(keys: seq<nat>, n: nat, a: nat) returns (x: nat)
    requires a < Start(keys, n)
    ensures x < n && Start(keys, x) <= a < Start(keys, x + 1)
  {
    if a < Start(keys, n - 1) {
      x := GroupOf(keys, n - 1, a);
    } else {
      x := n - 1;
    }
  }

  /** Every slot below `|keys|` holds some item. */
  lemma SlotOnto(keys: seq<nat>, n: nat, a: nat) returns (p: nat)
    requires forall q :: 0 <= q < |keys| ==> keys[q] < n
    requires a < |keys|
    ensures p < |keys| && Slot(keys, p) == a
  {
    StartAll(keys, n);
    var x := GroupOf(keys, n, a);
    p := KthOccurrence(keys, x, a - Start(keys, x));
  }
}
