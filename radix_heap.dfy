/** Monotone radix heap for integer keys: bucket `i` holds the keys in
    `[start[i], start[i + 1])`; `pop` takes from bucket 0, refilling it when
    empty by re-splitting the first non-empty bucket from its minimum key. */
module RadixHeap {
  import opened Wrappers

  function Pow2(i: nat): (r: nat)
    ensures r >= 1
  {
    if i == 0 then 1 else 2 * Pow2(i - 1)
  }

  lemma {:induction false} Pow2Monotone(i: nat, j: nat)
    requires i <= j
    ensures Pow2(i) <= Pow2(j)
  {
    if i < j { Pow2Monotone(i, j - 1); }
  }

  /** `size_sum(i)`: 0 for bucket 0 and `1 << (i - 1)` otherwise. */
  function SizeSum(i: nat): nat
  {
    if i == 0 then 0 else Pow2(i - 1)
  }

  /** Consecutive size sums differ by 1 and then by `2^(i-1)`. */
  lemma SizeSumStep(i: nat)
    ensures SizeSum(i + 1) - SizeSum(i) == (if i == 0 then 1 else Pow2(i - 1))
    ensures SizeSum(i) <= SizeSum(i + 1)
  {
  }

  /** Number of significant bits of `c`, i.e. the integer width minus the
      leading zeros. */
  function BitLen(c: nat): nat
  {
    if c == 0 then 0 else 1 + BitLen(c / 2)
  }

  lemma {:induction false} BitLenBound(c: nat)
    ensures c < Pow2(BitLen(c))
  {
    if c > 0 { BitLenBound(c / 2); }
  }

  /** `new(c)` allocates the significant bits of `c` plus three buckets. */
  function NumBuckets(c: nat): nat
  {
    BitLen(c) + 3
  }

  /** The items of all buckets together. */
  ghost function Bag<V>(b: seq<seq<(int, V)>>): multiset<(int, V)>
  {
    if |b| == 0 then multiset{} else Bag(b[..|b| - 1]) + multiset(b[|b| - 1])
  }

  lemma {:induction false} BagUpdate<V>(b: seq<seq<(int, V)>>, i: nat, x: seq<(int, V)>)
    requires i < |b|
    ensures multiset(b[i]) <= Bag(b)
    ensures Bag(b[i := x]) == Bag(b) - multiset(b[i]) + multiset(x)
  {
    var l := |b| - 1;
    if i < l {
      BagUpdate(b[..l], i, x);
      assert b[i := x][..l] == b[..l][i := x];
    } else {
      assert b[i := x][..l] == b[..l];
    }
  }

  lemma {:induction false} BagMember<V>(b: seq<seq<(int, V)>>, x: (int, V))
    requires x in Bag(b)
    ensures exists i, j :: 0 <= i < |b| && 0 <= j < |b[i]| && b[i][j] == x
  {
    var l := |b| - 1;
    if x in multiset(b[l]) {
      var j :| 0 <= j < |b[l]| && b[l][j] == x;
    } else {
      BagMember(b[..l], x);
      var i, j :| 0 <= i < l && 0 <= j < |b[..l][i]| && b[..l][i][j] == x;
      assert b[i][j] == x;
    }
  }

  lemma {:induction false} BagEmpty<V>(b: seq<seq<(int, V)>>)
    requires forall i :: 0 <= i < |b| ==> |b[i]| == 0
    ensures Bag(b) == multiset{}
  {
    if |b| > 0 { BagEmpty(b[..|b| - 1]); }
  }

  /** Gap between the starts of buckets `i` and `i + 1` is at most the
      difference of their size sums. */
  ghost predicate GapOk(s: seq<int>, i: nat)
    requires i + 1 < |s|
  {
    s[i] <= s[i + 1] && s[i + 1] - s[i] <= SizeSum(i + 1) - SizeSum(i)
  }

  ghost predicate StartsOk(s: seq<int>)
  {
    && |s| >= 3
    && (forall i :: 0 <= i < |s| - 1 ==> GapOk(s, i))
  }

  /** Key `key` belongs in bucket `i`. */
  ghost predicate InBucket(s: seq<int>, i: nat, key: int)
    requires i < |s|
  {
    s[i] <= key && (i + 1 < |s| ==> key < s[i + 1])
  }

  /** Every key of `bucket` belongs in bucket `i`. */
  ghost predicate BucketOk<V>(s: seq<int>, i: nat, bucket: seq<(int, V)>)
    requires i < |s|
  {
    forall j :: 0 <= j < |bucket| ==> InBucket(s, i, bucket[j].0)
  }

  ghost predicate BucketsOk<V>(s: seq<int>, b: seq<seq<(int, V)>>)
  {
    |b| == |s| && forall i :: 0 <= i < |b| ==> BucketOk(s, i, b[i])
  }

  /** Keys held at the same time lie in one window of width `c`, so they
      differ by at most `c`. */
  ghost predicate WindowOk<V>(items: multiset<(int, V)>, lo: int, c: nat)
  {
    forall x :: x in items ==> lo <= x.0 <= lo + c
  }

  lemma WindowSpread<V>(items: multiset<(int, V)>, lo: int, c: nat, x: (int, V), y: (int, V))
    requires WindowOk(items, lo, c) && x in items && y in items
    ensures x.0 - y.0 <= c
  {
  }

  lemma {:induction false} StartsMonotone(s: seq<int>, i: nat, j: nat)
    requires StartsOk(s) && i <= j < |s|
    ensures s[i] <= s[j]
  {
    if i < j {
      StartsMonotone(s, i, j - 1);
      assert GapOk(s, j - 1);
    }
  }

  /** Every stored key is at least the start of bucket 0. */
  lemma KeysAboveFloor<V>(s: seq<int>, b: seq<seq<(int, V)>>, x: (int, V))
    requires StartsOk(s) && BucketsOk(s, b) && x in Bag(b)
    ensures s[0] <= x.0
  {
    BagMember(b, x);
    var i, j :| 0 <= i < |b| && 0 <= j < |b[i]| && b[i][j] == x;
    assert InBucket(s, i, b[i][j].0);
    StartsMonotone(s, 0, i);
  }

  /** Appending an item to the bucket its key belongs in keeps the layout. */
  lemma AppendOk<V>(s: seq<int>, b: seq<seq<(int, V)>>, i: nat, item: (int, V))
    requires BucketsOk(s, b) && i < |b| && InBucket(s, i, item.0)
    ensures BucketsOk(s, b[i := b[i] + [item]])
    ensures Bag(b[i := b[i] + [item]]) == Bag(b) + multiset{item}
  {
    var b': seq<seq<(int, V)>> := b[i := b[i] + [item]];
    forall a, j | 0 <= a < |b'| && 0 <= j < |b'[a]| ensures InBucket(s, a, b'[a][j].0) {
      if a != i || j < |b[i]| {
        assert b'[a][j] == b[a][j];
      }
    }
    BagUpdate(b, i, b[i] + [item]);
  }

  /** Removing the last item of a bucket keeps the layout. */
  lemma RemoveLastOk<V>(s: seq<int>, b: seq<seq<(int, V)>>, i: nat)
    requires BucketsOk(s, b) && i < |b| && |b[i]| > 0
    ensures BucketsOk(s, b[i := b[i][..|b[i]| - 1]])
    ensures Bag(b[i := b[i][..|b[i]| - 1]]) == Bag(b) - multiset{b[i][|b[i]| - 1]}
  {
    var b': seq<seq<(int, V)>> := b[i := b[i][..|b[i]| - 1]];
    forall a, j | 0 <= a < |b'| && 0 <= j < |b'[a]| ensures InBucket(s, a, b'[a][j].0) {
      assert b'[a][j] == b[a][j];
    }
    assert b[i] == b[i][..|b[i]| - 1] + [b[i][|b[i]| - 1]];
    BagUpdate(b, i, b[i][..|b[i]| - 1]);
  }

  /** A key within `c` of every stored key fits a window shifted towards it. */
  lemma WindowAdd<V>(items: multiset<(int, V)>, lo: int, c: nat, item: (int, V)) returns (lo': int)
    requires WindowOk(items, lo, c)
    requires forall x :: x in items ==> item.0 - c <= x.0 <= item.0 + c
    ensures WindowOk(items + multiset{item}, lo', c)
  {
    lo' := if item.0 < lo then item.0 else if item.0 > lo + c then item.0 - c else lo;
  }

  lemma WindowSub<V>(items: multiset<(int, V)>, lo: int, c: nat, item: (int, V))
    requires WindowOk(items, lo, c)
    ensures WindowOk(items - multiset{item}, lo, c)
  {
  }

  /** The items of `data` from position `t` on. */
  ghost function Rest<T>(data: seq<T>, t: nat): multiset<T>
    decreases |data| - t
  {
    if t >= |data| then multiset{} else multiset{data[t]} + Rest(data, t + 1)
  }

  lemma {:induction false} RestAll<T>(data: seq<T>, t: nat)
    requires t <= |data|
    ensures Rest(data, t) == multiset(data[t..])
    decreases |data| - t
  {
    if t < |data| {
      RestAll(data, t + 1);
      assert data[t..] == [data[t]] + data[t + 1..];
    }
  }

  /** The items in buckets `b` together with those of `data` from `t` on. */
  ghost function Pool<V>(b: seq<seq<(int, V)>>, data: seq<(int, V)>, t: nat): multiset<(int, V)>
  {
    Bag(b) + Rest(data, t)
  }

  /** Moving `data[t]` into the buckets leaves the pool as it was. */
  lemma PoolStep<V>(b: seq<seq<(int, V)>>, b': seq<seq<(int, V)>>, data: seq<(int, V)>, t: nat)
    requires t < |data| && Bag(b') == Bag(b) + multiset{data[t]}
    ensures Pool(b', data, t + 1) == Pool(b, data, t)
  {
    assert Rest(data, t) == multiset{data[t]} + Rest(data, t + 1);
  }

  lemma PoolDone<V>(b: seq<seq<(int, V)>>, data: seq<(int, V)>)
    ensures Pool(b, data, |data|) == Bag(b)
  {
  }

  /** Placing `item` in bucket `j`, the last below `k` whose start is at most
      its key, keeps the layout; a key equal to the start of bucket 0 goes there. */
  lemma PlaceOk<V>(s: seq<int>, b: seq<seq<(int, V)>>, k: nat, j: nat, item: (int, V))
    requires StartsOk(s) && BucketsOk(s, b) && j < k < |s| && s[0] < s[1]
    requires s[j] <= item.0 < s[k] && forall i :: j < i < k ==> s[i] > item.0
    ensures BucketsOk(s, b[j := b[j] + [item]])
    ensures Bag(b[j := b[j] + [item]]) == Bag(b) + multiset{item}
    ensures item.0 == s[0] ==> j == 0
  {
    if j + 1 < k { assert s[j + 1] > item.0; }
    AppendOk(s, b, j, item);
    if item.0 == s[0] && j > 0 { StartsMonotone(s, 1, j); }
  }

  /** Multiset of the given items. */
  function Keys<V>(items: seq<(int, V)>): seq<int>
  {
    seq(|items|, t requires 0 <= t < |items| => items[t].0)
  }

  /** Index of the last bucket among the first `hi` whose start is at most `key`. */
  method FindBucket(s: seq<int>, hi: nat, key: int) returns (i: nat)
    requires 0 < hi <= |s| && s[0] <= key
    ensures i < hi && s[i] <= key
    ensures forall j :: i < j < hi ==> s[j] > key
  {
    var t := hi;
    while s[t - 1] > key
      invariant 0 < t <= hi
      decreases t
      invariant forall j :: t <= j < hi ==> s[j] > key
    {
      t := t - 1;
    }
    i := t - 1;
  }

  /** Minimum key of a non-empty list. */
  method MinKey<V>(data: seq<(int, V)>) returns (m: int)
    requires |data| > 0
    ensures exists t :: 0 <= t < |data| && data[t].0 == m
    ensures forall t :: 0 <= t < |data| ==> m <= data[t].0
  {
    m := data[0].0;
    var t := 1;
    while t < |data|
      invariant 1 <= t <= |data|
      invariant exists u :: 0 <= u < t && data[u].0 == m
      invariant forall u :: 0 <= u < t ==> m <= data[u].0
    {
      if data[t].0 < m { m := data[t].0; }
      t := t + 1;
    }
  }

  /** New start of bucket `i <= k` after distributing bucket `k`: the minimum
      key plus the size sum, capped by the start of bucket `k + 1` if any. */
  function NewStart(end: Option<int>, m: int, i: nat): int
  {
    match end
    case None => m + SizeSum(i)
    case Some(e) => if e < m + SizeSum(i) then e else m + SizeSum(i)
  }

  function Restart(s: seq<int>, k: nat, end: Option<int>, m: int): (s': seq<int>)
    requires k < |s|
    ensures |s'| == |s|
  {
    seq(|s|, i requires 0 <= i < |s| => if i <= k then NewStart(end, m, i) else s[i])
  }

  /** Re-splitting from the minimum `m` of bucket `k` keeps the gaps, puts bucket
      0 at `m`, and leaves room below the new start of bucket `k` for every key
      of bucket `k`. */
  lemma RestartOk(s: seq<int>, k: nat, m: int, keys: seq<int>, c: nat)
    requires StartsOk(s) && 0 < k < |s| && |s| == NumBuckets(c)
    requires forall t :: 0 <= t < |keys| ==> InBucket(s, k, keys[t])
    requires forall t :: 0 <= t < |keys| ==> keys[t] - m <= c
    requires exists t :: 0 <= t < |keys| && keys[t] == m
    requires forall t :: 0 <= t < |keys| ==> m <= keys[t]
    ensures var s' := Restart(s, k, if k + 1 < |s| then Some(s[k + 1]) else None, m);
            && StartsOk(s') && s'[0] == m && m < s'[1]
            && forall t :: 0 <= t < |keys| ==> m <= keys[t] < s'[k]
  {
    var t0 :| 0 <= t0 < |keys| && keys[t0] == m;
    assert InBucket(s, k, m);
    RestartGaps(s, k, m);
    forall t | 0 <= t < |keys| ensures keys[t] < Restart(s, k, if k + 1 < |s| then Some(s[k + 1]) else None, m)[k] {
      RestartRoom(s, k, m, keys[t], c);
    }
  }

  /** Restarting from a key `m` of bucket `k` keeps every gap within bounds. */
  lemma RestartGaps(s: seq<int>, k: nat, m: int)
    requires StartsOk(s) && 0 < k < |s| && InBucket(s, k, m)
    ensures var s' := Restart(s, k, if k + 1 < |s| then Some(s[k + 1]) else None, m);
            StartsOk(s') && s'[0] == m && m < s'[1]
  {
    var end := if k + 1 < |s| then Some(s[k + 1]) else None;
    var s' := Restart(s, k, end, m);
    forall i | 0 <= i < |s'| - 1 ensures GapOk(s', i) {
      SizeSumStep(i);
      assert GapOk(s, i);
      if i < k {
        assert s'[i] == NewStart(end, m, i) && s'[i + 1] == NewStart(end, m, i + 1);
      } else if i == k {
        assert s'[k] == NewStart(end, m, k) && s'[k + 1] == s[k + 1];
      }
    }
  }

  /** A key of bucket `k` within `c` of `m` lies below the restarted start
      of bucket `k`. */
  lemma RestartRoom(s: seq<int>, k: nat, m: int, key: int, c: nat)
    requires StartsOk(s) && 0 < k < |s| && |s| == NumBuckets(c)
    requires InBucket(s, k, key) && InBucket(s, k, m) && key - m <= c && m <= key
    ensures key < Restart(s, k, if k + 1 < |s| then Some(s[k + 1]) else None, m)[k]
  {
    if k + 1 < |s| {
      assert GapOk(s, k);
      SizeSumStep(k);
    } else {
      BitLenBound(c);
      Pow2Monotone(BitLen(c), k - 1);
    }
  }

  /** The keys of bucket `k` lie in its range and within `c` of its minimum. */
  lemma BucketKeys<V>(s: seq<int>, b: seq<seq<(int, V)>>, lo: int, c: nat, k: nat, m: int)
    requires BucketsOk(s, b) && WindowOk(Bag(b), lo, c) && k < |b|
    requires exists t :: 0 <= t < |b[k]| && b[k][t].0 == m
    ensures var keys := Keys(b[k]);
            && (forall t :: 0 <= t < |keys| ==> InBucket(s, k, keys[t]) && keys[t] - m <= c)
            && exists t :: 0 <= t < |keys| && keys[t] == m
  {
    var data := b[k];
    var keys := Keys(data);
    BagUpdate(b, k, []);
    assert BucketOk(s, k, data);
    var u :| 0 <= u < |data| && data[u].0 == m;
    forall t | 0 <= t < |keys| ensures InBucket(s, k, keys[t]) && keys[t] - m <= c {
      assert InBucket(s, k, data[t].0);
      assert data[t] in multiset(b[k]) && data[u] in multiset(b[k]);
      WindowSpread(Bag(b), lo, c, data[t], data[u]);
    }
    assert keys[u] == m;
  }

  /** Restarting buckets `0..=k` keeps every later bucket's items in range
      when buckets `0..=k` are empty. */
  lemma RestartKeepsLater<V>(s: seq<int>, s': seq<int>, b: seq<seq<(int, V)>>, k: nat)
    requires BucketsOk(s, b) && k < |s| == |s'|
    requires forall i :: k < i < |s| ==> s'[i] == s[i]
    requires forall j :: 0 <= j <= k ==> |b[j]| == 0
    ensures BucketsOk(s', b)
  {
    forall i | 0 <= i < |b| ensures BucketOk(s', i, b[i]) {
      if i > k {
        assert BucketOk(s, i, b[i]);
      }
    }
  }

  /** Emptying a bucket keeps every bucket's keys in range. */
  lemma ClearKeepsBuckets<V>(s: seq<int>, b: seq<seq<(int, V)>>, k: nat)
    requires BucketsOk(s, b) && k < |b|
    ensures BucketsOk(s, b[k := []])
  {
    var b' := b[k := []];
    forall i | 0 <= i < |b'| ensures BucketOk(s, i, b'[i]) {
      if i != k { assert BucketOk(s, i, b[i]); }
    }
  }

  /** Emptying the first non-empty bucket `k` and restarting buckets `0..=k` from
      its minimum key `m` leaves a layout into which its items can be put back
      below bucket `k`. */
  lemma DistributeSetup<V>(s: seq<int>, b: seq<seq<(int, V)>>, lo: int, c: nat, k: nat, m: int,
                           s': seq<int>, b': seq<seq<(int, V)>>)
    requires StartsOk(s) && BucketsOk(s, b) && WindowOk(Bag(b), lo, c) && |s| == NumBuckets(c)
    requires 0 < k < |b| && |b[k]| > 0 && forall j :: 0 <= j < k ==> |b[j]| == 0
    requires exists t :: 0 <= t < |b[k]| && b[k][t].0 == m
    requires forall t :: 0 <= t < |b[k]| ==> m <= b[k][t].0
    requires s' == Restart(s, k, if k + 1 < |s| then Some(s[k + 1]) else None, m) && b' == b[k := []]
    ensures StartsOk(s') && BucketsOk(s', b') && s[0] <= s'[0] == m < s'[1]
    ensures forall t :: 0 <= t < |b[k]| ==> m <= b[k][t].0 < s'[k]
    ensures Bag(b) == Bag(b') + multiset(b[k])
    ensures forall j :: 0 <= j <= k ==> |b'[j]| == 0
  {
    var data := b[k];
    var keys := Keys(data);
    BucketKeys(s, b, lo, c, k, m);
    RestartOk(s, k, m, keys, c);
    StartsMonotone(s, 0, k);
    assert InBucket(s, k, m);
    BagUpdate(b, k, []);
    ClearKeepsBuckets(s, b, k);
    RestartKeepsLater(s, s', b', k);
    forall t | 0 <= t < |data| ensures m <= data[t].0 < s'[k] {
      assert keys[t] == data[t].0;
    }
  }

  /** Once the items `data` taken out of `b0` (leaving `b1`) are all back in
      the buckets `b`, laid out for the starts `s`, the state is whole again. */
  lemma RefillOk<V>(c: nat, b0: seq<seq<(int, V)>>, b1: seq<seq<(int, V)>>, data: seq<(int, V)>,
                    s: seq<int>, b: seq<seq<(int, V)>>, items: multiset<(int, V)>, lo: int, len: nat)
    requires |s| == |b| == NumBuckets(c) && StartsOk(s) && BucketsOk(s, b)
    requires items == Bag(b0) == Bag(b1) + multiset(data) && Bag(b) == Pool(b1, data, 0)
    requires WindowOk(items, lo, c) && len == |items|
    ensures HeapOk(c, s, b, items, lo, len)
  {
    RestAll(data, 0);
    assert data[0..] == data;
  }

  /** The heap's whole state: the bucket layout, the items it holds, their
      window and their count. */
  ghost predicate HeapOk<V>(c: nat, s: seq<int>, b: seq<seq<(int, V)>>, items: multiset<(int, V)>, lo: int, len: nat)
  {
    && |s| == |b| == NumBuckets(c)
    && StartsOk(s) && BucketsOk(s, b)
    && items == Bag(b) && WindowOk(items, lo, c) && len == |items|
  }

  /** Pushing `item` into bucket `i`, the one its key belongs in, keeps the
      state. */
  lemma PushOk<V>(c: nat, s: seq<int>, b: seq<seq<(int, V)>>, items: multiset<(int, V)>, lo: int, len: nat,
                  i: nat, item: (int, V), b': seq<seq<(int, V)>>, items': multiset<(int, V)>, lo': int, len': nat)
    requires HeapOk(c, s, b, items, lo, len) && i < |b| && InBucket(s, i, item.0)
    requires WindowOk(items + multiset{item}, lo', c)
    requires b' == b[i := b[i] + [item]] && items' == items + multiset{item} && len' == len + 1
    ensures HeapOk(c, s, b', items', lo', len')
  {
    AppendOk(s, b, i, item);
  }

  /** The last item of a non-empty bucket 0 has a minimum key, and removing it
      keeps the state. */
  lemma PopOk<V>(c: nat, s: seq<int>, b: seq<seq<(int, V)>>, items: multiset<(int, V)>, lo: int, len: nat,
                 item: (int, V), b': seq<seq<(int, V)>>)
    requires HeapOk(c, s, b, items, lo, len) && |b[0]| > 0
    requires item == b[0][|b[0]| - 1] && b' == b[0 := b[0][..|b[0]| - 1]]
    ensures item in items && (forall x :: x in items ==> item.0 <= x.0) && len > 0
    ensures HeapOk(c, s, b', items - multiset{item}, lo, len - 1)
  {
    LastIsMin(s, b, item);
    RemoveLastOk(s, b, 0);
    WindowSub(Bag(b), lo, c, item);
  }

  /** The last item of a non-empty bucket 0 is stored and has a minimum key. */
  lemma LastIsMin<V>(s: seq<int>, b: seq<seq<(int, V)>>, item: (int, V))
    requires StartsOk(s) && BucketsOk(s, b) && |b| == |s| && |b[0]| > 0 && item == b[0][|b[0]| - 1]
    ensures item in Bag(b) && forall x :: x in Bag(b) ==> item.0 <= x.0
  {
    assert InBucket(s, 0, item.0) && GapOk(s, 0);
    forall x | x in Bag(b) ensures item.0 <= x.0 {
      KeysAboveFloor(s, b, x);
    }
    BagUpdate(b, 0, b[0][..|b[0]| - 1]);
  }

  class RadixHeap<V(==)> {
    const c: nat
    /** Start key of each bucket; the number of buckets never changes. */
    var starts: seq<int>
    var buckets: seq<seq<(int, V)>>
    var len: nat

    /** The stored (key, value) pairs. */
    ghost var items: multiset<(int, V)>
    /** Lower end of a window of width `c` holding every stored key. */
    ghost var lo: int

    ghost predicate Valid()
      reads this
    {
      HeapOk(c, starts, buckets, items, lo, len)
    }

    /** Start of bucket 0: no key below it may be pushed. */
    ghost function Floor(): int
      reads this
      requires |starts| > 0
    {
      starts[0]
    }

    /** `new(c)`: `c` bounds the spread of keys held together. */
    constructor (c0: nat)
      ensures Valid() && c == c0 && items == multiset{} && Floor() == 0
    {
      c := c0;
      var n := NumBuckets(c0);
      starts := seq(n, i requires 0 <= i => SizeSum(i));
      buckets := seq(n, _ => []);
      len := 0;
      items := multiset{};
      lo := 0;
      new;
      BagEmpty(buckets);
      forall i | 0 <= i < n - 1 ensures GapOk(starts, i) { SizeSumStep(i); }
    }

    /** `len`. */
    method Len() returns (n: nat)
      requires Valid()
      ensures n == |items|
    {
      n := len;
    }

    /** `is_empty`. */
    method IsEmpty() returns (e: bool)
      requires Valid()
      ensures e <==> items == multiset{}
    {
      e := len == 0;
    }

    /** `push`: into the last bucket whose start is at most `key`. A key below
        bucket 0 violates monotonicity (`push` panics); a key farther than
        `c` from a stored one breaks the caller's promise. */
    method Push(key: int, value: V)
      requires Valid() && key >= Floor()
      requires forall x :: x in items ==> key - c <= x.0 <= key + c
      modifies this
      ensures Valid() && items == old(items) + multiset{(key, value)}
      ensures starts == old(starts)
    {
      var i := FindBucket(starts, |buckets|, key);
      ghost var b0, items0, lo0, len0 := buckets, items, lo, len;
      lo := WindowAdd(items, lo, c, (key, value));
      buckets := buckets[i := buckets[i] + [(key, value)]];
      len := len + 1;
      items := items + multiset{(key, value)};
      PushOk(c, starts, b0, items0, lo0, len0, i, (key, value), buckets, items, lo, len);
    }

    /** Index of the first non-empty bucket. */
    method FirstNonEmpty() returns (k: nat)
      requires Valid() && items != multiset{}
      ensures k < |buckets| && |buckets[k]| > 0
      ensures forall j :: 0 <= j < k ==> |buckets[j]| == 0
    {
      ghost var x :| x in items;
      BagMember(buckets, x);
      k := 0;
      while |buckets[k]| == 0
        invariant k < |buckets|
        invariant exists i, j :: k <= i < |buckets| && 0 <= j < |buckets[i]| && buckets[i][j] == x
        invariant forall j :: 0 <= j < k ==> |buckets[j]| == 0
        decreases |buckets| - k
      {
        k := k + 1;
      }
    }

    /** `distribute`: empties the first non-empty bucket `k`, restarts buckets
        `0..=k` from its minimum key and re-inserts its items below bucket `k`. */
    method Distribute()
      requires Valid() && items != multiset{} && |buckets[0]| == 0
      modifies this
      ensures Valid() && items == old(items) && |buckets[0]| > 0
      ensures Floor() >= old(Floor())
    {
      var k := FirstNonEmpty();
      var data := buckets[k];
      var m := MinKey(data);
      var end := if k + 1 < |buckets| then Some(starts[k + 1]) else None;
      ghost var b0 := buckets;
      DistributeSetup(starts, buckets, lo, c, k, m, Restart(starts, k, end, m), buckets[k := []]);
      buckets := buckets[k := []];
      RestartStarts(k, end, m);
      DistributeItems(k, data, m);
      RefillOk(c, b0, b0[k := []], data, starts, buckets, items, lo, len);
    }

    /** Sets the start of each bucket `i <= k` to `NewStart(end, m, i)`. */
    method RestartStarts(k: nat, end: Option<int>, m: int)
      requires k < |starts|
      modifies this
      ensures starts == Restart(old(starts), k, end, m)
      ensures buckets == old(buckets) && items == old(items) && lo == old(lo) && len == old(len)
    {
      var i := 0;
      while i <= k
        invariant 0 <= i <= k + 1 && |starts| == |old(starts)|
        invariant forall j :: 0 <= j < |starts| ==> starts[j] == if j < i then NewStart(end, m, j) else old(starts)[j]
        invariant buckets == old(buckets) && items == old(items) && lo == old(lo) && len == old(len)
      {
        starts := starts[i := NewStart(end, m, i)];
        i := i + 1;
      }
    }

    /** Appends `data[t]` to the last of buckets `0..k-1` whose start is at
        most its key, moving it from the items still to place to the buckets. */
    method Place(k: nat, data: seq<(int, V)>, t: nat, ghost pool: multiset<(int, V)>)
      requires 0 < k < |buckets| == |starts| && StartsOk(starts) && BucketsOk(starts, buckets)
      requires t < |data| && starts[0] < starts[1] && starts[0] <= data[t].0 < starts[k]
      requires Pool(buckets, data, t) == pool
      modifies this
      ensures BucketsOk(starts, buckets) && Pool(buckets, data, t + 1) == pool
      ensures |buckets| == old(|buckets|) && buckets[k] == old(buckets[k])
      ensures |old(buckets[0])| > 0 || data[t].0 == starts[0] ==> |buckets[0]| > 0
      ensures starts == old(starts) && items == old(items) && lo == old(lo) && len == old(len)
    {
      var j := FindBucket(starts, k, data[t].0);
      PlaceOk(starts, buckets, k, j, data[t]);
      PoolStep(buckets, buckets[j := buckets[j] + [data[t]]], data, t);
      buckets := buckets[j := buckets[j] + [data[t]]];
    }

    /** Puts each item of `data` into the last of buckets `0..k-1` whose start
        is at most its key. */
    method DistributeItems(k: nat, data: seq<(int, V)>, m: int)
      requires 0 < k < |buckets| == |starts| && StartsOk(starts) && BucketsOk(starts, buckets)
      requires forall j :: 0 <= j <= k ==> |buckets[j]| == 0
      requires starts[0] == m < starts[1] && forall t :: 0 <= t < |data| ==> m <= data[t].0 < starts[k]
      requires exists t :: 0 <= t < |data| && data[t].0 == m
      modifies this
      ensures BucketsOk(starts, buckets) && |buckets| == old(|buckets|) && |buckets[0]| > 0
      ensures Bag(buckets) == old(Pool(buckets, data, 0))
      ensures starts == old(starts) && items == old(items) && lo == old(lo) && len == old(len)
    {
      ghost var u :| 0 <= u < |data| && data[u].0 == m;
      ghost var b0 := buckets;
      var t := 0;
      while t < |data|
        invariant 0 <= t <= |data| && |buckets| == |starts| && starts == old(starts)
        invariant BucketsOk(starts, buckets) && lo == old(lo) && items == old(items) && len == old(len)
        invariant Pool(buckets, data, t) == Pool(b0, data, 0)
        invariant |buckets[k]| == 0
        invariant t > u ==> |buckets[0]| > 0
      {
        Place(k, data, t, Pool(b0, data, 0));
        t := t + 1;
      }
      PoolDone(buckets, data);
    }

    /** `pop`: an item of minimum key, or `None` when the heap is empty. */
    method Pop() returns (r: Option<(int, V)>)
      requires Valid()
      modifies this
      ensures Valid()
      ensures old(items) == multiset{} ==> r == None && items == old(items)
      ensures old(items) != multiset{} ==>
                && r.Some? && r.value in old(items)
                && items == old(items) - multiset{r.value}
                && forall x :: x in old(items) ==> r.value.0 <= x.0
      ensures Floor() >= old(Floor())
    {
      if len == 0 {
        return None;
      }
      if |buckets[0]| == 0 {
        Distribute();
      }
      var item := TakeLast();
      r := Some(item);
    }

    /** Removes the last item of bucket 0, whose key is the minimum. */
    method TakeLast() returns (item: (int, V))
      requires Valid() && |buckets[0]| > 0
      modifies this
      ensures Valid() && starts == old(starts)
      ensures item in old(items) && items == old(items) - multiset{item}
      ensures forall x :: x in old(items) ==> item.0 <= x.0
    {
      var bucket := buckets[0];
      item := bucket[|bucket| - 1];
      PopOk(c, starts, buckets, items, lo, len, item, buckets[0 := bucket[..|bucket| - 1]]);
      buckets := buckets[0 := bucket[..|bucket| - 1]];
      len := len - 1;
      items := items - multiset{item};
    }
  }
}
