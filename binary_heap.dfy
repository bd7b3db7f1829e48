/** The part of `std::collections::BinaryHeap` the Dijkstra searches use.
    They push `(Reverse(d), u)` pairs, so `pop` returns the entry of smallest
    `d`, and among those the one of largest node `u`. The heap is modelled
    as the sequence of its entries; its order of storage is not modelled, only
    which entry `pop` takes out. */
module BinaryHeapModel {

  /** `x` comes out of the heap no later than `y`. */
  predicate Before(x: (int, nat), y: (int, nat))
  {
    x.0 < y.0 || (x.0 == y.0 && x.1 >= y.1)
  }

  /** `pop` on a non-empty heap: the entry at `i` is the greatest
      `(Reverse(d), u)`, and `rest` is the heap without it. */
  method Pop(h: seq<(int, nat)>) returns (i: nat, rest: seq<(int, nat)>)
    requires |h| > 0
    ensures i < |h| && forall k :: 0 <= k < |h| ==> Before(h[i], h[k])
    ensures rest == h[..i] + h[i + 1..] && |rest| == |h| - 1
    ensures forall x :: x in h && x != h[i] ==> x in rest
    ensures forall x :: x in rest ==> x in h
  {
    i := 0;
    for k := 1 to |h|
      invariant i < k && forall j :: 0 <= j < k ==> Before(h[i], h[j])
    {
      if Before(h[k], h[i]) {
        i := k;
      }
    }
    rest := h[..i] + h[i + 1..];
    assert h == h[..i] + [h[i]] + h[i + 1..];
  }
}
