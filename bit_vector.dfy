/** Fixed-size vector of booleans packed into 64-bit blocks; bit `i` lives in
    block `i / 64` at offset `i % 64`. */
module BitVector {

  const BITS: nat := 64

  /** Offset within a block, as a 7-bit shift amount. */
  function Offset(i: nat): (o: bv7)
    ensures o < 64 && o as int == i % BITS
  {
    RoundTrip(i % BITS);
    (i % BITS) as bv7
  }

  lemma RoundTrip(a: nat)
    requires a < 64
    ensures (a as bv7) as int == a
  {
  }

  /** Bit `o` of the block `w`. */
  function BitOf(w: bv64, o: bv7): bool
    requires o < 64
  {
    (w >> o) & 1 == 1
  }

  /** Or-ing in the mask of `off` sets exactly that bit. */
  lemma SetBitLemma(w: bv64, off: bv7, o: bv7)
    requires off < 64 && o < 64
    ensures BitOf(w | (1 << off), o) == (o == off || BitOf(w, o))
  {
  }

  /** And-ing with the complement of the mask of `off` clears exactly that bit. */
  lemma ClearBitLemma(w: bv64, off: bv7, o: bv7)
    requires off < 64 && o < 64
    ensures BitOf(w & !(1 << off), o) == (o != off && BitOf(w, o))
  {
  }

  /** Number of blocks for `size` bits: `size` divided by 64, rounded up. */
  function NumBlocks(size: nat): (k: nat)
    ensures k * BITS >= size && (k == 0 || (k - 1) * BITS < size)
  {
    (size + BITS - 1) / BITS
  }

  /** The blocks `data` hold the booleans `bits`. */
  ghost predicate Represents(data: seq<bv64>, bits: seq<bool>)
  {
    |data| == NumBlocks(|bits|)
    && forall i :: 0 <= i < |bits| ==> BitOf(data[i / BITS], Offset(i)) == bits[i]
  }

  /** Two indices in one block with different offsets are the same index. */
  lemma SameBlock(i: nat, j: nat)
    requires i / BITS == j / BITS && Offset(i) == Offset(j)
    ensures i == j
  {
    RoundTrip(i % BITS);
    RoundTrip(j % BITS);
  }

  /** The block after `set(_, b)` at `offset`. */
  function Update(w: bv64, offset: bv7, b: bool): bv64
    requires offset < 64
  {
    if b then w | (1 << offset) else w & !(1 << offset)
  }

  lemma UpdateBit(w: bv64, offset: bv7, b: bool, o: bv7)
    requires offset < 64 && o < 64
    ensures BitOf(Update(w, offset, b), o) == if o == offset then b else BitOf(w, o)
  {
    if b { SetBitLemma(w, offset, o); } else { ClearBitLemma(w, offset, o); }
  }

  /** Updating one bit of its block updates exactly that boolean. */
  lemma UpdatePreserves(data: seq<bv64>, bits: seq<bool>, index: nat, b: bool)
    requires Represents(data, bits) && index < |bits|
    ensures index / BITS < |data|
    ensures Represents(data[index / BITS := Update(data[index / BITS], Offset(index), b)], bits[index := b])
  {
    var block, offset := index / BITS, Offset(index);
    var data', bits' := data[block := Update(data[block], offset, b)], bits[index := b];
    forall i | 0 <= i < |bits'| ensures BitOf(data'[i / BITS], Offset(i)) == bits'[i] {
      assert BitOf(data[i / BITS], Offset(i)) == bits[i];
      if i / BITS == block {
        UpdateBit(data[block], offset, b, Offset(i));
        if Offset(i) == offset { SameBlock(i, index); }
      }
    }
  }

  class BitVector {
    const data: array<bv64>
    const size: nat

    /** The booleans the blocks represent. */
    ghost var bits: seq<bool>

    ghost predicate Valid()
      reads this, data
    {
      data.Length == NumBlocks(size) && |bits| == size && Represents(data[..], bits)
    }

    /** `new`: every bit false. */
    constructor (n: nat)
      ensures Valid() && size == n && bits == seq(n, _ => false) && fresh(data)
    {
      size := n;
      data := new bv64[NumBlocks(n)](_ => 0);
      bits := seq(n, _ => false);
    }

    /** `len`. */
    method Len() returns (n: nat)
      requires Valid()
      ensures n == |bits|
    {
      n := size;
    }

    /** `set`: the index must be below the size (an `assert!` in `bit_vector.rs`). */
    method Set(index: nat, b: bool)
      requires Valid() && index < size
      modifies this, data
      ensures Valid() && bits == old(bits)[index := b]
    {
      UpdatePreserves(data[..], bits, index, b);
      var block := index / BITS;
      var offset := Offset(index);
      data[block] := Update(data[block], offset, b);
      bits := bits[index := b];
    }

    /** `get`: the index must be below the size (an `assert!` in `bit_vector.rs`). */
    method Get(index: nat) returns (b: bool)
      requires Valid() && index < size
      ensures b == bits[index]
    {
      var block := index / BITS;
      var offset := Offset(index);
      assert BitOf(data[..][block], offset) == bits[index];
      b := (data[block] >> offset) & 1 == 1;
    }

    /** `clear`: every block zeroed, so every bit false. */
    method Clear()
      requires Valid()
      modifies this, data
      ensures Valid() && bits == seq(size, _ => false)
    {
      var k := 0;
      while k < data.Length
        invariant 0 <= k <= data.Length
        invariant forall j :: 0 <= j < k ==> data[j] == 0
      {
        data[k] := 0;
        k := k + 1;
      }
      bits := seq(size, _ => false);
    }
  }
}
