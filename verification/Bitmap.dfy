/** Byte-packed bitmaps: bit `i` is bit `i & 7` of byte `i >> 3`. */
module Bitmap {

  predicate BitAt(b: bv8, j: int)
    requires 0 <= j < 8
  {
    (b >> j) & 1 == 1
  }

  function SetBit(b: bv8, j: int): bv8
    requires 0 <= j < 8
  {
    b | (1 << j)
  }

  function ClearBit(b: bv8, j: int): bv8
    requires 0 <= j < 8
  {
    b & !(1 << j)
  }

  function Mask(j: int): bv8 {
    if j == 0 then 1 else if j == 1 then 2 else if j == 2 then 4 else if j == 3 then 8
    else if j == 4 then 16 else if j == 5 then 32 else if j == 6 then 64 else 128
  }

  lemma Masks(b: bv8, j: int)
    requires 0 <= j < 8
    ensures 1 << j == Mask(j) && (BitAt(b, j) <==> b & Mask(j) != 0)
  {
  }

  lemma SetBitAt(b: bv8, j: int, k: int)
    requires 0 <= j < 8 && 0 <= k < 8
    ensures BitAt(SetBit(b, j), k) <==> j == k || BitAt(b, k)
  {
    hide BitAt;
    Masks(b, j);
    Masks(b, k);
    Masks(SetBit(b, j), k);
  }

  lemma ClearBitAt(b: bv8, j: int, k: int)
    requires 0 <= j < 8 && 0 <= k < 8
    ensures BitAt(ClearBit(b, j), k) <==> j != k && BitAt(b, k)
  {
    hide BitAt;
    Masks(b, j);
    Masks(b, k);
    Masks(ClearBit(b, j), k);
  }

  // ---------- whole bitmaps ----------

  predicate Holds(bm: seq<bv8>, n: int) { 0 <= n && |bm| == (n + 7) / 8 }

  /** `bm_test`. */
  predicate Test(bm: seq<bv8>, i: int)
    requires 0 <= i / 8 < |bm|
  {
    BitAt(bm[i / 8], i % 8)
  }

  lemma InBounds(bm: seq<bv8>, n: int, i: int)
    requires Holds(bm, n) && 0 <= i < n
    ensures 0 <= i / 8 < |bm|
  {
  }

  /** The indices below `n` whose bit is clear. */
  ghost function ClearBits(bm: seq<bv8>, n: int): (s: set<int>)
    requires Holds(bm, n)
    ensures forall i :: i in s <==> 0 <= i < n && !Test(bm, i)
  {
    set i | 0 <= i < n && !Test(bm, i)
  }

  ghost function SetBits(bm: seq<bv8>, n: int): (s: set<int>)
    requires Holds(bm, n)
    ensures forall i :: i in s <==> 0 <= i < n && Test(bm, i)
  {
    set i | 0 <= i < n && Test(bm, i)
  }

  /** `bm_set` sets one bit and no other. */
  lemma AfterSet(bm: seq<bv8>, n: int, i: int)
    requires Holds(bm, n) && 0 <= i < n
    ensures i / 8 < |bm|
    ensures var bm' := bm[i / 8 := SetBit(bm[i / 8], i % 8)];
            ClearBits(bm', n) == ClearBits(bm, n) - {i} && SetBits(bm', n) == SetBits(bm, n) + {i}
  {
    hide BitAt, SetBit;
    var bm' := bm[i / 8 := SetBit(bm[i / 8], i % 8)];
    forall k | 0 <= k < n ensures Test(bm', k) <==> k == i || Test(bm, k) {
      SetBitAt(bm[i / 8], i % 8, k % 8);
    }
  }

  /** `bm_clear` clears one bit and no other. */
  lemma AfterClear(bm: seq<bv8>, n: int, i: int)
    requires Holds(bm, n) && 0 <= i < n
    ensures i / 8 < |bm|
    ensures var bm' := bm[i / 8 := ClearBit(bm[i / 8], i % 8)];
            ClearBits(bm', n) == ClearBits(bm, n) + {i} && SetBits(bm', n) == SetBits(bm, n) - {i}
  {
    hide BitAt, ClearBit;
    var bm' := bm[i / 8 := ClearBit(bm[i / 8], i % 8)];
    forall k | 0 <= k < n ensures Test(bm', k) <==> k != i && Test(bm, k) {
      ClearBitAt(bm[i / 8], i % 8, k % 8);
    }
  }
}
