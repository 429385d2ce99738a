/** Unsigned 64-bit arithmetic, as the kernel's C code performs it on addresses and sizes. */
module Words {

  const TWO64: int := 0x1_0000_0000_0000_0000
  const PAGE_SIZE: int := 4096

  /** `ALIGN_DOWN(x, a)` for a power of two `a`. */
  function AlignDown(x: int, a: int): int
    requires a > 0
  {
    x - x % a
  }

  /** `ALIGN_UP(x, a)` for a power of two `a`: the addition wraps at 2^64. */
  function AlignUp(x: int, a: int): int
    requires a > 0
  {
    AlignDown((x + a - 1) % TWO64, a)
  }

  /** Rounding up without the wrap: what `ALIGN_UP` is meant to compute. */
  function RoundUp(x: int, a: int): int
    requires a > 0
  {
    AlignDown(x + a - 1, a)
  }

  predicate PageAligned(x: int) { x % PAGE_SIZE == 0 }

  /** A multiple of the heap's 16-byte granule. */
  predicate Aligned(x: int) { x % 16 == 0 }

  lemma ZeroAligned()
    ensures Aligned(0)
  {
  }

  lemma AlignedSum(x: int, y: int)
    requires Aligned(x) && Aligned(y)
    ensures Aligned(x + y) && Aligned(x - y) && Aligned(x + 16) && Aligned(x - 16)
  {
  }

  /** Words at different offsets inside aligned blocks are different words. */
  lemma OffsetsApart(x: int, y: int)
    requires Aligned(x) && Aligned(y)
    ensures x + 8 != y && x + 8 != y + 16
  {
  }

  lemma PageMultiple(x: int)
    requires PageAligned(x)
    ensures Aligned(x)
  {
    assert x == (x / PAGE_SIZE * 256) * 16;
  }

  lemma PageSum(x: int, y: int)
    requires PageAligned(x) && PageAligned(y)
    ensures PageAligned(x + y) && PageAligned(PAGE_SIZE)
  {
  }

  lemma PageAtLeast(x: int, y: int)
    requires PageAligned(x) && PageAligned(y) && x < y
    ensures x + PAGE_SIZE <= y
  {
    assert x == PAGE_SIZE * (x / PAGE_SIZE) && y == PAGE_SIZE * (y / PAGE_SIZE);
  }

  /** Rounding up lands on the least multiple of the page size that is not below `x`. */
  lemma RoundUpPage(x: int)
    ensures PageAligned(RoundUp(x, PAGE_SIZE))
    ensures x <= RoundUp(x, PAGE_SIZE) < x + PAGE_SIZE
    ensures PageAligned(x) ==> RoundUp(x, PAGE_SIZE) == x
  {
    var q, r := (x + PAGE_SIZE - 1) / PAGE_SIZE, (x + PAGE_SIZE - 1) % PAGE_SIZE;
    assert RoundUp(x, PAGE_SIZE) == q * PAGE_SIZE;
  }

  lemma TimesAtLeast(k: int, a: int)
    requires a > 0
    ensures k >= 1 ==> k * a >= a
    ensures k <= -1 ==> k * a <= -a
  {
  }

  /** Quotient and remainder are the only pair that fits. */
  lemma Remainder(x: int, a: int, q: int, r: int)
    requires a > 0 && x == q * a + r && 0 <= r < a
    ensures x / a == q && x % a == r
  {
    var q', r' := x / a, x % a;
    assert x == q' * a + r';
    var d := q - q';
    assert d * a == r' - r by {
      assert d * a == q * a - q' * a;
    }
    TimesAtLeast(d, a);
  }

  /** `ALIGN_UP` to a page is exact below the last page of the address space and 0 inside it. */
  lemma AlignUpPage(x: int)
    requires 0 <= x < TWO64
    ensures x + PAGE_SIZE - 1 < TWO64 ==> AlignUp(x, PAGE_SIZE) == RoundUp(x, PAGE_SIZE)
    ensures x + PAGE_SIZE - 1 >= TWO64 ==> AlignUp(x, PAGE_SIZE) == 0 && RoundUp(x, PAGE_SIZE) == TWO64
  {
    var y := x + PAGE_SIZE - 1;
    if y >= TWO64 {
      Remainder(y, TWO64, 1, y - TWO64);
      Remainder(y - TWO64, PAGE_SIZE, 0, y - TWO64);
      Remainder(y, PAGE_SIZE, 0x10_0000_0000_0000, y - TWO64);
    } else {
      Remainder(y, TWO64, 0, y);
    }
  }

  lemma EveryEighth(a: int, i: int)
    requires Aligned(a)
    ensures Aligned(a + 8 * i) || Aligned(a + 8 * i - 8)
  {
    assert a == 16 * (a / 16);
    assert i == 2 * (i / 2) + i % 2;
    assert a + 8 * i == 16 * (a / 16 + i / 2) + 8 * (i % 2);
  }

  /** `ALIGN_UP` to the granule is exact below the last granule of the address space and 0 inside it. */
  lemma AlignUpGranule(x: int, q: int)
    requires 0 <= x < TWO64 && 16 * q - 16 < x <= 16 * q
    ensures RoundUp(x, 16) == 16 * q
    ensures AlignUp(x, 16) == if x + 15 < TWO64 then 16 * q else 0
  {
    var y := x + 15;
    Remainder(y, 16, q, y - 16 * q);
    if y < TWO64 {
      Remainder(y, TWO64, 0, y);
    } else {
      Remainder(y, TWO64, 1, y - TWO64);
      Remainder(y - TWO64, 16, 0, y - TWO64);
    }
  }
}
