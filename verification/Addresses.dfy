/**
 Virtual addresses and the physical pages that leaves stand for.
 */
module Addresses {
  import opened Options
  import opened Words
  import opened PageTables

  /** One past the last page number: 48-bit addresses have 36 bits of page number. */
  const PAGES: int := 0x10_0000_0000

  /** The table indices of virtual page number `v`. */
  function PageOf(v: int): Page
    requires 0 <= v < PAGES
  {
    [v / 512 / 512 / 512, v / 512 / 512 % 512, v / 512 % 512, v % 512]
  }

  /** The page number that a list of indices names. */
  function NumberOf(p: Page): int {
    ((p[0] * 512 + p[1]) * 512 + p[2]) * 512 + p[3]
  }

  lemma PageOfRoundTrip(v: int)
    requires 0 <= v < PAGES
    ensures NumberOf(PageOf(v)) == v
  {
  }

  /** Pages share a last-level table, or a 2 MiB leaf, when their numbers agree up to the last index. */
  lemma SameRegion(v: int, w: int)
    requires 0 <= v < PAGES && 0 <= w < PAGES
    ensures PageOf(v)[..3] == PageOf(w)[..3] <==> v / 512 == w / 512
    ensures PageOf(v) == PageOf(w) <==> v == w
  {
    var p, q := PageOf(v), PageOf(w);
    PageOfRoundTrip(v);
    PageOfRoundTrip(w);
    assert NumberOf(p) == v && NumberOf(q) == w;
    assert v / 512 == (p[0] * 512 + p[1]) * 512 + p[2];
    assert w / 512 == (q[0] * 512 + q[1]) * 512 + q[2];
    if p[..3] == q[..3] {
      assert p[0] == p[..3][0] && p[1] == p[..3][1] && p[2] == p[..3][2];
      assert q[0] == q[..3][0] && q[1] == q[..3][1] && q[2] == q[..3][2];
    }
  }

  // ---------- bytes ----------

  /** `VirtualAddressToOffsets`: nine bits each at 39, 30, 21 and 12. */
  function Offsets(address: int): Page
    requires 0 <= address < TWO64
  {
    [address / 0x80_0000_0000 % 512, address / 0x4000_0000 % 512, address / 0x20_0000 % 512, address / 0x1000 % 512]
  }

  /** `OffsetToVirtualAddress`: the indices shifted back; the bits do not overlap, so OR is a sum. */
  function FromOffsets(p: Page): int {
    p[0] * 0x80_0000_0000 + p[1] * 0x4000_0000 + p[2] * 0x20_0000 + p[3] * 0x1000
  }

  /** Indices forget the byte within the page and everything above bit 47. */
  lemma OffsetsForget(address: int)
    requires 0 <= address < TWO64
    ensures Offsets(address) == PageOf(address / PAGE_SIZE % PAGES)
    ensures FromOffsets(Offsets(address)) == address / PAGE_SIZE % PAGES * PAGE_SIZE
  {
    hide PageOf;
    var n := address / PAGE_SIZE;
    DivDiv(address);
    IndicesForget(n);
    PageOfRoundTrip(n % PAGES);
  }

  /** Reducing a page number to 36 bits keeps its indices. */
  lemma IndicesForget(n: int)
    requires 0 <= n
    ensures PageOf(n % PAGES) == [n / 512 / 512 / 512 % 512, n / 512 / 512 % 512, n / 512 % 512, n % 512]
  {
    var h, v := n / PAGES, n % PAGES;
    var a1 := v / 512;
    var a2 := a1 / 512;
    var a3 := a2 / 512;
    Remainder(n, 512, 0x800_0000 * h + a1, v % 512);
    Remainder(n / 512, 512, 0x4_0000 * h + a2, a1 % 512);
    Remainder(n / 512 / 512, 512, 512 * h + a3, a2 % 512);
    Remainder(512 * h + a3, 512, h, a3);
  }

  /** So an address survives the round trip exactly when it is a page-aligned lower-half one. */
  lemma OffsetsRoundTrip(address: int)
    requires 0 <= address < TWO64
    ensures FromOffsets(Offsets(address)) == address <==> PageAligned(address) && address < PAGES * PAGE_SIZE
  {
    OffsetsForget(address);
  }

  /** The first address of the upper half comes back without its sign extension, an odd one without its last bits. */
  lemma OffsetsLose()
    ensures FromOffsets(Offsets(0xFFFF_8000_0000_0000)) == 0x8000_0000_0000
    ensures FromOffsets(Offsets(0x1234_5678)) == 0x1234_5000
  {
    OffsetsForget(0xFFFF_8000_0000_0000);
    OffsetsForget(0x1234_5678);
  }

  lemma DivDiv(a: int)
    requires 0 <= a
    ensures a / 0x20_0000 == a / 0x1000 / 512
    ensures a / 0x4000_0000 == a / 0x1000 / 512 / 512
    ensures a / 0x80_0000_0000 == a / 0x1000 / 512 / 512 / 512
  {
  }

  // ---------- leaves as targets ----------

  /** Bitwise OR of two naturals. */
  function BitOr(x: nat, y: nat): nat {
    if x == 0 && y == 0 then 0 else 2 * BitOr(x / 2, y / 2) + (if x % 2 == 1 || y % 2 == 1 then 1 else 0)
  }

  /**
   The frame a 2 MiB leaf gives to the page with last index `low`. The source masks with
   0x000FFFFFFFFFE000, which clears only bit 12 of the stored address, and then ORs the low bits in.
   */
  function LargeTarget(frame: nat, low: nat): nat {
    BitOr(frame - frame % 2, low)
  }

  lemma {:induction false} OrAdds(x: nat, y: nat, k: nat)
    requires x % Pow2(k) == 0 && y < Pow2(k)
    ensures BitOr(x, y) == x + y
    decreases k
  {
    if k == 0 {
      OrZero(x);
    } else {
      HalfMultiple(x, k);
      OrAdds(x / 2, y / 2, k - 1);
    }
  }

  function Pow2(k: nat): (r: nat)
    ensures r >= 1
  {
    if k == 0 then 1 else 2 * Pow2(k - 1)
  }

  lemma {:induction false} OrZero(x: nat)
    ensures BitOr(x, 0) == x
  {
    if x != 0 { OrZero(x / 2); }
  }

  lemma {:induction false} OrSelf(x: nat)
    ensures BitOr(x, x) == x
  {
    if x != 0 { OrSelf(x / 2); }
  }

  lemma HalfMultiple(x: nat, k: nat)
    requires k > 0 && Pow2(k) > 0 && x % Pow2(k) == 0
    ensures Pow2(k - 1) > 0 && x % 2 == 0 && x / 2 % Pow2(k - 1) == 0
  {
    var m := Pow2(k - 1);
    var d := x / (2 * m);
    assert x == 2 * m * d;
    assert x / 2 == d * m;
    Remainder(x / 2, m, d, 0);
  }

  /** A 2 MiB leaf sends its 512 pages to consecutive frames exactly when its frame is 2 MiB aligned. */
  lemma LargeLeafExact(frame: nat)
    ensures frame % 512 == 0 <==> forall low: nat :: low < 512 ==> LargeTarget(frame, low) == frame + low
  {
    if frame % 512 == 0 {
      forall low: nat | low < 512 ensures LargeTarget(frame, low) == frame + low { LargeLeafAligned(frame, low); }
    } else {
      LargeLeafMisaligned(frame);
    }
  }

  /** A misaligned 2 MiB leaf misplaces its first page or the page at its own misalignment. */
  lemma LargeLeafMisaligned(frame: nat)
    requires frame % 512 != 0
    ensures LargeTarget(frame, 0) != frame || LargeTarget(frame, frame % 512) != frame + frame % 512
  {
    var low := frame % 512;
    OrZero(frame - frame % 2);
    if frame % 2 == 0 {
      assert Pow2(9) == 512;
      assert (frame - low) % 512 == 0;
      SplitOr(frame - low, low, 9);
    }
  }

  lemma LargeLeafAligned(frame: nat, low: nat)
    requires frame % 512 == 0 && low < 512
    ensures LargeTarget(frame, low) == frame + low
  {
    assert frame == 2 * (256 * (frame / 512));
    assert Pow2(9) == 512;
    OrAdds(frame, low, 9);
  }

  /** OR-ing the low bits of a number into it again changes nothing. */
  lemma {:induction false} SplitOr(x: nat, y: nat, k: nat)
    requires x % Pow2(k) == 0 && y < Pow2(k)
    ensures BitOr(x + y, y) == x + y
    decreases k
  {
    if k == 0 {
      OrZero(x);
    } else {
      HalfMultiple(x, k);
      SplitOr(x / 2, y / 2, k - 1);
    }
  }

  /** The frame that `walk_va_to_pa` computes for page `p` from the leaf it found. */
  function Target(l: Leaf, p: Page): Option<nat> {
    match l
    case Missing => None
    case Small(e) => Some(e.frame)
    case Huge(e, level) =>
      if level == 2 then Some(LargeTarget(e.frame, p[3]))
      else Some(e.frame - e.frame % 0x4_0000 + p[2] * 512 + p[3])
  }

  /** The frame behind virtual page number `v`. */
  function FrameOf(ts: Tables, root: int, v: int): Option<nat>
    requires 0 <= v < PAGES
  {
    Target(Walk(ts, root, PageOf(v)), PageOf(v))
  }

  /** What the leaf of virtual page number `v` allows. */
  function RightsAt(ts: Tables, root: int, v: int): Option<Rights>
    requires 0 <= v < PAGES
  {
    LeafRights(Walk(ts, root, PageOf(v)))
  }

  /** Pages [v, v + n) translate to frames [f, f + n), with rights `r`; every other page walks as before. */
  ghost predicate RangeMapped(ts: Tables, ts': Tables, root: int, v: int, f: nat, n: nat, r: Rights) {
    && (forall x {:trigger FrameOf(ts', root, x)} {:trigger RightsAt(ts', root, x)} :: 0 <= x < PAGES && v <= x < v + n
          ==> FrameOf(ts', root, x) == Some(f + (x - v)) && RightsAt(ts', root, x) == Some(r))
    && (forall x {:trigger PageOf(x)} :: 0 <= x < PAGES && !(v <= x < v + n)
          ==> Walk(ts', root, PageOf(x)) == Walk(ts, root, PageOf(x)))
  }

  /** One more small page at the end of a mapped range. */
  lemma ExtendSmall(ts0: Tables, ts: Tables, ts': Tables, root: int, v: int, f: nat, k: nat, e: Entry)
    requires 0 <= v && v + k < PAGES && RangeMapped(ts0, ts, root, v, f, k, EntryRights(e)) && e.frame == f + k
    requires forall p: Page :: Walk(ts', root, p) == if p == PageOf(v + k) then Small(e) else Walk(ts, root, p)
    ensures RangeMapped(ts0, ts', root, v, f, k + 1, EntryRights(e))
  {
    hide Walk, PageOf;
    forall x | 0 <= x < PAGES && v <= x < v + k + 1
      ensures FrameOf(ts', root, x) == Some(f + (x - v)) && RightsAt(ts', root, x) == Some(EntryRights(e))
    {
      SameRegion(x, v + k);
      assert x != v + k ==> FrameOf(ts, root, x) == Some(f + (x - v));
    }
    forall x | 0 <= x < PAGES && !(v <= x < v + k + 1)
      ensures Walk(ts', root, PageOf(x)) == Walk(ts0, root, PageOf(x))
    {
      SameRegion(x, v + k);
    }
  }

  lemma StillAligned(x: int)
    requires x % 512 == 0
    ensures (x + 512) % 512 == 0
  {
  }

  /** The region of an aligned page number. */
  lemma RegionOf(x: int, b: int)
    requires b % 512 == 0
    ensures x / 512 == b / 512 <==> b <= x < b + 512
    ensures b <= x < b + 512 ==> x % 512 == x - b
  {
    assert b == 512 * (b / 512);
    assert x == 512 * (x / 512) + x % 512;
  }

  lemma LastIndex(x: int)
    requires 0 <= x < PAGES
    ensures PageOf(x)[3] == x % 512
  {
  }

  /** One more 2 MiB leaf at the end of a mapped range. */
  lemma ExtendLarge(ts0: Tables, ts: Tables, ts': Tables, root: int, v: int, f: nat, k: nat, e: Entry)
    requires 0 <= v && v + k + 512 <= PAGES && RangeMapped(ts0, ts, root, v, f, k, EntryRights(e))
    requires (v + k) % 512 == 0 && (f + k) % 512 == 0 && e.frame == f + k
    requires forall p: Page :: Walk(ts', root, p) == if p[..3] == PageOf(v + k)[..3] then Huge(e, 2) else Walk(ts, root, p)
    ensures RangeMapped(ts0, ts', root, v, f, k + 512, EntryRights(e))
  {
    hide Walk, PageOf, LargeTarget;
    forall x | 0 <= x < PAGES && v <= x < v + k + 512
      ensures FrameOf(ts', root, x) == Some(f + (x - v)) && RightsAt(ts', root, x) == Some(EntryRights(e))
    {
      SameRegion(x, v + k);
      RegionOf(x, v + k);
      if x < v + k {
        assert FrameOf(ts, root, x) == Some(f + (x - v));
      } else {
        LastIndex(x);
        LargeLeafAligned(f + k, x % 512);
      }
    }
    forall x | 0 <= x < PAGES && !(v <= x < v + k + 512)
      ensures Walk(ts', root, PageOf(x)) == Walk(ts0, root, PageOf(x))
    {
      SameRegion(x, v + k);
      RegionOf(x, v + k);
    }
  }

  // ---------- translating bytes ----------

  /** `walk_va_to_pa` on a byte address: the frame found, with the offset inside the page. */
  function Translate(ts: Tables, root: int, address: int): Option<int>
    requires 0 <= address < TWO64
  {
    match Target(Walk(ts, root, Offsets(address)), Offsets(address))
    case None => None
    case Some(f) => Some(f * PAGE_SIZE + address % PAGE_SIZE)
  }

  /** A mapped range moves every byte by the same distance; bytes outside translate as before. */
  lemma RangeBytes(ts: Tables, ts': Tables, root: int, v: int, f: nat, n: nat, r: Rights, address: int)
    requires RangeMapped(ts, ts', root, v, f, n, r) && 0 <= v && v + n <= PAGES && 0 <= address < TWO64
    ensures var low := address % (PAGES * PAGE_SIZE);
            Translate(ts', root, address) ==
            if v * PAGE_SIZE <= low < (v + n) * PAGE_SIZE then Some(f * PAGE_SIZE + (low - v * PAGE_SIZE))
            else Translate(ts, root, address)
  {
    hide Walk, PageOf, Target;
    var x := address / PAGE_SIZE % PAGES;
    OffsetsForget(address);
    LowBytes(address);
    assert v <= x < v + n ==> FrameOf(ts', root, x) == Some(f + (x - v));
    assert !(v <= x < v + n) ==> Walk(ts', root, PageOf(x)) == Walk(ts, root, PageOf(x));
  }

  lemma LowBytes(a: int)
    requires 0 <= a
    ensures a % (PAGES * PAGE_SIZE) == a / PAGE_SIZE % PAGES * PAGE_SIZE + a % PAGE_SIZE
  {
    var n := a / PAGE_SIZE;
    Remainder(a, PAGES * PAGE_SIZE, n / PAGES, n % PAGES * PAGE_SIZE + a % PAGE_SIZE);
  }
}
