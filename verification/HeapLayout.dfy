/**
 The words of the kernel heap and what they mean.

 A heap state is the mapped memory (one word per 8 bytes), the first unmapped address and the head of
 the free list. The meaning given to it is a map of blocks, keyed by header address, and the order of
 the free list. Everything here is about values; the class in Heap.dfy runs the pointer-level code.
 */
module HeapLayout {
  import opened Words

  const HEAP_BASE: int := 0xFFFF_9000_0000_0000
  const HEAP_LIMIT: int := HEAP_BASE + 256 * 1024 * 1024

  const ALIGNMENT: int := 16
  const HDR_SIZE: int := 32
  const FTR_SIZE: int := 8
  const OVERHEAD: int := HDR_SIZE + FTR_SIZE
  const MIN_SPLIT_SIZE: int := 32
  const MIN_BLOCK: int := 64

  /** 8-byte words of mapped memory, keyed by byte address. */
  type Memory = map<int, int>

  datatype Block = Block(size: int, live: bool) {
    /** The `size_and_flags` word that header and footer carry. */
    function Tag(): int {
      size + if live then 1 else 0
    }
  }

  type Blocks = map<int, Block>

  // ---------- header and footer words ----------

  function BlkSize(tag: int): int { tag - tag % 2 }

  predicate IsAlloc(tag: int) { tag % 2 == 1 }

  function SetAlloc(tag: int): int { BlkSize(tag) + 1 }

  function ClrAlloc(tag: int): int { BlkSize(tag) }

  function SetSize(tag: int, size: int): int { size + tag % 2 }

  /** How the tag operations read and write the tag of a block of aligned size. */
  lemma TagWords(b: Block, n: int)
    requires Aligned(b.size) && Aligned(n)
    ensures BlkSize(b.Tag()) == b.size && (IsAlloc(b.Tag()) <==> b.live)
    ensures SetAlloc(b.Tag()) == b.(live := true).Tag()
    ensures ClrAlloc(b.Tag()) == b.(live := false).Tag()
    ensures SetSize(b.Tag(), n) == b.(size := n).Tag()
    ensures BlkSize(n) == n
  {
    var q, k := b.size / 16, n / 16;
    Remainder(b.size, 2, 8 * q, 0);
    Remainder(b.size + 1, 2, 8 * q, 1);
    Remainder(n, 2, 8 * k, 0);
    Remainder(n + 1, 2, 8 * k, 1);
  }

  // ---------- the invariant ----------

  /** All words of [HEAP_BASE, curr) are mapped, and nothing outside. */
  ghost predicate Mapped(m: Memory, curr: int) {
    && (forall a {:trigger Aligned(a)} :: Aligned(a) && HEAP_BASE <= a < curr ==> a in m && a + 8 in m)
    && (forall x :: x in m ==> HEAP_BASE <= x < curr)
  }

  /** One block: aligned, large enough, inside the window, and followed by another block or by the end. */
  ghost predicate Placed(blk: Blocks, curr: int, a: int)
    requires a in blk
  {
    var s := blk[a].size;
    && HEAP_BASE <= a && Aligned(a)
    && MIN_BLOCK <= s && Aligned(s)
    && a + s <= curr
    && (a + s == curr || a + s in blk)
  }

  ghost predicate Apart(blk: Blocks, a: int, b: int)
    requires a in blk
  {
    a + blk[a].size <= b
  }

  /** The blocks tile [HEAP_BASE, curr): see `EveryByteInOneBlock`. */
  ghost predicate Tiled(blk: Blocks, curr: int) {
    && HEAP_BASE <= curr <= HEAP_LIMIT && PageAligned(curr)
    && (HEAP_BASE < curr ==> HEAP_BASE in blk)
    && AllPlaced(blk, curr)
    && AllApart(blk)
  }

  ghost predicate AllPlaced(blk: Blocks, curr: int) {
    forall a {:trigger Placed(blk, curr, a)} :: a in blk ==> Placed(blk, curr, a)
  }

  ghost predicate AllApart(blk: Blocks) {
    forall a, b {:trigger Apart(blk, a, b)} :: a in blk && b in blk && a < b ==> Apart(blk, a, b)
  }

  /** Header and footer of every block carry its size and flag. */
  ghost predicate Tagged(m: Memory, blk: Blocks) {
    forall a {:trigger HasTags(m, blk, a)} :: a in blk ==> HasTags(m, blk, a)
  }

  ghost predicate HasTags(m: Memory, blk: Blocks, a: int)
    requires a in blk
  {
    && a in m && m[a] == blk[a].Tag()
    && FooterOf(blk, a) in m && m[FooterOf(blk, a)] == blk[a].Tag()
  }

  ghost function FooterOf(blk: Blocks, a: int): int
    requires a in blk
  {
    a + blk[a].size - FTR_SIZE
  }

  function Nth(fl: seq<int>, i: int): int {
    if 0 <= i < |fl| then fl[i] else 0
  }

  /** The `i`-th block of the free list points back and forth as the list says. */
  ghost predicate Linked(m: Memory, fl: seq<int>, i: int)
    requires 0 <= i < |fl|
  {
    && fl[i] > 0 && Aligned(fl[i])
    && fl[i] + 8 in m && m[fl[i] + 8] == Nth(fl, i - 1)
    && fl[i] + 16 in m && m[fl[i] + 16] == Nth(fl, i + 1)
  }

  ghost predicate Distinct(fl: seq<int>) {
    forall i, j :: 0 <= i < j < |fl| ==> fl[i] != fl[j]
  }

  /** `fl` is the free list: acyclic, linked both ways, ending in NULL at both ends. */
  ghost predicate Listed(m: Memory, head: int, fl: seq<int>) {
    && head == Nth(fl, 0)
    && Distinct(fl)
    && (forall i {:trigger Linked(m, fl, i)} :: 0 <= i < |fl| ==> Linked(m, fl, i))
  }

  ghost predicate FreeExactly(blk: Blocks, fl: seq<int>) {
    forall a :: a in fl <==> a in blk && !blk[a].live
  }

  ghost predicate Meets(blk: Blocks, a: int) {
    && a in blk && !blk[a].live
    && a + blk[a].size in blk && !blk[a + blk[a].size].live
  }

  /** Two free blocks meet only where the heap was once extended. */
  ghost predicate Seamed(blk: Blocks, seams: set<int>) {
    forall a {:trigger Meets(blk, a)} :: Meets(blk, a) ==> a + blk[a].size in seams
  }

  // ---------- tiling ----------

  ghost predicate Inside(blk: Blocks, a: int, x: int) {
    a in blk && a <= x < a + blk[a].size
  }

  /** The block holding address `x`, found by stepping over blocks from the base. */
  lemma {:induction false} BlockAt(blk: Blocks, curr: int, from: int, x: int) returns (a: int)
    requires Tiled(blk, curr)
    requires from in blk && from <= x < curr
    ensures Inside(blk, a, x)
    decreases curr - from
  {
    a := from;
    assert Placed(blk, curr, from);
    if x >= from + blk[from].size {
      a := BlockAt(blk, curr, from + blk[from].size, x);
    }
  }

  lemma OnlyOneInside(blk: Blocks, curr: int, a: int, b: int, x: int)
    requires Tiled(blk, curr)
    requires Inside(blk, a, x) && Inside(blk, b, x)
    ensures a == b
  {
    assert a < b ==> Apart(blk, a, b);
    assert b < a ==> Apart(blk, b, a);
  }

  /** Without gap and without overlap: every address of the window lies in exactly one block. */
  lemma EveryByteInOneBlock(blk: Blocks, curr: int, x: int)
    requires Tiled(blk, curr)
    requires HEAP_BASE <= x < curr
    ensures exists a :: Inside(blk, a, x)
    ensures forall a, b :: Inside(blk, a, x) && Inside(blk, b, x) ==> a == b
  {
    var _ := BlockAt(blk, curr, HEAP_BASE, x);
    forall a, b | Inside(blk, a, x) && Inside(blk, b, x) ensures a == b {
      OnlyOneInside(blk, curr, a, b, x);
    }
  }

  /** Every block but the first has a block ending where it begins. */
  lemma Predecessor(blk: Blocks, curr: int, b: int) returns (a: int)
    requires Tiled(blk, curr)
    requires b in blk && HEAP_BASE < b
    ensures a in blk && a + blk[a].size == b
  {
    assert Placed(blk, curr, b);
    a := BlockAt(blk, curr, HEAP_BASE, b - 1);
    assert Apart(blk, a, b);
  }

  lemma MinTail()
    ensures TotalSize(MIN_SPLIT_SIZE) == 80
  {
  }

  /** What splitting block `h` after `n` bytes makes of the blocks. */
  ghost function Split(blk: Blocks, h: int, n: int): Blocks
    requires h in blk
  {
    blk[h := Block(n, true)][h + n := Block(blk[h].size - n, false)]
  }

  /** What swallowing the block after `h` makes of the blocks. */
  ghost function Merge(blk: Blocks, h: int): Blocks
    requires h in blk && h + blk[h].size in blk
  {
    (blk - {h + blk[h].size})[h := Block(blk[h].size + blk[h + blk[h].size].size, blk[h].live)]
  }

  ghost function Mark(blk: Blocks, h: int, live: bool): Blocks
    requires h in blk
  {
    blk[h := Block(blk[h].size, live)]
  }

  lemma SplitApart(blk: Blocks, curr: int, h: int, n: int)
    requires Tiled(blk, curr) && h in blk
    requires 0 < n < blk[h].size
    ensures AllApart(Split(blk, h, n))
    ensures h + n !in blk
  {
    var blk' := Split(blk, h, n);
    assert h + n in blk ==> Apart(blk, h, h + n);
    forall a, b | a in blk' && b in blk' && a < b ensures Apart(blk', a, b) {
      if a == h + n {
        assert Apart(blk, h, b);
      } else if b == h + n {
        assert h < a ==> Apart(blk, h, a);
        assert a < h ==> Apart(blk, a, h);
      } else {
        assert Apart(blk, a, b);
      }
    }
  }

  lemma SplitTiled(blk: Blocks, curr: int, h: int, n: int)
    requires Tiled(blk, curr) && h in blk
    requires MIN_BLOCK <= n && Aligned(n) && n + MIN_BLOCK <= blk[h].size
    ensures Tiled(Split(blk, h, n), curr)
    ensures h + n !in blk
  {
    hide Aligned;
    var blk' := Split(blk, h, n);
    assert Placed(blk, curr, h);
    AlignedSum(h, n);
    AlignedSum(blk[h].size, n);
    SplitApart(blk, curr, h, n);
    forall a | a in blk' ensures Placed(blk', curr, a) {
      if a in blk { assert Placed(blk, curr, a); }
    }
  }

  lemma MergeApart(blk: Blocks, curr: int, h: int)
    requires Tiled(blk, curr) && h in blk && h + blk[h].size in blk
    ensures AllApart(Merge(blk, h))
    ensures forall a :: a in blk && a != h ==> a + blk[a].size != h + blk[h].size
  {
    var blk', n := Merge(blk, h), h + blk[h].size;
    assert Placed(blk, curr, n);
    forall a | a in blk && a != h ensures a + blk[a].size != n {
      assert Placed(blk, curr, h) && Placed(blk, curr, a);
      assert h < a ==> Apart(blk, h, a);
      assert a < h ==> Apart(blk, a, h);
    }
    forall a, b | a in blk' && b in blk' && a < b ensures Apart(blk', a, b) {
      assert Apart(blk, a, b);
      assert a == h ==> b != n && Apart(blk, n, b);
    }
  }

  lemma MergeTiled(blk: Blocks, curr: int, h: int)
    requires Tiled(blk, curr) && h in blk && h + blk[h].size in blk
    ensures Tiled(Merge(blk, h), curr)
  {
    hide Aligned;
    var blk', n := Merge(blk, h), h + blk[h].size;
    assert Placed(blk, curr, h) && Placed(blk, curr, n);
    AlignedSum(blk[h].size, blk[n].size);
    MergeApart(blk, curr, h);
    forall a | a in blk' ensures Placed(blk', curr, a) {
      assert Placed(blk, curr, a);
    }
  }

  lemma MarkTiled(blk: Blocks, curr: int, h: int, live: bool)
    requires Tiled(blk, curr) && h in blk
    ensures Tiled(Mark(blk, h, live), curr)
  {
    var blk' := Mark(blk, h, live);
    forall a | a in blk' ensures Placed(blk', curr, a) { assert Placed(blk, curr, a); }
    forall a, b | a in blk' && b in blk' && a < b ensures Apart(blk', a, b) { assert Apart(blk, a, b); }
  }

  lemma GrowTiled(blk: Blocks, curr: int, need: int)
    requires Tiled(blk, curr)
    requires 0 < need && PageAligned(need) && curr + need <= HEAP_LIMIT
    ensures Tiled(blk[curr := Block(need, false)], curr + need)
    ensures curr !in blk
  {
    hide Aligned, PageAligned;
    var blk' := blk[curr := Block(need, false)];
    PageSum(curr, need);
    forall a | a in blk ensures a + blk[a].size <= curr && a < curr { assert Placed(blk, curr, a); }
    forall a, b | a in blk' && b in blk' && a < b ensures Apart(blk', a, b) {
      if b in blk { assert Apart(blk, a, b); }
    }
    assert AllPlaced(blk', curr + need) by {
      PageMultiple(curr);
      PageMultiple(need);
      PageSum(curr, PAGE_SIZE);
      PageAtLeast(curr, curr + need);
      forall a | a in blk' ensures Placed(blk', curr + need, a) {
        if a in blk { assert Placed(blk, curr, a); }
      }
    }
  }

  // ---------- frames ----------

  /** Only link words of the blocks in `fl` differ between `m` and `m'`. */
  ghost predicate LinksOnly(m: Memory, m': Memory, fl: seq<int>) {
    && m'.Keys == m.Keys
    && forall x :: x in m && x - 8 !in fl && x - 16 !in fl ==> m'[x] == m[x]
  }

  /** No word of a live block other than `except` differs between `m` and `m'`. */
  ghost predicate LiveKept(blk: Blocks, m: Memory, m': Memory, except: int) {
    forall a, x {:trigger Inside(blk, a, x)} ::
      Inside(blk, a, x) && blk[a].live && a != except && x in m ==> x in m' && m'[x] == m[x]
  }

  /** Writing links of free blocks disturbs no header, no footer and no live block. */
  lemma LinkWrites(m: Memory, m': Memory, blk: Blocks, curr: int, fl: seq<int>)
    requires Tiled(blk, curr) && LinksOnly(m, m', fl)
    requires forall f :: f in fl ==> f in blk && !blk[f].live
    ensures forall a {:trigger HasTags(m', blk, a)} :: a in blk && HasTags(m, blk, a) ==> HasTags(m', blk, a)
    ensures forall except :: LiveKept(blk, m, m', except)
  {
    forall a, x | Inside(blk, a, x) && x in m && (blk[a].live || x == a || x == FooterOf(blk, a))
      ensures m'[x] == m[x]
    {
      NotALink(blk, curr, fl, a, x);
    }
    forall a | a in blk && HasTags(m, blk, a) ensures HasTags(m', blk, a) {
      assert Placed(blk, curr, a);
      assert Inside(blk, a, a) && Inside(blk, a, FooterOf(blk, a));
    }
  }

  lemma NotALink(blk: Blocks, curr: int, fl: seq<int>, a: int, x: int)
    requires Tiled(blk, curr)
    requires forall f :: f in fl ==> f in blk && !blk[f].live
    requires Inside(blk, a, x) && (blk[a].live || x == a || x == FooterOf(blk, a))
    ensures x - 8 !in fl && x - 16 !in fl
  {
    forall f | f in fl && (x == f + 8 || x == f + 16) ensures false {
      assert Placed(blk, curr, f);
      OnlyOneInside(blk, curr, a, f, x);
    }
  }

  // ---------- list surgery ----------

  /** `fl_push`, word by word. */
  function Pushed(m: Memory, head: int, b: int): Memory {
    var m1 := m[b + 8 := 0][b + 16 := head];
    if head != 0 then m1[head + 8 := b] else m1
  }

  lemma PushListed(m: Memory, head: int, fl: seq<int>, b: int)
    requires Listed(m, head, fl)
    requires b > 0 && Aligned(b) && b + 8 in m && b + 16 in m && b !in fl
    ensures Listed(Pushed(m, head, b), b, [b] + fl)
    ensures LinksOnly(m, Pushed(m, head, b), [b] + fl)
  {
    hide Aligned;
    var m', fl' := Pushed(m, head, b), [b] + fl;
    if |fl| > 0 { assert Linked(m, fl, 0); OffsetsApart(fl[0], b); OffsetsApart(b, fl[0]); }
    OffsetsApart(b, b);
    forall i | 0 <= i < |fl'| ensures Linked(m', fl', i) {
      if i > 0 {
        assert Linked(m, fl, i - 1);
        assert fl'[i] == fl[i - 1];
        OffsetsApart(b, fl'[i]);
        OffsetsApart(fl'[i], b);
        OffsetsApart(fl[0], fl'[i]);
      }
    }
  }

  /** `fl_remove`, word by word. */
  function Removed(m: Memory, b: int): Memory
    requires b + 8 in m && b + 16 in m
  {
    var prev, next := m[b + 8], m[b + 16];
    var m1 := if prev != 0 then m[prev + 16 := next] else m;
    var m2 := if next != 0 then m1[next + 8 := prev] else m1;
    m2[b + 8 := 0][b + 16 := 0]
  }

  /** What `fl_remove(b)` leaves in the links of another block `c`. */
  lemma RemovedAt(m: Memory, b: int, c: int)
    requires b + 8 in m && b + 16 in m && c + 8 in m && c + 16 in m && c != b
    requires Aligned(b) && Aligned(c) && Aligned(m[b + 8]) && Aligned(m[b + 16])
    ensures
      var prev, next, m' := m[b + 8], m[b + 16], Removed(m, b);
      && c + 8 in m' && m'[c + 8] == (if c == next && next != 0 then prev else m[c + 8])
      && c + 16 in m' && m'[c + 16] == (if c == prev && prev != 0 then next else m[c + 16])
  {
    hide Aligned;
    var prev, next := m[b + 8], m[b + 16];
    OffsetsApart(b, c);
    OffsetsApart(c, b);
    OffsetsApart(next, c);
    OffsetsApart(c, prev);
  }

  lemma RemovedKeys(m: Memory, b: int, fl: seq<int>)
    requires b + 8 in m && b + 16 in m && b in fl
    requires m[b + 8] != 0 ==> m[b + 8] in fl && m[b + 8] + 16 in m
    requires m[b + 16] != 0 ==> m[b + 16] in fl && m[b + 16] + 8 in m
    ensures LinksOnly(m, Removed(m, b), fl)
  {
  }

  lemma RemoveListed(m: Memory, head: int, fl: seq<int>, k: int)
    requires Listed(m, head, fl) && 0 <= k < |fl|
    ensures fl[k] + 8 in m && fl[k] + 16 in m
    ensures
      var prev, next := m[fl[k] + 8], m[fl[k] + 16];
      && (prev != 0 ==> prev != fl[k] && prev + 8 != fl[k] && prev + 16 in m)
      && (next != 0 ==> next != fl[k] && next != fl[k] + 8 && next + 8 in m)
      && Listed(Removed(m, fl[k]), if prev != 0 then head else next, fl[..k] + fl[k + 1..])
    ensures LinksOnly(m, Removed(m, fl[k]), fl)
  {
    hide Aligned, Removed, LinksOnly;
    var b := fl[k];
    assert Linked(m, fl, k);
    var prev, next := m[b + 8], m[b + 16];
    var m', fl' := Removed(m, b), fl[..k] + fl[k + 1..];
    if k > 0 { assert Linked(m, fl, k - 1); OffsetsApart(prev, b); } else { ZeroAligned(); }
    if k + 1 < |fl| { assert Linked(m, fl, k + 1); OffsetsApart(b, next); } else { ZeroAligned(); }
    RemovedKeys(m, b, fl);
    forall i | 0 <= i < |fl'| ensures Linked(m', fl', i) {
      var j := if i < k then i else i + 1;
      assert Linked(m, fl, j) && fl'[i] == fl[j] != b;
      RemovedAt(m, b, fl[j]);
    }
  }

  // ---------- writes inside one block ----------

  /** Only words of [lo, hi) differ between `m` and `m'`. */
  ghost predicate WithinOnly(m: Memory, m': Memory, lo: int, hi: int) {
    && m'.Keys == m.Keys
    && forall x :: x in m && !(lo <= x < hi) ==> m'[x] == m[x]
  }

  /** Rewriting words of block `h` disturbs neither the other blocks nor a free list without `h`. */
  lemma BlockWrites(m: Memory, m': Memory, blk: Blocks, curr: int, h: int, head: int, fl: seq<int>)
    requires Tiled(blk, curr) && h in blk
    requires WithinOnly(m, m', h, h + blk[h].size)
    requires Listed(m, head, fl) && h !in fl
    requires forall f :: f in fl ==> f in blk
    ensures forall a {:trigger HasTags(m', blk, a)} :: a in blk && a != h && HasTags(m, blk, a) ==> HasTags(m', blk, a)
    ensures Listed(m', head, fl)
    ensures LiveKept(blk, m, m', h)
  {
    forall a, x | Inside(blk, a, x) && a != h && x in m ensures m'[x] == m[x] {
      if h <= x < h + blk[h].size { OnlyOneInside(blk, curr, a, h, x); }
    }
    forall a | a in blk && a != h && HasTags(m, blk, a) ensures HasTags(m', blk, a) {
      assert Placed(blk, curr, a);
      assert Inside(blk, a, a) && Inside(blk, a, FooterOf(blk, a));
    }
    forall i | 0 <= i < |fl| ensures Linked(m', fl, i) {
      assert Linked(m, fl, i) && Placed(blk, curr, fl[i]);
      assert Inside(blk, fl[i], fl[i] + 8) && Inside(blk, fl[i], fl[i] + 16);
    }
  }

  /** Every live block of `blk` but `except` is still there in `blk'`. */
  ghost predicate LiveIn(blk: Blocks, blk': Blocks, except: int) {
    forall a :: a in blk && blk[a].live && a != except ==> a in blk' && blk'[a] == blk[a]
  }

  lemma LiveChain(blk: Blocks, blk': Blocks, m: Memory, m': Memory, m'': Memory, except: int)
    requires LiveKept(blk, m, m', except) && LiveKept(blk', m', m'', except) && LiveIn(blk, blk', except)
    ensures LiveKept(blk, m, m'', except)
  {
    forall a, x | Inside(blk, a, x) && blk[a].live && a != except && x in m ensures x in m'' && m''[x] == m[x] {
      assert Inside(blk', a, x);
    }
  }

  // ---------- sizes ----------

  /** `total_size_for_payload`: 64-bit, so it wraps for requests near 2^64. */
  function TotalSize(payload: int): int {
    AlignUp((AlignUp(payload, ALIGNMENT) + OVERHEAD) % TWO64, ALIGNMENT)
  }

  function IdealTotal(payload: int): int {
    RoundUp(payload, ALIGNMENT) + 48
  }

  lemma TotalSizeExact(payload: int)
    requires 0 < payload <= TWO64 - 64
    ensures TotalSize(payload) == IdealTotal(payload)
    ensures payload + 48 <= IdealTotal(payload) <= payload + 63
    ensures Aligned(IdealTotal(payload)) && IdealTotal(payload) >= MIN_BLOCK
  {
    hide AlignUp, RoundUp;
    var q := (payload + 15) / 16;
    AlignUpGranule(payload, q);
    Remainder(16 * q + 40, TWO64, 0, 16 * q + 40);
    AlignUpGranule(16 * q + 40, q + 3);
    assert IdealTotal(payload) == 16 * (q + 3);
  }

  // ---------- free lists with one block held back ----------

  /** The list holds every free block except `h`, which is on its way in or out. */
  ghost predicate FreeBut(blk: Blocks, fl: seq<int>, h: int) {
    forall a :: a in fl <==> a in blk && !blk[a].live && a != h
  }

  /** Adjacent free blocks meet at a seam, unless `h` is the left (`l`) or right (`r`) one of them. */
  ghost predicate SeamedBut(blk: Blocks, seams: set<int>, h: int, l: bool, r: bool) {
    forall a {:trigger Meets(blk, a)} :: Meets(blk, a) && !(l && a == h) && !(r && a + blk[a].size == h)
      ==> a + blk[a].size in seams
  }

  /** What the allocator may rely on when it touches block `h`. */
  lemma BlockFacts(m: Memory, blk: Blocks, curr: int, h: int)
    requires Tiled(blk, curr) && Mapped(m, curr) && Tagged(m, blk) && h in blk
    ensures h in m && h + 8 in m && h + 16 in m && FooterOf(blk, h) in m
    ensures m[h] == blk[h].Tag() && m[FooterOf(blk, h)] == blk[h].Tag()
    ensures HEAP_BASE <= h && Aligned(h)
    ensures MIN_BLOCK <= blk[h].size && Aligned(blk[h].size) && h + blk[h].size <= curr
    ensures h + blk[h].size < curr <==> h + blk[h].size in blk
  {
    hide Aligned;
    assert Placed(blk, curr, h) && HasTags(m, blk, h);
    AlignedSum(h, blk[h].size);
    AlignedSum(h + blk[h].size, h);
    if h + blk[h].size in blk { assert Placed(blk, curr, h + blk[h].size); }
  }

  /** Words at an aligned address inside the window. */
  lemma WordsAt(m: Memory, curr: int, a: int)
    requires Mapped(m, curr) && Aligned(a) && HEAP_BASE + 16 <= a && a + 32 <= curr
    ensures a - 8 in m && a in m && a + 8 in m && a + 16 in m
  {
    hide Aligned;
    AlignedSum(a, a);
    assert Aligned(a - 16);
  }

  /** The state once both parts of a split carry their tags, the tail not yet listed. */
  lemma SplitDone(m: Memory, m': Memory, blk: Blocks, curr: int, head: int, fl: seq<int>, h: int, n: int)
    requires Tiled(blk, curr) && Tagged(m, blk) && Listed(m, head, fl) && FreeBut(blk, fl, h)
    requires h in blk && !blk[h].live
    requires MIN_BLOCK <= n && Aligned(n) && n + MIN_BLOCK <= blk[h].size
    requires WithinOnly(m, m', h, h + blk[h].size)
    requires h in m && h + n - 8 in m && h + n in m && FooterOf(blk, h) in m
    requires m'[h] == n + 1 && m'[h + n - 8] == n + 1
    requires m'[h + n] == blk[h].size - n && m'[FooterOf(blk, h)] == blk[h].size - n
    ensures Tiled(Split(blk, h, n), curr) && Tagged(m', Split(blk, h, n))
    ensures Listed(m', head, fl) && FreeBut(Split(blk, h, n), fl, h + n)
    ensures LiveKept(blk, m, m', 0) && LiveIn(blk, Split(blk, h, n), 0)
  {
    SplitTiled(blk, curr, h, n);
    BlockWrites(m, m', blk, curr, h, head, fl);
    var blk' := Split(blk, h, n);
    forall a | a in blk' ensures HasTags(m', blk', a) {
      if a != h && a != h + n {
        assert HasTags(m, blk, a) && HasTags(m', blk, a);
      }
    }
  }

  /** The same when the whole block is taken. */
  lemma MarkDone(m: Memory, m': Memory, blk: Blocks, curr: int, head: int, fl: seq<int>, h: int, live: bool)
    requires Tiled(blk, curr) && Tagged(m, blk) && Listed(m, head, fl) && FreeBut(blk, fl, h)
    requires h in blk
    requires WithinOnly(m, m', h, h + blk[h].size)
    requires h in m && FooterOf(blk, h) in m
    requires m'[h] == Block(blk[h].size, live).Tag() && m'[FooterOf(blk, h)] == m'[h]
    ensures Tiled(Mark(blk, h, live), curr) && Tagged(m', Mark(blk, h, live))
    ensures Listed(m', head, fl) && FreeBut(Mark(blk, h, live), fl, h)
    ensures LiveKept(blk, m, m', h) && LiveIn(blk, Mark(blk, h, live), h)
  {
    MarkTiled(blk, curr, h, live);
    BlockWrites(m, m', blk, curr, h, head, fl);
    var blk' := Mark(blk, h, live);
    forall a | a in blk' ensures HasTags(m', blk', a) {
      if a != h {
        assert HasTags(m, blk, a) && HasTags(m', blk, a);
      }
    }
  }

  lemma EndsOutside(blk: Blocks, curr: int, h: int, n: int, a: int)
    requires Tiled(blk, curr) && h in blk && a in blk && a != h && 0 < n < blk[h].size
    ensures a + blk[a].size != h + n
  {
    assert Placed(blk, curr, a);
    assert a < h ==> Apart(blk, a, h);
    assert h < a ==> Apart(blk, h, a);
  }

  lemma SplitSeamed(blk: Blocks, curr: int, seams: set<int>, h: int, n: int)
    requires Tiled(blk, curr) && Seamed(blk, seams) && h in blk && !blk[h].live && 0 < n < blk[h].size
    ensures Seamed(Split(blk, h, n), seams)
  {
    var blk' := Split(blk, h, n);
    SplitApart(blk, curr, h, n);
    forall a | Meets(blk', a) ensures a + blk'[a].size in seams {
      var b := a + blk'[a].size;
      if a == h + n {
        assert Meets(blk, h);
      } else {
        EndsOutside(blk, curr, h, n, a);
        assert Meets(blk, a);
      }
    }
  }

  lemma MarkSeamed(blk: Blocks, seams: set<int>, h: int)
    requires Seamed(blk, seams) && h in blk
    ensures Seamed(Mark(blk, h, true), seams)
    ensures SeamedBut(Mark(blk, h, false), seams, h, true, true)
  {
    forall live, a | Meets(Mark(blk, h, live), a) && (live || (a != h && a + blk[a].size != h))
      ensures a + blk[a].size in seams
    {
      assert Meets(blk, a);
    }
  }

  // ---------- merging ----------

  /** The list holds every free block except `h` and `n`. */
  ghost predicate FreeButTwo(blk: Blocks, fl: seq<int>, h: int, n: int) {
    forall a :: a in fl <==> a in blk && !blk[a].live && a != h && a != n
  }

  lemma MergeDone(m: Memory, m': Memory, blk: Blocks, curr: int, head: int, fl: seq<int>, h: int)
    requires Tiled(blk, curr) && Tagged(m, blk) && Listed(m, head, fl)
    requires h in blk && h + blk[h].size in blk && !blk[h + blk[h].size].live
    requires FreeButTwo(blk, fl, h, h + blk[h].size)
    requires WithinOnly(m, m', h, h + Merge(blk, h)[h].size)
    requires h in m && m'[h] == Merge(blk, h)[h].Tag()
    requires FooterOf(Merge(blk, h), h) in m && m'[FooterOf(Merge(blk, h), h)] == m'[h]
    ensures Tiled(Merge(blk, h), curr) && Tagged(m', Merge(blk, h))
    ensures Listed(m', head, fl) && FreeBut(Merge(blk, h), fl, h)
    ensures LiveKept(blk, m, m', h) && LiveIn(blk, Merge(blk, h), h)
  {
    hide Aligned, Tiled;
    var blk' := Merge(blk, h);
    MergeTiled(blk, curr, h);
    BlockWrites(m, m', blk', curr, h, head, fl);
    forall a | a in blk' ensures HasTags(m', blk', a) {
      if a != h {
        assert HasTags(m, blk, a) && HasTags(m, blk', a) && HasTags(m', blk', a);
      }
    }
    forall a, x | Inside(blk, a, x) && blk[a].live && a != h && x in m ensures x in m' && m'[x] == m[x] {
      assert Inside(blk', a, x);
    }
  }

  lemma MergeNextSeamed(blk: Blocks, curr: int, seams: set<int>, h: int)
    requires Tiled(blk, curr) && h in blk && h + blk[h].size in blk && !blk[h + blk[h].size].live
    requires SeamedBut(blk, seams, h, true, true)
    ensures SeamedBut(Merge(blk, h), seams, h, false, true)
  {
    var blk', n := Merge(blk, h), h + blk[h].size;
    assert Placed(blk, curr, h) && Placed(blk, curr, n);
    forall a | Meets(blk', a) && a + blk'[a].size != h ensures a + blk'[a].size in seams {
      if a == h {
        assert Meets(blk, n);
      } else {
        assert Meets(blk, a);
      }
    }
  }

  lemma MergePrevSeamed(blk: Blocks, curr: int, seams: set<int>, p: int)
    requires Tiled(blk, curr) && p in blk && p + blk[p].size in blk && !blk[p + blk[p].size].live && !blk[p].live
    requires SeamedBut(blk, seams, p + blk[p].size, false, true)
    ensures Seamed(Merge(blk, p), seams)
  {
    var blk', h := Merge(blk, p), p + blk[p].size;
    assert Placed(blk, curr, p) && Placed(blk, curr, h);
    MergeApart(blk, curr, p);
    forall a | Meets(blk', a) ensures a + blk'[a].size in seams {
      assert Meets(blk, if a == p then h else a);
    }
  }

  /** A live neighbour, or none, meets nothing. */
  lemma NextNotFree(blk: Blocks, seams: set<int>, h: int)
    requires h in blk && SeamedBut(blk, seams, h, true, true)
    requires h + blk[h].size in blk ==> blk[h + blk[h].size].live
    ensures SeamedBut(blk, seams, h, false, true)
  {
    forall a | Meets(blk, a) && a + blk[a].size != h ensures a + blk[a].size in seams {
      assert a != h;
    }
  }

  lemma PrevNotFree(blk: Blocks, curr: int, seams: set<int>, h: int)
    requires Tiled(blk, curr) && h in blk && SeamedBut(blk, seams, h, false, true)
    requires forall p :: p in blk && p + blk[p].size == h ==> blk[p].live
    ensures Seamed(blk, seams)
  {
  }

  lemma OnlyPredecessor(blk: Blocks, curr: int, p: int, q: int)
    requires Tiled(blk, curr) && p in blk && q in blk && p + blk[p].size == q + blk[q].size
    ensures p == q
  {
    assert Placed(blk, curr, p) && Placed(blk, curr, q);
    OnlyOneInside(blk, curr, p, q, p + blk[p].size - 1);
  }

  lemma BlocksAboveBase(blk: Blocks, curr: int)
    requires Tiled(blk, curr)
    ensures forall a :: a in blk ==> HEAP_BASE <= a < a + blk[a].size <= curr
  {
    forall a | a in blk ensures HEAP_BASE <= a < a + blk[a].size <= curr { assert Placed(blk, curr, a); }
  }

  lemma MappedKept(m: Memory, m': Memory, curr: int)
    requires Mapped(m, curr) && m'.Keys == m.Keys
    ensures Mapped(m', curr)
  {
  }

  lemma NothingWritten(blk: Blocks, m: Memory)
    ensures forall except :: LiveKept(blk, m, m, except)
  {
  }

  /** Excepting a free block excepts nothing. */
  lemma FreeNeverLive(blk: Blocks, m: Memory, m': Memory, h: int)
    requires LiveKept(blk, m, m', h) && (h in blk ==> !blk[h].live)
    ensures LiveKept(blk, m, m', 0)
  {
  }

  /** Nothing mapped, nothing free, nothing live. */
  lemma EmptyHeap()
    ensures Mapped(map[], HEAP_BASE) && Tiled(map[], HEAP_BASE) && Tagged(map[], map[]) && Listed(map[], 0, [])
    ensures FreeExactly(map[], []) && Seamed(map[], {}) && PageAligned(HEAP_BASE) && PageAligned(64 * PAGE_SIZE)
  {
    Remainder(HEAP_BASE, PAGE_SIZE, HEAP_BASE / PAGE_SIZE, 0);
    Remainder(64 * PAGE_SIZE, PAGE_SIZE, 64, 0);
  }

  // ---------- growth ----------

  /** Where `heap_map_more(bytes)` believes the heap will end, in 64-bit arithmetic. */
  function GrowthEnd(curr: int, bytes: int): int {
    (AlignUp(curr, PAGE_SIZE) + AlignUp(bytes, PAGE_SIZE)) % TWO64
  }

  /** What `kmalloc` asks for when no free block fits. */
  function GrowthFor(size: int): int {
    if IdealTotal(size) < 128 * PAGE_SIZE then 128 * PAGE_SIZE else IdealTotal(size)
  }

  /** No free block fits a request for `size` bytes. */
  ghost predicate NothingFits(blk: Blocks, fl: seq<int>, size: int) {
    forall f :: f in fl && f in blk ==> blk[f].size < IdealTotal(size)
  }

  /** `h` is the first block of the free list that is large enough. */
  ghost predicate FirstFit(blk: Blocks, fl: seq<int>, size: int, h: int) {
    exists k :: 0 <= k < |fl| && fl[k] == h && h in blk && IdealTotal(size) <= blk[h].size && NoEarlier(blk, fl, size, k)
  }

  ghost predicate NoEarlier(blk: Blocks, fl: seq<int>, size: int, k: int)
    requires 0 <= k <= |fl|
  {
    forall j :: 0 <= j < k ==> fl[j] in blk && blk[fl[j]].size < IdealTotal(size)
  }

  /** The block a new payload gets: the first fit, or the front of the growth. */
  ghost predicate Chosen(blk: Blocks, fl: seq<int>, curr: int, size: int, h: int) {
    if NothingFits(blk, fl, size) then h == curr else FirstFit(blk, fl, size, h)
  }

  lemma FirstFits(blk: Blocks, fl: seq<int>, size: int, h: int)
    requires FirstFit(blk, fl, size, h) && |fl| > 0 && fl[0] in blk && IdealTotal(size) <= blk[fl[0]].size
    ensures h == fl[0]
  {
    hide IdealTotal;
  }

  /** The window has room for `bytes` more, in whole pages, and `supply` pages can be backed. */
  predicate CanGrow(curr: int, supply: nat, bytes: int) {
    curr + RoundUp(bytes, PAGE_SIZE) <= HEAP_LIMIT && RoundUp(bytes, PAGE_SIZE) <= supply * PAGE_SIZE
  }

  /** The kernel panics when a request for `size` bytes needs a new block. */
  ghost predicate Exhausted(blk: Blocks, fl: seq<int>, curr: int, supply: nat, size: int) {
    NothingFits(blk, fl, size) && !CanGrow(curr, supply, GrowthFor(size))
  }

  /** `krealloc(p, newsize)` needs a new block: neither its own nor its own with a free successor is enough. */
  ghost predicate NeedsNew(blk: Blocks, p: int, newsize: int) {
    newsize > 0 && (p != 0 ==>
      var h := p - HDR_SIZE;
      && h in blk && blk[h].size - OVERHEAD < newsize
      && (h + blk[h].size in blk && !blk[h + blk[h].size].live
          ==> blk[h].size + blk[h + blk[h].size].size - OVERHEAD < newsize))
  }

  /** No address computed while growing by `bytes` passes 2^64. */
  predicate Addressable(curr: int, bytes: int) {
    curr + RoundUp(bytes, PAGE_SIZE) < TWO64
  }

  lemma FirstGrowth(supply: nat)
    ensures RoundUp(64 * PAGE_SIZE, PAGE_SIZE) == 64 * PAGE_SIZE && Addressable(HEAP_BASE, 64 * PAGE_SIZE)
    ensures CanGrow(HEAP_BASE, supply, 64 * PAGE_SIZE) <==> 64 <= supply
  {
    EmptyHeap();
    RoundUpPage(64 * PAGE_SIZE);
  }

  /** For heaps that could be real, the computed end is the true one exactly when nothing wraps. */
  lemma GrowthEndExact(curr: int, bytes: int)
    requires HEAP_BASE <= curr <= HEAP_LIMIT && PageAligned(curr) && 0 < bytes < TWO64
    ensures GrowthEnd(curr, bytes) == curr + RoundUp(bytes, PAGE_SIZE) <==> Addressable(curr, bytes)
    ensures !Addressable(curr, bytes) ==> GrowthEnd(curr, bytes) <= curr
    ensures Addressable(curr, bytes) ==>
      && AlignUp(curr, PAGE_SIZE) == curr && AlignUp(bytes, PAGE_SIZE) == RoundUp(bytes, PAGE_SIZE)
      && RoundUp(bytes, PAGE_SIZE) >= bytes && PageAligned(RoundUp(bytes, PAGE_SIZE))
  {
    hide AlignUp, RoundUp, PageAligned;
    AlignUpPage(curr);
    RoundUpPage(curr);
    AlignUpPage(bytes);
    RoundUpPage(bytes);
    var need := AlignUp(bytes, PAGE_SIZE);
    assert curr + need < TWO64 ==> (curr + need) % TWO64 == curr + need;
    assert TWO64 <= curr + need < 2 * TWO64 ==> (curr + need) % TWO64 == curr + need - TWO64;
  }

  /** The words of one page, as a frame delivers them. */
  function PageWords(va: int, dirt: int -> int): Memory {
    map x | va <= x < va + PAGE_SIZE && (Aligned(x) || Aligned(x - 8)) :: dirt(x)
  }

  lemma MapPage(m: Memory, va: int, dirt: int -> int)
    requires Mapped(m, va) && PageAligned(va) && HEAP_BASE <= va
    ensures Mapped(m + PageWords(va, dirt), va + PAGE_SIZE)
    ensures forall x :: x in m ==> (m + PageWords(va, dirt))[x] == m[x]
  {
    hide Aligned, PageAligned;
    PageSum(va, PAGE_SIZE);
    PageMultiple(va + PAGE_SIZE);
    var m' := m + PageWords(va, dirt);
    forall a | Aligned(a) && HEAP_BASE <= a < va + PAGE_SIZE ensures a in m' && a + 8 in m' {
      if va <= a {
        AlignedGap(a, va + PAGE_SIZE);
        assert Aligned(a + 8 - 8);
      }
    }
  }

  lemma AlignedGap(a: int, b: int)
    requires Aligned(a) && Aligned(b) && a < b
    ensures a + 16 <= b
  {
    assert a == 16 * (a / 16) && b == 16 * (b / 16);
  }

  /** A fresh block behind the heap, tagged but not yet listed. */
  lemma GrowDone(m: Memory, m': Memory, blk: Blocks, curr: int, need: int, head: int, fl: seq<int>)
    requires Tiled(blk, curr) && Tagged(m, blk) && Listed(m, head, fl)
    requires forall f :: f in fl ==> f in blk
    requires Mapped(m, curr) && Mapped(m', curr + need)
    requires 0 < need && PageAligned(need) && curr + need <= HEAP_LIMIT
    requires forall x :: x in m ==> x in m' && m'[x] == m[x]
    requires curr in m' && curr + need - FTR_SIZE in m' && m'[curr] == need && m'[curr + need - FTR_SIZE] == need
    ensures var blk' := blk[curr := Block(need, false)];
            Tiled(blk', curr + need) && Tagged(m', blk') && Listed(m', head, fl) && curr !in fl
            && LiveIn(blk, blk', 0)
    ensures LiveKept(blk, m, m', 0)
  {
    hide Aligned, Tiled, Mapped;
    GrowTiled(blk, curr, need);
    var blk' := blk[curr := Block(need, false)];
    forall a | a in blk' ensures HasTags(m', blk', a) {
      if a in blk { assert HasTags(m, blk, a); }
    }
    forall i | 0 <= i < |fl| ensures Linked(m', fl, i) { assert Linked(m, fl, i); }
  }

  lemma GrowSeamed(blk: Blocks, curr: int, seams: set<int>, need: int)
    requires Tiled(blk, curr) && Seamed(blk, seams) && need > 0
    ensures Seamed(blk[curr := Block(need, false)], seams + {curr})
  {
    BlocksAboveBase(blk, curr);
    var blk' := blk[curr := Block(need, false)];
    forall a | Meets(blk', a) ensures a + blk'[a].size in seams + {curr} {
      if a + blk'[a].size != curr { assert Meets(blk, a); }
    }
  }

  lemma MappedWords(m: Memory, curr: int, need: int)
    requires HEAP_BASE <= curr && PageAligned(curr) && PageAligned(need) && need > 0
    requires Mapped(m, curr + need)
    ensures curr in m && curr + 8 in m && curr + 16 in m && curr + need - FTR_SIZE in m
    ensures Aligned(curr) && Aligned(need) && need >= PAGE_SIZE
  {
    assert PageAligned(0);
    hide Aligned, PageAligned;
    PageAtLeast(0, need);
    PageMultiple(curr);
    PageMultiple(need);
    AlignedSum(curr, need);
    AlignedSum(curr + need, curr);
    assert Aligned(curr + 16) && Aligned(curr + need - 16);
  }

  lemma NewBlockTag(need: int)
    requires Aligned(need)
    ensures BlkSize(need) == need
  {
    TagWords(Block(need, false), 0);
  }

  lemma BelowCurr(m: Memory, curr: int)
    requires Mapped(m, curr)
    ensures forall x :: x in m ==> x < curr
  {
  }

  lemma RetagAll(m: Memory, m': Memory, blk: Blocks)
    requires Tagged(m, blk)
    requires forall a {:trigger HasTags(m', blk, a)} :: a in blk && HasTags(m, blk, a) ==> HasTags(m', blk, a)
    ensures Tagged(m', blk)
  {
    forall a | a in blk ensures HasTags(m', blk, a) { assert HasTags(m, blk, a); }
  }

  lemma AddressableSize(curr: int, size: int)
    requires 0 < size && HEAP_BASE <= curr && Addressable(curr, GrowthFor(size))
    ensures size <= TWO64 - 64
    ensures 0 < IdealTotal(size) <= GrowthFor(size) <= RoundUp(GrowthFor(size), PAGE_SIZE)
  {
    RoundUpPage(GrowthFor(size));
  }

  lemma MergeLiveSeamed(blk: Blocks, seams: set<int>, h: int)
    requires Seamed(blk, seams) && h in blk && blk[h].live && h + blk[h].size in blk
    ensures Seamed(Merge(blk, h), seams)
  {
    var blk' := Merge(blk, h);
    forall a | Meets(blk', a) ensures a + blk'[a].size in seams { assert Meets(blk, a); }
  }

  lemma SizesSum(blk: Blocks, curr: int, h: int)
    requires Tiled(blk, curr) && h in blk && h + blk[h].size in blk
    ensures blk[h].size <= Merge(blk, h)[h].size
  {
    assert Placed(blk, curr, h + blk[h].size);
  }

  // ---------- where 64 bits are not enough ----------

  /** Near 2^64 the size computation wraps to less than the overhead, and only there. */
  lemma TotalSizeWraps(payload: int)
    requires 0 < payload < TWO64
    ensures TotalSize(payload) == IdealTotal(payload) <==> payload <= TWO64 - 64
    ensures payload > TWO64 - 64 ==> TotalSize(payload) <= 48
  {
    if payload <= TWO64 - 64 {
      TotalSizeExact(payload);
    } else {
      hide AlignUp, RoundUp;
      var q := (payload + 15) / 16;
      AlignUpGranule(payload, q);
      if 16 * q == TWO64 {
        AlignUpGranule(40, 3);
      } else if 16 * q == TWO64 - 48 {
        AlignUpGranule(TWO64 - 8, q + 3);
      } else {
        Remainder(16 * q + 40, TWO64, 1, 16 * q + 40 - TWO64);
        AlignUpGranule(16 * q + 40 - TWO64, if 16 * q == TWO64 - 32 then 1 else 2);
      }
    }
  }

  /** The exhaustion test catches every growth beyond the window exactly when no address wraps. */
  lemma ExhaustionTestSound(curr: int, bytes: int)
    requires HEAP_BASE <= curr <= HEAP_LIMIT && PageAligned(curr) && 0 < bytes < TWO64
    ensures Addressable(curr, bytes) <==>
            (GrowthEnd(curr, bytes) > HEAP_LIMIT <==> curr + RoundUp(bytes, PAGE_SIZE) > HEAP_LIMIT)
  {
    hide GrowthEnd, RoundUp;
    GrowthEndExact(curr, bytes);
  }

  /** A request of 2^47 bytes passes the exhaustion test of a heap that ends below 256 MiB. */
  lemma HugeRequestPasses()
    ensures !Addressable(HEAP_BASE + 64 * PAGE_SIZE, GrowthFor(0x8000_0000_0000))
    ensures GrowthEnd(HEAP_BASE + 64 * PAGE_SIZE, GrowthFor(0x8000_0000_0000)) <= HEAP_LIMIT
  {
    var size, curr := 0x8000_0000_0000, HEAP_BASE + 64 * PAGE_SIZE;
    EmptyHeap();
    PageSum(HEAP_BASE, 64 * PAGE_SIZE);
    AlignUpGranule(size, size / 16);
    hide RoundUp, AlignUp, PageAligned;
    assert GrowthFor(size) == size + 48;
    RoundUpPage(size + 48);
    GrowthEndExact(curr, size + 48);
  }
}
