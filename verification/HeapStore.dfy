/**
 What a client of the heap sees: live pointers and the words behind them.
 */
module HeapStore {
  import opened Words
  import opened HeapLayout

  type Store = map<int, seq<int>>

  /** Words of payload in a block of `size` bytes (`USABLE`, counted in words). */
  ghost function PayloadWords(size: int): int { (size - OVERHEAD) / 8 }

  ghost function Word(m: Memory, x: int): int { if x in m then m[x] else 0 }

  ghost function Payload(m: Memory, a: int, size: int): seq<int>
    requires MIN_BLOCK <= size
  {
    seq(PayloadWords(size), i => Word(m, a + HDR_SIZE + 8 * i))
  }

  ghost predicate Live(blk: Blocks, p: int) {
    p - HDR_SIZE in blk && blk[p - HDR_SIZE].live && MIN_BLOCK <= blk[p - HDR_SIZE].size
  }

  /** The live pointers, each with its payload. */
  ghost function StoreOf(m: Memory, blk: Blocks): Store {
    map p | p in (set a | a in blk :: a + HDR_SIZE) && Live(blk, p) :: Payload(m, p - HDR_SIZE, blk[p - HDR_SIZE].size)
  }

  lemma StoreDomain(m: Memory, blk: Blocks, p: int)
    ensures p in StoreOf(m, blk) <==> Live(blk, p)
    ensures Live(blk, p) ==> StoreOf(m, blk)[p] == Payload(m, p - HDR_SIZE, blk[p - HDR_SIZE].size)
  {
    if Live(blk, p) {
      var a := p - HDR_SIZE;
      assert a in blk && a + HDR_SIZE == p;
    }
  }

  lemma PayloadMapped(m: Memory, blk: Blocks, curr: int, a: int, i: int)
    requires Mapped(m, curr) && Tiled(blk, curr) && a in blk && 0 <= i < PayloadWords(blk[a].size)
    ensures a + HDR_SIZE + 8 * i in m && Inside(blk, a, a + HDR_SIZE + 8 * i)
    ensures a + HDR_SIZE + 8 * i < FooterOf(blk, a)
  {
    hide Aligned;
    assert Placed(blk, curr, a);
    var x := a + HDR_SIZE + 8 * i;
    EveryEighth(a, i + 4);
  }

  /** Payloads of blocks that no write touched read the same. */
  lemma PayloadKept(blk: Blocks, curr: int, m: Memory, m': Memory, a: int, except: int)
    requires Mapped(m, curr) && Tiled(blk, curr) && LiveKept(blk, m, m', except)
    requires a in blk && blk[a].live && a != except && MIN_BLOCK <= blk[a].size
    ensures Payload(m', a, blk[a].size) == Payload(m, a, blk[a].size)
  {
    forall i | 0 <= i < PayloadWords(blk[a].size)
      ensures Word(m', a + HDR_SIZE + 8 * i) == Word(m, a + HDR_SIZE + 8 * i)
    {
      PayloadMapped(m, blk, curr, a, i);
    }
  }

  /** When only block `h` may change, every other pointer keeps its payload. */
  lemma StoreFrame(m: Memory, m': Memory, blk: Blocks, blk': Blocks, curr: int, h: int)
    requires Mapped(m, curr) && Tiled(blk, curr) && LiveKept(blk, m, m', h)
    requires LiveIn(blk, blk', h) && LiveIn(blk', blk, h)
    ensures StoreOf(m', blk') - {h + HDR_SIZE} == StoreOf(m, blk) - {h + HDR_SIZE}
  {
    hide Tiled, Mapped, Payload, LiveKept, StoreOf;
    var s, s', p := StoreOf(m, blk), StoreOf(m', blk'), h + HDR_SIZE;
    forall q | q != p ensures q in s <==> q in s' {
      StoreDomain(m, blk, q);
      StoreDomain(m', blk', q);
    }
    forall q | q in s - {p} ensures s'[q] == s[q] {
      StoreDomain(m, blk, q);
      StoreDomain(m', blk', q);
      PayloadKept(blk, curr, m, m', q - HDR_SIZE, h);
    }
  }

  /** Live payloads are aligned, inside the window and pairwise disjoint. */
  lemma StoreDisjoint(m: Memory, blk: Blocks, curr: int, p: int, q: int)
    requires Mapped(m, curr) && Tiled(blk, curr) && p in StoreOf(m, blk) && q in StoreOf(m, blk)
    ensures Aligned(p) && HEAP_BASE < p && p + 8 * |StoreOf(m, blk)[p]| < curr
    ensures p < q ==> p + 8 * |StoreOf(m, blk)[p]| < q
  {
    StoreDomain(m, blk, p);
    StoreDomain(m, blk, q);
    var a, b := p - HDR_SIZE, q - HDR_SIZE;
    assert Placed(blk, curr, a) && Placed(blk, curr, b);
    AlignedHeader(a);
    assert a < b ==> Apart(blk, a, b);
  }

  lemma AlignedHeader(a: int)
    requires Aligned(a)
    ensures Aligned(a + HDR_SIZE)
  {
  }

  // ---------- what the public calls do to the store ----------

  /** `p` is new, large enough without wasting 88 bytes, and nothing else changed. */
  ghost predicate Allocated(s: Store, s': Store, p: int, size: int) {
    && p !in s && p in s' && p != 0
    && s' - {p} == s
    && size + 8 <= 8 * |s'[p]| <= size + 87
  }

  /** `p` became `q`, which holds `newsize` bytes and starts with all of the old payload. */
  ghost predicate Resized(s: Store, s': Store, p: int, q: int, newsize: int) {
    && p in s && q in s' && (q == p || q !in s)
    && s' - {q} == s - {p}
    && newsize <= 8 * |s'[q]|
    && s[p] <= s'[q]
  }

  lemma AllocatedWhen(m: Memory, m': Memory, blk: Blocks, blk': Blocks, curr: int, h: int, size: int)
    requires Mapped(m, curr) && Tiled(blk, curr) && Mapped(m', curr) && Tiled(blk', curr)
    requires LiveKept(blk, m, m', 0) && h in blk && !blk[h].live
    requires 0 < size <= TWO64 - 64 && IdealTotal(size) <= blk[h].size
    requires blk' == if blk[h].size >= IdealTotal(size) + 80 then Split(blk, h, IdealTotal(size)) else Mark(blk, h, true)
    ensures Allocated(StoreOf(m, blk), StoreOf(m', blk'), h + HDR_SIZE, size)
  {
    hide Mapped, LiveKept, StoreOf, Payload, AllPlaced, AllApart, IdealTotal;
    TotalSizeExact(size);
    var p := h + HDR_SIZE;
    assert LiveIn(blk, blk', h) && LiveIn(blk', blk, h) by { FreshTail(blk, curr, h, IdealTotal(size)); }
    BlocksAboveBase(blk, curr);
    ExceptFree(blk, m, m', h);
    StoreFrame(m, m', blk, blk', curr, h);
    StoreDomain(m, blk, p);
    StoreDomain(m', blk', p);
    PayloadBounds(m', blk', curr, h);
    GranularSizes(blk, curr, h, IdealTotal(size));
    var s, s' := StoreOf(m, blk), StoreOf(m', blk');
    assert s - {p} == s;
  }

  lemma ExceptFree(blk: Blocks, m: Memory, m': Memory, h: int)
    requires LiveKept(blk, m, m', 0)
    requires forall a :: a in blk ==> a > 0
    ensures LiveKept(blk, m, m', h)
  {
  }

  lemma FreshTail(blk: Blocks, curr: int, h: int, n: int)
    requires Tiled(blk, curr) && h in blk && 0 < n
    ensures n < blk[h].size ==> h + n !in blk
  {
    if n < blk[h].size { SplitApart(blk, curr, h, n); }
  }

  /** The payload of a block, measured in bytes, is the block less its tags. */
  lemma PayloadBounds(m: Memory, blk: Blocks, curr: int, h: int)
    requires Tiled(blk, curr) && h in blk
    ensures MIN_BLOCK <= blk[h].size && 8 * |Payload(m, h, blk[h].size)| == blk[h].size - OVERHEAD
  {
    assert Placed(blk, curr, h);
    assert blk[h].size == 16 * (blk[h].size / 16);
  }

  /** A remainder too small to split off is at most 64 bytes, because sizes are multiples of 16. */
  lemma GranularSizes(blk: Blocks, curr: int, h: int, n: int)
    requires Tiled(blk, curr) && h in blk && Aligned(n)
    ensures blk[h].size < n + 80 ==> blk[h].size <= n + 64
  {
    assert Placed(blk, curr, h);
    if n + 64 < blk[h].size {
      AlignedSum(n, 64);
      AlignedGap(n + 64, blk[h].size);
    }
  }

  lemma ReleasedWhen(m: Memory, m': Memory, blk: Blocks, blk': Blocks, curr: int, h: int)
    requires Mapped(m, curr) && Tiled(blk, curr) && LiveKept(blk, m, m', h)
    requires LiveIn(blk, blk', h) && LiveIn(blk', blk, h) && (h in blk' ==> !blk'[h].live)
    ensures StoreOf(m', blk') == StoreOf(m, blk) - {h + HDR_SIZE}
  {
    hide StoreOf, Mapped, Tiled, LiveKept;
    StoreFrame(m, m', blk, blk', curr, h);
    StoreDomain(m', blk', h + HDR_SIZE);
    assert StoreOf(m', blk') - {h + HDR_SIZE} == StoreOf(m', blk');
  }

  /** A live block that swallowed its successor starts with its old payload. */
  lemma GrownWhen(m: Memory, m': Memory, blk: Blocks, blk': Blocks, curr: int, h: int)
    requires Mapped(m, curr) && Tiled(blk, curr) && Tiled(blk', curr) && LiveKept(blk, m, m', h)
    requires LiveIn(blk, blk', h) && LiveIn(blk', blk, h)
    requires h in blk && blk[h].live && h in blk' && blk'[h].live && blk[h].size <= blk'[h].size
    requires forall x :: Inside(blk, h, x) && x in m && x != h && x != FooterOf(blk', h) ==> x in m' && m'[x] == m[x]
    ensures Resized(StoreOf(m, blk), StoreOf(m', blk'), h + HDR_SIZE, h + HDR_SIZE, blk'[h].size - OVERHEAD)
  {
    hide StoreOf, Mapped, AllPlaced, AllApart, LiveKept;
    var p := h + HDR_SIZE;
    StoreFrame(m, m', blk, blk', curr, h);
    PayloadBounds(m, blk, curr, h);
    PayloadBounds(m', blk', curr, h);
    StoreDomain(m, blk, p);
    StoreDomain(m', blk', p);
    var n := PayloadWords(blk[h].size);
    forall i | 0 <= i < n ensures Word(m', p + 8 * i) == Word(m, p + 8 * i) {
      PayloadMapped(m, blk, curr, h, i);
    }
  }

  /** Growth adds a free block, which no client sees. */
  lemma NewBlockChangesNothing(m: Memory, m': Memory, blk: Blocks, blk': Blocks, curr: int, need: int)
    requires Mapped(m, curr) && Tiled(blk, curr) && LiveKept(blk, m, m', 0)
    requires blk' == blk[curr := Block(need, false)]
    ensures StoreOf(m', blk') == StoreOf(m, blk)
  {
    hide StoreOf, Mapped, AllPlaced, AllApart, LiveKept;
    BlocksAboveBase(blk, curr);
    ExceptFree(blk, m, m', curr);
    ReleasedWhen(m, m', blk, blk', curr, curr);
    StoreDomain(m, blk, curr + HDR_SIZE);
    assert StoreOf(m, blk) - {curr + HDR_SIZE} == StoreOf(m, blk);
  }

  /** One word of one live payload is written. */
  lemma PokedWhen(m: Memory, blk: Blocks, curr: int, p: int, i: int, v: int)
    requires Mapped(m, curr) && Tiled(blk, curr) && Live(blk, p) && 0 <= i < PayloadWords(blk[p - HDR_SIZE].size)
    ensures p + 8 * i in m
    ensures LiveKept(blk, m, m[p + 8 * i := v], p - HDR_SIZE)
    ensures p in StoreOf(m, blk) && i < |StoreOf(m, blk)[p]|
    ensures StoreOf(m[p + 8 * i := v], blk) == StoreOf(m, blk)[p := StoreOf(m, blk)[p][i := v]]
  {
    hide StoreOf, Mapped, AllPlaced, AllApart;
    var h := p - HDR_SIZE;
    PayloadMapped(m, blk, curr, h, i);
    var m' := m[p + 8 * i := v];
    forall a, x | Inside(blk, a, x) && a != h ensures x != p + 8 * i {
      if x == p + 8 * i { OnlyOneInside(blk, curr, a, h, x); }
    }
    StoreFrame(m, m', blk, blk, curr, h);
    StoreDomain(m, blk, p);
    StoreDomain(m', blk, p);
    var s, s' := StoreOf(m, blk), StoreOf(m', blk);
    forall j | 0 <= j < PayloadWords(blk[h].size) ensures s'[p][j] == s[p][i := v][j] {
      PayloadMapped(m, blk, curr, h, j);
    }
    assert s'[p] == s[p][i := v];
    assert s' == (s' - {p})[p := s'[p]];
  }

  lemma PayloadAt(m: Memory, blk: Blocks, p: int)
    requires Live(blk, p)
    ensures p in StoreOf(m, blk) && |StoreOf(m, blk)[p]| == PayloadWords(blk[p - HDR_SIZE].size)
    ensures forall i :: 0 <= i < |StoreOf(m, blk)[p]| && p + 8 * i in m ==> StoreOf(m, blk)[p][i] == m[p + 8 * i]
  {
    StoreDomain(m, blk, p);
  }

  lemma LiveWord(blk: Blocks, m: Memory, m': Memory, h: int, x: int)
    requires LiveKept(blk, m, m', 0) && Inside(blk, h, x) && blk[h].live && h != 0 && x in m
    ensures x in m' && m'[x] == m[x]
  {
  }

  /** The first `n` words of `src` copied over those of `dst`. */
  ghost function Copied(s: Store, src: int, dst: int, n: int): Store
    requires src in s && dst in s && 0 <= n <= |s[src]| && n <= |s[dst]|
  {
    s[dst := s[src][..n] + s[dst][n..]]
  }

  lemma NothingCopied(s: Store, src: int, dst: int)
    requires src in s && dst in s
    ensures Copied(s, src, dst, 0) == s
  {
    assert s[src][..0] + s[dst][0..] == s[dst];
  }

  lemma CopiedOneMore(s: Store, src: int, dst: int, i: int)
    requires src in s && dst in s && src != dst && 0 <= i < |s[src]| && i < |s[dst]|
    ensures var t := Copied(s, src, dst, i);
            && dst in t && src in t && t[src] == s[src] && |t[dst]| == |s[dst]|
            && t[dst := t[dst][i := s[src][i]]] == Copied(s, src, dst, i + 1)
  {
    assert (s[src][..i] + s[dst][i..])[i := s[src][i]] == s[src][..i + 1] + s[dst][i + 1..];
  }

  /** One free block, nothing to see. */
  lemma AllFree(m: Memory, a: int, size: int)
    ensures StoreOf(m, map[a := Block(size, false)]) == map[]
  {
  }
}
