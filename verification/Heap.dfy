/**
 The kernel heap: a boundary-tag allocator whose headers, footers and free-list links live in the
 memory it hands out. Methods follow the C code word by word on `mem`, `curr` and `head`.
 */
module Heap {
  import opened Words
  import opened HeapLayout
  import opened HeapStore

  datatype Result = Panic | Ptr(addr: int)

  class Heap {
    var mem: Memory        // the mapped words of the heap window
    var curr: int          // g_heap_curr, the first unmapped address
    var head: int          // g_free_list
    var supply: nat        // how many more pages the frame manager can back, page tables included
    const dirt: int -> int // what frames contain when they are mapped
    ghost var blk: Blocks
    ghost var fl: seq<int>
    ghost var seams: set<int>

    /** Memory, blocks and list each make sense; which blocks the list holds is said elsewhere. */
    ghost predicate Core()
      reads this
    {
      && Mapped(mem, curr)
      && Tiled(blk, curr)
      && Tagged(mem, blk)
      && Listed(mem, head, fl)
    }

    ghost predicate Valid()
      reads this
    {
      && Core()
      && FreeExactly(blk, fl)
      && Seamed(blk, seams)
    }

    /** What clients see: the live pointers and their payloads. */
    ghost function Contents(): Store
      reads this
    {
      StoreOf(mem, blk)
    }

    /** When `growing`, one growth by `bytes` began at the old end; otherwise the window stayed as it was. */
    twostate predicate Grown(growing: bool, bytes: int)
      reads this
    {
      if growing then
        && curr == old(curr) + RoundUp(bytes, PAGE_SIZE) && seams == old(seams) + {old(curr)}
        && supply * PAGE_SIZE == old(supply) * PAGE_SIZE - RoundUp(bytes, PAGE_SIZE)
      else curr == old(curr) && seams == old(seams) && supply == old(supply)
    }

    /** The statically initialised heap: nothing mapped, nothing free. */
    constructor (dirt: int -> int, supply: nat)
      ensures Valid() && curr == HEAP_BASE && Contents() == map[] && seams == {} && this.supply == supply && mem == map[]
    {
      this.dirt, this.supply := dirt, supply;
      mem, curr, head := map[], HEAP_BASE, 0;
      blk, fl, seams := map[], [], {};
      EmptyHeap();
    }

    /** `kmalloc_init`: start over and map the first 64 pages. */
    method Init() returns (ok: bool)
      requires mem == map[]
      modifies this
      ensures ok <==> 64 <= old(supply)
      ensures ok ==> Valid() && Contents() == map[] && curr == HEAP_BASE + 64 * PAGE_SIZE && seams == {HEAP_BASE}
      ensures ok ==> blk == map[HEAP_BASE := Block(64 * PAGE_SIZE, false)] && fl == [HEAP_BASE]
    {
      curr, head := HEAP_BASE, 0;
      blk, fl, seams := map[], [], {};
      EmptyHeap();
      FirstGrowth(supply);
      hide Mapped, Tiled, Tagged, Listed, FreeExactly, Seamed, RoundUp, CanGrow, Addressable, StoreOf, LiveKept, LiveIn;
      ok := HeapMapMore(64 * PAGE_SIZE);
      if ok { AllFree(mem, HEAP_BASE, 64 * PAGE_SIZE); }
    }

    // ---------- free list ----------

    method FlPush(b: int)
      requires Listed(mem, head, fl)
      requires b > 0 && Aligned(b) && b + 8 in mem && b + 16 in mem && b !in fl
      modifies `mem, `head, `fl
      ensures Listed(mem, head, fl) && fl == [b] + old(fl)
      ensures LinksOnly(old(mem), mem, fl)
    {
      hide Aligned;
      PushListed(mem, head, fl, b);
      var m := mem[b + 8 := 0];
      m := m[b + 16 := head];
      if head != 0 {
        m := m[head + 8 := b];
      }
      mem, head := m, b;
      fl := [b] + fl;
    }

    method FlRemove(b: int)
      requires Listed(mem, head, fl)
      requires b in fl
      modifies `mem, `head, `fl
      ensures Listed(mem, head, fl)
      ensures exists k :: 0 <= k < |old(fl)| && old(fl)[k] == b && fl == old(fl)[..k] + old(fl)[k + 1..]
      ensures forall x :: x in fl <==> x in old(fl) && x != b
      ensures LinksOnly(old(mem), mem, old(fl))
    {
      hide Aligned;
      ghost var k :| 0 <= k < |fl| && fl[k] == b;
      RemoveListed(mem, head, fl, k);
      var m := mem;
      if m[b + 8] != 0 {
        m := m[m[b + 8] + 16 := m[b + 16]];
      } else {
        head := m[b + 16];
      }
      if m[b + 16] != 0 {
        m := m[m[b + 16] + 8 := m[b + 8]];
      }
      m := m[b + 8 := 0];
      m := m[b + 16 := 0];
      assert m == Removed(mem, b);
      mem := m;
      fl := fl[..k] + fl[k + 1..];
    }

    // ---------- allocation ----------

    /** Everything holds except that block `h` is not on the free list. */
    ghost predicate ValidBut(h: int)
      reads this
    {
      && Core()
      && FreeBut(blk, fl, h)
      && h in blk
    }

    /** Take `h` off the list and mark it live, giving back its tail when that is worth a block. */
    method AllocateFromBlock(h: int, need: int) returns (r: int)
      requires Valid() && h in fl
      requires 0 < need <= TWO64 - 64 && IdealTotal(need) <= blk[h].size
      modifies `mem, `head, `fl, `blk
      ensures Valid() && r == h
      ensures blk == if old(blk[h].size) >= IdealTotal(need) + 80
                     then Split(old(blk), h, IdealTotal(need)) else Mark(old(blk), h, true)
      ensures LiveKept(old(blk), old(mem), mem, 0)
    {
      hide Aligned, BlkSize, TotalSize, IdealTotal, Tiled, Mapped, Tagged, Listed, LiveKept, Seamed;
      TotalSizeExact(need);
      MinTail();
      BlockFacts(mem, blk, curr, h);
      TagWords(blk[h], 0);
      var needTotal := TotalSize(need);
      var oldSize := BlkSize(mem[h]);
      BlocksAboveBase(blk, curr);
      Detach(h, 0);
      ghost var m1 := mem;
      if oldSize >= needTotal + TotalSize(MIN_SPLIT_SIZE) {
        TakeFront(h, needTotal, oldSize);
      } else {
        TakeWhole(h);
      }
      LiveChain(old(blk), old(blk), old(mem), m1, mem, 0);
      r := h;
    }

    /** `fl_remove` in a heap that is well formed but for a block `h` missing from the list. */
    method Detach(b: int, ghost h: int)
      requires Core() && FreeBut(blk, fl, h) && b in fl
      modifies `mem, `head, `fl
      ensures Core() && FreeButTwo(blk, fl, h, b)
      ensures forall except :: LiveKept(blk, old(mem), mem, except)
      ensures LinksOnly(old(mem), mem, old(fl))
    {
      FlRemove(b);
      LinkWrites(old(mem), mem, blk, curr, old(fl));
      forall a | a in blk ensures HasTags(mem, blk, a) { assert HasTags(old(mem), blk, a); }
    }

    /** `fl_push` of the one block missing from the list. */
    method Attach(h: int)
      requires ValidBut(h) && !blk[h].live && Seamed(blk, seams)
      modifies `mem, `head, `fl
      ensures Valid() && fl == [h] + old(fl)
      ensures LiveKept(blk, old(mem), mem, 0)
    {
      BlockFacts(mem, blk, curr, h);
      FlPush(h);
      LinkWrites(old(mem), mem, blk, curr, fl);
      forall a | a in blk ensures HasTags(mem, blk, a) { assert HasTags(old(mem), blk, a); }
    }

    method TakeFront(h: int, needTotal: int, oldSize: int)
      requires ValidBut(h) && !blk[h].live && Seamed(blk, seams) && oldSize == blk[h].size
      requires MIN_BLOCK <= needTotal && Aligned(needTotal) && needTotal + MIN_BLOCK <= blk[h].size
      modifies `mem, `head, `fl, `blk
      ensures Valid() && blk == Split(old(blk), h, needTotal)
      ensures LiveKept(old(blk), old(mem), mem, 0)
    {
      hide Aligned, BlkSize, SetAlloc, SetSize, Mapped, Tiled, Tagged, Listed, LiveKept, Seamed;
      BlockFacts(mem, blk, curr, h);
      AlignedSum(h, needTotal);
      AlignedSum(oldSize, needTotal);
      WordsAt(mem, curr, h + needTotal);
      TagWords(blk[h], needTotal);
      TagWords(Block(needTotal, false), oldSize - needTotal);
      TagWords(Block(needTotal, true), oldSize - needTotal);
      WriteSplitTags(h, needTotal, oldSize);
      MappedKept(old(mem), mem, curr);
      SplitDone(old(mem), mem, blk, curr, head, fl, h, needTotal);
      SplitSeamed(blk, curr, seams, h, needTotal);
      blk := Split(blk, h, needTotal);
      ghost var m1 := mem;
      Attach(h + needTotal);
      LiveChain(old(blk), blk, old(mem), m1, mem, 0);
    }

    /** Tags of the two parts of a split block. */
    method WriteSplitTags(h: int, needTotal: int, oldSize: int)
      requires MIN_BLOCK <= needTotal && needTotal + MIN_BLOCK <= oldSize
      requires BlkSize(needTotal + 1) == needTotal && BlkSize(oldSize - needTotal) == oldSize - needTotal
      requires SetAlloc(SetSize(oldSize, needTotal)) == needTotal + 1
      requires h in mem && h + needTotal - 8 in mem && h + needTotal in mem
      requires h + needTotal + 8 in mem && h + needTotal + 16 in mem && h + oldSize - 8 in mem
      requires mem[h] == oldSize
      modifies `mem
      ensures WithinOnly(old(mem), mem, h, h + oldSize)
      ensures mem[h] == needTotal + 1 && mem[h + needTotal - 8] == needTotal + 1
      ensures mem[h + needTotal] == oldSize - needTotal && mem[h + oldSize - 8] == oldSize - needTotal
    {
      hide BlkSize, SetAlloc, SetSize;
      var m := mem[h := SetSize(mem[h], needTotal)];
      m := m[h := SetAlloc(m[h])];
      m := m[h + BlkSize(m[h]) - FTR_SIZE := m[h]];
      var t := h + needTotal;
      var tailSize := oldSize - needTotal;
      m := m[t := tailSize];
      m := m[t + 8 := 0];
      m := m[t + 16 := 0];
      m := m[t + BlkSize(m[t]) - FTR_SIZE := tailSize];
      mem := m;
    }

    method TakeWhole(h: int)
      requires ValidBut(h) && !blk[h].live && Seamed(blk, seams)
      modifies `mem, `blk
      ensures Valid() && blk == Mark(old(blk), h, true)
      ensures LiveKept(old(blk), old(mem), mem, 0)
    {
      hide Aligned;
      assert Placed(blk, curr, h) && HasTags(mem, blk, h);
      TagWords(blk[h], 0);
      TagWords(Block(blk[h].size, true), 0);
      var m := mem[h := SetAlloc(mem[h])];
      m := m[h + BlkSize(m[h]) - FTR_SIZE := m[h]];
      MarkDone(mem, m, blk, curr, head, fl, h, true);
      mem := m;
      MarkSeamed(blk, seams, h);
      blk := Mark(blk, h, true);
    }

    // ---------- release ----------

    /**
     Swallow the free block after `h`; neither of the two is on the free list. `krealloc` sets the
     allocated flag on the way (`mark`), where it is already set.
     */
    method Swallow(h: int, n: int, mark: bool)
      requires Core()
      requires h in blk && n == h + blk[h].size && n in blk && !blk[n].live && FreeButTwo(blk, fl, h, n)
      requires mark ==> blk[h].live
      modifies `mem, `blk
      ensures ValidBut(h) && blk == Merge(old(blk), h)
      ensures LiveKept(old(blk), old(mem), mem, h) && LiveIn(old(blk), blk, h)
      ensures forall x :: x in old(mem) && x != h && x != FooterOf(blk, h) ==> x in mem && mem[x] == old(mem)[x]
    {
      hide Aligned, BlkSize, SetAlloc, SetSize, Mapped, Tiled, Tagged, Listed, LiveKept;
      BlockFacts(mem, blk, curr, h);
      BlockFacts(mem, blk, curr, n);
      AlignedSum(blk[h].size, blk[n].size);
      TagWords(blk[h], blk[h].size + blk[n].size);
      TagWords(blk[n], 0);
      TagWords(Merge(blk, h)[h], 0);
      var newSize := BlkSize(mem[h]) + BlkSize(mem[n]);
      var m := mem[h := SetSize(mem[h], newSize)];
      if mark {
        m := m[h := SetAlloc(m[h])];
      }
      m := m[h + BlkSize(m[h]) - FTR_SIZE := m[h]];
      MergeDone(mem, m, blk, curr, head, fl, h);
      MappedKept(mem, m, curr);
      mem := m;
      blk := Merge(blk, h);
    }

    /** Absorb the free successor of `h`, if there is one. */
    method CoalesceNext(h: int)
      requires ValidBut(h) && !blk[h].live && SeamedBut(blk, seams, h, true, true)
      modifies `mem, `head, `fl, `blk
      ensures ValidBut(h) && !blk[h].live && SeamedBut(blk, seams, h, false, true)
      ensures var n := h + old(blk)[h].size;
              blk == if n in old(blk) && !old(blk)[n].live then Merge(old(blk), h) else old(blk)
      ensures LiveKept(old(blk), old(mem), mem, 0) && LiveIn(old(blk), blk, 0) && LiveIn(blk, old(blk), 0)
    {
      hide Aligned, BlkSize, IsAlloc, Mapped, Tiled, Tagged, Listed, LiveKept, SeamedBut;
      BlockFacts(mem, blk, curr, h);
      TagWords(blk[h], 0);
      var n := h + BlkSize(mem[h]);
      if n < curr {
        BlockFacts(mem, blk, curr, n);
        TagWords(blk[n], 0);
        if !IsAlloc(mem[n]) {
          Detach(n, h);
          ghost var m1 := mem;
          MergeNextSeamed(blk, curr, seams, h);
          Swallow(h, n, false);
          LiveChain(old(blk), old(blk), old(mem), m1, mem, h);
          FreeNeverLive(old(blk), old(mem), mem, h);
        } else {
          NextNotFree(blk, seams, h);
          NothingWritten(blk, mem);
        }
      } else {
        NextNotFree(blk, seams, h);
        NothingWritten(blk, mem);
      }
    }

    /** Let the free predecessor of `h`, if there is one, absorb it. */
    method CoalescePrev(h: int) returns (c: int)
      requires ValidBut(h) && !blk[h].live && SeamedBut(blk, seams, h, false, true)
      modifies `mem, `head, `fl, `blk
      ensures ValidBut(c) && !blk[c].live && Seamed(blk, seams) && Inside(blk, c, h)
      ensures LiveKept(old(blk), old(mem), mem, 0) && LiveIn(old(blk), blk, 0) && LiveIn(blk, old(blk), 0)
    {
      hide Aligned, BlkSize, IsAlloc, Mapped, Tiled, Tagged, Listed, LiveKept, SeamedBut;
      BlockFacts(mem, blk, curr, h);
      c := h;
      if h > HEAP_BASE {
        ghost var q := Predecessor(blk, curr, h);
        BlockFacts(mem, blk, curr, q);
        TagWords(blk[q], 0);
        var psz := BlkSize(mem[h - FTR_SIZE]);
        var p := h - psz;
        if !IsAlloc(mem[p]) {
          Detach(p, h);
          ghost var m1 := mem;
          MergePrevSeamed(blk, curr, seams, p);
          Swallow(p, h, false);
          LiveChain(old(blk), old(blk), old(mem), m1, mem, p);
          FreeNeverLive(old(blk), old(mem), mem, p);
          c := p;
        } else {
          forall x | x in blk && x + blk[x].size == h ensures blk[x].live { OnlyPredecessor(blk, curr, x, p); }
          PrevNotFree(blk, curr, seams, h);
          NothingWritten(blk, mem);
        }
      } else {
        BlocksAboveBase(blk, curr);
        PrevNotFree(blk, curr, seams, h);
        NothingWritten(blk, mem);
      }
    }

    method Coalesce(h: int) returns (c: int)
      requires ValidBut(h) && !blk[h].live && SeamedBut(blk, seams, h, true, true)
      modifies `mem, `head, `fl, `blk
      ensures ValidBut(c) && !blk[c].live && Seamed(blk, seams) && Inside(blk, c, h)
      ensures LiveKept(old(blk), old(mem), mem, 0) && LiveIn(old(blk), blk, 0) && LiveIn(blk, old(blk), 0)
    {
      hide LiveKept, Core, SeamedBut, Seamed;
      CoalesceNext(h);
      ghost var m1, b1 := mem, blk;
      c := CoalescePrev(h);
      LiveChain(old(blk), b1, old(mem), m1, mem, 0);
    }

    // ---------- growth ----------

    /**
     Map enough pages for `bytes` behind the heap and make them one free block. `ok` is false exactly when
     the window or the frames are exhausted; the kernel panics and does not continue after that.
     */
    method HeapMapMore(bytes: int) returns (ok: bool)
      requires Valid() && 0 < bytes && Addressable(curr, bytes)
      modifies this
      ensures ok <==> CanGrow(old(curr), old(supply), bytes)
      ensures ok ==> Valid() && Grown(true, bytes) && fl == [old(curr)] + old(fl)
      ensures ok ==> blk == old(blk)[old(curr) := Block(RoundUp(bytes, PAGE_SIZE), false)]
      ensures ok ==> LiveKept(old(blk), old(mem), mem, 0) && LiveIn(old(blk), blk, 0)
    {
      hide Aligned, PageAligned, BlkSize, AlignUp, RoundUp, AllPlaced, AllApart, Mapped, Tagged, Listed, LiveKept, Seamed;
      assert bytes < TWO64 by { RoundUpPage(bytes); }
      GrowthEndExact(curr, bytes);
      var need := AlignUp(bytes, PAGE_SIZE);
      var start := AlignUp(curr, PAGE_SIZE);
      var end := (start + need) % TWO64;
      if end > HEAP_LIMIT {
        return false;
      }
      PageSum(curr, need);
      var mapped, m := MapPages(start, end);
      assert end - start == RoundUp(bytes, PAGE_SIZE);
      if !mapped {
        return false;
      }
      AppendBlock(m, start, need);
      ok := true;
    }

    /** Tag the freshly mapped range as one free block and list it. */
    method AppendBlock(mapped: Memory, start: int, need: int)
      requires Valid() && start == curr && 0 < need && PageAligned(need) && start + need <= HEAP_LIMIT
      requires Mapped(mapped, start + need) && forall x :: x in mem ==> x in mapped && mapped[x] == mem[x]
      modifies `mem, `curr, `head, `blk, `fl, `seams
      ensures Valid() && curr == start + need && fl == [start] + old(fl)
      ensures blk == old(blk)[start := Block(need, false)] && seams == old(seams) + {start}
      ensures LiveKept(old(blk), old(mem), mem, 0) && LiveIn(old(blk), blk, 0)
    {
      hide Aligned, PageAligned, BlkSize, AllPlaced, AllApart, Mapped, Tagged, Listed, LiveKept, Seamed;
      MappedWords(mapped, curr, need);
      NewBlockTag(need);
      BelowCurr(mem, curr);
      var m := mapped[start := need];
      m := m[start + 8 := 0];
      m := m[start + 16 := 0];
      m := m[start + BlkSize(m[start]) - FTR_SIZE := need];
      MappedKept(mapped, m, start + need);
      GrowDone(mem, m, blk, curr, need, head, fl);
      GrowSeamed(blk, curr, seams, need);
      blk := blk[start := Block(need, false)];
      mem := m;
      FlPush(start);
      LinkWrites(m, mem, blk, start + need, fl);
      RetagAll(m, mem, blk);
      MappedKept(m, mem, start + need);
      LiveChain(old(blk), blk, old(mem), m, mem, 0);
      seams := seams + {start};
      curr := start + need;
    }

    /** The mapping loop: every new page gets a frame, and nothing already mapped changes. */
    method MapPages(start: int, end: int) returns (ok: bool, m: Memory)
      requires Mapped(mem, start) && HEAP_BASE <= start <= end && PageAligned(start) && PageAligned(end)
      modifies `supply
      ensures ok <==> end - start <= old(supply) * PAGE_SIZE
      ensures ok ==> supply * PAGE_SIZE == old(supply) * PAGE_SIZE - (end - start)
      ensures ok ==> Mapped(m, end) && forall x :: x in mem ==> x in m && m[x] == mem[x]
    {
      hide Aligned, PageAligned, Mapped;
      m := mem;
      var va := start;
      while va < end
        invariant start <= va <= end && PageAligned(va)
        invariant Mapped(m, va) && supply * PAGE_SIZE == old(supply) * PAGE_SIZE - (va - start)
        invariant forall x :: x in mem ==> x in m && m[x] == mem[x]
      {
        PageSum(va, PAGE_SIZE);
        PageAtLeast(va, end);
        if supply == 0 {
          return false, m;
        }
        supply := supply - 1;
        MapPage(m, va, dirt);
        m := m + PageWords(va, dirt);
        va := va + PAGE_SIZE;
      }
      ok := true;
    }

    /** Other kernel code takes or returns frames. */
    method Restock(pages: nat)
      requires Valid()
      modifies `supply
      ensures Valid() && supply == pages
    {
      supply := pages;
    }

    // ---------- public interface ----------

    /** First fit in list order. */
    method FlFindFit(need: int) returns (it: int)
      requires Valid() && 0 < need <= TWO64 - 64
      ensures it == 0 <==> NothingFits(blk, fl, need)
      ensures it != 0 ==> FirstFit(blk, fl, need, it)
    {
      hide Aligned, BlkSize, TotalSize, IdealTotal, AllPlaced, AllApart, Mapped, Tagged, Seamed;
      TotalSizeExact(need);
      var needTotal := TotalSize(need);
      it := head;
      ghost var k := 0;
      assert |fl| > 0 ==> Linked(mem, fl, 0);
      while it != 0
        invariant 0 <= k <= |fl| && it == Nth(fl, k)
        invariant forall j :: 0 <= j < k ==> blk[fl[j]].size < IdealTotal(need)
        invariant it == 0 ==> k == |fl|
        decreases |fl| - k
      {
        assert fl[k] in fl && Linked(mem, fl, k);
        BlockFacts(mem, blk, curr, it);
        TagWords(blk[it], 0);
        if BlkSize(mem[it]) >= needTotal {
          assert NoEarlier(blk, fl, need, k);
          return;
        }
        assert k + 1 < |fl| ==> Linked(mem, fl, k + 1);
        it := mem[it + 16];
        k := k + 1;
      }
    }

    method KMalloc(size: int) returns (r: Result)
      requires Valid() && 0 <= size && (size > 0 ==> Addressable(curr, GrowthFor(size)))
      modifies this
      ensures size == 0 ==> r == Ptr(0) && unchanged(this)
      ensures r.Ptr? ==> Valid()
      ensures r.Ptr? && size > 0 ==> Allocated(old(Contents()), Contents(), r.addr, size)
                                     && old(Chosen(blk, fl, curr, size, r.addr - HDR_SIZE))
      ensures r.Ptr? ==> Grown(size > 0 && old(NothingFits(blk, fl, size)), GrowthFor(size))
      ensures r.Panic? <==> size > 0 && Exhausted(old(blk), old(fl), old(curr), old(supply), size)
    {
      hide Aligned, PageAligned, TotalSize, IdealTotal, RoundUp, AllPlaced, AllApart, Mapped, Tagged, Listed, Seamed,
        LiveKept, StoreOf, Allocated, CanGrow, NoEarlier;
      if size == 0 {
        return Ptr(0);
      }
      AddressableSize(curr, size);
      TotalSizeExact(size);
      var h := FlFindFit(size);
      if h == 0 {
        var grow := TotalSize(size);
        if grow < 128 * PAGE_SIZE {
          grow := 128 * PAGE_SIZE;
        }
        var ok := HeapMapMore(grow);
        if !ok {
          return Panic;
        }
        NewBlockChangesNothing(old(mem), mem, old(blk), blk, old(curr), RoundUp(grow, PAGE_SIZE));
        assert fl[0] == old(curr) && old(curr) in fl && IdealTotal(size) <= blk[old(curr)].size;
        h := FlFindFit(size);
        if h == 0 {
          assert false; // the new block is first in the list and fits
        }
        FirstFits(blk, fl, size, h);
      }
      ghost var m1, b1 := mem, blk;
      var a := AllocateFromBlock(h, size);
      AllocatedWhen(m1, mem, b1, blk, curr, h, size);
      r := Ptr(a + HDR_SIZE);
    }

    method KFree(p: int) returns (r: Result)
      requires Valid() && (p == 0 || p - HDR_SIZE in blk)
      modifies this
      ensures p == 0 ==> r == Ptr(0) && unchanged(this)
      ensures r.Panic? <==> p != 0 && !old(blk)[p - HDR_SIZE].live
      ensures p != 0 && r.Ptr? ==> Valid() && Contents() == old(Contents()) - {p}
      ensures p != 0 && r.Ptr? ==> |fl| > 0 && Inside(blk, fl[0], p - HDR_SIZE)
      ensures Grown(false, 0)
    {
      hide Aligned, BlkSize, IsAlloc, ClrAlloc, Mapped, Tiled, Tagged, Listed, Seamed, SeamedBut, LiveKept, StoreOf;
      if p == 0 {
        return Ptr(0);
      }
      var h := p - HDR_SIZE;
      BlockFacts(mem, blk, curr, h);
      TagWords(blk[h], 0);
      TagWords(Block(blk[h].size, false), 0);
      if !IsAlloc(mem[h]) {
        return Panic;
      }
      var m := mem[h := ClrAlloc(mem[h])];
      m := m[h + BlkSize(m[h]) - FTR_SIZE := m[h]];
      MarkDone(mem, m, blk, curr, head, fl, h, false);
      MarkSeamed(blk, seams, h);
      MappedKept(mem, m, curr);
      mem := m;
      blk := Mark(blk, h, false);
      ghost var b1 := blk;
      var c := Coalesce(h);
      BlocksAboveBase(b1, curr);
      ExceptFree(b1, m, mem, h);
      LiveChain(old(blk), b1, old(mem), m, mem, h);
      ghost var m2 := mem;
      Attach(c);
      BlocksAboveBase(blk, curr);
      ExceptFree(blk, m2, mem, h);
      LiveChain(old(blk), blk, old(mem), m2, mem, h);
      ReleasedWhen(old(mem), mem, old(blk), blk, curr, h);
      r := Ptr(0);
    }

    /** A client stores into one of its live payloads. */
    method Poke(p: int, i: int, v: int)
      requires Valid() && Live(blk, p) && 0 <= i < PayloadWords(blk[p - HDR_SIZE].size)
      modifies `mem
      ensures Valid()
      ensures p in old(Contents()) && i < |old(Contents())[p]|
      ensures Contents() == old(Contents())[p := old(Contents())[p][i := v]]
    {
      hide StoreOf, Mapped, Tiled, Listed, Seamed, LiveKept;
      var h := p - HDR_SIZE;
      PokedWhen(mem, blk, curr, p, i, v);
      PayloadMapped(mem, blk, curr, h, i);
      var m := mem[p + 8 * i := v];
      BlockWrites(mem, m, blk, curr, h, head, fl);
      forall a | a in blk ensures HasTags(m, blk, a) { assert HasTags(mem, blk, a); }
      MappedKept(mem, m, curr);
      mem := m;
    }

    method UsableSize(p: int) returns (n: int)
      requires Valid() && (p == 0 || Live(blk, p))
      ensures p == 0 ==> n == 0
      ensures p != 0 ==> p in Contents() && n == 8 * |Contents()[p]|
    {
      hide Aligned, StoreOf, BlkSize, Mapped, Tiled, Listed, Seamed, Tagged;
      if p == 0 {
        return 0;
      }
      var h := p - HDR_SIZE;
      BlockFacts(mem, blk, curr, h);
      TagWords(blk[h], 0);
      StoreDomain(mem, blk, p);
      PayloadBounds(mem, blk, curr, h);
      n := BlkSize(mem[h]) - OVERHEAD;
    }

    /** `memcpy` of `n` words between two live payloads. */
    method CopyWords(dst: int, src: int, n: int)
      requires Valid() && Live(blk, dst) && Live(blk, src) && dst != src
      requires 0 <= n <= PayloadWords(blk[src - HDR_SIZE].size) && n <= PayloadWords(blk[dst - HDR_SIZE].size)
      modifies `mem
      ensures Valid()
      ensures src in old(Contents()) && dst in old(Contents())
      ensures n <= |old(Contents())[src]| && n <= |old(Contents())[dst]|
      ensures Contents() == Copied(old(Contents()), src, dst, n)
    {
      hide StoreOf, Mapped, Tiled, Tagged, Listed, FreeExactly, Seamed, Payload, Copied;
      StoreDomain(mem, blk, dst);
      StoreDomain(mem, blk, src);
      PayloadAt(mem, blk, src);
      PayloadAt(mem, blk, dst);
      ghost var s := Contents();
      NothingCopied(s, src, dst);
      var i := 0;
      while i < n
        invariant 0 <= i <= n && Valid()
        invariant Contents() == Copied(s, src, dst, i)
      {
        PayloadMapped(mem, blk, curr, src - HDR_SIZE, i);
        PayloadAt(mem, blk, src);
        CopiedOneMore(s, src, dst, i);
        assert mem[src + 8 * i] == s[src][i];
        Poke(dst, i, mem[src + 8 * i]);
        i := i + 1;
      }
    }

    /** `krealloc` when the free successor `n` makes block `h` large enough. */
    method GrowInPlace(h: int, n: int)
      requires Valid() && h in blk && blk[h].live && n == h + blk[h].size && n in blk && !blk[n].live
      modifies `mem, `head, `fl, `blk
      ensures Valid() && blk == Merge(old(blk), h)
      ensures Resized(old(Contents()), Contents(), h + HDR_SIZE, h + HDR_SIZE, blk[h].size - OVERHEAD)
    {
      hide Aligned, BlkSize, SetAlloc, SetSize, Mapped, Tiled, Tagged, Listed, LiveKept, Seamed, StoreOf, Resized;
      BlocksAboveBase(blk, curr);
      Detach(n, 0);
      ghost var m1 := mem;
      MergeLiveSeamed(blk, seams, h);
      Swallow(h, n, true);
      LiveChain(old(blk), old(blk), old(mem), m1, mem, h);
      forall x | Inside(old(blk), h, x) && x in old(mem) && x != h && x != FooterOf(blk, h)
        ensures x in mem && mem[x] == old(mem)[x]
      {
        LiveWord(old(blk), old(mem), m1, h, x);
      }
      SizesSum(old(blk), curr, h);
      GrownWhen(old(mem), mem, old(blk), blk, curr, h);
    }

    method KRealloc(p: int, newsize: int) returns (r: Result)
      requires Valid() && (p == 0 || Live(blk, p))
      requires 0 <= newsize && (newsize > 0 ==> Addressable(curr, GrowthFor(newsize)))
      modifies this
      ensures r.Ptr? ==> Valid()
      ensures p == 0 && newsize == 0 ==> r == Ptr(0) && Contents() == old(Contents())
      ensures p == 0 && newsize > 0 && r.Ptr? ==> Allocated(old(Contents()), Contents(), r.addr, newsize)
      ensures newsize > 0 && r.Ptr? ==> if old(NeedsNew(blk, p, newsize))
                                        then old(Chosen(blk, fl, curr, newsize, r.addr - HDR_SIZE)) else r.addr == p
      ensures p != 0 && newsize == 0 ==> r == Ptr(0) && Contents() == old(Contents()) - {p}
      ensures p != 0 && newsize > 0 && r.Ptr? ==> Resized(old(Contents()), Contents(), p, r.addr, newsize)
      ensures p != 0 && p in old(Contents()) && 0 < newsize <= 8 * |old(Contents())[p]|
              ==> r == Ptr(p) && Contents() == old(Contents())
      ensures r.Ptr? ==> Grown(old(NeedsNew(blk, p, newsize)) && old(NothingFits(blk, fl, newsize)), GrowthFor(newsize))
      ensures r.Panic? <==> old(NeedsNew(blk, p, newsize))
                            && Exhausted(old(blk), old(fl), old(curr), old(supply), newsize)
    {
      hide Aligned, BlkSize, IsAlloc, AllPlaced, AllApart, Mapped, Tagged, Listed, Seamed, LiveKept, StoreOf, IdealTotal,
        NothingFits, CanGrow, FirstFit;
      if p == 0 {
        r := KMalloc(newsize);
        return;
      }
      StoreDomain(mem, blk, p);
      if newsize == 0 {
        r := KFree(p);
        return Ptr(0);
      }
      var h := p - HDR_SIZE;
      BlockFacts(mem, blk, curr, h);
      TagWords(blk[h], 0);
      PayloadBounds(mem, blk, curr, h);
      var cur := BlkSize(mem[h]) - OVERHEAD;
      if cur >= newsize {
        return Ptr(p);
      }
      var n := h + BlkSize(mem[h]);
      if n < curr {
        BlockFacts(mem, blk, curr, n);
        TagWords(blk[n], 0);
        if !IsAlloc(mem[n]) {
          var combined := cur + OVERHEAD + (BlkSize(mem[n]) - OVERHEAD);
          if combined >= newsize {
            GrowInPlace(h, n);
            return Ptr(p);
          }
        }
      }
      r := MoveTo(p, cur, newsize);
    }

    /** `krealloc`'s fallback: allocate, copy the old payload, release the old block. */
    method MoveTo(p: int, cur: int, newsize: int) returns (r: Result)
      requires Valid() && Live(blk, p) && cur == blk[p - HDR_SIZE].size - OVERHEAD && cur < newsize
      requires newsize > 0 && Addressable(curr, GrowthFor(newsize))
      modifies this
      ensures r.Ptr? ==> Valid() && Resized(old(Contents()), Contents(), p, r.addr, newsize)
                         && old(Chosen(blk, fl, curr, newsize, r.addr - HDR_SIZE))
      ensures r.Ptr? ==> Grown(old(NothingFits(blk, fl, newsize)), GrowthFor(newsize))
      ensures r.Panic? <==> Exhausted(old(blk), old(fl), old(curr), old(supply), newsize)
    {
      hide Aligned, AllPlaced, AllApart, Mapped, Tagged, Listed, Seamed, FreeExactly, StoreOf, IdealTotal, Addressable,
        Exhausted, NothingFits, FirstFit;
      PayloadAt(mem, blk, p);
      PayloadBounds(mem, blk, curr, p - HDR_SIZE);
      BlocksAboveBase(blk, curr);
      ghost var s := Contents();
      r := KMalloc(newsize);
      if r.Panic? {
        return;
      }
      var np := r.addr;
      ghost var s1 := Contents();
      StoreDomain(mem, blk, np);
      StoreDomain(mem, blk, p);
      PayloadAt(mem, blk, p);
      PayloadAt(mem, blk, np);
      assert p in s1 - {np} && s1[p] == s[p];
      CopyWords(np, p, cur / 8);
      ghost var s2 := Contents();
      r := KFree(p);
      r := Ptr(np);
      assert Contents() == s2 - {p};
    }
  }
}
