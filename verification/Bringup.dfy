/**
 Bringing memory up: bump allocator, page tables, hand-over to the frame manager and the first heap pages
 as one run, with one owner for every frame throughout.
 */
module Bringup {
  import opened Words
  import opened Options
  import opened PageTables
  import opened Addresses
  import opened AddressSpace
  import opened EarlyAlloc
  import opened Frames
  import opened BootMemory
  import opened Bootstrap
  import opened HeapPages
  import MM = MemoryMap

  /** The direct map and the image keep clear of the heap window, as they do with less than 16 TiB of memory. */
  ghost predicate ClearOfHeap(k: Image, hb: int, limit: nat) {
    hb + limit <= HEAP_FIRST && forall x :: InImage(k, x) ==> !(HEAP_FIRST <= x < HEAP_END)
  }

  /** What the boot loader's answers are taken to satisfy. */
  ghost predicate Bootable(entries: seq<MM.Entry>, k: Image, hb: int, limit: nat) {
    && WindowFits(hb, limit, entries) && ImageFits(k, hb, limit) && ClearOfHeap(k, hb, limit)
    && TopOf(entries, |entries|) <= limit * PAGE_SIZE
    && forall x :: InImage(k, x) ==> x + k.shift < limit
  }

  /** The bootstrap tables have nothing, and so no large leaf, in the heap window. */
  lemma HeapWindowClear(ts: Tables, ts': Tables, root: int, k: Image, hb: int, limit: nat, entries: seq<MM.Entry>, x: int)
    requires ImageFits(k, hb, limit) && ClearOfHeap(k, hb, limit) && HEAP_FIRST <= x < HEAP_END
    requires FrameOf(ts, root, x) == KernelView(k, hb, limit, entries, x) && Extended(ts, ts', root, hb, limit)
    ensures Walk(ts', root, PageOf(x)) == Missing
  {
    hide Walk, PageOf;
    assert FrameOf(ts', root, x) == None;
  }

  /** There is a memory map, the stack is in the direct map of physical memory and the code in the image. */
  predicate WellPlaced(entries: seq<MM.Entry>, k: Image, hb: int, rsp: nat, rip: nat) {
    entries != [] && StackInWindow(rsp, hb, TopOf(entries, |entries|)) && InImage(k, rip / PAGE_SIZE)
  }

  /** Pages of the region the bump allocator serves from, whichever of the largest it picked. */
  ghost predicate RegionHolds(entries: seq<MM.Entry>, n: int) {
    forall base, end {:trigger Picked(entries, base, end)} :: Picked(entries, base, end) ==>
      base != 0 && n <= (end - base) / PAGE_SIZE
  }

  /** Frames that are enough for the bootstrap, the patches and both bitmaps. */
  function BootFrames(entries: seq<MM.Entry>, k: Image, hb: int): int {
    1 + BootTables(k, hb, entries) + PatchTables(hb) + 2 * Memory.BitmapPages(RoundUpDiv(TopOf(entries, |entries|)))
  }

  /** That is about one frame for every 170 pages of memory and image, and six for every entry. */
  lemma BootFramesBound(entries: seq<MM.Entry>, k: Image, hb: int, limit: nat)
    requires ImageFits(k, hb, limit)
    ensures var total := MM.TotalPages(entries, |entries|) + (k.t1 - k.t0) + (k.r1 - k.r0) + (k.d1 - k.d0);
            var bitmaps := 2 * Memory.BitmapPages(RoundUpDiv(TopOf(entries, |entries|)));
            BootFrames(entries, k, hb) <= 52 + 6 * |entries| + 3 * (total / 512) + bitmaps
  {
    hide TablesFor, MM.TotalPages, TopOf, RoundUpDiv, Memory.BitmapPages;
    EntryTablesBound(hb, entries, |entries|);
    ThreeTimes(0, 512);
    ThreeTimes(hb, 512);
    ThreeTimes(k.t0, k.t1 - k.t0);
    ThreeTimes(k.r0, k.r1 - k.r0);
    ThreeTimes(k.d0, k.d1 - k.d0);
    FourParts(MM.TotalPages(entries, |entries|), k.t1 - k.t0, k.r1 - k.r0, k.d1 - k.d0);
  }

  lemma ThreeTimes(v: int, n: nat)
    requires 0 <= v
    ensures 0 <= TablesFor(v, n) <= 6 + 3 * (n / 512)
  {
    hide TablesFor;
    TablesForBound(v, n);
    assert n / 512 / 512 / 512 <= n / 512 / 512 <= n / 512;
  }

  lemma FourParts(a: nat, b: nat, c: nat, d: nat)
    ensures a / 512 + b / 512 + c / 512 + d / 512 <= (a + b + c + d) / 512
  {
  }

  /** The picked region lies below the end of memory, above address 0. */
  lemma RegionInside(entries: seq<MM.Entry>, base: int, end: int)
    requires Picked(entries, base, end) && base != 0
    ensures 0 < base < end <= TopOf(entries, |entries|)
  {
    var low := !NoneAmong(entries, |entries|, true);
    assert Largest(entries, |entries|, low, base, end);
  }

  /** Every page of the picked region lies wholly inside a usable entry. */
  lemma RegionUsable(entries: seq<MM.Entry>, base: int, end: int, f: int)
    requires Picked(entries, base, end) && base <= f * PAGE_SIZE < end
    ensures InUsable(entries, |entries|, f)
  {
    var low := !NoneAmong(entries, |entries|, true);
    assert Largest(entries, |entries|, low, base, end);
    var k :| 0 <= k < |entries| && Candidate(entries[k]) && base == Start(entries[k]) && end == End(entries[k]);
    WholePages(entries[k], f);
    assert entries[k].kind == MM.Usable && WhollyIn(entries[k], f);
  }

  lemma WholePages(e: MM.Entry, f: int)
    ensures Start(e) <= f * PAGE_SIZE < End(e) <==> WhollyIn(e, f)
  {
    var lo, hi := (e.base + PAGE_SIZE - 1) / PAGE_SIZE, (e.base + e.length) / PAGE_SIZE;
    assert lo * PAGE_SIZE - PAGE_SIZE < e.base <= lo * PAGE_SIZE;
    assert hi * PAGE_SIZE <= e.base + e.length < hi * PAGE_SIZE + PAGE_SIZE;
  }

  /** So the frame manager, which cannot tell who reserved a frame, would take back every page of tables and bitmaps. */
  lemma TablesFreeable(memory: Memory, entries: seq<MM.Entry>, f: int)
    requires memory.Valid() && memory.handedOver && Picked(entries, memory.early.base, memory.early.end) && memory.IsEarly(f)
    requires forall i :: i in memory.frames.Usable() <==> InUsable(entries, |entries|, i)
    ensures f in memory.owner && !Keeps(memory.owner[f]) && f in memory.frames.Usable() && f !in memory.frames.Free()
  {
    RegionUsable(entries, memory.early.base, memory.early.end, f);
  }

  /** Every translation of the finished tables leads below `limit`. */
  lemma ViewInWindow(ts: Tables, root: int, k: Image, hb: int, limit: nat, entries: seq<MM.Entry>)
    requires Bootable(entries, k, hb, limit)
    requires forall x {:trigger FrameOf(ts, root, x)} :: 0 <= x < PAGES ==>
               FrameOf(ts, root, x) == KernelView(k, hb, limit, entries, x)
    ensures FramesInWindow(ts, root, limit)
  {
    hide FrameOf;
  }

  /** What page `x` must show after the patches: the kernel's view, and perhaps a page of the direct map more. */
  ghost predicate ViewOf(ts: Tables, root: int, k: Image, hb: int, limit: nat, entries: seq<MM.Entry>, x: int)
    requires 0 <= x < PAGES && ImageFits(k, hb, limit)
  {
    var view := KernelView(k, hb, limit, entries, x);
    || FrameOf(ts, root, x) == view
    || (view == None && hb <= x < hb + limit && FrameOf(ts, root, x) == Some(x - hb))
  }

  ghost predicate AllViews(ts: Tables, root: int, k: Image, hb: int, limit: nat, entries: seq<MM.Entry>)
    requires ImageFits(k, hb, limit)
  {
    forall x {:trigger FrameOf(ts, root, x)} :: 0 <= x < PAGES ==> ViewOf(ts, root, k, hb, limit, entries, x)
  }

  /** The same, leaving the first `n` heap pages open. */
  ghost predicate ViewsBut(ts: Tables, root: int, k: Image, hb: int, limit: nat, entries: seq<MM.Entry>, n: nat)
    requires ImageFits(k, hb, limit)
  {
    forall x {:trigger FrameOf(ts, root, x)} ::
      0 <= x < PAGES && !(HEAP_FIRST <= x < HEAP_FIRST + n) ==> ViewOf(ts, root, k, hb, limit, entries, x)
  }

  ghost predicate HeapMissing(ts: Tables, root: int, n: int) {
    forall x {:trigger PageOf(x)} :: HEAP_FIRST <= x < HEAP_FIRST + n && 0 <= x < PAGES ==> Walk(ts, root, PageOf(x)) == Missing
  }

  /** Patches over the kernel's view. */
  lemma PatchedViews(ts: Tables, ts': Tables, root: int, k: Image, hb: int, limit: nat, entries: seq<MM.Entry>)
    requires Bootable(entries, k, hb, limit) && Extended(ts, ts', root, hb, limit)
    requires forall x {:trigger FrameOf(ts, root, x)} :: 0 <= x < PAGES ==>
               FrameOf(ts, root, x) == KernelView(k, hb, limit, entries, x)
    ensures AllViews(ts', root, k, hb, limit, entries) && HeapMissing(ts', root, HEAP_END - HEAP_FIRST)
  {
    hide Walk, PageOf, KernelView;
    forall x | 0 <= x < PAGES ensures ViewOf(ts', root, k, hb, limit, entries, x) {
      assert FrameOf(ts, root, x) == KernelView(k, hb, limit, entries, x);
    }
    forall x | HEAP_FIRST <= x < HEAP_END ensures Walk(ts', root, PageOf(x)) == Missing {
      assert FrameOf(ts, root, x) == KernelView(k, hb, limit, entries, x);
      HeapWindowClear(ts, ts', root, k, hb, limit, entries, x);
    }
  }

  /** Patches take no byte of the direct map away. */
  lemma PatchedBytes(ts: Tables, ts': Tables, root: int, hb: int, limit: nat, entries: seq<MM.Entry>)
    requires WindowFits(hb, limit, entries) && Extended(ts, ts', root, hb, limit) && EntryBytesShown(ts, root, hb, entries)
    ensures EntryBytesShown(ts', root, hb, entries)
  {
    hide Translate, FrameOf, MM.InEntry, RightsAt, MM.DisjointEntries;
    forall k, p | 0 <= k < |entries| && MM.Included(entries[k]) && MM.InEntry(entries[k], p) ensures ByteShown(ts', root, hb, p) {
      EntryByteMeant(hb, limit, entries, k, p);
      assert ByteShown(ts, root, hb, p);
      ByteOfPage(ts, root, hb, p);
      ByteOfPage(ts', root, hb, p);
      assert ExtendedAt(ts, ts', root, hb, limit, hb + p / PAGE_SIZE) by { assert FrameOf(ts', root, hb + p / PAGE_SIZE) == FrameOf(ts', root, hb + p / PAGE_SIZE); }
    }
  }

  /** Nor do heap pages. */
  lemma BytesBelowHeap(ts: Tables, ts': Tables, root: int, k: Image, hb: int, limit: nat, entries: seq<MM.Entry>, n: nat)
    requires WindowFits(hb, limit, entries) && ClearOfHeap(k, hb, limit) && EntryBytesShown(ts, root, hb, entries)
    requires OutsideKept(ts, ts', root, HEAP_FIRST, HEAP_FIRST + n)
    ensures EntryBytesShown(ts', root, hb, entries)
  {
    hide Translate, MM.InEntry, Walk, PageOf, Target, MM.DisjointEntries;
    forall k, p | 0 <= k < |entries| && MM.Included(entries[k]) && MM.InEntry(entries[k], p) ensures ByteShown(ts', root, hb, p) {
      EntryByteMeant(hb, limit, entries, k, p);
      assert ByteShown(ts, root, hb, p);
      ByteOfPage(ts, root, hb, p);
      ByteOfPage(ts', root, hb, p);
      var x := hb + p / PAGE_SIZE;
      assert Walk(ts', root, PageOf(x)) == Walk(ts, root, PageOf(x));
    }
  }

  /** Heap pages are meant to be data. */
  lemma HeapIntended(ts: Tables, ts': Tables, root: int, owner: Owners, k: Image, hb: int, limit: nat, n: nat)
    requires ClearOfHeap(k, hb, limit) && AllIntended(ts, root, k) && n <= HEAP_END - HEAP_FIRST
    requires OutsideKept(ts, ts', root, HEAP_FIRST, HEAP_FIRST + n) && AllBacked(ts', root, owner, HEAP_FIRST, n)
    ensures AllIntended(ts', root, k)
  {
    hide Walk, PageOf, Backed;
    forall x | 0 <= x < PAGES ensures RightsAt(ts', root, x) == None || RightsAt(ts', root, x) == Some(Intended(k, x)) {
      if HEAP_FIRST <= x < HEAP_FIRST + n {
        BackedIsData(ts', root, owner, x);
        assert !InImage(k, x);
      } else {
        assert RightsAt(ts, root, x) == RightsAt(ts', root, x);
      }
    }
  }

  lemma RipShown(ts: Tables, root: int, k: Image, hb: int, limit: nat, entries: seq<MM.Entry>, x: int)
    requires ImageFits(k, hb, limit) && 0 <= x < PAGES && FrameOf(ts, root, x) == KernelView(k, hb, limit, entries, x)
    ensures InImage(k, x) ==> FrameOf(ts, root, x) != None
  {
  }

  lemma BootTablesPositive(k: Image, entries: seq<MM.Entry>, hb: int, limit: nat)
    requires ImageFits(k, hb, limit)
    ensures BootTables(k, hb, entries) >= 0 && PatchTables(hb) >= 0
  {
    hide TablesFor;
    EntryTablesBound(hb, entries, |entries|);
    ThreeTimes(0, 512);
    ThreeTimes(hb, 512);
    ThreeTimes(k.t0, k.t1 - k.t0);
    ThreeTimes(k.r0, k.r1 - k.r0);
    ThreeTimes(k.d0, k.d1 - k.d0);
  }

  /** Neither the direct map nor, given `LowAvoids`, anything else goes through the heap's root entry. */
  lemma WindowAvoidsHeap(k: Image, hb: int, limit: nat)
    requires ClearOfHeap(k, hb, limit) && 0 <= hb
    ensures Avoids(Slot(HEAP_FIRST), hb, limit)
  {
  }

  /** The root table, `paging_bootstrap` and its patches, all from the bump allocator. */
  method BuildTables(memory: Memory, entries: seq<MM.Entry>, k: Image, hb: int, rsp: nat, rip: nat, oldRoot: nat,
                     ghost limit: nat) returns (ok: bool, space: AddressSpace?)
    requires Bootable(entries, k, hb, limit) && oldRoot < limit
    requires rsp < PAGES * PAGE_SIZE && rip < PAGES * PAGE_SIZE
    requires memory.Valid() && !memory.handedOver && memory.owner == map[] && memory.early.end <= limit * PAGE_SIZE
    modifies memory`owner, memory`history, memory.early`cursor
    ensures memory.Valid()
    ensures ok ==> space != null && fresh(space) && space.memory == memory && space.Valid() && Protected(space.ts, space.nd)
    ensures ok && LowAvoids(Slot(HEAP_FIRST), k) ==> SlotFree(space.nd.Keys, Slot(HEAP_FIRST))
    ensures ok ==> AllViews(space.ts, space.root, k, hb, limit, entries)
                   && HeapMissing(space.ts, space.root, HEAP_END - HEAP_FIRST)
    ensures ok ==> FrameOf(space.ts, space.root, rsp / PAGE_SIZE) != None && FrameOf(space.ts, space.root, rip / PAGE_SIZE) != None
    ensures ok ==> AllIntended(space.ts, space.root, k) && EntryBytesShown(space.ts, space.root, hb, entries)
    ensures ok ==> Drew(old(memory.history), memory.history, TablePage) && Added(map[], memory.owner, TablePage)
    ensures ok ==> memory.Left() >= old(memory.Left()) - 1 - BootTables(k, hb, entries) - PatchTables(hb)
    ensures WellPlaced(entries, k, hb, rsp, rip) && !ok ==>
              memory.Left() == 0 && old(memory.Left()) < 1 + BootTables(k, hb, entries) + PatchTables(hb)
  {
    hide Shaped, Walk, PageOf, Protected, FrameOf, KernelView, Memory.Valid, Memory.Left, Drew, IsHistory, Then, Added, TopOf,
      MM.TotalPages, Extended, TablesOwned, AllViews, HeapMissing, FramesInWindow, BootTables, PatchTables, SlotFree, Avoids,
      LowAvoids, Slot, AllIntended, EntryBytesShown;
    space := null;
    WindowAvoidsHeap(k, hb, limit);
    Latest(memory);
    BootTablesPositive(k, entries, hb, limit);
    var r := memory.SupplyEarly(TablePage);
    if r.None? {
      return false, null;
    }
    var root := r.value / PAGE_SIZE;
    DrewOne(old(memory.history), root, TablePage, memory.owner);
    ghost var h := memory.history;
    space := new AddressSpace(memory, root);
    ok := PagingBootstrap(space, k, hb, entries, limit);
    if !ok {
      return false, null;
    }
    DrewTwice(old(memory.history), h, memory.history, TablePage);
    h := memory.history;
    ghost var ts := space.ts;
    ViewInWindow(ts, root, k, hb, limit, entries);
    RipShown(ts, root, k, hb, limit, entries, rip / PAGE_SIZE);
    ok := PreSwitchPatch(space, hb, TopOf(entries, |entries|), rsp, rip, oldRoot, limit);
    if !ok {
      return false, null;
    }
    DrewTwice(old(memory.history), h, memory.history, TablePage);
    PatchedViews(ts, space.ts, root, k, hb, limit, entries);
    PatchedBytes(ts, space.ts, root, hb, limit, entries);
    ExtendedIntended(ts, space.ts, root, hb, limit, k);
    memory.DrewToAdded(old(memory.history), map[], TablePage);
  }

  /**
   `memory_bringup`: bump allocator, page tables, `frame_init`, the new supplier. Afterwards every owned
   frame is a page table or a bitmap page, and none of them is free.
   */
  method Boot(entries: seq<MM.Entry>, reserved: seq<Range>, k: Image, hb: int, rsp: nat, rip: nat, oldRoot: nat,
              ghost limit: nat) returns (ok: bool, space: AddressSpace?)
    requires Bootable(entries, k, hb, limit) && oldRoot < limit
    requires rsp < PAGES * PAGE_SIZE && rip < PAGES * PAGE_SIZE
    ensures ok ==> space != null && fresh(space) && fresh(space.memory) && fresh(space.memory.early)
                   && fresh(space.memory.frames) && fresh(space.memory.frames.alloc) && fresh(space.memory.frames.usable)
    ensures ok ==> space.Valid() && space.memory.handedOver && Protected(space.ts, space.nd)
    ensures ok ==> AllViews(space.ts, space.root, k, hb, limit, entries)
                   && HeapMissing(space.ts, space.root, HEAP_END - HEAP_FIRST)
    ensures ok ==> FrameOf(space.ts, space.root, rsp / PAGE_SIZE) != None && FrameOf(space.ts, space.root, rip / PAGE_SIZE) != None
    ensures ok && LowAvoids(Slot(HEAP_FIRST), k) ==> SlotFree(space.nd.Keys, Slot(HEAP_FIRST))
    ensures ok ==> AllIntended(space.ts, space.root, k) && AllGranted(space.ts, space.root, k)
                   && EntryBytesShown(space.ts, space.root, hb, entries)
    ensures ok ==> forall f :: f in space.memory.owner ==>
              space.memory.owner[f] == TablePage || space.memory.owner[f] == BitmapPage
    ensures ok ==> |Owned(space.memory.owner, BitmapPage)|
                   == 2 * Memory.BitmapPages(RoundUpDiv(TopOf(entries, |entries|)))
    ensures ok ==> forall f :: f in space.memory.frames.Free() <==>
              ShouldBeFree(entries, reserved + [Range(space.memory.early.base, space.memory.early.cursor)], f)
    ensures ok ==> forall f :: f in space.memory.frames.Usable() <==> InUsable(entries, |entries|, f)
    ensures ok ==> Picked(entries, space.memory.early.base, space.memory.early.end)
    ensures WellPlaced(entries, k, hb, rsp, rip) && RegionHolds(entries, BootFrames(entries, k, hb)) ==> ok
  {
    hide Shaped, Walk, PageOf, Protected, FrameOf, KernelView, Memory.Valid, Drew, IsHistory, Then, TopOf, RoundUpDiv,
      Memory.BitmapPages, MM.TotalPages, Picked, ShouldBeFree, AllViews, HeapMissing, BootTables, FrameManager.Valid, PatchTables,
      SlotFree, LowAvoids, Slot, Owned, Added, AllIntended, AllGranted, EntryBytesShown;
    space := null;
    var early := new EarlyAllocator();
    ok := early.EarlyInit(entries);
    if !ok {
      return;
    }
    RegionInside(entries, early.base, early.end);
    var frames := new FrameManager();
    var memory := new Memory(early, frames);
    FreshLeft(memory);
    ok, space := BuildTables(memory, entries, k, hb, rsp, rip, oldRoot, limit);
    if !ok {
      return;
    }
    ghost var o := memory.owner;
    ok := memory.HandOver(entries, reserved);
    if ok {
      OnlyTablesAndBitmaps(o, memory.owner);
      TablesStayOwned(space.ts, o, memory.owner);
      IntendedGranted(space.ts, space.nd, space.root, k);
    }
  }

  lemma OnlyTablesAndBitmaps(o: Owners, o': Owners)
    requires Added(map[], o, TablePage) && Added(o, o', BitmapPage)
    ensures Owned(o, BitmapPage) == {} && forall f :: f in o ==> f in o' && o'[f] == o[f]
    ensures forall f :: f in o' ==> o'[f] == TablePage || o'[f] == BitmapPage
  {
    forall f ensures f !in Owned(o, BitmapPage) {}
  }

  /** What the processor does with address `a`. */
  ghost predicate Granted(ts: Tables, root: int, a: int, writable: bool, executable: bool)
    requires 0 <= a < PAGES * PAGE_SIZE
  {
    Grants(ts, root, PageOf(a / PAGE_SIZE)) == Some(Rights(writable, false, executable))
  }

  /**
   The image byte by byte: every byte of a section is at its physical place. Code runs and is not written,
   constants neither, data is written and does not run, but for pages that hold a byte of a later section.
   */
  lemma SectionBytes(ts: Tables, root: int, s: Sections, hb: int, limit: nat, entries: seq<MM.Entry>, a: int)
    requires ImageFits(ImageOf(s), hb, limit) && AllViews(ts, root, ImageOf(s), hb, limit, entries) && AllGranted(ts, root, ImageOf(s))
    requires PageAligned(s.virtualBase) && PageAligned(s.physicalBase) && 0 <= a < PAGES * PAGE_SIZE
    requires s.text.start < s.text.end && s.rodata.start < s.rodata.end && s.data.start < s.data.end
    ensures Within(s.text, a) || Within(s.rodata, a) || Within(s.data, a)
            ==> Translate(ts, root, a) == Some(a - s.virtualBase + s.physicalBase)
    ensures Within(s.text, a) && !SharesPage(s.rodata, a) && !SharesPage(s.data, a) ==> Granted(ts, root, a, false, true)
    ensures Within(s.rodata, a) && !SharesPage(s.data, a) ==> Granted(ts, root, a, false, false)
    ensures Within(s.data, a) ==> Granted(ts, root, a, true, false)
  {
    hide Walk, PageOf, Target, FrameOf, Grants, Translate, SharesPage;
    var x, k := a / PAGE_SIZE, ImageOf(s);
    RoundedSpan(s.text, a);
    RoundedSpan(s.rodata, a);
    RoundedSpan(s.data, a);
    if InImage(k, x) {
      assert ViewOf(ts, root, k, hb, limit, entries, x) by { assert FrameOf(ts, root, x) == FrameOf(ts, root, x); }
      assert FrameOf(ts, root, x) == Some(x + k.shift);
      assert Grants(ts, root, PageOf(x)) == Some(Intended(k, x));
      ByteOfPage(ts, root, 0, a);
      PlacedByte(a, s.virtualBase, s.physicalBase);
    }
  }

  /** Everything else that is mapped, identity window, direct map and heap, is written and does not run. */
  lemma OutsideImage(ts: Tables, root: int, k: Image, a: int)
    requires AllGranted(ts, root, k) && 0 <= a < PAGES * PAGE_SIZE && !InImage(k, a / PAGE_SIZE)
    ensures Translate(ts, root, a) != None ==> Granted(ts, root, a, true, false)
  {
    hide Walk, PageOf, Target, Grants, Translate;
    ByteOfPage(ts, root, 0, a);
    assert Grants(ts, root, PageOf(a / PAGE_SIZE)) == Grants(ts, root, PageOf(a / PAGE_SIZE));
  }

  lemma PlacedByte(a: nat, v: nat, p: nat)
    requires PageAligned(v) && PageAligned(p)
    ensures (a / PAGE_SIZE + (p / PAGE_SIZE - v / PAGE_SIZE)) * PAGE_SIZE + a % PAGE_SIZE == a - v + p
  {
  }

  lemma FreshLeft(memory: Memory)
    requires memory.Valid() && !memory.handedOver && memory.early.cursor == memory.early.base
    ensures memory.Left() == (memory.early.end - memory.early.base) / PAGE_SIZE
  {
  }

  /** What the frame manager holds free at the hand-over: `used` is what the bump allocator gave out. */
  ghost predicate FreeAtHandOver(free: set<int>, entries: seq<MM.Entry>, reserved: seq<Range>, used: Range) {
    forall f :: f in free <==> ShouldBeFree(entries, reserved + [used], f)
  }

  /** Every owned frame is a table, one of the bitmaps' or one of the first `n` heap pages. */
  ghost predicate OnlyBootOwners(o: Owners, n: nat, bitmaps: nat) {
    && |Owned(o, BitmapPage)| == bitmaps
    && forall f :: f in o ==> o[f] == TablePage || o[f] == BitmapPage || (o[f].HeapPage? && HEAP_FIRST <= o[f].va < HEAP_FIRST + n)
  }

  /**
   Memory brought up, then the first `n` pages of the heap from `frame_alloc`: behind each of them stands
   a frame owned as that very heap page. Everything else translates as before, and tables and bitmaps keep
   their frames. `free` is what the frame manager held free in between; four of them for every page are
   enough, and when nothing else goes through the heap's root entry the number needed is exact.
   */
  method BootWithHeap(entries: seq<MM.Entry>, reserved: seq<Range>, k: Image, hb: int, rsp: nat, rip: nat, oldRoot: nat,
                      n: nat, ghost limit: nat)
    returns (booted: bool, ok: bool, space: AddressSpace?, ghost free: set<int>)
    requires Bootable(entries, k, hb, limit) && oldRoot < limit && n <= HEAP_END - HEAP_FIRST
    requires rsp < PAGES * PAGE_SIZE && rip < PAGES * PAGE_SIZE
    ensures WellPlaced(entries, k, hb, rsp, rip) && RegionHolds(entries, BootFrames(entries, k, hb)) ==> booted
    ensures booted ==> space != null && space.Valid() && space.memory.handedOver
                       && FreeAtHandOver(free, entries, reserved, Range(space.memory.early.base, space.memory.early.cursor))
    ensures (ok ==> booted) && (booted && 4 * n <= |free| ==> ok)
    ensures booted && LowAvoids(Slot(HEAP_FIRST), k) ==> (ok <==> HeapFrames(n) <= |free|)
    ensures ok && LowAvoids(Slot(HEAP_FIRST), k) ==> |space.memory.frames.Free()| == |free| - HeapFrames(n)
    ensures ok ==> Protected(space.ts, space.nd) && AllBacked(space.ts, space.root, space.memory.owner, HEAP_FIRST, n)
    ensures ok ==> ViewsBut(space.ts, space.root, k, hb, limit, entries, n) && AllGranted(space.ts, space.root, k)
                   && EntryBytesShown(space.ts, space.root, hb, entries)
    ensures ok ==> OnlyBootOwners(space.memory.owner, n, 2 * Memory.BitmapPages(RoundUpDiv(TopOf(entries, |entries|))))
    ensures ok ==> IsHistory(space.memory.history)
                   && space.memory.history.trace[|space.memory.history.events|] == space.memory.owner
  {
    hide Shaped, Walk, PageOf, Protected, FrameOf, KernelView, Memory.Valid, IsHistory, TopOf, ShouldBeFree, BootFrames,
      MM.TotalPages, AllBacked, FrameManager.Valid, Backable, TablesOwned, OutsideKept, AllViews, ViewsBut, HeapMissing, Needed,
      SlotFree, LowAvoids, Slot, Owned, HeapAdded, HeapFrames, Memory.BitmapPages, RoundUpDiv, AllIntended,
      AllGranted, EntryBytesShown;
    booted, space := Boot(entries, reserved, k, hb, rsp, rip, oldRoot, limit);
    ok, free := false, {};
    if !booted {
      return;
    }
    ManagerReady(space.memory);
    free := space.memory.frames.Free();
    ghost var was, o := space.ts, space.memory.owner;
    FramesForHeap(space.nd.Keys, n);
    forall x | HEAP_FIRST <= x < HEAP_FIRST + n ensures Walk(space.ts, space.root, PageOf(x)) == Missing {
      MissingAt(space.ts, space.root, x);
    }
    ok := MapHeapPages(space, HEAP_FIRST, n);
    if ok {
      Latest(space.memory);
      ViewsKept(was, space.ts, space.root, k, hb, limit, entries, n);
      HeapIntended(was, space.ts, space.root, space.memory.owner, k, hb, limit, n);
      IntendedGranted(space.ts, space.nd, space.root, k);
      BytesBelowHeap(was, space.ts, space.root, k, hb, limit, entries, n);
      BitmapsKept(o, space.memory.owner, HEAP_FIRST, n);
      BootOwners(o, space.memory.owner, n);
    }
  }

  lemma ManagerReady(memory: Memory)
    requires memory.Valid() && memory.handedOver
    ensures memory.frames.Shaped() && memory.Left() == |memory.frames.Free()|
  {
  }

  lemma FramesForHeap(made: set<seq<int>>, n: nat)
    requires n <= HEAP_END - HEAP_FIRST
    ensures Needed(made, HEAP_FIRST, n) <= 4 * n
    ensures SlotFree(made, Slot(HEAP_FIRST)) ==> Needed(made, HEAP_FIRST, n) == HeapFrames(n)
  {
    hide SlotFree, Needed, HeapMade;
    NeededAtMost(made, HEAP_FIRST, n);
    if SlotFree(made, Slot(HEAP_FIRST)) {
      NoHeapYet(made);
      HeapNeeds(made, 0, n);
    }
  }

  lemma BootOwners(o: Owners, o': Owners, n: nat)
    requires HeapAdded(o, o', HEAP_FIRST, n) && forall f :: f in o ==> o[f] == TablePage || o[f] == BitmapPage
    ensures forall f :: f in o' ==>
              o'[f] == TablePage || o'[f] == BitmapPage || (o'[f].HeapPage? && HEAP_FIRST <= o'[f].va < HEAP_FIRST + n)
  {
  }

  lemma MissingAt(ts: Tables, root: int, x: int)
    requires HeapMissing(ts, root, HEAP_END - HEAP_FIRST) && HEAP_FIRST <= x < HEAP_END
    ensures Walk(ts, root, PageOf(x)) == Missing
  {
  }

  lemma ViewsKept(ts: Tables, ts': Tables, root: int, k: Image, hb: int, limit: nat, entries: seq<MM.Entry>, n: nat)
    requires ImageFits(k, hb, limit) && AllViews(ts, root, k, hb, limit, entries)
    requires OutsideKept(ts, ts', root, HEAP_FIRST, HEAP_FIRST + n)
    ensures ViewsBut(ts', root, k, hb, limit, entries, n)
  {
    hide Walk, PageOf, KernelView, Target;
    forall x | 0 <= x < PAGES && !(HEAP_FIRST <= x < HEAP_FIRST + n) ensures ViewOf(ts', root, k, hb, limit, entries, x) {
      assert FrameOf(ts, root, x) == FrameOf(ts', root, x) by { assert PageOf(x) == PageOf(x); }
      assert ViewOf(ts, root, k, hb, limit, entries, x);
    }
  }

  // ---------- a machine that boots, and one with memory at address 0 ----------

  /** 64 MiB: the kernel in the second megabyte, usable memory above it, the image in the last 2 GiB of the address space. */
  const SMALL_MAP: seq<MM.Entry> := [MM.Entry(0x10_0000, 0x10_0000, MM.KernelAndModules), MM.Entry(0x20_0000, 0x3E0_0000, MM.Usable)]

  const SMALL_IMAGE: Image :=
    Image(0xF_FFF8_0000, 0xF_FFF8_0080, 0xF_FFF8_0080, 0xF_FFF8_00A0, 0xF_FFF8_00A0, 0xF_FFF8_0100, 0x100 - 0xF_FFF8_0000)

  const SMALL_BASE: int := 0x8_0000_0000

  /** What `Boot` asks for is met by an ordinary machine, with the heap's root entry to spare. */
  lemma SmallMachineBoots()
    ensures Bootable(SMALL_MAP, SMALL_IMAGE, SMALL_BASE, 0x4000)
    ensures WellPlaced(SMALL_MAP, SMALL_IMAGE, SMALL_BASE, SMALL_BASE * PAGE_SIZE + 0x30_0000, 0xF_FFF8_0000 * PAGE_SIZE)
    ensures RegionHolds(SMALL_MAP, BootFrames(SMALL_MAP, SMALL_IMAGE, SMALL_BASE))
    ensures LowAvoids(Slot(HEAP_FIRST), SMALL_IMAGE)
  {
    SmallTop();
    hide Picked, Bootable, BootFrames, TopOf;
    SmallFits();
    SmallPlaced();
    SmallFrames();
    forall base, end | Picked(SMALL_MAP, base, end) ensures base == 0x20_0000 && end == 0x400_0000 {
      SmallRegion(base, end);
    }
  }

  lemma SmallTop()
    ensures TopOf(SMALL_MAP, 2) == 0x400_0000
  {
    assert TopOf(SMALL_MAP, 1) == 0x20_0000;
  }

  lemma SmallPlaced()
    ensures WellPlaced(SMALL_MAP, SMALL_IMAGE, SMALL_BASE, SMALL_BASE * PAGE_SIZE + 0x30_0000, 0xF_FFF8_0000 * PAGE_SIZE)
    ensures LowAvoids(Slot(HEAP_FIRST), SMALL_IMAGE)
  {
    SmallTop();
    hide TopOf;
  }

  const ZERO_MAP: seq<MM.Entry> := [MM.Entry(0, 0x1000, MM.Usable), MM.Entry(0x10_0000, 0x10_0000, MM.Usable)]

  /** With frame 0 usable, the first table that `PagingMapMemory` needs is that frame, and nothing is mapped. */
  method FrameZeroExample() returns (mapped: bool)
    ensures !mapped
  {
    hide TopOf, Picked, Memory.Valid, Memory.BitmapPages, RoundUpDiv, Walk, Shaped, PageOf;
    var early := new EarlyAllocator();
    var ok := early.EarlyInit(ZERO_MAP);
    ZeroMap(early.base, early.end);
    var frames := new FrameManager();
    var memory := new Memory(early, frames);
    FreshLeft(memory);
    var r := memory.SupplyEarly(TablePage);
    ok := memory.HandOver(ZERO_MAP, []);
    ZeroFree(memory);
    var space := new AddressSpace(memory, r.value / PAGE_SIZE);
    NoHeapYet(space.nd.Keys);
    HeapLacks(space.nd.Keys, 0);
    mapped := space.PagingMapMemory(PageOf(HEAP_FIRST), 0x100, HEAP_FLAGS);
  }

  lemma ZeroMap(base: int, end: int)
    requires Picked(ZERO_MAP, base, end)
    ensures base == 0x10_0000 && end == 0x20_0000 && TopOf(ZERO_MAP, 2) == 0x20_0000
    ensures Memory.BitmapPages(RoundUpDiv(0x20_0000)) == 1
  {
    assert Candidate(ZERO_MAP[0]) && Low(ZERO_MAP[0]) && Candidate(ZERO_MAP[1]) && Low(ZERO_MAP[1]);
    assert !NoneAmong(ZERO_MAP, |ZERO_MAP|, true);
    assert Largest(ZERO_MAP, |ZERO_MAP|, true, base, end);
    assert TopOf(ZERO_MAP, 1) == 0x1000;
  }

  lemma ZeroFree(memory: Memory)
    requires memory.Valid() && memory.handedOver && memory.early.base == 0x10_0000
    requires forall f :: f in memory.frames.Free() <==>
               ShouldBeFree(ZERO_MAP, [] + [Range(memory.early.base, memory.early.cursor)], f)
    ensures memory.ZeroNext()
  {
    assert WhollyIn(ZERO_MAP[0], 0);
    assert InUsable(ZERO_MAP, |ZERO_MAP|, 0);
  }

  lemma SmallFits()
    requires TopOf(SMALL_MAP, 2) == 0x400_0000
    ensures Bootable(SMALL_MAP, SMALL_IMAGE, SMALL_BASE, 0x4000)
  {
    hide TopOf;
    assert MM.FirstPage(SMALL_MAP[0]) == 0x100 && MM.EndPage(SMALL_MAP[0]) == 0x200;
    assert MM.FirstPage(SMALL_MAP[1]) == 0x200 && MM.EndPage(SMALL_MAP[1]) == 0x4000;
  }

  lemma SmallRegion(base: int, end: int)
    requires Picked(SMALL_MAP, base, end)
    ensures base == 0x20_0000 && end == 0x400_0000
  {
    assert Candidate(SMALL_MAP[1]) && Low(SMALL_MAP[1]) && !Candidate(SMALL_MAP[0]);
    assert !NoneAmong(SMALL_MAP, |SMALL_MAP|, true);
    assert Largest(SMALL_MAP, |SMALL_MAP|, true, base, end);
  }

  lemma SmallFrames()
    requires TopOf(SMALL_MAP, 2) == 0x400_0000
    ensures BootFrames(SMALL_MAP, SMALL_IMAGE, SMALL_BASE) <= 200
  {
    assert MM.TotalPages(SMALL_MAP, 2) == 0x3F00 by {
      assert MM.TotalPages(SMALL_MAP, 1) == 0x100;
    }
    BootFramesBound(SMALL_MAP, SMALL_IMAGE, SMALL_BASE, 0x4000);
  }
}
