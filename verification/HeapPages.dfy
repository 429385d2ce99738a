/**
 The mapping loop of the kernel heap against the page tables: which frames stand behind heap pages.
 */
module HeapPages {
  import opened Words
  import opened Options
  import opened PageTables
  import opened Addresses
  import opened AddressSpace
  import opened BootMemory
  import opened Bootstrap
  import HL = HeapLayout

  /** First page of the heap window and one past its last, without the sign-extension bits. */
  const HEAP_FIRST: int := 0x9_0000_0000
  const HEAP_END: int := HEAP_FIRST + 0x1_0000

  const HEAP_FLAGS: Flags := Flags(true, false, false, true)

  /** The window is the one the heap grows in: its addresses cut to 48 bits, in pages. */
  lemma HeapWindow()
    ensures HEAP_FIRST * PAGE_SIZE == HL.HEAP_BASE % (PAGES * PAGE_SIZE)
    ensures HEAP_END * PAGE_SIZE == HL.HEAP_LIMIT % (PAGES * PAGE_SIZE)
  {
    Remainder(HL.HEAP_BASE, PAGES * PAGE_SIZE, 0xFFFF, HEAP_FIRST * PAGE_SIZE);
    Remainder(HL.HEAP_LIMIT, PAGES * PAGE_SIZE, 0xFFFF, HEAP_END * PAGE_SIZE);
  }

  /** Page `x` walks to a writable, non-executable leaf whose frame is owned as heap page `x`. */
  ghost predicate Backed(ts: Tables, root: int, owner: Owners, x: int)
    requires 0 <= x < PAGES
  {
    var l := Walk(ts, root, PageOf(x));
    l.Small? && l == Small(LeafWith(l.e.frame, HEAP_FLAGS)) && l.e.frame in owner && owner[l.e.frame] == HeapPage(x)
  }

  ghost predicate AllBacked(ts: Tables, root: int, owner: Owners, v: int, n: int)
    requires 0 <= v && v + n <= PAGES
  {
    forall x {:trigger Backed(ts, root, owner, x)} :: v <= x < v + n ==> Backed(ts, root, owner, x)
  }

  /** What owners say, frame by frame: no heap page shares its frame with another one, with a table or with a bitmap. */
  lemma BackedApart(ts: Tables, root: int, owner: Owners, v: int, n: int, x: int, y: int)
    requires 0 <= v && v + n <= PAGES && AllBacked(ts, root, owner, v, n) && TablesOwned(ts, owner)
    requires v <= x < v + n && v <= y < v + n
    ensures FrameOf(ts, root, x).Some? && FrameOf(ts, root, x).value !in ts
    ensures FrameOf(ts, root, x).value in owner && !owner[FrameOf(ts, root, x).value].BitmapPage?
    ensures x != y ==> FrameOf(ts, root, x) != FrameOf(ts, root, y)
  {
    hide Walk, PageOf;
    assert Backed(ts, root, owner, x) && Backed(ts, root, owner, y);
  }

  /** Heap pages are the kernel's to read and write, and not to execute. */
  lemma BackedIsData(ts: Tables, root: int, owner: Owners, x: int)
    requires 0 <= x < PAGES && Backed(ts, root, owner, x)
    ensures RightsAt(ts, root, x) == Some(DATA)
  {
  }

  /** One more page: taking a frame for it and mapping it keeps every earlier page backed. */
  lemma OneMoreBacked(ts: Tables, ts': Tables, root: int, owner: Owners, owner': Owners, v: int, n: nat, frame: nat)
    requires 0 <= v && v + n < PAGES && AllBacked(ts, root, owner, v, n)
    requires (forall f :: f in owner ==> f in owner' && owner'[f] == owner[f])
    requires frame in owner' && owner'[frame] == HeapPage(v + n)
    requires forall p: Page :: Walk(ts', root, p) ==
               if p == PageOf(v + n) then Small(LeafWith(frame, HEAP_FLAGS)) else Walk(ts, root, p)
    ensures AllBacked(ts', root, owner', v, n + 1)
  {
    hide Walk, PageOf;
    forall x | v <= x < v + n ensures Backed(ts', root, owner', x) {
      SameRegion(x, v + n);
      assert Backed(ts, root, owner, x);
    }
    assert Backed(ts', root, owner', v + n);
  }

  /** What happened while mapping pages [v, v + n): frames were taken for tables and for these heap pages. */
  ghost predicate HeapEvents(h: History, h': History, v: int, n: int) {
    && h.trace <= h'.trace && h.events <= h'.events
    && forall i :: |h.events| <= i < |h'.events| ==>
         h'.events[i].Took? && (h'.events[i].what == TablePage || (h'.events[i].what.HeapPage? && v <= h'.events[i].what.va < v + n))
  }

  lemma MoreHeapEvents(h: History, h1: History, h2: History, v: int, n: nat)
    requires HeapEvents(h, h1, v, n) && HeapEvents(h1, h2, v + n, 1)
    ensures HeapEvents(h, h2, v, n + 1)
  {
  }

  lemma OneHeapEvent(h: History, h1: History, h2: History, x: int, f: int, o: Owners)
    requires h1 == Then(h, Took(f, HeapPage(x)), o) && Drew(h1, h2, TablePage)
    ensures HeapEvents(h, h2, x, 1)
  {
  }

  /**
   How many pages from `v` on can be backed when tables hang at `made` and `left` frames can be had: each
   page takes one frame and one for every table its path lacks. This is what `Heap.supply` counts.
   */
  ghost function Backable(made: set<seq<int>>, left: nat, v: int): nat
    requires 0 <= v <= PAGES
    decreases PAGES - v
  {
    if v == PAGES || left < 1 + Lacks(made, PageOf(v)) then 0
    else 1 + Backable(made + PathOf(PageOf(v)), left - 1 - Lacks(made, PageOf(v)), v + 1)
  }

  /** Frames that backing the pages [v, v + n) takes, their missing tables among them. */
  ghost function Needed(made: set<seq<int>>, v: int, n: nat): nat
    requires 0 <= v && v + n <= PAGES
    decreases n
  {
    if n == 0 then 0
    else 1 + Lacks(made, PageOf(v)) + Needed(made + PathOf(PageOf(v)), v + 1, n - 1)
  }

  /** Both counts say the same. */
  lemma {:induction false} BackableNeeded(made: set<seq<int>>, left: nat, v: int, n: nat)
    requires 0 <= v && v + n <= PAGES
    ensures n <= Backable(made, left, v) <==> Needed(made, v, n) <= left
    decreases n
  {
    if n > 0 {
      hide PageOf, PathOf, Lacks;
      BackableStep(made, left, v);
      var l := Lacks(made, PageOf(v));
      if 1 + l <= left { BackableNeeded(made + PathOf(PageOf(v)), left - 1 - l, v + 1, n - 1); }
    }
  }

  /** Four frames for every page are always enough. */
  lemma {:induction false} NeededAtMost(made: set<seq<int>>, v: int, n: nat)
    requires 0 <= v && v + n <= PAGES
    ensures n <= Needed(made, v, n) <= 4 * n
    decreases n
  {
    if n > 0 {
      hide PageOf, PathOf;
      NeededAtMost(made + PathOf(PageOf(v)), v + 1, n - 1);
    }
  }

  lemma NeededStep(made: set<seq<int>>, v: int, n: nat)
    requires 0 <= v && v + n <= PAGES && n > 0
    ensures Needed(made, v, n) == 1 + Lacks(made, PageOf(v)) + Needed(made + PathOf(PageOf(v)), v + 1, n - 1)
  {
    hide Lacks, PageOf, PathOf;
  }

  // ---------- how many frames the first heap pages take ----------

  /** Frames for the first `n` heap pages, below a root entry that leads nowhere yet: the upper two tables and one for every 512 pages. */
  function HeapFrames(n: nat): nat { if n == 0 then 0 else n + 2 + (n + 511) / 512 }

  /** The heap's tables are those of its first `i` pages. */
  ghost predicate HeapMade(made: set<seq<int>>, i: int) {
    forall x {:trigger PageOf(x)} :: HEAP_FIRST <= x < HEAP_END ==>
      && (PageOf(x)[..1] in made <==> i > 0) && (PageOf(x)[..2] in made <==> i > 0)
      && (PageOf(x)[..3] in made <==> (x - HEAP_FIRST) / 512 < (i + 511) / 512)
  }

  lemma NoHeapYet(made: set<seq<int>>)
    requires SlotFree(made, Slot(HEAP_FIRST))
    ensures HeapMade(made, 0)
  {
    hide PageOf;
    forall x | HEAP_FIRST <= x < HEAP_END
      ensures PageOf(x)[..1] !in made && PageOf(x)[..2] !in made && PageOf(x)[..3] !in made
    {
      PathSlot(x);
      assert Slot(x) == Slot(HEAP_FIRST);
      assert PageOf(x)[..1] in PathOf(PageOf(x)) && PageOf(x)[..2] in PathOf(PageOf(x)) && PageOf(x)[..3] in PathOf(PageOf(x));
    }
  }

  lemma HeapLacks(made: set<seq<int>>, i: nat)
    requires HeapMade(made, i) && HEAP_FIRST + i < HEAP_END
    ensures 1 + Lacks(made, PageOf(HEAP_FIRST + i)) == HeapFrames(i + 1) - HeapFrames(i)
  {
    hide PageOf;
    assert PageOf(HEAP_FIRST + i)[..2] in made <==> i > 0;
    assert (i + 512) / 512 == i / 512 + 1;
  }

  lemma OneMoreMade(made: set<seq<int>>, i: nat)
    requires HeapMade(made, i) && HEAP_FIRST + i < HEAP_END
    ensures HeapMade(made + PathOf(PageOf(HEAP_FIRST + i)), i + 1)
  {
    hide PageOf;
    var p := PageOf(HEAP_FIRST + i);
    var made' := made + PathOf(p);
    assert (i + 512) / 512 == i / 512 + 1;
    forall x | HEAP_FIRST <= x < HEAP_END
      ensures PageOf(x)[..1] in made' && PageOf(x)[..2] in made'
      ensures PageOf(x)[..3] in made' <==> (x - HEAP_FIRST) / 512 < (i + 512) / 512
    {
      var q := PageOf(x);
      SharedTables(x, HEAP_FIRST + i);
      SameRegion(x, HEAP_FIRST + i);
      assert x / 512 == HEAP_FIRST / 512 + (x - HEAP_FIRST) / 512;
      assert |q[..1]| == 1 && |q[..2]| == 2 && |q[..3]| == 3 && |p[..1]| == 1 && |p[..2]| == 2;
    }
  }

  /** The recursive count in closed form. */
  lemma {:induction false} HeapNeeds(made: set<seq<int>>, i: nat, n: nat)
    requires HeapMade(made, i) && HEAP_FIRST + i + n <= HEAP_END
    ensures Needed(made, HEAP_FIRST + i, n) == HeapFrames(i + n) - HeapFrames(i)
    decreases n
  {
    if n > 0 {
      hide PageOf, PathOf, Lacks, HeapMade, HeapFrames;
      HeapLacks(made, i);
      OneMoreMade(made, i);
      HeapNeeds(made + PathOf(PageOf(HEAP_FIRST + i)), i + 1, n - 1);
    }
  }

  lemma BackableStep(made: set<seq<int>>, left: nat, v: int)
    requires 0 <= v < PAGES
    ensures var l := Lacks(made, PageOf(v));
            if left < 1 + l then Backable(made, left, v) == 0
            else Backable(made, left, v) == 1 + Backable(made + PathOf(PageOf(v)), left - 1 - l, v + 1)
  {
    hide Lacks, PageOf, PathOf;
  }

  /** Owners keep what they own; what is new belongs to tables and to the heap pages [v, v + n). */
  ghost predicate HeapAdded(o: Owners, o': Owners, v: int, n: int) {
    && (forall f :: f in o ==> f in o' && o'[f] == o[f])
    && (forall f :: f in o' && f !in o ==> o'[f] == TablePage || (o'[f].HeapPage? && v <= o'[f].va < v + n))
  }

  lemma HeapAddedTwice(o: Owners, o1: Owners, o2: Owners, v: int, n: nat)
    requires HeapAdded(o, o1, v, n) && HeapAdded(o1, o2, v + n, 1)
    ensures HeapAdded(o, o2, v, n + 1)
  {
  }

  lemma HeapAddedOne(o: Owners, o1: Owners, o2: Owners, f: int, x: int)
    requires Step(o, Took(f, HeapPage(x)), o1) && Added(o1, o2, TablePage)
    ensures HeapAdded(o, o2, x, 1) && f in o2 && o2[f] == HeapPage(x)
  {
  }

  lemma BitmapsKept(o: Owners, o': Owners, v: int, n: int)
    requires HeapAdded(o, o', v, n)
    ensures Owned(o', BitmapPage) == Owned(o, BitmapPage)
  {
    forall f ensures f in Owned(o', BitmapPage) <==> f in Owned(o, BitmapPage) {}
  }

  /**
   `frame_alloc` and `PagingMapMemory` for one heap page. It fails exactly when there are too few frames
   for the page and the tables its path lacks; frame 0, if free, becomes the page itself and no table.
   */
  method MapHeapPage(space: AddressSpace, x: int) returns (ok: bool, frame: nat)
    requires space.Valid() && space.memory.handedOver && 0 <= x < PAGES && Walk(space.ts, space.root, PageOf(x)) == Missing
    modifies space`ts, space`nd, space.memory`owner, space.memory`history, space.memory.early`cursor
    modifies space.memory.frames`freeCount, space.memory.frames`hint, space.memory.frames.alloc
    ensures space.Valid() && (old(Protected(space.ts, space.nd)) ==> Protected(space.ts, space.nd))
    ensures ok ==> frame in space.memory.owner && space.memory.owner[frame] == HeapPage(x) && frame !in old(space.memory.owner)
    ensures ok ==> HeapAdded(old(space.memory.owner), space.memory.owner, x, 1)
    ensures space.memory.early.cursor == old(space.memory.early.cursor)
    ensures ok ==> forall p: Page ::
                     Walk(space.ts, space.root, p) ==
                     if p == PageOf(x) then Small(LeafWith(frame, HEAP_FLAGS)) else old(Walk(space.ts, space.root, p))
    ensures ok ==> space.nd.Keys == old(space.nd).Keys + PathOf(PageOf(x))
    ensures ok ==> HeapEvents(old(space.memory.history), space.memory.history, x, 1)
    ensures ok <==> 1 + Lacks(old(space.nd).Keys, PageOf(x)) <= old(space.Left())
    ensures ok ==> space.Left() == old(space.Left()) - 1 - Lacks(old(space.nd).Keys, PageOf(x))
  {
    hide Shaped, Walk, PageOf, Protected, Memory.Valid, Memory.Left, Memory.ZeroNext, Drew, TablesOwned,
      HeapEvents, Lacks, PathOf, IsHistory, Added, HeapAdded;
    frame := 0;
    var r := space.memory.Supply(HeapPage(x));
    if r.None? {
      return false, 0;
    }
    frame := r.value / PAGE_SIZE;
    TablesStayOwned(space.ts, old(space.memory.owner), space.memory.owner);
    ghost var o1, h1 := space.memory.owner, space.memory.history;
    Latest(space.memory);
    ok := space.PagingMapMemory(PageOf(x), frame, HEAP_FLAGS);
    if ok {
      space.memory.DrewToAdded(h1, o1, TablePage);
      HeapAddedOne(old(space.memory.owner), o1, space.memory.owner, frame, x);
      OneHeapEvent(old(space.memory.history), h1, space.memory.history, x, frame, o1);
    }
  }

  /** The loop of `heap_map_more`. */
  method MapHeapPages(space: AddressSpace, v: int, n: nat) returns (ok: bool)
    requires space.Valid() && space.memory.handedOver && 0 <= v && v + n <= PAGES
    requires forall x :: v <= x < v + n ==> Walk(space.ts, space.root, PageOf(x)) == Missing
    modifies space`ts, space`nd, space.memory`owner, space.memory`history, space.memory.early`cursor
    modifies space.memory.frames`freeCount, space.memory.frames`hint, space.memory.frames.alloc
    ensures space.Valid() && (old(Protected(space.ts, space.nd)) ==> Protected(space.ts, space.nd))
    ensures ok ==> AllBacked(space.ts, space.root, space.memory.owner, v, n)
    ensures ok ==> OutsideKept(old(space.ts), space.ts, space.root, v, v + n)
    ensures ok ==> HeapEvents(old(space.memory.history), space.memory.history, v, n)
    ensures ok ==> HeapAdded(old(space.memory.owner), space.memory.owner, v, n)
    ensures space.memory.early.cursor == old(space.memory.early.cursor)
    ensures ok <==> Needed(old(space.nd).Keys, v, n) <= old(space.Left())
    ensures ok ==> space.Left() == old(space.Left()) - Needed(old(space.nd).Keys, v, n)
    ensures ok ==> Backable(space.nd.Keys, space.Left(), v + n) == Backable(old(space.nd).Keys, old(space.Left()), v) - n
  {
    hide Shaped, Walk, PageOf, Protected, Memory.Valid, Memory.Left, Memory.ZeroNext, Drew, TablesOwned, HeapEvents, Lacks,
      IsHistory, OutsideKept, AllBacked, Backable, Needed, PathOf, HeapAdded;
    ghost var all := Needed(space.nd.Keys, v, n);
    NoHeapEvents(space.memory.history, v, space.ts, space.root, space.memory.owner);
    var i := 0;
    while i < n
      invariant 0 <= i <= n && space.Valid() && (old(Protected(space.ts, space.nd)) ==> Protected(space.ts, space.nd))
      invariant AllBacked(space.ts, space.root, space.memory.owner, v, i)
      invariant OutsideKept(old(space.ts), space.ts, space.root, v, v + i)
      invariant HeapEvents(old(space.memory.history), space.memory.history, v, i)
      invariant HeapAdded(old(space.memory.owner), space.memory.owner, v, i)
      invariant space.memory.early.cursor == old(space.memory.early.cursor)
      invariant Needed(space.nd.Keys, v + i, n - i) + old(space.Left()) == all + space.Left()
      invariant Backable(space.nd.Keys, space.Left(), v + i) == Backable(old(space.nd).Keys, old(space.Left()), v) - i
    {
      ghost var ts0, o0, h0 := space.ts, space.memory.owner, space.memory.history;
      StillMissing(old(space.ts), ts0, space.root, v, i);
      BackableStep(space.nd.Keys, space.Left(), v + i);
      NeededStep(space.nd.Keys, v + i, n - i);
      var frame;
      ok, frame := MapHeapPage(space, v + i);
      if !ok {
        return;
      }
      AddedKeeps(o0, space.memory.owner, v + i, 1);
      HeapAddedTwice(old(space.memory.owner), o0, space.memory.owner, v, i);
      OneMoreBacked(ts0, space.ts, space.root, o0, space.memory.owner, v, i, frame);
      KeptOutside(old(space.ts), ts0, space.ts, space.root, v, i, Small(LeafWith(frame, HEAP_FLAGS)));
      MoreHeapEvents(old(space.memory.history), h0, space.memory.history, v, i);
      i := i + 1;
    }
    NothingNeeded(space.nd.Keys, v + n);
    ok := true;
  }

  lemma NothingNeeded(made: set<seq<int>>, v: int)
    requires 0 <= v <= PAGES
    ensures Needed(made, v, 0) == 0
  {
  }

  lemma AddedKeeps(o: Owners, o': Owners, v: int, n: int)
    requires HeapAdded(o, o', v, n)
    ensures forall f :: f in o ==> f in o' && o'[f] == o[f]
  {
  }

  lemma NoHeapEvents(h: History, v: int, ts: Tables, root: int, owner: Owners)
    requires 0 <= v <= PAGES
    ensures HeapEvents(h, h, v, 0) && OutsideKept(ts, ts, root, v, v) && AllBacked(ts, root, owner, v, 0)
    ensures HeapAdded(owner, owner, v, 0)
  {
  }

  lemma Latest(memory: Memory)
    requires memory.Valid()
    ensures IsHistory(memory.history) && memory.history.trace[|memory.history.events|] == memory.owner
  {
  }

  lemma TablesStayOwned(ts: Tables, o: Owners, o': Owners)
    requires TablesOwned(ts, o) && forall f :: f in o ==> f in o' && o'[f] == o[f]
    ensures TablesOwned(ts, o')
  {
  }

  lemma StillMissing(ts: Tables, ts': Tables, root: int, v: int, i: nat)
    requires 0 <= v && v + i < PAGES && OutsideKept(ts, ts', root, v, v + i)
    ensures Walk(ts', root, PageOf(v + i)) == Walk(ts, root, PageOf(v + i))
  {
  }

  lemma KeptOutside(ts: Tables, ts0: Tables, ts': Tables, root: int, v: int, i: nat, leaf: Leaf)
    requires 0 <= v && v + i < PAGES && OutsideKept(ts, ts0, root, v, v + i)
    requires forall p: Page :: Walk(ts', root, p) == if p == PageOf(v + i) then leaf else Walk(ts0, root, p)
    ensures OutsideKept(ts, ts', root, v, v + i + 1)
  {
    hide Walk, PageOf;
    forall x | 0 <= x < PAGES && !(v <= x < v + i + 1)
      ensures Walk(ts', root, PageOf(x)) == Walk(ts, root, PageOf(x))
    {
      SameRegion(x, v + i);
    }
  }
}
