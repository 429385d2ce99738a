/**
 Building the kernel's own address space: identity window, kernel image and the higher-half direct map
 (HHDM), and patching coverage before the switch of CR3.
 */
module Bootstrap {
  import opened Options
  import opened PageTables
  import opened Addresses
  import opened AddressSpace
  import opened BootMemory
  import opened Words
  import MM = MemoryMap

  /** What the direct map at `hb` shows for frame `f`. */
  ghost function Shown(ts: Tables, root: int, hb: int, f: int): Option<nat>
    requires 0 <= hb + f < PAGES
  {
    FrameOf(ts, root, hb + f)
  }

  /** The HHDM window [hb, hb + limit) shows exactly the frames of the first `i` entries. */
  ghost predicate ShowsEntries(ts: Tables, root: int, hb: int, limit: nat, entries: seq<MM.Entry>, i: int)
    requires 0 <= i <= |entries| && 0 <= hb && hb + limit <= PAGES
  {
    forall f :: 0 <= f < limit ==>
      Shown(ts, root, hb, f) == if MM.CoveredBy(entries, i, f) then Some(f) else None
  }

  ghost predicate OutsideKept(ts: Tables, ts': Tables, root: int, lo: int, hi: int) {
    forall x {:trigger PageOf(x)} :: 0 <= x < PAGES && !(lo <= x < hi)
      ==> Walk(ts', root, PageOf(x)) == Walk(ts, root, PageOf(x))
  }

  /** What `map_hhdm` may assume of its inputs: a 2 MiB aligned window with room for every entry. */
  ghost predicate WindowFits(hb: int, limit: nat, entries: seq<MM.Entry>) {
    && 0 <= hb && hb % 512 == 0 && 512 <= limit && hb + limit <= PAGES
    && MM.DisjointEntries(entries)
    && forall k :: 0 <= k < |entries| && MM.Included(entries[k]) ==> MM.EndPage(entries[k]) <= limit
  }

  /** Mapping entry `i` linearly adds its frames to the window. */
  lemma EntryShown(ts: Tables, ts': Tables, root: int, hb: int, limit: nat, entries: seq<MM.Entry>, i: int)
    requires WindowFits(hb, limit, entries) && 0 <= i < |entries| && MM.Included(entries[i])
    requires ShowsEntries(ts, root, hb, limit, entries, i)
    requires MM.FirstPage(entries[i]) < MM.EndPage(entries[i])
    requires RangeMapped(ts, ts', root, hb + MM.FirstPage(entries[i]), MM.FirstPage(entries[i]), MM.Pages(entries[i]), DATA)
    ensures ShowsEntries(ts', root, hb, limit, entries, i + 1)
  {
    hide Walk, PageOf, Target;
    var e := entries[i];
    var lo := MM.FirstPage(e);
    forall f | 0 <= f < limit
      ensures Shown(ts', root, hb, f) == if MM.CoveredBy(entries, i + 1, f) then Some(f) else None
    {
      if MM.Touches(e, f) {
        assert FrameOf(ts', root, hb + f) == Some(lo + (hb + f - (hb + lo)));
      } else {
        assert Walk(ts', root, PageOf(hb + f)) == Walk(ts, root, PageOf(hb + f));
        assert Shown(ts, root, hb, f) == if MM.CoveredBy(entries, i, f) then Some(f) else None;
      }
    }
  }

  lemma EntrySkipped(ts: Tables, root: int, hb: int, limit: nat, entries: seq<MM.Entry>, i: int)
    requires WindowFits(hb, limit, entries) && 0 <= i < |entries|
    requires ShowsEntries(ts, root, hb, limit, entries, i)
    requires !MM.Included(entries[i]) || MM.EndPage(entries[i]) <= MM.FirstPage(entries[i])
    ensures ShowsEntries(ts, root, hb, limit, entries, i + 1)
  {
    hide Walk, PageOf, Target, FrameOf;
    forall f ensures MM.CoveredBy(entries, i + 1, f) <==> MM.CoveredBy(entries, i, f) {}
  }

  /** Frames not shown yet have no leaf, large or small, on their path. */
  lemma NotShownYet(ts: Tables, root: int, hb: int, limit: nat, entries: seq<MM.Entry>, i: int, f: int)
    requires WindowFits(hb, limit, entries) && 0 <= i < |entries| && MM.Included(entries[i])
    requires ShowsEntries(ts, root, hb, limit, entries, i)
    requires MM.Touches(entries[i], f) && 0 <= f
    ensures hb + f < PAGES && Walk(ts, root, PageOf(hb + f)) == Missing
  {
    hide Walk, PageOf;
    assert Shown(ts, root, hb, f) == if MM.CoveredBy(entries, i, f) then Some(f) else None;
    assert !MM.CoveredBy(entries, i, f);
  }

  /** Tables enough for the direct map of the first `i` entries. */
  function EntryTables(hb: int, entries: seq<MM.Entry>, i: int): int
    requires 0 <= i <= |entries|
  {
    if i == 0 then 0
    else EntryTables(hb, entries, i - 1)
         + if MM.Included(entries[i - 1]) then TablesFor(hb + MM.FirstPage(entries[i - 1]), MM.Pages(entries[i - 1])) else 0
  }

  lemma {:induction false} MoreTables(hb: int, entries: seq<MM.Entry>, i: int)
    requires 0 <= hb && 0 <= i < |entries|
    ensures EntryTables(hb, entries, i + 1) <= EntryTables(hb, entries, |entries|)
    decreases |entries| - i
  {
    if i + 1 < |entries| {
      var e := entries[i + 1];
      TablesForGrows(hb + MM.FirstPage(e), 0, MM.Pages(e));
      MoreTables(hb, entries, i + 1);
    }
  }

  /** Six tables an entry and one for every 512 pages of memory, with the upper levels, are enough. */
  lemma {:induction false} EntryTablesBound(hb: int, entries: seq<MM.Entry>, i: int)
    requires 0 <= hb && 0 <= i <= |entries|
    ensures 0 <= EntryTables(hb, entries, i) <= 6 * i + 3 * (MM.TotalPages(entries, i) / 512)
  {
    if i > 0 {
      EntryTablesBound(hb, entries, i - 1);
      var e := entries[i - 1];
      if MM.Included(e) {
        TablesForBound(hb + MM.FirstPage(e), MM.Pages(e));
        var n, m := MM.Pages(e), MM.TotalPages(entries, i - 1);
        assert n / 512 / 512 / 512 <= n / 512 / 512 <= n / 512;
        assert m / 512 + n / 512 <= (m + n) / 512;
      }
    }
  }

  /** What is mapped in the window is the kernel's to read and write, and not to execute. */
  ghost predicate WindowData(ts: Tables, root: int, hb: int, limit: nat)
    requires 0 <= hb && hb + limit <= PAGES
  {
    forall x {:trigger RightsAt(ts, root, x)} :: hb <= x < hb + limit ==>
      RightsAt(ts, root, x) == None || RightsAt(ts, root, x) == Some(DATA)
  }

  lemma NothingInWindow(ts: Tables, root: int, hb: int, limit: nat)
    requires 0 <= hb && hb + limit <= PAGES && forall f :: 0 <= f < limit ==> Shown(ts, root, hb, f) == None
    ensures WindowData(ts, root, hb, limit)
  {
    hide Walk, PageOf;
    forall x | hb <= x < hb + limit ensures RightsAt(ts, root, x) == None {
      assert Shown(ts, root, hb, x - hb) == None;
    }
  }

  lemma RangeInWindow(ts: Tables, ts': Tables, root: int, hb: int, limit: nat, v: int, f: nat, n: nat)
    requires 0 <= hb && hb + limit <= PAGES && WindowData(ts, root, hb, limit)
    requires RangeMapped(ts, ts', root, v, f, n, DATA)
    ensures WindowData(ts', root, hb, limit)
  {
    hide Walk, PageOf;
    forall x | hb <= x < hb + limit ensures RightsAt(ts', root, x) == None || RightsAt(ts', root, x) == Some(DATA) {
      assert RightsAt(ts, root, x) == RightsAt(ts, root, x);
    }
  }

  // ---------- the direct map in bytes ----------

  /** Physical byte `p` is what the direct map shows at its place. */
  ghost predicate ByteShown(ts: Tables, root: int, hb: int, p: int) {
    0 <= hb * PAGE_SIZE + p < PAGES * PAGE_SIZE && Translate(ts, root, hb * PAGE_SIZE + p) == Some(p)
  }

  /** Every byte of every included entry is there. */
  ghost predicate EntryBytesShown(ts: Tables, root: int, hb: int, entries: seq<MM.Entry>) {
    forall k, p {:trigger MM.InEntry(entries[k], p)} ::
      0 <= k < |entries| && MM.Included(entries[k]) && MM.InEntry(entries[k], p) ==> ByteShown(ts, root, hb, p)
  }

  /** Byte `p` is in the first 2 MiB or in a frame of which an included entry has a byte or starts, empty, inside. */
  ghost predicate MeantByte(entries: seq<MM.Entry>, p: int) {
    || 0 <= p < 0x20_0000
    || exists k :: 0 <= k < |entries| && MM.Included(entries[k])
                   && (MM.HasByteIn(entries[k], p / PAGE_SIZE) || MM.EmptyIn(entries[k], p / PAGE_SIZE))
  }

  /** The window shows those bytes and no other. */
  ghost predicate WindowBytes(ts: Tables, root: int, hb: int, limit: nat, entries: seq<MM.Entry>)
    requires 0 <= hb && hb + limit <= PAGES
  {
    forall p {:trigger MeantByte(entries, p)} :: 0 <= p < limit * PAGE_SIZE ==>
      Translate(ts, root, hb * PAGE_SIZE + p) == if MeantByte(entries, p) then Some(p) else None
  }

  /** A byte in the window translates with its page. */
  lemma ByteOfPage(ts: Tables, root: int, hb: int, p: int)
    requires 0 <= hb && 0 <= p && hb + p / PAGE_SIZE < PAGES
    ensures 0 <= hb * PAGE_SIZE + p < PAGES * PAGE_SIZE
    ensures Translate(ts, root, hb * PAGE_SIZE + p) ==
            match FrameOf(ts, root, hb + p / PAGE_SIZE)
            case None => None
            case Some(f) => Some(f * PAGE_SIZE + p % PAGE_SIZE)
  {
    hide Walk, PageOf, Target;
    var a, x := hb * PAGE_SIZE + p, hb + p / PAGE_SIZE;
    Remainder(a, PAGE_SIZE, x, p % PAGE_SIZE);
    OffsetsForget(a);
    Remainder(x, PAGES, 0, x);
  }

  lemma ShownBytes(ts: Tables, root: int, hb: int, limit: nat, entries: seq<MM.Entry>)
    requires WindowFits(hb, limit, entries)
    requires forall f :: 0 <= f < limit ==>
               Shown(ts, root, hb, f) == if f < 512 || MM.CoveredBy(entries, |entries|, f) then Some(f) else None
    ensures WindowBytes(ts, root, hb, limit, entries) && EntryBytesShown(ts, root, hb, entries)
  {
    hide Walk, PageOf, Target, FrameOf, Translate, MeantByte, MM.CoveredBy, MM.InEntry, MM.DisjointEntries;
    forall p | 0 <= p < limit * PAGE_SIZE
      ensures Translate(ts, root, hb * PAGE_SIZE + p) == if MeantByte(entries, p) then Some(p) else None
    {
      ShownByte(ts, root, hb, limit, entries, p);
    }
    forall k, p | 0 <= k < |entries| && MM.Included(entries[k]) && MM.InEntry(entries[k], p) ensures ByteShown(ts, root, hb, p) {
      EntryByteMeant(hb, limit, entries, k, p);
      ShownByte(ts, root, hb, limit, entries, p);
    }
  }

  lemma ShownByte(ts: Tables, root: int, hb: int, limit: nat, entries: seq<MM.Entry>, p: int)
    requires 0 <= hb && hb + limit <= PAGES && 0 <= p < limit * PAGE_SIZE
    requires forall f :: 0 <= f < limit ==>
               Shown(ts, root, hb, f) == if f < 512 || MM.CoveredBy(entries, |entries|, f) then Some(f) else None
    ensures 0 <= hb * PAGE_SIZE + p < PAGES * PAGE_SIZE
    ensures Translate(ts, root, hb * PAGE_SIZE + p) == if MeantByte(entries, p) then Some(p) else None
  {
    hide Walk, PageOf, Target, FrameOf, Translate, MeantByte, MM.CoveredBy;
    var f := p / PAGE_SIZE;
    ByteOfPage(ts, root, hb, p);
    assert Shown(ts, root, hb, f) == if f < 512 || MM.CoveredBy(entries, |entries|, f) then Some(f) else None;
    MeantIsCovered(entries, p);
  }

  lemma MeantIsCovered(entries: seq<MM.Entry>, p: int)
    requires 0 <= p
    ensures MeantByte(entries, p) <==> p / PAGE_SIZE < 512 || MM.CoveredBy(entries, |entries|, p / PAGE_SIZE)
  {
    hide MM.HasByteIn, MM.EmptyIn, MM.Touches, MM.Included;
    forall k | 0 <= k < |entries|
      ensures MM.Touches(entries[k], p / PAGE_SIZE)
              <==> MM.HasByteIn(entries[k], p / PAGE_SIZE) || MM.EmptyIn(entries[k], p / PAGE_SIZE)
    {
      MM.TouchesBytes(entries[k], p / PAGE_SIZE);
    }
  }

  lemma EntryByteMeant(hb: int, limit: nat, entries: seq<MM.Entry>, k: int, p: int)
    requires WindowFits(hb, limit, entries) && 0 <= k < |entries| && MM.Included(entries[k])
    requires MM.InEntry(entries[k], p)
    ensures 0 <= p < limit * PAGE_SIZE && MeantByte(entries, p)
  {
    assert MM.InEntry(entries[k], p) && MM.InFrame(p / PAGE_SIZE, p);
    assert MM.HasByteIn(entries[k], p / PAGE_SIZE);
  }

  /** The final low leaf shows the first 2 MiB and agrees with everything shown before. */
  lemma LowLeaf(ts: Tables, ts': Tables, root: int, hb: int, limit: nat, entries: seq<MM.Entry>)
    requires WindowFits(hb, limit, entries) && ShowsEntries(ts, root, hb, limit, entries, |entries|)
    requires forall p: Page :: Walk(ts', root, p) ==
               if p[..3] == PageOf(hb)[..3] then Huge(Entry(true, true, false, true, true, 0), 2) else Walk(ts, root, p)
    ensures forall f :: 0 <= f < limit ==>
              Shown(ts', root, hb, f) == if f < 512 || MM.CoveredBy(entries, |entries|, f) then Some(f) else None
    ensures OutsideKept(ts, ts', root, hb, hb + limit)
    ensures WindowData(ts, root, hb, limit) ==> WindowData(ts', root, hb, limit)
  {
    hide Walk, PageOf, LargeTarget;
    forall f | 0 <= f < limit
      ensures Shown(ts', root, hb, f) == if f < 512 || MM.CoveredBy(entries, |entries|, f) then Some(f) else None
    {
      SameRegion(hb + f, hb);
      RegionOf(hb + f, hb);
      LastIndex(hb + f);
      if f < 512 {
        LargeLeafAligned(0, f);
      } else {
        assert Shown(ts, root, hb, f) == if MM.CoveredBy(entries, |entries|, f) then Some(f) else None;
      }
    }
    forall x | 0 <= x < PAGES && !(hb <= x < hb + limit)
      ensures Walk(ts', root, PageOf(x)) == Walk(ts, root, PageOf(x))
    {
      SameRegion(x, hb);
      RegionOf(x, hb);
    }
    forall x | hb <= x < hb + limit && WindowData(ts, root, hb, limit)
      ensures RightsAt(ts', root, x) == None || RightsAt(ts', root, x) == Some(DATA)
    {
      assert RightsAt(ts, root, x) == RightsAt(ts, root, x);
    }
  }

  lemma AvoidsPart(v: int, n: nat, w: int, m: nat)
    requires 0 <= v <= w && w + m <= v + n
    ensures forall s :: Avoids(s, v, n) ==> Avoids(s, w, m)
  {
  }

  lemma AtMostTwo(made: set<seq<int>>, p: Page)
    ensures LacksAbove(made, p) <= 2 && {p[..1], p[..2]} <= PathOf(p)
  {
  }

  lemma NoTables(v: int)
    ensures TablesFor(v, 0) == 0
  {
  }

  lemma OutsideTwice(ts: Tables, ts1: Tables, ts2: Tables, root: int, lo: int, hi: int)
    requires OutsideKept(ts, ts1, root, lo, hi) && OutsideKept(ts1, ts2, root, lo, hi)
    ensures OutsideKept(ts, ts2, root, lo, hi)
  {
    hide Walk, PageOf;
  }

  lemma NoEntriesYet(ts: Tables, root: int, hb: int, limit: nat, entries: seq<MM.Entry>)
    requires 0 <= hb && hb + limit <= PAGES && forall f :: 0 <= f < limit ==> Shown(ts, root, hb, f) == None
    ensures ShowsEntries(ts, root, hb, limit, entries, 0) && OutsideKept(ts, ts, root, hb, hb + limit)
    ensures EntryTables(hb, entries, 0) == 0
  {
    hide FrameOf;
  }

  lemma RangeOutside(ts: Tables, ts': Tables, root: int, hb: int, limit: nat, v: int, f: nat, n: nat)
    requires RangeMapped(ts, ts', root, v, f, n, DATA) && hb <= v && v + n <= hb + limit
    ensures OutsideKept(ts, ts', root, hb, hb + limit)
  {
    hide Walk, PageOf, FrameOf, RightsAt;
  }

  /** One turn of the loop of `map_hhdm`. */
  method MapEntry(space: AddressSpace, hb: int, entries: seq<MM.Entry>, i: int, ghost limit: nat) returns (ok: bool)
    requires space.Valid() && !space.memory.handedOver && WindowFits(hb, limit, entries) && 0 <= i < |entries|
    requires ShowsEntries(space.ts, space.root, hb, limit, entries, i) && WindowData(space.ts, space.root, hb, limit)
    modifies space`ts, space`nd, space.memory`owner, space.memory`history, space.memory.early`cursor
    ensures space.Valid() && (old(Protected(space.ts, space.nd)) ==> Protected(space.ts, space.nd))
    ensures Drew(old(space.memory.history), space.memory.history, TablePage)
    ensures ok ==> space.Left() >= old(space.Left()) - EntryTables(hb, entries, i + 1) + EntryTables(hb, entries, i)
    ensures !ok ==> space.Left() == 0 && old(space.Left()) < EntryTables(hb, entries, i + 1) - EntryTables(hb, entries, i)
    ensures ok ==> forall s :: Avoids(s, hb, limit) && old(SlotFree(space.nd.Keys, s)) ==> SlotFree(space.nd.Keys, s)
    ensures ok ==> OutsideKept(old(space.ts), space.ts, space.root, hb, hb + limit)
    ensures ok ==> ShowsEntries(space.ts, space.root, hb, limit, entries, i + 1) && WindowData(space.ts, space.root, hb, limit)
  {
    hide Shaped, Walk, PageOf, Target, Protected, Memory.Valid, Memory.Left, Drew, TablesOwned, SlotFree, Avoids, TablesFor,
      WindowData, ShowsEntries, OutsideKept, RangeMapped;
    DrewOne(space.memory.history, 0, TablePage, map[]);
    var e := entries[i];
    var base, end := MM.FirstPage(e), MM.EndPage(e);
    if !MM.Included(e) || end <= base {
      NoTables(hb + base);
      EntrySkipped(space.ts, space.root, hb, limit, entries, i);
      OutsideSelf(space.ts, space.root, hb, hb + limit);
      return true;
    }
    forall x | hb + base <= x < hb + end ensures !Walk(space.ts, space.root, PageOf(x)).Huge? {
      NotShownYet(space.ts, space.root, hb, limit, entries, i, x - hb);
    }
    ghost var was := space.ts;
    ok := space.MapRangeHugeFirst(hb + base, base, end - base);
    if ok {
      EntryShown(was, space.ts, space.root, hb, limit, entries, i);
      RangeInWindow(was, space.ts, space.root, hb, limit, hb + base, base, end - base);
      RangeOutside(was, space.ts, space.root, hb, limit, hb + base, base, end - base);
      AvoidsPart(hb, limit, hb + base, end - base);
    }
  }

  lemma OutsideSelf(ts: Tables, root: int, lo: int, hi: int)
    ensures OutsideKept(ts, ts, root, lo, hi)
  {
  }

  /**
   `map_hhdm`. `ok` is false when the kernel panics: for a missing offset or memory map or for want of
   pages, never for a large leaf in the way.
   */
  method MapHhdm(space: AddressSpace, hb: int, entries: seq<MM.Entry>, ghost limit: nat) returns (ok: bool)
    requires space.Valid() && !space.memory.handedOver && WindowFits(hb, limit, entries)
    requires forall f :: 0 <= f < limit ==> Shown(space.ts, space.root, hb, f) == None
    modifies space`ts, space`nd, space.memory`owner, space.memory`history, space.memory.early`cursor
    ensures space.Valid() && (old(Protected(space.ts, space.nd)) ==> Protected(space.ts, space.nd))
    ensures Drew(old(space.memory.history), space.memory.history, TablePage)
    ensures hb == 0 || entries == [] ==> !ok
    ensures ok ==> space.Left() >= old(space.Left()) - EntryTables(hb, entries, |entries|) - 2
    ensures !ok ==> || hb == 0 || entries == []
                    || (space.Left() == 0 && old(space.Left()) < EntryTables(hb, entries, |entries|) + 2)
    ensures ok ==> forall s :: Avoids(s, hb, limit) && old(SlotFree(space.nd.Keys, s)) ==> SlotFree(space.nd.Keys, s)
    ensures ok ==> OutsideKept(old(space.ts), space.ts, space.root, hb, hb + limit)
    ensures ok ==> forall f :: 0 <= f < limit ==>
              Shown(space.ts, space.root, hb, f) ==
              if f < 512 || MM.CoveredBy(entries, |entries|, f) then Some(f) else None
    ensures ok ==> WindowBytes(space.ts, space.root, hb, limit, entries) && EntryBytesShown(space.ts, space.root, hb, entries)
    ensures ok ==> WindowData(space.ts, space.root, hb, limit)
  {
    hide Shaped, Walk, PageOf, Target, Protected, Memory.Valid, Memory.Left, Drew, TablesOwned, SlotFree, Avoids, TablesFor,
      LacksAbove, WindowData, WindowBytes, EntryBytesShown, ShowsEntries, OutsideKept, EntryTables, MM.CoveredBy;
    NoEntriesYet(space.ts, space.root, hb, limit, entries);
    NothingInWindow(space.ts, space.root, hb, limit);
    DrewOne(space.memory.history, 0, TablePage, map[]);
    if hb == 0 || entries == [] {
      return false;
    }
    for i := 0 to |entries|
      invariant space.Valid() && (old(Protected(space.ts, space.nd)) ==> Protected(space.ts, space.nd))
      invariant space.Left() >= old(space.Left()) - EntryTables(hb, entries, i)
      invariant forall s :: Avoids(s, hb, limit) && old(SlotFree(space.nd.Keys, s)) ==> SlotFree(space.nd.Keys, s)
      invariant Drew(old(space.memory.history), space.memory.history, TablePage)
      invariant ShowsEntries(space.ts, space.root, hb, limit, entries, i)
      invariant OutsideKept(old(space.ts), space.ts, space.root, hb, hb + limit)
      invariant WindowData(space.ts, space.root, hb, limit)
    {
      MoreTables(hb, entries, i);
      ghost var was, h := space.ts, space.memory.history;
      ok := MapEntry(space, hb, entries, i, limit);
      DrewTwice(old(space.memory.history), h, space.memory.history, TablePage);
      if !ok {
        return;
      }
      OutsideTwice(old(space.ts), was, space.ts, space.root, hb, hb + limit);
    }
    ghost var was, made, h := space.ts, space.nd.Keys, space.memory.history;
    AtMostTwo(made, PageOf(hb));
    ok := space.Map2m(PageOf(hb), 0, true);
    DrewTwice(old(space.memory.history), h, space.memory.history, TablePage);
    if ok {
      SlotsKept(made, space.nd.Keys, hb, limit, hb);
      LowLeaf(was, space.ts, space.root, hb, limit, entries);
      OutsideTwice(old(space.ts), was, space.ts, space.root, hb, hb + limit);
      ShownBytes(space.ts, space.root, hb, limit, entries);
    }
  }

  // ---------- coverage patching ----------

  /** Page `x` is missing, and among those a patch of the frames [lo, hi) is about. */
  ghost predicate Fresh(ts: Tables, root: int, hb: int, lo: int, hi: int, x: int)
    requires 0 <= x < PAGES
  {
    FrameOf(ts, root, x) == None && hb + lo <= x < hb + hi && 0 <= x - hb
  }

  /** Nothing mapped before is mapped differently; what is new shows its own frame, as data. */
  ghost predicate Patched(ts: Tables, ts': Tables, root: int, hb: int, lo: int, hi: int) {
    forall x {:trigger FrameOf(ts', root, x)} {:trigger RightsAt(ts', root, x)} :: 0 <= x < PAGES ==>
      && FrameOf(ts', root, x) == (if Fresh(ts, root, hb, lo, hi, x) then Some(x - hb) else FrameOf(ts, root, x))
      && RightsAt(ts', root, x) == (if Fresh(ts, root, hb, lo, hi, x) then Some(DATA) else RightsAt(ts, root, x))
  }

  /** Tables that mapping page `x` takes if it is missing. */
  ghost function CoverTables(ts: Tables, nd: Nodes, root: int, x: int): nat
    requires 0 <= x < PAGES
  {
    if FrameOf(ts, root, x) != None then 0 else Lacks(nd.Keys, PageOf(x))
  }

  lemma CoverAtMostThree(ts: Tables, nd: Nodes, root: int, x: int)
    requires 0 <= x < PAGES
    ensures CoverTables(ts, nd, root, x) <= 3
  {
    hide FrameOf, PageOf;
  }

  /** `ensure_hhdm_cover_phys_page`: a missing page is mapped; the descent never meets a large leaf. */
  method EnsureCoverPage(space: AddressSpace, hb: int, f: nat) returns (ok: bool)
    requires space.Valid() && !space.memory.handedOver && 0 <= hb && hb + f < PAGES
    modifies space`ts, space`nd, space.memory`owner, space.memory`history, space.memory.early`cursor
    ensures space.Valid() && (old(Protected(space.ts, space.nd)) ==> Protected(space.ts, space.nd))
    ensures Drew(old(space.memory.history), space.memory.history, TablePage)
    ensures ok <==> old(CoverTables(space.ts, space.nd, space.root, hb + f)) <= old(space.Left())
    ensures ok ==> space.Left() == old(space.Left()) - old(CoverTables(space.ts, space.nd, space.root, hb + f))
    ensures !ok ==> space.Left() == 0
    ensures ok ==> Patched(old(space.ts), space.ts, space.root, hb, f, f + 1)
    ensures ok ==> forall s :: s != Slot(hb + f) && old(SlotFree(space.nd.Keys, s)) ==> SlotFree(space.nd.Keys, s)
    ensures old(FrameOf(space.ts, space.root, hb + f)) != None ==> ok && unchanged(space) && space.memory.history == old(space.memory.history)
  {
    hide Shaped, Walk, PageOf, Protected, LargeTarget, Memory.Valid, Memory.Left, Drew, TablesOwned, SlotFree, Lacks, PathOf;
    DrewOne(space.memory.history, 0, TablePage, map[]);
    var l := Walk(space.ts, space.root, PageOf(hb + f));
    if l != Missing {
      return true;
    }
    ghost var was, made := space.ts, space.nd.Keys;
    ok := space.Map4k(PageOf(hb + f), f, true, true);
    if ok {
      SlotsKept(made, space.nd.Keys, hb + f, 1, hb + f);
      forall x | 0 <= x < PAGES
        ensures FrameOf(space.ts, space.root, x) == if x == hb + f then Some(f) else FrameOf(was, space.root, x)
        ensures RightsAt(space.ts, space.root, x) == if x == hb + f then Some(DATA) else RightsAt(was, space.root, x)
      {
        SameRegion(x, hb + f);
      }
    }
  }

  /** What the next page of a patched range lacks, if it is missing. */
  lemma CoverLacks(before: Tables, ts: Tables, nd: Nodes, root: int, hb: int, f: nat, k: nat)
    requires Shaped(ts, nd, root) && 0 <= hb && hb + f + k < PAGES && Patched(before, ts, root, hb, f, f + k)
    ensures CoverTables(ts, nd, root, hb + f + k) <= TablesFor(hb + f, k + 1) - TablesFor(hb + f, k)
  {
    hide Shaped, Walk, PageOf;
    if k > 0 && FrameOf(ts, root, hb + f + k) == None {
      assert FrameOf(ts, root, hb + f + k - 1) != None;
      NextLacks(ts, nd, root, hb + f + k);
    }
    TablesForGrows(hb + f, k, k + 1);
  }

  lemma AvoidsOne(v: int, n: nat, x: int)
    requires 0 <= v <= x < v + n
    ensures forall s :: Avoids(s, v, n) ==> s != Slot(x)
  {
  }

  /** `ensure_hhdm_cover_phys_range`, page by page. */
  method EnsureCoverRange(space: AddressSpace, hb: int, f: nat, n: nat) returns (ok: bool)
    requires space.Valid() && !space.memory.handedOver && 0 <= hb && hb + f + n <= PAGES
    modifies space`ts, space`nd, space.memory`owner, space.memory`history, space.memory.early`cursor
    ensures space.Valid() && (old(Protected(space.ts, space.nd)) ==> Protected(space.ts, space.nd))
    ensures Drew(old(space.memory.history), space.memory.history, TablePage)
    ensures ok ==> space.Left() >= old(space.Left()) - TablesFor(hb + f, n)
    ensures !ok ==> space.Left() == 0 && old(space.Left()) < TablesFor(hb + f, n)
    ensures ok ==> Patched(old(space.ts), space.ts, space.root, hb, f, f + n)
    ensures ok ==> forall s :: Avoids(s, hb + f, n) && old(SlotFree(space.nd.Keys, s)) ==> SlotFree(space.nd.Keys, s)
    ensures (forall x :: hb + f <= x < hb + f + n ==> old(FrameOf(space.ts, space.root, x)) != None)
            ==> ok && unchanged(space) && space.memory.history == old(space.memory.history)
  {
    hide Shaped, Walk, PageOf, Protected, FrameOf, Memory.Valid, Memory.Left, Drew, TablesOwned, Lacks, SlotFree, Avoids,
      TablesFor, Slot, CoverTables;
    DrewOne(space.memory.history, 0, TablePage, map[]);
    TablesForGrows(hb + f, 0, n);
    var k := 0;
    while k < n
      invariant 0 <= k <= n && space.Valid() && Drew(old(space.memory.history), space.memory.history, TablePage)
      invariant old(Protected(space.ts, space.nd)) ==> Protected(space.ts, space.nd)
      invariant space.Left() >= old(space.Left()) - TablesFor(hb + f, k)
      invariant forall s :: Avoids(s, hb + f, n) && old(SlotFree(space.nd.Keys, s)) ==> SlotFree(space.nd.Keys, s)
      invariant Patched(old(space.ts), space.ts, space.root, hb, f, f + k)
      invariant (forall x :: hb + f <= x < hb + f + n ==> old(FrameOf(space.ts, space.root, x)) != None)
                ==> unchanged(space) && space.memory.history == old(space.memory.history)
    {
      ghost var h := space.memory.history;
      CoverLacks(old(space.ts), space.ts, space.nd, space.root, hb, f, k);
      TablesForGrows(hb + f, k + 1, n);
      AvoidsOne(hb + f, n, hb + f + k);
      ok := EnsureCoverPage(space, hb, f + k);
      DrewTwice(old(space.memory.history), h, space.memory.history, TablePage);
      if !ok {
        return;
      }
      k := k + 1;
    }
    ok := true;
  }

  /** Running the patch again does nothing: everything in the range already translates. */
  lemma PatchedIsCovered(ts: Tables, ts': Tables, root: int, hb: int, f: nat, n: nat)
    requires 0 <= hb && hb + f + n <= PAGES && Patched(ts, ts', root, hb, f, f + n)
    ensures forall x :: hb + f <= x < hb + f + n ==> FrameOf(ts', root, x) != None
  {
    hide FrameOf;
  }

  /** Page `x` is mapped as before, or it was not and now shows its own frame, as data. */
  ghost predicate ExtendedAt(ts: Tables, ts': Tables, root: int, hb: int, limit: nat, x: int)
    requires 0 <= x < PAGES
  {
    || (FrameOf(ts', root, x) == FrameOf(ts, root, x) && RightsAt(ts', root, x) == RightsAt(ts, root, x))
    || (FrameOf(ts, root, x) == None && hb <= x < hb + limit
        && FrameOf(ts', root, x) == Some(x - hb) && RightsAt(ts', root, x) == Some(DATA))
  }

  ghost predicate Extended(ts: Tables, ts': Tables, root: int, hb: int, limit: nat) {
    forall x {:trigger FrameOf(ts', root, x)} {:trigger RightsAt(ts', root, x)} :: 0 <= x < PAGES ==>
      ExtendedAt(ts, ts', root, hb, limit, x)
  }

  lemma ExtendedSelf(ts: Tables, root: int, hb: int, limit: nat)
    ensures Extended(ts, ts, root, hb, limit)
  {
    hide FrameOf, RightsAt;
    forall x | 0 <= x < PAGES ensures ExtendedAt(ts, ts, root, hb, limit, x) {}
  }

  lemma PatchExtends(ts0: Tables, ts: Tables, ts': Tables, root: int, hb: int, limit: nat, lo: int, hi: int)
    requires Extended(ts0, ts, root, hb, limit) && Patched(ts, ts', root, hb, lo, hi) && hi <= limit
    ensures Extended(ts0, ts', root, hb, limit)
  {
    hide FrameOf, RightsAt;
    forall x | 0 <= x < PAGES ensures ExtendedAt(ts0, ts', root, hb, limit, x) {
      assert FrameOf(ts, root, x) == FrameOf(ts, root, x) && FrameOf(ts', root, x) == FrameOf(ts', root, x);
    }
  }

  /** Frame `f` can be reached through the direct map. */
  ghost predicate Reachable(ts: Tables, root: int, hb: int, f: int) {
    0 <= hb + f < PAGES && FrameOf(ts, root, hb + f) != None
  }

  lemma PatchReaches(ts: Tables, ts': Tables, root: int, hb: int, lo: nat, hi: nat)
    requires Patched(ts, ts', root, hb, lo, hi) && 0 <= hb && hb + hi <= PAGES
    ensures forall f :: lo <= f < hi || Reachable(ts, root, hb, f) ==> Reachable(ts', root, hb, f)
  {
    hide FrameOf;
    forall f | lo <= f < hi || Reachable(ts, root, hb, f) ensures Reachable(ts', root, hb, f) {
      assert FrameOf(ts', root, hb + f) == FrameOf(ts', root, hb + f);
    }
  }

  /** The stack pointer lies in the direct map of the first `maxPhys` bytes. */
  predicate StackInWindow(rsp: nat, hb: int, maxPhys: nat) { hb * PAGE_SIZE <= rsp < hb * PAGE_SIZE + maxPhys }

  /** Every translation leads to a frame that the direct map could show. */
  ghost predicate FramesInWindow(ts: Tables, root: int, limit: nat) {
    forall x :: 0 <= x < PAGES && FrameOf(ts, root, x).Some? ==> FrameOf(ts, root, x).value < limit
  }

  /** The pages the patches are about. */
  predicate ToPatch(f: int, stack: nat, oldRoot: nat, newRoot: nat) {
    0 <= f < 512 || f == stack || f == oldRoot || f == newRoot
  }

  /** Tables enough for the four patches. */
  function PatchTables(hb: int): int { TablesFor(hb, 512) + 9 }

  /** All of them can be reached through the direct map. */
  ghost predicate AllPatched(ts: Tables, root: int, hb: int, stack: nat, oldRoot: nat, newRoot: nat) {
    forall f {:trigger Reachable(ts, root, hb, f)} :: ToPatch(f, stack, oldRoot, newRoot) ==> Reachable(ts, root, hb, f)
  }

  /** And so can the first 2 MiB. */
  ghost predicate LowReachable(ts: Tables, root: int, hb: int) {
    forall f {:trigger Reachable(ts, root, hb, f)} :: 0 <= f < 512 ==> Reachable(ts, root, hb, f)
  }

  lemma PatchedPages(ts: Tables, root: int, hb: int, stack: nat, oldRoot: nat, newRoot: nat)
    requires AllPatched(ts, root, hb, stack, oldRoot, newRoot)
    ensures LowReachable(ts, root, hb) && Reachable(ts, root, hb, 0) && Reachable(ts, root, hb, stack)
    ensures Reachable(ts, root, hb, oldRoot) && Reachable(ts, root, hb, newRoot)
  {
    hide FrameOf, Reachable;
    assert ToPatch(0, stack, oldRoot, newRoot) && ToPatch(stack, stack, oldRoot, newRoot);
    assert ToPatch(oldRoot, stack, oldRoot, newRoot) && ToPatch(newRoot, stack, oldRoot, newRoot);
  }

  /** One patch on the way from the tables `was`. */
  method PatchPage(space: AddressSpace, hb: int, f: nat, ghost was: Tables, ghost limit: nat) returns (ok: bool)
    requires space.Valid() && !space.memory.handedOver && 0 <= hb && f < limit && hb + limit <= PAGES
    requires Extended(was, space.ts, space.root, hb, limit)
    modifies space`ts, space`nd, space.memory`owner, space.memory`history, space.memory.early`cursor
    ensures space.Valid() && (old(Protected(space.ts, space.nd)) ==> Protected(space.ts, space.nd))
    ensures Drew(old(space.memory.history), space.memory.history, TablePage)
    ensures ok ==> space.Left() >= old(space.Left()) - 3
    ensures !ok ==> space.Left() == 0 && old(space.Left()) < 3
    ensures ok ==> forall s :: Avoids(s, hb, limit) && old(SlotFree(space.nd.Keys, s)) ==> SlotFree(space.nd.Keys, s)
    ensures ok ==> Extended(was, space.ts, space.root, hb, limit)
    ensures ok ==> forall g :: g == f || old(Reachable(space.ts, space.root, hb, g)) ==> Reachable(space.ts, space.root, hb, g)
    ensures old(Reachable(space.ts, space.root, hb, f)) ==> ok && unchanged(space) && space.memory.history == old(space.memory.history)
  {
    hide Shaped, Protected, FrameOf, Patched, Memory.Valid, Memory.Left, Drew, TablesOwned, SlotFree, Avoids, Slot, PageOf,
      CoverTables, Extended;
    ghost var ts := space.ts;
    AvoidsOne(hb, limit, hb + f);
    CoverAtMostThree(ts, space.nd, space.root, hb + f);
    ok := EnsureCoverPage(space, hb, f);
    if ok {
      PatchExtends(was, ts, space.ts, space.root, hb, limit, f, f + 1);
      PatchReaches(ts, space.ts, space.root, hb, f, f + 1);
    }
  }

  /**
   The four patches of `pre_switch_audit_and_patch`: the first 2 MiB, the stack's page and both root
   tables. Nothing that translated before is touched; when all of it translates already, nothing is.
   */
  method PatchFour(space: AddressSpace, hb: int, stack: nat, oldRoot: nat, newRoot: nat, ghost limit: nat)
    returns (ok: bool)
    requires space.Valid() && !space.memory.handedOver && 0 <= hb && 512 <= limit && hb + limit <= PAGES
    requires stack < limit && oldRoot < limit && newRoot < limit
    modifies space`ts, space`nd, space.memory`owner, space.memory`history, space.memory.early`cursor
    ensures space.Valid() && (old(Protected(space.ts, space.nd)) ==> Protected(space.ts, space.nd))
    ensures Drew(old(space.memory.history), space.memory.history, TablePage)
    ensures ok ==> space.Left() >= old(space.Left()) - PatchTables(hb)
    ensures !ok ==> space.Left() == 0 && old(space.Left()) < PatchTables(hb)
    ensures ok ==> forall s :: Avoids(s, hb, limit) && old(SlotFree(space.nd.Keys, s)) ==> SlotFree(space.nd.Keys, s)
    ensures ok ==> Extended(old(space.ts), space.ts, space.root, hb, limit)
    ensures ok ==> AllPatched(space.ts, space.root, hb, stack, oldRoot, newRoot)
    ensures (forall f :: ToPatch(f, stack, oldRoot, newRoot) ==> old(Reachable(space.ts, space.root, hb, f)))
            ==> ok && unchanged(space) && space.memory.history == old(space.memory.history)
  {
    hide Shaped, Protected, FrameOf, Patched, Memory.Valid, Memory.Left, Drew, TablesOwned, SlotFree, Avoids, TablesFor, Slot,
      PageOf, CoverTables, Extended;
    AvoidsPart(hb, limit, hb, 512);
    TablesForGrows(hb, 0, 512);
    ghost var was := space.ts;
    ghost var all := forall f :: ToPatch(f, stack, oldRoot, newRoot) ==> Reachable(space.ts, space.root, hb, f);
    forall x | hb <= x < hb + 512 ensures all ==> FrameOf(was, space.root, x) != None {
      assert all && ToPatch(x - hb, stack, oldRoot, newRoot) ==> Reachable(was, space.root, hb, x - hb);
    }
    assert all ==> Reachable(was, space.root, hb, stack) && Reachable(was, space.root, hb, oldRoot)
                   && Reachable(was, space.root, hb, newRoot) by {
      assert ToPatch(stack, stack, oldRoot, newRoot) && ToPatch(oldRoot, stack, oldRoot, newRoot)
             && ToPatch(newRoot, stack, oldRoot, newRoot);
    }
    ok := EnsureCoverRange(space, hb, 0, 512);
    if !ok { return; }
    ExtendedSelf(was, space.root, hb, limit);
    PatchExtends(was, was, space.ts, space.root, hb, limit, 0, 512);
    PatchReaches(was, space.ts, space.root, hb, 0, 512);
    ghost var h := space.memory.history;
    ok := PatchPage(space, hb, stack, was, limit);
    DrewTwice(old(space.memory.history), h, space.memory.history, TablePage);
    if !ok { return; }
    h := space.memory.history;
    ok := PatchPage(space, hb, oldRoot, was, limit);
    DrewTwice(old(space.memory.history), h, space.memory.history, TablePage);
    if !ok { return; }
    h := space.memory.history;
    ok := PatchPage(space, hb, newRoot, was, limit);
    DrewTwice(old(space.memory.history), h, space.memory.history, TablePage);
  }

  /**
   `pre_switch_audit_and_patch`, with stack and instruction pointer as byte addresses. It panics only
   for want of pages, for a stack outside the direct map that translates nowhere, and for an instruction
   pointer that translates nowhere: its other four panics are dead.
   */
  method PreSwitchPatch(space: AddressSpace, hb: int, maxPhys: nat, rsp: nat, rip: nat, oldRoot: nat, ghost limit: nat)
    returns (ok: bool)
    requires space.Valid() && !space.memory.handedOver && 0 <= hb && 512 <= limit && hb + limit <= PAGES
    requires rsp < PAGES * PAGE_SIZE && rip < PAGES * PAGE_SIZE && oldRoot < limit && 0 <= space.root < limit
    requires FramesInWindow(space.ts, space.root, limit) && maxPhys <= limit * PAGE_SIZE
    modifies space`ts, space`nd, space.memory`owner, space.memory`history, space.memory.early`cursor
    ensures space.Valid() && (old(Protected(space.ts, space.nd)) ==> Protected(space.ts, space.nd))
    ensures Drew(old(space.memory.history), space.memory.history, TablePage)
    ensures ok ==> Extended(old(space.ts), space.ts, space.root, hb, limit)
    ensures ok ==> FrameOf(space.ts, space.root, rsp / PAGE_SIZE) != None && FrameOf(space.ts, space.root, rip / PAGE_SIZE) != None
    ensures ok ==> Reachable(space.ts, space.root, hb, oldRoot) && Reachable(space.ts, space.root, hb, space.root)
                   && LowReachable(space.ts, space.root, hb)
    ensures ok ==> space.Left() >= old(space.Left()) - PatchTables(hb)
    ensures ok ==> forall s :: Avoids(s, hb, limit) && old(SlotFree(space.nd.Keys, s)) ==> SlotFree(space.nd.Keys, s)
    ensures !ok ==> || (space.Left() == 0 && old(space.Left()) < PatchTables(hb))
                    || (!StackInWindow(rsp, hb, maxPhys) && old(FrameOf(space.ts, space.root, rsp / PAGE_SIZE)) == None)
                    || (old(FrameOf(space.ts, space.root, rip / PAGE_SIZE)) == None
                        && FrameOf(space.ts, space.root, rip / PAGE_SIZE) == None)
    ensures !StackInWindow(rsp, hb, maxPhys) && old(FrameOf(space.ts, space.root, rsp / PAGE_SIZE)) == None ==> !ok
  {
    hide Shaped, Protected, FrameOf, Patched, Memory.Valid, Memory.Left, Drew, TablesOwned, SlotFree, Avoids, PatchTables,
      AllPatched, LowReachable;
    DrewOne(space.memory.history, 0, TablePage, map[]);
    var s := rsp / PAGE_SIZE;
    var stack: nat;
    if StackInWindow(rsp, hb, maxPhys) {
      stack := s - hb;
    } else {
      var found := FrameOf(space.ts, space.root, s);
      if found == None {
        return false;
      }
      stack := found.value;
    }
    ghost var was := space.ts;
    ok := PatchFour(space, hb, stack, oldRoot, space.root, limit);
    if !ok {
      return;
    }
    PatchedPages(space.ts, space.root, hb, stack, oldRoot, space.root);
    assert FrameOf(was, space.root, s) != None ==> FrameOf(space.ts, space.root, s) == FrameOf(was, space.root, s);
    if FrameOf(space.ts, space.root, s) == None {
      assert false; // the stack is there after patching
    }
    if FrameOf(space.ts, space.root, rip / PAGE_SIZE) == None {
      return false;
    }
    if FrameOf(space.ts, space.root, hb) == None || FrameOf(space.ts, space.root, hb + oldRoot) == None
       || FrameOf(space.ts, space.root, hb + space.root) == None {
      assert false; // so is the direct map of page 0 and of both roots
    }
  }

  // ---------- the whole address space ----------

  /** Page-rounded sections of the kernel image; `shift` takes a virtual page number to its frame. */
  datatype Image = Image(t0: int, t1: int, r0: int, r1: int, d0: int, d1: int, shift: int)

  predicate InImage(k: Image, x: int) {
    k.t0 <= x < k.t1 || k.r0 <= x < k.r1 || k.d0 <= x < k.d1
  }

  /** The image lies above the identity window, outside the HHDM window, and has physical memory. */
  ghost predicate ImageFits(k: Image, hb: int, limit: nat) {
    && 512 <= k.t0 <= k.t1 <= PAGES && 512 <= k.r0 <= k.r1 <= PAGES && 512 <= k.d0 <= k.d1 <= PAGES
    && 0 <= k.t0 + k.shift && 0 <= k.r0 + k.shift && 0 <= k.d0 + k.shift
    && 512 <= hb && forall x :: InImage(k, x) ==> !(hb <= x < hb + limit)
  }

  /** What identity window and image show at virtual page `x`. */
  ghost function LowView(k: Image, x: int): Option<nat>
    requires 0 <= x && (InImage(k, x) ==> 0 <= x + k.shift)
  {
    if x < 512 then Some(x) else if InImage(k, x) then Some(x + k.shift) else None
  }

  ghost predicate ShowsLow(ts: Tables, root: int, k: Image)
    requires 0 <= k.t0 + k.shift && 0 <= k.r0 + k.shift && 0 <= k.d0 + k.shift
  {
    forall x {:trigger FrameOf(ts, root, x)} :: 0 <= x < PAGES ==> FrameOf(ts, root, x) == LowView(k, x)
  }

  /** What the finished address space must show at virtual page `x`. */
  ghost function KernelView(k: Image, hb: int, limit: nat, entries: seq<MM.Entry>, x: int): Option<nat>
    requires ImageFits(k, hb, limit)
  {
    if 0 <= x < 512 then Some(x)
    else if InImage(k, x) then Some(x + k.shift)
    else if hb <= x < hb + limit && (x - hb < 512 || MM.CoveredBy(entries, |entries|, x - hb)) then Some(x - hb)
    else None
  }

  /** Tables enough for identity window and image. */
  function LowTables(k: Image): int {
    TablesFor(0, 512) + TablesFor(k.t0, k.t1 - k.t0) + TablesFor(k.r0, k.r1 - k.r0) + TablesFor(k.d0, k.d1 - k.d0)
  }

  /** Neither identity window nor image goes through root entry `s`. */
  predicate LowAvoids(s: int, k: Image) {
    Avoids(s, 0, 512) && Avoids(s, k.t0, k.t1 - k.t0) && Avoids(s, k.r0, k.r1 - k.r0) && Avoids(s, k.d0, k.d1 - k.d0)
  }

  /** Bytes [start, end). */
  datatype Span = Span(start: nat, end: nat)

  predicate Within(s: Span, a: int) { s.start <= a < s.end }

  /** The sections as the linker and the boot loader give them, addresses cut to 48 bits. */
  datatype Sections = Sections(text: Span, rodata: Span, data: Span, virtualBase: nat, physicalBase: nat)

  /** Rounding outwards to pages, as `map_kernel_higher_half` does. */
  function ImageOf(s: Sections): Image {
    Image(s.text.start / PAGE_SIZE, (s.text.end + PAGE_SIZE - 1) / PAGE_SIZE,
          s.rodata.start / PAGE_SIZE, (s.rodata.end + PAGE_SIZE - 1) / PAGE_SIZE,
          s.data.start / PAGE_SIZE, (s.data.end + PAGE_SIZE - 1) / PAGE_SIZE,
          s.physicalBase / PAGE_SIZE - s.virtualBase / PAGE_SIZE)
  }

  /** The page of byte `a` holds a byte of the section. */
  ghost predicate SharesPage(s: Span, a: int) { exists b :: Within(s, b) && b / PAGE_SIZE == a / PAGE_SIZE }

  lemma RoundedSpan(s: Span, a: int)
    requires 0 <= a
    ensures s.start < s.end ==> (SharesPage(s, a) <==> s.start / PAGE_SIZE <= a / PAGE_SIZE < (s.end + PAGE_SIZE - 1) / PAGE_SIZE)
    ensures Within(s, a) ==> SharesPage(s, a)
  {
    var f := a / PAGE_SIZE;
    if s.start < s.end && s.start / PAGE_SIZE <= f < (s.end + PAGE_SIZE - 1) / PAGE_SIZE {
      var b := if f * PAGE_SIZE <= s.start then s.start else f * PAGE_SIZE;
      assert Within(s, b) && b / PAGE_SIZE == f;
    }
  }

  const TEXT: Rights := Rights(false, false, true)
  const RODATA: Rights := Rights(false, false, false)

  /**
   What the kernel means to allow at page `x` if that is mapped: code runs and is not written, constants
   neither, everything else is written and does not run. Where rounded sections share a page, the later counts.
   */
  function Intended(k: Image, x: int): Rights {
    if k.d0 <= x < k.d1 then DATA
    else if k.r0 <= x < k.r1 then RODATA
    else if k.t0 <= x < k.t1 then TEXT
    else DATA
  }

  /** Every mapped page has the rights it is meant to have. */
  ghost predicate AllIntended(ts: Tables, root: int, k: Image) {
    forall x {:trigger RightsAt(ts, root, x)} :: 0 <= x < PAGES ==>
      RightsAt(ts, root, x) == None || RightsAt(ts, root, x) == Some(Intended(k, x))
  }

  /** That is also what the processor grants, whatever the links on the way to it say. */
  ghost predicate AllGranted(ts: Tables, root: int, k: Image) {
    forall x {:trigger Grants(ts, root, PageOf(x))} :: 0 <= x < PAGES ==>
      Grants(ts, root, PageOf(x)) == if FrameOf(ts, root, x) == None then None else Some(Intended(k, x))
  }

  lemma IntendedGranted(ts: Tables, nd: Nodes, root: int, k: Image)
    requires Shaped(ts, nd, root) && AllIntended(ts, root, k)
    ensures AllGranted(ts, root, k)
  {
    hide Shaped, Walk, PageOf, Grants, LargeTarget;
    forall x | 0 <= x < PAGES
      ensures Grants(ts, root, PageOf(x)) == if FrameOf(ts, root, x) == None then None else Some(Intended(k, x))
    {
      LeafDecides(ts, nd, root, PageOf(x));
      assert RightsAt(ts, root, x) == RightsAt(ts, root, x);
    }
  }

  /** Patches are data outside the image. */
  lemma ExtendedIntended(ts: Tables, ts': Tables, root: int, hb: int, limit: nat, k: Image)
    requires ImageFits(k, hb, limit) && AllIntended(ts, root, k) && Extended(ts, ts', root, hb, limit)
    ensures AllIntended(ts', root, k)
  {
    hide FrameOf, RightsAt;
    forall x | 0 <= x < PAGES ensures RightsAt(ts', root, x) == None || RightsAt(ts', root, x) == Some(Intended(k, x)) {
      assert ExtendedAt(ts, ts', root, hb, limit, x);
      assert RightsAt(ts, root, x) == RightsAt(ts, root, x);
      assert hb <= x < hb + limit ==> !InImage(k, x);
    }
  }

  /** Identity window and image, in the order the source maps them. */
  method MapLowAndImage(space: AddressSpace, k: Image, ghost hb: int, ghost limit: nat) returns (ok: bool)
    requires space.Valid() && !space.memory.handedOver && ImageFits(k, hb, limit) && Protected(space.ts, space.nd)
    requires forall p: Page :: Walk(space.ts, space.root, p) == Missing
    modifies space`ts, space`nd, space.memory`owner, space.memory`history, space.memory.early`cursor
    ensures space.Valid() && Protected(space.ts, space.nd)
    ensures Drew(old(space.memory.history), space.memory.history, TablePage)
    ensures !ok ==> space.Left() == 0 && old(space.Left()) < LowTables(k)
    ensures ok ==> space.Left() >= old(space.Left()) - LowTables(k)
    ensures ok ==> forall s :: LowAvoids(s, k) && old(SlotFree(space.nd.Keys, s)) ==> SlotFree(space.nd.Keys, s)
    ensures ok ==> ShowsLow(space.ts, space.root, k) && AllIntended(space.ts, space.root, k)
  {
    hide Shaped, Walk, PageOf, Protected, Memory.Valid, Memory.Left, Drew, TablesOwned, SlotFree, Avoids, TablesFor, RangeMapped,
      ShowsLow, AllIntended, NoLargeLeaf;
    TablesForGrows(0, 0, 512);
    TablesForGrows(k.t0, 0, k.t1 - k.t0);
    TablesForGrows(k.r0, 0, k.r1 - k.r0);
    TablesForGrows(k.d0, 0, k.d1 - k.d0);
    ghost var ts0 := space.ts;
    ok := space.MapRange4k(0, 0, 512, true, true);
    if !ok { return; }
    ghost var ts1, h := space.ts, space.memory.history;
    StillNoLarge(ts0, ts1, space.root, 0, 0, 512, DATA, k.t0, k.t1);
    ok := space.MapRange4k(k.t0, k.t0 + k.shift, k.t1 - k.t0, false, false);
    DrewTwice(old(space.memory.history), h, space.memory.history, TablePage);
    if !ok { return; }
    ghost var ts2 := space.ts;
    h := space.memory.history;
    StillNoLarge(ts1, ts2, space.root, k.t0, k.t0 + k.shift, k.t1 - k.t0, TEXT, k.r0, k.r1);
    ok := space.MapRange4k(k.r0, k.r0 + k.shift, k.r1 - k.r0, false, true);
    DrewTwice(old(space.memory.history), h, space.memory.history, TablePage);
    if !ok { return; }
    ghost var ts3 := space.ts;
    h := space.memory.history;
    StillNoLarge(ts2, ts3, space.root, k.r0, k.r0 + k.shift, k.r1 - k.r0, RODATA, k.d0, k.d1);
    ok := space.MapRange4k(k.d0, k.d0 + k.shift, k.d1 - k.d0, true, true);
    DrewTwice(old(space.memory.history), h, space.memory.history, TablePage);
    if !ok { return; }
    FourRanges(ts0, ts1, ts2, ts3, space.ts, space.root, k);
  }

  ghost predicate NoLargeLeaf(ts: Tables, root: int) {
    forall x {:trigger PageOf(x)} :: 0 <= x < PAGES ==> !Walk(ts, root, PageOf(x)).Huge?
  }

  /** After a range of 4 KiB leaves nothing is in the way of the next one. */
  lemma StillNoLarge(ts: Tables, ts': Tables, root: int, v: int, f: nat, n: nat, r: Rights, lo: int, hi: int)
    requires NoLargeLeaf(ts, root) || forall p: Page :: Walk(ts, root, p) == Missing
    requires RangeMapped(ts, ts', root, v, f, n, r) && 0 <= v && v + n <= PAGES && 0 <= lo <= hi <= PAGES
    requires forall x :: v <= x < v + n ==>
               Walk(ts', root, PageOf(x)) == Small(Entry(true, r.writable, false, false, !r.executable, f + (x - v)))
    ensures NoLargeLeaf(ts', root) && forall x :: lo <= x < hi ==> !Walk(ts', root, PageOf(x)).Huge?
  {
    hide Walk, PageOf;
    forall x | 0 <= x < PAGES ensures !Walk(ts', root, PageOf(x)).Huge? {
      if !(v <= x < v + n) { assert Walk(ts', root, PageOf(x)) == Walk(ts, root, PageOf(x)); }
    }
  }

  lemma FourRanges(ts0: Tables, ts1: Tables, ts2: Tables, ts3: Tables, ts4: Tables, root: int, k: Image)
    requires 512 <= k.t0 <= k.t1 <= PAGES && 512 <= k.r0 <= k.r1 <= PAGES && 512 <= k.d0 <= k.d1 <= PAGES
    requires 0 <= k.t0 + k.shift && 0 <= k.r0 + k.shift && 0 <= k.d0 + k.shift
    requires forall p: Page :: Walk(ts0, root, p) == Missing
    requires RangeMapped(ts0, ts1, root, 0, 0, 512, DATA)
    requires RangeMapped(ts1, ts2, root, k.t0, k.t0 + k.shift, k.t1 - k.t0, TEXT)
    requires RangeMapped(ts2, ts3, root, k.r0, k.r0 + k.shift, k.r1 - k.r0, RODATA)
    requires RangeMapped(ts3, ts4, root, k.d0, k.d0 + k.shift, k.d1 - k.d0, DATA)
    ensures ShowsLow(ts4, root, k) && AllIntended(ts4, root, k)
  {
    hide Walk, PageOf;
    forall x | 0 <= x < PAGES
      ensures FrameOf(ts4, root, x) == LowView(k, x)
      ensures RightsAt(ts4, root, x) == None || RightsAt(ts4, root, x) == Some(Intended(k, x))
    {
      RangeAt(ts0, ts1, root, 0, 0, 512, DATA, x);
      RangeAt(ts1, ts2, root, k.t0, k.t0 + k.shift, k.t1 - k.t0, TEXT, x);
      RangeAt(ts2, ts3, root, k.r0, k.r0 + k.shift, k.r1 - k.r0, RODATA, x);
      RangeAt(ts3, ts4, root, k.d0, k.d0 + k.shift, k.d1 - k.d0, DATA, x);
    }
  }

  lemma RangeAt(ts: Tables, ts': Tables, root: int, v: int, f: nat, n: nat, r: Rights, x: int)
    requires RangeMapped(ts, ts', root, v, f, n, r) && 0 <= x < PAGES
    ensures FrameOf(ts', root, x) == if v <= x < v + n then Some(f + (x - v)) else FrameOf(ts, root, x)
    ensures RightsAt(ts', root, x) == if v <= x < v + n then Some(r) else RightsAt(ts, root, x)
  {
    hide Walk, PageOf;
    assert v <= x < v + n ==> FrameOf(ts', root, x) == Some(f + (x - v));
    assert !(v <= x < v + n) ==> Walk(ts', root, PageOf(x)) == Walk(ts, root, PageOf(x));
  }

  /** Frames that are enough for the tables of the bootstrap. */
  function BootTables(k: Image, hb: int, entries: seq<MM.Entry>): int {
    LowTables(k) + EntryTables(hb, entries, |entries|) + 2
  }

  lemma WindowIntended(ts: Tables, ts': Tables, root: int, hb: int, limit: nat, k: Image)
    requires ImageFits(k, hb, limit) && hb + limit <= PAGES && AllIntended(ts, root, k)
    requires OutsideKept(ts, ts', root, hb, hb + limit) && WindowData(ts', root, hb, limit)
    ensures AllIntended(ts', root, k)
  {
    hide Walk, PageOf;
    forall x | 0 <= x < PAGES ensures RightsAt(ts', root, x) == None || RightsAt(ts', root, x) == Some(Intended(k, x)) {
      if hb <= x < hb + limit { assert !InImage(k, x); } else { assert RightsAt(ts, root, x) == RightsAt(ts', root, x); }
    }
  }

  /** `paging_bootstrap` up to the switch: the finished tables show exactly the kernel's view. */
  method PagingBootstrap(space: AddressSpace, k: Image, hb: int, entries: seq<MM.Entry>, ghost limit: nat)
    returns (ok: bool)
    requires space.Valid() && !space.memory.handedOver && Protected(space.ts, space.nd)
    requires forall p: Page :: Walk(space.ts, space.root, p) == Missing
    requires WindowFits(hb, limit, entries) && ImageFits(k, hb, limit)
    modifies space`ts, space`nd, space.memory`owner, space.memory`history, space.memory.early`cursor
    ensures space.Valid() && (ok ==> Protected(space.ts, space.nd))
    ensures entries == [] ==> !ok
    ensures !ok ==> entries == []
                    || (space.Left() == 0 && old(space.Left()) < BootTables(k, hb, entries))
    ensures ok ==> forall s :: LowAvoids(s, k) && Avoids(s, hb, limit) && old(SlotFree(space.nd.Keys, s)) ==> SlotFree(space.nd.Keys, s)
    ensures ok ==> space.Left() >= old(space.Left()) - BootTables(k, hb, entries)
    ensures ok ==> Drew(old(space.memory.history), space.memory.history, TablePage)
    ensures ok ==> forall x {:trigger FrameOf(space.ts, space.root, x)} :: 0 <= x < PAGES ==>
              FrameOf(space.ts, space.root, x) == KernelView(k, hb, limit, entries, x)
    ensures ok ==> AllIntended(space.ts, space.root, k) && EntryBytesShown(space.ts, space.root, hb, entries)
  {
    hide Shaped, Walk, PageOf, Protected, Target, Memory.Valid, Memory.Left, Drew, TablesOwned, SlotFree, Avoids, LowAvoids,
      LowTables, EntryTables, WindowData, WindowBytes, EntryBytesShown, AllIntended;
    EntryTablesBound(hb, entries, |entries|);
    ok := MapLowAndImage(space, k, hb, limit);
    if !ok { return; }
    ghost var was := space.ts;
    forall f | 0 <= f < limit ensures Shown(space.ts, space.root, hb, f) == None {
      assert FrameOf(space.ts, space.root, hb + f) == LowView(k, hb + f);
    }
    ghost var h := space.memory.history;
    ok := MapHhdm(space, hb, entries, limit);
    DrewTwice(old(space.memory.history), h, space.memory.history, TablePage);
    if !ok { return; }
    forall x | 0 <= x < PAGES ensures FrameOf(space.ts, space.root, x) == KernelView(k, hb, limit, entries, x) {
      if hb <= x < hb + limit {
        assert !InImage(k, x);
        assert Shown(space.ts, space.root, hb, x - hb) == FrameOf(space.ts, space.root, x);
      } else {
        assert Walk(space.ts, space.root, PageOf(x)) == Walk(was, space.root, PageOf(x));
        assert FrameOf(space.ts, space.root, x) == FrameOf(was, space.root, x) == LowView(k, x);
      }
    }
    WindowIntended(was, space.ts, space.root, hb, limit, k);
  }
}
