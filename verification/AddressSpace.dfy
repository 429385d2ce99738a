/**
 The mapping routines that build the kernel's address space while booting, and the generic ones used
 afterwards, run against one set of page tables.
 */
module AddressSpace {
  import opened Options
  import opened PageTables
  import opened Addresses
  import opened BootMemory
  import opened Words

  /** Every table lies in a frame owned as a page table. */
  ghost predicate TablesOwned(ts: Tables, owner: Owners) {
    forall f :: f in ts ==> f in owner && owner[f] == TablePage
  }

  /** Readable, writable, not executable, and the kernel's own. */
  const DATA: Rights := Rights(true, false, false)

  lemma SameMeaningSelf(ts: Tables, nd: Nodes)
    ensures SameMeaning(ts, nd, ts, nd)
  {
  }

  /** How many tables the path of page `p` lacks. */
  ghost function Lacks(made: set<seq<int>>, p: Page): nat {
    if p[..3] in made then 0 else if p[..2] in made then 1 else if p[..1] in made then 2 else 3
  }

  /** How many of them lie above the last level. */
  ghost function LacksAbove(made: set<seq<int>>, p: Page): nat {
    if p[..2] in made then 0 else if p[..1] in made then 1 else 2
  }

  /** Where the tables on the path of page `p` hang. */
  ghost function PathOf(p: Page): set<seq<int>> { {p[..1], p[..2], p[..3]} }

  // ---------- how many tables a range takes ----------

  /** Regions of 2 MiB, of 1 GiB and of 512 GiB that end at or before page `x`; one table serves each. */
  function Spans(x: int): int { x / 512 + x / 512 / 512 + x / 512 / 512 / 512 }

  /** Tables enough for the pages [v, v + n): one of each level, and one for every region entered on the way. */
  function TablesFor(v: int, n: int): int { if n <= 0 then 0 else 3 + Spans(v + n - 1) - Spans(v) }

  /** Places less than `n` apart, seen 512 times coarser. */
  lemma SpanApart(v: int, w: int, n: int)
    requires 0 <= v <= w <= v + n
    ensures v / 512 <= w / 512 <= v / 512 + n / 512 + 1
  {
  }

  lemma CoarserApart(v: int, w: int, n: int)
    requires 0 <= v <= w && w / 512 <= v / 512 + n / 512 + 1 && 0 <= n
    ensures w / 512 / 512 <= v / 512 / 512 + n / 512 / 512 + 1
  {
  }

  /** That is about one table for every 512 pages. */
  lemma TablesForBound(v: int, n: nat)
    requires 0 <= v
    ensures 0 <= TablesFor(v, n) <= 6 + n / 512 + n / 512 / 512 + n / 512 / 512 / 512
  {
    if n > 0 {
      var w := v + n - 1;
      SpanApart(v, w, n);
      CoarserApart(v, w, n);
      CoarserApart(v / 512, w / 512, n / 512);
    }
  }

  /** Longer ranges take no fewer tables. */
  lemma TablesForGrows(v: int, m: nat, n: nat)
    requires 0 <= v && m <= n
    ensures 0 <= TablesFor(v, m) <= TablesFor(v, n)
  {
    hide Spans;
    if m > 0 {
      SpansGrow(v, v + m - 1);
      SpansGrow(v + m - 1, v + n - 1);
    } else if n > 0 {
      SpansGrow(v, v + n - 1);
    }
  }

  lemma SpansGrow(x: int, y: int)
    requires 0 <= x <= y
    ensures Spans(x) <= Spans(y)
  {
    DivGrows(x, y);
    DivGrows(x / 512, y / 512);
    DivGrows(x / 512 / 512, y / 512 / 512);
  }

  lemma DivGrows(x: int, y: int)
    requires 0 <= x <= y
    ensures 0 <= x / 512 <= y / 512
  {
  }

  /** Pages in the same region share the table that serves it. */
  lemma SharedTables(x: int, y: int)
    requires 0 <= x < PAGES && 0 <= y < PAGES
    ensures x / 512 / 512 / 512 == y / 512 / 512 / 512 ==> PageOf(x)[..1] == PageOf(y)[..1]
    ensures x / 512 / 512 == y / 512 / 512 ==> PageOf(x)[..2] == PageOf(y)[..2]
    ensures x / 512 == y / 512 ==> PageOf(x)[..3] == PageOf(y)[..3]
  {
    var p, q := PageOf(x), PageOf(y);
    assert p[..1] == [p[0]] && p[..2] == [p[0], p[1]] && p[..3] == [p[0], p[1], p[2]];
    assert q[..1] == [q[0]] && q[..2] == [q[0], q[1]] && q[..3] == [q[0], q[1], q[2]];
  }

  /** A mapped page has its tables, so the page after it lacks only those of the regions it enters. */
  lemma NextLacks(ts: Tables, nd: Nodes, root: int, x: int)
    requires Shaped(ts, nd, root) && 0 < x < PAGES
    requires Walk(ts, root, PageOf(x - 1)) != Missing && !Walk(ts, root, PageOf(x)).Huge?
    ensures Lacks(nd.Keys, PageOf(x)) <= Spans(x) - Spans(x - 1)
  {
    hide Shaped, Walk, PageOf;
    var p, q := PageOf(x), PageOf(x - 1);
    WalkMeaning(ts, nd, root, p);
    WalkMeaning(ts, nd, root, q);
    PrefixesPresent(ts, nd, root, q);
    SharedTables(x, x - 1);
    assert q[..2] in nd;
    if x / 512 == (x - 1) / 512 && q[..3] !in nd {
      SameLarge(ts, nd, p, q);
    }
  }

  lemma SameLarge(ts: Tables, nd: Nodes, p: Page, q: Page)
    requires p[..3] == q[..3] && q[..3] !in nd && Meaning(ts, nd, q) != Missing
    ensures Meaning(ts, nd, p) == Meaning(ts, nd, q) && Meaning(ts, nd, p).Huge?
  {
    assert p[..2] == p[..3][..2] == q[..2] && p[2] == p[..3][2] == q[2];
  }

  /** What page v + k lacks once the range [v, v + k) is mapped. */
  lemma RangeLacks(before: Tables, ts: Tables, nd: Nodes, root: int, v: int, f: nat, k: nat, r: Rights)
    requires Shaped(ts, nd, root) && 0 <= v && v + k < PAGES && RangeMapped(before, ts, root, v, f, k, r)
    requires !Walk(ts, root, PageOf(v + k)).Huge?
    ensures Lacks(nd.Keys, PageOf(v + k)) <= TablesFor(v, k + 1) - TablesFor(v, k)
  {
    hide Shaped, Walk, PageOf;
    if k > 0 {
      assert FrameOf(ts, root, v + k - 1) == Some(f + (k - 1));
      NextLacks(ts, nd, root, v + k);
    } else {
      assert TablesFor(v, 1) == 3;
    }
  }

  // ---------- where tables hang ----------

  /** The root entry that page `x` goes through. */
  function Slot(x: int): int { x / 512 / 512 / 512 }

  /** No table hangs below root entry `s`. */
  ghost predicate SlotFree(made: set<seq<int>>, s: int) { forall q :: q in made && q != [] ==> q[0] != s }

  /** None of the pages [v, v + n) goes through root entry `s`. */
  predicate Avoids(s: int, v: int, n: int) { n <= 0 || s < Slot(v) || Slot(v + n - 1) < s }

  lemma PathSlot(x: int)
    requires 0 <= x < PAGES
    ensures forall q :: q in PathOf(PageOf(x)) ==> q != [] && q[0] == Slot(x)
  {
  }

  /** Tables for page `x` of [v, v + n) hang below root entries that the range goes through. */
  lemma SlotsKept(made: set<seq<int>>, made': set<seq<int>>, v: int, n: int, x: int)
    requires 0 <= v <= x < v + n <= PAGES && made' <= made + PathOf(PageOf(x))
    ensures forall s :: Avoids(s, v, n) && SlotFree(made, s) ==> SlotFree(made', s)
  {
    hide PageOf, PathOf;
    PathSlot(x);
  }

  lemma FewerAbove(ts: Tables, nd: Nodes, root: int, p: Page)
    requires Shaped(ts, nd, root)
    ensures LacksAbove(nd.Keys, p) <= Lacks(nd.Keys, p) && {p[..1], p[..2]} <= PathOf(p)
  {
    PrefixesPresent(ts, nd, root, p);
  }

  class AddressSpace {
    var ts: Tables
    const root: int
    const memory: Memory   // where frames for tables come from
    ghost var nd: Nodes

    ghost predicate Valid()
      reads this, memory, memory.early, memory.frames, memory.frames.alloc, memory.frames.usable
    {
      memory.Valid() && Shaped(ts, nd, root) && TablesOwned(ts, memory.owner)
    }

    /** How many more tables can be made. */
    ghost function Left(): nat
      reads this, memory, memory.early, memory.frames, memory.frames.alloc, memory.frames.usable
      requires Valid()
    {
      memory.Left()
    }

    /** A zeroed root table in a frame taken for it, which maps nothing. */
    constructor (memory: Memory, root: nat)
      requires memory.Valid() && root in memory.owner && memory.owner[root] == TablePage
      ensures Valid() && this.root == root && this.memory == memory && Protected(ts, nd)
      ensures forall p: Page :: Walk(ts, root, p) == Missing
      ensures forall s :: SlotFree(nd.Keys, s)
    {
      this.root, this.memory := root, memory;
      ts, nd := map[root := ZeroTable()], map[[] := root];
      new;
      assert NodeOk(ts, nd, []);
    }

    /** Hang the zeroed frame `f`, just taken for a table, into the absent entry `i` of table `t`. */
    method HangTable(t: int, i: int, f: nat, user: bool, ghost q: seq<int>)
      requires memory.Valid() && Shaped(ts, nd, root) && TablesOwned(ts, memory.owner)
      requires q in nd && nd[q] == t && |q| < 3 && 0 <= i < 512 && IsTable(ts, t) && !ts[t][i].present
      requires f !in ts && f in memory.owner && memory.owner[f] == TablePage
      modifies `ts, `nd
      ensures Valid() && SameMeaning(old(ts), old(nd), ts, nd)
      ensures old(Protected(ts, nd)) ==> Protected(ts, nd)
      ensures nd == old(nd)[q + [i] := f] && q + [i] !in old(nd)
      ensures IsTable(ts, t) && ts[t][i] == Entry(true, true, user, false, false, f)
    {
      hide Meaning, Protected, EntriesOk, Memory.Valid;
      AddTableShaped(ts, nd, root, q, i, f, user);
      AddTableInvisible(ts, nd, root, q, i, f, user);
      if Protected(ts, nd) { AddTableProtected(ts, nd, root, q, i, f, user); }
      ts := ts[f := ZeroTable()];
      ts := SetEntry(ts, t, i, Entry(true, true, user, false, false, f));
      assert ts == AddTable(old(ts), nd, q, i, f, user);
      nd := nd[q + [i] := f];
    }

    /** `get_or_make_next`: `None` stands for its panics, a large leaf in the way or no page left. */
    method GetOrMakeNext(t: int, i: int, ghost q: seq<int>) returns (r: Option<nat>)
      requires Valid() && !memory.handedOver && q in nd && nd[q] == t && |q| < 3 && 0 <= i < 512
      modifies `ts, `nd, memory`owner, memory`history, memory.early`cursor
      ensures Valid() && SameMeaning(old(ts), old(nd), ts, nd)
      ensures old(Protected(ts, nd)) ==> Protected(ts, nd)
      ensures IsTable(old(ts), t) && (r.None? <==>
                var e := old(ts)[t][i]; (e.present && e.huge) || (!e.present && old(Left()) == 0))
      ensures r.None? ==> unchanged(this) && memory.history == old(memory.history) && Left() == old(Left())
                          && q + [i] !in nd
      ensures r.Some? ==> nd == old(nd)[q + [i] := r.value]
                          && Left() == old(Left()) - (if q + [i] in old(nd) then 0 else 1)
      ensures r.Some? && q + [i] !in old(nd) ==> IsTable(ts, t) && ts[t][i] == Entry(true, true, false, false, false, r.value)
      ensures Drew(old(memory.history), memory.history, TablePage)
    {
      hide Shaped, Meaning, Protected, Memory.Valid, Memory.Left, Drew, SameMeaning;
      NodeHasTable(ts, nd, root, q);
      DrewOne(memory.history, 0, TablePage, map[]);
      SameMeaningSelf(ts, nd);
      var e := ts[t][i];
      if e.present && e.huge {
        NoTableYet(ts, nd, root, q, i);
        return None;
      }
      if e.present {
        EntryLeads(ts, nd, root, q, i);
        return Some(e.frame);
      }
      NoTableYet(ts, nd, root, q, i);
      var p := memory.SupplyEarly(TablePage);
      if p.None? {
        return None;
      }
      var f := p.value / PAGE_SIZE;
      DrewOne(old(memory.history), f, TablePage, memory.owner);
      HangTable(t, i, f, false, q);
      r := Some(f);
    }

    /** The two descents of `map_2m`, which nothing can be in the way of. */
    method DescendTwo(p: Page) returns (r: Option<nat>)
      requires Valid() && !memory.handedOver
      modifies `ts, `nd, memory`owner, memory`history, memory.early`cursor
      ensures Valid() && SameMeaning(old(ts), old(nd), ts, nd)
      ensures old(Protected(ts, nd)) ==> Protected(ts, nd)
      ensures r.Some? <==> LacksAbove(old(nd).Keys, p) <= old(Left())
      ensures r.Some? ==> p[..2] in nd && nd[p[..2]] == r.value && Left() == old(Left()) - LacksAbove(old(nd).Keys, p)
      ensures r.Some? ==> nd.Keys == old(nd).Keys + {p[..1], p[..2]}
      ensures r.None? ==> Left() == 0
      ensures Drew(old(memory.history), memory.history, TablePage)
    {
      hide Shaped, Meaning, Protected, Memory.Valid, Memory.Left, Drew, TablesOwned;
      Slices(p);
      RootNode(ts, nd, root);
      PrefixesPresent(ts, nd, root, p);
      assert p[..1] != p[..2] by { assert |p[..1]| < |p[..2]|; }
      NoHugeAbove(ts, nd, root, []);
      r := GetOrMakeNext(root, p[0], []);
      if r.None? { return; }
      NoHugeAbove(ts, nd, root, p[..1]);
      ghost var h := memory.history;
      r := GetOrMakeNext(r.value, p[1], p[..1]);
      DrewTwice(old(memory.history), h, memory.history, TablePage);
    }

    /** The three descents of `map_4k`: the last-level table for page `p`, made if need be. */
    method Descend(p: Page) returns (r: Option<nat>)
      requires Valid() && !memory.handedOver
      modifies `ts, `nd, memory`owner, memory`history, memory.early`cursor
      ensures Valid() && SameMeaning(old(ts), old(nd), ts, nd)
      ensures old(Protected(ts, nd)) ==> Protected(ts, nd)
      ensures r.Some? <==> !old(Meaning(ts, nd, p)).Huge? && Lacks(old(nd).Keys, p) <= old(Left())
      ensures r.Some? ==> p[..3] in nd && nd[p[..3]] == r.value && Left() == old(Left()) - Lacks(old(nd).Keys, p)
      ensures r.Some? ==> nd.Keys == old(nd).Keys + PathOf(p)
      ensures r.None? ==> old(Meaning(ts, nd, p)).Huge? || Left() == 0
      ensures Drew(old(memory.history), memory.history, TablePage)
    {
      hide Shaped, Meaning, Protected, Memory.Valid, Memory.Left, Drew, TablesOwned;
      Slices(p);
      PrefixesPresent(ts, nd, root, p);
      assert p[..1] != p[..3] && p[..2] != p[..3] by { assert |p[..1]| < |p[..2]| < |p[..3]|; }
      r := DescendTwo(p);
      if r.None? { return; }
      ghost var h := memory.history;
      r := GetOrMakeNext(r.value, p[2], p[..2]);
      DrewTwice(old(memory.history), h, memory.history, TablePage);
      if r.None? {
        if Left() != 0 { HugeInTheWay(ts, nd, root, p[..2], p); }
        return;
      }
      TableOnPath(ts, nd, root, p);
    }

    /** `map_4k`: one 4 KiB leaf. `ok` is false when the kernel panics. */
    method Map4k(p: Page, frame: nat, writable: bool, nx: bool) returns (ok: bool)
      requires Valid() && !memory.handedOver
      modifies `ts, `nd, memory`owner, memory`history, memory.early`cursor
      ensures Valid() && Drew(old(memory.history), memory.history, TablePage)
      ensures old(Protected(ts, nd)) && (writable ==> nx) ==> Protected(ts, nd)
      ensures ok <==> !old(Walk(ts, root, p)).Huge? && Lacks(old(nd).Keys, p) <= old(Left())
      ensures ok ==> Left() == old(Left()) - Lacks(old(nd).Keys, p) && nd.Keys == old(nd).Keys + PathOf(p)
      ensures !ok ==> old(Walk(ts, root, p)).Huge? || Left() == 0
      ensures forall x: Page :: Walk(ts, root, x) ==
                if ok && x == p then Small(Entry(true, writable, false, false, nx, frame)) else old(Walk(ts, root, x))
    {
      hide Shaped, Meaning, Protected, Walk, Memory.Valid, Memory.Left, Drew, Lacks, PathOf;
      WalkAll(ts, nd, root);
      var pt := Descend(p);
      if pt.None? {
        WalkAll(ts, nd, root);
        return false;
      }
      TableOnPath(ts, nd, root, p);
      var e := Entry(true, writable, false, false, nx, frame);
      SetLeafShaped(ts, nd, root, p[..3], p[3], e);
      SetLeafAll(ts, nd, root, p, e);
      if Protected(ts, nd) && (writable ==> nx) { SetEntryProtected(ts, nd, nd, root, p[..3], p[3], e); }
      ts := SetEntry(ts, pt.value, p[3], e);
      WalkAll(ts, nd, root);
      ok := true;
    }

    /** `map_2m`: one large leaf, always writable, replacing whatever table was there. */
    method Map2m(p: Page, frame: nat, nx: bool) returns (ok: bool)
      requires Valid() && !memory.handedOver
      modifies `ts, `nd, memory`owner, memory`history, memory.early`cursor
      ensures Valid() && Drew(old(memory.history), memory.history, TablePage)
      ensures old(Protected(ts, nd)) && nx ==> Protected(ts, nd)
      ensures ok <==> LacksAbove(old(nd).Keys, p) <= old(Left())
      ensures ok ==> Left() == old(Left()) - LacksAbove(old(nd).Keys, p)
                     && nd.Keys == old(nd).Keys + {p[..1], p[..2]} - {p[..3]}
      ensures !ok ==> Left() == 0
      ensures forall x: Page :: Walk(ts, root, x) ==
                if ok && x[..3] == p[..3] then Huge(Entry(true, true, false, true, nx, frame), 2)
                else old(Walk(ts, root, x))
    {
      hide Shaped, Meaning, Protected, Walk, Memory.Valid, Memory.Left, Drew, LacksAbove;
      WalkAll(ts, nd, root);
      Slices(p);
      var pd := DescendTwo(p);
      if pd.None? {
        WalkAll(ts, nd, root);
        return false;
      }
      NodeHasTable(ts, nd, root, p[..2]);
      var e := Entry(true, true, false, true, nx, frame);
      SetHugeShaped(ts, nd, root, p[..2], p[2], e);
      SetHugeAll(ts, nd, root, p, e);
      if Protected(ts, nd) && nx { SetEntryProtected(ts, nd, nd - {p[..3]}, root, p[..2], p[2], e); }
      ts := SetEntry(ts, pd.value, p[2], e);
      nd := nd - {p[..3]};
      WalkAll(ts, nd, root);
      ok := true;
    }

    // ---------- ranges ----------

    /** `map_range_4k`: `n` pages from `v` on to the frames from `f` on. It panics only with the pool empty. */
    method MapRange4k(v: int, f: nat, n: nat, writable: bool, nx: bool) returns (ok: bool)
      requires Valid() && !memory.handedOver && 0 <= v && v + n <= PAGES
      requires forall x :: v <= x < v + n ==> !Walk(ts, root, PageOf(x)).Huge?
      modifies `ts, `nd, memory`owner, memory`history, memory.early`cursor
      ensures Valid() && Drew(old(memory.history), memory.history, TablePage)
      ensures old(Protected(ts, nd)) && (writable ==> nx) ==> Protected(ts, nd)
      ensures ok ==> RangeMapped(old(ts), ts, root, v, f, n, Rights(writable, false, !nx))
      ensures ok ==> forall x :: v <= x < v + n ==>
                       Walk(ts, root, PageOf(x)) == Small(Entry(true, writable, false, false, nx, f + (x - v)))
      ensures ok ==> Left() >= old(Left()) - TablesFor(v, n)
      ensures ok ==> forall s :: Avoids(s, v, n) && old(SlotFree(nd.Keys, s)) ==> SlotFree(nd.Keys, s)
      ensures !ok ==> Left() == 0 && old(Left()) < TablesFor(v, n)
    {
      hide Shaped, Walk, PageOf, Target, Protected, Memory.Valid, Memory.Left, Drew, TablesOwned, Lacks, PathOf, TablesFor,
        SlotFree, Avoids;
      DrewOne(memory.history, 0, TablePage, map[]);
      TablesForGrows(v, 0, n);
      var k := 0;
      while k < n
        invariant 0 <= k <= n && Valid() && Left() >= old(Left()) - TablesFor(v, k)
        invariant Drew(old(memory.history), memory.history, TablePage)
        invariant RangeMapped(old(ts), ts, root, v, f, k, Rights(writable, false, !nx))
        invariant forall x :: v <= x < v + k ==>
                    Walk(ts, root, PageOf(x)) == Small(Entry(true, writable, false, false, nx, f + (x - v)))
        invariant old(Protected(ts, nd)) && (writable ==> nx) ==> Protected(ts, nd)
        invariant forall s :: Avoids(s, v, n) && old(SlotFree(nd.Keys, s)) ==> SlotFree(nd.Keys, s)
      {
        ghost var was, made, h := ts, nd.Keys, memory.history;
        assert Walk(ts, root, PageOf(v + k)) == old(Walk(ts, root, PageOf(v + k)));
        RangeLacks(old(ts), ts, nd, root, v, f, k, Rights(writable, false, !nx));
        TablesForGrows(v, k + 1, n);
        ok := Map4k(PageOf(v + k), f + k, writable, nx);
        DrewTwice(old(memory.history), h, memory.history, TablePage);
        if !ok {
          return;
        }
        SlotsKept(made, nd.Keys, v, n, v + k);
        forall x | v <= x < v + k ensures PageOf(x) != PageOf(v + k) { SameRegion(x, v + k); }
        ExtendSmall(old(ts), was, ts, root, v, f, k, Entry(true, writable, false, false, nx, f + k));
        k := k + 1;
      }
      ok := true;
    }

    /**
     `map_range_huge_first`: 4 KiB leaves up to the first address where both sides are 2 MiB aligned,
     then 2 MiB leaves while they fit, then 4 KiB leaves. It panics only with the pool empty.
     */
    method MapRangeHugeFirst(v: int, f: nat, n: nat) returns (ok: bool)
      requires Valid() && !memory.handedOver && 0 <= v && v + n <= PAGES
      requires forall x :: v <= x < v + n ==> !Walk(ts, root, PageOf(x)).Huge?
      modifies `ts, `nd, memory`owner, memory`history, memory.early`cursor
      ensures Valid() && Drew(old(memory.history), memory.history, TablePage)
      ensures old(Protected(ts, nd)) ==> Protected(ts, nd)
      ensures ok ==> RangeMapped(old(ts), ts, root, v, f, n, DATA)
      ensures ok ==> Left() >= old(Left()) - TablesFor(v, n)
      ensures ok ==> forall s :: Avoids(s, v, n) && old(SlotFree(nd.Keys, s)) ==> SlotFree(nd.Keys, s)
      ensures !ok ==> Left() == 0 && old(Left()) < TablesFor(v, n)
    {
      hide Shaped, Walk, PageOf, Target, Protected, Memory.Valid, Memory.Left, Drew, TablesOwned, Lacks, PathOf, TablesFor,
        SlotFree, Avoids;
      DrewOne(memory.history, 0, TablePage, map[]);
      TablesForGrows(v, 0, n);
      var pa, va, end := f, v, f + n;
      while pa < end && (pa % 512 != 0 || va % 512 != 0)
        invariant f <= pa <= end && va - v == pa - f && Valid() && Left() >= old(Left()) - TablesFor(v, pa - f)
        invariant Drew(old(memory.history), memory.history, TablePage)
        invariant RangeMapped(old(ts), ts, root, v, f, pa - f, DATA)
        invariant old(Protected(ts, nd)) ==> Protected(ts, nd)
        invariant forall s :: Avoids(s, v, n) && old(SlotFree(nd.Keys, s)) ==> SlotFree(nd.Keys, s)
      {
        ghost var h := memory.history;
        ok := MapOne(old(ts), v, f, n, pa, va);
        DrewTwice(old(memory.history), h, memory.history, TablePage);
        if !ok {
          return;
        }
        pa, va := pa + 1, va + 1;
      }
      while pa + 512 <= end
        invariant f <= pa <= end && va - v == pa - f && Valid() && Left() >= old(Left()) - TablesFor(v, pa - f)
        invariant Drew(old(memory.history), memory.history, TablePage)
        invariant RangeMapped(old(ts), ts, root, v, f, pa - f, DATA)
        invariant old(Protected(ts, nd)) ==> Protected(ts, nd)
        invariant pa < end ==> pa % 512 == 0 && va % 512 == 0
        invariant forall s :: Avoids(s, v, n) && old(SlotFree(nd.Keys, s)) ==> SlotFree(nd.Keys, s)
      {
        ghost var h := memory.history;
        ok := MapLarge(old(ts), v, f, n, pa, va);
        DrewTwice(old(memory.history), h, memory.history, TablePage);
        if !ok {
          return;
        }
        StillAligned(pa);
        StillAligned(va);
        pa, va := pa + 512, va + 512;
      }
      while pa < end
        invariant f <= pa <= end && va - v == pa - f && Valid() && Left() >= old(Left()) - TablesFor(v, pa - f)
        invariant Drew(old(memory.history), memory.history, TablePage)
        invariant RangeMapped(old(ts), ts, root, v, f, pa - f, DATA)
        invariant old(Protected(ts, nd)) ==> Protected(ts, nd)
        invariant forall s :: Avoids(s, v, n) && old(SlotFree(nd.Keys, s)) ==> SlotFree(nd.Keys, s)
      {
        ghost var h := memory.history;
        ok := MapOne(old(ts), v, f, n, pa, va);
        DrewTwice(old(memory.history), h, memory.history, TablePage);
        if !ok {
          return;
        }
        pa, va := pa + 1, va + 1;
      }
      ok := true;
    }

    /** The body of the two 4 KiB loops. */
    method MapOne(ghost before: Tables, ghost v: int, ghost f: nat, ghost n: nat, pa: nat, va: int) returns (ok: bool)
      requires Valid() && !memory.handedOver && 0 <= v && f <= pa < f + n && va - v == pa - f && v + n <= PAGES
      requires RangeMapped(before, ts, root, v, f, pa - f, DATA) && !Walk(before, root, PageOf(va)).Huge?
      modifies `ts, `nd, memory`owner, memory`history, memory.early`cursor
      ensures Valid() && Drew(old(memory.history), memory.history, TablePage)
      ensures old(Protected(ts, nd)) ==> Protected(ts, nd)
      ensures ok ==> RangeMapped(before, ts, root, v, f, pa - f + 1, DATA)
      ensures ok ==> Left() >= old(Left()) - TablesFor(v, pa - f + 1) + TablesFor(v, pa - f)
      ensures ok ==> forall s :: Avoids(s, v, n) && old(SlotFree(nd.Keys, s)) ==> SlotFree(nd.Keys, s)
      ensures !ok ==> Left() == 0 && old(Left()) < TablesFor(v, n) - TablesFor(v, pa - f)
    {
      hide Shaped, Walk, PageOf, Target, Protected, Memory.Valid, Memory.Left, Drew, TablesOwned, Lacks, PathOf, TablesFor,
        SlotFree, Avoids;
      ghost var was, made := ts, nd.Keys;
      assert Walk(ts, root, PageOf(va)) == Walk(before, root, PageOf(va));
      RangeLacks(before, ts, nd, root, v, f, pa - f, DATA);
      TablesForGrows(v, pa - f + 1, n);
      ok := Map4k(PageOf(va), pa, true, true);
      if ok {
        SlotsKept(made, nd.Keys, v, n, va);
        ExtendSmall(before, was, ts, root, v, f, pa - f, Entry(true, true, false, false, true, pa));
      }
    }

    /** The body of the 2 MiB loop. */
    method MapLarge(ghost before: Tables, ghost v: int, ghost f: nat, ghost n: nat, pa: nat, va: int) returns (ok: bool)
      requires Valid() && !memory.handedOver && 0 <= v && f <= pa && pa + 512 <= f + n && va - v == pa - f && v + n <= PAGES
      requires RangeMapped(before, ts, root, v, f, pa - f, DATA) && !Walk(before, root, PageOf(va)).Huge?
      requires pa % 512 == 0 && va % 512 == 0
      modifies `ts, `nd, memory`owner, memory`history, memory.early`cursor
      ensures Valid() && Drew(old(memory.history), memory.history, TablePage)
      ensures old(Protected(ts, nd)) ==> Protected(ts, nd)
      ensures ok ==> RangeMapped(before, ts, root, v, f, pa - f + 512, DATA)
      ensures ok ==> Left() >= old(Left()) - TablesFor(v, pa - f + 512) + TablesFor(v, pa - f)
      ensures ok ==> forall s :: Avoids(s, v, n) && old(SlotFree(nd.Keys, s)) ==> SlotFree(nd.Keys, s)
      ensures !ok ==> Left() == 0 && old(Left()) < TablesFor(v, n) - TablesFor(v, pa - f)
    {
      hide Shaped, Walk, PageOf, Target, Protected, Memory.Valid, Memory.Left, Drew, TablesOwned, Lacks, PathOf, TablesFor,
        SlotFree, Avoids;
      ghost var was, made := ts, nd.Keys;
      assert Walk(ts, root, PageOf(va)) == Walk(before, root, PageOf(va));
      RangeLacks(before, ts, nd, root, v, f, pa - f, DATA);
      FewerAbove(ts, nd, root, PageOf(va));
      TablesForGrows(v, pa - f + 1, pa - f + 512);
      TablesForGrows(v, pa - f + 512, n);
      ok := Map2m(PageOf(va), pa, true);
      if ok {
        SlotsKept(made, nd.Keys, v, n, va);
        ExtendLarge(before, was, ts, root, v, f, pa - f, Entry(true, true, false, true, true, pa));
      }
    }

    // ---------- the generic layer ----------

    /**
     `GetOrAllocEntry`, which takes any present entry for a table. `None` stands for the supplier's panic
     and for the NULL that a supplied frame 0 leads to; nothing is mapped differently then.
     */
    method GetOrAllocEntry(t: int, i: int, user: bool, ghost q: seq<int>) returns (r: Option<nat>)
      requires Valid() && q in nd && nd[q] == t && |q| < 3 && 0 <= i < 512
      requires IsTable(ts, t) && !(ts[t][i].present && ts[t][i].huge)
      modifies `ts, `nd, memory`owner, memory`history, memory.early`cursor
      modifies memory.frames`freeCount, memory.frames`hint, memory.frames.alloc
      ensures Valid() && SameMeaning(old(ts), old(nd), ts, nd)
      ensures old(Protected(ts, nd)) ==> Protected(ts, nd)
      ensures r.None? <==> q + [i] !in old(nd) && (old(Left()) == 0 || old(memory.ZeroNext()))
      ensures r.None? ==> unchanged(`ts) && unchanged(`nd)
      ensures r.Some? ==> q + [i] in nd && nd == old(nd)[q + [i] := r.value]
                          && Left() == old(Left()) - (if q + [i] in old(nd) then 0 else 1)
      ensures r.Some? && q + [i] !in old(nd) ==> IsTable(ts, t) && ts[t][i] == Entry(true, true, user, false, false, r.value)
      ensures q + [i] in old(nd) ==> (memory.ZeroNext() <==> old(memory.ZeroNext()))
      ensures (memory.ZeroNext() ==> old(memory.ZeroNext())) && Drew(old(memory.history), memory.history, TablePage)
      ensures memory.handedOver ==> memory.early.cursor == old(memory.early.cursor)
    {
      hide Shaped, Meaning, Protected, Memory.Valid, Memory.Left, Memory.ZeroNext, Drew, SameMeaning;
      DrewOne(memory.history, 0, TablePage, map[]);
      SameMeaningSelf(ts, nd);
      var e := ts[t][i];
      if e.present {
        EntryLeads(ts, nd, root, q, i);
        return Some(e.frame);
      }
      NoTableYet(ts, nd, root, q, i);
      var p := memory.Supply(TablePage);
      if p.None? {
        return None;
      }
      var f := p.value / PAGE_SIZE;
      DrewOne(old(memory.history), f, TablePage, memory.owner);
      if p.value == 0 {
        return None;
      }
      HangTable(t, i, f, user, q);
      r := Some(f);
    }

    /** The three descents of `PagingMapMemory`, which never look at the large-page bit. */
    method DescendGeneric(p: Page) returns (r: Option<nat>)
      requires Valid() && !Meaning(ts, nd, p).Huge?
      modifies `ts, `nd, memory`owner, memory`history, memory.early`cursor
      modifies memory.frames`freeCount, memory.frames`hint, memory.frames.alloc
      ensures Valid() && SameMeaning(old(ts), old(nd), ts, nd)
      ensures old(Protected(ts, nd)) ==> Protected(ts, nd)
      ensures r.Some? <==> Lacks(old(nd).Keys, p) <= old(Left()) && (Lacks(old(nd).Keys, p) > 0 ==> !old(memory.ZeroNext()))
      ensures r.Some? ==> nd.Keys == old(nd).Keys + PathOf(p)
      ensures r.Some? ==> p[..3] in nd && nd[p[..3]] == r.value && Left() == old(Left()) - Lacks(old(nd).Keys, p)
      ensures (memory.ZeroNext() ==> old(memory.ZeroNext())) && Drew(old(memory.history), memory.history, TablePage)
      ensures memory.handedOver ==> memory.early.cursor == old(memory.early.cursor)
    {
      hide Shaped, Meaning, Protected, Memory.Valid, Memory.Left, Memory.ZeroNext, Drew, TablesOwned;
      Slices(p);
      RootNode(ts, nd, root);
      PrefixesPresent(ts, nd, root, p);
      assert p[..1] != p[..2] && p[..1] != p[..3] && p[..2] != p[..3] by { assert |p[..1]| < |p[..2]| < |p[..3]|; }
      NoHugeAbove(ts, nd, root, []);
      r := GetOrAllocEntry(root, p[0], true, []);
      if r.None? { return; }
      NoHugeAbove(ts, nd, root, p[..1]);
      ghost var h := memory.history;
      r := GetOrAllocEntry(r.value, p[1], true, p[..1]);
      DrewTwice(old(memory.history), h, memory.history, TablePage);
      if r.None? { return; }
      NotHugeHere(ts, nd, root, p);
      h := memory.history;
      r := GetOrAllocEntry(r.value, p[2], true, p[..2]);
      DrewTwice(old(memory.history), h, memory.history, TablePage);
    }

    /**
     `PagingMapMemory`. It never looks at the large-page bit, so it needs a path without large leaves.
     `ok` is false exactly when the tables still to be made cannot be had: the supplier panics, or hands
     out frame 0, which is taken for failure and then followed as a null table.
     */
    method PagingMapMemory(p: Page, frame: nat, flags: Flags) returns (ok: bool)
      requires Valid() && !Walk(ts, root, p).Huge?
      modifies `ts, `nd, memory`owner, memory`history, memory.early`cursor
      modifies memory.frames`freeCount, memory.frames`hint, memory.frames.alloc
      ensures Valid() && Drew(old(memory.history), memory.history, TablePage)
      ensures memory.handedOver ==> memory.early.cursor == old(memory.early.cursor)
      ensures ok <==> Lacks(old(nd).Keys, p) <= old(Left()) && (Lacks(old(nd).Keys, p) > 0 ==> !old(memory.ZeroNext()))
      ensures ok ==> nd.Keys == old(nd).Keys + PathOf(p)
      ensures ok ==> Left() == old(Left()) - Lacks(old(nd).Keys, p) && (memory.ZeroNext() ==> old(memory.ZeroNext()))
      ensures forall x: Page :: Walk(ts, root, x) ==
                if ok && x == p then Small(LeafWith(frame, flags)) else old(Walk(ts, root, x))
      ensures old(Protected(ts, nd)) && (flags.writable ==> flags.nx) ==> Protected(ts, nd)
    {
      hide Shaped, Meaning, Protected, Walk, Memory.Valid, Memory.Left, Memory.ZeroNext, Drew, Lacks, PathOf;
      WalkAll(ts, nd, root);
      var pt := DescendGeneric(p);
      WalkAll(ts, nd, root);
      if pt.None? { return false; }
      TableOnPath(ts, nd, root, p);
      var e := LeafWith(frame, flags);
      SetLeafShaped(ts, nd, root, p[..3], p[3], e);
      SetLeafAll(ts, nd, root, p, e);
      if Protected(ts, nd) && (flags.writable ==> flags.nx) { SetEntryProtected(ts, nd, nd, root, p[..3], p[3], e); }
      ts := SetEntry(ts, pt.value, p[3], e);
      WalkAll(ts, nd, root);
      ok := true;
    }

    /** `GetOrNullifyEntry`: the table behind a present entry. */
    method GetOrNullifyEntry(t: int, i: int, ghost q: seq<int>) returns (r: Option<nat>)
      requires Valid() && q in nd && nd[q] == t && |q| < 3 && 0 <= i < 512
      requires IsTable(ts, t) && !(ts[t][i].present && ts[t][i].huge)
      ensures r == if q + [i] in nd then Some(nd[q + [i]]) else None
    {
      hide NodesOk, EntriesOk, Injective;
      EntryLeads(ts, nd, root, q, i);
      if !ts[t][i].present { NoTableYet(ts, nd, root, q, i); }
      r := if ts[t][i].present then Some(ts[t][i].frame) else None;
    }

    /** The last-level table for page `p`, if the path reaches one. */
    method FindTable(p: Page) returns (r: Option<nat>)
      requires Valid() && !Walk(ts, root, p).Huge?
      ensures r == if p[..3] in nd then Some(nd[p[..3]]) else None
    {
      hide Shaped, Meaning, Walk;
      WalkAll(ts, nd, root);
      Slices(p);
      RootNode(ts, nd, root);
      NoHugeAbove(ts, nd, root, []);
      PrefixesPresent(ts, nd, root, p);
      r := GetOrNullifyEntry(root, p[0], []);
      if r.None? { return; }
      NoHugeAbove(ts, nd, root, p[..1]);
      r := GetOrNullifyEntry(r.value, p[1], p[..1]);
      if r.None? { return; }
      NotHugeHere(ts, nd, root, p);
      r := GetOrNullifyEntry(r.value, p[2], p[..2]);
    }

    /** `PagingPhysicalMemory`: the frame of a mapped page, 0 (NULL) of any other. */
    method PagingPhysicalMemory(p: Page) returns (frame: nat)
      requires Valid() && !Walk(ts, root, p).Huge?
      ensures frame == if Walk(ts, root, p).Small? then Walk(ts, root, p).e.frame else 0
    {
      hide Shaped, Walk;
      WalkAll(ts, nd, root);
      var pt := FindTable(p);
      LastLevel(ts, nd, root, p);
      frame := if pt.None? then 0 else ts[pt.value][p[3]].frame;
    }

    /** `PagingUnmapMemory`: clear one leaf; tables and the frame stay. */
    method PagingUnmapMemory(p: Page)
      requires Valid() && !Walk(ts, root, p).Huge?
      modifies `ts
      ensures Valid()
      ensures forall x: Page :: Walk(ts, root, x) == if x == p then Missing else old(Walk(ts, root, x))
    {
      hide Shaped, Walk;
      WalkAll(ts, nd, root);
      var pt := FindTable(p);
      LastLevel(ts, nd, root, p);
      if pt.None? {
        return;
      }
      SetLeafShaped(ts, nd, root, p[..3], p[3], EMPTY);
      SetLeafAll(ts, nd, root, p, EMPTY);
      ts := SetEntry(ts, pt.value, p[3], EMPTY);
      WalkAll(ts, nd, root);
    }
  }
}
