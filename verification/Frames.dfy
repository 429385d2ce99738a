/**
 The physical frame manager: two bitmaps, a counter and a search hint that together stand for one set
 of free frames.
 */
module Frames {
  import opened Options
  import opened Words
  import opened Bitmap
  import MM = MemoryMap

  /** Bytes [base, end) of physical memory. */
  datatype Range = Range(base: nat, end: nat)

  /** Frame `i` lies wholly inside the entry. */
  predicate WhollyIn(e: MM.Entry, i: int) {
    e.base <= i * PAGE_SIZE && (i + 1) * PAGE_SIZE <= e.base + e.length
  }

  /** Frame `i` shares a byte with the range. */
  predicate Touched(r: Range, i: int) {
    r.base < r.end && r.base < (i + 1) * PAGE_SIZE && i * PAGE_SIZE < r.end
  }

  ghost predicate InUsable(entries: seq<MM.Entry>, n: int, i: int)
    requires 0 <= n <= |entries|
  {
    exists k :: 0 <= k < n && entries[k].kind == MM.Usable && WhollyIn(entries[k], i)
  }

  ghost predicate InReserved(reserved: seq<Range>, n: int, i: int)
    requires 0 <= n <= |reserved|
  {
    exists k :: 0 <= k < n && Touched(reserved[k], i)
  }

  /** The frames that must be free after initialisation: said without any order. */
  ghost predicate ShouldBeFree(entries: seq<MM.Entry>, reserved: seq<Range>, i: int) {
    InUsable(entries, |entries|, i) && !InReserved(reserved, |reserved|, i)
  }

  /** The highest end of the first `n` entries. */
  function TopOf(entries: seq<MM.Entry>, n: nat): (top: nat)
    requires n <= |entries|
    ensures forall k :: 0 <= k < n ==> entries[k].base + entries[k].length <= top
    ensures top > 0 ==> exists k :: 0 <= k < n && entries[k].base + entries[k].length == top
  {
    if n == 0 then 0
    else
      var end, before := entries[n - 1].base + entries[n - 1].length, TopOf(entries, n - 1);
      if end > before then end else before
  }

  function RoundUpDiv(x: nat): nat { (x + PAGE_SIZE - 1) / PAGE_SIZE }

  lemma UsableIndices(e: MM.Entry, i: int)
    ensures RoundUpDiv(e.base) <= i < (e.base + e.length) / PAGE_SIZE <==> WhollyIn(e, i)
  {
    var lo, hi := RoundUpDiv(e.base), (e.base + e.length) / PAGE_SIZE;
    assert lo * PAGE_SIZE - PAGE_SIZE < e.base <= lo * PAGE_SIZE;
    assert hi * PAGE_SIZE <= e.base + e.length < hi * PAGE_SIZE + PAGE_SIZE;
  }

  lemma TouchedIndices(r: Range, i: int)
    requires r.base < r.end
    ensures r.base / PAGE_SIZE <= i < RoundUpDiv(r.end) <==> Touched(r, i)
  {
    var lo, hi := r.base / PAGE_SIZE, RoundUpDiv(r.end);
    assert lo * PAGE_SIZE <= r.base < lo * PAGE_SIZE + PAGE_SIZE;
    assert hi * PAGE_SIZE - PAGE_SIZE < r.end <= hi * PAGE_SIZE;
  }

  class FrameManager {
    var alloc: array<bv8>
    var usable: array<bv8>
    var frameCount: int
    var maxPhys: int
    var freeCount: int
    var hint: int

    constructor ()
      ensures fresh(alloc) && fresh(usable)
    {
      alloc, usable := new bv8[0], new bv8[0];
      frameCount, maxPhys, freeCount, hint := 0, 0, 0, 0;
    }

    ghost predicate Shaped()
      reads this, alloc, usable
    {
      alloc != usable && Holds(alloc[..], frameCount) && Holds(usable[..], frameCount)
    }

    /** The free frames. */
    ghost function Free(): set<int>
      reads this, alloc, usable
      requires Shaped()
    {
      ClearBits(alloc[..], frameCount)
    }

    ghost function Usable(): set<int>
      reads this, alloc, usable
      requires Shaped()
    {
      SetBits(usable[..], frameCount)
    }

    /** Counter and bitmaps agree, and only usable frames are free. */
    ghost predicate Counted()
      reads this, alloc, usable
    {
      Shaped() && freeCount == |Free()| && Free() <= Usable()
    }

    ghost predicate Valid()
      reads this, alloc, usable
    {
      && Counted()
      && 0 <= hint <= frameCount && (forall i :: i in Free() ==> hint <= i)
      && maxPhys <= frameCount * PAGE_SIZE < maxPhys + PAGE_SIZE
    }

    /** A free frame is usable and lies below the end of memory. */
    lemma FreeFacts(i: int)
      requires Valid() && i in Free()
      ensures i in Usable() && 0 <= i && i * PAGE_SIZE < maxPhys
    {
    }

    method BmSet(bm: array<bv8>, i: int)
      requires Shaped() && (bm == alloc || bm == usable) && 0 <= i < frameCount
      modifies bm
      ensures Shaped()
      ensures ClearBits(bm[..], frameCount) == old(ClearBits(bm[..], frameCount)) - {i}
      ensures SetBits(bm[..], frameCount) == old(SetBits(bm[..], frameCount)) + {i}
    {
      AfterSet(bm[..], frameCount, i);
      bm[i / 8] := SetBit(bm[i / 8], i % 8);
      assert bm[..] == old(bm[..])[i / 8 := SetBit(old(bm[..])[i / 8], i % 8)];
    }

    method BmClear(bm: array<bv8>, i: int)
      requires Shaped() && (bm == alloc || bm == usable) && 0 <= i < frameCount
      modifies bm
      ensures Shaped()
      ensures ClearBits(bm[..], frameCount) == old(ClearBits(bm[..], frameCount)) + {i}
      ensures SetBits(bm[..], frameCount) == old(SetBits(bm[..], frameCount)) - {i}
    {
      AfterClear(bm[..], frameCount, i);
      bm[i / 8] := ClearBit(bm[i / 8], i % 8);
      assert bm[..] == old(bm[..])[i / 8 := ClearBit(old(bm[..])[i / 8], i % 8)];
    }

    method BmTest(bm: array<bv8>, i: int) returns (b: bool)
      requires Shaped() && (bm == alloc || bm == usable) && 0 <= i < frameCount
      ensures b <==> i in SetBits(bm[..], frameCount)
      ensures !b <==> i in ClearBits(bm[..], frameCount)
    {
      InBounds(bm[..], frameCount, i);
      b := BitAt(bm[i / 8], i % 8);
    }

    /** Reserve frame `i` if it is free. The guard on the counter never stops a decrement. */
    method TakeOne(i: int)
      requires Counted() && 0 <= i < frameCount
      modifies alloc, `freeCount
      ensures Counted() && Usable() == old(Usable()) && Free() == old(Free()) - {i}
    {
      hide Test;
      var taken := BmTest(alloc, i);
      if !taken {
        BmSet(alloc, i);
        if freeCount > 0 {
          freeCount := freeCount - 1;
        } else {
          assert false;
        }
      }
    }

    /** Make frame `i` usable and free. */
    method FreeOne(i: int)
      requires Counted() && 0 <= i < frameCount
      modifies alloc, usable, `freeCount
      ensures Counted() && Free() == old(Free()) + {i} && Usable() == old(Usable()) + {i}
    {
      hide Test;
      var known := BmTest(usable, i);
      if !known {
        BmSet(usable, i);
      }
      var taken := BmTest(alloc, i);
      if taken {
        BmClear(alloc, i);
        freeCount := freeCount + 1;
      }
    }

    /** `mark_range_allocated`: every frame the range touches stops being free. */
    method MarkRangeAllocated(r: Range)
      requires Counted()
      modifies alloc, `freeCount
      ensures Counted() && Usable() == old(Usable())
      ensures forall i :: i in Free() <==> i in old(Free()) && !Touched(r, i)
    {
      hide Test, RoundUpDiv;
      if r.end <= r.base {
        return;
      }
      var i0 := r.base / PAGE_SIZE;
      var i1 := RoundUpDiv(r.end);
      if i1 > frameCount {
        i1 := frameCount;
      }
      var i := i0;
      while i < i1
        invariant i0 <= i && Counted() && Usable() == old(Usable())
        invariant forall j :: j in Free() <==> j in old(Free()) && !(i0 <= j < i)
        invariant i <= i1 || i == i0
      {
        TakeOne(i);
        i := i + 1;
      }
      forall j ensures j in Free() <==> j in old(Free()) && !Touched(r, j) { TouchedIndices(r, j); }
    }

    /** `mark_range_usable_and_free`: every frame wholly inside the entry becomes usable and free. */
    method MarkRangeUsableAndFree(e: MM.Entry)
      requires Counted() && e.base + e.length <= frameCount * PAGE_SIZE
      modifies alloc, usable, `freeCount
      ensures Counted()
      ensures forall i :: i in Free() <==> i in old(Free()) || WhollyIn(e, i)
      ensures forall i :: i in Usable() <==> i in old(Usable()) || WhollyIn(e, i)
    {
      hide Test, WhollyIn;
      var i0 := RoundUpDiv(e.base);
      var i1 := (e.base + e.length) / PAGE_SIZE;
      assert e.length == 0 ==> i1 <= i0;
      forall j ensures i0 <= j < i1 <==> WhollyIn(e, j) { UsableIndices(e, j); }
      if e.length == 0 || i1 <= i0 {
        return;
      }
      assert i1 <= frameCount;
      if i1 > frameCount {
        i1 := frameCount;
      }
      var i := i0;
      while i < i1
        invariant i0 <= i <= i1 && Counted()
        invariant forall j :: j in Free() <==> j in old(Free()) || i0 <= j < i
        invariant forall j :: j in Usable() <==> j in old(Usable()) || i0 <= j < i
      {
        FreeOne(i);
        i := i + 1;
      }
    }

    /** `compute_max_phys_and_count`: false when there is no memory to manage (the source panics). */
    method ComputeTopology(entries: seq<MM.Entry>) returns (ok: bool)
      modifies `maxPhys, `frameCount
      ensures ok <==> exists k :: 0 <= k < |entries| && entries[k].base + entries[k].length > 0
      ensures ok ==> maxPhys == TopOf(entries, |entries|) && frameCount == RoundUpDiv(maxPhys)
      ensures ok ==> frameCount > 0 && maxPhys <= frameCount * PAGE_SIZE < maxPhys + PAGE_SIZE
    {
      if entries == [] {
        return false;
      }
      maxPhys := 0;
      for n := 0 to |entries|
        invariant maxPhys == TopOf(entries, n)
      {
        var end := entries[n].base + entries[n].length;
        if end > maxPhys {
          maxPhys := end;
        }
      }
      frameCount := RoundUpDiv(maxPhys);
      ok := frameCount > 0;
    }

    /**
     `frame_init`: whatever order the entries and reservations come in, the usable frames are exactly
     those wholly inside some usable entry, and the free ones those of them touched by no reservation.
     */
    method FrameInit(entries: seq<MM.Entry>, reserved: seq<Range>) returns (ok: bool)
      modifies this
      ensures ok ==> fresh(alloc) && fresh(usable) && Valid()
      ensures ok ==> forall i :: i in Free() <==> ShouldBeFree(entries, reserved, i)
      ensures ok ==> forall i :: i in Usable() <==> InUsable(entries, |entries|, i)
      ensures ok ==> frameCount == RoundUpDiv(TopOf(entries, |entries|))
      ensures ok <==> exists k :: 0 <= k < |entries| && entries[k].base + entries[k].length > 0
    {
      hide Test, WhollyIn, Touched;
      ok := ComputeTopology(entries);
      if !ok {
        return;
      }
      ReserveAll();
      FreeUsable(entries);
      ReserveRanges(entries, reserved);
      hint := 0;
    }

    /** Fresh bitmaps: everything reserved, nothing usable. */
    method ReserveAll()
      requires frameCount > 0
      modifies `alloc, `usable, `freeCount
      ensures fresh(alloc) && fresh(usable) && Counted() && Free() == {} && Usable() == {}
    {
      var bytes := (frameCount + 7) / 8;
      alloc := new bv8[bytes](i => 0xFF);
      usable := new bv8[bytes](i => 0);
      freeCount := 0;
      AllTaken(alloc[..], frameCount);
      NoneSet(usable[..], frameCount);
    }

    /** Step 3 of `frame_init`: free the frames of every usable entry. */
    method FreeUsable(entries: seq<MM.Entry>)
      requires Counted() && Free() == {} && Usable() == {}
      requires forall k :: 0 <= k < |entries| ==> entries[k].base + entries[k].length <= frameCount * PAGE_SIZE
      modifies alloc, usable, `freeCount
      ensures Counted() && Usable() == Free() && forall i :: i in Free() <==> InUsable(entries, |entries|, i)
    {
      hide Test, WhollyIn;
      for n := 0 to |entries|
        invariant Counted() && Usable() == Free() && forall i :: i in Free() <==> InUsable(entries, n, i)
      {
        if entries[n].kind == MM.Usable {
          MarkRangeUsableAndFree(entries[n]);
        }
      }
    }

    /** Steps 4 to 6 of `frame_init`: kernel, modules and early allocations. */
    method ReserveRanges(ghost entries: seq<MM.Entry>, reserved: seq<Range>)
      requires Counted() && forall i :: i in Free() <==> InUsable(entries, |entries|, i)
      modifies alloc, `freeCount
      ensures Counted() && Usable() == old(Usable()) && forall i :: i in Free() <==> ShouldBeFree(entries, reserved, i)
    {
      hide Test, Touched, InUsable;
      for n := 0 to |reserved|
        invariant Counted() && Usable() == old(Usable())
        invariant forall i :: i in Free() <==> InUsable(entries, |entries|, i) && !InReserved(reserved, n, i)
      {
        MarkRangeAllocated(reserved[n]);
      }
    }

    lemma AllTaken(bm: seq<bv8>, n: int)
      requires Holds(bm, n) && forall k :: 0 <= k < |bm| ==> bm[k] == 0xFF
      ensures ClearBits(bm, n) == {}
    {
      forall i | 0 <= i < n ensures Test(bm, i) {
        Masks(0xFF, i % 8);
      }
    }

    lemma NoneSet(bm: seq<bv8>, n: int)
      requires Holds(bm, n) && forall k :: 0 <= k < |bm| ==> bm[k] == 0
      ensures SetBits(bm, n) == {}
    {
      forall i | 0 <= i < n ensures !Test(bm, i) {
        Masks(0, i % 8);
      }
    }

    /** `frame_alloc`: the lowest free frame; `None` is the out-of-memory panic. */
    method FrameAlloc() returns (r: Option<nat>)
      requires Valid()
      modifies alloc, `freeCount, `hint
      ensures Valid() && Usable() == old(Usable())
      ensures r.None? <==> old(Free()) == {}
      ensures r.None? ==> Free() == old(Free())
      ensures r.Some? ==> r.value % PAGE_SIZE == 0 && r.value / PAGE_SIZE in old(Free())
                          && Free() == old(Free()) - {r.value / PAGE_SIZE}
                          && forall j :: j in old(Free()) ==> r.value / PAGE_SIZE <= j
    {
      hide Test;
      if freeCount == 0 {
        assert Free() == {};
        return None;
      }
      var i := FirstFree(hint);
      BmSet(alloc, i);
      freeCount := freeCount - 1;
      hint := i + 1;
      Remainder(i * PAGE_SIZE, PAGE_SIZE, i, 0);
      r := Some(i * PAGE_SIZE);
    }

    /**
     The search of `frame_alloc`, which starts at the hint. With a free frame at all the first pass
     finds one; the second pass and the "bitmap corruption" panic are dead.
     */
    method FirstFree(start: int) returns (i: int)
      requires Counted() && 0 <= start <= frameCount && Free() != {} && forall j :: j in Free() ==> start <= j
      ensures i in Free() && start <= i && forall j :: j in Free() ==> i <= j
    {
      hide Test;
      ghost var some :| some in Free();
      i := start;
      while i < frameCount
        invariant start <= i <= some < frameCount && forall j :: j in Free() ==> i <= j
      {
        var u := BmTest(usable, i);
        var a := BmTest(alloc, i);
        if u && !a {
          return;
        }
        i := i + 1;
      }
      assert false;
    }

    /** `n_frame_free`: false stands for its four panics. */
    method FrameFree(paddr: nat) returns (ok: bool)
      requires Valid()
      modifies alloc, `freeCount, `hint
      ensures Valid() && Usable() == old(Usable())
      ensures ok <==> paddr % PAGE_SIZE == 0 && paddr < maxPhys
                      && paddr / PAGE_SIZE in old(Usable()) && paddr / PAGE_SIZE !in old(Free())
      ensures Free() == if ok then old(Free()) + {paddr / PAGE_SIZE} else old(Free())
    {
      hide Test;
      if paddr % PAGE_SIZE != 0 || paddr >= maxPhys {
        return false;
      }
      var i := paddr / PAGE_SIZE;
      assert i < frameCount;
      var u := BmTest(usable, i);
      if !u {
        return false;
      }
      var a := BmTest(alloc, i);
      if !a {
        return false;
      }
      BmClear(alloc, i);
      freeCount := freeCount + 1;
      if i < hint {
        hint := i;
      }
      ok := true;
    }
  }

  /** The result depends on which entries and reservations there are, not on their order or repetition. */
  lemma OrderIndependent(entries: seq<MM.Entry>, entries': seq<MM.Entry>, reserved: seq<Range>, reserved': seq<Range>, i: int)
    requires forall e :: e in entries <==> e in entries'
    requires forall r :: r in reserved <==> r in reserved'
    ensures ShouldBeFree(entries, reserved, i) <==> ShouldBeFree(entries', reserved', i)
  {
    SameUsable(entries, entries', i);
    SameUsable(entries', entries, i);
    SameReserved(reserved, reserved', i);
    SameReserved(reserved', reserved, i);
  }

  lemma SameUsable(entries: seq<MM.Entry>, entries': seq<MM.Entry>, i: int)
    requires forall e :: e in entries ==> e in entries'
    ensures InUsable(entries, |entries|, i) ==> InUsable(entries', |entries'|, i)
  {
    if k :| 0 <= k < |entries| && entries[k].kind == MM.Usable && WhollyIn(entries[k], i) {
      assert entries[k] in entries';
    }
  }

  lemma SameReserved(reserved: seq<Range>, reserved': seq<Range>, i: int)
    requires forall r :: r in reserved ==> r in reserved'
    ensures InReserved(reserved, |reserved|, i) ==> InReserved(reserved', |reserved'|, i)
  {
    if k :| 0 <= k < |reserved| && Touched(reserved[k], i) {
      assert reserved[k] in reserved';
    }
  }
}
