/** The bump allocator that serves pages before the frame manager exists. */
module EarlyAlloc {
  import opened Options
  import opened Words
  import MM = MemoryMap

  const FOUR_GIB: int := 0x1_0000_0000

  /** The whole pages inside a usable entry. */
  function Start(e: MM.Entry): nat { (e.base + PAGE_SIZE - 1) / PAGE_SIZE * PAGE_SIZE }

  function End(e: MM.Entry): nat { (e.base + e.length) / PAGE_SIZE * PAGE_SIZE }

  predicate Candidate(e: MM.Entry) { e.kind == MM.Usable && Start(e) < End(e) }

  predicate Low(e: MM.Entry) { End(e) <= FOUR_GIB }

  /** `e` is at least as large as every candidate (among the low ones, if `low`) of the first `n`. */
  ghost predicate Largest(entries: seq<MM.Entry>, n: int, low: bool, base: int, end: int)
    requires 0 <= n <= |entries|
  {
    && (exists k :: 0 <= k < n && Candidate(entries[k]) && (low ==> Low(entries[k]))
                    && base == Start(entries[k]) && end == End(entries[k]))
    && (forall k :: 0 <= k < n && Candidate(entries[k]) && (low ==> Low(entries[k]))
          ==> End(entries[k]) - Start(entries[k]) <= end - base)
  }

  ghost predicate NoneAmong(entries: seq<MM.Entry>, n: int, low: bool)
    requires 0 <= n <= |entries|
  {
    forall k :: 0 <= k < n && Candidate(entries[k]) ==> low && !Low(entries[k])
  }

  /** The largest region below 4 GiB, else the largest at all, else nothing. */
  ghost predicate Picked(entries: seq<MM.Entry>, base: int, end: int) {
    if !NoneAmong(entries, |entries|, true) then Largest(entries, |entries|, true, base, end)
    else if !NoneAmong(entries, |entries|, false) then Largest(entries, |entries|, false, base, end)
    else base == end == 0
  }

  class EarlyAllocator {
    var base: int
    var cursor: int
    var end: int

    constructor ()
      ensures base == cursor == end == 0
    {
      base, cursor, end := 0, 0, 0;
    }

    ghost predicate Valid()
      reads this
    {
      0 < base <= cursor <= end && base % PAGE_SIZE == 0 && cursor % PAGE_SIZE == 0 && end % PAGE_SIZE == 0
    }

    /** `pick_region_from_memmap`: the largest usable region below 4 GiB, else the largest at all. */
    method PickRegion(entries: seq<MM.Entry>)
      requires entries != []
      modifies this
      ensures cursor == base && Picked(entries, base, end)
    {
      hide Start, End;
      var lowBase, lowEnd, anyBase, anyEnd := 0, 0, 0, 0;
      for n := 0 to |entries|
        invariant 0 <= lowBase <= lowEnd && 0 <= anyBase <= anyEnd
        invariant if lowEnd - lowBase > 0 then Largest(entries, n, true, lowBase, lowEnd) else NoneAmong(entries, n, true)
        invariant if anyEnd - anyBase > 0 then Largest(entries, n, false, anyBase, anyEnd)
                  else NoneAmong(entries, n, false) && anyBase == anyEnd == 0
      {
        var e := entries[n];
        if e.kind == MM.Usable {
          var start, stop := Start(e), End(e);
          if start < stop {
            if stop <= FOUR_GIB && stop - start > lowEnd - lowBase {
              lowBase, lowEnd := start, stop;
            }
            if stop - start > anyEnd - anyBase {
              anyBase, anyEnd := start, stop;
            }
          }
        }
      }
      if lowEnd - lowBase > 0 {
        base, end := lowBase, lowEnd;
      } else {
        base, end := anyBase, anyEnd;
      }
      cursor := base;
    }

    /** `early_init`: false is the panic, which also refuses a region starting at address 0. */
    method EarlyInit(entries: seq<MM.Entry>) returns (ok: bool)
      modifies this
      ensures cursor == base && Picked(entries, base, end)
      ensures ok <==> base != 0
      ensures ok ==> Valid() && base < end
    {
      if entries != [] {
        PickRegion(entries);
      } else {
        base, cursor, end := 0, 0, 0;
      }
      if base == 0 || end <= base || base % PAGE_SIZE != 0 {
        return false;
      }
      ok := true;
    }

    /** `early_alloc_page`: the next page of the region; `None` is the panic. */
    method AllocPage() returns (r: Option<nat>)
      requires Valid()
      modifies `cursor
      ensures Valid()
      ensures r.None? <==> old(cursor) + PAGE_SIZE > end
      ensures r.None? ==> cursor == old(cursor)
      ensures r.Some? ==> r.value == old(cursor) && cursor == old(cursor) + PAGE_SIZE <= end
    {
      if cursor + PAGE_SIZE > end {
        return None;
      }
      var p := cursor;
      cursor := cursor + PAGE_SIZE;
      r := Some(p);
    }
  }
}
