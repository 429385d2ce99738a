/** The boot loader's memory map, counted in pages. */
module MemoryMap {
  import opened Words

  datatype Kind =
    | Usable
    | Reserved
    | AcpiReclaimable
    | AcpiNvs
    | BadMemory
    | BootloaderReclaimable
    | KernelAndModules
    | FramebufferMemory

  datatype Entry = Entry(base: nat, length: nat, kind: Kind)

  /** Entries whose memory `map_hhdm` makes reachable. */
  predicate Included(e: Entry) {
    e.kind in {Usable, BootloaderReclaimable, AcpiReclaimable, AcpiNvs, KernelAndModules, FramebufferMemory}
  }

  /** First page the entry touches. */
  function FirstPage(e: Entry): nat { e.base / PAGE_SIZE }

  /** One past the last page the entry touches; `ALIGN_UP` of its end, which does not wrap. */
  function EndPage(e: Entry): nat { (e.base + e.length + PAGE_SIZE - 1) / PAGE_SIZE }

  /** How many pages the entry touches. */
  function Pages(e: Entry): nat {
    if EndPage(e) <= FirstPage(e) then 0 else EndPage(e) - FirstPage(e)
  }

  predicate Touches(e: Entry, f: int) { FirstPage(e) <= f < EndPage(e) }

  /** Only reserved and bad memory is left out. */
  lemma IncludedKinds(e: Entry)
    ensures Included(e) <==> e.kind != Reserved && e.kind != BadMemory
  {
  }

  predicate InEntry(e: Entry, p: int) { e.base <= p < e.base + e.length }

  predicate InFrame(f: int, p: int) { f * PAGE_SIZE <= p < (f + 1) * PAGE_SIZE }

  /** The entry has a byte in frame `f`. */
  ghost predicate HasByteIn(e: Entry, f: int) {
    exists p :: InEntry(e, p) && InFrame(f, p)
  }

  /** An entry of no bytes, off a page boundary: rounding outwards still makes it a page. */
  predicate EmptyIn(e: Entry, f: int) {
    e.length == 0 && f * PAGE_SIZE < e.base < (f + 1) * PAGE_SIZE
  }

  /** The pages from the rounded base to the rounded end are those with a byte of the entry, but for entries without bytes. */
  lemma TouchesBytes(e: Entry, f: int)
    ensures Touches(e, f) <==> HasByteIn(e, f) || EmptyIn(e, f)
  {
    if Touches(e, f) && e.length > 0 {
      var p := if f * PAGE_SIZE <= e.base then e.base else f * PAGE_SIZE;
      assert InEntry(e, p) && InFrame(f, p);
    }
  }

  /** An empty entry at 0x123456 makes page 0x123 part of the direct map. */
  lemma EmptyEntryTouches()
    ensures Touches(Entry(0x12_3456, 0, Usable), 0x123) && !HasByteIn(Entry(0x12_3456, 0, Usable), 0x123)
  {
  }

  /** Frame `f` is touched by an included entry among the first `i`. */
  ghost predicate CoveredBy(entries: seq<Entry>, i: int, f: int)
    requires 0 <= i <= |entries|
  {
    exists k :: 0 <= k < i && Included(entries[k]) && Touches(entries[k], f)
  }

  /** No frame is touched by two included entries. */
  ghost predicate DisjointEntries(entries: seq<Entry>) {
    forall j, k, f {:trigger Touches(entries[j], f), Touches(entries[k], f)} ::
      0 <= j < k < |entries| && Included(entries[j]) && Included(entries[k])
      ==> !(Touches(entries[j], f) && Touches(entries[k], f))
  }

  function TotalPages(entries: seq<Entry>, i: int): nat
    requires 0 <= i <= |entries|
  {
    if i == 0 then 0
    else TotalPages(entries, i - 1) + if Included(entries[i - 1]) then Pages(entries[i - 1]) else 0
  }
}
