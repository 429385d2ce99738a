/**
 The 64-bit words behind `PageTables.Entry`: the source's mask expressions, and which fields they carry.
 */
module PteBits {
  import PT = PageTables


  const PTE_P: bv64 := 0x1
  const PTE_W: bv64 := 0x2
  const PTE_U: bv64 := 0x4
  const PTE_PS: bv64 := 0x80
  const PTE_NX: bv64 := 0x8000_0000_0000_0000
  const ADDR_MASK: bv64 := 0x000F_FFFF_FFFF_F000
  const ADDR_MASK_2M: bv64 := 0x000F_FFFF_FFFF_E000
  const PAGE_FLAG_MASK: bv64 := 0x8000_0000_0000_0FFF

  predicate Has(w: bv64, bit: bv64) { w & bit == bit }

  /** The word `map_4k` stores. */
  function Leaf4k(pa: bv64, flags: bv64): bv64 { (pa & ADDR_MASK) | (flags & !ADDR_MASK) | PTE_P }

  /** The word `map_2m` stores. */
  function Leaf2m(pa: bv64, flags: bv64): bv64 {
    (pa & ADDR_MASK_2M) | (flags & !ADDR_MASK) | PTE_P | PTE_W | PTE_PS
  }

  /** The word `get_or_make_next` stores for a new table. */
  function TableLink(child: bv64): bv64 { (child & ADDR_MASK) | PTE_P | PTE_W }

  /** The words the generic layer stores. */
  function GenericLeaf(pa: bv64, flags: bv64): bv64 { pa | flags | PTE_P }

  function GenericLink(frame: bv64): bv64 { frame | (PTE_W | PTE_U) | PTE_P }

  /** A 4 KiB leaf carries the masked address and exactly the flags it was given. */
  lemma Leaf4kFields(pa: bv64, flags: bv64)
    ensures var w := Leaf4k(pa, flags);
            && Has(w, PTE_P) && w & ADDR_MASK == pa & ADDR_MASK
            && (Has(w, PTE_W) <==> Has(flags, PTE_W)) && (Has(w, PTE_NX) <==> Has(flags, PTE_NX))
            && (Has(w, PTE_PS) <==> Has(flags, PTE_PS)) && (Has(w, PTE_U) <==> Has(flags, PTE_U))
  {
  }

  /** A 2 MiB leaf of an aligned address translates every offset by adding it. */
  lemma Leaf2mTranslates(pa: bv64, flags: bv64, va: bv64)
    requires pa & 0x1F_FFFF == 0 && pa & !ADDR_MASK == 0
    ensures var w := Leaf2m(pa, flags);
            && Has(w, PTE_P) && Has(w, PTE_W) && Has(w, PTE_PS) && (Has(w, PTE_NX) <==> Has(flags, PTE_NX))
            && (w & ADDR_MASK_2M) | (va & 0x1F_FFFF) == pa + (va & 0x1F_FFFF)
  {
  }

  /** Links to tables carry no large-page bit and read back under the bootstrap's address mask. */
  lemma LinksReadBack(child: bv64)
    ensures TableLink(child) & ADDR_MASK == child & ADDR_MASK
    ensures GenericLink(child & ADDR_MASK) & ADDR_MASK == child & ADDR_MASK
    ensures !Has(TableLink(child), PTE_PS) && !Has(GenericLink(child & ADDR_MASK), PTE_PS)
  {
  }

  /** So do they under the generic layer's wider mask. */
  lemma LinksReadBackGeneric(child: bv64)
    ensures TableLink(child) & !PAGE_FLAG_MASK == child & ADDR_MASK
    ensures GenericLink(child & ADDR_MASK) & !PAGE_FLAG_MASK == child & ADDR_MASK
  {
  }

  /** A generic leaf is present and reads back under either mask if its flags stay inside the flag bits. */
  lemma GenericLeafReadsBack(pa: bv64, flags: bv64)
    ensures Has(GenericLeaf(pa, flags), PTE_P)
    ensures GenericLeaf(pa & ADDR_MASK, flags & PAGE_FLAG_MASK) & !PAGE_FLAG_MASK == pa & ADDR_MASK
  {
  }

  /** The two spellings of the index extraction agree. */
  lemma IndexSpellings(v: bv64)
    ensures (v & (0x1FF << 39)) >> 39 == (v >> 39) & 0x1FF
    ensures (v & (0x1FF << 30)) >> 30 == (v >> 30) & 0x1FF
    ensures (v & (0x1FF << 21)) >> 21 == (v >> 21) & 0x1FF
    ensures (v & (0x1FF << 12)) >> 12 == (v >> 12) & 0x1FF
  {
  }

  // ---------- words as entries ----------

  function FrameNumber(address: bv64): nat { (address >> 12) as nat }

  /** The entry a stored word stands for. */
  function Decode(w: bv64): PT.Entry {
    PT.Entry(Has(w, PTE_P), Has(w, PTE_W), Has(w, PTE_U), Has(w, PTE_PS), Has(w, PTE_NX), FrameNumber(w & ADDR_MASK))
  }

  /** Which bit is which, as the processor has them: 0, 1, 2, 7 and 63, with the frame in bits 12 to 51. */
  lemma DecodeBits(w: bv64)
    ensures Decode(w).present <==> w & 1 == 1
    ensures Decode(w).writable <==> (w >> 1) & 1 == 1
    ensures Decode(w).user <==> (w >> 2) & 1 == 1
    ensures Decode(w).huge <==> (w >> 7) & 1 == 1
    ensures Decode(w).nx <==> w >> 63 == 1
    ensures Decode(w).frame == ((w << 12) >> 24) as nat
  {
    BitPlaces(w);
    hide Has;
  }

  lemma BitPlaces(w: bv64)
    ensures Has(w, PTE_P) <==> w & 1 == 1
    ensures Has(w, PTE_W) <==> (w >> 1) & 1 == 1
    ensures Has(w, PTE_U) <==> (w >> 2) & 1 == 1
    ensures Has(w, PTE_PS) <==> (w >> 7) & 1 == 1
    ensures Has(w, PTE_NX) <==> w >> 63 == 1
    ensures (w & ADDR_MASK) >> 12 == (w << 12) >> 24
  {
  }

  lemma DecodeLeaf4k(pa: bv64, flags: bv64)
    ensures Decode(Leaf4k(pa, flags)) ==
            PT.Entry(true, Has(flags, PTE_W), Has(flags, PTE_U), Has(flags, PTE_PS), Has(flags, PTE_NX), FrameNumber(pa & ADDR_MASK))
  {
    hide FrameNumber, Leaf4k, Has;
    Leaf4kFields(pa, flags);
  }

  /** For a 2 MiB aligned address, as the bootstrap only stores. */
  lemma DecodeLeaf2m(pa: bv64, flags: bv64)
    requires pa & 0x1F_FFFF == 0 && pa & !ADDR_MASK == 0
    ensures Decode(Leaf2m(pa, flags)) == PT.Entry(true, true, Has(flags, PTE_U), true, Has(flags, PTE_NX), FrameNumber(pa))
  {
    Leaf2mFields(pa, flags);
    hide FrameNumber, Leaf2m, Has;
  }

  lemma Leaf2mFields(pa: bv64, flags: bv64)
    requires pa & 0x1F_FFFF == 0 && pa & !ADDR_MASK == 0
    ensures Has(Leaf2m(pa, flags), PTE_P) && Has(Leaf2m(pa, flags), PTE_W) && Has(Leaf2m(pa, flags), PTE_PS)
    ensures Has(Leaf2m(pa, flags), PTE_U) <==> Has(flags, PTE_U)
    ensures Has(Leaf2m(pa, flags), PTE_NX) <==> Has(flags, PTE_NX)
    ensures Leaf2m(pa, flags) & ADDR_MASK == pa
  {
  }

  lemma DecodeTableLink(child: bv64)
    ensures Decode(TableLink(child)) == PT.Entry(true, true, false, false, false, FrameNumber(child & ADDR_MASK))
  {
    LinkFields(child);
    hide FrameNumber, TableLink, Has;
  }

  /** Both kinds of link lead to their table and take no right away. */
  lemma LinksLead(child: bv64)
    ensures PT.PointsTo(Decode(TableLink(child)), FrameNumber(child & ADDR_MASK))
    ensures PT.PointsTo(Decode(GenericLink(child & ADDR_MASK)), FrameNumber(child & ADDR_MASK))
  {
    DecodeTableLink(child);
    DecodeGenericLink(child);
    hide Decode, TableLink, GenericLink, FrameNumber;
  }

  lemma LinkFields(child: bv64)
    ensures Has(TableLink(child), PTE_P) && Has(TableLink(child), PTE_W) && !Has(TableLink(child), PTE_U)
    ensures !Has(TableLink(child), PTE_PS) && !Has(TableLink(child), PTE_NX)
    ensures TableLink(child) & ADDR_MASK == child & ADDR_MASK
  {
  }

  lemma DecodeGenericLink(frame: bv64)
    ensures Decode(GenericLink(frame & ADDR_MASK)) == PT.Entry(true, true, true, false, false, FrameNumber(frame & ADDR_MASK))
  {
    GenericLinkFields(frame);
    hide FrameNumber, GenericLink, Has;
  }

  lemma GenericLinkFields(frame: bv64)
    ensures var w := GenericLink(frame & ADDR_MASK); Has(w, PTE_P) && Has(w, PTE_W) && Has(w, PTE_U)
    ensures var w := GenericLink(frame & ADDR_MASK); !Has(w, PTE_PS) && !Has(w, PTE_NX)
    ensures GenericLink(frame & ADDR_MASK) & ADDR_MASK == frame & ADDR_MASK
  {
  }

  /** A generic leaf of an address, with flags inside the flag bits. */
  lemma DecodeGenericLeaf(pa: bv64, flags: bv64)
    ensures Decode(GenericLeaf(pa & ADDR_MASK, flags & PAGE_FLAG_MASK)) ==
            PT.LeafWith(FrameNumber(pa & ADDR_MASK),
                        PT.Flags(Has(flags, PTE_W), Has(flags, PTE_U), Has(flags, PTE_PS), Has(flags, PTE_NX)))
  {
    GenericLeafFields(pa, flags);
    hide FrameNumber, GenericLeaf, Has;
  }

  lemma GenericLeafFields(pa: bv64, flags: bv64)
    ensures Has(GenericLeaf(pa & ADDR_MASK, flags & PAGE_FLAG_MASK), PTE_P)
    ensures Has(GenericLeaf(pa & ADDR_MASK, flags & PAGE_FLAG_MASK), PTE_W) <==> Has(flags, PTE_W)
    ensures Has(GenericLeaf(pa & ADDR_MASK, flags & PAGE_FLAG_MASK), PTE_U) <==> Has(flags, PTE_U)
    ensures Has(GenericLeaf(pa & ADDR_MASK, flags & PAGE_FLAG_MASK), PTE_PS) <==> Has(flags, PTE_PS)
    ensures Has(GenericLeaf(pa & ADDR_MASK, flags & PAGE_FLAG_MASK), PTE_NX) <==> Has(flags, PTE_NX)
    ensures GenericLeaf(pa & ADDR_MASK, flags & PAGE_FLAG_MASK) & ADDR_MASK == pa & ADDR_MASK
  {
  }

  lemma DecodeZero()
    ensures Decode(0) == PT.EMPTY
  {
  }
}
