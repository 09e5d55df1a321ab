// The two-level page table of a process: a directory of 1024 tables of 1024
// entries, as a flat map from page numbers to frames.
module PageTable {
  import opened Words

  const ENTRIES: nat := 1024
  const PAGE: nat := 4096
  const PAGES: nat := 1024 * 1024

  // get_ptd_index and get_pt_index
  function PtdIndex(va: u32): (i: nat)
    ensures i < ENTRIES
  {
    va / 0x40_0000
  }

  function PtIndex(va: u32): (i: nat)
    ensures i < ENTRIES
  {
    va % 0x40_0000 / 0x1000
  }

  // The two indices together are the page number, each page having its own pair.
  lemma {:induction false} IndicesArePage(va: u32)
    ensures PtdIndex(va) * ENTRIES + PtIndex(va) == va / PAGE < PAGES
  {}

  class AddressSpace {
    const ptd: array<array?<u32>>
    ghost var tables: set<array<u32>>

    ghost predicate Valid()
      reads this, ptd, tables
    {
      && ptd.Length == ENTRIES
      && (forall i :: 0 <= i < ENTRIES && ptd[i] != null ==> ptd[i] in tables && ptd[i].Length == ENTRIES)
      && (forall i, j :: 0 <= i < j < ENTRIES && ptd[i] != null ==> ptd[i] != ptd[j])
    }

    // The frame of page n, 0 for none.
    ghost function Frame(n: nat): u32
      requires Valid() && n < PAGES
      reads this, ptd, tables
    {
      if ptd[n / ENTRIES] == null then 0 else ptd[n / ENTRIES][n % ENTRIES]
    }

    // The place the processor is told to look: word va >> 12 & 0x3ff of table va >> 22.
    ghost predicate InTable(va: u32, pa: u32)
      reads this, ptd, tables
    {
      && va / 0x40_0000 < ptd.Length && ptd[va / 0x40_0000] != null && ptd[va / 0x40_0000] in tables
      && var table := ptd[va / 0x40_0000];
         va / 4096 % 1024 < table.Length && table[va / 4096 % 1024] == pa
    }

    // ptd_create
    constructor ()
      ensures Valid() && fresh(ptd) && fresh(tables) && forall n :: 0 <= n < PAGES ==> Frame(n) == 0
    {
      ptd := new array?<u32>[ENTRIES](_ => null);
      tables := {};
    }

    // vma_va_to_pa: on a page-aligned entry, or-ing the offset in adds it.
    method VaToPa(va: u32) returns (pa: int)
      requires Valid() && va / PAGE < PAGES && Frame(va / PAGE) % PAGE == 0
      ensures pa == if Frame(va / PAGE) == 0 then 0 else Frame(va / PAGE) + va % PAGE
      ensures Frame(va / PAGE) != 0 ==> InTable(va, Frame(va / PAGE))
    {
      IndicesArePage(va);
      var pt := ptd[PtdIndex(va)];
      if pt == null {
        return 0;
      }
      var pte := pt[PtIndex(va)];
      if pte == 0 {
        return 0;
      }
      pa := pte + va % PAGE;
    }

    // vma_set_mapping: one page changes its frame, no other does.
    method SetMapping(va: u32, pa: u32)
      requires Valid()
      modifies this, ptd, tables
      ensures Valid() && fresh(tables - old(tables)) && va / PAGE < PAGES
      ensures forall n :: 0 <= n < PAGES ==> Frame(n) == if n == va / PAGE then pa else old(Frame(n))
      ensures InTable(va, pa)
    {
      IndicesArePage(va);
      ghost var d, p := PtdIndex(va), PtIndex(va);
      var pt := ptd[PtdIndex(va)];
      if pt == null {
        pt := new u32[ENTRIES](_ => 0);
        ptd[PtdIndex(va)] := pt;
        tables := tables + {pt};
      }
      pt[PtIndex(va)] := pa;
      forall n | 0 <= n < PAGES
        ensures n / ENTRIES == d && n % ENTRIES == p <==> n == va / PAGE {
      }
    }
  }
}
