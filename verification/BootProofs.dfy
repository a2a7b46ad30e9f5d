/** What the boot tables translate, and that they form a tree later mappings can grow. */
module BootProofs {
  import opened Pages
  import opened PageEntries
  import opened Paging
  import opened PageTree
  import opened Boot
  import opened HeapGrowth
  import opened AddressSpace

  // ---------- Addresses

  /** mmu_to_virt */
  function ToVirt(phys: nat): nat {
    Or(phys, HIGH_MAP_REGION)
  }

  lemma {:induction false} OrCommutes(a: nat, b: nat)
    ensures Or(a, b) == Or(b, a)
    decreases a + b
  {
    if a != 0 && b != 0 {
      OrCommutes(a / 2, b / 2);
    }
  }

  lemma ToVirtAdds(phys: nat)
    requires phys < 0x80_0000_0000
    ensures ToVirt(phys) == HIGH_MAP_REGION + phys
  {
    Pow2s();
    assert HIGH_MAP_REGION == 0x1FF_FFFF * Pow2(39);
    OrIsSum(0x1FF_FFFF, phys, 39);
    OrCommutes(phys, HIGH_MAP_REGION);
  }

  lemma HighPage(phys: nat)
    requires phys < 0x10_0000_0000
    ensures PageOf(HIGH_MAP_REGION + phys) == 0xF_F800_0000 + phys / PAGE_SIZE
    ensures (HIGH_MAP_REGION + phys) % 0x20_0000 == phys % 0x20_0000
  {
    HighPageOf(phys);
    HighOffset(phys);
  }

  lemma HighPageOf(phys: nat)
    requires phys < 0x10_0000_0000
    ensures PageOf(HIGH_MAP_REGION + phys) == 0xF_F800_0000 + phys / PAGE_SIZE
  {
    var masked := 0xFF80_0000_0000 + phys;
    assert HIGH_MAP_REGION + phys == 0xFFFF * TWO_TO_48 + masked;
    assert masked == 0xF_F800_0000 * PAGE_SIZE + phys;
  }

  lemma HighOffset(phys: nat)
    ensures (HIGH_MAP_REGION + phys) % 0x20_0000 == phys % 0x20_0000
  {
    assert HIGH_MAP_REGION + phys == 0x7FF_FFFC_0000 * 0x20_0000 + phys;
  }

  lemma Quotients(h: nat, q: nat)
    requires q < 0x800_0000
    ensures (h * 0x800_0000 + q) / 0x800_0000 == h
    ensures (h * 0x800_0000 + q) / 0x4_0000 == h * 512 + q / 0x4_0000
    ensures (h * 0x800_0000 + q) / 512 == h * 0x4_0000 + q / 512
  {}

  /** The four indices of page q of the h-th PML4 entry. */
  lemma Indices(h: nat, q: nat)
    requires h < 512 && q < 0x800_0000
    ensures var page := h * 0x800_0000 + q;
      && Index(page, 4) == h && Index(page, 3) == q / 0x4_0000
      && Index(page, 2) == q / 512 % 512 && Index(page, 1) == q % 512
  {
    Quotients(h, q);
    MaskedSum(h, q / 0x4_0000);
    MaskedSum(h * 512, q / 512);
    MaskedSum(h * 0x4_0000, q);
  }

  /** The large page an address of the direct map lies in is its physical 2 MiB. */
  lemma HighEntryBase(q: nat)
    requires q < 0x100_0000
    ensures q / 0x4_0000 < HIGH_TABLES
    ensures HighEntry(q / 0x4_0000, q / 512 % 512).address * PAGE_SIZE == q / 512 * 0x20_0000
  {
    var i, j := q / 0x4_0000, q / 512 % 512;
    assert q / 512 == i * 512 + j;
  }

  // ---------- The direct map

  lemma HighWalk(l: Layout, p: Plan, mem0: Memory, mem: Memory, q: nat)
    requires InOrder(l) && Fits(p) && Built(l, p, mem0, mem) && q < 0x100_0000
    ensures q / 0x4_0000 < HIGH_TABLES
    ensures WalkOf(mem, l.highPml4, 0xF_F800_0000 + q) == Large(2, HighEntry(q / 0x4_0000, q / 512 % 512))
    ensures CanWrite(mem, l.highPml4, 4, 0xF_F800_0000 + q)
  {
    hide Built, Index;
    var page := 0xF_F800_0000 + q;
    Indices(511, q);
    var i := q / 0x4_0000;
    EntryIs(l, p, mem0, mem, l.highPml4, 511);
    EntryIs(l, p, mem0, mem, l.highPml3, i);
    EntryIs(l, p, mem0, mem, l.highPml2s + i, q / 512 % 512);
    AccessBits();
    assert Descend(mem, l.highPml2s + i, 2, page) == Large(2, HighEntry(i, q / 512 % 512));
    assert Descend(mem, l.highPml3, 3, page) == Descend(mem, l.highPml2s + i, 2, page);
    assert CanWrite(mem, l.highPml2s + i, 2, page) && CanWrite(mem, l.highPml3, 3, page);
  }

  lemma EntryIs(l: Layout, p: Plan, mem0: Memory, mem: Memory, f: nat, k: nat)
    requires InOrder(l) && Fits(p) && Built(l, p, mem0, mem) && Static(l, f) && k < 512
    ensures TableAt(mem, f)[k] == BootEntry(l, p, f, k)
  {}

  lemma AccessBits()
    ensures KERNEL_ACCESS & PRESENT != 0 && KERNEL_ACCESS & HUGE == 0
    ensures USER_ACCESS & PRESENT != 0 && USER_ACCESS & HUGE == 0
    ensures (LARGE | KERNEL_ACCESS) & PRESENT != 0 && (LARGE | KERNEL_ACCESS) & HUGE != 0
    ensures NO_ENTRY.bits & PRESENT == 0
    ensures KERNEL_ACCESS & WRITABLE != 0 && USER_ACCESS & WRITABLE != 0 && (LARGE | KERNEL_ACCESS) & WRITABLE != 0
  {}

  /** Every physical address below 64 GiB is visible at mmu_to_virt of it, and can be written there. */
  lemma DirectMapTranslates(l: Layout, p: Plan, mem0: Memory, mem: Memory, phys: nat)
    requires InOrder(l) && Fits(p) && Built(l, p, mem0, mem) && phys < 0x10_0000_0000
    ensures TranslateVia(mem, l.highPml4, ToVirt(phys)) == phys
    ensures CanWrite(mem, l.highPml4, 4, PageOf(ToVirt(phys)))
  {
    hide Built, TranslateVia, WalkOf, HighEntry, Or, Pow2, PageOf, ToVirt, CanWrite;
    var q := phys / PAGE_SIZE;
    ToVirtAdds(phys);
    HighPage(phys);
    HighWalk(l, p, mem0, mem, q);
    TranslateIsWalk(mem, l.highPml4, ToVirt(phys));
    HighEntryBase(q);
    LargeOutcome(HighEntry(q / 0x4_0000, q / 512 % 512), ToVirt(phys), q / 512, phys % 0x20_0000);
    PhysSplit(phys);
  }

  lemma PhysSplit(phys: nat)
    ensures phys / PAGE_SIZE / 512 * 0x20_0000 + phys % 0x20_0000 == phys
  {}

  lemma LargeOutcome(e: Entry, virt: nat, n: nat, b: nat)
    requires e.address * PAGE_SIZE == n * 0x20_0000 && virt % 0x20_0000 == b
    ensures Outcome(Large(2, e), virt) == n * 0x20_0000 + b
  {
    OrBase(n, b);
  }

  lemma OrBase(n: nat, b: nat)
    requires b < 0x20_0000
    ensures Or(n * 0x20_0000, b) == n * 0x20_0000 + b
  {
    Pow2s();
    OrIsSum(n, b, 21);
  }

  // ---------- Low memory

  lemma LowWalk(l: Layout, p: Plan, mem0: Memory, mem: Memory, page: nat)
    requires InOrder(l) && Fits(p) && Built(l, p, mem0, mem) && page < 512 * LOW_TABLES
    ensures WalkOf(mem, l.highPml4, page) ==
      if page / 512 >= p.lowTables then Missing(2)
      else if page == 0 then Missing(1)
      else Leaf(LowEntry(page / 512, page % 512))
    ensures page / 512 < p.lowTables && page > 0 ==> CanWrite(mem, l.highPml4, 4, page)
  {
    hide Built, Index;
    var j := page / 512;
    Indices(0, page);
    EntryIs(l, p, mem0, mem, l.highPml4, 0);
    EntryIs(l, p, mem0, mem, l.lowPml4s, 0);
    EntryIs(l, p, mem0, mem, l.lowPml4s + 1, j);
    EntryIs(l, p, mem0, mem, l.lowPml2s + j, page % 512);
    AccessBits();
    assert Descend(mem, l.lowPml4s, 3, page) == Descend(mem, l.lowPml4s + 1, 2, page);
    assert CanWrite(mem, l.lowPml4s, 3, page) == CanWrite(mem, l.lowPml4s + 1, 2, page);
  }

  lemma LowPage(virt: nat)
    requires virt < 0x400_0000
    ensures PageOf(virt) == virt / PAGE_SIZE < 512 * LOW_TABLES
    ensures virt / PAGE_SIZE / 512 == virt / 0x20_0000
  {}

  /** Low memory past page zero and below the low tables' end is mapped to itself, and can be written. */
  lemma LowIsIdentity(l: Layout, p: Plan, mem0: Memory, mem: Memory, virt: nat)
    requires InOrder(l) && Fits(p) && Built(l, p, mem0, mem)
    requires PAGE_SIZE <= virt < p.lowTables * 0x20_0000
    ensures TranslateVia(mem, l.highPml4, virt) == virt && CanWrite(mem, l.highPml4, 4, PageOf(virt))
  {
    hide Built, TranslateVia, WalkOf, PageOf, CanWrite;
    LowPage(virt);
    LowWalk(l, p, mem0, mem, virt / PAGE_SIZE);
    TranslateIsWalk(mem, l.highPml4, virt);
  }

  /** Page zero reports -4, its own PML1 entry missing, exactly when there is a low table at all. */
  lemma PageZeroIff(l: Layout, p: Plan, mem0: Memory, mem: Memory, virt: nat)
    requires InOrder(l) && Fits(p) && Built(l, p, mem0, mem) && virt < PAGE_SIZE
    ensures TranslateVia(mem, l.highPml4, virt) == TWO_TO_64 - 4 <==> p.lowTables > 0
  {
    hide Built, TranslateVia, WalkOf, PageOf;
    LowPage(virt);
    LowWalk(l, p, mem0, mem, 0);
    TranslateIsWalk(mem, l.highPml4, virt);
  }

  // ---------- The heap region

  /** Only the bitmap is mapped in the heap region, and by small pages. */
  lemma HeapWalk(l: Layout, p: Plan, mem0: Memory, mem: Memory, n: nat)
    requires InOrder(l) && Fits(p) && Built(l, p, mem0, mem) && n < HEAP_PAGES
    ensures var w := WalkOf(mem, l.highPml4, HEAP_FIRST_PAGE + n);
      if n < p.bitmapPages then w == Leaf(Entry(p.bitmapFrame + n, KERNEL_ACCESS)) else w.Missing?
    ensures TablesWritable(mem, l.highPml4, 4, HEAP_FIRST_PAGE + n)
    ensures n < p.bitmapPages ==> CanWrite(mem, l.highPml4, 4, HEAP_FIRST_PAGE + n)
  {
    hide Built, Index;
    var page := HEAP_FIRST_PAGE + n;
    Indices(510, n);
    EntryIs(l, p, mem0, mem, l.highPml4, 510);
    EntryIs(l, p, mem0, mem, l.heapPml3, n / 0x4_0000);
    EntryIs(l, p, mem0, mem, l.heapPml2, n / 512 % 512);
    AccessBits();
    if n / 0x4_0000 == 0 && n / 512 < BITMAP_TABLES {
      EntryIs(l, p, mem0, mem, l.heapPml1 + n / 512, n % 512);
      assert Descend(mem, l.heapPml2, 2, page) == Descend(mem, l.heapPml1 + n / 512, 1, page);
      assert CanWrite(mem, l.heapPml2, 2, page) == CanWrite(mem, l.heapPml1 + n / 512, 1, page);
    }
  }

  /** The bitmap's bytes are seen at the start of the heap region, and can be written there. */
  lemma BitmapTranslates(l: Layout, p: Plan, mem0: Memory, mem: Memory, x: nat)
    requires InOrder(l) && Fits(p) && Built(l, p, mem0, mem) && x < p.bitmapPages * PAGE_SIZE
    ensures TranslateVia(mem, l.highPml4, KERNEL_HEAP_START + x) == p.bitmapFrame * PAGE_SIZE + x
    ensures CanWrite(mem, l.highPml4, 4, PageOf(KERNEL_HEAP_START + x))
  {
    hide Built, TranslateVia, WalkOf, PageOf, CanWrite, TablesWritable;
    PageOfHeap(KERNEL_HEAP_START + x);
    HeapWalk(l, p, mem0, mem, x / PAGE_SIZE);
    TranslateIsWalk(mem, l.highPml4, KERNEL_HEAP_START + x);
    assert (KERNEL_HEAP_START + x) % PAGE_SIZE == x % PAGE_SIZE;
  }

  lemma BootIsGrowable(l: Layout, p: Plan, mem0: Memory, mem: Memory)
    requires InOrder(l) && Fits(p) && Built(l, p, mem0, mem)
    ensures Growable(mem, l.highPml4)
  {
    hide Built, WalkOf, CanWrite, TablesWritable;
    forall w: nat | InHeapRegion(w)
      ensures !WalkOf(mem, l.highPml4, w).Large? && TablesWritable(mem, l.highPml4, 4, w)
    {
      HeapWalk(l, p, mem0, mem, w - HEAP_FIRST_PAGE);
    }
  }

  // ---------- User access

  lemma UserBits()
    ensures KERNEL_ACCESS & 0x04 == 0 && (LARGE | KERNEL_ACCESS) & 0x04 == 0 && NO_ENTRY.bits & 0x04 == 0
    ensures USER_ACCESS & 0x04 != 0
  {}

  /** Of all boot entries just the two that lead to the PML2 table of low memory are open to user mode,
      so no page is. */
  lemma UserEntriesIff(l: Layout, p: Plan, mem0: Memory, mem: Memory, f: nat, k: nat)
    requires InOrder(l) && Fits(p) && Built(l, p, mem0, mem) && Static(l, f) && k < 512
    ensures TableAt(mem, f)[k].bits & 0x04 != 0 <==> k == 0 && (f == l.highPml4 || f == l.lowPml4s)
  {
    hide Built;
    EntryIs(l, p, mem0, mem, f, k);
    UserBits();
  }

  // ---------- The tree

  /** The place of each static table. */
  function Place(l: Layout, f: nat): Node
    requires InOrder(l) && Static(l, f)
  {
    if f == l.highPml4 then Node(4, 0)
    else if f == l.highPml3 then Node(3, 511)
    else if f < l.lowPml4s then Node(2, 511 * 512 + (f - l.highPml2s))
    else if f == l.lowPml4s then Node(3, 0)
    else if f == l.lowPml4s + 1 then Node(2, 0)
    else if f < l.heapPml3 then Node(1, f - l.lowPml2s)
    else if f == l.heapPml3 then Node(3, 510)
    else if f == l.heapPml2 then Node(2, 510 * 512)
    else Node(1, 510 * 512 * 512 + (f - l.heapPml1))
  }

  function BootOwner(l: Layout): (owner: Owner)
    requires InOrder(l)
    ensures forall f: nat :: f in owner <==> Static(l, f)
    ensures forall f: nat :: Static(l, f) ==> owner[f] == Place(l, f)
  {
    map f: nat | l.highPml4 <= f < l.heapPml1 + BITMAP_TABLES && Static(l, f) :: Place(l, f)
  }

  /** The boot tables are tree-shaped, the ground every later mapping stands on. */
  lemma BootIsTree(l: Layout, p: Plan, mem0: Memory, mem: Memory)
    requires InOrder(l) && Fits(p) && Built(l, p, mem0, mem)
    ensures Tree(mem, l.highPml4, BootOwner(l))
  {
    var owner := BootOwner(l);
    AccessBits();
    forall f, i: nat | f in owner && i < 512
      ensures EntryOwned(mem, owner, f, i)
    {
      EntryIs(l, p, mem0, mem, f, i);
    }
  }

  // ---------- After the heap has grown

  /** Only pages behind the bitmap, within the heap region, have changed. */
  ghost predicate HeapGrew(l: Layout, p: Plan, mem: Memory, mem': Memory) {
    KeptOutside(l.highPml4, mem, mem', HEAP_FIRST_PAGE + p.bitmapPages, HEAP_FIRST_PAGE + HEAP_PAGES)
  }

  /** What OnlyNewPages of a heap that starts behind the bitmap amounts to. */
  lemma GrowthIsHeaps(l: Layout, p: Plan, mem: Memory, mem': Memory, heapStart: nat, lo: nat, hi: nat)
    requires p.bitmapPages <= BITMAP_PAGES && heapStart == KERNEL_HEAP_START + p.bitmapPages * PAGE_SIZE
    requires lo <= hi < 0x10_0000
    requires KeptOutside(l.highPml4, mem, mem', PageOf(heapStart) + lo, PageOf(heapStart) + hi)
    ensures HeapGrew(l, p, mem, mem')
  {
    hide Kept;
    PageOfHeap(heapStart);
  }

  lemma GrewElsewhere(l: Layout, p: Plan, mem: Memory, mem': Memory, w: nat)
    requires HeapGrew(l, p, mem, mem') && w < PAGES && (!InHeapRegion(w) || w < HEAP_FIRST_PAGE + p.bitmapPages)
    ensures Kept(l.highPml4, mem, mem', w)
  {}

  /** Whatever growth of the heap does to the tables, the direct map through which they are read and
      written still shows every physical address below 64 GiB, writable. */
  lemma DirectMapSurvives(l: Layout, p: Plan, mem0: Memory, mem: Memory, mem': Memory, phys: nat)
    requires InOrder(l) && Fits(p) && Built(l, p, mem0, mem) && HeapGrew(l, p, mem, mem')
    requires phys < 0x10_0000_0000
    ensures TranslateVia(mem', l.highPml4, ToVirt(phys)) == phys
    ensures CanWrite(mem', l.highPml4, 4, PageOf(ToVirt(phys)))
  {
    hide Built, TranslateVia, WalkOf, HighEntry, PageOf, ToVirt, CanWrite, TablesWritable;
    var q := phys / PAGE_SIZE;
    ToVirtAdds(phys);
    HighPage(phys);
    HighWalk(l, p, mem0, mem, q);
    GrewElsewhere(l, p, mem, mem', 0xF_F800_0000 + q);
    DirectMapTranslates(l, p, mem0, mem, phys);
    TranslateIsWalk(mem, l.highPml4, ToVirt(phys));
    TranslateIsWalk(mem', l.highPml4, ToVirt(phys));
  }

  /** And low memory is still mapped to itself, writable. */
  lemma LowIdentitySurvives(l: Layout, p: Plan, mem0: Memory, mem: Memory, mem': Memory, virt: nat)
    requires InOrder(l) && Fits(p) && Built(l, p, mem0, mem) && HeapGrew(l, p, mem, mem')
    requires PAGE_SIZE <= virt < p.lowTables * 0x20_0000
    ensures TranslateVia(mem', l.highPml4, virt) == virt && CanWrite(mem', l.highPml4, 4, PageOf(virt))
  {
    hide Built, TranslateVia, WalkOf, PageOf, CanWrite, TablesWritable;
    LowPage(virt);
    LowWalk(l, p, mem0, mem, virt / PAGE_SIZE);
    var page := virt / PAGE_SIZE;
    GrewElsewhere(l, p, mem, mem', page);
    LowIsIdentity(l, p, mem0, mem, virt);
    TranslateIsWalk(mem, l.highPml4, virt);
    TranslateIsWalk(mem', l.highPml4, virt);
  }

  /** And the allocator still sees its bitmap. */
  lemma BitmapSurvives(l: Layout, p: Plan, mem0: Memory, mem: Memory, mem': Memory, x: nat)
    requires InOrder(l) && Fits(p) && Built(l, p, mem0, mem) && HeapGrew(l, p, mem, mem')
    requires x < p.bitmapPages * PAGE_SIZE
    ensures TranslateVia(mem', l.highPml4, KERNEL_HEAP_START + x) == p.bitmapFrame * PAGE_SIZE + x
    ensures CanWrite(mem', l.highPml4, 4, PageOf(KERNEL_HEAP_START + x))
  {
    hide Built, TranslateVia, WalkOf, PageOf, CanWrite, TablesWritable;
    PageOfHeap(KERNEL_HEAP_START + x);
    HeapWalk(l, p, mem0, mem, x / PAGE_SIZE);
    GrewElsewhere(l, p, mem, mem', HEAP_FIRST_PAGE + x / PAGE_SIZE);
    BitmapTranslates(l, p, mem0, mem, x);
    TranslateIsWalk(mem, l.highPml4, KERNEL_HEAP_START + x);
    TranslateIsWalk(mem', l.highPml4, KERNEL_HEAP_START + x);
  }

  /** And page zero is still unmapped. */
  lemma PageZeroSurvives(l: Layout, p: Plan, mem0: Memory, mem: Memory, mem': Memory, virt: nat)
    requires InOrder(l) && Fits(p) && Built(l, p, mem0, mem) && HeapGrew(l, p, mem, mem') && virt < PAGE_SIZE
    ensures TranslateVia(mem', l.highPml4, virt) >= TWO_TO_64 - 4
  {
    hide Built, TranslateVia, WalkOf, PageOf, CanWrite, TablesWritable;
    LowPage(virt);
    LowWalk(l, p, mem0, mem, 0);
    GrewElsewhere(l, p, mem, mem', 0);
    TranslateIsWalk(mem', l.highPml4, virt);
  }
}
