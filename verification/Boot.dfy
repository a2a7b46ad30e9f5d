/** mmu_init: the page tables the kernel starts with. */
module Boot {
  import opened Pages
  import opened PageEntries
  import opened Paging
  import opened PageTree

  const KERNEL_ACCESS: bv64 := 0x03
  const USER_ACCESS: bv64 := 0x07
  const LARGE: bv64 := 0x80
  const HIGH_TABLES: nat := 64
  const LOW_TABLES: nat := 32
  const BITMAP_TABLES: nat := 3

  /** The frames of the statically allocated tables, each array from its first frame on. */
  datatype Layout = Layout(
    highPml4: Frame, highPml3: Frame, highPml2s: Frame, lowPml4s: Frame, lowPml2s: Frame,
    heapPml3: Frame, heapPml2: Frame, heapPml1: Frame)

  /** What mmu_init computes from its arguments: PML1 tables for low memory, pages and first frame of the bitmap. */
  datatype Plan = Plan(lowTables: nat, bitmapPages: nat, bitmapFrame: nat)

  predicate Fits(p: Plan) {
    p.lowTables <= LOW_TABLES && p.bitmapPages <= 512 * BITMAP_TABLES && p.bitmapFrame + 512 * BITMAP_TABLES < TWO_TO_40
  }

  // ---------- How many low tables

  /** mm.c:236-239 for the given end address. */
  function LowTables(end: nat): nat {
    var lowPages := (end + PAGE_SIZE - 1) / PAGE_SIZE;
    var rounded := (lowPages + 0xFFF) / 0x1000 * 0x1000;
    (rounded + 511) / 512
  }

  /** The end of low memory: the least multiple of 16 MiB that is no less than the given end. */
  function LowEnd(end: nat): (r: nat)
    ensures end <= r < end + 0x100_0000 && r % 0x100_0000 == 0
  {
    (end + 0xFF_FFFF) / 0x100_0000 * 0x100_0000
  }

  /** The low tables end exactly there, and fit their array exactly when the end is at most 64 MiB. */
  lemma LowTablesFitIff(end: nat)
    ensures LowTables(end) * 0x20_0000 == LowEnd(end)
    ensures LowTables(end) <= LOW_TABLES <==> end <= 0x400_0000
  {
    hide LowEnd;
    var pages := (end + PAGE_SIZE - 1) / PAGE_SIZE;
    var q := (pages + 0xFFF) / 0x1000;
    assert end <= pages * PAGE_SIZE < end + PAGE_SIZE;
    assert pages <= q * 0x1000 < pages + 0x1000;
    assert LowTables(end) == q * 8;
    OneMultiple(end, q);
  }

  lemma OneMultiple(end: nat, q: nat)
    requires end <= q * 0x100_0000 < end + 0x100_0000
    ensures LowEnd(end) == q * 0x100_0000
  {}

  // ---------- What each table holds

  function Points(frame: nat, access: bv64): Entry
    requires frame < TWO_TO_40
  {
    Entry(frame, access)
  }

  /** Entry j of the i-th high PML2 table: (i << 30) + (j << 21), a large page. */
  function HighEntry(i: nat, j: nat): Entry
    requires i < HIGH_TABLES && j < 512
  {
    Entry((i * 0x4000_0000 + j * 0x20_0000) / PAGE_SIZE, LARGE | KERNEL_ACCESS)
  }

  /** Entry i of the j-th low PML1 table: LARGE_PAGE_SIZE * j + PAGE_SIZE * i. */
  function LowEntry(j: nat, i: nat): Entry
    requires j < LOW_TABLES && i < 512
  {
    Entry((0x20_0000 * j + PAGE_SIZE * i) / PAGE_SIZE, KERNEL_ACCESS)
  }

  /** The static tables follow each other in the order mm.c:28-36 declares them. */
  predicate InOrder(l: Layout) {
    && l.highPml4 < l.highPml3 < l.highPml2s
    && l.highPml2s + HIGH_TABLES <= l.lowPml4s
    && l.lowPml4s + 2 <= l.lowPml2s
    && l.lowPml2s + LOW_TABLES <= l.heapPml3 < l.heapPml2 < l.heapPml1
    && l.heapPml1 + BITMAP_TABLES <= TWO_TO_40
  }

  predicate Static(l: Layout, f: nat) {
    || f == l.highPml4 || f == l.highPml3 || l.highPml2s <= f < l.highPml2s + HIGH_TABLES
    || l.lowPml4s <= f < l.lowPml4s + 2 || l.lowPml2s <= f < l.lowPml2s + LOW_TABLES
    || f == l.heapPml3 || f == l.heapPml2 || l.heapPml1 <= f < l.heapPml1 + BITMAP_TABLES
  }

  /** Entry k of static table f once mmu_init is done. */
  function BootEntry(l: Layout, p: Plan, f: nat, k: nat): Entry
    requires InOrder(l) && Fits(p) && Static(l, f) && k < 512
  {
    if f == l.highPml4 then
      if k == 511 then Points(l.highPml3, KERNEL_ACCESS)
      else if k == 510 then Points(l.heapPml3, KERNEL_ACCESS)
      else if k == 0 then Points(l.lowPml4s, USER_ACCESS)
      else NO_ENTRY
    else if f == l.highPml3 then
      if k < HIGH_TABLES then Points(l.highPml2s + k, KERNEL_ACCESS) else NO_ENTRY
    else if f < l.lowPml4s then HighEntry(f - l.highPml2s, k)
    else if f == l.lowPml4s then
      if k == 0 then Points(l.lowPml4s + 1, USER_ACCESS) else NO_ENTRY
    else if f == l.lowPml4s + 1 then
      if k < p.lowTables then Points(l.lowPml2s + k, KERNEL_ACCESS) else NO_ENTRY
    else if f < l.heapPml3 then
      if f - l.lowPml2s < p.lowTables && (f, k) != (l.lowPml2s, 0) then LowEntry(f - l.lowPml2s, k) else NO_ENTRY
    else if f == l.heapPml3 then
      if k == 0 then Points(l.heapPml2, KERNEL_ACCESS) else NO_ENTRY
    else if f == l.heapPml2 then
      if k < BITMAP_TABLES then Points(l.heapPml1 + k, KERNEL_ACCESS) else NO_ENTRY
    else
      var n := (f - l.heapPml1) * 512 + k;
      if n < p.bitmapPages then Points(p.bitmapFrame + n, KERNEL_ACCESS) else NO_ENTRY
  }

  /** The static tables hold their boot entries; every other frame is as it was. */
  ghost predicate Built(l: Layout, p: Plan, mem0: Memory, mem: Memory)
    requires InOrder(l) && Fits(p)
  {
    forall f: nat, k: nat {:trigger TableAt(mem, f)[k]} :: k < 512 ==>
      TableAt(mem, f)[k] == if Static(l, f) then BootEntry(l, p, f, k) else TableAt(mem0, f)[k]
  }

  // ---------- Filling the tables

  /** mm.c:227-229: one PML2 table of large pages. */
  method FillHigh(mem0: Memory, f: nat, i: nat) returns (mem: Memory)
    requires i < HIGH_TABLES
    ensures forall g: nat, k: nat {:trigger TableAt(mem, g)[k]} :: k < 512 ==>
      TableAt(mem, g)[k] == if g == f then HighEntry(i, k) else TableAt(mem0, g)[k]
  {
    mem := mem0;
    var j := 0;
    while j < 512
      invariant 0 <= j <= 512
      invariant forall g: nat, k: nat {:trigger TableAt(mem, g)[k]} :: k < 512 ==>
        TableAt(mem, g)[k] == if g == f && k < j then HighEntry(i, k) else TableAt(mem0, g)[k]
    {
      ghost var before := mem;
      mem := WithEntry(mem, f, j, HighEntry(i, j));
      EntriesAfter(before, f, j, HighEntry(i, j));
      j := j + 1;
    }
  }

  lemma EntriesAfter(mem: Memory, f: nat, i: nat, e: Entry)
    requires i < 512
    ensures var mem' := WithEntry(mem, f, i, e);
      forall g: nat, k: nat {:trigger TableAt(mem', g)[k]} :: k < 512 ==>
        TableAt(mem', g)[k] == if g == f && k == i then e else TableAt(mem, g)[k]
  {}

  /** mm.c:225-230: the direct map of 64 GiB. */
  method MapHigh(l: Layout, mem0: Memory) returns (mem: Memory)
    requires InOrder(l)
    ensures forall g: nat, k: nat {:trigger TableAt(mem, g)[k]} :: k < 512 ==>
      TableAt(mem, g)[k] ==
        if g == l.highPml3 && k < HIGH_TABLES then Points(l.highPml2s + k, KERNEL_ACCESS)
        else if l.highPml2s <= g < l.highPml2s + HIGH_TABLES then HighEntry(g - l.highPml2s, k)
        else TableAt(mem0, g)[k]
  {
    hide WithEntry, HighEntry;
    mem := mem0;
    var i := 0;
    while i < HIGH_TABLES
      invariant 0 <= i <= HIGH_TABLES
      invariant forall g: nat, k: nat {:trigger TableAt(mem, g)[k]} :: k < 512 ==>
        TableAt(mem, g)[k] ==
          if g == l.highPml3 && k < i then Points(l.highPml2s + k, KERNEL_ACCESS)
          else if l.highPml2s <= g < l.highPml2s + i then HighEntry(g - l.highPml2s, k)
          else TableAt(mem0, g)[k]
    {
      EntriesAfter(mem, l.highPml3, i, Points(l.highPml2s + i, KERNEL_ACCESS));
      mem := WithEntry(mem, l.highPml3, i, Points(l.highPml2s + i, KERNEL_ACCESS));
      mem := FillHigh(mem, l.highPml2s + i, i);
      i := i + 1;
    }
  }

  /** mm.c:242-243: one PML1 table of low memory. */
  method FillLow(mem0: Memory, f: nat, j: nat) returns (mem: Memory)
    requires j < LOW_TABLES
    ensures forall g: nat, k: nat {:trigger TableAt(mem, g)[k]} :: k < 512 ==>
      TableAt(mem, g)[k] == if g == f then LowEntry(j, k) else TableAt(mem0, g)[k]
  {
    mem := mem0;
    var i := 0;
    while i < 512
      invariant 0 <= i <= 512
      invariant forall g: nat, k: nat {:trigger TableAt(mem, g)[k]} :: k < 512 ==>
        TableAt(mem, g)[k] == if g == f && k < i then LowEntry(j, k) else TableAt(mem0, g)[k]
    {
      ghost var before := mem;
      mem := WithEntry(mem, f, i, LowEntry(j, i));
      EntriesAfter(before, f, i, LowEntry(j, i));
      i := i + 1;
    }
  }

  /** mm.c:240-244: low memory mapped to itself. */
  method MapLow(l: Layout, lowTables: nat, mem0: Memory) returns (mem: Memory)
    requires InOrder(l) && lowTables <= LOW_TABLES
    ensures forall g: nat, k: nat {:trigger TableAt(mem, g)[k]} :: k < 512 ==>
      TableAt(mem, g)[k] ==
        if g == l.lowPml4s + 1 && k < lowTables then Points(l.lowPml2s + k, KERNEL_ACCESS)
        else if l.lowPml2s <= g < l.lowPml2s + lowTables then LowEntry(g - l.lowPml2s, k)
        else TableAt(mem0, g)[k]
  {
    hide WithEntry, LowEntry;
    mem := mem0;
    var j := 0;
    while j < lowTables
      invariant 0 <= j <= lowTables
      invariant forall g: nat, k: nat {:trigger TableAt(mem, g)[k]} :: k < 512 ==>
        TableAt(mem, g)[k] ==
          if g == l.lowPml4s + 1 && k < j then Points(l.lowPml2s + k, KERNEL_ACCESS)
          else if l.lowPml2s <= g < l.lowPml2s + j then LowEntry(g - l.lowPml2s, k)
          else TableAt(mem0, g)[k]
    {
      EntriesAfter(mem, l.lowPml4s + 1, j, Points(l.lowPml2s + j, KERNEL_ACCESS));
      mem := WithEntry(mem, l.lowPml4s + 1, j, Points(l.lowPml2s + j, KERNEL_ACCESS));
      mem := FillLow(mem, l.lowPml2s + j, j);
      j := j + 1;
    }
  }

  /** mm.c:264-265: the allocator's bitmap at the start of the heap region. */
  method MapBitmap(l: Layout, p: Plan, mem0: Memory) returns (mem: Memory)
    requires InOrder(l) && Fits(p)
    ensures forall g: nat, k: nat {:trigger TableAt(mem, g)[k]} :: k < 512 ==>
      TableAt(mem, g)[k] ==
        if l.heapPml1 <= g < l.heapPml1 + BITMAP_TABLES && (g - l.heapPml1) * 512 + k < p.bitmapPages
        then Points(p.bitmapFrame + ((g - l.heapPml1) * 512 + k), KERNEL_ACCESS)
        else TableAt(mem0, g)[k]
  {
    hide WithEntry;
    mem := mem0;
    var i := 0;
    while i < p.bitmapPages
      invariant 0 <= i <= p.bitmapPages
      invariant forall g: nat, k: nat {:trigger TableAt(mem, g)[k]} :: k < 512 ==>
        TableAt(mem, g)[k] ==
          if l.heapPml1 <= g < l.heapPml1 + BITMAP_TABLES && (g - l.heapPml1) * 512 + k < i
          then Points(p.bitmapFrame + ((g - l.heapPml1) * 512 + k), KERNEL_ACCESS)
          else TableAt(mem0, g)[k]
    {
      EntriesAfter(mem, l.heapPml1 + i / 512, i % 512, Points(p.bitmapFrame + i, KERNEL_ACCESS));
      mem := WithEntry(mem, l.heapPml1 + i / 512, i % 512, Points(p.bitmapFrame + i, KERNEL_ACCESS));
      i := i + 1;
    }
  }

  /** The frames of the high, low and heap tables below the PML4. */
  predicate HighPart(l: Layout, f: nat) {
    f == l.highPml3 || l.highPml2s <= f < l.highPml2s + HIGH_TABLES
  }

  predicate LowPart(l: Layout, f: nat) {
    l.lowPml4s <= f < l.lowPml4s + 2 || l.lowPml2s <= f < l.lowPml2s + LOW_TABLES
  }

  predicate HeapPart(l: Layout, f: nat) {
    f == l.heapPml3 || f == l.heapPml2 || l.heapPml1 <= f < l.heapPml1 + BITMAP_TABLES
  }

  ghost predicate BlankStatic(l: Layout, mem: Memory) {
    forall f: nat, k: nat {:trigger TableAt(mem, f)[k]} :: Static(l, f) && k < 512 ==> TableAt(mem, f)[k] == NO_ENTRY
  }

  /** mm.c:221-230 */
  method BuildHigh(l: Layout, p: Plan, mem0: Memory) returns (mem: Memory)
    requires InOrder(l) && Fits(p) && BlankStatic(l, mem0)
    ensures forall g: nat, k: nat {:trigger TableAt(mem, g)[k]} :: k < 512 ==>
      TableAt(mem, g)[k] ==
        if HighPart(l, g) || (g == l.highPml4 && k != 0) then BootEntry(l, p, g, k) else TableAt(mem0, g)[k]
  {
    hide WithEntry, HighEntry;
    EntriesAfter(mem0, l.highPml4, 511, Points(l.highPml3, KERNEL_ACCESS));
    mem := WithEntry(mem0, l.highPml4, 511, Points(l.highPml3, KERNEL_ACCESS));
    EntriesAfter(mem, l.highPml4, 510, Points(l.heapPml3, KERNEL_ACCESS));
    mem := WithEntry(mem, l.highPml4, 510, Points(l.heapPml3, KERNEL_ACCESS));
    mem := MapHigh(l, mem);
  }

  /** mm.c:233-249 */
  method BuildLow(l: Layout, p: Plan, mem0: Memory) returns (mem: Memory)
    requires InOrder(l) && Fits(p)
    requires forall f: nat, k: nat {:trigger TableAt(mem0, f)[k]} ::
      LowPart(l, f) && k < 512 ==> TableAt(mem0, f)[k] == NO_ENTRY
    ensures forall g: nat, k: nat {:trigger TableAt(mem, g)[k]} :: k < 512 ==>
      TableAt(mem, g)[k] ==
        if LowPart(l, g) || (g == l.highPml4 && k == 0) then BootEntry(l, p, g, k) else TableAt(mem0, g)[k]
  {
    hide WithEntry, LowEntry;
    EntriesAfter(mem0, l.lowPml4s, 0, Points(l.lowPml4s + 1, USER_ACCESS));
    mem := WithEntry(mem0, l.lowPml4s, 0, Points(l.lowPml4s + 1, USER_ACCESS));
    mem := MapLow(l, p.lowTables, mem);
    EntriesAfter(mem, l.lowPml2s, 0, NO_ENTRY);
    mem := WithEntry(mem, l.lowPml2s, 0, NO_ENTRY);
    EntriesAfter(mem, l.highPml4, 0, Points(l.lowPml4s, USER_ACCESS));
    mem := WithEntry(mem, l.highPml4, 0, Points(l.lowPml4s, USER_ACCESS));
  }

  /** mm.c:256-265 */
  method BuildHeap(l: Layout, p: Plan, mem0: Memory) returns (mem: Memory)
    requires InOrder(l) && Fits(p)
    requires forall f: nat, k: nat {:trigger TableAt(mem0, f)[k]} ::
      HeapPart(l, f) && k < 512 ==> TableAt(mem0, f)[k] == NO_ENTRY
    ensures forall g: nat, k: nat {:trigger TableAt(mem, g)[k]} :: k < 512 ==>
      TableAt(mem, g)[k] == if HeapPart(l, g) then BootEntry(l, p, g, k) else TableAt(mem0, g)[k]
  {
    hide WithEntry;
    EntriesAfter(mem0, l.heapPml3, 0, Points(l.heapPml2, KERNEL_ACCESS));
    mem := WithEntry(mem0, l.heapPml3, 0, Points(l.heapPml2, KERNEL_ACCESS));
    EntriesAfter(mem, l.heapPml2, 0, Points(l.heapPml1, KERNEL_ACCESS));
    mem := WithEntry(mem, l.heapPml2, 0, Points(l.heapPml1, KERNEL_ACCESS));
    EntriesAfter(mem, l.heapPml2, 1, Points(l.heapPml1 + 1, KERNEL_ACCESS));
    mem := WithEntry(mem, l.heapPml2, 1, Points(l.heapPml1 + 1, KERNEL_ACCESS));
    EntriesAfter(mem, l.heapPml2, 2, Points(l.heapPml1 + 2, KERNEL_ACCESS));
    mem := WithEntry(mem, l.heapPml2, 2, Points(l.heapPml1 + 2, KERNEL_ACCESS));
    mem := MapBitmap(l, p, mem);
  }

  /** mm.c:218-265 on zeroed static tables. */
  method BuildTables(l: Layout, p: Plan, mem0: Memory) returns (mem: Memory)
    requires InOrder(l) && Fits(p) && BlankStatic(l, mem0)
    ensures Built(l, p, mem0, mem)
  {
    hide BootEntry;
    mem := BuildHigh(l, p, mem0);
    mem := BuildLow(l, p, mem);
    mem := BuildHeap(l, p, mem);
  }
}
