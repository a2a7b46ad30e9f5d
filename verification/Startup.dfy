/** mmu_init as a whole: tables, frame allocator and heap, ready for every later sbrk. */
module Startup {
  import opened Pages
  import opened PageEntries
  import opened Paging
  import opened PageTree
  import opened Frames
  import opened AddressSpace
  import opened HeapGrowth
  import opened Boot
  import opened BootProofs

  /** What mmu_init derives from the memory size, the kernel's end and the address line 236 uses. */
  function PlanFor(memsize: nat, kernelEnd: nat, end: nat): Plan {
    Plan(LowTables(end), RoundUp(MetadataSize(memsize)) / PAGE_SIZE, RoundUp(kernelEnd) / PAGE_SIZE)
  }

  /** The machine mmu_init starts on: under 4 GiB of memory that holds the kernel and its tables,
      an end address its low tables can map, and no leftover table entries past the kernel. */
  ghost predicate CanBoot(l: Layout, memsize: nat, kernelEnd: nat, end: nat, mem0: Memory) {
    && memsize / PAGE_SIZE < 0x10_0000 && end <= 0x400_0000
    && InOrder(l) && (l.heapPml1 + BITMAP_TABLES) * PAGE_SIZE <= kernelEnd <= Scanned(memsize / PAGE_SIZE) * PAGE_SIZE
    && BlankStatic(l, mem0)
    && forall f: nat :: f * PAGE_SIZE >= RoundUp(kernelEnd) ==> Vacant(mem0, f)
  }

  /** The numbers the allocator and the heap are set up with are in range. */
  lemma BootNumbers(l: Layout, memsize: nat, kernelEnd: nat, end: nat, mem0: Memory)
    requires CanBoot(l, memsize, kernelEnd, end, mem0)
    ensures var p, n := PlanFor(memsize, kernelEnd, end), memsize / PAGE_SIZE;
      && Fits(p) && memsize < TWO_TO_64 && n % Frames.TWO_TO_32 == n < 0x10_0000
      && n <= 8 * (p.bitmapPages * PAGE_SIZE)
      && RoundUp(kernelEnd) + p.bitmapPages * PAGE_SIZE + PAGE_SIZE <= TWO_TO_64
      && p.bitmapPages <= BITMAP_PAGES
      && InOrder(l) && BlankStatic(l, mem0)
  {
    hide InOrder, BlankStatic, Vacant;
  }

  /** The heap starts right behind the bitmap, inside its region. */
  lemma HeapStartIsAligned(bitmapPages: nat)
    requires bitmapPages <= BITMAP_PAGES
    ensures var heapStart := KERNEL_HEAP_START + bitmapPages * PAGE_SIZE;
      heapStart % PAGE_SIZE == 0 && heapStart <= KERNEL_HEAP_START + BITMAP_PAGES * PAGE_SIZE
  {}

  /** Below 4 GiB the marks are exactly the frames up to the bitmap's end. */
  lemma InitReserves(n: nat, firstFreePage: nat, used: set<nat>)
    requires n < 0x10_0000 && Reserves(n, firstFreePage, used)
    ensures forall f: nat :: f < Scanned(n) ==> (f in used <==> f * PAGE_SIZE < firstFreePage + n / 8)
  {}

  /** Right after the bitmap is set up, the tables stand on frames in use and the rest is vacant. */
  lemma BootIsSound(l: Layout, memsize: nat, kernelEnd: nat, end: nat, mem0: Memory, mem: Memory, used: set<nat>)
    requires CanBoot(l, memsize, kernelEnd, end, mem0) && Fits(PlanFor(memsize, kernelEnd, end))
    requires Built(l, PlanFor(memsize, kernelEnd, end), mem0, mem)
    requires Reserves(memsize / PAGE_SIZE, RoundUp(kernelEnd), used)
    ensures Sound(used, mem, l.highPml4, BootOwner(l))
  {
    BootIsTree(l, PlanFor(memsize, kernelEnd, end), mem0, mem);
    hide Tree, Built, Fits, RoundUp, Scanned, Reserves, BlankStatic, BootOwner, Vacant;
    TablesAreReserved(l, memsize, kernelEnd, end, mem0, used);
    forall f: nat | f !in used
      ensures Vacant(mem, f)
    {
      UnusedIsAbove(memsize, kernelEnd, used, f);
      StaticBelow(l, kernelEnd, f);
      StaysVacant(l, PlanFor(memsize, kernelEnd, end), mem0, mem, f);
    }
  }

  lemma UnusedIsAbove(memsize: nat, kernelEnd: nat, used: set<nat>, f: nat)
    requires memsize / PAGE_SIZE < 0x10_0000 && kernelEnd <= Scanned(memsize / PAGE_SIZE) * PAGE_SIZE
    requires Reserves(memsize / PAGE_SIZE, RoundUp(kernelEnd), used) && f !in used
    ensures f * PAGE_SIZE >= RoundUp(kernelEnd)
  {
    hide Reserves;
    InitReserves(memsize / PAGE_SIZE, RoundUp(kernelEnd), used);
  }

  lemma TablesAreReserved(l: Layout, memsize: nat, kernelEnd: nat, end: nat, mem0: Memory, used: set<nat>)
    requires CanBoot(l, memsize, kernelEnd, end, mem0)
    requires Reserves(memsize / PAGE_SIZE, RoundUp(kernelEnd), used)
    ensures BootOwner(l).Keys <= used
  {
    hide RoundUp, BlankStatic, Vacant, Scanned, Reserves;
    InitReserves(memsize / PAGE_SIZE, RoundUp(kernelEnd), used);
    forall f | f in BootOwner(l).Keys
      ensures f in used
    {
      assert Static(l, f);
    }
  }

  lemma StaticBelow(l: Layout, kernelEnd: nat, f: nat)
    requires InOrder(l) && (l.heapPml1 + BITMAP_TABLES) * PAGE_SIZE <= kernelEnd <= f * PAGE_SIZE
    ensures !Static(l, f)
  {}

  lemma StaysVacant(l: Layout, p: Plan, mem0: Memory, mem: Memory, f: nat)
    requires InOrder(l) && Fits(p) && Built(l, p, mem0, mem) && !Static(l, f) && Vacant(mem0, f)
    ensures Vacant(mem, f)
  {}

  /** What the kernel relies on being mapped, and writable: low memory to itself up to the 16 MiB its end
      rounds up to, but not page zero; 64 GiB at the direct map; the bitmap at the heap region's start. */
  ghost predicate BootMapped(mem: Memory, root: nat, memsize: nat, kernelEnd: nat, end: nat) {
    && (forall v: nat :: PAGE_SIZE <= v < LowEnd(end) ==>
      TranslateVia(mem, root, v) == v && CanWrite(mem, root, 4, PageOf(v)))
    && (forall v: nat :: v < PAGE_SIZE ==> TranslateVia(mem, root, v) >= TWO_TO_64 - 4)
    && (forall p: nat :: p < 0x10_0000_0000 ==>
      TranslateVia(mem, root, ToVirt(p)) == p && CanWrite(mem, root, 4, PageOf(ToVirt(p))))
    && (forall v: nat :: KERNEL_HEAP_START <= v < KERNEL_HEAP_START + RoundUp(MetadataSize(memsize)) ==>
      TranslateVia(mem, root, v) == RoundUp(kernelEnd) + (v - KERNEL_HEAP_START) && CanWrite(mem, root, 4, PageOf(v)))
  }

  lemma PlanIs(memsize: nat, kernelEnd: nat, end: nat)
    ensures var p := PlanFor(memsize, kernelEnd, end);
      && p.lowTables * 0x20_0000 == LowEnd(end)
      && p.bitmapPages * PAGE_SIZE == RoundUp(MetadataSize(memsize))
      && p.bitmapFrame * PAGE_SIZE == RoundUp(kernelEnd)
  {
    hide LowTables, LowEnd, MetadataSize;
    LowTablesFitIff(end);
  }

  /** The boot tables map it, and so do they after any growth of the heap. */
  lemma BootMaps(l: Layout, memsize: nat, kernelEnd: nat, end: nat, mem0: Memory, mem: Memory, mem': Memory)
    requires InOrder(l) && Fits(PlanFor(memsize, kernelEnd, end))
    requires Built(l, PlanFor(memsize, kernelEnd, end), mem0, mem)
    requires HeapGrew(l, PlanFor(memsize, kernelEnd, end), mem, mem')
    ensures BootMapped(mem', l.highPml4, memsize, kernelEnd, end)
  {
    hide Built, TranslateVia, CanWrite, PageOf, ToVirt, InOrder, Fits, HeapGrew, RoundUp, LowEnd, PlanFor;
    var p := PlanFor(memsize, kernelEnd, end);
    PlanIs(memsize, kernelEnd, end);
    forall v: nat | PAGE_SIZE <= v < LowEnd(end)
      ensures TranslateVia(mem', l.highPml4, v) == v && CanWrite(mem', l.highPml4, 4, PageOf(v))
    {
      LowIdentitySurvives(l, p, mem0, mem, mem', v);
    }
    forall v: nat | v < PAGE_SIZE
      ensures TranslateVia(mem', l.highPml4, v) >= TWO_TO_64 - 4
    {
      PageZeroSurvives(l, p, mem0, mem, mem', v);
    }
    forall q: nat | q < 0x10_0000_0000
      ensures TranslateVia(mem', l.highPml4, ToVirt(q)) == q && CanWrite(mem', l.highPml4, 4, PageOf(ToVirt(q)))
    {
      DirectMapSurvives(l, p, mem0, mem, mem', q);
    }
    forall v: nat | KERNEL_HEAP_START <= v < KERNEL_HEAP_START + RoundUp(MetadataSize(memsize))
      ensures TranslateVia(mem', l.highPml4, v) == RoundUp(kernelEnd) + (v - KERNEL_HEAP_START)
      ensures CanWrite(mem', l.highPml4, 4, PageOf(v))
    {
      BitmapSurvives(l, p, mem0, mem, mem', v - KERNEL_HEAP_START);
    }
  }

  lemma NothingGrew(l: Layout, p: Plan, mem: Memory)
    ensures HeapGrew(l, p, mem, mem)
  {}

  /** The heap it leaves is empty, everything below the first free page and the bitmap is reserved,
      and all that HeapSpace.Valid promises of later growth holds. */
  method MmuInit(l: Layout, memsize: nat, kernelEnd: nat, end: nat, mem0: Memory, bitmap: array<bv8>)
    returns (heap: HeapSpace)
    requires CanBoot(l, memsize, kernelEnd, end, mem0)
    requires bitmap.Length == RoundUp(MetadataSize(memsize))
    modifies bitmap
    ensures Fits(PlanFor(memsize, kernelEnd, end))
    ensures BootMapped(heap.space.mem, l.highPml4, memsize, kernelEnd, end)
    ensures heap.Valid() && heap.heapFrames == [] && heap.space.root == l.highPml4
    ensures Built(l, PlanFor(memsize, kernelEnd, end), mem0, heap.space.mem)
    ensures heap.heapStart == KERNEL_HEAP_START + RoundUp(MetadataSize(memsize))
    ensures fresh(heap) && fresh(heap.space) && fresh(heap.space.alloc) && heap.space.alloc.frames == bitmap
    ensures forall f: nat :: f < Scanned(memsize / PAGE_SIZE) ==>
      (f in heap.reserved <==> f * PAGE_SIZE < RoundUp(kernelEnd) + memsize / PAGE_SIZE / 8)
  {
    hide Tree, Built, Used, Sound, Growable, WalkOf, RoundUp, PlanFor, Limit, Fits, Reserves, CanBoot, Scanned;
    hide InOrder, BlankStatic, BootOwner, PageOf, Backed, BootMapped, HeapGrew, MetadataSize;
    PlanIs(memsize, kernelEnd, end);
    var plan := PlanFor(memsize, kernelEnd, end);
    BootNumbers(l, memsize, kernelEnd, end, mem0);
    var mem := BuildTables(l, plan, mem0);
    var firstFreePage := RoundUp(kernelEnd);
    var alloc := new FrameAllocator(bitmap, firstFreePage, memsize);
    InitReserves(memsize / PAGE_SIZE, firstFreePage, alloc.InUse());
    BootIsSound(l, memsize, kernelEnd, end, mem0, mem, alloc.InUse());
    BootIsGrowable(l, plan, mem0, mem);
    NothingGrew(l, plan, mem);
    BootMaps(l, memsize, kernelEnd, end, mem0, mem, mem);
    HeapStartIsAligned(plan.bitmapPages);
    var space := new AddressSpace(alloc, l.highPml4, mem, BootOwner(l));
    heap := new HeapSpace(space, KERNEL_HEAP_START + plan.bitmapPages * PAGE_SIZE, alloc.InUse());
  }

  /** mmu_init and then any run of sbrk: the heap grows as SbrkRun says, and everything the kernel
      relies on stays mapped. */
  method InitAndGrow(l: Layout, memsize: nat, kernelEnd: nat, end: nat, mem0: Memory, bitmap: array<bv8>,
                     incrs: seq<nat>)
    returns (heap: HeapSpace, served: nat)
    requires CanBoot(l, memsize, kernelEnd, end, mem0)
    requires bitmap.Length == RoundUp(MetadataSize(memsize))
    requires forall i :: 0 <= i < |incrs| ==> incrs[i] < TWO_TO_64
    modifies bitmap
    ensures heap.Valid() && served <= |incrs| && BootMapped(heap.space.mem, l.highPml4, memsize, kernelEnd, end)
    ensures if served < |incrs| then heap.space.alloc.Exhausted()
            else heap.heapEnd == KERNEL_HEAP_START + RoundUp(MetadataSize(memsize)) + PagesForAll(incrs) * PAGE_SIZE
  {
    hide Tree, Built, Used, Sound, Growable, WalkOf, RoundUp, PlanFor, Fits, CanBoot, Scanned, KeptOutside, PagesForAll;
    hide InOrder, BlankStatic, PageOf, Backed, Private, BootMapped, HeapGrew, MetadataSize, FreeFrames;
    BootNumbers(l, memsize, kernelEnd, end, mem0);
    PlanIs(memsize, kernelEnd, end);
    heap := MmuInit(l, memsize, kernelEnd, end, mem0, bitmap);
    ghost var plan, mem := PlanFor(memsize, kernelEnd, end), heap.space.mem;
    served := heap.SbrkRun(incrs);
    ghost var n := |heap.heapFrames|;
    HeapHasRoom(heap.heapFrames, heap.space.alloc.InUse(), heap.space.owner, heap.reserved, heap.space.alloc.nframes);
    GrowthIsHeaps(l, plan, mem, heap.space.mem, heap.heapStart, 0, n);
    BootMaps(l, memsize, kernelEnd, end, mem0, mem, heap.space.mem);
  }
}
