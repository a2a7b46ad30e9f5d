/** The allocator's bytes and the pages behind them: kmalloc and kfree on the heap that sbrk maps. */
module HeapBacking {
  import Words
  import opened Pages
  import opened PageEntries
  import opened Paging
  import opened PageTree
  import opened Frames
  import opened HeapGrowth
  import HeapSpec
  import HeapRuns
  import HeapMemory
  import KernelHeap

  /** The frame and offset behind a heap address. */
  lemma HeapAddress(mem: Memory, root: nat, heapStart: nat, frames: seq<nat>, x: nat)
    requires heapStart % PAGE_SIZE == 0 && |frames| < 0x10_0000
    requires KERNEL_HEAP_START <= heapStart <= KERNEL_HEAP_START + BITMAP_PAGES * PAGE_SIZE
    requires Backed(mem, root, PageOf(heapStart), frames)
    requires heapStart <= x < heapStart + |frames| * PAGE_SIZE
    ensures var k, off := (x - heapStart) / PAGE_SIZE, (x - heapStart) % PAGE_SIZE;
      k < |frames| && TranslateVia(mem, root, x) == frames[k] * PAGE_SIZE + off
  {
    hide TranslateVia, Backed, PageOf;
    var k, off := (x - heapStart) / PAGE_SIZE, (x - heapStart) % PAGE_SIZE;
    HeapTranslates(mem, root, heapStart, frames, k, off);
  }

  /** Different heap addresses are different places in physical memory. */
  lemma HeapIsInjective(mem: Memory, root: nat, heapStart: nat, frames: seq<nat>, x: nat, y: nat)
    requires heapStart % PAGE_SIZE == 0 && |frames| < 0x10_0000
    requires KERNEL_HEAP_START <= heapStart <= KERNEL_HEAP_START + BITMAP_PAGES * PAGE_SIZE
    requires Backed(mem, root, PageOf(heapStart), frames) && Distinct(frames)
    requires heapStart <= x < heapStart + |frames| * PAGE_SIZE
    requires heapStart <= y < heapStart + |frames| * PAGE_SIZE
    ensures TranslateVia(mem, root, x) == TranslateVia(mem, root, y) <==> x == y
  {
    hide TranslateVia, Backed, PageOf;
    HeapAddress(mem, root, heapStart, frames, x);
    HeapAddress(mem, root, heapStart, frames, y);
  }

  /** No byte of physical memory lies in two live blocks. */
  ghost predicate NoSharedMemory(h: HeapSpec.Heap, mem: Memory, root: nat) {
    forall b: nat, c: nat, x: nat, y: nat ::
      HeapRuns.Owns(h, b, x) && HeapRuns.Owns(h, c, y) && HeapSpec.IsLive(h, b) && HeapSpec.IsLive(h, c) && b != c ==>
        TranslateVia(mem, root, x) != TranslateVia(mem, root, y)
  }

  /** No heap byte lies in a page table or in memory reserved before the heap. */
  ghost predicate Sheltered(h: HeapSpec.Heap, mem: Memory, root: nat, owner: Owner, reserved: set<nat>) {
    forall x: nat :: h.start <= x < h.end ==>
      var f := TranslateVia(mem, root, x) / PAGE_SIZE; f !in owner && f !in reserved
  }

  /** The allocator's heap lies on the mapped pages. */
  ghost predicate Backs(a: KernelHeap.Allocator, s: HeapSpace)
    reads a, s, s.space, s.space.alloc, s.space.alloc.frames
  {
    a.Valid() && s.Valid() && a.start == s.heapStart && a.end <= s.heapEnd
  }

  lemma RegionsApart(h: HeapSpec.Heap, b: nat, c: nat, x: nat, y: nat)
    requires HeapSpec.Valid(h) && HeapRuns.Owns(h, b, x) && HeapRuns.Owns(h, c, y) && b != c
    ensures x != y && h.start <= x < h.end && h.start <= y < h.end
  {}

  lemma BackedSharesNothing(a: KernelHeap.Allocator, s: HeapSpace)
    requires Backs(a, s)
    ensures NoSharedMemory(a.heap, s.space.mem, s.space.root)
  {
    hide TranslateVia, Backed, PageOf, HeapSpec.Valid, HeapRuns.Owns, HeapMemory.Headers, HeapMemory.Links;
    HeapHasRoom(s.heapFrames, s.space.alloc.InUse(), s.space.owner, s.reserved, s.space.alloc.nframes);
    forall b: nat, c: nat, x: nat, y: nat | HeapRuns.Owns(a.heap, b, x) && HeapRuns.Owns(a.heap, c, y) && b != c
      ensures TranslateVia(s.space.mem, s.space.root, x) != TranslateVia(s.space.mem, s.space.root, y)
    {
      RegionsApart(a.heap, b, c, x, y);
      HeapIsInjective(s.space.mem, s.space.root, s.heapStart, s.heapFrames, x, y);
    }
  }

  lemma FrameOf(f: nat, off: nat)
    requires off < PAGE_SIZE
    ensures (f * PAGE_SIZE + off) / PAGE_SIZE == f
  {}

  lemma BackedIsSheltered(a: KernelHeap.Allocator, s: HeapSpace)
    requires Backs(a, s)
    ensures Sheltered(a.heap, s.space.mem, s.space.root, s.space.owner, s.reserved)
  {
    hide TranslateVia, Backed, PageOf, HeapSpec.Valid, HeapMemory.Headers, HeapMemory.Links;
    HeapHasRoom(s.heapFrames, s.space.alloc.InUse(), s.space.owner, s.reserved, s.space.alloc.nframes);
    forall x: nat | a.heap.start <= x < a.heap.end
      ensures var f := TranslateVia(s.space.mem, s.space.root, x) / PAGE_SIZE; f !in s.space.owner && f !in s.reserved
    {
      HeapAddress(s.space.mem, s.space.root, s.heapStart, s.heapFrames, x);
      FrameOf(s.heapFrames[(x - s.heapStart) / PAGE_SIZE], (x - s.heapStart) % PAGE_SIZE);
    }
  }

  /** sbrk's 64-bit rounding is exact for what fits below the limit. */
  lemma PagesAreRounded(end: nat, incr: nat, limit: nat)
    requires KERNEL_HEAP_START <= end && end + RoundUp(incr) <= limit < TWO_TO_64
    ensures incr < TWO_TO_64 && PagesFor(incr) * PAGE_SIZE == RoundUp(incr)
  {}

  /** One operation, after sbrk has mapped the pages it needs; false, with the allocator untouched,
      only when the frames run out. */
  method Perform(a: KernelHeap.Allocator, s: HeapSpace, op: HeapRuns.Op, contents: nat -> Words.Byte) returns (ok: bool)
    requires Backs(a, s) && a.end == s.heapEnd && HeapRuns.Legal(a.total, a.heap, op)
    requires KernelHeap.HasRoom(a.limit, a.total, a.heap, op)
    modifies a, s, s.space, s.space.alloc.frames, s.space.alloc`unavailable
    ensures Backs(a, s)
    ensures ok ==> a.end == s.heapEnd && a.heap == HeapRuns.Step(a.total, old(a.heap), op)
    ensures !ok ==> a.heap == old(a.heap) && s.space.alloc.Exhausted()
  {
    hide HeapSpec.Valid, HeapMemory.Represents, HeapRuns.Step, HeapRuns.Legal, HeapSpec.Grows, RoundUp, PagesFor;
    hide Backed, Private, Growable, PageOf, Used;
    KernelHeap.IsValidHeap(a.heap, a.mem, a.head);
    KernelHeap.ListsAll(a.heap);
    HeapRuns.StepEnd(a.total, a.heap, op);
    if op.Kmalloc? {
      var grows := a.NeedsPages(op.size);
      if grows {
        PagesAreRounded(a.end, op.size + HeapSpec.HEADER, a.limit);
        var oldEnd := s.Sbrk(op.size + HeapSpec.HEADER);
        if oldEnd.None? {
          return false;
        }
      }
    }
    a.Perform(op, contents, map[]);
    return true;
  }

  /** Any legal run on the heap kheap_allocator_init leaves, up to the first operation that finds no
      frame: the allocator computes what was served of the run, live blocks share no memory, and none
      of them lies in a page table or in reserved memory. */
  method RunBacked(s: HeapSpace, total: nat, limit: nat, ops: seq<HeapRuns.Op>, contents: nat -> Words.Byte)
    returns (a: KernelHeap.Allocator, served: nat)
    requires s.Valid() && s.heapFrames == [] && s.heapStart <= limit < TWO_TO_64
    requires HeapRuns.LegalRun(total, HeapRuns.Empty(s.heapStart), ops)
    requires KernelHeap.RoomFor(limit, total, HeapRuns.Empty(s.heapStart), ops)
    modifies s, s.space, s.space.alloc.frames, s.space.alloc`unavailable
    ensures served <= |ops| && Backs(a, s)
    ensures a.heap == HeapRuns.Run(total, HeapRuns.Empty(s.heapStart), ops[..served])
    ensures if served < |ops| then s.space.alloc.Exhausted() else a.end == s.heapEnd
    ensures NoSharedMemory(a.heap, s.space.mem, s.space.root)
    ensures Sheltered(a.heap, s.space.mem, s.space.root, s.space.owner, s.reserved)
  {
    hide HeapSpec.Valid, HeapMemory.Represents, HeapRuns.Step, HeapRuns.Legal, KernelHeap.HasRoom, HeapRuns.Run;
    hide Backed, Private, Growable, PageOf, NoSharedMemory, Sheltered, Used;
    a := new KernelHeap.Allocator(s.heapStart, total, limit);
    ghost var start := HeapRuns.Empty(s.heapStart);
    served := 0;
    NothingRun(total, start);
    while served < |ops|
      invariant 0 <= served <= |ops| && Backs(a, s) && a.end == s.heapEnd
      invariant fresh(a) && a.total == total && a.limit == limit
      invariant HeapRuns.LegalRun(total, a.heap, ops[served..])
      invariant KernelHeap.RoomFor(limit, total, a.heap, ops[served..])
      invariant a.heap == HeapRuns.Run(total, start, ops[..served])
    {
      assert ops[served..][0] == ops[served] && ops[served..][1..] == ops[served + 1..];
      assert ops[..served + 1] == ops[..served] + [ops[served]];
      HeapRuns.RunAppend(total, start, ops[..served], ops[served]);
      var ok := Perform(a, s, ops[served], contents);
      if !ok {
        break;
      }
      served := served + 1;
    }
    BackedSharesNothing(a, s);
    BackedIsSheltered(a, s);
  }

  lemma NothingRun(total: nat, h: HeapSpec.Heap)
    ensures HeapRuns.Run(total, h, []) == h
  {}
}
