/** kmalloc.c over the heap's bytes: the allocator's globals and its in-place list surgery. */
module KernelHeap {
  import opened Words
  import opened Pages
  import opened HeapSpec
  import opened HeapProofs
  import opened HeapMemory
  import HeapRuns

  class Allocator {
    const start: nat
    /** What mmu_total_memory reports, an arbitrary bound here. */
    const total: nat
    /** The address the heap must not grow past. */
    const limit: nat
    var end: nat
    /** free_block_list, 0 for NULL. */
    var head: nat
    /** The bytes of [start, end). */
    var mem: seq<Byte>
    ghost var heap: Heap

    ghost predicate Valid()
      reads this
    {
      heap.start == start && heap.end == end <= limit < TWO_TO_64 && Represents(heap, mem, head)
    }

    /** kheap_allocator_init */
    constructor (start: nat, total: nat, limit: nat)
      requires 0 < start <= limit < TWO_TO_64
      ensures Valid() && heap == HeapRuns.Empty(start)
      ensures this.start == start && this.total == total && this.limit == limit
    {
      this.start, this.total, this.limit := start, total, limit;
      end, head, mem := start, 0, [];
      heap := HeapRuns.Empty(start);
    }

    /** The 64-bit word at address a. */
    function Word(a: nat): nat
      requires start <= a && a + 8 - start <= |mem|
      reads this
    {
      Load(mem, a - start)
    }

    /** Write the 64-bit word at address a. */
    method SetWord(a: nat, v: nat)
      requires start <= a && a + 8 - start <= |mem|
      modifies `mem
      ensures mem == Store(old(mem), a - start, v)
    {
      mem := Store(mem, a - start, v);
    }

    /** sbrk, with `contents` the contents of the pages it maps at the heap's end. */
    method Sbrk(incr: nat, contents: nat -> Byte) returns (oldEnd: nat)
      requires |mem| == end - start && start <= end
      modifies `mem, `end
      ensures oldEnd == old(end) && end == oldEnd + RoundUp(incr)
      ensures |mem| == end - start && Grown(old(mem), mem)
    {
      oldEnd := end;
      var pages := (incr + PAGE_SIZE - 1) / PAGE_SIZE;
      var i := 0;
      while i < pages
        invariant 0 <= i <= pages && end == oldEnd + i * PAGE_SIZE
        invariant |mem| == end - start && Grown(old(mem), mem)
      {
        mem := mem + seq(PAGE_SIZE, (x: nat) => contents(i * PAGE_SIZE + x));
        end := end + PAGE_SIZE;
        i := i + 1;
      }
    }

    /** split_block: the block keeps `size` bytes if the rest can be a block; yields the next free one. */
    method SplitBlock(block: nat, size: nat) returns (next: nat)
      requires start <= block && block + 16 - start <= |mem| && Word(block) >= size
      requires Word(block) - size > BLOCK_T ==> block + 8 + size + 16 - start <= |mem|
      modifies `mem
      ensures if old(Word(block)) - size > BLOCK_T
              then mem == SplitMemory(old(mem), block - start, size) && next == block + 8 + size
              else mem == old(mem) && next == Load(mem, block + 8 - start)
      ensures |mem| == |old(mem)|
    {
      hide Load, Store;
      var rem := Word(block) - size;
      if rem > BLOCK_T {
        SetWord(block, size);
        var rem_block := block + 8 + size;
        SetWord(rem_block, rem - 8);
        SetWord(rem_block + 8, Word(block + 8));
        SetWord(block + 8, 0);
        return rem_block;
      }
      return Word(block + 8);
    }

    /** No live block's bytes differ from what they were, except those of `but`. */
    twostate predicate Keeps(but: nat)
      reads this
    {
      KeepsPayloads(old(heap), old(mem), mem, but)
    }

    /** Serve the i-th free block: split it and point list position i at what split_block returns. */
    method Serve(ghost i: nat, prev: nat, block: nat, size: nat)
      requires Valid() && i < |heap.free| && heap.free[i] == block && size <= Size(heap, block)
      requires size >= 8 || Size(heap, block) <= size + BLOCK_T
      requires prev == if i == 0 then 0 else heap.free[i - 1]
      modifies `mem, `head, `heap
      ensures Valid() && heap == Take(old(heap), i, size)
      ensures Keeps(0)
    {
      hide HeapSpec.Valid, Headers, Links, Load, Store, SplitMemory;
      BlockWords(heap, mem, head, i);
      if Size(heap, block) - size > BLOCK_T {
        SplitIsDone(heap, mem, i, size);
      }
      if i > 0 {
        ListedIsBlock(heap, i - 1);
      }
      var next := SplitBlock(block, size);
      ghost var split := mem;
      if prev == 0 {
        head := next;
      } else {
        SetWord(prev + 8, next);
      }
      ServeWrites(heap, old(mem), split, mem, old(head), head, i, size, prev, next);
      TakeRepresents(heap, old(mem), mem, old(head), head, i, size, prev);
      heap := Take(heap, i, size);
    }

    /** kmalloc.c:78-82 with line 80 corrected: make the new pages the one free block. */
    method RefillList(size: nat, contents: nat -> Byte)
      requires Valid() && heap.free == [] && size >= 8 && end + RoundUp(size + HEADER) <= limit
      modifies `mem, `end, `head, `heap
      ensures Valid() && heap == Refill(Corrected, old(heap), size)
      ensures Keeps(0) && SameLive(old(heap), heap)
    {
      hide HeapSpec.Valid, Headers, Links, Load, Store;
      head := Sbrk(size + HEADER, contents);
      ghost var pages := mem;
      SetWord(head, end - head - HEADER);
      ghost var sized := mem;
      SetWord(head + 8, 0);
      LoadStored(pages, head - start, end - head - HEADER);
      LoadOutside(sized, mem, head + 8 - start, head + 16 - start, head - start);
      LoadStored(sized, head + 8 - start, 0);
      RefillRepresents(heap, old(mem), mem, size);
      RefillLeavesLive(heap, size);
      heap := Refill(Corrected, heap, size);
    }

    /** kmalloc.c:114-118: a block of exactly `size` bytes on pages of its own. */
    method StartOwnBlock(size: nat, contents: nat -> Byte) returns (block: nat)
      requires Valid() && size >= 8 && end + RoundUp(size + HEADER) <= limit
      modifies `mem, `end, `heap
      ensures Valid() && heap == OwnBlock(old(heap), size) && block == old(end)
      ensures start <= block && block + 16 - start <= |mem| && Load(mem, block + 8 - start) == 0
      ensures Keeps(0)
    {
      hide HeapSpec.Valid, Headers, Links, Load, Store, RoundUp;
      block := Sbrk(size + HEADER, contents);
      ghost var pages := mem;
      SetWord(block, size);
      ghost var sized := mem;
      SetWord(block + 8, 0);
      LoadStored(pages, block - start, size);
      LoadOutside(sized, mem, block + 8 - start, block + 16 - start, block - start);
      LoadStored(sized, block + 8 - start, 0);
      OwnRepresents(heap, old(mem), mem, head, size);
      heap := OwnBlock(heap, size);
    }

    /** The first block from the second on that fits, with the block before it; 0 when none does. */
    method FindFit(size: nat) returns (prev: nat, block: nat, ghost i: nat)
      requires Valid() && heap.free != []
      ensures 0 < i <= |heap.free| && i == FirstFit(heap, size, 1)
      ensures prev == At(heap.free, FirstFit(heap, size, 1) - 1) && block == At(heap.free, FirstFit(heap, size, 1))
      ensures block == 0 <==> i == |heap.free|
    {
      hide HeapSpec.Valid, Headers, Links, Load;
      BlockWords(heap, mem, head, 0);
      prev, i := head, 1;
      block := Word(prev + 8);
      while block != 0
        invariant 0 < i <= |heap.free| && prev == heap.free[i - 1] && block == At(heap.free, i)
        invariant FirstFit(heap, size, i) == FirstFit(heap, size, 1)
        decreases |heap.free| - i
      {
        BlockWords(heap, mem, head, i);
        if Word(block) < size {
          prev := block;
          block := Word(block + 8);
          i := i + 1;
        } else {
          return;
        }
      }
      if i < |heap.free| {
        BlockWords(heap, mem, head, i);
      }
    }

    /** Whether kmalloc is going to call sbrk. */
    method NeedsPages(size: nat) returns (grows: bool)
      requires Valid()
      ensures grows <==> size <= total && Grows(heap, size)
    {
      hide HeapSpec.Valid, Headers, Links, Load;
      EmptyIffNull(heap, mem, head);
      if size > total || head == 0 {
        return size <= total;
      }
      BlockWords(heap, mem, head, 0);
      if Word(head) >= size {
        return false;
      }
      var prev, block;
      ghost var i;
      prev, block, i := FindFit(size);
      return block == 0;
    }

    /** kmalloc: yields the payload address, 0 when the request exceeds the memory bound.
        `contents` is what freshly mapped pages hold; mapping them needs room below the limit. */
    method Kmalloc(size: nat, contents: nat -> Byte) returns (ptr: nat)
      requires Valid() && (size <= total ==> Servable(heap, size))
      requires size <= total && Grows(heap, size) ==> end + RoundUp(size + HEADER) <= limit
      modifies `mem, `end, `head, `heap
      ensures Valid() && heap == HeapRuns.Step(total, old(heap), HeapRuns.Kmalloc(size))
      ensures ptr == if size > total then 0 else Served(old(heap), size) + HEADER
      ensures Keeps(0)
    {
      hide HeapSpec.Valid, Headers, Links, Load, Take;
      if size > total {
        return 0;
      }
      if head == 0 {
        if heap.free != [] {
          BlockWords(heap, mem, head, 0);
        }
        RefillList(size, contents);
      }
      ghost var filled, bytes := heap, mem;
      BlockWords(heap, mem, head, 0);
      if Word(head) >= size {
        ptr := head + HEADER;
        Serve(0, 0, head, size);
        KeepsTrans(old(heap), filled, old(mem), bytes, mem, 0);
        return;
      }
      var prev, block;
      ghost var i;
      prev, block, i := FindFit(size);
      if block != 0 {
        Serve(i, prev, block, size);
        return block + HEADER;
      }
      block := StartOwnBlock(size, contents);
      return block + HEADER;
    }

    method AreAdjacent(block: nat, next: nat, ghost i: nat) returns (adjacent: bool)
      requires Valid() && i < |heap.free| && heap.free[i] == block
      ensures block in heap.regions && adjacent == Adjacent(heap, block, next)
    {
      hide HeapSpec.Valid, Headers, Links, Load;
      BlockWords(heap, mem, head, i);
      adjacent := block + (Word(block) + 8) == next;
    }

    method CoalesceBlocks(block: nat, next: nat, ghost i: nat, ghost but: nat)
      requires Valid() && i + 1 < |heap.free| && heap.free[i] == block && heap.free[i + 1] == next
      requires block in heap.regions && Adjacent(heap, block, next)
      modifies `mem, `heap
      ensures Valid() && heap == Merge(old(heap), i)
      ensures start <= block && block + 16 - start <= |old(mem)| && start <= next && next + 16 - start <= |old(mem)|
      ensures mem == CoalesceMemory(old(mem), block - start, next - start)
      ensures Keeps(but) && SameLive(old(heap), heap)
    {
      hide HeapSpec.Valid, Headers, Links, Load, Store, KeepsPayloads;
      BlockWords(heap, mem, head, i);
      BlockWords(heap, mem, head, i + 1);
      CoalesceIsDone(heap, mem, head, i, but);
      ListsAll(heap);
      MergeLeavesLive(heap, i);
      SetWord(block, Word(block) + (Word(next) + 8));
      SetWord(block + 8, Word(next + 8));
      SetWord(next, 0);
      SetWord(next + 8, 0);
      MergeRepresents(heap, old(mem), mem, head, i);
      heap := Merge(heap, i);
    }

    /** Where the insertion loop of kfree stops. */
    method FindSlot(freed: nat) returns (prev: nat, block: nat, ghost k: nat)
      requires Valid() && |heap.free| >= 2
      ensures 0 < k == Position(heap.free, freed, 1)
      ensures prev == At(heap.free, Position(heap.free, freed, 1) - 1)
      ensures block == At(heap.free, Position(heap.free, freed, 1))
      ensures block == 0 <==> k == |heap.free|
    {
      hide HeapSpec.Valid, Headers, Links, Load;
      BlockWords(heap, mem, head, 0);
      prev, k := head, 1;
      block := Word(prev + 8);
      BlockWords(heap, mem, head, 1);
      while block < freed && block != 0
        invariant 0 < k <= |heap.free| && prev == heap.free[k - 1] && block == At(heap.free, k)
        invariant block == 0 <==> k == |heap.free|
        invariant Position(heap.free, freed, k) == Position(heap.free, freed, 1)
        decreases |heap.free| - k
      {
        BlockWords(heap, mem, head, k);
        prev := block;
        block := Word(block + 8);
        k := k + 1;
        if k < |heap.free| {
          BlockWords(heap, mem, head, k);
        }
      }
    }

    /** Block a is live, and its link word is cleared. */
    ghost predicate Returned(a: nat)
      reads this
    {
      && IsLive(heap, a) && start <= a && a + 16 - start <= |mem|
      && Load(mem, a + 8 - start) == 0
    }

    /** kmalloc.c:126-130 */
    method FreeIntoEmpty(freed: nat)
      requires Valid() && Returned(freed) && heap.free == []
      modifies `head, `heap
      ensures Valid() && heap == Release(old(heap), freed)
    {
      hide HeapSpec.Valid, Headers, Links, Load, KeepsPayloads;
      LinkIsDone(heap, mem, mem, mem, head, freed, freed, 0, 0);
      LinkRepresents(heap, mem, mem, head, freed, freed, 0, 0);
      head := freed;
      heap := Link(heap, freed, 0);
    }

    /** kmalloc.c:134-144: order the one free block and the freed one. */
    method LinkBesideOne(freed: nat) returns (left: nat, right: nat)
      requires Valid() && Returned(freed) && |heap.free| == 1
      modifies `mem, `head, `heap
      ensures Valid() && heap == Link(old(heap), freed, Slot(old(heap).free, freed))
      ensures heap.free == [left, right] && Keeps(freed)
    {
      hide HeapSpec.Valid, Headers, Links, Load, Store, KeepsPayloads;
      BlockWords(heap, mem, head, 0);
      ghost var k := if head < freed then 1 else 0;
      ListsAll(heap);
      LiveNotListed(heap, freed, 0);
      if head < freed {
        left, right := head, freed;
      } else {
        left, right := freed, head;
      }
      SetWord(left + 8, right);
      ghost var q := if k == 0 then 0 else left;
      LinkIsDone(heap, old(mem), if k == 0 then old(mem) else mem, mem, old(head), left, freed, k, q);
      LinkRepresents(heap, old(mem), mem, old(head), left, freed, k, q);
      head := left;
      heap := Link(heap, freed, k);
    }

    /** kmalloc.c:152-161: link the freed block in at the slot found. */
    method LinkAmongMany(freed: nat) returns (prev: nat, block: nat, ghost k: nat)
      requires Valid() && Returned(freed) && |heap.free| >= 2
      modifies `mem, `heap
      ensures Valid() && 0 < k == Slot(old(heap).free, freed)
      ensures heap == Link(old(heap), freed, k) && Keeps(freed)
      ensures prev == heap.free[k - 1] && block == At(heap.free, k + 1) && (block == 0 <==> k + 1 == |heap.free|)
    {
      hide HeapSpec.Valid, Headers, Links, Load, Store, KeepsPayloads;
      prev, block, k := FindSlot(freed);
      BlockWords(heap, mem, head, k - 1);
      SetWord(prev + 8, freed);
      ghost var linked := mem;
      SetWord(freed + 8, block);
      LinkIsDone(heap, old(mem), linked, mem, head, head, freed, k, prev);
      LinkRepresents(heap, old(mem), mem, head, head, freed, k, prev);
      heap := Link(heap, freed, k);
    }

    /** The chain of `Keeps` so far: no live block but the freed one has changed since h0 and m0. */
    ghost predicate KeptSince(h0: Heap, m0: seq<Byte>, freed: nat)
      reads this
    {
      && h0.start == heap.start && KeepsPayloads(h0, m0, mem, freed)
      && forall a :: IsLive(h0, a) && a != freed ==> a in heap.regions && heap.regions[a] == h0.regions[a]
    }

    /** kmalloc.c:145-146 and 163-168: merge list neighbours i and i + 1 if they touch. */
    method CoalesceIfAdjacent(block: nat, next: nat, ghost i: nat,
                              ghost h0: Heap, ghost m0: seq<Byte>, ghost freed: nat)
      requires Valid() && i + 1 < |heap.free| && heap.free[i] == block && heap.free[i + 1] == next
      requires KeptSince(h0, m0, freed)
      modifies `mem, `heap
      ensures Valid() && heap == Merge(old(heap), i) && KeptSince(h0, m0, freed)
    {
      hide HeapSpec.Valid, Headers, Links, Load, KeepsPayloads, Represents;
      var adjacent := AreAdjacent(block, next, i);
      if adjacent {
        CoalesceBlocks(block, next, i, freed);
        KeepsTrans(h0, old(heap), m0, old(mem), mem, freed);
      }
    }

    /** kmalloc.c:134-148 */
    method FreeBesideOne(freed: nat)
      requires Valid() && Returned(freed) && |heap.free| == 1
      modifies `mem, `head, `heap
      ensures Valid() && heap == Release(old(heap), freed) && Keeps(freed)
    {
      hide HeapSpec.Valid, Represents, Load, KeepsPayloads;
      var left, right := LinkBesideOne(freed);
      CoalesceIfAdjacent(left, right, 0, old(heap), old(mem), freed);
    }

    /** kmalloc.c:150-168 */
    method FreeAmongMany(freed: nat)
      requires Valid() && Returned(freed) && |heap.free| >= 2
      modifies `mem, `heap
      ensures Valid() && heap == Release(old(heap), freed) && Keeps(freed)
    {
      hide HeapSpec.Valid, Represents, Load, KeepsPayloads;
      var prev, block;
      ghost var k;
      prev, block, k := LinkAmongMany(freed);
      if block != 0 {
        CoalesceIfAdjacent(freed, block, k, old(heap), old(mem), freed);
      }
      CoalesceIfAdjacent(prev, freed, k - 1, old(heap), old(mem), freed);
    }

    /** kfree of a pointer kmalloc returned: no other live block changes a byte. */
    method Kfree(ptr: nat)
      requires Valid() && HEADER <= ptr && IsLive(heap, ptr - HEADER)
      modifies `mem, `head, `heap
      ensures Valid() && heap == HeapRuns.Step(total, old(heap), HeapRuns.Kfree(ptr - HEADER))
      ensures Keeps(ptr - HEADER)
    {
      hide HeapSpec.Valid, Headers, Links, Load, Store, KeepsPayloads, Release;
      var freed := ptr - HEADER;
      BlockInside(heap, freed);
      SetWord(freed + 8, 0);
      LoadStored(old(mem), freed + 8 - start, 0);
      PayloadIsCallers(heap, old(mem), mem, head, freed);
      ghost var cleared := mem;
      EmptyIffNull(heap, mem, head);
      if head == 0 {
        FreeIntoEmpty(freed);
        return;
      }
      BlockWords(heap, mem, head, 0);
      SingleIffNoNext(heap, mem, head);
      if Word(head + 8) == 0 {
        FreeBesideOne(freed);
      } else {
        FreeAmongMany(freed);
      }
      KeepsTrans(old(heap), old(heap), old(mem), cleared, mem, freed);
    }

    /** A caller's own write behind the header of a block it holds. */
    method Poke(block: nat, off: nat, data: Byte)
      requires Valid() && HeapRuns.Legal(total, heap, HeapRuns.Write(block, off, data))
      modifies `mem
      ensures Valid() && start <= block + off && block + off - start < |old(mem)|
      ensures mem == old(mem)[block + off - start := data] && Keeps(block)
    {
      hide HeapSpec.Valid, Headers, Links, Load, KeepsPayloads;
      BlockInside(heap, block);
      mem := mem[block + off - start := data];
      PayloadIsCallers(heap, old(mem), mem, head, block);
    }

    /** One operation of a run, and what it leaves of the bytes `w` known before it. */
    method Perform(op: HeapRuns.Op, contents: nat -> Byte, ghost w: map<nat, Byte>)
      requires Valid() && HeapRuns.Legal(total, heap, op) && HasRoom(limit, total, heap, op)
      requires Holds(heap, mem, w)
      modifies this
      ensures Valid() && heap == HeapRuns.Step(total, old(heap), op)
      ensures Holds(heap, mem, HeapRuns.WrittenStep(old(heap), op, w))
    {
      hide HeapSpec.Valid, Represents, Malloc, Release, KeepsPayloads, Holds;
      IsValidHeap(heap, mem, head);
      match op {
        case Kmalloc(size) =>
          var _ := Kmalloc(size, contents);
          HoldsAfterMalloc(old(heap), old(mem), mem, total, size, w);
        case Kfree(block) =>
          Kfree(block + HEADER);
          HoldsAfterFree(old(heap), old(mem), mem, block, w);
        case Write(block, off, data) =>
          Poke(block, off, data);
          HoldsAfterWrite(heap, old(mem), block, off, data, w);
      }
    }

    /** Any legal run of calls and writes that the memory can serve: the bytes end up representing the
        heap the run computes, and every byte of a live block is what its owner last wrote there, or
        what it was before the run. */
    method RunCalls(ops: seq<HeapRuns.Op>, contents: nat -> Byte)
      requires Valid() && HeapRuns.LegalRun(total, heap, ops) && RoomFor(limit, total, heap, ops)
      modifies this
      ensures Valid() && heap == HeapRuns.Run(total, old(heap), ops)
      ensures Holds(heap, mem, HeapRuns.Written(total, old(heap), ops, LiveBytes(old(heap), old(mem))))
      ensures HeldKept(old(heap), old(mem), heap, mem, ops)
    {
      hide HeapSpec.Valid, Represents, HeapRuns.Step, Holds, LiveBytes, HeldKept;
      var i := 0;
      ghost var before := LiveBytes(heap, mem);
      ghost var w := before;
      IsValidHeap(heap, mem, head);
      while i < |ops|
        invariant 0 <= i <= |ops| && Valid()
        invariant HeapRuns.LegalRun(total, heap, ops[i..]) && RoomFor(limit, total, heap, ops[i..])
        invariant HeapRuns.Run(total, heap, ops[i..]) == HeapRuns.Run(total, old(heap), ops)
        invariant Holds(heap, mem, w)
        invariant HeapRuns.Written(total, heap, ops[i..], w) == HeapRuns.Written(total, old(heap), ops, before)
      {
        assert ops[i..][0] == ops[i] && ops[i..][1..] == ops[i + 1..];
        ghost var h := heap;
        Perform(ops[i], contents, w);
        w := HeapRuns.WrittenStep(h, ops[i], w);
        i := i + 1;
      }
      HeldFromWritten(total, old(heap), old(mem), heap, mem, ops);
    }
  }

  lemma EmptyIffNull(h: Heap, m: seq<Byte>, head: nat)
    requires Represents(h, m, head)
    ensures head == 0 <==> h.free == []
  {}

  lemma SingleIffNoNext(h: Heap, m: seq<Byte>, head: nat)
    requires Represents(h, m, head) && h.free != []
    ensures At(h.free, 1) == 0 <==> |h.free| == 1
  {}

  lemma ListsAll(h: Heap)
    requires HeapSpec.Valid(h)
    ensures Listed(h)
  {}

  /** If the operation needs to grow the heap there is room below the limit. */
  predicate HasRoom(limit: nat, total: nat, h: Heap, op: HeapRuns.Op) {
    op.Kmalloc? && op.size <= total && Grows(h, op.size) ==> h.end + RoundUp(op.size + HEADER) <= limit
  }

  ghost predicate RoomFor(limit: nat, total: nat, h: Heap, ops: seq<HeapRuns.Op>)
    decreases |ops|
  {
    ops == [] || (HasRoom(limit, total, h, ops[0]) && RoomFor(limit, total, HeapRuns.Step(total, h, ops[0]), ops[1..]))
  }

  lemma IsValidHeap(h: Heap, m: seq<Byte>, head: nat)
    requires Represents(h, m, head)
    ensures HeapSpec.Valid(h) && !IsLive(h, 0) && |m| == h.end - h.start
  {}

  lemma HoldsAfterMalloc(h: Heap, m: seq<Byte>, m': seq<Byte>, total: nat, size: nat, w: map<nat, Byte>)
    requires HeapSpec.Valid(h) && !IsLive(h, 0) && Holds(h, m, w) && KeepsPayloads(h, m, m', 0)
    ensures Holds(HeapRuns.Step(total, h, HeapRuns.Kmalloc(size)), m', w)
  {
    hide KeepsPayloads, Holds, HeapSpec.Valid;
    MallocServes(h, size);
    HoldsAfter(h, m, w, HeapRuns.Step(total, h, HeapRuns.Kmalloc(size)), m', w, 0);
  }

  lemma HoldsAfterFree(h: Heap, m: seq<Byte>, m': seq<Byte>, a: nat, w: map<nat, Byte>)
    requires HeapSpec.Valid(h) && IsLive(h, a) && Holds(h, m, w) && KeepsPayloads(h, m, m', a)
    ensures Holds(Release(h, a), m', HeapRuns.WrittenStep(h, HeapRuns.Kfree(a), w))
  {
    hide KeepsPayloads, Holds, HeapSpec.Valid;
    ListsAll(h);
    ReleaseTakesOne(h, a);
    HoldsAfter(h, m, w, Release(h, a), m', HeapRuns.WrittenStep(h, HeapRuns.Kfree(a), w), a);
  }

  lemma HoldsAfterWrite(h: Heap, m: seq<Byte>, a: nat, off: nat, data: Byte, w: map<nat, Byte>)
    requires Holds(h, m, w) && IsLive(h, a) && a + off < h.regions[a].hi
    requires h.start <= a + off && a + off - h.start < |m|
    ensures Holds(h, m[a + off - h.start := data], w[a + off := data])
  {}

  predicate Writes(ops: seq<HeapRuns.Op>, x: nat) {
    exists i :: 0 <= i < |ops| && ops[i].Write? && ops[i].block + ops[i].off == x
  }

  /** Every block live in h0 that `ops` never frees has the same place and size in h, and every byte of
      it that `ops` never writes is the same. */
  ghost predicate HeldKept(h0: Heap, m0: seq<Byte>, h: Heap, m: seq<Byte>, ops: seq<HeapRuns.Op>) {
    forall a: nat, x: nat :: HeldByte(h0, m0, h, m, ops, a, x)
  }

  ghost predicate HeldByte(h0: Heap, m0: seq<Byte>, h: Heap, m: seq<Byte>, ops: seq<HeapRuns.Op>, a: nat, x: nat) {
    IsLive(h0, a) && a <= x < h0.regions[a].hi && HeapRuns.Kfree(a) !in ops ==>
      a in h.regions && h.regions[a] == h0.regions[a] && (Writes(ops, x) || SameByte(h0.start, m0, m, x))
  }

  ghost predicate SameByte(start: nat, m0: seq<Byte>, m: seq<Byte>, x: nat) {
    start <= x && x - start < |m| && x - start < |m0| && m[x - start] == m0[x - start]
  }

  /** A byte that no operation writes, in a block that none frees, stays known. */
  lemma {:induction false} UnwrittenKept(total: nat, h: Heap, ops: seq<HeapRuns.Op>, w: map<nat, Byte>, a: nat, x: nat)
    requires HeapSpec.Valid(h) && HeapRuns.LegalRun(total, h, ops)
    requires IsLive(h, a) && a <= x < h.regions[a].hi && x in w && HeapRuns.Kfree(a) !in ops
    ensures IsLive(HeapRuns.Run(total, h, ops), a) && HeapRuns.Run(total, h, ops).regions[a] == h.regions[a]
    ensures !Writes(ops, x) ==> var w' := HeapRuns.Written(total, h, ops, w); x in w' && w'[x] == w[x]
    decreases |ops|
  {
    hide HeapSpec.Valid, Malloc, Release;
    if ops != [] {
      var h' := HeapRuns.Step(total, h, ops[0]);
      HeapRuns.StepKeeps(total, h, ops[0]);
      match ops[0] {
        case Kmalloc(size) => MallocServes(h, size);
        case Kfree(b) =>
          ListsAll(h);
          ReleaseTakesOne(h, b);
          LiveApart(h, a, b);
        case Write(_, _, _) =>
      }
      UnwrittenKept(total, h', ops[1..], HeapRuns.WrittenStep(h, ops[0], w), a, x);
    }
  }

  lemma HeldFromWritten(total: nat, h0: Heap, m0: seq<Byte>, h: Heap, m: seq<Byte>, ops: seq<HeapRuns.Op>)
    requires HeapSpec.Valid(h0) && |m0| == h0.end - h0.start && HeapRuns.LegalRun(total, h0, ops)
    requires h == HeapRuns.Run(total, h0, ops) && Holds(h, m, HeapRuns.Written(total, h0, ops, LiveBytes(h0, m0)))
    ensures HeldKept(h0, m0, h, m, ops)
  {
    hide HeapRuns.Run, HeapRuns.Written, HeapRuns.LegalRun;
    HeapRuns.RunStart(total, h0, ops);
    forall a: nat, x: nat
      ensures HeldByte(h0, m0, h, m, ops, a, x)
    {
      if IsLive(h0, a) && a <= x < h0.regions[a].hi && HeapRuns.Kfree(a) !in ops {
        BlockInside(h0, a);
        assert InLive(h0, x);
        UnwrittenKept(total, h0, ops, LiveBytes(h0, m0), a, x);
      }
    }
  }

  lemma LiveApart(h: Heap, a: nat, b: nat)
    requires HeapSpec.Valid(h) && IsLive(h, a) && IsLive(h, b) && a != b
    ensures h.regions[a].hi <= b || h.regions[b].hi <= a
  {}
}
