/** sbrk of kmalloc.c: the heap's pages and the frames behind them. */
module HeapGrowth {
  import opened Options
  import opened Pages
  import opened PageEntries
  import opened Paging
  import opened PageTree
  import opened Frames
  import opened AddressSpace
  import opened Mappings

  const KERNEL_HEAP_START: nat := 0xFFFF_FF00_0000_0000
  /** Page number of KERNEL_HEAP_START, and how many pages lie below the direct map. */
  const HEAP_FIRST_PAGE: nat := 0xF_F000_0000
  const HEAP_PAGES: nat := 0x800_0000
  /** Entries of the three PML1 tables set aside for the bitmap. */
  const BITMAP_PAGES: nat := 1536

  lemma PageOfHeap(virt: nat)
    requires KERNEL_HEAP_START <= virt < HIGH_MAP_REGION
    ensures PageOf(virt) == HEAP_FIRST_PAGE + (virt - KERNEL_HEAP_START) / PAGE_SIZE
    ensures PageOf(virt) < HEAP_FIRST_PAGE + HEAP_PAGES
  {}

  /** The numbers below n. */
  ghost function Range(n: nat): (r: set<nat>)
    ensures |r| == n && forall k: nat :: k in r <==> k < n
  {
    if n == 0 then {} else Range(n - 1) + {n - 1}
  }

  ghost function Elements(s: seq<nat>): (r: set<nat>)
    ensures forall k :: k in r <==> k in s
    ensures Distinct(s) ==> |r| == |s|
  {
    if s == [] then {} else {s[0]} + Elements(s[1..])
  }

  /** Distinct numbers below n are at most n many. */
  lemma DistinctBounded(s: seq<nat>, n: nat)
    requires Distinct(s) && forall i :: 0 <= i < |s| ==> s[i] < n
    ensures |s| <= n
  {
    SubsetSize(Elements(s), Range(n));
  }

  lemma {:induction false} SubsetSize(a: set<nat>, b: set<nat>)
    requires a <= b
    ensures |a| <= |b|
  {
    if a != {} {
      var x :| x in a;
      SubsetSize(a - {x}, b - {x});
    }
  }

  predicate InHeapRegion(page: nat) {
    HEAP_FIRST_PAGE <= page < HEAP_FIRST_PAGE + HEAP_PAGES
  }

  /** No page of the heap region is part of a huge page or below a read-only table. */
  ghost predicate Growable(mem: Memory, root: nat) {
    forall w: nat :: InHeapRegion(w) ==> !WalkOf(mem, root, w).Large? && TablesWritable(mem, root, 4, w)
  }

  /** Page first + k is mapped to frames[k], and can be written. */
  ghost predicate Backed(mem: Memory, root: nat, first: nat, frames: seq<nat>) {
    forall k: nat :: k < |frames| ==> MapsTo(mem, root, first + k, frames[k])
  }

  predicate MapsTo(mem: Memory, root: nat, page: nat, frame: nat) {
    var w := WalkOf(mem, root, page);
    w.Leaf? && w.entry.address == frame && CanWrite(mem, root, 4, page)
  }

  /** The frames are distinct, in use, and hold neither page tables nor reserved memory. */
  ghost predicate Private(frames: seq<nat>, used: set<nat>, owner: Owner, reserved: set<nat>, nframes: nat) {
    && Distinct(frames)
    && reserved <= used
    && forall k :: 0 <= k < |frames| ==>
      frames[k] in used && frames[k] !in owner && frames[k] !in reserved && frames[k] < nframes
  }

  lemma PrivateAfter(frames: seq<nat>, f: nat, used: set<nat>, used': set<nat>, owner: Owner, owner': Owner,
                     reserved: set<nat>, nframes: nat)
    requires Private(frames, used, owner, reserved, nframes) && f !in used && f !in owner && f < nframes
    requires TablesAdded(used + {f}, used', owner, owner')
    ensures Private(frames + [f], used', owner', reserved, nframes)
    ensures Private(frames, used', owner', reserved, nframes)
  {}

  lemma BackedAfter(mem: Memory, mem': Memory, root: nat, first: nat, frames: seq<nat>, f: nat)
    requires Backed(mem, root, first, frames) && first + |frames| < PAGES
    requires ExtendedBut(root, mem, mem', first + |frames|)
    ensures Backed(mem', root, first, frames)
    ensures MapsTo(mem', root, first + |frames|, f) <==> Backed(mem', root, first, frames + [f])
  {
    hide WalkOf, CanWrite, TablesWritable;
    forall k: nat | k < |frames|
      ensures MapsTo(mem', root, first + k, frames[k])
    {
      assert MapsTo(mem, root, first + k, frames[k]) && Kept(root, mem, mem', first + k);
    }
    if Backed(mem', root, first, frames + [f]) {
      assert (frames + [f])[|frames|] == f;
    }
  }

  lemma GrowableAfter(mem: Memory, mem': Memory, root: nat, page: nat)
    requires Growable(mem, root) && ExtendedBut(root, mem, mem', page)
    requires InHeapRegion(page) ==> !WalkOf(mem', root, page).Large? && TablesWritable(mem', root, 4, page)
    ensures Growable(mem', root)
  {
    hide WalkOf, CanWrite, TablesWritable;
    forall w: nat | InHeapRegion(w)
      ensures !WalkOf(mem', root, w).Large? && TablesWritable(mem', root, 4, w)
    {
      assert w != page ==> Kept(root, mem, mem', w);
    }
  }

  /** No page but those from lo up to hi is mapped differently, or newly, or loses its write access. */
  ghost predicate KeptOutside(root: nat, mem: Memory, mem': Memory, lo: nat, hi: nat) {
    forall w: nat :: w < PAGES && !(lo <= w < hi) ==> Kept(root, mem, mem', w)
  }

  lemma OutsideAfter(root: nat, mem: Memory, mem': Memory, page: nat)
    requires ExtendedBut(root, mem, mem', page)
    ensures KeptOutside(root, mem, mem', page, page + 1)
    ensures Extended(root, mem, mem') ==> KeptOutside(root, mem, mem', page, page)
  {
    hide WalkOf;
  }

  lemma OutsideTrans(root: nat, a: Memory, b: Memory, c: Memory, lo: nat, mid: nat, hi: nat)
    requires KeptOutside(root, a, b, lo, mid) && KeptOutside(root, b, c, mid, hi) && lo <= mid <= hi
    ensures KeptOutside(root, a, c, lo, hi)
  {
    hide WalkOf;
    forall w: nat | w < PAGES && !(lo <= w < hi)
      ensures Kept(root, a, c, w)
    {
      assert Kept(root, a, b, w) && Kept(root, b, c, w);
    }
  }

  lemma OutsideSelf(root: nat, mem: Memory, page: nat)
    ensures KeptOutside(root, mem, mem, page, page)
  {}

  /** What a mapping of the page behind the heap, done or given up, leaves of the heap. */
  lemma PageAdded(mem: Memory, mem': Memory, root: nat, first: nat, frames: seq<nat>, f: nat, ok: bool)
    requires Backed(mem, root, first, frames) && Growable(mem, root)
    requires var page := first + |frames|;
      && page < PAGES && InHeapRegion(page) && ExtendedBut(root, mem, mem', page)
      && (TablesWritable(mem, root, 4, page) ==> TablesWritable(mem', root, 4, page))
      && (if ok then WalkOf(mem', root, page).Leaf? && CanWrite(mem', root, 4, page) else Extended(root, mem, mem'))
    ensures Backed(mem', root, first, frames) && Growable(mem', root)
    ensures var page := first + |frames|;
      && KeptOutside(root, mem, mem', page, if ok then page + 1 else page)
      && (ok ==> (Backed(mem', root, first, frames + [f]) <==> WalkOf(mem', root, page).entry.address == f))
  {
    hide WalkOf, CanWrite, TablesWritable, ExtendedBut, Backed, Growable, KeptOutside;
    var page := first + |frames|;
    GrowableAt(mem, root, page);
    if !ok {
      assert Kept(root, mem, mem', page);
    }
    BackedAfter(mem, mem', root, first, frames, f);
    GrowableAfter(mem, mem', root, page);
    OutsideAfter(root, mem, mem', page);
  }

  /** The pages sbrk maps for an increment, a 64-bit sum. */
  function PagesFor(incr: nat): nat {
    (incr + PAGE_SIZE - 1) % TWO_TO_64 / PAGE_SIZE
  }

  function PagesForAll(incrs: seq<nat>): nat {
    if incrs == [] then 0 else PagesFor(incrs[0]) + PagesForAll(incrs[1..])
  }

  class HeapSpace {
    const space: AddressSpace
    const heapStart: nat
    /** Frames whose memory is spoken for before the heap exists. */
    ghost const reserved: set<nat>
    var heapEnd: nat
    /** The frame behind each heap page. */
    ghost var heapFrames: seq<nat>

    ghost predicate Valid()
      reads this, space, space.alloc, space.alloc.frames
    {
      && space.Valid() && Laid()
      && Private(heapFrames, space.alloc.InUse(), space.owner, reserved, space.alloc.nframes)
    }

    /** The heap's pages are mapped, each to its frame, and more can follow. */
    ghost predicate Laid()
      reads this, space
    {
      && heapStart % PAGE_SIZE == 0
      && KERNEL_HEAP_START <= heapStart <= KERNEL_HEAP_START + BITMAP_PAGES * PAGE_SIZE
      && heapEnd == heapStart + |heapFrames| * PAGE_SIZE
      && Growable(space.mem, space.root)
      && Backed(space.mem, space.root, PageOf(heapStart), heapFrames)
    }

    /** Of all pages, only those of the heap that are new since then have changed. */
    twostate predicate OnlyNewPages()
      reads this, space
    {
      var first := PageOf(heapStart);
      KeptOutside(space.root, old(space.mem), space.mem, first + |old(heapFrames)|, first + |heapFrames|)
    }

    /** kheap_allocator_init: an empty heap. */
    constructor (space: AddressSpace, heapStart: nat, ghost reserved: set<nat>)
      requires space.Valid() && Growable(space.mem, space.root) && reserved <= space.alloc.InUse()
      requires heapStart % PAGE_SIZE == 0
      requires KERNEL_HEAP_START <= heapStart <= KERNEL_HEAP_START + BITMAP_PAGES * PAGE_SIZE
      ensures Valid() && heapFrames == [] && heapEnd == heapStart
      ensures this.space == space && this.heapStart == heapStart && this.reserved == reserved
    {
      this.space, this.heapStart, this.reserved := space, heapStart, reserved;
      heapEnd, heapFrames := heapStart, [];
    }

    /** kmalloc.c:49: map the page behind the heap to frame f. */
    method MapNext(line75: Line75, f: Frame) returns (ok: bool)
      requires space.Valid() && Laid() && |heapFrames| < 0x10_0000
      modifies space, space.alloc.frames, space.alloc`unavailable
      ensures space.Valid() && Laid()
      ensures TablesAdded(old(space.alloc.InUse()), space.alloc.InUse(), old(space.owner), space.owner)
      ensures ok ==> (Backed(space.mem, space.root, PageOf(heapStart), heapFrames + [f]) <==>
                      line75 == FrameNumber || f == 0)
      ensures !ok ==> space.alloc.Exhausted() && old(space.alloc.Free()) < 3
      ensures space.alloc.Free() + 3 >= old(space.alloc.Free())
      ensures var page := PageOf(heapStart) + |heapFrames|;
        KeptOutside(space.root, old(space.mem), space.mem, page, if ok then page + 1 else page)
    {
      hide Used, WalkOf, Sound, Backed, Growable, Extended, ExtendedBut, TablesAdded, KeptOutside, FreeFrames;
      hide CanWrite, TablesWritable, PageOf, InHeapRegion, Stored, Mark;
      HeapEndPage(heapStart, |heapFrames|);
      GrowableAt(space.mem, space.root, PageOf(heapEnd));
      ok := space.MapAddr(line75, heapEnd, f * PAGE_SIZE, WRITABLE);
      StoredIsRightIff(line75, f * PAGE_SIZE);
      PageAdded(old(space.mem), space.mem, space.root, PageOf(heapStart), heapFrames, f, ok);
    }

    /** kmalloc.c:44-50: one more page, on a frame that was free; false only when the frames run out.
        The page maps to its own frame exactly with line 75 of mm.c corrected, or if that is frame 0. */
    method GrowPage(line75: Line75) returns (ok: bool)
      requires Valid()
      modifies this, space, space.alloc.frames, space.alloc`unavailable
      ensures ok ==>
        && heapEnd == old(heapEnd) + PAGE_SIZE && |heapFrames| == |old(heapFrames)| + 1
        && var f := heapFrames[|old(heapFrames)|];
           && heapFrames == old(heapFrames) + [f] && f !in old(space.alloc.InUse())
           && (Valid() <==> line75 == FrameNumber || f == 0)
      ensures !ok ==> Valid() && heapEnd == old(heapEnd) && heapFrames == old(heapFrames)
      ensures !ok ==> space.alloc.Exhausted() && old(space.alloc.Free()) < 4
      ensures space.alloc.Free() + 4 >= old(space.alloc.Free())
      ensures OnlyNewPages()
    {
      hide Used, Sound, Backed, Private, Growable, TablesAdded, KeptOutside, FreeFrames, PageOf, Mark, Admits;
      LimitAdmitsAllIff(space.alloc.nframes);
      ghost var used, owner := space.alloc.InUse(), space.owner;
      HeapHasRoom(heapFrames, used, owner, reserved, space.alloc.nframes);
      OutsideSelf(space.root, space.mem, PageOf(heapStart) + |heapFrames|);
      var page := space.alloc.PageAlloc(NO_ENTRY, WRITABLE);
      if page.None? {
        return false;
      }
      ghost var f := page.value.address;
      SoundAfterAlloc(used, space.mem, space.root, owner, f);
      ok := MapNext(line75, page.value.address);
      PrivateAfter(heapFrames, f, used, space.alloc.InUse(), owner, space.owner, reserved, space.alloc.nframes);
      if ok {
        heapEnd := heapEnd + PAGE_SIZE;
        heapFrames := heapFrames + [f];
      }
    }

    /** sbrk: grow by whole pages; None only when the frames run out on the way, which four free frames
        for each page rule out. */
    method Sbrk(incr: nat) returns (oldEnd: Option<nat>)
      requires Valid() && incr < TWO_TO_64
      modifies this, space, space.alloc.frames, space.alloc`unavailable
      ensures Valid() && old(heapFrames) <= heapFrames && OnlyNewPages()
      ensures oldEnd.None? ==> incr > 0 && space.alloc.Exhausted() && old(space.alloc.Free()) < 4 * PagesFor(incr)
      ensures space.alloc.Free() + 4 * PagesFor(incr) >= old(space.alloc.Free())
      ensures oldEnd.Some? ==> oldEnd.value == old(heapEnd) && heapEnd == old(heapEnd) + PagesFor(incr) * PAGE_SIZE
    {
      hide Used, WalkOf, Sound, Backed, Private, Growable, KeptOutside, FreeFrames;
      OutsideSelf(space.root, space.mem, PageOf(heapStart) + |heapFrames|);
      if incr == 0 {
        return Some(heapEnd);
      }
      var before := heapEnd;
      var pages := (incr + PAGE_SIZE - 1) % TWO_TO_64 / PAGE_SIZE;
      var i := 0;
      while i < pages
        invariant Valid() && 0 <= i <= pages && heapEnd == before + i * PAGE_SIZE
        invariant old(heapFrames) <= heapFrames && OnlyNewPages()
        invariant space.alloc.Free() + 4 * i >= old(space.alloc.Free())
      {
        ghost var mem, n := space.mem, |heapFrames|;
        var ok := GrowPage(FrameNumber);
        ghost var first := PageOf(heapStart);
        OutsideTrans(space.root, old(space.mem), mem, space.mem,
                     first + |old(heapFrames)|, first + n, first + |heapFrames|);
        if !ok {
          return None;
        }
        i := i + 1;
      }
      return Some(before);
    }

    /** Any run of sbrk calls, up to the first that finds no frame. */
    method SbrkRun(incrs: seq<nat>) returns (served: nat)
      requires Valid() && forall i :: 0 <= i < |incrs| ==> incrs[i] < TWO_TO_64
      modifies this, space, space.alloc.frames, space.alloc`unavailable
      ensures Valid() && old(heapFrames) <= heapFrames && served <= |incrs|
      ensures OnlyNewPages()
      ensures served < |incrs| ==>
        incrs[served] > 0 && space.alloc.Exhausted() && old(space.alloc.Free()) < 4 * PagesForAll(incrs)
      ensures served == |incrs| ==> heapEnd == old(heapEnd) + PagesForAll(incrs) * PAGE_SIZE
    {
      hide Used, WalkOf, Sound, Backed, Private, Growable, KeptOutside, FreeFrames, PagesFor;
      OutsideSelf(space.root, space.mem, PageOf(heapStart) + |heapFrames|);
      served := 0;
      while served < |incrs|
        invariant Valid() && 0 <= served <= |incrs| && old(heapFrames) <= heapFrames
        invariant OnlyNewPages()
        invariant space.alloc.Free() + 4 * PagesForAll(incrs) >=
          old(space.alloc.Free()) + 4 * PagesForAll(incrs[served..])
        invariant heapEnd + PagesForAll(incrs[served..]) * PAGE_SIZE == old(heapEnd) + PagesForAll(incrs) * PAGE_SIZE
      {
        ghost var mem, n := space.mem, |heapFrames|;
        assert incrs[served..][1..] == incrs[served + 1..];
        var oldEnd := Sbrk(incrs[served]);
        ghost var first := PageOf(heapStart);
        OutsideTrans(space.root, old(space.mem), mem, space.mem,
                     first + |old(heapFrames)|, first + n, first + |heapFrames|);
        if oldEnd.None? {
          return;
        }
        served := served + 1;
      }
    }
  }

  /** Each heap address translates into its own page's frame, so pages never share memory. */
  lemma HeapTranslates(mem: Memory, root: nat, heapStart: nat, frames: seq<nat>, k: nat, off: nat)
    requires heapStart % PAGE_SIZE == 0 && k < |frames| < 0x10_0000 && off < PAGE_SIZE
    requires KERNEL_HEAP_START <= heapStart <= KERNEL_HEAP_START + BITMAP_PAGES * PAGE_SIZE
    requires Backed(mem, root, PageOf(heapStart), frames)
    ensures TranslateVia(mem, root, heapStart + k * PAGE_SIZE + off) == frames[k] * PAGE_SIZE + off
  {
    hide TranslateVia, WalkOf, CanWrite;
    var virt := heapStart + k * PAGE_SIZE + off;
    PageOfHeap(heapStart);
    PageOfHeap(virt);
    assert MapsTo(mem, root, PageOf(heapStart) + k, frames[k]);
    MappedTranslates(mem, root, PageOf(heapStart) + k, frames[k], virt);
  }

  /** There are fewer frames than pages in the heap region, so the heap never meets the direct map. */
  lemma HeapHasRoom(frames: seq<nat>, used: set<nat>, owner: Owner, reserved: set<nat>, nframes: nat)
    requires Private(frames, used, owner, reserved, nframes) && nframes < 0x10_0000
    ensures |frames| < 0x10_0000
  {
    DistinctBounded(frames, nframes);
  }

  lemma HeapEndPage(heapStart: nat, n: nat)
    requires heapStart % PAGE_SIZE == 0 && n < 0x10_0000
    requires KERNEL_HEAP_START <= heapStart <= KERNEL_HEAP_START + BITMAP_PAGES * PAGE_SIZE
    ensures (heapStart + n * PAGE_SIZE) % PAGE_SIZE == 0
    ensures PageOf(heapStart + n * PAGE_SIZE) == PageOf(heapStart) + n < PAGES
    ensures InHeapRegion(PageOf(heapStart) + n)
  {
    PageOfHeap(heapStart);
    PageOfHeap(heapStart + n * PAGE_SIZE);
  }

  lemma GrowableAt(mem: Memory, root: nat, page: nat)
    requires Growable(mem, root) && InHeapRegion(page)
    ensures !WalkOf(mem, root, page).Large? && TablesWritable(mem, root, 4, page)
  {}

  lemma SoundAfterAlloc(used: set<nat>, mem: Memory, root: nat, owner: Owner, f: nat)
    requires Sound(used, mem, root, owner) && f !in used
    ensures Sound(used + {f}, mem, root, owner) && f !in owner
  {}
}
