/** page_alloc.c: the bitmap frame allocator. */
module Frames {
  import opened Options
  import opened Pages
  import opened PageEntries

  const TWO_TO_32: nat := 0x1_0000_0000

  /** page_free's address argument at page_alloc.c:105-109: the frame number as written, or its byte address. */
  datatype FreeBy = NumberAsAddress | ByteAddress

  // ---------- The bitmap as a set of frames

  /** (u8) 1 << off */
  function Mask(off: nat): bv8
    requires off < 8
  {
    match off
    case 0 => 1
    case 1 => 2
    case 2 => 4
    case 3 => 8
    case 4 => 16
    case 5 => 32
    case 6 => 64
    case _ => 128
  }

  predicate Bit(b: bv8, off: nat)
    requires off < 8
  {
    b & Mask(off) != 0
  }

  function Used(s: seq<bv8>): set<nat> {
    set f: nat | f < 8 * |s| && Bit(s[f / 8], f % 8)
  }

  lemma BitSetOr(b: bv8, i: nat, j: nat)
    requires i < 8 && j < 8
    ensures Bit(b | Mask(i), j) <==> i == j || Bit(b, j)
  {}

  lemma BitClearAnd(b: bv8, i: nat, j: nat)
    requires i < 8 && j < 8
    ensures Bit(b & !Mask(i), j) <==> i != j && Bit(b, j)
  {}

  lemma UsedBit(s: seq<bv8>, i: nat, j: nat)
    requires i < |s| && j < 8
    ensures 8 * i + j in Used(s) <==> Bit(s[i], j)
  {}

  lemma FullByteIsUsed(s: seq<bv8>, i: nat)
    requires i < |s| && s[i] == 0xFF
    ensures forall g: nat :: 8 * i <= g < 8 * i + 8 ==> g in Used(s)
  {}

  lemma UsedAfterSet(s: seq<bv8>, f: nat)
    requires f < 8 * |s|
    ensures Used(s[f / 8 := s[f / 8] | Mask(f % 8)]) == Used(s) + {f}
  {
    var s' := s[f / 8 := s[f / 8] | Mask(f % 8)];
    forall g: nat | g < 8 * |s|
      ensures g in Used(s') <==> g == f || g in Used(s)
    {
      BitSetOr(s[f / 8], f % 8, g % 8);
    }
  }

  lemma UsedAfterClear(s: seq<bv8>, f: nat)
    requires f < 8 * |s|
    ensures Used(s[f / 8 := s[f / 8] & !Mask(f % 8)]) == Used(s) - {f}
  {
    var s' := s[f / 8 := s[f / 8] & !Mask(f % 8)];
    forall g: nat | g < 8 * |s|
      ensures g in Used(s') <==> g != f && g in Used(s)
    {
      BitClearAnd(s[f / 8], f % 8, g % 8);
    }
  }

  /** nframes * PAGE_SIZE, a 32-bit product. */
  function Limit(nframes: nat): nat {
    nframes * PAGE_SIZE % TWO_TO_32
  }

  /** frame_set, frame_clear and frame_test act on this frame only if the wrapped product lets them. */
  predicate Admits(nframes: nat, frame: nat) {
    frame * PAGE_SIZE < Limit(nframes)
  }

  /** The bound check admits every frame exactly when memory is below 4 GiB. */
  lemma LimitAdmitsAllIff(nframes: nat)
    requires nframes < TWO_TO_32
    ensures (forall f: nat :: f < nframes ==> Admits(nframes, f)) <==> nframes < 0x10_0000
  {
    if nframes >= 0x10_0000 {
      assert !Admits(nframes, nframes - 1);
    }
  }

  /** The frame first_free_frame looks for: the least unused one among the whole bytes. */
  ghost predicate IsLeastFree(used: set<nat>, n: nat, f: nat) {
    f < n && f !in used && forall g: nat :: g < f ==> g in used
  }

  ghost predicate Distinct(s: seq<nat>) {
    forall i, j :: 0 <= i < j < |s| ==> s[i] != s[j]
  }

  /** Frames the byte-wise scan can see. */
  function Scanned(nframes: nat): nat {
    nframes / 8 * 8
  }

  /** What page_allocator_init marks: of the frames the scan sees, those up to the end of the bitmap
      that the bound check admits. */
  ghost predicate Reserves(nframes: nat, firstFreePage: nat, used: set<nat>) {
    forall f: nat :: f < Scanned(nframes) ==>
      (f in used <==> f * PAGE_SIZE < firstFreePage + nframes / 8 && Admits(nframes, f))
  }

  /** The frames the scan can still hand out. */
  ghost function FreeFrames(used: set<nat>, n: nat): set<nat> {
    set f: nat | f < n && f !in used
  }

  lemma NoneFreeIff(used: set<nat>, n: nat)
    ensures |FreeFrames(used, n)| == 0 <==> forall f: nat :: f < n ==> f in used
  {
    if f: nat :| f < n && f !in used {
      assert f in FreeFrames(used, n);
    }
  }

  lemma FreeAfter(used: set<nat>, n: nat, f: nat)
    requires f < n && f !in used
    ensures |FreeFrames(used + {f}, n)| == |FreeFrames(used, n)| - 1
  {
    assert FreeFrames(used + {f}, n) == FreeFrames(used, n) - {f};
  }

  lemma ClearedIsUnused(s: seq<bv8>, n: nat)
    requires n <= |s| && forall i :: 0 <= i < n ==> s[i] == 0
    ensures forall f: nat :: f < 8 * n ==> f !in Used(s)
  {}

  /** Where the loop over the reserved bytes ends. */
  lemma PagesBelow(k: nat, bytes: nat)
    requires bytes <= k * PAGE_SIZE < bytes + PAGE_SIZE
    ensures RoundUp(bytes) == k * PAGE_SIZE
    ensures forall f: nat :: f < k <==> f * PAGE_SIZE < bytes
  {}

  class FrameAllocator {
    const frames: array<bv8>
    var nframes: nat
    /** total_memory and unavailable_memory, size_t counters. */
    var totalMemory: nat
    var unavailable: nat

    /** A 32-bit count of frames, each with a bit in the bitmap. */
    ghost predicate Valid()
      reads `nframes
    {
      nframes < TWO_TO_32 && nframes <= 8 * frames.Length
    }

    /** The set the bitmap stands for. */
    ghost function InUse(): set<nat>
      reads frames
    {
      Used(frames[..])
    }

    /** The scan finds no frame: the case page_alloc.c:85 leaves without a value. */
    ghost predicate Exhausted()
      reads `nframes, frames
    {
      forall f: nat :: f < Scanned(nframes) ==> f in InUse()
    }

    /** How many frames are left. */
    ghost function Free(): (n: nat)
      reads `nframes, frames
      ensures n == 0 <==> Exhausted()
    {
      NoneFreeIff(InUse(), Scanned(nframes));
      |FreeFrames(InUse(), Scanned(nframes))|
    }

    method FrameSet(addr: nat)
      requires Valid()
      modifies frames
      ensures InUse() == old(InUse()) + if addr < Limit(nframes) then {addr / PAGE_SIZE} else {}
    {
      hide Used, Mask;
      if addr < Limit(nframes) {
        var frame := addr / PAGE_SIZE;
        UsedAfterSet(frames[..], frame);
        frames[frame / 8] := frames[frame / 8] | Mask(frame % 8);
        assert frames[..] == old(frames[..])[frame / 8 := old(frames[frame / 8]) | Mask(frame % 8)];
      }
    }

    method FrameClear(addr: nat)
      requires Valid()
      modifies frames
      ensures InUse() == old(InUse()) - if addr < Limit(nframes) then {addr / PAGE_SIZE} else {}
    {
      hide Used, Mask;
      if addr < Limit(nframes) {
        var frame := addr / PAGE_SIZE;
        UsedAfterClear(frames[..], frame);
        frames[frame / 8] := frames[frame / 8] & !Mask(frame % 8);
        assert frames[..] == old(frames[..])[frame / 8 := old(frames[frame / 8]) & !Mask(frame % 8)];
      }
    }

    method FrameTest(addr: nat) returns (taken: bool)
      requires Valid()
      ensures taken <==> addr >= Limit(nframes) || addr / PAGE_SIZE in InUse()
    {
      if !(addr < Limit(nframes)) {
        return true;
      }
      var frame := addr / PAGE_SIZE;
      taken := frames[frame / 8] & Mask(frame % 8) != 0;
    }

    /** first_free_frame; None where the source runs off its end without a value. */
    method FirstFreeFrame() returns (r: Option<nat>)
      requires Valid()
      ensures r.Some? ==> IsLeastFree(InUse(), Scanned(nframes), r.value)
      ensures r.None? <==> Exhausted()
    {
      hide Used, Mask;
      var i := 0;
      while i < nframes / 8
        invariant 0 <= i <= nframes / 8
        invariant forall g: nat :: g < 8 * i ==> g in InUse()
      {
        if frames[i] == 0xFF {
          FullByteIsUsed(frames[..], i);
          i := i + 1;
          continue;
        }
        var j := 0;
        while j < 8
          invariant 0 <= j <= 8
          invariant forall g: nat :: g < 8 * i + j ==> g in InUse()
        {
          var bit := Mask(j);
          UsedBit(frames[..], i, j);
          if frames[i] & bit == 0 {
            return Some(8 * i + j);
          }
          j := j + 1;
        }
        i := i + 1;
      }
      return None;
    }

    /** page_alloc; no entry when no frame is free, where the source has no defined result. */
    method PageAlloc(page: Entry, flags: bv64) returns (r: Option<Entry>)
      requires Valid()
      modifies frames, `unavailable
      ensures page.address != 0 ==> r == Some(page) && InUse() == old(InUse()) && unavailable == old(unavailable)
      ensures r.None? <==> page.address == 0 && old(Exhausted())
      ensures r.None? ==> InUse() == old(InUse()) && unavailable == old(unavailable)
      ensures page.address == 0 && r.Some? ==>
        && IsLeastFree(old(InUse()), Scanned(nframes), r.value.address)
        && r.value.bits == Mark(page.bits, flags)
        && InUse() == old(InUse()) + (if Admits(nframes, r.value.address) then {r.value.address} else {})
        && Free() == old(Free()) - (if Admits(nframes, r.value.address) then 1 else 0)
        && unavailable == (old(unavailable) + 1) % TWO_TO_64
    {
      hide Used, FreeFrames, Mark, Limit;
      if page.address != 0 {
        return Some(page);
      }
      var idx := FirstFreeFrame();
      if idx.None? {
        return None;
      }
      var addr := idx.value * PAGE_SIZE;
      FreeAfter(InUse(), Scanned(nframes), idx.value);
      FrameSet(addr);
      assert InUse() == if Admits(nframes, idx.value) then old(InUse()) + {idx.value} else old(InUse());
      unavailable := (unavailable + 1) % TWO_TO_64;
      return Some(Entry(idx.value, Mark(page.bits, flags)));
    }

    /** page_free, handing frame_test and frame_clear the address its argument `mode` says. */
    method PageFree(mode: FreeBy, page: Entry) returns (r: Entry)
      requires Valid()
      modifies frames, `unavailable
      ensures InUse() == Freed(mode, old(InUse()), nframes, page.address)
      ensures var addr := FreeAddress(mode, page.address);
        if addr >= Limit(nframes) || addr / PAGE_SIZE in old(InUse())
        then r == page.(address := 0) && unavailable == (old(unavailable) - 1) % TWO_TO_64
        else r == page && unavailable == old(unavailable)
    {
      var addr := FreeAddress(mode, page.address);
      var taken := FrameTest(addr);
      if !taken {
        return page;
      }
      FrameClear(addr);
      unavailable := (unavailable - 1) % TWO_TO_64;
      return page.(address := 0);
    }

    /** page_allocator_init over the mapped bitmap memory, whose contents are arbitrary. */
    constructor (bitmap: array<bv8>, firstFreePage: nat, memsize: nat)
      requires memsize < TWO_TO_64 && memsize / PAGE_SIZE % TWO_TO_32 <= 8 * bitmap.Length
      requires firstFreePage + bitmap.Length + PAGE_SIZE <= TWO_TO_64
      modifies bitmap
      ensures Valid() && frames == bitmap && nframes == memsize / PAGE_SIZE % TWO_TO_32
      ensures Reserves(nframes, firstFreePage, InUse())
      ensures var reserved := RoundUp(firstFreePage + nframes / 8);
        && unavailable == reserved * PAGE_SIZE % TWO_TO_64
        && totalMemory == (nframes - reserved) % TWO_TO_64 * PAGE_SIZE % TWO_TO_64
    {
      hide Used, RoundUp, Limit;
      frames := bitmap;
      nframes := memsize / PAGE_SIZE % TWO_TO_32;
      totalMemory, unavailable := 0, 0;
      new;
      var metadataBytes := nframes / 8;
      forall i | 0 <= i < metadataBytes {
        frames[i] := 0;
      }
      ClearedIsUnused(frames[..], metadataBytes);
      var unavail := 0;
      ghost var k := 0;
      while unavail < firstFreePage + metadataBytes
        invariant unavail == k * PAGE_SIZE && unavail < firstFreePage + metadataBytes + PAGE_SIZE
        invariant Valid() && nframes == memsize / PAGE_SIZE % TWO_TO_32
        invariant forall f: nat :: f < Scanned(nframes) ==> (f in InUse() <==> f < k && Admits(nframes, f))
        decreases firstFreePage + metadataBytes + PAGE_SIZE - unavail
      {
        FrameSet(unavail);
        unavail := unavail + PAGE_SIZE;
        k := k + 1;
      }
      PagesBelow(k, firstFreePage + metadataBytes);
      var avail := (nframes - unavail) % TWO_TO_64;
      totalMemory := avail * PAGE_SIZE % TWO_TO_64;
      unavailable := unavail * PAGE_SIZE % TWO_TO_64;
    }
  }

  // ---------- page_free

  function FreeAddress(mode: FreeBy, frame: nat): nat {
    match mode
    case NumberAsAddress => frame
    case ByteAddress => frame * PAGE_SIZE
  }

  /** The set page_free leaves. */
  function Freed(mode: FreeBy, used: set<nat>, nframes: nat, frame: nat): set<nat> {
    var addr := FreeAddress(mode, frame);
    used - if addr < Limit(nframes) then {addr / PAGE_SIZE} else {}
  }

  /** As written page_free releases the frame it is given exactly when that is frame 0 and the bound
      check admits it. */
  lemma FreedByNumberIff(used: set<nat>, nframes: nat, frame: nat)
    requires frame in used
    ensures Freed(NumberAsAddress, used, nframes, frame) == used - {frame} <==> frame == 0 && Limit(nframes) > 0
  {}

  /** As written, freeing frame 1 marks frame 0, which initialisation reserved, available. */
  lemma FreedByNumberLosesFrameZero()
    ensures Freed(NumberAsAddress, {0, 1}, 8, 1) == {1}
  {}

  /** metadata_size: nframes >> sizeof(u8). */
  function MetadataSize(memsize: nat): nat {
    memsize / PAGE_SIZE / 2
  }

  /** It covers the bitmap's bytes exactly when memory is not a single frame. */
  lemma MetadataCoversIff(memsize: nat)
    ensures (memsize / PAGE_SIZE + 7) / 8 <= MetadataSize(memsize) <==> memsize / PAGE_SIZE != 1
  {}
}
