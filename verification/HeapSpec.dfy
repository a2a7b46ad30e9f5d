/** The heap of kmalloc.c as a tiling of [start, end) by regions, with its free list. */
module HeapSpec {
  import opened Pages

  /** sizeof(size_t): the header that stays with a block. */
  const HEADER: nat := 8
  /** sizeof(block_t): a remainder must exceed this to become a block. */
  const BLOCK_T: nat := 16

  datatype Kind = Free | Live | Stranded

  /** What starts at some address: a block with its header, or a page tail no block owns. */
  datatype Region = Region(kind: Kind, hi: nat)

  /** `free` is the free list from its head, `regions` maps each start address to its region. */
  datatype Heap = Heap(start: nat, end: nat, regions: map<nat, Region>, free: seq<nat>)

  /** kmalloc.c:80 as written, or with the header kept out of the size it stores. */
  datatype Line80 = AsWritten | Corrected

  // ---------- Well-formedness

  type Regions = map<nat, Region>

  ghost predicate Covered(r: Regions, x: int) {
    exists a :: a in r && a <= x < r[a].hi
  }

  ghost predicate Bounded(start: nat, end: nat, r: Regions) {
    forall a :: a in r ==> start <= a < r[a].hi <= end
  }

  ghost predicate Apart(r: Regions) {
    forall a, b :: a in r && b in r && a < b ==> r[a].hi <= b
  }

  /** The regions tile [start, end): they stay inside, never overlap and leave no byte out. */
  ghost predicate Tiled(start: nat, end: nat, r: Regions) {
    && start <= end
    && Bounded(start, end, r)
    && Apart(r)
    && forall x {:trigger Covered(r, x)} :: start <= x < end ==> Covered(r, x)
  }

  /** Blocks have room for header and link; a stranded tail is smaller than a page. */
  ghost predicate Shaped(r: Regions) {
    forall a :: a in r ==>
      if r[a].kind == Stranded then r[a].hi - a < PAGE_SIZE else a + BLOCK_T <= r[a].hi
  }

  /** The list visits every free region, each once. */
  ghost predicate Listed(h: Heap) {
    && (forall i {:trigger h.free[i]} :: 0 <= i < |h.free| ==> IsFree(h, h.free[i]))
    && (forall i, j :: 0 <= i < j < |h.free| ==> h.free[i] != h.free[j])
    && (forall a :: IsFree(h, a) ==> a in h.free)
  }

  predicate IsFree(h: Heap, a: nat) {
    a in h.regions && h.regions[a].kind == Free
  }

  predicate IsLive(h: Heap, a: nat) {
    a in h.regions && h.regions[a].kind == Live
  }

  ghost predicate Valid(h: Heap) {
    0 < h.start && Tiled(h.start, h.end, h.regions) && Shaped(h.regions) && Listed(h)
  }

  /** The size a block's header records; an address that starts no block fits nothing. */
  function Size(h: Heap, a: nat): int {
    (if a in h.regions then h.regions[a].hi else a) - a - HEADER
  }

  // ---------- kmalloc

  /** Index of the first block from i on that fits, or the length of the list. */
  function FirstFit(h: Heap, size: nat, i: nat): (k: nat)
    requires i <= |h.free|
    ensures i <= k <= |h.free|
    ensures forall j :: i <= j < k ==> Size(h, h.free[j]) < size
    ensures k < |h.free| ==> Size(h, h.free[k]) >= size
    decreases |h.free| - i
  {
    if i == |h.free| || Size(h, h.free[i]) >= size then i else FirstFit(h, size, i + 1)
  }

  /** split_block on the i-th free block, the rest taking its place in the list. */
  function Take(h: Heap, i: nat, size: nat): Heap
    requires i < |h.free| && h.free[i] in h.regions
  {
    var a := h.free[i];
    var hi := h.regions[a].hi;
    if Size(h, a) - size > BLOCK_T then
      var cut := a + HEADER + size;
      h.(regions := h.regions[a := Region(Live, cut)][cut := Region(Free, hi)], free := h.free[i := cut])
    else
      h.(regions := h.regions[a := Region(Live, hi)], free := h.free[..i] + h.free[i + 1..])
  }

  /** The empty list refilled with the pages sbrk returns. */
  function Refill(line80: Line80, h: Heap, size: nat): Heap {
    var end := h.end + RoundUp(size + HEADER);
    var over := if line80 == AsWritten then HEADER else 0;
    h.(end := end, regions := h.regions[h.end := Region(Free, end + over)], free := [h.end])
  }

  /** A block of exactly the requested size on new pages; the rest of the last page is stranded. */
  function OwnBlock(h: Heap, size: nat): Heap {
    var end := h.end + RoundUp(size + HEADER);
    var cut := h.end + HEADER + size;
    var block := h.regions[h.end := Region(Live, cut)];
    h.(end := end, regions := if cut == end then block else block[cut := Region(Stranded, end)])
  }

  /** No free block is big enough, so kmalloc calls sbrk. */
  predicate Grows(h: Heap, size: nat) {
    FirstFit(h, size, 0) == |h.free|
  }

  /** The heap a kmalloc of `size` bytes leaves. */
  function Malloc(line80: Line80, h: Heap, size: nat): Heap {
    var i := FirstFit(h, size, 0);
    if i < |h.free| then Take(h, i, size)
    else if h.free == [] then Take(Refill(line80, h, size), 0, size)
    else OwnBlock(h, size)
  }

  /** The block it returns; the caller's pointer is HEADER past it. */
  function Served(h: Heap, size: nat): nat {
    var i := FirstFit(h, size, 0);
    if i < |h.free| then h.free[i] else h.end
  }

  /** The served block has room for header and link: the request is for 8 bytes or more, or gets a
      whole free block. */
  predicate Servable(h: Heap, size: nat) {
    size >= 8 || (!Grows(h, size) && Size(h, Served(h, size)) <= size + BLOCK_T)
  }

  // ---------- kfree

  predicate Adjacent(h: Heap, a: nat, b: nat)
    requires a in h.regions
  {
    h.regions[a].hi == b
  }

  /** Where the insertion loop stops: the first index from i on not below a. */
  function Position(free: seq<nat>, a: nat, i: nat): (k: nat)
    requires i <= |free|
    ensures i <= k <= |free|
    ensures forall j :: i <= j < k ==> free[j] < a
    ensures k < |free| ==> a <= free[k]
    decreases |free| - i
  {
    if i == |free| || a <= free[i] then i else Position(free, a, i + 1)
  }

  /** Mark live block a free and link it in at position k. */
  function Link(h: Heap, a: nat, k: nat): Heap
    requires a in h.regions && k <= |h.free|
  {
    h.(regions := h.regions[a := Region(Free, h.regions[a].hi)], free := h.free[..k] + [a] + h.free[k..])
  }

  /** Coalesce list neighbours i and i + 1 when both exist and touch. */
  function Merge(h: Heap, i: nat): Heap {
    if i + 1 < |h.free| && h.free[i] in h.regions && h.free[i + 1] in h.regions
       && Adjacent(h, h.free[i], h.free[i + 1])
    then
      var a, b := h.free[i], h.free[i + 1];
      h.(regions := (h.regions - {b})[a := Region(Free, h.regions[b].hi)],
         free := h.free[..i + 1] + h.free[i + 2..])
    else
      h
  }

  /** Where kfree links a block: in order, except that it never goes before the head of a longer list. */
  function Slot(free: seq<nat>, a: nat): (k: nat)
    ensures k <= |free| && (|free| >= 2 ==> k >= 1)
    ensures forall j :: (if |free| <= 1 then 0 else 1) <= j < k ==> free[j] < a
    ensures k < |free| ==> a <= free[k]
  {
    Position(free, a, if |free| <= 1 then 0 else 1)
  }

  /** The heap a kfree of block a leaves: link, coalesce with the right neighbour, then with the left. */
  function Release(h: Heap, a: nat): Heap
    requires IsLive(h, a)
  {
    var k := Slot(h.free, a);
    var right := Merge(Link(h, a, k), k);
    if k == 0 then right else Merge(right, k - 1)
  }
}
