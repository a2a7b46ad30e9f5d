/** What every kmalloc and kfree keeps, and what they undo. */
module HeapProofs {
  import opened Pages
  import opened HeapSpec

  // ---------- The four changes a tiling goes through

  lemma RecolourKeeps(start: nat, end: nat, r: Regions, a: nat, kind: Kind)
    requires Tiled(start, end, r) && a in r
    ensures Tiled(start, end, r[a := Region(kind, r[a].hi)])
  {
    var r' := r[a := Region(kind, r[a].hi)];
    forall x | start <= x < end
      ensures Covered(r', x)
    {
      assert Covered(r, x);
      var b :| b in r && b <= x < r[b].hi;
      assert b in r';
    }
  }

  lemma CutKeeps(start: nat, end: nat, r: Regions, a: nat, cut: nat, left: Kind, right: Kind)
    requires Tiled(start, end, r) && a in r && a < cut < r[a].hi
    ensures cut !in r
    ensures Tiled(start, end, r[a := Region(left, cut)][cut := Region(right, r[a].hi)])
  {
    var r' := r[a := Region(left, cut)][cut := Region(right, r[a].hi)];
    forall x | start <= x < end
      ensures Covered(r', x)
    {
      assert Covered(r, x);
      var b :| b in r && b <= x < r[b].hi;
      assert (if b == a && x >= cut then cut else b) in r';
    }
  }

  lemma ExtendKeeps(start: nat, end: nat, r: Regions, end': nat, kind: Kind)
    requires Tiled(start, end, r) && end < end'
    ensures end !in r
    ensures Tiled(start, end', r[end := Region(kind, end')])
  {
    var r' := r[end := Region(kind, end')];
    forall x | start <= x < end'
      ensures Covered(r', x)
    {
      if x < end {
        assert Covered(r, x);
        var b :| b in r && b <= x < r[b].hi;
        assert b in r';
      } else {
        assert end in r';
      }
    }
  }

  lemma JoinKeeps(start: nat, end: nat, r: Regions, a: nat, b: nat, kind: Kind)
    requires Tiled(start, end, r) && a in r && b in r && r[a].hi == b
    ensures Tiled(start, end, (r - {b})[a := Region(kind, r[b].hi)])
  {
    var r' := (r - {b})[a := Region(kind, r[b].hi)];
    assert r[a].hi > a && r[b].hi > b;
    forall x | start <= x < end
      ensures Covered(r', x)
    {
      assert Covered(r, x);
      var c :| c in r && c <= x < r[c].hi;
      assert (if c == b then a else c) in r';
    }
  }

  // ---------- Each step of kmalloc and kfree keeps the heap valid

  lemma ListedIsFree(h: Heap, i: nat)
    requires Listed(h) && i < |h.free|
    ensures IsFree(h, h.free[i])
  {}

  lemma ReplaceLists(h: Heap, i: nat, a: nat, left: nat, right: nat)
    requires Listed(h) && i < |h.free| && h.free[i] != a && a !in h.regions
    ensures Listed(h.(regions := h.regions[h.free[i] := Region(Live, left)][a := Region(Free, right)],
                      free := h.free[i := a]))
  {
    var h' := h.(regions := h.regions[h.free[i] := Region(Live, left)][a := Region(Free, right)],
                 free := h.free[i := a]);
    forall b | IsFree(h', b)
      ensures b in h'.free
    {
      if b == a {
        assert h'.free[i] == a;
      } else {
        assert IsFree(h, b);
        var j :| 0 <= j < |h.free| && h.free[j] == b;
        assert h'.free[j] == b;
      }
    }
  }

  lemma RemovedElements(s: seq<nat>, k: nat)
    requires k < |s| && forall i, j :: 0 <= i < j < |s| ==> s[i] != s[j]
    ensures var r := s[..k] + s[k + 1..];
      && (forall i, j :: 0 <= i < j < |r| ==> r[i] != r[j])
      && forall x :: x in r <==> x in s && x != s[k]
  {
    var r := s[..k] + s[k + 1..];
    forall x | x in s && x != s[k]
      ensures x in r
    {
      var j :| 0 <= j < |s| && s[j] == x;
      assert r[if j < k then j else j - 1] == x;
    }
  }

  /** Taking the k-th block out of the list and out of the free regions. */
  lemma RemoveLists(h: Heap, h': Heap, k: nat)
    requires Listed(h) && k < |h.free| && h'.free == h.free[..k] + h.free[k + 1..]
    requires forall c :: IsFree(h', c) <==> IsFree(h, c) && c != h.free[k]
    ensures Listed(h')
  {
    hide IsFree;
    RemovedElements(h.free, k);
    forall i | 0 <= i < |h'.free|
      ensures IsFree(h', h'.free[i])
    {
      assert h'.free[i] in h'.free;
    }
  }

  /** Putting a block at position k of the list and among the free regions. */
  lemma InsertedLists(h: Heap, h': Heap, a: nat, k: nat)
    requires Listed(h) && k <= |h.free| && h'.free == h.free[..k] + [a] + h.free[k..] && !IsFree(h, a)
    requires forall c :: IsFree(h', c) <==> IsFree(h, c) || c == a
    ensures Listed(h')
  {
    hide IsFree;
    assert forall j {:trigger h'.free[j]} :: 0 <= j < |h'.free| ==>
      h'.free[j] == if j < k then h.free[j] else if j == k then a else h.free[j - 1];
    forall b | IsFree(h', b)
      ensures b in h'.free
    {
      if b == a {
        assert h'.free[k] == a;
      } else {
        var j :| 0 <= j < |h.free| && h.free[j] == b;
        assert h'.free[if j < k then j else j + 1] == b;
      }
    }
  }

  lemma InsertLists(h: Heap, a: nat, k: nat)
    requires Listed(h) && IsLive(h, a) && k <= |h.free|
    ensures Listed(Link(h, a, k))
  {
    hide Listed;
    InsertedLists(h, Link(h, a, k), a, k);
  }

  lemma TakeTiles(h: Heap, i: nat, size: nat)
    requires Tiled(h.start, h.end, h.regions) && i < |h.free| && h.free[i] in h.regions
    requires size <= Size(h, h.free[i])
    ensures var h' := Take(h, i, size); Tiled(h'.start, h'.end, h'.regions)
    ensures Size(h, h.free[i]) - size > BLOCK_T ==> h.free[i] + HEADER + size !in h.regions
  {
    var a := h.free[i];
    if Size(h, a) - size > BLOCK_T {
      CutKeeps(h.start, h.end, h.regions, a, a + HEADER + size, Live, Free);
    } else {
      RecolourKeeps(h.start, h.end, h.regions, a, Live);
    }
  }

  lemma TakeLists(h: Heap, i: nat, size: nat)
    requires Tiled(h.start, h.end, h.regions) && Listed(h) && i < |h.free| && size <= Size(h, h.free[i])
    ensures Listed(Take(h, i, size))
  {
    hide Tiled;
    TakeTiles(h, i, size);
    var a := h.free[i];
    if Size(h, a) - size > BLOCK_T {
      ReplaceLists(h, i, a + HEADER + size, a + HEADER + size, h.regions[a].hi);
    } else {
      RemoveLists(h, Take(h, i, size), i);
    }
  }

  lemma TakeKeeps(h: Heap, i: nat, size: nat)
    requires Valid(h) && i < |h.free| && size <= Size(h, h.free[i])
    requires size >= 8 || Size(h, h.free[i]) <= size + BLOCK_T
    ensures Valid(Take(h, i, size))
  {
    hide Tiled, Listed;
    TakeTiles(h, i, size);
    TakeLists(h, i, size);
    ListedIsFree(h, i);
  }

  lemma RefillKeeps(h: Heap, size: nat)
    requires Valid(h) && h.free == []
    ensures Valid(Refill(Corrected, h, size))
  {
    var h' := Refill(Corrected, h, size);
    ExtendKeeps(h.start, h.end, h.regions, h'.end, Free);
    assert h'.free[0] == h.end;
    forall b | IsFree(h', b)
      ensures b in h'.free
    {
      assert b != h.end ==> IsFree(h, b);
    }
  }

  lemma OwnBlockTiles(h: Heap, size: nat)
    requires Tiled(h.start, h.end, h.regions)
    ensures var h' := OwnBlock(h, size); Tiled(h'.start, h'.end, h'.regions)
    ensures h.end !in h.regions && h.end + HEADER + size !in h.regions
  {
    var h' := OwnBlock(h, size);
    ExtendKeeps(h.start, h.end, h.regions, h'.end, Live);
    var cut := h.end + HEADER + size;
    if cut < h'.end {
      var r := h.regions[h.end := Region(Live, h'.end)];
      CutKeeps(h.start, h'.end, r, h.end, cut, Live, Stranded);
      assert h'.regions == r[h.end := Region(Live, cut)][cut := Region(Stranded, r[h.end].hi)];
    }
  }

  lemma OwnBlockLists(h: Heap, size: nat)
    requires Listed(h) && h.end !in h.regions && h.end + HEADER + size !in h.regions
    ensures Listed(OwnBlock(h, size))
  {}

  lemma OwnBlockKeeps(h: Heap, size: nat)
    requires Valid(h) && size >= 8
    ensures Valid(OwnBlock(h, size))
  {
    OwnBlockTiles(h, size);
    OwnBlockLists(h, size);
  }

  lemma LinkKeeps(h: Heap, a: nat, k: nat)
    requires Valid(h) && IsLive(h, a) && k <= |h.free|
    ensures Valid(Link(h, a, k))
  {
    RecolourKeeps(h.start, h.end, h.regions, a, Free);
    InsertLists(h, a, k);
  }

  lemma MergeLists(h: Heap, i: nat)
    requires Listed(h)
    ensures Listed(Merge(h, i))
  {
    if Merge(h, i) != h {
      assert IsFree(h, h.free[i]);
      RemoveLists(h, Merge(h, i), i + 1);
    }
  }

  lemma MergeKeeps(h: Heap, i: nat)
    requires Valid(h)
    ensures Valid(Merge(h, i))
  {
    if Merge(h, i) != h {
      JoinKeeps(h.start, h.end, h.regions, h.free[i], h.free[i + 1], Free);
      assert IsFree(h, h.free[i]) && IsFree(h, h.free[i + 1]);
    }
    MergeLists(h, i);
  }

  // ---------- kmalloc

  lemma MallocKeeps(h: Heap, size: nat)
    requires Valid(h) && Servable(h, size)
    ensures Valid(Malloc(Corrected, h, size))
  {
    var i := FirstFit(h, size, 0);
    if i < |h.free| {
      TakeKeeps(h, i, size);
    } else if h.free == [] {
      RefillKeeps(h, size);
      TakeKeeps(Refill(Corrected, h, size), 0, size);
    } else {
      OwnBlockKeeps(h, size);
    }
  }

  /** A request under 8 bytes that is cut off a larger block or gets new pages ends in a block too
      small for header and link. */
  lemma TooSmall(line80: Line80, h: Heap, size: nat)
    requires Valid(h) && !Servable(h, size)
    ensures var h', a := Malloc(line80, h, size), Served(h, size);
      a in h'.regions && h'.regions[a] == Region(Live, a + HEADER + size) && HEADER + size < BLOCK_T
  {
    hide Take, Tiled, Shaped, Refill, OwnBlock;
    var i := FirstFit(h, size, 0);
    if i < |h.free| {
      TakeCuts(h, i, size);
    } else if h.free == [] {
      RefilledPage(line80, h, size);
      TakeCuts(Refill(line80, h, size), 0, size);
    } else {
      OwnBlockCuts(h, size);
    }
  }

  lemma TakeCuts(h: Heap, i: nat, size: nat)
    requires i < |h.free| && h.free[i] in h.regions && Size(h, h.free[i]) > size + BLOCK_T
    ensures var h', a := Take(h, i, size), h.free[i];
      a in h'.regions && h'.regions[a] == Region(Live, a + HEADER + size)
  {}

  lemma RefilledPage(line80: Line80, h: Heap, size: nat)
    requires size < 8
    ensures var h' := Refill(line80, h, size);
      h'.free == [h.end] && h.end in h'.regions && Size(h', h.end) > size + BLOCK_T
  {}

  lemma OwnBlockCuts(h: Heap, size: nat)
    ensures h.end in OwnBlock(h, size).regions
    ensures OwnBlock(h, size).regions[h.end] == Region(Live, h.end + HEADER + size)
  {}

  /** kmalloc, with line 80 corrected, keeps the heap well-formed exactly for servable requests. */
  lemma MallocKeepsIff(h: Heap, size: nat)
    requires Valid(h)
    ensures Valid(Malloc(Corrected, h, size)) <==> Servable(h, size)
  {
    if Servable(h, size) {
      MallocKeeps(h, size);
    } else {
      TooSmall(Corrected, h, size);
    }
  }

  /** With line 80 as written the free list must also be non-empty. */
  lemma AsWrittenKeepsIff(h: Heap, size: nat)
    requires Valid(h)
    ensures Valid(Malloc(AsWritten, h, size)) <==> h.free != [] && Servable(h, size)
  {
    if h.free == [] {
      var filled := Refill(AsWritten, h, size);
      var h' := Take(filled, 0, size);
      var last := if Size(filled, h.end) - size > BLOCK_T then h.end + HEADER + size else h.end;
      assert last in h'.regions && h'.regions[last].hi == h'.end + HEADER;
    } else if Servable(h, size) {
      MallocKeeps(h, size);
    } else {
      TooSmall(AsWritten, h, size);
    }
  }

  /** The bytes line 80 counts twice end up in two live blocks at once. */
  lemma AsWrittenOverlaps()
    ensures
      var h0 := Heap(PAGE_SIZE, PAGE_SIZE, map[], []);
      var h1 := Malloc(AsWritten, h0, 4080);
      var h2 := Malloc(AsWritten, h1, 16);
      IsLive(h2, PAGE_SIZE) && IsLive(h2, 2 * PAGE_SIZE) && h2.regions[PAGE_SIZE].hi == 2 * PAGE_SIZE + HEADER
  {}

  /** The live regions of h' are those of h and block a. */
  ghost predicate LivePlus(h: Heap, h': Heap, a: nat) {
    && IsLive(h', a) && !IsLive(h, a)
    && (forall b :: IsLive(h, b) ==> b in h'.regions && h'.regions[b] == h.regions[b])
    && (forall b :: IsLive(h', b) ==> b == a || IsLive(h, b))
  }

  lemma TakeServes(h: Heap, i: nat, size: nat)
    requires Listed(h) && i < |h.free| && size <= Size(h, h.free[i])
    requires Tiled(h.start, h.end, h.regions)
    ensures var h', a := Take(h, i, size), h.free[i];
      LivePlus(h, h', a) && size <= Size(h', a) <= size + BLOCK_T
  {}

  ghost predicate SameLive(h: Heap, h': Heap) {
    && (forall b :: IsLive(h, b) ==> b in h'.regions && h'.regions[b] == h.regions[b])
    && (forall b :: IsLive(h', b) ==> IsLive(h, b))
  }

  lemma RefillLeavesLive(h: Heap, size: nat)
    requires Valid(h)
    ensures SameLive(h, Refill(Corrected, h, size))
  {}

  lemma RefillServes(h: Heap, size: nat)
    requires Valid(h) && h.free == []
    ensures var h' := Take(Refill(Corrected, h, size), 0, size);
      LivePlus(h, h', h.end) && size <= Size(h', h.end) <= size + BLOCK_T
  {}

  lemma OwnBlockServes(h: Heap, size: nat)
    requires Valid(h)
    ensures LivePlus(h, OwnBlock(h, size), h.end) && Size(OwnBlock(h, size), h.end) == size
  {}

  /** kmalloc adds one live block of the size asked, up to 16 bytes more, and touches no other. */
  lemma MallocServes(h: Heap, size: nat)
    requires Valid(h)
    ensures var h', a := Malloc(Corrected, h, size), Served(h, size);
      LivePlus(h, h', a) && size <= Size(h', a) <= size + BLOCK_T
  {
    hide LivePlus, Take, OwnBlock, Tiled, Shaped;
    var i := FirstFit(h, size, 0);
    if i < |h.free| {
      TakeServes(h, i, size);
    } else if h.free == [] {
      RefillServes(h, size);
    } else {
      OwnBlockServes(h, size);
    }
  }

  /** The heap grows exactly when no free block fits; a served block is the first that fits, which
      on an ascending list is the lowest-addressed one. */
  lemma MallocIsFirstFit(h: Heap, size: nat)
    requires Valid(h)
    ensures Malloc(Corrected, h, size).end > h.end <==> forall b :: IsFree(h, b) ==> Size(h, b) < size
    ensures Malloc(Corrected, h, size).end == h.end ==> IsFree(h, Served(h, size))
    ensures Ascending(h) ==> forall b :: IsFree(h, b) && Size(h, b) >= size ==> Served(h, size) <= b
  {}

  /** Where the bytes kmalloc takes end: with the free block it serves from, or with its new pages. */
  function Extent(h: Heap, size: nat): nat {
    if Grows(h, size) then h.end + RoundUp(size + HEADER)
    else if Served(h, size) in h.regions then h.regions[Served(h, size)].hi
    else 0
  }

  /** Whether the rest becomes a region of its own: always behind a block started on new pages, and
      otherwise when more than a block_t of it remains. */
  predicate Cuts(h: Heap, size: nat) {
    if Grows(h, size) && h.free != [] then Served(h, size) + HEADER + size < Extent(h, size)
    else Served(h, size) + HEADER + size + BLOCK_T < Extent(h, size)
  }

  /** Outside the bytes it takes, kmalloc leaves every region as it was. */
  ghost predicate RegionsKept(h: Heap, h': Heap, lo: nat, hi: nat) {
    forall b :: b < lo || hi <= b ==>
      (b in h'.regions <==> b in h.regions) && (b in h.regions ==> h'.regions[b] == h.regions[b])
  }

  /** The regions within: the live block, and behind it the rest, if cut off. */
  ghost predicate Carved(h': Heap, lo: nat, cut: nat, hi: nat, rest: Kind) {
    && lo in h'.regions && h'.regions[lo] == Region(Live, cut)
    && (cut < hi ==> cut in h'.regions && h'.regions[cut] == Region(rest, hi))
    && forall b :: lo < b < hi && b in h'.regions ==> b == cut
  }

  /** Every region after kmalloc (line 80 corrected): the bytes taken are the live block and, if cut
      off, a rest that is free, or stranded exactly when no free block fitted although there were some. */
  lemma MallocRegions(h: Heap, size: nat)
    requires Valid(h)
    ensures var h', a, top := Malloc(Corrected, h, size), Served(h, size), Extent(h, size);
      && h'.end == (if Grows(h, size) then top else h.end)
      && RegionsKept(h, h', a, top)
      && Carved(h', a, if Cuts(h, size) then a + HEADER + size else top, top,
                if Grows(h, size) && h.free != [] then Stranded else Free)
  {
    hide Take, Refill, OwnBlock, Tiled, Shaped, RegionsKept, Carved, RoundUp;
    var i := FirstFit(h, size, 0);
    if i < |h.free| {
      ListedIsFree(h, i);
      TakeRegions(h, i, size);
    } else if h.free == [] {
      RefillRegions(h, size);
      RefillKeeps(h, size);
      TakeRegions(Refill(Corrected, h, size), 0, size);
      var filled := Refill(Corrected, h, size);
      RegionsKeptTwice(h, filled, Take(filled, 0, size), h.end, Extent(h, size));
    } else {
      OwnBlockRegions(h, size);
    }
  }

  lemma RegionsKeptTwice(h: Heap, h1: Heap, h2: Heap, lo: nat, hi: nat)
    requires RegionsKept(h, h1, lo, hi) && RegionsKept(h1, h2, lo, hi)
    ensures RegionsKept(h, h2, lo, hi)
  {}

  lemma TakeRegions(h: Heap, i: nat, size: nat)
    requires Valid(h) && i < |h.free| && size <= Size(h, h.free[i])
    ensures var h', a := Take(h, i, size), h.free[i];
      && a in h.regions && h'.end == h.end
      && RegionsKept(h, h', a, h.regions[a].hi)
      && var top := h.regions[a].hi;
         Carved(h', a, if Size(h, a) - size > BLOCK_T then a + HEADER + size else top, top, Free)
  {}

  lemma RefillRegions(h: Heap, size: nat)
    requires Valid(h)
    ensures var h' := Refill(Corrected, h, size);
      && h'.free == [h.end] && h.end in h'.regions && h'.regions[h.end] == Region(Free, h'.end)
      && h'.end == h.end + RoundUp(size + HEADER)
      && RegionsKept(h, h', h.end, h'.end)
  {}

  lemma OwnBlockRegions(h: Heap, size: nat)
    requires Valid(h)
    ensures var h', cut := OwnBlock(h, size), h.end + HEADER + size;
      && h'.end == h.end + RoundUp(size + HEADER)
      && RegionsKept(h, h', h.end, h'.end)
      && Carved(h', h.end, cut, h'.end, Stranded)
  {}

  /** The list after kmalloc: from an empty one, just the free rest of the new pages; from another, the
      rest in the served block's place, or nothing there, and no change when no block fitted. */
  lemma MallocList(h: Heap, size: nat)
    requires Valid(h)
    ensures var free, i := Malloc(Corrected, h, size).free, FirstFit(h, size, 0);
      var rest := if Cuts(h, size) then [Served(h, size) + HEADER + size] else [];
      if h.free == [] then free == rest
      else if Grows(h, size) then free == h.free
      else free == h.free[..i] + rest + h.free[i + 1..]
  {
    hide Tiled, Shaped, RoundUp;
    var i := FirstFit(h, size, 0);
    if i < |h.free| {
      ListedIsFree(h, i);
    }
  }

  // ---------- kfree

  lemma ReleaseKeeps(h: Heap, a: nat)
    requires Valid(h) && IsLive(h, a)
    ensures Valid(Release(h, a))
  {
    hide Valid;
    var k := Slot(h.free, a);
    LinkKeeps(h, a, k);
    MergeKeeps(Link(h, a, k), k);
    if k > 0 {
      MergeKeeps(Merge(Link(h, a, k), k), k - 1);
    }
  }

  lemma MergeLeavesLive(h: Heap, i: nat)
    requires Listed(h)
    ensures SameLive(h, Merge(h, i))
  {}

  lemma LivePlusAfter(h: Heap, linked: Heap, h': Heap, a: nat)
    requires LivePlus(linked, h, a) && SameLive(linked, h')
    ensures LivePlus(h', h, a)
  {}

  lemma LinkTakesOne(h: Heap, a: nat, k: nat)
    requires IsLive(h, a) && k <= |h.free|
    ensures LivePlus(Link(h, a, k), h, a)
  {}

  lemma ReleaseBounds(h: Heap, a: nat)
    requires IsLive(h, a)
    ensures Release(h, a).start == h.start && Release(h, a).end == h.end
  {}

  /** kfree takes exactly its block out of the live ones and keeps the heap's bounds. */
  lemma ReleaseTakesOne(h: Heap, a: nat)
    requires Listed(h) && IsLive(h, a)
    ensures LivePlus(Release(h, a), h, a)
    ensures Release(h, a).end == h.end
  {
    hide Link, Merge, Listed, LivePlus, SameLive;
    ReleaseBounds(h, a);
    var k := Slot(h.free, a);
    var linked := Link(h, a, k);
    var right := Merge(linked, k);
    InsertLists(h, a, k);
    LinkTakesOne(h, a, k);
    MergeLeavesLive(linked, k);
    LivePlusAfter(h, linked, right, a);
    MergeLists(linked, k);
    if k > 0 {
      MergeLeavesLive(right, k - 1);
      LivePlusAfter(h, right, Merge(right, k - 1), a);
    }
  }

  /** The freed block touches the listed block behind its slot. */
  predicate JoinsRight(h: Heap, a: nat)
    requires a in h.regions
  {
    var k := Slot(h.free, a); k < |h.free| && h.regions[a].hi == h.free[k]
  }

  /** The listed block before its slot touches it. */
  predicate JoinsLeft(h: Heap, a: nat) {
    var k := Slot(h.free, a); 0 < k && h.free[k - 1] in h.regions && h.regions[h.free[k - 1]].hi == a
  }

  /** The bounds of the free block it ends up in. */
  function FreedLow(h: Heap, a: nat): nat {
    if JoinsLeft(h, a) then h.free[Slot(h.free, a) - 1] else a
  }

  function FreedHigh(h: Heap, a: nat): nat
    requires a in h.regions
  {
    if JoinsRight(h, a) && h.free[Slot(h.free, a)] in h.regions then h.regions[h.free[Slot(h.free, a)]].hi
    else h.regions[a].hi
  }

  lemma Merged(h: Heap, i: nat)
    requires i + 1 < |h.free| && h.free[i] in h.regions && h.free[i + 1] in h.regions
    ensures var h', a, b := Merge(h, i), h.free[i], h.free[i + 1];
      if h.regions[a].hi == b
      then h'.free == h.free[..i + 1] + h.free[i + 2..] &&
           h'.regions == (h.regions - {b})[a := Region(Free, h.regions[b].hi)]
      else h' == h
  {}

  lemma LastStays(h: Heap, i: nat)
    requires i + 1 >= |h.free|
    ensures Merge(h, i) == h
  {}

  lemma LinkedRight(h: Heap, a: nat, k: nat)
    requires Listed(h) && IsLive(h, a) && k == Slot(h.free, a)
    ensures var h1 := Merge(Link(h, a, k), k);
      && h1.free == h.free[..k] + [a] + h.free[if JoinsRight(h, a) then k + 1 else k..]
      && h1.regions == (if JoinsRight(h, a) then h.regions - {h.free[k]} else h.regions)
                       [a := Region(Free, FreedHigh(h, a))]
  {
    hide Slot, Merge, Listed;
    var h1 := Link(h, a, k);
    if k < |h.free| {
      ListedIsFree(h, k);
      assert h1.free[k] == a && h1.free[k + 1] == h.free[k];
      Merged(h1, k);
      assert h1.free[..k + 1] + h1.free[k + 2..] == h.free[..k] + [a] + h.free[k + 1..];
    } else {
      LastStays(h1, k);
    }
  }

  /** The list and the regions kfree leaves. */
  lemma ReleaseIs(h: Heap, a: nat)
    requires Listed(h) && IsLive(h, a)
    ensures var h', k := Release(h, a), Slot(h.free, a);
      var lo, hi := FreedLow(h, a), FreedHigh(h, a);
      && h'.free == h.free[..if JoinsLeft(h, a) then k - 1 else k] + [lo]
                    + h.free[if JoinsRight(h, a) then k + 1 else k..]
      && h'.regions == (h.regions - {a} - if JoinsRight(h, a) then {h.free[k]} else {})[lo := Region(Free, hi)]
  {
    hide Listed, Link, Merge, Slot;
    var k := Slot(h.free, a);
    var h1 := Merge(Link(h, a, k), k);
    LinkedRight(h, a, k);
    var after := h.free[if JoinsRight(h, a) then k + 1 else k..];
    if k > 0 {
      ListedIsFree(h, k - 1);
      LiveNotListed(h, a, k - 1);
      NeighboursDiffer(h, k);
      assert h1.free[k - 1] == h.free[k - 1] && h1.free[k] == a;
      Merged(h1, k - 1);
      assert h1.free[k + 1..] == after && h1.free[..k] == h.free[..k - 1] + [h.free[k - 1]];
    }
  }

  lemma NeighboursDiffer(h: Heap, k: nat)
    requires Listed(h) && 0 < k
    ensures k < |h.free| ==> h.free[k - 1] != h.free[k]
  {}

  /** All that kfree leaves, in whatever order the list was: one free block out of the freed one and the
      neighbours of its slot that touch it, in their place in the list, and every other region as it was. */
  lemma ReleaseExactly(h: Heap, a: nat)
    requires Valid(h) && IsLive(h, a)
    ensures var h', k := Release(h, a), Slot(h.free, a);
      var lo, hi := FreedLow(h, a), FreedHigh(h, a);
      && h'.free == h.free[..if JoinsLeft(h, a) then k - 1 else k] + [lo]
                    + h.free[if JoinsRight(h, a) then k + 1 else k..]
      && lo in h'.regions && h'.regions[lo] == Region(Free, hi)
      && RegionsKept(h, h', lo, hi)
      && forall b :: lo < b < hi ==> b !in h'.regions
  {
    hide Release, Slot, Listed, Shaped;
    ReleaseIs(h, a);
    FreedIsOneStretch(h, a);
  }

  lemma FreedIsOneStretch(h: Heap, a: nat)
    requires Valid(h) && IsLive(h, a)
    ensures var lo, hi, k := FreedLow(h, a), FreedHigh(h, a), Slot(h.free, a);
      && lo in h.regions && lo <= a < hi
      && (JoinsRight(h, a) ==> lo < h.free[k] < hi)
      && forall b :: b in h.regions && lo < b < hi ==> b == a || (JoinsRight(h, a) && b == h.free[k])
  {
    hide Slot;
    var k := Slot(h.free, a);
    if k < |h.free| {
      ListedIsFree(h, k);
    }
  }

  // ---------- Address order and coalescing

  ghost predicate Ascending(h: Heap) {
    forall i, j :: 0 <= i < j < |h.free| ==> h.free[i] < h.free[j]
  }

  /** List neighbours i and i + 1 do not touch. */
  ghost predicate Gap(h: Heap, i: int) {
    0 <= i && i + 1 < |h.free| && h.free[i] in h.regions ==> h.regions[h.free[i]].hi != h.free[i + 1]
  }

  /** The order kmalloc.c:13-19 asks of the list. */
  ghost predicate Ordered(h: Heap) {
    Ascending(h) && forall i :: Gap(h, i)
  }

  lemma NeighbourBelow(h: Heap, i: nat)
    requires Valid(h) && Ordered(h) && i + 1 < |h.free|
    ensures h.free[i] in h.regions && h.free[i] < h.regions[h.free[i]].hi < h.free[i + 1]
  {
    assert Gap(h, i) && IsFree(h, h.free[i]) && IsFree(h, h.free[i + 1]);
  }

  lemma NoGapBefore(h: Heap, j: int)
    requires j < 0
    ensures Gap(h, j)
  {}

  lemma TakeLeavesGaps(h: Heap, i: nat, size: nat, j: nat)
    requires Valid(h) && Ordered(h) && i < |h.free| && size <= Size(h, h.free[i])
    ensures Gap(Take(h, i, size), j)
  {
    hide Valid, Ordered;
    if j + 1 < |h.free| {
      NeighbourBelow(h, j);
    }
    if j + 2 < |h.free| {
      NeighbourBelow(h, j + 1);
    }
    if i + 1 < |h.free| {
      NeighbourBelow(h, i);
    }
    if 0 < i {
      NeighbourBelow(h, i - 1);
    }
    ListedOnce(h, i);
  }

  lemma ListedOnce(h: Heap, i: nat)
    requires Valid(h) && i < |h.free|
    ensures h.free[i] in h.regions && forall j :: 0 <= j < |h.free| && j != i ==> h.free[j] != h.free[i]
    ensures forall j :: 0 <= j < |h.free| && j != i && h.free[j] in h.regions ==>
      h.regions[h.free[j]].hi <= h.free[i] || h.regions[h.free[i]].hi <= h.free[j]
  {}

  lemma TakeOrders(h: Heap, i: nat, size: nat)
    requires Valid(h) && Ordered(h) && i < |h.free| && size <= Size(h, h.free[i])
    ensures Ordered(Take(h, i, size))
  {
    hide Valid, Gap;
    var h' := Take(h, i, size);
    forall j
      ensures Gap(h', j)
    {
      if j >= 0 {
        TakeLeavesGaps(h, i, size, j);
      } else {
        NoGapBefore(h', j);
      }
    }
    if i + 1 < |h.free| {
      NeighbourBelow(h, i);
    }
  }

  /** Every kmalloc keeps an ordered list ordered. */
  lemma MallocOrders(h: Heap, size: nat)
    requires Valid(h) && Ordered(h)
    ensures Ordered(Malloc(Corrected, h, size))
  {
    var i := FirstFit(h, size, 0);
    if i < |h.free| {
      TakeOrders(h, i, size);
    } else if h.free == [] {
      RefillKeeps(h, size);
      TakeOrders(Refill(Corrected, h, size), 0, size);
    } else {
      OwnBlockTiles(h, size);
      forall j
        ensures Gap(OwnBlock(h, size), j)
      {
        assert Gap(h, j);
      }
    }
  }

  lemma MergeAscends(h: Heap, i: nat)
    requires Ascending(h)
    ensures Ascending(Merge(h, i))
  {}

  /** A merge at i closes the gap there and moves the other gaps along. */
  lemma MergeGap(h: Heap, i: nat, j: nat)
    requires Listed(h)
    requires j != i ==> Gap(h, if j < i || Merge(h, i) == h then j else j + 1)
    requires j == i && Merge(h, i) != h ==> Gap(h, i + 1)
    ensures Gap(Merge(h, i), j)
  {}

  lemma MergeOrders(h: Heap, i: nat, other: int)
    requires Listed(h) && Ascending(h) && other < i
    requires forall j :: j != i && j != other ==> Gap(h, j)
    ensures Ascending(Merge(h, i))
    ensures forall j :: j != other ==> Gap(Merge(h, i), j)
  {
    MergeAscends(h, i);
    forall j | j != other
      ensures Gap(Merge(h, i), j)
    {
      if j >= 0 {
        MergeGap(h, i, j);
      }
    }
  }

  lemma LinkAscends(h: Heap, a: nat, k: nat)
    requires Ascending(h) && a in h.regions && k <= |h.free|
    requires forall j :: 0 <= j < k ==> h.free[j] < a
    requires k < |h.free| ==> a < h.free[k]
    ensures Ascending(Link(h, a, k))
  {}

  lemma LinkGap(h: Heap, a: nat, k: nat, j: nat)
    requires IsLive(h, a) && k <= |h.free| && j != k && j != k - 1
    requires Gap(h, if j < k then j else j - 1)
    ensures Gap(Link(h, a, k), j)
  {}

  /** Linking at the position found keeps the addresses ascending and can only spoil the gaps beside it. */
  lemma LinkOrders(h: Heap, a: nat, k: nat)
    requires Ordered(h) && IsLive(h, a) && k <= |h.free|
    requires forall j :: 0 <= j < k ==> h.free[j] < a
    requires k < |h.free| ==> a < h.free[k]
    ensures Ascending(Link(h, a, k))
    ensures forall j :: j != k && j != k - 1 ==> Gap(Link(h, a, k), j)
  {
    LinkAscends(h, a, k);
    forall j | j != k && j != k - 1
      ensures Gap(Link(h, a, k), j)
    {
      if j >= 0 {
        LinkGap(h, a, k, j);
      }
    }
  }

  lemma LiveNotListed(h: Heap, a: nat, i: nat)
    requires Listed(h) && IsLive(h, a) && i < |h.free|
    ensures h.free[i] != a
  {}

  lemma ReleaseOrders(h: Heap, a: nat)
    requires Listed(h) && Ordered(h) && IsLive(h, a)
    requires |h.free| <= 1 || h.free[0] < a
    ensures Ordered(Release(h, a))
  {
    hide Link, Merge, Gap, Ascending, Listed;
    var k := Slot(h.free, a);
    if k < |h.free| {
      LiveNotListed(h, a, k);
    }
    LinkOrders(h, a, k);
    var linked := Link(h, a, k);
    InsertLists(h, a, k);
    MergeOrders(linked, k, k - 1);
    MergeLists(linked, k);
    if k > 0 {
      MergeOrders(Merge(linked, k), k - 1, -1);
    }
    NoGapBefore(Release(h, a), -1);
  }

  /** kfree keeps an ordered list ordered exactly when the list has at most one block or the
      freed block lies above its head. */
  lemma ReleaseOrdersIff(h: Heap, a: nat)
    requires Tiled(h.start, h.end, h.regions) && Listed(h) && Ordered(h) && IsLive(h, a)
    ensures Ordered(Release(h, a)) <==> |h.free| <= 1 || h.free[0] < a
  {
    if |h.free| <= 1 || h.free[0] < a {
      ReleaseOrders(h, a);
    } else {
      LiveNotListed(h, a, 0);
      ReleaseBelowHead(h, a);
    }
  }

  /** The case kmalloc.c:152-161 leaves out: the block lands second although it is lowest. */
  lemma ReleaseBelowHead(h: Heap, a: nat)
    requires Tiled(h.start, h.end, h.regions) && Listed(h) && Ordered(h) && IsLive(h, a)
    requires |h.free| >= 2 && a < h.free[0]
    ensures Release(h, a).free == [h.free[0], a] + h.free[1..]
    ensures !Ordered(Release(h, a))
  {}

  // ---------- kfree undoes kmalloc

  lemma MergeNoop(h: Heap, i: nat)
    requires forall j :: Gap(h, j)
    ensures Merge(h, i) == h
  {
    assert Gap(h, i);
  }

  lemma {:induction false} PositionIs(free: seq<nat>, a: nat, i: nat, k: nat)
    requires i <= k <= |free|
    requires forall j :: i <= j < k ==> free[j] < a
    requires k < |free| ==> a <= free[k]
    ensures Position(free, a, i) == k
    decreases k - i
  {}

  /** The two parts of the i-th block, both free and listed. */
  lemma RelinkedSplit(h: Heap, i: nat, size: nat)
    requires Listed(h) && i < |h.free| && size + BLOCK_T < Size(h, h.free[i])
    ensures var a, linked := h.free[i], Link(Take(h, i, size), h.free[i], i);
      && linked.free == h.free[..i] + [a, a + HEADER + size] + h.free[i + 1..]
      && linked.regions == h.regions[a := Region(Free, a + HEADER + size)]
                                    [a + HEADER + size := Region(Free, h.regions[a].hi)]
  {}

  lemma UntakeSplit(h: Heap, i: nat, size: nat)
    requires Valid(h) && i < |h.free| && size + BLOCK_T < Size(h, h.free[i])
    ensures Merge(Link(Take(h, i, size), h.free[i], i), i) == h
  {
    hide Tiled, Listed, Shaped;
    var a, cut := h.free[i], h.free[i] + HEADER + size;
    ListedIsFree(h, i);
    TakeTiles(h, i, size);
    RelinkedSplit(h, i, size);
    var linked := Link(Take(h, i, size), a, i);
    assert linked.free[i] == a && linked.free[i + 1] == cut;
    assert linked.free[..i + 1] + linked.free[i + 2..] == h.free;
    assert (linked.regions - {cut})[a := Region(Free, h.regions[a].hi)] == h.regions;
  }

  lemma UntakeWhole(h: Heap, i: nat, size: nat)
    requires Valid(h) && i < |h.free| && size <= Size(h, h.free[i]) <= size + BLOCK_T
    ensures Link(Take(h, i, size), h.free[i], i) == h
  {}

  lemma ReleaseAt(h1: Heap, a: nat, i: nat, h: Heap)
    requires IsLive(h1, a) && Slot(h1.free, a) == i
    requires Merge(Link(h1, a, i), i) == h && forall j :: Gap(h, j)
    ensures Release(h1, a) == h
  {
    if i > 0 {
      MergeNoop(h, i - 1);
    }
  }

  lemma ReleaseUndoesTake(h: Heap, i: nat, size: nat)
    requires Valid(h) && Ordered(h) && i < |h.free| && size <= Size(h, h.free[i])
    requires var h1 := Take(h, i, size); |h1.free| <= 1 || h1.free[0] < h.free[i]
    ensures Release(Take(h, i, size), h.free[i]) == h
  {
    UndoSlot(h, i, size);
    if Size(h, h.free[i]) - size > BLOCK_T {
      UntakeSplit(h, i, size);
    } else {
      UntakeWhole(h, i, size);
      MergeNoop(h, i);
    }
    ReleaseAt(Take(h, i, size), h.free[i], i, h);
  }

  /** A kfree right after a kmalloc that did not grow the heap restores the whole heap exactly when
      kmalloc left at most one free block or a head below the block. */
  lemma ReleaseUndoesMallocIff(h: Heap, size: nat)
    requires Valid(h) && Ordered(h) && !Grows(h, size)
    ensures var h1, a := Malloc(Corrected, h, size), Served(h, size);
      IsLive(h1, a) && (Release(h1, a) == h <==> |h1.free| <= 1 || h1.free[0] < a)
  {
    var i := FirstFit(h, size, 0);
    var h1, a := Malloc(Corrected, h, size), Served(h, size);
    if |h1.free| <= 1 || h1.free[0] < a {
      ReleaseUndoesTake(h, i, size);
    } else {
      TakeServes(h, i, size);
      TakeTiles(h, i, size);
      TakeLists(h, i, size);
      MallocOrders(h, size);
      ReleaseOrdersIff(h1, a);
    }
  }

  lemma UndoSlot(h: Heap, i: nat, size: nat)
    requires Ascending(h) && i < |h.free| && h.free[i] in h.regions
    requires var h1 := Take(h, i, size); |h1.free| <= 1 || h1.free[0] < h.free[i]
    ensures Slot(Take(h, i, size).free, h.free[i]) == i
  {
    var h1 := Take(h, i, size);
    assert i < |h1.free| ==> h.free[i] < h1.free[i];
    assert forall j :: 0 <= j < i ==> h1.free[j] == h.free[j] < h.free[i];
    PositionIs(h1.free, h.free[i], if |h1.free| <= 1 then 0 else 1, i);
  }
}
