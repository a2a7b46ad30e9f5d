/** map_addr_in: pages added to live page tables with frames from the bitmap allocator. */
module AddressSpace {
  import opened Options
  import opened Pages
  import opened PageEntries
  import opened Paging
  import opened PageTree
  import opened Frames

  /** What mm.c:75 puts in the address field: the byte address as written, or the frame number the
      walkers expect. */
  datatype Line75 = AsWritten | FrameNumber

  function Stored(line75: Line75, phys: nat): Frame {
    (match line75
     case AsWritten => phys
     case FrameNumber => phys / PAGE_SIZE) % TWO_TO_40
  }

  /** The page's walk and whether it can be written are the same, except that a missing page may be
      missing at another level; and no read-only table came into its way. */
  ghost predicate Kept(root: nat, mem: Memory, mem': Memory, w: nat) {
    && Extends(WalkOf(mem, root, w), WalkOf(mem', root, w))
    && (!WalkOf(mem, root, w).Missing? ==> CanWrite(mem', root, 4, w) == CanWrite(mem, root, 4, w))
    && (TablesWritable(mem, root, 4, w) ==> TablesWritable(mem', root, 4, w))
  }

  /** That holds of every page. */
  ghost predicate Extended(root: nat, mem: Memory, mem': Memory) {
    forall w: nat :: w < PAGES ==> Kept(root, mem, mem', w)
  }

  /** The same for every page but one. */
  ghost predicate ExtendedBut(root: nat, mem: Memory, mem': Memory, page: nat) {
    forall w: nat :: w < PAGES && w != page ==> Kept(root, mem, mem', w)
  }

  lemma ExtendedSelf(root: nat, mem: Memory)
    ensures Extended(root, mem, mem)
  {}

  lemma InstallTree(mem: Memory, root: nat, owner: Owner, f: nat, i: nat, e: Entry)
    requires CanInstall(mem, root, owner, f, i, e)
    ensures i < 512 && Tree(mem, root, owner)
  {}

  lemma InstallIsExtension(mem: Memory, root: nat, owner: Owner, f: nat, i: nat, e: Entry)
    requires CanInstall(mem, root, owner, f, i, e) && Writable(e)
    ensures Extended(root, mem, WithEntry(mem, f, i, e))
  {
    hide Tree, CanInstall, Descend, CanWrite, TablesWritable;
    InstallTree(mem, root, owner, f, i, e);
    forall w: nat | w < PAGES
      ensures Kept(root, mem, WithEntry(mem, f, i, e), w)
    {
      RootServes(mem, root, owner, w);
      InstallExtends(mem, root, owner, f, i, e, root, 4, w);
      InstallKeepsWrite(mem, root, owner, f, i, e, root, 4, w);
    }
  }

  lemma InstallPath(mem: Memory, root: nat, owner: Owner, f: nat, e: Entry, page: nat, level: nat)
    requires 2 <= level <= 4 && page < PAGES && TableOn(mem, root, 4, page, level) == Some(f)
    requires CanInstall(mem, root, owner, f, Index(page, level), e) && Serves(owner, f, level, page)
    ensures TableOn(WithEntry(mem, f, Index(page, level), e), root, 4, page, level - 1) == Some(e.address)
  {}

  lemma ServedPage(owner: Owner, f: nat, page: nat)
    requires Serves(owner, f, 1, page)
    ensures f in owner && page == owner[f].prefix * 512 + Index(page, 1)
  {
    PageFromPrefix(page);
  }

  lemma SetIsLocal(mem: Memory, root: nat, owner: Owner, f: nat, e: Entry, page: nat)
    requires page < PAGES && TableOn(mem, root, 4, page, 1) == Some(f)
    requires CanSet(mem, root, owner, f, Index(page, 1)) && Serves(owner, f, 1, page) && Present(e)
    ensures var mem' := WithEntry(mem, f, Index(page, 1), e);
      && WalkOf(mem', root, page) == Leaf(e) && ExtendedBut(root, mem, mem', page)
      && TableOn(mem', root, 4, page, 1) == Some(f)
      && (TablesWritable(mem, root, 4, page) ==> TablesWritable(mem', root, 4, page))
      && (TablesWritable(mem, root, 4, page) && Writable(e) ==> CanWrite(mem', root, 4, page))
  {
    hide Tree, Serves, CanWrite, TablesWritable;
    var i := Index(page, 1);
    var mem' := WithEntry(mem, f, i, e);
    RootServes(mem, root, owner, page);
    PathKept(mem, root, owner, f, i, e, root, 4, page, 1);
    WalkFrom(mem', root, 4, page, 1);
    EntryAfter(mem, f, i, e, f, i);
    SetKeepsWrite(mem, root, owner, f, i, e, root, 4, page);
    CanWriteIff(mem', root, 4, page, f);
    ServedPage(owner, f, page);
    forall w: nat | w < PAGES && w != page
      ensures Kept(root, mem, mem', w)
    {
      RootServes(mem, root, owner, w);
      SetChangesOne(mem, root, owner, f, i, e, root, 4, w);
      SetKeepsWrite(mem, root, owner, f, i, e, root, 4, w);
    }
  }

  /** Frames not in use would make empty tables. */
  ghost predicate VacantOutside(used: set<nat>, mem: Memory) {
    forall f: nat :: f !in used ==> Vacant(mem, f)
  }

  /** The tables form a tree on frames in use. */
  ghost predicate Sound(used: set<nat>, mem: Memory, root: nat, owner: Owner) {
    Tree(mem, root, owner) && owner.Keys <= used && VacantOutside(used, mem)
  }

  lemma VacantAfter(used: set<nat>, used': set<nat>, mem: Memory, f: nat, i: nat, e: Entry)
    requires VacantOutside(used, mem) && f in used && used <= used' && i < 512
    ensures VacantOutside(used', WithEntry(mem, f, i, e))
  {
    forall g: nat | g !in used'
      ensures Vacant(WithEntry(mem, f, i, e), g)
    {
      assert Vacant(mem, g) && TableAt(WithEntry(mem, f, i, e), g) == TableAt(mem, g);
    }
  }

  lemma NotLargeHere(mem: Memory, root: nat, page: nat, level: nat, f: nat)
    requires 1 <= level <= 4 && TableOn(mem, root, 4, page, level) == Some(f) && !WalkOf(mem, root, page).Large?
    ensures var e := TableAt(mem, f)[Index(page, level)]; Present(e) && level > 1 ==> !IsLarge(e, level)
  {}

  /** Putting a table on a free frame into the absent entry on the page's path. */
  lemma InstallSound(used: set<nat>, mem: Memory, root: nat, owner: Owner, f: nat, e: Entry, page: nat, level: nat)
    requires Sound(used, mem, root, owner) && 2 <= level <= 4 && page < PAGES
    requires TableOn(mem, root, 4, page, level) == Some(f) && !Present(TableAt(mem, f)[Index(page, level)])
    requires e.address !in used && Present(e) && !Huge(e) && Writable(e)
    ensures f in owner && owner[f].level > 1
    ensures var mem' := WithEntry(mem, f, Index(page, level), e);
      && Sound(used + {e.address}, mem', root, Adopt(owner, f, Index(page, level), e.address))
      && Extended(root, mem, mem')
      && TableOn(mem', root, 4, page, level - 1) == Some(e.address)
  {
    hide Tree, TableOn, Extended;
    ServesOnPath(mem, root, owner, page, level);
    InstallKeepsTree(mem, root, owner, f, Index(page, level), e);
    InstallIsExtension(mem, root, owner, f, Index(page, level), e);
    InstallPath(mem, root, owner, f, e, page, level);
    assert f in owner.Keys;
    VacantAfter(used, used + {e.address}, mem, f, Index(page, level), e);
  }

  lemma ServesOnPath(mem: Memory, root: nat, owner: Owner, page: nat, level: nat)
    requires Tree(mem, root, owner) && page < PAGES && 1 <= level <= 4
    ensures var t := TableOn(mem, root, 4, page, level); t.Some? ==> Serves(owner, t.value, level, page)
  {
    RootServes(mem, root, owner, page);
    TableOnServes(mem, root, owner, root, 4, page, level);
  }

  /** Setting the page's own entry. */
  lemma SetSound(used: set<nat>, mem: Memory, root: nat, owner: Owner, f: nat, e: Entry, page: nat)
    requires Sound(used, mem, root, owner) && page < PAGES && TableOn(mem, root, 4, page, 1) == Some(f) && Present(e)
    ensures var mem' := WithEntry(mem, f, Index(page, 1), e);
      && Sound(used, mem', root, owner) && WalkOf(mem', root, page) == Leaf(e) && ExtendedBut(root, mem, mem', page)
      && TableOn(mem', root, 4, page, 1) == Some(f) && f in owner && owner[f].level == 1
      && (TablesWritable(mem, root, 4, page) ==> TablesWritable(mem', root, 4, page))
      && (TablesWritable(mem, root, 4, page) && Writable(e) ==> CanWrite(mem', root, 4, page))
  {
    hide Tree, TableOn, ExtendedBut, WalkOf, CanWrite, TablesWritable;
    ServesOnPath(mem, root, owner, page, 1);
    SetKeepsTree(mem, root, owner, f, Index(page, 1), e);
    SetIsLocal(mem, root, owner, f, e, page);
    assert f in owner.Keys;
    VacantAfter(used, used, mem, f, Index(page, 1), e);
  }

  /** The frames newly in use, all free before, are the new tables. */
  ghost predicate TablesAdded(used: set<nat>, used': set<nat>, owner: Owner, owner': Owner) {
    && (forall f :: f in owner ==> f in owner' && owner'[f] == owner[f])
    && used' == used + (owner'.Keys - owner.Keys)
    && used !! owner'.Keys - owner.Keys
  }

  /** Only tables above the lowest level have changed. */
  ghost predicate LeavesKept(mem: Memory, mem': Memory, owner: Owner) {
    forall f: nat :: (f in owner ==> owner[f].level == 1) ==> TableAt(mem', f) == TableAt(mem, f)
  }

  lemma LeavesAfter(a: Memory, b: Memory, c: Memory, used: set<nat>, used': set<nat>, owner: Owner, owner': Owner)
    requires LeavesKept(a, b, owner) && LeavesKept(b, c, owner') && TablesAdded(used, used', owner, owner')
    ensures LeavesKept(a, c, owner')
  {}

  lemma AddedTrans(used: set<nat>, used': set<nat>, used'': set<nat>, owner: Owner, owner': Owner, owner'': Owner)
    requires TablesAdded(used, used', owner, owner') && TablesAdded(used', used'', owner', owner'')
    ensures TablesAdded(used, used'', owner, owner'')
  {}

  lemma NothingAdded(mem: Memory, used: set<nat>, owner: Owner)
    ensures TablesAdded(used, used, owner, owner) && LeavesKept(mem, mem, owner)
  {}

  lemma LeafKept(mem: Memory, mem': Memory, owner: Owner, f: nat)
    requires LeavesKept(mem, mem', owner) && f in owner && owner[f].level == 1
    ensures TableAt(mem', f) == TableAt(mem, f)
  {}

  class AddressSpace {
    const alloc: FrameAllocator
    /** The frame current_pml4 points to. */
    const root: nat
    var mem: Memory
    ghost var owner: Owner

    /** The tables form a tree on frames in use, and frames not in use hold no present entry. */
    ghost predicate Valid()
      reads this, alloc, alloc.frames
    {
      && alloc.Valid() && alloc.nframes < 0x10_0000
      && Sound(alloc.InUse(), mem, root, owner)
    }

    constructor (alloc: FrameAllocator, root: nat, mem: Memory, ghost owner: Owner)
      requires alloc.Valid() && alloc.nframes < 0x10_0000 && Sound(alloc.InUse(), mem, root, owner)
      ensures Valid() && this.alloc == alloc && this.root == root && this.mem == mem && this.owner == owner
    {
      this.alloc, this.root, this.mem, this.owner := alloc, root, mem, owner;
    }

    /** mm.c:62-71: follow entry idx of `table`, adding a table if it is absent; None only when no frame is left. */
    method NextTable(table: nat, idx: nat, ghost level: nat, ghost page: nat) returns (r: Option<nat>)
      requires Valid() && 2 <= level <= 4 && page < PAGES && idx == Index(page, level)
      requires TableOn(mem, root, 4, page, level) == Some(table) && !WalkOf(mem, root, page).Large?
      modifies `mem, `owner, alloc.frames, alloc`unavailable
      ensures Valid() && Extended(root, old(mem), mem)
      ensures r.Some? ==> TableOn(mem, root, 4, page, level - 1) == r
      ensures r.None? ==> alloc.Exhausted() && old(alloc.Exhausted())
      ensures alloc.Free() + 1 >= old(alloc.Free())
      ensures TablesAdded(old(alloc.InUse()), alloc.InUse(), old(owner), owner)
      ensures LeavesKept(old(mem), mem, owner)
    {
      hide Used, TableOn, Tree, WalkOf, VacantOutside;
      ghost var used := alloc.InUse();
      NotLargeHere(mem, root, page, level, table);
      if !Present(TableAt(mem, table)[idx]) {
        var tablePage := alloc.PageAlloc(NO_ENTRY, WRITABLE);
        if tablePage.None? {
          ExtendedSelf(root, mem);
          return None;
        }
        MarkSets(NO_ENTRY.bits, WRITABLE);
        MarkWrites(NO_ENTRY.bits, WRITABLE);
        InstallSound(used, mem, root, owner, table, tablePage.value, page, level);
        owner := Adopt(owner, table, idx, tablePage.value.address);
        mem := WithEntry(mem, table, idx, tablePage.value);
        return Some(tablePage.value.address);
      }
      ExtendedSelf(root, mem);
      TableOnNext(mem, root, 4, page, level);
      r := Some(TableAt(mem, table)[idx].address);
    }

    /** map_addr_in for the current PML4: false only when the frames run out, where the source has no
        defined result. A page with no huge entry on its path is mapped, and no other page is. */
    method MapAddr(line75: Line75, virt: nat, phys: nat, flags: bv64) returns (ok: bool)
      requires Valid() && virt % PAGE_SIZE == 0 && phys % PAGE_SIZE == 0
      requires !WalkOf(mem, root, PageOf(virt)).Large?
      modifies `mem, `owner, alloc.frames, alloc`unavailable
      ensures Valid()
      ensures ok ==>
        var table := TableOn(mem, root, 4, PageOf(virt), 1);
        && table.Some?
        && var word := TableAt(old(mem), table.value)[Index(PageOf(virt), 1)];
           WalkOf(mem, root, PageOf(virt)) == Leaf(Entry(Stored(line75, phys), Mark(word.bits, flags)))
      ensures !ok ==> alloc.Exhausted() && old(alloc.Free()) < 3
      ensures alloc.Free() + 3 >= old(alloc.Free())
      ensures ok && flags & WRITABLE != 0 && TablesWritable(old(mem), root, 4, PageOf(virt)) ==>
        CanWrite(mem, root, 4, PageOf(virt))
      ensures TablesWritable(old(mem), root, 4, PageOf(virt)) ==> TablesWritable(mem, root, 4, PageOf(virt))
      ensures !ok ==> Extended(root, old(mem), mem)
      ensures ExtendedBut(root, old(mem), mem, PageOf(virt))
      ensures TablesAdded(old(alloc.InUse()), alloc.InUse(), old(owner), owner)
    {
      hide Used, TableOn, Tree, WalkOf, VacantOutside, Extended, ExtendedBut, Sound, TablesAdded, LeavesKept;
      hide CanWrite, TablesWritable, FreeFrames;
      ghost var page := PageOf(virt);
      var pageAddr := virt / PAGE_SIZE;
      var table := root;
      TableOnTop(mem, root, page);
      ExtendedSelf(root, mem);
      NothingAdded(mem, alloc.InUse(), owner);
      var i := 0;
      while i < 3
        invariant 0 <= i <= 3 && Valid()
        invariant TableOn(mem, root, 4, page, 4 - i) == Some(table) && !WalkOf(mem, root, page).Large?
        invariant Extended(root, old(mem), mem)
        invariant TablesAdded(old(alloc.InUse()), alloc.InUse(), old(owner), owner)
        invariant LeavesKept(old(mem), mem, owner)
        invariant alloc.Free() + i >= old(alloc.Free())
      {
        var idx := PathIndex(pageAddr, i);
        PathIndexIs(virt, i);
        ghost var before, used, tables := mem, alloc.InUse(), owner;
        var next := NextTable(table, idx, 4 - i, page);
        ExtendedTrans(root, old(mem), before, mem, page);
        LeavesAfter(old(mem), before, mem, used, alloc.InUse(), tables, owner);
        AddedTrans(old(alloc.InUse()), used, alloc.InUse(), old(owner), tables, owner);
        if next.None? {
          return false;
        }
        table := next.value;
        i := i + 1;
      }
      var idx := pageAddr % 512;
      var entry := TableAt(mem, table)[idx];
      entry := entry.(address := Stored(line75, phys), bits := Mark(entry.bits, flags));
      MarkSets(TableAt(mem, table)[idx].bits, flags);
      MarkWrites(TableAt(mem, table)[idx].bits, flags);
      ExtendedTables(root, old(mem), mem, page);
      PathIndexIs(virt, 3);
      SetSound(alloc.InUse(), mem, root, owner, table, entry, page);
      LeafKept(old(mem), mem, owner, table);
      ExtendedThenBut(root, old(mem), mem, WithEntry(mem, table, idx, entry), page);
      mem := WithEntry(mem, table, idx, entry);
      return true;
    }
  }

  /** (page_addr >> (27 - i*9)) & PML_ENTRY_MASK */
  function PathIndex(pageAddr: nat, i: nat): nat
    requires i <= 3
  {
    match i
    case 0 => pageAddr / 0x800_0000 % 512
    case 1 => pageAddr / 0x4_0000 % 512
    case 2 => pageAddr / 512 % 512
    case _ => pageAddr % 512
  }

  lemma ShiftedSum(h: nat, p: nat)
    ensures (h * 0x10_0000_0000 + p) / 0x800_0000 == h * 512 + p / 0x800_0000
    ensures (h * 0x10_0000_0000 + p) / 0x4_0000 == h * 0x4_0000 + p / 0x4_0000
    ensures (h * 0x10_0000_0000 + p) / 512 == h * 0x800_0000 + p / 512
  {}

  lemma MaskedSum(n: nat, p: nat)
    ensures (n * 512 + p) % 512 == p % 512
  {}

  lemma IndexIgnoresHighBits(h: nat, p: nat, i: nat)
    requires i <= 3
    ensures PathIndex(h * 0x10_0000_0000 + p, i) == Index(p, 4 - i)
  {
    ShiftedSum(h, p);
    match i
    case 0 => MaskedSum(h, p / 0x800_0000);
    case 1 => MaskedSum(h * 512, p / 0x4_0000);
    case 2 => MaskedSum(h * 0x4_0000, p / 512);
    case _ => MaskedSum(h * 0x800_0000, p);
  }

  /** The indices map_addr_in takes without masking the address are those of the walkers. */
  lemma PathIndexIs(virt: nat, i: nat)
    requires i <= 3
    ensures PathIndex(virt / PAGE_SIZE, i) == Index(PageOf(virt), 4 - i)
  {
    hide PathIndex, Index;
    IndexIgnoresHighBits(virt / TWO_TO_48, PageOf(virt), i);
    assert virt / PAGE_SIZE == virt / TWO_TO_48 * 0x10_0000_0000 + PageOf(virt);
  }

  lemma TableOnTop(mem: Memory, root: nat, page: nat)
    ensures TableOn(mem, root, 4, page, 4) == Some(root)
  {}

  lemma ExtendedTrans(root: nat, a: Memory, b: Memory, c: Memory, page: nat)
    requires Extended(root, a, b) && Extended(root, b, c) && page < PAGES
    ensures Extended(root, a, c)
    ensures !WalkOf(b, root, page).Large? ==> !WalkOf(c, root, page).Large?
    ensures Extends(WalkOf(a, root, page), WalkOf(c, root, page)) && ExtendedBut(root, a, c, page)
    ensures TablesWritable(a, root, 4, page) ==> TablesWritable(c, root, 4, page)
  {
    hide WalkOf, CanWrite, TablesWritable;
    forall w: nat | w < PAGES
      ensures Kept(root, a, c, w)
    {
      assert Kept(root, a, b, w) && Kept(root, b, c, w);
    }
    assert Kept(root, a, c, page) && Kept(root, b, c, page);
  }

  lemma ExtendedTables(root: nat, a: Memory, b: Memory, page: nat)
    requires Extended(root, a, b) && page < PAGES
    ensures TablesWritable(a, root, 4, page) ==> TablesWritable(b, root, 4, page)
  {
    assert Kept(root, a, b, page);
  }

  lemma ExtendedThenBut(root: nat, a: Memory, b: Memory, c: Memory, page: nat)
    requires Extended(root, a, b) && ExtendedBut(root, b, c, page)
    ensures ExtendedBut(root, a, c, page)
  {
    hide WalkOf, CanWrite, TablesWritable;
    forall w: nat | w < PAGES && w != page
      ensures Kept(root, a, c, w)
    {
      assert Kept(root, a, b, w) && Kept(root, b, c, w);
    }
  }
}
