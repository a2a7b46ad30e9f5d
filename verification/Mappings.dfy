/** What mapping a page means for translation, and the lines of mm.c that fall short of it. */
module Mappings {
  import opened Options
  import opened Pages
  import opened PageEntries
  import opened Paging
  import opened PageTree
  import opened AddressSpace

  ghost predicate Mapped(mem: Memory, root: nat, virt: nat) {
    !WalkOf(mem, root, PageOf(virt)).Missing?
  }

  /** Every address of a page whose walk ends in frame a translates to that frame plus its offset. */
  lemma MappedTranslates(mem: Memory, root: nat, page: nat, a: Frame, virt: nat)
    requires var w := WalkOf(mem, root, page); w.Leaf? && w.entry.address == a
    requires PageOf(virt) == page
    ensures TranslateVia(mem, root, virt) == a * PAGE_SIZE + virt % PAGE_SIZE
  {
    TranslateIsWalk(mem, root, virt);
  }

  /** Mapping another page changes no mapped address and maps no unmapped one. */
  lemma OthersTranslateAlike(mem: Memory, mem': Memory, root: nat, page: nat, virt: nat)
    requires ExtendedBut(root, mem, mem', page) && PageOf(virt) != page
    ensures Mapped(mem, root, virt) <==> Mapped(mem', root, virt)
    ensures Mapped(mem, root, virt) ==> TranslateVia(mem', root, virt) == TranslateVia(mem, root, virt)
    ensures !Mapped(mem, root, virt) ==> TWO_TO_64 - 4 <= TranslateVia(mem', root, virt) < TWO_TO_64
    ensures Mapped(mem, root, virt) ==> CanWrite(mem', root, 4, PageOf(virt)) == CanWrite(mem, root, 4, PageOf(virt))
  {
    hide WalkOf, CanWrite, TablesWritable, TranslateVia;
    assert Kept(root, mem, mem', PageOf(virt));
    TranslateIsWalk(mem, root, virt);
    TranslateIsWalk(mem', root, virt);
  }

  /** Line 75 as written maps a page to the right frame exactly when that is frame 0. */
  lemma StoredIsRightIff(line75: Line75, phys: nat)
    requires phys % PAGE_SIZE == 0 && phys < TWO_TO_40 * PAGE_SIZE
    ensures Stored(line75, phys) * PAGE_SIZE == phys <==> line75 == FrameNumber || phys == 0
  {}

  // ---------- Tables installed without being cleared

  /** Pages under the same entry of level k have the same indices from there up. */
  lemma {:induction false} SameIndex(page: nat, w: nat, k: nat, level: nat)
    requires 2 <= k <= level <= 4 && Prefix(page, k - 1) == Prefix(w, k - 1)
    ensures Index(page, level) == Index(w, level)
    decreases level - k
  {
    hide Prefix, Index;
    PrefixStep(page, k);
    PrefixStep(w, k);
    if k < level {
      SameIndex(page, w, k + 1, level);
    }
  }

  /** They are reached through the same tables. */
  lemma {:induction false} SamePath(mem: Memory, g: nat, level: nat, page: nat, w: nat, k: nat)
    requires 2 <= k <= level <= 4 && Prefix(page, k - 1) == Prefix(w, k - 1)
    ensures TableOn(mem, g, level, page, k) == TableOn(mem, g, level, w, k)
    decreases level
  {
    if k < level {
      SameIndex(page, w, k, level);
      SamePath(mem, TableAt(mem, g)[Index(page, level)].address, level - 1, page, w, k);
    }
  }

  /** The walk from table g does not come through table f. */
  ghost predicate Avoids(mem: Memory, f: nat, g: nat, level: nat, page: nat)
    requires 1 <= level <= 4
  {
    forall k :: 1 <= k <= level ==> TableOn(mem, g, level, page, k) != Some(f)
  }

  /** Then it does not see what is written there. */
  lemma {:induction false} WalkAround(mem: Memory, f: nat, i: nat, e: Entry, g: nat, level: nat, page: nat)
    requires 1 <= level <= 4 && i < 512 && Avoids(mem, f, g, level, page)
    ensures Descend(WithEntry(mem, f, i, e), g, level, page) == Descend(mem, g, level, page)
    decreases level
  {
    var entry := TableAt(mem, g)[Index(page, level)];
    assert TableOn(mem, g, level, page, level) == Some(g);
    EntryAfter(mem, f, i, e, g, Index(page, level));
    if level > 1 && Present(entry) && !IsLarge(entry, level) {
      var below := level - 1;
      forall k | 1 <= k <= below
        ensures TableOn(mem, entry.address, below, page, k) != Some(f)
      {
        assert TableOn(mem, g, level, page, k) != Some(f);
      }
      WalkAround(mem, f, i, e, entry.address, below, page);
    }
  }

  /** mm.c:64-68 at one level: table f has no entry for the page, and gets e, a frame that is not a table yet. */
  ghost predicate FillsAbsent(mem: Memory, root: nat, owner: Owner, f: nat, e: Entry, page: nat, level: nat) {
    && Tree(mem, root, owner) && page < PAGES && 2 <= level <= 4
    && TableOn(mem, root, 4, page, level) == Some(f) && !Present(TableAt(mem, f)[Index(page, level)])
    && e.address !in owner && Present(e) && !Huge(e)
  }

  /** Before, no page under the entry is mapped; after, each is walked through the words the frame held. */
  lemma FilledWalk(mem: Memory, root: nat, owner: Owner, f: nat, e: Entry, page: nat, level: nat, w: nat)
    requires FillsAbsent(mem, root, owner, f, e, page, level)
    requires w < PAGES && Prefix(w, level - 1) == Prefix(page, level - 1)
    ensures WalkOf(mem, root, w) == Missing(level)
    ensures var mem' := WithEntry(mem, f, Index(page, level), e);
      && TableAt(mem', e.address) == TableAt(mem, e.address)
      && WalkOf(mem', root, w) == Descend(mem', e.address, level - 1, w)
  {
    hide Tree, Prefix, Index;
    var i := Index(page, level);
    var mem' := WithEntry(mem, f, i, e);
    ServesOnPath(mem, root, owner, page, level);
    SamePath(mem, root, 4, page, w, level);
    SameIndex(page, w, level, level);
    RootServes(mem, root, owner, w);
    WalkFrom(mem, root, 4, w, level);
    PathKept(mem, root, owner, f, i, e, root, 4, w, level);
    WalkFrom(mem', root, 4, w, level);
    EntryAfter(mem, f, i, e, f, i);
  }

  /** mm.c:65-67 installs a table without clearing it, at any of three levels: every page under the
      entry, missing before, then walks as the words left in the frame say. They are read in the new
      memory; unless they lead back to the table being filled, the old memory says the same. */
  lemma UnclearedTable(mem: Memory, root: nat, owner: Owner, f: nat, e: Entry, page: nat, level: nat, w: nat)
    requires FillsAbsent(mem, root, owner, f, e, page, level)
    requires w < PAGES && Prefix(w, level - 1) == Prefix(page, level - 1)
    ensures WalkOf(mem, root, w) == Missing(level)
    ensures var mem' := WithEntry(mem, f, Index(page, level), e);
      && WalkOf(mem', root, w) == Descend(mem', e.address, level - 1, w)
      && (Avoids(mem, f, e.address, level - 1, w) ==> WalkOf(mem', root, w) == Descend(mem, e.address, level - 1, w))
  {
    FilledWalk(mem, root, owner, f, e, page, level, w);
    if Avoids(mem, f, e.address, level - 1, w) {
      WalkAround(mem, f, Index(page, level), e, e.address, level - 1, w);
    }
  }

  /** For a PML1 table one old word decides. */
  lemma UnclearedPml1(mem: Memory, root: nat, owner: Owner, f: nat, e: Entry, page: nat, w: nat)
    requires FillsAbsent(mem, root, owner, f, e, page, 2)
    requires w < PAGES && Prefix(w, 1) == Prefix(page, 1)
    ensures WalkOf(WithEntry(mem, f, Index(page, 2), e), root, w).Missing? <==>
      !Present(TableAt(mem, e.address)[Index(w, 1)])
  {
    FilledWalk(mem, root, owner, f, e, page, 2, w);
  }

  /** A frame without present words suffices at every level, for all pages under the entry. */
  lemma ClearedTable(mem: Memory, root: nat, owner: Owner, f: nat, e: Entry, page: nat, level: nat, w: nat)
    requires FillsAbsent(mem, root, owner, f, e, page, level) && Vacant(mem, e.address)
    requires w < PAGES && Prefix(w, level - 1) == Prefix(page, level - 1)
    ensures WalkOf(WithEntry(mem, f, Index(page, level), e), root, w) == Missing(level - 1)
  {
    FilledWalk(mem, root, owner, f, e, page, level, w);
  }

  /** Frame 2 with one leftover word becomes a PML3 table: a gigabyte nobody mapped is mapped. */
  lemma UnclearedPml3MapsGigabyte(w: nat)
    requires 3 * 0x4_0000 <= w < 4 * 0x4_0000
    ensures var word, e := Entry(0, PRESENT | HUGE), Entry(2, Mark(NO_ENTRY.bits, WRITABLE));
      var mem := map[2 := ZERO_TABLE[3 := word]];
      && FillsAbsent(mem, 1, map[1 := Node(4, 0)], 1, e, 0, 4)
      && WalkOf(mem, 1, w) == Missing(4)
      && WalkOf(WithEntry(mem, 1, 0, e), 1, w) == Large(3, word)
  {
    var word, e := Entry(0, PRESENT | HUGE), Entry(2, Mark(NO_ENTRY.bits, WRITABLE));
    var mem := map[2 := ZERO_TABLE[3 := word]];
    MarkSets(NO_ENTRY.bits, WRITABLE);
    assert Index(0, 4) == 0 && Index(w, 4) == 0 && Index(w, 3) == 3;
    assert TableOn(mem, 1, 4, 0, 4) == Some(1);
    FilledWalk(mem, 1, map[1 := Node(4, 0)], 1, e, 0, 4, w);
  }

  /** Words leading back: the only word of frame 2 names the PML4 it is put into, so a page that the
      old words leave missing is mapped, to the PML4 itself. */
  lemma UnclearedLeadsBack()
    ensures var word, e := Entry(1, PRESENT), Entry(2, Mark(NO_ENTRY.bits, WRITABLE));
      var mem := map[2 := ZERO_TABLE[0 := word]];
      && FillsAbsent(mem, 1, map[1 := Node(4, 0)], 1, e, 0, 4)
      && Descend(mem, 2, 3, 0) == Missing(2)
      && WalkOf(WithEntry(mem, 1, 0, e), 1, 0) == Leaf(word)
  {
    var word, e := Entry(1, PRESENT), Entry(2, Mark(NO_ENTRY.bits, WRITABLE));
    var mem := map[2 := ZERO_TABLE[0 := word]];
    MarkSets(NO_ENTRY.bits, WRITABLE);
    assert TableOn(mem, 1, 4, 0, 4) == Some(1);
    assert !Huge(word) && Present(word);
    assert forall level :: 1 <= level <= 4 ==> Index(0, level) == 0;
    var mem' := WithEntry(mem, 1, 0, e);
    assert TableAt(mem', 1)[0] == e && TableAt(mem', 2)[0] == word;
    assert Descend(mem', 2, 1, 0) == Leaf(word);
    assert Descend(mem', 1, 2, 0) == Leaf(word);
    assert Descend(mem', 2, 3, 0) == Leaf(word);
  }
}
