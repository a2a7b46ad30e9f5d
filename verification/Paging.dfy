/** mm.c: four-level page tables in physical memory, and the three ways it walks them. */
module Paging {
  import opened Options
  import opened Pages
  import opened PageEntries

  const TWO_TO_48: nat := 0x1_0000_0000_0000
  const PAGES: nat := 0x10_0000_0000
  const HIGH_MAP_REGION: nat := 0xFFFF_FF80_0000_0000

  // ---------- Bitwise or

  /** The C operator | on unsigned numbers. */
  function Or(a: nat, b: nat): nat
    decreases a + b
  {
    if a == 0 then b
    else if b == 0 then a
    else 2 * Or(a / 2, b / 2) + (if a % 2 == 1 || b % 2 == 1 then 1 else 0)
  }

  function Pow2(k: nat): (r: nat)
    ensures r > 0
  {
    if k == 0 then 1 else 2 * Pow2(k - 1)
  }

  /** Numbers whose bits lie apart are or-ed by adding them. */
  lemma {:induction false} OrIsSum(n: nat, b: nat, k: nat)
    requires b < Pow2(k)
    ensures Or(n * Pow2(k), b) == n * Pow2(k) + b
    decreases k
  {
    if k > 0 && n > 0 && b > 0 {
      var a := n * Pow2(k);
      assert a == 2 * (n * Pow2(k - 1));
      OrIsSum(n, b / 2, k - 1);
    }
  }

  lemma Pow2s()
    ensures Pow2(12) == 4096 && Pow2(21) == 0x20_0000 && Pow2(30) == 0x4000_0000 && Pow2(39) == 0x80_0000_0000
  {}

  // ---------- Tables

  /** n absent entries. */
  function Blank(n: nat): (t: seq<Entry>)
    ensures |t| == n && forall i :: 0 <= i < n ==> t[i] == NO_ENTRY
  {
    if n == 0 then [] else Blank(n - 1) + [NO_ENTRY]
  }

  type Table = t: seq<Entry> | |t| == 512 witness Blank(512)

  const ZERO_TABLE: Table := Blank(512)

  /** Physical memory by frame number, as the direct map at HIGH_MAP_REGION shows it; frames
      not in the map hold zeros. */
  type Memory = map<nat, Table>

  function TableAt(mem: Memory, f: nat): Table {
    if f in mem then mem[f] else ZERO_TABLE
  }

  /** The page number the walkers use: 36 bits of the 48 canonical ones. */
  function PageOf(virt: nat): (page: nat)
    ensures page < PAGES
  {
    virt % TWO_TO_48 / PAGE_SIZE
  }

  /** The index into the table of the given level, 4 for the PML4 down to 1 for a PML1. */
  function Index(page: nat, level: nat): (i: nat)
    ensures i < 512
  {
    match level
    case 4 => page / 0x800_0000 % 512
    case 3 => page / 0x4_0000 % 512
    case 2 => page / 512 % 512
    case _ => page % 512
  }

  /** Which table of that level serves the page. */
  function Prefix(page: nat, level: nat): nat {
    match level
    case 4 => page / 0x10_0000_0000
    case 3 => page / 0x800_0000
    case 2 => page / 0x4_0000
    case _ => page / 512
  }

  lemma PrefixStep(page: nat, level: nat)
    requires 2 <= level <= 4
    ensures Prefix(page, level - 1) == Prefix(page, level) * 512 + Index(page, level)
  {
    match level
    case 2 => assert page / 0x4_0000 == page / 512 / 512;
    case 3 => assert page / 0x800_0000 == page / 0x4_0000 / 512;
    case 4 => assert page / 0x10_0000_0000 == page / 0x800_0000 / 512;
  }

  lemma PageFromPrefix(page: nat)
    ensures page == Prefix(page, 1) * 512 + Index(page, 1)
  {}

  // ---------- Walking

  /** Where a walk ends: an absent entry, a huge page, or a page. */
  datatype Walk = Missing(level: nat) | Large(level: nat, entry: Entry) | Leaf(entry: Entry)

  /** An entry that maps memory itself instead of naming the next table. */
  predicate IsLarge(e: Entry, level: nat) {
    level <= 3 && Huge(e)
  }

  function Descend(mem: Memory, frame: nat, level: nat, page: nat): Walk
    requires 1 <= level <= 4
    decreases level
  {
    var e := TableAt(mem, frame)[Index(page, level)];
    if !Present(e) then Missing(level)
    else if level == 1 then Leaf(e)
    else if IsLarge(e, level) then Large(level, e)
    else Descend(mem, e.address, level - 1, page)
  }

  /** The walk for a page from the top. */
  function WalkOf(mem: Memory, root: nat, page: nat): Walk {
    Descend(mem, root, 4, page)
  }

  /** Every entry from this table down to the page is present and writable, so writes are let through. */
  predicate CanWrite(mem: Memory, frame: nat, level: nat, page: nat)
    requires 1 <= level <= 4
    decreases level
  {
    var e := TableAt(mem, frame)[Index(page, level)];
    && Present(e) && Writable(e)
    && (level == 1 || IsLarge(e, level) || CanWrite(mem, e.address, level - 1, page))
  }

  /** No entry naming a table on the way to the page is read-only. */
  predicate TablesWritable(mem: Memory, frame: nat, level: nat, page: nat)
    requires 1 <= level <= 4
    decreases level
  {
    level == 1 ||
    var e := TableAt(mem, frame)[Index(page, level)];
    Present(e) && !IsLarge(e, level) ==> Writable(e) && TablesWritable(mem, e.address, level - 1, page)
  }

  /** A page whose tables are all there can be written exactly when they and its own entry are writable. */
  lemma {:induction false} CanWriteIff(mem: Memory, frame: nat, level: nat, page: nat, f: nat)
    requires 1 <= level <= 4 && TableOn(mem, frame, level, page, 1) == Some(f)
    ensures var e := TableAt(mem, f)[Index(page, 1)];
      CanWrite(mem, frame, level, page) <==> TablesWritable(mem, frame, level, page) && Present(e) && Writable(e)
    decreases level
  {}

  /** -1 to -4 as u64. */
  function Negative(k: nat): nat
    requires 1 <= k <= 4
  {
    TWO_TO_64 - k
  }

  /** mmu_translate_via */
  function TranslateVia(mem: Memory, root: nat, virt: nat): nat {
    var page := PageOf(virt);
    var pml4e := TableAt(mem, root)[Index(page, 4)];
    if !Present(pml4e) then Negative(1) else
    var pml3e := TableAt(mem, pml4e.address)[Index(page, 3)];
    if !Present(pml3e) then Negative(2) else
    if Huge(pml3e) then Or(pml3e.address * PAGE_SIZE, virt % 0x4000_0000) else
    var pml2e := TableAt(mem, pml3e.address)[Index(page, 2)];
    if !Present(pml2e) then Negative(3) else
    if Huge(pml2e) then Or(pml2e.address * PAGE_SIZE, virt % 0x20_0000) else
    var pml1e := TableAt(mem, pml2e.address)[Index(page, 1)];
    if !Present(pml1e) then Negative(4) else
    Or(pml1e.address * PAGE_SIZE, virt % PAGE_SIZE)
  }

  /** What a walk's end means for an address: frame plus offset, large page or error code. */
  function Outcome(w: Walk, virt: nat): nat
    requires w.Missing? ==> 1 <= w.level <= 4
  {
    match w
    case Missing(level) => Negative(5 - level)
    case Large(level, e) => Or(e.address * PAGE_SIZE, virt % (if level == 3 then 0x4000_0000 else 0x20_0000))
    case Leaf(e) => e.address * PAGE_SIZE + virt % PAGE_SIZE
  }

  lemma {:induction false} DescendLevel(mem: Memory, frame: nat, level: nat, page: nat)
    requires 1 <= level <= 4
    ensures var w := Descend(mem, frame, level, page);
      && (w.Missing? ==> 1 <= w.level <= level)
      && (w.Large? ==> 2 <= w.level <= 3)
    decreases level
  {}

  /** A pointer into a table: the frame it is in and the index. */
  datatype Slot = Slot(frame: nat, index: nat)

  /** mmu_get_page: the PML1 slot, None for NULL. */
  function GetPage(mem: Memory, root: nat, virt: nat): Option<Slot> {
    var page := PageOf(virt);
    var pml4e := TableAt(mem, root)[Index(page, 4)];
    if !Present(pml4e) then None else
    var pml3e := TableAt(mem, pml4e.address)[Index(page, 3)];
    if !Present(pml3e) then None else
    var pml2e := TableAt(mem, pml3e.address)[Index(page, 2)];
    if !Present(pml2e) then None else
    Some(Slot(pml2e.address, Index(page, 1)))
  }

  /** The table of level k on the way to a page, None if the walk ends before. */
  function TableOn(mem: Memory, frame: nat, level: nat, page: nat, k: nat): Option<nat>
    requires 1 <= k <= level <= 4
    decreases level
  {
    if level == k then Some(frame)
    else
      var e := TableAt(mem, frame)[Index(page, level)];
      if !Present(e) || IsLarge(e, level) then None else TableOn(mem, e.address, level - 1, page, k)
  }

  /** The table of level k the lookups reach: they follow every present entry, huge or not. */
  function LookedUp(mem: Memory, frame: nat, level: nat, page: nat, k: nat): Option<nat>
    requires 1 <= k <= level <= 4
    decreases level
  {
    if level == k then Some(frame)
    else
      var e := TableAt(mem, frame)[Index(page, level)];
      if !Present(e) then None else LookedUp(mem, e.address, level - 1, page, k)
  }

  /** mmu_get_page_deep: the slots visited and 0 when the page is there. */
  method GetPageDeep(mem: Memory, root: nat, virt: nat)
    returns (code: nat, pml4: Option<Slot>, pml3: Option<Slot>, pml2: Option<Slot>, pml1: Option<Slot>)
    ensures var page := PageOf(virt);
      && pml4 == Some(Slot(root, Index(page, 4)))
      && pml3 == SlotOf(LookedUp(mem, root, 4, page, 3), Index(page, 3))
      && pml2 == SlotOf(LookedUp(mem, root, 4, page, 2), Index(page, 2))
      && pml1 == SlotOf(LookedUp(mem, root, 4, page, 1), Index(page, 1))
    ensures code == if pml1.Some? && Present(TableAt(mem, pml1.value.frame)[Index(PageOf(virt), 1)]) then 0 else 1
    ensures var w := WalkOf(mem, root, PageOf(virt)); !w.Large? ==> (code == 0 <==> w.Leaf?)
  {
    var page := PageOf(virt);
    pml3, pml2, pml1 := None, None, None;
    pml4 := Some(Slot(root, Index(page, 4)));
    var pml4e := TableAt(mem, root)[Index(page, 4)];
    if !Present(pml4e) {
      return 1, pml4, pml3, pml2, pml1;
    }
    pml3 := Some(Slot(pml4e.address, Index(page, 3)));
    var pml3e := TableAt(mem, pml4e.address)[Index(page, 3)];
    if !Present(pml3e) {
      return 1, pml4, pml3, pml2, pml1;
    }
    pml2 := Some(Slot(pml3e.address, Index(page, 2)));
    var pml2e := TableAt(mem, pml3e.address)[Index(page, 2)];
    if !Present(pml2e) {
      return 1, pml4, pml3, pml2, pml1;
    }
    pml1 := Some(Slot(pml2e.address, Index(page, 1)));
    var pml1e := TableAt(mem, pml2e.address)[Index(page, 1)];
    code := if Present(pml1e) then 0 else 1;
  }

  function SlotOf(table: Option<nat>, index: nat): Option<Slot> {
    match table
    case None => None
    case Some(frame) => Some(Slot(frame, index))
  }

  // ---------- The walkers agree

  /** Translation is the walk's outcome, for every memory and address. */
  lemma TranslateIsWalk(mem: Memory, root: nat, virt: nat)
    ensures var w := WalkOf(mem, root, PageOf(virt));
      (w.Missing? ==> 1 <= w.level <= 4) && TranslateVia(mem, root, virt) == Outcome(w, virt)
  {
    var w := WalkOf(mem, root, PageOf(virt));
    DescendLevel(mem, root, 4, PageOf(virt));
    if w.Leaf? {
      Pow2s();
      OrIsSum(w.entry.address, virt % PAGE_SIZE, 12);
    }
  }

  lemma {:induction false} OrBelow(a: nat, b: nat, k: nat)
    requires a < Pow2(k) && b < Pow2(k)
    ensures Or(a, b) < Pow2(k)
    decreases k
  {
    if a != 0 && b != 0 {
      OrBelow(a / 2, b / 2, k - 1);
    }
  }

  lemma Pow2Of52()
    ensures Pow2(52) == TWO_TO_40 * PAGE_SIZE
  {
    Pow2s();
    assert Pow2(48) == 512 * Pow2(39);
    assert Pow2(52) == 16 * Pow2(48);
  }

  /** An address under a huge entry translates to its place in the 1 GiB or 2 MiB page, provided the
      entry names an aligned one. */
  lemma LargeTranslates(mem: Memory, root: nat, virt: nat)
    requires WalkOf(mem, root, PageOf(virt)).Large?
    ensures var w := WalkOf(mem, root, PageOf(virt));
      && (w.level == 3 && w.entry.address % 0x4_0000 == 0 ==>
        TranslateVia(mem, root, virt) == w.entry.address * 4096 + virt % 0x4000_0000)
      && (w.level == 2 && w.entry.address % 512 == 0 ==>
        TranslateVia(mem, root, virt) == w.entry.address * 4096 + virt % 0x20_0000)
  {
    hide TranslateVia, WalkOf, Or;
    var w := WalkOf(mem, root, PageOf(virt));
    TranslateIsWalk(mem, root, virt);
    Pow2s();
    if w.level == 3 {
      OrIsSum(w.entry.address / 0x4_0000, virt % 0x4000_0000, 30);
    } else {
      OrIsSum(w.entry.address / 512, virt % 0x20_0000, 21);
    }
  }

  /** A mapped address translates below 2^52, so never to one of the four error codes; an unmapped
      one gives the code of the level it is missing from. */
  lemma TranslationIsUnambiguous(mem: Memory, root: nat, virt: nat)
    ensures var w, t := WalkOf(mem, root, PageOf(virt)), TranslateVia(mem, root, virt);
      if w.Missing? then 1 <= w.level <= 4 && t == TWO_TO_64 - (5 - w.level) else t < TWO_TO_40 * PAGE_SIZE
  {
    var w := WalkOf(mem, root, PageOf(virt));
    TranslateIsWalk(mem, root, virt);
    if w.Large? {
      DescendLevel(mem, root, 4, PageOf(virt));
      Pow2Of52();
      OrBelow(w.entry.address * PAGE_SIZE, virt % (if w.level == 3 then 0x4000_0000 else 0x20_0000), 52);
    }
  }

  /** Present entries are followed alike until a huge one, where only the lookups go on. */
  lemma {:induction false} LookupsDepart(mem: Memory, frame: nat, level: nat, page: nat, k: nat)
    requires 1 <= k <= level <= 4
    ensures var w := Descend(mem, frame, level, page);
      && (w.Large? ==> 2 <= w.level <= level)
      && (!w.Large? || w.level <= k ==> LookedUp(mem, frame, level, page, k) == TableOn(mem, frame, level, page, k))
      && (w.Large? && w.level == k + 1 ==>
        LookedUp(mem, frame, level, page, k) == Some(w.entry.address) && TableOn(mem, frame, level, page, k).None?)
    decreases level
  {}

  /** The lookups follow translation's path exactly when no huge entry is met; past one they read the
      memory it maps as a table. Where none is met, a table of level k is reached exactly when no level
      above k is missing, and the slot of a translated page holds the entry translation used. */
  lemma WalkersAgree(mem: Memory, root: nat, virt: nat)
    ensures var page, w := PageOf(virt), WalkOf(mem, root, PageOf(virt));
      && GetPage(mem, root, virt) == SlotOf(LookedUp(mem, root, 4, page, 1), Index(page, 1))
      && (!w.Large? <==> forall k :: 1 <= k <= 4 ==> LookedUp(mem, root, 4, page, k) == TableOn(mem, root, 4, page, k))
      && (w.Large? ==> 2 <= w.level <= 3 && LookedUp(mem, root, 4, page, w.level - 1) == Some(w.entry.address))
      && (!w.Large? ==> forall k :: 1 <= k <= 4 ==> (TableOn(mem, root, 4, page, k).Some? <==> w.Leaf? || w.level <= k))
      && (w.Leaf? ==>
        && GetPage(mem, root, virt).Some?
        && var slot := GetPage(mem, root, virt).value;
           slot.index < 512 && TableAt(mem, slot.frame)[slot.index] == w.entry)
  {
    var page, w := PageOf(virt), WalkOf(mem, root, PageOf(virt));
    DescendLevel(mem, root, 4, page);
    forall k | 1 <= k <= 4
      ensures !w.Large? ==> LookedUp(mem, root, 4, page, k) == TableOn(mem, root, 4, page, k)
    {
      LookupsDepart(mem, root, 4, page, k);
    }
    if w.Large? {
      LookupsDepart(mem, root, 4, page, w.level - 1);
    }
  }
}
