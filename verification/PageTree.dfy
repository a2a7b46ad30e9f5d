/** Page tables that form a tree, and what adding a table or a page to one changes. */
module PageTree {
  import opened Options
  import opened PageEntries
  import opened Paging

  /** The place of a table: its level, and which of that level's tables it is. */
  datatype Node = Node(level: nat, prefix: nat)

  type Owner = map<nat, Node>

  /** Entry i of table f is absent, maps memory, or names the table whose place is below it. */
  ghost predicate EntryOwned(mem: Memory, owner: Owner, f: nat, i: nat)
    requires f in owner && i < 512
  {
    var e, n := TableAt(mem, f)[i], owner[f];
    && 1 <= n.level <= 4
    && (n.level > 1 && Present(e) && !IsLarge(e, n.level) ==>
      e.address in owner && owner[e.address] == Node(n.level - 1, n.prefix * 512 + i))
  }

  /** Every table has one place, so no two paths share a table. */
  ghost predicate Tree(mem: Memory, root: nat, owner: Owner) {
    && root in owner && owner[root] == Node(4, 0)
    && forall f, i: nat :: f in owner && i < 512 ==> EntryOwned(mem, owner, f, i)
  }

  /** Table f is the one of its level on the way to the page. */
  ghost predicate Serves(owner: Owner, f: nat, level: nat, page: nat) {
    f in owner && owner[f] == Node(level, Prefix(page, level))
  }

  lemma ServesNext(mem: Memory, root: nat, owner: Owner, f: nat, level: nat, page: nat)
    requires Tree(mem, root, owner) && 2 <= level <= 4 && Serves(owner, f, level, page)
    ensures var e := TableAt(mem, f)[Index(page, level)];
      Present(e) && !IsLarge(e, level) ==> Serves(owner, e.address, level - 1, page)
  {
    assert EntryOwned(mem, owner, f, Index(page, level));
    PrefixStep(page, level);
  }

  lemma RootServes(mem: Memory, root: nat, owner: Owner, page: nat)
    requires Tree(mem, root, owner) && page < PAGES
    ensures Serves(owner, root, 4, page)
  {}

  /** The table found at level k is the one that place belongs to. */
  lemma {:induction false} TableOnServes(mem: Memory, root: nat, owner: Owner, f: nat, level: nat, page: nat, k: nat)
    requires Tree(mem, root, owner) && 1 <= k <= level <= 4 && Serves(owner, f, level, page)
    ensures var t := TableOn(mem, f, level, page, k); t.Some? ==> Serves(owner, t.value, k, page)
    decreases level
  {
    if k < level {
      var e := TableAt(mem, f)[Index(page, level)];
      ServesNext(mem, root, owner, f, level, page);
      if Present(e) && !IsLarge(e, level) {
        TableOnServes(mem, root, owner, e.address, level - 1, page, k);
      }
    }
  }

  /** A later walk may find what was missing still missing, and nothing else different. */
  predicate Extends(w: Walk, w': Walk) {
    if w.Missing? then w'.Missing? else w' == w
  }

  /** Memory with entry i of table f replaced. */
  function WithEntry(mem: Memory, f: nat, i: nat, e: Entry): Memory
    requires i < 512
  {
    mem[f := TableAt(mem, f)[i := e]]
  }

  lemma EntryAfter(mem: Memory, f: nat, i: nat, e: Entry, g: nat, j: nat)
    requires i < 512 && j < 512
    ensures TableAt(WithEntry(mem, f, i, e), g)[j] == if g == f && j == i then e else TableAt(mem, g)[j]
  {}

  // ---------- Installing a table

  /** No entry of the frame, read as a table, is present. */
  ghost predicate Vacant(mem: Memory, n: nat) {
    forall j: nat :: j < 512 ==> !Present(TableAt(mem, n)[j])
  }

  /** A vacant table takes the absent entry i of table f. */
  ghost predicate CanInstall(mem: Memory, root: nat, owner: Owner, f: nat, i: nat, e: Entry) {
    && Tree(mem, root, owner)
    && f in owner && owner[f].level > 1 && i < 512 && !Present(TableAt(mem, f)[i])
    && e.address !in owner && Vacant(mem, e.address)
    && Present(e) && !Huge(e)
  }

  function Adopt(owner: Owner, f: nat, i: nat, n: nat): Owner
    requires f in owner && owner[f].level > 1
  {
    owner[n := Node(owner[f].level - 1, owner[f].prefix * 512 + i)]
  }

  lemma InstallKeepsTree(mem: Memory, root: nat, owner: Owner, f: nat, i: nat, e: Entry)
    requires CanInstall(mem, root, owner, f, i, e)
    ensures Tree(WithEntry(mem, f, i, e), root, Adopt(owner, f, i, e.address))
  {
    var mem', owner' := WithEntry(mem, f, i, e), Adopt(owner, f, i, e.address);
    assert EntryOwned(mem, owner, f, i);
    forall g, j: nat | g in owner' && j < 512
      ensures EntryOwned(mem', owner', g, j)
    {
      EntryAfter(mem, f, i, e, g, j);
      if g == e.address {
        assert !Present(TableAt(mem, g)[j]);
      } else {
        assert EntryOwned(mem, owner, g, j);
      }
    }
  }

  lemma {:induction false} InstallExtends(mem: Memory, root: nat, owner: Owner, f: nat, i: nat, e: Entry,
                                          g: nat, level: nat, page: nat)
    requires CanInstall(mem, root, owner, f, i, e) && 1 <= level <= 4 && Serves(owner, g, level, page)
    ensures Extends(Descend(mem, g, level, page), Descend(WithEntry(mem, f, i, e), g, level, page))
    decreases level
  {
    var mem', j := WithEntry(mem, f, i, e), Index(page, level);
    var entry := TableAt(mem, g)[j];
    EntryAfter(mem, f, i, e, g, j);
    if g == f && j == i {
      EntryAfter(mem, f, i, e, e.address, Index(page, level - 1));
    } else if level > 1 && Present(entry) && !IsLarge(entry, level) {
      ServesNext(mem, root, owner, g, level, page);
      InstallExtends(mem, root, owner, f, i, e, entry.address, level - 1, page);
    }
  }

  /** A writable entry for the new table opens no page and closes none. */
  lemma {:induction false} InstallKeepsWrite(mem: Memory, root: nat, owner: Owner, f: nat, i: nat, e: Entry,
                                             g: nat, level: nat, page: nat)
    requires CanInstall(mem, root, owner, f, i, e) && Writable(e) && 1 <= level <= 4 && Serves(owner, g, level, page)
    ensures var mem' := WithEntry(mem, f, i, e);
      && (!Descend(mem, g, level, page).Missing? ==> CanWrite(mem', g, level, page) == CanWrite(mem, g, level, page))
      && (TablesWritable(mem, g, level, page) ==> TablesWritable(mem', g, level, page))
    decreases level
  {
    var mem', j := WithEntry(mem, f, i, e), Index(page, level);
    var entry := TableAt(mem, g)[j];
    EntryAfter(mem, f, i, e, g, j);
    if g == f && j == i {
      if level > 2 {
        EntryAfter(mem, f, i, e, e.address, Index(page, level - 1));
      }
    } else if level > 1 && Present(entry) && !IsLarge(entry, level) {
      ServesNext(mem, root, owner, g, level, page);
      InstallKeepsWrite(mem, root, owner, f, i, e, entry.address, level - 1, page);
    }
  }

  // ---------- Setting a page

  /** Entry i of PML1 table f. */
  ghost predicate CanSet(mem: Memory, root: nat, owner: Owner, f: nat, i: nat) {
    Tree(mem, root, owner) && f in owner && owner[f].level == 1 && i < 512
  }

  lemma SetKeepsTree(mem: Memory, root: nat, owner: Owner, f: nat, i: nat, e: Entry)
    requires CanSet(mem, root, owner, f, i)
    ensures Tree(WithEntry(mem, f, i, e), root, owner)
  {
    var mem' := WithEntry(mem, f, i, e);
    forall g, j: nat | g in owner && j < 512
      ensures EntryOwned(mem', owner, g, j)
    {
      EntryAfter(mem, f, i, e, g, j);
      assert EntryOwned(mem, owner, g, j);
    }
  }

  /** Only the page the entry stands for is walked differently. */
  lemma {:induction false} SetChangesOne(mem: Memory, root: nat, owner: Owner, f: nat, i: nat, e: Entry,
                                         g: nat, level: nat, page: nat)
    requires CanSet(mem, root, owner, f, i) && 1 <= level <= 4 && Serves(owner, g, level, page)
    requires page != owner[f].prefix * 512 + i
    ensures Descend(WithEntry(mem, f, i, e), g, level, page) == Descend(mem, g, level, page)
    decreases level
  {
    var j := Index(page, level);
    var entry := TableAt(mem, g)[j];
    EntryAfter(mem, f, i, e, g, j);
    if level == 1 {
      PageFromPrefix(page);
    } else {
      ServesNext(mem, root, owner, g, level, page);
      if Present(entry) && !IsLarge(entry, level) {
        SetChangesOne(mem, root, owner, f, i, e, entry.address, level - 1, page);
      }
    }
  }

  /** Nor does it change whether another page can be written, or whether any page's tables are writable. */
  lemma {:induction false} SetKeepsWrite(mem: Memory, root: nat, owner: Owner, f: nat, i: nat, e: Entry,
                                         g: nat, level: nat, page: nat)
    requires CanSet(mem, root, owner, f, i) && 1 <= level <= 4 && Serves(owner, g, level, page)
    ensures var mem' := WithEntry(mem, f, i, e);
      && TablesWritable(mem', g, level, page) == TablesWritable(mem, g, level, page)
      && (page != owner[f].prefix * 512 + i ==> CanWrite(mem', g, level, page) == CanWrite(mem, g, level, page))
    decreases level
  {
    var j := Index(page, level);
    var entry := TableAt(mem, g)[j];
    EntryAfter(mem, f, i, e, g, j);
    if level == 1 {
      PageFromPrefix(page);
    } else {
      ServesNext(mem, root, owner, g, level, page);
      if Present(entry) && !IsLarge(entry, level) {
        SetKeepsWrite(mem, root, owner, f, i, e, entry.address, level - 1, page);
      }
    }
  }

  // ---------- The path to a changed table

  /** A change in table f of level k leaves the way down to level k as it was. */
  lemma {:induction false} PathKept(mem: Memory, root: nat, owner: Owner, f: nat, i: nat, e: Entry,
                                    g: nat, level: nat, page: nat, k: nat)
    requires Tree(mem, root, owner) && f in owner && owner[f].level == k && i < 512
    requires 1 <= k <= level <= 4 && Serves(owner, g, level, page)
    ensures TableOn(WithEntry(mem, f, i, e), g, level, page, k) == TableOn(mem, g, level, page, k)
    decreases level
  {
    if k < level {
      var j := Index(page, level);
      var entry := TableAt(mem, g)[j];
      EntryAfter(mem, f, i, e, g, j);
      ServesNext(mem, root, owner, g, level, page);
      if Present(entry) && !IsLarge(entry, level) {
        PathKept(mem, root, owner, f, i, e, entry.address, level - 1, page, k);
      }
    }
  }

  /** One more step of the way down. */
  lemma {:induction false} TableOnNext(mem: Memory, g: nat, level: nat, page: nat, k: nat)
    requires 2 <= k <= level <= 4 && TableOn(mem, g, level, page, k).Some?
    ensures var e := TableAt(mem, TableOn(mem, g, level, page, k).value)[Index(page, k)];
      TableOn(mem, g, level, page, k - 1) == if !Present(e) || IsLarge(e, k) then None else Some(e.address)
    decreases level
  {}

  /** From the table of level k on, the walk is the walk from there. */
  lemma {:induction false} WalkFrom(mem: Memory, g: nat, level: nat, page: nat, k: nat)
    requires 1 <= k <= level <= 4 && TableOn(mem, g, level, page, k).Some?
    ensures Descend(mem, g, level, page) == Descend(mem, TableOn(mem, g, level, page, k).value, k, page)
    decreases level
  {}
}
