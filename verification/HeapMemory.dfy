/** How the bytes of the heap represent its blocks: in-place headers and links. */
module HeapMemory {
  import opened Words
  import opened HeapSpec
  import opened HeapProofs

  /** The i-th address of a list, or NULL past its end. */
  function At(free: seq<nat>, i: int): nat {
    if 0 <= i < |free| then free[i] else 0
  }

  predicate IsBlock(h: Heap, a: nat) {
    a in h.regions && h.regions[a].kind != Stranded
  }

  /** Block a's first word holds its size. */
  ghost predicate HeaderAt(h: Heap, m: seq<Byte>, a: nat) {
    h.start <= a && a + 8 - h.start <= |m| && Load(m, a - h.start) == Size(h, a)
  }

  /** The i-th listed block lies in the heap. */
  ghost predicate ListedInside(h: Heap, i: nat)
    requires i < |h.free|
  {
    h.start <= h.free[i] && h.free[i] + BLOCK_T <= h.end
  }

  /** The i-th listed block's second word points to the next one. */
  ghost predicate LinkAt(h: Heap, m: seq<Byte>, i: nat) {
    && i < |h.free| && ListedInside(h, i) && h.free[i] + 16 - h.start <= |m|
    && Load(m, h.free[i] + 8 - h.start) == At(h.free, i + 1)
  }

  ghost predicate Headers(h: Heap, m: seq<Byte>) {
    forall a :: IsBlock(h, a) ==> HeaderAt(h, m, a)
  }

  ghost predicate Links(h: Heap, m: seq<Byte>) {
    forall i: nat :: i < |h.free| ==> LinkAt(h, m, i)
  }

  /** The bytes m and the list head represent heap h. */
  ghost predicate Represents(h: Heap, m: seq<Byte>, head: nat) {
    && Valid(h) && h.end < TWO_TO_64
    && |m| == h.end - h.start
    && head == At(h.free, 0)
    && Headers(h, m)
    && Links(h, m)
  }

  /** No byte of a live block other than `but` differs. */
  ghost predicate KeepsPayloads(h: Heap, m: seq<Byte>, m': seq<Byte>, but: nat) {
    && |m| <= |m'|
    && forall a: nat, x: nat {:trigger IsLive(h, a), m'[x]} ::
      IsLive(h, a) && a != but && a <= h.start + x < h.regions[a].hi && 0 <= x < |m| ==> m'[x] == m[x]
  }

  lemma KeepsTrans(h: Heap, h1: Heap, m: seq<Byte>, m1: seq<Byte>, m2: seq<Byte>, but: nat)
    requires KeepsPayloads(h, m, m1, but) && KeepsPayloads(h1, m1, m2, but)
    requires h.start == h1.start
    requires forall a :: IsLive(h, a) && a != but ==> a in h1.regions && h1.regions[a] == h.regions[a]
    ensures KeepsPayloads(h, m, m2, but)
  {
    forall a: nat, x: nat | IsLive(h, a) && a != but && a <= h.start + x < h.regions[a].hi && 0 <= x < |m|
      ensures m2[x] == m[x]
    {
      assert IsLive(h1, a);
      assert m1[x] == m[x];
    }
  }

  // ---------- split_block

  /** The memory split_block leaves when it splits the block at offset b; its writes in source order. */
  function SplitMemory(m: seq<Byte>, b: nat, size: nat): (r: seq<Byte>)
    requires b + 8 + size + 16 <= |m| && Load(m, b) >= size + 8
    ensures |r| == |m|
  {
    var rem := Load(m, b) - size;
    var cut := b + 8 + size;
    var m1 := Store(m, b, size);
    var m2 := Store(m1, cut, rem - 8);
    var m3 := Store(m2, cut + 8, Load(m2, b + 8));
    Store(m3, b + 8, 0)
  }

  /** For requests of at least 8 bytes the split leaves both headers and the old link. */
  lemma SplitWrites(m: seq<Byte>, b: nat, size: nat)
    requires b + 8 + size + 16 <= |m| && Load(m, b) >= size + 8 && size >= 8
    requires Load(m, b) < TWO_TO_64 && Load(m, b + 8) < TWO_TO_64
    ensures var m' := SplitMemory(m, b, size);
      && SameOutside(m, m', b, b + 8 + size + 16)
      && Load(m', b) == size
      && Load(m', b + 8 + size) == Load(m, b) - size - 8
      && Load(m', b + 8 + size + 8) == Load(m, b + 8)
      && Load(m', b + 8) == 0
  {
    hide Load;
    var rem := Load(m, b) - size;
    var cut := b + 8 + size;
    var m1 := Store(m, b, size);
    var m2 := Store(m1, cut, rem - 8);
    var m3 := Store(m2, cut + 8, Load(m2, b + 8));
    var m4 := Store(m3, b + 8, 0);
    LoadOutside(m, m1, b, b + 8, b + 8);
    LoadOutside(m1, m2, cut, cut + 8, b + 8);
    LoadStored(m, b, size);
    LoadOutside(m1, m2, cut, cut + 8, b);
    LoadOutside(m2, m3, cut + 8, cut + 16, b);
    LoadOutside(m3, m4, b + 8, b + 16, b);
    LoadStored(m1, cut, rem - 8);
    LoadOutside(m2, m3, cut + 8, cut + 16, cut);
    LoadOutside(m3, m4, b + 8, b + 16, cut);
    LoadStored(m2, cut + 8, Load(m2, b + 8));
    LoadOutside(m3, m4, b + 8, b + 16, cut + 8);
    LoadStored(m3, b + 8, 0);
  }

  // ---------- Each step's memory represents the step's heap

  /** Two memories agree outside the ranges [lo, hi) and [p, p + 8). */
  ghost predicate SameBut(m: seq<Byte>, m': seq<Byte>, lo: int, hi: int, p: int) {
    |m| == |m'| && forall x {:trigger m'[x]} ::
      0 <= x < |m| && !(lo <= x < hi) && !(p <= x < p + 8) ==> m'[x] == m[x]
  }

  lemma LoadBut(m: seq<Byte>, m': seq<Byte>, lo: int, hi: int, p: int, a: nat)
    requires SameBut(m, m', lo, hi, p) && a + 8 <= |m|
    requires (a + 8 <= lo || hi <= a) && (a + 8 <= p || p + 8 <= a)
    ensures Load(m', a) == Load(m, a)
  {
    assert m'[a..a + 8] == m[a..a + 8];
  }

  lemma BlocksApart(h: Heap, a: nat, c: nat)
    requires Valid(h) && a in h.regions && IsBlock(h, c) && a != c
    ensures c + BLOCK_T <= a || h.regions[a].hi <= c
  {}

  lemma BlockInside(h: Heap, c: nat)
    requires Valid(h) && IsBlock(h, c)
    ensures h.start <= c && c + BLOCK_T <= h.regions[c].hi <= h.end
  {}

  lemma ListedIsBlock(h: Heap, i: nat)
    requires Valid(h) && i < |h.free|
    ensures IsFree(h, h.free[i]) && ListedInside(h, i) && h.free[i] > 0
    ensures h.free[i] + BLOCK_T <= h.regions[h.free[i]].hi
    ensures forall j :: 0 <= j < |h.free| && j != i ==> h.free[j] != h.free[i]
  {}

  /** Offset of block q's link word; -8, which no memory has, for the head variable. */
  function LinkOffset(h: Heap, q: nat): int {
    if q == 0 then -8 else q + 8 - h.start
  }

  /** Memory changed only in [lo, hi) inside region r and in the link word of block q (0: none). */
  ghost predicate Changed(h: Heap, m: seq<Byte>, m': seq<Byte>, r: nat, lo: nat, hi: nat, q: nat) {
    && |m| == h.end - h.start
    && r in h.regions && r <= lo <= hi <= h.regions[r].hi
    && (q == 0 || IsBlock(h, q))
    && SameBut(m, m', lo - h.start, hi - h.start, LinkOffset(h, q))
  }

  lemma HeaderKept(h: Heap, m: seq<Byte>, m': seq<Byte>, r: nat, lo: nat, hi: nat, q: nat, c: nat)
    requires Valid(h) && Changed(h, m, m', r, lo, hi, q)
    requires IsBlock(h, c) && (c == r ==> c + 8 <= lo || lo == hi)
    ensures h.start <= c && c + 8 <= h.end && Load(m', c - h.start) == Load(m, c - h.start)
  {
    hide Valid, Load;
    BlockInside(h, c);
    if c != r {
      BlocksApart(h, r, c);
    }
    if q != 0 && q != c {
      BlocksApart(h, q, c);
      BlockInside(h, q);
    }
    if lo == hi {
      LoadBut(m, m', -8, -8, LinkOffset(h, q), c - h.start);
    } else {
      LoadBut(m, m', lo - h.start, hi - h.start, LinkOffset(h, q), c - h.start);
    }
  }

  lemma LinkKept(h: Heap, m: seq<Byte>, m': seq<Byte>, r: nat, lo: nat, hi: nat, q: nat, c: nat)
    requires Valid(h) && Changed(h, m, m', r, lo, hi, q)
    requires IsBlock(h, c) && c != r && c != q
    ensures h.start <= c && c + 16 <= h.end && Load(m', c + 8 - h.start) == Load(m, c + 8 - h.start)
  {
    hide Valid, Load;
    BlockInside(h, c);
    BlocksApart(h, r, c);
    if q != 0 {
      BlocksApart(h, q, c);
      BlockInside(h, q);
    }
    LoadBut(m, m', lo - h.start, hi - h.start, LinkOffset(h, q), c + 8 - h.start);
  }

  /** List position i, reached through block q's link word or the head variable, points at `target`. */
  ghost predicate Points(h: Heap, m: seq<Byte>, head: nat, i: nat, q: nat, target: nat) {
    && |m| == h.end - h.start && i <= |h.free|
    && if i == 0 then q == 0 && head == target
       else
         && q == h.free[i - 1] && ListedInside(h, i - 1)
         && head == h.free[0] && Load(m, q + 8 - h.start) == target
  }

  /** What the writes of serving the i-th block amount to; q is the block before it. */
  ghost predicate TakeWrites(h: Heap, m: seq<Byte>, m': seq<Byte>, head: nat, i: nat, size: nat, q: nat) {
    && i < |h.free| && h.free[i] in h.regions
    && var a := h.free[i];
       var cut := a + HEADER + size;
       if Size(h, a) - size > BLOCK_T then
         && Changed(h, m, m', a, a, h.regions[a].hi, q)
         && Points(h, m', head, i, q, cut)
         && h.start <= a && cut + 16 <= h.end
         && Load(m', a - h.start) == size
         && Load(m', cut - h.start) == Size(h, a) - size - HEADER
         && Load(m', cut + 8 - h.start) == At(h.free, i + 1)
       else
         && Changed(h, m, m', a, a, a, q)
         && Points(h, m', head, i, q, At(h.free, i + 1))
  }

  lemma TakeHeader(h: Heap, m: seq<Byte>, m': seq<Byte>, head: nat, i: nat, size: nat, q: nat, c: nat)
    requires Valid(h) && |m| == h.end - h.start && Headers(h, m) && TakeWrites(h, m, m', head, i, size, q)
    requires IsBlock(Take(h, i, size), c)
    ensures HeaderAt(Take(h, i, size), m', c)
  {
    hide Valid, Load;
    var a := h.free[i];
    ListedIsBlock(h, i);
    if Size(h, a) - size > BLOCK_T {
      if c != a && c != a + HEADER + size {
        HeaderKept(h, m, m', a, a, h.regions[a].hi, q, c);
      }
    } else {
      HeaderKept(h, m, m', a, a, a, q, c);
    }
  }

  lemma TakeLink(h: Heap, m: seq<Byte>, m': seq<Byte>, head: nat, i: nat, size: nat, q: nat, j: nat)
    requires Valid(h) && |m| == h.end - h.start && Links(h, m) && TakeWrites(h, m, m', head, i, size, q)
    requires j < |h.free| && j != i && j + 1 != i
    ensures LinkAt(h, m', j)
  {
    hide Valid, Load;
    var a := h.free[i];
    ListedIsBlock(h, i);
    ListedIsBlock(h, j);
    assert LinkAt(h, m, j);
    if Size(h, a) - size > BLOCK_T {
      LinkKept(h, m, m', a, a, h.regions[a].hi, q, h.free[j]);
    } else {
      LinkKept(h, m, m', a, a, a, q, h.free[j]);
    }
  }

  lemma TakeLinks(h: Heap, m: seq<Byte>, m': seq<Byte>, head: nat, i: nat, size: nat, q: nat, j: nat)
    requires Valid(h) && |m| == h.end - h.start && Links(h, m) && TakeWrites(h, m, m', head, i, size, q)
    requires j < |Take(h, i, size).free|
    ensures LinkAt(Take(h, i, size), m', j)
  {
    hide Valid, Load;
    var h' := Take(h, i, size);
    if |h'.free| == |h.free| {
      if j != i && j + 1 != i {
        TakeLink(h, m, m', head, i, size, q, j);
      }
    } else if j + 1 != i {
      TakeLink(h, m, m', head, i, size, q, if j < i then j else j + 1);
    }
  }

  /** Serving the i-th block in memory represents serving it in the heap. */
  lemma TakeRepresents(h: Heap, m: seq<Byte>, m': seq<Byte>, head: nat, head': nat, i: nat, size: nat, q: nat)
    requires i < |h.free| && h.free[i] in h.regions && size <= Size(h, h.free[i])
    requires size >= 8 || Size(h, h.free[i]) <= size + BLOCK_T
    requires Represents(h, m, head) && |m'| == |m| && TakeWrites(h, m, m', head', i, size, q)
    ensures Represents(Take(h, i, size), m', head')
  {
    hide Valid, Load, TakeWrites;
    var h' := Take(h, i, size);
    TakeKeeps(h, i, size);
    forall c | IsBlock(h', c)
      ensures HeaderAt(h', m', c)
    {
      TakeHeader(h, m, m', head', i, size, q, c);
    }
    forall j: nat | j < |h'.free|
      ensures LinkAt(h', m', j)
    {
      TakeLinks(h, m, m', head', i, size, q, j);
    }
    TakeHead(h, m, m', head', i, size, q);
  }

  lemma TakeHead(h: Heap, m: seq<Byte>, m': seq<Byte>, head: nat, i: nat, size: nat, q: nat)
    requires Valid(h) && TakeWrites(h, m, m', head, i, size, q)
    ensures head == At(Take(h, i, size).free, 0) && |m'| == |m|
  {}

  // ---------- kfree

  /** What linking live block a in at position k writes; q is the block before it. */
  ghost predicate LinkWrites(h: Heap, m: seq<Byte>, m': seq<Byte>, head: nat, a: nat, k: nat, q: nat) {
    && Changed(h, m, m', a, a + 8, a + 16, q)
    && Points(h, m', head, k, q, a)
    && h.start <= a && a + 16 <= h.end
    && Load(m', a + 8 - h.start) == At(h.free, k)
  }

  lemma LinkHeader(h: Heap, m: seq<Byte>, m': seq<Byte>, head: nat, a: nat, k: nat, q: nat, c: nat)
    requires Valid(h) && |m| == h.end - h.start && Headers(h, m) && LinkWrites(h, m, m', head, a, k, q)
    requires IsLive(h, a) && IsBlock(Link(h, a, k), c)
    ensures HeaderAt(Link(h, a, k), m', c)
  {
    hide Valid, Load;
    HeaderKept(h, m, m', a, a + 8, a + 16, q, c);
  }

  lemma LinkLinks(h: Heap, m: seq<Byte>, m': seq<Byte>, head: nat, a: nat, k: nat, q: nat, j: nat)
    requires Valid(h) && |m| == h.end - h.start && Links(h, m) && LinkWrites(h, m, m', head, a, k, q)
    requires IsLive(h, a) && j <= |h.free|
    ensures LinkAt(Link(h, a, k), m', j)
  {
    hide Valid, Load;
    if j != k && j + 1 != k {
      var o := if j < k then j else j - 1;
      ListedIsBlock(h, o);
      assert LinkAt(h, m, o);
      LinkKept(h, m, m', a, a + 8, a + 16, q, h.free[o]);
    }
  }

  lemma LinkRepresents(h: Heap, m: seq<Byte>, m': seq<Byte>, head: nat, head': nat, a: nat, k: nat, q: nat)
    requires Represents(h, m, head) && IsLive(h, a) && LinkWrites(h, m, m', head', a, k, q)
    ensures Represents(Link(h, a, k), m', head')
  {
    hide Valid, Load;
    var h' := Link(h, a, k);
    LinkKeeps(h, a, k);
    forall c | IsBlock(h', c)
      ensures HeaderAt(h', m', c)
    {
      LinkHeader(h, m, m', head', a, k, q, c);
    }
    forall j: nat | j < |h'.free|
      ensures LinkAt(h', m', j)
    {
      LinkLinks(h, m, m', head', a, k, q, j);
    }
  }

  /** What coalescing list neighbours i and i + 1 writes. */
  ghost predicate MergeWrites(h: Heap, m: seq<Byte>, m': seq<Byte>, i: nat) {
    && |m| == h.end - h.start && i + 1 < |h.free|
    && h.free[i] in h.regions && h.free[i + 1] in h.regions
    && var a, b := h.free[i], h.free[i + 1];
       && Adjacent(h, a, b) && h.start <= a && a + 16 <= h.end
       && SameOutside(m, m', a - h.start, h.regions[b].hi - h.start)
       && Load(m', a - h.start) == Size(h, a) + Size(h, b) + HEADER
       && Load(m', a + 8 - h.start) == At(h.free, i + 2)
  }

  lemma WordKept(h: Heap, m: seq<Byte>, m': seq<Byte>, i: nat, c: nat)
    requires Valid(h) && MergeWrites(h, m, m', i)
    requires IsBlock(h, c) && c != h.free[i] && c != h.free[i + 1]
    ensures h.start <= c && c + 16 <= h.end
    ensures Load(m', c - h.start) == Load(m, c - h.start)
    ensures Load(m', c + 8 - h.start) == Load(m, c + 8 - h.start)
  {
    hide Valid, Load;
    var a, b := h.free[i], h.free[i + 1];
    BlockInside(h, c);
    BlocksApart(h, a, c);
    BlocksApart(h, b, c);
    ListedIsBlock(h, i);
    LoadOutside(m, m', a - h.start, h.regions[b].hi - h.start, c - h.start);
    LoadOutside(m, m', a - h.start, h.regions[b].hi - h.start, c + 8 - h.start);
  }

  lemma MergeLinks(h: Heap, m: seq<Byte>, m': seq<Byte>, i: nat, j: nat)
    requires Valid(h) && |m| == h.end - h.start && Links(h, m) && MergeWrites(h, m, m', i)
    requires j < |h.free| - 1
    ensures LinkAt(Merge(h, i), m', j)
  {
    hide Valid, Load;
    if j != i {
      var o := if j < i then j else j + 1;
      ListedIsBlock(h, o);
      assert LinkAt(h, m, o);
      WordKept(h, m, m', i, h.free[o]);
    }
  }

  lemma MergeRepresents(h: Heap, m: seq<Byte>, m': seq<Byte>, head: nat, i: nat)
    requires Represents(h, m, head) && MergeWrites(h, m, m', i)
    ensures Represents(Merge(h, i), m', head)
  {
    hide Valid, Load;
    var h' := Merge(h, i);
    MergeKeeps(h, i);
    forall c | IsBlock(h', c)
      ensures HeaderAt(h', m', c)
    {
      if c != h.free[i] {
        WordKept(h, m, m', i, c);
      }
    }
    forall j: nat | j < |h'.free|
      ensures LinkAt(h', m', j)
    {
      MergeLinks(h, m, m', i, j);
    }
  }

  // ---------- Growing the heap

  /** m' is m with more bytes after it. */
  ghost predicate Grown(m: seq<Byte>, m': seq<Byte>) {
    |m| <= |m'| && forall x {:trigger m'[x]} :: 0 <= x < |m| ==> m'[x] == m[x]
  }

  lemma LoadGrown(m: seq<Byte>, m': seq<Byte>, a: nat)
    requires Grown(m, m') && a + 8 <= |m|
    ensures Load(m', a) == Load(m, a)
  {
    assert m'[a..a + 8] == m[a..a + 8];
  }

  lemma HeadersGrown(h: Heap, m: seq<Byte>, m': seq<Byte>, c: nat)
    requires Valid(h) && |m| == h.end - h.start && Headers(h, m) && Grown(m, m')
    requires IsBlock(h, c)
    ensures HeaderAt(h, m', c)
  {
    hide Valid, Load;
    BlockInside(h, c);
    LoadGrown(m, m', c - h.start);
  }

  lemma RefillRepresents(h: Heap, m: seq<Byte>, m': seq<Byte>, size: nat)
    requires Represents(h, m, 0) && h.free == [] && size >= 8 && Grown(m, m')
    requires var h' := Refill(Corrected, h, size);
      && h'.end < TWO_TO_64 && |m'| == h'.end - h.start && |m| + 16 <= |m'|
      && Load(m', |m|) == h'.end - h.end - HEADER && Load(m', |m| + 8) == 0
    ensures Represents(Refill(Corrected, h, size), m', h.end)
  {
    hide Valid, Load;
    var h' := Refill(Corrected, h, size);
    RefillKeeps(h, size);
    forall c | IsBlock(h', c)
      ensures HeaderAt(h', m', c)
    {
      if c != h.end {
        HeadersGrown(h, m, m', c);
      }
    }
  }

  lemma OwnLinks(h: Heap, m: seq<Byte>, m': seq<Byte>, i: nat)
    requires Valid(h) && |m| == h.end - h.start && Links(h, m) && Grown(m, m') && i < |h.free|
    ensures LinkAt(h, m', i)
  {
    hide Valid, Load;
    ListedIsBlock(h, i);
    assert LinkAt(h, m, i);
    LoadGrown(m, m', h.free[i] + 8 - h.start);
  }

  lemma OwnHeader(h: Heap, m: seq<Byte>, m': seq<Byte>, size: nat, c: nat)
    requires Valid(h) && |m| == h.end - h.start && Headers(h, m) && Grown(m, m')
    requires |m| + 8 <= |m'| && Load(m', |m|) == size
    requires IsBlock(OwnBlock(h, size), c)
    ensures HeaderAt(OwnBlock(h, size), m', c)
  {
    hide Valid, Load;
    if c != h.end {
      HeadersGrown(h, m, m', c);
    }
  }

  lemma OwnRepresents(h: Heap, m: seq<Byte>, m': seq<Byte>, head: nat, size: nat)
    requires Represents(h, m, head) && size >= 8 && Grown(m, m')
    requires var h' := OwnBlock(h, size);
      h'.end < TWO_TO_64 && |m'| == h'.end - h.start && |m| + 8 <= |m'| && Load(m', |m|) == size
    ensures Represents(OwnBlock(h, size), m', head)
  {
    hide Valid, Load;
    var h' := OwnBlock(h, size);
    OwnBlockKeeps(h, size);
    forall c | IsBlock(h', c)
      ensures HeaderAt(h', m', c)
    {
      OwnHeader(h, m, m', size, c);
    }
    forall j: nat | j < |h'.free|
      ensures LinkAt(h', m', j)
    {
      OwnLinks(h, m, m', j);
    }
  }

  // ---------- What stays untouched

  /** Writes inside free region r (or block `but`) and free block q's link leave every other live block alone. */
  lemma ChangedKeeps(h: Heap, m: seq<Byte>, m': seq<Byte>, r: nat, lo: nat, hi: nat, q: nat, but: nat)
    requires Valid(h) && Changed(h, m, m', r, lo, hi, q)
    requires (r == but || !IsLive(h, r)) && (q == 0 || IsFree(h, q))
    ensures KeepsPayloads(h, m, m', but)
  {}

  /** A caller writing in the payload it holds disturbs neither the list nor any other block. */
  lemma PayloadIsCallers(h: Heap, m: seq<Byte>, m': seq<Byte>, head: nat, a: nat)
    requires Represents(h, m, head) && IsLive(h, a) && Changed(h, m, m', a, a + 8, h.regions[a].hi, 0)
    ensures Represents(h, m', head) && KeepsPayloads(h, m, m', a)
  {
    hide Valid, Load;
    forall c | IsBlock(h, c)
      ensures HeaderAt(h, m', c)
    {
      HeaderKept(h, m, m', a, a + 8, h.regions[a].hi, 0, c);
    }
    forall j: nat | j < |h.free|
      ensures LinkAt(h, m', j)
    {
      ListedIsBlock(h, j);
      assert LinkAt(h, m, j);
      LinkKept(h, m, m', a, a + 8, h.regions[a].hi, 0, h.free[j]);
    }
    ChangedKeeps(h, m, m', a, a + 8, h.regions[a].hi, 0, a);
  }

  /** The bytes hold what w says, all of it inside live blocks. */
  ghost predicate Holds(h: Heap, m: seq<Byte>, w: map<nat, Byte>) {
    forall x :: x in w ==> h.start <= x && x - h.start < |m| && m[x - h.start] == w[x] && InLive(h, x)
  }

  ghost predicate InLive(h: Heap, x: nat) {
    exists a: nat :: IsLive(h, a) && a <= x < h.regions[a].hi
  }

  /** All bytes of live blocks. */
  ghost function LiveBytes(h: Heap, m: seq<Byte>): (w: map<nat, Byte>)
    ensures Holds(h, m, w)
    ensures forall x: nat :: x in w <==> h.start <= x < h.start + |m| && InLive(h, x)
  {
    map x: nat | h.start <= x < h.start + |m| && InLive(h, x) :: m[x - h.start]
  }

  /** A step that keeps all live blocks but one leaves what is held outside that one. */
  lemma HoldsAfter(h: Heap, m: seq<Byte>, w: map<nat, Byte>, h': Heap, m': seq<Byte>, w': map<nat, Byte>, but: nat)
    requires Holds(h, m, w) && KeepsPayloads(h, m, m', but) && h'.start == h.start
    requires forall a :: IsLive(h, a) && a != but ==> IsLive(h', a) && h'.regions[a] == h.regions[a]
    requires forall x :: x in w' ==> x in w && w'[x] == w[x] && !(IsLive(h, but) && but <= x < h.regions[but].hi)
    ensures Holds(h', m', w')
  {
    forall x | x in w'
      ensures h'.start <= x && x - h'.start < |m'| && m'[x - h'.start] == w'[x] && InLive(h', x)
    {
      var a: nat :| IsLive(h, a) && a <= x < h.regions[a].hi;
      assert IsLive(h', a);
      assert m'[x - h.start] == m[x - h.start];
    }
  }

  // ---------- Serving a block in memory

  /** The words of the i-th listed block, and that they fit in 64 bits. */
  lemma BlockWords(h: Heap, m: seq<Byte>, head: nat, i: nat)
    requires Represents(h, m, head) && i < |h.free|
    ensures IsFree(h, h.free[i]) && ListedInside(h, i) && h.free[i] > 0
    ensures h.regions[h.free[i]].hi <= h.end
    ensures Load(m, h.free[i] - h.start) == Size(h, h.free[i]) < TWO_TO_64
    ensures Load(m, h.free[i] + 8 - h.start) == At(h.free, i + 1) < TWO_TO_64
  {
    hide Valid, Load;
    ListedIsBlock(h, i);
    BlockInside(h, h.free[i]);
    assert LinkAt(h, m, i) && HeaderAt(h, m, h.free[i]);
    if i + 1 < |h.free| {
      ListedIsBlock(h, i + 1);
    }
  }

  /** What split_block on the i-th block does to memory. */
  ghost predicate SplitDone(h: Heap, m: seq<Byte>, m': seq<Byte>, i: nat, size: nat, next: nat) {
    && |m| == h.end - h.start && i < |h.free| && h.free[i] in h.regions
    && var a := h.free[i];
       var cut := a + HEADER + size;
       if Size(h, a) - size > BLOCK_T then
         && h.start <= a && cut + 16 <= h.regions[a].hi <= h.end && next == cut
         && SameOutside(m, m', a - h.start, h.regions[a].hi - h.start)
         && Load(m', a - h.start) == size
         && Load(m', cut - h.start) == Size(h, a) - size - HEADER
         && Load(m', cut + 8 - h.start) == At(h.free, i + 1)
       else
         m' == m && next == At(h.free, i + 1)
  }

  lemma SplitIsDone(h: Heap, m: seq<Byte>, i: nat, size: nat)
    requires |m| == h.end - h.start && i < |h.free| && h.free[i] in h.regions
    requires h.start <= h.free[i] && h.regions[h.free[i]].hi <= h.end < TWO_TO_64
    requires size >= 8 && Size(h, h.free[i]) - size > BLOCK_T
    requires Load(m, h.free[i] - h.start) == Size(h, h.free[i])
    requires Load(m, h.free[i] + 8 - h.start) == At(h.free, i + 1) < TWO_TO_64
    ensures SplitDone(h, m, SplitMemory(m, h.free[i] - h.start, size), i, size, h.free[i] + HEADER + size)
  {
    hide Load, SplitMemory;
    SplitWrites(m, h.free[i] - h.start, size);
  }

  /** The memory after the split and, past the head of the list, the write of the previous link. */
  lemma ServeWrites(h: Heap, m: seq<Byte>, m1: seq<Byte>, m': seq<Byte>, head: nat, head': nat,
                    i: nat, size: nat, q: nat, next: nat)
    requires Represents(h, m, head) && SplitDone(h, m, m1, i, size, next) && next < TWO_TO_64
    requires i == 0 ==> q == 0 && m' == m1 && head' == next
    requires i > 0 ==>
      && q == h.free[i - 1] && ListedInside(h, i - 1) && head' == head
      && |m1| == |m| && m' == Store(m1, q + 8 - h.start, next)
    ensures TakeWrites(h, m, m', head', i, size, q) && |m'| == |m|
    ensures KeepsPayloads(h, m, m', 0)
  {
    hide Valid, Load, Store, KeepsPayloads;
    var a := h.free[i];
    ListedIsBlock(h, i);
    BlockInside(h, a);
    var hi := if Size(h, a) - size > BLOCK_T then h.regions[a].hi else a;
    if i > 0 {
      ListedIsBlock(h, i - 1);
      BlocksApart(h, a, q);
      RelinkKeeps(h, m, m1, m', a, hi, q, next);
    }
    assert Changed(h, m, m', a, a, hi, q);
    ChangedKeeps(h, m, m', a, a, hi, q, 0);
  }

  lemma RelinkKeeps(h: Heap, m: seq<Byte>, m1: seq<Byte>, m': seq<Byte>, a: nat, hi: nat, q: nat, v: nat)
    requires |m| == |m1| == h.end - h.start && h.start <= a <= hi <= h.end && v < TWO_TO_64
    requires hi == a || SameOutside(m, m1, a - h.start, hi - h.start)
    requires hi == a ==> m1 == m
    requires h.start <= q && q + 16 <= h.end && (q + BLOCK_T <= a || hi <= q)
    requires m' == Store(m1, q + 8 - h.start, v)
    ensures SameBut(m, m', a - h.start, hi - h.start, q + 8 - h.start)
    ensures Load(m', q + 8 - h.start) == v
    ensures forall x {:trigger Load(m', x)} :: a - h.start <= x && x + 8 <= hi - h.start ==> Load(m', x) == Load(m1, x)
  {
    hide Load;
    LoadStored(m1, q + 8 - h.start, v);
    forall x | a - h.start <= x && x + 8 <= hi - h.start
      ensures Load(m', x) == Load(m1, x)
    {
      LoadOutside(m1, m', q + 8 - h.start, q + 16 - h.start, x);
    }
  }

  // ---------- Freeing a block in memory

  /** The stores of linking a in at position k: the previous link, unless at the head, and a's own link. */
  lemma LinkIsDone(h: Heap, m: seq<Byte>, m1: seq<Byte>, m': seq<Byte>, head: nat, head': nat, a: nat, k: nat, q: nat)
    requires Represents(h, m, head) && IsLive(h, a) && k <= |h.free| && h.start <= a && a + 16 <= h.end
    requires if k == 0 then q == 0 && m1 == m && head' == a
             else q == h.free[k - 1] && ListedInside(h, k - 1) && head' == head && m1 == Store(m, q + 8 - h.start, a)
    requires m' == Store(m1, a + 8 - h.start, At(h.free, k)) || (m' == m1 && Load(m, a + 8 - h.start) == At(h.free, k))
    ensures LinkWrites(h, m, m', head', a, k, q)
    ensures KeepsPayloads(h, m, m', a)
  {
    hide Valid, Load, Store, KeepsPayloads;
    BlockInside(h, a);
    if k < |h.free| {
      BlockWords(h, m, head, k);
    }
    LoadStored(m1, a + 8 - h.start, At(h.free, k));
    if k > 0 {
      ListedIsBlock(h, k - 1);
      BlocksApart(h, a, q);
      BlocksApart(h, q, a);
      LoadStored(m, q + 8 - h.start, a);
      LoadOutside(m, m1, q + 8 - h.start, q + 16 - h.start, a + 8 - h.start);
      if m' != m1 {
        LoadOutside(m1, m', a + 8 - h.start, a + 16 - h.start, q + 8 - h.start);
      }
    }
    ChangedKeeps(h, m, m', a, a + 8, a + 16, q, a);
  }

  /** coalesce_blocks on the blocks at offsets a and b; its writes in source order. */
  function CoalesceMemory(m: seq<Byte>, a: nat, b: nat): (r: seq<Byte>)
    requires a + 16 <= |m| && b + 16 <= |m|
    ensures |r| == |m|
  {
    var m1 := Store(m, a, Load(m, a) + (Load(m, b) + 8));
    var m2 := Store(m1, a + 8, Load(m1, b + 8));
    var m3 := Store(m2, b, 0);
    Store(m3, b + 8, 0)
  }

  lemma CoalesceWrites(m: seq<Byte>, a: nat, b: nat)
    requires a + 16 <= b && b + 16 <= |m|
    requires Load(m, a) + Load(m, b) + 8 < TWO_TO_64 && Load(m, b + 8) < TWO_TO_64
    ensures var m' := CoalesceMemory(m, a, b);
      && SameOutside(m, m', a, b + 16)
      && Load(m', a) == Load(m, a) + Load(m, b) + 8
      && Load(m', a + 8) == Load(m, b + 8)
      && Load(m', b) == 0 && Load(m', b + 8) == 0
  {
    hide Load;
    var m1 := Store(m, a, Load(m, a) + (Load(m, b) + 8));
    var m2 := Store(m1, a + 8, Load(m1, b + 8));
    var m3 := Store(m2, b, 0);
    var m4 := Store(m3, b + 8, 0);
    LoadStored(m, a, Load(m, a) + (Load(m, b) + 8));
    LoadOutside(m, m1, a, a + 8, b + 8);
    LoadStored(m1, a + 8, Load(m1, b + 8));
    LoadOutside(m1, m2, a + 8, a + 16, a);
    LoadOutside(m2, m4, b, b + 16, a);
    LoadOutside(m2, m4, b, b + 16, a + 8);
    LoadStored(m2, b, 0);
    LoadOutside(m3, m4, b + 8, b + 16, b);
    LoadStored(m3, b + 8, 0);
  }

  lemma CoalesceIsDone(h: Heap, m: seq<Byte>, head: nat, i: nat, but: nat)
    requires Represents(h, m, head) && i + 1 < |h.free|
    requires IsFree(h, h.free[i]) && Adjacent(h, h.free[i], h.free[i + 1])
    requires h.start <= h.free[i] && h.start <= h.free[i + 1]
    requires h.free[i] + 16 - h.start <= |m| && h.free[i + 1] + 16 - h.start <= |m|
    ensures MergeWrites(h, m, CoalesceMemory(m, h.free[i] - h.start, h.free[i + 1] - h.start), i)
    ensures KeepsPayloads(h, m, CoalesceMemory(m, h.free[i] - h.start, h.free[i + 1] - h.start), but)
  {
    hide Valid, Load, CoalesceMemory, KeepsPayloads;
    var a, b := h.free[i], h.free[i + 1];
    BlockWords(h, m, head, i);
    BlockWords(h, m, head, i + 1);
    ListedIsBlock(h, i);
    ListedIsBlock(h, i + 1);
    CoalesceWrites(m, a - h.start, b - h.start);
    TwoFreeKept(h, m, CoalesceMemory(m, a - h.start, b - h.start), a, b, but);
  }

  /** A change inside two touching free regions leaves every live block alone. */
  lemma TwoFreeKept(h: Heap, m: seq<Byte>, m': seq<Byte>, a: nat, b: nat, but: nat)
    requires Valid(h) && IsFree(h, a) && IsFree(h, b) && h.regions[a].hi == b
    requires SameOutside(m, m', a - h.start, h.regions[b].hi - h.start)
    ensures KeepsPayloads(h, m, m', but)
  {}
}
