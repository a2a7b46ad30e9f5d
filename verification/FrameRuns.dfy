/** Every run of page_alloc and page_free after page_allocator_init. */
module FrameRuns {
  import opened Options
  import opened Pages
  import opened PageEntries
  import opened Frames

  datatype Op = Alloc | Free(frame: Frame)

  /** The marked frames, those handed out and not given back, and all handed out, in order. */
  datatype Pool = Pool(used: set<nat>, live: set<nat>, handed: seq<nat>)

  function Fresh(used: set<nat>): Pool {
    Pool(used, {}, [])
  }

  function LeastFree(used: set<nat>, n: nat, f: nat): Option<nat>
    decreases n - f
  {
    if f >= n then None else if f in used then LeastFree(used, n, f + 1) else Some(f)
  }

  /** LeastFree from 0 is the frame the bitmap scan returns, and is absent where the scan returns none. */
  lemma {:induction false} LeastFreeIs(used: set<nat>, n: nat, f: nat)
    requires forall g: nat :: g < f ==> g in used
    ensures match LeastFree(used, n, f)
      case Some(v) => IsLeastFree(used, n, v)
      case None => forall g: nat :: g < n ==> g in used
    decreases n - f
  {
    if f < n && f in used {
      LeastFreeIs(used, n, f + 1);
    }
  }

  function Step(mode: FreeBy, nframes: nat, p: Pool, op: Op): Pool {
    match op
    case Alloc =>
      (match LeastFree(p.used, Scanned(nframes), 0)
       case None => p
       case Some(f) => Pool(p.used + (if Admits(nframes, f) then {f} else {}), p.live + {f}, p.handed + [f]))
    case Free(f) => Pool(Freed(mode, p.used, nframes, f), p.live - {f}, p.handed)
  }

  function Run(mode: FreeBy, nframes: nat, p: Pool, ops: seq<Op>): Pool
    decreases |ops|
  {
    if ops == [] then p else Run(mode, nframes, Step(mode, nframes, p, ops[0]), ops[1..])
  }

  /** Callers give back only frames they hold. */
  predicate LegalRun(mode: FreeBy, nframes: nat, p: Pool, ops: seq<Op>)
    decreases |ops|
  {
    ops == [] ||
    ((ops[0].Free? ==> ops[0].frame in p.live) && LegalRun(mode, nframes, Step(mode, nframes, p, ops[0]), ops[1..]))
  }

  /** Performs one call on the bitmap, for either reading of page_free's argument. */
  method Perform(mode: FreeBy, a: FrameAllocator, op: Op, flags: bv64, ghost p: Pool) returns (handed: seq<nat>)
    requires a.Valid() && a.InUse() == p.used
    modifies a.frames, a`unavailable
    ensures var p' := Step(mode, a.nframes, p, op); a.InUse() == p'.used && p.handed + handed == p'.handed
  {
    hide Used, LeastFree, FreeFrames, Mark, Limit;
    LeastFreeIs(p.used, Scanned(a.nframes), 0);
    handed := [];
    match op {
      case Alloc =>
        var r := a.PageAlloc(NO_ENTRY, flags);
        if r.Some? {
          handed := [r.value.address];
        }
      case Free(f) =>
        var _ := a.PageFree(mode, Entry(f, flags));
    }
  }

  /** Performs a run: the set and the frames returned are those of the run. */
  method PerformAll(mode: FreeBy, a: FrameAllocator, ops: seq<Op>, flags: bv64) returns (handed: seq<nat>)
    requires a.Valid()
    modifies a.frames, a`unavailable
    ensures var p := Run(mode, a.nframes, Fresh(old(a.InUse())), ops); a.InUse() == p.used && handed == p.handed
  {
    hide Used, Step;
    handed := [];
    ghost var p := Fresh(a.InUse());
    for i := 0 to |ops|
      invariant Run(mode, a.nframes, p, ops[i..]) == Run(mode, a.nframes, Fresh(old(a.InUse())), ops)
      invariant a.InUse() == p.used && handed == p.handed
    {
      assert ops[i..][1..] == ops[i + 1..];
      var more := Perform(mode, a, ops[i], flags, p);
      handed := handed + more;
      p := Step(mode, a.nframes, p, ops[i]);
    }
  }

  // ---------- What every run keeps

  /** The scan finds no frame that the bound check turns away. */
  ghost predicate AdmitsFree(nframes: nat, used: set<nat>) {
    forall f: nat :: f < Scanned(nframes) && f !in used ==> Admits(nframes, f)
  }

  /** The marks are the reserved frames and the live ones, which do not overlap. */
  ghost predicate Accounted(nframes: nat, reserved: set<nat>, p: Pool) {
    && p.used == reserved + p.live
    && reserved !! p.live
    && (forall f :: f in p.live ==> f < Scanned(nframes))
    && (forall i :: 0 <= i < |p.handed| ==> p.handed[i] !in reserved && p.handed[i] < Scanned(nframes))
  }

  lemma StepAccounts(nframes: nat, reserved: set<nat>, p: Pool, op: Op)
    requires AdmitsFree(nframes, reserved) && Accounted(nframes, reserved, p)
    requires op.Free? ==> op.frame in p.live
    ensures Accounted(nframes, reserved, Step(ByteAddress, nframes, p, op))
    ensures var p' := Step(ByteAddress, nframes, p, op); op == Alloc && p' != p ==> p'.handed[|p.handed|] !in p.live
  {
    match op
    case Alloc => LeastFreeIs(p.used, Scanned(nframes), 0);
    case Free(f) =>
  }

  /** As long as the bound check admits every frame that is not reserved, any run of allocations and
      frees keeps the marks equal to reserved plus live frames, and never hands out a reserved one. */
  lemma {:induction false} RunAccounts(nframes: nat, reserved: set<nat>, p: Pool, ops: seq<Op>)
    requires AdmitsFree(nframes, reserved) && Accounted(nframes, reserved, p) && LegalRun(ByteAddress, nframes, p, ops)
    ensures Accounted(nframes, reserved, Run(ByteAddress, nframes, p, ops))
    decreases |ops|
  {
    if ops != [] {
      StepAccounts(nframes, reserved, p, ops[0]);
      RunAccounts(nframes, reserved, Step(ByteAddress, nframes, p, ops[0]), ops[1..]);
    }
  }

  /** From the marks page_allocator_init leaves, the check admits all free frames exactly below 4 GiB. */
  lemma InitAdmitsFreeIff(nframes: nat, firstFreePage: nat, used: set<nat>)
    requires nframes < TWO_TO_32 && Reserves(nframes, firstFreePage, used)
    ensures AdmitsFree(nframes, used) <==> nframes < 0x10_0000
  {
    if nframes >= 0x10_0000 {
      assert !Admits(nframes, Scanned(nframes) - 1);
    } else {
      LimitAdmitsAllIff(nframes);
    }
  }

  /** page_allocator_init and then any legal run below 4 GiB: no frame holding the kernel or the
      bitmap is ever handed out. */
  method InitAndPerform(bitmap: array<bv8>, firstFreePage: nat, memsize: nat, ops: seq<Op>, flags: bv64)
    returns (a: FrameAllocator, ghost reserved: set<nat>, handed: seq<nat>)
    requires memsize < TWO_TO_64 && memsize / PAGE_SIZE % TWO_TO_32 <= 8 * bitmap.Length
    requires firstFreePage + bitmap.Length + PAGE_SIZE <= TWO_TO_64
    modifies bitmap
    ensures a.nframes == memsize / PAGE_SIZE % TWO_TO_32 && Reserves(a.nframes, firstFreePage, reserved)
    ensures var p := Run(ByteAddress, a.nframes, Fresh(reserved), ops); a.InUse() == p.used && handed == p.handed
    ensures a.nframes < 0x10_0000 && LegalRun(ByteAddress, a.nframes, Fresh(reserved), ops) ==>
      && Accounted(a.nframes, reserved, Run(ByteAddress, a.nframes, Fresh(reserved), ops))
      && forall i :: 0 <= i < |handed| ==> handed[i] * PAGE_SIZE >= firstFreePage + a.nframes / 8
  {
    a := new FrameAllocator(bitmap, firstFreePage, memsize);
    reserved := a.InUse();
    handed := PerformAll(ByteAddress, a, ops, flags);
    if a.nframes < 0x10_0000 && LegalRun(ByteAddress, a.nframes, Fresh(reserved), ops) {
      InitAdmitsFreeIff(a.nframes, firstFreePage, reserved);
      RunAccounts(a.nframes, reserved, Fresh(reserved), ops);
    }
  }

  // ---------- Frames handed out twice

  function Allocs(n: nat): seq<Op> {
    seq(n, _ => Alloc)
  }

  /** Without frees and with every free frame admitted, what is handed out is marked and never comes again. */
  lemma {:induction false} AllocsAreDistinct(mode: FreeBy, nframes: nat, p: Pool, n: nat)
    requires AdmitsFree(nframes, p.used) && Distinct(p.handed)
    requires forall i :: 0 <= i < |p.handed| ==> p.handed[i] in p.used
    ensures Distinct(Run(mode, nframes, p, Allocs(n)).handed)
    decreases n
  {
    if n > 0 {
      assert Allocs(n)[1..] == Allocs(n - 1);
      LeastFreeIs(p.used, Scanned(nframes), 0);
      AllocsAreDistinct(mode, nframes, Step(mode, nframes, p, Alloc), n - 1);
    }
  }

  /** A least free frame that is not admitted is handed out twice in a row. */
  lemma UnadmittedRepeats(mode: FreeBy, nframes: nat, p: Pool, f: nat)
    requires IsLeastFree(p.used, Scanned(nframes), f) && !Admits(nframes, f)
    ensures Run(mode, nframes, p, Allocs(2)).handed == p.handed + [f, f]
  {
    LeastFreeIs(p.used, Scanned(nframes), 0);
    var p1 := Step(mode, nframes, p, Alloc);
    assert p1 == Pool(p.used, p.live + {f}, p.handed + [f]);
    var p2 := Step(mode, nframes, p1, Alloc);
    assert Allocs(2) == [Alloc, Alloc];
    assert [Alloc, Alloc][1..] == [Alloc] && [Alloc][1..] == [];
    assert Run(mode, nframes, p, [Alloc, Alloc]) == Run(mode, nframes, p1, [Alloc]) == p2;
  }

  /** Allocating up to a free frame that is not admitted ends in a frame handed out twice. */
  lemma {:induction false} Repeats(mode: FreeBy, nframes: nat, p: Pool, g: nat, f: nat) returns (n: nat)
    requires IsLeastFree(p.used, Scanned(nframes), g) && g <= f < Scanned(nframes)
    requires f !in p.used && !Admits(nframes, f)
    ensures !Distinct(Run(mode, nframes, p, Allocs(n)).handed)
    decreases f - g
  {
    if !Admits(nframes, g) {
      UnadmittedRepeats(mode, nframes, p, g);
      n := 2;
      var handed := Run(mode, nframes, p, Allocs(2)).handed;
      assert handed[|p.handed|] == handed[|p.handed| + 1];
    } else {
      LeastFreeIs(p.used, Scanned(nframes), 0);
      var p' := Step(mode, nframes, p, Alloc);
      LeastFreeIs(p'.used, Scanned(nframes), 0);
      var g' := LeastFree(p'.used, Scanned(nframes), 0).value;
      var m := Repeats(mode, nframes, p', g', f);
      n := m + 1;
      assert Allocs(n)[1..] == Allocs(m);
    }
  }

  /** Allocations alone never hand out a frame twice exactly when the bound check admits every free
      frame the scan sees. */
  lemma AllocsDistinctIff(mode: FreeBy, nframes: nat, used: set<nat>)
    ensures (forall n: nat :: Distinct(Run(mode, nframes, Fresh(used), Allocs(n)).handed)) <==>
      AdmitsFree(nframes, used)
  {
    if AdmitsFree(nframes, used) {
      forall n: nat
        ensures Distinct(Run(mode, nframes, Fresh(used), Allocs(n)).handed)
      {
        AllocsAreDistinct(mode, nframes, Fresh(used), n);
      }
    } else {
      var f: nat :| f < Scanned(nframes) && f !in used && !Admits(nframes, f);
      LeastFreeIs(used, Scanned(nframes), 0);
      var n := Repeats(mode, nframes, Fresh(used), LeastFree(used, Scanned(nframes), 0).value, f);
    }
  }

  /** After page_allocator_init that is the case exactly below 4 GiB. */
  lemma AllocsDistinctAfterInitIff(mode: FreeBy, nframes: nat, firstFreePage: nat, used: set<nat>)
    requires nframes < TWO_TO_32 && Reserves(nframes, firstFreePage, used)
    ensures (forall n: nat :: Distinct(Run(mode, nframes, Fresh(used), Allocs(n)).handed)) <==> nframes < 0x10_0000
  {
    AllocsDistinctIff(mode, nframes, used);
    InitAdmitsFreeIff(nframes, firstFreePage, used);
  }

  /** With exactly 4 GiB the bound is 0: nothing is marked, and frame 0 is handed out twice. */
  lemma FourGiBRepeats(mode: FreeBy, firstFreePage: nat)
    ensures Reserves(0x10_0000, firstFreePage, {})
    ensures Run(mode, 0x10_0000, Fresh({}), Allocs(2)).handed == [0, 0]
  {
    UnadmittedRepeats(mode, 0x10_0000, Fresh({}), 0);
  }

  // ---------- page_free as written

  /** With its argument taken as an address, page_free keeps the account exactly when it frees an
      admitted frame 0. */
  lemma FreeAccountsIff(nframes: nat, reserved: set<nat>, p: Pool, f: Frame)
    requires Accounted(nframes, reserved, p) && f in p.live
    ensures Accounted(nframes, reserved, Step(NumberAsAddress, nframes, p, Free(f))) <==> f == 0 && Limit(nframes) > 0
  {
    FreedByNumberIff(p.used, nframes, f);
    assert reserved + (p.live - {f}) == p.used - {f};
  }

  /** Allocating and freeing frame 1 as written gives the reserved frame 0 away. */
  lemma FreedByNumberHandsOutReserved()
    ensures var ops := [Alloc, Free(1), Alloc];
      && LegalRun(NumberAsAddress, 16, Fresh({0}), ops)
      && Run(NumberAsAddress, 16, Fresh({0}), ops).handed == [1, 0]
  {
    var ops := [Alloc, Free(1), Alloc];
    var p1, p2 := Pool({0, 1}, {1}, [1]), Pool({1}, {}, [1]);
    assert LeastFree({0}, 16, 0) == LeastFree({0}, 16, 1) == Some(1);
    assert Step(NumberAsAddress, 16, Fresh({0}), Alloc) == p1;
    assert Step(NumberAsAddress, 16, p1, Free(1)) == p2;
    assert LeastFree({1}, 16, 0) == Some(0);
    assert Step(NumberAsAddress, 16, p2, Alloc).handed == [1, 0];
    assert ops[1..] == [Free(1), Alloc] && ops[1..][1..] == [Alloc] && [Alloc][1..] == [];
  }
}
