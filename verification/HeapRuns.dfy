/** Every run of kmalloc and kfree calls and writes to the blocks between them, from the empty heap
    kheap_allocator_init leaves. */
module HeapRuns {
  import opened Words
  import opened Pages
  import opened HeapSpec
  import opened HeapProofs

  /** A Write is its caller's: one byte at an offset in a block it holds. */
  datatype Op = Kmalloc(size: nat) | Kfree(block: nat) | Write(block: nat, off: nat, data: Byte)

  function Empty(start: nat): Heap {
    Heap(start, start, map[], [])
  }

  /** What the allocator demands of its callers: requests it can serve, and only blocks it handed
      out, written behind their header. */
  predicate Legal(total: nat, h: Heap, op: Op) {
    Careful(h, op) && (op.Kmalloc? ==> op.size > total || Servable(h, op.size))
  }

  /** The half callers can see to themselves: blocks they hold, within their bounds. */
  predicate Careful(h: Heap, op: Op) {
    match op
    case Kmalloc(_) => true
    case Kfree(a) => IsLive(h, a)
    case Write(a, off, _) => IsLive(h, a) && HEADER <= off && a + off < h.regions[a].hi
  }

  /** One call; a request above the memory bound is refused. */
  function Step(total: nat, h: Heap, op: Op): Heap {
    match op
    case Kmalloc(size) => if size > total then h else Malloc(Corrected, h, size)
    case Kfree(a) => if IsLive(h, a) then Release(h, a) else h
    case Write(_, _, _) => h
  }

  function Run(total: nat, h: Heap, ops: seq<Op>): Heap
    decreases |ops|
  {
    if ops == [] then h else Run(total, Step(total, h, ops[0]), ops[1..])
  }

  predicate LegalRun(total: nat, h: Heap, ops: seq<Op>)
    decreases |ops|
  {
    ops == [] || (Legal(total, h, ops[0]) && LegalRun(total, Step(total, h, ops[0]), ops[1..]))
  }

  predicate CarefulRun(total: nat, h: Heap, ops: seq<Op>)
    decreases |ops|
  {
    ops == [] || (Careful(h, ops[0]) && CarefulRun(total, Step(total, h, ops[0]), ops[1..]))
  }

  /** The heap is well-formed before the run and after each of its steps. */
  ghost predicate ValidThroughout(total: nat, h: Heap, ops: seq<Op>)
    decreases |ops|
  {
    Valid(h) && (ops == [] || ValidThroughout(total, Step(total, h, ops[0]), ops[1..]))
  }

  /** The blocks callers hold after a run: those returned to them and not given back. */
  function Held(total: nat, h: Heap, ops: seq<Op>, held: set<nat>): set<nat>
    decreases |ops|
  {
    if ops == [] then held else Held(total, Step(total, h, ops[0]), ops[1..], HeldStep(total, h, ops[0], held))
  }

  function HeldStep(total: nat, h: Heap, op: Op, held: set<nat>): set<nat> {
    match op
    case Kmalloc(size) => if size > total then held else held + {Served(h, size)}
    case Kfree(a) => held - {a}
    case Write(_, _, _) => held
  }

  /** What callers last wrote in the blocks they hold: address to byte, `w` before the run. Freeing a
      block ends its owner's claim to its bytes. */
  function Written(total: nat, h: Heap, ops: seq<Op>, w: map<nat, Byte>): map<nat, Byte>
    decreases |ops|
  {
    if ops == [] then w else Written(total, Step(total, h, ops[0]), ops[1..], WrittenStep(h, ops[0], w))
  }

  function WrittenStep(h: Heap, op: Op, w: map<nat, Byte>): map<nat, Byte> {
    match op
    case Kmalloc(_) => w
    case Kfree(a) => if a in h.regions then map x | x in w && !(a <= x < h.regions[a].hi) :: w[x] else w
    case Write(a, off, data) => w[a + off := data]
  }

  lemma StepKeeps(total: nat, h: Heap, op: Op)
    requires Valid(h) && Legal(total, h, op)
    ensures Valid(Step(total, h, op))
  {
    match op
    case Kmalloc(size) =>
      if size <= total {
        MallocKeeps(h, size);
      }
    case Kfree(a) => ReleaseKeeps(h, a);
    case Write(_, _, _) =>
  }

  lemma StepKeepsIff(total: nat, h: Heap, op: Op)
    requires Valid(h) && Careful(h, op)
    ensures Valid(Step(total, h, op)) <==> Legal(total, h, op)
  {
    if Legal(total, h, op) {
      StepKeeps(total, h, op);
    } else {
      MallocKeepsIff(h, op.size);
    }
  }

  /** Careful callers keep the heap well-formed at every step exactly when every request can be served. */
  lemma {:induction false} RunKeepsIff(total: nat, h: Heap, ops: seq<Op>)
    requires Valid(h) && CarefulRun(total, h, ops)
    ensures ValidThroughout(total, h, ops) <==> LegalRun(total, h, ops)
    decreases |ops|
  {
    hide Valid, Step, Legal, Careful;
    if ops != [] {
      StepKeepsIff(total, h, ops[0]);
      if Legal(total, h, ops[0]) {
        RunKeepsIff(total, Step(total, h, ops[0]), ops[1..]);
      }
    }
  }

  lemma {:induction false} RunKeeps(total: nat, h: Heap, ops: seq<Op>)
    requires Valid(h) && LegalRun(total, h, ops)
    ensures Valid(Run(total, h, ops))
    decreases |ops|
  {
    if ops != [] {
      StepKeeps(total, h, ops[0]);
      RunKeeps(total, Step(total, h, ops[0]), ops[1..]);
    }
  }

  lemma {:induction false} RunAppend(total: nat, h: Heap, ops: seq<Op>, op: Op)
    ensures Run(total, h, ops + [op]) == Step(total, Run(total, h, ops), op)
    decreases |ops|
  {
    hide Step;
    if ops == [] {
      assert ops + [op] == [op] && [op][1..] == [];
    } else {
      assert (ops + [op])[1..] == ops[1..] + [op];
      RunAppend(total, Step(total, h, ops[0]), ops[1..], op);
    }
  }

  /** The heap's end moves exactly when a request is not refused and finds no block that fits. */
  lemma StepEnd(total: nat, h: Heap, op: Op)
    requires Listed(h)
    ensures Step(total, h, op).end ==
      h.end + if op.Kmalloc? && op.size <= total && Grows(h, op.size) then RoundUp(op.size + HEADER) else 0
  {
    hide Release, RoundUp;
    if op.Kfree? && IsLive(h, op.block) {
      ReleaseTakesOne(h, op.block);
    }
  }

  lemma EmptyIsValid(start: nat)
    requires start > 0
    ensures Valid(Empty(start))
  {}

  ghost predicate Owns(h: Heap, a: nat, x: nat) {
    a in h.regions && a <= x < h.regions[a].hi
  }

  /** After any legal run every heap byte lies in exactly one free block, live block or stranded
      tail, and every stranded tail is shorter than a page. */
  lemma RunOwnsEachByteOnce(total: nat, start: nat, ops: seq<Op>, x: nat)
    requires start > 0 && LegalRun(total, Empty(start), ops)
    requires start <= x < Run(total, Empty(start), ops).end
    ensures var h := Run(total, Empty(start), ops);
      exists a ::
        && Owns(h, a, x)
        && (forall b :: Owns(h, b, x) ==> b == a)
        && (h.regions[a].kind == Stranded ==> h.regions[a].hi - a < PAGE_SIZE)
  {
    var h := Run(total, Empty(start), ops);
    EmptyIsValid(start);
    RunKeeps(total, Empty(start), ops);
    RunStart(total, Empty(start), ops);
    assert Covered(h.regions, x);
    var a :| a in h.regions && a <= x < h.regions[a].hi;
    assert Owns(h, a, x);
  }

  lemma {:induction false} RunStart(total: nat, h: Heap, ops: seq<Op>)
    ensures Run(total, h, ops).start == h.start
    decreases |ops|
  {
    if ops != [] {
      RunStart(total, Step(total, h, ops[0]), ops[1..]);
    }
  }

  lemma StepLiveIsHeld(total: nat, h: Heap, op: Op, held: set<nat>)
    requires Valid(h) && Legal(total, h, op)
    requires forall a :: IsLive(h, a) <==> a in held
    ensures forall a :: IsLive(Step(total, h, op), a) <==> a in HeldStep(total, h, op, held)
  {
    hide Malloc, Release, Tiled, Shaped;
    match op
    case Kmalloc(size) => MallocServes(h, size);
    case Kfree(a) => ReleaseTakesOne(h, a);
    case Write(_, _, _) =>
  }

  /** The live blocks are exactly the ones callers hold. */
  lemma {:induction false} RunLiveIsHeld(total: nat, h: Heap, ops: seq<Op>, held: set<nat>)
    requires Valid(h) && LegalRun(total, h, ops)
    requires forall a :: IsLive(h, a) <==> a in held
    ensures forall a :: IsLive(Run(total, h, ops), a) <==> a in Held(total, h, ops, held)
    decreases |ops|
  {
    hide Valid, Step, HeldStep;
    if ops != [] {
      StepKeeps(total, h, ops[0]);
      StepLiveIsHeld(total, h, ops[0], held);
      RunLiveIsHeld(total, Step(total, h, ops[0]), ops[1..], HeldStep(total, h, ops[0], held));
    }
  }

  /** Every kfree of the run meets the condition under which kfree keeps the order. */
  predicate FreesAboveHead(total: nat, h: Heap, ops: seq<Op>)
    decreases |ops|
  {
    ops == [] ||
    ((ops[0].Kfree? ==> |h.free| <= 1 || h.free[0] < ops[0].block) &&
     FreesAboveHead(total, Step(total, h, ops[0]), ops[1..]))
  }

  /** The list is ordered before the run and after each of its steps. */
  ghost predicate OrderedThroughout(total: nat, h: Heap, ops: seq<Op>)
    decreases |ops|
  {
    Ordered(h) && (ops == [] || OrderedThroughout(total, Step(total, h, ops[0]), ops[1..]))
  }

  lemma StepOrdersIff(total: nat, h: Heap, op: Op)
    requires Valid(h) && Ordered(h) && Legal(total, h, op)
    ensures Ordered(Step(total, h, op)) <==> (op.Kfree? ==> |h.free| <= 1 || h.free[0] < op.block)
  {
    match op
    case Kmalloc(size) => MallocOrders(h, size);
    case Kfree(a) => ReleaseOrdersIff(h, a);
    case Write(_, _, _) =>
  }

  /** The free list stays ascending with no two neighbours touching exactly along such runs. */
  lemma {:induction false} RunOrdersIff(total: nat, h: Heap, ops: seq<Op>)
    requires Valid(h) && Ordered(h) && LegalRun(total, h, ops)
    ensures OrderedThroughout(total, h, ops) <==> FreesAboveHead(total, h, ops)
    decreases |ops|
  {
    hide Ordered, Valid, Step;
    if ops != [] {
      StepKeeps(total, h, ops[0]);
      StepOrdersIff(total, h, ops[0]);
      if Ordered(Step(total, h, ops[0])) {
        RunOrdersIff(total, Step(total, h, ops[0]), ops[1..]);
      }
    }
  }

  // ---------- Runs from the empty heap that lose the order, or do not restore it

  lemma RunOne(total: nat, h: Heap, ops: seq<Op>, h': Heap)
    requires ops != [] && Step(total, h, ops[0]) == h'
    ensures Run(total, h, ops) == Run(total, h', ops[1..])
    ensures LegalRun(total, h, ops) <==> Legal(total, h, ops[0]) && LegalRun(total, h', ops[1..])
  {}

  /** n blocks of 100 bytes, at most three, at the start of a heap of one page. */
  function Packed(n: nat): Heap {
    match n
    case 0 => Empty(4096)
    case 1 => Heap(4096, 8192, map[4096 := Region(Live, 4204), 4204 := Region(Free, 8192)], [4204])
    case 2 => Heap(4096, 8192, map[4096 := Region(Live, 4204), 4204 := Region(Live, 4312),
                                   4312 := Region(Free, 8192)], [4312])
    case _ => Heap(4096, 8192, map[4096 := Region(Live, 4204), 4204 := Region(Live, 4312),
                                   4312 := Region(Live, 4420), 4420 := Region(Free, 8192)], [4420])
  }

  lemma PackedNext(total: nat, n: nat)
    requires total >= 100 && n < 3
    ensures Step(total, Packed(n), Kmalloc(100)) == Packed(n + 1)
  {
    match n
    case 0 =>
      var filled := Refill(Corrected, Packed(0), 100);
      assert Take(filled, 0, 100) == Packed(1);
    case 1 =>
      assert Take(Packed(1), 0, 100) == Packed(2);
    case 2 =>
      assert Take(Packed(2), 0, 100) == Packed(3);
  }

  /** The three with the middle one freed. */
  function MiddleFreed(): Heap {
    Packed(3).(regions := Packed(3).regions[4204 := Region(Free, 4312)], free := [4204, 4420])
  }

  lemma MiddleFreedIs(total: nat)
    requires total >= 100
    ensures IsLive(Packed(3), 4204) && Step(total, Packed(3), Kfree(4204)) == MiddleFreed()
    ensures Ordered(MiddleFreed())
  {
    assert Slot([4420], 4204) == 0;
    assert Link(Packed(3), 4204, 0) == MiddleFreed();
  }

  const PACK: seq<Op> := [Kmalloc(100), Kmalloc(100), Kmalloc(100), Kfree(4204)]

  /** A run from the empty heap that reaches it. */
  lemma PackRuns(total: nat, more: seq<Op>)
    requires total >= 100
    ensures Run(total, Empty(4096), PACK + more) == Run(total, MiddleFreed(), more)
    ensures LegalRun(total, Empty(4096), PACK + more) <==> LegalRun(total, MiddleFreed(), more)
  {
    hide Step, Run, LegalRun, MiddleFreed;
    var ops := PACK + more;
    assert Packed(0) == Empty(4096);
    PackedNext(total, 0);
    PackedNext(total, 1);
    PackedNext(total, 2);
    MiddleFreedIs(total);
    RunOne(total, Packed(0), ops, Packed(1));
    RunOne(total, Packed(1), ops[1..], Packed(2));
    RunOne(total, Packed(2), ops[2..], Packed(3));
    RunOne(total, Packed(3), ops[3..], MiddleFreed());
    assert ops[1..][1..] == ops[2..] && ops[2..][1..] == ops[3..] && ops[3..][1..] == more;
  }

  lemma LowestFreed(total: nat)
    ensures Legal(total, MiddleFreed(), Kfree(4096))
    ensures Step(total, MiddleFreed(), Kfree(4096)).free == [4204, 4096, 4420]
  {
    var h := MiddleFreed();
    assert Slot(h.free, 4096) == 1;
    assert Link(h, 4096, 1).free == [4204, 4096, 4420];
  }

  /** Freeing the lowest block then puts it second: the case kmalloc.c:152-161 leaves out. */
  lemma FreeBelowHeadReached(total: nat)
    requires total >= 100
    ensures var ops := PACK + [Kfree(4096)];
      && LegalRun(total, Empty(4096), ops)
      && Run(total, Empty(4096), ops).free == [4204, 4096, 4420]
      && !Ordered(Run(total, Empty(4096), ops))
  {
    hide Step, Run, LegalRun, Legal, MiddleFreed;
    PackRuns(total, [Kfree(4096)]);
    LowestFreed(total);
    var h := Step(total, MiddleFreed(), Kfree(4096));
    assert [Kfree(4096)][1..] == [];
    RunOne(total, MiddleFreed(), [Kfree(4096)], h);
    RunNone(total, h);
    assert h.free[0] > h.free[1];
  }

  /** The middle block's first 50 bytes taken again. */
  function MiddleSplit(): Heap {
    MiddleFreed().(regions := MiddleFreed().regions[4204 := Region(Live, 4262)][4262 := Region(Free, 4312)],
                   free := [4262, 4420])
  }

  lemma MiddleSplitIs(total: nat)
    requires total >= 100
    ensures Legal(total, MiddleFreed(), Kmalloc(50)) && Step(total, MiddleFreed(), Kmalloc(50)) == MiddleSplit()
  {
    assert Take(MiddleFreed(), 0, 50) == MiddleSplit();
  }

  lemma MiddleSplitFreed(total: nat)
    ensures Legal(total, MiddleSplit(), Kfree(4204))
    ensures Step(total, MiddleSplit(), Kfree(4204)).free == [4262, 4204, 4420]
  {
    var h := MiddleSplit();
    assert Slot(h.free, 4204) == 1;
    assert Link(h, 4204, 1).free == [4262, 4204, 4420];
  }

  lemma RunNone(total: nat, h: Heap)
    ensures Run(total, h, []) == h && LegalRun(total, h, [])
  {}

  /** A kmalloc served from an ordered list and the kfree right after it, which does not restore the list. */
  lemma UndoFailsReached(total: nat)
    requires total >= 100
    ensures var ops := PACK + [Kmalloc(50), Kfree(4204)];
      && LegalRun(total, Empty(4096), ops)
      && Run(total, Empty(4096), PACK).free == [4204, 4420]
      && Run(total, Empty(4096), ops).free == [4262, 4204, 4420]
  {
    hide Step, Run, LegalRun, Legal, MiddleSplit;
    PackRuns(total, []);
    assert PACK + [] == PACK;
    var last := [Kfree(4204)];
    var more := [Kmalloc(50)] + last;
    assert more == [Kmalloc(50), Kfree(4204)];
    PackRuns(total, more);
    MiddleSplitIs(total);
    MiddleSplitFreed(total);
    var h := Step(total, MiddleSplit(), Kfree(4204));
    RunOne(total, MiddleFreed(), more, MiddleSplit());
    assert more[1..] == last && last[1..] == [];
    RunOne(total, MiddleSplit(), last, h);
    RunNone(total, h);
    RunNone(total, MiddleFreed());
  }
}
