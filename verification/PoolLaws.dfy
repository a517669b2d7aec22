/** What Mem_PoolCreate and Mem_HeapAlloc guarantee: agreement of the predicted with the
    allocated size, all-or-nothing creation, and disjointness of everything handed out
    over whole runs. */
module PoolLaws {
  import opened Arith
  import opened Segment
  import opened PoolBlocks
  import opened PoolTable

  // ---- Prediction against allocation ---------------------------------------------

  /** The predicted pointer table is what Mem_SegAlloc takes for it: the gap and the
      32-bit product blk_nbr * sizeof(void *). */
  lemma PtrTableSize(addr: u32, nbr: u32)
    requires 0 < nbr && CalcTotSize(addr, nbr, PTR, PTR) != 0
    ensures 0 < Wrap(nbr * PTR)
    ensures CalcTotSize(addr, nbr, PTR, PTR) == Gap(addr, PTR) + Wrap(nbr * PTR)
  {
    if nbr == 1 {
      CheckedSumOne(Gap(addr, PTR), Gap(PTR, PTR), PTR);
    } else {
      var p := Wrap(4 * (nbr - 1));
      CheckedSumMany(Gap(addr, PTR), Gap(PTR, PTR), nbr, PTR, p);
      WrapAdd(4 * (nbr - 1), 4);
      SmallMod(p + 4, U32);
    }
  }

  /** Facts a plan that passed all checks rests on. */
  lemma PlanSpec(t: Table, q: Request)
    requires TableInv(t) && MakePlan(t, q).Go?
    ensures var plan := MakePlan(t, q); var heap := t.segs[t.heap];
            0 < q.nbr && 0 < q.size && 0 < q.align &&
            plan.sizePtrs == CalcTotSize(heap.avail, q.nbr, PTR, PTR) && 0 < plan.sizePtrs <= heap.rem &&
            plan.sizePool == CalcTotSize(plan.start, q.nbr, q.size, q.align) && 0 < plan.sizePool
    ensures var plan := MakePlan(t, q); var heap := t.segs[t.heap];
            q.base == 0 ==> plan.target == Listed(t.heap) && plan.start == Wrap(heap.avail + plan.sizePtrs)
                            && plan.sizePtrs + plan.sizePool <= heap.rem
    ensures var plan := MakePlan(t, q);
            q.base != 0 ==> SegInv(TargetSeg(t, plan.target, q)) && plan.start == TargetSeg(t, plan.target, q).avail
                            && plan.sizePool <= TargetSeg(t, plan.target, q).rem
    ensures var plan := MakePlan(t, q);
            plan.target.Fresh? ==> q.base != 0 && (forall j :: 0 <= j < plan.target.i ==> End(t.segs[j]) <= q.base)
                                   && (forall j :: plan.target.i <= j < |t.segs| ==> q.base + q.memSize <= t.segs[j].base)
    ensures var plan := MakePlan(t, q);
            q.base != 0 && plan.target.Listed? ==> Same(t.segs[plan.target.i], q.base, q.memSize)
  {
    var heap := t.segs[t.heap];
    if q.base == 0 {
      var plan := MakePlan(t, q);
      WrapSum(plan.sizePtrs, plan.sizePool);
    } else {
      WrapSum(q.base, q.memSize - 1);
      SearchSpec(t.segs, 0, q.base, q.memSize);
    }
  }

  /** A dedicated segment that is the heap itself. */
  predicate Aliased(t: Table, q: Request, plan: Plan) {
    plan.Go? && q.base != 0 && plan.target == Listed(t.heap)
  }

  /** The segment the blocks are really taken from, after the pointer table. */
  function Source(t: Table, q: Request, plan: Plan): Seg
    requires t.heap < |t.segs| && plan.Go? && Placeable(t, plan.target)
  {
    TargetSeg(AfterPtrs(t, q).0, plan.target, q)
  }

  lemma AfterPtrsSpec(t: Table, q: Request)
    requires TableInv(t) && MakePlan(t, q).Go?
    ensures var plan := MakePlan(t, q); var heap := t.segs[t.heap]; var (t1, ptrTable) := AfterPtrs(t, q);
            (ptrTable == 0 <==> heap.avail + plan.sizePtrs == U32) &&
            (ptrTable == 0 ==> t1 == t) &&
            (ptrTable != 0 ==> (
               ptrTable == heap.avail + Gap(heap.avail, PTR) &&
               t1.segs[t.heap] == Seg(heap.base, heap.tot, heap.avail + plan.sizePtrs, heap.rem - plan.sizePtrs,
                                      heap.blocks + [Block(ptrTable, Wrap(q.nbr * PTR), PTR)])))
    ensures SegInv(AfterPtrs(t, q).0.segs[t.heap]) && SegInv(Source(t, q, MakePlan(t, q)))
  {
    var heap := t.segs[t.heap];
    PlanSpec(t, q);
    PtrTableSize(heap.avail, q.nbr);
    SegAllocSpec(heap, Wrap(q.nbr * PTR), PTR);
    assert t.segs[t.heap := heap] == t.segs;
  }

  /** Where the blocks really start. */
  lemma SourceSpec(t: Table, q: Request)
    requires TableInv(t) && MakePlan(t, q).Go? && AfterPtrs(t, q).1 != 0
    ensures var plan := MakePlan(t, q); var s := Source(t, q, plan); var heap := t.segs[t.heap];
            if Aliased(t, q, plan) then
              s.avail == heap.avail + plan.sizePtrs && s.rem == heap.rem - plan.sizePtrs && plan.start == heap.avail
            else s.avail == plan.start && plan.sizePool <= s.rem
  {
    var plan := MakePlan(t, q);
    var heap := t.segs[t.heap];
    PlanSpec(t, q);
    AfterPtrsSpec(t, q);
    SmallMod(if q.base == 0 then heap.avail + plan.sizePtrs else 0, U32);
  }

  /** The N allocations fail in spite of the checks exactly in these cases: the predicted
      size missed an overflow, the pool would end at 2^32, or the blocks come from the heap
      as a "dedicated" segment that the pointer table has just made too small. */
  predicate Stumbles(t: Table, q: Request)
    requires TableInv(t)
  {
    var plan := MakePlan(t, q);
    plan.Go? && t.heap < |t.segs| && 0 < q.align &&
    var heap := t.segs[t.heap];
    heap.avail + plan.sizePtrs < U32 &&
    if Aliased(t, q, plan) then
      var need := plan.sizePtrs + TotSize(heap.avail + plan.sizePtrs, q.nbr, q.size, q.align);
      heap.rem < need || heap.avail + need == U32
    else
      ProductWrapsUnseen(plan.start, q.nbr, q.size, q.align) || plan.start + plan.sizePool == U32
  }

  /** The blocks fit where they are really taken from, unless the plan stumbles. */
  lemma BlocksFitIff(t: Table, q: Request)
    requires TableInv(t) && MakePlan(t, q).Go? && AfterPtrs(t, q).1 != 0
    ensures 0 < q.align && 0 < q.nbr
    ensures var s := Source(t, q, MakePlan(t, q));
            (Room(s, Used(s.avail, q.nbr, q.size, q.align)) <==> !Stumbles(t, q))
  {
    hide MakePlan, AfterPtrs, Gap, CheckedSum, CalcTotSize, SegInv, Wrap;
    var plan := MakePlan(t, q);
    var s := Source(t, q, plan);
    PlanSpec(t, q);
    AfterPtrsSpec(t, q);
    SourceSpec(t, q);
    if !Aliased(t, q, plan) {
      CalcTotSizeValue(plan.start, q.nbr, q.size, q.align);
    }
  }

  /** The three ways Mem_PoolCreate can end once its checks have passed. */
  lemma CommitSpec(t: Table, q: Request)
    requires TableInv(t) && MakePlan(t, q).Go?
    ensures 0 < q.align && 0 < q.nbr && 0 < q.size
    ensures var s := Source(t, q, MakePlan(t, q)); var (s', addrs) := AllocRun(s, q.nbr, q.size, q.align);
            AfterRun(s, q.nbr, q.size, q.align, s', addrs)
    ensures var plan := MakePlan(t, q); var r := PoolCreate(t, q); var (t1, ptrTable) := AfterPtrs(t, q);
            var (s', addrs) := AllocRun(Source(t, q, plan), q.nbr, q.size, q.align);
            if ptrTable == 0 then r.err == HeapEmpty && r.tbl == t && r.created == NoPool && r.stray == 0
            else if Stumbles(t, q) then
              (r.err == SegEmpty && r.created == NoPool && r.stray == Stray(addrs, q) && |addrs| < q.nbr &&
               r.tbl == (if plan.target.Fresh? then t1 else Place(t1, plan.target, s')) &&
               r.reqd == StillNeeded(CalcTotSize(s'.avail, Wrap(q.nbr - |addrs|), q.size, q.align), s'.rem))
            else
              (r.err == None_ && |addrs| == q.nbr && r.tbl == Place(t1, plan.target, s') && r.stray == Stray(addrs, q) &&
               r.created == NewPool(ptrTable, Pool(plan.start, Wrap(plan.start + plan.sizePool - 1), q.align, q.size, q.nbr, q.nbr, InTable(addrs, q))))
  {
    hide MakePlan, AllocRun, SegAlloc, CalcTotSize, Gap, Wrap, SegInv, Stumbles, Used, BlockAt, Room, Place, InTable, Stray, StillNeeded;
    var s := Source(t, q, MakePlan(t, q));
    PlanSpec(t, q);
    AfterPtrsSpec(t, q);
    AllocRunClosedForm(s, q.nbr, q.size, q.align);
    if AfterPtrs(t, q).1 != 0 {
      BlocksFitIff(t, q);
    }
  }

  /** A checked call that gets its pointer table and does not stumble succeeds. */
  lemma GoesThrough(t: Table, q: Request)
    requires TableInv(t) && MakePlan(t, q).Go? && !Stumbles(t, q)
    requires t.segs[t.heap].avail + MakePlan(t, q).sizePtrs != U32
    ensures PoolCreate(t, q).err == None_
  {
    hide MakePlan, PoolCreate, Stumbles, AllocRun, AfterPtrs;
    AfterPtrsSpec(t, q);
    CommitSpec(t, q);
  }

  /** A failed allocation ends the run: more attempts change nothing. */
  lemma {:induction false} RunStuck(s: Seg, k: nat, n: nat, size: u32, align: u32)
    requires 0 < align && k <= n && |AllocRun(s, k, size, align).1| < k
    ensures AllocRun(s, n, size, align) == AllocRun(s, k, size, align)
  {
    if k < n {
      RunStuck(s, k, n - 1, size, align);
    }
  }

  // ---- The pointer table ----------------------------------------------------------------

  /** Exactly when pointers are stored beyond the end of the pointer table: 4 * blk_nbr wraps,
      all checks pass, the table is taken, and more blocks fit than it has entries. */
  lemma OverrunIff(t: Table, q: Request)
    requires TableInv(t)
    ensures PoolCreate(t, q).stray > 0
            <==> q.nbr * PTR >= U32 && MakePlan(t, q).Go? && AfterPtrs(t, q).1 != 0 &&
                 var s := Source(t, q, MakePlan(t, q)); Room(s, Used(s.avail, Slots(q) + 1, q.size, q.align))
  {
    hide MakePlan, AfterPtrs, AllocRun, SegInv, Ascending, Stumbles, Wrap, InTable, Place, TotSize, BlockAt, CalcTotSize;
    var plan := MakePlan(t, q);
    if plan.Go? && AfterPtrs(t, q).1 != 0 {
      var s := Source(t, q, plan);
      CommitSpec(t, q);
      AfterPtrsSpec(t, q);
      SlotsSpec(q);
      RunPrefix(s, Min(Slots(q) + 1, q.nbr), q.nbr, q.size, q.align);
      AllocRunClosedForm(s, Slots(q) + 1, q.size, q.align);
    } else if plan.Go? {
      CommitSpec(t, q);
    }
  }

  /** A successful call overruns its table exactly when 4 * blk_nbr wraps. */
  lemma SuccessOverrunsIff(t: Table, q: Request)
    requires TableInv(t) && PoolCreate(t, q).err == None_
    ensures PoolCreate(t, q).stray == q.nbr - Slots(q)
    ensures PoolCreate(t, q).stray == 0 <==> q.nbr * PTR < U32
  {
    var s, addrs := SuccessSpec(t, q);
    SlotsSpec(q);
  }

  lemma NoOverrun(t: Table, q: Request)
    requires TableInv(t) && q.nbr * PTR < U32
    ensures PoolCreate(t, q).stray == 0
  {
    OverrunIff(t, q);
  }

  // ---- What is reported after the checks ---------------------------------------------------

  /** Octets reported when left more blocks were to be allocated from s. */
  function ReportedLeft(s: Seg, left: u32, size: u32, align: u32): u32
    requires 0 < align
  {
    StillNeeded(CalcTotSize(s.avail, left, size, align), s.rem)
  }

  lemma WholeWraps(x: int)
    requires U32 <= x
    ensures Wrap(x) <= x - U32
  {
    assert x == (x / U32) * U32 + Wrap(x);
  }

  /** The number reported is the true shortfall of the blocks not allocated exactly when their
      size is a word and exceeds what remains. */
  lemma ReportedIsShortfallIff(s: Seg, left: u32, size: u32, align: u32)
    requires 0 < left && 0 < size && 0 < align
    ensures ReportedLeft(s, left, size, align) == TotSize(s.avail, left, size, align) - s.rem
            <==> s.rem < TotSize(s.avail, left, size, align) < U32
  {
    hide CalcTotSize, Gap, Stride, Wrap;
    CalcTotSizeValue(s.avail, left, size, align);
    MulLe(0, left - 1, Stride(size, align));
    if U32 <= Stride(size, align) * (left - 1) {
      WholeWraps(Stride(size, align) * (left - 1));
    }
  }

  /** After passed checks: HEAP_EMPTY (no pointer table) never reports a shortfall, because the
      heap ends at 2^32; SEG_EMPTY reports the shortfall of the blocks still missing exactly
      when their size is a word and exceeds what remains. */
  lemma ReportedAfterChecks(t: Table, q: Request)
    requires TableInv(t) && MakePlan(t, q).Go?
    ensures 0 < q.align && 0 < q.nbr
    ensures var r := PoolCreate(t, q); var heap := t.segs[t.heap];
            AfterPtrs(t, q).1 == 0 ==>
              q.base != 0 && r.reqd == Wrap(q.nbr * PTR) <= heap.rem && heap.avail + heap.rem == U32
    ensures var r := PoolCreate(t, q); var (s, addrs) := AllocRun(Source(t, q, MakePlan(t, q)), q.nbr, q.size, q.align);
            AfterPtrs(t, q).1 != 0 && r.err != None_ ==>
              var need := TotSize(s.avail, q.nbr - |addrs|, q.size, q.align);
              (r.reqd == need - s.rem <==> s.rem < need < U32)
  {
    CommitSpec(t, q);
    if AfterPtrs(t, q).1 == 0 {
      NoTableReport(t, q);
    } else if PoolCreate(t, q).err != None_ {
      var (s, addrs) := AllocRun(Source(t, q, MakePlan(t, q)), q.nbr, q.size, q.align);
      hide AllocRun, MakePlan, PoolCreate, TotSize, CalcTotSize, Gap;
      SmallMod(q.nbr - |addrs|, U32);
      ReportedIsShortfallIff(s, q.nbr - |addrs|, q.size, q.align);
    }
  }

  lemma NoTableReport(t: Table, q: Request)
    requires TableInv(t) && MakePlan(t, q).Go? && AfterPtrs(t, q).1 == 0
    ensures var r := PoolCreate(t, q); var heap := t.segs[t.heap];
            q.base != 0 && r.reqd == Wrap(q.nbr * PTR) <= heap.rem && heap.avail + heap.rem == U32
  {
    hide Gap, CalcTotSize, Wrap, AfterPtrs, MakePlan;
    PlanSpec(t, q);
    AfterPtrsSpec(t, q);
    PtrTableSize(t.segs[t.heap].avail, q.nbr);
  }

  // ---- The start, and refused arguments --------------------------------------------------------

  /** Mem_Init makes the whole configured memory the heap: nothing is taken yet, all of it is
      reported as remaining, and a first allocation of n octets succeeds at the base address
      exactly when n is not more than that -- unless it would end at 2^32. */
  lemma WholeHeapIsFree(base: u32, size: u32, n: u32)
    requires 0 < base && 0 < size && base + size <= U32
    ensures var t := InitTable(base, size); TableInv(t) && |t.segs| == 1 && t.heap == 0
    ensures var heap := InitTable(base, size).segs[0]; var r := HeapAlloc(heap, n, 1);
            heap.base == base && End(heap) == base + size && GetSizeRem(heap, 1) == (size, None_) && heap.blocks == [] &&
            (r.err == None_ <==> 1 <= n <= size && base + n < U32) && (r.err == None_ ==> r.addr == base)
  {
    var heap := InitTable(base, size).segs[0];
    assert Gap(base, 1) == 0;
    if 0 < n {
      HeapAllocSpec(heap, n, 1);
    }
  }

  /** The five errors in front of the size checks, from the request and the table alone, in the
      order in which they are reported; they leave everything as it was. */
  lemma ArgumentErrors(t: Table, q: Request)
    requires TableInv(t)
    ensures var r := PoolCreate(t, q); var seg := q.base != 0 && q.memSize == 0;
            (r.err == InvalidSegSize <==> seg) &&
            (r.err == InvalidBlkNbr <==> !seg && q.nbr == 0) &&
            (r.err == InvalidBlkSize <==> !seg && q.nbr != 0 && q.size == 0) &&
            (r.err == InvalidBlkAlign <==> !seg && q.nbr != 0 && q.size != 0 && q.align == 0) &&
            (r.err == HeapNotFound <==> !seg && q.nbr != 0 && q.size != 0 && q.align != 0 && t.segs == []) &&
            (!ArgsOk(t, q) ==> r.tbl == t && r.reqd == 0 && r.created == NoPool && r.stray == 0)
  {
    hide CalcTotSize, SearchFrom, Wrap, SegInv, Ascending;
    if MakePlan(t, q).Go? {
      hide MakePlan, PoolCreate, AllocRun, AfterPtrs, Stumbles;
      PlanSpec(t, q);
      CommitSpec(t, q);
    }
  }

  // ---- All or nothing ----------------------------------------------------------------

  /** A failing Mem_PoolCreate leaves every segment as it was, exactly when it does not
      stumble after its checks. */
  lemma AllOrNothingIff(t: Table, q: Request)
    requires TableInv(t)
    ensures (PoolCreate(t, q).err != None_ ==> PoolCreate(t, q).tbl == t) <==> !Stumbles(t, q)
  {
    var plan := MakePlan(t, q);
    if plan.Go? {
      CommitSpec(t, q);
      AfterPtrsSpec(t, q);
      if Stumbles(t, q) {
        var r := PoolCreate(t, q);
        assert |t.segs[t.heap].blocks| < |r.tbl.segs[t.heap].blocks|;
      }
    }
  }

  /** What a caller can check beforehand: no 32-bit overflow in the pool's size, a dedicated
      segment other than the heap, and no segment reaching up to 2^32. */
  lemma AllOrNothing(t: Table, q: Request)
    requires TableInv(t)
    requires q.align == 0 || Stride(q.size, q.align) * (q.nbr - 1) < U32
    requires forall i :: 0 <= i < |t.segs| ==> End(t.segs[i]) < U32
    requires q.base + q.memSize < U32 && (t.segs != [] ==> q.base != t.segs[t.heap].base)
    ensures PoolCreate(t, q).err != None_ ==> PoolCreate(t, q).tbl == t
  {
    AllOrNothingIff(t, q);
    if Stumbles(t, q) {
      var plan := MakePlan(t, q);
      PlanSpec(t, q);
      AfterPtrsSpec(t, q);
      SourceSpec(t, q);
      assert false;
    }
  }

  lemma StumbleOutcome(t: Table, q: Request)
    requires TableInv(t) && Stumbles(t, q)
    ensures PoolCreate(t, q).err == SegEmpty && PoolCreate(t, q).tbl != t
  {
    CommitSpec(t, q);
    AfterPtrsSpec(t, q);
    AllOrNothingIff(t, q);
  }

  // ---- The pool that was created --------------------------------------------------------

  lemma FittingPrediction(s: Seg, sizePool: u32, nbr: u32, size: u32, align: u32)
    requires SegInv(s) && 0 < nbr && 0 < size && 0 < align
    requires sizePool == CalcTotSize(s.avail, nbr, size, align) && Room(s, Used(s.avail, nbr, size, align))
    ensures sizePool == TotSize(s.avail, nbr, size, align) && s.avail + sizePool < U32
    ensures Wrap(s.avail + sizePool - 1) == s.avail + sizePool - 1
  {
    CalcTotSizeValue(s.avail, nbr, size, align);
    SmallMod(s.avail + sizePool - 1, U32);
  }

  /** What a successful call did: the source segment and the addresses it took there. */
  lemma SuccessSpec(t: Table, q: Request) returns (s: Seg, addrs: seq<u32>)
    requires TableInv(t) && PoolCreate(t, q).err == None_
    ensures MakePlan(t, q).Go? && AfterPtrs(t, q).1 != 0 && 0 < q.align && 0 < q.size && 0 < q.nbr
    ensures s == Source(t, q, MakePlan(t, q)) && SegInv(s) && Room(s, Used(s.avail, q.nbr, q.size, q.align))
    ensures |addrs| == q.nbr && forall i :: 0 <= i < q.nbr ==> addrs[i] == BlockAt(s.avail, i, q.size, q.align)
    ensures var plan := MakePlan(t, q);
            PoolCreate(t, q).created == NewPool(AfterPtrs(t, q).1,
              Pool(plan.start, Wrap(plan.start + plan.sizePool - 1), q.align, q.size, q.nbr, q.nbr, InTable(addrs, q))) &&
            PoolCreate(t, q).stray == Stray(addrs, q)
  {
    if MakePlan(t, q).Reject? {
      RejectIsError(t, q);
    }
    CommitSpec(t, q);
    AfterPtrsSpec(t, q);
    s := Source(t, q, MakePlan(t, q));
    addrs := AllocRun(s, q.nbr, q.size, q.align).1;
  }

  /** After success the predicted size is the true one and the pointer table lists the blocks
      where the N allocations put them: all of them exactly when 4 * blk_nbr does not wrap. */
  lemma CreatedLayout(t: Table, q: Request)
    requires TableInv(t) && PoolCreate(t, q).err == None_ && !Aliased(t, q, MakePlan(t, q))
    ensures var plan := MakePlan(t, q); var r := PoolCreate(t, q);
            plan.Go? && r.created.NewPool? && 0 < q.align && 0 < q.size && 0 < q.nbr && 0 < plan.start &&
            plan.sizePool == TotSize(plan.start, q.nbr, q.size, q.align) && plan.start + plan.sizePool < U32
    ensures var plan := MakePlan(t, q); var p := PoolCreate(t, q).created.pool;
            p == Pool(plan.start, plan.start + plan.sizePool - 1, q.align, q.size, q.nbr, q.nbr, p.ptrs) &&
            |p.ptrs| == Slots(q) && (|p.ptrs| == q.nbr <==> q.nbr * PTR < U32) &&
            forall i :: 0 <= i < |p.ptrs| ==> p.ptrs[i] == BlockAt(plan.start, i, q.size, q.align)
  {
    var s, addrs := SuccessSpec(t, q);
    SlotsSpec(q);
    PlanSpec(t, q);
    SourceSpec(t, q);
    FittingPrediction(s, MakePlan(t, q).sizePool, q.nbr, q.size, q.align);
  }

  lemma RejectIsError(t: Table, q: Request)
    requires TableInv(t) && MakePlan(t, q).Reject?
    ensures MakePlan(t, q).err != None_
  {
  }

  /** Success outside the aliased case yields a full pool whose table lists exactly the
      blocks laid out by the N allocations. */
  lemma CreatedPoolSound(t: Table, q: Request)
    requires TableInv(t) && PoolCreate(t, q).err == None_ && !Aliased(t, q, MakePlan(t, q))
    requires q.nbr * PTR < U32
    ensures PoolCreate(t, q).created.NewPool?
    ensures var p := PoolCreate(t, q).created.pool;
            PoolInv(p) && p.ix == p.nbr == q.nbr && p.size == q.size && p.align == q.align &&
            forall i :: 0 <= i < p.nbr ==> p.ptrs[i] == Blk(p, i)
  {
    CreatedLayout(t, q);
    FullPoolInv(PoolCreate(t, q).created.pool);
  }

  lemma FullPoolInv(p: Pool)
    requires Geometry(p) && |p.ptrs| == p.nbr == p.ix
    requires forall i :: 0 <= i < p.nbr ==> p.ptrs[i] == Blk(p, i)
    ensures PoolInv(p)
  {
    StrideIsWord(p);
    forall i, j | 0 <= i < j < |p.ptrs| ensures p.ptrs[i] != p.ptrs[j] {
      BlkDistinct(p, i, j);
    }
    forall i | 0 <= i < p.nbr ensures Blk(p, i) in p.ptrs {
      assert p.ptrs[i] == Blk(p, i);
    }
  }

  /** The gap shrinks with every octet skipped inside it. */
  lemma GapInside(addr: int, k: int, align: int)
    requires align > 0 && 0 <= k <= Gap(addr, align)
    ensures Gap(addr + k, align) == Gap(addr, align) - k
  {
    GapAligns(addr, align);
    GapIff(addr + k, align, Gap(addr, align) - k);
  }

  /** The heap as its own dedicated segment, when the pointer table hides in the gap
      before the first block: the recorded pool start does no harm. */
  lemma AliasedPoolSound(t: Table, q: Request)
    requires TableInv(t) && PoolCreate(t, q).err == None_ && Aliased(t, q, MakePlan(t, q))
    requires 0 < q.align && MakePlan(t, q).sizePtrs <= Gap(MakePlan(t, q).start, q.align) && q.nbr * PTR < U32
    ensures PoolCreate(t, q).created.NewPool? && PoolInv(PoolCreate(t, q).created.pool)
  {
    hide MakePlan, AfterPtrs, Source, SegInv, PoolCreate, Gap, PoolInv, Wrap, CalcTotSize, AllocRun;
    var plan := MakePlan(t, q);
    var s, addrs := SuccessSpec(t, q);
    SlotsSpec(q);
    PlanSpec(t, q);
    SourceSpec(t, q);
    GapInside(plan.start, plan.sizePtrs, q.align);
    CalcTotSizeValue(plan.start, q.nbr, q.size, q.align);
    WrapSmall(plan.start + plan.sizePool - 1);
    FullPoolInv(PoolCreate(t, q).created.pool);
  }

  /** Otherwise the block expected right after the pool start is not in the table. */
  lemma AliasedPoolUnsound(t: Table, q: Request)
    requires TableInv(t) && PoolCreate(t, q).err == None_ && Aliased(t, q, MakePlan(t, q))
    requires 0 < q.align && MakePlan(t, q).sizePtrs > Gap(MakePlan(t, q).start, q.align)
    ensures PoolCreate(t, q).created.NewPool? && !PoolInv(PoolCreate(t, q).created.pool)
  {
    var plan := MakePlan(t, q);
    var s, addrs := SuccessSpec(t, q);
    SourceSpec(t, q);
    hide MakePlan, AfterPtrs, Source, SegInv, TableInv, PoolCreate, Gap;
    var p := PoolCreate(t, q).created.pool;
    if PoolInv(p) {
      var d := Stride(q.size, q.align);
      assert Blk(p, 0) in p.ptrs;
      var k :| 0 <= k < |addrs| && addrs[k] == Blk(p, 0);
      MulLe(0, k, d);
      assert false;
    }
  }

  /** A created pool has a sound block table exactly when 4 * blk_nbr does not wrap and the
      blocks do not come from the heap as a "dedicated" segment -- or the pointer table hides
      in the alignment gap there. */
  lemma CreatedPoolSoundIff(t: Table, q: Request)
    requires TableInv(t) && PoolCreate(t, q).err == None_
    ensures MakePlan(t, q).Go? && 0 < q.align && PoolCreate(t, q).created.NewPool?
    ensures var plan := MakePlan(t, q);
            PoolInv(PoolCreate(t, q).created.pool)
            <==> q.nbr * PTR < U32 && (Aliased(t, q, plan) ==> plan.sizePtrs <= Gap(plan.start, q.align))
  {
    var s, addrs := SuccessSpec(t, q);
    SlotsSpec(q);
    hide TableInv, MakePlan, PoolCreate, Aliased;
    if q.nbr * PTR < U32 {
      if !Aliased(t, q, MakePlan(t, q)) {
        CreatedPoolSound(t, q);
      } else if MakePlan(t, q).sizePtrs <= Gap(MakePlan(t, q).start, q.align) {
        AliasedPoolSound(t, q);
      } else {
        AliasedPoolUnsound(t, q);
      }
    }
  }

  /** Even where it is not sound, a complete table lists different blocks, all of them free. */
  lemma CreatedTableOk(t: Table, q: Request)
    requires TableInv(t) && PoolCreate(t, q).err == None_ && q.nbr * PTR < U32
    ensures PoolCreate(t, q).created.NewPool?
    ensures var p := PoolCreate(t, q).created.pool;
            TableOk(p) && p.ix == p.nbr == q.nbr && p.size == q.size && p.align == q.align
  {
    hide MakePlan, AfterPtrs, Source, SegInv, PoolCreate, Gap, Wrap, CalcTotSize, AllocRun;
    var s, addrs := SuccessSpec(t, q);
    SlotsSpec(q);
    RunIsDistinct(s, addrs, q);
    WrapSmall(Stride(q.size, q.align));
  }

  /** The addresses of a run of allocations ascend, and their distance is a word. */
  lemma RunIsDistinct(s: Seg, addrs: seq<u32>, q: Request)
    requires SegInv(s) && 0 < q.nbr && 0 < q.size && 0 < q.align && Room(s, Used(s.avail, q.nbr, q.size, q.align))
    requires |addrs| == q.nbr && forall i :: 0 <= i < q.nbr ==> addrs[i] == BlockAt(s.avail, i, q.size, q.align)
    ensures Distinct(addrs) && 0 < Stride(q.size, q.align) < U32
  {
    hide BlockAt, Gap;
    assert 0 <= Gap(q.size, q.align);
    forall i, j | 0 <= i < j < |addrs| ensures addrs[i] != addrs[j] {
      BlocksAscend(s.avail, i, j, q.size, q.align);
    }
    MulLe(0, q.nbr - 1, Stride(q.size, q.align));
    StrideFits(s.avail, q.size, q.align);
  }

  // ---- Everything handed out is disjoint ---------------------------------------------------

  ghost predicate Logged(t: Table, b: Block) {
    exists i :: 0 <= i < |t.segs| && b in t.segs[i].blocks
  }

  predicate Apart(a: Block, b: Block) { a.End() <= b.addr || b.End() <= a.addr }

  predicate PairwiseApart(gs: seq<Block>) {
    forall i, j :: 0 <= i < j < |gs| ==> Apart(gs[i], gs[j])
  }

  predicate ApartFrom(gs: seq<Block>, b: Block) {
    forall k :: 0 <= k < |gs| ==> Apart(gs[k], b)
  }

  /** From t to t': nothing logged is forgotten, the blocks gs are logged, and they are
      apart from each other and from everything logged before. */
  ghost predicate Granted(t: Table, t': Table, gs: seq<Block>) {
    TableInv(t') && PairwiseApart(gs) &&
    (forall b :: Logged(t, b) ==> Logged(t', b) && ApartFrom(gs, b)) &&
    (forall g :: g in gs ==> Logged(t', g))
  }

  lemma BlockInItsSegment(s: Seg, b: Block)
    requires SegInv(s) && b in s.blocks
    ensures BlockIn(b, s.base, End(s))
  {
  }

  /** A logged block is aligned and inside a segment. */
  lemma LoggedInSegment(t: Table, b: Block)
    requires TableInv(t) && Logged(t, b)
    ensures exists i :: 0 <= i < |t.segs| && BlockIn(b, t.segs[i].base, End(t.segs[i]))
  {
    var i :| 0 <= i < |t.segs| && b in t.segs[i].blocks;
    BlockInItsSegment(t.segs[i], b);
  }

  lemma GrantedCompose(t0: Table, t1: Table, t2: Table, gs1: seq<Block>, gs2: seq<Block>)
    requires Granted(t0, t1, gs1) && Granted(t1, t2, gs2)
    ensures Granted(t0, t2, gs1 + gs2)
  {
    var gs := gs1 + gs2;
    forall i, j | 0 <= i < j < |gs| ensures Apart(gs[i], gs[j]) {
      if i < |gs1| <= j {
        assert gs1[i] in gs1;
        assert ApartFrom(gs2, gs1[i]);
        assert Apart(gs2[j - |gs1|], gs1[i]);
      }
    }
    forall b | Logged(t0, b) ensures Logged(t2, b) && ApartFrom(gs, b) {
      assert Logged(t1, b) && ApartFrom(gs1, b) && ApartFrom(gs2, b);
    }
  }

  /** New log entries of one segment are apart from its old ones and from each other. */
  lemma AppendedApart(s: Seg, earlier: seq<Block>, gs: seq<Block>)
    requires SegInv(s) && s.blocks == earlier + gs
    ensures PairwiseApart(gs)
    ensures forall b :: b in earlier ==> ApartFrom(gs, b)
  {
    forall x, y | 0 <= x < y < |gs| ensures Apart(gs[x], gs[y]) {
      assert s.blocks[|earlier| + x] == gs[x] && s.blocks[|earlier| + y] == gs[y];
    }
    forall b | b in earlier ensures ApartFrom(gs, b) {
      var m :| 0 <= m < |earlier| && earlier[m] == b;
      assert s.blocks[m] == b;
      forall k | 0 <= k < |gs| ensures Apart(gs[k], b) {
        assert s.blocks[|earlier| + k] == gs[k];
      }
    }
  }

  /** Blocks of segments one after the other are apart. */
  lemma ApartAcross(s: Seg, r: Seg, gs: seq<Block>, b: Block)
    requires SegInv(s) && SegInv(r) && (End(s) <= r.base || End(r) <= s.base)
    requires (forall g :: g in gs ==> g in s.blocks) && b in r.blocks
    ensures ApartFrom(gs, b)
  {
    BlockInItsSegment(r, b);
    forall k | 0 <= k < |gs| ensures Apart(gs[k], b) {
      assert gs[k] in gs;
      BlockInItsSegment(s, gs[k]);
    }
  }

  /** Extending the log of one listed segment grants exactly the added blocks. */
  lemma GrantListed(t: Table, i: nat, s: Seg, gs: seq<Block>)
    requires TableInv(t) && i < |t.segs|
    requires SegInv(s) && s.base == t.segs[i].base && s.tot == t.segs[i].tot && s.blocks == t.segs[i].blocks + gs
    ensures Granted(t, Place(t, Listed(i), s), gs)
  {
    var t' := Place(t, Listed(i), s);
    AppendedApart(s, t.segs[i].blocks, gs);
    forall b | Logged(t, b) ensures Logged(t', b) && ApartFrom(gs, b) {
      var j :| 0 <= j < |t.segs| && b in t.segs[j].blocks;
      assert b in t'.segs[j].blocks;
      if j != i {
        ApartAcross(s, t.segs[j], gs, b);
      }
    }
    forall g | g in gs ensures Logged(t', g) {
      assert g in t'.segs[i].blocks;
    }
  }

  lemma ListedKeepsInv(t: Table, i: nat, s: Seg)
    requires TableInv(t) && i < |t.segs| && SegInv(s) && s.base == t.segs[i].base && s.tot == t.segs[i].tot
    ensures TableInv(t.(segs := t.segs[i := s]))
  {
    hide SegInv;
  }

  lemma FreshKeepsInv(t: Table, i: nat, s: Seg)
    requires TableInv(t) && i <= |t.segs| && SegInv(s) && t.segs != []
    requires forall j :: 0 <= j < i ==> End(t.segs[j]) <= s.base
    requires forall j :: i <= j < |t.segs| ==> End(s) <= t.segs[j].base
    ensures TableInv(Place(t, Fresh(i), s))
    ensures forall j :: 0 <= j < |t.segs| ==> Place(t, Fresh(i), s).segs[if j < i then j else j + 1] == t.segs[j]
    ensures Place(t, Fresh(i), s).segs[i] == s
  {
    hide SegInv;
  }

  /** Listing a new segment between its neighbours grants its blocks. */
  lemma GrantFresh(t: Table, i: nat, s: Seg)
    requires TableInv(t) && i <= |t.segs| && SegInv(s) && t.segs != []
    requires forall j :: 0 <= j < i ==> End(t.segs[j]) <= s.base
    requires forall j :: i <= j < |t.segs| ==> End(s) <= t.segs[j].base
    ensures Granted(t, Place(t, Fresh(i), s), s.blocks)
  {
    var t' := Place(t, Fresh(i), s);
    FreshKeepsInv(t, i, s);
    AppendedApart(s, [], s.blocks);
    forall b | Logged(t, b) ensures Logged(t', b) && ApartFrom(s.blocks, b) {
      var j :| 0 <= j < |t.segs| && b in t.segs[j].blocks;
      assert b in t'.segs[if j < i then j else j + 1].blocks;
      ApartAcross(s, t.segs[j], s.blocks, b);
    }
    forall g | g in s.blocks ensures Logged(t', g) {
      assert g in t'.segs[i].blocks;
    }
  }

  // ---- Runs ------------------------------------------------------------------------

  datatype Op = HeapOp(size: u32, align: u32) | CreateOp(q: Request)

  function Step(t: Table, op: Op): Table
    requires t.heap < |t.segs|
  {
    match op
    case HeapOp(size, align) => t.(segs := t.segs[t.heap := HeapAlloc(t.segs[t.heap], size, align).seg])
    case CreateOp(q) => PoolCreate(t, q).tbl
  }

  /** What one call hands to its caller: a heap block, or a pool's pointer table and blocks. */
  function Grants(t: Table, op: Op): seq<Block>
    requires t.heap < |t.segs|
  {
    match op
    case HeapOp(size, align) =>
      var r := HeapAlloc(t.segs[t.heap], size, align);
      if r.err == None_ then [Block(r.addr, size, align)] else []
    case CreateOp(q) =>
      var r := PoolCreate(t, q);
      if r.created.NewPool? then
        [Block(r.created.ptrTable, Wrap(q.nbr * PTR), PTR)] + RunLog(r.created.pool.ptrs, q.size, q.align)
      else []
  }

  lemma FewerGrants(t: Table, t': Table, gs: seq<Block>)
    requires Granted(t, t', gs)
    ensures Granted(t, t', [])
  {
    forall b | Logged(t, b) ensures Logged(t', b) && ApartFrom([], b) {}
  }

  lemma NothingGranted(t: Table)
    requires TableInv(t)
    ensures Granted(t, t, [])
  {
  }

  lemma HeapStepGrants(t: Table, size: u32, align: u32)
    requires TableInv(t) && t.segs != []
    ensures Granted(t, Step(t, HeapOp(size, align)), Grants(t, HeapOp(size, align)))
  {
    var heap := t.segs[t.heap];
    var r := HeapAlloc(heap, size, align);
    if r.err == None_ {
      HeapAllocSpec(heap, size, align);
      SegAllocSpec(heap, size, align);
      GrantListed(t, t.heap, r.seg, [Block(r.addr, size, align)]);
    } else {
      assert t.segs[t.heap := heap] == t.segs;
      NothingGranted(t);
    }
  }

  /** The pointer table, then the pool blocks. */
  lemma GrantTableAndBlocks(t: Table, t1: Table, table: Block, target: Target, s: Seg, s': Seg, log: seq<Block>)
    requires t1.segs != [] && Granted(t, t1, [table]) && Placeable(t1, target) && SegInv(s')
    requires s'.base == s.base && s'.tot == s.tot && s'.blocks == s.blocks + log
    requires target.Listed? ==> s == t1.segs[target.i]
    requires target.Fresh? ==> s.blocks == [] && (forall j :: 0 <= j < target.i ==> End(t1.segs[j]) <= s.base)
                               && (forall j :: target.i <= j < |t1.segs| ==> End(s) <= t1.segs[j].base)
    ensures Granted(t, Place(t1, target, s'), [table] + log)
  {
    hide SegInv;
    if target.Fresh? {
      assert s'.blocks == log;
      GrantFresh(t1, target.i, s');
    } else {
      GrantListed(t1, target.i, s', log);
    }
    GrantedCompose(t, t1, Place(t1, target, s'), [table], log);
  }

  /** The steps of a create call whose checks passed and that got its pointer table. */
  lemma CommitGrants(t: Table, q: Request)
    requires TableInv(t) && MakePlan(t, q).Go? && AfterPtrs(t, q).1 != 0
    ensures 0 < q.align
    ensures var plan := MakePlan(t, q); var (t1, ptrTable) := AfterPtrs(t, q);
            var (s', addrs) := AllocRun(Source(t, q, plan), q.nbr, q.size, q.align);
            var table := Block(ptrTable, Wrap(q.nbr * PTR), PTR);
            Granted(t, t1, [table]) && Granted(t, Place(t1, plan.target, s'), [table] + RunLog(addrs, q.size, q.align))
  {
    hide SegInv, MakePlan, SegAlloc, AllocRun, Room, Granted, Stumbles, CalcTotSize, Used, BlockAt, Wrap, Gap;
    var plan := MakePlan(t, q);
    var (t1, ptrTable) := AfterPtrs(t, q);
    var table := Block(ptrTable, Wrap(q.nbr * PTR), PTR);
    PlanSpec(t, q);
    AfterPtrsSpec(t, q);
    CommitSpec(t, q);
    GrantListed(t, t.heap, t1.segs[t.heap], [table]);
    var s := Source(t, q, plan);
    var (s', addrs) := AllocRun(s, q.nbr, q.size, q.align);
    GrantTableAndBlocks(t, t1, table, plan.target, s, s', RunLog(addrs, q.size, q.align));
  }

  /** Whatever a create call ends with, the table keeps its invariant. */
  lemma CreateKeepsInv(t: Table, q: Request)
    requires TableInv(t) && t.segs != []
    ensures TableInv(PoolCreate(t, q).tbl) && PoolCreate(t, q).tbl.segs != []
  {
    if MakePlan(t, q).Go? {
      CommitSpec(t, q);
      hide MakePlan, AllocRun, SegAlloc, PoolCreate;
      if AfterPtrs(t, q).1 != 0 {
        CommitGrants(t, q);
      }
    }
  }

  /** A create call that stays inside its pointer table hands out only what it logs. */
  lemma CreateStepGrants(t: Table, q: Request)
    requires TableInv(t) && t.segs != [] && PoolCreate(t, q).stray == 0
    ensures Granted(t, PoolCreate(t, q).tbl, Grants(t, CreateOp(q)))
  {
    assert t.heap < |t.segs|;
    if MakePlan(t, q).Reject? {
      NothingGranted(t);
    } else {
      hide Granted, TableInv, MakePlan, AllocRun, AfterPtrs, Commit, PoolCreate;
      CommitSpec(t, q);
      if AfterPtrs(t, q).1 == 0 {
        NothingGranted(t);
      } else {
        CommitGrants(t, q);
        StumbleGrantsNothing(t, q);
      }
    }
  }

  lemma StumbleGrantsNothing(t: Table, q: Request)
    requires TableInv(t) && MakePlan(t, q).Go? && AfterPtrs(t, q).1 != 0
    ensures PoolCreate(t, q).err != None_ ==> Granted(t, PoolCreate(t, q).tbl, [])
  {
    hide Granted, MakePlan, AllocRun, SegAlloc, PoolCreate, Stumbles, Wrap, RunLog, Place, InTable, Stray, AfterRun, SegInv, CalcTotSize;
    CommitSpec(t, q);
    CommitGrants(t, q);
    var (t1, ptrTable) := AfterPtrs(t, q);
    var (s', addrs) := AllocRun(Source(t, q, MakePlan(t, q)), q.nbr, q.size, q.align);
    var table := Block(ptrTable, Wrap(q.nbr * PTR), PTR);
    FewerGrants(t, t1, [table]);
    FewerGrants(t, Place(t1, MakePlan(t, q).target, s'), [table] + RunLog(addrs, q.size, q.align));
  }

  /** The table after a run, and everything its calls handed out. */
  ghost function Exec(t: Table, ops: seq<Op>): (r: (Table, seq<Block>))
    requires TableInv(t) && t.segs != []
    ensures TableInv(r.0) && r.0.segs != []
  {
    if ops == [] then (t, []) else
      var (t1, gs) := Exec(t, ops[..|ops| - 1]);
      var op := ops[|ops| - 1];
      StepKeepsInv(t1, op);
      (Step(t1, op), gs + Grants(t1, op))
  }

  /** No pointer is stored beyond the table that was taken for it. */
  predicate StaysInTable(t: Table, op: Op)
    requires t.heap < |t.segs|
  {
    op.CreateOp? ==> PoolCreate(t, op.q).stray == 0
  }

  /** No call of the run overruns its pointer table; memory is no longer known after that. */
  ghost predicate RunStaysInTables(t: Table, ops: seq<Op>)
    requires TableInv(t) && t.segs != []
  {
    ops == [] ||
    (RunStaysInTables(t, ops[..|ops| - 1]) && StaysInTable(Exec(t, ops[..|ops| - 1]).0, ops[|ops| - 1]))
  }

  /** What a caller can check: 4 * blk_nbr is a word in every create call. */
  predicate SmallTables(ops: seq<Op>) {
    forall op :: op in ops && op.CreateOp? ==> op.q.nbr * PTR < U32
  }

  lemma {:induction false} SmallTablesSuffice(t: Table, ops: seq<Op>)
    requires TableInv(t) && t.segs != [] && SmallTables(ops)
    ensures RunStaysInTables(t, ops)
  {
    if ops != [] {
      var n := |ops| - 1;
      SmallTablesSuffice(t, ops[..n]);
      if ops[n].CreateOp? {
        assert ops[n] in ops;
        NoOverrun(Exec(t, ops[..n]).0, ops[n].q);
      }
    }
  }

  lemma StepGrants(t: Table, op: Op)
    requires TableInv(t) && t.segs != [] && StaysInTable(t, op)
    ensures Granted(t, Step(t, op), Grants(t, op))
  {
    match op
    case HeapOp(size, align) => HeapStepGrants(t, size, align);
    case CreateOp(q) => CreateStepGrants(t, q);
  }

  lemma StepKeepsInv(t: Table, op: Op)
    requires TableInv(t) && t.segs != []
    ensures TableInv(Step(t, op)) && Step(t, op).segs != []
  {
    match op
    case HeapOp(size, align) => HeapStepGrants(t, size, align);
    case CreateOp(q) => CreateKeepsInv(t, q);
  }

  /** Over every run of Mem_HeapAlloc and Mem_PoolCreate, failures included, in which no call
      overruns its pointer table: the table keeps its invariant, and all heap blocks, pointer
      tables and pool blocks ever handed out are pairwise disjoint, aligned, and inside their
      segment. */
  lemma {:induction false} RunGrants(t: Table, ops: seq<Op>)
    requires TableInv(t) && t.segs != [] && RunStaysInTables(t, ops)
    ensures Granted(t, Exec(t, ops).0, Exec(t, ops).1)
  {
    if ops == [] {
      NothingGranted(t);
    } else {
      var n := |ops| - 1;
      var (t1, gs) := Exec(t, ops[..n]);
      RunGrants(t, ops[..n]);
      StepGrants(t1, ops[n]);
      GrantedCompose(t, t1, Step(t1, ops[n]), gs, Grants(t1, ops[n]));
    }
  }

  lemma EverythingHandedOutIsDisjoint(base: u32, size: u32, ops: seq<Op>)
    requires 0 < base && 0 < size && base + size <= U32 && SmallTables(ops)
    ensures TableInv(InitTable(base, size))
    ensures var (t, gs) := Exec(InitTable(base, size), ops);
            TableInv(t) && PairwiseApart(gs) &&
            forall g :: g in gs ==> exists i :: 0 <= i < |t.segs| && BlockIn(g, t.segs[i].base, End(t.segs[i]))
  {
    SmallTablesSuffice(InitTable(base, size), ops);
    RunGrants(InitTable(base, size), ops);
    var (t, gs) := Exec(InitTable(base, size), ops);
    forall g | g in gs ensures exists i :: 0 <= i < |t.segs| && BlockIn(g, t.segs[i].base, End(t.segs[i])) {
      LoggedInSegment(t, g);
    }
  }
}
