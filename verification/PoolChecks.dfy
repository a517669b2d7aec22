/** What a caller can tell before the call: the checks of Mem_PoolCreate, each of its four size
    errors, the calls that lose memory and the calls that store pointers beyond the pointer
    table, all as conditions on the table and the request. */
module PoolChecks {
  import opened Arith
  import opened Segment
  import opened PoolTable
  import opened PoolLaws
  import opened PoolFits

  /** The size of the blocks as the checks see it: the true one if it is a word, the one with a
      wrapped product if the wrap goes unseen, and otherwise too large. */
  function Predicted(addr: u32, q: Request): int
    requires 0 < q.align
  {
    if ProductWrapsUnseen(addr, q.nbr, q.size, q.align) then
      Gap(addr, q.align) + Wrap(Stride(q.size, q.align) * (q.nbr - 1)) + q.size
    else Min(TotSize(addr, q.nbr, q.size, q.align), U32)
  }

  lemma PredictedSize(addr: u32, q: Request)
    requires 0 < q.nbr && 0 < q.size && 0 < q.align
    ensures 0 < Predicted(addr, q) <= U32
    ensures CalcTotSize(addr, q.nbr, q.size, q.align) == if Predicted(addr, q) < U32 then Predicted(addr, q) else 0
  {
    hide CalcTotSize, Gap, TotSize, Stride, Wrap;
    CalcTotSizeValue(addr, q.nbr, q.size, q.align);
    PositiveSize(addr, q);
  }

  /** Where the blocks of a pool in the heap are predicted to start. */
  function StartInHeap(heap: Seg, q: Request): u32 { Wrap(heap.avail + PtrNeed(heap, q)) }

  /** What the checks take a pool in the heap to need. */
  function HeapNeed(heap: Seg, q: Request): int
    requires 0 < q.align
  {
    PtrNeed(heap, q) + Predicted(StartInHeap(heap, q), q)
  }

  /** The code's checks for a pool in the heap, in terms of these sizes. */
  lemma HeapChecks(t: Table, q: Request)
    requires TableInv(t) && ArgsOk(t, q)
    ensures var heap := t.segs[t.heap]; var need := HeapNeed(heap, q); var plan := PlanInHeap(t, q);
            if !TableChecked(heap, q) || U32 <= need then plan == Reject(HeapOvf, 0)
            else if heap.rem < need then plan.Reject? && plan.err == HeapEmpty && plan.reqd == need - heap.rem
            else plan.Go?
  {
    hide CalcTotSize, TableChecked, Predicted, Gap, Wrap, SegInv, Ascending;
    var heap := t.segs[t.heap];
    TableCheckIff(heap, q);
    PredictedSize(StartInHeap(heap, q), q);
    if TableChecked(heap, q) {
      PtrTableSize(heap.avail, q.nbr);
      WrapSum(CalcTotSize(heap.avail, q.nbr, PTR, PTR), CalcTotSize(StartInHeap(heap, q), q.nbr, q.size, q.align));
    }
  }

  /** The code's checks for a pool in dedicated memory. */
  lemma SegChecks(t: Table, q: Request, target: Target)
    requires TableInv(t) && ArgsOk(t, q) && Placeable(t, target)
    ensures var heap := t.segs[t.heap]; var s := TargetSeg(t, target, q);
            var table, blocks := PtrNeed(heap, q), Predicted(s.avail, q); var plan := PlanInSeg(t, q, target);
            if !TableChecked(heap, q) then plan == Reject(HeapOvf, 0)
            else if heap.rem < table then plan.Reject? && plan.err == HeapEmpty && plan.reqd == table - heap.rem
            else if blocks == U32 then plan == Reject(SegOvf, 0)
            else if s.rem < blocks then plan.Reject? && plan.err == SegEmpty && plan.reqd == blocks - s.rem
            else plan.Go?
  {
    hide CalcTotSize, TableChecked, Predicted, Gap, Wrap, SegInv, Ascending;
    var heap := t.segs[t.heap];
    TableCheckIff(heap, q);
    PredictedSize(TargetSeg(t, target, q).avail, q);
    if TableChecked(heap, q) {
      PtrTableSize(heap.avail, q.nbr);
    }
  }

  /** The sizes that the checks compare are in order. */
  ghost predicate SizesOk(t: Table, q: Request)
    requires t.heap < |t.segs| && 0 < q.align
  {
    var heap := t.segs[t.heap];
    TableChecked(heap, q) &&
    if q.base == 0 then HeapNeed(heap, q) <= heap.rem
    else PtrNeed(heap, q) <= heap.rem && forall s :: IsTarget(t, q, s) ==> Predicted(s.avail, q) <= s.rem
  }

  ghost predicate ChecksPass(t: Table, q: Request)
    requires t.segs == [] || t.heap < |t.segs|
  {
    ArgsOk(t, q) && RangeOk(t, q) && SizesOk(t, q)
  }

  lemma SomeTarget(t: Table, q: Request) returns (s: Seg)
    ensures IsTarget(t, q, s)
  {
    if i :| IsListed(t, q, i) {
      s := t.segs[i];
    } else {
      s := FreshSeg(q);
    }
  }

  lemma PassedArgs(t: Table, q: Request)
    requires TableInv(t) && MakePlan(t, q).Go?
    ensures ArgsOk(t, q) && (q.base == 0 ==> MakePlan(t, q) == PlanInHeap(t, q))
  {
    hide PlanInHeap, PlanInSeg, SearchFrom;
  }

  /** All checks pass exactly when arguments, range and sizes are in order. */
  lemma ChecksPassIff(t: Table, q: Request)
    requires TableInv(t)
    ensures MakePlan(t, q).Go? <==> ChecksPass(t, q)
  {
    hide MakePlan, RangeOk, TableChecked, PtrNeed, HeapNeed, Predicted, PlanInHeap, PlanInSeg, SegInv, Ascending, IsTarget;
    if MakePlan(t, q).Go? {
      PassedArgs(t, q);
      CheckedMeans(t, q);
    }
    if ArgsOk(t, q) && RangeOk(t, q) {
      if q.base == 0 {
        HeapPlan(t, q);
        HeapChecks(t, q);
      } else {
        DedicatedChecks(t, q);
      }
    }
  }

  lemma HeapPlan(t: Table, q: Request)
    requires TableInv(t) && ArgsOk(t, q) && q.base == 0
    ensures MakePlan(t, q) == PlanInHeap(t, q)
  {
    hide PlanInHeap, PlanInSeg, SearchFrom;
  }

  lemma DedicatedChecks(t: Table, q: Request)
    requires TableInv(t) && ArgsOk(t, q) && RangeOk(t, q) && q.base != 0
    ensures MakePlan(t, q).Go? <==> SizesOk(t, q)
  {
    hide MakePlan, RangeOk, TableChecked, PtrNeed, HeapNeed, Predicted, PlanInHeap, PlanInSeg, SegInv, Ascending, IsTarget;
    forall s | IsTarget(t, q, s)
      ensures var heap := t.segs[t.heap];
              MakePlan(t, q).Go? <==> TableChecked(heap, q) && PtrNeed(heap, q) <= heap.rem && Predicted(s.avail, q) <= s.rem
    {
      var target := DedicatedPlan(t, q, s);
      SegChecks(t, q, target);
    }
    var s := SomeTarget(t, q);
  }

  // ---- The four size errors --------------------------------------------------------------------

  /** For a pool in the heap HEAP_OVF says that the sizes, as far as the checks can see, add up to
      more than a word, HEAP_EMPTY that the heap has less, with the difference, and SEG_EMPTY
      that the blocks do not fit after all.  SEG_OVF is not reported. */
  lemma HeapErrorsTellWhich(t: Table, q: Request)
    requires TableInv(t) && ArgsOk(t, q) && q.base == 0
    ensures var r := PoolCreate(t, q); var heap := t.segs[t.heap]; var need := HeapNeed(heap, q);
            (r.err == HeapOvf <==> !TableChecked(heap, q) || U32 <= need) &&
            (r.err == HeapEmpty <==> TableChecked(heap, q) && heap.rem < need < U32) &&
            (r.err == HeapEmpty ==> r.reqd == need - heap.rem) &&
            (r.err == SegEmpty <==> TableChecked(heap, q) && need <= heap.rem && !RoomFor(t, q, q.nbr)) &&
            r.err != SegOvf
  {
    hide MakePlan, PoolCreate, PlanInHeap, TableChecked, HeapNeed, PtrNeed, SegInv, Ascending, RoomFor;
    HeapPlan(t, q);
    HeapChecks(t, q);
    if MakePlan(t, q).Go? {
      HeapTaken(t, q);
      Committed(t, q);
    } else {
      Rejected(t, q);
    }
  }

  lemma Rejected(t: Table, q: Request)
    requires TableInv(t) && MakePlan(t, q).Reject?
    ensures PoolCreate(t, q) == Outcome(t, MakePlan(t, q).err, MakePlan(t, q).reqd, NoPool, 0)
  {
    hide MakePlan;
  }

  /** What a passed plan says about the pointer table. */
  lemma TableNeed(t: Table, q: Request)
    requires TableInv(t) && MakePlan(t, q).Go?
    ensures t.heap < |t.segs| && 0 < q.align
    ensures var heap := t.segs[t.heap];
            MakePlan(t, q).sizePtrs == PtrNeed(heap, q) <= heap.rem && TableChecked(heap, q) &&
            (AfterPtrs(t, q).1 != 0 <==> heap.avail + PtrNeed(heap, q) < U32)
  {
    hide MakePlan, AfterPtrs, CalcTotSize, Gap, Wrap, TableChecked, Ascending;
    PlanSpec(t, q);
    TableCheckIff(t.segs[t.heap], q);
    PtrTableSize(t.segs[t.heap].avail, q.nbr);
    AfterPtrsSpec(t, q);
  }

  /** The blocks of a pool in the heap come behind its pointer table, which is always taken. */
  lemma HeapTaken(t: Table, q: Request)
    requires TableInv(t) && MakePlan(t, q).Go? && q.base == 0
    ensures t.heap < |t.segs| && t.segs[t.heap].avail + PtrNeed(t.segs[t.heap], q) < U32
  {
    hide MakePlan, AfterPtrs, CalcTotSize, TableChecked, Ascending, PtrNeed;
    PlanSpec(t, q);
    TableNeed(t, q);
  }

  /** How a call ends whose checks pass. */
  lemma Committed(t: Table, q: Request)
    requires TableInv(t) && MakePlan(t, q).Go?
    ensures t.heap < |t.segs| && 0 < q.align
    ensures var heap := t.segs[t.heap];
            PoolCreate(t, q).err == if U32 <= heap.avail + PtrNeed(heap, q) then HeapEmpty
                                    else if RoomFor(t, q, q.nbr) then None_ else SegEmpty
    ensures var heap := t.segs[t.heap];
            Stumbles(t, q) <==> heap.avail + PtrNeed(heap, q) < U32 && !RoomFor(t, q, q.nbr)
  {
    hide MakePlan, PoolCreate, AfterPtrs, SegInv, Ascending, RoomFor, PtrNeed, TableChecked, AllocRun, Source, RangeOk, Aliased, TotSize, ProductWrapsUnseen;
    TableNeed(t, q);
    CommitSpec(t, q);
    if AfterPtrs(t, q).1 != 0 {
      FitsIff(t, q);
    }
  }

  /** The same for dedicated memory, where s is the segment for the blocks. */
  lemma DedicatedErrorsTellWhich(t: Table, q: Request, s: Seg)
    requires TableInv(t) && ArgsOk(t, q) && q.base != 0 && RangeOk(t, q) && IsTarget(t, q, s)
    ensures var r := PoolCreate(t, q); var heap := t.segs[t.heap];
            var table, blocks := PtrNeed(heap, q), Predicted(s.avail, q);
            (r.err == HeapOvf <==> !TableChecked(heap, q)) &&
            (r.err == HeapEmpty
             <==> TableChecked(heap, q) && (heap.rem < table || (blocks <= s.rem && heap.avail + table == U32))) &&
            (r.err == HeapEmpty && heap.rem < table ==> r.reqd == table - heap.rem) &&
            (r.err == SegOvf <==> TableChecked(heap, q) && table <= heap.rem && blocks == U32) &&
            (r.err == SegEmpty
             <==> TableChecked(heap, q) && table <= heap.rem &&
                  ((s.rem < blocks < U32) || (blocks <= s.rem && heap.avail + table < U32 && !RoomFor(t, q, q.nbr)))) &&
            (r.err == SegEmpty && s.rem < blocks ==> r.reqd == blocks - s.rem)
  {
    hide MakePlan, PoolCreate, PlanInSeg, TableChecked, Predicted, PtrNeed, Ascending, RoomFor, RangeOk, IsTarget;
    var target := DedicatedPlan(t, q, s);
    SegChecks(t, q, target);
    PredictedSize(s.avail, q);
    assert SegInv(t.segs[t.heap]);
    if MakePlan(t, q).Go? {
      Committed(t, q);
    } else {
      Rejected(t, q);
    }
  }

  /** The pointer table does not reach the end of the address space. */
  predicate TableBelowTop(t: Table, q: Request)
    requires t.heap < |t.segs|
  {
    t.segs[t.heap].avail + PtrNeed(t.segs[t.heap], q) < U32
  }

  // ---- What is reported and left behind ----------------------------------------------------------

  /** The size computation, as the code reports it: 0 where it is no word. */
  function PredictedWord(addr: u32, nbr: u32, q: Request): int
    requires 0 < q.align
  {
    var size := Predicted(addr, q.(nbr := nbr));
    if size < U32 then size else 0
  }

  /** No call but those that say HEAP_EMPTY or SEG_EMPTY reports a number of octets.  Once the
      checks have passed, HEAP_EMPTY reports the size of the pointer table, and SEG_EMPTY what
      the blocks not allocated are taken to need: less what remains if that is less, and
      otherwise the whole. */
  lemma ReportedOctets(t: Table, q: Request)
    requires TableInv(t)
    ensures var r := PoolCreate(t, q); r.err != HeapEmpty && r.err != SegEmpty ==> r.reqd == 0
    ensures var r := PoolCreate(t, q);
            ChecksPass(t, q) && r.err == HeapEmpty ==> r.reqd == (4 * q.nbr) % 0x1_0000_0000
    ensures ChecksPass(t, q) ==>
              MakePlan(t, q).Go? && 0 < q.align &&
              var r := PoolCreate(t, q); var (s, addrs) := AllocRun(Source(t, q, MakePlan(t, q)), q.nbr, q.size, q.align);
              r.err == SegEmpty ==>
                |addrs| < q.nbr &&
                var need := PredictedWord(s.avail, q.nbr - |addrs|, q);
                r.reqd == if s.rem < need then need - s.rem else need
  {
    hide MakePlan, PoolCreate, AfterPtrs, AllocRun, Source, RangeOk, SizesOk, Stumbles, TotSize, CalcTotSize, Predicted, Gap, SegInv, Ascending;
    ChecksPassIff(t, q);
    if MakePlan(t, q).Go? {
      PassedReport(t, q);
    } else {
      Rejected(t, q);
      RejectReport(t, q);
    }
  }

  lemma RejectReport(t: Table, q: Request)
    requires TableInv(t) && MakePlan(t, q).Reject?
    ensures MakePlan(t, q).err != HeapEmpty && MakePlan(t, q).err != SegEmpty ==> MakePlan(t, q).reqd == 0
  {
    hide CalcTotSize, SearchFrom, Wrap, SegInv, Ascending;
  }

  lemma PassedReport(t: Table, q: Request)
    requires TableInv(t) && MakePlan(t, q).Go?
    ensures 0 < q.align
    ensures var r := PoolCreate(t, q);
            (r.err == None_ || r.err == HeapEmpty || r.err == SegEmpty) && (r.err == None_ ==> r.reqd == 0) &&
            (r.err == HeapEmpty ==> r.reqd == (4 * q.nbr) % 0x1_0000_0000)
    ensures var r := PoolCreate(t, q); var (s, addrs) := AllocRun(Source(t, q, MakePlan(t, q)), q.nbr, q.size, q.align);
            r.err == SegEmpty ==>
              |addrs| < q.nbr &&
              var need := PredictedWord(s.avail, q.nbr - |addrs|, q);
              r.reqd == if s.rem < need then need - s.rem else need
  {
    hide MakePlan, AfterPtrs, AllocRun, Source, Stumbles, TotSize, CalcTotSize, Predicted, Gap, SegInv, Ascending;
    CommitSpec(t, q);
    ReportedAfterChecks(t, q);
    var (s, addrs) := AllocRun(Source(t, q, MakePlan(t, q)), q.nbr, q.size, q.align);
    if |addrs| < q.nbr {
      PredictedSize(s.avail, q.(nbr := q.nbr - |addrs|));
      WrapSmall(q.nbr - |addrs|);
    }
  }

  /** The segment fields that a failing call leaves in its pool object: zeros, except that for
      dedicated memory in order that is not listed they describe that memory -- all of it
      remaining, unless the call got as far as taking blocks. */
  lemma SegmentFieldsLeft(t: Table, q: Request)
    requires TableInv(t) && PoolCreate(t, q).err != None_
    ensures SegLeft(t, q) ==
            if ArgsOk(t, q) && q.base != 0 && RangeOk(t, q) && (forall i :: !IsListed(t, q, i)) then
              if ChecksPass(t, q) && TableBelowTop(t, q) then AllocRun(FreshSeg(q), q.nbr, q.size, q.align).0
              else Seg(q.base, q.memSize, q.base, q.memSize, [])
            else Seg(0, 0, 0, 0, [])
  {
    hide MakePlan, PoolCreate, AfterPtrs, AllocRun, SizesOk, SearchFrom, SegInv, Ascending, PtrNeed, Wrap, Overlaps;
    ChecksPassIff(t, q);
    if ArgsOk(t, q) && q.base != 0 {
      WrapSum(q.base, q.memSize - 1);
      SearchMeans(t, q);
    }
    if MakePlan(t, q).Go? {
      TableNeed(t, q);
    }
  }

  // ---- The heap as dedicated memory --------------------------------------------------------------

  /** Skipping k octets first costs nothing exactly when they lie in the gap. */
  lemma GapHides(addr: int, k: int, align: int)
    requires align > 0 && 0 <= k
    ensures Gap(addr, align) == k + Gap(addr + k, align) <==> k <= Gap(addr, align)
  {
    if k <= Gap(addr, align) {
      GapAligns(addr, align);
      GapIff(addr + k, align, Gap(addr, align) - k);
    }
  }

  /** With the heap as dedicated memory the heap has to hold both the table and the blocks. */
  lemma AliasedRoom(t: Table, q: Request)
    requires TableInv(t) && q.base != 0 && t.heap < |t.segs| && IsListed(t, q, t.heap) && ArgsOk(t, q) && TableChecked(t.segs[t.heap], q)
    ensures var heap := t.segs[t.heap]; var need := PtrNeed(heap, q);
            var size := TotSize(heap.avail + need, q.nbr, q.size, q.align);
            PoolCreate(t, q).err == None_ <==> need + size <= heap.rem && heap.avail + need + size < U32
  {
    hide PoolCreate, Gap, TotSize, TableChecked, SegInv, Ascending, RangeOk;
    HeapInRange(t, q);
    PositiveSize(t.segs[t.heap].avail + PtrNeed(t.segs[t.heap], q), q);
    SuccessIff(t, q);
  }

  /** What the checks report then: HEAP_EMPTY with the shortfall of the table alone, SEG_EMPTY with
      that of the blocks alone. */
  lemma AliasedReport(t: Table, q: Request, reqd: u32)
    requires TableInv(t) && q.base != 0 && t.heap < |t.segs| && IsListed(t, q, t.heap)
    requires MakePlan(t, q) == Reject(HeapEmpty, reqd) || MakePlan(t, q) == Reject(SegEmpty, reqd)
    ensures var heap := t.segs[t.heap];
            ArgsOk(t, q) && TableChecked(heap, q) &&
            if MakePlan(t, q).err == HeapEmpty then heap.rem + reqd == PtrNeed(heap, q)
            else heap.rem + reqd == Predicted(heap.avail, q) < U32
  {
    hide MakePlan, Gap, TotSize, TableChecked, Predicted, PtrNeed, BlocksOk, Ascending, PlanInSeg, RangeOk;
    RejectArgs(t, q);
    HeapInRange(t, q);
    var target := DedicatedPlan(t, q, t.segs[t.heap]);
    SegChecks(t, q, target);
    PredictedSize(t.segs[t.heap].avail, q);
  }

  /** So with r octets remaining in the heap the call succeeds exactly when r covers both, and the
      number reported is the true shortfall exactly if the table hides in the gap before the
      blocks. */
  lemma ReportedAliasedShortfall(t: Table, q: Request, reqd: u32, r: int)
    requires TableInv(t) && q.base != 0 && t.heap < |t.segs| && IsListed(t, q, t.heap)
    requires MakePlan(t, q) == Reject(HeapEmpty, reqd) || MakePlan(t, q) == Reject(SegEmpty, reqd)
    requires 0 <= r && t.segs[t.heap].base < t.segs[t.heap].avail + r <= U32 && TableInv(WithSegRem(t, q, t.heap, r).0)
    ensures 0 < q.align
    ensures var heap := t.segs[t.heap]; var need := PtrNeed(heap, q); var (t', q') := WithSegRem(t, q, t.heap, r);
            var size := TotSize(heap.avail + need, q.nbr, q.size, q.align);
            (PoolCreate(t', q').err == None_ <==> need + size <= r && heap.avail + need + size < U32) &&
            (heap.rem + reqd == need + size
             <==> MakePlan(t, q).err == SegEmpty && need <= Gap(heap.avail, q.align) && TotSize(heap.avail, q.nbr, q.size, q.align) < U32)
  {
    hide MakePlan, PoolCreate, Gap, TotSize, TableChecked, Predicted, BlocksOk, Ascending, ProductWrapsUnseen, Wrap;
    var heap := t.segs[t.heap];
    var (t', q') := WithSegRem(t, q, t.heap, r);
    AliasedReport(t, q, reqd);
    assert TableChecked(t'.segs[t.heap], q') == TableChecked(heap, q) by { SameCheck(heap, q, t'.segs[t.heap], q'); }
    AliasedRoom(t', q');
    PositiveSize(heap.avail + PtrNeed(heap, q), q);
    if MakePlan(t, q).err == SegEmpty {
      AliasedNeed(heap, q);
    }
  }

  lemma SameCheck(a: Seg, q: Request, b: Seg, q': Request)
    requires a.avail == b.avail && q.nbr == q'.nbr
    ensures TableChecked(b, q') == TableChecked(a, q)
  {
    hide Gap, ProductWrapsUnseen;
  }

  /** A range that is the heap is in order. */
  lemma HeapInRange(t: Table, q: Request)
    requires TableInv(t) && t.heap < |t.segs| && 0 < q.memSize && q.base != 0 && IsListed(t, q, t.heap)
    ensures RangeOk(t, q)
  {
    hide BlocksOk, Ascending;
    assert SegInv(t.segs[t.heap]);
    forall j | 0 <= j < |t.segs| && j != t.heap ensures !Overlaps(t.segs[j], q.base, q.memSize) {
      ListedOnce(t, q, t.heap, j);
    }
  }

  lemma AliasedNeed(heap: Seg, q: Request)
    requires 0 < q.nbr && 0 < q.size && 0 < q.align && Predicted(heap.avail, q) < U32
    ensures var need := PtrNeed(heap, q);
            Predicted(heap.avail, q) == need + TotSize(heap.avail + need, q.nbr, q.size, q.align)
            <==> need <= Gap(heap.avail, q.align) && TotSize(heap.avail, q.nbr, q.size, q.align) < U32
  {
    hide Gap, Stride, Wrap;
    GapHides(heap.avail, PtrNeed(heap, q), q.align);
    GapAhead(heap.avail, PtrNeed(heap, q), q.align);
    CalcTotSizeValue(heap.avail, q.nbr, q.size, q.align);
  }

  // ---- Before the call -------------------------------------------------------------------------

  /** A failing call takes memory exactly when its checks pass, it gets its pointer table, and
      the blocks do not fit where they are to go. */
  lemma TakesMemoryIff(t: Table, q: Request)
    requires TableInv(t)
    ensures PoolCreate(t, q).err != None_ && PoolCreate(t, q).tbl != t
            <==> ChecksPass(t, q) && TableBelowTop(t, q) && !RoomFor(t, q, q.nbr)
  {
    hide MakePlan, PoolCreate, Stumbles, RangeOk, SizesOk, PtrNeed, RoomFor, SegInv, Ascending;
    AllOrNothingIff(t, q);
    ChecksPassIff(t, q);
    if MakePlan(t, q).Go? {
      Committed(t, q);
    } else {
      Rejected(t, q);
    }
  }

  /** Pointers are stored beyond the pointer table exactly when 4 * blk_nbr wraps, the checks
      pass, the call gets its table, and more blocks fit than the table has entries. */
  lemma StoresBeyondTableIff(t: Table, q: Request)
    requires TableInv(t)
    ensures PoolCreate(t, q).stray > 0
            <==> q.nbr * PTR >= U32 && ChecksPass(t, q) && TableBelowTop(t, q) && RoomFor(t, q, Slots(q) + 1)
  {
    hide MakePlan, PoolCreate, AfterPtrs, RangeOk, SizesOk, PtrNeed, TotSize, RoomFor, SegInv, Ascending, Slots, Source;
    OverrunIff(t, q);
    ChecksPassIff(t, q);
    if MakePlan(t, q).Go? {
      TableNeed(t, q);
      if AfterPtrs(t, q).1 != 0 {
        SourceMeans(t, q, Slots(q) + 1);
      }
    }
  }
}
