/** When Mem_PoolCreate succeeds: exactly when its arguments are valid, its memory range does
    not clash with a listed segment, and the pointer table and all blocks fit.  Sizes are taken
    in unbounded arithmetic, except that the pointer table is as large as the code makes it. */
module PoolFits {
  import opened Arith
  import opened Segment
  import opened PoolTable
  import opened PoolLaws

  /** Dedicated memory inside the address space that meets no segment but itself. */
  predicate RangeOk(t: Table, q: Request) {
    q.base == 0 ||
    (q.base + q.memSize <= U32 &&
     forall k :: 0 <= k < |t.segs| && Overlaps(t.segs[k], q.base, q.memSize) ==> Same(t.segs[k], q.base, q.memSize))
  }

  /** The size of the pointer table fits a word, or it wraps without the checks noticing. */
  predicate TableChecked(heap: Seg, q: Request) {
    Gap(heap.avail, PTR) + q.nbr * PTR < U32 || ProductWrapsUnseen(heap.avail, q.nbr, PTR, PTR)
  }

  /** That is what the overflow check of the code decides. */
  lemma TableCheckIff(heap: Seg, q: Request)
    requires 0 < q.nbr
    ensures CalcTotSize(heap.avail, q.nbr, PTR, PTR) != 0 <==> TableChecked(heap, q)
  {
    assert Gap(PTR, PTR) == 0;
    hide CalcTotSize;
    CalcTotSizeValue(heap.avail, q.nbr, PTR, PTR);
  }

  /** What the pointer table takes from the heap: its size is a 32-bit product. */
  function PtrNeed(heap: Seg, q: Request): int { Gap(heap.avail, PTR) + Wrap(q.nbr * PTR) }

  /** So many blocks fit between avail and the end of the rem octets from there on, and the
      next free address stays an address. */
  predicate BlocksFit(avail: int, rem: int, nbr: int, q: Request)
    requires 0 < q.align
  {
    var need := TotSize(avail, nbr, q.size, q.align);
    need <= rem && avail + need < U32
  }

  ghost predicate IsListed(t: Table, q: Request, i: int) { 0 <= i < |t.segs| && Same(t.segs[i], q.base, q.memSize) }

  /** The pointer table fits in the heap and the blocks fit where they are to go. */
  ghost predicate Fits(t: Table, q: Request)
    requires t.heap < |t.segs| && 0 < q.align
  {
    var heap := t.segs[t.heap];
    TableChecked(heap, q) && Room(heap, PtrNeed(heap, q)) && RoomFor(t, q, q.nbr)
  }

  /** So many blocks fit where they are to go: behind the pointer table, in the listed segment,
      or in the new one. */
  ghost predicate RoomFor(t: Table, q: Request, nbr: int)
    requires t.heap < |t.segs| && 0 < q.align
  {
    var heap := t.segs[t.heap];
    var need := PtrNeed(heap, q);
    if q.base == 0 || IsListed(t, q, t.heap) then BlocksFit(heap.avail + need, heap.rem - need, nbr, q)
    else BlocksFitElsewhere(t, q, nbr)
  }

  ghost predicate BlocksFitElsewhere(t: Table, q: Request, nbr: int)
    requires 0 < q.align
  {
    (forall i :: IsListed(t, q, i) ==> BlocksFit(t.segs[i].avail, t.segs[i].rem, nbr, q)) &&
    ((forall i :: !IsListed(t, q, i)) ==> BlocksFit(q.base, q.memSize, nbr, q))
  }

  /** Skipping k octets first never saves any. */
  lemma GapAhead(addr: int, k: int, align: int)
    requires align > 0 && 0 <= k
    ensures Gap(addr, align) <= k + Gap(addr + k, align)
  {
    var g := k + Gap(addr + k, align);
    GapAligns(addr + k, align);
    if g < Gap(addr, align) {
      GapIff(addr, align, g);
      assert false;
    }
  }

  /** A range is listed at most once, and then does not overlap other segments. */
  lemma ListedOnce(t: Table, q: Request, i: int, j: int)
    requires TableInv(t) && 0 < q.memSize && IsListed(t, q, i) && 0 <= j < |t.segs| && j != i
    ensures !Overlaps(t.segs[j], q.base, q.memSize) && !IsListed(t, q, j)
  {
    hide SegInv;
    assert SegInv(t.segs[j]);
    NotEmpty(t.segs[j]);
    assert if i < j then End(t.segs[i]) <= t.segs[j].base else End(t.segs[j]) <= t.segs[i].base;
  }

  lemma NotEmpty(s: Seg)
    requires SegInv(s)
    ensures 0 < s.tot
  {
  }

  /** What the search finds, by meaning. */
  lemma SearchMeans(t: Table, q: Request)
    requires TableInv(t) && 0 < q.memSize && q.base != 0
    ensures match SearchFrom(t.segs, 0, q.base, q.memSize)
            case Overlap => !RangeOk(t, q) || q.base + q.memSize > U32
            case Found(i) => IsListed(t, q, i) && forall j :: IsListed(t, q, j) ==> j == i
            case Insert(_) => forall j :: !IsListed(t, q, j)
    ensures SearchFrom(t.segs, 0, q.base, q.memSize) == Overlap
            <==> exists k :: 0 <= k < |t.segs| && Overlaps(t.segs[k], q.base, q.memSize) && !Same(t.segs[k], q.base, q.memSize)
  {
    SearchSpec(t.segs, 0, q.base, q.memSize);
    hide SearchFrom, TableInv, Overlaps;
    match SearchFrom(t.segs, 0, q.base, q.memSize) {
      case Overlap =>
      case Found(i) =>
        forall j | IsListed(t, q, j) ensures j == i {
          if j != i { ListedOnce(t, q, i, j); }
        }
      case Insert(i) =>
        forall j | 0 <= j < |t.segs| ensures !IsListed(t, q, j) {
          assert if j < i then End(t.segs[j]) <= q.base else q.base + q.memSize <= t.segs[j].base;
        }
    }
  }

  /** The source segment of a plan, by meaning. */
  lemma SourceMeans(t: Table, q: Request, nbr: int)
    requires TableInv(t) && MakePlan(t, q).Go? && AfterPtrs(t, q).1 != 0
    ensures t.heap < |t.segs| && 0 < q.align && 0 < q.nbr && 0 < q.size && RangeOk(t, q)
    ensures var s := Source(t, q, MakePlan(t, q)); var heap := t.segs[t.heap]; var need := PtrNeed(heap, q);
            TableChecked(heap, q) && Room(heap, need) &&
            (RoomFor(t, q, nbr) <==> BlocksFit(s.avail, s.rem, nbr, q))
  {
    hide Wrap, Gap, CalcTotSize, SegInv, BlocksFit, SegAlloc, PlanInHeap, PlanInSeg, SearchFrom, TableChecked;
    PlanSpec(t, q);
    TableCheckIff(t.segs[t.heap], q);
    PtrTableSize(t.segs[t.heap].avail, q.nbr);
    AfterPtrsSpec(t, q);
    if q.base != 0 {
      CheckedRange(t, q);
      SearchMeans(t, q);
    }
  }

  /** A plan for dedicated memory has searched the list for a range that does not wrap. */
  lemma CheckedRange(t: Table, q: Request)
    requires TableInv(t) && MakePlan(t, q).Go? && q.base != 0
    ensures 0 < q.memSize && q.base + q.memSize <= U32
    ensures match SearchFrom(t.segs, 0, q.base, q.memSize)
            case Overlap => false
            case Found(i) => MakePlan(t, q).target == Listed(i)
            case Insert(i) => MakePlan(t, q).target == Fresh(i)
  {
    WrapSum(q.base, q.memSize - 1);
  }

  // ---- The checks let everything through that fits -------------------------------------------

  lemma HeapPlanGoes(t: Table, q: Request)
    requires TableInv(t) && ArgsOk(t, q) && q.base == 0 && Fits(t, q)
    ensures MakePlan(t, q).Go?
  {
    hide Gap, CalcTotSize, TotSize, Wrap, SegInv, Ascending, TableChecked;
    var heap := t.segs[t.heap];
    var need := PtrNeed(heap, q);
    var size := TotSize(heap.avail + need, q.nbr, q.size, q.align);
    TableCheckIff(heap, q);
    PtrTableSize(heap.avail, q.nbr);
    WrapSmall(heap.avail + need);
    CalcTotSizeValue(heap.avail + need, q.nbr, q.size, q.align);
    PositiveSize(heap.avail + need, q);
    WrapSmall(need + size);
    assert PlanInHeap(t, q) == Go(Listed(t.heap), heap.avail + need, size, need, need + size);
  }

  lemma SegPlanGoes(t: Table, q: Request, target: Target)
    requires TableInv(t) && ArgsOk(t, q) && Placeable(t, target) && t.heap < |t.segs|
    requires TableChecked(t.segs[t.heap], q) && PtrNeed(t.segs[t.heap], q) <= t.segs[t.heap].rem
    requires BlocksFit(TargetSeg(t, target, q).avail, TargetSeg(t, target, q).rem, q.nbr, q)
    ensures PlanInSeg(t, q, target).Go?
  {
    hide CalcTotSize, TableChecked, Gap, Wrap;
    TableCheckIff(t.segs[t.heap], q);
    PtrTableSize(t.segs[t.heap].avail, q.nbr);
    CalcTotSizeValue(TargetSeg(t, target, q).avail, q.nbr, q.size, q.align);
    PositiveSize(TargetSeg(t, target, q).avail, q);
  }

  lemma PositiveSize(addr: int, q: Request)
    requires 0 < q.nbr && 0 < q.size && 0 < q.align
    ensures 0 < TotSize(addr, q.nbr, q.size, q.align)
  {
    MulLe(0, q.nbr - 1, Stride(q.size, q.align));
  }

  lemma PlanGoes(t: Table, q: Request)
    requires TableInv(t) && ArgsOk(t, q) && RangeOk(t, q) && Fits(t, q)
    ensures MakePlan(t, q).Go?
  {
    if q.base == 0 {
      HeapPlanGoes(t, q);
    } else {
      WrapSum(q.base, q.memSize - 1);
      SearchMeans(t, q);
      var heap := t.segs[t.heap];
      hide Gap, CalcTotSize, SegInv, PlanInSeg, SearchFrom, TotSize, TableChecked;
      match SearchFrom(t.segs, 0, q.base, q.memSize) {
        case Overlap =>
        case Found(i) =>
          if i == t.heap {
            AheadFits(heap, PtrNeed(heap, q), q);
          }
          SegPlanGoes(t, q, Listed(i));
        case Insert(i) =>
          SegPlanGoes(t, q, Fresh(i));
      }
    }
  }

  /** What fits behind the pointer table also fits without it. */
  lemma AheadFits(heap: Seg, need: int, q: Request)
    requires 0 <= need && 0 < q.align && BlocksFit(heap.avail + need, heap.rem - need, q.nbr, q)
    ensures BlocksFit(heap.avail, heap.rem, q.nbr, q)
  {
    GapAhead(heap.avail, need, q.align);
    hide Gap;
  }

  lemma SuccessPassedChecks(t: Table, q: Request)
    requires TableInv(t) && PoolCreate(t, q).err == None_
    ensures MakePlan(t, q).Go? && AfterPtrs(t, q).1 != 0 && ArgsOk(t, q)
  {
    if MakePlan(t, q).Reject? {
      RejectIsError(t, q);
    }
    CommitSpec(t, q);
  }

  /** Once the pointer table is taken, the blocks fit unless the plan stumbles. */
  lemma FitsIff(t: Table, q: Request)
    requires TableInv(t) && MakePlan(t, q).Go? && AfterPtrs(t, q).1 != 0
    ensures t.heap < |t.segs| && 0 < q.align && RangeOk(t, q)
    ensures Fits(t, q) <==> !Stumbles(t, q)
  {
    hide MakePlan, RoomFor, RangeOk, SegInv, Ascending, Stumbles, AfterPtrs, TableChecked, PtrNeed, TotSize, Source;
    SourceMeans(t, q, q.nbr);
    BlocksFitIff(t, q);
  }

  /** Mem_PoolCreate succeeds exactly when everything fits. */
  lemma SuccessIff(t: Table, q: Request)
    requires TableInv(t)
    ensures PoolCreate(t, q).err == None_ <==> ArgsOk(t, q) && RangeOk(t, q) && Fits(t, q)
  {
    hide PoolCreate, MakePlan, Fits, RangeOk, SegInv, Ascending, Stumbles, AfterPtrs;
    if PoolCreate(t, q).err == None_ {
      SuccessPassedChecks(t, q);
      FitsIff(t, q);
      CommitSpec(t, q);
    } else if ArgsOk(t, q) && RangeOk(t, q) && Fits(t, q) {
      PlanGoes(t, q);
      PtrTableTaken(t, q);
      FitsIff(t, q);
      CommitSpec(t, q);
      assert false;
    }
  }

  lemma PtrTableTaken(t: Table, q: Request)
    requires TableInv(t) && MakePlan(t, q).Go? && t.heap < |t.segs| && 0 < q.align && Fits(t, q)
    ensures AfterPtrs(t, q).1 != 0
  {
    PlanSpec(t, q);
    PtrTableSize(t.segs[t.heap].avail, q.nbr);
    AfterPtrsSpec(t, q);
  }

  /** With 4 * blk_nbr a word, the part of Fits about the table says that its true size fits. */
  lemma SmallTableFitsIff(heap: Seg, q: Request)
    requires SegInv(heap) && 0 < q.nbr && q.nbr * PTR < U32
    ensures TableChecked(heap, q) && Room(heap, PtrNeed(heap, q)) <==> Room(heap, Gap(heap.avail, PTR) + q.nbr * PTR)
  {
    hide Gap;
    WrapSmall(q.nbr * PTR);
  }

  /** With valid arguments the error tells which condition fails: the range leaves the address
      space, it meets a listed segment without being that segment, or something does not fit. */
  lemma ErrorTellsWhy(t: Table, q: Request)
    requires TableInv(t) && ArgsOk(t, q)
    ensures var err := PoolCreate(t, q).err;
            (err == InvalidBlkAddr <==> q.base != 0 && q.base + q.memSize > U32) &&
            (err == InvalidSegOverlap <==> q.base != 0 && q.base + q.memSize <= U32 && !RangeOk(t, q)) &&
            (err == HeapOvf || err == HeapEmpty || err == SegOvf || err == SegEmpty <==> RangeOk(t, q) && !Fits(t, q))
  {
    hide PoolCreate, Fits, SegInv, Ascending;
    SuccessIff(t, q);
    if MakePlan(t, q).Go? {
      CommitSpec(t, q);
      CheckedMeans(t, q);
    } else {
      RejectTellsWhy(t, q);
    }
  }

  lemma CheckedMeans(t: Table, q: Request)
    requires TableInv(t) && MakePlan(t, q).Go?
    ensures RangeOk(t, q)
  {
    if q.base != 0 {
      CheckedRange(t, q);
      SearchMeans(t, q);
    }
  }

  lemma RejectTellsWhy(t: Table, q: Request)
    requires TableInv(t) && ArgsOk(t, q) && MakePlan(t, q).Reject?
    ensures var err := MakePlan(t, q).err;
            PoolCreate(t, q).err == err != None_ &&
            (err == InvalidBlkAddr <==> q.base != 0 && q.base + q.memSize > U32) &&
            (err == InvalidSegOverlap <==> q.base != 0 && q.base + q.memSize <= U32 && !RangeOk(t, q)) &&
            (err == InvalidBlkAddr || err == InvalidSegOverlap || err == HeapOvf || err == HeapEmpty || err == SegOvf || err == SegEmpty)
  {
    hide SegInv, Ascending, Gap, CalcTotSize, SearchFrom, Wrap;
    if q.base != 0 {
      WrapSum(q.base, q.memSize - 1);
      SearchMeans(t, q);
    }
  }

  /** The table with r octets remaining in the heap instead of what remains now. */
  function WithHeapRem(t: Table, r: int): Table
    requires t.heap < |t.segs|
    requires var heap := t.segs[t.heap]; 0 < heap.base <= heap.avail && heap.base < heap.avail + r <= U32 && 0 <= r
  {
    t.(segs := t.segs[t.heap := WithRem(t.segs[t.heap], r)])
  }

  /** The checks for a pool in the heap find it too small by reqd octets. */
  lemma HeapTooSmall(t: Table, q: Request, reqd: u32)
    requires TableInv(t) && q.base == 0 && MakePlan(t, q) == Reject(HeapEmpty, reqd)
    ensures ArgsOk(t, q) && t.heap < |t.segs|
    ensures var heap := t.segs[t.heap]; var need := PtrNeed(heap, q);
            TableChecked(heap, q) &&
            (heap.avail + need + TotSize(heap.avail + need, q.nbr, q.size, q.align) < U32 ==>
               heap.rem + reqd == need + TotSize(heap.avail + need, q.nbr, q.size, q.align))
  {
    hide Gap, CalcTotSize, TotSize, Wrap, SegInv, Ascending, TableChecked;
    var heap := t.segs[t.heap];
    var need := PtrNeed(heap, q);
    var size := TotSize(heap.avail + need, q.nbr, q.size, q.align);
    TableCheckIff(heap, q);
    PtrTableSize(heap.avail, q.nbr);
    PositiveSize(heap.avail + need, q);
    if heap.avail + need + size < U32 {
      AvailNotNegative(heap);
      WrapSmall(heap.avail + need);
      CalcTotSizeValue(heap.avail + need, q.nbr, q.size, q.align);
      WrapSmall(need + size);
    }
  }

  lemma AvailNotNegative(s: Seg)
    ensures 0 <= s.avail
  {
  }

  /** The number of octets reported with HEAP_EMPTY is exact: with r octets remaining in the
      same heap the same call succeeds exactly when r makes up the shortfall -- unless the
      pool could not lie below 2^32 at all. */
  lemma ReportedHeapShortfall(t: Table, q: Request, reqd: u32, r: int)
    requires TableInv(t) && q.base == 0 && MakePlan(t, q) == Reject(HeapEmpty, reqd)
    requires t.heap < |t.segs| && 0 <= r && t.segs[t.heap].base < t.segs[t.heap].avail + r <= U32 && TableInv(WithHeapRem(t, r))
    ensures 0 < q.align
    ensures var heap := t.segs[t.heap]; var start := heap.avail + PtrNeed(heap, q);
            PoolCreate(WithHeapRem(t, r), q).err == None_
            <==> t.segs[t.heap].rem + reqd <= r && start + TotSize(start, q.nbr, q.size, q.align) < U32
  {
    hide MakePlan, PoolCreate, Gap, CalcTotSize, TotSize, Wrap, BlocksOk, Ascending, ProductWrapsUnseen;
    HeapTooSmall(t, q, reqd);
    SuccessIff(WithHeapRem(t, r), q);
    var heap := t.segs[t.heap];
    PositiveSize(heap.avail + PtrNeed(heap, q), q);
  }

  // ---- Dedicated memory ------------------------------------------------------------------------

  /** The segment a pool in dedicated memory would use: the listed one, or a new one. */
  ghost predicate IsTarget(t: Table, q: Request, s: Seg) {
    (exists i :: IsListed(t, q, i) && s == t.segs[i]) || ((forall i :: !IsListed(t, q, i)) && s == FreshSeg(q))
  }

  /** The plan for a range that is in order is made for that segment. */
  lemma DedicatedPlan(t: Table, q: Request, s: Seg) returns (target: Target)
    requires TableInv(t) && ArgsOk(t, q) && q.base != 0 && RangeOk(t, q) && IsTarget(t, q, s)
    ensures Placeable(t, target) && TargetSeg(t, target, q) == s && MakePlan(t, q) == PlanInSeg(t, q, target)
  {
    hide SegInv, Ascending, PlanInSeg, SearchFrom, Overlaps;
    WrapSum(q.base, q.memSize - 1);
    SearchMeans(t, q);
    match SearchFrom(t.segs, 0, q.base, q.memSize) {
      case Overlap =>
      case Found(i) => target := Listed(i);
      case Insert(i) => target := Fresh(i);
    }
  }

  /** The two sizes the checks for dedicated memory compute. */
  lemma DedicatedSizes(t: Table, q: Request, s: Seg)
    requires TableInv(t) && ArgsOk(t, q)
    ensures var heap := t.segs[t.heap]; var size := CalcTotSize(s.avail, q.nbr, q.size, q.align);
            (CalcTotSize(heap.avail, q.nbr, PTR, PTR) == if TableChecked(heap, q) then PtrNeed(heap, q) else 0) &&
            (TableChecked(heap, q) ==> 0 < PtrNeed(heap, q)) && 0 < TotSize(s.avail, q.nbr, q.size, q.align) &&
            (size == 0 <==> U32 <= TotSize(s.avail, q.nbr, q.size, q.align) && !ProductWrapsUnseen(s.avail, q.nbr, q.size, q.align)) &&
            (TotSize(s.avail, q.nbr, q.size, q.align) < U32 ==> size == TotSize(s.avail, q.nbr, q.size, q.align))
  {
    hide CalcTotSize, TableChecked, Stride, Wrap;
    TableCheckIff(t.segs[t.heap], q);
    if TableChecked(t.segs[t.heap], q) {
      PtrTableSize(t.segs[t.heap].avail, q.nbr);
    }
    PositiveSize(s.avail, q);
    CalcTotSizeValue(s.avail, q.nbr, q.size, q.align);
  }

  /** HEAP_EMPTY for a pool in dedicated memory: with r octets remaining in the heap the call
      succeeds exactly when r makes up the shortfall, the table can lie below 2^32, and the
      dedicated memory (which the larger heap must not reach) has room for the blocks. */
  lemma ReportedTableShortfall(t: Table, q: Request, s: Seg, reqd: u32, r: int)
    requires TableInv(t) && q.base != 0 && MakePlan(t, q) == Reject(HeapEmpty, reqd) && t.heap < |t.segs|
    requires IsTarget(t, q, s) && !IsListed(t, q, t.heap)
    requires 0 <= r && t.segs[t.heap].base < t.segs[t.heap].avail + r <= U32 && TableInv(WithHeapRem(t, r))
    ensures 0 < q.align
    ensures var heap := t.segs[t.heap];
            PoolCreate(WithHeapRem(t, r), q).err == None_
            <==> heap.rem + reqd <= r && heap.avail + PtrNeed(heap, q) < U32 && RangeOk(WithHeapRem(t, r), q) && BlocksFit(s.avail, s.rem, q.nbr, q)
  {
    hide MakePlan, PoolCreate, Gap, CalcTotSize, BlocksFit, Wrap, BlocksOk, Ascending, ProductWrapsUnseen, PlanInHeap;
    RejectArgs(t, q);
    RejectTellsWhy(t, q);
    var target := DedicatedPlan(t, q, s);
    DedicatedSizes(t, q, s);
    var t' := WithHeapRem(t, r);
    SuccessIff(t', q);
    NotTheHeap(t, q);
    SameElsewhere(t, t', q, s);
  }

  lemma RejectArgs(t: Table, q: Request)
    requires TableInv(t) && MakePlan(t, q).Reject? && MakePlan(t, q).err in {HeapEmpty, SegEmpty}
    ensures ArgsOk(t, q)
  {
    hide PlanInHeap, PlanInSeg, SearchFrom;
  }

  /** A new range in order does not begin where the heap does. */
  lemma NotTheHeap(t: Table, q: Request)
    requires TableInv(t) && t.heap < |t.segs| && 0 < q.memSize && q.base != 0 && RangeOk(t, q) && !IsListed(t, q, t.heap)
    ensures t.segs[t.heap].base != q.base
  {
    NotEmpty(t.segs[t.heap]);
  }

  /** Blocks outside the heap do not care how much remains in it. */
  lemma SameElsewhere(t: Table, t': Table, q: Request, s: Seg)
    requires TableInv(t) && TableInv(t') && 0 < q.align && 0 < q.memSize && IsTarget(t, q, s)
    requires t.heap < |t.segs| == |t'.segs| && t.segs[t.heap].base != q.base && t'.segs[t.heap].base != q.base
    requires forall i :: 0 <= i < |t.segs| && i != t.heap ==> t'.segs[i] == t.segs[i]
    ensures !IsListed(t', q, t.heap) && (BlocksFitElsewhere(t', q, q.nbr) <==> BlocksFit(s.avail, s.rem, q.nbr, q))
  {
    hide BlocksFit, SegInv, Ascending, TableInv;
    forall i ensures IsListed(t', q, i) <==> IsListed(t, q, i) {}
    if i :| IsListed(t, q, i) && s == t.segs[i] {
      forall j | IsListed(t, q, j) ensures j == i {
        if j != i { ListedOnce(t, q, i, j); }
      }
    }
  }

  /** The listed segment i with r octets remaining, and the request for all of it. */
  function WithSegRem(t: Table, q: Request, i: nat, r: int): (Table, Request)
    requires i < |t.segs| && 0 <= r
    requires var s := t.segs[i]; 0 < s.base <= s.avail && s.base < s.avail + r <= U32
  {
    var s := WithRem(t.segs[i], r);
    (t.(segs := t.segs[i := s]), q.(memSize := s.tot))
  }

  /** SEG_EMPTY for a listed segment other than the heap: with r octets remaining in it the call
      succeeds exactly when r makes up the shortfall and the pool can lie below 2^32 -- if
      the heap can hold the pointer table below 2^32. */
  lemma ReportedSegShortfall(t: Table, q: Request, i: nat, reqd: u32, r: int)
    requires TableInv(t) && q.base != 0 && MakePlan(t, q) == Reject(SegEmpty, reqd) && t.heap < |t.segs|
    requires IsListed(t, q, i) && i != t.heap
    requires 0 <= r && t.segs[i].base < t.segs[i].avail + r <= U32 && TableInv(WithSegRem(t, q, i, r).0)
    ensures 0 < q.align
    ensures var s := t.segs[i]; var heap := t.segs[t.heap]; var (t', q') := WithSegRem(t, q, i, r);
            PoolCreate(t', q').err == None_
            <==> s.rem + reqd <= r && s.avail + TotSize(s.avail, q.nbr, q.size, q.align) < U32 && heap.avail + PtrNeed(heap, q) < U32
  {
    hide MakePlan, PoolCreate, Gap, CalcTotSize, TotSize, Wrap, BlocksOk, Ascending, ProductWrapsUnseen, PlanInHeap;
    RejectArgs(t, q);
    RejectTellsWhy(t, q);
    var (t', q') := WithSegRem(t, q, i, r);
    var s := t.segs[i];
    assert IsListed(t', q', i);
    var target := DedicatedPlan(t, q, s);
    DedicatedSizes(t, q, s);
    OnlyTarget(t', q', i);
    SuccessIff(t', q');
  }

  /** A range that is listed is in order, and only its segment matters. */
  lemma OnlyTarget(t: Table, q: Request, i: nat)
    requires TableInv(t) && t.heap < |t.segs| && 0 < q.memSize && 0 < q.align && q.base != 0 && IsListed(t, q, i) && i != t.heap
    ensures RangeOk(t, q) && !IsListed(t, q, t.heap)
    ensures BlocksFitElsewhere(t, q, q.nbr) <==> BlocksFit(t.segs[i].avail, t.segs[i].rem, q.nbr, q)
  {
    hide BlocksFit, BlocksOk, Ascending;
    assert SegInv(t.segs[i]);
    forall j | 0 <= j < |t.segs| && j != i ensures !Overlaps(t.segs[j], q.base, q.memSize) && !IsListed(t, q, j) {
      ListedOnce(t, q, i, j);
    }
  }

  /** SEG_EMPTY for a new segment: the same with r octets of dedicated memory. */
  lemma ReportedNewSegShortfall(t: Table, q: Request, reqd: u32, r: u32)
    requires TableInv(t) && q.base != 0 && MakePlan(t, q) == Reject(SegEmpty, reqd) && t.heap < |t.segs|
    requires (forall i :: !IsListed(t, q, i)) && 0 < r
    ensures 0 < q.align
    ensures var q' := q.(memSize := r); var heap := t.segs[t.heap];
            PoolCreate(t, q').err == None_
            <==> q.memSize + reqd <= r && q.base + TotSize(q.base, q.nbr, q.size, q.align) < U32 &&
                 heap.avail + PtrNeed(heap, q) < U32 && RangeOk(t, q')
  {
    hide MakePlan, PoolCreate, Gap, CalcTotSize, TotSize, Wrap, SegInv, Ascending, ProductWrapsUnseen, PlanInHeap, TableInv;
    RejectArgs(t, q);
    RejectTellsWhy(t, q);
    var q' := q.(memSize := r);
    var target := DedicatedPlan(t, q, FreshSeg(q));
    DedicatedSizes(t, q, FreshSeg(q));
    StillNew(t, q, r);
    SuccessIff(t, q');
  }

  lemma StillNew(t: Table, q: Request, r: u32)
    requires TableInv(t) && 0 < q.memSize && q.base != 0 && RangeOk(t, q) && forall i :: !IsListed(t, q, i)
    ensures forall i :: !IsListed(t, q.(memSize := r), i)
  {
    hide BlocksOk, Ascending;
    forall i | 0 <= i < |t.segs| ensures t.segs[i].base != q.base {
      var s := t.segs[i];
      NotEmpty(s);
      assert !IsListed(t, q, i);
      assert s.base != q.base || Overlaps(s, q.base, q.memSize);
    }
  }
}
