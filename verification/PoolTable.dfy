/** The memory pool table: segments in ascending order, the search for a segment, and
    Mem_PoolCreate as a transformation of the table. */
module PoolTable {
  import opened Arith
  import opened Segment
  import opened PoolBlocks

  /** The segments in list order and the position of the heap among them.  No segments at
      all is the state before Mem_Init, when Mem_PoolTbl is NULL. */
  datatype Table = Table(segs: seq<Seg>, heap: nat)

  function End(s: Seg): int { s.base + s.tot }

  /** Strictly ascending base addresses and disjoint ranges. */
  predicate Ascending(segs: seq<Seg>) {
    forall i, j :: 0 <= i < j < |segs| ==> End(segs[i]) <= segs[j].base
  }

  predicate TableInv(t: Table) {
    (t.segs == [] || t.heap < |t.segs|) && (forall i :: 0 <= i < |t.segs| ==> SegInv(t.segs[i])) && Ascending(t.segs)
  }

  /** Mem_Init on a configured heap. */
  function InitTable(base: u32, size: u32): Table { Table([Seg(base, size, base, size, [])], 0) }

  // ---- Search ------------------------------------------------------------------

  datatype Search = Found(i: nat) | Insert(i: nat) | Overlap

  predicate Same(s: Seg, base: u32, size: u32) { s.base == base && s.tot == size }

  predicate Overlaps(s: Seg, base: u32, size: u32) { base < End(s) && s.base < base + size }

  /** How a range stands to one segment; end addresses are inclusive, as in the code. */
  datatype Relation = Identical | EndsBefore | Overlapping | Beyond

  function Relate(s: Seg, base: u32, size: u32): Relation {
    var first, last := base, base + size - 1;
    var segFirst, segLast := s.base, End(s) - 1;
    if base == s.base && size == s.tot then Identical
    else if last < segFirst then EndsBefore
    else if (first <= segFirst && last >= segFirst) || (first >= segFirst && last <= segLast)
            || (first <= segLast && last >= segLast) then Overlapping
    else Beyond
  }

  /** The search loop of Mem_PoolCreate from segment i on. */
  function SearchFrom(segs: seq<Seg>, i: nat, base: u32, size: u32): (r: Search)
    requires i <= |segs|
    ensures r.Found? ==> r.i < |segs|
    ensures r.Insert? ==> r.i <= |segs|
    decreases |segs| - i
  {
    if i == |segs| then Insert(i)
    else
      match Relate(segs[i], base, size)
      case Identical => Found(i)
      case EndsBefore => Insert(i)
      case Overlapping => Overlap
      case Beyond => SearchFrom(segs, i + 1, base, size)
  }

  /** A new range is rejected exactly when it overlaps a listed segment without being that
      segment; otherwise it is found, or there is one place that keeps the order. */
  lemma {:induction false} SearchSpec(segs: seq<Seg>, i: nat, base: u32, size: u32)
    requires i <= |segs| && 0 < size && Ascending(segs)
    requires forall k :: 0 <= k < |segs| ==> 0 < segs[k].tot
    requires forall k :: 0 <= k < i ==> End(segs[k]) <= base
    ensures SearchFrom(segs, i, base, size) == Overlap
            <==> exists k :: 0 <= k < |segs| && Overlaps(segs[k], base, size) && !Same(segs[k], base, size)
    ensures match SearchFrom(segs, i, base, size)
            case Found(k) => k < |segs| && Same(segs[k], base, size)
            case Insert(k) => k <= |segs| && (forall j :: 0 <= j < k ==> End(segs[j]) <= base)
                              && (forall j :: k <= j < |segs| ==> base + size <= segs[j].base)
            case Overlap => true
    decreases |segs| - i
  {
    if i < |segs| {
      var s := segs[i];
      if Same(s, base, size) {
        forall k | 0 <= k < |segs| && k != i ensures !Overlaps(segs[k], base, size) {
          assert if k < i then End(segs[k]) <= base else End(segs[i]) <= segs[k].base;
        }
      } else if base + size <= s.base {
        forall k | i <= k < |segs| ensures base + size <= segs[k].base {
          assert k > i ==> End(segs[i]) <= segs[k].base;
        }
      } else if Overlaps(s, base, size) {
      } else {
        SearchSpec(segs, i + 1, base, size);
      }
    }
  }

  // ---- Mem_PoolCreate: the checks -------------------------------------------------

  datatype Request = Request(base: u32, memSize: u32, nbr: u32, size: u32, align: u32)

  /** Where the blocks will come from: a listed segment, or a new one at a list position. */
  datatype Target = Listed(i: nat) | Fresh(i: nat)

  /** Result of everything before the first allocation: an error with the number of octets
      still needed, or the predicted pool start and sizes. */
  datatype Plan = Reject(err: LibErr, reqd: u32)
                | Go(target: Target, start: u32, sizePool: u32, sizePtrs: u32, sizeTot: u32)

  const PTR: u32 := 4

  function FreshSeg(q: Request): Seg { Seg(q.base, q.memSize, q.base, q.memSize, []) }

  function TargetSeg(t: Table, target: Target, q: Request): Seg
    requires target.Listed? ==> target.i < |t.segs|
  {
    match target
    case Listed(i) => t.segs[i]
    case Fresh(_) => FreshSeg(q)
  }

  predicate Placeable(t: Table, target: Target) {
    if target.Listed? then target.i < |t.segs| else target.i <= |t.segs|
  }

  /** Valid arguments, and a heap to create pools with. */
  predicate ArgsOk(t: Table, q: Request) {
    (q.base != 0 ==> 0 < q.memSize) && 0 < q.nbr && 0 < q.size && 0 < q.align && t.segs != []
  }

  /** The checks of Mem_PoolCreate, in the order the code makes them. */
  function MakePlan(t: Table, q: Request): (plan: Plan)
    requires t.segs == [] || t.heap < |t.segs|
    ensures plan.Go? ==> t.segs != [] && 0 < q.align && Placeable(t, plan.target)
  {
    if q.base != 0 && q.memSize < 1 then Reject(InvalidSegSize, 0)
    else if q.nbr < 1 then Reject(InvalidBlkNbr, 0)
    else if q.size < 1 then Reject(InvalidBlkSize, 0)
    else if q.align < 1 then Reject(InvalidBlkAlign, 0)
    else if t.segs == [] then Reject(HeapNotFound, 0)
    else if q.base == 0 then PlanInHeap(t, q)
    else if Wrap(q.base + q.memSize - 1) < q.base then Reject(InvalidBlkAddr, 0)
    else
      match SearchFrom(t.segs, 0, q.base, q.memSize)
      case Overlap => Reject(InvalidSegOverlap, 0)
      case Found(i) => PlanInSeg(t, q, Listed(i))
      case Insert(i) => PlanInSeg(t, q, Fresh(i))
  }

  function PlanInHeap(t: Table, q: Request): (plan: Plan)
    requires t.heap < |t.segs| && 0 < q.align
    ensures plan.Go? ==> plan.target == Listed(t.heap)
  {
    var heap := t.segs[t.heap];
    var sizePtrs := CalcTotSize(heap.avail, q.nbr, PTR, PTR);
    if sizePtrs < 1 then Reject(HeapOvf, 0)
    else
      var start := Wrap(heap.avail + sizePtrs);
      var sizePool := CalcTotSize(start, q.nbr, q.size, q.align);
      if sizePool < 1 then Reject(HeapOvf, 0)
      else
        var sizeTot := Wrap(sizePtrs + sizePool);
        if sizeTot < sizePtrs || sizeTot < sizePool then Reject(HeapOvf, 0)
        else if sizeTot > heap.rem then Reject(HeapEmpty, Diff(sizeTot, heap.rem))
        else Go(Listed(t.heap), start, sizePool, sizePtrs, sizeTot)
  }

  function PlanInSeg(t: Table, q: Request, target: Target): (plan: Plan)
    requires t.heap < |t.segs| && 0 < q.align && Placeable(t, target)
    ensures plan.Go? ==> plan.target == target
  {
    var heap := t.segs[t.heap];
    var s := TargetSeg(t, target, q);
    var sizePtrs := CalcTotSize(heap.avail, q.nbr, PTR, PTR);
    if sizePtrs < 1 then Reject(HeapOvf, 0)
    else if sizePtrs > heap.rem then Reject(HeapEmpty, Diff(sizePtrs, heap.rem))
    else
      var sizePool := CalcTotSize(s.avail, q.nbr, q.size, q.align);
      if sizePool < 1 then Reject(SegOvf, 0)
      else if sizePool > s.rem then Reject(SegEmpty, Diff(sizePool, s.rem))
      else Go(target, s.avail, sizePool, sizePtrs, 0)
  }

  // ---- Mem_PoolCreate: the allocations ----------------------------------------------

  datatype NewPool = NoPool | NewPool(ptrTable: u32, pool: Pool)

  /** Table afterwards, error, octets still needed, the pool created, if any, and the number
      of pointers stored beyond the end of the pointer table. */
  datatype Outcome = Outcome(tbl: Table, err: LibErr, reqd: u32, created: NewPool, stray: nat)

  /** Entries of the pointer table: its size in octets is a 32-bit product. */
  function Slots(q: Request): nat { Wrap(q.nbr * PTR) / 4 }

  /** The block addresses that the pointer table holds. */
  function InTable(addrs: seq<u32>, q: Request): seq<u32> {
    if |addrs| <= Slots(q) then addrs else addrs[..Slots(q)]
  }

  function Stray(addrs: seq<u32>, q: Request): nat { Max(0, |addrs| - Slots(q)) }

  /** The table has blk_nbr entries exactly when 4 * blk_nbr does not wrap; otherwise fewer. */
  lemma SlotsSpec(q: Request)
    ensures Slots(q) <= q.nbr && Slots(q) == q.nbr % 0x4000_0000
    ensures Slots(q) == q.nbr <==> q.nbr * PTR < U32
  {
    if q.nbr * PTR < U32 {
      SmallMod(q.nbr * PTR, U32);
    }
  }

  /** Octets reported when an allocation fails in spite of the checks. */
  function StillNeeded(need: u32, rem: u32): u32 {
    if need > rem then Diff(need, rem) else need
  }

  /** Put a segment back at its place, or insert a new one. */
  function Place(t: Table, target: Target, s: Seg): Table
    requires Placeable(t, target)
  {
    match target
    case Listed(i) => t.(segs := t.segs[i := s])
    case Fresh(i) => Table(t.segs[..i] + [s] + t.segs[i..], if i <= t.heap then t.heap + 1 else t.heap)
  }

  /** The table once the pointer table has been taken from the heap. */
  function AfterPtrs(t: Table, q: Request): (Table, u32)
    requires t.heap < |t.segs|
  {
    var (heap, ptrTable) := SegAlloc(t.segs[t.heap], Wrap(q.nbr * PTR), PTR);
    (t.(segs := t.segs[t.heap := heap]), ptrTable)
  }

  function Commit(t: Table, q: Request, plan: Plan): Outcome
    requires t.heap < |t.segs| && 0 < q.align && plan.Go? && Placeable(t, plan.target)
  {
    var (t1, ptrTable) := AfterPtrs(t, q);
    if ptrTable == 0 then
      var need := if q.base == 0 then plan.sizeTot else Wrap(q.nbr * PTR);
      Outcome(t, HeapEmpty, StillNeeded(need, t.segs[t.heap].rem), NoPool, 0)
    else
      var (s, addrs) := AllocRun(TargetSeg(t1, plan.target, q), q.nbr, q.size, q.align);
      if |addrs| < q.nbr then
        var need := CalcTotSize(s.avail, Wrap(q.nbr - |addrs|), q.size, q.align);
        // A segment that was to be new is not listed: its links are set only on success.
        Outcome(if plan.target.Fresh? then t1 else Place(t1, plan.target, s),
                SegEmpty, StillNeeded(need, s.rem), NoPool, Stray(addrs, q))
      else
        Outcome(Place(t1, plan.target, s), None_, 0,
                NewPool(ptrTable, Pool(plan.start, Wrap(plan.start + plan.sizePool - 1), q.align, q.size, q.nbr, q.nbr, InTable(addrs, q))),
                Stray(addrs, q))
  }

  function PoolCreate(t: Table, q: Request): Outcome
    requires t.segs == [] || t.heap < |t.segs|
  {
    var plan := MakePlan(t, q);
    match plan
    case Reject(err, reqd) => Outcome(t, err, reqd, NoPool, 0)
    case Go(_, _, _, _, _) => Commit(t, q, plan)
  }

  /** The segment fields that a failing call leaves in its pool object: those of a new segment,
      as far as it was used, if the search had found a place for one; otherwise zeros. */
  function SegLeft(t: Table, q: Request): Seg
    requires t.segs == [] || t.heap < |t.segs|
  {
    if !ArgsOk(t, q) || q.base == 0 || Wrap(q.base + q.memSize - 1) < q.base || !SearchFrom(t.segs, 0, q.base, q.memSize).Insert? then
      Seg(0, 0, 0, 0, [])
    else if MakePlan(t, q).Reject? || AfterPtrs(t, q).1 == 0 then FreshSeg(q)
    else AllocRun(FreshSeg(q), q.nbr, q.size, q.align).0
  }
}
