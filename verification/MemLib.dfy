/** lib_mem.c as it stands in memory: MEM_POOL objects, the doubly-linked segment table and
    pool chains, and the functions that update them, each proved against the transformation
    of the table or of the pool that it performs. */
module MemLib {
  import opened Arith
  import opened Segment
  import opened PoolBlocks
  import opened PoolTable
  import opened PoolLaws

  datatype Kind = KindNone | KindHeap | KindPool

  lemma GapFormula(addr: int, align: int)
    requires align > 0
    ensures Gap(addr, align) == if addr % align != 0 then align - addr % align else 0
  {
  }

  /** struct mem_pool.  poolPtrs is the array at address poolPtrsAddr. */
  class MemPool {
    var kind: Kind
    var segHead: MemPool?
    var segPrev: MemPool?
    var segNext: MemPool?
    var poolPrev: MemPool?
    var poolNext: MemPool?
    var poolAddrStart: u32
    var poolAddrEnd: u32
    var poolPtrsAddr: u32
    var poolPtrs: array?<u32>
    var blkIx: u32
    var poolSize: u32
    var blkNbr: u32
    var blkSize: u32
    var blkAlign: u32
    var segAddr: u32
    var segAddrNextAvail: u32
    var segSizeTot: u32
    var segSizeRem: u32
    /** Everything Mem_SegAlloc has taken from this segment. */
    ghost var segBlocks: seq<Block>

    constructor ()
      ensures kind == KindNone
    {
      kind := KindNone;
      segHead, segPrev, segNext, poolPrev, poolNext := null, null, null, null, null;
      poolAddrStart, poolAddrEnd, poolPtrsAddr, poolPtrs := 0, 0, 0, null;
      blkIx, poolSize, blkNbr, blkSize, blkAlign := 0, 0, 0, 0, 0;
      segAddr, segAddrNextAvail, segSizeTot, segSizeRem := 0, 0, 0, 0;
      segBlocks := [];
    }

    /** The pool these fields describe. */
    ghost function AsPool(): Pool
      requires poolPtrs != null
      reads `poolAddrStart, `poolAddrEnd, `blkAlign, `blkSize, `blkNbr, `blkIx, `poolPtrs, poolPtrs
    {
      Pool(poolAddrStart, poolAddrEnd, blkAlign, blkSize, blkNbr, blkIx, poolPtrs[..])
    }

    ghost function AsSeg(): Seg
      reads `segAddr, `segSizeTot, `segAddrNextAvail, `segSizeRem, `segBlocks
    {
      Seg(segAddr, segSizeTot, segAddrNextAvail, segSizeRem, segBlocks)
    }

    method ResetLinks(head: MemPool?)
      modifies `segHead, `segPrev, `segNext, `poolPrev, `poolNext
      ensures segHead == head && segPrev == null && segNext == null && poolPrev == null && poolNext == null
    {
      segHead, segPrev, segNext, poolPrev, poolNext := head, null, null, null, null;
    }

    method ResetPool()
      modifies `poolAddrStart, `poolAddrEnd, `poolPtrsAddr, `poolPtrs, `poolSize, `blkAlign, `blkSize, `blkNbr, `blkIx
      ensures poolPtrs == null && poolAddrStart == 0 && poolAddrEnd == 0 && poolPtrsAddr == 0
      ensures poolSize == 0 && blkAlign == 0 && blkSize == 0 && blkNbr == 0 && blkIx == 0
    {
      poolAddrStart, poolAddrEnd, poolPtrsAddr, poolPtrs := 0, 0, 0, null;
      poolSize, blkAlign, blkSize, blkNbr, blkIx := 0, 0, 0, 0, 0;
    }

    /** The last step of Mem_PoolCreate. */
    method Configure(start: u32, sizePool: u32, ptrsAddr: u32, ptrs: array<u32>, q: Request)
      modifies `kind, `poolAddrStart, `poolAddrEnd, `poolPtrsAddr, `poolPtrs, `poolSize, `blkAlign, `blkSize, `blkNbr, `blkIx
      ensures kind == KindPool && poolPtrs == ptrs && poolPtrsAddr == ptrsAddr && poolSize == sizePool
      ensures AsPool() == Pool(start, Wrap(start + sizePool - 1), q.align, q.size, q.nbr, q.nbr, ptrs[..])
    {
      hide Wrap;
      kind := KindPool;
      poolAddrStart := start;
      poolAddrEnd := Wrap(start + sizePool - 1);
      poolPtrsAddr, poolPtrs, poolSize := ptrsAddr, ptrs, sizePool;
      blkAlign, blkSize, blkNbr, blkIx := q.align, q.size, q.nbr, q.nbr;
    }

    method ResetSeg(base: u32, size: u32)
      modifies `segAddr, `segAddrNextAvail, `segSizeTot, `segSizeRem, `segBlocks
      ensures AsSeg() == Seg(base, size, base, size, [])
    {
      segAddr, segAddrNextAvail := base, base;
      segSizeTot, segSizeRem := size, size;
      segBlocks := [];
    }

    /** Neither configured nor listed: everything but the segment fields is zero. */
    ghost predicate Unused()
      reads `kind, `segHead, `segPrev, `segNext, `poolPrev, `poolNext
      reads `poolAddrStart, `poolAddrEnd, `poolPtrsAddr, `poolPtrs, `poolSize, `blkAlign, `blkSize, `blkNbr, `blkIx
    {
      kind == KindNone && segHead == null && segPrev == null && segNext == null && poolPrev == null && poolNext == null &&
      poolAddrStart == 0 && poolAddrEnd == 0 && poolPtrsAddr == 0 && poolPtrs == null &&
      poolSize == 0 && blkAlign == 0 && blkSize == 0 && blkNbr == 0 && blkIx == 0
    }

    /** Mem_PoolClr on a non-NULL pool. */
    method Clear()
      modifies this
      ensures Unused() && AsSeg() == Seg(0, 0, 0, 0, [])
    {
      kind := KindNone;
      ResetLinks(null);
      ResetPool();
      ResetSeg(0, 0);
    }

    /** The heap part of Mem_Init. */
    method InitHeap(base: u32, size: u32)
      modifies this
      ensures kind == KindHeap && AsSeg() == Seg(base, size, base, size, [])
      ensures segPrev == null && segNext == null && poolPrev == null && poolNext == null && segHead == this
      ensures poolAddrStart == 0 && poolAddrEnd == 0 && poolPtrsAddr == 0 && poolPtrs == null && blkSize == 0 && blkNbr == 0 && blkIx == 0
    {
      kind := KindHeap;
      ResetLinks(this);
      ResetPool();
      ResetSeg(base, size);
    }

    /** One turn of the search loop: how [base, last] stands to this segment. */
    method RelateTo(base: u32, last: u32, size: u32) returns (rel: Relation)
      requires SegInv(AsSeg()) && 0 < size && last == base + size - 1
      ensures rel == Relate(AsSeg(), base, size)
    {
      if base == segAddr && size == segSizeTot { return Identical; }
      var segFirst := segAddr;
      var segLast := segAddr + segSizeTot - 1;
      if last < segFirst { return EndsBefore; }
      if (base <= segFirst && last >= segFirst) || (base >= segFirst && last <= segLast)
         || (base <= segLast && last >= segLast) {
        return Overlapping;
      }
      rel := Beyond;
    }

    /** Mem_SegAlloc on this segment. */
    method AllocFromSeg(size: u32, align: u32) returns (addr: u32)
      requires 0 < align
      modifies `segAddrNextAvail, `segSizeRem, `segBlocks
      ensures (AsSeg(), addr) == SegAlloc(old(AsSeg()), size, align)
    {
      hide Wrap, Diff, Gap;
      var memAddr := segAddrNextAvail;
      var memAlign := memAddr % align;
      var alignOffset := if memAlign != 0 then align - memAlign else 0;
      GapFormula(memAddr, align);
      var sizeTot := Wrap(alignOffset + size);
      if sizeTot > segSizeRem { return 0; }
      if sizeTot < alignOffset || sizeTot < size { return 0; }
      var next := Wrap(memAddr + sizeTot);
      if next < memAddr { return 0; }
      addr := Wrap(memAddr + alignOffset);
      segAddrNextAvail := next;
      segSizeRem := Diff(segSizeRem, sizeTot);
      segBlocks := segBlocks + [Block(addr, size, align)];
    }

    /** The block-management fields and the pointer table belong together. */
    ghost predicate Usable()
      reads `poolAddrStart, `poolAddrEnd, `blkAlign, `blkSize, `blkNbr, `blkIx, `poolPtrs, poolPtrs
    {
      poolPtrs != null && blkNbr == poolPtrs.Length && blkIx <= blkNbr && 0 < blkAlign && Modulus(AsPool()) != 0
    }

    /** Mem_PoolBlkIsValidAddr on this pool. */
    method IsValidBlkAddr(blk: u32) returns (valid: bool)
      requires Usable()
      ensures valid <==> IsValidAddr(AsPool(), blk)
    {
      if blk < poolAddrStart || blk > poolAddrEnd { return false; }
      var alignOffset := poolAddrStart % blkAlign;
      var memAlignOffset := if alignOffset != 0 then blkAlign - alignOffset else 0;
      alignOffset := blkSize % blkAlign;
      var blkAlignOffset := if alignOffset != 0 then blkAlign - alignOffset else 0;
      var first := Wrap(poolAddrStart + memAlignOffset);
      var memDiff := Diff(blk, first);
      var memAlign := Wrap(blkSize + blkAlignOffset);
      valid := memDiff % memAlign == 0;
    }

    /** The loop that looks for a block among the free ones. */
    method IsFree(blk: u32) returns (free: bool)
      requires Usable()
      ensures free <==> blk in AsPool().ptrs[..blkIx]
    {
      hide Modulus;
      free := false;
      for i := 0 to blkIx
        invariant !free && blk !in poolPtrs[..i]
      {
        if blk == poolPtrs[i] { return true; }
      }
    }

    /** The loop that looks for a block among those in use. */
    method FindInUse(blk: u32) returns (i: u32, found: bool)
      requires Usable()
      ensures i == Find(AsPool().ptrs, blkIx, blk) && (found <==> i < blkNbr)
    {
      hide Modulus;
      ghost var s := poolPtrs[..];
      i, found := blkIx, false;
      while i < blkNbr
        invariant blkIx <= i <= blkNbr && !found
        invariant Find(s, blkIx, blk) == Find(s, i, blk)
      {
        assert poolPtrs[i] == s[i];
        if poolPtrs[i] == blk {
          found := true;
          break;
        }
        i := i + 1;
      }
    }
  }

  // ---- The operations on the blocks of a pool -----------------------------------------

  ghost function NonNull(pool: MemPool?): set<MemPool> { if pool == null then {} else {pool} }

  method PoolBlkGetNbrAvail(pool: MemPool?) returns (nbr: u32, err: LibErr)
    ensures if pool == null then nbr == 0 && err == NullPtr
            else if pool.kind != KindPool then nbr == 0 && err == InvalidPool
            else nbr == pool.blkIx && err == None_
    ensures pool != null && pool.kind == KindPool && pool.Usable() && PoolInv(pool.AsPool()) ==> nbr == |Free(pool.AsPool())|
  {
    if pool == null { return 0, NullPtr; }
    if pool.kind != KindPool { return 0, InvalidPool; }
    if pool.poolPtrs != null && PoolInv(pool.AsPool()) {
      FreeHeldPartition(pool.AsPool());
    }
    return pool.blkIx, None_;
  }

  method PoolBlkGet(pool: MemPool?, size: u32) returns (blk: u32, err: LibErr)
    requires pool != null && pool.kind == KindPool ==> pool.poolPtrs != null && pool.blkNbr <= pool.poolPtrs.Length
    modifies NonNull(pool)`blkIx
    ensures pool == null ==> blk == 0 && err == NullPtr
    ensures pool != null && pool.kind != KindPool ==>
              blk == 0 && pool.blkIx == old(pool.blkIx) && err == if size < 1 then InvalidBlkSize else InvalidPool
    ensures pool != null && pool.kind == KindPool ==> (pool.AsPool(), blk, err) == BlkGet(old(pool.AsPool()), size)
  {
    if pool == null { return 0, NullPtr; }
    if size < 1 { return 0, InvalidBlkSize; }
    if pool.kind != KindPool { return 0, InvalidPool; }
    if size > pool.blkSize { return 0, InvalidBlkSize; }
    if pool.blkIx < 1 { return 0, PoolEmpty; }
    if pool.blkIx > pool.blkNbr { return 0, InvalidBlkIx; }
    pool.blkIx := pool.blkIx - 1;
    return pool.poolPtrs[pool.blkIx], None_;
  }

  method PoolBlkGetUsedAtIx(pool: MemPool?, usedIx: u32) returns (blk: u32, err: LibErr)
    requires pool != null && pool.kind == KindPool ==> pool.Usable()
    ensures if pool == null then blk == 0 && err == NullPtr
            else if pool.kind != KindPool then blk == 0 && err == InvalidPool
            else (blk, err) == BlkUsedAt(pool.AsPool(), usedIx)
  {
    hide Modulus, Wrap;
    if pool == null { return 0, NullPtr; }
    if pool.kind != KindPool { return 0, InvalidPool; }
    if pool.blkIx >= pool.blkNbr { return 0, InvalidBlkIx; }
    var blkIx := Wrap(Wrap(pool.blkNbr - usedIx) - 1);
    if blkIx >= pool.blkNbr { return 0, InvalidBlkIx; }
    if blkIx < pool.blkIx { return 0, InvalidBlkIx; }
    return pool.poolPtrs[blkIx], None_;
  }

  method PoolBlkFree(pool: MemPool?, blk: u32) returns (err: LibErr)
    requires pool != null && pool.kind == KindPool ==> pool.Usable()
    modifies NonNull(pool)`blkIx, if pool == null then null else pool.poolPtrs
    ensures pool == null ==> err == NullPtr
    ensures pool != null && pool.kind != KindPool ==>
              pool.blkIx == old(pool.blkIx) && err == if blk == 0 then NullPtr else InvalidPool
    ensures pool != null && pool.kind == KindPool ==> pool.Usable() && (pool.AsPool(), err) == BlkFree(old(pool.AsPool()), blk)
  {
    hide IsValidAddr;
    if pool == null { return NullPtr; }
    if blk == 0 { return NullPtr; }
    if pool.kind != KindPool { return InvalidPool; }
    var valid := pool.IsValidBlkAddr(blk);
    if !valid { return InvalidBlkAddr; }
    var free := pool.IsFree(blk);
    if free { return InvalidBlkAddrInPool; }
    if pool.blkIx >= pool.blkNbr { return PoolFull; }
    var i, found := pool.FindInUse(blk);
    if !found { return InvalidPool; }
    pool.poolPtrs[i] := pool.poolPtrs[pool.blkIx];
    pool.poolPtrs[pool.blkIx] := blk;
    pool.blkIx := pool.blkIx + 1;
    return None_;
  }

  method PoolBlkIxGet(pool: MemPool?, blk: u32) returns (ix: u32, err: LibErr)
    requires pool != null && pool.kind == KindPool ==> pool.Usable()
    ensures if pool == null then ix == 0xFFFF_FFFF && err == NullPtr
            else if pool.kind != KindPool then ix == 0xFFFF_FFFF && err == if blk == 0 then NullPtr else InvalidPool
            else (ix, err) == BlkIxGet(pool.AsPool(), blk)
  {
    hide Modulus, IsValidAddr;
    if pool == null { return INVALID_IX, NullPtr; }
    if blk == 0 { return INVALID_IX, NullPtr; }
    if pool.kind != KindPool { return INVALID_IX, InvalidPool; }
    var valid := pool.IsValidBlkAddr(blk);
    if !valid { return INVALID_IX, InvalidBlkAddr; }
    var free := pool.IsFree(blk);
    if free { return INVALID_IX, InvalidBlkAddrInPool; }
    if pool.blkIx >= pool.blkNbr { return INVALID_IX, PoolFull; }
    var i, found := pool.FindInUse(blk);
    if found { return pool.blkNbr - 1 - i, None_; }
    return INVALID_IX, InvalidPool;
  }

  // ---- Shape of the two-dimensional list ---------------------------------------------

  ghost function Before(c: seq<MemPool>, i: nat): MemPool?
    requires i <= |c|
  {
    if i == 0 then null else c[i - 1]
  }

  ghost function After(c: seq<MemPool>, i: nat): MemPool? {
    if i + 1 < |c| then c[i + 1] else null
  }

  ghost function At(c: seq<MemPool>, i: nat): MemPool? {
    if i < |c| then c[i] else null
  }

  /** Entry i of the table is what pool i of the list holds; the heap is where t.heap says. */
  ghost predicate Entries(t: Table, c: seq<MemPool>, heap: MemPool)
    reads c`segAddr, c`segSizeTot, c`segAddrNextAvail, c`segSizeRem, c`segBlocks
  {
    |t.segs| == |c| && (forall i :: 0 <= i < |c| ==> t.segs[i] == c[i].AsSeg()) &&
    (c != [] ==> t.heap < |c| && c[t.heap] == heap)
  }

  ghost predicate AllIn(c: seq<MemPool>, pools: set<MemPool>) { forall p :: p in c ==> p in pools }

  ghost predicate NoneIn(c: seq<MemPool>, d: seq<MemPool>) { forall p :: p in c ==> p !in d }

  ghost predicate SegsLinked(c: seq<MemPool>)
    reads c`segPrev, c`segNext
  {
    (forall i, j :: 0 <= i < j < |c| ==> c[i] != c[j]) &&
    (forall i :: 0 <= i < |c| ==> c[i].segPrev == Before(c, i)) &&
    (forall i :: 0 <= i < |c| ==> c[i].segNext == After(c, i))
  }

  /** A segment head and the pools that share its segment. */
  ghost predicate PoolsLinked(c: seq<MemPool>)
    reads c`poolPrev, c`poolNext, c`segHead
  {
    c != [] &&
    (forall i, j :: 0 <= i < j < |c| ==> c[i] != c[j]) &&
    (forall i :: 0 <= i < |c| ==> c[i].poolPrev == Before(c, i)) &&
    (forall i :: 0 <= i < |c| ==> c[i].poolNext == After(c, i)) &&
    (forall i :: 0 <= i < |c| ==> c[i].segHead == c[0])
  }

  lemma InsertSeg(c: seq<MemPool>, k: nat, p: MemPool, d: seq<MemPool>)
    requires k <= |c| && p !in c && d == c[..k] + [p] + c[k..]
    requires forall i, j :: 0 <= i < j < |c| ==> c[i] != c[j]
    requires p.segPrev == Before(c, k) && p.segNext == At(c, k)
    requires forall i :: 0 <= i < |c| ==> c[i].segPrev == if i == k then p else Before(c, i)
    requires forall i :: 0 <= i < |c| ==> c[i].segNext == if i + 1 == k then p else After(c, i)
    ensures SegsLinked(d)
  {
    forall i | 0 <= i < |d| ensures d[i].segPrev == Before(d, i) && d[i].segNext == After(d, i) {
      if i < k {
        assert d[i] == c[i];
      } else if i > k {
        assert d[i] == c[i - 1];
      }
    }
  }

  lemma InsertPool(c: seq<MemPool>, p: MemPool, d: seq<MemPool>)
    requires c != [] && p !in c && d == [c[0], p] + c[1..]
    requires forall i, j :: 0 <= i < j < |c| ==> c[i] != c[j]
    requires p.poolPrev == c[0] && p.poolNext == After(c, 0) && p.segHead == c[0]
    requires forall i :: 0 <= i < |c| ==> c[i].poolPrev == if i == 1 then p else Before(c, i)
    requires forall i :: 0 <= i < |c| ==> c[i].poolNext == if i == 0 then p else After(c, i)
    requires forall i :: 0 <= i < |c| ==> c[i].segHead == c[0]
    ensures PoolsLinked(d)
  {
    forall i | 0 <= i < |d|
      ensures d[i].poolPrev == Before(d, i) && d[i].poolNext == After(d, i) && d[i].segHead == d[0]
    {
      if i > 1 {
        assert d[i] == c[i - 1];
      }
    }
  }

  lemma InitTableInv(base: u32, size: u32)
    requires 0 < base && 0 < size && base + size <= U32
    ensures TableInv(InitTable(base, size))
  {
  }

  // ---- The library's global state ---------------------------------------------------------

  class Library {
    /** Mem_PoolHeap and Mem_PoolTbl. */
    const heap: MemPool
    var poolTbl: MemPool?
    /** The segment list, the table it stands for, and the pool chain of every segment. */
    ghost var segs: seq<MemPool>
    ghost var table: Table
    ghost var chains: map<MemPool, seq<MemPool>>
    ghost var repr: set<MemPool>

    /** The links form the segment list and one pool chain per segment. */
    ghost predicate Shape()
      reads `poolTbl, `segs, `chains, `repr, repr`segPrev, repr`segNext, repr`poolPrev, repr`poolNext, repr`segHead
    {
      heap in repr && poolTbl == At(segs, 0) &&
      (forall p :: p in segs ==> p in repr && p in chains) &&
      (forall h :: h in chains ==> h in segs && ChainOk(h)) &&
      SegsLinked(segs)
    }

    ghost predicate ChainOk(h: MemPool)
      requires h in chains
      reads `chains, `repr, repr`poolPrev, repr`poolNext, repr`segHead
    {
      (forall p :: p in chains[h] ==> p in repr) && PoolsLinked(chains[h]) && chains[h][0] == h
    }

    /** The segment fields of the listed pools are the table. */
    ghost predicate Represents()
      reads `segs, `table, segs`segAddr, segs`segSizeTot, segs`segAddrNextAvail, segs`segSizeRem, segs`segBlocks
    {
      Entries(table, segs, heap) && TableInv(table)
    }

    ghost predicate Valid()
      reads `poolTbl, `segs, `chains, `repr, `table, repr`segPrev, repr`segNext, repr`poolPrev, repr`poolNext, repr`segHead
      reads segs`segAddr, segs`segSizeTot, segs`segAddrNextAvail, segs`segSizeRem, segs`segBlocks
    {
      Shape() && Represents()
    }

    /** Before Mem_Init the table pointer is NULL. */
    constructor ()
      ensures Valid() && segs == [] && table.segs == [] && fresh(heap) && repr == {heap}
    {
      heap := new MemPool();
      poolTbl := null;
      segs, chains, table := [], map[], Table([], 0);
      new;
      repr := {heap};
    }

    /** Mem_Init on a heap of the configured base address and size; to be called once. */
    method Init(base: u32, size: u32)
      requires Valid() && segs == [] && 0 < base && 0 < size && base + size <= U32
      modifies this, heap
      ensures Valid() && table == InitTable(base, size) && segs == [heap] && chains == map[heap := [heap]]
      ensures repr == old(repr) && heap.kind == KindHeap && heap.segHead == heap
      ensures heap.segAddr == heap.segAddrNextAvail == base && heap.segSizeTot == heap.segSizeRem == size && heap.segBlocks == []
      ensures heap.segPrev == null && heap.segNext == null && heap.poolPrev == null && heap.poolNext == null
      ensures heap.poolAddrStart == 0 && heap.poolAddrEnd == 0 && heap.poolPtrsAddr == 0 && heap.poolPtrs == null
      ensures heap.blkSize == 0 && heap.blkNbr == 0 && heap.blkIx == 0
    {
      hide SegInv;
      heap.InitHeap(base, size);
      poolTbl := heap;
      assert TableInv(InitTable(base, size)) by { InitTableInv(base, size); }
      segs, chains, table := [heap], map[heap := [heap]], InitTable(base, size);
      assert ChainOk(heap);
      assert SegsLinked(segs);
    }

    // ---- Mem_HeapAlloc, Mem_SegGetSizeRem ------------------------------------------------

    /** Entry i of the table is what listed segment i now holds. */
    ghost method SyncSeg(i: nat)
      requires Shape() && |table.segs| == |segs| && i < |segs|
      requires table.heap < |segs| && segs[table.heap] == heap && TableInv(table)
      requires forall j :: 0 <= j < |segs| && j != i ==> table.segs[j] == segs[j].AsSeg()
      requires SegInv(segs[i].AsSeg())
      requires segs[i].segAddr == table.segs[i].base && segs[i].segSizeTot == table.segs[i].tot
      modifies `table
      ensures table == old(table).(segs := old(table.segs)[i := segs[i].AsSeg()])
      ensures Valid()
    {
      hide SegInv, TableInv, Shape;
      ListedKeepsInv(table, i, segs[i].AsSeg());
      table := table.(segs := table.segs[i := segs[i].AsSeg()]);
      assert forall j :: 0 <= j < |segs| ==> table.segs[j] == segs[j].AsSeg();
      assert Represents();
    }

    lemma HeapEntry()
      requires Valid() && segs != []
      ensures table.heap < |table.segs| == |segs| && segs[table.heap] == heap
      ensures table.segs[table.heap] == heap.AsSeg() && SegInv(heap.AsSeg())
    {
    }

    method HeapAlloc(size: u32, align: u32) returns (addr: u32, reqd: u32, err: LibErr)
      requires Valid() && segs != []
      modifies `table, heap`segAddrNextAvail, heap`segSizeRem, heap`segBlocks
      ensures Valid()
      ensures var r := Segment.HeapAlloc(old(table.segs[table.heap]), size, align);
              (addr, reqd, err) == (r.addr, r.reqd, r.err) && table == PoolLaws.Step(old(table), HeapOp(size, align))
    {
      hide Valid, CalcTotSize, SegAlloc, SegInv;
      HeapEntry();
      assert table.segs[table.heap := heap.AsSeg()] == table.segs;
      if size < 1 { return 0, 0, InvalidMemSize; }
      if align < 1 { return 0, 0, InvalidMemAlign; }
      var memAddr := heap.segAddrNextAvail;
      var sizeRem := heap.segSizeRem;
      var sizeReq := CalcTotSize(memAddr, 1, size, align);
      if sizeReq < 1 { return 0, size, HeapOvf; }
      if sizeReq > sizeRem { return 0, Diff(sizeReq, sizeRem), HeapEmpty; }
      SegAllocSpec(heap.AsSeg(), size, align);
      addr := AllocFromHeap(size, align);
      if addr == 0 { return 0, sizeReq, HeapEmpty; }
      return addr, 0, None_;
    }

    /** Mem_SegAlloc on the heap. */
    method AllocFromHeap(size: u32, align: u32) returns (addr: u32)
      requires Valid() && segs != [] && 0 < size && 0 < align
      modifies `table, heap`segAddrNextAvail, heap`segSizeRem, heap`segBlocks
      ensures Valid() && table.heap == old(table.heap) < |old(table.segs)|
      ensures var (s, a) := SegAlloc(old(table.segs[table.heap]), size, align);
              addr == a && table == old(table).(segs := old(table.segs)[old(table.heap) := s])
    {
      hide SegAlloc, Ascending;
      HeapEntry();
      SegAllocSpec(heap.AsSeg(), size, align);
      addr := heap.AllocFromSeg(size, align);
      SyncSeg(table.heap);
    }

    /** Mem_SegGetSizeRem; a pool without a segment of its own counts against the heap. */
    method SegGetSizeRem(pool: MemPool?, align: u32) returns (rem: u32, err: LibErr)
      requires pool != null && pool.kind != KindNone ==> pool.segHead != null
      ensures err == None_ <==> 1 <= align <= 4096 && pool != null && pool.kind != KindNone
      ensures if align < 1 || align > 4096 then rem == 0 && err == InvalidMemAlign
              else if pool == null then rem == 0 && err == NullPtr
              else if pool.kind == KindNone then rem == 0 && err == InvalidPool
              else (rem, err) == GetSizeRem((if pool.segHead.segAddr != 0 then pool.segHead else heap).AsSeg(), align)
    {
      if align < 1 { return 0, InvalidMemAlign; }
      if align > ALIGN_MAX { return 0, InvalidMemAlign; }
      if pool == null { return 0, NullPtr; }
      if pool.kind == KindNone { return 0, InvalidPool; }
      var seg := pool.segHead;
      var segSize := if seg.segAddr != 0 then seg else heap;
      rem := segSize.segSizeRem;
      var addr := segSize.segAddrNextAvail;
      if align > 1 {
        var addrMod := addr % align;
        var remMod := if addrMod > 0 then align - addrMod else 0;
        rem := Diff(rem, remMod);
      }
      err := None_;
    }

    method HeapGetSizeRem(align: u32) returns (rem: u32, err: LibErr)
      requires Valid() && segs != [] && heap.kind == KindHeap && heap.segHead == heap
      ensures err == None_ <==> 1 <= align <= 4096
      ensures (rem, err) == GetSizeRem(table.segs[table.heap], align)
    {
      assert table.segs[table.heap] == heap.AsSeg();
      rem, err := SegGetSizeRem(heap, align);
    }

    // ---- Mem_PoolCreate --------------------------------------------------------------------

    lemma SegAt(i: nat)
      requires Valid() && i < |segs|
      ensures segs[i].segNext == At(segs, i + 1) && table.segs[i] == segs[i].AsSeg() && SegInv(segs[i].AsSeg())
      ensures |table.segs| == |segs|
    {
    }

    lemma FirstSeg()
      requires Valid()
      ensures poolTbl == At(segs, 0) && |table.segs| == |segs|
    {
    }

    /** The search loop.  seg is the listed segment that is the range itself; prev and next
        are the neighbours of the place where the search stopped. */
    method Search(base: u32, last: u32, size: u32) returns (seg: MemPool?, prev: MemPool?, next: MemPool?, overlap: bool)
      requires Valid() && 0 < size && last == base + size - 1
      ensures var r := SearchFrom(table.segs, 0, base, size);
              (overlap <==> r == Overlap) &&
              (r.Found? ==> seg == segs[r.i]) &&
              (r.Insert? ==> seg == null && prev == Before(segs, r.i) && next == At(segs, r.i))
    {
      hide Valid, Relate, SegInv;
      seg, prev, next, overlap := null, null, poolTbl, false;
      ghost var i: nat := 0;
      FirstSeg();
      while next != null
        invariant i <= |segs| && |table.segs| == |segs|
        invariant prev == Before(segs, i) && next == At(segs, i) && seg == null && !overlap
        invariant SearchFrom(table.segs, 0, base, size) == SearchFrom(table.segs, i, base, size)
        decreases |segs| - i
      {
        SegAt(i);
        var rel := next.RelateTo(base, last, size);
        if rel == Identical {
          seg := next;
          break;
        } else if rel == EndsBefore {
          break;
        } else if rel == Overlapping {
          overlap := true;
          return;
        }
        prev := next;
        next := next.segNext;
        i := i + 1;
      }
    }

    /** The checks for a pool in the heap. */
    method CheckHeap(q: Request) returns (err: LibErr, reqd: u32, start: u32, sizePool: u32, sizePtrs: u32, sizeTot: u32)
      requires Valid() && segs != [] && 0 < q.align
      ensures PlanMatches(PlanInHeap(table, q), err, reqd, start, sizePool, sizePtrs, sizeTot)
    {
      hide CalcTotSize, Wrap, Valid, Diff;
      HeapEntry();
      err, reqd, start, sizePool, sizePtrs, sizeTot := None_, 0, 0, 0, 0, 0;
      var addrPtrs := heap.segAddrNextAvail;
      sizePtrs := CalcTotSize(addrPtrs, q.nbr, PTR, PTR);
      if sizePtrs < 1 { err := HeapOvf; return; }
      start := Wrap(addrPtrs + sizePtrs);
      sizePool := CalcTotSize(start, q.nbr, q.size, q.align);
      if sizePool < 1 { err := HeapOvf; return; }
      sizeTot := Wrap(sizePtrs + sizePool);
      if sizeTot < sizePtrs || sizeTot < sizePool { err := HeapOvf; return; }
      var sizeRem := heap.segSizeRem;
      if sizeTot > sizeRem { err, reqd := HeapEmpty, Diff(sizeTot, sizeRem); return; }
    }

    /** The checks for a pool in dedicated memory. */
    method CheckSeg(q: Request, seg: MemPool, ghost target: Target)
      returns (err: LibErr, reqd: u32, start: u32, sizePool: u32, sizePtrs: u32)
      requires Valid() && segs != [] && 0 < q.align && Placeable(table, target) && seg.AsSeg() == TargetSeg(table, target, q)
      ensures PlanMatches(PlanInSeg(table, q, target), err, reqd, start, sizePool, sizePtrs, 0)
    {
      hide CalcTotSize, Valid, Diff;
      HeapEntry();
      err, reqd, start, sizePool, sizePtrs := None_, 0, 0, 0, 0;
      var addrPtrs := heap.segAddrNextAvail;
      sizePtrs := CalcTotSize(addrPtrs, q.nbr, PTR, PTR);
      if sizePtrs < 1 { err := HeapOvf; return; }
      var sizeRem := heap.segSizeRem;
      if sizePtrs > sizeRem { err, reqd := HeapEmpty, Diff(sizePtrs, sizeRem); return; }
      start := seg.segAddrNextAvail;
      sizePool := CalcTotSize(start, q.nbr, q.size, q.align);
      if sizePool < 1 { err := SegOvf; return; }
      sizeRem := seg.segSizeRem;
      if sizePool > sizeRem { err, reqd := SegEmpty, Diff(sizePool, sizeRem); return; }
    }

    /** The allocation loop.  Stores beyond the end of the pointer table, which the code
        would make when 4 * blk_nbr wraps, are counted instead of made. */
    method AllocBlocks(seg: MemPool, q: Request, ptrs: array<u32>) returns (done: u32, stray: nat, ghost addrs: seq<u32>)
      requires SegInv(seg.AsSeg()) && 0 < q.size && 0 < q.align
      modifies seg`segAddrNextAvail, seg`segSizeRem, seg`segBlocks, ptrs
      ensures (seg.AsSeg(), addrs) == AllocRun(old(seg.AsSeg()), q.nbr, q.size, q.align) && done == |addrs| <= q.nbr
      ensures stray == Max(0, |addrs| - ptrs.Length)
      ensures forall i :: 0 <= i < |addrs| && i < ptrs.Length ==> ptrs[i] == addrs[i]
    {
      hide SegAlloc, SegInv;
      ghost var s := seg.AsSeg();
      done, stray, addrs := 0, 0, [];
      while done < q.nbr
        invariant done <= q.nbr && |addrs| == done
        invariant (seg.AsSeg(), addrs) == AllocRun(s, done, q.size, q.align)
        invariant stray == Max(0, done - ptrs.Length)
        invariant forall i :: 0 <= i < |addrs| && i < ptrs.Length ==> ptrs[i] == addrs[i]
        decreases q.nbr - done
      {
        var addr := seg.AllocFromSeg(q.size, q.align);
        if addr == 0 {
          AllocFailed(s, done, q, seg.AsSeg());
          return;
        }
        if done < ptrs.Length {
          ptrs[done] := addr;
        } else {
          stray := stray + 1;
        }
        done, addrs := done + 1, addrs + [addr];
      }
    }

    // ---- Linking ----------------------------------------------------------------------------

    lemma ChainsDisjoint(h: MemPool, seg: MemPool)
      requires Shape() && h in chains && seg in chains && h != seg
      ensures NoneIn(chains[h], chains[seg]) && forall p :: p in chains[h] ==> p in repr
    {
      assert ChainOk(h) && ChainOk(seg);
    }

    lemma ChainLinks(h: MemPool)
      requires Shape() && h in chains
      ensures PoolsLinked(chains[h]) && chains[h][0] == h && forall p :: p in chains[h] ==> p in repr
    {
      assert ChainOk(h);
    }

    twostate predicate PoolLinksKept(p: MemPool)
      reads p
    {
      p.poolPrev == old(p.poolPrev) && p.poolNext == old(p.poolNext) && p.segHead == old(p.segHead)
    }

    /** Outside c, no pool that existed before has changed its chain links. */
    twostate predicate ChainLinksKept(pools: set<MemPool>, new c: seq<MemPool>)
      reads pools
    {
      forall p: MemPool :: p in pools && p !in c ==> PoolLinksKept(p)
    }

    /** The chains of other segments are not touched by relinking the chain c. */
    twostate lemma ChainKept(h: MemPool, new c: seq<MemPool>)
      requires h in old(chains) && h in chains && chains[h] == old(chains[h]) && old(ChainOk(h))
      requires old(repr) <= repr && NoneIn(chains[h], c) && ChainLinksKept(old(repr), c)
      ensures ChainOk(h)
    {
      var c' := chains[h];
      forall i | 0 <= i < |c'|
        ensures c'[i].poolPrev == Before(c', i) && c'[i].poolNext == After(c', i) && c'[i].segHead == c'[0]
      {
        assert PoolLinksKept(c'[i]);
      }
    }

    twostate lemma LinkSegShape(new pool: MemPool, c: seq<MemPool>, new d: seq<MemPool>)
      requires old(Shape()) && c == old(segs) && pool !in old(repr)
      requires (forall p :: p in segs ==> p in c || p == pool) && (forall p :: p in c ==> p in segs) && pool in segs
      requires SegsLinked(segs) && poolTbl == At(segs, 0)
      requires chains == old(chains)[pool := d] && repr == old(repr) + {pool} && PoolsLinked(d) && d == [pool]
      requires ChainLinksKept(old(repr), d)
      ensures Shape()
    {
      hide SegsLinked, PoolsLinked, ChainLinksKept;
      forall h | h in chains ensures h in segs && ChainOk(h) {
        if h != pool {
          assert old(ChainOk(h));
          ChainKept(h, d);
        }
      }
    }

    lemma InsertedMembers(c: seq<MemPool>, k: nat, pool: MemPool, d: seq<MemPool>)
      requires k <= |c| && d == c[..k] + [pool] + c[k..]
      ensures (forall p :: p in d ==> p in c || p == pool) && (forall p :: p in c ==> p in d) && pool in d
      ensures At(d, 0) == if k == 0 then pool else At(c, 0)
    {
      assert d[k] == pool;
      forall p | p in c ensures p in d {
        var i :| 0 <= i < |c| && c[i] == p;
        assert d[if i < k then i else i + 1] == p;
      }
    }

    lemma InsertedEntries(k: nat, pool: MemPool)
      requires Represents() && k <= |segs| && segs != []
      ensures Entries(Place(table, Fresh(k), pool.AsSeg()), segs[..k] + [pool] + segs[k..], heap)
    {
      var t' := Place(table, Fresh(k), pool.AsSeg());
      var d := segs[..k] + [pool] + segs[k..];
      forall i | 0 <= i < |d| ensures t'.segs[i] == d[i].AsSeg() {
        if i > k {
          assert t'.segs[i] == table.segs[i - 1] && d[i] == segs[i - 1];
        }
      }
    }

    lemma LinkSegReady(pool: MemPool, prev: MemPool?, k: nat, e: seq<MemPool>)
      requires Valid() && segs != [] && pool !in repr && k <= |segs| && prev == Before(segs, k)
      requires e == segs[..k] + [pool] + segs[k..]
      ensures AllIn(segs, repr) && SegsLinked(segs) && (forall i, j :: 0 <= i < j < |segs| ==> segs[i] != segs[j]) && pool !in segs
      ensures poolTbl == At(segs, 0) && (prev == null <==> k == 0)
      ensures k <= |table.segs| && Entries(Place(table, Fresh(k), pool.AsSeg()), e, heap)
      ensures (forall p :: p in e ==> p in segs || p == pool) && (forall p :: p in segs ==> p in e) && pool in e
      ensures At(e, 0) == if prev == null then pool else poolTbl
    {
      InsertedEntries(k, pool);
      InsertedMembers(segs, k, pool, e);
    }

    /** Lists pool as a new segment between prev and next. */
    method LinkSeg(pool: MemPool, prev: MemPool?, next: MemPool?, ghost k: nat)
      requires Valid() && segs != [] && pool !in repr && k <= |segs|
      requires prev == Before(segs, k) && next == At(segs, k)
      requires |table.segs| == |segs| && TableInv(Place(table, Fresh(k), pool.AsSeg()))
      requires pool.poolPrev == null && pool.poolNext == null
      modifies `poolTbl, `segs, `table, `chains, `repr
      modifies pool`segPrev, pool`segNext, pool`segHead, repr`segNext, repr`segPrev
      ensures Valid() && pool.segHead == pool
      ensures segs == old(segs)[..k] + [pool] + old(segs)[k..]
      ensures table == Place(old(table), Fresh(k), pool.AsSeg())
      ensures chains == old(chains)[pool := [pool]] && repr == old(repr) + {pool}
    {
      hide TableInv, SegInv, Shape, SegsLinked, PoolsLinked, Place, Entries, ChainLinksKept, Before, After, At, AllIn;
      ghost var c := segs;
      ghost var e := c[..k] + [pool] + c[k..];
      ghost var d := [pool];
      LinkSegReady(pool, prev, k, e);
      ghost var t := Place(table, Fresh(k), pool.AsSeg());
      PutSeg(pool, prev, next, c, k, e, repr);
      assert Entries(t, e, heap);
      segs, table, chains, repr := e, t, chains[pool := d], repr + {pool};
      SinglePoolLinked(pool, d);
      LinkSegShape(pool, c, d);
    }

    /** The link updates for a new segment. */
    method PutSeg(pool: MemPool, prev: MemPool?, next: MemPool?, ghost c: seq<MemPool>, ghost k: nat, ghost e: seq<MemPool>, ghost pools: set<MemPool>)
      requires SegsLinked(c) && k <= |c| && prev == Before(c, k) && next == At(c, k) && AllIn(c, pools) && pool !in pools
      requires e == c[..k] + [pool] + c[k..] && poolTbl == At(c, 0) && pool !in c && (prev == null <==> k == 0)
      requires At(e, 0) == if prev == null then pool else poolTbl
      modifies `poolTbl, pool`segPrev, pool`segNext, pool`segHead, pools`segNext, pools`segPrev
      ensures SegsLinked(e) && poolTbl == At(e, 0) && pool.segHead == pool && ChainLinksKept(pools, [pool])
    {
      hide Before, After, At, AllIn, ChainLinksKept;
      SetSegLinks(pool, prev, next, c, k, pools);
      InsertSeg(c, k, pool, e);
      if prev == null {
        poolTbl := pool;
      }
    }

    lemma SinglePoolLinked(pool: MemPool, d: seq<MemPool>)
      requires d == [pool] && pool.poolPrev == null && pool.poolNext == null && pool.segHead == pool
      ensures PoolsLinked(d)
    {
    }

    /** Only neighbours of position k are its neighbours. */
    lemma NeighboursOf(c: seq<MemPool>, k: nat, prev: MemPool?, next: MemPool?)
      requires SegsLinked(c) && k <= |c| && prev == Before(c, k) && next == At(c, k)
      ensures forall i :: 0 <= i < |c| ==> (c[i] == prev <==> i + 1 == k) && (c[i] == next <==> i == k)
      ensures forall i :: 0 <= i < |c| ==> c[i].segPrev == Before(c, i) && c[i].segNext == After(c, i)
      ensures (prev == null || prev in c) && (next == null || next in c)
    {
    }

    method SetSegLinks(pool: MemPool, prev: MemPool?, next: MemPool?, ghost c: seq<MemPool>, ghost k: nat, ghost pools: set<MemPool>)
      requires SegsLinked(c) && k <= |c| && prev == Before(c, k) && next == At(c, k) && AllIn(c, pools) && pool !in pools
      modifies pool`segPrev, pool`segNext, pool`segHead, pools`segNext, pools`segPrev
      ensures pool.segPrev == Before(c, k) && pool.segNext == At(c, k) && pool.segHead == pool
      ensures forall i :: 0 <= i < |c| ==> c[i].segPrev == if i == k then pool else Before(c, i)
      ensures forall i :: 0 <= i < |c| ==> c[i].segNext == if i + 1 == k then pool else After(c, i)
      ensures ChainLinksKept(pools, [pool])
    {
      hide SegsLinked, Before, At, After;
      NeighboursOf(c, k, prev, next);
      pool.segPrev := prev;
      pool.segNext := next;
      if prev != null {
        prev.segNext := pool;
      }
      if next != null {
        next.segPrev := pool;
      }
      pool.segHead := pool;
    }

    ghost predicate OthersApart(seg: MemPool, c: seq<MemPool>)
      reads `chains
    {
      forall h :: h in chains && h != seg ==> NoneIn(chains[h], c)
    }

    twostate lemma LinkPoolShape(new pool: MemPool, new seg: MemPool, c: seq<MemPool>, new d: seq<MemPool>)
      requires old(Shape()) && seg in old(chains) && c == old(chains[seg]) && pool !in old(repr)
      requires segs == old(segs) && poolTbl == old(poolTbl)
      requires chains == old(chains)[seg := d] && repr == old(repr) + {pool}
      requires PoolsLinked(d)
      requires d[0] == seg
      requires AllIn(d, repr)
      requires OthersApart(seg, c)
      requires ChainLinksKept(old(repr), c)
      requires SegsLinked(segs)
      ensures Shape()
    {
      hide PoolsLinked, ChainLinksKept, NoneIn, SegsLinked;
      forall h | h in chains ensures h in segs && ChainOk(h) {
        if h != seg {
          assert old(ChainOk(h));
          ChainKept(h, c);
        }
      }
    }

    lemma LinkPoolReady(pool: MemPool, seg: MemPool, c: seq<MemPool>, d: seq<MemPool>)
      requires Shape() && pool !in repr && seg in chains && c == chains[seg]
      requires c != [] ==> d == [seg, pool] + c[1..]
      ensures PoolsLinked(c) && c[0] == seg && AllIn(c, repr) && AllIn(d, repr + {pool}) && SegsLinked(segs)
      ensures OthersApart(seg, c)
    {
      ChainLinks(seg);
      forall h | h in chains && h != seg ensures NoneIn(chains[h], c) {
        ChainsDisjoint(h, seg);
      }
      assert forall p :: p in d ==> p == pool || p in c;
    }

    /** Puts pool into the chain of a listed segment, right behind the segment head. */
    method LinkPool(pool: MemPool, seg: MemPool)
      requires Valid() && pool !in repr && seg in segs && seg in chains && chains[seg] != []
      modifies `chains, `repr, pool`poolPrev, pool`poolNext, pool`segHead
      modifies repr`poolNext, repr`poolPrev
      ensures Valid() && pool.segHead == seg
      ensures chains == old(chains)[seg := [seg, pool] + old(chains[seg])[1..]] && repr == old(repr) + {pool}
    {
      hide Represents, Shape, NoneIn, AllIn, SegsLinked, PoolsLinked, ChainLinksKept, TableInv, SegInv;
      ghost var c := chains[seg];
      ghost var d := [seg, pool] + c[1..];
      LinkPoolReady(pool, seg, c, d);
      SetPoolLinks(pool, seg, c, repr);
      chains, repr := chains[seg := d], repr + {pool};
      LinkPoolShape(pool, seg, c, d);
    }

    method SetPoolLinks(pool: MemPool, seg: MemPool, ghost c: seq<MemPool>, ghost pools: set<MemPool>)
      requires PoolsLinked(c) && seg == c[0] && AllIn(c, pools) && pool !in pools
      modifies pool`poolPrev, pool`poolNext, pool`segHead, pools`poolNext, pools`poolPrev
      ensures PoolsLinked([seg, pool] + c[1..]) && pool.segHead == seg
      ensures ChainLinksKept(pools, c)
    {
      var next := seg.poolNext;
      pool.poolPrev := seg;
      pool.poolNext := next;
      seg.poolNext := pool;
      if next != null {
        next.poolPrev := pool;
      }
      pool.segHead := seg;
      InsertPool(c, pool, [seg, pool] + c[1..]);
    }

    // ---- Mem_PoolCreate: the allocations ------------------------------------------------------

    /** The segment a plan names, as an object. */
    ghost predicate Targets(plan: Plan, q: Request, pool: MemPool, seg: MemPool, prev: MemPool?, next: MemPool?)
      requires plan.Go?
      reads `segs, pool`segAddr, pool`segSizeTot, pool`segAddrNextAvail, pool`segSizeRem, pool`segBlocks
    {
      match plan.target
      case Listed(i) => i < |segs| && seg == segs[i]
      case Fresh(i) => i <= |segs| && seg == pool && pool.AsSeg() == FreshSeg(q) && prev == Before(segs, i) && next == At(segs, i)
    }

    /** The lists after pool has been put where the plan says. */
    ghost predicate Linked(segs': seq<MemPool>, chains': map<MemPool, seq<MemPool>>, target: Target, pool: MemPool)
      reads `segs, `chains, pool`segHead
    {
      match target
      case Fresh(i) =>
        i <= |segs'| && segs == segs'[..i] + [pool] + segs'[i..] && chains == chains'[pool := [pool]] && pool.segHead == pool
      case Listed(i) =>
        i < |segs'| && segs == segs' && segs'[i] in chains' && chains'[segs'[i]] != [] &&
        chains == chains'[segs'[i] := [segs'[i], pool] + chains'[segs'[i]][1..]] && pool.segHead == segs'[i]
    }

    lemma ListedSegs()
      requires Valid()
      ensures (forall i, j :: 0 <= i < j < |segs| ==> segs[i] != segs[j]) && (forall p :: p in segs ==> p in repr)
    {
    }

    /** The pool blocks, once the pointer table has been taken: on a listed segment the
        table follows, a new segment is not in the table yet. */
    method TakeBlocks(seg: MemPool, q: Request, ptrs: array<u32>, ghost target: Target)
      returns (done: u32, stray: nat, ghost addrs: seq<u32>)
      requires Valid() && segs != [] && 0 < q.size && 0 < q.align && SegInv(seg.AsSeg())
      requires if target.Listed? then target.i < |segs| && seg == segs[target.i] else seg !in repr
      requires var s' := AllocRun(seg.AsSeg(), q.nbr, q.size, q.align).0;
               SegInv(s') && s'.base == seg.segAddr && s'.tot == seg.segSizeTot
      modifies `table, seg`segAddrNextAvail, seg`segSizeRem, seg`segBlocks, ptrs
      ensures Valid()
      ensures (seg.AsSeg(), addrs) == AllocRun(old(seg.AsSeg()), q.nbr, q.size, q.align) && done == |addrs| <= q.nbr
      ensures |old(table).segs| == |segs| == |table.segs|
      ensures table == if target.Listed? then Place(old(table), target, seg.AsSeg()) else old(table)
      ensures stray == Max(0, |addrs| - ptrs.Length)
      ensures forall i :: 0 <= i < |addrs| && i < ptrs.Length ==> ptrs[i] == addrs[i]
    {
      hide SegInv, TableInv, AllocRun, Shape;
      ListedSegs();
      done, stray, addrs := AllocBlocks(seg, q, ptrs);
      if target.Listed? {
        SyncSeg(target.i);
      }
    }

    /** Lists the created pool: as a new segment, or in the chain of its segment. */
    method Link(pool: MemPool, seg: MemPool, prev: MemPool?, next: MemPool?, ghost target: Target)
      requires Valid() && segs != [] && pool !in repr && |table.segs| == |segs|
      requires pool.poolPrev == null && pool.poolNext == null
      requires match target
               case Listed(i) => i < |segs| && seg == segs[i]
               case Fresh(i) => i <= |segs| && seg == pool && prev == Before(segs, i) && next == At(segs, i)
                                && TableInv(Place(table, target, pool.AsSeg()))
      modifies `poolTbl, `segs, `table, `chains, `repr
      modifies pool`segPrev, pool`segNext, pool`segHead, pool`poolPrev, pool`poolNext
      modifies repr`segPrev, repr`segNext, repr`poolPrev, repr`poolNext
      ensures Valid() && Linked(old(segs), old(chains), target, pool) && repr == old(repr) + {pool}
      ensures table == if target.Fresh? then Place(old(table), target, pool.AsSeg()) else old(table)
      ensures target.Listed? ==> pool.segPrev == old(pool.segPrev) && pool.segNext == old(pool.segNext)
    {
      hide TableInv, Represents, Place;
      if seg == pool {
        FreshTarget(seg, target);
        LinkSeg(pool, prev, next, target.i);
      } else {
        ListedTarget(seg, target);
        LinkPool(pool, seg);
      }
    }

    /** Lists and configures the created pool. */
    method Finish(pool: MemPool, seg: MemPool, prev: MemPool?, next: MemPool?, ghost target: Target,
                  start: u32, sizePool: u32, ptrAddr: u32, ptrs: array<u32>, q: Request)
      requires Valid() && segs != [] && pool !in repr && |table.segs| == |segs|
      requires pool.poolPrev == null && pool.poolNext == null
      requires match target
               case Listed(i) => i < |segs| && seg == segs[i]
               case Fresh(i) => i <= |segs| && seg == pool && prev == Before(segs, i) && next == At(segs, i)
                                && TableInv(Place(table, target, pool.AsSeg()))
      modifies `poolTbl, `segs, `table, `chains, `repr, pool
      modifies repr`segPrev, repr`segNext, repr`poolPrev, repr`poolNext
      ensures Valid() && Linked(old(segs), old(chains), target, pool) && repr == old(repr) + {pool}
      ensures table == if target.Fresh? then Place(old(table), target, old(pool.AsSeg())) else old(table)
      ensures pool.kind == KindPool && pool.poolPtrs == ptrs && pool.poolPtrsAddr == ptrAddr && pool.poolSize == sizePool
      ensures target.Listed? ==> pool.AsSeg() == old(pool.AsSeg()) && pool.segPrev == old(pool.segPrev) && pool.segNext == old(pool.segNext)
      ensures pool.AsPool() == Pool(start, Wrap(start + sizePool - 1), q.align, q.size, q.nbr, q.nbr, ptrs[..])
      ensures ptrs[..] == old(ptrs[..])
    {
      hide Valid, Linked, Place, TableInv, Wrap, Before, At;
      Link(pool, seg, prev, next, target);
      pool.Configure(start, sizePool, ptrAddr, ptrs, q);
    }

    lemma FreshTarget(seg: MemPool, target: Target)
      requires Valid() && seg !in repr && (target.Listed? ==> target.i < |segs| && seg == segs[target.i])
      ensures target.Fresh?
    {
    }

    lemma ListedTarget(seg: MemPool, target: Target)
      requires Valid() && target.Listed? && target.i < |segs| && seg == segs[target.i]
      ensures seg in segs && seg in chains && chains[seg] != []
    {
      ChainLinks(seg);
    }

    /** What the allocations start from. */
    lemma CommitStart(q: Request)
      requires Valid() && segs != [] && MakePlan(table, q).Go?
      ensures 0 < q.align && 0 < q.size && 0 < q.nbr && 0 < Wrap(q.nbr * PTR) && TableInv(table)
      ensures table.heap < |table.segs| == |segs| && segs[table.heap] == heap && Placeable(table, MakePlan(table, q).target)
      ensures table.segs[table.heap] == heap.AsSeg() && heap in repr && (forall p :: p in segs ==> p in repr)
      ensures PoolTable.PoolCreate(table, q) == PoolTable.Commit(table, q, MakePlan(table, q))
    {
      PlanSpec(table, q);
      PtrTableSize(table.segs[table.heap].avail, q.nbr);
    }

    /** The object the blocks are taken from holds the source segment. */
    lemma SourceObject(q: Request, plan: Plan, pool: MemPool, seg: MemPool, prev: MemPool?, next: MemPool?, t: Table)
      requires Valid() && plan.Go? && Targets(plan, q, pool, seg, prev, next) && Placeable(t, plan.target)
      requires t.heap < |t.segs| && table == AfterPtrs(t, q).0
      ensures seg.AsSeg() == Source(t, q, plan)
    {
    }

    twostate predicate ListsKept()
      reads `poolTbl, `segs, `chains, `repr
    {
      poolTbl == old(poolTbl) && segs == old(segs) && chains == old(chains) && repr == old(repr)
    }

    /** The lists now have pool where the plan for the table t puts it. */
    twostate predicate ListedNow(t: Table, q: Request, pool: MemPool)
      reads `segs, `chains, `repr, pool`segHead
    {
      (t.segs == [] || t.heap < |t.segs|) && MakePlan(t, q).Go? &&
      Linked(old(segs), old(chains), MakePlan(t, q).target, pool) && repr == old(repr) + {pool}
    }

    /** The call on table t has ended as the transformation of the table says; a successful one
        stores no pointer beyond the pointer table exactly if 4 * blk_nbr does not wrap. */
    ghost predicate Created(t: Table, q: Request, pool: MemPool, reqd: u32, err: LibErr, stray: nat)
      reads `table, pool, pool.poolPtrs
    {
      (t.segs == [] || t.heap < |t.segs|) &&
      var r := PoolTable.PoolCreate(t, q);
      err == r.err && reqd == r.reqd && table == r.tbl && stray == r.stray &&
      (err == None_ ==> pool.kind == KindPool && pool.poolPtrs != null && OtherFields(MakePlan(t, q), pool) &&
                        r.created == NewPool(pool.poolPtrsAddr, pool.AsPool()) &&
                        (stray == 0 <==> q.nbr * 4 < U32))
    }

    /** The fields of a created pool that no operation on its blocks reads; a pool that shares a
        listed segment has none of its own. */
    ghost predicate OtherFields(plan: Plan, pool: MemPool)
      reads pool
    {
      plan.Go? && pool.poolSize == plan.sizePool &&
      (plan.target.Listed? ==> pool.AsSeg() == Seg(0, 0, 0, 0, []) && pool.segPrev == null && pool.segNext == null)
    }

    /** A created pool is ready for the operations on its blocks, all of them free, exactly
        under the condition for a sound block table. */
    lemma CreatedPoolReady(t: Table, q: Request, pool: MemPool, reqd: u32, stray: nat)
      requires TableInv(t) && Created(t, q, pool, reqd, None_, stray)
      ensures MakePlan(t, q).Go? && 0 < q.align && pool.poolPtrs != null
      ensures PoolInv(pool.AsPool())
              <==> q.nbr * PTR < U32
                   && (Aliased(t, q, MakePlan(t, q)) ==> MakePlan(t, q).sizePtrs <= Gap(MakePlan(t, q).start, q.align))
      ensures PoolInv(pool.AsPool()) ==> pool.Usable() && Held(pool.AsPool()) == {}
    {
      var s, addrs := SuccessSpec(t, q);
      CreatedPoolSoundIff(t, q);
    }

    /** The blocks, the lists and the configuration, once the pointer table ptrs has been
        taken from the heap of the table t. */
    method CommitBlocks(pool: MemPool, q: Request, seg: MemPool, prev: MemPool?, next: MemPool?,
                        start: u32, sizePool: u32, ptrAddr: u32, ptrs: array<u32>, ghost t: Table, ghost plan: Plan)
      returns (reqd: u32, err: LibErr, stray: nat)
      requires Valid() && segs != [] && pool !in repr && pool.Unused()
      requires TableInv(t) && t.segs != [] && plan == MakePlan(t, q) && plan.Go? && plan.start == start && plan.sizePool == sizePool
      requires (table, ptrAddr) == AfterPtrs(t, q) && ptrAddr != 0 && Targets(plan, q, pool, seg, prev, next)
      requires plan.target.Listed? ==> pool.AsSeg() == Seg(0, 0, 0, 0, [])
      requires ptrs.Length == Wrap(q.nbr * PTR) / 4
      modifies `poolTbl, `segs, `table, `chains, `repr, pool, ptrs
      modifies repr`segPrev, repr`segNext, repr`poolPrev, repr`poolNext, repr`segAddrNextAvail, repr`segSizeRem, repr`segBlocks
      ensures Valid()
      ensures Created(t, q, pool, reqd, err, stray)
      ensures err != None_ ==> ListsKept() && pool.Unused() && pool.AsSeg() == LeftBy(t, q, old(pool.AsSeg()))
      ensures err == None_ ==> ListedNow(t, q, pool) && pool.poolPtrs == ptrs
    {
      hide Valid, TableInv, SegInv, MakePlan, AllocRun, SegAlloc, Place, CalcTotSize, PoolTable.Commit, PoolTable.PoolCreate, Source, Stumbles, Linked, Wrap, AfterPtrs;
      PlanSpec(t, q);
      CommittedPlan(t, q);
      OutcomeOfCommit(t, q, plan);
      SlotsSpec(q);
      CommitFacts(t, q);
      AfterPtrsTable(t, q);
      FirstSeg();
      SourceObject(q, plan, pool, seg, prev, next, t);
      assert (plan.target.Listed? ==> seg in repr) && (plan.target.Fresh? ==> seg == pool) by { ListedSegs(); }
      var done: u32;
      ghost var addrs: seq<u32>;
      done, stray, addrs := TakeBlocks(seg, q, ptrs, plan.target);
      if done < q.nbr {
        var need := CalcTotSize(seg.segAddrNextAvail, Wrap(q.nbr - done), q.size, q.align);
        reqd := StillNeeded(need, seg.segSizeRem);
        err := SegEmpty;
        assert plan.target.Listed? ==> pool.AsSeg() == old(pool.AsSeg());
        return;
      }
      FilledTable(ptrs[..], addrs, q);
      Finish(pool, seg, prev, next, plan.target, start, sizePool, ptrAddr, ptrs, q);
      reqd, err := 0, None_;
    }

    /** Everything after the checks: pointer table, pool blocks, lists, configuration. */
    method Commit(pool: MemPool, q: Request, seg: MemPool, prev: MemPool?, next: MemPool?,
                  start: u32, sizePool: u32, sizeTot: u32)
      returns (reqd: u32, err: LibErr, stray: nat)
      requires Valid() && segs != [] && pool !in repr && pool.Unused()
      requires var plan := MakePlan(table, q);
               plan.Go? && Targets(plan, q, pool, seg, prev, next) && (plan.target.Listed? ==> pool.AsSeg() == Seg(0, 0, 0, 0, [])) &&
               plan.start == start && plan.sizePool == sizePool && plan.sizeTot == sizeTot
      modifies `poolTbl, `segs, `table, `chains, `repr, pool
      modifies repr`segPrev, repr`segNext, repr`poolPrev, repr`poolNext, repr`segAddrNextAvail, repr`segSizeRem, repr`segBlocks
      ensures Valid()
      ensures Created(old(table), q, pool, reqd, err, stray)
      ensures err != None_ ==> ListsKept() && pool.Unused() && pool.AsSeg() == LeftBy(old(table), q, old(pool.AsSeg()))
      ensures err == None_ ==> ListedNow(old(table), q, pool) && fresh(pool.poolPtrs)
    {
      hide Valid, TableInv, SegInv, MakePlan, AllocRun, SegAlloc, CalcTotSize, PoolTable.Commit, PoolTable.PoolCreate, Source, Linked, Wrap, OtherFields;
      ghost var t := table;
      CommitStart(q);
      ghost var plan := MakePlan(t, q);
      var sizePtrs := Wrap(q.nbr * PTR);
      var ptrAddr := AllocFromHeap(sizePtrs, PTR);
      if ptrAddr == 0 {
        OutcomeOfCommit(t, q, plan);
        AfterPtrsSpec(t, q);
        HeapEntry();
        var need := if q.base == 0 then sizeTot else sizePtrs;
        reqd := StillNeeded(need, heap.segSizeRem);
        return reqd, HeapEmpty, 0;
      }
      var ptrs := new u32[sizePtrs / 4];
      reqd, err, stray := CommitBlocks(pool, q, seg, prev, next, start, sizePool, ptrAddr, ptrs, t, plan);
    }

    // ---- Mem_PoolCreate: the whole function ----------------------------------------------------

    /** The argument checks and the check that there is a heap. */
    method CheckArgs(q: Request) returns (err: LibErr)
      requires Valid()
      ensures (err == None_ <==> ArgsOk(table, q)) && (table.segs == [] || table.heap < |table.segs|)
      ensures err != None_ ==> PoolTable.PoolCreate(table, q) == Outcome(table, err, 0, NoPool, 0)
      ensures err == if q.base != 0 && q.memSize == 0 then InvalidSegSize
                     else if q.nbr == 0 then InvalidBlkNbr
                     else if q.size == 0 then InvalidBlkSize
                     else if q.align == 0 then InvalidBlkAlign
                     else if poolTbl == null then HeapNotFound else None_
    {
      hide TableInv, Shape;
      FirstSeg();
      if q.base != 0 {
        if q.memSize < 1 { return InvalidSegSize; }
      }
      if q.nbr < 1 { return InvalidBlkNbr; }
      if q.size < 1 { return InvalidBlkSize; }
      if q.align < 1 { return InvalidBlkAlign; }
      if poolTbl == null { return HeapNotFound; }
      err := None_;
    }

    lemma CheckedPlan(q: Request)
      requires Valid() && ArgsOk(table, q)
      ensures segs != [] && 0 < q.align && table.heap < |table.segs| == |segs| && (forall p :: p in segs ==> p in repr) && heap in repr
      ensures q.base == 0 ==> MakePlan(table, q) == PlanInHeap(table, q)
      ensures q.base != 0 && Wrap(q.base + q.memSize - 1) < q.base ==> MakePlan(table, q) == Reject(InvalidBlkAddr, 0)
      ensures q.base != 0 && Wrap(q.base + q.memSize - 1) >= q.base ==>
                Wrap(q.base + q.memSize - 1) == q.base + q.memSize - 1 &&
                MakePlan(table, q) == match SearchFrom(table.segs, 0, q.base, q.memSize)
                                      case Overlap => Reject(InvalidSegOverlap, 0)
                                      case Found(i) => PlanInSeg(table, q, Listed(i))
                                      case Insert(i) => PlanInSeg(table, q, Fresh(i))
    {
      hide MakePlan, SegInv, PlanInHeap, PlanInSeg, SearchFrom, Wrap, SegsLinked;
      PlanAfterArgs(table, q);
    }

    lemma RejectedPlan(q: Request, err: LibErr, reqd: u32)
      requires Valid() && MakePlan(table, q) == Reject(err, reqd)
      ensures PoolTable.PoolCreate(table, q) == Outcome(table, err, reqd, NoPool, 0)
    {
    }

    lemma HeapTargets(q: Request, pool: MemPool)
      requires Valid() && segs != [] && MakePlan(table, q).Go? && q.base == 0
      ensures Targets(MakePlan(table, q), q, pool, heap, heap, heap)
    {
    }

    method CreateInHeap(pool: MemPool, q: Request) returns (reqd: u32, err: LibErr, stray: nat)
      requires Valid() && pool !in repr && pool.Unused() && pool.AsSeg() == Seg(0, 0, 0, 0, []) && ArgsOk(table, q) && q.base == 0
      modifies `poolTbl, `segs, `table, `chains, `repr, pool
      modifies repr`segPrev, repr`segNext, repr`poolPrev, repr`poolNext, repr`segAddrNextAvail, repr`segSizeRem, repr`segBlocks
      ensures Valid()
      ensures Created(old(table), q, pool, reqd, err, stray)
      ensures err != None_ ==> ListsKept() && pool.Unused() && pool.AsSeg() == SegLeft(old(table), q)
      ensures err == None_ ==> ListedNow(old(table), q, pool) && fresh(pool.poolPtrs)
    {
      hide Valid, TableInv, MakePlan, PlanInHeap, PoolTable.PoolCreate, Linked, Targets, Wrap, OtherFields;
      CheckedPlan(q);
      stray := 0;
      var start, sizePool, sizePtrs, sizeTot;
      err, reqd, start, sizePool, sizePtrs, sizeTot := CheckHeap(q);
      if err != None_ {
        RejectedPlan(q, err, reqd);
        return;
      }
      HeapTargets(q, pool);
      reqd, err, stray := Commit(pool, q, heap, heap, heap, start, sizePool, sizeTot);
    }

    lemma LastAddress(q: Request)
      requires 0 < q.memSize && q.base + q.memSize <= U32
      ensures Wrap(q.base + q.memSize - 1) == q.base + q.memSize - 1
    {
      WrapSum(q.base, q.memSize - 1);
    }

    lemma SegTargets(q: Request, pool: MemPool, found: MemPool?, prev: MemPool?, next: MemPool?) returns (target: Target)
      requires Valid() && ArgsOk(table, q) && q.base != 0 && q.base + q.memSize <= U32
      requires pool !in repr && pool.AsSeg() == if found == null then FreshSeg(q) else pool.AsSeg()
      requires var r := SearchFrom(table.segs, 0, q.base, q.memSize);
               (r.Found? ==> found == segs[r.i]) && r != Overlap &&
               (r.Insert? ==> found == null && prev == Before(segs, r.i) && next == At(segs, r.i))
      ensures Placeable(table, target) && MakePlan(table, q) == PlanInSeg(table, q, target) && (target.Listed? <==> found != null)
      ensures var seg := if found == null then pool else found;
              seg.AsSeg() == TargetSeg(table, target, q) &&
              (MakePlan(table, q).Go? ==> Targets(MakePlan(table, q), q, pool, seg, prev, next))
    {
      hide MakePlan, PlanInSeg, Wrap, TableInv, SegInv, Shape;
      CheckedPlan(q);
      LastAddress(q);
      var r := SearchFrom(table.segs, 0, q.base, q.memSize);
      target := if r.Found? then Listed(r.i) else Fresh(r.i);
      assert r.Found? ==> table.segs[r.i] == found.AsSeg();
    }

    /** The segment for dedicated memory: the listed one, or pool reset to be a new one. */
    method ChooseSeg(pool: MemPool, q: Request)
      returns (err: LibErr, seg: MemPool, prev: MemPool?, next: MemPool?, ghost target: Target)
      requires Valid() && pool !in repr && pool.AsSeg() == Seg(0, 0, 0, 0, []) && ArgsOk(table, q) && q.base != 0
      modifies pool`segAddr, pool`segSizeTot, pool`segAddrNextAvail, pool`segSizeRem, pool`segBlocks
      ensures Valid()
      ensures table.segs == [] || table.heap < |table.segs|
      ensures err != None_ ==> MakePlan(table, q) == Reject(err, 0) && pool.AsSeg() == SegLeft(table, q)
      ensures err == None_ ==>
                segs != [] && Placeable(table, target) && MakePlan(table, q) == PlanInSeg(table, q, target) &&
                seg.AsSeg() == TargetSeg(table, target, q) && (target.Listed? ==> pool.AsSeg() == Seg(0, 0, 0, 0, [])) &&
                (MakePlan(table, q).Go? ==> Targets(MakePlan(table, q), q, pool, seg, prev, next)) &&
                SegLeft(table, q) == if MakePlan(table, q).Go? then LeftBy(table, q, pool.AsSeg()) else pool.AsSeg()
    {
      hide Valid, TableInv, MakePlan, PlanInSeg, Targets, Wrap, Before, At, SegLeft, LeftBy;
      CheckedPlan(q);
      SegLeftCases(table, q);
      err, seg, prev, next, target := None_, pool, null, null, Fresh(0);
      var last := Wrap(q.base + q.memSize - 1);
      if last < q.base {
        err := InvalidBlkAddr;
        return;
      }
      var found, before, after, overlap := Search(q.base, last, q.memSize);
      if overlap {
        err := InvalidSegOverlap;
        return;
      }
      prev, next := before, after;
      if found == null {
        pool.ResetSeg(q.base, q.memSize);
      } else {
        seg := found;
      }
      target := SegTargets(q, pool, found, prev, next);
    }

    method CreateInSeg(pool: MemPool, q: Request) returns (reqd: u32, err: LibErr, stray: nat)
      requires Valid() && pool !in repr && pool.Unused() && pool.AsSeg() == Seg(0, 0, 0, 0, []) && ArgsOk(table, q) && q.base != 0
      modifies `poolTbl, `segs, `table, `chains, `repr, pool
      modifies repr`segPrev, repr`segNext, repr`poolPrev, repr`poolNext, repr`segAddrNextAvail, repr`segSizeRem, repr`segBlocks
      ensures Valid()
      ensures Created(old(table), q, pool, reqd, err, stray)
      ensures err != None_ ==> ListsKept() && pool.Unused() && pool.AsSeg() == SegLeft(old(table), q)
      ensures err == None_ ==> ListedNow(old(table), q, pool) && fresh(pool.poolPtrs)
    {
      hide Valid, TableInv, MakePlan, PlanInSeg, PoolTable.PoolCreate, Linked, Targets, Wrap, SegLeft, LeftBy, TargetSeg, Placeable, OtherFields;
      stray, reqd := 0, 0;
      var seg, prev, next;
      ghost var target;
      err, seg, prev, next, target := ChooseSeg(pool, q);
      if err != None_ {
        RejectedPlan(q, err, 0);
        return;
      }
      var start, sizePool, sizePtrs;
      err, reqd, start, sizePool, sizePtrs := CheckSeg(q, seg, target);
      if err != None_ {
        RejectedPlan(q, err, reqd);
        return;
      }
      reqd, err, stray := Commit(pool, q, seg, prev, next, start, sizePool, 0);
    }

    /** Mem_PoolCreate for a pool that is not listed yet (Note 1b).  stray counts the
        pointers stored beyond the end of the pointer table. */
    method PoolCreate(pool: MemPool?, q: Request) returns (reqd: u32, err: LibErr, stray: nat)
      requires Valid() && (pool != null ==> pool !in repr)
      modifies `poolTbl, `segs, `table, `chains, `repr, pool
      modifies repr`segPrev, repr`segNext, repr`poolPrev, repr`poolNext, repr`segAddrNextAvail, repr`segSizeRem, repr`segBlocks
      ensures Valid()
      ensures pool == null ==> err == NullPtr && reqd == 0 && stray == 0 && table == old(table)
      ensures pool != null ==> Created(old(table), q, pool, reqd, err, stray)
      ensures err != None_ ==> ListsKept() && (pool != null ==> pool.Unused() && pool.AsSeg() == SegLeft(old(table), q))
      ensures err == None_ ==> pool != null && ListedNow(old(table), q, pool) && fresh(pool.poolPtrs)
    {
      hide Valid, TableInv, MakePlan, PoolTable.PoolCreate, Linked, OtherFields;
      if pool == null { return 0, NullPtr, 0; }
      assert forall p :: p in segs ==> p in repr by { ListedSegs(); }
      pool.Clear();
      err := CheckArgs(q);
      if err != None_ { return 0, err, 0; }
      if q.base == 0 {
        reqd, err, stray := CreateInHeap(pool, q);
      } else {
        reqd, err, stray := CreateInSeg(pool, q);
      }
    }
  }

  ghost predicate PlanMatches(plan: Plan, err: LibErr, reqd: u32, start: u32, sizePool: u32, sizePtrs: u32, sizeTot: u32) {
    match plan
    case Reject(e, r) => err == e && reqd == r && err != None_
    case Go(_, s, pool, ptrs, tot) => err == None_ && reqd == 0 && start == s && sizePool == pool && sizePtrs == ptrs && sizeTot == tot
  }

  lemma AllocFailed(s: Seg, k: nat, q: Request, now: Seg)
    requires SegInv(s) && 0 < q.size && 0 < q.align && k < q.nbr && |AllocRun(s, k, q.size, q.align).1| == k
    requires SegAlloc(AllocRun(s, k, q.size, q.align).0, q.size, q.align) == (now, 0)
    ensures AllocRun(s, q.nbr, q.size, q.align) == (now, AllocRun(s, k, q.size, q.align).1)
  {
    AllocRunClosedForm(s, k, q.size, q.align);
    SegAllocSpec(AllocRun(s, k, q.size, q.align).0, q.size, q.align);
    hide SegAlloc, SegInv;
    RunStuck(s, k + 1, q.nbr, q.size, q.align);
  }

  /** The plan once the arguments have been found valid. */
  lemma PlanAfterArgs(t: Table, q: Request)
    requires ArgsOk(t, q) && t.heap < |t.segs|
    ensures q.base == 0 ==> MakePlan(t, q) == PlanInHeap(t, q)
    ensures q.base != 0 && Wrap(q.base + q.memSize - 1) < q.base ==> MakePlan(t, q) == Reject(InvalidBlkAddr, 0)
    ensures q.base != 0 && Wrap(q.base + q.memSize - 1) >= q.base ==>
              Wrap(q.base + q.memSize - 1) == q.base + q.memSize - 1 &&
              MakePlan(t, q) == match SearchFrom(t.segs, 0, q.base, q.memSize)
                                case Overlap => Reject(InvalidSegOverlap, 0)
                                case Found(i) => PlanInSeg(t, q, Listed(i))
                                case Insert(i) => PlanInSeg(t, q, Fresh(i))
  {
    hide PlanInHeap, PlanInSeg, SearchFrom, Wrap;
    if q.base != 0 {
      WrapSum(q.base, q.memSize - 1);
    }
  }

  /** A table filled as far as it goes holds the addresses it has room for. */
  lemma FilledTable(ptrs: seq<u32>, addrs: seq<u32>, q: Request)
    requires |ptrs| == Slots(q) <= |addrs| && forall i :: 0 <= i < |ptrs| ==> ptrs[i] == addrs[i]
    ensures ptrs == InTable(addrs, q)
  {
  }

  /** The segment fields of a pool whose creation failed after its checks. */
  function LeftBy(t: Table, q: Request, before: Seg): Seg
    requires (t.segs == [] || t.heap < |t.segs|) && MakePlan(t, q).Go?
  {
    if MakePlan(t, q).target.Fresh? && AfterPtrs(t, q).1 != 0 then AllocRun(FreshSeg(q), q.nbr, q.size, q.align).0 else before
  }

  /** SegLeft, by what the search has found. */
  lemma SegLeftCases(t: Table, q: Request)
    requires ArgsOk(t, q) && t.heap < |t.segs|
    ensures q.base == 0 || Wrap(q.base + q.memSize - 1) < q.base ==> SegLeft(t, q) == Seg(0, 0, 0, 0, [])
    ensures q.base == 0 && MakePlan(t, q).Go? ==> LeftBy(t, q, Seg(0, 0, 0, 0, [])) == Seg(0, 0, 0, 0, [])
    ensures q.base != 0 && Wrap(q.base + q.memSize - 1) >= q.base ==>
              var new_ := SearchFrom(t.segs, 0, q.base, q.memSize).Insert?;
              var before := if new_ then FreshSeg(q) else Seg(0, 0, 0, 0, []);
              SegLeft(t, q) == if MakePlan(t, q).Go? then LeftBy(t, q, before) else before
  {
    hide AllocRun, AfterPtrs, PlanInHeap, PlanInSeg, SearchFrom, Wrap;
    PlanAfterArgs(t, q);
  }

  /** Commit, spelled out by case. */
  lemma OutcomeOfCommit(t: Table, q: Request, plan: Plan)
    requires t.heap < |t.segs| && 0 < q.align && plan.Go? && Placeable(t, plan.target)
    ensures AfterPtrs(t, q).1 == 0 ==>
              PoolTable.Commit(t, q, plan)
              == Outcome(t, HeapEmpty, StillNeeded(if q.base == 0 then plan.sizeTot else Wrap(q.nbr * PTR), t.segs[t.heap].rem), NoPool, 0)
    ensures var (t1, ptrTable) := AfterPtrs(t, q); var (s, addrs) := AllocRun(Source(t, q, plan), q.nbr, q.size, q.align);
            ptrTable != 0 && |addrs| < q.nbr ==>
              PoolTable.Commit(t, q, plan)
              == Outcome(if plan.target.Fresh? then t1 else Place(t1, plan.target, s), SegEmpty,
                         StillNeeded(CalcTotSize(s.avail, Wrap(q.nbr - |addrs|), q.size, q.align), s.rem), NoPool, Stray(addrs, q))
    ensures var (t1, ptrTable) := AfterPtrs(t, q); var (s, addrs) := AllocRun(Source(t, q, plan), q.nbr, q.size, q.align);
            ptrTable != 0 && |addrs| >= q.nbr ==>
              PoolTable.Commit(t, q, plan)
              == Outcome(Place(t1, plan.target, s), None_, 0,
                         NewPool(ptrTable, Pool(plan.start, Wrap(plan.start + plan.sizePool - 1), q.align, q.size, q.nbr, q.nbr, InTable(addrs, q))),
                         Stray(addrs, q))
  {
    hide AllocRun, SegAlloc, Wrap, StillNeeded, CalcTotSize;
  }

  lemma CommittedPlan(t: Table, q: Request)
    requires TableInv(t) && MakePlan(t, q).Go?
    ensures t.heap < |t.segs| && 0 < q.align && 0 < q.size && Placeable(t, MakePlan(t, q).target)
    ensures PoolTable.PoolCreate(t, q) == PoolTable.Commit(t, q, MakePlan(t, q))
  {
    PlanSpec(t, q);
  }

  lemma AfterPtrsTable(t: Table, q: Request)
    requires t.heap < |t.segs|
    ensures var t1 := AfterPtrs(t, q).0; t1.heap == t.heap && |t1.segs| == |t.segs|
  {
    hide SegAlloc;
  }

  /** What the allocations of a checked plan lead to, as far as the objects need it. */
  lemma CommitFacts(t: Table, q: Request)
    requires TableInv(t) && MakePlan(t, q).Go? && AfterPtrs(t, q).1 != 0
    ensures 0 < q.align && 0 < q.size && 0 < q.nbr
    ensures var plan := MakePlan(t, q); var s := Source(t, q, plan); var (s', addrs) := AllocRun(s, q.nbr, q.size, q.align);
            SegInv(s) && SegInv(s') && s'.base == s.base && s'.tot == s.tot &&
            TableInv(AfterPtrs(t, q).0) && TableInv(Place(AfterPtrs(t, q).0, plan.target, s'))
  {
    hide SegInv, TableInv, MakePlan, AllocRun, Place, Source;
    CommitSpec(t, q);
    CommitGrants(t, q);
    AfterPtrsSpec(t, q);
  }
}
