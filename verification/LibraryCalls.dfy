/** Runs of the library on its objects: each call on the MEM_POOL objects that callers hold
    performs the step of LibraryRuns, so that what holds over every run of these steps holds of
    the objects in memory. */
module LibraryCalls {
  import opened Arith
  import opened Segment
  import opened PoolBlocks
  import opened PoolTable
  import opened PoolLaws
  import opened LibraryRuns
  import opened MemLib

  /** The object of an item: none for a heap block, for a pool the one that holds it. */
  ghost predicate Holds(lib: Library, it: Item, h: MemPool?)
    reads lib`repr, h, if h == null then null else h.poolPtrs
  {
    match it
    case HeapItem(_) => h == null
    case PoolItem(table, p, _) =>
      h != null && h in lib.repr && h.kind == KindPool && h.poolPtrs != null && h.AsPool() == p && h.poolPtrsAddr == table.addr
  }

  ghost function Tables(hs: seq<MemPool?>): set<array?<u32>>
    reads hs
  {
    set h | h in hs && h != null :: h.poolPtrs
  }

  /** No two items share an object or a pointer table. */
  ghost predicate Separate(hs: seq<MemPool?>)
    reads hs
  {
    forall i, j :: 0 <= i < j < |hs| && hs[i] != null && hs[j] != null ==>
      hs[i] != hs[j] && (hs[i].poolPtrs != null ==> hs[i].poolPtrs != hs[j].poolPtrs)
  }

  /** The objects of the items, each with its own pointer table. */
  ghost predicate HoldAll(lib: Library, hs: seq<MemPool?>, items: seq<Item>)
    reads lib`repr, hs, Tables(hs)
  {
    |hs| == |items| && (forall i :: 0 <= i < |hs| ==> Holds(lib, items[i], hs[i])) && Separate(hs)
  }

  /** The library and the callers' objects stand for the world w. */
  ghost predicate Stands(lib: Library, hs: seq<MemPool?>, w: World)
    reads lib, lib.repr, lib.segs, hs, Tables(hs)
  {
    lib.Valid() && lib.table == w.t && HoldAll(lib, hs, w.items)
  }

  lemma ValidTable(lib: Library)
    requires lib.Valid() && lib.table.segs != []
    ensures lib.segs != [] && TableInv(lib.table)
  {
  }

  lemma StandsInv(w: World)
    requires WorldInv(w)
    ensures w.t.segs != [] && w.t.heap < |w.t.segs| && forall i :: 0 <= i < |w.items| ==> ItemInv(w.items[i])
  {
  }

  method Alloc(lib: Library, ghost hs: seq<MemPool?>, size: u32, align: u32, ghost w: World)
    returns (addr: u32, reqd: u32, err: LibErr)
    requires Stands(lib, hs, w) && WorldInv(w)
    modifies lib`table, lib.heap`segAddrNextAvail, lib.heap`segSizeRem, lib.heap`segBlocks
    ensures WorldInv(w) && Stands(lib, if err == None_ then hs + [null] else hs, Do(w, FromHeap(size, align)))
    ensures err == None_ ==> Do(w, FromHeap(size, align)).items == w.items + [HeapItem(Block(addr, size, align))]
  {
    hide WorldInv, TableInv, Segment.HeapAlloc, PoolLaws.Step, Library.Valid, ItemInv, PoolBlocks.Held, SegInv;
    StandsInv(w);
    ValidTable(lib);
    addr, reqd, err := lib.HeapAlloc(size, align);
  }

  method Create(lib: Library, pool: MemPool, q: Request, ghost hs: seq<MemPool?>, ghost w: World)
    returns (reqd: u32, err: LibErr, stray: nat)
    requires Stands(lib, hs, w) && WorldInv(w) && pool !in lib.repr
    modifies lib, pool
    modifies lib.repr`segPrev, lib.repr`segNext, lib.repr`poolPrev, lib.repr`poolNext
    modifies lib.repr`segAddrNextAvail, lib.repr`segSizeRem, lib.repr`segBlocks
    ensures WorldInv(w) && Stands(lib, if err == None_ then hs + [pool] else hs, Do(w, LibraryRuns.Create(q)))
    ensures err == None_ ==> fresh(pool.poolPtrs)
    ensures lib.repr == if err == None_ then old(lib.repr) + {pool} else old(lib.repr)
  {
    hide WorldInv, TableInv, PoolTable.PoolCreate, Library.Valid, ItemInv, PoolBlocks.Held, SegInv, MakePlan,
         Library.Linked, Library.OtherFields, MemPool.Unused, SegLeft, MemPool.AsSeg, TableOk, Distinct;
    StandsInv(w);
    ValidTable(lib);
    CreatedIff(w.t, q);
    reqd, err, stray := lib.PoolCreate(pool, q);
    forall i | 0 <= i < |hs| ensures Holds(lib, w.items[i], hs[i]) {
      assert old(Holds(lib, w.items[i], hs[i]));
    }
    if err == None_ {
      OneMore(lib, hs, w.items, pool, NewItem(PoolTable.PoolCreate(w.t, q), q));
    }
  }

  lemma OneMore(lib: Library, hs: seq<MemPool?>, items: seq<Item>, h: MemPool, it: Item)
    requires HoldAll(lib, hs, items) && Holds(lib, it, h) && h !in hs && h.poolPtrs !in Tables(hs)
    ensures HoldAll(lib, hs + [h], items + [it])
  {
    hide Holds;
  }

  lemma CreatedIff(t: Table, q: Request)
    requires TableInv(t)
    ensures PoolTable.PoolCreate(t, q).err == None_ <==> PoolTable.PoolCreate(t, q).created.NewPool?
  {
    if PoolTable.PoolCreate(t, q).created.NewPool? {
      CreatedIsSuccess(t, q);
    } else if PoolTable.PoolCreate(t, q).err == None_ {
      var s, addrs := SuccessSpec(t, q);
    }
  }

  ghost function ObjectAt(hs: seq<MemPool?>, i: nat): MemPool? { if i < |hs| then hs[i] else null }

  /** What the caller is told is what the step on the pool says. */
  ghost predicate Answers(w: World, i: nat, op: PoolBlocks.Op, e: Event)
    requires WorldInv(w)
  {
    i < |w.items| && w.items[i].PoolItem? ==>
      var p := w.items[i].pool;
      assert ItemInv(w.items[i]);
      PoolBlocks.Step(p, op).1 == e
  }

  method Get(lib: Library, ghost hs: seq<MemPool?>, ghost i: nat, pool: MemPool?, size: u32, ghost w: World)
    returns (blk: u32, err: LibErr)
    requires Stands(lib, hs, w) && WorldInv(w) && pool == ObjectAt(hs, i)
    modifies NonNull(pool)`blkIx
    ensures WorldInv(w) && Stands(lib, hs, Do(w, LibraryRuns.Get(i, size)))
    ensures Answers(w, i, GetOp(size), if err == None_ then Got(blk) else Refused(err))
  {
    hide WorldInv, TableInv, Library.Valid, ItemInv, PoolBlocks.Held, SegInv, Modulus;
    StandsInv(w);
    ItemTable(w, i);
    blk, err := PoolBlkGet(pool, size);
  }

  method Free(lib: Library, ghost hs: seq<MemPool?>, ghost i: nat, pool: MemPool?, blk: u32, ghost w: World)
    returns (err: LibErr)
    requires Stands(lib, hs, w) && WorldInv(w) && pool == ObjectAt(hs, i)
    modifies NonNull(pool)`blkIx, if pool == null then null else pool.poolPtrs
    ensures WorldInv(w) && Stands(lib, hs, Do(w, LibraryRuns.Free(i, blk)))
    ensures Answers(w, i, FreeOp(blk), if err == None_ then Freed(blk) else Refused(err))
  {
    hide WorldInv, TableInv, Library.Valid, ItemInv, PoolBlocks.Held, SegInv, Modulus, IsValidAddr;
    StandsInv(w);
    ItemTable(w, i);
    err := PoolBlkFree(pool, blk);
    forall j | 0 <= j < |hs| && j != i ensures Holds(lib, w.items[j], hs[j]) {
      assert old(Holds(lib, w.items[j], hs[j]));
    }
  }

  lemma ItemTable(w: World, i: nat)
    requires WorldInv(w)
    ensures i < |w.items| && w.items[i].PoolItem? ==> TableOk(w.items[i].pool)
  {
    assert i < |w.items| ==> ItemInv(w.items[i]);
  }

  // ---- Whole runs --------------------------------------------------------------------------------

  lemma Reachable(lib: Library, hs: seq<MemPool?>, w: World)
    requires Stands(lib, hs, w)
    ensures lib.heap in lib.repr && forall h :: h in hs && h != null ==> h in lib.repr
  {
    assert forall i :: 0 <= i < |hs| ==> Holds(lib, w.items[i], hs[i]);
  }

  method Perform(lib: Library, c: Call, hs: seq<MemPool?>, ghost w: World) returns (hs': seq<MemPool?>)
    requires Stands(lib, hs, w) && WorldInv(w)
    modifies lib, lib.repr, Tables(hs)
    ensures WorldInv(w) && Stands(lib, hs', Do(w, c))
    ensures fresh(lib.repr - old(lib.repr)) && fresh(Tables(hs') - old(Tables(hs)))
  {
    hide WorldInv, Stands, Do, Answers;
    Reachable(lib, hs, w);
    hs' := hs;
    match c
    case FromHeap(size, align) =>
      var addr, reqd, err := Alloc(lib, hs, size, align, w);
      if err == None_ {
        hs' := hs + [null];
      }
    case Create(q) =>
      var pool := new MemPool();
      var reqd, err, stray := Create(lib, pool, q, hs, w);
      if err == None_ {
        hs' := hs + [pool];
      }
    case Get(i, size) =>
      var blk, err := Get(lib, hs, i, if i < |hs| then hs[i] else null, size, w);
    case Free(i, blk) =>
      var err := Free(lib, hs, i, if i < |hs| then hs[i] else null, blk, w);
  }

  /** From Mem_Init on, a run of calls on the objects ends where the run of the steps ends, so
      LiveBlocksAreDisjoint holds of the blocks that these objects have handed out. */
  method PerformAll(base: u32, size: u32, calls: seq<Call>) returns (lib: Library, hs: seq<MemPool?>)
    requires 0 < base && 0 < size && base + size <= U32 && forall c :: c in calls ==> CallOk(c)
    ensures WorldInv(World(InitTable(base, size), []))
    ensures Stands(lib, hs, Run(World(InitTable(base, size), []), calls))
  {
    hide Run, WorldInv, Stands, Do;
    ghost var start := World(InitTable(base, size), []);
    StartInv(base, size);
    lib := new Library();
    lib.Init(base, size);
    hs := [];
    assert Stands(lib, hs, start) by { NoItems(lib, start); }
    assert calls[..0] == [];
    RunNone(start);
    for n := 0 to |calls|
      invariant Stands(lib, hs, Run(start, calls[..n]))
      invariant fresh(lib) && fresh(lib.repr) && fresh(Tables(hs))
    {
      RunStep(start, calls, n);
      hs := Perform(lib, calls[n], hs, Run(start, calls[..n]));
    }
    assert calls[..|calls|] == calls;
  }

  lemma NoItems(lib: Library, w: World)
    requires lib.Valid() && lib.table == w.t && w.items == []
    ensures Stands(lib, [], w)
  {
  }

  lemma RunNone(w: World)
    requires WorldInv(w)
    ensures Run(w, []) == w
  {
  }

  lemma RunStep(w: World, calls: seq<Call>, n: nat)
    requires WorldInv(w) && n < |calls| && forall c :: c in calls ==> CallOk(c)
    ensures WorldInv(Run(w, calls[..n])) && Run(w, calls[..n + 1]) == Do(Run(w, calls[..n]), calls[n])
  {
    assert calls[..n + 1][..n] == calls[..n];
  }
}
