/** Runs of the whole allocator: heap allocations, pool creations, and blocks got from and
    freed to all pools, in any order. */
module LibraryRuns {
  import opened Arith
  import opened Segment
  import opened PoolBlocks
  import opened PoolTable
  import opened PoolLaws

  /** Something a caller has obtained: a heap block, or a pool with its pointer table and the
      blocks callers hold, worked out from what they were given and gave back. */
  datatype Item = HeapItem(blk: Block) | PoolItem(table: Block, pool: Pool, held: set<u32>)

  datatype World = World(t: Table, items: seq<Item>)

  /** A call; Get and Free name a pool by its position among the items. */
  datatype Call = FromHeap(size: u32, align: u32) | Create(q: Request) | Get(i: nat, size: u32) | Free(i: nat, blk: u32)

  ghost function OnPool(w: World, i: nat, op: PoolBlocks.Op): World
    requires forall k :: 0 <= k < |w.items| ==> ItemInv(w.items[k])
  {
    if i < |w.items| && w.items[i].PoolItem? then
      var it := w.items[i];
      assert ItemInv(it);
      var (p, e) := PoolBlocks.Step(it.pool, op);
      w.(items := w.items[i := PoolItem(it.table, p, HeldAfter(it.held, e))])
    else w
  }

  ghost function Do(w: World, c: Call): World
    requires w.t.heap < |w.t.segs| && forall k :: 0 <= k < |w.items| ==> ItemInv(w.items[k])
  {
    match c
    case FromHeap(size, align) =>
      var r := HeapAlloc(w.t.segs[w.t.heap], size, align);
      World(PoolLaws.Step(w.t, HeapOp(size, align)), if r.err == None_ then w.items + [HeapItem(Block(r.addr, size, align))] else w.items)
    case Create(q) =>
      var r := PoolCreate(w.t, q);
      World(r.tbl, if r.created.NewPool? then w.items + [NewItem(r, q)] else w.items)
    case Get(i, size) => OnPool(w, i, GetOp(size))
    case Free(i, blk) => OnPool(w, i, FreeOp(blk))
  }

  function NewItem(r: Outcome, q: Request): Item
    requires r.created.NewPool?
  {
    PoolItem(Block(r.created.ptrTable, Wrap(q.nbr * PTR), PTR), r.created.pool, {})
  }

  // ---- What an item owns and what is in use --------------------------------------------------

  /** What was handed over for an item; a pool's blocks are the entries of its table. */
  ghost predicate Owns(it: Item, b: Block) {
    match it
    case HeapItem(blk) => b == blk
    case PoolItem(table, p, _) => b == table || (b.size == p.size && b.align == p.align && b.addr in p.ptrs)
  }

  /** Heap blocks and pointer tables are never given back; pool blocks live while held. */
  ghost predicate Live(it: Item, b: Block) {
    match it
    case HeapItem(blk) => b == blk
    case PoolItem(table, p, held) => b == table || (b.size == p.size && b.align == p.align && b.addr in held)
  }

  ghost predicate ItemInv(it: Item) {
    it.PoolItem? ==> TableOk(it.pool) && it.held == Held(it.pool)
  }

  ghost predicate OwnsLogged(t: Table, it: Item) {
    forall b :: Owns(it, b) ==> Logged(t, b)
  }

  ghost predicate SelfApart(it: Item) {
    forall a, b :: Owns(it, a) && Owns(it, b) && a != b ==> Apart(a, b)
  }

  ghost predicate ItemsApart(x: Item, y: Item) {
    forall a, b :: Owns(x, a) && Owns(y, b) ==> Apart(a, b)
  }

  ghost predicate WorldInv(w: World) {
    TableInv(w.t) && w.t.segs != [] &&
    (forall i :: 0 <= i < |w.items| ==> ItemInv(w.items[i]) && OwnsLogged(w.t, w.items[i]) && SelfApart(w.items[i])) &&
    (forall i, j :: 0 <= i < j < |w.items| ==> ItemsApart(w.items[i], w.items[j]))
  }

  // ---- Adding an item ----------------------------------------------------------------------------

  lemma ApartOfGranted(gs: seq<Block>, a: Block, b: Block)
    requires PairwiseApart(gs) && a in gs && b in gs && a != b
    ensures Apart(a, b)
  {
    var i :| 0 <= i < |gs| && gs[i] == a;
    var j :| 0 <= j < |gs| && gs[j] == b;
    assert if i < j then Apart(gs[i], gs[j]) else Apart(gs[j], gs[i]);
  }

  /** An item made of newly granted blocks is apart from itself and from all items before. */
  lemma AddItem(w: World, t': Table, gs: seq<Block>, it: Item)
    requires WorldInv(w) && Granted(w.t, t', gs) && t'.segs != []
    requires ItemInv(it) && forall b :: Owns(it, b) ==> b in gs
    ensures WorldInv(World(t', w.items + [it]))
  {
    KeepItems(w, t', gs);
    hide TableInv;
    forall a, b | Owns(it, a) && Owns(it, b) && a != b ensures Apart(a, b) {
      ApartOfGranted(gs, a, b);
    }
    forall i | 0 <= i < |w.items| ensures ItemsApart(w.items[i], it) {
      forall a, b | Owns(w.items[i], a) && Owns(it, b) ensures Apart(a, b) {
        assert Logged(w.t, a) && ApartFrom(gs, a);
        var k :| 0 <= k < |gs| && gs[k] == b;
        assert Apart(gs[k], a);
      }
    }
  }

  lemma KeepItems(w: World, t': Table, gs: seq<Block>)
    requires WorldInv(w) && Granted(w.t, t', gs) && t'.segs != []
    ensures WorldInv(World(t', w.items))
  {
    hide TableInv;
    forall i | 0 <= i < |w.items| ensures OwnsLogged(t', w.items[i]) {
      assert OwnsLogged(w.t, w.items[i]);
    }
  }

  lemma {:induction false} RunLogAt(addrs: seq<u32>, size: u32, align: u32)
    ensures |RunLog(addrs, size, align)| == |addrs|
    ensures forall i :: 0 <= i < |addrs| ==> RunLog(addrs, size, align)[i] == Block(addrs[i], size, align)
  {
    if addrs != [] {
      RunLogAt(addrs[..|addrs| - 1], size, align);
    }
  }

  /** The blocks of a fresh pool are among those its creation granted. */
  lemma OwnsGranted(it: Item, gs: seq<Block>)
    requires it.PoolItem? && gs == [it.table] + RunLog(it.pool.ptrs, it.pool.size, it.pool.align)
    ensures forall b :: Owns(it, b) ==> b in gs
  {
    var p := it.pool;
    RunLogAt(p.ptrs, p.size, p.align);
    forall b | Owns(it, b) ensures b in gs {
      if b == it.table {
        assert gs[0] == b;
      } else {
        var k :| 0 <= k < |p.ptrs| && p.ptrs[k] == b.addr;
        assert gs[1 + k] == b;
      }
    }
  }

  // ---- Single calls ----------------------------------------------------------------------------------

  /** What the caller of a create call sees to: the size of the pointer table is a word. */
  predicate CallOk(c: Call) { c.Create? ==> c.q.nbr * PTR < U32 }

  lemma AllocKeepsInv(w: World, size: u32, align: u32)
    requires WorldInv(w)
    ensures WorldInv(Do(w, FromHeap(size, align)))
  {
    var op := HeapOp(size, align);
    HeapStepGrants(w.t, size, align);
    PoolLaws.StepKeepsInv(w.t, op);
    hide WorldInv, Granted, TableInv, HeapAlloc;
    var r := HeapAlloc(w.t.segs[w.t.heap], size, align);
    if r.err == None_ {
      AddItem(w, PoolLaws.Step(w.t, op), Grants(w.t, op), HeapItem(Block(r.addr, size, align)));
    } else {
      KeepItems(w, PoolLaws.Step(w.t, op), Grants(w.t, op));
    }
  }

  lemma CreateKeepsInv(w: World, q: Request)
    requires WorldInv(w) && CallOk(Create(q))
    ensures WorldInv(Do(w, Create(q)))
  {
    NoOverrun(w.t, q);
    CreateStepGrants(w.t, q);
    PoolLaws.CreateKeepsInv(w.t, q);
    var r := PoolCreate(w.t, q);
    hide WorldInv, Granted, TableInv, PoolCreate, MakePlan, RunLog;
    if r.created.NewPool? {
      CreatedIsSuccess(w.t, q);
      CreatedTableOk(w.t, q);
      FreshIsFree(r.created.pool);
      OwnsGranted(NewItem(r, q), Grants(w.t, CreateOp(q)));
      AddItem(w, r.tbl, Grants(w.t, CreateOp(q)), NewItem(r, q));
    } else {
      KeepItems(w, r.tbl, Grants(w.t, CreateOp(q)));
    }
  }

  lemma CreatedIsSuccess(t: Table, q: Request)
    requires TableInv(t) && PoolCreate(t, q).created.NewPool?
    ensures PoolCreate(t, q).err == None_
  {
    if MakePlan(t, q).Go? {
      hide MakePlan, AllocRun, Stumbles;
      CommitSpec(t, q);
    }
  }

  lemma FreshIsFree(p: Pool)
    requires TableOk(p) && p.ix == p.nbr
    ensures Held(p) == {}
  {
    assert p.ptrs[p.ix..] == [];
  }

  lemma OnPoolKeepsInv(w: World, i: nat, op: PoolBlocks.Op)
    requires WorldInv(w)
    ensures WorldInv(OnPool(w, i, op))
  {
    if i < |w.items| && w.items[i].PoolItem? {
      var it := w.items[i];
      assert ItemInv(it);
      var (p, e) := PoolBlocks.Step(it.pool, op);
      TableStep(it.pool, op);
      assert forall x :: x in p.ptrs <==> x in Elements(p.ptrs);
      assert forall x :: x in it.pool.ptrs <==> x in Elements(it.pool.ptrs);
      var it' := PoolItem(it.table, p, HeldAfter(it.held, e));
      assert forall b :: Owns(it', b) <==> Owns(it, b);
      ReplaceItem(w, i, it');
    }
  }

  /** An item may change as long as it owns the same blocks. */
  lemma ReplaceItem(w: World, i: nat, it: Item)
    requires WorldInv(w) && i < |w.items| && ItemInv(it) && forall b :: Owns(it, b) <==> Owns(w.items[i], b)
    ensures WorldInv(w.(items := w.items[i := it]))
  {
    hide TableInv, Owns;
    var items := w.items[i := it];
    assert OwnsLogged(w.t, w.items[i]) && SelfApart(w.items[i]);
    forall j, k | 0 <= j < k < |items| ensures ItemsApart(items[j], items[k]) {
      assert ItemsApart(w.items[j], w.items[k]);
    }
  }

  // ---- Runs --------------------------------------------------------------------------------------------

  lemma CallKeepsInv(w: World, c: Call)
    requires WorldInv(w) && CallOk(c)
    ensures WorldInv(Do(w, c))
  {
    match c
    case FromHeap(size, align) => AllocKeepsInv(w, size, align);
    case Create(q) => CreateKeepsInv(w, q);
    case Get(i, size) => OnPoolKeepsInv(w, i, GetOp(size));
    case Free(i, blk) => OnPoolKeepsInv(w, i, FreeOp(blk));
  }

  ghost function Run(w: World, calls: seq<Call>): (r: World)
    requires WorldInv(w) && forall c :: c in calls ==> CallOk(c)
    ensures WorldInv(r)
  {
    if calls == [] then w else
      var n := |calls| - 1;
      var before := Run(w, calls[..n]);
      CallKeepsInv(before, calls[n]);
      Do(before, calls[n])
  }

  lemma LiveIsOwned(it: Item, b: Block)
    requires ItemInv(it) && Live(it, b)
    ensures Owns(it, b)
  {
    if it.PoolItem? && b != it.table {
      assert b.addr in it.pool.ptrs[it.pool.ix..];
    }
  }

  lemma LiveApart(w: World, i: nat, j: nat, a: Block, b: Block)
    requires WorldInv(w) && i < |w.items| && j < |w.items| && (i != j || a != b)
    requires Live(w.items[i], a) && Live(w.items[j], b)
    ensures Apart(a, b) && exists k :: 0 <= k < |w.t.segs| && BlockIn(a, w.t.segs[k].base, End(w.t.segs[k]))
  {
    hide TableInv, Live, Owns, Logged, BlockIn;
    LiveIsOwned(w.items[i], a);
    LiveIsOwned(w.items[j], b);
    assert OwnsLogged(w.t, w.items[i]) && SelfApart(w.items[i]);
    LoggedInSegment(w.t, a);
    if i < j {
      assert ItemsApart(w.items[i], w.items[j]);
    } else if j < i {
      assert ItemsApart(w.items[j], w.items[i]);
      assert Apart(b, a);
    }
  }

  lemma StartInv(base: u32, size: u32)
    requires 0 < base && 0 < size && base + size <= U32
    ensures WorldInv(World(InitTable(base, size), []))
  {
  }

  /** From initialization on, over every run of heap allocations, pool creations, gets and frees
      on all pools: any two different blocks in use -- heap blocks, pointer tables, and pool
      blocks held by callers -- are disjoint, and each is aligned and inside a segment. */
  lemma LiveBlocksAreDisjoint(base: u32, size: u32, calls: seq<Call>, i: nat, j: nat, a: Block, b: Block)
    requires 0 < base && 0 < size && base + size <= U32 && forall c :: c in calls ==> CallOk(c)
    ensures WorldInv(World(InitTable(base, size), []))
    ensures var w := Run(World(InitTable(base, size), []), calls);
            i < |w.items| && j < |w.items| && Live(w.items[i], a) && Live(w.items[j], b) && (i != j || a != b) ==>
              Apart(a, b) && exists k :: 0 <= k < |w.t.segs| && BlockIn(a, w.t.segs[k].base, End(w.t.segs[k]))
  {
    StartInv(base, size);
    var w := Run(World(InitTable(base, size), []), calls);
    hide Run, WorldInv, Live, BlockIn, Apart;
    if i < |w.items| && j < |w.items| && Live(w.items[i], a) && Live(w.items[j], b) && (i != j || a != b) {
      LiveApart(w, i, j, a, b);
    }
  }
}
