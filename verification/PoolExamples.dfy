/** Concrete calls of Mem_PoolCreate for which a promise fails, one for each cause. */
module PoolExamples {
  import opened Arith
  import opened Segment
  import opened PoolBlocks
  import opened PoolTable
  import opened PoolLaws

  lemma ExampleSizes()
    ensures CalcTotSize(0x1000, 4, PTR, PTR) == 16 && CalcTotSize(0x1000, 4, 8, 8) == 32
    ensures CalcTotSize(0x1000, 2, PTR, PTR) == 8 && CalcTotSize(0xFFFF_FFF0, 2, 8, 8) == 16
    ensures TotSize(0x1010, 4, 8, 8) == 32 && Gap(0x1000, 8) == 0
  {
    assert Gap(0x1000, 4) == 0 && Gap(4, 4) == 0 && Gap(0x1000, 8) == 0 && Gap(8, 8) == 0;
    assert Gap(0x1010, 8) == 0 && Gap(0xFFFF_FFF0, 8) == 0;
    CheckedSumMany(0, 0, 4, 4, 12);
    CheckedSumMany(0, 0, 4, 8, 24);
    CheckedSumMany(0, 0, 2, 4, 4);
    CheckedSumMany(0, 0, 2, 8, 8);
  }

  /** The heap given as its own dedicated segment: 40 octets, of which the pointer table
      takes 16; the check of the pool's 32 octets ignores that. */
  lemma AliasedHeapExample(t: Table, q: Request)
    requires t == InitTable(0x1000, 40) && q == Request(0x1000, 40, 4, 8, 8)
    ensures TableInv(t) && Stumbles(t, q) && PoolCreate(t, q).err == SegEmpty && PoolCreate(t, q).tbl != t
  {
    hide CheckedSum, CalcTotSize, Gap, Stride, Wrap;
    ExampleSizes();
    WrapSmall(q.base + q.memSize - 1);
    assert SearchFrom(t.segs, 0, q.base, q.memSize) == Found(0);
    assert MakePlan(t, q) == Go(Listed(0), 0x1000, 32, 16, 0);
    StumbleOutcome(t, q);
  }

  /** A heap of 24 octets given as its own dedicated segment: 8 more octets are asked for, and with
      them the call fails all the same. */
  lemma AliasedShortfallExample(q: Request)
    requires q == Request(0x1000, 24, 4, 8, 8)
    ensures PoolCreate(InitTable(0x1000, 24), q).err == SegEmpty && PoolCreate(InitTable(0x1000, 24), q).reqd == 8
    ensures PoolCreate(InitTable(0x1000, 32), q.(memSize := 32)).err == SegEmpty
  {
    hide CheckedSum, CalcTotSize, Gap, Stride, Wrap;
    ExampleSizes();
    WrapSmall(q.base + q.memSize - 1);
    WrapSmall(q.base + 32 - 1);
    var t, t', q' := InitTable(0x1000, 24), InitTable(0x1000, 32), q.(memSize := 32);
    assert SearchFrom(t.segs, 0, q.base, q.memSize) == Found(0);
    assert Diff(32, 24) == 8;
    assert SearchFrom(t'.segs, 0, q.base, 32) == Found(0);
    assert MakePlan(t', q') == Go(Listed(0), 0x1000, 32, 16, 0);
    StumbleOutcome(t', q');
  }

  /** A dedicated segment that ends at 2^32 and is filled exactly. */
  lemma TopOfMemoryExample(t: Table, q: Request)
    requires t == InitTable(0x1000, 40) && q == Request(0xFFFF_FFF0, 16, 2, 8, 8)
    ensures TableInv(t) && Stumbles(t, q) && PoolCreate(t, q).err == SegEmpty && PoolCreate(t, q).tbl != t
  {
    hide CheckedSum, CalcTotSize, Gap, Stride, Wrap;
    ExampleSizes();
    WrapSmall(q.base + q.memSize - 1);
    assert SearchFrom(t.segs, 1, q.base, q.memSize) == Insert(1);
    assert SearchFrom(t.segs, 0, q.base, q.memSize) == Insert(1);
    assert MakePlan(t, q) == Go(Fresh(1), 0xFFFF_FFF0, 16, 8, 0);
    StumbleOutcome(t, q);
  }

  /** A range above everything listed is new. */
  lemma InsertAbove(t: Table, q: Request)
    requires |t.segs| == 1 && 0 < q.memSize && End(t.segs[0]) <= q.base && 0 < t.segs[0].tot
    ensures SearchFrom(t.segs, 0, q.base, q.memSize) == Insert(1)
  {
    assert SearchFrom(t.segs, 1, q.base, q.memSize) == Insert(1);
  }

  /** Octets without alignment: stride and total size are plain products. */
  lemma UnalignedSizes(addr: u32, nbr: u32, size: u32)
    requires 0 < size && 1 < nbr
    ensures Stride(size, 1) == size && TotSize(addr, nbr, size, 1) == size * (nbr - 1) + size
    ensures var p := Wrap(size * (nbr - 1));
            CalcTotSize(addr, nbr, size, 1) == if p >= size && p + size < U32 then p + size else 0
  {
    assert Gap(addr, 1) == 0 && Gap(size, 1) == 0;
    CheckedSumMany(0, 0, nbr, size, Wrap(size * (nbr - 1)));
  }

  lemma TableSizes()
    ensures CalcTotSize(0x1000, 6, PTR, PTR) == 24
    ensures CalcTotSize(0x1000, 0x4000_0002, PTR, PTR) == 8 && Wrap(0x4000_0002 * PTR) == 8
    ensures Wrap(0x4000_0000 * 5) == 0x4000_0000
  {
    assert Gap(0x1000, 4) == 0 && Gap(4, 4) == 0;
    CheckedSumMany(0, 0, 6, 4, 20);
    DivModUnique(4 * 0x4000_0001, U32, 1, 4);
    CheckedSumMany(0, 0, 0x4000_0002, 4, 4);
    DivModUnique(0x4000_0002 * PTR, U32, 1, 8);
    DivModUnique(0x4000_0000 * 5, U32, 1, 0x4000_0000);
  }

  /** Six blocks of 2^30 octets, predicted to need 2^31: the checks pass for a segment of that
      size, the third allocation fails, and the pointer table is lost. */
  lemma UnseenWrapCreateExample(t: Table, q: Request)
    requires t == InitTable(0x1000, 64) && q == Request(0x1000_0000, 0x8000_0000, 6, 0x4000_0000, 1)
    ensures TableInv(t) && Stumbles(t, q) && PoolCreate(t, q).err == SegEmpty && PoolCreate(t, q).tbl != t
    ensures ProductWrapsUnseen(q.base, q.nbr, q.size, q.align)
  {
    TableSizes();
    UnalignedSizes(q.base, 6, 0x4000_0000);
    InsertAbove(t, q);
    assert Gap(q.base, 1) == 0;
    hide Gap, Stride, CheckedSum, CalcTotSize, SearchFrom;
    WrapSmall(q.base + q.memSize - 1);
    assert MakePlan(t, q) == Go(Fresh(1), 0x1000_0000, 0x8000_0000, 24, 0);
    StumbleOutcome(t, q);
  }

  /** 2^30 + 2 blocks of one octet: the pointer table is sized for two of them.  The call
      succeeds, all other pointers are stored beyond its end, and the table of the created
      pool does not list the blocks. */
  lemma ShortTableExample(t: Table, q: Request)
    requires t == InitTable(0x1000, 64) && q == Request(0x1000_0000, 0x4000_0002, 0x4000_0002, 1, 1)
    ensures TableInv(t)
    ensures var r := PoolCreate(t, q);
            r.err == None_ && r.stray == 0x4000_0000 && r.created.NewPool? &&
            r.created.pool.nbr == 0x4000_0002 && |r.created.pool.ptrs| == 2 && !PoolInv(r.created.pool)
  {
    ShortTablePlan(t, q);
    ShortTableSucceeds(t, q);
    SuccessOverrunsIff(t, q);
    CreatedPoolSoundIff(t, q);
    CreatedLayout(t, q);
  }

  lemma ShortTablePlan(t: Table, q: Request)
    requires t == InitTable(0x1000, 64) && q == Request(0x1000_0000, 0x4000_0002, 0x4000_0002, 1, 1)
    ensures TableInv(t) && Slots(q) == 2 && MakePlan(t, q) == Go(Fresh(1), 0x1000_0000, 0x4000_0002, 8, 0)
  {
    hide Gap, Stride, CheckedSum, CalcTotSize, SearchFrom, Wrap, TotSize;
    TableSizes();
    ShortTableSize();
    InsertAbove(t, q);
    WrapSmall(q.base + q.memSize - 1);
  }

  lemma ShortTableSize()
    ensures CalcTotSize(0x1000_0000, 0x4000_0002, 1, 1) == 0x4000_0002
    ensures !ProductWrapsUnseen(0x1000_0000, 0x4000_0002, 1, 1)
  {
    hide CalcTotSize, Wrap, TotSize;
    UnalignedSizes(0x1000_0000, 0x4000_0002, 1);
    WrapSmall(0x4000_0001);
  }

  lemma ShortTableSucceeds(t: Table, q: Request)
    requires t == InitTable(0x1000, 64) && q == Request(0x1000_0000, 0x4000_0002, 0x4000_0002, 1, 1)
    requires TableInv(t) && MakePlan(t, q) == Go(Fresh(1), 0x1000_0000, 0x4000_0002, 8, 0)
    ensures PoolCreate(t, q).err == None_
  {
    hide ProductWrapsUnseen, CalcTotSize, MakePlan, PoolCreate;
    ShortTableSize();
    GoesThrough(t, q);
  }

  /** The heap of 100 octets as its own dedicated segment: the call succeeds, but the recorded
      start of the pool is that of the pointer table. */
  lemma AliasedUnsoundExample(t: Table, q: Request)
    requires t == InitTable(0x1000, 100) && q == Request(0x1000, 100, 4, 8, 8)
    ensures TableInv(t) && PoolCreate(t, q).err == None_ && PoolCreate(t, q).created.NewPool?
    ensures !PoolInv(PoolCreate(t, q).created.pool)
  {
    hide MakePlan, PoolCreate, Gap, TotSize, CalcTotSize, PoolInv, SearchFrom;
    AliasedPlan(t, q);
    ExampleSizes();
    GoesThrough(t, q);
    CreatedPoolSoundIff(t, q);
  }

  lemma AliasedPlan(t: Table, q: Request)
    requires t == InitTable(0x1000, 100) && q == Request(0x1000, 100, 4, 8, 8)
    ensures TableInv(t) && MakePlan(t, q) == Go(Listed(0), 0x1000, 32, 16, 0)
  {
    hide CheckedSum, CalcTotSize, Gap, Stride, Wrap;
    ExampleSizes();
    WrapSmall(q.base + q.memSize - 1);
    assert SearchFrom(t.segs, 0, q.base, q.memSize) == Found(0);
  }
}
