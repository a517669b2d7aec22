/** One memory segment of lib_mem.c: the overflow-checked size prediction, the
    bump allocator, and heap allocation.  All sizes and addresses are 32-bit words
    and every sum or product wraps where the C expression wraps. */
module Segment {
  import opened Arith

  datatype LibErr =
    | None_ | NullPtr
    | InvalidMemSize | InvalidMemAlign | InvalidSegSize | InvalidSegOverlap
    | InvalidPool | InvalidBlkNbr | InvalidBlkSize | InvalidBlkAlign
    | InvalidBlkAddr | InvalidBlkAddrInPool | InvalidBlkIx
    | HeapEmpty | HeapOvf | HeapNotFound | SegEmpty | SegOvf | PoolFull | PoolEmpty

  /** Something handed out by Mem_SegAlloc: a heap block, a pointer table or a pool block. */
  datatype Block = Block(addr: int, size: int, align: int) {
    function End(): int { addr + size }
  }

  /** The four segment fields of a MEM_POOL, and the log of what was allocated. */
  datatype Seg = Seg(base: u32, tot: u32, avail: u32, rem: u32, blocks: seq<Block>)

  predicate BlockIn(b: Block, lo: int, hi: int) {
    0 < b.size && 0 < b.align && lo <= b.addr && b.End() <= hi && b.addr % b.align == 0
  }

  /** Blocks are aligned, lie between lo and hi, and follow each other without overlap. */
  predicate BlocksOk(blocks: seq<Block>, lo: int, hi: int) {
    (forall i :: 0 <= i < |blocks| ==> BlockIn(blocks[i], lo, hi)) &&
    (forall i, j :: 0 <= i < j < |blocks| ==> blocks[i].End() <= blocks[j].addr)
  }

  /** Allocated and remaining octets always add up to the whole segment. */
  predicate SegInv(s: Seg) {
    0 < s.base && 0 < s.tot && s.base + s.tot <= U32 &&
    s.base <= s.avail && s.avail + s.rem == s.base + s.tot &&
    BlocksOk(s.blocks, s.base, s.avail)
  }

  // ---- Alignment gaps -------------------------------------------------------

  /** Octets from addr up to the next multiple of align. */
  function Gap(addr: int, align: int): (g: int)
    requires align > 0
    ensures 0 <= g < align
  {
    if addr % align != 0 then align - addr % align else 0
  }

  /** The gap is the only distance shorter than align that reaches a multiple of it. */
  lemma GapIff(addr: int, align: int, g: int)
    requires align > 0 && 0 <= g < align
    ensures (addr + g) % align == 0 <==> g == Gap(addr, align)
  {
    var q, o := addr / align, addr % align;
    assert addr == q * align + o;
    if o + g < align {
      DivModUnique(addr + g, align, q, o + g);
    } else {
      assert (q + 1) * align == q * align + align;
      DivModUnique(addr + g, align, q + 1, o + g - align);
    }
  }

  lemma GapAligns(addr: int, align: int)
    requires align > 0
    ensures (addr + Gap(addr, align)) % align == 0
  {
    GapIff(addr, align, Gap(addr, align));
  }

  /** The gap after an aligned start depends on the length alone. */
  lemma GapAfterAligned(start: int, len: int, align: int)
    requires align > 0 && start % align == 0
    ensures Gap(start + len, align) == Gap(len, align)
  {
    var g := Gap(len, align);
    GapAligns(len, align);
    assert start == (start / align) * align;
    ModAddMul(len + g, start / align, align);
    GapIff(start + len, align, g);
  }

  /** Distance between neighbouring blocks of a pool. */
  function Stride(size: int, align: int): (d: int)
    requires align > 0
    ensures size <= d
  {
    size + Gap(size, align)
  }

  lemma StrideAligned(size: int, align: int)
    requires align > 0
    ensures Stride(size, align) % align == 0
    ensures 0 < size ==> align <= Stride(size, align)
  {
    GapAligns(size, align);
    if 0 < size {
      var q := Stride(size, align) / align;
      assert Stride(size, align) == q * align;
      assert q <= 0 ==> q * align <= 0;
      assert q >= 1 ==> q * align >= align;
    }
  }

  /** An aligned block at a positive address below 2^32 leaves no room for a stride of 2^32. */
  lemma StrideFits(addr: int, size: int, align: int)
    requires 0 < addr && 0 < size && 0 < align && addr + Gap(addr, align) + size <= U32
    ensures 0 < Stride(size, align) < U32
  {
    var a := addr + Gap(addr, align);
    GapAligns(addr, align);
    assert a == (a / align) * align;
    if a / align <= 0 {
      MulLe(a / align, 0, align);
      assert false;
    }
    MulLe(1, a / align, align);
  }

  // ---- Mem_SegCalcTotSize ----------------------------------------------------

  /** The size of nbr blocks in unbounded arithmetic: Note 2c of Mem_SegCalcTotSize. */
  function TotSize(addr: int, nbr: int, size: int, align: int): int
    requires align > 0
  {
    Gap(addr, align) + Stride(size, align) * (nbr - 1) + size
  }

  /** The same sum as the C code forms it, with its overflow checks; 0 reports overflow. */
  function CalcTotSize(addr: u32, nbr: u32, size: u32, align: u32): u32
    requires align > 0
  {
    CheckedSum(Gap(addr, align), Gap(size, align), nbr, size)
  }

  /** memOffset + (size + blkOffset) * (nbr - 1) + size in 32-bit words. */
  function CheckedSum(memOffset: u32, blkOffset: u32, nbr: u32, size: u32): u32 {
    var sizeAligned := Wrap(size + blkOffset);
    var sizeAlignedNbr := Wrap(sizeAligned * Wrap(nbr - 1));
    var sizeTot := Wrap(Wrap(memOffset + sizeAlignedNbr) + size);
    var sizeMemAligned := Wrap(memOffset + size);
    if sizeMemAligned < memOffset || sizeMemAligned < size then 0
    else if nbr > 1 then
      var blkSizeTot := Wrap(sizeAlignedNbr + size);
      if sizeAligned < blkOffset || sizeAligned < size then 0
      else if sizeAlignedNbr < sizeAligned || sizeAlignedNbr < blkOffset || sizeAlignedNbr < size then 0
      else if blkSizeTot < sizeAlignedNbr || blkSizeTot < size then 0
      else if sizeTot < sizeMemAligned || sizeTot < sizeAlignedNbr || sizeTot < blkSizeTot then 0
      else sizeTot
    else sizeTot
  }

  /** The one overflow the checks let through: the product wraps to something that is
      still no smaller than its first factor, and nothing else overflows. */
  predicate ProductWrapsUnseen(addr: u32, nbr: u32, size: u32, align: u32)
    requires align > 0
  {
    var d := Stride(size, align);
    nbr > 1 && d < U32 <= d * (nbr - 1) && d <= Wrap(d * (nbr - 1)) &&
    Gap(addr, align) + Wrap(d * (nbr - 1)) + size < U32
  }

  lemma WrapSum(x: u32, y: u32)
    ensures Wrap(x + y) == if x + y < U32 then x + y else x + y - U32
  {
    if x + y < U32 {
      SmallMod(x + y, U32);
    } else {
      DivModUnique(x + y, U32, 1, x + y - U32);
    }
  }

  /** The arithmetic core, on the operands a + p + e of the sum. */
  lemma SumChecks(a: u32, e: u32, d: int, p: u32)
    requires 0 < e <= d
    ensures var t := Wrap(Wrap(a + p) + e); var ae := Wrap(a + e); var pe := Wrap(p + e);
            (ae >= a && ae >= e && p >= d && pe >= p && pe >= e && t >= ae && t >= p && t >= pe)
            <==> (p >= d && a + p + e < U32)
    ensures a + p + e < U32 ==> Wrap(Wrap(a + p) + e) == a + p + e
  {
    WrapSum(a, e);
    WrapSum(p, e);
    WrapSum(a, p);
    WrapSum(Wrap(a + p), e);
  }

  lemma CheckedSumOne(a: u32, b: u32, size: u32)
    requires 0 < size
    ensures CheckedSum(a, b, 1, size) == if a + size < U32 then a + size else 0
  {
    WrapSum(a, size);
    assert Wrap(size + b) * Wrap(0) == 0;
  }

  lemma CheckedSumMany(a: u32, b: u32, nbr: u32, size: u32, p: u32)
    requires 0 < size && 1 < nbr
    requires p == Wrap((size + b) * (nbr - 1))
    ensures size + b >= U32 ==> CheckedSum(a, b, nbr, size) == 0
    ensures size + b < U32 ==>
              CheckedSum(a, b, nbr, size) == if p >= size + b && a + p + size < U32 then a + p + size else 0
  {
    WrapSum(size, b);
    SmallMod(nbr - 1, U32);
    if size + b < U32 {
      SumChecks(a, size, size + b, p);
    }
  }

  /** What Mem_SegCalcTotSize returns, in terms of the unbounded size. */
  lemma CalcTotSizeValue(addr: u32, nbr: u32, size: u32, align: u32)
    requires 0 < nbr && 0 < size && 0 < align
    ensures TotSize(addr, nbr, size, align) < U32 ==>
              CalcTotSize(addr, nbr, size, align) == TotSize(addr, nbr, size, align)
    ensures TotSize(addr, nbr, size, align) >= U32 && !ProductWrapsUnseen(addr, nbr, size, align) ==>
              CalcTotSize(addr, nbr, size, align) == 0
    ensures ProductWrapsUnseen(addr, nbr, size, align) ==>
              TotSize(addr, nbr, size, align) >= U32 &&
              CalcTotSize(addr, nbr, size, align)
              == Gap(addr, align) + Wrap(Stride(size, align) * (nbr - 1)) + size
  {
    var a, d := Gap(addr, align), Stride(size, align);
    var prod := d * (nbr - 1);
    if nbr == 1 {
      assert prod == 0;
      CheckedSumOne(a, Gap(size, align), size);
    } else {
      MulLe(1, nbr - 1, d);
      CheckedSumMany(a, Gap(size, align), nbr, size, Wrap(prod));
      if prod < U32 {
        SmallMod(prod, U32);
      }
    }
  }

  /** The prediction is right, overflow report included, except for the unseen wrap. */
  lemma CalcTotSizeExactIff(addr: u32, nbr: u32, size: u32, align: u32)
    requires 0 < nbr && 0 < size && 0 < align
    ensures CalcTotSize(addr, nbr, size, align)
            == (if TotSize(addr, nbr, size, align) < U32 then TotSize(addr, nbr, size, align) else 0)
            <==> !ProductWrapsUnseen(addr, nbr, size, align)
  {
    CalcTotSizeValue(addr, nbr, size, align);
  }

  /** A concrete unseen wrap: 0x2000_0003 blocks of 8 octets are predicted to need 24. */
  lemma UnseenWrapExample()
    ensures ProductWrapsUnseen(8, 0x2000_0003, 8, 8)
    ensures CalcTotSize(8, 0x2000_0003, 8, 8) == 24
    ensures TotSize(8, 0x2000_0003, 8, 8) == 0x1_0000_0018
  {
    var n, d := 0x2000_0003, Stride(8, 8);
    assert Gap(8, 8) == 0 && d == 8;
    DivModUnique(d * (n - 1), U32, 1, 16);
    CalcTotSizeValue(8, n, 8, 8);
  }

  // ---- Mem_SegAlloc -----------------------------------------------------------

  /** The segment afterwards and the address of the block; address 0 is the NULL of the
      source, returned when the segment has no room. */
  function SegAlloc(s: Seg, size: u32, align: u32): (Seg, u32)
    requires align > 0
  {
    var offset := Gap(s.avail, align);
    var sizeTot := Wrap(offset + size);
    if sizeTot > s.rem then (s, 0)
    else if sizeTot < offset || sizeTot < size then (s, 0)
    else
      var next := Wrap(s.avail + sizeTot);
      if next < s.avail then (s, 0)
      else
        var addr := Wrap(s.avail + offset);
        (s.(avail := next, rem := Diff(s.rem, sizeTot), blocks := s.blocks + [Block(addr, size, align)]), addr)
  }

  /** Room for one aligned block, in unbounded arithmetic.  The next free address must
      itself stay an address, so a segment that ends at 2^32 never fills completely. */
  predicate Room(s: Seg, need: int) { need <= s.rem && s.avail + need < U32 }

  /** Mem_SegAlloc succeeds exactly when there is room; it then advances by the gap and
      the size, and otherwise changes nothing. */
  lemma SegAllocSpec(s: Seg, size: u32, align: u32)
    requires SegInv(s) && 0 < size && 0 < align
    ensures var (s', addr) := SegAlloc(s, size, align); var g := Gap(s.avail, align);
            if Room(s, g + size) then
              addr == s.avail + g && addr % align == 0 && addr > 0 &&
              s' == Seg(s.base, s.tot, s.avail + g + size, s.rem - (g + size), s.blocks + [Block(addr, size, align)])
            else s' == s && addr == 0
    ensures SegInv(SegAlloc(s, size, align).0)
  {
    var g := Gap(s.avail, align);
    WrapSum(g, size);
    if g + size <= s.rem {
      WrapSum(s.avail, g + size);
      WrapSum(s.avail, g);
      GapAligns(s.avail, align);
    }
  }

  // ---- N successive allocations -------------------------------------------------

  /** The first k of the allocations Mem_PoolCreate makes, stopping at the first failure. */
  function AllocRun(s: Seg, k: nat, size: u32, align: u32): (Seg, seq<u32>)
    requires align > 0
  {
    if k == 0 then (s, []) else
      var (s', addrs) := AllocRun(s, k - 1, size, align);
      if |addrs| < k - 1 then (s', addrs) else
        var (s'', addr) := SegAlloc(s', size, align);
        if addr == 0 then (s', addrs) else (s'', addrs + [addr])
  }

  /** Address of block i of a pool whose memory starts at addr. */
  function BlockAt(addr: int, i: int, size: int, align: int): int
    requires align > 0
  {
    addr + Gap(addr, align) + i * Stride(size, align)
  }

  /** A later block begins behind an earlier one. */
  lemma BlocksAscend(addr: int, i: int, j: int, size: int, align: int)
    requires align > 0 && i < j && 0 <= Stride(size, align) && size <= Stride(size, align)
    ensures BlockAt(addr, i, size, align) + size <= BlockAt(addr, j, size, align)
  {
    hide Gap, Stride;
    MulLe(i + 1, j, Stride(size, align));
    assert (i + 1) * Stride(size, align) == i * Stride(size, align) + Stride(size, align);
  }

  lemma BlockAtAligned(addr: int, i: int, size: int, align: int)
    requires align > 0
    ensures BlockAt(addr, i, size, align) % align == 0
  {
    var d := Stride(size, align);
    GapAligns(addr, align);
    StrideAligned(size, align);
    assert d == (d / align) * align;
    assert i * d == (i * (d / align)) * align;
    ModAddMul(addr + Gap(addr, align), i * (d / align), align);
  }

  /** Octets used by the first k allocations when all of them succeed. */
  function Used(addr: int, k: nat, size: int, align: int): int
    requires align > 0
  {
    if k == 0 then 0 else TotSize(addr, k, size, align)
  }

  /** One more block costs its own gap and size: the closed form is the running sum. */
  lemma UsedStep(addr: int, k: nat, size: int, align: int)
    requires align > 0 && 0 < size
    ensures Used(addr, k + 1, size, align)
            == Used(addr, k, size, align) + Gap(addr + Used(addr, k, size, align), align) + size
    ensures BlockAt(addr, k, size, align)
            == addr + Used(addr, k, size, align) + Gap(addr + Used(addr, k, size, align), align)
    ensures Used(addr, k, size, align) < Used(addr, k + 1, size, align)
  {
    var d := Stride(size, align);
    if k > 0 {
      var last := BlockAt(addr, k - 1, size, align);
      BlockAtAligned(addr, k - 1, size, align);
      assert addr + Used(addr, k, size, align) == last + size;
      GapAfterAligned(last, size, align);
      assert d * k == d * (k - 1) + d;
      assert (k - 1) * d + d == k * d;
    } else {
      assert d * 0 == 0;
    }
  }

  /** One more allocation after used octets have been taken from s. */
  lemma OneMoreAlloc(s: Seg, s1: Seg, used: int, size: u32, align: u32)
    requires SegInv(s) && SegInv(s1) && 0 < size && 0 < align && 0 <= used
    requires s1.base == s.base && s1.tot == s.tot && s1.avail == s.avail + used && s1.rem == s.rem - used
    ensures var (s2, addr) := SegAlloc(s1, size, align); var used2 := used + Gap(s1.avail, align) + size;
            SegInv(s2) && s2.base == s.base && s2.tot == s.tot && (addr != 0 <==> Room(s, used2)) &&
            (addr != 0 ==> s2.avail == s.avail + used2 && s2.rem == s.rem - used2 && addr == s1.avail + Gap(s1.avail, align)
                           && s2.blocks == s1.blocks + [Block(addr, size, align)])
  {
    SegAllocSpec(s1, size, align);
  }

  /** The log entries of a run of allocations. */
  function RunLog(addrs: seq<u32>, size: u32, align: u32): seq<Block> {
    if addrs == [] then [] else
      RunLog(addrs[..|addrs| - 1], size, align) + [Block(addrs[|addrs| - 1], size, align)]
  }

  /** Where a run of k allocations on s has arrived. */
  ghost predicate AfterRun(s: Seg, k: nat, size: u32, align: u32, s': Seg, addrs: seq<u32>)
    requires 0 < align
  {
    var used := Used(s.avail, k, size, align);
    SegInv(s') && s'.base == s.base && s'.tot == s.tot && |addrs| <= k &&
    (|addrs| == k <==> k == 0 || Room(s, used)) &&
    (|addrs| == k ==> s'.avail == s.avail + used && s'.rem == s.rem - used) &&
    s'.blocks == s.blocks + RunLog(addrs, size, align) &&
    forall i :: 0 <= i < |addrs| ==> addrs[i] == BlockAt(s.avail, i, size, align)
  }

  lemma AfterOneMore(s: Seg, k: nat, size: u32, align: u32, s1: Seg, addrs: seq<u32>)
    requires SegInv(s) && 0 < size && 0 < align
    requires AfterRun(s, k, size, align, s1, addrs) && |addrs| == k
    ensures var (s2, addr) := SegAlloc(s1, size, align);
            if addr == 0 then AfterRun(s, k + 1, size, align, s1, addrs)
            else AfterRun(s, k + 1, size, align, s2, addrs + [addr])
  {
    var used := Used(s.avail, k, size, align);
    UsedStep(s.avail, k, size, align);
    UsedNonNegative(s.avail, k, size, align);
    OneMoreAlloc(s, s1, used, size, align);
    var addr := SegAlloc(s1, size, align).1;
    assert (addrs + [addr])[..k] == addrs;
  }

  lemma AfterFailure(s: Seg, k: nat, size: u32, align: u32, s1: Seg, addrs: seq<u32>)
    requires 0 < size && 0 < align
    requires AfterRun(s, k, size, align, s1, addrs) && |addrs| < k
    ensures AfterRun(s, k + 1, size, align, s1, addrs)
  {
    UsedStep(s.avail, k, size, align);
  }

  /** N successive allocations all succeed exactly when the closed-form size fits; they
      then advance the segment by exactly that size and lay the blocks out at BlockAt. */
  lemma {:induction false} AllocRunClosedForm(s: Seg, k: nat, size: u32, align: u32)
    requires SegInv(s) && 0 < size && 0 < align
    ensures AfterRun(s, k, size, align, AllocRun(s, k, size, align).0, AllocRun(s, k, size, align).1)
  {
    if k > 0 {
      var (s1, addrs) := AllocRun(s, k - 1, size, align);
      AllocRunClosedForm(s, k - 1, size, align);
      if |addrs| == k - 1 {
        AfterOneMore(s, k - 1, size, align, s1, addrs);
      } else {
        AfterFailure(s, k - 1, size, align, s1, addrs);
      }
    }
  }

  /** A run that stops early stops at the first block without room, and has then used what the
      blocks before it need. */
  lemma {:induction false} StoppedRun(s: Seg, k: nat, size: u32, align: u32)
    requires SegInv(s) && 0 < size && 0 < align && |AllocRun(s, k, size, align).1| < k
    ensures var (s', addrs) := AllocRun(s, k, size, align); var used := Used(s.avail, |addrs|, size, align);
            !Room(s, Used(s.avail, |addrs| + 1, size, align)) && (addrs == [] || Room(s, used)) &&
            s'.avail == s.avail + used && s'.rem == s.rem - used
  {
    hide SegAlloc, Used, Room, BlockAt, SegInv, RunLog;
    AllocRunClosedForm(s, k - 1, size, align);
    if |AllocRun(s, k - 1, size, align).1| < k - 1 {
      StoppedRun(s, k - 1, size, align);
    } else {
      AllocRunClosedForm(s, k, size, align);
    }
  }

  /** A longer run begins with the shorter one. */
  lemma {:induction false} RunPrefix(s: Seg, k: nat, n: nat, size: u32, align: u32)
    requires 0 < align && k <= n
    ensures k <= |AllocRun(s, n, size, align).1| <= n <==> |AllocRun(s, k, size, align).1| == k
    ensures |AllocRun(s, n, size, align).1| <= n
  {
    hide SegAlloc;
    RunLength(s, k, size, align);
    RunLength(s, n, size, align);
    if k < n {
      RunPrefix(s, k, n - 1, size, align);
    }
  }

  lemma {:induction false} RunLength(s: Seg, n: nat, size: u32, align: u32)
    requires 0 < align
    ensures |AllocRun(s, n, size, align).1| <= n
  {
    hide SegAlloc;
    if n > 0 {
      RunLength(s, n - 1, size, align);
    }
  }

  lemma {:induction false} UsedNonNegative(addr: int, k: nat, size: int, align: int)
    requires align > 0 && 0 < size
    ensures 0 <= Used(addr, k, size, align)
  {
    if k > 0 {
      UsedNonNegative(addr, k - 1, size, align);
      UsedStep(addr, k - 1, size, align);
    }
  }

  // ---- Heap allocation -----------------------------------------------------------

  /** Result of an allocating call: segment, address (0 = NULL), octets still needed, error. */
  datatype Alloc = Alloc(seg: Seg, addr: u32, reqd: u32, err: LibErr)

  function HeapAlloc(heap: Seg, size: u32, align: u32): Alloc {
    if size < 1 then Alloc(heap, 0, 0, InvalidMemSize)
    else if align < 1 then Alloc(heap, 0, 0, InvalidMemAlign)
    else
      var sizeReq := CalcTotSize(heap.avail, 1, size, align);
      if sizeReq < 1 then Alloc(heap, 0, size, HeapOvf)
      else if sizeReq > heap.rem then Alloc(heap, 0, Diff(sizeReq, heap.rem), HeapEmpty)
      else
        var (heap', addr) := SegAlloc(heap, size, align);
        if addr == 0 then Alloc(heap, 0, sizeReq, HeapEmpty)
        else Alloc(heap', addr, 0, None_)
  }

  lemma HeapAllocSpec(heap: Seg, size: u32, align: u32)
    requires SegInv(heap) && 0 < size && 0 < align
    ensures var r := HeapAlloc(heap, size, align); var need := Gap(heap.avail, align) + size;
            (r.err == None_ <==> Room(heap, need)) &&
            (r.err == HeapOvf <==> need >= U32) && (r.err == HeapOvf ==> r.reqd == size) &&
            (r.err == HeapEmpty <==> need < U32 && !Room(heap, need)) &&
            (r.err == None_ ==> r.addr == heap.avail + Gap(heap.avail, align) && r.reqd == 0 && r.seg == SegAlloc(heap, size, align).0) &&
            (r.err != None_ ==> r.seg == heap && r.addr == 0) &&
            (r.err == HeapEmpty ==> r.reqd == if need > heap.rem then need - heap.rem else need)
    ensures SegInv(HeapAlloc(heap, size, align).seg)
  {
    CalcTotSizeValue(heap.avail, 1, size, align);
    assert Stride(size, align) * 0 == 0;
    SegAllocSpec(heap, size, align);
  }

  /** A size or alignment of 0 is refused, the size first, with NULL, nothing reported and the
      heap as it was -- and no other call is refused so. */
  lemma HeapAllocArguments(heap: Seg, size: u32, align: u32)
    ensures var r := HeapAlloc(heap, size, align);
            (r.err == InvalidMemSize <==> size == 0) && (r.err == InvalidMemAlign <==> size != 0 && align == 0) &&
            (size == 0 || align == 0 ==> r.seg == heap && r.addr == 0 && r.reqd == 0)
  {
  }

  /** A heap with the same free address but another number of octets remaining. */
  function WithRem(heap: Seg, rem: int): Seg
    requires 0 <= rem && heap.avail + rem <= U32 && heap.base <= heap.avail && heap.base < heap.avail + rem && 0 < heap.base
  {
    heap.(rem := rem, tot := heap.avail + rem - heap.base)
  }

  /** The shortfall reported with HEAP_EMPTY is exact: the same call on the same heap with
      r octets remaining succeeds exactly when r makes up the shortfall -- except that the
      last octet below 2^32 can never be handed out. */
  lemma ShortfallExact(heap: Seg, size: u32, align: u32, r: int)
    requires SegInv(heap) && 0 < size && 0 < align
    requires HeapAlloc(heap, size, align).err == HeapEmpty
    requires 0 <= r && heap.base < heap.avail + r <= U32
    ensures HeapAlloc(WithRem(heap, r), size, align).err == None_
            <==> heap.rem + HeapAlloc(heap, size, align).reqd <= r && heap.avail + Gap(heap.avail, align) + size < U32
  {
    HeapAllocSpec(heap, size, align);
    HeapAllocSpec(WithRem(heap, r), size, align);
  }

  /** The other HEAP_EMPTY branch, where the reported number is not a shortfall: reached
      exactly when the block would end at 2^32 and would fit otherwise. */
  lemma FullAddressSpaceIff(heap: Seg, size: u32, align: u32)
    requires SegInv(heap) && 0 < size && 0 < align
    ensures var need := Gap(heap.avail, align) + size;
            HeapAlloc(heap, size, align).err == HeapEmpty && need <= heap.rem <==> heap.avail + need == U32 && need <= heap.rem
  {
    HeapAllocSpec(heap, size, align);
  }

  /** A heap of the last 16 octets below 2^32, asked for 16: reported as needing 16 more. */
  lemma FullAddressSpaceExample()
    ensures var heap := Seg(0xFFFF_FFF0, 16, 0xFFFF_FFF0, 16, []);
            SegInv(heap) && HeapAlloc(heap, 16, 1).err == HeapEmpty && HeapAlloc(heap, 16, 1).reqd == 16
  {
    var heap := Seg(0xFFFF_FFF0, 16, 0xFFFF_FFF0, 16, []);
    assert Gap(0xFFFF_FFF0, 1) == 0;
    HeapAllocSpec(heap, 16, 1);
  }

  // ---- Mem_SegGetSizeRem / Mem_HeapGetSizeRem --------------------------------------

  const ALIGN_MAX: u32 := 4096

  /** Remaining size for blocks of the given alignment; the subtraction wraps. */
  function GetSizeRem(s: Seg, align: u32): (u32, LibErr) {
    if align < 1 then (0, InvalidMemAlign)
    else if align > ALIGN_MAX then (0, InvalidMemAlign)
    else if align > 1 then (Diff(s.rem, Gap(s.avail, align)), None_)
    else (s.rem, None_)
  }

  /** Alignments from 1 to 4096 are answered with what remains behind the alignment gap, reduced
      to a word; all others are refused. */
  lemma SizeRemSpec(s: Seg, align: u32)
    ensures var (rem, err) := GetSizeRem(s, align);
            (err == None_ <==> 1 <= align <= 4096) && (err != None_ ==> rem == 0 && err == InvalidMemAlign) &&
            (err == None_ ==> rem == if Gap(s.avail, align) <= s.rem then s.rem - Gap(s.avail, align)
                                     else s.rem + 0x1_0000_0000 - Gap(s.avail, align))
  {
    assert s.avail % 1 == 0;
  }

  ghost predicate ReportsLargestServable(s: Seg, align: u32) {
    forall size: u32 :: 0 < size ==>
      (HeapAlloc(s, size, align).err == None_ <==> size <= GetSizeRem(s, align).0)
  }

  /** The reported size is the largest that Mem_HeapAlloc can serve exactly when the
      alignment gap fits in what remains and the segment does not end at 2^32 (or nothing
      usable remains). */
  lemma SizeRemExactIff(s: Seg, align: u32)
    requires SegInv(s) && 1 <= align <= 4096
    ensures ReportsLargestServable(s, align)
            <==> Gap(s.avail, align) <= s.rem && (s.avail + s.rem < U32 || Gap(s.avail, align) == s.rem)
  {
    var g := Gap(s.avail, align);
    var reported := GetSizeRem(s, align).0;
    if align == 1 { assert s.avail % 1 == 0; }
    if g <= s.rem {
      assert reported == s.rem - g;
      if s.avail + s.rem < U32 || g == s.rem {
        forall size: u32 | 0 < size ensures HeapAlloc(s, size, align).err == None_ <==> size <= reported {
          HeapAllocSpec(s, size, align);
        }
      } else {
        HeapAllocSpec(s, reported, align);
        assert !(HeapAlloc(s, reported, align).err == None_ <==> reported <= reported);
      }
    } else {
      assert reported == U32 + s.rem - g;
      HeapAllocSpec(s, reported, align);
      assert !(HeapAlloc(s, reported, align).err == None_ <==> reported <= reported);
    }
  }

  /** A heap with 2 octets left before a 4-octet boundary reports almost 2^32 octets free. */
  lemma SizeRemWrapsExample()
    ensures var s := Seg(5, 2, 5, 2, []);
            SegInv(s) && GetSizeRem(s, 4) == (0xFFFF_FFFF, None_) && HeapAlloc(s, 1, 4).err == HeapEmpty
  {
  }
}
