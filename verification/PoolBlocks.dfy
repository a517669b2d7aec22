/** The blocks of one memory pool: which addresses belong to it, and the pointer table
    whose first BlkIx entries are the free blocks and whose other entries are in use. */
module PoolBlocks {
  import opened Arith
  import opened Segment

  /** The block-management fields of a MEM_POOL and the contents of its pointer table. */
  datatype Pool = Pool(start: u32, end: u32, align: u32, size: u32, nbr: u32, ix: u32, ptrs: seq<u32>)

  /** The pool occupies [start, end], exactly what nbr blocks need from start on. */
  predicate Geometry(p: Pool) {
    0 < p.start && 0 < p.align && 0 < p.size && 0 < p.nbr &&
    p.start + TotSize(p.start, p.nbr, p.size, p.align) <= U32 &&
    p.end == p.start + TotSize(p.start, p.nbr, p.size, p.align) - 1
  }

  function Blk(p: Pool, i: int): int
    requires Geometry(p)
  {
    BlockAt(p.start, i, p.size, p.align)
  }

  ghost predicate IsBlock(p: Pool, a: int)
    requires Geometry(p)
  {
    exists i :: 0 <= i < p.nbr && Blk(p, i) == a
  }

  lemma BlkBounds(p: Pool, i: int)
    requires Geometry(p) && 0 <= i < p.nbr
    ensures p.start <= Blk(p, i) && Blk(p, i) + p.size - 1 <= p.end
  {
    var d := Stride(p.size, p.align);
    MulLe(0, i, d);
    MulLe(i, p.nbr - 1, d);
  }

  lemma BlkDistinct(p: Pool, i: int, j: int)
    requires Geometry(p) && i < j
    ensures Blk(p, i) + p.size <= Blk(p, j)
  {
    BlocksAscend(p.start, i, j, p.size, p.align);
  }

  // ---- Mem_PoolBlkIsValidAddr --------------------------------------------------

  /** The modulus of the address check; the sum is a 32-bit word. */
  function Modulus(p: Pool): u32
    requires 0 < p.align
  {
    Wrap(Stride(p.size, p.align))
  }

  /** The first block lies at a positive multiple of the alignment, which leaves no room for a
      stride of 2^32 or more: the modulus is the stride and never 0. */
  lemma StrideIsWord(p: Pool)
    requires Geometry(p)
    ensures 0 < Stride(p.size, p.align) < U32 && Modulus(p) == Stride(p.size, p.align)
  {
    BlkBounds(p, 0);
    assert Blk(p, 0) == p.start + Gap(p.start, p.align) by { assert 0 * Stride(p.size, p.align) == 0; }
    StrideFits(p.start, p.size, p.align);
    SmallMod(Stride(p.size, p.align), U32);
  }

  /** Membership by modular arithmetic on a wrapping difference. */
  predicate IsValidAddr(p: Pool, blk: u32)
    requires 0 < p.align && Modulus(p) != 0
  {
    if blk < p.start || blk > p.end then false
    else
      var first := Wrap(p.start + Gap(p.start, p.align));
      Diff(blk, first) % Modulus(p) == 0
  }

  ghost predicate AcceptsExactlyTheBlocks(p: Pool)
    requires Geometry(p) && Modulus(p) != 0
  {
    forall a: u32 :: IsValidAddr(p, a) <==> IsBlock(p, a)
  }

  /** From the first block on, acceptance is membership. */
  lemma ValidAtOrAboveFirst(p: Pool, a: u32)
    requires Geometry(p) && Blk(p, 0) <= a
    ensures Modulus(p) != 0
    ensures IsValidAddr(p, a) <==> IsBlock(p, a)
  {
    hide Stride, Modulus, Gap;
    var d, first := Stride(p.size, p.align), Blk(p, 0);
    assert 0 * d == 0;
    StrideIsWord(p);
    BlkBounds(p, 0);
    SmallMod(first, U32);
    if IsValidAddr(p, a) {
      var q := (a - first) / d;
      assert a - first == q * d;
      WithinBlocks(p, a, q);
      assert Blk(p, q) == a;
    }
    if IsBlock(p, a) {
      BlockDistance(p, a);
    }
  }

  /** A block lies inside the pool, a whole number of strides above the first one. */
  lemma BlockDistance(p: Pool, a: int)
    requires Geometry(p) && IsBlock(p, a)
    ensures 0 < Stride(p.size, p.align) && (a - Blk(p, 0)) % Stride(p.size, p.align) == 0 && p.start <= a <= p.end
  {
    hide Stride, Modulus, Gap;
    StrideIsWord(p);
    var d := Stride(p.size, p.align);
    var i :| 0 <= i < p.nbr && Blk(p, i) == a;
    BlkBounds(p, i);
    assert 0 * d == 0;
    assert a - Blk(p, 0) == i * d;
    MulMod(i, d);
  }

  /** A whole number of strides above the first block, inside the pool, counts a block. */
  lemma WithinBlocks(p: Pool, a: int, q: int)
    requires Geometry(p) && Blk(p, 0) <= a <= p.end && a - Blk(p, 0) == q * Stride(p.size, p.align)
    ensures 0 <= q < p.nbr
  {
    hide Gap;
    var d := Stride(p.size, p.align);
    assert 0 * d == 0;
    assert p.nbr * d == d * (p.nbr - 1) + d;
    if q >= p.nbr {
      MulLe(p.nbr, q, d);
      assert false;
    }
    if q < 0 {
      MulLe(q, -1, d);
      assert false;
    }
  }

  lemma NotBelowFirst(p: Pool, a: int)
    requires Geometry(p) && a < Blk(p, 0)
    ensures !IsBlock(p, a)
  {
    var d := Stride(p.size, p.align);
    forall i | 0 <= i < p.nbr ensures Blk(p, i) != a {
      MulLe(0, i, d);
    }
  }

  lemma RemainderOf2To32(d: int, g: int)
    requires 0 < g < d
    ensures (U32 - g) % d == 0 <==> U32 % d == g
  {
    if (U32 - g) % d == 0 {
      DivModUnique(U32, d, (U32 - g) / d, g);
    }
    if U32 % d == g {
      assert U32 - g == (U32 / d) * d;
      MulMod(U32 / d, d);
    }
  }

  /** In the alignment gap before the first block the difference wraps; the address g
      octets below the first block is accepted exactly when 2^32 leaves remainder g. */
  lemma ValidInGap(p: Pool, g: int)
    requires Geometry(p) && 0 < g <= Gap(p.start, p.align)
    ensures 0 < Stride(p.size, p.align) && Modulus(p) != 0
    ensures Blk(p, 0) - g < U32 && !IsBlock(p, Blk(p, 0) - g)
    ensures IsValidAddr(p, Blk(p, 0) - g) <==> U32 % Stride(p.size, p.align) == g
  {
    var d, first := Stride(p.size, p.align), p.start + Gap(p.start, p.align);
    assert first == Blk(p, 0) by { assert 0 * d == 0; }
    StrideIsWord(p);
    BlkBounds(p, 0);
    SmallMod(first, U32);
    StrideAligned(p.size, p.align);
    NotBelowFirst(p, first - g);
    RemainderOf2To32(d, g);
    assert Diff(first - g, first) == U32 - g;
  }

  /** Exactly when the address check is right: 2^32 modulo the stride does not fall into
      the alignment gap before the first block. */
  lemma ValidationExactIff(p: Pool)
    requires Geometry(p)
    ensures 0 < Stride(p.size, p.align) < U32 && Modulus(p) != 0
    ensures AcceptsExactlyTheBlocks(p)
            <==> U32 % Stride(p.size, p.align) == 0 || Gap(p.start, p.align) < U32 % Stride(p.size, p.align)
  {
    StrideIsWord(p);
    var d, gap := Stride(p.size, p.align), Gap(p.start, p.align);
    var r := U32 % d;
    assert Blk(p, 0) == p.start + gap by { assert 0 * d == 0; }
    if 0 < r <= gap {
      ValidInGap(p, r);
      assert !(IsValidAddr(p, Blk(p, 0) - r) <==> IsBlock(p, Blk(p, 0) - r));
    } else {
      forall a: u32 ensures IsValidAddr(p, a) <==> IsBlock(p, a) {
        if a < p.start {
          NotBelowFirst(p, a);
        } else if a < Blk(p, 0) {
          ValidInGap(p, Blk(p, 0) - a);
        } else {
          ValidAtOrAboveFirst(p, a);
        }
      }
    }
  }

  lemma PowerOfTwoRemainder(d: int, k: nat)
    requires k < 32 && 0 < d && d % Pow2(k) == 0
    ensures U32 % d == 0 || Pow2(k) <= U32 % d
  {
    Pow2At32();
    Pow2Add(32 - k, k);
    DivisorKeepsRemainder(U32, Pow2(32 - k), d, Pow2(k));
  }

  lemma DivisorKeepsRemainder(x: int, c: int, d: int, m: int)
    requires 0 < d && 0 < m && x == c * m && d % m == 0
    ensures x % d == 0 || m <= x % d
  {
    var r := x % d;
    assert x - r == (x / d) * d;
    MulMod(x / d, d);
    DivisorChain(x - r, d, m);
    MulMod(c, m);
    ModEqIff(x, r, m);
    if 0 < r < m {
      SmallMod(r, m);
      assert false;
    }
  }

  /** For the documented power-of-two alignments the check is right. */
  lemma ValidationExactForPowersOfTwo(p: Pool, k: nat)
    requires Geometry(p) && k < 32 && p.align == Pow2(k)
    ensures Modulus(p) != 0 && AcceptsExactlyTheBlocks(p)
  {
    StrideIsWord(p);
    StrideAligned(p.size, p.align);
    PowerOfTwoRemainder(Stride(p.size, p.align), k);
    ValidationExactIff(p);
  }

  /** Alignment 3 in a pool that starts 1 octet before its first block: the octet of
      padding is taken for a block. */
  lemma GapAddressAcceptedExample()
    ensures var p := Pool(5, 8, 3, 3, 1, 1, [6]);
            PoolInv(p) && Modulus(p) == 3 && IsValidAddr(p, 5) && !IsBlock(p, 5)
  {
    var p := Pool(5, 8, 3, 3, 1, 1, [6]);
    assert Gap(5, 3) == 1 && Stride(3, 3) == 3;
    assert Blk(p, 0) == 6 && p.ptrs[0] == 6;
    ValidInGap(p, 1);
  }

  // ---- The pointer table ---------------------------------------------------------

  /** The table is a permutation of the pool's blocks. */
  ghost predicate PoolInv(p: Pool) {
    Geometry(p) && Modulus(p) != 0 && |p.ptrs| == p.nbr && p.ix <= p.nbr &&
    Distinct(p.ptrs) &&
    (forall k :: 0 <= k < |p.ptrs| ==> IsBlock(p, p.ptrs[k])) &&
    (forall i :: 0 <= i < p.nbr ==> Blk(p, i) in p.ptrs)
  }

  ghost function Free(p: Pool): set<u32>
    requires p.ix <= |p.ptrs|
  {
    Elements(p.ptrs[..p.ix])
  }

  ghost function Held(p: Pool): set<u32>
    requires p.ix <= |p.ptrs|
  {
    Elements(p.ptrs[p.ix..])
  }

  /** Every block is either free or held, never both, and the counts add up. */
  lemma FreeHeldPartition(p: Pool)
    requires PoolInv(p)
    ensures Free(p) !! Held(p)
    ensures forall a: u32 :: IsBlock(p, a) <==> a in Free(p) + Held(p)
    ensures |Free(p)| == p.ix && |Held(p)| == p.nbr - p.ix
  {
    DistinctSize(p.ptrs[..p.ix]);
    DistinctSize(p.ptrs[p.ix..]);
    assert p.ptrs == p.ptrs[..p.ix] + p.ptrs[p.ix..];
    forall a: u32 ensures IsBlock(p, a) <==> a in Free(p) + Held(p) {
      if IsBlock(p, a) {
        assert a in p.ptrs;
      }
    }
  }

  /** First index from lo on that holds x, or the length of the table. */
  function Find(s: seq<u32>, lo: nat, x: u32): (i: nat)
    requires lo <= |s|
    ensures lo <= i <= |s| && x !in s[lo..i]
    ensures i < |s| ==> s[i] == x
    ensures i < |s| <==> x in s[lo..]
    decreases |s| - lo
  {
    if lo == |s| then lo
    else if s[lo] == x then
      assert s[lo..][0] == x;
      lo
    else
      var i := Find(s, lo + 1, x);
      assert s[lo..i] == [s[lo]] + s[lo + 1..i];
      assert s[lo..] == [s[lo]] + s[lo + 1..];
      i
  }

  // ---- The four operations on a pool -----------------------------------------------

  /** Mem_PoolBlkGet on a pool: pool afterwards, block (0 = NULL), error. */
  function BlkGet(p: Pool, size: u32): (Pool, u32, LibErr)
    requires p.nbr <= |p.ptrs|
  {
    if size < 1 then (p, 0, InvalidBlkSize)
    else if size > p.size then (p, 0, InvalidBlkSize)
    else if p.ix < 1 then (p, 0, PoolEmpty)
    else if p.ix > p.nbr then (p, 0, InvalidBlkIx)
    else (p.(ix := p.ix - 1), p.ptrs[p.ix - 1], None_)
  }

  /** Mem_PoolBlkFree on a pool. */
  function BlkFree(p: Pool, blk: u32): (Pool, LibErr)
    requires p.nbr == |p.ptrs| && p.ix <= p.nbr && 0 < p.align && Modulus(p) != 0
  {
    if blk == 0 then (p, NullPtr)
    else if !IsValidAddr(p, blk) then (p, InvalidBlkAddr)
    else if blk in p.ptrs[..p.ix] then (p, InvalidBlkAddrInPool)
    else if p.ix >= p.nbr then (p, PoolFull)
    else
      var i := Find(p.ptrs, p.ix, blk);
      if i == |p.ptrs| then (p, InvalidPool)
      else (p.(ptrs := p.ptrs[i := p.ptrs[p.ix]][p.ix := blk], ix := p.ix + 1), None_)
  }

  const INVALID_IX: u32 := 0xFFFF_FFFF

  /** Mem_PoolBlkIxGet on a pool: temporary index of a block in use. */
  function BlkIxGet(p: Pool, blk: u32): (u32, LibErr)
    requires p.nbr == |p.ptrs| && p.ix <= p.nbr && 0 < p.align && Modulus(p) != 0
  {
    if blk == 0 then (INVALID_IX, NullPtr)
    else if !IsValidAddr(p, blk) then (INVALID_IX, InvalidBlkAddr)
    else if blk in p.ptrs[..p.ix] then (INVALID_IX, InvalidBlkAddrInPool)
    else if p.ix >= p.nbr then (INVALID_IX, PoolFull)
    else
      var i := Find(p.ptrs, p.ix, blk);
      if i == |p.ptrs| then (INVALID_IX, InvalidPool) else (p.nbr - 1 - i, None_)
  }

  /** Mem_PoolBlkGetUsedAtIx on a pool; the index computation wraps. */
  function BlkUsedAt(p: Pool, used: u32): (u32, LibErr)
    requires p.nbr == |p.ptrs|
  {
    if p.ix >= p.nbr then (0, InvalidBlkIx)
    else
      var blkIx := Wrap(Wrap(p.nbr - used) - 1);
      if blkIx >= p.nbr then (0, InvalidBlkIx)
      else if blkIx < p.ix then (0, InvalidBlkIx)
      else (p.ptrs[blkIx], None_)
  }

  // ---- What each operation does ----------------------------------------------------

  lemma BlockIsValid(p: Pool, blk: u32)
    requires PoolInv(p) && blk in p.ptrs
    ensures blk != 0 && IsValidAddr(p, blk)
  {
    hide IsValidAddr, Modulus, Gap, Stride;
    assert IsBlock(p, blk);
    var i :| 0 <= i < p.nbr && Blk(p, i) == blk;
    BlkBounds(p, i);
    MulLe(0, i, Stride(p.size, p.align));
    ValidAtOrAboveFirst(p, blk);
  }

  lemma IxKeepsInv(p: Pool, ix: u32)
    requires PoolInv(p) && ix <= p.nbr
    ensures PoolInv(p.(ix := ix))
  {
    var q := p.(ix := ix);
    SameBlocks(p, q);
    forall i | 0 <= i < q.nbr ensures Blk(q, i) in q.ptrs {
      assert Blk(p, i) in p.ptrs;
    }
  }

  /** Moving the boundary of a table of distinct entries past entry k. */
  lemma MoveBoundary(s: seq<u32>, k: nat)
    requires Distinct(s) && k < |s|
    ensures s[k] !in Elements(s[..k]) && s[k] !in Elements(s[k + 1..])
    ensures Elements(s[..k + 1]) == Elements(s[..k]) + {s[k]}
    ensures Elements(s[k..]) == Elements(s[k + 1..]) + {s[k]}
  {
    assert s[..k + 1] == s[..k] + [s[k]];
    assert s[k..] == [s[k]] + s[k + 1..];
  }

  /** Exchanging an upper entry with the one at the boundary moves nothing across it. */
  lemma SwapAtBoundary(s: seq<u32>, ix: nat, i: nat)
    requires ix <= i < |s|
    ensures var t := s[i := s[ix]][ix := s[i]];
            t[..ix] == s[..ix] && Elements(t[ix..]) == Elements(s[ix..]) && t[ix] == s[i]
  {
    var t := s[i := s[ix]][ix := s[i]];
    forall x | x in s[ix..] ensures x in t[ix..] {
      var k :| 0 <= k < |s[ix..]| && s[ix..][k] == x;
      var j := if ix + k == i then ix else if ix + k == ix then i else ix + k;
      assert t[ix..][j - ix] == x;
    }
    forall x | x in t[ix..] ensures x in s[ix..] {
      var k :| 0 <= k < |t[ix..]| && t[ix..][k] == x;
      var j := if ix + k == i then ix else if ix + k == ix then i else ix + k;
      assert s[ix..][j - ix] == x;
    }
  }

  lemma UpperNotLower(s: seq<u32>, ix: nat, x: u32)
    requires Distinct(s) && ix <= |s|
    ensures x in s[ix..] ==> x in s && x !in s[..ix]
    ensures x in s[..ix] ==> x in s && x !in s[ix..]
    ensures x in s ==> x in s[..ix] || x in s[ix..]
  {
    assert s == s[..ix] + s[ix..];
  }

  /** Every answer to a request, also on a pool whose index has been corrupted: a size of 0 or
      above the block size is refused first, then an empty pool, then an index out of range;
      otherwise the free block listed last is handed out. */
  lemma GetAnswers(p: Pool, size: u32)
    requires p.nbr <= |p.ptrs|
    ensures var (p', blk, err) := BlkGet(p, size); var fits := 1 <= size <= p.size;
            (err == InvalidBlkSize <==> !fits) && (err == PoolEmpty <==> fits && p.ix == 0) &&
            (err == InvalidBlkIx <==> fits && p.nbr < p.ix) && (err == None_ <==> fits && 1 <= p.ix <= p.nbr) &&
            (err != None_ ==> p' == p && blk == 0) && (err == None_ ==> p' == p.(ix := p.ix - 1) && blk == p.ptrs[p.ix - 1])
  {
  }

  /** A request that fits is served from the free blocks whenever one is left; the block
      moves from free to held. */
  lemma GetSpec(p: Pool, size: u32)
    requires PoolInv(p)
    ensures var (p', blk, err) := BlkGet(p, size);
            PoolInv(p') && p' == p.(ix := p'.ix) &&
            (err == None_ <==> 0 < size <= p.size && Free(p) != {}) &&
            (err == PoolEmpty <==> 0 < size <= p.size && Free(p) == {}) &&
            (err == None_ || err == PoolEmpty || err == InvalidBlkSize) &&
            (err != None_ ==> p' == p && blk == 0) &&
            (err == None_ ==> blk in Free(p) && blk !in Held(p) && p'.ix == p.ix - 1 && blk == p.ptrs[p.ix - 1]
                              && Free(p') == Free(p) - {blk} && Held(p') == Held(p) + {blk})
  {
    if p.ix == 0 {
      assert Free(p) == {};
    } else {
      MoveBoundary(p.ptrs, p.ix - 1);
      assert p.ptrs[p.ix - 1] in Free(p);
      IxKeepsInv(p, p.ix - 1);
    }
  }

  /** Exchanging two entries keeps the table a permutation of the blocks. */
  lemma SwapKeepsInv(p: Pool, i: int, j: int)
    requires PoolInv(p) && 0 <= i < |p.ptrs| && 0 <= j < |p.ptrs|
    ensures PoolInv(p.(ptrs := p.ptrs[i := p.ptrs[j]][j := p.ptrs[i]]))
  {
    var s, t := p.ptrs, p.ptrs[i := p.ptrs[j]][j := p.ptrs[i]];
    var q := p.(ptrs := t);
    SameBlocks(p, q);
    forall k | 0 <= k < |t| ensures IsBlock(q, t[k]) {
      var x := if k == i then j else if k == j then i else k;
      assert t[k] == s[x];
    }
    forall b | 0 <= b < q.nbr ensures Blk(q, b) in t {
      assert Blk(p, b) in s;
      var k :| 0 <= k < |s| && s[k] == Blk(p, b);
      var x := if k == i then j else if k == j then i else k;
      assert t[x] == s[k];
    }
  }

  /** The successful path of a free call. */
  lemma FreeHeldBlock(p: Pool, blk: u32)
    requires PoolInv(p) && blk in Held(p)
    ensures var (p', err) := BlkFree(p, blk);
            err == None_ && PoolInv(p') && p' == p.(ix := p'.ix, ptrs := p'.ptrs) &&
            Held(p') == Held(p) - {blk} && Free(p') == Free(p) + {blk} &&
            p'.ix == p.ix + 1 && EntriesAfterFree(p, p', blk)
  {
    UpperNotLower(p.ptrs, p.ix, blk);
    BlockIsValid(p, blk);
    var i := Find(p.ptrs, p.ix, blk);
    SwapKeepsInv(p, i, p.ix);
    SwapAtBoundary(p.ptrs, p.ix, i);
    var q := p.(ptrs := p.ptrs[i := p.ptrs[p.ix]][p.ix := p.ptrs[i]]);
    MoveBoundary(q.ptrs, p.ix);
    IxKeepsInv(q, p.ix + 1);
    assert BlkFree(p, blk).0 == q.(ix := p.ix + 1);
    hide PoolInv, Held, IsValidAddr, Elements;
    SwappedEntries(p.ptrs, p.ix, i, blk);
  }

  /** The freed block has changed places with the first held one; every other entry, and with
      it the order in which the free blocks are handed out, is as before. */
  predicate EntriesAfterFree(p: Pool, p': Pool, blk: u32)
    requires |p'.ptrs| == |p.ptrs| && p.ix < |p.ptrs|
  {
    p'.ptrs[..p.ix] == p.ptrs[..p.ix] && p'.ptrs[p.ix] == blk &&
    forall k :: p.ix < k < |p.ptrs| ==> p'.ptrs[k] == if p.ptrs[k] == blk then p.ptrs[p.ix] else p.ptrs[k]
  }

  lemma SwappedEntries(s: seq<u32>, ix: nat, i: nat, x: u32)
    requires Distinct(s) && ix <= i < |s| && s[i] == x
    ensures var t := s[i := s[ix]][ix := x];
            t[..ix] == s[..ix] && t[ix] == x && forall k :: ix < k < |s| ==> t[k] == if s[k] == x then s[ix] else s[k]
  {
  }

  /** A free call succeeds exactly on held blocks, recognises exactly the free blocks as
      already in the pool, and rejects every other address without changing the pool. */
  lemma FreeSpec(p: Pool, blk: u32)
    requires PoolInv(p)
    ensures var (p', err) := BlkFree(p, blk);
            PoolInv(p') && p' == p.(ix := p'.ix, ptrs := p'.ptrs) &&
            (err == None_ <==> blk in Held(p)) &&
            (err == InvalidBlkAddrInPool <==> blk in Free(p)) &&
            (err == NullPtr <==> blk == 0) &&
            (err == InvalidBlkAddr <==> blk != 0 && !IsValidAddr(p, blk)) &&
            (err == PoolFull <==> blk != 0 && IsValidAddr(p, blk) && !IsBlock(p, blk) && Held(p) == {}) &&
            (err == InvalidPool <==> blk != 0 && IsValidAddr(p, blk) && !IsBlock(p, blk) && Held(p) != {}) &&
            (err != None_ ==> p' == p) &&
            (err == None_ ==> Held(p') == Held(p) - {blk} && Free(p') == Free(p) + {blk}
                              && p'.ix == p.ix + 1 && EntriesAfterFree(p, p', blk))
  {
    UpperNotLower(p.ptrs, p.ix, blk);
    if blk in Held(p) {
      FreeHeldBlock(p, blk);
      InTableIsBlock(p, blk);
    } else if blk in Free(p) {
      BlockIsValid(p, blk);
      InTableIsBlock(p, blk);
    } else {
      InTableIsBlock(p, blk);
      SomeHeldIff(p);
    }
  }

  lemma SomeHeldIff(p: Pool)
    requires p.nbr == |p.ptrs| && p.ix <= p.nbr
    ensures Held(p) == {} <==> p.ix == p.nbr
  {
    if p.ix < p.nbr {
      assert p.ptrs[p.ix..][0] in Held(p);
    }
  }

  lemma InTableIsBlock(p: Pool, a: u32)
    requires PoolInv(p)
    ensures a in p.ptrs <==> IsBlock(p, a)
  {
  }

  /** POOL_FULL and the not-found error cannot occur exactly when 2^32 modulo the stride does
      not fall into the alignment gap before the first block. */
  lemma RareErrorsUnreachableIff(p: Pool)
    requires PoolInv(p)
    ensures 0 < Stride(p.size, p.align)
    ensures (forall blk: u32 :: BlkFree(p, blk).1 != PoolFull && BlkFree(p, blk).1 != InvalidPool)
            <==> U32 % Stride(p.size, p.align) == 0 || Gap(p.start, p.align) < U32 % Stride(p.size, p.align)
  {
    forall blk: u32
      ensures (BlkFree(p, blk).1 == PoolFull || BlkFree(p, blk).1 == InvalidPool)
              <==> !(IsValidAddr(p, blk) <==> IsBlock(p, blk))
    {
      FreeSpec(p, blk);
      InTableIsBlock(p, blk);
      if IsBlock(p, blk) {
        BlockIsValid(p, blk);
      }
    }
    hide BlkFree, PoolInv, Stride, Gap, IsValidAddr;
    ValidationExactIff(p);
  }

  /** For the documented power-of-two alignments a free call of any address says exactly what
      the address is: a held block, a free block, or no block of this pool. */
  lemma FreeSpecForPowersOfTwo(p: Pool, blk: u32, k: nat)
    requires PoolInv(p) && k < 32 && p.align == Pow2(k) && blk != 0
    ensures var err := BlkFree(p, blk).1;
            (err == None_ <==> blk in Held(p)) && (err == InvalidBlkAddrInPool <==> blk in Free(p)) &&
            (err == InvalidBlkAddr <==> !IsBlock(p, blk)) && err != PoolFull && err != InvalidPool
  {
    hide BlkFree, IsValidAddr, Pow2, Modulus, Stride, Gap;
    FreeSpec(p, blk);
    ValidationExactForPowersOfTwo(p, k);
  }

  /** With alignment 3, freeing an octet of padding is answered POOL_FULL while all blocks are
      free and as a corrupt pool while the block is held. */
  lemma RareErrorsExample()
    ensures var full := Pool(5, 8, 3, 3, 1, 1, [6]); var held := Pool(5, 8, 3, 3, 1, 0, [6]);
            PoolInv(full) && BlkFree(full, 5).1 == PoolFull && PoolInv(held) && BlkFree(held, 5).1 == InvalidPool
  {
    GapAddressAcceptedExample();
    var full, held := Pool(5, 8, 3, 3, 1, 1, [6]), Pool(5, 8, 3, 3, 1, 0, [6]);
    IxKeepsInv(full, 0);
    SameBlocks(full, held);
    assert Modulus(held) == 3 && IsValidAddr(held, 5);
  }

  /** The block just freed is the next one handed out. */
  lemma GetAfterFree(p: Pool, blk: u32, size: u32)
    requires PoolInv(p) && blk in Held(p) && 0 < size <= p.size
    ensures var p1 := BlkFree(p, blk).0;
            BlkGet(p1, size).1 == blk && BlkGet(p1, size).2 == None_ && Held(BlkGet(p1, size).0) == Held(p)
  {
    FreeSpec(p, blk);
    GetSpec(BlkFree(p, blk).0, size);
  }

  // ---- Indices of blocks in use -----------------------------------------------------

  /** The wrapping index computation of Mem_PoolBlkGetUsedAtIx. */
  lemma UsedIndex(n: u32, i: u32)
    ensures Wrap(Wrap(n - i) - 1) == if i < n then n - 1 - i else U32 + n - 1 - i
  {
    if i < n {
      SmallMod(n - i, U32);
      SmallMod(n - i - 1, U32);
    } else if i == n {
      SmallMod(0, U32);
      DivModUnique(-1, U32, -1, U32 - 1);
    } else {
      DivModUnique(n - i, U32, -1, U32 + n - i);
      SmallMod(U32 + n - i - 1, U32);
    }
  }

  /** The two index functions are inverse between held blocks and [0, held). */
  lemma IndexOfHeldBlock(p: Pool, blk: u32)
    requires PoolInv(p) && blk in Held(p)
    ensures var (i, err) := BlkIxGet(p, blk);
            err == None_ && i < p.nbr - p.ix && BlkUsedAt(p, i) == (blk, None_)
  {
    UpperNotLower(p.ptrs, p.ix, blk);
    BlockIsValid(p, blk);
    UsedAtValue(p, p.nbr - 1 - Find(p.ptrs, p.ix, blk));
  }

  lemma UsedAtValue(p: Pool, i: u32)
    requires p.nbr == |p.ptrs| && p.ix <= p.nbr
    ensures BlkUsedAt(p, i) == if i < p.nbr - p.ix then (p.ptrs[p.nbr - 1 - i], None_) else (0, InvalidBlkIx)
  {
    UsedIndex(p.nbr, i);
  }

  lemma FindInDistinct(s: seq<u32>, lo: nat, k: nat)
    requires Distinct(s) && lo <= k < |s|
    ensures Find(s, lo, s[k]) == k
  {
    assert s[k] == s[lo..][k - lo];
  }

  lemma HeldBlockAtIndex(p: Pool, i: u32)
    requires PoolInv(p)
    ensures var (blk, err) := BlkUsedAt(p, i);
            (err == None_ <==> i < p.nbr - p.ix) &&
            (err == None_ ==> blk == p.ptrs[p.nbr - 1 - i] && blk in Held(p) && BlkIxGet(p, blk) == (i, None_)) &&
            (err != None_ ==> err == InvalidBlkIx && blk == 0)
  {
    UsedAtValue(p, i);
    if i < p.nbr - p.ix {
      var k := p.nbr - 1 - i;
      assert p.ptrs[k] == p.ptrs[p.ix..][k - p.ix];
      FindInDistinct(p.ptrs, p.ix, k);
      UpperNotLower(p.ptrs, p.ix, p.ptrs[k]);
      BlockIsValid(p, p.ptrs[k]);
    }
  }

  // ---- Runs of Get and Free ------------------------------------------------------------

  datatype Op = GetOp(size: u32) | FreeOp(blk: u32)

  /** What the caller sees of one call. */
  datatype Event = Got(blk: u32) | Freed(blk: u32) | Refused(err: LibErr)

  function Step(p: Pool, op: Op): (Pool, Event)
    requires p.nbr == |p.ptrs| && p.ix <= p.nbr && 0 < p.align && Modulus(p) != 0
  {
    match op
    case GetOp(size) =>
      var (p', blk, err) := BlkGet(p, size);
      (p', if err == None_ then Got(blk) else Refused(err))
    case FreeOp(blk) =>
      var (p', err) := BlkFree(p, blk);
      (p', if err == None_ then Freed(blk) else Refused(err))
  }

  lemma StepKeepsInv(p: Pool, op: Op)
    requires PoolInv(p)
    ensures var q := Step(p, op).0; PoolInv(q) && q == p.(ix := q.ix, ptrs := q.ptrs)
  {
    match op
    case GetOp(size) => GetSpec(p, size);
    case FreeOp(blk) => FreeSpec(p, blk);
  }

  /** The pool and the callers' history after the first n operations. */
  ghost function Exec(p: Pool, ops: seq<Op>): (r: (Pool, seq<Event>))
    requires PoolInv(p)
    ensures PoolInv(r.0) && |r.1| == |ops| && r.0 == p.(ix := r.0.ix, ptrs := r.0.ptrs)
  {
    if ops == [] then (p, []) else
      var (p1, events) := Exec(p, ops[..|ops| - 1]);
      var op := ops[|ops| - 1];
      var (p2, e) := Step(p1, op);
      StepKeepsInv(p1, op);
      (p2, events + [e])
  }

  /** The callers' holdings after one event. */
  function HeldAfter(held: set<u32>, e: Event): set<u32> {
    match e
    case Got(blk) => held + {blk}
    case Freed(blk) => held - {blk}
    case Refused(_) => held
  }

  /** The blocks the callers hold, worked out from their history alone. */
  ghost function HeldByHistory(events: seq<Event>): set<u32> {
    if events == [] then {} else
      HeldAfter(HeldByHistory(events[..|events| - 1]), events[|events| - 1])
  }

  /** One event is sound after a given history: a block is handed out only while nobody
      holds it, taken back only from a holder, and "empty" means all blocks are held. */
  ghost predicate EventSound(p: Pool, held: set<u32>, e: Event)
    requires Geometry(p)
  {
    match e
    case Got(blk) => blk !in held && IsBlock(p, blk)
    case Freed(blk) => blk in held
    case Refused(err) => err == PoolEmpty ==> |held| == p.nbr
  }

  /** One step keeps the callers' history and the table in agreement. */
  lemma StepSound(p: Pool, op: Op)
    requires PoolInv(p)
    ensures var (q, e) := Step(p, op);
            PoolInv(q) && EventSound(p, Held(p), e) && Held(q) == HeldAfter(Held(p), e)
  {
    hide IsValidAddr, BlkFree, BlkGet, Stride, Wrap, Distinct, Elements;
    FreeHeldPartition(p);
    match op {
      case GetOp(size) =>
        GetSpec(p, size);
      case FreeOp(blk) =>
        FreeSpec(p, blk);
    }
  }

  /** All a table needs for its entries to be handed out one at a time, even if they are not
      the blocks that the address check knows. */
  predicate TableOk(p: Pool) {
    |p.ptrs| == p.nbr && p.ix <= p.nbr && Distinct(p.ptrs) && 0 < p.align && Modulus(p) != 0
  }

  /** One step on such a table: the entries stay the same, none is handed out while held, and the
      callers' history and the table stay in agreement. */
  lemma TableStep(p: Pool, op: Op)
    requires TableOk(p)
    ensures var (q, e) := Step(p, op);
            TableOk(q) && q == p.(ix := q.ix, ptrs := q.ptrs) && Elements(q.ptrs) == Elements(p.ptrs) &&
            Held(q) == HeldAfter(Held(p), e) && (e.Got? ==> e.blk in p.ptrs && e.blk !in Held(p)) && (e.Freed? ==> e.blk in Held(p))
  {
    hide IsValidAddr, Stride, Wrap, BlkFree, BlkGet;
    match op {
      case GetOp(size) => TableGet(p, size);
      case FreeOp(blk) => TableFree(p, blk);
    }
  }

  lemma TableGet(p: Pool, size: u32)
    requires TableOk(p)
    ensures var (q, blk, err) := BlkGet(p, size);
            TableOk(q) && q == p.(ix := q.ix) && (err != None_ ==> q == p) && (err == PoolEmpty ==> Held(p) == Elements(p.ptrs)) &&
            (err == None_ ==> blk in p.ptrs && blk !in Held(p) && Held(q) == Held(p) + {blk})
  {
    hide Stride, Wrap;
    if 0 < p.ix {
      MoveBoundary(p.ptrs, p.ix - 1);
    } else {
      assert p.ptrs[p.ix..] == p.ptrs;
    }
  }

  lemma TableFree(p: Pool, blk: u32)
    requires TableOk(p)
    ensures var (q, err) := BlkFree(p, blk);
            TableOk(q) && q == p.(ix := q.ix, ptrs := q.ptrs) && Elements(q.ptrs) == Elements(p.ptrs) &&
            (err != None_ ==> q == p) && (err == None_ ==> blk in Held(p) && Held(q) == Held(p) - {blk})
  {
    hide Stride, Wrap, IsValidAddr, Find, Distinct, Elements;
    var (q, err) := BlkFree(p, blk);
    if err == None_ {
      var i := Find(p.ptrs, p.ix, blk);
      SwappedTable(p.ptrs, p.ix, i);
      SwapAtBoundary(p.ptrs, p.ix, i);
      MoveBoundary(q.ptrs, p.ix);
      MovedOut(Held(p), Held(q), blk, q.ptrs, p.ix);
    }
  }

  /** Every answer to a free call on such a table. */
  lemma TableAnswers(p: Pool, blk: u32)
    requires TableOk(p)
    ensures var (q, err) := BlkFree(p, blk); var valid := blk != 0 && IsValidAddr(p, blk);
            (err == NullPtr <==> blk == 0) && (err == InvalidBlkAddr <==> blk != 0 && !valid) &&
            (err == InvalidBlkAddrInPool <==> valid && blk in Free(p)) && (err == None_ <==> valid && blk in Held(p)) &&
            (err == PoolFull <==> valid && blk !in p.ptrs && p.ix == p.nbr) &&
            (err == InvalidPool <==> valid && blk !in p.ptrs && p.ix < p.nbr) &&
            (err == None_ ==> |q.ptrs| == |p.ptrs| && q.ix == p.ix + 1 && EntriesAfterFree(p, q, blk))
  {
    hide IsValidAddr, Find, Distinct;
    UpperNotLower(p.ptrs, p.ix, blk);
    if BlkFree(p, blk).1 == None_ {
      SwappedEntries(p.ptrs, p.ix, Find(p.ptrs, p.ix, blk), blk);
    }
  }

  /** The index call answers with the error a free call would answer with.  Without one the
      index counts down from the end of the table; with one it is the greatest word. */
  lemma IndexAnswers(p: Pool, blk: u32)
    requires TableOk(p)
    ensures var (ix, err) := BlkIxGet(p, blk);
            err == BlkFree(p, blk).1 && (err != None_ ==> ix == 0xFFFF_FFFF) &&
            (err == None_ ==> ix < p.nbr - p.ix && p.ptrs[p.nbr - 1 - ix] == blk && BlkUsedAt(p, ix) == (blk, None_))
  {
    hide IsValidAddr, Modulus, Find, BlkUsedAt, Distinct;
    if BlkIxGet(p, blk).1 == None_ {
      UsedAtValue(p, BlkIxGet(p, blk).0);
    }
  }

  /** Every answer of the index call on a sound table: it succeeds exactly on held blocks. */
  lemma IndexSpec(p: Pool, blk: u32)
    requires PoolInv(p)
    ensures var (ix, err) := BlkIxGet(p, blk);
            (err == None_ <==> blk in Held(p)) &&
            (err == InvalidBlkAddrInPool <==> blk in Free(p)) &&
            (err == NullPtr <==> blk == 0) &&
            (err == InvalidBlkAddr <==> blk != 0 && !IsValidAddr(p, blk)) &&
            (err == PoolFull <==> blk != 0 && IsValidAddr(p, blk) && !IsBlock(p, blk) && Held(p) == {}) &&
            (err == InvalidPool <==> blk != 0 && IsValidAddr(p, blk) && !IsBlock(p, blk) && Held(p) != {}) &&
            (err != None_ ==> ix == 0xFFFF_FFFF) &&
            (err == None_ ==> ix < |Held(p)| && p.ptrs[p.nbr - 1 - ix] == blk)
  {
    hide IsValidAddr, Modulus, BlkIxGet, BlkFree, BlkUsedAt, IsBlock, Free, Held, Distinct;
    FreeHeldPartition(p);
    FreeSpec(p, blk);
    IndexAnswers(p, blk);
  }

  /** For the documented power-of-two alignments. */
  lemma IndexSpecForPowersOfTwo(p: Pool, blk: u32, k: nat)
    requires PoolInv(p) && k < 32 && p.align == Pow2(k) && blk != 0
    ensures var (ix, err) := BlkIxGet(p, blk);
            (err == None_ <==> blk in Held(p)) && (err == InvalidBlkAddrInPool <==> blk in Free(p)) &&
            (err == InvalidBlkAddr <==> !IsBlock(p, blk)) && err != PoolFull && err != InvalidPool &&
            (err != None_ ==> ix == 0xFFFF_FFFF)
  {
    hide BlkIxGet, BlkFree, IsValidAddr, Pow2, Modulus, Stride, Gap;
    IndexSpec(p, blk);
    FreeSpecForPowersOfTwo(p, blk, k);
    IndexAnswers(p, blk);
  }

  lemma MovedOut(before: set<u32>, now: set<u32>, x: u32, s: seq<u32>, k: nat)
    requires Distinct(s) && k < |s| && s[k] == x && before == Elements(s[k..]) && now == Elements(s[k + 1..])
    ensures x in before && now == before - {x}
  {
    MoveBoundary(s, k);
  }

  lemma SwappedTable(s: seq<u32>, i: nat, j: nat)
    requires Distinct(s) && i < |s| && j < |s|
    ensures var t := s[j := s[i]][i := s[j]]; Distinct(t) && Elements(t) == Elements(s)
  {
    var t := s[j := s[i]][i := s[j]];
    forall x | x in s ensures x in t {
      var k :| 0 <= k < |s| && s[k] == x;
      assert t[if k == i then j else if k == j then i else k] == x;
    }
  }

  lemma EventSoundElsewhere(p: Pool, q: Pool, held: set<u32>, e: Event)
    requires Geometry(p) && q == p.(ix := q.ix, ptrs := q.ptrs)
    ensures Geometry(q) && (EventSound(q, held, e) <==> EventSound(p, held, e))
  {
    SameBlocks(p, q);
  }

  /** Over every run from a fresh pool: the table stays a permutation of the blocks, its
      upper part is exactly what the callers hold, and every event of the history is sound. */
  lemma {:induction false} RunIsSound(p: Pool, ops: seq<Op>)
    requires PoolInv(p) && p.ix == p.nbr
    ensures var (q, events) := Exec(p, ops);
            Held(q) == HeldByHistory(events) &&
            forall i :: 0 <= i < |events| ==> EventSound(p, HeldByHistory(events[..i]), events[i])
  {
    hide Step, Geometry, Distinct, IsBlock, Blk, Modulus, EventSound;
    var (q, events) := Exec(p, ops);
    if ops == [] {
      assert p.ptrs[p.ix..] == [];
    } else {
      var n := |ops| - 1;
      var (q1, events1) := Exec(p, ops[..n]);
      RunIsSound(p, ops[..n]);
      StepSound(q1, ops[n]);
      EventSoundElsewhere(p, q1, Held(q1), events[n]);
      assert events[..n] == events1;
      forall i | 0 <= i < n ensures EventSound(p, HeldByHistory(events[..i]), events[i]) {
        assert events[..i] == events1[..i];
      }
    }
  }

  /** Nothing is lost or made up: after every run each block of the pool is either free in
      the table or held according to the history, never both, and the counts add up. */
  lemma RunConservesBlocks(p: Pool, ops: seq<Op>)
    requires PoolInv(p) && p.ix == p.nbr
    ensures var (q, events) := Exec(p, ops);
            Free(q) !! HeldByHistory(events) && q.ix + |HeldByHistory(events)| == p.nbr &&
            forall a: u32 :: IsBlock(p, a) <==> a in Free(q) + HeldByHistory(events)
  {
    var (q, events) := Exec(p, ops);
    RunIsSound(p, ops);
    FreeHeldPartition(q);
    SameBlocks(p, q);
  }

  ghost predicate IsTop(stack: seq<u32>, blk: u32) { stack != [] && stack[|stack| - 1] == blk }

  /** What one event does to the stack of free blocks. */
  ghost function StackAfter(stack: seq<u32>, e: Event): seq<u32> {
    match e
    case Got(_) => if stack == [] then [] else stack[..|stack| - 1]
    case Freed(blk) => stack + [blk]
    case Refused(_) => stack
  }

  /** The free blocks in the order the callers' history gives them: the last one is next. */
  ghost function FreeStack(s: seq<u32>, events: seq<Event>): seq<u32> {
    if events == [] then s else
      StackAfter(FreeStack(s, events[..|events| - 1]), events[|events| - 1])
  }

  ghost predicate GetsTheTop(s: seq<u32>, events: seq<Event>) {
    forall i :: 0 <= i < |events| && events[i].Got? ==> IsTop(FreeStack(s, events[..i]), events[i].blk)
  }

  lemma StackStep(p: Pool, op: Op)
    requires PoolInv(p)
    ensures var (q, e) := Step(p, op); var stack := p.ptrs[..p.ix];
            PoolInv(q) && q.ptrs[..q.ix] == StackAfter(stack, e) && (e.Got? ==> IsTop(stack, e.blk))
  {
    hide IsValidAddr, BlkFree, BlkGet, Stride, Wrap, Distinct, Elements, IsBlock, Blk, Free, Held;
    match op {
      case GetOp(size) =>
        GetSpec(p, size);
        GetAnswers(p, size);
        assert p.ix > 0 ==> p.ptrs[..p.ix][..p.ix - 1] == p.ptrs[..p.ix - 1];
      case FreeOp(blk) =>
        FreeSpec(p, blk);
        PushedOne(BlkFree(p, blk).0.ptrs, p.ix);
    }
  }

  lemma PushedOne(s: seq<u32>, k: nat)
    ensures k < |s| ==> s[..k + 1] == s[..k] + [s[k]]
  {
  }

  lemma OneMoreEvent(s: seq<u32>, events: seq<Event>, e: Event)
    requires GetsTheTop(s, events) && (e.Got? ==> IsTop(FreeStack(s, events), e.blk))
    ensures GetsTheTop(s, events + [e]) && FreeStack(s, events + [e]) == StackAfter(FreeStack(s, events), e)
  {
    hide IsTop, StackAfter;
    assert (events + [e])[..|events|] == events;
    forall i | 0 <= i < |events| ensures (events + [e])[..i] == events[..i] {}
  }

  /** Gets are last-in first-out: over every run the free part of the table is the stack the
      history describes, and each get hands out its top. */
  lemma {:induction false} RunIsStack(p: Pool, ops: seq<Op>)
    requires PoolInv(p)
    ensures var (q, events) := Exec(p, ops);
            q.ptrs[..q.ix] == FreeStack(p.ptrs[..p.ix], events) && GetsTheTop(p.ptrs[..p.ix], events)
  {
    hide Step, Geometry, Distinct, IsBlock, Blk, Modulus, GetsTheTop, IsTop, StackAfter, FreeStack;
    if ops == [] {
      NoEvents(p.ptrs[..p.ix]);
    } else {
      var n := |ops| - 1;
      var e := Exec(p, ops).1[n];
      var (q1, events1) := Exec(p, ops[..n]);
      RunIsStack(p, ops[..n]);
      StackStep(q1, ops[n]);
      OneMoreEvent(p.ptrs[..p.ix], events1, e);
    }
  }

  lemma NoEvents(s: seq<u32>)
    ensures FreeStack(s, []) == s && GetsTheTop(s, [])
  {
  }

  lemma SameBlocks(p: Pool, q: Pool)
    requires Geometry(p) && q == p.(ix := q.ix, ptrs := q.ptrs)
    ensures Geometry(q) && forall a :: IsBlock(p, a) <==> IsBlock(q, a)
  {
    forall a ensures IsBlock(p, a) <==> IsBlock(q, a) {
      if IsBlock(p, a) {
        var i :| 0 <= i < p.nbr && Blk(p, i) == a;
        assert Blk(q, i) == a;
      }
      if IsBlock(q, a) {
        var i :| 0 <= i < q.nbr && Blk(q, i) == a;
        assert Blk(p, i) == a;
      }
    }
  }
}
