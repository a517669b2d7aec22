/** The word-optimised memory operations of lib_mem.c.  Memory is one array of
    octets whose index is the address; a word access is one atomic step and is
    possible at word-aligned addresses only. */
module MemOps {
  import opened Arith

  type octet = x: int | 0 <= x < 0x100

  /** sizeof(CPU_ALIGN) on this target. */
  const W: nat := 4

  /** An address modulo sizeof(CPU_ALIGN). */
  function AlignMod(a: int): (o: int)
    ensures 0 <= o < W
  {
    a % 4
  }

  /** A word-aligned address is the address of word number k. */
  predicate WordAt(a: int, k: int) { a == W * k }

  /** The word boundaries at or below and above an address. */
  lemma AlignDown(a: int) returns (k: int)
    ensures a - AlignMod(a) == W * k
  {
    k := a / W;
  }

  // ---- What the operations mean --------------------------------------------

  /** n octets lie inside a memory of the given size at address a. */
  predicate Inside(a: int, n: int, size: int) { 0 <= a <= a + n <= size <= U32 }

  /** The caller's duty: a non-null buffer that is really used lies in memory. */
  predicate Buffers(p: int, q: int, n: int, size: int) {
    n >= 1 && p != 0 && q != 0 ==> Inside(p, n, size) && Inside(q, n, size)
  }

  function Filled(m: seq<octet>, d: int, v: octet, n: int): seq<octet>
    requires Inside(d, n, |m|)
  {
    m[..d] + seq(n, _ => v) + m[d + n..]
  }

  /** The old source octets stand at the destination; nothing else changed. */
  function Moved(m: seq<octet>, d: int, s: int, n: int): (r: seq<octet>)
    requires Inside(d, n, |m|) && Inside(s, n, |m|)
    ensures |r| == |m|
    ensures forall a :: 0 <= a < |m| ==> r[a] == MovedAt(m, d, s, n, a)
  {
    seq(|m|, a requires 0 <= a < |m| => MovedAt(m, d, s, n, a))
  }

  function MovedAt(m: seq<octet>, d: int, s: int, n: int, a: int): octet
    requires Inside(d, n, |m|) && Inside(s, n, |m|) && 0 <= a < |m|
  {
    if d <= a < d + n then m[s + a - d] else m[a]
  }

  /** Octet after octet, lowest address first, each read from the memory as it then is. */
  function Copied(m: seq<octet>, d: int, s: int, n: int): (r: seq<octet>)
    requires Inside(d, n, |m|) && Inside(s, n, |m|)
    ensures |r| == |m|
    decreases n
  {
    if n == 0 then m else
      var c := Copied(m, d, s, n - 1);
      c[d + n - 1 := c[s + n - 1]]
  }

  // ---- Word accesses --------------------------------------------------------

  /** Octet k of a little-endian word. */
  function WordOctet(w: u32, k: nat): octet { (w / Pow2(8 * k)) % 0x100 }

  method StoreWord(mem: array<octet>, a: int, ghost k: int, w: u32)
    requires WordAt(a, k) && Inside(a, W, mem.Length)
    modifies mem
    ensures forall i :: 0 <= i < mem.Length ==>
              mem[i] == if a <= i < a + W then WordOctet(w, i - a) else old(mem[i])
  {
    mem[a], mem[a + 1], mem[a + 2], mem[a + 3] :=
      WordOctet(w, 0), WordOctet(w, 1), WordOctet(w, 2), WordOctet(w, 3);
  }

  method CopyWord(mem: array<octet>, d: int, ghost kd: int, s: int, ghost ks: int)
    requires WordAt(d, kd) && WordAt(s, ks)
    requires Inside(d, W, mem.Length) && Inside(s, W, mem.Length)
    modifies mem
    ensures mem[..] == Moved(old(mem[..]), d, s, W)
  {
    mem[d], mem[d + 1], mem[d + 2], mem[d + 3] := mem[s], mem[s + 1], mem[s + 2], mem[s + 3];
  }

  method SameWord(mem: array<octet>, p: int, ghost kp: int, q: int, ghost kq: int) returns (same: bool)
    requires WordAt(p, kp) && WordAt(q, kq)
    requires Inside(p, W, mem.Length) && Inside(q, W, mem.Length)
    ensures same <==> mem[p] == mem[q] && mem[p + 1] == mem[q + 1] && mem[p + 2] == mem[q + 2] && mem[p + 3] == mem[q + 3]
  {
    same := mem[p] == mem[q] && mem[p + 1] == mem[q + 1] && mem[p + 2] == mem[q + 2] && mem[p + 3] == mem[q + 3];
  }

  // ---- Mem_Set ---------------------------------------------------------------

  /** The octet v repeated i times, as a number. */
  function Repeated(v: octet, i: nat): nat { if i == 0 then 0 else Repeated(v, i - 1) * 0x100 + v }

  lemma OctetsOfRepeated(v: octet, r2: int, r3: int, w: u32)
    requires r2 == 0x100 * v + v && r3 == 0x100 * r2 + v && w == 0x100 * r3 + v
    ensures WordOctet(w, 0) == v && WordOctet(w, 1) == v && WordOctet(w, 2) == v && WordOctet(w, 3) == v
  {
    assert Pow2(0) == 1 && Pow2(8) == 0x100 && Pow2(16) == 0x1_0000 && Pow2(24) == 0x100_0000 by { Pow2At32(); }
    hide Pow2;
    DivModUnique(w, 0x100, r3, v);
    DivModUnique(w, 0x1_0000, r2, r2);
    DivModUnique(w, 0x100_0000, v, r3);
    DivModUnique(r3, 0x100, r2, v);
    DivModUnique(r2, 0x100, v, v);
    SmallMod(v, 0x100);
  }

  lemma RepeatedOctets(v: octet)
    ensures Repeated(v, 3) < 0x100_0000 && Repeated(v, 4) < U32
    ensures forall k: nat :: k < W ==> WordOctet(Repeated(v, 4), k) == v
  {
    assert Repeated(v, 1) == v;
    assert Repeated(v, 2) == 0x100 * v + v;
    OctetsOfRepeated(v, Repeated(v, 2), Repeated(v, 3), Repeated(v, 4));
    hide WordOctet;
    forall k: nat | k < W ensures WordOctet(Repeated(v, 4), k) == v {
      assert k == 0 || k == 1 || k == 2 || k == 3;
    }
  }

  /** The fill word: v shifted in once per octet. */
  method FillWord(v: octet) returns (w: u32)
    ensures forall k: nat :: k < W ==> WordOctet(w, k) == v
  {
    RepeatedOctets(v);
    w := 0;
    for i := 0 to W
      invariant i < W ==> w < 0x100_0000
      invariant w == Repeated(v, i)
    {
      SmallMod(w * 0x100, U32);
      w := Wrap(w * 0x100) + v;
      assert i + 1 == 1 ==> w == v;
      assert i + 1 == 2 ==> w <= 0xFFFF;
    }
  }

  method MemSet(mem: array<octet>, pmem: int, v: octet, size: nat)
    requires Buffers(pmem, pmem, size, mem.Length)
    modifies mem
    ensures forall a :: 0 <= a < mem.Length ==> mem[a] == if pmem != 0 && pmem <= a < pmem + size then v else old(mem[a])
    ensures mem[..] == if size >= 1 && pmem != 0 then Filled(old(mem[..]), pmem, v, size) else old(mem[..])
  {
    if size < 1 { return; }
    if pmem == 0 { return; }
    var w := FillWord(v);
    var rem := size;
    var p := pmem;
    var alignMod := AlignMod(p);
    ghost var k := AlignDown(p);
    if alignMod != 0 {
      var i := alignMod;
      while rem > 0 && i < W
        invariant alignMod <= i <= W && 0 <= rem
        invariant p + rem == pmem + size && p == W * k + i
        invariant forall a :: 0 <= a < mem.Length ==> mem[a] == if pmem <= a < p then v else old(mem[a])
        decreases rem
      {
        mem[p] := v;
        p, rem, i := p + 1, rem - 1, i + 1;
      }
      k := k + 1;
    }
    while rem >= W
      invariant 0 <= rem && pmem <= p && p + rem == pmem + size
      invariant rem > 0 ==> WordAt(p, k)
      invariant forall a :: 0 <= a < mem.Length ==> mem[a] == if pmem <= a < p then v else old(mem[a])
      decreases rem
    {
      StoreWord(mem, p, k, w);
      p, rem, k := p + W, rem - W, k + 1;
    }
    while rem > 0
      invariant 0 <= rem && pmem <= p && p + rem == pmem + size
      invariant forall a :: 0 <= a < mem.Length ==> mem[a] == if pmem <= a < p then v else old(mem[a])
      decreases rem
    {
      mem[p] := v;
      p, rem := p + 1, rem - 1;
    }
    assert mem[..] == Filled(old(mem[..]), pmem, v, size);
  }

  method MemClr(mem: array<octet>, pmem: int, size: nat)
    requires Buffers(pmem, pmem, size, mem.Length)
    modifies mem
    ensures forall a :: 0 <= a < mem.Length ==> mem[a] == if pmem != 0 && pmem <= a < pmem + size then 0 else old(mem[a])
    ensures mem[..] == if size >= 1 && pmem != 0 then Filled(old(mem[..]), pmem, 0, size) else old(mem[..])
  {
    MemSet(mem, pmem, 0, size);
  }

  // ---- Mem_Copy ---------------------------------------------------------------

  /** A word copy is four octet copies when the buffers are at least a word apart. */
  lemma WordStep(m: seq<octet>, d: int, s: int, n: int)
    requires n >= 0 && Inside(d, n + W, |m|) && Inside(s, n + W, |m|)
    requires d - s >= W || s - d >= W
    ensures Copied(m, d, s, n + W) == Moved(Copied(m, d, s, n), d + n, s + n, W)
  {
    var c0 := Copied(m, d, s, n);
    var c1 := Copied(m, d, s, n + 1);
    var c2 := Copied(m, d, s, n + 2);
    var c3 := Copied(m, d, s, n + 3);
    assert c1 == c0[d + n := c0[s + n]];
    assert c2 == c1[d + n + 1 := c0[s + n + 1]];
    assert c3 == c2[d + n + 2 := c0[s + n + 2]];
    assert Copied(m, d, s, n + 4) == c3[d + n + 3 := c0[s + n + 3]];
  }

  /** Unsigned distance and equal alignment keep word copies from overlapping themselves. */
  lemma WordsApart(d: u32, s: u32)
    requires Diff(s, d) >= W && AlignMod(d) == AlignMod(s)
    ensures d - s >= W || s - d >= W
  {
  }

  // The three phases of Mem_Copy.  m is the memory before the call, and the first
  // size - rem octets have been copied.

  method CopyLeading(mem: array<octet>, ghost m: seq<octet>, pdest: int, psrc: int, size: nat, mod: int, ghost kd: int, ghost ks: int)
    returns (rem: nat)
    requires |m| == mem.Length && Inside(pdest, size, |m|) && Inside(psrc, size, |m|)
    requires 0 <= mod < W && pdest == W * kd + mod && psrc == W * ks + mod
    requires mem[..] == m
    modifies mem
    ensures rem <= size && mem[..] == Copied(m, pdest, psrc, size - rem)
    ensures mod == 0 ==> rem == size
    ensures mod != 0 && rem > 0 ==> size - rem == W - mod
  {
    rem := size;
    var d, s := pdest, psrc;
    if mod != 0 {
      var i := mod;
      while rem > 0 && i < W
        invariant mod <= i <= W && rem <= size
        invariant d == pdest + size - rem && s == psrc + size - rem && i == mod + size - rem
        invariant mem[..] == Copied(m, pdest, psrc, size - rem)
        decreases rem
      {
        mem[d] := mem[s];
        d, s, rem, i := d + 1, s + 1, rem - 1, i + 1;
      }
    }
  }

  method CopyWords(mem: array<octet>, ghost m: seq<octet>, pdest: int, psrc: int, size: nat, rem0: nat, ghost kd0: int, ghost ks0: int)
    returns (rem: nat)
    requires |m| == mem.Length && Inside(pdest, size, |m|) && Inside(psrc, size, |m|) && rem0 <= size
    requires rem0 > 0 ==> WordAt(pdest + size - rem0, kd0) && WordAt(psrc + size - rem0, ks0)
    requires pdest - psrc >= W || psrc - pdest >= W
    requires mem[..] == Copied(m, pdest, psrc, size - rem0)
    modifies mem
    ensures rem < W && rem <= size && mem[..] == Copied(m, pdest, psrc, size - rem)
  {
    hide Copied, Moved;
    rem := rem0;
    var d, s := pdest + size - rem, psrc + size - rem;
    ghost var kd, ks := kd0, ks0;
    while rem >= W
      invariant 0 <= rem <= size && d == pdest + size - rem && s == psrc + size - rem
      invariant rem > 0 ==> WordAt(d, kd) && WordAt(s, ks)
      invariant mem[..] == Copied(m, pdest, psrc, size - rem)
      decreases rem
    {
      WordStep(m, pdest, psrc, size - rem);
      CopyWord(mem, d, kd, s, ks);
      d, s, rem, kd, ks := d + W, s + W, rem - W, kd + 1, ks + 1;
    }
  }

  method CopyTrailing(mem: array<octet>, ghost m: seq<octet>, pdest: int, psrc: int, size: nat, rem0: nat)
    requires |m| == mem.Length && Inside(pdest, size, |m|) && Inside(psrc, size, |m|) && rem0 <= size
    requires mem[..] == Copied(m, pdest, psrc, size - rem0)
    modifies mem
    ensures mem[..] == Copied(m, pdest, psrc, size)
  {
    var rem := rem0;
    var d, s := pdest + size - rem, psrc + size - rem;
    while rem > 0
      invariant 0 <= rem <= size && d == pdest + size - rem && s == psrc + size - rem
      invariant mem[..] == Copied(m, pdest, psrc, size - rem)
      decreases rem
    {
      mem[d] := mem[s];
      d, s, rem := d + 1, s + 1, rem - 1;
    }
  }

  /** For all arguments, overlapping or not, Mem_Copy is the plain octet-by-octet copy. */
  method MemCopy(mem: array<octet>, pdest: int, psrc: int, size: nat)
    requires Buffers(pdest, psrc, size, mem.Length)
    modifies mem
    ensures mem[..] == if size >= 1 && pdest != 0 && psrc != 0
                       then Copied(old(mem[..]), pdest, psrc, size) else old(mem[..])
  {
    if size < 1 { return; }
    if pdest == 0 { return; }
    if psrc == 0 { return; }
    ghost var m := mem[..];
    var rem := size;
    var gap := Diff(psrc, pdest);
    if gap >= W {
      var modDest, modSrc := AlignMod(pdest), AlignMod(psrc);
      if modDest == modSrc {
        WordsApart(pdest, psrc);
        ghost var kd := AlignDown(pdest);
        ghost var ks := AlignDown(psrc);
        rem := CopyLeading(mem, m, pdest, psrc, size, modDest, kd, ks);
        ghost var up := if modDest != 0 then 1 else 0;
        rem := CopyWords(mem, m, pdest, psrc, size, rem, kd + up, ks + up);
      }
    }
    CopyTrailing(mem, m, pdest, psrc, size, rem);
  }

  /** What one destination octet of the octet-by-octet copy holds. */
  lemma {:induction false} CopiedAt(m: seq<octet>, d: int, s: int, n: int, a: int)
    requires Inside(d, n, |m|) && Inside(s, n, |m|) && 0 <= a < |m|
    ensures !(d <= a < d + n) ==> Copied(m, d, s, n)[a] == m[a]
    ensures d <= a < d + n && !(s < d <= s + a - d) ==> Copied(m, d, s, n)[a] == m[s + a - d]
    ensures d <= a < d + n && s < d <= s + a - d ==> Copied(m, d, s, n)[a] == Copied(m, d, s, n)[s + a - d]
    decreases n
  {
    if n > 0 {
      CopiedAt(m, d, s, n - 1, a);
      CopiedAt(m, d, s, n - 1, s + n - 1);
    }
  }

  /** Source octets that a copy to a higher, overlapping address overwrites too early
      happen to equal the octets they are replaced by. */
  ghost predicate Periodic(m: seq<octet>, s: int, n: int, k: int)
    requires k > 0 && Inside(s, n, |m|)
  {
    forall a :: s <= a < s + n - k ==> m[a] == m[a + k]
  }

  lemma {:induction false} PeriodicCopy(m: seq<octet>, d: int, s: int, n: int, j: nat)
    requires Inside(d, n, |m|) && Inside(s, n, |m|) && s < d && j < n
    requires Periodic(m, s, n, d - s)
    ensures Copied(m, d, s, n)[d + j] == m[s + j]
  {
    CopiedAt(m, d, s, n, d + j);
    if j >= d - s {
      PeriodicCopy(m, d, s, n, j - (d - s));
    }
  }

  lemma CopiedIsMovedAt(m: seq<octet>, d: int, s: int, n: int, a: int)
    requires Inside(d, n, |m|) && Inside(s, n, |m|) && 0 <= a < |m|
    requires d <= s || s + n <= d || Periodic(m, s, n, d - s)
    ensures Copied(m, d, s, n)[a] == MovedAt(m, d, s, n, a)
  {
    hide Copied;
    CopiedAt(m, d, s, n, a);
    if s < d < s + n && d <= a < d + n {
      PeriodicCopy(m, d, s, n, a - d);
    }
  }

  lemma MoveNeedsPeriod(m: seq<octet>, d: int, s: int, n: int, a: int)
    requires Inside(d, n, |m|) && Inside(s, n, |m|) && s < d && s <= a < s + n - (d - s)
    requires Copied(m, d, s, n) == Moved(m, d, s, n)
    ensures m[a] == m[a + (d - s)]
  {
    hide Copied;
    var b := a + (d - s);
    CopiedAt(m, d, s, n, b + (d - s));
    assert Copied(m, d, s, n)[b] == MovedAt(m, d, s, n, b);
    assert Copied(m, d, s, n)[b + (d - s)] == MovedAt(m, d, s, n, b + (d - s));
  }

  /** Exactly when Mem_Copy moves the old source: disjoint buffers, a source at or above
      the destination (even overlapping), or a source that repeats with the offset. */
  lemma CopyIsMoveIff(m: seq<octet>, d: int, s: int, n: int)
    requires Inside(d, n, |m|) && Inside(s, n, |m|)
    ensures Copied(m, d, s, n) == Moved(m, d, s, n) <==> d <= s || s + n <= d || Periodic(m, s, n, d - s)
  {
    hide Copied, MovedAt;
    if d <= s || s + n <= d || Periodic(m, s, n, d - s) {
      forall a | 0 <= a < |m| ensures Copied(m, d, s, n)[a] == MovedAt(m, d, s, n, a) {
        CopiedIsMovedAt(m, d, s, n, a);
      }
    } else if Copied(m, d, s, n) == Moved(m, d, s, n) {
      forall a | s <= a < s + n - (d - s) ensures m[a] == m[a + (d - s)] {
        MoveNeedsPeriod(m, d, s, n, a);
      }
    }
  }

  /** A memory on which copying to a higher, overlapping address is not a move. */
  lemma OverlapWitness(size: nat, d: int, s: int, n: int) returns (m: seq<octet>)
    requires Inside(d, n, size) && Inside(s, n, size) && s < d < s + n
    ensures |m| == size && Copied(m, d, s, n) != Moved(m, d, s, n)
  {
    m := seq(size, a => if a == d then 1 else 0);
    CopyIsMoveIff(m, d, s, n);
    assert m[s] != m[s + (d - s)];
  }

  ghost predicate MovesAllContents(size: nat, d: int, s: int, n: int)
    requires Inside(d, n, size) && Inside(s, n, size)
  {
    forall m: seq<octet> :: |m| == size ==> Copied(m, d, s, n) == Moved(m, d, s, n)
  }

  /** The addresses for which Mem_Copy is a move whatever memory contains. */
  lemma CopyIsMoveForAllContents(size: nat, d: int, s: int, n: int)
    requires Inside(d, n, size) && Inside(s, n, size)
    ensures MovesAllContents(size, d, s, n) <==> d <= s || s + n <= d
  {
    if s < d < s + n {
      var m := OverlapWitness(size, d, s, n);
    } else {
      forall m: seq<octet> | |m| == size ensures Copied(m, d, s, n) == Moved(m, d, s, n) {
        CopyIsMoveIff(m, d, s, n);
      }
    }
  }

  // ---- Mem_Move ---------------------------------------------------------------

  /** The backward phases have moved all but the lowest rem octets. */
  ghost predicate MovedDownTo(now: seq<octet>, m: seq<octet>, d: int, s: int, n: int, rem: int) {
    Inside(d, n, |m|) && Inside(s, n, |m|) && |now| == |m| && 0 <= rem <= n &&
    forall a :: 0 <= a < |m| ==> now[a] == if a < d + rem then m[a] else MovedAt(m, d, s, n, a)
  }

  lemma BackwardStep(now: seq<octet>, m: seq<octet>, d: int, s: int, n: int, rem: int, k: int, after: seq<octet>)
    requires MovedDownTo(now, m, d, s, n, rem) && 0 < k <= rem && s <= d
    requires after == Moved(now, d + rem - k, s + rem - k, k)
    ensures MovedDownTo(after, m, d, s, n, rem - k)
  {
  }

  lemma MovedOctet(now: seq<octet>, d: int, s: int)
    requires Inside(d, 1, |now|) && Inside(s, 1, |now|)
    ensures now[d := now[s]] == Moved(now, d, s, 1)
  {
  }

  // The three phases of Mem_Move, highest address first; the lowest rem octets remain.

  method MoveOctet(mem: array<octet>, ghost m: seq<octet>, pdest: int, psrc: int, size: nat, rem: nat, d: int, s: int)
    requires MovedDownTo(mem[..], m, pdest, psrc, size, rem) && rem > 0 && psrc <= pdest
    requires d == pdest + rem - 1 && s == psrc + rem - 1
    modifies mem
    ensures MovedDownTo(mem[..], m, pdest, psrc, size, rem - 1)
  {
    ghost var now := mem[..];
    mem[d] := mem[s];
    MovedOctet(now, d, s);
    BackwardStep(now, m, pdest, psrc, size, rem, 1, mem[..]);
  }

  method MoveLeading(mem: array<octet>, ghost m: seq<octet>, pdest: int, psrc: int, size: nat, mod: int)
    returns (rem: nat)
    requires MovedDownTo(mem[..], m, pdest, psrc, size, size) && psrc <= pdest && 0 <= mod < W
    modifies mem
    ensures MovedDownTo(mem[..], m, pdest, psrc, size, rem)
    ensures mod == W - 1 ==> rem == size
    ensures mod != W - 1 && rem > 0 ==> size - rem == mod + 1
  {
    rem := size;
    var d, s := pdest + size - 1, psrc + size - 1;
    if mod != W - 1 {
      var i := mod;
      while rem > 0 && i >= 0
        invariant -1 <= i <= mod && i == mod - (size - rem)
        invariant 0 <= rem && d == pdest + rem - 1 && s == psrc + rem - 1
        invariant MovedDownTo(mem[..], m, pdest, psrc, size, rem)
        decreases rem
      {
        MoveOctet(mem, m, pdest, psrc, size, rem, d, s);
        d, s, rem, i := d - 1, s - 1, rem - 1, i - 1;
      }
    }
  }

  method MoveWords(mem: array<octet>, ghost m: seq<octet>, pdest: int, psrc: int, size: nat, rem0: nat, ghost kd0: int, ghost ks0: int)
    returns (rem: nat)
    requires MovedDownTo(mem[..], m, pdest, psrc, size, rem0) && psrc <= pdest
    requires rem0 > 0 ==> WordAt(pdest + rem0 - W, kd0) && WordAt(psrc + rem0 - W, ks0)
    modifies mem
    ensures rem < W && MovedDownTo(mem[..], m, pdest, psrc, size, rem)
  {
    rem := rem0;
    var d, s := pdest + rem - W, psrc + rem - W;
    ghost var kd, ks := kd0, ks0;
    while rem >= W
      invariant d == pdest + rem - W && s == psrc + rem - W
      invariant rem > 0 ==> WordAt(d, kd) && WordAt(s, ks)
      invariant MovedDownTo(mem[..], m, pdest, psrc, size, rem)
      decreases rem
    {
      ghost var now := mem[..];
      CopyWord(mem, d, kd, s, ks);
      BackwardStep(now, m, pdest, psrc, size, rem, W, mem[..]);
      d, s, rem, kd, ks := d - W, s - W, rem - W, kd - 1, ks - 1;
    }
  }

  method MoveTrailing(mem: array<octet>, ghost m: seq<octet>, pdest: int, psrc: int, size: nat, rem0: nat)
    requires MovedDownTo(mem[..], m, pdest, psrc, size, rem0) && psrc <= pdest
    modifies mem
    ensures MovedDownTo(mem[..], m, pdest, psrc, size, 0)
  {
    var rem := rem0;
    var d, s := pdest + rem - 1, psrc + rem - 1;
    while rem > 0
      invariant 0 <= rem && d == pdest + rem - 1 && s == psrc + rem - 1
      invariant MovedDownTo(mem[..], m, pdest, psrc, size, rem)
      decreases rem
    {
      MoveOctet(mem, m, pdest, psrc, size, rem, d, s);
      d, s, rem := d - 1, s - 1, rem - 1;
    }
  }

  /** For all arguments, overlapping or not, the old source octets reach the destination. */
  method MemMove(mem: array<octet>, pdest: int, psrc: int, size: nat)
    requires Buffers(pdest, psrc, size, mem.Length)
    modifies mem
    ensures mem[..] == if size >= 1 && pdest != 0 && psrc != 0
                       then Moved(old(mem[..]), pdest, psrc, size) else old(mem[..])
    ensures forall a :: 0 <= a < mem.Length ==>
              mem[a] == if pdest != 0 && psrc != 0 && pdest <= a < pdest + size then old(mem[psrc + a - pdest]) else old(mem[a])
  {
    if size < 1 { return; }
    if pdest == 0 { return; }
    if psrc == 0 { return; }
    ghost var m := mem[..];
    if psrc > pdest {
      CopyIsMoveIff(m, pdest, psrc, size);
      MemCopy(mem, pdest, psrc, size);
      return;
    }
    var rem := size;
    var d, s := pdest + size - 1, psrc + size - 1;
    var gap := Diff(d, s);
    if gap >= W {
      var modDest, modSrc := AlignMod(d), AlignMod(s);
      if modDest == modSrc {
        ghost var kd := AlignDown(d);
        ghost var ks := AlignDown(s);
        rem := MoveLeading(mem, m, pdest, psrc, size, modDest);
        ghost var down := if modDest != W - 1 then 1 else 0;
        rem := MoveWords(mem, m, pdest, psrc, size, rem, kd - down, ks - down);
      }
    }
    MoveTrailing(mem, m, pdest, psrc, size, rem);
    assert mem[..] == Moved(m, pdest, psrc, size);
  }

  // ---- Mem_Cmp ----------------------------------------------------------------

  function At(mem: array<octet>, p: int, k: int): octet
    reads mem
    requires 0 <= p + k < mem.Length
  {
    mem[p + k]
  }

  /** The octets from offset rem upward agree. */
  predicate SameFrom(mem: array<octet>, p: int, q: int, n: int, rem: int)
    reads mem
    requires Inside(p, n, mem.Length) && Inside(q, n, mem.Length) && 0 <= rem <= n
  {
    forall k :: rem <= k < n ==> At(mem, p, k) == At(mem, q, k)
  }

  // The three phases of Mem_Cmp, from the end; the invariants keep every access
  // inside both buffers.

  method CmpTrailing(mem: array<octet>, p1: int, p2: int, size: nat, mod: int) returns (same: bool, rem: nat)
    requires Inside(p1, size, mem.Length) && Inside(p2, size, mem.Length) && 0 <= mod < W
    ensures rem <= size && (same <==> SameFrom(mem, p1, p2, size, rem))
    ensures same && rem > 0 ==> size - rem == mod
  {
    same, rem := true, size;
    var q1, q2 := p1 + size, p2 + size;
    if mod != 0 {
      var i := mod;
      while same && rem > 0 && i > 0
        invariant 0 <= i <= mod && rem <= size && i == mod - (size - rem)
        invariant q1 == p1 + rem && q2 == p2 + rem
        invariant same <==> SameFrom(mem, p1, p2, size, rem)
        decreases rem
      {
        q1, q2 := q1 - 1, q2 - 1;
        assert p1 <= q1 < p1 + size && p2 <= q2 < p2 + size;
        if mem[q1] != mem[q2] { same := false; }
        assert mem[q1] == At(mem, p1, rem - 1) && mem[q2] == At(mem, p2, rem - 1);
        rem, i := rem - 1, i - 1;
      }
    }
  }

  method CmpWords(mem: array<octet>, p1: int, p2: int, size: nat, rem0: nat, ghost k10: int, ghost k20: int)
    returns (same: bool, rem: nat)
    requires Inside(p1, size, mem.Length) && Inside(p2, size, mem.Length) && rem0 <= size
    requires rem0 > 0 ==> WordAt(p1 + rem0, k10) && WordAt(p2 + rem0, k20)
    requires SameFrom(mem, p1, p2, size, rem0)
    ensures rem <= size && (same <==> SameFrom(mem, p1, p2, size, rem))
  {
    same, rem := true, rem0;
    var q1, q2 := p1 + rem, p2 + rem;
    ghost var k1, k2 := k10, k20;
    while same && rem >= W
      invariant 0 <= rem <= size && q1 == p1 + rem && q2 == p2 + rem
      invariant rem > 0 ==> WordAt(q1, k1) && WordAt(q2, k2)
      invariant same <==> SameFrom(mem, p1, p2, size, rem)
      decreases rem
    {
      q1, q2, k1, k2 := q1 - W, q2 - W, k1 - 1, k2 - 1;
      assert p1 <= q1 <= q1 + W <= p1 + size && p2 <= q2 <= q2 + W <= p2 + size;
      var eq := SameWord(mem, q1, k1, q2, k2);
      assert mem[q1] == At(mem, p1, rem - 4) && mem[q2] == At(mem, p2, rem - 4);
      assert mem[q1 + 1] == At(mem, p1, rem - 3) && mem[q2 + 1] == At(mem, p2, rem - 3);
      assert mem[q1 + 2] == At(mem, p1, rem - 2) && mem[q2 + 2] == At(mem, p2, rem - 2);
      assert mem[q1 + 3] == At(mem, p1, rem - 1) && mem[q2 + 3] == At(mem, p2, rem - 1);
      if !eq { same := false; }
      rem := rem - W;
    }
  }

  method CmpLeading(mem: array<octet>, p1: int, p2: int, size: nat, same0: bool, rem0: nat) returns (same: bool)
    requires Inside(p1, size, mem.Length) && Inside(p2, size, mem.Length) && rem0 <= size
    requires same0 <==> SameFrom(mem, p1, p2, size, rem0)
    ensures same <==> SameFrom(mem, p1, p2, size, 0)
  {
    same := same0;
    var rem := rem0;
    var q1, q2 := p1 + rem, p2 + rem;
    while same && rem > 0
      invariant 0 <= rem <= size && q1 == p1 + rem && q2 == p2 + rem
      invariant same <==> SameFrom(mem, p1, p2, size, rem)
      decreases rem
    {
      q1, q2 := q1 - 1, q2 - 1;
      assert p1 <= q1 < p1 + size && p2 <= q2 < p2 + size;
      if mem[q1] != mem[q2] { same := false; }
      assert mem[q1] == At(mem, p1, rem - 1) && mem[q2] == At(mem, p2, rem - 1);
      rem := rem - 1;
    }
  }

  method MemCmp(mem: array<octet>, p1: int, p2: int, size: nat) returns (same: bool)
    requires Buffers(p1, p2, size, mem.Length)
    ensures size == 0 ==> same
    ensures size >= 1 && (p1 == 0 || p2 == 0) ==> !same
    ensures size >= 1 && p1 != 0 && p2 != 0 ==> (same <==> mem[p1..p1 + size] == mem[p2..p2 + size])
  {
    if size < 1 { return true; }
    if p1 == 0 { return false; }
    if p2 == 0 { return false; }
    same := true;
    var rem := size;
    var mod1, mod2 := AlignMod(p1 + size), AlignMod(p2 + size);
    if mod1 == mod2 {
      ghost var k1 := AlignDown(p1 + size);
      ghost var k2 := AlignDown(p2 + size);
      same, rem := CmpTrailing(mem, p1, p2, size, mod1);
      if same {
        same, rem := CmpWords(mem, p1, p2, size, rem, k1, k2);
      }
    }
    same := CmpLeading(mem, p1, p2, size, same, rem);
    SameFromIsEquality(mem, p1, p2, size);
  }

  lemma SameFromIsEquality(mem: array<octet>, p: int, q: int, n: int)
    requires Inside(p, n, mem.Length) && Inside(q, n, mem.Length)
    ensures SameFrom(mem, p, q, n, 0) <==> mem[p..p + n] == mem[q..q + n]
  {
    var x, y := mem[p..p + n], mem[q..q + n];
    forall k | 0 <= k < n ensures x[k] == At(mem, p, k) && y[k] == At(mem, q, k) {}
    if x == y {
      forall k | 0 <= k < n ensures At(mem, p, k) == At(mem, q, k) {
        assert x[k] == y[k];
      }
    }
  }
}
