/** Counting leading and trailing zero bits in cpu_core.c: the branch trees over a 256-entry
    table, and the trailing count by isolating the lowest set bit. */
module CntZeros {
  import opened Arith

  function Repeat(x: nat, n: nat): (s: seq<nat>)
    ensures |s| == n && forall i :: 0 <= i < n ==> s[i] == x
  {
    seq(n, _ => x)
  }

  /** CPU_CntLeadZerosTbl. */
  function Tbl(): (t: seq<nat>)
    ensures |t| == 0x100
  {
    [8, 7, 6, 6, 5, 5, 5, 5, 4, 4, 4, 4, 4, 4, 4, 4]
    + Repeat(3, 16) + Repeat(2, 32) + Repeat(1, 64) + Repeat(0, 128)
  }

  // ---- What is counted ------------------------------------------------------------------------

  /** n of the w bits of v precede its highest set bit. */
  predicate IsLeadZeros(v: nat, w: nat, n: nat) {
    if v == 0 then n == w else n < w && Pow2(w - 1 - n) <= v < Pow2(w - n)
  }

  /** v is 2^n times an odd number. */
  predicate IsTrailZeros(v: nat, w: nat, n: nat) {
    if v == 0 then n == w else n < w && v % Pow2(n) == 0 && (v / Pow2(n)) % 2 == 1
  }

  lemma {:induction false} Pow2Monotone(j: nat, k: nat)
    requires j <= k
    ensures Pow2(j) <= Pow2(k)
  {
    if j < k {
      Pow2Monotone(j, k - 1);
    }
  }

  /** A value has one count of leading zeros only. */
  lemma LeadZerosUnique(v: nat, w: nat, m: nat, n: nat)
    requires IsLeadZeros(v, w, m) && IsLeadZeros(v, w, n)
    ensures m == n
  {
    if v != 0 && m < n {
      Pow2Monotone(w - n, w - 1 - m);
      assert false;
    }
    if v != 0 && n < m {
      Pow2Monotone(w - m, w - 1 - n);
      assert false;
    }
  }

  // ---- Leading zeros ------------------------------------------------------------------------------

  /** The table is right for every octet. */
  lemma TableEntry(ix: nat)
    requires ix < 0x100
    ensures IsLeadZeros(ix, 8, Tbl()[ix])
  {
    assert Pow2(0) == 1 && Pow2(1) == 2 && Pow2(2) == 4 && Pow2(3) == 8 && Pow2(4) == 16;
    assert Pow2(5) == 32 && Pow2(6) == 64 && Pow2(7) == 128 && Pow2(8) == 256;
  }

  lemma OctetPowers()
    ensures Pow2(0) == 1 && Pow2(8) == 0x100 && Pow2(16) == 0x1_0000 && Pow2(24) == 0x100_0000 && Pow2(32) == 0x1_0000_0000
    ensures Pow2(40) == 0x100_0000_0000 && Pow2(48) == 0x1_0000_0000_0000
    ensures Pow2(56) == 0x100_0000_0000_0000 && Pow2(64) == 0x1_0000_0000_0000_0000
  {
    Pow2At32();
    Pow2Add(32, 8);
    Pow2Add(32, 16);
    Pow2Add(32, 24);
    Pow2Add(32, 32);
  }

  lemma ShiftedBounds(v: nat, p: nat, lo: nat, hi: nat)
    requires p > 0 && lo <= v / p < hi
    ensures lo * p <= v < hi * p
  {
    MulLe(lo, v / p, p);
    MulLe(v / p + 1, hi, p);
    assert v == (v / p) * p + v % p;
    assert (v / p + 1) * p == (v / p) * p + p;
  }

  lemma QuotientOctet(v: nat, p: nat)
    requires p > 0 && v < 0x100 * p
    ensures 0 <= v / p < 0x100
    ensures p <= v ==> 0 < v / p
  {
    assert v == (v / p) * p + v % p;
    if v / p >= 0x100 {
      MulLe(0x100, v / p, p);
      assert false;
    }
    if v / p < 0 {
      MulLe(v / p, -1, p);
      assert false;
    }
  }

  /** Counting in the highest octet that is not zero, and adding the bits above it. */
  lemma CountInOctet(v: nat, w: nat, shift: nat)
    requires shift + 8 <= w && v < Pow2(shift + 8) && (shift > 0 ==> Pow2(shift) <= v)
    ensures v / Pow2(shift) < 0x100
    ensures IsLeadZeros(v, w, Tbl()[v / Pow2(shift)] + (w - 8 - shift))
  {
    hide Tbl, Pow2;
    var p := Pow2(shift);
    OctetPowers();
    Pow2Add(8, shift);
    QuotientOctet(v, p);
    var ix := v / p;
    TableEntry(ix);
    var t := Tbl()[ix];
    if v != 0 {
      assert shift == 0 ==> p == 1;
      ShiftedBounds(v, p, Pow2(7 - t), Pow2(8 - t));
      Pow2Add(7 - t, shift);
      Pow2Add(8 - t, shift);
    }
  }

  /** One leaf of the branch trees: the table entry for the octet at shift, plus the bits above it. */
  function Leaf(v: nat, w: nat, shift: nat): (n: nat)
    requires shift + 8 <= w && v < Pow2(shift + 8) && (shift > 0 ==> Pow2(shift) <= v)
    ensures IsLeadZeros(v, w, n)
  {
    CountInOctet(v, w, shift);
    Tbl()[v / Pow2(shift)] + (w - 8 - shift)
  }

  function LeadZeros08(v: nat): (n: nat)
    requires v < 0x100
    ensures IsLeadZeros(v, 8, n)
  {
    OctetPowers();
    Leaf(v, 8, 0)
  }

  function LeadZeros16(v: nat): (n: nat)
    requires v < 0x1_0000
    ensures IsLeadZeros(v, 16, n)
  {
    OctetPowers();
    if v > 0xFF then Leaf(v, 16, 8) else Leaf(v, 16, 0)
  }

  function LeadZeros32(v: nat): (n: nat)
    requires v < 0x1_0000_0000
    ensures IsLeadZeros(v, 32, n)
  {
    OctetPowers();
    if v > 0xFFFF then
      if v > 0xFF_FFFF then Leaf(v, 32, 24) else Leaf(v, 32, 16)
    else
      if v > 0xFF then Leaf(v, 32, 8) else Leaf(v, 32, 0)
  }

  function LeadZeros64(v: nat): (n: nat)
    requires v < 0x1_0000_0000_0000_0000
    ensures IsLeadZeros(v, 64, n)
  {
    OctetPowers();
    if v > 0xFFFF_FFFF then
      if v > 0xFFFF_FFFF_FFFF then
        if v > 0xFF_FFFF_FFFF_FFFF then Leaf(v, 64, 56) else Leaf(v, 64, 48)
      else
        if v > 0xFF_FFFF_FFFF then Leaf(v, 64, 40) else Leaf(v, 64, 32)
    else
      if v > 0xFFFF then
        if v > 0xFF_FFFF then Leaf(v, 64, 24) else Leaf(v, 64, 16)
      else
        if v > 0xFF then Leaf(v, 64, 8) else Leaf(v, 64, 0)
  }

  // ---- Trailing zeros -------------------------------------------------------------------------------

  /** Bitwise and. */
  function And(x: nat, y: nat): nat {
    if x == 0 || y == 0 then 0 else 2 * And(x / 2, y / 2) + (x % 2) * (y % 2)
  }

  lemma AndStep(a: nat, b: nat, i: nat, j: nat)
    requires i < 2 && j < 2
    ensures And(2 * a + i, 2 * b + j) == 2 * And(a, b) + i * j
  {
    var x, y := 2 * a + i, 2 * b + j;
    assert x / 2 == a && x % 2 == i && y / 2 == b && y % 2 == j;
    if x == 0 || y == 0 {
      assert i * j == 0;
    }
  }

  /** A value and its complement have no bit in common. */
  lemma {:induction false} AndComplement(a: nat, w: nat)
    requires a < Pow2(w)
    ensures And(a, Pow2(w) - 1 - a) == 0
  {
    if w > 0 {
      AndComplement(a / 2, w - 1);
      AndStep(a / 2, Pow2(w - 1) - 1 - a / 2, a % 2, 1 - a % 2);
    }
  }

  /** v & (~v + 1) keeps the lowest set bit of v and clears all others. */
  lemma {:induction false} LowestBit(v: nat, w: nat) returns (t: nat)
    requires 0 < v < Pow2(w)
    ensures And(v, Pow2(w) - 1 - v + 1) == Pow2(t) && IsTrailZeros(v, w, t)
    decreases w
  {
    if v % 2 == 1 {
      t := 0;
      LowestBitOdd(v / 2, w - 1, Pow2(w - 1));
    } else {
      var s := LowestBit(v / 2, w - 1);
      t := s + 1;
      LowestBitEven(v / 2, w - 1, Pow2(w - 1), s);
    }
  }

  lemma LowestBitOdd(a: nat, w: nat, half: nat)
    requires half == Pow2(w) && a < half
    ensures And(2 * a + 1, 2 * half - 1 - (2 * a + 1) + 1) == Pow2(0) && IsTrailZeros(2 * a + 1, w + 1, 0)
  {
    assert Pow2(0) == 1;
    hide Pow2;
    AndComplement(a, w);
    AndStep(a, half - 1 - a, 1, 1);
  }

  lemma LowestBitEven(a: nat, w: nat, half: nat, s: nat)
    requires half == Pow2(w) && 0 < a < half && And(a, half - 1 - a + 1) == Pow2(s) && IsTrailZeros(a, w, s)
    ensures And(2 * a, 2 * half - 1 - 2 * a + 1) == Pow2(s + 1) && IsTrailZeros(2 * a, w + 1, s + 1)
  {
    hide Pow2;
    Pow2Double(s);
    AndStep(a, half - a, 0, 0);
    EvenTrailZeros(a, Pow2(s));
  }

  lemma Pow2Double(k: nat)
    ensures Pow2(k + 1) == 2 * Pow2(k)
  {
  }

  lemma EvenTrailZeros(a: nat, p: nat)
    requires p > 0 && a % p == 0
    ensures (2 * a) % (2 * p) == 0 && (2 * a) / (2 * p) == a / p
  {
    assert a == (a / p) * p;
    DivModUnique(2 * a, 2 * p, a / p, 0);
  }

  /** The widths the functions exist for. */
  datatype Width = W08 | W16 | W32 | W64 {
    function Bits(): nat {
      match this case W08 => 8 case W16 => 16 case W32 => 32 case W64 => 64
    }

    function Limit(): (l: nat)
      ensures l == Pow2(Bits())
    {
      OctetPowers();
      match this case W08 => 0x100 case W16 => 0x1_0000 case W32 => 0x1_0000_0000 case W64 => 0x1_0000_0000_0000_0000
    }
  }

  /** CPU_CntLeadZeros on a target with this data size. */
  function LeadZeros(size: Width, v: nat): (n: nat)
    requires v < size.Limit()
    ensures IsLeadZeros(v, size.Bits(), n)
  {
    match size
    case W08 => LeadZeros08(v)
    case W16 => LeadZeros16(v)
    case W32 => LeadZeros32(v)
    case W64 => LeadZeros64(v)
  }

  /** The widths, told by the answer for 0: all its bits are zeros, from either end. */
  lemma CountsOfZero()
    ensures LeadZeros(W08, 0) == 8 && LeadZeros(W16, 0) == 16 && LeadZeros(W32, 0) == 32 && LeadZeros(W64, 0) == 64
    ensures TrailZeros(W08, 0) == 8 && TrailZeros(W16, 0) == 16 && TrailZeros(W32, 0) == 32 && TrailZeros(W64, 0) == 64
    ensures forall w: Width :: w.Bits() == LeadZeros(w, 0) && w.Limit() == Pow2(LeadZeros(w, 0))
  {
  }

  lemma LowestBitCount(v: nat, w: nat, n: nat)
    requires 0 < v < Pow2(w) && IsLeadZeros(And(v, Pow2(w) - 1 - v + 1), w, n)
    ensures n < w && IsTrailZeros(v, w, w - 1 - n)
  {
    var t := LowestBit(v, w);
    assert Pow2(t + 1) == 2 * Pow2(t);
    assert IsLeadZeros(Pow2(t), w, w - 1 - t);
    LeadZerosUnique(Pow2(t), w, n, w - 1 - t);
  }

  lemma {:induction false} AndBelow(x: nat, y: nat)
    ensures And(x, y) <= x
  {
    if x != 0 && y != 0 {
      AndBelow(x / 2, y / 2);
      assert (x % 2) * (y % 2) <= x % 2 by {
        if y % 2 == 0 { assert (x % 2) * 0 == 0; }
      }
    }
  }

  lemma TrailCount(size: Width, v: nat)
    requires 0 < v < size.Limit()
    ensures var mask := And(v, size.Limit() - 1 - v + 1);
            mask < size.Limit() && LeadZeros(size, mask) < size.Bits() &&
            IsTrailZeros(v, size.Bits(), size.Bits() - 1 - LeadZeros(size, mask))
  {
    hide Pow2, LeadZeros;
    var rest := size.Limit() - 1 - v + 1;
    AndBelow(v, rest);
    LowestBitCount(v, size.Bits(), LeadZeros(size, And(v, rest)));
  }

  /** CPU_CntTrailZeros and its fixed-width forms. */
  function TrailZeros(size: Width, v: nat): (n: nat)
    requires v < size.Limit()
    ensures IsTrailZeros(v, size.Bits(), n)
  {
    if v == 0 then size.Bits() else
      TrailCount(size, v);
      size.Bits() - 1 - LeadZeros(size, And(v, size.Limit() - 1 - v + 1))
  }
}
