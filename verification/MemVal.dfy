/** The data value macros of lib_mem.h on a little-endian host: octets in memory against the
    numbers they denote in big- or little-endian order. */
module MemVal {
  import opened Arith
  import opened MemOps

  // ---- Numbers and octets -------------------------------------------------------------------

  /** Most significant octet first. */
  function Big(s: seq<octet>): nat { if s == [] then 0 else Big(s[..|s| - 1]) * 0x100 + s[|s| - 1] }

  /** Least significant octet first. */
  function Little(s: seq<octet>): nat { if s == [] then 0 else s[0] + 0x100 * Little(s[1..]) }

  function Reversed(s: seq<octet>): (r: seq<octet>)
    ensures |r| == |s| && forall k :: 0 <= k < |s| ==> r[k] == s[|s| - 1 - k]
  {
    seq(|s|, k requires 0 <= k < |s| => s[|s| - 1 - k])
  }

  lemma ReversedTwice(s: seq<octet>)
    ensures Reversed(Reversed(s)) == s
  {
    var r := Reversed(s);
    forall k | 0 <= k < |s| ensures Reversed(r)[k] == s[k] {
      assert Reversed(r)[k] == r[|s| - 1 - k];
    }
  }

  /** Reversed octets read little-endian are the octets read big-endian. */
  lemma {:induction false} LittleOfReversed(s: seq<octet>)
    ensures Little(Reversed(s)) == Big(s)
  {
    if s != [] {
      LittleOfReversed(s[..|s| - 1]);
      assert Reversed(s)[1..] == Reversed(s[..|s| - 1]);
    }
  }

  lemma BigOfReversed(s: seq<octet>)
    ensures Big(Reversed(s)) == Little(s)
  {
    LittleOfReversed(Reversed(s));
    ReversedTwice(s);
  }

  /** The n low octets of v, least significant first. */
  function LittleDigits(v: nat, n: nat): (s: seq<octet>)
    ensures |s| == n
  {
    if n == 0 then [] else [v % 0x100] + LittleDigits(v / 0x100, n - 1)
  }

  function BigDigits(v: nat, n: nat): (s: seq<octet>)
    ensures |s| == n
  {
    Reversed(LittleDigits(v, n))
  }

  lemma HigherOctets(v: nat, n: nat)
    requires n > 0 && v < Pow2(8 * n)
    ensures v / 0x100 < Pow2(8 * (n - 1))
  {
    Pow2At32();
    hide Pow2;
    Pow2Add(8, 8 * (n - 1));
  }

  lemma {:induction false} LittleOfDigits(v: nat, n: nat)
    requires v < Pow2(8 * n)
    ensures Little(LittleDigits(v, n)) == v
  {
    if n > 0 {
      HigherOctets(v, n);
      hide Pow2;
      LittleOfDigits(v / 0x100, n - 1);
      assert LittleDigits(v, n)[1..] == LittleDigits(v / 0x100, n - 1);
    }
  }

  lemma {:induction false} DigitsOfLittle(s: seq<octet>)
    ensures LittleDigits(Little(s), |s|) == s
  {
    if s != [] {
      DigitsOfLittle(s[1..]);
      DivModUnique(Little(s), 0x100, Little(s[1..]), s[0]);
      assert s == [s[0]] + s[1..];
    }
  }

  /** Encoding and decoding are inverse, in either order. */
  lemma RoundTrip(v: nat, n: nat, s: seq<octet>)
    requires v < Pow2(8 * n)
    ensures Little(LittleDigits(v, n)) == v && Big(BigDigits(v, n)) == v
    ensures LittleDigits(Little(s), |s|) == s && BigDigits(Big(s), |s|) == s
  {
    LittleOfDigits(v, n);
    BigOfReversed(LittleDigits(v, n));
    DigitsOfLittle(s);
    LittleOfReversed(s);
    DigitsOfLittle(Reversed(s));
    ReversedTwice(s);
  }

  lemma NextOctet(v: nat, k: nat)
    requires k > 0
    ensures (v / 0x100) / Pow2(8 * (k - 1)) == v / Pow2(8 * k)
  {
    var p := Pow2(8 * (k - 1));
    Pow2Add(8, 8 * (k - 1));
    assert Pow2(8) == 0x100;
    var q, r := v / 0x100 / p, v / 0x100 % p;
    assert v == (q * p + r) * 0x100 + v % 0x100;
    assert (q * p + r) * 0x100 == q * (0x100 * p) + r * 0x100;
    DivModUnique(v, 0x100 * p, q, r * 0x100 + v % 0x100);
  }

  /** Digit k is what masking and shifting by 8 * k bits extracts. */
  lemma {:induction false} DigitAt(v: u32, n: nat, k: nat)
    requires k < n
    ensures LittleDigits(v, n)[k] == WordOctet(v, k)
  {
    if k == 0 {
      assert Pow2(0) == 1;
    } else {
      DigitAt(v / 0x100, n - 1, k - 1);
      NextOctet(v, k);
    }
  }

  // ---- MEM_VAL_SET, MEM_VAL_GET ---------------------------------------------------------------

  /** Memory with s stored at a. */
  function Placed(m: seq<octet>, a: int, s: seq<octet>): (r: seq<octet>)
    requires Inside(a, |s|, |m|)
    ensures |r| == |m| && forall i :: 0 <= i < |m| ==> r[i] == if a <= i < a + |s| then s[i - a] else m[i]
  {
    m[..a] + s + m[a + |s|..]
  }

  method SetInt16Big(mem: array<octet>, a: int, val: u32)
    requires Inside(a, 2, mem.Length) && val < 0x1_0000
    modifies mem
    ensures mem[..] == Placed(old(mem[..]), a, BigDigits(val, 2))
  {
    hide WordOctet, LittleDigits;
    DigitsTo4(val);
    ghost var m := mem[..];
    mem[a] := WordOctet(val, 1);
    mem[a + 1] := WordOctet(val, 0);
    assert mem[..] == m[..a] + [WordOctet(val, 1), WordOctet(val, 0)] + m[a + 2..];
  }

  method SetInt16Little(mem: array<octet>, a: int, val: u32)
    requires Inside(a, 2, mem.Length) && val < 0x1_0000
    modifies mem
    ensures mem[..] == Placed(old(mem[..]), a, LittleDigits(val, 2))
  {
    hide WordOctet, LittleDigits;
    DigitsTo4(val);
    ghost var m := mem[..];
    mem[a] := WordOctet(val, 0);
    mem[a + 1] := WordOctet(val, 1);
    assert mem[..] == m[..a] + [WordOctet(val, 0), WordOctet(val, 1)] + m[a + 2..];
  }

  method SetInt32Big(mem: array<octet>, a: int, val: u32)
    requires Inside(a, 4, mem.Length)
    modifies mem
    ensures mem[..] == Placed(old(mem[..]), a, BigDigits(val, 4))
  {
    hide WordOctet, LittleDigits;
    DigitsTo4(val);
    mem[a] := WordOctet(val, 3);
    mem[a + 1] := WordOctet(val, 2);
    mem[a + 2] := WordOctet(val, 1);
    mem[a + 3] := WordOctet(val, 0);
  }

  method SetInt32Little(mem: array<octet>, a: int, val: u32)
    requires Inside(a, 4, mem.Length)
    modifies mem
    ensures mem[..] == Placed(old(mem[..]), a, LittleDigits(val, 4))
  {
    hide WordOctet, LittleDigits;
    DigitsTo4(val);
    mem[a] := WordOctet(val, 0);
    mem[a + 1] := WordOctet(val, 1);
    mem[a + 2] := WordOctet(val, 2);
    mem[a + 3] := WordOctet(val, 3);
  }

  lemma DigitsTo4(v: u32)
    ensures LittleDigits(v, 2) == [WordOctet(v, 0), WordOctet(v, 1)]
    ensures LittleDigits(v, 4) == [WordOctet(v, 0), WordOctet(v, 1), WordOctet(v, 2), WordOctet(v, 3)]
    ensures BigDigits(v, 2) == [WordOctet(v, 1), WordOctet(v, 0)]
    ensures BigDigits(v, 4) == [WordOctet(v, 3), WordOctet(v, 2), WordOctet(v, 1), WordOctet(v, 0)]
  {
    hide WordOctet;
    DigitAt(v, 2, 0);
    DigitAt(v, 2, 1);
    DigitAt(v, 4, 0);
    DigitAt(v, 4, 1);
    DigitAt(v, 4, 2);
    DigitAt(v, 4, 3);
  }

  function GetInt16Big(m: seq<octet>, a: int): (v: nat)
    requires Inside(a, 2, |m|)
    ensures v == Big(m[a..a + 2])
  {
    BigOf4(m[a..a + 2]);
    (m[a] as int) * 0x100 + m[a + 1]
  }

  function GetInt16Little(m: seq<octet>, a: int): (v: nat)
    requires Inside(a, 2, |m|)
    ensures v == Little(m[a..a + 2])
  {
    LittleOf4(m[a..a + 2]);
    m[a] + (m[a + 1] as int) * 0x100
  }

  function GetInt32Big(m: seq<octet>, a: int): (v: nat)
    requires Inside(a, 4, |m|)
    ensures v == Big(m[a..a + 4])
  {
    BigOf4(m[a..a + 4]);
    (m[a] as int) * 0x100_0000 + (m[a + 1] as int) * 0x1_0000 + (m[a + 2] as int) * 0x100 + m[a + 3]
  }

  function GetInt32Little(m: seq<octet>, a: int): (v: nat)
    requires Inside(a, 4, |m|)
    ensures v == Little(m[a..a + 4])
  {
    LittleOf4(m[a..a + 4]);
    m[a] + (m[a + 1] as int) * 0x100 + (m[a + 2] as int) * 0x1_0000 + (m[a + 3] as int) * 0x100_0000
  }

  lemma LittleOf4(s: seq<octet>)
    ensures |s| == 2 ==> Little(s) == s[0] + (s[1] as int) * 0x100
    ensures |s| == 4 ==> Little(s) == s[0] + (s[1] as int) * 0x100 + (s[2] as int) * 0x1_0000 + (s[3] as int) * 0x100_0000
  {
    if |s| == 2 {
      assert s[1..][1..] == [];
    }
    if |s| == 4 {
      var t := s[2..];
      assert s[1..][1..] == t && t[1..][1..] == [] && t[1..][0] == s[3];
      assert Little(t) == s[2] + 0x100 * (s[3] as int);
    }
  }

  lemma BigOf4(s: seq<octet>)
    ensures |s| == 2 ==> Big(s) == (s[0] as int) * 0x100 + s[1]
    ensures |s| == 4 ==> Big(s) == (s[0] as int) * 0x100_0000 + (s[1] as int) * 0x1_0000 + (s[2] as int) * 0x100 + s[3]
  {
    BigOfReversed(s);
    LittleOfReversed(s);
    LittleOf4(Reversed(s));
  }

  /** A value set in memory is got back, in the same order, by any later read of those octets. */
  lemma SetThenGet(m: seq<octet>, a: int, v: nat, n: nat)
    requires Inside(a, n, |m|) && v < Pow2(8 * n)
    ensures Big(Placed(m, a, BigDigits(v, n))[a..a + n]) == v
    ensures Little(Placed(m, a, LittleDigits(v, n))[a..a + n]) == v
  {
    RoundTrip(v, n, []);
    assert Placed(m, a, BigDigits(v, n))[a..a + n] == BigDigits(v, n);
    assert Placed(m, a, LittleDigits(v, n))[a..a + n] == LittleDigits(v, n);
  }

  // ---- MEM_VAL_BIG_TO_LITTLE ------------------------------------------------------------------

  function BigToLittle16(v: u32): u32
    requires v < 0x1_0000
  {
    WordOctet(v, 1) + (WordOctet(v, 0) as int) * 0x100
  }

  function BigToLittle32(v: u32): u32 {
    WordOctet(v, 3) + (WordOctet(v, 2) as int) * 0x100 + (WordOctet(v, 1) as int) * 0x1_0000 + (WordOctet(v, 0) as int) * 0x100_0000
  }

  /** The conversion turns the little-endian reading of octets into their big-endian reading. */
  lemma ConvertsReading(s: seq<octet>)
    ensures |s| == 2 ==> Little(s) < 0x1_0000 && BigToLittle16(Little(s)) == Big(s)
    ensures |s| == 4 ==> Little(s) < U32 && BigToLittle32(Little(s)) == Big(s)
  {
    hide WordOctet;
    LittleOf4(s);
    BigOf4(s);
    DigitsOfLittle(s);
    if |s| == 2 || |s| == 4 {
      DigitsTo4(Little(s));
    }
  }

  /** Converting twice changes nothing. */
  lemma ConvertTwice(v: u32)
    ensures BigToLittle32(BigToLittle32(v)) == v
    ensures v < 0x1_0000 ==> BigToLittle16(v) < 0x1_0000 && BigToLittle16(BigToLittle16(v)) == v
  {
    Pow2At32();
    hide Pow2;
    var s := LittleDigits(v, 4);
    LittleOfDigits(v, 4);
    ConvertsReading(s);
    LittleOfReversed(s);
    BigOfReversed(s);
    ConvertsReading(Reversed(s));
    if v < 0x1_0000 {
      var t := LittleDigits(v, 2);
      LittleOfDigits(v, 2);
      ConvertsReading(t);
      LittleOfReversed(t);
      BigOfReversed(t);
      ConvertsReading(Reversed(t));
    }
  }

  // ---- MEM_VAL_COPY_GET_INTU ----------------------------------------------------------------------

  predicate Disjoint(d: int, s: int, n: int) { d + n <= s || s + n <= d }

  lemma NextIndex(j: u32)
    ensures j > 0 ==> Diff(j, 1) == j - 1
  {
  }

  lemma PlacedThere(m: seq<octet>, a: int, s: seq<octet>, now: seq<octet>)
    requires Inside(a, |s|, |m|) && |now| == |m| && now[a..a + |s|] == s
    requires forall i :: 0 <= i < |m| && !(a <= i < a + |s|) ==> now[i] == m[i]
    ensures now == Placed(m, a, s)
  {
    assert now == now[..a] + now[a..a + |s|] + now[a + |s|..];
    assert now[..a] == m[..a] && now[a + |s|..] == m[a + |s|..];
  }

  /** The reversing loop; its second index is a 32-bit word that wraps after the last octet. */
  method CopyGetIntuBig(mem: array<octet>, dest: int, src: int, size: u32)
    requires Inside(dest, size, mem.Length) && Inside(src, size, mem.Length) && Disjoint(dest, src, size)
    modifies mem
    ensures mem[..] == Placed(old(mem[..]), dest, Reversed(old(mem[src..src + size])))
    ensures Little(mem[dest..dest + size]) == Big(old(mem[src..src + size]))
  {
    ghost var m := mem[..];
    ghost var octets := mem[src..src + size];
    ghost var r := Reversed(octets);
    hide Big, Little, Placed, Reversed, Diff;
    NextIndex(size);
    var j := Diff(size, 1);
    var i := 0;
    while i < size
      invariant 0 <= i <= size && (i < size ==> j == size - 1 - i)
      invariant mem[dest..dest + i] == r[..i]
      invariant forall a :: 0 <= a < mem.Length && !(dest <= a < dest + i) ==> mem[a] == m[a]
    {
      assert mem[src + j] == octets[j] == r[i];
      mem[dest + i] := mem[src + j];
      NextIndex(j);
      j := Diff(j, 1);
      i := i + 1;
    }
    assert mem[dest..dest + size] == r;
    PlacedThere(m, dest, r, mem[..]);
    LittleOfReversed(octets);
  }

  /** The straight loop. */
  method CopyGetIntuLittle(mem: array<octet>, dest: int, src: int, size: u32)
    requires Inside(dest, size, mem.Length) && Inside(src, size, mem.Length) && Disjoint(dest, src, size)
    modifies mem
    ensures mem[..] == Placed(old(mem[..]), dest, old(mem[src..src + size]))
  {
    ghost var m := mem[..];
    hide Placed;
    ghost var octets := mem[src..src + size];
    var i := 0;
    while i < size
      invariant 0 <= i <= size
      invariant mem[dest..dest + i] == octets[..i]
      invariant forall a :: 0 <= a < mem.Length && !(dest <= a < dest + i) ==> mem[a] == m[a]
    {
      assert mem[src + i] == octets[i];
      mem[dest + i] := mem[src + i];
      i := i + 1;
    }
    assert mem[dest..dest + size] == octets;
    PlacedThere(m, dest, octets, mem[..]);
  }

  /** Copy/get and copy/set are the same loop, and one undoes the other: running it into one
      buffer and from there into another yields the original octets. */
  method CopyTwice(mem: array<octet>, first: int, second: int, src: int, size: u32)
    requires Inside(first, size, mem.Length) && Inside(second, size, mem.Length) && Inside(src, size, mem.Length)
    requires Disjoint(first, src, size) && Disjoint(second, first, size)
    modifies mem
    ensures mem[second..second + size] == old(mem[src..src + size])
  {
    hide Placed, Reversed, Big, Little;
    ghost var octets := mem[src..src + size];
    ghost var m0 := mem[..];
    CopyGetIntuBig(mem, first, src, size);
    PlacedOctets(m0, first, Reversed(octets), mem[..]);
    ghost var m1 := mem[..];
    CopyGetIntuBig(mem, second, first, size);
    PlacedOctets(m1, second, Reversed(Reversed(octets)), mem[..]);
    ReversedTwice(octets);
  }

  lemma PlacedOctets(m: seq<octet>, a: int, s: seq<octet>, now: seq<octet>)
    requires Inside(a, |s|, |m|) && now == Placed(m, a, s)
    ensures |now| == |m| && now[a..a + |s|] == s
  {
  }
}
