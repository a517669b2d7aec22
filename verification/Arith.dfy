/** Integer arithmetic shared by the models: 32-bit wrap-around, powers of two,
    and the facts about `/` and `%` by a variable divisor that the proofs use. */
module Arith {

  const U32: int := 0x1_0000_0000

  /** A 32-bit unsigned word: CPU_INT32U, CPU_ADDR and CPU_SIZE_T on this target. */
  type u32 = x: int | 0 <= x < 0x1_0000_0000

  /** The value an unsigned 32-bit expression keeps. */
  function Wrap(x: int): u32 { x % U32 }

  /** Subtraction of 32-bit words. */
  function Diff(x: u32, y: u32): (z: u32)
    ensures z == Wrap(x - y)
  {
    if x >= y then
      SmallMod(x - y, U32);
      x - y
    else
      DivModUnique(x - y, U32, -1, U32 + x - y);
      U32 + x - y
  }

  lemma WrapAdd(x: int, y: int)
    ensures Wrap(Wrap(x) + y) == Wrap(x + y)
  {
    ModAddMul(Wrap(x) + y, x / U32, U32);
  }

  /** Reducing to a word first does not disturb a later reduction by a divisor of 2^32. */
  lemma WrapMod(x: int, m: int)
    requires m > 0 && U32 % m == 0
    ensures Wrap(x) % m == x % m
  {
    var q := (x / U32) * (U32 / m);
    assert x == Wrap(x) + q * m;
    ModAddMul(Wrap(x), q, m);
  }

  function Max(a: int, b: int): int { if a < b then b else a }

  function Min(a: int, b: int): int { if a < b then a else b }

  function Pow2(k: nat): (p: nat)
    ensures p > 0
  {
    if k == 0 then 1 else 2 * Pow2(k - 1)
  }

  lemma {:induction false} Pow2Add(j: nat, k: nat)
    ensures Pow2(j + k) == Pow2(j) * Pow2(k)
  {
    if j > 0 {
      Pow2Add(j - 1, k);
      assert Pow2(j + k) == 2 * (Pow2(j - 1) * Pow2(k));
    }
  }

  lemma Pow2At32()
    ensures Pow2(31) == 0x8000_0000
    ensures Pow2(32) == U32
    ensures Pow2(8) == 0x100 && Pow2(16) == 0x1_0000 && Pow2(24) == 0x100_0000
  {
    assert Pow2(8) == 0x100;
    assert Pow2(16) == 0x1_0000;
    assert Pow2(24) == 0x100_0000;
  }

  /** Quotient and remainder are determined by their defining equation. */
  lemma DivModUnique(x: int, m: int, q: int, r: int)
    requires 0 <= r < m && x == q * m + r
    ensures x / m == q && x % m == r
  {
    var d := x / m - q;
    assert d * m == r - x % m;
    assert d >= 1 ==> d * m >= m;
    assert d <= -1 ==> d * m <= -m;
  }

  lemma SmallMod(x: int, m: int)
    requires 0 <= x < m
    ensures x % m == x && x / m == 0
  {
    DivModUnique(x, m, 0, x);
  }

  lemma WrapSmall(x: int)
    requires 0 <= x < U32
    ensures Wrap(x) == x
  {
    SmallMod(x, U32);
  }

  lemma MulMod(q: int, m: int)
    requires m > 0
    ensures (q * m) % m == 0 && (q * m) / m == q
  {
    DivModUnique(q * m, m, q, 0);
  }

  /** Adding a multiple of the modulus changes nothing. */
  lemma ModAddMul(x: int, q: int, m: int)
    requires m > 0
    ensures (x + q * m) % m == x % m
  {
    DivModUnique(x + q * m, m, x / m + q, x % m);
  }

  /** Two numbers agree modulo m exactly when m divides their difference. */
  lemma ModEqIff(x: int, y: int, m: int)
    requires m > 0
    ensures x % m == y % m <==> (x - y) % m == 0
  {
    if x % m == y % m {
      assert x - y == (x / m - y / m) * m;
      MulMod(x / m - y / m, m);
    }
    if (x - y) % m == 0 {
      assert x == y + ((x - y) / m) * m;
      ModAddMul(y, (x - y) / m, m);
    }
  }

  /** Divisibility is transitive. */
  lemma DivisorChain(x: int, m: int, d: int)
    requires m > 0 && d > 0 && x % m == 0 && m % d == 0
    ensures x % d == 0
  {
    assert x == ((x / m) * (m / d)) * d;
    MulMod((x / m) * (m / d), d);
  }

  lemma MulLe(a: int, b: int, m: int)
    requires a <= b && 0 <= m
    ensures a * m <= b * m
  {
  }

  /** Affine maps respect congruence. */
  lemma ModAffine(a: int, b: int, x: int, y: int, m: int)
    requires m > 0 && x % m == y % m
    ensures (a * x + b) % m == (a * y + b) % m
  {
    ModEqIff(x, y, m);
    var q := (x - y) / m;
    assert a * x + b == (a * y + b) + (a * q) * m by {
      assert x == y + q * m;
      assert a * (y + q * m) == a * y + (a * q) * m;
    }
    ModAddMul(a * y + b, a * q, m);
  }

  // ---- Counting ------------------------------------------------------------

  predicate Distinct<T(==)>(s: seq<T>) {
    forall i, j :: 0 <= i < j < |s| ==> s[i] != s[j]
  }

  ghost function Elements<T>(s: seq<T>): set<T> { set x | x in s }

  lemma {:induction false} DistinctSize<T>(s: seq<T>)
    requires Distinct(s)
    ensures |Elements(s)| == |s|
  {
    if s != [] {
      var n := |s| - 1;
      DistinctSize(s[..n]);
      assert Elements(s) == Elements(s[..n]) + {s[n]};
    }
  }

  ghost function Below(m: nat): (s: set<int>)
    ensures |s| == m
    ensures forall x :: x in s <==> 0 <= x < m
  {
    if m == 0 then {} else Below(m - 1) + {m - 1}
  }

  /** A set of m numbers below m is all of them. */
  lemma {:induction false} FullSubset(a: set<int>, m: nat)
    requires a <= Below(m)
    ensures |a| <= m
    ensures |a| == m ==> a == Below(m)
  {
    if m == 0 {
      assert a == {};
    } else {
      FullSubset(a - {m - 1}, m - 1);
      if m - 1 in a {
        assert a == (a - {m - 1}) + {m - 1};
      } else {
        assert a == a - {m - 1};
      }
    }
  }

  /** m different numbers below m meet every number below m. */
  lemma InjectionIsOnto(s: seq<int>, v: int) returns (i: nat)
    requires Distinct(s)
    requires forall j :: 0 <= j < |s| ==> 0 <= s[j] < |s|
    requires 0 <= v < |s|
    ensures i < |s| && s[i] == v
  {
    DistinctSize(s);
    FullSubset(Elements(s), |s|);
    assert v in Below(|s|);
    i :| i < |s| && s[i] == v;
  }
}
