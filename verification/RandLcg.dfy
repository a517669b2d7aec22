/** The pseudo-random generator of lib_math.c: a linear congruential generator
    computed in wrapping 32-bit arithmetic, and the period of every run of it. */
module RandLcg {
  import opened Arith

  const PARAM_A: u32 := 1103515245
  const PARAM_B: u32 := 12345
  const PARAM_M: u32 := 0x7FFF_FFFF
  const SEED_INIT: u32 := 1

  /** Math_RandSeed: every intermediate result is a 32-bit word. */
  function RandSeed(seed: u32): (next: u32) {
    Wrap(Wrap(PARAM_A * seed) + PARAM_B) % Wrap(PARAM_M + 1)
  }

  /** The generator's global state and the three functions that touch it. */
  class Generator {
    var seedCur: u32

    /** State before Math_Init: the C global is zero. */
    constructor ()
      ensures seedCur == 0
    {
      seedCur := 0;
    }

    method Init()
      modifies this
      ensures seedCur == 1
    {
      SetSeed(SEED_INIT);
    }

    method SetSeed(seed: u32)
      modifies this
      ensures seedCur == seed
    {
      seedCur := seed;
    }

    /** One call advances the orbit of the seed by one and returns the new seed. */
    method Rand() returns (r: u32)
      modifies this
      ensures r == seedCur == Orbit(old(seedCur), 1)
      ensures forall n: nat :: Orbit(r, n) == Orbit(old(seedCur), n + 1)
      ensures r <= PARAM_M
    {
      var seed := seedCur;
      r := RandSeed(seed);
      seedCur := r;
      OneStep(seed);
      forall n: nat ensures Orbit(r, n) == Orbit(seed, n + 1) {
        OrbitShift(seed, n);
      }
      RandSeedIsExactLcg(seed);
    }
  }

  /** The seed after n calls of Math_Rand. */
  function Orbit(seed: u32, n: nat): u32 {
    if n == 0 then seed else RandSeed(Orbit(seed, n - 1))
  }

  lemma OneStep(seed: u32)
    ensures Orbit(seed, 1) == RandSeed(seed)
  {
    assert Orbit(seed, 0) == seed;
  }

  lemma {:induction false} OrbitShift(seed: u32, n: nat)
    ensures Orbit(RandSeed(seed), n) == Orbit(seed, n + 1)
  {
    if n == 0 {
      OneStep(seed);
    } else {
      OrbitShift(seed, n - 1);
    }
  }

  lemma {:induction false} OrbitAdd(seed: u32, m: nat, n: nat)
    ensures Orbit(Orbit(seed, m), n) == Orbit(seed, m + n)
  {
    if n > 0 {
      OrbitAdd(seed, m, n - 1);
    }
  }

  // ---- The wrapping computation is the exact one --------------------------

  /** a*x + b modulo 2^31, as POSIX rand() states it, for any 32-bit seed. */
  lemma RandSeedIsExactLcg(seed: u32)
    ensures RandSeed(seed) == (1103515245 * seed + 12345) % 0x8000_0000
    ensures RandSeed(seed) <= PARAM_M
  {
    WrapAdd(PARAM_A * seed, PARAM_B);
    WrapMod(PARAM_A * seed + PARAM_B, PARAM_M + 1);
  }

  /** The same recurrence over the unbounded integers, never reduced. */
  function Exact(x: int, n: nat): int {
    if n == 0 then x else PARAM_A * Exact(x, n - 1) + PARAM_B
  }

  lemma {:induction false} OrbitIsExact(seed: u32, n: nat)
    ensures Orbit(seed, n) % 0x8000_0000 == Exact(seed, n) % 0x8000_0000
    ensures n > 0 ==> Orbit(seed, n) <= PARAM_M
  {
    if n > 0 {
      OrbitIsExact(seed, n - 1);
      hide RandSeed;
      NextExact(Orbit(seed, n - 1), Exact(seed, n - 1));
    }
  }

  lemma NextExact(y: u32, z: int)
    requires y % 0x8000_0000 == z % 0x8000_0000
    ensures RandSeed(y) % 0x8000_0000 == (PARAM_A * z + PARAM_B) % 0x8000_0000 && RandSeed(y) <= PARAM_M
  {
    hide RandSeed;
    RandSeedIsExactLcg(y);
    ModAffine(PARAM_A, PARAM_B, y, z, 0x8000_0000);
    SmallMod(RandSeed(y), 0x8000_0000);
  }

  /** The sequence every program sees that does not set a seed: after Math_Init the first number
      is 1103527590, and the n-th is the unreduced recurrence from 1 modulo 2^31. */
  lemma DefaultSequence(n: nat)
    requires n > 0
    ensures Orbit(1, 1) == 1103527590 && Orbit(1, n) == Exact(1, n) % 0x8000_0000
  {
    RandSeedIsExactLcg(1);
    OneStep(1);
    OrbitIsExact(1, n);
    hide Orbit, Exact, RandSeed;
    SmallMod(Orbit(1, n), 0x8000_0000);
  }

  lemma {:induction false} ExactAdd(x: int, m: nat, n: nat)
    ensures Exact(Exact(x, m), n) == Exact(x, m + n)
  {
    if n > 0 {
      ExactAdd(x, m, n - 1);
    }
  }

  // ---- Closed form of 2^k steps -------------------------------------------

  // 2^k steps form the affine map x -> (1 + 4*2^k*U(k))*x + 2^k*(1 + 2*V(k)).
  function U(k: nat): int {
    if k == 0 then (PARAM_A - 1) / 4 else U(k - 1) + 2 * Pow2(k - 1) * U(k - 1) * U(k - 1)
  }

  function V(k: nat): int {
    if k == 0 then (PARAM_B - 1) / 2 else V(k - 1) + Pow2(k - 1) * U(k - 1) * (1 + 2 * V(k - 1))
  }

  /** Applying the affine map for 2^k steps twice applies the one for 2^(k+1). */
  lemma AffineSquare(x: int, y: int, z: int, p: int, u: int, v: int, u': int, v': int)
    requires y == (1 + 4 * (p * u)) * x + p * (1 + 2 * v)
    requires z == (1 + 4 * (p * u)) * y + p * (1 + 2 * v)
    requires u' == u + 2 * p * u * u && v' == v + p * u * (1 + 2 * v)
    ensures z == (1 + 4 * (2 * p * u')) * x + 2 * p * (1 + 2 * v')
  {
    var w := p * u;
    var b := p * (1 + 2 * v);
    assert z == (1 + 4 * w) * (1 + 4 * w) * x + (2 + 4 * w) * b;
    assert (1 + 4 * w) * (1 + 4 * w) == 1 + 8 * w + 16 * (w * w);
    assert w * w == p * (p * u * u);
    assert w * (1 + 2 * v) * p == w * b;
    assert 2 * p * (1 + 2 * (v + w * (1 + 2 * v))) == 2 * b + 4 * (w * b);
  }

  lemma OneStepExact(x: int)
    ensures Exact(x, 1) == (1 + 4 * U(0)) * x + (1 + 2 * V(0))
  {
    assert Exact(x, 0) == x;
  }

  lemma {:induction false} PowerOfTwoSteps(x: int, k: nat)
    ensures Exact(x, Pow2(k)) == (1 + 4 * (Pow2(k) * U(k))) * x + Pow2(k) * (1 + 2 * V(k))
    decreases k
  {
    if k == 0 {
      OneStepExact(x);
    } else {
      hide Exact;
      var p := Pow2(k - 1);
      var y := Exact(x, p);
      PowerOfTwoSteps(x, k - 1);
      PowerOfTwoSteps(y, k - 1);
      ExactAdd(x, p, p);
      AffineSquare(x, y, Exact(y, p), p, U(k - 1), V(k - 1), U(k), V(k));
    }
  }

  /** One more group of 2^k steps adds 2^k, up to a multiple of 2^(k+1). */
  lemma OneMoreGroup(y: int, z: int, p: int, u: int, v: int)
    requires z == (1 + 4 * (p * u)) * y + p * (1 + 2 * v)
    ensures z == y + p + 2 * p * (2 * (u * y) + v)
  {
    assert (1 + 4 * (p * u)) * y == y + 4 * (p * (u * y));
    assert 2 * p * (2 * (u * y) + v) == 4 * (p * (u * y)) + 2 * (p * v);
  }

  /** m groups of 2^k steps move every point by m*2^k, up to a multiple of 2^(k+1). */
  lemma {:induction false} GroupedSteps(x: int, k: nat, m: nat) returns (c: int)
    ensures Exact(x, m * Pow2(k)) == x + m * Pow2(k) + 2 * Pow2(k) * c
  {
    var p := Pow2(k);
    if m == 0 {
      c := 0;
    } else {
      var d := GroupedSteps(x, k, m - 1);
      var y := Exact(x, (m - 1) * p);
      var e := 2 * (U(k) * y) + V(k);
      assert (m - 1) * p + p == m * p;
      ExactAdd(x, (m - 1) * p, p);
      PowerOfTwoSteps(y, k);
      OneMoreGroup(y, Exact(y, p), p, U(k), V(k));
      c := d + e;
      assert 2 * p * (d + e) == 2 * p * d + 2 * p * e;
    }
  }

  /** The k low bits of the unreduced recurrence return exactly at the multiples of 2^k. */
  lemma {:induction false} ExactPeriod(x: int, n: nat, k: nat)
    ensures Exact(x, n) % Pow2(k) == x % Pow2(k) <==> n % Pow2(k) == 0
  {
    if k > 0 {
      hide Exact;
      var p := Pow2(k - 1);
      ExactPeriod(x, n, k - 1);
      if n % p == 0 {
        var m := n / p;
        assert n == m * p;
        var c := GroupedSteps(x, k - 1, m);
        assert 2 * p * c == c * (2 * p);
        ModAddMul(x + n, c, 2 * p);
        ModEqIff(x + n, x, 2 * p);
      } else {
        ModEqIff(Exact(x, n), x, 2 * p);
        ModEqIff(Exact(x, n), x, p);
        MulMod(2, p);
        if (Exact(x, n) - x) % (2 * p) == 0 {
          DivisorChain(Exact(x, n) - x, 2 * p, p);
        }
        if n % (2 * p) == 0 {
          DivisorChain(n, 2 * p, p);
        }
      }
    }
  }

  // ---- Whole runs ----------------------------------------------------------

  /** The k low bits of the output repeat with period exactly 2^k, for every k up to 31. */
  lemma LowBitsPeriod(seed: u32, n: nat, k: nat)
    requires k <= 31
    ensures Orbit(seed, n) % Pow2(k) == seed % Pow2(k) <==> n % Pow2(k) == 0
  {
    hide Orbit, RandSeed, Exact;
    OrbitIsExact(seed, n);
    ExactPeriod(seed, n, k);
    SameLowBits(Orbit(seed, n), Exact(seed, n), k);
  }

  lemma SameLowBits(y: int, z: int, k: nat)
    requires k <= 31 && y % 0x8000_0000 == z % 0x8000_0000
    ensures y % Pow2(k) == z % Pow2(k)
  {
    var m := Pow2(31);
    assert m == 0x8000_0000 by { Pow2At32(); }
    Pow2Add(31 - k, k);
    MulMod(Pow2(31 - k), Pow2(k));
    ModEqIff(y, z, m);
    DivisorChain(y - z, m, Pow2(k));
    ModEqIff(y, z, Pow2(k));
  }

  lemma LowBitsReturn(seed: u32, n: nat, k: nat, m: nat)
    requires k <= 31 && m == Pow2(k)
    ensures Orbit(seed, n) % m == seed % m <==> n % m == 0
  {
    LowBitsPeriod(seed, n, k);
  }

  const PERIOD: nat := 0x8000_0000

  /** A seed below 2^31 comes back exactly after the multiples of 2^31 calls. */
  lemma ReturnsExactlyAtPeriods(seed: u32, n: nat)
    requires seed < PERIOD && (n > 0 ==> Orbit(seed, n) < PERIOD)
    ensures Orbit(seed, n) == seed <==> n % PERIOD == 0
  {
    Pow2At32();
    LowBitsReturn(seed, n, 31, PERIOD);
    SmallMod(seed, PERIOD);
    SmallMod(Orbit(seed, n), PERIOD);
  }

  /** Two calls return the same number exactly when they are a multiple of 2^31 calls
      apart: from any 32-bit seed the period is 2^31. */
  lemma PeriodIsTwoToThe31(seed: u32, i: nat, j: nat)
    requires 0 < i <= j
    ensures Orbit(seed, i) == Orbit(seed, j) <==> (j - i) % PERIOD == 0
  {
    OrbitAdd(seed, i, j - i);
    OrbitIsExact(seed, i);
    OrbitIsExact(seed, j);
    ReturnsExactlyAtPeriods(Orbit(seed, i), j - i);
  }

  /** The j-th output of a run, counted from call number start. */
  function Output(seed: u32, start: nat, j: nat): u32 { Orbit(seed, start + j) }

  lemma OutputsDiffer(seed: u32, start: nat, j: nat, k: nat)
    requires 0 < start && j < PERIOD && k < PERIOD && j != k
    ensures Output(seed, start, j) != Output(seed, start, k)
  {
    hide Orbit, RandSeed;
    PeriodIsTwoToThe31(seed, start + Min(j, k), start + Max(j, k));
  }

  lemma NewOutput(seed: u32, start: nat, k: nat)
    requires 0 < start && k < PERIOD
    ensures 0 <= Output(seed, start, k) < PERIOD
    ensures forall j: nat :: j < k ==> Output(seed, start, j) != Output(seed, start, k)
  {
    OrbitIsExact(seed, start + k);
    forall j: nat | j < k ensures Output(seed, start, j) != Output(seed, start, k) {
      OutputsDiffer(seed, start, j, k);
    }
  }

  /** Any 2^31 consecutive outputs contain every value in [0, 2^31) exactly once. */
  lemma EveryValueOncePerPeriod(seed: u32, start: nat, v: int) returns (i: nat)
    requires 0 < start && 0 <= v < PERIOD
    ensures i < PERIOD && Output(seed, start, i) == v
    ensures forall j: nat :: j < PERIOD && Output(seed, start, j) == v ==> j == i
  {
    var run := seq(PERIOD, (j: nat) => Output(seed, start, j));
    forall k | 0 <= k < PERIOD
      ensures 0 <= run[k] < PERIOD && forall j :: 0 <= j < k ==> run[j] != run[k]
    {
      NewOutput(seed, start, k);
    }
    i := InjectionIsOnto(run, v);
    forall j: nat | j < PERIOD && Output(seed, start, j) == v ensures j == i {
      if j != i {
        OutputsDiffer(seed, start, i, j);
      }
    }
  }
}
