/** Interrupts-disabled time measurement of cpu_core.c: a nesting counter, the time of the
    outermost disable, two running maxima, and the averaged measurement overhead. */
module IntDis {
  import opened Arith
  import opened CpuTs

  const CTR: int := 0x1_0000

  /** CPU_INT16U. */
  type u16 = x: int | 0 <= x < 0x1_0000

  // ---- The state machine -----------------------------------------------------------------

  /** A call of Start or Stop at a true time, or the zeroing of the resettable maximum. */
  datatype Event = StartAt(now: nat) | StopAt(now: nat) | Zeroed

  datatype Meas = Meas(ctr: u16, nest: u16, start: int, stop: int, maxCur: int, max: int)

  function Step(m: Meas, e: Event, turn: int): Meas
    requires turn > 0
  {
    match e
    case StartAt(now) =>
      m.(ctr := (m.ctr + 1) % CTR, start := if m.nest == 0 then now % turn else m.start, nest := (m.nest + 1) % CTR)
    case StopAt(now) =>
      var nest := (m.nest - 1) % CTR;
      if nest != 0 then m.(nest := nest) else
        var d := Delta(now % turn, m.start, turn);
        m.(nest := 0, stop := now % turn, maxCur := Max(m.maxCur, d), max := Max(m.max, d))
    case Zeroed => m.(maxCur := 0)
  }

  /** The state after the first n of the events es. */
  function Exec(m0: Meas, es: seq<Event>, n: nat, turn: int): Meas
    requires turn > 0 && n <= |es|
  {
    if n == 0 then m0 else Step(Exec(m0, es, n - 1, turn), es[n - 1], turn)
  }

  // ---- What is to be measured ---------------------------------------------------------------

  /** How many sections are open before event k. */
  function Depth(es: seq<Event>, k: nat): int
    requires k <= |es|
  {
    if k == 0 then 0 else
      Depth(es, k - 1) + match es[k - 1] case StartAt(_) => 1 case StopAt(_) => -1 case Zeroed => 0
  }

  /** Every Stop closes an open section, and nesting stays below 2^16. */
  ghost predicate WellNested(es: seq<Event>) { forall k :: 0 <= k <= |es| ==> 0 <= Depth(es, k) < CTR }

  /** Events i and j open and close an outermost section. */
  ghost predicate Section(es: seq<Event>, i: int, j: int) {
    0 <= i < j < |es| && es[i].StartAt? && es[j].StopAt? && Depth(es, i) == 0 && Depth(es, j + 1) == 0 &&
    forall k :: i < k <= j ==> Depth(es, k) > 0
  }

  /** The outermost section that event i opened is still open before event n. */
  ghost predicate OpenSince(es: seq<Event>, n: nat, i: int) {
    0 <= i < n <= |es| && es[i].StartAt? && Depth(es, i) == 0 && forall k :: i < k <= n ==> Depth(es, k) > 0
  }

  /** The wrapped duration of a section. */
  ghost function Span(es: seq<Event>, i: int, j: int, turn: int): int
    requires turn > 0 && Section(es, i, j)
  {
    (es[j].now - es[i].now) % turn
  }

  ghost predicate NotZeroedSince(es: seq<Event>, j: int, n: nat) {
    forall k :: 0 <= k && j < k < n && k < |es| ==> es[k] != Zeroed
  }

  /** t is the largest wrapped duration of the outermost sections closed before event n, and
      not before the last zeroing if recent; 0 if there is none. */
  ghost predicate IsLongest(es: seq<Event>, n: nat, recent: bool, turn: int, t: int)
    requires turn > 0
  {
    (forall i, j :: Section(es, i, j) && j < n && (recent ==> NotZeroedSince(es, j, n)) ==> Span(es, i, j, turn) <= t) &&
    (t == 0 || exists i, j :: Section(es, i, j) && j < n && (recent ==> NotZeroedSince(es, j, n)) && Span(es, i, j, turn) == t)
  }

  /** What the state says about the first n events. */
  ghost predicate Measured(es: seq<Event>, n: nat, turn: int, m: Meas)
    requires turn > 0 && n <= |es|
  {
    m.nest == Depth(es, n) &&
    (m.nest > 0 ==> exists i :: OpenSince(es, n, i) && m.start == es[i].now % turn) &&
    IsLongest(es, n, false, turn, m.max) && IsLongest(es, n, true, turn, m.maxCur) && m.maxCur <= m.max
  }

  // ---- One step -------------------------------------------------------------------------------

  /** Only one open outermost section can end at a given Stop. */
  lemma OpenerUnique(es: seq<Event>, n: nat, i: int, i': int)
    requires n < |es| && OpenSince(es, n, i) && Section(es, i', n)
    ensures i == i'
  {
    var d, d' := Depth(es, i), Depth(es, i');
  }

  lemma StillNotZeroed(es: seq<Event>, j: int, n: nat)
    requires n < |es| && es[n] != Zeroed
    ensures NotZeroedSince(es, j, n + 1) <==> NotZeroedSince(es, j, n)
    ensures NotZeroedSince(es, n, n + 1)
  {
  }

  /** An event that closes no outermost section leaves the longest one what it was. */
  lemma LongestKept(es: seq<Event>, n: nat, recent: bool, turn: int, t: int)
    requires turn > 0 && n < |es| && IsLongest(es, n, recent, turn, t)
    requires es[n].StopAt? ==> Depth(es, n + 1) != 0
    requires recent ==> es[n] != Zeroed
    ensures IsLongest(es, n + 1, recent, turn, t)
  {
    hide Span, Depth;
    forall j | j < n ensures NotZeroedSince(es, j, n) && es[n] != Zeroed <==> NotZeroedSince(es, j, n + 1) {
      if NotZeroedSince(es, j, n + 1) {
        assert es[n] != Zeroed;
      }
    }
    if t != 0 {
      var i, j :| Section(es, i, j) && j < n && (recent ==> NotZeroedSince(es, j, n)) && Span(es, i, j, turn) == t;
      assert recent ==> NotZeroedSince(es, j, n + 1);
    }
  }

  /** Closing an outermost section takes it into account. */
  lemma LongestUpdated(es: seq<Event>, n: nat, i: int, recent: bool, turn: int, t: int)
    requires turn > 0 && n < |es| && IsLongest(es, n, recent, turn, t) && OpenSince(es, n, i) && es[n].StopAt? && Depth(es, n + 1) == 0
    ensures Section(es, i, n) && IsLongest(es, n + 1, recent, turn, Max(t, Span(es, i, n, turn)))
  {
    hide Span, Depth, NotZeroedSince;
    var d := Span(es, i, n, turn);
    StillNotZeroed(es, n, n);
    forall i', j | Section(es, i', j) && j < n + 1 && (recent ==> NotZeroedSince(es, j, n + 1))
      ensures Span(es, i', j, turn) <= Max(t, d)
    {
      if j == n {
        OpenerUnique(es, n, i, i');
      } else {
        StillNotZeroed(es, j, n);
      }
    }
    if Max(t, d) != d && t != 0 {
      var i', j :| Section(es, i', j) && j < n && (recent ==> NotZeroedSince(es, j, n)) && Span(es, i', j, turn) == t;
      StillNotZeroed(es, j, n);
    }
  }

  lemma LongestZeroed(es: seq<Event>, n: nat, turn: int)
    requires turn > 0 && n < |es| && es[n] == Zeroed
    ensures IsLongest(es, n + 1, true, turn, 0)
  {
    var m := n + 1;
    forall j | 0 <= j < n ensures !NotZeroedSince(es, j, m) {
      assert !(es[n] != Zeroed);
    }
  }

  lemma Nested(nest: u16, d: int)
    requires 0 <= nest + d < CTR
    ensures (nest + d) % CTR == nest + d
  {
    SmallMod(nest + d, CTR);
  }

  lemma StartStep(es: seq<Event>, n: nat, turn: int, m: Meas)
    requires turn > 0 && WellNested(es) && n < |es| && es[n].StartAt? && Measured(es, n, turn, m)
    ensures Measured(es, n + 1, turn, Step(m, es[n], turn))
  {
    hide Delta, Span, IsLongest;
    assert 0 <= Depth(es, n + 1) < CTR && Depth(es, n + 1) == Depth(es, n) + 1;
    Nested(m.nest, 1);
    LongestKept(es, n, false, turn, m.max);
    LongestKept(es, n, true, turn, m.maxCur);
    if m.nest == 0 {
      assert OpenSince(es, n + 1, n);
    } else {
      var i :| OpenSince(es, n, i) && m.start == es[i].now % turn;
      assert OpenSince(es, n + 1, i);
    }
  }

  lemma StopStep(es: seq<Event>, n: nat, turn: int, m: Meas)
    requires turn > 0 && WellNested(es) && n < |es| && es[n].StopAt? && Measured(es, n, turn, m)
    ensures Measured(es, n + 1, turn, Step(m, es[n], turn))
  {
    hide IsLongest;
    assert 0 <= Depth(es, n + 1) < CTR && Depth(es, n + 1) == Depth(es, n) - 1;
    Nested(m.nest, -1);
    var i :| OpenSince(es, n, i) && m.start == es[i].now % turn;
    if Depth(es, n + 1) != 0 {
      LongestKept(es, n, false, turn, m.max);
      LongestKept(es, n, true, turn, m.maxCur);
      assert OpenSince(es, n + 1, i);
    } else {
      LongestUpdated(es, n, i, false, turn, m.max);
      LongestUpdated(es, n, i, true, turn, m.maxCur);
      ModSub(es[n].now, es[i].now, turn);
    }
  }

  lemma ZeroedStep(es: seq<Event>, n: nat, turn: int, m: Meas)
    requires turn > 0 && WellNested(es) && n < |es| && es[n] == Zeroed && Measured(es, n, turn, m)
    ensures Measured(es, n + 1, turn, Step(m, es[n], turn))
  {
    hide Span;
    LongestKept(es, n, false, turn, m.max);
    LongestZeroed(es, n, turn);
    LongestNotNegative(es, n, false, turn, m.max);
    if m.nest > 0 {
      var i :| OpenSince(es, n, i) && m.start == es[i].now % turn;
      assert OpenSince(es, n + 1, i);
    }
  }

  lemma LongestNotNegative(es: seq<Event>, n: nat, recent: bool, turn: int, t: int)
    requires turn > 0 && IsLongest(es, n, recent, turn, t)
    ensures 0 <= t
  {
  }

  // ---- Runs ----------------------------------------------------------------------------------

  lemma NothingMeasured(m: Meas, es: seq<Event>, turn: int)
    requires turn > 0 && m.nest == 0 && m.max == 0 && m.maxCur == 0
    ensures Measured(es, 0, turn, m)
  {
    hide Span;
  }

  /** Over every well-nested run of Start, Stop and zeroing after initialization: the counter
      is the depth, the start time is that of the open outermost section, max is the longest
      wrapped duration of the completed outermost sections, maxCur the same since the last
      zeroing, and maxCur never exceeds max. */
  lemma {:induction false} RunMeasures(m0: Meas, es: seq<Event>, n: nat, turn: int)
    requires turn > 0 && WellNested(es) && n <= |es| && m0.nest == 0 && m0.max == 0 && m0.maxCur == 0
    ensures Measured(es, n, turn, Exec(m0, es, n, turn))
  {
    hide Measured, Step, WellNested;
    if n == 0 {
      NothingMeasured(m0, es, turn);
    } else {
      RunMeasures(m0, es, n - 1, turn);
      var m := Exec(m0, es, n - 1, turn);
      match es[n - 1] {
        case StartAt(_) => StartStep(es, n - 1, turn, m);
        case StopAt(_) => StopStep(es, n - 1, turn, m);
        case Zeroed => ZeroedStep(es, n - 1, turn, m);
      }
    }
  }

  lemma ShortSpan(es: seq<Event>, i: int, j: int, turn: int)
    requires turn > 0 && Section(es, i, j) && 0 <= es[j].now - es[i].now < turn
    ensures Span(es, i, j, turn) == es[j].now - es[i].now
  {
    SmallMod(es[j].now - es[i].now, turn);
  }

  /** Sections shorter than a turn of the timer are measured by their true durations. */
  lemma ShortSections(m0: Meas, es: seq<Event>, turn: int)
    requires turn > 0 && WellNested(es) && m0.nest == 0 && m0.max == 0 && m0.maxCur == 0
    requires forall i, j :: Section(es, i, j) ==> 0 <= es[j].now - es[i].now < turn
    ensures var t := Exec(m0, es, |es|, turn).max;
            (forall i, j :: Section(es, i, j) ==> es[j].now - es[i].now <= t) &&
            (t == 0 || exists i, j :: Section(es, i, j) && es[j].now - es[i].now == t)
  {
    hide Span, Exec, Depth, WellNested;
    RunMeasures(m0, es, |es|, turn);
    forall i, j | Section(es, i, j) ensures Span(es, i, j, turn) == es[j].now - es[i].now {
      ShortSpan(es, i, j, turn);
    }
  }

  /** CPU_IntDisMeasMaxCurReset reads in one interrupts-disabled region and zeroes in another.
      With the reading before event r and the zeroing as event z, the value returned speaks of
      the sections closed before r, and the maximum afterwards exactly of those closed after z. */
  lemma ResetWindow(m0: Meas, es: seq<Event>, r: nat, z: nat, n: nat, turn: int)
    requires turn > 0 && WellNested(es) && m0.nest == 0 && m0.max == 0 && m0.maxCur == 0
    requires r <= z < n <= |es| && es[z] == Zeroed && forall k :: z < k < n ==> es[k] != Zeroed
    ensures IsLongest(es, r, true, turn, Exec(m0, es, r, turn).maxCur)
    ensures var t := Exec(m0, es, n, turn).maxCur;
            (forall i, j :: Section(es, i, j) && z < j < n ==> Span(es, i, j, turn) <= t) &&
            (t == 0 || exists i, j :: Section(es, i, j) && z < j < n && Span(es, i, j, turn) == t)
  {
    hide Exec, Span, Depth;
    RunMeasures(m0, es, r, turn);
    RunMeasures(m0, es, n, turn);
    forall i, j | Section(es, i, j) && j < n ensures NotZeroedSince(es, j, n) <==> z < j {
      if j < z {
        assert !(es[z] != Zeroed);
      }
    }
  }

  /** What the maximum before event z consists of, seen from an earlier event r after which
      nothing was zeroed: what it was then, and the sections closed since. */
  lemma LongestSince(es: seq<Event>, r: nat, z: nat, turn: int, tr: int, tz: int)
    requires turn > 0 && r <= z <= |es| && forall k :: r <= k < z ==> es[k] != Zeroed
    requires IsLongest(es, r, true, turn, tr) && IsLongest(es, z, true, turn, tz)
    ensures forall i, j :: Section(es, i, j) && r <= j < z ==> Span(es, i, j, turn) <= tz
    ensures 0 <= tr <= tz && (tz == tr || exists i, j :: Section(es, i, j) && r <= j < z && Span(es, i, j, turn) == tz)
  {
    hide Span, Section;
    forall j | 0 <= j < z ensures NotZeroedSince(es, j, z) <==> r <= j || NotZeroedSince(es, j, r) {
      if j < r && NotZeroedSince(es, j, z) {
        assert forall k :: j < k < r ==> es[k] != Zeroed;
      }
    }
    SectionsAreEvents(es);
    LongestNotNegative(es, r, true, turn, tr);
    LongestNotNegative(es, z, true, turn, tz);
  }

  lemma SectionsAreEvents(es: seq<Event>)
    ensures forall i, j :: Section(es, i, j) ==> 0 <= i < j < |es|
  {
  }

  /** The value returned is the reported maximum at the moment of zeroing -- the maximum before
      resetting -- exactly when every outermost section closed between the reading (before event
      r) and the zeroing (event z) is either covered by the overhead or no longer than one closed
      earlier.  With overhead 0 this speaks of the maximum itself. */
  lemma ResetReturnsMaxIff(m0: Meas, es: seq<Event>, r: nat, z: nat, ovrhd: int, turn: int)
    requires turn > 0 && WellNested(es) && m0.nest == 0 && m0.max == 0 && m0.maxCur == 0 && 0 <= ovrhd
    requires r <= z <= |es| && forall k :: r <= k < z ==> es[k] != Zeroed
    ensures Reported(Exec(m0, es, r, turn).maxCur, ovrhd) == Reported(Exec(m0, es, z, turn).maxCur, ovrhd)
            <==> forall i, j :: Section(es, i, j) && r <= j < z ==>
                   Span(es, i, j, turn) <= ovrhd ||
                   exists i', j' :: Section(es, i', j') && j' < r && NotZeroedSince(es, j', r) && Span(es, i, j, turn) <= Span(es, i', j', turn)
  {
    hide Exec, Span, Section, Depth, NotZeroedSince, WellNested;
    RunMeasures(m0, es, r, turn);
    RunMeasures(m0, es, z, turn);
    LongestSince(es, r, z, turn, Exec(m0, es, r, turn).maxCur, Exec(m0, es, z, turn).maxCur);
  }

  /** A section of 10 counts that closes between the reading and the zeroing is lost to the
      resettable maximum: 1 is returned, and 0 remains. */
  lemma ResetLosesSectionExample()
    ensures var es := [StartAt(0), StopAt(1), StartAt(10), StopAt(20), Zeroed]; var m0 := Meas(0, 0, 0, 0, 0, 0);
            Exec(m0, es, 2, TS32).maxCur == 1 && Exec(m0, es, 5, TS32).maxCur == 0 && Exec(m0, es, 5, TS32).max == 10
  {
    var es, m0 := [StartAt(0), StopAt(1), StartAt(10), StopAt(20), Zeroed], Meas(0, 0, 0, 0, 0, 0);
    assert Exec(m0, es, 1, TS32) == Meas(1, 1, 0, 0, 0, 0);
    assert Exec(m0, es, 2, TS32) == Meas(1, 0, 0, 1, 1, 1);
    assert Exec(m0, es, 3, TS32) == Meas(2, 1, 10, 1, 1, 1);
    assert Exec(m0, es, 4, TS32) == Meas(2, 0, 10, 20, 10, 10);
  }

  /** Whatever the depth, the counter is the depth modulo 2^16. */
  lemma {:induction false} NestIsDepthModulo(m0: Meas, es: seq<Event>, n: nat, turn: int)
    requires turn > 0 && n <= |es| && m0.nest == 0
    ensures Exec(m0, es, n, turn).nest == Depth(es, n) % CTR
  {
    if n > 0 {
      NestIsDepthModulo(m0, es, n - 1, turn);
      ModAdd(Depth(es, n - 1), match es[n - 1] case StartAt(_) => 1 case StopAt(_) => -1 case Zeroed => 0, CTR);
    }
  }

  // ---- The other globals --------------------------------------------------------------------------

  function Starts(es: seq<Event>, n: nat): nat
    requires n <= |es|
  {
    if n == 0 then 0 else Starts(es, n - 1) + if es[n - 1].StartAt? then 1 else 0
  }

  /** What the timer read when an outermost section last began, and when one last ended; before
      that the initial values. */
  function LastReads(start: int, stop: int, es: seq<Event>, n: nat, turn: int): (int, int)
    requires turn > 0 && n <= |es|
  {
    if n == 0 then (start, stop) else
      var before := LastReads(start, stop, es, n - 1, turn);
      match es[n - 1]
      case StartAt(now) => if Depth(es, n - 1) == 0 then (now % turn, before.1) else before
      case StopAt(now) => if Depth(es, n) == 0 then (before.0, now % turn) else before
      case Zeroed => before
  }

  /** Over every well-nested run the counter of calls is the number of starts modulo 2^16, and the
      timer values kept are those of the outermost section last begun and last ended. */
  lemma {:induction false} RunCounts(m0: Meas, es: seq<Event>, n: nat, turn: int)
    requires turn > 0 && WellNested(es) && n <= |es| && m0.nest == 0
    ensures var m := Exec(m0, es, n, turn);
            m.ctr == (m0.ctr + Starts(es, n)) % 0x1_0000 && (m.start, m.stop) == LastReads(m0.start, m0.stop, es, n, turn)
  {
    hide Delta;
    if n == 0 {
      SmallMod(m0.ctr, CTR);
    } else {
      RunCounts(m0, es, n - 1, turn);
      NestIsDepth(m0, es, n - 1, turn);
      NestIsDepth(m0, es, n, turn);
      ModAdd(m0.ctr + Starts(es, n - 1), if es[n - 1].StartAt? then 1 else 0, CTR);
    }
  }

  lemma NestIsDepth(m0: Meas, es: seq<Event>, n: nat, turn: int)
    requires turn > 0 && WellNested(es) && n <= |es| && m0.nest == 0
    ensures Exec(m0, es, n, turn).nest == Depth(es, n)
  {
    hide Exec, Depth;
    NestIsDepthModulo(m0, es, n, turn);
    assert 0 <= Depth(es, n) < CTR;
    SmallMod(Depth(es, n), CTR);
  }

  // ---- The overhead -----------------------------------------------------------------------------

  /** The width in which time_meas_tot_cnts + N/2 is formed: narrow timers are promoted. */
  function AddWidth(size: TimerSize): int { if size == Bits64 then TS64 else TS32 }

  /** The rounded average of n measurements as the code forms it from their wrapped sum. */
  function Average(sum: int, n: int, size: TimerSize): int
    requires n > 0
  {
    ((sum + n / 2) % AddWidth(size) / n) % Turn(size)
  }

  /** o is as close to total / n as an integer can be, and the greater one of two that are. */
  predicate Nearest(total: int, n: int, o: int) { -n <= 2 * (total - n * o) < n }

  /** What is reported in every case, wrapped or not: sum and rounding term, less 2^32 (2^64 for a
      64-bit timer) if they reach it, divided by n and rounded down. */
  lemma AverageValue(sum: int, n: int, size: TimerSize)
    requires 0 <= sum < Turn(size) && 1 <= n <= 128
    ensures var word := if size == Bits64 then 0x1_0000_0000_0000_0000 else 0x1_0000_0000;
            var x := if sum + n / 2 < word then sum + n / 2 else sum + n / 2 - word;
            var o := Average(sum, n, size); n * o <= x < n * o + n
  {
    var turn, word := Turn(size), AddWidth(size);
    var x := if sum + n / 2 < word then sum + n / 2 else sum + n / 2 - word;
    assert 128 < turn <= word;
    hide Turn, AddWidth;
    DivModUnique(sum + n / 2, word, if sum + n / 2 < word then 0 else 1, x);
    QuotientBelowTurn(x, sum, n, turn);
    SmallMod(x / n, turn);
    RoundedDown(x, n);
  }

  lemma RoundedDown(x: int, n: int)
    requires 0 < n
    ensures n * (x / n) <= x < n * (x / n) + n
  {
    assert x == n * (x / n) + x % n;
  }

  lemma QuotientBelowTurn(x: int, sum: int, n: int, turn: int)
    requires 0 <= sum < turn && 1 <= n < turn && 0 <= x <= sum + n / 2
    ensures 0 <= x / n < turn
  {
    AverageBelowTurn(sum, n, turn);
    SmallMod(0, n);
    QuotientGrows(0, x, n);
    QuotientGrows(x, sum + n / 2, n);
  }

  lemma QuotientGrows(x: int, y: int, n: int)
    requires 0 < n && x <= y
    ensures x / n <= y / n
  {
    QuotientsOrdered(x, y, n, x / n, y / n, x % n, y % n);
  }

  lemma QuotientsOrdered(x: int, y: int, n: int, p: int, q: int, a: int, b: int)
    requires 0 < n && x <= y && x == n * p + a && y == n * q + b && 0 <= a && b < n
    ensures p <= q
  {
    if q < p {
      MulLe(q + 1, p, n);
      assert false;
    }
  }

  lemma RoundedQuotient(x: int, n: int)
    requires 0 < n && 0 <= x
    ensures var o := (x + n / 2) / n; Nearest(x, n, o) && 0 <= o && n * o <= x + n / 2
  {
    var o := (x + n / 2) / n;
    assert x + n / 2 == n * o + (x + n / 2) % n;
    if o < 0 {
      MulLe(o, -1, n);
      assert false;
    }
  }

  /** A wrapped operand makes the average far too small. */
  lemma WrappedTooSmall(total: int, y: int, n: int, lost: int, o: int)
    requires 0 < n < lost && 0 <= y <= total + n / 2 - lost && n * o <= y
    ensures !Nearest(total, n, o)
  {
  }

  lemma ReducedNotAbove(x: int, m: int)
    requires 0 <= x && 0 < m
    ensures 0 <= x % m <= x
    ensures m <= x ==> x % m <= x - m
  {
    assert x == m * (x / m) + x % m;
    if x / m <= 0 {
      MulLe(x / m, 0, m);
    } else {
      MulLe(1, x / m, m);
    }
  }

  lemma ReducedQuotient(y: int, n: int, m: int)
    requires 0 < n && 0 <= y && 0 < m
    ensures n * ((y / n) % m) <= y
  {
    var q := y / n;
    assert y == n * q + y % n;
    if q < 0 {
      MulLe(q, -1, n);
      assert false;
    }
    ReducedNotAbove(q, m);
    MulLe(q % m, q, n);
  }

  /** The overhead is the rounded mean of the measurements exactly when neither their sum nor
      the rounding term leaves the words they are formed in. */
  lemma AverageExactIff(total: int, n: int, size: TimerSize)
    requires 0 <= total && 1 <= n <= 128
    ensures Nearest(total, n, Average(total % Turn(size), n, size))
            <==> total < Turn(size) && total + n / 2 < AddWidth(size)
  {
    var turn, width := Turn(size), AddWidth(size);
    assert 128 < turn <= width;
    var sum := total % turn;
    var y := (sum + n / 2) % width;
    hide Turn, AddWidth;
    ReducedNotAbove(total, turn);
    ReducedNotAbove(sum + n / 2, width);
    ReducedQuotient(y, n, turn);
    if total >= turn {
      WrappedTooSmall(total, y, n, turn, (y / n) % turn);
    } else {
      SmallMod(total, turn);
      if total + n / 2 >= width {
        WrappedTooSmall(total, y, n, width, (y / n) % turn);
      } else {
        SmallMod(total + n / 2, width);
        RoundedQuotient(total, n);
        AverageBelowTurn(total, n, turn);
        SmallMod(y / n, turn);
      }
    }
  }

  /** Two measurements of 2^31 counts each on a 32-bit timer: their sum wraps to 0. */
  lemma WrappedAverageExample()
    ensures var total := 0x8000_0000 + 0x8000_0000;
            Average(total % Turn(Bits32), 2, Bits32) == 0 && !Nearest(total, 2, 0)
  {
    DivModUnique(0x1_0000_0000, 0x1_0000_0000, 1, 0);
    SmallMod(1, TS32);
  }

  lemma AverageBelowTurn(x: int, n: int, turn: int)
    requires 0 <= x < turn && 1 <= n < turn
    ensures 0 <= (x + n / 2) / n < turn
  {
    var o := (x + n / 2) / n;
    RoundedQuotient(x, n);
    if o >= turn {
      MulLe(turn, o, n);
      if n > 1 {
        MulLe(2, n, turn);
      }
      assert false;
    }
  }

  // ---- The globals -----------------------------------------------------------------------------

  function Sum(s: seq<int>): int { if s == [] then 0 else Sum(s[..|s| - 1]) + s[|s| - 1] }

  /** Reported times: less the overhead, but not below 0. */
  function Reported(t: int, ovrhd: int): (r: int)
    ensures 0 <= ovrhd ==> r == Max(0, t - ovrhd)
  {
    if t > ovrhd then t - ovrhd else 0
  }

  class IntDisMeas {
    const size: TimerSize
    var ctr: u16
    var nestCtr: u16
    var startCnts: int
    var stopCnts: int
    var maxCurCnts: int
    var maxCnts: int
    var ovrhdCnts: int

    function AsMeas(): Meas
      reads `ctr, `nestCtr, `startCnts, `stopCnts, `maxCurCnts, `maxCnts
    {
      Meas(ctr, nestCtr, startCnts, stopCnts, maxCurCnts, maxCnts)
    }

    /** The C globals before CPU_IntDisMeasInit. */
    constructor (size: TimerSize)
      ensures this.size == size && AsMeas() == Meas(0, 0, 0, 0, 0, 0)
    {
      this.size := size;
      ctr, nestCtr, startCnts, stopCnts, maxCurCnts, maxCnts, ovrhdCnts := 0, 0, 0, 0, 0, 0, 0;
    }

    /** tmr is what the timer reads if it is read. */
    method Start(tmr: int, ghost now: nat)
      requires tmr == now % Turn(size)
      modifies `ctr, `nestCtr, `startCnts
      ensures AsMeas() == Step(old(AsMeas()), StartAt(now), Turn(size))
    {
      ctr := (ctr + 1) % CTR;
      if nestCtr == 0 {
        startCnts := tmr;
      }
      nestCtr := (nestCtr + 1) % CTR;
    }

    method Stop(tmr: int, ghost now: nat)
      requires tmr == now % Turn(size)
      modifies `nestCtr, `stopCnts, `maxCurCnts, `maxCnts
      ensures AsMeas() == Step(old(AsMeas()), StopAt(now), Turn(size))
    {
      nestCtr := (nestCtr - 1) % CTR;
      if nestCtr == 0 {
        stopCnts := tmr;
        var disd := Delta(stopCnts, startCnts, Turn(size));
        if maxCurCnts < disd {
          maxCurCnts := disd;
        }
        if maxCnts < disd {
          maxCnts := disd;
        }
      }
    }

    method MaxCalc(totCnts: int) returns (t: int)
      ensures t == Reported(totCnts, ovrhdCnts)
    {
      t := totCnts;
      if t > ovrhdCnts {
        t := t - ovrhdCnts;
      } else {
        t := 0;
      }
    }

    method MaxCurGet() returns (t: int)
      ensures t == Reported(maxCurCnts, ovrhdCnts)
    {
      t := MaxCalc(maxCurCnts);
    }

    method MaxGet() returns (t: int)
      ensures t == Reported(maxCnts, ovrhdCnts)
    {
      t := MaxCalc(maxCnts);
    }

    /** The second region of CPU_IntDisMeasMaxCurReset. */
    method Zero()
      modifies `maxCurCnts
      ensures AsMeas() == Step(old(AsMeas()), Zeroed, Turn(size))
    {
      maxCurCnts := 0;
    }

    /** An event handled while interrupts are enabled; zeroing can be another caller's reset. */
    method Handle(e: Event)
      modifies `ctr, `nestCtr, `startCnts, `stopCnts, `maxCurCnts, `maxCnts
      ensures AsMeas() == Step(old(AsMeas()), e, Turn(size))
    {
      match e {
        case StartAt(now) => Start(Mod(now, Turn(size)), now);
        case StopAt(now) => Stop(Mod(now, Turn(size)), now);
        case Zeroed => Zero();
      }
    }

    /** Reading and zeroing are two interrupts-disabled regions; between are the events that
        happen while interrupts are enabled in the middle. */
    method MaxCurReset(between: seq<Event>) returns (t: int)
      modifies `ctr, `nestCtr, `startCnts, `stopCnts, `maxCurCnts, `maxCnts
      ensures t == Reported(old(maxCurCnts), ovrhdCnts)
      ensures AsMeas() == Step(Exec(old(AsMeas()), between, |between|, Turn(size)), Zeroed, Turn(size))
    {
      hide Step, Turn;
      t := MaxCurGet();
      ghost var m := AsMeas();
      for i := 0 to |between|
        invariant AsMeas() == Exec(m, between, i, Turn(size))
      {
        Handle(between[i]);
      }
      Zero();
    }

    /** One turn of the overhead loop: a section with nothing in it. */
    method Overhead(tmr0: int, ghost now0: nat, tmr1: int, ghost now1: nat)
      requires tmr0 == now0 % Turn(size) && tmr1 == now1 % Turn(size) && nestCtr == 0 && ctr < 128
      modifies `ctr, `nestCtr, `startCnts, `stopCnts, `maxCurCnts, `maxCnts
      ensures ctr == old(ctr) + 1 && nestCtr == 0
      ensures maxCurCnts == Delta(tmr1, tmr0, Turn(size)) && startCnts == tmr0 && stopCnts == tmr1
    {
      hide Delta, Turn;
      maxCurCnts := 0;
      Nested(ctr, 1);
      Nested(0, 1);
      Start(tmr0, now0);
      Nested(1, -1);
      Stop(tmr1, now1);
    }

    /** CPU_IntDisMeasInit with n overhead measurements; times holds the true times of the 2 * n
        timer readings, tmrs what the timer reads then. */
    method Init(n: int, tmrs: seq<int>, ghost times: seq<nat>)
      requires 1 <= n <= 128 && |tmrs| == |times| == 2 * n
      requires forall i :: 0 <= i < 2 * n ==> tmrs[i] == times[i] % Turn(size)
      modifies this
      ensures ctr == n && nestCtr == 0 && maxCurCnts == 0 && maxCnts == 0 && startCnts == tmrs[2 * n - 2] && stopCnts == tmrs[2 * n - 1]
      ensures ovrhdCnts == Average(Sum(Spans(tmrs, n, Turn(size))) % Turn(size), n, size)
      ensures var total := Sum(Spans(tmrs, n, Turn(size)));
              Nearest(total, n, ovrhdCnts) <==> total < Turn(size) && total + n / 2 < AddWidth(size)
    {
      hide Turn, Delta, Spans, Sum, AddWidth, Step, Average, Nearest;
      ctr, nestCtr, startCnts, stopCnts, maxCurCnts, maxCnts, ovrhdCnts := 0, 0, 0, 0, 0, 0, 0;
      var tot := 0;
      var i: nat := 0;
      SpansStart(tmrs, Turn(size));
      while i < n
        invariant i <= n && ctr == i && nestCtr == 0
        invariant tot == Sum(Spans(tmrs, i, Turn(size))) % Turn(size)
        invariant i > 0 ==> startCnts == tmrs[2 * i - 2] && stopCnts == tmrs[2 * i - 1]
      {
        Overhead(tmrs[2 * i], times[2 * i], tmrs[2 * i + 1], times[2 * i + 1]);
        SpansStep(tmrs, i, Turn(size), tot, maxCurCnts);
        tot := (tot + maxCurCnts) % Turn(size);
        i := i + 1;
      }
      ovrhdCnts := Average(tot, n, size);
      SpansNotNegative(tmrs, n, Turn(size));
      AverageExactIff(Sum(Spans(tmrs, n, Turn(size))), n, size);
      maxCurCnts, maxCnts := 0, 0;
    }
  }

  /** The durations of the first k overhead measurements, from the timer readings. */
  function Spans(tmrs: seq<int>, k: nat, turn: int): seq<int>
    requires turn > 0 && 2 * k <= |tmrs|
  {
    if k == 0 then [] else Spans(tmrs, k - 1, turn) + [Delta(tmrs[2 * k - 1], tmrs[2 * k - 2], turn)]
  }

  lemma SpansStart(tmrs: seq<int>, turn: int)
    requires turn > 0
    ensures Sum(Spans(tmrs, 0, turn)) % turn == 0
  {
    SmallMod(0, turn);
  }

  lemma {:induction false} SpansNotNegative(tmrs: seq<int>, k: nat, turn: int)
    requires turn > 0 && 2 * k <= |tmrs|
    ensures 0 <= Sum(Spans(tmrs, k, turn))
  {
    hide Delta;
    if k > 0 {
      SpansNotNegative(tmrs, k - 1, turn);
      var s := Spans(tmrs, k, turn);
      assert s[..|s| - 1] == Spans(tmrs, k - 1, turn);
    }
  }

  lemma SpansStep(tmrs: seq<int>, k: nat, turn: int, tot: int, d: int)
    requires turn > 0 && 2 * k + 2 <= |tmrs| && tot == Sum(Spans(tmrs, k, turn)) % turn
    requires d == Delta(tmrs[2 * k + 1], tmrs[2 * k], turn)
    ensures (tot + d) % turn == Sum(Spans(tmrs, k + 1, turn)) % turn
  {
    hide Delta;
    var s := Spans(tmrs, k + 1, turn);
    assert s[..|s| - 1] == Spans(tmrs, k, turn);
    ModAdd(Sum(Spans(tmrs, k, turn)), d, turn);
  }
}
