/** CPU timestamps of cpu_core.c: a narrow wrapping timer extended to 32 and 64 bits by
    accumulating the differences of successive readings, against an unbounded clock. */
module CpuTs {
  import opened Arith

  /** CPU_CFG_TS_TMR_SIZE: the width of CPU_TS_TMR. */
  datatype TimerSize = Bits8 | Bits16 | Bits32 | Bits64

  /** The timer counts modulo this. */
  function Turn(size: TimerSize): (t: int)
    ensures t > 0
  {
    match size
    case Bits8 => 0x100
    case Bits16 => 0x1_0000
    case Bits32 => 0x1_0000_0000
    case Bits64 => 0x1_0000_0000_0000_0000
  }

  const TS32: int := 0x1_0000_0000
  const TS64: int := 0x1_0000_0000_0000_0000

  /** The timers count modulo 2^8 to 2^64, the timestamps modulo 2^32 and 2^64; only the two narrow
      timers need an accumulator for the first, and all but the widest one for the second. */
  lemma Widths(size: TimerSize)
    ensures Turn(Bits8) == Pow2(8) && Turn(Bits16) == Pow2(16) && Turn(Bits32) == Pow2(32) && Turn(Bits64) == Pow2(64)
    ensures TS32 == Pow2(32) && TS64 == Pow2(64)
    ensures (Turn(size) < TS32 <==> size == Bits8 || size == Bits16) && (Turn(size) < TS64 <==> size != Bits64)
  {
    Pow2At32();
    Pow2Add(32, 32);
  }

  // ---- A run of readings -------------------------------------------------------------

  /** The true time of the last reading, or of the initialization. */
  function Last(start: nat, times: seq<nat>): nat { if times == [] then start else times[|times| - 1] }

  predicate Monotone(start: nat, times: seq<nat>) {
    times == [] || (Monotone(start, times[..|times| - 1]) && Last(start, times[..|times| - 1]) <= Last(start, times))
  }

  /** What a register that wraps at m keeps of x. */
  function Mod(x: int, m: int): int
    requires m > 0
  {
    x % m
  }

  /** The unsigned difference of two timer values of the given turn. */
  function Delta(cur: int, prev: int, turn: int): (d: int)
    requires turn > 0
    ensures 0 <= d < turn
  {
    (cur - prev) % turn
  }

  /** The accumulated timestamp after readings at the given true times, as the code forms
      it: from wrapped timer values, with an accumulator that wraps at width. */
  function Accum(start: nat, times: seq<nat>, turn: int, width: int): (a: int)
    requires turn > 0 && width > 0
    ensures 0 <= a < width
  {
    if times == [] then 0 else
      var before := times[..|times| - 1];
      Mod(Accum(start, before, turn, width) + Delta(Mod(Last(start, times), turn), Mod(Last(start, before), turn), turn), width)
  }

  /** Whole turns of the timer that passed unseen between successive readings. */
  function Lost(start: nat, times: seq<nat>, turn: int): int
    requires turn > 0
  {
    if times == [] then 0 else
      var before := times[..|times| - 1];
      Lost(start, before, turn) + (Last(start, times) - Last(start, before)) / turn
  }

  /** No reading comes a whole turn or more after the one before. */
  predicate Prompt(start: nat, times: seq<nat>, turn: int) {
    times == [] ||
    (Prompt(start, times[..|times| - 1], turn) && Last(start, times) - Last(start, times[..|times| - 1]) < turn)
  }

  lemma ModAdd(x: int, y: int, m: int)
    requires m > 0
    ensures (x % m + y) % m == (x + y) % m
  {
    ModAddMul(x % m + y, x / m, m);
  }

  lemma ModSub(x: int, y: int, m: int)
    requires m > 0
    ensures (x % m - y % m) % m == (x - y) % m
  {
    ModAddMul(x % m - y % m, x / m - y / m, m);
    assert x % m - y % m + (x / m - y / m) * m == x - y;
  }

  /** The part of the elapsed time that the readings can tell: each gap modulo a turn. */
  function Seen(start: nat, times: seq<nat>, turn: int): int
    requires turn > 0
  {
    if times == [] then 0 else
      var before := times[..|times| - 1];
      Seen(start, before, turn) + Mod(Last(start, times) - Last(start, before), turn)
  }

  lemma OneMoreGap(gap: int, lost: int, turn: int)
    requires turn > 0
    ensures turn * (lost + gap / turn) + gap % turn == turn * lost + gap
  {
    assert turn * (lost + gap / turn) == turn * lost + turn * (gap / turn);
  }

  /** It is the elapsed time less the turns lost. */
  lemma {:induction false} SeenValue(start: nat, times: seq<nat>, turn: int)
    requires turn > 0
    ensures Seen(start, times, turn) == Last(start, times) - start - turn * Lost(start, times, turn)
  {
    if times == [] {
      assert turn * 0 == 0;
    } else {
      var before := times[..|times| - 1];
      SeenValue(start, before, turn);
      OneMoreGap(Last(start, times) - Last(start, before), Lost(start, before, turn), turn);
    }
  }

  lemma NothingKept(m: int)
    requires m > 0
    ensures Mod(0, m) == 0
  {
    SmallMod(0, m);
  }

  lemma NextGap(acc: int, seen: int, now: int, prev: int, turn: int, width: int)
    requires turn > 0 && width > 0 && acc == Mod(seen, width)
    ensures Mod(acc + Delta(Mod(now, turn), Mod(prev, turn), turn), width) == Mod(seen + Mod(now - prev, turn), width)
  {
    ModSub(now, prev, turn);
    var gap := (now - prev) % turn;
    assert Delta(now % turn, prev % turn, turn) == gap;
    ModAdd(seen, gap, width);
  }

  lemma {:induction false} AccumIsSeen(start: nat, times: seq<nat>, turn: int, width: int)
    requires turn > 0 && width > 0
    ensures Accum(start, times, turn, width) == Mod(Seen(start, times, turn), width)
  {
    hide Delta, Mod;
    if times == [] {
      NothingKept(width);
    } else {
      var before := times[..|times| - 1];
      AccumIsSeen(start, before, turn, width);
      NextGap(Accum(start, before, turn, width), Seen(start, before, turn), Last(start, times), Last(start, before), turn, width);
    }
  }

  /** The accumulator holds the elapsed time less the turns lost, modulo its width. */
  lemma AccumValue(start: nat, times: seq<nat>, turn: int, width: int)
    requires turn > 0 && width > 0
    ensures Accum(start, times, turn, width) == (Last(start, times) - start - turn * Lost(start, times, turn)) % width
  {
    AccumIsSeen(start, times, turn, width);
    SeenValue(start, times, turn);
  }

  lemma ModChain(x: int, m: int, d: int)
    requires m > 0 && d > 0 && m % d == 0
    ensures (x % m) % d == x % d
  {
    MulMod(x / m, m);
    assert x - x % m == (x / m) * m;
    DivisorChain(x - x % m, m, d);
    ModEqIff(x, x % m, d);
  }

  /** Whatever was lost, the timestamp is right modulo the timer's own turn. */
  lemma AccumModuloTurn(start: nat, times: seq<nat>, turn: int, width: int)
    requires turn > 0 && width > 0 && width % turn == 0
    ensures Accum(start, times, turn, width) % turn == (Last(start, times) - start) % turn
  {
    hide Accum, Seen, Lost;
    var lost := Lost(start, times, turn);
    AccumIsSeen(start, times, turn, width);
    SeenValue(start, times, turn);
    ModChain(Seen(start, times, turn), width, turn);
    MinusMultiple(Last(start, times) - start, lost, turn);
  }

  lemma MinusMultiple(x: int, l: int, m: int)
    requires m > 0
    ensures (x - m * l) % m == x % m
  {
    ModAddMul(x, -l, m);
  }

  lemma MinusMultipleIff(x: int, l: int, c: int, m: int)
    requires m > 0 && c > 0 && c * m > 0
    ensures (x - m * l) % (c * m) == x % (c * m) <==> l % c == 0
  {
    ModEqIff(x, x - m * l, c * m);
    ScaledDivides(l, c, m);
  }

  lemma WholeTurns(turn: int, width: int)
    requires turn > 0 && width > 0 && width % turn == 0
    ensures width / turn > 0 && width == (width / turn) * turn
  {
    if width / turn <= 0 {
      MulLe(width / turn, 0, turn);
      assert false;
    }
  }

  /** Exactly when the timestamp is the elapsed time: the turns lost must be a multiple of
      the turns that make the accumulator wrap. */
  lemma AccumExactIff(start: nat, times: seq<nat>, turn: int, width: int)
    requires turn > 0 && width > 0 && width % turn == 0
    ensures width / turn > 0
    ensures Accum(start, times, turn, width) == (Last(start, times) - start) % width
            <==> Lost(start, times, turn) % (width / turn) == 0
  {
    hide Accum, Seen, Lost;
    AccumIsSeen(start, times, turn, width);
    SeenValue(start, times, turn);
    WholeTurns(turn, width);
    MinusMultipleIff(Last(start, times) - start, Lost(start, times, turn), width / turn, turn);
  }

  lemma ScaledDivides(x: int, c: int, m: int)
    requires c > 0 && m > 0 && c * m > 0
    ensures (m * x) % (c * m) == 0 <==> x % c == 0
  {
    var q, r := x / c, x % c;
    assert x == q * c + r;
    assert m * x == q * (c * m) + m * r;
    assert m * r <= m * (c - 1);
    DivModUnique(m * x, c * m, q, m * r);
    assert r > 0 ==> m * r > 0;
    assert r == 0 ==> m * r == 0;
  }

  /** Timely updates lose nothing, so the timestamp is the elapsed time modulo its width. */
  lemma {:induction false} PromptLosesNothing(start: nat, times: seq<nat>, turn: int)
    requires turn > 0 && Monotone(start, times)
    ensures Prompt(start, times, turn) <==> Lost(start, times, turn) == 0
    ensures 0 <= Lost(start, times, turn)
  {
    if times != [] {
      var before := times[..|times| - 1];
      PromptLosesNothing(start, before, turn);
      var gap := Last(start, times) - Last(start, before);
      if gap < turn {
        SmallMod(gap, turn);
      } else if gap / turn <= 0 {
        MulLe(gap / turn, 0, turn);
        assert false;
      }
    }
  }

  lemma PromptUpdatesAreExact(start: nat, times: seq<nat>, turn: int, width: int)
    requires turn > 0 && width > 0 && width % turn == 0 && Monotone(start, times) && Prompt(start, times, turn)
    ensures Accum(start, times, turn, width) == (Last(start, times) - start) % width
  {
    PromptLosesNothing(start, times, turn);
    AccumExactIff(start, times, turn, width);
    SmallMod(0, width / turn);
  }

  /** The difference of any two timestamps of a run measures the time between them, up to
      the turns lost in between. */
  lemma MeasuredTime(start: nat, times: seq<nat>, i: nat, j: nat, turn: int, width: int)
    requires turn > 0 && width > 0 && i <= j <= |times|
    ensures Mod(Accum(start, times[..j], turn, width) - Accum(start, times[..i], turn, width), width)
            == Mod(Last(start, times[..j]) - Last(start, times[..i])
                   - turn * (Lost(start, times[..j], turn) - Lost(start, times[..i], turn)), width)
  {
    hide Accum, Seen, Lost, Mod;
    AccumIsSeen(start, times[..i], turn, width);
    AccumIsSeen(start, times[..j], turn, width);
    SeenValue(start, times[..i], turn);
    SeenValue(start, times[..j], turn);
    SpanModulo(Seen(start, times[..j], turn), Seen(start, times[..i], turn),
               Last(start, times[..j]) - start, Last(start, times[..i]) - start,
               Lost(start, times[..j], turn), Lost(start, times[..i], turn), turn, width);
  }

  lemma SpanModulo(xj: int, xi: int, ej: int, ei: int, lj: int, li: int, turn: int, width: int)
    requires width > 0 && xj == ej - turn * lj && xi == ei - turn * li
    ensures Mod(Mod(xj, width) - Mod(xi, width), width) == Mod(ej - ei - turn * (lj - li), width)
  {
    var d := ej - ei - turn * (lj - li);
    assert d == xj - xi;
    ModSub(xj, xi, width);
  }

  // ---- The timestamps as global state -------------------------------------------------

  /** The four globals of the two accumulators, and when they were read. */
  class Timestamps {
    const size: TimerSize
    var accum32: int
    var prev32: int
    var accum64: int
    var prev64: int
    ghost var start: nat
    ghost var reads32: seq<nat>
    ghost var reads64: seq<nat>

    /** The accumulators are needed only for timers narrower than the timestamp. */
    predicate Narrower(width: int) { Turn(size) < width }

    ghost predicate Valid()
      reads this
    {
      Monotone(start, reads32) && Monotone(start, reads64) &&
      (Narrower(TS32) ==> accum32 == Accum(start, reads32, Turn(size), TS32) && prev32 == Mod(Last(start, reads32), Turn(size))) &&
      (Narrower(TS64) ==> accum64 == Accum(start, reads64, Turn(size), TS64) && prev64 == Mod(Last(start, reads64), Turn(size)))
    }

    /** CPU_TS_Init, with the timer reading tmr at true time now. */
    constructor (size: TimerSize, tmr: int, ghost now: nat)
      requires tmr == Mod(now, Turn(size))
      ensures Valid() && this.size == size && start == now && reads32 == [] && reads64 == []
    {
      this.size := size;
      start, reads32, reads64 := now, [], [];
      accum32, prev32 := 0, tmr;
      accum64, prev64 := 0, tmr;
    }

    method Get32(tmr: int, ghost now: nat) returns (ts: int)
      requires Valid() && tmr == Mod(now, Turn(size)) && Last(start, reads32) <= now
      modifies `accum32, `prev32, `reads32
      ensures Valid() && reads32 == old(reads32) + [now]
      ensures Narrower(TS32) ==> ts == Seen(start, reads32, Turn(size)) % 0x1_0000_0000
      ensures Narrower(TS32) && Prompt(start, reads32, Turn(size)) ==> ts == (now - start) % 0x1_0000_0000
      ensures !Narrower(TS32) ==> ts == now % 0x1_0000_0000
    {
      hide Turn, Accum, Seen, Delta, Prompt;
      ghost var before := reads32;
      reads32 := before + [now];
      assert reads32[..|reads32| - 1] == before;
      if !Narrower(TS32) {
        WiderTimer(size, now, TS32);
        ts := Mod(tmr, TS32);
      } else {
        NextReading(size, start, before, now, TS32);
        var delta := Delta(tmr, prev32, Turn(size));
        accum32 := Mod(accum32 + delta, TS32);
        prev32 := tmr;
        ts := accum32;
        AccumValue(start, reads32, Turn(size), TS32);
      }
    }

    method Get64(tmr: int, ghost now: nat) returns (ts: int)
      requires Valid() && tmr == Mod(now, Turn(size)) && Last(start, reads64) <= now
      modifies `accum64, `prev64, `reads64
      ensures Valid() && reads64 == old(reads64) + [now]
      ensures Narrower(TS64) ==> ts == Seen(start, reads64, Turn(size)) % 0x1_0000_0000_0000_0000
      ensures Narrower(TS64) && Prompt(start, reads64, Turn(size)) ==> ts == (now - start) % 0x1_0000_0000_0000_0000
      ensures !Narrower(TS64) ==> ts == now % 0x1_0000_0000_0000_0000
    {
      hide Turn, Accum, Seen, Delta, Prompt;
      ghost var before := reads64;
      reads64 := before + [now];
      assert reads64[..|reads64| - 1] == before;
      if !Narrower(TS64) {
        WiderTimer(size, now, TS64);
        ts := Mod(tmr, TS64);
      } else {
        NextReading(size, start, before, now, TS64);
        var delta := Delta(tmr, prev64, Turn(size));
        accum64 := Mod(accum64 + delta, TS64);
        prev64 := tmr;
        ts := accum64;
        AccumValue(start, reads64, Turn(size), TS64);
      }
    }

    /** CPU_TS_Update times the timer once for each accumulator that exists. */
    method Update(tmr32: int, ghost now32: nat, tmr64: int, ghost now64: nat)
      requires Valid() && tmr32 == Mod(now32, Turn(size)) && tmr64 == Mod(now64, Turn(size))
      requires Last(start, reads32) <= now32 && Last(start, reads64) <= now64
      modifies `accum32, `prev32, `reads32, `accum64, `prev64, `reads64
      ensures Valid()
      ensures reads32 == if Narrower(TS32) then old(reads32) + [now32] else old(reads32)
      ensures reads64 == if Narrower(TS64) then old(reads64) + [now64] else old(reads64)
    {
      if Narrower(TS32) {
        var ts := Get32(tmr32, now32);
      }
      if Narrower(TS64) {
        var ts := Get64(tmr64, now64);
      }
    }
  }

  /** One more reading of a narrow timer: the accumulator's step and what it then holds. */
  lemma NextReading(size: TimerSize, start: nat, before: seq<nat>, now: nat, width: int)
    requires (width == TS32 || width == TS64) && Turn(size) < width
    requires Monotone(start, before) && Last(start, before) <= now
    ensures var times := before + [now]; var turn := Turn(size); var ts := Accum(start, times, turn, width);
            ts == Mod(Accum(start, before, turn, width) + Delta(Mod(now, turn), Mod(Last(start, before), turn), turn), width) &&
            ts == Mod(Seen(start, times, turn), width) &&
            (Prompt(start, times, turn) ==> ts == Mod(now - start, width))
  {
    var times, turn := before + [now], Turn(size);
    assert times[..|before|] == before;
    TurnDividesWidth(size, width);
    hide Turn;
    AccumIsSeen(start, times, turn, width);
    if Prompt(start, times, turn) {
      PromptUpdatesAreExact(start, times, turn, width);
    }
  }

  /** A timer at least as wide as the timestamp needs no accumulator. */
  lemma WiderTimer(size: TimerSize, now: nat, width: int)
    requires (width == TS32 || width == TS64) && width <= Turn(size)
    ensures Mod(Mod(now, Turn(size)), width) == Mod(now, width)
  {
    var c := if size == Bits64 && width == TS32 then TS32 else 1;
    assert Turn(size) == c * width;
    var q := (now / Turn(size)) * c;
    assert now == now % Turn(size) + q * width;
    ModAddMul(now % Turn(size), q, width);
  }

  /** Every timestamp width is a whole number of turns of a narrower timer. */
  lemma TurnDividesWidth(size: TimerSize, width: int)
    requires (width == TS32 || width == TS64) && Turn(size) < width
    ensures width % Turn(size) == 0
  {
  }
}
