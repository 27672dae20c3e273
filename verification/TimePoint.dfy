/** Time points of the demo: a 32-bit systick count and a counter that runs down from
    counter_base within each systick; nanosleep() on top of them. */
module TimePoints {
  import opened Arith
  import opened Words

  /** systick::reload_value and systick::ps_per_tick. The reload register has 24 bits. */
  datatype Clock = Clock(base: nat, ps: nat)

  predicate ValidClock(c: Clock) {
    0 < c.base <= 0xFF_FFFF && 1 < c.ps < WORD
  }

  datatype Time = Time(systick: Word, counter: Word)

  predicate InRange(c: Clock, t: Time) {
    t.counter < c.base
  }

  /** Counter ticks since systick 0 began. */
  function Abs(c: Clock, t: Time): int {
    Mul(t.systick, c.base) + c.base - t.counter
  }

  /** The number of ticks after which the systick count starts over. */
  function Cycle(c: Clock): nat {
    Mul(WORD, c.base)
  }

  lemma AbsRange(c: Clock, t: Time)
    requires InRange(c, t)
    ensures 1 <= Abs(c, t) <= Cycle(c)
  {
    hide Mul;
    Units(c.base);
    Monotone(0, t.systick, c.base);
    Monotone(t.systick + 1, WORD, c.base);
    Distributes(t.systick, 1, c.base);
  }

  /** The ticks add_ns() adds, in 32-bit arithmetic. */
  function Ticks(c: Clock, ns: Word): nat
    requires ValidClock(c)
  {
    Div(ns * 1000 % WORD, c.ps) + 1
  }

  /** They are one more than fit into the time, its picoseconds having wrapped at 32 bits. */
  lemma TicksMeaning(c: Clock, ns: Word)
    requires ValidClock(c)
    ensures Mul(Ticks(c, ns) - 1, c.ps) <= ns * 1000 % WORD < Mul(Ticks(c, ns), c.ps)
  {
    hide Mul, Div, Mod;
    var q := Div(ns * 1000 % WORD, c.ps);
    DivMod(ns * 1000 % WORD, c.ps);
    Units(c.ps);
    Distributes(q, 1, c.ps);
  }

  function Less(a: Time, b: Time): bool {
    if a.systick < b.systick then true
    else if a.systick > b.systick then false
    else a.counter > b.counter
  }

  /** operator< is the order of absolute times. */
  lemma LessIsAbsOrder(c: Clock, a: Time, b: Time)
    requires InRange(c, a) && InRange(c, b)
    ensures Less(a, b) <==> Abs(c, a) < Abs(c, b)
  {
    hide Mul;
    Units(c.base);
    if a.systick < b.systick {
      Monotone(a.systick + 1, b.systick, c.base);
      Distributes(a.systick, 1, c.base);
    } else if a.systick > b.systick {
      Monotone(b.systick + 1, a.systick, c.base);
      Distributes(b.systick, 1, c.base);
    }
  }

  class TimePoint {
    const clock: Clock
    var systick: Word
    var counter: Word

    ghost predicate Valid()
      reads this
    {
      ValidClock(clock) && counter < clock.base
    }

    function Value(): Time
      reads this
    {
      Time(systick, counter)
    }

    constructor (clock: Clock)
      requires ValidClock(clock)
      ensures Valid() && this.clock == clock
    {
      this.clock := clock;
      systick, counter := 0, 0;
    }

    /** set(), reading the given systick count and counter. */
    method Set(t: Time)
      requires Valid() && InRange(clock, t)
      modifies this
      ensures Valid() && Value() == t
    {
      systick, counter := t.systick, t.counter;
    }

    /** add_ns(): absolute time advances by exactly Ticks, modulo the cycle of the systick count,
        and the counter stays in its range. */
    method AddNs(ns: Word)
      requires Valid()
      modifies this
      ensures Valid()
      ensures Abs(clock, Value()) == Abs(clock, old(Value())) + Ticks(clock, ns)
                - (if Abs(clock, old(Value())) + Ticks(clock, ns) > Cycle(clock) then Cycle(clock) else 0)
    {
      hide Mul, Div, Mod;
      var base := clock.base;
      ghost var start := Value();
      TicksBound(clock, ns);
      var counterTicks := Div(ns * 1000 % WORD, clock.ps) + 1;
      var whole, waitFrac := Div(counterTicks, base), Mod(counterTicks, base);
      DivMod(counterTicks, base);
      ghost var sum := systick + whole + (if waitFrac > counter then 1 else 0);
      systick := (systick + whole) % WORD;
      if waitFrac > counter {
        systick := (systick + 1) % WORD;
        counter := counter + base;
      }
      counter := counter - waitFrac;
      SumAbs(clock, start, whole, waitFrac, sum, Value());
    }
  }

  lemma TicksBound(c: Clock, ns: Word)
    requires ValidClock(c)
    ensures Ticks(c, ns) < WORD <= Cycle(c)
    ensures Div(Ticks(c, ns), c.base) < WORD - 1
  {
    hide Mul, Div;
    var x := ns * 1000 % WORD;
    Units(c.base);
    Monotone(1, c.base, WORD);
    Units(WORD);
    Commutes(c.base, WORD);
    HalfBound(x, c.ps);
    QuotientBound(Ticks(c, ns), c.base);
  }

  lemma HalfBound(x: nat, d: nat)
    requires d >= 2
    ensures 2 * Div(x, d) <= x
  {
    hide Mul, Div, Mod;
    DivMod(x, d);
    Monotone(2, d, Div(x, d));
    Commutes(d, Div(x, d));
    TwiceIs(Div(x, d));
  }

  lemma TwiceIs(x: int)
    ensures Mul(2, x) == 2 * x
  {
  }

  lemma QuotientBound(x: nat, d: nat)
    requires d >= 1
    ensures Div(x, d) <= x
  {
    hide Mul, Div, Mod;
    DivMod(x, d);
    Monotone(1, d, Div(x, d));
    Commutes(d, Div(x, d));
    Units(Div(x, d));
  }

  lemma SumAbs(c: Clock, t: Time, whole: nat, frac: nat, sum: nat, t': Time)
    requires ValidClock(c) && InRange(c, t) && InRange(c, t') && frac < c.base
    requires sum == t.systick + whole + (if frac > t.counter then 1 else 0) < 2 * WORD
    requires t'.systick == (if sum < WORD then sum else sum - WORD)
    requires t'.counter == t.counter + (if frac > t.counter then c.base else 0) - frac
    ensures var total := Abs(c, t) + Mul(whole, c.base) + frac;
            && Abs(c, t') == total - (if total > Cycle(c) then Cycle(c) else 0)
  {
    hide Mul;
    var carry := if frac > t.counter then 1 else 0;
    Units(c.base);
    Distributes(t.systick, whole, c.base);
    Distributes(t.systick + whole, carry, c.base);
    Distributes(sum - WORD, WORD, c.base);
    AbsRange(c, t');
  }

  // ---------- differences ----------

  /** TimePointDiff(tp1, tp2) */
  function Diff(c: Clock, a: Time, b: Time): Time
    requires ValidClock(c) && InRange(c, a) && InRange(c, b)
  {
    var systick := (a.systick - b.systick) % WORD;
    var c1, c2 := c.base - a.counter, c.base - b.counter;
    if c1 > c2 then Time(systick, c.base - (c1 - c2)) else Time((systick - 1) % WORD, c2 - c1)
  }

  /** The tick count computed by get_ns(), in 32-bit arithmetic. */
  function TickCount(c: Clock, t: Time): Word {
    (Mul(t.systick, c.base) - t.counter + c.base) % WORD
  }

  /** The difference of two time points stands for the difference of the absolute times; where
      the first is not later, one cycle is added. */
  lemma DiffIsAbsDifference(c: Clock, a: Time, b: Time)
    requires ValidClock(c) && InRange(c, a) && InRange(c, b)
    ensures InRange(c, Diff(c, a, b))
    ensures Abs(c, Diff(c, a, b)) == Abs(c, a) - Abs(c, b) + (if Less(b, a) then 0 else Cycle(c))
    ensures TickCount(c, Diff(c, a, b)) == (Abs(c, a) - Abs(c, b)) % WORD
  {
    hide Mul;
    LessIsAbsOrder(c, b, a);
    var d := Diff(c, a, b);
    var s := a.systick - b.systick - (if b.counter > a.counter then 0 else 1);
    DiffSystick(c, a, b);
    Units(c.base);
    Distributes(a.systick - b.systick, b.systick, c.base);
    Distributes(s, a.systick - b.systick - s, c.base);
    Distributes(s, WORD, c.base);
    Commutes(WORD, c.base);
    AbsRange(c, d);
    AbsRange(c, a);
    AbsRange(c, b);
    Units(WORD);
    ModPeriodic(Abs(c, a) - Abs(c, b), if Less(b, a) then 0 else c.base, WORD);
  }

  lemma DiffSystick(c: Clock, a: Time, b: Time)
    requires ValidClock(c) && InRange(c, a) && InRange(c, b)
    ensures var s := a.systick - b.systick - (if b.counter > a.counter then 0 else 1);
            && Diff(c, a, b).systick == (if s >= 0 then s else s + WORD)
            && Diff(c, a, b).counter == (if b.counter > a.counter then c.base else 0) - (b.counter - a.counter)
            && (s >= 0 <==> Less(b, a))
  {
  }

  // ---------- nanosleep ----------

  /** nanosleep(ns), the clock readings being samples[0] for "end" and samples[1..] for "now". The
      result is the index of the reading that ends the loop; it is the number of readings when
      none of them does. */
  method Nanosleep(clock: Clock, samples: seq<Time>, ns: Word) returns (k: nat, end: Time)
    requires ValidClock(clock) && samples != [] && forall t :: t in samples ==> InRange(clock, t)
    ensures InRange(clock, end)
    ensures EndTime(clock, samples[0], ns, end)
    ensures 1 <= k <= |samples|
    ensures forall j :: 1 <= j < k ==> Less(samples[j], end)
    ensures k < |samples| ==> !Less(samples[k], end)
  {
    var tp := new TimePoint(clock);
    tp.Set(samples[0]);
    tp.AddNs(ns);
    end := tp.Value();
    k := 1;
    while k < |samples| && Less(samples[k], end)
      invariant 1 <= k <= |samples|
      invariant forall j :: 1 <= j < k ==> Less(samples[j], end)
    {
      k := k + 1;
    }
  }

  /** "end" is what add_ns(ns) makes of "start". */
  predicate EndTime(c: Clock, start: Time, ns: Word, end: Time)
    requires ValidClock(c)
  {
    && InRange(c, end)
    && Abs(c, end) == Abs(c, start) + Ticks(c, ns) - (if Abs(c, start) + Ticks(c, ns) > Cycle(c) then Cycle(c) else 0)
  }

  /** The loop cannot be left before ns nanoseconds have passed: at every reading from the start
      on that ends the loop, the elapsed picoseconds are enough. */
  ghost predicate NeverEarly(c: Clock, start: Time, ns: Word, end: Time)
    requires ValidClock(c)
  {
    forall now :: InRange(c, now) && Abs(c, now) >= Abs(c, start) && !Less(now, end) ==>
      Mul(Abs(c, now) - Abs(c, start), c.ps) >= ns * 1000
  }

  /** nanosleep() never returns early exactly when ns * 1000 fits 32 bits and the end time does not
      run over the systick count (or nothing is to be slept). */
  lemma NeverEarlyIff(c: Clock, start: Time, ns: Word, end: Time)
    requires ValidClock(c) && InRange(c, start) && EndTime(c, start, ns, end)
    ensures NeverEarly(c, start, ns, end) <==>
            ns == 0 || (ns * 1000 < WORD && Abs(c, start) + Ticks(c, ns) <= Cycle(c))
  {
    hide Mul, Div;
    TicksBound(c, ns);
    var ticks := Ticks(c, ns);
    TicksCover(c, ns);
    Units(c.ps);
    if ns == 0 {
      forall now | Abs(c, now) >= Abs(c, start) ensures Mul(Abs(c, now) - Abs(c, start), c.ps) >= 0 {
        Monotone(0, Abs(c, now) - Abs(c, start), c.ps);
      }
    } else if Abs(c, start) + ticks > Cycle(c) {
      LessIsAbsOrder(c, start, end);
      assert !Less(start, end);
    } else if ns * 1000 >= WORD {
      assert !Less(end, end);
    } else {
      forall now | InRange(c, now) && Abs(c, now) >= Abs(c, start) && !Less(now, end)
        ensures Mul(Abs(c, now) - Abs(c, start), c.ps) >= ns * 1000
      {
        LessIsAbsOrder(c, now, end);
        Monotone(ticks, Abs(c, now) - Abs(c, start), c.ps);
      }
    }
  }

  /** The ticks cover the nanoseconds exactly when the multiplication does not overflow. */
  lemma TicksCover(c: Clock, ns: Word)
    requires ValidClock(c)
    ensures Mul(Ticks(c, ns), c.ps) >= ns * 1000 <==> ns * 1000 < WORD
  {
    hide Mul, Div, Mod;
    var x := ns * 1000 % WORD;
    DivMod(x, c.ps);
    Distributes(Div(x, c.ps), 1, c.ps);
    Units(c.ps);
  }

  /** The clock of the demo: 72 MHz divided by 8, 100 systicks a second. */
  const DEMO_CLOCK: Clock := Clock(90_000, 111_111)

  /** Five milliseconds overflow the multiplication: the loop ends after 6346 ticks, 0.7 ms. */
  lemma OverflowExample()
    ensures var start, now := Time(0, 89_999), Time(0, 83_653);
            && ValidClock(DEMO_CLOCK) && InRange(DEMO_CLOCK, start)
            && EndTime(DEMO_CLOCK, start, 5_000_000, now) && !Less(now, now)
            && Mul(Abs(DEMO_CLOCK, now) - Abs(DEMO_CLOCK, start), DEMO_CLOCK.ps) < 5_000_000 * 1000
            && !NeverEarly(DEMO_CLOCK, start, 5_000_000, now)
  {
    var start, now := Time(0, 89_999), Time(0, 83_653);
    assert Ticks(DEMO_CLOCK, 5_000_000) == 6346;
    assert Abs(DEMO_CLOCK, start) == 1 && Abs(DEMO_CLOCK, now) == 6347 && Cycle(DEMO_CLOCK) > 100_000;
    NeverEarlyIff(DEMO_CLOCK, start, 5_000_000, now);
  }

  /** In the last systick before the count starts over, sleeping one millisecond ends at once. */
  lemma WrapExample()
    ensures var start, end := Time(0xFFFF_FFFF, 100), Time(0, 81_099);
            && ValidClock(DEMO_CLOCK) && InRange(DEMO_CLOCK, start)
            && EndTime(DEMO_CLOCK, start, 1_000_000, end) && !Less(start, end)
            && !NeverEarly(DEMO_CLOCK, start, 1_000_000, end)
  {
    var start, end := Time(0xFFFF_FFFF, 100), Time(0, 81_099);
    assert Ticks(DEMO_CLOCK, 1_000_000) == 9001;
    assert Abs(DEMO_CLOCK, start) == Cycle(DEMO_CLOCK) - 100 && Abs(DEMO_CLOCK, end) == 8901;
    NeverEarlyIff(DEMO_CLOCK, start, 1_000_000, end);
  }

  /** A sleep on monotone readings, under that condition, ends with enough time elapsed. */
  lemma SleepIsLongEnough(c: Clock, samples: seq<Time>, ns: Word, end: Time, k: nat)
    requires ValidClock(c) && k < |samples| && forall t :: t in samples ==> InRange(c, t)
    requires forall i, j :: 0 <= i <= j < |samples| ==> Abs(c, samples[i]) <= Abs(c, samples[j])
    requires EndTime(c, samples[0], ns, end) && !Less(samples[k], end)
    requires ns * 1000 < WORD && Abs(c, samples[0]) + Ticks(c, ns) <= Cycle(c)
    ensures Mul(Abs(c, samples[k]) - Abs(c, samples[0]), c.ps) >= ns * 1000
  {
    NeverEarlyIff(c, samples[0], ns, end);
    assert samples[k] in samples;
  }
}
