/** Wall-clock time kept as an offset from the tick counter: setting it subtracts the time
    since reset, reading it adds it again.  The set multiplies in 32 bits, the read in 64. */
module WallClock {
  import opened Words

  const ALT_US := 1000000
  const HALF := 0x8000_0000

  type I32 = n: int | -HALF <= n < HALF

  /** Conversion to a signed 32-bit word. */
  function ToI32(n: int): I32 {
    if n % WRAP < HALF then n % WRAP else n % WRAP - WRAP
  }

  /** struct timeval, with 32-bit fields */
  datatype Time = Time(sec: I32, usec: I32)

  datatype Zone = Zone(minuteswest: int, dsttime: int)

  datatype Status = Done | NoSystemClock

  predicate Normalised(t: Time) { 0 <= t.usec < ALT_US }

  function Micros(t: Time): int { t.sec * ALT_US + t.usec }

  /** The normalised time of so many microseconds. */
  function OfMicros(us: int): Time
    requires -HALF <= us / ALT_US < HALF
  {
    Time(us / ALT_US, us % ALT_US)
  }

  /** Whole seconds in so many ticks. */
  function Seconds(nticks: nat, rate: nat): nat
    requires rate > 0
  {
    nticks / rate
  }

  /** Microseconds in so many ticks, taking a tick as a whole number of them. */
  function TickMicros(nticks: nat, rate: nat): nat
    requires rate > 0
  {
    nticks * (ALT_US / rate)
  }

  /** The part of so many microseconds below a second. */
  function Fraction(us: nat): (r: nat)
    ensures r < ALT_US
  {
    us % ALT_US
  }

  function Low32(n: nat): U32 { n % WRAP }

  /** What settimeofday() stores: the product wraps at 32 bits. */
  function Offset(t: Time, nticks: U32, rate: U32): Time
    requires rate > 0
  {
    Time(ToI32(t.sec - Seconds(nticks, rate)), ToI32(t.usec - Fraction(Low32(TickMicros(nticks, rate)))))
  }

  /** What gettimeofday() computes before normalising: the product is exact. */
  function Raw(reset: Time, nticks: U32, rate: U32): Time
    requires rate > 0
  {
    Time(ToI32(reset.sec + Seconds(nticks, rate)), ToI32(reset.usec + Fraction(TickMicros(nticks, rate))))
  }

  predicate Clamped(t: Time) { t.usec < 0 && Micros(t) < 0 }

  /** The normalised form of a raw time; negative times with a borrow due become zero. */
  function Normal(t: Time): Time
    requires Micros(t) / ALT_US < HALF
  {
    if Clamped(t) then Time(0, 0) else OfMicros(Micros(t))
  }

  /** The borrow and carry loops of gettimeofday(). */
  method Normalise(t: Time) returns (r: Time)
    requires Micros(t) / ALT_US < HALF
    ensures r == Normal(t) && Normalised(r)
  {
    var sec, usec := t.sec, t.usec;
    while usec < 0
      invariant usec >= t.usec && usec < HALF && (t.usec >= 0 ==> usec == t.usec)
      invariant sec * ALT_US + usec == Micros(t) && (t.usec < 0 ==> usec < ALT_US)
      invariant sec <= t.sec && ((sec == t.sec && usec == t.usec) || sec >= 0)
      decreases -usec
    {
      if sec <= 0 {
        return Time(0, 0);
      }
      sec := sec - 1;
      usec := usec + ALT_US;
    }
    while usec >= ALT_US
      invariant usec >= 0 && sec * ALT_US + usec == Micros(t)
      invariant -HALF <= sec < HALF && usec < HALF
    {
      sec := sec + 1;
      usec := usec - ALT_US;
    }
    r := Time(sec, usec);
  }

  class Clock {
    var resetTime: Time
    var timezone: Zone

    constructor ()
      ensures resetTime == Time(0, 0) && timezone == Zone(0, 0)
    {
      resetTime, timezone := Time(0, 0), Zone(0, 0);
    }

    /** settimeofday() at counter value `nticks` */
    method Set(t: Time, tz: Zone, nticks: U32, rate: U32) returns (status: Status)
      modifies this
      ensures status == if rate == 0 then NoSystemClock else Done
      ensures rate == 0 ==> resetTime == old(resetTime) && timezone == old(timezone)
      ensures rate > 0 ==> resetTime == Offset(t, nticks, rate) && timezone == tz
    {
      if rate != 0 {
        resetTime := resetTime.(sec := ToI32(t.sec - nticks / rate));
        resetTime := resetTime.(usec := ToI32(t.usec - nticks * (ALT_US / rate) % WRAP % ALT_US));
        timezone := tz;
        return Done;
      }
      return NoSystemClock;
    }

    /** gettimeofday() at counter value `nticks`; without a clock nothing is returned. */
    method Get(nticks: U32, rate: U32) returns (status: Status, t: Time, tz: Zone)
      requires rate > 0 ==> Micros(Raw(resetTime, nticks, rate)) / ALT_US < HALF
      ensures status == if rate == 0 then NoSystemClock else Done
      ensures rate > 0 ==> t == Normal(Raw(resetTime, nticks, rate)) && tz == timezone
    {
      t, tz := Time(0, 0), Zone(0, 0);
      if rate != 0 {
        t := Time(ToI32(resetTime.sec + nticks / rate), ToI32(resetTime.usec + nticks * (ALT_US / rate) % ALT_US));
        t := Normalise(t);
        return Done, t, timezone;
      }
      return NoSystemClock, t, tz;
    }
  }

  // ------------------------------------------------------------------ reading what was set

  lemma Wrapped(n: int, m: int)
    requires (n - m) % WRAP == 0
    ensures ToI32(n) == ToI32(m)
  {
    var k := (n - m) / WRAP;
    assert n == m + k * WRAP;
  }

  lemma InRange(n: int)
    requires -HALF <= n < HALF
    ensures ToI32(n) == n
  {
  }

  // Storing a difference in 32 bits and adding to it again loses nothing.
  lemma DifferenceSurvives(a: int, b: int, c: int)
    requires -HALF <= a - b + c < HALF
    ensures ToI32(ToI32(a - b) + c) == a - b + c
  {
    var k := (a - b) / WRAP;
    assert (ToI32(a - b) + c - (a - b + c)) % WRAP == 0;
    Wrapped(ToI32(a - b) + c, a - b + c);
    InRange(a - b + c);
  }

  // In whole ticks: with a rate that divides a second, the microseconds of `n` ticks are
  // the seconds the division gives plus the part below a second.
  lemma TicksSplit(n: nat, rate: nat)
    requires rate > 0 && ALT_US % rate == 0
    ensures Seconds(n, rate) * ALT_US + Fraction(TickMicros(n, rate)) == TickMicros(n, rate)
  {
    var us, a, b := ALT_US / rate, n / rate, n % rate;
    assert rate * us == ALT_US && n == a * rate + b;
    Product(a, b, rate, us);
    assert 0 <= b * us < ALT_US by {
      Below(b, rate, us);
    }
    assert n * us == a * ALT_US + b * us;
    assert n * us % ALT_US == b * us;
  }

  lemma Product(a: nat, b: nat, rate: nat, us: nat)
    ensures (a * rate + b) * us == a * (rate * us) + b * us
  {
  }

  lemma Below(b: nat, rate: nat, us: nat)
    requires b < rate && us > 0
    ensures b * us < rate * us
  {
  }

  lemma TicksAdd(n: nat, k: nat, rate: nat)
    requires rate > 0
    ensures TickMicros(n + k, rate) == TickMicros(n, rate) + TickMicros(k, rate)
  {
  }

  lemma Fits(n: nat)
    requires n < WRAP
    ensures Low32(n) == n
  {
  }

  // The clock's arithmetic once the tick counts are split into seconds and microseconds:
  // `a` and `b` of them subtracted by the set, `a1` and `b1` added by the read.
  lemma ShowsElapsed(t: Time, a: nat, b: nat, a1: nat, b1: nat, elapsed: nat)
    requires Normalised(t) && t.sec >= 0 && b < ALT_US && b1 < ALT_US
    requires a1 * ALT_US + b1 == a * ALT_US + b + elapsed
    requires t.sec - a + a1 < HALF && (Micros(t) + elapsed) / ALT_US < HALF
    ensures var raw := Time(ToI32(ToI32(t.sec - a) + a1), ToI32(ToI32(t.usec - b) + b1));
      !Clamped(raw) && Micros(raw) == Micros(t) + elapsed
  {
    DifferenceSurvives(t.sec, a, a1);
    DifferenceSurvives(t.usec, b, b1);
  }

  // Read `k` ticks after it was set, the clock shows exactly `k` ticks more, normalised,
  // and the clamp is not taken: for every tick rate that divides a second, while the
  // counter does not wrap, the set's product fits in 32 bits and the seconds in 31.
  lemma ReadAfterSet(t: Time, n: U32, k: nat, rate: U32)
    requires rate > 0 && ALT_US % rate == 0 && Normalised(t) && t.sec >= 0
    requires n + k < WRAP && TickMicros(n, rate) < WRAP
    requires t.sec - Seconds(n, rate) + Seconds(n + k, rate) < HALF
    requires (Micros(t) + TickMicros(k, rate)) / ALT_US < HALF
    ensures var raw, now := Raw(Offset(t, n, rate), n + k, rate), Micros(t) + TickMicros(k, rate);
      && now >= 0 && Micros(raw) == now && !Clamped(raw)
      && Normal(raw) == OfMicros(now) && Normalised(Normal(raw)) && Micros(Normal(raw)) == now
  {
    hide *;
    TicksSplit(n, rate);
    TicksSplit(n + k, rate);
    TicksAdd(n, k, rate);
    Fits(TickMicros(n, rate));
    var before, after := Fraction(TickMicros(n, rate)), Fraction(TickMicros(n + k, rate));
    ShowsElapsed(t, Seconds(n, rate), before, Seconds(n + k, rate), after, TickMicros(k, rate));
    RawOf(t, n, n + k, rate);
    NotNegative(t, TickMicros(k, rate));
    NormalIsExact(Raw(Offset(t, n, rate), n + k, rate));
  }

  lemma RawOf(t: Time, n: U32, m: U32, rate: U32)
    requires rate > 0 && Low32(TickMicros(n, rate)) == TickMicros(n, rate)
    ensures Raw(Offset(t, n, rate), m, rate)
            == Time(ToI32(ToI32(t.sec - Seconds(n, rate)) + Seconds(m, rate)),
                    ToI32(ToI32(t.usec - Fraction(TickMicros(n, rate))) + Fraction(TickMicros(m, rate))))
  {
  }

  lemma NotNegative(t: Time, us: nat)
    requires Normalised(t) && t.sec >= 0
    ensures Micros(t) + us >= 0
  {
  }

  lemma NormalIsExact(raw: Time)
    requires !Clamped(raw) && Micros(raw) / ALT_US < HALF
    ensures Normal(raw) == OfMicros(Micros(raw)) && Normalised(Normal(raw)) && Micros(Normal(raw)) == Micros(raw)
  {
  }

  // ------------------------------------------------------------------ when the product wraps

  // A multiple of 2^32 microseconds is whole seconds exactly if the factor is a multiple
  // of 5^6: 2^26 has the inverse 12659 modulo 5^6.
  lemma WholeSeconds(q: nat)
    ensures q * WRAP % ALT_US == 0 <==> q % 15625 == 0
  {
    if q * WRAP % ALT_US == 0 {
      Inverse(q, q * WRAP / ALT_US);
    }
    if q % 15625 == 0 {
      Multiple(q * WRAP, q / 15625 * 67108864);
    }
  }

  lemma Inverse(q: nat, z: nat)
    requires q * WRAP == z * ALT_US
    ensures q % 15625 == 0
  {
    assert q * 67108864 == 15625 * z;
    assert 67108864 * 12659 == 1 + 15625 * 54369991;
    assert q == 15625 * (12659 * z - 54369991 * q);
  }

  lemma Multiple(n: nat, k: nat)
    requires n == k * ALT_US
    ensures n % ALT_US == 0
  {
  }

  // The set's error: what its wrapped product leaves below a second against the truth.
  lemma LostSeconds(m: nat)
    ensures Fraction(Low32(m)) == Fraction(m) <==> m / WRAP % 15625 == 0
  {
    var q, y := m / WRAP, m % WRAP;
    WholeSeconds(q);
    assert m == q * WRAP + y;
    SameFraction(q * WRAP, y);
  }

  lemma SameFraction(x: nat, y: nat)
    ensures Fraction(x + y) == Fraction(y) <==> x % ALT_US == 0
  {
  }

  /** What the set's wrapped product makes the clock wrong by, in microseconds. */
  function SetError(n: U32, rate: U32): int
    requires rate > 0
  {
    Fraction(TickMicros(n, rate)) - Fraction(Low32(TickMicros(n, rate)))
  }

  lemma SetErrorZero(n: U32, rate: U32)
    requires rate > 0
    ensures SetError(n, rate) == 0 <==> TickMicros(n, rate) / WRAP % 15625 == 0
    ensures -ALT_US < SetError(n, rate) < ALT_US
  {
    LostSeconds(TickMicros(n, rate));
    hide TickMicros, Fraction, Low32;
  }

  // Read back at the tick it was set, the clock shows what it was set to exactly if the
  // carries the set's 32-bit product lost amount to whole seconds, or if it was set to
  // zero and the error is below zero, where the clamp hides it.
  lemma ReadBack(t: Time, n: U32, rate: U32)
    requires rate > 0 && Normalised(t)
    requires Micros(Raw(Offset(t, n, rate), n, rate)) / ALT_US < HALF
    ensures Normal(Raw(Offset(t, n, rate), n, rate)) == t <==>
      || TickMicros(n, rate) / WRAP % 15625 == 0
      || (t == Time(0, 0) && SetError(n, rate) < 0)
  {
    var m, a := TickMicros(n, rate), Seconds(n, rate);
    SetErrorZero(n, rate);
    hide TickMicros, Seconds, Fraction, Low32;
    DifferenceSurvives(t.sec, a, a);
    DifferenceSurvives(t.usec, Fraction(Low32(m)), Fraction(m));
    hide ToI32;
    WithError(t, Raw(Offset(t, n, rate), n, rate), SetError(n, rate));
  }

  lemma WithError(t: Time, raw: Time, error: int)
    requires Normalised(t) && raw.sec == t.sec && raw.usec == t.usec + error
    requires -ALT_US < error < ALT_US && Micros(raw) / ALT_US < HALF
    ensures Normal(raw) == t <==> error == 0 || (t == Time(0, 0) && error < 0)
  {
  }

  // What a read `k` ticks later computes, whether or not the product of the set wrapped
  // and for negative times too: the right time plus the set's error.
  lemma RawLater(t: Time, n: U32, k: nat, rate: U32)
    requires rate > 0 && ALT_US % rate == 0 && Normalised(t) && n + k < WRAP
    requires t.sec - Seconds(n, rate) + Seconds(n + k, rate) < HALF
    ensures var raw := Raw(Offset(t, n, rate), n + k, rate);
      && Micros(raw) == Micros(t) + TickMicros(k, rate) + SetError(n, rate)
      && raw.usec == t.usec - Fraction(Low32(TickMicros(n, rate))) + Fraction(TickMicros(n + k, rate))
  {
    hide TickMicros, Seconds, Fraction, Low32, ToI32;
    TicksSplit(n, rate);
    TicksSplit(n + k, rate);
    TicksAdd(n, k, rate);
    SecondsGrow(n, k, rate);
    DifferenceSurvives(t.sec, Seconds(n, rate), Seconds(n + k, rate));
    DifferenceSurvives(t.usec, Fraction(Low32(TickMicros(n, rate))), Fraction(TickMicros(n + k, rate)));
  }

  lemma SecondsGrow(n: nat, k: nat, rate: nat)
    requires rate > 0 && ALT_US % rate == 0
    ensures Seconds(n, rate) <= Seconds(n + k, rate)
  {
    TicksSplit(n, rate);
    TicksSplit(n + k, rate);
    TicksAdd(n, k, rate);
    hide TickMicros, Seconds, Fraction;
  }

  // So a read shows exactly `k` ticks after the time set if and only if the lost carries
  // are whole seconds and the clamp is not taken, or the clamp happens to be right.  With
  // the product in range and a time from zero on, that is ReadAfterSet.
  lemma ReadLater(t: Time, n: U32, k: nat, rate: U32)
    requires rate > 0 && ALT_US % rate == 0 && Normalised(t) && n + k < WRAP
    requires t.sec - Seconds(n, rate) + Seconds(n + k, rate) < HALF
    requires (Micros(t) + TickMicros(k, rate)) / ALT_US < HALF
    requires (Micros(t) + TickMicros(k, rate) + SetError(n, rate)) / ALT_US < HALF
    ensures var now := Micros(t) + TickMicros(k, rate);
      var clamped := now + SetError(n, rate) < 0
                     && t.usec - Fraction(Low32(TickMicros(n, rate))) + Fraction(TickMicros(n + k, rate)) < 0;
      && -HALF <= now / ALT_US && Micros(Raw(Offset(t, n, rate), n + k, rate)) / ALT_US < HALF
      && (Normal(Raw(Offset(t, n, rate), n + k, rate)) == OfMicros(now)
          <==> if clamped then now == 0 else TickMicros(n, rate) / WRAP % 15625 == 0)
  {
    RawLater(t, n, k, rate);
    SetErrorZero(n, rate);
    NowBounds(t, TickMicros(k, rate));
    hide TickMicros, Seconds, Fraction, Low32, ToI32, SetError, Raw, Offset;
    ShownAs(Raw(Offset(t, n, rate), n + k, rate), Micros(t) + TickMicros(k, rate), SetError(n, rate));
  }

  lemma NowBounds(t: Time, us: nat)
    requires Normalised(t)
    ensures -HALF <= (Micros(t) + us) / ALT_US
  {
  }

  lemma ShownAs(raw: Time, now: int, error: int)
    requires Micros(raw) == now + error && -HALF <= now / ALT_US < HALF && Micros(raw) / ALT_US < HALF
    ensures Normal(raw) == OfMicros(now) <==> if Clamped(raw) then now == 0 else error == 0
  {
  }

  // A failure: with a millisecond tick, set to 100 s after 71 min 34.968 s, the clock
  // reads 100.967296 s.
  lemma ReadBackFails()
    ensures Raw(Offset(Time(100, 0), 4294968, 1000), 4294968, 1000) == Time(100, 967296)
    ensures Normal(Time(100, 967296)) == Time(100, 967296)
  {
    assert TickMicros(4294968, 1000) == 4294968000 && Seconds(4294968, 1000) == 4294;
    assert Fraction(4294968000) == 968000 && Low32(4294968000) == 704;
    hide TickMicros, Seconds, Low32;
    assert Offset(Time(100, 0), 4294968, 1000) == Time(-4194, -704);
  }
}
