/** Alarm deadlines in 32 bits.  The tick counter wraps, so an alarm keeps its deadline
    modulo 2^32 plus one flag saying that the counter must wrap first.  The true tick
    count and true deadlines are unbounded. */
module AlarmTime {
  import opened Words

  /** The two time fields of an alarm. */
  datatype Due = Due(time: U32, rollover: bool)

  /** alt_alarm_start at counter value `ticks`. */
  function Armed(nticks: U32, ticks: U32): Due {
    var time := (nticks + ticks + 1) % WRAP;
    Due(time, time < ticks)
  }

  /** alt_tick clears the flag when the counter has just wrapped. */
  function Rolled(d: Due, ticks: U32): Due {
    if d.rollover && ticks == 0 then d.(rollover := false) else d
  }

  /** alt_tick's test for making the callback. */
  predicate Expired(d: Due, ticks: U32) {
    d.time <= ticks && !d.rollover
  }

  /** alt_tick after a callback that asked for `period` more ticks. */
  function Rearmed(d: Due, period: U32, ticks: U32): Due {
    var time := (d.time + period) % WRAP;
    Due(time, d.rollover || time < ticks)
  }

  function Ticks(now: nat): U32 { now % WRAP }

  /** `d` stands for the true deadline `deadline` when `now` ticks have been processed. */
  predicate InSync(d: Due, deadline: nat, now: nat) {
    && now < deadline < now + WRAP
    && d.time == deadline % WRAP
    && (d.rollover <==> deadline / WRAP > now / WRAP)
  }

  // Two tick counts less than a wrap apart are in the same epoch, or one apart; which
  // one is visible from the wrapped values.
  lemma EpochOf(now: nat, d: nat)
    requires d < WRAP
    ensures now % WRAP + d < WRAP ==> (now + d) / WRAP == now / WRAP && (now + d) % WRAP == now % WRAP + d
    ensures now % WRAP + d >= WRAP ==> (now + d) / WRAP == now / WRAP + 1 && (now + d) % WRAP == now % WRAP + d - WRAP
  {
    var q, r := now / WRAP, now % WRAP;
    assert now + d == q * WRAP + (r + d);
  }

  lemma Mod(x: nat)
    requires x < 2 * WRAP
    ensures x % WRAP == if x < WRAP then x else x - WRAP
  {
  }

  // Starting an alarm represents its deadline exactly for every interval but the largest.
  lemma StartInSync(nticks: U32, now: nat)
    ensures InSync(Armed(nticks, Ticks(now)), now + nticks + 1, now) <==> nticks != WRAP - 1
  {
    if nticks != WRAP - 1 {
      EpochOf(now, nticks + 1);
      Mod(Ticks(now) + nticks + 1);
    }
  }

  // One tick: the alarm expires exactly at its deadline, and otherwise stays represented.
  lemma TickInSync(d: Due, deadline: nat, now: nat)
    requires InSync(d, deadline, now)
    ensures Expired(Rolled(d, Ticks(now + 1)), Ticks(now + 1)) <==> deadline == now + 1
    ensures deadline != now + 1 ==> InSync(Rolled(d, Ticks(now + 1)), deadline, now + 1)
    ensures deadline == now + 1 ==> Rolled(d, Ticks(now + 1)) == Due(Ticks(now + 1), false)
  {
    EpochOf(now, 1);
    EpochOf(now, deadline - now);
    EpochOf(now + 1, deadline - now - 1);
  }

  // A callback that asks for `period` more ticks is represented at the old deadline plus
  // the period, not at the current tick plus the period: no drift.  If the callback started
  // its own alarm anew, the deadline is already a later one, and the new one is
  // represented exactly if it is less than a wrap away.
  lemma RearmInSync(d: Due, deadline: nat, period: U32, now: nat)
    requires period > 0 && (InSync(d, deadline, now) || (d == Due(Ticks(now), false) && deadline == now))
    ensures InSync(Rearmed(d, period, Ticks(now)), deadline + period, now) <==> deadline + period < now + WRAP
  {
    if deadline + period < now + WRAP {
      EpochOf(now, deadline - now);
      EpochOf(now, deadline + period - now);
      Mod(d.time + period);
    }
  }

  // ------------------------------------------------- the first firing, tick by tick

  /** The fields `k` ticks after `start`, with no callback made on the way. */
  function Later(d: Due, start: nat, k: nat): Due {
    if k == 0 then d else Rolled(Later(d, start, k - 1), Ticks(start + k))
  }

  ghost predicate FiresFirstAfter(d: Due, start: nat, k: nat) {
    && k > 0 && Expired(Later(d, start, k), Ticks(start + k))
    && forall j :: 0 < j < k ==> !Expired(Later(d, start, j), Ticks(start + j))
  }

  lemma {:induction false} LaterInSync(d: Due, start: nat, deadline: nat, k: nat)
    requires InSync(d, deadline, start) && start + k < deadline
    ensures InSync(Later(d, start, k), deadline, start + k)
    ensures forall j :: 0 < j <= k ==> !Expired(Later(d, start, j), Ticks(start + j))
    decreases k
  {
    if k > 0 {
      LaterInSync(d, start, deadline, k - 1);
      TickInSync(Later(d, start, k - 1), deadline, start + k - 1);
    }
  }

  lemma {:induction false} LaterUnflagged(d: Due, start: nat, k: nat)
    requires !d.rollover
    ensures Later(d, start, k) == d
  {
    if k > 0 {
      LaterUnflagged(d, start, k - 1);
    }
  }

  // An alarm started at true tick `start` with `nticks` fires first after exactly
  // nticks + 1 ticks, except for the largest interval at a counter that is not about to
  // wrap, when it fires at the very next tick.
  lemma FirstFiring(nticks: U32, start: nat)
    ensures FiresFirstAfter(Armed(nticks, Ticks(start)), start, nticks + 1)
            <==> nticks != WRAP - 1 || Ticks(start) == WRAP - 1
    ensures nticks == WRAP - 1 && Ticks(start) != WRAP - 1 ==> FiresFirstAfter(Armed(nticks, Ticks(start)), start, 1)
  {
    var d := Armed(nticks, Ticks(start));
    if nticks != WRAP - 1 {
      StartInSync(nticks, start);
      LaterInSync(d, start, start + nticks + 1, nticks);
      TickInSync(Later(d, start, nticks), start + nticks + 1, start + nticks);
    } else {
      LargestInterval(start);
    }
  }

  lemma LargestInterval(start: nat)
    ensures Armed(WRAP - 1, Ticks(start)) == Due(Ticks(start), false)
    ensures FiresFirstAfter(Due(Ticks(start), false), start, WRAP) <==> Ticks(start) == WRAP - 1
    ensures Ticks(start) != WRAP - 1 ==> FiresFirstAfter(Due(Ticks(start), false), start, 1)
  {
    var d := Due(Ticks(start), false);
    Mod(Ticks(start) + WRAP);
    EpochOf(start, 1);
    LaterUnflagged(d, start, 1);
    if Ticks(start) == WRAP - 1 {
      forall j | 0 < j <= WRAP
        ensures Later(d, start, j) == d && (j < WRAP ==> Ticks(start + j) == j - 1)
      {
        LaterUnflagged(d, start, j);
        if j < WRAP {
          EpochOf(start, j);
        }
      }
      assert Ticks(start + WRAP) == Ticks(start);
    }
  }

  // A concrete failure: started at reset with the largest interval, an alarm meant for
  // tick 2^32 fires at tick 1.
  lemma LargestIntervalAtReset()
    ensures FiresFirstAfter(Armed(0xFFFF_FFFF, Ticks(0)), 0, 1)
    ensures !FiresFirstAfter(Armed(0xFFFF_FFFF, Ticks(0)), 0, 0xFFFF_FFFF + 1)
  {
    FirstFiring(0xFFFF_FFFF, 0);
  }

  // ------------------------------------------------------------ every firing

  /** The ticks at which an alarm's callback is made during the `k` ticks after `now`,
      by the 32-bit rules; `answers` is what the callback returns, one by one, and an
      answer of zero (or none) ends the alarm. */
  function Fires(d: Due, now: nat, answers: seq<U32>, k: nat): seq<nat>
    decreases k
  {
    if k == 0 then [] else
      var ticks := Ticks(now + 1);
      var r := Rolled(d, ticks);
      if !Expired(r, ticks) then Fires(r, now + 1, answers, k - 1)
      else if answers == [] || answers[0] == 0 then [now + 1]
      else [now + 1] + Fires(Rearmed(r, answers[0], ticks), now + 1, answers[1..], k - 1)
  }

  /** The same by unbounded deadlines: the first one, then each answer after the last. */
  function DueBy(deadline: nat, answers: seq<U32>, limit: nat): seq<nat>
    decreases |answers|
  {
    if deadline > limit then []
    else if answers == [] || answers[0] == 0 then [deadline]
    else [deadline] + DueBy(deadline + answers[0], answers[1..], limit)
  }

  // Over any number of ticks, firings and counter wraps, the 32-bit alarm fires exactly
  // at its unbounded deadlines.
  lemma {:induction false} FiresOnTime(d: Due, deadline: nat, now: nat, answers: seq<U32>, k: nat)
    requires InSync(d, deadline, now)
    ensures Fires(d, now, answers, k) == DueBy(deadline, answers, now + k)
    decreases k
  {
    if k > 0 {
      TickInSync(d, deadline, now);
      if deadline != now + 1 {
        FiresOnTime(Rolled(d, Ticks(now + 1)), deadline, now + 1, answers, k - 1);
      } else if answers != [] && answers[0] != 0 {
        RearmInSync(Due(Ticks(now + 1), false), now + 1, answers[0], now + 1);
        FiresOnTime(Rearmed(Due(Ticks(now + 1), false), answers[0], Ticks(now + 1)),
                    deadline + answers[0], now + 1, answers[1..], k - 1);
      }
    }
  }

  // The same from the call that starts the alarm.
  lemma StartedFiresOnTime(nticks: U32, start: nat, answers: seq<U32>, k: nat)
    requires nticks != WRAP - 1
    ensures Fires(Armed(nticks, Ticks(start)), start, answers, k) == DueBy(start + nticks + 1, answers, start + k)
  {
    StartInSync(nticks, start);
    FiresOnTime(Armed(nticks, Ticks(start)), start + nticks + 1, start, answers, k);
  }
}
