/** The motor drive: the commutation state machine selecting which of three PWM generators
    reach the high-side switches, the low sides driven by the state alone. */
module PatternPwm {
  import opened Commutation
  import opened Pwm
  import opened Words

  datatype System = System(state: State, a: Generator, b: Generator, c: Generator)

  function Clocked(size: nat, s: System, h: Hall, duty: nat): System {
    System(Next(s.state, h), Step(size, s.a, duty), Step(size, s.b, duty), Step(size, s.c, duty))
  }

  /** PWM_HA, PWM_HB and PWM_HC */
  function HighSides(s: System, forward: bool): Legs {
    var enable := High(s.state, forward);
    Legs(enable.a && s.a.out, enable.b && s.b.out, enable.c && s.c.out)
  }

  /** PWM_LA, PWM_LB and PWM_LC */
  function LowSides(s: System, forward: bool): Legs { Low(s.state, forward) }

  /** The drive after these clocks, each with its hall sample and duty. */
  function Run(size: nat, s: System, clocks: seq<(Hall, nat)>): System {
    if clocks == [] then s
    else
      var last := clocks[|clocks| - 1];
      Clocked(size, Run(size, s, clocks[..|clocks| - 1]), last.0, last.1)
  }

  function Halls(clocks: seq<(Hall, nat)>): seq<Hall> { seq(|clocks|, i requires 0 <= i < |clocks| => clocks[i].0) }

  // In the drive the state follows the hall samples alone, as LatestLegal says.
  lemma {:induction false} RunState(size: nat, s: System, clocks: seq<(Hall, nat)>)
    requires s.state == A
    ensures Run(size, s, clocks).state == After(Halls(clocks))
  {
    if clocks != [] {
      var before := clocks[..|clocks| - 1];
      RunState(size, s, before);
      assert Halls(clocks)[..|clocks| - 1] == Halls(before);
    }
  }

  // Whatever the state, counters and direction, no leg has both of its switches on, one
  // low side is on and at most one high side.
  lemma NoShootThrough(s: System, forward: bool)
    ensures var hi, lo := HighSides(s, forward), LowSides(s, forward);
      && !(hi.a && lo.a) && !(hi.b && lo.b) && !(hi.c && lo.c) && JustOne(lo)
      && !(hi.a && hi.b) && !(hi.b && hi.c) && !(hi.a && hi.c)
  {
    Bridge(s.state, forward);
  }

  // After any clocks from reset the switches that can be on are those of the latest legal
  // hall code, here the one before the j-th.
  lemma DrivesLatest(size: nat, s: System, clocks: seq<(Hall, nat)>, j: nat, forward: bool)
    requires s.state == A && 0 < j <= |clocks| && Decode(clocks[j - 1].0).Some?
    requires forall i :: j <= i < |clocks| ==> Decode(clocks[i].0) == None
    ensures var code, end := Decode(clocks[j - 1].0).value, Run(size, s, clocks);
      && LowSides(end, forward) == Low(code, forward)
      && (HighSides(end, forward).a ==> High(code, forward).a) && (HighSides(end, forward).b ==> High(code, forward).b)
      && (HighSides(end, forward).c ==> High(code, forward).c)
  {
    RunState(size, s, clocks);
    LatestLegal(Halls(clocks), j);
  }

  /** Over these hall codes, one a clock, how many clocks leave each high side on. */
  function OnClocks(size: nat, s: System, halls: seq<Hall>, forward: bool, duty: nat): (nat, nat, nat)
    decreases |halls|
  {
    if halls == [] then (0, 0, 0) else
      var next := Clocked(size, s, halls[0], duty);
      var rest := OnClocks(size, next, halls[1..], forward, duty);
      var on := HighSides(next, forward);
      (rest.0 + if on.a then 1 else 0, rest.1 + if on.b then 1 else 0, rest.2 + if on.c then 1 else 0)
  }

  /** None of the codes moves the state: each stands for it or for none. */
  predicate Steady(state: State, halls: seq<Hall>) {
    forall i :: 0 <= i < |halls| ==> Decode(halls[i]) in {None, Some(state)}
  }

  lemma {:induction false} OnClocksByLeg(size: nat, s: System, halls: seq<Hall>, forward: bool, duty: nat)
    requires Steady(s.state, halls)
    ensures OnClocks(size, s, halls, forward, duty).0
            == if High(s.state, forward).a then HighClocks(size, s.a, duty, |halls|) else 0
    ensures OnClocks(size, s, halls, forward, duty).1
            == if High(s.state, forward).b then HighClocks(size, s.b, duty, |halls|) else 0
    ensures OnClocks(size, s, halls, forward, duty).2
            == if High(s.state, forward).c then HighClocks(size, s.c, duty, |halls|) else 0
    decreases |halls|
  {
    if halls != [] {
      assert Decode(halls[0]) in {None, Some(s.state)};
      OnClocksByLeg(size, Clocked(size, s, halls[0], duty), halls[1..], forward, duty);
    }
  }

  // While the hall codes do not move the state, over any 2^n clocks and from any counter
  // values the selected high side is on for exactly `duty` clocks, the others for none.
  lemma PeriodExact(n: nat, s: System, halls: seq<Hall>, forward: bool, duty: nat)
    requires Steady(s.state, halls) && |halls| == Pow2(n) && duty < Pow2(n)
    requires s.a.count < Pow2(n) && s.b.count < Pow2(n) && s.c.count < Pow2(n)
    ensures var enable := High(s.state, forward);
      OnClocks(Pow2(n), s, halls, forward, duty)
      == (if enable.a then duty else 0, if enable.b then duty else 0, if enable.c then duty else 0)
  {
    var size := Pow2(n);
    hide Pow2;
    OnClocksByLeg(size, s, halls, forward, duty);
    DutyExact(size, s.a, duty);
    DutyExact(size, s.b, duty);
    DutyExact(size, s.c, duty);
  }

  // ------------------------------------------------------------------ the rows, wire by wire

  /** A code in which the three sensors agree, which no rotor position gives. */
  predicate Fault(h: Hall) { h.a == h.b == h.c }

  /** The drive now and over a period of such codes: the low switches that are on, and the
      legs whose high switch follows the PWM, on for exactly the duty. */
  predicate Drives(n: nat, s: System, halls: seq<Hall>, forward: bool, duty: nat, low: Legs, high: Legs) {
    && LowSides(s, forward) == low
    && HighSides(s, forward) == Legs(high.a && s.a.out, high.b && s.b.out, high.c && s.c.out)
    && OnClocks(Pow2(n), s, halls, forward, duty)
       == (if high.a then duty else 0, if high.b then duty else 0, if high.c then duty else 0)
  }

  /** From hall code and direction to the switches, in both directions of turning. */
  predicate Rows(n: nat, s: System, halls: seq<Hall>, duty: nat, low: Legs, high: Legs) {
    Drives(n, s, halls, true, duty, low, high) && Drives(n, s, halls, false, duty, high, low)
  }

  lemma RowsOfState(n: nat, s: System, halls: seq<Hall>, duty: nat)
    requires Steady(s.state, halls) && |halls| == Pow2(n) && duty < Pow2(n)
    requires s.a.count < Pow2(n) && s.b.count < Pow2(n) && s.c.count < Pow2(n)
    ensures Rows(n, s, halls, duty, Low(s.state, true), High(s.state, true))
  {
    PeriodExact(n, s, halls, true, duty);
    PeriodExact(n, s, halls, false, duty);
    Bridge(s.state, true);
    Bridge(s.state, false);
    hide OnClocks, Pow2, Steady, Low, High;
  }

  lemma {:induction false} CountsFit(n: nat, s: System, clocks: seq<(Hall, nat)>)
    requires s.a.count < Pow2(n) && s.b.count < Pow2(n) && s.c.count < Pow2(n)
    ensures var end := Run(Pow2(n), s, clocks);
      end.a.count < Pow2(n) && end.b.count < Pow2(n) && end.c.count < Pow2(n)
  {
    if clocks != [] {
      CountsFit(n, s, clocks[..|clocks| - 1]);
    }
  }

  // Codes that no rotor position gives leave the drive where the last other code put it.
  lemma {:induction false} FaultsIgnored(size: nat, s: System, clocks: seq<(Hall, nat)>, j: nat)
    requires j <= |clocks| && forall i :: j <= i < |clocks| ==> Fault(clocks[i].0)
    ensures j == 0 ==> Run(size, s, clocks).state == s.state
    ensures j > 0 && !Fault(clocks[j - 1].0) ==> Some(Run(size, s, clocks).state) == Decode(clocks[j - 1].0)
    decreases |clocks|
  {
    if j < |clocks| {
      FaultsIgnored(size, s, clocks[..|clocks| - 1], j);
    }
  }

  // The table of the commutation: after any clocks whose last possible hall code is `h`,
  // and over any period that shows `h` or faults only.
  lemma {:induction false} TwelveRows(n: nat, s: System, clocks: seq<(Hall, nat)>, j: nat, h: Hall,
                                      halls: seq<Hall>, duty: nat)
    requires s.a.count < Pow2(n) && s.b.count < Pow2(n) && s.c.count < Pow2(n)
    requires 0 < j <= |clocks| && clocks[j - 1].0 == h && !Fault(h)
    requires forall i :: j <= i < |clocks| ==> Fault(clocks[i].0)
    requires |halls| == Pow2(n) && duty < Pow2(n) && forall i :: 0 <= i < |halls| ==> Fault(halls[i]) || halls[i] == h
    ensures var end := Run(Pow2(n), s, clocks);
      && (h == Hall(true, false, true) ==>
            Rows(n, end, halls, duty, Legs(true, false, false), Legs(false, true, false)))
      && (h == Hall(true, false, false) ==>
            Rows(n, end, halls, duty, Legs(true, false, false), Legs(false, false, true)))
      && (h == Hall(true, true, false) ==>
            Rows(n, end, halls, duty, Legs(false, true, false), Legs(false, false, true)))
      && (h == Hall(false, true, false) ==>
            Rows(n, end, halls, duty, Legs(false, true, false), Legs(true, false, false)))
      && (h == Hall(false, true, true) ==>
            Rows(n, end, halls, duty, Legs(false, false, true), Legs(true, false, false)))
      && (h == Hall(false, false, true) ==>
            Rows(n, end, halls, duty, Legs(false, false, true), Legs(false, true, false)))
  {
    var end := Run(Pow2(n), s, clocks);
    CountsFit(n, s, clocks);
    FaultsIgnored(Pow2(n), s, clocks, j);
    hide Run, Pow2, Rows;
    RowsOfState(n, end, halls, duty);
  }

  // From reset, until the first possible code, the drive is that of the code 101.
  lemma {:induction false} ResetRow(n: nat, s: System, clocks: seq<(Hall, nat)>, halls: seq<Hall>, duty: nat)
    requires s.state == A && s.a.count < Pow2(n) && s.b.count < Pow2(n) && s.c.count < Pow2(n)
    requires forall i :: 0 <= i < |clocks| ==> Fault(clocks[i].0)
    requires |halls| == Pow2(n) && duty < Pow2(n) && forall i :: 0 <= i < |halls| ==> Fault(halls[i])
    ensures Rows(n, Run(Pow2(n), s, clocks), halls, duty, Legs(true, false, false), Legs(false, true, false))
  {
    var end := Run(Pow2(n), s, clocks);
    CountsFit(n, s, clocks);
    FaultsIgnored(Pow2(n), s, clocks, 0);
    hide Run, Pow2, Rows;
    RowsOfState(n, end, halls, duty);
  }
}
