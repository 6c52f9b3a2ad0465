/** Six-step commutation from the hall sensors, and the PWM that drives its high sides.
    One step is one edge of the system clock. */
module Commutation {
  import opened Words

  datatype State = A | B | C | D | E | F

  /** {halla, hallb, hallc} */
  datatype Hall = Hall(a: bool, b: bool, c: bool)

  /** The state a hall code stands for; 000 and 111 stand for none. */
  function Decode(h: Hall): Option<State> {
    match h
    case Hall(true, false, true) => Some(A)
    case Hall(true, false, false) => Some(B)
    case Hall(true, true, false) => Some(C)
    case Hall(false, true, false) => Some(D)
    case Hall(false, true, true) => Some(E)
    case Hall(false, false, true) => Some(F)
    case _ => None
  }

  /** A legal code decides the next state whatever the state was; the others keep it. */
  function Next(state: State, h: Hall): State {
    match Decode(h)
    case Some(s) => s
    case None => state
  }

  /** The state after these hall samples, from reset. */
  function After(halls: seq<Hall>): State {
    if halls == [] then A else Next(After(halls[..|halls| - 1]), halls[|halls| - 1])
  }

  // The state is that of the latest legal hall sample, or A if there was none.
  lemma {:induction false} LatestLegal(halls: seq<Hall>, j: nat)
    requires j <= |halls| && forall i :: j <= i < |halls| ==> Decode(halls[i]) == None
    ensures j == 0 ==> After(halls) == A
    ensures j > 0 && Decode(halls[j - 1]).Some? ==> After(halls) == Decode(halls[j - 1]).value
    decreases |halls|
  {
    if halls != [] && j < |halls| {
      LatestLegal(halls[..|halls| - 1], j);
      assert Decode(halls[|halls| - 1]) == None;
    }
  }

  datatype Legs = Legs(a: bool, b: bool, c: bool)

  function High(s: State, forward: bool): Legs {
    if forward then Legs(s == D || s == E, s == A || s == F, s == B || s == C)
    else Legs(s == A || s == B, s == C || s == D, s == E || s == F)
  }

  function Low(s: State, forward: bool): Legs {
    if forward then Legs(s == A || s == B, s == C || s == D, s == E || s == F)
    else Legs(s == D || s == E, s == A || s == F, s == B || s == C)
  }

  predicate JustOne(l: Legs) {
    l in {Legs(true, false, false), Legs(false, true, false), Legs(false, false, true)}
  }

  // Exactly one high and one low switch are commanded, never both of a leg, and turning
  // the direction round swaps them.
  lemma Bridge(s: State, forward: bool)
    ensures JustOne(High(s, forward)) && JustOne(Low(s, forward)) && High(s, forward) != Low(s, forward)
    ensures !(High(s, forward).a && Low(s, forward).a)
    ensures !(High(s, forward).b && Low(s, forward).b)
    ensures !(High(s, forward).c && Low(s, forward).c)
    ensures High(s, !forward) == Low(s, forward)
  {
  }

  class Fsm {
    var stateQ: State

    constructor ()
    {
      stateQ := A;
    }

    /** state_D: the case over the six states, each with its chain of comparisons. */
    method NextState(h: Hall) returns (d: State)
      ensures match Decode(h) case Some(s) => d == s case None => d == stateQ
    {
      match stateQ
      case A =>
        if h == Hall(true, false, true) {
          d := A;
        } else if h == Hall(true, false, false) {
          d := B;
        } else if h == Hall(true, true, false) {
          d := C;
        } else if h == Hall(false, true, false) {
          d := D;
        } else if h == Hall(false, true, true) {
          d := E;
        } else if h == Hall(false, false, true) {
          d := F;
        } else {
          d := A;
        }
      case B =>
        if h == Hall(true, false, true) {
          d := A;
        } else if h == Hall(true, false, false) {
          d := B;
        } else if h == Hall(true, true, false) {
          d := C;
        } else if h == Hall(false, true, false) {
          d := D;
        } else if h == Hall(false, true, true) {
          d := E;
        } else if h == Hall(false, false, true) {
          d := F;
        } else {
          d := B;
        }
      case C =>
        if h == Hall(true, false, true) {
          d := A;
        } else if h == Hall(true, false, false) {
          d := B;
        } else if h == Hall(true, true, false) {
          d := C;
        } else if h == Hall(false, true, false) {
          d := D;
        } else if h == Hall(false, true, true) {
          d := E;
        } else if h == Hall(false, false, true) {
          d := F;
        } else {
          d := C;
        }
      case D =>
        if h == Hall(true, false, true) {
          d := A;
        } else if h == Hall(true, false, false) {
          d := B;
        } else if h == Hall(true, true, false) {
          d := C;
        } else if h == Hall(false, true, false) {
          d := D;
        } else if h == Hall(false, true, true) {
          d := E;
        } else if h == Hall(false, false, true) {
          d := F;
        } else {
          d := D;
        }
      case E =>
        if h == Hall(true, false, true) {
          d := A;
        } else if h == Hall(true, false, false) {
          d := B;
        } else if h == Hall(true, true, false) {
          d := C;
        } else if h == Hall(false, true, false) {
          d := D;
        } else if h == Hall(false, true, true) {
          d := E;
        } else if h == Hall(false, false, true) {
          d := F;
        } else {
          d := E;
        }
      case F =>
        if h == Hall(true, false, true) {
          d := A;
        } else if h == Hall(true, false, false) {
          d := B;
        } else if h == Hall(true, true, false) {
          d := C;
        } else if h == Hall(false, true, false) {
          d := D;
        } else if h == Hall(false, true, true) {
          d := E;
        } else if h == Hall(false, false, true) {
          d := F;
        } else {
          d := F;
        }
    }

    method Clock(reset: bool, h: Hall)
      modifies this
      ensures reset ==> stateQ == A
      ensures !reset ==> match Decode(h) case Some(s) => stateQ == s case None => stateQ == old(stateQ)
    {
      var d := NextState(h);
      if reset {
        stateQ := A;
      } else {
        stateQ := d;
      }
    }
  }
}
