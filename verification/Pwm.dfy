/** The PWM generator: a free-running n-bit counter and a registered comparison. */
module Pwm {
  import opened Words

  /** The registers count_out and PWM_out. */
  datatype Generator = Generator(count: nat, out: bool)

  function Increment(size: nat, count: nat): nat { if count + 1 == size then 0 else count + 1 }

  /** One clock edge: the comparison takes the counter as it was. */
  function Step(size: nat, g: Generator, duty: nat): Generator {
    Generator(Increment(size, g.count), duty > g.count)
  }

  lemma WrapCount(size: nat, count: nat)
    requires count < size
    ensures (count + 1) % size == Increment(size, count)
  {
  }

  /** How many of the next `k` clocks leave the output high. */
  function HighClocks(size: nat, g: Generator, duty: nat, k: nat): nat
    decreases k
  {
    if k == 0 then 0 else
      var next := Step(size, g, duty);
      (if next.out then 1 else 0) + HighClocks(size, next, duty, k - 1)
  }

  function Min(a: nat, b: nat): nat { if a < b then a else b }

  // Until the counter wraps, the output is high while the counter is below the duty.
  lemma {:induction false} BeforeWrap(size: nat, g: Generator, duty: nat, k: nat)
    requires g.count + k <= size
    ensures HighClocks(size, g, duty, k) == Min(duty, g.count + k) - Min(duty, g.count)
    decreases k
  {
    if k > 1 {
      BeforeWrap(size, Step(size, g, duty), duty, k - 1);
    }
  }

  /** The generator `k` clocks on. */
  function Later(size: nat, g: Generator, duty: nat, k: nat): Generator
    decreases k
  {
    if k == 0 then g else Later(size, Step(size, g, duty), duty, k - 1)
  }

  lemma {:induction false} InTwoParts(size: nat, g: Generator, duty: nat, j: nat, k: nat)
    ensures HighClocks(size, g, duty, j + k)
            == HighClocks(size, g, duty, j) + HighClocks(size, Later(size, g, duty, j), duty, k)
    decreases j
  {
    if j > 0 {
      InTwoParts(size, Step(size, g, duty), duty, j - 1, k);
    }
  }

  lemma {:induction false} ReachesZero(size: nat, g: Generator, duty: nat)
    requires g.count < size
    ensures Later(size, g, duty, size - g.count).count == 0
    decreases size - g.count
  {
    if g.count + 1 < size {
      ReachesZero(size, Step(size, g, duty), duty);
    }
  }

  // Over any full period, wherever the counter starts, the output is high for exactly
  // `duty` clocks.
  lemma DutyExact(size: nat, g: Generator, duty: nat)
    requires g.count < size && duty <= size
    ensures HighClocks(size, g, duty, size) == duty
  {
    var j := size - g.count;
    InTwoParts(size, g, duty, j, g.count);
    ReachesZero(size, g, duty);
    BeforeWrap(size, g, duty, j);
    BeforeWrap(size, Later(size, g, duty, j), duty, g.count);
  }

  class PwmGenerator {
    const n: nat
    var countOut: nat
    var pwmOut: bool

    ghost predicate Valid()
      reads this
    {
      countOut < Pow2(n)
    }

    ghost function Value(): Generator
      reads this
    {
      Generator(countOut, pwmOut)
    }

    constructor (n: nat)
      ensures Valid() && this.n == n && countOut == 0
    {
      this.n := n;
      countOut, pwmOut := 0, false;
    }

    /** rst is asynchronous and only clears the counter. */
    method Reset()
      modifies `countOut
      ensures Valid() && countOut == 0
    {
      countOut := 0;
    }

    /** One clock edge with the reset low. */
    method Clock(potensioValue: nat)
      requires Valid() && potensioValue < Pow2(n)
      modifies this
      ensures Valid() && Value() == Step(Pow2(n), old(Value()), potensioValue)
    {
      hide Pow2;
      WrapCount(Pow2(n), countOut);
      pwmOut := potensioValue > countOut;
      countOut := (countOut + 1) % Pow2(n);
    }
  }
}
