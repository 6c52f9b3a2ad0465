/** The incremental controller in n-bit arithmetic, against the positional form it is the
    difference of.  One step is one clock edge. */
module Pid {
  import opened Words

  datatype Gains = Gains(k1: int, k2: int, k3: int)

  /** The registers u_prev, e_prev[1] and e_prev[2]. */
  datatype Registers = Registers(u: int, e1: int, e2: int)

  /** u_out, before it is cut to n bits */
  function Sum3(r: Registers, g: Gains, e: int): int {
    r.u + g.k1 * e - g.k2 * r.e1 + g.k3 * r.e2
  }

  function Out(m: nat, r: Registers, g: Gains, e: int): int
    requires m > 0
  {
    Sum3(r, g, e) % m
  }

  function Step(m: nat, r: Registers, g: Gains, e: int): Registers
    requires m > 0
  {
    Registers(Out(m, r, g, e), e, r.e1)
  }

  /** The registers after these errors, from reset. */
  function After(m: nat, g: Gains, errors: seq<int>): Registers
    requires m > 0
  {
    if errors == [] then Registers(0, 0, 0)
    else Step(m, After(m, g, errors[..|errors| - 1]), g, errors[|errors| - 1])
  }

  /** The j-th error from the end; zero before reset. */
  function Ago(errors: seq<int>, j: nat): int {
    if j < |errors| then errors[|errors| - 1 - j] else 0
  }

  function Total(errors: seq<int>): int {
    if errors == [] then 0 else Total(errors[..|errors| - 1]) + errors[|errors| - 1]
  }

  /** All errors but the latest two, added up. */
  function Older(errors: seq<int>): int {
    if |errors| <= 2 then 0 else Total(errors[..|errors| - 2])
  }

  /** The positional form: the latest error, the one before, and the sum of the rest. */
  function Positional(g: Gains, errors: seq<int>): int {
    g.k1 * Ago(errors, 0) + (g.k1 - g.k2) * Ago(errors, 1) + (g.k1 - g.k2 + g.k3) * Older(errors)
  }

  lemma OlderGrows(errors: seq<int>)
    requires errors != []
    ensures Older(errors) == Older(errors[..|errors| - 1]) + Ago(errors, 2)
    ensures Ago(errors[..|errors| - 1], 0) == Ago(errors, 1) && Ago(errors[..|errors| - 1], 1) == Ago(errors, 2)
  {
    var n := |errors|;
    if n > 2 {
      assert errors[..n - 1][..n - 3] == errors[..n - 2][..n - 3];
      assert n == 3 ==> Total(errors[..n - 2][..0]) == 0;
    }
  }

  // The change of the positional form from one clock to the next is the increment.
  lemma Increment(g: Gains, errors: seq<int>)
    requires errors != []
    ensures Positional(g, errors) - Positional(g, errors[..|errors| - 1])
            == g.k1 * Ago(errors, 0) - g.k2 * Ago(errors, 1) + g.k3 * Ago(errors, 2)
  {
    OlderGrows(errors);
    Spread(g, Ago(errors, 0), Ago(errors, 1), Ago(errors, 2), Older(errors[..|errors| - 1]));
  }

  lemma Spread(g: Gains, e0: int, e1: int, e2: int, s: int)
    ensures (g.k1 * e0 + (g.k1 - g.k2) * e1 + (g.k1 - g.k2 + g.k3) * (s + e2))
            - (g.k1 * e1 + (g.k1 - g.k2) * e2 + (g.k1 - g.k2 + g.k3) * s)
            == g.k1 * e0 - g.k2 * e1 + g.k3 * e2
  {
  }

  lemma {:induction false} AtLeastOnce(m: nat, d: nat)
    requires d > 0
    ensures m * d >= m
  {
    if d > 1 {
      assert m * d == m * (d - 1) + m;
      AtLeastOnce(m, d - 1);
    }
  }

  lemma SmallMultiple(m: nat, d: int)
    requires m * d < m && m * -d < m
    ensures d == 0
  {
    AtLeastOnce(m, if d > 0 then d else 1);
    AtLeastOnce(m, if d < 0 then -d else 1);
  }

  lemma ModShift(m: nat, z: int, q: int)
    requires m > 0
    ensures (z - m * q) % m == z % m
  {
    var y := z - m * q;
    var a, b, r, s := z / m, y / m, z % m, y % m;
    assert z == m * a + r && y == m * b + s;
    assert m * (a - q - b) == s - r;
    SmallMultiple(m, a - q - b);
  }

  lemma SameMod(m: nat, x: int, y: int)
    requires m > 0
    ensures (x % m + y) % m == (x + y) % m
  {
    assert x % m == x - m * (x / m);
    ModShift(m, x + y, x / m);
  }

  lemma {:induction false} ErrorsKept(m: nat, g: Gains, errors: seq<int>)
    requires m > 0
    ensures After(m, g, errors).e1 == Ago(errors, 0) && After(m, g, errors).e2 == Ago(errors, 1)
  {
    if errors != [] {
      ErrorsKept(m, g, errors[..|errors| - 1]);
    }
  }

  // After every error sequence, the incremental controller's output is its positional
  // form, modulo 2^n; here for every modulus and all gains.
  lemma {:induction false} IncrementalIsPositional(m: nat, g: Gains, errors: seq<int>)
    requires m > 0
    ensures After(m, g, errors).u == Positional(g, errors) % m
  {
    if errors != [] {
      var before := errors[..|errors| - 1];
      IncrementalIsPositional(m, g, before);
      ErrorsKept(m, g, before);
      Increment(g, errors);
      OlderGrows(errors);
      hide Positional, Older, Ago;
      SameMod(m, Positional(g, before), Positional(g, errors) - Positional(g, before));
    }
  }

  class Controller {
    const n: nat
    const g: Gains
    var uPrev: int
    var ePrev1: int
    var ePrev2: int

    ghost function Value(): Registers
      reads this
    {
      Registers(uPrev, ePrev1, ePrev2)
    }

    constructor (n: nat, g: Gains)
      ensures this.n == n && this.g == g
    {
      this.n, this.g := n, g;
      uPrev, ePrev1, ePrev2 := 0, 0, 0;
    }

    /** assign u_out */
    function UOut(eIn: int): int
      reads this
    {
      (uPrev + g.k1 * eIn - g.k2 * ePrev1 + g.k3 * ePrev2) % Pow2(n)
    }

    /** One clock edge. */
    method Clock(reset: bool, eIn: int)
      modifies this
      ensures Value() == if reset then After(Pow2(n), g, []) else Step(Pow2(n), old(Value()), g, eIn)
    {
      if reset {
        uPrev, ePrev1, ePrev2 := 0, 0, 0;
      } else {
        uPrev, ePrev1, ePrev2 := UOut(eIn), eIn, ePrev1;
      }
    }
  }
}
