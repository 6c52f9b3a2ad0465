/** Unsigned 32-bit words, powers of two, and optional values. */
module Words {
  const WRAP := 0x1_0000_0000
  type U32 = n: nat | n < WRAP

  function Pow2(n: nat): (p: nat)
    ensures p > 0
  {
    if n == 0 then 1 else 2 * Pow2(n - 1)
  }

  // Doubling for every bit, which is all there is to it.
  lemma Pow2Once()
    ensures Pow2(0) == 1 && Pow2(1) == 2 && Pow2(10) == 1024
  {
    assert Pow2(4) == 16;
    assert Pow2(8) == 16 * Pow2(4);
  }

  lemma {:induction false} Pow2Adds(a: nat, b: nat)
    ensures Pow2(a + b) == Pow2(a) * Pow2(b)
  {
    if a > 0 {
      Pow2Adds(a - 1, b);
    }
  }

  datatype Option<T> = None | Some(value: T)
}
