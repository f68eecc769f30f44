/** Numbers that several modules need. */
module Arith {
  const W32: nat := 0x1_0000_0000

  function Pow2(e: nat): nat {
    if e == 0 then 1 else 2 * Pow2(e - 1)
  }

  /** Multiples of m are at least m apart. */
  lemma {:induction false} Spaced(i: nat, j: nat, m: nat)
    requires i < j
    ensures i * m + m <= j * m
    decreases j
  {
    assert j * m == (j - 1) * m + m;
    if i < j - 1 {
      Spaced(i, j - 1, m);
    }
  }
}
