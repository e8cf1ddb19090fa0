/** Quotients and remainders, where the solver needs a hand. */
module Arith {
  lemma MulSign(t: int, s: nat)
    requires s > 0
    ensures t >= 1 ==> t * s >= s
    ensures t <= -1 ==> t * s + s <= 0
  {
    if t >= 1 {
      assert t * s == (t - 1) * s + s;
    } else if t <= -1 {
      assert t * s == (t + 1) * s - s;
    }
  }

  /** Quotient and remainder are determined by the division equation. */
  lemma DivUnique(x: nat, q: nat, r: nat, s: nat)
    requires s > 0 && r < s && x == q * s + r
    ensures x / s == q && x % s == r
  {
    var t := q - x / s;
    assert t * s == q * s - x / s * s;
    MulSign(t, s);
  }
}
