/** Word sizes, and facts about quotients and remainders that the solver does not find alone. */
module Arithmetic {

  const TWO_32: nat := 0x1_0000_0000
  const TWO_64: nat := 0x1_0000_0000_0000_0000

  lemma MultipleGrows(d: int, m: int)
    requires m > 0
    ensures (d > 0 ==> d * m >= m) && (d < 0 ==> d * m <= -m)
  {
  }

  /** Quotient and remainder are determined by being in range. */
  lemma DivisionIs(x: int, q: int, r: int, m: int)
    requires 0 <= r < m && x == q * m + r
    ensures x / m == q && x % m == r
  {
    var d := x / m - q;
    assert x == x / m * m + x % m;
    assert d * m == r - x % m;
    MultipleGrows(d, m);
  }
}
