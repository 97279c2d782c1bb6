/** Division with remainder, and 64-bit addition as addition modulo 2^64. */
module Arithmetic {
  import opened Common

  lemma MulAtLeast(m: nat, d: int)
    requires d >= 1
    ensures d * m >= m
  {
    assert d * m == m + (d - 1) * m;
  }

  /** Quotient and remainder are unique. */
  lemma DivMod(x: int, m: nat, q: int, r: nat)
    requires r < m && x == q * m + r
    ensures x / m == q && x % m == r
  {
    var q', r' := x / m, x % m;
    assert x == q' * m + r';
    assert (q - q') * m == r' - r && (q' - q) * m == r - r';
    if q > q' {
      MulAtLeast(m, q - q');
    } else if q < q' {
      MulAtLeast(m, q' - q);
    }
  }

  lemma Add64Mod(x: nat, y: Uint64)
    ensures Add64(x % TWO64, y) == (x + y) % TWO64
  {
    var q, r := x / TWO64, x % TWO64;
    if r + y < TWO64 {
      DivMod(x + y, TWO64, q, r + y);
    } else {
      DivMod(x + y, TWO64, q + 1, r + y - TWO64);
    }
  }
}
