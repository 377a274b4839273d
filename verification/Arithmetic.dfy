/** Division with remainder, for divisors and factors that are not literals. */
module Arithmetic {

  lemma MulMonotonic(k: int, x: int, y: int)
    requires 0 <= k && x <= y
    ensures k * x <= k * y
  {
  }

  /** Quotient and remainder are the only numbers of their kind. */
  lemma DivModUnique(x: int, q: int, r: int, m: int)
    requires m > 0 && 0 <= r < m && x == m * q + r
    ensures x / m == q && x % m == r
  {
    var p := x / m - q;
    assert m * p == r - x % m;
    assert p > 0 ==> m * p >= m;
    assert p < 0 ==> m * p <= -m;
  }

  lemma ModShift(x: int, k: int, m: int)
    requires m > 0
    ensures (x - m * k) % m == x % m
  {
    var q := x / m;
    assert x - m * k == m * (q - k) + x % m;
    DivModUnique(x - m * k, q - k, x % m, m);
  }

  /** Counting up by one moves the remainder on, or wraps it and moves the quotient on. */
  lemma DivModSucc(x: int, m: int)
    requires m > 0
    ensures if x % m == m - 1 then (x + 1) / m == x / m + 1 && (x + 1) % m == 0
            else (x + 1) / m == x / m && (x + 1) % m == x % m + 1
  {
    assert x == m * (x / m) + x % m;
    if x % m == m - 1 {
      assert m * (x / m + 1) == m * (x / m) + m;
      DivModUnique(x + 1, x / m + 1, 0, m);
    } else {
      DivModUnique(x + 1, x / m, x % m + 1, m);
    }
  }
}
