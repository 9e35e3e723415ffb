/** Products, quotients and sizes. */
module Arithmetic {

  lemma Product(n: int, d: int)
    requires n > 0 && d >= 0
    ensures n * d >= 0 && n * (d + 1) == n * d + n && n * (-d - 1) == -(n * d) - n
  {
  }

  lemma Quotient(x: int, q: int, n: int)
    requires n > 0 && q * n <= x < q * n + n
    ensures q == x / n
  {
    var d := x / n - q;
    assert x == x / n * n + x % n;
    assert n * d == x - x % n - q * n;
    if d > 0 {
      Product(n, d - 1);
    } else if d < 0 {
      Product(n, -d - 1);
    }
  }

  lemma TimesAdd(a: real, b: real, rate: real)
    ensures (a + b) * rate == a * rate + b * rate
  {
  }

  lemma TimesCommutes(a: real, b: real)
    ensures a * b == b * a
  {
  }

  lemma TimesNonNegative(a: real, rate: real)
    requires a >= 0.0 && rate >= 0.0
    ensures a * rate >= 0.0
  {
  }

  lemma TimesGrows(shorter: real, longer: real, rate: real)
    requires shorter <= longer && rate >= 0.0
    ensures shorter * rate <= longer * rate
  {
    TimesNonNegative(longer - shorter, rate);
    TimesAdd(shorter, longer - shorter, rate);
  }

  lemma SubsetSize<T>(a: set<T>, b: set<T>)
    requires a <= b
    ensures |a| <= |b|
  {
    assert b == a + (b - a);
  }
}
