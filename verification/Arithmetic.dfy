/** Division facts. */
module Arithmetic {
  /** Go's integer division: it truncates toward zero. */
  function TruncatedQuotient(a: int, b: nat): int
    requires b > 0
  {
    if a >= 0 then a / b else -(-a / b)
  }

  lemma MultiplesOrdered(a: nat, b: nat, m: nat)
    ensures a <= b ==> a * m <= b * m
  {
  }

  lemma SplitProduct(k: nat, m: nat, d: nat)
    requires d > 0
    ensures k * m == k % d * m + d * (k / d * m)
  {
    assert k == k / d * d + k % d;
    assert (k / d * d) * m == d * (k / d * m);
  }

  lemma QuotientIs(n: nat, d: nat, q: nat)
    requires q * d <= n < (q + 1) * d
    ensures n / d == q
  {
    assert n == n / d * d + n % d;
    MultiplesOrdered(q + 1, n / d, d);
    MultiplesOrdered(n / d + 1, q, d);
  }

  lemma QuotientBack(q: nat, r: nat, d: nat)
    requires r < d
    ensures (q * d + r) / d == q
  {
    assert (q + 1) * d == q * d + d;
    QuotientIs(q * d + r, d, q);
  }

  lemma ModShift(n: nat, m: nat, q: nat)
    requires m > 0
    ensures (n + m * q) % m == n % m
    ensures (n + m * q) / m == n / m + q
  {
    assert n == n / m * m + n % m;
    assert (n / m + q) * m == n / m * m + m * q;
    QuotientIs(n + m * q, m, n / m + q);
  }

  /** Rounding up to a multiple gains one right after the multiples. */
  lemma UpToMultiple(n: nat, m: nat)
    requires m > 0
    ensures (n + m) / m == (n + (m - 1)) / m + if n % m == 0 then 1 else 0
  {
    var q, r := n / m, n % m;
    assert n == q * m + r && (q + 1) * m == q * m + m && (q + 2) * m == q * m + 2 * m;
    QuotientIs(n + m, m, q + 1);
    QuotientIs(n + (m - 1), m, if r == 0 then q else q + 1);
  }

  lemma PartOfMultiple(n: nat, a: nat, b: nat)
    requires a > 0 && b > 0
    ensures n % (a * b) == 0 ==> n % a == 0
  {
    if n % (a * b) == 0 {
      var q := n / (a * b);
      assert n == q * (a * b) == a * (q * b);
      ModShift(0, a, q * b);
    }
  }

  lemma ModLess(a: nat, m: nat)
    requires m > 0
    ensures a % m <= a
  {
  }

  /** Reading a growing number modulo m never shows more growth than there was. */
  lemma ModGrowth(a: nat, b: nat, m: nat)
    requires a <= b && m > 0
    ensures b % m - a % m <= b - a
  {
    assert a == a / m * m + a % m && b == b / m * m + b % m;
    MultiplesOrdered(b / m + 1, a / m, m);
    MultiplesOrdered(a / m, b / m, m);
  }
}
