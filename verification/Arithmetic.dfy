/** The few facts about products and quotients that the other modules need. */
module Arithmetic {

  lemma MulMono(a: nat, b: nat, m: nat)
    requires a <= b
    ensures a * m <= b * m
  {
    var d := b - a;
    assert b * m == a * m + d * m;
    assert d * m >= 0;
  }

  lemma ProductBound(a: nat, b: nat, c: nat, d: nat)
    requires a <= c && b <= d
    ensures a * b <= c * d
  {
    MulMono(a, c, b);
    MulMono(b, d, c);
  }

  lemma MulStep(a: nat, b: nat, m: nat)
    requires a < b
    ensures a * m + m <= b * m
  {
    MulMono(a + 1, b, m);
    assert (a + 1) * m == a * m + m;
  }

  lemma QuotientOrder(q: nat, r: nat, q': nat, r': nat, m: nat)
    requires q * m + r == q' * m + r' && r' < m
    ensures q <= q'
  {
    if q' < q { MulStep(q', q, m); }
  }

  /** Quotient and remainder are unique. */
  lemma DivUnique(n: nat, m: nat, q: nat, r: nat)
    requires m > 0 && n == q * m + r && r < m
    ensures n / m == q && n % m == r
  {
    var q', r' := n / m, n % m;
    assert n == q' * m + r';
    QuotientOrder(q, r, q', r', m);
    QuotientOrder(q', r', q, r, m);
  }

  lemma DivDiv(v: nat, m: nat, n: nat)
    requires m > 0 && n > 0
    ensures m * n > 0 && v / (m * n) == (v / m) / n
  {
    var q, r := v / m, v % m;
    var a, b := q / n, q % n;
    assert v == q * m + r;
    assert q == a * n + b;
    DivNested(v, m, n, a, b, r);
  }

  lemma DivNested(v: nat, m: nat, n: nat, a: nat, b: nat, r: nat)
    requires v == (a * n + b) * m + r && b < n && r < m
    ensures m * n > 0 && v / (m * n) == a
  {
    MulStep(b, n, m);
    MulMono(1, n, m);
    Nested(a, n, b, m);
    DivUnique(v, m * n, a, b * m + r);
  }

  lemma Nested(a: nat, n: nat, b: nat, m: nat)
    ensures (a * n + b) * m == a * (m * n) + b * m
  {
    assert (a * n + b) * m == a * n * m + b * m;
    assert a * n * m == a * (m * n);
  }

  lemma MulDiv(x: nat, m: nat)
    requires m > 0
    ensures (x * m) / m == x
  {
    DivUnique(x * m, m, x, 0);
  }

  lemma DoubleProduct(x: nat, y: nat)
    ensures (2 * x) * y == 2 * (x * y)
  {}
}
