/** Facts about integer division that the solver needs spelled out. */
module Arith {

  lemma MulStep(a: nat, b: nat, m: nat)
    requires a < b
    ensures a * m + m <= b * m
  {
    assert b * m == a * m + m + (b - a - 1) * m;
  }

  /** Quotient and remainder are determined by x == q * m + r with r < m. */
  lemma DivModUnique(x: nat, m: nat, q: nat, r: nat)
    requires m > 0 && x == q * m + r && r < m
    ensures x / m == q && x % m == r
  {
    var q', r' := x / m, x % m;
    assert x == q' * m + r';
    if q < q' {
      MulStep(q, q', m);
    } else if q > q' {
      MulStep(q', q, m);
    }
  }

  lemma QuotientNonnegative(x: nat, m: nat)
    requires m > 0
    ensures x / m >= 0
  {
  }

  lemma MulMod(q: nat, m: nat)
    requires m > 0
    ensures (q * m) % m == 0 && (q * m) / m == q
  {
    DivModUnique(q * m, m, q, 0);
  }

  lemma MulAssoc(a: int, b: int, c: int)
    ensures a * (b * c) == b * (a * c)
  {
  }

  lemma DivideTwice(n: nat, a: nat, b: nat)
    requires a > 0 && b > 0
    ensures a * b > 0 && n / a / b == n / (a * b)
  {
    var q, r := n / a, n % a;
    var t, u := q / b, q % b;
    MulStep(0, a, b);
    MulStep(u, b, a);
    MulAssoc(t, a, b);
    assert n == (t * b + u) * a + r == t * (a * b) + (u * a + r);
    DivModUnique(n, a * b, t, u * a + r);
  }
}
