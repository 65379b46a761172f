/** Products and quotients, for the parts that multiply or divide by what is not constant. */
module Arithmetic {
  lemma MulMono(a: int, b: int, h: int)
    requires h > 0
    ensures a <= b ==> a * h <= b * h
    ensures a < b ==> a * h + h <= b * h
  {
    if a < b {
      assert (b - a - 1) * h >= 0;
      assert b * h == a * h + h + (b - a - 1) * h;
    }
  }

  /** A quotient is the number whose multiples enclose the dividend. */
  lemma {:induction false} QuotientIs(a: int, m: int, q: int)
    requires m > 0
    ensures a / m == q <==> q * m <= a < q * m + m
  {
    var d := a / m;
    assert d * m <= a < d * m + m;
    MulMono(d, q, m);
    MulMono(q, d, m);
  }

  lemma Regrouped(r: int, a: int, b: int)
    ensures r * b * a == r * (a * b) && (r * b + b) * a == r * (a * b) + a * b
  {
    assert (r * b + b) * a == r * b * a + b * a;
  }

  lemma {:induction false} TwoSteps(m: nat, a: nat, b: nat, q: nat, r: nat, rb: int, ra: int, d: int)
    requires a > 0 && q * a <= m < q * a + a && rb <= q < rb + b
    requires rb * a == ra && (rb + b) * a == ra + d
    ensures ra <= m < ra + d
  {
    MulMono(rb, q, a);
    MulMono(q, rb + b, a);
  }

  /** Dividing in two steps. */
  lemma {:induction false} QuotientOfQuotient(m: nat, a: nat, b: nat)
    requires a > 0 && b > 0
    ensures a * b > 0 && m / (a * b) == m / a / b
  {
    var q, d := m / a, a * b;
    var r := q / b;
    MulMono(0, a, b);
    QuotientIs(m, a, q);
    QuotientIs(q, b, r);
    Regrouped(r, a, b);
    TwoSteps(m, a, b, q, r, r * b, r * d, d);
    QuotientIs(m, d, r);
  }
}
