// Facts about products and quotients.
module Arithmetic {
  lemma Scaled(c: nat, a: nat, b: nat)
    requires a <= b
    ensures c * a <= c * b
  {
  }

  lemma Quotient(q: nat, p: nat)
    requires p > 0
    ensures q * p / p == q
  {
    var d := q * p / p;
    assert 0 <= q * p - d * p < p;
    assert (q - d) * p == q * p - d * p;
    if q > d { Scaled(p, 1, q - d); }
  }

  lemma QuotientWithRest(q: nat, p: nat, r: nat)
    requires r < p
    ensures (q * p + r) / p == q
  {
    var d := (q * p + r) / p;
    assert 0 <= q * p + r - d * p < p;
    assert (q - d) * p == q * p - d * p;
    if q > d { Scaled(p, 1, q - d); }
    if q < d { Scaled(p, 1, d - q); }
  }

  lemma Distribute(a: nat, b: nat, p: nat, s: nat)
    ensures a * (b * p + s) == (b * a) * p + a * s
  {
    assert a * (b * p + s) == a * (b * p) + a * s;
    assert a * (b * p) == (b * a) * p;
  }

  lemma TwoQuotients(a: nat, b: nat, p: nat, s: nat, r: nat)
    requires r < a && s < b
    ensures b * a > 0 && (a * (b * p + s) + r) / (b * a) == p
  {
    Distribute(a, b, p, s);
    Scaled(a, s + 1, b);
    assert a * (s + 1) == a * s + a;
    var m := b * a;
    assert a * b == m;
    assert m * p == p * m;
    QuotientWithRest(p, m, a * s + r);
  }

  lemma Divided(n: nat, a: nat) returns (q: nat, r: nat)
    requires a > 0
    ensures q == n / a && r < a && n == a * q + r
  {
    q, r := n / a, n % a;
  }

  lemma DivideTwice(n: nat, a: nat, b: nat)
    requires a > 0 && b > 0
    ensures b * a > 0 && n / a / b == n / (b * a)
  {
    var q, r := Divided(n, a);
    var p, s := Divided(q, b);
    TwoQuotients(a, b, p, s, r);
  }
}
