/**
 * Small facts about natural-number products, quotients and remainders, kept
 * apart so that each index computation can call exactly the step it needs.
 */
module Arithmetic {

  lemma MulAddDistrib(x: nat, y: nat, p: nat)
    ensures (x + y) * p == x * p + y * p
    ensures p * (x + y) == p * x + p * y
  {
  }

  lemma MulAssoc4(n: nat, u: nat, s: nat, x: nat)
    ensures n * (u * s * x) == (n * u) * s * x
  {
  }

  lemma MulLe(a: nat, b: nat, p: nat)
    requires a <= b
    ensures a * p <= b * p
  {
  }

  lemma MulStrict(a: nat, b: nat, p: nat)
    requires a < b
    ensures a * p + p <= b * p
  {
    MulLe(a + 1, b, p);
  }

  lemma DivModUnique(q: nat, r: nat, p: nat)
    requires r < p
    ensures (q * p + r) / p == q
    ensures (q * p + r) % p == r
  {
    var x := q * p + r;
    var q', r' := x / p, x % p;
    assert x == q' * p + r';
    if q' < q {
      MulStrict(q', q, p);
    } else if q' > q {
      MulStrict(q, q', p);
    }
  }

  lemma DivBound(r: nat, p: nat, k: nat)
    requires p > 0 && r < p * k
    ensures r / p < k
  {
    assert r == (r / p) * p + r % p;
    if r / p >= k {
      MulLe(k, r / p, p);
    }
  }

  lemma Digits(r: nat, p: nat)
    requires p > 0
    ensures r == (r / p) * p + r % p && r % p < p
  {
  }

  lemma QuotientMonotone(m1: nat, m2: nat, P: nat)
    requires P > 0 && m1 < m2
    ensures m1 / P <= m2 / P
    ensures m1 / P == m2 / P ==> m1 % P < m2 % P
  {
    Digits(m1, P);
    Digits(m2, P);
    if m1 / P > m2 / P {
      MulStrict(m2 / P, m1 / P, P);
    }
  }

  lemma DivLower(a: nat, P: nat, size: nat)
    requires P > 0 && a * P <= size
    ensures a <= size / P
  {
    Digits(size, P);
    if a > size / P {
      MulStrict(size / P, a, P);
    }
  }

}
