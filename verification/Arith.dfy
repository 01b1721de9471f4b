/** Division and multiplication of naturals, where the solver needs help. */
module Arith {

  lemma ProductGrows(q: nat, d: nat)
    requires d > 0
    ensures q * d >= q
  {
  }

  lemma ProductMonotone(p: nat, q: nat, m: nat)
    requires p <= q
    ensures p * m <= q * m
  {
  }

  lemma Split(n: nat, m: nat)
    requires m > 0
    ensures n == (n / m) * m + n % m && 0 <= n % m < m && 0 <= n / m
  {
  }

  lemma DivisionIsUnique(n: nat, m: nat, q: nat, r: nat)
    requires m > 0 && r < m && n == q * m + r
    ensures n / m == q && n % m == r
  {
    var p, s := n / m, n % m;
    Split(n, m);
    if p > q {
      ProductMonotone(q + 1, p, m);
    } else if p < q {
      ProductMonotone(p + 1, q, m);
    }
  }

  lemma QuotientIsSmall(n: nat, d: nat)
    requires d > 0
    ensures 0 <= n / d <= n && n % d <= n
  {
    Split(n, d);
    ProductGrows(n / d, d);
  }

  lemma DivideInSteps(a: nat, b: nat, m: nat)
    requires m > 0
    ensures a / m + (a % m + b) / m == (a + b) / m
    ensures (a % m + b) % m == (a + b) % m
  {
    var q, t := a / m, a % m + b;
    Split(a, m);
    Split(t, m);
    assert q * m + (t / m) * m == (q + t / m) * m;
    DivisionIsUnique(a + b, m, q + t / m, t % m);
  }
}
