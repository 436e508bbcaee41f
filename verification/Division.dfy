/** Quotients and remainders of naturals, from their defining equation. */
module Division {
  lemma MulNext(q: nat, m: nat)
    ensures (q + 1) * m == q * m + m
  {}

  lemma {:induction false} QuotientsDiffer(m: nat, q: nat, r: nat, q': nat, r': nat)
    requires r < m && q < q'
    ensures q * m + r < q' * m + r'
  {
    MulNext(q' - 1, m);
    if q + 1 < q' { QuotientsDiffer(m, q, r, q' - 1, r'); }
  }

  lemma DivModUnique(n: nat, m: nat, q: nat, r: nat)
    requires m > 0 && r < m && n == q * m + r
    ensures n / m == q && n % m == r
  {
    if n / m < q { QuotientsDiffer(m, n / m, n % m, q, r); }
    if q < n / m { QuotientsDiffer(m, q, r, n / m, n % m); }
  }

  /** Halving and then dividing is dividing by the double. */
  lemma HalfQuotient(a: nat, p: nat)
    requires p > 0
    ensures (a / 2) / p == a / (2 * p)
  {
    var half, bit := a / 2, a % 2;
    var q, r := half / p, half % p;
    Doubled(half, bit, p, q, r);
    DivModUnique(a, 2 * p, q, 2 * r + bit);
  }

  lemma Doubled(half: nat, bit: nat, p: nat, q: nat, r: nat)
    requires half == q * p + r && r < p && bit < 2
    ensures 2 * half + bit == q * (2 * p) + (2 * r + bit) && 2 * r + bit < 2 * p
  {
    assert q * (2 * p) == 2 * (q * p);
  }

  /** A multiple of the divisor adds its factor to the quotient. */
  lemma QuotientOfSum(n: nat, p: nat, b: nat)
    requires p > 0
    ensures (n * p + b) / p == n + b / p
  {
    var q, r := b / p, b % p;
    assert (n + q) * p == n * p + q * p by { Distribute(n, q, p); }
    DivModUnique(n * p + b, p, n + q, r);
  }

  lemma Distribute(a: nat, b: nat, p: nat)
    ensures (a + b) * p == a * p + b * p
  {}

  lemma QuotientBelow(b: nat, p: nat, q: nat)
    requires p > 0 && b < q * p
    ensures b / p < q
  {
    if q < b / p { QuotientsDiffer(p, q, 0, b / p, b % p); }
  }

  lemma QuotientShrinks(a: nat, p: nat)
    requires p > 0
    ensures 0 <= a / p <= a
  {
    if a > 0 {
      MulGrows(a, p);
      QuotientBelow(a, p, a + 1);
    }
  }

  lemma {:induction false} MulGrows(a: nat, p: nat)
    requires p > 0
    ensures a < (a + 1) * p
  {
    MulNext(a, p);
    if a > 0 { MulGrows(a - 1, p); }
  }

  lemma {:induction false} MulMonotone(a: nat, b: nat, p: nat)
    requires a <= b
    ensures a * p <= b * p
  {
    if a < b {
      MulMonotone(a, b - 1, p);
      MulNext(b - 1, p);
    }
  }
}
