/** Facts about quotients and remainders that the solver needs spelled out. */
module Arithmetic {

  lemma MultiplesAreApart(m: nat, r: nat, a: nat)
    requires a > 0 && m % a == 0 && r % a == 0
    ensures m < r ==> m + a <= r
  {
    Quotient(r, a);
    Quotient(m, a);
    NextMultiple(m / a, r / a, a);
    if m < r {
      NextMultiple(r / a, m / a, a);
    }
  }

  lemma Quotient(x: nat, a: nat)
    requires a > 0
    ensures x == x / a * a + x % a && 0 <= x % a < a && x / a >= 0
  {
  }

  lemma QuotientIsNatural(x: nat, a: nat)
    requires a > 0
    ensures x / a >= 0
  {
    Quotient(x, a);
  }

  lemma NextMultiple(k: nat, q: nat, a: nat)
    ensures k < q ==> k * a + a <= q * a
  {
    if k < q {
      assert q * a == (q - 1) * a + a;
      NextMultiple(k, q - 1, a);
    }
  }

  lemma QuotientIsUnique(x: nat, q: nat, r: nat, a: nat)
    requires a > 0 && r < a && x == q * a + r
    ensures x / a == q && x % a == r
  {
    Quotient(x, a);
    NextMultiple(x / a, q, a);
    NextMultiple(q, x / a, a);
  }

  /** Dividing by d and then by 10 is dividing by 10 * d. */
  lemma DivideTwice(n: nat, d: nat)
    requires d > 0
    ensures n / (d * 10) == n / d / 10
  {
    var q := n / d;
    var r := q % 10 * d + n % d;
    Quotient(n, d);
    NextMultiple(q % 10, 10, d);
    assert q * d == q / 10 * 10 * d + q % 10 * d by {
      Distribute(q / 10 * 10, q % 10, d);
    }
    assert q / 10 * 10 * d == q / 10 * (d * 10);
    QuotientIsUnique(n, q / 10, r, d * 10);
  }

  lemma Distribute(x: nat, y: nat, d: nat)
    ensures (x + y) * d == x * d + y * d
  {
  }

  /** n is a multiple of a, in terms the solver can follow: take a away until nothing is left. */
  predicate IsMultiple(n: nat, a: nat)
    requires a > 0
  {
    n == 0 || (n >= a && IsMultiple(n - a, a))
  }

  lemma {:induction false} IsMultipleMeaning(n: nat, a: nat)
    requires a > 0
    ensures IsMultiple(n, a) <==> n % a == 0
  {
    Quotient(n, a);
    if n < a {
      QuotientIsUnique(n, 0, n, a);
    } else {
      IsMultipleMeaning(n - a, a);
      Quotient(n - a, a);
      QuotientIsUnique(n, (n - a) / a + 1, (n - a) % a, a);
    }
  }

  lemma {:induction false} SumOfMultiples(x: nat, y: nat, a: nat)
    requires a > 0 && IsMultiple(x, a) && IsMultiple(y, a)
    ensures IsMultiple(x + y, a)
  {
    if x > 0 {
      SumOfMultiples(x - a, y, a);
    }
  }
}
