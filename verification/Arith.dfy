/** Facts about products, quotients and remainders that the solver does not find unaided. */
module Arith {

  lemma MulMono(a: nat, b: nat, c: nat)
    requires a <= b
    ensures 0 <= a * c <= b * c
  {
    assert b * c == a * c + (b - a) * c;
  }

  lemma MulStep(q: int, q': int, d: int)
    requires q' < q && 0 < d
    ensures q * d >= q' * d + d
  {
    MulMono(1, q - q', d);
    assert q * d == q' * d + (q - q') * d;
  }

  lemma SameQuotient(d: int, q: int, r: int, q': int, r': int)
    requires 0 <= r < d && 0 <= r' < d && q * d + r == q' * d + r'
    ensures q == q' && r == r'
  {
    if q' < q {
      MulStep(q, q', d);
    } else if q < q' {
      MulStep(q', q, d);
    }
  }

  lemma DivModUnique(x: int, d: int, q: int, r: int)
    requires 0 <= r < d && x == q * d + r
    ensures x / d == q && x % d == r
  {
    SameQuotient(d, q, r, x / d, x % d);
  }

  /** Splitting by `a * b` and then by `b` leaves the same remainder as splitting by `b`. */
  lemma NestedMod(x: nat, a: nat, b: nat)
    requires a > 0 && b > 0
    ensures a * b > 0
    ensures x % (a * b) / b < a
    ensures x % (a * b) % b == x % b
    ensures x == x / (a * b) * (a * b) + x % (a * b)
  {
    MulMono(1, a, b);
    var q, r := x / (a * b), x % (a * b);
    var q2, r2 := r / b, r % b;
    assert q * (a * b) == q * a * b;
    assert x == (q * a + q2) * b + r2 by {
      assert (q * a + q2) * b == q * a * b + q2 * b;
    }
    DivModUnique(x, b, q * a + q2, r2);
  }
}
