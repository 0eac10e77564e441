/** Multiplication and division by a variable. */
module Arith {

  lemma MulMono(a: int, b: int, n: nat)
    requires a <= b
    ensures a * n <= b * n
  {
    assert b * n - a * n == (b - a) * n;
  }

  lemma MulStep(a: int, n: int)
    ensures (a + 1) * n == a * n + n
  {
  }

  lemma QuotientNat(a: nat, n: nat)
    requires n > 0
    ensures a / n >= 0
  {
    DivMod(a, n);
    if a / n < 0 {
      MulMono(a / n, -1, n);
    }
  }

  lemma UniqueSplit(n: nat, q: int, r: int, q': int, r': int)
    requires 0 <= r < n && 0 <= r' < n && q * n + r == q' * n + r'
    ensures q == q' && r == r'
  {
    if q < q' {
      MulMono(q + 1, q', n);
      MulStep(q, n);
    } else if q' < q {
      MulMono(q' + 1, q, n);
      MulStep(q', n);
    }
  }

  lemma DivMod(t: int, n: nat)
    requires n > 0
    ensures t == (t / n) * n + t % n && 0 <= t % n < n
  {
  }

  lemma DivisionUnique(n: nat, q: int, r: int)
    requires 0 <= r < n
    ensures (q * n + r) / n == q && (q * n + r) % n == r
  {
    var t := q * n + r;
    DivMod(t, n);
    UniqueSplit(n, q, r, t / n, t % n);
  }

  /** Below n squared, the quotient by n is below n. */
  lemma SquareQuotient(n: nat, q: int, r: int)
    requires 0 <= q && 0 <= r < n
    ensures q * n + r < n * n <==> q < n
  {
    if q < n {
      MulMono(q + 1, n, n);
      MulStep(q, n);
    } else {
      MulMono(n, q, n);
    }
  }

  lemma PositiveFactor(a: nat, b: nat)
    requires a * b > 0
    ensures a > 0 && b > 0
  {
  }
}
