/** Products and quotients, kept apart from the proofs that use them. */
module Arithmetic {

  function Product(a: nat, b: nat): nat {
    a * b
  }

  function Quotient(a: nat, b: nat): nat
    requires b > 0
  {
    a / b
  }

  function Remainder(a: nat, b: nat): (r: nat)
    requires b > 0
    ensures r < b
  {
    a % b
  }

  lemma AtLeastOnce(d: nat, n: nat)
    requires d >= 1
    ensures d * n >= n
  {
    assert d * n == (d - 1) * n + n;
  }

  lemma Apart(a: nat, b: nat, n: nat)
    requires a < b
    ensures a * n + n <= b * n
  {
    AtLeastOnce(b - a, n);
    assert b * n == a * n + (b - a) * n;
  }

  lemma SameQuotient(q: nat, r: nat, q': nat, r': nat, n: nat)
    requires q * n + r == q' * n + r' && r < n && r' < n
    ensures q == q' && r == r'
  {
    if q < q' {
      Apart(q, q', n);
    }
    if q' < q {
      Apart(q', q, n);
    }
  }

  lemma QuotientIs(x: nat, n: nat, q: nat, r: nat)
    requires n >= 1 && x == Product(q, n) + r && r < n
    ensures Quotient(x, n) == q && Remainder(x, n) == r
  {
    SameQuotient(x / n, x % n, q, r, n);
  }

  lemma QuotientOf(x: nat, n: nat)
    requires n >= 1
    ensures x == Product(Quotient(x, n), n) + Remainder(x, n)
  {
  }

  lemma ProductNext(a: nat, n: nat)
    ensures Product(a + 1, n) == Product(a, n) + n
  {
  }

  lemma ProductGrows(a: nat, b: nat, n: nat)
    requires a <= b
    ensures Product(a, n) <= Product(b, n)
  {
    if a < b {
      Apart(a, b, n);
    }
  }
}
