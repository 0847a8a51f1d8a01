/** The facts about products and quotients that the bounds rest on. */
module Arithmetic {

  lemma MulMono(a: int, b: int, g: nat)
    requires a <= b
    ensures a * g <= b * g
  {
  }

  lemma Multiple(k: int, n: nat)
    ensures k >= 1 ==> k * n >= n
    ensures k <= -1 ==> k * n + n <= 0
  {
  }

  lemma Division(x: nat, n: nat)
    requires n > 0
    ensures x == x / n * n + x % n && x / n <= x
  {
    MulMono(1, n, x / n);
    assert n * (x / n) == x / n * n;
  }

  /** The quotient, rounded down. */
  function FloorDiv(n: nat, d: nat): nat
    requires d > 0
  {
    n / d
  }

  /** The quotient, rounded up. */
  function CeilDiv(n: nat, d: nat): nat
    requires d > 0
  {
    n / d + if n % d != 0 then 1 else 0
  }

  lemma CeilDivBounds(n: nat, d: nat)
    requires d > 0
    ensures n <= CeilDiv(n, d) * d < n + d && CeilDiv(n, d) <= n
  {
    var q, r := n / d, n % d;
    Division(n, d);
    assert (q + 1) * d == q * d + d;
    if r != 0 {
      QuotientIsLess(q, d, r, n);
    }
  }

  lemma QuotientIsLess(q: nat, d: nat, r: nat, n: nat)
    requires d > 0 && r > 0 && n == q * d + r
    ensures q < n
  {
    MulMono(1, d, q);
    assert q * d == d * q;
  }

  /** Quotient and remainder are the only ones. */
  lemma DivisionIs(x: nat, n: nat, q: nat, r: nat)
    requires n > 0 && r < n && x == q * n + r
    ensures x / n == q && x % n == r
  {
    var k: int := x / n;
    k := k - q;
    assert k * n == r - x % n;
    Multiple(k, n);
  }

  lemma DivBound(k: int, g: nat, span: nat)
    requires g > 0 && k * g <= span
    ensures k <= span / g
  {
    var q := span / g;
    assert span < (q + 1) * g;
    if k > q {
      MulMono(q + 1, k, g);
    }
  }

  lemma DivMono(a: nat, b: nat, g: nat)
    requires a <= b && g > 0
    ensures a / g <= b / g
  {
    Division(a, g);
    DivBound(a / g, g, b);
  }
}
