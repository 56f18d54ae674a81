/**
Products and rounded quotients of natural numbers. Floor and ceiling division are
used only through the two Galois connections proved here, so that every later
proof is about products.
*/
module Arith {

  /** d is at most b away from zero. */
  ghost predicate Within(d: int, b: nat) {
    0 - b <= d <= b
  }

  lemma Distribute(a: int, b: int, d: int)
    ensures (a + b) * d == a * d + b * d
  {
  }

  lemma MulMono(a: nat, b: nat, c: nat)
    requires a <= b
    ensures a * c <= b * c && c * a <= c * b
  {
    assert 0 <= (b - a) * c;
  }

  lemma MulCancel(a: nat, b: nat, c: nat)
    requires a * c <= b * c && c > 0
    ensures a <= b
  {
    if a > b {
      MulMono(b + 1, a, c);
    }
  }

  lemma MulBound(a: nat, b: nat, m: nat)
    requires a <= m && b <= m
    ensures 0 <= a * b <= m * m
  {
    MulMono(a, m, b);
    MulMono(b, m, m);
  }

  lemma DivMod(n: nat, d: nat)
    requires d > 0
    ensures n == (n / d) * d + n % d && 0 <= n % d < d && 0 <= n / d
  {
  }

  /** Floor division is the greatest c with c * d <= n. */
  lemma FloorGalois(c: nat, n: nat, d: nat)
    requires d > 0
    ensures c <= n / d <==> c * d <= n
  {
    DivMod(n, d);
    var q := n / d;
    Distribute(q, 1, d);
    if c <= q {
      MulMono(c, q, d);
    } else {
      MulMono(q + 1, c, d);
    }
  }

  lemma FloorGaloisSum(c: nat, n: nat, d: nat, e: nat)
    requires d > 0
    ensures c <= n / (d + e) <==> c * d + c * e <= n
  {
    FloorGalois(c, n, d + e);
    assert c * (d + e) == c * d + c * e;
  }

  /** Dividing out a surcharge leaves at most the amount. */
  lemma QuotientAtMost(n: nat, d: nat, e: nat)
    requires d > 0
    ensures 0 <= n * d / (d + e) <= n
  {
    DivMod(n * d, d + e);
    var q := n * d / (d + e);
    FloorGaloisSum(q, n * d, d, e);
    assert 0 <= q * e;
    MulCancel(q, n, d);
  }

  /** Quotient rounded up, as `div_ceil` computes it. */
  function CeilDiv(n: nat, d: nat): (q: nat)
    requires d > 0
  {
    if n % d == 0 then n / d else n / d + 1
  }

  /** Ceiling division is the least c with n <= c * d. */
  lemma CeilGalois(c: nat, n: nat, d: nat)
    requires d > 0
    ensures CeilDiv(n, d) <= c <==> n <= c * d
  {
    DivMod(n, d);
    var q := n / d;
    Distribute(q, 1, d);
    if q < c {
      MulMono(q + 1, c, d);
    } else if c < q {
      Distribute(c, 1, d);
      MulMono(c + 1, q, d);
    }
  }

  /** What a quotient rounded up says about itself. */
  lemma CeilBounds(n: nat, d: nat)
    requires d > 0
    ensures n <= CeilDiv(n, d) * d
    ensures CeilDiv(n, d) > 0 ==> (CeilDiv(n, d) - 1) * d < n
  {
    CeilGalois(CeilDiv(n, d), n, d);
    if CeilDiv(n, d) > 0 {
      CeilGalois(CeilDiv(n, d) - 1, n, d);
    }
  }

  lemma QuotientInterval(n: nat, d: nat, q: nat)
    requires d > 0
    ensures n / d == q <==> q * d <= n < (q + 1) * d
  {
    FloorGalois(q, n, d);
    FloorGalois(q + 1, n, d);
  }

  lemma QuotientUnique(n: nat, d: nat, q: nat, r: nat)
    requires d > 0 && n == q * d + r && r < d
    ensures n / d == q && n % d == r
  {
    Distribute(q, 1, d);
    QuotientInterval(n, d, q);
    DivMod(n, d);
  }

  lemma DivMono(m: nat, n: nat, d: nat)
    requires d > 0 && m <= n
    ensures m / d <= n / d
  {
    var q := m / d;
    FloorGalois(q, m, d);
    FloorGalois(q, n, d);
  }

  lemma CeilMono(m: nat, n: nat, d: nat)
    requires d > 0 && m <= n
    ensures CeilDiv(m, d) <= CeilDiv(n, d)
  {
    CeilBounds(n, d);
    CeilGalois(CeilDiv(n, d), m, d);
  }

  /** Rounding up is subadditive. */
  lemma CeilAddUpper(m: nat, n: nat, d: nat)
    requires d > 0
    ensures CeilDiv(m + n, d) <= CeilDiv(m, d) + CeilDiv(n, d)
  {
    var a, b := CeilDiv(m, d), CeilDiv(n, d);
    CeilGalois(a, m, d);
    CeilGalois(b, n, d);
    Distribute(a, b, d);
    CeilGalois(a + b, m + n, d);
  }

  /** Two quotients rounded up separately exceed the joint one by at most one. */
  lemma CeilAddLower(m: nat, n: nat, d: nat)
    requires d > 0
    ensures CeilDiv(m, d) + CeilDiv(n, d) <= CeilDiv(m + n, d) + 1
  {
    var a, b, s := CeilDiv(m, d), CeilDiv(n, d), CeilDiv(m + n, d);
    CeilGalois(s, m + n, d);
    if a > 0 && b > 0 {
      CeilGalois(a - 1, m, d);
      CeilGalois(b - 1, n, d);
      Distribute(a - 1, b - 1, d);
      MulCancelStrict(a - 1 + b - 1, s, d);
    } else {
      CeilMono(m, m + n, d);
      CeilMono(n, m + n, d);
    }
  }

  lemma MulCancelStrict(a: nat, b: nat, c: nat)
    requires a * c < b * c
    ensures a < b
  {
    if b <= a {
      MulMono(b, a, c);
    }
  }
}
