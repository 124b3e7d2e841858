// Page arithmetic: offsets rounded to the page size of the store.
module Paging {

  predicate Aligned(x: int, ps: nat)
    requires ps > 0
  {
    x % ps == 0
  }

  // The offset of the page that holds byte `x`.
  function PageOf(x: nat, ps: nat): (p: nat)
    requires ps > 0
    ensures p <= x < p + ps && Aligned(p, ps) && x - p == x % ps
  {
    AlignedAt(x / ps, ps);
    x - x % ps
  }

  lemma AlignedAt(q: int, ps: nat)
    requires ps > 0
    ensures Aligned(q * ps, ps)
  {
    Quotient(q * ps, q, 0, ps);
  }

  // Uniqueness of quotient and remainder.
  lemma Quotient(x: int, q: int, r: int, ps: nat)
    requires ps > 0 && x == q * ps + r && 0 <= r < ps
    ensures x / ps == q && x % ps == r
  {
    var q', r' := x / ps, x % ps;
    assert x == q' * ps + r';
    Distributes(q, q', ps);
    if q > q' {
      AtLeast(q - q', ps);
    } else if q < q' {
      AtLeast(q' - q, ps);
      Distributes(q', q, ps);
    }
  }

  lemma Distributes(a: int, b: int, m: int)
    ensures (a - b) * m == a * m - b * m && (a + b) * m == a * m + b * m
  {}

  lemma AtLeast(k: int, m: nat)
    requires k >= 1
    ensures k * m >= m
  {}

  lemma Grows(a: nat, b: nat, m: nat)
    requires a <= b
    ensures a * m <= b * m
  {}

  lemma QuotientGrows(a: nat, b: nat, m: nat)
    requires m > 0 && a <= b
    ensures a / m <= b / m
  {
    var p, q := a / m, b / m;
    assert a == p * m + a % m && b == q * m + b % m;
    if q < p {
      AtLeast(p - q, m);
      Distributes(p, q, m);
    }
  }

  lemma QuotientTwice(x: nat, a: nat, b: nat)
    requires a > 0 && b > 0
    ensures a * b > 0 && x / (a * b) == x / a / b
  {
    var p := x / a;
    Nested(x, p, x % a, p / b, p % b, a, b);
  }

  lemma Nested(x: nat, p: nat, s: nat, q: nat, r: nat, a: nat, b: nat)
    requires s < a && r < b && x == p * a + s && p == q * b + r
    ensures a * b > 0 && x / (a * b) == q
  {
    Grows(r, b - 1, a);
    Distributes(b, 1, a);
    Product(q, b, r, a);
    Quotient(x, q, r * a + s, a * b);
  }

  lemma Product(q: nat, b: nat, r: nat, a: nat)
    requires a > 0 && b > 0
    ensures (q * b + r) * a == q * (a * b) + r * a && a * b == b * a > 0
  {
    AtLeast(b, a);
  }

  lemma AlignedSum(a: int, b: int, ps: nat)
    requires ps > 0 && Aligned(a, ps) && Aligned(b, ps)
    ensures Aligned(a + b, ps) && Aligned(a - b, ps)
  {
    var p, q := a / ps, b / ps;
    assert a + b == (p + q) * ps && a - b == (p - q) * ps;
    AlignedAt(p + q, ps);
    AlignedAt(p - q, ps);
  }

  // Distinct aligned offsets are at least a page apart.
  lemma PagesApart(a: int, b: int, ps: nat)
    requires ps > 0 && Aligned(a, ps) && Aligned(b, ps) && a < b
    ensures a + ps <= b
  {
    AlignedSum(b, a, ps);
    var q := (b - a) / ps;
    assert b - a == q * ps;
    AtLeast(q, ps);
  }

  lemma PageOfWithin(x: nat, p: nat, ps: nat)
    requires ps > 0 && Aligned(p, ps) && p <= x < p + ps
    ensures PageOf(x, ps) == p
  {
    if PageOf(x, ps) < p {
      PagesApart(PageOf(x, ps), p, ps);
    } else if p < PageOf(x, ps) {
      PagesApart(p, PageOf(x, ps), ps);
    }
  }

  // An aligned offset at or below `x` is at or below the page of `x`.
  lemma PageOfAbove(a: nat, x: nat, ps: nat)
    requires ps > 0 && Aligned(a, ps) && a <= x
    ensures a <= PageOf(x, ps)
  {
    if PageOf(x, ps) < a {
      PagesApart(PageOf(x, ps), a, ps);
    }
  }

  // The first aligned offset at or above `x`.
  function NextPage(x: nat, ps: nat): (n: nat)
    requires ps > 0
    ensures x <= n < x + ps && Aligned(n, ps)
    ensures n == if Aligned(x, ps) then x else PageOf(x, ps) + ps
  {
    if Aligned(x, ps) then x
    else
      AlignedAt(1, ps);
      AlignedSum(PageOf(x, ps), ps, ps);
      PageOf(x, ps) + ps
  }

  lemma NextPageGrows(a: nat, b: nat, ps: nat)
    requires ps > 0 && a <= b
    ensures NextPage(a, ps) <= NextPage(b, ps)
  {
    if NextPage(b, ps) < NextPage(a, ps) {
      PagesApart(NextPage(b, ps), NextPage(a, ps), ps);
    }
  }
}
