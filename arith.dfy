/** Facts about integer multiplication and floor division shared by the
    byte decomposition and the frame sampling. Each is proved from the
    defining equation of `/` and `%` in small steps. */
module Arith {

  function Min(a: int, b: int): int {
    if a <= b then a else b
  }

  function Max(a: int, b: int): int {
    if a >= b then a else b
  }

  lemma DivModDef(x: int, m: int)
    requires m > 0
    ensures x == m * (x / m) + x % m && 0 <= x % m < m
  {
  }

  lemma MulAtLeast(m: int, d: int)
    requires m > 0 && d >= 1
    ensures m * d >= m
  {
  }

  lemma MulMono(a: int, b: int, c: int)
    requires a <= b && c >= 0
    ensures a * c <= b * c
  {
    assert b * c - a * c == (b - a) * c;
  }

  lemma MulSplit(m: int, p: int, q: int)
    ensures m * p == m * q + m * (p - q)
  {
  }

  /** Quotient and remainder are the only such pair. */
  lemma DivModUnique(x: int, m: int, q: int, r: int)
    requires m > 0 && 0 <= r < m && x == m * q + r
    ensures x / m == q && x % m == r
  {
    var q' := x / m;
    DivModDef(x, m);
    if q > q' {
      MulSplit(m, q, q');
      MulAtLeast(m, q - q');
    } else if q < q' {
      MulSplit(m, q', q);
      MulAtLeast(m, q' - q);
    }
  }

  lemma DivNonNeg(x: int, m: int)
    requires x >= 0 && m > 0
    ensures x / m >= 0
  {
    DivModDef(x, m);
  }

  /** Floor division by a positive number is monotone. */
  lemma DivMono(a: int, b: int, m: int)
    requires a <= b && m > 0
    ensures a / m <= b / m
  {
    var qa, qb := a / m, b / m;
    DivModDef(a, m);
    DivModDef(b, m);
    if qa > qb {
      MulSplit(m, qa, qb);
      MulAtLeast(m, qa - qb);
    }
  }

  /** Numerators at least `m` apart give quotients at least one apart. */
  lemma DivGap(a: int, b: int, m: int)
    requires a + m <= b && m > 0
    ensures a / m + 1 <= b / m
  {
    DivModDef(a, m);
    assert a + m == m * (a / m + 1) + a % m;
    DivModUnique(a + m, m, a / m + 1, a % m);
    DivMono(a + m, b, m);
  }

  lemma MulAssocDistrib(a: int, b: int, q: int, r: int)
    ensures a * (b * q + r) == (a * b) * q + a * r
  {
  }

  lemma RemBound(a: int, b: int, r2: int, r: int)
    requires 0 <= r2 < b && 0 <= r < a
    ensures a * r2 + r < a * b
  {
    MulMono(r2, b - 1, a);
    assert (b - 1) * a == a * b - a;
  }

  /** Dividing by `a * b` is dividing by `a`, then by `b`; the remainder splits likewise. */
  lemma DivModNested(x: int, a: int, b: int)
    requires a > 0 && b > 0
    ensures x / (a * b) == (x / a) / b
    ensures x % (a * b) == x % a + a * ((x / a) % b)
  {
    var q, r := x / a, x % a;
    var q2, r2 := q / b, q % b;
    DivModDef(x, a);
    DivModDef(q, b);
    MulAssocDistrib(a, b, q2, r2);
    RemBound(a, b, r2, r);
    MulAtLeast(a, b);
    DivModUnique(x, a * b, q2, a * r2 + r);
  }
}
