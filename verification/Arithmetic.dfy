/** Facts about products and quotients that the solver is given one at a time. */
module Arithmetic {

  function Abs(n: int): nat {
    if n < 0 then -n else n
  }

  lemma MulScale(v: int, p: int, k: int)
    ensures k * (v * p) == v * (k * p)
  {
  }

  lemma RealScale(v: real, p: real, k: real)
    ensures k * (v * p) == v * (k * p) == (v * k) * p
  {
  }

  lemma MulOrder(a: int, b: int, p: int)
    requires a <= b && 0 <= p
    ensures a * p <= b * p
    ensures a < b && 0 < p ==> a * p < b * p
  {
    assert (b - a) * p == b * p - a * p;
  }

  lemma DivisionLaw(m: int, p: int)
    requires p > 0
    ensures m == (m / p) * p + m % p && 0 <= m % p < p
    ensures m >= 0 ==> m / p >= 0
  {
  }

  lemma DivModUnique(m: int, p: int, q: int, r: int)
    requires m == q * p + r && 0 <= r < p
    ensures m / p == q && m % p == r
  {
    DivisionLaw(m, p);
    var q', r' := m / p, m % p;
    assert (q - q') * p == r' - r;
    if q < q' { MulOrder(q - q', -1, p); }
    if q > q' { MulOrder(1, q - q', p); }
  }

  lemma CancelRight(a: int, b: int, p: int)
    requires p >= 1 && a * p == b * p
    ensures a == b
  {
    if a < b { MulOrder(a, b, p); }
    if b < a { MulOrder(b, a, p); }
  }

  lemma Tenfold(n: int, q: int)
    requires n == 10 * q
    ensures n % 10 == 0
  {
  }

  lemma TenMultiple(n: int, a: int, w: int, q: int)
    requires n == a * w && w == 10 * q
    ensures n % 10 == 0
  {
    assert n == 10 * (a * q);
  }
}
