/**
 What it means that a number is exactly x^y for a rational y, stated without roots, and the closed forms in which
 `_power_exact` finds such numbers.
 */
module ExactPowers {
  import opened Arithmetic
  import opened DecimalAdd
  import opened DecimalSpec
  import opened Digits
  import opened Powers

  // ---------- what an exact power is ----------

  /** |y| = m/n */
  predicate IsRatio(y: real, m: nat, n: nat) {
    n >= 1 && AbsReal(y) * n as real == m as real
  }

  /** r == x^(m/n), or x^(-m/n) when `neg`, stated without roots. */
  predicate PowerAt(x: real, neg: bool, m: nat, n: nat, r: real) {
    if neg then RPow(r, n) * RPow(x, m) == 1.0 else RPow(r, n) == RPow(x, m)
  }

  /** `r` is the positive number x^y. */
  ghost predicate IsPower(x: real, y: real, r: real) {
    r > 0.0 && exists m: nat, n: nat :: IsRatio(y, m, n) && PowerAt(x, y < 0.0, m, n, r)
  }

  lemma {:induction false} RPowPositive(b: real, n: nat)
    requires b > 0.0
    ensures RPow(b, n) > 0.0
  {
    if n != 0 {
      RPowPositive(b, n - 1);
      SignOfProduct(b, RPow(b, n - 1));
    }
  }

  lemma {:induction false} RPowAdd(b: real, m: nat, n: nat)
    ensures RPow(b, m + n) == RPow(b, m) * RPow(b, n)
  {
    if m != 0 {
      RPowAdd(b, m - 1, n);
      RealAssociates(b, RPow(b, m - 1), RPow(b, n));
    }
  }

  lemma {:induction false} RPowMul(b: real, m: nat, n: nat)
    ensures 0 <= m * n && RPow(b, m * n) == RPow(RPow(b, m), n)
  {
    if n != 0 {
      RPowMul(b, m, n - 1);
      assert m * n == m + m * (n - 1);
      RPowAdd(b, m, m * (n - 1));
    }
  }

  lemma {:induction false} RPowOrder(a: real, b: real, n: nat)
    requires 0.0 < a < b && n >= 1
    ensures RPow(a, n) < RPow(b, n)
  {
    RPowPositive(a, n - 1);
    RPowPositive(b, n - 1);
    if n > 1 {
      RPowOrder(a, b, n - 1);
    }
    ProductOrder(a, b, RPow(a, n - 1), RPow(b, n - 1));
  }

  lemma ProductOrder(a: real, b: real, p: real, q: real)
    requires 0.0 < a < b && 0.0 < p <= q
    ensures a * p < b * q
  {
    StrictScale(a, b, p);
    WeakScale(p, q, b);
  }

  lemma StrictScale(a: real, b: real, k: real)
    requires a < b && 0.0 < k
    ensures a * k < b * k
  {
    assert (b - a) * k == b * k - a * k;
    SignOfProduct(b - a, k);
  }

  lemma WeakScale(p: real, q: real, k: real)
    requires p <= q && 0.0 < k
    ensures k * p <= k * q
  {
    assert k * (q - p) == k * q - k * p;
    SignOfProduct(k, q - p);
  }

  /** There is at most one exact power. */
  lemma PowerUnique(x: real, y: real, r: real, r': real)
    requires x > 0.0 && IsPower(x, y, r) && IsPower(x, y, r')
    ensures r == r'
  {
    var m: nat, n: nat :| IsRatio(y, m, n) && PowerAt(x, y < 0.0, m, n, r);
    var m': nat, n': nat :| IsRatio(y, m', n') && PowerAt(x, y < 0.0, m', n', r');
    CrossRatio(y, m, n, m', n');
    RaisePower(x, y < 0.0, m, n, r, n');
    RaisePower(x, y < 0.0, m', n', r', n);
    SamePower(r, r', n * n', RPow(x, m * n'), y < 0.0);
  }

  lemma CrossRatio(y: real, m: nat, n: nat, m': nat, n': nat)
    requires IsRatio(y, m, n) && IsRatio(y, m', n')
    ensures m * n' == m' * n && n * n' == n' * n && n * n' >= 1
  {
    var a := AbsReal(y);
    IntProduct(m, n');
    IntProduct(m', n);
    assert (a * n as real) * n' as real == (a * n' as real) * n as real;
    MulOrder(1, n, n');
  }

  lemma RaisePower(x: real, neg: bool, m: nat, n: nat, r: real, k: nat)
    requires PowerAt(x, neg, m, n, r)
    ensures 0 <= m * k && 0 <= n * k && PowerAt(x, neg, m * k, n * k, r)
  {
    RPowMul(r, n, k);
    RPowMul(x, m, k);
    if neg {
      RPowProduct(RPow(r, n), RPow(x, m), 1.0, k);
      OnePower(k);
    }
  }

  lemma {:induction false} OnePower(k: nat)
    ensures RPow(1.0, k) == 1.0
  {
    if k != 0 { OnePower(k - 1); }
  }

  lemma SamePower(r: real, r': real, n: nat, w: real, neg: bool)
    requires r > 0.0 && r' > 0.0 && n >= 1
    requires if neg then RPow(r, n) * w == 1.0 && RPow(r', n) * w == 1.0 else RPow(r, n) == w && RPow(r', n) == w
    ensures r == r'
  {
    hide RPow;
    if neg {
      SameInverse(RPow(r, n), RPow(r', n), w);
    }
    if r < r' { RPowOrder(r, r', n); }
    if r' < r { RPowOrder(r', r, n); }
  }

  lemma SameInverse(p: real, q: real, w: real)
    requires p * w == 1.0 && q * w == 1.0
    ensures p == q
  {
    NonzeroFactor(p - q, w);
  }

  lemma NonzeroFactor(d: real, w: real)
    requires d * w == 0.0 && w != 0.0
    ensures d == 0.0
  {
  }

  // ---------- the exponent as a ratio ----------

  function Num(yc: nat, ye: int): (m: nat) {
    if ye >= 0 then Shl(yc, ye) else yc
  }

  function Den(ye: int): (n: nat)
    ensures n >= 1
  {
    if ye >= 0 then 1 else Pow10(-ye)
  }

  lemma RatioOf(y: real, yc: nat, ye: int)
    requires AbsReal(y) == Scaled(yc, ye)
    ensures IsRatio(y, Num(yc, ye), Den(ye))
  {
    if ye >= 0 {
      ScaledShift(yc, ye, 0);
      assert Ten(0) == 1.0;
    } else {
      TenInverse(ye);
      RealAssociates(yc as real, Ten(ye), Pow10(-ye) as real);
    }
  }

  lemma HalvedRatio(y: real, m: nat, n: nat, k: nat)
    requires k >= 1 && IsRatio(y, m, n) && m % k == 0 && n % k == 0
    ensures IsRatio(y, m / k, n / k) && n / k <= n && (k > 1 ==> n / k < n)
  {
    var a, i, j := AbsReal(y), m / k, n / k;
    DivisionLaw(m, k);
    DivisionLaw(n, k);
    IntProduct(i, k);
    IntProduct(j, k);
    assert 0 * k == 0;
    MulOrder(1, k, j);
    hide AbsReal;
    ScaledRatio(a, i as real, j as real, k as real, m as real, n as real);
  }

  lemma ScaledRatio(a: real, i: real, j: real, k: real, m: real, n: real)
    requires k > 0.0 && m == i * k && n == j * k && a * n == m
    ensures a * j == i
  {
    RealAssociates(a, j, k);
    NonzeroFactor(a * j - i, k);
  }

  /** An exactly shifted product keeps the ratio. */
  lemma ShiftedRatio(z: int, yc: nat, ye: int, k: int)
    requires Scaled(k, 0) == Scaled(z * yc, ye)
    ensures k * Den(ye) == z * Num(yc, ye)
  {
    if ye >= 0 {
      ScaledShift(z * yc, ye, 0);
      MulAssociates(z, yc, Pow10(ye));
      ScaledInjective(k, (z * yc) * Pow10(ye), 0);
    } else {
      ScaledShift(k, 0, ye);
      ScaledInjective(k * Pow10(-ye), z * yc, ye);
    }
  }

  lemma ScaledInjective(m: int, n: int, x: int)
    requires Scaled(m, x) == Scaled(n, x)
    ensures m == n
  {
    ScaledOrder(m, n, x);
    ScaledOrder(n, m, x);
  }

  // ---------- soundness of the three closed forms ----------

  lemma PowersAgree(x: real, y: real, m: nat, n: nat, r: real)
    requires r > 0.0 && IsRatio(y, m, n) && PowerAt(x, y < 0.0, m, n, r)
    ensures IsPower(x, y, r)
  {
  }

  lemma RPowTenAt(e: int, n: nat, f: int)
    requires f == e * n
    ensures RPow(Ten(e), n) == Ten(f)
  {
    RPowOfTen(e, n);
    RepeatedProduct(e, n);
  }

  lemma InverseTens(f: int)
    ensures Ten(-f) * Ten(f) == 1.0
  {
    TenAdd(-f, f);
    assert Ten(0) == 1.0;
  }

  /** x = 10^xe: the result 10^k with k*n = w or -w, where w = xe*m. */
  lemma TenPower(xe: int, k: int, m: nat, n: nat, neg: bool, w: int)
    requires w == xe * m && k * n == if neg then -w else w
    ensures PowerAt(Ten(xe), neg, m, n, Ten(k))
  {
    hide Ten, RPow;
    RPowTenAt(xe, m, w);
    RPowTenAt(k, n, if neg then -w else w);
    InverseTens(w);
  }

  /** x = a^n * 10^(n*q): the result a^m * 10^(q*m). */
  lemma RootPower(a: nat, q: int, m: nat, n: nat, x: real, r: real)
    requires x == Scaled(Pow(a, n), n * q) && r == Scaled(Pow(a, m), q * m)
    ensures PowerAt(x, false, m, n, r)
  {
    hide Scaled, Pow, RPow;
    MulSwap(a, q, m, n);
    PowerOfPower(a, m, q * m, n, m * n, (q * m) * n);
    PowerOfPower(a, n, n * q, m, m * n, (q * m) * n);
  }

  lemma MulSwap(a: nat, q: int, m: nat, n: nat)
    ensures m * n == n * m && (q * m) * n == (n * q) * m
  {
  }

  /** x = b^i * 10^xe with b*d = 10: the result d^e * 10^(-e-f), where e*n = i*m and f*n = xe*m. */
  lemma InversePower(b: nat, d: nat, i: nat, xe: int, e: nat, f: int, m: nat, n: nat, k: nat, w: int, g: int)
    requires b * d == 10 && k == e * n == i * m && w == f * n == xe * m && g == 0 - e - f
    ensures PowerAt(Scaled(Pow(b, i), xe), true, m, n, Scaled(Pow(d, e), g))
  {
    hide Scaled, Pow, RPow, Pow10, Ten;
    assert g * n == 0 - k - w by { assert g * n == 0 - e * n - f * n; }
    PowerOfPower(d, e, g, n, k, 0 - k - w);
    PowerOfPower(b, i, xe, m, k, w);
    ScaledTimes(Pow(d, k), 0 - k - w, Pow(b, k), w, 0 - k);
    PowProduct(d, b, k);
    TenPow(k);
    UnitOfTens(k);
  }

  lemma PowerOfPower(b: int, i: nat, x: int, n: nat, k: nat, f: int)
    requires k == i * n && f == x * n
    ensures RPow(Scaled(Pow(b, i), x), n) == Scaled(Pow(b, k), f)
  {
    PowMul(b, i, n);
    RPowScaled(Pow(b, i), x, n);
  }

  lemma UnitOfTens(k: nat)
    ensures Scaled(Pow10(k), 0 - k) == 1.0
  {
    TenShift(0 - k, k);
    assert Ten(0) == 1.0;
  }

  lemma ScaledTimes(m: int, x: int, n: int, y: int, z: int)
    requires z == x + y
    ensures Scaled(m, x) * Scaled(n, y) == Scaled(m * n, z)
  {
    TenAdd(x, y);
    IntProduct(m, n);
    hide Ten;
    Interchange(m as real, Ten(x), n as real, Ten(y));
  }
}
