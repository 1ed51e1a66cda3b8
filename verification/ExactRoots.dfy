/**
 Divisibility behind `_power_exact`: an n-th power that is an m-th power, for coprime m and n, is the m-th power of an
 n-th root; a power of ten splits only into a power of two and a power of five.
 */
module ExactRoots {
  import opened Arithmetic
  import opened Digits
  import opened Powers

  // ---------- the factors two and five ----------

  /** A cofactor of a power of five that is not a multiple of five is one. */
  lemma {:induction false} CofactorOfFive(a: nat, q: nat, e: nat)
    requires a * q == Pow(5, e) && q % 5 != 0
    ensures q == 1 && a == Pow(5, e)
  {
    if e == 0 {
      UnitFactors(a, q);
    } else {
      assert a * q == 5 * Pow(5, e - 1);
      FiveDivides(a, q);
      var b := a / 5;
      assert a == 5 * b;
      assert a * q == 5 * (b * q);
      CofactorOfFive(b, q, e - 1);
    }
  }

  lemma UnitFactors(a: nat, q: nat)
    requires a * q == 1
    ensures a == 1 && q == 1
  {
    if a >= 1 && q >= 2 { MulOrder(1, a, q); }
    if q >= 1 && a >= 2 { MulOrder(1, q, a); }
  }

  lemma FiveDivides(a: nat, q: nat)
    requires (a * q) % 5 == 0 && q % 5 != 0
    ensures a % 5 == 0
  {
    var i, r, j, t := a / 5, a % 5, q / 5, q % 5;
    ResidueProduct(i, r, j, t, a, q);
    assert (r * t) % 5 == 0;
    if r == 1 { } else if r == 2 { } else if r == 3 { } else if r == 4 { }
  }

  lemma ResidueProduct(i: nat, r: nat, j: nat, t: nat, a: nat, q: nat)
    requires a == 5 * i + r && q == 5 * j + t
    ensures a * q == 5 * (i * q + r * j) + r * t
  {
  }

  lemma MulCommutes(a: int, b: int)
    ensures a * b == b * a
  {
  }

  /** A number without a factor ten has no power equal to a positive power of ten. */
  lemma {:induction false} NoTenPower(a: nat, m: nat)
    requires a % 10 != 0
    ensures Pow(a, m) % 10 != 0
  {
    TenParts(a);
    TenParts(Pow(a, m));
    TenFree(a, m, 2);
    TenFree(a, m, 5);
    hide Pow;
  }

  lemma TenParts(a: int)
    ensures a % 10 == 0 <==> a % 2 == 0 && a % 5 == 0
  {
  }

  lemma {:induction false} TenFree(a: nat, m: nat, k: nat)
    requires k == 2 || k == 5
    ensures a % k != 0 ==> Pow(a, m) % k != 0
  {
    if m != 0 && a % k != 0 {
      TenFree(a, m - 1, k);
      PrimeResidue(a, Pow(a, m - 1), k);
    }
  }

  lemma PrimeResidue(a: int, b: int, k: nat)
    requires (k == 2 || k == 5) && a % k != 0 && b % k != 0
    ensures (a * b) % k != 0
  {
    var i, r, j, t := a / k, a % k, b / k, b % k;
    assert a * b == k * (i * b + r * j) + r * t;
    SmallProduct(r, t, k);
    hide Pow;
    var w := i * b + r * j;
    assert (k * w + r * t) % k == (r * t) % k by { MultipleDrops(w, r * t, k); }
  }

  lemma SmallProduct(r: int, t: int, k: nat)
    requires (k == 2 || k == 5) && 0 < r < k && 0 < t < k
    ensures (r * t) % k != 0
  {
    if r == 1 { } else if r == 2 { } else if r == 3 { } else { }
  }

  lemma MultipleDrops(w: int, v: int, k: nat)
    requires k == 2 || k == 5
    ensures (k * w + v) % k == v % k
  {
  }

  /** A root of a number without a factor ten has none either. */
  lemma RootTenFree(a: nat, n: nat)
    requires n >= 1 && Pow(a, n) % 10 != 0
    ensures a % 10 != 0
  {
    MulAssociates(10, a / 10, Pow(a, n - 1));
  }

  lemma TwoDivides(a: nat, q: nat)
    requires (a * q) % 2 == 0 && q % 2 != 0
    ensures a % 2 == 0
  {
    if a % 2 != 0 {
      PrimeResidue(a, q, 2);
    }
  }

  lemma ZeroPowers(b: int)
    ensures Pow(b, 0) == 1 && Pow10(0) == 1
  {
  }

  lemma TenSuccessor(k: nat)
    requires k >= 1
    ensures Pow10(k) == 10 * Pow10(k - 1) && Pow(2, k) == 2 * Pow(2, k - 1) && Pow(5, k) == 5 * Pow(5, k - 1)
  {
  }

  /** A power of ten splits into parts without a factor ten in one way only. */
  lemma {:induction false} TenSplits(a: nat, b: nat, k: nat)
    requires a * b == Pow10(k) && a % 5 != 0 && b % 2 != 0
    ensures a == Pow(2, k) && b == Pow(5, k)
  {
    hide Pow10, Pow;
    if k == 0 {
      ZeroPowers(2);
      ZeroPowers(5);
      UnitFactors(a, b);
    } else {
      TenSuccessor(k);
      var i, j := SplitOnce(a, b, Pow10(k - 1));
      TenSplits(i, j, k - 1);
    }
  }

  lemma SplitOnce(a: nat, b: nat, p: nat) returns (i: nat, j: nat)
    requires a * b == 10 * p && a % 5 != 0 && b % 2 != 0
    ensures a == 2 * i && b == 5 * j && i * j == p && i % 5 != 0 && j % 2 != 0
  {
    TwoDivides(a, b) by { Halves(a * b, 5 * p, 2); }
    MulCommutes(a, b);
    FiveDivides(b, a) by { Halves(b * a, 2 * p, 5); }
    i, j := a / 2, b / 5;
    assert a == 2 * i && b == 5 * j;
    TenOfParts(i, j, p);
    KeepsFactor(i, 2, 5);
    KeepsFactor(j, 5, 2);
  }

  lemma KeepsFactor(i: nat, k: nat, d: nat)
    requires d >= 1
    ensures i % d == 0 ==> (k * i) % d == 0
  {
    if i % d == 0 {
      DivisionLaw(i, d);
      MulCommutes(i / d, d);
      assert k * (d * (i / d)) == d * (k * (i / d));
      Halves(k * i, k * (i / d), d);
    }
  }

  lemma Halves(m: int, w: int, k: nat)
    requires k >= 1 && m == k * w
    ensures m % k == 0
  {
    DivModUnique(m, k, w, 0);
  }

  lemma TenOfParts(i: int, j: int, p: int)
    requires (2 * i) * (5 * j) == 10 * p
    ensures i * j == p
  {
    assert (2 * i) * (5 * j) == 10 * (i * j);
  }

  /** A divisor of a power of ten without the factors two and five is one. */
  lemma {:induction false} UnitDivisor(g: nat, h: nat, k: nat)
    requires g * h == Pow10(k) && g % 2 != 0 && g % 5 != 0
    ensures g == 1
  {
    if k == 0 {
      UnitFactors(g, h);
    } else {
      var p := Pow10(k - 1);
      assert g * h == 10 * p;
      MulCommutes(g, h);
      TwoDivides(h, g) by { Halves(h * g, 5 * p, 2); }
      FiveDivides(h, g) by { Halves(h * g, 2 * p, 5); }
      var j := h / 10;
      TenParts(h);
      assert h == 10 * j;
      TenthOf(g, j, p);
      UnitDivisor(g, j, k - 1);
    }
  }

  lemma TenthOf(g: int, j: int, p: int)
    requires g * (10 * j) == 10 * p
    ensures g * j == p
  {
    assert g * (10 * j) == 10 * (g * j);
  }

  /** A root of a power of two (or five) is one itself. */
  lemma {:induction false} DivisorOfPower(q: nat, x: nat, y: nat, k: nat) returns (i: nat)
    requires (q == 2 || q == 5) && x * y == Pow(q, k)
    ensures x == Pow(q, i)
  {
    if k == 0 {
      UnitFactors(x, y);
      i := 0;
    } else {
      var p := Pow(q, k - 1);
      assert x * y == q * p;
      hide Pow;
      if x % q == 0 {
        var x' := x / q;
        assert x == q * x';
        FactorOut(q, x', y, p);
        assert p == Pow(q, k - 1);
        i := DivisorOfPower(q, x', y, k - 1);
        PowStep(q, i);
        i := i + 1;
      } else {
        assert y % q == 0 by {
          if y % q != 0 {
            PrimeResidue(x, y, q);
            Halves(x * y, p, q);
          }
        }
        var y' := y / q;
        assert y == q * y';
        MulCommutes(x, y);
        FactorOut(q, y', x, p);
        MulCommutes(y', x);
        assert p == Pow(q, k - 1);
        i := DivisorOfPower(q, x, y', k - 1);
      }
    }
  }

  lemma PowStep(b: int, n: nat)
    ensures Pow(b, n + 1) == b * Pow(b, n)
  {
  }

  lemma FactorOut(q: nat, x: int, y: int, p: int)
    requires q >= 1 && (q * x) * y == q * p
    ensures x * y == p
  {
    assert (q * x) * y == q * (x * y);
    var d := x * y - p;
    assert q * d == 0;
    if d > 0 { MulOrder(1, d, q); }
    if d < 0 { MulOrder(d, -1, q); }
  }

  lemma RootOfPower(q: nat, x: nat, m: nat, k: nat) returns (i: nat)
    requires (q == 2 || q == 5) && m >= 1 && Pow(x, m) == Pow(q, k)
    ensures x == Pow(q, i) && i * m == k
  {
    assert Pow(x, m) == x * Pow(x, m - 1);
    PowMonotone(0, x, m - 1);
    i := DivisorOfPower(q, x, Pow(x, m - 1), k);
    hide Pow;
    PowMul(q, i, m);
    SameExponent(q, i * m, k);
  }

  lemma SameExponent(b: int, m: nat, n: nat)
    requires b >= 2 && Pow(b, m) == Pow(b, n)
    ensures m == n
  {
    if m < n { PowGrows(b, m, n); }
    if n < m { PowGrows(b, n, m); }
  }

  // ---------- common divisors ----------

  /** a and b as multiples of a common divisor, with cofactors that combine to one. */
  lemma {:induction false} Bezout(a: nat, b: nat) returns (g: nat, x: nat, y: nat, s: int, t: int)
    requires b >= 1
    ensures g >= 1 && y >= 1 && a == g * x && b == g * y && s * x + t * y == 1
    decreases b
  {
    DivisionLaw(a, b);
    var q, r := a / b, a % b;
    if r == 0 {
      g, x, y, s, t := b, q, 1, 0, 1;
      MulCommutes(q, b);
    } else {
      var x', y', s', t';
      g, x', y', s', t' := Bezout(b, r);
      EuclidStep(g, x', y', s', t', q, a, b, r);
      x, y, s, t := q * x' + y', x', t', s' - q * t';
      MulOrder(0, q, x');
      if x' == 0 { MulCommutes(g, 0); }
    }
  }

  lemma EuclidStep(g: int, x: int, y: int, s: int, t: int, q: int, a: int, b: int, r: int)
    requires b == g * x && r == g * y && a == q * b + r && s * x + t * y == 1
    ensures a == g * (q * x + y) && t * (q * x + y) + (s - q * t) * x == 1
  {
    assert q * (g * x) == g * (q * x);
    assert g * (q * x + y) == g * (q * x) + g * y;
    assert t * (q * x + y) == t * (q * x) + t * y;
    assert (s - q * t) * x == s * x - (q * t) * x;
    assert t * (q * x) == (q * t) * x;
  }

  /** If x is invertible modulo y, so is its power. */
  lemma {:induction false} PowerInvertible(s: int, x: int, t: int, y: int, n: nat) returns (u: int, v: int)
    requires s * x + t * y == 1
    ensures u * Pow(x, n) + v * y == 1
  {
    if n == 0 {
      u, v := 1, 0;
    } else {
      var u', v' := PowerInvertible(s, x, t, y, n - 1);
      u, v := u' * s, (u' * Pow(x, n - 1)) * t + v';
      var w := Pow(x, n - 1);
      assert Pow(x, n) == x * w;
      hide Pow;
      InverseProduct(s, x, t, y, u', w, v');
    }
  }

  lemma InverseProduct(s: int, x: int, t: int, y: int, u: int, w: int, v: int)
    requires s * x + t * y == 1 && u * w + v * y == 1
    ensures (u * s) * (x * w) + ((u * w) * t + v) * y == 1
  {
    assert (u * s) * (x * w) == (u * w) * (s * x);
    assert ((u * w) * t + v) * y == (u * w) * (t * y) + v * y;
    assert (u * w) * (s * x) + (u * w) * (t * y) == (u * w) * (s * x + t * y);
  }

  /** If the n-th power of y divides the n-th power of x, then y divides x. */
  lemma PowerDivides(x: nat, y: nat, n: nat, b: int) returns (a: nat)
    requires y >= 1 && n >= 1 && Pow(x, n) == b * Pow(y, n)
    ensures x == a * y
  {
    var g, i, j, s, t := Bezout(x, y);
    PowProduct(g, i, n);
    PowProduct(g, j, n);
    PowPositive(g, n);
    assert Pow(j, n) == j * Pow(j, n - 1);
    var u, v := PowerInvertible(s, i, t, j, n);
    var w := Pow(j, n - 1);
    hide Pow;
    CancelFactor(Pow(g, n), Pow(i, n), b, Pow(j, n));
    UnitOfInverse(u, b, w, v, j);
    assert j == 1;
    a := i;
    MulCommutes(g, i);
  }

  lemma CancelFactor(g: int, x: int, b: int, y: int)
    requires g >= 1 && g * x == b * (g * y)
    ensures x == b * y
  {
    assert b * (g * y) == g * (b * y);
    var d := x - b * y;
    assert g * d == 0;
    if d > 0 { MulOrder(1, d, g); }
    if d < 0 { MulOrder(d, -1, g); }
  }

  lemma UnitOfInverse(u: int, b: int, w: int, v: int, j: int)
    requires j >= 1 && u * (b * (j * w)) + v * j == 1
    ensures j == 1
  {
    var k := u * (b * w) + v;
    assert u * (b * (j * w)) == (u * (b * w)) * j;
    assert k * j == 1;
    if k <= 0 { MulOrder(k, 0, j); }
    if j >= 2 { MulOrder(1, k, j); }
  }

  /** An n-th power that is an m-th power, m and n coprime, comes from a common root. */
  lemma CommonRoot(c: nat, b: nat, m: nat, n: nat, s: int, t: int) returns (a: nat)
    requires c >= 1 && b >= 1 && n >= 1 && m >= 1 && s * m + t * n == 1 && Pow(c, n) == Pow(b, m)
    ensures Pow(a, n) == b && Pow(a, m) == c
  {
    var u, v := NaturalInverse(m, n, s, t);
    PowMul(c, u, n);
    PowMul(c, n, u);
    PowMul(b, m, u);
    PowMul(b, v, n);
    PowAdd(b, 1, n * v);
    PowPositive(c, u);
    PowPositive(b, v);
    assert Pow(b, 1) == b * Pow(b, 0);
    var x, y := Pow(c, u), Pow(b, v);
    hide Pow;
    assert u * n == n * u && v * n == n * v;
    assert Pow(x, n) == b * Pow(y, n);
    a := PowerDivides(x, y, n, b);
    PowProduct(a, y, n);
    PowPositive(y, n);
    CancelRight(Pow(a, n), b, Pow(y, n));
    PowMul(a, n, m);
    PowMul(a, m, n);
    assert n * m == m * n;
    PowMonotone(0, a, m);
    SameRoot(Pow(a, m), c, n);
  }

  lemma SameRoot(a: nat, b: nat, n: nat)
    requires n >= 1 && Pow(a, n) == Pow(b, n)
    ensures a == b
  {
    if a < b { PowMonotone(a, b, n); }
    if b < a { PowMonotone(b, a, n); }
  }

  lemma RootOrder(a: nat, b: nat, n: nat)
    requires n >= 1 && Pow(a, n) > Pow(b, n)
    ensures a > b
  {
    if a <= b { PowMonotone(a, b, n); }
  }

  /** Coefficients that combine to one can be chosen natural. */
  lemma NaturalInverse(m: nat, n: nat, s: int, t: int) returns (u: nat, v: nat)
    requires m >= 1 && n >= 1 && s * m + t * n == 1
    ensures m * u == 1 + n * v
  {
    var k := Abs(s) + Abs(t) + 1;
    AtLeastFactor(k, n);
    AtLeastFactor(k, m);
    ShiftedCombination(m, n, s, t, k);
    u, v := s + k * n, k * m - t;
  }

  lemma AtLeastFactor(k: nat, n: nat)
    requires n >= 1
    ensures k * n >= k
  {
    MulOrder(1, n, k);
  }

  lemma ShiftedCombination(m: int, n: int, s: int, t: int, k: int)
    requires s * m + t * n == 1
    ensures m * (s + k * n) == 1 + n * (k * m - t)
  {
    assert m * (s + k * n) == s * m + k * (m * n);
    assert n * (k * m - t) == k * (m * n) - t * n;
  }

  /** A number that divides a product with a coprime factor divides the other factor. */
  lemma CoprimeDivides(x: int, g: int, m: int, n: nat, s: int, t: int)
    requires n >= 1 && s * m + t * n == 1 && g * n == x * m
    ensures x % n == 0
  {
    var w := s * g + t * x;
    assert n * w == s * (g * n) + x * (t * n);
    assert s * (x * m) == x * (s * m);
    assert x * (s * m) + x * (t * n) == x * (s * m + t * n);
    Halves(x, w, n);
  }
}
