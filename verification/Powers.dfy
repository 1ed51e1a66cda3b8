/** Integer and real powers, Bernoulli's inequality for integers, and bit lengths. */
module Powers {
  import opened Arithmetic
  import opened Digits

  function Pow(b: int, n: nat): int {
    if n == 0 then 1 else b * Pow(b, n - 1)
  }

  function RPow(b: real, n: nat): real {
    if n == 0 then 1.0 else b * RPow(b, n - 1)
  }

  lemma {:induction false} PowAdd(b: int, m: nat, n: nat)
    ensures Pow(b, m + n) == Pow(b, m) * Pow(b, n)
  {
    if m != 0 {
      PowAdd(b, m - 1, n);
      MulAssociates(b, Pow(b, m - 1), Pow(b, n));
    }
  }

  lemma MulAssociates(a: int, b: int, c: int)
    ensures (a * b) * c == a * (b * c)
  {
  }

  lemma RealAssociates(a: real, b: real, c: real)
    ensures (a * b) * c == a * (b * c)
  {
  }

  lemma {:induction false} PowMul(b: int, m: nat, n: nat)
    ensures 0 <= m * n
    ensures Pow(b, m * n) == Pow(Pow(b, m), n)
  {
    if n != 0 {
      PowMul(b, m, n - 1);
      assert m * n == m + m * (n - 1);
      PowAdd(b, m, m * (n - 1));
    }
  }

  lemma {:induction false} PowPositive(b: int, n: nat)
    requires b >= 1
    ensures Pow(b, n) >= 1
  {
    if n != 0 {
      PowPositive(b, n - 1);
      MulOrder(1, b, Pow(b, n - 1));
    }
  }

  lemma {:induction false} PowMonotone(a: nat, b: nat, n: nat)
    requires a <= b
    ensures 0 <= Pow(a, n) <= Pow(b, n)
    ensures a < b && n > 0 ==> Pow(a, n) < Pow(b, n)
  {
    if n != 0 {
      PowMonotone(a, b, n - 1);
      var p, q := Pow(a, n - 1), Pow(b, n - 1);
      if b > 0 { PowPositive(b, n - 1); }
      hide Pow;
      MulOrder(p, q, a);
      MulOrder(a, b, q);
      assert a * p == p * a && a * q == q * a;
    }
  }

  /** An inequality between exponents, for a base above one. */
  lemma {:induction false} PowGrows(b: int, m: nat, n: nat)
    requires b >= 2 && m <= n
    ensures Pow(b, m) <= Pow(b, n)
    ensures m < n ==> Pow(b, m) < Pow(b, n)
    decreases n - m
  {
    PowPositive(b, m);
    if m < n {
      assert Pow(b, m + 1) == b * Pow(b, m);
      MulOrder(2, b, Pow(b, m));
      PowGrows(b, m + 1, n);
    }
  }

  lemma {:induction false} PowProduct(a: int, b: int, n: nat)
    ensures Pow(a, n) * Pow(b, n) == Pow(a * b, n)
  {
    if n != 0 {
      PowProduct(a, b, n - 1);
      IntInterchange(a, Pow(a, n - 1), b, Pow(b, n - 1));
    }
  }

  lemma IntInterchange(a: int, c: int, b: int, d: int)
    ensures (a * c) * (b * d) == (a * b) * (c * d)
  {
  }

  lemma {:induction false} TenPow(n: nat)
    ensures Pow10(n) == Pow(10, n)
  {
    if n != 0 { TenPow(n - 1); }
  }

  // ---------- real powers ----------

  lemma {:induction false} RPowOfInt(b: int, n: nat)
    ensures RPow(b as real, n) == Pow(b, n) as real
  {
    if n != 0 {
      RPowOfInt(b, n - 1);
      IntProduct(b, Pow(b, n - 1));
    }
  }

  lemma IntProduct(a: int, b: int)
    ensures (a * b) as real == (a as real) * (b as real)
  {
  }

  lemma {:induction false} RPowProduct(a: real, b: real, c: real, n: nat)
    requires c == a * b
    ensures RPow(c, n) == RPow(a, n) * RPow(b, n)
  {
    if n != 0 {
      RPowProduct(a, b, c, n - 1);
      Interchange(a, b, RPow(a, n - 1), RPow(b, n - 1));
    }
  }

  lemma Interchange(a: real, b: real, c: real, d: real)
    ensures (a * b) * (c * d) == (a * c) * (b * d)
  {
  }

  /** e added up n times */
  function Repeated(e: int, n: nat): int {
    if n == 0 then 0 else e + Repeated(e, n - 1)
  }

  lemma {:induction false} RepeatedProduct(e: int, n: nat)
    ensures Repeated(e, n) == e * n
  {
    if n != 0 {
      RepeatedProduct(e, n - 1);
    }
  }

  lemma UnitTen()
    ensures Ten(0) == 1.0
  {
  }

  lemma {:induction false} RPowOfTen(e: int, n: nat)
    ensures RPow(Ten(e), n) == Ten(Repeated(e, n))
  {
    UnitTen();
    hide Ten;
    if n != 0 {
      RPowOfTen(e, n - 1);
      TenAdd(e, Repeated(e, n - 1));
    }
  }

  lemma RPowScaled(m: int, e: int, n: nat)
    ensures RPow(Scaled(m, e), n) == Scaled(Pow(m, n), e * n)
  {
    RPowProduct(m as real, Ten(e), Scaled(m, e), n);
    RPowOfInt(m, n);
    RPowOfTen(e, n);
    RepeatedProduct(e, n);
  }

  // ---------- the inequality behind Newton's method ----------

  /** n * r * a^(n-1) <= r^n + (n-1) * a^n */
  lemma {:induction false} ArithmeticGeometric(r: nat, a: nat, n: nat)
    requires 1 <= n
    ensures n * (r * Pow(a, n - 1)) <= Pow(r, n) + (n - 1) * Pow(a, n)
  {
    if n == 1 {
      assert Pow(a, 0) == 1 && Pow(r, 1) == r * Pow(r, 0) && Pow(r, 0) == 1;
    } else {
      ArithmeticGeometric(r, a, n - 1);
      var k, x, y := n - 1, Pow(r, n - 1), Pow(a, n - 2);
      PowMonotone(0, a, n - 2);
      assert Pow(a, n - 1) == a * y && Pow(a, n) == a * (a * y) && Pow(r, n) == r * x;
      hide Pow;
      GeometricStep(r, a, k, x, y);
    }
  }

  lemma GeometricStep(r: nat, a: nat, k: nat, x: int, y: int)
    requires k * (r * y) <= x + (k - 1) * (a * y) && 0 <= y
    ensures (k + 1) * (r * (a * y)) <= r * x + k * (a * (a * y))
  {
    var u, v := k * (r * y), k * (a * y);
    var kay := (k - 1) * (a * y);
    assert kay == v - a * y;
    ScaledBound(u, x + kay, r);
    SquareOfDifference(a, r, k * y, u, v);
    assert r * (x + kay) == r * x + r * v - r * (a * y);
    Products(r, a, k, y, u, v);
  }

  lemma ScaledBound(u: int, w: int, r: nat)
    requires u <= w
    ensures r * u <= r * w
  {
  }

  /** (a - r)^2 * t is not negative. */
  lemma SquareOfDifference(a: int, r: int, t: int, u: int, v: int)
    requires t >= 0 && u == r * t && v == a * t
    ensures 2 * (r * v) <= a * v + r * u
  {
    var d := a - r;
    assert 0 <= d * d;
    NonnegativeProduct(d * d, t);
    assert (d * d) * t == d * (d * t);
    assert d * t == v - u;
    assert d * (v - u) == a * v - a * u - r * v + r * u;
    assert a * u == r * v;
  }

  lemma NonnegativeProduct(x: int, y: int)
    requires x >= 0 && y >= 0
    ensures x * y >= 0
  {
  }

  lemma Products(r: int, a: int, k: int, y: int, u: int, v: int)
    requires u == k * (r * y) && v == k * (a * y)
    ensures (k + 1) * (r * (a * y)) == r * v + r * (a * y)
    ensures k * (a * (a * y)) == a * v
  {
  }

  // ---------- bits ----------

  /** `int.bit_length` */
  function BitLength(n: nat): nat {
    if n == 0 then 0 else 1 + BitLength(n / 2)
  }

  lemma {:induction false} BitBounds(n: nat)
    requires n > 0
    ensures BitLength(n) >= 1 && Pow(2, BitLength(n) - 1) <= n < Pow(2, BitLength(n))
  {
    BitSteps(n);
    hide BitLength, Pow;
    if n > 1 {
      BitBounds(n / 2);
      TwoPowers(BitLength(n / 2));
    }
  }

  lemma BitSteps(n: nat)
    requires n > 0
    ensures BitLength(n) == BitLength(n / 2) + 1
    ensures n == 1 ==> BitLength(n) == 1 && Pow(2, 0) == 1 && Pow(2, 1) == 2
  {
    assert BitLength(0) == 0;
  }

  lemma TwoPowers(k: nat)
    ensures Pow(2, k + 1) == 2 * Pow(2, k) && (k > 0 ==> Pow(2, k) == 2 * Pow(2, k - 1))
  {
  }

  /** `n & -n` */
  function LowestBit(n: nat): nat
    requires n > 0
  {
    if n % 2 == 1 then 1 else 2 * LowestBit(n / 2)
  }

  /** A number that is its own lowest bit is a power of two. */
  lemma {:induction false} SingleBit(n: nat)
    requires n > 0 && LowestBit(n) == n
    ensures n == Pow(2, BitLength(n) - 1)
  {
    if n % 2 == 1 {
      assert BitLength(1) == 1 + BitLength(0);
    } else {
      SingleBit(n / 2);
      BitBounds(n / 2);
    }
  }
}
