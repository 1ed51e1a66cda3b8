/**
 The integer loops behind `_power_exact` and `_sqrt_nearest`: Newton steps to the floor of a root and to the
 nearest root, exact shifts by powers of ten, and bit tests for powers of two.
 */
module DecimalPower {
  import opened Arithmetic
  import opened DecimalAdd
  import opened DecimalSpec
  import opened Digits
  import opened Powers
  import opened Sequences

  // ---------- integer helpers ----------

  /** `a` is the integer closest to the square root of `n`. */
  predicate NearestRoot(n: int, a: int) {
    1 <= a && a * (a - 1) < n <= a * (a + 1)
  }

  lemma {:induction false} NearestRootExists(n: int) returns (s: int)
    requires n >= 1
    ensures NearestRoot(n, s)
  {
    if n == 1 {
      s := 1;
    } else {
      s := NearestRootExists(n - 1);
      if n > s * (s + 1) {
        s := s + 1;
      }
    }
  }

  /** Nearest in the sense of distance: no other integer's square root is closer. */
  lemma NearestRootIsNearest(n: int, a: int, b: int, r: real)
    requires NearestRoot(n, a) && 0 <= b && 0.0 <= r && r * r == n as real
    ensures AbsReal(r - a as real) <= AbsReal(r - b as real)
  {
    if a < b {
      var h := a as real + 0.5;
      assert Square(r) <= Square(h) by {
        IntProduct(a, a + 1);
        assert (a * (a + 1)) as real <= Square(h);
      }
      if h < r { SquareOrder(h, r); }
    } else if b < a {
      var h := a as real - 0.5;
      assert Square(h) <= Square(r) by {
        IntProduct(a, a - 1);
        assert Square(h) == (a * (a - 1)) as real + 0.25;
      }
      if r < h { SquareOrder(r, h); }
    }
  }

  /** ceil(n / a), as `-(-n // a)` */
  function CeilDiv(n: int, a: int): (c: int)
    requires a >= 1
    ensures (c - 1) * a < n <= c * a
  {
    -((-n) / a)
  }

  /** By the inequality of the means a step never falls below the nearest root. */
  lemma StepNotBelow(n: int, a: int, s: int)
    requires n >= 1 && a >= 1 && NearestRoot(n, s)
    ensures 2 * s <= a + CeilDiv(n, a)
  {
    var c := CeilDiv(n, a);
    Consecutive(s - a);
    assert s * (s - 1) - (2 * s - 1 - a) * a == (s - a) * (s - a - 1);
    if a + c <= 2 * s - 1 {
      MulOrder(c, 2 * s - 1 - a, a);
    }
  }

  lemma StepFromAbove(n: int, a: int, s: int)
    requires n >= 1 && s < a && NearestRoot(n, s)
    ensures CeilDiv(n, a) <= a - 1
  {
    var c := CeilDiv(n, a);
    if a <= c {
      MulOrder(a - 1, c - 1, a);
      MulOrder(s, a - 1, s + 1);
      MulOrder(s + 1, a, a - 1);
    }
  }

  lemma StepAtRoot(n: int, s: int)
    requires n >= 1 && NearestRoot(n, s)
    ensures s <= CeilDiv(n, s) <= s + 1
  {
    var c := CeilDiv(n, s);
    if c >= s + 2 { MulOrder(s + 1, c - 1, s); }
    if c <= s - 1 { MulOrder(c, s - 1, s); }
  }

  /** One step of the iteration in `_sqrt_nearest`. */
  lemma NearestStep(n: int, a: int, s: int)
    requires n >= 1 && a >= 1 && NearestRoot(n, s)
    ensures var a' := (a + CeilDiv(n, a)) / 2;
            s <= a' && (a > s ==> a' < a) && (a' == a <==> a == s)
  {
    hide NearestRoot, CeilDiv;
    StepNotBelow(n, a, s);
    if a > s { StepFromAbove(n, a, s); }
    if a == s { StepAtRoot(n, s); }
  }

  lemma Consecutive(d: int)
    ensures 0 <= d * (d - 1)
  {
  }

  /** `_sqrt_nearest`: from every positive start it ends at the nearest integer root. */
  method SqrtNearest(n: int, start: int) returns (a: int)
    requires n > 0 && start > 0
    ensures NearestRoot(n, a)
  {
    ghost var s := NearestRootExists(n);
    a := start;
    var b := 0;
    while a != b
      invariant a >= 1
      invariant a == b ==> a == s
      decreases if a < s then 1 else 0, a, if a == b then 0 else 1
    {
      NearestStep(n, a, s);
      b, a := a, (a + CeilDiv(n, a)) / 2;
    }
  }

  /** `_div_nearest`: closest integer to a/b, ties to even. */
  function DivNearest(a: int, b: int): (q: int)
    requires b >= 1
  {
    var (d, r) := (a / b, a % b);
    if 2 * r + d % 2 > b then d + 1 else d
  }

  lemma DivNearestMeaning(a: int, b: int, k: int)
    requires b >= 1
    ensures var q := DivNearest(a, b);
      && 2 * Abs(a - q * b) <= b
      && Abs(a - q * b) <= Abs(a - k * b)
      && (2 * Abs(a - q * b) == b ==> q % 2 == 0)
  {
    var q, d, r := DivNearest(a, b), a / b, a % b;
    assert a == d * b + r;
    assert (d + 1) * b == d * b + b;
    if k <= d { MulOrder(k, d, b); } else { MulOrder(d + 1, k, b); }
  }

  // ---------- stripping factors ----------

  /** n has no factor ten left, and n * 10^z is the stripped number. */
  lemma StripStep(n: int, e: int)
    requires n % 10 == 0
    ensures Scaled(n / 10, e + 1) == Scaled(n, e)
  {
    ScaledShift(n / 10, e + 1, e);
    assert Pow10(1) == 10 * Pow10(0);
  }

  /** `_decimal_lshift_exact`: n * 10^e if that is an integer. */
  function LshiftExact(n: int, e: int): Option<int> {
    if n == 0 then Some(0)
    else if e >= 0 then Some(n * Pow10(e))
    else
      var s := Str(Abs(n));
      if TrailingZeros(s) < -e then None else Some(n / Pow10(-e))
  }

  /** len(s) - len(s.rstrip('0')) */
  function TrailingZeros(s: string): nat {
    if s != "" && s[|s| - 1] == '0' then 1 + TrailingZeros(s[..|s| - 1]) else 0
  }

  lemma {:induction false} TrailingZerosDivide(s: string, k: nat)
    requires AllDigits(s) && Val(s) > 0
    ensures k <= TrailingZeros(s) <==> Val(s) % Pow10(k) == 0
  {
    if k > 0 {
      var s', d, p := s[..|s| - 1], DigitVal(s[|s| - 1]), Pow10(k - 1);
      assert Val(s) == 10 * Val(s') + d;
      assert Pow10(k) == 10 * p;
      if d == 0 {
        TrailingZerosDivide(s', k - 1);
        TenFactor(Val(s'), p);
      } else {
        NotTenFactor(Val(s'), d, p);
      }
    }
  }

  lemma TenFactor(m: nat, p: nat)
    requires p >= 1
    ensures (10 * m) % (10 * p) == 0 <==> m % p == 0
  {
    var (q, r) := DivMod(m, p);
    DivModUnique(10 * m, 10 * p, q, 10 * r);
  }

  lemma NotTenFactor(m: nat, d: nat, p: nat)
    requires p >= 1 && 1 <= d < 10
    ensures (10 * m + d) % (10 * p) != 0
  {
    var (q, r) := DivMod(10 * m + d, 10 * p);
    MulScale(q, p, 10);
  }

  /** It answers exactly when the shifted number is an integer, and then with that integer. */
  lemma LshiftExactMeaning(n: int, e: int)
    ensures match LshiftExact(n, e)
            case Some(m) => Scaled(m, 0) == Scaled(n, e)
            case None => e < 0 && n % Pow10(-e) != 0
  {
    if n != 0 && e < 0 {
      StrVal(Abs(n));
      TrailingZerosDivide(Str(Abs(n)), -e);
      AbsDivides(n, Pow10(-e));
      if LshiftExact(n, e).Some? {
        var m := n / Pow10(-e);
        assert m * Pow10(-e) == n;
        ScaledShift(m, 0, e);
      }
    } else if n != 0 {
      ScaledShift(n, e, 0);
    } else {
      ZeroScaled(e);
    }
  }

  lemma ZeroScaled(e: int)
    ensures Scaled(0, e) == 0.0
  {
  }

  lemma AbsDivides(n: int, p: nat)
    requires p >= 1
    ensures n % p == 0 <==> Abs(n) % p == 0
    ensures n % p == 0 ==> (n / p) * p == n
  {
    var (q, r) := DivMod(Abs(n), p);
    DivModUnique(Abs(n), p, q, r);
    if n < 0 && r == 0 {
      MulNegate(q, p);
      DivModUnique(n, p, 0 - q, 0);
    } else if n < 0 {
      assert (0 - q - 1) * p == 0 - q * p - p;
      DivModUnique(n, p, 0 - q - 1, p - r);
    }
  }

  // ---------- the integer n-th root ----------

  /** The greatest integer whose n-th power does not exceed `c`. */
  ghost predicate FloorRoot(c: nat, n: nat, s: nat) {
    Pow(s, n) <= c < Pow(s + 1, n)
  }

  lemma {:induction false} FloorRootExists(c: nat, n: nat) returns (s: nat)
    requires n >= 1
    ensures FloorRoot(c, n, s)
  {
    if c == 0 {
      s := 0;
      assert Pow(0, n) == 0 * Pow(0, n - 1);
      PowPositive(1, n);
    } else {
      s := FloorRootExists(c - 1, n);
      PowMonotone(s + 1, s + 2, n);
      if Pow(s + 1, n) <= c {
        s := s + 1;
      }
    }
  }

  lemma RootBelow(c: nat, n: nat, s: nat, a: nat)
    requires n >= 1 && FloorRoot(c, n, s)
    ensures Pow(a, n) <= c <==> a <= s
  {
    if a <= s { PowMonotone(a, s, n); } else { PowMonotone(s + 1, a, n); }
  }

  /** The start value is at least the root. */
  lemma RootStart(c: nat, n: nat, s: nat)
    requires c >= 1 && n >= 1 && FloorRoot(c, n, s)
    ensures var k := CeilDiv(BitLength(c), n);
            0 <= k && 1 <= Pow(2, k) && s <= Pow(2, k)
  {
    var b := BitLength(c);
    var k := CeilDiv(b, n);
    BitBounds(c);
    if k < 0 { MulOrder(k, -1, n); }
    PowMul(2, k, n);
    PowGrows(2, b, k * n);
    PowPositive(2, k);
    RootBelow(c, n, s, Pow(2, k));
  }

  /** A Newton step from above stays at or above the root. */
  lemma RootStep(c: nat, n: nat, s: nat, a: nat)
    requires n >= 2 && a >= 1 && FloorRoot(c, n, s)
    ensures Pow(a, n - 1) >= 1
    ensures var q := DivMod(c, Pow(a, n - 1)).0;
      && (a <= q <==> Pow(a, n) <= c)
      && s <= (a * (n - 1) + q) / n
  {
    var w := Pow(a, n - 1);
    PowPositive(a, n - 1);
    var (q, r) := DivMod(c, w);
    ArithmeticGeometric(s, a, n);
    assert Pow(a, n) == a * w;
    var t := Pow(s, n);
    hide Pow;
    if a <= q { MulOrder(a, q, w); } else { MulOrder(q + 1, a, w); }
    RootStepBound(c, n, s, a, w, q, t);
    DivideBound(a * (n - 1) + q, n, s);
  }

  lemma RootStepBound(c: int, n: int, s: int, a: int, w: int, q: int, t: int)
    requires n >= 2 && w >= 1 && t <= c < (q + 1) * w
    requires n * (s * w) <= t + (n - 1) * (a * w)
    ensures n * s <= a * (n - 1) + q
  {
    var d := n * s - (n - 1) * a;
    assert d * w == n * (s * w) - (n - 1) * (a * w);
    if q + 1 <= d { MulOrder(q + 1, d, w); }
  }

  lemma DivideBound(m: int, n: int, s: int)
    requires n >= 1 && n * s <= m
    ensures s <= m / n
  {
    DivisionLaw(m, n);
    if m / n + 1 <= s { MulOrder(m / n + 1, s, n); }
  }

  /** The Newton loop of `_power_exact`: it ends at the floor of the n-th root. */
  method NewtonRoot(c: nat, n: nat) returns (a: nat, exact: bool)
    requires c >= 1 && n >= 2
    ensures a >= 1 && FloorRoot(c, n, a)
    ensures exact <==> exists b: nat :: Pow(b, n) == c
    ensures exact ==> Pow(a, n) == c
  {
    ghost var s := FloorRootExists(c, n);
    RootStart(c, n, s);
    a := Pow(2, CeilDiv(BitLength(c), n));
    PowPositive(a, n - 1);
    var (q, r) := DivMod(c, Pow(a, n - 1));
    while a > q
      invariant a >= 1 && s <= a && Pow(a, n - 1) >= 1
      invariant (q, r) == DivMod(c, Pow(a, n - 1))
      decreases a
    {
      RootStep(c, n, s, a);
      SmallerStep(a, q, n);
      a := (a * (n - 1) + q) / n;
      RootBelow(c, n, s, 1);
      PowPositive(1, n);
      assert Pow(1, n) == 1 by { PowOne(n); }
      PowPositive(a, n - 1);
      var (q', r') := DivMod(c, Pow(a, n - 1));
      q, r := q', r';
    }
    RootStep(c, n, s, a);
    RootBelow(c, n, s, a);
    exact := a == q && r == 0;
    ExactRootFound(c, n, a, q, r);
  }

  lemma {:induction false} PowOne(n: nat)
    ensures Pow(1, n) == 1
  {
    if n != 0 { PowOne(n - 1); }
  }

  lemma SmallerStep(a: int, q: int, n: int)
    requires n >= 2 && 0 <= q < a
    ensures (a * (n - 1) + q) / n < a
  {
    var m := a * (n - 1) + q;
    DivisionLaw(m, n);
    assert m < a * n;
    if a <= m / n { MulOrder(a, m / n, n); }
  }

  lemma ExactRootFound(c: nat, n: nat, a: nat, q: nat, r: nat)
    requires n >= 2 && a >= 1 && FloorRoot(c, n, a) && Pow(a, n - 1) >= 1 && (q, r) == DivMod(c, Pow(a, n - 1))
    ensures (a == q && r == 0) <==> Pow(a, n) == c
    ensures Pow(a, n) == c <==> exists b: nat :: Pow(b, n) == c
  {
    var w := Pow(a, n - 1);
    assert Pow(a, n) == a * w;
    if a * w == c {
      DivModUnique(c, w, a, 0);
    }
    if b: nat :| Pow(b, n) == c {
      RootBelow(c, n, a, b);
      if b < a { PowMonotone(b, a, n); }
    }
  }
}
