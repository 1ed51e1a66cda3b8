/**
 Why `_power_exact` may give up: what x and y must look like when x^y has at most p digits, and that each of its
 quick tests fails only when they do not.
 */
module DecimalRefusals {
  import opened Arithmetic
  import opened DecimalAdd
  import opened DecimalCore
  import opened DecimalPower
  import opened DecimalSpec
  import opened Digits
  import opened ExactPowers
  import opened ExactRoots
  import opened Powers
  import opened Sequences

  /** Some number of at most `p` digits is exactly x^y. */
  ghost predicate HasAnswer(x: real, y: real, p: nat) {
    exists d: Decimal :: IsAnswer(x, y, p, d)
  }

  ghost predicate IsAnswer(x: real, y: real, p: nat, d: Decimal) {
    d.Finite? && d.Valid() && |d.coeff| <= p && IsPower(x, y, d.Value())
  }

  // ---------- stripped forms ----------

  lemma {:induction false} StripAll(c0: nat, e0: int) returns (c: nat, e: int)
    requires c0 > 0
    ensures 0 < c <= c0 && c % 10 != 0 && Scaled(c, e) == Scaled(c0, e0)
  {
    if c0 % 10 == 0 {
      StripStep(c0, e0);
      c, e := StripAll(c0 / 10, e0 + 1);
    } else {
      c, e := c0, e0;
    }
  }

  lemma StrippedForm(d: Decimal, p: nat) returns (c: nat, g: int)
    requires d.Finite? && d.Valid() && |d.coeff| <= p && d.Value() > 0.0
    ensures c > 0 && c % 10 != 0 && c < Pow10(p) && d.Value() == Scaled(c, g)
  {
    ZeroValue(d);
    CanonicalBounds(d.coeff);
    Pow10Monotone(|d.coeff|, p);
    hide Pow10, Scaled, Val;
    c, g := StripAll(Val(d.coeff), d.exp);
  }

  lemma StrippedOrder(a: nat, i: int, b: nat, j: int)
    requires a > 0 && b > 0 && a % 10 != 0 && Scaled(a, i) == Scaled(b, j)
    ensures i >= j
  {
    if i < j {
      ScaledShift(b, j, i);
      ScaledInjective(a, b * Pow10(j - i), i);
      var q := Pow10(j - i - 1);
      assert Pow10(j - i) == 10 * q;
      hide Pow10;
      TenMultiple(a, b, Pow10(j - i), q);
    }
  }

  lemma TenDividesPower(k: nat)
    ensures k > 0 ==> Pow10(k) % 10 == 0
  {
  }

  /** A number without a factor ten and its exponent are determined by the value. */
  lemma StrippedUnique(a: nat, i: int, b: nat, j: int)
    requires a > 0 && b > 0 && a % 10 != 0 && b % 10 != 0 && Scaled(a, i) == Scaled(b, j)
    ensures a == b && i == j
  {
    hide Scaled;
    StrippedOrder(a, i, b, j);
    StrippedOrder(b, j, a, i);
    ScaledInjective(a, b, i);
  }

  // ---------- what a power looks like ----------

  /** Any ratio for y may be used. */
  lemma PowerAtRatio(x: real, y: real, m: nat, n: nat, r: real)
    requires x > 0.0 && IsPower(x, y, r) && IsRatio(y, m, n)
    ensures PowerAt(x, y < 0.0, m, n, r)
  {
    var m': nat, n': nat :| IsRatio(y, m', n') && PowerAt(x, y < 0.0, m', n', r);
    CrossRatio(y, m, n, m', n');
    RaisePower(x, y < 0.0, m', n', r, n);
    hide IsRatio;
    SamePowerAt(x, y < 0.0, m, n, r, m' * n, n');
  }

  lemma SamePowerAt(x: real, neg: bool, m: nat, n: nat, r: real, k: nat, n': nat)
    requires x > 0.0 && r > 0.0 && n' >= 1 && n >= 1 && k == m * n' && 0 <= n' * n
    requires PowerAt(x, neg, k, n' * n, r)
    ensures PowerAt(x, neg, m, n, r)
  {
    assert n' * n == n * n';
    RPowMul(r, n, n');
    RPowMul(x, m, n');
    RPowPositive(r, n);
    RPowPositive(x, m);
    hide RPow;
    if neg {
      RPowProduct(RPow(r, n), RPow(x, m), RPow(r, n) * RPow(x, m), n');
      OnePower(n');
      SignOfProduct(RPow(r, n), RPow(x, m));
      SamePower(RPow(r, n) * RPow(x, m), 1.0, n', 1.0, false);
    } else {
      SamePower(RPow(r, n), RPow(x, m), n', RPow(RPow(x, m), n'), false);
    }
  }

  /** For y > 0: the coefficients are powers of each other, and so are the powers of ten. */
  lemma PositiveShape(b: nat, xe: int, m: nat, n: nat, c: nat, g: int)
    requires b > 0 && b % 10 != 0 && c > 0 && c % 10 != 0
    requires PowerAt(Scaled(b, xe), false, m, n, Scaled(c, g))
    ensures Pow(c, n) == Pow(b, m) && g * n == xe * m
  {
    RPowScaled(c, g, n);
    RPowScaled(b, xe, m);
    NoTenPower(c, n);
    NoTenPower(b, m);
    PowPositive(c, n);
    PowPositive(b, m);
    hide Pow, RPow, Scaled;
    StrippedUnique(Pow(c, n), g * n, Pow(b, m), xe * m);
  }

  lemma LargeProduct(q: nat, e: nat)
    requires q >= 1 && e >= 1
    ensures Scaled(q, e) > 1.0
  {
    ScaledShift(q, e, 0);
    MulOrder(1, q, Pow10(e));
    Pow10Monotone(1, e);
    assert Pow10(1) == 10 * Pow10(0);
    ScaledOrder(1, q * Pow10(e), 0);
    UnitScaled(0);
    UnitTen();
  }

  lemma UnitProduct(q: nat, e: int) returns (k: nat)
    requires q >= 1 && Scaled(q, e) == 1.0
    ensures q == Pow10(k) && e == 0 - k
  {
    UnitScaled(0);
    UnitTen();
    if e > 0 {
      LargeProduct(q, e);
    }
    k := 0 - e;
    ScaledShift(1, 0, e);
    ScaledInjective(q, 1 * Pow10(0 - e), e);
  }

  /** For y < 0: the coefficients multiply to a power of ten, which the exponents take back. */
  lemma NegativeShape(b: nat, xe: int, m: nat, n: nat, c: nat, g: int) returns (k: nat)
    requires b > 0 && c > 0 && PowerAt(Scaled(b, xe), true, m, n, Scaled(c, g))
    ensures Pow(c, n) * Pow(b, m) == Pow10(k) && g * n + xe * m == 0 - k
  {
    hide Pow, RPow, Scaled, Pow10;
    RPowScaled(c, g, n);
    RPowScaled(b, xe, m);
    PowPositive(c, n);
    PowPositive(b, m);
    k := UnitOfParts(RPow(Scaled(c, g), n), RPow(Scaled(b, xe), m), Pow(c, n), g * n, Pow(b, m), xe * m);
  }

  lemma UnitOfParts(x: real, y: real, s: nat, u: int, t: nat, w: int) returns (k: nat)
    requires s >= 1 && t >= 1 && x * y == 1.0 && x == Scaled(s, u) && y == Scaled(t, w)
    ensures s * t == Pow10(k) && u + w == 0 - k
  {
    hide Scaled;
    ScaledTimes(s, u, t, w, u + w);
    MulOrder(1, s, t);
    k := UnitProduct(s * t, u + w);
  }

  /** The stripped coefficient and exponent of an answer, at a given ratio for y. */
  lemma AnswerAt(x: real, y: real, p: nat, m: nat, n: nat) returns (c: nat, g: int)
    requires x > 0.0 && HasAnswer(x, y, p) && IsRatio(y, m, n)
    ensures c > 0 && c % 10 != 0 && c < Pow10(p) && PowerAt(x, y < 0.0, m, n, Scaled(c, g))
  {
    var d: Decimal :| IsAnswer(x, y, p, d);
    hide PowerAt, IsRatio, Scaled, Pow10;
    c, g := StrippedForm(d, p);
    PowerAtRatio(x, y, m, n, d.Value());
  }

  lemma PositiveScaled(b: nat, e: int)
    requires b > 0
    ensures Scaled(b, e) > 0.0
  {
    ScaledOrder(0, b, e);
    ZeroScaled(e);
  }

  // ---------- x is a power of ten ----------

  /** The other direction of shifting: an integer in the ratio is the shifted product. */
  lemma RatioShifted(z: int, yc: nat, ye: int, k: int)
    requires k * Den(ye) == z * Num(yc, ye)
    ensures Scaled(k, 0) == Scaled(z * yc, ye)
  {
    if ye >= 0 {
      ScaledShift(z * yc, ye, 0);
      MulAssociates(z, yc, Pow10(ye));
    } else {
      ScaledShift(k, 0, ye);
    }
  }

  /** When the exponent of the result is no integer, there is no result. */
  lemma TenPowerRefused(x: real, y: real, p: nat, xe: int, yc: nat, ye: int, z: int, ze: int)
    requires x == Ten(xe) && yc > 0 && AbsReal(y) == Scaled(yc, ye)
    requires Scaled(z, ze) == Scaled(xe * yc, ye) && z % 10 != 0 && ze < 0
    ensures !HasAnswer(x, y, p)
  {
    if HasAnswer(x, y, p) {
      var m, n := Num(yc, ye), Den(ye);
      RatioOf(y, yc, ye);
      UnitScaled(xe);
      PositiveScaled(1, xe);
      hide HasAnswer, Scaled, Ten, Pow10, Pow, IsRatio, PowerAt, Num, Den, AbsReal;
      var c, g := AnswerAt(x, y, p, m, n);
      var h := TenExponent(xe, m, n, c, g, y < 0.0);
      RatioShifted(xe, yc, ye, h);
      NotAnInteger(h, z, ze);
    }
  }

  lemma TenExponent(xe: int, m: nat, n: nat, c: nat, g: int, neg: bool) returns (h: int)
    requires c > 0 && c % 10 != 0 && PowerAt(Scaled(1, xe), neg, m, n, Scaled(c, g))
    ensures h * n == xe * m
  {
    if neg {
      var k := NegativeShape(1, xe, m, n, c, g);
      PowOne(m);
      NoTenPower(c, n);
      TenDividesPower(k);
      h := 0 - g;
      MulNegate(g, n);
    } else {
      PositiveShape(1, xe, m, n, c, g);
      h := g;
    }
  }

  lemma NotAnInteger(h: int, z: int, ze: int)
    requires Scaled(h, 0) == Scaled(z, ze) && ze < 0
    ensures z % 10 == 0
  {
    ScaledShift(h, 0, ze);
    ScaledInjective(h * Pow10(-ze), z, ze);
    var q := Pow10(-ze - 1);
    assert Pow10(-ze) == 10 * q;
    hide Pow10;
    TenMultiple(z, h, Pow10(-ze), q);
  }

  // ---------- y is negative ----------

  /** `emax` bounds the exponents e with d^e of at most p digits. */
  ghost predicate Bounds(d: nat, p: nat, emax: nat) {
    forall e: nat | Pow(d, e) < Pow10(p) :: e <= emax
  }

  /** d^u > 10^v bounds the exponents by p * u / v. */
  lemma BoundByPowers(d: nat, u: nat, v: nat, p: nat)
    requires d >= 2 && u >= 1 && v >= 1 && Pow(d, u) >= Pow(10, v)
    ensures Bounds(d, p, (p * u) / v)
  {
    forall e: nat | e > (p * u) / v ensures Pow(d, e) > Pow10(p) {
      ExceedsQuotient(e, p * u, v);
      LargePower(d, u, v, p, e);
    }
  }

  lemma LargePower(d: nat, u: nat, v: nat, p: nat, e: nat)
    requires d >= 2 && v >= 1 && Pow(d, u) >= Pow(10, v) && 0 <= p * u < v * e
    ensures Pow(d, e) > Pow10(p)
  {
    hide Pow;
    PowMul(d, e, v);
    PowMul(d, u, p);
    PowMul(10, v, p);
    PowMul(10, p, v);
    MulCommutes(v, e);
    MulCommutes(u, p);
    MulCommutes(v, p);
    TenPow(p);
    PowGrows(d, u * p, v * e);
    PowPositive(10, v);
    PowMonotone(Pow(10, v), Pow(d, u), p);
    PowPositive(d, e);
    RootOrder(Pow(d, e), Pow(10, p), v) by { PowPositive(10, p); }
  }

  lemma ExceedsQuotient(m: nat, n: nat, b: nat)
    requires b > 0 && m > n / b
    ensures b * m > n
  {
    DivisionLaw(n, b);
    MulOrder(n / b + 1, m, b);
  }

  /** A base that has an answer is a power of two or of five. */
  lemma InverseBase(b: nat, c: nat, m: nat, n: nat, k: nat) returns (q: nat, i: nat, e: nat)
    requires b > 1 && b % 10 != 0 && c > 0 && c % 10 != 0 && m >= 1 && n >= 1
    requires Pow(c, n) * Pow(b, m) == Pow10(k)
    ensures (q == 2 || q == 5) && b == Pow(q, i) && c == Pow(10 / q, e) && i * m == k == e * n && i >= 1
  {
    NoTenPower(b, m);
    NoTenPower(c, n);
    LargerThanOne(b, m);
    PowPositive(c, n);
    hide Pow;
    q := PartsOfTen(Pow(b, m), Pow(c, n), k);
    i := RootOfPower(q, b, m, k);
    e := RootOfPower(10 / q, c, n, k);
    if i == 0 { ZeroPower(q); }
  }

  lemma LargerThanOne(b: nat, m: nat)
    requires b > 1 && m >= 1
    ensures Pow(b, m) > 1
  {
    PowMonotone(1, b, m);
    PowOne(m);
  }

  lemma PartsOfTen(s: nat, t: nat, k: nat) returns (q: nat)
    requires t * s == Pow10(k) && s > 1 && s % 10 != 0 && t % 10 != 0
    ensures (q == 2 || q == 5) && s == Pow(q, k) && t == Pow(10 / q, k)
  {
    MulCommutes(s, t);
    if k == 0 { UnitFactors(s, t); }
    BothParts(s, t, k);
    if s % 5 != 0 && t % 2 != 0 {
      TenSplits(s, t, k);
      q := 2;
    } else {
      TenSplits(t, s, k);
      q := 5;
    }
  }

  lemma ZeroPower(q: int)
    ensures Pow(q, 0) == 1
  {
  }

  /** One factor of a power of ten takes all the twos, the other all the fives. */
  lemma BothParts(s: nat, t: nat, k: nat)
    requires s * t == Pow10(k) && k >= 1 && s % 10 != 0 && t % 10 != 0
    ensures (s % 5 != 0 && t % 2 != 0) || (t % 5 != 0 && s % 2 != 0)
  {
    var p := Pow10(k - 1);
    assert s * t == 10 * p;
    hide Pow10;
    Halves(s * t, 2 * p, 5);
    Halves(s * t, 5 * p, 2);
    TenParts(s);
    TenParts(t);
    if s % 5 != 0 {
      MulCommutes(s, t);
      FiveDivides(t, s);
    } else if t % 5 != 0 {
    } else {
      if s % 2 != 0 { PrimeResidue(s, t, 2); }
    }
  }

  /** An integer that equals the shifted product is what the exact shift answers. */
  lemma ShiftAnswers(v: int, ye: int, k: int)
    requires Scaled(k, 0) == Scaled(v, ye)
    ensures LshiftExact(v, ye) == Some(k)
  {
    LshiftExactMeaning(v, ye);
    match LshiftExact(v, ye)
    case Some(j) => ScaledInjective(j, k, 0);
    case None => WholeShift(v, ye, k);
  }

  lemma WholeShift(v: int, ye: int, k: int)
    requires Scaled(k, 0) == Scaled(v, ye) && ye < 0
    ensures v % Pow10(-ye) == 0
  {
    ScaledShift(k, 0, ye);
    ScaledInjective(k * Pow10(-ye), v, ye);
    DivModUnique(v, Pow10(-ye), k, 0);
  }

  /** A text of at most k digits stands for a number below 10^k. */
  lemma ShortText(n: nat, k: nat)
    requires |Str(n)| <= k
    ensures n < Pow10(k)
  {
    StrVal(n);
    ValUpper(Str(n));
    Pow10Monotone(|Str(n)|, k);
  }

  lemma FiveBeatsTwo()
    ensures Pow(5, 28) >= Pow(2, 65)
  {
    assert Pow(5, 7) == 78125 by { PowAdd(5, 3, 4); }
    PowAdd(5, 7, 7);
    PowAdd(5, 14, 14);
    assert Pow(2, 8) == 256 by { PowAdd(2, 4, 4); }
    PowAdd(2, 8, 8);
    PowAdd(2, 16, 16);
    PowAdd(2, 32, 32);
    PowAdd(2, 64, 1);
  }

  lemma BoundOfFive(p: nat)
    ensures Bounds(5, p, (p * 93) / 65)
  {
    FiveBeatsTwo();
    hide Pow, Bounds;
    PowAdd(5, 65, 28);
    PowProduct(5, 2, 65);
    PowPositive(5, 65);
    MulOrder(Pow(2, 65), Pow(5, 28), Pow(5, 65));
    MulCommutes(Pow(5, 28), Pow(5, 65));
    MulCommutes(Pow(2, 65), Pow(5, 65));
    BoundByPowers(5, 93, 65, p);
  }

  lemma BoundOfTwo(p: nat)
    ensures Bounds(2, p, (p * 10) / 3)
  {
    hide Bounds;
    PowAdd(2, 5, 5);
    BoundByPowers(2, 10, 3, p);
  }

  /** The estimate of the exponent of a power of five is not too small. */
  lemma FiveEstimate(c: nat, i: nat)
    requires c == Pow(5, i)
    ensures i <= (BitLength(c) * 28) / 65 && Pow(5, (BitLength(c) * 28) / 65) % c == 0
  {
    hide Pow, BitLength;
    var k := BitLength(c);
    PowPositive(5, i);
    BitBounds(c);
    FiveBeatsTwo();
    FiveBits(i, k, c);
    FactorOfPower(5, (k * 28) / 65, i);
  }

  lemma FactorOfPower(b: nat, e: nat, i: nat)
    requires b >= 1 && i <= e
    ensures Pow(b, i) >= 1 && Pow(b, e) % Pow(b, i) == 0
  {
    hide Pow;
    PowPositive(b, i);
    PowAdd(b, e - i, i);
    DivModUnique(Pow(b, e), Pow(b, i), Pow(b, e - i), 0);
  }

  lemma FiveBits(i: nat, k: nat, c: nat)
    requires c == Pow(5, i) && c < Pow(2, k) && Pow(5, 28) >= Pow(2, 65)
    ensures i <= (k * 28) / 65
  {
    var u, v := 65, 28;
    hide Pow;
    PowMul(2, u, i);
    PowMul(5, v, i);
    PowMul(5, i, v);
    PowMul(2, k, v);
    PowPositive(2, u);
    PowMonotone(Pow(2, u), Pow(5, v), i);
    PowMonotone(c, Pow(2, k), v);
    assert v * i == i * v;
    if u * i >= k * v { PowGrows(2, k * v, u * i); }
  }

  lemma {:induction false} LowestBitOfTwos(i: nat)
    ensures Pow(2, i) > 0 && LowestBit(Pow(2, i)) == Pow(2, i)
  {
    if i > 0 {
      LowestBitOfTwos(i - 1);
      assert Pow(2, i) / 2 == Pow(2, i - 1);
    }
  }

  /** What the answer for a negative y says about the stripped coefficient of x. */
  lemma NegativeBase(x: real, y: real, p: nat, b: nat, xe: int, yc: nat, ye: int)
    returns (q: nat, i: nat, e: nat, f: int)
    requires b > 1 && b % 10 != 0 && x == Scaled(b, xe)
    requires y < 0.0 && yc > 0 && AbsReal(y) == Scaled(yc, ye) && HasAnswer(x, y, p)
    ensures (q == 2 || q == 5) && i >= 1 && b == Pow(q, i) && Pow(10 / q, e) < Pow10(p)
    ensures LshiftExact(i * yc, ye) == Some(e) && LshiftExact(xe * yc, ye) == Some(f)
    ensures ye >= 0 ==> e >= Pow10(ye)
  {
    var m, n := Num(yc, ye), Den(ye);
    RatioOf(y, yc, ye);
    PositiveScaled(b, xe);
    LargeNumerator(yc, ye);
    hide HasAnswer, Scaled, Pow10, Pow, IsRatio, PowerAt, Num, Den, AbsReal, LshiftExact;
    var c, g := AnswerAt(x, y, p, m, n);
    var k := NegativeShape(b, xe, m, n, c, g);
    q, i, e := InverseBase(b, c, m, n, k);
    f := InverseExponent(g, n, xe, m, k, e);
    RatioShifted(i, yc, ye, e);
    RatioShifted(xe, yc, ye, f);
    ShiftAnswers(i * yc, ye, e);
    ShiftAnswers(xe * yc, ye, f);
    if ye >= 0 { LargeExponent(e, n, i, m, ye); }
  }

  lemma LargeNumerator(yc: nat, ye: int)
    requires yc > 0
    ensures Num(yc, ye) >= 1 && (ye >= 0 ==> Num(yc, ye) >= Pow10(ye) && Den(ye) == 1)
  {
    if ye >= 0 { MulOrder(1, yc, Pow10(ye)); }
  }

  lemma LargeExponent(e: nat, n: nat, i: nat, m: nat, ye: nat)
    requires i * m == e * n && n == 1 && i >= 1 && m >= Pow10(ye)
    ensures e >= Pow10(ye)
  {
    hide Pow10;
    MulOrder(1, i, m);
  }

  lemma InverseExponent(g: int, n: nat, xe: int, m: nat, k: int, e: int) returns (f: int)
    requires g * n + xe * m == 0 - k && k == e * n
    ensures f * n == xe * m
  {
    f := 0 - g - e;
    assert f * n == 0 - g * n - e * n;
  }

  lemma TwoIsNotFive(i: nat, j: nat)
    requires i >= 1
    ensures Pow(2, i) % 2 == 0 && Pow(2, i) != Pow(5, j)
  {
    PowStep(2, i - 1);
    TenFree(5, j, 2);
    hide Pow;
    Halves(Pow(2, i), Pow(2, i - 1), 2);
  }

  lemma FiveIsFive(i: nat)
    requires i >= 1
    ensures Pow(5, i) % 5 == 0
  {
    PowStep(5, i - 1);
    hide Pow;
    Halves(Pow(5, i), Pow(5, i - 1), 5);
  }

  lemma LastDigitParts(b: nat)
    requires b % 10 != 0
    ensures b % 10 in {2, 4, 6, 8} <==> b % 2 == 0
    ensures b % 10 == 5 <==> b % 5 == 0
  {
    var q, r := b / 10, b % 10;
    assert b == 10 * q + r;
    MultipleDrops(5 * q, r, 2);
    MultipleDrops(2 * q, r, 5);
  }

  /** Without a coefficient that is a power of two or of five there is no answer for a negative y. */
  lemma BaseRefused(x: real, y: real, p: nat, b: nat, xe: int, yc: nat, ye: int)
    requires b > 1 && b % 10 != 0 && x == Scaled(b, xe)
    requires y < 0.0 && yc > 0 && AbsReal(y) == Scaled(yc, ye)
    ensures HasAnswer(x, y, p) ==>
      if b % 10 in {2, 4, 6, 8} then LowestBit(b) == b else b % 10 == 5 && exists i: nat :: b == Pow(5, i)
  {
    LastDigitParts(b);
    if HasAnswer(x, y, p) {
      hide HasAnswer, Scaled, Pow10, Pow, LowestBit, LshiftExact, AbsReal;
      var q, i, e, f := NegativeBase(x, y, p, b, xe, yc, ye);
      if q == 2 {
        LowestBitOfTwos(i);
        TwoIsNotFive(i, 0);
      } else {
        FiveIsFive(i);
        TenParts(b);
      }
    }
  }

  /** For such a coefficient there is no answer when a test on the exponents fails. */
  lemma InverseRefused(x: real, y: real, p: nat, b: nat, i: nat, emax: nat, xe: int, yc: nat, ye: int)
    requires (b == 2 || b == 5) && i >= 1 && x == Scaled(Pow(b, i), xe) && Bounds(10 / b, p, emax)
    requires y < 0.0 && yc > 0 && AbsReal(y) == Scaled(yc, ye)
    ensures HasAnswer(x, y, p) ==>
      && LshiftExact(i * yc, ye).Some? && LshiftExact(xe * yc, ye).Some? && ye < |Str(emax)|
      && 0 <= LshiftExact(i * yc, ye).value <= emax && Pow(10 / b, LshiftExact(i * yc, ye).value) < Pow10(p)
  {
    if HasAnswer(x, y, p) {
      PowerOfPrime(b, i);
      hide HasAnswer, Scaled, Pow10, Pow, LshiftExact, AbsReal, Str;
      var q, j, e, f := NegativeBase(x, y, p, Pow(b, i), xe, yc, ye);
      SamePrime(b, i, q, j);
      if ye >= |Str(emax)| { ShortText(emax, ye); }
    }
  }

  lemma PowerOfPrime(b: nat, i: nat)
    requires (b == 2 || b == 5) && i >= 1
    ensures Pow(b, i) > 1 && Pow(b, i) % 10 != 0
  {
    LargerThanOne(b, i);
    NoTenPower(b, i);
  }

  lemma SamePrime(b: nat, i: nat, q: nat, j: nat)
    requires (b == 2 || b == 5) && (q == 2 || q == 5) && i >= 1 && j >= 1 && Pow(b, i) == Pow(q, j)
    ensures q == b && j == i
  {
    TwoIsNotFive(i, j);
    TwoIsNotFive(j, i);
    SameExponent(b, i, j);
  }

  // ---------- y is positive ----------

  /** Both early tests: an answer needs |y| * |xe| >= 1 unless xe is zero, and xc^|y| >= 2. */
  lemma EarlyTests(x: real, y: real, p: nat, b: nat, xe: int, yc: nat, ye: int)
    requires b > 1 && b % 10 != 0 && x == Scaled(b, xe) && y > 0.0 && yc > 0 && ye < 0 && y == Scaled(yc, ye)
    ensures HasAnswer(x, y, p) ==>
      (xe == 0 || |Str(Abs(yc * xe))| > -ye) && 0 <= yc * BitLength(b) && |Str(yc * BitLength(b))| > -ye
  {
    if HasAnswer(x, y, p) {
      EarlyRoom(x, y, p, b, xe, yc, ye);
    }
  }

  lemma EarlyRoom(x: real, y: real, p: nat, b: nat, xe: int, yc: nat, ye: int)
    requires b > 1 && b % 10 != 0 && x == Scaled(b, xe) && y > 0.0 && yc > 0 && ye < 0 && y == Scaled(yc, ye)
    requires HasAnswer(x, y, p)
    ensures 0 <= yc * BitLength(b) && |Str(yc * BitLength(b))| > -ye && (xe == 0 || |Str(Abs(yc * xe))| > -ye)
  {
    var n := Pow10(-ye);
    RatioOf(y, yc, ye);
    assert IsRatio(y, yc, n);
    PositiveScaled(b, xe);
    hide *;
    var c, g := AnswerAt(x, y, p, yc, n);
    PositiveShape(b, xe, yc, n, c, g);
    ManyBits(b, c, yc, n);
    FarExponent(g, n, xe, yc);
    LongText(Abs(yc * xe), -ye);
    LongText(yc * BitLength(b), -ye);
  }

  lemma LongText(n: nat, k: nat)
    ensures n >= Pow10(k) ==> |Str(n)| > k
  {
    hide Str, Pow10;
    if |Str(n)| <= k { ShortText(n, k); }
  }

  lemma ManyBits(b: nat, c: nat, m: nat, n: nat)
    requires b > 1 && c > 0 && m >= 1 && n >= 1 && Pow(c, n) == Pow(b, m)
    ensures 0 <= m * BitLength(b) && m * BitLength(b) >= n
  {
    var k := BitLength(b);
    BitBounds(b);
    LargerThanOne(b, m);
    PowOne(n);
    hide Pow, BitLength;
    PowMonotone(b, Pow(2, k), m);
    PowMonotone(2, c, n) by { assert c != 1; }
    PowMul(2, k, m);
    MulCommutes(k, m);
    if k * m < n { PowGrows(2, k * m, n); }
  }

  lemma FarExponent(g: int, n: nat, xe: int, m: nat)
    requires n >= 1 && m >= 1 && g * n == xe * m
    ensures xe == 0 || Abs(m * xe) >= n
  {
    MulCommutes(m, xe);
    if xe != 0 {
      NonzeroMultiple(xe, m);
      if g >= 1 { MulOrder(1, g, n); } else { MulOrder(g, 0, n); if g <= -1 { MulOrder(g, -1, n); } }
    }
  }

  lemma NonzeroMultiple(a: int, m: int)
    requires a != 0 && m >= 1
    ensures a * m != 0
  {
    if a > 0 { MulOrder(1, a, m); } else { MulOrder(a, -1, m); }
  }

  predicate IsCofactor(n: nat, w: nat, k: nat) {
    n * w == Pow10(k)
  }

  /** `n` divides some power of ten. */
  ghost predicate DividesTens(n: nat) {
    exists w: nat, k: nat :: IsCofactor(n, w, k)
  }

  /** m and n have no common factor, as far as twos and fives are concerned, and n has no others. */
  ghost predicate Reduced(m: nat, n: nat) {
    && m >= 1 && n >= 1 && !(m % 2 == 0 && n % 2 == 0) && !(m % 5 == 0 && n % 5 == 0)
    && DividesTens(n)
  }

  lemma ReducedIsCoprime(m: nat, n: nat) returns (s: int, t: int)
    requires Reduced(m, n)
    ensures s * m + t * n == 1
  {
    var w: nat, k: nat :| IsCofactor(n, w, k);
    var g, x, y;
    g, x, y, s, t := Bezout(m, n);
    hide Pow10;
    assert (g * y) * w == g * (y * w);
    MulOrder(0, w, y);
    MulCommutes(w, y);
    CommonFactor(g, x, y, m, n, 2);
    CommonFactor(g, x, y, m, n, 5);
    UnitDivisor(g, y * w, k);
  }

  lemma CommonFactor(g: nat, x: nat, y: nat, m: nat, n: nat, d: nat)
    requires d >= 1 && m == g * x && n == g * y
    ensures g % d == 0 ==> m % d == 0 && n % d == 0
  {
    if g % d == 0 {
      var h := g / d;
      DivisionLaw(g, d);
      MulCommutes(h, d);
      MulAssociates(d, h, x);
      MulAssociates(d, h, y);
      Halves(m, h * x, d);
      Halves(n, h * y, d);
    }
  }

  /** For y = m/n in lowest terms an answer is the m-th power of an n-th root of x. */
  lemma RootExists(x: real, y: real, p: nat, b: nat, xe: int, m: nat, n: nat)
    requires b > 1 && b % 10 != 0 && x == Scaled(b, xe) && y > 0.0 && IsRatio(y, m, n) && Reduced(m, n)
    ensures HasAnswer(x, y, p) ==>
      xe % n == 0 && BitLength(b) > n
      && exists a: nat :: Pow(a, n) == b && Pow(a, m) < Pow10(p)
  {
    if HasAnswer(x, y, p) {
      PositiveScaled(b, xe);
      hide HasAnswer, Scaled, Pow10, Pow, IsRatio, PowerAt, BitLength;
      var c, g := AnswerAt(x, y, p, m, n);
      PositiveShape(b, xe, m, n, c, g);
      var s, t := ReducedIsCoprime(m, n);
      CoprimeDivides(xe, g, m, n, s, t);
      var a := CommonRoot(c, b, m, n, s, t);
      RootBits(a, b, n);
    }
  }

  lemma RootBits(a: nat, b: nat, n: nat)
    requires b > 1 && n >= 1 && Pow(a, n) == b
    ensures BitLength(b) > n
  {
    BitBounds(b);
    PowOne(n);
    assert Pow(0, n) == 0 * Pow(0, n - 1);
    hide Pow, BitLength;
    PowMonotone(2, a, n) by { assert a >= 2; }
    if BitLength(b) <= n { PowGrows(2, BitLength(b), n); }
  }
}
