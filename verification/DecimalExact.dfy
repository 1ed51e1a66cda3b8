/**
 `_power_exact`: it answers exactly when some number of at most p digits is the power that was asked for, and then
 with that number, its exponent as near to the ideal one as p digits allow.
 */
module DecimalExact {
  import opened Arithmetic
  import opened DecimalAdd
  import opened DecimalCore
  import opened DecimalFix
  import opened DecimalPower
  import opened DecimalRefusals
  import opened Digits
  import opened ExactPowers
  import opened ExactRoots
  import opened Powers
  import opened Sequences

  // ---------- _log10_lb ----------

  /** The correction subtracted for a leading digit. */
  function Correction(d: nat): nat {
    match d
    case 1 => 100 case 2 => 70 case 3 => 53 case 4 => 40 case 5 => 31
    case 6 => 23 case 7 => 16 case 8 => 10 case _ => 5
  }

  function Log10LowerBound(c: nat): int
    requires c >= 1
  {
    var s := Str(c);
    100 * |s| - Correction(DigitVal(s[0]))
  }

  lemma LeadingHundredth(d: nat)
    requires 1 <= d <= 9
    ensures Pow(10, 100) <= Pow(d, 100) * Pow(10, Correction(d))
  {
    hide Pow;
    PowHundred(10);
    if d != 1 { SmallTens(Correction(d)); }
    match d
    case 1 => PowOne(100);
    case 2 => PowHundred(2);
    case 3 => PowHundred(3);
    case 4 => PowHundred(4);
    case 5 => PowHundred(5);
    case 6 => PowHundred(6);
    case 7 => PowHundred(7);
    case 8 => PowHundred(8);
    case 9 => PowHundred(9);
  }

  /** x^100 by squaring, for the constants of the table. */
  lemma PowHundred(x: nat)
    ensures var a := x * x * x * x * x; var b := a * a; var c := b * b; var d := c * c * b; Pow(x, 100) == d * d
  {
    var a := x * x * x * x * x;
    var b := a * a;
    var c := b * b;
    assert Pow(x, 5) == a by {
      assert Pow(x, 1) == x * Pow(x, 0);
      assert Pow(x, 2) == x * Pow(x, 1);
      assert Pow(x, 3) == x * Pow(x, 2);
      assert Pow(x, 4) == x * Pow(x, 3);
    }
    PowAdd(x, 5, 5);
    PowAdd(x, 10, 10);
    PowAdd(x, 20, 20);
    PowAdd(x, 40, 10);
    PowAdd(x, 50, 50);
  }

  lemma SmallTens(k: nat)
    requires k in {70, 53, 40, 31, 23, 16, 10, 5}
    ensures Pow(10, k) == match k
      case 70 => 10000000000000000000000000000000000000000000000000000000000000000000000
      case 53 => 100000000000000000000000000000000000000000000000000000
      case 40 => 10000000000000000000000000000000000000000
      case 31 => 10000000000000000000000000000000
      case 23 => 100000000000000000000000
      case 16 => 10000000000000000
      case 10 => 10000000000
      case _ => 100000
  {
    assert Pow(10, 1) == 10 * Pow(10, 0);
    PowAdd(10, 1, 1); PowAdd(10, 2, 2); PowAdd(10, 1, 4); PowAdd(10, 5, 5); PowAdd(10, 1, 5);
    PowAdd(10, 6, 10); PowAdd(10, 10, 10); PowAdd(10, 20, 1); PowAdd(10, 21, 2); PowAdd(10, 20, 20);
    PowAdd(10, 21, 10); PowAdd(10, 31, 20); PowAdd(10, 51, 2); PowAdd(10, 40, 20); PowAdd(10, 60, 10);
  }

  lemma LogBoundRange(c: nat)
    requires c >= 1
    ensures var s := Str(c);
            var d := DigitVal(s[0]);
      && Canonical(s) && 1 <= d <= 9 && d * Pow10(|s| - 1) <= c
      && Log10LowerBound(c) == 100 * |s| - Correction(d)
    ensures c > 1 ==> Log10LowerBound(c) > 0
  {
    var s := Str(c);
    StrVal(c);
    CanonicalBounds(s);
    ValLeading(s);
    if |s| == 1 {
      assert s[..0] == "";
    }
  }

  /** The bound is sound: 10^bound <= c^100, and it is positive above 1. */
  lemma Log10LowerBoundSound(c: nat)
    requires c >= 1
    ensures Log10LowerBound(c) >= 0 && Pow(10, Log10LowerBound(c)) <= Pow(c, 100)
    ensures c > 1 ==> Log10LowerBound(c) > 0
  {
    var s := Str(c);
    var d, l := DigitVal(s[0]), |s|;
    LogBoundRange(c);
    hide Pow, Pow10, Str, Log10LowerBound, Correction;
    LeadingHundredth(d);
    TenPow(l - 1);
    LeadingPower(c, d, 10, l - 1, Correction(d), Log10LowerBound(c), 100, (l - 1) * 100);
  }

  lemma LeadingPower(c: nat, d: nat, ten: nat, l: nat, k: nat, b: nat, h: nat, lh: nat)
    requires ten >= 1 && d * Pow(ten, l) <= c && b + k == h + lh && lh == l * h
    requires Pow(ten, h) <= Pow(d, h) * Pow(ten, k)
    ensures Pow(ten, b) <= Pow(c, h)
  {
    hide Pow;
    PowPositive(ten, l);
    PowPositive(ten, k);
    PowPositive(ten, lh);
    ProductPowerBound(d, Pow(ten, l), c, h);
    PowMul(ten, l, h);
    SameSplit(ten, b, k, h, lh);
    LeadingBound(Pow(ten, h), Pow(d, h), Pow(ten, k), Pow(ten, lh), Pow(c, h), Pow(ten, b));
  }

  lemma SameSplit(a: int, b: nat, k: nat, h: nat, l: nat)
    requires b + k == h + l
    ensures Pow(a, b) * Pow(a, k) == Pow(a, h) * Pow(a, l)
  {
    hide Pow;
    PowAdd(a, b, k);
    PowAdd(a, h, l);
  }

  lemma ProductPowerBound(d: nat, t: nat, c: nat, h: nat)
    requires d * t <= c
    ensures Pow(d, h) * Pow(t, h) <= Pow(c, h)
  {
    hide Pow;
    MulOrder(0, d, t);
    PowMonotone(d * t, c, h);
    PowProduct(d, t, h);
  }

  lemma LeadingBound(h: int, e: int, k: int, t: int, c: int, b: int)
    requires h <= e * k && e * t <= c && b * k == h * t && 1 <= k && 1 <= t
    ensures b <= c
  {
    MulOrder(h, e * k, t);
    MulOrder(e * t, c, k);
    assert (e * k) * t == (e * t) * k;
    if c + 1 <= b { MulOrder(c + 1, b, k); }
  }

  /** When the quick size test gives up, the power really has more than p digits. */
  lemma SizeTestSound(c: nat, m: nat, p: nat)
    requires c > 1 && Log10LowerBound(c) > 0 && m > (p * 100) / Log10LowerBound(c)
    ensures Pow(c, m) > Pow10(p)
  {
    var b := Log10LowerBound(c);
    hide Pow, Log10LowerBound;
    Log10LowerBoundSound(c);
    ExceedsQuotient(m, p * 100, b);
    PowMonotone(Pow(10, b), Pow(c, 100), m) by { PowPositive(10, b); }
    PowMul(10, b, m);
    PowMul(c, 100, m);
    PowMul(c, m, 100);
    PowGrows(10, p * 100, b * m);
    PowMul(10, p, 100);
    TenPow(p);
    PowPositive(c, m);
    RootOrder(Pow(c, m), Pow(10, p), 100);
  }

  // ---------- the method ----------

  /** `_isinteger` */
  predicate IsInteger(y: Decimal)
    requires y.Finite?
  {
    y.exp >= 0 || AllZeros(y.coeff, if -y.exp <= |y.coeff| then |y.coeff| + y.exp else 0)
  }

  /** `int(y)` for a nonnegative y */
  function IntPart(y: Decimal): nat
    requires y.Finite? && y.Valid()
  {
    if y.exp >= 0 then Shl(Val(y.coeff), y.exp)
    else if -y.exp <= |y.coeff| then Val(y.coeff[..|y.coeff| + y.exp])
    else 0
  }

  lemma IntegerMeaning(y: Decimal)
    requires y.Finite? && y.Valid() && !y.IsZero() && IsInteger(y)
    ensures y.Magnitude() == IntPart(y) as real && IntPart(y) >= 1
  {
    CanonicalBounds(y.coeff);
    hide Val, Pow10, Scaled, Ten;
    WholeScaled(IntPart(y));
    if y.exp >= 0 {
      ScaledShift(Val(y.coeff), y.exp, 0);
    } else if -y.exp <= |y.coeff| {
      var k := |y.coeff| + y.exp;
      ValSplit(y.coeff, k);
      AllZerosVal(y.coeff, k);
      ScaledShift(Val(y.coeff[..k]), 0, y.exp);
    }
  }

  lemma WholeScaled(n: int)
    ensures Scaled(n, 0) == n as real
  {
    UnitTen();
  }

  /** The number of zeros that brings the exponent towards the ideal one, within `room`. */
  function IdealZeros(x: Decimal, y: Decimal, exponent: int, room: int): int
    requires x.Finite? && y.Finite? && y.Valid()
  {
    if IsInteger(y) && !y.neg then Min(exponent - x.exp * IntPart(y), room) else 0
  }

  lemma IdealZerosRange(x: Decimal, y: Decimal, xe: int, m: nat, n: nat, exponent: int, room: int)
    requires x.Finite? && y.Finite? && y.Valid() && !y.IsZero() && x.exp <= xe && room >= 0
    requires IsRatio(y.Value(), m, n) && (!y.neg ==> exponent * n == xe * m)
    ensures 0 <= IdealZeros(x, y, exponent, room) <= room
  {
    if IsInteger(y) && !y.neg {
      var k := IntPart(y);
      IntegerMeaning(y);
      ZeroValue(y);
      hide *;
      WholeRatio(y.Value(), k, m, n);
      WholeExponent(x.exp, xe, k, n, m, exponent);
    }
  }

  lemma WholeRatio(v: real, k: nat, m: nat, n: nat)
    requires v == k as real && IsRatio(v, m, n)
    ensures n >= 1 && k * n == m
  {
    IntProduct(k, n);
  }

  lemma WholeExponent(x: int, xe: int, k: nat, n: nat, m: nat, exponent: int)
    requires n >= 1 && x <= xe && k * n == m && exponent * n == xe * m
    ensures x * k <= exponent
  {
    MulOrder(x, xe, k);
    assert xe * m == (xe * k) * n;
    if exponent < xe * k { MulOrder(exponent + 1, xe * k, n); }
  }

  predicate NoTrailingZero(s: string) {
    s != "" && s[|s| - 1] != '0'
  }

  /** For a natural y the exponent is as near to the ideal one as `p` digits allow; else there is no zero to shed. */
  ghost predicate NearIdeal(x: Decimal, y: Decimal, p: nat, d: Decimal)
    requires x.Finite? && y.Finite? && y.Valid()
  {
    d.Finite? &&
    if IsInteger(y) && !y.neg then
      d.exp >= x.exp * IntPart(y) && (d.exp == x.exp * IntPart(y) || |d.coeff| == p)
    else NoTrailingZero(d.coeff)
  }

  /** An answer is given exactly when there is one, and it is right. */
  ghost predicate Answered(x: real, y: real, p: nat, r: Option<Decimal>) {
    (r.Some? <==> HasAnswer(x, y, p)) && (r.Some? ==> IsAnswer(x, y, p, r.value))
  }

  lemma NothingToAnswer(x: real, y: real, p: nat)
    ensures !HasAnswer(x, y, p) ==> Answered(x, y, p, None)
  {
  }

  lemma AnswerIsRight(x: real, y: real, p: nat, d: Decimal)
    requires IsAnswer(x, y, p, d)
    ensures Answered(x, y, p, Some(d))
  {
  }

  lemma PaddedIdeal(x: Decimal, y: Decimal, p: nat, s: string, e: int, zeros: nat)
    requires x.Finite? && y.Finite? && y.Valid() && NoTrailingZero(s) && |s| <= p
    requires zeros == IdealZeros(x, y, e, p - |s|)
    ensures NearIdeal(x, y, p, Finite(false, s + Zeros(zeros), e - zeros))
  {
    if !(IsInteger(y) && !y.neg) {
      assert s + Zeros(0) == s;
    }
  }

  lemma StrippedText(c: nat)
    requires c % 10 != 0
    ensures NoTrailingZero(Str(c))
  {
    StrVal(c);
    LastDigit(Str(c));
  }

  lemma PaddedPower(s: string, e: int, zeros: nat)
    requires Canonical(s) && s != "0"
    ensures var d := Finite(false, s + Zeros(zeros), e - zeros);
            d.Valid() && d.Value() == Scaled(Val(s), e) && |d.coeff| == |s| + zeros
  {
    PaddedValid(Finite(false, s, e), e - zeros);
  }

  /** `while c % 10 == 0` */
  method StripTens(c0: nat, e0: int) returns (c: nat, e: int)
    requires c0 > 0
    ensures c > 0 && c % 10 != 0 && e0 <= e && Scaled(c, e) == Scaled(c0, e0)
  {
    c, e := c0, e0;
    while c % 10 == 0
      invariant c > 0 && e0 <= e && Scaled(c, e) == Scaled(c0, e0)
      decreases c
    {
      StripStep(c, e);
      c, e := c / 10, e + 1;
    }
  }

  /** The branch for x = 10^xe. */
  method PowerOfTenBranch(x: Decimal, y: Decimal, p: nat, xe: int, yc: nat, ye: int) returns (r: Option<Decimal>)
    requires p >= 1 && x.Finite? && x.Valid() && x.Value() == Ten(xe) && x.exp <= xe && xe != 0
    requires y.Finite? && y.Valid() && !y.IsZero() && yc > 0 && AbsReal(y.Value()) == Scaled(yc, ye)
    ensures Answered(x.Value(), y.Value(), p, r)
    ensures r.Some? ==> NearIdeal(x, y, p, r.value)
  {
    NonzeroProduct(xe, yc);
    var z, ze := StripZerosOf(xe * yc, ye);
    if ze < 0 {
      TenPowerRefused(x.Value(), y.Value(), p, xe, yc, ye, z, ze);
      return None;
    }
    var exponent := Shl(z, ze);
    ScaledShift(z, ze, 0);
    if y.neg {
      exponent := -exponent;
    }
    TenAnswer(x, y, p, xe, yc, ye, exponent);
    var zeros := IdealZeros(x, y, exponent, p - 1);
    r := Some(Finite(false, "1" + Zeros(zeros), exponent - zeros));
  }

  /** The power of ten with the exponent found, padded towards the ideal exponent, is the answer. */
  lemma TenAnswer(x: Decimal, y: Decimal, p: nat, xe: int, yc: nat, ye: int, exponent: int)
    requires p >= 1 && x.Finite? && x.Valid() && x.Value() == Ten(xe) && x.exp <= xe
    requires y.Finite? && y.Valid() && !y.IsZero() && yc > 0 && AbsReal(y.Value()) == Scaled(yc, ye)
    requires Scaled(if y.neg then -exponent else exponent, 0) == Scaled(xe * yc, ye)
    ensures var zeros := IdealZeros(x, y, exponent, p - 1);
            && zeros >= 0
            && var d := Finite(false, "1" + Zeros(zeros), exponent - zeros);
               Answered(x.Value(), y.Value(), p, Some(d)) && NearIdeal(x, y, p, d)
  {
    hide Scaled, Pow10, Ten, IsPower, Num, Den, Pow, RPow, Val, IdealZeros, AbsReal, PowerAt, IsRatio;
    var m, n := Num(yc, ye), Den(ye);
    ShiftedRatio(xe, yc, ye, if y.neg then -exponent else exponent);
    RatioOf(y.Value(), yc, ye);
    ZeroValue(y);
    IdealZerosRange(x, y, xe, m, n, exponent, p - 1);
    var zeros := IdealZeros(x, y, exponent, p - 1);
    OneText();
    PaddedPower("1", exponent, zeros);
    UnitScaled(exponent);
    TenPower(xe, exponent, m, n, y.neg, xe * m);
    PowersAgree(x.Value(), y.Value(), m, n, Ten(exponent));
    PaddedIdeal(x, y, p, "1", exponent, zeros);
    AnswerIsRight(x.Value(), y.Value(), p, Finite(false, "1" + Zeros(zeros), exponent - zeros));
  }

  /** The loop that moves factors of ten from a nonzero number into its exponent. */
  method StripZerosOf(z0: int, ze0: int) returns (z: int, ze: int)
    requires z0 != 0
    ensures z % 10 != 0 && Scaled(z, ze) == Scaled(z0, ze0)
  {
    hide Scaled;
    z, ze := z0, ze0;
    while z % 10 == 0
      invariant z != 0 && Scaled(z, ze) == Scaled(z0, ze0)
      decreases Abs(z)
    {
      StripStep(z, ze);
      z, ze := z / 10, ze + 1;
    }
  }

  lemma NonzeroProduct(a: int, b: int)
    requires a != 0 && b > 0
    ensures a * b != 0
  {
    if a > 0 { MulOrder(1, a, b); } else { MulOrder(a, -1, b); }
  }

  lemma OneText()
    ensures Canonical("1") && Val("1") == 1
  {
    assert "1"[..0] == "";
  }

  // ---------- negative exponents: powers of two and of five ----------

  /** Which power of five `c` is, if it is one. */
  method FiveExponent(c: nat) returns (r: Option<nat>)
    requires c > 0
    ensures r.Some? ==> c == Pow(5, r.value)
    ensures r.None? ==> forall i: nat :: c != Pow(5, i)
  {
    var e: nat := (BitLength(c) * 28) / 65;
    PowPositive(5, e);
    var (q, remainder) := DivMod(Pow(5, e), c);
    if remainder != 0 {
      forall i: nat ensures c != Pow(5, i) {
        if c == Pow(5, i) { FiveEstimate(c, i); }
      }
      return None;
    }
    MulCommutes(c, q);
    assert c * 0 == 0;
    while q % 5 == 0
      invariant c * q == Pow(5, e) && q > 0
      decreases q
    {
      DropFive(c, q, e);
      q, e := q / 5, e - 1;
    }
    CofactorOfFive(c, q, e);
    r := Some(e);
  }

  /**
   The branch for a negative exponent: the stripped coefficient must be a power of
   two or of five, and the result is the power of the other.
   */
  method NegativeBranch(ghost x: real, ghost y: real, p: nat, xc: nat, xe: int, yc: nat, ye: int)
    returns (r: Option<Decimal>)
    requires p >= 1 && xc > 1 && xc % 10 != 0 && x == Scaled(xc, xe)
    requires y < 0.0 && yc > 0 && AbsReal(y) == Scaled(yc, ye)
    ensures Answered(x, y, p, r) && (r.Some? ==> NoTrailingZero(r.value.coeff))
  {
    hide HasAnswer, Answered, Pow, Scaled, LowestBit, BitLength, Bounds, AbsReal, IsAnswer, NoTrailingZero;
    BaseRefused(x, y, p, xc, xe, yc, ye);
    NothingToAnswer(x, y, p);
    var lastDigit := xc % 10;
    if lastDigit in {2, 4, 6, 8} {
      if LowestBit(xc) != xc {
        return None;
      }
      var e := BitLength(xc) - 1;
      SingleBit(xc);
      BitBounds(xc);
      AboveOne(2, e, xc);
      BoundOfFive(p);
      r := InverseResult(x, y, p, 2, 5, e, (p * 93) / 65, xe, yc, ye);
    } else if lastDigit == 5 {
      var e := FiveExponent(xc);
      if e == None {
        return None;
      }
      AboveOne(5, e.value, xc);
      BoundOfTwo(p);
      r := InverseResult(x, y, p, 5, 2, e.value, (p * 10) / 3, xe, yc, ye);
    } else {
      return None;
    }
  }

  lemma DropFive(a: nat, q: nat, e: nat)
    requires a >= 1 && q > 0 && q % 5 == 0 && a * q == Pow(5, e)
    ensures e >= 1 && q / 5 > 0 && a * (q / 5) == Pow(5, e - 1)
  {
    var k := q / 5;
    assert q == 5 * k;
    assert a * q == 5 * (a * k);
    if e >= 1 {
      assert Pow(5, e) == 5 * Pow(5, e - 1);
    }
  }

  /** x = b^i * 10^xe and y < 0: the result d^e * 10^(-e-f) with b*d = 10, when it is short enough. */
  method InverseResult(ghost x: real, ghost y: real, p: nat, ghost b: nat, d: nat, i: nat, emax: nat,
                       xe: int, yc: nat, ye: int) returns (r: Option<Decimal>)
    requires p >= 1 && (b == 2 || b == 5) && b * d == 10 && i >= 1 && Bounds(d, p, emax) && x == Scaled(Pow(b, i), xe)
    requires y < 0.0 && yc > 0 && AbsReal(y) == Scaled(yc, ye)
    ensures Answered(x, y, p, r) && (r.Some? ==> NoTrailingZero(r.value.coeff))
  {
    hide HasAnswer, Answered, IsAnswer, NoTrailingZero, IsPower, Bounds, LshiftExact;
    hide Pow, Pow10, Scaled, AbsReal, Val, Str;
    InverseRefused(x, y, p, b, i, emax, xe, yc, ye);
    NothingToAnswer(x, y, p);
    assert 10 / b == d;
    if ye >= |Str(emax)| {
      return None;
    }
    var e := LshiftExact(i * yc, ye);
    var f := LshiftExact(xe * yc, ye);
    if e == None || f == None || e.value > emax {
      return None;
    }
    InverseIsPower(x, y, b, d, i, xe, yc, ye, i * yc, xe * yc, e.value, f.value);
    var c := Pow(d, e.value);
    if c >= Pow10(p) {
      return None;
    }
    var g := -e.value - f.value;
    PowPositive(d, e.value);
    CoefficientFits(c, p);
    NonzeroCoefficient(c, g);
    NoTenPower(d, e.value);
    StrippedText(c);
    r := Some(Finite(false, Str(c), g));
    AnswerIsRight(x, y, p, r.value);
  }

  lemma AboveOne(b: nat, i: nat, c: nat)
    requires c > 1 && c == Pow(b, i)
    ensures i >= 1
  {
  }

  /** The shifted exponents give the power, where iy = i * yc and xy = xe * yc. */
  lemma InverseIsPower(x: real, y: real, b: nat, d: nat, i: nat, xe: int, yc: nat, ye: int, iy: int, xy: int, e: int,
                       f: int)
    requires b * d == 10 && d >= 2 && x == Scaled(Pow(b, i), xe)
    requires y < 0.0 && yc > 0 && AbsReal(y) == Scaled(yc, ye)
    requires iy == i * yc && xy == xe * yc
    requires LshiftExact(iy, ye) == Some(e) && LshiftExact(xy, ye) == Some(f)
    ensures e >= 0 && IsPower(x, y, Scaled(Pow(d, e), -e - f))
  {
    hide Pow, Pow10, Scaled, IsPower, LshiftExact, AbsReal, Num, Den, PowerAt, Ten, IsRatio;
    var m, n := Num(yc, ye), Den(ye);
    LshiftExactMeaning(iy, ye);
    LshiftExactMeaning(xy, ye);
    ShiftedRatio(i, yc, ye, e);
    ShiftedRatio(xe, yc, ye, f);
    RatioOf(y, yc, ye);
    NonnegativeShift(e, n, i, m);
    var c, g := Pow(d, e), -e - f;
    PowPositive(d, e);
    ScaledOrder(0, c, g);
    ZeroScaled(g);
    InversePower(b, d, i, xe, e, f, m, n, i * m, xe * m, g);
    PowersAgree(x, y, m, n, Scaled(c, g));
  }

  lemma NonnegativeShift(k: int, n: nat, i: nat, m: nat)
    requires n >= 1 && k * n == i * m
    ensures k >= 0
  {
    if k <= -1 { MulOrder(k, -1, n); }
  }

  // ---------- positive exponents ----------

  /** Divides out common factors k of m and n. */
  method Reduce(ghost y: real, m0: nat, n0: nat, k: nat) returns (m: nat, n: nat)
    requires (k == 2 || k == 5) && m0 >= 1 && IsRatio(y, m0, n0) && DividesTens(n0)
    ensures IsRatio(y, m, n) && m >= 1 && !(m % k == 0 && n % k == 0) && DividesTens(n)
    ensures forall d: nat | (d == 2 || d == 5) && !(m0 % d == 0 && n0 % d == 0) :: !(m % d == 0 && n % d == 0)
  {
    m, n := m0, n0;
    while m % k == 0 && n % k == 0
      invariant m >= 1 && IsRatio(y, m, n) && DividesTens(n)
      invariant forall d: nat | (d == 2 || d == 5) && !(m0 % d == 0 && n0 % d == 0) :: !(m % d == 0 && n % d == 0)
      decreases n
    {
      HalvedRatio(y, m, n, k);
      ReduceStep(m, n, k);
      m, n := QuotientNat(m, k), QuotientNat(n, k);
    }
  }

  lemma ReduceStep(m: nat, n: nat, k: nat)
    requires (k == 2 || k == 5) && m >= 1 && m % k == 0 && n % k == 0 && DividesTens(n)
    ensures m / k >= 1 && DividesTens(n / k)
    ensures forall d: nat | (d == 2 || d == 5) && !(m % d == 0 && n % d == 0) :: !((m / k) % d == 0 && (n / k) % d == 0)
  {
    var w: nat, t: nat :| IsCofactor(n, w, t);
    var i, j := m / k, n / k;
    assert m == k * i && n == k * j;
    MulOrder(0, k, w);
    MulAssociates(j, k, w);
    MulCommutes(j, k);
    MulCommutes(0, w);
    assert IsCofactor(j, k * w, t);
    KeepsFactor(i, k, 2);
    KeepsFactor(j, k, 2);
    KeepsFactor(i, k, 5);
    KeepsFactor(j, k, 5);
  }

  function QuotientNat(m: nat, k: nat): nat
    requires k >= 1
  {
    m / k
  }

  /** The branch for a positive exponent: an exact n-th root, then an m-th power of at most p digits. */
  method PositiveBranch(x: Decimal, y: Decimal, p: nat, xc0: nat, xe0: int, yc: nat, ye: int)
    returns (r: Option<Decimal>)
    requires p >= 1 && x.Finite? && x.Valid() && xc0 > 1 && xc0 % 10 != 0 && x.exp <= xe0
    requires x.Value() == Scaled(xc0, xe0)
    requires y.Finite? && y.Valid() && !y.IsZero() && !y.neg && yc > 0 && y.Value() == Scaled(yc, ye)
    ensures Answered(x.Value(), y.Value(), p, r)
    ensures r.Some? ==> NearIdeal(x, y, p, r.value)
  {
    var m, n := Num(yc, ye), Den(ye);
    ZeroValue(y);
    RatioOf(y.Value(), yc, ye);
    UnreducedRatio(yc, ye);
    var xc, xe := xc0, xe0;
    if ye < 0 {
      EarlyTests(x.Value(), y.Value(), p, xc, xe, yc, ye);
      if xe != 0 && |Str(Abs(yc * xe))| <= -ye {
        return None;
      }
      if |Str(yc * BitLength(xc))| <= -ye {
        return None;
      }
      m, n := Reduce(y.Value(), m, n, 2);
      m, n := Reduce(y.Value(), m, n, 5);
    }
    RootExists(x.Value(), y.Value(), p, xc, xe, m, n);
    if n > 1 {
      if BitLength(xc) <= n {
        return None;
      }
      if xe % n != 0 {
        return None;
      }
      xe := xe / n;
      var a, exact := NewtonRoot(xc, n);
      if !exact {
        return None;
      }
      xc := a;
    }
    RootFacts(xc0, xe0, xc, xe, n);
    PowerFits(x.Value(), y.Value(), p, xc0, xc, m, n);
    Log10LowerBoundSound(xc);
    if xc > 1 && m > (p * 100) / Log10LowerBound(xc) {
      SizeTestSound(xc, m, p);
      return None;
    }
    r := RaiseToPower(x, y, p, xc, xe, xe0, m, n);
  }

  lemma UnreducedRatio(yc: nat, ye: int)
    requires yc > 0
    ensures Num(yc, ye) >= 1 && DividesTens(Den(ye)) && (ye >= 0 ==> Reduced(Num(yc, ye), Den(ye)))
  {
    assert IsCofactor(Den(ye), 1, if ye >= 0 then 0 else -ye);
  }

  lemma PowerFits(x: real, y: real, p: nat, xc0: nat, xc: nat, m: nat, n: nat)
    requires n >= 1 && Pow(xc, n) == xc0
    requires HasAnswer(x, y, p) ==> exists a: nat :: Pow(a, n) == xc0 && Pow(a, m) < Pow10(p)
    ensures HasAnswer(x, y, p) ==> Pow(xc, m) < Pow10(p)
  {
    hide HasAnswer, Pow, Pow10;
    if HasAnswer(x, y, p) {
      var a: nat :| Pow(a, n) == xc0 && Pow(a, m) < Pow10(p);
      SameRoot(a, xc, n);
    }
  }

  /** After the root: xc^n * 10^(n*xe) is the operand, and xc still has no factor ten. */
  lemma RootFacts(xc0: nat, xe0: int, xc: nat, xe: int, n: nat)
    requires xc0 > 1 && xc0 % 10 != 0 && n >= 1
    requires if n == 1 then xc == xc0 && xe == xe0 else Pow(xc, n) == xc0 && xe0 % n == 0 && xe == xe0 / n
    ensures Pow(xc, n) == xc0 && n * xe == xe0 && xc % 10 != 0 && xc >= 1
  {
    hide Pow;
    if n == 1 {
      FirstPower(xc);
    } else {
      DivisionLaw(xe0, n);
      MulCommutes(xe, n);
      RootTenFree(xc, n);
    }
  }

  lemma FirstPower(a: int)
    ensures Pow(a, 1) == a
  {
    assert Pow(a, 1) == a * Pow(a, 0);
  }

  /** The final power, with its exponent brought towards the ideal one. */
  method RaiseToPower(x: Decimal, y: Decimal, p: nat, xc: nat, xe: int, ghost xe0: int, m: nat, ghost n: nat)
    returns (r: Option<Decimal>)
    requires p >= 1 && x.Finite? && x.Valid() && xc >= 1 && xc % 10 != 0 && n >= 1 && x.exp <= xe0 && n * xe == xe0
    requires x.Value() == Scaled(Pow(xc, n), n * xe)
    requires y.Finite? && y.Valid() && !y.IsZero() && !y.neg && IsRatio(y.Value(), m, n)
    requires HasAnswer(x.Value(), y.Value(), p) ==> Pow(xc, m) < Pow10(p)
    ensures Answered(x.Value(), y.Value(), p, r)
    ensures r.Some? ==> NearIdeal(x, y, p, r.value)
  {
    var c: int, e := Pow(xc, m), xe * m;
    PowPositive(xc, m);
    if c > Pow10(p) {
      return None;
    }
    NoTenPower(xc, m);
    BelowTenPower(c, p);
    CoefficientFits(c, p);
    var zeros := IdealZeros(x, y, e, p - |Str(c)|);
    ZeroValue(y);
    ExponentRatio(xe, xe0, m, n);
    IdealZerosRange(x, y, xe0, m, n, e, p - |Str(c)|);
    CanonicalBounds(Str(c));
    PaddedPower(Str(c), e, zeros);
    RootPower(xc, xe, m, n, x.Value(), Scaled(c, e));
    ScaledOrder(0, c, e);
    ZeroScaled(e);
    PowersAgree(x.Value(), y.Value(), m, n, Scaled(c, e));
    StrippedText(c);
    PaddedIdeal(x, y, p, Str(c), e, zeros);
    r := Some(Finite(false, Str(c) + Zeros(zeros), e - zeros));
    AnswerIsRight(x.Value(), y.Value(), p, r.value);
  }

  lemma ExponentRatio(xe: int, xe0: int, m: nat, n: nat)
    requires n * xe == xe0
    ensures (xe * m) * n == xe0 * m
  {
  }

  /** A coefficient without a factor ten cannot be the power of ten itself. */
  lemma BelowTenPower(c: nat, p: nat)
    requires p >= 1 && c <= Pow10(p) && c % 10 != 0
    ensures c < Pow10(p)
  {
    var q := Pow10(p - 1);
    assert Pow10(p) == 10 * q;
    hide Pow10;
    Tenfold(Pow10(p), q);
  }

  /**
   `_power_exact`: it answers exactly when some number of at most p digits is x^y. The caller has excluded x <= 0,
   x == 1 and y == 0.
   */
  method PowerExact(x: Decimal, y: Decimal, p: nat) returns (r: Option<Decimal>)
    requires p >= 1 && x.Finite? && x.Valid() && !x.neg && !x.IsZero() && x.Value() != 1.0
    requires y.Finite? && y.Valid() && !y.IsZero()
    ensures Answered(x.Value(), y.Value(), p, r)
    ensures r.Some? ==> NearIdeal(x, y, p, r.value)
  {
    CanonicalBounds(x.coeff);
    CanonicalBounds(y.coeff);
    ZeroValue(y);
    var xc, xe := StripTens(Val(x.coeff), x.exp);
    var yc, ye := StripTens(Val(y.coeff), y.exp);
    if xc == 1 {
      assert Ten(0) == 1.0;
      assert Scaled(1, xe) == Ten(xe);
      r := PowerOfTenBranch(x, y, p, xe, yc, ye);
    } else if y.neg {
      r := NegativeBranch(x.Value(), y.Value(), p, xc, xe, yc, ye);
    } else {
      r := PositiveBranch(x, y, p, xc, xe, yc, ye);
    }
  }
}
