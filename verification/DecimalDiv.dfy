/**
 Division: an integer quotient with one digit to spare, whose last digit is moved
 off 0 and 5 when the division is inexact, and one final rounding.
 */
module DecimalDiv {
  import opened Arithmetic
  import opened Digits
  import opened DecimalCore
  import opened DecimalSpec
  import opened DecimalFix
  import opened DecimalForm
  import opened DecimalAdd

  /** Drops trailing zeros until the ideal exponent is reached. */
  function StripToIdeal(coeff: nat, exp: int, ideal: int): (r: (nat, int))
    decreases if exp < ideal then ideal - exp else 0
  {
    if exp < ideal && coeff % 10 == 0 then StripToIdeal(coeff / 10, exp + 1, ideal) else (coeff, exp)
  }

  function Shift(c: Settings, x: Decimal, y: Decimal): int
    requires x.Finite? && y.Finite?
  {
    |y.coeff| - |x.coeff| + c.prec + 1
  }

  function Dividend(c: Settings, x: Decimal, y: Decimal): nat
    requires x.Finite? && y.Finite? && x.Valid()
  {
    var shift := Shift(c, x, y);
    if shift >= 0 then Shl(Val(x.coeff), shift) else Val(x.coeff)
  }

  function Divisor(c: Settings, x: Decimal, y: Decimal): nat
    requires x.Finite? && y.Finite? && y.Valid()
  {
    var shift := Shift(c, x, y);
    if shift >= 0 then Val(y.coeff) else Shl(Val(y.coeff), -shift)
  }

  /** The coefficient and exponent that are handed to the final rounding. */
  function WorkingQuotient(c: Settings, x: Decimal, y: Decimal): (nat, int)
    requires x.Finite? && y.Finite? && x.Valid() && y.Valid() && Divisor(c, x, y) > 0
  {
    var exp := x.exp - y.exp - Shift(c, x, y);
    var n, d := Dividend(c, x, y), Divisor(c, x, y);
    var (coeff, remainder) := DivMod(n, d);
    if remainder != 0 then
      (Bumped(coeff), exp)
    else
      StripToIdeal(coeff, exp, x.exp - y.exp)
  }

  /** `__truediv__` */
  function Div(c: Settings, x: Decimal, y: Decimal): Outcome
    requires c.Valid() && x.Valid() && y.Valid()
  {
    var neg := x.neg != y.neg;
    if x.NaN? || y.NaN? then NaNResult(c, x, y)
    else if x.Infinity? && y.Infinity? then Outcome(NaN(false, "", false), {InvalidOperation})
    else if x.Infinity? then Outcome(Infinity(neg), {})
    else if y.Infinity? then Outcome(Finite(neg, "0", c.Etiny()), {Clamped})
    else if y.IsZero() then
      if x.IsZero() then Outcome(NaN(false, "", false), {InvalidOperation})
      else Outcome(Infinity(neg), {DivisionByZero})
    else if x.IsZero() then
      Fix(c, Finite(neg, "0", x.exp - y.exp))
    else
      DivisorPositive(c, x, y);
      var (coeff, exp) := WorkingQuotient(c, x, y);
      StrVal(coeff);
      Fix(c, Finite(neg, Str(coeff), exp))
  }

  lemma DivisorPositive(c: Settings, x: Decimal, y: Decimal)
    requires x.Finite? && y.Finite? && y.Valid() && !y.IsZero()
    ensures Divisor(c, x, y) > 0
  {
    CanonicalBounds(y.coeff);
  }

  lemma {:induction false} StripKeepsValue(coeff: nat, exp: int, ideal: int)
    ensures var (n, e) := StripToIdeal(coeff, exp, ideal);
      && Scaled(n, e) == Scaled(coeff, exp)
      && (coeff > 0 ==> n > 0)
      && exp <= e && (ideal <= e || n % 10 != 0) && (e <= ideal || e == exp)
    decreases if exp < ideal then ideal - exp else 0
  {
    if exp < ideal && coeff % 10 == 0 {
      StripKeepsValue(coeff / 10, exp + 1, ideal);
      ScaledShift(coeff / 10, exp + 1, exp);
      assert Pow10(1) == 10 * Pow10(0);
    }
  }

  // ---------- comparing with the exact quotient ----------

  lemma ScaledProduct(m: int, x: int, n: int, y: int)
    ensures Scaled(m, x) * Scaled(n, y) == Scaled(m * n, x + y)
  {
    hide Ten;
    TenAdd(x, y);
    RealProduct(m as real, Ten(x), n as real, Ten(y), Ten(x + y));
    assert (m * n) as real == (m as real) * (n as real);
  }

  lemma RealProduct(a: real, s: real, b: real, t: real, u: real)
    requires u == s * t
    ensures (a * s) * (b * t) == (a * b) * u
  {
    assert (a * s) * (b * t) == (a * b) * (s * t);
  }

  /** A quotient is compared by multiplying out. */
  lemma QuotientOrder(p: real, q: real, r: real)
    requires q > 0.0
    ensures r <= p / q <==> r * q <= p
    ensures r < p / q <==> r * q < p
  {
    var v := p / q;
    assert v * q == p;
    if r <= v { SignOfProduct(v - r, q); }
    if v < r { SignOfProduct(r - v, q); }
    if r < v { SignOfProduct(v - r, q); }
    if v <= r { SignOfProduct(r - v, q); }
  }

  /** The exact quotient of the magnitudes. */
  function ExactQuotient(x: Decimal, y: Decimal): real
    requires x.Finite? && y.Finite? && x.Valid() && y.Valid() && y.Magnitude() != 0.0
  {
    x.Magnitude() / y.Magnitude()
  }

  lemma ScaledQuotientOrder(k: int, e: int, p: real, n: int, y: int, z: int)
    requires Scaled(n, y) > 0.0 && e + y == z
    ensures Scaled(k, e) <= p / Scaled(n, y) <==> Scaled(k * n, z) <= p
    ensures Scaled(k, e) < p / Scaled(n, y) <==> Scaled(k * n, z) < p
  {
    ScaledProduct(k, e, n, y);
    hide Scaled;
    QuotientOrder(p, Scaled(n, y), Scaled(k, e));
  }

  /** k units of the working exponent against the exact quotient. */
  lemma UnitsOfQuotient(c: Settings, x: Decimal, y: Decimal, k: int)
    requires c.Valid() && x.Finite? && y.Finite? && x.Valid() && y.Valid() && y.Magnitude() > 0.0
    ensures var p := Scaled(k, x.exp - y.exp - Shift(c, x, y));
      && (p <= ExactQuotient(x, y) <==> k * Divisor(c, x, y) <= Dividend(c, x, y))
      && (p < ExactQuotient(x, y) <==> k * Divisor(c, x, y) < Dividend(c, x, y))
  {
    var shift := Shift(c, x, y);
    hide Shift, Val, Scaled, Shl;
    ScaledQuotientOrder(k, x.exp - y.exp - shift, x.Magnitude(), Val(y.coeff), y.exp, x.exp - shift);
    MultiplesCompared(k, Val(x.coeff), x.exp, Val(y.coeff), shift);
  }

  lemma MultiplesCompared(k: int, m: nat, x: int, n: nat, shift: int)
    ensures var p := Scaled(k * n, x - shift);
            var num := if shift >= 0 then Shl(m, shift) else m;
            var den := if shift >= 0 then n else Shl(n, -shift);
            (p <= Scaled(m, x) <==> k * den <= num) && (p < Scaled(m, x) <==> k * den < num)
  {
    hide Scaled, Shl;
    if shift >= 0 {
      CompareFiner(k * n, m, x, shift);
    } else {
      CompareCoarser(k * n, m, x, -shift);
      ShlTimes(k, n, -shift);
    }
  }

  lemma CompareFiner(a: int, m: int, x: int, s: nat)
    ensures Scaled(a, x - s) <= Scaled(m, x) <==> a <= Shl(m, s)
    ensures Scaled(a, x - s) < Scaled(m, x) <==> a < Shl(m, s)
  {
    ScaledShift(m, x, x - s);
    hide Scaled, Pow10;
    ScaledOrder(a, m * Pow10(s), x - s);
  }

  lemma CompareCoarser(a: int, m: int, x: int, s: nat)
    ensures Scaled(a, x + s) <= Scaled(m, x) <==> Shl(a, s) <= m
    ensures Scaled(a, x + s) < Scaled(m, x) <==> Shl(a, s) < m
  {
    ScaledShift(a, x + s, x);
    hide Scaled, Pow10;
    ScaledOrder(a * Pow10(s), m, x);
  }

  lemma ShlTimes(a: int, b: int, k: nat)
    ensures Shl(a * b, k) == a * Shl(b, k)
  {
    MulScale(b, Pow10(k), a);
  }

  /** The quotient has more than `prec` digits. */
  lemma QuotientLong(c: Settings, x: Decimal, y: Decimal)
    requires c.Valid() && x.Finite? && y.Finite? && x.Valid() && y.Valid() && !x.IsZero() && !y.IsZero()
    ensures Divisor(c, x, y) > 0 && Pow10(c.prec) <= DivMod(Dividend(c, x, y), Divisor(c, x, y)).0
  {
    var shift, m, n := Shift(c, x, y), Val(x.coeff), Val(y.coeff);
    var lx, ly := |x.coeff|, |y.coeff|;
    DivisorPositive(c, x, y);
    CanonicalBounds(x.coeff);
    CanonicalBounds(y.coeff);
    if shift >= 0 {
      TopHeavy(m, lx - 1, shift, n, ly, 0, c.prec);
    } else {
      TopHeavy(m, lx - 1, 0, n, ly, -shift, c.prec);
    }
    QuotientAtLeast(Dividend(c, x, y), Divisor(c, x, y), Pow10(c.prec));
  }

  /** m * 10^i against n * 10^j, from the digit counts of m and n. */
  lemma TopHeavy(m: nat, k: nat, i: nat, n: nat, l: nat, j: nat, p: nat)
    requires Pow10(k) <= m && n <= Pow10(l) && k + i == p + l + j
    ensures Shl(Shl(n, j), p) <= Shl(m, i)
  {
    hide Pow10, Shl;
    ShlBounds(m, k, i);
    ShlBounds(n, l, j);
    ShlBounds(Shl(n, j), l + j, p);
  }

  lemma ShlBounds(m: int, k: nat, i: nat)
    ensures Pow10(k) <= m ==> Pow10(k + i) <= Shl(m, i)
    ensures m <= Pow10(k) ==> Shl(m, i) <= Pow10(k + i)
  {
    Pow10Add(k, i);
    if Pow10(k) <= m { MulOrder(Pow10(k), m, Pow10(i)); }
    if m <= Pow10(k) { MulOrder(m, Pow10(k), Pow10(i)); }
  }

  lemma QuotientAtLeast(n: nat, d: nat, p: nat)
    requires d > 0 && d * p <= n
    ensures p <= DivMod(n, d).0
  {
    var (q, r) := DivMod(n, d);
    if q < p {
      MulOrder(q + 1, p, d);
    }
  }

  // ---------- the theorem ----------

  /** The last digit moved off 0 and 5. */
  function Bumped(n: nat): nat {
    if n % 5 == 0 then n + 1 else n
  }

  lemma BumpedMeaning(n: nat)
    ensures n <= Bumped(n) && Bumped(n) % 5 != 0 && Bumped(n) % 10 != 0
  {
  }

  lemma LongUnit(c: Settings, d: Decimal)
    requires c.Valid() && d.Finite? && c.prec < |d.coeff|
    ensures d.exp < UnitExp(c, d)
  {
  }

  /** Between n and n+1 units the adjusted digit and the exact value share their multiples of five. */
  lemma AdjustedAgrees(v: Exact, n: nat, e: int, g: int)
    requires e < g && v.Above(0.0) && v.Above(Scaled(n, e)) && !v.AtLeast(Scaled(n + 1, e))
    ensures Agrees(v, Scaled(Bumped(n), e), g)
  {
    var b := n / 5;
    ScaledOrder(5 * b, n, e);
    ScaledOrder(n + 1, 5 * b + 5, e);
    ExactOrder(v, Scaled(5 * b, e), Scaled(n, e));
    ExactOrder(v, Scaled(n + 1, e), Scaled(5 * b + 5, e));
    hide Scaled, Exact.AtLeast, Exact.Above;
    StickyAgrees(v, if n % 5 == 0 then n + 1 else n, e, g, b);
  }

  lemma DivPositive(x: Decimal, y: Decimal)
    requires x.Finite? && y.Finite? && x.Valid() && y.Valid() && !x.IsZero() && !y.IsZero()
    ensures x.Magnitude() > 0.0 && y.Magnitude() > 0.0 && ExactQuotient(x, y) > 0.0
  {
    CanonicalBounds(x.coeff);
    CanonicalBounds(y.coeff);
    ScaledOrder(0, Val(x.coeff), x.exp);
    ScaledOrder(0, Val(y.coeff), y.exp);
    assert Scaled(0, x.exp) == 0.0 && Scaled(0, y.exp) == 0.0;
    hide Scaled;
    QuotientOrder(x.Magnitude(), y.Magnitude(), 0.0);
  }

  /** An inexact quotient: the sticky last digit is as good as the exact quotient. */
  lemma InexactQuotient(c: Settings, x: Decimal, y: Decimal)
    requires c.Valid() && x.Finite? && y.Finite? && x.Valid() && y.Valid() && !x.IsZero() && !y.IsZero()
    requires y.Magnitude() != 0.0 && Divisor(c, x, y) > 0
    requires DivMod(Dividend(c, x, y), Divisor(c, x, y)).1 != 0
    ensures var (n, e) := WorkingQuotient(c, x, y);
            var d := Finite(x.neg != y.neg, Str(n), e);
            d.Valid() && !d.IsZero() && Agrees(Ratio(ExactQuotient(x, y)), d.Magnitude(), UnitExp(c, d))
            && StandsFor(c, d, Ratio(ExactQuotient(x, y)), x.exp - y.exp)
  {
    var num, den := Dividend(c, x, y), Divisor(c, x, y);
    var (q, r) := DivMod(num, den);
    var e, v := x.exp - y.exp - Shift(c, x, y), Ratio(ExactQuotient(x, y));
    var (n, e') := WorkingQuotient(c, x, y);
    assert n == Bumped(q) && e' == e;
    hide Scaled, Shl, Dividend, Divisor, ExactQuotient, Agrees, WorkingQuotient, Shift;
    hide Pow10, Val, Str, Bumped, StandsFor, UnitExp, DivMod;
    DivPositive(x, y);
    QuotientLong(c, x, y);
    UnitsOfQuotient(c, x, y, q);
    UnitsOfQuotient(c, x, y, q + 1);
    assert (q + 1) * den == q * den + den;
    BumpedMeaning(q);
    LongStands(c, x.neg != y.neg, n, e, v, x.exp - y.exp);
    LongUnit(c, Finite(x.neg != y.neg, Str(n), e));
    AdjustedAgrees(v, q, e, UnitExp(c, Finite(x.neg != y.neg, Str(n), e)));
  }

  /** An exact quotient keeps its value, with the exponent as close to the ideal one as it can be. */
  lemma ExactQuotientKept(c: Settings, x: Decimal, y: Decimal)
    requires c.Valid() && x.Finite? && y.Finite? && x.Valid() && y.Valid() && !x.IsZero() && !y.IsZero()
    requires y.Magnitude() != 0.0 && Divisor(c, x, y) > 0
    requires DivMod(Dividend(c, x, y), Divisor(c, x, y)).1 == 0
    ensures var (n, e) := WorkingQuotient(c, x, y);
            var d := Finite(x.neg != y.neg, Str(n), e);
            && d.Valid() && !d.IsZero() && d.Magnitude() == ExactQuotient(x, y)
            && (n % 10 != 0 || x.exp - y.exp <= e)
            && (e <= x.exp - y.exp || (e == x.exp - y.exp - Shift(c, x, y) && c.prec < |d.coeff|))
  {
    hide Scaled, Shl, Dividend, Divisor, ExactQuotient, DivMod, Pow10, Shift, StripToIdeal, Val, Str;
    var num, den := Dividend(c, x, y), Divisor(c, x, y);
    var (q, r) := DivMod(num, den);
    var e := x.exp - y.exp - Shift(c, x, y);
    QuotientLong(c, x, y);
    DivPositive(x, y);
    UnitsOfQuotient(c, x, y, q);
    StripKeepsValue(q, e, x.exp - y.exp);
    var (n, e') := WorkingQuotient(c, x, y);
    NonzeroCoefficient(n, e');
    if e' > x.exp - y.exp {
      StripStops(q, e, x.exp - y.exp);
      LongCoefficient(n, c.prec);
    }
  }

  lemma StripStops(coeff: nat, exp: int, ideal: int)
    requires ideal < StripToIdeal(coeff, exp, ideal).1
    ensures StripToIdeal(coeff, exp, ideal) == (coeff, exp)
  {
    StripKeepsValue(coeff, exp, ideal);
  }

  /** The working quotient stands for the exact one. */
  lemma QuotientStands(c: Settings, x: Decimal, y: Decimal)
    requires c.Valid() && x.Finite? && y.Finite? && x.Valid() && y.Valid() && !x.IsZero() && !y.IsZero()
    requires y.Magnitude() != 0.0 && Divisor(c, x, y) > 0
    ensures var (n, e) := WorkingQuotient(c, x, y);
            var d, v := Finite(x.neg != y.neg, Str(n), e), Ratio(ExactQuotient(x, y));
            && d.Valid() && !d.IsZero() && Agrees(v, d.Magnitude(), UnitExp(c, d))
            && StandsFor(c, d, v, x.exp - y.exp)
  {
    var (n, e) := WorkingQuotient(c, x, y);
    var d, v := Finite(x.neg != y.neg, Str(n), e), Ratio(ExactQuotient(x, y));
    hide Scaled, Dividend, Divisor, ExactQuotient, Agrees, WorkingQuotient, DivMod, Shift, Str;
    if DivMod(Dividend(c, x, y), Divisor(c, x, y)).1 == 0 {
      ExactQuotientKept(c, x, y);
      AgreesWithItself(d.Magnitude(), UnitExp(c, d));
      StrVal(n);
    } else {
      InexactQuotient(c, x, y);
    }
  }

  /**
   Division is the exact quotient rounded once, in every rounding mode and over the whole exponent range: the value,
   the form, whose ideal exponent is the difference of the operands' exponents, and all flags.
   */
  lemma DivRounds(c: Settings, x: Decimal, y: Decimal)
    requires c.Valid() && x.Finite? && y.Finite? && x.Valid() && y.Valid() && !x.IsZero() && !y.IsZero()
    ensures y.Magnitude() != 0.0
    ensures Rounds(c, x.neg != y.neg, Ratio(ExactQuotient(x, y)), x.exp - y.exp, Div(c, x, y))
  {
    DivPositive(x, y);
    QuotientLong(c, x, y);
    QuotientStands(c, x, y);
    var (n, e) := WorkingQuotient(c, x, y);
    hide Scaled, Dividend, Divisor, ExactQuotient, Agrees, StandsFor, WorkingQuotient, Fix, Rounds;
    FixOutcome(c, Finite(x.neg != y.neg, Str(n), e), Ratio(ExactQuotient(x, y)), x.exp - y.exp);
  }
}
