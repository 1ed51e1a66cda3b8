/**
 The form of a rounded result: which of the decimals of one value it is, and when Rounded and Clamped are raised.
 Together with correct rounding this settles an outcome completely.
 */
module DecimalForm {
  import opened Arithmetic
  import opened Digits
  import opened DecimalCore
  import opened DecimalSpec
  import opened DecimalFix

  /** No decimal of the same value has an exponent nearer to the ideal one from below. */
  predicate AtIdeal(d: Decimal, ideal: int)
    requires d.Finite? && d.Valid()
  {
    d.exp == ideal || (d.exp < ideal && Val(d.coeff) % 10 != 0)
  }

  /** `d` fits the context, apart from folding down. */
  predicate Fits(c: Settings, d: Decimal)
    requires d.Finite?
  {
    |d.coeff| <= c.prec && c.Etiny() <= d.exp && d.Adjusted() <= c.emax
  }

  /** `d` is the exact value at the exponent that suits the operation, and fits. */
  predicate IsExactForm(c: Settings, neg: bool, v: Exact, ideal: int, d: Decimal) {
    d.Finite? && d.Valid() && !d.IsZero() && d.neg == neg && v.Equals(d.Magnitude()) && Fits(c, d) && AtIdeal(d, ideal)
  }

  /** With `clamp`, an exponent above Etop is lowered by padding. */
  function Folded(c: Settings, d: Decimal): Decimal
    requires d.Finite?
  {
    if c.clamp && c.Etop() < d.exp then Finite(d.neg, d.coeff + Zeros(d.exp - c.Etop()), c.Etop()) else d
  }

  /** All digits are used, or the exponent is the least one. */
  predicate FullWidth(c: Settings, r: Decimal)
    requires r.Finite?
  {
    r.exp == c.Etiny() || (|r.coeff| == c.prec && !r.IsZero())
  }

  /**
   An exact form that fits is returned as it is, up to folding down. Without one the result is Rounded and uses the
   full width.
   */
  ghost predicate InForm(c: Settings, neg: bool, v: Exact, ideal: int, o: Outcome) {
    && InvalidOperation !in o.raised && DivisionByZero !in o.raised
    && (forall d: Decimal | IsExactForm(c, neg, v, ideal, d) ::
          o.result == Folded(c, d) && Rounded !in o.raised && (Clamped in o.raised <==> c.clamp && c.Etop() < d.exp))
    && ((forall d: Decimal :: !IsExactForm(c, neg, v, ideal, d)) ==>
          && Rounded in o.raised && (o.result.Finite? ==> FullWidth(c, o.result))
          && (Clamped in o.raised <==> o.result.IsZero()))
  }

  // ---------- one exact form ----------

  lemma SameExponentSameDecimal(d: Decimal, d': Decimal)
    requires d.Finite? && d.Valid() && d'.Finite? && d'.Valid()
    requires d.neg == d'.neg && d.Magnitude() == d'.Magnitude() && d.exp == d'.exp
    ensures d == d'
  {
    ScaledOrder(Val(d.coeff), Val(d'.coeff), d.exp);
    ScaledOrder(Val(d'.coeff), Val(d.coeff), d.exp);
    ValStr(d.coeff);
    ValStr(d'.coeff);
  }

  /** At a lower exponent the same value has a coefficient with more digits, ending in zero. */
  lemma LowerForm(d: Decimal, d': Decimal)
    requires d.Finite? && d.Valid() && d'.Finite? && d'.Valid() && !d.IsZero()
    requires d.Magnitude() == d'.Magnitude() && d'.exp < d.exp
    ensures Val(d'.coeff) % 10 == 0 && |d.coeff| < |d'.coeff|
  {
    var m, m', k := Val(d.coeff), Val(d'.coeff), d.exp - d'.exp;
    ScaledShift(m, d.exp, d'.exp);
    ScaledOrder(m', m * Pow10(k), d'.exp);
    ScaledOrder(m * Pow10(k), m', d'.exp);
    CanonicalBounds(d.coeff);
    ValUpper(d'.coeff);
    assert Pow10(k) == 10 * Pow10(k - 1);
    Padding(m, m', |d.coeff|, k, |d'.coeff|);
  }

  lemma Padding(m: nat, m': nat, l: nat, k: nat, l': nat)
    requires 1 <= l && 1 <= k && m' == m * Pow10(k) && Pow10(l - 1) <= m && m' < Pow10(l')
    ensures m' % 10 == 0 && l < l'
  {
    var p := Pow10(k - 1);
    assert Pow10(k) == 10 * p;
    MulScale(m, p, 10);
    Tenfold(m', m * p);
    Pow10Add(l - 1, k);
    MulOrder(Pow10(l - 1), m, Pow10(k));
    if l' <= l {
      Pow10Monotone(l', l - 1 + k);
    }
  }

  lemma ExactFormUnique(d: Decimal, d': Decimal, ideal: int)
    requires d.Finite? && d.Valid() && d'.Finite? && d'.Valid() && !d.IsZero() && !d'.IsZero()
    requires d.neg == d'.neg && d.Magnitude() == d'.Magnitude() && AtIdeal(d, ideal) && AtIdeal(d', ideal)
    ensures d == d'
  {
    hide Decimal.Magnitude, Val;
    if d.exp < d'.exp {
      LowerForm(d', d);
    } else if d'.exp < d.exp {
      LowerForm(d, d');
    } else {
      SameExponentSameDecimal(d, d');
    }
  }

  lemma EqualsUnique(v: Exact, a: real, b: real)
    requires v.Equals(a) && v.Equals(b) && 0.0 < a && 0.0 < b
    ensures a == b
  {
    if v.Root? {
      if a < b { SquareOrder(a, b); }
      if b < a { SquareOrder(b, a); }
    }
  }

  lemma PositiveMagnitude(d: Decimal)
    requires d.Finite? && d.Valid() && !d.IsZero()
    ensures 0.0 < d.Magnitude()
  {
    CanonicalBounds(d.coeff);
    ScaledOrder(0, Val(d.coeff), d.exp);
    assert Scaled(0, d.exp) == 0.0;
  }

  // ---------- what fits ----------

  lemma OverflowWidth(c: Settings, neg: bool)
    requires c.Valid()
    ensures OverflowResult(c, neg).Finite? ==> FullWidth(c, OverflowResult(c, neg))
  {
    assert Nines(c.prec)[0] == '9';
  }

  /** What fits is returned as it is, up to folding down. */
  lemma FixKeeps(c: Settings, d: Decimal)
    requires c.Valid() && d.Finite? && d.Valid() && !d.IsZero() && Fits(c, d)
    ensures Fix(c, d).result == Folded(c, d)
    ensures UnitExp(c, d) <= d.exp && UnitExp(c, d) <= c.Etop()
    ensures Representable(c, d) ==> Fix(c, d).result == d
  {
  }

  lemma FitsMeaning(c: Settings, d: Decimal)
    requires c.Valid() && d.Finite? && d.Valid() && !d.IsZero()
    ensures Fits(c, d) <==> UnitExp(c, d) <= d.exp && UnitExp(c, d) <= c.Etop()
  {
  }

  // ---------- the width of a rounded coefficient ----------

  lemma RoundToExponent(c: Settings, d: Decimal, g: int, subnormal: bool)
    requires c.Valid() && d.Finite? && d.Valid() && !d.IsZero() && d.exp < g
    requires g == UnitExp(c, d) <= c.Etop()
    ensures var n, r := RoundedUnits(c, d, g), RoundTo(c, d, g, subnormal).result;
            r == OverflowResult(c, d.neg)
            || (r.Finite? && Canonical(r.coeff) && n <= Pow10(c.prec)
                && r.exp == (if n == Pow10(c.prec) then g + 1 else g) && Scaled(Val(r.coeff), r.exp) == Scaled(n, g))
  {
    hide Val, Pow10, Kept, Rest, RoundedUnits, Operand, Bump, KeptText, RoundDigits, OverflowResult, Scaled, Canonical;
    OperandMeaning(c, d, g);
    KeptSize(c, d);
    var (s, k) := Operand(d, g);
    var changed := RoundDigits(c.rounding, d.neg, s, k);
    ChangedMeaning(c, d, g);
    BumpMeaning(c, KeptText(d, g), changed, g);
  }

  lemma RoundToWidth(c: Settings, d: Decimal, subnormal: bool)
    requires c.Valid() && d.Finite? && d.Valid() && !d.IsZero() && d.exp < UnitExp(c, d) <= c.Etop()
    ensures var r := RoundTo(c, d, UnitExp(c, d), subnormal).result; r.Finite? ==> FullWidth(c, r)
  {
    var g := UnitExp(c, d);
    var n, r := RoundedUnits(c, d, g), RoundTo(c, d, g, subnormal).result;
    hide RoundTo, OverflowResult, Scaled, Pow10, Val, UnitExp;
    RoundToExponent(c, d, g, subnormal);
    OverflowWidth(c, d.neg);
    if r != OverflowResult(c, d.neg) {
      KeptSize(c, d);
      RoundToMeaning(c, d, g, subnormal);
      CoefficientWidth(c, r.coeff, r.exp, n, g);
    }
  }

  lemma CoefficientWidth(c: Settings, s: string, exp: int, n: nat, g: int)
    requires c.Valid() && Canonical(s) && |s| <= c.prec && c.Etiny() <= g && n <= Pow10(c.prec)
    requires exp == (if n == Pow10(c.prec) then g + 1 else g) && Scaled(Val(s), exp) == Scaled(n, g)
    requires g == c.Etiny() || Pow10(c.prec - 1) <= n
    ensures exp == c.Etiny() || (|s| == c.prec && s != "0")
  {
    ScaledShift(Val(s), exp, g);
    var m := Val(s) * Pow10(exp - g);
    ScaledOrder(m, n, g);
    ScaledOrder(n, m, g);
    CanonicalBounds(s);
    assert Pow10(0) == 1 && Pow10(1) == 10 && Pow10(c.prec) == 10 * Pow10(c.prec - 1);
    if |s| < c.prec {
      Pow10Monotone(|s|, c.prec - 1);
    }
    hide Pow10, Val, Scaled;
  }

  // ---------- the form of what `_fix` returns ----------

  /** How a working value may stand for the exact one: it is its exact form, or it is too long to fit. */
  ghost predicate StandsFor(c: Settings, d: Decimal, v: Exact, ideal: int)
    requires d.Finite? && d.Valid()
  {
    || (v.Equals(d.Magnitude()) && AtIdeal(d, ideal))
    || (c.prec < |d.coeff| && v.Equals(d.Magnitude()) && ideal <= d.exp)
    || (c.prec < |d.coeff| && Val(d.coeff) % 10 != 0)
  }

  /** A grid point that equals the exact value is the kept part of the operand. */
  lemma ExactMeansNoRest(c: Settings, d: Decimal, v: Exact, d': Decimal)
    requires c.Valid() && d.Finite? && d.Valid() && !d.IsZero() && Agrees(v, d.Magnitude(), UnitExp(c, d))
    requires d'.Finite? && d'.Valid() && !d'.IsZero() && v.Equals(d'.Magnitude()) && Fits(c, d')
    ensures Rest(d, UnitExp(c, d)) == 0
  {
    var g := UnitExp(c, d);
    var q := Kept(d, g);
    LocateOperand(c, d, v);
    LocatedNeighbours(c, v, g, q);
    CanonicalBounds(d'.coeff);
    Pow10Monotone(|d'.coeff|, c.prec);
    assert PointOf(c, Val(d'.coeff), d'.exp);
    assert OnGrid(c, d'.Magnitude());
    hide Scaled, Kept, Rest, UnitExp, Pow10, Val, OnGrid, Agrees, Fits;
    ScaledOrder(q, q + 1, g);
  }

  lemma NoExactForm(c: Settings, d: Decimal, v: Exact, ideal: int, d': Decimal)
    requires c.Valid() && d.Finite? && d.Valid() && !d.IsZero() && Agrees(v, d.Magnitude(), UnitExp(c, d))
    requires c.prec < |d.coeff| && (Val(d.coeff) % 10 != 0 || (v.Equals(d.Magnitude()) && ideal <= d.exp))
    ensures !IsExactForm(c, d.neg, v, ideal, d')
  {
    if IsExactForm(c, d.neg, v, ideal, d') {
      PositiveMagnitude(d);
      PositiveMagnitude(d');
      if Val(d.coeff) % 10 != 0 {
        ExactMeansNoRest(c, d, v, d');
        LastDigitDropped(Val(d.coeff), UnitExp(c, d) - d.exp);
      } else {
        EqualsUnique(v, d.Magnitude(), d'.Magnitude());
        if d'.exp < d.exp {
          LowerForm(d, d');
        } else {
          SameExponentSameDecimal(d, d');
        }
      }
    }
  }

  lemma LastDigitDropped(m: nat, k: int)
    requires m % 10 != 0 && k >= 1
    ensures m % Pow10(k) != 0
  {
    var p := Pow10(k - 1);
    assert Pow10(k) == 10 * p;
    hide Pow10;
    if m % (10 * p) == 0 {
      var q := m / (10 * p);
      DivisionLaw(m, 10 * p);
      MulScale(q, p, 10);
      Tenfold(m, q * p);
    }
  }

  /** `_fix` gives the result its form. */
  lemma FixInForm(c: Settings, d: Decimal, v: Exact, ideal: int)
    requires c.Valid() && d.Finite? && d.Valid() && !d.IsZero() && Agrees(v, d.Magnitude(), UnitExp(c, d))
    requires StandsFor(c, d, v, ideal)
    ensures InForm(c, d.neg, v, ideal, Fix(c, d))
  {
    RoundedAndClamped(c, d);
    FitsMeaning(c, d);
    if v.Equals(d.Magnitude()) && AtIdeal(d, ideal) && Fits(c, d) {
      FixKeeps(c, d);
      NonzeroResult(c, d);
      assert IsExactForm(c, d.neg, v, ideal, d);
      forall d': Decimal | IsExactForm(c, d.neg, v, ideal, d') ensures d' == d {
        OnlyExactForm(d, d', v, ideal);
      }
    } else {
      forall d': Decimal ensures !IsExactForm(c, d.neg, v, ideal, d') {
        TooLong(c, d, v, ideal, d');
      }
      RoundedWidth(c, d);
    }
  }

  lemma NonzeroResult(c: Settings, d: Decimal)
    requires c.Valid() && d.Finite? && d.Valid() && !d.IsZero()
    ensures !Folded(c, d).IsZero()
  {
    CanonicalBounds(d.coeff);
    if c.clamp && c.Etop() < d.exp {
      assert (d.coeff + Zeros(d.exp - c.Etop()))[0] == d.coeff[0];
    }
  }

  lemma OnlyExactForm(d: Decimal, d': Decimal, v: Exact, ideal: int)
    requires d.Finite? && d.Valid() && !d.IsZero() && v.Equals(d.Magnitude()) && AtIdeal(d, ideal)
    requires d'.Finite? && d'.Valid() && !d'.IsZero() && v.Equals(d'.Magnitude()) && AtIdeal(d', ideal)
             && d.neg == d'.neg
    ensures d == d'
  {
    hide Decimal.Magnitude;
    PositiveMagnitude(d);
    PositiveMagnitude(d');
    EqualsUnique(v, d.Magnitude(), d'.Magnitude());
    ExactFormUnique(d, d', ideal);
  }

  lemma TooLong(c: Settings, d: Decimal, v: Exact, ideal: int, d': Decimal)
    requires c.Valid() && d.Finite? && d.Valid() && !d.IsZero() && Agrees(v, d.Magnitude(), UnitExp(c, d))
    requires StandsFor(c, d, v, ideal) && !(v.Equals(d.Magnitude()) && AtIdeal(d, ideal) && Fits(c, d))
    ensures !IsExactForm(c, d.neg, v, ideal, d')
  {
    hide Decimal.Magnitude, Agrees, UnitExp, Val;
    if v.Equals(d.Magnitude()) && AtIdeal(d, ideal) {
      if IsExactForm(c, d.neg, v, ideal, d') {
        OnlyExactForm(d, d', v, ideal);
      }
    } else {
      NoExactForm(c, d, v, ideal, d');
    }
  }

  lemma RoundedWidth(c: Settings, d: Decimal)
    requires c.Valid() && d.Finite? && d.Valid() && !d.IsZero()
    ensures !Fits(c, d) && Fix(c, d).result.Finite? ==> FullWidth(c, Fix(c, d).result)
    ensures c.prec < |d.coeff| ==> !Fits(c, d)
  {
    OverflowWidth(c, d.neg);
    if d.exp < UnitExp(c, d) <= c.Etop() {
      RoundToWidth(c, d, |d.coeff| + d.exp - c.prec < c.Etiny());
    }
    hide RoundTo, OverflowResult, FullWidth;
  }

  /** `o` is the exact magnitude `v` with sign `neg`, rounded once: the value, the form and all the flags. */
  ghost predicate Rounds(c: Settings, neg: bool, v: Exact, ideal: int, o: Outcome)
    requires c.Valid()
  {
    o.result.Valid() && CorrectlyRounded(c, neg, v, o.result) && FlagsAgree(c, neg, v, o) && InForm(c, neg, v, ideal, o)
  }

  lemma FixOutcome(c: Settings, d: Decimal, v: Exact, ideal: int)
    requires c.Valid() && d.Finite? && d.Valid() && !d.IsZero() && Agrees(v, d.Magnitude(), UnitExp(c, d))
    requires StandsFor(c, d, v, ideal)
    ensures Rounds(c, d.neg, v, ideal, Fix(c, d))
  {
    hide Fix, Agrees, UnitExp, StandsFor, CorrectlyRounded, FlagsAgree, InForm, Decimal.Magnitude;
    FixRounds(c, d, v);
    FixInForm(c, d, v, ideal);
  }
}
