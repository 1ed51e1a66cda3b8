/**
 What correct rounding gives a caller: result and flags are unique, the half modes return a nearest representable
 value, Ceiling the least one above and Floor the greatest one below.
 */
module DecimalMeaning {
  import opened Digits
  import opened DecimalCore
  import opened DecimalSpec
  import opened DecimalFix
  import opened DecimalForm
  import opened DecimalAdd

  /** The exact value and the context determine the rounded value. */
  lemma RoundedOnce(c: Settings, neg: bool, v: Exact, d: Decimal, d': Decimal)
    requires c.Valid() && CorrectlyRounded(c, neg, v, d) && CorrectlyRounded(c, neg, v, d')
    ensures d == d' || (d.Finite? && d'.Finite? && d.neg == d'.neg && d.Magnitude() == d'.Magnitude())
  {
    var lo, hi :| Neighbours(c, v, lo, hi) && RoundedBetween(c, neg, v, lo, hi, d);
    var lo', hi' :| Neighbours(c, v, lo', hi') && RoundedBetween(c, neg, v, lo', hi', d');
    NeighboursUnique(c, v, lo, hi, lo', hi');
    hide Neighbours, Chosen, Largest;
  }

  /** Every finite representable magnitude is a grid point not above the largest. */
  lemma RepresentableOnGrid(c: Settings, d: Decimal)
    requires c.Valid() && d.Finite? && Representable(c, d)
    ensures OnGrid(c, d.Magnitude()) && 0.0 <= d.Magnitude() <= Largest(c)
  {
    var m, l := Val(d.coeff), |d.coeff|;
    CanonicalBounds(d.coeff);
    Pow10Monotone(l, c.prec);
    assert PointOf(c, m, d.exp);
    ScaledOrder(0, m, d.exp);
    assert Scaled(0, d.exp) == 0.0;
    if m == 0 {
      ScaledOrder(0, Pow10(c.prec) - 1, c.Etop());
      assert Scaled(0, c.Etop()) == 0.0;
    } else {
      BelowLargest(c, d);
    }
  }

  lemma BelowLargest(c: Settings, d: Decimal)
    requires c.Valid() && d.Finite? && Representable(c, d) && !d.IsZero()
    ensures d.Magnitude() <= Largest(c)
  {
    var m, l := Val(d.coeff), |d.coeff|;
    CanonicalBounds(d.coeff);
    if d.exp <= c.Etop() {
      Pow10Monotone(l, c.prec);
      WithinLargest(c, d.exp, m);
    } else {
      ScaledShift(m, d.exp, c.Etop());
      ShlBounded(m, l, d.exp - c.Etop(), c.prec);
      WithinLargest(c, c.Etop(), m * Pow10(d.exp - c.Etop()));
    }
  }

  lemma ShlBounded(m: nat, l: nat, k: nat, p: nat)
    requires 1 <= l && Pow10(l - 1) <= m < Pow10(l) && l + k <= p
    ensures 0 <= m * Pow10(k) < Pow10(p)
  {
    ProductBounds(m, l, k, p);
  }

  /** In the half modes the exact value is on the result's side of the middle to any representable magnitude. */
  lemma HalfModesMiddle(c: Settings, neg: bool, v: Exact, d: Decimal, r: Decimal)
    requires c.Valid() && c.rounding in {HalfUp, HalfDown, HalfEven} && v.Above(0.0)
    requires CorrectlyRounded(c, neg, v, d) && d.Finite?
    requires r.Finite? && Representable(c, r)
    ensures var mid := (d.Magnitude() + r.Magnitude()) / 2.0;
            (r.Magnitude() < d.Magnitude() ==> v.AtLeast(mid)) && (d.Magnitude() < r.Magnitude() ==> !v.Above(mid))
  {
    var lo, hi :| Neighbours(c, v, lo, hi) && RoundedBetween(c, neg, v, lo, hi, d);
    RepresentableOnGrid(c, r);
    RepresentableOnGrid(c, d);
    var m, n := d.Magnitude(), r.Magnitude();
    hide Largest, Units, OnGrid, Decimal.Magnitude, Exact.AtLeast, Exact.Above;
    MiddleSide(c, neg, v, lo, hi, m, n);
  }

  lemma MiddleSide(c: Settings, neg: bool, v: Exact, lo: real, hi: real, m: real, n: real)
    requires c.rounding in {HalfUp, HalfDown, HalfEven} && v.Above(0.0) && lo <= hi
    requires v.AtLeast(lo) && !v.Above(hi) && m == Chosen(c.rounding, neg, v, lo, hi)
    requires (v.AtLeast(n) ==> n <= lo) && (!v.Above(n) ==> hi <= n)
    ensures var mid := (m + n) / 2.0; (n < m ==> v.AtLeast(mid)) && (m < n ==> !v.Above(mid))
  {
    var mid, half := (m + n) / 2.0, (lo + hi) / 2.0;
    ExactOrder(v, n, n);
    hide Exact.AtLeast, Exact.Above, Units;
    ExactOrder(v, half, half);
    if n < m {
      if m == lo {
        ExactOrder(v, mid, lo);
      } else {
        ExactOrder(v, mid, half);
      }
    } else if m < n {
      if m == hi {
        ExactOrder(v, hi, mid);
      } else {
        ExactOrder(v, half, mid);
      }
    }
  }

  /** In the half modes no representable magnitude is strictly nearer. */
  lemma HalfModesNearest(c: Settings, neg: bool, v: real, d: Decimal, r: Decimal)
    requires c.Valid() && c.rounding in {HalfUp, HalfDown, HalfEven} && 0.0 < v
    requires CorrectlyRounded(c, neg, Ratio(v), d) && d.Finite?
    requires r.Finite? && Representable(c, r)
    ensures AbsReal(v - d.Magnitude()) <= AbsReal(v - r.Magnitude())
  {
    HalfModesMiddle(c, neg, Ratio(v), d, r);
    hide CorrectlyRounded, Decimal.Magnitude;
  }

  // ---------- the whole outcome ----------

  lemma SameWidth(c: Settings, r: Decimal, r': Decimal)
    requires c.Valid() && r.Finite? && r'.Finite? && Representable(c, r) && Representable(c, r')
    requires r.neg == r'.neg && r.Magnitude() == r'.Magnitude() && FullWidth(c, r) && FullWidth(c, r')
    ensures r == r'
  {
    hide Decimal.Magnitude;
    if r.exp < r'.exp {
      LowerForm(r', r);
    } else if r'.exp < r.exp {
      LowerForm(r, r');
    } else {
      SameExponentSameDecimal(r, r');
    }
  }

  /** The context, the exact value and the ideal exponent determine the result, digit by digit, and all flags. */
  lemma OutcomeSettled(c: Settings, neg: bool, v: Exact, ideal: int, o: Outcome, o': Outcome)
    requires c.Valid() && Rounds(c, neg, v, ideal, o) && Rounds(c, neg, v, ideal, o')
    ensures o == o'
  {
    SameResult(c, neg, v, ideal, o, o');
    hide CorrectlyRounded;
    if d: Decimal :| IsExactForm(c, neg, v, ideal, d) {
      SameFlags(c, neg, v, o, o');
    } else {
      SameFlags(c, neg, v, o, o');
    }
  }

  lemma SameResult(c: Settings, neg: bool, v: Exact, ideal: int, o: Outcome, o': Outcome)
    requires c.Valid() && Rounds(c, neg, v, ideal, o) && Rounds(c, neg, v, ideal, o')
    ensures o.result == o'.result
  {
    if forall d: Decimal :: !IsExactForm(c, neg, v, ideal, d) {
      RoundedOnce(c, neg, v, o.result, o'.result);
      if o.result != o'.result {
        SameWidth(c, o.result, o'.result);
      }
    }
  }

  lemma SameFlags(c: Settings, neg: bool, v: Exact, o: Outcome, o': Outcome)
    requires c.Valid() && o.result.Valid() && o.result == o'.result && FlagsAgree(c, neg, v, o)
             && FlagsAgree(c, neg, v, o')
    requires Rounded in o.raised <==> Rounded in o'.raised
    requires Clamped in o.raised <==> Clamped in o'.raised
    requires InvalidOperation !in o.raised && DivisionByZero !in o.raised
    requires InvalidOperation !in o'.raised && DivisionByZero !in o'.raised
    ensures o == o'
  {
    hide Overflows;
    forall f: Signal ensures f in o.raised <==> f in o'.raised {
      match f
      case Clamped => case Inexact => case Rounded => case Subnormal => case Overflow => case Underflow =>
      case InvalidOperation => case DivisionByZero =>
    }
  }

  // ---------- directed rounding ----------

  /** `r` is the least representable value (or infinity) that is not below `s`. */
  ghost predicate LeastNotBelow(c: Settings, s: real, r: Decimal)
    requires c.Valid()
  {
    && Representable(c, r) && !r.NaN? && r != Infinity(true)
    && (r.Finite? ==> s <= r.Value())
    && (forall y: Decimal | y.Finite? && Representable(c, y) && s <= y.Value() :: r.Finite? && r.Value() <= y.Value())
  }

  ghost predicate GreatestNotAbove(c: Settings, s: real, r: Decimal)
    requires c.Valid()
  {
    && Representable(c, r) && !r.NaN? && r != Infinity(false)
    && (r.Finite? ==> r.Value() <= s)
    && (forall y: Decimal | y.Finite? && Representable(c, y) && y.Value() <= s :: r.Finite? && y.Value() <= r.Value())
  }

  lemma CeilingLeast(c: Settings, s: real, r: Decimal)
    requires c.Valid() && c.rounding == Ceiling && s != 0.0
    requires CorrectlyRounded(c, s < 0.0, Ratio(AbsReal(s)), r)
    ensures LeastNotBelow(c, s, r)
  {
    var v := Ratio(AbsReal(s));
    var lo, hi :| Neighbours(c, v, lo, hi) && RoundedBetween(c, s < 0.0, v, lo, hi, r);
    forall y: Decimal | y.Finite? && Representable(c, y) && s <= y.Value()
      ensures r.Finite? && r.Value() <= y.Value()
    {
      RepresentableOnGrid(c, y);
      hide Largest, OnGrid, Decimal.Magnitude;
    }
    if r.Finite? {
      RepresentableOnGrid(c, r);
    }
    hide Largest, OnGrid, Decimal.Magnitude;
  }

  lemma MirroredRounding(c: Settings, neg: bool, v: Exact, d: Decimal)
    requires c.Valid() && c.rounding == Floor && CorrectlyRounded(c, neg, v, d)
    ensures CorrectlyRounded(c.(rounding := Ceiling), !neg, v, CopyNegate(d))
  {
    var m := c.(rounding := Ceiling);
    var lo, hi :| Neighbours(c, v, lo, hi) && RoundedBetween(c, neg, v, lo, hi, d);
    assert forall r: real :: OnGrid(c, r) <==> OnGrid(m, r) by {
      forall r: real ensures OnGrid(c, r) <==> OnGrid(m, r) {
        assert forall k: nat, x: int :: PointOf(c, k, x) <==> PointOf(m, k, x);
      }
    }
    assert Neighbours(m, v, lo, hi);
    assert RoundedBetween(m, !neg, v, lo, hi, CopyNegate(d));
  }

  lemma MirroredLeast(c: Settings, s: real, r: Decimal)
    requires c.Valid() && LeastNotBelow(c.(rounding := Ceiling), -s, CopyNegate(r))
    ensures GreatestNotAbove(c, s, r)
  {
    var m := c.(rounding := Ceiling);
    forall y: Decimal | y.Finite? && Representable(c, y) && y.Value() <= s
      ensures r.Finite? && y.Value() <= r.Value()
    {
      assert Representable(m, CopyNegate(y)) && -s <= CopyNegate(y).Value();
    }
  }

  lemma FloorGreatest(c: Settings, s: real, r: Decimal)
    requires c.Valid() && c.rounding == Floor && s != 0.0
    requires CorrectlyRounded(c, s < 0.0, Ratio(AbsReal(s)), r)
    ensures GreatestNotAbove(c, s, r)
  {
    var m := c.(rounding := Ceiling);
    MirroredRounding(c, s < 0.0, Ratio(AbsReal(s)), r);
    CeilingLeast(m, -s, CopyNegate(r));
    MirroredLeast(c, s, r);
  }
}
