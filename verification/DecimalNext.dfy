/**
 Comparison by digit strings, and the representable neighbours of a value: one
 directed rounding, or a step of a tenth of the smallest unit followed by one.
 */
module DecimalNext {
  import opened Arithmetic
  import opened Digits
  import opened DecimalCore
  import opened DecimalSpec
  import opened DecimalFix
  import opened DecimalForm
  import opened DecimalAdd
  import opened DecimalMeaning

  // ---------- comparison ----------

  /** Character order on strings: -1, 0 or 1. */
  function TextOrder(s: string, t: string): int {
    if s == "" then (if t == "" then 0 else -1)
    else if t == "" then 1
    else if s[0] < t[0] then -1
    else if t[0] < s[0] then 1
    else TextOrder(s[1..], t[1..])
  }

  function SignOf(neg: bool): int {
    if neg then -1 else 1
  }

  function PadTo(d: Decimal, exp: int): string
    requires d.Finite?
  {
    if exp < d.exp then d.coeff + Zeros(d.exp - exp) else d.coeff
  }

  /** `_isinfinity` */
  function InfinitySign(d: Decimal): int {
    if d.Infinity? then SignOf(d.neg) else 0
  }

  /** `_cmp` */
  function Cmp(x: Decimal, y: Decimal): int
    requires !x.NaN? && !y.NaN?
  {
    if x.Infinity? || y.Infinity? then
      if InfinitySign(x) == InfinitySign(y) then 0 else if InfinitySign(x) < InfinitySign(y) then -1 else 1
    else if x.IsZero() then (if y.IsZero() then 0 else -SignOf(y.neg))
    else if y.IsZero() then SignOf(x.neg)
    else if !y.neg && x.neg then -1
    else if !x.neg && y.neg then 1
    else if x.Adjusted() == y.Adjusted() then
      var order := TextOrder(PadTo(x, y.exp), PadTo(y, x.exp));
      if order == 0 then 0 else if order < 0 then -SignOf(x.neg) else SignOf(x.neg)
    else if x.Adjusted() > y.Adjusted() then SignOf(x.neg)
    else -SignOf(x.neg)
  }

  function Order(a: real, b: real): int {
    if a < b then -1 else if a == b then 0 else 1
  }

  function IntOrder(a: int, b: int): int {
    if a < b then -1 else if a == b then 0 else 1
  }

  /** Digit strings of one length are ordered as their numbers. */
  lemma {:induction false} TextOrderVal(s: string, t: string)
    requires AllDigits(s) && AllDigits(t) && |s| == |t|
    ensures TextOrder(s, t) == IntOrder(Val(s), Val(t))
  {
    if s != "" {
      hide Val, Pow10, IntOrder;
      TextOrderVal(s[1..], t[1..]);
      HeadVal(s);
      HeadVal(t);
      ValUpper(s[1..]);
      ValUpper(t[1..]);
      HeadOrder(DigitVal(s[0]), DigitVal(t[0]), Pow10(|s| - 1), Val(s[1..]), Val(t[1..]), Val(s), Val(t));
    }
  }

  lemma HeadOrder(a: int, b: int, p: int, r: nat, q: nat, m: int, n: int)
    requires r < p && q < p && m == a * p + r && n == b * p + q
    ensures IntOrder(m, n) == if a < b then -1 else if b < a then 1 else IntOrder(r, q)
  {
    if a < b { MulOrder(a + 1, b, p); }
    if b < a { MulOrder(b + 1, a, p); }
  }

  lemma HeadVal(s: string)
    requires AllDigits(s) && s != ""
    ensures Val(s) == DigitVal(s[0]) * Pow10(|s| - 1) + Val(s[1..])
  {
    ValSplit(s, 1);
    assert s[..1] == [s[0]] && [s[0]][..0] == "";
    assert Val([s[0]]) == DigitVal(s[0]);
  }

  lemma PaddedOrder(x: Decimal, y: Decimal)
    requires x.Finite? && y.Finite? && x.Valid() && y.Valid() && x.Adjusted() == y.Adjusted()
    ensures TextOrder(PadTo(x, y.exp), PadTo(y, x.exp)) == Order(x.Magnitude(), y.Magnitude())
  {
    var s, t := PadTo(x, y.exp), PadTo(y, x.exp);
    var e := Min(x.exp, y.exp);
    PadMeaning(x, y.exp, e);
    PadMeaning(y, x.exp, e);
    hide PadTo, Scaled, Val;
    TextOrderVal(s, t);
    ScaledOrder(Val(s), Val(t), e);
    ScaledOrder(Val(t), Val(s), e);
  }

  lemma PadMeaning(x: Decimal, exp: int, e: int)
    requires x.Finite? && x.Valid() && e == Min(x.exp, exp)
    ensures var s := PadTo(x, exp);
            AllDigits(s) && |s| == |x.coeff| + x.exp - e && Scaled(Val(s), e) == x.Magnitude()
  {
    if exp < x.exp {
      ValPadded(x.coeff, x.exp - exp);
      ScaledShift(Val(x.coeff), x.exp, exp);
    }
  }

  lemma AdjustedBounds(x: Decimal)
    requires x.Finite? && x.Valid() && !x.IsZero()
    ensures Ten(x.Adjusted()) <= x.Magnitude() < Ten(x.Adjusted() + 1)
  {
    var l := |x.coeff|;
    CanonicalBounds(x.coeff);
    ScaledMagnitude(Val(x.coeff), x.exp, l, x.exp + l);
    ScaledOrder(Pow10(l - 1), Val(x.coeff), x.exp);
    TenShift(x.exp, l - 1);
  }

  /** Comparing adjusted exponents and padded digits compares the numbers. */
  lemma CmpMeaning(x: Decimal, y: Decimal)
    requires x.Finite? && y.Finite? && x.Valid() && y.Valid()
    ensures Cmp(x, y) == Order(x.Value(), y.Value())
  {
    ZeroValue(x);
    ZeroValue(y);
    if !x.IsZero() && !y.IsZero() && x.neg == y.neg {
      AdjustedBounds(x);
      AdjustedBounds(y);
      hide Decimal.Magnitude, Ten, PadTo, TextOrder;
      if x.Adjusted() == y.Adjusted() {
        PaddedOrder(x, y);
      } else if x.Adjusted() < y.Adjusted() {
        TenMonotone(x.Adjusted() + 1, y.Adjusted());
      } else {
        TenMonotone(y.Adjusted() + 1, x.Adjusted());
      }
    }
  }

  // ---------- next_plus and next_minus ----------

  /** `Decimal((0, '1', Etiny - 1))` */
  function Speck(c: Settings): Decimal {
    Finite(false, "1", c.Etiny() - 1)
  }

  function Towards(c: Settings, mode: Rounding): Settings {
    c.(rounding := mode)
  }

  /** `next_plus`; its own signals are ignored, only a signaling NaN is reported. */
  function NextPlus(c: Settings, x: Decimal): Outcome
    requires c.Valid() && x.Valid()
  {
    if x.NaN? then NaNResult(c, x, x)
    else if x.Infinity? then
      Outcome(if x.neg then Finite(true, Nines(c.prec), c.Etop()) else x, {})
    else
      var up := Towards(c, Ceiling);
      var fixed := Fix(up, x).result;
      FixNotNaN(up, x);
      Outcome(if Cmp(fixed, x) != 0 then fixed else Add(up, x, Speck(c)).result, {})
  }

  /** `next_minus` */
  function NextMinus(c: Settings, x: Decimal): Outcome
    requires c.Valid() && x.Valid()
  {
    if x.NaN? then NaNResult(c, x, x)
    else if x.Infinity? then
      Outcome(if x.neg then x else Finite(false, Nines(c.prec), c.Etop()), {})
    else
      var down := Towards(c, Floor);
      var fixed := Fix(down, x).result;
      FixNotNaN(down, x);
      Outcome(if Cmp(fixed, x) != 0 then fixed else Sub(down, x, Speck(c)).result, {})
  }

  lemma FixNotNaN(c: Settings, x: Decimal)
    requires c.Valid() && x.Finite? && x.Valid()
    ensures var r := Fix(c, x).result; !r.NaN? && r.Valid()
    ensures !x.IsZero() ==> RoundedValue(c, x.Value(), false, x.exp, Fix(c, x))
  {
    if !x.IsZero() {
      ZeroValue(x);
      AgreesWithItself(x.Magnitude(), UnitExp(c, x));
      assert StandsFor(c, x, Ratio(x.Magnitude()), x.exp);
      hide Fix, RoundedValue, Agrees, StandsFor, AbsReal, Decimal.Value, Decimal.Magnitude;
      FixRoundsValue(c, x, x.Value(), false, x.exp);
      RoundedNotNaN(c, x.Value(), false, x.exp, Fix(c, x));
    }
  }

  lemma RoundedNotNaN(c: Settings, s: real, z: bool, ideal: int, o: Outcome)
    requires c.Valid() && RoundedValue(c, s, z, ideal, o)
    ensures !o.result.NaN? && o.result.Valid()
  {
  }

  // ---------- the least value above ----------

  /** `r` is the least representable value above `s`, or infinity when there is none. */
  ghost predicate LeastAbove(c: Settings, s: real, r: Decimal)
    requires c.Valid()
  {
    && Representable(c, r) && !r.NaN? && r != Infinity(true)
    && (r.Finite? ==> s < r.Value())
    && (forall y: Decimal | y.Finite? && Representable(c, y) && s < y.Value() :: r.Finite? && r.Value() <= y.Value())
  }

  ghost predicate GreatestBelow(c: Settings, s: real, r: Decimal)
    requires c.Valid()
  {
    && Representable(c, r) && !r.NaN? && r != Infinity(false)
    && (r.Finite? ==> r.Value() < s)
    && (forall y: Decimal | y.Finite? && Representable(c, y) && y.Value() < s :: r.Finite? && y.Value() <= r.Value())
  }

  /** A representable value is a whole number of smallest units. */
  lemma WholeUnits(c: Settings, y: Decimal) returns (k: int)
    requires c.Valid() && y.Finite? && Representable(c, y)
    ensures y.Value() == Scaled(k, c.Etiny())
  {
    var n := Val(y.coeff) * Pow10(y.exp - c.Etiny());
    ScaledShift(Val(y.coeff), y.exp, c.Etiny());
    ScaledNegate(n, c.Etiny());
    k := if y.neg then -n else n;
  }

  /** Nothing representable lies within a tenth of the smallest unit above a representable value. */
  lemma NoneWithin(c: Settings, x: Decimal, y: Decimal)
    requires c.Valid() && x.Finite? && y.Finite? && Representable(c, x) && Representable(c, y)
    ensures x.Value() < y.Value() <==> x.Value() + Ten(c.Etiny() - 1) <= y.Value()
    ensures x.Value() + Ten(c.Etiny() - 1) != y.Value()
  {
    var a := WholeUnits(c, x);
    var b := WholeUnits(c, y);
    var e := c.Etiny();
    ScaledShift(a, e, e - 1);
    ScaledShift(b, e, e - 1);
    assert Pow10(1) == 10 * Pow10(0);
    ScaledSum(10 * a, 1, e - 1);
    assert Scaled(1, e - 1) == Ten(e - 1);
    hide Scaled, Ten, Decimal.Value;
    ScaledOrder(10 * a, 10 * b, e - 1);
    ScaledOrder(10 * a + 1, 10 * b, e - 1);
    ScaledOrder(10 * b, 10 * a + 1, e - 1);
  }

  lemma SpeckValue(c: Settings)
    ensures Speck(c).Finite? && Speck(c).Valid() && !Speck(c).IsZero() && Speck(c).Value() == Ten(c.Etiny() - 1)
    ensures CopyNegate(Speck(c)).Value() == -Ten(c.Etiny() - 1)
  {
    assert "1"[..0] == "";
    assert Val("1") == 1;
  }

  /** Stepping from a representable value by a tenth of the smallest unit and rounding up. */
  lemma StepUp(c: Settings, x: Decimal, x': Decimal)
    requires c.Valid() && x.Finite? && x.Valid() && x'.Finite? && Representable(c, x') && x'.Value() == x.Value()
    ensures LeastAbove(c, x.Value(), Add(Towards(c, Ceiling), x, Speck(c)).result)
  {
    SpeckValue(c);
    hide Add, Scaled, Ten, LeastNotBelow, LeastAbove, Decimal.Value, Speck;
    StepNonzero(c, x');
    CeilingSum(c, x);
    LeastFromStep(c, x', x.Value() + Ten(c.Etiny() - 1), Add(Towards(c, Ceiling), x, Speck(c)).result);
  }

  lemma CeilingSum(c: Settings, x: Decimal)
    requires c.Valid() && x.Finite? && x.Valid() && x.Value() + Ten(c.Etiny() - 1) != 0.0
    ensures LeastNotBelow(Towards(c, Ceiling), x.Value() + Ten(c.Etiny() - 1),
                          Add(Towards(c, Ceiling), x, Speck(c)).result)
  {
    var up := Towards(c, Ceiling);
    hide Add, Scaled, Ten, CorrectlyRounded, FlagsAgree, InForm, Decimal.Value, Speck, AbsReal;
    SpeckValue(c);
    AddRounds(up, x, Speck(c));
    CeilingLeast(up, x.Value() + Ten(c.Etiny() - 1), Add(up, x, Speck(c)).result);
  }

  lemma StepNonzero(c: Settings, x: Decimal)
    requires c.Valid() && x.Finite? && Representable(c, x)
    ensures x.Value() + Ten(c.Etiny() - 1) != 0.0
  {
    var zero := Finite(false, "0", c.Etiny());
    ZeroValue(zero);
    NoneWithin(c, x, zero);
  }

  lemma LeastFromStep(c: Settings, x: Decimal, s: real, r: Decimal)
    requires c.Valid() && x.Finite? && Representable(c, x) && s == x.Value() + Ten(c.Etiny() - 1)
    requires LeastNotBelow(Towards(c, Ceiling), s, r)
    ensures LeastAbove(c, x.Value(), r)
  {
    var up := Towards(c, Ceiling);
    hide Scaled, Ten, Decimal.Value;
    forall y: Decimal | y.Finite? && Representable(c, y) && x.Value() < y.Value()
      ensures r.Finite? && r.Value() <= y.Value()
    {
      NoneWithin(c, x, y);
      assert Representable(up, y);
    }
    assert Representable(c, r);
    if r.Finite? {
      NoneWithin(c, x, r);
    }
  }

  lemma FixedUp(c: Settings, x: Decimal)
    requires c.Valid() && x.Finite? && x.Valid()
    ensures var r := Fix(Towards(c, Ceiling), x).result;
      && Representable(c, r) && !r.NaN?
      && (x.IsZero() ==> r.IsZero())
      && (!x.IsZero() ==> LeastNotBelow(Towards(c, Ceiling), x.Value(), r))
  {
    var up := Towards(c, Ceiling);
    var r := Fix(up, x).result;
    if !x.IsZero() {
      hide Fix, Decimal.Value, AbsReal, CorrectlyRounded, FlagsAgree;
      FixNotNaN(up, x);
      NonzeroValue(x);
      CeilingLeast(up, x.Value(), r);
      assert Representable(up, r);
    }
  }

  lemma NonzeroValue(x: Decimal)
    requires x.Finite? && x.Valid() && !x.IsZero()
    ensures x.Value() != 0.0
  {
    ZeroValue(x);
  }

  /** `next_plus` returns the least representable value strictly above its operand. */
  lemma NextPlusLeast(c: Settings, x: Decimal)
    requires c.Valid() && x.Valid() && x.Finite?
    ensures LeastAbove(c, x.Value(), NextPlus(c, x).result)
  {
    var up := Towards(c, Ceiling);
    var r := Fix(up, x).result;
    FixedUp(c, x);
    FixNotNaN(up, x);
    hide Fix, Add, Decimal.Value, Cmp;
    if r.Finite? {
      CmpMeaning(r, x);
      if x.IsZero() { ZeroValue(x); ZeroValue(r); }
    } else {
      CmpInfinity(r, x);
    }
    if Cmp(r, x) != 0 {
      StrictLeast(c, x.Value(), r);
    } else {
      StepUp(c, x, r);
    }
  }

  lemma CmpInfinity(r: Decimal, x: Decimal)
    requires r.Infinity? && x.Finite?
    ensures Cmp(r, x) != 0
  {
  }

  lemma StrictLeast(c: Settings, s: real, r: Decimal)
    requires c.Valid() && LeastNotBelow(Towards(c, Ceiling), s, r) && (r.Finite? ==> r.Value() != s)
    ensures LeastAbove(c, s, r)
  {
    var up := Towards(c, Ceiling);
    hide Decimal.Value;
    forall y: Decimal | y.Finite? && Representable(c, y) && s < y.Value()
      ensures r.Finite? && r.Value() <= y.Value()
    {
      assert Representable(up, y);
    }
    assert Representable(c, r);
  }

  /** From minus infinity the least representable value; plus infinity has nothing above it. */
  lemma NextPlusInfinite(c: Settings, neg: bool)
    requires c.Valid()
    ensures var r := NextPlus(c, Infinity(neg)).result;
      if neg then
        r.Finite? && Representable(c, r)
        && forall y: Decimal | y.Finite? && Representable(c, y) :: r.Value() <= y.Value()
      else r == Infinity(false)
  {
    if neg {
      var r := NextPlus(c, Infinity(neg)).result;
      LargestText(c);
      forall y: Decimal | y.Finite? && Representable(c, y)
        ensures r.Value() <= y.Value()
      {
        RepresentableOnGrid(c, y);
        hide Decimal.Magnitude, Largest;
      }
    }
  }

  lemma LargestText(c: Settings)
    requires c.Valid()
    ensures Canonical(Nines(c.prec)) && Val(Nines(c.prec)) == Pow10(c.prec) - 1
  {
    NinesVal(c.prec);
    assert Nines(c.prec)[0] == '9';
  }

  // ---------- the greatest value below, by reflection ----------

  lemma MirroredAbove(c: Settings, s: real, r: Decimal)
    requires c.Valid() && LeastAbove(c, -s, CopyNegate(r))
    ensures GreatestBelow(c, s, r)
  {
    hide Decimal.Magnitude;
    forall y: Decimal | y.Finite? && Representable(c, y) && y.Value() < s
      ensures r.Finite? && y.Value() <= r.Value()
    {
      assert Representable(c, CopyNegate(y)) && -s < CopyNegate(y).Value();
    }
  }

  /** A floor rounding of `s`, reflected, is a ceiling rounding of `-s`. */
  lemma ReflectedLeast(c: Settings, s: real, z: bool, ideal: int, o: Outcome)
    requires c.Valid() && s != 0.0 && RoundedValue(Towards(c, Floor), s, z, ideal, o)
    ensures LeastNotBelow(Towards(c, Ceiling), -s, CopyNegate(o.result))
  {
    MirroredRounding(Towards(c, Floor), s < 0.0, Ratio(AbsReal(s)), o.result);
    hide CorrectlyRounded, FlagsAgree, InForm;
    CeilingLeast(Towards(c, Ceiling), -s, CopyNegate(o.result));
  }

  lemma StepDown(c: Settings, x: Decimal, x': Decimal)
    requires c.Valid() && x.Finite? && x.Valid() && x'.Finite? && Representable(c, x') && x'.Value() == x.Value()
    ensures GreatestBelow(c, x.Value(), Sub(Towards(c, Floor), x, Speck(c)).result)
  {
    SpeckValue(c);
    var m, r := CopyNegate(x'), Sub(Towards(c, Floor), x, Speck(c)).result;
    hide Sub, Scaled, Ten, Decimal.Value, Speck, CopyNegate, LeastAbove, GreatestBelow, LeastNotBelow;
    NegatedRepresentable(c, x');
    StepNonzero(c, m);
    FloorSum(c, x);
    LeastFromStep(c, m, -(x.Value() - Ten(c.Etiny() - 1)), CopyNegate(r));
    MirroredAbove(c, x.Value(), r);
  }

  lemma FloorSum(c: Settings, x: Decimal)
    requires c.Valid() && x.Finite? && x.Valid() && x.Value() - Ten(c.Etiny() - 1) != 0.0
    ensures LeastNotBelow(Towards(c, Ceiling), -(x.Value() - Ten(c.Etiny() - 1)),
                          CopyNegate(Sub(Towards(c, Floor), x, Speck(c)).result))
  {
    var down := Towards(c, Floor);
    hide Sub, Scaled, Ten, RoundedValue, Decimal.Value, Speck, CopyNegate, ZeroSumSign, LeastNotBelow;
    SpeckValue(c);
    SubRounds(down, x, Speck(c));
    ReflectedLeast(c, x.Value() - Ten(c.Etiny() - 1), ZeroSumSign(down, x, CopyNegate(Speck(c))),
                   Min(x.exp, Speck(c).exp), Sub(down, x, Speck(c)));
  }

  lemma NegatedRepresentable(c: Settings, d: Decimal)
    requires c.Valid() && d.Finite? && Representable(c, d)
    ensures var m := CopyNegate(d);
            m.Finite? && Representable(c, m) && m.Value() == -d.Value()
  {
  }

  lemma FixedDown(c: Settings, x: Decimal)
    requires c.Valid() && x.Finite? && x.Valid()
    ensures var r := Fix(Towards(c, Floor), x).result;
      && Representable(c, r) && !r.NaN?
      && (x.IsZero() ==> r.IsZero())
      && (!x.IsZero() ==> LeastNotBelow(Towards(c, Ceiling), -x.Value(), CopyNegate(r)))
  {
    var down := Towards(c, Floor);
    var r := Fix(down, x).result;
    if !x.IsZero() {
      hide Fix, Decimal.Value, AbsReal, CorrectlyRounded, FlagsAgree;
      FixNotNaN(down, x);
      NonzeroValue(x);
      ReflectedLeast(c, x.Value(), false, x.exp, Fix(down, x));
      assert Representable(down, r);
    }
  }

  /** `next_minus` returns the greatest representable value strictly below its operand. */
  lemma NextMinusGreatest(c: Settings, x: Decimal)
    requires c.Valid() && x.Valid() && x.Finite?
    ensures GreatestBelow(c, x.Value(), NextMinus(c, x).result)
  {
    var down := Towards(c, Floor);
    var r := Fix(down, x).result;
    FixedDown(c, x);
    FixNotNaN(down, x);
    hide Fix, Sub, Decimal.Value, Cmp;
    if r.Finite? {
      CmpMeaning(r, x);
      if x.IsZero() { ZeroValue(x); ZeroValue(r); }
    } else {
      CmpInfinity(r, x);
    }
    if Cmp(r, x) != 0 {
      StrictLeast(c, -x.Value(), CopyNegate(r));
      MirroredAbove(c, x.Value(), r);
    } else {
      StepDown(c, x, r);
    }
  }

  lemma NextMinusInfinite(c: Settings, neg: bool)
    requires c.Valid()
    ensures var r := NextMinus(c, Infinity(neg)).result;
      if neg then r == Infinity(true)
      else
        r.Finite? && Representable(c, r)
        && forall y: Decimal | y.Finite? && Representable(c, y) :: y.Value() <= r.Value()
  {
    if !neg {
      var r := NextMinus(c, Infinity(neg)).result;
      LargestText(c);
      forall y: Decimal | y.Finite? && Representable(c, y)
        ensures y.Value() <= r.Value()
      {
        RepresentableOnGrid(c, y);
        hide Decimal.Magnitude, Largest;
      }
    }
  }
}
