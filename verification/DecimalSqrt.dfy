/**
 Square root: an integer square root with one digit to spare, the same last-digit
 adjustment as division, and one half-even rounding.
 */
module DecimalSqrt {
  import opened Arithmetic
  import opened Digits
  import opened DecimalCore
  import opened DecimalSpec
  import opened DecimalFix
  import opened DecimalForm
  import opened DecimalMeaning
  import opened DecimalAdd
  import opened DecimalDiv

  /** floor(sqrt(c)) */
  function FloorSqrt(c: nat): (n: nat)
    ensures n * n <= c < (n + 1) * (n + 1)
  {
    if c == 0 then 0
    else
      var n := FloorSqrt(c - 1);
      if (n + 1) * (n + 1) <= c then n + 1 else n
  }

  lemma FloorSqrtUnique(c: nat, n: nat)
    requires n * n <= c < (n + 1) * (n + 1)
    ensures n == FloorSqrt(c)
  {
    var m := FloorSqrt(c);
    if n < m { SquareMonotone(n + 1, m); }
    if m < n { SquareMonotone(m + 1, n); }
  }

  lemma SquareMonotone(a: nat, b: nat)
    requires a <= b
    ensures a * a <= b * b
  {
    MulOrder(a, b, a);
    MulOrder(a, b, b);
  }

  /** The argument as c * 100^e with a whole number of base-100 digits. */
  function Radicand(x: Decimal): nat
    requires x.Finite? && x.Valid()
  {
    if x.exp % 2 == 1 then Val(x.coeff) * 10 else Val(x.coeff)
  }

  function HundredDigits(x: Decimal): nat
    requires x.Finite?
  {
    if x.exp % 2 == 1 then |x.coeff| / 2 + 1 else (|x.coeff| + 1) / 2
  }

  function RootShift(c: Settings, x: Decimal): int
    requires x.Finite?
  {
    c.prec + 1 - HundredDigits(x)
  }

  /** The scaled radicand, and whether the scaling dropped nothing. */
  function ScaledRadicand(c: Settings, x: Decimal): (nat, bool)
    requires x.Finite? && x.Valid()
  {
    var shift := RootShift(c, x);
    if shift >= 0 then
      (Shl(Radicand(x), 2 * shift), true)
    else
      var (q, r) := DivMod(Radicand(x), Pow10(2 * -shift));
      (q, r == 0)
  }

  /** What remains after the integer root `n` is known: the working coefficient and exponent. */
  function FinishRoot(c: Settings, x: Decimal, n: nat): (nat, int)
    requires x.Finite? && x.Valid()
  {
    var shift := RootShift(c, x);
    var (radicand, whole) := ScaledRadicand(c, x);
    var e := x.exp / 2 - shift;
    if whole && n * n == radicand then
      (if shift >= 0 then DivMod(n, Pow10(shift)).0 else Shl(n, -shift), e + shift)
    else
      (Bumped(n), e)
  }

  function HalfEvenSettings(c: Settings): Settings {
    c.(rounding := HalfEven)
  }

  /** `sqrt` */
  function Sqrt(c: Settings, x: Decimal): Outcome
    requires c.Valid() && x.Valid()
  {
    if x.NaN? then NaNResult(c, x, x)
    else if x == Infinity(false) then Outcome(x, {})
    else if x.IsZero() then Fix(c, Finite(x.neg, "0", x.exp / 2))
    else if x.neg then Outcome(NaN(false, "", false), {InvalidOperation})
    else
      var (n, e) := FinishRoot(c, x, FloorSqrt(ScaledRadicand(c, x).0));
      StrVal(n);
      Fix(HalfEvenSettings(c), Finite(false, Str(n), e))
  }

  // ---------- sizes ----------

  lemma RadicandSize(x: Decimal)
    requires x.Finite? && x.Valid() && !x.IsZero()
    ensures 1 <= HundredDigits(x)
    ensures Pow10(2 * (HundredDigits(x) - 1)) <= Radicand(x) < Pow10(2 * HundredDigits(x))
  {
    var l, k := HundredDigits(x), |x.coeff|;
    CanonicalBounds(x.coeff);
    assert Pow10(k + 1) == 10 * Pow10(k) && Pow10(k) == 10 * Pow10(k - 1);
    hide Pow10, Val;
    if x.exp % 2 == 1 {
      Pow10Monotone(2 * (l - 1), k);
      Pow10Monotone(k + 1, 2 * l);
    } else {
      Pow10Monotone(2 * (l - 1), k - 1);
      Pow10Monotone(k, 2 * l);
    }
  }

  /** The scaled radicand has a root with `prec + 1` digits. */
  lemma RootLong(c: Settings, x: Decimal)
    requires c.Valid() && x.Finite? && x.Valid() && !x.IsZero()
    ensures var r := ScaledRadicand(c, x).0;
            Pow10(2 * c.prec) <= r < Pow10(2 * c.prec + 2) && Pow10(c.prec) <= FloorSqrt(r)
  {
    var shift, l, m := RootShift(c, x), HundredDigits(x), Radicand(x);
    var r := ScaledRadicand(c, x).0;
    RadicandSize(x);
    if shift >= 0 {
      ShlBounds(m, 2 * (l - 1), 2 * shift);
      ShlBelow(m, 2 * l, 2 * shift);
    } else {
      QuotientBelow(m, 2 * -shift, 2 * c.prec + 2);
      QuotientAbove(m, 2 * -shift, 2 * c.prec);
    }
    hide ScaledRadicand;
    SquareRootAtLeast(r, Pow10(c.prec)) by { Pow10Add(c.prec, c.prec); }
  }

  lemma ShlBelow(m: int, k: nat, i: nat)
    requires m < Pow10(k)
    ensures Shl(m, i) < Pow10(k + i)
  {
    Pow10Add(k, i);
    MulOrder(m, Pow10(k), Pow10(i));
  }

  lemma SquareRootAtLeast(r: nat, p: nat)
    requires p * p <= r
    ensures p <= FloorSqrt(r)
  {
    var n := FloorSqrt(r);
    if n + 1 <= p {
      SquareMonotone(n + 1, p);
    }
  }

  // ---------- a square that divides a square ----------

  lemma SquareResidue(n: nat)
    requires (n * n) % 10 == 0
    ensures n % 10 == 0
  {
    var q, d := n / 10, n % 10;
    SplitSquare(q, d, n);
    DigitSquare(d);
  }

  lemma SplitSquare(q: nat, d: nat, n: nat)
    requires n == 10 * q + d
    ensures n * n == 10 * (q * (n + d)) + d * d
  {
  }

  lemma DigitSquare(d: nat)
    requires d < 10 && (d * d) % 10 == 0
    ensures d == 0
  {
  }

  lemma ShlSteps(c: int, s: nat)
    requires s >= 1
    ensures Shl(c, 2 * s) == 100 * Shl(c, 2 * (s - 1)) && Shl(c, s) == 10 * Shl(c, s - 1)
  {
    assert Pow10(2 * s) == 100 * Pow10(2 * (s - 1));
    assert Pow10(s) == 10 * Pow10(s - 1);
    MulScale(c, Pow10(2 * (s - 1)), 100);
    MulScale(c, Pow10(s - 1), 10);
  }

  lemma TenthSquare(n: int, k: int, q: int)
    requires n == 10 * k && n * n == 100 * q
    ensures k * k == q
  {
    assert n * n == 100 * (k * k);
  }

  lemma {:induction false} RootOfShifted(n: nat, c: nat, s: nat)
    requires n * n == Shl(c, 2 * s)
    ensures exists m: nat :: n == Shl(m, s) && m * m == c
  {
    if s == 0 {
      assert n == Shl(n, 0) && n * n == c;
    } else {
      hide Shl;
      ShlSteps(c, s);
      SquareResidue(n);
      var k := n / 10;
      TenthSquare(n, k, Shl(c, 2 * (s - 1)));
      RootOfShifted(k, c, s - 1);
      var m: nat :| k == Shl(m, s - 1) && m * m == c;
      ShlSteps(m, s);
    }
  }

  // ---------- comparing with the exact root ----------

  lemma ScaledSquare(k: int, e: int)
    ensures Square(Scaled(k, e)) == Scaled(k * k, 2 * e)
  {
    ScaledProduct(k, e, k, e);
  }

  lemma ArgumentAsRadicand(x: Decimal)
    requires x.Finite? && x.Valid()
    ensures x.Magnitude() == Scaled(Radicand(x), 2 * (x.exp / 2))
  {
    if x.exp % 2 == 1 {
      ScaledShift(Val(x.coeff), x.exp, x.exp - 1);
      assert Pow10(1) == 10 * Pow10(0);
    }
  }

  /** k units of the working exponent against the exact root. */
  lemma UnitsOfRoot(c: Settings, x: Decimal, k: nat)
    requires c.Valid() && x.Finite? && x.Valid() && !x.IsZero()
    ensures var p, v := Scaled(k, x.exp / 2 - RootShift(c, x)), Root(x.Magnitude());
            var (r, whole) := ScaledRadicand(c, x);
      && (v.AtLeast(p) <==> k * k <= r)
      && (v.Above(p) <==> k * k < r || (k * k == r && !whole))
  {
    var shift, m := RootShift(c, x), Radicand(x);
    var e := x.exp / 2 - shift;
    ScaledSquare(k, e);
    ArgumentAsRadicand(x);
    RootSign(k, e, x);
    hide Scaled, Radicand, RootShift, Square, Pow10, Decimal.Magnitude;
    if shift >= 0 {
      CompareFiner(k * k, m, 2 * (x.exp / 2), 2 * shift);
    } else {
      CompareCoarser(k * k, m, 2 * (x.exp / 2), 2 * -shift);
      ShlAgainst(k * k, m, 2 * -shift);
    }
  }

  lemma RootSign(k: nat, e: int, x: Decimal)
    requires x.Finite? && x.Valid() && !x.IsZero()
    ensures Scaled(k, e) >= 0.0 && x.Magnitude() > 0.0
    ensures Scaled(k, e) == 0.0 ==> Square(Scaled(k, e)) == 0.0
  {
    CanonicalBounds(x.coeff);
    ScaledOrder(0, k, e);
    ScaledOrder(0, Val(x.coeff), x.exp);
    assert Scaled(0, e) == 0.0 && Scaled(0, x.exp) == 0.0;
  }

  lemma ShlAgainst(a: nat, m: nat, k: nat)
    ensures var (q, r) := DivMod(m, Pow10(k));
      && (Shl(a, k) <= m <==> a <= q)
      && (Shl(a, k) < m <==> a < q || (a == q && r != 0))
  {
    var (q, r) := DivMod(m, Pow10(k));
    hide Pow10, Shl;
    if a < q { ShlOrder(a, q, k); }
    if q < a { ShlOrder(q, a, k); }
  }

  lemma ShlOrder(a: int, b: int, k: nat)
    requires a < b
    ensures Shl(a, k) + Pow10(k) <= Shl(b, k)
  {
    MulOrder(a + 1, b, Pow10(k));
  }

  // ---------- the theorem ----------

  /** A working value whose square is the argument is the root itself. */
  lemma RootAgrees(square: real, m: real, g: int)
    requires 0.0 < m && Square(m) == square
    ensures Agrees(Root(square), m, g) && Root(square).Equals(m)
  {
    forall h: int
      ensures Root(square).AtLeast(HalfPoint(h, g)) <==> HalfPoint(h, g) <= m
      ensures Root(square).Above(HalfPoint(h, g)) <==> HalfPoint(h, g) < m
    {
      SquareCompare(HalfPoint(h, g), m);
    }
  }

  lemma SquareCompare(p: real, m: real)
    requires 0.0 < m
    ensures (p <= 0.0 || Square(p) <= Square(m)) <==> p <= m
    ensures (p < 0.0 || Square(p) < Square(m)) <==> p < m
  {
    if 0.0 <= p {
      if p <= m { SquareOrder(p, m); } else { SquareOrder(m, p); }
    }
  }

  lemma RootAbove(c: Settings, x: Decimal)
    requires c.Valid() && x.Finite? && x.Valid() && !x.IsZero()
    ensures Root(x.Magnitude()).Above(0.0)
  {
    RootSign(0, 0, x);
  }

  /** An inexact root: the sticky last digit is as good as the exact root. */
  lemma InexactRoot(c: Settings, x: Decimal)
    requires c.Valid() && x.Finite? && x.Valid() && !x.IsZero()
    requires var (r, whole) := ScaledRadicand(c, x); !(whole && FloorSqrt(r) * FloorSqrt(r) == r)
    ensures var (n, e) := FinishRoot(c, x, FloorSqrt(ScaledRadicand(c, x).0));
            var d := Finite(false, Str(n), e);
            d.Valid() && !d.IsZero() && Agrees(Root(x.Magnitude()), d.Magnitude(), UnitExp(c, d))
            && StandsFor(c, d, Root(x.Magnitude()), x.exp / 2)
  {
    var (r, whole) := ScaledRadicand(c, x);
    var q := FloorSqrt(r);
    var (n, e) := FinishRoot(c, x, q);
    assert n == Bumped(q) && e == x.exp / 2 - RootShift(c, x);
    hide Scaled, ScaledRadicand, FinishRoot, FloorSqrt, Agrees, RootShift, Decimal.Magnitude;
    hide Exact.AtLeast, Exact.Above, Pow10, Val, Str, Bumped, StandsFor, UnitExp;
    RootLong(c, x);
    RootAbove(c, x);
    UnitsOfRoot(c, x, q);
    UnitsOfRoot(c, x, q + 1);
    BumpedMeaning(q);
    LongStands(c, false, n, e, Root(x.Magnitude()), x.exp / 2);
    LongUnit(c, Finite(false, Str(n), e));
    AdjustedAgrees(Root(x.Magnitude()), q, e, UnitExp(c, Finite(false, Str(n), e)));
  }

  /** An exact root is divisible by the scaling, so it is returned at the ideal exponent. */
  lemma ExactRoot(c: Settings, x: Decimal)
    requires c.Valid() && x.Finite? && x.Valid() && !x.IsZero()
    requires var (r, whole) := ScaledRadicand(c, x); whole && FloorSqrt(r) * FloorSqrt(r) == r
    ensures var q := FloorSqrt(ScaledRadicand(c, x).0);
            var (n, e) := FinishRoot(c, x, q);
      && (RootShift(c, x) >= 0 ==> DivMod(q, Pow10(RootShift(c, x))).1 == 0)
      && e == x.exp / 2 && n * n == Radicand(x) && n > 0
      && Square(Scaled(n, e)) == x.Magnitude()
  {
    var shift := RootShift(c, x);
    var q := FloorSqrt(ScaledRadicand(c, x).0);
    var (n, e) := FinishRoot(c, x, q);
    hide FloorSqrt, Scaled;
    if shift >= 0 {
      RootOfShifted(q, Radicand(x), shift);
      var m: nat :| q == Shl(m, shift) && m * m == Radicand(x);
      ShlDivMod(m, shift);
    } else {
      ShlSquare(q, -shift);
      var (a, b) := DivMod(Radicand(x), Pow10(2 * -shift));
      assert Radicand(x) == Shl(q * q, 2 * -shift);
    }
    RadicandSize(x);
    ScaledSquare(n, e);
    ArgumentAsRadicand(x);
  }

  lemma ShlDivMod(m: nat, k: nat)
    ensures DivMod(Shl(m, k), Pow10(k)) == (m, 0)
  {
    DivModUnique(Shl(m, k), Pow10(k), m, 0);
  }

  lemma ShlSquare(q: nat, k: nat)
    ensures Shl(q, k) * Shl(q, k) == Shl(q * q, 2 * k)
  {
    var p := Pow10(k);
    Pow10Add(k, k);
    assert (q * p) * (q * p) == (q * q) * (p * p);
  }

  /** The working root stands for the exact one. */
  lemma RootStands(c: Settings, x: Decimal)
    requires c.Valid() && x.Finite? && x.Valid() && !x.IsZero()
    ensures var (n, e) := FinishRoot(c, x, FloorSqrt(ScaledRadicand(c, x).0));
            var d, v := Finite(false, Str(n), e), Root(x.Magnitude());
            && d.Valid() && !d.IsZero() && Agrees(v, d.Magnitude(), UnitExp(c, d)) && StandsFor(c, d, v, x.exp / 2)
  {
    var (r, whole) := ScaledRadicand(c, x);
    var (n, e) := FinishRoot(c, x, FloorSqrt(r));
    var d := Finite(false, Str(n), e);
    hide Scaled, ScaledRadicand, FinishRoot, FloorSqrt, Agrees, Str;
    if whole && FloorSqrt(r) * FloorSqrt(r) == r {
      ExactRoot(c, x);
      NonzeroCoefficient(n, e);
      RootAgrees(x.Magnitude(), d.Magnitude(), UnitExp(c, d)) by { PositiveMagnitude(d); }
    } else {
      InexactRoot(c, x);
    }
  }

  /**
   The square root of every positive finite operand is the exact root rounded once, half-even, in every context: the
   value, the form, whose ideal exponent is half the operand's, and all flags.
   */
  lemma SqrtRounds(c: Settings, x: Decimal)
    requires c.Valid() && x.Finite? && x.Valid() && !x.IsZero() && !x.neg
    ensures Rounds(HalfEvenSettings(c), false, Root(x.Magnitude()), x.exp / 2, Sqrt(c, x))
  {
    var h := HalfEvenSettings(c);
    var (n, e) := FinishRoot(c, x, FloorSqrt(ScaledRadicand(c, x).0));
    RootStands(h, x);
    assert FinishRoot(h, x, FloorSqrt(ScaledRadicand(h, x).0)) == (n, e);
    hide Scaled, ScaledRadicand, FinishRoot, FloorSqrt, Agrees, StandsFor, Fix, Rounds, Decimal.Magnitude;
    FixOutcome(h, Finite(false, Str(n), e), Root(x.Magnitude()), x.exp / 2);
  }

  /** A root that fits at half the operand's exponent is returned there, neither Inexact nor Rounded. */
  lemma ExactRootReturned(c: Settings, x: Decimal, d: Decimal)
    requires c.Valid() && x.Finite? && x.Valid() && !x.IsZero() && !x.neg
    requires d.Finite? && d.Valid() && !d.IsZero() && !d.neg && d.exp == x.exp / 2 && Representable(c, d)
    requires Square(d.Magnitude()) == x.Magnitude()
    ensures Sqrt(c, x).result == d && Inexact !in Sqrt(c, x).raised && Rounded !in Sqrt(c, x).raised
  {
    var h, v := HalfEvenSettings(c), Root(x.Magnitude());
    PositiveMagnitude(d);
    SqrtRounds(c, x);
    hide Scaled, Sqrt, CorrectlyRounded, Decimal.Magnitude, Square;
    assert IsExactForm(h, false, v, x.exp / 2, d);
  }

  /** The square root is a nearest representable value to the real root. */
  lemma SqrtIsNearest(c: Settings, x: Decimal, root: real, r: Decimal)
    requires c.Valid() && x.Finite? && x.Valid() && !x.IsZero() && !x.neg
    requires 0.0 < root && Square(root) == x.Magnitude()
    requires Sqrt(c, x).result.Finite? && r.Finite? && Representable(c, r)
    ensures Sqrt(c, x).result.Valid()
    ensures AbsReal(root - Sqrt(c, x).result.Magnitude()) <= AbsReal(root - r.Magnitude())
  {
    SqrtRounds(c, x);
    var h, v, d := HalfEvenSettings(c), Root(x.Magnitude()), Sqrt(c, x).result;
    assert Representable(h, r);
    RootAbove(c, x);
    hide Scaled, Sqrt, CorrectlyRounded, FlagsAgree, InForm, Decimal.Magnitude, Representable;
    HalfModesMiddle(h, false, v, d, r);
    NearerSide(x.Magnitude(), root, d.Magnitude(), r.Magnitude());
  }

  lemma NearerSide(square: real, root: real, m: real, n: real)
    requires 0.0 < root && Square(root) == square
    requires var mid := (m + n) / 2.0;
             (n < m ==> Root(square).AtLeast(mid)) && (m < n ==> !Root(square).Above(mid))
    ensures AbsReal(root - m) <= AbsReal(root - n)
  {
    SquareCompare((m + n) / 2.0, root);
    hide Square;
  }
}
