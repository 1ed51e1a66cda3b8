/**
 Addition and subtraction: the operands are brought to one exponent, a negligible
 operand is replaced by a single digit, and the integer sum is rounded once.
 */
module DecimalAdd {
  import opened Arithmetic
  import opened Digits
  import opened DecimalCore
  import opened DecimalSpec
  import opened DecimalFix
  import opened DecimalForm

  // ---------- a working value between two multiples of five ----------

  /** A last digit that is neither 0 nor 5 stands for anything between the same multiples of five. */
  lemma StickyAgrees(v: Exact, n: int, e: int, g: int, b: int)
    requires e < g && 5 * b < n < 5 * b + 5 && v.Above(0.0)
    requires v.Above(Scaled(5 * b, e)) && !v.AtLeast(Scaled(5 * b + 5, e))
    ensures Agrees(v, Scaled(n, e), g)
  {
    forall h: int
      ensures v.AtLeast(HalfPoint(h, g)) <==> HalfPoint(h, g) <= Scaled(n, e)
      ensures v.Above(HalfPoint(h, g)) <==> HalfPoint(h, g) < Scaled(n, e)
    {
      StickyPoint(v, n, e, g, b, h);
    }
  }

  lemma StickyPoint(v: Exact, n: int, e: int, g: int, b: int, h: int)
    requires e < g && 5 * b < n < 5 * b + 5 && v.Above(0.0)
    requires v.Above(Scaled(5 * b, e)) && !v.AtLeast(Scaled(5 * b + 5, e))
    ensures v.AtLeast(HalfPoint(h, g)) <==> HalfPoint(h, g) <= Scaled(n, e)
    ensures v.Above(HalfPoint(h, g)) <==> HalfPoint(h, g) < Scaled(n, e)
  {
    var k := h * Pow10(g - 1 - e);
    ScaledShift(5 * h, g - 1, e);
    assert (5 * h) * Pow10(g - 1 - e) == 5 * k by { MulScale(h, Pow10(g - 1 - e), 5); }
    var p := Scaled(5 * k, e);
    assert HalfPoint(h, g) == p;
    hide Scaled, Pow10, Exact.AtLeast, Exact.Above, HalfPoint;
    ScaledOrder(5 * k, n, e);
    ScaledOrder(n, 5 * k, e);
    if k <= b {
      ScaledOrder(5 * k, 5 * b, e);
      ExactOrder(v, p, Scaled(5 * b, e));
      ExactOrder(v, p, p);
    } else {
      ScaledOrder(5 * b + 5, 5 * k, e);
      ExactOrder(v, Scaled(5 * b + 5, e), p);
      ExactOrder(v, p, p);
    }
  }

  // ---------- the operation ----------

  /** The fields of a `_WorkRep`. */
  datatype Work = Work(neg: bool, digits: nat, exp: int) {
    function Signed(): int {
      if neg then 0 - digits else digits
    }

    function Value(): real {
      Scaled(Signed(), exp)
    }
  }

  function WorkOf(d: Decimal): Work
    requires d.Finite? && d.Valid()
  {
    Work(d.neg, Val(d.coeff), d.exp)
  }

  function Min(a: int, b: int): int {
    if a < b then a else b
  }

  function Max(a: int, b: int): int {
    if a < b then b else a
  }

  /** The exponent below which `other` cannot affect the rounding of a sum with `tmp`. */
  function CutExp(tmp: Work, prec: int): int {
    tmp.exp + Min(-1, |Str(tmp.digits)| - prec - 2)
  }

  predicate Negligible(tmp: Work, other: Work, prec: int) {
    |Str(other.digits)| + other.exp - 1 < CutExp(tmp, prec)
  }

  function Shrunk(tmp: Work, other: Work, prec: int): (w: Work)
    requires other.exp <= tmp.exp
    ensures w.exp <= tmp.exp && w.neg == other.neg
  {
    if Negligible(tmp, other, prec) then other.(digits := 1, exp := CutExp(tmp, prec)) else other
  }

  function Lowered(tmp: Work, exp: int): Work
    requires exp <= tmp.exp
  {
    tmp.(digits := tmp.digits * Pow10(tmp.exp - exp), exp := exp)
  }

  /** `_normalize` */
  function Normalize(op1: Work, op2: Work, prec: int): (Work, Work) {
    if op1.exp < op2.exp then
      var other := Shrunk(op2, op1, prec);
      (other, Lowered(op2, other.exp))
    else
      var other := Shrunk(op1, op2, prec);
      (Lowered(op1, other.exp), other)
  }

  /** The sum of two nonzero finite values, before the final rounding. */
  function WorkingSum(c: Settings, x: Decimal, y: Decimal): Decimal
    requires c.Valid() && x.Finite? && y.Finite? && x.Valid() && y.Valid()
  {
    var (op1, op2) := Normalize(WorkOf(x), WorkOf(y), c.prec);
    if op1.neg != op2.neg then
      if op1.digits == op2.digits then
        Finite(c.rounding == Floor, "0", Min(x.exp, y.exp))
      else if op1.digits < op2.digits then
        Finite(op2.neg, Str(op2.digits - op1.digits), op1.exp)
      else
        Finite(op1.neg, Str(op1.digits - op2.digits), op1.exp)
    else
      Finite(op1.neg, Str(op1.digits + op2.digits), op1.exp)
  }

  /** `_rescale` to an exponent that needs padding only. */
  function Padded(d: Decimal, exp: int): Decimal
    requires d.Finite? && exp <= d.exp
  {
    Finite(d.neg, d.coeff + Zeros(d.exp - exp), exp)
  }

  /** `_check_nans`, for operands of which one is a NaN. */
  function NaNResult(c: Settings, x: Decimal, y: Decimal): Outcome
    requires c.Valid() && (x.NaN? || y.NaN?)
  {
    if x.NaN? && x.signaling then Outcome(FixNaN(c, x.(signaling := false)), {InvalidOperation})
    else if y.NaN? && y.signaling then Outcome(FixNaN(c, y.(signaling := false)), {InvalidOperation})
    else if x.NaN? then Outcome(FixNaN(c, x), {})
    else Outcome(FixNaN(c, y), {})
  }

  /** What `__add__` hands to the final rounding, for finite operands. */
  function SumOperand(c: Settings, x: Decimal, y: Decimal): (d: Decimal)
    requires c.Valid() && x.Finite? && y.Finite? && x.Valid() && y.Valid()
    ensures d.Finite? && d.Valid()
  {
    var exp := Min(x.exp, y.exp);
    if x.IsZero() && y.IsZero() then
      Finite((x.neg && y.neg) || (c.rounding == Floor && x.neg != y.neg), "0", exp)
    else if x.IsZero() then
      PaddedValid(y, Max(exp, y.exp - c.prec - 1));
      Padded(y, Max(exp, y.exp - c.prec - 1))
    else if y.IsZero() then
      PaddedValid(x, Max(exp, x.exp - c.prec - 1));
      Padded(x, Max(exp, x.exp - c.prec - 1))
    else
      WorkingSumValid(c, x, y);
      WorkingSum(c, x, y)
  }

  /** `__add__` */
  function Add(c: Settings, x: Decimal, y: Decimal): Outcome
    requires c.Valid() && x.Valid() && y.Valid()
  {
    if x.NaN? || y.NaN? then NaNResult(c, x, y)
    else if x.Infinity? then
      if y.Infinity? && x.neg != y.neg then Outcome(NaN(false, "", false), {InvalidOperation})
      else Outcome(x, {})
    else if y.Infinity? then Outcome(y, {})
    else Fix(c, SumOperand(c, x, y))
  }

  /** `copy_negate` */
  function CopyNegate(d: Decimal): (r: Decimal)
    ensures d.Valid() ==> r.Valid()
    ensures d.Finite? && d.Valid() ==> r.Finite? && r.Value() == -d.Value()
  {
    match d
    case Finite(n, s, x) => Finite(!n, s, x)
    case Infinity(n) => Infinity(!n)
    case NaN(n, p, q) => NaN(!n, p, q)
  }

  /** `__sub__`: NaNs are checked before the sign of the second operand is flipped. */
  function Sub(c: Settings, x: Decimal, y: Decimal): Outcome
    requires c.Valid() && x.Valid() && y.Valid()
  {
    if x.NaN? || y.NaN? then NaNResult(c, x, y) else Add(c, x, CopyNegate(y))
  }

  lemma PaddedValid(d: Decimal, exp: int)
    requires d.Finite? && d.Valid() && !d.IsZero() && exp <= d.exp
    ensures var r := Padded(d, exp);
            r.Valid() && !r.IsZero() && r.Magnitude() == d.Magnitude()
  {
    ValPadded(d.coeff, d.exp - exp);
    ScaledShift(Val(d.coeff), d.exp, exp);
    CanonicalBounds(d.coeff);
    assert (d.coeff + Zeros(d.exp - exp))[0] == d.coeff[0];
  }

  lemma WorkingSumValid(c: Settings, x: Decimal, y: Decimal)
    requires c.Valid() && x.Finite? && y.Finite? && x.Valid() && y.Valid()
    ensures WorkingSum(c, x, y).Valid()
  {
    var (op1, op2) := Normalize(WorkOf(x), WorkOf(y), c.prec);
    StrVal(op1.digits + op2.digits);
    if op1.digits < op2.digits { StrVal(op2.digits - op1.digits); } else { StrVal(op1.digits - op2.digits); }
  }

  // ---------- the exact sum ----------

  /** The integer sum after normalization, and the exponent it is taken at. */
  function Total(c: Settings, x: Decimal, y: Decimal): (int, int)
    requires c.Valid() && x.Finite? && y.Finite? && x.Valid() && y.Valid()
  {
    var (op1, op2) := Normalize(WorkOf(x), WorkOf(y), c.prec);
    (op1.Signed() + op2.Signed(), op1.exp)
  }

  function AbsReal(r: real): real {
    if r < 0.0 then -r else r
  }

  lemma WorkingSumIsTotal(c: Settings, x: Decimal, y: Decimal)
    requires c.Valid() && x.Finite? && y.Finite? && x.Valid() && y.Valid()
    ensures var (n, e) := Total(c, x, y);
            var d := WorkingSum(c, x, y);
            if n == 0 && x.neg != y.neg then d == Finite(c.rounding == Floor, "0", Min(x.exp, y.exp))
            else n != 0 ==> d == Finite(n < 0, Str(Abs(n)), e)
  {
  }

  lemma ScaledNegate(m: int, x: int)
    ensures Scaled(-m, x) == -Scaled(m, x)
  {
  }

  lemma ScaledSum(m: int, n: int, x: int)
    ensures Scaled(m + n, x) == Scaled(m, x) + Scaled(n, x)
  {
  }

  lemma WorkValue(d: Decimal)
    requires d.Finite? && d.Valid()
    ensures WorkOf(d).Value() == d.Value()
  {
    ScaledNegate(Val(d.coeff), d.exp);
  }

  lemma LoweredValue(w: Work, exp: int)
    requires exp <= w.exp
    ensures Lowered(w, exp).Value() == w.Value()
    ensures Lowered(w, exp).Signed() == w.Signed() * Pow10(w.exp - exp)
  {
    ScaledShift(w.Signed(), w.exp, exp);
    MulNegate(w.digits, Pow10(w.exp - exp));
  }

  lemma MulNegate(a: int, p: int)
    ensures (-a) * p == -(a * p)
  {
  }

  /** Without a negligible operand the integer sum is exact. */
  lemma ExactTotal(tmp: Work, other: Work, prec: int)
    requires other.exp <= tmp.exp && !Negligible(tmp, other, prec)
    ensures Scaled(Lowered(tmp, other.exp).Signed() + other.Signed(), other.exp) == tmp.Value() + other.Value()
  {
    LoweredValue(tmp, other.exp);
    ScaledSum(Lowered(tmp, other.exp).Signed(), other.Signed(), other.exp);
  }

  /** A negligible operand is below one unit of the cut exponent. */
  lemma NegligibleSize(tmp: Work, other: Work, prec: int)
    requires Negligible(tmp, other, prec) && other.digits > 0
    ensures 0.0 < Scaled(other.digits, other.exp) < Ten(CutExp(tmp, prec))
  {
    StrVal(other.digits);
    ValUpper(Str(other.digits));
    ScaledMagnitude(other.digits, other.exp, |Str(other.digits)|, CutExp(tmp, prec));
    ScaledOrder(0, other.digits, other.exp);
  }

  /** The retained operand has more than `prec` digits at the cut exponent and ends in zero there. */
  lemma RetainedSize(tmp: Work, prec: int)
    requires tmp.digits > 0 && 1 <= prec
    ensures var k := tmp.exp - CutExp(tmp, prec);
      && 1 <= k && (tmp.digits * Pow10(k)) % 10 == 0 && 10 * Pow10(prec) <= tmp.digits * Pow10(k)
  {
    var k, l := tmp.exp - CutExp(tmp, prec), |Str(tmp.digits)|;
    StrVal(tmp.digits);
    CanonicalBounds(Str(tmp.digits));
    Pow10Monotone(prec + 1, l - 1 + k);
    assert Pow10(prec + 1) == 10 * Pow10(prec);
    assert Pow10(k) == 10 * Pow10(k - 1);
    hide Pow10, CutExp, Val, Str;
    Pow10Add(l - 1, k);
    MulOrder(Pow10(l - 1), tmp.digits, Pow10(k));
    TenMultiple(tmp.digits * Pow10(k), tmp.digits, Pow10(k), Pow10(k - 1));
  }

  lemma ShrunkTotal(tmp: Work, other: Work, prec: int)
    requires tmp.digits > 0 && 1 <= prec && other.exp <= tmp.exp && Negligible(tmp, other, prec)
    ensures var e := CutExp(tmp, prec);
            var m := tmp.digits * Pow10(tmp.exp - e);
            var n := Lowered(tmp, e).Signed() + Shrunk(tmp, other, prec).Signed();
            Abs(n) == (if tmp.neg == other.neg then m + 1 else m - 1) && (n < 0 <==> tmp.neg)
  {
    RetainedSize(tmp, prec);
  }

  lemma ShrunkValue(tmp: Work, other: Work, e: int)
    requires e <= tmp.exp && tmp.digits * Pow10(tmp.exp - e) >= 1
    requires 0.0 < Scaled(other.digits, other.exp) < Ten(e)
    ensures var m, d := Scaled(tmp.digits * Pow10(tmp.exp - e), e), Scaled(other.digits, other.exp);
            var s := tmp.Value() + other.Value();
            AbsReal(s) == (if tmp.neg == other.neg then m + d else m - d) && (s < 0.0 <==> tmp.neg) && 0.0 < AbsReal(s)
  {
    ScaledShift(tmp.digits, tmp.exp, e);
    ScaledNegate(tmp.digits, tmp.exp);
    ScaledNegate(other.digits, other.exp);
    ScaledOrder(1, tmp.digits * Pow10(tmp.exp - e), e);
    assert Scaled(1, e) == Ten(e);
    hide Scaled, Pow10, Ten;
  }

  /** With a negligible operand the sum sits between the same multiples of five as the exact sum. */
  lemma StickyTotal(tmp: Work, other: Work, prec: int, g: int) returns (n: int, e: int)
    requires 1 <= prec && tmp.digits > 0 && other.digits > 0
    requires other.exp <= tmp.exp && Negligible(tmp, other, prec) && CutExp(tmp, prec) < g
    ensures var o := Shrunk(tmp, other, prec);
            e == o.exp && n == Lowered(tmp, e).Signed() + o.Signed()
    ensures (n < 0 <==> tmp.Value() + other.Value() < 0.0) && Pow10(prec) <= Abs(n)
    ensures Ratio(AbsReal(tmp.Value() + other.Value())).Above(0.0)
    ensures Agrees(Ratio(AbsReal(tmp.Value() + other.Value())), Scaled(Abs(n), e), g)
  {
    e := CutExp(tmp, prec);
    n := Lowered(tmp, e).Signed() + Shrunk(tmp, other, prec).Signed();
    RetainedSize(tmp, prec);
    NegligibleSize(tmp, other, prec);
    ShrunkTotal(tmp, other, prec);
    ShrunkValue(tmp, other, e);
    hide Scaled, Pow10, Ten, Work.Value, AbsReal, Lowered, Shrunk, Agrees, CutExp, Negligible;
    var m, d := tmp.digits * Pow10(tmp.exp - e), Scaled(other.digits, other.exp);
    var s := AbsReal(tmp.Value() + other.Value());
    StickySum(m, d, e, g, tmp.neg == other.neg, s, Abs(n));
  }

  /** One unit more or less stands for any smaller amount added or taken away. */
  lemma StickySum(m: int, d: real, e: int, g: int, same: bool, s: real, n: int)
    requires m % 10 == 0 && 0.0 < d < Ten(e) && e < g && 0.0 < s
    requires s == (if same then Scaled(m, e) + d else Scaled(m, e) - d) && n == if same then m + 1 else m - 1
    ensures Agrees(Ratio(s), Scaled(n, e), g)
  {
    hide Scaled, Ten, Agrees;
    FiveBlock(m, d, e);
    StickyAgrees(Ratio(s), n, e, g, if same then m / 5 else m / 5 - 1);
  }

  lemma FiveBlock(m: int, d: real, e: int)
    requires m % 5 == 0 && 0.0 < d < Ten(e)
    ensures Scaled(5 * (m / 5), e) < Scaled(m, e) + d < Scaled(5 * (m / 5) + 5, e)
    ensures Scaled(5 * (m / 5 - 1), e) < Scaled(m, e) - d < Scaled(5 * (m / 5 - 1) + 5, e)
  {
    ScaledSum(m, 5, e);
    ScaledSum(m - 5, 5, e);
    ScaledOrder(1, 5, e);
    assert Scaled(1, e) == Ten(e);
    assert 5 * (m / 5) == m && 5 * (m / 5 - 1) == m - 5;
    hide Scaled, Ten;
  }

  // ---------- the theorem ----------

  lemma AgreesWithItself(m: real, g: int)
    ensures Agrees(Ratio(m), m, g)
  {
  }

  lemma {:induction false} LongCoefficient(n: nat, prec: int)
    requires 1 <= prec && Pow10(prec) <= n
    ensures prec < |Str(n)| && Canonical(Str(n)) && Val(Str(n)) == n && Str(n) != "0"
  {
    StrVal(n);
    CanonicalBounds(Str(n));
    if |Str(n)| <= prec {
      Pow10Monotone(|Str(n)|, prec);
    }
  }

  lemma NonzeroCoefficient(n: int, e: int)
    requires n != 0
    ensures var d := Finite(n < 0, Str(Abs(n)), e);
            d.Valid() && !d.IsZero() && d.Magnitude() == Scaled(Abs(n), e) && d.Value() == Scaled(n, e)
  {
    StrVal(Abs(n));
    CanonicalBounds(Str(Abs(n)));
    ScaledNegate(Abs(n), e);
  }

  /** The working sum agrees with the exact sum wherever the rounding looks. */
  lemma WorkingSumAgrees(c: Settings, x: Decimal, y: Decimal)
    requires c.Valid() && x.Finite? && y.Finite? && x.Valid() && y.Valid() && !x.IsZero() && !y.IsZero()
    ensures var s, d := x.Value() + y.Value(), WorkingSum(c, x, y);
            d.Valid() &&
            if s == 0.0 then d == Finite(c.rounding == Floor, "0", Min(x.exp, y.exp)) && x.neg != y.neg
            else !d.IsZero() && d.neg == (s < 0.0) && Agrees(Ratio(AbsReal(s)), d.Magnitude(), UnitExp(c, d))
                 && StandsFor(c, d, Ratio(AbsReal(s)), Min(x.exp, y.exp))
  {
    hide StandsFor, Val, Scaled, Pow10, Str, Agrees, Total, WorkingSum, Lowered, Shrunk, CutExp, Negligible, UnitExp;
    WorkingSumValid(c, x, y);
    WorkingSumIsTotal(c, x, y);
    var tmp, other := Arranged(c, x, y);
    var (n, e) := Total(c, x, y);
    if Negligible(tmp, other, c.prec) {
      NegligibleAgrees(c, tmp, other, n, e, Min(x.exp, y.exp));
    } else {
      ExactTotal(tmp, other, c.prec);
      ExactAgrees(c, n, e);
      SameSignSum(x, y);
    }
  }

  /** The operands in the order in which they are normalized. */
  lemma Arranged(c: Settings, x: Decimal, y: Decimal) returns (tmp: Work, other: Work)
    requires c.Valid() && x.Finite? && y.Finite? && x.Valid() && y.Valid() && !x.IsZero() && !y.IsZero()
    ensures other.exp <= tmp.exp && tmp.digits > 0 && other.digits > 0 && other.exp == Min(x.exp, y.exp)
    ensures tmp.Value() + other.Value() == x.Value() + y.Value()
    ensures var (n, e) := Total(c, x, y);
            && e == Shrunk(tmp, other, c.prec).exp
            && n == Lowered(tmp, e).Signed() + Shrunk(tmp, other, c.prec).Signed()
            && (Negligible(tmp, other, c.prec) ==> e == CutExp(tmp, c.prec))
            && (!Negligible(tmp, other, c.prec) ==> Shrunk(tmp, other, c.prec) == other)
  {
    hide Val, Scaled, Pow10, Str, CutExp, Negligible;
    var a, b := WorkOf(x), WorkOf(y);
    WorkValue(x);
    WorkValue(y);
    NonzeroWork(x);
    NonzeroWork(y);
    if a.exp < b.exp {
      tmp, other := b, a;
    } else {
      tmp, other := a, b;
    }
  }

  lemma NonzeroWork(x: Decimal)
    requires x.Finite? && x.Valid() && !x.IsZero()
    ensures WorkOf(x).digits > 0
  {
    CanonicalBounds(x.coeff);
  }

  lemma SameSignSum(x: Decimal, y: Decimal)
    requires x.Finite? && y.Finite? && x.Valid() && y.Valid() && !x.IsZero() && !y.IsZero()
    ensures x.neg == y.neg ==> x.Value() + y.Value() != 0.0
  {
    CanonicalBounds(x.coeff);
    CanonicalBounds(y.coeff);
    ScaledOrder(0, Val(x.coeff), x.exp);
    ScaledOrder(0, Val(y.coeff), y.exp);
  }

  lemma NegligibleAgrees(c: Settings, tmp: Work, other: Work, n: int, e: int, ideal: int)
    requires c.Valid() && tmp.digits > 0 && other.digits > 0
    requires other.exp <= tmp.exp && Negligible(tmp, other, c.prec) && e == CutExp(tmp, c.prec)
    requires n == Lowered(tmp, e).Signed() + Shrunk(tmp, other, c.prec).Signed()
    ensures var s, d := tmp.Value() + other.Value(), Finite(n < 0, Str(Abs(n)), e);
            n != 0 && s != 0.0 && d.Valid() && !d.IsZero() && d.neg == (s < 0.0)
            && Agrees(Ratio(AbsReal(s)), d.Magnitude(), UnitExp(c, d)) && StandsFor(c, d, Ratio(AbsReal(s)), ideal)
  {
    var d := Finite(n < 0, Str(Abs(n)), e);
    StickyTail(tmp, other, c.prec, n, e);
    hide Lowered, Shrunk, CutExp, Negligible, Scaled, Pow10, Val, Str, StandsFor, Agrees, UnitExp;
    LongStands(c, n < 0, Abs(n), e, Ratio(AbsReal(tmp.Value() + other.Value())), ideal);
    var n', e' := StickyTotal(tmp, other, c.prec, UnitExp(c, d));
  }

  /** The sum with a negligible operand is long, and its last digit is not zero. */
  lemma StickyTail(tmp: Work, other: Work, prec: int, n: int, e: int)
    requires 1 <= prec && tmp.digits > 0 && other.digits > 0
    requires other.exp <= tmp.exp && Negligible(tmp, other, prec) && e == CutExp(tmp, prec)
    requires n == Lowered(tmp, e).Signed() + Shrunk(tmp, other, prec).Signed()
    ensures Pow10(prec) <= Abs(n) && Abs(n) % 10 != 0
  {
    hide Pow10, Str, Val;
    ShrunkTotal(tmp, other, prec);
    RetainedSize(tmp, prec);
    hide Lowered, Shrunk, CutExp, Negligible;
    PowerPositive(prec);
    NextToTenfold(tmp.digits * Pow10(tmp.exp - e));
  }

  lemma PowerPositive(k: nat)
    ensures Pow10(k) >= 1
  {
  }

  lemma NextToTenfold(m: nat)
    requires m % 10 == 0
    ensures (m + 1) % 10 != 0 && (m >= 1 ==> (m - 1) % 10 != 0)
  {
  }

  /** A long coefficient that does not end in zero stands for whatever rounds like it. */
  lemma LongStands(c: Settings, neg: bool, n: nat, e: int, v: Exact, ideal: int)
    requires c.Valid() && Pow10(c.prec) <= n && n % 10 != 0
    ensures var d := Finite(neg, Str(n), e);
            d.Valid() && !d.IsZero() && c.prec < |d.coeff| && d.Magnitude() == Scaled(n, e) && StandsFor(c, d, v, ideal)
  {
    LongCoefficient(n, c.prec);
  }

  lemma ExactAgrees(c: Settings, n: int, e: int)
    requires c.Valid()
    ensures n == 0 <==> Scaled(n, e) == 0.0
    ensures n != 0 ==>
              var s, d := Scaled(n, e), Finite(n < 0, Str(Abs(n)), e);
              d.Valid() && !d.IsZero() && d.neg == (s < 0.0) && Agrees(Ratio(AbsReal(s)), d.Magnitude(), UnitExp(c, d))
              && StandsFor(c, d, Ratio(AbsReal(s)), e)
  {
    ScaledOrder(n, 0, e);
    ScaledOrder(0, n, e);
    assert Scaled(0, e) == 0.0;
    if n != 0 {
      NonzeroCoefficient(n, e);
      ScaledNegate(n, e);
      AgreesWithItself(Scaled(Abs(n), e), UnitExp(c, Finite(n < 0, Str(Abs(n)), e)));
    }
  }

  /** A zero: its exponent is the ideal one, or the nearest in range, and Clamped says which. */
  predicate IsZeroAt(c: Settings, neg: bool, ideal: int, o: Outcome) {
    && o.result.IsZero() && o.result.neg == neg
    && o.result.exp == Min(Max(ideal, c.Etiny()), if c.clamp then c.Etop() else c.emax)
    && o.raised == if o.result.exp == ideal then {} else {Clamped}
  }

  /** `o` is the exact value `s` rounded once; a zero `s` gives a zero of sign `zeroNeg`. */
  ghost predicate RoundedValue(c: Settings, s: real, zeroNeg: bool, ideal: int, o: Outcome)
    requires c.Valid()
  {
    && o.result.Valid()
    && if s == 0.0 then Representable(c, o.result) && IsZeroAt(c, zeroNeg, ideal, o)
       else Rounds(c, s < 0.0, Ratio(AbsReal(s)), ideal, o)
  }

  lemma FixRoundsValue(c: Settings, d: Decimal, s: real, zeroNeg: bool, ideal: int)
    requires c.Valid() && d.Finite? && d.Valid() && !d.IsZero() && s != 0.0 && d.neg == (s < 0.0)
    requires Agrees(Ratio(AbsReal(s)), d.Magnitude(), UnitExp(c, d)) && StandsFor(c, d, Ratio(AbsReal(s)), ideal)
    ensures RoundedValue(c, s, zeroNeg, ideal, Fix(c, d))
  {
    hide Fix, FlagsAgree, CorrectlyRounded, InForm, AbsReal, Agrees, StandsFor;
    FixOutcome(c, d, Ratio(AbsReal(s)), ideal);
  }

  lemma FixZeroValue(c: Settings, neg: bool, exp: int)
    requires c.Valid()
    ensures Finite(neg, "0", exp).Valid() && RoundedValue(c, 0.0, neg, exp, Fix(c, Finite(neg, "0", exp)))
  {
  }

  /** The sign of an exact zero sum. */
  predicate ZeroSumSign(c: Settings, x: Decimal, y: Decimal)
    requires x.Finite? && y.Finite?
  {
    (x.neg && y.neg) || (c.rounding == Floor && x.neg != y.neg)
  }

  /**
   Addition is the exact sum rounded once, in every rounding mode and over the whole exponent range: the value, the
   form, whose ideal exponent is the smaller one of the operands, and all flags.
   */
  lemma AddRounds(c: Settings, x: Decimal, y: Decimal)
    requires c.Valid() && x.Finite? && y.Finite? && x.Valid() && y.Valid()
    ensures RoundedValue(c, x.Value() + y.Value(), ZeroSumSign(c, x, y), Min(x.exp, y.exp), Add(c, x, y))
  {
    hide Fix, RoundedValue, Agrees, StandsFor, AbsReal, Decimal.Value, Padded;
    ZeroValue(x);
    ZeroValue(y);
    if x.IsZero() && y.IsZero() {
      FixZeroValue(c, ZeroSumSign(c, x, y), Min(x.exp, y.exp));
    } else if x.IsZero() {
      PaddedRounds(c, y, Min(x.exp, y.exp), ZeroSumSign(c, x, y));
    } else if y.IsZero() {
      PaddedRounds(c, x, Min(x.exp, y.exp), ZeroSumSign(c, x, y));
    } else {
      WorkingSumAgrees(c, x, y);
      var s, d := x.Value() + y.Value(), WorkingSum(c, x, y);
      hide WorkingSum;
      if s == 0.0 {
        FixZeroValue(c, c.rounding == Floor, Min(x.exp, y.exp));
      } else {
        FixRoundsValue(c, d, s, ZeroSumSign(c, x, y), Min(x.exp, y.exp));
      }
    }
  }

  lemma ZeroValue(x: Decimal)
    requires x.Finite? && x.Valid()
    ensures x.IsZero() <==> x.Value() == 0.0
    ensures !x.IsZero() ==> (x.neg <==> x.Value() < 0.0) && x.Magnitude() == AbsReal(x.Value())
  {
    CanonicalBounds(x.coeff);
    ScaledOrder(0, Val(x.coeff), x.exp);
    ScaledOrder(Val(x.coeff), 0, x.exp);
    assert Scaled(0, x.exp) == 0.0;
  }

  /** A zero operand: the other one, padded towards the ideal exponent as far as can matter. */
  lemma PaddedRounds(c: Settings, d: Decimal, ideal: int, zeroNeg: bool)
    requires c.Valid() && d.Finite? && d.Valid() && !d.IsZero() && ideal <= d.exp
    ensures var p := Padded(d, Max(ideal, d.exp - c.prec - 1));
            p.Valid() && RoundedValue(c, d.Value(), zeroNeg, ideal, Fix(c, p))
  {
    var p := Padded(d, Max(ideal, d.exp - c.prec - 1));
    PaddedValid(d, p.exp);
    ZeroValue(d);
    AgreesWithItself(p.Magnitude(), UnitExp(c, p));
    assert p.neg == d.neg;
    assert StandsFor(c, p, Ratio(p.Magnitude()), ideal);
    hide Padded, Scaled, Val, Fix, RoundedValue, UnitExp, Agrees, StandsFor;
    hide Decimal.Value, Decimal.Magnitude, AbsReal, Canonical;
    FixRoundsValue(c, p, d.Value(), zeroNeg, ideal);
  }

  /** Subtraction is the exact difference rounded once, in the same sense. */
  lemma SubRounds(c: Settings, x: Decimal, y: Decimal)
    requires c.Valid() && x.Finite? && y.Finite? && x.Valid() && y.Valid()
    ensures RoundedValue(c, x.Value() - y.Value(), ZeroSumSign(c, x, CopyNegate(y)), Min(x.exp, y.exp), Sub(c, x, y))
  {
    hide *;
    SubIsAdd(c, x, y);
    AddRounds(c, x, CopyNegate(y));
  }

  lemma SubIsAdd(c: Settings, x: Decimal, y: Decimal)
    requires c.Valid() && x.Finite? && y.Finite? && x.Valid() && y.Valid()
    ensures var z := CopyNegate(y);
            && z.Finite? && z.Valid() && z.exp == y.exp && z.Value() == -y.Value()
            && Sub(c, x, y) == Add(c, x, z)
  {
    hide Add;
  }
}
