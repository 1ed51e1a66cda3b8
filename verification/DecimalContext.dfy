/**
 The context object and the arithmetic methods that update it: flags are set in
 place, working representations are rewritten in place, roots are found by loops.
 Each method is tied to the function whose correctness is proved elsewhere.
 */
module DecimalContext {
  import opened Arithmetic
  import opened Digits
  import opened DecimalCore
  import opened DecimalFix
  import opened DecimalAdd
  import opened DecimalDiv
  import opened DecimalSqrt
  import opened DecimalNext

  /** `_WorkRep` */
  class WorkRep {
    var neg: bool
    var digits: nat
    var exp: int

    constructor (d: Decimal)
      requires d.Finite? && d.Valid()
      ensures Value() == WorkOf(d)
    {
      neg, digits, exp := d.neg, Val(d.coeff), d.exp;
    }

    function Value(): Work
      reads this
    {
      Work(neg, digits, exp)
    }
  }

  /** `_normalize`: rewrites both operands in place so that they share an exponent. */
  method NormalizeInPlace(op1: WorkRep, op2: WorkRep, prec: int)
    requires op1 != op2
    modifies op1, op2
    ensures (op1.Value(), op2.Value()) == Normalize(old(op1.Value()), old(op2.Value()), prec)
  {
    var tmp, other := op1, op2;
    if op1.exp < op2.exp {
      tmp, other := op2, op1;
    }
    var exp := tmp.exp + Min(-1, |Str(tmp.digits)| - prec - 2);
    if |Str(other.digits)| + other.exp - 1 < exp {
      other.digits := 1;
      other.exp := exp;
    }
    tmp.digits := tmp.digits * Pow10(tmp.exp - other.exp);
    tmp.exp := other.exp;
  }

  class Context {
    var prec: int
    var rounding: Rounding
    var emin: int
    var emax: int
    var clamp: bool
    var flags: set<Signal>
    var ignored: set<Signal>

    function Current(): Settings
      reads this
    {
      Settings(prec, emin, emax, clamp, rounding)
    }

    ghost predicate Valid()
      reads this
    {
      Current().Valid()
    }

    constructor (c: Settings, flags: set<Signal>, ignored: set<Signal>)
      requires c.Valid()
      ensures Valid() && Current() == c && this.flags == flags && this.ignored == ignored
    {
      prec, rounding, emin, emax, clamp := c.prec, c.rounding, c.emin, c.emax, c.clamp;
      this.flags, this.ignored := flags, ignored;
    }

    /** `_raise_error` with traps off: an ignored signal leaves the flags alone. */
    method RaiseError(signal: Signal)
      modifies this`flags
      ensures flags == old(flags) + ({signal} - ignored)
    {
      if signal !in ignored {
        flags := flags + {signal};
      }
    }

    /** Raises `signal` when `raise` holds; `before` and `so` record what was raised since the flags were `before`. */
    method Signals(signal: Signal, raise: bool, ghost before: set<Signal>, ghost so: set<Signal>)
      returns (ghost now: set<Signal>)
      requires flags == before + (so - ignored)
      modifies this`flags
      ensures now == (if raise then so + {signal} else so) && flags == before + (now - ignored)
    {
      now := if raise then so + {signal} else so;
      if raise {
        RaiseError(signal);
      }
    }

    /** `_fix` */
    method FixDecimal(d: Decimal) returns (r: Decimal)
      requires Valid() && d.Valid()
      modifies this`flags
      ensures r == Fix(Current(), d).result
      ensures flags == old(flags) + (Fix(Current(), d).raised - ignored)
    {
      hide RoundTo, OverflowResult, FixNaN;
      var c := Current();
      ghost var before, so := flags, {};
      if d.NaN? {
        return FixNaN(c, d);
      }
      if d.Infinity? {
        return d;
      }
      if d.IsZero() {
        var expMax := if clamp then c.Etop() else emax;
        var newExp := Min(Max(d.exp, c.Etiny()), expMax);
        if newExp != d.exp {
          RaiseError(Clamped);
          return Finite(d.neg, "0", newExp);
        }
        return d;
      }
      var expMin := |d.coeff| + d.exp - prec;
      if expMin > c.Etop() {
        so := Signals(Overflow, true, before, so);
        so := Signals(Inexact, true, before, so);
        so := Signals(Rounded, true, before, so);
        assert so == {Overflow, Inexact, Rounded};
        return OverflowResult(c, d.neg);
      }
      var subnormal := expMin < c.Etiny();
      if subnormal {
        expMin := c.Etiny();
      }
      if d.exp < expMin {
        r := RoundInPlace(d, expMin, subnormal);
        return;
      }
      so := Signals(Subnormal, subnormal, before, so);
      if clamp && d.exp > c.Etop() {
        so := Signals(Clamped, true, before, so);
        return Finite(d.neg, d.coeff + Zeros(d.exp - c.Etop()), c.Etop());
      }
      r := d;
    }

    /** The rounding branch of `_fix`. */
    method RoundInPlace(d: Decimal, expMin: int, subnormal: bool) returns (r: Decimal)
      requires Valid() && d.Finite? && d.Valid() && d.exp < expMin
      modifies this`flags
      ensures var o := RoundTo(Current(), d, expMin, subnormal);
              r == o.result && flags == old(flags) + (o.raised - ignored)
    {
      var c := Current();
      var s, digits, exp := d.coeff, |d.coeff| + d.exp - expMin, expMin;
      if digits < 0 {
        s, digits := "1", 0;
      }
      assert (s, digits) == Operand(d, expMin);
      var changed := RoundDigits(rounding, d.neg, s, digits);
      hide RoundDigits, OverflowResult, Val, Str, Operand;
      var coeff := KeptText(d, expMin);
      if changed > 0 {
        coeff := Str(Val(coeff) + 1);
        if |coeff| > prec {
          coeff := coeff[..|coeff| - 1];
          exp := exp + 1;
        }
      }
      assert (coeff, exp) == Bump(c, KeptText(d, expMin), changed, expMin);
      hide Bump, KeptText, RoundingSignals;
      r := if exp > c.Etop() then OverflowResult(c, d.neg) else Finite(d.neg, coeff, exp);
      RaiseRoundingSignals(exp > c.Etop(), changed != 0, subnormal, r.IsZero());
    }

    method RaiseRoundingSignals(overflow: bool, inexact: bool, subnormal: bool, zero: bool)
      modifies this`flags
      ensures flags == old(flags) + (RoundingSignals(overflow, inexact, subnormal, zero) - ignored)
    {
      ghost var before, so := flags, {};
      so := Signals(Overflow, overflow, before, so);
      so := Signals(Underflow, inexact && subnormal, before, so);
      so := Signals(Subnormal, subnormal, before, so);
      so := Signals(Inexact, inexact, before, so);
      so := Signals(Rounded, true, before, so);
      so := Signals(Clamped, zero, before, so);
      assert so == RoundingSignals(overflow, inexact, subnormal, zero);
    }

    /** The integer part of `__add__` for two nonzero finite operands. */
    method SumInPlace(x: Decimal, y: Decimal) returns (d: Decimal)
      requires Valid() && x.Finite? && y.Finite? && x.Valid() && y.Valid()
      ensures d == WorkingSum(Current(), x, y)
    {
      var op1 := new WorkRep(x);
      var op2 := new WorkRep(y);
      NormalizeInPlace(op1, op2, prec);
      var neg: bool;
      if op1.neg != op2.neg {
        if op1.digits == op2.digits {
          return Finite(rounding == Floor, "0", Min(x.exp, y.exp));
        }
        if op1.digits < op2.digits {
          op1, op2 := op2, op1;
        }
        neg := op1.neg;
        if op1.neg {
          op1.neg, op2.neg := op2.neg, op1.neg;
        }
      } else {
        neg := op1.neg;
        op1.neg, op2.neg := false, false;
      }
      var total := if !op2.neg then op1.digits + op2.digits else op1.digits - op2.digits;
      d := Finite(neg, Str(total), op1.exp);
    }

    /** `_check_nans`, for operands of which one is a NaN. */
    method CheckNaNs(x: Decimal, y: Decimal) returns (r: Decimal)
      requires Valid() && (x.NaN? || y.NaN?)
      modifies this`flags
      ensures r == NaNResult(Current(), x, y).result
      ensures flags == old(flags) + (NaNResult(Current(), x, y).raised - ignored)
    {
      hide FixNaN;
      r := NaNResult(Current(), x, y).result;
      if (x.NaN? && x.signaling) || (y.NaN? && y.signaling) {
        RaiseError(InvalidOperation);
      }
    }

    /** `__add__` with a NaN or an infinity. */
    method AddSpecials(x: Decimal, y: Decimal) returns (r: Decimal)
      requires Valid() && x.Valid() && y.Valid() && !(x.Finite? && y.Finite?)
      modifies this`flags
      ensures r == Add(Current(), x, y).result
      ensures flags == old(flags) + (Add(Current(), x, y).raised - ignored)
    {
      hide NaNResult;
      if x.NaN? || y.NaN? {
        r := CheckNaNs(x, y);
      } else if x.Infinity? {
        if y.Infinity? && x.neg != y.neg {
          RaiseError(InvalidOperation);
          return NaN(false, "", false);
        }
        r := x;
      } else {
        r := y;
      }
    }

    /** The finite branches of `__add__`, up to the final rounding. */
    method SumFinite(x: Decimal, y: Decimal) returns (d: Decimal)
      requires Valid() && x.Finite? && y.Finite? && x.Valid() && y.Valid()
      ensures d == SumOperand(Current(), x, y)
    {
      var exp := Min(x.exp, y.exp);
      if x.IsZero() && y.IsZero() {
        var neg := x.neg && y.neg;
        if rounding == Floor && x.neg != y.neg {
          neg := true;
        }
        d := Finite(neg, "0", exp);
      } else if x.IsZero() {
        exp := Max(exp, y.exp - prec - 1);
        d := Padded(y, exp);
      } else if y.IsZero() {
        exp := Max(exp, x.exp - prec - 1);
        d := Padded(x, exp);
      } else {
        d := SumInPlace(x, y);
      }
    }

    /** `__add__` */
    method AddDecimals(x: Decimal, y: Decimal) returns (r: Decimal)
      requires Valid() && x.Valid() && y.Valid()
      modifies this`flags
      ensures r == Add(Current(), x, y).result
      ensures flags == old(flags) + (Add(Current(), x, y).raised - ignored)
    {
      hide Fix, SumOperand;
      if x.Finite? && y.Finite? {
        var d := SumFinite(x, y);
        r := FixDecimal(d);
      } else {
        r := AddSpecials(x, y);
      }
    }

    /** `__truediv__` */
    method DivideDecimals(x: Decimal, y: Decimal) returns (r: Decimal)
      requires Valid() && x.Valid() && y.Valid()
      modifies this`flags
      ensures r == Div(Current(), x, y).result
      ensures flags == old(flags) + (Div(Current(), x, y).raised - ignored)
    {
      hide NaNResult, Fix, WorkingQuotient;
      var neg := x.neg != y.neg;
      if x.NaN? || y.NaN? {
        r := CheckNaNs(x, y);
      } else if x.Infinity? && y.Infinity? {
        RaiseError(InvalidOperation);
        r := NaN(false, "", false);
      } else if x.Infinity? {
        r := Infinity(neg);
      } else if y.Infinity? {
        RaiseError(Clamped);
        r := Finite(neg, "0", Current().Etiny());
      } else if y.IsZero() {
        RaiseError(if x.IsZero() then InvalidOperation else DivisionByZero);
        r := if x.IsZero() then NaN(false, "", false) else Infinity(neg);
      } else if x.IsZero() {
        r := FixDecimal(Finite(neg, "0", x.exp - y.exp));
      } else {
        r := DivideFinite(x, y);
      }
    }

    /** The main branch of `__truediv__`: two nonzero finite operands. */
    method DivideFinite(x: Decimal, y: Decimal) returns (r: Decimal)
      requires Valid() && x.Finite? && y.Finite? && x.Valid() && y.Valid() && !x.IsZero() && !y.IsZero()
      modifies this`flags
      ensures r == Div(Current(), x, y).result
      ensures flags == old(flags) + (Div(Current(), x, y).raised - ignored)
    {
      var c := Current();
      var shift := Shift(c, x, y);
      var exp := x.exp - y.exp - shift;
      DivisorPositive(c, x, y);
      var (coeff, remainder) := DivMod(Dividend(c, x, y), Divisor(c, x, y));
      ghost var start := (coeff, exp);
      if remainder != 0 {
        if coeff % 5 == 0 {
          coeff := coeff + 1;
        }
      } else {
        var idealExp := x.exp - y.exp;
        while exp < idealExp && coeff % 10 == 0
          invariant coeff >= 0
          invariant StripToIdeal(coeff, exp, idealExp) == StripToIdeal(start.0, start.1, idealExp)
          decreases idealExp - exp
        {
          coeff := coeff / 10;
          exp := exp + 1;
        }
      }
      assert (coeff, exp) == WorkingQuotient(c, x, y);
      StrVal(coeff);
      r := FixDecimal(Finite(x.neg != y.neg, Str(coeff), exp));
    }

    /** `sqrt` */
    method SquareRoot(x: Decimal) returns (r: Decimal)
      requires Valid() && x.Valid()
      modifies this`flags
      ensures r == Sqrt(Current(), x).result
      ensures flags == old(flags) + (Sqrt(Current(), x).raised - ignored)
    {
      hide NaNResult, Fix, FinishRoot, FloorSqrt, ScaledRadicand;
      if x.NaN? {
        r := CheckNaNs(x, x);
      } else if x == Infinity(false) {
        r := x;
      } else if x.IsZero() {
        r := FixDecimal(Finite(x.neg, "0", x.exp / 2));
      } else if x.neg {
        RaiseError(InvalidOperation);
        r := NaN(false, "", false);
      } else {
        r := RootOfPositive(x);
      }
    }

    /** The main branch of `sqrt`: a positive finite operand, with the Newton loop. */
    method RootOfPositive(x: Decimal) returns (r: Decimal)
      requires Valid() && x.Finite? && x.Valid() && !x.IsZero() && !x.neg
      modifies this`flags
      ensures r == Sqrt(Current(), x).result
      ensures flags == old(flags) + (Sqrt(Current(), x).raised - ignored)
    {
      var c := Current();
      SqrtIsFinished(c, x);
      hide FloorSqrt, ScaledRadicand, RootShift, Fix, Sqrt, Pow10, Shl, DivMod, Val, Str, AllDigits;
      var (radicand, whole) := ScaledRadicand(c, x);
      RootLong(c, x);
      var root := NewtonSquareRoot(radicand, c.prec + 1);
      FloorSqrtUnique(radicand, root);
      var n, e := SettleRoot(c, x, radicand, whole, root);
      hide FinishRoot;
      StrVal(n);
      r := FixHalfEven(Finite(false, Str(n), e));
    }

    /** Rounds half-even on a copy of the context and takes over the flags of the copy. */
    method FixHalfEven(d: Decimal) returns (r: Decimal)
      requires Valid() && d.Valid()
      modifies this`flags
      ensures r == Fix(HalfEvenSettings(Current()), d).result
      ensures flags == old(flags) + (Fix(HalfEvenSettings(Current()), d).raised - ignored)
    {
      hide Fix;
      var halfEven := new Context(HalfEvenSettings(Current()), flags, ignored);
      r := halfEven.FixDecimal(d);
      flags := flags + halfEven.flags;
    }

    /** `next_plus`: a signaling NaN is reported, everything else happens on a copy that ignores every signal. */
    method NextPlusDecimal(x: Decimal) returns (r: Decimal)
      requires Valid() && x.Valid()
      modifies this`flags
      ensures r == NextPlus(Current(), x).result
      ensures flags == old(flags) + (NextPlus(Current(), x).raised - ignored)
    {
      hide NaNResult, Fix, Add, Cmp;
      if x.NaN? {
        r := CheckNaNs(x, x);
        return;
      }
      if x.Infinity? {
        return if x.neg then Finite(true, Nines(prec), Current().Etop()) else x;
      }
      var copy := IgnoringCopy(Ceiling);
      r := copy.FixDecimal(x);
      FixNotNaN(copy.Current(), x);
      if Cmp(r, x) != 0 {
        return;
      }
      r := copy.AddDecimals(x, Speck(Current()));
    }

    /** `next_minus` */
    method NextMinusDecimal(x: Decimal) returns (r: Decimal)
      requires Valid() && x.Valid()
      modifies this`flags
      ensures r == NextMinus(Current(), x).result
      ensures flags == old(flags) + (NextMinus(Current(), x).raised - ignored)
    {
      hide NaNResult, Fix, Add, Cmp;
      if x.NaN? {
        r := CheckNaNs(x, x);
        return;
      }
      if x.Infinity? {
        return if x.neg then x else Finite(false, Nines(prec), Current().Etop());
      }
      var copy := IgnoringCopy(Floor);
      r := copy.FixDecimal(x);
      FixNotNaN(copy.Current(), x);
      if Cmp(r, x) != 0 {
        return;
      }
      r := copy.AddDecimals(x, CopyNegate(Speck(Current())));
    }

    /** `copy`, `_set_rounding` and `_ignore_all_flags` */
    method IgnoringCopy(rounding: Rounding) returns (copy: Context)
      requires Valid()
      ensures fresh(copy) && copy.Valid() && copy.Current() == Towards(Current(), rounding)
    {
      var every := {Clamped, Inexact, Rounded, Subnormal, Overflow, Underflow, InvalidOperation, DivisionByZero};
      copy := new Context(Current(), flags, ignored + every);
      copy.rounding := rounding;
    }
  }

  // ---------- the Newton loop of sqrt ----------

  /** Scales an exact root back to the ideal exponent, and makes an inexact one sticky. */
  method SettleRoot(c: Settings, x: Decimal, radicand: nat, whole: bool, root: nat) returns (n: nat, e: int)
    requires x.Finite? && x.Valid() && ScaledRadicand(c, x) == (radicand, whole)
    ensures (n, e) == FinishRoot(c, x, root)
  {
    hide ScaledRadicand, RootShift;
    var shift := RootShift(c, x);
    n, e := root, x.exp / 2 - shift;
    if whole && n * n == radicand {
      n := if shift >= 0 then DivMod(n, Pow10(shift)).0 else Shl(n, -shift);
      e := e + shift;
    } else if n % 5 == 0 {
      n := n + 1;
    }
  }

  lemma SqrtIsFinished(c: Settings, x: Decimal)
    requires c.Valid() && x.Valid() && x.Finite? && !x.IsZero() && !x.neg
    ensures var (n, e) := FinishRoot(c, x, FloorSqrt(ScaledRadicand(c, x).0));
            var d := Finite(false, Str(n), e);
            d.Valid() && Sqrt(c, x) == Fix(HalfEvenSettings(c), d)
  {
    var (n, e) := FinishRoot(c, x, FloorSqrt(ScaledRadicand(c, x).0));
    StrVal(n);
    hide Fix, FinishRoot, FloorSqrt, ScaledRadicand;
  }

  /** The loop `while True: q = c//n; if n <= q: break; n = n + q >> 1` from 10^k. */
  method NewtonSquareRoot(c: nat, k: nat) returns (n: nat)
    requires 1 <= c < Pow10(2 * k)
    ensures n * n <= c < (n + 1) * (n + 1)
  {
    n := Pow10(k);
    ghost var s := FloorSqrt(c);
    SquareStart(c, k);
    var q := DivMod(c, n).0;
    while n > q
      invariant n >= 1 && s <= n && q == DivMod(c, n).0
      decreases n
    {
      SquareStep(c, n);
      n := (n + q) / 2;
      q := DivMod(c, n).0;
    }
    SquareEnd(c, n);
  }

  lemma SquareStart(c: nat, k: nat)
    requires c < Pow10(2 * k)
    ensures FloorSqrt(c) <= Pow10(k)
  {
    var s, p := FloorSqrt(c), Pow10(k);
    Pow10Add(k, k);
    if p < s { SquareMonotone(p, s); }
  }

  /** A step from above the root stays at or above it and is positive. */
  lemma SquareStep(c: nat, n: nat)
    requires 1 <= c && n >= 1
    ensures var q := DivMod(c, n).0;
            n > q ==> FloorSqrt(c) <= (n + q) / 2 && 1 <= (n + q) / 2
  {
    var (q, r) := DivMod(c, n);
    var s := FloorSqrt(c);
    hide FloorSqrt;
    MeanBound(s, n, q, c);
  }

  /** s^2 <= c < (q+1)*n and (2s - n)*n <= s^2 leave no room for n + q < 2s. */
  lemma MeanBound(s: int, n: int, q: int, c: int)
    requires s * s <= c < (q + 1) * n && n >= 1
    ensures 2 * s <= n + q
  {
    var d := s - n;
    assert s * s - (2 * s - n) * n == d * d;
    assert d * d >= 0;
    if n + q + 1 <= 2 * s { MulOrder(q + 1, 2 * s - n, n); }
  }

  lemma SquareEnd(c: nat, n: nat)
    requires n >= 1 && FloorSqrt(c) <= n <= DivMod(c, n).0
    ensures n * n <= c < (n + 1) * (n + 1)
  {
    var (q, r) := DivMod(c, n);
    MulOrder(n, q, n);
    SquareMonotone(FloorSqrt(c) + 1, n + 1);
  }
}
