/**
 The operations on zeros, infinities and NaNs: laws on operands and outcome that hold for all operands, beside the
 rounding theorems for the finite ones.
 */
module DecimalSpecials {
  import opened Arithmetic
  import opened Digits
  import opened DecimalCore
  import opened DecimalSpec
  import opened DecimalFix
  import opened DecimalForm
  import opened DecimalAdd
  import opened DecimalDiv
  import opened DecimalSqrt
  import opened DecimalNext

  // ---------- NaN operands ----------

  predicate IsSignaling(x: Decimal) {
    x.NaN? && x.signaling
  }

  /** Which NaN an operation answers with: a signaling one before a quiet one, the first before the second. */
  predicate Decides(x: Decimal, y: Decimal, w: Decimal) {
    && w.NaN? && (w == x || w == y)
    && (IsSignaling(w) || (!IsSignaling(x) && !IsSignaling(y)))
    && (w == x || !x.NaN? || (IsSignaling(y) && !IsSignaling(x)))
  }

  /** The answer is quiet, with the sign of `w` and as many of its last payload digits as fit, without leading zeros. */
  predicate AnswersNaN(c: Settings, w: Decimal, o: Outcome)
    requires c.Valid() && w.NaN? && w.Valid()
  {
    && o.result.NaN? && !o.result.signaling && o.result.neg == w.neg && o.result.Valid()
    && |o.result.payload| <= PayloadRoom(c)
    && PayloadVal(o.result.payload) == PayloadVal(w.payload) % Pow10(PayloadRoom(c))
    && (InvalidOperation in o.raised <==> IsSignaling(w)) && o.raised <= {InvalidOperation}
  }

  /** How many payload digits a context has room for. */
  function PayloadRoom(c: Settings): nat
    requires c.Valid()
  {
    c.prec - (if c.clamp then 1 else 0)
  }

  function PayloadVal(s: string): nat {
    if AllDigits(s) then Val(s) else 0
  }

  lemma {:induction false} StripZerosMeaning(s: string)
    requires AllDigits(s)
    ensures var r := StripZeros(s);
            AllDigits(r) && |r| <= |s| && Val(r) == Val(s) && (r == "" || (Canonical(r) && r != "0"))
  {
    if s != "" && s[0] == '0' {
      ValConcat([s[0]], s[1..]);
      assert s == [s[0]] + s[1..];
      assert Val([s[0]]) == 0 by { assert [s[0]][..0] == ""; }
      StripZerosMeaning(s[1..]);
    }
  }

  /** The last `limit` digits are the number modulo a power of ten. */
  lemma LastDigits(s: string, limit: nat)
    requires AllDigits(s) && limit < |s|
    ensures AllDigits(s[|s| - limit..]) && Val(s[|s| - limit..]) == Val(s) % Pow10(limit)
  {
    var k := |s| - limit;
    ValSplit(s, k);
    ValUpper(s[k..]);
    hide Val, Pow10;
    DivModUnique(Val(s), Pow10(limit), Val(s[..k]), Val(s[k..]));
  }

  lemma AllDigitsFit(s: string, limit: nat)
    requires AllDigits(s) && |s| <= limit
    ensures Val(s) == Val(s) % Pow10(limit)
  {
    ValUpper(s);
    Pow10Monotone(|s|, limit);
    hide Val, Pow10;
    DivModUnique(Val(s), Pow10(limit), 0, Val(s));
  }

  lemma FixNaNMeaning(c: Settings, w: Decimal)
    requires c.Valid() && w.NaN? && w.Valid()
    ensures var r := FixNaN(c, w);
            && r.NaN? && r.neg == w.neg && r.signaling == w.signaling && r.Valid()
            && |r.payload| <= PayloadRoom(c) && PayloadVal(r.payload) == PayloadVal(w.payload) % Pow10(PayloadRoom(c))
  {
    hide Val, Pow10, StripZeros;
    var s, limit := w.payload, PayloadRoom(c);
    if |s| > limit {
      LastDigits(s, limit);
      StripZerosMeaning(s[|s| - limit..]);
    } else {
      AllDigitsFit(s, limit);
    }
  }

  /** One operand is decisive, up to equal ones, and the answer is made from it. */
  lemma NaNDecided(c: Settings, x: Decimal, y: Decimal) returns (w: Decimal)
    requires c.Valid() && x.Valid() && y.Valid() && (x.NaN? || y.NaN?)
    ensures Decides(x, y, w) && w.Valid() && AnswersNaN(c, w, NaNResult(c, x, y))
    ensures forall v | Decides(x, y, v) :: v == w
  {
    w := if IsSignaling(x) then x else if IsSignaling(y) then y else if x.NaN? then x else y;
    FixNaNMeaning(c, w);
    FixNaNMeaning(c, w.(signaling := false));
    hide FixNaN, Val, Pow10;
  }

  /** A NaN with its sign, payload and quietness is settled by the law. */
  lemma NaNSettled(c: Settings, w: Decimal, o: Outcome, o': Outcome)
    requires c.Valid() && w.NaN? && w.Valid() && AnswersNaN(c, w, o) && AnswersNaN(c, w, o')
    ensures o == o'
  {
    var p, q := o.result.payload, o'.result.payload;
    PayloadSettled(p, q);
    assert o.raised == o'.raised;
  }

  lemma PayloadSettled(p: string, q: string)
    requires p == "" || (Canonical(p) && p != "0")
    requires q == "" || (Canonical(q) && q != "0")
    requires PayloadVal(p) == PayloadVal(q)
    ensures p == q
  {
    if p != "" { CanonicalBounds(p); ValStr(p); }
    if q != "" { CanonicalBounds(q); ValStr(q); }
  }

  /** Some operand is a NaN, and the outcome is that of the decisive one. */
  ghost predicate NaNOutcome(c: Settings, x: Decimal, y: Decimal, o: Outcome)
    requires c.Valid()
  {
    exists w: Decimal :: Decides(x, y, w) && w.Valid() && AnswersNaN(c, w, o)
  }

  // ---------- addition and subtraction ----------

  predicate Opposite(x: Decimal, y: Decimal) {
    x.Infinity? && y.Infinity? && x.neg != y.neg
  }

  /** What a sum, or the sum with the second sign flipped, is when an operand is not finite. */
  ghost predicate SumOfSpecials(c: Settings, x: Decimal, y: Decimal, flip: bool, o: Outcome)
    requires c.Valid()
  {
    && (x.NaN? || y.NaN? ==> NaNOutcome(c, x, y, o))
    && (!x.NaN? && !y.NaN? && x.Infinity? && y.Infinity? && x.neg != (y.neg != flip) ==>
          o.result == NaN(false, "", false) && o.raised == {InvalidOperation})
    && (x.Infinity? && y.Infinity? && x.neg == (y.neg != flip) ==> o.result == Infinity(x.neg) && o.raised == {})
    && (x.Infinity? && y.Finite? ==> o.result == Infinity(x.neg) && o.raised == {})
    && (x.Finite? && y.Infinity? ==> o.result == Infinity(y.neg != flip) && o.raised == {})
  }

  /** A sum is a NaN exactly for a NaN operand or opposite infinities, and never divides by zero. */
  lemma AddLaws(c: Settings, x: Decimal, y: Decimal)
    requires c.Valid() && x.Valid() && y.Valid()
    ensures SumOfSpecials(c, x, y, false, Add(c, x, y))
    ensures Add(c, x, y).result.NaN? <==> x.NaN? || y.NaN? || Opposite(x, y)
    ensures InvalidOperation in Add(c, x, y).raised
            <==> IsSignaling(x) || IsSignaling(y) || (!x.NaN? && !y.NaN? && Opposite(x, y))
    ensures DivisionByZero !in Add(c, x, y).raised
  {
    if x.NaN? || y.NaN? {
      var w := NaNDecided(c, x, y);
      hide NaNResult, AnswersNaN;
      NaNFlags(c, x, y, w, NaNResult(c, x, y));
    } else if x.Finite? && y.Finite? {
      AddRounds(c, x, y);
      hide Add, AbsReal, ZeroSumSign;
      RoundedIsNumber(c, x.Value() + y.Value(), ZeroSumSign(c, x, y), Min(x.exp, y.exp), Add(c, x, y));
    }
  }

  lemma SubLaws(c: Settings, x: Decimal, y: Decimal)
    requires c.Valid() && x.Valid() && y.Valid()
    ensures SumOfSpecials(c, x, y, true, Sub(c, x, y))
    ensures Sub(c, x, y).result.NaN? <==> x.NaN? || y.NaN? || (x.Infinity? && y.Infinity? && x.neg == y.neg)
    ensures InvalidOperation in Sub(c, x, y).raised
            <==> IsSignaling(x) || IsSignaling(y) || (x.Infinity? && y.Infinity? && x.neg == y.neg)
    ensures DivisionByZero !in Sub(c, x, y).raised
  {
    if x.NaN? || y.NaN? {
      var w := NaNDecided(c, x, y);
      hide NaNResult, AnswersNaN;
      NaNFlags(c, x, y, w, NaNResult(c, x, y));
    } else {
      AddLaws(c, x, CopyNegate(y));
      hide Add;
    }
  }

  lemma NaNFlags(c: Settings, x: Decimal, y: Decimal, w: Decimal, o: Outcome)
    requires c.Valid() && w.NaN? && w.Valid() && Decides(x, y, w) && AnswersNaN(c, w, o)
    ensures NaNOutcome(c, x, y, o) && o.result.NaN?
    ensures InvalidOperation in o.raised <==> IsSignaling(x) || IsSignaling(y)
    ensures o.raised <= {InvalidOperation}
  {
  }

  lemma RoundedIsNumber(c: Settings, s: real, z: bool, ideal: int, o: Outcome)
    requires c.Valid() && RoundedValue(c, s, z, ideal, o)
    ensures !o.result.NaN? && InvalidOperation !in o.raised && DivisionByZero !in o.raised
  {
    if s != 0.0 {
      RoundsIsNumber(c, s < 0.0, Ratio(AbsReal(s)), ideal, o);
    }
  }

  lemma RoundsIsNumber(c: Settings, neg: bool, v: Exact, ideal: int, o: Outcome)
    requires c.Valid() && Rounds(c, neg, v, ideal, o)
    ensures !o.result.NaN? && o.result.neg == neg && InvalidOperation !in o.raised && DivisionByZero !in o.raised
  {
    var lo, hi :| Neighbours(c, v, lo, hi) && RoundedBetween(c, neg, v, lo, hi, o.result);
    hide Neighbours, Chosen, Largest, FlagsAgree;
  }

  // ---------- division ----------

  predicate IsNonzeroFinite(x: Decimal) {
    x.Finite? && !x.IsZero()
  }

  /** The cases of a quotient with a zero or an infinity, no operand being a NaN. */
  ghost predicate QuotientOfSpecials(c: Settings, x: Decimal, y: Decimal, o: Outcome)
    requires c.Valid()
  {
    var neg := x.neg != y.neg;
    && ((x.IsZero() && y.IsZero()) || (x.Infinity? && y.Infinity?) ==>
          o.result == NaN(false, "", false) && o.raised == {InvalidOperation})
    && (IsNonzeroFinite(x) && y.IsZero() ==> o.result == Infinity(neg) && o.raised == {DivisionByZero})
    && (x.Infinity? && y.Finite? ==> o.result == Infinity(neg) && o.raised == {})
    && (x.Finite? && y.Infinity? ==> o.result == Finite(neg, "0", c.Etiny()) && o.raised == {Clamped})
    && (x.IsZero() && IsNonzeroFinite(y) ==> RoundedValue(c, 0.0, neg, x.exp - y.exp, o))
  }

  /** Division for all operands, apart from the rounding of nonzero finite ones. */
  lemma DivLaws(c: Settings, x: Decimal, y: Decimal)
    requires c.Valid() && x.Valid() && y.Valid()
    ensures x.NaN? || y.NaN? ==> NaNOutcome(c, x, y, Div(c, x, y))
    ensures !x.NaN? && !y.NaN? ==> QuotientOfSpecials(c, x, y, Div(c, x, y))
    ensures !Div(c, x, y).result.NaN? ==> Div(c, x, y).result.neg == (x.neg != y.neg)
    ensures DivisionByZero in Div(c, x, y).raised <==> IsNonzeroFinite(x) && y.IsZero()
    ensures InvalidOperation in Div(c, x, y).raised
            <==> IsSignaling(x) || IsSignaling(y) || (x.IsZero() && y.IsZero()) || (x.Infinity? && y.Infinity?)
    ensures Div(c, x, y).result.NaN? <==> x.NaN? || y.NaN? || InvalidOperation in Div(c, x, y).raised
  {
    var o := Div(c, x, y);
    if x.NaN? || y.NaN? {
      var w := NaNDecided(c, x, y);
      hide NaNResult, AnswersNaN;
      NaNFlags(c, x, y, w, o);
    } else if IsNonzeroFinite(x) && IsNonzeroFinite(y) {
      DivRounds(c, x, y);
      hide Div, Rounds;
      RoundsIsNumber(c, x.neg != y.neg, Ratio(ExactQuotient(x, y)), x.exp - y.exp, o);
    } else {
      DivOfSpecials(c, x, y);
      hide Div;
      QuotientFlags(c, x, y, o);
    }
  }

  lemma DivOfSpecials(c: Settings, x: Decimal, y: Decimal)
    requires c.Valid() && x.Valid() && y.Valid() && !x.NaN? && !y.NaN? && !(IsNonzeroFinite(x) && IsNonzeroFinite(y))
    ensures QuotientOfSpecials(c, x, y, Div(c, x, y))
  {
    if x.IsZero() && IsNonzeroFinite(y) {
      FixZeroValue(c, x.neg != y.neg, x.exp - y.exp);
    }
    hide Fix, RoundedValue, WorkingQuotient;
  }

  lemma QuotientFlags(c: Settings, x: Decimal, y: Decimal, o: Outcome)
    requires c.Valid() && !x.NaN? && !y.NaN? && !(IsNonzeroFinite(x) && IsNonzeroFinite(y))
    requires QuotientOfSpecials(c, x, y, o)
    ensures !o.result.NaN? ==> o.result.neg == (x.neg != y.neg)
    ensures DivisionByZero in o.raised <==> IsNonzeroFinite(x) && y.IsZero()
    ensures InvalidOperation in o.raised <==> (x.IsZero() && y.IsZero()) || (x.Infinity? && y.Infinity?)
    ensures o.result.NaN? <==> InvalidOperation in o.raised
  {
    hide Representable;
  }

  // ---------- square root and the next values ----------

  /** The square root for all operands, apart from the rounding of positive finite ones. */
  lemma SqrtLaws(c: Settings, x: Decimal)
    requires c.Valid() && x.Valid()
    ensures var o := Sqrt(c, x);
      && (x.NaN? ==> NaNOutcome(c, x, x, o))
      && (x == Infinity(false) ==> o.result == x && o.raised == {})
      && (x.IsZero() ==> RoundedValue(c, 0.0, x.neg, x.exp / 2, o))
      && (!x.NaN? && x.neg && !x.IsZero() ==> o.result == NaN(false, "", false) && o.raised == {InvalidOperation})
      && (InvalidOperation in o.raised <==> IsSignaling(x) || (!x.NaN? && x.neg && !x.IsZero()))
      && (o.result.NaN? <==> x.NaN? || (x.neg && !x.IsZero())) && DivisionByZero !in o.raised
  {
    if x.NaN? {
      var w := NaNDecided(c, x, x);
      hide NaNResult, AnswersNaN;
      NaNFlags(c, x, x, w, NaNResult(c, x, x));
    } else if x.IsZero() {
      FixZeroValue(c, x.neg, x.exp / 2);
      hide Fix;
      RoundedIsNumber(c, 0.0, x.neg, x.exp / 2, Sqrt(c, x));
    } else if x.Finite? && !x.neg {
      SqrtRounds(c, x);
      hide Sqrt, Rounds;
      RoundsIsNumber(HalfEvenSettings(c), false, Root(x.Magnitude()), x.exp / 2, Sqrt(c, x));
    }
  }

  /** The next values raise nothing but InvalidOperation, for a signaling NaN, and answer a NaN only for a NaN. */
  lemma NextLaws(c: Settings, x: Decimal)
    requires c.Valid() && x.Valid()
    ensures x.NaN? ==> NaNOutcome(c, x, x, NextPlus(c, x)) && NaNOutcome(c, x, x, NextMinus(c, x))
    ensures !x.NaN? ==> NextPlus(c, x).raised == {} && NextMinus(c, x).raised == {}
    ensures !x.NaN? ==> !NextPlus(c, x).result.NaN? && !NextMinus(c, x).result.NaN?
  {
    if x.NaN? {
      var w := NaNDecided(c, x, x);
      hide NaNResult, AnswersNaN;
      NaNFlags(c, x, x, w, NaNResult(c, x, x));
    } else if x.Finite? {
      NextPlusLeast(c, x);
      NextMinusGreatest(c, x);
      hide Fix, Add, Sub, Cmp;
    }
  }
}
