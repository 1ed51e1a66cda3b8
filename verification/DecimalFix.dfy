/**
 `_fix`: one rounding step that fits a value into a context, and the proof that
 it rounds correctly.  The operand may stand for an exact value that it only
 approximates, as long as both compare alike with every half unit.
 */
module DecimalFix {
  import opened Arithmetic
  import opened Digits
  import opened DecimalCore
  import opened DecimalSpec

  function Nines(n: nat): (s: string)
    ensures |s| == n && AllDigits(s)
  {
    seq(n, _ => '9')
  }

  /** `Overflow.handle` */
  function OverflowResult(c: Settings, neg: bool): Decimal
    requires c.Valid()
  {
    match c.rounding
    case HalfUp | HalfEven | HalfDown | Up => Infinity(neg)
    case _ =>
      if !neg then
        if c.rounding == Ceiling then Infinity(neg) else Finite(neg, Nines(c.prec), c.emax - c.prec + 1)
      else
        if c.rounding == Floor then Infinity(neg) else Finite(neg, Nines(c.prec), c.emax - c.prec + 1)
  }

  function StripZeros(s: string): string {
    if s != "" && s[0] == '0' then StripZeros(s[1..]) else s
  }

  /** `_fix_nan` */
  function FixNaN(c: Settings, d: Decimal): Decimal
    requires c.Valid() && d.NaN?
  {
    var limit := c.prec - (if c.clamp then 1 else 0);
    if |d.payload| > limit then
      NaN(d.neg, StripZeros(d.payload[|d.payload| - limit..]), d.signaling)
    else d
  }

  /**
   The digits that are rounded and how many of them are kept.  An operand below a
   tenth of the last place is replaced by a tenth of the last place.
   */
  function Operand(d: Decimal, expMin: int): (p: (string, nat))
    requires d.Finite? && d.Valid() && d.exp < expMin
    ensures AllDigits(p.0) && p.1 < |p.0|
  {
    var wanted := |d.coeff| + d.exp - expMin;
    if wanted < 0 then ("1", 0) else (d.coeff, wanted)
  }

  function KeptText(d: Decimal, expMin: int): (s: string)
    requires d.Finite? && d.Valid() && d.exp < expMin
    ensures AllDigits(s)
  {
    var (s, digits) := Operand(d, expMin);
    if s[..digits] == "" then "0" else s[..digits]
  }

  /** Adds one to the kept coefficient when rounding moves away, dropping a digit on a carry. */
  function Bump(c: Settings, kept: string, changed: int, expMin: int): (string, int)
    requires AllDigits(kept)
  {
    if changed > 0 then
      var bumped := Str(Val(kept) + 1);
      if |bumped| > c.prec then (bumped[..|bumped| - 1], expMin + 1) else (bumped, expMin)
    else (kept, expMin)
  }

  /** The rounding branch of `_fix`, for `d.exp < expMin <= Etop`. */
  function RoundTo(c: Settings, d: Decimal, expMin: int, subnormal: bool): Outcome
    requires c.Valid() && d.Finite? && d.Valid() && d.exp < expMin
  {
    var (s, digits) := Operand(d, expMin);
    var changed := RoundDigits(c.rounding, d.neg, s, digits);
    var (coeff, exp) := Bump(c, KeptText(d, expMin), changed, expMin);
    var result := if exp > c.Etop() then OverflowResult(c, d.neg) else Finite(d.neg, coeff, exp);
    Outcome(result, RoundingSignals(exp > c.Etop(), changed != 0, subnormal, result.IsZero()))
  }

  /** The signals of the rounding branch, in the order in which they are raised. */
  function RoundingSignals(overflow: bool, inexact: bool, subnormal: bool, zero: bool): set<Signal> {
    (if overflow then {Overflow} else {})
    + (if inexact && subnormal then {Underflow} else {})
    + (if subnormal then {Subnormal} else {})
    + (if inexact then {Inexact} else {})
    + {Rounded}
    + (if zero then {Clamped} else {})
  }

  /** `_fix` */
  function Fix(c: Settings, d: Decimal): Outcome
    requires c.Valid() && d.Valid()
  {
    if d.NaN? then Outcome(FixNaN(c, d), {})
    else if d.Infinity? then Outcome(d, {})
    else if d.IsZero() then
      var expMax := if c.clamp then c.Etop() else c.emax;
      var low := if d.exp < c.Etiny() then c.Etiny() else d.exp;
      var exp := if low < expMax then low else expMax;
      if exp != d.exp then Outcome(Finite(d.neg, "0", exp), {Clamped}) else Outcome(d, {})
    else
      var expMin := |d.coeff| + d.exp - c.prec;
      if expMin > c.Etop() then
        Outcome(OverflowResult(c, d.neg), {Overflow, Inexact, Rounded})
      else
        var subnormal := expMin < c.Etiny();
        var expMin' := if subnormal then c.Etiny() else expMin;
        var raised := if subnormal then {Subnormal} else {};
        if d.exp < expMin' then
          RoundTo(c, d, expMin', subnormal)
        else if c.clamp && d.exp > c.Etop() then
          Outcome(Finite(d.neg, d.coeff + Zeros(d.exp - c.Etop()), c.Etop()), raised + {Clamped})
        else
          Outcome(d, raised)
  }

  // ---------- agreement at half units ----------

  /** The exponent of the last place that `_fix` keeps. */
  function UnitExp(c: Settings, d: Decimal): int
    requires d.Finite?
  {
    var expMin := |d.coeff| + d.exp - c.prec;
    if expMin < c.Etiny() then c.Etiny() else expMin
  }

  /** h halves of 10^g */
  function HalfPoint(h: int, g: int): real {
    Scaled(5 * h, g - 1)
  }

  /** `v` and the working value `m` compare alike with every half unit of 10^g. */
  ghost predicate Agrees(v: Exact, m: real, g: int) {
    forall h: int {:trigger HalfPoint(h, g)} ::
      (v.AtLeast(HalfPoint(h, g)) <==> HalfPoint(h, g) <= m) &&
      (v.Above(HalfPoint(h, g)) <==> HalfPoint(h, g) < m)
  }

  lemma WholePoint(q: int, g: int)
    ensures HalfPoint(2 * q, g) == Scaled(q, g)
  {
    ScaledShift(q, g, g - 1);
    assert Pow10(1) == 10 * Pow10(0);
  }

  /** Keeps the digits of `d` from exponent `g` upward; the rest is `Rest`. */
  function Kept(d: Decimal, g: int): nat
    requires d.Finite? && d.Valid()
  {
    if g <= d.exp then
      MulSign(Val(d.coeff), Pow10(d.exp - g));
      Val(d.coeff) * Pow10(d.exp - g)
    else
      DivSign(Val(d.coeff), Pow10(g - d.exp));
      Val(d.coeff) / Pow10(g - d.exp)
  }

  function Rest(d: Decimal, g: int): nat
    requires d.Finite? && d.Valid()
  {
    if g <= d.exp then 0 else Val(d.coeff) % Pow10(g - d.exp)
  }

  // ---------- locating the operand ----------

  lemma KeptRest(d: Decimal, g: int)
    requires d.Finite? && d.Valid() && !d.IsZero()
    ensures d.exp < g ==> Val(d.coeff) == Kept(d, g) * Pow10(g - d.exp) + Rest(d, g) && Rest(d, g) < Pow10(g - d.exp)
    ensures Scaled(Kept(d, g), g) <= d.Magnitude() < Scaled(Kept(d, g) + 1, g)
    ensures Rest(d, g) == 0 <==> Scaled(Kept(d, g), g) == d.Magnitude()
  {
    if g <= d.exp {
      ScaledShift(Val(d.coeff), d.exp, g);
      ScaledOrder(Kept(d, g), Kept(d, g) + 1, g);
    } else {
      var p := Pow10(g - d.exp);
      DivisionLaw(Val(d.coeff), p);
      ScaledSplit(Kept(d, g), Rest(d, g), g, d.exp);
      hide Scaled;
    }
  }

  lemma ScaledSplit(q: nat, r: nat, g: int, x: int)
    requires x <= g && r < Pow10(g - x)
    ensures Scaled(q, g) <= Scaled(q * Pow10(g - x) + r, x) < Scaled(q + 1, g)
    ensures r == 0 <==> Scaled(q, g) == Scaled(q * Pow10(g - x) + r, x)
  {
    var p := Pow10(g - x);
    ScaledShift(q, g, x);
    ScaledShift(q + 1, g, x);
    assert (q + 1) * p == q * p + p;
    hide Scaled, Pow10;
    ScaledOrder(q * p, q * p + r, x);
    ScaledOrder(q * p + r, q * p + p, x);
  }

  /** The kept integer has at most `prec` digits, and exactly `prec` above the subnormal range. */
  lemma KeptSize(c: Settings, d: Decimal)
    requires c.Valid() && d.Finite? && d.Valid() && !d.IsZero()
    ensures var g := UnitExp(c, d);
            Kept(d, g) < Pow10(c.prec) && (g == c.Etiny() || Pow10(c.prec - 1) <= Kept(d, g))
  {
    var g := UnitExp(c, d);
    CanonicalBounds(d.coeff);
    hide Pow10, Val;
    if g <= d.exp {
      ProductBounds(Val(d.coeff), |d.coeff|, d.exp - g, c.prec);
    } else {
      QuotientBounds(Val(d.coeff), |d.coeff|, g - d.exp, c.prec);
    }
  }

  lemma ProductBounds(m: nat, l: nat, n: nat, k: nat)
    requires 1 <= l && Pow10(l - 1) <= m < Pow10(l)
    ensures l + n <= k ==> m * Pow10(n) < Pow10(k)
    ensures k == l + n ==> Pow10(k - 1) <= m * Pow10(n)
  {
    Pow10Add(l, n);
    Pow10Add(l - 1, n);
    if l + n <= k {
      Pow10Monotone(l + n, k);
    }
    hide Pow10;
    MulOrder(m, Pow10(l), Pow10(n));
    MulOrder(Pow10(l - 1), m, Pow10(n));
  }

  lemma QuotientBounds(m: nat, l: nat, n: nat, k: nat)
    requires 1 <= l && Pow10(l - 1) <= m < Pow10(l)
    ensures l <= k + n ==> m / Pow10(n) < Pow10(k)
    ensures l == k + n && 1 <= k ==> Pow10(k - 1) <= m / Pow10(n)
  {
    if l <= k + n {
      Pow10Monotone(l, k + n);
      QuotientBelow(m, n, k);
    }
    if l == k + n && 1 <= k {
      QuotientAbove(m, n, k - 1);
    }
  }

  lemma QuotientBelow(m: nat, n: nat, k: nat)
    requires m < Pow10(k + n)
    ensures m / Pow10(n) < Pow10(k)
  {
    DivisionLaw(m, Pow10(n));
    Pow10Add(k, n);
    if Pow10(k) <= m / Pow10(n) {
      MulOrder(Pow10(k), m / Pow10(n), Pow10(n));
    }
  }

  lemma QuotientAbove(m: nat, n: nat, k: nat)
    requires Pow10(k + n) <= m
    ensures Pow10(k) <= m / Pow10(n)
  {
    DivisionLaw(m, Pow10(n));
    Pow10Add(k, n);
    if m / Pow10(n) + 1 <= Pow10(k) {
      MulOrder(m / Pow10(n) + 1, Pow10(k), Pow10(n));
    }
  }

  lemma LocateOperand(c: Settings, d: Decimal, v: Exact)
    requires c.Valid() && d.Finite? && d.Valid() && !d.IsZero()
    requires Agrees(v, d.Magnitude(), UnitExp(c, d))
    ensures var g := UnitExp(c, d);
            Located(c, v, g, Kept(d, g)) && (v.Equals(Scaled(Kept(d, g), g)) <==> Rest(d, g) == 0)
  {
    var g := UnitExp(c, d);
    var q := Kept(d, g);
    KeptRest(d, g);
    KeptSize(c, d);
    WholePoint(0, g);
    WholePoint(q, g);
    WholePoint(q + 1, g);
    CanonicalBounds(d.coeff);
    ScaledOrder(0, Val(d.coeff), d.exp);
    assert Scaled(0, g) == 0.0;
    assert Scaled(0, d.exp) == 0.0;
    hide Scaled, Kept, Rest, UnitExp, Pow10, Exact.AtLeast, Exact.Above;
  }

  /** The side of the midpoint can be read off the discarded digits. */
  lemma SideOfRest(c: Settings, d: Decimal, v: Exact, g: int)
    requires d.Finite? && d.Valid() && !d.IsZero() && d.exp < g
    requires Agrees(v, d.Magnitude(), g)
    ensures HalfSide(v, g, Kept(d, g)) == Side(Rest(d, g), Pow10(g - d.exp))
  {
    var m, q, r, n := Val(d.coeff), Kept(d, g), Rest(d, g), g - d.exp;
    KeptRest(d, g);
    var k := 5 * (2 * q + 1);
    ScaledShift(k, g - 1, d.exp);
    assert Pow10(n) == 10 * Pow10(n - 1);
    HalfUnits(q, r, Pow10(n - 1));
    assert HalfPoint(2 * q + 1, g) == Scaled(k, g - 1);
    ScaledOrder(k * Pow10(n - 1), m, d.exp);
    hide Scaled, Kept, Rest, Pow10, Exact.AtLeast, Exact.Above;
  }

  lemma HalfUnits(q: nat, r: nat, p: nat)
    ensures (5 * (2 * q + 1)) * p == q * (10 * p) + 5 * p
  {
  }

  // ---------- the rounding branch ----------

  /** The text computations of the rounding branch, in terms of the kept integer and the rest. */
  lemma OperandMeaning(c: Settings, d: Decimal, g: int)
    requires c.Valid() && d.Finite? && d.Valid() && !d.IsZero() && d.exp < g
    ensures Canonical(KeptText(d, g)) && Val(KeptText(d, g)) == Kept(d, g)
    ensures var (s, k) := Operand(d, g);
            var q, r := Kept(d, g), Rest(d, g);
            RoundDigits(c.rounding, d.neg, s, k) ==
              if r == 0 then 0 else if MovesAway(c.rounding, d.neg, q, Side(r, Pow10(g - d.exp))) then 1 else -1
  {
    var (s, k) := Operand(d, g);
    RoundDigitsMeaning(c.rounding, d.neg, s, k);
    assert s[..0] == "" && Val("") == 0;
    if |d.coeff| + d.exp - g < 0 {
      TinyOperand(d, g);
    } else {
      ValSplit(s, k);
      ValUpper(s[k..]);
      hide Val, Pow10;
      DivModUnique(Val(s), Pow10(g - d.exp), Val(s[..k]), Val(s[k..]));
    }
  }

  /** Below a tenth of the last place nothing is kept, and the rest is less than one half. */
  lemma TinyOperand(d: Decimal, g: int)
    requires d.Finite? && d.Valid() && !d.IsZero() && |d.coeff| + d.exp < g
    ensures Kept(d, g) == 0 && Rest(d, g) != 0
    ensures Side(Rest(d, g), Pow10(g - d.exp)) == -1
    ensures "1"[..0] == "" && Val("1"[0..]) == 1 && Side(1, Pow10(1)) == -1
  {
    var n := g - d.exp;
    CanonicalBounds(d.coeff);
    Pow10Monotone(|d.coeff|, n - 1);
    DivModUnique(Val(d.coeff), Pow10(n), 0, Val(d.coeff));
    assert "1"[0..] == "1" && "1"[..0] == "";
    assert Pow10(1) == 10 * Pow10(0);
  }

  /** The integer the rounding branch settles on, in units of 10^g. */
  function RoundedUnits(c: Settings, d: Decimal, g: int): nat
    requires d.Finite? && d.Valid() && d.exp < g
  {
    var q, r := Kept(d, g), Rest(d, g);
    if r != 0 && MovesAway(c.rounding, d.neg, q, Side(r, Pow10(g - d.exp))) then q + 1 else q
  }

  lemma BumpMeaning(c: Settings, kept: string, changed: int, g: int)
    requires c.Valid() && Canonical(kept) && Val(kept) < Pow10(c.prec)
    ensures var n := if changed > 0 then Val(kept) + 1 else Val(kept);
            var (coeff, exp) := Bump(c, kept, changed, g);
            && n <= Pow10(c.prec) && Canonical(coeff) && |coeff| <= c.prec
            && Scaled(Val(coeff), exp) == Scaled(n, g)
            && exp == if n == Pow10(c.prec) then g + 1 else g
  {
    hide Val, Pow10, Scaled, Str;
    var q := Val(kept);
    ValStr(kept);
    CoefficientFits(q, c.prec);
    CoefficientFits(q + 1, c.prec);
    CarryText(c.prec, g);
  }

  lemma RoundToMeaning(c: Settings, d: Decimal, g: int, subnormal: bool)
    requires c.Valid() && d.Finite? && d.Valid() && !d.IsZero() && d.exp < g
    requires g == UnitExp(c, d) <= c.Etop()
    ensures var n, o := RoundedUnits(c, d, g), RoundTo(c, d, g, subnormal);
      && n <= Pow10(c.prec)
      && (Overflow in o.raised <==> n == Pow10(c.prec) && g == c.Etop())
      && (Inexact in o.raised <==> Rest(d, g) != 0)
      && (Overflow in o.raised ==> Inexact in o.raised && o.result == OverflowResult(c, d.neg))
      && (Overflow !in o.raised ==>
            o.result.Finite? && o.result.neg == d.neg && Representable(c, o.result)
            && o.result.Magnitude() == Scaled(n, g))
  {
    hide Val, Pow10, Kept, Rest, RoundedUnits, Operand, Bump, KeptText, RoundDigits, OverflowResult;
    hide Scaled, Canonical;
    OperandMeaning(c, d, g);
    KeptSize(c, d);
    var (s, k) := Operand(d, g);
    var changed := RoundDigits(c.rounding, d.neg, s, k);
    ChangedMeaning(c, d, g);
    BumpMeaning(c, KeptText(d, g), changed, g);
  }

  lemma ChangedMeaning(c: Settings, d: Decimal, g: int)
    requires c.Valid() && d.Finite? && d.Valid() && !d.IsZero() && d.exp < g
    ensures var (s, k) := Operand(d, g);
            var changed := RoundDigits(c.rounding, d.neg, s, k);
            && (changed != 0 <==> Rest(d, g) != 0)
            && RoundedUnits(c, d, g) == if changed > 0 then Kept(d, g) + 1 else Kept(d, g)
  {
    hide Val, Pow10, Kept, Rest, Operand, KeptText, RoundDigits, MovesAway, Side;
    OperandMeaning(c, d, g);
  }

  lemma CoefficientFits(n: nat, k: nat)
    requires 1 <= k && n <= Pow10(k)
    ensures Canonical(Str(n)) && Val(Str(n)) == n
    ensures n < Pow10(k) <==> |Str(n)| <= k
  {
    StrVal(n);
    CanonicalBounds(Str(n));
    if |Str(n)| <= k {
      Pow10Monotone(|Str(n)|, k);
    } else {
      Pow10Monotone(k, |Str(n)| - 1);
    }
  }

  /** Dropping the last zero of 1000..0 and moving the exponent up keeps the value. */
  lemma CarryText(k: nat, g: int)
    requires 1 <= k
    ensures var s := Str(Pow10(k));
            |s| == k + 1 && Canonical(s[..k]) && Val(s[..k]) == Pow10(k - 1)
            && Scaled(Pow10(k - 1), g + 1) == Scaled(Pow10(k), g)
  {
    var n := Pow10(k);
    assert n == 10 * Pow10(k - 1);
    assert Pow10(k + 1) == 10 * n;
    StrLength(n, k + 1);
    assert Str(n) == Str(n / 10) + [DigitChar(n % 10)];
    assert Str(n)[..k] == Str(n / 10);
    StrVal(n / 10);
    ScaledShift(Pow10(k - 1), g + 1, g);
    assert Pow10(1) == 10 * Pow10(0);
  }

  // ---------- the overflow threshold ----------

  lemma {:induction false} NinesVal(k: nat)
    ensures Val(Nines(k)) == Pow10(k) - 1
  {
    if k > 0 {
      assert Nines(k)[..k - 1] == Nines(k - 1);
      NinesVal(k - 1);
    }
  }

  lemma OverflowMeaning(c: Settings, neg: bool)
    requires c.Valid()
    ensures var d := OverflowResult(c, neg);
      && Representable(c, d)
      && if OverflowsToInfinity(c.rounding, neg) then d == Infinity(neg)
         else d.Finite? && d.neg == neg && d.Valid() && d.Magnitude() == Largest(c)
  {
    NinesVal(c.prec);
    assert Canonical(Nines(c.prec)) && Nines(c.prec)[0] == '9';
    hide Val, Pow10, Scaled;
  }

  lemma WithinLargest(c: Settings, g: int, n: nat)
    requires c.Valid() && g <= c.Etop() && n <= Pow10(c.prec)
    ensures Scaled(n, g) <= Largest(c) <==> !(n == Pow10(c.prec) && g == c.Etop())
  {
    var p, k := Pow10(c.prec), c.Etop() - g;
    var nines := (p - 1) * Pow10(k);
    ScaledShift(p - 1, c.Etop(), g);
    ScaledOrder(n, nines, g);
    assert p == 10 * Pow10(c.prec - 1);
    assert k == 0 ==> Pow10(k) == 1;
    assert k > 0 ==> Pow10(k) == 10 * Pow10(k - 1);
    hide Pow10, Scaled;
    if k == 0 {
      assert nines == p - 1;
    } else {
      MulOrder(10, Pow10(k), p - 1);
    }
  }

  lemma BeyondLargest(c: Settings, g: int, n: nat)
    requires c.Valid() && c.Etop() < g && Pow10(c.prec - 1) <= n
    ensures Largest(c) < Scaled(n, g)
  {
    ScaledOrder(Pow10(c.prec - 1), n, g);
    TenShift(g, c.prec - 1);
    ScaledMagnitude(Pow10(c.prec) - 1, c.Etop(), c.prec, g + (c.prec - 1));
  }

  // ---------- correct rounding ----------

  /** The units that a rounding of `v` must settle on. */
  function SettledUnits(c: Settings, neg: bool, v: Exact, g: int, q: nat): nat {
    if !v.Equals(Scaled(q, g)) && MovesAway(c.rounding, neg, q, HalfSide(v, g, q)) then q + 1 else q
  }

  lemma SettledIsChosen(c: Settings, neg: bool, v: Exact, g: int, q: nat) returns (lo: real, hi: real)
    requires c.Valid() && Located(c, v, g, q)
    ensures Neighbours(c, v, lo, hi) && lo <= hi
    ensures Chosen(c.rounding, neg, v, lo, hi) == Scaled(SettledUnits(c, neg, v, g, q), g)
    ensures v.Equals(Scaled(q, g)) <==> v.Equals(Scaled(SettledUnits(c, neg, v, g, q), g))
  {
    hide Scaled, Exact.AtLeast, Exact.Above, MovesAway, HalfSide;
    LocatedNeighbours(c, v, g, q);
    ChosenInUnits(c.rounding, neg, v, g, q);
    lo := Scaled(q, g);
    hi := if v.Equals(lo) then lo else Scaled(q + 1, g);
  }

  /** The exact magnitude, rounded with an unlimited exponent, exceeds every finite one. */
  ghost predicate Overflows(c: Settings, neg: bool, v: Exact)
    requires c.Valid()
  {
    exists lo: real, hi: real ::
      Neighbours(c, v, lo, hi) && lo <= hi && Largest(c) < Chosen(c.rounding, neg, v, lo, hi)
  }

  lemma SettledRounding(c: Settings, neg: bool, v: Exact, g: int, q: nat, d: Decimal)
    requires c.Valid() && Located(c, v, g, q) && Representable(c, d)
    requires var m := Scaled(SettledUnits(c, neg, v, g, q), g);
      if m <= Largest(c) then d.Finite? && d.neg == neg && d.Magnitude() == m
      else d == OverflowResult(c, neg)
    ensures CorrectlyRounded(c, neg, v, d)
    ensures Overflows(c, neg, v) <==> Largest(c) < Scaled(SettledUnits(c, neg, v, g, q), g)
  {
    hide Scaled, Neighbours, Chosen, SettledUnits, Largest, OverflowResult, Canonical, Val;
    var lo, hi := SettledIsChosen(c, neg, v, g, q);
    OverflowMeaning(c, neg);
    assert RoundedBetween(c, neg, v, lo, hi, d);
    if Overflows(c, neg, v) {
      var lo', hi' :| Neighbours(c, v, lo', hi') && lo' <= hi' && Largest(c) < Chosen(c.rounding, neg, v, lo', hi');
      NeighboursUnique(c, v, lo, hi, lo', hi');
    }
  }

  lemma SettledFromOperand(c: Settings, d: Decimal, v: Exact)
    requires c.Valid() && d.Finite? && d.Valid() && !d.IsZero()
    requires Agrees(v, d.Magnitude(), UnitExp(c, d))
    ensures var g := UnitExp(c, d);
      && Located(c, v, g, Kept(d, g))
      && (v.Equals(Scaled(Kept(d, g), g)) <==> Rest(d, g) == 0)
      && SettledUnits(c, d.neg, v, g, Kept(d, g)) ==
           if d.exp < g then RoundedUnits(c, d, g) else Kept(d, g)
  {
    var g := UnitExp(c, d);
    hide Scaled, Agrees, Kept, MovesAway, Side, HalfSide, Pow10, Located, Exact.Equals, UnitExp;
    LocateOperand(c, d, v);
    if d.exp < g {
      SideOfRest(c, d, v, g);
    }
  }

  lemma FoldDown(c: Settings, d: Decimal)
    requires c.Valid() && d.Finite? && d.Valid() && !d.IsZero() && UnitExp(c, d) <= d.exp && c.Etop() < d.exp
    requires |d.coeff| + d.exp - c.prec <= c.Etop()
    ensures var r := Finite(d.neg, d.coeff + Zeros(d.exp - c.Etop()), c.Etop());
            r.Valid() && r.Magnitude() == d.Magnitude() && |r.coeff| <= c.prec && !r.IsZero()
  {
    var s := d.coeff + Zeros(d.exp - c.Etop());
    ValPadded(d.coeff, d.exp - c.Etop());
    ScaledShift(Val(d.coeff), d.exp, c.Etop());
    CanonicalBounds(d.coeff);
    assert s[0] == d.coeff[0];
  }

  /** Inexact is raised exactly when the result is not the exact value. */
  ghost predicate FlagsAgree(c: Settings, neg: bool, v: Exact, o: Outcome)
    requires c.Valid() && o.result.Valid()
  {
    && (Inexact in o.raised <==> !(o.result.Finite? && v.Equals(o.result.Magnitude())))
    && (Overflow in o.raised <==> Overflows(c, neg, v))
    && (Subnormal in o.raised <==> !v.AtLeast(Ten(c.emin)))
    && (Underflow in o.raised <==> Subnormal in o.raised && Inexact in o.raised)
  }

  /** In units of the last place, subnormal means below 10^(prec-1) units. */
  lemma SubnormalMeaning(c: Settings, d: Decimal, v: Exact)
    requires c.Valid() && d.Finite? && d.Valid() && !d.IsZero()
    requires Agrees(v, d.Magnitude(), UnitExp(c, d))
    ensures |d.coeff| + d.exp - c.prec < c.Etiny() <==> !v.AtLeast(Ten(c.emin))
  {
    var g, k := UnitExp(c, d), Pow10(c.prec - 1);
    WholePoint(k, g);
    TenShift(g, c.prec - 1);
    CanonicalBounds(d.coeff);
    var l := |d.coeff|;
    if l + d.exp - c.prec < c.Etiny() {
      ScaledMagnitude(Val(d.coeff), d.exp, l, c.emin);
    } else {
      ScaledOrder(Pow10(l - 1), Val(d.coeff), d.exp);
      TenShift(d.exp, l - 1);
      TenMonotone(c.emin, g + (c.prec - 1));
      assert v.AtLeast(Ten(g + (c.prec - 1)));
      AboveZero(c, d, v);
      ExactOrder(v, Ten(c.emin), Ten(g + (c.prec - 1)));
    }
  }

  lemma AboveZero(c: Settings, d: Decimal, v: Exact)
    requires c.Valid() && d.Finite? && d.Valid() && !d.IsZero()
    requires Agrees(v, d.Magnitude(), UnitExp(c, d))
    ensures v.Above(0.0)
  {
    LocateOperand(c, d, v);
  }

  /** What each branch of `_fix` establishes about the settled units. */
  ghost predicate Settles(c: Settings, neg: bool, v: Exact, m: real, o: Outcome)
    requires c.Valid()
  {
    && o.result.Valid() && Representable(c, o.result)
    && (if m <= Largest(c) then o.result.Finite? && o.result.neg == neg && o.result.Magnitude() == m
        else o.result == OverflowResult(c, neg))
    && (Overflow in o.raised <==> Largest(c) < m)
    && (Inexact in o.raised <==> !(o.result.Finite? && v.Equals(o.result.Magnitude())))
  }

  lemma SettlesBeyond(c: Settings, d: Decimal, v: Exact)
    requires c.Valid() && d.Finite? && d.Valid() && !d.IsZero() && c.Etop() < UnitExp(c, d)
    requires Agrees(v, d.Magnitude(), UnitExp(c, d))
    ensures var g := UnitExp(c, d);
            Settles(c, d.neg, v, Scaled(SettledUnits(c, d.neg, v, g, Kept(d, g)), g), Fix(c, d))
  {
    hide Scaled, Kept, Largest, OverflowResult, Pow10, Val, RoundTo, Agrees, Exact.Above, Exact.AtLeast;
    var g := UnitExp(c, d);
    var q := Kept(d, g);
    KeptSize(c, d);
    LocateOperand(c, d, v);
    OverflowMeaning(c, d.neg);
    BeyondLargest(c, g, q);
    BeyondLargest(c, g, q + 1);
    ExactOrder(v, Largest(c), Scaled(q, g));
  }

  lemma SettlesRounding(c: Settings, d: Decimal, v: Exact)
    requires c.Valid() && d.Finite? && d.Valid() && !d.IsZero() && d.exp < UnitExp(c, d) <= c.Etop()
    requires Agrees(v, d.Magnitude(), UnitExp(c, d))
    ensures var g := UnitExp(c, d);
            Settles(c, d.neg, v, Scaled(SettledUnits(c, d.neg, v, g, Kept(d, g)), g), Fix(c, d))
  {
    hide Scaled, Kept, Rest, RoundedUnits, OverflowResult, Pow10, Val, RoundTo, Agrees, Exact.Above, Exact.AtLeast;
    hide Neighbours, Chosen;
    var g := UnitExp(c, d);
    var q := Kept(d, g);
    SettledFromOperand(c, d, v);
    var lo, hi := SettledIsChosen(c, d.neg, v, g, q);
    RoundToMeaning(c, d, g, |d.coeff| + d.exp - c.prec < c.Etiny());
    WithinLargest(c, g, RoundedUnits(c, d, g));
    OverflowMeaning(c, d.neg);
    if q + 1 == Pow10(c.prec) && g == c.Etop() {
      assert Scaled(q, g) == Largest(c);
    }
    hide SettledUnits, Largest;
  }

  lemma SettlesExactly(c: Settings, d: Decimal, v: Exact)
    requires c.Valid() && d.Finite? && d.Valid() && !d.IsZero()
    requires UnitExp(c, d) <= d.exp && UnitExp(c, d) <= c.Etop()
    requires Agrees(v, d.Magnitude(), UnitExp(c, d))
    ensures var g := UnitExp(c, d);
            Settles(c, d.neg, v, Scaled(SettledUnits(c, d.neg, v, g, Kept(d, g)), g), Fix(c, d))
  {
    hide Scaled, Kept, Largest, OverflowResult, Pow10, Val, RoundTo, Agrees, Exact.Above, Exact.AtLeast;
    var g := UnitExp(c, d);
    var q := Kept(d, g);
    SettledFromOperand(c, d, v);
    KeptRest(d, g);
    KeptSize(c, d);
    WithinLargest(c, g, q);
    if c.clamp && c.Etop() < d.exp {
      FoldDown(c, d);
    }
  }

  /**
   `_fix` rounds correctly: any exact magnitude that agrees with the operand at half units of the last place is
   rounded as its mode asks, once, and every flag says what happened.
   */
  lemma FixRounds(c: Settings, d: Decimal, v: Exact)
    requires c.Valid() && d.Finite? && d.Valid() && !d.IsZero()
    requires Agrees(v, d.Magnitude(), UnitExp(c, d))
    ensures Fix(c, d).result.Valid()
    ensures CorrectlyRounded(c, d.neg, v, Fix(c, d).result)
    ensures FlagsAgree(c, d.neg, v, Fix(c, d))
    ensures var o := Fix(c, d);
      && (Rounded in o.raised <==> d.exp < UnitExp(c, d) || c.Etop() < UnitExp(c, d))
      && (Clamped in o.raised <==> o.result.IsZero() || (c.clamp && UnitExp(c, d) <= c.Etop() < d.exp))
  {
    var g := UnitExp(c, d);
    var q, o := Kept(d, g), Fix(c, d);
    var n := SettledUnits(c, d.neg, v, g, q);
    SettledFromOperand(c, d, v);
    SubnormalMeaning(c, d, v);
    SubnormalFlags(c, d);
    RoundedAndClamped(c, d);
    hide Scaled, SettledUnits, RoundedUnits, Largest, OverflowResult, Pow10, Val, Kept, Rest, Fix;
    hide Agrees, Located, CorrectlyRounded, Overflows, Ten;
    if c.Etop() < g {
      SettlesBeyond(c, d, v);
    } else if d.exp < g {
      SettlesRounding(c, d, v);
    } else {
      SettlesExactly(c, d, v);
    }
    SettledRounding(c, d.neg, v, g, q, o.result);
  }

  /** Rounded: digits were to be dropped, or the value is too large. Clamped: a zero, or a folded exponent. */
  lemma RoundedAndClamped(c: Settings, d: Decimal)
    requires c.Valid() && d.Finite? && d.Valid() && !d.IsZero()
    ensures var o := Fix(c, d);
      && (Rounded in o.raised <==> d.exp < UnitExp(c, d) || c.Etop() < UnitExp(c, d))
      && (Clamped in o.raised <==> o.result.IsZero() || (c.clamp && UnitExp(c, d) <= c.Etop() < d.exp))
      && InvalidOperation !in o.raised && DivisionByZero !in o.raised
  {
    hide Bump, RoundDigits, KeptText;
    OverflowNotZero(c, d.neg);
    hide OverflowResult;
    if c.clamp && UnitExp(c, d) <= d.exp && c.Etop() < d.exp && UnitExp(c, d) <= c.Etop() {
      assert (d.coeff + Zeros(d.exp - c.Etop()))[0] == d.coeff[0];
      CanonicalBounds(d.coeff);
    }
  }

  lemma OverflowNotZero(c: Settings, neg: bool)
    requires c.Valid()
    ensures !OverflowResult(c, neg).IsZero()
  {
    assert Nines(c.prec)[0] == '9';
  }

  lemma SubnormalFlags(c: Settings, d: Decimal)
    requires c.Valid() && d.Finite? && d.Valid() && !d.IsZero()
    ensures var o := Fix(c, d);
      && (Subnormal in o.raised <==> |d.coeff| + d.exp - c.prec < c.Etiny())
      && (Underflow in o.raised <==> Subnormal in o.raised && Inexact in o.raised)
  {
    hide Bump, RoundDigits, KeptText, OverflowResult;
  }
}
