/**
 Decimal values, context settings, signals and the eight rounding functions,
 as `_pydecimal.py` stores and computes them: a coefficient is a digit string.
 */
module DecimalCore {
  import opened Arithmetic
  import opened Digits

  /** `_sign`, `_int`, `_exp`; the special exponents 'F', 'n', 'N' become constructors. */
  datatype Decimal =
    | Finite(neg: bool, coeff: string, exp: int)
    | Infinity(neg: bool)
    | NaN(neg: bool, payload: string, signaling: bool)
  {
    predicate Valid() {
      match this
      case Finite(_, s, _) => Canonical(s)
      case Infinity(_) => true
      case NaN(_, p, _) => p == "" || (Canonical(p) && p != "0")
    }

    /** `not self` */
    predicate IsZero() {
      Finite? && coeff == "0"
    }

    function Adjusted(): int
      requires Finite?
    {
      exp + |coeff| - 1
    }

    function Magnitude(): real
      requires Finite? && Valid()
    {
      Scaled(Val(coeff), exp)
    }

    function Value(): real
      requires Finite? && Valid()
    {
      if neg then -Magnitude() else Magnitude()
    }
  }

  datatype Rounding = Down | Up | HalfUp | HalfDown | HalfEven | Ceiling | Floor | ZeroFiveUp

  datatype Signal =
    | Clamped | Inexact | Rounded | Subnormal | Overflow | Underflow
    | InvalidOperation | DivisionByZero

  datatype Settings = Settings(prec: int, emin: int, emax: int, clamp: bool, rounding: Rounding) {
    predicate Valid() {
      1 <= prec && emin <= 0 <= emax
    }

    function Etiny(): int {
      emin - prec + 1
    }

    function Etop(): int {
      emax - prec + 1
    }
  }

  /** The outcome of a quiet operation: the result and the signals it raises. */
  datatype Outcome = Outcome(result: Decimal, raised: set<Signal>)

  // ---------- the rounding functions ----------

  /** `_all_zeros(s, k)` */
  predicate AllZeros(s: string, k: nat)
    requires k <= |s|
  {
    forall i | k <= i < |s| :: s[i] == '0'
  }

  /** `_exact_half(s, k)` */
  predicate ExactHalf(s: string, k: nat)
    requires k <= |s|
  {
    k < |s| && s[k] == '5' && AllZeros(s, k + 1)
  }

  function RoundDown(s: string, k: nat): int
    requires k <= |s|
  {
    if AllZeros(s, k) then 0 else -1
  }

  function RoundHalfUp(s: string, k: nat): int
    requires k < |s|
  {
    if s[k] in "56789" then 1 else if AllZeros(s, k) then 0 else -1
  }

  function RoundHalfDown(s: string, k: nat): int
    requires k < |s|
  {
    if ExactHalf(s, k) then -1 else RoundHalfUp(s, k)
  }

  function RoundHalfEven(s: string, k: nat): int
    requires k < |s|
  {
    if ExactHalf(s, k) && (k == 0 || s[k - 1] in "02468") then -1 else RoundHalfUp(s, k)
  }

  function Round05Up(s: string, k: nat): int
    requires k <= |s|
  {
    if k != 0 && s[k - 1] !in "05" then RoundDown(s, k) else -RoundDown(s, k)
  }

  /** `_pick_rounding_function[rounding](self, k)`: 1 away from zero, 0 exact, -1 truncate. */
  function RoundDigits(mode: Rounding, neg: bool, s: string, k: nat): int
    requires k < |s|
  {
    match mode
    case Down => RoundDown(s, k)
    case Up => -RoundDown(s, k)
    case HalfUp => RoundHalfUp(s, k)
    case HalfDown => RoundHalfDown(s, k)
    case HalfEven => RoundHalfEven(s, k)
    case Ceiling => if neg then RoundDown(s, k) else -RoundDown(s, k)
    case Floor => if !neg then RoundDown(s, k) else -RoundDown(s, k)
    case ZeroFiveUp => Round05Up(s, k)
  }

  // ---------- what the digit tests mean ----------

  /** Where the discarded part of a coefficient lies: -1, 0 or 1 as it is below, at or above one half. */
  function Side(r: int, p: int): int {
    if 2 * r < p then -1 else if 2 * r == p then 0 else 1
  }

  /** Whether an inexact magnitude with kept integer `q` moves away from zero. */
  predicate MovesAway(mode: Rounding, neg: bool, q: int, side: int) {
    match mode
    case Down => false
    case Up => true
    case HalfUp => side >= 0
    case HalfDown => side > 0
    case HalfEven => side > 0 || (side == 0 && q % 2 == 1)
    case Ceiling => !neg
    case Floor => neg
    case ZeroFiveUp => q % 5 == 0
  }

  lemma LastDigit(s: string)
    requires AllDigits(s) && s != ""
    ensures Val(s) % 10 == DigitVal(s[|s| - 1])
  {
  }

  lemma ParityDigit(s: string, k: nat)
    requires AllDigits(s) && 0 < k <= |s|
    ensures AllDigits(s[..k])
    ensures s[k - 1] in "02468" <==> Val(s[..k]) % 2 == 0
    ensures s[k - 1] in "05" <==> Val(s[..k]) % 5 == 0
  {
    LastDigit(s[..k]);
    var c := s[k - 1];
    assert s[..k][k - 1] == c && IsDigit(c);
    assert c in "02468" <==> DigitVal(c) % 2 == 0;
    assert c in "05" <==> DigitVal(c) % 5 == 0;
  }

  lemma AllZerosVal(s: string, k: nat)
    requires AllDigits(s) && k <= |s|
    ensures AllDigits(s[k..])
    ensures AllZeros(s, k) <==> Val(s[k..]) == 0
  {
    var t := s[k..];
    ValZeros(t);
    assert forall i | 0 <= i < |t| :: t[i] == s[k + i];
    if Val(t) == 0 {
      forall i | k <= i < |s| ensures s[i] == '0' { assert t[i - k] == '0'; }
    }
  }

  /** Splits off the first discarded digit. */
  lemma FirstDigit(s: string, k: nat)
    requires AllDigits(s) && k < |s|
    ensures AllDigits(s[k..]) && AllDigits(s[k + 1..])
    ensures Val(s[k..]) == DigitVal(s[k]) * Pow10(|s| - k - 1) + Val(s[k + 1..])
    ensures Val(s[k + 1..]) < Pow10(|s| - k - 1)
    ensures Pow10(|s| - k) == 10 * Pow10(|s| - k - 1)
  {
    var t := s[k..];
    ValSplit(t, 1);
    assert t[1..] == s[k + 1..];
    assert t[..1] == [s[k]] && [s[k]][..0] == "";
    assert Val([s[k]]) == DigitVal(s[k]);
    ValUpper(s[k + 1..]);
  }

  lemma HalfDigit(c: char)
    requires IsDigit(c)
    ensures c in "56789" <==> DigitVal(c) >= 5
    ensures c == '5' <==> DigitVal(c) == 5
  {
  }

  /** The first discarded digit decides the comparison with one half. */
  lemma SideDigit(s: string, k: nat)
    requires AllDigits(s) && k < |s|
    ensures AllDigits(s[k..])
    ensures s[k] in "56789" <==> Side(Val(s[k..]), Pow10(|s| - k)) >= 0
    ensures ExactHalf(s, k) <==> Side(Val(s[k..]), Pow10(|s| - k)) == 0
  {
    hide Val, Pow10, Side;
    FirstDigit(s, k);
    HalfDigit(s[k]);
    AllZerosVal(s, k + 1);
    SideOfLeading(DigitVal(s[k]), Val(s[k + 1..]), Pow10(|s| - k - 1));
  }

  lemma SideOfLeading(d: nat, r: nat, p: nat)
    requires r < p && d < 10
    ensures d >= 5 <==> Side(d * p + r, 10 * p) >= 0
    ensures (d == 5 && r == 0) <==> Side(d * p + r, 10 * p) == 0
  {
    if d <= 4 { MulOrder(d, 4, p); }
    if d >= 5 { MulOrder(5, d, p); }
    if d >= 6 { MulOrder(6, d, p); }
  }

  lemma ZeroSide(p: nat)
    requires p > 0
    ensures Side(0, p) == -1
  {
  }

  /** Each digit test decides exactly what its rounding mode asks of the numbers. */
  lemma RoundDigitsMeaning(mode: Rounding, neg: bool, s: string, k: nat)
    requires AllDigits(s) && k < |s|
    ensures AllDigits(s[..k]) && AllDigits(s[k..])
    ensures var q, r := Val(s[..k]), Val(s[k..]);
            RoundDigits(mode, neg, s, k) ==
              if r == 0 then 0 else if MovesAway(mode, neg, q, Side(r, Pow10(|s| - k))) then 1 else -1
  {
    AllZerosVal(s, k);
    SideDigit(s, k);
    if k > 0 {
      ParityDigit(s, k);
    } else {
      assert Val(s[..k]) == 0;
    }
    hide Pow10, Val, AllZeros, ExactHalf, Side;
    var q, r := Val(s[..k]), Val(s[k..]);
    var side := Side(r, Pow10(|s| - k));
    assert r == 0 ==> side == -1 by { ZeroSide(Pow10(|s| - k)); }
    match mode
    case Down | Up | Ceiling | Floor =>
    case HalfUp =>
    case HalfDown =>
    case HalfEven =>
    case ZeroFiveUp =>
  }
}
