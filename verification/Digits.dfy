/**
 Decimal digit strings and powers of ten: the integers behind a coefficient
 that is stored as text, and exact scaled values `m * 10^x` as reals.
 */
module Digits {
  import opened Arithmetic

  function Pow10(n: nat): (p: nat)
    ensures p >= 1
  {
    if n == 0 then 1 else 10 * Pow10(n - 1)
  }

  lemma {:induction false} Pow10Add(a: nat, b: nat)
    ensures Pow10(a + b) == Pow10(a) * Pow10(b)
  {
    if a != 0 {
      Pow10Add(a - 1, b);
    }
  }

  lemma {:induction false} Pow10Monotone(a: nat, b: nat)
    requires a <= b
    ensures Pow10(a) <= Pow10(b)
    ensures a < b ==> 10 * Pow10(a) <= Pow10(b)
    decreases b - a
  {
    if a < b {
      Pow10Monotone(a + 1, b);
    }
  }

  /** divmod(n, d) */
  function DivMod(n: nat, d: nat): (r: (nat, nat))
    requires d > 0
    ensures n == r.0 * d + r.1 && r.1 < d
  {
    (n / d, n % d)
  }

  /** n * 10^k */
  function Shl(n: int, k: nat): (r: int)
    ensures n >= 0 ==> r >= 0
    ensures n >= 1 ==> r >= 1
  {
    MulSign(n, Pow10(k));
    n * Pow10(k)
  }

  lemma MulSign(n: int, p: int)
    requires p >= 1
    ensures n >= 0 ==> n * p >= 0
    ensures n >= 1 ==> n * p >= 1
  {
    if n >= 1 { MulOrder(1, n, p); }
  }

  lemma DivSign(n: nat, p: int)
    requires p >= 1
    ensures n / p >= 0
  {
  }

  // ---------- digit strings ----------

  predicate IsDigit(c: char) {
    '0' <= c <= '9'
  }

  predicate AllDigits(s: string) {
    forall i | 0 <= i < |s| :: IsDigit(s[i])
  }

  function DigitVal(c: char): (d: nat)
    requires IsDigit(c)
    ensures d < 10
  {
    c as int - '0' as int
  }

  function DigitChar(d: nat): (c: char)
    requires d < 10
    ensures IsDigit(c) && DigitVal(c) == d
  {
    ('0' as int + d) as char
  }

  /** int(s), for a possibly empty string of digits. */
  function Val(s: string): nat
    requires AllDigits(s)
  {
    if s == "" then 0 else 10 * Val(s[..|s| - 1]) + DigitVal(s[|s| - 1])
  }

  /** str(n) */
  function Str(n: nat): (s: string)
    ensures s != "" && AllDigits(s)
  {
    if n < 10 then [DigitChar(n)] else Str(n / 10) + [DigitChar(n % 10)]
  }

  /** A coefficient as the constructors produce it: no leading zero, except "0" itself. */
  predicate Canonical(s: string) {
    s != "" && AllDigits(s) && (s[0] == '0' ==> |s| == 1)
  }

  function Zeros(n: nat): (s: string)
    ensures |s| == n && AllDigits(s) && forall i | 0 <= i < n :: s[i] == '0'
  {
    seq(n, _ => '0')
  }

  lemma {:induction false} ValConcat(s: string, t: string)
    requires AllDigits(s) && AllDigits(t)
    ensures AllDigits(s + t)
    ensures Val(s + t) == Val(s) * Pow10(|t|) + Val(t)
  {
    if t == "" {
      assert s + t == s;
    } else {
      var t' := t[..|t| - 1];
      ValConcat(s, t');
      assert (s + t)[..|s + t| - 1] == s + t';
      assert (s + t)[|s + t| - 1] == t[|t| - 1];
      assert Pow10(|t|) == 10 * Pow10(|t'|);
      MulScale(Val(s), Pow10(|t'|), 10);
    }
  }

  lemma ValSplit(s: string, k: nat)
    requires AllDigits(s) && k <= |s|
    ensures AllDigits(s[..k]) && AllDigits(s[k..])
    ensures Val(s) == Val(s[..k]) * Pow10(|s| - k) + Val(s[k..])
  {
    assert s == s[..k] + s[k..];
    ValConcat(s[..k], s[k..]);
  }

  lemma {:induction false} ValUpper(s: string)
    requires AllDigits(s)
    ensures Val(s) < Pow10(|s|)
  {
    if s != "" {
      ValUpper(s[..|s| - 1]);
    }
  }

  lemma {:induction false} ValZeros(s: string)
    requires AllDigits(s)
    ensures Val(s) == 0 <==> forall i | 0 <= i < |s| :: s[i] == '0'
  {
    if s != "" {
      var s' := s[..|s| - 1];
      ValZeros(s');
      assert forall i | 0 <= i < |s'| :: s'[i] == s[i];
      assert DigitVal(s[|s| - 1]) == 0 <==> s[|s| - 1] == '0';
    }
  }

  /** The first digit fixes the order of magnitude. */
  lemma ValLeading(s: string)
    requires AllDigits(s) && s != ""
    ensures DigitVal(s[0]) * Pow10(|s| - 1) <= Val(s) < (DigitVal(s[0]) + 1) * Pow10(|s| - 1)
  {
    ValSplit(s, 1);
    ValUpper(s[1..]);
    assert Val(s[..1]) == DigitVal(s[0]) by { assert s[..1][..0] == ""; }
  }

  lemma CanonicalBounds(s: string)
    requires Canonical(s)
    ensures Val(s) < Pow10(|s|)
    ensures Val(s) == 0 <==> s == "0"
    ensures Val(s) != 0 ==> Pow10(|s| - 1) <= Val(s)
  {
    ValUpper(s);
    if s[0] == '0' {
      assert s == "0";
      assert s[..0] == "";
    } else {
      ValLeading(s);
      MulOrder(1, DigitVal(s[0]), Pow10(|s| - 1));
    }
  }

  lemma {:induction false} StrVal(n: nat)
    ensures Canonical(Str(n)) && Val(Str(n)) == n
  {
    var s := Str(n);
    if n < 10 {
      assert s[..0] == "";
    } else {
      StrVal(n / 10);
      assert s[..|s| - 1] == Str(n / 10);
      CanonicalBounds(Str(n / 10));
    }
  }

  /** Canonical strings are determined by their value. */
  lemma {:induction false} ValStr(s: string)
    requires Canonical(s)
    ensures Str(Val(s)) == s
  {
    var s' := s[..|s| - 1];
    assert s == s' + [s[|s| - 1]];
    if |s| == 1 {
      assert s' == "";
    } else {
      ValStr(s');
      CanonicalBounds(s');
      assert s'[0] == s[0];
    }
  }

  /** How many digits str(n) has. */
  lemma StrLength(n: nat, k: nat)
    requires k >= 1 && n < Pow10(k) && (k == 1 || Pow10(k - 1) <= n)
    ensures |Str(n)| == k
  {
    StrVal(n);
    CanonicalBounds(Str(n));
    var l := |Str(n)|;
    if l < k {
      Pow10Monotone(l, k - 1);
    } else if k < l {
      Pow10Monotone(k, l - 1);
    }
  }

  lemma ValPadded(s: string, n: nat)
    requires AllDigits(s)
    ensures AllDigits(s + Zeros(n)) && Val(s + Zeros(n)) == Val(s) * Pow10(n)
  {
    ValConcat(s, Zeros(n));
    ValZeros(Zeros(n));
  }

  // ---------- scaled values ----------

  /** 10^x for any integer x. */
  function Ten(x: int): (r: real)
    ensures r > 0.0
    decreases if x < 0 then -x else x
  {
    if x == 0 then 1.0 else if x > 0 then 10.0 * Ten(x - 1) else Ten(x + 1) / 10.0
  }

  /** m * 10^x */
  function Scaled(m: int, x: int): real {
    m as real * Ten(x)
  }

  lemma TenStep(x: int)
    ensures Ten(x + 1) == 10.0 * Ten(x)
  {
  }

  lemma {:induction false} TenShift(x: int, n: nat)
    ensures Ten(x + n) == Scaled(Pow10(n), x)
  {
    if n == 0 {
      UnitScaled(x);
    } else {
      TenShift(x, n - 1);
      TenStep(x + (n - 1));
      TenFold(Pow10(n - 1), x);
      hide Scaled, Ten;
    }
  }

  lemma UnitScaled(x: int)
    ensures Scaled(1, x) == Ten(x)
  {
    hide Ten;
  }

  lemma TenFold(p: int, x: int)
    ensures 10.0 * Scaled(p, x) == Scaled(10 * p, x)
  {
    hide Ten;
    RealScale(p as real, Ten(x), 10.0);
    assert (10 * p) as real == 10.0 * (p as real);
  }

  lemma {:induction false} TenNat(n: nat)
    ensures Ten(n) == Pow10(n) as real
  {
    if n != 0 {
      TenNat(n - 1);
    }
  }

  lemma TenAdd(x: int, y: int)
    ensures Ten(x + y) == Ten(x) * Ten(y)
  {
    hide Ten, Pow10;
    if y >= 0 {
      TenShift(x, y);
      TenNat(y);
      var p := Pow10(y) as real;
      assert Ten(y) == p;
      assert Ten(x + y) == p * Ten(x);
    } else {
      TenNegative(x, y);
    }
  }

  lemma TenNegative(x: int, y: int)
    requires y < 0
    ensures Ten(x + y) == Ten(x) * Ten(y)
  {
    hide Ten, Pow10;
    var z := x + y;
    TenShift(z, -y);
    TenInverse(y);
    UnitInverse(Pow10(-y) as real, Ten(z), Ten(y), Ten(x));
  }

  lemma TenInverse(y: int)
    requires y < 0
    ensures Pow10(-y) as real * Ten(y) == 1.0
  {
    TenShift(y, -y);
    assert y + -y == 0;
  }

  lemma UnitInverse(p: real, t: real, u: real, w: real)
    requires p * u == 1.0 && w == p * t
    ensures t == w * u
  {
    RealScale(t, u, p);
  }

  lemma ScaledShift(m: int, x: int, y: int)
    requires y <= x
    ensures Scaled(m, x) == Scaled(m * Pow10(x - y), y)
  {
    TenShift(y, x - y);
    RealScale(m as real, Ten(y), Pow10(x - y) as real);
  }

  lemma ScaledOrder(m: int, n: int, x: int)
    ensures m <= n <==> Scaled(m, x) <= Scaled(n, x)
    ensures m < n <==> Scaled(m, x) < Scaled(n, x)
  {
    var t := Ten(x);
    assert (n as real - m as real) * t == Scaled(n, x) - Scaled(m, x);
    if m < n { assert (n as real - m as real) * t > 0.0; }
    if n < m { assert (m as real - n as real) * t > 0.0; }
  }

  lemma TenMonotone(x: int, y: int)
    ensures x <= y <==> Ten(x) <= Ten(y)
  {
    if x <= y {
      ScaledShift(1, y, x);
      ScaledOrder(1, Pow10(y - x), x);
    } else {
      ScaledShift(1, x, y);
      Pow10Monotone(1, x - y);
      ScaledOrder(1, Pow10(x - y), y);
    }
  }

  /** A value with at most `k` digits at exponent `x` stays below 10^(x + k). */
  lemma ScaledMagnitude(m: nat, x: int, k: nat, y: int)
    requires m < Pow10(k) && x + k <= y
    ensures Scaled(m, x) < Ten(y)
  {
    ScaledOrder(m, Pow10(k), x);
    TenShift(x, k);
    TenMonotone(x + k, y);
  }
}
