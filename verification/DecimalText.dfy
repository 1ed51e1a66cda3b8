/** Printing in scientific and engineering notation, parsing, and the round trip. */
module DecimalText {
  import opened DecimalCore
  import opened DecimalFix
  import opened Digits
  import opened Sequences

  // ---------- printing ----------

  /** "%+d" % n */
  function SignedText(n: int): string {
    if n < 0 then "-" + Str(-n) else "+" + Str(n)
  }

  function DotPlace(d: Decimal, eng: bool): int
    requires d.Finite?
  {
    var leftDigits := d.exp + |d.coeff|;
    if d.exp <= 0 && leftDigits > -6 then leftDigits
    else if !eng then 1
    else if d.coeff == "0" then (leftDigits + 1) % 3 - 1
    else (leftDigits - 1) % 3 + 1
  }

  function NumberText(d: Decimal, dotPlace: int): string
    requires d.Finite?
  {
    var n := |d.coeff|;
    if dotPlace <= 0 then "0" + "." + Zeros(-dotPlace) + d.coeff
    else if dotPlace >= n then d.coeff + Zeros(dotPlace - n)
    else d.coeff[..dotPlace] + "." + d.coeff[dotPlace..]
  }

  function ExponentText(exponent: int, capitals: bool): string {
    if exponent == 0 then "" else (if capitals then "E" else "e") + SignedText(exponent)
  }

  /** `__str__` and, with `eng`, `to_eng_string` */
  function ToText(d: Decimal, eng: bool, capitals: bool): string {
    (if d.neg then "-" else "") +
    match d
    case Infinity(_) => "Infinity"
    case NaN(_, p, false) => "NaN" + p
    case NaN(_, p, true) => "sNaN" + p
    case Finite(_, s, x) =>
      var dotPlace := DotPlace(d, eng);
      var exponent := x + |s| - dotPlace;
      NumberText(d, dotPlace) + ExponentText(exponent, capitals)
  }

  // ---------- parsing ----------

  /** How many leading characters are digits. */
  function SpanDigits(s: string): (n: nat)
    ensures n <= |s| && AllDigits(s[..n]) && (n < |s| ==> !IsDigit(s[n]))
  {
    if s != "" && IsDigit(s[0]) then
      var n := SpanDigits(s[1..]);
      assert s[..n + 1] == [s[0]] + s[1..][..n];
      n + 1
    else 0
  }

  /** `[-+]?\d+` */
  function ParseInt(s: string): Option<int> {
    var signed := s != "" && s[0] in "+-";
    var digits := if signed then s[1..] else s;
    if digits == "" || SpanDigits(digits) != |digits| then None
    else
      assert digits[..|digits|] == digits;
      Some(if signed && s[0] == '-' then 0 - Val(digits) else Val(digits))
  }

  /** `(\.(?P<frac>\d*))?`: the fraction digits and what follows them. */
  function SplitFraction(rest: string): (p: (string, string))
    ensures AllDigits(p.0)
  {
    if rest != "" && rest[0] == '.' then
      var j := SpanDigits(rest[1..]);
      (rest[1..][..j], rest[1..][j..])
    else ("", rest)
  }

  /** `(E(?P<exp>[-+]?\d+))?\Z` */
  function ParseTail(tail: string): Option<int> {
    if tail == "" then Some(0) else if tail[0] in "eE" then ParseInt(tail[1..]) else None
  }

  /** The number alternative: digits, an optional fraction, an optional exponent, at least one digit. */
  function ParseNumber(neg: bool, s: string): Option<Decimal> {
    var i := SpanDigits(s);
    var (frac, tail) := SplitFraction(s[i..]);
    if i + |frac| == 0 then None
    else
      match ParseTail(tail)
      case None => None
      case Some(e) => Some(Finite(neg, Str(Val(s[..i] + frac)), e - |frac|))
  }

  function Lower(c: char): char {
    if 'A' <= c <= 'Z' then (c as int + 32) as char else c
  }

  /** Case-insensitive literal match at the front. */
  predicate HasPrefix(s: string, lower: string) {
    |lower| <= |s| && forall i | 0 <= i < |lower| :: Lower(s[i]) == lower[i]
  }

  predicate Matches(s: string, lower: string) {
    |s| == |lower| && HasPrefix(s, lower)
  }

  function ParseNaN(neg: bool, signaling: bool, s: string): Option<Decimal> {
    if HasPrefix(s, "nan") && SpanDigits(s[3..]) == |s[3..]| then
      assert s[3..][..|s[3..]|] == s[3..];
      Some(NaN(neg, StripZeros(Str(Val(s[3..]))), signaling))
    else None
  }

  function ParseBody(neg: bool, s: string): Option<Decimal> {
    match ParseNumber(neg, s)
    case Some(d) => Some(d)
    case None =>
      if Matches(s, "inf") || Matches(s, "infinity") then Some(Infinity(neg))
      else if s != "" && Lower(s[0]) == 's' then ParseNaN(neg, true, s[1..])
      else ParseNaN(neg, false, s)
  }

  /** The blanks of ASCII that `strip` takes away. */
  predicate IsSpace(c: char) {
    c == ' ' || '\t' <= c <= '\r' || '\U{1c}' <= c <= '\U{1f}'
  }

  function Strip(s: string): string {
    if s != "" && IsSpace(s[0]) then Strip(s[1..])
    else if s != "" && IsSpace(s[|s| - 1]) then Strip(s[..|s| - 1])
    else s
  }

  /** replace("_", "") */
  function DropUnderscores(s: string): string {
    if s == "" then ""
    else if s[0] == '_' then DropUnderscores(s[1..])
    else [s[0]] + DropUnderscores(s[1..])
  }

  /** The string branch of the constructor, over ASCII text; None is ConversionSyntax. */
  function Parse(text: string): Option<Decimal> {
    var s := DropUnderscores(Strip(text));
    if s != "" && s[0] in "+-" then ParseBody(s[0] == '-', s[1..]) else ParseBody(false, s)
  }

  // ---------- the round trip ----------

  lemma {:induction false} SpanOfPrefix(a: string, b: string)
    requires AllDigits(a) && (b == "" || !IsDigit(b[0]))
    ensures SpanDigits(a + b) == |a|
  {
    if a == "" {
      assert a + b == b;
    } else {
      assert (a + b)[1..] == a[1..] + b;
      SpanOfPrefix(a[1..], b);
    }
  }

  lemma ParseSigned(n: int)
    ensures ParseInt(SignedText(n)) == Some(n)
  {
    StrVal(if n < 0 then -n else n);
    ParseSign(if n < 0 then '-' else '+', Str(if n < 0 then -n else n));
    hide Str, Val, ParseInt;
  }

  lemma ParseSign(sign: char, t: string)
    requires (sign == '-' || sign == '+') && AllDigits(t) && t != ""
    ensures ParseInt([sign] + t) == Some(if sign == '-' then 0 - Val(t) else Val(t))
  {
    var s := [sign] + t;
    assert s[1..] == t && s[0] == sign;
    assert t + "" == t;
    SpanOfPrefix(t, "");
    hide SpanDigits, Val;
  }

  lemma ParseExponentText(e: int, capitals: bool)
    ensures ParseTail(ExponentText(e, capitals)) == Some(e)
    ensures ExponentText(e, capitals) == ""
            || (!IsDigit(ExponentText(e, capitals)[0]) && ExponentText(e, capitals)[0] != '.')
  {
    if e != 0 {
      assert ExponentText(e, capitals)[1..] == SignedText(e);
      hide ParseInt, SignedText;
      ParseSigned(e);
    }
  }

  /** The fraction part as printed: a point and digits, or nothing. */
  function Pointed(frac: string, dotted: bool): string {
    if dotted then "." + frac else ""
  }

  lemma SplitPointed(frac: string, dotted: bool, tail: string)
    requires AllDigits(frac) && (dotted || frac == "") && (tail == "" || (!IsDigit(tail[0]) && tail[0] != '.'))
    ensures SplitFraction(Pointed(frac, dotted) + tail) == (frac, tail)
    ensures Pointed(frac, dotted) + tail == "" || !IsDigit((Pointed(frac, dotted) + tail)[0])
  {
    var rest := Pointed(frac, dotted) + tail;
    if dotted {
      assert rest[1..] == frac + tail;
      SpanOfPrefix(frac, tail);
      assert (frac + tail)[..|frac|] == frac && (frac + tail)[|frac|..] == tail;
    } else {
      assert rest == tail;
    }
  }

  /** What is parsed from an integer part, a fraction part and an exponent part. */
  lemma ParseParts(neg: bool, ip: string, frac: string, dotted: bool, e: int, capitals: bool)
    requires AllDigits(ip) && AllDigits(frac) && ip != "" && (dotted || frac == "")
    ensures AllDigits(ip + frac)
    ensures ParseNumber(neg, ip + (Pointed(frac, dotted) + ExponentText(e, capitals))) ==
            Some(Finite(neg, Str(Val(ip + frac)), e - |frac|))
  {
    var tail := ExponentText(e, capitals);
    var rest := Pointed(frac, dotted) + tail;
    hide ParseTail, ExponentText, SplitFraction, SpanDigits, Val, Str, Pointed;
    ParseExponentText(e, capitals);
    SplitPointed(frac, dotted, tail);
    SpanOfPrefix(ip, rest);
    assert (ip + rest)[..|ip|] == ip && (ip + rest)[|ip|..] == rest;
  }

  /** How many zeros printing adds to the coefficient. */
  function AddedZeros(d: Decimal, eng: bool): (k: nat)
    requires d.Finite?
    ensures !eng && d.Valid() ==> k == 0
  {
    var dotPlace := DotPlace(d, eng);
    if dotPlace >= 1 && dotPlace > |d.coeff| then dotPlace - |d.coeff| else 0
  }

  /** The printed digits as an integer part and a fraction part. */
  function PartsOf(s: string, p: int): (string, string, bool) {
    if p <= 0 then ("0", Zeros(-p) + s, true)
    else if p >= |s| then (s + Zeros(p - |s|), "", false)
    else (s[..p], s[p..], true)
  }

  lemma PartsMeaning(d: Decimal, p: int)
    requires d.Finite? && d.Valid()
    ensures var (ip, frac, dotted) := PartsOf(d.coeff, p);
            var k := if p >= 1 && p > |d.coeff| then p - |d.coeff| else 0;
      && AllDigits(ip) && AllDigits(frac) && AllDigits(ip + frac) && ip != "" && (dotted || frac == "")
      && NumberText(d, p) == ip + Pointed(frac, dotted)
      && Val(ip + frac) == Val(d.coeff) * Pow10(k)
      && |frac| == |d.coeff| - p + k
  {
    var s := d.coeff;
    assert Val(s) * Pow10(0) == Val(s);
    if p <= 0 {
      LeadingZeros(s, -p);
      assert NumberText(d, p) == "0" + ("." + (Zeros(-p) + s));
    } else if p >= |s| {
      ValPadded(s, p - |s|);
      assert (s + Zeros(p - |s|)) + "" == s + Zeros(p - |s|);
    } else {
      assert s[..p] + s[p..] == s;
      assert NumberText(d, p) == s[..p] + ("." + s[p..]);
    }
  }

  /** What is parsed from the printed digits around a decimal point. */
  lemma ParseNumberText(d: Decimal, p: int, e: int, capitals: bool)
    requires d.Finite? && d.Valid() && e == d.exp + |d.coeff| - p
    ensures var k := if p >= 1 && p > |d.coeff| then p - |d.coeff| else 0;
            ParseNumber(d.neg, NumberText(d, p) + ExponentText(e, capitals)) ==
            Some(Finite(d.neg, Str(Val(d.coeff) * Pow10(k)), d.exp - k))
  {
    hide ParseNumber, ExponentText, Str, PartsOf, NumberText, Val, Pow10, Pointed;
    var (ip, frac, dotted) := PartsOf(d.coeff, p);
    var tail := ExponentText(e, capitals);
    PartsMeaning(d, p);
    ParseParts(d.neg, ip, frac, dotted, e, capitals);
    assert NumberText(d, p) + tail == ip + (Pointed(frac, dotted) + tail);
  }

  lemma LeadingZeros(s: string, k: nat)
    requires AllDigits(s)
    ensures AllDigits(Zeros(k) + s) && AllDigits("0" + (Zeros(k) + s))
    ensures Val("0" + (Zeros(k) + s)) == Val(s)
  {
    ValConcat("0", Zeros(k) + s);
    ValConcat(Zeros(k), s);
    ValZeros(Zeros(k));
    ValZeros("0");
  }

  /** Printed text has no blanks or underscores, so cleaning leaves it alone. */
  predicate Plain(s: string) {
    forall i | 0 <= i < |s| :: !IsSpace(s[i]) && s[i] != '_'
  }

  lemma CleanPlain(s: string)
    requires Plain(s)
    ensures DropUnderscores(Strip(s)) == s
  {
    if s != "" {
      assert Strip(s) == s;
    }
    DropPlain(s);
  }

  lemma {:induction false} DropPlain(s: string)
    requires Plain(s)
    ensures DropUnderscores(s) == s
  {
    if s != "" {
      assert Plain(s[1..]);
      DropPlain(s[1..]);
    }
  }

  lemma PlainDigits(s: string)
    requires AllDigits(s)
    ensures Plain(s)
  {
    forall i | 0 <= i < |s| ensures !IsSpace(s[i]) && s[i] != '_' {
      assert IsDigit(s[i]);
    }
  }

  lemma PlainNumber(d: Decimal, p: int)
    requires d.Finite? && d.Valid()
    ensures Plain(NumberText(d, p)) && NumberText(d, p) != "" && IsDigit(NumberText(d, p)[0])
  {
    var (ip, frac, dotted) := PartsOf(d.coeff, p);
    PartsMeaning(d, p);
    PlainDigits(ip);
    PlainDigits(frac);
    assert Plain(".") && Plain("");
    hide PartsOf, NumberText, Plain;
    PlainConcat(".", frac);
    PlainConcat(ip, Pointed(frac, dotted));
  }

  lemma PlainExponent(e: int, capitals: bool)
    ensures Plain(ExponentText(e, capitals))
  {
    var t := if e < 0 then Str(-e) else Str(e);
    PlainDigits(t);
    assert Plain("E") && Plain("e") && Plain("+") && Plain("-") && Plain("");
    hide Plain, Str;
    PlainConcat("+", t);
    PlainConcat("-", t);
    PlainConcat("E", SignedText(e));
    PlainConcat("e", SignedText(e));
  }

  /** Reading back printed text gives the number at the printed exponent. */
  lemma ReadBack(d: Decimal, eng: bool, capitals: bool)
    requires d.Finite? && d.Valid()
    ensures var k := AddedZeros(d, eng);
            Parse(ToText(d, eng, capitals)) == Some(Finite(d.neg, Str(Val(d.coeff) * Pow10(k)), d.exp - k))
  {
    hide ParseNumber, NumberText, ExponentText, DotPlace, Val, Pow10, Str, Parse, Plain;
    var p := DotPlace(d, eng);
    var e := d.exp + |d.coeff| - p;
    var body := NumberText(d, p) + ExponentText(e, capitals);
    PlainNumber(d, p);
    PlainExponent(e, capitals);
    PlainConcat(NumberText(d, p), ExponentText(e, capitals));
    ParseNumberText(d, p, e, capitals);
    ParsePlain(d.neg, body);
  }

  lemma PlainConcat(s: string, t: string)
    requires Plain(s) && Plain(t)
    ensures Plain(s + t)
  {
    hide IsSpace;
  }

  /** A plain body behind an optional minus sign is parsed as it stands. */
  lemma ParsePlain(neg: bool, body: string)
    requires Plain(body) && body != "" && body[0] !in "+-"
    ensures Parse((if neg then "-" else "") + body) == ParseBody(neg, body)
  {
    var text := (if neg then "-" else "") + body;
    PlainWords();
    CleanPlain(text);
    if neg {
      assert text[1..] == body;
    } else {
      assert text == body;
    }
  }

  /** Printing then parsing gives back the identical sign, digits and exponent. */
  lemma RoundTrip(d: Decimal, capitals: bool)
    requires d.Valid()
    ensures Parse(ToText(d, false, capitals)) == Some(d)
  {
    hide Parse, ParseBody, Val, Str, Pow10;
    match d
    case Finite(_, s, _) =>
      hide ToText;
      ReadBack(d, false, capitals);
      UnitPadding(s);
    case Infinity(neg) =>
      InfinityBack(neg);
      PlainWords();
      ParsePlain(neg, "Infinity");
    case NaN(neg, p, q) =>
      NaNBack(neg, p, q);
      PlainDigits(p);
      PlainWords();
      ParsePlain(neg, (if q then "sNaN" else "NaN") + p);
  }

  lemma UnitPadding(s: string)
    requires Canonical(s)
    ensures Str(Val(s) * Pow10(0)) == s
  {
    assert Val(s) * Pow10(0) == Val(s);
    ValStr(s);
  }

  lemma PlainWords()
    ensures Plain("NaN") && Plain("sNaN") && Plain("Infinity") && Plain("-")
  {
  }

  lemma InfinityBack(neg: bool)
    ensures ParseBody(neg, "Infinity") == Some(Infinity(neg))
  {
    assert SpanDigits("Infinity") == 0;
    assert "Infinity"[0..] == "Infinity";
  }

  lemma NaNBack(neg: bool, p: string, signaling: bool)
    requires p == "" || (Canonical(p) && p != "0")
    ensures ParseBody(neg, (if signaling then "sNaN" else "NaN") + p) == Some(NaN(neg, p, signaling))
  {
    var s := (if signaling then "sNaN" else "NaN") + p;
    assert SpanDigits(s) == 0 && s[0..] == s;
    assert SplitFraction(s) == ("", s);
    assert ParseNumber(neg, s) == None;
    PayloadBack(neg, p, signaling);
    if signaling { assert s[1..] == "NaN" + p; }
    hide ParseNumber, ParseNaN;
  }

  lemma PayloadBack(neg: bool, p: string, signaling: bool)
    requires p == "" || (Canonical(p) && p != "0")
    ensures ParseNaN(neg, signaling, "NaN" + p) == Some(NaN(neg, p, signaling))
  {
    var t := "NaN" + p;
    assert t[3..] == p;
    SpanOfPrefix(p, "");
    assert p + "" == p;
    StripPayload(p);
    hide Val, Str, SpanDigits, StripZeros;
  }

  lemma StripPayload(p: string)
    requires p == "" || (Canonical(p) && p != "0")
    ensures StripZeros(Str(Val(p))) == p
  {
    if p == "" {
      assert Str(0) == "0";
      assert "0"[1..] == "";
      assert StripZeros("0") == StripZeros("");
    } else {
      ValStr(p);
    }
  }

  /** Engineering notation keeps the numeric value and sign, with an exponent divisible by three. */
  lemma EngineeringKeepsValue(d: Decimal, capitals: bool)
    requires d.Finite? && d.Valid()
    ensures match Parse(ToText(d, true, capitals))
            case None => false
            case Some(r) => r.Finite? && r.neg == d.neg && r.Valid() && r.Value() == d.Value()
    ensures (d.exp + |d.coeff| - DotPlace(d, true)) % 3 == 0
  {
    hide Parse, ToText, Val, Str, AddedZeros, Scaled, Pow10;
    var k := AddedZeros(d, true);
    ReadBack(d, true, capitals);
    StrVal(Val(d.coeff) * Pow10(k));
    ScaledShift(Val(d.coeff), d.exp, d.exp - k);
  }
}
