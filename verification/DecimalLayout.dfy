/** Where the digits, the point and the exponent stand in a printed number. */
module DecimalLayout {
  import opened Arithmetic
  import opened DecimalCore
  import opened DecimalGrammar
  import opened DecimalText
  import opened Digits

  /** The number is written out, without an exponent. */
  predicate IsPlain(d: Decimal)
    requires d.Finite?
  {
    d.exp <= 0 && -6 <= d.Adjusted()
  }

  /** Plain: as many digits after the point as the exponent says, and a point only if there are any. */
  predicate PlainLayout(d: Decimal, p: Body)
    requires d.Finite? && p.Number?
  {
    && p.mark == "" && |p.frac| == -d.exp && (p.dotted <==> d.exp < 0)
    && |p.ip| == if d.Adjusted() < 0 then 1 else d.Adjusted() + 1
  }

  /** Scientific: one digit before the point, and the adjusted exponent. */
  predicate ScientificLayout(d: Decimal, p: Body)
    requires d.Finite? && p.Number? && p.Valid()
  {
    && |p.ip| == 1 && |p.frac| == |d.coeff| - 1 && (p.dotted <==> |d.coeff| > 1)
    && p.mark != "" && ExponentValue(p.sign, p.digits) == d.Adjusted()
  }

  /**
   Engineering: one to three digits before the point, and an exponent divisible by three, left out when it is zero.
   */
  predicate EngineeringLayout(d: Decimal, p: Body)
    requires d.Finite? && p.Number? && p.Valid()
  {
    var e := ExponentValue(p.sign, p.digits);
    && e % 3 == 0
    && if d.coeff == "0" then p.ip == "0" && |p.frac| <= 2 && p.mark != ""
       else 1 <= |p.ip| <= 3 && e <= d.Adjusted() < e + 3 && (p.mark == "" <==> 0 <= d.Adjusted() <= 2)
  }

  /** The printed text: its parts, the letter of the exponent with an explicit sign, and the layout. */
  predicate IsLaidOut(d: Decimal, eng: bool, capitals: bool, text: string, p: Body)
    requires d.Finite?
  {
    && p.Number? && p.Valid() && text == (if d.neg then "-" else "") + p.Text()
    && (p.mark == ""
       || (p.mark == (if capitals then "E" else "e") && p.sign != "" && Canonical(p.digits) && p.digits != "0"))
    && if IsPlain(d) then PlainLayout(d, p) else if eng then EngineeringLayout(d, p) else ScientificLayout(d, p)
  }

  // ---------- the parts that are printed ----------

  lemma PrintedTail(e: int, capitals: bool) returns (mark: string, sign: string, digits: string)
    ensures IsExponent(mark, sign, digits) && AllDigits(digits)
            && ExponentText(e, capitals) == TailText(mark, sign, digits)
    ensures ExponentValue(sign, digits) == e && (mark == "" <==> e == 0)
    ensures mark == "" || (mark == (if capitals then "E" else "e") && sign != "" && Canonical(digits) && digits != "0")
  {
    if e == 0 {
      mark, sign, digits := "", "", "";
    } else {
      mark, sign, digits := if capitals then "E" else "e", if e < 0 then "-" else "+", Str(Abs(e));
      StrVal(Abs(e));
      CanonicalBounds(digits);
    }
  }

  lemma PrintedParts(d: Decimal, eng: bool, capitals: bool) returns (p: Body)
    requires d.Finite? && d.Valid()
    ensures p.Number? && p.Valid() && ToText(d, eng, capitals) == (if d.neg then "-" else "") + p.Text()
    ensures (p.ip, p.frac, p.dotted) == PartsOf(d.coeff, DotPlace(d, eng))
    ensures ExponentValue(p.sign, p.digits) == d.exp + |d.coeff| - DotPlace(d, eng)
    ensures p.mark == "" <==> d.exp + |d.coeff| == DotPlace(d, eng)
    ensures p.mark == ""
            || (p.mark == (if capitals then "E" else "e") && p.sign != "" && Canonical(p.digits) && p.digits != "0")
  {
    hide NumberText, ExponentText, DotPlace, PartsOf, Val, Str, TailText, Canonical, IsExponent, ExponentValue;
    var place := DotPlace(d, eng);
    var (ip, frac, dotted) := PartsOf(d.coeff, place);
    PartsMeaning(d, place);
    var mark, sign, digits := PrintedTail(d.exp + |d.coeff| - place, capitals);
    p := Number(ip, frac, dotted, mark, sign, digits);
    ConcatThree(ip, Pointed(frac, dotted), TailText(mark, sign, digits));
    hide Pointed;
  }

  lemma ConcatThree(a: string, b: string, c: string)
    ensures (a + b) + c == a + (b + c)
  {
  }

  lemma PartSizes(d: Decimal, place: int, p: Body)
    requires d.Finite? && d.coeff != "" && p.Number? && (p.ip, p.frac, p.dotted) == PartsOf(d.coeff, place)
    ensures Sized(d, place, p)
  {
    assert "0" + Zeros(0) == "0";
  }

  /** Every finite decimal is laid out as the notation says. */
  lemma Layout(d: Decimal, eng: bool, capitals: bool) returns (p: Body)
    requires d.Finite? && d.Valid()
    ensures IsLaidOut(d, eng, capitals, ToText(d, eng, capitals), p)
  {
    p := PrintedParts(d, eng, capitals);
    PartSizes(d, DotPlace(d, eng), p);
    PlaceMeaning(d, eng);
    hide *;
    if IsPlain(d) {
      PlainCase(d, DotPlace(d, eng), p);
    } else if eng {
      EngineeringCase(d, DotPlace(d, eng), p);
    } else {
      ScientificCase(d, DotPlace(d, eng), p);
    }
    Assembled(d, eng, capitals, ToText(d, eng, capitals), p);
  }

  lemma Assembled(d: Decimal, eng: bool, capitals: bool, text: string, p: Body)
    requires d.Finite? && p.Number? && p.Valid() && text == (if d.neg then "-" else "") + p.Text()
    requires p.mark == ""
             || (p.mark == (if capitals then "E" else "e") && p.sign != "" && Canonical(p.digits) && p.digits != "0")
    requires if IsPlain(d) then PlainLayout(d, p) else if eng then EngineeringLayout(d, p) else ScientificLayout(d, p)
    ensures IsLaidOut(d, eng, capitals, text, p)
  {
  }

  /** How long the parts are when the point goes to `place`. */
  predicate Sized(d: Decimal, place: int, p: Body)
    requires d.Finite? && p.Number?
  {
    var n := |d.coeff|;
    && n >= 1
    && (place <= 0 ==> p.ip == "0" && |p.frac| == n - place && p.dotted)
    && (place >= n ==> |p.ip| == place && p.frac == "" && !p.dotted)
    && (0 < place < n ==> |p.ip| == place && |p.frac| == n - place && p.dotted)
    && (place == 1 && d.coeff == "0" ==> p.ip == "0")
  }

  lemma PlainCase(d: Decimal, place: int, p: Body)
    requires d.Finite? && p.Number? && Sized(d, place, p) && IsPlain(d) && place == d.Adjusted() + 1
    requires p.mark == "" <==> d.exp + |d.coeff| == place
    ensures PlainLayout(d, p)
  {
  }

  lemma ScientificCase(d: Decimal, place: int, p: Body)
    requires d.Finite? && p.Number? && p.Valid() && Sized(d, place, p) && place == 1 && d.Adjusted() != 0
    requires (p.mark == "" <==> d.exp + |d.coeff| == place)
             && ExponentValue(p.sign, p.digits) == d.exp + |d.coeff| - place
    ensures ScientificLayout(d, p)
  {
    hide ExponentValue, Body.Valid;
  }

  lemma EngineeringCase(d: Decimal, place: int, p: Body)
    requires d.Finite? && p.Number? && p.Valid() && Sized(d, place, p)
    requires (p.mark == "" <==> d.exp + |d.coeff| == place)
             && ExponentValue(p.sign, p.digits) == d.exp + |d.coeff| - place
    requires d.coeff != "0" ==> place == d.Adjusted() % 3 + 1
    requires d.coeff == "0" ==> -1 <= place <= 1 && (d.Adjusted() + 1 - place) % 3 == 0 && d.Adjusted() + 1 != place
    ensures EngineeringLayout(d, p)
  {
    Thirds(d.Adjusted());
    hide ExponentValue, Body.Valid;
  }

  lemma Thirds(a: int)
    ensures (a - a % 3) % 3 == 0 && a - a % 3 <= a < a - a % 3 + 3 && (a - a % 3 == 0 <==> 0 <= a <= 2)
  {
  }

  /** Where the point goes, in terms of the adjusted exponent. */
  lemma PlaceMeaning(d: Decimal, eng: bool)
    requires d.Finite? && d.Valid()
    ensures var place, a := DotPlace(d, eng), d.Adjusted();
      && (IsPlain(d) ==> place == a + 1)
      && (!IsPlain(d) && !eng ==> place == 1 && a != 0)
      && (!IsPlain(d) && eng && d.coeff != "0" ==> place == a % 3 + 1)
      && (!IsPlain(d) && eng && d.coeff == "0" ==> -1 <= place <= 1 && (a + 1 - place) % 3 == 0 && a + 1 != place)
  {
  }

  // ---------- the parts can be read off the text ----------

  function TextParts(s: string): Body {
    var i := SpanDigits(s);
    var (frac, tail) := SplitFraction(s[i..]);
    var rest := if tail == "" then "" else tail[1..];
    var signed := rest != "" && rest[0] in "+-";
    Number(s[..i], frac, s[i..] != "" && s[i..][0] == '.', if tail == "" then "" else [tail[0]],
           if signed then [rest[0]] else "", if signed then rest[1..] else rest)
  }

  lemma PartsReadOff(p: Body)
    requires p.Number? && p.Valid()
    ensures TextParts(p.Text()) == p
  {
    FieldsReadOff(p.ip, p.frac, p.dotted, p.mark, p.sign, p.digits);
    hide TextParts, AllDigits, Pointed, TailText, IsExponent;
  }

  lemma FieldsReadOff(ip: string, frac: string, dotted: bool, mark: string, sign: string, digits: string)
    requires AllDigits(ip) && AllDigits(frac) && AllDigits(digits) && (dotted || frac == "")
    requires IsExponent(mark, sign, digits)
    ensures TextParts(ip + (Pointed(frac, dotted) + TailText(mark, sign, digits)))
            == Number(ip, frac, dotted, mark, sign, digits)
  {
    hide SpanDigits, SplitFraction, TailText, IsExponent;
    var tail := TailText(mark, sign, digits);
    var rest := Pointed(frac, dotted) + tail;
    TailStart(mark, sign, digits);
    RestReads(frac, dotted, tail);
    SpanOfPrefix(ip, rest);
    assert (ip + rest)[..|ip|] == ip && (ip + rest)[|ip|..] == rest;
    TailReadOff(mark, sign, digits);
    assert dotted ==> rest[0] == '.';
    assert !dotted ==> rest == tail;
  }

  lemma TailReadOff(mark: string, sign: string, digits: string)
    requires IsExponent(mark, sign, digits) && AllDigits(digits)
    ensures var tail := TailText(mark, sign, digits);
            var rest := if tail == "" then "" else tail[1..];
            var signed := rest != "" && rest[0] in "+-";
      && mark == (if tail == "" then "" else [tail[0]]) && sign == (if signed then [rest[0]] else "")
      && digits == if signed then rest[1..] else rest
  {
    var tail := TailText(mark, sign, digits);
    if mark != "" {
      assert tail[1..] == sign + digits;
      if sign == "" {
        assert sign + digits == digits && IsDigit(digits[0]);
      } else {
        assert (sign + digits)[1..] == digits;
      }
    }
  }

  /** A text has one way to be taken apart, so the layout is a property of the text. */
  lemma OneLayout(p: Body, p': Body)
    requires p.Number? && p.Valid() && p'.Number? && p'.Valid() && p.Text() == p'.Text()
    ensures p == p'
  {
    PartsReadOff(p);
    PartsReadOff(p');
    hide Body.Text, Body.Valid, TextParts;
  }

  /** The texts of the special values. */
  lemma SpecialTexts(neg: bool, payload: string, eng: bool, capitals: bool)
    ensures ToText(Infinity(neg), eng, capitals) == if neg then "-Infinity" else "Infinity"
    ensures ToText(NaN(neg, payload, false), eng, capitals) == (if neg then "-NaN" else "NaN") + payload
    ensures ToText(NaN(neg, payload, true), eng, capitals) == (if neg then "-sNaN" else "sNaN") + payload
  {
    ConcatThree("-", "NaN", payload);
    ConcatThree("-", "sNaN", payload);
    assert "-" + "Infinity" == "-Infinity" && "-" + "NaN" == "-NaN" && "-" + "sNaN" == "-sNaN";
    ConcatThree("", "NaN", payload);
    ConcatThree("", "sNaN", payload);
  }
}
