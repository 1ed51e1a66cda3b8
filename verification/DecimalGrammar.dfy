/**
 The texts that the constructor reads, described by their parts, and what each of them stands for: it accepts exactly
 these texts.
 */
module DecimalGrammar {
  import opened DecimalCore
  import opened DecimalText
  import opened Digits
  import opened Sequences

  /** A text without its sign, in parts. */
  datatype Body =
    | Number(ip: string, frac: string, dotted: bool, mark: string, sign: string, digits: string)
    | Word(word: string)
    | NotANumber(signal: string, word: string, payload: string)
  {
    predicate Valid() {
      match this
      case Number(ip, frac, dotted, mark, sign, digits) =>
        && AllDigits(ip) && AllDigits(frac) && AllDigits(digits) && ip + frac != "" && (dotted || frac == "")
        && IsExponent(mark, sign, digits)
      case Word(word) => AnyCase(word, "inf") || AnyCase(word, "infinity")
      case NotANumber(signal, word, payload) =>
        (signal == "" || AnyCase(signal, "s")) && AnyCase(word, "nan") && AllDigits(payload)
    }

    function Text(): string {
      match this
      case Number(ip, frac, dotted, mark, sign, digits) => ip + (Pointed(frac, dotted) + TailText(mark, sign, digits))
      case Word(word) => word
      case NotANumber(signal, word, payload) => signal + (word + payload)
    }

    /** What the text stands for. */
    function Meaning(neg: bool): Decimal
      requires Valid()
    {
      match this
      case Number(ip, frac, _, _, sign, digits) =>
        Finite(neg, Str(Val(AllOf(ip, frac))), ExponentValue(sign, digits) - |frac|)
      case Word(_) => Infinity(neg)
      case NotANumber(signal, _, payload) =>
        NaN(neg, if Val(payload) == 0 then "" else Str(Val(payload)), signal != "")
    }
  }

  /** The digits before and after the point. */
  function AllOf(ip: string, frac: string): (r: string)
    requires AllDigits(ip) && AllDigits(frac)
    ensures AllDigits(r)
  {
    ip + frac
  }

  function TailText(mark: string, sign: string, digits: string): string {
    mark + (sign + digits)
  }

  /** No exponent at all, or a letter, an optional sign and some digits. */
  predicate IsExponent(mark: string, sign: string, digits: string) {
    || (mark == "" && sign == "" && digits == "")
    || ((mark == "e" || mark == "E") && (sign == "" || sign == "+" || sign == "-") && digits != "")
  }

  function ExponentValue(sign: string, digits: string): int
    requires AllDigits(digits)
  {
    if sign == "-" then 0 - Val(digits) else Val(digits)
  }

  /** The word in lower case, with any of its letters capital. */
  predicate AnyCase(s: string, lower: string) {
    |s| == |lower| && forall i | 0 <= i < |s| :: s[i] == lower[i] || s[i] as int + 32 == lower[i] as int
  }

  // ---------- the exponent ----------

  lemma TailAccepts(mark: string, sign: string, digits: string)
    requires IsExponent(mark, sign, digits) && AllDigits(digits)
    ensures ParseTail(TailText(mark, sign, digits)) == Some(ExponentValue(sign, digits))
  {
    var tail := TailText(mark, sign, digits);
    if mark != "" {
      assert tail[1..] == sign + digits;
      IntAccepts(sign, digits);
      hide ParseInt, Val;
    }
  }

  lemma IntAccepts(sign: string, digits: string)
    requires (sign == "" || sign == "+" || sign == "-") && AllDigits(digits) && digits != ""
    ensures ParseInt(sign + digits) == Some(ExponentValue(sign, digits))
  {
    var s := sign + digits;
    SpanOfPrefix(digits, "");
    assert digits + "" == digits;
    hide SpanDigits, Val;
    if sign == "" {
      assert s == digits && IsDigit(s[0]);
    } else {
      assert s[1..] == digits && s[0] == sign[0];
    }
  }

  lemma TailParts(tail: string) returns (mark: string, sign: string, digits: string)
    requires ParseTail(tail).Some?
    ensures IsExponent(mark, sign, digits) && AllDigits(digits) && tail == TailText(mark, sign, digits)
  {
    mark, sign, digits := "", "", "";
    if tail != "" {
      mark := [tail[0]];
      var rest := tail[1..];
      sign := if rest[0] in "+-" then [rest[0]] else "";
      digits := if rest[0] in "+-" then rest[1..] else rest;
      assert digits[..|digits|] == digits;
      assert rest == sign + digits && tail == mark + rest;
    }
  }

  // ---------- the number ----------

  lemma PartsRead(neg: bool, ip: string, frac: string, dotted: bool, mark: string, sign: string, digits: string)
    requires AllDigits(ip) && AllDigits(frac) && AllDigits(digits) && ip + frac != "" && (dotted || frac == "")
    requires IsExponent(mark, sign, digits)
    ensures ParseNumber(neg, ip + (Pointed(frac, dotted) + TailText(mark, sign, digits)))
            == Some(Finite(neg, Str(Val(AllOf(ip, frac))), ExponentValue(sign, digits) - |frac|))
  {
    hide *;
    AllOfIs(ip, frac);
    TailAccepts(mark, sign, digits);
    TailStart(mark, sign, digits);
    FieldsRead(neg, ip, frac, dotted, TailText(mark, sign, digits), ExponentValue(sign, digits));
  }

  lemma AllOfIs(ip: string, frac: string)
    requires AllDigits(ip) && AllDigits(frac)
    ensures AllOf(ip, frac) == ip + frac && AllDigits(ip + frac)
  {
  }

  lemma FieldsRead(neg: bool, ip: string, frac: string, dotted: bool, tail: string, e: int)
    requires AllDigits(ip) && AllDigits(frac) && (dotted || frac == "") && ip + frac != ""
    requires (tail == "" || (!IsDigit(tail[0]) && tail[0] != '.')) && ParseTail(tail) == Some(e)
    ensures AllDigits(ip + frac)
    ensures ParseNumber(neg, ip + (Pointed(frac, dotted) + tail))
            == Some(Finite(neg, Str(Val(ip + frac)), e - |frac|))
  {
    hide ParseNumber, ParseTail, SplitFraction, Val, Str;
    RestReads(frac, dotted, tail);
    NumberReads(neg, ip, Pointed(frac, dotted) + tail, frac, tail, e);
  }

  lemma TailStart(mark: string, sign: string, digits: string)
    requires IsExponent(mark, sign, digits)
    ensures var tail := TailText(mark, sign, digits); tail == "" || (!IsDigit(tail[0]) && tail[0] != '.')
  {
  }

  lemma RestReads(frac: string, dotted: bool, tail: string)
    requires AllDigits(frac) && (dotted || frac == "") && (tail == "" || (!IsDigit(tail[0]) && tail[0] != '.'))
    ensures var rest := Pointed(frac, dotted) + tail;
            SplitFraction(rest) == (frac, tail) && (rest == "" || !IsDigit(rest[0]))
  {
    SplitPointed(frac, dotted, tail);
  }

  lemma NumberReads(neg: bool, ip: string, rest: string, frac: string, tail: string, e: int)
    requires AllDigits(ip) && (rest == "" || !IsDigit(rest[0])) && SplitFraction(rest) == (frac, tail)
    requires ParseTail(tail) == Some(e) && ip + frac != ""
    ensures AllDigits(ip + frac) && ParseNumber(neg, ip + rest) == Some(Finite(neg, Str(Val(ip + frac)), e - |frac|))
  {
    hide ParseTail, SplitFraction, SpanDigits, Val, Str;
    SpanOfPrefix(ip, rest);
    assert (ip + rest)[..|ip|] == ip && (ip + rest)[|ip|..] == rest;
  }

  lemma NumberParts(neg: bool, s: string) returns (p: Body)
    requires ParseNumber(neg, s).Some?
    ensures p.Number? && p.Valid() && s == p.Text()
  {
    hide ParseTail, SplitFraction, SpanDigits, Val, Str, IsExponent;
    var i := SpanDigits(s);
    var rest := s[i..];
    var (frac, tail) := SplitFraction(rest);
    var dotted := rest != "" && rest[0] == '.';
    var mark, sign, digits := TailParts(tail);
    FractionParts(rest);
    assert s == s[..i] + rest;
    p := Number(s[..i], frac, dotted, mark, sign, digits);
  }

  lemma FractionParts(rest: string)
    ensures var (frac, tail) := SplitFraction(rest);
            var dotted := rest != "" && rest[0] == '.';
            rest == Pointed(frac, dotted) + tail && (dotted || frac == "")
  {
    if rest != "" && rest[0] == '.' {
      var j := SpanDigits(rest[1..]);
      assert rest == "." + rest[1..];
      assert rest[1..] == rest[1..][..j] + rest[1..][j..];
    }
  }

  lemma NoNumber(neg: bool, s: string)
    requires s != "" && !IsDigit(s[0]) && s[0] != '.'
    ensures ParseNumber(neg, s) == None
  {
    assert SpanDigits(s) == 0 && s[0..] == s;
  }

  // ---------- the words ----------

  lemma CaseMeaning(s: string, lower: string)
    requires forall i | 0 <= i < |lower| :: 'a' <= lower[i] <= 'z'
    ensures AnyCase(s, lower) <==> Matches(s, lower)
  {
    if |s| == |lower| {
      forall i | 0 <= i < |s|
        ensures (s[i] == lower[i] || s[i] as int + 32 == lower[i] as int) <==> Lower(s[i]) == lower[i]
      {
        LowerMeaning(s[i], lower[i]);
      }
    }
  }

  lemma LowerMeaning(c: char, l: char)
    requires 'a' <= l <= 'z'
    ensures Lower(c) == l <==> c == l || c as int + 32 == l as int
  {
  }

  lemma PrefixMeaning(s: string)
    ensures HasPrefix(s, "nan") <==> |s| >= 3 && AnyCase(s[..3], "nan")
  {
    if |s| >= 3 {
      CaseMeaning(s[..3], "nan");
    }
  }

  lemma NaNAccepts(neg: bool, signaling: bool, word: string, payload: string)
    requires AnyCase(word, "nan") && AllDigits(payload)
    ensures ParseNaN(neg, signaling, word + payload)
            == Some(NaN(neg, if Val(payload) == 0 then "" else Str(Val(payload)), signaling))
  {
    var s := word + payload;
    assert s[..3] == word && s[3..] == payload;
    PrefixMeaning(s);
    SpanOfPrefix(payload, "");
    assert payload + "" == payload;
    PayloadText(Val(payload));
    hide SpanDigits, Val, Str, HasPrefix, AnyCase;
  }

  lemma PayloadText(n: nat)
    ensures DecimalFix.StripZeros(Str(n)) == if n == 0 then "" else Str(n)
  {
    StrVal(n);
    CanonicalBounds(Str(n));
    if n == 0 {
      assert Str(n) == "0" && "0"[1..] == "";
      assert DecimalFix.StripZeros("") == "";
    }
  }

  lemma NaNParts(neg: bool, signaling: bool, s: string) returns (word: string, payload: string)
    requires ParseNaN(neg, signaling, s).Some?
    ensures AnyCase(word, "nan") && AllDigits(payload) && s == word + payload
  {
    word, payload := s[..3], s[3..];
    PrefixMeaning(s);
    assert payload[..|payload|] == payload;
    assert s == word + payload;
  }

  // ---------- the body and the whole text ----------

  lemma FirstLetter(s: string, lower: string)
    requires AnyCase(s, lower) && lower != "" && 'a' <= lower[0] <= 'z'
    ensures s != "" && Lower(s[0]) == lower[0] && !IsDigit(s[0]) && s[0] != '.' && s[0] !in "+-"
  {
  }

  lemma BodyAccepts(neg: bool, p: Body)
    requires p.Valid()
    ensures ParseBody(neg, p.Text()) == Some(p.Meaning(neg)) && p.Text() != "" && p.Text()[0] !in "+-"
  {
    match p
    case Number(ip, frac, dotted, mark, sign, digits) =>
      NumberAccepts(neg, p);
    case Word(word) =>
      if AnyCase(word, "inf") { FirstLetter(word, "inf"); } else { FirstLetter(word, "infinity"); }
      NoNumber(neg, word);
      CaseMeaning(word, "inf");
      CaseMeaning(word, "infinity");
      hide ParseNumber, AnyCase;
    case NotANumber(signal, word, payload) =>
      WordAccepts(neg, p);
  }

  lemma NumberAccepts(neg: bool, p: Body)
    requires p.Number? && p.Valid()
    ensures ParseBody(neg, p.Text()) == Some(p.Meaning(neg)) && p.Text() != "" && p.Text()[0] !in "+-"
  {
    NumberStart(p);
    NumberParsed(neg, p);
    BodyOfNumber(neg, p.Text());
    hide *;
  }

  lemma NumberParsed(neg: bool, p: Body)
    requires p.Number? && p.Valid()
    ensures ParseNumber(neg, p.Text()) == Some(p.Meaning(neg))
  {
    hide ParseNumber, AllDigits, AllOf, Val, Str, Pointed, TailText, IsExponent, ExponentValue;
    PartsRead(neg, p.ip, p.frac, p.dotted, p.mark, p.sign, p.digits);
  }

  lemma BodyOfNumber(neg: bool, s: string)
    ensures ParseNumber(neg, s).Some? ==> ParseBody(neg, s) == ParseNumber(neg, s)
  {
    hide ParseNumber, ParseNaN, Matches;
  }

  lemma NumberStart(p: Body)
    requires p.Number? && p.Valid()
    ensures p.Text() != "" && p.Text()[0] !in "+-"
  {
    if p.ip != "" {
      assert p.Text()[0] == p.ip[0] && IsDigit(p.ip[0]);
    } else {
      assert p.Text()[0] == '.';
    }
  }

  lemma WordAccepts(neg: bool, p: Body)
    requires p.NotANumber? && p.Valid()
    ensures ParseBody(neg, p.Text()) == Some(p.Meaning(neg)) && p.Text() != "" && p.Text()[0] !in "+-"
  {
    var s, rest := p.Text(), p.word + p.payload;
    FirstLetter(p.word, "nan");
    assert rest[0] == p.word[0];
    NaNAccepts(neg, p.signal != "", p.word, p.payload);
    if p.signal != "" {
      FirstLetter(p.signal, "s");
      assert s[0] == p.signal[0] && s[1..] == rest;
    } else {
      assert s == rest;
    }
    NoNumber(neg, s);
    assert !Matches(s, "inf") && !Matches(s, "infinity") by { assert Lower(s[0]) != 'i'; }
    hide ParseNumber, ParseNaN;
  }

  lemma BodyParts(neg: bool, s: string) returns (p: Body)
    requires ParseBody(neg, s).Some?
    ensures p.Valid() && s == p.Text()
  {
    hide ParseNumber, ParseNaN, AnyCase;
    if ParseNumber(neg, s).Some? {
      p := NumberParts(neg, s);
    } else if Matches(s, "inf") || Matches(s, "infinity") {
      CaseMeaning(s, "inf");
      CaseMeaning(s, "infinity");
      p := Word(s);
    } else if s != "" && Lower(s[0]) == 's' {
      var word, payload := NaNParts(neg, true, s[1..]);
      OneLetter(s[0]);
      p := NotANumber([s[0]], word, payload);
      assert s == [s[0]] + s[1..];
    } else {
      var word, payload := NaNParts(neg, false, s);
      p := NotANumber("", word, payload);
      assert s == "" + (word + payload);
    }
  }

  lemma OneLetter(c: char)
    requires Lower(c) == 's'
    ensures AnyCase([c], "s")
  {
  }

  // ---------- blanks and underscores ----------

  predicate AllBlank(s: string) {
    forall i | 0 <= i < |s| :: IsSpace(s[i])
  }

  predicate NoBlank(s: string) {
    forall i | 0 <= i < |s| :: !IsSpace(s[i])
  }

  /** Blanks around a text are stripped. */
  lemma {:induction false} StripAround(lead: string, mid: string, trail: string)
    requires AllBlank(lead) && AllBlank(trail)
    ensures Strip(lead + mid + trail) == Strip(mid)
    decreases |lead| + |trail|
  {
    var s := lead + mid + trail;
    if lead != "" {
      assert s[0] == lead[0] && s[1..] == lead[1..] + mid + trail;
      StripAround(lead[1..], mid, trail);
    } else if trail != "" {
      assert lead + mid + trail == mid + trail;
      StripEnd(mid, trail);
    } else {
      assert s == mid;
    }
  }

  lemma {:induction false} StripEnd(mid: string, trail: string)
    requires AllBlank(trail)
    ensures Strip(mid + trail) == Strip(mid)
    decreases |mid|, |trail|
  {
    var s := mid + trail;
    if trail == "" {
      assert s == mid;
    } else if mid == "" {
      assert s == trail;
      StripBlank(trail);
    } else if IsSpace(mid[0]) {
      assert s[0] == mid[0] && s[1..] == mid[1..] + trail;
      StripEnd(mid[1..], trail);
    } else {
      assert s[0] == mid[0] && s[|s| - 1] == trail[|trail| - 1] && s[..|s| - 1] == mid + trail[..|trail| - 1];
      StripEnd(mid, trail[..|trail| - 1]);
    }
  }

  lemma {:induction false} StripBlank(s: string)
    requires AllBlank(s)
    ensures Strip(s) == ""
  {
    if s != "" {
      StripBlank(s[1..]);
    }
  }

  /** What is left stands between blanks. */
  lemma {:induction false} StripParts(s: string) returns (lead: string, trail: string)
    ensures AllBlank(lead) && AllBlank(trail) && s == lead + Strip(s) + trail
    decreases |s|
  {
    if s != "" && IsSpace(s[0]) {
      var l, t := StripParts(s[1..]);
      lead, trail := [s[0]] + l, t;
      assert s == [s[0]] + s[1..];
      assert [s[0]] + (l + Strip(s[1..]) + t) == lead + Strip(s) + trail;
    } else if s != "" && IsSpace(s[|s| - 1]) {
      var n := |s| - 1;
      var l, t := StripParts(s[..n]);
      lead, trail := l, t + [s[n]];
      assert s == s[..n] + [s[n]];
      assert (l + Strip(s[..n]) + t) + [s[n]] == lead + Strip(s) + trail;
    } else {
      lead, trail := "", "";
    }
  }

  lemma NothingToStrip(s: string)
    requires NoBlank(s)
    ensures Strip(s) == s
  {
  }

  /** Underscores go, everything else stays in order. */
  lemma {:induction false} DropConcat(s: string, t: string)
    ensures DropUnderscores(s + t) == DropUnderscores(s) + DropUnderscores(t)
  {
    if s == "" {
      assert s + t == t;
    } else {
      assert (s + t)[1..] == s[1..] + t;
      DropConcat(s[1..], t);
    }
  }

  lemma DropOne(c: char)
    ensures DropUnderscores([c]) == if c == '_' then "" else [c]
  {
    assert [c][1..] == "";
  }

  lemma {:induction false} DropKeepsBlanks(s: string)
    ensures NoBlank(DropUnderscores(s)) <==> NoBlank(s)
  {
    if s != "" {
      DropKeepsBlanks(s[1..]);
      var r := DropUnderscores(s[1..]);
      assert s == [s[0]] + s[1..];
      if s[0] == '_' {
        NoBlankCons('_', s[1..]);
      } else {
        NoBlankCons(s[0], s[1..]);
        NoBlankCons(s[0], r);
      }
    }
  }

  lemma NoBlankCons(c: char, s: string)
    ensures NoBlank([c] + s) <==> !IsSpace(c) && NoBlank(s)
  {
    var t := [c] + s;
    if NoBlank(t) {
      assert !IsSpace(t[0]);
      forall i | 0 <= i < |s| ensures !IsSpace(s[i]) {
        assert s[i] == t[i + 1];
      }
    }
  }

  lemma NoBlankConcat(s: string, t: string)
    ensures NoBlank(s + t) <==> NoBlank(s) && NoBlank(t)
  {
    if NoBlank(s + t) {
      forall i | 0 <= i < |s| ensures !IsSpace(s[i]) { assert (s + t)[i] == s[i]; }
      forall i | 0 <= i < |t| ensures !IsSpace(t[i]) { assert (s + t)[|s| + i] == t[i]; }
    }
  }

  lemma NoBlankDigits(s: string)
    requires AllDigits(s)
    ensures NoBlank(s)
  {
    PlainDigits(s);
  }

  lemma NoBlankWord(s: string, lower: string)
    requires AnyCase(s, lower) && forall i | 0 <= i < |lower| :: 'a' <= lower[i] <= 'z'
    ensures NoBlank(s)
  {
  }

  lemma BodyNoBlank(p: Body)
    requires p.Valid()
    ensures NoBlank(p.Text())
  {
    hide AnyCase, NoBlank;
    match p
    case Number(ip, frac, dotted, mark, sign, digits) =>
      NoBlankDigits(ip);
      NoBlankDigits(frac);
      NoBlankDigits(digits);
      NoBlankChars(mark, sign);
      NoBlankConcat(sign, digits);
      NoBlankConcat(mark, sign + digits);
      NoBlankConcat(".", frac);
      NoBlankConcat(Pointed(frac, dotted), TailText(mark, sign, digits));
      NoBlankConcat(ip, Pointed(frac, dotted) + TailText(mark, sign, digits));
    case Word(word) =>
      if AnyCase(word, "inf") { NoBlankWord(word, "inf"); } else { NoBlankWord(word, "infinity"); }
    case NotANumber(signal, word, payload) =>
      NoBlankDigits(payload);
      NoBlankWord(word, "nan");
      NoBlankChars("", "");
      if signal != "" { NoBlankWord(signal, "s"); }
      NoBlankConcat(word, payload);
      NoBlankConcat(signal, word + payload);
  }

  lemma NoBlankChars(mark: string, sign: string)
    requires (mark == "" || mark == "e" || mark == "E") && (sign == "" || sign == "+" || sign == "-")
    ensures NoBlank(mark) && NoBlank(sign) && NoBlank(".") && NoBlank("")
  {
  }

  // ---------- the theorem ----------

  predicate IsSign(s: string) {
    s == "" || s == "+" || s == "-"
  }

  /** `text` is an optional sign and a body, between blanks and with any underscores. */
  predicate Spells(text: string, lead: string, mid: string, trail: string, sign: string, p: Body) {
    && AllBlank(lead) && AllBlank(trail) && text == lead + mid + trail
    && IsSign(sign) && p.Valid() && DropUnderscores(mid) == sign + p.Text()
  }

  /** Every text of the grammar is accepted, with its meaning. */
  lemma ParseAccepts(text: string, lead: string, mid: string, trail: string, sign: string, p: Body)
    requires Spells(text, lead, mid, trail, sign, p)
    ensures Parse(text) == Some(p.Meaning(sign == "-"))
  {
    BodyAccepts(sign == "-", p);
    BodyNoBlank(p);
    hide ParseBody, Strip, DropUnderscores, AllBlank, NoBlank, Body.Valid, Body.Text, Body.Meaning;
    NoBlankChars("", sign);
    NoBlankConcat(sign, p.Text());
    DropKeepsBlanks(mid);
    StripAround(lead, mid, trail);
    NothingToStrip(mid);
    SignedBody(text, sign, p.Text());
  }

  lemma SignedBody(text: string, sign: string, body: string)
    requires IsSign(sign) && body != "" && body[0] !in "+-" && DropUnderscores(Strip(text)) == sign + body
    ensures Parse(text) == ParseBody(sign == "-", body)
  {
    hide ParseBody, Strip, DropUnderscores;
    var s := sign + body;
    if sign == "" {
      assert s == body;
    } else {
      assert s[0] == sign[0] && s[1..] == body;
    }
  }

  /** Only texts of the grammar are accepted. */
  lemma ParseParses(text: string) returns (lead: string, mid: string, trail: string, sign: string, p: Body)
    requires Parse(text).Some?
    ensures Spells(text, lead, mid, trail, sign, p)
  {
    hide Parse, ParseBody, Strip, DropUnderscores, AllBlank, IsSign, Body.Valid, Body.Text;
    mid := Strip(text);
    lead, trail := StripParts(text);
    var body;
    sign, body := SignAndBody(text);
    p := BodyParts(sign == "-", body);
  }

  lemma SignAndBody(text: string) returns (sign: string, body: string)
    ensures IsSign(sign) && DropUnderscores(Strip(text)) == sign + body && Parse(text) == ParseBody(sign == "-", body)
  {
    hide ParseBody, Strip, DropUnderscores;
    var s := DropUnderscores(Strip(text));
    if s != "" && s[0] in "+-" {
      sign, body := [s[0]], s[1..];
      assert s == sign + body;
    } else {
      sign, body := "", s;
      assert s == sign + body;
    }
  }

  predicate SpellsAs(text: string, lead: string, mid: string, trail: string, sign: string, p: Body, d: Decimal) {
    Spells(text, lead, mid, trail, sign, p) && p.Meaning(sign == "-") == d
  }

  /** A text is accepted as `d` exactly when it spells something that stands for `d`. */
  lemma ParseIff(text: string, d: Decimal)
    ensures Parse(text) == Some(d)
            <==> exists lead: string, mid: string, trail: string, sign: string, p: Body ::
                   SpellsAs(text, lead, mid, trail, sign, p, d)
  {
    hide Spells, Parse;
    if Parse(text) == Some(d) {
      var lead, mid, trail, sign, p := ParseParses(text);
      ParseAccepts(text, lead, mid, trail, sign, p);
      assert SpellsAs(text, lead, mid, trail, sign, p, d);
    }
    if lead: string, mid: string, trail: string, sign: string, p: Body :|
      SpellsAs(text, lead, mid, trail, sign, p, d)
    {
      ParseAccepts(text, lead, mid, trail, sign, p);
    }
  }
}
