/**
 `argparse.py`: the hand-written matcher for the number of arguments, against the regular expression it replaces.
 */
module ArgMatching {
  import opened ArgPatterns
  import opened Sequences

  // ---------- the pieces of each pattern ----------

  const LETTER: Piece := Piece("A", false, One)
  const DASHES: Piece := Piece("-", false, Many)

  /** The pieces of `'-*'.join('A' * n)`. */
  function Joined(n: int): (r: seq<Piece>) {
    if n <= 0 then [] else if n == 1 then [LETTER] else Joined(n - 1) + [DASHES, LETTER]
  }

  function Letters(n: nat): (r: seq<Piece>) {
    if n == 0 then [] else Letters(n - 1) + [LETTER]
  }

  function Pieces(nargs: Nargs): (r: seq<Piece>) {
    match nargs
    case Default => [DASHES, LETTER, DASHES]
    case Optional => [DASHES, Piece("A", false, Maybe), DASHES]
    case ZeroOrMore => [DASHES, Piece("A-", true, Many)]
    case OneOrMore => [DASHES, LETTER, Piece("A-", true, Many)]
    case Remainder => [Piece("-AO", true, Many)]
    case Parser => [DASHES, LETTER, Piece("-AO", true, Many)]
    case Suppress => [DASHES, DASHES]
    case Count(n) => [DASHES] + Joined(n) + [DASHES]
  }

  /** The pieces left for an option. */
  function OptionPieces(nargs: Nargs): (r: seq<Piece>) {
    match nargs
    case Default => [LETTER]
    case Optional => [Piece("A", false, Maybe)]
    case ZeroOrMore => [Piece("A", true, Many)]
    case OneOrMore => [LETTER, Piece("A", true, Many)]
    case Remainder => [Piece("AO", true, Many)]
    case Parser => [LETTER, Piece("AO", true, Many)]
    case Suppress => []
    case Count(n) => Letters(if n < 0 then 0 else n)
  }

  lemma {:induction false} TextConcat(s: seq<Piece>, t: seq<Piece>)
    ensures AllText(s + t) == AllText(s) + AllText(t)
  {
    if s == [] {
      assert s + t == t;
    } else {
      assert (s + t)[1..] == s[1..] + t;
      TextConcat(s[1..], t);
    }
  }

  lemma {:induction false} WithoutConcat(s: seq<Piece>, t: seq<Piece>)
    ensures WithoutDashes(s + t) == WithoutDashes(s) + WithoutDashes(t)
  {
    if s == [] {
      assert s + t == t;
    } else {
      assert (s + t)[1..] == s[1..] + t;
      WithoutConcat(s[1..], t);
    }
  }

  lemma {:induction false} CleanedConcat(s: seq<Piece>, t: seq<Piece>)
    ensures Cleaned(s + t) == Cleaned(s) + Cleaned(t)
  {
    if s == [] {
      assert s + t == t;
    } else {
      assert (s + t)[1..] == s[1..] + t;
      CleanedConcat(s[1..], t);
    }
  }

  lemma PlainConcat(s: seq<Piece>, t: seq<Piece>)
    requires AllPlain(s) && AllPlain(t)
    ensures AllPlain(s + t)
  {
  }

  lemma OnePiece(p: Piece)
    ensures AllText([p]) == Text(p) && Cleaned([p]) == [Clean(p)] && WithoutDashes([p]) == KeptPiece(p)
  {
    assert [p][1..] == [];
  }

  lemma TwoPieces(p: Piece, q: Piece)
    ensures AllText([p, q]) == Text(p) + Text(q) && Cleaned([p, q]) == [Clean(p), Clean(q)]
    ensures WithoutDashes([p, q]) == KeptPiece(p) + KeptPiece(q)
  {
    hide AllText, Cleaned, WithoutDashes;
    OnePiece(p);
    OnePiece(q);
    assert [p, q] == [p] + [q];
    TextConcat([p], [q]);
    CleanedConcat([p], [q]);
    WithoutConcat([p], [q]);
  }

  lemma ThreePieces(p: Piece, q: Piece, r: Piece)
    ensures AllText([p, q, r]) == Text(p) + Text(q) + Text(r)
    ensures WithoutDashes([p, q, r]) == KeptPiece(p) + KeptPiece(q) + KeptPiece(r)
  {
    hide AllText, WithoutDashes;
    OnePiece(r);
    TwoPieces(p, q);
    assert [p, q, r] == [p, q] + [r];
    TextConcat([p, q], [r]);
    WithoutConcat([p, q], [r]);
  }

  function Clean(p: Piece): (r: Piece) {
    Piece(RemoveAll(p.chars, "-"), p.bracketed, p.times)
  }

  function KeptPiece(p: Piece): (r: seq<Piece>) {
    if IsDashes(p) then [] else [p]
  }

  /** The classes without their dash. */
  lemma CleanClasses()
    ensures RemoveAll("A", "-") == "A" && RemoveAll("A-", "-") == "A" && RemoveAll("-AO", "-") == "AO"
  {
    RemoveDashNone("A");
    RemoveDashNone("AO");
    RemoveDashConcat("A", "-");
    RemoveDashConcat("-", "AO");
    assert "-"[..1] == "-" && "-"[1..] == "";
    assert RemoveAll("-", "-") == "";
    assert "A" + "-" == "A-" && "-" + "AO" == "-AO" && "A" + "" == "A" && "" + "AO" == "AO";
  }

  lemma SingleTexts()
    ensures Text(LETTER) == "A" && Text(DASHES) == "-*"
    ensures AllText([LETTER]) == "A" && AllText([DASHES]) == "-*" && AllText([DASHES, LETTER]) == "-*A"
    ensures WithoutDashes([LETTER]) == [LETTER] && WithoutDashes([DASHES]) == []
    ensures WithoutDashes([DASHES, LETTER]) == [LETTER]
    ensures Cleaned([LETTER]) == [LETTER]
    ensures AllPlain([LETTER]) && AllPlain([DASHES]) && AllPlain([DASHES, LETTER])
  {
    assert [LETTER][1..] == [] && [DASHES][1..] == [] && [DASHES, LETTER][1..] == [LETTER];
    RemoveDashNone("A");
  }

  lemma {:induction false} JoinedText(n: int)
    ensures AllText(Joined(n)) == JoinedAs(n) && AllPlain(Joined(n))
    ensures WithoutDashes(Joined(n)) == Letters(if n < 0 then 0 else n)
  {
    hide AllText, WithoutDashes, AllPlain;
    SingleTexts();
    NoPieces();
    if n == 1 {
      assert Letters(1) == [] + [LETTER];
    } else if n > 1 {
      JoinedText(n - 1);
      TextConcat(Joined(n - 1), [DASHES, LETTER]);
      PlainConcat(Joined(n - 1), [DASHES, LETTER]);
      WithoutConcat(Joined(n - 1), [DASHES, LETTER]);
    }
  }

  lemma NoPieces()
    ensures AllText([]) == "" && WithoutDashes([]) == [] && AllPlain([]) && Cleaned([]) == []
  {
  }

  lemma {:induction false} CleanedLetters(n: nat)
    ensures Cleaned(Letters(n)) == Letters(n) && AllPlain(Letters(n))
  {
    hide Cleaned, AllPlain;
    SingleTexts();
    NoPieces();
    if n > 0 {
      CleanedLetters(n - 1);
      CleanedConcat(Letters(n - 1), [LETTER]);
      PlainConcat(Letters(n - 1), [LETTER]);
    }
  }

  /** The pattern in the source is the text of the pieces. */
  lemma PatternText(nargs: Nargs)
    ensures FullPattern(nargs) == "(" + AllText(Pieces(nargs)) + ")" && AllPlain(Pieces(nargs))
  {
    hide AllText;
    if nargs.Count? {
      hide AllPlain;
      SingleTexts();
      JoinedText(nargs.n);
      TextConcat([DASHES] + Joined(nargs.n), [DASHES]);
      TextConcat([DASHES], Joined(nargs.n));
      PlainConcat([DASHES], Joined(nargs.n));
      PlainConcat([DASHES] + Joined(nargs.n), [DASHES]);
    } else {
      FixedText(nargs);
    }
  }

  lemma PieceTexts()
    ensures Text(LETTER) == "A" && Text(DASHES) == "-*" && Text(Piece("A", false, Maybe)) == "A?"
    ensures Text(Piece("A-", true, Many)) == "[A-]*" && Text(Piece("-AO", true, Many)) == "[-AO]*"
  {
  }

  lemma FixedText(nargs: Nargs)
    requires !nargs.Count?
    ensures FullPattern(nargs) == "(" + AllText(Pieces(nargs)) + ")" && AllPlain(Pieces(nargs))
  {
    if |Pieces(nargs)| == 3 {
      ThreePieceText(nargs);
    } else {
      ShortText(nargs);
    }
  }

  lemma ThreePieceText(nargs: Nargs)
    requires !nargs.Count? && |Pieces(nargs)| == 3
    ensures FullPattern(nargs) == "(" + AllText(Pieces(nargs)) + ")" && AllPlain(Pieces(nargs))
  {
    PieceTexts();
    Spellings();
    hide AllText, Text;
    match nargs {
      case Default => ThreePieces(DASHES, LETTER, DASHES);
      case Optional => ThreePieces(DASHES, Piece("A", false, Maybe), DASHES);
      case OneOrMore => ThreePieces(DASHES, LETTER, Piece("A-", true, Many));
      case Parser => ThreePieces(DASHES, LETTER, Piece("-AO", true, Many));
    }
  }

  lemma Spellings()
    ensures "(" + ("-*" + "A" + "-*") + ")" == "(-*A-*)" && "(" + ("-*" + "A?" + "-*") + ")" == "(-*A?-*)"
    ensures "(" + ("-*" + "A" + "[A-]*") + ")" == "(-*A[A-]*)" && "(" + ("-*" + "A" + "[-AO]*") + ")" == "(-*A[-AO]*)"
  {
  }

  lemma ShortText(nargs: Nargs)
    requires !nargs.Count? && |Pieces(nargs)| < 3
    ensures FullPattern(nargs) == "(" + AllText(Pieces(nargs)) + ")" && AllPlain(Pieces(nargs))
  {
    PieceTexts();
    hide AllText, Text;
    var ps := Pieces(nargs);
    if |ps| == 1 {
      OnePiece(ps[0]);
    } else {
      TwoPieces(ps[0], ps[1]);
    }
  }

  lemma OptionPiecesAre(nargs: Nargs)
    ensures Cleaned(WithoutDashes(Pieces(nargs))) == OptionPieces(nargs) && AllPlain(OptionPieces(nargs))
  {
    if nargs.Count? {
      hide Cleaned, WithoutDashes, AllPlain;
      var count: nat := if nargs.n < 0 then 0 else nargs.n;
      SingleTexts();
      JoinedText(nargs.n);
      CleanedLetters(count);
      WithoutConcat([DASHES] + Joined(nargs.n), [DASHES]);
      WithoutConcat([DASHES], Joined(nargs.n));
      assert [] + Letters(count) + [] == Letters(count);
    } else {
      FixedOption(nargs);
    }
  }

  lemma FixedOption(nargs: Nargs)
    requires !nargs.Count?
    ensures Cleaned(WithoutDashes(Pieces(nargs))) == OptionPieces(nargs) && AllPlain(OptionPieces(nargs))
  {
    hide Cleaned, WithoutDashes, RemoveAll;
    NoPieces();
    CleanClasses();
    var ps := Pieces(nargs);
    if |ps| == 1 {
      OnePiece(ps[0]);
    } else if |ps| == 2 {
      TwoPieces(ps[0], ps[1]);
    } else {
      ThreePieces(ps[0], ps[1], ps[2]);
    }
    var kept := WithoutDashes(ps);
    if |kept| == 1 {
      OnePiece(kept[0]);
      assert kept == [kept[0]];
    } else if |kept| == 2 {
      TwoPieces(kept[0], kept[1]);
      assert kept == [kept[0], kept[1]];
    }
  }

  lemma ParseGroup(ps: seq<Piece>)
    requires AllPlain(ps)
    ensures Parse("(" + AllText(ps) + ")") == Some(ItemsOf(ps))
  {
    hide AllText, ItemsOf, ParseItems;
    ParseText(ps);
    var t := "(" + AllText(ps) + ")";
    assert t[1..] == AllText(ps) + ")";
  }

  /** The text of a pattern means the items one reads off it. */
  lemma PatternMeaning(nargs: Nargs, isOption: bool)
    ensures Parse(GetNargsPattern(nargs, isOption))
            == Some(ItemsOf(if isOption then OptionPieces(nargs) else Pieces(nargs)))
  {
    hide AllText, ItemsOf, ParseItems, RemoveAll, Pieces, OptionPieces, FullPattern, Parse;
    if isOption {
      OptionText(nargs);
      OptionPiecesAre(nargs);
      ParseGroup(OptionPieces(nargs));
    } else {
      PatternText(nargs);
      ParseGroup(Pieces(nargs));
    }
  }

  lemma OptionText(nargs: Nargs)
    ensures GetNargsPattern(nargs, true) == "(" + AllText(OptionPieces(nargs)) + ")"
  {
    PatternText(nargs);
    OptionPiecesAre(nargs);
    var ps := Pieces(nargs);
    hide AllText, RemoveAll, Pieces, OptionPieces, Cleaned, WithoutDashes, FullPattern;
    FirstRemoval(ps);
    var rest := AllText(ps) + ")";
    assert "(" + AllText(ps) + ")" == "(" + rest;
    assert ("(" + rest)[0] == '(';
    RemoveNothing("(", rest);
    var once := WithoutDashes(ps);
    SecondRemoval(once);
    assert "(" + (AllText(once) + ")") == "(" + AllText(once) + ")";
    RemoveDashConcat("(", AllText(once) + ")");
    RemoveDashNone("(");
    assert "(" + (AllText(Cleaned(once)) + ")") == "(" + AllText(Cleaned(once)) + ")";
  }

  // ---------- what the matching comes to ----------

  /** Where the longest run of characters of the class from `i` on ends. */
  function RunEnd(s: string, charSet: string, i: nat): (e: nat)
    requires i <= |s|
    ensures i <= e <= |s| && (forall k | i <= k < e :: s[k] in charSet) && (e < |s| ==> s[e] !in charSet)
    decreases |s| - i
  {
    if i < |s| && s[i] in charSet then RunEnd(s, charSet, i + 1) else i
  }

  lemma {:induction false} ManyTakesAll(item: Item, rest: seq<Item>, s: string, i: nat)
    requires i <= |s| && item.times == Many && Match(rest, s, RunEnd(s, item.charSet, i)).Some?
    ensures Match([item] + rest, s, i) == Match(rest, s, RunEnd(s, item.charSet, i))
    decreases |s| - i
  {
    assert ([item] + rest)[1..] == rest;
    if i < |s| && s[i] in item.charSet {
      ManyTakesAll(item, rest, s, i + 1);
    }
  }

  lemma {:induction false} ManyGivesUp(item: Item, rest: seq<Item>, s: string, i: nat)
    requires i <= |s| && item.times == Many
    requires forall k | i <= k <= RunEnd(s, item.charSet, i) :: Match(rest, s, k).None?
    ensures Match([item] + rest, s, i).None?
    decreases |s| - i
  {
    assert ([item] + rest)[1..] == rest;
    if i < |s| && s[i] in item.charSet {
      ManyGivesUp(item, rest, s, i + 1);
    }
  }

  const A_ITEM: Item := Item("A", One)
  const DASH_ITEM: Item := Item("-", Many)

  predicate LetterAt(s: string, i: nat) {
    i < |s| && s[i] == 'A'
  }

  lemma OneLetter(rest: seq<Item>, s: string, i: nat)
    requires i <= |s|
    ensures Match([A_ITEM] + rest, s, i) == if LetterAt(s, i) then Match(rest, s, i + 1) else None
  {
    assert ([A_ITEM] + rest)[1..] == rest;
  }

  /** Dashes and then a letter: taking fewer dashes never helps. */
  lemma DashesThenLetter(rest: seq<Item>, s: string, i: nat)
    requires i <= |s|
    ensures var e := RunEnd(s, "-", i);
            Match([DASH_ITEM] + ([A_ITEM] + rest), s, i) == if LetterAt(s, e) then Match(rest, s, e + 1) else None
  {
    hide Match;
    var e := RunEnd(s, "-", i);
    OneLetter(rest, s, e);
    if Match([A_ITEM] + rest, s, e).Some? {
      ManyTakesAll(DASH_ITEM, [A_ITEM] + rest, s, i);
    } else {
      forall k | i <= k <= e ensures Match([A_ITEM] + rest, s, k).None? {
        OneLetter(rest, s, k);
      }
      ManyGivesUp(DASH_ITEM, [A_ITEM] + rest, s, i);
    }
  }

  lemma JustMany(item: Item, s: string, i: nat)
    requires i <= |s| && item.times == Many
    ensures Match([item], s, i) == Some(RunEnd(s, item.charSet, i))
  {
    ManyTakesAll(item, [], s, i);
    assert [item] + [] == [item];
  }

  /** `n` letters with dashes before each and after the last. */
  function AfterLetters(s: string, n: int, i: nat): (r: Option<nat>)
    requires i <= |s|
    ensures r.Some? ==> r.value <= |s|
    decreases if n < 0 then 0 else n
  {
    var e := RunEnd(s, "-", i);
    if n <= 0 then Some(e) else if LetterAt(s, e) then AfterLetters(s, n - 1, e + 1) else None
  }

  predicate StartsWithLetters(s: string, n: nat) {
    n <= |s| && forall k | 0 <= k < n :: s[k] == 'A'
  }

  /** The number of arguments the expression takes, in closed form. */
  function Expected(nargs: Nargs, isOption: bool, s: string): (r: Option<nat>) {
    if isOption then
      match nargs
      case Default => if LetterAt(s, 0) then Some(1) else None
      case Optional => Some(if LetterAt(s, 0) then 1 else 0)
      case ZeroOrMore => Some(RunEnd(s, "A", 0))
      case OneOrMore => if LetterAt(s, 0) then Some(RunEnd(s, "A", 1)) else None
      case Remainder => Some(RunEnd(s, "AO", 0))
      case Parser => if LetterAt(s, 0) then Some(RunEnd(s, "AO", 1)) else None
      case Suppress => Some(0)
      case Count(n) => if n <= 0 then Some(0) else if StartsWithLetters(s, n) then Some(n) else None
    else
      var e := RunEnd(s, "-", 0);
      match nargs
      case Default => if LetterAt(s, e) then Some(RunEnd(s, "-", e + 1)) else None
      case Optional => Some(if LetterAt(s, e) then RunEnd(s, "-", e + 1) else e)
      case ZeroOrMore => Some(RunEnd(s, "A-", e))
      case OneOrMore => if LetterAt(s, e) then Some(RunEnd(s, "A-", e + 1)) else None
      case Remainder => Some(RunEnd(s, "-AO", 0))
      case Parser => if LetterAt(s, e) then Some(RunEnd(s, "-AO", e + 1)) else None
      case Suppress => Some(RunEnd(s, "-", e))
      case Count(n) => AfterLetters(s, n, 0)
  }

  lemma {:induction false} ItemsConcat(s: seq<Piece>, t: seq<Piece>)
    ensures ItemsOf(s + t) == ItemsOf(s) + ItemsOf(t)
  {
    if s == [] {
      assert s + t == t;
    } else {
      assert (s + t)[1..] == s[1..] + t;
      ItemsConcat(s[1..], t);
    }
  }

  function Item1(p: Piece): (r: Item) {
    Item(p.chars, p.times)
  }

  lemma ShortItems(p: Piece, q: Piece, r: Piece)
    ensures ItemsOf([p]) == [Item1(p)] && ItemsOf([p, q]) == [Item1(p), Item1(q)]
    ensures ItemsOf([p, q, r]) == [Item1(p)] + ([Item1(q)] + [Item1(r)])
  {
    assert [p][1..] == [] && [p, q] == [p] + [q] && [p, q, r] == [p] + ([q] + [r]);
    ItemsConcat([p], [q]);
    ItemsConcat([p], [q] + [r]);
    ItemsConcat([q], [r]);
    assert [q][1..] == [] && [r][1..] == [];
  }

  // ---------- the expression with a count ----------

  function Alternating(n: nat): (r: seq<Item>) {
    if n == 0 then [DASH_ITEM] else [DASH_ITEM] + ([A_ITEM] + Alternating(n - 1))
  }

  lemma {:induction false} AlternatingSnoc(n: nat)
    ensures Alternating(n + 1) == Alternating(n) + [A_ITEM, DASH_ITEM]
  {
    if n > 0 {
      AlternatingSnoc(n - 1);
      assert Alternating(n) + [A_ITEM, DASH_ITEM]
          == [DASH_ITEM] + ([A_ITEM] + (Alternating(n - 1) + [A_ITEM, DASH_ITEM]));
    }
  }

  lemma {:induction false} CountItems(n: nat)
    requires n >= 1
    ensures ItemsOf(Pieces(Count(n))) == Alternating(n)
  {
    hide ItemsOf;
    ShortItems(DASHES, LETTER, DASHES);
    ShortItems(LETTER, DASHES, DASHES);
    if n == 1 {
      assert Pieces(Count(1)) == [DASHES, LETTER, DASHES];
      assert Alternating(1) == [DASH_ITEM] + ([A_ITEM] + Alternating(0));
    } else {
      CountItems(n - 1);
      OneMorePiece(n);
      ItemsConcat(Pieces(Count(n - 1)), [LETTER, DASHES]);
      AlternatingSnoc(n - 1);
    }
  }

  lemma OneMorePiece(n: nat)
    requires n >= 2
    ensures Pieces(Count(n)) == Pieces(Count(n - 1)) + [LETTER, DASHES]
  {
    assert [DASHES] + (Joined(n - 1) + [DASHES, LETTER]) + [DASHES]
           == ([DASHES] + Joined(n - 1) + [DASHES]) + [LETTER, DASHES];
  }

  lemma {:induction false} MatchAlternating(n: nat, s: string, i: nat)
    requires i <= |s|
    ensures Match(Alternating(n), s, i) == AfterLetters(s, n, i)
    decreases n
  {
    hide Match;
    if n == 0 {
      JustMany(DASH_ITEM, s, i);
    } else {
      var e := RunEnd(s, "-", i);
      DashesThenLetter(Alternating(n - 1), s, i);
      if LetterAt(s, e) {
        MatchAlternating(n - 1, s, e + 1);
      }
    }
  }

  lemma {:induction false} LettersFront(n: nat)
    requires n >= 1
    ensures Letters(n) == [LETTER] + Letters(n - 1)
  {
    if n > 1 {
      LettersFront(n - 1);
    }
  }

  lemma {:induction false} MatchLetters(n: nat, s: string, i: nat)
    requires i <= |s|
    ensures Match(ItemsOf(Letters(n)), s, i)
            == if i + n <= |s| && (forall k | i <= k < i + n :: s[k] == 'A') then Some(i + n) else None
    decreases n
  {
    if n > 0 {
      LettersFront(n);
      assert Letters(n)[0] == LETTER && Letters(n)[1..] == Letters(n - 1);
      OneLetter(ItemsOf(Letters(n - 1)), s, i);
      if LetterAt(s, i) {
        MatchLetters(n - 1, s, i + 1);
      }
    }
  }

  // ---------- the expression in closed form ----------

  lemma OptionMatch(nargs: Nargs, s: string)
    ensures Match(ItemsOf(OptionPieces(nargs)), s, 0) == Expected(nargs, true, s)
  {
    if nargs.Count? {
      MatchLetters(if nargs.n < 0 then 0 else nargs.n, s, 0);
    } else if nargs.Suppress? {
    } else {
      FixedOptionMatch(nargs, s);
    }
  }

  lemma FixedOptionMatch(nargs: Nargs, s: string)
    requires !nargs.Count? && !nargs.Suppress?
    ensures Match(ItemsOf(OptionPieces(nargs)), s, 0) == Expected(nargs, true, s)
  {
    var ps := OptionPieces(nargs);
    ShortItems(ps[0], ps[|ps| - 1], ps[0]);
    if nargs.Default? {
      OneLetter([], s, 0);
      assert [A_ITEM] + [] == [A_ITEM];
    } else if nargs.Optional? {
      assert [Item("A", Maybe)][1..] == [];
    } else if |ps| == 1 {
      JustMany(Item1(ps[0]), s, 0);
    } else {
      OneLetter([Item1(ps[1])], s, 0);
      assert [A_ITEM, Item1(ps[1])] == [A_ITEM] + [Item1(ps[1])];
      if LetterAt(s, 0) {
        JustMany(Item1(ps[1]), s, 1);
      }
    }
  }

  /** Dashes, and then a repetition. */
  lemma DashesThenMany(item: Item, s: string)
    requires item.times == Many
    ensures Match([DASH_ITEM, item], s, 0) == Some(RunEnd(s, item.charSet, RunEnd(s, "-", 0)))
  {
    hide Match;
    assert [DASH_ITEM, item] == [DASH_ITEM] + [item];
    JustMany(item, s, RunEnd(s, "-", 0));
    ManyTakesAll(DASH_ITEM, [item], s, 0);
  }

  /** Dashes, a letter, and then a repetition. */
  lemma DashesLetterMany(item: Item, s: string)
    requires item.times == Many
    ensures var e := RunEnd(s, "-", 0);
            Match([DASH_ITEM] + ([A_ITEM] + [item]), s, 0)
            == if LetterAt(s, e) then Some(RunEnd(s, item.charSet, e + 1)) else None
  {
    hide Match;
    var e := RunEnd(s, "-", 0);
    DashesThenLetter([item], s, 0);
    if LetterAt(s, e) {
      JustMany(item, s, e + 1);
    }
  }

  lemma DashesMaybeDashes(s: string)
    ensures var e := RunEnd(s, "-", 0);
            Match([DASH_ITEM] + ([Item("A", Maybe)] + [DASH_ITEM]), s, 0)
            == Some(if LetterAt(s, e) then RunEnd(s, "-", e + 1) else e)
  {
    var e := RunEnd(s, "-", 0);
    var rest := [Item("A", Maybe)] + [DASH_ITEM];
    assert rest[1..] == [DASH_ITEM];
    JustMany(DASH_ITEM, s, e);
    if LetterAt(s, e) {
      JustMany(DASH_ITEM, s, e + 1);
    }
    assert Match(rest, s, e) == Some(if LetterAt(s, e) then RunEnd(s, "-", e + 1) else e);
    ManyTakesAll(DASH_ITEM, rest, s, 0);
  }

  lemma PositionalMatch(nargs: Nargs, s: string)
    ensures Match(ItemsOf(Pieces(nargs)), s, 0) == Expected(nargs, false, s)
  {
    hide Match, ItemsOf;
    ShortItems(DASHES, DASHES, DASHES);
    match nargs
    case Default =>
      ShortItems(DASHES, LETTER, DASHES);
      DashesLetterMany(DASH_ITEM, s);
    case Optional =>
      ShortItems(DASHES, Piece("A", false, Maybe), DASHES);
      DashesMaybeDashes(s);
    case ZeroOrMore =>
      ShortItems(DASHES, Piece("A-", true, Many), DASHES);
      DashesThenMany(Item("A-", Many), s);
    case OneOrMore =>
      ShortItems(DASHES, LETTER, Piece("A-", true, Many));
      DashesLetterMany(Item("A-", Many), s);
    case Remainder =>
      ShortItems(Piece("-AO", true, Many), DASHES, DASHES);
      JustMany(Item("-AO", Many), s, 0);
    case Parser =>
      ShortItems(DASHES, LETTER, Piece("-AO", true, Many));
      DashesLetterMany(Item("-AO", Many), s);
    case Suppress =>
      DashesThenMany(DASH_ITEM, s);
    case Count(n) =>
      if n <= 0 {
        assert Pieces(nargs) == [DASHES, DASHES];
        DashesThenMany(DASH_ITEM, s);
      } else {
        CountItems(n);
        MatchAlternating(n, s, 0);
      }
  }

  /** The greedy match of the pattern, for every action and every text. */
  lemma MatchIsExpected(nargs: Nargs, isOption: bool, s: string)
    ensures MatchLength(GetNargsPattern(nargs, isOption), s) == Expected(nargs, isOption, s)
  {
    hide Match, Parse, GetNargsPattern, ItemsOf, Expected, Pieces, OptionPieces;
    PatternMeaning(nargs, isOption);
    if isOption {
      OptionMatch(nargs, s);
    } else {
      PositionalMatch(nargs, s);
    }
  }

  // ---------- the hand-written matcher ----------

  /** A text of argument letters, option letters and dashes. */
  predicate IsArgText(s: string) {
    forall k | 0 <= k < |s| :: s[k] == 'A' || s[k] == 'O' || s[k] == '-'
  }

  /** The one case in which the matcher disagrees with the expression. */
  predicate IsNegativeOption(nargs: Nargs, isOption: bool) {
    isOption && nargs.Count? && nargs.n < 0
  }

  function AsInt(r: Option<nat>): (i: Option<int>) {
    if r.None? then None else Some(r.value)
  }

  method CountRun(s: string, charSet: string, start: nat) returns (e: nat)
    requires start <= |s|
    ensures e == RunEnd(s, charSet, start)
  {
    e := start;
    while e < |s| && s[e] in charSet
      invariant start <= e <= |s| && RunEnd(s, charSet, e) == RunEnd(s, charSet, start)
    {
      e := e + 1;
    }
  }

  method MatchOption(nargs: Nargs, s: string) returns (r: Option<int>)
    requires IsArgText(s)
    ensures r == if IsNegativeOption(nargs, true) then Some(nargs.n) else AsInt(Expected(nargs, true, s))
  {
    var length := |s|;
    match nargs {
      case Default => return if length >= 1 && s[0] == 'A' then Some(1) else None;
      case Optional => return if length >= 1 && s[0] == 'A' then Some(1) else Some(0);
      case ZeroOrMore =>
        var count := CountRun(s, "A", 0);
        return Some(count);
      case OneOrMore =>
        var count := CountRun(s, "A", 0);
        return if count != 0 then Some(count) else None;
      case Remainder =>
        var count := CountRun(s, "AO", 0);
        return Some(count);
      case Parser =>
        if length < 1 || s[0] != 'A' {
          return None;
        }
        var count := CountRun(s, "AO", 1);
        return Some(count);
      case Suppress => return Some(0);
      case Count(n) =>
        if length < n {
          return None;
        }
        var i := 0;
        while i < n
          invariant 0 <= i <= length && (n >= 0 ==> i <= n) && forall k | 0 <= k < i :: s[k] == 'A'
        {
          if s[i] != 'A' {
            return None;
          }
          i := i + 1;
        }
        return Some(n);
    }
  }

  lemma {:induction false} WholeRun(s: string, i: nat)
    requires IsArgText(s) && i <= |s|
    ensures RunEnd(s, "-AO", i) == |s|
    decreases |s| - i
  {
    if i < |s| {
      WholeRun(s, i + 1);
    }
  }

  /** Skipping the dashes first does not change where a run of letters and dashes ends. */
  lemma {:induction false} SkipFirst(s: string, i: nat)
    requires i <= |s|
    ensures RunEnd(s, "A-", RunEnd(s, "-", i)) == RunEnd(s, "A-", i)
    decreases |s| - i
  {
    if i < |s| && s[i] in "-" {
      SkipFirst(s, i + 1);
    }
  }

  lemma {:induction false} RunAgain(s: string, charSet: string, i: nat)
    requires i <= |s|
    ensures RunEnd(s, charSet, RunEnd(s, charSet, i)) == RunEnd(s, charSet, i)
    decreases |s| - i
  {
    if i < |s| && s[i] in charSet {
      RunAgain(s, charSet, i + 1);
    }
  }

  method MatchPositional(nargs: Nargs, s: string) returns (r: Option<int>)
    requires IsArgText(s)
    ensures r == AsInt(Expected(nargs, false, s))
  {
    var length := |s|;
    SkipFirst(s, 0);
    RunAgain(s, "-", 0);
    WholeRun(s, 0);
    match nargs {
      case Default =>
        var idx := CountRun(s, "-", 0);
        if idx >= length || s[idx] != 'A' {
          return None;
        }
        idx := CountRun(s, "-", idx + 1);
        return Some(idx);
      case Optional =>
        var idx := CountRun(s, "-", 0);
        if idx < length && s[idx] == 'A' {
          idx := idx + 1;
        }
        idx := CountRun(s, "-", idx);
        return Some(idx);
      case ZeroOrMore =>
        var idx := CountRun(s, "A-", 0);
        return Some(idx);
      case OneOrMore =>
        var idx := CountRun(s, "-", 0);
        if idx >= length || s[idx] != 'A' {
          return None;
        }
        idx := CountRun(s, "A-", idx + 1);
        return Some(idx);
      case Remainder => return Some(length);
      case Parser =>
        var idx := CountRun(s, "-", 0);
        if idx >= length || s[idx] != 'A' {
          return None;
        }
        WholeRun(s, idx + 1);
        return Some(length);
      case Suppress =>
        var idx := CountRun(s, "-", 0);
        return Some(idx);
      case Count(n) =>
        r := MatchNumber(n, s);
    }
  }

  /** Dashes and a letter, `n` times, and then dashes. */
  method MatchNumber(n: int, s: string) returns (r: Option<int>)
    ensures r == AsInt(AfterLetters(s, n, 0))
  {
    var idx: nat := 0;
    var i := 0;
    while i < n
      invariant 0 <= i && (n >= 0 ==> i <= n) && (n < 0 ==> i == 0) && idx <= |s|
      invariant AfterLetters(s, n - i, idx) == AfterLetters(s, n, 0)
    {
      idx := CountRun(s, "-", idx);
      if idx >= |s| || s[idx] != 'A' {
        return None;
      }
      idx := idx + 1;
      i := i + 1;
    }
    idx := CountRun(s, "-", idx);
    return Some(idx);
  }

  /** The hand-written matcher agrees with the expression, unless an option asks for a negative number. */
  method MatchNargsCount(nargs: Nargs, isOption: bool, s: string) returns (r: Option<int>)
    requires IsArgText(s)
    ensures r == if IsNegativeOption(nargs, isOption) then Some(nargs.n)
                 else AsInt(MatchLength(GetNargsPattern(nargs, isOption), s))
  {
    MatchIsExpected(nargs, isOption, s);
    hide Expected, MatchLength, GetNargsPattern;
    if isOption {
      r := MatchOption(nargs, s);
    } else {
      r := MatchPositional(nargs, s);
    }
  }

  /** For a negative count the expression of an option matches nothing, which is not the negative count. */
  lemma NegativeOptionDiffers(nargs: Nargs, isOption: bool, s: string)
    requires IsNegativeOption(nargs, isOption)
    ensures AsInt(MatchLength(GetNargsPattern(nargs, isOption), s)) == Some(0) != Some(nargs.n)
  {
    MatchIsExpected(nargs, isOption, s);
  }

  datatype Complaint = ExpectedOne | ExpectedAtMostOne | ExpectedAtLeastOne | ExpectedNumber(nargs: Nargs)

  function ComplaintFor(nargs: Nargs): (c: Complaint) {
    match nargs
    case Default => ExpectedOne
    case Optional => ExpectedAtMostOne
    case OneOrMore => ExpectedAtLeastOne
    case _ => ExpectedNumber(nargs)
  }

  datatype Outcome = Matched(count: int) | ArgumentError(complaint: Complaint)

  /** The matcher, with the expression to fall back on: the fallback never finds anything more. */
  method MatchArgument(nargs: Nargs, isOption: bool, s: string) returns (r: Outcome)
    requires IsArgText(s)
    ensures var m := MatchLength(GetNargsPattern(nargs, isOption), s);
            r == if IsNegativeOption(nargs, isOption) then Matched(nargs.n)
                 else if m.Some? then Matched(m.value) else ArgumentError(ComplaintFor(nargs))
  {
    hide MatchLength, GetNargsPattern;
    var count := MatchNargsCount(nargs, isOption, s);
    if count.Some? {
      return Matched(count.value);
    }
    var m := MatchLength(GetNargsPattern(nargs, isOption), s);
    match m {
      case None => return ArgumentError(ComplaintFor(nargs));
      case Some(length) => return Matched(length);
    }
  }
}
