/**
 `argparse.py`: the regular expression for the number of arguments an action takes, built as text, and its greedy
 matching with backtracking.
 */
module ArgPatterns {
  import opened Sequences

  /** The `nargs` of an action; `Count` stands for any integer. */
  datatype Nargs = Default | Optional | ZeroOrMore | OneOrMore | Remainder | Parser | Suppress | Count(n: int)

  // ---------- the pattern as text ----------

  /** Python's `s.replace(target, '')`: the occurrences from left to right, without overlaps. */
  function RemoveAll(s: string, target: string): (r: string)
    requires |target| > 0
  {
    if |s| < |target| then s
    else if s[..|target|] == target then RemoveAll(s[|target|..], target)
    else [s[0]] + RemoveAll(s[1..], target)
  }

  /** `'-*'.join('A' * n)`, which is empty for `n <= 0`. */
  function JoinedAs(n: int): (r: string) {
    if n <= 0 then "" else if n == 1 then "A" else JoinedAs(n - 1) + "-*A"
  }

  function FullPattern(nargs: Nargs): (r: string) {
    match nargs
    case Default => "(-*A-*)"
    case Optional => "(-*A?-*)"
    case ZeroOrMore => "(-*[A-]*)"
    case OneOrMore => "(-*A[A-]*)"
    case Remainder => "([-AO]*)"
    case Parser => "(-*A[-AO]*)"
    case Suppress => "(-*-*)"
    case Count(n) => "(-*" + JoinedAs(n) + "-*)"
  }

  /** The pattern of an action; for an option no `--` is allowed among its arguments. */
  function GetNargsPattern(nargs: Nargs, isOption: bool): (r: string) {
    if isOption then RemoveAll(RemoveAll(FullPattern(nargs), "-*"), "-") else FullPattern(nargs)
  }

  // ---------- the regular expressions used ----------

  datatype Times = One | Maybe | Many

  /** A class of characters with its repetition. */
  datatype Item = Item(charSet: string, times: Times)

  /** The place of the first `c`, or the length. */
  function Find(s: string, c: char): (k: nat)
    ensures k <= |s| && (k < |s| ==> s[k] == c)
  {
    if s == "" || s[0] == c then 0 else 1 + Find(s[1..], c)
  }

  /** The repetition written after an item, and what is left. */
  function Suffix(s: string): (r: (Times, string))
    ensures |r.1| <= |s|
  {
    if s != "" && s[0] == '*' then (Many, s[1..])
    else if s != "" && s[0] == '?' then (Maybe, s[1..])
    else (One, s)
  }

  /** The items up to the closing parenthesis that ends the text. A dash is literal at either end of a class. */
  function ParseItems(s: string): (r: Option<seq<Item>>)
    decreases |s|
  {
    if s == ")" then Some([])
    else if s == "" then None
    else if s[0] == '[' then
      var k := Find(s, ']');
      if k == |s| then None
      else
        var (times, rest) := Suffix(s[k + 1..]);
        var items := ParseItems(rest);
        if items.None? then None else Some([Item(s[1..k], times)] + items.value)
    else
      var (times, rest) := Suffix(s[1..]);
      var items := ParseItems(rest);
      if items.None? then None else Some([Item([s[0]], times)] + items.value)
  }

  /** A pattern that is one group. */
  function Parse(pattern: string): (r: Option<seq<Item>>) {
    if pattern == "" || pattern[0] != '(' then None else ParseItems(pattern[1..])
  }

  predicate Fits(item: Item, s: string, i: nat) {
    i < |s| && s[i] in item.charSet
  }

  /**
   Where the match of the items from `i` on ends: as many repetitions as possible first, fewer when the rest fails.
   */
  function Match(items: seq<Item>, s: string, i: nat): (r: Option<nat>)
    requires i <= |s|
    ensures r.Some? ==> i <= r.value <= |s|
    decreases |items|, |s| - i
  {
    if items == [] then Some(i)
    else
      var item, rest := items[0], items[1..];
      match item.times
      case One => if Fits(item, s, i) then Match(rest, s, i + 1) else None
      case Maybe =>
        if Fits(item, s, i) && Match(rest, s, i + 1).Some? then Match(rest, s, i + 1) else Match(rest, s, i)
      case Many =>
        if Fits(item, s, i) && Match(items, s, i + 1).Some? then Match(items, s, i + 1) else Match(rest, s, i)
  }

  /** The length of the group, for a match at the start of `s`. */
  function MatchLength(pattern: string, s: string): (r: Option<nat>) {
    var items := Parse(pattern);
    if items.None? then None else Match(items.value, s, 0)
  }

  // ---------- patterns as lists of pieces ----------

  /** A character, or a class in brackets, with the repetition written after it. */
  datatype Piece = Piece(chars: string, bracketed: bool, times: Times)

  function Mark(t: Times): (r: string) {
    match t case One => "" case Maybe => "?" case Many => "*"
  }

  function Text(p: Piece): (r: string) {
    (if p.bracketed then "[" + p.chars + "]" else p.chars) + Mark(p.times)
  }

  function AllText(ps: seq<Piece>): (r: string) {
    if ps == [] then "" else Text(ps[0]) + AllText(ps[1..])
  }

  function ItemsOf(ps: seq<Piece>): (r: seq<Item>) {
    if ps == [] then [] else [Item(ps[0].chars, ps[0].times)] + ItemsOf(ps[1..])
  }

  /** No character of a piece has a meaning of its own, and a bare dash is always repeated. */
  predicate Plain(p: Piece) {
    && (forall k | 0 <= k < |p.chars| :: p.chars[k] == 'A' || p.chars[k] == 'O' || p.chars[k] == '-')
    && (!p.bracketed ==> |p.chars| == 1 && (p.chars == "-" ==> p.times == Many))
  }

  predicate AllPlain(ps: seq<Piece>) {
    forall k | 0 <= k < |ps| :: Plain(ps[k])
  }

  lemma {:induction false} FindClose(s: string, rest: string)
    requires forall k | 0 <= k < |s| :: s[k] != ']'
    ensures Find(s + "]" + rest, ']') == |s|
  {
    var t := s + "]" + rest;
    if s != "" {
      assert t[1..] == s[1..] + "]" + rest;
      FindClose(s[1..], rest);
    }
  }

  lemma SuffixOf(t: Times, rest: string)
    requires rest != "" && rest[0] != '*' && rest[0] != '?'
    ensures Suffix(Mark(t) + rest) == (t, rest)
  {
    match t
    case One =>
      assert "" + rest == rest;
    case Maybe =>
      assert ("?" + rest)[1..] == rest;
    case Many =>
      assert ("*" + rest)[1..] == rest;
  }

  lemma ParseClass(chars: string, tail: string, t: Times, rest: string)
    requires (forall k | 0 <= k < |chars| :: chars[k] != ']') && Suffix(tail) == (t, rest) && ParseItems(rest).Some?
    ensures ParseItems("[" + chars + "]" + tail) == Some([Item(chars, t)] + ParseItems(rest).value)
  {
    hide Suffix, Find;
    var s := "[" + chars + "]" + tail;
    assert forall k | 0 <= k < |"[" + chars| :: ("[" + chars)[k] != ']';
    FindClose("[" + chars, tail);
    var k := |chars| + 1;
    assert s[0] == '[' && s[1..k] == chars && s[k + 1..] == tail;
    assert |s| >= 2;
  }

  lemma ParseChar(c: char, tail: string, t: Times, rest: string)
    requires c != '[' && c != ')' && Suffix(tail) == (t, rest) && ParseItems(rest).Some?
    ensures ParseItems([c] + tail) == Some([Item([c], t)] + ParseItems(rest).value)
  {
    hide Suffix, Find;
    var s := [c] + tail;
    assert s[0] == c && s[1..] == tail;
  }

  lemma ParsePiece(p: Piece, rest: string)
    requires Plain(p) && rest != "" && rest[0] != '*' && rest[0] != '?' && ParseItems(rest).Some?
    ensures ParseItems(Text(p) + rest) == Some([Item(p.chars, p.times)] + ParseItems(rest).value)
  {
    hide ParseItems, Suffix, Mark;
    SuffixOf(p.times, rest);
    var tail := Mark(p.times) + rest;
    if p.bracketed {
      ParseClass(p.chars, tail, p.times, rest);
      assert Text(p) + rest == "[" + p.chars + "]" + tail;
    } else {
      ParseChar(p.chars[0], tail, p.times, rest);
      assert p.chars == [p.chars[0]];
      assert Text(p) + rest == p.chars + tail;
    }
  }

  lemma {:induction false} ParseText(ps: seq<Piece>)
    requires AllPlain(ps)
    ensures ParseItems(AllText(ps) + ")") == Some(ItemsOf(ps))
    ensures var t := AllText(ps) + ")"; t[0] != '*' && t[0] != '?'
  {
    if ps == [] {
      assert "" + ")" == ")";
    } else {
      ParseText(ps[1..]);
      var rest := AllText(ps[1..]) + ")";
      ParsePiece(ps[0], rest);
      assert AllText(ps) + ")" == Text(ps[0]) + rest;
    }
  }

  // ---------- removing the dashes ----------

  lemma StartsWithDashes(s: string)
    requires |s| >= 2
    ensures s[..2] == "-*" <==> s[0] == '-' && s[1] == '*'
  {
    assert s[..2] == [s[0], s[1]];
  }

  lemma {:induction false} RemoveNothing(u: string, v: string)
    requires forall k | 0 <= k < |u| :: (u + v)[k] != '-' || (k + 1 < |u + v| && (u + v)[k + 1] != '*')
    ensures RemoveAll(u + v, "-*") == u + RemoveAll(v, "-*")
  {
    if u == "" {
      assert u + v == v;
    } else {
      var s := u + v;
      assert s[1..] == u[1..] + v;
      if |s| >= 2 {
        StartsWithDashes(s);
      }
      forall k | 0 <= k < |u| - 1
        ensures (u[1..] + v)[k] != '-' || (k + 1 < |u[1..] + v| && (u[1..] + v)[k + 1] != '*')
      {
        assert (u[1..] + v)[k] == s[k + 1];
        if k + 2 < |s| {
          assert (u[1..] + v)[k + 1] == s[k + 2];
        }
      }
      RemoveNothing(u[1..], v);
    }
  }

  predicate IsDashes(p: Piece) {
    !p.bracketed && p.chars == "-"
  }

  function WithoutDashes(ps: seq<Piece>): (r: seq<Piece>) {
    if ps == [] then [] else if IsDashes(ps[0]) then WithoutDashes(ps[1..]) else [ps[0]] + WithoutDashes(ps[1..])
  }

  /** The first replacement takes away exactly the pieces `-*`. */
  lemma {:induction false} FirstRemoval(ps: seq<Piece>)
    requires AllPlain(ps)
    ensures RemoveAll(AllText(ps) + ")", "-*") == AllText(WithoutDashes(ps)) + ")"
  {
    if ps == [] {
      assert "" + ")" == ")";
    } else {
      FirstRemoval(ps[1..]);
      ParseText(ps[1..]);
      var rest := AllText(ps[1..]) + ")";
      var text := Text(ps[0]);
      assert AllText(ps) + ")" == text + rest;
      if IsDashes(ps[0]) {
        assert text == "-*";
        assert (text + rest)[..2] == "-*" && (text + rest)[2..] == rest;
      } else {
        NoDashesIn(ps[0], rest);
        assert AllText(WithoutDashes(ps)) == text + AllText(WithoutDashes(ps[1..])) by {
          assert WithoutDashes(ps)[1..] == WithoutDashes(ps[1..]);
        }
      }
    }
  }

  lemma NoDashesIn(p: Piece, rest: string)
    requires Plain(p) && !IsDashes(p)
    ensures RemoveAll(Text(p) + rest, "-*") == Text(p) + RemoveAll(rest, "-*")
  {
    hide Text, RemoveAll;
    var text := Text(p);
    forall k | 0 <= k < |text|
      ensures (text + rest)[k] != '-' || (k + 1 < |text + rest| && (text + rest)[k + 1] != '*')
    {
      DashInText(p, k);
      assert (text + rest)[k] == text[k];
    }
    RemoveNothing(text, rest);
  }

  lemma DashInText(p: Piece, k: nat)
    requires Plain(p) && !IsDashes(p) && k < |Text(p)|
    ensures Text(p)[k] != '-' || (k + 1 < |Text(p)| && Text(p)[k + 1] != '*')
  {
  }

  lemma {:induction false} RemoveDashConcat(u: string, v: string)
    ensures RemoveAll(u + v, "-") == RemoveAll(u, "-") + RemoveAll(v, "-")
  {
    if u == "" {
      assert u + v == v;
    } else {
      assert (u + v)[1..] == u[1..] + v;
      assert (u + v)[..1] == u[..1];
      RemoveDashConcat(u[1..], v);
    }
  }

  lemma {:induction false} RemoveDashNone(u: string)
    requires forall k | 0 <= k < |u| :: u[k] != '-'
    ensures RemoveAll(u, "-") == u
  {
    if u != "" {
      assert u[..1] == [u[0]];
      RemoveDashNone(u[1..]);
    }
  }

  function Cleaned(ps: seq<Piece>): (r: seq<Piece>) {
    if ps == [] then []
    else [Piece(RemoveAll(ps[0].chars, "-"), ps[0].bracketed, ps[0].times)] + Cleaned(ps[1..])
  }

  lemma CleanText(p: Piece)
    ensures RemoveAll(Text(p), "-") == Text(Piece(RemoveAll(p.chars, "-"), p.bracketed, p.times))
  {
    RemoveDashNone(Mark(p.times));
    RemoveDashNone("[");
    RemoveDashNone("]");
    RemoveDashConcat(if p.bracketed then "[" + p.chars + "]" else p.chars, Mark(p.times));
    RemoveDashConcat("[" + p.chars, "]");
    RemoveDashConcat("[", p.chars);
  }

  /** The second replacement takes the dash out of the classes. */
  lemma {:induction false} SecondRemoval(ps: seq<Piece>)
    ensures RemoveAll(AllText(ps) + ")", "-") == AllText(Cleaned(ps)) + ")"
  {
    RemoveDashNone(")");
    if ps == [] {
      assert "" + ")" == ")";
    } else {
      SecondRemoval(ps[1..]);
      var rest := AllText(ps[1..]) + ")";
      assert AllText(ps) + ")" == Text(ps[0]) + rest;
      RemoveDashConcat(Text(ps[0]), rest);
      CleanText(ps[0]);
      assert Cleaned(ps)[1..] == Cleaned(ps[1..]);
    }
  }
}
