/**
 `difflib.py`, class `Differ` and `restore`: deltas of two lists of lines, from which both lists can be got back.
 */
module Deltas {
  import opened MatchingBlocks
  import opened Opcodes
  import opened Ratios
  import opened SequenceMatchers
  import opened Sequences

  type Line = string

  // ---------- what a delta says ----------

  /** The line is common to both lists, or belongs to the one marked by `tag`. */
  predicate BelongsTo(line: Line, tag: string) {
    |line| >= 2 && (line[..2] == "  " || line[..2] == tag)
  }

  /** The lines of one list, without their prefixes. */
  function Restored(delta: seq<Line>, tag: string): (r: seq<Line>) {
    if delta == [] then []
    else (if BelongsTo(delta[0], tag) then [delta[0][2..]] else []) + Restored(delta[1..], tag)
  }

  predicate Prefixed(line: Line) {
    |line| >= 2 && (line[..2] == "- " || line[..2] == "+ " || line[..2] == "  " || line[..2] == "? ")
  }

  /** Both lists can be got back, and every line carries one of the four prefixes. */
  predicate IsDelta(delta: seq<Line>, x: seq<Line>, y: seq<Line>) {
    && Restored(delta, "- ") == x && Restored(delta, "+ ") == y
    && forall p | 0 <= p < |delta| :: Prefixed(delta[p])
  }

  lemma {:induction false} RestoredConcat(s: seq<Line>, t: seq<Line>, tag: string)
    ensures Restored(s + t, tag) == Restored(s, tag) + Restored(t, tag)
  {
    if s == [] {
      assert s + t == t;
    } else {
      assert (s + t)[1..] == s[1..] + t;
      RestoredConcat(s[1..], t, tag);
    }
  }

  lemma DeltaConcat(s: seq<Line>, t: seq<Line>, x: seq<Line>, y: seq<Line>, x': seq<Line>, y': seq<Line>)
    requires IsDelta(s, x, y) && IsDelta(t, x', y')
    ensures IsDelta(s + t, x + x', y + y')
  {
    RestoredConcat(s, t, "- ");
    RestoredConcat(s, t, "+ ");
  }

  lemma PrefixedLine(tag: char, line: Line)
    ensures ([tag, ' '] + line)[..2] == [tag, ' '] && ([tag, ' '] + line)[2..] == line
  {
  }

  lemma OneLine(tag: char, line: Line)
    ensures tag == '-' ==> IsDelta([[tag, ' '] + line], [line], [])
    ensures tag == '+' ==> IsDelta([[tag, ' '] + line], [], [line])
    ensures tag == ' ' ==> IsDelta([[tag, ' '] + line], [line], [line])
    ensures tag == '?' ==> IsDelta([[tag, ' '] + line], [], [])
  {
    PrefixedLine(tag, line);
    var d := [[tag, ' '] + line];
    assert d[1..] == [];
    assert [tag, ' '] != "- " || tag == '-';
    assert [tag, ' '][0] == tag;
    assert "- "[0] == '-' && "+ "[0] == '+' && "  "[0] == ' ' && "? "[0] == '?';
  }

  lemma NoLines()
    ensures IsDelta([], [], [])
  {
  }

  datatype Restoration = Lines(lines: seq<Line>) | ValueError

  /** One of the two lists behind a delta. */
  method Restore(delta: seq<Line>, which: int) returns (r: Restoration)
    ensures r.ValueError? <==> which != 1 && which != 2
    ensures which == 1 ==> r == Lines(Restored(delta, "- "))
    ensures which == 2 ==> r == Lines(Restored(delta, "+ "))
  {
    if which != 1 && which != 2 {
      return ValueError;
    }
    var lines := LinesOf(delta, if which == 1 then "- " else "+ ");
    return Lines(lines);
  }

  method LinesOf(delta: seq<Line>, tag: string) returns (lines: seq<Line>)
    ensures lines == Restored(delta, tag)
  {
    hide BelongsTo, Restored;
    lines := [];
    RestoredNone(tag);
    var p := 0;
    while p < |delta|
      invariant 0 <= p <= |delta| && lines == Restored(delta[..p], tag)
    {
      RestoredNext(delta[..p], delta[p], tag);
      assert delta[..p + 1] == delta[..p] + [delta[p]];
      if BelongsTo(delta[p], tag) {
        BelongsLength(delta[p], tag);
        lines := lines + [delta[p][2..]];
      }
      p := p + 1;
    }
    assert delta[..p] == delta;
  }

  lemma RestoredNone(tag: string)
    ensures Restored([], tag) == []
  {
  }

  lemma RestoredNext(delta: seq<Line>, line: Line, tag: string)
    ensures BelongsTo(line, tag) ==> |line| >= 2
    ensures Restored(delta + [line], tag)
            == if BelongsTo(line, tag) then Restored(delta, tag) + [line[2..]] else Restored(delta, tag)
  {
    RestoredConcat(delta, [line], tag);
    assert [line][1..] == [];
  }

  lemma BelongsLength(line: Line, tag: string)
    requires BelongsTo(line, tag)
    ensures |line| >= 2
  {
  }

  // ---------- the pieces of a delta ----------

  function Dumped(tag: char, x: seq<Line>): (r: seq<Line>) {
    if x == [] then [] else Dumped(tag, x[..|x| - 1]) + [[tag, ' '] + x[|x| - 1]]
  }

  lemma {:induction false} DumpedIsDelta(tag: char, x: seq<Line>)
    ensures tag == '-' ==> IsDelta(Dumped(tag, x), x, [])
    ensures tag == '+' ==> IsDelta(Dumped(tag, x), [], x)
    ensures tag == ' ' ==> IsDelta(Dumped(tag, x), x, x)
  {
    hide IsDelta;
    NoLines();
    if x != [] {
      var init, l := x[..|x| - 1], x[|x| - 1];
      assert x == init + [l];
      var none: seq<Line> := [];
      assert none + none == none;
      DumpedIsDelta(tag, init);
      OneLine(tag, l);
      var d := Dumped(tag, init);
      if tag == '-' {
        DeltaConcat(d, [[tag, ' '] + l], init, none, [l], none);
      }
      if tag == '+' {
        DeltaConcat(d, [[tag, ' '] + l], none, init, none, [l]);
      }
      if tag == ' ' {
        DeltaConcat(d, [[tag, ' '] + l], init, init, [l], [l]);
      }
    }
  }

  method Dump(tag: char, x: seq<Line>, lo: nat, hi: nat) returns (r: seq<Line>)
    requires lo <= hi <= |x|
    ensures r == Dumped(tag, x[lo..hi])
  {
    r := [];
    var i := lo;
    while i < hi
      invariant lo <= i <= hi && r == Dumped(tag, x[lo..i])
    {
      assert x[lo..i + 1][..i - lo] == x[lo..i];
      r := r + [[tag, ' '] + x[i]];
      i := i + 1;
    }
  }

  /** A block replaced as a whole, the shorter side first. */
  method PlainReplace(a: seq<Line>, alo: nat, ahi: nat, b: seq<Line>, blo: nat, bhi: nat) returns (r: seq<Line>)
    requires alo < ahi <= |a| && blo < bhi <= |b|
    ensures IsDelta(r, a[alo..ahi], b[blo..bhi])
    ensures r == Plain(a[alo..ahi], b[blo..bhi])
  {
    hide IsDelta, Dumped;
    var minus := Dump('-', a, alo, ahi);
    var plus := Dump('+', b, blo, bhi);
    DumpedIsDelta('-', a[alo..ahi]);
    DumpedIsDelta('+', b[blo..bhi]);
    DeltaConcat(minus, plus, a[alo..ahi], [], [], b[blo..bhi]);
    DeltaConcat(plus, minus, [], b[blo..bhi], a[alo..ahi], []);
    assert a[alo..ahi] + [] == a[alo..ahi] == [] + a[alo..ahi];
    assert b[blo..bhi] + [] == b[blo..bhi] == [] + b[blo..bhi];
    r := if bhi - blo < ahi - alo then plus + minus else minus + plus;
  }

  function Repeat(c: char, n: nat): (r: string)
    ensures |r| == n
  {
    seq(n, _ => c)
  }

  /** A mark under a blank character shows that character itself; marks beyond the line are dropped. */
  function KeepOriginalWs(isSpace: char -> bool, s: string, tags: string): (r: string)
    ensures |r| == if |s| < |tags| then |s| else |tags|
  {
    if s == "" || tags == "" then ""
    else [if tags[0] == ' ' && isSpace(s[0]) then s[0] else tags[0]] + KeepOriginalWs(isSpace, s[1..], tags[1..])
  }

  lemma {:induction false} KeptAt(isSpace: char -> bool, s: string, tags: string, k: nat)
    requires k < |s| && k < |tags|
    ensures KeepOriginalWs(isSpace, s, tags)[k] == if tags[k] == ' ' && isSpace(s[k]) then s[k] else tags[k]
  {
    if k > 0 {
      KeptAt(isSpace, s[1..], tags[1..], k - 1);
    }
  }

  function StripRight(isSpace: char -> bool, s: string): (r: string)
    ensures |r| <= |s| && r == s[..|r|]
    ensures r != "" ==> !isSpace(r[|r| - 1])
    ensures forall k | |r| <= k < |s| :: isSpace(s[k])
  {
    if s != "" && isSpace(s[|s| - 1]) then StripRight(isSpace, s[..|s| - 1]) else s
  }

  function Guide(tags: string): (r: seq<Line>) {
    if tags == "" then [] else [['?', ' '] + (tags + "\n")]
  }

  /** The lines for a pair of similar lines, with the guide lines that are not blank. */
  function Quad(isSpace: char -> bool, aline: Line, bline: Line, atags: string, btags: string): (r: seq<Line>) {
    [['-', ' '] + aline] + Guide(StripRight(isSpace, KeepOriginalWs(isSpace, aline, atags)))
    + [['+', ' '] + bline] + Guide(StripRight(isSpace, KeepOriginalWs(isSpace, bline, btags)))
  }

  /** Each line of the pair is followed by its own guide line, if there is one. */
  lemma GuidesFollow(isSpace: char -> bool, aline: Line, bline: Line, atags: string, btags: string)
    ensures var r := Quad(isSpace, aline, bline, atags, btags);
            var ga := StripRight(isSpace, KeepOriginalWs(isSpace, aline, atags));
            var gb := StripRight(isSpace, KeepOriginalWs(isSpace, bline, btags));
            var second := if ga == "" then 1 else 2;
            && |r| == second + (if gb == "" then 1 else 2)
            && r[0] == "- " + aline && r[second] == "+ " + bline
            && (ga != "" ==> r[1] == "? " + ga + "\n") && (gb != "" ==> r[|r| - 1] == "? " + gb + "\n")
  {
    hide StripRight, KeepOriginalWs;
    var ga := StripRight(isSpace, KeepOriginalWs(isSpace, aline, atags));
    var gb := StripRight(isSpace, KeepOriginalWs(isSpace, bline, btags));
    assert ['-', ' '] == "- " && ['+', ' '] == "+ " && ['?', ' '] == "? ";
    assert "? " + (ga + "\n") == "? " + ga + "\n" && "? " + (gb + "\n") == "? " + gb + "\n";
  }

  /** `_qformat` */
  method QFormat(isSpace: char -> bool, aline: Line, bline: Line, atags0: string, btags0: string) returns (r: seq<Line>)
    ensures IsDelta(r, [aline], [bline])
    ensures r == Quad(isSpace, aline, bline, atags0, btags0)
  {
    var atags := StripRight(isSpace, KeepOriginalWs(isSpace, aline, atags0));
    var btags := StripRight(isSpace, KeepOriginalWs(isSpace, bline, btags0));
    hide IsDelta;
    r := [['-', ' '] + aline];
    if atags != "" {
      r := r + [['?', ' '] + (atags + "\n")];
    }
    assert r == [['-', ' '] + aline] + Guide(atags);
    r := r + [['+', ' '] + bline];
    if btags != "" {
      r := r + [['?', ' '] + (btags + "\n")];
    }
    assert r == [['-', ' '] + aline] + Guide(atags) + [['+', ' '] + bline] + Guide(btags);
    QuadIsDelta(aline, bline, atags, btags);
  }

  lemma GuideIsDelta(tags: string)
    ensures IsDelta(Guide(tags), [], [])
  {
    hide IsDelta;
    NoLines();
    OneLine('?', tags + "\n");
  }

  lemma QuadIsDelta(aline: Line, bline: Line, atags: string, btags: string)
    ensures IsDelta([['-', ' '] + aline] + Guide(atags) + [['+', ' '] + bline] + Guide(btags), [aline], [bline])
  {
    hide IsDelta, Guide;
    var p1, p2, p3, p4 := [['-', ' '] + aline], Guide(atags), [['+', ' '] + bline], Guide(btags);
    OneLine('-', aline);
    OneLine('+', bline);
    GuideIsDelta(atags);
    GuideIsDelta(btags);
    DeltaConcat(p1, p2, [aline], [], [], []);
    DeltaConcat(p1 + p2, p3, [aline] + [], [] + [], [], [bline]);
    DeltaConcat(p1 + p2 + p3, p4, [aline] + [] + [], [] + [] + [bline], [], []);
    assert [aline] + [] + [] + [] == [aline] && [] + [] + [bline] + [] == [bline];
  }

  // ---------- the search for a pair of similar lines ----------

  /** How similar two lines are: the exact score, and the two cheaper ones that are tried first. */
  datatype Similarity = Similarity(ratio: (Line, Line) -> real, quick: (Line, Line) -> real,
                                   realQuick: (Line, Line) -> real)

  const START: real := 0.74
  const CUTOFF: real := 0.75

  /** A pair of different lines whose cheap scores do not hide the exact one. */
  predicate Eligible(sim: Similarity, x: Line, y: Line) {
    x != y && sim.ratio(x, y) <= sim.quick(x, y) && sim.ratio(x, y) <= sim.realQuick(x, y)
  }

  /** The scores that the matcher itself computes. */
  ghost function OwnScores(charjunk: Option<char -> bool>): Similarity {
    Similarity((x: Line, y: Line) => OwnRatio(x, y, charjunk),
               (x: Line, y: Line) => CalculateRatio(Common(multiset(x), multiset(y)), |x| + |y|),
               (x: Line, y: Line) => CalculateRatio(Shorter(x, y), |x| + |y|))
  }

  ghost function OwnRatio(x: Line, y: Line, charjunk: Option<char -> bool>): real {
    CalculateRatio(TotalSize(Matches(x, y, KeysOf(y, charjunk, true), JunkOf(y, charjunk))), |x| + |y|)
  }

  /** With the matcher's own scores no pair of different lines is hidden by a cheaper score. */
  lemma OwnScoresHideNothing(charjunk: Option<char -> bool>, x: Line, y: Line)
    ensures Eligible(OwnScores(charjunk), x, y) <==> x != y
  {
    RatioBounds(x, y, KeysOf(y, charjunk, true), JunkOf(y, charjunk));
  }

  /** The search goes through `a` for each line of `b`: pair `(x, y)` is looked at before `(i, j)`. */
  predicate Earlier(x: nat, y: nat, i: nat, j: nat) {
    y < j || (y == j && x < i)
  }

  /**
   Among the pairs before `(i, j)`, `best` belongs to the first different one with the highest score above the start.
   */
  ghost predicate FirstBest(sim: Similarity, a: seq<Line>, alo: nat, ahi: nat, b: seq<Line>, blo: nat, bhi: nat,
                            i: nat, j: nat, best: real, bestI: nat, bestJ: nat)
    requires ahi <= |a| && bhi <= |b|
  {
    && best >= START && alo <= bestI < ahi && blo <= bestJ < bhi
    && (best > START ==> Earlier(bestI, bestJ, i, j) && a[bestI] != b[bestJ] && best == sim.ratio(a[bestI], b[bestJ]))
    && forall x, y | alo <= x < ahi && blo <= y < bhi && Earlier(x, y, i, j) && Eligible(sim, a[x], b[y]) ::
         && sim.ratio(a[x], b[y]) <= best
         && (best > START && Earlier(x, y, bestI, bestJ) ==> sim.ratio(a[x], b[y]) < best)
  }

  /** The first pair of equal lines before `(i, j)`, if there is one. */
  ghost predicate FirstEqual(a: seq<Line>, alo: nat, ahi: nat, b: seq<Line>, blo: nat, bhi: nat,
                             i: nat, j: nat, eq: Option<(nat, nat)>)
    requires ahi <= |a| && bhi <= |b|
  {
    && (eq.Some? ==> alo <= eq.value.0 < ahi && blo <= eq.value.1 < bhi && a[eq.value.0] == b[eq.value.1]
                     && Earlier(eq.value.0, eq.value.1, i, j))
    && forall x, y | alo <= x < ahi && blo <= y < bhi && Earlier(x, y, i, j) && a[x] == b[y] ::
         eq.Some? && !Earlier(x, y, eq.value.0, eq.value.1)
  }

  predicate Better(sim: Similarity, x: Line, y: Line, best: real) {
    x != y && sim.realQuick(x, y) > best && sim.quick(x, y) > best && sim.ratio(x, y) > best
  }

  /** So the pair that is chosen is the first of the most similar ones among all different lines. */
  lemma OwnBestIsBest(charjunk: Option<char -> bool>, a: seq<Line>, alo: nat, ahi: nat, b: seq<Line>, blo: nat,
                      bhi: nat,
                      best: real, bestI: nat, bestJ: nat, x: nat, y: nat)
    requires ahi <= |a| && bhi <= |b| && alo <= x < ahi && blo <= y < bhi && a[x] != b[y]
    requires FirstBest(OwnScores(charjunk), a, alo, ahi, b, blo, bhi, alo, bhi, best, bestI, bestJ)
    ensures OwnRatio(a[x], b[y], charjunk) <= best
    ensures best > START && Earlier(x, y, bestI, bestJ) ==> OwnRatio(a[x], b[y], charjunk) < best
    ensures best > START ==> best == OwnRatio(a[bestI], b[bestJ], charjunk)
  {
    hide OwnRatio, Eligible;
    OwnScoresHideNothing(charjunk, a[x], b[y]);
  }

  lemma NextEqual(a: seq<Line>, alo: nat, ahi: nat, b: seq<Line>, blo: nat, bhi: nat, i: nat, j: nat,
                  eq: Option<(nat, nat)>)
    requires alo <= i < ahi <= |a| && blo <= j < bhi <= |b| && FirstEqual(a, alo, ahi, b, blo, bhi, i, j, eq)
    ensures FirstEqual(a, alo, ahi, b, blo, bhi, i + 1, j, if eq.None? && a[i] == b[j] then Some((i, j)) else eq)
  {
  }

  lemma NextBest(sim: Similarity, a: seq<Line>, alo: nat, ahi: nat, b: seq<Line>, blo: nat, bhi: nat,
                 i: nat, j: nat, best: real, bestI: nat, bestJ: nat)
    requires alo <= i < ahi <= |a| && blo <= j < bhi <= |b|
    requires FirstBest(sim, a, alo, ahi, b, blo, bhi, i, j, best, bestI, bestJ)
    ensures Better(sim, a[i], b[j], best) ==> a[i] != b[j]
    ensures var r := sim.ratio(a[i], b[j]);
            if Better(sim, a[i], b[j], best) then FirstBest(sim, a, alo, ahi, b, blo, bhi, i + 1, j, r, i, j)
            else FirstBest(sim, a, alo, ahi, b, blo, bhi, i + 1, j, best, bestI, bestJ)
  {
  }

  lemma NextLine(sim: Similarity, a: seq<Line>, alo: nat, ahi: nat, b: seq<Line>, blo: nat, bhi: nat,
                 j: nat, best: real, bestI: nat, bestJ: nat, eq: Option<(nat, nat)>)
    requires alo < ahi <= |a| && blo <= j < bhi <= |b|
    requires FirstBest(sim, a, alo, ahi, b, blo, bhi, ahi, j, best, bestI, bestJ)
    requires FirstEqual(a, alo, ahi, b, blo, bhi, ahi, j, eq)
    ensures FirstBest(sim, a, alo, ahi, b, blo, bhi, alo, j + 1, best, bestI, bestJ)
    ensures FirstEqual(a, alo, ahi, b, blo, bhi, alo, j + 1, eq)
  {
  }

  lemma BestRange(sim: Similarity, a: seq<Line>, alo: nat, ahi: nat, b: seq<Line>, blo: nat, bhi: nat,
                  i: nat, j: nat, best: real, bestI: nat, bestJ: nat, eq: Option<(nat, nat)>)
    requires ahi <= |a| && bhi <= |b| && FirstBest(sim, a, alo, ahi, b, blo, bhi, i, j, best, bestI, bestJ)
    requires FirstEqual(a, alo, ahi, b, blo, bhi, i, j, eq)
    ensures best >= START && alo <= bestI < ahi && blo <= bestJ < bhi && (best > START ==> a[bestI] != b[bestJ])
    ensures eq.Some? ==> alo <= eq.value.0 < ahi && blo <= eq.value.1 < bhi && a[eq.value.0] == b[eq.value.1]
  {
  }

  /**
   The first pair of different lines with the highest score above the start value, and the first pair of equal lines.
   */
  method BestPair(sim: Similarity, a: seq<Line>, alo: nat, ahi: nat, b: seq<Line>, blo: nat, bhi: nat)
    returns (best: real, bestI: nat, bestJ: nat, eq: Option<(nat, nat)>)
    requires alo < ahi <= |a| && blo < bhi <= |b|
    ensures FirstBest(sim, a, alo, ahi, b, blo, bhi, alo, bhi, best, bestI, bestJ)
    ensures FirstEqual(a, alo, ahi, b, blo, bhi, alo, bhi, eq)
  {
    best, bestI, bestJ, eq := START, alo, blo, None;
    var j := blo;
    assert FirstBest(sim, a, alo, ahi, b, blo, bhi, alo, j, best, bestI, bestJ);
    assert FirstEqual(a, alo, ahi, b, blo, bhi, alo, j, eq);
    hide FirstBest, FirstEqual;
    while j < bhi
      invariant blo <= j <= bhi
      invariant FirstBest(sim, a, alo, ahi, b, blo, bhi, alo, j, best, bestI, bestJ)
      invariant FirstEqual(a, alo, ahi, b, blo, bhi, alo, j, eq)
    {
      best, bestI, bestJ, eq := SearchLine(sim, a, alo, ahi, b, blo, bhi, j, best, bestI, bestJ, eq);
      NextLine(sim, a, alo, ahi, b, blo, bhi, j, best, bestI, bestJ, eq);
      j := j + 1;
    }
  }

  /** The inner loop: all lines of `a` against one line of `b`. */
  method SearchLine(sim: Similarity, a: seq<Line>, alo: nat, ahi: nat, b: seq<Line>, blo: nat, bhi: nat, j: nat,
                    best0: real, bestI0: nat, bestJ0: nat, eq0: Option<(nat, nat)>)
    returns (best: real, bestI: nat, bestJ: nat, eq: Option<(nat, nat)>)
    requires alo < ahi <= |a| && blo <= j < bhi <= |b|
    requires FirstBest(sim, a, alo, ahi, b, blo, bhi, alo, j, best0, bestI0, bestJ0)
    requires FirstEqual(a, alo, ahi, b, blo, bhi, alo, j, eq0)
    ensures FirstBest(sim, a, alo, ahi, b, blo, bhi, ahi, j, best, bestI, bestJ)
    ensures FirstEqual(a, alo, ahi, b, blo, bhi, ahi, j, eq)
  {
    hide FirstBest, FirstEqual, Better;
    best, bestI, bestJ, eq := best0, bestI0, bestJ0, eq0;
    var i := alo;
    while i < ahi
      invariant alo <= i <= ahi
      invariant FirstBest(sim, a, alo, ahi, b, blo, bhi, i, j, best, bestI, bestJ)
      invariant FirstEqual(a, alo, ahi, b, blo, bhi, i, j, eq)
    {
      NextBest(sim, a, alo, ahi, b, blo, bhi, i, j, best, bestI, bestJ);
      NextEqual(a, alo, ahi, b, blo, bhi, i, j, eq);
      if a[i] == b[j] {
        if eq.None? {
          eq := Some((i, j));
        }
        i := i + 1;
        continue;
      }
      if Better(sim, a[i], b[j], best) {
        best, bestI, bestJ := sim.ratio(a[i], b[j]), i, j;
      }
      i := i + 1;
    }
  }

  // ---------- the delta of two lists of lines ----------

  /** The characters of a line whose mark is blank. */
  function Unmarked(s: string, tags: string): (r: string)
    requires |s| == |tags|
  {
    if s == "" then ""
    else Unmarked(s[..|s| - 1], tags[..|s| - 1]) + if tags[|s| - 1] == ' ' then [s[|s| - 1]] else []
  }

  function NewMarks(op: Opcode): (r: (string, string))
    requires op.i1 <= op.i2 && op.j1 <= op.j2
  {
    var la, lb := op.i2 - op.i1, op.j2 - op.j1;
    match op.tag
    case Replace => (Repeat('^', la), Repeat('^', lb))
    case Delete => (Repeat('-', la), "")
    case Insert => ("", Repeat('+', lb))
    case Equal => (Repeat(' ', la), Repeat(' ', lb))
  }

  predicate Ranged(ops: seq<Opcode>) {
    forall p | 0 <= p < |ops| :: ops[p].i1 <= ops[p].i2 && ops[p].j1 <= ops[p].j2
  }

  /** The marks of a whole script. */
  function AllMarks(ops: seq<Opcode>): (r: (string, string))
    requires Ranged(ops)
  {
    if ops == [] then ("", "")
    else
      var before, last := AllMarks(ops[..|ops| - 1]), NewMarks(ops[|ops| - 1]);
      (before.0 + last.0, before.1 + last.1)
  }

  predicate MarksIn(tags: string, allowed: string) {
    forall i | 0 <= i < |tags| :: tags[i] in allowed
  }

  /** The marks so far cover the same part of both lines, up to the characters marked. */
  predicate Marked(a: Line, b: Line, atags: string, btags: string) {
    && |atags| <= |a| && |btags| <= |b| && MarksIn(atags, "^- ") && MarksIn(btags, "^+ ")
    && Unmarked(a[..|atags|], atags) == Unmarked(b[..|btags|], btags)
  }

  lemma AllMarked(a: Line, b: Line, atags: string, btags: string)
    requires Marked(a, b, atags, btags) && |atags| == |a| && |btags| == |b|
    ensures Unmarked(a, atags) == Unmarked(b, btags) && MarksIn(atags, "^- ") && MarksIn(btags, "^+ ")
  {
    assert a[..|a|] == a && b[..|b|] == b;
  }

  lemma {:induction false} UnmarkedRepeat(s: string, tags: string, more: string, c: char)
    requires |s| == |tags|
    ensures Unmarked(s + more, tags + Repeat(c, |more|)) == Unmarked(s, tags) + if c == ' ' then more else ""
  {
    var t := tags + Repeat(c, |more|);
    if more == "" {
      assert s + more == s && t == tags;
    } else {
      var n := |more| - 1;
      UnmarkedRepeat(s, tags, more[..n], c);
      assert (s + more)[..|s| + n] == s + more[..n];
      assert t[..|s| + n] == tags + Repeat(c, n);
      assert more == more[..n] + [more[n]];
    }
  }

  lemma NewMarksIn(op: Opcode)
    requires op.i1 <= op.i2 && op.j1 <= op.j2
    ensures MarksIn(NewMarks(op).0, "^- ") && MarksIn(NewMarks(op).1, "^+ ")
  {
  }

  lemma MarksConcat(s: string, t: string, allowed: string)
    requires MarksIn(s, allowed) && MarksIn(t, allowed)
    ensures MarksIn(s + t, allowed)
  {
  }

  lemma MarkStep(op: Opcode, a: Line, b: Line, atags: string, btags: string)
    requires Truthful(op, a, b) && op.i1 == |atags| && op.j1 == |btags| && Marked(a, b, atags, btags)
    ensures op.i1 <= op.i2 <= |a| && op.j1 <= op.j2 <= |b|
    ensures |atags| + |NewMarks(op).0| == op.i2 && |btags| + |NewMarks(op).1| == op.j2
    ensures Marked(a, b, atags + NewMarks(op).0, btags + NewMarks(op).1)
  {
    hide Unmarked, MarksIn;
    NewMarksIn(op);
    MarksConcat(atags, NewMarks(op).0, "^- ");
    MarksConcat(btags, NewMarks(op).1, "^+ ");
    assert a[..op.i2] == a[..op.i1] + a[op.i1..op.i2];
    assert b[..op.j2] == b[..op.j1] + b[op.j1..op.j2];
    var ca := match op.tag case Replace => '^' case Delete => '-' case Insert => '-' case Equal => ' ';
    var cb := match op.tag case Replace => '^' case Delete => '+' case Insert => '+' case Equal => ' ';
    UnmarkedRepeat(a[..op.i1], atags, a[op.i1..op.i2], ca);
    UnmarkedRepeat(b[..op.j1], btags, b[op.j1..op.j2], cb);
    assert Repeat(ca, 0) == "" && Repeat(cb, 0) == "";
  }

  lemma NextSlices(delta: seq<Line>, g: seq<Line>, a: seq<Line>, i: nat, i': nat, b: seq<Line>, j: nat, j': nat)
    requires i <= i' <= |a| && j <= j' <= |b|
    requires IsDelta(delta, a[..i], b[..j]) && IsDelta(g, a[i..i'], b[j..j'])
    ensures IsDelta(delta + g, a[..i'], b[..j'])
  {
    hide IsDelta;
    DeltaConcat(delta, g, a[..i], b[..j], a[i..i'], b[j..j']);
    assert a[..i] + a[i..i'] == a[..i'] && b[..j] + b[j..j'] == b[..j'];
  }

  lemma AroundPair(before: seq<Line>, pair: seq<Line>, after: seq<Line>,
                   a: seq<Line>, alo: nat, i: nat, ahi: nat, b: seq<Line>, blo: nat, j: nat, bhi: nat)
    requires alo <= i < ahi <= |a| && blo <= j < bhi <= |b|
    requires IsDelta(before, a[alo..i], b[blo..j]) && IsDelta(pair, [a[i]], [b[j]])
    requires IsDelta(after, a[i + 1..ahi], b[j + 1..bhi])
    ensures IsDelta(before + pair + after, a[alo..ahi], b[blo..bhi])
  {
    hide IsDelta;
    DeltaConcat(before, pair, a[alo..i], b[blo..j], [a[i]], [b[j]]);
    DeltaConcat(before + pair, after, a[alo..i] + [a[i]], b[blo..j] + [b[j]], a[i + 1..ahi], b[j + 1..bhi]);
    assert a[alo..i] + [a[i]] + a[i + 1..ahi] == a[alo..ahi];
    assert b[blo..j] + [b[j]] + b[j + 1..bhi] == b[blo..bhi];
  }

  lemma TruthfulRange(op: Opcode, a: seq<Line>, b: seq<Line>)
    requires Truthful(op, a, b)
    ensures op.i1 <= op.i2 <= |a| && op.j1 <= op.j2 <= |b|
  {
  }

  lemma TruthfulIsRanged(ops: seq<Opcode>, a: Line, b: Line)
    requires AllTruthful(ops, a, b)
    ensures Ranged(ops)
  {
    forall p | 0 <= p < |ops| ensures ops[p].i1 <= ops[p].i2 && ops[p].j1 <= ops[p].j2 {
      assert Truthful(ops[p], a, b);
    }
  }

  lemma AllMarksSnoc(ops: seq<Opcode>, p: nat)
    requires Ranged(ops) && p < |ops|
    ensures Ranged(ops[..p]) && Ranged(ops[..p + 1])
    ensures AllMarks(ops[..p + 1])
            == (AllMarks(ops[..p]).0 + NewMarks(ops[p]).0, AllMarks(ops[..p]).1 + NewMarks(ops[p]).1)
  {
    assert ops[..p + 1][..p] == ops[..p];
  }

  predicate Splits(r: seq<Line>, before: seq<Line>, pair: seq<Line>, after: seq<Line>) {
    r == before + pair + after
  }

  /** A block replaced as a whole, the shorter side first. */
  function Plain(x: seq<Line>, y: seq<Line>): (r: seq<Line>) {
    if |y| < |x| then Dumped('+', y) + Dumped('-', x) else Dumped('-', x) + Dumped('+', y)
  }

  lemma {:induction false} DumpedTags(tag: char, x: seq<Line>)
    ensures |Dumped(tag, x)| == |x| && forall p | 0 <= p < |x| :: Dumped(tag, x)[p] == [tag, ' '] + x[p]
  {
    if x != [] {
      DumpedTags(tag, x[..|x| - 1]);
    }
  }

  /** The lines of the shorter side come first, and those of the first list when neither is shorter. */
  lemma ShorterFirst(x: seq<Line>, y: seq<Line>, p: nat)
    requires p < |x| + |y|
    ensures |Plain(x, y)| == |x| + |y|
    ensures |y| < |x| ==> Plain(x, y)[p] == if p < |y| then ['+', ' '] + y[p] else ['-', ' '] + x[p - |y|]
    ensures |x| <= |y| ==> Plain(x, y)[p] == if p < |x| then ['-', ' '] + x[p] else ['+', ' '] + y[p - |x|]
  {
    DumpedTags('-', x);
    DumpedTags('+', y);
    hide Dumped;
  }

  // ---------- the marks, place by place ----------

  /** The mark for the characters of a step; `own` marks those of one line alone. */
  function MarkFor(tag: Tag, own: char): (c: char) {
    match tag
    case Equal => ' '
    case Replace => '^'
    case Delete => own
    case Insert => own
  }

  /** The characters of a step are marked after its tag. */
  predicate StepMarked(op: Opcode, atags: string, btags: string) {
    && op.i2 <= |atags| && (forall k | op.i1 <= k < op.i2 :: atags[k] == MarkFor(op.tag, '-'))
    && op.j2 <= |btags| && (forall k | op.j1 <= k < op.j2 :: btags[k] == MarkFor(op.tag, '+'))
  }

  predicate MarkedBy(ops: seq<Opcode>, atags: string, btags: string) {
    forall p | 0 <= p < |ops| :: StepMarked(ops[p], atags, btags)
  }

  lemma StaysMarked(op: Opcode, atags: string, btags: string, moreA: string, moreB: string)
    requires StepMarked(op, atags, btags)
    ensures StepMarked(op, atags + moreA, btags + moreB)
  {
  }

  lemma NewlyMarked(op: Opcode, atags: string, btags: string, a: Line, b: Line)
    requires Truthful(op, a, b) && |atags| == op.i1 && |btags| == op.j1
    ensures StepMarked(op, atags + NewMarks(op).0, btags + NewMarks(op).1)
  {
  }

  lemma NextMarked(ops: seq<Opcode>, op: Opcode, atags: string, btags: string, a: Line, b: Line)
    requires MarkedBy(ops, atags, btags) && Truthful(op, a, b) && |atags| == op.i1 && |btags| == op.j1
    ensures MarkedBy(ops + [op], atags + NewMarks(op).0, btags + NewMarks(op).1)
  {
    NewlyMarked(op, atags, btags, a, b);
    forall p | 0 <= p < |ops| ensures StepMarked(ops[p], atags + NewMarks(op).0, btags + NewMarks(op).1) {
      StaysMarked(ops[p], atags, btags, NewMarks(op).0, NewMarks(op).1);
    }
    hide StepMarked, NewMarks;
  }

  /** The script that turns one sequence into the other. */
  ghost function ScriptOf<T>(a: seq<T>, b: seq<T>, junk: Option<T -> bool>): (r: seq<Opcode>) {
    Script(0, 0, Matches(a, b, KeysOf(b, junk, true), JunkOf(b, junk)))
  }

  class Differ {
    const linejunk: Option<Line -> bool>
    const charjunk: Option<char -> bool>
    const isSpace: char -> bool
    const sim: Similarity

    constructor (linejunk: Option<Line -> bool>, charjunk: Option<char -> bool>, isSpace: char -> bool, sim: Similarity)
      ensures this.linejunk == linejunk && this.charjunk == charjunk && this.isSpace == isSpace && this.sim == sim
    {
      this.linejunk, this.charjunk, this.isSpace, this.sim := linejunk, charjunk, isSpace, sim;
    }

    /** The lines for a similar pair: its guide lines mark what the script between the two lines changes. */
    ghost predicate IsQuad(lines: seq<Line>, x: Line, y: Line) {
      Ranged(ScriptOf(x, y, charjunk))
      && lines == Quad(isSpace, x, y, AllMarks(ScriptOf(x, y, charjunk)).0, AllMarks(ScriptOf(x, y, charjunk)).1)
    }

    /**
     What replaces a block of lines by another: a one-sided block is listed; else the most similar pair is taken, if it
     is similar enough, or the first equal pair, and the blocks before and after it are replaced likewise.
     */
    ghost predicate IsReplacement(r: seq<Line>, a: seq<Line>, alo: nat, ahi: nat, b: seq<Line>, blo: nat, bhi: nat)
      requires alo <= ahi <= |a| && blo <= bhi <= |b|
      decreases ahi - alo + bhi - blo, 1
    {
      if alo == ahi then r == Dumped('+', b[blo..bhi])
      else if blo == bhi then r == Dumped('-', a[alo..ahi])
      else
        exists best: real, bestI: nat, bestJ: nat ::
          && FirstBest(sim, a, alo, ahi, b, blo, bhi, alo, bhi, best, bestI, bestJ)
          && exists eq: Option<(nat, nat)> ::
               && FirstEqual(a, alo, ahi, b, blo, bhi, alo, bhi, eq)
               && if best < CUTOFF && eq.None? then r == Plain(a[alo..ahi], b[blo..bhi])
                  else if best < CUTOFF then IsAround(r, a, alo, eq.value.0, ahi, b, blo, eq.value.1, bhi, true)
                  else IsAround(r, a, alo, bestI, ahi, b, blo, bestJ, bhi, false)
    }

    /** The lines around a pair that is taken as it stands (`identical`) or as a similar one. */
    ghost predicate IsAround(r: seq<Line>, a: seq<Line>, alo: nat, i: nat, ahi: nat, b: seq<Line>, blo: nat, j: nat,
                             bhi: nat,
                             identical: bool)
      requires alo <= i < ahi <= |a| && blo <= j < bhi <= |b|
      decreases ahi - alo + bhi - blo, 0
    {
      exists before: seq<Line>, pair: seq<Line>, after: seq<Line> ::
        && Splits(r, before, pair, after)
        && IsReplacement(before, a, alo, i, b, blo, j)
        && IsSynched(pair, a[i], b[j], identical)
        && IsReplacement(after, a, i + 1, ahi, b, j + 1, bhi)
    }

    ghost predicate IsSynched(pair: seq<Line>, x: Line, y: Line, identical: bool) {
      if identical then pair == [[' ', ' '] + x] else IsQuad(pair, x, y)
    }

    lemma OneSided(g: seq<Line>, a: seq<Line>, alo: nat, ahi: nat, b: seq<Line>, blo: nat, bhi: nat)
      requires alo <= ahi <= |a| && blo <= bhi <= |b|
      ensures alo == ahi ==> (IsReplacement(g, a, alo, ahi, b, blo, bhi) <==> g == Dumped('+', b[blo..bhi]))
      ensures alo < ahi && blo == bhi
              ==> (IsReplacement(g, a, alo, ahi, b, blo, bhi) <==> g == Dumped('-', a[alo..ahi]))
      ensures Dumped('+', []) == []
    {
    }

    lemma ReplacedWhole(r: seq<Line>, a: seq<Line>, alo: nat, ahi: nat, b: seq<Line>, blo: nat, bhi: nat,
                        best: real, bestI: nat, bestJ: nat)
      requires alo < ahi <= |a| && blo < bhi <= |b| && best < CUTOFF && r == Plain(a[alo..ahi], b[blo..bhi])
      requires FirstBest(sim, a, alo, ahi, b, blo, bhi, alo, bhi, best, bestI, bestJ)
      requires FirstEqual(a, alo, ahi, b, blo, bhi, alo, bhi, None)
      ensures IsReplacement(r, a, alo, ahi, b, blo, bhi)
    {
      hide FirstBest, FirstEqual, Plain, Dumped;
    }

    lemma ReplacedAround(r: seq<Line>, a: seq<Line>, alo: nat, i: nat, ahi: nat, b: seq<Line>, blo: nat, j: nat,
                         bhi: nat,
                         best: real, bestI: nat, bestJ: nat, eq: Option<(nat, nat)>)
      requires alo <= i < ahi <= |a| && blo <= j < bhi <= |b|
      requires FirstBest(sim, a, alo, ahi, b, blo, bhi, alo, bhi, best, bestI, bestJ)
      requires FirstEqual(a, alo, ahi, b, blo, bhi, alo, bhi, eq)
      requires if best < CUTOFF then eq == Some((i, j)) else i == bestI && j == bestJ
      requires IsAround(r, a, alo, i, ahi, b, blo, j, bhi, best < CUTOFF)
      ensures IsReplacement(r, a, alo, ahi, b, blo, bhi)
    {
      BestRange(sim, a, alo, ahi, b, blo, bhi, alo, bhi, best, bestI, bestJ, eq);
      hide FirstBest, FirstEqual, Plain, Dumped, IsAround;
    }

    lemma PutAround(before: seq<Line>, pair: seq<Line>, after: seq<Line>,
                    a: seq<Line>, alo: nat, i: nat, ahi: nat, b: seq<Line>, blo: nat, j: nat, bhi: nat, identical: bool)
      requires alo <= i < ahi <= |a| && blo <= j < bhi <= |b| && IsSynched(pair, a[i], b[j], identical)
      requires IsReplacement(before, a, alo, i, b, blo, j) && IsReplacement(after, a, i + 1, ahi, b, j + 1, bhi)
      ensures IsAround(before + pair + after, a, alo, i, ahi, b, blo, j, bhi, identical)
    {
      hide IsReplacement, IsSynched;
      assert Splits(before + pair + after, before, pair, after);
    }

    /** Two different lines at least three quarters alike, by the matcher's own score. */
    ghost predicate Alike(x: Line, y: Line) {
      x != y && OwnRatio(x, y, charjunk) >= 0.75
    }

    lemma ReplacementCases(r: seq<Line>, a: seq<Line>, alo: nat, ahi: nat, b: seq<Line>, blo: nat, bhi: nat)
      returns (best: real, bestI: nat, bestJ: nat, eq: Option<(nat, nat)>)
      requires alo < ahi <= |a| && blo < bhi <= |b| && IsReplacement(r, a, alo, ahi, b, blo, bhi)
      ensures FirstBest(sim, a, alo, ahi, b, blo, bhi, alo, bhi, best, bestI, bestJ)
      ensures alo <= bestI < ahi && blo <= bestJ < bhi && (best > START ==> a[bestI] != b[bestJ])
      ensures FirstEqual(a, alo, ahi, b, blo, bhi, alo, bhi, eq)
      ensures best >= CUTOFF ==> IsAround(r, a, alo, bestI, ahi, b, blo, bestJ, bhi, false)
      ensures best < CUTOFF && eq.None? ==> r == Plain(a[alo..ahi], b[blo..bhi])
      ensures best < CUTOFF && eq.Some? ==>
        var (i, j) := eq.value;
        && alo <= i < ahi && blo <= j < bhi && a[i] == b[j]
        && IsAround(r, a, alo, i, ahi, b, blo, j, bhi, true)
    {
      hide IsAround, Plain;
      best, bestI, bestJ :|
        && FirstBest(sim, a, alo, ahi, b, blo, bhi, alo, bhi, best, bestI, bestJ)
        && exists eq: Option<(nat, nat)> ::
             && FirstEqual(a, alo, ahi, b, blo, bhi, alo, bhi, eq)
             && if best < CUTOFF && eq.None? then r == Plain(a[alo..ahi], b[blo..bhi])
                else if best < CUTOFF then IsAround(r, a, alo, eq.value.0, ahi, b, blo, eq.value.1, bhi, true)
                else IsAround(r, a, alo, bestI, ahi, b, blo, bestJ, bhi, false);
      eq :|
        && FirstEqual(a, alo, ahi, b, blo, bhi, alo, bhi, eq)
        && if best < CUTOFF && eq.None? then r == Plain(a[alo..ahi], b[blo..bhi])
           else if best < CUTOFF then IsAround(r, a, alo, eq.value.0, ahi, b, blo, eq.value.1, bhi, true)
           else IsAround(r, a, alo, bestI, ahi, b, blo, bestJ, bhi, false);
    }

    lemma BestAlike(a: seq<Line>, alo: nat, ahi: nat, b: seq<Line>, blo: nat, bhi: nat,
                    best: real, bestI: nat, bestJ: nat)
      requires ahi <= |a| && bhi <= |b| && sim == OwnScores(charjunk)
      requires FirstBest(sim, a, alo, ahi, b, blo, bhi, alo, bhi, best, bestI, bestJ)
      ensures alo <= bestI < ahi && blo <= bestJ < bhi
      ensures best >= CUTOFF <==> exists x, y | alo <= x < ahi && blo <= y < bhi :: Alike(a[x], b[y])
      ensures best >= CUTOFF ==> Alike(a[bestI], b[bestJ]) && best == OwnRatio(a[bestI], b[bestJ], charjunk)
      ensures forall x, y | alo <= x < ahi && blo <= y < bhi && a[x] != b[y] && best > START ::
                && OwnRatio(a[x], b[y], charjunk) <= best
                && (Earlier(x, y, bestI, bestJ) ==> OwnRatio(a[x], b[y], charjunk) < best)
    {
      hide OwnRatio, Eligible;
      if best >= CUTOFF {
        OwnBestIsBest(charjunk, a, alo, ahi, b, blo, bhi, best, bestI, bestJ, bestI, bestJ);
      }
      forall x, y | alo <= x < ahi && blo <= y < bhi && a[x] != b[y]
        ensures OwnRatio(a[x], b[y], charjunk) <= best
        ensures best > START && Earlier(x, y, bestI, bestJ) ==> OwnRatio(a[x], b[y], charjunk) < best
      {
        OwnBestIsBest(charjunk, a, alo, ahi, b, blo, bhi, best, bestI, bestJ, x, y);
      }
    }

    /** If there are lines alike, the first of the most similar pairs is synched on. */
    lemma AlikeIsTaken(r: seq<Line>, a: seq<Line>, alo: nat, ahi: nat, b: seq<Line>, blo: nat, bhi: nat, x: nat, y: nat)
      returns (i: nat, j: nat)
      requires alo <= x < ahi <= |a| && blo <= y < bhi <= |b| && Alike(a[x], b[y])
      requires sim == OwnScores(charjunk) && IsReplacement(r, a, alo, ahi, b, blo, bhi)
      ensures alo <= i < ahi && blo <= j < bhi && Alike(a[i], b[j])
      ensures IsAround(r, a, alo, i, ahi, b, blo, j, bhi, false)
      ensures forall x', y' | alo <= x' < ahi && blo <= y' < bhi && a[x'] != b[y'] ::
                && OwnRatio(a[x'], b[y'], charjunk) <= OwnRatio(a[i], b[j], charjunk)
                && (Earlier(x', y', i, j) ==> OwnRatio(a[x'], b[y'], charjunk) < OwnRatio(a[i], b[j], charjunk))
    {
      hide FirstEqual, FirstBest, IsAround, IsReplacement, Alike, OwnRatio, Plain, OwnScores;
      var best, bestI, bestJ, eq := ReplacementCases(r, a, alo, ahi, b, blo, bhi);
      BestAlike(a, alo, ahi, b, blo, bhi, best, bestI, bestJ);
      i, j := bestI, bestJ;
    }

    /**
     Without lines alike the first pair of equal lines is synched on; without either the block is replaced plainly.
     */
    lemma NoneAlike(r: seq<Line>, a: seq<Line>, alo: nat, ahi: nat, b: seq<Line>, blo: nat, bhi: nat)
      returns (eq: Option<(nat, nat)>)
      requires alo < ahi <= |a| && blo < bhi <= |b| && IsReplacement(r, a, alo, ahi, b, blo, bhi)
      requires sim == OwnScores(charjunk)
      requires forall x, y | alo <= x < ahi && blo <= y < bhi :: !Alike(a[x], b[y])
      ensures FirstEqual(a, alo, ahi, b, blo, bhi, alo, bhi, eq)
      ensures eq.None? ==> r == Plain(a[alo..ahi], b[blo..bhi])
      ensures eq.Some? ==>
        var (i, j) := eq.value;
        && alo <= i < ahi && blo <= j < bhi && a[i] == b[j]
        && IsAround(r, a, alo, i, ahi, b, blo, j, bhi, true)
    {
      hide FirstEqual, FirstBest, IsAround, IsReplacement, Alike, OwnRatio, Plain, OwnScores;
      var best, bestI, bestJ, found := ReplacementCases(r, a, alo, ahi, b, blo, bhi);
      BestAlike(a, alo, ahi, b, blo, bhi, best, bestI, bestJ);
      eq := found;
    }

    /** What a step of the script between the two lists becomes. */
    ghost predicate IsPiece(g: seq<Line>, a: seq<Line>, b: seq<Line>, op: Opcode)
      requires Within(op, a, b)
    {
      match op.tag
      case Replace => IsReplacement(g, a, op.i1, op.i2, b, op.j1, op.j2)
      case Delete => g == Dumped('-', a[op.i1..op.i2])
      case Insert => g == Dumped('+', b[op.j1..op.j2])
      case Equal => g == Dumped(' ', a[op.i1..op.i2])
    }

    /** The pieces of the steps, one after the other. */
    ghost predicate ArePieces(delta: seq<Line>, a: seq<Line>, b: seq<Line>, ops: seq<Opcode>)
      requires AllWithin(ops, a, b)
      decreases |ops|
    {
      if ops == [] then delta == []
      else
        exists before: seq<Line>, last: seq<Line> ::
          && Splits(delta, before, last, [])
          && ArePieces(before, a, b, ops[..|ops| - 1]) && IsPiece(last, a, b, ops[|ops| - 1])
    }

    lemma NextPiece(delta: seq<Line>, g: seq<Line>, a: seq<Line>, b: seq<Line>, ops: seq<Opcode>, p: nat)
      requires AllWithin(ops, a, b) && p < |ops| && ArePieces(delta, a, b, ops[..p]) && IsPiece(g, a, b, ops[p])
      ensures ArePieces(delta + g, a, b, ops[..p + 1])
    {
      assert ops[..p + 1][..p] == ops[..p];
      assert delta + g == delta + g + [];
      assert Splits(delta + g, delta, g, []);
      hide IsPiece, Splits;
    }

    /** The marks for the guide lines of a pair of similar lines: what is left unmarked is common to both. */
    method Marks(aelt: Line, belt: Line) returns (atags: string, btags: string)
      ensures Ranged(ScriptOf(aelt, belt, charjunk)) && (atags, btags) == AllMarks(ScriptOf(aelt, belt, charjunk))
      ensures |atags| == |aelt| && |btags| == |belt|
      ensures Unmarked(aelt, atags) == Unmarked(belt, btags)
      ensures MarksIn(atags, "^- ") && MarksIn(btags, "^+ ")
      ensures MarkedBy(ScriptOf(aelt, belt, charjunk), atags, btags)
    {
      var cruncher := new SequenceMatcher(charjunk, aelt, belt, true);
      var ops := cruncher.GetOpcodes();
      atags, btags := MarksOf(ops, aelt, belt);
    }

    method MarksOf(ops: seq<Opcode>, ghost aelt: Line, ghost belt: Line) returns (atags: string, btags: string)
      requires AllTruthful(ops, aelt, belt) && Tiles(ops, 0, 0, |aelt|, |belt|)
      ensures |atags| == |aelt| && |btags| == |belt|
      ensures Unmarked(aelt, atags) == Unmarked(belt, btags)
      ensures MarksIn(atags, "^- ") && MarksIn(btags, "^+ ")
      ensures Ranged(ops) && (atags, btags) == AllMarks(ops) && MarkedBy(ops, atags, btags)
    {
      atags, btags := "", "";
      assert Marked(aelt, belt, atags, btags);
      TruthfulIsRanged(ops, aelt, belt);
      assert (atags, btags) == AllMarks(ops[..0]);
      assert MarkedBy(ops[..0], atags, btags);
      hide Truthful, Marked, Unmarked, MarksIn, NewMarks, AllMarks, MarkedBy;
      var p := 0;
      while p < |ops|
        invariant 0 <= p <= |ops| && Marked(aelt, belt, atags, btags)
        invariant Tiles(ops[p..], |atags|, |btags|, |aelt|, |belt|)
        invariant Ranged(ops[..p]) && (atags, btags) == AllMarks(ops[..p]) && MarkedBy(ops[..p], atags, btags)
      {
        var op := ops[p];
        AllMarksSnoc(ops, p);
        assert ops[p..][0] == op && ops[p..][1..] == ops[p + 1..];
        assert Truthful(op, aelt, belt);
        MarkStep(op, aelt, belt, atags, btags);
        NextMarked(ops[..p], op, atags, btags, aelt, belt);
        assert ops[..p + 1] == ops[..p] + [op];
        atags, btags := MarkOp(op, atags, btags);
        p := p + 1;
      }
      AllMarked(aelt, belt, atags, btags);
      assert ops[..p] == ops;
    }

    method MarkOp(op: Opcode, atags0: string, btags0: string) returns (atags: string, btags: string)
      requires op.i1 <= op.i2 && op.j1 <= op.j2
      ensures atags == atags0 + NewMarks(op).0 && btags == btags0 + NewMarks(op).1
    {
      atags, btags := atags0, btags0;
      var la, lb := op.i2 - op.i1, op.j2 - op.j1;
      match op.tag {
        case Replace =>
          atags := atags + Repeat('^', la);
          btags := btags + Repeat('^', lb);
        case Delete =>
          atags := atags + Repeat('-', la);
        case Insert =>
          btags := btags + Repeat('+', lb);
        case Equal =>
          atags := atags + Repeat(' ', la);
          btags := btags + Repeat(' ', lb);
      }
    }

    /** Replaces a block of lines by another around their most similar pair, if there is one. */
    method FancyReplace(a: seq<Line>, alo: nat, ahi: nat, b: seq<Line>, blo: nat, bhi: nat) returns (r: seq<Line>)
      requires alo < ahi <= |a| && blo < bhi <= |b|
      ensures IsDelta(r, a[alo..ahi], b[blo..bhi]) && IsReplacement(r, a, alo, ahi, b, blo, bhi)
      decreases ahi - alo + bhi - blo, 1
    {
      var best, bestI, bestJ, eq := BestPair(sim, a, alo, ahi, b, blo, bhi);
      BestRange(sim, a, alo, ahi, b, blo, bhi, alo, bhi, best, bestI, bestJ, eq);
      hide IsDelta, FirstBest, FirstEqual, Dumped, Plain, IsReplacement, IsAround, IsSynched;
      ghost var start := (bestI, bestJ);
      var identical := false;
      if best < CUTOFF {
        if eq.None? {
          r := PlainReplace(a, alo, ahi, b, blo, bhi);
          ReplacedWhole(r, a, alo, ahi, b, blo, bhi, best, bestI, bestJ);
          return;
        }
        bestI, bestJ, identical := eq.value.0, eq.value.1, true;
      }
      r := ReplaceAround(a, alo, bestI, ahi, b, blo, bestJ, bhi, identical);
      ReplacedAround(r, a, alo, bestI, ahi, b, blo, bestJ, bhi, best, start.0, start.1, eq);
    }

    /** What comes before the pair, the pair, and what comes after it. */
    method ReplaceAround(a: seq<Line>, alo: nat, i: nat, ahi: nat, b: seq<Line>, blo: nat, j: nat, bhi: nat,
                         identical: bool)
      returns (r: seq<Line>)
      requires alo <= i < ahi <= |a| && blo <= j < bhi <= |b| && (identical ==> a[i] == b[j])
      ensures IsDelta(r, a[alo..ahi], b[blo..bhi]) && IsAround(r, a, alo, i, ahi, b, blo, j, bhi, identical)
      decreases ahi - alo + bhi - blo, 0
    {
      hide IsDelta, IsReplacement, IsAround, IsSynched;
      var before := FancyHelper(a, alo, i, b, blo, j);
      var pair := Synched(a[i], b[j], identical);
      var after := FancyHelper(a, i + 1, ahi, b, j + 1, bhi);
      r := before + pair + after;
      AroundPair(before, pair, after, a, alo, i, ahi, b, blo, j, bhi);
      PutAround(before, pair, after, a, alo, i, ahi, b, blo, j, bhi, identical);
    }

    /** The lines for the pair itself. */
    method Synched(aelt: Line, belt: Line, identical: bool) returns (pair: seq<Line>)
      requires identical ==> aelt == belt
      ensures IsDelta(pair, [aelt], [belt]) && IsSynched(pair, aelt, belt, identical)
    {
      hide IsDelta, Quad, AllMarks;
      if !identical {
        var atags, btags := Marks(aelt, belt);
        pair := QFormat(isSpace, aelt, belt, atags, btags);
      } else {
        pair := [[' ', ' '] + aelt];
        OneLine(' ', aelt);
      }
    }

    method FancyHelper(a: seq<Line>, alo: nat, ahi: nat, b: seq<Line>, blo: nat, bhi: nat) returns (g: seq<Line>)
      requires alo <= ahi <= |a| && blo <= bhi <= |b|
      ensures IsDelta(g, a[alo..ahi], b[blo..bhi]) && IsReplacement(g, a, alo, ahi, b, blo, bhi)
      decreases ahi - alo + bhi - blo, 2
    {
      hide IsDelta, Dumped, IsReplacement;
      NoLines();
      assert alo == ahi ==> a[alo..ahi] == [];
      assert blo == bhi ==> b[blo..bhi] == [];
      g := [];
      if alo < ahi {
        if blo < bhi {
          g := FancyReplace(a, alo, ahi, b, blo, bhi);
        } else {
          g := Dump('-', a, alo, ahi);
          DumpedIsDelta('-', a[alo..ahi]);
        }
      } else if blo < bhi {
        g := Dump('+', b, blo, bhi);
        DumpedIsDelta('+', b[blo..bhi]);
      }
      OneSided(g, a, alo, ahi, b, blo, bhi);
    }

    /** The delta of two lists of lines: both lists can be got back from it, whatever the scores. */
    method Compare(a: seq<Line>, b: seq<Line>) returns (delta: seq<Line>)
      ensures IsDelta(delta, a, b)
      ensures AllWithin(ScriptOf(a, b, linejunk), a, b) && ArePieces(delta, a, b, ScriptOf(a, b, linejunk))
    {
      hide IsDelta, ArePieces, Script, Matches, TakesTurns, Replay;
      var cruncher := new SequenceMatcher(linejunk, a, b, true);
      var ops := cruncher.GetOpcodes();
      delta := PiecesOf(a, b, ops);
    }

    /** The loop over the steps of the script. */
    method PiecesOf(a: seq<Line>, b: seq<Line>, ops: seq<Opcode>) returns (delta: seq<Line>)
      requires AllTruthful(ops, a, b) && AllWithin(ops, a, b) && Tiles(ops, 0, 0, |a|, |b|)
      ensures IsDelta(delta, a, b) && ArePieces(delta, a, b, ops)
    {
      assert ArePieces([], a, b, ops[..0]);
      hide IsDelta, Truthful, ArePieces, IsPiece;
      NoLines();
      delta := [];
      ghost var i: nat, j: nat := 0, 0;
      var p := 0;
      while p < |ops|
        invariant 0 <= p <= |ops| && i <= |a| && j <= |b|
        invariant Tiles(ops[p..], i, j, |a|, |b|) && IsDelta(delta, a[..i], b[..j])
        invariant ArePieces(delta, a, b, ops[..p])
      {
        var op := ops[p];
        assert ops[p..][0] == op && ops[p..][1..] == ops[p + 1..];
        assert Truthful(op, a, b);
        TruthfulRange(op, a, b);
        var g := Piece(a, b, op);
        NextSlices(delta, g, a, i, op.i2, b, j, op.j2);
        NextPiece(delta, g, a, b, ops, p);
        delta := delta + g;
        i, j := op.i2, op.j2;
        p := p + 1;
      }
      assert a[..i] == a && b[..j] == b && ops[..p] == ops;
    }

    method Piece(a: seq<Line>, b: seq<Line>, op: Opcode) returns (g: seq<Line>)
      requires Truthful(op, a, b)
      ensures IsDelta(g, a[op.i1..op.i2], b[op.j1..op.j2]) && IsPiece(g, a, b, op)
    {
      hide IsDelta, Dumped, IsReplacement;
      assert op.i1 == op.i2 ==> a[op.i1..op.i2] == [];
      assert op.j1 == op.j2 ==> b[op.j1..op.j2] == [];
      match op.tag {
        case Replace =>
          g := FancyReplace(a, op.i1, op.i2, b, op.j1, op.j2);
        case Delete =>
          g := Dump('-', a, op.i1, op.i2);
          DumpedIsDelta('-', a[op.i1..op.i2]);
        case Insert =>
          g := Dump('+', b, op.j1, op.j2);
          DumpedIsDelta('+', b[op.j1..op.j2]);
        case Equal =>
          g := Dump(' ', a, op.i1, op.i2);
          DumpedIsDelta(' ', a[op.i1..op.i2]);
      }
    }

    /** Comparing and restoring gives back either list. */
    method CompareAndRestore(a: seq<Line>, b: seq<Line>) returns (first: Restoration, second: Restoration)
      ensures first == Lines(a) && second == Lines(b)
    {
      var delta := Compare(a, b);
      first := Restore(delta, 1);
      second := Restore(delta, 2);
    }
  }
}
