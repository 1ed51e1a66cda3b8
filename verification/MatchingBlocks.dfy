/**
 `difflib.py`, matching blocks as a function: the recursive decomposition of two sequences around longest blocks,
 and the collapsing of adjacent blocks.
 */
module MatchingBlocks {
  import opened Matching

  // ---------- the decomposition ----------

  function WindowSize(w: Window): (n: int) {
    w.ahi - w.alo + w.bhi - w.blo + 1
  }

  function LeftOf(w: Window, m: Match): (r: Window) {
    Window(w.alo, m.i, w.blo, m.j)
  }

  function RightOf(w: Window, m: Match): (r: Window) {
    Window(m.i + m.size, w.ahi, m.j + m.size, w.bhi)
  }

  /** Both sides of the window have elements. */
  predicate Open(w: Window) {
    w.alo < w.ahi && w.blo < w.bhi
  }

  /** The blocks of a window: the longest one, and the blocks before and after it. */
  function Blocks<T(==)>(a: seq<T>, b: seq<T>, keys: set<T>, junk: set<T>, w: Window): (r: seq<Match>)
    requires Fits(w, a, b)
    decreases WindowSize(w)
  {
    var m := FindLongest(a, b, keys, junk, w);
    if m.size == 0 then []
    else
      (if Open(LeftOf(w, m)) then Blocks(a, b, keys, junk, LeftOf(w, m)) else [])
      + [m]
      + (if Open(RightOf(w, m)) then Blocks(a, b, keys, junk, RightOf(w, m)) else [])
  }

  predicate Precedes(m: Match, n: Match) {
    m.i + m.size <= n.i && m.j + m.size <= n.j
  }

  /** Each block ends before the later ones start, in both sequences. */
  predicate InOrder(s: seq<Match>) {
    forall p, q | 0 <= p < q < |s| :: Precedes(s[p], s[q])
  }

  /** Every element is a non-empty equal block of the window. */
  predicate AllBlocks<T(==)>(a: seq<T>, b: seq<T>, w: Window, s: seq<Match>)
    requires Fits(w, a, b)
  {
    forall p | 0 <= p < |s| :: s[p].size >= 1 && IsBlock(a, b, w, s[p])
  }

  lemma WiderBlocks<T>(a: seq<T>, b: seq<T>, w: Window, v: Window, s: seq<Match>)
    requires Fits(w, a, b) && Fits(v, a, b) && AllBlocks(a, b, v, s)
    requires w.alo <= v.alo && v.ahi <= w.ahi && w.blo <= v.blo && v.bhi <= w.bhi
    ensures AllBlocks(a, b, w, s)
  {
  }

  /** The blocks of the two sides stay on their sides of the middle one. */
  lemma JoinOrder<T>(a: seq<T>, b: seq<T>, w: Window, l: seq<Match>, m: Match, r: seq<Match>)
    requires Fits(w, a, b) && m.size >= 1 && IsBlock(a, b, w, m)
    requires InOrder(l) && AllBlocks(a, b, LeftOf(w, m), l)
    requires InOrder(r) && AllBlocks(a, b, RightOf(w, m), r)
    ensures InOrder(l + [m] + r) && AllBlocks(a, b, w, l + [m] + r)
  {
    var s := l + [m] + r;
    WiderBlocks(a, b, w, LeftOf(w, m), l);
    WiderBlocks(a, b, w, RightOf(w, m), r);
    forall p, q | 0 <= p < q < |s| ensures Precedes(s[p], s[q]) {
      if q < |l| {
        assert s[p] == l[p] && s[q] == l[q];
      } else if p > |l| {
        assert s[p] == r[p - |l| - 1] && s[q] == r[q - |l| - 1];
      }
    }
  }

  lemma {:induction false} BlocksInOrder<T>(a: seq<T>, b: seq<T>, keys: set<T>, junk: set<T>, w: Window)
    requires Fits(w, a, b)
    ensures InOrder(Blocks(a, b, keys, junk, w)) && AllBlocks(a, b, w, Blocks(a, b, keys, junk, w))
    decreases WindowSize(w)
  {
    hide FindLongest, InOrder, AllBlocks, IsBlock;
    var m := FindLongest(a, b, keys, junk, w);
    FindLongestIsBlock(a, b, keys, junk, w);
    NoBlocks(a, b, w, m);
    if m.size != 0 {
      var l, r := LeftOf(w, m), RightOf(w, m);
      if Open(l) {
        BlocksInOrder(a, b, keys, junk, l);
      }
      if Open(r) {
        BlocksInOrder(a, b, keys, junk, r);
      }
      JoinOrder(a, b, w, if Open(l) then Blocks(a, b, keys, junk, l) else [], m,
                if Open(r) then Blocks(a, b, keys, junk, r) else []);
    }
  }

  lemma NoBlocks<T>(a: seq<T>, b: seq<T>, w: Window, m: Match)
    requires Fits(w, a, b) && InWindow(w, m)
    ensures InOrder([]) && AllBlocks(a, b, w, []) && AllBlocks(a, b, LeftOf(w, m), [])
            && AllBlocks(a, b, RightOf(w, m), [])
  {
  }

  /** The pair lies before or after every block in both sequences. */
  predicate FitsBetween(s: seq<Match>, x: nat, y: nat) {
    forall p | 0 <= p < |s| :: (x < s[p].i && y < s[p].j) || (s[p].i + s[p].size <= x && s[p].j + s[p].size <= y)
  }

  lemma FitsParts(l: seq<Match>, m: Match, r: seq<Match>, x: nat, y: nat)
    requires FitsBetween(l + [m] + r, x, y)
    ensures FitsBetween(l, x, y) && FitsBetween(r, x, y) && FitsBetween([m], x, y)
  {
    var s := l + [m] + r;
    assert forall p | 0 <= p < |l| :: l[p] == s[p];
    assert forall p | 0 <= p < |r| :: r[p] == s[|l| + 1 + p];
    assert s[|l|] == m;
  }

  lemma KeyedPair<T>(a: seq<T>, b: seq<T>, keys: set<T>, w: Window, x: nat, y: nat)
    requires Fits(w, a, b) && w.alo <= x < w.ahi && w.blo <= y < w.bhi && a[x] == b[y] && b[y] in keys
    ensures IsKeyed(a, b, keys, w, Match(x, y, 1))
  {
    assert a[x..x + 1] == b[y..y + 1];
  }

  /** Without a block there is no equal pair with a keyed element. */
  lemma NoBlockNoPair<T>(a: seq<T>, b: seq<T>, keys: set<T>, junk: set<T>, w: Window, x: nat, y: nat)
    requires Fits(w, a, b) && w.alo <= x < w.ahi && w.blo <= y < w.bhi && b[y] in keys
    requires FindLongest(a, b, keys, junk, w).size == 0
    ensures a[x] != b[y]
  {
    FindLongestIsBlock(a, b, keys, junk, w);
    BestMeaning(a, b, keys, w);
    hide FindLongest, Best;
    if a[x] == b[y] {
      KeyedPair(a, b, keys, w, x, y);
    }
  }

  /** No further pair of equal elements, neither junk nor popular, fits between the blocks. */
  lemma {:induction false} NothingLeftOver<T>(a: seq<T>, b: seq<T>, keys: set<T>, junk: set<T>, w: Window, x: nat,
                                              y: nat)
    requires Fits(w, a, b) && w.alo <= x < w.ahi && w.blo <= y < w.bhi && b[y] in keys
    requires FitsBetween(Blocks(a, b, keys, junk, w), x, y)
    ensures a[x] != b[y]
    decreases WindowSize(w)
  {
    hide FindLongest;
    var m := FindLongest(a, b, keys, junk, w);
    if m.size == 0 {
      NoBlockNoPair(a, b, keys, junk, w, x, y);
    } else {
      var l, r := LeftOf(w, m), RightOf(w, m);
      FitsParts(if Open(l) then Blocks(a, b, keys, junk, l) else [], m,
                if Open(r) then Blocks(a, b, keys, junk, r) else [], x, y);
      if x < m.i && y < m.j {
        NothingLeftOver(a, b, keys, junk, l, x, y);
      } else {
        assert [m][0] == m;
        NothingLeftOver(a, b, keys, junk, r, x, y);
      }
    }
  }

  /**
   The longest block of the window is one of the blocks, and those before and after it are the blocks of its sides.
   */
  lemma LongestIsTaken<T>(a: seq<T>, b: seq<T>, keys: set<T>, junk: set<T>, w: Window) returns (p: nat)
    requires Fits(w, a, b) && FindLongest(a, b, keys, junk, w).size >= 1
    ensures var s, m := Blocks(a, b, keys, junk, w), FindLongest(a, b, keys, junk, w);
      && p < |s| && s[p] == m
      && s[..p] == (if Open(LeftOf(w, m)) then Blocks(a, b, keys, junk, LeftOf(w, m)) else [])
      && s[p + 1..] == if Open(RightOf(w, m)) then Blocks(a, b, keys, junk, RightOf(w, m)) else []
  {
    hide FindLongest;
    var m := FindLongest(a, b, keys, junk, w);
    p := if Open(LeftOf(w, m)) then |Blocks(a, b, keys, junk, LeftOf(w, m))| else 0;
  }

  // ---------- collapsing adjacent blocks ----------

  predicate Adjacent(m: Match, n: Match) {
    m.i + m.size == n.i && m.j + m.size == n.j
  }

  function Kept(m: Match): (r: seq<Match>) {
    if m.size > 0 then [m] else []
  }

  /** The blocks of `rest`, with `current` in progress, adjacent ones joined. */
  function Collapse(current: Match, rest: seq<Match>): (r: seq<Match>)
    decreases rest
  {
    if rest == [] then Kept(current)
    else if Adjacent(current, rest[0]) then
      Collapse(Match(current.i, current.j, current.size + rest[0].size), rest[1..])
    else Kept(current) + Collapse(rest[0], rest[1..])
  }

  predicate Separated(s: seq<Match>) {
    forall p | 0 <= p < |s| - 1 :: !Adjacent(s[p], s[p + 1])
  }

  /** `a[x]` is matched with `b[y]` by one of the blocks. */
  predicate Pairs(s: seq<Match>, x: nat, y: nat) {
    exists p | 0 <= p < |s| :: PairsIn(s[p], x, y)
  }

  predicate PairsIn(m: Match, x: nat, y: nat) {
    m.i <= x < m.i + m.size && y - m.j == x - m.i
  }

  lemma PairsConcat(s: seq<Match>, t: seq<Match>, x: nat, y: nat)
    ensures Pairs(s + t, x, y) <==> Pairs(s, x, y) || Pairs(t, x, y)
  {
    var u := s + t;
    if p :| 0 <= p < |s| && PairsIn(s[p], x, y) {
      assert u[p] == s[p];
    }
    if p :| 0 <= p < |t| && PairsIn(t[p], x, y) {
      assert u[|s| + p] == t[p];
    }
  }

  lemma PairsOne(m: Match, x: nat, y: nat)
    ensures Pairs([m], x, y) <==> PairsIn(m, x, y)
    ensures Pairs(Kept(m), x, y) <==> PairsIn(m, x, y)
  {
    if PairsIn(m, x, y) {
      assert [m][0] == m;
    }
  }

  /** Collapsing keeps the matched pairs. */
  lemma {:induction false} CollapseKeepsPairs(current: Match, rest: seq<Match>, x: nat, y: nat)
    ensures Pairs(Collapse(current, rest), x, y) <==> Pairs([current] + rest, x, y)
    decreases rest
  {
    hide Pairs;
    PairsConcat([current], rest, x, y);
    PairsOne(current, x, y);
    if rest == [] {
      assert [current] + rest == [current];
    } else {
      assert rest == [rest[0]] + rest[1..];
      PairsConcat([rest[0]], rest[1..], x, y);
      PairsOne(rest[0], x, y);
      if Adjacent(current, rest[0]) {
        var joined := Match(current.i, current.j, current.size + rest[0].size);
        CollapseKeepsPairs(joined, rest[1..], x, y);
        PairsConcat([joined], rest[1..], x, y);
        PairsOne(joined, x, y);
      } else {
        CollapseKeepsPairs(rest[0], rest[1..], x, y);
        PairsConcat(Kept(current), Collapse(rest[0], rest[1..]), x, y);
      }
    }
  }

  lemma ConsOrder(m: Match, s: seq<Match>)
    requires InOrder(s) && forall p | 0 <= p < |s| :: Precedes(m, s[p])
    ensures InOrder([m] + s)
  {
  }

  lemma TailOrder(m: Match, s: seq<Match>)
    requires InOrder([m] + s)
    ensures InOrder(s) && forall p | 0 <= p < |s| :: Precedes(m, s[p])
  {
    var t := [m] + s;
    assert t[0] == m;
    forall p | 0 <= p < |s| ensures Precedes(m, s[p]) {
      assert t[p + 1] == s[p];
    }
    forall p, q | 0 <= p < q < |s| ensures Precedes(s[p], s[q]) {
      assert t[p + 1] == s[p] && t[q + 1] == s[q];
    }
  }

  lemma JoinBlocks<T>(a: seq<T>, b: seq<T>, w: Window, m: Match, n: Match)
    requires Fits(w, a, b) && IsBlock(a, b, w, m) && IsBlock(a, b, w, n) && Adjacent(m, n)
    ensures IsBlock(a, b, w, Match(m.i, m.j, m.size + n.size))
  {
    assert a[m.i..n.i + n.size] == a[m.i..n.i] + a[n.i..n.i + n.size];
    assert b[m.j..n.j + n.size] == b[m.j..n.j] + b[n.j..n.j + n.size];
  }

  lemma {:induction false} CollapseIsBlocks<T>(a: seq<T>, b: seq<T>, w: Window, current: Match, rest: seq<Match>)
    requires Fits(w, a, b) && IsBlock(a, b, w, current) && AllBlocks(a, b, w, rest)
    ensures AllBlocks(a, b, w, Collapse(current, rest))
    decreases rest
  {
    if rest != [] {
      hide IsBlock;
      if Adjacent(current, rest[0]) {
        JoinBlocks(a, b, w, current, rest[0]);
        CollapseIsBlocks(a, b, w, Match(current.i, current.j, current.size + rest[0].size), rest[1..]);
      } else {
        CollapseIsBlocks(a, b, w, rest[0], rest[1..]);
      }
    }
  }

  /** No block starts before the corner of `m`. */
  predicate StartsFrom(s: seq<Match>, m: Match) {
    forall p | 0 <= p < |s| :: m.i <= s[p].i && m.j <= s[p].j
  }

  lemma LaterStarts(m: Match, n: Match, s: seq<Match>)
    requires StartsFrom(s, n) && Precedes(m, n)
    ensures forall p | 0 <= p < |s| :: Precedes(m, s[p])
    ensures StartsFrom(s, m) && StartsFrom(Kept(m) + s, m)
  {
  }

  /** Collapsed blocks are in order and never adjacent. */
  lemma {:induction false} CollapseInOrder(current: Match, rest: seq<Match>)
    requires InOrder([current] + rest) && forall p | 0 <= p < |rest| :: rest[p].size >= 1
    ensures InOrder(Collapse(current, rest)) && Separated(Collapse(current, rest))
            && StartsFrom(Collapse(current, rest), current)
    ensures current.size >= 1 ==>
      var r := Collapse(current, rest); r != [] && r[0].i == current.i && r[0].j == current.j
    decreases rest
  {
    if rest != [] {
      hide InOrder, StartsFrom, Precedes;
      TailOrder(current, rest);
      var n, tail := rest[0], rest[1..];
      assert rest == [n] + tail;
      TailOrder(n, tail);
      if Adjacent(current, n) {
        var joined := Match(current.i, current.j, current.size + n.size);
        JoinedPrecedes(current, n, tail);
        ConsOrder(joined, tail);
        CollapseInOrder(joined, tail);
        SameCorner(Collapse(current, rest), joined, current);
      } else {
        CollapseInOrder(n, tail);
        var r := Collapse(n, tail);
        LaterStarts(current, n, r);
        ConsOrder(current, r);
        ConsSeparated(current, n, r);
      }
    } else {
      assert Kept(current) == [] || Kept(current) == [current];
    }
  }

  lemma JoinedPrecedes(m: Match, n: Match, s: seq<Match>)
    requires Adjacent(m, n) && forall p | 0 <= p < |s| :: Precedes(n, s[p])
    ensures forall p | 0 <= p < |s| :: Precedes(Match(m.i, m.j, m.size + n.size), s[p])
  {
  }

  lemma SameCorner(s: seq<Match>, m: Match, n: Match)
    requires StartsFrom(s, m) && m.i == n.i && m.j == n.j
    ensures StartsFrom(s, n)
  {
  }

  lemma ConsSeparated(m: Match, n: Match, s: seq<Match>)
    requires Separated(s) && s != [] && s[0].i == n.i && s[0].j == n.j && !Adjacent(m, n)
    ensures Separated([m] + s)
  {
    var t := [m] + s;
    forall p | 0 <= p < |t| - 1 ensures !Adjacent(t[p], t[p + 1]) {
      if p > 0 {
        assert t[p] == s[p - 1] && t[p + 1] == s[p];
      }
    }
  }

  // ---------- the list of matching blocks ----------

  function Whole<T>(a: seq<T>, b: seq<T>): (w: Window)
    ensures Fits(w, a, b)
  {
    Window(0, |a|, 0, |b|)
  }

  function Matches<T(==)>(a: seq<T>, b: seq<T>, keys: set<T>, junk: set<T>): (r: seq<Match>) {
    Collapse(Match(0, 0, 0), Blocks(a, b, keys, junk, Whole(a, b))) + [Match(|a|, |b|, 0)]
  }

  /** What is promised of the list of matching blocks. */
  predicate IsMatching<T(==)>(a: seq<T>, b: seq<T>, ms: seq<Match>) {
    && ms != [] && ms[|ms| - 1] == Match(|a|, |b|, 0)
    && var blocks := ms[..|ms| - 1];
       AllBlocks(a, b, Whole(a, b), blocks) && InOrder(blocks) && Separated(blocks)
  }

  lemma MatchesMeaning<T>(a: seq<T>, b: seq<T>, keys: set<T>, junk: set<T>)
    ensures IsMatching(a, b, Matches(a, b, keys, junk))
  {
    var w := Whole(a, b);
    var blocks := Blocks(a, b, keys, junk, w);
    BlocksInOrder(a, b, keys, junk, w);
    ConsOrder(Match(0, 0, 0), blocks);
    CollapseInOrder(Match(0, 0, 0), blocks);
    CollapseIsBlocks(a, b, w, Match(0, 0, 0), blocks);
    hide Blocks, Collapse, AllBlocks, InOrder, Separated;
    var r := Collapse(Match(0, 0, 0), blocks);
    assert (r + [Match(|a|, |b|, 0)])[..|r|] == r;
  }

  /** The pairs matched are those of the decomposition. */
  lemma MatchesKeepPairs<T>(a: seq<T>, b: seq<T>, keys: set<T>, junk: set<T>, x: nat, y: nat)
    ensures Pairs(Matches(a, b, keys, junk), x, y) <==> Pairs(Blocks(a, b, keys, junk, Whole(a, b)), x, y)
  {
    hide Pairs, Blocks, Collapse;
    var blocks := Blocks(a, b, keys, junk, Whole(a, b));
    var dummy, end := Match(0, 0, 0), Match(|a|, |b|, 0);
    PairsConcat(Collapse(dummy, blocks), [end], x, y);
    CollapseKeepsPairs(dummy, blocks, x, y);
    PairsConcat([dummy], blocks, x, y);
    PairsOne(dummy, x, y);
    PairsOne(end, x, y);
  }

  lemma FitsCons(m: Match, s: seq<Match>, x: nat, y: nat)
    ensures FitsBetween([m] + s, x, y) <==> FitsBetween([m], x, y) && FitsBetween(s, x, y)
  {
    var t := [m] + s;
    assert t[0] == m;
    if FitsBetween(t, x, y) {
      assert forall p | 0 <= p < |s| :: t[p + 1] == s[p];
    }
  }

  lemma FitsOne(m: Match, x: nat, y: nat)
    ensures FitsBetween([m], x, y) <==> (x < m.i && y < m.j) || (m.i + m.size <= x && m.j + m.size <= y)
  {
    assert [m][0] == m;
  }

  lemma {:induction false} CollapseFits(current: Match, rest: seq<Match>, x: nat, y: nat)
    requires FitsBetween(Collapse(current, rest), x, y) && forall p | 0 <= p < |rest| :: rest[p].size >= 1
    ensures FitsBetween(rest, x, y) && (current.size >= 1 ==> FitsBetween([current], x, y))
    decreases rest
  {
    if rest != [] {
      hide FitsBetween;
      var n, tail := rest[0], rest[1..];
      assert rest == [n] + tail;
      FitsCons(n, tail, x, y);
      FitsOne(n, x, y);
      FitsOne(current, x, y);
      if Adjacent(current, n) {
        var joined := Match(current.i, current.j, current.size + n.size);
        CollapseFits(joined, tail, x, y);
        FitsOne(joined, x, y);
      } else {
        FitsCons(current, Collapse(n, tail), x, y);
        assert Kept(current) + Collapse(n, tail)
            == if current.size > 0 then [current] + Collapse(n, tail) else Collapse(n, tail);
        CollapseFits(n, tail, x, y);
      }
    }
  }

  /** Every pair of equal elements, neither junk nor popular, conflicts with some matching block. */
  lemma MatchesAreMaximal<T>(a: seq<T>, b: seq<T>, keys: set<T>, junk: set<T>, x: nat, y: nat)
    requires x < |a| && y < |b| && b[y] in keys
    requires FitsBetween(Matches(a, b, keys, junk)[..|Matches(a, b, keys, junk)| - 1], x, y)
    ensures a[x] != b[y]
  {
    var w := Whole(a, b);
    var blocks := Blocks(a, b, keys, junk, w);
    BlocksInOrder(a, b, keys, junk, w);
    hide Blocks, Collapse, FitsBetween;
    var r := Collapse(Match(0, 0, 0), blocks);
    assert (r + [Match(|a|, |b|, 0)])[..|r|] == r;
    CollapseFits(Match(0, 0, 0), blocks, x, y);
    NothingLeftOver(a, b, keys, junk, w, x, y);
  }
}
