/**
 `difflib.py`: the similarity of two sequences, and the two cheaper upper bounds on it.
 */
module Ratios {
  import opened Matching
  import opened MatchingBlocks
  import opened Opcodes

  function CalculateRatio(matches: nat, length: nat): (r: real) {
    if length > 0 then 2.0 * matches as real / length as real else 1.0
  }

  function TotalSize(ms: seq<Match>): (n: nat) {
    if ms == [] then 0 else ms[0].size + TotalSize(ms[1..])
  }

  /** What two multisets have in common, counted. */
  function Common<T(==)>(a: multiset<T>, b: multiset<T>): (n: nat) {
    |a * b|
  }

  lemma CommonStep<T>(a: multiset<T>, b: multiset<T>, e: T)
    ensures Common(a + multiset{e}, b) == Common(a, b) + if a[e] < b[e] then 1 else 0
  {
    if a[e] < b[e] {
      assert (a + multiset{e}) * b == a * b + multiset{e};
    } else {
      assert (a + multiset{e}) * b == a * b;
    }
  }

  lemma SubsetCount<T>(m: multiset<T>, n: multiset<T>)
    requires m <= n
    ensures |m| <= |n|
  {
    assert n == m + (n - m);
  }

  lemma CommonBound<T>(m: multiset<T>, a: multiset<T>, b: multiset<T>)
    requires m <= a && m <= b
    ensures |m| <= Common(a, b) && Common(a, b) <= |a| && Common(a, b) <= |b|
  {
    SubsetCount(m, a * b);
    SubsetCount(a * b, a);
    SubsetCount(a * b, b);
  }

  predicate AllInside<T>(a: seq<T>, ms: seq<Match>) {
    forall p | 0 <= p < |ms| :: ms[p].i + ms[p].size <= |a|
  }

  /** The elements of `a` inside the blocks. */
  function Matched<T(==)>(a: seq<T>, ms: seq<Match>): (r: seq<T>)
    requires AllInside(a, ms)
  {
    if ms == [] then [] else a[ms[0].i..ms[0].i + ms[0].size] + Matched(a, ms[1..])
  }

  lemma {:induction false} MatchedSize<T>(a: seq<T>, ms: seq<Match>)
    requires AllInside(a, ms)
    ensures |Matched(a, ms)| == TotalSize(ms)
  {
    if ms != [] {
      MatchedSize(a, ms[1..]);
    }
  }

  lemma AheadInside<T>(a: seq<T>, b: seq<T>, i: nat, j: nat, ms: seq<Match>)
    requires Ahead(a, b, i, j, ms)
    ensures AllInside(a, ms)
  {
  }

  /** The matched elements occur in both sequences, as often as they are matched. */
  lemma {:induction false} MatchedInBoth<T>(a: seq<T>, b: seq<T>, i: nat, j: nat, ms: seq<Match>)
    requires Ahead(a, b, i, j, ms) && AllInside(a, ms)
    ensures multiset(Matched(a, ms)) <= multiset(a[i..]) && multiset(Matched(a, ms)) <= multiset(b[j..])
    decreases ms
  {
    hide Ahead, IsBlock, Matched, AllInside;
    AheadBlock(a, b, i, j, ms);
    var m, rest := ms[0], ms[1..];
    MatchedCons(a, ms);
    var tail := Matched(a, rest);
    if |ms| > 1 {
      AheadTail(a, b, i, j, ms);
      MatchedInBoth(a, b, m.i + m.size, m.j + m.size, rest);
    }
    BlockThenRest(a, i, m.i, m.i + m.size, tail);
    BlockThenRest(b, j, m.j, m.j + m.size, tail);
  }

  lemma MatchedCons<T>(a: seq<T>, ms: seq<Match>)
    requires AllInside(a, ms) && ms != []
    ensures AllInside(a, ms[1..]) && ms[0].i + ms[0].size <= |a|
    ensures Matched(a, ms) == a[ms[0].i..ms[0].i + ms[0].size] + Matched(a, ms[1..])
    ensures |ms| == 1 ==> Matched(a, ms[1..]) == []
  {
  }

  lemma AheadBlock<T>(a: seq<T>, b: seq<T>, i: nat, j: nat, ms: seq<Match>)
    requires Ahead(a, b, i, j, ms)
    ensures ms != []
    ensures var m := ms[0];
            && i <= m.i && j <= m.j && m.i + m.size <= |a| && m.j + m.size <= |b|
            && a[m.i..m.i + m.size] == b[m.j..m.j + m.size]
  {
  }

  lemma BlockThenRest<T>(s: seq<T>, start: nat, p: nat, q: nat, rest: seq<T>)
    requires start <= p <= q <= |s| && multiset(rest) <= multiset(s[q..])
    ensures multiset(s[p..q] + rest) <= multiset(s[start..])
  {
    assert s[start..] == s[start..p] + (s[p..q] + s[q..]);
  }

  /** The matching blocks never cover more than the two sequences have in common, counted with repetition. */
  lemma MatchesBound<T>(a: seq<T>, b: seq<T>, keys: set<T>, junk: set<T>)
    ensures var n := TotalSize(Matches(a, b, keys, junk));
            var quick := Common(multiset(a), multiset(b));
            n <= quick && quick <= |a| && quick <= |b|
  {
    hide Matches, Matched, Common;
    var ms := Matches(a, b, keys, junk);
    MatchesMeaning(a, b, keys, junk);
    MatchingIsAhead(a, b, ms);
    AheadInside(a, b, 0, 0, ms);
    MatchedInBoth(a, b, 0, 0, ms);
    assert a[0..] == a && b[0..] == b;
    MatchedSize(a, ms);
    CommonBound(multiset(Matched(a, ms)), multiset(a), multiset(b));
  }

  lemma DivideMonotone(x: real, y: real, l: real)
    requires x <= y && l > 0.0
    ensures x / l <= y / l
  {
  }

  lemma RatioMonotone(m: nat, n: nat, length: nat)
    requires m <= n
    ensures CalculateRatio(m, length) <= CalculateRatio(n, length)
  {
    if length > 0 {
      DivideMonotone(2.0 * m as real, 2.0 * n as real, length as real);
    }
  }

  /** Twice the shorter length is at most the total length. */
  lemma RatioAtMostOne(short: nat, long: nat)
    requires short <= long
    ensures CalculateRatio(short, short + long) <= 1.0
  {
    if short + long > 0 {
      var l := (short + long) as real;
      assert 2.0 * short as real <= l;
      DivideMonotone(2.0 * short as real, l, l);
    }
  }

  function Shorter<T>(a: seq<T>, b: seq<T>): (n: nat)
    ensures n <= |a| && n <= |b|
  {
    if |a| <= |b| then |a| else |b|
  }

  /** The quick ratio is an upper bound on the ratio, and the very quick one on both. */
  lemma RatioBounds<T>(a: seq<T>, b: seq<T>, keys: set<T>, junk: set<T>)
    ensures var length := |a| + |b|;
            && CalculateRatio(TotalSize(Matches(a, b, keys, junk)), length)
               <= CalculateRatio(Common(multiset(a), multiset(b)), length)
            && CalculateRatio(Common(multiset(a), multiset(b)), length) <= CalculateRatio(Shorter(a, b), length)
            && CalculateRatio(Shorter(a, b), length) <= 1.0
  {
    hide Matches, Common, CalculateRatio;
    MatchesBound(a, b, keys, junk);
    RatioMonotone(TotalSize(Matches(a, b, keys, junk)), Common(multiset(a), multiset(b)), |a| + |b|);
    RatioMonotone(Common(multiset(a), multiset(b)), Shorter(a, b), |a| + |b|);
    RatioAtMostOne(Shorter(a, b), |a| + |b| - Shorter(a, b));
  }

  /** Of `length` elements in two sequences the share `r` stands for `matches` pairs. */
  predicate IsShare(r: real, matches: nat, length: nat) {
    r * length as real == 2.0 * matches as real
  }

  lemma RatioIsShare(matches: nat, length: nat)
    requires matches <= length
    ensures IsShare(CalculateRatio(matches, length), matches, length)
  {
  }

  // ---------- the two ends of the scale ----------

  /** The same stretch of two equal sequences. */
  predicate Diagonal<T(==)>(a: seq<T>, b: seq<T>, w: Window) {
    a == b && w.alo == w.blo && w.ahi == w.bhi && Fits(w, a, b)
  }

  /** In equal stretches the earliest of the longest keyed blocks stands at the same place in both. */
  lemma BestOnDiagonal<T>(a: seq<T>, b: seq<T>, keys: set<T>, w: Window)
    requires Diagonal(a, b, w)
    ensures Best(a, b, keys, w).i == Best(a, b, keys, w).j
  {
    var m := Best(a, b, keys, w);
    BestMeaning(a, b, keys, w);
    hide Best;
    if m.size >= 1 {
      forall k | m.i <= k < m.i + m.size ensures b[k] in keys {
        BlockAt(a, b, w, m, k - m.i);
      }
      assert IsKeyed(a, b, keys, w, Match(m.i, m.i, m.size)) && IsKeyed(a, b, keys, w, Match(m.j, m.j, m.size));
    }
  }

  /** Equal stretches always have a block in common, whatever is junk or popular. */
  lemma DiagonalBlock<T>(a: seq<T>, b: seq<T>, keys: set<T>, junk: set<T>, w: Window)
    requires Diagonal(a, b, w)
    ensures var m := FindLongest(a, b, keys, junk, w);
      InWindow(w, m) && m.i == m.j && (w.alo < w.ahi ==> m.size >= 1)
  {
    BestOnDiagonal(a, b, keys, w);
    FindLongestIsBlock(a, b, keys, junk, w);
    BestMeaning(a, b, keys, w);
    hide Best;
    var best := Best(a, b, keys, w);
    if best.size == 0 && w.alo < w.ahi {
      assert ExtendLeft(a, b, junk, w, false, best) == best;
      var core := ExtendRight(a, b, junk, w, false, best);
      assert ExtendLeft(a, b, junk, w, true, core) == core;
    }
  }

  lemma {:induction false} TotalSizeConcat(s: seq<Match>, t: seq<Match>)
    ensures TotalSize(s + t) == TotalSize(s) + TotalSize(t)
  {
    if s == [] {
      assert s + t == t;
    } else {
      assert (s + t)[1..] == s[1..] + t;
      TotalSizeConcat(s[1..], t);
    }
  }

  lemma {:induction false} DiagonalCovered<T>(a: seq<T>, b: seq<T>, keys: set<T>, junk: set<T>, w: Window)
    requires Diagonal(a, b, w)
    ensures TotalSize(Blocks(a, b, keys, junk, w)) == w.ahi - w.alo
    decreases WindowSize(w)
  {
    hide FindLongest;
    DiagonalBlock(a, b, keys, junk, w);
    var m := FindLongest(a, b, keys, junk, w);
    if m.size > 0 {
      var l, r := LeftOf(w, m), RightOf(w, m);
      DiagonalCovered(a, b, keys, junk, l);
      DiagonalCovered(a, b, keys, junk, r);
      var before := if Open(l) then Blocks(a, b, keys, junk, l) else [];
      var after := if Open(r) then Blocks(a, b, keys, junk, r) else [];
      TotalSizeConcat(before, [m]);
      TotalSizeConcat(before + [m], after);
    }
  }

  lemma {:induction false} CollapseKeepsSize(current: Match, rest: seq<Match>)
    ensures TotalSize(Collapse(current, rest)) == current.size + TotalSize(rest)
    decreases rest
  {
    if rest != [] {
      if Adjacent(current, rest[0]) {
        CollapseKeepsSize(Match(current.i, current.j, current.size + rest[0].size), rest[1..]);
      } else {
        CollapseKeepsSize(rest[0], rest[1..]);
        TotalSizeConcat(Kept(current), Collapse(rest[0], rest[1..]));
      }
    }
  }

  lemma HalfOfBoth(n: nat, length: nat)
    requires length == n + n
    ensures CalculateRatio(n, length) == 1.0
  {
    if length > 0 {
      var x := 2.0 * n as real;
      assert x == length as real;
      assert x / x == 1.0;
    }
  }

  lemma IdenticalRatio<T>(a: seq<T>, keys: set<T>, junk: set<T>)
    ensures TotalSize(Matches(a, a, keys, junk)) == |a|
    ensures CalculateRatio(TotalSize(Matches(a, a, keys, junk)), |a| + |a|) == 1.0
  {
    hide Blocks, Collapse;
    var blocks := Blocks(a, a, keys, junk, Whole(a, a));
    DiagonalCovered(a, a, keys, junk, Whole(a, a));
    CollapseKeepsSize(Match(0, 0, 0), blocks);
    TotalSizeConcat(Collapse(Match(0, 0, 0), blocks), [Match(|a|, |a|, 0)]);
    HalfOfBoth(|a|, |a| + |a|);
    hide CalculateRatio;
  }

  lemma InBoth<T>(a: seq<T>, b: seq<T>, e: T)
    requires e in multiset(a) * multiset(b)
    ensures e in a && e in b
  {
    assert e in multiset(a) && e in multiset(b);
  }

  /** Sequences without a common element have ratio zero. */
  lemma DisjointRatio<T>(a: seq<T>, b: seq<T>, keys: set<T>, junk: set<T>)
    requires |a| + |b| > 0 && forall e | e in a :: e !in b
    ensures CalculateRatio(TotalSize(Matches(a, b, keys, junk)), |a| + |b|) == 0.0
    ensures CalculateRatio(Common(multiset(a), multiset(b)), |a| + |b|) == 0.0
  {
    hide Matches;
    var both := multiset(a) * multiset(b);
    if e :| e in both {
      InBoth(a, b, e);
    }
    assert both == multiset{};
    MatchesBound(a, b, keys, junk);
  }

  lemma TakeThenDrop<T>(s: seq<T>, i: nat, j: nat)
    requires i <= j <= |s|
    ensures s[i..] == s[i..j] + s[j..]
  {
  }

  /** Blocks that leave out no element of either sequence leave no difference. */
  lemma {:induction false} AllMatched<T>(a: seq<T>, b: seq<T>, i: nat, j: nat, ms: seq<Match>)
    requires Ahead(a, b, i, j, ms)
    ensures i <= |a| && j <= |b| && TotalSize(ms) <= |a| - i && TotalSize(ms) <= |b| - j
    ensures TotalSize(ms) == |a| - i == |b| - j ==> a[i..] == b[j..]
    decreases ms
  {
    hide Ahead, IsBlock;
    AheadHead(a, b, i, j, ms);
    AheadBlock(a, b, i, j, ms);
    var m := ms[0];
    if |ms| > 1 {
      AheadTail(a, b, i, j, ms);
      AllMatched(a, b, m.i + m.size, m.j + m.size, ms[1..]);
      if TotalSize(ms) == |a| - i == |b| - j {
        assert m.i == i && m.j == j;
        TakeThenDrop(a, i, i + m.size);
        TakeThenDrop(b, j, j + m.size);
      }
    }
  }

  /** The ratio is one exactly for identical sequences, whatever is junk or popular. */
  lemma RatioOneIff<T>(a: seq<T>, b: seq<T>, keys: set<T>, junk: set<T>)
    ensures CalculateRatio(TotalSize(Matches(a, b, keys, junk)), |a| + |b|) == 1.0 <==> a == b
  {
    hide Matches;
    var ms := Matches(a, b, keys, junk);
    if a == b {
      IdenticalRatio(a, keys, junk);
    } else {
      MatchesMeaning(a, b, keys, junk);
      MatchingIsAhead(a, b, ms);
      AllMatched(a, b, 0, 0, ms);
      assert a[0..] == a && b[0..] == b;
      RatioIsShare(TotalSize(ms), |a| + |b|);
    }
  }

  lemma {:induction false} TotalSizeSnoc(ms: seq<Match>, m: Match)
    ensures TotalSize(ms + [m]) == TotalSize(ms) + m.size
  {
    if ms == [] {
      assert ([] + [m])[1..] == [];
    } else {
      assert (ms + [m])[1..] == ms[1..] + [m];
      TotalSizeSnoc(ms[1..], m);
    }
  }

  method SumOfSizes(ms: seq<Match>) returns (n: nat)
    ensures n == TotalSize(ms)
  {
    n := 0;
    var p := 0;
    while p < |ms|
      invariant 0 <= p <= |ms| && n == TotalSize(ms[..p])
    {
      TotalSizeSnoc(ms[..p], ms[p]);
      assert ms[..p + 1] == ms[..p] + [ms[p]];
      n := n + ms[p].size;
      p := p + 1;
    }
    assert ms[..p] == ms;
  }

  method CountAll<T(==)>(b: seq<T>) returns (fullbcount: map<T, int>)
    ensures fullbcount.Keys == set e | e in b
    ensures forall e | e in fullbcount :: fullbcount[e] == multiset(b)[e]
  {
    fullbcount := map[];
    var p := 0;
    while p < |b|
      invariant 0 <= p <= |b| && fullbcount.Keys == (set e | e in b[..p])
      invariant forall e | e in fullbcount :: fullbcount[e] == multiset(b[..p])[e]
    {
      var elt := b[p];
      assert b[..p + 1] == b[..p] + [elt];
      fullbcount := fullbcount[elt := (if elt in fullbcount then fullbcount[elt] else 0) + 1];
      p := p + 1;
    }
    assert b[..p] == b;
  }

  /** The loop of `quick_ratio`: counts the elements of `a` that `b` still has to offer. */
  method CountCommon<T(==)>(a: seq<T>, ghost b: seq<T>, fullbcount: map<T, int>) returns (matches: nat)
    requires forall e | e in fullbcount :: fullbcount[e] == multiset(b)[e]
    requires forall e | e in b :: e in fullbcount
    ensures matches == Common(multiset(a), multiset(b))
  {
    hide Common;
    var avail: map<T, int> := map[];
    matches := 0;
    NoneCommon(multiset(b));
    var p := 0;
    while p < |a|
      invariant 0 <= p <= |a| && avail.Keys == (set e | e in a[..p])
      invariant forall e | e in avail :: avail[e] + multiset(a[..p])[e] == multiset(b)[e]
      invariant matches == Common(multiset(a[..p]), multiset(b))
    {
      var elt := a[p];
      assert a[..p + 1] == a[..p] + [elt];
      CommonStep(multiset(a[..p]), multiset(b), elt);
      var numb := if elt in avail then avail[elt] else if elt in fullbcount then fullbcount[elt] else 0;
      assert numb + multiset(a[..p])[elt] == multiset(b)[elt];
      avail := avail[elt := numb - 1];
      if numb > 0 {
        matches := matches + 1;
      }
      p := p + 1;
    }
    assert a[..p] == a;
  }

  lemma NoneCommon<T>(b: multiset<T>)
    ensures Common(multiset{}, b) == 0 && Common(multiset([]), b) == 0
  {
    assert multiset{} * b == multiset{};
  }
}
