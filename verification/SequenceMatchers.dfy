/**
 `difflib.py`, class `SequenceMatcher`: the index of the second sequence, the row-by-row search for the longest
 block, the queue of windows, and the cached results.
 */
module SequenceMatchers {
  import opened Matching
  import opened MatchingBlocks
  import opened Opcodes
  import opened Ratios
  import opened Sequences

  // ---------- the index of the second sequence ----------

  /** The places of `e`, in increasing order. */
  function Indices<T(==)>(b: seq<T>, e: T): (r: seq<nat>) {
    if b == [] then []
    else
      var n := |b| - 1;
      if b[n] == e then Indices(b[..n], e) + [n] else Indices(b[..n], e)
  }

  /** `r` lists places of `e`, increasing, and misses none. */
  predicate ListsPlaces<T(==)>(b: seq<T>, e: T, r: seq<nat>) {
    && (forall p | 0 <= p < |r| :: r[p] < |b| && b[r[p]] == e)
    && (forall p, q | 0 <= p < q < |r| :: r[p] < r[q])
    && (forall j: nat | j < |b| && b[j] == e :: j in r)
  }

  lemma OneMorePlace<T>(c: seq<T>, x: T, e: T, s: seq<nat>)
    requires ListsPlaces(c, e, s)
    ensures ListsPlaces(c + [x], e, if x == e then s + [|c|] else s)
  {
    var b, r := c + [x], if x == e then s + [|c|] else s;
    forall p | 0 <= p < |r| ensures r[p] < |b| && b[r[p]] == e {
      if p < |s| {
        assert s[p] < |c|;
      }
    }
    forall j: nat | j < |b| && b[j] == e ensures j in r {
      if j < |c| {
        assert c[j] == e;
      }
    }
  }

  lemma {:induction false} IndicesMeaning<T>(b: seq<T>, e: T)
    ensures ListsPlaces(b, e, Indices(b, e))
    decreases b
  {
    hide ListsPlaces, Indices;
    NoPlaces(e);
    if b == [] {
      assert b == [];
    } else {
      IndicesStep(b, e);
      var c, x := b[..|b| - 1], b[|b| - 1];
      IndicesMeaning(c, e);
      OneMorePlace(c, x, e, Indices(c, e));
      assert c + [x] == b;
    }
  }

  lemma NoPlaces<T>(e: T)
    ensures ListsPlaces([], e, Indices([], e))
  {
  }

  lemma IndicesStep<T>(b: seq<T>, e: T)
    requires b != []
    ensures var c := b[..|b| - 1];
            Indices(b, e) == if b[|b| - 1] == e then Indices(c, e) + [|c|] else Indices(c, e)
  {
  }

  lemma {:induction false} IndicesCount<T>(b: seq<T>, e: T)
    ensures |Indices(b, e)| == multiset(b)[e]
  {
    if b != [] {
      var n := |b| - 1;
      assert b == b[..n] + [b[n]];
      IndicesCount(b[..n], e);
    }
  }

  predicate Judges<T>(isjunk: Option<T -> bool>, e: T) {
    isjunk.Some? && isjunk.value(e)
  }

  ghost function JunkOf<T>(b: seq<T>, isjunk: Option<T -> bool>): (r: set<T>) {
    set e | e in b && Judges(isjunk, e)
  }

  /** The elements that are not junk but make up more than one percent, plus one, of a long sequence. */
  ghost function PopularOf<T>(b: seq<T>, isjunk: Option<T -> bool>, autojunk: bool): (r: set<T>) {
    set e | e in b && !Judges(isjunk, e) && autojunk && |b| >= 200 && multiset(b)[e] > |b| / 100 + 1
  }

  ghost function KeysOf<T>(b: seq<T>, isjunk: Option<T -> bool>, autojunk: bool): (r: set<T>) {
    (set e | e in b) - JunkOf(b, isjunk) - PopularOf(b, isjunk, autojunk)
  }

  /** As documented: the repetitions make up more than one percent of a sequence of at least two hundred elements. */
  lemma PopularMeaning<T>(b: seq<T>, isjunk: Option<T -> bool>, autojunk: bool, e: T)
    ensures e in PopularOf(b, isjunk, autojunk)
            <==> autojunk && |b| >= 200 && e in b && !Judges(isjunk, e) && 100 * (multiset(b)[e] - 1) > |b|
  {
    assert multiset(b)[e] > |b| / 100 + 1 <==> 100 * (multiset(b)[e] - 1) > |b|;
  }

  lemma KeysAvoidJunk<T>(b: seq<T>, isjunk: Option<T -> bool>, autojunk: bool)
    ensures KeysOf(b, isjunk, autojunk) !! JunkOf(b, isjunk)
  {
  }

  /** Without junk and popular elements every element of `b` is a key. */
  lemma KeysComplete<T>(b: seq<T>, isjunk: Option<T -> bool>, autojunk: bool)
    ensures (forall j | 0 <= j < |b| :: b[j] in KeysOf(b, isjunk, autojunk))
            <==> JunkOf(b, isjunk) == {} && PopularOf(b, isjunk, autojunk) == {}
  {
    if forall j | 0 <= j < |b| :: b[j] in KeysOf(b, isjunk, autojunk) {
      forall e | e in b ensures e !in JunkOf(b, isjunk) && e !in PopularOf(b, isjunk, autojunk) {
        var j :| 0 <= j < |b| && b[j] == e;
        assert b[j] in KeysOf(b, isjunk, autojunk);
      }
    }
  }

  lemma {:induction false} ConstantCount(n: nat)
    ensures multiset(seq(n, _ => 'x'))['x'] == n
  {
    var s := seq(n, _ => 'x');
    if n > 0 {
      ConstantCount(n - 1);
      assert s == seq(n - 1, _ => 'x') + ['x'];
    }
  }

  /** Two hundred equal elements are popular, and without any junk the longest block is missed. */
  lemma PopularExample()
    ensures var b := seq(200, _ => 'x');
            var keys, junk := KeysOf(b, None, true), JunkOf(b, None);
            && junk == {} && 'x' in PopularOf(b, None, true)
            && !IsLongestOfAll(['y', 'x'], b, Window(0, 2, 0, 1),
                               FindLongest(['y', 'x'], b, keys, junk, Window(0, 2, 0, 1)))
  {
    var b := seq(200, _ => 'x');
    ConstantCount(200);
    assert b[0] == 'x' && b[0] in b;
    hide IsLongestOfAll, FindLongest;
    UnkeyedIsMissed(b, KeysOf(b, None, true), JunkOf(b, None), 0, 'y');
  }

  predicate IsIndex<T(==)>(b2j: map<T, seq<nat>>, b: seq<T>) {
    forall e | e in b2j :: b2j[e] == Indices(b, e)
  }

  // ---------- one row of the search ----------

  /** The row holds the lengths of the runs that end in row `i` before column `jlim`. */
  ghost predicate IsRow<T>(a: seq<T>, b: seq<T>, keys: set<T>, w: Window, i: nat, jlim: nat, row: map<int, nat>)
    requires Fits(w, a, b) && w.alo <= i < w.ahi && jlim <= w.bhi
  {
    && (forall j | j in row :: w.blo <= j < jlim)
    && forall j | w.blo <= j < jlim :: (if j in row then row[j] else 0) == RunLength(a, b, keys, w, i, j)
  }

  /** The row before row `i`; there is none before the first. */
  ghost predicate IsRowBefore<T>(a: seq<T>, b: seq<T>, keys: set<T>, w: Window, i: nat, row: map<int, nat>)
    requires Fits(w, a, b) && w.alo <= i <= w.ahi
  {
    if i == w.alo then row == map[] else IsRow(a, b, keys, w, i - 1, w.bhi, row)
  }

  function GetOr(row: map<int, nat>, j: int): (k: nat) {
    if j in row then row[j] else 0
  }

  lemma RunFromRow<T>(a: seq<T>, b: seq<T>, keys: set<T>, w: Window, i: nat, j: nat, row: map<int, nat>)
    requires Fits(w, a, b) && w.alo <= i < w.ahi && w.blo <= j < w.bhi && IsRowBefore(a, b, keys, w, i, row)
    requires a[i] == b[j] && b[j] in keys
    ensures RunLength(a, b, keys, w, i, j) == GetOr(row, j - 1) + 1
  {
  }

  /** Columns without a match leave the row and the best block as they are. */
  lemma {:induction false} SkipColumns<T>(a: seq<T>, b: seq<T>, keys: set<T>, w: Window, i: nat, j: nat, j': nat,
                                          row: map<int, nat>)
    requires Fits(w, a, b) && w.alo <= i < w.ahi && w.blo <= j <= j' <= w.bhi && IsRow(a, b, keys, w, i, j, row)
    requires forall k | j <= k < j' :: a[i] != b[k] || b[k] !in keys
    ensures IsRow(a, b, keys, w, i, j', row)
    ensures BestBefore(a, b, keys, w, i, j') == BestBefore(a, b, keys, w, i, j)
  {
    if j < j' {
      SkipColumns(a, b, keys, w, i, j, j' - 1, row);
    }
  }

  /** The first `p` of the listed places lie before column `jlim`; the row is complete up to there. */
  ghost predicate Passed(js: seq<nat>, p: nat, blo: nat, jlim: nat) {
    && p <= |js| && blo <= jlim && (forall q | 0 <= q < p :: js[q] < jlim)
    && (jlim == blo || (p > 0 && jlim == js[p - 1] + 1))
  }

  /** From column `jlim` to the next listed place there is no other place of `e`. */
  lemma NoneBetween<T>(b: seq<T>, e: T, p: nat, blo: nat, jlim: nat, j': nat)
    requires Passed(Indices(b, e), p, blo, jlim)
    requires j' <= |b| && (p < |Indices(b, e)| ==> j' <= Indices(b, e)[p])
    ensures forall k | jlim <= k < j' :: b[k] != e
  {
    IndicesMeaning(b, e);
  }

  lemma NextPlace<T>(b: seq<T>, e: T, p: nat, blo: nat, jlim: nat)
    requires Passed(Indices(b, e), p, blo, jlim) && p < |Indices(b, e)|
    ensures var j := Indices(b, e)[p];
            && j < |b| && b[j] == e
            && (j < blo ==> Passed(Indices(b, e), p + 1, blo, jlim))
            && (j >= blo ==> jlim <= j && Passed(Indices(b, e), p + 1, blo, j + 1))
  {
    IndicesMeaning(b, e);
    if p > 0 {
      assert Indices(b, e)[p - 1] < Indices(b, e)[p];
    }
  }

  lemma EmptyRow<T>(a: seq<T>, b: seq<T>, keys: set<T>, w: Window, i: nat)
    requires Fits(w, a, b) && w.alo <= i < w.ahi
    ensures IsRow(a, b, keys, w, i, w.blo, map[])
  {
  }

  lemma NextColumn<T>(a: seq<T>, b: seq<T>, keys: set<T>, w: Window, i: nat, j: nat, row: map<int, nat>)
    requires Fits(w, a, b) && w.alo <= i < w.ahi && w.blo <= j < w.bhi && IsRow(a, b, keys, w, i, j, row)
    ensures var k := RunLength(a, b, keys, w, i, j);
            var best := BestBefore(a, b, keys, w, i, j);
            && IsRow(a, b, keys, w, i, j + 1, row[j := k])
            && BestBefore(a, b, keys, w, i, j + 1) == if k > best.size then Match(i + 1 - k, j + 1 - k, k) else best
  {
  }

  lemma FirstRow<T>(a: seq<T>, b: seq<T>, keys: set<T>, w: Window)
    requires Fits(w, a, b)
    ensures IsRowBefore(a, b, keys, w, w.alo, map[])
    ensures BestBefore(a, b, keys, w, w.alo, w.blo) == Match(w.alo, w.blo, 0)
  {
  }

  lemma RowDone<T>(a: seq<T>, b: seq<T>, keys: set<T>, w: Window, i: nat, row: map<int, nat>)
    requires Fits(w, a, b) && w.alo <= i < w.ahi && IsRow(a, b, keys, w, i, w.bhi, row)
    ensures IsRowBefore(a, b, keys, w, i + 1, row)
    ensures BestBefore(a, b, keys, w, i + 1, w.blo) == BestBefore(a, b, keys, w, i, w.bhi)
  {
  }

  /** One round of the inner loop: `a[i]` matches `b[j]`. */
  method TakeColumn<T(==)>(a: seq<T>, b: seq<T>, ghost keys: set<T>, w: Window, i: nat, ghost jlim: nat, j: nat,
                           row: map<int, nat>, newRow0: map<int, nat>, best0: Match)
    returns (newRow: map<int, nat>, best: Match)
    requires Fits(w, a, b) && w.alo <= i < w.ahi && w.blo <= jlim <= j < w.bhi && a[i] == b[j] && b[j] in keys
    requires IsRowBefore(a, b, keys, w, i, row) && IsRow(a, b, keys, w, i, jlim, newRow0)
    requires best0 == BestBefore(a, b, keys, w, i, jlim) && forall k | jlim <= k < j :: b[k] != a[i]
    ensures IsRow(a, b, keys, w, i, j + 1, newRow) && best == BestBefore(a, b, keys, w, i, j + 1)
  {
    hide IsRow, IsRowBefore, BestBefore, RunLength;
    SkipColumns(a, b, keys, w, i, jlim, j, newRow0);
    RunFromRow(a, b, keys, w, i, j, row);
    NextColumn(a, b, keys, w, i, j, newRow0);
    var k := GetOr(row, j - 1) + 1;
    newRow, best := newRow0[j := k], best0;
    if k > best.size {
      best := Match(i + 1 - k, j + 1 - k, k);
    }
  }

  /** One round of the outer loop: the runs of row `i`, from those of the row before. */
  method NextRow<T(==)>(a: seq<T>, b: seq<T>, b2j: map<T, seq<nat>>, w: Window, i: nat, row: map<int, nat>,
                        best0: Match)
    returns (newRow: map<int, nat>, best: Match)
    requires Fits(w, a, b) && w.alo <= i < w.ahi && IsIndex(b2j, b)
    requires IsRowBefore(a, b, b2j.Keys, w, i, row) && best0 == BestBefore(a, b, b2j.Keys, w, i, w.blo)
    ensures IsRow(a, b, b2j.Keys, w, i, w.bhi, newRow) && best == BestBefore(a, b, b2j.Keys, w, i, w.bhi)
  {
    ghost var keys := b2j.Keys;
    EmptyRow(a, b, keys, w, i);
    var js := if a[i] in b2j then b2j[a[i]] else [];
    assert a[i] in b2j ==> js == Indices(b, a[i]);
    hide Indices, IsRow, IsRowBefore, BestBefore, RunLength, IsIndex;
    if a[i] !in b2j {
      newRow, best := map[], best0;
      SkipColumns(a, b, keys, w, i, w.blo, w.bhi, newRow);
    } else {
      newRow, best := TakeColumns(a, b, keys, w, i, js, row, best0);
    }
  }

  /** The inner loop, over the places of `a[i]` in the second sequence. */
  method TakeColumns<T(==)>(a: seq<T>, b: seq<T>, ghost keys: set<T>, w: Window, i: nat, js: seq<nat>,
                            row: map<int, nat>, best0: Match)
    returns (newRow: map<int, nat>, best: Match)
    requires Fits(w, a, b) && w.alo <= i < w.ahi && a[i] in keys && js == Indices(b, a[i])
    requires IsRowBefore(a, b, keys, w, i, row) && IsRow(a, b, keys, w, i, w.blo, map[])
    requires best0 == BestBefore(a, b, keys, w, i, w.blo)
    ensures IsRow(a, b, keys, w, i, w.bhi, newRow) && best == BestBefore(a, b, keys, w, i, w.bhi)
  {
    hide Indices, IsRow, IsRowBefore, BestBefore, RunLength;
    newRow, best := map[], best0;
    ghost var jlim := w.blo;
    assert Passed(js, 0, w.blo, jlim);
    hide Passed;
    var p := 0;
    while p < |js|
      invariant 0 <= p <= |js| && w.blo <= jlim <= w.bhi
      invariant Passed(js, p, w.blo, jlim)
      invariant IsRow(a, b, keys, w, i, jlim, newRow)
      invariant best == BestBefore(a, b, keys, w, i, jlim)
    {
      var j := js[p];
      NextPlace(b, a[i], p, w.blo, jlim);
      if j < w.blo {
        p := p + 1;
        continue;
      }
      if j >= w.bhi {
        break;
      }
      NoneBetween(b, a[i], p, w.blo, jlim, j);
      newRow, best := TakeColumn(a, b, keys, w, i, jlim, j, row, newRow, best);
      jlim := j + 1;
      p := p + 1;
    }
    NoneBetween(b, a[i], p, w.blo, jlim, w.bhi);
    SkipColumns(a, b, keys, w, i, jlim, w.bhi, newRow);
  }

  // ---------- sorting ----------

  /** Tuple order. */
  predicate AtMost(m: Match, n: Match) {
    m.i < n.i || (m.i == n.i && (m.j < n.j || (m.j == n.j && m.size <= n.size)))
  }

  predicate IsSorted(s: seq<Match>) {
    forall p, q | 0 <= p < q < |s| :: AtMost(s[p], s[q])
  }

  function PlaceIn(m: Match, s: seq<Match>): (r: seq<Match>)
    ensures multiset(r) == multiset{m} + multiset(s)
  {
    if s == [] || AtMost(m, s[0]) then [m] + s
    else
      assert s == [s[0]] + s[1..];
      [s[0]] + PlaceIn(m, s[1..])
  }

  /** Every element is at least `m`. */
  predicate AllFrom(m: Match, s: seq<Match>) {
    forall p | 0 <= p < |s| :: AtMost(m, s[p])
  }

  lemma SortedCons(m: Match, s: seq<Match>)
    ensures IsSorted([m] + s) <==> AllFrom(m, s) && IsSorted(s)
  {
    var t := [m] + s;
    if IsSorted(t) {
      forall p | 0 <= p < |s| ensures AtMost(m, s[p]) {
        assert t[0] == m && t[p + 1] == s[p];
      }
      forall p, q | 0 <= p < q < |s| ensures AtMost(s[p], s[q]) {
        assert t[p + 1] == s[p] && t[q + 1] == s[q];
      }
    }
  }

  lemma {:induction false} PlaceInSorted(m: Match, s: seq<Match>, low: Match)
    requires IsSorted(s)
    ensures IsSorted(PlaceIn(m, s))
    ensures AtMost(low, m) && AllFrom(low, s) ==> AllFrom(low, PlaceIn(m, s))
  {
    hide IsSorted;
    if s == [] {
      SortedCons(m, s);
      EmptySorted();
    } else {
      assert s == [s[0]] + s[1..];
      SortedCons(s[0], s[1..]);
      if AtMost(m, s[0]) {
        SortedCons(m, s);
      } else {
        PlaceInSorted(m, s[1..], low);
        PlaceInSorted(m, s[1..], s[0]);
        SortedCons(s[0], PlaceIn(m, s[1..]));
      }
    }
  }

  lemma EmptySorted()
    ensures IsSorted([])
  {
  }

  /** What `list.sort` makes of the blocks. */
  function Sort(s: seq<Match>): (r: seq<Match>)
    ensures multiset(r) == multiset(s) && IsSorted(r)
  {
    if s == [] then []
    else
      assert s == [s[0]] + s[1..];
      PlaceInSorted(s[0], Sort(s[1..]), s[0]);
      PlaceIn(s[0], Sort(s[1..]))
  }

  lemma {:induction false} SortedUnique(s: seq<Match>, t: seq<Match>)
    requires IsSorted(s) && IsSorted(t) && multiset(s) == multiset(t)
    ensures s == t
  {
    if s != [] {
      SameFirst(s, t);
      assert s == [s[0]] + s[1..] && t == [t[0]] + t[1..];
      SortedCons(s[0], s[1..]);
      SortedCons(t[0], t[1..]);
      hide IsSorted;
      assert multiset(s[1..]) == multiset(s) - multiset{s[0]};
      assert multiset(t[1..]) == multiset(t) - multiset{t[0]};
      SortedUnique(s[1..], t[1..]);
    } else {
      assert |multiset(t)| == 0;
    }
  }

  lemma SameFirst(s: seq<Match>, t: seq<Match>)
    requires IsSorted(s) && IsSorted(t) && multiset(s) == multiset(t) && s != []
    ensures t != [] && s[0] == t[0]
  {
    assert s[0] in multiset(t);
    assert s[0] in t;
    assert t[0] in multiset(s);
    SmallestFirst(s, t[0]);
    SmallestFirst(t, s[0]);
  }

  lemma SmallestFirst(s: seq<Match>, m: Match)
    requires IsSorted(s) && m in s
    ensures AtMost(s[0], m)
  {
  }

  lemma OrderedIsSorted(s: seq<Match>)
    requires InOrder(s) && forall p | 0 <= p < |s| :: s[p].size >= 1
    ensures IsSorted(s)
  {
    forall p, q | 0 <= p < q < |s| ensures AtMost(s[p], s[q]) {
      assert Precedes(s[p], s[q]);
    }
  }

  // ---------- the queue of windows ----------

  predicate AllFit<T>(queue: seq<Window>, a: seq<T>, b: seq<T>) {
    forall p | 0 <= p < |queue| :: Fits(queue[p], a, b)
  }

  /** The blocks still to be found in the windows of the queue. */
  ghost function Pending<T>(a: seq<T>, b: seq<T>, keys: set<T>, junk: set<T>, queue: seq<Window>): (r: multiset<Match>)
    requires AllFit(queue, a, b)
  {
    if queue == [] then multiset{}
    else Pending(a, b, keys, junk, queue[..|queue| - 1]) + multiset(Blocks(a, b, keys, junk, queue[|queue| - 1]))
  }

  ghost function QueueSize<T>(queue: seq<Window>, a: seq<T>, b: seq<T>): (n: nat)
    requires AllFit(queue, a, b)
  {
    if queue == [] then 0 else QueueSize(queue[..|queue| - 1], a, b) + WindowSize(queue[|queue| - 1])
  }

  lemma Push<T>(a: seq<T>, b: seq<T>, keys: set<T>, junk: set<T>, queue: seq<Window>, w: Window)
    requires AllFit(queue, a, b) && Fits(w, a, b)
    ensures AllFit(queue + [w], a, b)
    ensures Pending(a, b, keys, junk, queue + [w])
            == Pending(a, b, keys, junk, queue) + multiset(Blocks(a, b, keys, junk, w))
    ensures QueueSize(queue + [w], a, b) == QueueSize(queue, a, b) + WindowSize(w)
  {
    assert (queue + [w])[..|queue|] == queue;
  }

  lemma UnfoldBlocks<T>(a: seq<T>, b: seq<T>, keys: set<T>, junk: set<T>, w: Window)
    requires Fits(w, a, b)
    ensures var m := FindLongest(a, b, keys, junk, w);
            var l, r := LeftOf(w, m), RightOf(w, m);
            && (m.size == 0 ==> Blocks(a, b, keys, junk, w) == [])
            && (m.size > 0 ==>
                  multiset(Blocks(a, b, keys, junk, w)) ==
                  (if Open(l) then multiset(Blocks(a, b, keys, junk, l)) else multiset{}) + multiset{m}
                  + (if Open(r) then multiset(Blocks(a, b, keys, junk, r)) else multiset{}))
  {
    hide FindLongest;
  }

  lemma TakeWindow<T>(a: seq<T>, b: seq<T>, keys: set<T>, junk: set<T>, queue: seq<Window>)
    requires AllFit(queue, a, b) && queue != []
    ensures var rest, w := queue[..|queue| - 1], queue[|queue| - 1];
            && AllFit(rest, a, b) && Fits(w, a, b) && WindowSize(w) >= 1
            && Pending(a, b, keys, junk, queue)
               == Pending(a, b, keys, junk, rest) + multiset(Blocks(a, b, keys, junk, w))
            && QueueSize(queue, a, b) == QueueSize(rest, a, b) + WindowSize(w)
  {
  }

  lemma SidesFit<T>(a: seq<T>, b: seq<T>, w: Window, m: Match)
    requires Fits(w, a, b) && InWindow(w, m)
    ensures Fits(LeftOf(w, m), a, b) && Fits(RightOf(w, m), a, b)
    ensures m.size >= 1 ==> WindowSize(LeftOf(w, m)) + WindowSize(RightOf(w, m)) < WindowSize(w)
    ensures WindowSize(LeftOf(w, m)) >= 1 && WindowSize(RightOf(w, m)) >= 1
  {
  }

  lemma {:induction false} IndicesNone<T>(b: seq<T>, e: T)
    requires e !in b
    ensures Indices(b, e) == []
  {
    IndicesMeaning(b, e);
    assert |Indices(b, e)| == multiset(b)[e] by { IndicesCount(b, e); }
  }

  method IndexAll<T(==)>(b: seq<T>) returns (b2j: map<T, seq<nat>>)
    ensures b2j.Keys == (set e | e in b) && IsIndex(b2j, b)
  {
    b2j := map[];
    var i := 0;
    while i < |b|
      invariant 0 <= i <= |b| && b2j.Keys == (set e | e in b[..i]) && IsIndex(b2j, b[..i])
    {
      var elt := b[i];
      assert b[..i + 1][..i] == b[..i];
      if elt !in b2j {
        IndicesNone(b[..i], elt);
        b2j := b2j[elt := []];
      }
      b2j := b2j[elt := b2j[elt] + [i]];
      i := i + 1;
    }
    assert b[..i] == b;
  }

  /** One round of the loop of `get_opcodes`: the change up to the block, and the copy of the block. */
  method StepsOver(answer0: seq<Opcode>, i: nat, j: nat, m: Match) returns (answer: seq<Opcode>)
    ensures answer == answer0 + (Gap(i, j, m) + Copy(m))
  {
    answer := answer0;
    if i < m.i && j < m.j {
      answer := answer + [Opcode(Replace, i, m.i, j, m.j)];
    } else if i < m.i {
      answer := answer + [Opcode(Delete, i, m.i, j, m.j)];
    } else if j < m.j {
      answer := answer + [Opcode(Insert, i, m.i, j, m.j)];
    }
    assert answer == answer0 + Gap(i, j, m);
    if m.size != 0 {
      answer := answer + [Opcode(Equal, m.i, m.i + m.size, m.j, m.j + m.size)];
    }
  }

  method Steps(ms: seq<Match>) returns (answer: seq<Opcode>)
    ensures answer == Script(0, 0, ms)
  {
    hide Gap, Copy;
    answer := [];
    var i: nat, j: nat := 0, 0;
    var p := 0;
    while p < |ms|
      invariant 0 <= p <= |ms|
      invariant answer + Script(i, j, ms[p..]) == Script(0, 0, ms)
    {
      var m := ms[p];
      assert ms[p..][0] == m && ms[p..][1..] == ms[p + 1..];
      ghost var before := answer;
      answer := StepsOver(answer, i, j, m);
      assert before + Script(i, j, ms[p..]) == answer + Script(m.i + m.size, m.j + m.size, ms[p + 1..]);
      i, j := m.i + m.size, m.j + m.size;
      p := p + 1;
    }
  }

  /** The blocks in sorted order are the recursive decomposition. */
  lemma SortIsBlocks<T>(a: seq<T>, b: seq<T>, keys: set<T>, junk: set<T>, sorted: seq<Match>)
    requires IsSorted(sorted) && multiset(sorted) == multiset(Blocks(a, b, keys, junk, Whole(a, b)))
    ensures sorted == Blocks(a, b, keys, junk, Whole(a, b))
  {
    hide Blocks, InOrder;
    var all := Blocks(a, b, keys, junk, Whole(a, b));
    BlocksInOrder(a, b, keys, junk, Whole(a, b));
    OrderedIsSorted(all);
    SortedUnique(sorted, all);
  }

  lemma ScriptOfMatches<T>(a: seq<T>, b: seq<T>, keys: set<T>, junk: set<T>)
    ensures var ops := Script(0, 0, Matches(a, b, keys, junk));
            && Bridges(ops, a, b, 0, 0, |a|, |b|) && Replay(ops, a, b) == b && TakesTurns(ops)
            && CopiesExactly(ops, Matches(a, b, keys, junk))
  {
    hide Script, Matches, TakesTurns, CopiesExactly;
    var ms := Matches(a, b, keys, junk);
    MatchesMeaning(a, b, keys, junk);
    MatchingIsAhead(a, b, ms);
    ScriptMeaning(a, b, 0, 0, ms);
    ScriptTakesTurns(a, b, 0, 0, ms);
    ScriptCopies(0, 0, ms);
  }

  lemma StartQueue<T>(a: seq<T>, b: seq<T>, keys: set<T>, junk: set<T>)
    ensures AllFit([Whole(a, b)], a, b)
    ensures Pending(a, b, keys, junk, [Whole(a, b)]) == multiset(Blocks(a, b, keys, junk, Whole(a, b)))
    ensures forall q: seq<Window> | q == [] :: AllFit(q, a, b) && Pending(a, b, keys, junk, q) == multiset{}
  {
    hide Blocks;
    Push(a, b, keys, junk, [], Whole(a, b));
    assert [] + [Whole(a, b)] == [Whole(a, b)];
  }

  /** The queue after one round: the sides of the block found that have elements in both sequences. */
  function NextQueue(rest: seq<Window>, w: Window, x: Match): (r: seq<Window>) {
    if x.size == 0 then rest
    else
      var withLeft := if Open(LeftOf(w, x)) then rest + [LeftOf(w, x)] else rest;
      if Open(RightOf(w, x)) then withLeft + [RightOf(w, x)] else withLeft
  }

  lemma NoSides(rest: seq<Window>, w: Window, x: Match)
    requires x.size == 0
    ensures NextQueue(rest, w, x) == rest
  {
  }

  /** One round moves one block from the queue's windows to the blocks found, and makes the queue smaller. */
  lemma AfterWindow<T>(a: seq<T>, b: seq<T>, keys: set<T>, junk: set<T>, queue: seq<Window>)
    requires AllFit(queue, a, b) && queue != []
    ensures Fits(queue[|queue| - 1], a, b)
    ensures var rest, w := queue[..|queue| - 1], queue[|queue| - 1];
            var x := FindLongest(a, b, keys, junk, w);
            var next := NextQueue(rest, w, x);
            && AllFit(next, a, b) && QueueSize(next, a, b) < QueueSize(queue, a, b)
            && Pending(a, b, keys, junk, queue)
               == (if x.size == 0 then multiset{} else multiset{x}) + Pending(a, b, keys, junk, next)
  {
    hide Blocks, FindLongest, Pending, QueueSize;
    TakeWindow(a, b, keys, junk, queue);
    var rest, w := queue[..|queue| - 1], queue[|queue| - 1];
    var x := FindLongest(a, b, keys, junk, w);
    UnfoldBlocks(a, b, keys, junk, w);
    SidesFit(a, b, w, x);
    var l, r := LeftOf(w, x), RightOf(w, x);
    Push(a, b, keys, junk, rest, l);
    Push(a, b, keys, junk, if Open(l) then rest + [l] else rest, r);
  }

  /** The longest keyed block, extended first without junk and then by junk. */
  ghost predicate ExtendsLongest<T>(a: seq<T>, b: seq<T>, keys: set<T>, junk: set<T>, w: Window, m: Match)
    requires Fits(w, a, b)
  {
    exists best, core :: IsLongest(a, b, keys, w, best) && IsExtension(a, b, junk, w, best, core, m)
  }

  lemma FoundIsExtended<T>(a: seq<T>, b: seq<T>, isjunk: Option<T -> bool>, autojunk: bool, w: Window)
    requires Fits(w, a, b)
    ensures var keys, junk := KeysOf(b, isjunk, autojunk), JunkOf(b, isjunk);
            ExtendsLongest(a, b, keys, junk, w, FindLongest(a, b, keys, junk, w))
  {
    hide IsLongest, IsExtension, FindLongest;
    KeysAvoidJunk(b, isjunk, autojunk);
    var best, core := FindLongestExtends(a, b, KeysOf(b, isjunk, autojunk), JunkOf(b, isjunk), w);
  }

  predicate Counts<T(==)>(fullbcount: map<T, int>, b: seq<T>) {
    (forall e | e in b :: e in fullbcount) && forall e | e in fullbcount :: fullbcount[e] == multiset(b)[e]
  }

  class SequenceMatcher<T(==)> {
    const isjunk: Option<T -> bool>
    const autojunk: bool
    var a: seq<T>
    var b: seq<T>
    var b2j: map<T, seq<nat>>
    var bjunk: set<T>
    var bpopular: set<T>
    var matchingBlocks: Option<seq<Match>>
    var opcodes: Option<seq<Opcode>>
    var fullbcount: Option<map<T, int>>

    /** The index belongs to `b`, and what is cached belongs to `a` and `b`. */
    ghost predicate Valid()
      reads this
    {
      && bjunk == JunkOf(b, isjunk) && bpopular == PopularOf(b, isjunk, autojunk)
      && b2j.Keys == KeysOf(b, isjunk, autojunk) && IsIndex(b2j, b)
      && (matchingBlocks.Some? ==> matchingBlocks.value == Matches(a, b, b2j.Keys, bjunk))
      && (opcodes.Some? ==> opcodes.value == Script(0, 0, Matches(a, b, b2j.Keys, bjunk)))
      && (fullbcount.Some? ==> Counts(fullbcount.value, b))
    }

    constructor (isjunk: Option<T -> bool>, a: seq<T>, b: seq<T>, autojunk: bool)
      ensures Valid() && this.a == a && this.b == b && this.isjunk == isjunk && this.autojunk == autojunk
    {
      this.isjunk, this.autojunk, this.a, this.b := isjunk, autojunk, a, b;
      b2j, bjunk, bpopular, matchingBlocks, opcodes, fullbcount := map[], {}, {}, None, None, None;
      new;
      ChainB();
    }

    /** A new first sequence; `same` says that it is the very object held already. */
    method SetSeq1(a: seq<T>, same: bool)
      requires Valid() && (same ==> a == this.a)
      modifies this
      ensures Valid() && this.a == a && b == old(b) && b2j == old(b2j) && bjunk == old(bjunk)
      ensures if same then unchanged(this) else matchingBlocks == None && opcodes == None
    {
      if same {
        return;
      }
      this.a := a;
      matchingBlocks, opcodes := None, None;
    }

    /** A new second sequence, which is indexed afresh unless it is the very object held already. */
    method SetSeq2(b: seq<T>, same: bool)
      requires Valid() && (same ==> b == this.b)
      modifies this
      ensures Valid() && this.b == b && a == old(a)
      ensures if same then unchanged(this) else matchingBlocks == None && opcodes == None && fullbcount == None
    {
      if same {
        return;
      }
      this.b := b;
      matchingBlocks, opcodes, fullbcount := None, None, None;
      ChainB();
    }

    /** Indexes `b`: first every element, then without the junk, then without the popular elements. */
    method ChainB()
      modifies `b2j, `bjunk, `bpopular
      ensures bjunk == JunkOf(b, isjunk) && bpopular == PopularOf(b, isjunk, autojunk)
      ensures b2j.Keys == KeysOf(b, isjunk, autojunk) && IsIndex(b2j, b)
    {
      b2j := IndexAll(b);
      bjunk := set elt | elt in b2j && Judges(isjunk, elt);
      b2j := b2j - bjunk;
      bpopular := {};
      var n := |b|;
      forall e | e in b2j ensures |b2j[e]| == multiset(b)[e] {
        IndicesCount(b, e);
      }
      if autojunk && n >= 200 {
        var ntest := n / 100 + 1;
        bpopular := set elt | elt in b2j && |b2j[elt]| > ntest;
        b2j := b2j - bpopular;
      }
    }

    /** The longest block without junk and popular elements, and then extended on both sides. */
    method FindLongestMatch(alo: nat, ahi: nat, blo: nat, bhi: nat) returns (m: Match)
      requires Valid() && Fits(Window(alo, ahi, blo, bhi), a, b)
      ensures m == FindLongest(a, b, b2j.Keys, bjunk, Window(alo, ahi, blo, bhi))
      ensures ExtendsLongest(a, b, b2j.Keys, bjunk, Window(alo, ahi, blo, bhi), m)
    {
      var w := Window(alo, ahi, blo, bhi);
      FoundIsExtended(a, b, isjunk, autojunk, w);
      hide ExtendsLongest, KeysOf, JunkOf, PopularOf, Best;
      m := SearchRows(w);
      m := Extend(w, false, m);
      m := Extend(w, true, m);
    }

    /** The search row by row. */
    method SearchRows(w: Window) returns (m: Match)
      requires Fits(w, a, b) && IsIndex(b2j, b)
      ensures m == Best(a, b, b2j.Keys, w)
    {
      ghost var keys := b2j.Keys;
      FirstRow(a, b, keys, w);
      hide IsRow, IsRowBefore, BestBefore, IsIndex;
      var row: map<int, nat> := map[];
      m := Match(w.alo, w.blo, 0);
      var i := w.alo;
      while i < w.ahi
        invariant w.alo <= i <= w.ahi
        invariant IsRowBefore(a, b, keys, w, i, row) && m == BestBefore(a, b, keys, w, i, w.blo)
      {
        row, m := NextRow(a, b, b2j, w, i, row, m);
        RowDone(a, b, keys, w, i, row);
        i := i + 1;
      }
    }

    /** A closing loop of the search to the left, then one to the right. */
    method Extend(w: Window, takeJunk: bool, m0: Match) returns (m: Match)
      requires Fits(w, a, b) && InWindow(w, m0)
      ensures m == ExtendRight(a, b, bjunk, w, takeJunk, ExtendLeft(a, b, bjunk, w, takeJunk, m0))
    {
      m := GrowLeft(w, takeJunk, m0);
      m := GrowRight(w, takeJunk, m);
    }

    method GrowLeft(w: Window, takeJunk: bool, m0: Match) returns (m: Match)
      requires Fits(w, a, b) && InWindow(w, m0)
      ensures m == ExtendLeft(a, b, bjunk, w, takeJunk, m0)
    {
      var i: nat, j: nat, size: nat := m0.i, m0.j, m0.size;
      while i > w.alo && j > w.blo && (b[j - 1] in bjunk) == takeJunk && a[i - 1] == b[j - 1]
        invariant InWindow(w, Match(i, j, size))
        invariant ExtendLeft(a, b, bjunk, w, takeJunk, Match(i, j, size)) == ExtendLeft(a, b, bjunk, w, takeJunk, m0)
      {
        i, j, size := i - 1, j - 1, size + 1;
      }
      m := Match(i, j, size);
    }

    method GrowRight(w: Window, takeJunk: bool, m0: Match) returns (m: Match)
      requires Fits(w, a, b) && InWindow(w, m0)
      ensures m == ExtendRight(a, b, bjunk, w, takeJunk, m0)
    {
      var i, j, size: nat := m0.i, m0.j, m0.size;
      while i + size < w.ahi && j + size < w.bhi && (b[j + size] in bjunk) == takeJunk && a[i + size] == b[j + size]
        invariant InWindow(w, Match(i, j, size))
        invariant ExtendRight(a, b, bjunk, w, takeJunk, Match(i, j, size)) == ExtendRight(a, b, bjunk, w, takeJunk, m0)
      {
        size := size + 1;
      }
      m := Match(i, j, size);
    }

    /** The matching blocks, from a queue of windows; computed once. */
    method GetMatchingBlocks() returns (r: seq<Match>)
      requires Valid()
      modifies `matchingBlocks
      ensures Valid() && r == Matches(a, b, b2j.Keys, bjunk) && IsMatching(a, b, r)
    {
      MatchesMeaning(a, b, b2j.Keys, bjunk);
      if matchingBlocks.Some? {
        return matchingBlocks.value;
      }
      var blocks := FindAll();
      r := Joined(blocks);
      r := r + [Match(|a|, |b|, 0)];
      matchingBlocks := Some(r);
    }

    /** Works off the queue, and sorts what was found. */
    method FindAll() returns (blocks: seq<Match>)
      requires Valid()
      ensures blocks == Blocks(a, b, b2j.Keys, bjunk, Whole(a, b))
    {
      hide Blocks, Fits, KeysOf, JunkOf, PopularOf, IsIndex, Matches, Script, FindLongest, AllFit, Pending, QueueSize,
           NextQueue, ExtendsLongest;
      ghost var keys := b2j.Keys;
      ghost var all := Blocks(a, b, keys, bjunk, Whole(a, b));
      var queue := [Window(0, |a|, 0, |b|)];
      var found: seq<Match> := [];
      StartQueue(a, b, keys, bjunk);
      while queue != []
        invariant AllFit(queue, a, b)
        invariant multiset(found) + Pending(a, b, keys, bjunk, queue) == multiset(all)
        decreases QueueSize(queue, a, b)
      {
        AfterWindow(a, b, keys, bjunk, queue);
        var w := queue[|queue| - 1];
        queue := queue[..|queue| - 1];
        assert w == Window(w.alo, w.ahi, w.blo, w.bhi);
        var x := FindLongestMatch(w.alo, w.ahi, w.blo, w.bhi);
        if x.size != 0 {
          found := found + [x];
          queue := WithSides(queue, w, x);
        } else {
          NoSides(queue, w, x);
        }
      }
      blocks := Sort(found);
      SortIsBlocks(a, b, keys, bjunk, blocks);
    }

    /** Queues the windows on both sides of a block that have elements in both sequences. */
    method WithSides(queue0: seq<Window>, w: Window, x: Match) returns (queue: seq<Window>)
      requires x.size != 0
      ensures queue == NextQueue(queue0, w, x)
    {
      queue := queue0;
      if w.alo < x.i && w.blo < x.j {
        queue := queue + [Window(w.alo, x.i, w.blo, x.j)];
      }
      if x.i + x.size < w.ahi && x.j + x.size < w.bhi {
        queue := queue + [Window(x.i + x.size, w.ahi, x.j + x.size, w.bhi)];
      }
    }

    /** Collapses adjacent blocks. */
    method Joined(blocks: seq<Match>) returns (r: seq<Match>)
      ensures r == Collapse(Match(0, 0, 0), blocks)
    {
      r := [];
      var i1: nat, j1: nat, k1: nat := 0, 0, 0;
      var p := 0;
      while p < |blocks|
        invariant 0 <= p <= |blocks|
        invariant r + Collapse(Match(i1, j1, k1), blocks[p..]) == Collapse(Match(0, 0, 0), blocks)
      {
        var next := blocks[p];
        assert blocks[p..][0] == next && blocks[p..][1..] == blocks[p + 1..];
        if i1 + k1 == next.i && j1 + k1 == next.j {
          k1 := k1 + next.size;
        } else {
          if k1 != 0 {
            r := r + [Match(i1, j1, k1)];
          }
          i1, j1, k1 := next.i, next.j, next.size;
        }
        p := p + 1;
      }
      if k1 != 0 {
        r := r + [Match(i1, j1, k1)];
      }
    }

    /** The edit script; computed once. */
    method GetOpcodes() returns (answer: seq<Opcode>)
      requires Valid()
      modifies `matchingBlocks, `opcodes
      ensures Valid() && answer == Script(0, 0, Matches(a, b, b2j.Keys, bjunk))
      ensures Bridges(answer, a, b, 0, 0, |a|, |b|) && Replay(answer, a, b) == b && TakesTurns(answer)
      ensures CopiesExactly(answer, Matches(a, b, b2j.Keys, bjunk))
    {
      ScriptOfMatches(a, b, b2j.Keys, bjunk);
      hide Script, CopiesExactly, Bridges, Replay, TakesTurns, Matches, IsIndex, KeysOf, JunkOf, PopularOf, IsMatching;
      if opcodes.Some? {
        return opcodes.value;
      }
      var ms := GetMatchingBlocks();
      answer := Steps(ms);
      opcodes := Some(answer);
    }

    /** The share of the elements that the matching blocks cover. */
    method Ratio() returns (r: real)
      requires Valid()
      modifies `matchingBlocks
      ensures Valid() && r == CalculateRatio(TotalSize(Matches(a, b, b2j.Keys, bjunk)), |a| + |b|)
      ensures IsShare(r, TotalSize(Matches(a, b, b2j.Keys, bjunk)), |a| + |b|)
      ensures r == 1.0 <==> a == b
    {
      hide *;
      MatchesBound(a, b, b2j.Keys, bjunk);
      RatioIsShare(TotalSize(Matches(a, b, b2j.Keys, bjunk)), |a| + |b|);
      RatioOneIff(a, b, b2j.Keys, bjunk);
      var ms := GetMatchingBlocks();
      var matches := SumOfSizes(ms);
      r := CalculateRatio(matches, |a| + |b|);
    }

    method QuickRatio() returns (r: real)
      requires Valid()
      modifies `fullbcount
      ensures Valid() && r == CalculateRatio(Common(multiset(a), multiset(b)), |a| + |b|)
      ensures CalculateRatio(TotalSize(Matches(a, b, b2j.Keys, bjunk)), |a| + |b|) <= r <= 1.0
      ensures IsShare(r, Common(multiset(a), multiset(b)), |a| + |b|)
    {
      RatioBounds(a, b, b2j.Keys, bjunk);
      MatchesBound(a, b, b2j.Keys, bjunk);
      RatioIsShare(Common(multiset(a), multiset(b)), |a| + |b|);
      hide Matches, Script, KeysOf, JunkOf, PopularOf, IsIndex, TotalSize, CalculateRatio, IsShare, Common;
      if fullbcount.None? {
        var counts := CountAll(b);
        fullbcount := Some(counts);
      }
      var matches := CountCommon(a, b, fullbcount.value);
      r := CalculateRatio(matches, |a| + |b|);
    }

    method RealQuickRatio() returns (r: real)
      requires Valid()
      ensures CalculateRatio(Common(multiset(a), multiset(b)), |a| + |b|) <= r <= 1.0
      ensures r == CalculateRatio(Shorter(a, b), |a| + |b|)
      ensures IsShare(r, Shorter(a, b), |a| + |b|)
    {
      RatioIsShare(Shorter(a, b), |a| + |b|);
      RatioBounds(a, b, b2j.Keys, bjunk);
      hide IsShare, CalculateRatio;
      var la, lb := |a|, |b|;
      r := CalculateRatio(if la <= lb then la else lb, la + lb);
    }
  }
}
