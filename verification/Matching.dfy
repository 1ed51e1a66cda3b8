/**
 `difflib.py`, the definitions behind `SequenceMatcher`: blocks, the longest junk-free block of a window, its
 extension, and the recursive decomposition into matching blocks.
 */
module Matching {

  /** `a[alo..ahi]` against `b[blo..bhi]`. */
  datatype Window = Window(alo: nat, ahi: nat, blo: nat, bhi: nat)

  /** `a[i..i + size]` equals `b[j..j + size]`. */
  datatype Match = Match(i: nat, j: nat, size: nat)

  predicate Fits<T>(w: Window, a: seq<T>, b: seq<T>) {
    w.alo <= w.ahi <= |a| && w.blo <= w.bhi <= |b|
  }

  predicate InWindow(w: Window, m: Match) {
    w.alo <= m.i && m.i + m.size <= w.ahi && w.blo <= m.j && m.j + m.size <= w.bhi
  }

  predicate IsBlock<T(==)>(a: seq<T>, b: seq<T>, w: Window, m: Match)
    requires Fits(w, a, b)
  {
    InWindow(w, m) && a[m.i..m.i + m.size] == b[m.j..m.j + m.size]
  }

  /** A block none of whose elements is junk or popular. */
  predicate IsKeyed<T(==)>(a: seq<T>, b: seq<T>, keys: set<T>, w: Window, m: Match)
    requires Fits(w, a, b)
  {
    IsBlock(a, b, w, m) && forall k | m.j <= k < m.j + m.size :: b[k] in keys
  }

  predicate Earlier(m: Match, n: Match) {
    m.i < n.i || (m.i == n.i && m.j <= n.j)
  }

  /**
   The longest keyed block, earliest in `a` and then in `b` among the longest; empty at the window's corner if none.
   */
  ghost predicate IsLongest<T>(a: seq<T>, b: seq<T>, keys: set<T>, w: Window, m: Match)
    requires Fits(w, a, b)
  {
    && IsKeyed(a, b, keys, w, m)
    && (m.size == 0 ==> m.i == w.alo && m.j == w.blo)
    && forall n: Match | IsKeyed(a, b, keys, w, n) :: n.size <= m.size && (n.size == m.size >= 1 ==> Earlier(m, n))
  }

  // ---------- the longest keyed block ----------

  /** The length of the longest keyed block of the window that ends with `a[i]` and `b[j]`. */
  function RunLength<T(==)>(a: seq<T>, b: seq<T>, keys: set<T>, w: Window, i: nat, j: nat): (k: nat)
    requires Fits(w, a, b) && w.alo <= i < w.ahi && w.blo <= j < w.bhi
    ensures k <= i + 1 - w.alo && k <= j + 1 - w.blo
  {
    if a[i] != b[j] || b[j] !in keys then 0
    else if i == w.alo || j == w.blo then 1
    else 1 + RunLength(a, b, keys, w, i - 1, j - 1)
  }

  /** The first longest run among the pairs before `(i, j)`, row by row. */
  function BestBefore<T(==)>(a: seq<T>, b: seq<T>, keys: set<T>, w: Window, i: nat, j: nat): (m: Match)
    requires Fits(w, a, b) && w.alo <= i <= w.ahi && w.blo <= j <= w.bhi && (i == w.ahi ==> j == w.blo)
    ensures InWindow(w, m)
    decreases i, j
  {
    if j > w.blo then
      var best := BestBefore(a, b, keys, w, i, j - 1);
      var k := RunLength(a, b, keys, w, i, j - 1);
      if k > best.size then Match(i + 1 - k, j - k, k) else best
    else if i > w.alo then BestBefore(a, b, keys, w, i - 1, w.bhi)
    else Match(w.alo, w.blo, 0)
  }

  function Best<T(==)>(a: seq<T>, b: seq<T>, keys: set<T>, w: Window): (m: Match)
    requires Fits(w, a, b)
    ensures InWindow(w, m)
  {
    BestBefore(a, b, keys, w, w.ahi, w.blo)
  }

  lemma {:induction false} RunIsKeyed<T>(a: seq<T>, b: seq<T>, keys: set<T>, w: Window, i: nat, j: nat)
    requires Fits(w, a, b) && w.alo <= i < w.ahi && w.blo <= j < w.bhi
    ensures var k := RunLength(a, b, keys, w, i, j); IsKeyed(a, b, keys, w, Match(i + 1 - k, j + 1 - k, k))
  {
    var k := RunLength(a, b, keys, w, i, j);
    if k > 1 {
      RunIsKeyed(a, b, keys, w, i - 1, j - 1);
      assert a[i + 1 - k..i + 1] == a[i + 1 - k..i] + [a[i]];
      assert b[j + 1 - k..j + 1] == b[j + 1 - k..j] + [b[j]];
    } else if k == 1 {
      assert a[i..i + 1] == [a[i]] && b[j..j + 1] == [b[j]];
    }
  }

  /** No keyed block ending at a pair is longer than the run there. */
  lemma {:induction false} RunIsLongest<T>(a: seq<T>, b: seq<T>, keys: set<T>, w: Window, m: Match)
    requires Fits(w, a, b) && IsKeyed(a, b, keys, w, m) && m.size >= 1
    ensures m.size <= RunLength(a, b, keys, w, m.i + m.size - 1, m.j + m.size - 1)
    decreases m.size
  {
    var n := m.size - 1;
    assert a[m.i + n] == a[m.i..m.i + m.size][n] == b[m.j..m.j + m.size][n] == b[m.j + n];
    if n >= 1 {
      assert a[m.i..m.i + n] == a[m.i..m.i + m.size][..n];
      assert b[m.j..m.j + n] == b[m.j..m.j + m.size][..n];
      RunIsLongest(a, b, keys, w, Match(m.i, m.j, n));
    }
  }

  /** The pair where a block ends lies before `(i, j)`, row by row. */
  predicate EndsBefore(m: Match, i: nat, j: nat) {
    m.i + m.size - 1 < i || (m.i + m.size - 1 == i && m.j + m.size - 1 < j)
  }

  lemma {:induction false} BestIsKeyed<T>(a: seq<T>, b: seq<T>, keys: set<T>, w: Window, i: nat, j: nat)
    requires Fits(w, a, b) && w.alo <= i <= w.ahi && w.blo <= j <= w.bhi && (i == w.ahi ==> j == w.blo)
    ensures var m := BestBefore(a, b, keys, w, i, j);
            && IsKeyed(a, b, keys, w, m) && (m.size >= 1 ==> EndsBefore(m, i, j))
            && (m.size == 0 ==> m.i == w.alo && m.j == w.blo)
    decreases i, j
  {
    hide RunLength;
    if j > w.blo {
      BestIsKeyed(a, b, keys, w, i, j - 1);
      RunIsKeyed(a, b, keys, w, i, j - 1);
    } else if i > w.alo {
      BestIsKeyed(a, b, keys, w, i - 1, w.bhi);
    }
  }

  /** A block that ends before `(i, j)` is no better than the best one found there. */
  lemma {:induction false} BestIsLongest<T>(a: seq<T>, b: seq<T>, keys: set<T>, w: Window, i: nat, j: nat, n: Match)
    requires Fits(w, a, b) && w.alo <= i <= w.ahi && w.blo <= j <= w.bhi && (i == w.ahi ==> j == w.blo)
    requires IsKeyed(a, b, keys, w, n) && n.size >= 1 && EndsBefore(n, i, j)
    ensures var m := BestBefore(a, b, keys, w, i, j);
            n.size <= m.size && (n.size == m.size ==> Earlier(m, n))
    decreases i, j
  {
    hide RunLength, IsKeyed;
    KeyedInWindow(a, b, keys, w, n);
    if j > w.blo {
      BestIsKeyed(a, b, keys, w, i, j - 1);
      if EndsBefore(n, i, j - 1) {
        BestIsLongest(a, b, keys, w, i, j - 1, n);
      } else {
        RunIsLongest(a, b, keys, w, n);
      }
    } else if i > w.alo {
      BestIsLongest(a, b, keys, w, i - 1, w.bhi, n);
    }
  }

  lemma KeyedInWindow<T>(a: seq<T>, b: seq<T>, keys: set<T>, w: Window, n: Match)
    requires Fits(w, a, b) && IsKeyed(a, b, keys, w, n)
    ensures InWindow(w, n)
  {
  }

  lemma BestMeaning<T>(a: seq<T>, b: seq<T>, keys: set<T>, w: Window)
    requires Fits(w, a, b)
    ensures IsLongest(a, b, keys, w, Best(a, b, keys, w))
  {
    hide BestBefore, IsKeyed;
    var m := Best(a, b, keys, w);
    BestIsKeyed(a, b, keys, w, w.ahi, w.blo);
    forall n: Match | IsKeyed(a, b, keys, w, n)
      ensures n.size <= m.size && (n.size == m.size >= 1 ==> Earlier(m, n))
    {
      KeyedInWindow(a, b, keys, w, n);
      if n.size >= 1 {
        BestIsLongest(a, b, keys, w, w.ahi, w.blo, n);
      }
    }
  }

  // ---------- extension ----------

  predicate LeftFits<T(==)>(a: seq<T>, b: seq<T>, junk: set<T>, w: Window, takeJunk: bool, m: Match)
    requires Fits(w, a, b) && InWindow(w, m)
  {
    m.i > w.alo && m.j > w.blo && (b[m.j - 1] in junk) == takeJunk && a[m.i - 1] == b[m.j - 1]
  }

  predicate RightFits<T(==)>(a: seq<T>, b: seq<T>, junk: set<T>, w: Window, takeJunk: bool, m: Match)
    requires Fits(w, a, b) && InWindow(w, m)
  {
    m.i + m.size < w.ahi && m.j + m.size < w.bhi && (b[m.j + m.size] in junk) == takeJunk
    && a[m.i + m.size] == b[m.j + m.size]
  }

  function ExtendLeft<T(==)>(a: seq<T>, b: seq<T>, junk: set<T>, w: Window, takeJunk: bool, m: Match): (r: Match)
    requires Fits(w, a, b) && InWindow(w, m)
    ensures InWindow(w, r) && r.i <= m.i && r.i + r.size == m.i + m.size && r.j + r.size == m.j + m.size
    decreases m.i
  {
    if LeftFits(a, b, junk, w, takeJunk, m)
    then ExtendLeft(a, b, junk, w, takeJunk, Match(m.i - 1, m.j - 1, m.size + 1)) else m
  }

  function ExtendRight<T(==)>(a: seq<T>, b: seq<T>, junk: set<T>, w: Window, takeJunk: bool, m: Match): (r: Match)
    requires Fits(w, a, b) && InWindow(w, m)
    ensures InWindow(w, r) && r.i == m.i && r.j == m.j && r.size >= m.size
    decreases w.ahi - m.i - m.size
  {
    if RightFits(a, b, junk, w, takeJunk, m)
    then ExtendRight(a, b, junk, w, takeJunk, Match(m.i, m.j, m.size + 1)) else m
  }

  /** First with the elements that are not junk, then with junk. */
  function Extended<T(==)>(a: seq<T>, b: seq<T>, junk: set<T>, w: Window, m: Match): (r: Match)
    requires Fits(w, a, b) && InWindow(w, m)
    ensures InWindow(w, r) && r.i <= m.i && m.i + m.size <= r.i + r.size && m.i + r.j == r.i + m.j
  {
    var clean := ExtendRight(a, b, junk, w, false, ExtendLeft(a, b, junk, w, false, m));
    ExtendRight(a, b, junk, w, true, ExtendLeft(a, b, junk, w, true, clean))
  }

  function FindLongest<T(==)>(a: seq<T>, b: seq<T>, keys: set<T>, junk: set<T>, w: Window): (m: Match)
    requires Fits(w, a, b)
    ensures InWindow(w, m)
  {
    Extended(a, b, junk, w, Best(a, b, keys, w))
  }

  /** A block grows by an equal pair before it. */
  lemma BlockBefore<T>(a: seq<T>, b: seq<T>, w: Window, m: Match)
    requires Fits(w, a, b) && IsBlock(a, b, w, m) && m.i > w.alo && m.j > w.blo && a[m.i - 1] == b[m.j - 1]
    ensures IsBlock(a, b, w, Match(m.i - 1, m.j - 1, m.size + 1))
  {
    assert a[m.i - 1..m.i + m.size] == [a[m.i - 1]] + a[m.i..m.i + m.size];
    assert b[m.j - 1..m.j + m.size] == [b[m.j - 1]] + b[m.j..m.j + m.size];
  }

  /** A block grows by an equal pair behind it. */
  lemma BlockBehind<T>(a: seq<T>, b: seq<T>, w: Window, m: Match)
    requires Fits(w, a, b) && IsBlock(a, b, w, m) && m.i + m.size < w.ahi && m.j + m.size < w.bhi
    requires a[m.i + m.size] == b[m.j + m.size]
    ensures IsBlock(a, b, w, Match(m.i, m.j, m.size + 1))
  {
    assert a[m.i..m.i + m.size + 1] == a[m.i..m.i + m.size] + [a[m.i + m.size]];
    assert b[m.j..m.j + m.size + 1] == b[m.j..m.j + m.size] + [b[m.j + m.size]];
  }

  lemma {:induction false} ExtendLeftIsBlock<T>(a: seq<T>, b: seq<T>, junk: set<T>, w: Window, takeJunk: bool, m: Match)
    requires Fits(w, a, b) && IsBlock(a, b, w, m)
    ensures IsBlock(a, b, w, ExtendLeft(a, b, junk, w, takeJunk, m))
    decreases m.i
  {
    if LeftFits(a, b, junk, w, takeJunk, m) {
      BlockBefore(a, b, w, m);
      hide IsBlock;
      ExtendLeftIsBlock(a, b, junk, w, takeJunk, Match(m.i - 1, m.j - 1, m.size + 1));
    }
  }

  lemma {:induction false} ExtendRightIsBlock<T>(a: seq<T>, b: seq<T>, junk: set<T>, w: Window, takeJunk: bool,
                                                 m: Match)
    requires Fits(w, a, b) && IsBlock(a, b, w, m)
    ensures IsBlock(a, b, w, ExtendRight(a, b, junk, w, takeJunk, m))
    decreases w.ahi - m.i - m.size
  {
    if RightFits(a, b, junk, w, takeJunk, m) {
      BlockBehind(a, b, w, m);
      hide IsBlock;
      ExtendRightIsBlock(a, b, junk, w, takeJunk, Match(m.i, m.j, m.size + 1));
    }
  }

  /**
   Whatever is junk or popular, the block found is an equal block of the window that contains the longest keyed one.
   */
  lemma FindLongestIsBlock<T>(a: seq<T>, b: seq<T>, keys: set<T>, junk: set<T>, w: Window)
    requires Fits(w, a, b)
    ensures var m := FindLongest(a, b, keys, junk, w);
            var best := Best(a, b, keys, w);
            && IsBlock(a, b, w, m) && m.i <= best.i && best.i + best.size <= m.i + m.size
            && m.i + best.j == best.i + m.j
            && best.size <= m.size
  {
    hide ExtendLeft, ExtendRight, BestBefore;
    BestMeaning(a, b, keys, w);
    var m0 := Best(a, b, keys, w);
    ExtendLeftIsBlock(a, b, junk, w, false, m0);
    var m1 := ExtendLeft(a, b, junk, w, false, m0);
    ExtendRightIsBlock(a, b, junk, w, false, m1);
    var m2 := ExtendRight(a, b, junk, w, false, m1);
    ExtendLeftIsBlock(a, b, junk, w, true, m2);
    ExtendRightIsBlock(a, b, junk, w, true, ExtendLeft(a, b, junk, w, true, m2));
  }

  // ---------- what the extension gives ----------

  /** `n` lies inside `m`, on the same diagonal. */
  predicate Inside(n: Match, m: Match) {
    m.i <= n.i && n.i + n.size <= m.i + m.size && m.i + n.j == n.i + m.j
  }

  /** An equal element that is junk, or is not, stands before or behind the block in the window. */
  predicate CanGrow<T(==)>(a: seq<T>, b: seq<T>, junk: set<T>, w: Window, isJunk: bool, m: Match)
    requires Fits(w, a, b) && InWindow(w, m)
  {
    || (w.alo < m.i && w.blo < m.j && a[m.i - 1] == b[m.j - 1] && (b[m.j - 1] in junk <==> isJunk))
    || (m.i + m.size < w.ahi && m.j + m.size < w.bhi && a[m.i + m.size] == b[m.j + m.size]
        && (b[m.j + m.size] in junk <==> isJunk))
  }

  /**
   `m` is the block `best` extended: to a core without junk that cannot grow by an element that is not junk, and from
   there by junk alone, until that is not possible either.
   */
  predicate IsExtension<T(==)>(a: seq<T>, b: seq<T>, junk: set<T>, w: Window, best: Match, core: Match, m: Match)
    requires Fits(w, a, b)
  {
    && IsBlock(a, b, w, core) && Inside(best, core)
    && (forall k | core.j <= k < core.j + core.size :: b[k] !in junk) && !CanGrow(a, b, junk, w, false, core)
    && IsBlock(a, b, w, m) && Inside(core, m)
    && (forall k | m.j <= k < m.j + m.size && !(core.j <= k < core.j + core.size) :: b[k] in junk)
    && !CanGrow(a, b, junk, w, true, m)
  }

  lemma {:induction false} ExtendLeftMeaning<T>(a: seq<T>, b: seq<T>, junk: set<T>, w: Window, takeJunk: bool, m: Match)
    requires Fits(w, a, b) && InWindow(w, m)
    ensures var r := ExtendLeft(a, b, junk, w, takeJunk, m);
            !LeftFits(a, b, junk, w, takeJunk, r) && forall k | r.j <= k < m.j :: b[k] in junk <==> takeJunk
    decreases m.i
  {
    if LeftFits(a, b, junk, w, takeJunk, m) {
      ExtendLeftMeaning(a, b, junk, w, takeJunk, Match(m.i - 1, m.j - 1, m.size + 1));
    }
  }

  lemma {:induction false} ExtendRightMeaning<T>(a: seq<T>, b: seq<T>, junk: set<T>, w: Window, takeJunk: bool,
                                                 m: Match)
    requires Fits(w, a, b) && InWindow(w, m)
    ensures var r := ExtendRight(a, b, junk, w, takeJunk, m);
            && !RightFits(a, b, junk, w, takeJunk, r)
            && forall k | m.j + m.size <= k < r.j + r.size :: b[k] in junk <==> takeJunk
    decreases w.ahi - m.i - m.size
  {
    if RightFits(a, b, junk, w, takeJunk, m) {
      ExtendRightMeaning(a, b, junk, w, takeJunk, Match(m.i, m.j, m.size + 1));
    }
  }

  /** One round of extension, to the left and then to the right. */
  lemma GrownOut<T>(a: seq<T>, b: seq<T>, junk: set<T>, w: Window, takeJunk: bool, m: Match)
    requires Fits(w, a, b) && IsBlock(a, b, w, m)
    ensures var r := ExtendRight(a, b, junk, w, takeJunk, ExtendLeft(a, b, junk, w, takeJunk, m));
      && IsBlock(a, b, w, r) && Inside(m, r) && !CanGrow(a, b, junk, w, takeJunk, r)
      && forall k | r.j <= k < r.j + r.size && !(m.j <= k < m.j + m.size) :: b[k] in junk <==> takeJunk
  {
    var l := ExtendLeft(a, b, junk, w, takeJunk, m);
    ExtendLeftMeaning(a, b, junk, w, takeJunk, m);
    ExtendLeftIsBlock(a, b, junk, w, takeJunk, m);
    ExtendRightMeaning(a, b, junk, w, takeJunk, l);
    ExtendRightIsBlock(a, b, junk, w, takeJunk, l);
    hide ExtendLeft, ExtendRight;
  }

  /** The block found is the longest keyed one, extended: first without junk, then by junk. */
  lemma FindLongestExtends<T>(a: seq<T>, b: seq<T>, keys: set<T>, junk: set<T>, w: Window)
    returns (best: Match, core: Match)
    requires Fits(w, a, b) && keys !! junk
    ensures IsLongest(a, b, keys, w, best) && IsExtension(a, b, junk, w, best, core, FindLongest(a, b, keys, junk, w))
  {
    best := Best(a, b, keys, w);
    BestMeaning(a, b, keys, w);
    core := ExtendRight(a, b, junk, w, false, ExtendLeft(a, b, junk, w, false, best));
    GrownOut(a, b, junk, w, false, best);
    GrownOut(a, b, junk, w, true, core);
    hide ExtendLeft, ExtendRight, Best, IsLongest, CanGrow;
    forall k | core.j <= k < core.j + core.size ensures b[k] !in junk {
      if best.j <= k < best.j + best.size {
        assert b[k] in keys;
      }
    }
  }

  /** The elements of a block agree along its diagonal. */
  lemma BlockAt<T>(a: seq<T>, b: seq<T>, w: Window, m: Match, k: nat)
    requires Fits(w, a, b) && IsBlock(a, b, w, m) && k < m.size
    ensures a[m.i + k] == b[m.j + k]
  {
    assert a[m.i..m.i + m.size][k] == b[m.j..m.j + m.size][k];
  }

  /** A block that reaches beyond `m` with elements of the one kind shows that `m` can grow. */
  lemma ReachesBeyond<T>(a: seq<T>, b: seq<T>, junk: set<T>, w: Window, isJunk: bool, n: Match, m: Match, m': Match)
    requires Fits(w, a, b) && IsBlock(a, b, w, m) && IsBlock(a, b, w, m') && Inside(n, m) && Inside(n, m')
    requires forall k | m'.j <= k < m'.j + m'.size && !(n.j <= k < n.j + n.size) :: b[k] in junk <==> isJunk
    requires !Inside(m', m)
    ensures CanGrow(a, b, junk, w, isJunk, m)
  {
    if m'.i < m.i {
      BlockAt(a, b, w, m', m.i - 1 - m'.i);
    } else {
      BlockAt(a, b, w, m', m.i + m.size - m'.i);
    }
  }

  lemma SameExtent<T>(a: seq<T>, b: seq<T>, junk: set<T>, w: Window, isJunk: bool, n: Match, m: Match, m': Match)
    requires Fits(w, a, b) && IsBlock(a, b, w, m) && IsBlock(a, b, w, m') && Inside(n, m) && Inside(n, m')
    requires forall k | m'.j <= k < m'.j + m'.size && !(n.j <= k < n.j + n.size) :: b[k] in junk <==> isJunk
    requires !CanGrow(a, b, junk, w, isJunk, m)
    ensures Inside(m', m)
  {
    hide CanGrow, IsBlock;
    if !Inside(m', m) {
      ReachesBeyond(a, b, junk, w, isJunk, n, m, m');
    }
  }

  /** The law leaves no choice. */
  lemma OneExtension<T>(a: seq<T>, b: seq<T>, junk: set<T>, w: Window, best: Match,
                        core: Match, m: Match, core': Match, m': Match)
    requires Fits(w, a, b) && IsExtension(a, b, junk, w, best, core, m) && IsExtension(a, b, junk, w, best, core', m')
    ensures core == core' && m == m'
  {
    hide CanGrow, IsBlock;
    SameExtent(a, b, junk, w, false, best, core, core');
    SameExtent(a, b, junk, w, false, best, core', core);
    SameExtent(a, b, junk, w, true, core, m, m');
    SameExtent(a, b, junk, w, true, core, m', m);
  }

  /** A block that is the longest of all blocks cannot be extended. */
  lemma LongestNotExtended<T>(a: seq<T>, b: seq<T>, keys: set<T>, junk: set<T>, w: Window, m: Match)
    requires Fits(w, a, b) && IsLongest(a, b, keys, w, m) && forall j | w.blo <= j < w.bhi :: b[j] in keys
    ensures Extended(a, b, junk, w, m) == m
  {
    LongestNotLeft(a, b, keys, junk, w, false, m);
    LongestNotLeft(a, b, keys, junk, w, true, m);
    LongestNotRight(a, b, keys, junk, w, false, m);
    LongestNotRight(a, b, keys, junk, w, true, m);
    hide IsLongest, LeftFits, RightFits;
    assert ExtendLeft(a, b, junk, w, false, m) == m && ExtendRight(a, b, junk, w, false, m) == m;
    assert ExtendLeft(a, b, junk, w, true, m) == m && ExtendRight(a, b, junk, w, true, m) == m;
  }

  lemma LongestNotLeft<T>(a: seq<T>, b: seq<T>, keys: set<T>, junk: set<T>, w: Window, takeJunk: bool, m: Match)
    requires Fits(w, a, b) && IsLongest(a, b, keys, w, m) && forall j | w.blo <= j < w.bhi :: b[j] in keys
    ensures !LeftFits(a, b, junk, w, takeJunk, m)
  {
    if LeftFits(a, b, junk, w, takeJunk, m) {
      GrownLeft(a, b, keys, w, m);
    }
  }

  lemma GrownLeft<T>(a: seq<T>, b: seq<T>, keys: set<T>, w: Window, m: Match)
    requires Fits(w, a, b) && IsBlock(a, b, w, m) && forall j | w.blo <= j < w.bhi :: b[j] in keys
    requires m.i > w.alo && m.j > w.blo && a[m.i - 1] == b[m.j - 1]
    ensures IsKeyed(a, b, keys, w, Match(m.i - 1, m.j - 1, m.size + 1))
  {
    BlockBefore(a, b, w, m);
  }

  lemma LongestNotRight<T>(a: seq<T>, b: seq<T>, keys: set<T>, junk: set<T>, w: Window, takeJunk: bool, m: Match)
    requires Fits(w, a, b) && IsLongest(a, b, keys, w, m) && forall j | w.blo <= j < w.bhi :: b[j] in keys
    ensures !RightFits(a, b, junk, w, takeJunk, m)
  {
    if RightFits(a, b, junk, w, takeJunk, m) {
      GrownRight(a, b, keys, w, m);
    }
  }

  lemma GrownRight<T>(a: seq<T>, b: seq<T>, keys: set<T>, w: Window, m: Match)
    requires Fits(w, a, b) && IsBlock(a, b, w, m) && forall j | w.blo <= j < w.bhi :: b[j] in keys
    requires m.i + m.size < w.ahi && m.j + m.size < w.bhi && a[m.i + m.size] == b[m.j + m.size]
    ensures IsKeyed(a, b, keys, w, Match(m.i, m.j, m.size + 1))
  {
    BlockBehind(a, b, w, m);
  }

  /** The promise made for matchers without junk: the longest block of all, the earliest such one. */
  ghost predicate IsLongestOfAll<T>(a: seq<T>, b: seq<T>, w: Window, m: Match)
    requires Fits(w, a, b)
  {
    && IsBlock(a, b, w, m)
    && (m.size == 0 ==> m.i == w.alo && m.j == w.blo)
    && forall n: Match | IsBlock(a, b, w, n) :: n.size <= m.size && (n.size == m.size >= 1 ==> Earlier(m, n))
  }

  /** With every element of the window keyed, the block found is the longest of all, and the earliest such one. */
  lemma LongestOfAll<T>(a: seq<T>, b: seq<T>, keys: set<T>, junk: set<T>, w: Window)
    requires Fits(w, a, b) && forall j | w.blo <= j < w.bhi :: b[j] in keys
    ensures IsLongestOfAll(a, b, w, FindLongest(a, b, keys, junk, w))
  {
    hide Extended, Best;
    var m := Best(a, b, keys, w);
    BestMeaning(a, b, keys, w);
    LongestNotExtended(a, b, keys, junk, w, m);
    forall n: Match | IsBlock(a, b, w, n)
      ensures n.size <= m.size && (n.size == m.size >= 1 ==> Earlier(m, n))
    {
      assert IsKeyed(a, b, keys, w, n);
    }
  }

  /** An element left out of the keys is overlooked where it should have been found. */
  lemma UnkeyedIsMissed<T>(b: seq<T>, keys: set<T>, junk: set<T>, p: nat, y: T)
    requires p < |b| && b[p] !in keys && y != b[p]
    ensures !IsLongestOfAll([y, b[p]], b, Window(0, 2, p, p + 1),
                            FindLongest([y, b[p]], b, keys, junk, Window(0, 2, p, p + 1)))
  {
    var a, w := [y, b[p]], Window(0, 2, p, p + 1);
    var m := Best(a, b, keys, w);
    BestMeaning(a, b, keys, w);
    assert m.size == 0;
    assert m == Match(0, p, 0);
    assert FindLongest(a, b, keys, junk, w) == m;
    assert a[1..2] == b[p..p + 1];
    assert IsBlock(a, b, w, Match(1, p, 1));
  }

  /**
   For a given `b`, every search finds the longest block exactly when no element of `b` is junk or popular.
   The documentation promises it whenever no junk is declared; popular elements break it as well.
   */
  lemma AlwaysLongestIff<T(!new)>(b: seq<T>, keys: set<T>, junk: set<T>, x: T, y: T)
    requires x != y
    ensures (forall a: seq<T>, w: Window | Fits(w, a, b) :: IsLongestOfAll(a, b, w, FindLongest(a, b, keys, junk, w)))
            <==> (forall j | 0 <= j < |b| :: b[j] in keys)
  {
    hide IsLongestOfAll, FindLongest;
    if forall j | 0 <= j < |b| :: b[j] in keys {
      forall a: seq<T>, w: Window | Fits(w, a, b)
        ensures IsLongestOfAll(a, b, w, FindLongest(a, b, keys, junk, w))
      {
        LongestOfAll(a, b, keys, junk, w);
      }
    } else {
      var p :| 0 <= p < |b| && b[p] !in keys;
      var other := if b[p] == x then y else x;
      UnkeyedIsMissed(b, keys, junk, p, other);
      assert Fits(Window(0, 2, p, p + 1), [other, b[p]], b);
    }
  }
}
