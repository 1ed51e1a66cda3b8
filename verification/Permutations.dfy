/**
 `itertools.py`, `permutations`: all arrangements of index positions, by rotations and swaps in place.
 */
module Permutations {
  import opened LexOrder
  import opened Sequences

  /** `r` different indices below `n`. */
  predicate IsArrangement(q: seq<nat>, n: nat, r: nat) {
    |q| == r && (forall k | 0 <= k < r :: q[k] < n) && Distinct(q)
  }

  predicate Holds(s: seq<nat>, v: nat) {
    exists k | 0 <= k < |s| :: s[k] == v
  }

  /** All indices below `n`, each once. */
  predicate IsPermutation(s: seq<nat>, n: nat) {
    |s| == n && (forall k | 0 <= k < n :: s[k] < n) && Distinct(s) && forall v: nat | v < n :: Holds(s, v)
  }

  predicate Ascending(s: seq<nat>) {
    forall k, l | 0 <= k < l < |s| :: s[k] < s[l]
  }

  /** How many elements are smaller than `x`. */
  function Below(s: seq<nat>, x: nat): (c: nat)
    ensures c <= |s|
  {
    if s == [] then 0 else (if s[|s| - 1] < x then 1 else 0) + Below(s[..|s| - 1], x)
  }

  lemma {:induction false} BelowConcat(s: seq<nat>, t: seq<nat>, x: nat)
    ensures Below(s + t, x) == Below(s, x) + Below(t, x)
  {
    if t == [] {
      assert s + t == s;
    } else {
      assert (s + t)[..|s| + |t| - 1] == s + t[..|t| - 1];
      BelowConcat(s, t[..|t| - 1], x);
    }
  }

  lemma {:induction false} BelowNone(s: seq<nat>, x: nat)
    ensures Below(s, x) == 0 <==> forall k | 0 <= k < |s| :: s[k] >= x
  {
    if s != [] {
      BelowNone(s[..|s| - 1], x);
    }
  }

  lemma {:induction false} BelowAll(s: seq<nat>, x: nat)
    ensures Below(s, x) == |s| <==> forall k | 0 <= k < |s| :: s[k] < x
  {
    if s != [] {
      BelowAll(s[..|s| - 1], x);
    }
  }

  /** In an ascending sequence the smaller elements come first. */
  lemma {:induction false} BelowAscending(s: seq<nat>, x: nat)
    requires Ascending(s)
    ensures forall k | 0 <= k < |s| :: s[k] < x <==> k < Below(s, x)
  {
    if s != [] {
      var t, y := s[..|s| - 1], s[|s| - 1];
      BelowAscending(t, x);
      BelowAll(t, x);
      if y < x {
        assert forall k | 0 <= k < |t| :: t[k] == s[k] < y;
      }
      forall k | 0 <= k < |s| ensures s[k] < x <==> k < Below(s, x) {
        if k < |t| {
          assert t[k] == s[k];
        }
      }
    }
  }

  // ---------- the state between two results ----------

  /**
   The indices not in the first `r` places are ascending, and each counter tells how many of the later indices are
   still to come at its place: those larger than the one that is there.
   */
  predicate InCycle(indices: seq<nat>, cycles: seq<nat>, n: nat, r: nat) {
    && IsPermutation(indices, n) && |cycles| == r <= n && Ascending(indices[r..])
    && forall i | 0 <= i < r :: 1 <= cycles[i] <= n - i && Below(indices[i + 1..], indices[i]) == n - i - cycles[i]
  }

  /**
   In the middle of a round: the counters from `i` on have run out and were reset, and the indices from `i` on are
   ascending again; before `i` nothing has changed.
   */
  predicate Unwound(indices0: seq<nat>, cycles0: seq<nat>, indices: seq<nat>, cycles: seq<nat>, n: nat, r: nat,
                    i: nat) {
    && IsPermutation(indices, n) && |cycles| == |cycles0| == r <= n && |indices0| == n && i <= r
    && indices[..i] == indices0[..i] && cycles[..i] == cycles0[..i]
    && (forall k | i <= k < r :: cycles0[k] == 1 && cycles[k] == n - k)
    && Ascending(indices[i..])
    && forall k | 0 <= k < i :: Below(indices[k + 1..], indices[k]) == n - k - cycles[k]
  }

  /** One step of the rotation `indices[i:] = indices[i + 1:] + indices[i:i + 1]`. */
  function Rotated(s: seq<nat>, i: nat): (r: seq<nat>)
    requires i < |s|
    ensures |r| == |s|
  {
    s[..i] + s[i + 1..] + [s[i]]
  }

  lemma RotatedAt(s: seq<nat>, i: nat, k: nat)
    requires i < |s| && k < |s|
    ensures Rotated(s, i)[k] == if k < i then s[k] else if k < |s| - 1 then s[k + 1] else s[i]
  {
  }

  lemma RotatedIsPermutation(s: seq<nat>, n: nat, i: nat)
    requires IsPermutation(s, n) && i < n
    ensures IsPermutation(Rotated(s, i), n)
  {
    var t := Rotated(s, i);
    forall k | 0 <= k < n ensures t[k] < n {
      RotatedAt(s, i, k);
    }
    forall k, l | 0 <= k < l < n ensures t[k] != t[l] {
      RotatedAt(s, i, k);
      RotatedAt(s, i, l);
    }
    forall v: nat | v < n ensures Holds(t, v) {
      assert Holds(s, v);
      var k :| 0 <= k < n && s[k] == v;
      var l := if k < i then k else if k > i then k - 1 else n - 1;
      RotatedAt(s, i, l);
      assert t[l] == v;
    }
  }

  function Swapped(s: seq<nat>, i: nat, j: nat): (r: seq<nat>)
    requires i < |s| && j < |s|
    ensures |r| == |s|
  {
    s[i := s[j]][j := s[i]]
  }

  lemma SwappedIsPermutation(s: seq<nat>, n: nat, i: nat, j: nat)
    requires IsPermutation(s, n) && i < n && j < n
    ensures IsPermutation(Swapped(s, i, j), n)
  {
    var t := Swapped(s, i, j);
    forall v: nat | v < n ensures Holds(t, v) {
      assert Holds(s, v);
      var k :| 0 <= k < n && s[k] == v;
      var l := if k == i then j else if k == j then i else k;
      assert t[l] == v;
    }
  }

  lemma RotatedBelow(s: seq<nat>, i: nat, k: nat)
    requires k < i < |s|
    ensures Rotated(s, i)[k] == s[k] && Below(Rotated(s, i)[k + 1..], s[k]) == Below(s[k + 1..], s[k])
  {
    var x := s[k];
    var u, v, e := s[k + 1..i], s[i + 1..], [s[i]];
    RotatedAt(s, i, k);
    assert Rotated(s, i)[k + 1..] == u + v + e;
    assert s[k + 1..] == u + e + v;
    BelowConcat(u + v, e, x);
    BelowConcat(u, v, x);
    BelowConcat(u + e, v, x);
    BelowConcat(u, e, x);
  }

  lemma SwappedBelow(s: seq<nat>, i: nat, j: nat, k: nat)
    requires k < i < j < |s|
    ensures Swapped(s, i, j)[k] == s[k] && Below(Swapped(s, i, j)[k + 1..], s[k]) == Below(s[k + 1..], s[k])
  {
    var x := s[k];
    var u, a, v, b, w := s[k + 1..i], [s[i]], s[i + 1..j], [s[j]], s[j + 1..];
    assert Swapped(s, i, j)[k + 1..] == u + b + v + a + w;
    assert s[k + 1..] == u + a + v + b + w;
    FiveParts(u, b, v, a, w, x);
    FiveParts(u, a, v, b, w, x);
  }

  lemma FiveParts(u: seq<nat>, a: seq<nat>, v: seq<nat>, b: seq<nat>, w: seq<nat>, x: nat)
    ensures Below(u + a + v + b + w, x) == Below(u, x) + Below(a, x) + Below(v, x) + Below(b, x) + Below(w, x)
  {
    BelowConcat(u + a + v + b, w, x);
    BelowConcat(u + a + v, b, x);
    BelowConcat(u + a, v, x);
    BelowConcat(u, a, x);
  }

  /** The largest of the rest goes behind the others, which are ascending. */
  lemma RotatedTail(indices: seq<nat>, n: nat, i: nat)
    requires i < n == |indices| && Ascending(indices[i + 1..]) && Below(indices[i + 1..], indices[i]) == n - i - 1
    ensures Ascending(Rotated(indices, i)[i..])
  {
    var tail, x := indices[i + 1..], indices[i];
    BelowAll(tail, x);
    assert Rotated(indices, i)[i..] == tail + [x];
  }

  lemma UnwoundPrefix(s: seq<nat>, s0: seq<nat>, t: seq<nat>, i: nat)
    requires i < |s| && i < |s0| && s[..i + 1] == s0[..i + 1] && i <= |t| && t[..i] == s[..i]
    ensures t[..i] == s0[..i] && s[i] == s0[i]
  {
    assert s[..i + 1][..i] == s[..i] && s0[..i + 1][..i] == s0[..i];
    assert s[i] == s[..i + 1][i] == s0[..i + 1][i] == s0[i];
  }

  /** A counter that runs out: its place holds the largest of the rest, which goes behind the others. */
  lemma Unwind(indices0: seq<nat>, cycles0: seq<nat>, indices: seq<nat>, cycles: seq<nat>, n: nat, r: nat, i: nat)
    requires i + 1 <= r && Unwound(indices0, cycles0, indices, cycles, n, r, i + 1) && cycles[i] == 1
    ensures Unwound(indices0, cycles0, Rotated(indices, i), cycles[i := n - i], n, r, i)
  {
    hide Below, Ascending, Distinct, Holds;
    var t := Rotated(indices, i);
    RotatedIsPermutation(indices, n, i);
    RotatedTail(indices, n, i);
    forall k | 0 <= k < i
      ensures t[k] == indices[k] && Below(t[k + 1..], t[k]) == n - k - cycles[i := n - i][k]
    {
      RotatedBelow(indices, i, k);
    }
    assert t[..i] == indices[..i];
    UnwoundPrefix(indices, indices0, t, i);
    assert cycles[i := n - i][..i] == cycles[..i];
    UnwoundPrefix(cycles, cycles0, cycles[i := n - i], i);
  }

  // ---------- the next arrangement ----------

  lemma TailLayout(indices: seq<nat>, n: nat, i: nat, c: nat)
    requires IsPermutation(indices, n) && i < n && Ascending(indices[i + 1..]) && 1 < c <= n - i
    requires Below(indices[i + 1..], indices[i]) == n - i - c
    ensures forall k | i < k < n + 1 - c :: indices[k] < indices[i]
    ensures forall k | n + 1 - c <= k < n :: indices[k] > indices[i]
  {
    var tail, x := indices[i + 1..], indices[i];
    BelowAscending(tail, x);
    forall k | i < k < n ensures indices[k] < x <==> k < n + 1 - c {
      assert tail[k - i - 1] == indices[k];
    }
  }

  lemma SwappedTail(indices: seq<nat>, n: nat, i: nat, c: nat)
    requires IsPermutation(indices, n) && i < n && Ascending(indices[i + 1..]) && 1 < c <= n - i
    requires Below(indices[i + 1..], indices[i]) == n - i - c
    ensures var t := Swapped(indices, i, n + 1 - c);
            && t[i] == indices[n + 1 - c] > indices[i] && Ascending(t[i + 1..])
            && Below(t[i + 1..], t[i]) == n - i - (c - 1)
  {
    TailLayout(indices, n, i, c);
    var j := n + 1 - c;
    var t := Swapped(indices, i, j);
    var tail, tail' := indices[i + 1..], t[i + 1..];
    forall k, l | 0 <= k < l < n - i - 1 ensures tail'[k] < tail'[l] {
      assert tail[k] == indices[i + 1 + k] && tail[l] == indices[i + 1 + l];
      assert tail'[k] == t[i + 1 + k] && tail'[l] == t[i + 1 + l];
    }
    BelowAscending(tail', t[i]);
    SwappedRank(indices, n, i, j, tail', Below(tail', t[i]));
  }

  /** The smaller elements of the new tail are those up to the place of the swap. */
  lemma SwappedRank(indices: seq<nat>, n: nat, i: nat, j: nat, tail': seq<nat>, b: nat)
    requires |indices| == n && i < j < n && Ascending(indices[i + 1..]) && indices[j] > indices[i]
    requires tail' == Swapped(indices, i, j)[i + 1..] && b <= |tail'|
    requires forall k | 0 <= k < |tail'| :: tail'[k] < indices[j] <==> k < b
    ensures b == j - i
  {
    var tail := indices[i + 1..];
    assert tail'[j - i - 1] == indices[i] < indices[j];
    if j < n - 1 {
      assert tail'[j - i] == indices[j + 1] == tail[j - i];
      assert tail[j - i - 1] == indices[j];
    }
  }

  /** Behind an element of an ascending rest nothing is smaller. */
  lemma NoneBelowLater(t: seq<nat>, i: nat, k: nat)
    requires i < k < |t| && Ascending(t[i + 1..])
    ensures Below(t[k + 1..], t[k]) == 0
  {
    var rest, later, x := t[i + 1..], t[k + 1..], t[k];
    assert rest[k - i - 1] == x;
    assert later == rest[k - i..];
    BelowNone(later, x);
  }

  lemma AscendingSuffix(t: seq<nat>, i: nat, r: nat)
    requires i < r <= |t| && Ascending(t[i + 1..])
    ensures Ascending(t[r..])
  {
    assert t[r..] == t[i + 1..][r - i - 1..];
  }

  /** The counters before place `i` still tell the truth when larger places are only rearranged. */
  lemma SwapKeepsLevel(indices: seq<nat>, cycles0: seq<nat>, cycles: seq<nat>, n: nat, i: nat, j: nat, k: nat)
    requires k < i < j < n && |indices| == n && i < |cycles| == |cycles0| && cycles[..i + 1] == cycles0[..i + 1]
    requires Below(indices[k + 1..], indices[k]) == n - k - cycles[k]
    ensures cycles[k] == cycles0[k]
    ensures var t := Swapped(indices, i, j); Below(t[k + 1..], t[k]) == n - k - cycles[k]
  {
    assert cycles[k] == cycles[..i + 1][k] == cycles0[..i + 1][k] == cycles0[k];
    SwappedBelow(indices, i, j, k);
  }

  lemma SwapKeepsEarlier(indices0: seq<nat>, cycles0: seq<nat>, indices: seq<nat>, cycles: seq<nat>, n: nat, r: nat,
                         i: nat, j: nat, k: nat)
    requires InCycle(indices0, cycles0, n, r) && k < i < r && i < j < n
    requires Unwound(indices0, cycles0, indices, cycles, n, r, i + 1)
    ensures var t := Swapped(indices, i, j); 1 <= cycles[k] <= n - k && Below(t[k + 1..], t[k]) == n - k - cycles[k]
  {
    hide Below, Swapped, Ascending, Distinct, Holds;
    SwapKeepsLevel(indices, cycles0, cycles, n, i, j, k);
  }

  lemma UnwoundFacts(indices0: seq<nat>, cycles0: seq<nat>, indices: seq<nat>, cycles: seq<nat>, n: nat, r: nat, i: nat)
    requires InCycle(indices0, cycles0, n, r) && i < r && Unwound(indices0, cycles0, indices, cycles, n, r, i + 1)
    ensures IsPermutation(indices, n) && |indices| == n && r <= n && Ascending(indices[i + 1..]) && |cycles| == r
    ensures cycles[i] == cycles0[i] && 1 <= cycles[i] <= n - i
            && Below(indices[i + 1..], indices[i]) == n - i - cycles[i]
    ensures forall k | i < k < r :: cycles[k] == n - k && cycles0[k] == 1
    ensures |indices0| == n && |cycles0| == r
    ensures indices[i] == indices0[i] && indices[..i] == indices0[..i]
  {
    hide Below, Ascending, Distinct;
    assert cycles[i] == cycles[..i + 1][i] == cycles0[..i + 1][i] == cycles0[i];
    assert indices[i] == indices[..i + 1][i] == indices0[..i + 1][i] == indices0[i];
    assert indices[..i] == indices[..i + 1][..i] == indices0[..i + 1][..i] == indices0[..i];
  }

  /** The other branch of a round: the next larger of the rest comes to place `i`. */
  lemma Advance(indices0: seq<nat>, cycles0: seq<nat>, indices: seq<nat>, cycles: seq<nat>, n: nat, r: nat, i: nat)
    requires InCycle(indices0, cycles0, n, r) && i < r && Unwound(indices0, cycles0, indices, cycles, n, r, i + 1)
    requires cycles[i] > 1
    ensures InCycle(Swapped(indices, i, n + 1 - cycles[i]), cycles[i := cycles[i] - 1], n, r)
  {
    hide Below, Swapped, IsPermutation, Ascending, Unwound;
    UnwoundFacts(indices0, cycles0, indices, cycles, n, r, i);
    var c := cycles[i];
    var j := n + 1 - c;
    var t, cycles' := Swapped(indices, i, j), cycles[i := c - 1];
    SwappedIsPermutation(indices, n, i, j);
    SwappedTail(indices, n, i, c);
    forall k | 0 <= k < r
      ensures 1 <= cycles'[k] <= n - k && Below(t[k + 1..], t[k]) == n - k - cycles'[k]
    {
      if k < i {
        SwapKeepsEarlier(indices0, cycles0, indices, cycles, n, r, i, j, k);
      } else if k > i {
        NoneBelowLater(t, i, k);
      }
    }
    AscendingSuffix(t, i, r);
  }

  /** An index not used before place `d` stands at that place or later. */
  lemma Available(indices: seq<nat>, n: nat, q: seq<nat>, r: nat, d: nat) returns (m: nat)
    requires IsPermutation(indices, n) && IsArrangement(q, n, r) && d < r <= n && q[..d] == indices[..d]
    ensures d <= m < n && indices[m] == q[d]
  {
    assert forall k | 0 <= k < d :: q[k] == q[..d][k] == indices[..d][k] == indices[k];
    assert Holds(indices, q[d]);
    m :| 0 <= m < n && indices[m] == q[d];
  }

  /** Where a counter stands at one, the place holds the largest index that is left. */
  lemma LargestLeft(indices: seq<nat>, cycles: seq<nat>, n: nat, r: nat, q: seq<nat>, d: nat)
    requires InCycle(indices, cycles, n, r) && IsArrangement(q, n, r) && d < r && cycles[d] == 1
    requires q[..d] == indices[..r][..d]
    ensures q[d] <= indices[d]
  {
    assert indices[..r][..d] == indices[..d];
    var m := Available(indices, n, q, r, d);
    BelowAll(indices[d + 1..], indices[d]);
    assert m > d ==> indices[d + 1..][m - d - 1] == indices[m];
  }

  /** In an ascending rest the first index is the smallest that is left. */
  lemma SmallestLeft(t: seq<nat>, n: nat, r: nat, i: nat, q: seq<nat>, d: nat)
    requires IsPermutation(t, n) && i < d < r <= n && Ascending(t[i + 1..]) && IsArrangement(q, n, r)
    requires q[..d] == t[..r][..d]
    ensures q[d] >= t[d]
  {
    assert t[..r][..d] == t[..d];
    var m := Available(t, n, q, r, d);
    assert m > d ==> t[i + 1..][d - i - 1] == t[d] < t[m] == t[i + 1..][m - i - 1];
  }

  lemma NextLargerLeft(indices: seq<nat>, n: nat, r: nat, i: nat, c: nat, q: seq<nat>)
    requires IsPermutation(indices, n) && i < r <= n && Ascending(indices[i + 1..]) && 1 < c <= n - i
    requires Below(indices[i + 1..], indices[i]) == n - i - c
    requires IsArrangement(q, n, r) && q[..i] == indices[..i] && q[i] > indices[i]
    ensures q[i] >= indices[n + 1 - c]
  {
    TailLayout(indices, n, i, c);
    var m := Available(indices, n, q, r, i);
    var j := n + 1 - c;
    assert m >= j;
    assert indices[i + 1..][m - i - 1] == indices[m] && indices[i + 1..][j - i - 1] == indices[j];
  }

  /** Everything up to `p` is listed. */
  ghost predicate CompleteUpTo(order: seq<seq<nat>>, p: seq<nat>, n: nat, r: nat) {
    forall q: seq<nat> | IsArrangement(q, n, r) :: Listed(order, q) || Lex(p, q)
  }

  /** The list of all arrangements, in dictionary order. */
  ghost predicate AllArrangements(order: seq<seq<nat>>, n: nat, r: nat) {
    && Increasing(order) && (forall k | 0 <= k < |order| :: IsArrangement(order[k], n, r))
    && forall q: seq<nat> | IsArrangement(q, n, r) :: Listed(order, q)
  }

  lemma PrefixIsArrangement(s: seq<nat>, n: nat, r: nat)
    requires IsPermutation(s, n) && r <= n
    ensures IsArrangement(s[..r], n, r)
  {
  }

  /** Nothing lies between an arrangement and the next one. */
  lemma NextIsNext(indices0: seq<nat>, cycles0: seq<nat>, indices: seq<nat>, cycles: seq<nat>, n: nat, r: nat, i: nat,
                   q: seq<nat>)
    requires InCycle(indices0, cycles0, n, r) && i < r && Unwound(indices0, cycles0, indices, cycles, n, r, i + 1)
    requires cycles[i] > 1 && IsArrangement(q, n, r)
    ensures var p, p' := indices0[..r], Swapped(indices, i, n + 1 - cycles[i])[..r];
            LexAt(p, p', i) && (Lex(p, q) ==> q == p' || Lex(p', q))
  {
    hide Unwound, InCycle, Below, Ascending, IsPermutation, Distinct, Lex;
    UnwoundFacts(indices0, cycles0, indices, cycles, n, r, i);
    var c := cycles[i];
    var t := Swapped(indices, i, n + 1 - c);
    SwappedTail(indices, n, i, c);
    SwappedIsPermutation(indices, n, i, n + 1 - c);
    var p, p' := indices0[..r], t[..r];
    assert p'[..i] == t[..i] == indices[..i] == p[..i];
    if Lex(p, q) {
      forall d | i < d < r && q[..d] == p[..d] ensures q[d] <= p[d] {
        LargestLeft(indices0, cycles0, n, r, q, d);
      }
      if q[..i] == p[..i] && q[i] > p[i] {
        NextLargerLeft(indices, n, r, i, c, q);
      }
      forall d | i < d < r && q[..d] == p'[..d] ensures q[d] >= p'[d] {
        SmallestLeft(t, n, r, i, q, d);
      }
      NothingBetween(p, p', q, i);
    }
  }

  // ---------- the generator ----------

  /** The arrangements up to and including the current one have been listed, in order. */
  ghost predicate Underway(order: seq<seq<nat>>, indices: seq<nat>, cycles: seq<nat>, n: nat, r: nat) {
    && InCycle(indices, cycles, n, r) && order != [] && order[|order| - 1] == indices[..r] && Increasing(order)
    && (forall k | 0 <= k < |order| :: IsArrangement(order[k], n, r)) && CompleteUpTo(order, indices[..r], n, r)
  }

  lemma Begin(indices: seq<nat>, cycles: seq<nat>, n: nat, r: nat)
    requires |indices| == n && (forall k | 0 <= k < n :: indices[k] == k)
    requires |cycles| == r <= n && (forall k | 0 <= k < r :: cycles[k] == n - k)
    ensures Underway([indices[..r]], indices, cycles, n, r)
  {
    forall v: nat | v < n ensures Holds(indices, v) {
      assert indices[v] == v;
    }
    forall i | 0 <= i < r ensures Below(indices[i + 1..], indices[i]) == n - i - cycles[i] {
      BelowNone(indices[i + 1..], indices[i]);
    }
    PrefixIsArrangement(indices, n, r);
    BeginComplete(indices, n, r);
  }

  lemma BeginComplete(indices: seq<nat>, n: nat, r: nat)
    requires IsPermutation(indices, n) && Ascending(indices) && r <= n
    ensures CompleteUpTo([indices[..r]], indices[..r], n, r)
  {
    var p := indices[..r];
    forall q: seq<nat> | IsArrangement(q, n, r) ensures Listed([p], q) || Lex(p, q) {
      if q == p {
        assert [p][0] == q;
      } else {
        var d := FirstDifference(p, q);
        assert p[..d] == indices[..d];
        var m := Available(indices, n, q, r, d);
        assert LexAt(p, q, d);
      }
    }
  }

  lemma GoOn(order: seq<seq<nat>>, indices0: seq<nat>, cycles0: seq<nat>, indices: seq<nat>, cycles: seq<nat>,
             n: nat, r: nat, i: nat)
    requires Underway(order, indices0, cycles0, n, r) && i < r
    requires Unwound(indices0, cycles0, indices, cycles, n, r, i + 1) && cycles[i] > 1
    ensures var t := Swapped(indices, i, n + 1 - cycles[i]);
            && Underway(order + [t[..r]], t, cycles[i := cycles[i] - 1], n, r)
            && Code(indices0[..r], n) < Code(t[..r], n) < Limit(n, r)
  {
    hide Unwound, InCycle, Swapped, Increasing, Lex, Code, Limit;
    UnwoundFacts(indices0, cycles0, indices, cycles, n, r, i);
    Advance(indices0, cycles0, indices, cycles, n, r, i);
    var t := Swapped(indices, i, n + 1 - cycles[i]);
    var p, p' := indices0[..r], t[..r];
    SwappedIsPermutation(indices, n, i, n + 1 - cycles[i]);
    PrefixIsArrangement(t, n, r);
    Follows(p, p', indices0, cycles0, indices, cycles, n, r, i);
    OneMore(order, p, p');
    CodeGrows(p, p', n, i);
    CodeBound(p', n);
    forall q: seq<nat> | IsArrangement(q, n, r) ensures Listed(order + [p'], q) || Lex(p', q) {
      ListedSnoc(order, p', q);
      NextIsNext(indices0, cycles0, indices, cycles, n, r, i, q);
    }
  }

  lemma Follows(p: seq<nat>, p': seq<nat>, indices0: seq<nat>, cycles0: seq<nat>, indices: seq<nat>, cycles: seq<nat>,
                n: nat, r: nat, i: nat)
    requires InCycle(indices0, cycles0, n, r) && i < r && Unwound(indices0, cycles0, indices, cycles, n, r, i + 1)
    requires cycles[i] > 1 && p == indices0[..r] && p' == Swapped(indices, i, n + 1 - cycles[i])[..r]
    ensures LexAt(p, p', i) && Lex(p, p') && |p| == |p'| == r && AllBelow(p, n) && AllBelow(p', n)
  {
    UnwoundFacts(indices0, cycles0, indices, cycles, n, r, i);
    SwappedIsPermutation(indices, n, i, n + 1 - cycles[i]);
    PrefixIsArrangement(indices0, n, r);
    NextIsNext(indices0, cycles0, indices, cycles, n, r, i, p);
  }

  /** When every counter has run out, the last arrangement has been listed. */
  lemma End(order: seq<seq<nat>>, indices0: seq<nat>, cycles0: seq<nat>, indices: seq<nat>, cycles: seq<nat>, n: nat,
            r: nat)
    requires Underway(order, indices0, cycles0, n, r) && Unwound(indices0, cycles0, indices, cycles, n, r, 0)
    ensures AllArrangements(order, n, r)
  {
    var p := indices0[..r];
    forall q: seq<nat> | IsArrangement(q, n, r) ensures Listed(order, q) {
      if d: nat :| LexAt(p, q, d) {
        LargestLeft(indices0, cycles0, n, r, q, d);
      }
    }
  }

  lemma NoneExist(n: nat, r: nat)
    requires r > n
    ensures forall q: seq<nat> :: !IsArrangement(q, n, r)
  {
    forall q: seq<nat> ensures !IsArrangement(q, n, r) {
      if IsArrangement(q, n, r) {
        TooMany(q, n);
      }
    }
  }

  /** Different indices below `n` are at most `n`. */
  lemma {:induction false} TooMany(q: seq<nat>, n: nat)
    requires Distinct(q) && AllBelow(q, n)
    ensures |q| <= n
  {
    if n == 0 {
      assert q == [];
    } else if Holds(q, n - 1) {
      var k :| 0 <= k < |q| && q[k] == n - 1;
      var t := q[..k] + q[k + 1..];
      forall m, l | 0 <= m < l < |t| ensures t[m] != t[l] {
        assert t[m] == q[if m < k then m else m + 1] && t[l] == q[if l < k then l else l + 1];
      }
      TooMany(t, n - 1);
    } else {
      TooMany(q, n - 1);
    }
  }

  /** `out` holds one selection from the pool for every arrangement of places, in dictionary order of the places. */
  ghost predicate SelectsAll<T>(pool: seq<T>, r: nat, out: seq<seq<T>>) {
    exists order :: AllArrangements(order, |pool|, r) && AllPicked(pool, order, out)
  }

  /**
   Every arrangement of `r` places once, in dictionary order; `r` defaults to the number of elements. A negative
   `r` is not refused: it gives a single result, without the last `-r` elements.
   */
  method Permutations<T(==)>(pool: seq<T>, size: Option<int>) returns (out: seq<seq<T>>)
    ensures var r := if size.None? then |pool| else size.value;
            if r >= 0 then SelectsAll(pool, r, out)
            else out == [pool[..if |pool| + r >= 0 then |pool| + r else 0]]
  {
    var n := |pool|;
    var r := if size.None? then n else size.value;
    if r > n {
      NoneExist(n, r);
      assert AllArrangements([], n, r) && AllPicked(pool, [], []);
      return [];
    }
    var indices: seq<nat> := seq(n, k => k);
    if r < 0 {
      var first := if n + r >= 0 then n + r else 0;
      out := [Pick(pool, indices[..first])];
      assert out[0] == pool[..first];
      return;
    }
    out := Arrange(pool, indices, r);
  }

  /** The loop of the generator, for a size that fits. */
  method Arrange<T(==)>(pool: seq<T>, indices0: seq<nat>, r: nat) returns (out: seq<seq<T>>)
    requires r <= |pool| == |indices0| && forall k | 0 <= k < |pool| :: indices0[k] == k
    ensures SelectsAll(pool, r, out)
  {
    var n := |pool|;
    var indices := indices0;
    var cycles: seq<nat> := seq(r, k requires 0 <= k < r => n - k);
    Begin(indices, cycles, n, r);
    hide Underway, AllPicked, AllArrangements, Code, Limit, Unwound, InCycle, Swapped, Rotated;
    ghost var order := [indices[..r]];
    out := [Pick(pool, indices[..r])];
    FirstPicked(pool, indices[..r]);
    while true
      invariant Underway(order, indices, cycles, n, r) && AllPicked(pool, order, out)
      decreases Limit(n, r) - Code(indices[..r], n)
    {
      ghost var before := indices[..r];
      var found;
      found, indices, cycles := NextRound(order, indices, cycles, n, r);
      if !found {
        return;
      }
      UnderwayBelow(order + [indices[..r]], indices, cycles, n, r);
      PickedSnoc(pool, order, out, indices[..r]);
      order := order + [indices[..r]];
      out := out + [Pick(pool, indices[..r])];
    }
  }

  lemma UnderwayBelow(order: seq<seq<nat>>, indices: seq<nat>, cycles: seq<nat>, n: nat, r: nat)
    requires Underway(order, indices, cycles, n, r)
    ensures |indices| == n >= r == |cycles| && forall k | 0 <= k < n :: indices[k] < n
  {
  }

  lemma StartRound(indices: seq<nat>, cycles: seq<nat>, n: nat, r: nat)
    requires InCycle(indices, cycles, n, r)
    ensures Unwound(indices, cycles, indices, cycles, n, r, r)
  {
  }

  lemma CounterRange(indices0: seq<nat>, cycles0: seq<nat>, indices: seq<nat>, cycles: seq<nat>, n: nat, r: nat, i: nat)
    requires InCycle(indices0, cycles0, n, r) && i < r && Unwound(indices0, cycles0, indices, cycles, n, r, i + 1)
    ensures i < |cycles| && 1 <= cycles[i] <= n - i
  {
    hide InCycle, Unwound;
    UnwoundFacts(indices0, cycles0, indices, cycles, n, r, i);
  }

  /** The inner loop: from the right, rotates where a counter runs out, until one does not. */
  method Countdown(indices0: seq<nat>, cycles0: seq<nat>, n: nat, r: nat)
    returns (found: bool, i: nat, indices: seq<nat>, cycles: seq<nat>)
    requires InCycle(indices0, cycles0, n, r) && |indices0| == n && |cycles0| == r
    ensures |indices| == n >= r == |cycles|
    ensures found ==> i < r && 1 < cycles[i] <= n - i && Unwound(indices0, cycles0, indices, cycles, n, r, i + 1)
    ensures !found ==> Unwound(indices0, cycles0, indices, cycles, n, r, 0)
  {
    found, indices, cycles := false, indices0, cycles0;
    StartRound(indices, cycles, n, r);
    hide Unwound, InCycle;
    i := r;
    while i > 0
      invariant i <= r <= n == |indices| && |cycles| == r
      invariant Unwound(indices0, cycles0, indices, cycles, n, r, i)
    {
      i := i - 1;
      CounterRange(indices0, cycles0, indices, cycles, n, r, i);
      if cycles[i] - 1 != 0 {
        return true, i, indices, cycles;
      }
      Unwind(indices0, cycles0, indices, cycles, n, r, i);
      indices := Rotated(indices, i);
      cycles := cycles[i := n - i];
    }
  }

  /** One round of the generator: the indices of the next arrangement, unless there is none. */
  method NextRound(ghost order: seq<seq<nat>>, indices0: seq<nat>, cycles0: seq<nat>, n: nat, r: nat)
    returns (found: bool, indices: seq<nat>, cycles: seq<nat>)
    requires Underway(order, indices0, cycles0, n, r)
    ensures |indices| == n >= r
    ensures found ==> Underway(order + [indices[..r]], indices, cycles, n, r)
                      && Code(indices0[..r], n) < Code(indices[..r], n) < Limit(n, r)
    ensures !found ==> AllArrangements(order, n, r)
  {
    UnderwayBelow(order, indices0, cycles0, n, r);
    assert InCycle(indices0, cycles0, n, r);
    hide Code, Limit, Unwound, AllArrangements, Swapped, Underway, InCycle;
    var i;
    found, i, indices, cycles := Countdown(indices0, cycles0, n, r);
    if !found {
      End(order, indices0, cycles0, indices, cycles, n, r);
      return;
    }
    // With the counter at j after its decrement, the partner is the j-th index from the right.
    GoOn(order, indices0, cycles0, indices, cycles, n, r, i);
    indices, cycles := Swapped(indices, i, n + 1 - cycles[i]), cycles[i := cycles[i] - 1];
  }
}
