/**
 `itertools.py`, `combinations`: all increasing index tuples, by successors computed in place.
 */
module Combinations {
  import opened LexOrder

  /** A strictly increasing choice of `r` indices below `n`. */
  predicate IsCombination(q: seq<nat>, n: nat, r: nat) {
    |q| == r && (forall k | 0 <= k < r :: q[k] < n) && forall k, l | 0 <= k < l < r :: q[k] < q[l]
  }

  lemma {:induction false} UpperLimit(q: seq<nat>, n: nat, r: nat, k: nat)
    requires IsCombination(q, n, r) && k < r
    ensures q[k] <= k + n - r
    decreases r - k
  {
    if k < r - 1 {
      UpperLimit(q, n, r, k + 1);
    }
  }

  lemma {:induction false} LowerLimit(q: seq<nat>, n: nat, r: nat, i: nat, k: nat)
    requires IsCombination(q, n, r) && i <= k < r
    ensures q[k] >= q[i] + k - i
  {
    if k > i {
      LowerLimit(q, n, r, i, k - 1);
    }
  }

  /** Everything up to `p` is listed. */
  ghost predicate CompleteUpTo(order: seq<seq<nat>>, p: seq<nat>, n: nat, r: nat) {
    forall q: seq<nat> | IsCombination(q, n, r) :: Listed(order, q) || Lex(p, q)
  }

  /** The list of all combinations, in dictionary order. */
  ghost predicate AllCombinations(order: seq<seq<nat>>, n: nat, r: nat) {
    && Increasing(order) && (forall k | 0 <= k < |order| :: IsCombination(order[k], n, r))
    && forall q: seq<nat> | IsCombination(q, n, r) :: Listed(order, q)
  }

  /** The tuple after `p`, when place `i` is the last one that can still grow. */
  function Next(p: seq<nat>, i: nat): (r: seq<nat>)
    requires i < |p|
    ensures |r| == |p| && (forall k | 0 <= k < i :: r[k] == p[k]) && forall k | i <= k < |p| :: r[k] == p[i] + 1 + k - i
  {
    seq(|p|, k requires 0 <= k < |p| => if k < i then p[k] else p[i] + 1 + k - i)
  }

  lemma NextIsCombination(p: seq<nat>, n: nat, r: nat, i: nat)
    requires IsCombination(p, n, r) && i < r <= n && p[i] < i + n - r
    ensures IsCombination(Next(p, i), n, r) && LexAt(p, Next(p, i), i)
  {
    assert p[..i] == Next(p, i)[..i];
  }

  /** Nothing lies between a combination and the next one. */
  lemma NextIsNext(order: seq<seq<nat>>, p: seq<nat>, n: nat, r: nat, i: nat)
    requires IsCombination(p, n, r) && i < r <= n && p[i] < i + n - r
    requires forall k | i < k < r :: p[k] == k + n - r
    requires CompleteUpTo(order, p, n, r)
    ensures CompleteUpTo(order + [Next(p, i)], Next(p, i), n, r)
  {
    var p' := Next(p, i);
    NextIsCombination(p, n, r, i);
    forall q: seq<nat> | IsCombination(q, n, r)
      ensures Listed(order + [p'], q) || Lex(p', q)
    {
      ListedSnoc(order, p', q);
      if Lex(p, q) {
        forall d | i < d < r ensures q[d] <= p[d] {
          UpperLimit(q, n, r, d);
        }
        forall d | i < d < r && q[..d] == p'[..d] ensures q[d] >= p'[d] {
          assert q[i] == q[..d][i] == p'[..d][i] == p'[i];
          LowerLimit(q, n, r, i, d);
        }
        NothingBetween(p, p', q, i);
      }
    }
  }

  lemma FirstIsFirst(p: seq<nat>, n: nat, r: nat)
    requires |p| == r <= n && forall k | 0 <= k < r :: p[k] == k
    ensures IsCombination(p, n, r) && CompleteUpTo([p], p, n, r)
  {
    forall q: seq<nat> | IsCombination(q, n, r) ensures Listed([p], q) || Lex(p, q) {
      if q == p {
        assert [p][0] == q;
      } else {
        var d := FirstDifference(p, q);
        LowerLimit(q, n, r, 0, d);
        assert LexAt(p, q, d);
      }
    }
  }

  lemma LastIsLast(order: seq<seq<nat>>, p: seq<nat>, n: nat, r: nat)
    requires IsCombination(p, n, r) && r <= n && (forall k | 0 <= k < r :: p[k] == k + n - r)
             && CompleteUpTo(order, p, n, r)
    ensures forall q: seq<nat> | IsCombination(q, n, r) :: Listed(order, q)
  {
    forall q: seq<nat> | IsCombination(q, n, r) ensures Listed(order, q) {
      if d: nat :| LexAt(p, q, d) {
        UpperLimit(q, n, r, d);
      }
    }
  }

  lemma TooMany(q: seq<nat>, n: nat, r: nat)
    requires IsCombination(q, n, r)
    ensures r <= n
  {
    if r > 0 {
      UpperLimit(q, n, r, 0);
    }
  }

  lemma NoneExist(n: nat, r: nat)
    requires r > n
    ensures forall q: seq<nat> :: !IsCombination(q, n, r)
  {
    forall q: seq<nat> ensures !IsCombination(q, n, r) {
      if IsCombination(q, n, r) {
        TooMany(q, n, r);
      }
    }
  }

  /** The combinations up to and including `p` have been listed, in order. */
  ghost predicate Underway(order: seq<seq<nat>>, p: seq<nat>, n: nat, r: nat) {
    && order != [] && order[|order| - 1] == p && IsCombination(p, n, r) && r <= n && Increasing(order)
    && (forall k | 0 <= k < |order| :: IsCombination(order[k], n, r)) && CompleteUpTo(order, p, n, r)
  }

  lemma Begin(p: seq<nat>, n: nat, r: nat)
    requires |p| == r <= n && forall k | 0 <= k < r :: p[k] == k
    ensures Underway([p], p, n, r)
  {
    FirstIsFirst(p, n, r);
  }

  lemma GoOn(order: seq<seq<nat>>, p: seq<nat>, n: nat, r: nat, i: nat)
    requires Underway(order, p, n, r) && i < r && p[i] < i + n - r && forall k | i < k < r :: p[k] == k + n - r
    ensures Underway(order + [Next(p, i)], Next(p, i), n, r)
    ensures Limit(n, r) - Code(Next(p, i), n) < Limit(n, r) - Code(p, n) && Code(p, n) < Limit(n, r)
  {
    hide CompleteUpTo, Increasing, Next;
    NextIsCombination(p, n, r, i);
    NextIsNext(order, p, n, r, i);
    assert Lex(p, Next(p, i));
    OneMore(order, p, Next(p, i));
    CodeGrows(p, Next(p, i), n, i);
    CodeBound(p, n);
  }

  lemma End(order: seq<seq<nat>>, p: seq<nat>, n: nat, r: nat)
    requires Underway(order, p, n, r) && forall k | 0 <= k < r :: p[k] == k + n - r
    ensures AllCombinations(order, n, r)
  {
    LastIsLast(order, p, n, r);
  }

  lemma UnderwayBelow(order: seq<seq<nat>>, p: seq<nat>, n: nat, r: nat)
    requires Underway(order, p, n, r)
    ensures IsCombination(p, n, r) && |p| == r <= n && forall k | 0 <= k < r :: p[k] < n
  {
  }

  /** `out` holds one selection from the pool for every combination of places, in dictionary order of the places. */
  ghost predicate SelectsAll<T>(pool: seq<T>, r: nat, out: seq<seq<T>>) {
    exists order :: AllCombinations(order, |pool|, r) && AllPicked(pool, order, out)
  }

  /** Every combination once, in dictionary order. A negative `r` gives what `r == 0` gives. */
  method Combinations<T(==)>(pool: seq<T>, r: int) returns (out: seq<seq<T>>)
    ensures SelectsAll(pool, if r < 0 then 0 else r, out)
  {
    var n := |pool|;
    if r > n {
      NoneExist(n, r);
      assert AllCombinations([], n, r) && AllPicked(pool, [], []);
      return [];
    }
    var size: nat := if r < 0 then 0 else r;
    var indices: seq<nat> := seq(size, k => k);
    Begin(indices, n, size);
    out := Choose(pool, indices, size);
  }

  /** The loop of the generator, for a size that fits. */
  method Choose<T(==)>(pool: seq<T>, indices0: seq<nat>, r: nat) returns (out: seq<seq<T>>)
    requires Underway([indices0], indices0, |pool|, r)
    ensures SelectsAll(pool, r, out)
  {
    var n := |pool|;
    var indices := indices0;
    UnderwayBelow([indices], indices, n, r);
    hide AllPicked, Underway, AllCombinations, IsCombination, Limit, Code, Next;
    ghost var order := [indices];
    out := [Pick(pool, indices)];
    FirstPicked(pool, indices);
    while true
      invariant Underway(order, indices, n, r) && AllPicked(pool, order, out)
      decreases Limit(n, r) - Code(indices, n)
    {
      UnderwayBelow(order, indices, n, r);
      var found, i := LastThatCanGrow(indices, n, r);
      if !found {
        End(order, indices, n, r);
        return;
      }
      GoOn(order, indices, n, r, i);
      indices := Grow(indices, i);
      UnderwayBelow(order + [indices], indices, n, r);
      PickedSnoc(pool, order, out, indices);
      order := order + [indices];
      out := out + [Pick(pool, indices)];
    }
  }

  /** Searches from the right for a place that is not at its limit yet. */
  method LastThatCanGrow(indices: seq<nat>, n: nat, r: nat) returns (found: bool, i: nat)
    requires IsCombination(indices, n, r) && r <= n
    ensures found ==> i < r && indices[i] < i + n - r && forall k | i < k < r :: indices[k] == k + n - r
    ensures !found ==> forall k | 0 <= k < r :: indices[k] == k + n - r
  {
    i := r;
    while i > 0
      invariant i <= r && forall k | i <= k < r :: indices[k] == k + n - r
    {
      i := i - 1;
      if indices[i] != i + n - r {
        UpperLimit(indices, n, r, i);
        return true, i;
      }
    }
    return false, 0;
  }

  /** Increments place `i` and lets the later ones follow it. */
  method Grow(indices0: seq<nat>, i: nat) returns (indices: seq<nat>)
    requires i < |indices0|
    ensures indices == Next(indices0, i)
  {
    indices := indices0[i := indices0[i] + 1];
    var j := i + 1;
    while j < |indices|
      invariant i < j <= |indices| == |indices0|
      invariant forall k | 0 <= k < |indices| ::
        indices[k] == if k < i || k >= j then indices0[k] else indices0[i] + 1 + k - i
    {
      indices := indices[j := indices[j - 1] + 1];
      j := j + 1;
    }
  }
}
