/**
 The dictionary order on tuples of indices, and what makes one tuple the next one after another.
 */
module LexOrder {

  predicate LexAt(p: seq<nat>, q: seq<nat>, d: nat) {
    d < |p| && d < |q| && p[..d] == q[..d] && p[d] < q[d]
  }

  /** `p` comes before `q`. */
  ghost predicate Lex(p: seq<nat>, q: seq<nat>) {
    exists d: nat :: LexAt(p, q, d)
  }

  lemma LexTransitive(p: seq<nat>, q: seq<nat>, s: seq<nat>)
    requires Lex(p, q) && Lex(q, s)
    ensures Lex(p, s)
  {
    var d: nat :| LexAt(p, q, d);
    var e: nat :| LexAt(q, s, e);
    var m := if d <= e then d else e;
    assert p[..m] == p[..d][..m] == q[..d][..m] == q[..e][..m] == s[..e][..m] == s[..m];
    if d < e {
      assert q[d] == q[..e][d] == s[..e][d] == s[d];
    } else if e < d {
      assert p[e] == p[..d][e] == q[..d][e] == q[e];
    }
    assert LexAt(p, s, m);
  }

  lemma LexIrreflexive(p: seq<nat>)
    ensures !Lex(p, p)
  {
  }

  /** The first place where two tuples differ. */
  lemma FirstDifference(p: seq<nat>, q: seq<nat>) returns (d: nat)
    requires |p| == |q| && p != q
    ensures d < |p| && p[..d] == q[..d] && p[d] != q[d]
  {
    var k :| 0 <= k < |p| && p[k] != q[k];
    d := 0;
    while p[d] == q[d]
      invariant 0 <= d <= k && p[..d] == q[..d]
      decreases k - d
    {
      assert p[..d + 1] == p[..d] + [p[d]] && q[..d + 1] == q[..d] + [q[d]];
      d := d + 1;
    }
  }

  /**
   `p'` comes next after `p`, as far as `q` is concerned: they part at place `i`, where `p'` takes the next larger
   choice; after it `p` had the largest choices, and `p'` has the smallest ones.
   */
  lemma NothingBetween(p: seq<nat>, p': seq<nat>, q: seq<nat>, i: nat)
    requires |p| == |p'| == |q| && LexAt(p, p', i) && Lex(p, q)
    requires forall d | i < d < |p| && q[..d] == p[..d] :: q[d] <= p[d]
    requires q[..i] == p[..i] && q[i] > p[i] ==> q[i] >= p'[i]
    requires forall d | i < d < |p| && q[..d] == p'[..d] :: q[d] >= p'[d]
    ensures q == p' || Lex(p', q)
  {
    var d: nat :| LexAt(p, q, d);
    assert d <= i;
    if q != p' {
      if d < i {
        assert p'[..d] == p'[..i][..d] == p[..i][..d] == p[..d];
        assert p[d] == p[..i][d] == p'[..i][d] == p'[d];
        assert LexAt(p', q, d);
      } else {
        var e := FirstDifference(p', q);
        NotEarlier(p, p', q, i, e);
        assert LexAt(p', q, e);
      }
    }
  }

  lemma NotEarlier(p: seq<nat>, p': seq<nat>, q: seq<nat>, i: nat, e: nat)
    requires |p| == |p'| == |q| && LexAt(p, p', i) && LexAt(p, q, i) && e < |p|
    requires p'[..e] == q[..e] && p'[e] != q[e] && q[i] >= p'[i]
    requires forall d | i < d < |p| && q[..d] == p'[..d] :: q[d] >= p'[d]
    ensures p'[e] < q[e]
  {
    assert forall k | 0 <= k < i :: p'[k] == p'[..i][k] == p[..i][k] == q[..i][k] == q[k];
  }

  lemma OneMore(s: seq<seq<nat>>, p: seq<nat>, p': seq<nat>)
    requires Increasing(s) && s != [] && s[|s| - 1] == p && Lex(p, p')
    ensures Increasing(s + [p'])
  {
    var t := s + [p'];
    forall k, l | 0 <= k < l < |t| ensures Lex(t[k], t[l]) {
      if l == |s| && k < |s| - 1 {
        LexTransitive(s[k], p, p');
      }
    }
  }

  ghost predicate Increasing(s: seq<seq<nat>>) {
    forall k, l | 0 <= k < l < |s| :: Lex(s[k], s[l])
  }

  predicate Listed(s: seq<seq<nat>>, q: seq<nat>) {
    exists k | 0 <= k < |s| :: s[k] == q
  }

  lemma ListedSnoc(s: seq<seq<nat>>, p: seq<nat>, q: seq<nat>)
    ensures Listed(s + [p], q) <==> Listed(s, q) || q == p
  {
    var t := s + [p];
    if k :| 0 <= k < |s| && s[k] == q {
      assert t[k] == q;
    }
    assert t[|s|] == p;
  }

  /** A listed tuple is listed once. */
  lemma ListedOnce(s: seq<seq<nat>>, k: nat, l: nat)
    requires Increasing(s) && k < l < |s|
    ensures s[k] != s[l]
  {
    LexIrreflexive(s[l]);
  }

  function Pick<T>(pool: seq<T>, p: seq<nat>): (r: seq<T>)
    requires forall k | 0 <= k < |p| :: p[k] < |pool|
    ensures |r| == |p| && forall k | 0 <= k < |p| :: r[k] == pool[p[k]]
  {
    seq(|p|, k requires 0 <= k < |p| => pool[p[k]])
  }

  predicate AllPicked<T(==)>(pool: seq<T>, order: seq<seq<nat>>, out: seq<seq<T>>) {
    |out| == |order|
    && forall k | 0 <= k < |order| ::
         (forall m | 0 <= m < |order[k]| :: order[k][m] < |pool|) && out[k] == Pick(pool, order[k])
  }

  lemma FirstPicked<T>(pool: seq<T>, p: seq<nat>)
    requires forall k | 0 <= k < |p| :: p[k] < |pool|
    ensures AllPicked(pool, [p], [Pick(pool, p)])
  {
  }

  lemma PickedSnoc<T>(pool: seq<T>, order: seq<seq<nat>>, out: seq<seq<T>>, p: seq<nat>)
    requires AllPicked(pool, order, out) && forall k | 0 <= k < |p| :: p[k] < |pool|
    ensures AllPicked(pool, order + [p], out + [Pick(pool, p)])
  {
    var t := order + [p];
    forall k | 0 <= k < |t|
      ensures (forall m | 0 <= m < |t[k]| :: t[k][m] < |pool|) && (out + [Pick(pool, p)])[k] == Pick(pool, t[k])
    {
      assert k < |order| ==> t[k] == order[k];
    }
  }

  // ---------- a number that grows along the order ----------

  /** The tuple read as a number with the digits `p`, in base `n`. */
  function Code(p: seq<nat>, n: nat): (c: nat) {
    if p == [] then 0 else Code(p[..|p| - 1], n) * n + p[|p| - 1]
  }

  function Limit(n: nat, r: nat): (c: nat) {
    if r == 0 then 1 else Limit(n, r - 1) * n
  }

  predicate AllBelow(p: seq<nat>, n: nat) {
    forall k | 0 <= k < |p| :: p[k] < n
  }

  lemma StepUp(x: nat, y: nat, n: nat)
    requires x < y
    ensures x * n + n <= y * n
  {
    assert (x + 1) * n <= y * n;
  }

  lemma {:induction false} CodeBound(p: seq<nat>, n: nat)
    requires AllBelow(p, n)
    ensures Code(p, n) < Limit(n, |p|)
  {
    if p != [] {
      CodeBound(p[..|p| - 1], n);
      StepUp(Code(p[..|p| - 1], n), Limit(n, |p| - 1), n);
    }
  }

  lemma {:induction false} CodeGrows(p: seq<nat>, q: seq<nat>, n: nat, d: nat)
    requires |p| == |q| && AllBelow(p, n) && LexAt(p, q, d)
    ensures Code(p, n) < Code(q, n)
  {
    var m := |p| - 1;
    if d < m {
      assert p[..m][..d] == p[..d] && q[..m][..d] == q[..d];
      CodeGrows(p[..m], q[..m], n, d);
      StepUp(Code(p[..m], n), Code(q[..m], n), n);
    }
  }
}
