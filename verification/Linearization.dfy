/**
 `functools.py`, `_c3_merge`: merging several orders into one that contains them all.
 */
module Linearization {
  import opened Sequences

  /** `f` picks the elements of `s` from `t`, in order. */
  predicate Embeds<T(==)>(s: seq<T>, t: seq<T>, f: seq<nat>) {
    && |f| == |s|
    && (forall i | 0 <= i < |s| :: f[i] < |t| && t[f[i]] == s[i])
    && (forall i, j | 0 <= i < j < |s| :: f[i] < f[j])
  }

  ghost predicate IsSubsequence<T>(s: seq<T>, t: seq<T>) {
    exists f: seq<nat> :: Embeds(s, t, f)
  }

  /** The order `t` has no duplicates and contains every sequence. */
  ghost predicate Linearizes<T>(t: seq<T>, seqs: seq<seq<T>>) {
    Distinct(t) && forall i | 0 <= i < |seqs| :: IsSubsequence(seqs[i], t)
  }

  // ---------- the merge as a function ----------

  /** `c` comes after another element in one of the sequences. */
  predicate Blocked<T(==)>(c: T, seqs: seq<seq<T>>) {
    exists i | 0 <= i < |seqs| :: seqs[i] != [] && c in seqs[i][1..]
  }

  /** The first head, among the first `n` sequences, that no sequence blocks. */
  function CandidateUpTo<T(==)>(seqs: seq<seq<T>>, n: nat): (c: Option<T>)
    requires n <= |seqs|
  {
    if n == 0 then None
    else
      var earlier := CandidateUpTo(seqs, n - 1);
      if earlier.Some? then earlier
      else if seqs[n - 1] != [] && !Blocked(seqs[n - 1][0], seqs) then Some(seqs[n - 1][0])
      else None
  }

  function Candidate<T(==)>(seqs: seq<seq<T>>): (c: Option<T>) {
    CandidateUpTo(seqs, |seqs|)
  }

  function WithoutHead<T(==)>(s: seq<T>, c: T): (r: seq<T>) {
    if s != [] && s[0] == c then s[1..] else s
  }

  function RemoveHeads<T(==)>(seqs: seq<seq<T>>, c: T): (r: seq<seq<T>>)
    ensures |r| == |seqs|
  {
    seq(|seqs|, i requires 0 <= i < |seqs| => WithoutHead(seqs[i], c))
  }

  function TotalLength<T>(seqs: seq<seq<T>>): (n: nat) {
    if seqs == [] then 0 else |seqs[|seqs| - 1]| + TotalLength(seqs[..|seqs| - 1])
  }

  function NonEmpty<T(==)>(seqs: seq<seq<T>>): (r: seq<seq<T>>)
    ensures forall s | s in r :: s in seqs && s != []
    ensures forall s | s in seqs && s != [] :: s in r
  {
    if seqs == [] then []
    else
      var init := seqs[..|seqs| - 1];
      var s := seqs[|seqs| - 1];
      assert seqs == init + [s];
      if s == [] then NonEmpty(init) else NonEmpty(init) + [s]
  }

  function Merge<T(==)>(seqs: seq<seq<T>>): (r: Option<seq<T>>)
    decreases TotalLength(seqs)
  {
    var live := NonEmpty(seqs);
    if live == [] then Some([])
    else
      match Candidate(live) {
        case None => None
        case Some(c) =>
          CandidateIsHead(live, |live|);
          RemovalShrinks(live, c);
          NonEmptyLength(seqs);
          var rest := Merge(RemoveHeads(live, c));
          if rest.None? then None else Some([c] + rest.value)
      }
  }

  lemma {:induction false} CandidateIsHead<T>(seqs: seq<seq<T>>, n: nat)
    requires n <= |seqs| && CandidateUpTo(seqs, n).Some?
    ensures var c := CandidateUpTo(seqs, n).value;
            !Blocked(c, seqs) && exists i | 0 <= i < n :: seqs[i] != [] && seqs[i][0] == c
  {
    if CandidateUpTo(seqs, n - 1).Some? {
      CandidateIsHead(seqs, n - 1);
    }
  }

  lemma {:induction false} NoCandidate<T>(seqs: seq<seq<T>>, n: nat, i: nat)
    requires n <= |seqs| && CandidateUpTo(seqs, n).None? && i < n && seqs[i] != []
    ensures Blocked(seqs[i][0], seqs)
  {
    if i < n - 1 {
      NoCandidate(seqs, n - 1, i);
    }
  }

  /** The first free head in sequence order is chosen: every earlier head is blocked. */
  lemma {:induction false} CandidateIsFirst<T>(seqs: seq<seq<T>>, n: nat) returns (i: nat)
    requires n <= |seqs| && CandidateUpTo(seqs, n).Some?
    ensures i < n && seqs[i] != [] && CandidateUpTo(seqs, n) == Some(seqs[i][0]) && !Blocked(seqs[i][0], seqs)
    ensures forall k | 0 <= k < i && seqs[k] != [] :: Blocked(seqs[k][0], seqs)
  {
    if CandidateUpTo(seqs, n - 1).Some? {
      i := CandidateIsFirst(seqs, n - 1);
    } else {
      i := n - 1;
      forall k | 0 <= k < i && seqs[k] != [] ensures Blocked(seqs[k][0], seqs) {
        NoCandidate(seqs, n - 1, k);
      }
    }
  }

  lemma {:induction false} NonEmptyLength<T>(seqs: seq<seq<T>>)
    ensures TotalLength(NonEmpty(seqs)) == TotalLength(seqs)
  {
    if seqs != [] {
      var init, s := seqs[..|seqs| - 1], seqs[|seqs| - 1];
      NonEmptyLength(init);
      if s != [] {
        assert (NonEmpty(init) + [s])[..|NonEmpty(init)|] == NonEmpty(init);
      }
    }
  }

  lemma {:induction false} RemovalLength<T>(seqs: seq<seq<T>>, c: T)
    ensures TotalLength(RemoveHeads(seqs, c)) <= TotalLength(seqs)
    ensures (exists i | 0 <= i < |seqs| :: seqs[i] != [] && seqs[i][0] == c)
      ==> TotalLength(RemoveHeads(seqs, c)) < TotalLength(seqs)
  {
    if seqs != [] {
      var init := seqs[..|seqs| - 1];
      RemovalLength(init, c);
      assert RemoveHeads(seqs, c)[..|seqs| - 1] == RemoveHeads(init, c);
      if i :| 0 <= i < |seqs| && seqs[i] != [] && seqs[i][0] == c {
        if i < |init| {
          assert init[i] != [] && init[i][0] == c;
        }
      }
    }
  }

  /** Each round takes at least one element away. */
  lemma RemovalShrinks<T>(seqs: seq<seq<T>>, c: T)
    requires exists i | 0 <= i < |seqs| :: seqs[i] != [] && seqs[i][0] == c
    ensures TotalLength(RemoveHeads(seqs, c)) < TotalLength(seqs)
  {
    RemovalLength(seqs, c);
  }

  // ---------- the merge is sound ----------

  lemma PrependBoth<T>(c: T, s: seq<T>, t: seq<T>)
    requires IsSubsequence(s, t)
    ensures IsSubsequence(s, [c] + t) && IsSubsequence([c] + s, [c] + t)
  {
    var f: seq<nat> :| Embeds(s, t, f);
    var shifted: seq<nat> := seq(|f|, i requires 0 <= i < |f| => f[i] + 1);
    assert Embeds(s, [c] + t, shifted);
    assert Embeds([c] + s, [c] + t, [0] + shifted);
  }

  ghost predicate Covers<T>(t: seq<T>, seqs: seq<seq<T>>) {
    && (forall k, j | 0 <= k < |seqs| && 0 <= j < |seqs[k]| :: seqs[k][j] in t)
    && (forall i | 0 <= i < |t| :: Occurs(t[i], seqs))
  }

  predicate Occurs<T(==)>(x: T, seqs: seq<seq<T>>) {
    exists k | 0 <= k < |seqs| :: x in seqs[k]
  }

  lemma OccursAfterRemoval<T>(x: T, seqs: seq<seq<T>>, c: T)
    requires Occurs(x, RemoveHeads(seqs, c)) && !Blocked(c, seqs)
    ensures x != c && Occurs(x, seqs)
  {
    var k :| 0 <= k < |seqs| && x in RemoveHeads(seqs, c)[k];
    var s := seqs[k];
    assert x in WithoutHead(s, c);
    if s != [] {
      assert s == [s[0]] + s[1..];
    }
  }

  /** A merge has each input element once, nothing else, and contains every input sequence. */
  lemma {:induction false} MergeSound<T>(seqs: seq<seq<T>>)
    requires Merge(seqs).Some?
    ensures Linearizes(Merge(seqs).value, seqs) && Covers(Merge(seqs).value, seqs)
    decreases TotalLength(seqs)
  {
    var live := NonEmpty(seqs);
    var t := Merge(seqs).value;
    if live == [] {
      forall i | 0 <= i < |seqs| ensures seqs[i] == [] {
        assert seqs[i] in seqs;
      }
      assert forall i | 0 <= i < |seqs| :: Embeds(seqs[i], [], []);
    } else {
      var c := Candidate(live).value;
      CandidateIsHead(live, |live|);
      RemovalShrinks(live, c);
      NonEmptyLength(seqs);
      MergeSound(RemoveHeads(live, c));
      StepSound(live, c, Merge(RemoveHeads(live, c)).value);
      AlsoForEmpty(seqs, t);
    }
  }

  lemma AlsoForEmpty<T>(seqs: seq<seq<T>>, t: seq<T>)
    requires Linearizes(t, NonEmpty(seqs)) && Covers(t, NonEmpty(seqs))
    ensures Linearizes(t, seqs) && Covers(t, seqs)
  {
    var live := NonEmpty(seqs);
    forall i | 0 <= i < |seqs|
      ensures IsSubsequence(seqs[i], t)
      ensures forall j | 0 <= j < |seqs[i]| :: seqs[i][j] in t
    {
      if seqs[i] == [] {
        assert Embeds(seqs[i], t, []);
      } else {
        assert seqs[i] in live;
        var k :| 0 <= k < |live| && live[k] == seqs[i];
      }
    }
    forall i | 0 <= i < |t| ensures Occurs(t[i], seqs) {
      assert Occurs(t[i], live);
      var k :| 0 <= k < |live| && t[i] in live[k];
      assert live[k] in seqs;
    }
  }

  lemma StepSound<T>(seqs: seq<seq<T>>, c: T, r: seq<T>)
    requires !Blocked(c, seqs) && exists i | 0 <= i < |seqs| :: seqs[i] != [] && seqs[i][0] == c
    requires Linearizes(r, RemoveHeads(seqs, c)) && Covers(r, RemoveHeads(seqs, c))
    ensures Linearizes([c] + r, seqs) && Covers([c] + r, seqs)
  {
    var t := [c] + r;
    hide Blocked, Occurs, IsSubsequence, RemoveHeads;
    forall i | 0 <= i < |r| ensures r[i] != c && Occurs(t[i + 1], seqs) {
      OccursAfterRemoval(r[i], seqs, c);
    }
    HeadOccurs(c, seqs);
    forall i | 0 <= i < |t| ensures Occurs(t[i], seqs) {
      if i > 0 { assert t[i - 1 + 1] == t[i]; }
    }
    forall k | 0 <= k < |seqs|
      ensures IsSubsequence(seqs[k], t)
      ensures forall j | 0 <= j < |seqs[k]| :: seqs[k][j] in t
    {
      StepContains(seqs, c, r, k);
      SubsequenceElements(seqs[k], t);
    }
  }

  lemma HeadOccurs<T>(c: T, seqs: seq<seq<T>>)
    requires exists i | 0 <= i < |seqs| :: seqs[i] != [] && seqs[i][0] == c
    ensures Occurs(c, seqs)
  {
  }

  lemma StepContains<T>(seqs: seq<seq<T>>, c: T, r: seq<T>, k: nat)
    requires k < |seqs| && IsSubsequence(RemoveHeads(seqs, c)[k], r)
    ensures IsSubsequence(seqs[k], [c] + r)
  {
    hide IsSubsequence;
    var rest := RemoveHeads(seqs, c)[k];
    assert rest == WithoutHead(seqs[k], c);
    PrependBoth(c, rest, r);
    if seqs[k] != [] && seqs[k][0] == c {
      assert seqs[k] == [c] + rest;
    }
  }

  lemma SubsequenceElements<T>(s: seq<T>, t: seq<T>)
    requires IsSubsequence(s, t)
    ensures forall j | 0 <= j < |s| :: s[j] in t
  {
    var f: seq<nat> :| Embeds(s, t, f);
    forall j | 0 <= j < |s| ensures s[j] in t {
      assert t[f[j]] == s[j];
    }
  }

  // ---------- the merge is complete ----------

  lemma TailEmbeds<T>(s: seq<T>, t: seq<T>, f: seq<nat>)
    requires Embeds(s, t, f) && s != []
    ensures IsSubsequence(s[1..], t)
  {
    assert Embeds(s[1..], t, f[1..]);
  }

  lemma RemovalLinearizes<T>(t: seq<T>, seqs: seq<seq<T>>, c: T)
    requires Linearizes(t, seqs)
    ensures Linearizes(t, RemoveHeads(seqs, c))
  {
    forall i | 0 <= i < |seqs| ensures IsSubsequence(RemoveHeads(seqs, c)[i], t) {
      var f: seq<nat> :| Embeds(seqs[i], t, f);
      if seqs[i] != [] {
        TailEmbeds(seqs[i], t, f);
      }
    }
  }

  /** Where the first element of `s` sits in `t`: before all the others. */
  lemma HeadFirst<T>(s: seq<T>, t: seq<T>, x: T) returns (p: nat, q: nat)
    requires Distinct(t) && IsSubsequence(s, t) && s != [] && x in s[1..]
    ensures p < q < |t| && t[p] == s[0] && t[q] == x
  {
    var f: seq<nat> :| Embeds(s, t, f);
    var j :| 0 <= j < |s| - 1 && s[1..][j] == x;
    p, q := f[0], f[j + 1];
  }

  lemma HeadPlace<T>(s: seq<T>, t: seq<T>) returns (p: nat)
    requires IsSubsequence(s, t) && s != []
    ensures p < |t| && t[p] == s[0]
  {
    var f: seq<nat> :| Embeds(s, t, f);
    p := f[0];
  }

  /** When an order contains every sequence, a head at or before place `p` of it is free. */
  lemma {:induction false} EarliestHeadFree<T>(t: seq<T>, seqs: seq<seq<T>>, i: nat, p: nat)
    requires Linearizes(t, seqs) && i < |seqs| && seqs[i] != [] && p < |t| && t[p] == seqs[i][0]
    ensures Candidate(seqs).Some?
    decreases p
  {
    if Blocked(seqs[i][0], seqs) {
      var k :| 0 <= k < |seqs| && seqs[k] != [] && seqs[i][0] in seqs[k][1..];
      var p', q := HeadFirst(seqs[k], t, seqs[i][0]);
      assert q == p;
      EarliestHeadFree(t, seqs, k, p');
    } else if Candidate(seqs).None? {
      NoCandidate(seqs, |seqs|, i);
    }
  }

  /** If some order without duplicates contains every input sequence, the merge finds one. */
  lemma {:induction false} MergeComplete<T>(t: seq<T>, seqs: seq<seq<T>>)
    requires Linearizes(t, seqs)
    ensures Merge(seqs).Some?
    decreases TotalLength(seqs)
  {
    var live := NonEmpty(seqs);
    if live != [] {
      LiveLinearizes(t, seqs);
      assert live[0] in live;
      var p := HeadPlace(live[0], t);
      EarliestHeadFree(t, live, 0, p);
      var c := Candidate(live).value;
      CandidateIsHead(live, |live|);
      RemovalShrinks(live, c);
      NonEmptyLength(seqs);
      RemovalLinearizes(t, live, c);
      MergeComplete(t, RemoveHeads(live, c));
    }
  }

  lemma LiveLinearizes<T>(t: seq<T>, seqs: seq<seq<T>>)
    requires Linearizes(t, seqs)
    ensures Linearizes(t, NonEmpty(seqs))
  {
    var live := NonEmpty(seqs);
    forall i | 0 <= i < |live| ensures IsSubsequence(live[i], t) {
      assert live[i] in live;
      assert live[i] in seqs;
      var k :| 0 <= k < |seqs| && seqs[k] == live[i];
    }
  }

  /** The merge succeeds exactly when some order without duplicates contains every input sequence. */
  lemma MergeSucceedsIff<T(!new)>(seqs: seq<seq<T>>)
    ensures Merge(seqs).Some? <==> exists t: seq<T> :: Linearizes(t, seqs)
  {
    if Merge(seqs).Some? {
      MergeSound(seqs);
    }
    if t: seq<T> :| Linearizes(t, seqs) {
      MergeComplete(t, seqs);
    }
  }

  // ---------- the loops of the merge ----------

  /** A list object, whose head the merge deletes in place. */
  class Chain<T(==)> {
    var items: seq<T>

    constructor (items: seq<T>)
      ensures this.items == items
    {
      this.items := items;
    }
  }

  ghost function Items<T>(chains: seq<Chain<T>>): (r: seq<seq<T>>)
    reads chains
    ensures |r| == |chains| && forall i | 0 <= i < |chains| :: r[i] == chains[i].items
  {
    if chains == [] then [] else Items(chains[..|chains| - 1]) + [chains[|chains| - 1].items]
  }

  /** Some list object that still holds something is given twice. */
  ghost predicate Repeats<T>(chains: seq<Chain<T>>)
    reads chains
  {
    exists i, j | 0 <= i < j < |chains| :: chains[i] == chains[j] && chains[i].items != []
  }

  /** What the rounds so far contribute to the final outcome. */
  function After<T>(found: seq<T>, rest: Option<seq<T>>): (r: Option<seq<T>>) {
    if rest.None? then None else Some(found + rest.value)
  }

  lemma AfterAppend<T>(found: seq<T>, c: T, rest: Option<seq<T>>)
    ensures After(found + [c], rest) == After(found, After([c], rest))
  {
    if rest.Some? {
      assert found + [c] + rest.value == found + ([c] + rest.value);
    }
  }

  lemma AfterNothing<T>(rest: Option<seq<T>>)
    ensures After([], rest) == rest
  {
    if rest.Some? {
      assert [] + rest.value == rest.value;
    }
  }

  lemma ItemsSnoc<T>(chains: seq<Chain<T>>, c: Chain<T>)
    ensures Items(chains + [c]) == Items(chains) + [c.items]
  {
    assert (chains + [c])[..|chains|] == chains;
  }

  lemma NonEmptySnoc<T>(seqs: seq<seq<T>>, s: seq<T>)
    ensures NonEmpty(seqs + [s]) == if s == [] then NonEmpty(seqs) else NonEmpty(seqs) + [s]
  {
    assert (seqs + [s])[..|seqs|] == seqs;
  }

  lemma RepeatsSnoc<T>(chains: seq<Chain<T>>, c: Chain<T>)
    ensures Repeats(chains + [c]) <==> Repeats(chains) || (c in chains && c.items != [])
  {
    var t := chains + [c];
    if Repeats(chains) {
      var i, j :| 0 <= i < j < |chains| && chains[i] == chains[j] && chains[i].items != [];
      assert t[i] == t[j];
    }
    if c in chains && c.items != [] {
      var i :| 0 <= i < |chains| && chains[i] == c;
      assert t[i] == t[|chains|];
    }
    if Repeats(t) {
      var i, j :| 0 <= i < j < |t| && t[i] == t[j] && t[i].items != [];
      if j < |chains| {
        assert chains[i] == chains[j];
      } else {
        assert chains[i] == c;
      }
    }
  }

  /** `live` are the chains that still hold something, in their order. */
  ghost predicate Purged<T>(chains: seq<Chain<T>>, live: seq<Chain<T>>)
    reads chains, live
  {
    && Items(live) == NonEmpty(Items(chains)) && (Repeats(live) <==> Repeats(chains))
    && (forall c | c in live :: c in chains) && forall c | c in chains && c !in live :: c.items == []
  }

  lemma PurgeStep<T>(chains: seq<Chain<T>>, live: seq<Chain<T>>, i: nat)
    requires i < |chains| && Purged(chains[..i], live)
    ensures Purged(chains[..i + 1], if chains[i].items != [] then live + [chains[i]] else live)
  {
    hide Items, NonEmpty, Repeats;
    var c := chains[i];
    assert chains[..i + 1] == chains[..i] + [c];
    RepeatsSnoc(chains[..i], c);
    RepeatsSnoc(live, c);
    ItemsSnoc(chains[..i], c);
    ItemsSnoc(live, c);
    NonEmptySnoc(Items(chains[..i]), c.items);
  }

  method Purge<T>(chains: seq<Chain<T>>) returns (live: seq<Chain<T>>)
    ensures Purged(chains, live)
  {
    live := [];
    assert Purged(chains[..0], live);
    hide Purged;
    var i := 0;
    while i < |chains|
      invariant 0 <= i <= |chains|
      invariant Purged(chains[..i], live)
    {
      PurgeStep(chains, live, i);
      if chains[i].items != [] {
        live := live + [chains[i]];
      }
      i := i + 1;
    }
    assert chains[..i] == chains;
  }

  method FindCandidate<T(==)>(live: seq<Chain<T>>) returns (candidate: Option<T>)
    requires forall i | 0 <= i < |live| :: live[i].items != []
    ensures candidate == Candidate(Items(live))
  {
    candidate := None;
    var i := 0;
    while i < |live|
      invariant 0 <= i <= |live| && candidate == None && CandidateUpTo(Items(live), i).None?
    {
      var head := live[i].items[0];
      candidate := Some(head);
      var j := 0;
      while j < |live|
        invariant 0 <= j <= |live| && candidate == Some(head)
        invariant forall k | 0 <= k < j :: head !in live[k].items[1..]
      {
        if head in live[j].items[1..] {
          assert Items(live)[j] == live[j].items;
          assert Blocked(head, Items(live));
          candidate := None;
          break;
        }
        j := j + 1;
      }
      assert Items(live)[i][0] == head;
      if candidate.Some? {
        assert !Blocked(head, Items(live));
        UpToAll(Items(live), i);
        return;
      }
      i := i + 1;
    }
  }

  lemma {:induction false} UpToGrows<T>(seqs: seq<seq<T>>, n: nat, m: nat)
    requires n <= m <= |seqs| && CandidateUpTo(seqs, n).Some?
    ensures CandidateUpTo(seqs, m) == CandidateUpTo(seqs, n)
  {
    if n < m {
      UpToGrows(seqs, n, m - 1);
    }
  }

  lemma UpToAll<T>(seqs: seq<seq<T>>, i: nat)
    requires i < |seqs| && CandidateUpTo(seqs, i).None? && seqs[i] != [] && !Blocked(seqs[i][0], seqs)
    ensures Candidate(seqs) == Some(seqs[i][0])
  {
    UpToGrows(seqs, i + 1, |seqs|);
  }

  /**
   Deletes `c` from the front of every chain that starts with it. A chain that is given twice and holds nothing but
   `c` is empty when it comes up again, and then looking at its head fails.
   */
  method DeleteHeads<T(==)>(live: seq<Chain<T>>, c: T) returns (failed: bool)
    requires IsFree(live, c)
    modifies live
    ensures failed ==> old(Repeats(live))
    ensures !failed ==> Items(live) == RemoveHeads(old(Items(live)), c) && (Repeats(live) <==> old(Repeats(live)))
  {
    ghost var was, twice := Items(live), Repeats(live);
    StartDeleting(live, c);
    hide Items, Repeats, Deleting, RemoveHeads, WithoutHead, IsFree, OneDeleted;
    var i := 0;
    while i < |live|
      invariant 0 <= i <= |live| && Deleting(live, was, Items(live), i, c)
    {
      ghost var before := Items(live);
      assert before[i] == live[i].items;
      if live[i].items == [] {
        EmptyIsTwice(live, was, before, i, c);
        return true;
      }
      DeleteHead(live, i, c);
      DeletingStep(live, was, before, Items(live), i, c);
      i := i + 1;
    }
    StillRepeats(live, was, c, twice);
    failed := false;
  }

  /** Every chain holds something, and `c` nowhere but at its head. */
  predicate IsFree<T(==)>(live: seq<Chain<T>>, c: T)
    reads live
  {
    forall i | 0 <= i < |live| :: live[i].items != [] && c !in live[i].items[1..]
  }

  lemma StartDeleting<T>(live: seq<Chain<T>>, c: T)
    requires IsFree(live, c)
    ensures Deleting(live, Items(live), Items(live), 0, c)
    ensures Repeats(live) <==> exists j, k | 0 <= j < k < |live| :: live[j] == live[k]
  {
    hide Items, Repeats, Deleting;
    RepeatsIn(live, Items(live));
    NothingDeleted(live, Items(live), c);
  }

  lemma NothingDeleted<T>(live: seq<Chain<T>>, was: seq<seq<T>>, c: T)
    requires |was| == |live| && forall k | 0 <= k < |live| :: was[k] != [] && c !in was[k][1..]
    requires forall j, k | 0 <= j < k < |live| && live[j] == live[k] :: was[j] == was[k]
    ensures Deleting(live, was, was, 0, c)
  {
  }

  method DeleteHead<T(==)>(live: seq<Chain<T>>, i: nat, c: T)
    requires i < |live| && live[i].items != []
    modifies live[i]
    ensures OneDeleted(live, old(Items(live)), Items(live), i, c)
  {
    if live[i].items[0] == c {
      live[i].items := live[i].items[1..];
    }
    hide Items;
  }

  ghost predicate OneDeleted<T>(live: seq<Chain<T>>, before: seq<seq<T>>, now: seq<seq<T>>, i: nat, c: T)
    requires i < |live| == |before| == |now|
  {
    forall k | 0 <= k < |live| :: now[k] == if live[k] == live[i] then WithoutHead(before[i], c) else before[k]
  }

  /** The first `i` places have been dealt with; `was` are the items before, `now` those held now. */
  ghost predicate Deleting<T>(live: seq<Chain<T>>, was: seq<seq<T>>, now: seq<seq<T>>, i: nat, c: T) {
    && i <= |live| == |was| == |now|
    && (forall k | 0 <= k < |live| :: now[k] == if live[k] in live[..i] then WithoutHead(was[k], c) else was[k])
    && (forall k | 0 <= k < |live| :: was[k] != [] && c !in was[k][1..])
    && (forall j, k | 0 <= j < k < |live| && live[j] == live[k] :: was[j] == was[k])
    && forall j, k | 0 <= j < k < i && live[j] == live[k] :: now[k] != []
  }

  lemma DeletingStep<T>(live: seq<Chain<T>>, was: seq<seq<T>>, before: seq<seq<T>>, now: seq<seq<T>>, i: nat, c: T)
    requires i < |live| == |now| && Deleting(live, was, before, i, c) && before[i] != []
    requires OneDeleted(live, before, now, i, c)
    ensures Deleting(live, was, now, i + 1, c)
  {
    assert live[..i + 1] == live[..i] + [live[i]];
    forall k | 0 <= k < |live| && live[k] == live[i] ensures was[k] == was[i] {
    }
    if live[i] in live[..i] {
      assert WithoutHead(before[i], c) == before[i];
    }
    forall j, k | 0 <= j < k < i + 1 && live[j] == live[k] ensures now[k] != [] {
      assert live[j] in live[..i];
    }
  }

  lemma EmptyIsTwice<T>(live: seq<Chain<T>>, was: seq<seq<T>>, before: seq<seq<T>>, i: nat, c: T)
    requires i < |live| && Deleting(live, was, before, i, c) && before[i] == []
    ensures exists j, k | 0 <= j < k < |live| :: live[j] == live[k]
  {
    var j := Place(live[..i], live[i]);
    assert live[j] == live[i];
  }

  lemma Place<T>(s: seq<Chain<T>>, x: Chain<T>) returns (j: nat)
    requires x in s
    ensures j < |s| && s[j] == x
  {
    j :| 0 <= j < |s| && s[j] == x;
  }

  lemma RepeatsIn<T>(live: seq<Chain<T>>, was: seq<seq<T>>)
    requires was == Items(live) && forall k | 0 <= k < |live| :: was[k] != []
    ensures Repeats(live) <==> exists j, k | 0 <= j < k < |live| :: live[j] == live[k]
  {
    hide Items;
    if j, k :| 0 <= j < k < |live| && live[j] == live[k] {
      assert live[j].items == was[j];
    }
  }

  lemma AllDeleted<T>(live: seq<Chain<T>>, was: seq<seq<T>>, now: seq<seq<T>>, c: T)
    requires Deleting(live, was, now, |live|, c)
    ensures now == RemoveHeads(was, c)
    ensures forall j, k | 0 <= j < k < |live| && live[j] == live[k] :: now[j] == now[k] != []
  {
    assert live[..|live|] == live;
    forall k | 0 <= k < |live| ensures now[k] == WithoutHead(was[k], c) {
      assert live[k] in live;
    }
  }

  lemma StillRepeats<T>(live: seq<Chain<T>>, was: seq<seq<T>>, c: T, twice: bool)
    requires Deleting(live, was, Items(live), |live|, c)
    requires twice <==> exists j, k | 0 <= j < k < |live| :: live[j] == live[k]
    ensures Items(live) == RemoveHeads(was, c) && (Repeats(live) <==> twice)
  {
    hide Items, RemoveHeads, Deleting;
    AllDeleted(live, was, Items(live), c);
    PairsHold(live, twice);
  }

  lemma PairsHold<T>(live: seq<Chain<T>>, twice: bool)
    requires forall j, k | 0 <= j < k < |live| && live[j] == live[k] :: Items(live)[k] != []
    requires twice <==> exists j, k | 0 <= j < k < |live| :: live[j] == live[k]
    ensures Repeats(live) <==> twice
  {
    hide Items;
    if twice {
      var j, k :| 0 <= j < k < |live| && live[j] == live[k];
      assert live[k].items == Items(live)[k];
    }
  }

  datatype Outcome<T> = Merged(order: seq<T>) | Inconsistent | IndexError

  /**
   The merge, emptying the chains as it goes: the merge of what they hold, if no list object that holds something is
   given twice, and otherwise an error, because such a list runs empty between two looks at its head.
   */
  method C3Merge<T(==)>(sequences: seq<Chain<T>>) returns (result: Outcome<T>)
    modifies sequences
    ensures result.Merged? <==> Merge(old(Items(sequences))).Some? && !old(Repeats(sequences))
    ensures result.Merged? ==> Merge(old(Items(sequences))) == Some(result.order)
    ensures result.Inconsistent? ==> Merge(old(Items(sequences))).None?
    ensures result.IndexError? ==> old(Repeats(sequences))
    ensures result.Merged? ==> forall c | c in sequences :: c.items == []
  {
    hide Merge, Candidate, NonEmpty, RemoveHeads, TotalLength, Items, Repeats;
    var live, found: seq<T> := sequences, [];
    AfterNothing(Merge(Items(live)));
    while true
      invariant (Repeats(live) <==> old(Repeats(sequences))) && (forall c | c in live :: c in sequences)
      invariant forall c | c in sequences && c !in live :: c.items == []
      invariant After(found, Merge(Items(live))) == Merge(old(Items(sequences)))
      decreases TotalLength(Items(live))
    {
      ghost var before := Items(live);
      live := Purge(live);
      MergeStep(before);
      if live == [] {
        assert found + [] == found;
        NoneRepeats<T>();
        return Merged(found);
      }
      forall i | 0 <= i < |live| ensures live[i].items != [] {
        NonEmptyItem(before, i);
      }
      var candidate := FindCandidate(live);
      if candidate.None? {
        return Inconsistent;
      }
      ghost var earlier := found;
      found := found + [candidate.value];
      CandidateIsFree(live, candidate.value);
      var failed := DeleteHeads(live, candidate.value);
      if failed {
        return IndexError;
      }
      AfterAppend(earlier, candidate.value, Merge(Items(live)));
    }
  }

  lemma NoneRepeats<T>()
    ensures var none: seq<Chain<T>> := []; !Repeats(none)
  {
  }

  lemma CandidateIsFree<T>(live: seq<Chain<T>>, c: T)
    requires (forall i | 0 <= i < |live| :: live[i].items != []) && Candidate(Items(live)) == Some(c)
    ensures IsFree(live, c)
  {
    CandidateIsHead(Items(live), |live|);
    forall i | 0 <= i < |live| ensures c !in live[i].items[1..] {
      assert Items(live)[i] == live[i].items;
    }
  }

  lemma NonEmptyItem<T>(seqs: seq<seq<T>>, i: nat)
    requires i < |NonEmpty(seqs)|
    ensures NonEmpty(seqs)[i] != []
  {
    assert NonEmpty(seqs)[i] in NonEmpty(seqs);
  }

  /** One round: it ends, fails, or leaves a shorter problem. */
  lemma MergeStep<T>(seqs: seq<seq<T>>)
    ensures var live := NonEmpty(seqs);
            if live == [] then Merge(seqs) == Some([])
            else if Candidate(live).None? then Merge(seqs) == None
            else
              var c := Candidate(live).value;
              var rest := RemoveHeads(live, c);
              TotalLength(rest) < TotalLength(seqs) && Merge(seqs) == After([c], Merge(rest))
  {
    var live := NonEmpty(seqs);
    if live != [] && Candidate(live).Some? {
      CandidateIsHead(live, |live|);
      RemovalShrinks(live, Candidate(live).value);
      NonEmptyLength(seqs);
    }
  }

  /** Two lists that hold the same element have a merge, but one list object given twice runs empty. */
  method GivenTwice<T(==)>(x: T) returns (result: Outcome<T>)
    ensures Merge([[x], [x]]) == Some([x]) && result.IndexError?
  {
    var shared := new Chain([x]);
    SameSingles(x);
    ghost var both := [shared, shared];
    assert Items(both) == [[x], [x]] && both[0] == both[1];
    hide Merge, Items;
    result := C3Merge([shared, shared]);
  }

  lemma SameSingles<T>(x: T)
    ensures Merge([[x], [x]]) == Some([x])
  {
    var s, e: seq<seq<T>> := [[x], [x]], [[], []];
    assert s[..1] == [[x]] && [[x]][..0] == [];
    assert NonEmpty([[x]]) == [[x]] && NonEmpty(s) == s;
    assert [x][1..] == [];
    assert !Blocked(x, s);
    UpToGrows(s, 1, 2);
    assert Candidate(s) == Some(x);
    assert RemoveHeads(s, x) == e;
    EmptyMerge(e);
    hide Merge, Candidate, NonEmpty, RemoveHeads;
    MergeStep(s);
    assert [x] + [] == [x];
  }

  lemma {:induction false} EmptyMerge<T>(seqs: seq<seq<T>>)
    requires forall i | 0 <= i < |seqs| :: seqs[i] == []
    ensures NonEmpty(seqs) == [] && Merge(seqs) == Some([])
  {
    if seqs != [] {
      EmptyMerge(seqs[..|seqs| - 1]);
    }
  }
}
