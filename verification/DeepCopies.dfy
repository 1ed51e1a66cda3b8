/**
 `copy.py`, `deepcopy` on lists, tuples, dictionaries and atoms, with the memo shared by the whole recursion.
 */
module DeepCopies {
  import opened ObjectGraphs

  lemma NotMore<T>(all: set<T>, seen: set<T>, seen': set<T>)
    requires seen <= seen'
    ensures |all - seen'| <= |all - seen|
  {
    var fewer, more := all - seen', all - seen;
    assert more == fewer + (more - fewer);
  }

  lemma Fewer<T>(all: set<T>, seen: set<T>, seen': set<T>, x: T)
    requires seen <= seen' && x in all && x !in seen && x in seen'
    ensures |all - seen'| < |all - seen|
  {
    assert all - seen == (all - (seen + {x})) + {x};
    NotMore(all, seen + {x}, seen');
  }

  /** The lists and dictionaries of the graph. */
  function Mutables(s: Store): (r: set<Id>) {
    set i | i in s && IsMutable(s[i])
  }

  /** The mutable objects without a copy yet: what bounds the depth of the recursion, together with the ranks. */
  function Unseen(s: Store, memo: map<Id, Id>): (n: nat) {
    |Mutables(s) - memo.Keys|
  }

  predicate StateOk(s: Store, rank: map<Id, nat>, memo: map<Id, Id>, store: Store, next: Id) {
    WellFormed(s, rank) && MemoOk(s, rank, memo, store) && Extends(s, store) && forall i | i in store :: i < next
  }

  /** Nothing that existed changes, and every new copy is finished, except those of `open`. */
  predicate Progress(s: Store, rank: map<Id, nat>, memo: map<Id, Id>, store: Store, memo': map<Id, Id>, store': Store,
                     open: set<Id>)
    requires WellFormed(s, rank)
  {
    && Extends(memo, memo') && Extends(store, store')
    && forall i | i in memo' && i !in memo && i !in open :: Closed(s, rank, memo', store', i)
  }

  lemma ProgressOn(s: Store, rank: map<Id, nat>, m0: map<Id, Id>, s0: Store, m1: map<Id, Id>, s1: Store,
                   m2: map<Id, Id>, s2: Store,
                   open: set<Id>)
    requires WellFormed(s, rank) && MemoOk(s, rank, m2, s2)
    requires Progress(s, rank, m0, s0, m1, s1, open) && Progress(s, rank, m1, s1, m2, s2, {})
    ensures Progress(s, rank, m0, s0, m2, s2, open)
  {
    hide WellFormed, MemoOk, Closed;
    forall i | i in m2 && i !in m0 && i !in open ensures Closed(s, rank, m2, s2, i) {
      if i in m1 {
        ClosedStable(s, rank, m1, m2, s1, s2, i);
      }
    }
  }

  lemma NoProgress(s: Store, rank: map<Id, nat>, memo: map<Id, Id>, store: Store)
    requires WellFormed(s, rank)
    ensures Progress(s, rank, memo, store, memo, store, {})
  {
  }

  lemma UnseenAfter(s: Store, rank: map<Id, nat>, memo: map<Id, Id>, store: Store, memo': map<Id, Id>, store': Store,
                    open: set<Id>)
    requires WellFormed(s, rank) && Progress(s, rank, memo, store, memo', store', open)
    ensures Unseen(s, memo') <= Unseen(s, memo)
    ensures forall x | x in s && IsMutable(s[x]) && x !in memo && x in memo' :: Unseen(s, memo') < Unseen(s, memo)
  {
    hide WellFormed, Closed;
    assert memo.Keys <= memo'.Keys;
    NotMore(Mutables(s), memo.Keys, memo'.Keys);
    forall x | x in s && IsMutable(s[x]) && x !in memo && x in memo' ensures Unseen(s, memo') < Unseen(s, memo) {
      Fewer(Mutables(s), memo.Keys, memo'.Keys, x);
    }
  }

  // ---------- mutable containers ----------

  /** A new, still empty copy is entered in the memo before its contents are copied. */
  lemma OpenCopy(s: Store, rank: map<Id, nat>, memo: map<Id, Id>, store: Store, next: Id, x: Id, o: Obj)
    requires StateOk(s, rank, memo, store, next) && x in s && IsMutable(s[x]) && x !in memo
    ensures StateOk(s, rank, memo[x := next], store[next := o], next + 1)
    ensures Progress(s, rank, memo, store, memo[x := next], store[next := o], {x})
    ensures next !in store && next !in s
  {
    assert next !in store;
  }

  /** Filling the open copy disturbs nothing else. */
  lemma FillCopy(s: Store, rank: map<Id, nat>, m0: map<Id, Id>, s0: Store, memo: map<Id, Id>, store: Store, next: Id,
                 x: Id, o: Obj)
    requires StateOk(s, rank, memo, store, next) && Progress(s, rank, m0, s0, memo, store, {x})
    requires x in memo && memo[x] in store && memo[x] !in s0
    ensures StateOk(s, rank, memo, store[memo[x] := o], next)
    ensures Progress(s, rank, m0, s0, memo, store[memo[x] := o], {x})
  {
  }

  /** A filled copy is finished. */
  lemma CloseCopy(s: Store, rank: map<Id, nat>, m0: map<Id, Id>, s0: Store, memo: map<Id, Id>, store: Store, x: Id)
    requires WellFormed(s, rank) && Progress(s, rank, m0, s0, memo, store, {x}) && Closed(s, rank, memo, store, x)
    ensures Progress(s, rank, m0, s0, memo, store, {})
  {
  }

  lemma ChildKnown(s: Store, rank: map<Id, nat>, x: Id, k: nat)
    requires WellFormed(s, rank) && x in s && k < |Children(s[x])|
    ensures var c := Children(s[x])[k]; c in s && c in rank && x in rank && (s[x].Tuple? ==> rank[c] < rank[x])
  {
    assert ChildOk(s, rank, x, Children(s[x])[k]);
  }

  /** After one more item, the images of the items so far. */
  lemma NextItem(s: Store, rank: map<Id, nat>, m1: map<Id, Id>, m2: map<Id, Id>, s2: Store, items: seq<Id>, k: nat)
    requires WellFormed(s, rank) && MemoOk(s, rank, m2, s2) && Extends(m1, m2) && k < |items|
    requires AllSettled(s, rank, m1, items[..k]) && Settled(s, rank, m2, items[k])
    ensures AllSettled(s, rank, m2, items[..k + 1])
    ensures Images(m2, items[..k + 1]) == Images(m1, items[..k]) + [Image(m2, items[k])]
  {
    hide WellFormed, MemoOk, Extends, Settled, Image;
    ImagesStable(s, rank, m1, m2, s2, items[..k]);
    var next := items[..k + 1];
    assert forall j | 0 <= j < k :: next[j] == items[..k][j];
  }

  lemma NextEntry(s: Store, rank: map<Id, nat>, m1: map<Id, Id>, m2: map<Id, Id>, s2: Store, entries: seq<(Id, Id)>,
                  k: nat)
    requires WellFormed(s, rank) && MemoOk(s, rank, m2, s2) && Extends(m1, m2) && k < |entries|
    requires AllSettled(s, rank, m1, Flat(entries[..k]))
    requires Settled(s, rank, m2, entries[k].0) && Settled(s, rank, m2, entries[k].1)
    ensures AllSettled(s, rank, m2, Flat(entries[..k + 1]))
    ensures EntryImages(m2, entries[..k + 1])
            == EntryImages(m1, entries[..k]) + [(Image(m2, entries[k].0), Image(m2, entries[k].1))]
  {
    hide WellFormed, MemoOk, Extends, Settled, Image;
    ImagesStable(s, rank, m1, m2, s2, Flat(entries[..k]));
    EntriesStable(m1, m2, entries[..k]);
    assert entries[..k + 1][..k] == entries[..k];
    assert Flat(entries[..k + 1]) == Flat(entries[..k]) + [entries[k].0, entries[k].1];
    assert forall j | 0 <= j < k :: EntryImages(m2, entries[..k + 1])[j] == EntryImages(m2, entries[..k])[j];
  }

  // ---------- tuples ----------

  /** A tuple whose items are all their own copies needs no copy. */
  lemma TupleIsPure(s: Store, rank: map<Id, nat>, memo: map<Id, Id>, store: Store, x: Id)
    requires WellFormed(s, rank) && MemoOk(s, rank, memo, store) && x in s && s[x].Tuple?
    requires AllSettled(s, rank, memo, s[x].items) && Images(memo, s[x].items) == s[x].items
    ensures Pure(s, rank, x)
  {
    var items := s[x].items;
    forall k | 0 <= k < |items| ensures ChildOk(s, rank, x, Children(s[x])[k]) && Pure(s, rank, items[k]) {
      assert Settled(s, rank, memo, items[k]);
      assert Image(memo, items[k]) == Images(memo, items)[k] == items[k];
    }
  }

  /** A tuple with an item that was copied needs a copy. */
  lemma TupleIsNotPure(s: Store, rank: map<Id, nat>, memo: map<Id, Id>, store: Store, x: Id, k: nat)
    requires WellFormed(s, rank) && MemoOk(s, rank, memo, store) && x in s && s[x].Tuple? && k < |s[x].items|
    requires Image(memo, s[x].items[k]) != s[x].items[k]
    ensures !Pure(s, rank, x)
  {
  }

  /** Entering the finished copy of a tuple in the memo. */
  lemma EnterTuple(s: Store, rank: map<Id, nat>, m0: map<Id, Id>, s0: Store, memo: map<Id, Id>, store: Store,
                   next: Id, x: Id)
    requires StateOk(s, rank, memo, store, next) && Progress(s, rank, m0, s0, memo, store, {})
    requires x in s && s[x].Tuple? && x !in memo && !Pure(s, rank, x) && AllSettled(s, rank, memo, s[x].items)
    ensures var store' := store[next := Tuple(Images(memo, s[x].items))];
            && StateOk(s, rank, memo[x := next], store', next + 1)
            && Progress(s, rank, m0, s0, memo[x := next], store', {})
            && next !in store
  {
    hide Pure;
    var store', memo' := store[next := Tuple(Images(memo, s[x].items))], memo[x := next];
    assert next !in store;
    assert MemoOk(s, rank, memo', store');
    hide WellFormed, MemoOk, Closed;
    ImagesStable(s, rank, memo, memo', store', s[x].items);
    forall i | i in memo' && i !in m0 ensures Closed(s, rank, memo', store', i) {
      if i != x {
        ClosedStable(s, rank, memo, memo', store, store', i);
      } else {
        FinishedTuple(s, rank, memo', store', x);
      }
    }
  }

  lemma FinishedTuple(s: Store, rank: map<Id, nat>, memo: map<Id, Id>, store: Store, x: Id)
    requires WellFormed(s, rank) && x in s && s[x].Tuple? && x in memo && memo[x] in store
    requires AllSettled(s, rank, memo, s[x].items) && store[memo[x]] == Tuple(Images(memo, s[x].items))
    ensures Closed(s, rank, memo, store, x)
  {
  }

  predicate Longer(t: seq<Id>, u: seq<Id>) {
    t <= u
  }

  lemma LongerCall(t: seq<Id>, u: seq<Id>, x: Id, v: seq<Id>)
    requires Longer(t, u) && Longer(u + [x], v)
    ensures Longer(t, v) && |u| < |v| && v[|u|] == x
  {
    assert (u + [x])[|u|] == x;
  }

  lemma StillLong(t: seq<Id>)
    ensures Longer(t, t)
  {
  }

  lemma LongerTransitive(t: seq<Id>, u: seq<Id>, v: seq<Id>)
    requires Longer(t, u) && Longer(u, v)
    ensures Longer(t, v)
  {
  }

  /** A call for `v` and then one for `k`. */
  lemma TwoCalls(t: seq<Id>, v: Id, u: seq<Id>, k: Id, w: seq<Id>)
    requires Longer(t + [v], u) && Longer(u + [k], w)
    ensures Longer(t, w) && CalledAfter(w, |t|, v, k)
  {
    assert (t + [v])[|t|] == v;
    LongerCall(t, t, v, u);
    LongerCall(t, u, k, w);
    assert w[|t|] == u[|t|] == v;
  }

  /** The call number `from` is for `v`, and a later one for `k`. */
  ghost predicate CalledAfter(trail: seq<Id>, from: nat, v: Id, k: Id) {
    from < |trail| && trail[from] == v && exists i | from < i < |trail| :: trail[i] == k
  }

  // ---------- the recursion ----------

  class Copier {
    ghost const origin: Store
    ghost const rank: map<Id, nat>
    var store: Store
    var memo: map<Id, Id>
    var next: Id
    /** The objects whose copy was asked for, in the order of the calls. */
    ghost var trail: seq<Id>

    ghost predicate Valid()
      reads this
    {
      StateOk(origin, rank, memo, store, next)
    }

    constructor (store: Store, ghost rank: map<Id, nat>, next: Id)
      requires WellFormed(store, rank) && forall i | i in store :: i < next
      ensures Valid() && origin == store && this.rank == rank && this.store == store && memo == map[]
    {
      this.origin, this.rank, this.store, this.memo, this.next := store, rank, store, map[], next;
      trail := [];
    }

    /** The copy of `x`: from the memo, or made now; `x` itself where it is an atom or a tuple of such. */
    method DeepCopy(x: Id) returns (y: Id)
      requires Valid() && x in origin && x in rank
      modifies this
      ensures Valid() && Progress(origin, rank, old(memo), old(store), memo, store, {})
      ensures Settled(origin, rank, memo, x) && y == Image(memo, x)
      ensures Longer(old(trail) + [x], trail)
      decreases Unseen(origin, memo), rank[x], 2
    {
      hide StateOk, WellFormed, Progress, Settled, Closed, Pure, MemoOk, Extends, Longer;
      trail := trail + [x];
      StillLong(trail);
      StateParts(origin, rank, memo, store, next);
      NoProgress(origin, rank, memo, store);
      if x in memo {
        KnownCopied(origin, rank, memo, x);
        return memo[x];
      }
      SameObject(origin, store, x);
      match store[x] {
        case Atom(_) =>
          KnownPure(origin, rank, memo, x);
          y := x;
        case List(items) =>
          y := CopyList(x, items);
          KnownCopied(origin, rank, memo, x);
        case Dict(entries) =>
          y := CopyDict(x, entries);
          KnownCopied(origin, rank, memo, x);
        case Tuple(items) =>
          y := CopyTuple(x, items);
          AfterTuple(origin, rank, memo, x, y);
      }
      if y != x {
        memo := memo[x := y];
      }
    }

    /** The copy is the first object made, before anything its items need, and ends up with their images. */
    method CopyList(x: Id, items: seq<Id>) returns (y: Id)
      requires Valid() && x in origin && x in rank && x !in memo && origin[x] == List(items)
      modifies this
      ensures Valid() && Progress(origin, rank, old(memo), old(store), memo, store, {})
      ensures x in memo && y == memo[x] && y != x
      ensures y == old(next) && y in store && store[y] == List(Images(memo, items))
      ensures Longer(old(trail), trail)
      decreases Unseen(origin, memo), rank[x], 0
    {
      hide StateOk, WellFormed, Progress, Settled, Closed, Longer;
      OpenCopy(origin, rank, memo, store, next, x, List([]));
      y := next;
      store, next := store[y := List([])], next + 1;
      memo := memo[x := y];
      StateParts(origin, rank, memo, store, next);
      assert Longer(old(trail), trail) by { StillLong(trail); }
      var k := 0;
      while k < |items|
        invariant 0 <= k <= |items| && Valid() && Longer(old(trail), trail)
        invariant Progress(origin, rank, old(memo), old(store), memo, store, {x})
        invariant x in memo && y == memo[x] && y in store && y !in old(store) && y != x
        invariant WellFormed(origin, rank) && AllSettled(origin, rank, memo, items[..k])
        invariant store[y] == List(Images(memo, items[..k]))
      {
        ghost var memo1, store1, trail1 := memo, store, trail;
        ChildKnown(origin, rank, x, k);
        UnseenAfter(origin, rank, old(memo), old(store), memo, store, {x});
        var item := DeepCopy(items[k]);
        LongerCall(old(trail), trail1, items[k], trail);
        StateParts(origin, rank, memo, store, next);
        ProgressOn(origin, rank, old(memo), old(store), memo1, store1, memo, store, {x});
        ProgressParts(origin, rank, memo1, store1, memo, store, {});
        NextItem(origin, rank, memo1, memo, store, items, k);
        FillCopy(origin, rank, old(memo), old(store), memo, store, next, x, List(store[y].items + [item]));
        store := store[y := List(store[y].items + [item])];
        k := k + 1;
      }
      assert items[..k] == items;
      FinishedList(origin, rank, memo, store, x);
      CloseCopy(origin, rank, old(memo), old(store), memo, store, x);
    }

    /** Likewise, with the images of keys and values. */
    method CopyDict(x: Id, entries: seq<(Id, Id)>) returns (y: Id)
      requires Valid() && x in origin && x in rank && x !in memo && origin[x] == Dict(entries)
      modifies this
      ensures Valid() && Progress(origin, rank, old(memo), old(store), memo, store, {})
      ensures x in memo && y == memo[x] && y != x
      ensures y == old(next) && y in store && store[y] == Dict(EntryImages(memo, entries))
      ensures Longer(old(trail), trail)
      decreases Unseen(origin, memo), rank[x], 0
    {
      hide StateOk, WellFormed, Progress, Settled, Closed, Longer, CalledAfter;
      OpenCopy(origin, rank, memo, store, next, x, Dict([]));
      y := next;
      store, next := store[y := Dict([])], next + 1;
      memo := memo[x := y];
      StateParts(origin, rank, memo, store, next);
      assert Longer(old(trail), trail) by { StillLong(trail); }
      var k := 0;
      while k < |entries|
        invariant 0 <= k <= |entries| && Valid() && Longer(old(trail), trail)
        invariant Progress(origin, rank, old(memo), old(store), memo, store, {x})
        invariant x in memo && y == memo[x] && y in store && y !in old(store) && y != x
        invariant WellFormed(origin, rank) && AllSettled(origin, rank, memo, Flat(entries[..k]))
        invariant store[y] == Dict(EntryImages(memo, entries[..k]))
      {
        ghost var memo1, store1, trail1 := memo, store, trail;
        EntryKnown(origin, rank, x, k);
        UnseenAfter(origin, rank, old(memo), old(store), memo, store, {x});
        var key, value := CopyEntry(entries[k].0, entries[k].1);
        LongerTransitive(old(trail), trail1, trail);
        StateParts(origin, rank, memo, store, next);
        ProgressOn(origin, rank, old(memo), old(store), memo1, store1, memo, store, {x});
        ProgressParts(origin, rank, memo1, store1, memo, store, {});
        NextEntry(origin, rank, memo1, memo, store, entries, k);
        FillCopy(origin, rank, old(memo), old(store), memo, store, next, x, Dict(store[y].entries + [(key, value)]));
        store := store[y := Dict(store[y].entries + [(key, value)])];
        k := k + 1;
      }
      assert entries[..k] == entries;
      FinishedDict(origin, rank, memo, store, x);
      CloseCopy(origin, rank, old(memo), old(store), memo, store, x);
    }

    /** Copies the value and then the key, in this order. */
    method CopyEntry(k: Id, v: Id) returns (key: Id, value: Id)
      requires Valid() && k in origin && k in rank && v in origin && v in rank
      modifies this
      ensures Valid() && Progress(origin, rank, old(memo), old(store), memo, store, {})
      ensures Settled(origin, rank, memo, k) && Settled(origin, rank, memo, v)
      ensures key == Image(memo, k) && value == Image(memo, v)
      ensures Longer(old(trail), trail) && CalledAfter(trail, |old(trail)|, v, k)
      decreases Unseen(origin, memo), rank[k] + rank[v] + 1, 0
    {
      hide StateOk, WellFormed, Progress, Settled, Closed, MemoOk, Image, Longer, CalledAfter;
      value := DeepCopy(v);
      ghost var memo1, store1, trail1 := memo, store, trail;
      StateParts(origin, rank, memo, store, next);
      UnseenAfter(origin, rank, old(memo), old(store), memo, store, {});
      key := DeepCopy(k);
      TwoCalls(old(trail), v, trail1, k, trail);
      StateParts(origin, rank, memo, store, next);
      ProgressOn(origin, rank, old(memo), old(store), memo1, store1, memo, store, {});
      ProgressParts(origin, rank, memo1, store1, memo, store, {});
      ImageStable(origin, rank, memo1, memo, store, v);
    }

    /** The list comprehension over the items of a tuple. */
    method CopyItems(x: Id, items: seq<Id>) returns (copied: seq<Id>)
      requires Valid() && x in origin && x in rank && origin[x] == Tuple(items)
      modifies this
      ensures Valid() && WellFormed(origin, rank) && Progress(origin, rank, old(memo), old(store), memo, store, {})
      ensures AllSettled(origin, rank, memo, items) && copied == Images(memo, items)
      ensures Longer(old(trail), trail)
      decreases Unseen(origin, memo), rank[x], 0
    {
      hide StateOk, WellFormed, Progress, Settled, Closed, MemoOk, Longer;
      StateParts(origin, rank, memo, store, next);
      NoProgress(origin, rank, memo, store);
      copied := [];
      assert Longer(old(trail), trail) by { StillLong(trail); }
      var k := 0;
      while k < |items|
        invariant 0 <= k <= |items| && Valid() && WellFormed(origin, rank) && Longer(old(trail), trail)
        invariant Progress(origin, rank, old(memo), old(store), memo, store, {})
        invariant AllSettled(origin, rank, memo, items[..k]) && copied == Images(memo, items[..k])
      {
        ghost var memo1, store1, trail1 := memo, store, trail;
        ChildKnown(origin, rank, x, k);
        UnseenAfter(origin, rank, old(memo), old(store), memo, store, {});
        var item := DeepCopy(items[k]);
        LongerCall(old(trail), trail1, items[k], trail);
        StateParts(origin, rank, memo, store, next);
        ProgressOn(origin, rank, old(memo), old(store), memo1, store1, memo, store, {});
        ProgressParts(origin, rank, memo1, store1, memo, store, {});
        NextItem(origin, rank, memo1, memo, store, items, k);
        copied := copied + [item];
        k := k + 1;
      }
      assert items[..k] == items;
    }

    /**
     Copies the items first. The tuple may have been copied meanwhile, from inside one of its items; then that copy
     stands. Otherwise a new tuple is built if an item differs from its copy, and is ready to enter the memo.
     */
    method CopyTuple(x: Id, items: seq<Id>) returns (y: Id)
      requires Valid() && x in origin && x in rank && x !in memo && origin[x] == Tuple(items)
      modifies this
      ensures WellFormed(origin, rank)
      ensures TupleOutcome(origin, rank, old(memo), old(store), memo, store, next, x, y)
      ensures y == x <==> !ReachesMutable(origin, x)
      ensures Longer(old(trail), trail)
      decreases Unseen(origin, memo), rank[x], 1
    {
      hide StateOk, WellFormed, Progress, Settled, AllSettled, Closed, Pure, MemoOk, Image, Longer, ReachesMutable;
      var copied := CopyItems(x, items);
      if x in memo {
        CopiedReaches(origin, rank, memo, store, next, x);
        return memo[x];
      }
      StateParts(origin, rank, memo, store, next);
      var k := 0;
      while k < |items|
        invariant 0 <= k <= |items| && forall j | 0 <= j < k :: items[j] == copied[j]
      {
        if items[k] != copied[k] {
          TupleIsNotPure(origin, rank, memo, store, x, k);
          EnterTuple(origin, rank, old(memo), old(store), memo, store, next, x);
          y := next;
          store, next := store[y := Tuple(copied)], next + 1;
          CopiedReaches(origin, rank, memo[x := y], store, next, x);
          return;
        }
        k := k + 1;
      }
      assert copied == items;
      TupleIsPure(origin, rank, memo, store, x);
      PureIff(origin, rank, x);
      y := x;
    }
  }

  /** Copied from inside; or needing no copy; or built anew and ready to enter the memo. */
  predicate TupleOutcome(s: Store, rank: map<Id, nat>, m0: map<Id, Id>, s0: Store, memo: map<Id, Id>, store: Store,
                         next: Id,
                         x: Id, y: Id)
    requires WellFormed(s, rank) && x in s
  {
    if x in memo then
      y == memo[x] && y != x && StateOk(s, rank, memo, store, next) && Progress(s, rank, m0, s0, memo, store, {})
    else if y == x then
      Pure(s, rank, x) && StateOk(s, rank, memo, store, next) && Progress(s, rank, m0, s0, memo, store, {})
    else
      StateOk(s, rank, memo[x := y], store, next) && Progress(s, rank, m0, s0, memo[x := y], store, {})
  }

  lemma KnownCopied(s: Store, rank: map<Id, nat>, memo: map<Id, Id>, x: Id)
    requires WellFormed(s, rank) && x in s && x in memo
    ensures Settled(s, rank, memo, x) && Image(memo, x) == memo[x] && memo[x := memo[x]] == memo
  {
  }

  lemma KnownPure(s: Store, rank: map<Id, nat>, memo: map<Id, Id>, x: Id)
    requires WellFormed(s, rank) && x in s && (s[x].Atom? || Pure(s, rank, x)) && x !in memo
    ensures Settled(s, rank, memo, x) && Image(memo, x) == x
  {
  }

  lemma AfterTuple(s: Store, rank: map<Id, nat>, memo: map<Id, Id>, x: Id, y: Id)
    requires WellFormed(s, rank) && x in s && (x in memo ==> y == memo[x])
             && (x !in memo && y == x ==> Pure(s, rank, x))
    ensures var memo' := if y != x then memo[x := y] else memo;
            Settled(s, rank, memo', x) && Image(memo', x) == y && (x in memo ==> memo' == memo)
  {
  }

  lemma SameObject(s: Store, store: Store, x: Id)
    requires Extends(s, store) && x in s
    ensures x in store && store[x] == s[x]
  {
  }

  lemma StateParts(s: Store, rank: map<Id, nat>, memo: map<Id, Id>, store: Store, next: Id)
    requires StateOk(s, rank, memo, store, next)
    ensures WellFormed(s, rank) && MemoOk(s, rank, memo, store) && Extends(s, store)
  {
  }

  lemma ProgressParts(s: Store, rank: map<Id, nat>, memo: map<Id, Id>, store: Store, memo': map<Id, Id>,
                      store': Store, open: set<Id>)
    requires WellFormed(s, rank) && Progress(s, rank, memo, store, memo', store', open)
    ensures Extends(memo, memo') && Extends(store, store')
  {
  }

  /** What has a copy is not its own copy, and something mutable can be reached from it. */
  lemma CopiedReaches(s: Store, rank: map<Id, nat>, memo: map<Id, Id>, store: Store, next: Id, x: Id)
    requires StateOk(s, rank, memo, store, next) && x in memo
    ensures memo[x] != x && ReachesMutable(s, x)
  {
    PureIff(s, rank, x);
    hide ReachesMutable, Pure;
  }

  lemma EntryKnown(s: Store, rank: map<Id, nat>, x: Id, k: nat)
    requires WellFormed(s, rank) && x in s && s[x].Dict? && k < |s[x].entries|
    ensures var e := s[x].entries[k]; e.0 in s && e.0 in rank && e.1 in s && e.1 in rank
  {
    FlatAt(s[x].entries, k);
    ChildKnown(s, rank, x, 2 * k);
    ChildKnown(s, rank, x, 2 * k + 1);
  }

  lemma FinishedList(s: Store, rank: map<Id, nat>, memo: map<Id, Id>, store: Store, x: Id)
    requires WellFormed(s, rank) && x in s && s[x].List? && x in memo && memo[x] in store
    requires AllSettled(s, rank, memo, s[x].items) && store[memo[x]] == List(Images(memo, s[x].items))
    ensures Closed(s, rank, memo, store, x)
  {
  }

  lemma FinishedDict(s: Store, rank: map<Id, nat>, memo: map<Id, Id>, store: Store, x: Id)
    requires WellFormed(s, rank) && x in s && s[x].Dict? && x in memo && memo[x] in store
    requires AllSettled(s, rank, memo, Flat(s[x].entries)) && store[memo[x]] == Dict(EntryImages(memo, s[x].entries))
    ensures Closed(s, rank, memo, store, x)
  {
  }

  lemma AllFinished(s: Store, rank: map<Id, nat>, memo: map<Id, Id>, store: Store, next: Id)
    requires StateOk(s, rank, memo, store, next) && Progress(s, rank, map[], s, memo, store, {})
    ensures AllClosed(s, rank, memo, store)
  {
  }

  /** `deepcopy(x)` with a memo of its own, on any graph of lists, dictionaries, tuples and atoms. */
  method DeepCopyGraph(store: Store, ghost rank: map<Id, nat>, next: Id, x: Id) returns (store': Store, y: Id)
    requires WellFormed(store, rank) && x in store && forall i | i in store :: i < next
    ensures IsDeepCopy(store, x, store', y)
  {
    var copier := new Copier(store, rank, next);
    assert x in rank;
    hide StateOk, WellFormed, Progress, IsDeepCopy, AllClosed, Settled, Image;
    y := copier.DeepCopy(x);
    store' := copier.store;
    AllFinished(store, rank, copier.memo, store', copier.next);
    FinishedIsDeep(store, rank, copier.memo, store', x);
  }
}
