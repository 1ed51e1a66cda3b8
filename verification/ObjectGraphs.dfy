/**
 `copy.py`: object graphs with sharing and cycles, and what it means that one part of a store is a copy of another.
 */
module ObjectGraphs {

  type Id = nat

  /** Objects refer to others by identity. Atoms and tuples cannot change; lists and dictionaries can. */
  datatype Obj = Atom(value: int) | List(items: seq<Id>) | Tuple(items: seq<Id>) | Dict(entries: seq<(Id, Id)>)

  type Store = map<Id, Obj>

  predicate IsMutable(o: Obj) {
    o.List? || o.Dict?
  }

  /** The identities in an object; in a dictionary each key is followed by its value. */
  function Children(o: Obj): (r: seq<Id>) {
    match o
    case Atom(_) => []
    case List(items) => items
    case Tuple(items) => items
    case Dict(entries) => Flat(entries)
  }

  function Flat(entries: seq<(Id, Id)>): (r: seq<Id>) {
    if entries == [] then [] else Flat(entries[..|entries| - 1]) + [entries[|entries| - 1].0, entries[|entries| - 1].1]
  }

  /**
   Every reference leads somewhere, and no chain of tuples returns to its start: a tuple ranks above the tuples it
   contains, and everything else has rank zero.
   */
  predicate WellFormed(s: Store, rank: map<Id, nat>) {
    && (forall i | i in s :: i in rank && (rank[i] > 0 <==> s[i].Tuple?))
    && forall i | i in s :: forall k | 0 <= k < |Children(s[i])| :: ChildOk(s, rank, i, Children(s[i])[k])
  }

  predicate ChildOk(s: Store, rank: map<Id, nat>, i: Id, c: Id) {
    c in s && (i in s && i in rank && c in rank && s[i].Tuple? ==> rank[c] < rank[i])
  }

  /** An atom, or a tuple of such: what needs no copy. */
  predicate Pure(s: Store, rank: map<Id, nat>, i: Id)
    requires WellFormed(s, rank) && i in s
    decreases rank[i]
  {
    match s[i]
    case Atom(_) => true
    case Tuple(items) =>
      forall k | 0 <= k < |items| :: ChildOk(s, rank, i, Children(s[i])[k]) && Pure(s, rank, items[k])
    case _ => false
  }

  // ---------- images under a memo ----------

  /** The copy of an object, or the object itself where it needs none. */
  function Image(memo: map<Id, Id>, i: Id): (r: Id) {
    if i in memo then memo[i] else i
  }

  function Images(memo: map<Id, Id>, s: seq<Id>): (r: seq<Id>)
    ensures |r| == |s| && forall k | 0 <= k < |s| :: r[k] == Image(memo, s[k])
  {
    seq(|s|, k requires 0 <= k < |s| => Image(memo, s[k]))
  }

  function EntryImages(memo: map<Id, Id>, s: seq<(Id, Id)>): (r: seq<(Id, Id)>)
    ensures |r| == |s| && forall k | 0 <= k < |s| :: r[k] == (Image(memo, s[k].0), Image(memo, s[k].1))
  {
    seq(|s|, k requires 0 <= k < |s| => (Image(memo, s[k].0), Image(memo, s[k].1)))
  }

  /** The object with the same contents, each replaced by its image. */
  function ImageOf(memo: map<Id, Id>, o: Obj): (r: Obj) {
    match o
    case Atom(_) => o
    case List(items) => List(Images(memo, items))
    case Tuple(items) => Tuple(Images(memo, items))
    case Dict(entries) => Dict(EntryImages(memo, entries))
  }

  lemma {:induction false} FlatImages(memo: map<Id, Id>, entries: seq<(Id, Id)>)
    ensures Flat(EntryImages(memo, entries)) == Images(memo, Flat(entries))
  {
    if entries != [] {
      var n := |entries| - 1;
      FlatImages(memo, entries[..n]);
      assert EntryImages(memo, entries)[..n] == EntryImages(memo, entries[..n]);
    }
  }

  lemma ChildrenOfImage(memo: map<Id, Id>, o: Obj)
    ensures Children(ImageOf(memo, o)) == Images(memo, Children(o))
  {
    if o.Dict? {
      FlatImages(memo, o.entries);
    }
  }

  /** Nothing more is needed to know the image of `c`. */
  predicate Settled(s: Store, rank: map<Id, nat>, memo: map<Id, Id>, c: Id)
    requires WellFormed(s, rank)
  {
    c in s && (Pure(s, rank, c) || c in memo)
  }

  predicate AllSettled(s: Store, rank: map<Id, nat>, memo: map<Id, Id>, cs: seq<Id>)
    requires WellFormed(s, rank)
  {
    forall k | 0 <= k < |cs| :: Settled(s, rank, memo, cs[k])
  }

  /** The copy of `i` is finished: it is the image of the original, whose contents are all settled. */
  predicate Closed(s: Store, rank: map<Id, nat>, memo: map<Id, Id>, store: Store, i: Id)
    requires WellFormed(s, rank)
  {
    && i in s && i in memo && memo[i] in store && AllSettled(s, rank, memo, Children(s[i]))
    && store[memo[i]] == ImageOf(memo, s[i])
  }

  /** Each copy is a new object of its own, and only what needs a copy has one. */
  predicate MemoOk(s: Store, rank: map<Id, nat>, memo: map<Id, Id>, store: Store)
    requires WellFormed(s, rank)
  {
    && (forall i | i in memo :: i in s && !Pure(s, rank, i) && memo[i] in store && memo[i] !in s)
    && forall i, j | i in memo && j in memo && i != j :: memo[i] != memo[j]
  }

  predicate Extends<K, V(==)>(m: map<K, V>, m': map<K, V>) {
    forall k | k in m :: k in m' && m'[k] == m[k]
  }

  /** The images of settled objects stay what they are when the memo grows. */
  lemma ImageStable(s: Store, rank: map<Id, nat>, memo: map<Id, Id>, memo': map<Id, Id>, store': Store, c: Id)
    requires WellFormed(s, rank) && MemoOk(s, rank, memo', store') && Extends(memo, memo') && Settled(s, rank, memo, c)
    ensures Settled(s, rank, memo', c) && Image(memo', c) == Image(memo, c)
  {
  }

  lemma ImagesStable(s: Store, rank: map<Id, nat>, memo: map<Id, Id>, memo': map<Id, Id>, store': Store, cs: seq<Id>)
    requires WellFormed(s, rank) && MemoOk(s, rank, memo', store') && Extends(memo, memo')
             && AllSettled(s, rank, memo, cs)
    ensures AllSettled(s, rank, memo', cs) && Images(memo', cs) == Images(memo, cs)
  {
    hide WellFormed, MemoOk, Extends, Settled, Image;
    forall k | 0 <= k < |cs| ensures Settled(s, rank, memo', cs[k]) && Image(memo', cs[k]) == Image(memo, cs[k]) {
      ImageStable(s, rank, memo, memo', store', cs[k]);
    }
  }

  lemma {:induction false} FlatAt(entries: seq<(Id, Id)>, k: nat)
    requires k < |entries|
    ensures |Flat(entries)| == 2 * |entries|
    ensures Flat(entries)[2 * k] == entries[k].0 && Flat(entries)[2 * k + 1] == entries[k].1
  {
    var n := |entries| - 1;
    if k < n {
      FlatAt(entries[..n], k);
    } else if n > 0 {
      FlatAt(entries[..n], 0);
    }
  }

  lemma EntriesStable(memo: map<Id, Id>, memo': map<Id, Id>, entries: seq<(Id, Id)>)
    requires Images(memo', Flat(entries)) == Images(memo, Flat(entries))
    ensures EntryImages(memo', entries) == EntryImages(memo, entries)
  {
    forall k | 0 <= k < |entries| ensures EntryImages(memo', entries)[k] == EntryImages(memo, entries)[k] {
      FlatAt(entries, k);
      assert Images(memo', Flat(entries))[2 * k] == Images(memo, Flat(entries))[2 * k];
      assert Images(memo', Flat(entries))[2 * k + 1] == Images(memo, Flat(entries))[2 * k + 1];
    }
  }

  lemma ClosedStable(s: Store, rank: map<Id, nat>, memo: map<Id, Id>, memo': map<Id, Id>, store: Store, store': Store,
                     i: Id)
    requires WellFormed(s, rank) && MemoOk(s, rank, memo', store') && Extends(memo, memo') && Extends(store, store')
    requires Closed(s, rank, memo, store, i)
    ensures Closed(s, rank, memo', store', i)
  {
    hide WellFormed, MemoOk, Settled, Image, Images, EntryImages, AllSettled;
    ImagesStable(s, rank, memo, memo', store', Children(s[i]));
    if s[i].Dict? {
      EntriesStable(memo, memo', s[i].entries);
    }
  }

  // ---------- a copy of a whole graph ----------

  /** Where a path of child positions leads from `i`. */
  function Follow(s: Store, i: Id, path: seq<nat>): (r: seq<Id>)
    ensures |r| <= 1
    decreases path
  {
    if i !in s then []
    else if path == [] then [i]
    else if path[0] < |Children(s[i])| then Follow(s, Children(s[i])[path[0]], path[1..])
    else []
  }

  /** Every copy is finished. */
  predicate AllClosed(s: Store, rank: map<Id, nat>, memo: map<Id, Id>, store: Store)
    requires WellFormed(s, rank)
  {
    MemoOk(s, rank, memo, store) && Extends(s, store) && forall i | i in memo :: Closed(s, rank, memo, store, i)
  }

  lemma PureChildren(s: Store, rank: map<Id, nat>, i: Id, k: nat)
    requires WellFormed(s, rank) && i in s && Pure(s, rank, i) && k < |Children(s[i])|
    ensures Children(s[i])[k] in s && Pure(s, rank, Children(s[i])[k])
  {
  }

  /** What stands at the end of corresponding references: the same kind of object, with corresponding contents. */
  lemma ImageObject(s: Store, rank: map<Id, nat>, memo: map<Id, Id>, store: Store, i: Id)
    requires WellFormed(s, rank) && AllClosed(s, rank, memo, store) && Settled(s, rank, memo, i)
    ensures Image(memo, i) in store && store[Image(memo, i)] == ImageOf(memo, s[i])
    ensures AllSettled(s, rank, memo, Children(s[i]))
  {
    if i in memo {
      assert Closed(s, rank, memo, store, i);
    } else {
      forall k | 0 <= k < |Children(s[i])|
        ensures Settled(s, rank, memo, Children(s[i])[k]) && Image(memo, Children(s[i])[k]) == Children(s[i])[k]
      {
        PureChildren(s, rank, i, k);
      }
      PureImage(s, rank, memo, i);
    }
  }

  lemma PureImage(s: Store, rank: map<Id, nat>, memo: map<Id, Id>, i: Id)
    requires WellFormed(s, rank) && i in s && Pure(s, rank, i)
    requires forall k | 0 <= k < |Children(s[i])| :: Image(memo, Children(s[i])[k]) == Children(s[i])[k]
    ensures ImageOf(memo, s[i]) == s[i]
  {
    if s[i].Tuple? {
      assert Images(memo, s[i].items) == s[i].items;
    }
  }

  /** The copy has the shape of the original: every path leads to the image of where it leads in the original. */
  lemma {:induction false} SameShape(s: Store, rank: map<Id, nat>, memo: map<Id, Id>, store: Store, x: Id,
                                     path: seq<nat>)
    requires WellFormed(s, rank) && AllClosed(s, rank, memo, store) && Settled(s, rank, memo, x)
    ensures Follow(store, Image(memo, x), path) == Images(memo, Follow(s, x, path))
    ensures forall k | 0 <= k < |Follow(s, x, path)| :: Settled(s, rank, memo, Follow(s, x, path)[k])
    decreases path
  {
    hide WellFormed, AllClosed, Settled, Children, ImageOf;
    SettledIn(s, rank, memo, x);
    ImageObject(s, rank, memo, store, x);
    ChildrenOfImage(memo, s[x]);
    if path != [] && path[0] < |Children(s[x])| {
      SameShape(s, rank, memo, store, Children(s[x])[path[0]], path[1..]);
    }
  }

  /** At the end of a path stands the same kind of object, with the same value or with corresponding contents. */
  lemma SameObjects(s: Store, rank: map<Id, nat>, memo: map<Id, Id>, store: Store, x: Id, path: seq<nat>)
    requires WellFormed(s, rank) && AllClosed(s, rank, memo, store) && Settled(s, rank, memo, x)
    requires Follow(s, x, path) != []
    ensures var i := Follow(s, x, path)[0];
            i in s && Follow(store, Image(memo, x), path) == [Image(memo, i)]
            && Image(memo, i) in store && store[Image(memo, i)] == ImageOf(memo, s[i])
  {
    hide WellFormed, AllClosed, Follow, Settled;
    SameShape(s, rank, memo, store, x, path);
    var there := Follow(s, x, path);
    SettledIn(s, rank, memo, there[0]);
    ImageObject(s, rank, memo, store, there[0]);
    assert there == [there[0]];
    assert Images(memo, there) == [Image(memo, there[0])];
  }

  lemma SettledIn(s: Store, rank: map<Id, nat>, memo: map<Id, Id>, x: Id)
    requires WellFormed(s, rank) && Settled(s, rank, memo, x)
    ensures x in s
  {
  }

  lemma ImageInjective(s: Store, rank: map<Id, nat>, memo: map<Id, Id>, store: Store, i: Id, j: Id)
    requires WellFormed(s, rank) && MemoOk(s, rank, memo, store) && i in s && j in s
    ensures Image(memo, i) == Image(memo, j) <==> i == j
  {
  }

  /** Sharing and cycles are kept: two paths meet in the copy exactly when they meet in the original. */
  lemma SameSharing(s: Store, rank: map<Id, nat>, memo: map<Id, Id>, store: Store, x: Id, p: seq<nat>, q: seq<nat>)
    requires WellFormed(s, rank) && AllClosed(s, rank, memo, store) && Settled(s, rank, memo, x)
    requires Follow(s, x, p) != [] && Follow(s, x, q) != []
    ensures Follow(store, Image(memo, x), p) == Follow(store, Image(memo, x), q) <==> Follow(s, x, p) == Follow(s, x, q)
  {
    hide WellFormed, Follow;
    SameShape(s, rank, memo, store, x, p);
    SameShape(s, rank, memo, store, x, q);
    var i, j := Follow(s, x, p)[0], Follow(s, x, q)[0];
    SettledIn(s, rank, memo, i);
    SettledIn(s, rank, memo, j);
    ImageInjective(s, rank, memo, store, i, j);
    assert Follow(s, x, p) == [i] && Follow(s, x, q) == [j];
    assert Images(memo, [i])[0] == Image(memo, i) && Images(memo, [j])[0] == Image(memo, j);
  }

  /** No path in the copy leads to an original list or dictionary. */
  lemma NothingMutableShared(s: Store, rank: map<Id, nat>, memo: map<Id, Id>, store: Store, x: Id, path: seq<nat>)
    requires WellFormed(s, rank) && AllClosed(s, rank, memo, store) && Settled(s, rank, memo, x)
    ensures forall j | j in Follow(store, Image(memo, x), path) && j in s :: Pure(s, rank, j) && !IsMutable(s[j])
  {
    hide WellFormed, Follow;
    SameShape(s, rank, memo, store, x, path);
    var there := Follow(s, x, path);
    forall j | j in Follow(store, Image(memo, x), path) && j in s ensures Pure(s, rank, j) && !IsMutable(s[j]) {
      var i := there[0];
      assert j == Images(memo, there)[0] == Image(memo, i);
      assert Settled(s, rank, memo, i);
    }
  }

  // ---------- what is left as it is ----------

  predicate MutableAt(s: Store, i: Id, path: seq<nat>) {
    exists j | j in Follow(s, i, path) :: j in s && IsMutable(s[j])
  }

  /** Some path leads to a list or dictionary. */
  ghost predicate ReachesMutable(s: Store, i: Id) {
    exists path: seq<nat> :: MutableAt(s, i, path)
  }

  lemma {:induction false} PureReachesNothing(s: Store, rank: map<Id, nat>, i: Id, path: seq<nat>)
    requires WellFormed(s, rank) && i in s && Pure(s, rank, i)
    ensures !MutableAt(s, i, path)
    decreases path
  {
    if path != [] && path[0] < |Children(s[i])| {
      PureChildren(s, rank, i, path[0]);
      PureReachesNothing(s, rank, Children(s[i])[path[0]], path[1..]);
    }
  }

  lemma ImpureReaches(s: Store, rank: map<Id, nat>, i: Id) returns (path: seq<nat>)
    requires WellFormed(s, rank) && i in s && !Pure(s, rank, i)
    ensures MutableAt(s, i, path)
    decreases rank[i]
  {
    if IsMutable(s[i]) {
      path := [];
      assert i in Follow(s, i, path);
    } else {
      var k := ImpureItem(s, rank, i);
      var rest := ImpureReaches(s, rank, s[i].items[k]);
      path := [k] + rest;
      assert path[1..] == rest;
      assert Follow(s, i, path) == Follow(s, s[i].items[k], rest);
    }
  }

  lemma ImpureItem(s: Store, rank: map<Id, nat>, i: Id) returns (k: nat)
    requires WellFormed(s, rank) && i in s && !Pure(s, rank, i) && !IsMutable(s[i])
    ensures s[i].Tuple? && k < |s[i].items|
    ensures var c := s[i].items[k]; c in s && rank[c] < rank[i] && !Pure(s, rank, c)
  {
    var items := s[i].items;
    assert forall k | 0 <= k < |items| :: ChildOk(s, rank, i, Children(s[i])[k]);
    k :| 0 <= k < |items| && !Pure(s, rank, items[k]);
  }

  /** An object needs no copy exactly when no path from it leads to a list or dictionary. */
  lemma PureIff(s: Store, rank: map<Id, nat>, i: Id)
    requires WellFormed(s, rank) && i in s
    ensures Pure(s, rank, i) <==> !ReachesMutable(s, i)
  {
    hide MutableAt;
    if Pure(s, rank, i) {
      forall path: seq<nat> ensures !MutableAt(s, i, path) {
        PureReachesNothing(s, rank, i, path);
      }
    } else {
      var path := ImpureReaches(s, rank, i);
    }
  }

  // ---------- the promise ----------

  predicate SameKind(o: Obj, o': Obj) {
    && (o.Atom? ==> o' == o) && (o.List? <==> o'.List?) && (o.Tuple? <==> o'.Tuple?) && (o.Dict? <==> o'.Dict?)
    && |Children(o)| == |Children(o')|
  }

  /**
   `y` in the store `s'` is a deep copy of `x` in `s`: nothing that existed changed; the same paths lead somewhere, to
   the same kinds of objects; paths meet in the copy exactly where they meet in the original, so sharing and cycles
   are the same; no path leads to a list or dictionary of the original; and an object is left as it is, instead of
   being copied, exactly when no list or dictionary can be reached from it.
   */
  ghost predicate IsDeepCopy(s: Store, x: Id, s': Store, y: Id) {
    && Extends(s, s')
    && (forall p: seq<nat> :: SamePlace(s, x, s', y, p))
    && (forall p: seq<nat>, q: seq<nat> :: SameMeeting(s, x, s', y, p, q))
    && (forall p: seq<nat> :: NoMutableAt(s, s', y, p))
    && (forall p: seq<nat> :: LeftAloneAt(s, x, s', y, p))
  }

  predicate SamePlace(s: Store, x: Id, s': Store, y: Id, p: seq<nat>) {
    var i, j := Follow(s, x, p), Follow(s', y, p);
    (i == [] <==> j == []) && (i != [] ==> i[0] in s && j[0] in s' && SameKind(s[i[0]], s'[j[0]]))
  }

  predicate SameMeeting(s: Store, x: Id, s': Store, y: Id, p: seq<nat>, q: seq<nat>) {
    Follow(s, x, p) != [] && Follow(s, x, q) != [] ==>
      (Follow(s', y, p) == Follow(s', y, q) <==> Follow(s, x, p) == Follow(s, x, q))
  }

  predicate NoMutableAt(s: Store, s': Store, y: Id, p: seq<nat>) {
    forall j | j in Follow(s', y, p) && j in s :: !IsMutable(s[j])
  }

  ghost predicate LeftAloneAt(s: Store, x: Id, s': Store, y: Id, p: seq<nat>) {
    forall i | i in Follow(s, x, p) :: Follow(s', y, p) == [i] <==> !ReachesMutable(s, i)
  }

  /** At the end of every path the original object stands exactly when nothing mutable can be reached from it. */
  lemma LeftAlone(s: Store, rank: map<Id, nat>, memo: map<Id, Id>, store: Store, x: Id, p: seq<nat>)
    requires WellFormed(s, rank) && AllClosed(s, rank, memo, store) && Settled(s, rank, memo, x)
    ensures LeftAloneAt(s, x, store, Image(memo, x), p)
  {
    hide Follow, WellFormed, ReachesMutable, Pure;
    SameShape(s, rank, memo, store, x, p);
    var there := Follow(s, x, p);
    forall i | i in there ensures Follow(store, Image(memo, x), p) == [i] <==> !ReachesMutable(s, i) {
      assert there == [i];
      assert Settled(s, rank, memo, there[0]);
      assert Images(memo, there) == [Image(memo, i)];
      PureIff(s, rank, i);
    }
  }

  lemma ImageIsSameKind(memo: map<Id, Id>, o: Obj)
    ensures SameKind(o, ImageOf(memo, o))
  {
    ChildrenOfImage(memo, o);
  }

  /** When every copy is finished, the image of `x` is a deep copy of it. */
  lemma FinishedIsDeep(s: Store, rank: map<Id, nat>, memo: map<Id, Id>, store: Store, x: Id)
    requires WellFormed(s, rank) && AllClosed(s, rank, memo, store) && Settled(s, rank, memo, x)
    ensures IsDeepCopy(s, x, store, Image(memo, x))
  {
    hide Follow, WellFormed, Settled, LeftAloneAt;
    var y := Image(memo, x);
    forall p: seq<nat> ensures LeftAloneAt(s, x, store, y, p) {
      LeftAlone(s, rank, memo, store, x, p);
    }
    forall p: seq<nat> ensures SamePlace(s, x, store, y, p) && NoMutableAt(s, store, y, p) {
      SameShape(s, rank, memo, store, x, p);
      NothingMutableShared(s, rank, memo, store, x, p);
      if Follow(s, x, p) != [] {
        SameObjects(s, rank, memo, store, x, p);
        ImageIsSameKind(memo, s[Follow(s, x, p)[0]]);
      }
    }
    forall p: seq<nat>, q: seq<nat> ensures SameMeeting(s, x, store, y, p, q) {
      if Follow(s, x, p) != [] && Follow(s, x, q) != [] {
        SameSharing(s, rank, memo, store, x, p, q);
      }
    }
  }
}
