/**
 `functools.py`, the bounded branch of `_lru_cache_wrapper`: a dictionary and a circular doubly linked list,
 used by any number of calls that run the wrapped function with the lock released.
 */
module LruCaches {
  import opened Sequences

  // ---------- the cache as a value ----------

  datatype Entry<K, V> = Entry(key: K, result: V)

  /** The contents, least recently used first, with the statistics. */
  datatype Cache<K, V> = Cache(entries: seq<Entry<K, V>>, hits: nat, misses: nat, full: bool)

  function Keys<K, V>(entries: seq<Entry<K, V>>): (r: seq<K>)
    ensures |r| == |entries| && forall i | 0 <= i < |r| :: r[i] == entries[i].key
  {
    seq(|entries|, i requires 0 <= i < |entries| => entries[i].key)
  }

  function Find<K(==), V>(entries: seq<Entry<K, V>>, k: K): (p: nat)
    ensures p <= |entries| && (p < |entries| ==> entries[p].key == k)
    ensures forall i | 0 <= i < p :: entries[i].key != k
  {
    if entries == [] || entries[0].key == k then 0 else 1 + Find(entries[1..], k)
  }

  predicate Has<K(==), V>(c: Cache<K, V>, k: K) {
    Find(c.entries, k) < |c.entries|
  }

  /** The element at `p` becomes the last one. */
  function ToBack<T>(s: seq<T>, p: nat): (r: seq<T>)
    requires p < |s|
    ensures |r| == |s|
  {
    s[..p] + s[p + 1..] + [s[p]]
  }

  function Lookup<K(==), V>(c: Cache<K, V>, k: K): (r: (Cache<K, V>, Option<V>)) {
    if Has(c, k) then
      var p := Find(c.entries, k);
      (c.(entries := ToBack(c.entries, p), hits := c.hits + 1), Some(c.entries[p].result))
    else (c.(misses := c.misses + 1), None)
  }

  function Store<K(==), V>(c: Cache<K, V>, maxsize: nat, k: K, v: V): (r: Cache<K, V>) {
    if Has(c, k) then c
    else if c.full && c.entries != [] then c.(entries := c.entries[1..] + [Entry(k, v)])
    else c.(entries := c.entries + [Entry(k, v)], full := |c.entries| + 1 >= maxsize)
  }

  function Cleared<K, V>(): (r: Cache<K, V>) {
    Cache([], 0, 0, false)
  }

  // ---------- all interleavings of the calls ----------

  /** One critical section of some call, or the failure of the wrapped function in it. */
  datatype Event<K> = Look(call: nat, key: K) | Finish(call: nat) | Fail(call: nat) | Clear

  /**
   The cache, the calls whose function is running, the answers given so far, and, since the last clear, the
   number of lookups and the keys used: each one found, or newly put in.
   */
  datatype System<K, V> = System(cache: Cache<K, V>, running: map<nat, K>, answers: seq<Entry<K, V>>,
                                 lookups: nat, used: seq<K>)

  function Initial<K, V>(): (s: System<K, V>) {
    System(Cleared(), map[], [], 0, [])
  }

  function Step<K(==), V>(s: System<K, V>, maxsize: nat, f: K -> V, e: Event<K>): (r: System<K, V>) {
    match e
    case Look(call, k) =>
      if call in s.running then s
      else
        var (c, answer) := Lookup(s.cache, k);
        if answer.Some? then
          s.(cache := c, answers := s.answers + [Entry(k, answer.value)], lookups := s.lookups + 1,
             used := s.used + [k])
        else s.(cache := c, running := s.running[call := k], lookups := s.lookups + 1)
    case Finish(call) =>
      if call !in s.running then s
      else
        var k := s.running[call];
        s.(cache := Store(s.cache, maxsize, k, f(k)), running := s.running - {call},
           answers := s.answers + [Entry(k, f(k))], used := if Has(s.cache, k) then s.used else s.used + [k])
    case Fail(call) => s.(running := s.running - {call})
    case Clear => s.(cache := Cleared(), lookups := 0, used := [])
  }

  function Run<K(==), V>(maxsize: nat, f: K -> V, events: seq<Event<K>>): (s: System<K, V>) {
    if events == [] then Initial()
    else Step(Run(maxsize, f, events[..|events| - 1]), maxsize, f, events[|events| - 1])
  }

  /** The distinct elements of `s`, ordered by their last occurrence. */
  function Recent<T(==)>(s: seq<T>): (r: seq<T>) {
    if s == [] then [] else Without(Recent(s[..|s| - 1]), s[|s| - 1]) + [s[|s| - 1]]
  }

  function Without<T(==)>(s: seq<T>, x: T): (r: seq<T>)
    ensures x !in r && |r| <= |s|
    ensures x !in s ==> r == s
  {
    if s == [] then [] else if s[0] == x then Without(s[1..], x) else [s[0]] + Without(s[1..], x)
  }

  function LastOf<T>(s: seq<T>, n: nat): (r: seq<T>) {
    if |s| <= n then s else s[|s| - n..]
  }

  /** What every reachable state satisfies. */
  predicate Invariant<K(==), V(==)>(s: System<K, V>, maxsize: nat, f: K -> V) {
    && Keys(s.cache.entries) == LastOf(Recent(s.used), maxsize)
    && (s.cache.full <==> |s.cache.entries| == maxsize)
    && (forall e | e in s.cache.entries :: e.result == f(e.key))
    && s.cache.hits + s.cache.misses == s.lookups
    && (forall a | a in s.answers :: a.result == f(a.key))
  }

  lemma {:induction false} WithoutElements<T>(s: seq<T>, x: T, y: T)
    ensures y in Without(s, x) <==> y in s && y != x
  {
    if s != [] {
      assert s == [s[0]] + s[1..];
      WithoutElements(s[1..], x, y);
    }
  }

  lemma {:induction false} WithoutConcat<T>(s: seq<T>, t: seq<T>, x: T)
    ensures Without(s + t, x) == Without(s, x) + Without(t, x)
  {
    if s == [] {
      assert s + t == t;
    } else {
      assert (s + t)[1..] == s[1..] + t;
      WithoutConcat(s[1..], t, x);
    }
  }

  lemma {:induction false} WithoutDistinct<T>(s: seq<T>, x: T)
    requires Distinct(s)
    ensures Distinct(Without(s, x)) && |Without(s, x)| == if x in s then |s| - 1 else |s|
  {
    if s != [] {
      assert s == [s[0]] + s[1..];
      WithoutDistinct(s[1..], x);
      WithoutElements(s[1..], x, s[0]);
    }
  }

  lemma {:induction false} RecentDistinct<T>(s: seq<T>)
    ensures Distinct(Recent(s))
  {
    if s != [] {
      RecentDistinct(s[..|s| - 1]);
      WithoutDistinct(Recent(s[..|s| - 1]), s[|s| - 1]);
    }
  }

  lemma RecentSnoc<T>(s: seq<T>, x: T)
    ensures Recent(s + [x]) == Without(Recent(s), x) + [x]
  {
    assert (s + [x])[..|s|] == s;
  }

  lemma SuffixDistinct<T>(s: seq<T>, n: nat)
    requires Distinct(s)
    ensures Distinct(LastOf(s, n))
  {
  }

  lemma WithoutMiddle<T>(a: seq<T>, x: T, b: seq<T>)
    requires x !in a && x !in b
    ensures Without(a + [x] + b, x) == a + b
  {
    WithoutConcat(a + [x], b, x);
    WithoutConcat(a, [x], x);
    assert Without([x], x) == [];
    assert a + [] == a;
  }

  lemma NotTwice<T>(s: seq<T>, p: nat)
    requires Distinct(s) && p < |s|
    ensures s[p] !in s[..p] && s[p] !in s[p + 1..]
  {
  }

  /** Moving an element to the back is taking it out and appending it. */
  lemma ToBackIsWithout<T>(s: seq<T>, p: nat)
    requires Distinct(s) && p < |s|
    ensures ToBack(s, p) == Without(s, s[p]) + [s[p]]
  {
    hide Without, Distinct;
    NotTwice(s, p);
    var a, x, b := s[..p], s[p], s[p + 1..];
    assert s == a + [x] + b;
    WithoutMiddle(a, x, b);
  }

  lemma LastOfSuffix<T>(front: seq<T>, o: seq<T>, n: nat)
    requires |o| == n || (front == [] && |o| <= n)
    ensures LastOf(front + o, n) == o
  {
    assert (front + o)[|front|..] == o;
    if front == [] {
      assert front + o == o;
    }
  }

  lemma SplitAtLast<T>(r: seq<T>, n: nat) returns (front: seq<T>)
    ensures r == front + LastOf(r, n) && |front| <= |r|
    ensures |LastOf(r, n)| == n || (front == [] && |LastOf(r, n)| <= n)
    ensures Distinct(r) ==> Distinct(LastOf(r, n)) && forall x | x in LastOf(r, n) :: x !in front
  {
    front := r[..|r| - |LastOf(r, n)|];
  }

  /** A used key that is among the last `n` stays among them. */
  lemma UseKnown<T>(used: seq<T>, n: nat, p: nat)
    requires p < |LastOf(Recent(used), n)|
    ensures ToBack(LastOf(Recent(used), n), p) == LastOf(Recent(used + [LastOf(Recent(used), n)[p]]), n)
  {
    hide Recent, Without, LastOf;
    var r := Recent(used);
    var o := LastOf(r, n);
    var x := o[p];
    RecentDistinct(used);
    RecentSnoc(used, x);
    var front := SplitAtLast(r, n);
    ToBackIsWithout(o, p);
    assert x in o;
    WithoutConcat(front, o, x);
    WithoutKept(front, x);
    assert Without(r, x) + [x] == front + ToBack(o, p);
    LastOfSuffix(front, ToBack(o, p), n);
  }

  lemma WithoutKept<T>(s: seq<T>, x: T)
    requires x !in s
    ensures Without(s, x) == s
  {
  }

  /** A key not among the last `n` pushes the oldest of them out, when there are `n`. */
  lemma UseNew<T>(used: seq<T>, n: nat, x: T)
    requires n >= 1 && x !in LastOf(Recent(used), n)
    ensures var o := LastOf(Recent(used), n);
            LastOf(Recent(used + [x]), n) == (if |o| == n then o[1..] else o) + [x]
  {
    hide Recent, Without, LastOf;
    var r := Recent(used);
    var o := LastOf(r, n);
    RecentSnoc(used, x);
    var front := SplitAtLast(r, n);
    WithoutConcat(front, o, x);
    WithoutKept(o, x);
    if |o| == n {
      var front' := Without(front, x) + o[..1];
      assert Recent(used + [x]) == front' + (o[1..] + [x]);
      LastOfSuffix(front', o[1..] + [x], n);
    } else {
      WithoutKept(front, x);
      assert Recent(used + [x]) == [] + (o + [x]);
      LastOfSuffix([], o + [x], n);
    }
  }

  lemma KeyFound<K, V>(c: Cache<K, V>, k: K)
    ensures Has(c, k) <==> k in Keys(c.entries)
  {
    if k in Keys(c.entries) {
      var i :| 0 <= i < |c.entries| && Keys(c.entries)[i] == k;
      assert c.entries[i].key == k;
    }
    if Has(c, k) {
      assert Keys(c.entries)[Find(c.entries, k)] == k;
    }
  }

  lemma ToBackKeys<K, V>(entries: seq<Entry<K, V>>, p: nat)
    requires p < |entries|
    ensures Keys(ToBack(entries, p)) == ToBack(Keys(entries), p)
    ensures forall e | e in ToBack(entries, p) :: e in entries
  {
  }

  lemma LookKeeps<K, V>(s: System<K, V>, maxsize: nat, f: K -> V, call: nat, k: K)
    requires Invariant(s, maxsize, f)
    ensures Invariant(Step(s, maxsize, f, Look(call, k)), maxsize, f)
  {
    if Has(s.cache, k) {
      var p := Find(s.cache.entries, k);
      UseKnown(s.used, maxsize, p);
      ToBackKeys(s.cache.entries, p);
      assert Keys(s.cache.entries)[p] == k;
    }
  }

  lemma FinishKeeps<K, V>(s: System<K, V>, maxsize: nat, f: K -> V, call: nat)
    requires Invariant(s, maxsize, f) && maxsize >= 1
    ensures Invariant(Step(s, maxsize, f, Finish(call)), maxsize, f)
  {
    if call in s.running && !Has(s.cache, s.running[call]) {
      var k, o := s.running[call], s.cache.entries;
      KeyFound(s.cache, k);
      UseNew(s.used, maxsize, k);
      assert Keys(o + [Entry(k, f(k))]) == Keys(o) + [k];
      if s.cache.full {
        assert Keys(o[1..] + [Entry(k, f(k))]) == Keys(o)[1..] + [k];
      }
    }
  }

  /** Every reachable state of every interleaving satisfies the invariant, and its counters count what happened. */
  lemma {:induction false} EveryRun<K, V>(maxsize: nat, f: K -> V, events: seq<Event<K>>)
    requires maxsize >= 1
    ensures Invariant(Run(maxsize, f, events), maxsize, f)
    ensures var s: System<K, V> := Run(maxsize, f, events);
            (s.cache.hits, s.cache.misses) == Observed(maxsize, f, events)
  {
    CountsOfRun(maxsize, f, events);
    if events != [] {
      var init, e := events[..|events| - 1], events[|events| - 1];
      EveryRun(maxsize, f, init);
      var s: System<K, V> := Run(maxsize, f, init);
      match e
      case Look(call, k) => LookKeeps(s, maxsize, f, call, k);
      case Finish(call) => FinishKeeps(s, maxsize, f, call);
      case Fail(call) =>
      case Clear =>
    }
  }

  // ---------- what a run shows, without looking into the cache ----------

  /** Since the last clear: the lookups answered at once, and those that started a computation. */
  function Observed<K(==), V(==)>(maxsize: nat, f: K -> V, events: seq<Event<K>>): (r: (nat, nat)) {
    if events == [] then (0, 0)
    else
      var init, e := events[..|events| - 1], events[|events| - 1];
      var (atOnce, started) := Observed(maxsize, f, init);
      if e.Clear? then (0, 0)
      else if !e.Look? then (atOnce, started)
      else
        var s: System<K, V>, s': System<K, V> := Run(maxsize, f, init), Run(maxsize, f, events);
        (if s'.answers != s.answers then atOnce + 1 else atOnce,
         if s'.running != s.running then started + 1 else started)
  }

  /** The statistics count just that. */
  lemma {:induction false} CountsOfRun<K, V>(maxsize: nat, f: K -> V, events: seq<Event<K>>)
    ensures var s: System<K, V> := Run(maxsize, f, events);
            (s.cache.hits, s.cache.misses) == Observed(maxsize, f, events)
  {
    if events != [] {
      var init, e := events[..|events| - 1], events[|events| - 1];
      CountsOfRun(maxsize, f, init);
      var s: System<K, V> := Run(maxsize, f, init);
      StepCounts(s, maxsize, f, e);
    }
  }

  lemma StepCounts<K, V>(s: System<K, V>, maxsize: nat, f: K -> V, e: Event<K>)
    ensures var s' := Step(s, maxsize, f, e);
      && (e.Clear? ==> s'.cache.hits == 0 && s'.cache.misses == 0)
      && (e.Finish? || e.Fail? ==> s'.cache.hits == s.cache.hits && s'.cache.misses == s.cache.misses)
      && (e.Look? ==> s'.cache.hits == s.cache.hits + if s'.answers != s.answers then 1 else 0)
      && (e.Look? ==> s'.cache.misses == s.cache.misses + if s'.running != s.running then 1 else 0)
  {
    if e.Look? && e.call !in s.running {
      var s' := Step(s, maxsize, f, e);
      assert e.call in s'.running || s'.running == s.running;
      assert |s'.answers| == |s.answers| + 1 || s'.answers == s.answers;
    }
  }

  /**
   The least-recently-used rule by itself: a key is answered at once exactly when it is among the `maxsize` keys used
   last, where finding a key uses it, and so does putting in the result of a computation.
   */
  datatype Rule<K> = Rule(used: seq<K>, running: map<nat, K>, hits: nat, misses: nat)

  function Ruled<K(==)>(r: Rule<K>, maxsize: nat, e: Event<K>): Rule<K> {
    match e
    case Look(call, k) =>
      if call in r.running then r
      else if k in LastOf(Recent(r.used), maxsize) then r.(used := r.used + [k], hits := r.hits + 1)
      else r.(running := r.running[call := k], misses := r.misses + 1)
    case Finish(call) =>
      if call !in r.running then r
      else
        var k := r.running[call];
        r.(running := r.running - {call}, used := if k in LastOf(Recent(r.used), maxsize) then r.used else r.used + [k])
    case Fail(call) => r.(running := r.running - {call})
    case Clear => Rule([], r.running, 0, 0)
  }

  function Follow<K(==)>(maxsize: nat, events: seq<Event<K>>): (r: Rule<K>) {
    if events == [] then Rule([], map[], 0, 0)
    else Ruled(Follow(maxsize, events[..|events| - 1]), maxsize, events[|events| - 1])
  }

  lemma StepRuled<K, V>(s: System<K, V>, r: Rule<K>, maxsize: nat, f: K -> V, e: Event<K>)
    requires s.used == r.used && s.running == r.running && s.cache.hits == r.hits && s.cache.misses == r.misses
    requires Keys(s.cache.entries) == LastOf(Recent(r.used), maxsize)
    ensures var s', r' := Step(s, maxsize, f, e), Ruled(r, maxsize, e);
      s'.used == r'.used && s'.running == r'.running && s'.cache.hits == r'.hits && s'.cache.misses == r'.misses
  {
    hide Recent, LastOf, Find, ToBack, Keys;
    if e.Look? {
      KeyFound(s.cache, e.key);
    } else if e.Finish? && e.call in s.running {
      KeyFound(s.cache, s.running[e.call]);
    }
    hide Has;
  }

  /** Every run of the cache follows the rule: the keys it holds, what it answers at once, and what it counts. */
  lemma {:induction false} RunFollowsRule<K, V>(maxsize: nat, f: K -> V, events: seq<Event<K>>)
    requires maxsize >= 1
    ensures var s: System<K, V>, r := Run(maxsize, f, events), Follow(maxsize, events);
      && s.used == r.used && s.running == r.running && Keys(s.cache.entries) == LastOf(Recent(r.used), maxsize)
      && s.cache.hits == r.hits && s.cache.misses == r.misses
  {
    EveryRun(maxsize, f, events);
    if events != [] {
      var init, e := events[..|events| - 1], events[|events| - 1];
      RunFollowsRule(maxsize, f, init);
      StepRuled(Run(maxsize, f, init), Follow(maxsize, init), maxsize, f, e);
    }
  }

  /** In every reachable state the keys are distinct, at most `maxsize`, and each key used last is kept. */
  lemma CacheOfRun<K, V>(maxsize: nat, f: K -> V, events: seq<Event<K>>)
    requires maxsize >= 1
    ensures var s := Run(maxsize, f, events);
            && Distinct(Keys(s.cache.entries)) && |s.cache.entries| <= maxsize
            && (s.used != [] ==> Has(s.cache, s.used[|s.used| - 1]))
  {
    EveryRun(maxsize, f, events);
    var s := Run(maxsize, f, events);
    RecentDistinct(s.used);
    SuffixDistinct(Recent(s.used), maxsize);
    if s.used != [] {
      var o := LastOf(Recent(s.used), maxsize);
      assert Keys(s.cache.entries)[|o| - 1] == s.used[|s.used| - 1];
      KeyFound(s.cache, s.used[|s.used| - 1]);
    }
  }

  // ---------- the linked list ----------

  class Link<K, V> {
    var prev: Link<K, V>
    var next: Link<K, V>
    var key: Option<K>
    var result: Option<V>

    constructor Self()
      ensures prev == this && next == this && key == None && result == None
    {
      prev, next, key, result := this, this, None, None;
    }

    constructor (prev: Link<K, V>, next: Link<K, V>, key: K, result: V)
      ensures this.prev == prev && this.next == next && this.key == Some(key) && this.result == Some(result)
    {
      this.prev, this.next, this.key, this.result := prev, next, Some(key), Some(result);
    }
  }

  /** The links of `ring`, in this order, form one circle. */
  ghost predicate Circular<K, V>(ring: seq<Link<K, V>>)
    reads ring
  {
    && Distinct(ring)
    && (forall i | 1 <= i < |ring| :: ring[i - 1].next == ring[i] && ring[i].prev == ring[i - 1])
    && (|ring| >= 1 ==> ring[|ring| - 1].next == ring[0] && ring[0].prev == ring[|ring| - 1])
  }

  /** The links hold the entries, one each. */
  ghost predicate Carries<K, V>(links: seq<Link<K, V>>, entries: seq<Entry<K, V>>)
    reads links
  {
    && |links| == |entries|
    && forall i | 0 <= i < |links| :: links[i].key == Some(entries[i].key) && links[i].result == Some(entries[i].result)
  }

  /** The dictionary leads from each key to the link at the same place, and has no other keys. */
  predicate Indexes<K, L(==), V>(cache: map<K, L>, links: seq<L>, entries: seq<Entry<K, V>>) {
    && |links| == |entries|
    && (forall i | 0 <= i < |links| :: entries[i].key in cache && cache[entries[i].key] == links[i])
    && (forall k | k in cache :: k in Keys(entries))
  }

  lemma KeyPlace<K, V>(entries: seq<Entry<K, V>>, k: K) returns (i: nat)
    requires k in Keys(entries)
    ensures i < |entries| && entries[i].key == k
  {
    i :| 0 <= i < |entries| && Keys(entries)[i] == k;
  }

  /** The place of a key in the queue is the place of its link. */
  lemma FindLink<K, L, V>(cache: map<K, L>, links: seq<L>, entries: seq<Entry<K, V>>, key: K)
    requires Indexes(cache, links, entries)
    ensures key in cache <==> Find(entries, key) < |entries|
    ensures key in cache ==> links[Find(entries, key)] == cache[key]
  {
    if key in cache {
      var i := KeyPlace(entries, key);
    }
  }

  lemma {:induction false} IndexSize<K, L, V>(cache: map<K, L>, links: seq<L>, entries: seq<Entry<K, V>>)
    requires Indexes(cache, links, entries) && Distinct(links)
    ensures |cache| == |entries|
  {
    if links == [] {
      assert cache == map[];
    } else {
      var n := |links| - 1;
      var k := entries[n].key;
      WithoutLast(cache, links, entries);
      assert k in Keys(entries) by { assert Keys(entries)[n] == k; }
      IndexSize(cache - {k}, links[..n], entries[..n]);
      hide Keys;
      assert cache.Keys == (cache - {k}).Keys + {k};
    }
  }

  lemma WithoutLast<K, L, V>(cache: map<K, L>, links: seq<L>, entries: seq<Entry<K, V>>)
    requires Indexes(cache, links, entries) && Distinct(links) && links != []
    ensures var n := |links| - 1;
            |entries| == n + 1 && Distinct(links[..n]) && Indexes(cache - {entries[n].key}, links[..n], entries[..n])
  {
    var n := |links| - 1;
    var k := entries[n].key;
    forall i | 0 <= i < n ensures entries[i].key != k {
      assert links[i] != links[n];
    }
    forall x | x in cache - {k} ensures x in Keys(entries[..n]) {
      var i := KeyPlace(entries, x);
      assert entries[..n][i].key == x;
      assert Keys(entries[..n])[i] == x;
    }
  }

  lemma ToBackAt<T>(s: seq<T>, p: nat, i: nat)
    requires p < |s| && i < |s|
    ensures ToBack(s, p)[i] == if i < p then s[i] else if i < |s| - 1 then s[i + 1] else s[p]
  {
  }

  lemma ToBackContains<T>(s: seq<T>, p: nat, x: T)
    requires p < |s| && x in s
    ensures x in ToBack(s, p)
  {
    assert s == s[..p] + [s[p]] + s[p + 1..];
  }

  lemma IndexMoved<K, L, V>(cache: map<K, L>, links: seq<L>, entries: seq<Entry<K, V>>, p: nat)
    requires Indexes(cache, links, entries) && p < |links|
    ensures Indexes(cache, ToBack(links, p), ToBack(entries, p))
  {
    hide ToBack;
    forall i | 0 <= i < |links|
      ensures var k := ToBack(entries, p)[i].key; k in cache && cache[k] == ToBack(links, p)[i]
    {
      ToBackAt(links, p, i);
      ToBackAt(entries, p, i);
    }
    ToBackKeys(entries, p);
    forall k | k in cache ensures k in Keys(ToBack(entries, p)) {
      ToBackContains(Keys(entries), p, k);
    }
  }

  lemma IndexAppended<K, L, V>(cache: map<K, L>, links: seq<L>, entries: seq<Entry<K, V>>, e: Entry<K, V>, link: L)
    requires Indexes(cache, links, entries) && e.key !in cache
    ensures Indexes(cache[e.key := link], links + [link], entries + [e])
  {
    assert Keys(entries + [e]) == Keys(entries) + [e.key];
  }

  lemma IndexDropped<K, L, V>(cache: map<K, L>, links: seq<L>, entries: seq<Entry<K, V>>)
    requires Indexes(cache, links, entries) && Distinct(links) && entries != []
    ensures Indexes(cache - {entries[0].key}, links[1..], entries[1..])
  {
    assert Keys(entries) == [entries[0].key] + Keys(entries[1..]);
    forall i | 0 <= i < |links| - 1 ensures entries[1..][i].key != entries[0].key {
      assert links[i + 1] != links[0];
    }
  }

  class LruCache<K(==), V> {
    const maxsize: nat
    var cache: map<K, Link<K, V>>
    var root: Link<K, V>
    var hits: nat
    var misses: nat
    var full: bool
    ghost var ring: seq<Link<K, V>>
    ghost var entries: seq<Entry<K, V>>

    ghost predicate Valid()
      reads this, ring
    {
      && |ring| == |entries| + 1 && ring[0] == root && Circular(ring)
      && root.key == None && root.result == None
      && Carries(ring[1..], entries) && Indexes(cache, ring[1..], entries)
      && 1 <= maxsize && |entries| <= maxsize && (full <==> |entries| == maxsize)
    }

    ghost function View(): (c: Cache<K, V>)
      reads this
    {
      Cache(entries, hits, misses, full)
    }

    constructor (maxsize: nat)
      requires maxsize >= 1
      ensures Valid() && fresh(ring) && this.maxsize == maxsize && View() == Cleared()
    {
      this.maxsize := maxsize;
      cache, hits, misses, full, entries := map[], 0, 0, false, [];
      root := new Link.Self();
      new;
      ring := [root];
    }

    /** The first critical section of a call: a known key moves to the front of the queue. */
    method Get(key: K) returns (answer: Option<V>)
      requires Valid()
      modifies this, ring
      ensures Valid() && (View(), answer) == Lookup(old(View()), key)
      ensures answer.Some? <==> old(key in cache)
      ensures answer.Some? ==> hits == old(hits) + 1 && misses == old(misses)
      ensures answer.None? ==> hits == old(hits) && misses == old(misses) + 1
      ensures ring == if old(key in cache) then ToBack(old(ring), Find(old(entries), key) + 1) else old(ring)
    {
      hide Circular, Carries, Indexes, ToBack;
      FindLink(cache, ring[1..], entries, key);
      if key in cache {
        var link := cache[key];
        ghost var p := Find(entries, key);
        MoveToBack(ring, entries, p, root, link);
        IndexMoved(cache, ring[1..], entries, p);
        ring, entries := ToBack(ring, p + 1), ToBack(entries, p);
        hits := hits + 1;
        answer := link.result;
      } else {
        misses := misses + 1;
        answer := None;
      }
    }

    /**
     The second critical section: the result goes in, unless another call has put the key in meanwhile. A full cache
     stores it in the old root and empties the oldest link for a new one; otherwise a link is added.
     */
    method Put(key: K, result: V)
      requires Valid()
      modifies this, ring
      ensures Valid() && View() == Store(old(View()), maxsize, key, result)
      ensures old(key in cache) ==> unchanged(this)
      ensures old(key !in cache && full) ==> ring == old(ring)[1..] + [old(root)] && cache[key] == old(root)
      ensures old(key !in cache && !full) ==>
        |ring| == |old(ring)| + 1 && ring[..|old(ring)|] == old(ring)
        && fresh(ring[|old(ring)|]) && cache[key] == ring[|old(ring)|]
    {
      hide Circular, Carries, Indexes;
      FindLink(cache, ring[1..], entries, key);
      if key in cache {
      } else if full {
        Evict(key, result);
      } else {
        Insert(key, result);
      }
    }

    method Evict(key: K, result: V)
      requires Valid() && full && key !in cache
      modifies this, ring
      ensures Valid() && View() == old(View()).(entries := old(entries)[1..] + [Entry(key, result)])
      ensures ring == old(ring)[1..] + [old(root)] && key in cache && cache[key] == old(root)
    {
      hide Circular, Carries, Indexes, Distinct;
      ghost var e := Entry(key, result);
      var oldRoot := root;
      var oldKey;
      root, oldKey := RotateRoot(ring, entries, oldRoot, key, result);
      IndexRotated(ring, cache, entries, e);
      cache := cache - {oldKey.value};
      cache := cache[key := oldRoot];
      ring, entries := ring[1..] + [oldRoot], entries[1..] + [e];
    }

    method Insert(key: K, result: V)
      requires Valid() && !full && key !in cache
      modifies this, ring
      ensures Valid()
      ensures View() == old(View()).(entries := old(entries) + [Entry(key, result)],
                                     full := |old(entries)| + 1 >= maxsize)
      ensures |ring| == |old(ring)| + 1 && old(ring) == ring[..|old(ring)|] && fresh(ring[|old(ring)|])
      ensures key in cache && cache[key] == ring[|old(ring)|]
    {
      hide Circular, Carries, Indexes, Distinct;
      ghost var e := Entry(key, result);
      var link := InsertLink(ring, entries, root, key, result);
      IndexInserted(ring, cache, entries, e, link);
      cache := cache[key := link];
      ring, entries := ring + [link], entries + [e];
      full := |cache| >= maxsize;
    }

    method Clear()
      requires Valid()
      modifies this, ring
      ensures Valid() && View() == Cleared() && |ring| == 1 && ring[0] == root == old(root)
    {
      cache := map[];
      root.prev, root.next, root.key, root.result := root, root, None, None;
      hits, misses, full := 0, 0, false;
      ring, entries := [root], [];
    }

    method Info() returns (hits: nat, misses: nat, maxsize: nat, currsize: nat)
      requires Valid()
      ensures maxsize == this.maxsize
      ensures hits == View().hits && misses == View().misses && currsize == |View().entries|
    {
      TailDistinct(ring);
      IndexSize(cache, ring[1..], entries);
      return this.hits, this.misses, this.maxsize, |cache|;
    }
  }

  lemma IndexRotated<K, V>(ring: seq<Link<K, V>>, cache: map<K, Link<K, V>>, entries: seq<Entry<K, V>>, e: Entry<K, V>)
    requires Distinct(ring) && |ring| >= 2 && |entries| >= 1 && Indexes(cache, ring[1..], entries) && e.key !in cache
    ensures Indexes((cache - {entries[0].key})[e.key := ring[0]], ring[2..] + [ring[0]], entries[1..] + [e])
    ensures (ring[1..] + [ring[0]])[1..] == ring[2..] + [ring[0]]
  {
    hide Indexes, Distinct;
    TailDistinct(ring);
    IndexDropped(cache, ring[1..], entries);
    assert ring[1..][1..] == ring[2..];
    IndexAppended(cache - {entries[0].key}, ring[2..], entries[1..], e, ring[0]);
  }

  lemma IndexInserted<K, V>(ring: seq<Link<K, V>>, cache: map<K, Link<K, V>>, entries: seq<Entry<K, V>>, e: Entry<K, V>,
                            link: Link<K, V>)
    requires Distinct(ring + [link]) && |ring| >= 1 && Indexes(cache, ring[1..], entries) && e.key !in cache
    ensures Indexes(cache[e.key := link], (ring + [link])[1..], entries + [e])
    ensures |cache[e.key := link]| == |entries| + 1
  {
    hide Indexes, Distinct;
    assert (ring + [link])[1..] == ring[1..] + [link];
    IndexAppended(cache, ring[1..], entries, e, link);
    TailDistinct(ring + [link]);
    IndexSize(cache[e.key := link], (ring + [link])[1..], entries + [e]);
  }

  /** Writes a new entry into the old root and empties the oldest link, which becomes the root. */
  method RotateRoot<K, V>(ghost ring: seq<Link<K, V>>, ghost entries: seq<Entry<K, V>>, oldRoot: Link<K, V>, key: K,
                          result: V)
    returns (root: Link<K, V>, oldKey: Option<K>)
    requires Circular(ring) && |ring| >= 2 && ring[0] == oldRoot && Carries(ring[1..], entries)
    modifies ring
    ensures root == ring[1] && root.key == None && root.result == None && oldKey == Some(entries[0].key)
    ensures Circular(ring[1..] + [oldRoot]) && Distinct(ring)
    ensures Carries(ring[2..] + [oldRoot], entries[1..] + [Entry(key, result)])
  {
    assert ring[1..][0] == ring[1];
    oldRoot.key := Some(key);
    oldRoot.result := Some(result);
    root := oldRoot.next;
    oldKey := root.key;
    root.key := None;
    root.result := None;
    RotatedCircle(ring);
  }

  lemma RotatedCircle<K, V>(ring: seq<Link<K, V>>)
    requires Circular(ring) && |ring| >= 2
    ensures Circular(ring[1..] + [ring[0]])
  {
    var t := ring[1..] + [ring[0]];
    forall i | 1 <= i < |t| ensures t[i - 1].next == t[i] && t[i].prev == t[i - 1] {
      if i < |ring| - 1 {
        assert t[i] == ring[i + 1] && t[i - 1] == ring[i];
      }
    }
    assert Distinct(t);
  }

  /** Links a new entry in before the root. */
  method InsertLink<K, V>(ghost ring: seq<Link<K, V>>, ghost entries: seq<Entry<K, V>>, root: Link<K, V>, key: K,
                          result: V)
    returns (link: Link<K, V>)
    requires Circular(ring) && |ring| >= 1 && ring[0] == root && Carries(ring[1..], entries)
    modifies ring
    ensures fresh(link) && Circular(ring + [link]) && Distinct(ring + [link])
    ensures Carries((ring + [link])[1..], entries + [Entry(key, result)])
    ensures root.key == old(root.key) && root.result == old(root.result)
  {
    var last := root.prev;
    assert last == ring[|ring| - 1];
    link := new Link(last, root, key, result);
    AppendDistinct(ring, link);
    last.next := link;
    root.prev := link;
  }

  /** Moves the link at place `p + 1` of the circle, after the root and `p` others, before the root. */
  method MoveToBack<K, V>(ghost ring: seq<Link<K, V>>, ghost entries: seq<Entry<K, V>>, ghost p: nat,
                          root: Link<K, V>, link: Link<K, V>)
    requires Circular(ring) && p + 1 < |ring| && ring[0] == root && ring[p + 1] == link
    requires Carries(ring[1..], entries)
    modifies ring
    ensures Circular(ToBack(ring, p + 1)) && ToBack(ring, p + 1)[0] == root
    ensures ToBack(ring, p + 1)[1..] == ToBack(ring[1..], p) && multiset(ToBack(ring, p + 1)) == multiset(ring)
    ensures Carries(ToBack(ring[1..], p), ToBack(entries, p))
    ensures root.key == old(root.key) && root.result == old(root.result) && link.result == Some(entries[p].result)
  {
    hide Circular, ToBack, Distinct;
    CircularDistinct(ring);
    RotatedTail(ring, p);
    Unlink(ring, p + 1, link);
    PutLast(ring[..p + 1] + ring[p + 2..], root, link);
    assert Carries(ring[1..], entries);
    MovedCarries(ring[1..], entries, p);
  }

  lemma MovedCarries<K, V>(links: seq<Link<K, V>>, entries: seq<Entry<K, V>>, p: nat)
    requires Carries(links, entries) && p < |links|
    ensures Carries(ToBack(links, p), ToBack(entries, p)) && links[p].result == Some(entries[p].result)
  {
    hide ToBack;
    forall i | 0 <= i < |links|
      ensures var l, e := ToBack(links, p)[i], ToBack(entries, p)[i]; l.key == Some(e.key) && l.result == Some(e.result)
    {
      ToBackAt(links, p, i);
      ToBackAt(entries, p, i);
    }
  }

  lemma CircularDistinct<K, V>(ring: seq<Link<K, V>>)
    requires Circular(ring)
    ensures Distinct(ring)
  {
  }

  lemma RotatedTail<T>(ring: seq<T>, p: nat)
    requires Distinct(ring) && p + 1 < |ring|
    ensures ToBack(ring, p + 1)[1..] == ToBack(ring[1..], p)
    ensures ToBack(ring, p + 1) == ring[..p + 1] + ring[p + 2..] + [ring[p + 1]]
    ensures ring[p + 1] !in ring[..p + 1] + ring[p + 2..]
    ensures multiset(ToBack(ring, p + 1)) == multiset(ring)
    ensures forall l | l in ring :: l in ring[..p + 1] + ring[p + 2..] + [ring[p + 1]]
  {
    SameElements(ring, p + 1);
    DropMoved(ring, p);
    hide ToBack;
    forall l | l in ring ensures l in ToBack(ring, p + 1) {
      ToBackContains(ring, p + 1, l);
    }
  }

  lemma SameElements<T>(s: seq<T>, p: nat)
    requires p < |s|
    ensures ToBack(s, p) == s[..p] + s[p + 1..] + [s[p]] && multiset(ToBack(s, p)) == multiset(s)
  {
    assert s == s[..p] + [s[p]] + s[p + 1..];
  }

  lemma DropMoved<T>(ring: seq<T>, p: nat)
    requires p + 1 < |ring|
    ensures ToBack(ring, p + 1)[1..] == ToBack(ring[1..], p)
  {
  }

  /** Takes the link at place `p` of the circle out of it. */
  method Unlink<K, V>(ghost ring: seq<Link<K, V>>, ghost p: nat, link: Link<K, V>)
    requires Circular(ring) && 1 <= p < |ring| && ring[p] == link
    modifies ring
    ensures Circular(ring[..p] + ring[p + 1..])
    ensures forall l | l in ring :: l.key == old(l.key) && l.result == old(l.result)
  {
    ghost var q := if p + 1 < |ring| then p + 1 else 0;
    assert link.prev == ring[p - 1] && link.next == ring[q];
    var linkPrev, linkNext := link.prev, link.next;
    linkPrev.next := linkNext;
    linkNext.prev := linkPrev;
    ghost var t := ring[..p] + ring[p + 1..];
    assert forall i | 0 <= i < |ring| && i != p - 1 :: ring[i].next == old(ring[i].next);
    assert forall i | 0 <= i < |ring| && i != q :: ring[i].prev == old(ring[i].prev);
    forall i | 1 <= i < |t|
      ensures t[i - 1].next == t[i] && t[i].prev == t[i - 1]
    {
      if i < p {
        assert t[i] == ring[i] && t[i - 1] == ring[i - 1];
      } else {
        assert t[i] == ring[i + 1];
      }
    }
    assert Distinct(t);
  }

  /** Puts a link between the last one of the circle and the root. */
  method PutLast<K, V>(ghost ring: seq<Link<K, V>>, root: Link<K, V>, link: Link<K, V>)
    requires Circular(ring) && |ring| >= 1 && ring[0] == root && link !in ring
    modifies ring, link
    ensures Circular(ring + [link])
    ensures forall l | l in ring + [link] :: l.key == old(l.key) && l.result == old(l.result)
  {
    var last := root.prev;
    last.next := link;
    root.prev := link;
    link.prev := last;
    link.next := root;
  }
}
