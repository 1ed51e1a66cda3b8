/**
 `heapq.py`: the binary heap in a list.  `_siftup` first drags the hole to a leaf
 without looking at the item and only then repairs upward.
 */
module Heaps {

  /** List elements; `<` looks at the key only, so distinct elements may compare equal. */
  datatype Item = Item(key: int, tag: int)

  predicate Less(a: Item, b: Item) {
    a.key < b.key
  }

  datatype Result<T> = Ok(value: T) | IndexError

  function Parent(i: nat): nat
    requires i >= 1
  {
    (i - 1) / 2
  }

  /** The element at `i` is not less than its parent. */
  predicate Ordered(s: seq<Item>, i: nat)
    requires 1 <= i < |s|
  {
    !Less(s[i], s[Parent(i)])
  }

  /** Heap order between every parent from index `k` on and its children. */
  predicate HeapFrom(s: seq<Item>, k: nat) {
    forall i | 1 <= i < |s| && k <= Parent(i) :: Ordered(s, i)
  }

  predicate IsHeap(s: seq<Item>) {
    HeapFrom(s, 0)
  }

  /** The root of a heap is a least element. */
  lemma {:induction false} RootIsLeast(s: seq<Item>, i: nat)
    requires IsHeap(s) && i < |s|
    ensures !Less(s[i], s[0])
  {
    if i > 0 {
      RootIsLeast(s, Parent(i));
      assert Ordered(s, i);
    }
  }

  /** Writing `item` at the hole `to` instead of at `from`, whose element moved to `from`. */
  lemma MoveKeepsItems(s: seq<Item>, from: nat, to: nat, item: Item)
    requires from < |s| && to < |s| && from != to
    ensures multiset(s[from := s[to]][to := item]) == multiset(s[from := item])
  {
    var t := s[from := item];
    assert s[from := s[to]][to := item] == t[from := t[to]][to := t[from]];
  }

  /** `pos` lies in the subtree of `start`. */
  predicate Below(start: nat, pos: nat)
    decreases pos
  {
    pos == start || (pos > start && Below(start, Parent(pos)))
  }

  lemma ChildBelow(start: nat, pos: nat, child: nat)
    requires Below(start, pos) && (child == 2 * pos + 1 || child == 2 * pos + 2)
    ensures Below(start, child) && Parent(child) == pos
  {
    BelowBound(start, pos);
  }

  lemma {:induction false} BelowBound(start: nat, pos: nat)
    requires Below(start, pos)
    ensures start <= pos
  {
  }

  /** Heap order below `start`, except that the element at `pos` may be less than its parent. */
  predicate HeapExcept(s: seq<Item>, start: nat, pos: nat) {
    && (forall i | 1 <= i < |s| && start <= Parent(i) && i != pos :: Ordered(s, i))
    && (forall i | 1 <= i < |s| && Parent(i) == pos && pos > start :: OverGrandparent(s, i, pos))
  }

  predicate OverGrandparent(s: seq<Item>, i: nat, pos: nat)
    requires i < |s| && 1 <= pos < |s|
  {
    !Less(s[i], s[Parent(pos)])
  }

  class Heap {
    var items: seq<Item>

    /** `_siftdown`: moves the item at `pos` up to its place. */
    method SiftDown(start: nat, pos0: nat)
      requires start <= pos0 < |items| && Below(start, pos0) && HeapExcept(items, start, pos0)
      modifies this
      ensures |items| == |old(items)| && multiset(items) == multiset(old(items))
      ensures HeapFrom(items, start)
    {
      var pos := pos0;
      var newItem := items[pos];
      assert items[pos := newItem] == items;
      while pos > start
        invariant start <= pos < |items| == |old(items)| && Below(start, pos)
        invariant HeapExcept(items[pos := newItem], start, pos)
        invariant multiset(items[pos := newItem]) == multiset(old(items))
        decreases pos
      {
        var parentPos := Parent(pos);
        var parent := items[parentPos];
        if !Less(newItem, parent) {
          break;
        }
        MoveKeepsItems(items, pos, parentPos, newItem);
        LiftKeepsOrder(items, start, pos, newItem);
        BelowBound(start, parentPos);
        items := items[pos := parent];
        pos := parentPos;
      }
      items := items[pos := newItem];
    }

    /** `_siftup`: sinks the hole at `start` to a leaf along the smaller children, then repairs upward. */
    method SiftUp(start: nat)
      requires start < |items| && HeapFrom(items, start + 1)
      modifies this
      ensures |items| == |old(items)| && multiset(items) == multiset(old(items))
      ensures HeapFrom(items, start)
    {
      var endPos := |items|;
      var pos := start;
      var newItem := items[pos];
      var childPos := 2 * pos + 1;
      assert items[pos := newItem] == items;
      while childPos < endPos
        invariant start <= pos < |items| == endPos && Below(start, pos) && childPos == 2 * pos + 1
        invariant HeapFrom(items, if pos == start then start + 1 else start)
        invariant multiset(items[pos := newItem]) == multiset(old(items))
        decreases endPos - pos
      {
        var rightPos := childPos + 1;
        if rightPos < endPos && !Less(items[childPos], items[rightPos]) {
          childPos := rightPos;
        }
        MoveKeepsItems(items, pos, childPos, newItem);
        ChildBelow(start, pos, childPos);
        SinkKeepsOrder(items, start, pos, childPos);
        items := items[pos := items[childPos]];
        pos := childPos;
        childPos := 2 * pos + 1;
      }
      LeafKeepsOrder(items, start, pos, newItem);
      items := items[pos := newItem];
      SiftDown(start, pos);
    }

    /** `heappush` */
    method Push(item: Item)
      requires IsHeap(items)
      modifies this
      ensures IsHeap(items) && multiset(items) == multiset(old(items)) + multiset{item}
    {
      ghost var before := items;
      items := items + [item];
      BelowRoot(|items| - 1);
      assert HeapExcept(items, 0, |items| - 1) by {
        forall i | 1 <= i < |items| && i != |items| - 1
          ensures Ordered(items, i)
        {
          assert Ordered(before, i);
        }
      }
      SiftDown(0, |items| - 1);
    }

    /** `heappop` */
    method Pop() returns (r: Result<Item>)
      requires IsHeap(items)
      modifies this
      ensures IsHeap(items)
      ensures old(items) == [] ==> r == IndexError && items == []
      ensures old(items) != [] ==>
                r.Ok? && multiset(old(items)) == multiset(items) + multiset{r.value}
                && forall x | x in old(items) :: !Less(x, r.value)
    {
      if items == [] {
        return IndexError;
      }
      ghost var before := items;
      var last := items[|items| - 1];
      items := items[..|items| - 1];
      assert before == items + [last];
      forall x | x in before ensures !Less(x, before[0]) {
        var i :| 0 <= i < |before| && before[i] == x;
        RootIsLeast(before, i);
      }
      if items == [] {
        return Ok(last);
      }
      var item := items[0];
      ReplaceRoot(items, last);
      assert HeapFrom(items, 0);
      items := items[0 := last];
      SiftUp(0);
      r := Ok(item);
    }

    /** `heappushpop` */
    method PushPop(item: Item) returns (r: Item)
      requires IsHeap(items)
      modifies this
      ensures IsHeap(items) && |items| == |old(items)|
      ensures multiset(old(items)) + multiset{item} == multiset(items) + multiset{r}
      ensures !Less(item, r) && forall x | x in old(items) :: !Less(x, r)
    {
      forall x | x in items ensures items != [] && !Less(x, items[0]) {
        var i :| 0 <= i < |items| && items[i] == x;
        RootIsLeast(items, i);
      }
      if items != [] && Less(items[0], item) {
        r := items[0];
        ReplaceRoot(items, item);
        items := items[0 := item];
        SiftUp(0);
      } else {
        r := item;
      }
    }

    /** `heapreplace` */
    method Replace(item: Item) returns (r: Result<Item>)
      requires IsHeap(items)
      modifies this
      ensures IsHeap(items)
      ensures old(items) == [] ==> r == IndexError && items == []
      ensures old(items) != [] ==>
                r.Ok? && multiset(old(items)) + multiset{item} == multiset(items) + multiset{r.value}
                && forall x | x in old(items) :: !Less(x, r.value)
    {
      if items == [] {
        return IndexError;
      }
      forall x | x in items ensures !Less(x, items[0]) {
        var i :| 0 <= i < |items| && items[i] == x;
        RootIsLeast(items, i);
      }
      r := Ok(items[0]);
      ReplaceRoot(items, item);
      items := items[0 := item];
      SiftUp(0);
    }

    /** `heapify` */
    method Heapify()
      modifies this
      ensures IsHeap(items) && multiset(items) == multiset(old(items))
    {
      var n := |items|;
      var i := n / 2;
      while i > 0
        invariant 0 <= i <= n / 2 && |items| == n
        invariant HeapFrom(items, i) && multiset(items) == multiset(old(items))
      {
        i := i - 1;
        SiftUp(i);
      }
    }
  }

  // ---------- how single moves keep the order ----------

  lemma {:induction false} BelowRoot(pos: nat)
    ensures Below(0, pos)
  {
    if pos > 0 {
      BelowRoot(Parent(pos));
    }
  }

  /** Lowering the parent into the hole leaves only the parent's place out of order. */
  lemma LiftKeepsOrder(s: seq<Item>, start: nat, pos: nat, item: Item)
    requires start < pos < |s| && Below(start, pos) && HeapExcept(s[pos := item], start, pos)
    requires Less(item, s[Parent(pos)])
    ensures var t := s[pos := s[Parent(pos)]][Parent(pos) := item];
            HeapExcept(t, start, Parent(pos))
  {
    var p := Parent(pos);
    var u, t := s[pos := item], s[pos := s[p]][p := item];
    BelowBound(start, p);
    forall i | 1 <= i < |t| && start <= Parent(i) && i != p
      ensures Ordered(t, i)
    {
      assert i != pos ==> Ordered(u, i);
      assert Parent(i) == pos ==> OverGrandparent(u, i, pos);
    }
    if p > start {
      BelowBound(start, Parent(p));
      assert Ordered(u, p);
      forall i | 1 <= i < |t| && Parent(i) == p
        ensures OverGrandparent(t, i, p)
      {
        assert i != pos ==> Ordered(u, i);
      }
    }
  }

  /** Raising the smaller child into the hole restores the order everywhere below `start`. */
  lemma SinkKeepsOrder(s: seq<Item>, start: nat, pos: nat, child: nat)
    requires start <= pos < child < |s| && Parent(child) == pos && Below(start, pos)
    requires HeapFrom(s, if pos == start then start + 1 else start)
    requires forall j | 1 <= j < |s| && Parent(j) == pos :: !Less(s[j], s[child])
    ensures HeapFrom(s[pos := s[child]], start)
  {
    var t := s[pos := s[child]];
    forall i | 1 <= i < |t| && start <= Parent(i)
      ensures Ordered(t, i)
    {
      if i == pos {
        BelowBound(start, Parent(pos));
        assert Ordered(s, pos) && Ordered(s, child);
      } else if Parent(i) != pos {
        assert Ordered(s, i);
      }
    }
  }

  /** At a leaf the item can be dropped in: only its link to the parent may be out of order. */
  lemma LeafKeepsOrder(s: seq<Item>, start: nat, pos: nat, item: Item)
    requires start <= pos < |s| <= 2 * pos + 1
    requires HeapFrom(s, if pos == start then start + 1 else start)
    ensures HeapExcept(s[pos := item], start, pos)
  {
    var t := s[pos := item];
    forall i | 1 <= i < |t| && start <= Parent(i) && i != pos
      ensures Ordered(t, i)
    {
      assert Ordered(s, i);
    }
  }

  lemma ReplaceRoot(s: seq<Item>, item: Item)
    requires s != [] && HeapFrom(s, 1)
    ensures HeapFrom(s[0 := item], 1)
  {
    var t := s[0 := item];
    forall i | 1 <= i < |t| && 1 <= Parent(i)
      ensures Ordered(t, i)
    {
      assert Ordered(s, i);
    }
  }
}
