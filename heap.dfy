/**
 * `Heap`: the array-backed priority queue meant for the path search. Each
 * item records its own position (`heapIndex`) so that membership tests and
 * priority updates need no scan. Here the recorded positions are kept in a
 * map from the item's identity to its index, the arena form of "a field on
 * each node"; an item's identity is its `id`.
 *
 * This is the heap as its code evidently intends; the evident slips of the
 * source are noted where each piece is written (and modelled as written in
 * module HeapAsWritten).
 */
module Heaps {
  import opened Wrappers

  /**
   * A node as the heap sees it. The heap's items are compared with
   * `compareTo`, which the heap's callers provide; it is not part of the
   * modelled files, so the model fixes the comparator a path search uses:
   * lower total cost first, ties broken by lower estimate to the target.
   */
  datatype Item = Item(id: nat, fCost: int, hCost: int)

  /** `a` is strictly more urgent than `b`: lower fCost, or equal fCost and lower hCost. */
  predicate Precedes(a: Item, b: Item)
  {
    a.fCost < b.fCost || (a.fCost == b.fCost && a.hCost < b.hCost)
  }

  /** `compareTo`: positive when `a` is more urgent than `b`, negative when less, zero on a tie. */
  function CompareTo(a: Item, b: Item): (r: int)
    ensures r > 0 <==> Precedes(a, b)
    ensures r < 0 <==> Precedes(b, a)
    ensures r == 0 <==> a.fCost == b.fCost && a.hCost == b.hCost
  {
    if a.fCost < b.fCost then 1
    else if a.fCost > b.fCost then -1
    else if a.hCost < b.hCost then 1
    else if a.hCost > b.hCost then -1
    else 0
  }

  /** Urgency is a strict weak order: irreflexive, transitive, and "not less urgent" chains too. */
  lemma PrecedesIsStrictWeakOrder(a: Item, b: Item, c: Item)
    ensures !Precedes(a, a)
    ensures Precedes(a, b) ==> !Precedes(b, a)
    ensures Precedes(a, b) && Precedes(b, c) ==> Precedes(a, c)
    ensures !Precedes(a, b) && !Precedes(b, c) ==> !Precedes(a, c)
  {
  }

  /** Slot of the parent of slot `i` (integer division). */
  function Parent(i: nat): nat
    requires i > 0
  {
    (i - 1) / 2
  }

  function LeftChild(i: nat): nat { 2 * i + 1 }
  function RightChild(i: nat): nat { 2 * i + 2 }

  /** The parent of either child of `i` is `i`; every slot but the root is a child of its parent, which comes earlier. */
  lemma ParentChildren(i: nat, c: nat)
    ensures Parent(LeftChild(i)) == i && Parent(RightChild(i)) == i
    ensures c > 0 ==> Parent(c) < c && (c == LeftChild(Parent(c)) || c == RightChild(Parent(c)))
  {
  }

  /** No item is more urgent than its parent. */
  ghost predicate HeapOrdered(s: seq<Item>)
  {
    forall i :: 0 < i < |s| ==> !Precedes(s[i], s[Parent(i)])
  }

  /** Every item's recorded index is its slot (so distinct slots hold distinct items). */
  ghost predicate IndexValid(s: seq<Item>, heapIndex: map<nat, int>)
  {
    forall i :: 0 <= i < |s| ==> s[i].id in heapIndex && heapIndex[s[i].id] == i
  }

  /** Ordered, except that the item at `k` may be more urgent than its parent. */
  ghost predicate OrderedExceptUp(s: seq<Item>, k: nat)
  {
    && (forall i :: 0 < i < |s| && i != k ==> !Precedes(s[i], s[Parent(i)]))
    && (k > 0 ==> forall c :: 0 < c < |s| && Parent(c) == k ==> !Precedes(s[c], s[Parent(k)]))
  }

  /** Ordered, except that the item at `k` may be less urgent than its children. */
  ghost predicate OrderedExceptDown(s: seq<Item>, k: nat)
  {
    && (forall i :: 0 < i < |s| && Parent(i) != k ==> !Precedes(s[i], s[Parent(i)]))
    && (k > 0 ==> forall c :: 0 < c < |s| && Parent(c) == k ==> !Precedes(s[c], s[Parent(k)]))
  }

  /** No item of `m` has identity `id`. */
  ghost predicate Absent(m: multiset<Item>, id: nat)
  {
    forall x :: x in m ==> x.id != id
  }

  /**
   * Framing of the recorded indices: the same ids stay recorded, and an id
   * no item of `m` (the heap's items afterwards) has keeps its old index.
   */
  ghost predicate EntriesKeptOutside(m: multiset<Item>, before: map<nat, int>, after: map<nat, int>)
  {
    forall id :: id in before ==> id in after && (Absent(m, id) ==> after[id] == before[id])
  }

  function Swapped(s: seq<Item>, i: nat, j: nat): (r: seq<Item>)
    requires i < |s| && j < |s|
    ensures |r| == |s| && multiset(r) == multiset(s)
  {
    s[i := s[j]][j := s[i]]
  }

  /** The heap-order invariant: the root is at least as urgent as every item. */
  lemma RootIsBest(s: seq<Item>)
    requires HeapOrdered(s)
    ensures forall i :: 0 <= i < |s| ==> !Precedes(s[i], s[0])
  {
    forall i | 0 <= i < |s|
      ensures !Precedes(s[i], s[0])
    {
      RootIsBestAt(s, i);
    }
  }

  lemma {:induction false} RootIsBestAt(s: seq<Item>, i: nat)
    requires HeapOrdered(s) && i < |s|
    ensures !Precedes(s[i], s[0])
    decreases i
  {
    if i > 0 {
      RootIsBestAt(s, Parent(i));
    }
  }

  /** One exchange of `sortUp` moves the exception from `k` to its parent. */
  lemma SiftUpStep(s: seq<Item>, k: nat)
    requires 0 < k < |s| && OrderedExceptUp(s, k) && Precedes(s[k], s[Parent(k)])
    ensures OrderedExceptUp(Swapped(s, k, Parent(k)), Parent(k))
  {
    var p := Parent(k);
    var t := Swapped(s, k, p);
    forall i | 0 < i < |t| && i != p
      ensures !Precedes(t[i], t[Parent(i)])
    {
      if i == k {
      } else if Parent(i) == k {
        assert t[i] == s[i] && t[k] == s[p];
      } else if Parent(i) == p {
        assert t[i] == s[i] && t[p] == s[k];
        assert !Precedes(s[i], s[p]);
      } else {
        assert t[i] == s[i] && t[Parent(i)] == s[Parent(i)];
      }
    }
    if p > 0 {
      forall c | 0 < c < |t| && Parent(c) == p
        ensures !Precedes(t[c], t[Parent(p)])
      {
        assert t[Parent(p)] == s[Parent(p)];
        assert !Precedes(s[p], s[Parent(p)]);
        if c == k {
          assert t[c] == s[p];
        } else {
          assert t[c] == s[c];
          assert !Precedes(s[c], s[p]);
        }
      }
    }
  }

  /** When `sortUp` stops (at the root, or below a parent at least as urgent), the order is whole. */
  lemma SiftUpDone(s: seq<Item>, k: nat)
    requires k < |s| && OrderedExceptUp(s, k)
    requires k > 0 ==> !Precedes(s[k], s[Parent(k)])
    ensures HeapOrdered(s)
  {
  }

  /** One exchange of `sortDown` with the more urgent child `m` moves the exception from `k` to `m`. */
  lemma SiftDownStep(s: seq<Item>, k: nat, m: nat)
    requires k < |s| && m < |s| && (m == LeftChild(k) || m == RightChild(k))
    requires OrderedExceptDown(s, k)
    requires forall c :: 0 < c < |s| && Parent(c) == k ==> !Precedes(s[c], s[m])
    requires Precedes(s[m], s[k])
    ensures OrderedExceptDown(Swapped(s, k, m), m)
  {
    var t := Swapped(s, k, m);
    assert Parent(m) == k;
    forall i | 0 < i < |t| && Parent(i) != m
      ensures !Precedes(t[i], t[Parent(i)])
    {
      if i == m {
      } else if Parent(i) == k {
        assert t[i] == s[i] && t[k] == s[m];
      } else if i == k {
        assert t[k] == s[m] && t[Parent(k)] == s[Parent(k)];
      } else {
        assert t[i] == s[i] && t[Parent(i)] == s[Parent(i)];
      }
    }
    forall c | 0 < c < |t| && Parent(c) == m
      ensures !Precedes(t[c], t[Parent(m)])
    {
      assert t[c] == s[c] && t[k] == s[m];
    }
  }

  /** When `sortDown` stops (no child, or no child more urgent), the order is whole. */
  lemma SiftDownDone(s: seq<Item>, k: nat)
    requires k < |s| && OrderedExceptDown(s, k)
    requires forall c :: 0 < c < |s| && Parent(c) == k ==> !Precedes(s[c], s[k])
    ensures HeapOrdered(s)
  {
  }

  class Heap {
    var items: seq<Item>
    var heapIndex: map<nat, int>

    ghost predicate Valid()
      reads this
    {
      IndexValid(items, heapIndex) && HeapOrdered(items)
    }

    /** The item `x` sits at the slot it records. */
    ghost predicate AtRecordedSlot(x: Item)
      reads this
    {
      x.id in heapIndex && 0 <= heapIndex[x.id] < |items| && items[heapIndex[x.id]] == x
    }

    constructor ()
      ensures Valid() && items == [] && heapIndex == map[]
    {
      items := [];
      heapIndex := map[];
    }

    /** `getSize`. */
    function Size(): nat
      reads this
    {
      |items|
    }

    /** A valid heap has size zero exactly when `contains` reports no item present. */
    lemma EmptyIffNothingContained()
      requires Valid()
      ensures Size() == 0 <==> forall x :: Contains(x) != Ok(true)
    {
      if |items| > 0 {
        assert Contains(items[0]) == Ok(true);
      }
    }

    /**
     * `contains`: fails for an item that never had an index recorded;
     * otherwise true when its recorded slot holds it. In a valid heap that is
     * exactly when the item is in the heap, so an item removed earlier (whose
     * stale index now names another item's slot) is reported absent.
     */
    function Contains(item: Item): (r: Result<bool>)
      reads this
      ensures r.Err? <==> item.id !in heapIndex
      ensures Valid() && r.Ok? ==> (r.value <==> exists i :: 0 <= i < |items| && items[i].id == item.id)
    {
      if item.id !in heapIndex then Err("Item does not have a heapIndex!")
      else
        var i := heapIndex[item.id];
        Ok(0 <= i < |items| && items[i].id == item.id)
    }

    /** `swap`: the two items trade slots and recorded indices. */
    method Swap(firstItem: Item, secondItem: Item)
      requires IndexValid(items, heapIndex)
      requires AtRecordedSlot(firstItem) && AtRecordedSlot(secondItem)
      modifies this
      ensures items == Swapped(old(items), old(heapIndex[firstItem.id]) as nat, old(heapIndex[secondItem.id]) as nat)
      ensures IndexValid(items, heapIndex)
      ensures AtRecordedSlot(firstItem) && AtRecordedSlot(secondItem)
      ensures heapIndex[firstItem.id] == old(heapIndex[secondItem.id])
      ensures heapIndex[secondItem.id] == old(heapIndex[firstItem.id])
      ensures heapIndex.Keys == old(heapIndex).Keys
      ensures forall id :: id in old(heapIndex) && id != firstItem.id && id != secondItem.id ==>
        heapIndex[id] == old(heapIndex)[id]
    {
      items := items[heapIndex[firstItem.id] := secondItem];
      items := items[heapIndex[secondItem.id] := firstItem];

      var firstItemIndex := heapIndex[firstItem.id];
      heapIndex := heapIndex[firstItem.id := heapIndex[secondItem.id]];
      heapIndex := heapIndex[secondItem.id := firstItemIndex];
    }

    /**
     * `sortUp`: exchanges the item with its parent while it is more urgent.
     * The source computes the parent as `(heapIndex - 1) / 2` in floating
     * point, which is fractional for even slots, and has no stop at the
     * root; here the parent is the integer `Parent` and the root ends the loop.
     */
    method SortUp(item: Item)
      requires IndexValid(items, heapIndex) && AtRecordedSlot(item)
      requires OrderedExceptUp(items, heapIndex[item.id] as nat)
      modifies this
      ensures Valid()
      ensures multiset(items) == multiset(old(items)) && |items| == |old(items)|
      ensures heapIndex.Keys == old(heapIndex).Keys
      ensures EntriesKeptOutside(multiset(items), old(heapIndex), heapIndex)
    {
      var k: nat := heapIndex[item.id] as nat;
      while k > 0
        invariant IndexValid(items, heapIndex) && k < |items| && items[k] == item && heapIndex[item.id] == k
        invariant OrderedExceptUp(items, k)
        invariant multiset(items) == multiset(old(items)) && |items| == |old(items)|
        invariant heapIndex.Keys == old(heapIndex).Keys
        invariant EntriesKeptOutside(multiset(items), old(heapIndex), heapIndex)
        decreases k
      {
        var parentIndex := Parent(k);
        var parentItem := items[parentIndex];
        if CompareTo(item, parentItem) > 0 {
          assert item in multiset(items) && parentItem in multiset(items);
          SiftUpStep(items, k);
          Swap(item, parentItem);
          k := parentIndex;
        } else {
          break;
        }
      }
      SiftUpDone(items, k);
    }

    /**
     * `sortDown`: exchanges the item with its more urgent child while that
     * child is more urgent than it. Three slips of the source are put right:
     * its `childIndexRight = childIndexLeft++` makes the right child 2i+1 and
     * the left 2i+2 (here left is 2i+1, right 2i+2); it calls an undefined
     * `Swap` (here `swap`); and its `while(true)` exits by `return` (here by
     * the guard "has a left child").
     */
    method SortDown(item: Item)
      requires IndexValid(items, heapIndex) && AtRecordedSlot(item)
      requires OrderedExceptDown(items, heapIndex[item.id] as nat)
      modifies this
      ensures Valid()
      ensures multiset(items) == multiset(old(items)) && |items| == |old(items)|
      ensures heapIndex.Keys == old(heapIndex).Keys
      ensures EntriesKeptOutside(multiset(items), old(heapIndex), heapIndex)
    {
      var k: nat := heapIndex[item.id] as nat;
      while LeftChild(k) < |items|
        invariant IndexValid(items, heapIndex) && k < |items| && items[k] == item && heapIndex[item.id] == k
        invariant OrderedExceptDown(items, k)
        invariant multiset(items) == multiset(old(items)) && |items| == |old(items)|
        invariant heapIndex.Keys == old(heapIndex).Keys
        invariant EntriesKeptOutside(multiset(items), old(heapIndex), heapIndex)
        decreases |items| - k
      {
        var childIndexLeft := LeftChild(k);
        var childIndexRight := RightChild(k);
        var swapIndex := childIndexLeft;
        if childIndexRight < |items| {
          if CompareTo(items[childIndexLeft], items[childIndexRight]) < 0 {
            swapIndex := childIndexRight;
          }
        }
        assert forall c :: 0 < c < |items| && Parent(c) == k ==> c == childIndexLeft || c == childIndexRight;
        if CompareTo(item, items[swapIndex]) < 0 {
          assert item in multiset(items) && items[swapIndex] in multiset(items);
          SiftDownStep(items, k, swapIndex);
          Swap(item, items[swapIndex]);
          k := swapIndex;
        } else {
          SiftDownDone(items, k);
          return;
        }
      }
      SiftDownDone(items, k);
    }

    /**
     * `add`: appends the item, records its slot and sifts it up. The source
     * records `items.length - 1` before the push, one less than the slot the
     * item lands in; here the recorded index is the slot itself. The item
     * must not be in the heap already: each item carries a single
     * `heapIndex`, so one item cannot sit at two slots.
     */
    method Add(item: Item)
      requires Valid()
      requires forall i :: 0 <= i < |items| ==> items[i].id != item.id
      modifies this
      ensures Valid()
      ensures multiset(items) == multiset(old(items)) + multiset{item}
      ensures Contains(item) == Ok(true)
      ensures heapIndex.Keys == old(heapIndex).Keys + {item.id}
      ensures EntriesKeptOutside(multiset(items), old(heapIndex), heapIndex)
    {
      heapIndex := heapIndex[item.id := |items|];
      items := items + [item];
      SortUp(item);
      assert item in multiset(items);
    }

    /**
     * `popFirst`: removes and returns the root, the most urgent item; the
     * last item takes the root's slot and sifts down. On an empty heap the
     * source fails (it writes to a field of `undefined`); that is `None` here.
     * The source also puts the last item back at the root when it was the
     * only one, so a one-item heap never empties; here it does.
     */
    method PopFirst() returns (first: Option<Item>)
      requires Valid()
      modifies this
      ensures Valid()
      ensures old(items) == [] ==> first == None && items == []
      ensures old(items) != [] ==>
        && first == Some(old(items[0]))
        && multiset(items) == multiset(old(items)) - multiset{old(items[0])}
        && |items| == |old(items)| - 1
        && (forall i :: 0 <= i < |old(items)| ==> !Precedes(old(items[i]), first.value))
        && Contains(first.value) == Ok(false)
      ensures heapIndex.Keys == old(heapIndex).Keys
      ensures EntriesKeptOutside(multiset(items), old(heapIndex), heapIndex)
    {
      if |items| == 0 {
        return None;
      }
      RootIsBest(items);
      var firstItem := items[0];
      PoppedIsAbsent(items, heapIndex);
      RemoveRoot();
      AbsentHasNoSlot(items, firstItem.id);
      first := Some(firstItem);
    }

    /** The removal half of `popFirst`: the last item takes the root's slot and sifts down. */
    method RemoveRoot()
      requires Valid() && |items| > 0
      modifies this
      ensures Valid()
      ensures multiset(items) == multiset(old(items)) - multiset{old(items[0])} && |items| == |old(items)| - 1
      ensures heapIndex.Keys == old(heapIndex).Keys
      ensures EntriesKeptOutside(multiset(items), old(heapIndex), heapIndex)
    {
      if |items| == 1 {
        items := [];
        return;
      }
      ghost var oldIndex := heapIndex;
      var lastItem := MoveLastToRoot();
      SortDown(lastItem);
      forall id | id in oldIndex && Absent(multiset(items), id)
        ensures heapIndex[id] == oldIndex[id]
      {
        assert lastItem in multiset(items);
      }
    }

    /** The last item leaves its slot and takes the root's, whose item is dropped. */
    method MoveLastToRoot() returns (lastItem: Item)
      requires Valid() && |items| > 1
      modifies this
      ensures lastItem == old(items[|items| - 1]) && lastItem in multiset(items)
      ensures IndexValid(items, heapIndex) && AtRecordedSlot(lastItem) && OrderedExceptDown(items, 0)
      ensures heapIndex[lastItem.id] == 0
      ensures multiset(items) == multiset(old(items)) - multiset{old(items[0])} && |items| == |old(items)| - 1
      ensures heapIndex.Keys == old(heapIndex).Keys
      ensures heapIndex == old(heapIndex)[lastItem.id := 0]
    {
      var n := |items| - 1;
      lastItem := items[n];
      LastToRoot(items, heapIndex);
      KeysAfterUpdate(heapIndex, lastItem.id, 0);
      heapIndex := heapIndex[lastItem.id := 0];
      items := items[..n][0 := lastItem];
      assert items[0] == lastItem;
    }

    /**
     * `update`: after an item's costs change, it is sifted up. The source
     * sifts only upward, which restores the order exactly when the item did
     * not become less urgent (the path search only ever lowers costs); that
     * is required here. The new costs come in as `item`, with the same id.
     */
    method Update(item: Item)
      requires Valid()
      requires item.id in heapIndex && 0 <= heapIndex[item.id] < |items| && items[heapIndex[item.id]].id == item.id
      requires !Precedes(items[heapIndex[item.id]], item)
      modifies this
      ensures Valid()
      ensures multiset(items) == multiset(old(items)) - multiset{old(items[heapIndex[item.id]])} + multiset{item}
      ensures heapIndex.Keys == old(heapIndex).Keys
      ensures EntriesKeptOutside(multiset(items), old(heapIndex), heapIndex)
    {
      var k: nat := heapIndex[item.id] as nat;
      UpdateKeepsOrderExceptUp(items, k, item);
      items := items[k := item];
      SortUp(item);
    }
  }

  /** Dropping the last slot and moving its item to the root leaves the order broken at most below the root. */
  lemma LastToRoot(s: seq<Item>, heapIndex: map<nat, int>)
    requires |s| > 0 && IndexValid(s, heapIndex) && HeapOrdered(s)
    ensures var n := |s| - 1;
      && multiset(s[..n]) == multiset(s) - multiset{s[n]}
      && (n > 0 ==>
        var t := s[..n][0 := s[n]];
        && multiset(t) == multiset(s) - multiset{s[0]}
        && IndexValid(t, heapIndex[s[n].id := 0])
        && OrderedExceptDown(t, 0))
  {
    var n := |s| - 1;
    assert s == s[..n] + [s[n]];
    if n > 0 {
      var t := s[..n][0 := s[n]];
      assert s == [s[0]] + s[1..n] + [s[n]];
      assert t == [s[n]] + s[1..n];
      forall i | 0 <= i < |t|
        ensures t[i].id in heapIndex[s[n].id := 0] && heapIndex[s[n].id := 0][t[i].id] == i
      {
        if i > 0 {
          assert t[i] == s[i];
          assert heapIndex[s[i].id] == i;
        }
      }
      forall i | 0 < i < |t| && Parent(i) != 0
        ensures !Precedes(t[i], t[Parent(i)])
      {
        assert t[i] == s[i] && t[Parent(i)] == s[Parent(i)];
      }
    }
  }

  /** In a heap whose index is valid, ids are unique, so removing the root leaves no item with its id. */
  lemma PoppedIsAbsent(s: seq<Item>, heapIndex: map<nat, int>)
    requires |s| > 0 && IndexValid(s, heapIndex)
    ensures Absent(multiset(s) - multiset{s[0]}, s[0].id)
  {
    assert s == [s[0]] + s[1..];
    assert s[0] !in multiset(s[1..]) by {
      forall j | 1 <= j < |s|
        ensures s[j] != s[0]
      {
        assert heapIndex[s[j].id] == j;
      }
    }
    forall x | x in multiset(s) - multiset{s[0]}
      ensures x.id != s[0].id
    {
      assert x in multiset(s[1..]);
      var j :| 0 <= j < |s[1..]| && s[1..][j] == x;
      assert heapIndex[s[j + 1].id] == j + 1;
    }
  }

  lemma KeysAfterUpdate(m: map<nat, int>, k: nat, v: int)
    requires k in m
    ensures m[k := v].Keys == m.Keys
  {
  }

  lemma AbsentHasNoSlot(s: seq<Item>, id: nat)
    requires Absent(multiset(s), id)
    ensures forall i :: 0 <= i < |s| ==> s[i].id != id
  {
    forall i | 0 <= i < |s|
      ensures s[i].id != id
    {
      assert s[i] in multiset(s);
    }
  }

  /** Making the item at `k` more urgent leaves the order broken at most between `k` and its parent. */
  lemma UpdateKeepsOrderExceptUp(s: seq<Item>, k: nat, item: Item)
    requires k < |s| && HeapOrdered(s) && !Precedes(s[k], item)
    ensures OrderedExceptUp(s[k := item], k)
  {
    var t := s[k := item];
    forall i | 0 < i < |t| && i != k
      ensures !Precedes(t[i], t[Parent(i)])
    {
      assert t[i] == s[i];
      if Parent(i) == k {
        assert !Precedes(s[i], s[k]);
      }
    }
    if k > 0 {
      forall c | 0 < c < |t| && Parent(c) == k
        ensures !Precedes(t[c], t[Parent(k)])
      {
        assert t[c] == s[c] && t[Parent(k)] == s[Parent(k)];
        assert !Precedes(s[c], s[k]) && !Precedes(s[k], s[Parent(k)]);
      }
    }
  }
}
