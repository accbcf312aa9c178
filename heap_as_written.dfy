/**
 * The heap's operations as its code is written, where that differs from the
 * evident intent modelled in module Heaps, each with an input that shows the
 * difference. Items and the comparator are those of module Heaps.
 */
module HeapAsWritten {
  import opened Wrappers
  import opened Heaps

  /** `contains` as written: an item is present when its recorded slot holds it. */
  function ContainsAsWritten(items: seq<Item>, heapIndex: map<nat, int>, item: Item): (r: Result<bool>)
    ensures r.Err? <==> item.id !in heapIndex
    ensures r == Ok(true) ==> item in items
  {
    if item.id !in heapIndex then Err("Item does not have a heapIndex!")
    else
      var i := heapIndex[item.id];
      Ok(0 <= i < |items| && items[i] == item)
  }

  /**
   * `add` as written, up to its call of `sortUp`: the recorded index is
   * taken before the push, so it is one below the slot the item lands in.
   */
  function AddAsWritten(items: seq<Item>, heapIndex: map<nat, int>, item: Item): (r: (seq<Item>, map<nat, int>))
    ensures r.0 == items + [item] && item.id in r.1
    ensures r.1[item.id] == |r.0| - 2
  {
    (items + [item], heapIndex[item.id := |items| - 1])
  }

  /** The first item added to an empty heap records index -1, and `contains` reports it absent. */
  lemma AddAsWrittenMisrecords(item: Item)
    ensures AddAsWritten([], map[], item).1[item.id] == -1
    ensures ContainsAsWritten(AddAsWritten([], map[], item).0, AddAsWritten([], map[], item).1, item) == Ok(false)
  {
  }

  /** The parent slot `sortUp` reads, computed as the source does, in floating point. */
  function SortUpParentAsWritten(heapIndex: int): (r: real)
    ensures r * 2.0 == heapIndex as real - 1.0
  {
    (heapIndex as real - 1.0) / 2.0
  }

  /**
   * For a slot above the root, the source's parent is a whole slot exactly
   * when the slot is odd, and then it is `Parent`; from an even slot it reads
   * a fractional slot, which holds nothing. At the root it reads slot -0.5.
   */
  lemma SortUpParentAsWrittenIsFractional(h: nat)
    ensures h > 0 ==> (SortUpParentAsWritten(h) == Parent(h) as real <==> h % 2 == 1)
    ensures h > 0 && h % 2 == 0 ==> SortUpParentAsWritten(h) == Parent(h) as real + 0.5
    ensures SortUpParentAsWritten(0) == -0.5
  {
  }

  /**
   * One pass of `sortDown`'s loop on `s` with the item at `k`, as written:
   * `childIndexRight = childIndexLeft++` makes the right child 2k+1 and the
   * left 2k+2, and the exchange calls `Swap`, which is not defined, so an
   * exchange fails. Without an exchange the loop returns and `s` is kept.
   */
  function SortDownAsWritten(s: seq<Item>, k: nat): (r: Result<seq<Item>>)
    requires k < |s|
    ensures r.Ok? ==> r.value == s
    ensures r.Ok? <==> 2 * k + 2 >= |s| || (!Precedes(s[2 * k + 1], s[k]) && !Precedes(s[2 * k + 2], s[k]))
  {
    var childIndexRight := 2 * k + 1;
    var childIndexLeft := 2 * k + 2;
    if childIndexLeft < |s| then
      var swapIndex :=
        if childIndexRight < |s| && CompareTo(s[childIndexLeft], s[childIndexRight]) < 0
        then childIndexRight else childIndexLeft;
      if CompareTo(s[k], s[swapIndex]) < 0 then Err("Swap is not defined")
      else Ok(s)
    else Ok(s)
  }

  datatype Popped = Popped(items: seq<Item>, first: Item)

  /**
   * `popFirst` as written, on a non-empty heap: the last item is removed and
   * written to slot 0, which puts it back when it was the only item, and then
   * `sortDown` as written runs.
   */
  function PopFirstAsWritten(s: seq<Item>): (r: Result<Popped>)
    requires |s| > 0
    ensures r.Ok? ==> r.value.first == s[0] && |r.value.items| == if |s| == 1 then 1 else |s| - 1
  {
    var n := |s|;
    var rest := s[..n - 1];
    var t := if |rest| == 0 then [s[n - 1]] else rest[0 := s[n - 1]];
    match SortDownAsWritten(t, 0)
    case Err(m) => Err(m)
    case Ok(u) => Ok(Popped(u, s[0]))
  }

  /** Popping the only item leaves it in the heap: the heap never empties. */
  lemma PopFirstAsWrittenNeverEmpties(x: Item)
    ensures PopFirstAsWritten([x]) == Ok(Popped([x], x))
  {
  }

  /**
   * Popping from three items ordered by fCost 1, 2, 5 leaves the item of cost
   * 5 above the one of cost 2: the only child, at slot 1, is never compared.
   */
  lemma PopFirstAsWrittenLeavesDisorder()
    ensures var a, b, c := Item(0, 1, 0), Item(1, 2, 0), Item(2, 5, 0);
      && HeapOrdered([a, b, c])
      && PopFirstAsWritten([a, b, c]) == Ok(Popped([c, b], a))
      && !HeapOrdered([c, b])
  {
    var a, b, c := Item(0, 1, 0), Item(1, 2, 0), Item(2, 5, 0);
    assert [a, b, c][..2][0 := c] == [c, b];
    assert Parent(1) == 0;
  }

  /** Popping from four items ordered by fCost 1, 2, 3, 9 needs an exchange, and the exchange fails. */
  lemma PopFirstAsWrittenFailsOnExchange()
    ensures var a, b, c, d := Item(0, 1, 0), Item(1, 2, 0), Item(2, 3, 0), Item(3, 9, 0);
      && HeapOrdered([a, b, c, d])
      && PopFirstAsWritten([a, b, c, d]) == Err("Swap is not defined")
  {
    var a, b, c, d := Item(0, 1, 0), Item(1, 2, 0), Item(2, 3, 0), Item(3, 9, 0);
    assert [a, b, c, d][..3][0 := d] == [d, b, c];
    assert Parent(1) == 0 && Parent(2) == 0 && Parent(3) == 1;
  }
}
