/**
 The value-level view of a randomized set: a dense list of items together with
 an index that maps every item to its slot in that list. This module states the
 joint invariant of the two structures and proves that appending an item, and
 removing one by swap-to-end, keep it.
 */
module IndexedList {

  /** The set of items held in a list. */
  function Members<T(==)>(items: seq<T>): set<T>
  {
    set x | x in items
  }

  /** No item occupies two slots. */
  ghost predicate NoDuplicates<T>(items: seq<T>)
  {
    forall i, j :: 0 <= i < j < |items| ==> items[i] != items[j]
  }

  /** `index[x] == i` exactly when `items[i] == x`. */
  ghost predicate Inverse<T>(items: seq<T>, index: map<T, int>)
  {
    && (forall i :: 0 <= i < |items| ==> items[i] in index && index[items[i]] == i)
    && (forall x :: x in index ==> 0 <= index[x] < |items| && items[index[x]] == x)
  }

  /** The joint invariant: mutually inverse, no duplicates, and equal sizes. */
  ghost predicate Consistent<T>(items: seq<T>, index: map<T, int>)
  {
    Inverse(items, index) && NoDuplicates(items) && |index| == |items|
  }

  /** A list without duplicates holds as many distinct items as it has slots. */
  lemma {:induction false} DistinctMembersCount<T>(items: seq<T>)
    requires NoDuplicates(items)
    ensures |Members(items)| == |items|
  {
    if items != [] {
      var n := |items| - 1;
      var prefix := items[..n];
      assert NoDuplicates(prefix) by {
        forall i, j | 0 <= i < j < |prefix| ensures prefix[i] != prefix[j] {
          assert prefix[i] == items[i] && prefix[j] == items[j];
        }
      }
      DistinctMembersCount(prefix);
      assert items == prefix + [items[n]];
      assert Members(items) == Members(prefix) + {items[n]};
      assert items[n] !in Members(prefix);
    }
  }

  /**
   Mutual inverseness alone already forces the other two parts of the
   invariant: the list has no duplicates, the index's keys are exactly the
   listed items, and both structures have the same size.
   */
  lemma InverseIsConsistent<T>(items: seq<T>, index: map<T, int>)
    requires Inverse(items, index)
    ensures NoDuplicates(items)
    ensures index.Keys == Members(items)
    ensures |index| == |items|
  {
    assert NoDuplicates(items) by {
      forall i, j | 0 <= i < j < |items| ensures items[i] != items[j] {
        assert index[items[i]] == i && index[items[j]] == j;
      }
    }
    assert index.Keys == Members(items) by {
      forall x | x in Members(items) ensures x in index {
        var i :| 0 <= i < |items| && items[i] == x;
      }
    }
    DistinctMembersCount(items);
    assert |index| == |index.Keys|;
  }

  /**
   Under the invariant every held item sits in exactly one slot, the one its
   index entry names, so slots and held items correspond one to one.
   */
  lemma OneSlotPerMember<T>(items: seq<T>, index: map<T, int>, x: T)
    requires Consistent(items, index)
    requires x in Members(items)
    ensures x in index && 0 <= index[x] < |items|
    ensures forall k :: 0 <= k < |items| ==> (items[k] == x <==> k == index[x])
  {
  }

  /** Exchange the items in slots `i` and `j`. */
  function Swap<T>(items: seq<T>, i: nat, j: nat): (r: seq<T>)
    requires i < |items| && j < |items|
    ensures |r| == |items|
    ensures r[i] == items[j] && r[j] == items[i]
    ensures forall k :: 0 <= k < |r| && k != i && k != j ==> r[k] == items[k]
    ensures multiset(r) == multiset(items)
  {
    items[i := items[j]][j := items[i]]
  }

  /**
   Swap-to-end removal of slot `i`: the last item moves into slot `i` and the
   last slot is dropped. No slot is left empty; only the former last item moves.
   */
  function SwapToEnd<T>(items: seq<T>, i: nat): (r: seq<T>)
    requires i < |items|
    ensures |r| == |items| - 1
    ensures forall k :: 0 <= k < |r| && k != i ==> r[k] == items[k]
    ensures i < |r| ==> r[i] == items[|items| - 1]
    ensures multiset(r) + multiset{items[i]} == multiset(items)
  {
    var last := |items| - 1;
    var swapped := Swap(items, i, last);
    assert swapped == swapped[..last] + [items[i]];
    swapped[..last]
  }

  /**
   Appending a new item at slot `|items|` and indexing it there keeps the
   invariant; the held items grow by exactly that item.
   */
  lemma AppendKeepsConsistent<T>(items: seq<T>, index: map<T, int>, x: T)
    requires Consistent(items, index)
    requires x !in index
    ensures Consistent(items + [x], index[x := |items|])
    ensures Members(items + [x]) == Members(items) + {x}
    ensures |Members(items + [x])| == |Members(items)| + 1
  {
  }

  /**
   Removing a held item `x` by swap-to-end keeps the invariant when the index
   of the former last item is moved to `x`'s slot and `x`'s entry is deleted;
   the held items shrink by exactly `x`.
   */
  lemma SwapToEndKeepsConsistent<T>(items: seq<T>, index: map<T, int>, x: T)
    requires Consistent(items, index)
    requires x in index
    ensures var i, last := index[x], |items| - 1;
            && 0 <= i <= last
            && Consistent(SwapToEnd(items, i), index[items[last] := i] - {x})
            && Members(SwapToEnd(items, i)) == Members(items) - {x}
            && |Members(SwapToEnd(items, i))| == |Members(items)| - 1
  {
  }
}
