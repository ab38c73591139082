/**
 A randomized set: a set that can also hand back one of its items, drawn from a
 dense list of the items, in constant time. The object keeps that list and an
 index from each item to its slot, and every mutating method updates both
 together so that the joint invariant of `IndexedList.Consistent` holds between
 calls.
 */
module RandomizedSets {
  import opened IndexedList

  /** The one failure `GetRandom` reports: nothing to pick from. */
  datatype Error = SetEmpty

  datatype Result<T> = Success(value: T) | Failure(error: Error)

  /** What a map lookup gives back: the stored slot, or nothing for a missing key. */
  datatype Option<T> = None | Some(value: T)

  /** `HashMap.get`: the value for a present key, and `None` where Java returns `null`. */
  function Lookup<K, V>(m: map<K, V>, key: K): Option<V>
  {
    if key in m then Some(m[key]) else None
  }

  class RandomizedSet<T(==)> {
    /** The held items, densely packed from slot 0. */
    var itemList: seq<T>
    /** The slot of each held item in `itemList`. */
    var indexMap: map<T, int>

    ghost predicate Valid()
      reads this
    {
      Consistent(itemList, indexMap)
    }

    /** The abstract set the object stands for. */
    ghost function Elements(): set<T>
      reads this
    {
      Members(itemList)
    }

    constructor ()
      ensures Valid()
      ensures itemList == [] && indexMap == map[]
      ensures Elements() == {}
    {
      itemList := [];
      indexMap := map[];
    }

    /**
     Fails with `SetEmpty` exactly when nothing is held; otherwise returns the
     item in some slot of the dense list, which `Contains` reports as held. The
     slot is chosen nondeterministically from `[0, |itemList|)`.
     */
    method GetRandom() returns (r: Result<T>)
      requires Valid()
      ensures r.Failure? <==> Elements() == {}
      ensures r.Success? ==> exists k :: 0 <= k < |itemList| && itemList[k] == r.value
      ensures r.Success? ==> r.value in indexMap && r.value in Elements()
    {
      if |indexMap| == 0 {
        assert itemList == [];
        return Failure(SetEmpty);
      }
      var gapStart, gapEnd := 0, |itemList|;
      var randomIndex :| gapStart <= randomIndex < gapEnd;
      assert itemList[randomIndex] in Elements();
      return Success(itemList[randomIndex]);
    }

    /**
     Adds `item` at the end of the list unless it is already held, in which case
     nothing changes at all.
     */
    method Add(item: T)
      requires Valid()
      modifies this
      ensures Valid()
      ensures old(item in indexMap) ==> itemList == old(itemList) && indexMap == old(indexMap)
      ensures old(item !in indexMap) ==>
                && itemList == old(itemList) + [item]
                && indexMap == old(indexMap)[item := old(|itemList|)]
      ensures Elements() == old(Elements()) + {item}
      ensures |Elements()| == old(|Elements()|) + (if old(item in Elements()) then 0 else 1)
    {
      if item in indexMap {
        return;
      }
      AppendKeepsConsistent(itemList, indexMap, item);
      itemList := itemList + [item];
      var itemIndex := |itemList| - 1;
      indexMap := indexMap[item := itemIndex];
    }

    /**
     Removes `item` if it is held, by swap-to-end: the last item moves into the
     removed item's slot and takes over its index, then the last slot and the
     removed item's entry are dropped. An absent item changes nothing.
     */
    method Remove(item: T)
      requires Valid()
      modifies this
      ensures Valid()
      ensures old(item !in indexMap) ==> itemList == old(itemList) && indexMap == old(indexMap)
      ensures old(item in indexMap) ==>
                var i, lastItem := old(indexMap[item]), old(itemList[|itemList| - 1]);
                && itemList == SwapToEnd(old(itemList), i)
                && indexMap == old(indexMap)[lastItem := i] - {item}
      ensures item !in indexMap
      ensures Elements() == old(Elements()) - {item}
      ensures |Elements()| == old(|Elements()|) - (if old(item in Elements()) then 1 else 0)
    {
      if item !in indexMap {
        return;
      }
      var itemIndex := Lookup(indexMap, item);
      if itemIndex.None? {
        // The internal-problem branch: the key has just been found, so its
        // lookup cannot come back empty.
        assert false;
      }
      ghost var items, index := itemList, indexMap;
      SwapToEndKeepsConsistent(items, index, item);
      var lastIndex := |itemList| - 1;
      if itemIndex.value != lastIndex {
        var lastItem := itemList[lastIndex];
        itemList := Swap(itemList, itemIndex.value, lastIndex);
        indexMap := indexMap[lastItem := itemIndex.value];
      } else {
        assert index[items[lastIndex] := itemIndex.value] == index;
      }
      itemList := itemList[..lastIndex];
      indexMap := indexMap - {item};
      assert itemList == SwapToEnd(items, itemIndex.value);
    }

    /** The number of held items: the size of the index and of the list. */
    method Size() returns (n: int)
      requires Valid()
      ensures n == |itemList|
      ensures n == |Elements()|
    {
      InverseIsConsistent(itemList, indexMap);
      DistinctMembersCount(itemList);
      n := |indexMap|;
    }

    /** Drops every item; works from any state and leaves the invariant holding. */
    method Clear()
      modifies this
      ensures Valid()
      ensures itemList == [] && indexMap == map[]
      ensures Elements() == {}
    {
      itemList := [];
      indexMap := map[];
    }

    /** Whether `item` is held, answered from the index alone. */
    method Contains(item: T) returns (r: bool)
      requires Valid()
      ensures r <==> item in Elements()
      ensures r ==> itemList[indexMap[item]] == item
    {
      InverseIsConsistent(itemList, indexMap);
      r := item in indexMap;
    }
  }
}
