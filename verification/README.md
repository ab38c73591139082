# Randomized set

A model of `BaseRandomizedSetImpl<T>`, a generic randomized set. The set supports add, remove,
contains, size and clear, and it can also return one of its items at random in constant time.
It keeps two structures that are always updated together:

- `itemList` is a dense list of the held items. It has no holes, so a random slot in
  `[0, size)` is always a held item.
- `indexMap` maps each held item to its slot in `itemList`.

`add` appends a new item and records its slot, and does nothing if the item is already held.
`remove` works by swap-to-end. The last item moves into the removed item's slot and its index
entry is updated. Then the last slot and the removed item's entry are dropped, so the list never
gets a hole. `getRandom` fails when the set is empty. Otherwise it returns the item at a random
slot.

The project has two modules:

- `IndexedList` (`indexed_list.dfy`) works on plain values: a `seq<T>` and a `map<T, int>`.
  - It states the joint invariant `Consistent`. This says the list and the index are mutually
    inverse, the list has no duplicates, and both have the same size.
  - It defines `Swap`, which models `Collections.swap`, and `SwapToEnd`, the list left after a
    swap-to-end removal.
  - Its lemmas prove that appending an item and swap-to-end removal both keep the invariant.
    They also prove what each step does to the set of held items.
- `RandomizedSets` (`randomized_set.dfy`) holds the class `RandomizedSet<T>`.
  - Its fields `itemList: seq<T>` and `indexMap: map<T, int>` are reassigned in place by
    `Add`, `Remove` and `Clear`.
  - `Valid()` is the joint invariant on those fields, and `Elements()` is the abstract set.
  - The mutating methods state their whole new state and the new abstract set.
  - `GetRandom`, `Size` and `Contains` are read-only queries.

The `Set` interface declares `add` and `remove` as returning `boolean`, but the implementation's
`add` and `remove` return nothing. The model follows the implementation: `Add` and `Remove` have
no result, and their effect is stated as postconditions.

## Model

| member | source | states |
|---|---|---|
| `IndexedList.InverseIsConsistent` | src/main/java/tr/unvercanunlu/randomized_set/service/impl/BaseRandomizedSetImpl.java:18-19 | If `itemList` and `indexMap` are mutually inverse, then the list has no duplicates, the map's keys are exactly the listed items, and `indexMap.size() == itemList.size()` |
| `IndexedList.DistinctMembersCount` | src/main/java/tr/unvercanunlu/randomized_set/service/impl/BaseRandomizedSetImpl.java:88-90 | A list without duplicates holds as many distinct items as it has slots, so a size read from the map counts the distinct held items |
| `IndexedList.OneSlotPerMember` | src/main/java/tr/unvercanunlu/randomized_set/service/impl/BaseRandomizedSetImpl.java:31-37 | Under the invariant, every held item sits in exactly one slot of `[0, size)`, the slot its index entry names, so slots and held items correspond one-to-one. A uniform slot draw, which is not modelled, would give each item the same chance |
| `IndexedList.Swap` | src/main/java/tr/unvercanunlu/randomized_set/service/impl/BaseRandomizedSetImpl.java:78 | `Collections.swap` exchanges the two slots, leaves every other slot alone and yields a permutation of the list |
| `IndexedList.SwapToEnd` | src/main/java/tr/unvercanunlu/randomized_set/service/impl/BaseRandomizedSetImpl.java:73-83 | Swap-to-end removal of slot `i` shortens the list by one. Every slot except `i` keeps its item, slot `i` (if it remains) gets the former last item, and the removed item is the only item taken out (as multisets) |
| `IndexedList.AppendKeepsConsistent` | src/main/java/tr/unvercanunlu/randomized_set/service/impl/BaseRandomizedSetImpl.java:48-52 | Appending an absent item and mapping it to the old size keeps the invariant. The held items become the old ones plus that item, and their count grows by exactly one |
| `IndexedList.SwapToEndKeepsConsistent` | src/main/java/tr/unvercanunlu/randomized_set/service/impl/BaseRandomizedSetImpl.java:63-84 | For a held item, its slot lies in `[0, size)`. Swap-to-end with the former last item re-indexed to that slot, and the item's entry deleted, keeps the invariant. The held items lose exactly that item, and their count drops by one |
| `RandomizedSets.RandomizedSet.constructor` | src/main/java/tr/unvercanunlu/randomized_set/service/impl/BaseRandomizedSetImpl.java:18-19 | A new set has an empty list and an empty map, holds nothing, and satisfies the invariant |
| `RandomizedSets.RandomizedSet.GetRandom` | src/main/java/tr/unvercanunlu/randomized_set/service/impl/BaseRandomizedSetImpl.java:22-37 | Fails with `SetEmpty` exactly when the set is empty. Otherwise it returns `itemList[k]` for some `0 <= k < size`, an item that is in the index and in the abstract set |
| `RandomizedSets.RandomizedSet.Add` | src/main/java/tr/unvercanunlu/randomized_set/service/impl/BaseRandomizedSetImpl.java:41-53 | Keeps the invariant. A held item leaves both structures unchanged. A new item is appended at the end and mapped to the old size, and every earlier slot and entry is unchanged. The abstract set gains the item |
| `RandomizedSets.RandomizedSet.Remove` | src/main/java/tr/unvercanunlu/randomized_set/service/impl/BaseRandomizedSetImpl.java:56-85 | Keeps the invariant. An absent item changes nothing. For a held item, the list becomes its swap-to-end at the item's slot, and only the former last item is re-indexed, to that slot. The item's entry is gone, the abstract set loses exactly the item, and the size drops by one. `Lookup` stands for `HashMap.get`: it gives the slot of a held key, and `None` where Java returns `null`. The `IllegalStateException` branch taken on `None` is proved dead |
| `RandomizedSets.RandomizedSet.Size` | src/main/java/tr/unvercanunlu/randomized_set/service/impl/BaseRandomizedSetImpl.java:88-90 | The map's size equals the length of the list and the number of distinct held items |
| `RandomizedSets.RandomizedSet.Clear` | src/main/java/tr/unvercanunlu/randomized_set/service/impl/BaseRandomizedSetImpl.java:93-96 | From any state, leaves both structures empty and the invariant holding, so nothing is held and the size is 0 |
| `RandomizedSets.RandomizedSet.Contains` | src/main/java/tr/unvercanunlu/randomized_set/service/impl/BaseRandomizedSetImpl.java:99-101 | The map lookup answers true exactly when the item is in the dense list, and then the item's indexed slot holds it |

## Left out

- `synchronized` on every method is left out. The model runs operations as sequential calls on one object, so mutual exclusion and linearizability are not modelled.
- `ThreadLocalRandom.current().nextInt` is not modelled. `GetRandom` picks the slot nondeterministically from `[0, size)`. Whether the draw is uniform is a statistical property and cannot be stated here. `OneSlotPerMember` states the structural half: every held item has exactly one slot.
- Logging through `log.info` and `log.error`, and the `Objects.toString` calls in log messages, are left out because they do not change any state.
- Java's `HashMap` and `ArrayList` internals are left out: hashing, resizing and `null` keys. Items compare by Dafny equality, the index is a `map<T, int>` and the list is a `seq<T>`.
- Remove: in Java the `itemIndex == null` branch could only be reached if a `null` value were stored in the map. In the model the map's values are integers, so the branch is dead because the key was just found. The part that does depend on the invariant is that the found slot lies in `[0, size)`. `SwapToEndKeepsConsistent` proves it.
- Add: does not model the `int` limit on `ArrayList` sizes and slot numbers. Sizes and slots are unbounded integers.
- `RandomizedSet`, the interface the class implements, is not part of this model. The `Set` interface has only declarations and is not modelled.
