/** `Counter` (lib/counter.0.ts): a `Map` from keys to counts whose `add`
    starts missing keys at `starting` and adds `defaultAdd` when no count is
    given. Counts are unbounded integers (the `bigint` instantiation). */
module Counters {
  import opened Wrappers
  import NativeMaps

  class Counter<K(==)> {
    /** The underlying `Map`'s entries. */
    var entries: map<K, int>
    const starting: int
    const defaultAdd: int

    /** lib/counter.0.ts:2-4: the counter starts with the given entries,
        a later pair with an equal key replacing an earlier one. */
    constructor (starting: int, defaultAdd: int, pairs: seq<(K, int)>)
      ensures this.starting == starting && this.defaultAdd == defaultAdd
      ensures entries == NativeMaps.FromEntries(pairs)
    {
      this.starting := starting;
      this.defaultAdd := defaultAdd;
      entries := NativeMaps.FromEntries(pairs);
    }

    /** The count `add` would start from. */
    function Current(item: K): (r: int)
      reads this
      ensures item in entries ==> r == entries[item]
      ensures item !in entries ==> r == starting
    {
      if item in entries then entries[item] else starting
    }

    /** lib/counter.0.ts:5-11: adds `count` (or `defaultAdd`) to the item's
        count (or to `starting`), stores it and returns it; no other key changes. */
    method Add(item: K, count: Option<int>) returns (value: int)
      modifies this
      ensures value == old(Current(item)) + (if count.Some? then count.value else defaultAdd)
      ensures entries == old(entries)[item := value]
      ensures entries.Keys == old(entries.Keys) + {item}
      ensures forall k :: k in old(entries) && k != item ==> entries[k] == old(entries)[k]
    {
      var add := if count.Some? then count.value else defaultAdd;
      value := Current(item) + add;
      entries := entries[item := value];
    }
  }

  /** Counting a list of items with unit steps from zero leaves each key at the
      number of its occurrences. */
  function Occurrences<K(==)>(items: seq<K>, k: K): (n: nat)
    ensures n <= |items|
    ensures n == 0 <==> k !in items
  {
    if items == [] then 0
    else Occurrences(items[..|items| - 1], k) + (if items[|items| - 1] == k then 1 else 0)
  }

  /** Adding each item once, with the default step of one from a start of
      zero, counts its occurrences: the way the puzzle solutions use `Counter`. */
  method CountAll<K(==)>(items: seq<K>) returns (counts: map<K, int>)
    ensures counts.Keys == NativeMaps.FromItems(items)
    ensures forall k :: k in counts ==> counts[k] == Occurrences(items, k)
  {
    var counter := new Counter<K>(0, 1, []);
    for n := 0 to |items|
      invariant counter.starting == 0 && counter.defaultAdd == 1
      invariant counter.entries.Keys == NativeMaps.FromItems(items[..n])
      invariant forall k :: k in counter.entries ==> counter.entries[k] == Occurrences(items[..n], k)
    {
      assert items[..n + 1][..n] == items[..n];
      var _ := counter.Add(items[n], None);
    }
    assert items[..|items|] == items;
    counts := counter.entries;
  }
}
