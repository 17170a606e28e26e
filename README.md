# ec-2025 `lib/` in Dafny

This project models the reusable library under `lib/` of the ec-2025 puzzle
repository and proves properties of it. The puzzle scripts that use the
library are not modelled. One Dafny module stands for each library file:

- `Deques` (`deque.dfy`) models `Deque`. It is a class over an
  `array<Option<T>>` with the `front`, `back` and `size` cursors, a growth
  factor or a sliding window, and the three delete strategies. A ghost
  `Contents` holds the items front to back, and `Valid` ties the ring layout
  to it. Every operation is stated against `Contents`, and the tail of the
  file shows the push/pop orders with `Reversed`.
- `Heaps` (`heap.dfy`) models `BinaryHeap`. It is a class over a `seq` laid
  out as an implicit binary tree and ordered by a caller's comparator. Sift-up
  and sift-down are loops proved against the heap invariant and the multiset
  of items. Draining is proved to give the items in comparator order.
  `reduce` runs in array order; it is a loop proved equal to a left fold, and
  the fold is proved independent of that order for commutative callbacks.
- `PackedSets`, `HashedSets`, `PackedMaps` and `HashedMaps` model the four
  adapters over a native `Set` or `Map`.
  - The native container is a Dafny `set` or `map` field, keyed by the packed
    or hashed key.
  - The packer, unpacker and hasher are function parameters.
  - Collision behaviour is shown by small scenarios. Two keys with one packed
    value count once. A later key with an equal hash replaces the earlier one.
- `Points2D` and `Points3D` model the point codecs.
  - A coordinate is its IEEE 754 bit pattern (`bv64` for binary64, `bv32` for
    binary32). The aliased typed-array views become pure bit-vector functions,
    helped by `Floats`.
  - `pack`, `pack32`, `packInt21` and `packFloat21` come with their round
    trips, and `hash` with "never NaN or infinite".
  - `offsets` is modelled over integers. Each loop is a method proved equal
    to a specification built with `Ranges.Concat`, and a membership lemma says
    which offsets the result holds.
- `Grids` (`grid.dfy`) models `Grid`. It is a class with `rows`, `cols` and a
  row-major `seq` of cells, in either the `Rc` or the `Xy` coordinate system.
  - Index and coordinate conversion, bounds checks and cell access are
    functions.
  - `cellSet`, `fill`, `rotate`, `mirror` and `translate` are methods that
    reassign the cells.
  - Each rearrangement is a scatter loop. It is proved equal to a gather
    function `Rearranged`, and the inverse pairs (90/270, each mirror twice,
    opposite shifts) are proved to cancel.
- `Utils` (`utils.dfy`) models `clamp`, `factorial`, `gcd` (a loop), `lcm`,
  `modP`, `divMod`, `sum` and `groupBy` (a loop over a map), using JavaScript's
  truncating `%` (`Rem`).
- `Counters` (`counter.dfy`) models `Counter.add` as a class over a `map`.

`Wrappers` holds `Option` and `Result`. Every thrown error of the source
becomes a `Failure` carrying `OutOfBounds`, `InvalidArgument` or `EmptyReduce`,
and every `undefined` return becomes `None`. `NativeMaps` says how a native
`Map` or `Set` is built from a list, later entries winning. `Ranges` holds the
list-building combinator behind the `offsets` loops, and `Reversed`, the one
back-to-front reading shared by the deque's `itemsBack` and the grid's
`reverse()`.

## Model

| member | source | states |
|---|---|---|
| Utils.Clamp | lib/utils.0.ts:9-11 | the result lies in [min, max] when min ≤ max; it is the value itself when already inside, the nearer bound otherwise, and `min` when min > max |
| Utils.Factorial | lib/utils.0.ts:12-18 | `None` exactly for negative input; otherwise a positive result that every k in 1..n divides |
| Utils.FactorialIsProduct | lib/utils.0.ts:12-18 | factorial(n) is the product 1 · 2 · … · n, defined independently of the recursion |
| Utils.SumAppend | lib/utils.0.ts:47-49 | the sum of nothing is 0, the sum of one value is that value, and the sum of a concatenation is the sum of the sums |
| Utils.Sum | lib/utils.0.ts:47-49 | the sum of no values is 0 and of one value that value; with no negative values the sum is non-negative and at least every value |
| Utils.SumIsTotal | lib/utils.0.ts:47-49 | the left fold of `reduce` equals Σ values written as an independent fold from the last value back |
| Utils.Gcd | lib/utils.0.ts:20-23 | Euclid's loop with the truncating `%` returns a common divisor of both arguments that is non-negative for non-negative arguments |
| Utils.GcdOf | lib/utils.0.ts:20-23 | Euclid's result is 0 exactly when both arguments are 0, and non-negative for non-negative arguments |
| Utils.GcdGreatest | lib/utils.0.ts:20-23 | every common divisor of the arguments divides their gcd |
| Utils.LcmFold | lib/utils.0.ts:25-27 | folding a·b/gcd(a, b) from a non-zero start gives a non-zero common multiple of the start and of every item |
| Utils.Lcm | lib/utils.0.ts:25-27 | fails exactly on an empty list (the source's reduce throws); otherwise every item divides the non-zero result |
| Utils.LcmStepLeast | lib/utils.0.ts:26 | one step a·b/gcd(a, b) divides every common multiple of a and b |
| Utils.LcmLeast | lib/utils.0.ts:24-27 | the result of `lcm` divides every common multiple of the values, so it is the lowest one in the divisibility order |
| Utils.ModP | lib/utils.0.ts:70-73 | the result is congruent to the value modulo `mod` and lies in [0, mod) for mod > 0 and in (mod, 0] for mod < 0 |
| Utils.ModPPositive | lib/utils.0.ts:70-73 | for mod > 0, `modP` is the Euclidean remainder |
| Utils.ModPNegative | lib/utils.0.ts:70-73 | for mod < 0, `modP` is the negated remainder of the negated operands |
| Utils.FloorDiv | lib/utils.0.ts:74-76 | `Math.floor(value / mod)`: q·mod and q·mod + mod bracket the value |
| Utils.DivMod | lib/utils.0.ts:74-76 | the pair is the floored quotient and `modP`, and div·mod + mod = value |
| Utils.GroupMembers | lib/utils.0.ts:81-89 | a group holds only items of the input with that key, and it is non-empty exactly when some item has that key |
| Utils.GroupBy | lib/utils.0.ts:81-89 | the map's keys are exactly the selected keys; each group is the input's items with that key in input order, and no group is empty |
| Counters.Counter.constructor | lib/counter.0.ts:2-4 | the entries are the given pairs, later pairs winning |
| Counters.Counter.Current | lib/counter.0.ts:8 | an item's stored count, or `starting` when absent |
| Counters.Counter.Add | lib/counter.0.ts:5-11 | stores and returns the previous count (or `starting`) plus `count` (or `defaultAdd`); every other entry is unchanged |
| Counters.Occurrences | lib/counter.0.ts:5-11 | the number of occurrences is at most the length, and it is 0 exactly for an absent item |
| Counters.CountAll | lib/counter.0.ts:5-11 | adding each item once counts exactly its occurrences, for exactly the items present |
| Deques.Ceil | lib/deque.0.ts:54 | `Math.ceil`: the least integer not below its argument |
| Deques.GrownLength | lib/deque.0.ts:54 | the grown array is strictly longer than the old one |
| Deques.SeededLength | lib/deque.0.ts:43 | the array built from items has room for them all, at least one slot, and with growth enabled at least one free slot |
| Deques.PushedBack | lib/deque.0.ts:65-76 | with growth, the values follow the contents; in a window of n the newest n of them stay |
| Deques.PushedFront | lib/deque.0.ts:77-88 | with growth, the reversed values precede the contents; in a window of n the front n of them stay |
| Deques.PushedBackOne | lib/deque.0.ts:70-73 | one push onto a full window evicts the front item; otherwise it appends |
| Deques.PushedFrontOne | lib/deque.0.ts:82-85 | one push onto a full window evicts the back item; otherwise it prepends |
| Deques.PushedBackStep | lib/deque.0.ts:66-74 | pushing the values one at a time equals pushing them all |
| Deques.PushedFrontStep | lib/deque.0.ts:78-86 | pushing the values one at a time equals pushing them all |
| Deques.Filtered | lib/deque.0.ts:159-167 | the filtered list is no longer than the input |
| Deques.FilteredMembers | lib/deque.0.ts:159-167 | the filtered list holds exactly the items whose predicate holds at their index |
| Deques.StartIndex | lib/deque.0.ts:189-195 | the start of `Array.prototype.includes`: a negative index counts back from the end, clamped at 0 |
| Deques.RingPushBack | lib/deque.0.ts:67-69 | writing the slot after the last item lays out contents + [x] |
| Deques.RingPushFront | lib/deque.0.ts:79-81 | writing the slot before `front` lays out [x] + contents from the new front |
| Deques.RingPopFront | lib/deque.0.ts:101-105 | clearing the front slot and advancing `front` lays out the tail |
| Deques.RingPopBack | lib/deque.0.ts:91-95 | clearing the last slot lays out every item but the last |
| Deques.RingSet | lib/deque.0.ts:123-127 | writing logical slot i lays out the contents with item i replaced |
| Deques.LayoutPushBack | lib/deque.0.ts:67-73 | a back push keeps the layout, either growing `size` or, on a full window, moving `front` and dropping the first item |
| Deques.LayoutPushFront | lib/deque.0.ts:79-85 | a front push keeps the layout, either growing `size` or, on a full window, moving `back` and dropping the last item |
| Deques.LayoutPopBack | lib/deque.0.ts:89-98 | the slot before `back` holds the last item; clearing it or not keeps the layout of the rest |
| Deques.LayoutPopFront | lib/deque.0.ts:99-108 | the `front` slot holds the first item; clearing it or not keeps the layout of the rest |
| Deques.Deque.WithLength | lib/deque.0.ts:34-40 | an empty deque over max(length, 1) empty slots, remembering that length for `clear` |
| Deques.Deque.FromItems | lib/deque.0.ts:41-49 | the deque holds the items in order in an array of `SeededLength` slots |
| Deques.Deque.Create | lib/deque.0.ts:35 | construction fails with `InvalidArgument` exactly when the growth factor is a number of one or less; otherwise a fresh, valid, empty deque of max(length, 1) slots |
| Deques.Deque.Grow | lib/deque.0.ts:50-64 | with growth disabled nothing changes; otherwise the full ring is copied in order into a longer array with front = 0 and back = the old length |
| Deques.Deque.PushBackItem | lib/deque.0.ts:66-74 | one back push gives `PushedBack` of the old contents, keeping the layout and the non-growing array of a window |
| Deques.Deque.PushBack | lib/deque.0.ts:65-76 | the new contents are `PushedBack` of the old and the values; returns the new size |
| Deques.Deque.PushFrontItem | lib/deque.0.ts:78-86 | one front push gives `PushedFront` of the old contents |
| Deques.Deque.PushFront | lib/deque.0.ts:77-88 | the new contents are `PushedFront` of the old and the values; returns the new size |
| Deques.Deque.PopBack | lib/deque.0.ts:89-98 | `None` on an empty deque with nothing changed; otherwise the last item, which leaves the contents; the vacated slot is cleared unless the strategy keeps it |
| Deques.Deque.PopFront | lib/deque.0.ts:99-108 | `None` on an empty deque with nothing changed; otherwise the first item, which leaves the contents; `front` advances and the slot is cleared unless kept |
| Deques.Deque.At | lib/deque.0.ts:109-118 | item i for 0 ≤ i < size, item size + i for −size ≤ i < 0, `None` exactly outside that range |
| Deques.Deque.Set | lib/deque.0.ts:119-128 | `OutOfBounds` exactly outside [−size, size) with nothing changed; otherwise replaces the same item that `At` reads and returns the value |
| Deques.Deque.FindIndex | lib/deque.0.ts:136-143 | the first index whose item satisfies the predicate, or −1 when none does |
| Deques.Deque.Find | lib/deque.0.ts:129-135 | the first satisfying item, or `None` exactly when none satisfies |
| Deques.Deque.FindLastIndex | lib/deque.0.ts:151-158 | the last satisfying index, or −1 |
| Deques.Deque.FindLast | lib/deque.0.ts:144-150 | the last satisfying item, or `None` exactly when none satisfies |
| Deques.Deque.Filter | lib/deque.0.ts:159-167 | a fresh deque of default length holding the satisfying items in order, with the same growth and delete strategy |
| Deques.Deque.IncludesAsWritten | lib/deque.0.ts:189-195 | as written: found exactly when the value is at a logical index ≥ fromIndex or in a raw slot below `front` that a negative fromIndex reaches |
| Deques.Deque.Includes | lib/deque.0.ts:189-195 | found exactly when the value is at a logical index from `StartIndex(fromIndex)` on |
| Deques.Deque.Any | lib/deque.0.ts:196-202 | true exactly when some item satisfies the callback at its index |
| Deques.Deque.Every | lib/deque.0.ts:203-209 | true exactly when every item satisfies the callback at its index |
| Deques.Deque.ReduceWith | lib/deque.0.ts:215-229 | with an initial value, the left fold over the items with their indices (the initial value itself when empty) |
| Deques.Deque.Reduce | lib/deque.0.ts:219-228 | `EmptyReduce` exactly on an empty deque; otherwise the fold from item 0 over items 1.. |
| Deques.Deque.Clear | lib/deque.0.ts:230-235 | empty contents over a fresh array of the starting length |
| Deques.Deque.Clone | lib/deque.0.ts:236-238 | a fresh deque with the same contents, growth and delete strategy |
| Deques.Deque.ItemsFront | lib/deque.0.ts:239-244 | the contents front to back |
| Deques.Deque.ItemsBack | lib/deque.0.ts:245-250 | the contents reversed |
| Deques.Deque.EntriesFront | lib/deque.0.ts:251-256 | each item with its logical index, front to back |
| Deques.Deque.EntriesBack | lib/deque.0.ts:257-262 | each item with its logical index, back to front |
| Deques.Deque.Size | lib/deque.0.ts:263-265 | the number of items |
| Deques.DrainFront | lib/deque.0.ts:99-108 | popping the front until empty yields the contents in order |
| Deques.DrainBack | lib/deque.0.ts:89-98 | popping the back until empty yields the contents reversed |
| Deques.PushPopOrders | lib/test/deque.ts:26-49 | pushBack then popFront returns the input; pushBack then popBack its reverse; pushFront mirrors both |
| Ranges.ReversedTwice | lib/deque.0.ts:239-250 | reversing twice restores a list, so `itemsBack` of a reversed fill is `itemsFront`, and `rotate(180)` twice (lib/grid.0.ts:235-238) restores a grid |
| Deques.GrowthKeepsOrder | lib/deque.0.ts:50-64 | a deque that grows while pushed still reads its items in push order |
| Deques.SlidingWindow | lib/deque.0.ts:70-73 | a window of two keeps only the last two items pushed |
| Deques.IncludesStaleSlot | lib/deque.0.ts:189-195 | after a pop that keeps the stale slot, `includes(1, -1)` as written finds the removed 1, and the corrected `Includes` does not |
| Heaps.Swapped | lib/binary-heap.0.ts:48-49 | a swap exchanges two positions, keeps the rest and keeps the multiset |
| Heaps.ChildIndex | lib/binary-heap.0.ts:46 | `(c - 1) >> 1` is j exactly for the children 2j+1 and 2j+2 |
| Heaps.RootFirst | lib/binary-heap.0.ts:6-8 | in a heap the root comes no later than any item |
| Heaps.SiftUpStep | lib/binary-heap.0.ts:46-50 | swapping an out-of-order child with its parent moves the only violation one level up |
| Heaps.SiftTarget | lib/binary-heap.0.ts:67-70 | the chosen index is the parent or its earliest child, and it is a child only when that child comes strictly before the parent |
| Heaps.SiftDownStep | lib/binary-heap.0.ts:71-74 | swapping the parent with its earliest child moves the only violation one level down |
| Heaps.SiftDownDone | lib/binary-heap.0.ts:71 | when the parent already comes first, the heap order holds everywhere |
| Heaps.RootReplaced | lib/binary-heap.0.ts:60-64 | moving the last item to the root leaves only the root out of order and removes one copy of the old root |
| Heaps.DrainStep | lib/binary-heap.0.ts:109-112 | appending a minimum of the remaining items keeps the drained list sorted and before everything left |
| Heaps.BinaryHeap.constructor | lib/binary-heap.0.ts:34-36 | a valid heap holding exactly the given items |
| Heaps.BinaryHeap.Length | lib/binary-heap.0.ts:37-39 | the number of items held |
| Heaps.BinaryHeap.PushOne | lib/binary-heap.0.ts:41-51 | the heap stays valid and gains exactly the value |
| Heaps.BinaryHeap.Push | lib/binary-heap.0.ts:40-54 | the heap stays valid and gains exactly the values; the length grows by their count |
| Heaps.BinaryHeap.Pop | lib/binary-heap.0.ts:55-77 | `None` exactly on an empty heap, with nothing changed; otherwise the old root `data[0]`, an item no later than every item, and exactly one copy of it leaves |
| Heaps.BinaryHeap.RootIsFirst | lib/binary-heap.0.ts:6-8 | the root comes no later than every item held |
| Heaps.BinaryHeap.Peek | lib/binary-heap.0.ts:100-102 | `None` exactly when empty; otherwise the root `data[0]`, the item `pop` would return, which comes no later than every item |
| Heaps.BinaryHeap.Clear | lib/binary-heap.0.ts:97-99 | the heap holds nothing |
| Heaps.BinaryHeap.Clone | lib/binary-heap.0.ts:103-107 | a fresh valid heap with the same comparator and layout |
| Heaps.BinaryHeap.PopAll | lib/binary-heap.0.ts:109-112 | yields every item, in comparator order, and leaves the heap empty |
| Heaps.BinaryHeap.Items | lib/binary-heap.0.ts:114-123 | yields every item in comparator order without changing the heap |
| Heaps.BinaryHeap.Entries | lib/binary-heap.0.ts:125-134 | yields every item in comparator order, numbered from 0 |
| Heaps.BinaryHeap.Includes | lib/binary-heap.0.ts:79-81 | true exactly when the value is held |
| Heaps.BinaryHeap.Any | lib/binary-heap.0.ts:82-84 | true exactly when some held item satisfies the callback |
| Heaps.BinaryHeap.Every | lib/binary-heap.0.ts:85-89 | true exactly when every held item satisfies the callback |
| Heaps.BinaryHeap.ReduceWith | lib/binary-heap.0.ts:90-96 | the loop computes the left fold over the array from the initial value; for a callback insensitive to input order the result is the fold over any list of the held items |
| Heaps.BinaryHeap.Reduce | lib/binary-heap.0.ts:90-96 | `EmptyReduce` exactly on an empty heap; otherwise the fold from the first array item, which for a commutative, associative callback equals the fold over any list of the held items, started from any of them |
| Heaps.FoldLeftMoveLast | lib/binary-heap.0.ts:78 | for a callback insensitive to input order, any item may be folded in last |
| Heaps.FoldLeftPermutation | lib/binary-heap.0.ts:78 | for such a callback, folding any permutation of a list gives the same value, so array order does not matter |
| Heaps.FoldLeftSwapStart | lib/binary-heap.0.ts:94 | for a commutative callback, the starting value and the first item can trade places |
| Heaps.FoldLeftAnyStart | lib/binary-heap.0.ts:94 | for a commutative, associative callback, a reduce without an initial value depends only on the multiset of items |
| Heaps.NumericOrder | lib/test/binary-heap.ts:27-33 | `a - b` puts a first exactly when a < b, and it is a valid comparator |
| Heaps.SortedIsAscending | lib/test/binary-heap.ts:27-33 | a numerically sorted list with the same multiset as a strictly ascending list equals it |
| Heaps.DrainNumbers | lib/test/binary-heap.ts:27-33 | building a numeric heap from 5, 3, 8, 1 and popping until empty yields 1, 3, 5, 8 |
| PackedSets.PackedSet.constructor | lib/packed-set.0.ts:10-17 | the packed images of `iterable`, else the raw `packedIterable`, else nothing |
| PackedSets.PackedSet.Add | lib/packed-set.0.ts:18-21 | adds the key's packed value and nothing else; `has(key)` then holds |
| PackedSets.PackedSet.Has | lib/packed-set.0.ts:43-45 | a present key is listed by `keys` as it unpacks; when stored values re-pack to themselves, every listed key is present |
| PackedSets.PackedSet.Delete | lib/packed-set.0.ts:22-24 | reports whether `has(key)` held; removes that packed value only |
| PackedSets.PackedSet.Clear | lib/packed-set.0.ts:25-27 | nothing is held afterwards |
| PackedSets.PackedSet.Keys | lib/packed-set.0.ts:58-60 | exactly the unpacked stored values, never more of them than stored |
| PackedSets.PackedSet.Entries | lib/packed-set.0.ts:31-36 | each key paired with itself |
| PackedSets.PackedSet.Difference | lib/packed-set.0.ts:28-30 | a fresh set, with the same packer, holding this set's packed values minus the other's |
| PackedSets.PackedSet.Intersection | lib/packed-set.0.ts:46-48 | a fresh set holding the packed values in both |
| PackedSets.PackedSet.SymmetricDifference | lib/packed-set.0.ts:64-66 | a fresh set holding the packed values in exactly one operand |
| PackedSets.PackedSet.Union | lib/packed-set.0.ts:67-69 | a fresh set holding the packed values of either, a superset of both |
| PackedSets.PackedSet.Clone | lib/packed-set.0.ts:73-75 | a fresh set with the same packer, unpacker and packed values |
| PackedSets.SubsetIsInclusion | lib/packed-set.0.ts:49-57 | `isSubsetOf`, `isSupersetOf` and `isDisjointFrom` are inclusion and disjointness of the packed sets |
| PackedSets.ImageSize | lib/packed-set.0.ts:58-63 | unpacking never yields more keys than `size` |
| PackedSets.KeysRoundTrip | lib/packed-set.0.ts:58-60 | when unpacking inverts packing on the items, iteration gives back exactly the items |
| PackedSets.CollidingKeysLost | lib/packed-set.0.ts:58-60 | two distinct keys with one packed value cannot both come back from iteration |
| PackedSets.AddColliding | lib/packed-set.0.ts:18-21 | adding two keys with one packed value gives size 1, and both count as present |
| HashedSets.HashedPairs | lib/hashed-set.0.ts:15 | each item paired with its hash, in order |
| HashedSets.HashedSet.constructor | lib/hashed-set.0.ts:10-16 | items stored under their hashes, later items winning, else the raw hashed pairs, else nothing |
| HashedSets.HashedSet.Add | lib/hashed-set.0.ts:17-20 | stores the key under its hash, replacing any key with that hash |
| HashedSets.HashedSet.Has | lib/hashed-set.0.ts:36-38 | a present key's stored entry is listed by `keys`; when entries sit under their own hashes, a key is present exactly when some listed key shares its hash |
| HashedSets.HashedSet.Delete | lib/hashed-set.0.ts:21-23 | reports whether the hash was present, and removes that hash only |
| HashedSets.HashedSet.Clear | lib/hashed-set.0.ts:24-26 | nothing is held afterwards |
| HashedSets.HashedSet.Keys | lib/hashed-set.0.ts:51-53 | exactly the stored original keys |
| HashedSets.HashedSet.Entries | lib/hashed-set.0.ts:30-32 | each stored key paired with itself |
| HashedSets.HashedSet.Difference | lib/hashed-set.0.ts:27-29 | this set's entries whose hash is absent from the other |
| HashedSets.HashedSet.Intersection | lib/hashed-set.0.ts:39-41 | this set's entries whose hash is present in the other |
| HashedSets.HashedSet.SymmetricDifference | lib/hashed-set.0.ts:57-62 | the entries whose hash is in exactly one operand, each with its own key |
| HashedSets.HashedSet.Union | lib/hashed-set.0.ts:63-65 | every hash of either operand; on a shared hash the other's key is kept |
| HashedSets.HashedSet.Clone | lib/hashed-set.0.ts:69-71 | a fresh set with the same hasher and entries |
| HashedSets.SubsetIsInclusion | lib/hashed-set.0.ts:42-50 | the subset, superset and disjointness tests are inclusion and disjointness of the stored hashes |
| HashedSets.BuiltKeepsLast | lib/hashed-set.0.ts:15 | an item whose hash no later item shares is present and stored verbatim |
| HashedSets.CollidingHas | lib/hashed-set.0.ts:36-38 | a different key with a colliding hash counts as present, while only the stored key is listed |
| HashedSets.LastAddWins | lib/hashed-set.0.ts:17-20 | adding two keys with one hash keeps size 1 and lists only the later key |
| HashedSets.UnionSharedHash | lib/hashed-set.0.ts:63-65 | on a shared hash the union keeps the other operand's key |
| PackedMaps.PackedPairs | lib/packed-map.0.ts:15 | each pair's key replaced by its packed value, in order |
| PackedMaps.PackedMap.constructor | lib/packed-map.0.ts:10-16 | the pairs stored under their packed keys, later duplicates winning |
| PackedMaps.PackedMap.Clear | lib/packed-map.0.ts:17-19 | every `get` then returns `None` |
| PackedMaps.PackedMap.Delete | lib/packed-map.0.ts:20-22 | reports whether the packed key was present; afterwards it is absent and nothing else changes |
| PackedMaps.PackedMap.Get | lib/packed-map.0.ts:29-31 | the value stored under the packed key, `None` exactly when `has` fails |
| PackedMaps.PackedMap.Has | lib/packed-map.0.ts:32-34 | a present key is listed by `keys` as it unpacks; when stored keys re-pack to themselves, every listed key is present |
| PackedMaps.PackedMap.Set | lib/packed-map.0.ts:38-41 | `get(key)` then returns the value; the size grows exactly when the packed key was new |
| PackedMaps.PackedMap.Keys | lib/packed-map.0.ts:35-37 | exactly the unpacked stored keys |
| PackedMaps.PackedMap.Values | lib/packed-map.0.ts:45-47 | exactly the stored values |
| PackedMaps.PackedMap.Entries | lib/packed-map.0.ts:23-25 | exactly the stored values with their unpacked keys |
| PackedMaps.BuiltKeepsLast | lib/packed-map.0.ts:15 | a pair whose packed key no later pair shares is what `get` returns |
| PackedMaps.EntriesRoundTrip | lib/packed-map.0.ts:23-31 | when unpacking inverts packing on a key, its entry lists that key with its value |
| PackedMaps.OverwriteThroughPacking | lib/packed-map.0.ts:29-44 | setting two keys that pack alike leaves one entry, read as the later value through either key |
| HashedMaps.HashedRecords | lib/hashed-map.0.ts:8 | each pair as its hash and its `{key, value}` record, in order |
| HashedMaps.HashedMap.constructor | lib/hashed-map.0.ts:7-9 | the pairs stored as records under their hashes, later duplicates winning |
| HashedMaps.HashedMap.Clear | lib/hashed-map.0.ts:10-12 | every `get` then returns `None` |
| HashedMaps.HashedMap.Delete | lib/hashed-map.0.ts:13-15 | reports whether the hash was present; afterwards it is absent and nothing else changes |
| HashedMaps.HashedMap.Get | lib/hashed-map.0.ts:22-24 | the value of the record under the hash, `None` exactly when `has` fails |
| HashedMaps.HashedMap.Has | lib/hashed-map.0.ts:25-27 | a present key's record is listed by `keys`; when records sit under their own keys' hashes, a key is present exactly when some listed key shares its hash |
| HashedMaps.HashedMap.Set | lib/hashed-map.0.ts:31-34 | stores the key and value under the hash; `get(key)` then returns the value; the size grows exactly when the hash was new |
| HashedMaps.HashedMap.Keys | lib/hashed-map.0.ts:28-30 | exactly the stored original keys |
| HashedMaps.HashedMap.Values | lib/hashed-map.0.ts:38-40 | exactly the stored values |
| HashedMaps.HashedMap.Entries | lib/hashed-map.0.ts:16-18 | exactly the stored keys paired with their values |
| HashedMaps.BuiltKeepsLast | lib/hashed-map.0.ts:8 | a pair whose hash no later pair shares is what `get` returns, and its key is listed |
| HashedMaps.LaterSetReplacesKey | lib/hashed-map.0.ts:22-34 | a later `set` with an equal hash replaces both the stored key and the value, keeping size 1 |
| Floats.LanesRoundTrip | lib/point2d.0.ts:30-36 | reading a binary64 pattern through its four 16-bit lanes and writing them back is lossless both ways |
| Points2D.IsEqual | lib/point2d.0.ts:89-91 | componentwise equality of the two points |
| Points2D.Pack | lib/point2d.0.ts:187-192 | x's pattern in the high 64 bits and y's in the low 64 |
| Points2D.PackRoundTrip | lib/point2d.0.ts:187-198 | `unpack` inverts `pack`, and `pack` inverts `unpack` on every 128-bit value |
| Points2D.Unpack | lib/point2d.0.ts:193-198 | packing the two 64-bit halves gives back the 128-bit value |
| Points2D.Pack32 | lib/point2d.0.ts:202-207 | binary32 x in the low half and y in the high half; never NaN or infinite when y is finite |
| Points2D.Pack32RoundTrip | lib/point2d.0.ts:202-212 | `unpack32` and `pack32` invert each other |
| Points2D.Unpack32 | lib/point2d.0.ts:208-212 | packing the two binary32 halves gives back the binary64 pattern |
| Points2D.Hash | lib/point2d.0.ts:216-234 | bit 62 of the result is clear, so its exponent is never all ones and it is never NaN or infinite |
| Points2D.Ring | lib/point2d.0.ts:121-131 | four offsets per ring |
| Points2D.RingsLayout | lib/point2d.0.ts:117-134 | `Cardinal`/`Diagonal` give 4·radius offsets, ring i at positions 4(i−1)..4i−1 |
| Points2D.RingOffsets | lib/point2d.0.ts:117-134 | the loop fills exactly the rings 1..radius, and a negative radius is `InvalidArgument` |
| Points2D.Offsets | lib/point2d.0.ts:115-159 | the rings, the shape quadrant scan or the accepted square scan, as the constrainer selects |
| Points2D.AcceptedOffsetsOf | lib/point2d.0.ts:136-141 | the nested loop yields the square scan filtered by the function |
| Points2D.ShapeOffsetsOf | lib/point2d.0.ts:143-158 | the nested loop yields the quadrant scan with each accepted offset mirrored four ways |
| Points2D.ShapeColumnOf | lib/point2d.0.ts:145-155 | the inner loop yields one column of that scan |
| Points2D.ShapeMembers | lib/point2d.0.ts:144-156 | an offset is produced exactly when its absolute coordinates pass the shape test within the radius; the origin never is |
| Points2D.AcceptedMembers | lib/point2d.0.ts:136-141 | a function constrainer yields exactly the square's offsets it accepts |
| Points2D.WidenAllCovers | lib/point2d.0.ts:163-169 | the reduction widens the start bounds to cover every point, each bound moving only to some point's coordinate |
| Points2D.GetBounds | lib/point2d.0.ts:160-173 | all zeros for no points; otherwise every point lies within the bounds and each bound is some point's coordinate |
| Points2D.MakeInBounds | lib/point2d.0.ts:174-178 | the bounds are inclusive: a passing point lies within them, both corners pass when the box is non-empty, and an empty box passes nothing |
| Points3D.IsEqual | lib/point3d.0.ts:95-97 | componentwise equality of the two points |
| Points3D.Pack | lib/point3d.0.ts:212-218 | the 192-bit concatenation of the x, y and z patterns |
| Points3D.PackRoundTrip | lib/point3d.0.ts:212-225 | `unpack` inverts `pack` |
| Points3D.UnpackRoundTrip | lib/point3d.0.ts:212-225 | `pack` inverts `unpack` on every 192-bit value |
| Points3D.Unpack | lib/point3d.0.ts:219-225 | packing the three 64-bit segments gives back the 192-bit value |
| Points3D.Pack32 | lib/point3d.0.ts:230-235 | binary32 z in bits 0-31, x in bits 32-63 and y in bits 64-95 |
| Points3D.Pack32RoundTrip | lib/point3d.0.ts:230-241 | `unpack32` and `pack32` invert each other |
| Points3D.Unpack32 | lib/point3d.0.ts:236-241 | packing the three binary32 patterns gives back the 96-bit value |
| Points3D.StoreU32 | lib/point3d.0.ts:248-250 | the `Uint32Array` store reduces modulo 2^32 |
| Points3D.PackInt21 | lib/point3d.0.ts:247-263 | the packed word is a binary64 pattern that is never NaN or infinite |
| Points3D.PackStored | lib/point3d.0.ts:254-262 | laying out three stored fields gives a finite binary64 pattern |
| Points3D.Wrap21 | lib/point3d.0.ts:248-250 | a coordinate reduced into the 21-bit biased range, unchanged when already inside it |
| Points3D.Int21RoundTrip | lib/point3d.0.ts:247-284 | `unpackInt21(packInt21(p))` is p with each coordinate wrapped into range, so p itself when in range |
| Points3D.UnpackInt21 | lib/point3d.0.ts:264-284 | every coordinate comes back inside the biased 21-bit range [−(2^20 − 1), 2^20], whatever the pattern |
| Points3D.StoredRoundTrip | lib/point3d.0.ts:264-284 | unpacking recovers each stored field modulo 2^21, less the bias |
| Points3D.SignedZeroCollision | lib/point3d.0.ts:254-262 | (−B, −B, 1) packs to −0 and (−B, −B, −B) to +0, both in range, and a native `Set` stores them as the same key |
| Points3D.Float21Lanes | lib/point3d.0.ts:290-331 | bit 14 of the top lane is clear |
| Points3D.PackFloat21 | lib/point3d.0.ts:290-334 | the packed pattern is never NaN or infinite |
| Points3D.Float21RoundTrip | lib/point3d.0.ts:335-366 | with the z lane read back by `>> 1`, unpacking inverts packing for exponents 0 or 97..159 and zero low significand bits |
| Points3D.UnpackFloat21 | lib/point3d.0.ts:335-366 | with line 360 corrected, the 9 low significand bits that packing drops come back clear in all three coordinates |
| Points3D.Float21LanesRoundTrip | lib/point3d.0.ts:341-366 | the same round trip, lane by lane |
| Points3D.Float21AsWrittenRoundTrip | lib/point3d.0.ts:335-366 | as written, x and y round-trip, and z does exactly when its significand bits 9-14 are zero |
| Points3D.UnpackFloat21AsWritten | lib/point3d.0.ts:335-366 | as written, x and y come back with 9 low significand bits clear but z only with 8, since line 360 can set bit 8 |
| Points3D.Float21ZAsWritten | lib/point3d.0.ts:360 | the as-written z lane is right exactly when those bits are zero |
| Points3D.Float21LosesZ | lib/point3d.0.ts:328 | z = 0x3f800200 (exactly representable) comes back as 0x3f800100 as written, and unchanged when corrected |
| Points3D.Hash | lib/point3d.0.ts:370-390 | bit 62 of the result is clear, so it is never NaN or infinite |
| Points3D.Ring | lib/point3d.0.ts:124-139 | six cardinal or eight diagonal offsets per ring |
| Points3D.CardinalLayout | lib/point3d.0.ts:124-130 | `Cardinal` gives 6·radius offsets, ring i at positions 6(i−1)..6i−1 |
| Points3D.DiagonalLayout | lib/point3d.0.ts:131-139 | `Diagonal` gives 8·radius offsets, ring i at positions 8(i−1)..8i−1 |
| Points3D.RingOffsets | lib/point3d.0.ts:120-143 | the loop fills exactly the rings 1..radius, and a negative radius is `InvalidArgument` |
| Points3D.PutCardinal | lib/point3d.0.ts:124-130 | writes one cardinal ring at the cursor and nothing before it |
| Points3D.PutDiagonal | lib/point3d.0.ts:131-139 | writes one diagonal ring at the cursor and nothing before it |
| Points3D.Offsets | lib/point3d.0.ts:118-180 | the rings, the shape octant scan or the accepted cube scan, as the constrainer selects |
| Points3D.AcceptedOffsetsOf | lib/point3d.0.ts:145-151 | the triple loop yields the cube scan filtered by the function |
| Points3D.AcceptedSliceOf | lib/point3d.0.ts:147-150 | the middle loop yields one x-slice of that scan |
| Points3D.AcceptedColumnOf | lib/point3d.0.ts:148-149 | the inner loop yields one column of that scan |
| Points3D.ShapeOffsetsOf | lib/point3d.0.ts:153-177 | the triple loop yields the octant scan with each accepted offset mirrored eight ways |
| Points3D.ShapeSliceOf | lib/point3d.0.ts:155-176 | the middle loop yields one x-slice |
| Points3D.ShapeColumnOf | lib/point3d.0.ts:156-175 | the inner loop yields one column |
| Points3D.ShapeMembers | lib/point3d.0.ts:153-177 | an offset is produced exactly when its absolute coordinates pass the shape test within the radius; the origin never is |
| Points3D.AcceptedMembers | lib/point3d.0.ts:145-151 | a function constrainer yields exactly the cube's offsets it accepts |
| Grids.CoordOf | lib/grid.0.ts:88-93 | the coordinate of index i: row and column with r·cols + c = i and 0 ≤ c < cols, x = c, y = rows − 1 − r |
| Grids.CoordOfCell | lib/grid.0.ts:88-99 | the coordinate of the index of (r, c) is (r, c) again, with x = c and y = rows − 1 − r |
| Grids.IndexJoin | lib/grid.0.ts:88-93 | every index of a rows × cols grid splits into an in-range row and column that join back to it |
| Grids.FlattenRows | lib/grid.0.ts:52-56 | flattening equal-length rows puts row r, column c at r·width + c |
| Grids.HalfTurn | lib/grid.0.ts:235-238 | reversing the cells sends (r, c) to (rows−1−r, cols−1−c) |
| Grids.DestInverse | lib/grid.0.ts:241-294 | every move's destination of an in-range cell is in range and maps back to it |
| Grids.SourceInverse | lib/grid.0.ts:241-294 | every in-range destination has an in-range source that the move sends to it |
| Grids.Rearranged | lib/grid.0.ts:241-294 | the gathered cells have the old count |
| Grids.RearrangedMoves | lib/grid.0.ts:241-247 | the rearranged cells hold cell (r, c) at the move's destination: (c, rows−1−r) for 90°, (cols−1−c, r) for 270°, the mirrored or shifted cell otherwise |
| Grids.RearrangedUndone | lib/grid.0.ts:239-297 | a move followed by one that undoes it pointwise restores the cells |
| Grids.TurnsCancel | lib/grid.0.ts:239-250 | 90° then 270°, or 270° then 90°, restores the grid |
| Grids.FlipsCancel | lib/grid.0.ts:255-267 | each mirror applied twice restores the grid |
| Grids.ShiftsCancel | lib/grid.0.ts:278-294 | a shift followed by the opposite shift restores the grid |
| Grids.ShiftByZero | lib/grid.0.ts:276 | a zero shift leaves the cells as they are |
| Grids.ShiftMoves | lib/grid.0.ts:274-291 | shifting by the reduced offsets sends (r, c) to ((r+dr) mod rows, (c+dc) mod cols) |
| Grids.WrapIsRemainder | lib/grid.0.ts:279-291 | the one-step wrap of v + (d truncating-mod n) is (v + d) mod n |
| Grids.TranslateOffsets | lib/grid.0.ts:271-275 | corrected: y and the Xy second scalar reduced by rows and x and the Xy first scalar by cols, so the shift always fits |
| Grids.TranslateOffsetsAsWritten | lib/grid.0.ts:271-275 | as written: agrees with the corrected offsets for Rc scalars and for square grids |
| Grids.TranslateAsWrittenEscapes | lib/grid.0.ts:272 | on a 1 × 3 grid, the point (0, 2) gives the offsets (2, 0) as written; they do not fit, and cell 0 would be written to index 3 |
| Grids.UpdatedCell | lib/grid.0.ts:151-159 | a function fill gives each cell the updater's value on its old value and its coordinate |
| Grids.AssignIdempotent | lib/grid.0.ts:151-159 | filling with one value sets every cell to it, and doing it twice is the same as once |
| Grids.Grid.Copy | lib/grid.0.ts:42-48 | same dimensions, cells and system as the source grid |
| Grids.Grid.FromRows | lib/grid.0.ts:52-56 | rows = the number of rows, cols = the first row's length, cells = the rows flattened |
| Grids.Grid.FromFill | lib/grid.0.ts:57-63 | a rows × cols grid whose cell i is the fill at `indexToCoord(i)` |
| Grids.Grid.FromCells | lib/grid.0.ts:64-68 | the given cells kept as they are, with rows = ⌊len / cols⌋ |
| Grids.Grid.IndexToCoord | lib/grid.0.ts:112-116 | succeeds exactly for 0 ≤ i < length, with r = ⌊i / cols⌋, r·cols + c = i, x = c, y = rows − 1 − r; otherwise `OutOfBounds` |
| Grids.Grid.CoordToIndex | lib/grid.0.ts:118-125 | succeeds exactly when `inBounds` holds, with the row-major index; otherwise `OutOfBounds` |
| Grids.Grid.InBounds | lib/grid.0.ts:102-110 | in a rectangular grid, an in-bounds point or pair has a row-major index inside the array |
| Grids.Grid.CellAt | lib/grid.0.ts:202-212 | a bare index reads like `Array.prototype.at`, present exactly in [−length, length) and counted from the end when negative; an out-of-bounds point or pair gives `None`; in a rectangular grid an in-bounds one gives its row-major cell; any result is a cell of the grid |
| Grids.Grid.RowAt | lib/grid.0.ts:171-175 | a row exactly for 0 ≤ n < rows |
| Grids.Grid.CellSet | lib/grid.0.ts:213-227 | in bounds, replaces exactly that cell and returns the value, which `cellAt` reads back; out of bounds, `OutOfBounds` with nothing changed |
| Grids.Grid.Fill | lib/grid.0.ts:151-159 | the cells become `Updated` of the old cells, on any grid for a constant value; the dimensions stay |
| Grids.Grid.CellSetAll | lib/grid.0.ts:228-230 | the cells become the updater applied to each old cell and its coordinate |
| Grids.Grid.Rotate | lib/grid.0.ts:234-253 | 180° reverses the cells; 90° and 270° rearrange them and swap rows and cols; any other angle is `InvalidArgument` with nothing changed |
| Grids.Grid.Mirror | lib/grid.0.ts:255-267 | `Horizontal` flips columns, `Vertical` flips rows; any other axis is `InvalidArgument` with nothing changed |
| Grids.Grid.Translate | lib/grid.0.ts:269-297 | an empty grid is unchanged; otherwise the cells shift by the corrected offsets |
| Grids.Grid.Rearrange | lib/grid.0.ts:239-294 | the scatter loop leaves exactly `Rearranged` of the old cells, with the moved dimensions |
| Grids.RearrangeRow | lib/grid.0.ts:241-247 | one row of the scatter loop places that row's cells at their destinations |
| Grids.InBoundsCell | lib/grid.0.ts:202-212 | for an in-bounds coordinate, `cellAt` is the cell at its row-major index |
| Grids.IndexRoundTrip | lib/grid.0.ts:88-125 | `coordToIndex` of `indexToCoord(i)` is i, by (r, c) in Rc, by (x, y) in Xy, and by point |
| Grids.CoordRoundTrip | lib/grid.0.ts:88-125 | `indexToCoord` of `coordToIndex(p)` gives back p's coordinates |
| Grids.RowCells | lib/grid.0.ts:171-175 | a row has cols cells, and its k-th is the cell at row n, column k (or x = k, y = n) |
| Grids.RowLength | lib/grid.0.ts:171-175 | the row read is the slice of the flat array for r = n, or for r = rows − 1 − n in Xy |

## Left out

- Floating-point arithmetic is not modelled. A coordinate is its bit pattern, and conversion between a number and its pattern is the identity. NaN payloads and rounding a binary64 to binary32 are not modelled, since both depend on the platform.
- Points2D.Hash and Points3D.Hash take the inputs after the pre-scaling by LOG2E, PI and LN2 at lib/point2d.0.ts:218-219 and lib/point3d.0.ts:372-374. They do not model that multiplication, because it is floating point.
- `distance`, `angle`, `add`, `subtract`, `multiply`, `Utils.mean`, `median`, `mode`, `minMax`, `lerp`, `lineIntersect` and `roundTo` are floating-point arithmetic, so they are not modelled.
- Points2D.GetBounds and `makeInBounds` work on integer coordinates, not doubles.
- The offsets generators use integer coordinates. The `-0` that JavaScript produces by negating 0 is not a separate value.
- Points2D.Offsets: the `CirclePlus` test `x² + y² < (radius + 0.5)²` is stated through its integer equivalent.
- Point3D's `getBounds` and `makeInBounds` are not part of this model.
- Iteration order of the native `Set` and `Map` is not modelled. `keys`, `values` and `entries` are sets, not ordered lists.
- `forEach`, `Symbol.iterator` and every `[inspect.custom]` method are left out, because they only forward to the iterators or to printing.
- The typed-array scratch buffers are not modelled as shared state, so their aliasing is not either. Each codec instead reads and writes lanes of one bit-vector value.
- Deque `sort` and `toSorted` set `size` to the capacity, so they count empty slots. They are left out.
- `DequeArrayLike`, `DequeArrayLike2` and the growth event emitter are left out, because they are Proxy and event plumbing.
- Deques.Deque.FromItems and Deques.Deque.Clone require growth or no items. A window seeded with items fills its whole array, which breaks the one-free-slot layout that every operation keeps.
- Deques.Deque.Filter builds its result through `PushBack` into a default deque, so with growth disabled it keeps only the last 1023 matches, as the source does.
- The deque's callbacks (`find`, `findIndex`, `findLast`, `findLastIndex`, `filter`, `some`, `every`, `reduce`, lib/deque.0.ts:129-229) receive the value and its index (and the accumulator for `reduce`) but not the deque itself. A callback that reads or changes the deque during a scan is not modelled.
- Deques.GrownLength takes the exact ceiling of length × factor. The source rounds the product to a binary64 first (lib/deque.0.ts:54), so with length 100 and factor 1.1 the product is 110.00000000000001 and the source grows to 111 slots where the model grows to 110. The contents are the same either way.
- Deque slots hold an `Option`. The `Null` and `Full` delete strategies both leave `None`, because a hole and a `null` cannot be told apart through the deque's own methods.
- Heaps: the comparator must be a total preorder (`ValidComparator`). A comparator that is not gives the source no meaning either.
- The choice between `toSorted` and a scratch heap in `items` (lib/binary-heap.0.ts:4,116) is a performance detail. `Items` specifies only the result.
- Counter's other `Map` methods are inherited from the native `Map` and are not modelled.
- Counters.Counter.Add works on mathematical integers. It does not model `number` precision or `bigint` values.
- Utils works on mathematical integers and does not model `number` precision beyond 2^53. `factorial` of a non-integer and `gcd`/`lcm` of non-integers are left out.
- Utils.Lcm requires non-zero items. A zero item makes the fold 0 from there on, and two zeros in a row divide 0 by a zero gcd, giving `NaN`. Utils.LcmLeast states leastness in the divisibility order, for the same non-zero items.
- Utils.ModP requires mod ≠ 0. The source accepts 0 and returns `NaN`, since `value % 0` is `NaN` (lib/utils.0.ts:71-72); an integer model has no such value.
- Utils.FloorDiv requires mod ≠ 0. The source's `Math.floor(value / 0)` is ±Infinity, or `NaN` for a zero value (lib/utils.0.ts:75); these are not integers.
- Utils.DivMod requires mod ≠ 0. The source returns the pair [±Infinity or `NaN`, `NaN`] for 0 (lib/utils.0.ts:75), which the integer model cannot express.
- The Grid model takes integer coordinates. A fractional coordinate is not modelled.
- Grids.Grid.Rotate (90 and 270), Grids.Grid.Mirror, Grids.Grid.Translate and Grids.Grid.CellSet with a pair or point require a rectangular grid (`|cells| == rows * cols`). Two constructors build other grids: `FromCells` with a length that is not a multiple of `cols`, and `FromRows` with rows of unequal length (`[[1, 2], [3]]` gives 2 rows, 2 columns and 3 cells, lib/grid.0.ts:54-56).
- Grids.Grid.IndexToCoord requires cols > 0 or an empty grid, since `⌊i / 0⌋` is not an integer. Grids.Grid.CellSetAll and Grids.Grid.Fill with an updater function require the same; a constant `fill(value)` computes no coordinate (lib/grid.0.ts:155-157) and works on every grid.
- Grids.Grid.FromFill requires non-negative dimensions. The source's `new Array(rows * cols)` (lib/grid.0.ts:61) throws only when the product is negative, that is when exactly one dimension is negative and the other non-zero. Two negative dimensions give a positive product and a grid whose coordinates are meaningless (rows = −2, cols = −3 fills 6 cells), and a negative dimension with a zero one gives an empty grid; neither is modelled.
- Grids.Grid.RowAt requires cols ≥ 0.
- The fill and updater callbacks receive the coordinate but not the grid itself.
- Grids.Grid.FromCells holds the caller's cells as a value. The source keeps the caller's array itself (lib/grid.0.ts:68), so later writes through either the grid or the array show in the other; that aliasing is not modelled.
- The `typeof === 'function'` test that picks between a constant and a function fill is modelled by the `Fill` and `Update` datatypes.
- Grid `find`, `findLast`, `findAll`, `some`, `every`, `rowItems`, `rowEntries`, `cellItems` and `cellEntries` are not modelled. They are read-only scans in the style of the deque's.
- `colItems`, `colEntries` and `colAt` are not modelled. The first two yield one reused array, whose aliasing this model does not represent.
- `toRotated`, `toMirrored` and `toTranslated` are not modelled. Each one is a `Copy` followed by the in-place method, and `toTranslated` passes its parameters as one tuple (lib/grid.0.ts:314).
- Grids.Grid.Translate in the `Xy` system shifts content down for a positive y on screen, because row 0 is the top row. This is kept as in the source.
- The mutex, argument parsing, task scripts, benchmarks and puzzle scripts are outside the library core and are not modelled.

## Findings

| source | as written | input that shows it | evidently intended | confidence | as-written member | corrected member |
|---|---|---|---|---|---|---|
| lib/deque.0.ts:189-195 | `includes` starts its scan at a negative `fromIndex` as given, and a negative logical index reads the raw array slot below `front` | a deque seeded with [1, 2] that keeps stale items, after `popFront`; then `includes(1, -1)` returns true although only 2 is held | `Array.prototype.includes` semantics: a negative `fromIndex` counts back from the end and never reads outside the items | not executed | Deques.Deque.IncludesAsWritten | Deques.Deque.Includes |
| lib/point3d.0.ts:360 | `unpackFloat21` reads z's significand bits 9-14 with `>> 2`, but `packFloat21` stored them with `<< 1` (lib/point3d.0.ts:328) | z = 0x3f800200 (1.000061…, exactly representable in the packed form) unpacks to 0x3f800100 | unpack with `>> 1`, so that every representable z round-trips like x and y | not executed | Points3D.Float21LosesZ | Points3D.Float21RoundTrip |
| lib/grid.0.ts:272 | `translate` with a point, or with Xy scalars, reduces the y offset modulo `cols` and the x offset modulo `rows` | a 1 × 3 grid translated by the point (0, 2): the row offset is 2 % 3 = 2, and cell 0 is written to index 3, past the end of the 3-cell array | reduce the row offset by `rows` and the column offset by `cols`, as the Rc scalar form does | not executed | Grids.TranslateAsWrittenEscapes | Grids.TranslateOffsets |
