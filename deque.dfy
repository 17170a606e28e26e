/** `Deque` (lib/deque.0.ts): a double-ended queue stored in a circular array.
    `front` is the slot holding the first item, `back` the slot the next
    `pushBack` writes, and `size` is tracked separately, so the array always
    keeps one slot free. When the array fills, a growth factor copies the items
    into a larger array; with growth disabled the deque is a sliding window that
    evicts the item at the opposite end. */
module Deques {
  import opened Wrappers
  import opened Ranges

  /** `growthFactor`: a factor above one, or `false` for a sliding window. */
  datatype Growth = Disabled | Factor(factor: real)

  /** `DequeDelete`: what a pop leaves in the slot it vacates. `Keep` is the
      source's `None` (the stale item stays); `Null` and `Full` both leave
      no item behind, so both are modelled as an empty slot. */
  datatype DeleteStrategy = Keep | Null | Full

  /** The construction-time check of lib/deque.0.ts:35. */
  predicate ValidGrowth(growth: Growth)
  {
    growth.Factor? ==> growth.factor > 1.0
  }

  /** `Math.ceil`. */
  function Ceil(x: real): (r: int)
    ensures x <= r as real < x + 1.0
  {
    if x.Floor as real == x then x.Floor else x.Floor + 1
  }

  /** Scaling a positive length by a factor above one makes it larger. */
  lemma ScaledGrows(length: real, factor: real)
    ensures length >= 0.0 && factor >= 1.0 ==> length <= length * factor
    ensures length > 0.0 && factor > 1.0 ==> length < length * factor
  {
    assert length * factor - length == length * (factor - 1.0);
    if length >= 0.0 && factor >= 1.0 {
      assert length * (factor - 1.0) >= 0.0;
    }
    if length > 0.0 && factor > 1.0 {
      assert length * (factor - 1.0) > 0.0;
    }
  }

  /** The length `#grow` gives the new array (lib/deque.0.ts:54): it is always
      larger than the old one. */
  function GrownLength(length: nat, factor: real): (r: nat)
    requires 1 <= length && factor > 1.0
    ensures length < r
  {
    var scaled := length as real * factor;
    assert length as real >= 1.0;
    ScaledGrows(length as real, factor);
    assert length as real < scaled;
    var r := Ceil(scaled);
    assert length as real < r as real;
    r
  }

  /** The array length the iterable constructor allocates (lib/deque.0.ts:43):
      room for every item and, when growth is enabled, at least one slot more. */
  function SeededLength(count: nat, growth: Growth): (r: nat)
    requires ValidGrowth(growth)
    ensures 1 <= r && count <= r
    ensures growth.Factor? ==> count < r
  {
    var factor := if growth.Factor? then growth.factor else 1.0;
    var scaled := count as real * factor;
    ScaledGrows(count as real, factor);
    var r := Ceil(if scaled > 1.0 then scaled else 1.0);
    assert count as real <= r as real;
    assert growth.Factor? ==> count as real < r as real;
    r
  }

  /** The source's slot arithmetic: `k < n ? k : k - n`. */
  function Wrap(k: int, n: int): int
  {
    if k < n then k else k - n
  }

  /** The last `n` items of `s` (all of them when there are fewer). */
  function Suffix<T>(s: seq<T>, n: nat): (r: seq<T>)
  {
    if |s| <= n then s else s[|s| - n..]
  }

  /** The first `n` items of `s` (all of them when there are fewer). */
  function Prefix<T>(s: seq<T>, n: nat): (r: seq<T>)
  {
    if |s| <= n then s else s[..n]
  }


  /** Sliding a window of `n` items along `a` one item at a time keeps the
      last `n` items of everything pushed. */
  lemma SuffixPush<T>(a: seq<T>, x: T, n: nat)
    ensures Suffix(Suffix(a, n) + [x], n) == Suffix(a + [x], n)
  {
    if |a| > n {
      assert Suffix(a, n) + [x] == a[|a| - n..] + [x];
      assert (a[|a| - n..] + [x])[1..] == (a + [x])[|a| + 1 - n..];
    }
  }

  /** The front-side counterpart of `SuffixPush`. */
  lemma PrefixPush<T>(x: T, a: seq<T>, n: nat)
    ensures Prefix([x] + Prefix(a, n), n) == Prefix([x] + a, n)
  {
    if |a| > n {
      assert ([x] + a[..n])[..n] == ([x] + a)[..n];
    }
  }

  /** The items after pushing `values` at the back one at a time: appended,
      or with growth disabled only the last `window` (the array length less
      one) of them survive. */
  function PushedBack<T>(contents: seq<T>, values: seq<T>, growth: Growth, window: nat): (r: seq<T>)
    ensures growth.Factor? ==> r == contents + values
    ensures growth.Disabled? ==> |r| <= window && r == Suffix(contents + values, window)
  {
    if growth.Factor? then contents + values else Suffix(contents + values, window)
  }

  /** The items after pushing `values` at the front one at a time, so the last
      of them ends up first; with growth disabled only the first `window`
      survive. */
  function PushedFront<T>(contents: seq<T>, values: seq<T>, growth: Growth, window: nat): (r: seq<T>)
    ensures growth.Factor? ==> r == Reversed(values) + contents
    ensures growth.Disabled? ==> |r| <= window && r == Prefix(Reversed(values) + contents, window)
  {
    if growth.Factor? then Reversed(values) + contents else Prefix(Reversed(values) + contents, window)
  }

  /** Pushing values at the back one call at a time is pushing them together. */
  lemma PushedBackStep<T>(contents: seq<T>, values: seq<T>, x: T, growth: Growth, before: nat, after: nat)
    requires growth.Disabled? ==> before == after
    ensures PushedBack(PushedBack(contents, values, growth, before), [x], growth, after)
         == PushedBack(contents, values + [x], growth, after)
  {
    assert contents + values + [x] == contents + (values + [x]);
    if growth.Disabled? {
      SuffixPush(contents + values, x, after);
    }
  }

  /** Pushing values at the front one call at a time is pushing them together. */
  lemma PushedFrontStep<T>(contents: seq<T>, values: seq<T>, x: T, growth: Growth, before: nat, after: nat)
    requires growth.Disabled? ==> before == after
    ensures PushedFront(PushedFront(contents, values, growth, before), [x], growth, after)
         == PushedFront(contents, values + [x], growth, after)
  {
    assert (values + [x])[..|values|] == values;
    assert Reversed(values + [x]) == [x] + Reversed(values);
    assert Reversed([x]) == [x];
    assert [x] + (Reversed(values) + contents) == Reversed(values + [x]) + contents;
    if growth.Disabled? {
      PrefixPush(x, Reversed(values) + contents, after);
    }
  }

  /** One more turn of a `pushBack` loop over `values`. */
  lemma PushedBackNext<T>(contents: seq<T>, values: seq<T>, k: nat, growth: Growth, before: nat, after: nat)
    requires k < |values| && (growth.Disabled? ==> before == after)
    ensures PushedBack(PushedBack(contents, values[..k], growth, before), [values[k]], growth, after)
         == PushedBack(contents, values[..k + 1], growth, after)
  {
    assert values[..k + 1] == values[..k] + [values[k]];
    PushedBackStep(contents, values[..k], values[k], growth, before, after);
  }

  /** One more turn of a `pushFront` loop over `values`. */
  lemma PushedFrontNext<T>(contents: seq<T>, values: seq<T>, k: nat, growth: Growth, before: nat, after: nat)
    requires k < |values| && (growth.Disabled? ==> before == after)
    ensures PushedFront(PushedFront(contents, values[..k], growth, before), [values[k]], growth, after)
         == PushedFront(contents, values[..k + 1], growth, after)
  {
    assert values[..k + 1] == values[..k] + [values[k]];
    PushedFrontStep(contents, values[..k], values[k], growth, before, after);
  }

  /** Pushing one value at the front: prepended, or with a full sliding
      window the last item falls off. */
  lemma PushedFrontOne<T>(contents: seq<T>, x: T, growth: Growth, window: nat)
    ensures growth.Factor? || |contents| < window ==> PushedFront(contents, [x], growth, window) == [x] + contents
    ensures growth.Disabled? && |contents| == window ==> PushedFront(contents, [x], growth, window) == ([x] + contents)[..window]
  {
    assert Reversed([x]) == [x];
  }

  /** Pushing one value at the back: appended, or with a full sliding window
      the first item falls off. */
  lemma PushedBackOne<T>(contents: seq<T>, x: T, growth: Growth, window: nat)
    ensures growth.Factor? || |contents| < window ==> PushedBack(contents, [x], growth, window) == contents + [x]
    ensures growth.Disabled? && |contents| == window ==> PushedBack(contents, [x], growth, window) == (contents + [x])[1..]
  {
  }

  /** The items of `s` whose predicate, given the item and its index, holds,
      in order (the result of `filter` before any window applies). */
  function Filtered<T>(s: seq<T>, p: (T, int) -> bool): (r: seq<T>)
    ensures |r| <= |s|
  {
    if s == [] then []
    else Filtered(s[..|s| - 1], p) + (if p(s[|s| - 1], |s| - 1) then [s[|s| - 1]] else [])
  }

  /** Every item `filter` keeps satisfies the predicate at its own index, and
      every item that satisfies it is kept. */
  lemma {:induction false} FilteredMembers<T>(s: seq<T>, p: (T, int) -> bool)
    ensures forall x :: x in Filtered(s, p) ==> exists i :: 0 <= i < |s| && s[i] == x && p(x, i)
    ensures forall i :: 0 <= i < |s| && p(s[i], i) ==> s[i] in Filtered(s, p)
  {
    if s != [] {
      var init := s[..|s| - 1];
      FilteredMembers(init, p);
      assert forall i :: 0 <= i < |init| ==> init[i] == s[i];
    }
  }

  /** `callback` folded over `s[lo..hi]`, each item passed with its index. */
  function Folded<R, T>(f: (R, T, int) -> R, initial: R, s: seq<T>, lo: nat, hi: nat): R
    requires lo <= hi <= |s|
    decreases hi
  {
    if hi == lo then initial else f(Folded(f, initial, s, lo, hi - 1), s[hi - 1], hi - 1)
  }

  /** Pushing an item at the back extends a reduction by one more step. */
  lemma {:induction false} FoldedPush<R, T>(f: (R, T, int) -> R, initial: R, s: seq<T>, x: T, lo: nat, hi: nat)
    requires lo <= hi <= |s|
    ensures Folded(f, initial, s + [x], lo, hi) == Folded(f, initial, s, lo, hi)
    ensures hi == |s| ==> Folded(f, initial, s + [x], lo, hi + 1) == f(Folded(f, initial, s, lo, hi), x, hi)
    decreases hi
  {
    if hi > lo {
      FoldedPush(f, initial, s, x, lo, hi - 1);
      assert (s + [x])[hi - 1] == s[hi - 1];
    }
  }

  /** The index `Array.prototype.includes` starts from. */
  function StartIndex(fromIndex: int, size: nat): (r: nat)
    ensures fromIndex >= 0 ==> r == fromIndex
    ensures fromIndex < 0 ==> r == if size + fromIndex >= 0 then size + fromIndex else 0
  {
    if fromIndex >= 0 then fromIndex else if size + fromIndex >= 0 then size + fromIndex else 0
  }

  /** `slots`, read circularly from `front`, hold `items`: the layout every
      operation keeps. */
  ghost predicate Ring<T>(slots: seq<Option<T>>, front: int, items: seq<T>)
  {
    && 0 <= front < |slots| && |items| <= |slots|
    && forall i {:trigger SlotOf(slots, front, i)} :: 0 <= i < |items| ==> SlotOf(slots, front, i) == Some(items[i])
  }

  /** The slot holding the `i`-th item of a ring starting at `front`. */
  ghost function SlotOf<T>(slots: seq<Option<T>>, front: int, i: int): Option<T>
  {
    var k := Wrap(front + i, |slots|);
    if 0 <= k < |slots| then slots[k] else None
  }

  /** Writing after the last item extends the ring at the back. */
  lemma RingPushBack<T>(slots: seq<Option<T>>, front: int, items: seq<T>, x: T)
    requires Ring(slots, front, items) && |items| < |slots|
    ensures Ring(slots[Wrap(front + |items|, |slots|) := Some(x)], front, items + [x])
  {
    var slots' := slots[Wrap(front + |items|, |slots|) := Some(x)];
    forall i | 0 <= i < |items| + 1
      ensures SlotOf(slots', front, i) == Some((items + [x])[i])
    {
      if i < |items| {
        assert SlotOf(slots, front, i) == Some(items[i]);
      }
    }
  }

  /** Writing before the first item extends the ring at the front. */
  lemma RingPushFront<T>(slots: seq<Option<T>>, front: int, items: seq<T>, x: T)
    requires Ring(slots, front, items) && |items| < |slots|
    ensures var f := if front == 0 then |slots| - 1 else front - 1;
      Ring(slots[f := Some(x)], f, [x] + items)
  {
    var f := if front == 0 then |slots| - 1 else front - 1;
    var slots' := slots[f := Some(x)];
    forall i | 0 <= i < |items| + 1
      ensures SlotOf(slots', f, i) == Some(([x] + items)[i])
    {
      if i > 0 {
        assert SlotOf(slots, front, i - 1) == Some(items[i - 1]);
      }
    }
  }

  /** Dropping the first item, whatever is then written into its slot. */
  lemma RingPopFront<T>(slots: seq<Option<T>>, front: int, items: seq<T>, v: Option<T>)
    requires Ring(slots, front, items) && 1 <= |items| && |items| < |slots|
    ensures Ring(slots[front := v], Wrap(front + 1, |slots|), items[1..])
  {
    var slots' := slots[front := v];
    var f := Wrap(front + 1, |slots|);
    forall i | 0 <= i < |items| - 1
      ensures SlotOf(slots', f, i) == Some(items[1..][i])
    {
      assert SlotOf(slots, front, i + 1) == Some(items[i + 1]);
    }
  }

  /** Dropping the first item and leaving its slot as it is. */
  lemma RingDropFront<T>(slots: seq<Option<T>>, front: int, items: seq<T>)
    requires Ring(slots, front, items) && 1 <= |items|
    ensures Ring(slots, Wrap(front + 1, |slots|), items[1..])
  {
    var f := Wrap(front + 1, |slots|);
    forall i | 0 <= i < |items| - 1
      ensures SlotOf(slots, f, i) == Some(items[1..][i])
    {
      assert SlotOf(slots, front, i + 1) == Some(items[i + 1]);
    }
  }

  /** Dropping the last item, whatever is then written into its slot. */
  lemma RingPopBack<T>(slots: seq<Option<T>>, front: int, items: seq<T>, v: Option<T>)
    requires Ring(slots, front, items) && 1 <= |items|
    ensures Ring(slots[Wrap(front + |items| - 1, |slots|) := v], front, items[..|items| - 1])
  {
    var slots' := slots[Wrap(front + |items| - 1, |slots|) := v];
    forall i | 0 <= i < |items| - 1
      ensures SlotOf(slots', front, i) == Some(items[i])
    {
      assert SlotOf(slots, front, i) == Some(items[i]);
    }
  }

  /** Dropping the last item and leaving its slot as it is. */
  lemma RingDropBack<T>(slots: seq<Option<T>>, front: int, items: seq<T>)
    requires Ring(slots, front, items) && 1 <= |items|
    ensures Ring(slots, front, items[..|items| - 1])
  {
    forall i | 0 <= i < |items| - 1
      ensures SlotOf(slots, front, i) == Some(items[..|items| - 1][i])
    {
      assert SlotOf(slots, front, i) == Some(items[i]);
    }
  }

  /** Replacing the `i`-th item in its slot. */
  lemma RingSet<T>(slots: seq<Option<T>>, front: int, items: seq<T>, i: nat, x: T)
    requires Ring(slots, front, items) && i < |items|
    ensures Ring(slots[Wrap(front + i, |slots|) := Some(x)], front, items[i := x])
  {
    var slots', items' := slots[Wrap(front + i, |slots|) := Some(x)], items[i := x];
    forall j | 0 <= j < |items|
      ensures SlotOf(slots', front, j) == Some(items'[j])
    {
      if j != i {
        assert SlotOf(slots, front, j) == Some(items[j]);
      }
    }
  }

  /** The cursor step of `pushBack` / `popFront`: `k === n - 1 ? 0 : k + 1`. */
  function Next(k: int, n: int): int
  {
    if k == n - 1 then 0 else k + 1
  }

  /** The cursor step of `pushFront` / `popBack`: `k === 0 ? n - 1 : k - 1`. */
  function Prev(k: int, n: int): int
  {
    if k == 0 then n - 1 else k - 1
  }

  /** The representation invariant on a snapshot of the array: cursors in
      range, one slot always free, `back` just after the last item and the
      items laid out circularly from `front`. */
  ghost predicate Layout<T>(slots: seq<Option<T>>, front: int, back: int, size: int, items: seq<T>)
  {
    && 1 <= |slots| && 0 <= front < |slots| && 0 <= back < |slots| && 0 <= size < |slots|
    && back == Wrap(front + size, |slots|)
    && |items| == size
    && Ring(slots, front, items)
  }

  /** Where the `i`-th item lives. */
  lemma LayoutItem<T>(slots: seq<Option<T>>, front: int, back: int, size: int, items: seq<T>, i: int)
    requires Layout(slots, front, back, size, items) && 0 <= i < size
    ensures slots[Wrap(front + i, |slots|)] == Some(items[i])
  {
    assert SlotOf(slots, front, i) == Some(items[i]);
  }

  /** `pushBack` writes at `back` and steps it; with room the item is appended,
      otherwise every slot is occupied, `back` meets `front`, and stepping
      `front` too evicts the first item. */
  lemma LayoutPushBack<T>(slots: seq<Option<T>>, front: int, back: int, size: int, items: seq<T>, x: T)
    requires Layout(slots, front, back, size, items)
    ensures var s, n := slots[back := Some(x)], |slots|;
      && (size < n - 1 ==> Layout(s, front, Next(back, n), size + 1, items + [x]))
      && (size == n - 1 ==> Next(back, n) == front && Ring(s, front, items + [x]))
      && (size == n - 1 ==> Layout(s, Next(front, n), Next(back, n), size, (items + [x])[1..]))
  {
    RingPushBack(slots, front, items, x);
    if size == |slots| - 1 {
      RingDropFront(slots[back := Some(x)], front, items + [x]);
    }
  }

  /** `pushFront` steps `front` back and writes there; with room the item is
      prepended, otherwise `front` meets `back`, and stepping `back` too evicts
      the last item. */
  lemma LayoutPushFront<T>(slots: seq<Option<T>>, front: int, back: int, size: int, items: seq<T>, x: T)
    requires Layout(slots, front, back, size, items)
    ensures var f, n := Prev(front, |slots|), |slots|; var s := slots[f := Some(x)];
      && (size < n - 1 ==> Layout(s, f, back, size + 1, [x] + items))
      && (size == n - 1 ==> back == f && Ring(s, back, [x] + items))
      && (size == n - 1 ==> Layout(s, f, Prev(back, n), size, ([x] + items)[..size]))
  {
    RingPushFront(slots, front, items, x);
    if size == |slots| - 1 {
      RingDropBack(slots[Prev(front, |slots|) := Some(x)], Prev(front, |slots|), [x] + items);
    }
  }

  /** `popBack` steps `back` back onto the last item and drops it, whatever it
      then leaves in the slot. */
  lemma LayoutPopBack<T>(slots: seq<Option<T>>, front: int, back: int, size: int, items: seq<T>, v: Option<T>)
    requires Layout(slots, front, back, size, items) && 1 <= size
    ensures var b := Prev(back, |slots|);
      && slots[b] == Some(items[size - 1])
      && Layout(slots, front, b, size - 1, items[..size - 1])
      && Layout(slots[b := v], front, b, size - 1, items[..size - 1])
  {
    LayoutItem(slots, front, back, size, items, size - 1);
    RingDropBack(slots, front, items);
    RingPopBack(slots, front, items, v);
  }

  /** `popFront` drops the item at `front` and steps past it, whatever it then
      leaves in the slot. */
  lemma LayoutPopFront<T>(slots: seq<Option<T>>, front: int, back: int, size: int, items: seq<T>, v: Option<T>)
    requires Layout(slots, front, back, size, items) && 1 <= size
    ensures slots[front] == Some(items[0])
    ensures Layout(slots, Next(front, |slots|), back, size - 1, items[1..])
    ensures Layout(slots[front := v], Next(front, |slots|), back, size - 1, items[1..])
  {
    LayoutItem(slots, front, back, size, items, 0);
    RingDropFront(slots, front, items);
    RingPopFront(slots, front, items, v);
  }

  /** `set` overwrites the `i`-th item in place. */
  lemma LayoutSet<T>(slots: seq<Option<T>>, front: int, back: int, size: int, items: seq<T>, i: int, x: T)
    requires Layout(slots, front, back, size, items) && 0 <= i < size
    ensures Layout(slots[Wrap(front + i, |slots|) := Some(x)], front, back, size, items[i := x])
  {
    RingSet(slots, front, items, i, x);
  }

  class Deque<T(==)> {
    var data: array<Option<T>>
    var front: nat
    var back: nat
    var size: nat
    const growth: Growth
    const deleteStrategy: DeleteStrategy
    /** The array length `clear` restores. */
    const startingLength: nat
    /** The items front to back. */
    ghost var Contents: seq<T>

    /** The array and cursors lay out `Contents`. */
    ghost predicate Valid()
      reads this, data
    {
      && ValidGrowth(growth) && 1 <= startingLength
      && Layout(data[..], front, back, size, Contents)
    }

    /** lib/deque.0.ts:34-40,49: an empty deque over an array of
        `max(length, 1)` slots. */
    constructor WithLength(length: int, growth: Growth, deleteStrategy: DeleteStrategy)
      requires ValidGrowth(growth)
      ensures Valid() && fresh(data)
      ensures Contents == []
      ensures data.Length == startingLength == if length > 1 then length else 1
      ensures this.growth == growth && this.deleteStrategy == deleteStrategy
      ensures front == 0 && forall i :: 0 <= i < data.Length ==> data[i] == None
    {
      var n := if length > 1 then length else 1;
      var a := new Option<T>[n](_ => None);
      assert forall i :: 0 <= i < n ==> a[i] == None;
      data := a;
      front, back, size := 0, 0, 0;
      this.growth := growth;
      this.deleteStrategy := deleteStrategy;
      startingLength := n;
      Contents := [];
    }

    /** lib/deque.0.ts:34-36,41-49: a deque holding `items`, front first, in an
        array of `SeededLength` slots. */
    constructor FromItems(items: seq<T>, growth: Growth, deleteStrategy: DeleteStrategy)
      requires ValidGrowth(growth)
      requires growth.Factor? || items == []
      ensures Valid() && fresh(data)
      ensures Contents == items
      ensures data.Length == startingLength == SeededLength(|items|, growth)
      ensures this.growth == growth && this.deleteStrategy == deleteStrategy
      ensures front == 0
    {
      var n := SeededLength(|items|, growth);
      var a := new Option<T>[n](_ => None);
      var k := 0;
      while k < |items|
        invariant 0 <= k <= |items|
        invariant forall i :: 0 <= i < k ==> a[i] == Some(items[i])
      {
        a[k] := Some(items[k]);
        k := k + 1;
      }
      assert forall i :: 0 <= i < |items| ==> SlotOf(a[..], 0, i) == Some(items[i]);
      data := a;
      front, back, size := 0, |items|, |items|;
      this.growth := growth;
      this.deleteStrategy := deleteStrategy;
      startingLength := n;
      Contents := items;
    }

    /** lib/deque.0.ts:35: construction throws for a growth factor of one or less. */
    static method Create(length: int, growth: Growth, deleteStrategy: DeleteStrategy) returns (r: Result<Deque<T>>)
      ensures r.Failure? <==> !ValidGrowth(growth)
      ensures r.Failure? ==> r.error == InvalidArgument
      ensures r.Success? ==> fresh(r.value) && r.value.Valid() && r.value.Contents == []
      ensures r.Success? ==> r.value.data.Length == if length > 1 then length else 1
    {
      if !ValidGrowth(growth) {
        return Failure(InvalidArgument);
      }
      var d := new Deque<T>.WithLength(length, growth, deleteStrategy);
      return Success(d);
    }

    /** lib/deque.0.ts:50-64: with growth enabled, copies the full array into one
        `GrownLength` slots long, oldest item first from slot 0, and reports it.
        Called with every slot occupied (`front == back`), `full` being the items
        front to back; the result lays them out with room to spare. */
    method Grow(ghost full: seq<T>) returns (grew: bool)
      requires ValidGrowth(growth)
      requires 1 <= data.Length && front == back && |full| == data.Length && Ring(data[..], back, full)
      modifies this
      ensures grew <==> growth.Factor?
      ensures size == old(size) && Contents == old(Contents)
      ensures !grew ==> data == old(data) && front == old(front) && back == old(back)
      ensures grew ==> fresh(data) && data.Length == GrownLength(old(data.Length), growth.factor)
      ensures grew ==> front == 0 && back == old(data.Length)
      ensures grew ==> Layout(data[..], front, back, |full|, full)
      ensures grew ==> forall i :: back <= i < data.Length ==> data[i] == None
    {
      if growth.Disabled? {
        return false;
      }
      var n := data.Length;
      var a := new Option<T>[GrownLength(n, growth.factor)](_ => None);
      for destIx := 0 to n
        invariant unchanged(this)
        invariant forall i :: 0 <= i < destIx ==> a[i] == Some(full[i])
        invariant forall i :: n <= i < a.Length ==> a[i] == None
      {
        assert SlotOf(data[..], back, destIx) == Some(full[destIx]);
        a[destIx] := data[Wrap(destIx + back, n)];
      }
      front := 0;
      back := n;
      data := a;
      assert forall i :: 0 <= i < n ==> SlotOf(a[..], 0, i) == Some(full[i]);
      return true;
    }

    /** One iteration of `pushBack` (lib/deque.0.ts:66-74): appends `value`;
        when the array is full it grows, or with growth disabled evicts the
        front item. */
    method PushBackItem(value: T)
      requires Valid()
      modifies this, data
      ensures Valid()
      ensures data == old(data) || fresh(data)
      ensures growth.Disabled? ==> data == old(data)
      ensures Contents == PushedBack(old(Contents), [value], growth, data.Length - 1)
    {
      ghost var full := Contents + [value];
      ghost var slots := data[..];
      PushedBackOne(Contents, value, growth, data.Length - 1);
      LayoutPushBack(slots, front, back, size, Contents, value);
      data[back] := Some(value);
      assert data[..] == slots[back := Some(value)];
      back := if back == data.Length - 1 then 0 else back + 1;
      if size < data.Length - 1 {
        size := size + 1;
        Contents := full;
      } else if growth.Factor? {
        // `this.#growthFactor && this.#grow()` holds
        var grew := Grow(full);
        size := size + 1;
        Contents := full;
      } else {
        // the array is full and growth is disabled: evict the front item
        front := if front == data.Length - 1 then 0 else front + 1;
        Contents := full[1..];
      }
    }

    /** lib/deque.0.ts:65-76: appends `values` in order and returns the new size;
        a sliding window keeps the last `length - 1` items. */
    method PushBack(values: seq<T>) returns (newSize: nat)
      requires Valid()
      modifies this, data
      ensures Valid()
      ensures data == old(data) || fresh(data)
      ensures growth.Disabled? ==> data == old(data)
      ensures Contents == PushedBack(old(Contents), values, growth, data.Length - 1)
      ensures newSize == |Contents|
    {
      for k := 0 to |values|
        invariant Valid()
        invariant data == old(data) || fresh(data)
        invariant growth.Disabled? ==> data == old(data)
        invariant Contents == PushedBack(old(Contents), values[..k], growth, data.Length - 1)
      {
        ghost var window := data.Length - 1;
        PushBackItem(values[k]);
        PushedBackNext(old(Contents), values, k, growth, window, data.Length - 1);
      }
      assert values[..|values|] == values;
      return size;
    }

    /** One iteration of `pushFront` (lib/deque.0.ts:78-86): prepends `value`;
        when the array is full it grows, or with growth disabled evicts the
        back item. */
    method PushFrontItem(value: T)
      requires Valid()
      modifies this, data
      ensures Valid()
      ensures data == old(data) || fresh(data)
      ensures growth.Disabled? ==> data == old(data)
      ensures Contents == PushedFront(old(Contents), [value], growth, data.Length - 1)
    {
      ghost var full := [value] + Contents;
      ghost var slots := data[..];
      PushedFrontOne(Contents, value, growth, data.Length - 1);
      LayoutPushFront(slots, front, back, size, Contents, value);
      front := if front == 0 then data.Length - 1 else front - 1;
      data[front] := Some(value);
      assert data[..] == slots[front := Some(value)];
      if size < data.Length - 1 {
        size := size + 1;
        Contents := full;
      } else if growth.Factor? {
        // `this.#growthFactor && this.#grow()` holds
        var grew := Grow(full);
        size := size + 1;
        Contents := full;
      } else {
        // the array is full and growth is disabled: evict the back item
        back := if back == 0 then data.Length - 1 else back - 1;
        Contents := full[..size];
      }
    }

    /** lib/deque.0.ts:77-88: prepends `values` one at a time, so the last of
        them ends up first, and returns the new size; a sliding window keeps the
        first `length - 1` items. */
    method PushFront(values: seq<T>) returns (newSize: nat)
      requires Valid()
      modifies this, data
      ensures Valid()
      ensures data == old(data) || fresh(data)
      ensures growth.Disabled? ==> data == old(data)
      ensures Contents == PushedFront(old(Contents), values, growth, data.Length - 1)
      ensures newSize == |Contents|
    {
      for k := 0 to |values|
        invariant Valid()
        invariant data == old(data) || fresh(data)
        invariant growth.Disabled? ==> data == old(data)
        invariant Contents == PushedFront(old(Contents), values[..k], growth, data.Length - 1)
      {
        ghost var window := data.Length - 1;
        PushFrontItem(values[k]);
        PushedFrontNext(old(Contents), values, k, growth, window, data.Length - 1);
      }
      assert values[..|values|] == values;
      return size;
    }

    /** lib/deque.0.ts:89-98: removes and returns the back item, or nothing when
        empty; the vacated slot is emptied unless the strategy keeps stale items. */
    method PopBack() returns (r: Option<T>)
      requires Valid()
      modifies this, data
      ensures Valid() && data == old(data)
      ensures old(Contents) == [] ==> r == None && Contents == [] && data[..] == old(data[..])
      ensures old(Contents) != [] ==> r == Some(old(Contents)[|old(Contents)| - 1])
      ensures old(Contents) != [] ==> Contents == old(Contents)[..|old(Contents)| - 1]
      ensures old(Contents) != [] && deleteStrategy != Keep ==> data[back] == None
      ensures deleteStrategy == Keep ==> data[..] == old(data[..])
    {
      if size == 0 {
        return None;
      }
      LayoutPopBack(data[..], front, back, size, Contents, None);
      back := if back == 0 then data.Length - 1 else back - 1;
      r := data[back];
      if deleteStrategy != Keep {
        data[back] := None;
      }
      size := size - 1;
      Contents := Contents[..size];
    }

    /** lib/deque.0.ts:99-108: removes and returns the front item, or nothing when
        empty; the vacated slot is emptied unless the strategy keeps stale items. */
    method PopFront() returns (r: Option<T>)
      requires Valid()
      modifies this, data
      ensures Valid() && data == old(data)
      ensures old(Contents) == [] ==> r == None && Contents == [] && data[..] == old(data[..])
      ensures old(Contents) != [] ==> r == Some(old(Contents)[0]) && Contents == old(Contents)[1..]
      ensures old(Contents) != [] ==> front == Next(old(front), data.Length)
      ensures old(Contents) != [] && deleteStrategy != Keep ==> data[old(front)] == None
      ensures deleteStrategy == Keep ==> data[..] == old(data[..])
    {
      if size == 0 {
        return None;
      }
      LayoutPopFront(data[..], front, back, size, Contents, None);
      r := data[front];
      if deleteStrategy != Keep {
        data[front] := None;
      }
      front := if front == data.Length - 1 then 0 else front + 1;
      size := size - 1;
      Contents := Contents[1..];
    }

    /** lib/deque.0.ts:109-118: the item at `index`, negative indexes counting
        from the back; nothing when out of range. */
    function At(index: int): (r: Option<T>)
      reads this, data
      requires Valid()
      ensures 0 <= index < |Contents| ==> r == Some(Contents[index])
      ensures -|Contents| <= index < 0 ==> r == Some(Contents[|Contents| + index])
      ensures r.None? <==> !(-|Contents| <= index < |Contents|)
    {
      if index >= 0 then
        if index >= size then None
        else
          LayoutItem(data[..], front, back, size, Contents, index);
          data[Wrap(index + front, data.Length)]
      else if -index > size then None
      else
        var k := back + index;
        LayoutItem(data[..], front, back, size, Contents, size + index);
        data[if k >= 0 then k else k + data.Length]
    }

    /** lib/deque.0.ts:119-128: replaces the item at `index` (negative counting
        from the back) and returns `value`; throws when out of range. */
    method Set(index: int, value: T) returns (r: Result<T>)
      requires Valid()
      modifies this, data
      ensures Valid() && data == old(data)
      ensures r.Failure? <==> !(-(old(size) as int) <= index < old(size))
      ensures r.Failure? ==> r.error == OutOfBounds && Contents == old(Contents) && data[..] == old(data[..])
      ensures r.Success? ==> r.value == value
      ensures r.Success? && index >= 0 ==> Contents == old(Contents)[index := value]
      ensures r.Success? && index < 0 ==> Contents == old(Contents)[old(size) + index := value]
    {
      if index >= 0 {
        if index >= size {
          return Failure(OutOfBounds);
        }
        LayoutSet(data[..], front, back, size, Contents, index, value);
        data[Wrap(index + front, data.Length)] := Some(value);
        Contents := Contents[index := value];
        return Success(value);
      } else if -index > size {
        return Failure(OutOfBounds);
      }
      var k := back + index;
      LayoutSet(data[..], front, back, size, Contents, size + index, value);
      data[if k >= 0 then k else k + data.Length] := Some(value);
      Contents := Contents[size + index := value];
      return Success(value);
    }

    /** The slot read for logical index `i`, as every scan computes it. */
    function Item(i: int): (r: T)
      reads this, data
      requires Valid() && 0 <= i < size
      ensures r == Contents[i]
    {
      LayoutItem(data[..], front, back, size, Contents, i);
      data[Wrap(i + front, data.Length)].value
    }

    /** lib/deque.0.ts:136-143: the index of the first item satisfying the
        predicate, or -1. */
    method FindIndex(p: (T, int) -> bool) returns (r: int)
      requires Valid()
      ensures -1 <= r < |Contents|
      ensures r >= 0 ==> p(Contents[r], r)
      ensures forall j :: 0 <= j < |Contents| && (r < 0 || j < r) ==> !p(Contents[j], j)
    {
      for i := 0 to size
        invariant forall j :: 0 <= j < i ==> !p(Contents[j], j)
      {
        if p(Item(i), i) {
          return i;
        }
      }
      return -1;
    }

    /** lib/deque.0.ts:129-135: the first item satisfying the predicate. */
    method Find(p: (T, int) -> bool) returns (r: Option<T>)
      requires Valid()
      ensures r.None? <==> forall j :: 0 <= j < |Contents| ==> !p(Contents[j], j)
      ensures r.Some? ==> exists i :: 0 <= i < |Contents| && r.value == Contents[i] && p(Contents[i], i)
                                      && forall j :: 0 <= j < i ==> !p(Contents[j], j)
    {
      for i := 0 to size
        invariant forall j :: 0 <= j < i ==> !p(Contents[j], j)
      {
        var value := Item(i);
        if p(value, i) {
          return Some(value);
        }
      }
      return None;
    }

    /** lib/deque.0.ts:151-158: the index of the last item satisfying the
        predicate, or -1. */
    method FindLastIndex(p: (T, int) -> bool) returns (r: int)
      requires Valid()
      ensures -1 <= r < |Contents|
      ensures r >= 0 ==> p(Contents[r], r)
      ensures forall j :: r < j < |Contents| ==> !p(Contents[j], j)
    {
      var i := size - 1;
      while i >= 0
        invariant -1 <= i < size
        invariant forall j :: i < j < size ==> !p(Contents[j], j)
      {
        if p(Item(i), i) {
          return i;
        }
        i := i - 1;
      }
      return -1;
    }

    /** lib/deque.0.ts:144-150: the last item satisfying the predicate. */
    method FindLast(p: (T, int) -> bool) returns (r: Option<T>)
      requires Valid()
      ensures r.None? <==> forall j :: 0 <= j < |Contents| ==> !p(Contents[j], j)
      ensures r.Some? ==> exists i :: 0 <= i < |Contents| && r.value == Contents[i] && p(Contents[i], i)
                                      && forall j :: i < j < |Contents| ==> !p(Contents[j], j)
    {
      var i := size - 1;
      while i >= 0
        invariant -1 <= i < size
        invariant forall j :: i < j < size ==> !p(Contents[j], j)
      {
        var value := Item(i);
        if p(value, i) {
          return Some(value);
        }
        i := i - 1;
      }
      return None;
    }

    /** lib/deque.0.ts:159-167: a new deque (1024 slots, same growth and delete
        strategy) of the items satisfying the predicate; with growth disabled it
        is a sliding window, so only the last 1023 of them survive. */
    method Filter(p: (T, int) -> bool) returns (d: Deque<T>)
      requires Valid()
      ensures fresh(d) && fresh(d.data) && d.Valid()
      ensures d.growth == growth && d.deleteStrategy == deleteStrategy
      ensures d.Contents == PushedBack([], Filtered(Contents, p), growth, 1023)
    {
      d := new Deque<T>.WithLength(1024, growth, deleteStrategy);
      for i := 0 to size
        invariant d.Valid() && fresh(d) && fresh(d.data)
        invariant d.growth == growth && d.deleteStrategy == deleteStrategy
        invariant growth.Disabled? ==> d.data.Length == 1024
        invariant d.Contents == PushedBack([], Filtered(Contents[..i], p), growth, 1023)
      {
        assert Contents[..i + 1][..i] == Contents[..i];
        var value := Item(i);
        if p(value, i) {
          var _ := d.PushBack([value]);
          PushedBackStep([], Filtered(Contents[..i], p), value, growth, 1023, d.data.Length - 1);
        }
      }
      assert Contents[..size] == Contents;
    }

    /** lib/deque.0.ts:189-195 as written: the scan starts at `fromIndex` even
        when it is negative, and a negative logical index reads the raw slot
        below `front`, so a stale item left there by a pop can be found. */
    method IncludesAsWritten(value: T, fromIndex: int) returns (found: bool)
      requires Valid()
      ensures found <==> (exists i :: 0 <= i < |Contents| && fromIndex <= i && Contents[i] == value)
                         || (exists k :: 0 <= k < front && front + fromIndex <= k && data[k] == Some(value))
    {
      var i := fromIndex;
      while i < size
        invariant fromIndex <= i
        invariant i <= size || i == fromIndex
        invariant forall j :: 0 <= j < i && fromIndex <= j ==> Contents[j] != value
        invariant forall k :: 0 <= k < front && front + fromIndex <= k < front + i ==> data[k] != Some(value)
      {
        var k := i + front;
        var slot: Option<T>;
        if k < data.Length {
          // `array[k]` for a negative `k` is `undefined`
          slot := if k >= 0 then data[k] else None;
        } else {
          slot := data[k - data.Length];
        }
        if i >= 0 {
          LayoutItem(data[..], front, back, size, Contents, i);
        }
        if slot == Some(value) {
          return true;
        }
        i := i + 1;
      }
      return false;
    }

    /** `includes` as `Array.prototype.includes` defines it: a negative
        `fromIndex` counts back from the end. */
    method Includes(value: T, fromIndex: int) returns (found: bool)
      requires Valid()
      ensures found <==> exists i :: StartIndex(fromIndex, |Contents|) <= i < |Contents| && Contents[i] == value
    {
      var start := StartIndex(fromIndex, size);
      var i := start;
      while i < size
        invariant start <= i
        invariant forall j :: start <= j < i && j < size ==> Contents[j] != value
      {
        if Item(i) == value {
          return true;
        }
        i := i + 1;
      }
      return false;
    }

    /** lib/deque.0.ts:196-202: whether some item satisfies the callback. */
    method Any(p: (T, int) -> bool) returns (r: bool)
      requires Valid()
      ensures r <==> exists i :: 0 <= i < |Contents| && p(Contents[i], i)
    {
      for i := 0 to size
        invariant forall j :: 0 <= j < i ==> !p(Contents[j], j)
      {
        if p(Item(i), i) {
          return true;
        }
      }
      return false;
    }

    /** lib/deque.0.ts:203-209: whether every item satisfies the callback. */
    method Every(p: (T, int) -> bool) returns (r: bool)
      requires Valid()
      ensures r <==> forall i :: 0 <= i < |Contents| ==> p(Contents[i], i)
    {
      for i := 0 to size
        invariant forall j :: 0 <= j < i ==> p(Contents[j], j)
      {
        if !p(Item(i), i) {
          return false;
        }
      }
      return true;
    }

    /** lib/deque.0.ts:210-229, with an initial value: the callback folded over
        every item front to back. */
    method ReduceWith<R>(f: (R, T, int) -> R, initial: R) returns (r: R)
      requires Valid()
      ensures r == Folded(f, initial, Contents, 0, |Contents|)
    {
      r := initial;
      for i := 0 to size
        invariant r == Folded(f, initial, Contents, 0, i)
      {
        r := f(r, Item(i), i);
      }
    }

    /** lib/deque.0.ts:210-229, without an initial value: the fold starts from the
        front item at index 1, and an empty deque throws. */
    method Reduce(f: (T, T, int) -> T) returns (r: Result<T>)
      requires Valid()
      ensures r.Failure? <==> Contents == []
      ensures r.Failure? ==> r.error == EmptyReduce
      ensures r.Success? ==> r.value == Folded(f, Contents[0], Contents, 1, |Contents|)
    {
      if size == 0 {
        return Failure(EmptyReduce);
      }
      var acc := Item(0);
      for i := 1 to size
        invariant acc == Folded(f, Contents[0], Contents, 1, i)
      {
        acc := f(acc, Item(i), i);
      }
      return Success(acc);
    }

    /** lib/deque.0.ts:230-235: empties the deque into a fresh array of the
        starting length. */
    method Clear()
      requires Valid()
      modifies this
      ensures Valid() && fresh(data)
      ensures Contents == [] && data.Length == startingLength
    {
      data := new Option<T>[startingLength](_ => None);
      front, back, size := 0, 0, 0;
      Contents := [];
    }

    /** lib/deque.0.ts:236-238: a new deque seeded with these items. */
    method Clone() returns (d: Deque<T>)
      requires Valid()
      requires growth.Factor? || Contents == []
      ensures fresh(d) && fresh(d.data) && d.Valid()
      ensures d.Contents == Contents
      ensures d.growth == growth && d.deleteStrategy == deleteStrategy
      ensures d.data.Length == SeededLength(|Contents|, growth)
    {
      var items := ItemsFront();
      d := new Deque<T>.FromItems(items, growth, deleteStrategy);
    }

    /** lib/deque.0.ts:239-244: the items front to back. */
    method ItemsFront() returns (items: seq<T>)
      requires Valid()
      ensures items == Contents
    {
      items := [];
      for i := 0 to size
        invariant items == Contents[..i]
      {
        assert Contents[..i + 1] == Contents[..i] + [Contents[i]];
        items := items + [Item(i)];
      }
      assert Contents[..size] == Contents;
    }

    /** lib/deque.0.ts:245-250: the items back to front. */
    method ItemsBack() returns (items: seq<T>)
      requires Valid()
      ensures items == Reversed(Contents)
    {
      items := [];
      var i := size - 1;
      while i >= 0
        invariant -1 <= i < size
        invariant |items| == size - 1 - i
        invariant forall k :: 0 <= k < |items| ==> items[k] == Contents[size - 1 - k]
      {
        items := items + [Item(i)];
        i := i - 1;
      }
    }

    /** lib/deque.0.ts:251-256: index-item pairs front to back. */
    method EntriesFront() returns (entries: seq<(int, T)>)
      requires Valid()
      ensures |entries| == |Contents|
      ensures forall k :: 0 <= k < |entries| ==> entries[k] == (k, Contents[k])
    {
      entries := [];
      for i := 0 to size
        invariant |entries| == i
        invariant forall k :: 0 <= k < i ==> entries[k] == (k, Contents[k])
      {
        entries := entries + [(i, Item(i))];
      }
    }

    /** lib/deque.0.ts:257-262: index-item pairs back to front. */
    method EntriesBack() returns (entries: seq<(int, T)>)
      requires Valid()
      ensures |entries| == |Contents|
      ensures forall k :: 0 <= k < |entries| ==> entries[k] == (|Contents| - 1 - k, Contents[|Contents| - 1 - k])
    {
      entries := [];
      var i := size - 1;
      while i >= 0
        invariant -1 <= i < size
        invariant |entries| == size - 1 - i
        invariant forall k :: 0 <= k < |entries| ==> entries[k] == (size - 1 - k, Contents[size - 1 - k])
      {
        entries := entries + [(i, Item(i))];
        i := i - 1;
      }
    }

    /** lib/deque.0.ts:263-265. */
    function Size(): (r: nat)
      reads this, data
      requires Valid()
      ensures r == |Contents|
    {
      size
    }
  }

  /** Pops from the front until empty (`while (deque.size) deque.popFront()`). */
  method DrainFront<T(==)>(d: Deque<T>) returns (out: seq<T>)
    requires d.Valid()
    modifies d, d.data
    ensures d.Valid() && d.Contents == [] && d.data == old(d.data)
    ensures out == old(d.Contents)
  {
    out := [];
    while d.size > 0
      invariant d.Valid() && d.data == old(d.data)
      invariant out + d.Contents == old(d.Contents)
      decreases d.size
    {
      var r := d.PopFront();
      out := out + [r.value];
    }
  }

  /** Pops from the back until empty. */
  method DrainBack<T(==)>(d: Deque<T>) returns (out: seq<T>)
    requires d.Valid()
    modifies d, d.data
    ensures d.Valid() && d.Contents == [] && d.data == old(d.data)
    ensures out == Reversed(old(d.Contents))
  {
    out := [];
    while d.size > 0
      invariant d.Valid() && d.data == old(d.data)
      invariant |out| + |d.Contents| == |old(d.Contents)|
      invariant d.Contents == old(d.Contents)[..|d.Contents|]
      invariant forall k :: 0 <= k < |out| ==> out[k] == old(d.Contents)[|old(d.Contents)| - 1 - k]
      decreases d.size
    {
      var r := d.PopBack();
      out := out + [r.value];
    }
  }

  /** The four push/pop orders of lib/test/deque.ts:26-28,47-49 on a default
      deque (1024 slots, growth factor 2): pushing at one end and popping at the
      other preserves order, popping at the same end reverses it. */
  method PushPopOrders(input: seq<int>) returns (backBack: seq<int>, backFront: seq<int>, frontBack: seq<int>, frontFront: seq<int>)
    ensures backBack == Reversed(input) && backFront == input
    ensures frontBack == input && frontFront == Reversed(input)
  {
    var d := new Deque<int>.WithLength(1024, Factor(2.0), Null);
    var _ := d.PushBack(input);
    backBack := DrainBack(d);
    var _ := d.PushBack(input);
    backFront := DrainFront(d);
    var _ := d.PushFront(input);
    frontBack := DrainBack(d);
    var _ := d.PushFront(input);
    frontFront := DrainFront(d);
    ReversedTwice(input);
  }

  /** Growth preserves order: a deque of 2 slots with growth factor 2 that is
      pushed 1, 2, 3 pops them in that order, and so does one seeded with 4
      slots pushed 1 to 5. */
  method GrowthKeepsOrder() returns (small: seq<int>, seeded: seq<int>)
    ensures small == [1, 2, 3]
    ensures seeded == [1, 2, 3, 4, 5]
  {
    var d := new Deque<int>.WithLength(2, Factor(2.0), Null);
    var _ := d.PushBack([1, 2, 3]);
    small := DrainFront(d);
    var e := new Deque<int>.WithLength(4, Factor(2.0), Null);
    var _ := e.PushBack([1, 2, 3, 4, 5]);
    seeded := DrainFront(e);
  }

  /** A sliding window of 3 slots keeps the last two items pushed. */
  method SlidingWindow() returns (window: seq<int>)
    ensures window == [3, 4]
  {
    var d := new Deque<int>.WithLength(3, Disabled, Null);
    var _ := d.PushBack([1, 2, 3, 4]);
    window := d.ItemsFront();
  }

  /** The `includes` discrepancy: a deque seeded with 1, 2 that keeps stale
      items pops its front; it then holds only 2, yet `includes(1, -1)` as
      written finds the stale 1 in the slot below `front`, while the `Array`
      reading does not. */
  method IncludesStaleSlot() returns (contents: seq<int>, asWritten: bool, corrected: bool)
    ensures contents == [2]
    ensures asWritten && !corrected
  {
    var d := new Deque<int>.FromItems([1, 2], Factor(2.0), Keep);
    LayoutItem(d.data[..], d.front, d.back, d.size, d.Contents, 0);
    var _ := d.PopFront();
    contents := d.ItemsFront();
    asWritten := d.IncludesAsWritten(1, -1);
    corrected := d.Includes(1, -1);
  }
}
