/** `BinaryHeap` (lib/binary-heap.0.ts): a binary tree embedded in an array,
    root at index 0 and the children of `i` at `2i+1` and `2i+2`, ordered by a
    caller's comparator so that no child comes before its parent. */
module Heaps {
  import opened Wrappers

  /** `x` comes no later than `y`: `cmp(x, y) <= 0`. */
  ghost predicate Le<T>(cmp: (T, T) -> int, x: T, y: T)
  {
    cmp(x, y) <= 0
  }

  /** The comparator orders items as a total preorder: swapping its arguments
      flips the sign of the answer, and "no later than" is transitive. It
      follows that every item compares equal to itself. */
  ghost predicate ValidComparator<T(!new)>(cmp: (T, T) -> int)
  {
    && (forall x, y {:trigger Le(cmp, y, x)} :: cmp(x, y) < 0 <==> !Le(cmp, y, x))
    && (forall x, y, z {:trigger Le(cmp, x, y), Le(cmp, y, z)} :: Le(cmp, x, y) && Le(cmp, y, z) ==> Le(cmp, x, z))
  }

  /** `(i - 1) >> 1`: the parent of a non-root index. */
  function Parent(i: int): int
  {
    (i - 1) / 2
  }

  /** Every non-root item compares no earlier than its parent (lib/binary-heap.0.ts:6-8). */
  ghost predicate IsHeap<T>(cmp: (T, T) -> int, s: seq<T>)
  {
    forall k :: 0 < k < |s| ==> Le(cmp, s[Parent(k)], s[k])
  }

  /** The heap order holds for every child except possibly `i`: the state of
      a sift-up with the moving item at `i`. */
  ghost predicate HeapExceptChild<T>(cmp: (T, T) -> int, s: seq<T>, i: int)
  {
    forall k :: 0 < k < |s| && k != i ==> Le(cmp, s[Parent(k)], s[k])
  }

  /** The heap order holds for every child not below `j`: the state of a
      sift-down with the moving item at `j`. */
  ghost predicate HeapExceptParent<T>(cmp: (T, T) -> int, s: seq<T>, j: int)
  {
    forall k :: 0 < k < |s| && Parent(k) != j ==> Le(cmp, s[Parent(k)], s[k])
  }

  /** The parent of `i` (if any) comes no later than the children of `i`, so
      whatever moves into `i` may be compared with them directly. */
  ghost predicate GrandparentFirst<T>(cmp: (T, T) -> int, s: seq<T>, i: int)
  {
    0 < i < |s| ==> forall c :: 0 < c < |s| && Parent(c) == i ==> Le(cmp, s[Parent(i)], s[c])
  }

  /** `[s[i], s[j]] = [s[j], s[i]]`. */
  function Swapped<T>(s: seq<T>, i: int, j: int): (t: seq<T>)
    requires 0 <= i < |s| && 0 <= j < |s|
    ensures |t| == |s| && t[i] == s[j] && t[j] == s[i]
    ensures forall k :: 0 <= k < |s| && k != i && k != j ==> t[k] == s[k]
    ensures multiset(t) == multiset(s)
  {
    s[i := s[j]][j := s[i]]
  }

  /** Items sorted by the comparator: no item comes after a later one. */
  ghost predicate Sorted<T>(cmp: (T, T) -> int, s: seq<T>)
  {
    forall i, j :: 0 <= i < j < |s| ==> Le(cmp, s[i], s[j])
  }

  /** The children of `j` are `2j+1` and `2j+2`. */
  lemma ChildIndex(c: int, j: int)
    requires 0 < c && 0 <= j
    ensures Parent(c) == j <==> c == 2 * j + 1 || c == 2 * j + 2
  {
  }

  /** In a heap the root comes no later than any item (lib/binary-heap.0.ts:6,14). */
  lemma {:induction false} RootFirst<T(!new)>(cmp: (T, T) -> int, s: seq<T>, i: int)
    requires ValidComparator(cmp) && IsHeap(cmp, s) && 0 <= i < |s|
    ensures Le(cmp, s[0], s[i])
    decreases i
  {
    if i == 0 {
      assert cmp(s[0], s[0]) < 0 <==> !Le(cmp, s[0], s[0]);
    } else {
      RootFirst(cmp, s, Parent(i));
      assert Le(cmp, s[Parent(i)], s[i]);
    }
  }

  /** One swap of the sift-up loop (lib/binary-heap.0.ts:46-50): an item that
      comes before its parent changes place with it, and the exception moves
      up to the parent's index. */
  lemma SiftUpStep<T(!new)>(cmp: (T, T) -> int, s: seq<T>, i: int)
    requires ValidComparator(cmp) && 0 < i < |s|
    requires HeapExceptChild(cmp, s, i) && GrandparentFirst(cmp, s, i)
    requires !Le(cmp, s[Parent(i)], s[i])
    ensures HeapExceptChild(cmp, Swapped(s, i, Parent(i)), Parent(i))
    ensures GrandparentFirst(cmp, Swapped(s, i, Parent(i)), Parent(i))
  {
    var p := Parent(i);
    var t := Swapped(s, i, p);
    assert cmp(s[p], s[i]) < 0 <==> !Le(cmp, s[i], s[p]);
    assert cmp(s[i], s[p]) < 0 <==> !Le(cmp, s[p], s[i]);
    forall k | 0 < k < |t| && k != p
      ensures Le(cmp, t[Parent(k)], t[k])
    {
      if k == i {
        assert Le(cmp, s[i], s[p]);
      } else if Parent(k) == i {
        assert Le(cmp, s[p], s[k]);
      } else if Parent(k) == p {
        assert Le(cmp, s[p], s[k]);
        assert Le(cmp, s[i], s[p]);
      } else {
        assert Le(cmp, s[Parent(k)], s[k]);
      }
    }
    if 0 < p {
      forall c | 0 < c < |t| && Parent(c) == p
        ensures Le(cmp, t[Parent(p)], t[c])
      {
        assert Le(cmp, s[Parent(p)], s[p]);
        if c != i {
          assert Le(cmp, s[p], s[c]);
        }
      }
    }
  }

  /** The child `pop` swaps with (lib/binary-heap.0.ts:67-70): the first child
      that comes before the parent, replaced by the second if that comes
      before the first choice; `j` itself when neither does. */
  function SiftTarget<T(!new)>(cmp: (T, T) -> int, s: seq<T>, j: int): (m: int)
    requires ValidComparator(cmp) && 0 <= j < |s|
    ensures m == j || (j < m < |s| && Parent(m) == j)
    ensures m != j ==> !Le(cmp, s[j], s[m])
    ensures forall c :: 0 < c < |s| && Parent(c) == j ==> Le(cmp, s[m], s[c])
    ensures m == j ==> forall c :: 0 < c < |s| && Parent(c) == j ==> Le(cmp, s[j], s[c])
  {
    var a, b := 2 * j + 1, 2 * j + 2;
    var m1 := if a < |s| && cmp(s[a], s[j]) < 0 then a else j;
    var m2 := if b < |s| && cmp(s[b], s[m1]) < 0 then b else m1;
    assert forall c :: 0 < c && Parent(c) == j ==> c == a || c == b;
    assert cmp(s[j], s[j]) < 0 <==> !Le(cmp, s[j], s[j]);
    assert a < |s| ==> (cmp(s[a], s[a]) < 0 <==> !Le(cmp, s[a], s[a]));
    assert a < |s| ==> (cmp(s[a], s[j]) < 0 <==> !Le(cmp, s[j], s[a]));
    assert a < |s| ==> (cmp(s[j], s[a]) < 0 <==> !Le(cmp, s[a], s[j]));
    assert b < |s| ==> (cmp(s[b], s[m1]) < 0 <==> !Le(cmp, s[m1], s[b]));
    assert b < |s| ==> (cmp(s[m1], s[b]) < 0 <==> !Le(cmp, s[b], s[m1]));
    assert b < |s| ==> (cmp(s[b], s[j]) < 0 <==> !Le(cmp, s[j], s[b]));
    assert b < |s| ==> (cmp(s[j], s[b]) < 0 <==> !Le(cmp, s[b], s[j]));
    assert Le(cmp, s[m2], s[m1]) && Le(cmp, s[m1], s[j]) ==> Le(cmp, s[m2], s[j]);
    assert a < |s| ==> (Le(cmp, s[m2], s[m1]) && Le(cmp, s[m1], s[a]) ==> Le(cmp, s[m2], s[a]));
    m2
  }

  /** One swap of the sift-down loop (lib/binary-heap.0.ts:71-74): the parent
      changes place with its earliest child, and the exception moves down
      to that child's index. */
  lemma SiftDownStep<T(!new)>(cmp: (T, T) -> int, s: seq<T>, j: int, m: int)
    requires ValidComparator(cmp) && 0 <= j < m < |s| && Parent(m) == j
    requires HeapExceptParent(cmp, s, j) && GrandparentFirst(cmp, s, j)
    requires !Le(cmp, s[j], s[m])
    requires forall c :: 0 < c < |s| && Parent(c) == j ==> Le(cmp, s[m], s[c])
    ensures HeapExceptParent(cmp, Swapped(s, j, m), m)
    ensures GrandparentFirst(cmp, Swapped(s, j, m), m)
  {
    var t := Swapped(s, j, m);
    assert cmp(s[m], s[j]) < 0 <==> !Le(cmp, s[j], s[m]);
    assert cmp(s[j], s[m]) < 0 <==> !Le(cmp, s[m], s[j]);
    forall k | 0 < k < |t| && Parent(k) != m
      ensures Le(cmp, t[Parent(k)], t[k])
    {
      if k == m {
        assert Le(cmp, s[m], s[j]);
      } else if Parent(k) == j {
        assert Le(cmp, s[m], s[k]);
      } else if k == j {
        assert Le(cmp, s[Parent(j)], s[m]);
      } else {
        assert Le(cmp, s[Parent(k)], s[k]);
      }
    }
    forall c | 0 < c < |t| && Parent(c) == m
      ensures Le(cmp, t[Parent(m)], t[c])
    {
      assert Le(cmp, s[m], s[c]);
    }
  }

  /** The sift-down stops when the moving item comes no later than its children. */
  lemma SiftDownDone<T>(cmp: (T, T) -> int, s: seq<T>, j: int)
    requires HeapExceptParent(cmp, s, j)
    requires forall c :: 0 < c < |s| && Parent(c) == j ==> Le(cmp, s[j], s[c])
    ensures IsHeap(cmp, s)
  {
  }

  /** Placing the last item at the root of a heap leaves only the root out of
      order with its children (lib/binary-heap.0.ts:60-64). */
  lemma RootReplaced<T>(cmp: (T, T) -> int, s: seq<T>)
    requires IsHeap(cmp, s) && 2 <= |s|
    ensures HeapExceptParent(cmp, s[..|s| - 1][0 := s[|s| - 1]], 0)
    ensures multiset(s[..|s| - 1][0 := s[|s| - 1]]) == multiset(s) - multiset{s[0]}
  {
    var t := s[..|s| - 1][0 := s[|s| - 1]];
    forall k | 0 < k < |t| && Parent(k) != 0
      ensures Le(cmp, t[Parent(k)], t[k])
    {
      assert Le(cmp, s[Parent(k)], s[k]);
    }
    assert s == s[..|s| - 1] + [s[|s| - 1]];
  }

  /** Appending an item that comes no later than everything left keeps the
      drained prefix sorted and ahead of what remains. */
  lemma DrainStep<T>(cmp: (T, T) -> int, out: seq<T>, m: T, before: multiset<T>, after: multiset<T>)
    requires Sorted(cmp, out)
    requires forall k, y :: 0 <= k < |out| && y in before ==> Le(cmp, out[k], y)
    requires m in before && after == before - multiset{m}
    requires forall x :: x in before ==> Le(cmp, m, x)
    ensures Sorted(cmp, out + [m])
    ensures forall k, y :: 0 <= k < |out| + 1 && y in after ==> Le(cmp, (out + [m])[k], y)
    ensures multiset(out + [m]) == multiset(out) + multiset{m}
  {
    forall k, y | 0 <= k < |out| + 1 && y in after
      ensures Le(cmp, (out + [m])[k], y)
    {
      assert y in before;
    }
  }

  class BinaryHeap<T(!new, ==)> {
    /** `#array`: the tree laid out level by level. */
    var data: seq<T>
    const cmp: (T, T) -> int

    ghost predicate Valid()
      reads this
    {
      ValidComparator(cmp) && IsHeap(cmp, data)
    }

    /** The items held, however they are laid out. */
    ghost function Elements(): multiset<T>
      reads this
    {
      multiset(data)
    }

    /** lib/binary-heap.0.ts:34-36: an empty heap, then each item pushed. */
    constructor (cmp: (T, T) -> int, items: seq<T>)
      requires ValidComparator(cmp)
      ensures Valid() && this.cmp == cmp
      ensures Elements() == multiset(items) && |data| == |items|
    {
      this.cmp := cmp;
      data := [];
      new;
      Push(items);
    }

    /** lib/binary-heap.0.ts:37-39. */
    function Length(): (n: nat)
      reads this
      ensures n == |Elements()|
    {
      |data|
    }

    /** One iteration of `push` (lib/binary-heap.0.ts:41-51): appends `value` as
        a leaf and swaps it toward the root while it comes before its parent. */
    method PushOne(value: T)
      requires Valid()
      modifies this
      ensures Valid()
      ensures Elements() == old(Elements()) + multiset{value}
      ensures |data| == old(|data|) + 1
    {
      data := data + [value];
      var itemIx := |data| - 1;
      while itemIx > 0
        invariant 0 <= itemIx < |data| && |data| == old(|data|) + 1
        invariant multiset(data) == old(multiset(data)) + multiset{value}
        invariant HeapExceptChild(cmp, data, itemIx) && GrandparentFirst(cmp, data, itemIx)
      {
        var parentIx := Parent(itemIx);
        assert cmp(data[itemIx], data[parentIx]) < 0 <==> !Le(cmp, data[parentIx], data[itemIx]);
        if cmp(data[itemIx], data[parentIx]) >= 0 {
          break;
        }
        SiftUpStep(cmp, data, itemIx);
        data := Swapped(data, itemIx, parentIx);
        itemIx := parentIx;
      }
    }

    /** lib/binary-heap.0.ts:40-54: pushes the values one after another; the
        heap gains exactly them. */
    method Push(values: seq<T>)
      requires Valid()
      modifies this
      ensures Valid()
      ensures Elements() == old(Elements()) + multiset(values)
      ensures |data| == old(|data|) + |values|
    {
      for k := 0 to |values|
        invariant Valid()
        invariant Elements() == old(Elements()) + multiset(values[..k])
        invariant |data| == old(|data|) + k
      {
        PushOne(values[k]);
        assert values[..k + 1] == values[..k] + [values[k]];
      }
      assert values[..|values|] == values;
    }

    /** lib/binary-heap.0.ts:55-77: nothing from an empty heap; otherwise
        removes and returns an item that comes no later than any other,
        moving the last leaf to the root and sifting it down. */
    method Pop() returns (r: Option<T>)
      requires Valid()
      modifies this
      ensures Valid()
      ensures old(data) == [] <==> r == None
      ensures r == None ==> data == old(data)
      ensures r.Some? ==> r.value in old(Elements()) && Elements() == old(Elements()) - multiset{r.value}
      ensures r.Some? ==> forall x :: x in old(Elements()) ==> Le(cmp, r.value, x)
      ensures r.Some? ==> |data| == old(|data|) - 1
      ensures r.Some? ==> r.value == old(data[0])
    {
      if |data| == 0 {
        return None;
      }
      var root := data[0];
      RootIsFirst();
      if |data| == 1 {
        data := [];
        return Some(root);
      }
      RootReplaced(cmp, data);
      data := data[..|data| - 1][0 := data[|data| - 1]];
      var parentIx := 0;
      while true
        invariant 0 <= parentIx < |data| && |data| == old(|data|) - 1
        invariant multiset(data) == old(multiset(data)) - multiset{root}
        invariant HeapExceptParent(cmp, data, parentIx) && GrandparentFirst(cmp, data, parentIx)
        decreases |data| - parentIx
      {
        var itemIx := SiftTarget(cmp, data, parentIx);
        if itemIx == parentIx {
          SiftDownDone(cmp, data, parentIx);
          break;
        }
        SiftDownStep(cmp, data, parentIx, itemIx);
        data := Swapped(data, parentIx, itemIx);
        parentIx := itemIx;
      }
      return Some(root);
    }

    /** The root comes no later than any item. */
    lemma RootIsFirst()
      requires Valid() && |data| > 0
      ensures forall x :: x in Elements() ==> Le(cmp, data[0], x)
    {
      forall x | x in Elements()
        ensures Le(cmp, data[0], x)
      {
        var i :| 0 <= i < |data| && data[i] == x;
        RootFirst(cmp, data, i);
      }
    }

    /** lib/binary-heap.0.ts:100-102: the item `pop` would return, or nothing. */
    function Peek(): (r: Option<T>)
      reads this
      requires Valid()
      ensures r.None? <==> |Elements()| == 0
      ensures r.Some? ==> r.value in Elements() && forall x :: x in Elements() ==> Le(cmp, r.value, x)
      ensures r.Some? ==> r.value == data[0]
    {
      if |data| == 0 then None
      else
        RootIsFirst();
        Some(data[0])
    }

    /** lib/binary-heap.0.ts:97-99. */
    method Clear()
      requires Valid()
      modifies this
      ensures Valid() && Elements() == multiset{}
    {
      data := [];
    }

    /** lib/binary-heap.0.ts:103-107: a new heap over a copy of the array. */
    method Clone() returns (h: BinaryHeap<T>)
      requires Valid()
      ensures fresh(h) && h.Valid() && h.cmp == cmp && h.data == data
    {
      h := new BinaryHeap<T>(cmp, []);
      h.data := data;
    }

    /** lib/binary-heap.0.ts:109-112: pops until empty; the items come out
        sorted and are exactly the items held. */
    method PopAll() returns (out: seq<T>)
      requires Valid()
      modifies this
      ensures Valid() && Elements() == multiset{}
      ensures multiset(out) == old(Elements())
      ensures Sorted(cmp, out)
    {
      out := [];
      while |data| > 0
        invariant Valid()
        invariant multiset(out) + Elements() == old(Elements())
        invariant Sorted(cmp, out)
        invariant forall k, y :: 0 <= k < |out| && y in Elements() ==> Le(cmp, out[k], y)
        decreases |data|
      {
        ghost var before := Elements();
        var r := Pop();
        DrainStep(cmp, out, r.value, before, Elements());
        out := out + [r.value];
      }
    }

    /** lib/binary-heap.0.ts:114-123: the items in sorted order, through a copy
        so the heap itself is untouched. */
    method Items() returns (out: seq<T>)
      requires Valid()
      ensures multiset(out) == Elements()
      ensures Sorted(cmp, out)
    {
      var h := Clone();
      out := h.PopAll();
    }

    /** lib/binary-heap.0.ts:125-134: the sorted items numbered from zero. */
    method Entries() returns (entries: seq<(int, T)>)
      requires Valid()
      ensures |entries| == |Elements()|
      ensures forall k :: 0 <= k < |entries| ==> entries[k].0 == k
      ensures forall j, k :: 0 <= j < k < |entries| ==> Le(cmp, entries[j].1, entries[k].1)
      ensures multiset(seq(|entries|, k requires 0 <= k < |entries| => entries[k].1)) == Elements()
    {
      var items := Items();
      entries := seq(|items|, k requires 0 <= k < |items| => (k, items[k]));
      assert seq(|entries|, k requires 0 <= k < |entries| => entries[k].1) == items;
    }

    /** lib/binary-heap.0.ts:79-81: membership, by the array's own scan. */
    function Includes(value: T): (r: bool)
      reads this
      ensures r <==> value in Elements()
    {
      value in data
    }

    /** lib/binary-heap.0.ts:82-84: whether some item satisfies the callback. */
    function Any(p: T -> bool): (r: bool)
      reads this
      ensures r <==> exists x :: x in Elements() && p(x)
    {
      exists i :: 0 <= i < |data| && p(data[i])
    }

    /** lib/binary-heap.0.ts:85-89: whether every item satisfies the callback,
        scanning in array order. */
    method Every(p: T -> bool) returns (r: bool)
      ensures r <==> forall x :: x in Elements() ==> p(x)
    {
      for i := 0 to |data|
        invariant forall j :: 0 <= j < i ==> p(data[j])
      {
        if !p(data[i]) {
          return false;
        }
      }
      return true;
    }

    /** lib/binary-heap.0.ts:90-96 with an initial value: `Array.prototype.reduce`
        over the array, index 0 first. The order is the array's, not the
        comparator's, so the result is pinned down by the items alone only
        for a callback insensitive to the order of its inputs. */
    method ReduceWith<R(!new)>(f: (R, T) -> R, initial: R) returns (r: R)
      ensures r == FoldLeft(f, initial, data)
      ensures RightCommutative(f) ==> forall s: seq<T> :: multiset(s) == Elements() ==> r == FoldLeft(f, initial, s)
    {
      r := initial;
      for i := 0 to |data|
        invariant r == FoldLeft(f, initial, data[..i])
      {
        assert data[..i + 1][..i] == data[..i];
        r := f(r, data[i]);
      }
      assert data[..|data|] == data;
      if RightCommutative(f) {
        forall s | multiset(s) == Elements()
          ensures r == FoldLeft(f, initial, s)
        {
          FoldLeftPermutation(f, initial, data, s);
        }
      }
    }

    /** lib/binary-heap.0.ts:90-96 without an initial value: the fold starts
        from the root, and an empty heap throws. For a commutative and
        associative callback any order of the items gives the same value. */
    method Reduce(f: (T, T) -> T) returns (r: Result<T>)
      ensures r.Failure? <==> |data| == 0
      ensures r.Failure? ==> r.error == EmptyReduce
      ensures r.Success? ==> r.value == FoldLeft(f, data[0], data[1..])
      ensures r.Success? && Commutative(f) && Associative(f) ==>
                forall s: seq<T> :: |s| > 0 && multiset(s) == Elements() ==> r.value == FoldLeft(f, s[0], s[1..])
    {
      if |data| == 0 {
        return Failure(EmptyReduce);
      }
      var acc := data[0];
      for i := 1 to |data|
        invariant acc == FoldLeft(f, data[0], data[1..i])
      {
        assert data[1..i + 1][..i - 1] == data[1..i];
        acc := f(acc, data[i]);
      }
      assert data[1..|data|] == data[1..];
      if Commutative(f) && Associative(f) {
        forall s | |s| > 0 && multiset(s) == Elements()
          ensures acc == FoldLeft(f, s[0], s[1..])
        {
          assert data == [data[0]] + data[1..] && s == [s[0]] + s[1..];
          FoldLeftAnyStart(f, data[0], data[1..], s[0], s[1..]);
        }
      }
      return Success(acc);
    }
  }

  /** `Array.prototype.reduce` from the left (section 23.1.3.24 of ECMA-262):
      the callback applied to the accumulator and each item in turn. */
  function FoldLeft<R, T>(f: (R, T) -> R, initial: R, s: seq<T>): R
  {
    if s == [] then initial else f(FoldLeft(f, initial, s[..|s| - 1]), s[|s| - 1])
  }

  /** Folding two items in either order gives the same accumulator. */
  ghost predicate RightCommutative<R(!new), T(!new)>(f: (R, T) -> R)
  {
    forall a, x, y :: f(f(a, x), y) == f(f(a, y), x)
  }

  ghost predicate Commutative<T(!new)>(f: (T, T) -> T)
  {
    forall x, y :: f(x, y) == f(y, x)
  }

  ghost predicate Associative<T(!new)>(f: (T, T) -> T)
  {
    forall x, y, z :: f(f(x, y), z) == f(x, f(y, z))
  }

  /** An item anywhere in the list may be folded in last instead. */
  lemma {:induction false} FoldLeftMoveLast<R(!new), T(!new)>(f: (R, T) -> R, a: R, u: seq<T>, x: T, w: seq<T>)
    requires RightCommutative(f)
    ensures FoldLeft(f, a, u + [x] + w) == f(FoldLeft(f, a, u + w), x)
    decreases |w|
  {
    if w == [] {
      assert u + [x] + w == u + [x] && u + w == u;
      assert (u + [x])[..|u|] == u;
    } else {
      var w', y := w[..|w| - 1], w[|w| - 1];
      assert (u + [x] + w)[..|u + [x] + w| - 1] == u + [x] + w';
      assert (u + w)[..|u + w| - 1] == u + w';
      FoldLeftMoveLast(f, a, u, x, w');
    }
  }

  /** For a callback insensitive to the order of its inputs, folding any
      permutation of a list gives the same value. */
  lemma {:induction false} FoldLeftPermutation<R(!new), T(!new)>(f: (R, T) -> R, a: R, s: seq<T>, t: seq<T>)
    requires RightCommutative(f)
    requires multiset(s) == multiset(t)
    ensures FoldLeft(f, a, s) == FoldLeft(f, a, t)
    decreases |s|
  {
    if s == [] {
      assert |t| == |multiset(t)| == 0;
    } else {
      var x := s[|s| - 1];
      var init := s[..|s| - 1];
      assert s == init + [x];
      assert x in multiset(t);
      var j :| 0 <= j < |t| && t[j] == x;
      var u, w := t[..j], t[j + 1..];
      assert t == u + [x] + w;
      assert multiset(init) == multiset(u + w) by {
        assert multiset(s) == multiset(init) + multiset{x};
        assert multiset(t) == multiset(u) + multiset{x} + multiset(w);
        assert multiset(u + w) == multiset(u) + multiset(w);
        assert multiset(init) == multiset(s) - multiset{x};
      }
      FoldLeftPermutation(f, a, init, u + w);
      FoldLeftMoveLast(f, a, u, x, w);
    }
  }

  /** A commutative, associative callback is also insensitive to the order
      of the accumulator's inputs. */
  lemma CommutativeAssociative<T(!new)>(f: (T, T) -> T)
    requires Commutative(f) && Associative(f)
    ensures RightCommutative(f)
  {
    forall a, x, y
      ensures f(f(a, x), y) == f(f(a, y), x)
    {
      calc {
        f(f(a, x), y);
        f(a, f(x, y));
        { assert f(x, y) == f(y, x); }
        f(a, f(y, x));
        f(f(a, y), x);
      }
    }
  }

  /** For a commutative callback the starting value and the first item can
      trade places. */
  lemma {:induction false} FoldLeftSwapStart<T(!new)>(f: (T, T) -> T, x: T, y: T, w: seq<T>)
    requires Commutative(f)
    ensures FoldLeft(f, x, [y] + w) == FoldLeft(f, y, [x] + w)
    decreases |w|
  {
    if w == [] {
      assert FoldLeft(f, x, [y]) == f(x, y) by { assert [y][..0] == []; }
      assert FoldLeft(f, y, [x]) == f(y, x) by { assert [x][..0] == []; }
    } else {
      var w' := w[..|w| - 1];
      assert ([y] + w)[..|w|] == [y] + w';
      assert ([x] + w)[..|w|] == [x] + w';
      FoldLeftSwapStart(f, x, y, w');
    }
  }

  /** For a commutative, associative callback a reduce without an initial
      value depends only on the items, not on which one starts the fold. */
  lemma FoldLeftAnyStart<T(!new)>(f: (T, T) -> T, x: T, v: seq<T>, y: T, w: seq<T>)
    requires Commutative(f) && Associative(f)
    requires multiset([x] + v) == multiset([y] + w)
    ensures FoldLeft(f, x, v) == FoldLeft(f, y, w)
  {
    CommutativeAssociative(f);
    if x == y {
      SameRest(x, v, w);
      FoldLeftPermutation(f, x, v, w);
    } else {
      var rest := PickOut(x, v, y, w);
      FoldLeftPermutation(f, x, v, [y] + rest);
      FoldLeftSwapStart(f, x, y, rest);
      FoldLeftPermutation(f, y, [x] + rest, w);
    }
  }

  /** Two lists that differ only in the same first item hold the same rest. */
  lemma SameRest<T>(x: T, v: seq<T>, w: seq<T>)
    requires multiset([x] + v) == multiset([x] + w)
    ensures multiset(v) == multiset(w)
  {
    assert multiset([x] + v) == multiset{x} + multiset(v);
    assert multiset([x] + w) == multiset{x} + multiset(w);
    assert multiset(v) == multiset([x] + v) - multiset{x};
  }

  /** When `[x] + v` and `[y] + w` hold the same items and `x != y`, `y` occurs
      in `v`; `rest` is what remains of `v` without it. */
  lemma PickOut<T>(x: T, v: seq<T>, y: T, w: seq<T>) returns (rest: seq<T>)
    requires x != y && multiset([x] + v) == multiset([y] + w)
    ensures multiset(v) == multiset([y] + rest)
    ensures multiset([x] + rest) == multiset(w)
  {
    ConsMultiset(x, v);
    ConsMultiset(y, w);
    assert y in multiset(v) by {
      assert y in multiset([y] + w);
    }
    var j :| 0 <= j < |v| && v[j] == y;
    rest := RemoveAt(v, j);
    ConsMultiset(y, rest);
    ConsMultiset(x, rest);
    assert multiset{y} + multiset(w) == multiset{y} + (multiset{x} + multiset(rest));
    assert multiset(w) == (multiset{y} + multiset(w)) - multiset{y};
  }

  lemma ConsMultiset<T>(x: T, v: seq<T>)
    ensures multiset([x] + v) == multiset{x} + multiset(v)
  {
  }

  /** `v` without its item at `j`, which it holds once more. */
  lemma RemoveAt<T>(v: seq<T>, j: int) returns (rest: seq<T>)
    requires 0 <= j < |v|
    ensures multiset(v) == multiset{v[j]} + multiset(rest)
  {
    rest := v[..j] + v[j + 1..];
    assert v == v[..j] + [v[j]] + v[j + 1..];
  }

  /** The numeric comparator `(a, b) => a - b` of lib/test/binary-heap.ts:6. */
  function NumericOrder(a: int, b: int): (r: int)
    ensures r < 0 <==> a < b
  {
    a - b
  }

  lemma NumericOrderValid()
    ensures ValidComparator(NumericOrder)
  {
    forall x: int, y: int
      ensures NumericOrder(x, y) < 0 <==> !Le(NumericOrder, y, x)
    {
    }
  }

  /** Dropping the first item of a sorted list leaves it sorted. */
  lemma SortedTail<T>(cmp: (T, T) -> int, s: seq<T>)
    requires Sorted(cmp, s) && |s| > 0
    ensures Sorted(cmp, s[1..])
  {
    forall a, b | 0 <= a < b < |s| - 1
      ensures Le(cmp, s[1..][a], s[1..][b])
    {
      assert s[1..][a] == s[a + 1] && s[1..][b] == s[b + 1];
    }
  }

  /** A sorted numeric list and a strictly ascending list with the same items
      start with the same item. */
  lemma SortedHead(out: seq<int>, ascending: seq<int>)
    requires Sorted(NumericOrder, out) && |ascending| > 0
    requires forall i, j :: 0 <= i < j < |ascending| ==> ascending[i] < ascending[j]
    requires multiset(out) == multiset(ascending)
    ensures |out| > 0 && out[0] == ascending[0]
  {
    assert |out| == |multiset(out)| == |ascending|;
    assert out[0] in multiset(ascending);
    var i :| 0 <= i < |ascending| && ascending[i] == out[0];
    assert ascending[0] in multiset(out);
    var j :| 0 <= j < |out| && out[j] == ascending[0];
    if j > 0 {
      assert Le(NumericOrder, out[0], out[j]);
    }
    assert out[0] <= ascending[0];
  }

  /** Two lists with the same items and the same first item have the same
      items after it. */
  lemma SameTail<T>(a: seq<T>, b: seq<T>)
    requires |a| > 0 && |b| > 0 && a[0] == b[0]
    requires multiset(a) == multiset(b)
    ensures multiset(a[1..]) == multiset(b[1..])
  {
    assert a == [a[0]] + a[1..] && b == [b[0]] + b[1..];
    assert multiset(a) == multiset{a[0]} + multiset(a[1..]);
    assert multiset(b) == multiset{b[0]} + multiset(b[1..]);
    assert multiset(a[1..]) == multiset(a) - multiset{a[0]};
  }

  /** The tail of a strictly ascending list is strictly ascending. */
  lemma AscendingTail(ascending: seq<int>)
    requires |ascending| > 0
    requires forall i, j :: 0 <= i < j < |ascending| ==> ascending[i] < ascending[j]
    ensures forall i, j :: 0 <= i < j < |ascending| - 1 ==> ascending[1..][i] < ascending[1..][j]
  {
    forall i, j | 0 <= i < j < |ascending| - 1
      ensures ascending[1..][i] < ascending[1..][j]
    {
      assert ascending[1..][i] == ascending[i + 1] && ascending[1..][j] == ascending[j + 1];
    }
  }

  /** A list sorted by the numeric comparator that holds the items of a
      strictly ascending list is that list: the order `popAll` produces is
      determined by the items alone when they are distinct. */
  lemma {:induction false} SortedIsAscending(out: seq<int>, ascending: seq<int>)
    requires Sorted(NumericOrder, out)
    requires forall i, j :: 0 <= i < j < |ascending| ==> ascending[i] < ascending[j]
    requires multiset(out) == multiset(ascending)
    ensures out == ascending
    decreases |ascending|
  {
    if |ascending| == 0 {
      assert |out| == |multiset(out)| == 0;
    } else {
      SortedHead(out, ascending);
      SameTail(out, ascending);
      SortedTail(NumericOrder, out);
      AscendingTail(ascending);
      SortedIsAscending(out[1..], ascending[1..]);
    }
  }

  /** lib/test/binary-heap.ts:27-33 on a small input: pushing 5, 3, 8, 1 into a
      numeric heap and popping until empty yields 1, 3, 5, 8. */
  method DrainNumbers() returns (out: seq<int>)
    ensures out == [1, 3, 5, 8]
  {
    NumericOrderValid();
    var h := new BinaryHeap<int>(NumericOrder, [5, 3, 8, 1]);
    out := h.PopAll();
    assert multiset([5, 3, 8, 1]) == multiset([1, 3, 5, 8]);
    SortedIsAscending(out, [1, 3, 5, 8]);
  }
}
