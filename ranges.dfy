/** Lists built by running over a range of integers and appending what each
    step produces: the shape of the `offsets` loops; and lists read back to
    front, as `itemsBack` and `reverse()` do. */
module Ranges {

  /** `s` back to front. */
  function Reversed<T>(s: seq<T>): (r: seq<T>)
    ensures |r| == |s|
    ensures forall k :: 0 <= k < |s| ==> r[k] == s[|s| - 1 - k]
  {
    if s == [] then [] else [s[|s| - 1]] + Reversed(s[..|s| - 1])
  }

  /** Reversing twice restores the list: `itemsBack` of a front-pushed deque
      lists the input in order, and `rotate(180)` twice restores a grid. */
  lemma ReversedTwice<T>(s: seq<T>)
    ensures Reversed(Reversed(s)) == s
  {
    assert forall i :: 0 <= i < |s| ==> Reversed(Reversed(s))[i] == s[i];
  }

  /** `f(lo) + f(lo + 1) + … + f(hi - 1)`. */
  function Concat<T>(lo: int, hi: int, f: int -> seq<T>): seq<T>
    decreases hi - lo
  {
    if hi <= lo then [] else Concat(lo, hi - 1, f) + f(hi - 1)
  }

  /** One more step appends its output. */
  lemma ConcatStep<T>(lo: int, hi: int, f: int -> seq<T>)
    requires lo <= hi
    ensures Concat(lo, hi + 1, f) == Concat(lo, hi, f) + f(hi)
  {
  }

  /** An item is in the list exactly when some step in the range produced it. */
  lemma {:induction false} ConcatMember<T>(lo: int, hi: int, f: int -> seq<T>, t: T)
    ensures t in Concat(lo, hi, f) <==> exists i :: lo <= i < hi && t in f(i)
    decreases hi - lo
  {
    if lo < hi {
      ConcatMember(lo, hi - 1, f, t);
      if t in f(hi - 1) {
        assert lo <= hi - 1 < hi;
      }
    }
  }

  /** When every step produces `width` items, the list holds `width` per step. */
  lemma {:induction false} ConcatLength<T>(lo: int, hi: int, f: int -> seq<T>, width: nat)
    requires lo <= hi
    requires forall i :: lo <= i < hi ==> |f(i)| == width
    ensures |Concat(lo, hi, f)| == width * (hi - lo)
    decreases hi - lo
  {
    if lo < hi {
      ConcatLength(lo, hi - 1, f, width);
      assert width * (hi - lo) == width * (hi - 1 - lo) + width;
    }
  }

  /** Step `i`'s items follow those of the steps before it. */
  lemma {:induction false} ConcatAt<T>(lo: int, hi: int, f: int -> seq<T>, i: int, k: nat)
    requires lo <= i < hi && k < |f(i)|
    ensures |Concat(lo, i, f)| + k < |Concat(lo, hi, f)| && Concat(lo, hi, f)[|Concat(lo, i, f)| + k] == f(i)[k]
    decreases hi - lo
  {
    if i < hi - 1 {
      ConcatAt(lo, hi - 1, f, i, k);
    }
  }
}
