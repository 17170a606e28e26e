/** The behaviour of JavaScript's built-in `Map` and `Set` constructors that the
    library's containers rely on: building from a list of entries sets them one
    after another, so a later entry with an equal key replaces an earlier one. */
module NativeMaps {

  /** `new Map(pairs)`. */
  function FromEntries<K, V>(pairs: seq<(K, V)>): (m: map<K, V>)
    ensures m.Keys == set i | 0 <= i < |pairs| :: pairs[i].0
  {
    if pairs == [] then map[]
    else
      var init := FromEntries(pairs[..|pairs| - 1]);
      var last := pairs[|pairs| - 1];
      assert forall i :: 0 <= i < |pairs| - 1 ==> pairs[..|pairs| - 1][i] == pairs[i];
      init[last.0 := last.1]
  }

  /** Last writer wins: a key maps to the value of the last pair that carries it. */
  lemma {:induction false} FromEntriesLast<K, V>(pairs: seq<(K, V)>, i: nat)
    requires i < |pairs|
    requires forall j :: i < j < |pairs| ==> pairs[j].0 != pairs[i].0
    ensures pairs[i].0 in FromEntries(pairs)
    ensures FromEntries(pairs)[pairs[i].0] == pairs[i].1
  {
    if i < |pairs| - 1 {
      var init := pairs[..|pairs| - 1];
      assert init[i] == pairs[i];
      FromEntriesLast(init, i);
    }
  }

  /** `new Set(items)`. */
  function FromItems<T(==)>(items: seq<T>): (s: set<T>)
    ensures forall i :: 0 <= i < |items| ==> items[i] in s
    ensures forall x <- s :: x in items
  {
    set i | 0 <= i < |items| :: items[i]
  }

  /** The images of a list under `f`, as a set. */
  function Image<T, U>(items: seq<T>, f: T -> U): (s: set<U>)
    ensures forall i :: 0 <= i < |items| ==> f(items[i]) in s
    ensures forall u :: u in s ==> exists i :: 0 <= i < |items| && f(items[i]) == u
  {
    set i | 0 <= i < |items| :: f(items[i])
  }
}
