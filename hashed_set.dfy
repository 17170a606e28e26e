/** `HashedSet` (lib/hashed-set.0.ts): a native `Map` from a caller's hash of
    each key to the key itself. Membership is decided by the hash alone, so a
    key whose hash collides with a stored one counts as present, and a later
    key replaces an earlier one with the same hash. The native map is
    modelled as a Dafny `map`; iteration order is not modelled. */
module HashedSets {
  import opened Wrappers
  import NativeMaps

  /** `[...iterable].map((key) => [hasher(key), key])`. */
  function HashedPairs<K, H>(items: seq<K>, hasher: K -> H): (pairs: seq<(H, K)>)
    ensures |pairs| == |items|
    ensures forall i :: 0 <= i < |items| ==> pairs[i] == (hasher(items[i]), items[i])
  {
    seq(|items|, i requires 0 <= i < |items| => (hasher(items[i]), items[i]))
  }

  class HashedSet<K(!new, ==), H(!new, ==)> {
    /** The private `#map`. */
    var entries: map<H, K>
    const hasher: K -> H

    /** lib/hashed-set.0.ts:10-16: the items of `iterable` under their hashes,
        a later item replacing an earlier one with the same hash; otherwise
        the raw `hashedIterable` pairs; otherwise nothing. */
    constructor (hasher: K -> H, iterable: Option<seq<K>>, hashedIterable: Option<seq<(H, K)>>)
      ensures this.hasher == hasher
      ensures iterable.Some? ==> entries == NativeMaps.FromEntries(HashedPairs(iterable.value, hasher))
      ensures iterable.None? && hashedIterable.Some? ==> entries == NativeMaps.FromEntries(hashedIterable.value)
      ensures iterable.None? && hashedIterable.None? ==> entries == map[]
    {
      this.hasher := hasher;
      if iterable.Some? {
        entries := NativeMaps.FromEntries(HashedPairs(iterable.value, hasher));
      } else if hashedIterable.Some? {
        entries := NativeMaps.FromEntries(hashedIterable.value);
      } else {
        entries := map[];
      }
    }

    /** The constructor reached with the (filtered) entries of another native
        map as `hashedIterable`: their hashes are distinct, so the new map
        holds exactly them. This is how the set algebra and `clone` build
        their results. */
    constructor FromMap(hasher: K -> H, entries: map<H, K>)
      ensures this.hasher == hasher && this.entries == entries
    {
      this.hasher := hasher;
      this.entries := entries;
    }

    /** lib/hashed-set.0.ts:17-20: stores the key under its hash, replacing
        whichever key had that hash. */
    method Add(key: K)
      modifies this
      ensures entries == old(entries)[hasher(key) := key]
    {
      entries := entries[hasher(key) := key];
    }

    /** lib/hashed-set.0.ts:21-23: removes whatever key has this key's hash
        and reports whether there was one. */
    method Delete(key: K) returns (found: bool)
      modifies this
      ensures found <==> old(Has(key))
      ensures entries == old(entries) - {hasher(key)}
    {
      found := hasher(key) in entries;
      entries := entries - {hasher(key)};
    }

    /** lib/hashed-set.0.ts:24-26. */
    method Clear()
      modifies this
      ensures entries == map[]
      ensures forall k :: !Has(k)
    {
      entries := map[];
    }

    /** lib/hashed-set.0.ts:36-38: membership looks only at the hash. When
        every entry is stored under its own hash, a key is present exactly
        when some listed key shares its hash. */
    predicate Has(key: K)
      reads this
      ensures Has(key) ==> hasher(key) in entries && entries[hasher(key)] in Keys()
      ensures (forall h :: h in entries ==> hasher(entries[h]) == h) ==>
                (Has(key) <==> exists k :: k in Keys() && hasher(k) == hasher(key))
    {
      hasher(key) in entries
    }

    /** lib/hashed-set.0.ts:54-56: the number of distinct hashes. */
    function Size(): nat
      reads this
    {
      |entries|
    }

    /** lib/hashed-set.0.ts:51-53,66-68: the stored keys, verbatim, which are
        what `keys`, `values` and iteration yield. */
    function Keys(): (r: set<K>)
      reads this
      ensures forall h :: h in entries ==> entries[h] in r
      ensures forall k :: k in r ==> exists h :: h in entries && entries[h] == k
    {
      entries.Values
    }

    /** lib/hashed-set.0.ts:30-32: each stored key paired with itself. */
    function Entries(): (r: set<(K, K)>)
      reads this
      ensures forall a, b :: (a, b) in r <==> a == b && a in Keys()
    {
      set k | k in Keys() :: (k, k)
    }

    /** lib/hashed-set.0.ts:27-29: this set's entries whose hash `other` lacks. */
    method Difference(other: HashedSet<K, H>) returns (r: HashedSet<K, H>)
      ensures fresh(r) && r.hasher == hasher
      ensures r.entries.Keys == entries.Keys - other.entries.Keys
      ensures forall h :: h in r.entries ==> r.entries[h] == entries[h]
    {
      r := new HashedSet<K, H>.FromMap(hasher, map h | h in entries && h !in other.entries :: entries[h]);
    }

    /** lib/hashed-set.0.ts:39-41: this set's entries whose hash `other` holds;
        the keys kept are this set's, not `other`'s. */
    method Intersection(other: HashedSet<K, H>) returns (r: HashedSet<K, H>)
      ensures fresh(r) && r.hasher == hasher
      ensures r.entries.Keys == entries.Keys * other.entries.Keys
      ensures forall h :: h in r.entries ==> r.entries[h] == entries[h]
    {
      r := new HashedSet<K, H>.FromMap(hasher, map h | h in entries && h in other.entries :: entries[h]);
    }

    /** lib/hashed-set.0.ts:57-62: the entries of each operand whose hash the
        other lacks. */
    method SymmetricDifference(other: HashedSet<K, H>) returns (r: HashedSet<K, H>)
      ensures fresh(r) && r.hasher == hasher
      ensures forall h :: h in r.entries <==> (h in entries <==> h !in other.entries)
      ensures forall h :: h in r.entries && h in entries ==> r.entries[h] == entries[h]
      ensures forall h :: h in r.entries && h in other.entries ==> r.entries[h] == other.entries[h]
    {
      var mine := map h | h in entries && h !in other.entries :: entries[h];
      var theirs := map h | h in other.entries && h !in entries :: other.entries[h];
      r := new HashedSet<K, H>.FromMap(hasher, mine + theirs);
    }

    /** lib/hashed-set.0.ts:63-65: every hash of either operand; where both
        hold a hash, `other`'s key is inserted later and is the one kept. */
    method Union(other: HashedSet<K, H>) returns (r: HashedSet<K, H>)
      ensures fresh(r) && r.hasher == hasher
      ensures r.entries.Keys == entries.Keys + other.entries.Keys
      ensures forall h :: h in other.entries ==> r.entries[h] == other.entries[h]
      ensures forall h :: h in entries && h !in other.entries ==> r.entries[h] == entries[h]
    {
      r := new HashedSet<K, H>.FromMap(hasher, entries + other.entries);
    }

    /** lib/hashed-set.0.ts:42-44: no hash of this set is in `other`. */
    predicate IsDisjointFrom(other: HashedSet<K, H>)
      reads this, other
    {
      forall h :: h in entries ==> h !in other.entries
    }

    /** lib/hashed-set.0.ts:45-47: every hash of this set is in `other`. */
    predicate IsSubsetOf(other: HashedSet<K, H>)
      reads this, other
    {
      forall h :: h in entries ==> h in other.entries
    }

    /** lib/hashed-set.0.ts:48-50: every hash of `other` is in this set. */
    predicate IsSupersetOf(other: HashedSet<K, H>)
      reads this, other
    {
      forall h :: h in other.entries ==> h in entries
    }

    /** lib/hashed-set.0.ts:69-71: an independent copy with the same hasher. */
    method Clone() returns (r: HashedSet<K, H>)
      ensures fresh(r) && r.hasher == hasher && r.entries == entries
      ensures forall k :: r.Has(k) <==> Has(k)
    {
      r := new HashedSet<K, H>.FromMap(hasher, entries);
    }
  }

  /** The hash tests are the inclusions and disjointness of the hash sets,
      whatever keys are stored under them. */
  lemma SubsetIsInclusion<K(!new), H(!new)>(a: HashedSet<K, H>, b: HashedSet<K, H>)
    ensures a.IsSubsetOf(b) <==> a.entries.Keys <= b.entries.Keys
    ensures a.IsSupersetOf(b) <==> b.IsSubsetOf(a)
    ensures a.IsDisjointFrom(b) <==> a.entries.Keys * b.entries.Keys == {}
  {
    if a.IsDisjointFrom(b) {
      assert forall h :: h in a.entries.Keys * b.entries.Keys ==> h in a.entries && h !in b.entries;
    }
    if a.entries.Keys * b.entries.Keys == {} {
      forall h | h in a.entries
        ensures h !in b.entries
      {
        assert h !in a.entries.Keys * b.entries.Keys;
      }
    }
  }

  /** Building from a list of keys keeps, for each hash, the last key that has
      it. */
  lemma BuiltKeepsLast<K(!new), H(!new)>(s: HashedSet<K, H>, items: seq<K>, i: nat)
    requires s.entries == NativeMaps.FromEntries(HashedPairs(items, s.hasher))
    requires i < |items|
    requires forall j :: i < j < |items| ==> s.hasher(items[j]) != s.hasher(items[i])
    ensures s.Has(items[i]) && s.entries[s.hasher(items[i])] == items[i]
  {
    var pairs := HashedPairs(items, s.hasher);
    forall j | i < j < |pairs|
      ensures pairs[j].0 != pairs[i].0
    {
      assert pairs[j].0 == s.hasher(items[j]);
    }
    NativeMaps.FromEntriesLast(pairs, i);
  }

  /** lib/hashed-set.0.ts:36-38: a set holding one key answers `has` for a
      different key with the same hash, while iteration still yields only the
      stored key. */
  method CollidingHas<K(!new, ==), H(!new, ==)>(hasher: K -> H, a: K, b: K) returns (hasB: bool, keys: set<K>)
    requires hasher(a) == hasher(b)
    ensures hasB && keys == {a}
  {
    var s := new HashedSet<K, H>(hasher, None, None);
    s.Add(a);
    hasB := s.Has(b);
    keys := s.Keys();
  }

  /** lib/hashed-set.0.ts:17-20: of two keys with one hash, the one added last
      is the one kept. */
  method LastAddWins<K(!new, ==), H(!new, ==)>(hasher: K -> H, a: K, b: K) returns (size: nat, keys: set<K>)
    requires hasher(a) == hasher(b)
    ensures size == 1 && keys == {b}
  {
    var s := new HashedSet<K, H>(hasher, None, None);
    s.Add(a);
    s.Add(b);
    size := s.Size();
    keys := s.Keys();
  }

  /** lib/hashed-set.0.ts:63-65: `{a, b}` united with `{d, c}`, where `d`
      shares `b`'s hash, has three members and keeps `d` under that hash. */
  method UnionSharedHash<K(!new, ==), H(!new, ==)>(hasher: K -> H, a: K, b: K, c: K, d: K) returns (size: nat, kept: K)
    requires hasher(a) != hasher(b) && hasher(a) != hasher(c) && hasher(b) != hasher(c)
    requires hasher(d) == hasher(b)
    ensures size == 3 && kept == d
  {
    var x := new HashedSet<K, H>(hasher, None, None);
    x.Add(a);
    x.Add(b);
    var y := new HashedSet<K, H>(hasher, None, None);
    y.Add(d);
    y.Add(c);
    assert x.entries.Keys == {hasher(a), hasher(b)};
    assert x.entries[hasher(a)] == a;
    assert y.entries.Keys == {hasher(b), hasher(c)};
    assert y.entries[hasher(b)] == d && y.entries[hasher(c)] == c;
    var u := x.Union(y);
    assert u.entries.Keys == {hasher(a), hasher(b), hasher(c)};
    assert u.entries[hasher(a)] == a && u.entries[hasher(b)] == d && u.entries[hasher(c)] == c;
    size := u.Size();
    kept := u.entries[hasher(b)];
  }
}
