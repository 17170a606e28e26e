/** `HashedMap` (lib/hashed-map.0.ts): a native `Map` from a caller's hash of
    each key to a record holding the original key and its value, so keys come
    back out without unpacking. Lookups compare hashes only. The native map
    is modelled as a Dafny `map`; iteration order and the multiplicity of
    repeated values are not modelled. */
module HashedMaps {
  import opened Wrappers
  import NativeMaps

  /** The `{ key, value }` record stored under each hash. */
  datatype Stored<K, V> = Stored(key: K, value: V)

  /** `[...iterable].map(([key, value]) => [hasher(key), { key, value }])`. */
  function HashedRecords<K, V, H>(pairs: seq<(K, V)>, hasher: K -> H): (r: seq<(H, Stored<K, V>)>)
    ensures |r| == |pairs|
    ensures forall i :: 0 <= i < |pairs| ==> r[i] == (hasher(pairs[i].0), Stored(pairs[i].0, pairs[i].1))
  {
    seq(|pairs|, i requires 0 <= i < |pairs| => (hasher(pairs[i].0), Stored(pairs[i].0, pairs[i].1)))
  }

  class HashedMap<K(!new, ==), V(!new, ==), H(!new, ==)> {
    /** The private `#map`. */
    var records: map<H, Stored<K, V>>
    const hasher: K -> H

    /** lib/hashed-map.0.ts:7-9: each pair stored under its key's hash, a
        later pair replacing an earlier one with the same hash. */
    constructor (hasher: K -> H, iterable: Option<seq<(K, V)>>)
      ensures this.hasher == hasher
      ensures iterable.Some? ==> records == NativeMaps.FromEntries(HashedRecords(iterable.value, hasher))
      ensures iterable.None? ==> records == map[]
    {
      this.hasher := hasher;
      if iterable.Some? {
        records := NativeMaps.FromEntries(HashedRecords(iterable.value, hasher));
      } else {
        records := map[];
      }
    }

    /** lib/hashed-map.0.ts:10-12. */
    method Clear()
      modifies this
      ensures records == map[]
      ensures forall k :: Get(k) == None
    {
      records := map[];
    }

    /** lib/hashed-map.0.ts:13-15: removes the record under the key's hash and
        reports whether there was one. */
    method Delete(key: K) returns (found: bool)
      modifies this
      ensures found <==> old(Has(key))
      ensures !Has(key) && Get(key) == None
      ensures records == old(records) - {hasher(key)}
    {
      found := hasher(key) in records;
      records := records - {hasher(key)};
    }

    /** lib/hashed-map.0.ts:22-24: the value of the record under the key's
        hash, whichever key that record holds, or `undefined`. */
    function Get(key: K): (r: Option<V>)
      reads this
      ensures r.Some? <==> Has(key)
      ensures r.Some? ==> r.value == records[hasher(key)].value
    {
      if hasher(key) in records then Some(records[hasher(key)].value) else None
    }

    /** lib/hashed-map.0.ts:25-27: decided by the hash alone. When every
        record is stored under its own key's hash, a key is present exactly
        when some listed key shares its hash. */
    predicate Has(key: K)
      reads this
      ensures Has(key) ==> hasher(key) in records && records[hasher(key)].key in Keys()
      ensures (forall h :: h in records ==> hasher(records[h].key) == h) ==>
                (Has(key) <==> exists k :: k in Keys() && hasher(k) == hasher(key))
    {
      hasher(key) in records
    }

    /** lib/hashed-map.0.ts:31-34: stores the key and value together under the
        key's hash, replacing both parts of any record with that hash; the
        size grows only when the hash is new. */
    method Set(key: K, value: V)
      modifies this
      ensures records == old(records)[hasher(key) := Stored(key, value)]
      ensures Get(key) == Some(value)
      ensures old(Has(key)) ==> Size() == old(Size())
      ensures !old(Has(key)) ==> Size() == old(Size()) + 1
    {
      records := records[hasher(key) := Stored(key, value)];
    }

    /** lib/hashed-map.0.ts:35-37. */
    function Size(): nat
      reads this
    {
      |records|
    }

    /** lib/hashed-map.0.ts:28-30: the stored original keys. */
    function Keys(): (r: set<K>)
      reads this
      ensures forall h :: h in records ==> records[h].key in r
      ensures forall k :: k in r ==> exists h :: h in records && records[h].key == k
    {
      set h | h in records :: records[h].key
    }

    /** lib/hashed-map.0.ts:38-40: the stored values. */
    function Values(): (r: set<V>)
      reads this
      ensures forall h :: h in records ==> records[h].value in r
      ensures forall v :: v in r ==> exists h :: h in records && records[h].value == v
    {
      set h | h in records :: records[h].value
    }

    /** lib/hashed-map.0.ts:16-18: each stored key with its value. */
    function Entries(): (r: set<(K, V)>)
      reads this
      ensures forall h :: h in records ==> (records[h].key, records[h].value) in r
      ensures forall e :: e in r ==> exists h :: h in records && e == (records[h].key, records[h].value)
    {
      set h | h in records :: (records[h].key, records[h].value)
    }
  }

  /** Building from a list of pairs keeps, for each hash, the key and value of
      the last pair whose key has it. */
  lemma BuiltKeepsLast<K(!new), V(!new), H(!new)>(m: HashedMap<K, V, H>, pairs: seq<(K, V)>, i: nat)
    requires m.records == NativeMaps.FromEntries(HashedRecords(pairs, m.hasher))
    requires i < |pairs|
    requires forall j :: i < j < |pairs| ==> m.hasher(pairs[j].0) != m.hasher(pairs[i].0)
    ensures m.Get(pairs[i].0) == Some(pairs[i].1)
    ensures pairs[i].0 in m.Keys()
  {
    var records := HashedRecords(pairs, m.hasher);
    forall j | i < j < |records|
      ensures records[j].0 != records[i].0
    {
      assert records[j].0 == m.hasher(pairs[j].0);
    }
    NativeMaps.FromEntriesLast(records, i);
  }

  /** lib/hashed-map.0.ts:22-34: after `set(a, x)` and then `set(b, y)` with
      `b` hashing like `a`, one record remains; it holds `b` and `y`, and a
      lookup through `a` finds `y`. */
  method LaterSetReplacesKey<K(!new, ==), V(!new, ==), H(!new, ==)>(hasher: K -> H, a: K, b: K, x: V, y: V)
    returns (size: nat, viaA: Option<V>, stored: Stored<K, V>)
    requires hasher(a) == hasher(b)
    ensures size == 1 && viaA == Some(y) && stored == Stored(b, y)
  {
    var m := new HashedMap<K, V, H>(hasher, None);
    m.Set(a, x);
    m.Set(b, y);
    size := m.Size();
    viaA := m.Get(a);
    stored := m.records[hasher(a)];
  }
}
