/** `PackedMap` (lib/packed-map.0.ts): a native `Map` keyed by the packed form
    of each key. Keys go in through `packer` and come out of `keys`/`entries`
    through `unpacker`. The native map is modelled as a Dafny `map`; iteration
    order and the multiplicity of repeated values are not modelled. */
module PackedMaps {
  import opened Wrappers
  import NativeMaps

  /** `[...iterable].map(([key, value]) => [packer(key), value])`. */
  function PackedPairs<K, V, P>(pairs: seq<(K, V)>, packer: K -> P): (r: seq<(P, V)>)
    ensures |r| == |pairs|
    ensures forall i :: 0 <= i < |pairs| ==> r[i] == (packer(pairs[i].0), pairs[i].1)
  {
    seq(|pairs|, i requires 0 <= i < |pairs| => (packer(pairs[i].0), pairs[i].1))
  }

  class PackedMap<K(!new, ==), V(!new, ==), P(!new, ==)> {
    /** The private `#map`. */
    var stored: map<P, V>
    const packer: K -> P
    const unpacker: P -> K

    /** lib/packed-map.0.ts:10-16: the pairs of `iterable` under their packed
        keys, a later pair replacing an earlier one with the same packed key. */
    constructor (packer: K -> P, unpacker: P -> K, iterable: Option<seq<(K, V)>>)
      ensures this.packer == packer && this.unpacker == unpacker
      ensures iterable.Some? ==> stored == NativeMaps.FromEntries(PackedPairs(iterable.value, packer))
      ensures iterable.None? ==> stored == map[]
    {
      this.packer := packer;
      this.unpacker := unpacker;
      if iterable.Some? {
        stored := NativeMaps.FromEntries(PackedPairs(iterable.value, packer));
      } else {
        stored := map[];
      }
    }

    /** lib/packed-map.0.ts:17-19. */
    method Clear()
      modifies this
      ensures stored == map[]
      ensures forall k :: Get(k) == None
    {
      stored := map[];
    }

    /** lib/packed-map.0.ts:20-22: removes the key's packed entry and reports
        whether there was one; every other entry stays. */
    method Delete(key: K) returns (found: bool)
      modifies this
      ensures found <==> old(Has(key))
      ensures !Has(key) && Get(key) == None
      ensures stored == old(stored) - {packer(key)}
    {
      found := packer(key) in stored;
      stored := stored - {packer(key)};
    }

    /** lib/packed-map.0.ts:29-31: the value stored under the key's packed
        form, or `undefined`. */
    function Get(key: K): (r: Option<V>)
      reads this
      ensures r.Some? <==> Has(key)
      ensures r.Some? ==> r.value == stored[packer(key)]
    {
      if packer(key) in stored then Some(stored[packer(key)]) else None
    }

    /** lib/packed-map.0.ts:32-34: decided by the packed key. A present key
        is listed by `keys` as it unpacks; when every stored key is the
        packing of what it unpacks to, every listed key is present. */
    predicate Has(key: K)
      reads this
      ensures Has(key) ==> unpacker(packer(key)) in Keys()
      ensures (forall p :: p in stored ==> packer(unpacker(p)) == p) && key in Keys() ==> Has(key)
    {
      packer(key) in stored
    }

    /** lib/packed-map.0.ts:38-41: stores the value under the key's packed
        form; `get` then returns it, every other packed key keeps its value,
        and overwriting an existing packed key leaves the size as it was. */
    method Set(key: K, value: V)
      modifies this
      ensures stored == old(stored)[packer(key) := value]
      ensures Has(key) && Get(key) == Some(value)
      ensures old(Has(key)) ==> Size() == old(Size())
      ensures !old(Has(key)) ==> Size() == old(Size()) + 1
    {
      stored := stored[packer(key) := value];
    }

    /** lib/packed-map.0.ts:42-44. */
    function Size(): nat
      reads this
    {
      |stored|
    }

    /** lib/packed-map.0.ts:35-37: the unpacked stored keys. */
    function Keys(): (r: set<K>)
      reads this
      ensures forall p :: p in stored ==> unpacker(p) in r
      ensures forall k :: k in r ==> exists p :: p in stored && unpacker(p) == k
    {
      set p | p in stored :: unpacker(p)
    }

    /** lib/packed-map.0.ts:45-47: the stored values. */
    function Values(): (r: set<V>)
      reads this
      ensures forall p :: p in stored ==> stored[p] in r
      ensures forall v :: v in r ==> exists p :: p in stored && stored[p] == v
    {
      stored.Values
    }

    /** lib/packed-map.0.ts:23-25: each stored value with its unpacked key. */
    function Entries(): (r: set<(K, V)>)
      reads this
      ensures forall p :: p in stored ==> (unpacker(p), stored[p]) in r
      ensures forall e :: e in r ==> exists p :: p in stored && e == (unpacker(p), stored[p])
    {
      set p | p in stored :: (unpacker(p), stored[p])
    }
  }

  /** Building from a list of pairs keeps, for each packed key, the value of
      the last pair whose key packs to it. */
  lemma BuiltKeepsLast<K(!new), V(!new), P(!new)>(m: PackedMap<K, V, P>, pairs: seq<(K, V)>, i: nat)
    requires m.stored == NativeMaps.FromEntries(PackedPairs(pairs, m.packer))
    requires i < |pairs|
    requires forall j :: i < j < |pairs| ==> m.packer(pairs[j].0) != m.packer(pairs[i].0)
    ensures m.Get(pairs[i].0) == Some(pairs[i].1)
  {
    var packed := PackedPairs(pairs, m.packer);
    forall j | i < j < |packed|
      ensures packed[j].0 != packed[i].0
    {
      assert packed[j].0 == m.packer(pairs[j].0);
    }
    NativeMaps.FromEntriesLast(packed, i);
  }

  /** `entries` returns the original keys, with their values, when `unpacker`
      undoes `packer` on every stored key. */
  lemma EntriesRoundTrip<K(!new), V(!new), P(!new)>(m: PackedMap<K, V, P>, key: K)
    requires m.Has(key)
    requires m.unpacker(m.packer(key)) == key
    ensures (key, m.Get(key).value) in m.Entries()
  {
    assert m.packer(key) in m.stored;
  }

  /** lib/packed-map.0.ts:29-44: setting two keys that pack to one value
      leaves one entry, holding the second value, which both keys read. */
  method OverwriteThroughPacking<K(!new, ==), V(!new, ==), P(!new, ==)>(packer: K -> P, unpacker: P -> K, a: K, b: K, x: V, y: V)
    returns (size: nat, viaA: Option<V>, viaB: Option<V>)
    requires packer(a) == packer(b)
    ensures size == 1 && viaA == Some(y) && viaB == Some(y)
  {
    var m := new PackedMap<K, V, P>(packer, unpacker, None);
    m.Set(a, x);
    m.Set(b, y);
    size := m.Size();
    viaA := m.Get(a);
    viaB := m.Get(b);
  }
}
