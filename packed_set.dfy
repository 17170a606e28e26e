/** `PackedSet` (lib/packed-set.0.ts): a native `Set` of packed values standing
    for a set of keys. Keys go in through `packer` and come out through
    `unpacker`; two keys with the same packed value are one member. The native
    set is modelled as a Dafny `set`, so iteration order is not modelled. */
module PackedSets {
  import opened Wrappers
  import NativeMaps

  class PackedSet<K(!new, ==), P(!new, ==)> {
    /** The private `#set`. */
    var packed: set<P>
    const packer: K -> P
    const unpacker: P -> K

    /** lib/packed-set.0.ts:10-17: the packed values of `iterable` when one is
        given, otherwise the raw `packedIterable`, otherwise nothing. */
    constructor (packer: K -> P, unpacker: P -> K, iterable: Option<seq<K>>, packedIterable: Option<seq<P>>)
      ensures this.packer == packer && this.unpacker == unpacker
      ensures iterable.Some? ==> packed == NativeMaps.Image(iterable.value, packer)
      ensures iterable.None? && packedIterable.Some? ==> packed == NativeMaps.FromItems(packedIterable.value)
      ensures iterable.None? && packedIterable.None? ==> packed == {}
    {
      this.packer := packer;
      this.unpacker := unpacker;
      if iterable.Some? {
        packed := NativeMaps.Image(iterable.value, packer);
      } else if packedIterable.Some? {
        packed := NativeMaps.FromItems(packedIterable.value);
      } else {
        packed := {};
      }
    }

    /** The constructor reached with a native `Set` as `packedIterable`, which
        is how the set algebra and `clone` build their results. */
    constructor FromSet(packer: K -> P, unpacker: P -> K, packed: set<P>)
      ensures this.packer == packer && this.unpacker == unpacker
      ensures this.packed == packed
    {
      this.packer := packer;
      this.unpacker := unpacker;
      this.packed := packed;
    }

    /** lib/packed-set.0.ts:18-21: the key is a member afterwards, as is every
        key that packs to the same value. */
    method Add(key: K)
      modifies this
      ensures packed == old(packed) + {packer(key)}
      ensures Has(key)
    {
      packed := packed + {packer(key)};
    }

    /** lib/packed-set.0.ts:22-24: reports whether the key's packed value was
        stored and removes it, leaving the other members. */
    method Delete(key: K) returns (found: bool)
      modifies this
      ensures found <==> old(Has(key))
      ensures !Has(key)
      ensures packed == old(packed) - {packer(key)}
    {
      found := packer(key) in packed;
      packed := packed - {packer(key)};
    }

    /** lib/packed-set.0.ts:25-27. */
    method Clear()
      modifies this
      ensures packed == {}
      ensures forall k :: !Has(k)
    {
      packed := {};
    }

    /** lib/packed-set.0.ts:43-45: membership is decided by the packed value.
        A present key is listed by `keys` as it unpacks; when every stored
        value is the packing of what it unpacks to, every listed key is
        present. */
    predicate Has(key: K)
      reads this
      ensures Has(key) ==> exists p :: p in packed && unpacker(p) == unpacker(packer(key))
      ensures (forall p :: p in packed ==> packer(unpacker(p)) == p) && (exists p :: p in packed && unpacker(p) == key) ==> Has(key)
    {
      packer(key) in packed
    }

    /** lib/packed-set.0.ts:61-63: the number of distinct packed values. */
    function Size(): nat
      reads this
    {
      |packed|
    }

    /** lib/packed-set.0.ts:58-60,70-72: the unpacked stored values, which are
        what `keys`, `values` and iteration yield. */
    function Keys(): (r: set<K>)
      reads this
      ensures forall p :: p in packed ==> unpacker(p) in r
      ensures forall k :: k in r ==> exists p :: p in packed && unpacker(p) == k
      ensures |r| <= |packed|
    {
      ImageSize(packed, unpacker);
      set p | p in packed :: unpacker(p)
    }

    /** lib/packed-set.0.ts:31-36: each unpacked key paired with itself. */
    function Entries(): (r: set<(K, K)>)
      reads this
      ensures forall e :: e in r <==> e.0 == e.1 && e.0 in Keys()
    {
      set k | k in Keys() :: (k, k)
    }

    /** lib/packed-set.0.ts:28-30: a new set of this set's packed values that
        `other` lacks, with this set's packer and unpacker. */
    method Difference(other: PackedSet<K, P>) returns (r: PackedSet<K, P>)
      ensures fresh(r) && r.packer == packer && r.unpacker == unpacker
      ensures r.packed == packed - other.packed
      ensures forall k :: r.Has(k) <==> Has(k) && !other.HasPacked(packer(k))
    {
      r := new PackedSet<K, P>.FromSet(packer, unpacker, packed - other.packed);
    }

    /** lib/packed-set.0.ts:46-48. */
    method Intersection(other: PackedSet<K, P>) returns (r: PackedSet<K, P>)
      ensures fresh(r) && r.packer == packer && r.unpacker == unpacker
      ensures r.packed == packed * other.packed
      ensures forall k :: r.Has(k) <==> Has(k) && other.HasPacked(packer(k))
    {
      r := new PackedSet<K, P>.FromSet(packer, unpacker, packed * other.packed);
    }

    /** lib/packed-set.0.ts:64-66: the packed values in exactly one operand. */
    method SymmetricDifference(other: PackedSet<K, P>) returns (r: PackedSet<K, P>)
      ensures fresh(r) && r.packer == packer && r.unpacker == unpacker
      ensures r.packed == (packed - other.packed) + (other.packed - packed)
      ensures forall p :: p in r.packed <==> (p in packed <==> p !in other.packed)
    {
      r := new PackedSet<K, P>.FromSet(packer, unpacker, (packed - other.packed) + (other.packed - packed));
    }

    /** lib/packed-set.0.ts:67-69. */
    method Union(other: PackedSet<K, P>) returns (r: PackedSet<K, P>)
      ensures fresh(r) && r.packer == packer && r.unpacker == unpacker
      ensures r.packed == packed + other.packed
      ensures r.IsSupersetOf(this) && r.IsSupersetOf(other)
    {
      r := new PackedSet<K, P>.FromSet(packer, unpacker, packed + other.packed);
    }

    /** Membership of a packed value, as the native `Set` answers it. */
    predicate HasPacked(p: P)
      reads this
    {
      p in packed
    }

    /** lib/packed-set.0.ts:49-51: no packed value is stored in both. */
    predicate IsDisjointFrom(other: PackedSet<K, P>)
      reads this, other
    {
      forall p :: p in packed ==> p !in other.packed
    }

    /** lib/packed-set.0.ts:52-54. */
    predicate IsSubsetOf(other: PackedSet<K, P>)
      reads this, other
    {
      forall p :: p in packed ==> p in other.packed
    }

    /** lib/packed-set.0.ts:55-57. */
    predicate IsSupersetOf(other: PackedSet<K, P>)
      reads this, other
    {
      other.IsSubsetOf(this)
    }

    /** lib/packed-set.0.ts:73-75: a fresh set over a copy of the packed values,
        so later changes to either are invisible to the other. */
    method Clone() returns (r: PackedSet<K, P>)
      ensures fresh(r) && r.packer == packer && r.unpacker == unpacker
      ensures r.packed == packed
      ensures forall k :: r.Has(k) <==> Has(k)
    {
      r := new PackedSet<K, P>.FromSet(packer, unpacker, packed);
    }
  }

  /** Mapping a finite set cannot make it larger. */
  lemma {:induction false} ImageSize<P, K>(s: set<P>, f: P -> K)
    ensures |set p | p in s :: f(p)| <= |s|
    decreases |s|
  {
    if s != {} {
      var p :| p in s;
      var rest := s - {p};
      ImageSize(rest, f);
      assert (set q | q in s :: f(q)) == (set q | q in rest :: f(q)) + {f(p)};
    }
  }

  /** The subset tests decide the inclusions of the packed sets, in both
      directions, and `isSupersetOf` is `isSubsetOf` reversed. */
  lemma SubsetIsInclusion<K(!new), P(!new)>(a: PackedSet<K, P>, b: PackedSet<K, P>)
    ensures a.IsSubsetOf(b) <==> a.packed <= b.packed
    ensures a.IsSupersetOf(b) <==> b.packed <= a.packed
    ensures a.IsDisjointFrom(b) <==> a.packed * b.packed == {}
  {
    if a.IsDisjointFrom(b) {
      assert forall p :: p in a.packed * b.packed ==> p in a.packed && p !in b.packed;
    }
    if a.packed * b.packed == {} {
      forall p | p in a.packed
        ensures p !in b.packed
      {
        assert p !in a.packed * b.packed;
      }
    }
  }

  /** Iteration returns the keys a set was built from exactly when `unpacker`
      undoes `packer` on them. */
  lemma KeysRoundTrip<K(!new), P(!new)>(s: PackedSet<K, P>, items: seq<K>)
    requires s.packed == NativeMaps.Image(items, s.packer)
    requires forall i :: 0 <= i < |items| ==> s.unpacker(s.packer(items[i])) == items[i]
    ensures s.Keys() == NativeMaps.FromItems(items)
  {
    forall k | k in s.Keys()
      ensures k in NativeMaps.FromItems(items)
    {
      var p :| p in s.packed && s.unpacker(p) == k;
      var i :| 0 <= i < |items| && s.packer(items[i]) == p;
      assert items[i] == k;
    }
    forall k | k in NativeMaps.FromItems(items)
      ensures k in s.Keys()
    {
      var i :| 0 <= i < |items| && items[i] == k;
      assert s.packer(items[i]) in s.packed;
    }
  }

  /** Two different keys that pack to one value cannot both come back out:
      the keys of such a set are not the keys it was built from. A packer
      that is not injective, such as a hash, loses keys. */
  lemma CollidingKeysLost<K(!new), P(!new)>(s: PackedSet<K, P>, a: K, b: K)
    requires a != b && s.packer(a) == s.packer(b)
    requires s.packed == NativeMaps.Image([a, b], s.packer)
    ensures s.Keys() != NativeMaps.FromItems([a, b])
  {
    var items := [a, b];
    assert items[0] == a && items[1] == b;
    forall u | u in s.packed
      ensures u == s.packer(a)
    {
      var i :| 0 <= i < 2 && s.packer(items[i]) == u;
    }
    assert s.packed == {s.packer(a)};
    forall x | x in NativeMaps.FromItems(items)
      ensures x == a || x == b
    {
      assert x in items;
    }
    assert NativeMaps.FromItems(items) == {a, b};
  }

  /** lib/packed-set.0.ts:18-21,61-63: adding two keys that pack to the same
      value leaves a single member, which answers for both. */
  method AddColliding<K(!new, ==), P(!new, ==)>(packer: K -> P, unpacker: P -> K, a: K, b: K) returns (size: nat, hasA: bool, hasB: bool)
    requires packer(a) == packer(b)
    ensures size == 1 && hasA && hasB
  {
    var s := new PackedSet<K, P>(packer, unpacker, None, None);
    s.Add(a);
    s.Add(b);
    size := s.Size();
    hasA := s.Has(a);
    hasB := s.Has(b);
  }
}
