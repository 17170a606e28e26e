/** The binary64 and binary32 interchange encodings of IEEE 754-2019 (section
    3.4), seen through their bit patterns, and the little-endian 16-bit lanes
    through which the point codecs read and write one shared scratch buffer.
    A JavaScript `number` is modelled by its binary64 pattern and a
    `Float32Array` element by its binary32 pattern; converting a value to its
    pattern and back is an exact bijection except for NaN payloads. */
module Floats {

  /** Bits 52-62 of a binary64 pattern: the biased exponent field. */
  function Exponent64(b: bv64): bv64
  {
    (b >> 52) & 0x7ff
  }

  /** A binary64 pattern whose exponent field is all ones: an infinity or a
      NaN. Every other pattern is a finite number. */
  predicate NotFinite64(b: bv64)
  {
    Exponent64(b) == 0x7ff
  }

  /** Bits 23-30 of a binary32 pattern: the biased exponent field. */
  function Exponent32(b: bv32): bv32
  {
    (b >> 23) & 0xff
  }

  /** A binary32 pattern encoding a finite number. */
  predicate Finite32(b: bv32)
  {
    Exponent32(b) != 0xff
  }

  /** The four little-endian 16-bit lanes of a binary64 pattern, lane 0 the
      least significant: the `Uint16Array` view of one `Float64Array` element. */
  datatype Lanes = Lanes(l0: bv16, l1: bv16, l2: bv16, l3: bv16)

  function ToLanes(b: bv64): (r: Lanes)
  {
    Lanes((b & 0xffff) as bv16, ((b >> 16) & 0xffff) as bv16,
          ((b >> 32) & 0xffff) as bv16, ((b >> 48) & 0xffff) as bv16)
  }

  function FromLanes(r: Lanes): (b: bv64)
  {
    (r.l0 as bv64) | ((r.l1 as bv64) << 16) | ((r.l2 as bv64) << 32) | ((r.l3 as bv64) << 48)
  }

  /** Reading a pattern through its lanes and writing them back is lossless,
      in both directions. */
  lemma LanesRoundTrip(b: bv64, r: Lanes)
    ensures FromLanes(ToLanes(b)) == b
    ensures ToLanes(FromLanes(r)) == r
  {
  }

  /** The two little-endian 16-bit lanes of a binary32 pattern. */
  function Low16(b: bv32): bv16
  {
    (b & 0xffff) as bv16
  }

  function High16(b: bv32): bv16
  {
    (b >> 16) as bv16
  }

  function Join16(low: bv16, high: bv16): (b: bv32)
    ensures Low16(b) == low && High16(b) == high
  {
    (low as bv32) | ((high as bv32) << 16)
  }

  /** The two little-endian 32-bit halves of a binary64 pattern: the
      `Float32Array` or `Uint32Array` view of one `Float64Array` element. */
  function Low32(b: bv64): bv32
  {
    (b & 0xffff_ffff) as bv32
  }

  function High32(b: bv64): bv32
  {
    (b >> 32) as bv32
  }

  function Join32(low: bv32, high: bv32): (b: bv64)
    ensures Low32(b) == low && High32(b) == high
  {
    (low as bv64) | ((high as bv64) << 32)
  }

  /** A binary64 pattern held as an unsigned integer below 2^64, as the
      integer-valued codecs build it from 16-bit lanes. */
  predicate IsWord(w: int)
  {
    0 <= w < 0x1_0000_0000_0000_0000
  }

  /** The biased exponent field of such a pattern. */
  function WordExponent(w: int): int
  {
    (w / 0x10_0000_0000_0000) % 0x800
  }

  /** The same test as `NotFinite64`, on a pattern held as an integer. */
  predicate NotFiniteWord(w: int)
  {
    WordExponent(w) == 0x7ff
  }

  /** The encodings of the two zeros. `===`, `Set` and `Map` identify them
      (SameValueZero), and a `Set` or `Map` key of `-0` is stored as `+0`. */
  const PositiveZero: int := 0
  const NegativeZero: int := 0x8000_0000_0000_0000

  /** The pattern a native `Set` or `Map` stores for a key. */
  function MapKey(w: int): (k: int)
    ensures k == w || (w == NegativeZero && k == PositiveZero)
    ensures w == NegativeZero ==> k == PositiveZero
  {
    if w == NegativeZero then PositiveZero else w
  }
}
