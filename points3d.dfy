/** `Point3D` (lib/point3d.0.ts). As for `Point2D`, the codecs read and write
    one scratch buffer through typed views and are modelled on bit patterns:
    `pack`, `pack32`, `packFloat21` and `hash` on bit-vectors, and
    `packInt21`, whose inputs are integers stored through a `Uint32Array`, on
    integer lanes in `[0, 2^16)`. The offset generators work on integer
    coordinates. */
module Points3D {
  import opened Wrappers
  import opened Floats
  import Ranges
  import Utils

  /** A point with integer coordinates. */
  datatype Point = Point(x: int, y: int, z: int)

  /** A point's three coordinates as binary64 patterns. */
  datatype Pattern = Pattern(x: bv64, y: bv64, z: bv64)

  /** A point's three coordinates as binary32 patterns. */
  datatype Pattern32 = Pattern32(x: bv32, y: bv32, z: bv32)

  /** lib/point3d.0.ts:95-97 (`isEqual`). */
  function IsEqual(a: Point, b: Point): (r: bool)
    ensures r <==> a == b
  {
    a.x == b.x && a.y == b.y && a.z == b.z
  }

  // ------------------------------------------------------- pack and pack32

  const Mask64: bv192 := 0xffff_ffff_ffff_ffff

  /** lib/point3d.0.ts:212-218: the 192-bit concatenation x‖y‖z. */
  function Pack(p: Pattern): (v: bv192)
    ensures (v >> 128) as bv64 == p.x
    ensures ((v >> 64) & Mask64) as bv64 == p.y
    ensures (v & Mask64) as bv64 == p.z
  {
    ((p.x as bv192) << 128) | ((p.y as bv192) << 64) | (p.z as bv192)
  }

  /** lib/point3d.0.ts:219-225: each 64-bit segment stored into a
      `BigUint64Array` element, so reduced modulo 2^64. */
  function Unpack(v: bv192): (p: Pattern)
    ensures Pack(p) == v
  {
    Pattern((v >> 128) as bv64, ((v >> 64) & Mask64) as bv64, (v & Mask64) as bv64)
  }

  /** `unpack` undoes `pack`. */
  lemma PackRoundTrip(p: Pattern)
    ensures Unpack(Pack(p)) == p
  {
  }

  /** On 192-bit values `pack` undoes `unpack`. */
  lemma UnpackRoundTrip(v: bv192)
    ensures Pack(Unpack(v)) == v
  {
  }

  /** lib/point3d.0.ts:230-235: the three binary32 patterns fill the low
      96 bits of the buffer as x, y, z; the first 64-bit element (y above x)
      is shifted up by 32 and z joins below it, giving y·2^64 + x·2^32 + z. */
  function Pack32(p: Pattern32): (v: bv96)
    ensures (v & 0xffff_ffff) as bv32 == p.z
    ensures ((v >> 32) & 0xffff_ffff) as bv32 == p.x
    ensures (v >> 64) as bv32 == p.y
  {
    ((Join32(p.x, p.y) as bv96) << 32) | (p.z as bv96)
  }

  /** lib/point3d.0.ts:236-241: `value >> 32` fills the first element, whose
      halves are x and y, and the low 32 bits fill z. */
  function Unpack32(v: bv96): (p: Pattern32)
    ensures Pack32(p) == v
  {
    var first := (v >> 32) as bv64;
    var second := (v & 0xffff_ffff) as bv64;
    Pattern32(Low32(first), High32(first), Low32(second))
  }

  /** `unpack32` undoes `pack32`, and on 96-bit values the other way round. */
  lemma Pack32RoundTrip(p: Pattern32, v: bv96)
    ensures Unpack32(Pack32(p)) == p
    ensures Pack32(Unpack32(v)) == v
  {
  }

  // ------------------------------------------------------------ packInt21

  /** lib/point3d.0.ts:42: `(1 << 20) - 1`. */
  const Bias: int := 0xf_ffff

  /** 2^16: one lane of the `Uint16Array` view. */
  const Lane: int := 0x1_0000

  /** 2^21: the range of one packed field. */
  const Field: int := 0x20_0000

  /** Storing an integer into a `Uint32Array` keeps it modulo 2^32. */
  function StoreU32(n: int): (u: int)
    ensures 0 <= u < 0x1_0000_0000
  {
    n % 0x1_0000_0000
  }

  /** The 64-bit pattern whose little-endian 16-bit lanes are `l0`…`l3`. */
  function Word(l0: int, l1: int, l2: int, l3: int): int
  {
    l0 + (l1 + (l2 + l3 * Lane) * Lane) * Lane
  }

  /** Lane `k` of a 64-bit pattern held as an integer. */
  function LaneOf(w: int, k: nat): (l: int)
    requires k < 4
    ensures 0 <= l < Lane
  {
    if k == 0 then w % Lane
    else if k == 1 then (w / Lane) % Lane
    else if k == 2 then (w / Lane / Lane) % Lane
    else (w / Lane / Lane / Lane) % Lane
  }

  /** The output lanes 8-11 of lib/point3d.0.ts:252-260, from the three
      stored `u32` values `ux`, `uy`, `uz` (`ux % 2^16` is lane 0, `ux / 2^16`
      lane 1, and so on). A `<<` stored into a 16-bit lane keeps its result
      modulo 2^16; each `|` joins fields that occupy disjoint bits, so it is a
      sum. */
  function Int21Lanes(ux: int, uy: int, uz: int): (l: Lanes21)
  {
    var x0, x1 := ux % Lane, ux / Lane;
    var y0, y1 := uy % Lane, uy / Lane;
    var z0, z1 := uz % Lane, uz / Lane;
    Lanes21(x0, Lane9(x1, y0), Lane10(y0, y1, z0), Lane11(z0, z1))
  }

  /** Four 16-bit lanes held as integers. */
  datatype Lanes21 = Lanes21(l8: int, l9: int, l10: int, l11: int)

  /** Lane 9: bits 16-20 of x, then bits 0-10 of y. */
  function Lane9(x1: int, y0: int): int
  {
    x1 % 0x20 + (y0 * 0x20) % Lane
  }

  /** Lane 10: bits 11-15 and 16-20 of y, then bits 0-5 of z. */
  function Lane10(y0: int, y1: int, z0: int): int
  {
    y0 / 0x800 + (y1 % 0x20) * 0x20 + (z0 * 0x400) % Lane
  }

  /** Lane 11: bits 6-15 and 16-19 of z, bit 14 clear, bit 20 of z on top. */
  function Lane11(z0: int, z1: int): int
  {
    z0 / 0x40 + (z1 % 0x10) * 0x400 + ((z1 / 0x10) % 2) * 0x8000
  }

  /** lib/point3d.0.ts:247-263: each coordinate plus the bias stored as a
      `u32`, and its low 21 bits spread over bits 0-61 and 63. Bit 62, the top
      bit of the exponent field, stays clear, so the result is a finite
      number and passes through a `number` unchanged. */
  function PackInt21(p: Point): (w: int)
    ensures IsWord(w) && !NotFiniteWord(w)
  {
    PackStored(StoreU32(p.x + Bias), StoreU32(p.y + Bias), StoreU32(p.z + Bias))
  }

  /** The pattern built from the three stored values. */
  function PackStored(ux: int, uy: int, uz: int): (w: int)
    requires 0 <= ux && 0 <= uy && 0 <= uz
    ensures IsWord(w) && !NotFiniteWord(w)
  {
    var l := Int21Lanes(ux, uy, uz);
    Lane9Facts(ux / Lane, uy % Lane);
    Lane10Facts(uy % Lane, uy / Lane, uz % Lane);
    Lane11Facts(uz % Lane, uz / Lane);
    WordFacts(l.l8, l.l9, l.l10, l.l11);
    Word(l.l8, l.l9, l.l10, l.l11)
  }

  /** lib/point3d.0.ts:264-284: the lanes of the pattern read back into the
      three `u32` values, each less the bias. Every coordinate comes back in
      the 21-bit range that packing keeps. */
  function UnpackInt21(w: int): (p: Point)
    ensures -Bias <= p.x < Field - Bias && -Bias <= p.y < Field - Bias && -Bias <= p.z < Field - Bias
  {
    var l8, l9, l10, l11 := LaneOf(w, 0), LaneOf(w, 1), LaneOf(w, 2), LaneOf(w, 3);
    Point(FieldX(l8, l9) - Bias, FieldY(l9, l10) - Bias, FieldZ(l10, l11) - Bias)
  }

  /** lib/point3d.0.ts:269-270: x's two lanes. */
  function FieldX(l8: int, l9: int): int
  {
    l8 + (l9 % 0x20) * Lane
  }

  /** lib/point3d.0.ts:273-274: y's two lanes; `(l9 >> 5) | (l10 << 11)`
      joins disjoint bits and is stored modulo 2^16. */
  function FieldY(l9: int, l10: int): int
  {
    (l9 / 0x20 + l10 * 0x800) % Lane + ((l10 / 0x20) % 0x20) * Lane
  }

  /** lib/point3d.0.ts:277-278: z's two lanes; `(l11 >> 11) & 0x10` is bit 15
      of lane 11 moved to bit 4. */
  function FieldZ(l10: int, l11: int): int
  {
    (l10 / 0x400 + l11 * 0x40) % Lane + ((l11 / 0x400) % 0x10 + ((l11 / 0x8000) % 2) * 0x10) * Lane
  }

  /** What survives packing for one coordinate: the low 21 bits of the
      biased value, less the bias. */
  function Wrap21(c: int): (r: int)
    ensures -Bias <= r < Field - Bias
    ensures -Bias <= c < Field - Bias ==> r == c
  {
    (c + Bias) % Field - Bias
  }

  /** Integers from `-Bias` to `2^21 - 1 - Bias` pack losslessly. */
  predicate InInt21Range(p: Point)
  {
    -Bias <= p.x < Field - Bias && -Bias <= p.y < Field - Bias && -Bias <= p.z < Field - Bias
  }

  lemma SplitLane(a: int, b: int)
    requires 0 <= a < Lane
    ensures (a + b * Lane) % Lane == a && (a + b * Lane) / Lane == b
  {
  }

  /** A word built from four lanes is a 64-bit pattern with those lanes and,
      when bit 14 of the top lane is clear, an exponent field below all ones. */
  lemma WordFacts(l0: int, l1: int, l2: int, l3: int)
    requires 0 <= l0 < Lane && 0 <= l1 < Lane && 0 <= l2 < Lane && 0 <= l3 < Lane
    ensures IsWord(Word(l0, l1, l2, l3))
    ensures LaneOf(Word(l0, l1, l2, l3), 0) == l0 && LaneOf(Word(l0, l1, l2, l3), 1) == l1
    ensures LaneOf(Word(l0, l1, l2, l3), 2) == l2 && LaneOf(Word(l0, l1, l2, l3), 3) == l3
    ensures l3 % 0x8000 < 0x4000 ==> !NotFiniteWord(Word(l0, l1, l2, l3))
  {
    var w := Word(l0, l1, l2, l3);
    SplitLane(l0, l1 + (l2 + l3 * Lane) * Lane);
    SplitLane(l1, l2 + l3 * Lane);
    SplitLane(l2, l3);
    SplitLane(l3, 0);
    assert w / 0x10_0000_0000_0000 == l3 / 0x10;
  }

  lemma Lane9Facts(x1: int, y0: int)
    requires 0 <= x1 && 0 <= y0 < Lane
    ensures var l := Lane9(x1, y0);
      0 <= l < Lane && l % 0x20 == x1 % 0x20 && l / 0x20 == y0 % 0x800
  {
    assert (y0 * 0x20) % Lane == (y0 % 0x800) * 0x20;
  }

  lemma Lane10Facts(y0: int, y1: int, z0: int)
    requires 0 <= y0 < Lane && 0 <= y1 && 0 <= z0 < Lane
    ensures var l := Lane10(y0, y1, z0);
      0 <= l < Lane && l % 0x20 == y0 / 0x800 && (l / 0x20) % 0x20 == y1 % 0x20 && l / 0x400 == z0 % 0x40
  {
    assert (z0 * 0x400) % Lane == (z0 % 0x40) * 0x400;
  }

  lemma Lane11Facts(z0: int, z1: int)
    requires 0 <= z0 < Lane && 0 <= z1
    ensures var l := Lane11(z0, z1);
      0 <= l < Lane && l % 0x400 == z0 / 0x40 && (l / 0x400) % 0x10 == z1 % 0x10 &&
      (l / 0x8000) % 2 == (z1 / 0x10) % 2 && l % 0x8000 < 0x4000
  {
  }

  /** A store modulo 2^32 keeps the low 21 bits. */
  lemma StoreKeepsField(n: int)
    ensures StoreU32(n) % Field == n % Field
  {
    var q, r, s := n / Field, n % Field, n / 0x1_0000_0000;
    assert StoreU32(n) == (q - 0x800 * s) * Field + r;
    Utils.UniqueDivision(StoreU32(n), Field, q - 0x800 * s, r);
  }

  lemma ReadsX(ux: int, uy: int)
    requires 0 <= ux && 0 <= uy
    ensures FieldX(ux % Lane, Lane9(ux / Lane, uy % Lane)) == ux % Field
  {
    var x0, x1 := ux % Lane, ux / Lane;
    var xa, xh := x1 % 0x20, x1 / 0x20;
    Lane9Facts(x1, uy % Lane);
    assert FieldX(x0, Lane9(x1, uy % Lane)) == x0 + xa * Lane;
    Utils.UniqueDivision(ux, Field, xh, x0 + xa * Lane);
  }

  lemma ReadsY(ux: int, uy: int, uz: int)
    requires 0 <= ux && 0 <= uy && 0 <= uz
    ensures FieldY(Lane9(ux / Lane, uy % Lane), Lane10(uy % Lane, uy / Lane, uz % Lane)) == uy % Field
  {
    var y0, y1, z0 := uy % Lane, uy / Lane, uz % Lane;
    var ya, yb := y0 % 0x800, y0 / 0x800;
    var yc, yh := y1 % 0x20, y1 / 0x20;
    var za := z0 % 0x40;
    var xa := (ux / Lane) % 0x20;
    Utils.UniqueDivision(y0 * 0x20, Lane, yb, ya * 0x20);
    Utils.UniqueDivision(z0 * 0x400, Lane, z0 / 0x40, za * 0x400);
    var l9, l10 := Lane9(ux / Lane, y0), Lane10(y0, y1, z0);
    assert l9 == xa + ya * 0x20;
    assert l10 == yb + yc * 0x20 + za * 0x400;
    Utils.UniqueDivision(l9, 0x20, ya, xa);
    Utils.UniqueDivision(l9 / 0x20 + l10 * 0x800, Lane, yc + za * 0x20, ya + yb * 0x800);
    Utils.UniqueDivision(l10, 0x20, yc + za * 0x20, yb);
    Utils.UniqueDivision(yc + za * 0x20, 0x20, za, yc);
    assert FieldY(l9, l10) == ya + yb * 0x800 + yc * Lane;
    Utils.UniqueDivision(uy, Field, yh, ya + yb * 0x800 + yc * Lane);
  }

  lemma ReadsZ(uy: int, uz: int)
    requires 0 <= uy && 0 <= uz
    ensures FieldZ(Lane10(uy % Lane, uy / Lane, uz % Lane), Lane11(uz % Lane, uz / Lane)) == uz % Field
  {
    var y0, y1, z0, z1 := uy % Lane, uy / Lane, uz % Lane, uz / Lane;
    var za, zb := z0 % 0x40, z0 / 0x40;
    var zc, z2 := z1 % 0x10, z1 / 0x10;
    var zd, zh := z2 % 2, z2 / 2;
    var low := y0 / 0x800 + (y1 % 0x20) * 0x20;
    Utils.UniqueDivision(z0 * 0x400, Lane, zb, za * 0x400);
    var l10, l11 := Lane10(y0, y1, z0), Lane11(z0, z1);
    assert l10 == low + za * 0x400;
    assert l11 == zb + zc * 0x400 + zd * 0x8000;
    Utils.UniqueDivision(l10, 0x400, za, low);
    Utils.UniqueDivision(l10 / 0x400 + l11 * 0x40, Lane, zc + zd * 0x20, za + zb * 0x40);
    Utils.UniqueDivision(l11, 0x400, zc + zd * 0x20, zb);
    Utils.UniqueDivision(zc + zd * 0x20, 0x10, zd * 2, zc);
    Utils.UniqueDivision(l11, 0x8000, zd, zb + zc * 0x400);
    assert FieldZ(l10, l11) == za + zb * 0x40 + (zc + zd * 0x10) * Lane;
    Utils.UniqueDivision(uz, Field, zh, za + zb * 0x40 + (zc + zd * 0x10) * Lane);
  }

  /** lib/point3d.0.ts:247-284: unpacking returns each coordinate's low 21
      biased bits, less the bias; so integers within the 21-bit range come
      back unchanged. */
  lemma Int21RoundTrip(p: Point)
    ensures UnpackInt21(PackInt21(p)) == Point(Wrap21(p.x), Wrap21(p.y), Wrap21(p.z))
    ensures InInt21Range(p) ==> UnpackInt21(PackInt21(p)) == p
  {
    StoredRoundTrip(StoreU32(p.x + Bias), StoreU32(p.y + Bias), StoreU32(p.z + Bias));
    StoreKeepsField(p.x + Bias);
    StoreKeepsField(p.y + Bias);
    StoreKeepsField(p.z + Bias);
  }

  /** Unpacking the word built from three stored values reads back the low
      21 bits of each, less the bias. */
  lemma StoredRoundTrip(ux: int, uy: int, uz: int)
    requires 0 <= ux && 0 <= uy && 0 <= uz
    ensures UnpackInt21(PackStored(ux, uy, uz)) == Point(ux % Field - Bias, uy % Field - Bias, uz % Field - Bias)
  {
    var l := Int21Lanes(ux, uy, uz);
    Lane9Facts(ux / Lane, uy % Lane);
    Lane10Facts(uy % Lane, uy / Lane, uz % Lane);
    Lane11Facts(uz % Lane, uz / Lane);
    WordFacts(l.l8, l.l9, l.l10, l.l11);
    ReadsX(ux, uy);
    ReadsY(ux, uy, uz);
    ReadsZ(uy, uz);
  }


  /** lib/point3d.0.ts:254-262: bit 63 carries bit 20 of z's biased value,
      so `(-Bias, -Bias, 1)` packs to the pattern of `-0` and
      `(-Bias, -Bias, -Bias)` to that of `+0`. Both round-trip, yet a native
      `Set` or `Map` stores both under the key `+0`. */
  lemma SignedZeroCollision()
    ensures PackInt21(Point(-Bias, -Bias, 1)) == NegativeZero
    ensures PackInt21(Point(-Bias, -Bias, -Bias)) == PositiveZero
    ensures InInt21Range(Point(-Bias, -Bias, 1)) && InInt21Range(Point(-Bias, -Bias, -Bias))
    ensures MapKey(PackInt21(Point(-Bias, -Bias, 1))) == MapKey(PackInt21(Point(-Bias, -Bias, -Bias)))
  {
    assert StoreU32(1 + Bias) == 0x10_0000;
    assert Int21Lanes(0, 0, 0x10_0000) == Lanes21(0, 0, 0, 0x8000);
    assert Int21Lanes(0, 0, 0) == Lanes21(0, 0, 0, 0);
  }

  // ---------------------------------------------------------- packFloat21

  /** `x ? ((x - 96) & 0x3f) : x`: a binary32 exponent rebiased to six bits,
      zero kept as zero. */
  function Rebias(e: bv16): bv16
  {
    if e != 0 then (e - 96) & 0x3f else e
  }

  /** `x ? x + 96 : x`: a six-bit exponent back to the binary32 bias. */
  function Unbias(e: bv16): bv16
  {
    if e != 0 then e + 96 else e
  }

  /** lib/point3d.0.ts:290-331: the four output lanes. From each binary32
      pattern the sign, the rebiased exponent and significand bits 9-22 go
      in; significand bits 0-8 are dropped. */
  function Float21Lanes(p: Pattern32): (l: Lanes)
    ensures l.l3 & 0x4000 == 0
  {
    var u0, u1, u2, u3, u4, u5 := Low16(p.x), High16(p.x), Low16(p.y), High16(p.y), Low16(p.z), High16(p.z);
    var xe, ye, ze := Rebias((u1 & 0x7f80) >> 7), Rebias((u3 & 0x7f80) >> 7), Rebias((u5 & 0x7f80) >> 7);
    Lanes(
      (u0 >> 9) | ((u1 & 0x7f) << 7) | (xe << 14),
      (xe >> 2) | ((u1 & 0x8000) >> 11) | ((u2 & 0xfe00) >> 4) | (u3 << 12),
      ((u3 & 0x70) >> 4) | (ye << 3) | ((u3 & 0x8000) >> 6) | ((u4 & 0x7e00) << 1),
      (u4 >> 15) | ((u5 & 0x7f) << 1) | (ze << 8) | (u5 & 0x8000))
  }

  /** lib/point3d.0.ts:290-334. Bit 14 of the top lane (bit 62 of the result)
      is never set, so the result is a finite number. */
  function PackFloat21(p: Pattern32): (b: bv64)
    ensures !NotFinite64(b)
  {
    FromLanes(Float21Lanes(p))
  }

  /** lib/point3d.0.ts:341-358 and 362: x, y and the upper half of z read
      back from the lanes, the exponents rebiased. */
  function UnpackLanes(l: Lanes): (u: (bv16, bv16, bv16, bv16, bv16))
  {
    var xe := Unbias((l.l0 >> 14) | ((l.l1 & 0xf) << 2));
    var ye := Unbias((l.l2 & 0x1f8) >> 3);
    var ze := Unbias((l.l3 & 0x3f00) >> 8);
    (l.l0 << 9,
     ((l.l0 & 0x3f80) >> 7) | (xe << 7) | ((l.l1 & 0x10) << 11),
     (l.l1 & 0xfe0) << 4,
     (l.l1 >> 12) | ((l.l2 & 0x7) << 4) | (ye << 7) | ((l.l2 & 0x200) << 6),
     ((l.l3 & 0xfe) >> 1) | (ze << 7) | (l.l3 & 0x8000))
  }

  /** lib/point3d.0.ts:360 as written: lane 10's bits 10-15 (z's significand
      bits 9-14) are moved down by two, to bits 8-13. */
  function ZLowAsWritten(l: Lanes): bv16
  {
    ((l.l2 & 0xfc00) >> 2) | (l.l3 << 15)
  }

  /** lib/point3d.0.ts:360 shifting by one, the inverse of the `<< 1` that
      packed those bits (lib/point3d.0.ts:328). */
  function ZLow(l: Lanes): bv16
  {
    ((l.l2 & 0xfc00) >> 1) | (l.l3 << 15)
  }

  function Assemble(u: (bv16, bv16, bv16, bv16, bv16), zLow: bv16): Pattern32
  {
    Pattern32(Join16(u.0, u.1), Join16(u.2, u.3), Join16(zLow, u.4))
  }

  /** lib/point3d.0.ts:335-366 as written. Only z's low 8 significand bits
      are sure to be clear: bit 8 can come back set. */
  function UnpackFloat21AsWritten(b: bv64): (p: Pattern32)
    ensures p.x & 0x1ff == 0 && p.y & 0x1ff == 0 && p.z & 0xff == 0
  {
    var l := ToLanes(b);
    Assemble(UnpackLanes(l), ZLowAsWritten(l))
  }

  /** lib/point3d.0.ts:335-366 with line 360 corrected. The 9 low
      significand bits that packing drops come back clear in all three
      coordinates. */
  function UnpackFloat21(b: bv64): (p: Pattern32)
    ensures p.x & 0x1ff == 0 && p.y & 0x1ff == 0 && p.z & 0x1ff == 0
  {
    var l := ToLanes(b);
    Assemble(UnpackLanes(l), ZLow(l))
  }

  /** A binary32 pattern that `packFloat21` keeps whole: significand bits 0-8
      clear and an exponent field of 0 or from 97 to 159. */
  predicate Float21Exact(f: bv32)
  {
    f & 0x1ff == 0 && (Exponent32(f) == 0 || (97 <= Exponent32(f) && Exponent32(f) <= 159))
  }

  /** With the corrected line 360, every coordinate `packFloat21` keeps whole
      comes back unchanged. */
  lemma Float21RoundTrip(p: Pattern32)
    requires Float21Exact(p.x) && Float21Exact(p.y) && Float21Exact(p.z)
    ensures UnpackFloat21(PackFloat21(p)) == p
  {
    LanesRoundTrip(0, Float21Lanes(p));
    Float21LanesRoundTrip(p);
  }

  lemma Float21LanesRoundTrip(p: Pattern32)
    requires Float21Exact(p.x) && Float21Exact(p.y) && Float21Exact(p.z)
    ensures Assemble(UnpackLanes(Float21Lanes(p)), ZLow(Float21Lanes(p))) == p
  {
  }

  /** As written, x and y come back unchanged, and z does exactly when its
      significand bits 9-14 are clear. */
  lemma Float21AsWrittenRoundTrip(p: Pattern32)
    requires Float21Exact(p.x) && Float21Exact(p.y) && Float21Exact(p.z)
    ensures UnpackFloat21AsWritten(PackFloat21(p)).x == p.x
    ensures UnpackFloat21AsWritten(PackFloat21(p)).y == p.y
    ensures UnpackFloat21AsWritten(PackFloat21(p)).z == p.z <==> p.z & 0x7e00 == 0
  {
    var l := Float21Lanes(p);
    LanesRoundTrip(0, l);
    Float21LanesRoundTrip(p);
    Float21ZAsWritten(p);
  }

  lemma Float21ZAsWritten(p: Pattern32)
    requires Float21Exact(p.z)
    ensures Join16(ZLowAsWritten(Float21Lanes(p)), UnpackLanes(Float21Lanes(p)).4) == p.z <==> p.z & 0x7e00 == 0
  {
  }

  /** `z = 1.0 + 2^-14` (pattern 0x3f80_0200) is kept whole by packing, but
      unpacks as written to 0x3f80_0100 (`1.0 + 2^-15`). */
  lemma Float21LosesZ()
    ensures Float21Exact(0x3f80_0200)
    ensures UnpackFloat21AsWritten(PackFloat21(Pattern32(0, 0, 0x3f80_0200))).z == 0x3f80_0100
    ensures UnpackFloat21(PackFloat21(Pattern32(0, 0, 0x3f80_0200))).z == 0x3f80_0200
  {
  }

  // ----------------------------------------------------------------- hash

  /** lib/point3d.0.ts:370-390: mixes the lanes of `a`, `b` and `c` (the
      patterns of `x * LOG2E`, `y * PI` and `z * LN2`) into four output lanes
      with 16-bit XORs and products, then moves bit 14 of the top lane into
      lane 2. Bit 62 ends clear: the hash is never NaN or an infinity. */
  function Hash(a: bv64, b: bv64, c: bv64): (h: bv64)
    ensures h & 0x4000_0000_0000_0000 == 0
    ensures !NotFinite64(h)
  {
    var u := ToLanes(a);
    var v := ToLanes(b);
    var w := ToLanes(c);
    var l12 := u.l0 ^ v.l1 ^ w.l2 ^ (u.l1 * 3) ^ (v.l2 * 5) ^ (w.l3 * 7);
    var l13 := u.l1 ^ v.l2 ^ w.l3 ^ (u.l2 * 9) ^ (v.l3 * 11) ^ (w.l0 * 13);
    var l14 := u.l2 ^ v.l3 ^ w.l0 ^ (u.l3 * 15) ^ (v.l0 * 17) ^ (w.l1 * 19);
    var l15 := u.l3 ^ v.l0 ^ w.l1 ^ (u.l0 * 21) ^ (v.l1 * 23) ^ (w.l2 * 25);
    FromLanes(Lanes(l12, l13, l14 ^ (l15 & 0x4000), l15 & 0xbfff))
  }

  // --------------------------------------------------------------- offsets

  /** lib/point3d.0.ts:22-29. */
  datatype Offset3D = Cardinal | Diagonal | Cube | Sphere | SpherePlus | Diamond

  /** The second parameter of `offsets`: a shape, or a function that accepts
      or rejects each candidate offset. */
  datatype Constrainer = Shape(shape: Offset3D) | Accepts(accept: Point -> bool)

  /** The offsets of ring `i`: six along the axes, or the eight corners
      (lib/point3d.0.ts:124-139). */
  function Ring(shape: Offset3D, i: int): (r: seq<Point>)
    requires shape == Cardinal || shape == Diagonal
    ensures |r| == (if shape == Cardinal then 6 else 8)
  {
    if shape == Cardinal then
      [Point(0, 0, -i), Point(0, -i, 0), Point(i, 0, 0), Point(0, i, 0), Point(-i, 0, 0), Point(0, 0, i)]
    else
      [Point(i, -i, -i), Point(i, i, -i), Point(-i, i, -i), Point(-i, -i, -i),
       Point(i, -i, i), Point(i, i, i), Point(-i, i, i), Point(-i, -i, i)]
  }

  /** Rings `1` to `n`, innermost first. */
  function Rings(shape: Offset3D, n: int): seq<Point>
    requires shape == Cardinal || shape == Diagonal
  {
    Ranges.Concat(1, n + 1, i => Ring(shape, i))
  }

  /** lib/point3d.0.ts:157-162: the test an octant offset with
      `x, y, z >= 0` must pass; as in two dimensions, `< (radius + 0.5) ** 2`
      is `<= radius² + radius` for integers. */
  predicate InShape(shape: Offset3D, radius: int, x: int, y: int, z: int)
  {
    (x != 0 || y != 0 || z != 0) &&
    (shape == Cube ||
     (shape == Sphere && x * x + y * y + z * z <= radius * radius) ||
     (shape == SpherePlus && x * x + y * y + z * z <= radius * radius + radius) ||
     (shape == Diamond && x + y + z <= radius))
  }

  /** The eight mirror images pushed for one accepted octant offset, in the
      order of lib/point3d.0.ts:164-173. */
  function Mirrored(x: int, y: int, z: int): seq<Point>
  {
    [Point(x, y, z), Point(x, y, -z), Point(x, -y, z), Point(x, -y, -z),
     Point(-x, y, z), Point(-x, y, -z), Point(-x, -y, z), Point(-x, -y, -z)]
  }

  /** What the innermost loop pushes for the octant offset `(x, y, z)`. */
  function ShapeCell(shape: Offset3D, radius: int, x: int, y: int, z: int): seq<Point>
  {
    if InShape(shape, radius, x, y, z) then Mirrored(x, y, z) else []
  }

  function ShapeCells(shape: Offset3D, radius: int, x: int, y: int): int -> seq<Point>
  {
    z => ShapeCell(shape, radius, x, y, z)
  }

  function ShapeColumns(shape: Offset3D, radius: int, x: int): int -> seq<Point>
  {
    y => Ranges.Concat(0, radius + 1, ShapeCells(shape, radius, x, y))
  }

  function ShapeSlices(shape: Offset3D, radius: int): int -> seq<Point>
  {
    x => Ranges.Concat(0, radius + 1, ShapeColumns(shape, radius, x))
  }

  /** What the outer loop has pushed once `x` reaches `n`. */
  function ShapeOffsets(shape: Offset3D, radius: int, n: int): seq<Point>
  {
    Ranges.Concat(0, n, ShapeSlices(shape, radius))
  }

  function AcceptCell(accept: Point -> bool, x: int, y: int, z: int): seq<Point>
  {
    if accept(Point(x, y, z)) then [Point(x, y, z)] else []
  }

  function AcceptCells(accept: Point -> bool, x: int, y: int): int -> seq<Point>
  {
    z => AcceptCell(accept, x, y, z)
  }

  function AcceptColumns(accept: Point -> bool, radius: int, x: int): int -> seq<Point>
  {
    y => Ranges.Concat(-radius, radius + 1, AcceptCells(accept, x, y))
  }

  function AcceptSlices(accept: Point -> bool, radius: int): int -> seq<Point>
  {
    x => Ranges.Concat(-radius, radius + 1, AcceptColumns(accept, radius, x))
  }

  /** What the outer loop has pushed once `x` reaches `n`. */
  function AcceptedOffsets(accept: Point -> bool, radius: int, n: int): seq<Point>
  {
    Ranges.Concat(-radius, n, AcceptSlices(accept, radius))
  }

  /** lib/point3d.0.ts:118-180, dispatching on the constrainer. */
  method Offsets(radius: int, constrainer: Constrainer) returns (r: Result<seq<Point>>)
    ensures constrainer == Shape(Cardinal) || constrainer == Shape(Diagonal) ==>
      r == (if radius < 0 then Failure(InvalidArgument) else Success(Rings(constrainer.shape, radius)))
    ensures constrainer.Shape? && constrainer.shape != Cardinal && constrainer.shape != Diagonal ==>
      r == Success(ShapeOffsets(constrainer.shape, radius, radius + 1))
    ensures constrainer.Accepts? ==> r == Success(AcceptedOffsets(constrainer.accept, radius, radius + 1))
  {
    if constrainer.Accepts? {
      var result := AcceptedOffsetsOf(radius, constrainer.accept);
      r := Success(result);
    } else if constrainer.shape == Cardinal || constrainer.shape == Diagonal {
      r := RingOffsets(radius, constrainer.shape);
    } else {
      var result := ShapeOffsetsOf(radius, constrainer.shape);
      r := Success(result);
    }
  }

  /** lib/point3d.0.ts:120-143: an array of `radius * 6` (`Cardinal`) or
      `radius * 8` (`Diagonal`) slots filled ring by ring; a negative length
      makes `new Array` throw. */
  method RingOffsets(radius: int, shape: Offset3D) returns (r: Result<seq<Point>>)
    requires shape == Cardinal || shape == Diagonal
    ensures r == (if radius < 0 then Failure(InvalidArgument) else Success(Rings(shape, radius)))
  {
    var width := if shape == Cardinal then 6 else 8;
    if radius * width < 0 {
      return Failure(InvalidArgument);
    }
    var result := new Point[radius * width];
    var index := 0;
    for i := 1 to radius + 1
      invariant shape == Cardinal ==> index == 6 * (i - 1)
      invariant shape == Diagonal ==> index == 8 * (i - 1)
      invariant result[..index] == Rings(shape, i - 1)
    {
      if shape == Cardinal {
        PutCardinal(result, index, i);
      } else {
        PutDiagonal(result, index, i);
      }
      assert result[..index + width] == result[..index] + result[index..index + width];
      index := index + width;
    }
    assert result[..] == result[..index];
    return Success(result[..]);
  }

  /** One pass of the `Cardinal` branch of lib/point3d.0.ts:124-130: ring
      `i` written from `index` on, the slots before it untouched. */
  method PutCardinal(result: array<Point>, index: nat, i: int)
    requires index + 6 <= result.Length
    modifies result
    ensures result[..index] == old(result[..index])
    ensures result[index..index + 6] == Ring(Cardinal, i)
  {
    result[index] := Point(0, 0, -i);
    result[index + 1] := Point(0, -i, 0);
    result[index + 2] := Point(i, 0, 0);
    result[index + 3] := Point(0, i, 0);
    result[index + 4] := Point(-i, 0, 0);
    result[index + 5] := Point(0, 0, i);
  }

  /** One pass of the `Diagonal` branch of lib/point3d.0.ts:131-139. */
  method PutDiagonal(result: array<Point>, index: nat, i: int)
    requires index + 8 <= result.Length
    modifies result
    ensures result[..index] == old(result[..index])
    ensures result[index..index + 8] == Ring(Diagonal, i)
  {
    result[index] := Point(i, -i, -i);
    result[index + 1] := Point(i, i, -i);
    result[index + 2] := Point(-i, i, -i);
    result[index + 3] := Point(-i, -i, -i);
    result[index + 4] := Point(i, -i, i);
    result[index + 5] := Point(i, i, i);
    result[index + 6] := Point(-i, i, i);
    result[index + 7] := Point(-i, -i, i);
  }


  /** lib/point3d.0.ts:145-151: each candidate of the cube of side
      `2 * radius + 1`, pushed when the function accepts it. */
  method AcceptedOffsetsOf(radius: int, accept: Point -> bool) returns (result: seq<Point>)
    ensures result == AcceptedOffsets(accept, radius, radius + 1)
  {
    result := [];
    if radius >= 0 {
      for x := -radius to radius + 1
        invariant result == AcceptedOffsets(accept, radius, x)
      {
        var slice := AcceptedSliceOf(radius, accept, x);
        result := result + slice;
      }
    }
  }

  /** The middle loop of lib/point3d.0.ts:147-150 for one `x`. */
  method AcceptedSliceOf(radius: int, accept: Point -> bool, x: int) returns (slice: seq<Point>)
    requires radius >= 0
    ensures slice == Ranges.Concat(-radius, radius + 1, AcceptColumns(accept, radius, x))
  {
    slice := [];
    for y := -radius to radius + 1
      invariant slice == Ranges.Concat(-radius, y, AcceptColumns(accept, radius, x))
    {
      var column := AcceptedColumnOf(radius, accept, x, y);
      slice := slice + column;
    }
  }

  /** The inner loop of lib/point3d.0.ts:148-149 for one `x` and `y`. */
  method AcceptedColumnOf(radius: int, accept: Point -> bool, x: int, y: int) returns (column: seq<Point>)
    requires radius >= 0
    ensures column == Ranges.Concat(-radius, radius + 1, AcceptCells(accept, x, y))
  {
    column := [];
    for z := -radius to radius + 1
      invariant column == Ranges.Concat(-radius, z, AcceptCells(accept, x, y))
    {
      if accept(Point(x, y, z)) {
        column := column + [Point(x, y, z)];
      }
    }
  }

  /** lib/point3d.0.ts:153-177: the eight mirror images of each octant
      offset that passes the shape's test. */
  method ShapeOffsetsOf(radius: int, shape: Offset3D) returns (result: seq<Point>)
    ensures result == ShapeOffsets(shape, radius, radius + 1)
  {
    result := [];
    if radius >= 0 {
      for x := 0 to radius + 1
        invariant result == ShapeOffsets(shape, radius, x)
      {
        var slice := ShapeSliceOf(radius, shape, x);
        result := result + slice;
      }
    }
  }

  /** The middle loop of lib/point3d.0.ts:155-176 for one `x`. */
  method ShapeSliceOf(radius: nat, shape: Offset3D, x: int) returns (slice: seq<Point>)
    ensures slice == Ranges.Concat(0, radius + 1, ShapeColumns(shape, radius, x))
  {
    slice := [];
    for y := 0 to radius + 1
      invariant slice == Ranges.Concat(0, y, ShapeColumns(shape, radius, x))
    {
      var column := ShapeColumnOf(radius, shape, x, y);
      slice := slice + column;
    }
  }

  /** The inner loop of lib/point3d.0.ts:156-175 for one `x` and `y`. */
  method ShapeColumnOf(radius: nat, shape: Offset3D, x: int, y: int) returns (column: seq<Point>)
    ensures column == Ranges.Concat(0, radius + 1, ShapeCells(shape, radius, x, y))
  {
    column := [];
    for z := 0 to radius + 1
      invariant column == Ranges.Concat(0, z, ShapeCells(shape, radius, x, y))
    {
      if InShape(shape, radius, x, y, z) {
        column := column + Mirrored(x, y, z);
      }
    }
  }

  /** `offsets(radius, Cardinal)` returns `6 * radius` offsets, ring by
      ring. */
  lemma CardinalLayout(radius: nat)
    ensures |Rings(Cardinal, radius)| == 6 * radius
    ensures forall i, k :: 1 <= i <= radius && 0 <= k < 6 ==>
      Rings(Cardinal, radius)[6 * (i - 1) + k] == Ring(Cardinal, i)[k]
  {
    var f := i => Ring(Cardinal, i);
    Ranges.ConcatLength(1, radius + 1, f, 6);
    forall i, k | 1 <= i <= radius && 0 <= k < 6
      ensures Rings(Cardinal, radius)[6 * (i - 1) + k] == Ring(Cardinal, i)[k]
    {
      Ranges.ConcatLength(1, i, f, 6);
      Ranges.ConcatAt(1, radius + 1, f, i, k);
    }
  }

  /** `offsets(radius, Diagonal)` returns `8 * radius` offsets, ring by
      ring. */
  lemma DiagonalLayout(radius: nat)
    ensures |Rings(Diagonal, radius)| == 8 * radius
    ensures forall i, k :: 1 <= i <= radius && 0 <= k < 8 ==>
      Rings(Diagonal, radius)[8 * (i - 1) + k] == Ring(Diagonal, i)[k]
  {
    var f := i => Ring(Diagonal, i);
    Ranges.ConcatLength(1, radius + 1, f, 8);
    forall i, k | 1 <= i <= radius && 0 <= k < 8
      ensures Rings(Diagonal, radius)[8 * (i - 1) + k] == Ring(Diagonal, i)[k]
    {
      Ranges.ConcatLength(1, i, f, 8);
      Ranges.ConcatAt(1, radius + 1, f, i, k);
    }
  }

  function Abs(n: int): nat
  {
    if n < 0 then -n else n
  }

  /** lib/point3d.0.ts:153-177: the offsets of a shape are exactly the points
      of the cube of side `2 * radius + 1` whose absolute coordinates pass the
      shape's test; so the origin is never one of them. */
  lemma ShapeMembers(shape: Offset3D, radius: int, p: Point)
    ensures p in ShapeOffsets(shape, radius, radius + 1) <==>
      Abs(p.x) <= radius && Abs(p.y) <= radius && Abs(p.z) <= radius &&
      InShape(shape, radius, Abs(p.x), Abs(p.y), Abs(p.z))
  {
    if p in ShapeOffsets(shape, radius, radius + 1) {
      ShapeMemberFrom(shape, radius, p);
    }
    if Abs(p.x) <= radius && Abs(p.y) <= radius && Abs(p.z) <= radius &&
       InShape(shape, radius, Abs(p.x), Abs(p.y), Abs(p.z)) {
      ShapeMemberTo(shape, radius, p);
    }
  }

  lemma ShapeMemberFrom(shape: Offset3D, radius: int, p: Point)
    requires p in ShapeOffsets(shape, radius, radius + 1)
    ensures Abs(p.x) <= radius && Abs(p.y) <= radius && Abs(p.z) <= radius &&
      InShape(shape, radius, Abs(p.x), Abs(p.y), Abs(p.z))
  {
    var slices := ShapeSlices(shape, radius);
    Ranges.ConcatMember(0, radius + 1, slices, p);
    var x :| 0 <= x < radius + 1 && p in slices(x);
    Ranges.ConcatMember(0, radius + 1, ShapeColumns(shape, radius, x), p);
    var y :| 0 <= y < radius + 1 && p in ShapeColumns(shape, radius, x)(y);
    Ranges.ConcatMember(0, radius + 1, ShapeCells(shape, radius, x, y), p);
    var z :| 0 <= z < radius + 1 && p in ShapeCell(shape, radius, x, y, z);
    MirroredAbs(x, y, z, p);
  }

  lemma MirroredAbs(x: nat, y: nat, z: nat, p: Point)
    requires p in Mirrored(x, y, z)
    ensures Abs(p.x) == x && Abs(p.y) == y && Abs(p.z) == z
  {
  }

  lemma ShapeMemberTo(shape: Offset3D, radius: int, p: Point)
    requires Abs(p.x) <= radius && Abs(p.y) <= radius && Abs(p.z) <= radius
    requires InShape(shape, radius, Abs(p.x), Abs(p.y), Abs(p.z))
    ensures p in ShapeOffsets(shape, radius, radius + 1)
  {
    var x, y, z := Abs(p.x), Abs(p.y), Abs(p.z);
    assert p in Mirrored(x, y, z);
    assert p in ShapeCells(shape, radius, x, y)(z);
    Ranges.ConcatMember(0, radius + 1, ShapeCells(shape, radius, x, y), p);
    assert p in ShapeColumns(shape, radius, x)(y);
    Ranges.ConcatMember(0, radius + 1, ShapeColumns(shape, radius, x), p);
    assert p in ShapeSlices(shape, radius)(x);
    Ranges.ConcatMember(0, radius + 1, ShapeSlices(shape, radius), p);
  }

  /** lib/point3d.0.ts:145-151: a function constrainer yields exactly the
      offsets of the cube of side `2 * radius + 1` that it accepts. */
  lemma AcceptedMembers(accept: Point -> bool, radius: int, p: Point)
    ensures p in AcceptedOffsets(accept, radius, radius + 1) <==>
      -radius <= p.x <= radius && -radius <= p.y <= radius && -radius <= p.z <= radius && accept(p)
  {
    if p in AcceptedOffsets(accept, radius, radius + 1) {
      AcceptedMemberFrom(accept, radius, p);
    }
    if -radius <= p.x <= radius && -radius <= p.y <= radius && -radius <= p.z <= radius && accept(p) {
      AcceptedMemberTo(accept, radius, p);
    }
  }

  lemma AcceptedMemberFrom(accept: Point -> bool, radius: int, p: Point)
    requires p in AcceptedOffsets(accept, radius, radius + 1)
    ensures -radius <= p.x <= radius && -radius <= p.y <= radius && -radius <= p.z <= radius && accept(p)
  {
    var slices := AcceptSlices(accept, radius);
    Ranges.ConcatMember(-radius, radius + 1, slices, p);
    var x :| -radius <= x < radius + 1 && p in slices(x);
    InAcceptedSlice(accept, radius, x, p);
  }

  lemma InAcceptedSlice(accept: Point -> bool, radius: int, x: int, p: Point)
    requires p in Ranges.Concat(-radius, radius + 1, AcceptColumns(accept, radius, x))
    ensures p.x == x && -radius <= p.y <= radius && -radius <= p.z <= radius && accept(p)
  {
    Ranges.ConcatMember(-radius, radius + 1, AcceptColumns(accept, radius, x), p);
    var y :| -radius <= y < radius + 1 && p in AcceptColumns(accept, radius, x)(y);
    InAcceptedColumn(accept, radius, x, y, p);
  }

  lemma InAcceptedColumn(accept: Point -> bool, radius: int, x: int, y: int, p: Point)
    requires p in Ranges.Concat(-radius, radius + 1, AcceptCells(accept, x, y))
    ensures p.x == x && p.y == y && -radius <= p.z <= radius && accept(p)
  {
    Ranges.ConcatMember(-radius, radius + 1, AcceptCells(accept, x, y), p);
    var z :| -radius <= z < radius + 1 && p in AcceptCell(accept, x, y, z);
  }

  lemma AcceptedMemberTo(accept: Point -> bool, radius: int, p: Point)
    requires -radius <= p.x <= radius && -radius <= p.y <= radius && -radius <= p.z <= radius && accept(p)
    ensures p in AcceptedOffsets(accept, radius, radius + 1)
  {
    ToAcceptedSlice(accept, radius, p);
    assert p in AcceptSlices(accept, radius)(p.x);
    Ranges.ConcatMember(-radius, radius + 1, AcceptSlices(accept, radius), p);
  }

  lemma ToAcceptedSlice(accept: Point -> bool, radius: int, p: Point)
    requires -radius <= p.y <= radius && -radius <= p.z <= radius && accept(p)
    ensures p in Ranges.Concat(-radius, radius + 1, AcceptColumns(accept, radius, p.x))
  {
    ToAcceptedColumn(accept, radius, p);
    assert p in AcceptColumns(accept, radius, p.x)(p.y);
    Ranges.ConcatMember(-radius, radius + 1, AcceptColumns(accept, radius, p.x), p);
  }

  lemma ToAcceptedColumn(accept: Point -> bool, radius: int, p: Point)
    requires -radius <= p.z <= radius && accept(p)
    ensures p in Ranges.Concat(-radius, radius + 1, AcceptCells(accept, p.x, p.y))
  {
    assert p in AcceptCells(accept, p.x, p.y)(p.z);
    Ranges.ConcatMember(-radius, radius + 1, AcceptCells(accept, p.x, p.y), p);
  }


}
