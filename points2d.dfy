/** `Point2D` (lib/point2d.0.ts). The codecs `pack`, `pack32` and `hash` read
    and write one scratch buffer through typed views; each coordinate is
    modelled by its bit pattern, so they become functions on bit-vectors. The
    offset generators and the bounds helpers work on integer coordinates. */
module Points2D {
  import opened Wrappers
  import opened Floats
  import Ranges

  /** A point with integer coordinates. */
  datatype Point = Point(x: int, y: int)

  /** A point's two coordinates as binary64 patterns. */
  datatype Pattern = Pattern(x: bv64, y: bv64)

  /** A point's two coordinates as binary32 patterns. */
  datatype Pattern32 = Pattern32(x: bv32, y: bv32)

  /** lib/point2d.0.ts:89-91. */
  function IsEqual(a: Point, b: Point): (r: bool)
    ensures r <==> a == b
  {
    a.x == b.x && a.y == b.y
  }

  // ---------------------------------------------------------------- codecs

  /** lib/point2d.0.ts:187-192: x's pattern in the high 64 bits of a 128-bit
      `bigint`, y's in the low 64. */
  function Pack(p: Pattern): (v: bv128)
    ensures (v >> 64) as bv64 == p.x
    ensures (v & 0xffff_ffff_ffff_ffff) as bv64 == p.y
  {
    ((p.x as bv128) << 64) | (p.y as bv128)
  }

  /** lib/point2d.0.ts:193-198: each half stored into a `BigUint64Array`
      element, so reduced modulo 2^64, and read back as a binary64. */
  function Unpack(v: bv128): (p: Pattern)
    ensures Pack(p) == v
  {
    Pattern((v >> 64) as bv64, (v & 0xffff_ffff_ffff_ffff) as bv64)
  }

  /** `pack` is lossless and `unpack` undoes it; on 128-bit values the two are
      inverse bijections. */
  lemma PackRoundTrip(p: Pattern, v: bv128)
    ensures Unpack(Pack(p)) == p
    ensures Pack(Unpack(v)) == v
  {
  }

  /** lib/point2d.0.ts:202-207: x's binary32 pattern in the low half of one
      binary64, y's in the high half. When y is finite, so is the result, so
      the `number` returned carries the pattern exactly. */
  function Pack32(p: Pattern32): (b: bv64)
    ensures Low32(b) == p.x && High32(b) == p.y
    ensures Finite32(p.y) ==> !NotFinite64(b)
  {
    Join32(p.x, p.y)
  }

  /** lib/point2d.0.ts:208-212: the two halves of the number's pattern. */
  function Unpack32(b: bv64): (p: Pattern32)
    ensures Pack32(p) == b
  {
    Pattern32(Low32(b), High32(b))
  }

  /** `unpack32` undoes `pack32`, and the other way round. */
  lemma Pack32RoundTrip(p: Pattern32, b: bv64)
    ensures Unpack32(Pack32(p)) == p
    ensures Pack32(Unpack32(b)) == b
  {
  }

  /** lib/point2d.0.ts:216-234: mixes the lanes of `a` (the pattern of
      `x * LOG2E`) and `b` (that of `y * PI`) into four output lanes with
      16-bit XORs and products, then moves bit 14 of the top lane (bit 62 of
      the result) into lane 2. Bit 62 ends clear, so the exponent field is
      never all ones: the hash is never NaN or an infinity. */
  function Hash(a: bv64, b: bv64): (h: bv64)
    ensures h & 0x4000_0000_0000_0000 == 0
    ensures !NotFinite64(h)
  {
    var u := ToLanes(a);
    var v := ToLanes(b);
    var l8 := u.l0 ^ v.l1 ^ (u.l1 * 3) ^ (v.l2 * 5);
    var l9 := u.l1 ^ v.l2 ^ (u.l2 * 7) ^ (v.l3 * 9);
    var l10 := u.l2 ^ v.l3 ^ (u.l3 * 11) ^ (v.l0 * 13);
    var l11 := u.l3 ^ v.l0 ^ (u.l0 * 15) ^ (v.l1 * 17);
    FromLanes(Lanes(l8, l9, l10 ^ (l11 & 0x4000), l11 & 0xbfff))
  }

  // --------------------------------------------------------------- offsets

  /** lib/point2d.0.ts:19-26. */
  datatype Offset2D = Cardinal | Diagonal | Square | Circle | CirclePlus | Diamond

  /** The second parameter of `offsets`: a shape, or a function that accepts
      or rejects each candidate offset. */
  datatype Constrainer = Shape(shape: Offset2D) | Accepts(accept: Point -> bool)

  /** The four offsets of ring `i` (lib/point2d.0.ts:121-131). */
  function Ring(shape: Offset2D, i: int): (r: seq<Point>)
    requires shape == Cardinal || shape == Diagonal
    ensures |r| == 4
  {
    if shape == Cardinal then [Point(0, -i), Point(i, 0), Point(0, i), Point(-i, 0)]
    else [Point(i, -i), Point(i, i), Point(-i, i), Point(-i, -i)]
  }

  /** Rings `1` to `n`, innermost first. */
  function Rings(shape: Offset2D, n: int): seq<Point>
    requires shape == Cardinal || shape == Diagonal
  {
    Ranges.Concat(1, n + 1, i => Ring(shape, i))
  }

  /** lib/point2d.0.ts:146-151: the test a quadrant offset `(x, y)` with
      `x, y >= 0` must pass. `(radius + 0.5) ** 2` is `radius² + radius + ¼`,
      and for integers `x² + y²` lies below it exactly when it is at most
      `radius² + radius`. */
  predicate InShape(shape: Offset2D, radius: int, x: int, y: int)
  {
    (x != 0 || y != 0) &&
    (shape == Square ||
     (shape == Circle && x * x + y * y <= radius * radius) ||
     (shape == CirclePlus && x * x + y * y <= radius * radius + radius) ||
     (shape == Diamond && x + y <= radius))
  }

  /** The four mirror images pushed for one accepted quadrant offset. */
  function Mirrored(x: int, y: int): seq<Point>
  {
    [Point(x, y), Point(x, -y), Point(-x, y), Point(-x, -y)]
  }

  /** What the inner loop pushes for the quadrant offset `(x, y)`. */
  function ShapeCell(shape: Offset2D, radius: int, x: int, y: int): seq<Point>
  {
    if InShape(shape, radius, x, y) then Mirrored(x, y) else []
  }

  function ShapeCells(shape: Offset2D, radius: int, x: int): int -> seq<Point>
  {
    y => ShapeCell(shape, radius, x, y)
  }

  function ShapeRows(shape: Offset2D, radius: int): int -> seq<Point>
  {
    x => Ranges.Concat(0, radius + 1, ShapeCells(shape, radius, x))
  }

  /** What the outer loop has pushed once `x` reaches `n`. */
  function ShapeOffsets(shape: Offset2D, radius: int, n: int): seq<Point>
  {
    Ranges.Concat(0, n, ShapeRows(shape, radius))
  }

  /** What the inner loop pushes for the candidate `(x, y)`. */
  function AcceptCell(accept: Point -> bool, x: int, y: int): seq<Point>
  {
    if accept(Point(x, y)) then [Point(x, y)] else []
  }

  function AcceptCells(accept: Point -> bool, x: int): int -> seq<Point>
  {
    y => AcceptCell(accept, x, y)
  }

  function AcceptRows(accept: Point -> bool, radius: int): int -> seq<Point>
  {
    x => Ranges.Concat(-radius, radius + 1, AcceptCells(accept, x))
  }

  /** What the outer loop has pushed once `x` reaches `n`. */
  function AcceptedOffsets(accept: Point -> bool, radius: int, n: int): seq<Point>
  {
    Ranges.Concat(-radius, n, AcceptRows(accept, radius))
  }

  /** lib/point2d.0.ts:115-159, dispatching on the constrainer. */
  method Offsets(radius: int, constrainer: Constrainer) returns (r: Result<seq<Point>>)
    ensures constrainer == Shape(Cardinal) || constrainer == Shape(Diagonal) ==>
      r == (if radius < 0 then Failure(InvalidArgument) else Success(Rings(constrainer.shape, radius)))
    ensures constrainer.Shape? && constrainer.shape != Cardinal && constrainer.shape != Diagonal ==>
      r == Success(ShapeOffsets(constrainer.shape, radius, radius + 1))
    ensures constrainer.Accepts? ==> r == Success(AcceptedOffsets(constrainer.accept, radius, radius + 1))
  {
    if constrainer.Accepts? {
      var result := AcceptedOffsetsOf(radius, constrainer.accept);
      r := Success(result);
    } else if constrainer.shape == Cardinal || constrainer.shape == Diagonal {
      r := RingOffsets(radius, constrainer.shape);
    } else {
      var result := ShapeOffsetsOf(radius, constrainer.shape);
      r := Success(result);
    }
  }

  /** lib/point2d.0.ts:117-134: an array of `radius * 4` slots filled ring by
      ring; a negative length makes `new Array` throw. */
  method RingOffsets(radius: int, shape: Offset2D) returns (r: Result<seq<Point>>)
    requires shape == Cardinal || shape == Diagonal
    ensures r == (if radius < 0 then Failure(InvalidArgument) else Success(Rings(shape, radius)))
  {
    if radius * 4 < 0 {
      return Failure(InvalidArgument);
    }
    var result := new Point[radius * 4];
    var index := 0;
    for i := 1 to radius + 1
      invariant index == 4 * (i - 1)
      invariant result[..index] == Rings(shape, i - 1)
    {
      if shape == Cardinal {
        result[index] := Point(0, -i);
        result[index + 1] := Point(i, 0);
        result[index + 2] := Point(0, i);
        result[index + 3] := Point(-i, 0);
      } else {
        result[index] := Point(i, -i);
        result[index + 1] := Point(i, i);
        result[index + 2] := Point(-i, i);
        result[index + 3] := Point(-i, -i);
      }
      assert result[..index + 4] == result[..index] + Ring(shape, i);
      index := index + 4;
    }
    assert result[..] == result[..index];
    return Success(result[..]);
  }

  /** lib/point2d.0.ts:136-141: each candidate of the square of side
      `2 * radius + 1`, row by row, pushed when the function accepts it. */
  method AcceptedOffsetsOf(radius: int, accept: Point -> bool) returns (result: seq<Point>)
    ensures result == AcceptedOffsets(accept, radius, radius + 1)
  {
    result := [];
    if radius >= 0 {
      for x := -radius to radius + 1
        invariant result == AcceptedOffsets(accept, radius, x)
      {
        for y := -radius to radius + 1
          invariant result == AcceptedOffsets(accept, radius, x) + Ranges.Concat(-radius, y, AcceptCells(accept, x))
        {
          if accept(Point(x, y)) {
            result := result + [Point(x, y)];
          }
        }
      }
    }
  }

  /** lib/point2d.0.ts:143-158: the four mirror images of each quadrant
      offset that passes the shape's test, column by column. */
  method ShapeOffsetsOf(radius: int, shape: Offset2D) returns (result: seq<Point>)
    ensures result == ShapeOffsets(shape, radius, radius + 1)
  {
    result := [];
    if radius >= 0 {
      for x := 0 to radius + 1
        invariant result == ShapeOffsets(shape, radius, x)
      {
        var column := ShapeColumnOf(radius, shape, x);
        result := result + column;
      }
    }
  }

  /** The inner loop of lib/point2d.0.ts:145-155 for one `x`. */
  method ShapeColumnOf(radius: nat, shape: Offset2D, x: int) returns (column: seq<Point>)
    ensures column == Ranges.Concat(0, radius + 1, ShapeCells(shape, radius, x))
  {
    column := [];
    for y := 0 to radius + 1
      invariant column == Ranges.Concat(0, y, ShapeCells(shape, radius, x))
    {
      if InShape(shape, radius, x, y) {
        column := column + Mirrored(x, y);
      }
    }
  }

  /** `offsets(radius, Cardinal)` and `offsets(radius, Diagonal)` return
      `4 * radius` offsets: ring `i`'s four at `4 * (i - 1)` onwards. */
  lemma RingsLayout(shape: Offset2D, radius: nat)
    requires shape == Cardinal || shape == Diagonal
    ensures |Rings(shape, radius)| == 4 * radius
    ensures forall i, k :: 1 <= i <= radius && 0 <= k < 4 ==> Rings(shape, radius)[4 * (i - 1) + k] == Ring(shape, i)[k]
  {
    var f := i => Ring(shape, i);
    Ranges.ConcatLength(1, radius + 1, f, 4);
    forall i, k | 1 <= i <= radius && 0 <= k < 4
      ensures Rings(shape, radius)[4 * (i - 1) + k] == Ring(shape, i)[k]
    {
      Ranges.ConcatLength(1, i, f, 4);
      Ranges.ConcatAt(1, radius + 1, f, i, k);
    }
  }

  function Abs(n: int): nat
  {
    if n < 0 then -n else n
  }

  /** lib/point2d.0.ts:144-156: the offsets of a shape are exactly the points
      of the square of side `2 * radius + 1` whose absolute coordinates pass
      the shape's test. So the origin is never one of them, and each satisfies
      its shape: `x² + y² <= radius²` for a circle, `|x| + |y| <= radius` for
      a diamond. */
  lemma {:induction false} ShapeMembers(shape: Offset2D, radius: int, p: Point)
    ensures p in ShapeOffsets(shape, radius, radius + 1) <==>
      Abs(p.x) <= radius && Abs(p.y) <= radius && InShape(shape, radius, Abs(p.x), Abs(p.y))
  {
    if p in ShapeOffsets(shape, radius, radius + 1) {
      ShapeMemberFrom(shape, radius, p);
    }
    if Abs(p.x) <= radius && Abs(p.y) <= radius && InShape(shape, radius, Abs(p.x), Abs(p.y)) {
      ShapeMemberTo(shape, radius, p);
    }
  }

  lemma {:induction false} ShapeMemberFrom(shape: Offset2D, radius: int, p: Point)
    requires p in ShapeOffsets(shape, radius, radius + 1)
    ensures Abs(p.x) <= radius && Abs(p.y) <= radius && InShape(shape, radius, Abs(p.x), Abs(p.y))
  {
    var rows := ShapeRows(shape, radius);
    Ranges.ConcatMember(0, radius + 1, rows, p);
    var x :| 0 <= x < radius + 1 && p in rows(x);
    Ranges.ConcatMember(0, radius + 1, ShapeCells(shape, radius, x), p);
    var y :| 0 <= y < radius + 1 && p in ShapeCell(shape, radius, x, y);
    MirroredAbs(x, y, p);
  }

  lemma MirroredAbs(x: nat, y: nat, p: Point)
    requires p in Mirrored(x, y)
    ensures Abs(p.x) == x && Abs(p.y) == y
  {
  }

  lemma {:induction false} ShapeMemberTo(shape: Offset2D, radius: int, p: Point)
    requires Abs(p.x) <= radius && Abs(p.y) <= radius && InShape(shape, radius, Abs(p.x), Abs(p.y))
    ensures p in ShapeOffsets(shape, radius, radius + 1)
  {
    var x, y := Abs(p.x), Abs(p.y);
    assert p in Mirrored(x, y);
    assert p in ShapeCells(shape, radius, x)(y);
    Ranges.ConcatMember(0, radius + 1, ShapeCells(shape, radius, x), p);
    assert p in ShapeRows(shape, radius)(x);
    Ranges.ConcatMember(0, radius + 1, ShapeRows(shape, radius), p);
  }

  /** lib/point2d.0.ts:136-141: a function constrainer yields exactly the
      offsets of the square of side `2 * radius + 1` that it accepts. */
  lemma {:induction false} AcceptedMembers(accept: Point -> bool, radius: int, p: Point)
    ensures p in AcceptedOffsets(accept, radius, radius + 1) <==>
      -radius <= p.x <= radius && -radius <= p.y <= radius && accept(p)
  {
    var rows := AcceptRows(accept, radius);
    Ranges.ConcatMember(-radius, radius + 1, rows, p);
    if p in AcceptedOffsets(accept, radius, radius + 1) {
      var x :| -radius <= x < radius + 1 && p in rows(x);
      Ranges.ConcatMember(-radius, radius + 1, AcceptCells(accept, x), p);
    }
    if -radius <= p.x <= radius && -radius <= p.y <= radius && accept(p) {
      assert p in AcceptCells(accept, p.x)(p.y);
      Ranges.ConcatMember(-radius, radius + 1, AcceptCells(accept, p.x), p);
      assert p in rows(p.x);
    }
  }

  // ---------------------------------------------------------------- bounds

  /** lib/point2d.0.ts:6-11. */
  datatype Bounds = Bounds(minX: int, maxX: int, minY: int, maxY: int)

  /** lib/point2d.0.ts:174-178: the test `makeInBounds(b)` returns. The
      bounds are inclusive: both corners pass when the box is not empty, and
      an empty box passes nothing. */
  function MakeInBounds(b: Bounds): (test: Point -> bool)
    ensures b.minX <= b.maxX && b.minY <= b.maxY ==> test(Point(b.minX, b.minY)) && test(Point(b.maxX, b.maxY))
    ensures forall p :: test(p) ==> b.minX <= p.x <= b.maxX && b.minY <= p.y <= b.maxY
    ensures b.minX > b.maxX || b.minY > b.maxY ==> forall p :: !test(p)
  {
    (p: Point) => b.minX <= p.x <= b.maxX && b.minY <= p.y <= b.maxY
  }

  function Min(a: int, b: int): int { if a <= b then a else b }
  function Max(a: int, b: int): int { if a <= b then b else a }

  /** One step of the reduction at lib/point2d.0.ts:163-169. */
  function Widen(acc: Bounds, p: Point): Bounds
  {
    Bounds(Min(acc.minX, p.x), Max(acc.maxX, p.x), Min(acc.minY, p.y), Max(acc.maxY, p.y))
  }

  function WidenAll(acc: Bounds, items: seq<Point>): Bounds
    decreases |items|
  {
    if |items| == 0 then acc else WidenAll(Widen(acc, items[0]), items[1..])
  }

  /** The reduction's result holds the start box and every item, and each of
      its bounds is the start's or some item's coordinate. */
  lemma {:induction false} WidenAllCovers(acc: Bounds, items: seq<Point>)
    ensures var r := WidenAll(acc, items);
      r.minX <= acc.minX && r.maxX >= acc.maxX && r.minY <= acc.minY && r.maxY >= acc.maxY &&
      (forall i :: 0 <= i < |items| ==> MakeInBounds(r)(items[i])) &&
      (r.minX == acc.minX || exists i :: 0 <= i < |items| && items[i].x == r.minX) &&
      (r.maxX == acc.maxX || exists i :: 0 <= i < |items| && items[i].x == r.maxX) &&
      (r.minY == acc.minY || exists i :: 0 <= i < |items| && items[i].y == r.minY) &&
      (r.maxY == acc.maxY || exists i :: 0 <= i < |items| && items[i].y == r.maxY)
    decreases |items|
  {
    if |items| > 0 {
      var next := Widen(acc, items[0]);
      WidenAllCovers(next, items[1..]);
      var r := WidenAll(next, items[1..]);
      assert r == WidenAll(acc, items);
      forall i | 0 <= i < |items|
        ensures MakeInBounds(r)(items[i])
      {
        if i > 0 {
          assert items[i] == items[1..][i - 1];
        }
      }
      if r.minX != acc.minX && r.minX != next.minX {
        var i :| 0 <= i < |items[1..]| && items[1..][i].x == r.minX;
        assert items[i + 1].x == r.minX;
      }
      if r.maxX != acc.maxX && r.maxX != next.maxX {
        var i :| 0 <= i < |items[1..]| && items[1..][i].x == r.maxX;
        assert items[i + 1].x == r.maxX;
      }
      if r.minY != acc.minY && r.minY != next.minY {
        var i :| 0 <= i < |items[1..]| && items[1..][i].y == r.minY;
        assert items[i + 1].y == r.minY;
      }
      if r.maxY != acc.maxY && r.maxY != next.maxY {
        var i :| 0 <= i < |items[1..]| && items[1..][i].y == r.maxY;
        assert items[i + 1].y == r.maxY;
      }
    }
  }

  /** lib/point2d.0.ts:160-173: all zeros for no points; otherwise the
      smallest box holding every point: each point passes `makeInBounds` of
      it, and each bound is some point's coordinate. The reduction starts from
      infinite bounds; starting from the first point's coordinates instead
      gives the same result, since its first step would produce them. */
  function GetBounds(items: seq<Point>): (r: Bounds)
    ensures |items| == 0 ==> r == Bounds(0, 0, 0, 0)
    ensures forall i :: 0 <= i < |items| ==> MakeInBounds(r)(items[i])
    ensures |items| > 0 ==>
      (exists i :: 0 <= i < |items| && items[i].x == r.minX) &&
      (exists i :: 0 <= i < |items| && items[i].x == r.maxX) &&
      (exists i :: 0 <= i < |items| && items[i].y == r.minY) &&
      (exists i :: 0 <= i < |items| && items[i].y == r.maxY)
  {
    if |items| == 0 then Bounds(0, 0, 0, 0)
    else
      var first := Bounds(items[0].x, items[0].x, items[0].y, items[0].y);
      WidenAllCovers(first, items);
      WidenAll(first, items)
  }
}
