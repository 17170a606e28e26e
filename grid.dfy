/** `Grid` (lib/grid.0.ts): a rectangle of cells kept row-major in one flat
    array. Cells are addressed by index, by row and column (`Rc`, row 0 on
    top) or by x and y (`Xy`, y = 0 on the bottom row, so `y = rows - 1 - r`).
    The flat array is a `seq` field that the mutating methods reassign;
    `rotate`, `mirror` and `translate` rebuild it by scattering every cell to
    its new position, which is specified here by the inverse (gather) map. */
module Grids {
  import opened Wrappers
  import Utils
  import opened Ranges

  datatype CoordSystem = Rc | Xy

  /** The numeric values of the `GridAxis` enum (lib/grid.0.ts:8-11). */
  const Horizontal: int := 0
  const Vertical: int := 1

  /** lib/grid.0.ts:12-18. */
  datatype GridCoord = GridCoord(x: int, y: int, r: int, c: int, i: int)

  /** The `CoordParams` overloads (lib/grid.0.ts:22-25): two numbers, read as
      `r, c` or as `x, y` by the grid's system; a point, always x and y; or a
      flat index. */
  datatype Coords = Pair(p0: int, p1: int) | Point(x: int, y: int) | Index(i: int)

  /** The `fill` option of the constructor: one item, or a function of each
      cell's coordinates. */
  datatype Fill<Item> = Constant(value: Item) | ByCoord(make: GridCoord -> Item)

  /** The parameter of `fill`: one item, or a function of each cell's previous
      value and coordinates. */
  datatype Update<!Item> = Assign(value: Item) | ByCell(update: (Item, GridCoord) -> Item)

  // ------------------------------------------------------ index arithmetic

  /** `#unsafeRcToIndex` (lib/grid.0.ts:94-96). */
  function RcIndex(cols: int, r: int, c: int): int
  {
    r * cols + c
  }

  /** `#unsafeXyToIndex` (lib/grid.0.ts:97-99). */
  function XyIndex(rows: int, cols: int, x: int, y: int): int
  {
    (rows - y - 1) * cols + x
  }

  /** `#unsafeIndexToCoord` (lib/grid.0.ts:88-93): the row is the floor of
      the index over the column count, the column what is left. */
  function CoordOf(rows: int, cols: int, i: int): (k: GridCoord)
    requires 0 < cols && 0 <= i
    ensures k.i == i && 0 <= k.r && 0 <= k.c < cols && RcIndex(cols, k.r, k.c) == i
    ensures k.x == k.c && k.y == rows - 1 - k.r
  {
    var r := i / cols;
    var c := i - r * cols;
    GridCoord(c, rows - r - 1, r, c, i)
  }

  lemma MultiplyOrder(a: int, b: int, m: int)
    requires 0 < m
    ensures a < b <==> a * m < b * m
  {
    assert b * m - a * m == (b - a) * m;
    Utils.MultipleBounds(b - a, m);
  }

  lemma ProductPositive(rows: int, cols: int)
    requires 0 <= rows && 0 <= cols && 0 < rows * cols
    ensures 0 < rows && 0 < cols
  {
  }

  /** A cell inside the rectangle has an index inside it, from which its row
      and column come back. */
  lemma IndexSplit(rows: int, cols: int, r: int, c: int)
    requires 0 <= r < rows && 0 <= c < cols
    ensures 0 <= RcIndex(cols, r, c) < rows * cols
    ensures RcIndex(cols, r, c) / cols == r && RcIndex(cols, r, c) % cols == c
  {
    Utils.UniqueDivision(r * cols + c, cols, r, c);
    MultiplyOrder(r, rows, cols);
    MultiplyOrder(-1, r, cols);
    MultiplyOrder(rows, r + 1, cols);
  }

  /** An index inside the rectangle splits into a row and a column inside
      it. */
  lemma IndexJoin(rows: int, cols: int, j: int)
    requires 0 <= rows && 0 <= cols && 0 <= j < rows * cols
    ensures 0 < cols && 0 <= j / cols < rows && 0 <= j % cols < cols
    ensures RcIndex(cols, j / cols, j % cols) == j
  {
    ProductPositive(rows, cols);
    MultiplyOrder(j / cols, rows, cols);
    MultiplyOrder(-1, j / cols, cols);
  }

  /** The coordinates of the cell at row `r`, column `c`. */
  lemma CoordOfCell(rows: int, cols: int, r: int, c: int)
    requires 0 <= r < rows && 0 <= c < cols
    ensures 0 <= RcIndex(cols, r, c)
    ensures CoordOf(rows, cols, RcIndex(cols, r, c)) == GridCoord(c, rows - 1 - r, r, c, RcIndex(cols, r, c))
  {
    IndexSplit(rows, cols, r, c);
  }

  // ------------------------------------------------------ array helpers

  /** `Array.prototype.at`: a negative index counts from the end. */
  function ArrayAt<T>(s: seq<T>, i: int): Option<T>
  {
    if 0 <= i < |s| then Some(s[i]) else if -|s| <= i < 0 then Some(s[|s| + i]) else None
  }

  /** `Array.prototype.slice` on non-negative bounds, clamped to the length. */
  function Slice<T>(s: seq<T>, start: int, end: int): (r: seq<T>)
    requires 0 <= start <= end
    ensures end <= |s| ==> |r| == end - start
    ensures forall k :: 0 <= k < |r| ==> start + k < |s| && r[k] == s[start + k]
  {
    if start >= |s| then [] else s[start..if end <= |s| then end else |s|]
  }

  /** `Array.prototype.flat(1)`. */
  function Flatten<T>(data: seq<seq<T>>): seq<T>
  {
    if |data| == 0 then [] else data[0] + Flatten(data[1..])
  }

  /** Rows of equal width flatten to that width per row. */
  lemma {:induction false} FlattenLength<T>(data: seq<seq<T>>, width: nat)
    requires forall r :: 0 <= r < |data| ==> |data[r]| == width
    ensures |Flatten(data)| == |data| * width
  {
    if |data| > 0 {
      FlattenLength(data[1..], width);
      assert |data| * width == width + (|data| - 1) * width;
    }
  }

  lemma {:induction false} FlattenAt<T>(data: seq<seq<T>>, width: nat, r: int, c: int)
    requires forall r :: 0 <= r < |data| ==> |data[r]| == width
    requires 0 <= r < |data| && 0 <= c < width
    ensures 0 <= RcIndex(width, r, c) < |Flatten(data)| && Flatten(data)[RcIndex(width, r, c)] == data[r][c]
  {
    FlattenLength(data, width);
    IndexSplit(|data|, width, r, c);
    if r > 0 {
      FlattenAt(data[1..], width, r - 1, c);
      assert RcIndex(width, r, c) == width + RcIndex(width, r - 1, c);
    }
  }

  /** lib/grid.0.ts:52-56: rows of equal width flatten row-major: cell
      `(r, c)` lands at `r * width + c`. */
  lemma FlattenRows<T>(data: seq<seq<T>>, width: nat)
    requires forall r :: 0 <= r < |data| ==> |data[r]| == width
    ensures |Flatten(data)| == |data| * width
    ensures forall r, c :: 0 <= r < |data| && 0 <= c < width ==>
      0 <= RcIndex(width, r, c) < |Flatten(data)| && Flatten(data)[RcIndex(width, r, c)] == data[r][c]
  {
    FlattenLength(data, width);
    forall r, c | 0 <= r < |data| && 0 <= c < width
      ensures 0 <= RcIndex(width, r, c) < |Flatten(data)| && Flatten(data)[RcIndex(width, r, c)] == data[r][c]
    {
      FlattenAt(data, width, r, c);
    }
  }

  /** lib/grid.0.ts:235-238: reversing the flat array of a rectangular grid
      turns it by 180 degrees: `(r, c)` goes to `(rows - 1 - r, cols - 1 - c)`. */
  lemma HalfTurn<T>(cells: seq<T>, rows: int, cols: int, r: int, c: int)
    requires |cells| == rows * cols && 0 <= r < rows && 0 <= c < cols
    ensures 0 <= RcIndex(cols, r, c) < |cells| && 0 <= RcIndex(cols, rows - 1 - r, cols - 1 - c) < |cells|
    ensures Reversed(cells)[RcIndex(cols, rows - 1 - r, cols - 1 - c)] == cells[RcIndex(cols, r, c)]
  {
    IndexSplit(rows, cols, r, c);
    IndexSplit(rows, cols, rows - 1 - r, cols - 1 - c);
    assert RcIndex(cols, rows - 1 - r, cols - 1 - c) == |cells| - 1 - RcIndex(cols, r, c);
  }

  // ------------------------------------------------------ rearrangements

  /** How `rotate`, `mirror` and `translate` move the cells. */
  datatype Move = Turn90 | Turn270 | FlipH | FlipV | Shift(dr: int, dc: int)

  /** The dimensions after a move: a quarter turn swaps them. */
  function MovedRows(m: Move, rows: int, cols: int): int
  {
    if m.Turn90? || m.Turn270? then cols else rows
  }

  function MovedCols(m: Move, rows: int, cols: int): int
  {
    if m.Turn90? || m.Turn270? then rows else cols
  }

  /** lib/grid.0.ts:280-284, 287-291: one wrap back into `[0, n)`. */
  function WrapOnce(v: int, n: int): int
  {
    if v < 0 then v + n else if v > n - 1 then v - n else v
  }

  /** Where the cell at `(r, c)` is written, as lib/grid.0.ts:244-245 (the
      index `c * rows + (rows - 1 - r)` of a `cols` by `rows` grid, and
      `(cols - 1 - c) * rows + r`), 261-262 and 292 compute it. */
  function Dest(m: Move, rows: int, cols: int, r: int, c: int): (int, int)
  {
    match m
    case Turn90 => (c, rows - 1 - r)
    case Turn270 => (cols - 1 - c, r)
    case FlipH => (r, cols - 1 - c)
    case FlipV => (rows - 1 - r, c)
    case Shift(dr, dc) => (WrapOnce(r + dr, rows), WrapOnce(c + dc, cols))
  }

  /** The inverse of `Dest`: which cell lands at `(r2, c2)`. */
  function Source(m: Move, rows: int, cols: int, r2: int, c2: int): (int, int)
  {
    match m
    case Turn90 => (rows - 1 - c2, r2)
    case Turn270 => (c2, cols - 1 - r2)
    case FlipH => (r2, cols - 1 - c2)
    case FlipV => (rows - 1 - r2, c2)
    case Shift(dr, dc) => if rows <= 0 || cols <= 0 then (0, 0) else ((r2 - dr) % rows, (c2 - dc) % cols)
  }

  /** The moves the methods perform: a shift by less than one full turn of
      each dimension. */
  predicate Fits(m: Move, rows: int, cols: int)
  {
    0 <= rows && 0 <= cols && (m.Shift? ==> -rows < m.dr < rows && -cols < m.dc < cols)
  }

  /** One wrap of `v + d` lands in `[0, n)` and undoing the shift modulo `n`
      recovers `v`. */
  lemma WrapInverse(v: int, d: int, n: int)
    requires 0 <= v < n && -n < d < n
    ensures 0 <= WrapOnce(v + d, n) < n && (WrapOnce(v + d, n) - d) % n == v
  {
    var w := WrapOnce(v + d, n);
    if v + d < 0 {
      Utils.UniqueDivision(w - d, n, 1, v);
    } else if v + d > n - 1 {
      Utils.UniqueDivision(w - d, n, -1, v);
    } else {
      Utils.UniqueDivision(w - d, n, 0, v);
    }
  }

  lemma UnwrapInverse(w: int, d: int, n: int)
    requires 0 <= w < n && -n < d < n
    ensures 0 <= (w - d) % n < n && WrapOnce((w - d) % n + d, n) == w
  {
    if w - d < 0 {
      Utils.UniqueDivision(w - d, n, -1, w - d + n);
    } else if w - d >= n {
      Utils.UniqueDivision(w - d, n, 1, w - d - n);
    } else {
      Utils.UniqueDivision(w - d, n, 0, w - d);
    }
  }

  lemma DestInverse(m: Move, rows: int, cols: int, r: int, c: int)
    requires Fits(m, rows, cols) && 0 <= r < rows && 0 <= c < cols
    ensures 0 <= Dest(m, rows, cols, r, c).0 < MovedRows(m, rows, cols)
    ensures 0 <= Dest(m, rows, cols, r, c).1 < MovedCols(m, rows, cols)
    ensures Source(m, rows, cols, Dest(m, rows, cols, r, c).0, Dest(m, rows, cols, r, c).1) == (r, c)
  {
    if m.Shift? {
      WrapInverse(r, m.dr, rows);
      WrapInverse(c, m.dc, cols);
    }
  }

  lemma SourceInverse(m: Move, rows: int, cols: int, r2: int, c2: int)
    requires Fits(m, rows, cols) && 0 <= r2 < MovedRows(m, rows, cols) && 0 <= c2 < MovedCols(m, rows, cols)
    ensures 0 <= Source(m, rows, cols, r2, c2).0 < rows && 0 <= Source(m, rows, cols, r2, c2).1 < cols
    ensures Dest(m, rows, cols, Source(m, rows, cols, r2, c2).0, Source(m, rows, cols, r2, c2).1) == (r2, c2)
  {
    if m.Shift? {
      UnwrapInverse(r2, m.dr, rows);
      UnwrapInverse(c2, m.dc, cols);
    }
  }

  /** The flat index the cell at `(r, c)` is written to. */
  function DestIndex(m: Move, rows: int, cols: int, r: int, c: int): int
  {
    RcIndex(MovedCols(m, rows, cols), Dest(m, rows, cols, r, c).0, Dest(m, rows, cols, r, c).1)
  }

  /** The cell whose value lands at flat index `j` of the moved grid. */
  function SourceAt(m: Move, rows: int, cols: int, j: int): (int, int)
  {
    var mc := MovedCols(m, rows, cols);
    if mc <= 0 then (0, 0) else Source(m, rows, cols, j / mc, j % mc)
  }

  lemma DestIndexFacts(m: Move, rows: int, cols: int, r: int, c: int)
    requires Fits(m, rows, cols) && 0 <= r < rows && 0 <= c < cols
    ensures 0 <= DestIndex(m, rows, cols, r, c) < rows * cols
    ensures SourceAt(m, rows, cols, DestIndex(m, rows, cols, r, c)) == (r, c)
  {
    DestInverse(m, rows, cols, r, c);
    var (r2, c2) := Dest(m, rows, cols, r, c);
    IndexSplit(MovedRows(m, rows, cols), MovedCols(m, rows, cols), r2, c2);
    assert MovedRows(m, rows, cols) * MovedCols(m, rows, cols) == rows * cols;
  }

  lemma SourceAtFacts(m: Move, rows: int, cols: int, j: int)
    requires Fits(m, rows, cols) && 0 <= j < rows * cols
    ensures 0 <= SourceAt(m, rows, cols, j).0 < rows && 0 <= SourceAt(m, rows, cols, j).1 < cols
    ensures DestIndex(m, rows, cols, SourceAt(m, rows, cols, j).0, SourceAt(m, rows, cols, j).1) == j
  {
    var mr, mc := MovedRows(m, rows, cols), MovedCols(m, rows, cols);
    assert mr * mc == rows * cols;
    IndexJoin(mr, mc, j);
    SourceInverse(m, rows, cols, j / mc, j % mc);
  }

  /** The value that lands at flat index `j`. */
  function SourceCell<T>(cells: seq<T>, rows: int, cols: int, m: Move, j: int): T
    requires Fits(m, rows, cols) && |cells| == rows * cols && 0 <= j < |cells|
  {
    SourceAtFacts(m, rows, cols, j);
    var (r, c) := SourceAt(m, rows, cols, j);
    IndexSplit(rows, cols, r, c);
    cells[RcIndex(cols, r, c)]
  }

  /** The flat array after a move, gathered cell by cell. */
  function Rearranged<T>(cells: seq<T>, rows: int, cols: int, m: Move): (r: seq<T>)
    requires Fits(m, rows, cols) && |cells| == rows * cols
    ensures |r| == |cells|
  {
    seq(|cells|, j requires 0 <= j < |cells| => SourceCell(cells, rows, cols, m, j))
  }

  /** lib/grid.0.ts:241-247, 258-264, 278-294: the value at `(r, c)` ends at
      `Dest(m, rows, cols, r, c)` of the moved grid. */
  lemma RearrangedMoves<T>(cells: seq<T>, rows: int, cols: int, m: Move, r: int, c: int)
    requires Fits(m, rows, cols) && |cells| == rows * cols && 0 <= r < rows && 0 <= c < cols
    ensures 0 <= Dest(m, rows, cols, r, c).0 < MovedRows(m, rows, cols)
    ensures 0 <= Dest(m, rows, cols, r, c).1 < MovedCols(m, rows, cols)
    ensures 0 <= DestIndex(m, rows, cols, r, c) < |cells| && 0 <= RcIndex(cols, r, c) < |cells|
    ensures Rearranged(cells, rows, cols, m)[DestIndex(m, rows, cols, r, c)] == cells[RcIndex(cols, r, c)]
  {
    DestInverse(m, rows, cols, r, c);
    DestIndexFacts(m, rows, cols, r, c);
    IndexSplit(rows, cols, r, c);
  }

  /** The value gathered at flat index `j`. */
  lemma RearrangedAt<T>(cells: seq<T>, rows: int, cols: int, m: Move, j: int)
    requires Fits(m, rows, cols) && |cells| == rows * cols && 0 <= j < |cells|
    ensures 0 <= SourceAt(m, rows, cols, j).0 < rows && 0 <= SourceAt(m, rows, cols, j).1 < cols
    ensures 0 <= RcIndex(cols, SourceAt(m, rows, cols, j).0, SourceAt(m, rows, cols, j).1) < |cells|
    ensures Rearranged(cells, rows, cols, m)[j] == cells[RcIndex(cols, SourceAt(m, rows, cols, j).0, SourceAt(m, rows, cols, j).1)]
  {
    SourceAtFacts(m, rows, cols, j);
    IndexSplit(rows, cols, SourceAt(m, rows, cols, j).0, SourceAt(m, rows, cols, j).1);
  }

  /** The cell gathered at the index of `(r2, c2)` is the one whose
      destination is `(r2, c2)`. */
  lemma SourceAtCell(m: Move, rows: int, cols: int, r2: int, c2: int)
    requires Fits(m, rows, cols) && 0 <= r2 < MovedRows(m, rows, cols) && 0 <= c2 < MovedCols(m, rows, cols)
    ensures SourceAt(m, rows, cols, RcIndex(MovedCols(m, rows, cols), r2, c2)) == Source(m, rows, cols, r2, c2)
    ensures Dest(m, rows, cols, Source(m, rows, cols, r2, c2).0, Source(m, rows, cols, r2, c2).1) == (r2, c2)
  {
    IndexSplit(MovedRows(m, rows, cols), MovedCols(m, rows, cols), r2, c2);
    SourceInverse(m, rows, cols, r2, c2);
  }

  /** A second move that sends every cell back where it came from restores
      the array. */
  lemma RearrangedUndone<T>(cells: seq<T>, rows: int, cols: int, m1: Move, m2: Move)
    requires Fits(m1, rows, cols) && |cells| == rows * cols
    requires Fits(m2, MovedRows(m1, rows, cols), MovedCols(m1, rows, cols))
    requires MovedRows(m2, MovedRows(m1, rows, cols), MovedCols(m1, rows, cols)) == rows
    requires MovedCols(m2, MovedRows(m1, rows, cols), MovedCols(m1, rows, cols)) == cols
    requires forall r, c :: 0 <= r < rows && 0 <= c < cols ==>
      Dest(m2, MovedRows(m1, rows, cols), MovedCols(m1, rows, cols), Dest(m1, rows, cols, r, c).0, Dest(m1, rows, cols, r, c).1) == (r, c)
    ensures MovedRows(m1, rows, cols) * MovedCols(m1, rows, cols) == rows * cols
    ensures Rearranged(Rearranged(cells, rows, cols, m1), MovedRows(m1, rows, cols), MovedCols(m1, rows, cols), m2) == cells
  {
    var mr, mc := MovedRows(m1, rows, cols), MovedCols(m1, rows, cols);
    assert mr * mc == rows * cols;
    var twice := Rearranged(Rearranged(cells, rows, cols, m1), mr, mc, m2);
    forall j | 0 <= j < |cells|
      ensures twice[j] == cells[j]
    {
      UndoneAt(cells, rows, cols, m1, m2, j);
    }
  }

  lemma UndoneAt<T>(cells: seq<T>, rows: int, cols: int, m1: Move, m2: Move, j: int)
    requires Fits(m1, rows, cols) && |cells| == rows * cols && 0 <= j < |cells|
    requires Fits(m2, MovedRows(m1, rows, cols), MovedCols(m1, rows, cols))
    requires MovedRows(m2, MovedRows(m1, rows, cols), MovedCols(m1, rows, cols)) == rows
    requires MovedCols(m2, MovedRows(m1, rows, cols), MovedCols(m1, rows, cols)) == cols
    requires forall r, c :: 0 <= r < rows && 0 <= c < cols ==>
      Dest(m2, MovedRows(m1, rows, cols), MovedCols(m1, rows, cols), Dest(m1, rows, cols, r, c).0, Dest(m1, rows, cols, r, c).1) == (r, c)
    ensures MovedRows(m1, rows, cols) * MovedCols(m1, rows, cols) == rows * cols
    ensures Rearranged(Rearranged(cells, rows, cols, m1), MovedRows(m1, rows, cols), MovedCols(m1, rows, cols), m2)[j] == cells[j]
  {
    var mr, mc := MovedRows(m1, rows, cols), MovedCols(m1, rows, cols);
    assert mr * mc == rows * cols;
    var once := Rearranged(cells, rows, cols, m1);
    RearrangedAt(once, mr, mc, m2, j);
    SourceAtFacts(m2, mr, mc, j);
    var (r, c) := SourceAt(m2, mr, mc, j);
    RearrangedAt(cells, rows, cols, m1, RcIndex(mc, r, c));
    SourceAtCell(m1, rows, cols, r, c);
  }

  /** lib/grid.0.ts:239-250: `rotate(90)` followed by `rotate(270)` restores
      the grid, and so does the opposite order. */
  lemma TurnsCancel<T>(cells: seq<T>, rows: nat, cols: nat)
    requires |cells| == rows * cols
    ensures |cells| == cols * rows
    ensures Rearranged(Rearranged(cells, rows, cols, Turn90), cols, rows, Turn270) == cells
    ensures Rearranged(Rearranged(cells, rows, cols, Turn270), cols, rows, Turn90) == cells
  {
    RearrangedUndone(cells, rows, cols, Turn90, Turn270);
    RearrangedUndone(cells, rows, cols, Turn270, Turn90);
  }

  /** lib/grid.0.ts:255-267: mirroring twice along the same axis restores the
      grid. */
  lemma FlipsCancel<T>(cells: seq<T>, rows: nat, cols: nat)
    requires |cells| == rows * cols
    ensures Rearranged(Rearranged(cells, rows, cols, FlipH), rows, cols, FlipH) == cells
    ensures Rearranged(Rearranged(cells, rows, cols, FlipV), rows, cols, FlipV) == cells
  {
    forall r, c | 0 <= r < rows && 0 <= c < cols
      ensures Dest(FlipH, rows, cols, Dest(FlipH, rows, cols, r, c).0, Dest(FlipH, rows, cols, r, c).1) == (r, c)
      ensures Dest(FlipV, rows, cols, Dest(FlipV, rows, cols, r, c).0, Dest(FlipV, rows, cols, r, c).1) == (r, c)
    {
    }
    RearrangedUndone(cells, rows, cols, FlipH, FlipH);
    RearrangedUndone(cells, rows, cols, FlipV, FlipV);
  }

  /** lib/grid.0.ts:269-297: translating by an offset and then by its
      negation restores the grid. */
  lemma ShiftsCancel<T>(cells: seq<T>, rows: int, cols: int, dr: int, dc: int)
    requires Fits(Shift(dr, dc), rows, cols) && |cells| == rows * cols
    ensures Rearranged(Rearranged(cells, rows, cols, Shift(dr, dc)), rows, cols, Shift(-dr, -dc)) == cells
  {
    forall r, c | 0 <= r < rows && 0 <= c < cols
      ensures Dest(Shift(-dr, -dc), rows, cols, Dest(Shift(dr, dc), rows, cols, r, c).0, Dest(Shift(dr, dc), rows, cols, r, c).1) == (r, c)
    {
      WrapInverse(r, dr, rows);
      WrapInverse(c, dc, cols);
    }
    RearrangedUndone(cells, rows, cols, Shift(dr, dc), Shift(-dr, -dc));
  }

  /** lib/grid.0.ts:276: a zero offset leaves the grid as it is. */
  lemma ShiftByZero<T>(cells: seq<T>, rows: int, cols: int)
    requires 0 < rows && 0 < cols && |cells| == rows * cols
    ensures Rearranged(cells, rows, cols, Shift(0, 0)) == cells
  {
    forall j | 0 <= j < |cells|
      ensures Rearranged(cells, rows, cols, Shift(0, 0))[j] == cells[j]
    {
      SourceAtFacts(Shift(0, 0), rows, cols, j);
      var (r, c) := SourceAt(Shift(0, 0), rows, cols, j);
      IndexSplit(rows, cols, r, c);
    }
  }

  /** The one-wrap destination of lib/grid.0.ts:279-291 is the Euclidean
      remainder of `r + dr` (and `c + dc`), once the offset has gone through
      JavaScript's `%` (lib/grid.0.ts:274). */
  lemma ShiftMoves(rows: int, cols: int, dr: int, dc: int, r: int, c: int)
    requires 0 <= r < rows && 0 <= c < cols
    ensures Dest(Shift(Utils.Rem(dr, rows), Utils.Rem(dc, cols)), rows, cols, r, c) == ((r + dr) % rows, (c + dc) % cols)
  {
    WrapIsRemainder(r, dr, rows);
    WrapIsRemainder(c, dc, cols);
  }

  lemma WrapIsRemainder(v: int, d: int, n: int)
    requires 0 <= v < n
    ensures WrapOnce(v + Utils.Rem(d, n), n) == (v + d) % n
  {
    var e := Utils.Rem(d, n);
    Utils.QuotRem(d, n);
    var q := Utils.Quot(d, n);
    var w := WrapOnce(v + e, n);
    assert 0 <= w < n;
    assert v + d == w + (q + (if v + e < 0 then -1 else if v + e > n - 1 then 1 else 0)) * n;
    Utils.UniqueDivision(v + d, n, q + (if v + e < 0 then -1 else if v + e > n - 1 then 1 else 0), w);
  }

  // ------------------------------------------------------ translation offsets

  /** The row and column offsets of `translate` (lib/grid.0.ts:271-275) with
      each offset reduced by its own dimension: `y` and the row offset by
      `rows`, `x` and the column offset by `cols`. */
  function TranslateOffsets(system: CoordSystem, rows: int, cols: int, p: Coords): (r: (int, int))
    requires 0 < rows && 0 < cols && !p.Index?
    ensures Fits(Shift(r.0, r.1), rows, cols)
  {
    match p
    case Point(x, y) => (Utils.Rem(y, rows), Utils.Rem(x, cols))
    case Pair(p0, p1) =>
      if system == Rc then (Utils.Rem(p0, rows), Utils.Rem(p1, cols))
      else (Utils.Rem(p1, rows), Utils.Rem(p0, cols))
  }

  /** The offsets as lib/grid.0.ts:272 and 275 compute them: in the point and
      `Xy` forms the row offset is reduced by `cols` and the column offset by
      `rows`. */
  function TranslateOffsetsAsWritten(system: CoordSystem, rows: int, cols: int, p: Coords): (r: (int, int))
    requires 0 < rows && 0 < cols && !p.Index?
    ensures system == Rc && p.Pair? ==> r == TranslateOffsets(system, rows, cols, p)
    ensures rows == cols ==> r == TranslateOffsets(system, rows, cols, p)
  {
    match p
    case Point(x, y) => (Utils.Rem(y, cols), Utils.Rem(x, rows))
    case Pair(p0, p1) =>
      if system == Rc then (Utils.Rem(p0, rows), Utils.Rem(p1, cols))
      else (Utils.Rem(p1, cols), Utils.Rem(p0, rows))
  }

  /** On a grid of one row and three columns, translating by the point
      `(0, 2)` gives, as written, a row offset of 2; one wrap takes row 0 to
      row 1, outside the grid, and the write lands at index 3 of a three-cell
      array. With the offsets reduced by their own dimensions the offset is
      0 and the grid stays as it is. */
  lemma TranslateAsWrittenEscapes()
    ensures TranslateOffsetsAsWritten(Rc, 1, 3, Point(0, 2)) == (2, 0)
    ensures !Fits(Shift(2, 0), 1, 3)
    ensures Dest(Shift(2, 0), 1, 3, 0, 0) == (1, 0) && DestIndex(Shift(2, 0), 1, 3, 0, 0) == 3
    ensures TranslateOffsets(Rc, 1, 3, Point(0, 2)) == (0, 0)
  {
  }

  // ------------------------------------------------------ fill

  /** The value the constructor's `fill` option gives the cell at `k`. */
  function FillAt<Item>(fill: Fill<Item>, k: GridCoord): Item
  {
    match fill
    case Constant(value) => value
    case ByCoord(make) => make(k)
  }

  /** The cells after `fill(update)` (lib/grid.0.ts:151-159). */
  function Updated<Item>(cells: seq<Item>, rows: int, cols: int, update: Update<Item>): (r: seq<Item>)
    requires update.ByCell? ==> 0 < cols || |cells| == 0
    ensures |r| == |cells|
  {
    seq(|cells|, i requires 0 <= i < |cells| =>
      match update
      case Assign(value) => value
      case ByCell(f) => f(cells[i], CoordOf(rows, cols, i)))
  }

  /** `fill` hands the updater each cell's previous value with that cell's
      row, column, x and y. */
  lemma UpdatedCell<Item>(cells: seq<Item>, rows: int, cols: int, f: (Item, GridCoord) -> Item, r: int, c: int)
    requires |cells| == rows * cols && 0 <= r < rows && 0 <= c < cols
    ensures 0 <= RcIndex(cols, r, c) < |cells|
    ensures Updated(cells, rows, cols, ByCell(f))[RcIndex(cols, r, c)] ==
      f(cells[RcIndex(cols, r, c)], GridCoord(c, rows - 1 - r, r, c, RcIndex(cols, r, c)))
  {
    CoordOfCell(rows, cols, r, c);
    IndexSplit(rows, cols, r, c);
  }

  /** Assigning one value twice is assigning it once. */
  lemma AssignIdempotent<Item>(cells: seq<Item>, rows: int, cols: int, value: Item)
    ensures Updated(Updated(cells, rows, cols, Assign(value)), rows, cols, Assign(value)) == Updated(cells, rows, cols, Assign(value))
    ensures forall i :: 0 <= i < |cells| ==> Updated(cells, rows, cols, Assign(value))[i] == value
  {
  }

  // ------------------------------------------------------ the grid

  class Grid<Item> {
    var rows: int
    var cols: int
    /** The private `#array`. */
    var cells: seq<Item>
    const system: CoordSystem

    /** Every row holds `cols` cells: the grids built from a fill, and those
        built from rows of equal width. */
    predicate Rectangular()
      reads this
    {
      0 <= rows && 0 <= cols && |cells| == rows * cols
    }

    /** lib/grid.0.ts:42-48: a copy of another grid. */
    constructor Copy(data: Grid<Item>)
      ensures rows == data.rows && cols == data.cols && cells == data.cells && system == data.system
    {
      rows, cols, cells, system := data.rows, data.cols, data.cells, data.system;
    }

    /** lib/grid.0.ts:52-56: from a list of rows, the column count taken from
        the first row. */
    constructor FromRows(data: seq<seq<Item>>, system: CoordSystem)
      ensures this.system == system && rows == |data| && cells == Flatten(data)
      ensures cols == if |data| == 0 then 0 else |data[0]|
    {
      this.system := system;
      rows := |data|;
      cols := if |data| == 0 then 0 else |data[0]|;
      cells := Flatten(data);
    }

    /** lib/grid.0.ts:57-63: `rows * cols` cells, cell `i` set from the fill
        option at the coordinates of `i`. */
    constructor FromFill(rows: int, cols: int, fill: Fill<Item>, system: CoordSystem)
      requires 0 <= rows && 0 <= cols
      ensures this.system == system && this.rows == rows && this.cols == cols && Rectangular()
      ensures |cells| == 0 || 0 < cols
      ensures forall i :: 0 <= i < |cells| ==> cells[i] == FillAt(fill, CoordOf(rows, cols, i))
    {
      var n := rows * cols;
      var built: seq<Item> := [];
      if 0 < n {
        ProductPositive(rows, cols);
      }
      for i := 0 to n
        invariant |built| == i
        invariant forall k :: 0 <= k < i ==> built[k] == FillAt(fill, CoordOf(rows, cols, k))
      {
        built := built + [FillAt(fill, CoordOf(rows, cols, i))];
      }
      this.system := system;
      this.rows := rows;
      this.cols := cols;
      cells := built;
    }

    /** lib/grid.0.ts:64-68: the given cells; the row count is the floor of
        their number over the column count, a column count of 0 read as 1. */
    constructor FromCells(cells: seq<Item>, cols: int, system: CoordSystem)
      ensures this.system == system && this.cols == cols && this.cells == cells
      ensures rows == Utils.FloorDiv(|cells|, if cols == 0 then 1 else cols)
    {
      this.system := system;
      this.cols := cols;
      this.cells := cells;
      rows := Utils.FloorDiv(|cells|, if cols == 0 then 1 else cols);
    }

    /** lib/grid.0.ts:102-110: a point or pair inside the rectangle, an index
        inside the array. In a rectangular grid an in-bounds point or pair
        names a cell of the array. */
    predicate InBounds(p: Coords)
      reads this
      ensures InBounds(p) && !p.Index? && Rectangular() ==> 0 <= PositionIndex(p) < |cells|
    {
      match p
      case Point(x, y) =>
        var b := 0 <= x < cols && 0 <= y < rows;
        if b then IndexSplit(rows, cols, rows - 1 - y, x); b else b
      case Index(i) => 0 <= i < |cells|
      case Pair(p0, p1) =>
        var r, c := if system == Rc then p0 else p1, if system == Rc then p1 else p0;
        var b := 0 <= r <= rows - 1 && 0 <= c <= cols - 1;
        if b then IndexSplit(rows, cols, if system == Rc then r else rows - 1 - r, c); b else b
    }

    /** The flat index of a coordinate pair or point (lib/grid.0.ts:120-124). */
    function PositionIndex(p: Coords): int
      reads this
      requires !p.Index?
    {
      match p
      case Point(x, y) => XyIndex(rows, cols, x, y)
      case Pair(p0, p1) => if system == Rc then RcIndex(cols, p0, p1) else XyIndex(rows, cols, p0, p1)
    }

    /** lib/grid.0.ts:112-116: the coordinates of index `i`, or out of
        bounds. */
    function IndexToCoord(i: int): (r: Result<GridCoord>)
      reads this
      requires 0 < cols || |cells| == 0
      ensures r.Success? <==> 0 <= i < |cells|
      ensures r.Failure? ==> r.error == OutOfBounds
      ensures r.Success? ==> r.value.i == i && r.value.r == i / cols && 0 <= r.value.c < cols && RcIndex(cols, r.value.r, r.value.c) == i
      ensures r.Success? ==> r.value.x == r.value.c && r.value.y == rows - 1 - r.value.r
    {
      if i < 0 || i > |cells| - 1 then Failure(OutOfBounds) else Success(CoordOf(rows, cols, i))
    }

    /** lib/grid.0.ts:118-125: the index of an in-bounds pair or point, or out
        of bounds. */
    function CoordToIndex(p: Coords): (r: Result<int>)
      reads this
      requires !p.Index?
      ensures r.Success? <==> InBounds(p)
      ensures r.Failure? ==> r.error == OutOfBounds
      ensures r.Success? ==> r.value == PositionIndex(p)
    {
      if !InBounds(p) then Failure(OutOfBounds) else Success(PositionIndex(p))
    }

    /** lib/grid.0.ts:202-212: a bare index reads through `Array.prototype.at`;
        any other coordinate reads its cell when in bounds. */
    function CellAt(p: Coords): (r: Option<Item>)
      reads this
      ensures p.Index? ==> (r.Some? <==> -|cells| <= p.i < |cells|)
      ensures p.Index? && p.i < 0 && r.Some? ==> r.value == cells[|cells| + p.i]
      ensures !p.Index? && !InBounds(p) ==> r == None
      ensures !p.Index? && InBounds(p) && Rectangular() ==> r == Some(cells[PositionIndex(p)])
      ensures r.Some? ==> r.value in cells
    {
      if p.Index? then ArrayAt(cells, p.i)
      else if !InBounds(p) then None
      else if 0 <= PositionIndex(p) < |cells| then Some(cells[PositionIndex(p)])
      else None
    }

    /** lib/grid.0.ts:171-175: row `n` (counted from the bottom in `Xy`), or
        `undefined` outside the grid. */
    function RowAt(n: int): (r: Option<seq<Item>>)
      reads this
      requires 0 <= cols
      ensures r.Some? <==> 0 <= n < rows
    {
      if n < 0 || n > rows - 1 then None
      else
        var r := if system == Rc then n else rows - 1 - n;
        assert r * cols <= (r + 1) * cols;
        Some(Slice(cells, r * cols, (r + 1) * cols))
    }

    /** lib/grid.0.ts:213-227: writes one in-bounds cell and returns the value;
        out of bounds it throws and changes nothing. */
    method CellSet(p: Coords, value: Item) returns (r: Result<Item>)
      requires p.Index? || Rectangular()
      modifies this
      ensures rows == old(rows) && cols == old(cols)
      ensures r.Success? <==> old(InBounds(p))
      ensures r.Failure? ==> r.error == OutOfBounds && cells == old(cells)
      ensures r.Success? && p.Index? ==> r.value == value && cells == old(cells)[p.i := value]
      ensures r.Success? && !p.Index? ==> (0 <= PositionIndex(p) < |old(cells)| &&
        r.value == value && cells == old(cells)[PositionIndex(p) := value])
      ensures r.Success? ==> CellAt(p) == Some(value)
    {
      if !InBounds(p) {
        return Failure(OutOfBounds);
      }
      if p.Index? {
        cells := cells[p.i := value];
      } else {
        InBoundsCell(this, p);
        cells := cells[PositionIndex(p) := value];
      }
      return Success(value);
    }

    /** lib/grid.0.ts:151-159: every cell replaced in index order. */
    method Fill(update: Update<Item>)
      requires update.ByCell? ==> 0 < cols || |cells| == 0
      modifies this
      ensures rows == old(rows) && cols == old(cols)
      ensures cells == Updated(old(cells), rows, cols, update)
    {
      var before, height, width := cells, rows, cols;
      var updated := cells;
      for i := 0 to |before|
        invariant |updated| == |before|
        invariant updated[i..] == before[i..]
        invariant updated[..i] == Updated(before, height, width, update)[..i]
      {
        var next := match update
          case Assign(value) => value
          case ByCell(f) => f(updated[i], CoordOf(height, width, i));
        updated := updated[i := next];
      }
      cells := updated;
    }

    /** lib/grid.0.ts:228-230: `fill` with an updater. */
    method CellSetAll(updater: (Item, GridCoord) -> Item)
      requires 0 < cols || |cells| == 0
      modifies this
      ensures rows == old(rows) && cols == old(cols)
      ensures cells == Updated(old(cells), rows, cols, ByCell(updater))
    {
      Fill(ByCell(updater));
    }

    /** lib/grid.0.ts:234-253: `180` reverses the flat array; `90` and `270`
        turn the grid and swap its dimensions; any other angle throws. */
    method Rotate(angle: int) returns (r: Result<Grid<Item>>)
      requires angle == 90 || angle == 270 ==> Rectangular()
      modifies this
      ensures r.Success? <==> angle == 90 || angle == 180 || angle == 270
      ensures r.Success? ==> r.value == this
      ensures r.Failure? ==> r.error == InvalidArgument && cells == old(cells) && rows == old(rows) && cols == old(cols)
      ensures angle == 180 ==> cells == Reversed(old(cells)) && rows == old(rows) && cols == old(cols)
      ensures angle == 90 ==> (|old(cells)| == old(rows) * old(cols) &&
        cells == Rearranged(old(cells), old(rows), old(cols), Turn90) && rows == old(cols) && cols == old(rows))
      ensures angle == 270 ==> (|old(cells)| == old(rows) * old(cols) &&
        cells == Rearranged(old(cells), old(rows), old(cols), Turn270) && rows == old(cols) && cols == old(rows))
    {
      if angle == 180 {
        cells := Reversed(cells);
        return Success(this);
      }
      if angle == 90 || angle == 270 {
        Rearrange(if angle == 90 then Turn90 else Turn270);
        return Success(this);
      }
      return Failure(InvalidArgument);
    }

    /** lib/grid.0.ts:255-267: flips the columns (`Horizontal`) or the rows
        (`Vertical`); any other axis throws. */
    method Mirror(axis: int) returns (r: Result<Grid<Item>>)
      requires axis == Horizontal || axis == Vertical ==> Rectangular()
      modifies this
      ensures rows == old(rows) && cols == old(cols)
      ensures r.Success? <==> axis == Horizontal || axis == Vertical
      ensures r.Success? ==> r.value == this
      ensures r.Failure? ==> r.error == InvalidArgument && cells == old(cells)
      ensures axis == Horizontal ==> cells == Rearranged(old(cells), rows, cols, FlipH)
      ensures axis == Vertical ==> cells == Rearranged(old(cells), rows, cols, FlipV)
    {
      if axis != Horizontal && axis != Vertical {
        return Failure(InvalidArgument);
      }
      Rearrange(if axis == Horizontal then FlipH else FlipV);
      return Success(this);
    }

    /** lib/grid.0.ts:269-297: every cell moved by the offsets, wrapping
        round; a zero offset returns at once. With no rows or no columns the
        `%` gives NaN and the loops run no step, so the empty grid stays
        empty. */
    method Translate(p: Coords) returns (r: Grid<Item>)
      requires !p.Index? && Rectangular()
      modifies this
      ensures r == this && rows == old(rows) && cols == old(cols)
      ensures rows == 0 || cols == 0 ==> cells == old(cells)
      ensures 0 < rows && 0 < cols ==>
        cells == Rearranged(old(cells), rows, cols, Shift(TranslateOffsets(system, rows, cols, p).0, TranslateOffsets(system, rows, cols, p).1))
    {
      if rows == 0 || cols == 0 {
        return this;
      }
      var offsets := TranslateOffsets(system, rows, cols, p);
      if offsets.0 == 0 && offsets.1 == 0 {
        ShiftByZero(cells, rows, cols);
        return this;
      }
      Rearrange(Shift(offsets.0, offsets.1));
      return this;
    }

    /** The nested loops shared by `rotate`, `mirror` and `translate`: a new
        array of the same length, each cell written at its destination. */
    method Rearrange(m: Move)
      requires Rectangular() && Fits(m, rows, cols)
      modifies this
      ensures |old(cells)| == old(rows) * old(cols)
      ensures cells == Rearranged(old(cells), old(rows), old(cols), m)
      ensures rows == MovedRows(m, old(rows), old(cols)) && cols == MovedCols(m, old(rows), old(cols))
    {
      var before, height, width := cells, rows, cols;
      // `new Array(length)`: its initial contents are never read, since every
      // slot is written below.
      var scattered := before;
      NothingPlaced(before, height, width, m, scattered);
      for r := 0 to height
        invariant |scattered| == |before|
        invariant Placed(before, height, width, m, scattered, r, 0)
      {
        scattered := RearrangeRow(before, height, width, m, r, scattered);
      }
      forall j | 0 <= j < |before|
        ensures scattered[j] == Rearranged(before, height, width, m)[j]
      {
        SourceAtFacts(m, height, width, j);
      }
      cells := scattered;
      rows, cols := MovedRows(m, height, width), MovedCols(m, height, width);
    }
  }

  /** The scatter has written every cell that comes before `(r, c)` in
      row-major order. */
  ghost predicate Placed<T>(cells: seq<T>, rows: int, cols: int, m: Move, scattered: seq<T>, r: int, c: int)
    requires Fits(m, rows, cols) && |cells| == rows * cols && |scattered| == |cells|
  {
    forall j :: 0 <= j < |cells| && Before(SourceAt(m, rows, cols, j), r, c) ==>
      scattered[j] == SourceCell(cells, rows, cols, m, j)
  }

  predicate Before(p: (int, int), r: int, c: int)
  {
    p.0 < r || (p.0 == r && p.1 < c)
  }

  /** Before the first write no cell is required to be in place. */
  lemma NothingPlaced<T>(cells: seq<T>, rows: int, cols: int, m: Move, scattered: seq<T>)
    requires Fits(m, rows, cols) && |cells| == rows * cols && |scattered| == |cells|
    ensures Placed(cells, rows, cols, m, scattered, 0, 0)
  {
    forall j | 0 <= j < |cells|
      ensures !Before(SourceAt(m, rows, cols, j), 0, 0)
    {
      SourceAtFacts(m, rows, cols, j);
    }
  }

  /** Writing the cell at `(r, c)` extends the written part by one cell. */
  lemma PlacedStep<T>(cells: seq<T>, rows: int, cols: int, m: Move, scattered: seq<T>, r: int, c: int)
    requires Fits(m, rows, cols) && |cells| == rows * cols && |scattered| == |cells|
    requires 0 <= r < rows && 0 <= c < cols && Placed(cells, rows, cols, m, scattered, r, c)
    ensures 0 <= DestIndex(m, rows, cols, r, c) < |cells| && 0 <= RcIndex(cols, r, c) < |cells|
    ensures Placed(cells, rows, cols, m, scattered[DestIndex(m, rows, cols, r, c) := cells[RcIndex(cols, r, c)]], r, c + 1)
  {
    DestIndexFacts(m, rows, cols, r, c);
    IndexSplit(rows, cols, r, c);
    var k := DestIndex(m, rows, cols, r, c);
    var next := scattered[k := cells[RcIndex(cols, r, c)]];
    forall j | 0 <= j < |cells| && Before(SourceAt(m, rows, cols, j), r, c + 1)
      ensures next[j] == SourceCell(cells, rows, cols, m, j)
    {
      if SourceAt(m, rows, cols, j) == (r, c) {
        SourceAtFacts(m, rows, cols, j);
      }
    }
  }

  /** A finished row: its last column is behind every cell of the row. */
  lemma RowPlaced<T>(cells: seq<T>, rows: int, cols: int, m: Move, scattered: seq<T>, r: int)
    requires Fits(m, rows, cols) && |cells| == rows * cols && |scattered| == |cells|
    requires Placed(cells, rows, cols, m, scattered, r, cols)
    ensures Placed(cells, rows, cols, m, scattered, r + 1, 0)
  {
    forall j | 0 <= j < |cells| && Before(SourceAt(m, rows, cols, j), r + 1, 0)
      ensures scattered[j] == SourceCell(cells, rows, cols, m, j)
    {
      SourceAtFacts(m, rows, cols, j);
    }
  }

  /** The inner loop of the rearrangement for row `r`: each of its cells
      written at its destination, the rows before it kept. */
  method RearrangeRow<T>(cells: seq<T>, rows: int, cols: int, m: Move, r: int, prior: seq<T>) returns (next: seq<T>)
    requires Fits(m, rows, cols) && |cells| == rows * cols && |prior| == |cells| && 0 <= r < rows
    requires Placed(cells, rows, cols, m, prior, r, 0)
    ensures |next| == |cells| && Placed(cells, rows, cols, m, next, r + 1, 0)
  {
    next := prior;
    for c := 0 to cols
      invariant |next| == |cells| && Placed(cells, rows, cols, m, next, r, c)
    {
      PlacedStep(cells, rows, cols, m, next, r, c);
      next := next[DestIndex(m, rows, cols, r, c) := cells[RcIndex(cols, r, c)]];
    }
    RowPlaced(cells, rows, cols, m, next, r);
  }

  /** In a rectangular grid an in-bounds pair or point names a cell of the
      array. */
  lemma InBoundsCell<Item>(g: Grid<Item>, p: Coords)
    requires g.Rectangular() && !p.Index? && g.InBounds(p)
    ensures 0 <= g.PositionIndex(p) < |g.cells|
    ensures g.CellAt(p) == Some(g.cells[g.PositionIndex(p)])
  {
    match p
    case Point(x, y) => IndexSplit(g.rows, g.cols, g.rows - 1 - y, x);
    case Pair(p0, p1) =>
      if g.system == Rc {
        IndexSplit(g.rows, g.cols, p0, p1);
      } else {
        IndexSplit(g.rows, g.cols, g.rows - 1 - p1, p0);
      }
  }

  /** lib/grid.0.ts:88-99, 112-125: in a rectangular grid, every index
      converts to coordinates inside the grid that convert back to it, in
      the grid's own system and as a point. */
  lemma IndexRoundTrip<Item>(g: Grid<Item>, i: int)
    requires g.Rectangular() && 0 <= i < |g.cells|
    ensures 0 < g.cols && g.IndexToCoord(i).Success?
    ensures var k := g.IndexToCoord(i).value;
      0 <= k.r < g.rows && 0 <= k.c < g.cols &&
      g.CoordToIndex(if g.system == Rc then Pair(k.r, k.c) else Pair(k.x, k.y)) == Success(i) &&
      g.CoordToIndex(Point(k.x, k.y)) == Success(i)
  {
    IndexJoin(g.rows, g.cols, i);
    var k := g.IndexToCoord(i).value;
    assert k.r == i / g.cols && k.c == i % g.cols;
  }

  /** lib/grid.0.ts:88-99, 112-125: in a rectangular grid, the index of an
      in-bounds pair or point converts back to the same coordinates. */
  lemma CoordRoundTrip<Item>(g: Grid<Item>, p: Coords)
    requires g.Rectangular() && !p.Index? && g.InBounds(p)
    ensures 0 < g.cols && 0 <= g.PositionIndex(p) < |g.cells| && g.IndexToCoord(g.PositionIndex(p)).Success?
    ensures var k := g.IndexToCoord(g.PositionIndex(p)).value;
      (p.Point? ==> k.x == p.x && k.y == p.y) &&
      (p.Pair? && g.system == Rc ==> k.r == p.p0 && k.c == p.p1) &&
      (p.Pair? && g.system == Xy ==> k.x == p.p0 && k.y == p.p1)
  {
    var r, c := if p.Point? then g.rows - 1 - p.y else if g.system == Rc then p.p0 else g.rows - 1 - p.p1,
                if p.Point? then p.x else if g.system == Rc then p.p1 else p.p0;
    IndexSplit(g.rows, g.cols, r, c);
    assert g.PositionIndex(p) == RcIndex(g.cols, r, c);
  }

  /** lib/grid.0.ts:171-175: in a rectangular grid, an in-range row is the
      `cols` cells of that row, each the cell `cellAt` finds. */
  lemma RowCells<Item>(g: Grid<Item>, n: int)
    requires g.Rectangular() && 0 <= n < g.rows
    ensures g.RowAt(n).Some? && |g.RowAt(n).value| == g.cols
    ensures forall k :: 0 <= k < g.cols ==>
      g.CellAt(if g.system == Rc then Pair(n, k) else Pair(k, n)) == Some(g.RowAt(n).value[k])
  {
    RowLength(g, n);
    var row := g.RowAt(n).value;
    forall k | 0 <= k < g.cols
      ensures g.CellAt(if g.system == Rc then Pair(n, k) else Pair(k, n)) == Some(row[k])
    {
      RowCell(g, n, k);
    }
  }

  /** A row of a rectangular grid: the `cols` cells from its start. */
  lemma RowLength<Item>(g: Grid<Item>, n: int)
    requires g.Rectangular() && 0 <= n < g.rows
    ensures g.RowAt(n).Some? && |g.RowAt(n).value| == g.cols
    ensures var r := if g.system == Rc then n else g.rows - 1 - n;
      0 <= r * g.cols && r * g.cols + g.cols <= |g.cells| &&
      forall k :: 0 <= k < g.cols ==> g.RowAt(n).value[k] == g.cells[r * g.cols + k]
  {
    var r := if g.system == Rc then n else g.rows - 1 - n;
    if 0 < g.cols {
      MultiplyOrder(g.rows, r + 1, g.cols);
    }
    assert (r + 1) * g.cols == r * g.cols + g.cols;
  }

  lemma RowCell<Item>(g: Grid<Item>, n: int, k: int)
    requires g.Rectangular() && 0 <= n < g.rows && 0 <= k < g.cols
    ensures g.RowAt(n).Some? && k < |g.RowAt(n).value|
    ensures g.CellAt(if g.system == Rc then Pair(n, k) else Pair(k, n)) == Some(g.RowAt(n).value[k])
  {
    RowLength(g, n);
    var r := if g.system == Rc then n else g.rows - 1 - n;
    if g.system == Rc {
      InBoundsCell(g, Pair(n, k));
    } else {
      InBoundsCell(g, Pair(k, n));
      assert g.PositionIndex(Pair(k, n)) == r * g.cols + k;
    }
  }
}
