/**
 * The shared offset-grid and coordinate layer (common/src/coordinates.rs):
 * a row-major grid whose cells are addressed by real coordinates shifted by
 * an offset, the `Loci` point type with Manhattan distance, 4-neighbourhoods
 * and reading order, and the `GridLocis` row-major coordinate iterator.
 */
module Coordinates {
  import opened Wrappers

  datatype Loci = Loci(x: int, y: int)

  /** `Loci::add` and `Loci::sub`. */
  function Add(l: Loci, dx: int, dy: int): Loci { Loci(l.x + dx, l.y + dy) }

  function Sub(l: Loci, dx: int, dy: int): Loci { Loci(l.x - dx, l.y - dy) }

  function AddLoci(l: Loci, o: Loci): Loci { Add(l, o.x, o.y) }

  function SubLoci(l: Loci, o: Loci): Loci { Sub(l, o.x, o.y) }

  lemma AddSubInverse(a: Loci, b: Loci)
    ensures SubLoci(AddLoci(a, b), b) == a
    ensures AddLoci(SubLoci(a, b), b) == a
    ensures AddLoci(a, b) == AddLoci(b, a)
  {
  }

  /** Manhattan distance (`Loci::distance`). */
  function Distance(a: Loci, b: Loci): (d: nat)
    ensures d == 0 <==> a == b
    ensures d >= Abs(a.x - b.x) && d >= Abs(a.y - b.y)
  {
    Abs(a.x - b.x) + Abs(a.y - b.y)
  }

  lemma DistanceMetric(a: Loci, b: Loci, c: Loci)
    ensures Distance(a, b) == Distance(b, a)
    ensures Distance(a, c) <= Distance(a, b) + Distance(b, c)
    ensures Distance(AddLoci(a, c), AddLoci(b, c)) == Distance(a, b)
  {
  }

  /** `Loci::neighbors`: right, left, down, up. */
  function Neighbors(l: Loci): (r: seq<Loci>)
    ensures |r| == 4
    ensures forall n :: n in r <==> Distance(l, n) == 1
  {
    var r := [Add(l, 1, 0), Sub(l, 1, 0), Add(l, 0, 1), Sub(l, 0, 1)];
    assert forall n :: Distance(l, n) == 1 ==> n in r by {
      forall n | Distance(l, n) == 1
        ensures n in r
      {
        if n.x == l.x + 1 { assert n == r[0]; }
        else if n.x == l.x - 1 { assert n == r[1]; }
        else if n.y == l.y + 1 { assert n == r[2]; }
        else { assert n == r[3]; }
      }
    }
    r
  }

  /** Filters a sequence of cells down to those inside the half-open box. */
  function KeepInside(cells: seq<Loci>, xMin: int, xMax: int, yMin: int, yMax: int): (r: seq<Loci>)
    ensures forall n :: n in r <==> n in cells && xMin <= n.x < xMax && yMin <= n.y < yMax
    ensures |r| <= |cells|
  {
    if cells == [] then []
    else
      var rest := KeepInside(cells[1..], xMin, xMax, yMin, yMax);
      var n := cells[0];
      if xMin <= n.x < xMax && yMin <= n.y < yMax then [n] + rest else rest
  }

  /** `Loci::valid_neighbors`: the neighbours that lie on `grid`. */
  function ValidNeighbors<T>(l: Loci, grid: Grid<T>): (r: seq<Loci>)
    ensures forall n :: n in r <==> Distance(l, n) == 1 && grid.Contains(n)
    ensures |r| <= 4
  {
    KeepInside(Neighbors(l), grid.xMin, grid.XMax(), grid.yMin, grid.YMax())
  }

  /** `Ord for Loci`: reading order, row (y) first, then column (x). */
  function Cmp(a: Loci, b: Loci): Ordering
  {
    CmpInt(a.y, b.y).Then(CmpInt(a.x, b.x))
  }

  predicate ReadingLess(a: Loci, b: Loci)
  {
    Cmp(a, b) == Less
  }

  lemma CmpTotalOrder(a: Loci, b: Loci, c: Loci)
    ensures Cmp(a, b) == Equal <==> a == b
    ensures Cmp(a, b) == Less <==> Cmp(b, a) == Greater
    ensures ReadingLess(a, b) <==> a.y < b.y || (a.y == b.y && a.x < b.x)
    ensures ReadingLess(a, b) && ReadingLess(b, c) ==> ReadingLess(a, c)
    ensures a == b || ReadingLess(a, b) || ReadingLess(b, a)
  {
  }

  /** The first `n` cells of row `y`, starting at column `xMin`. */
  function Row(y: int, xMin: int, n: nat): seq<Loci>
  {
    seq(n, i => Loci(xMin + i, y))
  }

  /** All cells of the first `rows` rows of a `width`-wide grid, row by row. */
  function RowMajor(xMin: int, yMin: int, width: nat, rows: nat): seq<Loci>
  {
    if rows == 0 then [] else RowMajor(xMin, yMin, width, rows - 1) + Row(yMin + rows - 1, xMin, width)
  }

  /**
   * The row-major enumeration holds exactly the cells of the box, and is
   * strictly increasing in reading order, so no cell appears twice.
   */
  lemma {:induction false} RowMajorSpec(xMin: int, yMin: int, width: nat, rows: nat)
    ensures forall l :: l in RowMajor(xMin, yMin, width, rows) <==>
      xMin <= l.x < xMin + width && yMin <= l.y < yMin + rows
    ensures forall i, j :: 0 <= i < j < |RowMajor(xMin, yMin, width, rows)| ==>
      ReadingLess(RowMajor(xMin, yMin, width, rows)[i], RowMajor(xMin, yMin, width, rows)[j])
  {
    if rows > 0 {
      RowMajorSpec(xMin, yMin, width, rows - 1);
      var prev := RowMajor(xMin, yMin, width, rows - 1);
      var row := Row(yMin + rows - 1, xMin, width);
      assert RowMajor(xMin, yMin, width, rows) == prev + row;
      forall l: Loci | xMin <= l.x < xMin + width && yMin <= l.y < yMin + rows
        ensures l in prev + row
      {
        if l.y < yMin + rows - 1 {
          assert l in prev;
        } else {
          assert l == row[l.x - xMin];
        }
      }
    }
  }

  /** In a sequence in reading order, a cell before another sits at a smaller index. */
  lemma ReadingLessIndex(cells: seq<Loci>, i: nat, j: nat)
    requires forall a, b :: 0 <= a < b < |cells| ==> ReadingLess(cells[a], cells[b])
    requires i < |cells| && j < |cells| && ReadingLess(cells[i], cells[j])
    ensures i < j
  {
  }

  lemma {:induction false} RowMajorNoColumns(xMin: int, yMin: int, rows: nat)
    ensures RowMajor(xMin, yMin, 0, rows) == []
  {
    if rows > 0 {
      RowMajorNoColumns(xMin, yMin, rows - 1);
    }
  }

  /**
   * `Grid<T>`: `height` rows of `width` cells; the cell for real coordinate
   * (x, y) is stored at `rows[y - yMin][x - xMin]`.
   */
  class Grid<T> {
    const width: nat
    const height: nat
    const xMin: int
    const yMin: int
    var rows: seq<seq<T>>

    ghost predicate Valid()
      reads this
    {
      |rows| == height && forall r :: 0 <= r < |rows| ==> |rows[r]| == width
    }

    /** Exclusive upper bounds (`x_max`, `y_max`). */
    function XMax(): int { xMin + width }

    function YMax(): int { yMin + height }

    function RawX(x: int): int { x - xMin }

    function RealX(raw: int): int { raw + xMin }

    function RawY(y: int): int { y - yMin }

    function RealY(raw: int): int { raw + yMin }

    predicate Contains(l: Loci)
    {
      xMin <= l.x < XMax() && yMin <= l.y < YMax()
    }

    lemma RawRealInverse(x: int, y: int)
      ensures RealX(RawX(x)) == x && RawX(RealX(x)) == x
      ensures RealY(RawY(y)) == y && RawY(RealY(y)) == y
      ensures xMin <= x < XMax() <==> 0 <= RawX(x) < width
      ensures yMin <= y < YMax() <==> 0 <= RawY(y) < height
    {
    }

    /** `Grid::get` / `get_loci`. */
    function Get(l: Loci): T
      reads this
      requires Valid() && Contains(l)
    {
      rows[RawY(l.y)][RawX(l.x)]
    }

    /** `Grid::new_offset`: every cell holds `default`. */
    constructor NewOffset(default: T, width: nat, height: nat, xOffset: int, yOffset: int)
      ensures Valid()
      ensures this.width == width && this.height == height
      ensures this.xMin == xOffset && this.yMin == yOffset
      ensures forall l :: Contains(l) ==> Get(l) == default
    {
      this.width := width;
      this.height := height;
      this.xMin := xOffset;
      this.yMin := yOffset;
      rows := seq(height, _ => seq(width, _ => default));
    }

    /** `Grid::clone`: the same frame and the same cells, in a new grid. */
    constructor Copy(other: Grid<T>)
      requires other.Valid()
      ensures Valid()
      ensures width == other.width && height == other.height && xMin == other.xMin && yMin == other.yMin
      ensures rows == other.rows
    {
      width := other.width;
      height := other.height;
      xMin := other.xMin;
      yMin := other.yMin;
      rows := other.rows;
    }

    /** `Grid::set` / `set_loci`: only the addressed cell changes. */
    method Set(l: Loci, v: T)
      modifies this
      requires Valid() && Contains(l)
      ensures Valid()
      ensures Get(l) == v
      ensures forall m :: Contains(m) && m != l ==> Get(m) == old(Get(m))
      ensures rows == old(rows)[RawY(l.y) := old(rows)[RawY(l.y)][RawX(l.x) := v]]
    {
      var ry := RawY(l.y);
      rows := rows[ry := rows[ry][RawX(l.x) := v]];
    }

    /** `Grid::locis`: a fresh row-major coordinate iterator over this grid. */
    method Locis() returns (it: GridLocis)
      ensures fresh(it) && it.Valid() && it.yielded == []
      ensures it.width == width && it.height == height && it.xMin == xMin && it.yMin == yMin
    {
      it := new GridLocis(width, height, xMin, yMin);
    }
  }

  /**
   * `GridLocis`: walks (x, y) from (xMin, yMin) along each row, wrapping to
   * the next row at `x_max`; `yielded` records what it has produced.
   */
  class GridLocis {
    const width: nat
    const height: nat
    const xMin: int
    const yMin: int
    var x: int
    var y: int
    ghost var yielded: seq<Loci>

    ghost predicate Valid()
      reads this
    {
      if width == 0 then x == xMin && y == yMin && yielded == []
      else
        xMin <= x < xMin + width && yMin <= y <= yMin + height &&
        (y == yMin + height ==> x == xMin) &&
        yielded == RowMajor(xMin, yMin, width, y - yMin) + Row(y, xMin, x - xMin)
    }

    /** `GridLocis::loci`: the current coordinate while it is inside the grid. */
    function Current(): (r: Option<Loci>)
      reads this
      ensures r.Some? <==> x < xMin + width && y < yMin + height
    {
      if x < xMin + width && y < yMin + height then Some(Loci(x, y)) else None
    }

    constructor (width: nat, height: nat, xOffset: int, yOffset: int)
      ensures Valid() && yielded == []
      ensures this.width == width && this.height == height
      ensures this.xMin == xOffset && this.yMin == yOffset
    {
      this.width := width;
      this.height := height;
      this.xMin := xOffset;
      this.yMin := yOffset;
      x := xOffset;
      y := yOffset;
      yielded := [];
    }

    /** Everything the iterator has left to produce, in order. */
    ghost function Remaining(): seq<Loci>
      reads this
      requires Valid()
    {
      var all := RowMajor(xMin, yMin, width, height);
      if |yielded| <= |all| then all[|yielded|..] else []
    }

    /** `Iterator::next` for `GridLocis`. */
    method Next() returns (r: Option<Loci>)
      modifies this
      requires Valid()
      ensures Valid()
      ensures r == old(Current())
      ensures r.Some? ==> yielded == old(yielded) + [r.value]
      ensures r.None? ==> yielded == old(yielded) == RowMajor(xMin, yMin, width, height)
      ensures r.Some? ==> y > old(y) || (y == old(y) && x > old(x))
      ensures r.None? ==> x == old(x) && y == old(y)
    {
      r := Current();
      if r.Some? {
        yielded := yielded + [Loci(x, y)];
        x := x + 1;
        if x >= xMin + width {
          assert Row(y, xMin, x - xMin) == Row(y, xMin, width);
          y := y + 1;
          x := xMin;
          assert Row(y, xMin, 0) == [];
        } else {
          assert Row(y, xMin, x - xMin) == Row(y, xMin, x - 1 - xMin) + [Loci(x - 1, y)];
        }
      } else if width > 0 {
        assert Row(y, xMin, x - xMin) == [];
      } else {
        RowMajorNoColumns(xMin, yMin, height);
      }
    }
  }

  /**
   * Runs a `GridLocis` to exhaustion: the result is the row-major
   * enumeration of the box, so (by `RowMajorSpec`) every in-grid coordinate
   * appears exactly once, in reading order.
   */
  method CollectLocis(width: nat, height: nat, xOffset: int, yOffset: int) returns (out: seq<Loci>)
    ensures out == RowMajor(xOffset, yOffset, width, height)
  {
    var it := new GridLocis(width, height, xOffset, yOffset);
    out := [];
    var next := it.Next();
    while next.Some?
      invariant it.Valid() && it.yielded == out + (if next.Some? then [next.value] else [])
      invariant it.width == width && it.height == height && it.xMin == xOffset && it.yMin == yOffset
      invariant next.None? ==> it.yielded == RowMajor(xOffset, yOffset, width, height)
      decreases yOffset + height - it.y, xOffset + width - it.x, if next.Some? then 1 else 0
    {
      out := out + [next.value];
      next := it.Next();
    }
  }
}
