/**
 * The older column-major grid (lib/src/coordinates.rs, and the same code
 * under `Cord` naming in lib/src/grid.rs): `width` columns of `height`
 * cells, cell (x, y) stored at `columns[x - xOffset][y - yOffset]`, plus the
 * `GridCords` iterator, which walks down a column before moving right.
 * Points and their arithmetic are `Coordinates.Loci`; the `Loci`/`Cord`
 * structs of these files carry the same fields and the same `add`, `sub`
 * and Manhattan `distance`.
 */
module ColumnGrid {
  import opened Wrappers
  import C = Coordinates

  class Grid<T> {
    const width: nat
    const height: nat
    const xOffset: int
    const yOffset: int
    var columns: seq<seq<T>>

    ghost predicate Valid()
      reads this
    {
      |columns| == width && forall c :: 0 <= c < |columns| ==> |columns[c]| == height
    }

    predicate Contains(l: C.Loci)
    {
      xOffset <= l.x < xOffset + width && yOffset <= l.y < yOffset + height
    }

    /** `Grid::get`: column `x - x_offset`, then row `y - y_offset`. */
    function Get(l: C.Loci): T
      reads this
      requires Valid() && Contains(l)
    {
      columns[l.x - xOffset][l.y - yOffset]
    }

    /** `Grid::new_offset`: `width` columns each holding `height` copies of `default`. */
    constructor NewOffset(default: T, width: nat, height: nat, xOffset: int, yOffset: int)
      ensures Valid()
      ensures this.width == width && this.height == height
      ensures this.xOffset == xOffset && this.yOffset == yOffset
      ensures forall l :: Contains(l) ==> Get(l) == default
    {
      this.width := width;
      this.height := height;
      this.xOffset := xOffset;
      this.yOffset := yOffset;
      columns := seq(width, _ => seq(height, _ => default));
    }

    /** `Grid::set`: only the addressed cell changes. */
    method Set(l: C.Loci, v: T)
      modifies this
      requires Valid() && Contains(l)
      ensures Valid()
      ensures Get(l) == v
      ensures forall m :: Contains(m) && m != l ==> Get(m) == old(Get(m))
      ensures columns == old(columns)[l.x - xOffset := old(columns)[l.x - xOffset][l.y - yOffset := v]]
    {
      var cx := l.x - xOffset;
      columns := columns[cx := columns[cx][l.y - yOffset := v]];
    }
  }

  /** What `GridCords` yields as written: column `xOffset` only, rows `yOffset..height-1`. */
  function CordsAsWritten(width: int, height: int, xOffset: int, yOffset: int): seq<C.Loci>
  {
    if xOffset < width && yOffset < height then seq(height - yOffset, i => C.Loci(xOffset, yOffset + i)) else []
  }

  /**
   * `GridCords` as written: bounds are compared against the raw `width` and
   * `height` (offsets are not added), and the column only wraps once
   * `y > height`, which a yielded `y < height` can never reach after `y += 1`.
   */
  class GridCords {
    const width: int
    const height: int
    const yOffset: int
    const xStart: int
    var x: int
    var y: int
    ghost var yielded: seq<C.Loci>

    ghost predicate Valid()
      reads this
    {
      x == xStart &&
      if xStart < width && yOffset < height then
        yOffset <= y <= height && yielded == CordsAsWritten(width, y, xStart, yOffset)
      else
        y == yOffset && yielded == []
    }

    /** `GridCords::loci`. */
    function Current(): (r: Option<C.Loci>)
      reads this
      ensures r.Some? <==> x < width && y < height
    {
      if x < width && y < height then Some(C.Loci(x, y)) else None
    }

    /** `GridCords::new` for a grid with the given shape and offsets. */
    constructor (width: nat, height: nat, xOffset: int, yOffset: int)
      ensures Valid() && yielded == []
      ensures this.width == width && this.height == height
      ensures this.xStart == xOffset && this.yOffset == yOffset
    {
      this.width := width;
      this.height := height;
      this.yOffset := yOffset;
      this.xStart := xOffset;
      x := xOffset;
      y := yOffset;
      yielded := [];
    }

    /** `Iterator::next` for `GridCords`, exactly as written. */
    method Next() returns (r: Option<C.Loci>)
      modifies this
      requires Valid()
      ensures Valid()
      ensures r == old(Current())
      ensures r.Some? ==> yielded == old(yielded) + [r.value] && y == old(y) + 1
      ensures r.None? ==> yielded == old(yielded) == CordsAsWritten(width, height, xStart, yOffset)
      ensures r.None? ==> y == old(y)
    {
      r := Current();
      if r.Some? {
        yielded := yielded + [C.Loci(x, y)];
        var nextY := y + 1;
        x, y := if nextY > height then x + 1 else x, if nextY > height then yOffset else nextY;
      }
    }
  }

  /** Drains an as-written `GridCords` for a grid of the given shape. */
  method CollectCords(width: nat, height: nat, xOffset: int, yOffset: int) returns (out: seq<C.Loci>)
    ensures out == CordsAsWritten(width, height, xOffset, yOffset)
  {
    var it := new GridCords(width, height, xOffset, yOffset);
    out := [];
    var next := it.Next();
    while next.Some?
      invariant it.Valid() && it.yielded == out + (if next.Some? then [next.value] else [])
      invariant it.width == width && it.height == height && it.xStart == xOffset && it.yOffset == yOffset
      invariant next.None? ==> it.yielded == CordsAsWritten(width, height, xOffset, yOffset)
      invariant next.Some? ==> it.y <= height
      decreases if next.Some? then height - it.y + 1 else 0
    {
      out := out + [next.value];
      next := it.Next();
    }
  }

  /**
   * The discrepancy: on a 2 x 2 grid without offsets the iterator never
   * reaches column 1, although (1, 0) is a cell of the grid.
   */
  lemma CordsMissesSecondColumn()
    ensures CordsAsWritten(2, 2, 0, 0) == [C.Loci(0, 0), C.Loci(0, 1)]
    ensures C.Loci(1, 0) !in CordsAsWritten(2, 2, 0, 0)
  {
    assert CordsAsWritten(2, 2, 0, 0)[0] == C.Loci(0, 0);
    assert CordsAsWritten(2, 2, 0, 0)[1] == C.Loci(0, 1);
  }

  /** The first `n` cells of column `x`, from row `yMin` down. */
  function Column(x: int, yMin: int, n: nat): seq<C.Loci>
  {
    seq(n, i => C.Loci(x, yMin + i))
  }

  /** The first `cols` columns of a `height`-tall grid, column by column. */
  function ColumnMajor(xMin: int, yMin: int, height: nat, cols: nat): seq<C.Loci>
  {
    if cols == 0 then [] else ColumnMajor(xMin, yMin, height, cols - 1) + Column(xMin + cols - 1, yMin, height)
  }

  /** Column-major order: x first, then y. */
  predicate ColumnLess(a: C.Loci, b: C.Loci)
  {
    a.x < b.x || (a.x == b.x && a.y < b.y)
  }

  /**
   * The intended enumeration holds exactly the cells of the box and is
   * strictly increasing in column-major order, so each appears once.
   */
  lemma {:induction false} ColumnMajorSpec(xMin: int, yMin: int, height: nat, cols: nat)
    ensures forall l :: l in ColumnMajor(xMin, yMin, height, cols) <==>
      xMin <= l.x < xMin + cols && yMin <= l.y < yMin + height
    ensures forall i, j :: 0 <= i < j < |ColumnMajor(xMin, yMin, height, cols)| ==>
      ColumnLess(ColumnMajor(xMin, yMin, height, cols)[i], ColumnMajor(xMin, yMin, height, cols)[j])
  {
    if cols > 0 {
      ColumnMajorSpec(xMin, yMin, height, cols - 1);
      var prev := ColumnMajor(xMin, yMin, height, cols - 1);
      var col := Column(xMin + cols - 1, yMin, height);
      forall l: C.Loci | xMin <= l.x < xMin + cols && yMin <= l.y < yMin + height
        ensures l in prev + col
      {
        if l.x < xMin + cols - 1 {
          assert l in prev;
        } else {
          assert l == col[l.y - yMin];
        }
      }
    }
  }

  lemma {:induction false} ColumnMajorNoRows(xMin: int, yMin: int, cols: nat)
    ensures ColumnMajor(xMin, yMin, 0, cols) == []
  {
    if cols > 0 {
      ColumnMajorNoRows(xMin, yMin, cols - 1);
    }
  }

  /**
   * `GridCords` corrected: bounds include the offsets and the column wraps
   * when `y` reaches `y_offset + height`, so it walks the whole grid.
   */
  class FixedCords {
    const width: nat
    const height: nat
    const xOffset: int
    const yOffset: int
    var x: int
    var y: int
    ghost var yielded: seq<C.Loci>

    ghost predicate Valid()
      reads this
    {
      if height == 0 then x == xOffset && y == yOffset && yielded == []
      else
        yOffset <= y < yOffset + height && xOffset <= x <= xOffset + width &&
        (x == xOffset + width ==> y == yOffset) &&
        yielded == ColumnMajor(xOffset, yOffset, height, x - xOffset) + Column(x, yOffset, y - yOffset)
    }

    function Current(): (r: Option<C.Loci>)
      reads this
      ensures r.Some? <==> x < xOffset + width && y < yOffset + height
    {
      if x < xOffset + width && y < yOffset + height then Some(C.Loci(x, y)) else None
    }

    constructor (width: nat, height: nat, xOffset: int, yOffset: int)
      ensures Valid() && yielded == []
      ensures this.width == width && this.height == height
      ensures this.xOffset == xOffset && this.yOffset == yOffset
    {
      this.width := width;
      this.height := height;
      this.xOffset := xOffset;
      this.yOffset := yOffset;
      x := xOffset;
      y := yOffset;
      yielded := [];
    }

    method Next() returns (r: Option<C.Loci>)
      modifies this
      requires Valid()
      ensures Valid()
      ensures r == old(Current())
      ensures r.Some? ==> yielded == old(yielded) + [r.value]
      ensures r.None? ==> yielded == old(yielded) == ColumnMajor(xOffset, yOffset, height, width)
      ensures r.Some? ==> x > old(x) || (x == old(x) && y > old(y))
      ensures r.None? ==> x == old(x) && y == old(y)
    {
      r := Current();
      if r.Some? {
        yielded := yielded + [C.Loci(x, y)];
        y := y + 1;
        if y >= yOffset + height {
          assert Column(x, yOffset, y - yOffset) == Column(x, yOffset, height);
          x := x + 1;
          y := yOffset;
          assert Column(x, yOffset, 0) == [];
        } else {
          assert Column(x, yOffset, y - yOffset) == Column(x, yOffset, y - 1 - yOffset) + [C.Loci(x, y - 1)];
        }
      } else if height > 0 {
        assert Column(x, yOffset, y - yOffset) == [];
      } else {
        ColumnMajorNoRows(xOffset, yOffset, width);
      }
    }
  }

  /**
   * Drains the corrected iterator: the result is the column-major
   * enumeration, which by `ColumnMajorSpec` visits every cell exactly once.
   */
  method CollectFixedCords(width: nat, height: nat, xOffset: int, yOffset: int) returns (out: seq<C.Loci>)
    ensures out == ColumnMajor(xOffset, yOffset, height, width)
  {
    var it := new FixedCords(width, height, xOffset, yOffset);
    out := [];
    var next := it.Next();
    while next.Some?
      invariant it.Valid() && it.yielded == out + (if next.Some? then [next.value] else [])
      invariant it.width == width && it.height == height && it.xOffset == xOffset && it.yOffset == yOffset
      invariant next.None? ==> it.yielded == ColumnMajor(xOffset, yOffset, height, width)
      decreases xOffset + width - it.x, yOffset + height - it.y, if next.Some? then 1 else 0
    {
      out := out + [next.value];
      next := it.Next();
    }
  }
}
