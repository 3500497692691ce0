/**
 * Day 17 (17/src/shared.rs): water falls from a spring through a vertical
 * slice of sand and clay.  Falling water drops onto sand below it; on
 * clay or settled water it spreads sideways over ground that has
 * something beneath it, and a stretch walled in by clay on both sides
 * settles.  Ticks repeat until one changes nothing; then the wet cells
 * are counted.
 *
 * The grid is row-major (`Coordinates.Grid`).  The specification below
 * works on the grid's raw rows: `rows[y][x]` for raw coordinates.
 */
module ReservoirResearch {
  import opened Wrappers
  import opened Coordinates

  datatype Ground = Clay | Sand | WaterFalling | WaterLocked

  predicate Water(g: Ground) { g == WaterFalling || g == WaterLocked }

  /** What falling water can stand on. */
  predicate Solid(g: Ground) { g == Clay || g == WaterLocked }

  /** How a cell may change: sand gets wet, falling water settles, nothing else. */
  predicate Rises(a: Ground, b: Ground)
  {
    a == b || (a == Sand && Water(b)) || (a == WaterFalling && b == WaterLocked)
  }

  type Rows = seq<seq<Ground>>

  /** Every row has `width` cells. */
  predicate Shape(rows: Rows, width: nat)
  {
    forall y :: 0 <= y < |rows| ==> |rows[y]| == width
  }

  /** Each cell of `b` has risen from the same cell of `a`. */
  predicate AllRise(a: Rows, b: Rows)
  {
    |a| == |b| && forall y :: 0 <= y < |a| ==> |a[y]| == |b[y]| && forall x :: 0 <= x < |a[y]| ==> Rises(a[y][x], b[y][x])
  }

  /** Settled water rests on clay or on settled water, never on the bottom row. */
  predicate Supported(rows: Rows)
  {
    forall y, x :: 0 <= y < |rows| && 0 <= x < |rows[y]| && rows[y][x] == WaterLocked ==>
      y + 1 < |rows| && x < |rows[y + 1]| && Solid(rows[y + 1][x])
  }

  // ---------------------------------------------------------------------
  // fill_ledge
  // ---------------------------------------------------------------------

  /**
   * Where a sideways scan stopped: `found` is the last cell with something
   * solid beneath it (`min_found` / `max_found`), `wall` whether clay
   * stopped it, and `painted` the last cell it turned into falling water.
   */
  datatype Reach = Reach(found: int, wall: bool, painted: int)

  /** The leftward scan of `fill_ledge`, at cell x and going down to 0. */
  function ScanLeft(row: seq<Ground>, below: seq<Ground>, x: int): (r: Reach)
    requires |below| == |row| && -1 <= x < |row|
    ensures 0 <= r.painted <= r.found <= x + 1
    ensures r.wall ==> r.painted == r.found && 0 < r.found && row[r.found - 1] == Clay
    decreases x + 1
  {
    if x < 0 then Reach(0, false, 0)
    else match row[x]
      case Sand | WaterFalling =>
        if Solid(below[x]) then ScanLeft(row, below, x - 1) else Reach(x + 1, false, x)
      case Clay => Reach(x + 1, true, x + 1)
      case WaterLocked => Reach(x + 1, false, x + 1)
  }

  /** The rightward scan of `fill_ledge`, at cell x and going up to the last cell. */
  function ScanRight(row: seq<Ground>, below: seq<Ground>, x: int): (r: Reach)
    requires |below| == |row| && 0 <= x <= |row|
    ensures x - 1 <= r.found <= r.painted < |row|
    ensures r.wall ==> r.painted == r.found && r.found + 1 < |row| && row[r.found + 1] == Clay
    decreases |row| - x
  {
    if x == |row| then Reach(|row| - 1, false, |row| - 1)
    else match row[x]
      case Sand | WaterFalling =>
        if Solid(below[x]) then ScanRight(row, below, x + 1) else Reach(x - 1, false, x)
      case Clay => Reach(x - 1, true, x - 1)
      case WaterLocked => Reach(x - 1, false, x - 1)
  }

  /** The leftward scan paints only sand and falling water, and finds only cells with something solid beneath. */
  lemma {:induction false} ScanLeftCells(row: seq<Ground>, below: seq<Ground>, x: int)
    requires |below| == |row| && -1 <= x < |row|
    ensures var r := ScanLeft(row, below, x);
      (forall i :: r.painted <= i <= x ==> row[i] == Sand || row[i] == WaterFalling) &&
      (forall i :: r.found <= i <= x ==> Solid(below[i]))
    decreases x + 1
  {
    if x >= 0 && (row[x] == Sand || row[x] == WaterFalling) && Solid(below[x]) {
      ScanLeftCells(row, below, x - 1);
    }
  }

  /** The same for the rightward scan. */
  lemma {:induction false} ScanRightCells(row: seq<Ground>, below: seq<Ground>, x: int)
    requires |below| == |row| && 0 <= x <= |row|
    ensures var r := ScanRight(row, below, x);
      (forall i :: x <= i <= r.painted ==> row[i] == Sand || row[i] == WaterFalling) &&
      (forall i :: x <= i <= r.found ==> Solid(below[i]))
    decreases |row| - x
  {
    if x < |row| && (row[x] == Sand || row[x] == WaterFalling) && Solid(below[x]) {
      ScanRightCells(row, below, x + 1);
    }
  }

  /** `row` with the cells lo..hi-1 set to g. */
  function Paint(row: seq<Ground>, lo: int, hi: int, g: Ground): (r: seq<Ground>)
    ensures |r| == |row|
  {
    seq(|row|, i requires 0 <= i < |row| => if lo <= i < hi then g else row[i])
  }

  /**
   * `fill_ledge` from cell s of `row`, `below` being the row beneath: both
   * scans paint falling water, and when clay walls both ends the stretch
   * between the last supported cells settles.
   */
  function FillRow(row: seq<Ground>, below: seq<Ground>, s: nat): seq<Ground>
    requires |below| == |row| && s < |row|
  {
    var l := ScanLeft(row, below, s - 1);
    var r := ScanRight(row, below, s + 1);
    var wet := Paint(Paint(row, l.painted, s, WaterFalling), s + 1, r.painted + 1, WaterFalling);
    if l.wall && r.wall then Paint(wet, l.found, r.found + 1, WaterLocked) else wet
  }

  /** What `fill_ledge` returns: some sand got wet, or a stretch settled. */
  function FillActs(row: seq<Ground>, below: seq<Ground>, s: nat): bool
    requires |below| == |row| && s < |row|
  {
    var l := ScanLeft(row, below, s - 1);
    var r := ScanRight(row, below, s + 1);
    Sand in row[l.painted..s] || Sand in row[s + 1..r.painted + 1] || (l.wall && r.wall)
  }

  /** One cell of a fill. */
  lemma FillAt(row: seq<Ground>, below: seq<Ground>, s: nat, i: nat)
    requires |below| == |row| && s < |row| && i < |row|
    ensures var l, r := ScanLeft(row, below, s - 1), ScanRight(row, below, s + 1);
      |FillRow(row, below, s)| == |row| &&
      FillRow(row, below, s)[i] ==
        if l.wall && r.wall && l.found <= i <= r.found then WaterLocked
        else if l.painted <= i < s || s < i <= r.painted then WaterFalling
        else row[i]
  {
  }

  /** From falling water, a fill only raises cells. */
  lemma FillRises(row: seq<Ground>, below: seq<Ground>, s: nat)
    requires |below| == |row| && s < |row| && row[s] == WaterFalling
    ensures var r := FillRow(row, below, s);
      |r| == |row| && forall i :: 0 <= i < |row| ==> Rises(row[i], r[i])
  {
    ScanLeftCells(row, below, s - 1);
    ScanRightCells(row, below, s + 1);
    forall i | 0 <= i < |row|
      ensures Rises(row[i], FillRow(row, below, s)[i])
    {
      FillAt(row, below, s, i);
    }
  }

  /** Standing on something solid, a fill settles only cells with something solid beneath. */
  lemma FillSettlesSupported(row: seq<Ground>, below: seq<Ground>, s: nat)
    requires |below| == |row| && s < |row| && Solid(below[s])
    ensures var r := FillRow(row, below, s);
      |r| == |row| && forall i :: 0 <= i < |row| && r[i] == WaterLocked && row[i] != WaterLocked ==> Solid(below[i])
  {
    ScanLeftCells(row, below, s - 1);
    ScanRightCells(row, below, s + 1);
    forall i | 0 <= i < |row| && FillRow(row, below, s)[i] == WaterLocked && row[i] != WaterLocked
      ensures Solid(below[i])
    {
      FillAt(row, below, s, i);
    }
  }

  /** From falling water, `fill_ledge` reports acting exactly when it changed the row. */
  lemma FillActsChanges(row: seq<Ground>, below: seq<Ground>, s: nat)
    requires |below| == |row| && s < |row| && row[s] == WaterFalling
    ensures FillActs(row, below, s) <==> FillRow(row, below, s) != row
  {
    ScanLeftCells(row, below, s - 1);
    ScanRightCells(row, below, s + 1);
    var l := ScanLeft(row, below, s - 1);
    var rt := ScanRight(row, below, s + 1);
    var r := FillRow(row, below, s);
    if FillActs(row, below, s) {
      if l.wall && rt.wall {
        FillAt(row, below, s, s);
      } else if Sand in row[l.painted..s] {
        var i :| l.painted <= i < s && row[i] == Sand;
        FillAt(row, below, s, i);
      } else {
        var i :| s + 1 <= i < rt.painted + 1 && row[i] == Sand;
        FillAt(row, below, s, i);
      }
    } else {
      forall i | 0 <= i < |row|
        ensures r[i] == row[i]
      {
        FillAt(row, below, s, i);
        if l.painted <= i < s {
          assert row[l.painted..s][i - l.painted] == row[i];
        } else if s + 1 <= i <= rt.painted {
          assert row[s + 1..rt.painted + 1][i - s - 1] == row[i];
        }
      }
    }
  }

  // ---------------------------------------------------------------------
  // tick
  // ---------------------------------------------------------------------

  /** A grid after some steps, and whether any of them acted. */
  datatype Outcome = Outcome(rows: Rows, acted: bool)

  /**
   * `tick`'s body at raw cell (x, y): falling water above sand extends
   * down; on clay or settled water it fills its ledge unless it has
   * falling water on both sides.
   */
  function Step(rows: Rows, width: nat, x: nat, y: nat): (r: Outcome)
    requires Shape(rows, width) && x < width && y < |rows|
    ensures Shape(r.rows, width) && |r.rows| == |rows|
  {
    if rows[y][x] != WaterFalling || y + 1 >= |rows| then Outcome(rows, false)
    else match rows[y + 1][x]
      case Clay | WaterLocked =>
        if x == 0 || rows[y][x - 1] != WaterFalling || x + 1 >= width || rows[y][x + 1] != WaterFalling then
          Outcome(rows[y := FillRow(rows[y], rows[y + 1], x)], FillActs(rows[y], rows[y + 1], x))
        else Outcome(rows, false)
      case Sand => Outcome(rows[y + 1 := rows[y + 1][x := WaterFalling]], true)
      case WaterFalling => Outcome(rows, false)
  }

  /** Steps down column x from row y to the bottom. */
  function ColumnFrom(rows: Rows, width: nat, x: nat, y: nat): (r: Outcome)
    requires Shape(rows, width) && x < width
    ensures Shape(r.rows, width) && |r.rows| == |rows|
    decreases |rows| - y
  {
    if y >= |rows| then Outcome(rows, false)
    else
      var s := Step(rows, width, x, y);
      var c := ColumnFrom(s.rows, width, x, y + 1);
      Outcome(c.rows, s.acted || c.acted)
  }

  /** Columns x to the last, each from the top down. */
  function ColumnsFrom(rows: Rows, width: nat, x: nat): (r: Outcome)
    requires Shape(rows, width)
    ensures Shape(r.rows, width) && |r.rows| == |rows|
    decreases width - x
  {
    if x >= width then Outcome(rows, false)
    else
      var c := ColumnFrom(rows, width, x, 0);
      var r := ColumnsFrom(c.rows, width, x + 1);
      Outcome(r.rows, c.acted || r.acted)
  }

  /** `tick`: every cell in column-major order, each seeing the earlier ones' changes. */
  function Tick(rows: Rows, width: nat): Outcome
    requires Shape(rows, width)
  {
    ColumnsFrom(rows, width, 0)
  }

  lemma RiseRefl(a: Rows)
    ensures AllRise(a, a)
  {
  }

  lemma RiseTrans(a: Rows, b: Rows, c: Rows)
    requires AllRise(a, b) && AllRise(b, c)
    ensures AllRise(a, c)
  {
  }

  /** Rising is antisymmetric: what rose and rose back did not change. */
  lemma RiseAntisym(a: Rows, b: Rows)
    requires AllRise(a, b) && AllRise(b, a)
    ensures a == b
  {
    forall y | 0 <= y < |a|
      ensures a[y] == b[y]
    {
    }
  }

  /** Water that only rose stays supported when every newly settled cell is. */
  lemma SupportKept(a: Rows, b: Rows)
    requires Supported(a) && AllRise(a, b)
    requires forall y, x :: 0 <= y < |b| && 0 <= x < |b[y]| && b[y][x] == WaterLocked && a[y][x] != WaterLocked ==>
      y + 1 < |b| && x < |b[y + 1]| && Solid(b[y + 1][x])
    ensures Supported(b)
  {
    forall y, x | 0 <= y < |b| && 0 <= x < |b[y]| && b[y][x] == WaterLocked && a[y][x] == WaterLocked
      ensures y + 1 < |b| && x < |b[y + 1]| && Solid(b[y + 1][x])
    {
      assert Rises(a[y + 1][x], b[y + 1][x]);
    }
  }

  /** Setting one cell changes only that cell. */
  lemma SetRises(rows: Rows, x: nat, y: nat, g: Ground)
    requires y < |rows| && x < |rows[y]| && Rises(rows[y][x], g)
    ensures AllRise(rows, rows[y := rows[y][x := g]])
  {
  }

  /** Replacing one row by a row that rose from it. */
  lemma RowRises(rows: Rows, y: nat, row: seq<Ground>)
    requires y < |rows| && |row| == |rows[y]| && forall x :: 0 <= x < |row| ==> Rises(rows[y][x], row[x])
    ensures AllRise(rows, rows[y := row])
  {
  }

  /** One step only raises cells. */
  lemma StepRises(rows: Rows, width: nat, x: nat, y: nat)
    requires Shape(rows, width) && x < width && y < |rows|
    ensures AllRise(rows, Step(rows, width, x, y).rows)
  {
    if rows[y][x] == WaterFalling && y + 1 < |rows| {
      if Solid(rows[y + 1][x]) {
        FillRises(rows[y], rows[y + 1], x);
        RowRises(rows, y, FillRow(rows[y], rows[y + 1], x));
      } else if rows[y + 1][x] == Sand {
        SetRises(rows, x, y + 1, WaterFalling);
      }
    }
  }

  /** One step acts exactly when it changes the grid. */
  lemma StepActs(rows: Rows, width: nat, x: nat, y: nat)
    requires Shape(rows, width) && x < width && y < |rows|
    ensures Step(rows, width, x, y).acted <==> Step(rows, width, x, y).rows != rows
  {
    var r := Step(rows, width, x, y);
    if rows[y][x] == WaterFalling && y + 1 < |rows| {
      if Solid(rows[y + 1][x]) {
        FillActsChanges(rows[y], rows[y + 1], x);
        if r.rows != rows {
          assert r.rows[y] != rows[y];
        }
      } else if rows[y + 1][x] == Sand {
        assert r.rows[y + 1][x] != rows[y + 1][x];
      }
    }
  }

  /** One step keeps settled water supported. */
  lemma StepSupported(rows: Rows, width: nat, x: nat, y: nat)
    requires Shape(rows, width) && x < width && y < |rows| && Supported(rows)
    ensures Supported(Step(rows, width, x, y).rows)
  {
    var r := Step(rows, width, x, y);
    StepRises(rows, width, x, y);
    if rows[y][x] == WaterFalling && y + 1 < |rows| && Solid(rows[y + 1][x]) {
      FillSettlesSupported(rows[y], rows[y + 1], x);
    }
    SupportKept(rows, r.rows);
  }

  /** Steps down a column only raise cells, keep settled water supported, and act exactly when they change the grid. */
  lemma {:induction false} ColumnSettles(rows: Rows, width: nat, x: nat, y: nat)
    requires Shape(rows, width) && x < width
    ensures var c := ColumnFrom(rows, width, x, y);
      AllRise(rows, c.rows) && (c.acted <==> c.rows != rows) && (Supported(rows) ==> Supported(c.rows))
    decreases |rows| - y
  {
    if y < |rows| {
      var s := Step(rows, width, x, y);
      var c := ColumnFrom(s.rows, width, x, y + 1);
      StepRises(rows, width, x, y);
      StepActs(rows, width, x, y);
      if Supported(rows) {
        StepSupported(rows, width, x, y);
      }
      ColumnSettles(s.rows, width, x, y + 1);
      RiseTrans(rows, s.rows, c.rows);
      if s.acted && c.rows == rows {
        RiseAntisym(rows, s.rows);
      }
    }
  }

  /** The same for columns x to the last. */
  lemma {:induction false} ColumnsSettle(rows: Rows, width: nat, x: nat)
    requires Shape(rows, width)
    ensures var c := ColumnsFrom(rows, width, x);
      AllRise(rows, c.rows) && (c.acted <==> c.rows != rows) && (Supported(rows) ==> Supported(c.rows))
    decreases width - x
  {
    if x < width {
      var s := ColumnFrom(rows, width, x, 0);
      var c := ColumnsFrom(s.rows, width, x + 1);
      ColumnSettles(rows, width, x, 0);
      ColumnsSettle(s.rows, width, x + 1);
      RiseTrans(rows, s.rows, c.rows);
      if s.acted && c.rows == rows {
        RiseAntisym(rows, s.rows);
      }
    }
  }

  /**
   * A tick only raises cells (so clay never changes and water never
   * recedes), keeps settled water supported, and reports acting exactly
   * when it changed the grid: `while tick(..) {}` stops at the first tick
   * that leaves the ground as it was.
   */
  lemma TickSettles(rows: Rows, width: nat)
    requires Shape(rows, width)
    ensures AllRise(rows, Tick(rows, width).rows)
    ensures Tick(rows, width).acted <==> Tick(rows, width).rows != rows
    ensures Supported(rows) ==> Supported(Tick(rows, width).rows)
  {
    ColumnsSettle(rows, width, 0);
  }

  /** Clay is where it was, no more and no less. */
  lemma TickKeepsClay(rows: Rows, width: nat, x: nat, y: nat)
    requires Shape(rows, width) && y < |rows| && x < width
    ensures |Tick(rows, width).rows| == |rows| && |Tick(rows, width).rows[y]| == width
    ensures Tick(rows, width).rows[y][x] == Clay <==> rows[y][x] == Clay
  {
    TickSettles(rows, width);
  }

  /** Water stays water under rising. */
  lemma WaterStays(a: Rows, b: Rows, x: nat, y: nat)
    requires AllRise(a, b) && y < |a| && x < |a[y]|
    ensures Water(a[y][x]) ==> Water(b[y][x])
    ensures a[y][x] != Clay ==> b[y][x] != Clay
  {
    assert Rises(a[y][x], b[y][x]);
  }

  /**
   * Once the column walk reaches a wet cell that is not over clay, the
   * cell beneath ends up wet: falling water pours onto sand, and settled
   * water is supported, so already stands on water.
   */
  lemma {:induction false} ColumnPours(rows: Rows, width: nat, x: nat, y0: nat, y: nat)
    requires Shape(rows, width) && x < width && y0 <= y && y + 1 < |rows| && Supported(rows)
    requires Water(rows[y][x]) && rows[y + 1][x] != Clay
    ensures Water(ColumnFrom(rows, width, x, y0).rows[y + 1][x])
    decreases y - y0
  {
    var next := ColumnStep(rows, width, x, y0, y);
    if y0 < y {
      ColumnPours(next, width, x, y0 + 1, y);
    } else {
      ColumnSettles(next, width, x, y0 + 1);
      WaterStays(next, ColumnFrom(next, width, x, y0 + 1).rows, x, y + 1);
    }
  }

  /**
   * The step at row y0 of a column walk: the rows it leaves, which the rest
   * of the walk continues from; a wet cell at row y0 not over clay leaves
   * the cell beneath it wet.
   */
  lemma ColumnStep(rows: Rows, width: nat, x: nat, y0: nat, y: nat) returns (next: Rows)
    requires Shape(rows, width) && x < width && y0 <= y && y + 1 < |rows| && Supported(rows)
    requires Water(rows[y][x]) && rows[y + 1][x] != Clay
    ensures Shape(next, width) && |next| == |rows| && AllRise(rows, next) && Supported(next)
    ensures ColumnFrom(rows, width, x, y0).rows == ColumnFrom(next, width, x, y0 + 1).rows
    ensures y0 == y ==> Water(next[y + 1][x])
    ensures y0 < y ==> Water(next[y][x]) && next[y + 1][x] != Clay
  {
    next := Step(rows, width, x, y0).rows;
    StepRises(rows, width, x, y0);
    StepSupported(rows, width, x, y0);
    WaterStays(rows, next, x, y);
    WaterStays(rows, next, x, y + 1);
  }

  /** A column walk from row y is the step at y followed by the walk from row y + 1. */
  lemma ColumnFromUnfold(rows: Rows, width: nat, x: nat, y: nat)
    requires Shape(rows, width) && x < width && y < |rows|
    ensures var s := Step(rows, width, x, y);
      ColumnFrom(rows, width, x, y).rows == ColumnFrom(s.rows, width, x, y + 1).rows
  {
  }

  /** The same across the columns from x0 on, for a cell in column x >= x0. */
  lemma {:induction false} ColumnsPour(rows: Rows, width: nat, x0: nat, x: nat, y: nat)
    requires Shape(rows, width) && x0 <= x < width && y + 1 < |rows| && Supported(rows)
    requires Water(rows[y][x]) && rows[y + 1][x] != Clay
    ensures Water(ColumnsFrom(rows, width, x0).rows[y + 1][x])
    decreases x - x0
  {
    var c := ColumnsStep(rows, width, x0, x, y);
    if x0 < x {
      ColumnsPour(c, width, x0 + 1, x, y);
    } else {
      ColumnsSettle(c, width, x0 + 1);
      WaterStays(c, ColumnsFrom(c, width, x0 + 1).rows, x, y + 1);
    }
  }

  /**
   * The walk down column x0, which the walk over the columns after it
   * continues from; the wet cell of column x stays wet and not over clay,
   * and in column x itself the cell beneath ends up wet.
   */
  lemma ColumnsStep(rows: Rows, width: nat, x0: nat, x: nat, y: nat) returns (c: Rows)
    requires Shape(rows, width) && x0 <= x < width && y + 1 < |rows| && Supported(rows)
    requires Water(rows[y][x]) && rows[y + 1][x] != Clay
    ensures Shape(c, width) && |c| == |rows| && Supported(c)
    ensures ColumnsFrom(rows, width, x0).rows == ColumnsFrom(c, width, x0 + 1).rows
    ensures x0 == x ==> Water(c[y + 1][x])
    ensures x0 < x ==> Water(c[y][x]) && c[y + 1][x] != Clay
  {
    c := ColumnFrom(rows, width, x0, 0).rows;
    ColumnsFromUnfold(rows, width, x0);
    ColumnSettles(rows, width, x0, 0);
    if x0 < x {
      WaterStays(rows, c, x, y);
      WaterStays(rows, c, x, y + 1);
    } else {
      ColumnPours(rows, width, x, 0, y);
    }
  }

  /** A walk over columns x0 on is the walk down column x0 followed by the walk over the columns after it. */
  lemma ColumnsFromUnfold(rows: Rows, width: nat, x0: nat)
    requires Shape(rows, width) && x0 < width
    ensures var c := ColumnFrom(rows, width, x0, 0);
      ColumnsFrom(rows, width, x0).rows == ColumnsFrom(c.rows, width, x0 + 1).rows
  {
  }

  /** Falling water above sand extends one cell down within the tick, and the tick acts. */
  lemma TickPours(rows: Rows, width: nat, x: nat, y: nat)
    requires Shape(rows, width) && x < width && y + 1 < |rows| && Supported(rows)
    requires rows[y][x] == WaterFalling && rows[y + 1][x] == Sand
    ensures Water(Tick(rows, width).rows[y + 1][x])
    ensures Tick(rows, width).acted
  {
    ColumnsPour(rows, width, 0, x, y);
    TickSettles(rows, width);
  }

  // ---------------------------------------------------------------------
  // The solver's in-place updates
  // ---------------------------------------------------------------------

  /** Painting below `from` leaves the cells from `from` on as they were. */
  lemma PaintBelow(row: seq<Ground>, lo: int, hi: int, g: Ground, from: nat)
    requires hi <= from <= |row|
    ensures Paint(row, lo, hi, g)[from..] == row[from..]
  {
  }

  lemma PaintNone(row: seq<Ground>, at: int, g: Ground)
    ensures Paint(row, at, at, g) == row
  {
  }

  lemma PaintDown(row: seq<Ground>, lo: int, hi: int, g: Ground)
    requires 0 < lo <= hi <= |row|
    ensures Paint(row, lo, hi, g)[lo - 1 := g] == Paint(row, lo - 1, hi, g)
  {
  }

  lemma PaintUp(row: seq<Ground>, lo: int, hi: int, g: Ground)
    requires 0 <= hi < |row| && lo <= hi
    ensures Paint(row, lo, hi, g)[hi := g] == Paint(row, lo, hi + 1, g)
  {
  }

  /** The rightward scan sees only the cells from where it starts. */
  lemma {:induction false} ScanRightAgrees(a: seq<Ground>, b: seq<Ground>, below: seq<Ground>, x: nat)
    requires |a| == |b| == |below| && x <= |a| && a[x..] == b[x..]
    ensures ScanRight(a, below, x) == ScanRight(b, below, x)
    decreases |a| - x
  {
    if x < |a| {
      assert a[x] == a[x..][0] == b[x..][0] == b[x];
      assert a[x + 1..] == a[x..][1..];
      assert b[x + 1..] == b[x..][1..];
      ScanRightAgrees(a, b, below, x + 1);
    }
  }

  /** One cell of a sideways scan: sand and falling water become falling water; the old cell is returned. */
  method Wet(ground: Grid<Ground>, x: int, y: int) returns (dirt: Ground)
    modifies ground
    requires ground.Valid() && ground.Contains(Loci(x, y))
    ensures ground.Valid()
    ensures var ry, rx := y - ground.yMin, x - ground.xMin;
      dirt == old(ground.rows)[ry][rx] &&
      ground.rows == if dirt == Sand || dirt == WaterFalling then old(ground.rows)[ry := old(ground.rows)[ry][rx := WaterFalling]] else old(ground.rows)
  {
    dirt := ground.Get(Loci(x, y));
    if dirt == Sand || dirt == WaterFalling {
      ground.Set(Loci(x, y), WaterFalling);
    }
  }

  /**
   * The leftward loop of `fill_ledge` as it runs, at cell x of the row
   * `cur` it is painting: the painted row, `min_found`, whether clay
   * stopped it, and `acted`.
   */
  datatype Run = Run(row: seq<Ground>, found: int, wall: bool, acted: bool)

  function LeftRun(cur: seq<Ground>, below: seq<Ground>, x: int, acted: bool): (r: Run)
    requires |below| == |cur| && -1 <= x < |cur|
    ensures |r.row| == |cur| && 0 <= r.found <= x + 1
    decreases x + 1
  {
    if x < 0 then Run(cur, x + 1, false, acted)
    else match cur[x]
      case Sand | WaterFalling =>
        var next := cur[x := WaterFalling];
        var acted' := acted || cur[x] == Sand;
        if Solid(below[x]) then LeftRun(next, below, x - 1, acted') else Run(next, x + 1, false, acted')
      case Clay => Run(cur, x + 1, true, acted)
      case WaterLocked => Run(cur, x + 1, false, acted)
  }

  /** The rightward loop of `fill_ledge` as it runs, at cell x; `found` is `max_found`. */
  function RightRun(cur: seq<Ground>, below: seq<Ground>, x: int, acted: bool): (r: Run)
    requires |below| == |cur| && 0 <= x <= |cur|
    ensures |r.row| == |cur| && x - 1 <= r.found < |cur|
    decreases |cur| - x
  {
    if x == |cur| then Run(cur, x - 1, false, acted)
    else match cur[x]
      case Sand | WaterFalling =>
        var next := cur[x := WaterFalling];
        var acted' := acted || cur[x] == Sand;
        if Solid(below[x]) then RightRun(next, below, x + 1, acted') else Run(next, x - 1, false, acted')
      case Clay => Run(cur, x - 1, true, acted)
      case WaterLocked => Run(cur, x - 1, false, acted)
  }

  /** `fill_ledge` as it runs: left loop, right loop, then the settling loop if clay walls both ends. */
  function FillRun(row: seq<Ground>, below: seq<Ground>, s: nat): (seq<Ground>, bool)
    requires |below| == |row| && s < |row|
  {
    var l := LeftRun(row, below, s - 1, false);
    var r := RightRun(l.row, below, s + 1, l.acted);
    if l.wall && r.wall then (Paint(r.row, l.found, r.found + 1, WaterLocked), true)
    else (r.row, r.acted)
  }

  lemma SandInDown(row: seq<Ground>, lo: nat, hi: nat)
    requires lo < hi <= |row|
    ensures (Sand in row[lo..hi]) == (row[lo] == Sand || Sand in row[lo + 1..hi])
  {
    assert row[lo..hi] == [row[lo]] + row[lo + 1..hi];
  }

  lemma SandInUp(row: seq<Ground>, lo: nat, hi: nat)
    requires lo <= hi < |row|
    ensures (Sand in row[lo..hi + 1]) == ((Sand in row[lo..hi]) || row[hi] == Sand)
  {
    assert row[lo..hi + 1] == row[lo..hi] + [row[hi]];
  }

  /** The leftward loop does what the leftward scan describes. */
  lemma {:induction false} LeftRunScans(row: seq<Ground>, below: seq<Ground>, s: nat, x: int, acted: bool)
    requires |below| == |row| && -1 <= x < s <= |row|
    ensures var l := ScanLeft(row, below, x);
      LeftRun(Paint(row, x + 1, s, WaterFalling), below, x, acted) ==
      Run(Paint(row, l.painted, s, WaterFalling), l.found, l.wall, acted || Sand in row[l.painted..x + 1])
    decreases x + 1
  {
    var cur := Paint(row, x + 1, s, WaterFalling);
    if x >= 0 {
      assert cur[x] == row[x];
      if row[x] == Sand || row[x] == WaterFalling {
        PaintDown(row, x + 1, s, WaterFalling);
        if Solid(below[x]) {
          LeftRunScans(row, below, s, x - 1, acted || row[x] == Sand);
          var l := ScanLeft(row, below, x - 1);
          SandInUp(row, l.painted, x);
        }
      }
    }
  }

  /** The rightward loop from cell x, over a row painted from s + 1 up to x, does what the rightward scan describes. */
  ghost predicate RightAgrees(row: seq<Ground>, below: seq<Ground>, s: nat, x: nat, acted: bool)
    requires |below| == |row| && s < x <= |row|
  {
    var r := ScanRight(row, below, x);
    RightRun(Paint(row, s + 1, x, WaterFalling), below, x, acted) ==
    Run(Paint(row, s + 1, r.painted + 1, WaterFalling), r.found, r.wall, acted || Sand in row[x..r.painted + 1])
  }

  /** The rightward loop does what the rightward scan describes. */
  lemma {:induction false} RightRunScans(row: seq<Ground>, below: seq<Ground>, s: nat, x: nat, acted: bool)
    requires |below| == |row| && s < x <= |row|
    ensures RightAgrees(row, below, s, x, acted)
    decreases |row| - x
  {
    if x < |row| && (row[x] == Sand || row[x] == WaterFalling) && Solid(below[x]) {
      RightRunScans(row, below, s, x + 1, acted || row[x] == Sand);
      RightRunCombine(row, below, s, x, acted);
    } else {
      RightRunStop(row, below, s, x, acted);
    }
  }

  /** A painted cell over something solid joins the rest of the rightward loop. */
  lemma RightRunCombine(row: seq<Ground>, below: seq<Ground>, s: nat, x: nat, acted: bool)
    requires |below| == |row| && s < x < |row| && (row[x] == Sand || row[x] == WaterFalling) && Solid(below[x])
    requires RightAgrees(row, below, s, x + 1, acted || row[x] == Sand)
    ensures RightAgrees(row, below, s, x, acted)
  {
    RightRunStep(row, below, s, x, acted);
    var r := ScanRight(row, below, x + 1);
    SandInDown(row, x, r.painted + 1);
  }

  /** One painted cell of the rightward loop, over something solid: the loop and the scan both move on. */
  lemma RightRunStep(row: seq<Ground>, below: seq<Ground>, s: nat, x: nat, acted: bool)
    requires |below| == |row| && s < x < |row| && (row[x] == Sand || row[x] == WaterFalling) && Solid(below[x])
    ensures RightRun(Paint(row, s + 1, x, WaterFalling), below, x, acted) ==
      RightRun(Paint(row, s + 1, x + 1, WaterFalling), below, x + 1, acted || row[x] == Sand)
    ensures ScanRight(row, below, x) == ScanRight(row, below, x + 1)
  {
    assert Paint(row, s + 1, x, WaterFalling)[x] == row[x];
    PaintUp(row, s + 1, x, WaterFalling);
  }

  /** Where the rightward loop stops, it agrees with the scan. */
  lemma RightRunStop(row: seq<Ground>, below: seq<Ground>, s: nat, x: nat, acted: bool)
    requires |below| == |row| && s < x <= |row|
    requires !(x < |row| && (row[x] == Sand || row[x] == WaterFalling) && Solid(below[x]))
    ensures RightAgrees(row, below, s, x, acted)
  {
    var cur := Paint(row, s + 1, x, WaterFalling);
    if x < |row| {
      assert cur[x] == row[x];
      if row[x] == Sand || row[x] == WaterFalling {
        PaintUp(row, s + 1, x, WaterFalling);
        assert row[x..x + 1] == [row[x]];
      } else {
        assert row[x..x] == [];
      }
    } else {
      assert row[x..x] == [];
    }
  }

  /** The leftward loop from the source cell, in terms of the leftward scan. */
  lemma LeftRunFrom(row: seq<Ground>, below: seq<Ground>, s: nat)
    requires |below| == |row| && s < |row|
    ensures var l := ScanLeft(row, below, s - 1);
      LeftRun(row, below, s - 1, false) ==
      Run(Paint(row, l.painted, s, WaterFalling), l.found, l.wall, Sand in row[l.painted..s])
  {
    PaintNone(row, s, WaterFalling);
    LeftRunScans(row, below, s, s - 1, false);
  }

  /** The rightward loop from the source cell, over a row painted only left of it. */
  lemma RightRunFrom(row: seq<Ground>, left: seq<Ground>, below: seq<Ground>, s: nat, acted: bool,
                     r: Reach, wet: seq<Ground>, rightActs: bool)
    requires |below| == |row| == |left| && s < |row| && left[s + 1..] == row[s + 1..]
    requires r == ScanRight(row, below, s + 1) && wet == Paint(left, s + 1, r.painted + 1, WaterFalling)
    requires rightActs == (Sand in row[s + 1..r.painted + 1])
    ensures RightRun(left, below, s + 1, acted) == Run(wet, r.found, r.wall, acted || rightActs)
  {
    ScanRightAgrees(left, row, below, s + 1);
    PaintNone(left, s + 1, WaterFalling);
    RightRunScans(left, below, s, s + 1, acted);
    assert left[s + 1..r.painted + 1] == row[s + 1..r.painted + 1] by {
      assert left[s + 1..r.painted + 1] == left[s + 1..][..r.painted - s];
      assert row[s + 1..r.painted + 1] == row[s + 1..][..r.painted - s];
    }
  }

  /**
   * `fill_ledge` as it runs agrees with its description: `FillRow` is
   * the row it leaves and `FillActs` what it answers.
   */
  lemma FillRunAgrees(row: seq<Ground>, below: seq<Ground>, s: nat)
    requires |below| == |row| && s < |row|
    ensures FillRun(row, below, s).0 == FillRow(row, below, s)
    ensures FillRun(row, below, s).1 == FillActs(row, below, s)
  {
    var l, r := ScanLeft(row, below, s - 1), ScanRight(row, below, s + 1);
    var left := Paint(row, l.painted, s, WaterFalling);
    var wet := Paint(left, s + 1, r.painted + 1, WaterFalling);
    var leftActs, rightActs := Sand in row[l.painted..s], Sand in row[s + 1..r.painted + 1];
    var walls := l.wall && r.wall;
    LeftRunFrom(row, below, s);
    var lr := LeftRun(row, below, s - 1, false);
    assert lr == Run(left, l.found, l.wall, leftActs);
    PaintBelow(row, l.painted, s, WaterFalling, s + 1);
    RightRunFrom(row, left, below, s, leftActs, r, wet, rightActs);
    var rr := RightRun(lr.row, below, s + 1, lr.acted);
    assert lr.row == left && lr.acted == leftActs;
    FillRunUnfold(row, below, s, lr, rr);
    FillRowUnfold(row, below, s, l, r, wet);
    FillActsUnfold(row, below, s, l, r, leftActs, rightActs);
    FillAssemble(FillRun(row, below, s), FillRow(row, below, s), FillActs(row, below, s), lr, rr, l, r, wet, leftActs, rightActs);
  }

  /** The two descriptions of `fill_ledge` meet once both loops agree with both scans. */
  lemma FillAssemble(run: (seq<Ground>, bool), fill: seq<Ground>, acts: bool, lr: Run, rr: Run, l: Reach, r: Reach,
                     wet: seq<Ground>, leftActs: bool, rightActs: bool)
    requires run == if lr.wall && rr.wall then (Paint(rr.row, lr.found, rr.found + 1, WaterLocked), true) else (rr.row, rr.acted)
    requires fill == if l.wall && r.wall then Paint(wet, l.found, r.found + 1, WaterLocked) else wet
    requires acts == (leftActs || rightActs || (l.wall && r.wall))
    requires lr.found == l.found && lr.wall == l.wall && rr == Run(wet, r.found, r.wall, leftActs || rightActs)
    ensures run.0 == fill && run.1 == acts
  {
  }

  /** `FillActs` spelled out. */
  lemma FillActsUnfold(row: seq<Ground>, below: seq<Ground>, s: nat, l: Reach, r: Reach, leftActs: bool, rightActs: bool)
    requires |below| == |row| && s < |row|
    requires l == ScanLeft(row, below, s - 1) && r == ScanRight(row, below, s + 1)
    requires leftActs == (Sand in row[l.painted..s]) && rightActs == (Sand in row[s + 1..r.painted + 1])
    ensures FillActs(row, below, s) == (leftActs || rightActs || (l.wall && r.wall))
  {
  }

  /** `FillRow` spelled out. */
  lemma FillRowUnfold(row: seq<Ground>, below: seq<Ground>, s: nat, l: Reach, r: Reach, wet: seq<Ground>)
    requires |below| == |row| && s < |row|
    requires l == ScanLeft(row, below, s - 1) && r == ScanRight(row, below, s + 1)
    requires wet == Paint(Paint(row, l.painted, s, WaterFalling), s + 1, r.painted + 1, WaterFalling)
    ensures FillRow(row, below, s) == if l.wall && r.wall then Paint(wet, l.found, r.found + 1, WaterLocked) else wet
  {
  }

  /** `FillRun` spelled out. */
  lemma FillRunUnfold(row: seq<Ground>, below: seq<Ground>, s: nat, lr: Run, rr: Run)
    requires |below| == |row| && s < |row|
    requires lr == LeftRun(row, below, s - 1, false) && rr == RightRun(lr.row, below, s + 1, lr.acted)
    ensures FillRun(row, below, s) == if lr.wall && rr.wall then (Paint(rr.row, lr.found, rr.found + 1, WaterLocked), true) else (rr.row, rr.acted)
  {
  }

  /** The left loop of `fill_ledge`, painting row y leftwards from cell xStart. */
  method FillLeft(ground: Grid<Ground>, xStart: int, y: int) returns (minFound: int, wall: bool, acted: bool)
    modifies ground
    requires ground.Valid() && ground.Contains(Loci(xStart, y)) && y + 1 < ground.YMax()
    ensures ground.Valid()
    ensures var ry, s := y - ground.yMin, xStart - ground.xMin;
      var rows0 := old(ground.rows);
      Run(ground.rows[ry], minFound - ground.xMin, wall, acted) == LeftRun(rows0[ry], rows0[ry + 1], s - 1, false) &&
      ground.rows == rows0[ry := ground.rows[ry]]
  {
    ghost var rows0 := ground.rows;
    ghost var ry, s := y - ground.yMin, xStart - ground.xMin;
    ghost var below := rows0[ry + 1];
    acted, wall := false, false;
    minFound := xStart;
    var x := xStart - 1;
    while x >= ground.xMin
      invariant ground.xMin - 1 <= x < xStart
      invariant ground.Valid() && ground.rows == rows0[ry := ground.rows[ry]]
      invariant LeftRun(ground.rows[ry], below, x - ground.xMin, acted) == LeftRun(rows0[ry], below, s - 1, false)
      invariant minFound == x + 1 && !wall
    {
      var dirt := Wet(ground, x, y);
      if dirt == Sand || dirt == WaterFalling {
        acted := acted || dirt == Sand;
        var under := ground.Get(Loci(x, y + 1));
        if under == Clay || under == WaterLocked {
          minFound := x;
        } else {
          return;
        }
      } else {
        wall := dirt == Clay;
        return;
      }
      x := x - 1;
    }
  }

  /** The right loop of `fill_ledge`, painting row y rightwards from cell xStart. */
  method FillRight(ground: Grid<Ground>, xStart: int, y: int, acted0: bool) returns (maxFound: int, wall: bool, acted: bool)
    modifies ground
    requires ground.Valid() && ground.Contains(Loci(xStart, y)) && y + 1 < ground.YMax()
    ensures ground.Valid()
    ensures var ry, s := y - ground.yMin, xStart - ground.xMin;
      var rows0 := old(ground.rows);
      Run(ground.rows[ry], maxFound - ground.xMin, wall, acted) == RightRun(rows0[ry], rows0[ry + 1], s + 1, acted0) &&
      ground.rows == rows0[ry := ground.rows[ry]]
  {
    ghost var rows0 := ground.rows;
    ghost var ry, s := y - ground.yMin, xStart - ground.xMin;
    ghost var below := rows0[ry + 1];
    acted, wall := acted0, false;
    maxFound := xStart;
    var x := xStart + 1;
    while x < ground.XMax()
      invariant xStart < x <= ground.XMax()
      invariant ground.Valid() && ground.rows == rows0[ry := ground.rows[ry]]
      invariant RightRun(ground.rows[ry], below, x - ground.xMin, acted) == RightRun(rows0[ry], below, s + 1, acted0)
      invariant maxFound == x - 1 && !wall
    {
      var dirt := Wet(ground, x, y);
      if dirt == Sand || dirt == WaterFalling {
        acted := acted || dirt == Sand;
        var under := ground.Get(Loci(x, y + 1));
        if under == Clay || under == WaterLocked {
          maxFound := x;
        } else {
          return;
        }
      } else {
        wall := dirt == Clay;
        return;
      }
      x := x + 1;
    }
  }

  /** The settling loop of `fill_ledge`: cells from..=to of row y become settled water. */
  method Settle(ground: Grid<Ground>, y: int, from: int, to: int) returns (acted: bool)
    modifies ground
    requires ground.Valid() && ground.Contains(Loci(from, y)) && ground.Contains(Loci(to, y)) && from <= to
    ensures ground.Valid()
    ensures acted
    ensures var ry := y - ground.yMin;
      ground.rows == old(ground.rows)[ry := Paint(old(ground.rows)[ry], from - ground.xMin, to - ground.xMin + 1, WaterLocked)]
  {
    ghost var rows0 := ground.rows;
    ghost var ry := y - ground.yMin;
    ghost var row := rows0[ry];
    acted := false;
    PaintNone(row, from - ground.xMin, WaterLocked);
    var x := from;
    while x <= to
      invariant from <= x <= to + 1
      invariant ground.Valid()
      invariant ground.rows == rows0[ry := Paint(row, from - ground.xMin, x - ground.xMin, WaterLocked)]
      invariant acted == (x > from)
    {
      ground.Set(Loci(x, y), WaterLocked);
      PaintUp(row, from - ground.xMin, x - ground.xMin, WaterLocked);
      acted := true;
      x := x + 1;
    }
  }

  /** `fill_ledge`: the row becomes `FillRow` of itself over the row beneath, and the answer is `FillActs`. */
  method FillLedge(xStart: int, y: int, ground: Grid<Ground>) returns (acted: bool)
    modifies ground
    requires ground.Valid() && ground.Contains(Loci(xStart, y)) && y + 1 < ground.YMax()
    ensures ground.Valid()
    ensures var ry, s := y - ground.yMin, xStart - ground.xMin;
      ground.rows == old(ground.rows)[ry := FillRow(old(ground.rows)[ry], old(ground.rows)[ry + 1], s)] &&
      acted == FillActs(old(ground.rows)[ry], old(ground.rows)[ry + 1], s)
  {
    ghost var rows0 := ground.rows;
    ghost var ry, s := y - ground.yMin, xStart - ground.xMin;
    ghost var below := rows0[ry + 1];
    ghost var l := LeftRun(rows0[ry], below, s - 1, false);
    ghost var r := RightRun(l.row, below, s + 1, l.acted);
    ghost var fill := FillRun(rows0[ry], below, s);
    var minFound, leftWall, maxFound, rightWall;
    minFound, leftWall, acted := FillLeft(ground, xStart, y);
    assert ground.rows == rows0[ry := l.row] && minFound - ground.xMin == l.found && leftWall == l.wall && acted == l.acted;
    maxFound, rightWall, acted := FillRight(ground, xStart, y, acted);
    assert ground.rows == rows0[ry := r.row] && maxFound - ground.xMin == r.found && rightWall == r.wall && acted == r.acted;
    if leftWall && rightWall {
      acted := Settle(ground, y, minFound, maxFound);
      assert ground.rows == rows0[ry := fill.0] && acted == fill.1;
    } else {
      assert ground.rows == rows0[ry := fill.0] && acted == fill.1;
    }
    FillRunAgrees(rows0[ry], below, s);
  }

  /** `tick`'s body at real cell (x, y), on the grid in place. */
  method TickCell(ground: Grid<Ground>, x: int, y: int) returns (acted: bool)
    modifies ground
    requires ground.Valid() && ground.Contains(Loci(x, y))
    ensures ground.Valid()
    ensures Outcome(ground.rows, acted) == Step(old(ground.rows), ground.width, x - ground.xMin, y - ground.yMin)
  {
    acted := false;
    var dirt := ground.Get(Loci(x, y));
    if dirt == WaterFalling {
      var downY := y + 1;
      if downY < ground.YMax() {
        var under := ground.Get(Loci(x, downY));
        match under {
          case Clay | WaterLocked =>
            if x - 1 < ground.xMin || ground.Get(Loci(x - 1, y)) != WaterFalling ||
               x + 1 >= ground.XMax() || ground.Get(Loci(x + 1, y)) != WaterFalling {
              acted := FillLedge(x, y, ground);
            }
          case Sand =>
            ground.Set(Loci(x, downY), WaterFalling);
            acted := true;
          case WaterFalling =>
        }
      }
    }
  }

  /** The inner loop of `tick`: column x from the top row down. */
  method TickColumn(ground: Grid<Ground>, x: int) returns (acted: bool)
    modifies ground
    requires ground.Valid() && ground.xMin <= x < ground.XMax()
    ensures ground.Valid()
    ensures Outcome(ground.rows, acted) == ColumnFrom(old(ground.rows), ground.width, x - ground.xMin, 0)
  {
    ghost var final := ColumnFrom(ground.rows, ground.width, x - ground.xMin, 0);
    acted := false;
    var y := ground.yMin;
    while y < ground.YMax()
      invariant ground.yMin <= y <= ground.YMax()
      invariant ground.Valid()
      invariant var c := ColumnFrom(ground.rows, ground.width, x - ground.xMin, y - ground.yMin);
        c.rows == final.rows && (acted || c.acted) == final.acted
    {
      var a := TickCell(ground, x, y);
      acted := a || acted;
      y := y + 1;
    }
  }

  /** `tick`: every column left to right; the answer is whether any cell acted. */
  method TickGround(ground: Grid<Ground>) returns (acted: bool)
    modifies ground
    requires ground.Valid()
    ensures ground.Valid()
    ensures Outcome(ground.rows, acted) == Tick(old(ground.rows), ground.width)
  {
    ghost var final := Tick(ground.rows, ground.width);
    acted := false;
    var x := ground.xMin;
    while x < ground.XMax()
      invariant ground.xMin <= x <= ground.XMax()
      invariant ground.Valid()
      invariant var c := ColumnsFrom(ground.rows, ground.width, x - ground.xMin);
        c.rows == final.rows && (acted || c.acted) == final.acted
    {
      var a := TickColumn(ground, x);
      acted := a || acted;
      x := x + 1;
    }
  }

  // ---------------------------------------------------------------------
  // count_water
  // ---------------------------------------------------------------------

  /** Wet cells (falling or settled water) of a row. */
  function WetIn(row: seq<Ground>): nat
  {
    if row == [] then 0 else WetIn(row[..|row| - 1]) + if Water(row[|row| - 1]) then 1 else 0
  }

  /** Settled cells of a row. */
  function LockedIn(row: seq<Ground>): nat
  {
    if row == [] then 0 else LockedIn(row[..|row| - 1]) + if row[|row| - 1] == WaterLocked then 1 else 0
  }

  function WetCells(rows: Rows): nat
  {
    if rows == [] then 0 else WetCells(rows[..|rows| - 1]) + WetIn(rows[|rows| - 1])
  }

  function LockedCells(rows: Rows): nat
  {
    if rows == [] then 0 else LockedCells(rows[..|rows| - 1]) + LockedIn(rows[|rows| - 1])
  }

  /** The row counts are the numbers of occurrences: falling plus settled, and settled. */
  lemma {:induction false} RowCounts(row: seq<Ground>)
    ensures WetIn(row) == multiset(row)[WaterFalling] + multiset(row)[WaterLocked]
    ensures LockedIn(row) == multiset(row)[WaterLocked]
  {
    if row != [] {
      var n := |row| - 1;
      RowCounts(row[..n]);
      assert row == row[..n] + [row[n]];
    }
  }

  lemma {:induction false} RowLockedAtMostWet(row: seq<Ground>)
    ensures LockedIn(row) <= WetIn(row)
  {
    if row != [] {
      RowLockedAtMostWet(row[..|row| - 1]);
    }
  }

  /** `count_water`'s second answer never exceeds its first. */
  lemma {:induction false} LockedAtMostWet(rows: Rows)
    ensures LockedCells(rows) <= WetCells(rows)
  {
    if rows != [] {
      LockedAtMostWet(rows[..|rows| - 1]);
      RowLockedAtMostWet(rows[|rows| - 1]);
    }
  }

  lemma {:induction false} RowRiseKeepsWater(a: seq<Ground>, b: seq<Ground>)
    requires |a| == |b| && forall i :: 0 <= i < |a| ==> Rises(a[i], b[i])
    ensures WetIn(a) <= WetIn(b) && LockedIn(a) <= LockedIn(b)
  {
    if a != [] {
      RowRiseKeepsWater(a[..|a| - 1], b[..|b| - 1]);
    }
  }

  /** Rising cells never lose water: neither count goes down. */
  lemma {:induction false} RiseKeepsWater(a: Rows, b: Rows)
    requires AllRise(a, b)
    ensures WetCells(a) <= WetCells(b) && LockedCells(a) <= LockedCells(b)
  {
    if a != [] {
      var n := |a| - 1;
      assert AllRise(a[..n], b[..n]);
      RiseKeepsWater(a[..n], b[..n]);
      RowRiseKeepsWater(a[n], b[n]);
    }
  }

  /** Across a tick, both counts can only grow. */
  lemma TickKeepsWater(rows: Rows, width: nat)
    requires Shape(rows, width)
    ensures WetCells(rows) <= WetCells(Tick(rows, width).rows)
    ensures LockedCells(rows) <= LockedCells(Tick(rows, width).rows)
  {
    TickSettles(rows, width);
    RiseKeepsWater(rows, Tick(rows, width).rows);
  }

  /** `count_water`: (falling + settled, settled) over every cell of the grid. */
  method CountWater(ground: Grid<Ground>) returns (water: nat, locked: nat)
    requires ground.Valid()
    ensures water == WetCells(ground.rows) && locked == LockedCells(ground.rows)
  {
    water, locked := 0, 0;
    var y := ground.yMin;
    while y < ground.YMax()
      invariant ground.yMin <= y <= ground.YMax()
      invariant water == WetCells(ground.rows[..y - ground.yMin])
      invariant locked == LockedCells(ground.rows[..y - ground.yMin])
    {
      ghost var ry := y - ground.yMin;
      ghost var row := ground.rows[ry];
      var x := ground.xMin;
      while x < ground.XMax()
        invariant ground.xMin <= x <= ground.XMax()
        invariant water == WetCells(ground.rows[..ry]) + WetIn(row[..x - ground.xMin])
        invariant locked == LockedCells(ground.rows[..ry]) + LockedIn(row[..x - ground.xMin])
      {
        var dirt := ground.Get(Loci(x, y));
        match dirt {
          case WaterFalling =>
            water := water + 1;
          case WaterLocked =>
            water := water + 1;
            locked := locked + 1;
          case Clay | Sand =>
        }
        assert row[..x - ground.xMin + 1][..x - ground.xMin] == row[..x - ground.xMin];
        x := x + 1;
      }
      assert row[..ground.width] == row;
      assert ground.rows[..ry + 1][..ry] == ground.rows[..ry];
      y := y + 1;
    }
    assert ground.rows[..ground.height] == ground.rows;
  }

  // ---------------------------------------------------------------------
  // parse_input
  // ---------------------------------------------------------------------

  /** Which coordinate a scan line fixes: `x=` gives a vertical vein, `y=` a horizontal one. */
  datatype Axis = X | Y

  /** One scan line, `x=at, y=from..to` or `y=at, x=from..to`, both ends included. */
  datatype Vein = Vein(axis: Axis, at: int, from: int, to: int)

  /** `isize::max_value()`, where the lower bound starts. */
  const IsizeMax: int := 0x7fff_ffff_ffff_ffff

  /** The inclusive rectangle a vein covers. */
  datatype Rect = Rect(xLo: int, xHi: int, yLo: int, yHi: int)

  function Span(v: Vein): Rect
  {
    match v.axis
      case X => Rect(v.at, v.at, v.from, v.to)
      case Y => Rect(v.from, v.to, v.at, v.at)
  }

  predicate InVein(v: Vein, l: Loci)
  {
    var r := Span(v);
    r.xLo <= l.x <= r.xHi && r.yLo <= l.y <= r.yHi
  }

  predicate IsClay(veins: seq<Vein>, l: Loci)
  {
    exists i :: 0 <= i < |veins| && InVein(veins[i], l)
  }

  /** The running `min` and `max` of the scan lines read so far. */
  datatype Box = Box(min: Loci, max: Loci)

  function Widen(b: Box, v: Vein): Box
  {
    match v.axis
      case X => Box(Loci(Min(b.min.x, v.at), Min(b.min.y, v.from)), Loci(Max(b.max.x, v.at), Max(b.max.y, v.to)))
      case Y => Box(Loci(Min(b.min.x, v.from), Min(b.min.y, v.at)), Loci(Max(b.max.x, v.to), Max(b.max.y, v.at)))
  }

  function Bounds(veins: seq<Vein>): Box
  {
    if veins == [] then Box(Loci(IsizeMax, IsizeMax), Loci(0, 0))
    else Widen(Bounds(veins[..|veins| - 1]), veins[|veins| - 1])
  }

  /** The bounds hold every clay cell of every vein. */
  lemma {:induction false} BoundsCover(veins: seq<Vein>, i: nat, l: Loci)
    requires i < |veins| && InVein(veins[i], l)
    ensures var b := Bounds(veins);
      b.min.x <= l.x <= b.max.x && b.min.y <= l.y <= b.max.y
  {
    var n := |veins| - 1;
    if i < n {
      assert veins[..n][i] == veins[i];
      BoundsCover(veins[..n], i, l);
    }
  }

  /**
   * The grid `parse_input` allocates: the bounds made inclusive and widened
   * by one spare column on each side.
   */
  function Frame(veins: seq<Vein>): (r: Rect)
  {
    var b := Bounds(veins);
    Rect(b.min.x - 1, b.max.x + 2, b.min.y, b.max.y + 1)
  }

  /** Clay never lies in the spare outer columns, so water can fall past every wall. */
  lemma ClayPadded(veins: seq<Vein>, l: Loci)
    requires IsClay(veins, l)
    ensures var f := Frame(veins);
      f.xLo < l.x < f.xHi - 1 && f.yLo <= l.y < f.yHi
  {
    var i :| 0 <= i < |veins| && InVein(veins[i], l);
    BoundsCover(veins, i, l);
  }

  /** Clay among the first i + 1 scan lines lies on one of the first i, or on line i. */
  lemma IsClayNext(veins: seq<Vein>, i: nat, l: Loci)
    requires i < |veins|
    ensures IsClay(veins[..i + 1], l) <==> IsClay(veins[..i], l) || InVein(veins[i], l)
  {
    if IsClay(veins[..i + 1], l) && !InVein(veins[i], l) {
      var j :| 0 <= j < i + 1 && InVein(veins[..i + 1][j], l);
      assert veins[..i][j] == veins[j];
    }
    if IsClay(veins[..i], l) {
      var j :| 0 <= j < i && InVein(veins[..i][j], l);
      assert veins[..i + 1][j] == veins[j];
    }
    if InVein(veins[i], l) {
      assert veins[..i + 1][i] == veins[i];
    }
  }

  /** What `parse_input` leaves at cell l: the spring, clay, or sand. */
  function Scanned(veins: seq<Vein>, l: Loci): Ground
  {
    if l == Loci(500, Bounds(veins).min.y) then WaterFalling
    else if IsClay(veins, l) then Clay
    else Sand
  }

  /** The clay loop of `parse_input` for one scan line. */
  method LayVein(ground: Grid<Ground>, v: Vein)
    modifies ground
    requires ground.Valid()
    requires forall l :: InVein(v, l) ==> ground.Contains(l)
    ensures ground.Valid()
    ensures forall l :: ground.Contains(l) ==> ground.Get(l) == if InVein(v, l) then Clay else old(ground.Get(l))
  {
    var r := Span(v);
    var x := r.xLo;
    while x <= r.xHi
      invariant r.xLo <= x && (x <= r.xHi + 1 || x == r.xLo)
      invariant ground.Valid()
      invariant forall l :: ground.Contains(l) ==>
        ground.Get(l) == if r.xLo <= l.x < x && r.yLo <= l.y <= r.yHi then Clay else old(ground.Get(l))
    {
      var y := r.yLo;
      while y <= r.yHi
        invariant r.yLo <= y && (y <= r.yHi + 1 || y == r.yLo)
        invariant ground.Valid()
        invariant forall l :: ground.Contains(l) ==>
          ground.Get(l) == if (r.xLo <= l.x < x && r.yLo <= l.y <= r.yHi) || (l.x == x && r.yLo <= l.y < y) then Clay else old(ground.Get(l))
      {
        assert InVein(v, Loci(x, y));
        ground.Set(Loci(x, y), Clay);
        y := y + 1;
      }
      x := x + 1;
    }
  }

  /**
   * `parse_input` on the scan lines, read in order: the grid spans the
   * padded bounds, holds clay on every vein cell, falling water at the
   * spring (500, top clay row), and sand elsewhere.  A grid of negative
   * size or a spring off the grid panics in the source.
   */
  method ParseInput(veins: seq<Vein>) returns (ground: Grid<Ground>)
    requires |veins| > 0
    requires var f := Frame(veins); f.xLo <= f.xHi && f.yLo < f.yHi && f.xLo <= 500 < f.xHi
    ensures fresh(ground) && ground.Valid()
    ensures var f := Frame(veins);
      ground.xMin == f.xLo && ground.XMax() == f.xHi && ground.yMin == f.yLo && ground.YMax() == f.yHi
    ensures forall l :: ground.Contains(l) ==> ground.Get(l) == Scanned(veins, l)
  {
    var min := Loci(IsizeMax, IsizeMax);
    var max := Loci(0, 0);
    var i := 0;
    while i < |veins|
      invariant 0 <= i <= |veins|
      invariant Box(min, max) == Bounds(veins[..i])
    {
      var v := veins[i];
      match v.axis {
        case X =>
          min := Loci(Min(min.x, v.at), min.y);
          max := Loci(Max(max.x, v.at), max.y);
          min := Loci(min.x, Min(min.y, v.from));
          max := Loci(max.x, Max(max.y, v.to));
        case Y =>
          min := Loci(min.x, Min(min.y, v.at));
          max := Loci(max.x, Max(max.y, v.at));
          min := Loci(Min(min.x, v.from), min.y);
          max := Loci(Max(max.x, v.to), max.y);
      }
      assert veins[..i + 1][..i] == veins[..i];
      i := i + 1;
    }
    assert veins[..i] == veins;
    max := Add(max, 1, 1);
    min := Sub(min, 1, 0);
    max := Add(max, 1, 0);
    var dim := SubLoci(max, min);
    ground := new Grid.NewOffset(Sand, dim.x, dim.y, min.x, min.y);

    i := 0;
    while i < |veins|
      invariant 0 <= i <= |veins|
      invariant fresh(ground) && ground.Valid()
      invariant ground.xMin == min.x && ground.XMax() == max.x && ground.yMin == min.y && ground.YMax() == max.y
      invariant forall l :: ground.Contains(l) ==> ground.Get(l) == if IsClay(veins[..i], l) then Clay else Sand
    {
      forall l | InVein(veins[i], l)
        ensures ground.Contains(l)
      {
        BoundsCover(veins, i, l);
      }
      LayVein(ground, veins[i]);
      forall l | ground.Contains(l)
        ensures ground.Get(l) == if IsClay(veins[..i + 1], l) then Clay else Sand
      {
        IsClayNext(veins, i, l);
      }
      i := i + 1;
    }
    assert veins[..i] == veins;
    ground.Set(Loci(500, ground.yMin), WaterFalling);
  }
}
