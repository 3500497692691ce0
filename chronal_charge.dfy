/**
 * Day 11 (11/src/main.rs): a 300 by 300 grid of fuel cells, (1, 1) to
 * (300, 300), each holding a power level derived from its coordinates and
 * the grid serial number.  Part A looks for the 3x3 square with the largest
 * total power; part B for the largest square of side 1 to 20, where squares
 * of side above 3 are summed from a memo of the square one smaller at the
 * next diagonal cell.
 */
module ChronalCharge {
  import C = Coordinates
  import Arithmetic

  /** The side of the fuel grid. */
  const Size: nat := 300

  /** `calc_power_level`. */
  function PowerLevel(x: int, y: int, serial: int): (p: int)
    ensures -14 <= p <= 4
  {
    var rackId := x + 10;
    var level := (rackId * y + serial) * rackId;
    Arithmetic.Quot(Arithmetic.Rem(level, 1000), 100) - 5
  }

  lemma MulNonNegative(a: int, b: int)
    requires a >= 0 && b >= 0
    ensures a * b >= 0
  {
  }

  /**
   * For non-negative intermediates the power level is the hundreds digit
   * of `((x + 10) * y + serial) * (x + 10)`, less 5, so it lies in [-5, 4].
   */
  lemma HundredsDigit(x: int, y: int, serial: int)
    requires x + 10 >= 0 && (x + 10) * y + serial >= 0
    ensures PowerLevel(x, y, serial) == ((x + 10) * y + serial) * (x + 10) / 100 % 10 - 5
    ensures -5 <= PowerLevel(x, y, serial) <= 4
  {
    var level := ((x + 10) * y + serial) * (x + 10);
    MulNonNegative((x + 10) * y + serial, x + 10);
    var q, r := level / 1000, level % 1000;
    var a, b := r / 100, r % 100;
    assert level == 1000 * q + r;
    assert r == 100 * a + b;
    assert level == 100 * (10 * q + a) + b;
    Arithmetic.DivModUnique(level, 100, 10 * q + a, b);
    Arithmetic.DivModUnique(10 * q + a, 10, q, a);
  }

  /** The four power levels `main` asserts before reading its input. */
  lemma PowerExamples()
    ensures PowerLevel(3, 5, 8) == 4
    ensures PowerLevel(122, 79, 57) == -5
    ensures PowerLevel(217, 196, 39) == 0
    ensures PowerLevel(101, 153, 71) == 4
  {
  }

  // ---------------------------------------------------------------------
  // The grid
  // ---------------------------------------------------------------------

  /** The shape `main` builds: 300 by 300 cells from (1, 1). */
  ghost predicate Shaped<T>(grid: C.Grid<T>)
    reads grid
  {
    grid.Valid() && grid.width == Size && grid.height == Size && grid.xMin == 1 && grid.yMin == 1
  }

  /** Every cell of the grid holds its power level. */
  ghost predicate Charged(grid: C.Grid<int>, serial: int)
    reads grid
  {
    Shaped(grid) && forall l :: grid.Contains(l) ==> grid.Get(l) == PowerLevel(l.x, l.y, serial)
  }

  /** The grid-filling loop of `main`, over every cell in reading order (`grid.locis()`). */
  method Charge(serial: int) returns (grid: C.Grid<int>)
    ensures fresh(grid) && Charged(grid, serial)
  {
    grid := new C.Grid.NewOffset(0, Size, Size, 1, 1);
    var cells := C.CollectLocis(Size, Size, 1, 1);
    C.RowMajorSpec(1, 1, Size, Size);
    for k := 0 to |cells|
      invariant Shaped(grid)
      invariant forall i :: 0 <= i < k ==> grid.Contains(cells[i]) && grid.Get(cells[i]) == PowerLevel(cells[i].x, cells[i].y, serial)
    {
      var loci := cells[k];
      assert grid.Contains(loci) by {
        assert loci in cells;
      }
      grid.Set(loci, PowerLevel(loci.x, loci.y, serial));
    }
    forall l | grid.Contains(l)
      ensures grid.Get(l) == PowerLevel(l.x, l.y, serial)
    {
      assert l in cells;
      var i :| 0 <= i < |cells| && cells[i] == l;
    }
  }

  /** `x_max()`, one past the last column (`x_offset + width`). */
  function XMax<T>(grid: C.Grid<T>): int
  {
    grid.xMin + grid.width
  }

  /** `y_max()`, one past the last row. */
  function YMax<T>(grid: C.Grid<T>): int
  {
    grid.yMin + grid.height
  }

  // ---------------------------------------------------------------------
  // Square sums
  // ---------------------------------------------------------------------

  /** The `w` by `h` block with top-left corner (x, y) lies inside the grid. */
  predicate Fits<T>(grid: C.Grid<T>, x: int, y: int, w: nat, h: nat)
  {
    grid.xMin <= x && x + w <= XMax(grid) && grid.yMin <= y && y + h <= YMax(grid)
  }

  /** The `h` cells from (x, y) down. */
  ghost function Col(grid: C.Grid<int>, x: int, y: int, h: nat): int
    reads grid
    requires grid.Valid() && Fits(grid, x, y, 1, h)
  {
    if h == 0 then 0 else Col(grid, x, y, h - 1) + grid.Get(C.Loci(x, y + h - 1))
  }

  /** The `w` cells from (x, y) rightwards. */
  ghost function Row(grid: C.Grid<int>, x: int, y: int, w: nat): int
    reads grid
    requires grid.Valid() && Fits(grid, x, y, w, 1)
  {
    if w == 0 then 0 else Row(grid, x, y, w - 1) + grid.Get(C.Loci(x + w - 1, y))
  }

  /** The `w` by `h` block from (x, y), column by column. */
  ghost function Block(grid: C.Grid<int>, x: int, y: int, w: nat, h: nat): int
    reads grid
    requires grid.Valid() && Fits(grid, x, y, w, h)
  {
    if w == 0 then 0 else Block(grid, x, y, w - 1, h) + Col(grid, x + w - 1, y, h)
  }

  /** The total power of the square of side `n` with top-left corner (x, y). */
  ghost function Square(grid: C.Grid<int>, x: int, y: int, n: nat): int
    reads grid
    requires grid.Valid() && Fits(grid, x, y, n, n)
  {
    Block(grid, x, y, n, n)
  }

  lemma {:induction false} ColFirst(grid: C.Grid<int>, x: int, y: int, h: nat)
    requires grid.Valid() && Fits(grid, x, y, 1, h) && h >= 1
    ensures Col(grid, x, y, h) == grid.Get(C.Loci(x, y)) + Col(grid, x, y + 1, h - 1)
  {
    if h > 1 {
      ColFirst(grid, x, y, h - 1);
    }
  }

  lemma {:induction false} RowFirst(grid: C.Grid<int>, x: int, y: int, w: nat)
    requires grid.Valid() && Fits(grid, x, y, w, 1) && w >= 1
    ensures Row(grid, x, y, w) == grid.Get(C.Loci(x, y)) + Row(grid, x + 1, y, w - 1)
  {
    if w > 1 {
      RowFirst(grid, x, y, w - 1);
    }
  }

  lemma {:induction false} BlockFirstCol(grid: C.Grid<int>, x: int, y: int, w: nat, h: nat)
    requires grid.Valid() && Fits(grid, x, y, w, h) && w >= 1
    ensures Block(grid, x, y, w, h) == Col(grid, x, y, h) + Block(grid, x + 1, y, w - 1, h)
  {
    if w > 1 {
      BlockFirstCol(grid, x, y, w - 1, h);
    }
  }

  lemma {:induction false} BlockTopRow(grid: C.Grid<int>, x: int, y: int, w: nat, h: nat)
    requires grid.Valid() && Fits(grid, x, y, w, h) && h >= 1
    ensures Block(grid, x, y, w, h) == Row(grid, x, y, w) + Block(grid, x, y + 1, w, h - 1)
  {
    if w > 0 {
      BlockTopRow(grid, x, y, w - 1, h);
      ColFirst(grid, x + w - 1, y, h);
    }
  }

  /**
   * The recurrence of `sum_power`: a square is its top row, the left
   * column below it, and the square one smaller at the next diagonal cell.
   */
  lemma SquareSplit(grid: C.Grid<int>, x: int, y: int, n: nat)
    requires grid.Valid() && Fits(grid, x, y, n, n) && n >= 1
    ensures Square(grid, x, y, n) == Row(grid, x, y, n) + Col(grid, x, y + 1, n - 1) + Square(grid, x + 1, y + 1, n - 1)
  {
    BlockFirstCol(grid, x, y, n, n);
    ColFirst(grid, x, y, n);
    BlockTopRow(grid, x + 1, y, n - 1, n);
    RowFirst(grid, x, y, n);
  }

  /** `sum_power_simple`: the cells of the square, column by column. */
  method SumPowerSimple(loci: C.Loci, length: nat, grid: C.Grid<int>) returns (sum: int)
    requires grid.Valid() && Fits(grid, loci.x, loci.y, length, length)
    ensures sum == Square(grid, loci.x, loci.y, length)
  {
    sum := 0;
    for x := loci.x to loci.x + length
      invariant sum == Block(grid, loci.x, loci.y, x - loci.x, length)
    {
      for y := loci.y to loci.y + length
        invariant sum == Block(grid, loci.x, loci.y, x - loci.x, length) + Col(grid, x, loci.y, y - loci.y)
      {
        sum := sum + grid.Get(C.Loci(x, y));
      }
    }
  }

  // ---------------------------------------------------------------------
  // The memo of part B
  // ---------------------------------------------------------------------

  /** The memo has the grid's shape, and every recorded sum is the square it stands for. */
  ghost predicate MemoOk(memo: C.Grid<map<int, int>>, grid: C.Grid<int>)
    reads memo, grid
  {
    Shaped(memo) && Shaped(grid)
    && forall l, n :: memo.Contains(l) && n in memo.Get(l) ==>
      n >= 0 && Fits(grid, l.x, l.y, n, n) && memo.Get(l)[n] == Square(grid, l.x, l.y, n)
  }

  /**
   * `sum_power`: squares of side up to 3 are summed directly; larger ones
   * from the top row, the left column below it and the memoised square one
   * smaller at (x + 1, y + 1), which the caller has recorded.  The result
   * is recorded under (x, y) and `length`.
   */
  method SumPower(x: int, y: int, length: int, grid: C.Grid<int>, memo: C.Grid<map<int, int>>) returns (result: int)
    modifies memo
    requires MemoOk(memo, grid) && length >= 1 && Fits(grid, x, y, length, length)
    requires length > 3 ==> length - 1 in memo.Get(C.Loci(x + 1, y + 1))
    ensures MemoOk(memo, grid)
    ensures result == Square(grid, x, y, length)
    ensures memo.Get(C.Loci(x, y)) == old(memo.Get(C.Loci(x, y)))[length := result]
    ensures forall l :: memo.Contains(l) && l != C.Loci(x, y) ==> memo.Get(l) == old(memo.Get(l))
  {
    if length <= 3 {
      result := SumPowerSimple(C.Loci(x, y), length, grid);
    } else {
      result := SumFromMemo(x, y, length, grid, memo);
    }
    Record(x, y, length, result, grid, memo);
  }

  /** The larger squares of `sum_power`: top row, left column, and the recorded square one smaller. */
  method SumFromMemo(x: int, y: int, length: int, grid: C.Grid<int>, memo: C.Grid<map<int, int>>) returns (sum: int)
    requires MemoOk(memo, grid) && length > 3 && Fits(grid, x, y, length, length)
    requires length - 1 in memo.Get(C.Loci(x + 1, y + 1))
    ensures sum == Square(grid, x, y, length)
  {
    sum := 0;
    for xi := x to x + length
      invariant sum == Row(grid, x, y, xi - x)
    {
      sum := sum + grid.Get(C.Loci(xi, y));
    }
    for yi := y + 1 to y + length
      invariant sum == Row(grid, x, y, length) + Col(grid, x, y + 1, yi - y - 1)
    {
      sum := sum + grid.Get(C.Loci(x, yi));
    }
    sum := sum + memo.Get(C.Loci(x + 1, y + 1))[length - 1];
    SquareSplit(grid, x, y, length);
  }

  /** Records `result` as the square of side `length` at (x, y). */
  method Record(x: int, y: int, length: int, result: int, grid: C.Grid<int>, memo: C.Grid<map<int, int>>)
    modifies memo
    requires MemoOk(memo, grid) && length >= 1 && Fits(grid, x, y, length, length)
    requires result == Square(grid, x, y, length)
    ensures MemoOk(memo, grid)
    ensures memo.Get(C.Loci(x, y)) == old(memo.Get(C.Loci(x, y)))[length := result]
    ensures forall l :: memo.Contains(l) && l != C.Loci(x, y) ==> memo.Get(l) == old(memo.Get(l))
  {
    var entry := memo.Get(C.Loci(x, y));
    memo.Set(C.Loci(x, y), entry[length := result]);
  }

  // ---------------------------------------------------------------------
  // Part A
  // ---------------------------------------------------------------------

  /** The corner guard of `a`: `x < x_max - 3` and `y < x_max - 3`. */
  predicate CornerA<T>(grid: C.Grid<T>, l: C.Loci)
  {
    grid.xMin <= l.x < XMax(grid) - 3 && grid.yMin <= l.y < XMax(grid) - 3
  }

  /**
   * `a`: the 3x3 square of largest power whose corner passes the guard,
   * visiting corners in reading order, row by row, and keeping the first of equal
   * powers; it reports (0, 0) when no square has positive power.
   */
  method A(grid: C.Grid<int>) returns (maxLoci: C.Loci, maxPower: int)
    requires Shaped(grid)
    ensures forall l :: CornerA(grid, l) ==> Square(grid, l.x, l.y, 3) <= maxPower
    ensures forall l :: CornerA(grid, l) && C.ReadingLess(l, maxLoci) ==> Square(grid, l.x, l.y, 3) < maxPower
    ensures (maxPower == 0 && maxLoci == C.Loci(0, 0)) || (CornerA(grid, maxLoci) && Square(grid, maxLoci.x, maxLoci.y, 3) == maxPower)
  {
    var cells := C.CollectLocis(Size, Size, 1, 1);
    C.RowMajorSpec(1, 1, Size, Size);
    ghost var best;
    maxLoci, maxPower, best := ScanA(grid, cells);
    forall l | CornerA(grid, l)
      ensures Square(grid, l.x, l.y, 3) <= maxPower
      ensures C.ReadingLess(l, maxLoci) ==> Square(grid, l.x, l.y, 3) < maxPower
    {
      assert 1 <= l.x < 1 + Size && 1 <= l.y < 1 + Size;
      assert l in cells;
      var i :| 0 <= i < |cells| && cells[i] == l;
      if C.ReadingLess(l, maxLoci) {
        assert best >= 0;
        C.ReadingLessIndex(cells, i, best);
      }
    }
  }

  /** The loop of `a` over the listed corners; `best` is the index of the reported corner, or -1. */
  method ScanA(grid: C.Grid<int>, cells: seq<C.Loci>) returns (maxLoci: C.Loci, maxPower: int, ghost best: int)
    requires Shaped(grid)
    requires forall i :: 0 <= i < |cells| ==> grid.xMin <= cells[i].x && grid.yMin <= cells[i].y
    ensures -1 <= best < |cells|
    ensures forall i :: 0 <= i < |cells| && CornerA(grid, cells[i]) ==> Square(grid, cells[i].x, cells[i].y, 3) <= maxPower
    ensures forall i :: 0 <= i < best && CornerA(grid, cells[i]) ==> Square(grid, cells[i].x, cells[i].y, 3) < maxPower
    ensures best == -1 ==> maxPower == 0 && maxLoci == C.Loci(0, 0)
    ensures best >= 0 ==> maxLoci == cells[best] && CornerA(grid, maxLoci) && Square(grid, maxLoci.x, maxLoci.y, 3) == maxPower
  {
    maxPower := 0;
    maxLoci := C.Loci(0, 0);
    best := -1;
    for k := 0 to |cells|
      invariant -1 <= best < k
      invariant forall i :: 0 <= i < k && CornerA(grid, cells[i]) ==> Square(grid, cells[i].x, cells[i].y, 3) <= maxPower
      invariant forall i :: 0 <= i < best && CornerA(grid, cells[i]) ==> Square(grid, cells[i].x, cells[i].y, 3) < maxPower
      invariant best == -1 ==> maxPower == 0 && maxLoci == C.Loci(0, 0)
      invariant best >= 0 ==> maxLoci == cells[best] && CornerA(grid, maxLoci) && Square(grid, maxLoci.x, maxLoci.y, 3) == maxPower
    {
      var loci := cells[k];
      if loci.x < XMax(grid) - 3 && loci.y < XMax(grid) - 3 {
        var squarePower := SumPowerSimple(loci, 3, grid);
        if squarePower > maxPower {
          maxPower := squarePower;
          maxLoci := loci;
          best := k;
        }
      }
    }
  }

  // ---------------------------------------------------------------------
  // Part B
  // ---------------------------------------------------------------------

  /** A square `b` considers: side 1 to 20, corner (x, y) with x, y from 1 while the square fits. */
  predicate Candidate<T>(grid: C.Grid<T>, n: int, x: int, y: int)
  {
    1 <= n <= 20 && 1 <= x <= XMax(grid) - n && 1 <= y <= YMax(grid) - n
  }

  /** The visiting order of `b`: by side, then by x, then by y. */
  predicate Before(n: int, x: int, y: int, n': int, x': int, y': int)
  {
    n < n' || (n == n' && (x < x' || (x == x' && y < y')))
  }

  /**
   * What `b` knows once it has reached side `n`, corner (x, y): no square
   * visited so far beats the recorded maximum, every square visited before the
   * recorded one is strictly smaller, and the record is either the initial
   * (0, (0, 0), 0) or a candidate whose power it is.
   */
  ghost predicate Leads(grid: C.Grid<int>, n: int, x: int, y: int, maxLoci: C.Loci, maxSize: int, maxPower: int)
    reads grid
  {
    Shaped(grid)
    && (forall n', x', y' :: Candidate(grid, n', x', y') && Before(n', x', y', n, x, y) ==> Square(grid, x', y', n') <= maxPower)
    && (forall n', x', y' :: Candidate(grid, n', x', y') && Before(n', x', y', maxSize, maxLoci.x, maxLoci.y) ==>
          Square(grid, x', y', n') < maxPower)
    && ((maxPower == 0 && maxLoci == C.Loci(0, 0) && maxSize == 0)
        || (Candidate(grid, maxSize, maxLoci.x, maxLoci.y) && Square(grid, maxLoci.x, maxLoci.y, maxSize) == maxPower))
  }

  /** Every corner of a square of side `n` in the columns before `xEnd` has that side recorded. */
  ghost predicate Memoised(memo: C.Grid<map<int, int>>, n: int, xEnd: int)
    reads memo
  {
    memo.Valid()
    && forall l :: memo.Contains(l) && l.x < xEnd && l.x <= XMax(memo) - n && l.y <= YMax(memo) - n ==> n in memo.Get(l)
  }

  /** Before side `length`, the square one smaller is memoised at every corner where it fits. */
  ghost predicate Ready(memo: C.Grid<map<int, int>>, grid: C.Grid<int>, length: int)
    reads memo
  {
    length > 1 ==> Memoised(memo, length - 1, XMax(grid) - length + 2)
  }

  /**
   * `b`: the square of largest power over all sides from 1 to 20, every
   * square of side above 3 built from the memoised square one smaller.
   * Of equal powers the first visited is kept; it reports (0, 0) of side 0
   * when no square has positive power.
   */
  method B(grid: C.Grid<int>) returns (maxLoci: C.Loci, maxSize: int, maxPower: int)
    requires Shaped(grid)
    ensures forall n, x, y :: Candidate(grid, n, x, y) ==> Square(grid, x, y, n) <= maxPower
    ensures forall n, x, y :: Candidate(grid, n, x, y) && Before(n, x, y, maxSize, maxLoci.x, maxLoci.y) ==>
      Square(grid, x, y, n) < maxPower
    ensures (maxPower == 0 && maxLoci == C.Loci(0, 0) && maxSize == 0)
      || (Candidate(grid, maxSize, maxLoci.x, maxLoci.y) && Square(grid, maxLoci.x, maxLoci.y, maxSize) == maxPower)
  {
    var memo := new C.Grid.NewOffset(map[], Size, Size, 1, 1);
    maxLoci, maxSize, maxPower := SweepAll(grid, memo);
  }

  /** The outer loop of `b`, over the sides 1 to 20, from the initial record. */
  method SweepAll(grid: C.Grid<int>, memo: C.Grid<map<int, int>>) returns (maxLoci: C.Loci, maxSize: int, maxPower: int)
    modifies memo
    requires MemoOk(memo, grid) && Ready(memo, grid, 1)
    ensures Leads(grid, 21, 1, 1, maxLoci, maxSize, maxPower)
  {
    maxPower := 0;
    maxLoci := C.Loci(0, 0);
    maxSize := 0;
    LeadsStart(grid);
    for length := 1 to 21
      invariant Swept(memo, grid, length, maxLoci, maxSize, maxPower)
    {
      maxLoci, maxSize, maxPower := SweepLength(length, grid, memo, maxLoci, maxSize, maxPower);
    }
  }

  /**
   * What the outer loop of `b` keeps before side `length`: the memo is
   * sound, the sides below `length` are recorded, and the record leads.
   */
  ghost predicate Swept(memo: C.Grid<map<int, int>>, grid: C.Grid<int>, length: int, maxLoci: C.Loci, maxSize: int, maxPower: int)
    reads memo, grid
  {
    MemoOk(memo, grid) && Ready(memo, grid, length) && Leads(grid, length, 1, 1, maxLoci, maxSize, maxPower)
  }

  /** Before any square is visited, the initial record (0, 0) of side 0 and power 0 leads. */
  lemma LeadsStart(grid: C.Grid<int>)
    requires Shaped(grid)
    ensures Leads(grid, 1, 1, 1, C.Loci(0, 0), 0, 0)
  {
  }

  /** One pass of the outer loop of `b`: every square of side `length`. */
  method SweepLength(length: int, grid: C.Grid<int>, memo: C.Grid<map<int, int>>, maxLoci: C.Loci, maxSize: int, maxPower: int)
    returns (maxLoci': C.Loci, maxSize': int, maxPower': int)
    modifies memo
    requires 1 <= length <= 20 && Swept(memo, grid, length, maxLoci, maxSize, maxPower)
    ensures Swept(memo, grid, length + 1, maxLoci', maxSize', maxPower')
  {
    maxLoci', maxSize', maxPower' := maxLoci, maxSize, maxPower;
    for x := 1 to XMax(grid) - length + 1
      invariant MemoOk(memo, grid)
      invariant Ready(memo, grid, length)
      invariant Memoised(memo, length, x)
      invariant Leads(grid, length, x, 1, maxLoci', maxSize', maxPower')
    {
      maxLoci', maxSize', maxPower' := SweepColumn(x, length, grid, memo, maxLoci', maxSize', maxPower');
    }
    assert Memoised(memo, length, XMax(grid) - length + 1);
    assert Memoised(memo, (length + 1) - 1, XMax(grid) - (length + 1) + 2);
  }

  /** One pass of the middle loop of `b`: the squares of side `length` with corner in column `x`. */
  method SweepColumn(x: int, length: int, grid: C.Grid<int>, memo: C.Grid<map<int, int>>, maxLoci: C.Loci, maxSize: int, maxPower: int)
    returns (maxLoci': C.Loci, maxSize': int, maxPower': int)
    modifies memo
    requires MemoOk(memo, grid) && 1 <= length <= 20 && 1 <= x <= XMax(grid) - length
    requires Ready(memo, grid, length)
    requires Memoised(memo, length, x)
    requires Leads(grid, length, x, 1, maxLoci, maxSize, maxPower)
    ensures MemoOk(memo, grid)
    ensures Ready(memo, grid, length)
    ensures Memoised(memo, length, x + 1)
    ensures Leads(grid, length, x + 1, 1, maxLoci', maxSize', maxPower')
  {
    maxLoci', maxSize', maxPower' := maxLoci, maxSize, maxPower;
    for y := 1 to YMax(grid) - length + 1
      invariant ColumnProgress(memo, grid, length, x, y)
      invariant Leads(grid, length, x, y, maxLoci', maxSize', maxPower')
    {
      maxLoci', maxSize', maxPower' := SweepCorner(x, y, length, grid, memo, maxLoci', maxSize', maxPower');
    }
    MemoisedColumn(memo, length, x);
    LeadsColumn(grid, length, x, maxLoci', maxSize', maxPower');
  }

  /** One pass of the inner loop of `b`: the square of side `length` at (x, y), kept when strictly larger. */
  method SweepCorner(x: int, y: int, length: int, grid: C.Grid<int>, memo: C.Grid<map<int, int>>, maxLoci: C.Loci, maxSize: int, maxPower: int)
    returns (maxLoci': C.Loci, maxSize': int, maxPower': int)
    modifies memo
    requires 1 <= length <= 20 && 1 <= x <= XMax(grid) - length && 1 <= y <= YMax(grid) - length
    requires ColumnProgress(memo, grid, length, x, y)
    requires Leads(grid, length, x, y, maxLoci, maxSize, maxPower)
    ensures ColumnProgress(memo, grid, length, x, y + 1)
    ensures Leads(grid, length, x, y + 1, maxLoci', maxSize', maxPower')
  {
    var squarePower := Visit(x, y, length, grid, memo);
    maxLoci', maxSize', maxPower' := maxLoci, maxSize, maxPower;
    if squarePower > maxPower {
      maxPower' := squarePower;
      maxLoci' := C.Loci(x, y);
      maxSize' := length;
    }
    LeadsStep(grid, length, x, y, maxLoci, maxSize, maxPower, maxLoci', maxSize', maxPower');
  }

  /** A column whose every corner has side `n` recorded extends `Memoised` by one column. */
  lemma MemoisedColumn(memo: C.Grid<map<int, int>>, n: int, x: int)
    requires Shaped(memo) && Memoised(memo, n, x) && 1 <= n && 1 <= x <= XMax(memo) - n
    requires forall y' :: 1 <= y' < YMax(memo) - n + 1 ==> n in memo.Get(C.Loci(x, y'))
    ensures Memoised(memo, n, x + 1)
  {
  }

  /** Past the last corner of column x, `b` has visited all of column x. */
  lemma LeadsColumn(grid: C.Grid<int>, n: int, x: int, maxLoci: C.Loci, maxSize: int, maxPower: int)
    requires Leads(grid, n, x, YMax(grid) - n + 1, maxLoci, maxSize, maxPower)
    ensures Leads(grid, n, x + 1, 1, maxLoci, maxSize, maxPower)
  {
  }

  /**
   * The memo side of the inner loop of `b` before corner (x, y): the memo is
   * sound, the smaller side is ready, side `length` is recorded in the
   * columns before x and at the corners of column x above y.
   */
  ghost predicate ColumnProgress(memo: C.Grid<map<int, int>>, grid: C.Grid<int>, length: int, x: int, y: int)
    reads memo, grid
  {
    MemoOk(memo, grid) && Ready(memo, grid, length) && Memoised(memo, length, x)
    && forall y' :: 1 <= y' < y && memo.Contains(C.Loci(x, y')) ==> length in memo.Get(C.Loci(x, y'))
  }

  /** The memo side of the inner loop of `b`: `sum_power` at (x, y) keeps every recorded side. */
  method Visit(x: int, y: int, length: int, grid: C.Grid<int>, memo: C.Grid<map<int, int>>) returns (squarePower: int)
    modifies memo
    requires 1 <= length <= 20 && 1 <= x <= XMax(grid) - length && 1 <= y <= YMax(grid) - length
    requires ColumnProgress(memo, grid, length, x, y)
    ensures squarePower == Square(grid, x, y, length)
    ensures ColumnProgress(memo, grid, length, x, y + 1)
  {
    if length > 3 {
      assert memo.Contains(C.Loci(x + 1, y + 1));
    }
    squarePower := SumPower(x, y, length, grid, memo);
    forall y' | 1 <= y' <= y
      ensures length in memo.Get(C.Loci(x, y'))
    {
      if y' < y {
        assert memo.Get(C.Loci(x, y')) == old(memo.Get(C.Loci(x, y')));
      }
    }
  }

  /** Visiting candidate (x, y) of side n moves `Leads` one step on, whether or not it becomes the record. */
  lemma LeadsStep(grid: C.Grid<int>, n: int, x: int, y: int, maxLoci: C.Loci, maxSize: int, maxPower: int,
                  maxLoci': C.Loci, maxSize': int, maxPower': int)
    requires Leads(grid, n, x, y, maxLoci, maxSize, maxPower) && Candidate(grid, n, x, y)
    requires Square(grid, x, y, n) > maxPower ==> maxLoci' == C.Loci(x, y) && maxSize' == n && maxPower' == Square(grid, x, y, n)
    requires Square(grid, x, y, n) <= maxPower ==> maxLoci' == maxLoci && maxSize' == maxSize && maxPower' == maxPower
    ensures Leads(grid, n, x, y + 1, maxLoci', maxSize', maxPower')
  {
  }
}
