/**
 * Day 18 (18/src/shared.rs, 18/src/main.rs): a lumber collection area
 * of open ground, trees and lumberyards changes once a minute, every
 * acre by the same rule over its (up to eight) neighbours.  The area is
 * scored as trees times lumberyards after 10 minutes, and after 10^9
 * minutes by skipping ahead along the cycle the states fall into.
 *
 * The grid is row-major (`Coordinates.Grid`); the specification works on
 * its raw rows, `rows[y][x]`.
 */
module SettlersOfTheNorthPole {
  import opened Wrappers
  import opened Coordinates
  import opened Arithmetic

  datatype Acre = Open | Tree | Lumberyard

  type Rows = seq<seq<Acre>>

  /** Every row has `width` acres. */
  predicate Shape(rows: Rows, width: nat)
  {
    forall y :: 0 <= y < |rows| ==> |rows[y]| == width
  }

  // ---------------------------------------------------------------------
  // count_adjacent
  // ---------------------------------------------------------------------

  /**
   * The 3 x 3 block around (x, y): block cell (r, c), for r, c < 3, is
   * (x + c - 1, y + r - 1), and cell (1, 1) is (x, y) itself.  `Adj` holds
   * of the block cells that are neighbours lying in the area.
   */
  predicate Adj(rows: Rows, width: nat, x: int, y: int, r: int, c: int)
  {
    (r != 1 || c != 1) && 0 <= x + c - 1 < width && 0 <= y + r - 1 < |rows|
  }

  /** Neighbours of kind `a` among cells 0..c-1 of block row r. */
  function RowTally(rows: Rows, width: nat, x: int, y: int, a: Acre, r: int, c: nat): nat
    requires Shape(rows, width)
  {
    if c == 0 then 0
    else
      var here := Adj(rows, width, x, y, r, c - 1) && rows[y + r - 1][x + c - 2] == a;
      RowTally(rows, width, x, y, a, r, c - 1) + if here then 1 else 0
  }

  /** Neighbours of kind `a` in block rows 0..r-1, then in cells 0..c-1 of row r. */
  function Tally(rows: Rows, width: nat, x: int, y: int, a: Acre, r: nat, c: nat): nat
    requires Shape(rows, width)
  {
    if r == 0 then RowTally(rows, width, x, y, a, 0, c)
    else Tally(rows, width, x, y, a, r - 1, 3) + RowTally(rows, width, x, y, a, r, c)
  }

  /** The block around an acre is this many rows and columns. */
  const Block: nat := 3

  /** The neighbours of (x, y) of kind `a`: all eight, clipped to the area. */
  function Adjacent(rows: Rows, width: nat, x: int, y: int, a: Acre): nat
    requires Shape(rows, width)
  {
    Tally(rows, width, x, y, a, Block, 0)
  }

  /** Neighbours in the area among cells 0..c-1 of block row r, whatever their kind. */
  function RowNeighbours(rows: Rows, width: nat, x: int, y: int, r: int, c: nat): nat
  {
    if c == 0 then 0 else RowNeighbours(rows, width, x, y, r, c - 1) + if Adj(rows, width, x, y, r, c - 1) then 1 else 0
  }

  /** Neighbours in the area in block rows 0..r-1, whatever their kind. */
  function Neighbours(rows: Rows, width: nat, x: int, y: int, r: nat): nat
  {
    if r == 0 then 0 else Neighbours(rows, width, x, y, r - 1) + RowNeighbours(rows, width, x, y, r - 1, 3)
  }

  lemma {:induction false} RowKinds(rows: Rows, width: nat, x: int, y: int, r: int, c: nat)
    requires Shape(rows, width)
    ensures RowTally(rows, width, x, y, Open, r, c) + RowTally(rows, width, x, y, Tree, r, c) +
      RowTally(rows, width, x, y, Lumberyard, r, c) == RowNeighbours(rows, width, x, y, r, c)
  {
    if c > 0 {
      RowKinds(rows, width, x, y, r, c - 1);
    }
  }

  /** The three kinds together count each neighbour in the area once. */
  lemma {:induction false} TallyKinds(rows: Rows, width: nat, x: int, y: int, r: nat)
    requires Shape(rows, width)
    ensures Tally(rows, width, x, y, Open, r, 0) + Tally(rows, width, x, y, Tree, r, 0) +
      Tally(rows, width, x, y, Lumberyard, r, 0) == Neighbours(rows, width, x, y, r)
  {
    if r > 0 {
      TallyKinds(rows, width, x, y, r - 1);
      RowKinds(rows, width, x, y, r - 1, 3);
    }
  }

  /** A block row holds at most three neighbours, the middle one at most two; exactly that many away from the edge. */
  lemma {:induction false} RowNeighboursCount(rows: Rows, width: nat, x: int, y: int, r: int, c: nat)
    requires c <= 3
    ensures var most := if r == 1 && c > 1 then c - 1 else c;
      RowNeighbours(rows, width, x, y, r, c) <= most &&
      (1 <= x < width - 1 && 0 <= y + r - 1 < |rows| ==> RowNeighbours(rows, width, x, y, r, c) == most)
  {
    if c > 0 {
      RowNeighboursCount(rows, width, x, y, r, c - 1);
    }
  }

  lemma {:induction false} NeighboursCount(rows: Rows, width: nat, x: int, y: int, r: nat)
    requires r <= 3
    ensures var most := if r > 1 then 3 * r - 1 else 3 * r;
      Neighbours(rows, width, x, y, r) <= most &&
      (1 <= x < width - 1 && 1 <= y < |rows| - 1 ==> Neighbours(rows, width, x, y, r) == most)
  {
    if r > 0 {
      NeighboursCount(rows, width, x, y, r - 1);
      RowNeighboursCount(rows, width, x, y, r - 1, 3);
    }
  }

  /**
   * The counts of `count_adjacent` add up to the number of neighbours
   * inside the area: at most eight, and exactly eight away from the edge.
   */
  lemma AdjacentTotal(rows: Rows, width: nat, x: int, y: int)
    requires Shape(rows, width)
    ensures var n := Adjacent(rows, width, x, y, Open) + Adjacent(rows, width, x, y, Tree) + Adjacent(rows, width, x, y, Lumberyard);
      n <= 8 && (1 <= x < width - 1 && 1 <= y < |rows| - 1 ==> n == 8)
  {
    TallyKinds(rows, width, x, y, 3);
    NeighboursCount(rows, width, x, y, 3);
  }

  /** The three running counts of `count_adjacent` after block rows 0..r-1 and cells 0..c-1 of row r. */
  predicate Counted(rows: Rows, width: nat, x: int, y: int, r: nat, c: nat, open: nat, trees: nat, yards: nat)
    requires Shape(rows, width)
  {
    open == Tally(rows, width, x, y, Open, r, c) && trees == Tally(rows, width, x, y, Tree, r, c) &&
    yards == Tally(rows, width, x, y, Lumberyard, r, c)
  }

  /** Passing block cell (r, c) counts it when it is a neighbour in the area. */
  lemma CountNext(rows: Rows, width: nat, x: int, y: int, r: nat, c: nat, open: nat, trees: nat, yards: nat)
    requires Shape(rows, width) && Counted(rows, width, x, y, r, c, open, trees, yards)
    ensures var inside := Adj(rows, width, x, y, r, c);
      var g := if inside then rows[y + r - 1][x + c - 1] else Open;
      Counted(rows, width, x, y, r, c + 1,
        open + (if inside && g == Open then 1 else 0),
        trees + (if inside && g == Tree then 1 else 0),
        yards + (if inside && g == Lumberyard then 1 else 0))
  {
  }

  /** Counts are unchanged across cells c0..c1-1 of block row r when they lie outside the area. */
  lemma {:induction false} SkipRow(rows: Rows, width: nat, x: int, y: int, r: nat, c0: nat, c1: nat)
    requires Shape(rows, width) && c0 <= c1
    requires !(0 <= y + r - 1 < |rows|) || c0 == c1 || width == 0 || x + c1 - 1 <= 0 || width <= x + c0 - 1
    ensures Tally(rows, width, x, y, Open, r, c1) == Tally(rows, width, x, y, Open, r, c0)
    ensures Tally(rows, width, x, y, Tree, r, c1) == Tally(rows, width, x, y, Tree, r, c0)
    ensures Tally(rows, width, x, y, Lumberyard, r, c1) == Tally(rows, width, x, y, Lumberyard, r, c0)
    decreases c1
  {
    if c0 < c1 {
      SkipRow(rows, width, x, y, r, c0, c1 - 1);
    }
  }

  /** Counts are unchanged across block rows r0..r1-1 when they lie outside the area. */
  lemma {:induction false} SkipRows(rows: Rows, width: nat, x: int, y: int, r0: nat, r1: nat)
    requires Shape(rows, width) && r0 <= r1
    requires r0 == r1 || |rows| == 0 || y + r1 - 1 <= 0 || |rows| <= y + r0 - 1
    ensures Tally(rows, width, x, y, Open, r1, 0) == Tally(rows, width, x, y, Open, r0, 0)
    ensures Tally(rows, width, x, y, Tree, r1, 0) == Tally(rows, width, x, y, Tree, r0, 0)
    ensures Tally(rows, width, x, y, Lumberyard, r1, 0) == Tally(rows, width, x, y, Lumberyard, r0, 0)
    decreases r1
  {
    if r0 < r1 {
      SkipRows(rows, width, x, y, r0, r1 - 1);
      SkipRow(rows, width, x, y, r1 - 1, 0, 3);
    }
  }

  /** A cell more than one step off the area has no neighbours in it. */
  lemma NoneAdjacent(rows: Rows, width: nat, x: int, y: int)
    requires Shape(rows, width)
    requires Min(width - 1, x + 1) < Max(0, x - 1) || Min(|rows| - 1, y + 1) < Max(0, y - 1)
    ensures Adjacent(rows, width, x, y, Open) == 0 && Adjacent(rows, width, x, y, Tree) == 0 &&
      Adjacent(rows, width, x, y, Lumberyard) == 0
  {
    if Min(|rows| - 1, y + 1) < Max(0, y - 1) {
      SkipRows(rows, width, x, y, 0, 3);
    } else {
      SkipRow(rows, width, x, y, 0, 0, 3);
      SkipRow(rows, width, x, y, 1, 0, 3);
      SkipRow(rows, width, x, y, 2, 0, 3);
    }
  }

  /**
   * `count_adjacent`: the open, tree and lumberyard acres among the eight
   * around (x, y), clipped to the area and not counting (x, y) itself.
   */
  method CountAdjacent(x: int, y: int, area: Grid<Acre>) returns (open: nat, trees: nat, yards: nat)
    requires area.Valid()
    ensures var rx, ry := x - area.xMin, y - area.yMin;
      open == Adjacent(area.rows, area.width, rx, ry, Open) &&
      trees == Adjacent(area.rows, area.width, rx, ry, Tree) &&
      yards == Adjacent(area.rows, area.width, rx, ry, Lumberyard)
  {
    ghost var rows, w, rx, ry := area.rows, area.width, x - area.xMin, y - area.yMin;
    open, trees, yards := 0, 0, 0;
    var minX := Max(area.xMin, x - 1);
    var maxX := Min(area.XMax() - 1, x + 1);
    var minY := Max(area.yMin, y - 1);
    var maxY := Min(area.YMax() - 1, y + 1);
    assert Counted(rows, w, rx, ry, 0, 0, 0, 0, 0);
    if maxX < minX || maxY < minY {
      // (x, y) lies more than one cell off the area: both loops would run zero times
      NoneAdjacent(rows, w, rx, ry);
      return;
    }
    SkipRows(rows, w, rx, ry, 0, minY - y + 1);
    var yi := minY;
    while yi <= maxY
      invariant minY <= yi <= maxY + 1
      invariant Counted(rows, w, rx, ry, yi - y + 1, 0, open, trees, yards)
    {
      open, trees, yards := CountRow(x, y, yi, minX, maxX, area, open, trees, yards);
      yi := yi + 1;
    }
    SkipRows(rows, w, rx, ry, yi - y + 1, 3);
  }

  /** The inner loop of `count_adjacent`: columns minX..=maxX of row yi, added to the counts so far. */
  method CountRow(x: int, y: int, yi: int, minX: int, maxX: int, area: Grid<Acre>, open0: nat, trees0: nat, yards0: nat)
    returns (open: nat, trees: nat, yards: nat)
    requires area.Valid() && minX == Max(area.xMin, x - 1) && maxX == Min(area.XMax() - 1, x + 1) && minX <= maxX
    requires Max(area.yMin, y - 1) <= yi <= Min(area.YMax() - 1, y + 1)
    requires Counted(area.rows, area.width, x - area.xMin, y - area.yMin, yi - y + 1, 0, open0, trees0, yards0)
    ensures Counted(area.rows, area.width, x - area.xMin, y - area.yMin, yi - y + 2, 0, open, trees, yards)
  {
    ghost var rows, w, rx, ry := area.rows, area.width, x - area.xMin, y - area.yMin;
    ghost var r: nat := yi - y + 1;
    open, trees, yards := open0, trees0, yards0;
    SkipRow(rows, w, rx, ry, r, 0, minX - x + 1);
    var xi := minX;
    ghost var c: nat := minX - x + 1;
    while xi <= maxX
      invariant minX <= xi <= maxX + 1 && c == xi - x + 1
      invariant Counted(rows, w, rx, ry, r, c, open, trees, yards)
    {
      open, trees, yards := CountCell(x, y, xi, yi, area, open, trees, yards);
      xi, c := xi + 1, c + 1;
    }
    SkipRow(rows, w, rx, ry, r, c, 3);
  }

  /** One pass of the inner loop of `count_adjacent`: cell (xi, yi) counted unless it is (x, y). */
  method CountCell(x: int, y: int, xi: int, yi: int, area: Grid<Acre>, open0: nat, trees0: nat, yards0: nat)
    returns (open: nat, trees: nat, yards: nat)
    requires area.Valid() && area.Contains(Loci(xi, yi)) && x - 1 <= xi <= x + 1 && y - 1 <= yi <= y + 1
    requires Counted(area.rows, area.width, x - area.xMin, y - area.yMin, yi - y + 1, xi - x + 1, open0, trees0, yards0)
    ensures Counted(area.rows, area.width, x - area.xMin, y - area.yMin, yi - y + 1, xi - x + 2, open, trees, yards)
  {
    ghost var rows, w, rx, ry, r, c := area.rows, area.width, x - area.xMin, y - area.yMin, yi - y + 1, xi - x + 1;
    CountNext(rows, w, rx, ry, r, c, open0, trees0, yards0);
    assert Adj(rows, w, rx, ry, r, c) <==> x != xi || y != yi;
    open, trees, yards := open0, trees0, yards0;
    if x != xi || y != yi {
      var acre := area.Get(Loci(xi, yi));
      assert acre == rows[ry + r - 1][rx + c - 1];
      match acre {
        case Open => open := open + 1;
        case Tree => trees := trees + 1;
        case Lumberyard => yards := yards + 1;
      }
    }
  }

  // ---------------------------------------------------------------------
  // next_lumberyard
  // ---------------------------------------------------------------------

  /** What an acre becomes, given the trees and lumberyards around it. */
  function NextAcre(a: Acre, trees: nat, yards: nat): Acre
  {
    match a
      case Open => if trees >= 3 then Tree else Open
      case Tree => if yards >= 3 then Lumberyard else Tree
      case Lumberyard => if yards >= 1 && trees >= 1 then Lumberyard else Open
  }

  /** The next state of the acre at (x, y), by the rule over its neighbours. */
  function NextCell(rows: Rows, width: nat, x: nat, y: nat): Acre
    requires Shape(rows, width) && y < |rows| && x < width
  {
    NextAcre(rows[y][x], Adjacent(rows, width, x, y, Tree), Adjacent(rows, width, x, y, Lumberyard))
  }

  /** The first `n` acres of row `y`, one minute on. */
  function NextRow(rows: Rows, width: nat, y: nat, n: nat): (r: seq<Acre>)
    requires Shape(rows, width) && y < |rows| && n <= width
    ensures |r| == n
  {
    if n == 0 then [] else NextRow(rows, width, y, n - 1) + [NextCell(rows, width, n - 1, y)]
  }

  /** The first `n` rows, one minute on. */
  function NextRows(rows: Rows, width: nat, n: nat): (r: Rows)
    requires Shape(rows, width) && n <= |rows|
    ensures |r| == n && Shape(r, width)
  {
    if n == 0 then [] else NextRows(rows, width, n - 1) + [NextRow(rows, width, n - 1, width)]
  }

  /** One minute: every acre changes by the rule over its neighbours in the state before. */
  function NextArea(rows: Rows, width: nat): (r: Rows)
    requires Shape(rows, width)
    ensures |r| == |rows| && Shape(r, width)
  {
    NextRows(rows, width, |rows|)
  }

  lemma {:induction false} NextRowAt(rows: Rows, width: nat, y: nat, n: nat, x: nat)
    requires Shape(rows, width) && y < |rows| && x < n <= width
    ensures NextRow(rows, width, y, n)[x] == NextCell(rows, width, x, y)
  {
    if x < n - 1 {
      NextRowAt(rows, width, y, n - 1, x);
    }
  }

  lemma {:induction false} NextRowsAt(rows: Rows, width: nat, n: nat, y: nat)
    requires Shape(rows, width) && y < n <= |rows|
    ensures NextRows(rows, width, n)[y] == NextRow(rows, width, y, width)
  {
    if y < n - 1 {
      NextRowsAt(rows, width, n - 1, y);
    }
  }

  /** Each acre of the next area is its acre's next state, and nothing else changes shape. */
  lemma NextAt(rows: Rows, width: nat, x: nat, y: nat)
    requires Shape(rows, width) && y < |rows| && x < width
    ensures NextArea(rows, width)[y][x] == NextCell(rows, width, x, y)
  {
    NextRowsAt(rows, width, |rows|, y);
    NextRowAt(rows, width, y, width, x);
  }

  /**
   * The three rules, acre by acre: open ground grows trees exactly when
   * three or more trees are around it, trees become a lumberyard exactly
   * when three or more lumberyards are around, and a lumberyard survives
   * exactly when at least one lumberyard and one tree are around it.
   */
  lemma NextRules(rows: Rows, width: nat, x: nat, y: nat)
    requires Shape(rows, width) && y < |rows| && x < width
    ensures var n, trees, yards := NextArea(rows, width)[y][x], Adjacent(rows, width, x, y, Tree), Adjacent(rows, width, x, y, Lumberyard);
      (rows[y][x] == Open ==> n != Lumberyard && (n == Tree <==> trees >= 3)) &&
      (rows[y][x] == Tree ==> n != Open && (n == Lumberyard <==> yards >= 3)) &&
      (rows[y][x] == Lumberyard ==> n != Tree && (n == Lumberyard <==> yards >= 1 && trees >= 1))
  {
    NextAt(rows, width, x, y);
  }

  /** An acre of kind `a` is nowhere in the area. */
  predicate Without(rows: Rows, a: Acre)
  {
    forall y, x :: 0 <= y < |rows| && 0 <= x < |rows[y]| ==> rows[y][x] != a
  }

  lemma {:induction false} RowTallyNone(rows: Rows, width: nat, x: int, y: int, a: Acre, r: int, c: nat)
    requires Shape(rows, width) && Without(rows, a)
    ensures RowTally(rows, width, x, y, a, r, c) == 0
  {
    if c > 0 {
      RowTallyNone(rows, width, x, y, a, r, c - 1);
    }
  }

  lemma {:induction false} TallyNone(rows: Rows, width: nat, x: int, y: int, a: Acre, r: nat)
    requires Shape(rows, width) && Without(rows, a)
    ensures Tally(rows, width, x, y, a, r, 0) == 0
  {
    RowTallyNone(rows, width, x, y, a, r, 0);
    if r > 0 {
      TallyNone(rows, width, x, y, a, r - 1);
      RowTallyNone(rows, width, x, y, a, r - 1, 3);
    }
  }

  /**
   * Without trees nothing grows and no lumberyard survives: one minute
   * later the whole area is open ground, which stays open from then on.
   */
  lemma TreelessClears(rows: Rows, width: nat)
    requires Shape(rows, width) && Without(rows, Tree)
    ensures Without(NextArea(rows, width), Tree) && Without(NextArea(rows, width), Lumberyard)
  {
    forall y, x | 0 <= y < |rows| && 0 <= x < width
      ensures NextArea(rows, width)[y][x] == Open
    {
      NextAt(rows, width, x, y);
      TallyNone(rows, width, x, y, Tree, Block);
    }
  }

  /**
   * `next_lumberyard`: every acre of `area` is written with the next state
   * of the same acre of `lastArea`, which is only read.
   */
  method NextLumberyard(lastArea: Grid<Acre>, area: Grid<Acre>)
    modifies area
    requires lastArea.Valid() && area.Valid() && lastArea != area
    requires area.width == lastArea.width && area.height == lastArea.height
    requires area.xMin == lastArea.xMin && area.yMin == lastArea.yMin
    ensures area.Valid() && area.rows == NextArea(lastArea.rows, lastArea.width)
  {
    ghost var next := NextArea(lastArea.rows, lastArea.width);
    var y := lastArea.yMin;
    while y < lastArea.YMax()
      invariant lastArea.yMin <= y <= lastArea.YMax()
      invariant area.Valid()
      invariant forall r :: 0 <= r < y - lastArea.yMin ==> area.rows[r] == next[r]
    {
      var x := lastArea.xMin;
      ghost var ry := y - lastArea.yMin;
      while x < lastArea.XMax()
        invariant lastArea.xMin <= x <= lastArea.XMax()
        invariant area.Valid()
        invariant forall r :: 0 <= r < ry ==> area.rows[r] == next[r]
        invariant forall c :: 0 <= c < x - lastArea.xMin ==> area.rows[ry][c] == next[ry][c]
      {
        var open, trees, yards := CountAdjacent(x, y, lastArea);
        var nextAcre: Acre := match lastArea.Get(Loci(x, y))
          case Open => if trees >= 3 then Tree else Open
          case Tree => if yards >= 3 then Lumberyard else Tree
          case Lumberyard => if yards >= 1 && trees >= 1 then Lumberyard else Open;
        NextAt(lastArea.rows, lastArea.width, x - lastArea.xMin, ry);
        area.Set(Loci(x, y), nextAcre);
        x := x + 1;
      }
      y := y + 1;
    }
  }

  // ---------------------------------------------------------------------
  // parse_input
  // ---------------------------------------------------------------------

  /** `|` is a tree, `#` a lumberyard, `.` open ground; any other character panics. */
  function ParseAcre(c: char): Option<Acre>
  {
    match c
      case '|' => Some(Tree)
      case '#' => Some(Lumberyard)
      case '.' => Some(Open)
      case _ => None
  }

  /** The character each acre is written with in the puzzle input. */
  function Symbol(a: Acre): char
  {
    match a
      case Tree => '|'
      case Lumberyard => '#'
      case Open => '.'
  }

  /** Reading an acre's character gives the acre, and every character that reads is one of the three. */
  lemma ParseSymbol(a: Acre, c: char)
    ensures ParseAcre(Symbol(a)) == Some(a)
    ensures ParseAcre(c) == Some(a) ==> Symbol(a) == c
  {
  }

  /** Every line, every character mapped; None where a character does not read. */
  function ParseLines(lines: seq<string>): (r: Option<Rows>)
    ensures r.Some? <==> forall y, x :: 0 <= y < |lines| && 0 <= x < |lines[y]| ==> ParseAcre(lines[y][x]).Some?
    ensures r.Some? ==> |r.value| == |lines|
    ensures r.Some? ==> forall y :: 0 <= y < |lines| ==> |r.value[y]| == |lines[y]|
    ensures r.Some? ==> forall y, x :: 0 <= y < |lines| && 0 <= x < |lines[y]| ==> ParseAcre(lines[y][x]) == Some(r.value[y][x])
  {
    if lines == [] then Some([])
    else
      match (ParseLines(lines[..|lines| - 1]), ParseLine(lines[|lines| - 1]))
        case (Some(init), Some(last)) => Some(init + [last])
        case _ => None
  }

  function ParseLine(line: string): (r: Option<seq<Acre>>)
    ensures r.Some? <==> forall x :: 0 <= x < |line| ==> ParseAcre(line[x]).Some?
    ensures r.Some? ==> |r.value| == |line| && forall x :: 0 <= x < |line| ==> ParseAcre(line[x]) == Some(r.value[x])
  {
    if line == [] then Some([])
    else
      match (ParseLine(line[..|line| - 1]), ParseAcre(line[|line| - 1]))
        case (Some(init), Some(a)) => Some(init + [a])
        case _ => None
  }

  /**
   * `parse_input`: an area as wide as the first line and as tall as the
   * input, each acre read from its character.  None where the source
   * panics: a character that does not read, an empty input, or a line
   * shorter than the first (longer lines are cut to the first's width).
   */
  method ParseInput(lines: seq<string>) returns (r: Option<Grid<Acre>>)
    ensures r.Some? <==> ParseLines(lines).Some? && |lines| > 0 && forall y :: 0 <= y < |lines| ==> |lines[0]| <= |lines[y]|
    ensures r.Some? ==> fresh(r.value) && r.value.Valid() && r.value.xMin == 0 && r.value.yMin == 0
    ensures r.Some? ==> r.value.width == |lines[0]| && r.value.height == |lines|
    ensures r.Some? ==> forall y, x :: 0 <= y < |lines| && 0 <= x < |lines[0]| ==> ParseAcre(lines[y][x]) == Some(r.value.rows[y][x])
  {
    var parsed := ParseLines(lines);
    if parsed.None? || |lines| == 0 {
      return None;
    }
    var acres := parsed.value;
    var area := new Grid.NewOffset(Open, |acres[0]|, |acres|, 0, 0);
    var y := 0;
    while y < area.YMax()
      invariant 0 <= y <= area.YMax() && area.Valid() && fresh(area)
      invariant forall j :: 0 <= j < y ==> |lines[0]| <= |lines[j]|
      invariant forall j, x :: 0 <= j < y && 0 <= x < |lines[0]| ==> area.rows[j][x] == acres[j][x]
    {
      if |acres[y]| < area.XMax() {
        return None;
      }
      var x := 0;
      while x < area.XMax()
        invariant 0 <= x <= area.XMax() && area.Valid()
        invariant forall j, i :: 0 <= j < y && 0 <= i < |lines[0]| ==> area.rows[j][i] == acres[j][i]
        invariant forall i :: 0 <= i < x ==> area.rows[y][i] == acres[y][i]
      {
        area.Set(Loci(x, y), acres[y][x]);
        x := x + 1;
      }
      y := y + 1;
    }
    return Some(area);
  }

  // ---------------------------------------------------------------------
  // get_area_score
  // ---------------------------------------------------------------------

  /** How many acres of a row are of kind `a`. */
  function RowCount(row: seq<Acre>, a: Acre): nat
  {
    if row == [] then 0 else RowCount(row[..|row| - 1], a) + (if row[|row| - 1] == a then 1 else 0)
  }

  /** How many acres of the area are of kind `a`. */
  function Count(rows: Rows, a: Acre): nat
  {
    if rows == [] then 0 else Count(rows[..|rows| - 1], a) + RowCount(rows[|rows| - 1], a)
  }

  /** The resource value: wooded acres times lumberyards. */
  function Score(rows: Rows): nat
  {
    Count(rows, Tree) * Count(rows, Lumberyard)
  }

  /** A row's count is the multiplicity of the kind among the row's acres. */
  lemma {:induction false} RowCountIsMultiplicity(row: seq<Acre>, a: Acre)
    ensures RowCount(row, a) == multiset(row)[a]
  {
    if row != [] {
      RowCountIsMultiplicity(row[..|row| - 1], a);
      assert row == row[..|row| - 1] + [row[|row| - 1]];
    }
  }

  lemma {:induction false} RowCountNone(row: seq<Acre>, a: Acre)
    ensures RowCount(row, a) == 0 <==> forall x :: 0 <= x < |row| ==> row[x] != a
  {
    if row != [] {
      RowCountNone(row[..|row| - 1], a);
    }
  }

  /** No acre of kind `a` is counted exactly when there is none. */
  lemma {:induction false} CountNone(rows: Rows, a: Acre)
    ensures Count(rows, a) == 0 <==> Without(rows, a)
  {
    if rows != [] {
      CountNone(rows[..|rows| - 1], a);
      RowCountNone(rows[|rows| - 1], a);
      if Count(rows, a) == 0 {
        forall y, x | 0 <= y < |rows| && 0 <= x < |rows[y]|
          ensures rows[y][x] != a
        {
          if y < |rows| - 1 {
            assert rows[y] == rows[..|rows| - 1][y];
          }
        }
      } else {
        if Count(rows[..|rows| - 1], a) != 0 {
          var y, x :| 0 <= y < |rows| - 1 && 0 <= x < |rows[..|rows| - 1][y]| && rows[..|rows| - 1][y][x] == a;
          assert rows[y][x] == a;
        }
      }
    }
  }

  /** The count of one row, acre by acre. */
  method CountRowAcres(area: Grid<Acre>, y: int) returns (trees: nat, yards: nat)
    requires area.Valid() && area.yMin <= y < area.YMax()
    ensures trees == RowCount(area.rows[y - area.yMin], Tree)
    ensures yards == RowCount(area.rows[y - area.yMin], Lumberyard)
  {
    ghost var row := area.rows[y - area.yMin];
    trees, yards := 0, 0;
    var x := area.xMin;
    while x < area.XMax()
      invariant area.xMin <= x <= area.XMax()
      invariant trees == RowCount(row[..x - area.xMin], Tree)
      invariant yards == RowCount(row[..x - area.xMin], Lumberyard)
    {
      assert row[..x - area.xMin + 1][..x - area.xMin] == row[..x - area.xMin];
      match area.Get(Loci(x, y)) {
        case Open =>
        case Tree => trees := trees + 1;
        case Lumberyard => yards := yards + 1;
      }
      x := x + 1;
    }
    assert row[..area.width] == row;
  }

  /** `get_area_score`: both kinds counted over the whole area, then multiplied. */
  method GetAreaScore(area: Grid<Acre>) returns (score: nat)
    requires area.Valid()
    ensures score == Score(area.rows)
  {
    var treeCount, lumberCount := 0, 0;
    var y := area.yMin;
    while y < area.YMax()
      invariant area.yMin <= y <= area.YMax()
      invariant treeCount == Count(area.rows[..y - area.yMin], Tree)
      invariant lumberCount == Count(area.rows[..y - area.yMin], Lumberyard)
    {
      assert area.rows[..y - area.yMin + 1][..y - area.yMin] == area.rows[..y - area.yMin];
      var trees, yards := CountRowAcres(area, y);
      treeCount, lumberCount := treeCount + trees, lumberCount + yards;
      y := y + 1;
    }
    assert area.rows[..area.height] == area.rows;
    return treeCount * lumberCount;
  }

  // ---------------------------------------------------------------------
  // run_lumber and run_cycle_lumber
  // ---------------------------------------------------------------------

  /** The area after `n` minutes. */
  function Iterate(rows: Rows, width: nat, n: nat): (r: Rows)
    requires Shape(rows, width)
    ensures |r| == |rows| && Shape(r, width)
  {
    if n == 0 then rows else NextArea(Iterate(rows, width, n - 1), width)
  }

  /** Running `m` minutes and then `n` more is running `m + n`. */
  lemma {:induction false} IterateAdd(rows: Rows, width: nat, m: nat, n: nat)
    requires Shape(rows, width)
    ensures Iterate(Iterate(rows, width, m), width, n) == Iterate(rows, width, m + n)
  {
    if n > 0 {
      IterateAdd(rows, width, m, n - 1);
    }
  }

  /** Once an area comes back after `p` minutes, every later minute is the one `p` earlier. */
  lemma {:induction false} IterateCycle(rows: Rows, width: nat, p: nat, n: nat)
    requires Shape(rows, width) && p > 0 && Iterate(rows, width, p) == rows
    ensures Iterate(rows, width, n) == Iterate(rows, width, n % p)
  {
    if n < p {
      DivModUnique(n, p, 0, n);
    } else {
      IterateAdd(rows, width, p, n - p);
      assert Iterate(rows, width, n) == Iterate(rows, width, n - p);
      IterateCycle(rows, width, p, n - p);
      ModSub(n, p);
    }
  }

  /**
   * One step around a cycle of length `len`: if minute `minute` looks like
   * minute `index - 1` then minute `minute + 1` looks like minute `index`,
   * where stepping past the last kept area comes back to the first.
   */
  lemma CycleStep(rows: Rows, width: nat, len: nat, index: nat, minute: nat)
    requires Shape(rows, width) && 0 <= index < len && Iterate(rows, width, len) == rows
    requires Iterate(rows, width, minute) == Iterate(rows, width, if index == 0 then len - 1 else index - 1)
    ensures Iterate(rows, width, minute + 1) == Iterate(rows, width, index)
  {
  }

  /** A treeless area stays treeless and, from the first minute on, is worth nothing. */
  lemma {:induction false} TreelessWorthless(rows: Rows, width: nat, n: nat)
    requires Shape(rows, width) && Without(rows, Tree)
    ensures Without(Iterate(rows, width, n), Tree)
    ensures Score(Iterate(rows, width, n)) == 0
  {
    if n > 0 {
      TreelessWorthless(rows, width, n - 1);
      TreelessClears(Iterate(rows, width, n - 1), width);
    }
    CountNone(Iterate(rows, width, n), Tree);
  }

  /** The areas seen after minutes 1 to `n`, the states `run_lumber` keeps fingerprints of. */
  function Seen(rows: Rows, width: nat, n: nat): set<Rows>
    requires Shape(rows, width)
  {
    if n == 0 then {} else Seen(rows, width, n - 1) + {Iterate(rows, width, n)}
  }

  /** `!i & ONE_MASK` on a buffer index: the other buffer. */
  function Flip(i: nat): (r: nat)
    requires i < 2
    ensures r == 1 - i
  {
    ((!(i as bv64)) & 1) as nat
  }

  /**
   * The second loop of `run_cycle_lumber`: with minute `minute` showing the
   * kept area `index` and the areas repeating every `len` minutes, the
   * index is advanced one minute at a time, wrapping at `len`, until the
   * last minute; the area it ends on is the one shown then.
   */
  method WalkCycle(ghost rows: Rows, width: nat, len: nat, index: nat, minute: nat, minutes: nat) returns (r: nat)
    requires Shape(rows, width) && index < len && minute <= minutes
    requires Iterate(rows, width, minute) == Iterate(rows, width, index)
    requires minute < minutes ==> Iterate(rows, width, len) == rows
    ensures r < len && Iterate(rows, width, minutes) == Iterate(rows, width, r)
  {
    r := index;
    var m := minute;
    while m < minutes
      invariant m <= minutes && r < len
      invariant Iterate(rows, width, m) == Iterate(rows, width, r)
    {
      r := r + 1;
      if r >= len {
        r := 0;
      }
      CycleStep(rows, width, len, r, m);
      m := m + 1;
    }
  }

  /** `Grid::new` with open ground, filled by `next_lumberyard` from `lastArea`. */
  method NextFresh(lastArea: Grid<Acre>) returns (area: Grid<Acre>)
    requires lastArea.Valid() && lastArea.xMin == 0 && lastArea.yMin == 0
    ensures fresh(area) && area.Valid() && area.xMin == 0 && area.yMin == 0
    ensures area.width == lastArea.width && area.height == lastArea.height
    ensures area.rows == NextArea(lastArea.rows, lastArea.width)
  {
    area := new Grid.NewOffset(Open, lastArea.width, lastArea.height, 0, 0);
    NextLumberyard(lastArea, area);
  }

  /** The areas of minutes 0 to `n - 1`, in order. */
  function Trail(rows: Rows, width: nat, n: nat): (r: seq<Rows>)
    requires Shape(rows, width)
    ensures |r| == n
  {
    if n == 0 then [] else Trail(rows, width, n - 1) + [Iterate(rows, width, n - 1)]
  }

  lemma {:induction false} TrailAt(rows: Rows, width: nat, n: nat, k: nat)
    requires Shape(rows, width) && k < n
    ensures Trail(rows, width, n)[k] == Iterate(rows, width, k)
  {
    if k < n - 1 {
      TrailAt(rows, width, n - 1, k);
    }
  }

  /**
   * The first loop of `run_cycle_lumber`: steps from `initial`, keeping
   * every area, until the area comes back to `initial` (its fingerprint
   * matches) or the minutes run out.  The areas kept are those of the
   * first minutes in order; the returned index shows minute `minute`; and
   * when minutes remain, the kept areas are one whole cycle.
   */
  method KeepCycle(minutes: nat, initial: Grid<Acre>) returns (areas: seq<Grid<Acre>>, areaIndex: nat, minute: nat)
    requires initial.Valid() && initial.xMin == 0 && initial.yMin == 0
    ensures minute <= minutes && areaIndex < |areas|
    ensures forall k :: 0 <= k < |areas| ==> areas[k].Valid()
    ensures forall k :: 0 <= k < |areas| ==> areas[k].rows == Trail(initial.rows, initial.width, |areas|)[k]
    ensures Iterate(initial.rows, initial.width, minute) == Iterate(initial.rows, initial.width, areaIndex)
    ensures minute < minutes ==> Iterate(initial.rows, initial.width, |areas|) == initial.rows
  {
    var start := initial.rows;
    var width := initial.width;
    var first := new Grid.Copy(initial);
    areas := [first];
    areaIndex := 0;
    minute := 0;
    ghost var kept := [start];
    while minute < minutes
      invariant minute <= minutes && |areas| == minute + 1 && areaIndex == minute && |kept| == |areas|
      invariant forall k :: 0 <= k < |areas| ==>
        areas[k].Valid() && areas[k].xMin == 0 && areas[k].yMin == 0 &&
        areas[k].width == width && areas[k].height == initial.height && areas[k].rows == kept[k]
      invariant kept == Trail(start, width, |kept|)
      invariant areas[areaIndex].rows == Iterate(start, width, minute)
    {
      var lastAreaIndex := areaIndex;
      areaIndex := |areas|;
      var area := NextFresh(areas[lastAreaIndex]);
      assert area.rows == Iterate(start, width, minute + 1);
      minute := minute + 1;
      if area.rows == start {
        areaIndex := 0;
        return;
      }
      areas := areas + [area];
      kept := kept + [area.rows];
    }
  }

  /**
   * `run_cycle_lumber`: the areas are kept until one comes back to
   * `initial`, the remaining minutes walk around them, and the score is
   * that of the area `minutes` minutes on.
   */
  method RunCycleLumber(minutes: nat, initial: Grid<Acre>) returns (score: nat)
    requires initial.Valid() && initial.xMin == 0 && initial.yMin == 0
    ensures score == Score(Iterate(initial.rows, initial.width, minutes))
  {
    var areas, areaIndex, minute := KeepCycle(minutes, initial);
    areaIndex := WalkCycle(initial.rows, initial.width, |areas|, areaIndex, minute, minutes);
    TrailAt(initial.rows, initial.width, |areas|, areaIndex);
    score := GetAreaScore(areas[areaIndex]);
  }

  /** One minute of `run_lumber`: the buffer holding minute `minute` is read, the other written with the next. */
  method Turn(lastArea: Grid<Acre>, area: Grid<Acre>, ghost start: Rows, ghost minute: nat)
    modifies area
    requires lastArea.Valid() && area.Valid() && lastArea != area
    requires area.width == lastArea.width && area.height == lastArea.height
    requires area.xMin == lastArea.xMin && area.yMin == lastArea.yMin
    requires Shape(start, lastArea.width) && lastArea.rows == Iterate(start, lastArea.width, minute)
    ensures area.Valid() && area.rows == Iterate(start, lastArea.width, minute + 1)
  {
    NextLumberyard(lastArea, area);
  }

  /**
   * The return of `run_lumber` on a repeated area: `area` shows minute
   * `minute + 1`, and `run_cycle_lumber` runs the minutes left from it.
   */
  method Resume(minutes: nat, minute: nat, area: Grid<Acre>, ghost start: Rows) returns (score: nat)
    requires area.Valid() && area.xMin == 0 && area.yMin == 0 && minute < minutes
    requires Shape(start, area.width) && area.rows == Iterate(start, area.width, minute + 1)
    ensures score == Score(Iterate(start, area.width, minutes))
  {
    score := RunCycleLumber(minutes - minute - 1, area);
    IterateAdd(start, area.width, minute + 1, minutes - minute - 1);
  }

  /**
   * `run_lumber`: two buffers take turns as the area read and the area
   * written.  The first area to repeat an earlier minute's hands the
   * remaining minutes to `RunCycleLumber`; otherwise all `minutes` are
   * stepped.  Either way the score is that of the area `minutes` on.
   */
  method RunLumber(minutes: nat, initial: Grid<Acre>) returns (score: nat)
    requires initial.Valid() && initial.xMin == 0 && initial.yMin == 0
    ensures score == Score(Iterate(initial.rows, initial.width, minutes))
  {
    ghost var start := initial.rows;
    var width := initial.width;
    var front := new Grid.Copy(initial);
    var back := new Grid.Copy(initial);
    var areas := [front, back];
    var areaIndex := 0;
    var lastAreaIndex := 1;
    var cycleFinder: set<Rows> := {};
    var minute := 0;
    while minute < minutes
      invariant minute <= minutes && areaIndex < 2 && lastAreaIndex == 1 - areaIndex
      invariant fresh(front) && fresh(back) && front != back
      invariant front.Valid() && front.xMin == 0 && front.yMin == 0 && front.width == width && front.height == initial.height
      invariant back.Valid() && back.xMin == 0 && back.yMin == 0 && back.width == width && back.height == initial.height
      invariant areas[areaIndex].rows == Iterate(start, width, minute)
      invariant cycleFinder == Seen(start, width, minute)
    {
      areaIndex := lastAreaIndex;
      lastAreaIndex := Flip(lastAreaIndex);
      Turn(areas[lastAreaIndex], areas[areaIndex], start, minute);
      if areas[areaIndex].rows in cycleFinder {
        score := Resume(minutes, minute, areas[areaIndex], start);
        assert initial.rows == start && initial.width == width;
        return;
      }
      cycleFinder := cycleFinder + {areas[areaIndex].rows};
      minute := minute + 1;
    }
    score := GetAreaScore(areas[areaIndex]);
  }

  /** Part one: the resource value after ten minutes. */
  method A(initial: Grid<Acre>) returns (score: nat)
    requires initial.Valid() && initial.xMin == 0 && initial.yMin == 0
    ensures score == Score(Iterate(initial.rows, initial.width, 10))
  {
    score := RunLumber(10, initial);
  }

  /** Part two: the resource value after a billion minutes. */
  method B(initial: Grid<Acre>) returns (score: nat)
    requires initial.Valid() && initial.xMin == 0 && initial.yMin == 0
    ensures score == Score(Iterate(initial.rows, initial.width, 1000000000))
  {
    score := RunLumber(1000000000, initial);
  }
}
