/**
 * Day 13 (13/src/main.rs): trains run on a grid of track pieces.  Each
 * tick the trains grid is scanned row by row, left to right; a train that
 * has not moved yet this tick steps one cell, follows the curve it lands
 * on and at an intersection turns left, goes straight and turns right in
 * rotation.  The `moved` flag, compared with a state that flips every tick,
 * keeps a train from moving twice in one tick.  Part A stops at the first
 * collision; part B removes both trains of every collision and stops once
 * a tick ends with one train left.
 */
module MineCartMadness {
  import opened Wrappers
  import C = Coordinates
  import G = ColumnGrid

  datatype Turn = Left | Straight | Right

  /** The train characters `^`, `>`, `v` and `<`; y grows downwards. */
  datatype Dir = North | East | South | West

  datatype Train = Train(dir: Dir, lastTurn: Turn, moved: bool)

  // ---------------------------------------------------------------------
  // Directions and turns
  // ---------------------------------------------------------------------

  function Ccw(d: Dir): Dir
  {
    match d
    case North => West
    case West => South
    case South => East
    case East => North
  }

  function Cw(d: Dir): Dir
  {
    match d
    case North => East
    case East => South
    case South => West
    case West => North
  }

  function Opposite(d: Dir): Dir
  {
    match d
    case North => South
    case South => North
    case East => West
    case West => East
  }

  /** `next_turn`: left, straight, right, and round again. */
  function NextTurn(t: Turn): Turn
  {
    match t
    case Left => Straight
    case Straight => Right
    case Right => Left
  }

  /** `intersection`: the next turn of the rotation is taken and recorded; `moved` is kept. */
  function Intersection(t: Train): (r: Train)
    ensures r.lastTurn == NextTurn(t.lastTurn) && r.moved == t.moved
    ensures r.lastTurn == Left ==> r.dir == Ccw(t.dir)
    ensures r.lastTurn == Right ==> r.dir == Cw(t.dir)
    ensures r.lastTurn == Straight ==> r.dir == t.dir
  {
    var next := NextTurn(t.lastTurn);
    var dir := match next
      case Left => Ccw(t.dir)
      case Right => Cw(t.dir)
      case Straight => t.dir;
    Train(dir, next, t.moved)
  }

  /** Three intersections in a row turn left, straight and right: the train is back as it was. */
  lemma ThreeIntersections(t: Train)
    ensures Intersection(Intersection(Intersection(t))) == t
  {
    match t.lastTurn
    case Left => assert Cw(t.dir) == Cw(t.dir); assert Ccw(Cw(t.dir)) == t.dir;
    case Straight => assert Ccw(Cw(t.dir)) == t.dir;
    case Right => assert Cw(Ccw(t.dir)) == t.dir;
  }

  /** A train as parsed (last turn Right) turns left at its first intersection. */
  lemma FirstIntersectionLeft(d: Dir)
    ensures Intersection(Train(d, Right, false)) == Train(Ccw(d), Left, false)
  {
  }

  /** `turn`: only the direction changes. */
  function TurnTo(t: Train, dir: Dir): (r: Train)
    ensures r.dir == dir && r.lastTurn == t.lastTurn && r.moved == t.moved
  {
    t.(dir := dir)
  }

  /** The `/` curve. */
  function Slash(d: Dir): Dir
  {
    match d
    case North => East
    case East => North
    case South => West
    case West => South
  }

  /** The `\` curve. */
  function Backslash(d: Dir): Dir
  {
    match d
    case North => West
    case West => North
    case South => East
    case East => South
  }

  /**
   * Both curves turn a quarter, and a train that leaves a curve and comes
   * back the other way leaves it the way it first came in.
   */
  lemma CurvesReverse(d: Dir)
    ensures Slash(d) == Cw(d) || Slash(d) == Ccw(d)
    ensures Backslash(d) == Cw(d) || Backslash(d) == Ccw(d)
    ensures Slash(Opposite(Slash(d))) == Opposite(d)
    ensures Backslash(Opposite(Backslash(d))) == Opposite(d)
  {
  }

  // ---------------------------------------------------------------------
  // Moving one train
  // ---------------------------------------------------------------------

  /** The cell one step from (x, y) in direction d. */
  function Ahead(x: int, y: int, d: Dir): C.Loci
  {
    match d
    case North => C.Loci(x, y - 1)
    case South => C.Loci(x, y + 1)
    case East => C.Loci(x + 1, y)
    case West => C.Loci(x - 1, y)
  }

  /** The track grid by columns; reading outside it panics in the source. */
  function TrackAt(tracks: seq<seq<char>>, x: int, y: int): Option<char>
  {
    if 0 <= x < |tracks| && 0 <= y < |tracks[x]| then Some(tracks[x][y]) else None
  }

  /**
   * `next_train`: the train steps one cell and takes the piece it lands on;
   * None where the source reads outside the track grid and panics.
   */
  function NextTrain(t: Train, x: int, y: int, tracks: seq<seq<char>>): Option<(C.Loci, Train)>
  {
    var n := Ahead(x, y, t.dir);
    match TrackAt(tracks, n.x, n.y)
    case None => None
    case Some(piece) =>
      Some((n, if piece == '\\' then TurnTo(t, Backslash(t.dir))
               else if piece == '/' then TurnTo(t, Slash(t.dir))
               else if piece == '+' then Intersection(t)
               else t))
  }

  /**
   * A train moves exactly one cell in the direction it faced, keeps its
   * `moved` flag, and never reverses.
   */
  lemma NextTrainSteps(t: Train, x: int, y: int, tracks: seq<seq<char>>)
    requires NextTrain(t, x, y, tracks).Some?
    ensures var (n, t') := NextTrain(t, x, y, tracks).value;
      n == Ahead(x, y, t.dir) && C.Distance(n, C.Loci(x, y)) == 1 && t'.moved == t.moved && t'.dir != Opposite(t.dir)
      && (TrackAt(tracks, n.x, n.y) == Some('/') ==> t'.dir == Slash(t.dir))
      && (TrackAt(tracks, n.x, n.y) == Some('\\') ==> t'.dir == Backslash(t.dir))
  {
    CurvesReverse(t.dir);
  }

  // ---------------------------------------------------------------------
  // The track under a train
  // ---------------------------------------------------------------------

  /** `check_connection`: the neighbour is the expected straight piece, a curve or an intersection. */
  predicate Connects(expected: char, c: char)
  {
    c == expected || c == '\\' || c == '/' || c == '+'
  }

  /** The neighbour reads of `under_track` stay inside the (ragged) input rows. */
  predicate Readable(x: nat, y: nat, input: seq<seq<char>>)
  {
    y < |input| && x < |input[y]| && (y > 0 ==> x < |input[y - 1]|) && (y + 1 < |input| ==> x < |input[y + 1]|)
  }

  function Up(x: nat, y: nat, input: seq<seq<char>>): bool
    requires Readable(x, y, input)
  {
    y > 0 && Connects('|', input[y - 1][x])
  }

  function Down(x: nat, y: nat, input: seq<seq<char>>): bool
    requires Readable(x, y, input)
  {
    y < |input| - 1 && Connects('|', input[y + 1][x])
  }

  function LeftOf(x: nat, y: nat, input: seq<seq<char>>): bool
    requires Readable(x, y, input)
  {
    x > 0 && Connects('-', input[y][x - 1])
  }

  function RightOf(x: nat, y: nat, input: seq<seq<char>>): bool
    requires Readable(x, y, input)
  {
    x < |input[y]| - 1 && Connects('-', input[y][x + 1])
  }

  /** `under_track`: the piece under a train from its connected sides; None where the source panics. */
  function UnderTrack(x: nat, y: nat, input: seq<seq<char>>): Option<char>
    requires Readable(x, y, input)
  {
    var up, down, left, right := Up(x, y, input), Down(x, y, input), LeftOf(x, y, input), RightOf(x, y, input);
    if up && down && left && right then Some('+')
    else if (down && right && !up && !left) || (up && left && !down && !right) then Some('/')
    else if (down && left && !up && !right) || (up && right && !down && !left) then Some('\\')
    else if up && down then Some('|')
    else if right && left then Some('-')
    else None
  }

  /** The sides a piece opens on. */
  function Opens(piece: char): set<Dir>
  {
    if piece == '+' then {North, East, South, West}
    else if piece == '|' then {North, South}
    else if piece == '-' then {East, West}
    else {}
  }

  /** Whether side d of (x, y) connects. */
  function Side(x: nat, y: nat, input: seq<seq<char>>, d: Dir): bool
    requires Readable(x, y, input)
  {
    match d
    case North => Up(x, y, input)
    case South => Down(x, y, input)
    case West => LeftOf(x, y, input)
    case East => RightOf(x, y, input)
  }

  /**
   * The piece found under a train connects on every side it opens: `+`
   * exactly when all four sides connect, a straight piece on its two ends,
   * a curve on exactly the two sides it joins; any straight run through the
   * cell is found.
   */
  lemma UnderTrackConnects(x: nat, y: nat, input: seq<seq<char>>)
    requires Readable(x, y, input)
    ensures var r := UnderTrack(x, y, input);
      (r == Some('+') <==> forall d :: Side(x, y, input, d))
      && (r.Some? ==> forall d :: d in Opens(r.value) ==> Side(x, y, input, d))
      && (r == Some('/') ==> (Side(x, y, input, South) && Side(x, y, input, East) && !Side(x, y, input, North) && !Side(x, y, input, West))
                             || (Side(x, y, input, North) && Side(x, y, input, West) && !Side(x, y, input, South) && !Side(x, y, input, East)))
      && (r == Some('\\') ==> (Side(x, y, input, South) && Side(x, y, input, West) && !Side(x, y, input, North) && !Side(x, y, input, East))
                              || (Side(x, y, input, North) && Side(x, y, input, East) && !Side(x, y, input, South) && !Side(x, y, input, West)))
      && ((Side(x, y, input, North) && Side(x, y, input, South)) || (Side(x, y, input, East) && Side(x, y, input, West)) ==> r.Some?)
  {
    var r := UnderTrack(x, y, input);
    if forall d :: Side(x, y, input, d) {
      assert Side(x, y, input, North) && Side(x, y, input, South) && Side(x, y, input, East) && Side(x, y, input, West);
      assert r == Some('+');
    }
    if r == Some('+') {
      forall d
        ensures Side(x, y, input, d)
      {
      }
    }
  }

  // ---------------------------------------------------------------------
  // The trains grid
  // ---------------------------------------------------------------------

  /** The trains grid by columns (`Grid::new` has offset 0). */
  type World = seq<seq<Option<Train>>>

  /** Every column holds `height` cells. */
  predicate Shaped<T>(w: seq<seq<T>>, height: nat)
  {
    forall x :: 0 <= x < |w| ==> |w[x]| == height
  }

  /** The track grid has the trains grid's shape. */
  predicate Matching(w: World, tracks: seq<seq<char>>, height: nat)
  {
    Shaped(w, height) && Shaped(tracks, height) && |tracks| == |w|
  }

  function Put(w: World, x: nat, y: nat, v: Option<Train>): World
    requires x < |w| && y < |w[x]|
  {
    w[x := w[x][y := v]]
  }

  /** A train that has not moved yet in the tick with this `moved_state`. */
  predicate Eligible(cell: Option<Train>, movedState: bool)
  {
    cell.Some? && cell.value.moved != movedState
  }

  datatype Event = Running | Crashed(at: C.Loci) | Derailed

  /** The scan's state: the grid, `train_count`, `last_train` and whether it has stopped. */
  datatype Scan = Scan(world: World, count: int, last: C.Loci, event: Event)

  /**
   * The loop body at (x, y): an eligible train leaves its cell and steps;
   * landing on another train stops part A (`removeCrashed` false) or, in
   * part B, clears that train too, uncounting it if it had moved this tick.
   * Otherwise the train lands with its flag flipped and is counted.
   */
  function Visit(s: Scan, tracks: seq<seq<char>>, height: nat, x: nat, y: nat, movedState: bool, removeCrashed: bool): (r: Scan)
    requires Matching(s.world, tracks, height) && x < |s.world| && y < height
    ensures Shaped(r.world, height) && |r.world| == |s.world|
  {
    if s.event != Running || !Eligible(s.world[x][y], movedState) then s
    else
      var t := s.world[x][y].value;
      var w1 := Put(s.world, x, y, None);
      match NextTrain(t, x, y, tracks)
      case None => s.(world := w1, event := Derailed)
      case Some((n, t')) =>
        if w1[n.x][n.y].Some? then
          if removeCrashed then
            var hit := w1[n.x][n.y].value;
            s.(world := Put(w1, n.x, n.y, None), count := if hit.moved == movedState then s.count - 1 else s.count)
          else s.(world := w1, event := Crashed(n))
        else s.(world := Put(w1, n.x, n.y, Some(t'.(moved := !t'.moved))), count := s.count + 1, last := n)
  }

  /** The scan after the cells (0, y) .. (x - 1, y) of row y. */
  function ScanRow(s: Scan, tracks: seq<seq<char>>, height: nat, y: nat, x: nat, movedState: bool, removeCrashed: bool): (r: Scan)
    requires Matching(s.world, tracks, height) && x <= |s.world| && y < height
    ensures Shaped(r.world, height) && |r.world| == |s.world|
  {
    if x == 0 then s
    else Visit(ScanRow(s, tracks, height, y, x - 1, movedState, removeCrashed), tracks, height, x - 1, y, movedState, removeCrashed)
  }

  /** The scan after rows 0 .. y - 1. */
  function ScanRows(s: Scan, tracks: seq<seq<char>>, height: nat, y: nat, movedState: bool, removeCrashed: bool): (r: Scan)
    requires Matching(s.world, tracks, height) && y <= height
    ensures Shaped(r.world, height) && |r.world| == |s.world|
  {
    if y == 0 then s
    else ScanRow(ScanRows(s, tracks, height, y - 1, movedState, removeCrashed), tracks, height, y - 1, |s.world|, movedState, removeCrashed)
  }

  /** One tick: every cell in reading order, `train_count` from 0, `last_train` carried over. */
  function Tick(w: World, tracks: seq<seq<char>>, height: nat, movedState: bool, removeCrashed: bool, last: C.Loci): (r: Scan)
    requires Matching(w, tracks, height)
    ensures Shaped(r.world, height) && |r.world| == |w|
  {
    ScanRows(Scan(w, 0, last, Running), tracks, height, height, movedState, removeCrashed)
  }

  /** How a run of ticks ends. */
  datatype Ending = Found(at: C.Loci, world: World) | Derail | Undecided

  /** `a`: ticks until the first collision, at most `fuel` of them. */
  function RunA(w: World, tracks: seq<seq<char>>, height: nat, movedState: bool, fuel: nat): Ending
    requires Matching(w, tracks, height)
    decreases fuel
  {
    if fuel == 0 then Undecided
    else
      var s := Tick(w, tracks, height, movedState, false, C.Loci(0, 0));
      match s.event
      case Crashed(at) => Found(at, s.world)
      case Derailed => Derail
      case Running => RunA(s.world, tracks, height, !movedState, fuel - 1)
  }

  /** `b` as written: ticks until one ends with `train_count` 1, then reports `last_train`. */
  function RunB(w: World, tracks: seq<seq<char>>, height: nat, movedState: bool, last: C.Loci, fuel: nat): Ending
    requires Matching(w, tracks, height)
    decreases fuel
  {
    if fuel == 0 then Undecided
    else
      var s := Tick(w, tracks, height, movedState, true, last);
      if s.event == Derailed then Derail
      else if s.count == 1 then Found(s.last, s.world)
      else RunB(s.world, tracks, height, !movedState, s.last, fuel - 1)
  }

  /** `b` with the evident intent: once one train is left, report where that train is. */
  function RunBFixed(w: World, tracks: seq<seq<char>>, height: nat, movedState: bool, fuel: nat): (e: Ending)
    requires Matching(w, tracks, height)
    decreases fuel
  {
    if fuel == 0 then Undecided
    else
      var s := Tick(w, tracks, height, movedState, true, C.Loci(0, 0));
      if s.event == Derailed then Derail
      else if s.count == 1 then
        match FindTrain(s.world)
        case Some(l) => Found(l, s.world)
        case None => Undecided
      else RunBFixed(s.world, tracks, height, !movedState, fuel - 1)
  }

  // ---------------------------------------------------------------------
  // Counting trains
  // ---------------------------------------------------------------------

  function CountCol(col: seq<Option<Train>>, f: Option<Train> -> bool): nat
  {
    if col == [] then 0 else CountCol(col[..|col| - 1], f) + (if f(col[|col| - 1]) then 1 else 0)
  }

  /** The cells of the grid satisfying f. */
  function Count(w: World, f: Option<Train> -> bool): nat
  {
    if w == [] then 0 else Count(w[..|w| - 1], f) + CountCol(w[|w| - 1], f)
  }

  function Present(): Option<Train> -> bool
  {
    (c: Option<Train>) => c.Some?
  }

  function MovedAs(movedState: bool): Option<Train> -> bool
  {
    (c: Option<Train>) => c.Some? && c.value.moved == movedState
  }

  lemma {:induction false} CountColPut(col: seq<Option<Train>>, y: nat, v: Option<Train>, f: Option<Train> -> bool)
    requires y < |col|
    ensures CountCol(col[y := v], f) == CountCol(col, f) - (if f(col[y]) then 1 else 0) + (if f(v) then 1 else 0)
  {
    var last := |col| - 1;
    if y < last {
      assert col[y := v][..last] == col[..last][y := v];
      CountColPut(col[..last], y, v, f);
    } else {
      assert col[y := v][..last] == col[..last];
    }
  }

  /** Writing one cell changes the count by what left and what arrived, nothing more. */
  lemma {:induction false} CountPut(w: World, x: nat, y: nat, v: Option<Train>, f: Option<Train> -> bool)
    requires x < |w| && y < |w[x]|
    ensures Count(Put(w, x, y, v), f) == Count(w, f) - (if f(w[x][y]) then 1 else 0) + (if f(v) then 1 else 0)
  {
    var last := |w| - 1;
    if x < last {
      assert Put(w, x, y, v)[..last] == Put(w[..last], x, y, v);
      CountPut(w[..last], x, y, v, f);
    } else {
      assert Put(w, x, y, v)[..last] == w[..last];
      CountColPut(w[x], y, v, f);
    }
  }

  lemma {:induction false} CountColPositive(col: seq<Option<Train>>, y: nat, f: Option<Train> -> bool)
    requires y < |col| && f(col[y])
    ensures CountCol(col, f) >= 1
  {
    if y < |col| - 1 {
      CountColPositive(col[..|col| - 1], y, f);
    }
  }

  /** A cell satisfying f is counted. */
  lemma {:induction false} CountPositive(w: World, x: nat, y: nat, f: Option<Train> -> bool)
    requires x < |w| && y < |w[x]| && f(w[x][y])
    ensures Count(w, f) >= 1
  {
    if x < |w| - 1 {
      CountPositive(w[..|w| - 1], x, y, f);
    } else {
      CountColPositive(w[x], y, f);
    }
  }

  lemma {:induction false} CountColSame(col: seq<Option<Train>>, f: Option<Train> -> bool, g: Option<Train> -> bool)
    requires forall y :: 0 <= y < |col| ==> f(col[y]) == g(col[y])
    ensures CountCol(col, f) == CountCol(col, g)
  {
    if col != [] {
      CountColSame(col[..|col| - 1], f, g);
    }
  }

  /** Two tests that agree on every cell count the same. */
  lemma {:induction false} CountSame(w: World, f: Option<Train> -> bool, g: Option<Train> -> bool)
    requires forall x, y :: 0 <= x < |w| && 0 <= y < |w[x]| ==> f(w[x][y]) == g(w[x][y])
    ensures Count(w, f) == Count(w, g)
  {
    if w != [] {
      CountSame(w[..|w| - 1], f, g);
      CountColSame(w[|w| - 1], f, g);
    }
  }

  function FindInCol(col: seq<Option<Train>>): (r: Option<nat>)
    ensures r.Some? ==> r.value < |col| && col[r.value].Some?
    ensures r.None? ==> forall y :: 0 <= y < |col| ==> col[y].None?
  {
    if col == [] then None
    else if col[|col| - 1].Some? then Some(|col| - 1)
    else FindInCol(col[..|col| - 1])
  }

  /** Some cell holding a train, or None when the grid is empty of trains. */
  function FindTrain(w: World): (r: Option<C.Loci>)
    ensures r.Some? ==> 0 <= r.value.x < |w| && 0 <= r.value.y < |w[r.value.x]| && w[r.value.x][r.value.y].Some?
    ensures r.None? ==> forall x, y :: 0 <= x < |w| && 0 <= y < |w[x]| ==> w[x][y].None?
  {
    if w == [] then None
    else match FindInCol(w[|w| - 1])
      case Some(y) => Some(C.Loci(|w| - 1, y))
      case None => FindTrain(w[..|w| - 1])
  }

  /** With exactly one train on the grid, `FindTrain` finds it and every other cell is empty. */
  lemma OnlyTrain(w: World)
    requires Count(w, Present()) == 1
    ensures FindTrain(w).Some?
    ensures forall x, y :: 0 <= x < |w| && 0 <= y < |w[x]| && w[x][y].Some? ==> C.Loci(x, y) == FindTrain(w).value
  {
    if FindTrain(w).None? {
      CountSame(w, Present(), (c: Option<Train>) => false);
      CountNone(w);
      assert false;
    }
    var l := FindTrain(w).value;
    forall x, y | 0 <= x < |w| && 0 <= y < |w[x]| && w[x][y].Some?
      ensures C.Loci(x, y) == l
    {
      if C.Loci(x, y) != l {
        CountPut(w, l.x, l.y, None, Present());
        assert Put(w, l.x, l.y, None)[x][y].Some?;
        CountPositive(Put(w, l.x, l.y, None), x, y, Present());
        assert false;
      }
    }
  }

  lemma {:induction false} CountNone(w: World)
    ensures Count(w, (c: Option<Train>) => false) == 0
  {
    if w != [] {
      CountNone(w[..|w| - 1]);
      CountColNone(w[|w| - 1]);
    }
  }

  lemma {:induction false} CountColNone(col: seq<Option<Train>>)
    ensures CountCol(col, (c: Option<Train>) => false) == 0
  {
    if col != [] {
      CountColNone(col[..|col| - 1]);
    }
  }

  // ---------------------------------------------------------------------
  // What a tick does
  // ---------------------------------------------------------------------

  /** Cell (cx, cy) comes before (x, y) in the scan: an earlier row, or further left in the same row. */
  predicate Before(cx: int, cy: int, x: int, y: int)
  {
    cy < y || (cy == y && cx < x)
  }

  /** Every train still to move this tick sits at or after (x, y) in the scan. */
  predicate Pending(w: World, x: int, y: int, movedState: bool)
  {
    forall cx, cy :: 0 <= cx < |w| && 0 <= cy < |w[cx]| && Eligible(w[cx][cy], movedState) ==> !Before(cx, cy, x, y)
  }

  /** Once the scan has stopped, the rest of the row leaves it as it is. */
  lemma {:induction false} RowStays(s: Scan, tracks: seq<seq<char>>, height: nat, y: nat, x: nat, x': nat, movedState: bool, removeCrashed: bool)
    requires Matching(s.world, tracks, height) && x <= x' <= |s.world| && y < height
    requires ScanRow(s, tracks, height, y, x, movedState, removeCrashed).event != Running
    ensures ScanRow(s, tracks, height, y, x', movedState, removeCrashed) == ScanRow(s, tracks, height, y, x, movedState, removeCrashed)
    decreases x'
  {
    if x' > x {
      RowStays(s, tracks, height, y, x, x' - 1, movedState, removeCrashed);
    }
  }

  /** Once the scan has stopped, it stays stopped in every later row. */
  lemma {:induction false} RowsStay(s: Scan, tracks: seq<seq<char>>, height: nat, y: nat, y': nat, movedState: bool, removeCrashed: bool)
    requires Matching(s.world, tracks, height) && y < y' <= height
    requires ScanRow(ScanRows(s, tracks, height, y, movedState, removeCrashed), tracks, height, y, |s.world|, movedState, removeCrashed).event != Running
    ensures ScanRows(s, tracks, height, y', movedState, removeCrashed) == ScanRows(s, tracks, height, y + 1, movedState, removeCrashed)
    decreases y'
  {
    if y' > y + 1 {
      RowsStay(s, tracks, height, y, y' - 1, movedState, removeCrashed);
      var prev := ScanRows(s, tracks, height, y' - 1, movedState, removeCrashed);
      RowStays(prev, tracks, height, y' - 1, 0, |s.world|, movedState, removeCrashed);
    }
  }

  /**
   * Visiting (x, y) leaves no train to move at (x, y) and adds none
   * before it: the moved train lands with its flag equal to the tick's.
   */
  lemma VisitPending(s: Scan, tracks: seq<seq<char>>, height: nat, x: nat, y: nat, movedState: bool, removeCrashed: bool)
    requires Matching(s.world, tracks, height) && x < |s.world| && y < height
    requires Pending(s.world, x, y, movedState)
    ensures var r := Visit(s, tracks, height, x, y, movedState, removeCrashed);
      r.event == Running ==> Pending(r.world, x + 1, y, movedState)
  {
    if s.event == Running && Eligible(s.world[x][y], movedState) {
      var t := s.world[x][y].value;
      match NextTrain(t, x, y, tracks)
      case None =>
      case Some((n, t')) =>
        NextTrainSteps(t, x, y, tracks);
    }
  }

  /** The count minus the trains that have moved this tick never changes. */
  lemma VisitCounts(s: Scan, tracks: seq<seq<char>>, height: nat, x: nat, y: nat, movedState: bool, removeCrashed: bool)
    requires Matching(s.world, tracks, height) && x < |s.world| && y < height
    ensures var r := Visit(s, tracks, height, x, y, movedState, removeCrashed);
      r.count - Count(r.world, MovedAs(movedState)) == s.count - Count(s.world, MovedAs(movedState))
  {
    if s.event == Running && Eligible(s.world[x][y], movedState) {
      var t := s.world[x][y].value;
      var w1 := Put(s.world, x, y, None);
      CountPut(s.world, x, y, None, MovedAs(movedState));
      match NextTrain(t, x, y, tracks)
      case None =>
      case Some((n, t')) =>
        NextTrainSteps(t, x, y, tracks);
        CountPut(w1, n.x, n.y, None, MovedAs(movedState));
        CountPut(w1, n.x, n.y, Some(t'.(moved := !t'.moved)), MovedAs(movedState));
    }
  }

  /** In part A a visit that does not stop the scan keeps every train. */
  lemma VisitKeepsTrains(s: Scan, tracks: seq<seq<char>>, height: nat, x: nat, y: nat, movedState: bool)
    requires Matching(s.world, tracks, height) && x < |s.world| && y < height
    ensures var r := Visit(s, tracks, height, x, y, movedState, false);
      r.event == Running ==> Count(r.world, Present()) == Count(s.world, Present())
  {
    if s.event == Running && Eligible(s.world[x][y], movedState) {
      var t := s.world[x][y].value;
      var w1 := Put(s.world, x, y, None);
      CountPut(s.world, x, y, None, Present());
      match NextTrain(t, x, y, tracks)
      case None =>
      case Some((n, t')) =>
        CountPut(w1, n.x, n.y, Some(t'.(moved := !t'.moved)), Present());
    }
  }

  /** The train at (x, y) is due to move and steps onto a cell holding another train. */
  predicate Collides(s: Scan, tracks: seq<seq<char>>, height: nat, x: nat, y: nat, movedState: bool)
    requires Matching(s.world, tracks, height) && x < |s.world| && y < height
  {
    s.event == Running && Eligible(s.world[x][y], movedState)
    && match NextTrain(s.world[x][y].value, x, y, tracks)
       case None => false
       case Some((n, _)) => s.world[n.x][n.y].Some?
  }

  /**
   * In part B a collision takes both trains off the grid and any other
   * visit keeps every train.
   */
  lemma VisitRemovesPair(s: Scan, tracks: seq<seq<char>>, height: nat, x: nat, y: nat, movedState: bool)
    requires Matching(s.world, tracks, height) && x < |s.world| && y < height
    ensures var r := Visit(s, tracks, height, x, y, movedState, true);
      r.event == Running ==>
        Count(r.world, Present()) == Count(s.world, Present()) - (if Collides(s, tracks, height, x, y, movedState) then 2 else 0)
  {
    if s.event == Running && Eligible(s.world[x][y], movedState) {
      var t := s.world[x][y].value;
      var w1 := Put(s.world, x, y, None);
      CountPut(s.world, x, y, None, Present());
      match NextTrain(t, x, y, tracks)
      case None =>
      case Some((n, t')) =>
        NextTrainSteps(t, x, y, tracks);
        CountPut(w1, n.x, n.y, None, Present());
        CountPut(w1, n.x, n.y, Some(t'.(moved := !t'.moved)), Present());
    }
  }

  /** A stopped collision happens only in part A and names a cell of the grid that holds a train. */
  predicate CrashSite(s: Scan, height: nat, removeCrashed: bool)
  {
    s.event.Crashed? ==>
      !removeCrashed && 0 <= s.event.at.x < |s.world| && 0 <= s.event.at.y < height && |s.world[s.event.at.x]| == height
      && s.world[s.event.at.x][s.event.at.y].Some?
  }

  lemma VisitCrashSite(s: Scan, tracks: seq<seq<char>>, height: nat, x: nat, y: nat, movedState: bool, removeCrashed: bool)
    requires Matching(s.world, tracks, height) && x < |s.world| && y < height
    requires CrashSite(s, height, removeCrashed)
    ensures CrashSite(Visit(s, tracks, height, x, y, movedState, removeCrashed), height, removeCrashed)
  {
    if s.event == Running && Eligible(s.world[x][y], movedState) {
      var t := s.world[x][y].value;
      match NextTrain(t, x, y, tracks)
      case None =>
      case Some((n, t')) =>
        NextTrainSteps(t, x, y, tracks);
    }
  }

  /** Through a row: the pending trains stay ahead of the scan and the counts stay in step. */
  lemma {:induction false} RowKeeps(s: Scan, tracks: seq<seq<char>>, height: nat, y: nat, x: nat, movedState: bool, removeCrashed: bool)
    requires Matching(s.world, tracks, height) && x <= |s.world| && y < height
    ensures var r := ScanRow(s, tracks, height, y, x, movedState, removeCrashed);
      (r.event == Running && Pending(s.world, 0, y, movedState) ==> Pending(r.world, x, y, movedState))
      && r.count - Count(r.world, MovedAs(movedState)) == s.count - Count(s.world, MovedAs(movedState))
      && (r.event == Running && !removeCrashed ==> Count(r.world, Present()) == Count(s.world, Present()))
      && (CrashSite(s, height, removeCrashed) ==> CrashSite(r, height, removeCrashed))
  {
    if x > 0 {
      var prev := ScanRow(s, tracks, height, y, x - 1, movedState, removeCrashed);
      RowKeeps(s, tracks, height, y, x - 1, movedState, removeCrashed);
      if prev.event == Running && Pending(s.world, 0, y, movedState) {
        VisitPending(prev, tracks, height, x - 1, y, movedState, removeCrashed);
      }
      VisitCounts(prev, tracks, height, x - 1, y, movedState, removeCrashed);
      if CrashSite(s, height, removeCrashed) {
        VisitCrashSite(prev, tracks, height, x - 1, y, movedState, removeCrashed);
      }
      if !removeCrashed {
        VisitKeepsTrains(prev, tracks, height, x - 1, y, movedState);
      }
    }
  }

  /** Through whole rows: after rows 0 .. y - 1 no train still to move sits in them. */
  lemma {:induction false} RowsKeep(s: Scan, tracks: seq<seq<char>>, height: nat, y: nat, movedState: bool, removeCrashed: bool)
    requires Matching(s.world, tracks, height) && y <= height
    ensures var r := ScanRows(s, tracks, height, y, movedState, removeCrashed);
      (r.event == Running ==> Pending(r.world, 0, y, movedState))
      && r.count - Count(r.world, MovedAs(movedState)) == s.count - Count(s.world, MovedAs(movedState))
      && (r.event == Running && !removeCrashed ==> Count(r.world, Present()) == Count(s.world, Present()))
      && (CrashSite(s, height, removeCrashed) ==> CrashSite(r, height, removeCrashed))
  {
    if y > 0 {
      var prev := ScanRows(s, tracks, height, y - 1, movedState, removeCrashed);
      RowsKeep(s, tracks, height, y - 1, movedState, removeCrashed);
      RowKeeps(prev, tracks, height, y - 1, |s.world|, movedState, removeCrashed);
      var r := ScanRows(s, tracks, height, y, movedState, removeCrashed);
      if r.event == Running {
        if prev.event != Running {
          RowStays(prev, tracks, height, y - 1, 0, |s.world|, movedState, removeCrashed);
        }
      }
    }
  }

  /**
   * After a tick that was not stopped every train has moved exactly once:
   * each carries the tick's flag.  `train_count` is the number of trains
   * that moved and survived, so when none carried the flag at the start it
   * is the number of trains left; part A loses no train in such a tick.
   */
  lemma TickMovesAll(w: World, tracks: seq<seq<char>>, height: nat, movedState: bool, removeCrashed: bool, last: C.Loci)
    requires Matching(w, tracks, height)
    requires Count(w, MovedAs(movedState)) == 0
    ensures var r := Tick(w, tracks, height, movedState, removeCrashed, last);
      r.event == Running ==>
        (forall x, y :: 0 <= x < |r.world| && 0 <= y < |r.world[x]| && r.world[x][y].Some? ==> r.world[x][y].value.moved == movedState)
        && r.count == Count(r.world, Present())
        && Count(r.world, MovedAs(!movedState)) == 0
        && (!removeCrashed ==> Count(r.world, Present()) == Count(w, Present()))
  {
    var r := Tick(w, tracks, height, movedState, removeCrashed, last);
    RowsKeep(Scan(w, 0, last, Running), tracks, height, height, movedState, removeCrashed);
    if r.event == Running {
      forall x, y | 0 <= x < |r.world| && 0 <= y < |r.world[x]| && r.world[x][y].Some?
        ensures r.world[x][y].value.moved == movedState
      {
        assert Before(x, y, 0, height);
      }
      CountSame(r.world, MovedAs(movedState), Present());
      CountSame(r.world, MovedAs(!movedState), (c: Option<Train>) => false);
      CountNone(r.world);
    }
  }

  /** `a` reports a cell of the grid holding the train that was run into. */
  lemma {:induction false} RunAFindsTrain(w: World, tracks: seq<seq<char>>, height: nat, movedState: bool, fuel: nat)
    requires Matching(w, tracks, height)
    ensures RunA(w, tracks, height, movedState, fuel).Found? ==>
      var e := RunA(w, tracks, height, movedState, fuel);
      0 <= e.at.x < |e.world| && 0 <= e.at.y < height && |e.world[e.at.x]| == height && e.world[e.at.x][e.at.y].Some?
    decreases fuel
  {
    if fuel > 0 {
      var s := Tick(w, tracks, height, movedState, false, C.Loci(0, 0));
      RowsKeep(Scan(w, 0, C.Loci(0, 0), Running), tracks, height, height, movedState, false);
      if s.event == Running {
        RunAFindsTrain(s.world, tracks, height, !movedState, fuel - 1);
      }
    }
  }

  /**
   * `b` with the evident intent reports the one train left: when every
   * train is still to move at the start, the final cell holds a train and
   * every other cell is empty.
   */
  lemma {:induction false} RunBFixedFindsLast(w: World, tracks: seq<seq<char>>, height: nat, movedState: bool, fuel: nat)
    requires Matching(w, tracks, height) && Count(w, MovedAs(movedState)) == 0
    ensures RunBFixed(w, tracks, height, movedState, fuel).Found? ==>
      var e := RunBFixed(w, tracks, height, movedState, fuel);
      0 <= e.at.x < |e.world| && 0 <= e.at.y < |e.world[e.at.x]| && e.world[e.at.x][e.at.y].Some?
      && forall x, y :: 0 <= x < |e.world| && 0 <= y < |e.world[x]| && e.world[x][y].Some? ==> C.Loci(x, y) == e.at
    decreases fuel
  {
    if fuel > 0 {
      var s := Tick(w, tracks, height, movedState, true, C.Loci(0, 0));
      TickMovesAll(w, tracks, height, movedState, true, C.Loci(0, 0));
      RowsKeep(Scan(w, 0, C.Loci(0, 0), Running), tracks, height, height, movedState, true);
      if s.event == Running {
        if s.count == 1 {
          OnlyTrain(s.world);
          assert RunBFixed(w, tracks, height, movedState, fuel) == Found(FindTrain(s.world).value, s.world);
        } else {
          RunBFixedFindsLast(s.world, tracks, height, !movedState, fuel - 1);
        }
      }
    }
  }

  /** The one-row track `->-->-<-` as columns of height 1. */
  function LoneRowTracks(): seq<seq<char>>
  {
    [['-'], ['-'], ['-'], ['-'], ['-'], ['-'], ['-'], ['-']]
  }

  /** Trains at x = 1 and x = 4 heading east and at x = 6 heading west, none moved yet. */
  function LoneRowTrains(): World
  {
    var east := Some(Train(East, Right, false));
    [[None], [east], [None], [None], [east], [None], [Some(Train(West, Right, false))], [None]]
  }

  function LoneRowScan(k: nat): Scan
  {
    var moved := [Some(Train(East, Right, true))];
    if k < 2 then Scan(LoneRowTrains(), 0, C.Loci(0, 0), Running)
    else if k < 5 then Scan([[None], [None], moved, [None], [Some(Train(East, Right, false))], [None], [Some(Train(West, Right, false))], [None]], 1, C.Loci(2, 0), Running)
    else if k < 7 then Scan([[None], [None], moved, [None], [None], moved, [Some(Train(West, Right, false))], [None]], 2, C.Loci(5, 0), Running)
    else Scan([[None], [None], moved, [None], [None], [None], [None], [None]], 1, C.Loci(5, 0), Running)
  }

  /** Visiting a cell of the row `->-->-<-` in the first tick of `b`. */
  lemma LoneRowVisit(k: nat)
    requires k < 8
    ensures Visit(LoneRowScan(k), LoneRowTracks(), 1, k, 0, true, true) == LoneRowScan(k + 1)
  {
    var tracks := LoneRowTracks();
    var none: seq<Option<Train>> := [None];
    var moved := [Some(Train(East, Right, true))];
    if k == 1 {
      assert NextTrain(Train(East, Right, false), 1, 0, tracks) == Some((C.Loci(2, 0), Train(East, Right, false)));
      assert [Some(Train(East, Right, false))][0 := None] == none;
      assert none[0 := moved[0]] == moved;
      assert Put(Put(LoneRowScan(1).world, 1, 0, None), 2, 0, moved[0]) == LoneRowScan(2).world;
    } else if k == 4 {
      assert NextTrain(Train(East, Right, false), 4, 0, tracks) == Some((C.Loci(5, 0), Train(East, Right, false)));
      assert [Some(Train(East, Right, false))][0 := None] == none;
      assert none[0 := moved[0]] == moved;
      assert Put(Put(LoneRowScan(4).world, 4, 0, None), 5, 0, moved[0]) == LoneRowScan(5).world;
    } else if k == 6 {
      assert NextTrain(Train(West, Right, false), 6, 0, tracks) == Some((C.Loci(5, 0), Train(West, Right, false)));
      assert [Some(Train(West, Right, false))][0 := None] == none;
      assert moved[0 := None] == none;
      assert Put(Put(LoneRowScan(6).world, 6, 0, None), 5, 0, None) == LoneRowScan(7).world;
    }
  }

  /** The scan of the row `->-->-<-` after k cells, in the first tick of `b`. */
  lemma {:induction false} LoneRowScans(k: nat)
    requires k <= 8
    ensures ScanRow(LoneRowScan(0), LoneRowTracks(), 1, 0, k, true, true) == LoneRowScan(k)
  {
    if k > 0 {
      LoneRowScans(k - 1);
      LoneRowVisit(k - 1);
    }
  }

  lemma {:induction false} SkipEmptyColumns(w: World, k: nat, n: nat)
    requires k <= n <= |w|
    requires forall x :: k <= x < n ==> FindInCol(w[x]).None?
    ensures FindTrain(w[..n]) == FindTrain(w[..k])
    decreases n
  {
    if n > k {
      assert w[..n][..n - 1] == w[..n - 1];
      SkipEmptyColumns(w, k, n - 1);
    }
  }

  lemma LoneRowTick()
    ensures Tick(LoneRowTrains(), LoneRowTracks(), 1, true, true, C.Loci(0, 0)) == LoneRowScan(8)
  {
    LoneRowScans(8);
    assert ScanRows(LoneRowScan(0), LoneRowTracks(), 1, 0, true, true) == LoneRowScan(0);
  }

  lemma LoneRowSurvivor()
    ensures FindTrain(LoneRowScan(8).world) == Some(C.Loci(2, 0))
  {
    var w := LoneRowScan(8).world;
    assert FindInCol(w[7]) == None && FindInCol(w[6]) == None && FindInCol(w[5]) == None;
    assert FindInCol(w[4]) == None && FindInCol(w[3]) == None && FindInCol(w[2]) == Some(0);
    assert FindTrain(w[..3]) == Some(C.Loci(2, 0));
    SkipEmptyColumns(w, 3, 8);
    assert w[..8] == w;
  }

  /**
   * `b` as written reports the cell of the last train that moved safely,
   * which a later train then ran into: in the first tick the trains at 4
   * and 6 meet at 5, `train_count` ends at 1 and (5, 0) is reported,
   * while the one train left stands at (2, 0), as the corrected `b` says.
   */
  lemma RunBReportsCrashedTrain()
    ensures var e := RunB(LoneRowTrains(), LoneRowTracks(), 1, true, C.Loci(0, 0), 1);
      e.Found? && e.at == C.Loci(5, 0) && e.world[5][0].None? && e.world[2][0].Some?
    ensures RunBFixed(LoneRowTrains(), LoneRowTracks(), 1, true, 1).Found?
    ensures RunBFixed(LoneRowTrains(), LoneRowTracks(), 1, true, 1).at == C.Loci(2, 0)
  {
    LoneRowTick();
    LoneRowSurvivor();
  }

  // ---------------------------------------------------------------------
  // The grids as the source updates them
  // ---------------------------------------------------------------------

  /** The two grids as `parse_input` builds them: one shape, offset 0. */
  ghost predicate Setup(trains: G.Grid<Option<Train>>, tracks: G.Grid<char>)
    reads trains, tracks
  {
    trains.Valid() && tracks.Valid()
    && trains.xOffset == 0 && trains.yOffset == 0 && tracks.xOffset == 0 && tracks.yOffset == 0
    && trains.width == tracks.width && trains.height == tracks.height
  }

  /**
   * The loop body of `a` and `b` at (x, y), on a scan still running: the
   * trains grid afterwards and the returned `train_count`, `last_train`
   * and outcome are those of `Visit`.
   */
  method MoveCell(trains: G.Grid<Option<Train>>, tracks: G.Grid<char>, x: nat, y: nat, movedState: bool, removeCrashed: bool,
                  count: int, last: C.Loci)
    returns (count': int, last': C.Loci, event: Event)
    modifies trains
    requires Setup(trains, tracks) && x < trains.width && y < trains.height
    ensures Setup(trains, tracks)
    ensures Scan(trains.columns, count', last', event)
      == Visit(Scan(old(trains.columns), count, last, Running), tracks.columns, trains.height, x, y, movedState, removeCrashed)
  {
    count', last', event := count, last, Running;
    var here := C.Loci(x, y);
    var cell := trains.Get(here);
    if cell.Some? && cell.value.moved != movedState {
      var train := cell.value;
      trains.Set(here, None);
      match NextTrain(train, x, y, tracks.columns)
      case None =>
        event := Derailed;
      case Some((n, next)) =>
        var hit := trains.Get(n);
        if hit.Some? {
          if removeCrashed {
            if hit.value.moved == movedState {
              count' := count - 1;
            }
            trains.Set(n, None);
          } else {
            event := Crashed(n);
          }
        } else {
          trains.Set(n, Some(next.(moved := !next.moved)));
          count' := count + 1;
          last' := n;
        }
    }
  }

  /**
   * One pass over the grid in reading order, `train_count` starting at 0;
   * part A leaves the pass at its first collision.  The grid and the
   * results are those of `Tick`.
   */
  method MoveAll(trains: G.Grid<Option<Train>>, tracks: G.Grid<char>, movedState: bool, removeCrashed: bool, last: C.Loci)
    returns (count: int, last': C.Loci, event: Event)
    modifies trains
    requires Setup(trains, tracks)
    ensures Setup(trains, tracks)
    ensures Scan(trains.columns, count, last', event)
      == Tick(old(trains.columns), tracks.columns, trains.height, movedState, removeCrashed, last)
  {
    ghost var s0 := Scan(trains.columns, 0, last, Running);
    count, last', event := 0, last, Running;
    var y := 0;
    while y < trains.height
      invariant Setup(trains, tracks) && y <= trains.height
      invariant event == Running
      invariant Scan(trains.columns, count, last', event) == ScanRows(s0, tracks.columns, trains.height, y, movedState, removeCrashed)
    {
      ghost var row := ScanRows(s0, tracks.columns, trains.height, y, movedState, removeCrashed);
      var x := 0;
      while x < trains.width
        invariant Setup(trains, tracks) && x <= trains.width
        invariant event == Running
        invariant Scan(trains.columns, count, last', event) == ScanRow(row, tracks.columns, trains.height, y, x, movedState, removeCrashed)
      {
        count, last', event := MoveCell(trains, tracks, x, y, movedState, removeCrashed, count, last');
        if event != Running {
          RowStays(row, tracks.columns, trains.height, y, x + 1, trains.width, movedState, removeCrashed);
          RowsStay(s0, tracks.columns, trains.height, y, trains.height, movedState, removeCrashed);
          return;
        }
        x := x + 1;
      }
      y := y + 1;
    }
  }

  /**
   * `a`: a copy of the trains runs tick after tick, `moved_state` starting
   * true and flipping each tick, until a collision.
   */
  method A(initial: G.Grid<Option<Train>>, tracks: G.Grid<char>, fuel: nat) returns (r: Ending)
    requires Setup(initial, tracks)
    ensures r == RunA(initial.columns, tracks.columns, initial.height, true, fuel)
  {
    var trains := new G.Grid.NewOffset(None, initial.width, initial.height, 0, 0);
    trains.columns := initial.columns;
    var movedState := true;
    var steps := fuel;
    while steps > 0
      invariant Setup(trains, tracks) && trains.height == initial.height
      invariant RunA(trains.columns, tracks.columns, trains.height, movedState, steps)
        == RunA(initial.columns, tracks.columns, initial.height, true, fuel)
    {
      var _, _, event := MoveAll(trains, tracks, movedState, false, C.Loci(0, 0));
      if event.Crashed? {
        return Found(event.at, trains.columns);
      } else if event.Derailed? {
        return Derail;
      }
      movedState := !movedState;
      steps := steps - 1;
    }
    return Undecided;
  }

  /**
   * `b` with the evident intent: as the source, ticks until one ends with
   * `train_count` 1, then reports the cell of the train left.
   */
  method B(initial: G.Grid<Option<Train>>, tracks: G.Grid<char>, fuel: nat) returns (r: Ending)
    requires Setup(initial, tracks)
    ensures r == RunBFixed(initial.columns, tracks.columns, initial.height, true, fuel)
  {
    var trains := new G.Grid.NewOffset(None, initial.width, initial.height, 0, 0);
    trains.columns := initial.columns;
    var movedState := true;
    var steps := fuel;
    while steps > 0
      invariant Setup(trains, tracks) && trains.height == initial.height
      invariant RunBFixed(trains.columns, tracks.columns, trains.height, movedState, steps)
        == RunBFixed(initial.columns, tracks.columns, initial.height, true, fuel)
    {
      var count, _, event := MoveAll(trains, tracks, movedState, true, C.Loci(0, 0));
      if event.Derailed? {
        return Derail;
      }
      movedState := !movedState;
      if count == 1 {
        match FindTrain(trains.columns)
        case Some(l) => return Found(l, trains.columns);
        case None => return Undecided;
      }
      steps := steps - 1;
    }
    return Undecided;
  }
}
