/**
 * The cave of 22/src/main.rs: a grid of regions whose type follows from a
 * geologic index and an erosion level, and a tool-aware A* search from the
 * mouth (0, 0) to the target.  A search state is a location together with
 * the equipped tool; moving one region costs 1 minute, switching tools
 * costs 7.
 */
module ModeMaze {
  import opened Wrappers
  import opened Coordinates

  datatype RegionType = Rocky | Wet | Narrow

  /** `Tool`, declared in the order of its discriminants 0, 1, 2. */
  datatype Tool = Torch | ClimbingGear | Neither

  /** The `TOOLS` constant, in the order tool changes are generated. */
  const Tools: seq<Tool> := [Torch, ClimbingGear, Neither]

  datatype Region = Region(regionType: RegionType, geologicIndex: int, erosionLevel: int)

  /** `RegionType::is_tool_valid`. */
  function IsToolValid(r: RegionType, t: Tool): bool
  {
    match r
    case Rocky => t != Neither
    case Wet => t != Torch
    case Narrow => t != ClimbingGear
  }

  /**
   * Every region type accepts exactly two of the three tools, and every
   * tool is accepted by exactly two region types; the torch works on rocky
   * and narrow ground, so the start and goal tool is never ruled out there.
   */
  lemma ExactlyTwoTools(r: RegionType, t: Tool)
    ensures |set u | u in Tools && IsToolValid(r, u)| == 2
    ensures |set q | q in [Rocky, Wet, Narrow] && IsToolValid(q, t)| == 2
    ensures IsToolValid(r, Torch) <==> r != Wet
  {
    match r {
      case Rocky => assert (set u | u in Tools && IsToolValid(r, u)) == {Torch, ClimbingGear};
      case Wet => assert (set u | u in Tools && IsToolValid(r, u)) == {ClimbingGear, Neither};
      case Narrow => assert (set u | u in Tools && IsToolValid(r, u)) == {Torch, Neither};
    }
    match t {
      case Torch => assert (set q | q in [Rocky, Wet, Narrow] && IsToolValid(q, t)) == {Rocky, Narrow};
      case ClimbingGear => assert (set q | q in [Rocky, Wet, Narrow] && IsToolValid(q, t)) == {Rocky, Wet};
      case Neither => assert (set q | q in [Rocky, Wet, Narrow] && IsToolValid(q, t)) == {Wet, Narrow};
    }
  }

  /** `Region::risk_level`. */
  function RiskLevel(r: RegionType): (n: nat)
    ensures n <= 2
    ensures n == 0 <==> r == Rocky
    ensures n == 2 <==> r == Narrow
  {
    match r
    case Rocky => 0
    case Wet => 1
    case Narrow => 2
  }

  // ---------------------------------------------------------------------
  // Cave generation
  // ---------------------------------------------------------------------

  /** The erosion-level residue decides the region type. */
  function TypeOf(erosion: int): RegionType
  {
    match erosion % 3
    case 0 => Rocky
    case 1 => Wet
    case _ => Narrow
  }

  /**
   * The geologic index of (x, y): 0 at the mouth and at the target, a
   * multiple of 16807 along row 0 and of 48271 along column 0, otherwise the
   * product of the erosion levels to the left and above.
   */
  function GeologicIndex(depth: nat, target: Loci, x: nat, y: nat): nat
    decreases x + y, 0
  {
    if (x == 0 && y == 0) || (x == target.x && y == target.y) then 0
    else if y == 0 then x * 16807
    else if x == 0 then y * 48271
    else Erosion(depth, target, x - 1, y) * Erosion(depth, target, x, y - 1)
  }

  function Erosion(depth: nat, target: Loci, x: nat, y: nat): (e: nat)
    ensures e < 20183
    decreases x + y, 1
  {
    (GeologicIndex(depth, target, x, y) + depth) % 20183
  }

  /** The region the puzzle defines at (x, y). */
  function RegionAt(depth: nat, target: Loci, x: nat, y: nat): Region
  {
    var e := Erosion(depth, target, x, y);
    Region(TypeOf(e), GeologicIndex(depth, target, x, y), e)
  }

  /** `max(target.x * 2, target.y * 2, 10)`, the unclamped side length. */
  function Dimensions(target: Loci): int
  {
    Max(Max(target.x * 2, target.y * 2), 10)
  }

  /** Every cell of `cave` holds the region the rules define for it. */
  ghost predicate IsCaveFor(cave: Grid<Region>, depth: nat, target: Loci)
    reads cave
  {
    cave.Valid() && cave.xMin == 0 && cave.yMin == 0 &&
    forall l :: cave.Contains(l) ==> cave.Get(l) == RegionAt(depth, target, l.x, l.y)
  }

  /**
   * `build_cave`: a grid of side min(dim, 150) by min(dim, 900), filled row
   * by row so that each region's left and upper neighbours are already set.
   */
  method BuildCave(depth: nat, target: Loci) returns (cave: Grid<Region>)
    requires target.x >= 0 && target.y >= 0
    ensures fresh(cave)
    ensures cave.width == Min(Dimensions(target), 150) && cave.height == Min(Dimensions(target), 900)
    ensures IsCaveFor(cave, depth, target)
  {
    var dimensions := Dimensions(target);
    cave := new Grid.NewOffset(Region(Rocky, 0, 0), Min(dimensions, 150), Min(dimensions, 900), 0, 0);
    var y := 0;
    while y < cave.height
      invariant 0 <= y <= cave.height && cave.Valid()
      invariant forall l :: cave.Contains(l) && l.y < y ==> cave.Get(l) == RegionAt(depth, target, l.x, l.y)
    {
      var x := 0;
      while x < cave.width
        invariant 0 <= x <= cave.width && cave.Valid()
        invariant forall l :: cave.Contains(l) && (l.y < y || (l.y == y && l.x < x)) ==>
          cave.Get(l) == RegionAt(depth, target, l.x, l.y)
      {
        var region := ComputeRegion(cave, depth, target, x, y);
        cave.Set(Loci(x, y), region);
        x := x + 1;
      }
      y := y + 1;
    }
  }

  /**
   * The body of `build_cave`'s inner loop: the region at (x, y), read off
   * its left and upper neighbours, which are already filled in.
   */
  method ComputeRegion(cave: Grid<Region>, depth: nat, target: Loci, x: nat, y: nat) returns (region: Region)
    requires cave.Valid() && cave.xMin == 0 && cave.yMin == 0 && cave.Contains(Loci(x, y))
    requires forall l :: cave.Contains(l) && (l.y < y || (l.y == y && l.x < x)) ==>
      cave.Get(l) == RegionAt(depth, target, l.x, l.y)
    ensures region == RegionAt(depth, target, x, y)
  {
    var geologicIndex: int;
    if (x == 0 && y == 0) || (x == target.x && y == target.y) {
      geologicIndex := 0;
    } else if y == 0 {
      geologicIndex := x * 16807;
    } else if x == 0 {
      geologicIndex := y * 48271;
    } else {
      var left, up := cave.Get(Loci(x - 1, y)), cave.Get(Loci(x, y - 1));
      assert left.erosionLevel == Erosion(depth, target, x - 1, y);
      assert up.erosionLevel == Erosion(depth, target, x, y - 1);
      geologicIndex := left.erosionLevel * up.erosionLevel;
    }
    assert geologicIndex == GeologicIndex(depth, target, x, y);
    var erosionLevel := (geologicIndex + depth) % 20183;
    region := Region(TypeOf(erosionLevel), geologicIndex, erosionLevel);
  }

  /** Risk of the first `n` regions of row `y`. */
  function RowRisk(depth: nat, target: Loci, y: nat, n: nat): nat
  {
    if n == 0 then 0 else RowRisk(depth, target, y, n - 1) + RiskLevel(RegionAt(depth, target, n - 1, y).regionType)
  }

  /** Risk of the rectangle of `w` columns and `h` rows at the mouth. */
  function RectRisk(depth: nat, target: Loci, w: nat, h: nat): nat
  {
    if h == 0 then 0 else RectRisk(depth, target, w, h - 1) + RowRisk(depth, target, h - 1, w)
  }

  /** `a`: the total risk of the rectangle from the mouth to the target, inclusive. */
  method A(target: Loci, cave: Grid<Region>, ghost depth: nat) returns (risk: nat)
    requires IsCaveFor(cave, depth, target)
    requires target.x >= 0 && target.y >= 0 && cave.Contains(target)
    ensures risk == RectRisk(depth, target, target.x + 1, target.y + 1)
  {
    risk := 0;
    var y := 0;
    while y <= target.y
      invariant 0 <= y <= target.y + 1
      invariant risk == RectRisk(depth, target, target.x + 1, y)
    {
      var x := 0;
      var row := 0;
      while x <= target.x
        invariant 0 <= x <= target.x + 1
        invariant row == RowRisk(depth, target, y, x)
      {
        row := row + RiskLevel(cave.Get(Loci(x, y)).regionType);
        x := x + 1;
      }
      risk := risk + row;
      y := y + 1;
    }
  }

  // ---------------------------------------------------------------------
  // Search states and their transitions
  // ---------------------------------------------------------------------

  /** The identity of a `PathScore`: location and tool, never the minutes. */
  datatype State = State(location: Loci, tool: Tool)

  /** A `PathScore`: a state reached after `minutes` minutes. */
  datatype Entry = Entry(state: State, minutes: int)

  const Start: Entry := Entry(State(Loci(0, 0), Torch), 0)

  function ToolRank(t: Tool): int
  {
    match t
    case Torch => 0
    case ClimbingGear => 1
    case Neither => 2
  }

  /** `Ord for PathScore`: location in reading order, then tool. */
  function CmpEntry(a: Entry, b: Entry): Ordering
  {
    Cmp(a.state.location, b.state.location).Then(CmpInt(ToolRank(a.state.tool), ToolRank(b.state.tool)))
  }

  /** Two scores compare equal exactly when their states agree, whatever their minutes. */
  lemma CmpEntryIdentity(a: Entry, b: Entry)
    ensures CmpEntry(a, b) == Equal <==> a.state == b.state
    ensures CmpEntry(a, b) == Less <==> CmpEntry(b, a) == Greater
  {
    CmpTotalOrder(a.state.location, b.state.location, a.state.location);
  }

  /** The heuristic: Manhattan distance to the goal, plus 7 while holding the climbing gear. */
  function Heuristic(s: State, goal: Loci): nat
  {
    Distance(s.location, goal) + (if s.tool == ClimbingGear then 7 else 0)
  }

  /** The priority an entry is pushed with (`Reverse` of it, so smallest first). */
  function Priority(e: Entry, goal: Loci): int
  {
    e.minutes + Heuristic(e.state, goal)
  }

  /**
   * A legal transition: a move to an on-grid orthogonal neighbour that
   * accepts the held tool, or a switch in place to a different tool that
   * the current region accepts.
   */
  ghost predicate Step(cave: Grid<Region>, s: State, t: State)
    reads cave
    requires cave.Valid()
  {
    (t.tool == s.tool && Distance(s.location, t.location) == 1 && cave.Contains(t.location) &&
     IsToolValid(cave.Get(t.location).regionType, s.tool))
    ||
    (t.location == s.location && t.tool != s.tool && cave.Contains(s.location) &&
     IsToolValid(cave.Get(s.location).regionType, t.tool))
  }

  function StepCost(s: State, t: State): nat
  {
    if s.location == t.location then 7 else 1
  }

  /** The heuristic is consistent: across any legal step it drops by at most the step's cost. */
  lemma HeuristicConsistent(cave: Grid<Region>, s: State, t: State, goal: Loci)
    requires cave.Valid() && Step(cave, s, t)
    ensures Heuristic(s, goal) <= StepCost(s, t) + Heuristic(t, goal)
  {
    DistanceMetric(s.location, t.location, goal);
  }

  /** The moves of `cur` to the regions `ns` that accept its tool, in order. */
  function Moves(cave: Grid<Region>, cur: Entry, ns: seq<Loci>): (r: seq<Entry>)
    reads cave
    requires cave.Valid() && forall n :: n in ns ==> cave.Contains(n)
    ensures forall e :: e in r ==>
      e.state.location in ns && e.state.tool == cur.state.tool &&
      IsToolValid(cave.Get(e.state.location).regionType, cur.state.tool) && e.minutes == cur.minutes + 1
  {
    if ns == [] then []
    else
      var rest := Moves(cave, cur, ns[1..]);
      if IsToolValid(cave.Get(ns[0]).regionType, cur.state.tool) then
        [Entry(State(ns[0], cur.state.tool), cur.minutes + 1)] + rest
      else rest
  }

  /** Every region of `ns` that accepts the held tool is reached by one of the moves. */
  lemma {:induction false} MovesComplete(cave: Grid<Region>, cur: Entry, ns: seq<Loci>, n: Loci)
    requires cave.Valid() && forall m :: m in ns ==> cave.Contains(m)
    requires n in ns && IsToolValid(cave.Get(n).regionType, cur.state.tool)
    ensures exists i :: 0 <= i < |Moves(cave, cur, ns)| && Moves(cave, cur, ns)[i].state == State(n, cur.state.tool)
  {
    var r := Moves(cave, cur, ns);
    var rest := Moves(cave, cur, ns[1..]);
    var valid := IsToolValid(cave.Get(ns[0]).regionType, cur.state.tool);
    if n == ns[0] {
      assert r[0].state == State(n, cur.state.tool);
    } else {
      assert n in ns[1..];
      MovesComplete(cave, cur, ns[1..], n);
      var i :| 0 <= i < |rest| && rest[i].state == State(n, cur.state.tool);
      if valid {
        assert r == [Entry(State(ns[0], cur.state.tool), cur.minutes + 1)] + rest;
        assert r[i + 1].state == State(n, cur.state.tool);
      } else {
        assert r == rest;
      }
    }
  }

  /** The switches of `cur` to the tools of `ts` that differ and that its region accepts. */
  function ToolChanges(cave: Grid<Region>, cur: Entry, ts: seq<Tool>): (r: seq<Entry>)
    reads cave
    requires cave.Valid() && cave.Contains(cur.state.location)
    ensures forall e :: e in r ==> Step(cave, cur.state, e.state) && e.minutes == cur.minutes + 7
    ensures forall e :: e in r ==> e.state.location == cur.state.location
  {
    if ts == [] then []
    else
      var rest := ToolChanges(cave, cur, ts[1..]);
      if ts[0] != cur.state.tool && IsToolValid(cave.Get(cur.state.location).regionType, ts[0]) then
        [Entry(State(cur.state.location, ts[0]), cur.minutes + 7)] + rest
      else rest
  }

  /** Every tool of `ts` other than the held one that the region accepts is switched to. */
  lemma {:induction false} ToolChangesComplete(cave: Grid<Region>, cur: Entry, ts: seq<Tool>, t: Tool)
    requires cave.Valid() && cave.Contains(cur.state.location)
    requires t in ts && t != cur.state.tool && IsToolValid(cave.Get(cur.state.location).regionType, t)
    ensures exists i :: (0 <= i < |ToolChanges(cave, cur, ts)| &&
      ToolChanges(cave, cur, ts)[i].state == State(cur.state.location, t))
  {
    var r := ToolChanges(cave, cur, ts);
    var rest := ToolChanges(cave, cur, ts[1..]);
    var valid := ts[0] != cur.state.tool && IsToolValid(cave.Get(cur.state.location).regionType, ts[0]);
    if t == ts[0] {
      assert r[0].state == State(cur.state.location, t);
    } else {
      assert t in ts[1..];
      ToolChangesComplete(cave, cur, ts[1..], t);
      var i :| 0 <= i < |rest| && rest[i].state == State(cur.state.location, t);
      if valid {
        assert r == [Entry(State(cur.state.location, ts[0]), cur.minutes + 7)] + rest;
        assert r[i + 1].state == State(cur.state.location, t);
      } else {
        assert r == rest;
      }
    }
  }

  /**
   * `possible_moves` after extending with the tool changes: every
   * candidate is a legal step priced by its cost (and, by
   * `CandidatesComplete`, every legal step is a candidate).
   */
  function Candidates(cave: Grid<Region>, cur: Entry): (r: seq<Entry>)
    reads cave
    requires cave.Valid() && cave.Contains(cur.state.location)
    ensures forall i :: 0 <= i < |r| ==>
      Step(cave, cur.state, r[i].state) && r[i].minutes == cur.minutes + StepCost(cur.state, r[i].state)
  {
    var moves := Moves(cave, cur, ValidNeighbors(cur.state.location, cave));
    var changes := ToolChanges(cave, cur, Tools);
    var r := moves + changes;
    assert forall e :: e in moves ==> Step(cave, cur.state, e.state);
    assert forall i :: 0 <= i < |r| ==> r[i] in moves || r[i] in changes;
    r
  }

  /** Every legal step from `cur` is among its candidates. */
  lemma CandidatesComplete(cave: Grid<Region>, cur: Entry, t: State)
    requires cave.Valid() && cave.Contains(cur.state.location) && Step(cave, cur.state, t)
    ensures t in States(Candidates(cave, cur))
  {
    var moves := Moves(cave, cur, ValidNeighbors(cur.state.location, cave));
    var changes := ToolChanges(cave, cur, Tools);
    var r := Candidates(cave, cur);
    assert r == moves + changes;
    if t.tool == cur.state.tool {
      MovesComplete(cave, cur, ValidNeighbors(cur.state.location, cave), t.location);
      var i :| 0 <= i < |moves| && moves[i].state == t;
      assert r[i].state == t;
    } else {
      assert t.tool in Tools by {
        match t.tool {
          case Torch => assert Tools[0] == t.tool;
          case ClimbingGear => assert Tools[1] == t.tool;
          case Neither => assert Tools[2] == t.tool;
        }
      }
      ToolChangesComplete(cave, cur, Tools, t.tool);
      var i :| 0 <= i < |changes| && changes[i].state == t;
      assert r[|moves| + i].state == t;
    }
  }

  // ---------------------------------------------------------------------
  // The open set and its relaxation
  // ---------------------------------------------------------------------

  function States(open: seq<Entry>): set<State>
  {
    set i | 0 <= i < |open| :: open[i].state
  }

  /** No state occurs in two entries of the open set. */
  predicate Unique(open: seq<Entry>)
  {
    forall i, j :: 0 <= i < j < |open| ==> open[i].state != open[j].state
  }

  /** `open_set.iter().find(..)`: the first entry holding state `s`. */
  function Find(open: seq<Entry>, s: State): (r: Option<nat>)
    ensures r.Some? ==> r.value < |open| && open[r.value].state == s
    ensures r.Some? ==> forall j :: 0 <= j < r.value ==> open[j].state != s
    ensures r.None? <==> s !in States(open)
  {
    if |open| == 0 then None
    else if open[0].state == s then Some(0)
    else
      match Find(open[1..], s)
      case None =>
        assert States(open) == {open[0].state} + States(open[1..]) by {
          forall t | t in States(open) ensures t in {open[0].state} + States(open[1..]) {
            var i :| 0 <= i < |open| && open[i].state == t;
            if i > 0 { assert open[1..][i - 1].state == t; }
          }
        }
        None
      case Some(k) => Some(k + 1)
  }

  /**
   * One candidate against the open set (the body of the `for score in
   * possible_moves` loop): closed states are skipped, a state already open
   * with no more minutes is kept, otherwise the candidate replaces or joins.
   */
  function Relax(open: seq<Entry>, closed: set<State>, cand: Entry): (r: seq<Entry>)
    ensures cand.state in closed ==> r == open
  {
    if cand.state in closed then open
    else
      match Find(open, cand.state)
      case Some(i) => if cand.minutes >= open[i].minutes then open else open[i := cand]
      case None => open + [cand]
  }

  /**
   * What a relaxation does to the open set: the candidate's state joins it
   * unless closed, no other state does, an open entry with no more minutes
   * stays, and a set without duplicate states keeps none.
   */
  lemma RelaxSpec(open: seq<Entry>, closed: set<State>, cand: Entry)
    ensures var r := Relax(open, closed, cand);
      States(r) == States(open) + (if cand.state in closed then {} else {cand.state}) &&
      (Unique(open) ==> Unique(r)) &&
      (forall i :: 0 <= i < |r| ==> r[i] in open || r[i] == cand) &&
      (Unique(open) && r != open ==> forall i :: 0 <= i < |r| && r[i].state == cand.state ==> r[i] == cand) &&
      (cand.state !in closed ==> exists i :: 0 <= i < |r| && r[i].state == cand.state && r[i].minutes <= cand.minutes)
  {
    var r := Relax(open, closed, cand);
    if cand.state !in closed {
      match Find(open, cand.state)
      case Some(i) =>
        if cand.minutes < open[i].minutes {
          assert r == open[i := cand];
          assert States(r) == States(open) by {
            forall t | t in States(open) ensures t in States(r) {
              var j :| 0 <= j < |open| && open[j].state == t;
              assert r[j].state == t;
            }
            forall t | t in States(r) ensures t in States(open) {
              var j :| 0 <= j < |r| && r[j].state == t;
              assert open[j].state == t;
            }
          }
          assert r[i] == cand;
        } else {
          assert open[i].state == cand.state;
        }
      case None =>
        assert r == open + [cand];
        assert States(r) == States(open) + {cand.state} by {
          forall t | t in States(open) ensures t in States(r) {
            var j :| 0 <= j < |open| && open[j].state == t;
            assert r[j].state == t;
          }
          assert r[|open|].state == cand.state;
          forall t | t in States(r) ensures t in States(open) + {cand.state} {
            var j :| 0 <= j < |r| && r[j].state == t;
            if j < |open| { assert open[j].state == t; }
          }
        }
        assert r[|open|] == cand;
    }
  }

  /** `t` is open, and every entry holding it takes at most `m` minutes. */
  ghost predicate Within(open: seq<Entry>, t: State, m: int)
  {
    t in States(open) && forall i :: 0 <= i < |open| && open[i].state == t ==> open[i].minutes <= m
  }

  /** `next` keeps every state of `prev` open, never with more minutes than before. */
  ghost predicate Improves(next: seq<Entry>, prev: seq<Entry>)
  {
    States(prev) <= States(next) &&
    forall i, j :: 0 <= i < |next| && 0 <= j < |prev| && next[i].state == prev[j].state ==>
      next[i].minutes <= prev[j].minutes
  }

  lemma ImprovesWithin(next: seq<Entry>, prev: seq<Entry>, t: State, m: int)
    requires Improves(next, prev) && Within(prev, t, m)
    ensures Within(next, t, m)
  {
    forall i | 0 <= i < |next| && next[i].state == t
      ensures next[i].minutes <= m
    {
      var j :| 0 <= j < |prev| && prev[j].state == t;
    }
  }

  lemma ImprovesTrans(c: seq<Entry>, b: seq<Entry>, a: seq<Entry>)
    requires Improves(c, b) && Improves(b, a)
    ensures Improves(c, a)
  {
    forall i, j | 0 <= i < |c| && 0 <= j < |a| && c[i].state == a[j].state
      ensures c[i].minutes <= a[j].minutes
    {
      assert a[j].state in States(a);
      var k :| 0 <= k < |b| && b[k].state == a[j].state;
    }
  }

  /**
   * A relaxation never raises the minutes of an open state, and leaves a
   * candidate that is not closed open within the candidate's minutes.
   */
  lemma RelaxImproves(open: seq<Entry>, closed: set<State>, cand: Entry)
    requires Unique(open)
    ensures Improves(Relax(open, closed, cand), open)
    ensures cand.state !in closed ==> Within(Relax(open, closed, cand), cand.state, cand.minutes)
  {
    var r := Relax(open, closed, cand);
    RelaxSpec(open, closed, cand);
    if cand.state !in closed {
      match Find(open, cand.state)
      case Some(i) =>
        if cand.minutes < open[i].minutes {
          assert r == open[i := cand];
        } else {
          assert r == open;
        }
      case None =>
        assert r == open + [cand];
    }
  }

  /** `open_set.pop()`: an entry of least priority, the first such one on ties. */
  method PopMin(open: seq<Entry>, goal: Loci) returns (i: nat)
    requires |open| > 0
    ensures i < |open|
    ensures forall j :: 0 <= j < |open| ==> Priority(open[i], goal) <= Priority(open[j], goal)
    ensures forall j :: 0 <= j < i ==> Priority(open[i], goal) < Priority(open[j], goal)
  {
    i := 0;
    var k := 1;
    while k < |open|
      invariant 1 <= k <= |open| && i < k
      invariant forall j :: 0 <= j < k ==> Priority(open[i], goal) <= Priority(open[j], goal)
      invariant forall j :: 0 <= j < i ==> Priority(open[i], goal) < Priority(open[j], goal)
    {
      if Priority(open[k], goal) < Priority(open[i], goal) {
        i := k;
      }
      k := k + 1;
    }
  }

  // ---------------------------------------------------------------------
  // Walks: the meaning of a result
  // ---------------------------------------------------------------------

  ghost predicate IsWalk(cave: Grid<Region>, w: seq<State>)
    reads cave
    requires cave.Valid()
  {
    |w| >= 1 && forall i :: 0 <= i < |w| - 1 ==> Step(cave, w[i], w[i + 1])
  }

  function WalkCost(w: seq<State>): int
  {
    if |w| <= 1 then 0 else WalkCost(w[..|w| - 1]) + StepCost(w[|w| - 2], w[|w| - 1])
  }

  /** `w` is a legal walk from the start state to `s` taking `minutes` minutes. */
  ghost predicate Reaches(cave: Grid<Region>, w: seq<State>, s: State, minutes: int)
    reads cave
    requires cave.Valid()
  {
    IsWalk(cave, w) && w[0] == Start.state && w[|w| - 1] == s && WalkCost(w) == minutes
  }

  lemma ExtendWalk(cave: Grid<Region>, w: seq<State>, s: State, m: int, t: State)
    requires cave.Valid() && Reaches(cave, w, s, m) && Step(cave, s, t)
    ensures Reaches(cave, w + [t], t, m + StepCost(s, t))
  {
    var w' := w + [t];
    assert w'[..|w'| - 1] == w;
    assert forall i :: 0 <= i < |w| ==> w'[i] == w[i];
  }

  /** The extra 7 minutes to switch to the torch on arrival. */
  function FinalSwitch(t: Tool): nat
  {
    if t != Torch then 7 else 0
  }

  /**
   * `w` is a legal walk from the start to a region at `target`, and `total`
   * is its cost plus the switch back to the torch.
   */
  ghost predicate Escorts(cave: Grid<Region>, w: seq<State>, target: Loci, total: int)
    reads cave
    requires cave.Valid()
  {
    IsWalk(cave, w) && w[0] == Start.state && w[|w| - 1].location == target &&
    total == WalkCost(w) + FinalSwitch(w[|w| - 1].tool)
  }

  /** Every state of the grid. */
  function AllStates(cave: Grid<Region>): set<State>
  {
    set l, t | l in RowMajor(cave.xMin, cave.yMin, cave.width, cave.height) && t in Tools :: State(l, t)
  }

  lemma InAllStates(cave: Grid<Region>, s: State)
    requires cave.Contains(s.location)
    ensures s in AllStates(cave)
  {
    RowMajorSpec(cave.xMin, cave.yMin, cave.width, cave.height);
    assert s.tool in Tools by {
      match s.tool {
        case Torch => assert Tools[0] == s.tool;
        case ClimbingGear => assert Tools[1] == s.tool;
        case Neither => assert Tools[2] == s.tool;
      }
    }
    assert State(s.location, s.tool) == s;
  }

  /**
   * Once the open set is empty, a closed set that contains the start and is
   * closed under `Step` contains the end of every walk from the start.
   */
  lemma {:induction false} WalksStayClosed(cave: Grid<Region>, closed: set<State>, w: seq<State>)
    requires cave.Valid() && IsWalk(cave, w) && w[0] in closed
    requires forall s, t :: s in closed && Step(cave, s, t) ==> t in closed
    ensures w[|w| - 1] in closed
    decreases |w|
  {
    if |w| > 1 {
      var p := w[..|w| - 1];
      assert forall i :: 0 <= i < |p| ==> p[i] == w[i];
      WalksStayClosed(cave, closed, p);
      assert Step(cave, w[|w| - 2], w[|w| - 1]);
    }
  }

  /** Removing the popped entry takes exactly its state out of the open set. */
  lemma RemoveAt(before: seq<Entry>, i: nat, after: seq<Entry>)
    requires Unique(before) && i < |before| && after == before[..i] + before[i + 1..]
    ensures Unique(after) && before[i].state !in States(after)
    ensures States(before) == States(after) + {before[i].state}
    ensures forall j :: 0 <= j < |after| ==> after[j] in before
  {
    assert forall j :: 0 <= j < |after| ==> after[j] == (if j < i then before[j] else before[j + 1]);
    forall s | s in States(before) ensures s in States(after) + {before[i].state} {
      var j :| 0 <= j < |before| && before[j].state == s;
      if j < i { assert after[j].state == s; } else if j > i { assert after[j - 1].state == s; }
    }
  }

  /** Every open entry carries a walk from the start that takes exactly its minutes. */
  ghost predicate Witnessed(cave: Grid<Region>, open: seq<Entry>, walks: map<State, seq<State>>)
    reads cave
    requires cave.Valid()
  {
    forall i :: 0 <= i < |open| ==> open[i].state in walks && Reaches(cave, walks[open[i].state], open[i].state, open[i].minutes)
  }

  lemma RelaxWitnessed(cave: Grid<Region>, prev: seq<Entry>, closed: set<State>, cand: Entry,
                       walks: map<State, seq<State>>, w: seq<State>)
    requires cave.Valid() && Unique(prev) && Witnessed(cave, prev, walks)
    requires Reaches(cave, w, cand.state, cand.minutes)
    ensures var next := Relax(prev, closed, cand);
      Witnessed(cave, next, if next != prev then walks[cand.state := w] else walks)
  {
    var next := Relax(prev, closed, cand);
    RelaxSpec(prev, closed, cand);
    if next != prev {
      var walks' := walks[cand.state := w];
      forall i | 0 <= i < |next|
        ensures next[i].state in walks' && Reaches(cave, walks'[next[i].state], next[i].state, next[i].minutes)
      {
        if next[i].state != cand.state {
          var j :| 0 <= j < |prev| && prev[j] == next[i];
        }
      }
    }
  }

  /**
   * Where the relaxation loop stands after the first `k` candidates: no
   * state is open twice or both open and closed, the states open before
   * stay open, the only new ones are candidates, and each of the first `k`
   * candidates is closed or open.
   */
  ghost predicate Relaxed(open: seq<Entry>, closed: set<State>, moves: seq<Entry>, k: nat, next: seq<Entry>)
    requires k <= |moves|
  {
    Unique(next) && States(next) !! closed && States(open) <= States(next) &&
    (forall s :: s in States(next) ==> s in States(open) || s in States(moves)) &&
    (forall j :: 0 <= j < k ==> moves[j].state in closed || moves[j].state in States(next))
  }

  /** Relaxing `moves[k]` takes the loop from `k` candidates to `k + 1`. */
  lemma RelaxKeeps(open: seq<Entry>, closed: set<State>, moves: seq<Entry>, k: nat, prev: seq<Entry>)
    requires k < |moves| && Relaxed(open, closed, moves, k, prev)
    ensures Relaxed(open, closed, moves, k + 1, Relax(prev, closed, moves[k]))
  {
    var next := Relax(prev, closed, moves[k]);
    RelaxSpec(prev, closed, moves[k]);
    assert moves[k].state in States(moves);
    forall j | 0 <= j <= k
      ensures moves[j].state in closed || moves[j].state in States(next)
    {
      if j < k {
        var m := moves[j].state;
        assert m in closed || m in States(prev);
        assert States(prev) <= States(next);
      }
    }
  }

  /**
   * The relaxation loop after `k` candidates has raised no open state's
   * minutes, and each of those candidates that is not closed is open within
   * its own minutes.
   */
  ghost predicate Tightened(open: seq<Entry>, closed: set<State>, moves: seq<Entry>, k: nat, next: seq<Entry>)
    requires k <= |moves|
  {
    Improves(next, open) &&
    forall j :: 0 <= j < k && moves[j].state !in closed ==> Within(next, moves[j].state, moves[j].minutes)
  }

  lemma ImprovesRefl(open: seq<Entry>)
    requires Unique(open)
    ensures Improves(open, open)
  {
  }

  /** Relaxing `moves[k]` keeps the loop tightened, now over `k + 1` candidates. */
  lemma TightenKeeps(open: seq<Entry>, closed: set<State>, moves: seq<Entry>, k: nat, prev: seq<Entry>)
    requires k < |moves| && Unique(prev) && Tightened(open, closed, moves, k, prev)
    ensures Tightened(open, closed, moves, k + 1, Relax(prev, closed, moves[k]))
  {
    var next := Relax(prev, closed, moves[k]);
    RelaxImproves(prev, closed, moves[k]);
    ImprovesTrans(next, prev, open);
    forall j | 0 <= j < k && moves[j].state !in closed
      ensures Within(next, moves[j].state, moves[j].minutes)
    {
      ImprovesWithin(next, prev, moves[j].state, moves[j].minutes);
    }
  }

  /**
   * The `for score in possible_moves` loop: relaxes every candidate of the
   * just-closed `current`, after which each legal successor of `current` is
   * closed or open, and nothing else joins the open set.
   */
  method Expand(cave: Grid<Region>, open: seq<Entry>, closed: set<State>, current: Entry, ghost walks: map<State, seq<State>>)
    returns (next: seq<Entry>, ghost walks': map<State, seq<State>>)
    requires cave.Valid() && cave.Contains(current.state.location) && current.state in closed
    requires Unique(open) && States(open) !! closed
    requires current.state in walks && Reaches(cave, walks[current.state], current.state, current.minutes)
    requires Witnessed(cave, open, walks)
    ensures Unique(next) && States(next) !! closed && States(open) <= States(next)
    ensures forall s :: s in States(next) ==> s in States(open) || Step(cave, current.state, s)
    ensures forall t :: Step(cave, current.state, t) ==> t in closed || t in States(next)
    ensures Witnessed(cave, next, walks')
    ensures Improves(next, open)
    ensures forall t :: Step(cave, current.state, t) && t !in closed ==>
      Within(next, t, current.minutes + StepCost(current.state, t))
  {
    var moves := Candidates(cave, current);
    next := open;
    walks' := walks;
    var k := 0;
    ImprovesRefl(open);
    while k < |moves|
      invariant 0 <= k <= |moves|
      invariant Relaxed(open, closed, moves, k, next)
      invariant Tightened(open, closed, moves, k, next)
      invariant current.state in walks' && walks'[current.state] == walks[current.state]
      invariant Witnessed(cave, next, walks')
    {
      next, walks' := RelaxOne(cave, open, closed, current, moves, k, next, walks, walks');
      k := k + 1;
    }
    ExpandDone(cave, open, closed, current, moves, next);
  }

  /** One pass of the `for score in possible_moves` loop: relaxes `moves[k]`. */
  method RelaxOne(cave: Grid<Region>, open: seq<Entry>, closed: set<State>, current: Entry, moves: seq<Entry>, k: nat,
                  prev: seq<Entry>, ghost walks: map<State, seq<State>>, ghost known: map<State, seq<State>>)
    returns (next: seq<Entry>, ghost known': map<State, seq<State>>)
    requires cave.Valid() && cave.Contains(current.state.location) && current.state in closed
    requires current.state in walks && Reaches(cave, walks[current.state], current.state, current.minutes)
    requires k < |moves| && Step(cave, current.state, moves[k].state)
    requires moves[k].minutes == current.minutes + StepCost(current.state, moves[k].state)
    requires Relaxed(open, closed, moves, k, prev)
    requires Tightened(open, closed, moves, k, prev)
    requires current.state in known && known[current.state] == walks[current.state]
    requires Witnessed(cave, prev, known)
    ensures next == Relax(prev, closed, moves[k])
    ensures Relaxed(open, closed, moves, k + 1, next)
    ensures Tightened(open, closed, moves, k + 1, next)
    ensures current.state in known' && known'[current.state] == walks[current.state]
    ensures Witnessed(cave, next, known')
  {
    var cand := moves[k];
    ghost var w := walks[current.state] + [cand.state];
    ExtendWalk(cave, walks[current.state], current.state, current.minutes, cand.state);
    RelaxKeeps(open, closed, moves, k, prev);
    TightenKeeps(open, closed, moves, k, prev);
    next := Relax(prev, closed, cand);
    known' := if next != prev then known[cand.state := w] else known;
    assert Witnessed(cave, next, known') by {
      RelaxWitnessed(cave, prev, closed, cand, known, w);
    }
  }

  /** After the loop: what joined the open set is a successor, and every successor is closed or open. */
  lemma ExpandDone(cave: Grid<Region>, open: seq<Entry>, closed: set<State>, current: Entry, moves: seq<Entry>, next: seq<Entry>)
    requires cave.Valid() && cave.Contains(current.state.location)
    requires moves == Candidates(cave, current) && Relaxed(open, closed, moves, |moves|, next)
    requires Tightened(open, closed, moves, |moves|, next)
    ensures forall s :: s in States(next) ==> s in States(open) || Step(cave, current.state, s)
    ensures forall t :: Step(cave, current.state, t) ==> t in closed || t in States(next)
    ensures forall t :: Step(cave, current.state, t) && t !in closed ==>
      Within(next, t, current.minutes + StepCost(current.state, t))
  {
    forall s | s in States(next)
      ensures s in States(open) || Step(cave, current.state, s)
    {
      if s !in States(open) {
        var j :| 0 <= j < |moves| && moves[j].state == s;
      }
    }
    forall t | Step(cave, current.state, t)
      ensures t in closed || t in States(next)
      ensures t !in closed ==> Within(next, t, current.minutes + StepCost(current.state, t))
    {
      CandidatesComplete(cave, current, t);
      var j :| 0 <= j < |moves| && moves[j].state == t;
    }
  }

  // ---------------------------------------------------------------------
  // Least times: what the search settles
  // ---------------------------------------------------------------------

  /** No legal walk from the start reaches `s` in fewer than `m` minutes. */
  ghost predicate Optimal(cave: Grid<Region>, s: State, m: int)
    reads cave
    requires cave.Valid()
  {
    forall w :: IsWalk(cave, w) && w[0] == Start.state && w[|w| - 1] == s ==> m <= WalkCost(w)
  }

  /**
   * Every legal successor of a state of `from` is closed, or open within
   * the minutes that state was closed at plus the step's cost.
   */
  ghost predicate Bounded(cave: Grid<Region>, open: seq<Entry>, closed: set<State>, from: set<State>, done: map<State, int>)
    reads cave
    requires cave.Valid()
  {
    forall s, t :: s in from && Step(cave, s, t) && t !in closed ==> s in done && Within(open, t, done[s] + StepCost(s, t))
  }

  /**
   * The A* invariant: the start is closed or open at 0 minutes, every
   * closed state was closed at its least time, and `Bounded` holds.
   */
  ghost predicate Settled(cave: Grid<Region>, open: seq<Entry>, closed: set<State>, done: map<State, int>)
    reads cave
    requires cave.Valid()
  {
    (Start.state in closed || Within(open, Start.state, 0)) &&
    (forall s :: s in closed ==> s in done && Optimal(cave, s, done[s])) &&
    Bounded(cave, open, closed, closed, done)
  }

  lemma {:induction false} WalkPrefix(cave: Grid<Region>, w: seq<State>)
    requires cave.Valid() && IsWalk(cave, w) && |w| > 1
    ensures IsWalk(cave, w[..|w| - 1]) && w[..|w| - 1][0] == w[0]
    ensures Step(cave, w[|w| - 2], w[|w| - 1])
    ensures WalkCost(w) == WalkCost(w[..|w| - 1]) + StepCost(w[|w| - 2], w[|w| - 1])
  {
    var p := w[..|w| - 1];
    assert forall i :: 0 <= i < |p| ==> p[i] == w[i];
  }

  /**
   * Any walk from the start to a state that is not closed passes an open
   * entry whose priority is at most the walk's cost plus the estimate at
   * its end: the first state of the walk that is not closed is open, no
   * later than along the walk, and the estimate is consistent after it.
   */
  lemma {:induction false} Frontier(cave: Grid<Region>, open: seq<Entry>, closed: set<State>, done: map<State, int>,
                                    goal: Loci, w: seq<State>) returns (i: nat)
    requires cave.Valid() && Settled(cave, open, closed, done)
    requires IsWalk(cave, w) && w[0] == Start.state && w[|w| - 1] !in closed
    ensures i < |open| && Priority(open[i], goal) <= WalkCost(w) + Heuristic(w[|w| - 1], goal)
    decreases |w|
  {
    var t := w[|w| - 1];
    if |w| == 1 {
      assert Within(open, Start.state, 0);
      i :| 0 <= i < |open| && open[i].state == Start.state;
    } else {
      var p := w[..|w| - 1];
      var s := w[|w| - 2];
      WalkPrefix(cave, w);
      assert p[|p| - 1] == s;
      HeuristicConsistent(cave, s, t, goal);
      if s !in closed {
        i := Frontier(cave, open, closed, done, goal, p);
      } else {
        assert done[s] <= WalkCost(p);
        assert Within(open, t, done[s] + StepCost(s, t));
        i :| 0 <= i < |open| && open[i].state == t;
      }
    }
  }

  /**
   * The entry of least priority takes no longer, estimate included, than
   * any walk from the start to a state that is not closed.
   */
  lemma PopFirst(cave: Grid<Region>, open: seq<Entry>, closed: set<State>, done: map<State, int>, goal: Loci, i: nat)
    requires cave.Valid() && Settled(cave, open, closed, done) && i < |open|
    requires forall j :: 0 <= j < |open| ==> Priority(open[i], goal) <= Priority(open[j], goal)
    ensures forall w :: IsWalk(cave, w) && w[0] == Start.state && w[|w| - 1] !in closed ==>
      Priority(open[i], goal) <= WalkCost(w) + Heuristic(w[|w| - 1], goal)
  {
    forall w | IsWalk(cave, w) && w[0] == Start.state && w[|w| - 1] !in closed
      ensures Priority(open[i], goal) <= WalkCost(w) + Heuristic(w[|w| - 1], goal)
    {
      var k := Frontier(cave, open, closed, done, goal, w);
    }
  }

  /**
   * Closing the popped entry of least priority at its minutes keeps the
   * start and optimality parts of `Settled`, and every state closed before
   * stays bounded in the open set left after the pop.
   */
  lemma CloseKeeps(cave: Grid<Region>, before: seq<Entry>, i: nat, after: seq<Entry>, closed: set<State>,
                   done: map<State, int>, goal: Loci)
    requires cave.Valid() && Settled(cave, before, closed, done) && Unique(before)
    requires i < |before| && after == before[..i] + before[i + 1..] && before[i].state !in closed
    requires forall j :: 0 <= j < |before| ==> Priority(before[i], goal) <= Priority(before[j], goal)
    ensures var closed', done' := closed + {before[i].state}, done[before[i].state := before[i].minutes];
      (Start.state in closed' || Within(after, Start.state, 0)) &&
      (forall s :: s in closed' ==> s in done' && Optimal(cave, s, done'[s])) &&
      Bounded(cave, after, closed', closed, done')
  {
    var current := before[i];
    var closed', done' := closed + {current.state}, done[current.state := current.minutes];
    RemoveAt(before, i, after);
    PopFirst(cave, before, closed, done, goal, i);
    forall t | t != current.state && Within(before, t, 0) ensures Within(after, t, 0) {}
    forall s, t | s in closed && Step(cave, s, t) && t !in closed'
      ensures s in done' && Within(after, t, done'[s] + StepCost(s, t))
    {
      assert Within(before, t, done[s] + StepCost(s, t));
    }
  }

  /** Expanding the closed entry restores `Settled` over the grown open set. */
  lemma ExpandKeeps(cave: Grid<Region>, after: seq<Entry>, next: seq<Entry>, closed: set<State>, closed': set<State>,
                    done': map<State, int>, current: Entry)
    requires cave.Valid() && closed' == closed + {current.state}
    requires current.state in done' && done'[current.state] == current.minutes
    requires Start.state in closed' || Within(after, Start.state, 0)
    requires forall s :: s in closed' ==> s in done' && Optimal(cave, s, done'[s])
    requires Bounded(cave, after, closed', closed, done')
    requires Improves(next, after)
    requires forall t :: Step(cave, current.state, t) && t !in closed' ==>
      Within(next, t, current.minutes + StepCost(current.state, t))
    ensures Settled(cave, next, closed', done')
  {
    if Start.state !in closed' {
      ImprovesWithin(next, after, Start.state, 0);
    }
    forall s, t | s in closed' && Step(cave, s, t) && t !in closed'
      ensures s in done' && Within(next, t, done'[s] + StepCost(s, t))
    {
      if s != current.state {
        ImprovesWithin(next, after, t, done'[s] + StepCost(s, t));
      }
    }
  }

  /**
   * The slack of the answer: none at a rocky target, where no walk can
   * arrive holding neither tool; 7 minutes elsewhere.
   */
  function Slack(cave: Grid<Region>, target: Loci): nat
    reads cave
    requires cave.Valid()
  {
    if cave.Contains(target) && cave.Get(target).regionType == Rocky then 0 else 7
  }

  /**
   * The answer given on popping `current` at the goal, against any walk to
   * the goal that was no cheaper, estimate included: at most that walk's
   * cost plus its own final switch, plus 7 only when `current` holds
   * neither tool, which a rocky goal rules out.
   */
  lemma ArrivalBound(cave: Grid<Region>, current: Entry, goal: Loci, wc: seq<State>, w: seq<State>)
    requires cave.Valid() && current.state.location == goal
    requires Reaches(cave, wc, current.state, current.minutes)
    requires IsWalk(cave, w) && w[0] == Start.state && w[|w| - 1].location == goal
    requires Priority(current, goal) <= WalkCost(w) + Heuristic(w[|w| - 1], goal)
    ensures current.minutes + FinalSwitch(current.state.tool) <= WalkCost(w) + FinalSwitch(w[|w| - 1].tool) + Slack(cave, goal)
  {
    if current.state.tool == Neither {
      WalkPrefix(cave, wc);
      assert Step(cave, wc[|wc| - 2], current.state);
      assert cave.Contains(goal) && IsToolValid(cave.Get(goal).regionType, Neither);
    }
  }

  /**
   * Popping an entry of least priority at the goal: its answer is within
   * the slack of every walk from the start to the goal.
   */
  lemma Arrive(cave: Grid<Region>, open: seq<Entry>, i: nat, closed: set<State>, done: map<State, int>,
               wc: seq<State>, goal: Loci)
    requires cave.Valid() && Settled(cave, open, closed, done) && i < |open|
    requires forall j :: 0 <= j < |open| ==> Priority(open[i], goal) <= Priority(open[j], goal)
    requires forall s :: s in closed ==> s.location != goal
    requires open[i].state.location == goal && Reaches(cave, wc, open[i].state, open[i].minutes)
    ensures forall w: seq<State> :: IsWalk(cave, w) && w[0] == Start.state && w[|w| - 1].location == goal ==>
      open[i].minutes + FinalSwitch(open[i].state.tool) <= WalkCost(w) + FinalSwitch(w[|w| - 1].tool) + Slack(cave, goal)
  {
    PopFirst(cave, open, closed, done, goal, i);
    forall w: seq<State> | IsWalk(cave, w) && w[0] == Start.state && w[|w| - 1].location == goal
      ensures open[i].minutes + FinalSwitch(open[i].state.tool) <= WalkCost(w) + FinalSwitch(w[|w| - 1].tool) + Slack(cave, goal)
    {
      ArrivalBound(cave, open[i], goal, wc, w);
    }
  }

  /**
   * `find_shortest_path`.  A returned time is the cost of a legal walk from
   * (0, 0) with the torch to the target, plus the final switch back to the
   * torch, and it exceeds the least such cost by at most 7 minutes, and not
   * at all at a rocky target; `None` is returned only when no legal walk
   * reaches the target.
   */
  method FindShortestPath(target: Loci, cave: Grid<Region>) returns (r: Option<int>)
    requires cave.Valid() && cave.Contains(Start.state.location)
    ensures r.Some? ==> exists w: seq<State> :: Escorts(cave, w, target, r.value)
    ensures r.Some? ==> forall w: seq<State> :: IsWalk(cave, w) && w[0] == Start.state && w[|w| - 1].location == target ==>
      r.value <= WalkCost(w) + FinalSwitch(w[|w| - 1].tool) + Slack(cave, target)
    ensures r.None? ==> forall w: seq<State> :: IsWalk(cave, w) && w[0] == Start.state ==> w[|w| - 1].location != target
  {
    var goal := target;
    var closed: set<State> := {};
    var open: seq<Entry> := [Start];
    ghost var walks: map<State, seq<State>> := map[Start.state := [Start.state]];
    ghost var done: map<State, int> := map[];
    ghost var all := AllStates(cave);
    InAllStates(cave, Start.state);
    assert open[0].state == Start.state;
    while |open| > 0
      invariant Unique(open) && closed <= all && States(open) !! closed
      invariant forall s :: s in States(open) ==> cave.Contains(s.location)
      invariant forall s :: s in closed ==> s.location != goal
      invariant Witnessed(cave, open, walks)
      invariant Settled(cave, open, closed, done)
      decreases all - closed
    {
      var i := PopMin(open, goal);
      var current := open[i];
      assert current.state in States(open);
      ghost var before := open;
      open := open[..i] + open[i + 1..];
      RemoveAt(before, i, open);
      if current.state.location == goal {
        var result := current.minutes + FinalSwitch(current.state.tool);
        assert Escorts(cave, walks[current.state], target, result);
        Arrive(cave, before, i, closed, done, walks[current.state], goal);
        return Some(result);
      }
      InAllStates(cave, current.state);
      CloseKeeps(cave, before, i, open, closed, done, goal);
      ghost var after, closedBefore := open, closed;
      closed := closed + {current.state};
      done := done[current.state := current.minutes];
      open, walks := Expand(cave, open, closed, current, walks);
      ExpandKeeps(cave, after, open, closedBefore, closed, done, current);
    }
    forall w: seq<State> | IsWalk(cave, w) && w[0] == Start.state
      ensures w[|w| - 1].location != target
    {
      assert forall s, t :: s in closed && Step(cave, s, t) ==> t in closed;
      WalksStayClosed(cave, closed, w);
    }
    return None;
  }
}
