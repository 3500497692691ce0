/**
 * The combat simulation of 15/src/main.rs: elves and goblins on a walled
 * map take turns in reading order, each moving one step along a shortest
 * path (found by an A* search with reading-order tie breaking) towards the
 * nearest enemy and then attacking the weakest enemy in range.
 */
module BeverageBandits {
  import opened Wrappers
  import opened Coordinates

  datatype Species = Elf | Goblin

  /** `Species::enemy`. */
  function Enemy(s: Species): (e: Species)
    ensures e != s && (e == Elf <==> s == Goblin)
  {
    match s
    case Elf => Goblin
    case Goblin => Elf
  }

  const GoblinAttackPower: int := 3

  datatype Unit = Unit(species: Species, x: int, y: int, health: int)

  function Pos(u: Unit): Loci { Loci(u.x, u.y) }

  /** `Unit::is_alive`. */
  predicate IsAlive(u: Unit) { u.health > 0 }

  /** `Ord for Unit`: reading order of the positions; species and health play no part. */
  function CmpUnit(a: Unit, b: Unit): Ordering
  {
    CmpInt(a.y, b.y).Then(CmpInt(a.x, b.x))
  }

  /** `a` sorts no later than `b`. */
  predicate UnitLeq(a: Unit, b: Unit)
  {
    a.y < b.y || (a.y == b.y && a.x <= b.x)
  }

  lemma CmpUnitReadingOrder(a: Unit, b: Unit)
    ensures CmpUnit(a, b) == Cmp(Pos(a), Pos(b))
    ensures CmpUnit(a, b) == Equal <==> Pos(a) == Pos(b)
    ensures CmpUnit(a, b) != Greater <==> UnitLeq(a, b)
  {
  }

  /** `in_range_enemies` (one candidate): an enemy is in range iff it is exactly one step away. */
  predicate InRange(u: Unit, enemy: Unit)
  {
    Abs(enemy.x - u.x) + Abs(enemy.y - u.y) == 1
  }

  lemma InRangeIsNeighbour(u: Unit, enemy: Unit)
    ensures InRange(u, enemy) <==> Pos(enemy) in Neighbors(Pos(u))
  {
    assert Distance(Pos(u), Pos(enemy)) == Abs(enemy.x - u.x) + Abs(enemy.y - u.y);
  }

  // ---------------------------------------------------------------------
  // The map and open space
  // ---------------------------------------------------------------------

  /** A wall (`true` on the map); cells outside the map count as walls. */
  predicate IsWall(walls: Grid<bool>, l: Loci)
    reads walls
    requires walls.Valid()
  {
    !walls.Contains(l) || walls.Get(l)
  }

  /** `contains_unit`: a live unit of `others` stands at `l`. */
  function ContainsUnit(l: Loci, others: seq<Unit>): (r: bool)
    ensures r <==> exists k :: 0 <= k < |others| && IsAlive(others[k]) && Pos(others[k]) == l
  {
    if others == [] then false
    else if IsAlive(others[0]) && Pos(others[0]) == l then true
    else
      var r := ContainsUnit(l, others[1..]);
      assert r ==> exists k :: 0 <= k < |others| && IsAlive(others[k]) && Pos(others[k]) == l by {
        if r {
          var k :| 0 <= k < |others[1..]| && IsAlive(others[1..][k]) && Pos(others[1..][k]) == l;
          assert others[k + 1] == others[1..][k];
        }
      }
      r
  }

  /** `is_space_open`: an open cell of the map where no live unit stands. */
  function IsSpaceOpen(l: Loci, others: seq<Unit>, walls: Grid<bool>): (r: bool)
    reads walls
    requires walls.Valid()
    ensures r <==> walls.Contains(l) && !walls.Get(l) &&
                   forall k :: 0 <= k < |others| && IsAlive(others[k]) ==> Pos(others[k]) != l
  {
    !IsWall(walls, l) && !ContainsUnit(l, others)
  }

  /** Every cell on the edge of the map is a wall, as on every puzzle map. */
  ghost predicate Walled(walls: Grid<bool>)
    reads walls
    requires walls.Valid()
  {
    forall l :: walls.Contains(l) && OnEdge(walls, l) ==> walls.Get(l)
  }

  /** `l` lies in the first or last row or column of the map. */
  predicate OnEdge(walls: Grid<bool>, l: Loci)
  {
    l.x == walls.xMin || l.x == walls.XMax() - 1 || l.y == walls.yMin || l.y == walls.YMax() - 1
  }

  /**
   * On a walled map every neighbour of an open cell lies on the map, so the
   * off-map cells that IsWall counts as walls are never looked up there.
   */
  lemma WalledNeighbors(walls: Grid<bool>, l: Loci)
    requires walls.Valid() && Walled(walls) && walls.Contains(l) && !walls.Get(l)
    ensures forall n :: n in Neighbors(l) ==> walls.Contains(n)
  {
  }

  /** A cell the search may enter: the goal itself, or open space. */
  predicate Passable(l: Loci, goal: Loci, others: seq<Unit>, walls: Grid<bool>)
    reads walls
    requires walls.Valid()
  {
    l == goal || IsSpaceOpen(l, others, walls)
  }

  /**
   * A path as `find_shortest_path` returns it: it excludes the start, ends
   * at the goal, moves one orthogonal step at a time, and crosses only open
   * space before the goal.
   */
  ghost predicate IsPath(start: Loci, goal: Loci, p: seq<Loci>, others: seq<Unit>, walls: Grid<bool>)
    reads walls
    requires walls.Valid()
  {
    (|p| == 0 <==> start == goal) &&
    (|p| > 0 ==>
      p[|p| - 1] == goal && Distance(start, p[0]) == 1 &&
      (forall i :: 0 <= i < |p| - 1 ==> Distance(p[i], p[i + 1]) == 1 && IsSpaceOpen(p[i], others, walls) && p[i] != goal)) &&
    (forall i :: 0 <= i < |p| ==> p[i] != start)
  }

  /** A walk from `start` that enters only passable cells. */
  ghost predicate IsWalk(start: Loci, goal: Loci, w: seq<Loci>, others: seq<Unit>, walls: Grid<bool>)
    reads walls
    requires walls.Valid()
  {
    |w| >= 1 && w[0] == start &&
    forall i :: 1 <= i < |w| ==> Distance(w[i - 1], w[i]) == 1 && Passable(w[i], goal, others, walls)
  }

  /**
   * A walk the search can follow from `start` to `target`: every step
   * enters a passable cell, and the goal is met only at the end.
   */
  ghost predicate OpenWalk(start: Loci, target: Loci, goal: Loci, w: seq<Loci>, others: seq<Unit>, walls: Grid<bool>)
    reads walls
    requires walls.Valid()
  {
    |w| >= 1 && w[0] == start && w[|w| - 1] == target &&
    (forall i :: 1 <= i < |w| ==> Distance(w[i - 1], w[i]) == 1 && Passable(w[i], goal, others, walls)) &&
    (forall i :: 1 <= i < |w| - 1 ==> w[i] != goal)
  }

  /** `p` has no more steps than any walk from `start` that reaches `goal`. */
  ghost predicate Shortest(start: Loci, goal: Loci, p: seq<Loci>, others: seq<Unit>, walls: Grid<bool>)
    reads walls
    requires walls.Valid()
  {
    forall w :: IsWalk(start, goal, w, others, walls) && w[|w| - 1] == goal ==> |p| <= |w| - 1
  }

  /** A walk of unit steps spans at most as many cells as it has steps. */
  lemma {:induction false} WalkSpan(w: seq<Loci>, a: nat, b: nat)
    requires a <= b < |w| && forall i :: a < i <= b ==> Distance(w[i - 1], w[i]) == 1
    ensures Distance(w[a], w[b]) <= b - a
    decreases b - a
  {
    if a < b {
      WalkSpan(w, a, b - 1);
      DistanceMetric(w[a], w[b - 1], w[b]);
    }
  }

  /** A walk that reaches the goal can be cut at the goal's first visit, giving a walk the search can follow. */
  lemma WalkToGoal(start: Loci, goal: Loci, others: seq<Unit>, walls: Grid<bool>, w: seq<Loci>) returns (u: seq<Loci>)
    requires walls.Valid() && IsWalk(start, goal, w, others, walls) && w[|w| - 1] == goal
    ensures OpenWalk(start, goal, goal, u, others, walls) && |u| <= |w|
  {
    var j := 0;
    while w[j] != goal
      invariant 0 <= j < |w| && forall i :: 0 <= i < j ==> w[i] != goal
      decreases |w| - j
    {
      j := j + 1;
    }
    u := w[..j + 1];
  }

  // ---------------------------------------------------------------------
  // The search state
  // ---------------------------------------------------------------------

  /** The `open_set`, `came_from`, `g_score` and `f_score` of one search. */
  datatype Frontier = Frontier(open: seq<Loci>, cameFrom: map<Loci, Loci>, g: map<Loci, int>, f: map<Loci, int>)

  /**
   * `heuristic_cost_estimate`: the Manhattan distance to the goal.  It is
   * consistent: one step lowers it by at most one.
   */
  function Heuristic(from: Loci, goal: Loci): (r: nat)
    ensures forall n :: Distance(from, n) == 1 ==> r <= Distance(n, goal) + 1
  {
    Distance(from, goal)
  }

  predicate NoDuplicates(s: seq<Loci>)
  {
    forall i, j :: 0 <= i < j < |s| ==> s[i] != s[j]
  }

  /**
   * One neighbour of the `for neighbor in neighbors` loop: a new cell is
   * pushed; a known cell is updated unless the tentative score is worse, or
   * equal while its recorded predecessor comes earlier in reading order.
   */
  function Relax(fr: Frontier, current: Loci, n: Loci, goal: Loci): (r: Frontier)
    requires current in fr.g
    requires n in fr.open ==> n in fr.g && n in fr.cameFrom && n in fr.f
    ensures n !in fr.open ==> r.open == fr.open + [n]
    ensures n in fr.open ==> r.open == fr.open
    ensures n in r.g && n in r.cameFrom && n in r.f
    ensures r.g[n] <= fr.g[current] + 1 && (n in fr.open ==> r.g[n] <= fr.g[n])
    ensures n in fr.open && fr.g[current] + 1 == fr.g[n] ==>
      r.cameFrom[n] == (if ReadingLess(fr.cameFrom[n], current) then fr.cameFrom[n] else current)
    ensures r == fr || (r.cameFrom[n] == current && r.g[n] == fr.g[current] + 1 && r.f[n] == r.g[n] + Heuristic(n, goal))
    ensures forall m :: m != n ==>
      (m in r.g <==> m in fr.g) && (m in r.g ==> r.g[m] == fr.g[m]) &&
      (m in r.cameFrom <==> m in fr.cameFrom) && (m in r.cameFrom ==> r.cameFrom[m] == fr.cameFrom[m]) &&
      (m in r.f <==> m in fr.f) && (m in r.f ==> r.f[m] == fr.f[m])
  {
    var tentative := fr.g[current] + 1;
    var record := Frontier(fr.open, fr.cameFrom[n := current], fr.g[n := tentative], fr.f[n := tentative + Heuristic(n, goal)]);
    if n !in fr.open then record.(open := fr.open + [n])
    else if tentative > fr.g[n] then fr
    else if tentative == fr.g[n] && ReadingLess(fr.cameFrom[n], current) then fr
    else record
  }

  /**
   * The neighbours of `current` the search considers: the goal or open
   * space, and not yet closed, in the order right, left, down, up.
   */
  function SearchNeighbors(current: Loci, goal: Loci, closed: set<Loci>, others: seq<Unit>, walls: Grid<bool>): (r: seq<Loci>)
    reads walls
    requires walls.Valid()
    ensures forall n :: n in r <==> Distance(current, n) == 1 && Passable(n, goal, others, walls) && n !in closed
    ensures NoDuplicates(r)
  {
    var ns := Neighbors(current);
    var r := if Passable(ns[0], goal, others, walls) && ns[0] !in closed then [ns[0]] else [];
    var r := if Passable(ns[1], goal, others, walls) && ns[1] !in closed then r + [ns[1]] else r;
    var r := if Passable(ns[2], goal, others, walls) && ns[2] !in closed then r + [ns[2]] else r;
    var r := if Passable(ns[3], goal, others, walls) && ns[3] !in closed then r + [ns[3]] else r;
    r
  }

  /** The cells a search can ever hold: the map's cells plus start and goal. */
  function Cells(start: Loci, goal: Loci, walls: Grid<bool>): set<Loci>
  {
    (set l | l in RowMajor(walls.xMin, walls.yMin, walls.width, walls.height)) + {start, goal}
  }

  /** The open cells: distinct, not closed, scored, and reached from a predecessor unless the start. */
  ghost predicate OpenRecorded(start: Loci, fr: Frontier, closed: set<Loci>)
  {
    NoDuplicates(fr.open) &&
    forall n :: n in fr.open ==> n !in closed && n in fr.g && n in fr.f && (n != start ==> n in fr.cameFrom)
  }

  /** Each recorded predecessor is closed, one step away and one lower in g-score. */
  ghost predicate PredecessorsRecorded(start: Loci, goal: Loci, others: seq<Unit>, walls: Grid<bool>, fr: Frontier, closed: set<Loci>)
    reads walls
    requires walls.Valid()
  {
    forall n :: n in fr.cameFrom ==>
      fr.cameFrom[n] in closed && n in fr.g && fr.cameFrom[n] in fr.g && fr.g[n] == fr.g[fr.cameFrom[n]] + 1 &&
      Distance(fr.cameFrom[n], n) == 1 && n != start && Passable(n, goal, others, walls)
  }

  /** What the search records about every open, closed and reached cell. */
  ghost predicate Records(start: Loci, goal: Loci, others: seq<Unit>, walls: Grid<bool>, fr: Frontier, closed: set<Loci>)
    reads walls
    requires walls.Valid()
  {
    start in fr.g && fr.g[start] == 0 && start !in fr.cameFrom &&
    OpenRecorded(start, fr, closed) &&
    (forall n :: n in closed ==> n in fr.g && (n != start ==> n in fr.cameFrom)) &&
    PredecessorsRecorded(start, goal, others, walls, fr, closed) &&
    goal !in closed &&
    (forall n :: n in fr.open || n in closed ==> n in Cells(start, goal, walls)) &&
    (forall n :: n in fr.g ==> fr.g[n] >= 0)
  }

  /**
   * Every passable successor of a closed cell is known, except the
   * successors of `current` that are still `pending`.
   */
  ghost predicate ClosedUnder(goal: Loci, others: seq<Unit>, walls: Grid<bool>, fr: Frontier, closed: set<Loci>,
                              current: Loci, pending: seq<Loci>)
    reads walls
    requires walls.Valid()
  {
    forall c, n :: c in closed && Distance(c, n) == 1 && Passable(n, goal, others, walls) ==>
      n in closed || (n in fr.open && n in fr.g && c in fr.g && fr.g[n] <= fr.g[c] + 1) || (c == current && n in pending)
  }

  /** No walk the search can follow reaches a closed cell in fewer steps than its g-score. */
  ghost predicate Settled(start: Loci, goal: Loci, others: seq<Unit>, walls: Grid<bool>, fr: Frontier, closed: set<Loci>)
    reads walls
    requires walls.Valid()
  {
    forall c, w :: c in closed && OpenWalk(start, c, goal, w, others, walls) ==> c in fr.g && fr.g[c] <= |w| - 1
  }

  /** Every open cell's f-score is its g-score plus the estimate. */
  ghost predicate Scored(goal: Loci, fr: Frontier)
  {
    forall n :: n in fr.open ==> n in fr.g && n in fr.f && fr.f[n] == fr.g[n] + Heuristic(n, goal)
  }

  /** The search invariant of `find_shortest_path` between iterations. */
  ghost predicate Inv(start: Loci, goal: Loci, others: seq<Unit>, walls: Grid<bool>, fr: Frontier, closed: set<Loci>)
    reads walls
    requires walls.Valid()
  {
    Records(start, goal, others, walls, fr, closed) &&
    (start in closed || (fr.open == [start] && closed == {} && fr.cameFrom == map[])) &&
    ClosedUnder(goal, others, walls, fr, closed, start, []) &&
    Settled(start, goal, others, walls, fr, closed) && Scored(goal, fr)
  }

  /** The search invariant while the neighbours of the just-closed `current` are relaxed. */
  ghost predicate InvExcept(start: Loci, goal: Loci, others: seq<Unit>, walls: Grid<bool>, fr: Frontier,
                            closed: set<Loci>, current: Loci, pending: seq<Loci>)
    reads walls
    requires walls.Valid()
  {
    Records(start, goal, others, walls, fr, closed) && start in closed && current in closed &&
    ClosedUnder(goal, others, walls, fr, closed, current, pending) &&
    Settled(start, goal, others, walls, fr, closed) && Scored(goal, fr)
  }

  /** The `fold` over the open cells from `isize::MAX`: a later cell replaces the best only when strictly lower. */
  function FirstMin(open: seq<Loci>, f: map<Loci, int>): (i: nat)
    requires |open| > 0 && forall n :: n in open ==> n in f
    ensures i < |open|
    ensures forall j :: 0 <= j < |open| ==> f[open[i]] <= f[open[j]]
    ensures forall j :: 0 <= j < i ==> f[open[i]] < f[open[j]]
  {
    if |open| == 1 then 0
    else
      var k := FirstMin(open[..|open| - 1], f);
      assert forall j :: 0 <= j < |open| - 1 ==> open[..|open| - 1][j] == open[j];
      if f[open[|open| - 1]] < f[open[k]] then |open| - 1 else k
  }

  /** The index of the first open cell whose f-score is least (the `fold` from `isize::MAX`). */
  method PopFirstMin(open: seq<Loci>, f: map<Loci, int>) returns (i: nat)
    requires |open| > 0 && forall n :: n in open ==> n in f
    ensures i < |open|
    ensures forall j :: 0 <= j < |open| ==> f[open[i]] <= f[open[j]]
    ensures forall j :: 0 <= j < i ==> f[open[i]] < f[open[j]]
    ensures i == FirstMin(open, f)
  {
    i := 0;
    var k := 1;
    while k < |open|
      invariant 1 <= k <= |open| && i < k
      invariant forall j :: 0 <= j < k ==> f[open[i]] <= f[open[j]]
      invariant forall j :: 0 <= j < i ==> f[open[i]] < f[open[j]]
    {
      if f[open[k]] < f[open[i]] {
        i := k;
      }
      k := k + 1;
    }
    var m := FirstMin(open, f);
    assert f[open[i]] <= f[open[m]] && f[open[m]] <= f[open[i]];
  }

  /** Keeps the cells other than `c` (`open_set.into_iter().filter(..)`). */
  function Without(s: seq<Loci>, c: Loci): (r: seq<Loci>)
    ensures forall n :: n in r <==> n in s && n != c
    ensures NoDuplicates(s) ==> NoDuplicates(r)
  {
    if s == [] then []
    else if s[0] == c then Without(s[1..], c)
    else
      assert NoDuplicates(s) ==> s[0] !in s[1..];
      [s[0]] + Without(s[1..], c)
  }

  /**
   * The `came_from` chain: every recorded predecessor is one step away,
   * has a g-score one lower, and is itself recorded or the start.
   */
  ghost predicate Chain(start: Loci, goal: Loci, others: seq<Unit>, walls: Grid<bool>, fr: Frontier)
    reads walls
    requires walls.Valid()
  {
    start in fr.g && fr.g[start] == 0 && start !in fr.cameFrom &&
    (forall n :: n in fr.g ==> fr.g[n] >= 0) &&
    forall n :: n in fr.cameFrom ==>
      var p := fr.cameFrom[n];
      n in fr.g && p in fr.g && fr.g[n] == fr.g[p] + 1 && Distance(p, n) == 1 && n != start &&
      Passable(n, goal, others, walls) && (p == start || p in fr.cameFrom)
  }

  lemma InvChain(start: Loci, goal: Loci, others: seq<Unit>, walls: Grid<bool>, fr: Frontier, closed: set<Loci>)
    requires walls.Valid() && Inv(start, goal, others, walls, fr, closed)
    ensures Chain(start, goal, others, walls, fr)
  {
  }

  /**
   * The `came_from` walk back from `b` to the start, at most `n` steps,
   * put in forward order in front of `path`.
   */
  function BackFrom(start: Loci, cameFrom: map<Loci, Loci>, b: Loci, n: int, path: seq<Loci>): seq<Loci>
    decreases n
  {
    if b == start || n <= 0 || b !in cameFrom then path else BackFrom(start, cameFrom, cameFrom[b], n - 1, [b] + path)
  }

  /** The walk back put in front of `path` is the walk back on its own followed by `path`. */
  lemma {:induction false} BackFromAppend(start: Loci, cameFrom: map<Loci, Loci>, b: Loci, n: int, path: seq<Loci>)
    ensures BackFrom(start, cameFrom, b, n, path) == BackFrom(start, cameFrom, b, n, []) + path
    decreases n
  {
    if b == start || n <= 0 || b !in cameFrom {
      assert [] + path == path;
    } else {
      BackFromAppend(start, cameFrom, cameFrom[b], n - 1, [b] + path);
      BackFromAppend(start, cameFrom, cameFrom[b], n - 1, [b]);
      assert [b] + [] == [b];
      var q := BackFrom(start, cameFrom, cameFrom[b], n - 1, []);
      assert q + ([b] + path) == (q + [b]) + path;
    }
  }

  /** The walk back from `b` is the walk back from its predecessor followed by `b`. */
  lemma BackFromCons(start: Loci, cameFrom: map<Loci, Loci>, b: Loci, n: nat)
    requires b != start && n > 0 && b in cameFrom
    ensures BackFrom(start, cameFrom, b, n, []) == BackFrom(start, cameFrom, cameFrom[b], n - 1, []) + [b]
  {
    BackFromAppend(start, cameFrom, cameFrom[b], n - 1, [b]);
    assert [b] + [] == [b];
  }

  /**
   * `p` leads from next to the start up to `b` by adjacent passable cells,
   * the i-th of them at distance i + 1, so it has `g[b]` cells.
   */
  ghost predicate BackPath(start: Loci, goal: Loci, others: seq<Unit>, walls: Grid<bool>, fr: Frontier, b: Loci, p: seq<Loci>)
    reads walls
    requires walls.Valid() && b in fr.g
  {
    |p| == fr.g[b] &&
    (forall i :: 0 <= i < |p| ==> p[i] in fr.g && fr.g[p[i]] == i + 1 && p[i] != start && Passable(p[i], goal, others, walls)) &&
    (|p| > 0 ==> p[|p| - 1] == b && Distance(start, p[0]) == 1) &&
    (forall i :: 0 <= i < |p| - 1 ==> Distance(p[i], p[i + 1]) == 1)
  }

  /** A path back to the predecessor `q` extends by one step to `b`. */
  lemma BackPathExtend(start: Loci, goal: Loci, others: seq<Unit>, walls: Grid<bool>, fr: Frontier, q: Loci, b: Loci, pq: seq<Loci>)
    requires walls.Valid() && q in fr.g && b in fr.g && BackPath(start, goal, others, walls, fr, q, pq)
    requires fr.g[b] == fr.g[q] + 1 && Distance(q, b) == 1 && b != start && Passable(b, goal, others, walls)
    requires q == start || fr.g[q] > 0
    ensures BackPath(start, goal, others, walls, fr, b, pq + [b])
  {
  }

  /** Along the recorded predecessors, the walk back from a reached cell `b` is a `BackPath` to it. */
  lemma {:induction false} BackFromChain(start: Loci, goal: Loci, others: seq<Unit>, walls: Grid<bool>, fr: Frontier, b: Loci)
    requires walls.Valid() && Chain(start, goal, others, walls, fr)
    requires b in fr.g && (b == start || b in fr.cameFrom)
    ensures BackPath(start, goal, others, walls, fr, b, BackFrom(start, fr.cameFrom, b, fr.g[b], []))
    decreases fr.g[b]
  {
    if b != start {
      var q := fr.cameFrom[b];
      BackFromChain(start, goal, others, walls, fr, q);
      BackFromCons(start, fr.cameFrom, b, fr.g[b]);
      if q != start {
        assert fr.g[q] > 0;
      }
      BackPathExtend(start, goal, others, walls, fr, q, b, BackFrom(start, fr.cameFrom, q, fr.g[q], []));
    }
  }

  /**
   * Walks `came_from` back from the goal to the start, collecting the cells
   * in forward order (the source pushes them and then reverses the vector).
   */
  method Backtrack(start: Loci, goal: Loci, others: seq<Unit>, walls: Grid<bool>, fr: Frontier)
    returns (path: seq<Loci>)
    requires walls.Valid() && Chain(start, goal, others, walls, fr)
    requires goal in fr.g && (goal == start || goal in fr.cameFrom)
    ensures IsPath(start, goal, path, others, walls)
    ensures |path| == fr.g[goal]
    ensures path == BackFrom(start, fr.cameFrom, goal, fr.g[goal], [])
  {
    path := [];
    var backTrack := goal;
    while backTrack != start
      invariant backTrack in fr.g && (backTrack == start || backTrack in fr.cameFrom)
      invariant BackFrom(start, fr.cameFrom, backTrack, fr.g[backTrack], path) == BackFrom(start, fr.cameFrom, goal, fr.g[goal], [])
      decreases fr.g[backTrack]
    {
      var previous := fr.cameFrom[backTrack];
      path := [backTrack] + path;
      backTrack := previous;
    }
    BackFromPath(start, goal, others, walls, fr);
  }

  /** The walk back from the goal is a path to it of `g[goal]` steps. */
  lemma BackFromPath(start: Loci, goal: Loci, others: seq<Unit>, walls: Grid<bool>, fr: Frontier)
    requires walls.Valid() && Chain(start, goal, others, walls, fr)
    requires goal in fr.g && (goal == start || goal in fr.cameFrom)
    ensures var p := BackFrom(start, fr.cameFrom, goal, fr.g[goal], []);
      IsPath(start, goal, p, others, walls) && |p| == fr.g[goal]
  {
    var p := BackFrom(start, fr.cameFrom, goal, fr.g[goal], []);
    BackFromChain(start, goal, others, walls, fr, goal);
    if goal != start {
      assert fr.g[goal] > 0;
    }
    forall i | 0 <= i < |p| - 1
      ensures IsSpaceOpen(p[i], others, walls) && p[i] != goal
    {
      assert fr.g[p[i]] < fr.g[goal];
    }
  }


  /** Closed cells are closed under passable steps, so every walk stays in them. */
  lemma {:induction false} WalksStayClosed(start: Loci, goal: Loci, others: seq<Unit>, walls: Grid<bool>, closed: set<Loci>, w: seq<Loci>)
    requires walls.Valid() && IsWalk(start, goal, w, others, walls) && start in closed
    requires forall c, n :: c in closed && Distance(c, n) == 1 && Passable(n, goal, others, walls) ==> n in closed
    ensures w[|w| - 1] in closed
    decreases |w|
  {
    if |w| > 1 {
      var p := w[..|w| - 1];
      assert forall i :: 0 <= i < |p| ==> p[i] == w[i];
      WalksStayClosed(start, goal, others, walls, closed, p);
      assert w[|w| - 2] in closed;
    }
  }

  /** Relaxing one candidate keeps the records (with `current` already closed). */
  lemma RelaxKeepsRecords(start: Loci, goal: Loci, others: seq<Unit>, walls: Grid<bool>, fr: Frontier,
                          closed: set<Loci>, current: Loci, n: Loci)
    requires walls.Valid() && current in closed && start in closed
    requires Records(start, goal, others, walls, fr, closed)
    requires n !in closed && Distance(current, n) == 1 && Passable(n, goal, others, walls)
    ensures Records(start, goal, others, walls, Relax(fr, current, n, goal), closed)
  {
    var r := Relax(fr, current, n, goal);
    RelaxKeepsOpen(start, fr, closed, current, n, goal);
    RelaxKeepsPredecessors(start, goal, others, walls, fr, closed, current, n);
    RelaxKeepsScores(start, goal, others, walls, fr, closed, current, n);
  }

  lemma RelaxKeepsScores(start: Loci, goal: Loci, others: seq<Unit>, walls: Grid<bool>, fr: Frontier,
                         closed: set<Loci>, current: Loci, n: Loci)
    requires walls.Valid() && current in closed && start in closed
    requires Records(start, goal, others, walls, fr, closed)
    requires n !in closed && Distance(current, n) == 1 && Passable(n, goal, others, walls)
    ensures var r := Relax(fr, current, n, goal);
      start in r.g && r.g[start] == 0 && start !in r.cameFrom &&
      (forall m :: m in closed ==> m in r.g && (m != start ==> m in r.cameFrom)) &&
      (forall m :: m in r.open || m in closed ==> m in Cells(start, goal, walls)) &&
      (forall m :: m in r.g ==> r.g[m] >= 0)
  {
    var r := Relax(fr, current, n, goal);
    PassableInCells(start, goal, others, walls, n);
    assert forall m :: m in r.open ==> m in fr.open || m == n;
  }

  /** Only cells of the map, the start and the goal are ever passable. */
  lemma PassableInCells(start: Loci, goal: Loci, others: seq<Unit>, walls: Grid<bool>, n: Loci)
    requires walls.Valid() && Passable(n, goal, others, walls)
    ensures n in Cells(start, goal, walls)
  {
    if n != goal {
      RowMajorSpec(walls.xMin, walls.yMin, walls.width, walls.height);
    }
  }

  lemma RelaxKeepsOpen(start: Loci, fr: Frontier, closed: set<Loci>, current: Loci, n: Loci, goal: Loci)
    requires current in fr.g && start in closed && n !in closed
    requires OpenRecorded(start, fr, closed)
    ensures OpenRecorded(start, Relax(fr, current, n, goal), closed)
  {
    var r := Relax(fr, current, n, goal);
    if n !in fr.open {
      assert forall i :: 0 <= i < |fr.open| ==> r.open[i] == fr.open[i];
    }
  }

  lemma RelaxKeepsPredecessors(start: Loci, goal: Loci, others: seq<Unit>, walls: Grid<bool>, fr: Frontier,
                               closed: set<Loci>, current: Loci, n: Loci)
    requires walls.Valid() && current in closed && start in closed && current in fr.g
    requires n in fr.open ==> n in fr.g && n in fr.cameFrom && n in fr.f
    requires n !in closed && Distance(current, n) == 1 && Passable(n, goal, others, walls)
    requires PredecessorsRecorded(start, goal, others, walls, fr, closed)
    ensures PredecessorsRecorded(start, goal, others, walls, Relax(fr, current, n, goal), closed)
  {
  }

  /** Relaxing the first pending candidate settles it. */
  lemma RelaxKeepsClosedUnder(goal: Loci, others: seq<Unit>, walls: Grid<bool>, fr: Frontier,
                              closed: set<Loci>, current: Loci, n: Loci, pending: seq<Loci>)
    requires walls.Valid() && current in fr.g && current in closed && n !in closed
    requires n in fr.open ==> n in fr.g && n in fr.cameFrom && n in fr.f
    requires ClosedUnder(goal, others, walls, fr, closed, current, [n] + pending)
    ensures ClosedUnder(goal, others, walls, Relax(fr, current, n, goal), closed, current, pending)
  {
    var r := Relax(fr, current, n, goal);
    assert forall m :: m in fr.open ==> m in r.open;
  }

  /** Relaxing a cell that is not closed leaves the closed cells' g-scores alone. */
  lemma RelaxKeepsSettled(start: Loci, goal: Loci, others: seq<Unit>, walls: Grid<bool>, fr: Frontier,
                          closed: set<Loci>, current: Loci, n: Loci)
    requires walls.Valid() && current in fr.g && n !in closed
    requires n in fr.open ==> n in fr.g && n in fr.cameFrom && n in fr.f
    requires Settled(start, goal, others, walls, fr, closed)
    ensures Settled(start, goal, others, walls, Relax(fr, current, n, goal), closed)
  {
  }

  /** Relaxing records the f-score of the cell it updates or pushes. */
  lemma RelaxKeepsScored(fr: Frontier, current: Loci, n: Loci, goal: Loci)
    requires current in fr.g && (n in fr.open ==> n in fr.g && n in fr.cameFrom && n in fr.f)
    requires Scored(goal, fr)
    ensures Scored(goal, Relax(fr, current, n, goal))
  {
  }

  /**
   * The open cell of least f-score is settled: a walk the search can follow
   * to it leaves the closed cells somewhere, at an open cell whose f-score
   * is at most that walk's length plus the estimate at `current`, because
   * the Manhattan estimate drops by at most one per step.
   */
  lemma PopSettles(start: Loci, goal: Loci, others: seq<Unit>, walls: Grid<bool>, fr: Frontier,
                   closed: set<Loci>, current: Loci, w: seq<Loci>)
    requires walls.Valid() && start in closed
    requires ClosedUnder(goal, others, walls, fr, closed, start, [])
    requires Settled(start, goal, others, walls, fr, closed) && Scored(goal, fr)
    requires current in fr.open && current !in closed && forall n :: n in fr.open ==> fr.f[current] <= fr.f[n]
    requires OpenWalk(start, current, goal, w, others, walls)
    ensures fr.g[current] <= |w| - 1
  {
    var j := LeaveClosed(w, closed);
    var m, p := w[j], w[j - 1];
    PrefixWalk(start, current, goal, others, walls, w, j);
    assert fr.g[p] <= j - 1;
    assert Distance(p, m) == 1 && Passable(m, goal, others, walls);
    assert m in fr.open && fr.g[m] <= fr.g[p] + 1;
    WalkSpan(w, j, |w| - 1);
    DistanceMetric(m, current, goal);
  }

  /** A walk the search can follow, cut after its first j cells. */
  lemma PrefixWalk(start: Loci, target: Loci, goal: Loci, others: seq<Unit>, walls: Grid<bool>, w: seq<Loci>, j: nat)
    requires walls.Valid() && OpenWalk(start, target, goal, w, others, walls) && 1 <= j <= |w|
    ensures OpenWalk(start, w[j - 1], goal, w[..j], others, walls)
  {
  }

  /** The first cell of a walk from inside `closed` to outside it that lies outside. */
  lemma LeaveClosed(w: seq<Loci>, closed: set<Loci>) returns (j: nat)
    requires |w| >= 1 && w[0] in closed && w[|w| - 1] !in closed
    ensures 0 < j < |w| && w[j] !in closed && w[j - 1] in closed
  {
    j := 1;
    while w[j] in closed
      invariant 0 < j < |w| && w[j - 1] in closed
      decreases |w| - j
    {
      j := j + 1;
    }
  }

  /** Moving the chosen `current` from the open to the closed set. */
  lemma CloseCurrent(start: Loci, goal: Loci, others: seq<Unit>, walls: Grid<bool>, fr: Frontier,
                     closed: set<Loci>, current: Loci)
    requires walls.Valid() && Inv(start, goal, others, walls, fr, closed)
    requires current in fr.open && current != goal
    requires forall w :: OpenWalk(start, current, goal, w, others, walls) ==> fr.g[current] <= |w| - 1
    ensures InvExcept(start, goal, others, walls, fr.(open := Without(fr.open, current)), closed + {current}, current,
                      SearchNeighbors(current, goal, closed + {current}, others, walls))
  {
    var fr' := fr.(open := Without(fr.open, current));
    var closed' := closed + {current};
    assert Records(start, goal, others, walls, fr', closed');
  }

  /** Every candidate still to relax that is already open is fully recorded. */
  predicate Relaxable(fr: Frontier, current: Loci, ns: seq<Loci>)
  {
    current in fr.g && forall n :: n in ns && n in fr.open ==> n in fr.g && n in fr.cameFrom && n in fr.f
  }

  /** The `for neighbor in neighbors` loop as a fold of `Relax`. */
  function RelaxEach(fr: Frontier, current: Loci, ns: seq<Loci>, goal: Loci): Frontier
    requires Relaxable(fr, current, ns)
    decreases |ns|
  {
    if ns == [] then fr
    else
      var r := Relax(fr, current, ns[0], goal);
      assert Relaxable(r, current, ns[1..]) by {
        forall n | n in ns[1..] && n in r.open
          ensures n in r.g && n in r.cameFrom && n in r.f
        {
          assert n in ns;
        }
      }
      RelaxEach(r, current, ns[1..], goal)
  }

  /** The search state `find_shortest_path` starts from. */
  function Start(start: Loci, goal: Loci): Frontier
  {
    Frontier([start], map[], map[start := 0], map[start := Heuristic(start, goal)])
  }

  /**
   * The `while !open_set.is_empty()` loop as a function of the search
   * state: while cells are open, go on with the first open cell of least
   * f-score.  (A state that breaks the search invariant, which the search
   * never reaches, answers `None`.)
   */
  ghost function SearchFrom(start: Loci, goal: Loci, others: seq<Unit>, walls: Grid<bool>, fr: Frontier, closed: set<Loci>)
    : Option<seq<Loci>>
    reads walls
    requires walls.Valid()
    decreases Cells(start, goal, walls) - closed, 1
  {
    if fr.open == [] || !Scored(goal, fr) then None
    else SearchAt(start, goal, others, walls, fr, closed, fr.open[FirstMin(fr.open, fr.f)])
  }

  /**
   * One iteration of the search with `current` popped: answer the path
   * back to it if it is the goal, and otherwise close it, relax its
   * neighbours and go on.  Each iteration closes one more cell of the map.
   */
  ghost function SearchAt(start: Loci, goal: Loci, others: seq<Unit>, walls: Grid<bool>, fr: Frontier, closed: set<Loci>, current: Loci)
    : Option<seq<Loci>>
    reads walls
    requires walls.Valid() && current in fr.g
    decreases Cells(start, goal, walls) - closed, 0
  {
    if current == goal then Some(BackFrom(start, fr.cameFrom, goal, fr.g[goal], []))
    else
      var closed' := closed + {current};
      var ns := SearchNeighbors(current, goal, closed', others, walls);
      var rest := fr.(open := Without(fr.open, current));
      if current in closed || current !in Cells(start, goal, walls) || !Relaxable(rest, current, ns) then None
      else SearchFrom(start, goal, others, walls, RelaxEach(rest, current, ns, goal), closed')
  }

  /** `find_shortest_path` as a function: the search from its initial state. */
  ghost function Search(start: Loci, goal: Loci, others: seq<Unit>, walls: Grid<bool>): Option<seq<Loci>>
    reads walls
    requires walls.Valid()
  {
    SearchFrom(start, goal, others, walls, Start(start, goal), {})
  }

  /** Relaxing the pending neighbours one by one restores the search invariant. */
  lemma {:induction false} RelaxEachKeeps(start: Loci, goal: Loci, others: seq<Unit>, walls: Grid<bool>, fr: Frontier,
                                          closed: set<Loci>, current: Loci, ns: seq<Loci>)
    requires walls.Valid() && InvExcept(start, goal, others, walls, fr, closed, current, ns)
    requires forall n :: n in ns ==> Distance(current, n) == 1 && Passable(n, goal, others, walls) && n !in closed
    ensures Relaxable(fr, current, ns)
    ensures Inv(start, goal, others, walls, RelaxEach(fr, current, ns, goal), closed)
    decreases |ns|
  {
    if ns != [] {
      var n := ns[0];
      assert ns == [n] + ns[1..];
      RelaxKeepsRecords(start, goal, others, walls, fr, closed, current, n);
      RelaxKeepsClosedUnder(goal, others, walls, fr, closed, current, n, ns[1..]);
      RelaxKeepsSettled(start, goal, others, walls, fr, closed, current, n);
      RelaxKeepsScored(fr, current, n, goal);
      RelaxEachKeeps(start, goal, others, walls, Relax(fr, current, n, goal), closed, current, ns[1..]);
    }
  }

  /**
   * `find_shortest_path` from `start` to `goal`.  A returned path satisfies
   * `IsPath` and no walk reaches the goal in fewer steps; `None` is
   * returned only when no walk through open space reaches the goal.
   */
  method FindShortestPath(start: Loci, goal: Loci, others: seq<Unit>, walls: Grid<bool>) returns (r: Option<seq<Loci>>)
    requires walls.Valid()
    ensures r.Some? ==> IsPath(start, goal, r.value, others, walls) && Shortest(start, goal, r.value, others, walls)
    ensures r.None? ==> forall w :: IsWalk(start, goal, w, others, walls) ==> w[|w| - 1] != goal
    ensures r == Search(start, goal, others, walls)
  {
    var closed: set<Loci> := {};
    var fr := Frontier([start], map[], map[start := 0], map[start := Heuristic(start, goal)]);
    ghost var cells := Cells(start, goal, walls);
    while |fr.open| > 0
      invariant Inv(start, goal, others, walls, fr, closed)
      invariant closed <= cells
      invariant SearchFrom(start, goal, others, walls, fr, closed) == Search(start, goal, others, walls)
      decreases cells - closed
    {
      var i := PopFirstMin(fr.open, fr.f);
      var current := fr.open[i];
      SearchGoesOn(start, goal, others, walls, fr, closed, i);
      PopSettlesAll(start, goal, others, walls, fr, closed, i);
      if current == goal {
        InvChain(start, goal, others, walls, fr, closed);
        var path := Backtrack(start, goal, others, walls, fr);
        GoalShortest(start, goal, others, walls, fr.g[goal], path);
        return Some(path);
      }
      CloseCurrent(start, goal, others, walls, fr, closed, current);
      fr := fr.(open := Without(fr.open, current));
      closed := closed + {current};
      var neighbors := SearchNeighbors(current, goal, closed, others, walls);
      fr := RelaxAll(start, goal, others, walls, fr, closed, current, neighbors);
    }
    forall w | IsWalk(start, goal, w, others, walls)
      ensures w[|w| - 1] != goal
    {
      WalksStayClosed(start, goal, others, walls, closed, w);
    }
    return None;
  }

  /**
   * Under the search invariant the first open cell of least f-score is a
   * scored, unclosed cell of the map, so `SearchFrom` answers the path to
   * it if it is the goal and otherwise goes on from the state after closing
   * it and relaxing its neighbours.
   */
  lemma SearchGoesOn(start: Loci, goal: Loci, others: seq<Unit>, walls: Grid<bool>, fr: Frontier,
                     closed: set<Loci>, i: nat)
    requires walls.Valid() && Inv(start, goal, others, walls, fr, closed)
    requires fr.open != [] && i == FirstMin(fr.open, fr.f)
    ensures fr.open[i] == goal ==>
      SearchFrom(start, goal, others, walls, fr, closed) == Some(BackFrom(start, fr.cameFrom, goal, fr.g[goal], []))
    ensures fr.open[i] != goal && Relaxable(fr.(open := Without(fr.open, fr.open[i])), fr.open[i],
                                            SearchNeighbors(fr.open[i], goal, closed + {fr.open[i]}, others, walls)) ==>
      SearchFrom(start, goal, others, walls, fr, closed) ==
      SearchFrom(start, goal, others, walls,
                 RelaxEach(fr.(open := Without(fr.open, fr.open[i])), fr.open[i],
                           SearchNeighbors(fr.open[i], goal, closed + {fr.open[i]}, others, walls), goal),
                 closed + {fr.open[i]})
  {
    var current := fr.open[i];
    assert current in fr.g && current !in closed;
    assert SearchFrom(start, goal, others, walls, fr, closed) == SearchAt(start, goal, others, walls, fr, closed, current);
  }

  /** `PopSettles` for every walk, with the least f-score given at an index as `PopFirstMin` finds it. */
  lemma PopSettlesAll(start: Loci, goal: Loci, others: seq<Unit>, walls: Grid<bool>, fr: Frontier,
                      closed: set<Loci>, i: nat)
    requires walls.Valid() && Inv(start, goal, others, walls, fr, closed)
    requires i < |fr.open| && forall j :: 0 <= j < |fr.open| ==> fr.f[fr.open[i]] <= fr.f[fr.open[j]]
    ensures forall w :: OpenWalk(start, fr.open[i], goal, w, others, walls) ==> fr.g[fr.open[i]] <= |w| - 1
  {
    var current := fr.open[i];
    forall n | n in fr.open
      ensures fr.f[current] <= fr.f[n]
    {
      var j :| 0 <= j < |fr.open| && fr.open[j] == n;
    }
    forall w | OpenWalk(start, current, goal, w, others, walls)
      ensures fr.g[current] <= |w| - 1
    {
      if start in closed {
        PopSettles(start, goal, others, walls, fr, closed, current, w);
      }
    }
  }

  /** A path as long as the goal's settled g-score is a shortest one. */
  lemma GoalShortest(start: Loci, goal: Loci, others: seq<Unit>, walls: Grid<bool>, g: int, path: seq<Loci>)
    requires walls.Valid() && |path| == g
    requires forall w :: OpenWalk(start, goal, goal, w, others, walls) ==> g <= |w| - 1
    ensures Shortest(start, goal, path, others, walls)
  {
    forall w | IsWalk(start, goal, w, others, walls) && w[|w| - 1] == goal
      ensures |path| <= |w| - 1
    {
      var u := WalkToGoal(start, goal, others, walls, w);
    }
  }

  /** The `for neighbor in neighbors` loop: relaxes the neighbours of the just-closed `current` in turn. */
  method RelaxAll(start: Loci, goal: Loci, others: seq<Unit>, walls: Grid<bool>, fr0: Frontier,
                  closed: set<Loci>, current: Loci, neighbors: seq<Loci>) returns (fr: Frontier)
    requires walls.Valid() && InvExcept(start, goal, others, walls, fr0, closed, current, neighbors)
    requires forall n :: n in neighbors ==> Distance(current, n) == 1 && Passable(n, goal, others, walls) && n !in closed
    ensures Inv(start, goal, others, walls, fr, closed)
    ensures Relaxable(fr0, current, neighbors) && fr == RelaxEach(fr0, current, neighbors, goal)
  {
    RelaxEachKeeps(start, goal, others, walls, fr0, closed, current, neighbors);
    fr := fr0;
    var k := 0;
    while k < |neighbors|
      invariant 0 <= k <= |neighbors|
      invariant Relaxable(fr, current, neighbors[k..])
      invariant RelaxEach(fr, current, neighbors[k..], goal) == RelaxEach(fr0, current, neighbors, goal)
    {
      var n := neighbors[k];
      assert neighbors[k..][1..] == neighbors[k + 1..];
      RelaxEachStep(fr, current, neighbors[k..], goal);
      fr := Relax(fr, current, n, goal);
      k := k + 1;
    }
  }

  /** One step of the fold. */
  lemma RelaxEachStep(fr: Frontier, current: Loci, ns: seq<Loci>, goal: Loci)
    requires Relaxable(fr, current, ns) && ns != []
    ensures Relaxable(Relax(fr, current, ns[0], goal), current, ns[1..])
    ensures RelaxEach(fr, current, ns, goal) == RelaxEach(Relax(fr, current, ns[0], goal), current, ns[1..], goal)
  {
  }

  // ---------------------------------------------------------------------
  // Choosing the enemy to approach
  // ---------------------------------------------------------------------

  /**
   * One step of the `fold` in `find_closest_enemy_path`: a strictly shorter
   * path wins; on equal length the path whose last cell comes first in
   * reading order wins; otherwise the earlier path is kept.  (With two empty
   * paths the source would index below zero; the model keeps the earlier.)
   */
  function PickPath(best: Option<seq<Loci>>, p: seq<Loci>): (r: seq<Loci>)
    ensures best.None? ==> r == p
    ensures best.Some? ==> (r == p || r == best.value) && |r| <= |p| && |r| <= |best.value|
    ensures best.Some? && (|p| < |best.value| || (|p| == |best.value| > 0 && ReadingLess(p[|p| - 1], best.value[|p| - 1]))) ==> r == p
    ensures best.Some? && r != best.value ==> |p| < |best.value| || (|p| == |best.value| > 0 && ReadingLess(p[|p| - 1], best.value[|p| - 1]))
  {
    match best
    case None => p
    case Some(s) =>
      if |p| < |s| then p
      else if |p| == |s| && |p| > 0 && ReadingLess(p[|p| - 1], s[|s| - 1]) then p
      else s
  }

  /** The `filter_map` then `fold` over the enemies' search results. */
  function SelectPath(found: seq<Option<seq<Loci>>>): Option<seq<Loci>>
  {
    if found == [] then None
    else
      var best := SelectPath(found[..|found| - 1]);
      match found[|found| - 1]
      case None => best
      case Some(p) => Some(PickPath(best, p))
  }

  /**
   * The selected path is one of the found paths, is no longer than any of
   * them, and among those of equal length its last cell is first in reading
   * order; nothing is selected only when nothing was found.
   */
  lemma {:induction false} SelectPathSpec(found: seq<Option<seq<Loci>>>)
    ensures SelectPath(found).None? <==> forall k :: 0 <= k < |found| ==> found[k].None?
    ensures SelectPath(found).Some? ==> exists k :: 0 <= k < |found| && found[k] == SelectPath(found)
    ensures forall k :: 0 <= k < |found| && found[k].Some? ==>
      var r := SelectPath(found).value;
      var p := found[k].value;
      |r| <= |p| && (|r| == |p| && |p| > 0 ==> !ReadingLess(p[|p| - 1], r[|r| - 1]))
    decreases |found|
  {
    if found != [] {
      var prefix := found[..|found| - 1];
      SelectPathSpec(prefix);
      assert forall k :: 0 <= k < |prefix| ==> prefix[k] == found[k];
      var r := SelectPath(found);
      if r.Some? {
        forall k | 0 <= k < |found| && found[k].Some?
          ensures var p := found[k].value;
            |r.value| <= |p| && (|r.value| == |p| && |p| > 0 ==> !ReadingLess(p[|p| - 1], r.value[|r.value| - 1]))
        {
          var p := found[k].value;
          if |r.value| == |p| && |p| > 0 {
            CmpTotalOrder(p[|p| - 1], r.value[|r.value| - 1], p[|p| - 1]);
            if SelectPath(prefix).Some? {
              var b := SelectPath(prefix).value;
              CmpTotalOrder(p[|p| - 1], b[|b| - 1], r.value[|r.value| - 1]);
              CmpTotalOrder(r.value[|r.value| - 1], b[|b| - 1], p[|p| - 1]);
            }
          }
        }
      }
    }
  }

  /** What a finished search toward `goal` answered and guarantees. */
  ghost predicate Searched(start: Loci, goal: Loci, p: Option<seq<Loci>>, others: seq<Unit>, walls: Grid<bool>)
    reads walls
    requires walls.Valid()
  {
    p == Search(start, goal, others, walls) &&
    (p.Some? ==> IsPath(start, goal, p.value, others, walls) && Shortest(start, goal, p.value, others, walls)) &&
    (p.None? ==> forall w :: IsWalk(start, goal, w, others, walls) ==> w[|w| - 1] != goal)
  }

  /** The shortest-path search toward each enemy in turn. */
  ghost function Searches(start: Loci, enemies: seq<Loci>, others: seq<Unit>, walls: Grid<bool>): (r: seq<Option<seq<Loci>>>)
    reads walls
    requires walls.Valid()
    ensures |r| == |enemies|
  {
    if enemies == [] then []
    else Searches(start, enemies[..|enemies| - 1], others, walls) + [Search(start, enemies[|enemies| - 1], others, walls)]
  }

  /** The k-th of the searches is the search toward the k-th enemy. */
  lemma {:induction false} SearchesAt(start: Loci, enemies: seq<Loci>, others: seq<Unit>, walls: Grid<bool>)
    requires walls.Valid()
    ensures forall k :: 0 <= k < |enemies| ==> Searches(start, enemies, others, walls)[k] == Search(start, enemies[k], others, walls)
    decreases |enemies|
  {
    if enemies != [] {
      var prefix := enemies[..|enemies| - 1];
      SearchesAt(start, prefix, others, walls);
      assert forall k :: 0 <= k < |prefix| ==> prefix[k] == enemies[k];
    }
  }

  /** Appending the next search's answer keeps every answer so far `Searched`. */
  lemma SearchedExtend(start: Loci, enemies: seq<Loci>, found: seq<Option<seq<Loci>>>, p: Option<seq<Loci>>,
                       others: seq<Unit>, walls: Grid<bool>)
    requires walls.Valid() && |found| < |enemies|
    requires forall j :: 0 <= j < |found| ==> Searched(start, enemies[j], found[j], others, walls)
    requires Searched(start, enemies[|found|], p, others, walls)
    ensures forall j :: 0 <= j < |found| + 1 ==> Searched(start, enemies[j], (found + [p])[j], others, walls)
  {
    forall j | 0 <= j < |found| + 1
      ensures Searched(start, enemies[j], (found + [p])[j], others, walls)
    {
      if j < |found| {
        assert (found + [p])[j] == found[j];
      }
    }
  }

  /** Every search answered as `Search` does; the facts each one guarantees, collected. */
  lemma SearchedAll(start: Loci, enemies: seq<Loci>, found: seq<Option<seq<Loci>>>, others: seq<Unit>, walls: Grid<bool>)
    requires walls.Valid() && |found| == |enemies|
    requires forall k :: 0 <= k < |enemies| ==> Searched(start, enemies[k], found[k], others, walls)
    ensures forall k :: 0 <= k < |enemies| && found[k].Some? ==> IsPath(start, enemies[k], found[k].value, others, walls)
    ensures forall k :: 0 <= k < |enemies| && found[k].None? ==>
      forall w :: IsWalk(start, enemies[k], w, others, walls) ==> w[|w| - 1] != enemies[k]
    ensures forall k :: 0 <= k < |enemies| && found[k].Some? ==> Shortest(start, enemies[k], found[k].value, others, walls)
    ensures SelectPath(found).Some? ==> forall k, w :: 0 <= k < |enemies| && IsWalk(start, enemies[k], w, others, walls) && w[|w| - 1] == enemies[k] ==>
      |SelectPath(found).value| <= |w| - 1
    ensures found == Searches(start, enemies, others, walls)
  {
    ClosestIsShortest(start, enemies, found, others, walls);
    SearchesAt(start, enemies, others, walls);
  }

  /**
   * When each search found a shortest path or established that its enemy
   * is unreachable, the selected path is no longer than any walk to any of
   * the enemies.
   */
  lemma ClosestIsShortest(start: Loci, enemies: seq<Loci>, found: seq<Option<seq<Loci>>>, others: seq<Unit>, walls: Grid<bool>)
    requires walls.Valid() && |found| == |enemies|
    requires forall k :: 0 <= k < |enemies| && found[k].Some? ==> Shortest(start, enemies[k], found[k].value, others, walls)
    requires forall k :: 0 <= k < |enemies| && found[k].None? ==>
      forall w :: IsWalk(start, enemies[k], w, others, walls) ==> w[|w| - 1] != enemies[k]
    ensures SelectPath(found).Some? ==> forall k, w :: 0 <= k < |enemies| && IsWalk(start, enemies[k], w, others, walls) && w[|w| - 1] == enemies[k] ==>
      |SelectPath(found).value| <= |w| - 1
  {
    SelectPathSpec(found);
    if SelectPath(found).Some? {
      forall k, w | 0 <= k < |enemies| && IsWalk(start, enemies[k], w, others, walls) && w[|w| - 1] == enemies[k]
        ensures |SelectPath(found).value| <= |w| - 1
      {
        assert found[k].Some?;
      }
    }
  }

  /** `Loci` of the units at the given indices. */
  function Positions(units: seq<Unit>, idx: seq<nat>): (r: seq<Loci>)
    requires forall k :: 0 <= k < |idx| ==> idx[k] < |units|
    ensures |r| == |idx| && forall k :: 0 <= k < |idx| ==> r[k] == Pos(units[idx[k]])
  {
    seq(|idx|, k requires 0 <= k < |idx| => Pos(units[idx[k]]))
  }

  /** The units at the given indices. */
  function Values(units: seq<Unit>, idx: seq<nat>): (r: seq<Unit>)
    requires forall k :: 0 <= k < |idx| ==> idx[k] < |units|
    ensures |r| == |idx| && forall k :: 0 <= k < |idx| ==> r[k] == units[idx[k]]
  {
    seq(|idx|, k requires 0 <= k < |idx| => units[idx[k]])
  }

  /**
   * `find_closest_enemy_path`: searches a path to every enemy in turn and
   * keeps the one `SelectPath` picks.  `found` records each search's result.
   */
  method FindClosestEnemyPath(start: Loci, enemies: seq<Loci>, others: seq<Unit>, walls: Grid<bool>)
    returns (r: Option<seq<Loci>>, ghost found: seq<Option<seq<Loci>>>)
    requires walls.Valid()
    ensures |found| == |enemies| && r == SelectPath(found)
    ensures forall k :: 0 <= k < |enemies| && found[k].Some? ==> IsPath(start, enemies[k], found[k].value, others, walls)
    ensures forall k :: 0 <= k < |enemies| && found[k].None? ==>
      forall w :: IsWalk(start, enemies[k], w, others, walls) ==> w[|w| - 1] != enemies[k]
    ensures forall k :: 0 <= k < |enemies| && found[k].Some? ==> Shortest(start, enemies[k], found[k].value, others, walls)
    ensures r.Some? ==> forall k, w :: 0 <= k < |enemies| && IsWalk(start, enemies[k], w, others, walls) && w[|w| - 1] == enemies[k] ==>
      |r.value| <= |w| - 1
    ensures found == Searches(start, enemies, others, walls)
  {
    r := None;
    found := [];
    for k := 0 to |enemies|
      invariant |found| == k && r == SelectPath(found)
      invariant forall j :: 0 <= j < k ==> Searched(start, enemies[j], found[j], others, walls)
    {
      var p := FindShortestPath(start, enemies[k], others, walls);
      SearchedExtend(start, enemies, found, p, others, walls);
      found := found + [p];
      assert found[..k] == found[..|found| - 1];
      if p.Some? {
        r := Some(PickPath(r, p.value));
      }
    }
    SearchedAll(start, enemies, found, others, walls);
  }

  // ---------------------------------------------------------------------
  // Turn order, targets and attacks
  // ---------------------------------------------------------------------

  predicate SortedByPosition(s: seq<Unit>)
  {
    forall a, b :: 0 <= a < b < |s| ==> UnitLeq(s[a], s[b])
  }

  /** Puts `u` after the last unit of `s` that sorts no later than it: one pass of a stable insertion sort. */
  function InsertUnit(s: seq<Unit>, u: Unit): seq<Unit>
    decreases |s|
  {
    if s == [] || UnitLeq(s[|s| - 1], u) then s + [u]
    else InsertUnit(s[..|s| - 1], u) + [s[|s| - 1]]
  }

  /** `units.sort()` as a function: a stable sort into reading order, units at one position kept in their order. */
  function StableSort(units: seq<Unit>): seq<Unit>
    decreases |units|
  {
    if units == [] then [] else InsertUnit(StableSort(units[..|units| - 1]), units[|units| - 1])
  }

  /** Inserting into a sorted sequence keeps it sorted and adds exactly the one unit. */
  lemma {:induction false} InsertUnitSpec(s: seq<Unit>, u: Unit)
    requires SortedByPosition(s)
    ensures |InsertUnit(s, u)| == |s| + 1
    ensures multiset(InsertUnit(s, u)) == multiset(s) + multiset{u}
    ensures SortedByPosition(InsertUnit(s, u))
    decreases |s|
  {
    if s != [] && !UnitLeq(s[|s| - 1], u) {
      var p := s[..|s| - 1];
      var last := s[|s| - 1];
      assert forall a :: 0 <= a < |p| ==> p[a] == s[a];
      InsertUnitSpec(p, u);
      var q := InsertUnit(p, u);
      assert s == p + [last];
      forall a | 0 <= a < |q|
        ensures UnitLeq(q[a], last)
      {
        assert q[a] in multiset(q);
        assert q[a] == u || q[a] in multiset(p);
        if q[a] != u {
          var k :| 0 <= k < |p| && p[k] == q[a];
        }
      }
    }
  }

  /** The sort is a permutation into reading order. */
  lemma {:induction false} StableSortSpec(units: seq<Unit>)
    ensures |StableSort(units)| == |units|
    ensures multiset(StableSort(units)) == multiset(units)
    ensures SortedByPosition(StableSort(units))
    decreases |units|
  {
    if units != [] {
      var p := units[..|units| - 1];
      StableSortSpec(p);
      InsertUnitSpec(StableSort(p), units[|units| - 1]);
      assert units == p + [units[|units| - 1]];
    }
  }

  /** `units.sort()`: a stable insertion sort into reading order. */
  method SortUnits(units: seq<Unit>) returns (s: seq<Unit>)
    ensures |s| == |units| && multiset(s) == multiset(units)
    ensures SortedByPosition(s)
    ensures s == StableSort(units)
  {
    s := units;
    for i := 0 to |s|
      invariant |s| == |units|
      invariant s[..i] == StableSort(units[..i]) && s[i..] == units[i..]
    {
      assert units[..i + 1][..i] == units[..i];
      StableSortSpec(units[..i]);
      s := SinkInto(s, i);
      assert s[..i + 1] == StableSort(units[..i + 1]);
    }
    assert units[..|units|] == units && s[..|s|] == s;
    StableSortSpec(units);
  }

  /** Moves `s[i]` down past the later-sorting units before it. */
  method SinkInto(s0: seq<Unit>, i: nat) returns (s: seq<Unit>)
    requires i < |s0| && SortedByPosition(s0[..i])
    ensures |s| == |s0| && multiset(s) == multiset(s0) && s[i + 1..] == s0[i + 1..]
    ensures forall a, b :: 0 <= a < b <= i ==> UnitLeq(s[a], s[b])
    ensures s[..i + 1] == InsertUnit(s0[..i], s0[i])
  {
    var u := s0[i];
    s := s0;
    var j := i;
    while j > 0 && !UnitLeq(s[j - 1], s[j])
      invariant 0 <= j <= i
      invariant |s| == |s0| && s[..j] == s0[..j] && s[j] == u && s[j + 1..i + 1] == s0[j..i] && s[i + 1..] == s0[i + 1..]
      invariant InsertUnit(s0[..i], u) == InsertUnit(s0[..j], u) + s0[j..i]
    {
      InsertUnitBack(s0, i, j, u);
      s := s[j - 1 := s[j]][j := s[j - 1]];
      j := j - 1;
    }
    SinkDone(s0, s, i, j, u);
  }

  /** One swap of the insertion: the unit moves past an earlier unit that sorts after it. */
  lemma InsertUnitBack(s0: seq<Unit>, i: nat, j: nat, u: Unit)
    requires 0 < j <= i < |s0| && !UnitLeq(s0[j - 1], u)
    requires InsertUnit(s0[..i], u) == InsertUnit(s0[..j], u) + s0[j..i]
    ensures InsertUnit(s0[..i], u) == InsertUnit(s0[..j - 1], u) + s0[j - 1..i]
  {
    assert s0[..j][..j - 1] == s0[..j - 1];
    assert s0[j - 1..i] == [s0[j - 1]] + s0[j..i];
  }

  /** Where the insertion stops, the first `i + 1` units are `InsertUnit`'s answer and the whole is a sorted permutation of them. */
  lemma SinkDone(s0: seq<Unit>, s: seq<Unit>, i: nat, j: nat, u: Unit)
    requires j <= i < |s0| && u == s0[i] && SortedByPosition(s0[..i])
    requires |s| == |s0| && s[..j] == s0[..j] && s[j] == u && s[j + 1..i + 1] == s0[j..i] && s[i + 1..] == s0[i + 1..]
    requires InsertUnit(s0[..i], u) == InsertUnit(s0[..j], u) + s0[j..i]
    requires j == 0 || UnitLeq(s[j - 1], s[j])
    ensures s[..i + 1] == InsertUnit(s0[..i], u)
    ensures multiset(s) == multiset(s0)
    ensures forall a, b :: 0 <= a < b <= i ==> UnitLeq(s[a], s[b])
  {
    assert s[..i + 1] == s[..j] + [u] + s[j + 1..i + 1];
    if j > 0 {
      assert s0[..j][j - 1] == s[j - 1];
    }
    SinkWhole(s0, s, i, u);
  }

  /** A prefix replaced by `InsertUnit`'s answer leaves a sorted permutation of the original. */
  lemma SinkWhole(s0: seq<Unit>, s: seq<Unit>, i: nat, u: Unit)
    requires i < |s0| && u == s0[i] && SortedByPosition(s0[..i])
    requires |s| == |s0| && s[..i + 1] == InsertUnit(s0[..i], u) && s[i + 1..] == s0[i + 1..]
    ensures multiset(s) == multiset(s0)
    ensures forall a, b :: 0 <= a < b <= i ==> UnitLeq(s[a], s[b])
  {
    InsertUnitSpec(s0[..i], u);
    assert s0 == s0[..i] + [u] + s0[i + 1..];
    assert s == s[..i + 1] + s[i + 1..];
    assert forall a :: 0 <= a <= i ==> s[a] == s[..i + 1][a];
  }

  /** The indices below `n`, other than `i`, of live units, in order (`alive_units`). */
  function AliveOthers(units: seq<Unit>, i: nat, n: nat): (r: seq<nat>)
    requires n <= |units|
    ensures forall k :: 0 <= k < |r| ==> r[k] < n
    ensures forall j: nat :: j in r <==> j < n && j != i && IsAlive(units[j])
  {
    if n == 0 then []
    else AliveOthers(units, i, n - 1) + (if n - 1 != i && IsAlive(units[n - 1]) then [n - 1] else [])
  }

  /** The indices in `idx` whose unit has the given species (`find_species`). */
  function OfSpecies(units: seq<Unit>, idx: seq<nat>, species: Species): (r: seq<nat>)
    requires forall k :: 0 <= k < |idx| ==> idx[k] < |units|
    ensures forall k :: 0 <= k < |r| ==> r[k] < |units|
    ensures forall j :: j in r <==> j in idx && units[j].species == species
  {
    if idx == [] then []
    else (if units[idx[0]].species == species then [idx[0]] else []) + OfSpecies(units, idx[1..], species)
  }

  /** The indices in `idx` of enemies adjacent to `u` (`in_range_enemies`). */
  function InRangeEnemies(units: seq<Unit>, u: Unit, idx: seq<nat>): (r: seq<nat>)
    requires forall k :: 0 <= k < |idx| ==> idx[k] < |units|
    ensures forall k :: 0 <= k < |r| ==> r[k] < |units|
    ensures forall j :: j in r <==> j in idx && InRange(u, units[j])
  {
    if idx == [] then []
    else (if InRange(u, units[idx[0]]) then [idx[0]] else []) + InRangeEnemies(units, u, idx[1..])
  }

  /**
   * The attack `fold`: the candidate with the lowest health; on ties the
   * earliest such candidate is kept.
   */
  function ChooseTarget(units: seq<Unit>, candidates: seq<nat>): (r: Option<nat>)
    requires forall k :: 0 <= k < |candidates| ==> candidates[k] < |units|
    ensures r.Some? <==> |candidates| > 0
    ensures r.Some? ==> exists k :: (0 <= k < |candidates| && candidates[k] == r.value &&
      forall j :: 0 <= j < k ==> units[candidates[j]].health > units[r.value].health)
    ensures r.Some? ==> forall j :: 0 <= j < |candidates| ==> units[r.value].health <= units[candidates[j]].health
  {
    if candidates == [] then None
    else
      var prefix := candidates[..|candidates| - 1];
      var last := candidates[|candidates| - 1];
      var best := ChooseTarget(units, prefix);
      assert forall j :: 0 <= j < |prefix| ==> prefix[j] == candidates[j];
      match best
      case None => Some(last)
      case Some(b) => Some(if units[last].health < units[b].health then last else b)
  }

  /** The damage a unit of the given species deals. */
  function AttackPower(species: Species, elfAttackPower: int): (p: int)
    ensures species == Goblin ==> p == GoblinAttackPower
    ensures species == Elf ==> p == elfAttackPower
  {
    match species
    case Goblin => GoblinAttackPower
    case Elf => elfAttackPower
  }

  /** The remaining hit points: the health of the live units, summed. */
  function LiveHealth(units: seq<Unit>): (h: int)
  {
    if units == [] then 0
    else (if IsAlive(units[0]) then units[0].health else 0) + LiveHealth(units[1..])
  }

  lemma {:induction false} LiveHealthBounds(units: seq<Unit>)
    ensures LiveHealth(units) >= 0
    ensures LiveHealth(units) == 0 <==> forall k :: 0 <= k < |units| ==> !IsAlive(units[k])
    decreases |units|
  {
    if units != [] {
      LiveHealthBounds(units[1..]);
      assert forall k :: 1 <= k < |units| ==> units[k] == units[1..][k - 1];
    }
  }

  /** All live units belong to the same species: the fight is over. */
  predicate OneSpeciesLeft(units: seq<Unit>)
  {
    forall a, b :: 0 <= a < |units| && 0 <= b < |units| && IsAlive(units[a]) && IsAlive(units[b]) ==>
      units[a].species == units[b].species
  }

  /** How a game ends: after some full rounds, on a watched elf death, or beyond the round budget. */
  datatype GameEnd = Finished(rounds: nat, units: seq<Unit>) | ElfDied | OutOfFuel

  /** The outcome `main_game` returns: full rounds times remaining hit points, or 0 when an elf died. */
  function Outcome(end: GameEnd): (o: int)
    requires !end.OutOfFuel?
    ensures end.Finished? ==> o >= 0 && (o == 0 <==> end.rounds == 0 || LiveHealth(end.units) == 0)
    ensures end.ElfDied? ==> o == 0
  {
    LiveHealthBounds(if end.Finished? then end.units else []);
    if end.Finished? then end.rounds * LiveHealth(end.units) else 0
  }

  /** A live unit that finds no live enemy among the others sees only its own species alive. */
  lemma NoEnemiesLeft(units: seq<Unit>, i: nat)
    requires i < |units| && IsAlive(units[i])
    requires |OfSpecies(units, AliveOthers(units, i, |units|), Enemy(units[i].species))| == 0
    ensures OneSpeciesLeft(units)
  {
    var alive := AliveOthers(units, i, |units|);
    var enemies := OfSpecies(units, alive, Enemy(units[i].species));
    forall a | 0 <= a < |units| && IsAlive(units[a])
      ensures units[a].species == units[i].species
    {
      if a != i {
        assert a in alive && a !in enemies;
      }
    }
  }

  /** The path toward the closest enemy that a unit's search picks (`find_closest_enemy_path`). */
  ghost function ClosestPath(units: seq<Unit>, i: nat, alive: seq<nat>, enemies: seq<nat>, walls: Grid<bool>): Option<seq<Loci>>
    reads walls
    requires walls.Valid() && i < |units|
    requires forall k :: 0 <= k < |alive| ==> alive[k] < |units|
    requires forall k :: 0 <= k < |enemies| ==> enemies[k] < |units|
  {
    SelectPath(Searches(Pos(units[i]), Positions(units, enemies), Values(units, alive), walls))
  }

  /** The unit at `i` steps onto the first cell of the path, if there is one. */
  function MoveAlong(units: seq<Unit>, i: nat, path: Option<seq<Loci>>): (r: seq<Unit>)
    requires i < |units|
    ensures |r| == |units| && r[i].species == units[i].species && r[i].health == units[i].health
    ensures forall k :: 0 <= k < |units| && k != i ==> r[k] == units[k]
    ensures path.Some? && |path.value| > 0 ==> Pos(r[i]) == path.value[0]
    ensures !(path.Some? && |path.value| > 0) ==> r == units
  {
    if path.Some? && |path.value| > 0 then units[i := units[i].(x := path.value[0].x, y := path.value[0].y)] else units
  }

  /** The unit at `i` hits the unit at `t` with its species' attack power. */
  function Attack(units: seq<Unit>, i: nat, t: nat, elfAttackPower: int): (r: seq<Unit>)
    requires i < |units| && t < |units|
    ensures |r| == |units| && forall k :: 0 <= k < |units| && k != t ==> r[k] == units[k]
    ensures r[t] == units[t].(health := units[t].health - AttackPower(units[i].species, elfAttackPower))
  {
    units[t := units[t].(health := units[t].health - AttackPower(units[i].species, elfAttackPower))]
  }

  /** How one unit's turn ends: the game goes on, the unit found no enemy, or a watched elf died. */
  datatype TurnEnd = Next(units: seq<Unit>) | NoEnemies(units: seq<Unit>) | ElfKilled

  /**
   * The turn of the unit at `i` (the body of `for i in 0..units.len()`):
   * a dead unit is skipped; a unit with no live enemy ends the fight; a
   * unit with no enemy in range steps toward the closest one; then it
   * attacks the weakest enemy in range, and the game stops if that kills a
   * unit `quit_on_death` watches.
   */
  ghost function Turn(units: seq<Unit>, i: nat, walls: Grid<bool>, elfAttackPower: int, quitOnElfDeath: bool): (t: TurnEnd)
    reads walls
    requires walls.Valid() && i < |units|
    ensures t.Next? ==> |t.units| == |units|
    ensures t.NoEnemies? ==> t.units == units && OneSpeciesLeft(units)
    ensures t.ElfKilled? ==> quitOnElfDeath
  {
    if !IsAlive(units[i]) then Next(units)
    else
      var alive := AliveOthers(units, i, |units|);
      var enemies := OfSpecies(units, alive, Enemy(units[i].species));
      if |enemies| == 0 then
        NoEnemiesLeft(units, i);
        NoEnemies(units)
      else
        var moved := if |InRangeEnemies(units, units[i], enemies)| == 0
                     then MoveAlong(units, i, ClosestPath(units, i, alive, enemies, walls)) else units;
        Strike(moved, i, enemies, elfAttackPower, quitOnElfDeath)
  }

  /**
   * The attack that ends a turn: the weakest enemy in range of the unit at
   * `i` is hit, and the game stops if that kills a unit `quit_on_death`
   * watches.
   */
  function Strike(units: seq<Unit>, i: nat, enemies: seq<nat>, elfAttackPower: int, quitOnElfDeath: bool): (t: TurnEnd)
    requires i < |units| && forall k :: 0 <= k < |enemies| ==> enemies[k] < |units|
    ensures t.Next? ==> |t.units| == |units|
    ensures !t.NoEnemies?
    ensures t.ElfKilled? ==> quitOnElfDeath
  {
    match ChooseTarget(units, InRangeEnemies(units, units[i], enemies))
    case None => Next(units)
    case Some(t) =>
      var hit := Attack(units, i, t, elfAttackPower);
      if hit[t].health <= 0 && quitOnElfDeath && hit[t].species == Elf then ElfKilled else Next(hit)
  }

  /**
   * The turns of the units from `i` on, in order, in round `rounds`; once
   * the round is over the game goes on with the next one, unless a turn
   * ended it.
   */
  ghost function RoundFrom(units: seq<Unit>, i: nat, rounds: nat, walls: Grid<bool>, elfAttackPower: int, quitOnElfDeath: bool, fuel: nat)
    : (g: GameEnd)
    reads walls
    requires walls.Valid() && i <= |units| && rounds < fuel
    ensures g.Finished? ==> |g.units| == |units| && rounds <= g.rounds < fuel && OneSpeciesLeft(g.units)
    ensures g.ElfDied? ==> quitOnElfDeath
    decreases fuel - rounds, 0, |units| - i
  {
    if i == |units| then GameFrom(units, rounds + 1, walls, elfAttackPower, quitOnElfDeath, fuel)
    else
      match Turn(units, i, walls, elfAttackPower, quitOnElfDeath)
      case Next(u) => RoundFrom(u, i + 1, rounds, walls, elfAttackPower, quitOnElfDeath, fuel)
      case NoEnemies(u) => Finished(rounds, u)
      case ElfKilled => ElfDied
  }

  /** How a game ends: after some full rounds, on a watched elf death, or beyond the round budget. */
  ghost function GameFrom(units: seq<Unit>, rounds: nat, walls: Grid<bool>, elfAttackPower: int, quitOnElfDeath: bool, fuel: nat)
    : (g: GameEnd)
    reads walls
    requires walls.Valid()
    ensures g.Finished? ==> |g.units| == |units| && rounds <= g.rounds < fuel && OneSpeciesLeft(g.units)
    ensures g.ElfDied? ==> quitOnElfDeath
    decreases fuel - rounds, 1, 0
  {
    if rounds >= fuel then OutOfFuel
    else
      StableSortSpec(units);
      RoundFrom(StableSort(units), 0, rounds, walls, elfAttackPower, quitOnElfDeath, fuel)
  }

  /** `main_game` as a function: rounds from the input units until the game ends. */
  ghost function Game(input: seq<Unit>, walls: Grid<bool>, elfAttackPower: int, quitOnElfDeath: bool, fuel: nat): GameEnd
    reads walls
    requires walls.Valid()
  {
    GameFrom(input, 0, walls, elfAttackPower, quitOnElfDeath, fuel)
  }

  /** One unit's turn of `main_game`. */
  method TakeTurn(units: seq<Unit>, i: nat, walls: Grid<bool>, elfAttackPower: int, quitOnElfDeath: bool) returns (t: TurnEnd)
    requires walls.Valid() && i < |units|
    ensures t == Turn(units, i, walls, elfAttackPower, quitOnElfDeath)
  {
    if !IsAlive(units[i]) {
      return Next(units);
    }
    var alive := AliveOthers(units, i, |units|);
    var enemies := OfSpecies(units, alive, Enemy(units[i].species));
    if |enemies| == 0 {
      return NoEnemies(units);
    }
    var moved := units;
    var inRange := InRangeEnemies(units, units[i], enemies);
    if |inRange| == 0 {
      var path, _ := FindClosestEnemyPath(Pos(units[i]), Positions(units, enemies), Values(units, alive), walls);
      moved := MoveAlong(units, i, path);
      if path.Some? && |path.value| > 0 {
        inRange := InRangeEnemies(moved, moved[i], enemies);
      }
    }
    var target := ChooseTarget(moved, inRange);
    if target.Some? {
      var hit := Attack(moved, i, target.value, elfAttackPower);
      if hit[target.value].health <= 0 && quitOnElfDeath && hit[target.value].species == Elf {
        return ElfKilled;
      }
      return Next(hit);
    }
    return Next(moved);
  }

  /**
   * `main_game`: rounds of turns in reading order until some unit finds no
   * enemy left.  `fuel` bounds the number of rounds started.
   */
  method MainGame(input: seq<Unit>, walls: Grid<bool>, elfAttackPower: int, quitOnElfDeath: bool, fuel: nat)
    returns (end: GameEnd)
    requires walls.Valid()
    ensures end.Finished? ==> |end.units| == |input| && end.rounds < fuel && OneSpeciesLeft(end.units)
    ensures end.ElfDied? ==> quitOnElfDeath
    ensures end == Game(input, walls, elfAttackPower, quitOnElfDeath, fuel)
  {
    var units := input;
    var rounds: nat := 0;
    while true
      invariant |units| == |input| && rounds <= fuel
      invariant GameFrom(units, rounds, walls, elfAttackPower, quitOnElfDeath, fuel) == Game(input, walls, elfAttackPower, quitOnElfDeath, fuel)
      decreases fuel - rounds
    {
      if rounds == fuel {
        return OutOfFuel;
      }
      units := SortUnits(units);
      for i := 0 to |units|
        invariant |units| == |input|
        invariant RoundFrom(units, i, rounds, walls, elfAttackPower, quitOnElfDeath, fuel) == Game(input, walls, elfAttackPower, quitOnElfDeath, fuel)
      {
        var t := TakeTurn(units, i, walls, elfAttackPower, quitOnElfDeath);
        match t
        case NoEnemies(_) =>
          return Finished(rounds, units);
        case ElfKilled =>
          return ElfDied;
        case Next(u) =>
          units := u;
      }
      rounds := rounds + 1;
    }
  }

  /** Part A: the outcome with elves at attack power 3 and no early stop. */
  method A(input: seq<Unit>, walls: Grid<bool>, fuel: nat) returns (r: Option<int>)
    requires walls.Valid()
    ensures r.Some? ==> r.value >= 0
    ensures Game(input, walls, 3, false, fuel).OutOfFuel? ==> r.None?
    ensures !Game(input, walls, 3, false, fuel).OutOfFuel? ==> r == Some(Outcome(Game(input, walls, 3, false, fuel)))
  {
    var end := MainGame(input, walls, 3, false, fuel);
    if end.OutOfFuel? {
      return None;
    }
    return Some(Outcome(end));
  }

  /** The game with elf attack power `power`, stopped at the first elf death, ends within the budget with outcome `o`. */
  ghost predicate GameGives(input: seq<Unit>, walls: Grid<bool>, power: int, fuel: nat, o: int)
    reads walls
    requires walls.Valid()
  {
    !Game(input, walls, power, true, fuel).OutOfFuel? && o == Outcome(Game(input, walls, power, true, fuel))
  }

  /**
   * Part B: tries elf attack powers 4 to 199 in turn, stopping each game at
   * the first elf death, and returns the first positive outcome with the
   * power that gave it.  `tried` records the outcomes of the weaker powers.
   */
  method B(input: seq<Unit>, walls: Grid<bool>, fuel: nat) returns (r: Option<(int, int)>, ghost tried: seq<int>)
    requires walls.Valid()
    ensures r.Some? ==> 4 <= r.value.0 < 200 && r.value.1 > 0 && |tried| == r.value.0 - 4
    ensures forall k :: 0 <= k < |tried| ==> tried[k] <= 0
    ensures forall k :: 0 <= k < |tried| ==> GameGives(input, walls, 4 + k, fuel, tried[k])
    ensures r.Some? ==> (!Game(input, walls, r.value.0, true, fuel).OutOfFuel? &&
                         r.value.1 == Outcome(Game(input, walls, r.value.0, true, fuel)))
    ensures r.None? ==> |tried| == 196 || Game(input, walls, 4 + |tried|, true, fuel).OutOfFuel?
  {
    tried := [];
    for power := 4 to 200
      invariant |tried| == power - 4 && forall k :: 0 <= k < |tried| ==> tried[k] <= 0
      invariant forall k :: 0 <= k < |tried| ==> GameGives(input, walls, 4 + k, fuel, tried[k])
    {
      var end := MainGame(input, walls, power, true, fuel);
      assert end == Game(input, walls, 4 + |tried|, true, fuel);
      if end.OutOfFuel? {
        return None, tried;
      }
      var result := Outcome(end);
      if result > 0 {
        return Some((power, result)), tried;
      }
      tried := tried + [result];
    }
    return None, tried;
  }
}
