/**
 * Day 6 (6/src/main.rs): a list of locations, the nearest location of every
 * cell of a bounding grid (none when the nearest distance is tied), the
 * largest area owned by a location not touching the border, and the size of
 * the region whose total distance to all locations is within a range.
 * Grid cells are walked with the corrected `GridCords` order
 * (`ColumnGrid.ColumnMajor`), which visits every cell once.
 */
module ChronalCoordinates {
  import opened Wrappers
  import C = Coordinates
  import G = ColumnGrid

  // ---------------------------------------------------------------------
  // Nearest location
  // ---------------------------------------------------------------------

  /** `locations[i]` is strictly nearer to `cur` than every other entry. */
  ghost predicate UniqueNearest(cur: C.Loci, locations: seq<C.Loci>, i: int)
  {
    0 <= i < |locations| &&
    forall j :: 0 <= j < |locations| && j != i ==> C.Distance(cur, locations[i]) < C.Distance(cur, locations[j])
  }

  /** The owner of `cur`: the strictly nearest location, or none on a tie or an empty list. */
  ghost function Nearest(cur: C.Loci, locations: seq<C.Loci>): Option<C.Loci>
  {
    if exists i :: UniqueNearest(cur, locations, i) then
      var i :| UniqueNearest(cur, locations, i); Some(locations[i])
    else None
  }

  /**
   * `find_closest_location`: tracks the least distance so far and whether it
   * was met twice; a tie at the end yields None.
   */
  method FindClosestLocation(cur: C.Loci, locations: seq<C.Loci>) returns (r: Option<C.Loci>)
    ensures r == Nearest(cur, locations)
  {
    var minDistance := 0;
    var closest: Option<C.Loci> := None;
    var dup := false;
    ghost var ci := 0;
    for k := 0 to |locations|
      invariant k == 0 ==> closest.None? && !dup
      invariant k > 0 ==> 0 <= ci < k && closest == Some(locations[ci]) && minDistance == C.Distance(cur, locations[ci])
      invariant k > 0 ==> forall j :: 0 <= j < k ==> C.Distance(cur, locations[j]) >= minDistance
      invariant k > 0 ==> forall j :: 0 <= j < ci ==> C.Distance(cur, locations[j]) > minDistance
      invariant dup <==> exists j :: 0 <= j < k && j != ci && C.Distance(cur, locations[j]) == minDistance
    {
      var distance := C.Distance(cur, locations[k]);
      if closest.None? || distance < minDistance {
        closest := Some(locations[k]);
        minDistance := distance;
        dup := false;
        ci := k;
      } else if distance == minDistance {
        dup := true;
      }
    }
    if dup {
      ghost var j :| 0 <= j < |locations| && j != ci && C.Distance(cur, locations[j]) == minDistance;
      assert forall i :: !UniqueNearest(cur, locations, i) by {
        forall i | 0 <= i < |locations|
          ensures !UniqueNearest(cur, locations, i)
        {
          if i == ci {
            assert C.Distance(cur, locations[j]) <= C.Distance(cur, locations[i]);
          } else {
            assert C.Distance(cur, locations[ci]) <= C.Distance(cur, locations[i]);
          }
        }
      }
      return None;
    }
    if closest.Some? {
      assert UniqueNearest(cur, locations, ci);
      forall i | UniqueNearest(cur, locations, i)
        ensures i == ci
      {
      }
    }
    return closest;
  }

  /** An owner appears exactly once among the locations: a copy would tie with it. */
  lemma OwnerOnce(cur: C.Loci, locations: seq<C.Loci>, l: C.Loci)
    requires Nearest(cur, locations) == Some(l)
    ensures multiset(locations)[l] == 1
  {
    var i :| UniqueNearest(cur, locations, i) && locations[i] == l;
    assert locations == locations[..i] + [l] + locations[i + 1..];
    forall x | x in locations[..i] ensures x != l {
      var j :| 0 <= j < i && locations[..i][j] == x;
      assert locations[j] == x;
    }
    var suffix := locations[i + 1..];
    forall x | x in suffix ensures x != l {
      var j :| 0 <= j < |suffix| && suffix[j] == x;
      assert locations[i + 1 + j] == x;
    }
  }

  // ---------------------------------------------------------------------
  // Pruning infinite areas
  // ---------------------------------------------------------------------

  /** The list without its first entry equal to `v`, if any. */
  function RemoveFirst(s: seq<C.Loci>, v: C.Loci): seq<C.Loci>
  {
    if s == [] then [] else if s[0] == v then s[1..] else [s[0]] + RemoveFirst(s[1..], v)
  }

  /** Removing the first copy takes exactly one `v` out of the multiset, when there is one. */
  lemma {:induction false} RemoveFirstMultiset(s: seq<C.Loci>, v: C.Loci)
    ensures multiset(RemoveFirst(s, v)) == multiset(s) - multiset{v}
    decreases |s|
  {
    if s != [] {
      assert s == [s[0]] + s[1..];
      if s[0] != v {
        RemoveFirstMultiset(s[1..], v);
      }
    }
  }

  /** `prune_infinite`: removes the first entry equal to the border cell's owner. */
  method PruneInfinite(infinite: Option<C.Loci>, finite: seq<C.Loci>) returns (r: seq<C.Loci>)
    ensures r == if infinite.Some? then RemoveFirst(finite, infinite.value) else finite
  {
    if infinite.None? {
      return finite;
    }
    var v := infinite.value;
    var position := 0;
    while position < |finite| && finite[position] != v
      invariant 0 <= position <= |finite|
      invariant RemoveFirst(finite, v) == finite[..position] + RemoveFirst(finite[position..], v)
    {
      assert finite[position..] == [finite[position]] + finite[position + 1..];
      assert finite[..position + 1] == finite[..position] + [finite[position]];
      position := position + 1;
    }
    if position < |finite| {
      r := finite[..position] + finite[position + 1..];
    } else {
      r := finite;
    }
  }

  /** The owners of a list of cells. */
  ghost function Owners(cells: seq<C.Loci>, locations: seq<C.Loci>): (r: seq<Option<C.Loci>>)
    ensures |r| == |cells|
  {
    if cells == [] then [] else Owners(cells[..|cells| - 1], locations) + [Nearest(cells[|cells| - 1], locations)]
  }

  /** Applies `prune_infinite` for each owner in turn. */
  function PruneAll(finite: seq<C.Loci>, owners: seq<Option<C.Loci>>): seq<C.Loci>
  {
    if owners == [] then finite
    else
      var rest := PruneAll(finite, owners[..|owners| - 1]);
      var o := owners[|owners| - 1];
      if o.Some? then RemoveFirst(rest, o.value) else rest
  }

  /**
   * Pruning only removes locations, and when every owner appears once among
   * the locations, every owner is gone afterwards.
   */
  lemma {:induction false} PruneAllSpec(locations: seq<C.Loci>, owners: seq<Option<C.Loci>>)
    requires forall k :: 0 <= k < |owners| && owners[k].Some? ==> multiset(locations)[owners[k].value] <= 1
    ensures multiset(PruneAll(locations, owners)) <= multiset(locations)
    ensures forall k :: 0 <= k < |owners| && owners[k].Some? ==> owners[k].value !in PruneAll(locations, owners)
    decreases |owners|
  {
    if owners != [] {
      var init := owners[..|owners| - 1];
      PruneAllSpec(locations, init);
      var rest := PruneAll(locations, init);
      var o := owners[|owners| - 1];
      var result := PruneAll(locations, owners);
      if o.Some? {
        assert result == RemoveFirst(rest, o.value);
        RemoveFirstMultiset(rest, o.value);
        assert multiset(result)[o.value] == 0 by {
          assert multiset(rest)[o.value] <= multiset(locations)[o.value] <= 1;
        }
      } else {
        assert result == rest;
      }
      assert multiset(result) <= multiset(rest);
      forall k | 0 <= k < |owners| && owners[k].Some?
        ensures owners[k].value !in result
      {
        if k < |owners| - 1 {
          assert init[k] == owners[k];
          assert multiset(rest)[owners[k].value] == 0;
          assert multiset(result)[owners[k].value] == 0;
        } else {
          assert owners[k] == o;
          assert multiset(result)[o.value] == 0;
        }
      }
    }
  }

  /** Every location owning one of `cells` is pruned away, and nothing is added. */
  lemma PruneOwners(locations: seq<C.Loci>, cells: seq<C.Loci>)
    ensures multiset(PruneAll(locations, Owners(cells, locations))) <= multiset(locations)
    ensures forall c :: c in cells && Nearest(c, locations).Some? ==>
      Nearest(c, locations).value !in PruneAll(locations, Owners(cells, locations))
  {
    var owners := Owners(cells, locations);
    OwnersAt(cells, locations);
    forall k | 0 <= k < |owners| && owners[k].Some?
      ensures multiset(locations)[owners[k].value] <= 1
    {
      OwnerOnce(cells[k], locations, owners[k].value);
    }
    PruneAllSpec(locations, owners);
    forall c | c in cells && Nearest(c, locations).Some?
      ensures Nearest(c, locations).value !in PruneAll(locations, owners)
    {
      var k :| 0 <= k < |cells| && cells[k] == c;
      assert owners[k] == Nearest(c, locations);
    }
  }

  lemma {:induction false} OwnersAt(cells: seq<C.Loci>, locations: seq<C.Loci>)
    ensures forall k :: 0 <= k < |cells| ==> Owners(cells, locations)[k] == Nearest(cells[k], locations)
    decreases |cells|
  {
    if cells != [] {
      OwnersAt(cells[..|cells| - 1], locations);
    }
  }

  /** The border cells in the order `a` prunes them: top and bottom row by column. */
  function TopBottom(height: nat, n: nat): seq<C.Loci>
  {
    if n == 0 then [] else TopBottom(height, n - 1) + [C.Loci(n - 1, 0), C.Loci(n - 1, height - 1)]
  }

  /** Then the left and right column, rows 1 up to `n - 1`. */
  function LeftRight(width: nat, n: nat): seq<C.Loci>
  {
    if n <= 1 then [] else LeftRight(width, n - 1) + [C.Loci(0, n - 1), C.Loci(width - 1, n - 1)]
  }

  function Border(width: nat, height: nat): seq<C.Loci>
    requires height >= 1
  {
    TopBottom(height, width) + LeftRight(width, height - 1)
  }

  lemma OwnersAppend2(cells: seq<C.Loci>, a: C.Loci, b: C.Loci, locations: seq<C.Loci>)
    ensures Owners(cells + [a, b], locations) == Owners(cells, locations) + [Nearest(a, locations), Nearest(b, locations)]
  {
    assert (cells + [a, b])[..|cells| + 1] == cells + [a];
    assert (cells + [a])[..|cells|] == cells;
  }

  lemma PruneAllAppend2(finite: seq<C.Loci>, owners: seq<Option<C.Loci>>, a: Option<C.Loci>, b: Option<C.Loci>)
    ensures PruneAll(finite, owners + [a, b]) ==
      var mid := PruneAll(finite, owners);
      var mid' := if a.Some? then RemoveFirst(mid, a.value) else mid;
      if b.Some? then RemoveFirst(mid', b.value) else mid'
  {
    assert (owners + [a, b])[..|owners| + 1] == owners + [a];
    assert (owners + [a])[..|owners|] == owners;
  }

  /** Pruning the owners of two more cells, one after the other. */
  lemma PruneStep(locations: seq<C.Loci>, cells: seq<C.Loci>, a: C.Loci, b: C.Loci, finite: seq<C.Loci>)
    requires finite == PruneAll(locations, Owners(cells, locations))
    ensures PruneAll(locations, Owners(cells + [a, b], locations)) ==
      var oa, ob := Nearest(a, locations), Nearest(b, locations);
      var mid := if oa.Some? then RemoveFirst(finite, oa.value) else finite;
      if ob.Some? then RemoveFirst(mid, ob.value) else mid
  {
    OwnersAppend2(cells, a, b, locations);
    PruneAllAppend2(locations, Owners(cells, locations), Nearest(a, locations), Nearest(b, locations));
  }

  lemma LeftRightStep(done: seq<C.Loci>, width: nat, y: nat)
    requires y >= 1
    ensures done + LeftRight(width, y + 1) == done + LeftRight(width, y) + [C.Loci(0, y), C.Loci(width - 1, y)]
  {
    assert LeftRight(width, y + 1) == LeftRight(width, y) + [C.Loci(0, y), C.Loci(width - 1, y)];
  }

  /** One iteration of either pruning loop: the owners of two border cells leave the list, one after the other. */
  method PruneEdges(grid: G.Grid<Option<C.Loci>>, locations: seq<C.Loci>, cells: seq<C.Loci>, a: C.Loci, b: C.Loci, finite: seq<C.Loci>)
    returns (finite': seq<C.Loci>)
    requires grid.Valid() && grid.Contains(a) && grid.Contains(b)
    requires forall l :: grid.Contains(l) ==> grid.Get(l) == Nearest(l, locations)
    requires finite == PruneAll(locations, Owners(cells, locations))
    ensures finite' == PruneAll(locations, Owners(cells + [a, b], locations))
  {
    var aOwner, bOwner := grid.Get(a), grid.Get(b);
    PruneStep(locations, cells, a, b, finite);
    finite' := PruneInfinite(aOwner, finite);
    finite' := PruneInfinite(bOwner, finite');
  }

  /** The first pruning loop of `a`: the owners of each column's top and bottom cell. */
  method PruneTopBottom(grid: G.Grid<Option<C.Loci>>, locations: seq<C.Loci>) returns (finite: seq<C.Loci>)
    requires grid.Valid() && grid.xOffset == 0 && grid.yOffset == 0 && grid.height >= 1
    requires forall l :: grid.Contains(l) ==> grid.Get(l) == Nearest(l, locations)
    ensures finite == PruneAll(locations, Owners(TopBottom(grid.height, grid.width), locations))
  {
    var width, height := grid.width, grid.height;
    finite := locations;
    for x := 0 to width
      invariant finite == PruneAll(locations, Owners(TopBottom(height, x), locations))
    {
      finite := PruneEdges(grid, locations, TopBottom(height, x), C.Loci(x, 0), C.Loci(x, height - 1), finite);
      assert TopBottom(height, x + 1) == TopBottom(height, x) + [C.Loci(x, 0), C.Loci(x, height - 1)];
    }
  }

  /** The second pruning loop of `a`: the owners of each inner row's first and last cell. */
  method PruneLeftRight(grid: G.Grid<Option<C.Loci>>, locations: seq<C.Loci>, start: seq<C.Loci>, done: seq<C.Loci>)
    returns (finite: seq<C.Loci>)
    requires grid.Valid() && grid.xOffset == 0 && grid.yOffset == 0 && grid.width >= 1 && grid.height >= 1
    requires forall l :: grid.Contains(l) ==> grid.Get(l) == Nearest(l, locations)
    requires start == PruneAll(locations, Owners(done, locations))
    ensures finite == PruneAll(locations, Owners(done + LeftRight(grid.width, grid.height - 1), locations))
  {
    var width, height := grid.width, grid.height;
    finite := start;
    assert done + LeftRight(width, 1) == done by {
      assert LeftRight(width, 1) == [];
    }
    var last := if height >= 2 then height - 1 else 1;
    assert LeftRight(width, last) == LeftRight(width, height - 1);
    for y := 1 to last
      invariant finite == PruneAll(locations, Owners(done + LeftRight(width, y), locations))
    {
      finite := PruneEdges(grid, locations, done + LeftRight(width, y), C.Loci(0, y), C.Loci(width - 1, y), finite);
      LeftRightStep(done, width, y);
    }
  }

  /** How many of `cells` location `l` owns. */
  ghost function Area(cells: seq<C.Loci>, locations: seq<C.Loci>, l: C.Loci): nat
  {
    if cells == [] then 0
    else Area(cells[..|cells| - 1], locations, l) + (if Nearest(cells[|cells| - 1], locations) == Some(l) then 1 else 0)
  }

  /** Every cell of the corrected enumeration lies in the box. */
  lemma CellsInBox(xMin: int, yMin: int, width: nat, height: nat)
    ensures forall l :: l in G.ColumnMajor(xMin, yMin, height, width) <==>
      xMin <= l.x < xMin + width && yMin <= l.y < yMin + height
  {
    G.ColumnMajorSpec(xMin, yMin, height, width);
  }

  /** The grid of `a`: every cell of the box holds its owner. */
  method BuildOwnerGrid(locations: seq<C.Loci>, width: nat, height: nat, xOffset: int, yOffset: int)
    returns (grid: G.Grid<Option<C.Loci>>)
    ensures fresh(grid) && grid.Valid()
    ensures grid.width == width && grid.height == height && grid.xOffset == xOffset && grid.yOffset == yOffset
    ensures forall l :: grid.Contains(l) ==> grid.Get(l) == Nearest(l, locations)
  {
    grid := new G.Grid.NewOffset(None, width, height, xOffset, yOffset);
    var cords := G.CollectFixedCords(width, height, xOffset, yOffset);
    assert forall l :: l in cords <==> grid.Contains(l) by {
      CellsInBox(xOffset, yOffset, width, height);
    }
    for k := 0 to |cords|
      invariant OwnersSet(grid, cords, k, locations)
    {
      SetOwner(grid, cords, k, locations);
    }
    assert cords[..|cords|] == cords;
  }

  /** The first k cells of the enumeration hold their owners. */
  ghost predicate OwnersSet(grid: G.Grid<Option<C.Loci>>, cords: seq<C.Loci>, k: int, locations: seq<C.Loci>)
    reads grid
  {
    0 <= k <= |cords| && grid.Valid()
    && (forall l :: l in cords ==> grid.Contains(l))
    && forall l :: l in cords[..k] ==> grid.Get(l) == Nearest(l, locations)
  }

  /** One iteration of the loop of `a` that fills the grid: cell k gets its owner. */
  method SetOwner(grid: G.Grid<Option<C.Loci>>, cords: seq<C.Loci>, k: int, locations: seq<C.Loci>)
    modifies grid
    requires 0 <= k < |cords| && OwnersSet(grid, cords, k, locations)
    ensures OwnersSet(grid, cords, k + 1, locations)
  {
    var cord := cords[k];
    assert cords[..k + 1] == cords[..k] + [cord];
    var closest := FindClosestLocation(cord, locations);
    grid.Set(cord, closest);
  }

  /** The area loop of `a`: the cells of the grid holding `location`. */
  method CountArea(grid: G.Grid<Option<C.Loci>>, cells: seq<C.Loci>, locations: seq<C.Loci>, location: C.Loci)
    returns (area: nat)
    requires grid.Valid() && forall l :: l in cells ==> grid.Contains(l) && grid.Get(l) == Nearest(l, locations)
    ensures area == Area(cells, locations, location)
  {
    area := 0;
    for c := 0 to |cells|
      invariant area == Area(cells[..c], locations, location)
    {
      assert cells[..c + 1][..c] == cells[..c];
      if grid.Get(cells[c]) == Some(location) {
        area := area + 1;
      }
    }
    assert cells[..|cells|] == cells;
  }

  /**
   * `a`: the owner grid over the box from `min` to `max`, locations owning a
   * border cell pruned, and the largest area left (0 if none).  The border
   * reads index real coordinates 0 ..= width - 1 and 0 ..= height - 1,
   * which lie in the grid only when `min` is the origin; any other offset
   * panics in the source.
   */
  method A(locations: seq<C.Loci>, min: C.Loci, max: C.Loci) returns (maxArea: nat)
    requires min == C.Loci(0, 0) && max.x >= 1 && max.y >= 1
    ensures var finite := PruneAll(locations, Owners(Border(max.x, max.y), locations));
      var cells := G.ColumnMajor(0, 0, max.y, max.x);
      (forall l :: l in finite ==> Area(cells, locations, l) <= maxArea) &&
      (maxArea == 0 || exists l :: l in finite && Area(cells, locations, l) == maxArea)
  {
    var width, height := max.x, max.y;
    var grid := BuildOwnerGrid(locations, width, height, 0, 0);
    var finite := PruneTopBottom(grid, locations);
    finite := PruneLeftRight(grid, locations, finite, TopBottom(height, width));
    assert finite == PruneAll(locations, Owners(Border(width, height), locations));
    var cells := G.CollectFixedCords(width, height, 0, 0);
    assert forall l :: l in cells ==> grid.Contains(l) by {
      CellsInBox(0, 0, width, height);
    }
    maxArea := MaxArea(grid, cells, locations, finite);
  }

  /** The final loop of `a`: the largest area among the remaining locations, starting from 0. */
  method MaxArea(grid: G.Grid<Option<C.Loci>>, cells: seq<C.Loci>, locations: seq<C.Loci>, finite: seq<C.Loci>)
    returns (maxArea: nat)
    requires grid.Valid() && forall l :: l in cells ==> grid.Contains(l) && grid.Get(l) == Nearest(l, locations)
    ensures forall l :: l in finite ==> Area(cells, locations, l) <= maxArea
    ensures maxArea == 0 || exists l :: l in finite && Area(cells, locations, l) == maxArea
  {
    maxArea := 0;
    for k := 0 to |finite|
      invariant forall i :: 0 <= i < k ==> Area(cells, locations, finite[i]) <= maxArea
      invariant maxArea == 0 || exists i :: 0 <= i < k && Area(cells, locations, finite[i]) == maxArea
    {
      var area := CountArea(grid, cells, locations, finite[k]);
      if area > maxArea {
        maxArea := area;
      }
    }
    forall l | l in finite
      ensures Area(cells, locations, l) <= maxArea
    {
      var i :| 0 <= i < |finite| && finite[i] == l;
    }
  }

  /**
   * What `a` maximises over: every location owning a border cell (an area
   * reaching the edge, hence unbounded) is excluded, and only locations are
   * left.
   */
  lemma AExcludesBorderOwners(locations: seq<C.Loci>, width: nat, height: nat)
    requires height >= 1
    ensures multiset(PruneAll(locations, Owners(Border(width, height), locations))) <= multiset(locations)
    ensures forall c :: c in Border(width, height) && Nearest(c, locations).Some? ==>
      Nearest(c, locations).value !in PruneAll(locations, Owners(Border(width, height), locations))
  {
    PruneOwners(locations, Border(width, height));
  }

  // ---------------------------------------------------------------------
  // Part B
  // ---------------------------------------------------------------------

  /** The total distance from `cur` to the first `n` locations. */
  function TotalDistance(cur: C.Loci, locations: seq<C.Loci>): nat
  {
    if locations == [] then 0 else TotalDistance(cur, locations[..|locations| - 1]) + C.Distance(cur, locations[|locations| - 1])
  }

  /** Partial totals never exceed the full total, so a partial total above the range rules a cell out. */
  lemma {:induction false} TotalDistancePrefix(cur: C.Loci, locations: seq<C.Loci>, k: nat)
    requires k <= |locations|
    ensures TotalDistance(cur, locations[..k]) <= TotalDistance(cur, locations)
    decreases |locations|
  {
    if k < |locations| {
      TotalDistancePrefix(cur, locations[..|locations| - 1], k);
      assert locations[..|locations| - 1][..k] == locations[..k];
    } else {
      assert locations[..k] == locations;
    }
  }

  /** The inner loop of `b`: sums distances, abandoning the cell once the sum exceeds the range. */
  method WithinRange(loci: C.Loci, locations: seq<C.Loci>, regionRange: nat) returns (within: bool)
    ensures within <==> TotalDistance(loci, locations) <= regionRange
  {
    var totalDistance := 0;
    for j := 0 to |locations|
      invariant totalDistance == TotalDistance(loci, locations[..j]) && totalDistance <= regionRange
    {
      assert locations[..j + 1][..j] == locations[..j];
      totalDistance := totalDistance + C.Distance(loci, locations[j]);
      if totalDistance > regionRange {
        TotalDistancePrefix(loci, locations, j + 1);
        return false;
      }
    }
    assert locations[..|locations|] == locations;
    return true;
  }

  /** How many of `cells` lie within `range` total distance of the locations. */
  function CountWithin(cells: seq<C.Loci>, locations: seq<C.Loci>, range: nat): nat
  {
    if cells == [] then 0
    else CountWithin(cells[..|cells| - 1], locations, range) + (if TotalDistance(cells[|cells| - 1], locations) <= range then 1 else 0)
  }

  /**
   * `b`: marks each cell whose running total distance never exceeds
   * `region_range` (the sum is abandoned as soon as it does), then adds up
   * the marks.
   */
  method B(locations: seq<C.Loci>, min: C.Loci, max: C.Loci, regionRange: nat) returns (regionSize: nat)
    requires min.x <= max.x && min.y <= max.y
    ensures regionSize == CountWithin(G.ColumnMajor(min.x, min.y, max.y - min.y, max.x - min.x), locations, regionRange)
  {
    var width, height := max.x - min.x, max.y - min.y;
    var grid := new G.Grid.NewOffset(0, width, height, min.x, min.y);
    var cells := G.CollectFixedCords(width, height, min.x, min.y);
    assert forall l :: l in cells ==> grid.Contains(l) by {
      CellsInBox(min.x, min.y, width, height);
    }
    MarkRegion(grid, cells, locations, regionRange);
    regionSize := SumRegion(grid, cells, locations, regionRange);
  }

  /** The final fold of `b`: adds up the marks of the listed cells. */
  method SumRegion(grid: G.Grid<nat>, cells: seq<C.Loci>, locations: seq<C.Loci>, regionRange: nat) returns (regionSize: nat)
    requires grid.Valid()
    requires forall l :: l in cells ==> grid.Contains(l) && grid.Get(l) == if TotalDistance(l, locations) <= regionRange then 1 else 0
    ensures regionSize == CountWithin(cells, locations, regionRange)
  {
    regionSize := 0;
    for k := 0 to |cells|
      invariant regionSize == CountWithin(cells[..k], locations, regionRange)
    {
      assert cells[..k + 1][..k] == cells[..k];
      regionSize := regionSize + grid.Get(cells[k]);
    }
    assert cells[..|cells|] == cells;
  }

  /** The marking loop of `b`: each listed cell within the range is set to 1, the rest stay 0. */
  method MarkRegion(grid: G.Grid<nat>, cells: seq<C.Loci>, locations: seq<C.Loci>, regionRange: nat)
    modifies grid
    requires grid.Valid() && forall l :: l in cells ==> grid.Contains(l)
    requires forall l :: grid.Contains(l) ==> grid.Get(l) == 0
    ensures grid.Valid()
    ensures forall l :: l in cells ==> grid.Get(l) == if TotalDistance(l, locations) <= regionRange then 1 else 0
  {
    for k := 0 to |cells|
      invariant grid.Valid()
      invariant forall l :: l in cells[..k] ==> grid.Get(l) == if TotalDistance(l, locations) <= regionRange then 1 else 0
      invariant forall l :: grid.Contains(l) && l !in cells[..k] ==> grid.Get(l) == 0
    {
      var loci := cells[k];
      assert cells[..k + 1] == cells[..k] + [loci];
      var within := WithinRange(loci, locations, regionRange);
      if within {
        grid.Set(loci, 1);
      }
    }
    assert cells[..|cells|] == cells;
  }

  // ---------------------------------------------------------------------
  // Bounds
  // ---------------------------------------------------------------------

  /** `Loci::max_value()`, the start of the running minimum. */
  const IsizeMax: int := 0x7fff_ffff_ffff_ffff

  /** Indices of the locations that set each running bound, -1 while none has. */
  datatype Witnesses = Witnesses(xLo: int, yLo: int, xHi: int, yHi: int)

  /**
   * After the first k locations: every one lies within the running bounds,
   * and each bound is its start value or the coordinate of its witness.
   */
  ghost predicate Scanned(locations: seq<C.Loci>, k: int, min: C.Loci, max: C.Loci, w: Witnesses)
  {
    0 <= k <= |locations|
    && (forall i :: 0 <= i < k ==> min.x <= locations[i].x <= max.x)
    && (forall i :: 0 <= i < k ==> min.y <= locations[i].y <= max.y)
    && min.x <= IsizeMax && min.y <= IsizeMax && max.x >= 0 && max.y >= 0
    && -1 <= w.xLo < k && (w.xLo == -1 ==> min.x == IsizeMax) && (w.xLo >= 0 ==> min.x == locations[w.xLo].x)
    && -1 <= w.yLo < k && (w.yLo == -1 ==> min.y == IsizeMax) && (w.yLo >= 0 ==> min.y == locations[w.yLo].y)
    && -1 <= w.xHi < k && (w.xHi == -1 ==> max.x == 0) && (w.xHi >= 0 ==> max.x == locations[w.xHi].x)
    && -1 <= w.yHi < k && (w.yHi == -1 ==> max.y == 0) && (w.yHi >= 0 ==> max.y == locations[w.yHi].y)
  }

  /**
   * Every location lies at least `margin` inside the box from min to max, and
   * each side is `margin` past some location's coordinate or, when no
   * location moved it, `margin` past its start value (`isize::MAX` for the
   * minimum, 0 for the maximum).
   */
  ghost predicate Encloses(locations: seq<C.Loci>, min: C.Loci, max: C.Loci, margin: int)
  {
    (forall l :: l in locations ==> min.x + margin <= l.x <= max.x - margin && min.y + margin <= l.y <= max.y - margin)
    && max.x >= margin && max.y >= margin
    && (min.x == IsizeMax - margin || exists i :: 0 <= i < |locations| && min.x == locations[i].x - margin)
    && (min.y == IsizeMax - margin || exists i :: 0 <= i < |locations| && min.y == locations[i].y - margin)
    && (max.x == margin || exists i :: 0 <= i < |locations| && max.x == locations[i].x + margin)
    && (max.y == margin || exists i :: 0 <= i < |locations| && max.y == locations[i].y + margin)
  }

  /** Once every location is scanned, the running bounds enclose them all with no margin. */
  lemma ScannedAll(locations: seq<C.Loci>, min: C.Loci, max: C.Loci, w: Witnesses)
    requires Scanned(locations, |locations|, min, max, w)
    ensures Encloses(locations, min, max, 0)
  {
    if w.xLo >= 0 { assert locations[w.xLo] in locations; }
    if w.yLo >= 0 { assert locations[w.yLo] in locations; }
    if w.xHi >= 0 { assert locations[w.xHi] in locations; }
    if w.yHi >= 0 { assert locations[w.yHi] in locations; }
  }

  /** Widening a box by one on each side adds one to its margin. */
  lemma WidenedBox(locations: seq<C.Loci>, min: C.Loci, max: C.Loci)
    requires Encloses(locations, min, max, 0)
    ensures Encloses(locations, C.Sub(min, 1, 1), C.Add(max, 1, 1), 1)
  {
  }

  /** The body of the parsing closure for location k: each coordinate outside the running bounds moves that bound. */
  method Widen(locations: seq<C.Loci>, k: int, min: C.Loci, max: C.Loci, ghost w: Witnesses)
    returns (min': C.Loci, max': C.Loci, ghost w': Witnesses)
    requires 0 <= k < |locations| && Scanned(locations, k, min, max, w)
    ensures Scanned(locations, k + 1, min', max', w')
  {
    var l := locations[k];
    min', max', w' := min, max, w;
    if l.x < min'.x {
      min' := C.Loci(l.x, min'.y);
      w' := w'.(xLo := k);
    }
    if l.x > max'.x {
      max' := C.Loci(l.x, max'.y);
      w' := w'.(xHi := k);
    }
    if l.y < min'.y {
      min' := C.Loci(min'.x, l.y);
      w' := w'.(yLo := k);
    }
    if l.y > max'.y {
      max' := C.Loci(max'.x, l.y);
      w' := w'.(yHi := k);
    }
  }

  /**
   * The bounds computed while parsing: the least and largest coordinates
   * (the maximum starting at 0, the minimum at `isize::MAX`), widened by one
   * on each side, so every location lies strictly inside the box.
   */
  method Bounds(locations: seq<C.Loci>) returns (min: C.Loci, max: C.Loci)
    ensures Encloses(locations, min, max, 1)
  {
    var lo, hi := Extremes(locations);
    min, max := C.Sub(lo, 1, 1), C.Add(hi, 1, 1);
    WidenedBox(locations, lo, hi);
  }

  /**
   * The loop of the parsing closure: the least and largest coordinates, each
   * attained by some location or still at its start value (`isize::MAX` for
   * the minimum, 0 for the maximum).
   */
  method Extremes(locations: seq<C.Loci>) returns (min: C.Loci, max: C.Loci)
    ensures Encloses(locations, min, max, 0)
  {
    min, max := C.Loci(IsizeMax, IsizeMax), C.Loci(0, 0);
    ghost var w := Witnesses(-1, -1, -1, -1);
    for k := 0 to |locations|
      invariant Scanned(locations, k, min, max, w)
    {
      min, max, w := Widen(locations, k, min, max, w);
    }
    ScannedAll(locations, min, max, w);
  }
}
