/**
 * Day 23, "Experimental Emergency Teleportation" (23/src/main.rs).
 *
 * Nanobots have a position in three dimensions and a signal radius.  Part
 * A counts the bots within the radius of the strongest one.  Part B looks
 * for the coordinate in range of the most bots: it starts from the box the
 * bots span and repeatedly pops the most promising region from a priority
 * queue, splits it into up to eight octants and pushes them back, until it
 * pops a region of a single coordinate.  A region's score is an upper
 * bound on the bots in range of any of its points, then the distance from
 * the origin to its nearest corner.
 *
 * A `CoordRange(lo, hi)` holds the coordinates from `lo` up to but not
 * including `hi`: a region of width 1 on every axis answers with its lower
 * corner, and its score counts exactly the bots in range of that corner.
 */
module ExperimentalEmergencyTeleportation {
  import opened Wrappers
  import Arithmetic

  /** `i64::min_value()` and `i64::max_value()`, the starting values of the scans. */
  const I64Min: int := -0x8000_0000_0000_0000
  const I64Max: int := 0x7FFF_FFFF_FFFF_FFFF

  datatype Coordinate = Coordinate(x: int, y: int, z: int)

  datatype NanoBot = NanoBot(location: Coordinate, radius: int)

  datatype CoordRange = CoordRange(lo: int, hi: int)

  datatype Region = Region(x: CoordRange, y: CoordRange, z: CoordRange)

  datatype RegionScore = RegionScore(potentialBots: nat, zeroDistance: int)

  /** `ZERO_COORDINATE`. */
  const Origin: Coordinate := Coordinate(0, 0, 0)

  // ---------------------------------------------------------------------
  // Coordinates
  // ---------------------------------------------------------------------

  /** `Coordinate::distance`: the Manhattan distance in three dimensions. */
  function Distance(a: Coordinate, b: Coordinate): nat
  {
    Abs(a.x - b.x) + Abs(a.y - b.y) + Abs(a.z - b.z)
  }

  /** The distance is a metric: symmetric, zero exactly between equal points, and obeys the triangle inequality. */
  lemma DistanceMetric(a: Coordinate, b: Coordinate, c: Coordinate)
    ensures Distance(a, b) == Distance(b, a)
    ensures Distance(a, b) == 0 <==> a == b
    ensures Distance(a, c) <= Distance(a, b) + Distance(b, c)
  {
  }

  // ---------------------------------------------------------------------
  // Part A
  // ---------------------------------------------------------------------

  /** The bot `a` starts from: at the origin, with the smallest radius an `i64` holds. */
  const Placeholder: NanoBot := NanoBot(Origin, I64Min)

  /** The bot `a` keeps after the first `n` bots: a later bot replaces it only with a strictly larger radius. */
  function Strongest(bots: seq<NanoBot>, n: nat): NanoBot
    requires n <= |bots|
  {
    if n == 0 then Placeholder
    else
      var before := Strongest(bots, n - 1);
      if bots[n - 1].radius > before.radius then bots[n - 1] else before
  }

  /** The bots among the first `n` whose position is within `radius` of `centre`. */
  function InSignal(bots: seq<NanoBot>, centre: Coordinate, radius: int, n: nat): (count: nat)
    requires n <= |bots|
    ensures count <= n
  {
    if n == 0 then 0
    else InSignal(bots, centre, radius, n - 1) + (if Distance(centre, bots[n - 1].location) <= radius then 1 else 0)
  }

  /** `bots[k]` has the largest radius, and every bot before it a strictly smaller one. */
  predicate FirstLargest(bots: seq<NanoBot>, k: nat)
  {
    k < |bots| &&
    (forall j :: 0 <= j < |bots| ==> bots[j].radius <= bots[k].radius) &&
    (forall j :: 0 <= j < k ==> bots[j].radius < bots[k].radius)
  }

  /** Over any bots of radius above the placeholder's, the bot `a` keeps is the first of the largest radius. */
  lemma StrongestIsFirstLargest(bots: seq<NanoBot>)
    requires bots != []
    requires forall j :: 0 <= j < |bots| ==> bots[j].radius > I64Min
    ensures exists k: nat :: FirstLargest(bots, k) && Strongest(bots, |bots|) == bots[k]
  {
    var k := StrongestPrefix(bots, |bots|);
  }

  lemma {:induction false} StrongestPrefix(bots: seq<NanoBot>, n: nat) returns (k: nat)
    requires 0 < n <= |bots|
    requires forall j :: 0 <= j < |bots| ==> bots[j].radius > I64Min
    ensures k < n && Strongest(bots, n) == bots[k]
    ensures forall j :: 0 <= j < n ==> bots[j].radius <= bots[k].radius
    ensures forall j :: 0 <= j < k ==> bots[j].radius < bots[k].radius
  {
    if n == 1 {
      k := 0;
    } else {
      k := StrongestPrefix(bots, n - 1);
      if bots[n - 1].radius > bots[k].radius {
        k := n - 1;
      }
    }
  }

  /** `a`: the bots within the radius of the strongest bot, itself included. */
  method A(bots: seq<NanoBot>) returns (inRange: nat)
    ensures inRange == InSignal(bots, Strongest(bots, |bots|).location, Strongest(bots, |bots|).radius, |bots|)
  {
    var maxR := I64Min;
    var max := Placeholder;
    for i := 0 to |bots|
      invariant max == Strongest(bots, i) && maxR == max.radius
    {
      if bots[i].radius > maxR {
        maxR := bots[i].radius;
        max := bots[i];
      }
    }
    inRange := 0;
    for i := 0 to |bots|
      invariant inRange == InSignal(bots, max.location, max.radius, i)
    {
      if Distance(max.location, bots[i].location) <= max.radius {
        inRange := inRange + 1;
      }
    }
  }

  /** The strongest bot counts itself whenever its radius is not negative. */
  lemma {:induction false} StrongestCountsItself(bots: seq<NanoBot>, k: nat, n: nat)
    requires k < n <= |bots| && bots[k].radius >= 0
    ensures InSignal(bots, bots[k].location, bots[k].radius, n) >= 1
  {
    if k < n - 1 {
      StrongestCountsItself(bots, k, n - 1);
    }
  }

  /** The example of the puzzle. */
  const Sample: seq<NanoBot> := [
    NanoBot(Coordinate(0, 0, 0), 4), NanoBot(Coordinate(1, 0, 0), 1), NanoBot(Coordinate(4, 0, 0), 3),
    NanoBot(Coordinate(0, 2, 0), 1), NanoBot(Coordinate(0, 5, 0), 3), NanoBot(Coordinate(0, 0, 3), 1),
    NanoBot(Coordinate(1, 1, 1), 1), NanoBot(Coordinate(1, 1, 2), 1), NanoBot(Coordinate(1, 3, 1), 1)]

  /** On the example, seven bots are in range of the strongest, the one at the origin. */
  lemma SampleA()
    ensures Strongest(Sample, |Sample|) == Sample[0]
    ensures InSignal(Sample, Origin, 4, |Sample|) == 7
  {
    SampleStrongest();
    SampleInSignal();
  }

  lemma SampleStrongest()
    ensures Strongest(Sample, 9) == Sample[0]
  {
    assert Strongest(Sample, 1) == Sample[0];
    assert Strongest(Sample, 3) == Sample[0];
    assert Strongest(Sample, 6) == Sample[0];
  }

  lemma SampleInSignal()
    ensures InSignal(Sample, Origin, 4, 9) == 7
  {
    SampleInSignalSix();
  }

  lemma SampleInSignalSix()
    ensures InSignal(Sample, Origin, 4, 6) == 5
  {
    SampleInSignalThree();
  }

  lemma SampleInSignalThree()
    ensures InSignal(Sample, Origin, 4, 3) == 3
  {
  }

  // ---------------------------------------------------------------------
  // Ranges and regions
  // ---------------------------------------------------------------------

  /** `CoordRange::distance`: the width of the range. */
  function Width(r: CoordRange): int
  {
    r.hi - r.lo
  }

  /** `CoordRange::mid`: half the width, truncated toward zero, past `lo`. */
  function Mid(r: CoordRange): (m: int)
    ensures r.lo <= r.hi ==> r.lo <= m <= r.hi && m - r.lo == (r.hi - r.lo) / 2
  {
    Arithmetic.Quot(Width(r), 2) + r.lo
  }

  /** `CoordRange::split`: the halves below and above the middle. */
  function SplitRange(r: CoordRange): seq<CoordRange>
  {
    [CoordRange(r.lo, Mid(r)), CoordRange(Mid(r), r.hi)]
  }

  /** The range holds `v`. */
  predicate Holds(r: CoordRange, v: int)
  {
    r.lo <= v < r.hi
  }

  /**
   * For `lo <= hi` the halves split the range: each holds part of it, every
   * coordinate of the range is in exactly one half, and the widths add up.
   * A range of width at least 2 gives two narrower halves; one of width 1
   * gives an empty half and itself.
   */
  lemma SplitRangePartition(r: CoordRange)
    requires r.lo <= r.hi
    ensures var h := SplitRange(r);
      h[0].lo <= h[0].hi && h[1].lo <= h[1].hi && Width(h[0]) + Width(h[1]) == Width(r) &&
      (forall v :: Holds(r, v) <==> Holds(h[0], v) || Holds(h[1], v)) &&
      (forall v :: !(Holds(h[0], v) && Holds(h[1], v))) &&
      (Width(r) >= 2 ==> Width(h[0]) < Width(r) && Width(h[1]) < Width(r)) &&
      (Width(r) == 1 ==> Width(h[0]) == 0 && h[1] == r)
  {
  }

  /** The region holds `p`. */
  predicate InRegion(g: Region, p: Coordinate)
  {
    Holds(g.x, p.x) && Holds(g.y, p.y) && Holds(g.z, p.z)
  }

  /** No range of the region runs backwards. */
  predicate WellFormed(g: Region)
  {
    g.x.lo <= g.x.hi && g.y.lo <= g.y.hi && g.z.lo <= g.z.hi
  }

  /** Every range of the region holds at least one coordinate. */
  predicate NonEmpty(g: Region)
  {
    g.x.lo < g.x.hi && g.y.lo < g.y.hi && g.z.lo < g.z.hi
  }

  /** A region of width 1 on every axis, where `find_closest` stops. */
  predicate Unit(g: Region)
  {
    Width(g.x) == 1 && Width(g.y) == 1 && Width(g.z) == 1
  }

  /** `Region::lower_bound`. */
  function LowerBound(g: Region): Coordinate
  {
    Coordinate(g.x.lo, g.y.lo, g.z.lo)
  }

  /** A region holds a point exactly when none of its ranges is empty; then it holds its lower corner. */
  lemma NonEmptyHolds(g: Region, p: Coordinate)
    ensures InRegion(g, p) ==> NonEmpty(g)
    ensures NonEmpty(g) ==> InRegion(g, LowerBound(g))
    ensures Unit(g) ==> (InRegion(g, p) <==> p == LowerBound(g))
  {
  }

  // ---------------------------------------------------------------------
  // Splitting a region into octants
  // ---------------------------------------------------------------------

  /** The region `Region::split` pushes for the halves `x`, `y` and `z`, if `z` is reached and not of width 0. */
  function Keep(x: CoordRange, y: CoordRange, z: CoordRange, reached: bool): seq<Region>
  {
    if reached && Width(z) != 0 then [Region(x, y, z)] else []
  }

  /** The regions of `Region::split` for the first `k` of the two halves `zs`, with `x` and `y` fixed. */
  function ZPart(x: CoordRange, y: CoordRange, zs: seq<CoordRange>, k: nat): seq<Region>
    requires |zs| == 2 && k <= 2
  {
    Keep(x, y, zs[0], k >= 1) + Keep(x, y, zs[1], k >= 2)
  }

  /** The regions for the first `j` of the two halves `ys`, with `x` fixed. */
  function YPart(x: CoordRange, ys: seq<CoordRange>, zs: seq<CoordRange>, j: nat): seq<Region>
    requires |ys| == 2 && |zs| == 2 && j <= 2
  {
    (if j >= 1 && Width(ys[0]) != 0 then ZPart(x, ys[0], zs, 2) else []) +
    (if j >= 2 && Width(ys[1]) != 0 then ZPart(x, ys[1], zs, 2) else [])
  }

  /** The regions for the first `i` of the two halves `xs`. */
  function XPart(xs: seq<CoordRange>, ys: seq<CoordRange>, zs: seq<CoordRange>, i: nat): seq<Region>
    requires |xs| == 2 && |ys| == 2 && |zs| == 2 && i <= 2
  {
    (if i >= 1 && Width(xs[0]) != 0 then YPart(xs[0], ys, zs, 2) else []) +
    (if i >= 2 && Width(xs[1]) != 0 then YPart(xs[1], ys, zs, 2) else [])
  }

  /** `Region::split`: every combination of halves, in x, y, z loop order, skipping halves of width 0. */
  function Children(g: Region): seq<Region>
  {
    XPart(SplitRange(g.x), SplitRange(g.y), SplitRange(g.z), 2)
  }

  /**
   * `Region::split` returns at most eight regions, and a region is among
   * them exactly when each of its ranges is a half of the parent's range
   * on that axis and is not of width 0.
   */
  lemma ChildrenMembers(g: Region)
    ensures |Children(g)| <= 8
    ensures forall c :: c in Children(g) <==>
      c.x in SplitRange(g.x) && Width(c.x) != 0 && c.y in SplitRange(g.y) && Width(c.y) != 0 &&
      c.z in SplitRange(g.z) && Width(c.z) != 0
  {
    XPartMembers(SplitRange(g.x), SplitRange(g.y), SplitRange(g.z));
  }

  lemma ZPartMembers(x: CoordRange, y: CoordRange, zs: seq<CoordRange>)
    requires |zs| == 2
    ensures |ZPart(x, y, zs, 2)| <= 2
    ensures forall c :: c in ZPart(x, y, zs, 2) <==> c.x == x && c.y == y && c.z in zs && Width(c.z) != 0
  {
  }

  lemma YPartMembers(x: CoordRange, ys: seq<CoordRange>, zs: seq<CoordRange>)
    requires |ys| == 2 && |zs| == 2
    ensures |YPart(x, ys, zs, 2)| <= 4
    ensures forall c :: c in YPart(x, ys, zs, 2) <==>
      c.x == x && c.y in ys && Width(c.y) != 0 && c.z in zs && Width(c.z) != 0
  {
    ZPartMembers(x, ys[0], zs);
    ZPartMembers(x, ys[1], zs);
  }

  lemma XPartMembers(xs: seq<CoordRange>, ys: seq<CoordRange>, zs: seq<CoordRange>)
    requires |xs| == 2 && |ys| == 2 && |zs| == 2
    ensures |XPart(xs, ys, zs, 2)| <= 8
    ensures forall c :: c in XPart(xs, ys, zs, 2) <==>
      c.x in xs && Width(c.x) != 0 && c.y in ys && Width(c.y) != 0 && c.z in zs && Width(c.z) != 0
  {
    assert xs == [xs[0], xs[1]];
    var front: seq<Region> := if Width(xs[0]) != 0 then YPart(xs[0], ys, zs, 2) else [];
    var back: seq<Region> := if Width(xs[1]) != 0 then YPart(xs[1], ys, zs, 2) else [];
    assert XPart(xs, ys, zs, 2) == front + back;
    YPartMembers(xs[0], ys, zs);
    YPartMembers(xs[1], ys, zs);
    forall c: Region
      ensures c in front + back <==>
        c.x in xs && Width(c.x) != 0 && c.y in ys && Width(c.y) != 0 && c.z in zs && Width(c.z) != 0
    {
      assert c in front + back <==> c in front || c in back;
    }
  }

  /** One more half on an axis adds its regions, unless the half is of width 0, at the back. */
  lemma XStep(xs: seq<CoordRange>, ys: seq<CoordRange>, zs: seq<CoordRange>, n: nat)
    requires |xs| == 2 && |ys| == 2 && |zs| == 2 && n < 2
    ensures XPart(xs, ys, zs, n + 1) == XPart(xs, ys, zs, n) + (if Width(xs[n]) != 0 then YPart(xs[n], ys, zs, 2) else [])
  {
  }

  lemma YStep(x: CoordRange, ys: seq<CoordRange>, zs: seq<CoordRange>, n: nat)
    requires |ys| == 2 && |zs| == 2 && n < 2
    ensures YPart(x, ys, zs, n + 1) == YPart(x, ys, zs, n) + (if Width(ys[n]) != 0 then ZPart(x, ys[n], zs, 2) else [])
  {
  }

  lemma ZStep(x: CoordRange, y: CoordRange, zs: seq<CoordRange>, n: nat)
    requires |zs| == 2 && n < 2
    ensures ZPart(x, y, zs, n + 1) == ZPart(x, y, zs, n) + Keep(x, y, zs[n], true)
  {
  }

  /** A range of width 0 splits into two halves of width 0. */
  lemma EmptyHalves(r: CoordRange)
    requires Width(r) == 0
    ensures Width(SplitRange(r)[0]) == 0 && Width(SplitRange(r)[1]) == 0
  {
  }

  /** Halves all of width 0 leave no region. */
  lemma NoHalves(xs: seq<CoordRange>, ys: seq<CoordRange>, zs: seq<CoordRange>)
    requires |xs| == 2 && |ys| == 2 && |zs| == 2
    requires Width(xs[0]) == 0 && Width(xs[1]) == 0
    ensures XPart(xs, ys, zs, 2) == []
  {
  }

  /** A region of width 0 on the `x` axis has no children. */
  lemma FlatChildren(g: Region)
    requires Width(g.x) == 0
    ensures Children(g) == []
  {
    EmptyHalves(g.x);
    NoHalves(SplitRange(g.x), SplitRange(g.y), SplitRange(g.z));
  }

  /** A region of width 1 on the `y` and `z` axes and at least 2 on the `x` axis splits into two along `x`. */
  lemma ChildrenAlongX(g: Region)
    requires Width(g.x) >= 2 && Width(g.y) == 1 && Width(g.z) == 1
    ensures Children(g) == [Region(SplitRange(g.x)[0], g.y, g.z), Region(SplitRange(g.x)[1], g.y, g.z)]
  {
    SplitRangePartition(g.x);
    SplitRangePartition(g.y);
    SplitRangePartition(g.z);
    SplitAlongX(SplitRange(g.x), SplitRange(g.y), SplitRange(g.z));
  }

  /** Halves of width 0 below on the `y` and `z` axes leave one region per `x` half. */
  lemma SplitAlongX(xs: seq<CoordRange>, ys: seq<CoordRange>, zs: seq<CoordRange>)
    requires |xs| == 2 && |ys| == 2 && |zs| == 2
    requires Width(xs[0]) != 0 && Width(xs[1]) != 0
    requires Width(ys[0]) == 0 && Width(ys[1]) != 0 && Width(zs[0]) == 0 && Width(zs[1]) != 0
    ensures XPart(xs, ys, zs, 2) == [Region(xs[0], ys[1], zs[1]), Region(xs[1], ys[1], zs[1])]
  {
    assert forall x :: ZPart(x, ys[1], zs, 2) == [Region(x, ys[1], zs[1])];
  }

  lemma ChildrenCover(g: Region)
    requires WellFormed(g)
    ensures forall c :: c in Children(g) ==> NonEmpty(c)
    ensures forall c, p :: c in Children(g) && InRegion(c, p) ==> InRegion(g, p)
    ensures forall p :: InRegion(g, p) ==> exists c :: c in Children(g) && InRegion(c, p)
  {
    ChildrenMembers(g);
    HalvesInside(g.x);
    HalvesInside(g.y);
    HalvesInside(g.z);
    forall p | InRegion(g, p)
      ensures exists c :: c in Children(g) && InRegion(c, p)
    {
      var c := Region(HalfHolding(g.x, p.x), HalfHolding(g.y, p.y), HalfHolding(g.z, p.z));
      assert c in Children(g) && InRegion(c, p);
    }
  }

  /** Each half of a range is a non-empty part of it, or of width 0. */
  lemma HalvesInside(r: CoordRange)
    requires r.lo <= r.hi
    ensures forall h :: h in SplitRange(r) && Width(h) != 0 ==> h.lo < h.hi
    ensures forall h, v :: h in SplitRange(r) && Holds(h, v) ==> Holds(r, v)
  {
    SplitRangePartition(r);
  }

  /** The half of a range that holds a coordinate of the range. */
  function HalfHolding(r: CoordRange, v: int): (h: CoordRange)
    requires Holds(r, v)
    ensures h in SplitRange(r) && Width(h) != 0 && Holds(h, v)
  {
    SplitRangePartition(r);
    if Holds(SplitRange(r)[0], v) then SplitRange(r)[0] else SplitRange(r)[1]
  }

  /**
   * `Region::split` as written: three nested loops over the halves, skipping
   * those of width 0. The two inner loops are the methods below, each
   * returning the regions it pushes.
   */
  method SplitRegion(g: Region) returns (regions: seq<Region>)
    ensures regions == Children(g)
  {
    var xs, ys, zs := SplitRange(g.x), SplitRange(g.y), SplitRange(g.z);
    regions := [];
    for i := 0 to 2
      invariant regions == XPart(xs, ys, zs, i)
    {
      XStep(xs, ys, zs, i);
      if Width(xs[i]) == 0 {
        continue;
      }
      var slab := SplitSlab(xs[i], ys, zs);
      regions := regions + slab;
    }
  }

  /** The loop over the `y` halves for one `x` half. */
  method SplitSlab(x: CoordRange, ys: seq<CoordRange>, zs: seq<CoordRange>) returns (slab: seq<Region>)
    requires |ys| == 2 && |zs| == 2
    ensures slab == YPart(x, ys, zs, 2)
  {
    slab := [];
    for j := 0 to 2
      invariant slab == YPart(x, ys, zs, j)
    {
      YStep(x, ys, zs, j);
      if Width(ys[j]) == 0 {
        continue;
      }
      var row := SplitRow(x, ys[j], zs);
      slab := slab + row;
    }
  }

  /** The loop over the `z` halves for one `x` and one `y` half. */
  method SplitRow(x: CoordRange, y: CoordRange, zs: seq<CoordRange>) returns (row: seq<Region>)
    requires |zs| == 2
    ensures row == ZPart(x, y, zs, 2)
  {
    row := [];
    for k := 0 to 2
      invariant row == ZPart(x, y, zs, k)
    {
      ZStep(x, y, zs, k);
      if Width(zs[k]) == 0 {
        continue;
      }
      row := row + [Region(x, y, zs[k])];
    }
  }

  // ---------------------------------------------------------------------
  // Scoring a region
  // ---------------------------------------------------------------------

  /** The bots among the first `n` that `p` is within `extra` of the range of. */
  function Reached(bots: seq<NanoBot>, p: Coordinate, extra: int, n: nat): (count: nat)
    requires n <= |bots|
    ensures count <= n
  {
    if n == 0 then 0
    else Reached(bots, p, extra, n - 1) + (if Distance(p, bots[n - 1].location) <= bots[n - 1].radius + extra then 1 else 0)
  }

  /** The bots whose signal reaches `p`. */
  function InRange(bots: seq<NanoBot>, p: Coordinate): nat
  {
    Reached(bots, p, 0, |bots|)
  }

  /** The centre `potential_bots` measures from. */
  function Center(g: Region): Coordinate
  {
    Coordinate(Mid(g.x), Mid(g.y), Mid(g.z))
  }

  /** One axis of the tolerance: half the width, and one more when the width is even. */
  function Slack(r: CoordRange): int
  {
    Arithmetic.Quot(Width(r), 2) + (if Arithmetic.Rem(Width(r), 2) == 0 then 1 else 0)
  }

  function Tolerance(g: Region): int
  {
    Slack(g.x) + Slack(g.y) + Slack(g.z)
  }

  /** `potential_bots`: the bots whose signal, stretched by the tolerance, reaches the centre. */
  function PotentialBots(bots: seq<NanoBot>, g: Region): nat
  {
    Reached(bots, Center(g), Tolerance(g), |bots|)
  }

  /** `potential_bots` as written: one loop over the bots. */
  method CountPotential(bots: seq<NanoBot>, g: Region) returns (inRange: nat)
    ensures inRange == PotentialBots(bots, g)
  {
    var center := Coordinate(Mid(g.x), Mid(g.y), Mid(g.z));
    var tolerance := Tolerance(g);
    inRange := 0;
    for i := 0 to |bots|
      invariant inRange == Reached(bots, center, tolerance, i)
    {
      if Distance(center, bots[i].location) <= bots[i].radius + tolerance {
        inRange := inRange + 1;
      }
    }
  }

  lemma SlackCovers(r: CoordRange, v: int)
    requires Holds(r, v)
    ensures Abs(v - Mid(r)) <= Slack(r)
  {
  }

  /** Every point of a region is within the tolerance of its centre. */
  lemma CenterNear(g: Region, p: Coordinate)
    requires InRegion(g, p)
    ensures Distance(Center(g), p) <= Tolerance(g)
  {
    SlackCovers(g.x, p.x);
    SlackCovers(g.y, p.y);
    SlackCovers(g.z, p.z);
  }

  /** A point within `extra` of `p` is reached, with `extra` to spare, by every bot that reaches `p`. */
  lemma {:induction false} ReachedFrom(bots: seq<NanoBot>, p: Coordinate, q: Coordinate, extra: int, n: nat)
    requires n <= |bots| && Distance(q, p) <= extra
    ensures Reached(bots, p, 0, n) <= Reached(bots, q, extra, n)
  {
    if n > 0 {
      ReachedFrom(bots, p, q, extra, n - 1);
      DistanceMetric(q, p, bots[n - 1].location);
    }
  }

  /**
   * The score is an upper bound: no point of a region is in range of more
   * bots than `potential_bots` counts for the region.
   */
  lemma PotentialBotsBound(bots: seq<NanoBot>, g: Region, p: Coordinate)
    requires InRegion(g, p)
    ensures InRange(bots, p) <= PotentialBots(bots, g)
  {
    CenterNear(g, p);
    DistanceMetric(Center(g), p, p);
    ReachedFrom(bots, p, Center(g), Tolerance(g), |bots|);
  }

  /** On a region of a single coordinate the score is exact: its centre is that coordinate and the tolerance is 0. */
  lemma UnitExact(bots: seq<NanoBot>, g: Region)
    requires Unit(g)
    ensures PotentialBots(bots, g) == InRange(bots, LowerBound(g))
  {
    UnitCentre(g);
  }

  /** A region of one coordinate is centred on it, with no tolerance. */
  lemma UnitCentre(g: Region)
    requires Unit(g)
    ensures Center(g) == LowerBound(g) && Tolerance(g) == 0
  {
    assert Arithmetic.Quot(1, 2) == 0 && Arithmetic.Rem(1, 2) == 1;
  }

  /** The end of a range `zero_distance` takes: `lo`, or `hi` when `high` holds. */
  function End(r: CoordRange, high: bool): int
  {
    if high then r.hi else r.lo
  }

  /**
   * The distance from the origin of corner `c` in the loop order of
   * `zero_distance`: the x end changes slowest, the z end fastest.
   */
  function CornerGap(g: Region, c: nat): nat
  {
    Abs(0 - End(g.x, c >= 4)) + Abs(0 - End(g.y, c == 2 || c == 3 || c == 6 || c == 7)) +
    Abs(0 - End(g.z, c == 1 || c == 3 || c == 5 || c == 7))
  }

  /** The eight corners of a region, in the loop order of `zero_distance`. */
  function Corners(g: Region): seq<Coordinate>
  {
    [Coordinate(g.x.lo, g.y.lo, g.z.lo), Coordinate(g.x.lo, g.y.lo, g.z.hi),
     Coordinate(g.x.lo, g.y.hi, g.z.lo), Coordinate(g.x.lo, g.y.hi, g.z.hi),
     Coordinate(g.x.hi, g.y.lo, g.z.lo), Coordinate(g.x.hi, g.y.lo, g.z.hi),
     Coordinate(g.x.hi, g.y.hi, g.z.lo), Coordinate(g.x.hi, g.y.hi, g.z.hi)]
  }

  /** `CornerGap` measures the corners in that order. */
  lemma CornerGaps(g: Region)
    ensures forall c :: 0 <= c < 8 ==> CornerGap(g, c) == Distance(Origin, Corners(g)[c])
  {
  }

  /** The smallest distance from the origin among the first `n` corners, starting from `i64::max_value()`. */
  function Lowest(g: Region, n: nat): int
  {
    if n == 0 then I64Max
    else
      var before := Lowest(g, n - 1);
      var d := CornerGap(g, n - 1);
      if d < before then d else before
  }

  /** `zero_distance`. */
  function ZeroDistance(g: Region): int
  {
    Lowest(g, 8)
  }

  lemma {:induction false} LowestBelow(g: Region, n: nat)
    ensures forall c :: 0 <= c < n ==> Lowest(g, n) <= CornerGap(g, c)
    ensures Lowest(g, n) == I64Max || exists c :: 0 <= c < n && Lowest(g, n) == CornerGap(g, c)
  {
    if n > 0 {
      LowestBelow(g, n - 1);
    }
  }

  /**
   * `zero_distance` is the distance from the origin to the nearest of the
   * region's eight corners, unless every corner is further than
   * `i64::max_value()`.
   */
  lemma ZeroDistanceNearestCorner(g: Region)
    ensures forall c :: c in Corners(g) ==> ZeroDistance(g) <= Distance(Origin, c)
    ensures ZeroDistance(g) == I64Max || exists c :: c in Corners(g) && ZeroDistance(g) == Distance(Origin, c)
  {
    LowestBelow(g, 8);
    CornerGaps(g);
    var cs := Corners(g);
    forall c | c in cs
      ensures ZeroDistance(g) <= Distance(Origin, c)
    {
      var k :| 0 <= k < 8 && cs[k] == c;
      assert CornerGap(g, k) == Distance(Origin, c);
    }
    if ZeroDistance(g) != I64Max {
      var k :| 0 <= k < 8 && ZeroDistance(g) == CornerGap(g, k);
      assert cs[k] in cs;
    }
  }

  /** Corner `4 * i + 2 * j + k` takes end `i` of x, `j` of y and `k` of z, and `Lowest` takes it in. */
  lemma CornerAt(g: Region, i: nat, j: nat, k: nat)
    requires i < 2 && j < 2 && k < 2
    ensures var d := Distance(Origin, Coordinate(End(g.x, i == 1), End(g.y, j == 1), End(g.z, k == 1)));
      var before := Lowest(g, 4 * i + 2 * j + k);
      Lowest(g, 4 * i + 2 * j + k + 1) == if d < before then d else before
  {
  }

  lemma {:induction false} LowestAtLeast(g: Region, n: nat, m: int)
    requires m <= I64Max
    requires forall c :: 0 <= c < n ==> m <= CornerGap(g, c)
    ensures m <= Lowest(g, n)
  {
    if n > 0 {
      LowestAtLeast(g, n - 1, m);
    }
  }

  /** For a region on the positive side of every axis, `zero_distance` is the distance of its lower corner. */
  lemma PositiveZeroDistance(g: Region)
    requires 0 <= g.x.lo <= g.x.hi && 0 <= g.y.lo <= g.y.hi && 0 <= g.z.lo <= g.z.hi
    requires Distance(Origin, LowerBound(g)) <= I64Max
    ensures ZeroDistance(g) == Distance(Origin, LowerBound(g))
  {
    LowestBelow(g, 8);
    assert CornerGap(g, 0) == Distance(Origin, LowerBound(g));
    LowestAtLeast(g, 8, Distance(Origin, LowerBound(g)));
  }

  /**
   * `zero_distance` as written: three nested loops over the ends of the
   * ranges. The two inner loops are the methods below.
   */
  method CornerDistance(g: Region) returns (lowest: int)
    ensures lowest == ZeroDistance(g)
  {
    var xs := [g.x.lo, g.x.hi];
    lowest := I64Max;
    for i := 0 to 2
      invariant lowest == Lowest(g, 4 * i)
    {
      lowest := CornerSlab(g, xs[i], i, lowest);
    }
  }

  /** The corners with x end `i`, taken into `lowest`. */
  method CornerSlab(g: Region, x: int, ghost i: nat, lowest: int) returns (r: int)
    requires i < 2 && x == End(g.x, i == 1) && lowest == Lowest(g, 4 * i)
    ensures r == Lowest(g, 4 * i + 4)
  {
    var ys := [g.y.lo, g.y.hi];
    r := lowest;
    for j := 0 to 2
      invariant r == Lowest(g, 4 * i + 2 * j)
    {
      r := CornerRow(g, x, ys[j], i, j, r);
    }
  }

  /** The two corners with x end `i` and y end `j`, taken into `lowest`. */
  method CornerRow(g: Region, x: int, y: int, ghost i: nat, ghost j: nat, lowest: int) returns (r: int)
    requires i < 2 && j < 2 && x == End(g.x, i == 1) && y == End(g.y, j == 1)
    requires lowest == Lowest(g, 4 * i + 2 * j)
    ensures r == Lowest(g, 4 * i + 2 * j + 2)
  {
    var zs := [g.z.lo, g.z.hi];
    r := lowest;
    for k := 0 to 2
      invariant r == Lowest(g, 4 * i + 2 * j + k)
    {
      var distance := Distance(Origin, Coordinate(x, y, zs[k]));
      CornerAt(g, i, j, k);
      if distance < r {
        r := distance;
      }
    }
  }

  // ---------------------------------------------------------------------
  // The order of the priority queue
  // ---------------------------------------------------------------------

  /** `Ord for RegionScore`: by potential bots, then by zero distance. */
  function CompareScores(a: RegionScore, b: RegionScore): Ordering
  {
    CmpInt(a.potentialBots, b.potentialBots).Then(CmpInt(a.zeroDistance, b.zeroDistance))
  }

  /**
   * The comparison is a total order consistent with equality: more
   * potential bots always rank higher, and only on equal counts does the
   * zero distance decide, the larger ranking higher.
   */
  lemma ScoresTotalOrder(a: RegionScore, b: RegionScore, c: RegionScore)
    ensures CompareScores(a, b) == CompareScores(b, a).Reverse()
    ensures CompareScores(a, b) == Equal <==> a == b
    ensures CompareScores(a, b) == Greater && CompareScores(b, c) == Greater ==> CompareScores(a, c) == Greater
    ensures CompareScores(a, b) == Greater <==>
      a.potentialBots > b.potentialBots || (a.potentialBots == b.potentialBots && a.zeroDistance > b.zeroDistance)
  {
  }

  /**
   * How the queue ranks regions.  `FartherFirst` is the source's: the
   * queue pops the greatest score, so on equal bot counts the region whose
   * nearest corner is further from the origin comes out first.
   * `CloserFirst` pops, on equal counts, the region whose nearest point is
   * closer to the origin.
   */
  datatype Ranking = FartherFirst | CloserFirst

  /** The distance from 0 to the nearest coordinate the range holds. */
  function Gap(r: CoordRange): nat
  {
    if r.lo > 0 then r.lo else if r.hi <= 0 then 1 - r.hi else 0
  }

  /** The distance from the origin to the nearest point of the region, when it holds one. */
  function NearDistance(g: Region): nat
  {
    Gap(g.x) + Gap(g.y) + Gap(g.z)
  }

  /** No point of a region is closer to the origin than `NearDistance`, and on a single coordinate it is exact. */
  lemma NearDistanceBound(g: Region, p: Coordinate)
    ensures InRegion(g, p) ==> NearDistance(g) <= Distance(Origin, p)
    ensures Unit(g) ==> NearDistance(g) == Distance(Origin, LowerBound(g))
  {
  }

  /** The score a region is pushed with. */
  function Rank(bots: seq<NanoBot>, g: Region, ranking: Ranking): RegionScore
  {
    RegionScore(PotentialBots(bots, g), if ranking == FartherFirst then ZeroDistance(g) else NearDistance(g))
  }

  /** Score `a` comes out of the queue before score `b`. */
  predicate Precedes(a: RegionScore, b: RegionScore, ranking: Ranking)
  {
    match ranking
      case FartherFirst => CompareScores(a, b) == Greater
      case CloserFirst =>
        a.potentialBots > b.potentialBots || (a.potentialBots == b.potentialBots && a.zeroDistance < b.zeroDistance)
  }

  /** The score `a` ranks no lower than `b` bounds its potential bots from below. */
  lemma NotPrecededBots(a: RegionScore, b: RegionScore, ranking: Ranking)
    requires !Precedes(b, a, ranking)
    ensures b.potentialBots <= a.potentialBots
    ensures ranking == CloserFirst && b.potentialBots == a.potentialBots ==> a.zeroDistance <= b.zeroDistance
  {
  }

  /** `RankRegion`: the score of a region, computed by the loops of `potential_bots` and `zero_distance`. */
  method RankRegion(bots: seq<NanoBot>, g: Region, ranking: Ranking) returns (score: RegionScore)
    ensures score == Rank(bots, g, ranking)
  {
    var potential := CountPotential(bots, g);
    var distance;
    if ranking == FartherFirst {
      distance := CornerDistance(g);
    } else {
      distance := NearDistance(g);
    }
    score := RegionScore(potential, distance);
  }

  // ---------------------------------------------------------------------
  // The priority queue
  // ---------------------------------------------------------------------

  /** The scores of the queued regions, in queue order. */
  function Scores(bots: seq<NanoBot>, q: seq<Region>, ranking: Ranking): (scores: seq<RegionScore>)
    ensures |scores| == |q|
    ensures forall k :: 0 <= k < |q| ==> scores[k] == Rank(bots, q[k], ranking)
  {
    if q == [] then [] else Scores(bots, q[..|q| - 1], ranking) + [Rank(bots, q[|q| - 1], ranking)]
  }

  /**
   * The entry `pop` takes among the first `n`: one that no other entry
   * precedes, the first such in queue order.
   */
  function BestIndex(scores: seq<RegionScore>, ranking: Ranking, n: nat): (b: nat)
    requires 0 < n <= |scores|
    ensures b < n
    ensures forall j :: 0 <= j < n ==> !Precedes(scores[j], scores[b], ranking)
    ensures forall j :: 0 <= j < b ==> Precedes(scores[b], scores[j], ranking)
  {
    if n == 1 then 0
    else
      var b := BestIndex(scores, ranking, n - 1);
      if Precedes(scores[n - 1], scores[b], ranking) then n - 1 else b
  }

  /** `pop` as a scan for the best entry. */
  method PopBest(scores: seq<RegionScore>, ranking: Ranking) returns (best: nat)
    requires scores != []
    ensures best == BestIndex(scores, ranking, |scores|)
  {
    best := 0;
    for i := 1 to |scores|
      invariant best == BestIndex(scores, ranking, i)
    {
      if Precedes(scores[i], scores[best], ranking) {
        best := i;
      }
    }
  }

  function Remove<T>(q: seq<T>, i: nat): seq<T>
    requires i < |q|
  {
    q[..i] + q[i + 1..]
  }

  /** `push`: a region already queued keeps its place (its score is the same), any other joins at the back. */
  function Push(q: seq<Region>, g: Region): seq<Region>
  {
    if g in q then q else q + [g]
  }

  /** The regions `cs` pushed one after the other. */
  function PushAll(q: seq<Region>, cs: seq<Region>): seq<Region>
  {
    if cs == [] then q else Push(PushAll(q, cs[..|cs| - 1]), cs[|cs| - 1])
  }

  lemma {:induction false} PushAllMembers(q: seq<Region>, cs: seq<Region>)
    ensures forall g :: g in PushAll(q, cs) <==> g in q || g in cs
  {
    if cs != [] {
      PushAllMembers(q, cs[..|cs| - 1]);
      assert cs == cs[..|cs| - 1] + [cs[|cs| - 1]];
    }
  }

  lemma RemoveMembers(q: seq<Region>, i: nat)
    requires i < |q|
    ensures forall g :: g in Remove(q, i) ==> g in q
    ensures forall g :: g in q && g != q[i] ==> g in Remove(q, i)
  {
    forall g | g in q && g != q[i]
      ensures g in Remove(q, i)
    {
      var k :| 0 <= k < |q| && q[k] == g;
      if k < i {
        assert Remove(q, i)[k] == g;
      } else {
        assert Remove(q, i)[k - 1] == g;
      }
    }
  }

  // ---------------------------------------------------------------------
  // Termination: a weight that every expansion lowers
  // ---------------------------------------------------------------------

  /** The width of a range, or 0 when it runs backwards. */
  function Span(r: CoordRange): nat
  {
    if r.lo <= r.hi then r.hi - r.lo else 0
  }

  function Size(g: Region): nat
  {
    Span(g.x) + Span(g.y) + Span(g.z)
  }

  function Pow9(n: nat): (r: nat)
    ensures r >= 1
  {
    if n == 0 then 1 else 9 * Pow9(n - 1)
  }

  /** Each queued region weighs 9 to the power of its size. */
  function Weight(q: seq<Region>): nat
  {
    if q == [] then 0 else Weight(q[..|q| - 1]) + Pow9(Size(q[|q| - 1]))
  }

  lemma {:induction false} WeightAppend(a: seq<Region>, b: seq<Region>)
    ensures Weight(a + b) == Weight(a) + Weight(b)
    decreases |b|
  {
    if b != [] {
      var ab, init, last := a + b, b[..|b| - 1], b[|b| - 1];
      assert ab[..|ab| - 1] == a + init;
      assert ab[|ab| - 1] == last;
      assert Weight(ab) == Weight(a + init) + Pow9(Size(last));
      assert Weight(b) == Weight(init) + Pow9(Size(last));
      WeightAppend(a, init);
    } else {
      assert a + b == a;
    }
  }

  lemma WeightRemove(q: seq<Region>, i: nat)
    requires i < |q|
    ensures Weight(q) == Weight(Remove(q, i)) + Pow9(Size(q[i]))
  {
    var before, after := q[..i], q[i + 1..];
    assert q == before + ([q[i]] + after);
    assert Remove(q, i) == before + after;
    WeightAppend(before, [q[i]] + after);
    WeightAppend([q[i]], after);
    WeightAppend(before, after);
    WeightSingle(q[i]);
  }

  lemma WeightSingle(g: Region)
    ensures Weight([g]) == Pow9(Size(g))
  {
    assert [g][..0] == [];
  }

  lemma {:induction false} WeightPushAll(q: seq<Region>, cs: seq<Region>)
    ensures Weight(PushAll(q, cs)) <= Weight(q) + Weight(cs)
  {
    if cs != [] {
      var rest := PushAll(q, cs[..|cs| - 1]);
      WeightPushAll(q, cs[..|cs| - 1]);
      if cs[|cs| - 1] !in rest {
        assert (rest + [cs[|cs| - 1]])[..|rest|] == rest;
      }
    }
  }

  lemma {:induction false} WeightAtMost(cs: seq<Region>, m: nat)
    requires forall c :: c in cs ==> Size(c) <= m
    ensures Weight(cs) <= |cs| * Pow9(m)
  {
    if cs != [] {
      var init, last := cs[..|cs| - 1], cs[|cs| - 1];
      assert last in cs;
      assert forall c :: c in init ==> c in cs;
      WeightAtMost(init, m);
      Pow9Grows(Size(last), m);
      OneMore(|init|, Pow9(m));
    }
  }

  lemma OneMore(k: nat, p: nat)
    ensures k * p + p == (k + 1) * p
  {
  }

  lemma {:induction false} Pow9Grows(a: nat, b: nat)
    requires a <= b
    ensures Pow9(a) <= Pow9(b)
    decreases b
  {
    if a < b {
      Pow9Grows(a, b - 1);
    }
  }

  /** A region the search splits weighs more than all its children together. */
  lemma ChildrenLighter(g: Region)
    requires WellFormed(g) && !Unit(g)
    ensures Weight(Children(g)) < Pow9(Size(g))
  {
    ChildrenSmaller(g);
    Lighter(Children(g), Size(g));
  }

  /** At most eight regions, each smaller than `n`, weigh less than one of size `n`. */
  lemma Lighter(cs: seq<Region>, n: nat)
    requires |cs| <= 8 && forall c :: c in cs ==> Size(c) < n
    ensures Weight(cs) < Pow9(n)
  {
    if cs != [] {
      assert Size(cs[0]) < n;
      var p := Pow9(n - 1);
      WeightAtMost(cs, n - 1);
      FewerThanNine(|cs|, p);
    }
  }

  lemma FewerThanNine(k: nat, p: nat)
    requires k <= 8 && p >= 1
    ensures k * p < 9 * p
  {
    Arithmetic.MulAtLeast(p, 9 - k);
    assert k * p + p * (9 - k) == 9 * p;
  }

  /** Each child of a region the search splits is smaller than it; there are at most eight. */
  lemma ChildrenSmaller(g: Region)
    requires WellFormed(g) && !Unit(g)
    ensures |Children(g)| <= 8
    ensures forall c :: c in Children(g) ==> Size(c) < Size(g)
  {
    ChildrenMembers(g);
    forall c | c in Children(g)
      ensures Size(c) < Size(g)
    {
      HalfNarrower(g.x, c.x);
      HalfNarrower(g.y, c.y);
      HalfNarrower(g.z, c.z);
    }
  }

  /** A half of a well-formed range is well-formed and no wider, and narrower when the range is at least 2 wide. */
  lemma HalfNarrower(r: CoordRange, h: CoordRange)
    requires r.lo <= r.hi && h in SplitRange(r)
    ensures h.lo <= h.hi && Span(h) == Width(h) <= Width(r) == Span(r)
    ensures Width(r) >= 2 ==> Width(h) < Width(r)
  {
    SplitRangePartition(r);
  }

  ghost predicate AllWellFormed(q: seq<Region>)
  {
    forall g :: g in q ==> WellFormed(g)
  }

  /** Replacing a region by its children keeps every region well-formed and lowers the weight. */
  lemma Expand(q: seq<Region>, i: nat)
    requires AllWellFormed(q) && i < |q| && !Unit(q[i])
    ensures AllWellFormed(PushAll(Remove(q, i), Children(q[i])))
    ensures Weight(PushAll(Remove(q, i), Children(q[i]))) < Weight(q)
  {
    var g := q[i];
    PushAllMembers(Remove(q, i), Children(g));
    RemoveMembers(q, i);
    ChildrenCover(g);
    WeightRemove(q, i);
    WeightPushAll(Remove(q, i), Children(g));
    ChildrenLighter(g);
  }

  // ---------------------------------------------------------------------
  // The search
  // ---------------------------------------------------------------------

  /**
   * The loop of `find_closest` from queue `q`: pop the best region; a
   * region of one coordinate answers with that coordinate, any other is
   * replaced by its children.  An empty queue answers None.
   */
  function Search(bots: seq<NanoBot>, q: seq<Region>, ranking: Ranking): Option<Coordinate>
    requires AllWellFormed(q)
    decreases Weight(q)
  {
    if q == [] then None
    else
      var i := BestIndex(Scores(bots, q, ranking), ranking, |q|);
      if Unit(q[i]) then Some(LowerBound(q[i]))
      else
        Expand(q, i);
        Search(bots, PushAll(Remove(q, i), Children(q[i])), ranking)
  }

  /** From a lone region that is not a single coordinate, the search goes on with its children. */
  lemma SearchSplitsLone(bots: seq<NanoBot>, g: Region, ranking: Ranking)
    requires WellFormed(g) && !Unit(g)
    ensures AllWellFormed(PushAll([], Children(g)))
    ensures Search(bots, [g], ranking) == Search(bots, PushAll([], Children(g)), ranking)
  {
    Expand([g], 0);
    assert Remove([g], 0) == [];
  }

  /** Of two regions, the second is a single coordinate that ranks first. */
  predicate SecondFirst(bots: seq<NanoBot>, a: Region, b: Region, ranking: Ranking)
  {
    WellFormed(a) && WellFormed(b) && Unit(b) && Precedes(Rank(bots, b, ranking), Rank(bots, a, ranking), ranking)
  }

  /** Of two regions, the search answers the second when it is a single coordinate that ranks first. */
  lemma SearchPopsSecond(bots: seq<NanoBot>, a: Region, b: Region, ranking: Ranking)
    requires SecondFirst(bots, a, b, ranking)
    ensures Search(bots, [a, b], ranking) == Some(LowerBound(b))
  {
    var q := [a, b];
    assert AllWellFormed(q);
    assert BestIndex(Scores(bots, q, ranking), ranking, 2) == 1;
  }

  /** `find_closest`: the search from the whole region. */
  function Closest(bots: seq<NanoBot>, whole: Region, ranking: Ranking): Option<Coordinate>
    requires WellFormed(whole)
  {
    Search(bots, [whole], ranking)
  }

  /**
   * `c` is a point of `whole` in range of as many bots as any point of
   * `whole`; under `CloserFirst` it is also, among those, the closest to
   * the origin.
   */
  ghost predicate Optimal(bots: seq<NanoBot>, whole: Region, c: Coordinate, ranking: Ranking)
  {
    InRegion(whole, c) &&
    (forall p :: InRegion(whole, p) ==> InRange(bots, p) <= InRange(bots, c)) &&
    (ranking == CloserFirst ==>
      forall p :: InRegion(whole, p) && InRange(bots, p) == InRange(bots, c) ==> Distance(Origin, c) <= Distance(Origin, p))
  }

  /**
   * When some point of `whole` is in range of every bot, an optimal point
   * is too, and ranked `CloserFirst` it is no further from the origin.
   */
  lemma OptimalReachesAll(bots: seq<NanoBot>, whole: Region, c: Coordinate, p: Coordinate)
    requires Optimal(bots, whole, c, CloserFirst) && InRegion(whole, p) && InRange(bots, p) == |bots|
    ensures InRange(bots, c) == |bots| && Distance(Origin, c) <= Distance(Origin, p)
  {
  }

  /** Every point of `whole` lies in some queued region. */
  ghost predicate Covers(q: seq<Region>, whole: Region)
  {
    forall p :: InRegion(whole, p) ==> exists g :: g in q && InRegion(g, p)
  }

  /** Every point of every queued region lies in `whole`. */
  ghost predicate Inside(q: seq<Region>, whole: Region)
  {
    forall g, p :: g in q && InRegion(g, p) ==> InRegion(whole, p)
  }

  /** The popped region of one coordinate beats every point of `whole`. */
  lemma PoppedUnitOptimal(bots: seq<NanoBot>, q: seq<Region>, ranking: Ranking, whole: Region, i: nat)
    requires AllWellFormed(q) && Covers(q, whole) && Inside(q, whole)
    requires q != [] && i == BestIndex(Scores(bots, q, ranking), ranking, |q|) && Unit(q[i])
    ensures Optimal(bots, whole, LowerBound(q[i]), ranking)
  {
    var g := q[i];
    var c := LowerBound(g);
    var scores := Scores(bots, q, ranking);
    UnitExact(bots, g);
    NearDistanceBound(g, c);
    NonEmptyHolds(g, c);
    forall p | InRegion(whole, p)
      ensures InRange(bots, p) <= InRange(bots, c)
      ensures ranking == CloserFirst && InRange(bots, p) == InRange(bots, c) ==> Distance(Origin, c) <= Distance(Origin, p)
    {
      var h :| h in q && InRegion(h, p);
      var j :| 0 <= j < |q| && q[j] == h;
      PotentialBotsBound(bots, h, p);
      NotPrecededBots(scores[i], scores[j], ranking);
      NearDistanceBound(h, p);
    }
  }

  /** Replacing the popped region by its children keeps the queue covering `whole` and inside it. */
  lemma ExpandCovers(q: seq<Region>, whole: Region, i: nat)
    requires AllWellFormed(q) && Covers(q, whole) && Inside(q, whole) && i < |q|
    ensures Covers(PushAll(Remove(q, i), Children(q[i])), whole)
    ensures Inside(PushAll(Remove(q, i), Children(q[i])), whole)
  {
    var g := q[i];
    var next := PushAll(Remove(q, i), Children(g));
    PushAllMembers(Remove(q, i), Children(g));
    RemoveMembers(q, i);
    ChildrenCover(g);
    forall p | InRegion(whole, p)
      ensures exists h :: h in next && InRegion(h, p)
    {
      var h :| h in q && InRegion(h, p);
      if h == g {
        var c :| c in Children(g) && InRegion(c, p);
        assert c in next;
      } else {
        assert h in next;
      }
    }
  }

  /**
   * From a queue of well-formed regions that covers `whole` and lies
   * inside it, the search answers None only when `whole` holds no point,
   * and otherwise answers an optimal point of `whole`.
   */
  lemma {:induction false} SearchOptimal(bots: seq<NanoBot>, q: seq<Region>, ranking: Ranking, whole: Region)
    requires AllWellFormed(q) && Covers(q, whole) && Inside(q, whole)
    ensures Search(bots, q, ranking).None? ==> forall p :: !InRegion(whole, p)
    ensures Search(bots, q, ranking).Some? ==> Optimal(bots, whole, Search(bots, q, ranking).value, ranking)
    decreases Weight(q)
  {
    if q != [] {
      var i := BestIndex(Scores(bots, q, ranking), ranking, |q|);
      if Unit(q[i]) {
        PoppedUnitOptimal(bots, q, ranking, whole, i);
      } else {
        Expand(q, i);
        ExpandCovers(q, whole, i);
        SearchOptimal(bots, PushAll(Remove(q, i), Children(q[i])), ranking, whole);
      }
    }
  }

  /**
   * `find_closest` answers exactly when the region holds a point, and then
   * with a point of it in range of the most bots; ranked `CloserFirst`,
   * also the closest to the origin among those.
   */
  lemma ClosestOptimal(bots: seq<NanoBot>, whole: Region, ranking: Ranking)
    requires WellFormed(whole)
    ensures Closest(bots, whole, ranking).Some? <==> NonEmpty(whole)
    ensures Closest(bots, whole, ranking).Some? ==> Optimal(bots, whole, Closest(bots, whole, ranking).value, ranking)
  {
    SearchOptimal(bots, [whole], ranking, whole);
    NonEmptyHolds(whole, LowerBound(whole));
    if Closest(bots, whole, ranking).Some? {
      NonEmptyHolds(whole, Closest(bots, whole, ranking).value);
    }
  }

  /** `find_closest` as written: a queue of regions and their scores, popped until a single coordinate comes out. */
  method FindClosest(bots: seq<NanoBot>, whole: Region, ranking: Ranking) returns (r: Option<Coordinate>)
    requires WellFormed(whole)
    ensures r == Closest(bots, whole, ranking)
  {
    var first := RankRegion(bots, whole, ranking);
    var regions, scores := [whole], [first];
    while regions != []
      invariant AllWellFormed(regions) && scores == Scores(bots, regions, ranking)
      invariant Search(bots, regions, ranking) == Closest(bots, whole, ranking)
      decreases Weight(regions)
    {
      var i := PopBest(scores, ranking);
      var region := regions[i];
      if Unit(region) {
        return Some(LowerBound(region));
      }
      Expand(regions, i);
      RemoveScore(bots, regions, ranking, i);
      regions, scores := Remove(regions, i), Remove(scores, i);
      var children := SplitRegion(region);
      regions, scores := PushChildren(bots, regions, scores, children, ranking);
    }
    r := None;
  }

  lemma RemoveScore(bots: seq<NanoBot>, q: seq<Region>, ranking: Ranking, i: nat)
    requires i < |q|
    ensures Scores(bots, Remove(q, i), ranking) == Remove(Scores(bots, q, ranking), i)
  {
    var a, b := Scores(bots, Remove(q, i), ranking), Remove(Scores(bots, q, ranking), i);
    assert |a| == |b|;
    forall k | 0 <= k < |a|
      ensures a[k] == b[k]
    {
      if k < i {
        assert Remove(q, i)[k] == q[k];
      } else {
        assert Remove(q, i)[k] == q[k + 1];
      }
    }
  }

  /** The loop pushing the children of `find_closest`, each with its score. */
  method PushChildren(bots: seq<NanoBot>, regions: seq<Region>, scores: seq<RegionScore>, children: seq<Region>, ranking: Ranking)
    returns (regions': seq<Region>, scores': seq<RegionScore>)
    requires scores == Scores(bots, regions, ranking)
    ensures regions' == PushAll(regions, children) && scores' == Scores(bots, regions', ranking)
  {
    regions', scores' := regions, scores;
    for k := 0 to |children|
      invariant regions' == PushAll(regions, children[..k]) && scores' == Scores(bots, regions', ranking)
    {
      assert children[..k + 1][..k] == children[..k];
      var score := RankRegion(bots, children[k], ranking);
      if children[k] !in regions' {
        assert (regions' + [children[k]])[..|regions'|] == regions';
        regions', scores' := regions' + [children[k]], scores' + [score];
      }
    }
    assert children[..|children|] == children;
  }

  // ---------------------------------------------------------------------
  // Part B
  // ---------------------------------------------------------------------

  /** The smallest coordinates of the first `n` bots on each axis, starting from `i64::max_value()`. */
  function Low(bots: seq<NanoBot>, n: nat): Coordinate
    requires n <= |bots|
  {
    if n == 0 then Coordinate(I64Max, I64Max, I64Max)
    else
      var l := Low(bots, n - 1);
      var b := bots[n - 1].location;
      Coordinate(Min(l.x, b.x), Min(l.y, b.y), Min(l.z, b.z))
  }

  /** The largest coordinates, starting from `i64::min_value()`. */
  function High(bots: seq<NanoBot>, n: nat): Coordinate
    requires n <= |bots|
  {
    if n == 0 then Coordinate(I64Min, I64Min, I64Min)
    else
      var h := High(bots, n - 1);
      var b := bots[n - 1].location;
      Coordinate(Max(h.x, b.x), Max(h.y, b.y), Max(h.z, b.z))
  }

  /** `Coordinate::ranges`: the region from one corner up to, not including, the other. */
  function Ranges(low: Coordinate, high: Coordinate): Region
  {
    Region(CoordRange(low.x, high.x), CoordRange(low.y, high.y), CoordRange(low.z, high.z))
  }

  /** The region `b` searches. */
  function Box(bots: seq<NanoBot>): Region
  {
    Ranges(Low(bots, |bots|), High(bots, |bots|))
  }

  lemma {:induction false} BoxBounds(bots: seq<NanoBot>, n: nat)
    requires n <= |bots|
    ensures forall j :: 0 <= j < n ==>
      var l, h, b := Low(bots, n), High(bots, n), bots[j].location;
      l.x <= b.x <= h.x && l.y <= b.y <= h.y && l.z <= b.z <= h.z
  {
    if n > 0 {
      BoxBounds(bots, n - 1);
    }
  }

  /** With at least one bot the box runs from the smallest to the largest coordinate of the bots on each axis. */
  lemma BoxWellFormed(bots: seq<NanoBot>)
    requires bots != []
    ensures WellFormed(Box(bots))
    ensures forall j :: 0 <= j < |bots| ==>
      var l, h, b := Low(bots, |bots|), High(bots, |bots|), bots[j].location;
      l.x <= b.x <= h.x && l.y <= b.y <= h.y && l.z <= b.z <= h.z
  {
    BoxBounds(bots, |bots|);
  }

  /**
   * `b`: the distance from the origin of the point `find_closest` answers.
   * None where the source panics: with no bots (the box's `i64`
   * arithmetic overflows) and where `find_closest` answers None.
   */
  function AnswerB(bots: seq<NanoBot>): Option<int>
  {
    if bots == [] then None
    else
      BoxWellFormed(bots);
      match Closest(bots, Box(bots), FartherFirst)
        case None => None
        case Some(c) => Some(Distance(c, Origin))
  }

  /** The min/max loop of `b`. */
  method BoundingBox(bots: seq<NanoBot>) returns (low: Coordinate, high: Coordinate)
    ensures low == Low(bots, |bots|) && high == High(bots, |bots|)
  {
    low := Coordinate(I64Max, I64Max, I64Max);
    high := Coordinate(I64Min, I64Min, I64Min);
    for i := 0 to |bots|
      invariant low == Low(bots, i) && high == High(bots, i)
    {
      var b := bots[i].location;
      low := Coordinate(Min(low.x, b.x), Min(low.y, b.y), Min(low.z, b.z));
      high := Coordinate(Max(high.x, b.x), Max(high.y, b.y), Max(high.z, b.z));
    }
  }

  /** `b` as written. */
  method B(bots: seq<NanoBot>) returns (r: Option<int>)
    ensures r == AnswerB(bots)
  {
    if bots == [] {
      return None;
    }
    var low, high := BoundingBox(bots);
    BoxWellFormed(bots);
    var found := FindClosest(bots, Ranges(low, high), FartherFirst);
    if found.None? {
      return None;
    }
    r := Some(Distance(found.value, Origin));
  }

  // ---------------------------------------------------------------------
  // What `b` evidently means, and two inputs where it does not do it
  // ---------------------------------------------------------------------

  /** The box from the smallest to the largest bot coordinate, the largest included. */
  function FullBox(bots: seq<NanoBot>): Region
  {
    var high := High(bots, |bots|);
    Ranges(Low(bots, |bots|), Coordinate(high.x + 1, high.y + 1, high.z + 1))
  }

  /** The search over the full box, closer regions first on equal counts. */
  function ClosestFixed(bots: seq<NanoBot>): Option<Coordinate>
  {
    if bots == [] then None
    else
      BoxWellFormed(bots);
      Closest(bots, FullBox(bots), CloserFirst)
  }

  /**
   * With at least one bot, the corrected search always answers, with a
   * point of the full box in range of the most bots that is the closest
   * to the origin among those; the full box holds every bot's position.
   */
  lemma ClosestFixedOptimal(bots: seq<NanoBot>)
    requires bots != []
    ensures forall j :: 0 <= j < |bots| ==> InRegion(FullBox(bots), bots[j].location)
    ensures ClosestFixed(bots).Some?
    ensures Optimal(bots, FullBox(bots), ClosestFixed(bots).value, CloserFirst)
  {
    BoxWellFormed(bots);
    ClosestOptimal(bots, FullBox(bots), CloserFirst);
  }

  /**
   * When some point of the full box is in range of every bot, the
   * corrected search answers a point in range of every bot that is no
   * further from the origin.
   */
  lemma ClosestFixedReachesAll(bots: seq<NanoBot>, p: Coordinate)
    requires bots != [] && InRegion(FullBox(bots), p) && InRange(bots, p) == |bots|
    ensures ClosestFixed(bots).Some?
    ensures InRange(bots, ClosestFixed(bots).value) == |bots|
    ensures Distance(Origin, ClosestFixed(bots).value) <= Distance(Origin, p)
  {
    ClosestFixedOptimal(bots);
    OptimalReachesAll(bots, FullBox(bots), ClosestFixed(bots).value, p);
  }

  /** The answer of `b` with the corrected search. */
  function AnswerFixed(bots: seq<NanoBot>): Option<int>
  {
    match ClosestFixed(bots)
      case None => None
      case Some(c) => Some(Distance(c, Origin))
  }

  /** `b` with the corrected search. */
  method BFixed(bots: seq<NanoBot>) returns (r: Option<int>)
    ensures r == AnswerFixed(bots)
  {
    if bots == [] {
      return None;
    }
    var low, high := BoundingBox(bots);
    BoxWellFormed(bots);
    var whole := Ranges(low, Coordinate(high.x + 1, high.y + 1, high.z + 1));
    assert whole == FullBox(bots);
    var found := FindClosest(bots, whole, CloserFirst);
    if found.None? {
      return None;
    }
    r := Some(Distance(found.value, Origin));
  }

  /** A single bot, at (1, 2, 3) with radius 1. */
  predicate IsLone(bots: seq<NanoBot>)
  {
    |bots| == 1 && bots[0] == NanoBot(Coordinate(1, 2, 3), 1)
  }

  /**
   * As written, the box of a single bot is empty on every axis, its split
   * is empty and `find_closest` answers None, where `b` panics; the
   * corrected search answers the bot's own position.
   */
  lemma LoneBotNotFound(bots: seq<NanoBot>)
    requires IsLone(bots)
    ensures AnswerB(bots) == None
    ensures ClosestFixed(bots) == Some(Coordinate(1, 2, 3))
  {
    LoneAsWritten(bots);
    LoneFixed(bots);
  }

  const LoneBox: Region := Region(CoordRange(1, 1), CoordRange(2, 2), CoordRange(3, 3))

  lemma LoneBoxes(bots: seq<NanoBot>)
    requires IsLone(bots)
    ensures Box(bots) == LoneBox
    ensures FullBox(bots) == Region(CoordRange(1, 2), CoordRange(2, 3), CoordRange(3, 4))
  {
    assert Low(bots, 1) == Coordinate(1, 2, 3);
    assert High(bots, 1) == Coordinate(1, 2, 3);
  }

  lemma LoneChildren()
    ensures Children(LoneBox) == []
  {
    FlatChildren(LoneBox);
  }

  lemma LoneAsWritten(bots: seq<NanoBot>)
    requires IsLone(bots)
    ensures AnswerB(bots) == None
  {
    LoneBoxes(bots);
    LoneFirstPop(bots);
  }

  /** The box of one coordinate's width 0 has no children, so the search ends with nothing found. */
  lemma LoneFirstPop(bots: seq<NanoBot>)
    ensures Search(bots, [LoneBox], FartherFirst) == None
  {
    LoneChildren();
    SearchSplitsLone(bots, LoneBox, FartherFirst);
  }

  lemma LoneFixed(bots: seq<NanoBot>)
    requires IsLone(bots)
    ensures ClosestFixed(bots) == Some(Coordinate(1, 2, 3))
  {
    LoneBoxes(bots);
    ClosestFixedOptimal(bots);
    NonEmptyHolds(FullBox(bots), ClosestFixed(bots).value);
  }

  /** Two bots whose ranges overlap around the origin: at the origin and at (2, 1, 1), both with radius 5. */
  predicate IsPair(bots: seq<NanoBot>)
  {
    |bots| == 2 && bots[0] == NanoBot(Origin, 5) && bots[1] == NanoBot(Coordinate(2, 1, 1), 5)
  }

  /**
   * As written, the search splits the box of the pair into the cells at
   * x = 0 and x = 1, both in range of both bots; the tie goes to the cell
   * whose nearest corner is further from the origin, so `b` answers 1,
   * although the origin is in the box and in range of both bots.  The
   * corrected search answers the origin.
   */
  lemma PairFartherFirst(bots: seq<NanoBot>)
    requires IsPair(bots)
    ensures AnswerB(bots) == Some(1)
    ensures InRegion(Box(bots), Origin) && InRange(bots, Origin) == 2
    ensures ClosestFixed(bots) == Some(Origin)
  {
    PairSearch(bots);
    PairBoxes(bots);
    PairReaches(bots, Origin);
    PairFixed(bots);
  }

  const PairBox: Region := Region(CoordRange(0, 2), CoordRange(0, 1), CoordRange(0, 1))
  const PairLeft: Region := Region(CoordRange(0, 1), CoordRange(0, 1), CoordRange(0, 1))
  const PairRight: Region := Region(CoordRange(1, 2), CoordRange(0, 1), CoordRange(0, 1))

  lemma PairBoxes(bots: seq<NanoBot>)
    requires IsPair(bots)
    ensures Box(bots) == PairBox
    ensures FullBox(bots) == Region(CoordRange(0, 3), CoordRange(0, 2), CoordRange(0, 2))
  {
    assert Low(bots, 1) == Origin;
    assert High(bots, 1) == Origin;
  }

  lemma PairChildren()
    ensures Children(PairBox) == [PairLeft, PairRight]
  {
    ChildrenAlongX(PairBox);
    assert SplitRange(PairBox.x) == [PairLeft.x, PairRight.x];
  }

  lemma PairSplit()
    ensures PushAll([], Children(PairBox)) == [PairLeft, PairRight]
  {
    PairChildren();
    assert [PairLeft, PairRight][..1] == [PairLeft];
    assert PushAll([], [PairLeft]) == [PairLeft];
  }

  /** Both bots reach the origin and the point (1, 0, 0). */
  lemma PairReaches(bots: seq<NanoBot>, p: Coordinate)
    requires IsPair(bots)
    requires p == Origin || p == Coordinate(1, 0, 0)
    ensures InRange(bots, p) == 2
  {
    assert Reached(bots, p, 0, 1) == 1;
  }

  lemma PairLeftBots(bots: seq<NanoBot>)
    requires IsPair(bots)
    ensures PotentialBots(bots, PairLeft) == 2
  {
    PairLeftCentre();
    PairReaches(bots, Origin);
  }

  lemma PairRightBots(bots: seq<NanoBot>)
    requires IsPair(bots)
    ensures PotentialBots(bots, PairRight) == 2
  {
    PairRightCentre();
    PairReaches(bots, Coordinate(1, 0, 0));
  }

  lemma PairLeftCentre()
    ensures Center(PairLeft) == Origin && Tolerance(PairLeft) == 0
  {
    UnitCentre(PairLeft);
  }

  lemma PairRightCentre()
    ensures Center(PairRight) == Coordinate(1, 0, 0) && Tolerance(PairRight) == 0
  {
    UnitCentre(PairRight);
  }

  lemma PairLeftZero()
    ensures ZeroDistance(PairLeft) == 0
  {
    PositiveZeroDistance(PairLeft);
  }

  lemma PairRightZero()
    ensures ZeroDistance(PairRight) == 1
  {
    PositiveZeroDistance(PairRight);
  }

  lemma PairFirstPop(bots: seq<NanoBot>)
    ensures Closest(bots, PairBox, FartherFirst) == Search(bots, [PairLeft, PairRight], FartherFirst)
  {
    PairSplit();
    SearchSplitsLone(bots, PairBox, FartherFirst);
  }

  lemma PairLeftRank(bots: seq<NanoBot>)
    requires IsPair(bots)
    ensures Rank(bots, PairLeft, FartherFirst) == RegionScore(2, 0)
  {
    PairLeftBots(bots);
    PairLeftZero();
  }

  lemma PairRightRank(bots: seq<NanoBot>)
    requires IsPair(bots)
    ensures Rank(bots, PairRight, FartherFirst) == RegionScore(2, 1)
  {
    PairRightBots(bots);
    PairRightZero();
  }

  lemma PairCells()
    ensures WellFormed(PairLeft) && WellFormed(PairRight) && Unit(PairRight)
  {
  }

  /**
   * Of two regions with the same potential bots, the source's queue pops
   * the one farther from the origin first.
   */
  lemma TieGoesFarther(bots: seq<NanoBot>, a: Region, b: Region, n: nat, da: int, db: int)
    requires Rank(bots, a, FartherFirst) == RegionScore(n, da)
    requires Rank(bots, b, FartherFirst) == RegionScore(n, db)
    requires da > db
    ensures Precedes(Rank(bots, a, FartherFirst), Rank(bots, b, FartherFirst), FartherFirst)
  {
  }

  lemma PairSecondPop(bots: seq<NanoBot>)
    requires IsPair(bots)
    ensures Search(bots, [PairLeft, PairRight], FartherFirst) == Some(LowerBound(PairRight))
  {
    PairRightFirst(bots);
    SearchPopsSecond(bots, PairLeft, PairRight, FartherFirst);
  }

  lemma PairRightFirst(bots: seq<NanoBot>)
    requires IsPair(bots)
    ensures SecondFirst(bots, PairLeft, PairRight, FartherFirst)
  {
    PairCells();
    PairRightPrecedes(bots);
  }

  lemma PairRightPrecedes(bots: seq<NanoBot>)
    requires IsPair(bots)
    ensures Precedes(Rank(bots, PairRight, FartherFirst), Rank(bots, PairLeft, FartherFirst), FartherFirst)
  {
    PairLeftRank(bots);
    PairRightRank(bots);
    TieGoesFarther(bots, PairRight, PairLeft, 2, 1, 0);
  }

  lemma PairClosest(bots: seq<NanoBot>)
    requires IsPair(bots)
    ensures Closest(bots, Box(bots), FartherFirst) == Some(Coordinate(1, 0, 0))
  {
    PairBoxes(bots);
    PairFirstPop(bots);
    PairSecondPop(bots);
  }

  lemma PairSearch(bots: seq<NanoBot>)
    requires IsPair(bots)
    ensures AnswerB(bots) == Some(1)
  {
    PairClosest(bots);
    AnswerOf(bots, Coordinate(1, 0, 0));
    assert Distance(Coordinate(1, 0, 0), Origin) == 1;
  }

  /** `b` answers the distance from the origin of the point `find_closest` returns. */
  lemma AnswerOf(bots: seq<NanoBot>, c: Coordinate)
    requires bots != [] && Closest(bots, Box(bots), FartherFirst) == Some(c)
    ensures AnswerB(bots) == Some(Distance(c, Origin))
  {
  }

  lemma PairFixed(bots: seq<NanoBot>)
    requires IsPair(bots)
    ensures ClosestFixed(bots) == Some(Origin)
  {
    PairBoxes(bots);
    PairReaches(bots, Origin);
    ClosestFixedReachesAll(bots, Origin);
    OnlyOrigin(ClosestFixed(bots).value);
  }

  /** The origin is the only point no further from it than itself. */
  lemma OnlyOrigin(c: Coordinate)
    requires Distance(Origin, c) <= Distance(Origin, Origin)
    ensures c == Origin
  {
  }
}
