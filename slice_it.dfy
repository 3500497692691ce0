/**
 * Day 3 (3/src/main.rs): rectangular claims on a sheet of fabric.  The
 * cloth is a `max_width` by `max_height` buffer of counters, indexed
 * `cloth[x][y]`; every claim adds one to each square inch it covers, the
 * overlap count is the number of squares claimed more than once, and the
 * intact claim is the first whose squares are all claimed once.
 */
module SliceIt {
  import opened Wrappers

  datatype Claim = Claim(id: string, x: nat, y: nat, width: nat, height: nat)

  /** The claim covers square (x, y): x in [c.x, c.x + width), y in [c.y, c.y + height). */
  predicate Covers(c: Claim, x: int, y: int)
  {
    c.x <= x < c.x + c.width && c.y <= y < c.y + c.height
  }

  /** How many claims cover square (x, y). */
  function Coverage(claims: seq<Claim>, x: int, y: int): nat
  {
    if claims == [] then 0
    else Coverage(claims[..|claims| - 1], x, y) + (if Covers(claims[|claims| - 1], x, y) then 1 else 0)
  }

  // ---------------------------------------------------------------------
  // Cloth dimensions
  // ---------------------------------------------------------------------

  /** Every claim ends strictly inside a `width` by `height` cloth. */
  predicate Fits(claims: seq<Claim>, width: nat, height: nat)
  {
    forall c :: c in claims ==> c.x + c.width < width && c.y + c.height < height
  }

  /**
   * The dimension computation of `main`: the largest `x + width` and
   * `y + height` over all claims, each plus one.  Every claim then fits,
   * and no smaller cloth of this construction would.
   */
  method Dimensions(claims: seq<Claim>) returns (maxWidth: nat, maxHeight: nat)
    ensures Fits(claims, maxWidth, maxHeight)
    ensures maxWidth == 1 || exists c :: c in claims && c.x + c.width + 1 == maxWidth
    ensures maxHeight == 1 || exists c :: c in claims && c.y + c.height + 1 == maxHeight
  {
    maxWidth, maxHeight := 0, 0;
    for k := 0 to |claims|
      invariant forall c :: c in claims[..k] ==> c.x + c.width <= maxWidth && c.y + c.height <= maxHeight
      invariant maxWidth == 0 || exists c :: c in claims[..k] && c.x + c.width == maxWidth
      invariant maxHeight == 0 || exists c :: c in claims[..k] && c.y + c.height == maxHeight
    {
      var c := claims[k];
      assert claims[..k + 1] == claims[..k] + [c];
      if c.x + c.width > maxWidth {
        maxWidth := c.x + c.width;
      }
      if c.y + c.height > maxHeight {
        maxHeight := c.y + c.height;
      }
    }
    assert claims[..|claims|] == claims;
    maxWidth := maxWidth + 1;
    maxHeight := maxHeight + 1;
  }

  // ---------------------------------------------------------------------
  // Filling the cloth
  // ---------------------------------------------------------------------

  /**
   * `fill_cloth`: adds one to every square the claim covers and leaves every
   * other square alone.
   */
  method FillCloth(claim: Claim, cloth: array2<int>)
    requires claim.x + claim.width <= cloth.Length0 && claim.y + claim.height <= cloth.Length1
    modifies cloth
    ensures forall x, y :: 0 <= x < cloth.Length0 && 0 <= y < cloth.Length1 ==>
      cloth[x, y] == old(cloth[x, y]) + (if Covers(claim, x, y) then 1 else 0)
  {
    for y := claim.y to claim.y + claim.height
      invariant forall x', y' :: 0 <= x' < cloth.Length0 && 0 <= y' < cloth.Length1 ==>
        cloth[x', y'] == old(cloth[x', y']) + (if Covers(claim, x', y') && y' < y then 1 else 0)
    {
      for x := claim.x to claim.x + claim.width
        invariant forall x', y' :: 0 <= x' < cloth.Length0 && 0 <= y' < cloth.Length1 ==>
          cloth[x', y'] == old(cloth[x', y']) +
            (if Covers(claim, x', y') && (y' < y || (y' == y && x' < x)) then 1 else 0)
      {
        cloth[x, y] := cloth[x, y] + 1;
      }
    }
  }

  /** Whether the cloth holds, at every square, the number of claims covering it. */
  ghost predicate Tallies(cloth: array2<int>, claims: seq<Claim>)
    reads cloth
  {
    forall x, y :: 0 <= x < cloth.Length0 && 0 <= y < cloth.Length1 ==> cloth[x, y] == Coverage(claims, x, y)
  }

  /** The number of squares of column `x`, rows below `h`, claimed more than once. */
  function ColumnOverlaps(claims: seq<Claim>, x: nat, h: nat): nat
  {
    if h == 0 then 0 else ColumnOverlaps(claims, x, h - 1) + (if Coverage(claims, x, h - 1) > 1 then 1 else 0)
  }

  /** The number of squares of the `w` by `h` cloth claimed more than once. */
  function Overlaps(claims: seq<Claim>, w: nat, h: nat): nat
  {
    if w == 0 then 0 else Overlaps(claims, w - 1, h) + ColumnOverlaps(claims, w - 1, h)
  }

  /**
   * `a`: a zeroed cloth, every claim filled in, then the squares with a
   * count above one are counted column by column.
   */
  method A(claims: seq<Claim>, maxWidth: nat, maxHeight: nat) returns (cloth: array2<int>, overlaps: nat)
    requires Fits(claims, maxWidth, maxHeight)
    ensures fresh(cloth) && cloth.Length0 == maxWidth && cloth.Length1 == maxHeight
    ensures Tallies(cloth, claims)
    ensures overlaps == Overlaps(claims, maxWidth, maxHeight)
  {
    cloth := new int[maxWidth, maxHeight]((x, y) => 0);
    for k := 0 to |claims|
      invariant Tallies(cloth, claims[..k])
    {
      assert claims[..k + 1][..k] == claims[..k];
      assert claims[k] in claims;
      FillCloth(claims[k], cloth);
    }
    assert claims[..|claims|] == claims;
    overlaps := 0;
    for x := 0 to maxWidth
      invariant overlaps == Overlaps(claims, x, maxHeight)
    {
      var column := 0;
      for y := 0 to maxHeight
        invariant column == ColumnOverlaps(claims, x, y)
      {
        if cloth[x, y] > 1 {
          column := column + 1;
        }
      }
      overlaps := overlaps + column;
    }
  }

  /** No square of claim `i` is covered by any other claim. */
  ghost predicate Intact(claims: seq<Claim>, i: nat)
    requires i < |claims|
  {
    forall x, y :: Covers(claims[i], x, y) ==> Coverage(claims, x, y) <= 1
  }

  /**
   * `b`: the first claim none of whose squares has a count above one.
   * Squares are read from the cloth `a` filled in.
   */
  method B(claims: seq<Claim>, cloth: array2<int>) returns (r: Option<string>)
    requires Fits(claims, cloth.Length0, cloth.Length1) && Tallies(cloth, claims)
    ensures r.None? ==> forall i :: 0 <= i < |claims| ==> !Intact(claims, i)
    ensures r.Some? ==> exists i :: (0 <= i < |claims| && claims[i].id == r.value && Intact(claims, i) &&
      forall i' :: 0 <= i' < i ==> !Intact(claims, i'))
  {
    for k := 0 to |claims|
      invariant forall i' :: 0 <= i' < k ==> !Intact(claims, i')
    {
      var claim := claims[k];
      assert claim in claims;
      var overlap := 0;
      ghost var bad := (0, 0);
      for y := claim.y to claim.y + claim.height
        invariant overlap == 0 ==> forall x', y' :: Covers(claim, x', y') && y' < y ==> Coverage(claims, x', y') <= 1
        invariant overlap > 0 ==> Covers(claim, bad.0, bad.1) && Coverage(claims, bad.0, bad.1) > 1
      {
        for x := claim.x to claim.x + claim.width
          invariant overlap == 0 ==> forall x', y' :: Covers(claim, x', y') && (y' < y || (y' == y && x' < x)) ==>
            Coverage(claims, x', y') <= 1
          invariant overlap > 0 ==> Covers(claim, bad.0, bad.1) && Coverage(claims, bad.0, bad.1) > 1
        {
          assert cloth[x, y] == Coverage(claims, x, y);
          if cloth[x, y] > 1 {
            overlap := overlap + 1;
            bad := (x, y);
          }
        }
      }
      if overlap == 0 {
        return Some(claim.id);
      }
    }
    return None;
  }

  // ---------------------------------------------------------------------
  // What the counts mean
  // ---------------------------------------------------------------------

  /** Two distinct claims covering one square make its count at least two. */
  lemma {:induction false} CoverageAtLeast(claims: seq<Claim>, i: nat, j: nat, x: int, y: int)
    requires i < |claims| && j < |claims|
    requires Covers(claims[i], x, y) && Covers(claims[j], x, y)
    ensures Coverage(claims, x, y) >= (if i == j then 1 else 2)
    decreases |claims|
  {
    var n := |claims| - 1;
    var init := claims[..n];
    if i < n && j < n {
      CoverageAtLeast(init, i, j, x, y);
    } else if i < n {
      CoverageAtLeast(init, i, i, x, y);
    } else if j < n {
      CoverageAtLeast(init, j, j, x, y);
    }
  }

  /** A square's count exceeds one only if two distinct claims cover it. */
  lemma {:induction false} CoverageWitnesses(claims: seq<Claim>, x: int, y: int)
    requires Coverage(claims, x, y) >= 1
    ensures exists i :: 0 <= i < |claims| && Covers(claims[i], x, y)
    ensures Coverage(claims, x, y) >= 2 ==>
      exists i, j :: 0 <= i < j < |claims| && Covers(claims[i], x, y) && Covers(claims[j], x, y)
    decreases |claims|
  {
    var n := |claims| - 1;
    var init := claims[..n];
    if Coverage(init, x, y) >= 1 {
      CoverageWitnesses(init, x, y);
      var i :| 0 <= i < n && Covers(init[i], x, y);
      assert claims[i] == init[i];
      if Coverage(init, x, y) >= 2 {
        var i', j' :| 0 <= i' < j' < n && Covers(init[i'], x, y) && Covers(init[j'], x, y);
        assert claims[i'] == init[i'] && claims[j'] == init[j'];
      } else if Coverage(claims, x, y) >= 2 {
        assert Covers(claims[n], x, y);
      }
    } else {
      assert Covers(claims[n], x, y);
    }
  }

  /** A claim is intact exactly when it shares no square with any other claim. */
  lemma IntactIffDisjoint(claims: seq<Claim>, i: nat)
    requires i < |claims|
    ensures Intact(claims, i) <==>
      forall j, x, y :: 0 <= j < |claims| && j != i && Covers(claims[i], x, y) ==> !Covers(claims[j], x, y)
  {
    if Intact(claims, i) {
      forall j, x, y | 0 <= j < |claims| && j != i && Covers(claims[i], x, y)
        ensures !Covers(claims[j], x, y)
      {
        if Covers(claims[j], x, y) {
          CoverageAtLeast(claims, i, j, x, y);
        }
      }
    } else {
      var x, y :| Covers(claims[i], x, y) && Coverage(claims, x, y) > 1;
      CoverageWitnesses(claims, x, y);
      var a, b :| 0 <= a < b < |claims| && Covers(claims[a], x, y) && Covers(claims[b], x, y);
      var j := if a == i then b else a;
      assert j != i && Covers(claims[j], x, y);
    }
  }
}
