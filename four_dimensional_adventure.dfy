/**
 * Day 25, "Four-Dimensional Adventure": fixed points in four dimensions form
 * constellations, two points being linked when their Manhattan distance is at
 * most 3.  `a` adds the points one at a time: a point joins every
 * constellation it touches, and those constellations merge into the first
 * of them; a point that touches none starts a constellation of its own.
 */
module FourDimensionalAdventure {
  import opened Wrappers

  datatype Coordinate = Coordinate(x: int, y: int, z: int, w: int)

  type Constellation = seq<Coordinate>

  // ---------------------------------------------------------------------------
  // Distance

  /** `distance`: the Manhattan distance in four dimensions. */
  function Distance(a: Coordinate, b: Coordinate): nat
  {
    Abs(a.x - b.x) + Abs(a.y - b.y) + Abs(a.z - b.z) + Abs(a.w - b.w)
  }

  /** The distance is symmetric. */
  lemma DistanceSymmetric(a: Coordinate, b: Coordinate)
    ensures Distance(a, b) == Distance(b, a)
  {
  }

  /** The distance is zero exactly between equal points. */
  lemma DistanceZero(a: Coordinate, b: Coordinate)
    ensures Distance(a, b) == 0 <==> a == b
  {
  }

  /** Two points belong to one constellation when they are at most 3 apart. */
  predicate Near(a: Coordinate, b: Coordinate)
  {
    Distance(a, b) <= 3
  }

  lemma NearSymmetric(a: Coordinate, b: Coordinate)
    ensures Near(a, b) == Near(b, a)
  {
    DistanceSymmetric(a, b);
  }

  lemma NearSelf(a: Coordinate)
    ensures Near(a, a)
  {
    DistanceZero(a, a);
  }

  /** Some point of `c` is near `p`: what the inner loop of `a` looks for. */
  predicate Touches(c: Constellation, p: Coordinate)
  {
    exists k :: 0 <= k < |c| && Near(p, c[k])
  }

  // ---------------------------------------------------------------------------
  // One point joins the constellations

  predicate Increasing(s: seq<nat>)
  {
    forall i, j :: 0 <= i < j < |s| ==> s[i] < s[j]
  }

  /** An increasing list of indices from `lo` on has its `i`-th entry at least `lo + i`. */
  lemma {:induction false} IncreasingSpread(s: seq<nat>, lo: nat)
    requires Increasing(s) && forall i :: 0 <= i < |s| ==> lo <= s[i]
    ensures forall i :: 0 <= i < |s| ==> lo + i <= s[i]
  {
    if s != [] {
      var init := s[..|s| - 1];
      IncreasingSpread(init, lo);
      forall i | 0 <= i < |s|
        ensures lo + i <= s[i]
      {
        if i > 0 {
          assert init[i - 1] == s[i - 1] < s[i];
        }
      }
    }
  }

  /** The indices of the constellations among the first `n` that `p` touches: the `found` list of `a`. */
  function Found(cs: seq<Constellation>, p: Coordinate, n: nat): seq<nat>
    requires n <= |cs|
  {
    if n == 0 then []
    else Found(cs, p, n - 1) + (if Touches(cs[n - 1], p) then [n - 1] else [])
  }

  /** `found` lists, in increasing order, exactly the constellations among the first `n` that the point touches. */
  lemma {:induction false} FoundExact(cs: seq<Constellation>, p: Coordinate, n: nat)
    requires n <= |cs|
    ensures Increasing(Found(cs, p, n))
    ensures forall i :: 0 <= i < |Found(cs, p, n)| ==> Found(cs, p, n)[i] < n
    ensures forall k :: 0 <= k < n ==> (k in Found(cs, p, n) <==> Touches(cs[k], p))
  {
    if n > 0 {
      var prev := Found(cs, p, n - 1);
      var tail := if Touches(cs[n - 1], p) then [n - 1] else [];
      FoundExact(cs, p, n - 1);
      assert Found(cs, p, n) == prev + tail;
      forall k | 0 <= k < n
        ensures k in prev + tail <==> k in prev || k in tail
      {
      }
    }
  }

  /** The points of the constellations at `idx`, in that order. */
  function Gather(cs: seq<Constellation>, idx: seq<nat>): Constellation
    requires forall i :: 0 <= i < |idx| ==> idx[i] < |cs|
  {
    if idx == [] then []
    else Gather(cs, idx[..|idx| - 1]) + cs[idx[|idx| - 1]]
  }

  /** `Vec::remove`: the list without its element at `i`. */
  function RemoveAt(cs: seq<Constellation>, i: nat): (r: seq<Constellation>)
    requires i < |cs|
    ensures |r| == |cs| - 1
  {
    cs[..i] + cs[i + 1..]
  }

  /** The list after removing the elements at `idx`, the last index first. */
  function RemoveDesc(cs: seq<Constellation>, idx: seq<nat>): (r: seq<Constellation>)
    requires Increasing(idx) && forall i :: 0 <= i < |idx| ==> idx[i] < |cs|
    ensures |r| == |cs| - |idx|
  {
    if idx == [] then cs
    else
      var last := idx[|idx| - 1];
      RemoveDesc(RemoveAt(cs, last), idx[..|idx| - 1])
  }

  /** The merged constellation: the first one `p` touches, then `p`, then the other ones it touches. */
  function Merged(cs: seq<Constellation>, p: Coordinate, found: seq<nat>): Constellation
    requires |found| > 0 && forall i :: 0 <= i < |found| ==> found[i] < |cs|
  {
    cs[found[0]] + [p] + Gather(cs, found[1..])
  }

  /** The constellations after point `p` is added. */
  function Step(cs: seq<Constellation>, p: Coordinate): seq<Constellation>
  {
    var found := Found(cs, p, |cs|);
    FoundExact(cs, p, |cs|);
    if found == [] then cs + [[p]]
    else RemoveDesc(cs[found[0] := Merged(cs, p, found)], found[1..])
  }

  /** The constellations `a` builds from the points, in order. */
  function Constellations(ps: seq<Coordinate>): seq<Constellation>
  {
    if ps == [] then []
    else Step(Constellations(ps[..|ps| - 1]), ps[|ps| - 1])
  }

  // ---------------------------------------------------------------------------
  // What the constellations are

  /** All the points of the constellations, counted with multiplicity. */
  function Union(cs: seq<Constellation>): multiset<Coordinate>
  {
    if cs == [] then multiset{}
    else Union(cs[..|cs| - 1]) + multiset(cs[|cs| - 1])
  }

  /** No point of `a` is near a point of `b`. */
  predicate Apart(a: Constellation, b: Constellation)
  {
    forall x, y :: x in a && y in b ==> !Near(x, y)
  }

  /** Different constellations are apart. */
  predicate Separated(cs: seq<Constellation>)
  {
    forall i, j :: 0 <= i < |cs| && 0 <= j < |cs| && i != j ==> Apart(cs[i], cs[j])
  }

  predicate NonEmpty(cs: seq<Constellation>)
  {
    forall i :: 0 <= i < |cs| ==> |cs[i]| > 0
  }

  // ---------------------------------------------------------------------------
  // Connectedness

  /** `ch` walks through points of `c`, each step to a point at most 3 away. */
  ghost predicate Chain(c: Constellation, ch: seq<Coordinate>)
  {
    |ch| > 0 && (forall i :: 0 <= i < |ch| ==> ch[i] in c) &&
    forall i :: 0 <= i < |ch| - 1 ==> Near(ch[i], ch[i + 1])
  }

  /** Some chain inside `c` leads from `x` to `y`. */
  ghost predicate Linked(c: Constellation, x: Coordinate, y: Coordinate)
  {
    exists ch :: Chain(c, ch) && ch[0] == x && ch[|ch| - 1] == y
  }

  /** Any two points of `c` are linked inside it: `c` is one constellation, not several. */
  ghost predicate Connected(c: Constellation)
  {
    forall x, y :: x in c && y in c ==> Linked(c, x, y)
  }

  ghost predicate AllConnected(cs: seq<Constellation>)
  {
    forall i :: 0 <= i < |cs| ==> Connected(cs[i])
  }

  lemma LinkedSelf(c: Constellation, x: Coordinate)
    requires x in c
    ensures Linked(c, x, x)
  {
    assert Chain(c, [x]);
  }

  lemma LinkedNear(c: Constellation, x: Coordinate, y: Coordinate)
    requires x in c && y in c && Near(x, y)
    ensures Linked(c, x, y)
  {
    assert Chain(c, [x, y]);
  }

  /** A chain walked backwards links its ends the other way. */
  lemma LinkedSymmetric(c: Constellation, x: Coordinate, y: Coordinate)
    requires Linked(c, x, y)
    ensures Linked(c, y, x)
  {
    var ch :| Chain(c, ch) && ch[0] == x && ch[|ch| - 1] == y;
    var n := |ch|;
    var r := seq(n, i requires 0 <= i < n => ch[n - 1 - i]);
    forall i | 0 <= i < n - 1
      ensures Near(r[i], r[i + 1])
    {
      NearSymmetric(ch[n - 2 - i], ch[n - 1 - i]);
    }
    assert Chain(c, r) && r[0] == y && r[n - 1] == x;
  }

  /** Two chains meeting at `y` make one. */
  lemma LinkedTrans(c: Constellation, x: Coordinate, y: Coordinate, z: Coordinate)
    requires Linked(c, x, y) && Linked(c, y, z)
    ensures Linked(c, x, z)
  {
    var a :| Chain(c, a) && a[0] == x && a[|a| - 1] == y;
    var b :| Chain(c, b) && b[0] == y && b[|b| - 1] == z;
    var ab := a + b;
    NearSelf(y);
    forall i | 0 <= i < |ab| - 1
      ensures Near(ab[i], ab[i + 1])
    {
      if i < |a| - 1 {
        assert ab[i] == a[i] && ab[i + 1] == a[i + 1];
      } else if i >= |a| {
        assert ab[i] == b[i - |a|] && ab[i + 1] == b[i - |a| + 1];
      }
    }
    assert Chain(c, ab) && ab[0] == x && ab[|ab| - 1] == z;
  }

  /** A chain inside `c` is one inside any constellation holding the points of `c`. */
  lemma LinkedWiden(c: Constellation, d: Constellation, x: Coordinate, y: Coordinate)
    requires Linked(c, x, y) && forall z :: z in c ==> z in d
    ensures Linked(d, x, y)
  {
    var ch :| Chain(c, ch) && ch[0] == x && ch[|ch| - 1] == y;
    assert Chain(d, ch);
  }

  /** A constellation all of whose points are linked to one point `h` is connected. */
  lemma HubConnected(c: Constellation, h: Coordinate)
    requires forall x :: x in c ==> Linked(c, x, h)
    ensures Connected(c)
  {
    forall x, y | x in c && y in c
      ensures Linked(c, x, y)
    {
      LinkedSymmetric(c, y, h);
      LinkedTrans(c, x, h, y);
    }
  }

  /** The points of the constellation at `idx[t]` are gathered. */
  lemma {:induction false} GatherHolds(cs: seq<Constellation>, idx: seq<nat>, t: nat, x: Coordinate)
    requires forall i :: 0 <= i < |idx| ==> idx[i] < |cs|
    requires t < |idx| && x in cs[idx[t]]
    ensures x in Gather(cs, idx)
  {
    var init := idx[..|idx| - 1];
    if t < |idx| - 1 {
      assert init[t] == idx[t];
      GatherHolds(cs, init, t, x);
    }
  }

  /**
   * Merging connected constellations that the point touches, with the
   * point, gives a connected constellation: every merged point is linked
   * through its own constellation to a point near `p`.
   */
  lemma MergedConnected(cs: seq<Constellation>, p: Coordinate, found: seq<nat>)
    requires AllConnected(cs)
    requires |found| > 0 && forall i :: 0 <= i < |found| ==> found[i] < |cs| && Touches(cs[found[i]], p)
    ensures Connected(Merged(cs, p, found))
  {
    var m := Merged(cs, p, found);
    var rest := found[1..];
    forall x | x in m
      ensures Linked(m, x, p)
    {
      if x == p {
        LinkedSelf(m, p);
      } else {
        var k: nat;
        if x in cs[found[0]] {
          k := found[0];
        } else {
          assert x in Gather(cs, rest);
          GatherMembers(cs, rest, x);
          var t :| 0 <= t < |rest| && x in cs[rest[t]];
          k := rest[t];
          assert k == found[t + 1];
          forall z | z in cs[k]
            ensures z in m
          {
            GatherHolds(cs, rest, t, z);
          }
        }
        assert Touches(cs[k], p) && Connected(cs[k]);
        var j :| 0 <= j < |cs[k]| && Near(p, cs[k][j]);
        var q := cs[k][j];
        LinkedWiden(cs[k], m, x, q);
        NearSymmetric(p, q);
        LinkedNear(m, q, p);
        LinkedTrans(m, x, q, p);
      }
    }
    HubConnected(m, p);
  }

  /** A point that touches nothing adds a constellation of one point, which is connected. */
  lemma NewConnected(cs: seq<Constellation>, p: Coordinate)
    requires AllConnected(cs)
    ensures AllConnected(cs + [[p]])
  {
    forall x | x in [p]
      ensures Linked([p], x, p)
    {
      LinkedSelf([p], p);
    }
    HubConnected([p], p);
  }

  /** A point that touches some connected constellations merges them into a connected one. */
  lemma MergeConnected(cs: seq<Constellation>, p: Coordinate, found: seq<nat>)
    requires AllConnected(cs)
    requires found == Found(cs, p, |cs|) && found != []
    ensures AllConnected(Step(cs, p))
  {
    FoundExact(cs, p, |cs|);
    var main := found[0];
    var rest := found[1..];
    var m := Merged(cs, p, found);
    var kept := RemoveDesc(cs, rest);
    RemoveDescBelow(cs, rest, main, m);
    assert Step(cs, p) == kept[main := m];
    RemoveDescKeeps(cs, rest);
    forall i | 0 <= i < |found|
      ensures Touches(cs[found[i]], p)
    {
      assert found[i] in found;
    }
    MergedConnected(cs, p, found);
    forall i | 0 <= i < |kept| && i != main
      ensures Connected(kept[i])
    {
      assert kept[i] in kept;
      var k :| 0 <= k < |cs| && k !in rest && cs[k] == kept[i];
    }
  }

  /**
   * The constellations partition the points into the linked groups: every
   * point is in exactly as many constellations as it occurs in the input,
   * no constellation is empty, two points at most 3 apart never end in
   * different constellations, and any two points of one constellation are
   * joined by a chain of points at most 3 apart inside it.
   */
  lemma {:induction false} ConstellationsPartition(ps: seq<Coordinate>)
    ensures Union(Constellations(ps)) == multiset(ps)
    ensures NonEmpty(Constellations(ps))
    ensures Separated(Constellations(ps))
    ensures AllConnected(Constellations(ps))
  {
    if ps != [] {
      var init := ps[..|ps| - 1];
      ConstellationsPartition(init);
      StepKeeps(Constellations(init), ps[|ps| - 1]);
      MultisetLast(ps);
    }
  }

  lemma MultisetLast(ps: seq<Coordinate>)
    requires ps != []
    ensures multiset(ps) == multiset(ps[..|ps| - 1]) + multiset{ps[|ps| - 1]}
  {
    assert ps == ps[..|ps| - 1] + [ps[|ps| - 1]];
  }

  /** Adding a point adds it to the union and keeps the constellations non-empty and apart. */
  lemma StepKeeps(cs: seq<Constellation>, p: Coordinate)
    requires NonEmpty(cs) && Separated(cs)
    ensures Union(Step(cs, p)) == Union(cs) + multiset{p}
    ensures NonEmpty(Step(cs, p))
    ensures Separated(Step(cs, p))
    ensures AllConnected(cs) ==> AllConnected(Step(cs, p))
  {
    var found := Found(cs, p, |cs|);
    FoundExact(cs, p, |cs|);
    if found == [] {
      NewKeeps(cs, p);
      if AllConnected(cs) {
        NewConnected(cs, p);
      }
    } else {
      MergeKeeps(cs, p, found);
      if AllConnected(cs) {
        MergeConnected(cs, p, found);
      }
    }
  }

  /** A point that touches nothing starts a constellation of its own. */
  lemma NewKeeps(cs: seq<Constellation>, p: Coordinate)
    requires NonEmpty(cs) && Separated(cs)
    requires forall k :: 0 <= k < |cs| ==> !Touches(cs[k], p)
    ensures Union(cs + [[p]]) == Union(cs) + multiset{p}
    ensures NonEmpty(cs + [[p]]) && Separated(cs + [[p]])
  {
    var r := cs + [[p]];
    assert r[..|r| - 1] == cs;
    forall k | 0 <= k < |cs|
      ensures Apart(cs[k], [p]) && Apart([p], cs[k])
    {
      forall y | y in cs[k]
        ensures !Near(y, p) && !Near(p, y)
      {
        NearSymmetric(y, p);
      }
    }
  }

  /** A point that touches some constellations merges them into the first. */
  lemma MergeKeeps(cs: seq<Constellation>, p: Coordinate, found: seq<nat>)
    requires NonEmpty(cs) && Separated(cs)
    requires found == Found(cs, p, |cs|) && found != []
    ensures Union(Step(cs, p)) == Union(cs) + multiset{p}
    ensures NonEmpty(Step(cs, p))
    ensures Separated(Step(cs, p))
  {
    FoundExact(cs, p, |cs|);
    var main := found[0];
    var rest := found[1..];
    var m := Merged(cs, p, found);
    var kept := RemoveDesc(cs, rest);
    RemoveDescBelow(cs, rest, main, m);
    assert Step(cs, p) == kept[main := m];
    MergeUnion(cs, p, found, kept);
    RemoveDescKeeps(cs, rest);
    MergedApart(cs, p, found, kept);
  }

  /** Merging takes the gathered constellations' points into the first one, and adds the point. */
  lemma MergeUnion(cs: seq<Constellation>, p: Coordinate, found: seq<nat>, kept: seq<Constellation>)
    requires found != [] && Increasing(found) && forall i :: 0 <= i < |found| ==> found[i] < |cs|
    requires kept == RemoveDesc(cs, found[1..])
    requires found[0] < |kept| && kept[found[0]] == cs[found[0]]
    ensures Union(kept[found[0] := Merged(cs, p, found)]) == Union(cs) + multiset{p}
  {
    var main := found[0];
    var m := Merged(cs, p, found);
    var g := Gather(cs, found[1..]);
    RemoveDescUnion(cs, found[1..]);
    UnionUpdate(kept, main, m);
    var u := Union(kept[main := m]);
    forall x
      ensures u[x] == (Union(cs) + multiset{p})[x]
    {
      assert (u + multiset(cs[main]))[x] == (Union(kept) + multiset(m))[x];
      assert (Union(kept) + multiset(g))[x] == Union(cs)[x];
      assert multiset(m)[x] == (multiset(cs[main]) + multiset{p} + multiset(g))[x];
    }
    assert u == Union(cs) + multiset{p};
  }

  /** The merged constellation is apart from every constellation that stays. */
  lemma MergedApart(cs: seq<Constellation>, p: Coordinate, found: seq<nat>, kept: seq<Constellation>)
    requires NonEmpty(cs) && Separated(cs)
    requires found == Found(cs, p, |cs|) && found != []
    requires Increasing(found) && forall i :: 0 <= i < |found| ==> found[i] < |cs|
    requires forall k :: 0 <= k < |cs| ==> (k in found <==> Touches(cs[k], p))
    requires |kept| > found[0] && kept[found[0]] == cs[found[0]]
    requires NonEmpty(kept) && Separated(kept)
    requires forall c | c in kept :: exists k :: 0 <= k < |cs| && k !in found[1..] && cs[k] == c
    ensures Separated(kept[found[0] := Merged(cs, p, found)])
    ensures NonEmpty(kept[found[0] := Merged(cs, p, found)])
  {
    var main := found[0];
    var m := Merged(cs, p, found);
    var r := kept[main := m];
    forall j | 0 <= j < |kept| && j != main
      ensures Apart(m, kept[j]) && Apart(kept[j], m)
    {
      assert kept[j] in kept;
      var k :| 0 <= k < |cs| && k !in found[1..] && cs[k] == kept[j];
      assert k != main by {
        var x := kept[main][0];
        assert x in kept[main];
        NearSelf(x);
        assert x !in kept[j];
      }
      assert k !in found by {
        assert found == [main] + found[1..];
      }
      UntouchedApart(cs, p, found, k);
    }
    forall i, j | 0 <= i < |r| && 0 <= j < |r| && i != j
      ensures Apart(r[i], r[j])
    {
      if i != main && j != main {
        assert r[i] == kept[i] && r[j] == kept[j];
      }
    }
  }

  /** A constellation the point does not touch is apart from the merged one. */
  lemma UntouchedApart(cs: seq<Constellation>, p: Coordinate, found: seq<nat>, k: nat)
    requires Separated(cs) && found != [] && forall i :: 0 <= i < |found| ==> found[i] < |cs|
    requires k < |cs| && k !in found && !Touches(cs[k], p)
    ensures Apart(Merged(cs, p, found), cs[k]) && Apart(cs[k], Merged(cs, p, found))
  {
    var main := found[0];
    assert main in found;
    forall x, y | x in Merged(cs, p, found) && y in cs[k]
      ensures !Near(x, y) && !Near(y, x)
    {
      NearSymmetric(x, y);
      if x in cs[main] {
      } else if x == p {
        var i :| 0 <= i < |cs[k]| && cs[k][i] == y;
      } else {
        assert x in Gather(cs, found[1..]);
        GatherMembers(cs, found[1..], x);
        var t :| 0 <= t < |found[1..]| && x in cs[found[1..][t]];
        assert found[1..][t] in found;
      }
    }
  }

  /** A point gathered from the constellations at `idx` comes from one of them. */
  lemma {:induction false} GatherMembers(cs: seq<Constellation>, idx: seq<nat>, x: Coordinate)
    requires forall i :: 0 <= i < |idx| ==> idx[i] < |cs|
    requires x in Gather(cs, idx)
    ensures exists t :: 0 <= t < |idx| && x in cs[idx[t]]
  {
    var init := idx[..|idx| - 1];
    if x !in cs[idx[|idx| - 1]] {
      GatherMembers(cs, init, x);
      var t :| 0 <= t < |init| && x in cs[init[t]];
      assert idx[t] == init[t];
    }
  }

  // ---------------------------------------------------------------------------
  // Removing the merged constellations

  /** Removing one element takes exactly its points out of the union. */
  lemma {:induction false} RemoveAtUnion(cs: seq<Constellation>, i: nat)
    requires i < |cs|
    ensures Union(RemoveAt(cs, i)) + multiset(cs[i]) == Union(cs)
    decreases |cs|
  {
    var n := |cs| - 1;
    if i < n {
      var r := RemoveAt(cs, i);
      var r' := RemoveAt(cs[..n], i);
      RemoveAtUnion(cs[..n], i);
      assert r[..n - 1] == r' && r[n - 1] == cs[n];
      assert Union(r) == Union(r') + multiset(cs[n]);
      assert Union(cs) == Union(cs[..n]) + multiset(cs[n]);
      forall x
        ensures (Union(r) + multiset(cs[i]))[x] == Union(cs)[x]
      {
        assert (Union(r') + multiset(cs[..n][i]))[x] == Union(cs[..n])[x];
      }
    } else {
      assert RemoveAt(cs, i) == cs[..n];
    }
  }

  /** Removing the elements at `idx` takes exactly the gathered points out of the union. */
  lemma {:induction false} RemoveDescUnion(cs: seq<Constellation>, idx: seq<nat>)
    requires Increasing(idx) && forall i :: 0 <= i < |idx| ==> idx[i] < |cs|
    ensures Union(RemoveDesc(cs, idx)) + multiset(Gather(cs, idx)) == Union(cs)
  {
    if idx != [] {
      var last := idx[|idx| - 1];
      var init := idx[..|idx| - 1];
      var cs' := RemoveAt(cs, last);
      RemoveDescUnion(cs', init);
      RemoveAtUnion(cs, last);
      GatherBelow(cs, init, last);
    }
  }

  /** Gathering below an index that is removed sees the same elements. */
  lemma {:induction false} GatherBelow(cs: seq<Constellation>, idx: seq<nat>, last: nat)
    requires last < |cs| && forall i :: 0 <= i < |idx| ==> idx[i] < last
    ensures Gather(RemoveAt(cs, last), idx) == Gather(cs, idx)
  {
    if idx != [] {
      GatherBelow(cs, idx[..|idx| - 1], last);
    }
  }

  /** Removing elements after `main` leaves `main` where it was, and commutes with replacing it. */
  lemma {:induction false} RemoveDescBelow(cs: seq<Constellation>, idx: seq<nat>, main: nat, m: Constellation)
    requires main < |cs| && Increasing(idx) && forall i :: 0 <= i < |idx| ==> main < idx[i] < |cs|
    ensures main < |RemoveDesc(cs, idx)|
    ensures RemoveDesc(cs, idx)[..main] == cs[..main] && RemoveDesc(cs, idx)[main] == cs[main]
    ensures RemoveDesc(cs[main := m], idx) == RemoveDesc(cs, idx)[main := m]
  {
    if idx != [] {
      var last := idx[|idx| - 1];
      var cs' := RemoveAt(cs, last);
      assert cs'[..main] == cs[..main] && cs'[main] == cs[main];
      assert RemoveAt(cs[main := m], last) == cs'[main := m];
      RemoveDescBelow(cs', idx[..|idx| - 1], main, m);
    }
  }

  /**
   * Removing the elements at `idx` keeps the rest non-empty and apart, and
   * each remaining element is one that was not removed.
   */
  lemma {:induction false} RemoveDescKeeps(cs: seq<Constellation>, idx: seq<nat>)
    requires Increasing(idx) && forall i :: 0 <= i < |idx| ==> idx[i] < |cs|
    ensures NonEmpty(cs) ==> NonEmpty(RemoveDesc(cs, idx))
    ensures Separated(cs) ==> Separated(RemoveDesc(cs, idx))
    ensures forall c | c in RemoveDesc(cs, idx) :: exists k :: 0 <= k < |cs| && k !in idx && cs[k] == c
  {
    if idx != [] {
      var last := idx[|idx| - 1];
      var init := idx[..|idx| - 1];
      var cs' := RemoveAt(cs, last);
      RemoveDescKeeps(cs', init);
      RemoveAtKeeps(cs, last);
      forall c | c in RemoveDesc(cs, idx)
        ensures exists k :: 0 <= k < |cs| && k !in idx && cs[k] == c
      {
        var k' :| 0 <= k' < |cs'| && k' !in init && cs'[k'] == c;
        var k := if k' < last then k' else k' + 1;
        assert cs[k] == c;
        assert idx == init + [last];
        if k' >= last {
          forall t | 0 <= t < |init|
            ensures init[t] < k
          {
            assert init[t] == idx[t];
          }
        }
      }
    }
  }

  /** Removing one element keeps the rest non-empty and apart. */
  lemma RemoveAtKeeps(cs: seq<Constellation>, i: nat)
    requires i < |cs|
    ensures NonEmpty(cs) ==> NonEmpty(RemoveAt(cs, i))
    ensures Separated(cs) ==> Separated(RemoveAt(cs, i))
    ensures forall k :: 0 <= k < |cs| - 1 ==> RemoveAt(cs, i)[k] == cs[if k < i then k else k + 1]
  {
  }

  /** Replacing an element replaces its points in the union. */
  lemma {:induction false} UnionUpdate(cs: seq<Constellation>, i: nat, c: Constellation)
    requires i < |cs|
    ensures Union(cs[i := c]) + multiset(cs[i]) == Union(cs) + multiset(c)
  {
    var n := |cs| - 1;
    if i < n {
      UnionUpdate(cs[..n], i, c);
      assert cs[i := c][..n] == cs[..n][i := c];
      assert cs[i := c][n] == cs[n] && cs[..n][i] == cs[i];
      assert Union(cs[i := c]) == Union(cs[..n][i := c]) + multiset(cs[n]);
      assert Union(cs) == Union(cs[..n]) + multiset(cs[n]);
      forall x
        ensures (Union(cs[i := c]) + multiset(cs[i]))[x] == (Union(cs) + multiset(c))[x]
      {
        assert (Union(cs[..n][i := c]) + multiset(cs[i]))[x] == (Union(cs[..n]) + multiset(c))[x];
      }
    } else {
      assert cs[i := c][..n] == cs[..n];
    }
  }

  // ---------------------------------------------------------------------------
  // The shape of one step

  /** A point that touches nothing is appended as a constellation of its own. */
  lemma StepNew(cs: seq<Constellation>, p: Coordinate)
    requires forall k :: 0 <= k < |cs| ==> !Touches(cs[k], p)
    ensures Step(cs, p) == cs + [[p]]
  {
    FoundNone(cs, p, |cs|);
  }

  lemma {:induction false} FoundNone(cs: seq<Constellation>, p: Coordinate, n: nat)
    requires n <= |cs| && forall k :: 0 <= k < n ==> !Touches(cs[k], p)
    ensures Found(cs, p, n) == []
  {
    if n > 0 {
      FoundNone(cs, p, n - 1);
    }
  }

  /**
   * A point whose first touched constellation is at `main` merges into it:
   * every constellation before it stays, the one at `main` gains the point
   * and then the points of the other constellations the point touches, and
   * those are removed.
   */
  lemma StepMerges(cs: seq<Constellation>, p: Coordinate, main: nat)
    requires main < |cs| && Touches(cs[main], p)
    requires forall k :: 0 <= k < main ==> !Touches(cs[k], p)
    ensures Found(cs, p, |cs|) != [] && Found(cs, p, |cs|)[0] == main
    ensures forall i :: 0 <= i < |Found(cs, p, |cs|)| ==> main <= Found(cs, p, |cs|)[i] < |cs|
    ensures |Step(cs, p)| == |cs| + 1 - |Found(cs, p, |cs|)| > main
    ensures Step(cs, p)[..main] == cs[..main]
    ensures Step(cs, p)[main] == cs[main] + [p] + Gather(cs, Found(cs, p, |cs|)[1..])
  {
    var found := Found(cs, p, |cs|);
    FoundExact(cs, p, |cs|);
    assert main in found;
    forall i | 0 <= i < |found|
      ensures main <= found[i]
    {
      assert found[i] in found;
    }
    assert found[0] in found;
    var rest := found[1..];
    RemoveDescBelow(cs, rest, main, Merged(cs, p, found));
  }

  // ---------------------------------------------------------------------------
  // Methods

  /** `a`: adds the points in order and answers the constellations. */
  method A(coordinates: seq<Coordinate>) returns (constellations: seq<Constellation>)
    ensures constellations == Constellations(coordinates)
  {
    constellations := [];
    for n := 0 to |coordinates|
      invariant constellations == Constellations(coordinates[..n])
    {
      assert coordinates[..n + 1][..n] == coordinates[..n];
      constellations := AddCoordinate(constellations, coordinates[n]);
    }
    assert coordinates[..|coordinates|] == coordinates;
  }

  /** One pass of `a`'s loop: find the constellations the point touches, then merge or start a new one. */
  method AddCoordinate(cs: seq<Constellation>, coordinate: Coordinate) returns (r: seq<Constellation>)
    ensures r == Step(cs, coordinate)
  {
    var found := FindTouching(cs, coordinate);
    FoundExact(cs, coordinate, |cs|);
    if |found| > 0 {
      var closest := MergeInto(cs, coordinate, found);
      r := DropMerged(cs[found[0] := closest], found);
    } else {
      r := cs + [[coordinate]];
    }
  }

  /** The merge loop of `a`: the first constellation found takes the point, then the other constellations found. */
  method MergeInto(cs: seq<Constellation>, coordinate: Coordinate, found: seq<nat>) returns (closest: Constellation)
    requires |found| > 0 && forall i :: 0 <= i < |found| ==> found[i] < |cs|
    ensures closest == Merged(cs, coordinate, found)
  {
    closest := cs[found[0]] + [coordinate];
    for i := 1 to |found|
      invariant closest == cs[found[0]] + [coordinate] + Gather(cs, found[1..i])
    {
      assert found[1..i + 1][..i - 1] == found[1..i];
      closest := closest + cs[found[i]];
    }
    assert found[1..|found|] == found[1..];
  }

  /** The removal loop of `a`: the constellations merged away are removed, the last one first. */
  method DropMerged(cs: seq<Constellation>, found: seq<nat>) returns (r: seq<Constellation>)
    requires |found| > 0 && Increasing(found) && forall i :: 0 <= i < |found| ==> found[i] < |cs|
    ensures r == RemoveDesc(cs, found[1..])
  {
    r := cs;
    assert found[1..|found|] == found[1..];
    for i := |found| downto 1
      invariant forall t :: 1 <= t < i ==> found[t] < |r|
      invariant RemoveDesc(r, found[1..i]) == RemoveDesc(cs, found[1..])
    {
      assert found[1..i + 1][..i - 1] == found[1..i];
      r := RemoveAt(r, found[i]);
    }
  }

  /** The search loops of `a`: each constellation with a point near the new one is listed once. */
  method FindTouching(cs: seq<Constellation>, coordinate: Coordinate) returns (found: seq<nat>)
    ensures found == Found(cs, coordinate, |cs|)
  {
    found := [];
    for i := 0 to |cs|
      invariant found == Found(cs, coordinate, i)
    {
      for k := 0 to |cs[i]|
        invariant found == Found(cs, coordinate, i)
        invariant forall j :: 0 <= j < k ==> !Near(coordinate, cs[i][j])
      {
        if Distance(coordinate, cs[i][k]) <= 3 {
          found := found + [i];
          break;
        }
      }
    }
  }
}
