/**
 * Day 24, "Immune System Simulator 20XX": the immune system and an infection,
 * each a list of unit groups, fight in rounds.  Each round every group picks
 * a target (in order of effective power, then initiative), then every group
 * attacks its target (in order of initiative); a round in which nobody dies
 * is a stalemate.  Part b searches for the smallest boost to the immune
 * system's attack damage that lets it win.
 */
module ImmuneSystemSimulator {
  import opened Wrappers
  import opened Arithmetic

  datatype DamageType = Fire | Slashing | Bludgeoning | Cold | Radiation

  datatype Army = Immune | Infection

  /** One group of identical units; `target` is the `id` of the enemy group it chose this round. */
  datatype Group = Group(
    army: Army,
    id: nat,
    units: int,
    hitPoints: int,
    weaknesses: seq<DamageType>,
    immunities: seq<DamageType>,
    attackDamage: int,
    attackType: DamageType,
    initiative: int,
    target: Option<nat>)

  /** `isize::min_value()`, the starting best damage of the target search. */
  const IsizeMin: int := -0x8000_0000_0000_0000

  /** What the input can hold: positive hit points (they divide), no negative counts or damage. */
  predicate Sound(g: Group)
  {
    g.hitPoints > 0 && g.units >= 0 && g.attackDamage >= 0
  }

  predicate Valid(gs: seq<Group>)
  {
    forall g | g in gs :: Sound(g)
  }

  function Opponent(a: Army): Army
  {
    if a == Immune then Infection else Immune
  }

  // ---------------------------------------------------------------------------
  // Damage

  function EffectivePower(g: Group): int
  {
    g.units * g.attackDamage
  }

  function DamageTo(g: Group, other: Group): int
  {
    if g.attackType in other.immunities then 0
    else if g.attackType in other.weaknesses then EffectivePower(g) * 2
    else EffectivePower(g)
  }

  /** Only whole units die: each costs a full group's hit points, and no more units die than there are. */
  function UnitsLost(g: Group, damage: int): int
    requires g.hitPoints > 0
  {
    Min(Quot(damage, g.hitPoints), g.units)
  }

  /**
   * The damage a sound group deals is never negative and at most twice its
   * effective power; a group with units and attack damage hurts a target
   * exactly when the target is not immune to its attack type, and then
   * twice as much when the target is weak to it.
   */
  lemma DamageBounds(g: Group, other: Group)
    requires Sound(g)
    ensures 0 <= DamageTo(g, other) <= 2 * EffectivePower(g)
    ensures EffectivePower(g) > 0 ==> (DamageTo(g, other) > 0 <==> g.attackType !in other.immunities)
    ensures g.attackType !in other.immunities && g.attackType in other.weaknesses ==>
      DamageTo(g, other) == 2 * EffectivePower(g)
  {
    assert EffectivePower(g) >= 0 by {
      MulNonNegative(g.units, g.attackDamage);
    }
  }

  lemma MulNonNegative(a: int, b: int)
    requires a >= 0 && b >= 0
    ensures a * b >= 0
  {
  }

  /**
   * The units a group loses to a non-negative damage lie between none and all
   * of its units; together they take no more hit points than the damage, and
   * unless the whole group dies the damage does not cover one more unit.
   */
  lemma UnitsLostBounds(g: Group, damage: int)
    requires Sound(g) && damage >= 0
    ensures 0 <= UnitsLost(g, damage) <= g.units
    ensures UnitsLost(g, damage) * g.hitPoints <= damage
    ensures UnitsLost(g, damage) < g.units ==> damage < (UnitsLost(g, damage) + 1) * g.hitPoints
  {
    var q := damage / g.hitPoints;
    assert Quot(damage, g.hitPoints) == q;
    DivBounds(damage, g.hitPoints);
    var lost := UnitsLost(g, damage);
    assert lost == if q < g.units then q else g.units;
    MulMonotone(lost, q, g.hitPoints);
  }

  lemma DivBounds(a: nat, b: int)
    requires b > 0
    ensures (a / b) * b <= a < (a / b + 1) * b
  {
  }

  lemma MulMonotone(a: int, b: int, c: int)
    requires a <= b && c >= 0
    ensures a * c <= b * c
  {
  }

  // ---------------------------------------------------------------------------
  // Orders

  /** `effective_initiative_order`: effective power first, initiative to break ties. */
  function EffectiveInitiativeOrder(g: Group, other: Group): Ordering
  {
    CmpInt(EffectivePower(g), EffectivePower(other)).Then(CmpInt(g.initiative, other.initiative))
  }

  datatype Phase = Targeting | Attacking

  /** The comparator each phase sorts by: `target_order` and `attack_order`, both reversed. */
  function Compare(p: Phase, g: Group, other: Group): Ordering
  {
    match p
    case Targeting => EffectiveInitiativeOrder(g, other).Reverse()
    case Attacking => CmpInt(g.initiative, other.initiative).Reverse()
  }

  /** The key each phase sorts on, most significant first. */
  function Major(p: Phase, g: Group): int
  {
    if p == Targeting then EffectivePower(g) else g.initiative
  }

  function Minor(p: Phase, g: Group): int
  {
    if p == Targeting then g.initiative else 0
  }

  /** `g` has the larger key in phase `p`. */
  predicate Outranks(p: Phase, g: Group, other: Group)
  {
    Major(p, g) > Major(p, other) || (Major(p, g) == Major(p, other) && Minor(p, g) > Minor(p, other))
  }

  /**
   * Both comparators sort in descending order: a group comes first exactly
   * when it has more effective power, or as much and a higher initiative,
   * when targeting, and a higher initiative when attacking; `Equal` means
   * equal keys.
   */
  lemma CompareDescending(p: Phase, g: Group, other: Group)
    ensures Compare(p, g, other) == Less <==> Outranks(p, g, other)
    ensures Compare(p, g, other) == Greater <==> Outranks(p, other, g)
    ensures Compare(p, g, other) == Equal <==> Major(p, g) == Major(p, other) && Minor(p, g) == Minor(p, other)
    ensures EffectiveInitiativeOrder(g, other) == Greater <==> Outranks(Targeting, g, other)
  {
  }

  // ---------------------------------------------------------------------------
  // Sorting (`sort_unstable_by`)

  function Insert(p: Phase, g: Group, s: seq<Group>): seq<Group>
  {
    if s == [] || Compare(p, g, s[0]) == Less then [g] + s
    else [s[0]] + Insert(p, g, s[1..])
  }

  function SortBy(p: Phase, s: seq<Group>): seq<Group>
  {
    if s == [] then [] else Insert(p, s[0], SortBy(p, s[1..]))
  }

  /** No group is outranked by a group after it. */
  predicate Sorted(p: Phase, s: seq<Group>)
  {
    forall i, j :: 0 <= i < j < |s| ==> !Outranks(p, s[j], s[i])
  }

  /** Inserting adds exactly one occurrence of the group and its units. */
  lemma {:induction false} InsertPermutes(p: Phase, g: Group, s: seq<Group>)
    ensures multiset(Insert(p, g, s)) == multiset(s) + multiset{g}
    ensures SumUnits(Insert(p, g, s)) == g.units + SumUnits(s)
  {
    if s != [] && Compare(p, g, s[0]) != Less {
      InsertPermutes(p, g, s[1..]);
      assert s == [s[0]] + s[1..];
      assert Insert(p, g, s)[1..] == Insert(p, g, s[1..]);
    } else {
      assert Insert(p, g, s)[1..] == s;
    }
  }

  lemma {:induction false} InsertSorted(p: Phase, g: Group, s: seq<Group>)
    requires Sorted(p, s)
    ensures Sorted(p, Insert(p, g, s))
    decreases |s|, 1
  {
    if s == [] {
    } else if Compare(p, g, s[0]) == Less {
      CompareDescending(p, g, s[0]);
      var r := [g] + s;
      forall i, j | 0 <= i < j < |r|
        ensures !Outranks(p, r[j], r[i])
      {
        if i == 0 {
          assert r[j] == s[j - 1];
          if j > 1 {
            assert !Outranks(p, s[j - 1], s[0]);
          }
        } else {
          assert r[i] == s[i - 1] && r[j] == s[j - 1];
        }
      }
    } else {
      CompareDescending(p, g, s[0]);
      InsertFront(p, g, s);
    }
  }

  /** Inserting past the first group keeps it first, and it outranks what follows. */
  lemma {:induction false} InsertFront(p: Phase, g: Group, s: seq<Group>)
    requires Sorted(p, s) && s != [] && !Outranks(p, g, s[0])
    requires Compare(p, g, s[0]) != Less
    ensures Sorted(p, Insert(p, g, s))
    decreases |s|, 0
  {
    SortedTail(p, s);
    InsertSorted(p, g, s[1..]);
    InsertBelowHead(p, g, s);
    SortedCons(p, s[0], Insert(p, g, s[1..]));
  }

  lemma SortedTail(p: Phase, s: seq<Group>)
    requires Sorted(p, s) && s != []
    ensures Sorted(p, s[1..])
  {
    forall i, j | 0 <= i < j < |s| - 1
      ensures !Outranks(p, s[1..][j], s[1..][i])
    {
      assert s[1..][j] == s[j + 1] && s[1..][i] == s[i + 1];
    }
  }

  /** Nothing inserted behind the first group of a sorted list outranks it, if the new group does not. */
  lemma InsertBelowHead(p: Phase, g: Group, s: seq<Group>)
    requires Sorted(p, s) && s != [] && !Outranks(p, g, s[0])
    ensures forall j :: 0 <= j < |Insert(p, g, s[1..])| ==> !Outranks(p, Insert(p, g, s[1..])[j], s[0])
  {
    var rest := Insert(p, g, s[1..]);
    InsertPermutes(p, g, s[1..]);
    forall j | 0 <= j < |rest|
      ensures !Outranks(p, rest[j], s[0])
    {
      var x := rest[j];
      assert x in multiset(rest);
      if x != g {
        assert x in multiset(s[1..]);
        var k :| 0 <= k < |s[1..]| && s[1..][k] == x;
        assert s[k + 1] == x;
      }
    }
  }

  lemma SortedCons(p: Phase, x: Group, rest: seq<Group>)
    requires Sorted(p, rest)
    requires forall j :: 0 <= j < |rest| ==> !Outranks(p, rest[j], x)
    ensures Sorted(p, [x] + rest)
  {
    var r := [x] + rest;
    forall i, j | 0 <= i < j < |r|
      ensures !Outranks(p, r[j], r[i])
    {
      assert r[j] == rest[j - 1];
      if i > 0 {
        assert r[i] == rest[i - 1];
      }
    }
  }

  /** Sorting yields a descending permutation, with the same total of units. */
  lemma {:induction false} SortByOrdered(p: Phase, s: seq<Group>)
    ensures Sorted(p, SortBy(p, s))
    ensures multiset(SortBy(p, s)) == multiset(s)
    ensures SumUnits(SortBy(p, s)) == SumUnits(s)
  {
    if s != [] {
      SortByOrdered(p, s[1..]);
      InsertSorted(p, s[0], SortBy(p, s[1..]));
      InsertPermutes(p, s[0], SortBy(p, s[1..]));
      assert s == [s[0]] + s[1..];
    }
  }

  // ---------------------------------------------------------------------------
  // Totals and rosters

  function SumUnits(gs: seq<Group>): int
  {
    if gs == [] then 0 else gs[0].units + SumUnits(gs[1..])
  }

  lemma {:induction false} SumNonNegative(gs: seq<Group>)
    requires Valid(gs)
    ensures SumUnits(gs) >= 0
  {
    if gs != [] {
      assert gs[0] in gs;
      SumNonNegative(gs[1..]);
    }
  }

  /** Changing one group's units by `d` changes the total by `d`. */
  lemma {:induction false} SumUpdate(gs: seq<Group>, k: nat, units: int)
    requires k < |gs|
    ensures SumUnits(gs[k := gs[k].(units := units)]) == SumUnits(gs) - gs[k].units + units
  {
    var gs' := gs[k := gs[k].(units := units)];
    if k > 0 {
      assert gs'[1..] == gs[1..][k - 1 := gs[k].(units := units)];
      SumUpdate(gs[1..], k - 1, units);
    }
  }

  /** The army and id of every group: what `find_target_index` looks targets up by. */
  function Roster(gs: seq<Group>): set<(Army, nat)>
  {
    set k | 0 <= k < |gs| :: (gs[k].army, gs[k].id)
  }

  /** Every chosen target is the id of an enemy group that is present. */
  predicate Resolves(gs: seq<Group>)
  {
    forall g | g in gs && g.target.Some? :: (Opponent(g.army), g.target.value) in Roster(gs)
  }

  /** A group with its target cleared: all that the selection and the attack read of it. */
  function Untargeted(g: Group): Group
  {
    g.(target := None)
  }

  /** `a` and `b` differ at most in each group's target. */
  predicate SameButTargets(a: seq<Group>, b: seq<Group>)
  {
    |a| == |b| && forall k :: 0 <= k < |a| ==> Untargeted(a[k]) == Untargeted(b[k])
  }

  // ---------------------------------------------------------------------------
  // Target selection (`set_target`)

  /** Group `j` is an enemy of the selector `i` that no earlier selector took. */
  predicate Available(gs: seq<Group>, i: nat, taken: seq<nat>, j: nat)
    requires i < |gs| && j < |gs|
  {
    j != i && gs[i].army != gs[j].army && j !in taken
  }

  /** ... and the selector would damage it. */
  predicate Eligible(gs: seq<Group>, i: nat, taken: seq<nat>, j: nat)
    requires i < |gs| && j < |gs|
  {
    Available(gs, i, taken, j) && DamageTo(gs[i], gs[j]) > 0
  }

  /** The selector `i` would rather attack `a` than `b`: more damage, then more effective power, then initiative. */
  predicate Prefers(gs: seq<Group>, i: nat, a: nat, b: nat)
    requires i < |gs| && a < |gs| && b < |gs|
  {
    var da, db := DamageTo(gs[i], gs[a]), DamageTo(gs[i], gs[b]);
    da > db || (da == db && Outranks(Targeting, gs[a], gs[b]))
  }

  /** The best damage so far: `isize::min_value()` until a candidate is found. */
  function MaxDamage(gs: seq<Group>, i: nat, found: Option<nat>): int
    requires i < |gs| && (found.Some? ==> found.value < |gs|)
  {
    if found.None? then IsizeMin else DamageTo(gs[i], gs[found.value])
  }

  /** The candidate `set_target`'s loop holds after looking at the first `n` groups. */
  function Pick(gs: seq<Group>, i: nat, taken: seq<nat>, n: nat): (r: Option<nat>)
    requires i < |gs| && n <= |gs|
    ensures r.Some? ==> r.value < n
  {
    if n == 0 then None
    else
      var prev := Pick(gs, i, taken, n - 1);
      var j := n - 1;
      if !Available(gs, i, taken, j) then prev
      else
        var damage := DamageTo(gs[i], gs[j]);
        if damage <= 0 then prev
        else if damage > MaxDamage(gs, i, prev) then Some(j)
        else if prev.Some? && damage == MaxDamage(gs, i, prev)
          && EffectiveInitiativeOrder(gs[j], gs[prev.value]) == Greater then Some(j)
        else prev
  }

  /**
   * The search finds nothing exactly when no group among the first `n` is
   * eligible; otherwise it finds an eligible group that every eligible group
   * before it is worse than and no eligible group after it beats: the first
   * of the best.
   */
  lemma {:induction false} PickBest(gs: seq<Group>, i: nat, taken: seq<nat>, n: nat)
    requires i < |gs| && n <= |gs|
    ensures Pick(gs, i, taken, n).None? <==> forall j :: 0 <= j < n ==> !Eligible(gs, i, taken, j)
    ensures Pick(gs, i, taken, n).Some? ==>
      var f := Pick(gs, i, taken, n).value;
      Eligible(gs, i, taken, f) &&
      (forall j :: 0 <= j < f && Eligible(gs, i, taken, j) ==> Prefers(gs, i, f, j)) &&
      (forall j :: f < j < n && Eligible(gs, i, taken, j) ==> !Prefers(gs, i, j, f))
  {
    if n > 0 {
      PickBest(gs, i, taken, n - 1);
      var prev := Pick(gs, i, taken, n - 1);
      if prev.Some? {
        CompareDescending(Targeting, gs[n - 1], gs[prev.value]);
        assert Pick(gs, i, taken, n).Some?;
      } else if Eligible(gs, i, taken, n - 1) {
        assert MaxDamage(gs, i, prev) == IsizeMin;
        assert Pick(gs, i, taken, n) == Some(n - 1);
      }
    }
  }

  /** The search reads nothing of the groups' targets. */
  lemma {:induction false} PickIgnoresTargets(a: seq<Group>, b: seq<Group>, i: nat, taken: seq<nat>, n: nat)
    requires SameButTargets(a, b) && i < |a| && n <= |a|
    ensures Pick(a, i, taken, n) == Pick(b, i, taken, n)
  {
    if n > 0 {
      PickIgnoresTargets(a, b, i, taken, n - 1);
      assert Untargeted(a[i]) == Untargeted(b[i]);
      assert Untargeted(a[n - 1]) == Untargeted(b[n - 1]);
      var prev := Pick(a, i, taken, n - 1);
      if prev.Some? {
        assert Untargeted(a[prev.value]) == Untargeted(b[prev.value]);
      }
    }
  }

  /** The groups taken so far: the choices that found something, in selection order. */
  function Taken(cs: seq<Option<nat>>): seq<nat>
  {
    if cs == [] then []
    else
      var last := cs[|cs| - 1];
      Taken(cs[..|cs| - 1]) + (if last.Some? then [last.value] else [])
  }

  /** What each of the first `n` selectors picks, given what the selectors before it took. */
  function Choices(gs: seq<Group>, n: nat): (cs: seq<Option<nat>>)
    requires n <= |gs|
    ensures |cs| == n
  {
    if n == 0 then []
    else
      var cs := Choices(gs, n - 1);
      cs + [Pick(gs, n - 1, Taken(cs), |gs|)]
  }

  function IdOf(gs: seq<Group>, c: Option<nat>): Option<nat>
    requires c.Some? ==> c.value < |gs|
  {
    if c.Some? then Some(gs[c.value].id) else None
  }

  /** Every choice names an index of the list. */
  predicate Indices(gs: seq<Group>, cs: seq<Option<nat>>)
  {
    forall i :: 0 <= i < |cs| && cs[i].Some? ==> cs[i].value < |gs|
  }

  /** The groups after the first `|cs|` selectors have set their targets to their choices. */
  function Retargeted(gs: seq<Group>, cs: seq<Option<nat>>): (r: seq<Group>)
    requires |cs| <= |gs| && Indices(gs, cs)
    ensures |r| == |gs|
  {
    if cs == [] then gs
    else
      var k := |cs| - 1;
      var prev := Retargeted(gs, cs[..k]);
      prev[k := prev[k].(target := IdOf(gs, cs[k]))]
  }

  /** The selection phase over a sorted list of groups. */
  function Select(gs: seq<Group>): seq<Group>
  {
    ChoicesAreIndices(gs, |gs|);
    Retargeted(gs, Choices(gs, |gs|))
  }

  /**
   * Every selector picks an enemy it would damage, which no selector before
   * it took, and which it likes at least as well as every other such enemy
   * (strictly better than those before it in the list).
   */
  lemma {:induction false} ChoiceIsBest(gs: seq<Group>, i: nat)
    requires i < |gs|
    ensures Choices(gs, i + 1)[i] == Pick(gs, i, Taken(Choices(gs, i)), |gs|)
    ensures Choices(gs, i + 1)[i].None? <==> forall j :: 0 <= j < |gs| ==> !Eligible(gs, i, Taken(Choices(gs, i)), j)
    ensures Choices(gs, i + 1)[i].Some? ==>
      var f, taken := Choices(gs, i + 1)[i].value, Taken(Choices(gs, i));
      Eligible(gs, i, taken, f) &&
      (forall j :: 0 <= j < f && Eligible(gs, i, taken, j) ==> Prefers(gs, i, f, j)) &&
      (forall j :: f < j < |gs| && Eligible(gs, i, taken, j) ==> !Prefers(gs, i, j, f))
  {
    PickBest(gs, i, Taken(Choices(gs, i)), |gs|);
  }

  /** Every selector's choice is an enemy of it, at an index of the list. */
  lemma {:induction false} ChoicesAreEnemies(gs: seq<Group>, n: nat)
    requires n <= |gs|
    ensures Indices(gs, Choices(gs, n))
    ensures forall i :: 0 <= i < n && Choices(gs, n)[i].Some? ==> gs[Choices(gs, n)[i].value].army != gs[i].army
  {
    if n > 0 {
      ChoicesAreEnemies(gs, n - 1);
      var cs := Choices(gs, n - 1);
      var c := Pick(gs, n - 1, Taken(cs), |gs|);
      assert c.Some? ==> gs[c.value].army != gs[n - 1].army by {
        PickBest(gs, n - 1, Taken(cs), |gs|);
      }
      assert Choices(gs, n) == cs + [c];
    }
  }

  lemma ChoicesAreIndices(gs: seq<Group>, n: nat)
    requires n <= |gs|
    ensures Indices(gs, Choices(gs, n))
  {
    ChoicesAreEnemies(gs, n);
  }

  /** No group is taken twice in a round: each choice avoids what was taken before it. */
  lemma {:induction false} TakenDistinct(gs: seq<Group>, n: nat)
    requires n <= |gs|
    ensures forall a, b :: 0 <= a < b < |Taken(Choices(gs, n))| ==> Taken(Choices(gs, n))[a] != Taken(Choices(gs, n))[b]
    ensures forall a :: 0 <= a < |Taken(Choices(gs, n))| ==> Taken(Choices(gs, n))[a] < |gs|
  {
    if n > 0 {
      TakenDistinct(gs, n - 1);
      var cs := Choices(gs, n - 1);
      var c := Pick(gs, n - 1, Taken(cs), |gs|);
      PickBest(gs, n - 1, Taken(cs), |gs|);
      assert Choices(gs, n) == cs + [c];
      assert (cs + [c])[..n - 1] == cs;
    }
  }

  /**
   * Selection changes nothing but targets, and afterwards every target names
   * an enemy group that is present, so the attack phase finds it.
   */
  lemma SelectResolves(gs: seq<Group>)
    ensures SameButTargets(Select(gs), gs)
    ensures Resolves(Select(gs))
  {
    var cs := Choices(gs, |gs|);
    ChoicesAreEnemies(gs, |gs|);
    RetargetedResolves(gs, cs);
    var s := Select(gs);
    RosterSameButTargets(s, gs);
    forall g | g in s && g.target.Some?
      ensures (Opponent(g.army), g.target.value) in Roster(s)
    {
      var i :| 0 <= i < |s| && s[i] == g;
      assert Untargeted(s[i]) == Untargeted(gs[i]);
    }
  }

  /** Setting targets to enemy choices changes nothing else and leaves every set target resolvable. */
  lemma {:induction false} RetargetedResolves(gs: seq<Group>, cs: seq<Option<nat>>)
    requires |cs| <= |gs| && Indices(gs, cs)
    requires forall i :: 0 <= i < |cs| && cs[i].Some? ==> gs[cs[i].value].army != gs[i].army
    ensures SameButTargets(Retargeted(gs, cs), gs)
    ensures forall i :: 0 <= i < |cs| && Retargeted(gs, cs)[i].target.Some? ==>
      (Opponent(gs[i].army), Retargeted(gs, cs)[i].target.value) in Roster(gs)
  {
    if cs != [] {
      var k := |cs| - 1;
      RetargetedResolves(gs, cs[..k]);
      var t := IdOf(gs, cs[k]);
      if cs[k].Some? {
        assert (gs[cs[k].value].army, gs[cs[k].value].id) in Roster(gs);
      }
      Retarget(Retargeted(gs, cs[..k]), gs, k, t);
    }
  }

  /** Setting the target of group `k` to an enemy that is present keeps every target up to `k` resolvable. */
  lemma Retarget(prev: seq<Group>, gs: seq<Group>, k: nat, t: Option<nat>)
    requires SameButTargets(prev, gs) && k < |gs|
    requires forall i :: 0 <= i < k && prev[i].target.Some? ==>
      (Opponent(gs[i].army), prev[i].target.value) in Roster(gs)
    requires t.Some? ==> (Opponent(gs[k].army), t.value) in Roster(gs)
    ensures SameButTargets(prev[k := prev[k].(target := t)], gs)
    ensures forall i :: 0 <= i <= k && prev[k := prev[k].(target := t)][i].target.Some? ==>
      (Opponent(gs[i].army), prev[k := prev[k].(target := t)][i].target.value) in Roster(gs)
  {
    var g := prev[k].(target := t);
    assert Untargeted(g) == Untargeted(prev[k]);
    var r := prev[k := g];
    forall i | 0 <= i < |gs|
      ensures Untargeted(r[i]) == Untargeted(gs[i])
    {
      if i != k {
        assert r[i] == prev[i];
      }
    }
  }

  lemma RosterSameButTargets(a: seq<Group>, b: seq<Group>)
    requires SameButTargets(a, b)
    ensures Roster(a) == Roster(b)
  {
    forall x | x in Roster(a)
      ensures x in Roster(b)
    {
      var k :| 0 <= k < |a| && x == (a[k].army, a[k].id);
      assert Untargeted(a[k]) == Untargeted(b[k]);
    }
    forall x | x in Roster(b)
      ensures x in Roster(a)
    {
      var k :| 0 <= k < |b| && x == (b[k].army, b[k].id);
      assert Untargeted(a[k]) == Untargeted(b[k]);
    }
  }

  /** A group with its units cleared: what the attack phase never changes. */
  function Unitless(g: Group): Group
  {
    g.(units := 0)
  }

  /** `a` and `b` differ at most in each group's units. */
  predicate SameButUnits(a: seq<Group>, b: seq<Group>)
  {
    |a| == |b| && forall k :: 0 <= k < |a| ==> Unitless(a[k]) == Unitless(b[k])
  }

  lemma RosterSameButUnits(a: seq<Group>, b: seq<Group>)
    requires SameButUnits(a, b)
    ensures Roster(a) == Roster(b)
  {
    forall x | x in Roster(a)
      ensures x in Roster(b)
    {
      var k :| 0 <= k < |a| && x == (a[k].army, a[k].id);
      assert Unitless(a[k]) == Unitless(b[k]);
    }
    forall x | x in Roster(b)
      ensures x in Roster(a)
    {
      var k :| 0 <= k < |b| && x == (b[k].army, b[k].id);
      assert Unitless(a[k]) == Unitless(b[k]);
    }
  }

  // ---------------------------------------------------------------------------
  // Attacking (`find_target_index`, the attack loop of `run`)

  /** `g`'s target, if any, names an enemy group that is present. */
  predicate Resolvable(gs: seq<Group>, g: Group)
  {
    g.target.Some? ==> (Opponent(g.army), g.target.value) in Roster(gs)
  }

  /** `g`'s target is the group at `k`: an enemy with the target's id. */
  predicate Matches(gs: seq<Group>, g: Group, k: nat)
    requires g.target.Some? && k < |gs|
  {
    g.army != gs[k].army && gs[k].id == g.target.value
  }

  /** The first group from `k` on that is `g`'s target. */
  function LocateFrom(gs: seq<Group>, g: Group, k: nat): (r: Option<nat>)
    requires g.target.Some? && k <= |gs|
    ensures r.Some? ==> k <= r.value < |gs|
    decreases |gs| - k
  {
    if k == |gs| then None
    else if Matches(gs, g, k) then Some(k)
    else LocateFrom(gs, g, k + 1)
  }

  /**
   * A target that is present is found: the search from `k` answers the first
   * match at or after `k`.
   */
  lemma {:induction false} LocateFinds(gs: seq<Group>, g: Group, k: nat, j: nat)
    requires g.target.Some? && k <= j < |gs| && Matches(gs, g, j)
    ensures LocateFrom(gs, g, k).Some?
    ensures Matches(gs, g, LocateFrom(gs, g, k).value) && LocateFrom(gs, g, k).value <= j
    ensures forall m :: k <= m < LocateFrom(gs, g, k).value ==> !Matches(gs, g, m)
    decreases |gs| - k
  {
    if !Matches(gs, g, k) {
      LocateFinds(gs, g, k + 1, j);
    }
  }

  /** A resolvable target is found by the search from the front. */
  lemma Located(gs: seq<Group>, g: Group)
    requires g.target.Some? && Resolvable(gs, g)
    ensures LocateFrom(gs, g, 0).Some?
  {
    var j :| 0 <= j < |gs| && (Opponent(g.army), g.target.value) == (gs[j].army, gs[j].id);
    LocateFinds(gs, g, 0, j);
  }

  /** One group's attack: its target loses the units the damage kills; answers the new groups and the units killed. */
  function Strike(gs: seq<Group>, i: nat): (seq<Group>, int)
    requires i < |gs| && Valid(gs) && Resolvable(gs, gs[i])
  {
    if gs[i].target.None? then (gs, 0)
    else
      Located(gs, gs[i]);
      var t := LocateFrom(gs, gs[i], 0).value;
      assert gs[t] in gs;
      var lost := UnitsLost(gs[t], DamageTo(gs[i], gs[t]));
      (gs[t := gs[t].(units := gs[t].units - lost)], lost)
  }

  /**
   * An attack only lowers one group's units, never below zero, and the units
   * it kills are exactly what the total loses.
   */
  lemma StrikeKills(gs: seq<Group>, i: nat)
    requires i < |gs| && Valid(gs) && Resolvable(gs, gs[i])
    ensures SameButUnits(Strike(gs, i).0, gs) && Valid(Strike(gs, i).0)
    ensures Strike(gs, i).1 >= 0 && SumUnits(Strike(gs, i).0) + Strike(gs, i).1 == SumUnits(gs)
  {
    if gs[i].target.Some? {
      Located(gs, gs[i]);
      var t := LocateFrom(gs, gs[i], 0).value;
      assert gs[t] in gs && gs[i] in gs;
      var damage := DamageTo(gs[i], gs[t]);
      var lost := UnitsLost(gs[t], damage);
      assert 0 <= lost <= gs[t].units by {
        DamageBounds(gs[i], gs[t]);
        MulNonNegative(gs[i].units, gs[i].attackDamage);
        UnitsLostBounds(gs[t], damage);
      }
      var r := gs[t := gs[t].(units := gs[t].units - lost)];
      assert Strike(gs, i) == (r, lost);
      SetUnitsKeeps(gs, t, gs[t].units - lost);
    }
  }

  /** Lowering one group's units to a value that is not negative keeps the groups sound and changes only that count. */
  lemma SetUnitsKeeps(gs: seq<Group>, t: nat, units: int)
    requires t < |gs| && Valid(gs) && units >= 0
    ensures SameButUnits(gs[t := gs[t].(units := units)], gs)
    ensures Valid(gs[t := gs[t].(units := units)])
    ensures SumUnits(gs[t := gs[t].(units := units)]) == SumUnits(gs) - gs[t].units + units
  {
    var g := gs[t].(units := units);
    assert Unitless(g) == Unitless(gs[t]);
    assert gs[t] in gs;
    var r := gs[t := g];
    SumUpdate(gs, t, units);
    forall k | 0 <= k < |gs|
      ensures Unitless(r[k]) == Unitless(gs[k])
    {
      if k != t {
        assert r[k] == gs[k];
      }
    }
    forall x | x in r
      ensures Sound(x)
    {
      var k :| 0 <= k < |r| && r[k] == x;
      if k != t {
        assert r[k] == gs[k];
      }
    }
  }

  /** The groups and units killed after the first `n` groups attacked. */
  function AttackUpTo(gs: seq<Group>, n: nat): (r: (seq<Group>, int))
    requires n <= |gs| && Valid(gs) && Resolves(gs)
    ensures SameButUnits(r.0, gs) && Valid(r.0)
    ensures r.1 >= 0 && SumUnits(r.0) + r.1 == SumUnits(gs)
  {
    if n == 0 then (gs, 0)
    else
      var (cur, killed) := AttackUpTo(gs, n - 1);
      AttackNext(gs, cur, killed, n - 1);
      var (next, lost) := Strike(cur, n - 1);
      (next, killed + lost)
  }

  /** The next attack keeps what `AttackUpTo` promises. */
  lemma AttackNext(gs: seq<Group>, cur: seq<Group>, killed: int, i: nat)
    requires i < |gs| && Valid(gs) && Resolves(gs)
    requires SameButUnits(cur, gs) && Valid(cur) && killed >= 0 && SumUnits(cur) + killed == SumUnits(gs)
    ensures Resolvable(cur, cur[i])
    ensures SameButUnits(Strike(cur, i).0, gs) && Valid(Strike(cur, i).0)
    ensures killed + Strike(cur, i).1 >= 0
    ensures SumUnits(Strike(cur, i).0) + killed + Strike(cur, i).1 == SumUnits(gs)
  {
    AttackerResolvable(gs, cur, i);
    StrikeKills(cur, i);
    SameButUnitsTrans(Strike(cur, i).0, cur, gs);
  }

  /** The attack phase does not change who targets whom, so the next attacker's target still resolves. */
  lemma AttackerResolvable(gs: seq<Group>, cur: seq<Group>, i: nat)
    requires Resolves(gs) && SameButUnits(cur, gs) && i < |gs|
    ensures Resolvable(cur, cur[i])
  {
    RosterSameButUnits(cur, gs);
    assert Unitless(cur[i]) == Unitless(gs[i]);
    assert gs[i] in gs;
  }

  lemma SameButUnitsTrans(a: seq<Group>, b: seq<Group>, c: seq<Group>)
    requires SameButUnits(a, b) && SameButUnits(b, c)
    ensures SameButUnits(a, c)
  {
  }

  // ---------------------------------------------------------------------------
  // Rounds and the fight (`run`)

  /** Reordering keeps soundness, the roster, resolvable targets and the total of units. */
  lemma PermutationKeeps(a: seq<Group>, b: seq<Group>)
    requires multiset(a) == multiset(b)
    ensures Valid(a) ==> Valid(b)
    ensures Roster(a) == Roster(b)
    ensures Resolves(a) ==> Resolves(b)
  {
    forall g
      ensures g in a <==> g in b
    {
      assert g in a <==> g in multiset(a);
      assert g in b <==> g in multiset(b);
    }
    forall x | x in Roster(a)
      ensures x in Roster(b)
    {
      var k :| 0 <= k < |a| && x == (a[k].army, a[k].id);
      assert a[k] in b;
    }
    forall x | x in Roster(b)
      ensures x in Roster(a)
    {
      var k :| 0 <= k < |b| && x == (b[k].army, b[k].id);
      assert b[k] in a;
    }
  }

  /** Setting targets keeps soundness and the total of units. */
  lemma {:induction false} RetargetingKeeps(a: seq<Group>, b: seq<Group>)
    requires SameButTargets(a, b)
    ensures Valid(b) ==> Valid(a)
    ensures SumUnits(a) == SumUnits(b)
  {
    if a != [] {
      assert Untargeted(a[0]) == Untargeted(b[0]);
      RetargetingKeeps(a[1..], b[1..]);
      forall g | g in a
        ensures Valid(b) ==> Sound(g)
      {
        var k :| 0 <= k < |a| && a[k] == g;
        assert Untargeted(a[k]) == Untargeted(b[k]);
        assert b[k] in b;
      }
    }
  }

  /** The groups in attack order after the selection phase: sorted for targeting, targets set, sorted for attacking. */
  function Ordered(gs: seq<Group>): seq<Group>
  {
    SortBy(Attacking, Select(SortBy(Targeting, gs)))
  }

  /** The groups in attack order are the same sound groups with the same units, and all their targets resolve. */
  lemma OrderedReady(gs: seq<Group>)
    requires Valid(gs)
    ensures Valid(Ordered(gs)) && Resolves(Ordered(gs))
    ensures SumUnits(Ordered(gs)) == SumUnits(gs)
  {
    var sorted := SortBy(Targeting, gs);
    SortByOrdered(Targeting, gs);
    PermutationKeeps(gs, sorted);
    var chosen := Select(sorted);
    SelectResolves(sorted);
    RetargetingKeeps(chosen, sorted);
    SortByOrdered(Attacking, chosen);
    PermutationKeeps(chosen, Ordered(gs));
  }

  /** One round: the groups after every group attacked (the dead not yet removed), and the units killed. */
  function Round(gs: seq<Group>): (seq<Group>, int)
    requires Valid(gs)
  {
    OrderedReady(gs);
    AttackUpTo(Ordered(gs), |Ordered(gs)|)
  }

  /** The groups with units left, in order. */
  function Survivors(gs: seq<Group>): seq<Group>
  {
    if gs == [] then []
    else (if gs[0].units > 0 then [gs[0]] else []) + Survivors(gs[1..])
  }

  /**
   * The survivors are exactly the groups with units left, and dropping the
   * groups with none keeps the total of units.
   */
  lemma {:induction false} SurvivorsAlive(gs: seq<Group>)
    requires Valid(gs)
    ensures forall g :: g in Survivors(gs) <==> g in gs && g.units > 0
    ensures Valid(Survivors(gs)) && SumUnits(Survivors(gs)) == SumUnits(gs)
  {
    if gs != [] {
      assert gs[0] in gs;
      assert Valid(gs[1..]) by {
        forall g | g in gs[1..]
          ensures Sound(g)
        {
          assert g in gs;
        }
      }
      SurvivorsAlive(gs[1..]);
      assert gs == [gs[0]] + gs[1..];
      if gs[0].units > 0 {
        assert Survivors(gs)[1..] == Survivors(gs[1..]);
      } else {
        assert Survivors(gs) == Survivors(gs[1..]);
      }
    }
  }

  predicate HasArmy(gs: seq<Group>, a: Army)
  {
    exists k :: 0 <= k < |gs| && gs[k].army == a
  }

  datatype Outcome = Stalemate | Ended(survivors: seq<Group>)

  /** Rounds until a round kills nobody or at most one army has groups left. */
  function Fight(gs: seq<Group>): Outcome
    requires Valid(gs)
    decreases SumUnits(gs)
  {
    var (after, killed) := Round(gs);
    if killed == 0 then Stalemate
    else
      SurvivorsAlive(after);
      OrderedReady(gs);
      SumNonNegative(Survivors(after));
      var alive := Survivors(after);
      if HasArmy(alive, Immune) && HasArmy(alive, Infection) then Fight(alive) else Ended(alive)
  }

  /**
   * A fight that ends leaves only groups with units left, all of one army,
   * and never more units than it started with.
   */
  lemma {:induction false} FightEnds(gs: seq<Group>)
    requires Valid(gs)
    ensures Fight(gs).Ended? ==>
      var s := Fight(gs).survivors;
      Valid(s) && (forall g | g in s :: g.units > 0) && !(HasArmy(s, Immune) && HasArmy(s, Infection)) &&
      SumUnits(s) < SumUnits(gs)
    decreases SumUnits(gs)
  {
    var (after, killed) := Round(gs);
    if killed != 0 {
      SurvivorsAlive(after);
      OrderedReady(gs);
      var alive := Survivors(after);
      if HasArmy(alive, Immune) && HasArmy(alive, Infection) {
        SumNonNegative(alive);
        FightEnds(alive);
      }
    }
  }

  function Boost(g: Group, boost: int): Group
  {
    if g.army == Immune then g.(attackDamage := g.attackDamage + boost) else g
  }

  /** The groups with the boost added to the immune system's attack damage. */
  function Boosted(gs: seq<Group>, boost: int): (r: seq<Group>)
    ensures |r| == |gs|
    ensures Valid(gs) && boost >= 0 ==> Valid(r)
  {
    var r := seq(|gs|, k requires 0 <= k < |gs| => Boost(gs[k], boost));
    BoostKeepsSound(gs, boost, r);
    r
  }

  lemma BoostKeepsSound(gs: seq<Group>, boost: int, r: seq<Group>)
    requires |r| == |gs| && forall k :: 0 <= k < |gs| ==> r[k] == Boost(gs[k], boost)
    ensures Valid(gs) && boost >= 0 ==> Valid(r)
  {
    if Valid(gs) && boost >= 0 {
      forall g | g in r
        ensures Sound(g)
      {
        var k :| 0 <= k < |gs| && r[k] == g;
        assert gs[k] in gs;
      }
    }
  }

  /** The boost raises every immune group's attack damage by itself and changes nothing else. */
  lemma BoostOnlyImmune(gs: seq<Group>, boost: int)
    ensures forall k :: 0 <= k < |gs| ==> Boosted(gs, boost)[k].(attackDamage := gs[k].attackDamage) == gs[k]
    ensures forall k :: 0 <= k < |gs| ==>
      Boosted(gs, boost)[k].attackDamage == gs[k].attackDamage + (if gs[k].army == Immune then boost else 0)
  {
  }

  /** `run`: the winning army and its units left; a stalemate counts as the infection winning with none. */
  function Run(gs: seq<Group>, boost: int): (Army, int)
    requires Valid(gs) && boost >= 0
  {
    match Fight(Boosted(gs, boost))
    case Stalemate => (Infection, 0)
    case Ended(s) => (if HasArmy(s, Immune) then Immune else Infection, SumUnits(s))
  }

  /**
   * The units `run` reports are those of the survivors, all of the winning
   * army; when the immune system wins it has units left.
   */
  lemma RunReports(gs: seq<Group>, boost: int)
    requires Valid(gs) && boost >= 0
    ensures Run(gs, boost).1 >= 0
    ensures Run(gs, boost).0 == Immune ==> Run(gs, boost).1 > 0
    ensures Fight(Boosted(gs, boost)).Ended? ==>
      var s := Fight(Boosted(gs, boost)).survivors;
      Run(gs, boost).1 == SumUnits(s) && forall g | g in s :: g.army == Run(gs, boost).0
  {
    var start := Boosted(gs, boost);
    FightEnds(start);
    if Fight(start).Ended? {
      var s := Fight(start).survivors;
      SumNonNegative(s);
      if HasArmy(s, Immune) {
        var k :| 0 <= k < |s| && s[k].army == Immune;
        assert s[k] in s;
        SumPositive(s, k);
      }
      forall g | g in s
        ensures g.army == Run(gs, boost).0
      {
        var k :| 0 <= k < |s| && s[k] == g;
      }
    }
  }

  lemma {:induction false} SumPositive(gs: seq<Group>, k: nat)
    requires Valid(gs) && k < |gs| && gs[k].units > 0
    ensures SumUnits(gs) > 0
  {
    assert gs[0] in gs;
    if k > 0 {
      assert Valid(gs[1..]) by {
        forall g | g in gs[1..]
          ensures Sound(g)
        {
          assert g in gs;
        }
      }
      SumPositive(gs[1..], k - 1);
    } else {
      SumNonNegative(gs[1..]);
    }
  }

  /** Every group belongs to the same army. */
  predicate OneArmy(gs: seq<Group>)
  {
    forall g, h | g in gs && h in gs :: g.army == h.army
  }

  /**
   * With a single army nobody finds a target, nobody dies, and `run`
   * reports a stalemate, (Infection, 0), even when every group is immune:
   * the first round runs before the armies are checked.
   */
  lemma OneArmyStalls(gs: seq<Group>)
    requires Valid(gs) && OneArmy(gs)
    ensures Fight(gs) == Stalemate
    ensures Run(gs, 0) == (Infection, 0)
  {
    OneArmyNoTargets(gs);
    OrderedReady(gs);
    var ordered := Ordered(gs);
    NoTargetsNoKills(ordered, |ordered|);
    assert Round(gs).1 == 0;
    assert Boosted(gs, 0) == gs;
  }

  /** With a single army every group ends the targeting phase without a target. */
  lemma OneArmyNoTargets(gs: seq<Group>)
    requires Valid(gs) && OneArmy(gs)
    ensures forall g | g in Ordered(gs) :: g.target.None?
  {
    var sorted := SortBy(Targeting, gs);
    SortByOrdered(Targeting, gs);
    assert OneArmy(sorted) by {
      forall g | g in sorted
        ensures g in gs
      {
        assert g in multiset(sorted);
      }
    }
    var chosen := Select(sorted);
    assert forall g | g in chosen :: g.target.None? by {
      var cs := Choices(sorted, |sorted|);
      NoEnemyNoChoice(sorted, |sorted|);
      ChoicesAreIndices(sorted, |sorted|);
      RetargetedNone(sorted, cs);
    }
    var ordered := Ordered(gs);
    SortByOrdered(Attacking, chosen);
    forall g | g in ordered
      ensures g.target.None?
    {
      assert g in multiset(ordered);
      assert g in chosen;
    }
  }

  lemma {:induction false} NoEnemyNoChoice(gs: seq<Group>, n: nat)
    requires n <= |gs| && OneArmy(gs)
    ensures forall i :: 0 <= i < n ==> Choices(gs, n)[i].None?
  {
    if n > 0 {
      NoEnemyNoChoice(gs, n - 1);
      var cs := Choices(gs, n - 1);
      PickBest(gs, n - 1, Taken(cs), |gs|);
      forall j | 0 <= j < |gs|
        ensures gs[j].army == gs[n - 1].army
      {
        assert gs[j] in gs && gs[n - 1] in gs;
      }
      assert Choices(gs, n) == cs + [Pick(gs, n - 1, Taken(cs), |gs|)];
    }
  }

  lemma {:induction false} RetargetedNone(gs: seq<Group>, cs: seq<Option<nat>>)
    requires |cs| <= |gs| && Indices(gs, cs)
    requires forall i :: 0 <= i < |cs| ==> cs[i].None?
    ensures forall i :: 0 <= i < |cs| ==> Retargeted(gs, cs)[i].target.None?
  {
    if cs != [] {
      var k := |cs| - 1;
      RetargetedNone(gs, cs[..k]);
      var prev := Retargeted(gs, cs[..k]);
      forall i | 0 <= i < |cs|
        ensures Retargeted(gs, cs)[i].target.None?
      {
        if i < k {
          assert Retargeted(gs, cs)[i] == prev[i];
        }
      }
    }
  }

  lemma {:induction false} NoTargetsNoKills(gs: seq<Group>, n: nat)
    requires n <= |gs| && Valid(gs) && Resolves(gs)
    requires forall g | g in gs :: g.target.None?
    ensures AttackUpTo(gs, n).1 == 0
  {
    if n > 0 {
      NoTargetsNoKills(gs, n - 1);
      var cur := AttackUpTo(gs, n - 1).0;
      assert Unitless(cur[n - 1]) == Unitless(gs[n - 1]);
      assert gs[n - 1] in gs;
    }
  }

  // ---------------------------------------------------------------------------
  // Part b: the smallest boost that lets the immune system win

  /** The first `k` among 1 to `n` for which `wins(k)` holds. */
  function FirstWin(wins: nat -> bool, n: nat): Option<nat>
  {
    if n == 0 then None
    else
      var earlier := FirstWin(wins, n - 1);
      if earlier.Some? then earlier
      else if wins(n) then Some(n)
      else None
  }

  /** The search answers the smallest `k` from 1 on that wins, and nothing only when none up to `n` does. */
  lemma {:induction false} FirstWinIsFirst(wins: nat -> bool, n: nat)
    ensures FirstWin(wins, n).None? <==> forall j :: 1 <= j <= n ==> !wins(j)
    ensures FirstWin(wins, n).Some? ==>
      var k := FirstWin(wins, n).value;
      1 <= k <= n && wins(k) && forall j :: 1 <= j < k ==> !wins(j)
  {
    if n > 0 {
      FirstWinIsFirst(wins, n - 1);
    }
  }

  /** Searching further never changes an answer once found. */
  lemma {:induction false} FirstWinStable(wins: nat -> bool, n: nat, m: nat)
    requires n <= m && FirstWin(wins, n).Some?
    ensures FirstWin(wins, m) == FirstWin(wins, n)
  {
    if n < m {
      FirstWinStable(wins, n, m - 1);
    }
  }

  /** Whether the immune system wins with the given boost. */
  function ImmuneWins(gs: seq<Group>): nat -> bool
  {
    (boost: nat) => Valid(gs) && Run(gs, boost).0 == Immune
  }

  lemma WinsWith(gs: seq<Group>, boost: nat, winners: Army)
    requires Valid(gs) && winners == Run(gs, boost).0
    ensures ImmuneWins(gs)(boost) == (winners == Immune)
  {
  }

  /** `b` searching up to boost `fuel`: the units left after the first winning boost. */
  function AnswerB(gs: seq<Group>, fuel: nat): Option<int>
    requires Valid(gs)
  {
    match FirstWin(ImmuneWins(gs), fuel)
    case Some(boost) => Some(Run(gs, boost).1)
    case None => None
  }

  /**
   * `b` answers the units the immune system keeps with the smallest boost
   * from 1 on that lets it win, and nothing only when no boost up to `fuel`
   * does.
   */
  lemma AnswerBFirst(gs: seq<Group>, fuel: nat)
    requires Valid(gs)
    ensures AnswerB(gs, fuel).None? <==> forall j :: 1 <= j <= fuel ==> Run(gs, j).0 != Immune
    ensures AnswerB(gs, fuel).Some? ==> exists k ::
      1 <= k <= fuel && Run(gs, k) == (Immune, AnswerB(gs, fuel).value) &&
      forall j :: 1 <= j < k ==> Run(gs, j).0 != Immune
  {
    var wins := ImmuneWins(gs);
    FirstWinIsFirst(wins, fuel);
    if AnswerB(gs, fuel).None? {
      forall j | 1 <= j <= fuel
        ensures Run(gs, j).0 != Immune
      {
        assert !wins(j);
      }
    } else {
      var k := FirstWin(wins, fuel).value;
      assert wins(k);
      forall j | 1 <= j < k
        ensures Run(gs, j).0 != Immune
      {
        assert !wins(j);
      }
    }
  }

  /** More fuel never changes an answer once found. */
  lemma FuelKeepsAnswer(gs: seq<Group>, n: nat, m: nat)
    requires Valid(gs) && n <= m && AnswerB(gs, n).Some?
    ensures AnswerB(gs, m) == AnswerB(gs, n)
  {
    FirstWinStable(ImmuneWins(gs), n, m);
  }

  // ---------------------------------------------------------------------------
  // Methods

  /** `set_target`: scans every other group, keeping the best target so far and the damage it takes. */
  method SetTarget(gs: seq<Group>, self: nat, taken: seq<nat>) returns (g: Group, found: Option<nat>)
    requires self < |gs|
    ensures found == Pick(gs, self, taken, |gs|)
    ensures g == gs[self].(target := IdOf(gs, found))
  {
    found := None;
    var maxDamage := IsizeMin;
    for i := 0 to |gs|
      invariant found == Pick(gs, self, taken, i)
      invariant maxDamage == MaxDamage(gs, self, found)
    {
      if i != self {
        var group := gs[i];
        if gs[self].army != group.army && i !in taken {
          var damage := DamageTo(gs[self], group);
          if damage <= 0 {
            continue;
          } else if damage > maxDamage {
            maxDamage := damage;
            found := Some(i);
          } else if damage == maxDamage {
            var last := gs[found.value];
            if EffectiveInitiativeOrder(group, last) == Greater {
              found := Some(i);
            }
          }
        }
      }
    }
    g := gs[self].(target := if found.Some? then Some(gs[found.value].id) else None);
  }

  /** The targeting loop of `run`: each group in turn picks a target, and what it picks is taken. */
  method SelectTargets(gs: seq<Group>) returns (r: seq<Group>)
    ensures r == Select(gs)
  {
    r := gs;
    var taken: seq<nat> := [];
    for i := 0 to |gs|
      invariant Indices(gs, Choices(gs, i))
      invariant r == Retargeted(gs, Choices(gs, i))
      invariant taken == Taken(Choices(gs, i))
    {
      ghost var cs := Choices(gs, i);
      ChoicesAreEnemies(gs, i);
      RetargetedResolves(gs, cs);
      PickIgnoresTargets(r, gs, i, taken, |gs|);
      var g, found := SetTarget(r, i, taken);
      ghost var cs' := Choices(gs, i + 1);
      assert cs' == cs + [found];
      assert cs'[..i] == cs;
      ChoicesAreIndices(gs, i + 1);
      assert Untargeted(r[i]) == Untargeted(gs[i]);
      if found.Some? {
        assert Untargeted(r[found.value]) == Untargeted(gs[found.value]);
        taken := taken + [found.value];
      }
      r := r[i := g];
    }
    ChoicesAreIndices(gs, |gs|);
  }

  /** `find_target_index`: the first enemy group whose id is the target. */
  method FindTargetIndex(gs: seq<Group>, g: Group) returns (r: Option<nat>)
    requires Resolvable(gs, g)
    ensures r == if g.target.None? then None else LocateFrom(gs, g, 0)
  {
    if g.target.None? {
      return None;
    }
    var target := g.target.value;
    Located(gs, g);
    for i := 0 to |gs|
      invariant LocateFrom(gs, g, 0) == LocateFrom(gs, g, i)
    {
      var group := gs[i];
      if g.army != group.army && group.id == target {
        return Some(i);
      }
    }
    assert false;
  }

  /** The attack loop of `run`: in turn, each group's target loses the units its damage kills. */
  method AttackAll(gs: seq<Group>) returns (r: seq<Group>, killed: int)
    requires Valid(gs) && Resolves(gs)
    ensures (r, killed) == AttackUpTo(gs, |gs|)
  {
    r, killed := gs, 0;
    for i := 0 to |gs|
      invariant r == AttackUpTo(gs, i).0 && killed == AttackUpTo(gs, i).1
    {
      AttackStep(gs, i);
      var lost;
      r, lost := AttackWith(r, i);
      killed := killed + lost;
    }
  }

  /** One pass of the attack loop: group `i` finds its target, which loses the units the damage kills. */
  method AttackWith(gs: seq<Group>, i: nat) returns (r: seq<Group>, lost: int)
    requires i < |gs| && Valid(gs) && Resolvable(gs, gs[i])
    ensures (r, lost) == Strike(gs, i)
  {
    StrikeAt(gs, i);
    var group := gs[i];
    var index := FindTargetIndex(gs, group);
    r, lost := gs, 0;
    if index.Some? {
      var t := index.value;
      var target := gs[t];
      var damage := DamageTo(group, target);
      lost := UnitsLost(target, damage);
      r := gs[t := target.(units := target.units - lost)];
    }
  }

  lemma AttackStep(gs: seq<Group>, i: nat)
    requires i < |gs| && Valid(gs) && Resolves(gs)
    ensures Resolvable(AttackUpTo(gs, i).0, AttackUpTo(gs, i).0[i])
    ensures AttackUpTo(gs, i + 1) ==
      var cur := AttackUpTo(gs, i).0;
      (Strike(cur, i).0, AttackUpTo(gs, i).1 + Strike(cur, i).1)
  {
    AttackerResolvable(gs, AttackUpTo(gs, i).0, i);
  }

  /** Where `Strike` hits, spelt out for the attack loop. */
  lemma StrikeAt(gs: seq<Group>, i: nat)
    requires i < |gs| && Valid(gs) && Resolvable(gs, gs[i])
    ensures gs[i].target.None? ==> Strike(gs, i) == (gs, 0)
    ensures gs[i].target.Some? ==>
      LocateFrom(gs, gs[i], 0).Some? &&
      var t := LocateFrom(gs, gs[i], 0).value;
      gs[t] in gs &&
      var lost := UnitsLost(gs[t], DamageTo(gs[i], gs[t]));
      Strike(gs, i) == (gs[t := gs[t].(units := gs[t].units - lost)], lost)
  {
    if gs[i].target.Some? {
      Located(gs, gs[i]);
    }
  }

  /** The exit check of `run`: which armies still have groups. */
  method CheckArmies(gs: seq<Group>) returns (immune: bool, infection: bool)
    ensures immune == HasArmy(gs, Immune) && infection == HasArmy(gs, Infection)
  {
    immune, infection := false, false;
    for i := 0 to |gs|
      invariant immune == exists k :: 0 <= k < i && gs[k].army == Immune
      invariant infection == exists k :: 0 <= k < i && gs[k].army == Infection
    {
      match gs[i].army
      case Infection => infection := true;
      case Immune => immune := true;
    }
  }

  /** `run`: rounds of targeting and attacking until an army is gone or a round kills nobody. */
  method RunBattle(initial: seq<Group>, boost: int) returns (winner: Army, units: int)
    requires Valid(initial) && boost >= 0
    ensures (winner, units) == Run(initial, boost)
  {
    var groups := Boosted(initial, boost);
    ghost var start := groups;
    var foundImmune, foundInfection := true, true;
    while foundImmune && foundInfection
      invariant Valid(groups)
      invariant foundImmune && foundInfection ==> Fight(groups) == Fight(start)
      invariant !(foundImmune && foundInfection) ==>
        Fight(start) == Ended(groups) && foundImmune == HasArmy(groups, Immune)
      decreases SumUnits(groups)
    {
      SumNonNegative(groups);
      OrderedReady(groups);
      var sorted := SortBy(Targeting, groups);
      var chosen := SelectTargets(sorted);
      var ordered := SortBy(Attacking, chosen);
      var after, killed := AttackAll(ordered);
      assert (after, killed) == Round(groups);
      if killed == 0 {
        assert Fight(groups) == Stalemate;
        return Infection, 0;
      }
      SurvivorsAlive(after);
      var alive := Survivors(after);
      assert Fight(groups) == if HasArmy(alive, Immune) && HasArmy(alive, Infection) then Fight(alive) else Ended(alive);
      groups := alive;
      foundImmune, foundInfection := CheckArmies(groups);
    }
    var remaining := SumUnits(groups);
    if foundImmune {
      winner, units := Immune, remaining;
    } else {
      winner, units := Infection, remaining;
    }
  }

  /** Part a: the units left after the fight without a boost. */
  method A(groups: seq<Group>) returns (units: int)
    requires Valid(groups)
    ensures units == Run(groups, 0).1
  {
    var _, u := RunBattle(groups, 0);
    units := u;
  }

  /** Part b: tries boosts 1, 2, ... (up to `fuel`) until the immune system wins. */
  method B(groups: seq<Group>, fuel: nat) returns (units: Option<int>)
    requires Valid(groups)
    ensures units == AnswerB(groups, fuel)
  {
    var boost := 1;
    units := None;
    while boost <= fuel
      invariant 1 <= boost <= fuel + 1
      invariant LostUpTo(groups, boost - 1)
      invariant units == None && (boost > fuel ==> units == AnswerB(groups, fuel))
    {
      var won, left := TryBoost(groups, boost, fuel);
      if won {
        return Some(left);
      }
      boost := boost + 1;
    }
  }

  /** One step of `b`: the fight with the given boost, after every smaller boost lost. */
  method TryBoost(groups: seq<Group>, boost: nat, fuel: nat) returns (won: bool, left: int)
    requires Valid(groups) && 1 <= boost <= fuel
    requires LostUpTo(groups, boost - 1)
    ensures won ==> AnswerB(groups, fuel) == Some(left)
    ensures !won ==> LostUpTo(groups, boost)
    ensures !won && boost == fuel ==> AnswerB(groups, fuel) == None
  {
    var winners;
    winners, left := RunBattle(groups, boost);
    WinsWith(groups, boost, winners);
    won := winners == Immune;
    if won {
      FirstWinStable(ImmuneWins(groups), boost, fuel);
    }
  }

  /** No boost from 1 to `n` lets the immune system win. */
  predicate LostUpTo(groups: seq<Group>, n: nat)
  {
    FirstWin(ImmuneWins(groups), n).None?
  }
}
