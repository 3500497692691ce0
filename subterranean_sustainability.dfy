/**
 * Day 12 (12/src/main.rs): a row of pots, each empty or holding a plant,
 * evolves one generation at a time.  A pot's next state is decided by the
 * five pots centred on it, looked up among the transitions that grow a
 * plant.  The row is kept as a finite vector in which `zero` is the index
 * of pot 0; before each generation it is padded with empty pots whenever a
 * plant comes near either end, and the new generation is written into a
 * second buffer that then swaps with the first.
 */
module SubterraneanSustainability {
  import opened Wrappers

  /** `isize::MAX`, the starting value of the lowest plant. */
  const IsizeMax: int := 0x7fff_ffff_ffff_ffff

  /** How many pots at each end the padding checks in the source (`0..=2`, `1..=3`). */
  const WrittenReach: nat := 3

  /** How many pots at each end the padding must check for the update to see every plant. */
  const Reach: nat := 4

  /** A transition: the five pots it matches and whether the middle pot then holds a plant. */
  datatype Transition = Transition(state: seq<bool>, plantGrows: bool)

  /** The filter in `main`: only the transitions that grow a plant are kept, in their order. */
  function Growing(rules: seq<Transition>): (kept: seq<Transition>)
    ensures forall t :: t in kept <==> t in rules && t.plantGrows
    ensures |kept| <= |rules|
  {
    if rules == [] then []
    else (if rules[0].plantGrows then [rules[0]] else []) + Growing(rules[1..])
  }

  /** The first transition whose state equals `window` decides; when none does, no plant. */
  function Lookup(window: seq<bool>, rules: seq<Transition>): bool
  {
    if rules == [] then false
    else if rules[0].state == window then rules[0].plantGrows
    else Lookup(window, rules[1..])
  }

  /** Over growing transitions only, a window yields a plant exactly when some transition matches it. */
  lemma {:induction false} LookupGrowing(window: seq<bool>, rules: seq<Transition>)
    requires forall t :: t in rules ==> t.plantGrows
    ensures Lookup(window, rules) <==> exists t :: t in rules && t.state == window
  {
    if rules != [] {
      assert forall t :: t in rules[1..] ==> t in rules;
      LookupGrowing(window, rules[1..]);
      if rules[0].state != window {
        forall t | t in rules && t.state == window
          ensures t in rules[1..]
        {
          var i :| 0 <= i < |rules| && rules[i] == t;
          assert rules[1..][i - 1] == t;
        }
      }
    }
  }

  /** `transition`: scans the transitions in order and returns the outcome of the first match. */
  method ApplyTransitions(plantState: seq<bool>, transitions: seq<Transition>) returns (grows: bool)
    ensures grows == Lookup(plantState, transitions)
  {
    for i := 0 to |transitions|
      invariant Lookup(plantState, transitions[i..]) == Lookup(plantState, transitions)
    {
      assert transitions[i..][1..] == transitions[i + 1..];
      if transitions[i].state == plantState {
        return transitions[i].plantGrows;
      }
    }
    return false;
  }

  // ---------------------------------------------------------------------
  // The row and its padding
  // ---------------------------------------------------------------------

  /** The index of the first plant of `row`, or |row| when there is none. */
  function FirstPlant(row: seq<bool>): (f: nat)
    ensures f <= |row|
    ensures f < |row| ==> row[f]
    ensures forall i :: 0 <= i < f ==> !row[i]
  {
    if row == [] then 0
    else if row[0] then 0
    else 1 + FirstPlant(row[1..])
  }

  /** The index of the last plant of `row`, or -1 when there is none. */
  function LastPlant(row: seq<bool>): (l: int)
    ensures -1 <= l < |row|
    ensures l >= 0 ==> row[l]
    ensures forall i :: l < i < |row| ==> !row[i]
  {
    if row == [] then -1
    else if row[|row| - 1] then |row| - 1
    else LastPlant(row[..|row| - 1])
  }

  function Falses(n: nat): seq<bool>
  {
    seq(n, _ => false)
  }

  /**
   * The empty pots inserted at the front: when the first plant lies among
   * the first `reach` pots, enough to bring it to index 4.
   */
  function FrontPad(row: seq<bool>, reach: nat): nat
    requires reach <= 4
  {
    var f := FirstPlant(row);
    if f < reach && f < |row| then 4 - f else 0
  }

  /**
   * The empty pots appended at the back: when the last plant lies among the
   * last `reach` pots, enough to leave four empty pots after it.
   */
  function BackPad(row: seq<bool>, reach: nat): nat
    requires reach <= 4
  {
    var l := LastPlant(row);
    if l >= 0 && |row| - l <= reach then 5 - (|row| - l) else 0
  }

  /** The row after both padding checks: front first, then back. */
  function Pad(row: seq<bool>, reach: nat): seq<bool>
    requires reach <= 4
  {
    var front := Falses(FrontPad(row, reach)) + row;
    front + Falses(BackPad(front, reach))
  }

  /**
   * One generation written into the second buffer: pots 2 to len - 3 from
   * the five pots around them, the two pots at each end left empty.
   */
  function Evolve(row: seq<bool>, rules: seq<Transition>): seq<bool>
  {
    seq(|row|, i requires 0 <= i < |row| => 2 <= i < |row| - 2 && Lookup(row[i - 2..i + 3], rules))
  }

  /** The row together with `zero`, the index in it of pot 0. */
  datatype State = State(row: seq<bool>, zero: int)

  /** One iteration of the generation loop, with padding checks reaching `reach` pots. */
  function Step(s: State, rules: seq<Transition>, reach: nat): State
    requires reach <= 4
  {
    State(Evolve(Pad(s.row, reach), rules), s.zero + FrontPad(s.row, reach))
  }

  function Iterate(n: nat, s: State, rules: seq<Transition>, reach: nat): State
    requires reach <= 4
  {
    if n == 0 then s else Step(Iterate(n - 1, s, rules, reach), rules, reach)
  }

  // ---------------------------------------------------------------------
  // The pots the row stands for
  // ---------------------------------------------------------------------

  /** Pot p (numbered from the first pot of the input) holds a plant. */
  predicate Has(s: State, p: int)
  {
    0 <= p + s.zero < |s.row| && s.row[p + s.zero]
  }

  /** The five pots centred on pot p. */
  function Window(s: State, p: int): seq<bool>
  {
    seq(5, k requires 0 <= k < 5 => Has(s, p - 2 + k))
  }

  /** Five empty pots grow nothing (otherwise plants would fill the endless row). */
  predicate Quiet(rules: seq<Transition>)
  {
    !Lookup(Falses(5), rules)
  }

  /** The automaton the puzzle describes, on the endless row: pot p after n generations. */
  function AliveAfter(n: nat, s: State, rules: seq<Transition>, p: int): bool
    decreases n
  {
    if n == 0 then Has(s, p)
    else Lookup(seq(5, k requires 0 <= k < 5 => AliveAfter(n - 1, s, rules, p - 2 + k)), rules)
  }

  /** Padding moves `zero` with the inserted pots, so the plants stay where they are. */
  lemma PadKeepsPots(s: State, reach: nat)
    requires reach <= 4
    ensures forall p :: Has(State(Pad(s.row, reach), s.zero + FrontPad(s.row, reach)), p) <==> Has(s, p)
  {
    var front := FrontPad(s.row, reach);
    var padded := Pad(s.row, reach);
    forall p
      ensures Has(State(padded, s.zero + front), p) <==> Has(s, p)
    {
      var j := p + s.zero;
      if 0 <= j < |s.row| {
        assert padded[j + front] == s.row[j];
      }
    }
  }

  /** After padding, the first and last `reach` pots are empty. */
  lemma PadEnds(row: seq<bool>, reach: nat)
    requires reach <= 4
    ensures var padded := Pad(row, reach);
      |padded| >= |row| && forall i :: 0 <= i < |padded| && (i < reach || i >= |padded| - reach) ==> !padded[i]
  {
    var fp := FrontPad(row, reach);
    var front := Falses(fp) + row;
    var bp := BackPad(front, reach);
    var padded := front + Falses(bp);
    assert forall i :: 0 <= i < |row| ==> front[fp + i] == row[i];
    forall i | 0 <= i < |padded| && (i < reach || i >= |padded| - reach)
      ensures !padded[i]
    {
      if i < |front| {
        assert padded[i] == front[i];
        if i < reach && fp <= i {
          assert front[i] == row[i - fp];
        }
      }
    }
  }

  /** A window of empty pots is the all-empty window. */
  lemma EmptyWindow(s: State, p: int)
    requires !Has(s, p - 2) && !Has(s, p - 1) && !Has(s, p) && !Has(s, p + 1) && !Has(s, p + 2)
    ensures Window(s, p) == Falses(5)
  {
  }

  /**
   * With the padding checking four pots at each end and five empty pots
   * growing nothing, one generation of the row is exactly one generation of
   * the automaton: pot p holds a plant afterwards iff its window grows one.
   */
  lemma StepSound(s: State, rules: seq<Transition>)
    requires Quiet(rules)
    ensures forall p :: Has(Step(s, rules, Reach), p) <==> Lookup(Window(s, p), rules)
  {
    var front := FrontPad(s.row, Reach);
    var padded := Pad(s.row, Reach);
    var ps := State(padded, s.zero + front);
    PadKeepsPots(s, Reach);
    PadEnds(s.row, Reach);
    var next := Step(s, rules, Reach);
    forall p
      ensures Has(next, p) <==> Lookup(Window(s, p), rules)
    {
      var j := p + ps.zero;
      assert Window(s, p) == Window(ps, p);
      if 2 <= j < |padded| - 2 {
        assert padded[j - 2..j + 3] == Window(ps, p);
      } else {
        EmptyWindow(ps, p);
      }
    }
  }

  /** Every generation of the row agrees with the automaton on every pot. */
  lemma {:induction false} IterateSound(n: nat, s: State, rules: seq<Transition>)
    requires Quiet(rules)
    ensures forall p :: Has(Iterate(n, s, rules, Reach), p) <==> AliveAfter(n, s, rules, p)
  {
    if n > 0 {
      var prev := Iterate(n - 1, s, rules, Reach);
      IterateSound(n - 1, s, rules);
      StepSound(prev, rules);
      forall p
        ensures Has(Iterate(n, s, rules, Reach), p) <==> AliveAfter(n, s, rules, p)
      {
        assert Window(prev, p) == seq(5, k requires 0 <= k < 5 => AliveAfter(n - 1, s, rules, p - 2 + k));
      }
    }
  }

  /**
   * The padding as written checks only three pots at each end, and the two
   * end pots at each side are never recomputed: with the first plant at
   * index 3 the plant that pot 1 should grow is lost.
   */
  lemma MissedPlant()
    ensures var s := State([false, false, false, true], 0);
      var rules := [Transition([false, false, false, false, true], true)];
      Quiet(rules) && Lookup(Window(s, 1), rules) && !Has(Step(s, rules, WrittenReach), 1)
  {
    var s := State([false, false, false, true], 0);
    var rules := [Transition([false, false, false, false, true], true)];
    assert Window(s, 1) == [false, false, false, false, true];
    assert FirstPlant(s.row) == 3;
    assert Falses(5) != [false, false, false, false, true] by {
      assert Falses(5)[4] != true;
    }
  }

  // ---------------------------------------------------------------------
  // The score of a row
  // ---------------------------------------------------------------------

  /** The sum of the pot numbers holding plants. */
  function PotSum(row: seq<bool>, zero: int): int
  {
    if row == [] then 0
    else PotSum(row[..|row| - 1], zero) + (if row[|row| - 1] then |row| - 1 - zero else 0)
  }

  /** The number of plants. */
  function PotCount(row: seq<bool>): nat
  {
    if row == [] then 0
    else PotCount(row[..|row| - 1]) + (if row[|row| - 1] then 1 else 0)
  }

  /** The lowest pot number holding a plant (capped at `isize::MAX`), or `isize::MAX` when none does. */
  function LowestPlant(row: seq<bool>, zero: int): int
  {
    if FirstPlant(row) < |row| then Min(FirstPlant(row) - zero, IsizeMax) else IsizeMax
  }

  /** The lowest plant is a plant, and no plant lies below it. */
  lemma LowestIsLeast(row: seq<bool>, zero: int)
    ensures forall p :: Has(State(row, zero), p) ==> LowestPlant(row, zero) <= p
    ensures LowestPlant(row, zero) < IsizeMax ==> Has(State(row, zero), LowestPlant(row, zero))
    ensures (forall p :: !Has(State(row, zero), p)) ==> LowestPlant(row, zero) == IsizeMax
  {
    if FirstPlant(row) < |row| {
      assert Has(State(row, zero), FirstPlant(row) - zero);
    }
  }

  /** Empty pots appended at the back change neither the sum nor the count. */
  lemma {:induction false} ScoreBack(row: seq<bool>, zero: int, n: nat)
    ensures PotSum(row + Falses(n), zero) == PotSum(row, zero)
    ensures PotCount(row + Falses(n)) == PotCount(row)
  {
    if n > 0 {
      assert (row + Falses(n))[..|row| + n - 1] == row + Falses(n - 1);
      ScoreBack(row, zero, n - 1);
    } else {
      assert row + Falses(n) == row;
    }
  }

  /** Empty pots inserted at the front, with `zero` moved along, change neither the sum nor the count. */
  lemma {:induction false} ScoreFront(row: seq<bool>, zero: int, n: nat)
    ensures PotSum(Falses(n) + row, zero + n) == PotSum(row, zero)
    ensures PotCount(Falses(n) + row) == PotCount(row)
  {
    if row == [] {
      ScoreBack([], zero + n, n);
      assert [] + Falses(n) == Falses(n) + [];
    } else {
      var last := |row| - 1;
      assert (Falses(n) + row)[..n + last] == Falses(n) + row[..last];
      ScoreFront(row[..last], zero, n);
    }
  }

  /** The score is a property of the plants, not of the padding around them. */
  lemma ScoreOfPad(row: seq<bool>, zero: int, reach: nat)
    requires reach <= 4
    ensures PotSum(Pad(row, reach), zero + FrontPad(row, reach)) == PotSum(row, zero)
    ensures PotCount(Pad(row, reach)) == PotCount(row)
  {
    var fp := FrontPad(row, reach);
    var front := Falses(fp) + row;
    ScoreFront(row, zero, fp);
    ScoreBack(front, zero + fp, BackPad(front, reach));
  }

  // ---------------------------------------------------------------------
  // run_generations
  // ---------------------------------------------------------------------

  /** The front check, reaching four pots: insert empty pots one at a time, moving `zero` along. */
  method PadFront(row: seq<bool>, zero: int) returns (padded: seq<bool>, zero': int)
    ensures padded == Falses(FrontPad(row, Reach)) + row
    ensures zero' == zero + FrontPad(row, Reach)
  {
    padded, zero' := row, zero;
    for offset := 0 to Reach
      invariant forall i :: 0 <= i < offset && i < |row| ==> !row[i]
    {
      if offset < |row| && row[offset] {
        for k := 0 to 4 - offset
          invariant padded == Falses(k) + row && zero' == zero + k
        {
          padded := [false] + padded;
          zero' := zero' + 1;
        }
        return;
      }
    }
  }

  /** The back check, reaching four pots: resize with empty pots past the last plant. */
  method PadBack(row: seq<bool>) returns (padded: seq<bool>)
    ensures padded == row + Falses(BackPad(row, Reach))
  {
    padded := row;
    for offset := 1 to Reach + 1
      invariant forall i :: |row| - offset < i < |row| && 0 <= i ==> !row[i]
    {
      var len := |padded|;
      if offset <= len && padded[len - offset] {
        padded := padded + Falses(5 - offset);
        return;
      }
    }
  }

  /** The inner loop: pots 2 to len - 3 of the second buffer from the windows of the first. */
  method Fill(cur: seq<bool>, other: seq<bool>, transitions: seq<Transition>) returns (next: seq<bool>)
    requires |other| == |cur|
    ensures |next| == |cur|
    ensures forall i :: 2 <= i < |cur| - 2 ==> next[i] == Lookup(cur[i - 2..i + 3], transitions)
    ensures forall i :: 0 <= i < |cur| && (i < 2 || i >= |cur| - 2) ==> next[i] == other[i]
  {
    next := other;
    var end := if |cur| >= 4 then |cur| - 2 else 2;
    for i := 2 to end
      invariant |next| == |cur|
      invariant forall j :: 2 <= j < i ==> next[j] == Lookup(cur[j - 2..j + 3], transitions)
      invariant forall j :: 0 <= j < |cur| && (j < 2 || j >= i) ==> next[j] == other[j]
    {
      var grows := ApplyTransitions(cur[i - 2..i + 3], transitions);
      next := next[i := grows];
    }
  }

  /** The second buffer has no plant among its first two and last two pots, and is no longer than the first. */
  predicate Stale(other: seq<bool>, cur: seq<bool>)
  {
    |other| <= |cur| && forall i :: 0 <= i < |other| && (i < 2 || i >= |other| - 2) ==> !other[i]
  }

  /** One generation on the two buffers; they come back swapped. */
  method Generation(cur: seq<bool>, other: seq<bool>, zero: int, transitions: seq<Transition>)
    returns (cur': seq<bool>, other': seq<bool>, zero': int)
    requires Stale(other, cur)
    ensures State(cur', zero') == Step(State(cur, zero), transitions, Reach)
    ensures Stale(other', cur')
  {
    var padded, z := PadFront(cur, zero);
    padded := PadBack(padded);
    var len := |padded|;
    var kept := Min(|other|, len);
    var resized := other[..kept] + Falses(len - kept);
    var next := Fill(padded, resized, transitions);
    PadEnds(cur, Reach);
    assert next == Evolve(padded, transitions);
    cur', other', zero' := next, padded, z;
  }

  /**
   * `run_generations`, with the padding checks reaching four pots (see the
   * findings): the row after `generations` generations and its score.
   */
  method RunGenerations(generations: nat, initialState: seq<bool>, transitions: seq<Transition>)
    returns (sum: int, lowestPlant: int, numPlants: nat)
    ensures var s := Iterate(generations, State(initialState, 0), transitions, Reach);
      sum == PotSum(s.row, s.zero) && lowestPlant == LowestPlant(s.row, s.zero) && numPlants == PotCount(s.row)
  {
    var cur, other, zero := initialState, Falses(|initialState|), 0;
    for generation := 0 to generations
      invariant State(cur, zero) == Iterate(generation, State(initialState, 0), transitions, Reach)
      invariant Stale(other, cur)
    {
      cur, other, zero := Generation(cur, other, zero, transitions);
    }
    sum, lowestPlant, numPlants := Score(cur, zero);
  }

  /** The closing loop: sum, lowest pot number and count of the plants. */
  method Score(row: seq<bool>, zero: int) returns (sum: int, lowestPlant: int, numPlants: nat)
    ensures sum == PotSum(row, zero) && lowestPlant == LowestPlant(row, zero) && numPlants == PotCount(row)
  {
    sum, lowestPlant, numPlants := 0, IsizeMax, 0;
    for i := 0 to |row|
      invariant sum == PotSum(row[..i], zero) && numPlants == PotCount(row[..i])
      invariant lowestPlant == if FirstPlant(row) < i then Min(FirstPlant(row) - zero, IsizeMax) else IsizeMax
    {
      assert row[..i + 1][..i] == row[..i];
      if row[i] {
        var realIndex := i - zero;
        if realIndex < lowestPlant {
          lowestPlant := realIndex;
        }
        sum := sum + realIndex;
        numPlants := numPlants + 1;
      }
    }
    assert row[..|row|] == row;
  }
}
