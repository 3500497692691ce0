/**
 * Day 1 (1/src/main.rs, and the same `a` and `b` in 1/main.rs): a list of
 * frequency changes, their sum, and the first running frequency reached a
 * second time while the list is applied over and over.
 */
module ChronalCalibration {
  import opened Wrappers
  import opened Arithmetic

  /** The sum of all changes. */
  function Sum(movements: seq<int>): int
  {
    if movements == [] then 0 else Sum(movements[..|movements| - 1]) + movements[|movements| - 1]
  }

  /** Part A: the loop that adds every change to a frequency starting at 0. */
  method A(movements: seq<int>) returns (freq: int)
    ensures freq == Sum(movements)
  {
    freq := 0;
    for i := 0 to |movements|
      invariant freq == Sum(movements[..i])
    {
      assert movements[..i + 1][..i] == movements[..i];
      freq := freq + movements[i];
    }
    assert movements[..|movements|] == movements;
  }

  /** Summing two lists one after the other adds their sums. */
  lemma {:induction false} SumAppend(p: seq<int>, q: seq<int>)
    ensures Sum(p + q) == Sum(p) + Sum(q)
    decreases |q|
  {
    if q != [] {
      var q' := q[..|q| - 1];
      assert (p + q)[..|p + q| - 1] == p + q';
      assert (p + q)[|p + q| - 1] == q[|q| - 1];
      SumAppend(p, q');
      assert Sum(q) == Sum(q') + q[|q| - 1];
    } else {
      assert p + q == p;
    }
  }

  /**
   * The running frequency after `k` changes, the list being restarted from
   * its beginning whenever it runs out.
   */
  function Running(movements: seq<int>, k: nat): int
    requires |movements| > 0
  {
    if k == 0 then 0 else Running(movements, k - 1) + movements[(k - 1) % |movements|]
  }

  /** One full pass over the list shifts every later running frequency by the list's sum. */
  lemma {:induction false} RunningPeriodic(movements: seq<int>, k: nat)
    requires |movements| > 0
    ensures Running(movements, k + |movements|) == Running(movements, k) + Sum(movements)
    decreases k
  {
    var n := |movements|;
    if k == 0 {
      RunningPrefix(movements, n);
      assert movements[..n] == movements;
    } else {
      RunningPeriodic(movements, k - 1);
      assert (k + n - 1) % n == (k - 1) % n by {
        ModShift(k - 1, n);
      }
    }
  }

  lemma ModShift(a: nat, n: nat)
    requires n > 0
    ensures (a + n) % n == a % n
  {
    DivModUnique(a + n, n, a / n + 1, a % n);
  }

  /** Within the first pass the running frequency is the sum of a prefix. */
  lemma {:induction false} RunningPrefix(movements: seq<int>, k: nat)
    requires 0 < |movements| && k <= |movements|
    ensures Running(movements, k) == Sum(movements[..k])
    decreases k
  {
    if k > 0 {
      RunningPrefix(movements, k - 1);
      DivModUnique(k - 1, |movements|, 0, k - 1);
      assert movements[..k][..k - 1] == movements[..k - 1];
    }
  }

  /**
   * When the changes sum to zero, the frequency after one change comes back
   * after one more full pass, so part B's search is bound to stop.
   */
  lemma ZeroSumRepeats(movements: seq<int>)
    requires |movements| > 0 && Sum(movements) == 0
    ensures Running(movements, |movements| + 1) == Running(movements, 1)
  {
    RunningPeriodic(movements, 1);
  }

  /** The running frequencies after 1 ..= k-1 changes are pairwise distinct. */
  predicate DistinctBefore(movements: seq<int>, k: nat)
    requires |movements| > 0
  {
    forall a, b :: 1 <= a < b < k ==> Running(movements, a) != Running(movements, b)
  }

  /** The running frequencies after 1 ..= k changes. */
  function Seen(movements: seq<int>, k: nat): set<int>
    requires |movements| > 0
  {
    set a | 1 <= a <= k :: Running(movements, a)
  }

  /**
   * Part B: applies the changes cyclically, recording each running
   * frequency (but never the starting 0) in `seen`, and stops at the first
   * one already recorded.  `steps` is how many changes were applied;
   * `fuel` bounds it, standing in for the source's unbounded loop, which
   * never ends on an empty list.
   */
  method B(movements: seq<int>, fuel: nat) returns (r: Option<int>, steps: nat)
    ensures r.Some? ==> |movements| > 0 && 1 <= steps <= fuel && r.value == Running(movements, steps)
    ensures r.Some? ==> DistinctBefore(movements, steps)
    ensures r.Some? ==> exists j :: 1 <= j < steps && Running(movements, j) == r.value
    ensures r.None? ==> |movements| == 0 || DistinctBefore(movements, fuel + 1)
  {
    if |movements| == 0 {
      return None, 0;
    }
    var seen: set<int> := {};
    var freq := 0;
    var i := 0;
    steps := 0;
    while steps < fuel
      invariant 0 <= i < |movements| && steps <= fuel && i == steps % |movements|
      invariant freq == Running(movements, steps)
      invariant seen == Seen(movements, steps)
      invariant DistinctBefore(movements, steps + 1)
    {
      freq := freq + movements[i];
      steps := steps + 1;
      if freq in seen {
        var j :| 1 <= j <= steps - 1 && Running(movements, j) == freq;
        return Some(freq), steps;
      }
      seen := seen + {freq};
      ModNext(steps - 1, |movements|);
      i := if i + 1 == |movements| then 0 else i + 1;
    }
    return None, steps;
  }

  /**
   * As written, the start frequency 0 is never recorded, so on [+1, -1]
   * the repeat of 0 after two changes goes unnoticed and 1 is reported
   * after three.
   */
  lemma StartNotRecorded()
    ensures Running([1, -1], 2) == Running([1, -1], 0)
    ensures DistinctBefore([1, -1], 3)
    ensures Running([1, -1], 3) == Running([1, -1], 1) == 1
  {
  }

  /**
   * Part B with the start frequency recorded from the outset: the result
   * is the first running frequency, counting the start, reached twice.
   */
  method FirstRepeat(movements: seq<int>, fuel: nat) returns (r: Option<int>, steps: nat)
    ensures r.Some? ==> |movements| > 0 && 1 <= steps <= fuel && r.value == Running(movements, steps)
    ensures r.Some? ==> forall a, b :: 0 <= a < b < steps ==> Running(movements, a) != Running(movements, b)
    ensures r.Some? ==> exists j :: 0 <= j < steps && Running(movements, j) == r.value
    ensures r.None? ==> (|movements| == 0 ||
      forall a, b :: 0 <= a < b <= fuel ==> Running(movements, a) != Running(movements, b))
  {
    if |movements| == 0 {
      return None, 0;
    }
    var seen: set<int> := {0};
    var freq := 0;
    var i := 0;
    steps := 0;
    while steps < fuel
      invariant 0 <= i < |movements| && steps <= fuel && i == steps % |movements|
      invariant freq == Running(movements, steps)
      invariant seen == Seen(movements, steps) + {0}
      invariant forall a, b :: 0 <= a < b <= steps ==> Running(movements, a) != Running(movements, b)
    {
      freq := freq + movements[i];
      steps := steps + 1;
      if freq in seen {
        if freq == 0 {
          assert Running(movements, 0) == freq;
        } else {
          var j :| 1 <= j <= steps - 1 && Running(movements, j) == freq;
        }
        return Some(freq), steps;
      }
      seen := seen + {freq};
      ModNext(steps - 1, |movements|);
      i := if i + 1 == |movements| then 0 else i + 1;
    }
    return None, steps;
  }

  /** With the start recorded, [+1, -1] reports 0 after two changes. */
  lemma FirstRepeatOfZero()
    ensures Running([1, -1], 2) == 0 && Running([1, -1], 1) != Running([1, -1], 0)
  {
  }
}
