/**
 * Day 4 (4/src/main.rs, and the inline version of the same loop in
 * 4/main.rs): guard shift records, sorted by time, turned into per-guard
 * tallies of how often each minute of the midnight hour was slept; then
 * the sleepiest guard with his sleepiest minute (strategy 1) and the guard
 * and minute with the single largest tally (strategy 2).
 */
module ReposeRecord {
  import opened Wrappers

  type Minute = m: nat | m < 60

  /** One record, already parsed and sorted; only the minute of its timestamp matters. */
  datatype Event = BeginsShift(guard: nat) | FallsAsleep(minute: Minute) | WakesUp(minute: Minute)

  /** A guard's sleep tally: one counter for each minute 00..59. */
  type Counts = c: seq<int> | |c| == 60 witness Zeros()

  function Zeros(): seq<int> { seq(60, _ => 0) }

  /** `for i in minute..60 { count[i] += delta }`. */
  function AddFrom(c: Counts, m: Minute, delta: int): (r: Counts)
    ensures forall i :: 0 <= i < 60 ==> r[i] == c[i] + (if i >= m then delta else 0)
  {
    seq(60, i requires 0 <= i < 60 => c[i] + (if i >= m then delta else 0))
  }

  /** The loop's state: the guard on duty, his running tally, whether he is awake, and the stored tallies. */
  datatype Tally = Tally(guard: nat, counts: Counts, awake: bool, schedules: map<nat, Counts>)

  const Initial: Tally := Tally(0, Zeros(), true, map[])

  /**
   * One record.  Falling asleep while awake adds one from that minute on and
   * waking while asleep takes one away from that minute on, so a nap counts
   * exactly on [sleep, wake); repeats are ignored.  A shift change stores
   * the previous guard's tally (unless no guard was on duty, id 0) and
   * resumes the new guard's stored tally, awake.
   */
  function Step(t: Tally, e: Event): Tally
  {
    match e
    case WakesUp(m) => if !t.awake then t.(awake := true, counts := AddFrom(t.counts, m, -1)) else t
    case FallsAsleep(m) => if t.awake then t.(awake := false, counts := AddFrom(t.counts, m, 1)) else t
    case BeginsShift(g) =>
      var saved := if t.guard != 0 then t.schedules[t.guard := t.counts] else t.schedules;
      Tally(g, if g in saved then saved[g] else Zeros(), true, saved)
  }

  function Fold(events: seq<Event>): Tally
  {
    if events == [] then Initial else Step(Fold(events[..|events| - 1]), events[|events| - 1])
  }

  /** `calculate_guard_schedules`: the stored tallies, with the last guard's written out at the end. */
  function Schedules(events: seq<Event>): map<nat, Counts>
  {
    var t := Fold(events);
    t.schedules[t.guard := t.counts]
  }

  /** The tallies of 4/main.rs, whose final write-out is commented out. */
  function SchedulesAsWritten(events: seq<Event>): map<nat, Counts>
  {
    Fold(events).schedules
  }

  /** A nap from `s` to `w` adds exactly one to the minutes in [s, w) and leaves the guard awake. */
  lemma NapCountsHalfOpen(t: Tally, s: Minute, w: Minute)
    requires t.awake && s <= w
    ensures var t' := Step(Step(t, FallsAsleep(s)), WakesUp(w));
      t'.awake && t'.guard == t.guard && t'.schedules == t.schedules &&
      forall i :: 0 <= i < 60 ==> t'.counts[i] == t.counts[i] + (if s <= i < w then 1 else 0)
  {
  }

  /** Falling asleep while asleep and waking while awake change nothing. */
  lemma RepeatsIgnored(t: Tally, m: Minute)
    ensures !t.awake ==> Step(t, FallsAsleep(m)) == t
    ensures t.awake ==> Step(t, WakesUp(m)) == t
  {
  }

  /**
   * A shift change stores the running tally under the previous guard,
   * resumes the new guard's stored tally (zeros for a guard not seen
   * before) and starts awake.
   */
  lemma ShiftSavesAndResumes(t: Tally, g: nat)
    requires t.guard != 0
    ensures var t' := Step(t, BeginsShift(g));
      t'.guard == g && t'.awake && t'.schedules == t.schedules[t.guard := t.counts] &&
      t'.counts == (if g == t.guard then t.counts else if g in t.schedules then t.schedules[g] else Zeros())
  {
  }

  /**
   * The loop shared by both versions: `counts` is the fixed 60-slot buffer
   * of the guard on duty, updated in place; a shift change copies it into
   * the map and loads the new guard's copy.
   */
  method Accumulate(events: seq<Event>) returns (schedules: map<nat, Counts>, guard: nat, last: Counts)
    ensures Tally(guard, last, Fold(events).awake, schedules) == Fold(events)
  {
    var counts := new int[60](_ => 0);
    var awake := true;
    guard := 0;
    schedules := map[];
    for k := 0 to |events|
      invariant counts.Length == 60
      invariant Tally(guard, counts[..], awake, schedules) == Fold(events[..k])
    {
      assert events[..k + 1][..k] == events[..k];
      ghost var before := counts[..];
      match events[k] {
        case WakesUp(m) =>
          if !awake {
            awake := true;
            for i := m to 60
              invariant forall j :: 0 <= j < 60 ==> counts[j] == before[j] - (if m <= j < i then 1 else 0)
            {
              counts[i] := counts[i] - 1;
            }
            assert counts[..] == AddFrom(before, m, -1);
          }
        case FallsAsleep(m) =>
          if awake {
            awake := false;
            for i := m to 60
              invariant forall j :: 0 <= j < 60 ==> counts[j] == before[j] + (if m <= j < i then 1 else 0)
            {
              counts[i] := counts[i] + 1;
            }
            assert counts[..] == AddFrom(before, m, 1);
          }
        case BeginsShift(g) =>
          if guard != 0 {
            schedules := schedules[guard := counts[..]];
          }
          guard := g;
          var resumed := if g in schedules then schedules[g] else Zeros();
          forall j | 0 <= j < 60 {
            counts[j] := resumed[j];
          }
          assert counts[..] == resumed;
          awake := true;
      }
    }
    assert events[..|events|] == events;
    last := counts[..];
  }

  /** `calculate_guard_schedules` (4/src/main.rs). */
  method CalculateGuardSchedules(events: seq<Event>) returns (schedules: map<nat, Counts>)
    ensures schedules == Schedules(events)
    ensures Fold(events).guard in schedules
  {
    var guard, last;
    schedules, guard, last := Accumulate(events);
    schedules := schedules[guard := last];
  }

  /** The accumulation inside `a` of 4/main.rs, as written. */
  method CalculateAsWritten(events: seq<Event>) returns (schedules: map<nat, Counts>)
    ensures schedules == SchedulesAsWritten(events)
  {
    var guard, last;
    schedules, guard, last := Accumulate(events);
  }

  /**
   * A single shift with one nap: 4/main.rs stores nothing at all (and its
   * `a` then fails to find the chosen guard), while the write-out of
   * 4/src/main.rs records the nap.
   */
  lemma LastShiftLost()
    ensures SchedulesAsWritten([BeginsShift(10), FallsAsleep(5), WakesUp(25)]) == map[]
    ensures var s := Schedules([BeginsShift(10), FallsAsleep(5), WakesUp(25)]);
      10 in s && s[10][5] == 1 && s[10][24] == 1 && s[10][25] == 0 && s[10][4] == 0
  {
    var e := [BeginsShift(10), FallsAsleep(5), WakesUp(25)];
    assert e[..2][..1] == [BeginsShift(10)] && e[..2] == [BeginsShift(10), FallsAsleep(5)];
    assert e[..1] == [BeginsShift(10)] && [BeginsShift(10)][..0] == [];
    var t1 := Fold([BeginsShift(10)]);
    assert t1 == Tally(10, Zeros(), true, map[]);
    NapCountsHalfOpen(t1, 5, 25);
  }

  // ---------------------------------------------------------------------
  // Choosing the guard and the minute
  // ---------------------------------------------------------------------

  function Total(c: seq<int>): int
  {
    if c == [] then 0 else Total(c[..|c| - 1]) + c[|c| - 1]
  }

  /** `order` lists the keys of `schedules` once each: the map's iteration order. */
  ghost predicate IterationOrder(schedules: map<nat, Counts>, order: seq<nat>)
  {
    (forall g :: g in schedules <==> g in order) &&
    (forall i, j :: 0 <= i < j < |order| ==> order[i] != order[j])
  }

  /** The first minute with the largest count (count 0 and minute 0 when none is positive). */
  method SleepiestMinute(c: Counts) returns (minute: Minute, count: int)
    ensures count >= 0 && forall m :: 0 <= m < 60 ==> c[m] <= count
    ensures (count == 0 && minute == 0) || (count == c[minute] && forall m :: 0 <= m < minute ==> c[m] < count)
  {
    minute, count := 0, 0;
    for m := 0 to 60
      invariant count >= 0 && forall m' :: 0 <= m' < m ==> c[m'] <= count
      invariant (count == 0 && minute == 0) || (minute < m && count == c[minute] && forall m' :: 0 <= m' < minute ==> c[m'] < count)
    {
      if count < c[m] {
        count := c[m];
        minute := m;
      }
    }
  }

  /**
   * `a`: the guard with the largest total (the first strictly larger in
   * iteration order wins), then his first sleepiest minute.  `None` stands
   * for the source's failed lookup of the chosen guard.
   */
  method A(schedules: map<nat, Counts>, order: seq<nat>) returns (r: Option<(nat, Minute)>)
    requires IterationOrder(schedules, order)
    ensures r.Some? ==> r.value.0 in schedules
    ensures r.Some? ==> forall g :: g in schedules ==> Total(schedules[g]) <= Total(schedules[r.value.0]) || Total(schedules[g]) <= 0
    ensures r.Some? ==> forall m :: 0 <= m < 60 ==> schedules[r.value.0][m] <= schedules[r.value.0][r.value.1] || schedules[r.value.0][m] <= 0
    ensures r.None? ==> 0 !in schedules && forall g :: g in schedules ==> Total(schedules[g]) <= 0
    ensures r.Some? ==> forall m :: 0 <= m < r.value.1 ==> schedules[r.value.0][m] < schedules[r.value.0][r.value.1]
    ensures r.Some? && Total(schedules[r.value.0]) > 0 ==>
      forall i, j :: 0 <= i < j < |order| && order[j] == r.value.0 ==> Total(schedules[order[i]]) < Total(schedules[r.value.0])
    ensures r.Some? && Total(schedules[r.value.0]) <= 0 ==> r.value.0 == 0
  {
    var maxSleep := 0;
    var maxGuard := 0;
    ghost var best := -1;
    for k := 0 to |order|
      invariant maxSleep >= 0 && forall j :: 0 <= j < k ==> Total(schedules[order[j]]) <= maxSleep
      invariant (maxSleep == 0 && maxGuard == 0) || (maxGuard in schedules && Total(schedules[maxGuard]) == maxSleep)
      invariant maxSleep == 0 ==> maxGuard == 0
      invariant maxSleep > 0 ==> 0 <= best < k && order[best] == maxGuard
      invariant maxSleep > 0 ==> forall i :: 0 <= i < best ==> Total(schedules[order[i]]) < maxSleep
    {
      var sleep := 0;
      var c := schedules[order[k]];
      for i := 0 to 60
        invariant sleep == Total(c[..i])
      {
        assert c[..i + 1][..i] == c[..i];
        sleep := sleep + c[i];
      }
      assert c[..60] == c;
      if maxSleep < sleep {
        maxSleep := sleep;
        maxGuard := order[k];
        best := k;
      }
    }
    if maxGuard !in schedules {
      forall g | g in schedules ensures Total(schedules[g]) <= 0 {
        var j :| 0 <= j < |order| && order[j] == g;
      }
      return None;
    }
    forall g | g in schedules ensures Total(schedules[g]) <= Total(schedules[maxGuard]) || Total(schedules[g]) <= 0 {
      var j :| 0 <= j < |order| && order[j] == g;
    }
    var minute, _ := SleepiestMinute(schedules[maxGuard]);
    return Some((maxGuard, minute));
  }

  /**
   * Every count of a guard listed before position `best` of `order`, and
   * every count of that guard before `minute`, is below `count`.
   */
  ghost predicate EarlierWeaker(schedules: map<nat, Counts>, order: seq<nat>, best: int, minute: Minute, count: int)
    requires IterationOrder(schedules, order) && 0 <= best < |order|
  {
    forall i, m :: 0 <= i <= best && 0 <= m < 60 && (i < best || m < minute) ==> schedules[order[i]][m] < count
  }

  /**
   * `b`: the (guard, minute) pair with the largest single count, the first
   * strictly larger one in iteration order winning; guard 0 and minute 0
   * when no count is positive.
   */
  method B(schedules: map<nat, Counts>, order: seq<nat>) returns (guard: nat, minute: Minute, count: int)
    requires IterationOrder(schedules, order)
    ensures count >= 0 && forall g, m :: g in schedules && 0 <= m < 60 ==> schedules[g][m] <= count
    ensures (count == 0 && guard == 0 && minute == 0) || (guard in schedules && schedules[guard][minute] == count)
    ensures count > 0 ==> forall i, j, m :: 0 <= i <= j < |order| && order[j] == guard && 0 <= m < 60 && (i < j || m < minute) ==>
      schedules[order[i]][m] < count
  {
    guard, minute, count := 0, 0, 0;
    ghost var best := -1;
    for k := 0 to |order|
      invariant count >= 0 && forall j, m :: 0 <= j < k && 0 <= m < 60 ==> schedules[order[j]][m] <= count
      invariant (count == 0 && guard == 0 && minute == 0) || (guard in schedules && schedules[guard][minute] == count)
      invariant count > 0 ==> 0 <= best < k && order[best] == guard
      invariant count > 0 ==> EarlierWeaker(schedules, order, best, minute, count)
    {
      var c := schedules[order[k]];
      for m := 0 to 60
        invariant count >= 0 && forall j, m' :: 0 <= j < k && 0 <= m' < 60 ==> schedules[order[j]][m'] <= count
        invariant forall m' :: 0 <= m' < m ==> c[m'] <= count
        invariant (count == 0 && guard == 0 && minute == 0) || (guard in schedules && schedules[guard][minute] == count)
        invariant count > 0 ==> 0 <= best <= k && order[best] == guard
        invariant count > 0 ==> EarlierWeaker(schedules, order, best, minute, count)
      {
        if count < c[m] {
          count := c[m];
          guard := order[k];
          minute := m;
          best := k;
        }
      }
    }
    if count > 0 {
      forall i, j, m | 0 <= i <= j < |order| && order[j] == guard && 0 <= m < 60 && (i < j || m < minute)
        ensures schedules[order[i]][m] < count
      {
        assert j == best;
      }
    }
    forall g, m | g in schedules && 0 <= m < 60 ensures schedules[g][m] <= count {
      var j :| 0 <= j < |order| && order[j] == g;
    }
  }
}
