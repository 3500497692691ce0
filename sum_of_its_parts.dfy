/**
 * Day 7 (7/src/main.rs): steps 'A'..='Z' with "X must be finished before
 * Y" dependencies.  Part A emits steps one at a time, always the
 * alphabetically first step whose prerequisites have all run; part B runs
 * them on a pool of workers, a step taking its letter position plus a fixed
 * time, and counts the seconds until every worker is idle.
 */
module SumOfItsParts {
  import opened Wrappers

  /** A dependency `(from, to)`: `from` must finish before `to` can begin. */
  type Dependency = (char, char)

  predicate IsStep(c: char)
  {
    'A' <= c <= 'Z'
  }

  /** Every prerequisite of a step is itself a step. */
  predicate Closed(dependsOn: map<char, seq<char>>)
  {
    forall c, d :: c in dependsOn && IsStep(c) && d in dependsOn[c] ==> IsStep(d)
  }

  /** The steps in the order both parts scan them. */
  function Letters(): (r: seq<char>)
    ensures |r| == 26
    ensures forall i :: 0 <= i < 26 ==> r[i] == (65 + i) as char
  {
    seq(26, i requires 0 <= i < 26 => (65 + i) as char)
  }

  lemma LettersAreSteps()
    ensures forall c :: c in Letters() <==> IsStep(c)
    ensures forall i, j :: 0 <= i < j < 26 ==> Letters()[i] < Letters()[j]
  {
    forall c | IsStep(c) ensures c in Letters() {
      assert Letters()[c as int - 65] == c;
    }
  }

  function StepSet(): set<char>
  {
    set c | c in Letters()
  }

  /** The steps of a sequence, as a set. */
  function Elems(s: seq<char>): set<char>
  {
    set c | c in s
  }

  // ---------------------------------------------------------------------
  // The dependency table
  // ---------------------------------------------------------------------

  /** The prerequisites of `to`, in input order. */
  function Prereqs(deps: seq<Dependency>, to: char): seq<char>
  {
    if deps == [] then []
    else Prereqs(deps[..|deps| - 1], to) + (if deps[|deps| - 1].1 == to then [deps[|deps| - 1].0] else [])
  }

  /** Every step named on either side of a dependency. */
  ghost predicate Mentioned(deps: seq<Dependency>, c: char)
  {
    exists p :: p in deps && (p.0 == c || p.1 == c)
  }

  lemma {:induction false} PrereqsUnmentioned(deps: seq<Dependency>, c: char)
    ensures !Mentioned(deps, c) ==> Prereqs(deps, c) == []
    decreases |deps|
  {
    if deps != [] && !Mentioned(deps, c) {
      var init := deps[..|deps| - 1];
      assert !Mentioned(init, c) by {
        forall p | p in init ensures p.0 != c && p.1 != c {
          assert p in deps;
        }
      }
      PrereqsUnmentioned(init, c);
      assert deps[|deps| - 1] in deps;
    }
  }

  predicate Sorted(s: seq<char>)
  {
    forall i, j :: 0 <= i < j < |s| ==> s[i] <= s[j]
  }

  /** Inserting `c` after the elements not above it and before the rest keeps a list sorted. */
  lemma InsertSorted(r: seq<char>, k: nat, c: char)
    requires Sorted(r) && k <= |r|
    requires forall j :: 0 <= j < k ==> r[j] <= c
    requires k == |r| || c < r[k]
    ensures Sorted(r[..k] + [c] + r[k..])
  {
    var t := r[..k] + [c] + r[k..];
    forall i, j | 0 <= i < j < |t|
      ensures t[i] <= t[j]
    {
      if j == k {
        assert t[i] == r[i];
      } else if i == k {
        assert t[j] == r[j - 1];
      }
    }
  }

  /** `Vec::sort` on a prerequisite list: insertion sort. */
  method Sort(s: seq<char>) returns (r: seq<char>)
    ensures Sorted(r) && multiset(r) == multiset(s)
  {
    r := [];
    for i := 0 to |s|
      invariant Sorted(r) && multiset(r) == multiset(s[..i])
    {
      var c := s[i];
      var k := 0;
      while k < |r| && r[k] <= c
        invariant 0 <= k <= |r|
        invariant forall j :: 0 <= j < k ==> r[j] <= c
      {
        k := k + 1;
      }
      InsertSorted(r, k, c);
      assert r == r[..k] + r[k..];
      r := r[..k] + [c] + r[k..];
      assert s[..i + 1] == s[..i] + [c];
    }
    assert s[..|s|] == s;
  }

  lemma MentionedAppend(deps: seq<Dependency>, p: Dependency)
    ensures forall c :: Mentioned(deps + [p], c) <==> Mentioned(deps, c) || c == p.0 || c == p.1
  {
    forall c ensures Mentioned(deps + [p], c) <==> Mentioned(deps, c) || c == p.0 || c == p.1 {
      if Mentioned(deps + [p], c) {
        var q :| q in deps + [p] && (q.0 == c || q.1 == c);
        assert q in deps || q == p;
      }
      if c == p.0 || c == p.1 {
        assert p in deps + [p];
      }
      if Mentioned(deps, c) {
        var q :| q in deps && (q.0 == c || q.1 == c);
        assert q in deps + [p];
      }
    }
  }

  /** The table the first loop builds over `deps`, an entry added for both sides of each dependency. */
  function Table(deps: seq<Dependency>): map<char, seq<char>>
  {
    if deps == [] then map[]
    else
      var m := Table(deps[..|deps| - 1]);
      var (from, to) := deps[|deps| - 1];
      var m1 := if from in m then m else m[from := []];
      var m2 := if to in m1 then m1 else m1[to := []];
      m2[to := m2[to] + [from]]
  }

  /** The table has an entry exactly for the steps mentioned, holding their prerequisites in input order. */
  lemma {:induction false} TableSpec(deps: seq<Dependency>)
    ensures forall c :: c in Table(deps) <==> Mentioned(deps, c)
    ensures forall c :: c in Table(deps) ==> Table(deps)[c] == Prereqs(deps, c)
    decreases |deps|
  {
    if deps != [] {
      var init := deps[..|deps| - 1];
      var p := deps[|deps| - 1];
      assert deps == init + [p];
      TableSpec(init);
      MentionedAppend(init, p);
      PrereqsUnmentioned(init, p.0);
      PrereqsUnmentioned(init, p.1);
    }
  }

  /** The table-building loop. */
  method CollectDependsOn(deps: seq<Dependency>) returns (dependsOn: map<char, seq<char>>)
    ensures dependsOn == Table(deps)
  {
    dependsOn := map[];
    for k := 0 to |deps|
      invariant dependsOn == Table(deps[..k])
    {
      var (from, to) := deps[k];
      assert deps[..k + 1][..k] == deps[..k];
      if from !in dependsOn {
        dependsOn := dependsOn[from := []];
      }
      if to !in dependsOn {
        dependsOn := dependsOn[to := []];
      }
      dependsOn := dependsOn[to := dependsOn[to] + [from]];
    }
    assert deps[..|deps|] == deps;
  }

  /** Sorts every list of the table, in whatever order its keys are visited. */
  method SortAll(unsorted: map<char, seq<char>>) returns (dependsOn: map<char, seq<char>>)
    ensures dependsOn.Keys == unsorted.Keys
    ensures forall c :: c in dependsOn ==> Sorted(dependsOn[c]) && multiset(dependsOn[c]) == multiset(unsorted[c])
  {
    dependsOn := unsorted;
    var keys := dependsOn.Keys;
    while keys != {}
      invariant keys <= dependsOn.Keys && dependsOn.Keys == unsorted.Keys
      invariant forall c :: c in dependsOn ==> multiset(dependsOn[c]) == multiset(unsorted[c])
      invariant forall c :: c in dependsOn && c !in keys ==> Sorted(dependsOn[c])
      decreases |keys|
    {
      var c :| c in keys;
      var sorted := Sort(dependsOn[c]);
      dependsOn := dependsOn[c := sorted];
      keys := keys - {c};
    }
  }

  /** Two tables with the same entries, each holding the same prerequisites (in any order). */
  ghost predicate SameDeps(m1: map<char, seq<char>>, m2: map<char, seq<char>>)
  {
    (forall c :: c in m1 <==> c in m2)
    && (forall c, d :: c in m1 ==> (d in m1[c] <==> d in m2[c]))
  }

  /** Every entry and every prerequisite is a step 'A'..='Z'. */
  ghost predicate TableOfSteps(m: map<char, seq<char>>)
  {
    forall c :: c in m ==> IsStep(c) && forall d :: d in m[c] ==> IsStep(d)
  }

  /** Dependencies read by the input pattern name only steps 'A'..='Z'. */
  predicate StepsOnly(deps: seq<Dependency>)
  {
    forall p :: p in deps ==> IsStep(p.0) && IsStep(p.1)
  }

  lemma {:induction false} PrereqsAreFrom(deps: seq<Dependency>, c: char)
    ensures forall d :: d in Prereqs(deps, c) ==> exists p :: p in deps && p.0 == d
    decreases |deps|
  {
    if deps != [] {
      var init := deps[..|deps| - 1];
      PrereqsAreFrom(init, c);
      forall p | p in init ensures p in deps {
      }
      assert deps[|deps| - 1] in deps;
    }
  }

  /** The table of dependencies over steps holds only steps. */
  lemma TableSteps(deps: seq<Dependency>)
    requires StepsOnly(deps)
    ensures TableOfSteps(Table(deps))
  {
    TableSpec(deps);
    forall c | c in Table(deps)
      ensures IsStep(c) && forall d :: d in Table(deps)[c] ==> IsStep(d)
    {
      PrereqsAreFrom(deps, c);
    }
  }

  /**
   * The table both parts build: an entry for every step mentioned, holding
   * its prerequisites, each list then sorted.
   */
  method BuildDependsOn(deps: seq<Dependency>) returns (dependsOn: map<char, seq<char>>)
    ensures dependsOn.Keys == Table(deps).Keys
    ensures forall c :: c in dependsOn ==> Sorted(dependsOn[c]) && multiset(dependsOn[c]) == multiset(Table(deps)[c])
    ensures SameDeps(dependsOn, Table(deps))
  {
    var unsorted := CollectDependsOn(deps);
    dependsOn := SortAll(unsorted);
    forall c, d | c in dependsOn
      ensures d in dependsOn[c] <==> d in unsorted[c]
    {
      assert d in dependsOn[c] <==> d in multiset(dependsOn[c]);
      assert d in unsorted[c] <==> d in multiset(unsorted[c]);
    }
  }

  // ---------------------------------------------------------------------
  // Part A
  // ---------------------------------------------------------------------

  /** Step `c` has an entry, has not run, and all of its prerequisites have run. */
  predicate Ready(dependsOn: map<char, seq<char>>, done: set<char>, c: char)
  {
    c in dependsOn && c !in done && forall d :: d in dependsOn[c] ==> d in done
  }

  /** The first ready step of the scan from `Letters()[i]` on. */
  function FirstReady(dependsOn: map<char, seq<char>>, done: set<char>, i: nat): (r: Option<char>)
    requires i <= 26
    ensures r.Some? ==> IsStep(r.value) && Ready(dependsOn, done, r.value)
    decreases 26 - i
  {
    if i == 26 then None
    else if Ready(dependsOn, done, Letters()[i]) then Some(Letters()[i])
    else FirstReady(dependsOn, done, i + 1)
  }

  /** `FirstReady` from the start of the scan finds a ready step whenever there is one, and the least. */
  lemma {:induction false} FirstReadySpec(dependsOn: map<char, seq<char>>, done: set<char>, i: nat)
    requires i <= 26
    ensures FirstReady(dependsOn, done, i).None? <==>
      forall j :: i <= j < 26 ==> !Ready(dependsOn, done, Letters()[j])
    ensures FirstReady(dependsOn, done, i).Some? ==>
      forall j :: i <= j < 26 && Letters()[j] < FirstReady(dependsOn, done, i).value ==> !Ready(dependsOn, done, Letters()[j])
    decreases 26 - i
  {
    LettersAreSteps();
    if i < 26 && !Ready(dependsOn, done, Letters()[i]) {
      FirstReadySpec(dependsOn, done, i + 1);
    }
  }

  /** The scan of `a`: the first step of 'A'..='Z' that is ready. */
  method FindReady(dependsOn: map<char, seq<char>>, runTree: map<char, bool>, ghost done: set<char>) returns (r: Option<char>)
    requires Tracks(runTree, done)
    requires Closed(dependsOn)
    ensures r == FirstReady(dependsOn, done, 0)
  {
    for i := 0 to 26
      invariant FirstReady(dependsOn, done, 0) == FirstReady(dependsOn, done, i)
    {
      var c := (65 + i) as char;
      assert c == Letters()[i];
      if c in dependsOn && !runTree[c] {
        var ready := true;
        for j := 0 to |dependsOn[c]|
          invariant ready <==> forall k :: 0 <= k < j ==> dependsOn[c][k] in done
        {
          var hasRun := dependsOn[c][j];
          ready := ready && runTree[hasRun];
        }
        if ready {
          return Some(c);
        }
      }
    }
    return None;
  }

  /** The run table marks exactly the steps of `done` as run. */
  predicate Tracks(runTree: map<char, bool>, done: set<char>)
  {
    forall c :: IsStep(c) ==> c in runTree && (runTree[c] <==> c in done)
  }

  /** The steps not yet run. */
  function Pending(done: set<char>): set<char>
  {
    StepSet() - done
  }

  lemma PendingShrinks(done: set<char>, c: char)
    requires IsStep(c) && c !in done
    ensures Pending(done) == Pending(done + {c}) + {c}
    ensures |Pending(done + {c})| < |Pending(done)|
  {
    LettersAreSteps();
    assert c in StepSet();
  }

  /** The run table `a` starts from: every step, none run. */
  function Unrun(): (r: map<char, bool>)
    ensures Tracks(r, {})
  {
    LettersAreSteps();
    map c | c in Letters() :: false
  }

  /** The run order from the set of steps already run: the first ready step, then the rest. */
  function Order(dependsOn: map<char, seq<char>>, done: set<char>): seq<char>
    decreases |Pending(done)|
  {
    match FirstReady(dependsOn, done, 0)
    case None => []
    case Some(c) =>
      PendingShrinks(done, c);
      [c] + Order(dependsOn, done + {c})
  }

  lemma SameDepsSteps(m1: map<char, seq<char>>, m2: map<char, seq<char>>)
    requires SameDeps(m1, m2) && TableOfSteps(m2)
    ensures TableOfSteps(m1)
  {
  }

  /** The scan depends only on which prerequisites each entry holds, not on their order. */
  lemma {:induction false} FirstReadySame(m1: map<char, seq<char>>, m2: map<char, seq<char>>, done: set<char>, i: nat)
    requires SameDeps(m1, m2) && i <= 26
    ensures FirstReady(m1, done, i) == FirstReady(m2, done, i)
    decreases 26 - i
  {
    if i < 26 {
      var c := Letters()[i];
      assert Ready(m1, done, c) <==> Ready(m2, done, c);
      FirstReadySame(m1, m2, done, i + 1);
    }
  }

  /**
   * Part A: builds the table, then emits the first ready step and restarts
   * the scan from 'A', until no step is ready.
   */
  method A(deps: seq<Dependency>) returns (runOrder: seq<char>)
    requires StepsOnly(deps)
    ensures runOrder == Order(Table(deps), {})
  {
    var dependsOn := BuildDependsOn(deps);
    TableSteps(deps);
    SameDepsSteps(dependsOn, Table(deps));
    runOrder := RunOrder(dependsOn);
    OrderSame(dependsOn, Table(deps), {});
  }

  /** The order depends only on which prerequisites each entry holds. */
  lemma {:induction false} OrderSame(m1: map<char, seq<char>>, m2: map<char, seq<char>>, done: set<char>)
    requires SameDeps(m1, m2)
    ensures Order(m1, done) == Order(m2, done)
    decreases |Pending(done)|
  {
    FirstReadySame(m1, m2, done, 0);
    OrderUnfold(m1, done);
    OrderUnfold(m2, done);
    if FirstReady(m1, done, 0).Some? {
      var c := FirstReady(m1, done, 0).value;
      PendingShrinks(done, c);
      OrderSame(m1, m2, done + {c});
    }
  }

  lemma AppendAssoc(a: seq<char>, b: seq<char>, c: seq<char>)
    ensures a + (b + c) == (a + b) + c
  {
  }

  /** Marking a step as run keeps the run table in step with the set of run steps. */
  lemma MarkRun(runTree: map<char, bool>, done: set<char>, c: char)
    requires Tracks(runTree, done)
    ensures Tracks(runTree[c := true], done + {c})
  {
  }

  /** The `'outer` loop of `a`, over the built table. */
  method RunOrder(dependsOn: map<char, seq<char>>) returns (runOrder: seq<char>)
    requires Closed(dependsOn)
    ensures runOrder == Order(dependsOn, {})
  {
    var runTree := Unrun();
    ghost var done: set<char> := {};
    runOrder := [];
    while true
      invariant Tracks(runTree, done)
      invariant runOrder + Order(dependsOn, done) == Order(dependsOn, {})
      decreases |Pending(done)|
    {
      var found := FindReady(dependsOn, runTree, done);
      OrderUnfold(dependsOn, done);
      if found.None? {
        break;
      }
      var c := found.value;
      PendingShrinks(done, c);
      AppendAssoc(runOrder, [c], Order(dependsOn, done + {c}));
      MarkRun(runTree, done, c);
      runOrder := runOrder + [c];
      runTree := runTree[c := true];
      done := done + {c};
    }
  }

  /** An order that runs from `done`: its steps are distinct and new, and each one is ready when it runs. */
  predicate ValidOrder(dependsOn: map<char, seq<char>>, done: set<char>, o: seq<char>)
  {
    (forall i :: 0 <= i < |o| ==> o[i] !in done)
    && (forall i, j :: 0 <= i < j < |o| ==> o[i] != o[j])
    && (forall i :: 0 <= i < |o| ==> Ready(dependsOn, done + Elems(o[..i]), o[i]))
  }

  lemma ValidCons(dependsOn: map<char, seq<char>>, done: set<char>, c: char, rest: seq<char>)
    requires Ready(dependsOn, done, c)
    requires ValidOrder(dependsOn, done + {c}, rest)
    ensures ValidOrder(dependsOn, done, [c] + rest)
  {
    var o := [c] + rest;
    forall i | 0 < i < |o|
      ensures done + Elems(o[..i]) == (done + {c}) + Elems(rest[..i - 1])
    {
      assert o[..i] == [c] + rest[..i - 1];
    }
    assert o[..0] == [];
    forall i | 0 < i < |o| ensures o[i] != c {
      assert o[i] == rest[i - 1];
    }
  }

  /** One round of the order: the first ready step, then the order from there. */
  lemma OrderUnfold(dependsOn: map<char, seq<char>>, done: set<char>)
    ensures FirstReady(dependsOn, done, 0).None? ==> Order(dependsOn, done) == []
    ensures FirstReady(dependsOn, done, 0).Some? ==>
      var c := FirstReady(dependsOn, done, 0).value;
      Order(dependsOn, done) == [c] + Order(dependsOn, done + {c})
  {
  }

  /** What the order means: its steps are distinct and new, and each one's prerequisites ran before it. */
  lemma {:induction false} OrderSpec(dependsOn: map<char, seq<char>>, done: set<char>)
    ensures ValidOrder(dependsOn, done, Order(dependsOn, done))
    decreases |Pending(done)|
  {
    OrderUnfold(dependsOn, done);
    match FirstReady(dependsOn, done, 0)
    case None =>
    case Some(c) =>
      PendingShrinks(done, c);
      OrderSpec(dependsOn, done + {c});
      ValidCons(dependsOn, done, c, Order(dependsOn, done + {c}));
  }

  /**
   * When the order stops, no step is left ready: if the dependencies have
   * no cycle, every step with an entry has been emitted.
   */
  lemma {:induction false} OrderComplete(dependsOn: map<char, seq<char>>, done: set<char>)
    ensures forall c :: IsStep(c) && c !in done && c !in Order(dependsOn, done) ==>
      !Ready(dependsOn, done + Elems(Order(dependsOn, done)), c)
    decreases |Pending(done)|
  {
    var o := Order(dependsOn, done);
    match FirstReady(dependsOn, done, 0)
    case None =>
      FirstReadySpec(dependsOn, done, 0);
      LettersAreSteps();
      assert Elems(o) == {};
      forall c | IsStep(c) && c !in done
        ensures !Ready(dependsOn, done, c)
      {
        assert Letters()[c as int - 65] == c;
      }
    case Some(c) =>
      PendingShrinks(done, c);
      OrderComplete(dependsOn, done + {c});
      var rest := Order(dependsOn, done + {c});
      assert o == [c] + rest;
      assert done + Elems(o) == (done + {c}) + Elems(rest);
  }

  // ---------------------------------------------------------------------
  // Part B
  // ---------------------------------------------------------------------

  datatype StepState = Waiting | Running | Done

  /** A step's entry in the run table of `b`: its state and the seconds of work it still needs. */
  datatype Task = Task(state: StepState, left: nat)

  /** Two workers on the sample, five otherwise. */
  function Workers(isSample: bool): (n: nat)
    ensures n >= 1
  {
    if isSample then 2 else 5
  }

  /** The fixed time every step takes on top of its letter position: 0 on the sample, 60 otherwise. */
  function WorkerTime(isSample: bool): nat
  {
    if isSample then 0 else 60
  }

  /** Seconds a step takes: its position in the alphabet ('A' is 1) plus the fixed time. */
  function Duration(c: char, workerTime: nat): (d: nat)
    requires IsStep(c)
    ensures d >= 1
  {
    c as int - '@' as int + workerTime
  }

  /** The run table `b` starts from: every step waiting, with its whole duration left. */
  function InitialTree(workerTime: nat): (r: map<char, Task>)
    ensures forall c :: c in r <==> IsStep(c)
    ensures forall c :: IsStep(c) ==> r[c] == Task(Waiting, Duration(c, workerTime))
  {
    LettersAreSteps();
    map c | c in Letters() :: Task(Waiting, Duration(c, workerTime))
  }

  /** Every step has an entry in the run table. */
  predicate Covers(tree: map<char, Task>)
  {
    forall c :: IsStep(c) ==> c in tree
  }

  /** Seconds of work left over the first `n` steps of 'A'..='Z'. */
  function SumLeft(tree: map<char, Task>, n: nat): nat
    requires Covers(tree) && n <= 26
  {
    if n == 0 then 0 else SumLeft(tree, n - 1) + tree[(64 + n) as char].left
  }

  /** Replacing one step's entry changes the work left by the difference of the two entries. */
  lemma {:induction false} SumLeftUpdate(tree: map<char, Task>, n: nat, c: char, t: Task)
    requires Covers(tree) && n <= 26 && IsStep(c)
    ensures SumLeft(tree[c := t], n) == SumLeft(tree, n) + (if c as int - 65 < n then t.left - tree[c].left else 0)
  {
    if n > 0 {
      SumLeftUpdate(tree, n - 1, c, t);
    }
  }

  /** Step `c` has an entry, is waiting, and all of its prerequisites are done. */
  predicate ReadyToStart(dependsOn: map<char, seq<char>>, tree: map<char, Task>, c: char)
  {
    c in dependsOn && c in tree && tree[c].state == Waiting
    && forall d :: d in dependsOn[c] ==> d in tree && tree[d].state == Done
  }

  /** The first step of the scan from `Letters()[i]` on that can start. */
  function FirstStartable(dependsOn: map<char, seq<char>>, tree: map<char, Task>, i: nat): (r: Option<char>)
    requires i <= 26
    ensures r.Some? ==> IsStep(r.value) && ReadyToStart(dependsOn, tree, r.value)
    decreases 26 - i
  {
    if i == 26 then None
    else if ReadyToStart(dependsOn, tree, Letters()[i]) then Some(Letters()[i])
    else FirstStartable(dependsOn, tree, i + 1)
  }

  /** No step at all can start. */
  predicate NoneStartable(dependsOn: map<char, seq<char>>, tree: map<char, Task>)
  {
    forall c :: IsStep(c) ==> !ReadyToStart(dependsOn, tree, c)
  }

  /** The scan from 'A' finds nothing exactly when no step can start, and otherwise finds the least. */
  lemma {:induction false} FirstStartableSpec(dependsOn: map<char, seq<char>>, tree: map<char, Task>, i: nat)
    requires i <= 26
    ensures FirstStartable(dependsOn, tree, i).None? <==>
      forall j :: i <= j < 26 ==> !ReadyToStart(dependsOn, tree, Letters()[j])
    ensures FirstStartable(dependsOn, tree, i).Some? ==>
      forall j :: i <= j < 26 && Letters()[j] < FirstStartable(dependsOn, tree, i).value ==> !ReadyToStart(dependsOn, tree, Letters()[j])
    decreases 26 - i
  {
    LettersAreSteps();
    if i < 26 && !ReadyToStart(dependsOn, tree, Letters()[i]) {
      FirstStartableSpec(dependsOn, tree, i + 1);
    }
  }

  lemma NoneStartableScan(dependsOn: map<char, seq<char>>, tree: map<char, Task>)
    ensures FirstStartable(dependsOn, tree, 0).None? <==> NoneStartable(dependsOn, tree)
  {
    FirstStartableSpec(dependsOn, tree, 0);
    LettersAreSteps();
    if FirstStartable(dependsOn, tree, 0).None? {
      forall c | IsStep(c) ensures !ReadyToStart(dependsOn, tree, c) {
        assert Letters()[c as int - 65] == c;
      }
    }
  }

  /** The inner scan of the `'workers_loop`: the first step of 'A'..='Z' that can start. */
  method FindStartable(dependsOn: map<char, seq<char>>, tree: map<char, Task>) returns (r: Option<char>)
    requires Covers(tree)
    requires Closed(dependsOn)
    ensures r == FirstStartable(dependsOn, tree, 0)
  {
    for i := 0 to 26
      invariant FirstStartable(dependsOn, tree, 0) == FirstStartable(dependsOn, tree, i)
    {
      var c := (65 + i) as char;
      assert c == Letters()[i];
      if c in dependsOn && tree[c].state == Waiting {
        var ready := true;
        for j := 0 to |dependsOn[c]|
          invariant ready <==> forall k :: 0 <= k < j ==> tree[dependsOn[c][k]].state == Done
        {
          var hasRun := dependsOn[c][j];
          ready := ready && tree[hasRun].state == Done;
        }
        if ready {
          return Some(c);
        }
      }
    }
    return None;
  }

  /** Step `c` started only after every one of its prerequisites had finished. */
  ghost predicate Preceded(dependsOn: map<char, seq<char>>, workerTime: nat, tree: map<char, Task>, start: map<char, nat>, c: char)
  {
    c in dependsOn && c in start
    && forall d :: d in dependsOn[c] ==>
      IsStep(d) && d in tree && d in start && tree[d].state == Done && start[d] + Duration(d, workerTime) <= start[c]
  }

  /**
   * What holds between two seconds of `b`: the worker list holds exactly
   * the running steps, once each; a waiting step has its whole duration
   * left; a running step has worked every second since it started; a done
   * step finished by now; and nothing started before its prerequisites
   * finished.
   */
  ghost predicate Sched(dependsOn: map<char, seq<char>>, workerTime: nat, tree: map<char, Task>, tasks: seq<char>,
                        start: map<char, nat>, time: nat)
  {
    Covers(tree) && (forall c :: IsStep(c) ==> c in start)
    && (forall i :: 0 <= i < |tasks| ==> IsStep(tasks[i]) && tree[tasks[i]].state == Running)
    && (forall i, j :: 0 <= i < j < |tasks| ==> tasks[i] != tasks[j])
    && (forall c :: IsStep(c) && tree[c].state == Waiting ==> tree[c].left == Duration(c, workerTime))
    && (forall c :: IsStep(c) && tree[c].state == Running ==>
          c in tasks && 1 <= tree[c].left && tree[c].left + time == start[c] + Duration(c, workerTime))
    && (forall c :: IsStep(c) && tree[c].state == Done ==>
          tree[c].left == 0 && start[c] + Duration(c, workerTime) <= time)
    && (forall c :: IsStep(c) && tree[c].state != Waiting ==> Preceded(dependsOn, workerTime, tree, start, c))
  }

  /** Some step finished exactly at `time`. */
  ghost predicate Finished(workerTime: nat, tree: map<char, Task>, start: map<char, nat>, time: nat)
  {
    exists c :: IsStep(c) && c in tree && c in start && tree[c].state == Done && start[c] + Duration(c, workerTime) == time
  }

  /** Starting a step that can start keeps the schedule invariant. */
  lemma StartOne(dependsOn: map<char, seq<char>>, workerTime: nat, tree: map<char, Task>, tasks: seq<char>,
                 start: map<char, nat>, time: nat, c: char)
    requires Sched(dependsOn, workerTime, tree, tasks, start, time)
    requires IsStep(c) && ReadyToStart(dependsOn, tree, c)
    requires forall e, d :: e in dependsOn && IsStep(e) && d in dependsOn[e] ==> IsStep(d)
    ensures Sched(dependsOn, workerTime, tree[c := Task(Running, tree[c].left)], tasks + [c], start[c := time], time)
  {
    var next := tree[c := Task(Running, tree[c].left)];
    var nextStart := start[c := time];
    var nextTasks := tasks + [c];
    assert c !in tasks;
    forall e | IsStep(e) && next[e].state != Waiting
      ensures Preceded(dependsOn, workerTime, next, nextStart, e)
    {
      if e != c {
        assert Preceded(dependsOn, workerTime, tree, start, e);
      }
    }
    forall e | IsStep(e) && next[e].state == Running
      ensures e in nextTasks
    {
      if e != c {
        assert e in tasks;
      }
    }
  }

  /** The run table together with the steps the workers hold, in the order they took them. */
  datatype Pool = Pool(tree: map<char, Task>, tasks: seq<char>)

  /** One pass of the `'workers_loop`: the first step of 'A'..='Z' that can start, if there is one, starts. */
  function Taken(dependsOn: map<char, seq<char>>, p: Pool): Pool
  {
    match FirstStartable(dependsOn, p.tree, 0)
    case None => p
    case Some(c) => Pool(p.tree[c := Task(Running, p.tree[c].left)], p.tasks + [c])
  }

  /** The first `k` passes of the `'workers_loop`. */
  function Assigned(dependsOn: map<char, seq<char>>, p: Pool, k: nat): Pool
  {
    if k == 0 then p else Taken(dependsOn, Assigned(dependsOn, p, k - 1))
  }

  /** The number of free workers. */
  function Slots(workers: nat, tasks: seq<char>): nat
  {
    if |tasks| <= workers then workers - |tasks| else 0
  }

  /** The free workers of `p` take what they can: the whole `'workers_loop`. */
  function AssignFree(dependsOn: map<char, seq<char>>, workers: nat, p: Pool): Pool
  {
    Assigned(dependsOn, p, Slots(workers, p.tasks))
  }

  /** One pass of the `'workers_loop`. */
  method TakeFirst(dependsOn: map<char, seq<char>>, p: Pool) returns (q: Pool)
    requires Covers(p.tree)
    requires Closed(dependsOn)
    ensures q == Taken(dependsOn, p) && Covers(q.tree)
  {
    var found := FindStartable(dependsOn, p.tree);
    q := p;
    if found.Some? {
      var c := found.value;
      q := Pool(p.tree[c := Task(Running, p.tree[c].left)], p.tasks + [c]);
    }
  }

  /**
   * The `'workers_loop`: each free worker takes the first step that can
   * start, if there is one.  The loop bound `workers - worker_tasks.len()`
   * is a `usize` subtraction, so there are never more tasks than workers.
   */
  method Assign(dependsOn: map<char, seq<char>>, workers: nat, p: Pool) returns (q: Pool)
    requires Covers(p.tree) && |p.tasks| <= workers
    requires Closed(dependsOn)
    ensures q == AssignFree(dependsOn, workers, p)
  {
    q := p;
    for slot := 0 to Slots(workers, p.tasks)
      invariant q == Assigned(dependsOn, p, slot) && Covers(q.tree)
    {
      q := TakeFirst(dependsOn, q);
    }
  }

  /** A pass starts at most one step, leaves the work left and the finished steps alone, and starts nothing only when nothing can start. */
  lemma TakenShape(dependsOn: map<char, seq<char>>, p: Pool)
    requires Covers(p.tree)
    ensures Covers(Taken(dependsOn, p).tree)
    ensures |Taken(dependsOn, p).tasks| == |p.tasks| + 1 || NoneStartable(dependsOn, Taken(dependsOn, p).tree)
    ensures NoneStartable(dependsOn, p.tree) ==>
      |Taken(dependsOn, p).tasks| == |p.tasks| && NoneStartable(dependsOn, Taken(dependsOn, p).tree)
    ensures SumLeft(Taken(dependsOn, p).tree, 26) == SumLeft(p.tree, 26)
    ensures forall c :: IsStep(c) && p.tree[c].state == Done ==> Taken(dependsOn, p).tree[c] == p.tree[c]
  {
    NoneStartableScan(dependsOn, p.tree);
    match FirstStartable(dependsOn, p.tree, 0)
    case None =>
    case Some(c) =>
      SumLeftUpdate(p.tree, 26, c, Task(Running, p.tree[c].left));
  }

  /** A pass keeps the schedule invariant, with the step it starts started now. */
  lemma TakenSched(dependsOn: map<char, seq<char>>, workerTime: nat, p: Pool, start: map<char, nat>, time: nat)
    returns (nextStart: map<char, nat>)
    requires Closed(dependsOn)
    requires Sched(dependsOn, workerTime, p.tree, p.tasks, start, time)
    ensures Sched(dependsOn, workerTime, Taken(dependsOn, p).tree, Taken(dependsOn, p).tasks, nextStart, time)
    ensures forall c :: IsStep(c) && p.tree[c].state == Done ==>
      Taken(dependsOn, p).tree[c].state == Done && nextStart[c] == start[c]
  {
    nextStart := start;
    match FirstStartable(dependsOn, p.tree, 0)
    case None =>
    case Some(c) =>
      StartOne(dependsOn, workerTime, p.tree, p.tasks, start, time, c);
      nextStart := start[c := time];
  }

  /** Any number of passes: at most one step each, nothing finished touched, and a short count means nothing can start. */
  lemma {:induction false} AssignedShape(dependsOn: map<char, seq<char>>, p: Pool, k: nat)
    requires Covers(p.tree)
    ensures Covers(Assigned(dependsOn, p, k).tree)
    ensures |p.tasks| <= |Assigned(dependsOn, p, k).tasks| <= |p.tasks| + k
    ensures |Assigned(dependsOn, p, k).tasks| < |p.tasks| + k ==> NoneStartable(dependsOn, Assigned(dependsOn, p, k).tree)
    ensures SumLeft(Assigned(dependsOn, p, k).tree, 26) == SumLeft(p.tree, 26)
    ensures forall c :: IsStep(c) && p.tree[c].state == Done ==> Assigned(dependsOn, p, k).tree[c] == p.tree[c]
  {
    if k > 0 {
      AssignedShape(dependsOn, p, k - 1);
      TakenShape(dependsOn, Assigned(dependsOn, p, k - 1));
    }
  }

  /** Any number of passes keeps the schedule invariant and the start times of finished steps. */
  lemma {:induction false} AssignedSched(dependsOn: map<char, seq<char>>, workerTime: nat, p: Pool,
                                         start: map<char, nat>, time: nat, k: nat)
    returns (nextStart: map<char, nat>)
    requires Closed(dependsOn)
    requires Sched(dependsOn, workerTime, p.tree, p.tasks, start, time)
    ensures Sched(dependsOn, workerTime, Assigned(dependsOn, p, k).tree, Assigned(dependsOn, p, k).tasks, nextStart, time)
    ensures forall c :: IsStep(c) && p.tree[c].state == Done ==>
      Assigned(dependsOn, p, k).tree[c].state == Done && nextStart[c] == start[c]
  {
    if k == 0 {
      nextStart := start;
    } else {
      var s := AssignedSched(dependsOn, workerTime, p, start, time, k - 1);
      var q := Assigned(dependsOn, p, k - 1);
      nextStart := TakenSched(dependsOn, workerTime, q, s, time);
      forall c | IsStep(c) && p.tree[c].state == Done
        ensures Assigned(dependsOn, p, k).tree[c].state == Done && nextStart[c] == start[c]
      {
        assert q.tree[c].state == Done && s[c] == start[c];
      }
    }
  }

  /** The whole `'workers_loop` keeps the schedule invariant; see `AssignedShape` and `AssignedSched`. */
  lemma AssignedKeeps(dependsOn: map<char, seq<char>>, workerTime: nat, p: Pool,
                      start: map<char, nat>, time: nat, k: nat)
    returns (nextStart: map<char, nat>)
    requires Closed(dependsOn)
    requires Sched(dependsOn, workerTime, p.tree, p.tasks, start, time)
    ensures Sched(dependsOn, workerTime, Assigned(dependsOn, p, k).tree, Assigned(dependsOn, p, k).tasks, nextStart, time)
    ensures |p.tasks| <= |Assigned(dependsOn, p, k).tasks| <= |p.tasks| + k
    ensures |Assigned(dependsOn, p, k).tasks| < |p.tasks| + k ==> NoneStartable(dependsOn, Assigned(dependsOn, p, k).tree)
    ensures SumLeft(Assigned(dependsOn, p, k).tree, 26) == SumLeft(p.tree, 26)
    ensures forall c :: IsStep(c) && p.tree[c].state == Done ==>
      Assigned(dependsOn, p, k).tree[c] == p.tree[c] && nextStart[c] == start[c]
  {
    AssignedShape(dependsOn, p, k);
    nextStart := AssignedSched(dependsOn, workerTime, p, start, time, k);
  }

  /** One second of work on a task: one second less, and done when none is left. */
  function Worked(t: Task): Task
  {
    if t.left > 1 then Task(t.state, t.left - 1) else Task(Done, 0)
  }

  /** The run table after a second of work on each of `tasks` in turn, each entry worked where it stands. */
  function Ticked(tree: map<char, Task>, tasks: seq<char>): map<char, Task>
  {
    if tasks == [] then tree
    else
      var before := Ticked(tree, tasks[..|tasks| - 1]);
      var c := tasks[|tasks| - 1];
      if c in before then before[c := Worked(before[c])] else before
  }

  /** A step no worker holds keeps its entry. */
  lemma {:induction false} TickedOther(tree: map<char, Task>, tasks: seq<char>, c: char)
    requires c !in tasks
    ensures c in Ticked(tree, tasks) <==> c in tree
    ensures c in tree ==> Ticked(tree, tasks)[c] == tree[c]
  {
    if tasks != [] {
      assert tasks == tasks[..|tasks| - 1] + [tasks[|tasks| - 1]];
      TickedOther(tree, tasks[..|tasks| - 1], c);
    }
  }

  /** Every step held by a worker, once each, has had one second of work; the others are untouched. */
  lemma {:induction false} TickedSpec(tree: map<char, Task>, tasks: seq<char>)
    requires forall i, j :: 0 <= i < j < |tasks| ==> tasks[i] != tasks[j]
    ensures forall c :: c in Ticked(tree, tasks) <==> c in tree
    ensures forall c :: c in tree ==> Ticked(tree, tasks)[c] == if c in tasks then Worked(tree[c]) else tree[c]
  {
    if tasks != [] {
      var init, last := tasks[..|tasks| - 1], tasks[|tasks| - 1];
      assert tasks == init + [last];
      TickedSpec(tree, init);
      TickedOther(tree, init, last);
    }
  }

  /** The tasks a second of work leaves unfinished, in worker order. */
  function Survivors(tree: map<char, Task>, tasks: seq<char>): seq<char>
  {
    if tasks == [] then []
    else
      var last := tasks[|tasks| - 1];
      Survivors(tree, tasks[..|tasks| - 1]) + (if last in tree && tree[last].left > 1 then [last] else [])
  }

  /** A second of work for every busy worker, dropping the tasks that finish. */
  function WorkAll(p: Pool): Pool
  {
    Pool(Ticked(p.tree, p.tasks), Survivors(p.tree, p.tasks))
  }

  /** The survivors are the tasks with more than a second left, each once. */
  lemma {:induction false} SurvivorsSpec(tree: map<char, Task>, tasks: seq<char>)
    requires forall i :: 0 <= i < |tasks| ==> tasks[i] in tree
    requires forall i, j :: 0 <= i < j < |tasks| ==> tasks[i] != tasks[j]
    ensures |Survivors(tree, tasks)| <= |tasks|
    ensures forall c :: c in Survivors(tree, tasks) <==> c in tasks && tree[c].left > 1
    ensures forall i, j :: 0 <= i < j < |Survivors(tree, tasks)| ==> Survivors(tree, tasks)[i] != Survivors(tree, tasks)[j]
  {
    if tasks != [] {
      var init := tasks[..|tasks| - 1];
      var last := tasks[|tasks| - 1];
      assert tasks == init + [last];
      SurvivorsSpec(tree, init);
      assert last !in init;
    }
  }

  /** What a second of work needs: an entry for every step, and distinct busy steps each with work left. */
  predicate Workable(p: Pool)
  {
    Covers(p.tree)
    && (forall i :: 0 <= i < |p.tasks| ==> IsStep(p.tasks[i]) && p.tree[p.tasks[i]].left >= 1)
    && (forall i, j :: 0 <= i < j < |p.tasks| ==> p.tasks[i] != p.tasks[j])
  }

  /** The `filter_map` of `b`: a second of work for every busy worker. */
  method Tick(tree: map<char, Task>, tasks: seq<char>) returns (next: map<char, Task>, kept: seq<char>)
    requires Workable(Pool(tree, tasks))
    ensures next == Ticked(tree, tasks) && kept == Survivors(tree, tasks) && Covers(next)
  {
    next, kept := tree, [];
    for k := 0 to |tasks|
      invariant next == Ticked(tree, tasks[..k]) && kept == Survivors(tree, tasks[..k])
    {
      var c := tasks[k];
      assert tasks[..k + 1][..k] == tasks[..k];
      assert c !in tasks[..k];
      TickedOther(tree, tasks[..k], c);
      var task := next[c];
      var left := task.left - 1;
      var worked := if left > 0 then Task(task.state, left) else Task(Done, left);
      if left > 0 {
        kept := kept + [c];
      }
      next := next[c := worked];
    }
    assert tasks[..|tasks|] == tasks;
    TickedLeft(tree, tasks);
  }

  /** One second of the main loop of `b` once some worker is busy. */
  method Work(p: Pool) returns (q: Pool)
    requires Workable(p)
    ensures q == WorkAll(p) && Covers(q.tree)
  {
    var next, kept := Tick(p.tree, p.tasks);
    q := Pool(next, kept);
  }

  /** A second of work takes one second off the work left for every busy worker. */
  lemma {:induction false} TickedLeft(tree: map<char, Task>, tasks: seq<char>)
    requires Workable(Pool(tree, tasks))
    ensures Covers(Ticked(tree, tasks))
    ensures SumLeft(Ticked(tree, tasks), 26) + |tasks| == SumLeft(tree, 26)
  {
    if tasks != [] {
      var init := tasks[..|tasks| - 1];
      var c := tasks[|tasks| - 1];
      assert tasks == init + [c];
      assert c !in init;
      TickedLeft(tree, init);
      TickedOther(tree, init, c);
      SumLeftUpdate(Ticked(tree, init), 26, c, Worked(tree[c]));
    }
  }

  /** After a second of work every started step still started after its prerequisites finished. */
  lemma TickPreceded(dependsOn: map<char, seq<char>>, workerTime: nat, tree: map<char, Task>, tasks: seq<char>,
                     start: map<char, nat>, time: nat)
    requires Sched(dependsOn, workerTime, tree, tasks, start, time)
    ensures forall c :: IsStep(c) && c in Ticked(tree, tasks) && Ticked(tree, tasks)[c].state != Waiting ==>
      Preceded(dependsOn, workerTime, Ticked(tree, tasks), start, c)
  {
    TickedSpec(tree, tasks);
    var next := Ticked(tree, tasks);
    forall c | IsStep(c) && next[c].state != Waiting
      ensures Preceded(dependsOn, workerTime, next, start, c)
    {
      assert Preceded(dependsOn, workerTime, tree, start, c);
    }
  }

  /** The steps still held after a second of work are running steps, and every step held before was running. */
  lemma TickKept(dependsOn: map<char, seq<char>>, workerTime: nat, tree: map<char, Task>, tasks: seq<char>,
                 start: map<char, nat>, time: nat)
    requires Sched(dependsOn, workerTime, tree, tasks, start, time)
    ensures forall c :: IsStep(c) && c in tasks ==> tree[c].state == Running
    ensures forall i :: 0 <= i < |Survivors(tree, tasks)| ==>
      IsStep(Survivors(tree, tasks)[i]) && Survivors(tree, tasks)[i] in Ticked(tree, tasks)
      && Ticked(tree, tasks)[Survivors(tree, tasks)[i]].state == Running
  {
    var next, kept := Ticked(tree, tasks), Survivors(tree, tasks);
    SurvivorsSpec(tree, tasks);
    TickedSpec(tree, tasks);
    forall c | IsStep(c) && c in tasks
      ensures tree[c].state == Running
    {
      var i :| 0 <= i < |tasks| && tasks[i] == c;
    }
    forall i | 0 <= i < |kept|
      ensures IsStep(kept[i]) && next[kept[i]].state == Running
    {
      assert kept[i] in tasks;
      var j :| 0 <= j < |tasks| && tasks[j] == kept[i];
    }
  }

  /** After a second of work a running step has worked one second more and a done step finished by then. */
  lemma TickClock(dependsOn: map<char, seq<char>>, workerTime: nat, tree: map<char, Task>, tasks: seq<char>,
                  start: map<char, nat>, time: nat)
    requires Sched(dependsOn, workerTime, tree, tasks, start, time)
    ensures forall c :: IsStep(c) && c in Ticked(tree, tasks) && Ticked(tree, tasks)[c].state == Running ==>
      c in Survivors(tree, tasks) && 1 <= Ticked(tree, tasks)[c].left
      && Ticked(tree, tasks)[c].left + time + 1 == start[c] + Duration(c, workerTime)
    ensures forall c :: IsStep(c) && c in Ticked(tree, tasks) && Ticked(tree, tasks)[c].state == Done ==>
      Ticked(tree, tasks)[c].left == 0 && start[c] + Duration(c, workerTime) <= time + 1
    ensures forall c :: IsStep(c) && c in Ticked(tree, tasks) && Ticked(tree, tasks)[c].state == Waiting ==>
      Ticked(tree, tasks)[c].left == Duration(c, workerTime)
    ensures Covers(Ticked(tree, tasks))
  {
    SurvivorsSpec(tree, tasks);
    TickedSpec(tree, tasks);
  }

  /** When a second of work leaves every worker free, some step finished exactly then. */
  lemma TickFinished(dependsOn: map<char, seq<char>>, workerTime: nat, tree: map<char, Task>, tasks: seq<char>,
                     start: map<char, nat>, time: nat)
    requires Sched(dependsOn, workerTime, tree, tasks, start, time)
    requires Survivors(tree, tasks) == [] && tasks != []
    ensures Finished(workerTime, Ticked(tree, tasks), start, time + 1)
  {
    SurvivorsSpec(tree, tasks);
    TickedSpec(tree, tasks);
    var c := tasks[0];
    assert c !in Survivors(tree, tasks);
    assert Ticked(tree, tasks)[c].state == Done;
  }

  /** A second of work keeps the schedule invariant, one second later. */
  lemma TickSched(dependsOn: map<char, seq<char>>, workerTime: nat, tree: map<char, Task>, tasks: seq<char>,
                  start: map<char, nat>, time: nat)
    requires Sched(dependsOn, workerTime, tree, tasks, start, time)
    ensures Workable(Pool(tree, tasks))
    ensures Sched(dependsOn, workerTime, Ticked(tree, tasks), Survivors(tree, tasks), start, time + 1)
    ensures |Survivors(tree, tasks)| <= |tasks|
    ensures Survivors(tree, tasks) == [] && tasks != [] ==> Finished(workerTime, Ticked(tree, tasks), start, time + 1)
  {
    SurvivorsSpec(tree, tasks);
    TickPreceded(dependsOn, workerTime, tree, tasks, start, time);
    TickKept(dependsOn, workerTime, tree, tasks, start, time);
    TickClock(dependsOn, workerTime, tree, tasks, start, time);
    if Survivors(tree, tasks) == [] && tasks != [] {
      TickFinished(dependsOn, workerTime, tree, tasks, start, time);
    }
  }

  lemma InitialSched(dependsOn: map<char, seq<char>>, workerTime: nat, start: map<char, nat>)
    requires forall c :: IsStep(c) ==> c in start
    ensures Sched(dependsOn, workerTime, InitialTree(workerTime), [], start, 0)
  {
  }

  /** Total work done: the seconds of work left at the start less those left now. */
  function Spent(workerTime: nat, tree: map<char, Task>): int
    requires Covers(tree)
  {
    SumLeft(InitialTree(workerTime), 26) - SumLeft(tree, 26)
  }

  /** One second of `b`'s loop: the free workers take what they can, then every busy worker works. */
  function Advance(dependsOn: map<char, seq<char>>, workers: nat, p: Pool): Pool
  {
    WorkAll(AssignFree(dependsOn, workers, p))
  }

  /**
   * The run table and the busy workers after `n` seconds of `b`'s greedy
   * schedule: every second the free workers take the startable steps in
   * alphabetical order, then every busy worker does a second of work.
   */
  function Seconds(dependsOn: map<char, seq<char>>, workers: nat, workerTime: nat, n: nat): Pool
  {
    if n == 0 then Pool(InitialTree(workerTime), [])
    else Advance(dependsOn, workers, Seconds(dependsOn, workers, workerTime, n - 1))
  }

  /** At second `n` no worker has anything to do, so the loop of `b` stops there. */
  predicate Idle(dependsOn: map<char, seq<char>>, workers: nat, workerTime: nat, n: nat)
  {
    AssignFree(dependsOn, workers, Seconds(dependsOn, workers, workerTime, n)).tasks == []
  }

  /** Every second before `n` leaves some worker busy. */
  predicate Busy(dependsOn: map<char, seq<char>>, workers: nat, workerTime: nat, n: nat)
  {
    n == 0 || (Busy(dependsOn, workers, workerTime, n - 1) && !Idle(dependsOn, workers, workerTime, n - 1))
  }

  lemma {:induction false} BusySpec(dependsOn: map<char, seq<char>>, workers: nat, workerTime: nat, n: nat)
    ensures Busy(dependsOn, workers, workerTime, n) <==> forall k: nat :: k < n ==> !Idle(dependsOn, workers, workerTime, k)
  {
    if n > 0 {
      BusySpec(dependsOn, workers, workerTime, n - 1);
    }
  }

  /** Start times before anything has started. */
  ghost function NoStarts(): (r: map<char, nat>)
    ensures forall c :: IsStep(c) ==> c in r
  {
    LettersAreSteps();
    map c | c in Letters() :: 0
  }

  /** A second in which some worker is busy keeps the schedule invariant and does one to `workers` seconds of work. */
  lemma AdvanceKeeps(dependsOn: map<char, seq<char>>, workers: nat, workerTime: nat, p: Pool,
                     start: map<char, nat>, time: nat)
    returns (nextStart: map<char, nat>)
    requires Closed(dependsOn)
    requires Sched(dependsOn, workerTime, p.tree, p.tasks, start, time) && |p.tasks| <= workers
    requires AssignFree(dependsOn, workers, p).tasks != []
    ensures Sched(dependsOn, workerTime, Advance(dependsOn, workers, p).tree, Advance(dependsOn, workers, p).tasks, nextStart, time + 1)
    ensures 1 <= |AssignFree(dependsOn, workers, p).tasks| <= workers
    ensures |Advance(dependsOn, workers, p).tasks| <= workers
    ensures Spent(workerTime, Advance(dependsOn, workers, p).tree) == Spent(workerTime, p.tree) + |AssignFree(dependsOn, workers, p).tasks|
    ensures Advance(dependsOn, workers, p).tasks == [] ==> Finished(workerTime, Advance(dependsOn, workers, p).tree, nextStart, time + 1)
  {
    nextStart := AssignedKeeps(dependsOn, workerTime, p, start, time, Slots(workers, p.tasks));
    var a := AssignFree(dependsOn, workers, p);
    TickSched(dependsOn, workerTime, a.tree, a.tasks, nextStart, time);
    TickedLeft(a.tree, a.tasks);
  }

  lemma SpentStep(spent: int, added: int, workers: nat, n: nat)
    requires n >= 1 && n - 1 <= spent <= workers * (n - 1) && 1 <= added <= workers
    ensures n <= spent + added <= workers * n
  {
    assert workers * n == workers * (n - 1) + workers;
  }

  /**
   * While every worker so far had something to do, the greedy schedule
   * keeps the schedule invariant for some start times, never holds more
   * tasks than workers, and has done between one and `workers` seconds of
   * work per second.
   */
  lemma {:induction false} SecondsKeeps(dependsOn: map<char, seq<char>>, workers: nat, workerTime: nat, n: nat)
    returns (start: map<char, nat>)
    requires workers >= 1
    requires Closed(dependsOn)
    requires Busy(dependsOn, workers, workerTime, n)
    ensures Sched(dependsOn, workerTime, Seconds(dependsOn, workers, workerTime, n).tree,
                  Seconds(dependsOn, workers, workerTime, n).tasks, start, n)
    ensures |Seconds(dependsOn, workers, workerTime, n).tasks| <= workers
    ensures n <= Spent(workerTime, Seconds(dependsOn, workers, workerTime, n).tree) <= workers * n
    ensures Seconds(dependsOn, workers, workerTime, n).tasks == [] && n > 0 ==>
      Finished(workerTime, Seconds(dependsOn, workers, workerTime, n).tree, start, n)
  {
    if n == 0 {
      start := NoStarts();
      InitialSched(dependsOn, workerTime, start);
    } else {
      var p := Seconds(dependsOn, workers, workerTime, n - 1);
      var s := SecondsKeeps(dependsOn, workers, workerTime, n - 1);
      start := AdvanceKeeps(dependsOn, workers, workerTime, p, s, n - 1);
      SpentStep(Spent(workerTime, p.tree), |AssignFree(dependsOn, workers, p).tasks|, workers, n);
    }
  }

  /** A busy second leaves less work, and its busy workers can all work. */
  lemma BusyStep(dependsOn: map<char, seq<char>>, workers: nat, workerTime: nat, n: nat)
    requires workers >= 1
    requires Closed(dependsOn)
    requires Busy(dependsOn, workers, workerTime, n)
    ensures Covers(Seconds(dependsOn, workers, workerTime, n).tree)
    ensures |Seconds(dependsOn, workers, workerTime, n).tasks| <= workers
    ensures !Idle(dependsOn, workers, workerTime, n) ==>
      Workable(AssignFree(dependsOn, workers, Seconds(dependsOn, workers, workerTime, n)))
      && Covers(Seconds(dependsOn, workers, workerTime, n + 1).tree)
      && SumLeft(Seconds(dependsOn, workers, workerTime, n + 1).tree, 26) < SumLeft(Seconds(dependsOn, workers, workerTime, n).tree, 26)
  {
    var p := Seconds(dependsOn, workers, workerTime, n);
    var s := SecondsKeeps(dependsOn, workers, workerTime, n);
    var s2 := AssignedKeeps(dependsOn, workerTime, p, s, n, Slots(workers, p.tasks));
    var a := AssignFree(dependsOn, workers, p);
    TickSched(dependsOn, workerTime, a.tree, a.tasks, s2, n);
    TickedLeft(a.tree, a.tasks);
    assert Seconds(dependsOn, workers, workerTime, n + 1).tree == Ticked(a.tree, a.tasks);
  }

  /**
   * The second at which the loop stops: nothing runs and nothing more can
   * start; every finished step started after its prerequisites finished
   * and finished by then; some step finished exactly then (unless nothing
   * ever ran); and the total work lies between one and `workers` seconds
   * per second.
   */
  lemma IdleEnd(dependsOn: map<char, seq<char>>, workers: nat, workerTime: nat, n: nat)
    returns (start: map<char, nat>)
    requires workers >= 1
    requires Closed(dependsOn)
    requires Busy(dependsOn, workers, workerTime, n) && Idle(dependsOn, workers, workerTime, n)
    ensures var tree := AssignFree(dependsOn, workers, Seconds(dependsOn, workers, workerTime, n)).tree;
      Covers(tree) && (forall c :: IsStep(c) ==> c in start)
      && (forall c :: IsStep(c) ==> tree[c].state != Running)
      && NoneStartable(dependsOn, tree)
      && (forall c :: IsStep(c) && tree[c].state == Done ==>
            Preceded(dependsOn, workerTime, tree, start, c) && start[c] + Duration(c, workerTime) <= n)
      && (n == 0 || Finished(workerTime, tree, start, n))
      && n <= Spent(workerTime, tree) <= workers * n
  {
    var p := Seconds(dependsOn, workers, workerTime, n);
    var s := SecondsKeeps(dependsOn, workers, workerTime, n);
    start := AssignedKeeps(dependsOn, workerTime, p, s, n, Slots(workers, p.tasks));
    var a := AssignFree(dependsOn, workers, p);
    if n > 0 {
      AssignFinished(workerTime, p.tree, s, a.tree, start, n);
    }
  }

  /** Assigning free workers keeps a step that finished now finished at the same second. */
  lemma AssignFinished(workerTime: nat, tree: map<char, Task>, start: map<char, nat>, next: map<char, Task>,
                       nextStart: map<char, nat>, time: nat)
    requires Covers(tree) && Covers(next)
    requires forall c :: IsStep(c) ==> c in start && c in nextStart
    requires forall c :: IsStep(c) && tree[c].state == Done ==> next[c] == tree[c] && nextStart[c] == start[c]
    requires Finished(workerTime, tree, start, time)
    ensures Finished(workerTime, next, nextStart, time)
  {
    var c :| IsStep(c) && c in tree && c in start && tree[c].state == Done && start[c] + Duration(c, workerTime) == time;
    assert next[c] == tree[c] && nextStart[c] == start[c];
  }

  /**
   * The main loop of `b`: assign free workers, stop when none is busy,
   * otherwise work one second.  The time answered is the first second at
   * which the greedy schedule leaves every worker idle, and the run table
   * is the schedule's at that second.
   */
  method Schedule(dependsOn: map<char, seq<char>>, workers: nat, workerTime: nat)
    returns (time: nat, tree: map<char, Task>)
    requires workers >= 1
    requires Closed(dependsOn)
    ensures Idle(dependsOn, workers, workerTime, time) && Busy(dependsOn, workers, workerTime, time)
    ensures tree == AssignFree(dependsOn, workers, Seconds(dependsOn, workers, workerTime, time)).tree
  {
    var pool := Pool(InitialTree(workerTime), []);
    time := 0;
    while true
      invariant pool == Seconds(dependsOn, workers, workerTime, time) && Busy(dependsOn, workers, workerTime, time)
      invariant Covers(pool.tree)
      decreases SumLeft(pool.tree, 26)
    {
      var taken, next := Second(dependsOn, workers, workerTime, time, pool);
      if |taken.tasks| <= 0 {
        return time, taken.tree;
      }
      pool := next;
      time := time + 1;
    }
  }

  /**
   * One pass of `b`'s loop body: the free workers take steps, and unless
   * none is busy every worker works a second, giving the next second of
   * the schedule.
   */
  method Second(dependsOn: map<char, seq<char>>, workers: nat, workerTime: nat, time: nat, pool: Pool)
    returns (taken: Pool, next: Pool)
    requires workers >= 1 && Closed(dependsOn)
    requires pool == Seconds(dependsOn, workers, workerTime, time) && Busy(dependsOn, workers, workerTime, time)
    ensures taken == AssignFree(dependsOn, workers, pool)
    ensures taken.tasks != [] ==>
      next == Seconds(dependsOn, workers, workerTime, time + 1) && Busy(dependsOn, workers, workerTime, time + 1)
      && Covers(next.tree) && Covers(pool.tree) && SumLeft(next.tree, 26) < SumLeft(pool.tree, 26)
  {
    BusyStep(dependsOn, workers, workerTime, time);
    taken := Assign(dependsOn, workers, pool);
    next := taken;
    if taken.tasks != [] {
      next := Work(taken);
    }
  }

  /** The scan for a step that can start depends only on which prerequisites each entry holds. */
  lemma {:induction false} FirstStartableSame(m1: map<char, seq<char>>, m2: map<char, seq<char>>, tree: map<char, Task>, i: nat)
    requires SameDeps(m1, m2) && i <= 26
    ensures FirstStartable(m1, tree, i) == FirstStartable(m2, tree, i)
    decreases 26 - i
  {
    if i < 26 {
      var c := Letters()[i];
      assert ReadyToStart(m1, tree, c) <==> ReadyToStart(m2, tree, c);
      FirstStartableSame(m1, m2, tree, i + 1);
    }
  }

  lemma {:induction false} AssignedSame(m1: map<char, seq<char>>, m2: map<char, seq<char>>, p: Pool, k: nat)
    requires SameDeps(m1, m2)
    ensures Assigned(m1, p, k) == Assigned(m2, p, k)
  {
    if k > 0 {
      AssignedSame(m1, m2, p, k - 1);
      FirstStartableSame(m1, m2, Assigned(m1, p, k - 1).tree, 0);
    }
  }

  /** The whole greedy schedule depends only on which prerequisites each entry holds. */
  lemma {:induction false} SecondsSame(m1: map<char, seq<char>>, m2: map<char, seq<char>>, workers: nat, workerTime: nat, n: nat)
    requires SameDeps(m1, m2)
    ensures Seconds(m1, workers, workerTime, n) == Seconds(m2, workers, workerTime, n)
    ensures AssignFree(m1, workers, Seconds(m1, workers, workerTime, n)) == AssignFree(m2, workers, Seconds(m2, workers, workerTime, n))
    ensures Busy(m1, workers, workerTime, n) == Busy(m2, workers, workerTime, n)
  {
    if n > 0 {
      SecondsSame(m1, m2, workers, workerTime, n - 1);
    }
    var p := Seconds(m1, workers, workerTime, n);
    AssignedSame(m1, m2, p, Slots(workers, p.tasks));
  }

  /**
   * Part B: builds the table and runs the schedule with two workers and no
   * fixed time on the sample, five workers and 60 seconds otherwise.  The
   * answer is the first second at which the greedy schedule over the
   * dependency table leaves every worker idle; at that second nothing runs
   * and nothing more can start, every finished step started after its
   * prerequisites finished, and the total work lies between one and
   * `workers` seconds per second.
   */
  method B(deps: seq<Dependency>, isSample: bool) returns (time: nat, tree: map<char, Task>, ghost start: map<char, nat>)
    requires StepsOnly(deps)
    ensures Idle(Table(deps), Workers(isSample), WorkerTime(isSample), time)
    ensures Busy(Table(deps), Workers(isSample), WorkerTime(isSample), time)
    ensures tree == AssignFree(Table(deps), Workers(isSample),
                               Seconds(Table(deps), Workers(isSample), WorkerTime(isSample), time)).tree
    ensures Covers(tree) && forall c :: IsStep(c) ==> c in start
    ensures forall c :: IsStep(c) ==> tree[c].state != Running
    ensures NoneStartable(Table(deps), tree)
    ensures forall c :: IsStep(c) && tree[c].state == Done ==>
      Preceded(Table(deps), WorkerTime(isSample), tree, start, c) && start[c] + Duration(c, WorkerTime(isSample)) <= time
    ensures time == 0 || Finished(WorkerTime(isSample), tree, start, time)
    ensures time <= Spent(WorkerTime(isSample), tree) <= Workers(isSample) * time
  {
    var dependsOn := BuildDependsOn(deps);
    TableSteps(deps);
    SameDepsSteps(dependsOn, Table(deps));
    var workers := Workers(isSample);
    var workerTime := WorkerTime(isSample);
    time, tree := Schedule(dependsOn, workers, workerTime);
    SecondsSame(dependsOn, Table(deps), workers, workerTime, time);
    start := IdleEnd(Table(deps), workers, workerTime, time);
  }
}
