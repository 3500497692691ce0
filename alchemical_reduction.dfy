/**
 * Day 5 (5/src/main.rs, and the same `compress_polymer` and `b` in
 * 5/main.rs): a polymer is a string of units; two adjacent units whose
 * codes differ by exactly 32 (the same letter in opposite cases) react and
 * vanish.  `compress_polymer` reacts the whole polymer with a stack and a
 * pending unit `last`; `b` removes one letter in both cases at a time and
 * keeps the shortest result.  Units are ASCII bytes.
 */
module AlchemicalReduction {
  import opened Wrappers

  type Byte = b: int | 0 <= b < 256

  /** `ASCII_DIFF`, `'a' - 'A'`. */
  const AsciiDiff: int := 32

  /** The sentinel `base_char`, `'#'`: never pushed, and nothing at or below it is pushed. */
  const BaseChar: Byte := 35

  predicate Polar(a: int, b: int)
  {
    Abs(a - b) == AsciiDiff
  }

  // ---------------------------------------------------------------------
  // The reference reaction
  // ---------------------------------------------------------------------

  /** Adds a unit to a fully reacted polymer: it annihilates the last unit when they are polar. */
  function Push(reduced: seq<Byte>, c: Byte): seq<Byte>
  {
    if reduced != [] && Polar(reduced[|reduced| - 1], c) then reduced[..|reduced| - 1] else reduced + [c]
  }

  /** The polymer left once every possible reaction, chains included, has happened. */
  function Reduce(s: seq<Byte>): seq<Byte>
  {
    if s == [] then [] else Push(Reduce(s[..|s| - 1]), s[|s| - 1])
  }

  /** No two adjacent units of `t` react. */
  predicate Stable(t: seq<Byte>)
  {
    forall i :: 0 <= i < |t| - 1 ==> !Polar(t[i], t[i + 1])
  }

  /** The reaction shortens the polymer by an even number of units: they vanish in pairs. */
  lemma {:induction false} ReduceLength(s: seq<Byte>)
    ensures |Reduce(s)| <= |s| && (|s| - |Reduce(s)|) % 2 == 0
    decreases |s|
  {
    if s != [] {
      ReduceLength(s[..|s| - 1]);
    }
  }

  /** No two adjacent units of the reacted polymer react. */
  lemma {:induction false} ReduceStable(s: seq<Byte>)
    ensures Stable(Reduce(s))
    decreases |s|
  {
    if s != [] {
      var init := s[..|s| - 1];
      ReduceStable(init);
      var r := Reduce(init);
      var c := s[|s| - 1];
    }
  }

  /** Every unit left after the reaction is a unit of the input. */
  lemma {:induction false} ReduceUnits(s: seq<Byte>)
    ensures multiset(Reduce(s)) <= multiset(s)
    decreases |s|
  {
    if s != [] {
      var init := s[..|s| - 1];
      var c := s[|s| - 1];
      ReduceUnits(init);
      var r := Reduce(init);
      assert s == init + [c];
      if r != [] && Polar(r[|r| - 1], c) {
        assert r == r[..|r| - 1] + [r[|r| - 1]];
      }
    }
  }

  // ---------------------------------------------------------------------
  // compress_polymer as written
  // ---------------------------------------------------------------------

  /** The loop state of `compress_polymer`: the pushed units and the pending unit `last`. */
  datatype Scan = Scan(stack: seq<Byte>, last: Byte)

  const Start: Scan := Scan([], BaseChar)

  /**
   * One character of `compress_polymer` as written: a character polar to
   * `last` pops the stack into `last` (or resets `last` to the sentinel);
   * any other pushes `last` when it is above the sentinel and becomes
   * the new `last`.
   */
  function StepAsWritten(st: Scan, c: Byte): Scan
  {
    if Polar(c, st.last) then
      if st.stack == [] then Scan([], BaseChar) else Scan(st.stack[..|st.stack| - 1], st.stack[|st.stack| - 1])
    else
      Scan(if st.last > BaseChar then st.stack + [st.last] else st.stack, c)
  }

  function ScanAsWritten(s: seq<Byte>): Scan
  {
    if s == [] then Start else StepAsWritten(ScanAsWritten(s[..|s| - 1]), s[|s| - 1])
  }

  /** The pushed units never outnumber the characters read; the pending unit is one of them too. */
  lemma {:induction false} ScanAsWrittenBound(s: seq<Byte>)
    ensures var st := ScanAsWritten(s); |st.stack| + (if st.last > BaseChar then 1 else 0) <= |s|
    ensures forall b :: b in ScanAsWritten(s).stack ==> b > BaseChar
    decreases |s|
  {
    if s != [] {
      ScanAsWrittenBound(s[..|s| - 1]);
    }
  }

  /**
   * `compress_polymer` (5/src/main.rs:36-69, 5/main.rs:54-88): the length of
   * the pushed stack; the pending unit is not counted.
   */
  method CompressPolymer(polymer: seq<Byte>) returns (n: nat)
    ensures n == |ScanAsWritten(polymer).stack|
    ensures n <= |polymer|
  {
    var newPolymer: seq<Byte> := [];
    var last: Byte := BaseChar;
    for i := 0 to |polymer|
      invariant Scan(newPolymer, last) == ScanAsWritten(polymer[..i])
    {
      assert polymer[..i + 1][..i] == polymer[..i];
      var current := polymer[i];
      ghost var next := StepAsWritten(Scan(newPolymer, last), current);
      assert next == ScanAsWritten(polymer[..i + 1]);
      if Abs(current - last) == AsciiDiff {
        if newPolymer == [] {
          last := BaseChar;
        } else {
          last := newPolymer[|newPolymer| - 1];
          newPolymer := newPolymer[..|newPolymer| - 1];
        }
      } else {
        if last > BaseChar {
          newPolymer := newPolymer + [last];
        }
        last := current;
      }
    }
    assert polymer[..|polymer|] == polymer;
    ScanAsWrittenBound(polymer);
    n := |newPolymer|;
  }

  /**
   * `'C'` (67) is polar to the sentinel `'#'` (35): a `C` that meets an
   * empty stack vanishes.  "C\n" compresses to 0 units, though "C" does
   * not react at all.
   */
  lemma SentinelReacts()
    ensures |ScanAsWritten([67, 10]).stack| == 0
    ensures Reduce([67]) == [67]
  {
    assert [67, 10][..1] == [67];
    assert [67][..0] == [];
  }

  /**
   * Without a character after it, the final pending unit is dropped: "aB"
   * counts 1 (the trailing newline of the puzzle input is what flushes it).
   */
  lemma PendingUnitDropped()
    ensures |ScanAsWritten([97, 66]).stack| == 1 && Reduce([97, 66]) == [97, 66]
  {
    assert [97, 66][..1] == [97];
    assert [97][..0] == [];
  }

  // ---------------------------------------------------------------------
  // compress_polymer corrected
  // ---------------------------------------------------------------------

  /** One character with the intended rule: only a real pending unit can react. */
  function StepFixed(st: Scan, c: Byte): Scan
  {
    if st.last > BaseChar && Polar(c, st.last) then
      if st.stack == [] then Scan([], BaseChar) else Scan(st.stack[..|st.stack| - 1], st.stack[|st.stack| - 1])
    else
      Scan(if st.last > BaseChar then st.stack + [st.last] else st.stack, c)
  }

  function ScanFixed(s: seq<Byte>): Scan
  {
    if s == [] then Start else StepFixed(ScanFixed(s[..|s| - 1]), s[|s| - 1])
  }

  /** The stack with the pending unit on top, when there is one. */
  function Effective(st: Scan): seq<Byte>
  {
    st.stack + (if st.last > BaseChar then [st.last] else [])
  }

  /**
   * The shape the corrected scan keeps on units above the sentinel: pushed
   * units lie above it, `last` is never below it, and a sentinel `last`
   * means an empty stack.
   */
  predicate Shaped(st: Scan)
  {
    st.last >= BaseChar && (st.last == BaseChar ==> st.stack == []) && forall b :: b in st.stack ==> b > BaseChar
  }

  lemma StepFixedShaped(st: Scan, c: Byte)
    requires Shaped(st) && c > BaseChar
    ensures Shaped(StepFixed(st, c))
  {
    if st.last > BaseChar && Polar(c, st.last) && st.stack != [] {
      var n := |st.stack|;
      assert st.stack[n - 1] in st.stack;
      var next := StepFixed(st, c);
      assert next == Scan(st.stack[..n - 1], st.stack[n - 1]);
      forall b | b in next.stack ensures b > BaseChar {
        var k :| 0 <= k < n - 1 && next.stack[k] == b;
        assert st.stack[k] in st.stack;
      }
    }
  }

  /** One corrected step on a shaped state pushes onto the effective stack exactly as the reference reaction does. */
  lemma StepFixedIsPush(st: Scan, c: Byte)
    requires Shaped(st) && c > BaseChar
    ensures Effective(StepFixed(st, c)) == Push(Effective(st), c)
  {
    var e := Effective(st);
    if st.last > BaseChar {
      assert e != [] && e[|e| - 1] == st.last && e[..|e| - 1] == st.stack;
      if Polar(c, st.last) && st.stack != [] {
        assert st.stack[|st.stack| - 1] in st.stack;
        assert st.stack == st.stack[..|st.stack| - 1] + [st.stack[|st.stack| - 1]];
      }
    } else {
      assert e == [];
    }
  }

  /**
   * On units above the sentinel, the corrected scan keeps exactly the
   * reference reaction: its stack with the pending unit on top is `Reduce(s)`.
   */
  lemma {:induction false} FixedIsReduce(s: seq<Byte>)
    requires forall i :: 0 <= i < |s| ==> s[i] > BaseChar
    ensures Effective(ScanFixed(s)) == Reduce(s)
    ensures Shaped(ScanFixed(s))
    decreases |s|
  {
    if s != [] {
      var init := s[..|s| - 1];
      FixedIsReduce(init);
      StepFixedShaped(ScanFixed(init), s[|s| - 1]);
      StepFixedIsPush(ScanFixed(init), s[|s| - 1]);
    }
  }

  /**
   * The corrected `compress_polymer`, on a polymer followed by one
   * terminating character at or below the sentinel that reacts with none of
   * its units (the input's trailing newline), returns the length of the
   * fully reacted polymer.
   */
  lemma TerminatedFixedIsReduce(s: seq<Byte>, t: Byte)
    requires forall i :: 0 <= i < |s| ==> s[i] > BaseChar && !Polar(t, s[i])
    requires t <= BaseChar
    ensures |ScanFixed(s + [t]).stack| == |Reduce(s)|
  {
    FixedIsReduce(s);
    assert (s + [t])[..|s|] == s;
    var st := ScanFixed(s);
    if st.last > BaseChar {
      assert st.last in Reduce(s);
      ReduceUnits(s);
      assert st.last in multiset(s);
    }
  }

  /** `compress_polymer` with the corrected rule. */
  method CompressPolymerFixed(polymer: seq<Byte>) returns (n: nat)
    ensures n == |ScanFixed(polymer).stack|
  {
    var newPolymer: seq<Byte> := [];
    var last: Byte := BaseChar;
    for i := 0 to |polymer|
      invariant Scan(newPolymer, last) == ScanFixed(polymer[..i])
    {
      assert polymer[..i + 1][..i] == polymer[..i];
      var current := polymer[i];
      if last > BaseChar && Abs(current - last) == AsciiDiff {
        if newPolymer == [] {
          last := BaseChar;
        } else {
          last := newPolymer[|newPolymer| - 1];
          newPolymer := newPolymer[..|newPolymer| - 1];
        }
      } else {
        if last > BaseChar {
          newPolymer := newPolymer + [last];
        }
        last := current;
      }
    }
    assert polymer[..|polymer|] == polymer;
    n := |newPolymer|;
  }

  // ---------------------------------------------------------------------
  // Part B
  // ---------------------------------------------------------------------

  /** The polymer without the lower-case unit `bad` and its capital. */
  function Remove(s: seq<Byte>, bad: Byte): (r: seq<Byte>)
    ensures |r| <= |s|
    ensures forall b :: b in r <==> b in s && b != bad && b != bad - AsciiDiff
  {
    if s == [] then []
    else Remove(s[..|s| - 1], bad) + (if s[|s| - 1] != bad && s[|s| - 1] != bad - AsciiDiff then [s[|s| - 1]] else [])
  }

  /**
   * `b`: for each letter 'a'..='z', remove it in both cases, react, and keep
   * the least length, starting from `len + 1`.  Reacting uses the corrected
   * `compress_polymer`.
   */
  method B(polymer: seq<Byte>) returns (min: nat)
    ensures min <= |polymer| + 1
    ensures forall bad :: 97 <= bad <= 122 ==> min <= |ScanFixed(Remove(polymer, bad)).stack|
    ensures min == |polymer| + 1 || exists bad :: 97 <= bad <= 122 && min == |ScanFixed(Remove(polymer, bad)).stack|
  {
    min := |polymer| + 1;
    for badNum := 97 to 123
      invariant min <= |polymer| + 1
      invariant forall bad :: 97 <= bad < badNum ==> min <= |ScanFixed(Remove(polymer, bad)).stack|
      invariant min == |polymer| + 1 || exists bad :: 97 <= bad < badNum && min == |ScanFixed(Remove(polymer, bad)).stack|
    {
      var filtered := Remove(polymer, badNum);
      var result := CompressPolymerFixed(filtered);
      if result < min {
        min := result;
        assert 97 <= badNum < badNum + 1 && min == |ScanFixed(Remove(polymer, badNum)).stack|;
      }
    }
  }

  /** On a newline-terminated polymer of letters, each candidate of `b` is the reacted length of the filtered polymer. */
  lemma BCandidateIsReduce(s: seq<Byte>, bad: Byte)
    requires forall i :: 0 <= i < |s| ==> s[i] >= 65
    requires 97 <= bad <= 122
    ensures |ScanFixed(Remove(s + [10], bad)).stack| == |Reduce(Remove(s, bad))|
  {
    var s' := s + [10];
    assert s'[..|s'| - 1] == s;
    var f := Remove(s, bad);
    assert Remove(s', bad) == f + [10];
    forall i | 0 <= i < |f| ensures f[i] > BaseChar && !Polar(10, f[i]) {
      assert f[i] in f;
    }
    TerminatedFixedIsReduce(f, 10);
  }
}
