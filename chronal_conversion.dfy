/**
 * Day 21: the activation program run with a chosen register 0, and the
 * hand-translated inner loop of part B that produces a sequence of 24-bit
 * values until one repeats (21/src/main.rs).
 */
module ChronalConversion {
  import opened Wrappers
  import opened Device

  /** Part A: run the program with 11474091 in register 0 and return register 0. */
  method A(program: seq<Instruction>, fuel: nat) returns (r: Option<nat>)
    requires |program| >= 1 && |program[0].input| >= 1 && program[0].input[0] < 6
    ensures r.Some? <==> Exec(program[0].input[0], program[1..], [11474091, 0, 0, 0, 0, 0], fuel).Halted?
    ensures r.Some? ==> r.value == Exec(program[0].input[0], program[1..], [11474091, 0, 0, 0, 0, 0], fuel).registers[0]
  {
    var halt := RunProgram([11474091, 0, 0, 0, 0, 0], program, fuel);
    if !halt.Halted? {
      return None;
    }
    return Some(halt.registers[0]);
  }

  const Mask24: nat := 0xFFFFFF

  /**
   * The `'mid` loop from `three` and `four`: add the low byte of `four`, keep
   * 24 bits, multiply by 65899, keep 24 bits, and repeat on `four / 256`
   * until `four` is below 256.
   */
  function Mix(three: nat, four: nat): (r: nat)
    ensures r <= Mask24
    decreases four
  {
    var t := ((three + four % 256) % 0x1000000 * 65899) % 0x1000000;
    if four < 256 then t else Mix(t, four / 256)
  }

  /** The value the next pass of the outer loop produces from the previous one. */
  function NextThree(three: nat): (r: nat)
    ensures r <= Mask24
  {
    Mix(2176960, BitOr(three, 0x10000))
  }

  lemma Masks()
    ensures Pow2(8) - 1 == 0xFF && Pow2(24) - 1 == Mask24
  {
    assert Pow2(8) == 256;
    assert Pow2(16) == 65536 by {
      assert Pow2(16) == Pow2(8) * 256 by { Pow2Add(8, 8); }
    }
    assert Pow2(24) == 0x1000000 by {
      assert Pow2(24) == Pow2(16) * 256 by { Pow2Add(16, 8); }
    }
  }

  lemma {:induction false} Pow2Add(a: nat, b: nat)
    ensures Pow2(a + b) == Pow2(a) * Pow2(b)
    decreases b
  {
    if b > 0 {
      Pow2Add(a, b - 1);
    }
  }

  /** One pass of the outer loop of `b`, with the source's bitwise masks. */
  method Produce(previous: nat) returns (three: nat)
    ensures three == NextThree(previous) && three <= Mask24
  {
    Masks();
    var four := BitOr(previous, 0x10000);
    three := 2176960;
    ghost var target := Mix(three, four);
    while true
      invariant Mix(three, four) == target
      decreases four
    {
      var one := BitAnd(four, 0xFF);
      MaskIsModulo(four, 8);
      three := three + one;
      MaskIsModulo(three, 24);
      three := BitAnd(three, Mask24);
      three := three * 65899;
      MaskIsModulo(three, 24);
      three := BitAnd(three, Mask24);
      if four < 256 {
        break;
      }
      four := four / 256;
    }
  }

  /** The `n`-th value the outer loop produces from the start value 0. */
  function Iterate(n: nat): (r: nat)
  {
    if n == 0 then 0 else NextThree(Iterate(n - 1))
  }

  /**
   * The values produced so far, from the start value 0: the `k`-th is the
   * successor of the one before, and no value has repeated.
   */
  ghost predicate Orbit(produced: seq<nat>)
  {
    (forall k :: 0 <= k < |produced| ==> produced[k] == Iterate(k + 1)) &&
    forall i, j :: 0 <= i < j < |produced| ==> produced[i] != produced[j]
  }

  lemma OrbitExtend(produced: seq<nat>, three: nat)
    requires Orbit(produced) && three == Iterate(|produced| + 1) && three !in produced
    ensures Orbit(produced + [three])
  {
    var next := produced + [three];
    forall k | 0 <= k < |next|
      ensures next[k] == Iterate(k + 1)
    {
      if k < |produced| {
        assert next[k] == produced[k];
      }
    }
    forall i, j | 0 <= i < j < |next|
      ensures next[i] != next[j]
    {
      assert next[i] == produced[i];
      if j == |produced| {
        assert next[j] == three;
      } else {
        assert next[j] == produced[j];
      }
    }
  }

  /** A set of values below `n` has at most `n` elements. */
  lemma {:induction false} BoundedSetSize(s: set<nat>, n: nat)
    requires forall x :: x in s ==> x < n
    ensures |s| <= n
    decreases n
  {
    if n > 0 {
      var rest := s - {n - 1};
      BoundedSetSize(rest, n - 1);
      assert s <= rest + {n - 1};
      assert |rest + {n - 1}| <= |rest| + 1;
      SubsetSize(s, rest + {n - 1});
    } else {
      assert s == {};
    }
  }

  lemma SubsetSize(a: set<nat>, b: set<nat>)
    requires a <= b
    ensures |a| <= |b|
  {
    assert b == a + (b - a);
  }

  /** The state of `b`'s loop: `seen` holds exactly the produced values and `last` is the latest. */
  ghost predicate Progress(seen: set<nat>, produced: seq<nat>, last: nat)
  {
    Orbit(produced) && last == Iterate(|produced|) && last <= Mask24 &&
    (forall x :: x in seen ==> x <= Mask24) &&
    (forall x :: x in seen <==> x in produced)
  }

  lemma Advance(seen: set<nat>, produced: seq<nat>, last: nat, three: nat)
    requires Progress(seen, produced, last) && three == NextThree(last) && three !in seen
    ensures Progress(seen + {three}, produced + [three], three)
  {
    OrbitExtend(produced, three);
  }

  /**
   * Part B: produce values until one repeats and return the value produced
   * just before the repeat.
   */
  method B() returns (r: nat)
    ensures r <= Mask24
    ensures exists produced :: Orbit(produced) && |produced| >= 1 && r == produced[|produced| - 1] && NextThree(r) in produced
  {
    var seen: set<nat> := {};
    var last := 0;
    var three := 0;
    ghost var produced: seq<nat> := [];
    while true
      invariant Progress(seen, produced, last) && three == last
      decreases Mask24 + 1 - |seen|
    {
      BoundedSetSize(seen, Mask24 + 1);
      three := Produce(three);
      if three in seen {
        assert |produced| >= 1 && last == produced[|produced| - 1];
        return last;
      }
      Advance(seen, produced, last, three);
      seen := seen + {three};
      produced := produced + [three];
      last := three;
      BoundedSetSize(seen, Mask24 + 1);
    }
  }
}
