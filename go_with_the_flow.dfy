/**
 * Day 19: a program with an instruction-pointer register, run from six
 * zero registers, and the divisor sum that the program computes for part B
 * (19/src/main.rs).
 */
module GoWithTheFlow {
  import opened Wrappers
  import opened Device

  /** Part A: run the program from six zero registers and return register 0. */
  method A(program: seq<Instruction>, fuel: nat) returns (r: Option<nat>)
    requires |program| >= 1 && |program[0].input| >= 1 && program[0].input[0] < 6
    ensures r.Some? <==> Exec(program[0].input[0], program[1..], [0, 0, 0, 0, 0, 0], fuel).Halted?
    ensures r.Some? ==> r.value == Exec(program[0].input[0], program[1..], [0, 0, 0, 0, 0, 0], fuel).registers[0]
  {
    var halt := RunProgram([0, 0, 0, 0, 0, 0], program, fuel);
    if !halt.Halted? {
      return None;
    }
    ExecHalted(program[0].input[0], program[1..], [0, 0, 0, 0, 0, 0], fuel);
    return Some(halt.registers[0]);
  }

  /** The sample program, after its `#ip 0` line. */
  const SampleProgram: seq<Instruction> := [
    Instruction(Seti, [5, 0, 1]),
    Instruction(Seti, [6, 0, 2]),
    Instruction(Addi, [0, 1, 0]),
    Instruction(Addr, [1, 2, 3]),
    Instruction(Setr, [1, 0, 0]),
    Instruction(Seti, [8, 0, 4]),
    Instruction(Seti, [9, 0, 5])
  ]

  /** The sample program halts after five instructions with 6 in register 0. */
  lemma SampleReturnsSix()
    ensures Exec(0, SampleProgram, [0, 0, 0, 0, 0, 0], 5) == Halted([6, 5, 6, 0, 0, 9])
  {
    SampleStep1();
    SampleStep2();
    SampleStep3();
    SampleStep4();
    SampleStep5();
    assert [7, 5, 6, 0, 0, 9][0 := 6] == [6, 5, 6, 0, 0, 9];
  }

  lemma SampleStep1()
    ensures Exec(0, SampleProgram, [0, 0, 0, 0, 0, 0], 5) == Exec(0, SampleProgram, [1, 5, 0, 0, 0, 0], 4)
  {
    var registers := [0, 0, 0, 0, 0, 0];
    assert SampleProgram[0] == Instruction(Seti, [5, 0, 1]);
    assert Compute(Seti, [5, 0, 1], registers) == 5;
    assert registers[1 := 5] == [0, 5, 0, 0, 0, 0];
    assert [0, 5, 0, 0, 0, 0][0 := 1] == [1, 5, 0, 0, 0, 0];
    ExecStep(0, SampleProgram, registers, 5, [0, 5, 0, 0, 0, 0]);
  }

  lemma SampleStep2()
    ensures Exec(0, SampleProgram, [1, 5, 0, 0, 0, 0], 4) == Exec(0, SampleProgram, [2, 5, 6, 0, 0, 0], 3)
  {
    var registers := [1, 5, 0, 0, 0, 0];
    assert SampleProgram[1] == Instruction(Seti, [6, 0, 2]);
    assert Compute(Seti, [6, 0, 2], registers) == 6;
    assert registers[2 := 6] == [1, 5, 6, 0, 0, 0];
    assert [1, 5, 6, 0, 0, 0][0 := 2] == [2, 5, 6, 0, 0, 0];
    ExecStep(0, SampleProgram, registers, 4, [1, 5, 6, 0, 0, 0]);
  }

  lemma SampleStep3()
    ensures Exec(0, SampleProgram, [2, 5, 6, 0, 0, 0], 3) == Exec(0, SampleProgram, [4, 5, 6, 0, 0, 0], 2)
  {
    var registers := [2, 5, 6, 0, 0, 0];
    assert SampleProgram[2] == Instruction(Addi, [0, 1, 0]);
    assert Compute(Addi, [0, 1, 0], registers) == 3;
    assert registers[0 := 3] == [3, 5, 6, 0, 0, 0];
    assert [3, 5, 6, 0, 0, 0][0 := 4] == [4, 5, 6, 0, 0, 0];
    ExecStep(0, SampleProgram, registers, 3, [3, 5, 6, 0, 0, 0]);
  }

  lemma SampleStep4()
    ensures Exec(0, SampleProgram, [4, 5, 6, 0, 0, 0], 2) == Exec(0, SampleProgram, [6, 5, 6, 0, 0, 0], 1)
  {
    var registers := [4, 5, 6, 0, 0, 0];
    assert SampleProgram[4] == Instruction(Setr, [1, 0, 0]);
    assert Compute(Setr, [1, 0, 0], registers) == 5;
    assert registers[0 := 5] == [5, 5, 6, 0, 0, 0];
    assert [5, 5, 6, 0, 0, 0][0 := 6] == [6, 5, 6, 0, 0, 0];
    ExecStep(0, SampleProgram, registers, 2, [5, 5, 6, 0, 0, 0]);
  }

  lemma SampleStep5()
    ensures Exec(0, SampleProgram, [6, 5, 6, 0, 0, 0], 1) == Exec(0, SampleProgram, [7, 5, 6, 0, 0, 9], 0)
  {
    var registers := [6, 5, 6, 0, 0, 0];
    assert SampleProgram[6] == Instruction(Seti, [9, 0, 5]);
    assert Compute(Seti, [9, 0, 5], registers) == 9;
    assert registers[5 := 9] == [6, 5, 6, 0, 0, 9];
    assert [6, 5, 6, 0, 0, 9][0 := 7] == [7, 5, 6, 0, 0, 9];
    ExecStep(0, SampleProgram, registers, 1, [6, 5, 6, 0, 0, 9]);
  }

  /** One instruction of a run. */
  lemma ExecStep(ip: nat, instructions: seq<Instruction>, registers: seq<nat>, fuel: nat, next: seq<nat>)
    requires ip < |registers| && registers[ip] < |instructions| && fuel > 0
    requires Run(instructions[registers[ip]].opCode, instructions[registers[ip]].input, registers) == Some(next)
    ensures Exec(ip, instructions, registers, fuel) == Exec(ip, instructions, next[ip := next[ip] + 1], fuel - 1)
  {
  }

  /** The sum of the divisors of `n` that are at most `k`. */
  function DivisorSum(n: nat, k: nat): nat
  {
    if k == 0 then 0 else DivisorSum(n, k - 1) + (if n % k == 0 then k else 0)
  }

  /** No divisor sum up to `k` exceeds 1 + 2 + ... + k. */
  lemma {:induction false} DivisorSumUpper(n: nat, k: nat)
    ensures 2 * DivisorSum(n, k) <= k * (k + 1)
  {
    if k > 0 {
      DivisorSumUpper(n, k - 1);
      var prev := DivisorSum(n, k - 1);
      assert DivisorSum(n, k) <= prev + k;
      assert (k - 1) * k + 2 * k == k * (k + 1) by {
        assert (k - 1) * k == k * k - k;
      }
    }
  }

  /** Every `n >= 1` has the divisor 1. */
  lemma {:induction false} DivisorSumOne(n: nat, k: nat)
    requires n >= 1 && k >= 1
    ensures DivisorSum(n, k) >= 1
  {
    if k == 1 {
      assert n % 1 == 0;
    } else {
      DivisorSumOne(n, k - 1);
    }
  }

  /** Every `n >= 2` has the divisors 1 and `n`. */
  lemma {:induction false} DivisorSumSelf(n: nat, k: nat)
    requires n >= 2 && k >= n
    ensures DivisorSum(n, k) >= n + 1
  {
    if k == n {
      DivisorSumOne(n, n - 1);
      assert n % n == 0;
    } else {
      DivisorSumSelf(n, k - 1);
    }
  }

  /** Every `n >= 2` has at least the divisors 1 and `n`, and no sum exceeds 1 + 2 + ... + k. */
  lemma DivisorSumBounds(n: nat, k: nat)
    ensures 2 * DivisorSum(n, k) <= k * (k + 1)
    ensures n >= 1 && k >= 1 ==> DivisorSum(n, k) >= 1
    ensures n >= 2 && k >= n ==> DivisorSum(n, k) >= n + 1
  {
    DivisorSumUpper(n, k);
    if n >= 1 && k >= 1 {
      DivisorSumOne(n, k);
    }
    if n >= 2 && k >= n {
      DivisorSumSelf(n, k);
    }
  }

  /** The loop of `b`: sums every `four` in `1..=two` that divides `two`. */
  method SumDivisors(two: nat) returns (zero: nat)
    ensures zero == DivisorSum(two, two)
  {
    zero := 0;
    var four := 1;
    while four <= two
      invariant 1 <= four <= two + 1 || (two == 0 && four == 1)
      invariant zero == DivisorSum(two, four - 1)
      decreases two + 1 - four
    {
      if two % four == 0 {
        zero := zero + four;
      }
      four := four + 1;
    }
  }

  /** Part B: the divisor sum of 10551354, which the input program computes slowly. */
  method B() returns (r: nat)
    ensures r == DivisorSum(10551354, 10551354) && r >= 10551355
  {
    r := SumDivisors(10551354);
    DivisorSumBounds(10551354, 10551354);
  }
}
