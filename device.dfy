/**
 * The wrist device of days 16, 19 and 21: sixteen opcodes over a register
 * file, and the instruction-pointer loop of `run_program`.  `OpCode::run`
 * is the same in 16/src/main.rs, 19/src/main.rs and 21/src/main.rs.
 */
module Device {
  import opened Wrappers
  import opened Arithmetic

  datatype OpCode =
    | Addr | Addi | Mulr | Muli | Banr | Bani | Borr | Bori
    | Setr | Seti | Gtir | Gtri | Gtrr | Eqir | Eqri | Eqrr

  /** `OP_CODES`, in declaration order. */
  const OpCodes: seq<OpCode> :=
    [Addr, Addi, Mulr, Muli, Banr, Bani, Borr, Bori, Setr, Seti, Gtir, Gtri, Gtrr, Eqir, Eqri, Eqrr]

  lemma OpCodesComplete(op: OpCode)
    ensures op in OpCodes && |OpCodes| == 16
    ensures forall i, j :: 0 <= i < j < |OpCodes| ==> OpCodes[i] != OpCodes[j]
  {
  }

  // ---------------------------------------------------------------------
  // Bitwise and / or on unsigned values
  // ---------------------------------------------------------------------

  function Pow2(k: nat): (p: nat)
    ensures p >= 1
  {
    if k == 0 then 1 else 2 * Pow2(k - 1)
  }

  /** `a & b`, bit by bit from the least significant bit. */
  function BitAnd(a: nat, b: nat): (r: nat)
    ensures r <= a && r <= b
  {
    if a == 0 || b == 0 then 0
    else 2 * BitAnd(a / 2, b / 2) + (if a % 2 == 1 && b % 2 == 1 then 1 else 0)
  }

  /** `a | b`, bit by bit from the least significant bit. */
  function BitOr(a: nat, b: nat): (r: nat)
    ensures a <= r && b <= r
  {
    if a == 0 then b
    else if b == 0 then a
    else 2 * BitOr(a / 2, b / 2) + (if a % 2 == 1 || b % 2 == 1 then 1 else 0)
  }

  /** Masking with `2^k - 1` keeps the low `k` bits. */
  lemma {:induction false} MaskIsModulo(x: nat, k: nat)
    ensures BitAnd(x, Pow2(k) - 1) == x % Pow2(k)
    decreases k
  {
    if k == 0 {
      assert Pow2(0) - 1 == 0;
      assert BitAnd(x, 0) == 0;
      DivModUnique(x, 1, x, 0);
    } else if x > 0 {
      var m := Pow2(k - 1);
      var mask := Pow2(k) - 1;
      assert mask == 2 * (m - 1) + 1;
      DivModUnique(mask, 2, m - 1, 1);
      assert mask != 0 && mask / 2 == m - 1 && mask % 2 == 1;
      var low := BitAnd(x / 2, m - 1);
      assert BitAnd(x, mask) == 2 * low + (if x % 2 == 1 then 1 else 0);
      MaskIsModulo(x / 2, k - 1);
      assert low == (x / 2) % m;
      DivModTwice(x, m);
      assert x % 2 == (if x % 2 == 1 then 1 else 0);
    } else {
      assert BitAnd(0, Pow2(k) - 1) == 0;
      DivModUnique(0, Pow2(k), 0, 0);
    }
  }

  lemma DivModTwice(x: nat, m: nat)
    requires m >= 1
    ensures x % (2 * m) == 2 * ((x / 2) % m) + x % 2
  {
    var h := x / 2;
    var q := h / m;
    var r := h % m;
    assert x == 2 * h + x % 2;
    assert h == m * q + r;
    assert 2 * h == (2 * m) * q + 2 * r;
    assert x == (2 * m) * q + (2 * r + x % 2);
    assert 0 <= 2 * r + x % 2 < 2 * m;
    DivModUnique(x, 2 * m, q, 2 * r + x % 2);
  }

  /** The bits of `a & b` and `a | b` together make up those of `a` and `b`. */
  lemma {:induction false} AndOrSum(a: nat, b: nat)
    ensures BitAnd(a, b) + BitOr(a, b) == a + b
    decreases a
  {
    if a != 0 && b != 0 {
      AndOrSum(a / 2, b / 2);
    }
  }

  // ---------------------------------------------------------------------
  // One instruction
  // ---------------------------------------------------------------------

  const A: nat := 0
  const B: nat := 1
  const C: nat := 2

  /** The opcodes that read operand A as a register number. */
  predicate ReadsRegisterA(op: OpCode)
  {
    !(op == Seti || op == Gtir || op == Eqir)
  }

  /** The opcodes that read operand B at all. */
  predicate ReadsB(op: OpCode)
  {
    !(op == Setr || op == Seti)
  }

  /** The opcodes that read operand B as a register number. */
  predicate ReadsRegisterB(op: OpCode)
  {
    op == Addr || op == Mulr || op == Banr || op == Borr || op == Gtir || op == Gtrr || op == Eqir || op == Eqrr
  }

  /** Running `op` reads only operands and registers that exist. */
  predicate CanRun(op: OpCode, input: seq<nat>, registers: seq<nat>)
  {
    |input| > C && input[C] < |registers| &&
    (ReadsRegisterA(op) ==> input[A] < |registers|) &&
    (ReadsRegisterB(op) ==> input[B] < |registers|)
  }

  /** The value `op` writes into register C. */
  function Compute(op: OpCode, input: seq<nat>, registers: seq<nat>): nat
    requires CanRun(op, input, registers)
  {
    var a := input[A];
    var b := input[B];
    match op
    case Addr => registers[a] + registers[b]
    case Addi => registers[a] + b
    case Mulr => registers[a] * registers[b]
    case Muli => registers[a] * b
    case Banr => BitAnd(registers[a], registers[b])
    case Bani => BitAnd(registers[a], b)
    case Borr => BitOr(registers[a], registers[b])
    case Bori => BitOr(registers[a], b)
    case Setr => registers[a]
    case Seti => a
    case Gtir => if a > registers[b] then 1 else 0
    case Gtri => if registers[a] > b then 1 else 0
    case Gtrr => if registers[a] > registers[b] then 1 else 0
    case Eqir => if a == registers[b] then 1 else 0
    case Eqri => if registers[a] == b then 1 else 0
    case Eqrr => if registers[a] == registers[b] then 1 else 0
  }

  /**
   * `OpCode::run`: a copy of the registers with register C replaced.  `None`
   * stands for the source's out-of-bounds panic.
   */
  function Run(op: OpCode, input: seq<nat>, registers: seq<nat>): (r: Option<seq<nat>>)
    ensures r.Some? <==> CanRun(op, input, registers)
    ensures r.Some? ==> |r.value| == |registers| && r.value[input[C]] == Compute(op, input, registers)
    ensures r.Some? ==> forall i :: 0 <= i < |registers| && i != input[C] ==> r.value[i] == registers[i]
  {
    if CanRun(op, input, registers) then Some(registers[input[C] := Compute(op, input, registers)]) else None
  }

  /** The comparison opcodes write exactly 1 or 0; setr copies and seti writes the immediate. */
  lemma ComputeShapes(op: OpCode, input: seq<nat>, registers: seq<nat>)
    requires CanRun(op, input, registers)
    ensures op in {Gtir, Gtri, Gtrr, Eqir, Eqri, Eqrr} ==> Compute(op, input, registers) <= 1
    ensures op == Setr ==> Compute(op, input, registers) == registers[input[A]]
    ensures op == Seti ==> Compute(op, input, registers) == input[A]
    ensures op in {Banr, Bani} ==> Compute(op, input, registers) <= registers[input[A]]
    ensures op in {Borr, Bori} ==> Compute(op, input, registers) >= registers[input[A]]
  {
  }

  /**
   * Each register form agrees with its immediate form once register B holds
   * the immediate value.
   */
  lemma RegisterImmediateAgree(input: seq<nat>, registers: seq<nat>)
    requires |input| > C && input[A] < |registers| && input[B] < |registers| && input[C] < |registers|
    ensures var imm := input[B := registers[input[B]]];
      Run(Addr, input, registers) == Run(Addi, imm, registers) &&
      Run(Mulr, input, registers) == Run(Muli, imm, registers) &&
      Run(Banr, input, registers) == Run(Bani, imm, registers) &&
      Run(Borr, input, registers) == Run(Bori, imm, registers) &&
      Run(Gtrr, input, registers) == Run(Gtri, imm, registers) &&
      Run(Eqrr, input, registers) == Run(Eqri, imm, registers)
  {
  }

  // ---------------------------------------------------------------------
  // Opcode names
  // ---------------------------------------------------------------------

  /** The `Display` name: the variant name in lower case. */
  function Name(op: OpCode): string
  {
    match op
    case Addr => "addr" case Addi => "addi" case Mulr => "mulr" case Muli => "muli"
    case Banr => "banr" case Bani => "bani" case Borr => "borr" case Bori => "bori"
    case Setr => "setr" case Seti => "seti" case Gtir => "gtir" case Gtri => "gtri"
    case Gtrr => "gtrr" case Eqir => "eqir" case Eqri => "eqri" case Eqrr => "eqrr"
  }

  /** The first of `candidates` with the given name; `Addr` when none has it. */
  function FindByName(raw: string, candidates: seq<OpCode>): (op: OpCode)
    ensures op in candidates || op == Addr
    ensures (forall k :: 0 <= k < |candidates| ==> Name(candidates[k]) != raw) ==> op == Addr
  {
    if candidates == [] then Addr
    else if Name(candidates[0]) == raw then candidates[0]
    else FindByName(raw, candidates[1..])
  }

  /** The opcode lookup of `parse_input`: names are matched against `OP_CODES`. */
  function ParseOpCode(raw: string): (op: OpCode)
    ensures (forall o: OpCode :: Name(o) != raw) ==> op == Addr
  {
    FindByName(raw, OpCodes)
  }

  lemma {:induction false} FindByNameFinds(raw: string, candidates: seq<OpCode>, k: nat)
    requires k < |candidates| && Name(candidates[k]) == raw
    requires forall i, j :: 0 <= i < j < |candidates| ==> Name(candidates[i]) != Name(candidates[j])
    ensures FindByName(raw, candidates) == candidates[k]
    decreases k
  {
    if k > 0 && Name(candidates[0]) != raw {
      FindByNameFinds(raw, candidates[1..], k - 1);
    }
  }

  /** Printing an opcode's name and parsing it back gives the opcode. */
  lemma NameRoundTrip(op: OpCode)
    ensures ParseOpCode(Name(op)) == op
  {
    OpCodesComplete(op);
    var k :| 0 <= k < |OpCodes| && OpCodes[k] == op;
    FindByNameFinds(Name(op), OpCodes, k);
  }

  // ---------------------------------------------------------------------
  // Programs with an instruction-pointer register
  // ---------------------------------------------------------------------

  datatype Instruction = Instruction(opCode: OpCode, input: seq<nat>)

  /** How `run_program` ends. `Fault` stands for a panic of the source. */
  datatype Halt = Halted(registers: seq<nat>) | Fault | OutOfFuel

  /**
   * The run loop: while register `ip` indexes an instruction, run it and
   * then increment register `ip`; on halting decrement register `ip` once.
   * At most `fuel` instructions are executed.
   */
  function Exec(ip: nat, instructions: seq<Instruction>, registers: seq<nat>, fuel: nat): (h: Halt)
    requires ip < |registers|
    ensures h.Halted? ==> |h.registers| == |registers|
    decreases fuel
  {
    var pc := registers[ip];
    if pc >= |instructions| then
      if pc == 0 then Fault else Halted(registers[ip := pc - 1])
    else if fuel == 0 then OutOfFuel
    else
      match Run(instructions[pc].opCode, instructions[pc].input, registers)
      case None => Fault
      case Some(next) => Exec(ip, instructions, next[ip := next[ip] + 1], fuel - 1)
  }

  /**
   * A halted run leaves as many registers as it started with, and the ip
   * register one below the first value past the program.
   */
  lemma {:induction false} ExecHalted(ip: nat, instructions: seq<Instruction>, registers: seq<nat>, fuel: nat)
    requires ip < |registers| && Exec(ip, instructions, registers, fuel).Halted?
    ensures var out := Exec(ip, instructions, registers, fuel).registers;
      |out| == |registers| && out[ip] + 1 >= |instructions|
    decreases fuel
  {
    var pc := registers[ip];
    if pc < |instructions| {
      var next := Run(instructions[pc].opCode, instructions[pc].input, registers).value;
      ExecHalted(ip, instructions, next[ip := next[ip] + 1], fuel - 1);
    }
  }

  /** More fuel never changes the result of a run that finished. */
  lemma {:induction false} ExecFuelMonotone(ip: nat, instructions: seq<Instruction>, registers: seq<nat>, fuel: nat, more: nat)
    requires ip < |registers| && fuel <= more && !Exec(ip, instructions, registers, fuel).OutOfFuel?
    ensures Exec(ip, instructions, registers, more) == Exec(ip, instructions, registers, fuel)
    decreases fuel
  {
    var pc := registers[ip];
    if pc < |instructions| {
      match Run(instructions[pc].opCode, instructions[pc].input, registers)
      case None =>
      case Some(next) =>
        ExecFuelMonotone(ip, instructions, next[ip := next[ip] + 1], fuel - 1, more - 1);
    }
  }

  /** A run that has not left the program: halted or faulted as `Exec` says, according to the ip register. */
  lemma ExecEnd(ip: nat, instructions: seq<Instruction>, registers: seq<nat>, fuel: nat)
    requires ip < |registers| && registers[ip] >= |instructions|
    ensures Exec(ip, instructions, registers, fuel) == if registers[ip] == 0 then Fault else Halted(registers[ip := registers[ip] - 1])
  {
  }

  /**
   * One pass of the instruction-pointer loop: run the instruction the ip
   * register points at and advance the ip register, or `None` for a fault.
   * A run with fuel left continues from the result.
   */
  method Advance(ip: nat, instructions: seq<Instruction>, registers: seq<nat>, ghost fuel: nat) returns (next: Option<seq<nat>>)
    requires ip < |registers| && registers[ip] < |instructions| && fuel > 0
    ensures next.Some? ==> |next.value| == |registers|
    ensures Exec(ip, instructions, registers, fuel) == if next.None? then Fault else Exec(ip, instructions, next.value, fuel - 1)
  {
    var instruction := instructions[registers[ip]];
    next := Run(instruction.opCode, instruction.input, registers);
    if next.Some? {
      next := Some(next.value[ip := next.value[ip] + 1]);
    }
  }

  /**
   * `run_program`: the first line (`#ip n`) names the ip register, the rest
   * is the program.  Returns the final registers; callers read register 0.
   */
  method RunProgram(initial: seq<nat>, program: seq<Instruction>, fuel: nat) returns (r: Halt)
    requires |program| >= 1 && |program[0].input| >= 1 && program[0].input[0] < |initial|
    ensures r == Exec(program[0].input[0], program[1..], initial, fuel)
  {
    var ipOverride := program[0].input[0];
    var instructions := program[1..];
    var registers: seq<nat> := initial;
    var remaining := fuel;
    while registers[ipOverride] < |instructions|
      invariant |registers| == |initial|
      invariant Exec(ipOverride, instructions, initial, fuel) == Exec(ipOverride, instructions, registers, remaining)
      decreases remaining
    {
      if remaining == 0 {
        return OutOfFuel;
      }
      var next := Advance(ipOverride, instructions, registers, remaining);
      if next.None? {
        return Fault;
      }
      registers := next.value;
      remaining := remaining - 1;
    }
    ExecEnd(ipOverride, instructions, registers, remaining);
    if registers[ipOverride] == 0 {
      return Fault;
    }
    registers := registers[ipOverride := registers[ipOverride] - 1];
    return Halted(registers);
  }
}
