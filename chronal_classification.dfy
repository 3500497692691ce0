/**
 * Day 16: the manual's before/after samples, the count of samples that
 * three or more opcodes explain, the deduction of opcode numbers, and the
 * run of the test program (16/src/main.rs).
 */
module ChronalClassification {
  import opened Wrappers
  import opened Device

  /** One `ManualStep`: registers before, the instruction `id a b c`, registers after. */
  datatype Sample = Sample(before: seq<nat>, instruction: seq<nat>, after: seq<nat>)

  /**
   * Every opcode can run on the sample without indexing out of bounds (the
   * source runs all sixteen, including `addr`, on each sample).
   */
  predicate WellFormed(s: Sample)
  {
    |s.instruction| == 4 &&
    s.instruction[1] < |s.before| && s.instruction[2] < |s.before| && s.instruction[3] < |s.before|
  }

  /** `op` turns the sample's before registers into its after registers. */
  predicate Matches(op: OpCode, s: Sample)
    requires WellFormed(s)
  {
    Run(op, s.instruction[1..], s.before) == Some(s.after)
  }

  /** How many of `ops` the sample is consistent with. */
  function CountMatches(s: Sample, ops: seq<OpCode>): (n: nat)
    requires WellFormed(s)
    ensures n <= |ops|
  {
    if ops == [] then 0
    else CountMatches(s, ops[..|ops| - 1]) + (if Matches(ops[|ops| - 1], s) then 1 else 0)
  }

  /** The opcodes among `ops` the sample is consistent with. */
  function MatchingOps(s: Sample, ops: seq<OpCode>): set<OpCode>
    requires WellFormed(s)
  {
    set op | op in ops && Matches(op, s)
  }

  /** Over distinct opcodes, the count is the size of the set of matching opcodes. */
  lemma {:induction false} CountIsCardinality(s: Sample, ops: seq<OpCode>)
    requires WellFormed(s) && forall i, j :: 0 <= i < j < |ops| ==> ops[i] != ops[j]
    ensures CountMatches(s, ops) == |MatchingOps(s, ops)|
    decreases |ops|
  {
    if ops != [] {
      var init := ops[..|ops| - 1];
      var last := ops[|ops| - 1];
      CountIsCardinality(s, init);
      assert last !in init;
      assert ops == init + [last];
      if Matches(last, s) {
        assert MatchingOps(s, ops) == MatchingOps(s, init) + {last};
      } else {
        assert MatchingOps(s, ops) == MatchingOps(s, init);
      }
    }
  }

  /** The inner loop of `a`: how many of the sixteen opcodes match the sample. */
  method ValidCount(s: Sample) returns (count: nat)
    requires WellFormed(s)
    ensures count == CountMatches(s, OpCodes)
  {
    count := 0;
    for k := 0 to |OpCodes|
      invariant count == CountMatches(s, OpCodes[..k])
    {
      assert OpCodes[..k + 1][..k] == OpCodes[..k];
      if Run(OpCodes[k], s.instruction[1..], s.before) == Some(s.after) {
        count := count + 1;
      }
    }
    assert OpCodes[..|OpCodes|] == OpCodes;
  }

  /** The number of samples among the first `n` that three or more opcodes explain. */
  function Ambiguous(manual: seq<Sample>, n: nat): (r: nat)
    requires n <= |manual| && forall k :: 0 <= k < |manual| ==> WellFormed(manual[k])
    ensures r <= n
  {
    if n == 0 then 0
    else Ambiguous(manual, n - 1) + (if CountMatches(manual[n - 1], OpCodes) >= 3 then 1 else 0)
  }

  /** Part A: the number of samples matched by at least three opcodes. */
  method A(manual: seq<Sample>) returns (threeOrMore: nat)
    requires forall k :: 0 <= k < |manual| ==> WellFormed(manual[k])
    ensures threeOrMore == Ambiguous(manual, |manual|)
  {
    threeOrMore := 0;
    for i := 0 to |manual|
      invariant threeOrMore == Ambiguous(manual, i)
    {
      var validCount := ValidCount(manual[i]);
      if validCount >= 3 {
        threeOrMore := threeOrMore + 1;
      }
    }
  }

  // ---------------------------------------------------------------------
  // Deducing the opcode numbers
  // ---------------------------------------------------------------------

  predicate NoDuplicateOps(ops: seq<OpCode>)
  {
    forall i, j :: 0 <= i < j < |ops| ==> ops[i] != ops[j]
  }

  /** Distinct numbers are mapped to distinct opcodes. */
  predicate Injective(mapping: map<nat, OpCode>)
  {
    forall a, b :: a in mapping && b in mapping && a != b ==> mapping[a] != mapping[b]
  }

  /** Every opcode is either still a candidate or assigned, never both; assignments are injective. */
  predicate Partition(potential: seq<OpCode>, mapping: map<nat, OpCode>)
  {
    NoDuplicateOps(potential) && Injective(mapping) &&
    forall op: OpCode :: op in potential <==> op !in mapping.Values
  }

  /** Each assignment is explained by a sample with that number. */
  ghost predicate Explained(manual: seq<Sample>, mapping: map<nat, OpCode>)
  {
    forall id :: id in mapping ==>
      exists k :: 0 <= k < |manual| && WellFormed(manual[k]) && manual[k].instruction[0] == id && Matches(mapping[id], manual[k])
  }

  /** The deduction so far. */
  ghost predicate Deduced(manual: seq<Sample>, potential: seq<OpCode>, mapping: map<nat, OpCode>)
  {
    Partition(potential, mapping) && Explained(manual, mapping)
  }

  /** `potential_ops.retain(|op| *op != valid_op)`. */
  function Retain(ops: seq<OpCode>, drop: OpCode): (r: seq<OpCode>)
    ensures forall op :: op in r <==> op in ops && op != drop
    ensures NoDuplicateOps(ops) ==> NoDuplicateOps(r)
  {
    if ops == [] then []
    else if ops[0] == drop then Retain(ops[1..], drop)
    else
      assert NoDuplicateOps(ops) ==> ops[0] !in ops[1..];
      [ops[0]] + Retain(ops[1..], drop)
  }

  /**
   * Counts the candidates that match the sample and remembers the last one
   * (`valid_op` starts as `Addr`).
   */
  method CountCandidates(s: Sample, potential: seq<OpCode>) returns (validCount: nat, validOp: OpCode)
    requires WellFormed(s)
    ensures validCount == |MatchingOps(s, potential)| || !NoDuplicateOps(potential)
    ensures validCount > 0 ==> validOp in potential && Matches(validOp, s)
  {
    validCount := 0;
    validOp := Addr;
    for j := 0 to |potential|
      invariant NoDuplicateOps(potential) ==> validCount == |MatchingOps(s, potential[..j])|
      invariant validCount > 0 ==> validOp in potential && Matches(validOp, s)
    {
      var op := potential[j];
      assert potential[..j + 1] == potential[..j] + [op];
      if Run(op, s.instruction[1..], s.before) == Some(s.after) {
        if NoDuplicateOps(potential) {
          assert op !in potential[..j];
          assert MatchingOps(s, potential[..j + 1]) == MatchingOps(s, potential[..j]) + {op};
        }
        validCount := validCount + 1;
        validOp := op;
      } else {
        assert MatchingOps(s, potential[..j + 1]) == MatchingOps(s, potential[..j]);
      }
    }
    assert potential[..|potential|] == potential;
  }

  /** Assigning a candidate to a new number keeps the partition. */
  lemma AssignKeepsPartition(potential: seq<OpCode>, mapping: map<nat, OpCode>, id: nat, op: OpCode)
    requires Partition(potential, mapping) && id !in mapping && op in potential
    ensures Partition(Retain(potential, op), mapping[id := op])
  {
    var m' := mapping[id := op];
    assert op !in mapping.Values;
    assert mapping.Values <= m'.Values by {
      forall o | o in mapping.Values ensures o in m'.Values {
        var i :| i in mapping && mapping[i] == o;
        assert m'[i] == o;
      }
    }
    forall o: OpCode
      ensures o in Retain(potential, op) <==> o !in m'.Values
    {
      if o in m'.Values && o != op {
        var i :| i in m' && m'[i] == o;
        assert i in mapping && mapping[i] == o;
      }
      assert m'[id] == op;
    }
  }

  /** Assigning a matching opcode to a sample's number keeps every assignment explained. */
  lemma AssignKeepsExplained(manual: seq<Sample>, mapping: map<nat, OpCode>, k: nat, op: OpCode)
    requires Explained(manual, mapping)
    requires k < |manual| && WellFormed(manual[k]) && Matches(op, manual[k])
    ensures Explained(manual, mapping[manual[k].instruction[0] := op])
  {
    var id := manual[k].instruction[0];
    var m' := mapping[id := op];
    forall i | i in m'
      ensures exists j :: 0 <= j < |manual| && WellFormed(manual[j]) && manual[j].instruction[0] == i && Matches(m'[i], manual[j])
    {
      if i == id {
        assert manual[k].instruction[0] == i && Matches(m'[i], manual[k]);
      } else {
        assert m'[i] == mapping[i];
      }
    }
  }

  /**
   * `derive_op_mapping`: passes over the manual until every opcode has a
   * number; a sample whose number is still unknown fixes it when exactly one
   * remaining candidate matches.  `fuel` bounds the number of passes.
   */
  method DeriveOpMapping(manual: seq<Sample>, fuel: nat) returns (r: Option<map<nat, OpCode>>)
    requires forall k :: 0 <= k < |manual| ==> WellFormed(manual[k])
    ensures r.Some? ==> Injective(r.value) && forall op: OpCode :: op in r.value.Values
    ensures r.Some? ==> forall id :: id in r.value ==>
      exists k :: 0 <= k < |manual| && WellFormed(manual[k]) && manual[k].instruction[0] == id && Matches(r.value[id], manual[k])
  {
    var potential := OpCodes;
    var mapping: map<nat, OpCode> := map[];
    forall op: OpCode ensures op in potential { OpCodesComplete(op); }
    OpCodesComplete(Addr);
    var passes: nat := 0;
    while |potential| > 0
      invariant Deduced(manual, potential, mapping)
      decreases fuel - passes
    {
      if passes >= fuel {
        return None;
      }
      for k := 0 to |manual|
        invariant Deduced(manual, potential, mapping)
      {
        var step := manual[k];
        var opId := step.instruction[0];
        if opId !in mapping {
          var validCount, validOp := CountCandidates(step, potential);
          if validCount == 1 {
            AssignKeepsPartition(potential, mapping, opId, validOp);
            AssignKeepsExplained(manual, mapping, k, validOp);
            potential := Retain(potential, validOp);
            mapping := mapping[opId := validOp];
          }
        }
      }
      passes := passes + 1;
    }
    return Some(mapping);
  }

  // ---------------------------------------------------------------------
  // The test program
  // ---------------------------------------------------------------------

  /**
   * The instructions run one after another from `registers`, each looked up
   * by its number; `None` where the source would panic (an unknown number,
   * a short instruction or a register out of range).
   */
  function ExecAll(mapping: map<nat, OpCode>, program: seq<seq<nat>>, registers: seq<nat>): (r: Option<seq<nat>>)
    ensures r.Some? ==> |r.value| == |registers|
    decreases |program|
  {
    if program == [] then Some(registers)
    else if |program[0]| == 0 || program[0][0] !in mapping then None
    else match Run(mapping[program[0][0]], program[0][1..], registers)
      case None => None
      case Some(next) => ExecAll(mapping, program[1..], next)
  }

  /** Running two programs in turn is running their concatenation. */
  lemma {:induction false} ExecAllAppend(mapping: map<nat, OpCode>, p: seq<seq<nat>>, q: seq<seq<nat>>, registers: seq<nat>)
    ensures ExecAll(mapping, p + q, registers) ==
      match ExecAll(mapping, p, registers)
      case None => None
      case Some(mid) => ExecAll(mapping, q, mid)
    decreases |p|
  {
    if p != [] {
      assert (p + q)[0] == p[0] && (p + q)[1..] == p[1..] + q;
      if |p[0]| > 0 && p[0][0] in mapping {
        match Run(mapping[p[0][0]], p[0][1..], registers)
        case None =>
        case Some(next) => ExecAllAppend(mapping, p[1..], q, next);
      }
    } else {
      assert p + q == q;
    }
  }

  /**
   * Part B: deduce the numbering, run the program from four zero registers
   * and return register 0.  `deduced` is the numbering the deduction built,
   * and the program is run under exactly that numbering.
   */
  method B(manual: seq<Sample>, program: seq<seq<nat>>, fuel: nat) returns (r: Option<nat>, deduced: Option<map<nat, OpCode>>)
    requires forall k :: 0 <= k < |manual| ==> WellFormed(manual[k])
    ensures r.Some? ==> exists mapping: map<nat, OpCode> ::
      Injective(mapping) && ExecAll(mapping, program, [0, 0, 0, 0]).Some? &&
      r.value == ExecAll(mapping, program, [0, 0, 0, 0]).value[0]
    ensures deduced.Some? ==> Injective(deduced.value) && forall op: OpCode :: op in deduced.value.Values
    ensures deduced.Some? ==> forall id :: id in deduced.value ==>
      exists k :: 0 <= k < |manual| && WellFormed(manual[k]) && manual[k].instruction[0] == id && Matches(deduced.value[id], manual[k])
    ensures deduced.None? ==> r.None?
    ensures deduced.Some? ==> (r.Some? <==> ExecAll(deduced.value, program, [0, 0, 0, 0]).Some?)
    ensures r.Some? ==> deduced.Some? && r.value == ExecAll(deduced.value, program, [0, 0, 0, 0]).value[0]
  {
    deduced := DeriveOpMapping(manual, fuel);
    if deduced.None? {
      return None, None;
    }
    var mapping := deduced.value;
    var registers: seq<nat> := [0, 0, 0, 0];
    for i := 0 to |program|
      invariant |registers| == 4
      invariant ExecAll(mapping, program, [0, 0, 0, 0]) == ExecAll(mapping, program[i..], registers)
    {
      var instruction := program[i];
      assert program[i..] == [instruction] + program[i + 1..];
      if |instruction| == 0 || instruction[0] !in mapping {
        return None, deduced;
      }
      var next := Run(mapping[instruction[0]], instruction[1..], registers);
      if next.None? {
        return None, deduced;
      }
      registers := next.value;
    }
    assert program[|program|..] == [];
    return Some(registers[0]), deduced;
  }
}
