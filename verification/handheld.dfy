/** The handheld console's boot code (src/day_8.rs): a program of
    `acc`/`jmp`/`nop` instructions run from instruction 0 with an accumulator,
    stopped the first time an instruction is about to run a second time. */
module Handheld {
  import opened Text
  import opened Numbers

  datatype Operation = Acc | Jmp | Nop | Unknown

  /** `executed` is the per-instruction flag the interpreter sets. */
  datatype Instruction = Instruction(op: Operation, arg: int, executed: bool)

  /** `add`: a `usize` program counter moved by an `i32` offset. A negative
      offset subtracts its magnitude (`wrapping_abs` is exact for every `i32`
      once widened), and the subtraction panics when it would go below zero:
      None then. */
  function Add(u: nat, i: int): (r: Option<nat>)
    ensures r.Some? <==> u + i >= 0
    ensures r.Some? ==> r.value == u + i
  {
    if i < 0 then
      var magnitude := -i;
      if u >= magnitude then Some(u - magnitude) else None
    else Some(u + i)
  }

  // ---------------------------------------------------------------------------
  // Parsing

  predicate IsLowerAscii(c: char)
  {
    'a' <= c <= 'z'
  }

  predicate IsArgumentChar(c: char)
  {
    IsDigit(c) || c == '+' || c == '-'
  }

  /** The line matches `^([a-z]{3}) ([0-9+-]+)$`. */
  predicate HasInstructionShape(line: string)
  {
    && |line| >= 5
    && IsLowerAscii(line[0]) && IsLowerAscii(line[1]) && IsLowerAscii(line[2])
    && line[3] == ' '
    && forall k :: 4 <= k < |line| ==> IsArgumentChar(line[k])
  }

  function Mnemonic(op: Operation): string
    requires op != Unknown
  {
    match op
    case Acc => "acc"
    case Jmp => "jmp"
    case Nop => "nop"
  }

  /** The opcode match: the three known mnemonics, anything else Unknown.
      (`to_lowercase` leaves the `[a-z]` capture unchanged.) */
  function DecodeOperation(mnemonic: string): Operation
  {
    if mnemonic == "acc" then Acc
    else if mnemonic == "jmp" then Jmp
    else if mnemonic == "nop" then Nop
    else Unknown
  }

  /** Decoding is the inverse of the mnemonic table, and Unknown is exactly
      what every other string decodes to. */
  lemma DecodeOperationInverse(mnemonic: string)
    ensures forall op :: op != Unknown ==> DecodeOperation(Mnemonic(op)) == op
    ensures DecodeOperation(mnemonic) == Unknown <==>
              forall op :: op != Unknown ==> mnemonic != Mnemonic(op)
  {
    assert Mnemonic(Acc) == "acc" && Mnemonic(Jmp) == "jmp" && Mnemonic(Nop) == "nop";
  }

  /** `parse_instruction`. A line of the wrong shape is an Unknown with
      argument 0; a well-shaped line whose argument is not an `i32` makes
      `parse().unwrap()` panic: None. */
  function ParseInstruction(line: string): (r: Option<Instruction>)
    ensures r.Some? ==> !r.value.executed
    ensures r.Some? ==> I32Min <= r.value.arg <= I32Max
    ensures !HasInstructionShape(line) ==> r == Some(Instruction(Unknown, 0, false))
    ensures r.None? ==> HasInstructionShape(line)
    ensures HasInstructionShape(line) ==>
      (r.Some? <==> Numeral(line[4..]) && I32Min <= NumeralValue(line[4..]) <= I32Max)
    ensures HasInstructionShape(line) && r.Some? ==> r.value.arg == NumeralValue(line[4..])
    ensures HasInstructionShape(line) && r.Some? ==>
      (r.value.op != Unknown <==> line[..3] in {"acc", "jmp", "nop"})
    ensures HasInstructionShape(line) && r.Some? && r.value.op != Unknown ==> Mnemonic(r.value.op) == line[..3]
  {
    if !HasInstructionShape(line) then Some(Instruction(Unknown, 0, false))
    else
      ParseI32Numeral(line[4..]);
      match ParseI32(line[4..])
      case None => None
      case Some(arg) => Some(Instruction(DecodeOperation(line[..3]), arg, false))
  }

  /** The puzzle's own notation: mnemonic, space, explicitly signed argument. */
  function FormatInstruction(op: Operation, arg: int): string
    requires op != Unknown
  {
    Mnemonic(op) + " " + (if arg < 0 then "-" else "+") + ShowNat(if arg < 0 then -arg else arg)
  }

  /** Parsing reads back every instruction written in the puzzle's notation. */
  lemma ParseFormatInstruction(op: Operation, arg: int)
    requires op != Unknown && I32Min <= arg <= I32Max
    ensures ParseInstruction(FormatInstruction(op, arg)) == Some(Instruction(op, arg, false))
  {
    var line := FormatInstruction(op, arg);
    var digits := ShowNat(if arg < 0 then -arg else arg);
    var sign: string := if arg < 0 then "-" else "+";
    assert line == Mnemonic(op) + " " + sign + digits;
    assert line[..3] == Mnemonic(op);
    assert line[4..] == sign + digits;
    forall k | 4 <= k < |line|
      ensures IsArgumentChar(line[k])
    {
      if k > 4 {
        assert line[k] == digits[k - 5];
      }
    }
    ParseShowSigned(arg, I32Min, I32Max);
    if arg < 0 {
      assert sign + digits == ShowInt(arg);
    }
    DecodeOperationInverse(line[..3]);
  }

  /** The first loop of `run_instructions`: every line parsed, in order; a
      panic on any line is a panic of the whole run. */
  function ParseProgram(lines: seq<string>): (r: Option<seq<Instruction>>)
    ensures r.Some? <==> forall k :: 0 <= k < |lines| ==> ParseInstruction(lines[k]).Some?
    ensures r.Some? ==> |r.value| == |lines|
    ensures r.Some? ==> forall k :: 0 <= k < |lines| ==> r.value[k] == ParseInstruction(lines[k]).value
  {
    if |lines| == 0 then Some([])
    else match (ParseInstruction(lines[0]), ParseProgram(lines[1..]))
      case (Some(first), Some(rest)) =>
        assert forall k :: 1 <= k < |lines| ==> lines[k] == lines[1..][k - 1];
        Some([first] + rest)
      case (None, _) => None
      case (_, None) =>
        assert forall k :: 0 <= k < |lines[1..]| ==> lines[1..][k] == lines[k + 1];
        None
  }

  /** A program is the parse of its lines exactly when the lengths agree and
      every line parses to the instruction at its position. */
  lemma ProgramFromLines(lines: seq<string>, prog: seq<Instruction>)
    ensures ParseProgram(lines) == Some(prog) <==>
      |lines| == |prog| && forall k :: 0 <= k < |lines| ==> ParseInstruction(lines[k]) == Some(prog[k])
  {
    var r := ParseProgram(lines);
    if |lines| == |prog| && forall k :: 0 <= k < |lines| ==> ParseInstruction(lines[k]) == Some(prog[k]) {
      assert r.Some?;
      assert forall k :: 0 <= k < |prog| ==> r.value[k] == prog[k];
      assert r.value == prog;
    }
  }

  // ---------------------------------------------------------------------------
  // Reference semantics, without executed flags

  datatype State = State(pc: int, acc: int)

  /** What one instruction does to the program counter and the accumulator. */
  function Step(ins: Instruction, s: State): State
  {
    match ins.op
    case Acc => State(s.pc + 1, s.acc + ins.arg)
    case Jmp => State(s.pc + ins.arg, s.acc)
    case Nop => State(s.pc + 1, s.acc)
    case Unknown => State(s.pc + 1, s.acc)
  }

  predicate InBounds(prog: seq<Instruction>, pc: int)
  {
    0 <= pc < |prog|
  }

  /** The state after `k` steps from pc 0 and accumulator 0; a state whose pc
      has left the program stays put. */
  function StateAt(prog: seq<Instruction>, k: nat): State
  {
    if k == 0 then State(0, 0)
    else
      var s := StateAt(prog, k - 1);
      if InBounds(prog, s.pc) then Step(prog[s.pc], s) else s
  }

  /** How `run_instructions` ends: the accumulator when an instruction is
      about to run twice, or a panic (the pc left the program, or an argument
      did not parse). */
  datatype Outcome = LoopDetected(accumulator: int) | OutOfBounds(pc: int, accumulator: int) | BadArgument

  /** `out`, reached after `steps` instructions ran, is what the reference
      semantics prescribes: the first `steps` states sit at distinct in-bounds
      pcs, and state `steps` either revisits one of them or is out of bounds. */
  ghost predicate Explains(prog: seq<Instruction>, out: Outcome, steps: nat)
  {
    && steps <= |prog|
    && (forall j :: 0 <= j < steps ==> InBounds(prog, StateAt(prog, j).pc))
    && (forall i, j :: 0 <= i < j < steps ==> StateAt(prog, i).pc != StateAt(prog, j).pc)
    && match out
       case LoopDetected(a) =>
         && a == StateAt(prog, steps).acc
         && exists j :: 0 <= j < steps && StateAt(prog, j).pc == StateAt(prog, steps).pc
       case OutOfBounds(pc, a) =>
         StateAt(prog, steps) == State(pc, a) && !InBounds(prog, pc)
       case BadArgument => false
  }

  /** At most one outcome and step count explain a program, so `Explains`
      determines the result of a run completely: a stop at an earlier step
      would be at an in-bounds pc not seen before, which is neither outcome. */
  lemma ExplainsDeterminesOutcome(prog: seq<Instruction>, o1: Outcome, s1: nat, o2: Outcome, s2: nat)
    requires Explains(prog, o1, s1) && Explains(prog, o2, s2)
    ensures o1 == o2 && s1 == s2
  {
  }

  // ---------------------------------------------------------------------------
  // The interpreter loop

  function CountExecuted(list: seq<Instruction>): (n: nat)
    ensures n <= |list|
  {
    if |list| == 0 then 0
    else (if list[0].executed then 1 else 0) + CountExecuted(list[1..])
  }

  lemma {:induction false} NoneExecuted(list: seq<Instruction>)
    requires forall k :: 0 <= k < |list| ==> !list[k].executed
    ensures CountExecuted(list) == 0
  {
    if |list| > 0 {
      NoneExecuted(list[1..]);
    }
  }

  /** Setting one clear flag raises the count by one. */
  lemma {:induction false} MarkExecuted(list: seq<Instruction>, pc: nat)
    requires pc < |list| && !list[pc].executed
    ensures CountExecuted(list[pc := list[pc].(executed := true)]) == CountExecuted(list) + 1
  {
    var marked := list[pc := list[pc].(executed := true)];
    if pc > 0 {
      assert marked[1..] == list[1..][pc - 1 := list[pc].(executed := true)];
      MarkExecuted(list[1..], pc - 1);
    } else {
      assert marked[1..] == list[1..];
    }
  }

  /** One pass through the body of the interpreter loop: the new pc and
      accumulator. `add` panics when a jump goes below zero; the negative
      target is then returned, to be reported as out of bounds. */
  function Execute(ins: Instruction, pc: nat, accumulator: int): (r: State)
    ensures r == Step(ins, State(pc, accumulator))
  {
    match ins.op
    case Acc => State(pc + 1, accumulator + ins.arg)
    case Nop => State(pc + 1, accumulator)
    case Jmp =>
      var moved := Add(pc, ins.arg);
      State(if moved.Some? then moved.value else pc + ins.arg, accumulator)
    case Unknown => State(pc + 1, accumulator)
  }

  /** What the interpreter's flags record after the instructions at the pcs
      in `visited` ran, in that order, starting from the unflagged `prog`. */
  ghost predicate History(prog: seq<Instruction>, list: seq<Instruction>, visited: seq<int>)
  {
    && |list| == |prog|
    && (forall k :: 0 <= k < |prog| ==> !prog[k].executed)
    && (forall k :: 0 <= k < |list| ==> list[k] == prog[k].(executed := k in visited))
    && |visited| == CountExecuted(list)
    && (forall j :: 0 <= j < |visited| ==> visited[j] == StateAt(prog, j).pc && InBounds(prog, visited[j]))
    && (forall i, j :: 0 <= i < j < |visited| ==> visited[i] != visited[j])
  }

  /** Running an unflagged instruction extends the history by its pc. */
  lemma HistoryStep(prog: seq<Instruction>, list: seq<Instruction>, visited: seq<int>, pc: nat, acc: int)
    requires History(prog, list, visited) && pc < |list| && !list[pc].executed
    requires StateAt(prog, |visited|) == State(pc, acc)
    ensures list[pc] == prog[pc]
    ensures History(prog, list[pc := list[pc].(executed := true)], visited + [pc])
    ensures StateAt(prog, |visited| + 1) == Step(prog[pc], State(pc, acc))
  {
    assert list[pc] == prog[pc].(executed := pc in visited);
    MarkExecuted(list, pc);
    FlagsStep(prog, list, visited, pc);
    VisitedStep(prog, visited, pc);
  }

  /** Flagging the instruction at `pc` records `pc` as visited. */
  lemma FlagsStep(prog: seq<Instruction>, list: seq<Instruction>, visited: seq<int>, pc: nat)
    requires |list| == |prog| && pc < |list|
    requires forall k :: 0 <= k < |list| ==> list[k] == prog[k].(executed := k in visited)
    ensures var list' := list[pc := list[pc].(executed := true)];
      forall k :: 0 <= k < |list'| ==> list'[k] == prog[k].(executed := k in visited + [pc])
  {
    var list' := list[pc := list[pc].(executed := true)];
    forall k | 0 <= k < |list'|
      ensures list'[k] == prog[k].(executed := k in visited + [pc])
    {
      assert k in visited + [pc] <==> k in visited || k == pc;
    }
  }

  /** A new in-bounds pc, reached by the next step, extends the visited
      pcs. */
  lemma VisitedStep(prog: seq<Instruction>, visited: seq<int>, pc: nat)
    requires forall j :: 0 <= j < |visited| ==> visited[j] == StateAt(prog, j).pc && InBounds(prog, visited[j])
    requires forall i, j :: 0 <= i < j < |visited| ==> visited[i] != visited[j]
    requires pc !in visited && StateAt(prog, |visited|).pc == pc && InBounds(prog, pc)
    ensures var visited' := visited + [pc];
      && (forall j :: 0 <= j < |visited'| ==> visited'[j] == StateAt(prog, j).pc && InBounds(prog, visited'[j]))
      && (forall i, j :: 0 <= i < j < |visited'| ==> visited'[i] != visited'[j])
  {
    var visited' := visited + [pc];
    forall j | 0 <= j < |visited'|
      ensures visited'[j] == StateAt(prog, j).pc && InBounds(prog, visited'[j])
    {
      if j < |visited| {
        assert visited'[j] == visited[j];
      }
    }
    forall i, j | 0 <= i < j < |visited'|
      ensures visited'[i] != visited'[j]
    {
      if j < |visited| {
        assert visited'[i] == visited[i] && visited'[j] == visited[j];
      } else {
        assert visited'[i] == visited[i];
      }
    }
  }

  /** A history that ends at an out-of-bounds pc explains a panic. */
  lemma HistoryOutOfBounds(prog: seq<Instruction>, list: seq<Instruction>, visited: seq<int>, s: State)
    requires History(prog, list, visited) && StateAt(prog, |visited|) == s && !InBounds(prog, s.pc)
    ensures Explains(prog, OutOfBounds(s.pc, s.acc), |visited|)
  {
  }

  /** A history that ends at a flagged pc explains the loop detection. */
  lemma HistoryLoop(prog: seq<Instruction>, list: seq<Instruction>, visited: seq<int>, pc: nat, acc: int)
    requires History(prog, list, visited) && StateAt(prog, |visited|) == State(pc, acc)
    requires pc < |list| && list[pc].executed
    ensures Explains(prog, LoopDetected(acc), |visited|)
  {
    assert pc in visited;
    var j :| 0 <= j < |visited| && visited[j] == pc;
    assert StateAt(prog, j).pc == StateAt(prog, |visited|).pc;
  }

  /** `run_instructions`: parse every line, then run from instruction 0,
      flagging each instruction as it runs, until the current instruction is
      already flagged. Returns the outcome and the number of instructions
      that ran. */
  method RunInstructions(lines: seq<string>) returns (out: Outcome, steps: nat)
    ensures out == BadArgument <==> ParseProgram(lines).None?
    ensures ParseProgram(lines).Some? ==> Explains(ParseProgram(lines).value, out, steps)
  {
    var parsed := ParseProgram(lines);
    if parsed.None? {
      return BadArgument, 0;
    }
    out, steps := RunProgram(parsed.value);
  }

  /** The interpreter loop over a parsed, unflagged program. */
  method RunProgram(list: seq<Instruction>) returns (out: Outcome, steps: nat)
    requires forall k :: 0 <= k < |list| ==> !list[k].executed
    ensures Explains(list, out, steps)
  {
    ghost var prog := list;
    if |list| == 0 {
      // `instruction_list[0]` panics on an empty program.
      return OutOfBounds(0, 0), 0;
    }
    NoneExecuted(list);
    var flags := list;
    var pc: nat := 0;
    var accumulator := 0;
    steps := 0;
    ghost var visited: seq<int> := [];
    while !flags[pc].executed
      invariant History(prog, flags, visited) && pc < |flags|
      invariant steps == |visited| && StateAt(prog, steps) == State(pc, accumulator)
      decreases |flags| - steps
    {
      var ins := flags[pc];
      HistoryStep(prog, flags, visited, pc, accumulator);
      var after := Execute(ins, pc, accumulator);
      flags := flags[pc := ins.(executed := true)];
      visited := visited + [pc];
      steps := steps + 1;
      accumulator := after.acc;
      if after.pc < 0 || after.pc >= |flags| {
        // `instruction_list[pc]` panics.
        HistoryOutOfBounds(prog, flags, visited, after);
        return OutOfBounds(after.pc, accumulator), steps;
      }
      pc := after.pc;
    }
    HistoryLoop(prog, flags, visited, pc, accumulator);
    out := LoopDetected(accumulator);
  }

  // ---------------------------------------------------------------------------
  // The unit-test fixture

  const FixtureLines: seq<string> :=
    ["nop +0", "acc +1", "jmp +4", "acc +3", "jmp -3", "acc -99", "acc +1", "jmp -4", "acc +6"]

  const FixtureProgram: seq<Instruction> := [
    Instruction(Nop, 0, false), Instruction(Acc, 1, false), Instruction(Jmp, 4, false),
    Instruction(Acc, 3, false), Instruction(Jmp, -3, false), Instruction(Acc, -99, false),
    Instruction(Acc, 1, false), Instruction(Jmp, -4, false), Instruction(Acc, 6, false)]

  /** Nine lines parse to a nine-instruction program when each line does. */
  lemma ParseNine(lines: seq<string>, prog: seq<Instruction>)
    requires |lines| == 9 && |prog| == 9
    requires ParseInstruction(lines[0]) == Some(prog[0]) && ParseInstruction(lines[1]) == Some(prog[1])
    requires ParseInstruction(lines[2]) == Some(prog[2]) && ParseInstruction(lines[3]) == Some(prog[3])
    requires ParseInstruction(lines[4]) == Some(prog[4]) && ParseInstruction(lines[5]) == Some(prog[5])
    requires ParseInstruction(lines[6]) == Some(prog[6]) && ParseInstruction(lines[7]) == Some(prog[7])
    requires ParseInstruction(lines[8]) == Some(prog[8])
    ensures ParseProgram(lines) == Some(prog)
  {
    forall k | 0 <= k < 9
      ensures ParseInstruction(lines[k]) == Some(prog[k])
    {
      assert k == 0 || k == 1 || k == 2 || k == 3 || k == 4 || k == 5 || k == 6 || k == 7 || k == 8;
    }
    ProgramFromLines(lines, prog);
  }

  /** The fixture lines are the fixture program in the puzzle's notation. */
  lemma FixtureParses()
    ensures ParseProgram(FixtureLines) == Some(FixtureProgram)
  {
    FixtureLine0();
    FixtureLine1();
    FixtureLine2();
    FixtureLine3();
    FixtureLine4();
    FixtureLine5();
    FixtureLine6();
    FixtureLine7();
    FixtureLine8();
    ParseNine(FixtureLines, FixtureProgram);
  }

  lemma FixtureLine0()
    ensures ParseInstruction(FixtureLines[0]) == Some(FixtureProgram[0])
  {
    FixtureLine(0, Nop, 0);
  }

  lemma FixtureLine1()
    ensures ParseInstruction(FixtureLines[1]) == Some(FixtureProgram[1])
  {
    FixtureLine(1, Acc, 1);
  }

  lemma FixtureLine2()
    ensures ParseInstruction(FixtureLines[2]) == Some(FixtureProgram[2])
  {
    FixtureLine(2, Jmp, 4);
  }

  lemma FixtureLine3()
    ensures ParseInstruction(FixtureLines[3]) == Some(FixtureProgram[3])
  {
    FixtureLine(3, Acc, 3);
  }

  lemma FixtureLine4()
    ensures ParseInstruction(FixtureLines[4]) == Some(FixtureProgram[4])
  {
    FixtureLine(4, Jmp, -3);
  }

  lemma FixtureLine5()
    ensures ParseInstruction(FixtureLines[5]) == Some(FixtureProgram[5])
  {
    assert ShowNat(99) == "99";
    FixtureLine(5, Acc, -99);
  }

  lemma FixtureLine6()
    ensures ParseInstruction(FixtureLines[6]) == Some(FixtureProgram[6])
  {
    FixtureLine(6, Acc, 1);
  }

  lemma FixtureLine7()
    ensures ParseInstruction(FixtureLines[7]) == Some(FixtureProgram[7])
  {
    FixtureLine(7, Jmp, -4);
  }

  lemma FixtureLine8()
    ensures ParseInstruction(FixtureLines[8]) == Some(FixtureProgram[8])
  {
    FixtureLine(8, Acc, 6);
  }

  lemma FixtureLine(k: nat, op: Operation, arg: int)
    requires k < |FixtureLines| && op != Unknown && I32Min <= arg <= I32Max
    requires FixtureProgram[k] == Instruction(op, arg, false)
    requires FixtureLines[k] == FormatInstruction(op, arg)
    ensures ParseInstruction(FixtureLines[k]) == Some(FixtureProgram[k])
  {
    ParseFormatInstruction(op, arg);
  }

  /** A run whose first `|pcs|` states visit the distinct in-bounds pcs
      `pcs` and whose next state returns to one of them is explained as a
      detected loop. */
  lemma ExplainsLoop(prog: seq<Instruction>, pcs: seq<int>, a: int)
    requires |pcs| <= |prog|
    requires forall j :: 0 <= j < |pcs| ==> StateAt(prog, j).pc == pcs[j] && InBounds(prog, pcs[j])
    requires forall i, j :: 0 <= i < j < |pcs| ==> pcs[i] != pcs[j]
    requires StateAt(prog, |pcs|).acc == a && StateAt(prog, |pcs|).pc in pcs
    ensures Explains(prog, LoopDetected(a), |pcs|)
  {
    var j :| 0 <= j < |pcs| && pcs[j] == StateAt(prog, |pcs|).pc;
    assert StateAt(prog, j).pc == StateAt(prog, |pcs|).pc;
  }

  /** The fixture program visits pcs 0, 1, 2, 6, 7, 3, 4 and then returns to
      1 with accumulator 5. */
  lemma FixtureTrace(p: seq<Instruction>)
    requires p == FixtureProgram
    ensures StateAt(p, 0).pc == 0 && StateAt(p, 1).pc == 1 && StateAt(p, 2).pc == 2
    ensures StateAt(p, 3).pc == 6 && StateAt(p, 4).pc == 7 && StateAt(p, 5).pc == 3
    ensures StateAt(p, 6).pc == 4 && StateAt(p, 7) == State(1, 5)
  {
    assert p[0].op == Nop && p[1].op == Acc && p[1].arg == 1 && p[2].op == Jmp && p[2].arg == 4;
    assert p[6].op == Acc && p[6].arg == 1 && p[7].op == Jmp && p[7].arg == -4;
    assert p[3].op == Acc && p[3].arg == 3 && p[4].op == Jmp && p[4].arg == -3;
    var s0 := StateAt(p, 0);
    assert s0 == State(0, 0);
    var s1 := StateAt(p, 1);
    assert s1 == Step(p[0], s0) == State(1, 0);
    var s2 := StateAt(p, 2);
    assert s2 == Step(p[1], s1) == State(2, 1);
    var s3 := StateAt(p, 3);
    assert s3 == Step(p[2], s2) == State(6, 1);
    var s4 := StateAt(p, 4);
    assert s4 == Step(p[6], s3) == State(7, 2);
    var s5 := StateAt(p, 5);
    assert s5 == Step(p[7], s4) == State(3, 2);
    var s6 := StateAt(p, 6);
    assert s6 == Step(p[3], s5) == State(4, 5);
    var s7 := StateAt(p, 7);
    assert s7 == Step(p[4], s6) == State(1, 5);
  }

  lemma FixtureLoops()
    ensures Explains(FixtureProgram, LoopDetected(5), 7)
  {
    var p := FixtureProgram;
    FixtureTrace(p);
    var pcs := [0, 1, 2, 6, 7, 3, 4];
    assert forall j :: 0 <= j < |pcs| ==> StateAt(p, j).pc == pcs[j];
    ExplainsLoop(p, pcs, 5);
  }

  /** `test_run_instructions`: the fixture program ends with accumulator 5. */
  method FixtureAccumulator() returns (accumulator: int)
    ensures accumulator == 5
  {
    var out, steps := RunInstructions(FixtureLines);
    FixtureParses();
    FixtureLoops();
    ExplainsDeterminesOutcome(FixtureProgram, out, steps, LoopDetected(5), 7);
    accumulator := out.accumulator;
  }
}
