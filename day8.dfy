/** Day 8: the handheld console (src/day8.rs). A program of `nop`, `acc`
    and `jmp` instructions runs until the program counter leaves the
    program or repeats. The model proves that stopping at the first repeat
    is exact: a program that repeats a program counter never terminates. */
module Day8 {
  import opened Util

  datatype Instruction = Nop(arg: int) | Acc(arg: int) | Jmp(arg: int)

  // ---------------------------------------------------------------------
  // Parsing

  /** `Instruction::from`: the second whitespace token parsed as a signed
      number, the first naming the operation. A missing token, a bad number
      or an unknown operation panics. */
  function ParseInstruction(text: string): (r: Result<Instruction>)
    ensures r.Ok? <==>
      (|SplitWhitespace(text)| >= 2 && ParseInt(SplitWhitespace(text)[1]).Some?
       && SplitWhitespace(text)[0] in {"nop", "acc", "jmp"})
    ensures r.Ok? ==>
      (Some(r.value.arg) == ParseInt(SplitWhitespace(text)[1])
       && (r.value.Nop? <==> SplitWhitespace(text)[0] == "nop")
       && (r.value.Acc? <==> SplitWhitespace(text)[0] == "acc"))
  {
    var parts := SplitWhitespace(text);
    if |parts| < 2 then Panic
    else
      match ParseInt(parts[1])
      case None => Panic
      case Some(arg) =>
        if parts[0] == "nop" then Ok(Nop(arg))
        else if parts[0] == "acc" then Ok(Acc(arg))
        else if parts[0] == "jmp" then Ok(Jmp(arg))
        else Panic
  }

  function OpName(instr: Instruction): string
  {
    match instr
    case Nop(_) => "nop"
    case Acc(_) => "acc"
    case Jmp(_) => "jmp"
  }

  /** A signed argument as the puzzle writes it: "+n" or "-n". */
  function SignedString(n: int): string
  {
    if n < 0 then "-" + NatToString(-n) else "+" + NatToString(n)
  }

  /** The line an instruction is written as, e.g. "jmp -4". */
  function FormatInstruction(instr: Instruction): string
  {
    OpName(instr) + " " + SignedString(instr.arg)
  }

  lemma ParseSignedString(n: int)
    ensures NoWhitespace(SignedString(n)) && ParseInt(SignedString(n)) == Some(n)
  {
    var digits := NatToString(if n < 0 then -n else n);
    var s := SignedString(n);
    DigitsNoWhitespace(digits);
    DigitsOfNatToString(if n < 0 then -n else n);
    assert s[1..] == digits;
    assert NoWhitespace(s) by {
      forall i | 0 <= i < |s| ensures !IsWhitespace(s[i]) {
        if i > 0 {
          assert s[i] == digits[i - 1];
        }
      }
    }
  }

  /** Two whitespace-free tokens joined by a space split back apart. */
  lemma TwoTokens(op: string, arg: string)
    requires op != [] && NoWhitespace(op) && arg != [] && NoWhitespace(arg)
    ensures SplitWhitespace(op + " " + arg) == [op, arg]
  {
    assert op + " " + arg == op + ([' '] + arg);
    SplitWhitespaceCons(op, [' '] + arg);
    SplitWhitespaceSkip(' ', arg);
    assert arg == arg + [];
    SplitWhitespaceCons(arg, []);
  }

  /** Parsing inverts formatting. */
  lemma ParseFormatInstruction(instr: Instruction)
    ensures ParseInstruction(FormatInstruction(instr)) == Ok(instr)
  {
    var op, arg := OpName(instr), SignedString(instr.arg);
    ParseSignedString(instr.arg);
    assert NoWhitespace(op);
    TwoTokens(op, arg);
  }

  /** `swap_jmp_nop`: Nop and Jmp trade places, keeping the argument. */
  function SwapJmpNop(instr: Instruction): (r: Instruction)
    ensures r.arg == instr.arg
    ensures r.Acc? <==> instr.Acc?
    ensures instr.Acc? ==> r == instr
    ensures instr.Nop? <==> r.Jmp?
  {
    match instr
    case Nop(arg) => Jmp(arg)
    case Jmp(arg) => Nop(arg)
    case Acc(_) => instr
  }

  /** Swapping twice gives the instruction back. */
  lemma SwapJmpNopInvolution(instr: Instruction)
    ensures SwapJmpNop(SwapJmpNop(instr)) == instr
  {
  }

  // ---------------------------------------------------------------------
  // Execution

  datatype Machine = Machine(pc: nat, acc: int)

  const UsizeRange := 0x1_0000_0000_0000_0000

  /** `(pc as isize + arg) as usize`: a target below zero wraps around to a
      huge program counter, which counts as terminated. */
  function JumpTarget(pc: nat, arg: int): (target: nat)
    ensures pc + arg >= 0 && pc + arg < UsizeRange ==> target == pc + arg
    ensures -UsizeRange < pc + arg < 0 ==> target == UsizeRange + pc + arg
  {
    (pc + arg) % UsizeRange
  }

  /** `advance` on the program counter and accumulator. */
  function Step(program: seq<Instruction>, m: Machine): (next: Machine)
    requires m.pc < |program|
    ensures next.acc == m.acc + (if program[m.pc].Acc? then program[m.pc].arg else 0)
    ensures !program[m.pc].Jmp? ==> next.pc == m.pc + 1
  {
    match program[m.pc]
    case Nop(_) => Machine(m.pc + 1, m.acc)
    case Acc(arg) => Machine(m.pc + 1, m.acc + arg)
    case Jmp(arg) => Machine(JumpTarget(m.pc, arg), m.acc)
  }

  /** The next program counter depends on the program counter alone. */
  function NextPc(program: seq<Instruction>, pc: nat): nat
    requires pc < |program|
  {
    if program[pc].Jmp? then JumpTarget(pc, program[pc].arg) else pc + 1
  }

  /** The machine after `n` calls of `advance`, where a terminated machine
      no longer moves. */
  function StateAfter(program: seq<Instruction>, m: Machine, n: nat): Machine
  {
    if n == 0 then m
    else
      var prev := StateAfter(program, m, n - 1);
      if prev.pc >= |program| then prev else Step(program, prev)
  }

  /** One more step moves the program counter as `NextPc` says. */
  lemma StateAfterPc(program: seq<Instruction>, m: Machine, n: nat)
    requires StateAfter(program, m, n).pc < |program|
    ensures StateAfter(program, m, n + 1).pc == NextPc(program, StateAfter(program, m, n).pc)
  {
  }

  /** Some number of steps takes the program counter out of the program. */
  ghost predicate Halts(program: seq<Instruction>, m: Machine)
  {
    exists n :: StateAfter(program, m, n).pc >= |program|
  }

  /** Once terminated, the machine stays as it is: the accumulator on exit
      is well defined. */
  lemma {:induction false} HaltedStays(program: seq<Instruction>, m: Machine, n: nat, n': nat)
    requires StateAfter(program, m, n).pc >= |program| && n <= n'
    ensures StateAfter(program, m, n') == StateAfter(program, m, n)
    decreases n' - n
  {
    if n < n' {
      HaltedStays(program, m, n, n' - 1);
    }
  }

  /** Step `k` is the first whose program counter was seen before, at some
      step `j < k`; the counters before it are distinct and in range. */
  ghost predicate FirstRepeatAt(program: seq<Instruction>, m: Machine, k: nat)
  {
    && (forall i :: 0 <= i < k ==> StateAfter(program, m, i).pc < |program|)
    && (forall i, j :: 0 <= j < i < k ==> StateAfter(program, m, j).pc != StateAfter(program, m, i).pc)
    && (exists j :: 0 <= j < k && StateAfter(program, m, j).pc == StateAfter(program, m, k).pc)
  }

  /** A program counter that repeats before the program ends repeats for
      ever: every later counter is one of the first `k`. */
  lemma {:induction false} RepeatCycles(program: seq<Instruction>, m: Machine, k: nat, j: nat, n: nat)
    requires j < k && StateAfter(program, m, j).pc == StateAfter(program, m, k).pc
    requires forall i :: 0 <= i < k ==> StateAfter(program, m, i).pc < |program|
    ensures exists i :: 0 <= i < k && StateAfter(program, m, n).pc == StateAfter(program, m, i).pc
  {
    if n < k {
      assert StateAfter(program, m, n).pc == StateAfter(program, m, n).pc;
    } else {
      var p := n - 1;
      RepeatCycles(program, m, k, j, p);
      var i :| 0 <= i < k && StateAfter(program, m, p).pc == StateAfter(program, m, i).pc;
      RepeatStep(program, m, k, j, p, i);
    }
  }

  /** One step after a counter among the first `k`, the counter is again
      among them: after the last one comes the repeated one. */
  lemma RepeatStep(program: seq<Instruction>, m: Machine, k: nat, j: nat, p: nat, i: nat)
    requires j < k && StateAfter(program, m, j).pc == StateAfter(program, m, k).pc
    requires forall i :: 0 <= i < k ==> StateAfter(program, m, i).pc < |program|
    requires i < k && StateAfter(program, m, p).pc == StateAfter(program, m, i).pc
    ensures exists i' :: 0 <= i' < k && StateAfter(program, m, p + 1).pc == StateAfter(program, m, i').pc
  {
    StateAfterPc(program, m, p);
    StateAfterPc(program, m, i);
    if i + 1 == k {
      assert StateAfter(program, m, p + 1).pc == StateAfter(program, m, j).pc;
    } else {
      assert StateAfter(program, m, p + 1).pc == StateAfter(program, m, i + 1).pc;
    }
  }

  /** A program that reaches a first repeat never terminates. */
  lemma RepeatNeverHalts(program: seq<Instruction>, m: Machine, k: nat)
    requires FirstRepeatAt(program, m, k)
    ensures !Halts(program, m)
  {
    var j :| 0 <= j < k && StateAfter(program, m, j).pc == StateAfter(program, m, k).pc;
    forall n: nat ensures StateAfter(program, m, n).pc < |program| {
      RepeatCycles(program, m, k, j, n);
    }
  }

  /** The program counters of the first `k` steps. */
  function PcsBefore(program: seq<Instruction>, m: Machine, k: nat): set<nat>
  {
    if k == 0 then {} else PcsBefore(program, m, k - 1) + {StateAfter(program, m, k - 1).pc}
  }

  lemma {:induction false} PcsBeforeMember(program: seq<Instruction>, m: Machine, k: nat, x: nat)
    ensures x in PcsBefore(program, m, k) <==> exists i :: 0 <= i < k && StateAfter(program, m, i).pc == x
  {
    if k > 0 {
      var p := k - 1;
      PcsBeforeMember(program, m, p, x);
      assert PcsBefore(program, m, k) == PcsBefore(program, m, p) + {StateAfter(program, m, p).pc};
      if x == StateAfter(program, m, p).pc {
        assert 0 <= p < k && StateAfter(program, m, p).pc == x;
      } else {
        forall i | 0 <= i < k && StateAfter(program, m, i).pc == x ensures i < p {
        }
      }
    }
  }

  /** The loop invariant of `terminates` after `steps` advances: the
      counters so far were in range and pairwise distinct. */
  ghost predicate DistinctRun(program: seq<Instruction>, m: Machine, steps: nat)
  {
    && (forall i :: 0 <= i < steps ==> StateAfter(program, m, i).pc < |program|)
    && (forall i, j :: 0 <= j < i < steps ==> StateAfter(program, m, j).pc != StateAfter(program, m, i).pc)
  }

  lemma DistinctRunStep(program: seq<Instruction>, m: Machine, steps: nat)
    requires DistinctRun(program, m, steps)
    requires StateAfter(program, m, steps).pc < |program|
    requires StateAfter(program, m, steps).pc !in PcsBefore(program, m, steps)
    ensures DistinctRun(program, m, steps + 1)
    ensures |PcsBefore(program, m, steps + 1)| == |PcsBefore(program, m, steps)| + 1 <= |program|
  {
    DistinctRunExtend(program, m, steps);
    PcsBeforeBound(program, m, steps + 1);
  }

  lemma DistinctRunExtend(program: seq<Instruction>, m: Machine, steps: nat)
    requires DistinctRun(program, m, steps)
    requires StateAfter(program, m, steps).pc < |program|
    requires StateAfter(program, m, steps).pc !in PcsBefore(program, m, steps)
    ensures DistinctRun(program, m, steps + 1)
  {
    var x := StateAfter(program, m, steps).pc;
    PcsBeforeMember(program, m, steps, x);
    forall j | 0 <= j < steps ensures StateAfter(program, m, j).pc != x {
    }
  }

  /** Counters that stayed in range number at most the program's length. */
  lemma PcsBeforeBound(program: seq<Instruction>, m: Machine, k: nat)
    requires forall i :: 0 <= i < k ==> StateAfter(program, m, i).pc < |program|
    ensures |PcsBefore(program, m, k)| <= |program|
  {
    var seen := PcsBefore(program, m, k);
    forall y | y in seen ensures y < |program| {
      PcsBeforeMember(program, m, k, y);
    }
    BoundedSetSize(seen, |program|);
  }

  lemma RepeatFound(program: seq<Instruction>, m: Machine, steps: nat)
    requires DistinctRun(program, m, steps)
    requires StateAfter(program, m, steps).pc in PcsBefore(program, m, steps)
    ensures FirstRepeatAt(program, m, steps)
  {
    PcsBeforeMember(program, m, steps, StateAfter(program, m, steps).pc);
  }

  /** A set of counters below `n` has at most `n` elements. */
  lemma {:induction false} BoundedSetSize(s: set<nat>, n: nat)
    requires forall x :: x in s ==> x < n
    ensures |s| <= n
  {
    if n > 0 {
      BoundedSetSize(s - {n - 1}, n - 1);
    } else {
      assert s == {};
    }
  }

  /** `CPU`: the program, its counter and its accumulator. */
  class CPU {
    var program: seq<Instruction>
    var pc: nat
    var accumulator: int

    /** `CPU::from_file` on already parsed instructions. */
    constructor (program: seq<Instruction>)
      ensures this.program == program && pc == 0 && accumulator == 0
    {
      this.program := program;
      pc := 0;
      accumulator := 0;
    }

    function State(): Machine
      reads this
    {
      Machine(pc, accumulator)
    }

    /** `advance`: execute the instruction at `pc`. Indexing past the end
        panics, so the caller keeps `pc` in range. */
    method Advance()
      requires pc < |program|
      modifies this
      ensures program == old(program) && State() == Step(program, old(State()))
    {
      match program[pc]
      case Nop(_) =>
        pc := pc + 1;
      case Acc(arg) =>
        accumulator := accumulator + arg;
        pc := pc + 1;
      case Jmp(arg) =>
        pc := JumpTarget(pc, arg);
    }

    /** `terminated`: the program counter has left the program. */
    function Terminated(): (t: bool)
      reads this
      ensures t <==> pc >= |program|
      ensures t ==> StateAfter(program, State(), 1) == State()
    {
      pc >= |program|
    }

    /** `fix_instr(i)`: swap instruction i, nothing else. */
    method FixInstr(i: nat)
      requires i < |program|
      modifies this
      ensures program == old(program)[i := SwapJmpNop(old(program)[i])]
      ensures pc == old(pc) && accumulator == old(accumulator)
    {
      program := program[i := SwapJmpNop(program[i])];
    }

    /** `clone`. */
    method Clone() returns (c: CPU)
      ensures fresh(c) && c.program == program && c.State() == State()
    {
      c := new CPU(program);
      c.pc := pc;
      c.accumulator := accumulator;
    }
  }

  /** `terminates`: advance until the machine terminates or revisits a
      program counter. The answer says whether the program halts, with the
      accumulator on exit, or else the accumulator at the first repeat;
      at most `len` instructions are executed. */
  method Terminates(cpu: CPU) returns (terminated: bool, acc: int)
    modifies cpu
    ensures cpu.program == old(cpu.program)
    ensures terminated <==> Halts(cpu.program, old(cpu.State()))
    ensures terminated ==>
      (exists n :: 0 <= n <= |cpu.program|
        && StateAfter(cpu.program, old(cpu.State()), n).pc >= |cpu.program|
        && StateAfter(cpu.program, old(cpu.State()), n).acc == acc)
    ensures !terminated ==>
      (exists k :: 0 <= k <= |cpu.program|
        && FirstRepeatAt(cpu.program, old(cpu.State()), k)
        && StateAfter(cpu.program, old(cpu.State()), k).acc == acc)
  {
    ghost var prog := cpu.program;
    ghost var m0 := cpu.State();
    var visited: set<nat> := {};
    ghost var steps: nat := 0;
    while !cpu.Terminated() && cpu.pc !in visited
      invariant cpu.program == prog && cpu.State() == StateAfter(prog, m0, steps)
      invariant visited == PcsBefore(prog, m0, steps) && DistinctRun(prog, m0, steps)
      invariant |visited| == steps <= |prog|
      decreases |prog| - steps
    {
      DistinctRunStep(prog, m0, steps);
      visited := visited + {cpu.pc};
      cpu.Advance();
      steps := steps + 1;
    }
    terminated := cpu.Terminated();
    acc := cpu.accumulator;
    if !terminated {
      RepeatFound(prog, m0, steps);
      RepeatNeverHalts(prog, m0, steps);
    }
  }

  /** Swap instruction `i`. */
  function Fixed(program: seq<Instruction>, i: nat): seq<Instruction>
    requires i < |program|
  {
    program[i := SwapJmpNop(program[i])]
  }

  /** `solve_2`: try fixing each instruction in turn, from a machine at
      counter 0 with accumulator 0, and return the accumulator on exit of
      the first fixed program that terminates (None when none does, where
      the source prints "program cannot be fixed"). */
  method Solve2(program: seq<Instruction>) returns (r: Option<int>)
    ensures r.None? <==> forall i :: 0 <= i < |program| ==> !Halts(Fixed(program, i), Machine(0, 0))
    ensures r.Some? ==>
      (exists i :: 0 <= i < |program|
        && Halts(Fixed(program, i), Machine(0, 0))
        && (forall j :: 0 <= j < i ==> !Halts(Fixed(program, j), Machine(0, 0)))
        && (exists n :: StateAfter(Fixed(program, i), Machine(0, 0), n).pc >= |program|
              && StateAfter(Fixed(program, i), Machine(0, 0), n).acc == r.value))
  {
    var original := new CPU(program);
    var i := 0;
    while i < |program|
      invariant 0 <= i <= |program| && original.program == program && original.State() == Machine(0, 0)
      invariant forall j :: 0 <= j < i ==> !Halts(Fixed(program, j), Machine(0, 0))
    {
      var fixedCopy := original.Clone();
      fixedCopy.FixInstr(i);
      assert fixedCopy.program == Fixed(program, i);
      var isFixed, accValue := Terminates(fixedCopy);
      if isFixed {
        return Some(accValue);
      }
      i := i + 1;
    }
    return None;
  }
}
