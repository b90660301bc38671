/**
  The Tiny Machine execution engine: eight `int32` registers of which register 7
  is the program counter, data memory, instruction memory and a sticky CPU
  state, with machine set-up, the fetch-execute step and the run loop.

  Console input and output are part of the machine value: `input` holds the
  numbers the `IN` instruction will read, in order, and `output` the numbers
  `OUT` has written.
*/
module Engine {
  import opened Word32
  import opened Isa

  /** The CPU state; every state but `Running` stops the machine for good. */
  datatype CpuState = Running | Halted | DivideByZero | InstructionFault | DataFault

  datatype Machine = Machine(
    registers: seq<Int32>,
    memSize: Int32,
    data: seq<Int32>,
    program: seq<Instr>,
    state: CpuState,
    input: seq<Int32>,
    output: seq<Int32>)

  /** The shape every set-up machine has: eight registers, data and instruction
      memory of `memSize` cells each, and instructions whose register operands
      name registers. */
  predicate Valid(m: Machine) {
    && |m.registers| == NumRegs
    && 1 <= m.memSize
    && |m.data| == m.memSize as int
    && |m.program| == m.memSize as int
    && forall i :: 0 <= i < |m.program| ==> OperandsInRange(m.program[i])
  }

  /** `n` zeros. */
  function Zeros(n: nat): (z: seq<Int32>)
    ensures |z| == n
    ensures forall i :: 0 <= i < n ==> z[i] == 0
  {
    seq(n, _ => 0)
  }

  /** `n` slots of `HALT 0,0,0`. */
  function Halts(n: nat): (p: seq<Instr>)
    ensures |p| == n
    ensures forall i :: 0 <= i < n ==> p[i] == HaltInstr
  {
    seq(n, _ => HaltInstr)
  }

  /** `initializeMachine`: memory of `cap` cells, all registers zero (so the
      program counter is 0), data memory zero except that cell 0 holds the
      last address `cap - 1`, and the CPU running. With `clear` every
      instruction slot becomes `HALT 0,0,0`; without it the program is kept.
      The model keeps the pending input and past output as they are. */
  function Initialize(m: Machine, cap: Int32, clear: bool): (r: Machine)
    requires 1 <= cap
    ensures |r.registers| == NumRegs && forall k :: 0 <= k < NumRegs ==> r.registers[k] == 0
    ensures r.memSize == cap && |r.data| == cap as int
    ensures r.data[0] == cap - 1 && forall k :: 1 <= k < cap ==> r.data[k] == 0
    ensures r.state == Running
    ensures clear ==> |r.program| == cap as int && forall k :: 0 <= k < cap ==> r.program[k] == HaltInstr
    ensures !clear ==> r.program == m.program
    ensures r.input == m.input && r.output == m.output
    ensures (|| clear
             || (&& |m.program| == cap as int
                 && forall k :: 0 <= k < |m.program| ==> OperandsInRange(m.program[k])))
            ==> Valid(r)
  {
    Machine(
      registers := Zeros(NumRegs),
      memSize := cap,
      data := Zeros(cap as int)[0 := cap - 1],
      program := if clear then Halts(cap as int) else m.program,
      state := Running,
      input := m.input,
      output := m.output)
  }

  /** `resetState`: set-up again without clearing the program. A machine
      whose program fills its memory with in-range operands comes back valid,
      running, from slot 0, with the same program. */
  function Reset(m: Machine, cap: Int32): (r: Machine)
    requires 1 <= cap
    ensures r.program == m.program
    ensures |r.registers| == NumRegs && forall k :: 0 <= k < NumRegs ==> r.registers[k] == 0
    ensures r.memSize == cap && |r.data| == cap as int
    ensures r.data[0] == cap - 1 && forall k :: 1 <= k < cap ==> r.data[k] == 0
    ensures r.state == Running
    ensures (&& |m.program| == cap as int
             && forall k :: 0 <= k < |m.program| ==> OperandsInRange(m.program[k]))
            ==> Valid(r)
  {
    Initialize(m, cap, false)
  }

  /** The program counter names an instruction slot. */
  predicate PcInRange(m: Machine)
    requires Valid(m)
  {
    0 <= m.registers[PcReg] < m.memSize
  }

  /** A running machine whose program counter names an instruction slot: the
      step fetches and executes. */
  predicate Fetches(m: Machine) {
    Valid(m) && m.state == Running && PcInRange(m)
  }

  /** The instruction the program counter names. */
  function Current(m: Machine): (i: Instr)
    requires Fetches(m)
    ensures OperandsInRange(i)
  {
    m.program[m.registers[PcReg]]
  }

  /** The registers once the program counter has moved past the fetched
      instruction: the values that instruction reads. */
  function Advanced(m: Machine): (regs: seq<Int32>)
    requires Fetches(m)
    ensures |regs| == NumRegs
    ensures regs[PcReg] == m.registers[PcReg] + 1
    ensures forall k :: 0 <= k < NumRegs && k != PcReg ==> regs[k] == m.registers[k]
  {
    m.registers[PcReg := m.registers[PcReg] + 1]
  }

  /** The effective address `s + registers[t]` of the fetched instruction,
      wrapped to `int32`. */
  function Address(m: Machine): (a: Int32)
    requires Fetches(m)
    ensures var i := Current(m);
            var base := if i.t == PcReg then m.registers[PcReg] + 1 else m.registers[i.t];
            && (a - (i.s + base)) % Modulus == 0
            && (MinInt32 <= i.s + base <= MaxInt32 ==> a == i.s + base)
  {
    Wrap(Current(m).s + Advanced(m)[Current(m).t])
  }

  /** `stepProgram`: a stopped machine stays as it is; a program counter outside
      instruction memory is an instruction fault; otherwise the program
      counter moves to the next slot and then the fetched instruction runs. */
  function Step(m: Machine): (r: Machine)
    requires Valid(m)
    ensures Valid(r)
    ensures r.memSize == m.memSize && r.program == m.program
    ensures m.state != Running ==> r == m
    ensures m.state == Running && !PcInRange(m) ==> r == m.(state := InstructionFault)
  {
    if m.state != Running then m
    else if !PcInRange(m) then m.(state := InstructionFault)
    else Execute(m.(registers := Advanced(m)), Current(m), Address(m))
  }

  /** One instruction on a machine whose program counter has already moved on;
      `a` is its effective address. */
  function Execute(m: Machine, i: Instr, a: Int32): (r: Machine)
    requires Valid(m) && OperandsInRange(i)
    ensures Valid(r)
    ensures r.memSize == m.memSize && r.program == m.program
    ensures || r.state == m.state
            || (i.op == Halt && r.state == Halted)
            || (i.op == Div && r.state == DivideByZero)
            || ((i.op == Ld || i.op == St) && r.state == DataFault)
  {
    var regs := m.registers;
    match i.op
    case Halt => m.(state := Halted)
    case In =>
      if |m.input| == 0 then m.(registers := regs[i.r := 0])
      else m.(registers := regs[i.r := m.input[0]], input := m.input[1..])
    case Out => m.(output := m.output + [regs[i.r]])
    case Add => m.(registers := regs[i.r := Add32(regs[i.s], regs[i.t])])
    case Sub => m.(registers := regs[i.r := Sub32(regs[i.s], regs[i.t])])
    case Mul => m.(registers := regs[i.r := Mul32(regs[i.s], regs[i.t])])
    case Div =>
      if regs[i.t] == 0 then m.(state := DivideByZero)
      else m.(registers := regs[i.r := Div32(regs[i.s], regs[i.t])])
    case Lda => m.(registers := regs[i.r := a])
    case Ldc => m.(registers := regs[i.r := i.s])
    case Ld =>
      if a < 0 || a >= m.memSize then m.(state := DataFault)
      else m.(registers := regs[i.r := m.data[a]])
    case St =>
      if a < 0 || a >= m.memSize then m.(state := DataFault)
      else m.(data := m.data[a := regs[i.r]])
    case _ =>
      if JumpTaken(i.op, regs[i.r]) then m.(registers := regs[PcReg := a]) else m
  }

  /** `n` steps, whatever happens on the way. */
  function StepN(m: Machine, n: nat): (r: Machine)
    requires Valid(m)
    ensures Valid(r)
    ensures r.memSize == m.memSize && r.program == m.program
    decreases n
  {
    if n == 0 then m else StepN(Step(m), n - 1)
  }

  /** `runProgram` with a budget: step, and stop as soon as the machine is no
      longer running or `fuel` steps have been taken. */
  function Run(m: Machine, fuel: nat): (r: Machine)
    requires Valid(m)
    ensures Valid(r)
    ensures r.memSize == m.memSize && r.program == m.program
    ensures m.state != Running ==> r == m
    decreases fuel
  {
    if fuel == 0 then m
    else
      var next := Step(m);
      if next.state != Running then next else Run(next, fuel - 1)
  }

  /** A stopped machine stays stopped and unchanged whatever number of steps
      follows. */
  lemma {:induction false} StoppedStaysStopped(m: Machine, n: nat)
    requires Valid(m) && m.state != Running
    ensures StepN(m, n) == m
    decreases n
  {
    if n > 0 {
      StoppedStaysStopped(Step(m), n - 1);
    }
  }

  /** Steps compose: `a + b` steps are `a` steps and then `b` more. */
  lemma {:induction false} StepNAdd(m: Machine, a: nat, b: nat)
    requires Valid(m)
    ensures StepN(m, a + b) == StepN(StepN(m, a), b)
    decreases a
  {
    if a > 0 {
      StepNAdd(Step(m), a - 1, b);
    }
  }

  /** The run loop stops at the first state that is not `Running`, so with
      enough fuel it is plain repetition of the step: stopping early loses
      nothing because a stopped machine does not change. */
  lemma {:induction false} RunIsStepN(m: Machine, fuel: nat)
    requires Valid(m)
    ensures Run(m, fuel) == StepN(m, fuel)
    decreases fuel
  {
    if fuel > 0 {
      var next := Step(m);
      if next.state != Running {
        StoppedStaysStopped(next, fuel - 1);
      } else {
        RunIsStepN(next, fuel - 1);
      }
    }
  }

  /** Once a run has stopped, more fuel changes nothing. */
  lemma RunSettles(m: Machine, fuel: nat, more: nat)
    requires Valid(m)
    requires Run(m, fuel).state != Running
    ensures Run(m, fuel + more) == Run(m, fuel)
  {
    RunIsStepN(m, fuel);
    RunIsStepN(m, fuel + more);
    StepNAdd(m, fuel, more);
    StoppedStaysStopped(StepN(m, fuel), more);
  }

  /** A run that ends `Running` never stopped on the way: every intermediate
      machine was running. */
  lemma RunStillRunning(m: Machine, fuel: nat, k: nat)
    requires Valid(m)
    requires k <= fuel
    requires Run(m, fuel).state == Running
    ensures StepN(m, k).state == Running
  {
    RunIsStepN(m, fuel);
    StepNAdd(m, k, fuel - k);
    if StepN(m, k).state != Running {
      StoppedStaysStopped(StepN(m, k), fuel - k);
    }
  }

  /** Every instruction that neither jumps nor stores into register 7 leaves the
      program counter on the next slot, whether it completes or faults. */
  lemma StepAdvancesPc(m: Machine)
    requires Fetches(m)
    requires !IsJump(Current(m).op)
    requires !(WritesRegister(Current(m).op) && Current(m).r == PcReg)
    ensures Step(m).registers[PcReg] == m.registers[PcReg] + 1
  {
  }

  /** One step changes no register but the program counter and the target `r`,
      no data cell unless it is a store, consumes input only on `IN` and
      writes output only on `OUT`. */
  lemma StepFrame(m: Machine)
    requires Fetches(m)
    ensures forall k :: 0 <= k < NumRegs && k != PcReg && k != Current(m).r ==>
              Step(m).registers[k] == m.registers[k]
    ensures Current(m).op != St ==> Step(m).data == m.data
    ensures Current(m).op != In ==> Step(m).input == m.input
    ensures Current(m).op != Out ==> Step(m).output == m.output
  {
  }

  /** The exact result of an arithmetic opcode on unbounded integers. */
  function Exact(op: Opcode, x: int, y: int): int
    requires op in {Add, Sub, Mul}
  {
    match op
    case Add => x + y
    case Sub => x - y
    case Mul => x * y
  }

  /** `ADD`, `SUB` and `MUL` store into `r` the `int32` congruent to the exact
      result modulo 2^32, the two's-complement wrap-around, and keep running. */
  lemma StepArithmetic(m: Machine)
    requires Fetches(m) && Current(m).op in {Add, Sub, Mul}
    ensures Step(m).state == Running
    ensures var i, regs := Current(m), Advanced(m);
            && Step(m).registers == regs[i.r := Step(m).registers[i.r]]
            && (Step(m).registers[i.r] - Exact(i.op, regs[i.s], regs[i.t])) % Modulus == 0
  {
  }

  /** `DIV` faults exactly when the divisor register holds zero, and then leaves
      every register but the program counter alone. Otherwise `r` receives the
      quotient truncated toward zero, with `MinInt32 / -1` wrapping to
      `MinInt32`. */
  lemma StepDivide(m: Machine)
    requires Fetches(m) && Current(m).op == Div
    ensures var i, regs := Current(m), Advanced(m);
            && (Step(m).state == DivideByZero <==> regs[i.t] == 0)
            && (Step(m).state != DivideByZero ==> Step(m).state == Running)
            && (regs[i.t] == 0 ==> Step(m).registers == regs)
            && (regs[i.t] != 0 ==>
                  && Step(m).registers == regs[i.r := Step(m).registers[i.r]]
                  && (regs[i.s] == MinInt32 && regs[i.t] == -1 ==> Step(m).registers[i.r] == MinInt32)
                  && (!(regs[i.s] == MinInt32 && regs[i.t] == -1) ==>
                        Step(m).registers[i.r] == TruncDiv(regs[i.s], regs[i.t])))
  {
  }

  /** `LDC` stores the literal `s` into `r`. */
  lemma StepLoadConstant(m: Machine)
    requires Fetches(m) && Current(m).op == Ldc
    ensures Step(m).state == Running
    ensures Step(m).registers == Advanced(m)[Current(m).r := Current(m).s]
  {
  }

  /** `LDA` stores the effective address into `r`: `s + registers[t]`, wrapped. */
  lemma StepLoadAddress(m: Machine)
    requires Fetches(m) && Current(m).op == Lda
    ensures Step(m).state == Running
    ensures Step(m).registers == Advanced(m)[Current(m).r := Address(m)]
    ensures (Address(m) - (Current(m).s + Advanced(m)[Current(m).t])) % Modulus == 0
  {
  }

  /** `LD` faults exactly when the effective address is outside data memory and
      then changes no register but the program counter; otherwise it copies
      that one cell into `r`. */
  lemma StepLoad(m: Machine)
    requires Fetches(m) && Current(m).op == Ld
    ensures Step(m).state == DataFault <==> !(0 <= Address(m) < m.memSize)
    ensures Step(m).state != DataFault ==> Step(m).state == Running
    ensures Step(m).state == DataFault ==> Step(m).registers == Advanced(m)
    ensures Step(m).state != DataFault ==>
              Step(m).registers == Advanced(m)[Current(m).r := m.data[Address(m)]]
  {
  }

  /** `ST` faults exactly when the effective address is outside data memory and
      then changes no data; otherwise it writes `r` into that one cell. */
  lemma StepStore(m: Machine)
    requires Fetches(m) && Current(m).op == St
    ensures Step(m).state == DataFault <==> !(0 <= Address(m) < m.memSize)
    ensures Step(m).state != DataFault ==> Step(m).state == Running
    ensures Step(m).registers == Advanced(m)
    ensures Step(m).state == DataFault ==> Step(m).data == m.data
    ensures Step(m).state != DataFault ==>
              Step(m).data == m.data[Address(m) := Advanced(m)[Current(m).r]]
  {
  }

  /** A conditional jump sets the program counter to the effective address iff
      register `r` compares to zero as the opcode names, and otherwise only
      moves on to the next slot. */
  lemma StepJump(m: Machine)
    requires Fetches(m) && IsJump(Current(m).op)
    ensures Step(m).state == Running && Step(m).data == m.data
    ensures JumpTaken(Current(m).op, Advanced(m)[Current(m).r]) ==>
              Step(m).registers == Advanced(m)[PcReg := Address(m)]
    ensures !JumpTaken(Current(m).op, Advanced(m)[Current(m).r]) ==>
              Step(m).registers == Advanced(m)
  {
  }

  /** `HALT` stops the machine with the program counter past it. */
  lemma StepHalt(m: Machine)
    requires Fetches(m) && Current(m).op == Halt
    ensures Step(m).state == Halted
    ensures Step(m).registers == Advanced(m) && Step(m).data == m.data
  {
  }

  /** `IN` consumes the next pending number into `r`, or stores the default 0
      when no input is left. */
  lemma StepInput(m: Machine)
    requires Fetches(m) && Current(m).op == In
    ensures Step(m).state == Running
    ensures |m.input| > 0 ==> && Step(m).registers == Advanced(m)[Current(m).r := m.input[0]]
                              && [m.input[0]] + Step(m).input == m.input
    ensures |m.input| == 0 ==> Step(m).registers == Advanced(m)[Current(m).r := 0]
                               && Step(m).input == []
  {
  }

  /** `OUT` appends register `r` to the output and changes no register but the
      program counter. */
  lemma StepOutput(m: Machine)
    requires Fetches(m) && Current(m).op == Out
    ensures Step(m).state == Running
    ensures Step(m).registers == Advanced(m)
    ensures Step(m).output == m.output + [Advanced(m)[Current(m).r]]
  {
  }

  /** Running and then resetting is resetting, apart from the console: the run
      keeps the program, and the set-up forgets everything else it did. */
  lemma ResetUndoesRun(m: Machine, cap: Int32, fuel: nat)
    requires Valid(m) && 1 <= cap
    ensures Reset(Run(m, fuel), cap)
              == Reset(m, cap).(input := Run(m, fuel).input, output := Run(m, fuel).output)
  {
  }

  /** Setting up twice is setting up once. */
  lemma InitializeIdempotent(m: Machine, cap: Int32, clear: bool)
    requires 1 <= cap
    ensures Initialize(Initialize(m, cap, clear), cap, clear) == Initialize(m, cap, clear)
  {
  }
}
