/**
  The Tiny Machine instruction set: the closed set of mnemonics, the operand
  format each one is written in, and the decoded instruction record.
*/
module Isa {
  import opened Wrappers
  import opened Word32

  /** The number of registers. */
  const NumRegs: int := 8

  /** The register that serves as the program counter. */
  const PcReg: int := 7

  datatype Opcode =
    | Halt | In | Out | Add | Sub | Mul | Div
    | Ld | St
    | Lda | Ldc | Jlt | Jle | Jgt | Jge | Jeq | Jne

  /** How the three operands are written: `r,s,t` (all registers) or `r,s(t)`
      (a register, a literal, a base register); the last two differ in meaning
      only. */
  datatype Format = RegisterOnly | RegisterMemory | RegisterAddress

  /** A decoded instruction: an opcode, the operands `r`, `s`, `t` and the
      format tag the serialiser writes them in. */
  datatype Instr = Instr(op: Opcode, r: Int32, s: Int32, t: Int32, format: Format)

  /** The instruction every empty slot of instruction memory holds. */
  const HaltInstr: Instr := Instr(Halt, 0, 0, 0, RegisterOnly)

  function Mnemonic(op: Opcode): string {
    match op
    case Halt => "HALT"
    case In => "IN"
    case Out => "OUT"
    case Add => "ADD"
    case Sub => "SUB"
    case Mul => "MUL"
    case Div => "DIV"
    case Ld => "LD"
    case St => "ST"
    case Lda => "LDA"
    case Ldc => "LDC"
    case Jlt => "JLT"
    case Jle => "JLE"
    case Jgt => "JGT"
    case Jge => "JGE"
    case Jeq => "JEQ"
    case Jne => "JNE"
  }

  /** The opcode a mnemonic names, if any: the case labels of the decoder's
      `switch`. A recognised mnemonic is the one `Mnemonic` prints. */
  function ParseOpcode(m: string): (r: Option<Opcode>)
    ensures r.Some? ==> Mnemonic(r.value) == m
  {
    if m == "HALT" then Some(Halt)
    else if m == "IN" then Some(In)
    else if m == "OUT" then Some(Out)
    else if m == "ADD" then Some(Add)
    else if m == "SUB" then Some(Sub)
    else if m == "MUL" then Some(Mul)
    else if m == "DIV" then Some(Div)
    else if m == "LD" then Some(Ld)
    else if m == "ST" then Some(St)
    else if m == "LDA" then Some(Lda)
    else if m == "LDC" then Some(Ldc)
    else if m == "JLT" then Some(Jlt)
    else if m == "JLE" then Some(Jle)
    else if m == "JGT" then Some(Jgt)
    else if m == "JGE" then Some(Jge)
    else if m == "JEQ" then Some(Jeq)
    else if m == "JNE" then Some(Jne)
    else None
  }

  /** Every mnemonic is recognised as the opcode it names. */
  lemma ParseMnemonic(op: Opcode)
    ensures ParseOpcode(Mnemonic(op)) == Some(op)
  {
  }

  /** A text that is not recognised is no opcode's mnemonic: together with
      `ParseMnemonic`, the recognised texts are exactly the mnemonics. */
  lemma ParseOpcodeRejects(m: string)
    requires ParseOpcode(m).None?
    ensures forall op: Opcode :: Mnemonic(op) != m
  {
    forall op: Opcode ensures Mnemonic(op) != m {
      ParseMnemonic(op);
    }
  }

  /** Mnemonics are two to four upper-case letters. */
  lemma MnemonicShape(op: Opcode)
    ensures 2 <= |Mnemonic(op)| <= 4
    ensures forall i :: 0 <= i < |Mnemonic(op)| ==> 'A' <= Mnemonic(op)[i] <= 'Z'
  {
  }

  /** The operand format an opcode is decoded in. */
  function FormatOf(op: Opcode): (f: Format)
    ensures f == RegisterMemory <==> op == Ld || op == St
    ensures IsJump(op) ==> f == RegisterAddress
    ensures f == RegisterOnly ==> !IsJump(op) && op != Lda && op != Ldc
  {
    match op
    case Halt | In | Out | Add | Sub | Mul | Div => RegisterOnly
    case Ld | St => RegisterMemory
    case _ => RegisterAddress
  }

  predicate IsRegister(x: int) {
    0 <= x < NumRegs
  }

  /** The operands an instruction's format says are registers are registers:
      all three for `r,s,t`, the first and the last for `r,s(t)`. This is what
      executing the instruction needs to index the register file. */
  predicate OperandsInRange(i: Instr) {
    && IsRegister(i.r)
    && IsRegister(i.t)
    && (FormatOf(i.op) == RegisterOnly ==> IsRegister(i.s))
  }

  /** An instruction the decoder can produce: its tag is its opcode's format and
      its register operands are registers. */
  predicate WellFormed(i: Instr) {
    i.format == FormatOf(i.op) && OperandsInRange(i)
  }

  /** The conditional jumps. */
  predicate IsJump(op: Opcode) {
    op in {Jlt, Jle, Jgt, Jge, Jeq, Jne}
  }

  /** Whether the jump `op` is taken when the register it compares with 0 holds `v`. */
  function JumpTaken(op: Opcode, v: int): bool
    requires IsJump(op)
  {
    match op
    case Jlt => v < 0
    case Jle => v <= 0
    case Jgt => v > 0
    case Jge => v >= 0
    case Jeq => v == 0
    case Jne => v != 0
  }

  /** Opcodes that may store into register `r`. */
  predicate WritesRegister(op: Opcode) {
    op in {In, Add, Sub, Mul, Div, Lda, Ldc, Ld}
  }
}
