/**
  Worked cases of the engine on concrete machines, taken from the inputs the
  repository's own tests use.
*/
module EngineCases {
  import opened Word32
  import opened Isa
  import opened Engine

  /** A machine with four slots of memory, the given registers and program. */
  function Small(registers: seq<Int32>, program: seq<Instr>): Machine {
    Machine(registers, 4, [3, 0, 0, 0], program, Running, [], [])
  }

  /** `ADD` wraps around: one plus the largest `int32` is the smallest. */
  lemma AddWraps()
    ensures var m := Small([0, 1, 10, 2, 2, MaxInt32, 5, 0],
                           [Instr(Add, 0, 1, 5, RegisterOnly), HaltInstr, HaltInstr, HaltInstr]);
            Step(m).registers[0] == MinInt32 && Step(m).state == Running
  {
  }

  /** `DIV` by a zero register faults and leaves the target register alone. */
  lemma DivideByZeroFaults()
    ensures var m := Small([0, 1, 10, 2, 2, 10, 0, 0],
                           [Instr(Div, 0, 1, 0, RegisterOnly), HaltInstr, HaltInstr, HaltInstr]);
            Step(m).state == DivideByZero && Step(m).registers[0] == 0
  {
  }

  /** `SUB` wraps around: minus one minus the smallest `int32` is the largest. */
  lemma SubWraps()
    ensures var m := Small([0, -1, 10, 2, 2, MinInt32, 5, 0],
                           [Instr(Sub, 0, 1, 5, RegisterOnly), HaltInstr, HaltInstr, HaltInstr]);
            Step(m).registers[0] == MaxInt32
  {
  }

  /** `DIV` truncates toward zero: two divided by ten is zero, and minus seven
      divided by two is minus three. */
  lemma DivideTruncates()
    ensures var m := Small([0, 1, 10, 2, 2, 10, 0, 0],
                           [Instr(Div, 4, 4, 5, RegisterOnly), HaltInstr, HaltInstr, HaltInstr]);
            Step(m).registers[4] == 0
    ensures var m := Small([0, -7, 2, 0, 0, 0, 0, 0],
                           [Instr(Div, 0, 1, 2, RegisterOnly), HaltInstr, HaltInstr, HaltInstr]);
            Step(m).registers[0] == -3
  {
  }

  /** `LD` from an address past the end of data memory is a data fault. */
  lemma LoadOutOfRange()
    ensures var m := Small([0, 0, 0, 0, 0, 0, 0, 0],
                           [Instr(Ld, 0, 4, 1, RegisterMemory), HaltInstr, HaltInstr, HaltInstr]);
            Step(m).state == DataFault
  {
  }

  /** Two subtractions and a `HALT`: the run stops after three steps with the
      program counter at 3, and stepping further changes nothing. */
  lemma RunToHalt()
    ensures var m := Small([0, -1, 10, 2, 2, MinInt32, 5, 0],
                           [Instr(Sub, 0, 2, 3, RegisterOnly), Instr(Sub, 0, 3, 6, RegisterOnly),
                            HaltInstr, HaltInstr]);
            var r := Run(m, 10);
            && r.state == Halted && r.registers[PcReg] == 3 && r.registers[0] == -3
            && Step(r) == r
  {
    var program := [Instr(Sub, 0, 2, 3, RegisterOnly), Instr(Sub, 0, 3, 6, RegisterOnly),
                    HaltInstr, HaltInstr];
    var m := Small([0, -1, 10, 2, 2, MinInt32, 5, 0], program);
    var m1 := Small([8, -1, 10, 2, 2, MinInt32, 5, 1], program);
    var m2 := Small([-3, -1, 10, 2, 2, MinInt32, 5, 2], program);
    var h := m2.(registers := [-3, -1, 10, 2, 2, MinInt32, 5, 3], state := Halted);
    assert Step(m) == m1;
    assert Step(m1) == m2;
    assert Step(m2) == h;
    assert Run(m2, 8) == h;
    assert Run(m1, 9) == h;
  }
}
