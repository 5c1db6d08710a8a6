/**
 What each instruction does, said of the register array and the program counter alone
 (library/sbi-spec/examples/simple-rv128i-emulator.rs).
 */
module Rv128iSteps {
  import opened Helpers
  import opened Rv128iCodec
  import opened Rv128iHart

  /** The program counter is at that instruction of the program. */
  predicate AtInsn(program: Program, m: Machine, insn: Insn) {
    InMemory(m.pc) && Place(m.pc) in program && program[Place(m.pc)] == insn
  }

  lemma StepAt(program: Program, m: Machine, insn: Insn)
    requires m.Valid() && AtInsn(program, m, insn)
    ensures StepDirectly(program, m) == Execute(insn, m)
  {
  }

  lemma FourOn(pc: bv128)
    ensures WrappingAdd(pc, 4) == pc + 4
  {
  }

  // ----- branches -----

  /** `offset` away from `pc`, as a signed number of 32 bits */
  function Displaced(pc: bv128, offset: bv32): bv128 {
    if offset < 0x8000_0000 then pc + offset as bv128 else pc - (0 - offset) as bv128
  }

  lemma DisplacedIsSum(pc: bv128, offset: bv32)
    ensures WrappingAdd(pc, SignExtend(offset)) == Displaced(pc, offset)
  {
    BranchMovesByOffset(pc, offset);
  }

  /**
   A branch is taken exactly when its two registers hold the same value. It then moves by its signed
   offset, otherwise to the next instruction, and changes no register either way.
   */
  lemma BranchStep(program: Program, m: Machine, rs1: XReg, rs2: XReg, offset: bv32)
    requires m.Valid() && AtInsn(program, m, Beq(rs1, rs2, offset))
    ensures var next := if m.xregs[rs1 as nat] == m.xregs[rs2 as nat] then Displaced(m.pc, offset) else m.pc + 4;
            StepDirectly(program, m) == Stepped(Machine(m.xregs, next))
  {
    StepAt(program, m, Beq(rs1, rs2, offset));
    DisplacedIsSum(m.pc, offset);
    FourOn(m.pc);
  }

  // ----- sums and upper immediates -----

  predicate Wraps(sum: bv128, x: bv128) { sum < x }

  lemma AddOverflows(program: Program, m: Machine, rd: XReg, rs: XReg, simm12: bv32)
    requires m.Valid() && AtInsn(program, m, Addi(rd, rs, simm12)) && CheckedAdd(m.Get(rs), simm12 as bv128).None?
    ensures StepDirectly(program, m) == Panic
  {
    StepAt(program, m, Addi(rd, rs, simm12));
  }

  lemma AddSucceeds(program: Program, m: Machine, rd: XReg, rs: XReg, simm12: bv32, sum: bv128)
    requires m.Valid() && AtInsn(program, m, Addi(rd, rs, simm12)) && CheckedAdd(m.Get(rs), simm12 as bv128) == Some(sum)
    ensures StepDirectly(program, m) == Stepped(Machine(m.xregs[rd as nat := sum], m.pc + 4))
  {
    StepAt(program, m, Addi(rd, rs, simm12));
    FourOn(m.pc);
  }

  lemma CheckedSum(x: bv128, y: bv128, sum: bv128)
    requires sum == WrappingAdd(x, y)
    ensures CheckedAdd(x, y) == if Wraps(sum, x) then None else Some(sum)
  {
  }

  /** An `addi` adds its unsigned immediate, or panics exactly when the sum of 128 bits wraps around. */
  lemma AddStep(program: Program, m: Machine, rd: XReg, rs: XReg, simm12: bv32, sum: bv128)
    requires m.Valid() && AtInsn(program, m, Addi(rd, rs, simm12))
    requires sum == WrappingAdd(m.xregs[rs as nat], simm12 as bv128)
    ensures StepDirectly(program, m) ==
              if Wraps(sum, m.xregs[rs as nat]) then Panic
              else Stepped(Machine(m.xregs[rd as nat := sum], m.pc + 4))
  {
    CheckedSum(m.xregs[rs as nat], simm12 as bv128, sum);
    if Wraps(sum, m.xregs[rs as nat]) {
      AddOverflows(program, m, rd, rs, simm12);
    } else {
      AddSucceeds(program, m, rd, rs, simm12, sum);
    }
  }

  /** What `lui` loads: the immediate above twelve zeros. */
  predicate IsUpper(upper: bv128, simm20: bv32) {
    upper & 0xFFF == 0 && upper >> 12 == simm20 as bv128
  }

  /** A `lui` sets its register to its immediate above twelve zeros. */
  lemma UpperStep(program: Program, m: Machine, rd: XReg, simm20: bv32) returns (upper: bv128)
    requires m.Valid() && AtInsn(program, m, Lui(rd, simm20)) && simm20 < 0x10_0000
    ensures IsUpper(upper, simm20)
    ensures StepDirectly(program, m) == Stepped(Machine(m.xregs[rd as nat := upper], m.pc + 4))
  {
    StepAt(program, m, Lui(rd, simm20));
    UpperBits(simm20);
    FourOn(m.pc);
    upper := (simm20 as bv128) << 12;
  }

  lemma UpperBits(simm20: bv32)
    requires simm20 < 0x10_0000
    ensures IsUpper((simm20 as bv128) << 12, simm20)
  {
  }

  // ----- calls -----

  /** What `handle_sbi_call` answers: the error and the value, or the end of the run. */
  datatype Answer = Returned(error: bv128, value: bv128) | Stopped(reason: bv128)

  function AnswerOf(eid: bv128, fid: bv128, a0: bv128, a1: bv128): Answer {
    if (eid, fid) == (0x10, 3) then Returned(0, if a0 == 0x10 then 1 else 0)
    else if (eid, fid, a0) == (0x5352_5354, 0, 0) then Stopped(a1)
    else Returned(0xFFFF_FFFF_FFFF_FFFF_FFFF_FFFF_FFFF_FFFE, 0)
  }

  /**
   One pass of the main loop over an `ecall`: registers 17 and 16 hold the EID and the FID; the answer is
   written to registers 10 and 11, no other register changes, and the run goes on behind the `ecall`. A
   shutdown ends the run with the reason in register 11 and changes nothing.
   */
  lemma EcallStep(program: Program, m: Machine)
    requires m.Valid() && AtInsn(program, m, Ecall)
    ensures After(StepDirectly(program, m), m) ==
              match AnswerOf(m.xregs[17], m.xregs[16], m.xregs[10], m.xregs[11])
              case Returned(error, value) => Running(Machine(m.xregs[10 := error][11 := value], m.pc + 4))
              case Stopped(reason) => Shutdown(reason, m)
  {
    StepAt(program, m, Ecall);
    RegisterNumbers();
    FourOn(m.pc);
    SbiAnswer(m.xregs[17], m.xregs[16], m.xregs[10], m.xregs[11]);
  }

  lemma SbiAnswer(eid: bv128, fid: bv128, a0: bv128, a1: bv128)
    ensures HandleSbiCall(eid, fid, a0, a1) ==
              match AnswerOf(eid, fid, a0, a1)
              case Returned(error, value) => SbiRet(error, value)
              case Stopped(reason) => SbiRet(SHUTDOWN, reason)
    ensures AnswerOf(eid, fid, a0, a1).Returned? ==> AnswerOf(eid, fid, a0, a1).error != SHUTDOWN
  {
  }

  lemma RegisterNumbers()
    ensures Num(A0) == 10 && Num(A1) == 11 && Num(A6) == 16 && Num(A7) == 17
  {
  }

  // ----- the ends of a run -----

  /** One step faults, panics or is illegal exactly where the program counter or the sum says so. */
  lemma FaultStep(program: Program, m: Machine)
    requires m.Valid()
    ensures var o := StepDirectly(program, m);
            && (o == Trap(InstructionAccessFault) <==> m.pc & 3 != 0 || m.pc >= 0x2000_4000)
            && (o == Trap(IllegalInstruction) <==> InMemory(m.pc) && Place(m.pc) !in program)
            && (o == Trap(SupervisorEcall) <==> AtInsn(program, m, Ecall))
            && (m.pc & 3 == 0 && m.pc < 0x2000_0000 ==> o == Panic)
  {
  }

  /** A run that meets a fault or an underflow ends there, with the machine as it was. */
  lemma FaultEndsRun(program: Program, m: Machine)
    requires m.Valid()
    ensures var r := Interpret(program, m, 1);
            && (m.pc & 3 != 0 || m.pc >= 0x2000_4000 ==> r == Died(InstructionAccessFault, m))
            && (InMemory(m.pc) && Place(m.pc) !in program ==> r == Died(IllegalInstruction, m))
            && (m.pc & 3 == 0 && m.pc < 0x2000_0000 ==> r == Panicked(m))
  {
    FaultStep(program, m);
    assert Interpret(program, m, 0) == Running(m);
  }

  /** A run that has ended stays as it ended. */
  lemma {:induction false} EndedStays(program: Program, m: Machine, n: nat, more: nat)
    requires m.Valid() && !Interpret(program, m, n).Running?
    ensures Interpret(program, m, n + more) == Interpret(program, m, n)
  {
    if more > 0 { EndedStays(program, m, n, more - 1); }
  }
}
