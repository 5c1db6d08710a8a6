/**
 The RV128I example (library/sbi-spec/examples/simple-rv128i-emulator.rs): an assembler into instruction
 memory, the emulator that fetches, decodes and executes from it, and its SBI implementation.
 Arithmetic overflow is a panic, as in a build with overflow checks.
 */
module Rv128iHart {
  import opened Helpers
  import opened Rv128iCodec

  const BASE: bv128 := 0x2000_0000
  const END: bv128 := 0x2000_4000
  const N_INSNS: nat := 0x1000 // words from BASE to END

  datatype Exception = IllegalInstruction | InstructionAccessFault | SupervisorEcall

  /** `r as usize` */
  function Num(r: XReg): (k: nat)
    ensures k < 32
  {
    r as nat
  }

  /** `wrapping_add` */
  function WrappingAdd(a: bv128, b: bv128): bv128 { a + b }

  /** The registers and the program counter. */
  datatype Machine = Machine(xregs: seq<bv128>, pc: bv128) {
    predicate Valid() { |xregs| == 32 }

    function Get(r: XReg): bv128
      requires Valid()
    {
      xregs[Num(r)]
    }

    function Set(r: XReg, value: bv128): (m: Machine)
      requires Valid()
      ensures m.Valid()
    {
      this.(xregs := xregs[Num(r) := value])
    }

    function Skip(): Machine {
      this.(pc := WrappingAdd(pc, 4))
    }
  }

  /** What one step does; an exception or a panic leaves the machine as it was. */
  datatype Outcome = Stepped(m: Machine) | Trap(e: Exception) | Panic

  // ----- execution of one instruction -----

  /** `offset.0 as i128`, as its bits */
  function SignExtend(offset: bv32): bv128 {
    if offset & 0x8000_0000 != 0 then (offset as bv128) | 0xFFFF_FFFF_FFFF_FFFF_FFFF_FFFF_0000_0000
    else offset as bv128
  }

  /** `+` on `u128` */
  function CheckedAdd(a: bv128, b: bv128): Option<bv128> {
    if WrappingAdd(a, b) < a then None else Some(WrappingAdd(a, b))
  }

  function ExecuteAddi(rd: XReg, rs: XReg, simm12: bv32, m: Machine): (o: Outcome)
    requires m.Valid()
    ensures o.Stepped? ==> o.m.Valid()
  {
    WriteSum(rd, CheckedAdd(m.Get(rs), simm12 as bv128), m)
  }

  function WriteSum(rd: XReg, sum: Option<bv128>, m: Machine): (o: Outcome)
    requires m.Valid()
    ensures o.Stepped? ==> o.m.Valid()
  {
    if sum.None? then Panic else Stepped(m.Set(rd, sum.value).Skip())
  }

  function ExecuteLui(rd: XReg, simm20: bv32, m: Machine): (o: Outcome)
    requires m.Valid()
    ensures o.Stepped? && o.m.Valid()
  {
    Stepped(m.Set(rd, (simm20 as bv128) << 12).Skip())
  }

  function ExecuteBeq(rs1: XReg, rs2: XReg, offset: bv32, m: Machine): (o: Outcome)
    requires m.Valid()
    ensures o.Stepped? && o.m.Valid()
  {
    Stepped(m.(pc := WrappingAdd(m.pc, if m.Get(rs1) == m.Get(rs2) then SignExtend(offset) else 4)))
  }

  lemma ExtendNegative(offset: bv32)
    requires offset >= 0x8000_0000
    ensures SignExtend(offset) == 0 - ((0 - offset) as bv128)
  {
  }

  lemma MinusAsPlus(pc: bv128, x: bv128)
    ensures pc + (0 - x) == pc - x
  {
  }

  /** A taken branch moves forward by its offset, or backward by what a negative offset is below zero. */
  lemma BranchMovesByOffset(pc: bv128, offset: bv32)
    ensures offset < 0x8000_0000 ==> WrappingAdd(pc, SignExtend(offset)) == WrappingAdd(pc, offset as bv128)
    ensures offset >= 0x8000_0000 ==> WrappingAdd(pc, SignExtend(offset)) == pc - ((0 - offset) as bv128)
  {
    if offset >= 0x8000_0000 {
      ExtendNegative(offset);
      MinusAsPlus(pc, (0 - offset) as bv128);
    }
  }

  function Execute(insn: Insn, m: Machine): (o: Outcome)
    requires m.Valid()
    ensures o.Stepped? ==> o.m.Valid()
  {
    match insn
    case Addi(rd, rs, simm12) => ExecuteAddi(rd, rs, simm12, m)
    case Lui(rd, simm20) => ExecuteLui(rd, simm20, m)
    case Beq(rs1, rs2, offset) => ExecuteBeq(rs1, rs2, offset, m)
    case Ecall => Trap(SupervisorEcall)
  }

  // ----- the emulator: words in memory -----

  predicate InMemory(ptr: bv128) {
    ptr & 3 == 0 && BASE <= ptr < END
  }

  /** `(ptr as usize - BASE) / 4`; twelve bits hold it. */
  function IndexOf(ptr: bv128): (k: nat)
    requires InMemory(ptr)
    ensures k < N_INSNS
  {
    (((ptr - BASE) >> 2) as bv12) as nat
  }

  datatype Fetched = Word(word: bv32) | NoWord | Underflow

  /** `InstMemory::get`; an address below `BASE` underflows. */
  function Fetch(inner: seq<bv32>, ptr: bv128): Fetched
    requires |inner| == N_INSNS
  {
    if ptr & 3 != 0 || ptr >= END then NoWord
    else if ptr < BASE then Underflow
    else Word(inner[IndexOf(ptr)])
  }

  /** `stepi` */
  function Step(inner: seq<bv32>, m: Machine): (o: Outcome)
    requires |inner| == N_INSNS && m.Valid()
    ensures o.Stepped? ==> o.m.Valid()
  {
    match Fetch(inner, m.pc)
    case NoWord => Trap(InstructionAccessFault)
    case Underflow => Panic
    case Word(word) =>
      var insn := Decode(word);
      if insn.None? then Trap(IllegalInstruction) else Execute(insn.value, m)
  }

  // ----- the direct interpreter: instructions by their place -----

  datatype Place = Place(address: bv128)

  type Program = map<Place, Insn>

  /** The instruction that the program has at an address, without words or decoding. */
  function StepDirectly(program: Program, m: Machine): (o: Outcome)
    requires m.Valid()
    ensures o.Stepped? ==> o.m.Valid()
  {
    if m.pc & 3 != 0 || m.pc >= END then Trap(InstructionAccessFault)
    else if m.pc < BASE then Panic
    else if Place(m.pc) in program then Execute(program[Place(m.pc)], m)
    else Trap(IllegalInstruction)
  }

  /** The memory holds the program, and zeros everywhere else. */
  ghost predicate Laid(inner: seq<bv32>, program: Program) {
    |inner| == N_INSNS && forall ptr: bv128 | InMemory(ptr) :: LaidAt(inner, program, ptr)
  }

  ghost predicate LaidAt(inner: seq<bv32>, program: Program, ptr: bv128)
    requires |inner| == N_INSNS && InMemory(ptr)
  {
    if Place(ptr) in program then Canonical(program[Place(ptr)]) && inner[IndexOf(ptr)] == Encode(program[Place(ptr)])
    else inner[IndexOf(ptr)] == 0
  }

  lemma StepIsDirect(inner: seq<bv32>, program: Program, m: Machine)
    requires Laid(inner, program) && m.Valid()
    ensures Step(inner, m) == StepDirectly(program, m)
  {
    if InMemory(m.pc) {
      assert LaidAt(inner, program, m.pc);
      if Place(m.pc) in program { DecodeEncoded(program[Place(m.pc)]); }
    }
  }

  // ----- SBI calls -----

  datatype SbiRet = SbiRet(error: bv128, value: bv128)

  const NOT_SUPPORTED := SbiRet(0 - 2, 0)
  const SHUTDOWN: bv128 := 0x114514

  function HandleSbiCall(extension: bv128, fid: bv128, a0: bv128, a1: bv128): SbiRet {
    if extension == 0x10 && fid == 3 then SbiRet(0, if a0 == 0x10 then 1 else 0)
    else if extension == 0x5352_5354 && fid == 0 then
      if a0 == 0 then SbiRet(SHUTDOWN, a1) else NOT_SUPPORTED
    else NOT_SUPPORTED
  }

  datatype Flow = Continue(m: Machine) | Break(value: bv128)

  /** `handle_ecall` */
  function HandleEcall(m: Machine): (f: Flow)
    requires m.Valid()
    ensures f.Continue? ==> f.m.Valid()
  {
    var ret := HandleSbiCall(m.Get(A7), m.Get(A6), m.Get(A0), m.Get(A1));
    if ret.error == SHUTDOWN then Break(ret.value)
    else Continue(m.Set(A0, ret.error).Set(A1, ret.value).Skip())
  }

  // ----- whole runs -----

  /** The machine after at most `n` steps of the main loop, and what ended the loop, if anything did. */
  datatype Run = Running(m: Machine) | Shutdown(reason: bv128, m: Machine) | Died(e: Exception, m: Machine) | Panicked(m: Machine)

  function After(o: Outcome, m: Machine): (r: Run)
    requires m.Valid() && (o.Stepped? ==> o.m.Valid())
    ensures r.m.Valid()
  {
    match o
    case Stepped(m') => Running(m')
    case Panic => Panicked(m)
    case Trap(SupervisorEcall) =>
      (match HandleEcall(m) case Continue(m') => Running(m') case Break(v) => Shutdown(v, m))
    case Trap(e) => Died(e, m)
  }

  function Emulate(inner: seq<bv32>, m: Machine, n: nat): (r: Run)
    requires |inner| == N_INSNS && m.Valid()
    ensures r.m.Valid()
  {
    if n == 0 then Running(m)
    else
      var r := Emulate(inner, m, n - 1);
      if r.Running? then After(Step(inner, r.m), r.m) else r
  }

  function Interpret(program: Program, m: Machine, n: nat): (r: Run)
    requires m.Valid()
    ensures r.m.Valid()
  {
    if n == 0 then Running(m)
    else
      var r := Interpret(program, m, n - 1);
      if r.Running? then After(StepDirectly(program, r.m), r.m) else r
  }

  /**
   However many steps are taken, emulating the words of a program and interpreting its instructions
   give the same machine and the same end: ecalls, faults, panics and the shutdown included.
   */
  lemma {:induction false} EmulationIsInterpretation(inner: seq<bv32>, program: Program, m: Machine, n: nat)
    requires Laid(inner, program) && m.Valid()
    ensures Emulate(inner, m, n) == Interpret(program, m, n)
  {
    if n > 0 {
      EmulationIsInterpretation(inner, program, m, n - 1);
      StepIsDirect(inner, program, Emulate(inner, m, n - 1).m);
    }
  }

  // ----- register zero -----

  /** An instruction that can leave something else than zero in register `Zero`, which is not hardwired. */
  predicate Dirties(insn: Insn) {
    match insn
    case Addi(rd, rs, simm12) => rd == ZERO && (rs != ZERO || simm12 != 0)
    case Lui(rd, simm20) => rd == ZERO && simm20 != 0
    case _ => false
  }

  /** No instruction that the hart can fetch is of that kind. */
  ghost predicate Clean(program: Program) {
    forall ptr: bv128 | InMemory(ptr) && Place(ptr) in program :: !Dirties(program[Place(ptr)])
  }

  predicate ZeroHolds(m: Machine) {
    m.Valid() && m.Get(ZERO) == 0
  }

  lemma NumZero(r: XReg)
    ensures Num(r) == 0 <==> r == ZERO
  {
  }

  lemma WriteKeepsZero(m: Machine, rd: XReg, value: bv128)
    requires ZeroHolds(m) && (rd == ZERO ==> value == 0)
    ensures ZeroHolds(m.Set(rd, value)) && ZeroHolds(m.Set(rd, value).Skip())
  {
    NumZero(rd);
  }

  lemma SumKeepsZero(rd: XReg, sum: Option<bv128>, m: Machine)
    requires ZeroHolds(m) && sum.Some? && (rd == ZERO ==> sum.value == 0)
    ensures WriteSum(rd, sum, m).Stepped? && ZeroHolds(WriteSum(rd, sum, m).m)
  {
    WriteKeepsZero(m, rd, sum.value);
  }

  lemma ZeroSum()
    ensures CheckedAdd(0, 0) == Some(0)
  {
  }

  lemma AddiKeepsZero(rd: XReg, rs: XReg, simm12: bv32, m: Machine)
    requires ZeroHolds(m) && !Dirties(Addi(rd, rs, simm12)) && ExecuteAddi(rd, rs, simm12, m).Stepped?
    ensures ZeroHolds(ExecuteAddi(rd, rs, simm12, m).m)
  {
    var sum := CheckedAdd(m.Get(rs), simm12 as bv128);
    assert rd == ZERO && sum.Some? ==> sum.value == 0 by { ZeroSum(); }
    if sum.Some? { SumKeepsZero(rd, sum, m); }
  }

  lemma LuiKeepsZero(rd: XReg, simm20: bv32, m: Machine)
    requires ZeroHolds(m) && !Dirties(Lui(rd, simm20))
    ensures ZeroHolds(ExecuteLui(rd, simm20, m).m)
  {
    WriteKeepsZero(m, rd, (simm20 as bv128) << 12);
  }

  lemma BeqKeepsZero(rs1: XReg, rs2: XReg, offset: bv32, m: Machine)
    requires ZeroHolds(m)
    ensures ZeroHolds(ExecuteBeq(rs1, rs2, offset, m).m)
  {
  }

  lemma ExecuteKeepsZero(insn: Insn, m: Machine)
    requires ZeroHolds(m) && !Dirties(insn) && Execute(insn, m).Stepped?
    ensures ZeroHolds(Execute(insn, m).m)
  {
    match insn
    case Addi(rd, rs, simm12) => AddiKeepsZero(rd, rs, simm12, m);
    case Lui(rd, simm20) => LuiKeepsZero(rd, simm20, m);
    case Beq(rs1, rs2, offset) => BeqKeepsZero(rs1, rs2, offset, m);
    case Ecall =>
  }

  lemma EcallKeepsZero(m: Machine)
    requires ZeroHolds(m) && HandleEcall(m).Continue?
    ensures ZeroHolds(HandleEcall(m).m)
  {
    var ret := HandleSbiCall(m.Get(A7), m.Get(A6), m.Get(A0), m.Get(A1));
    WriteKeepsZero(m, A0, ret.error);
    WriteKeepsZero(m.Set(A0, ret.error), A1, ret.value);
  }

  lemma StepKeepsZero(program: Program, m: Machine)
    requires Clean(program) && ZeroHolds(m) && StepDirectly(program, m).Stepped?
    ensures ZeroHolds(StepDirectly(program, m).m)
  {
    assert InMemory(m.pc);
    ExecuteKeepsZero(program[Place(m.pc)], m);
  }

  lemma AfterKeepsZero(program: Program, m: Machine)
    requires Clean(program) && ZeroHolds(m)
    ensures ZeroHolds(After(StepDirectly(program, m), m).m)
  {
    if StepDirectly(program, m).Stepped? { StepKeepsZero(program, m); }
    if HandleEcall(m).Continue? { EcallKeepsZero(m); }
  }

  lemma {:induction false} InterpretKeepsZero(program: Program, m: Machine, n: nat)
    requires Clean(program) && ZeroHolds(m)
    ensures ZeroHolds(Interpret(program, m, n).m)
  {
    if n > 0 {
      InterpretKeepsZero(program, m, n - 1);
      AfterKeepsZero(program, Interpret(program, m, n - 1).m);
    }
  }

  lemma SmallSums(simm12: bv32, x: bv128)
    requires simm12 < 0x1000 && x <= 1 && (x == 1 || simm12 != 0)
    ensures CheckedAdd(x, simm12 as bv128).Some? && CheckedAdd(x, simm12 as bv128).value != 0
  {
  }

  lemma UpperNotZero(simm20: bv32)
    requires 0 < simm20 < 0x10_0000
    ensures (simm20 as bv128) << 12 != 0
  {
  }

  lemma SumDirties(rd: XReg, sum: Option<bv128>, m: Machine)
    requires m.Valid() && rd == ZERO && sum.Some? && sum.value != 0
    ensures WriteSum(rd, sum, m).Stepped? && !ZeroHolds(WriteSum(rd, sum, m).m)
  {
    SetChanges(m, ZERO, sum.value);
  }

  lemma DirtyAddi(ptr: bv128, rs: XReg, simm12: bv32) returns (m: Machine)
    requires simm12 < 0x1000 && (rs != ZERO || simm12 != 0)
    ensures ZeroHolds(m) && m.pc == ptr
    ensures var o := ExecuteAddi(ZERO, rs, simm12, m); o.Stepped? && !ZeroHolds(o.m)
  {
    m := Machine(seq(32, _ => 0), ptr);
    if rs != ZERO {
      NumZero(rs);
      m := m.Set(rs, 1);
    }
    SmallSums(simm12, m.Get(rs));
    SumDirties(ZERO, CheckedAdd(m.Get(rs), simm12 as bv128), m);
  }

  /** A machine with register zero at zero, about to fetch an instruction that dirties it. */
  lemma DirtyMachine(program: Program, ptr: bv128) returns (m: Machine)
    requires InMemory(ptr) && Place(ptr) in program
    requires Canonical(program[Place(ptr)]) && Dirties(program[Place(ptr)])
    ensures ZeroHolds(m) && StepDirectly(program, m).Stepped? && !ZeroHolds(StepDirectly(program, m).m)
  {
    match program[Place(ptr)]
    case Addi(rd, rs, simm12) =>
      m := DirtyAddi(ptr, rs, simm12);
    case Lui(rd, simm20) =>
      m := Machine(seq(32, _ => 0), ptr);
      UpperNotZero(simm20);
      SetChanges(m, ZERO, (simm20 as bv128) << 12);
  }

  /** Register zero stays zero, from every machine where it is zero and for every number of steps. */
  ghost predicate ZeroStays(inner: seq<bv32>)
    requires |inner| == N_INSNS
  {
    forall m: Machine, n: nat | ZeroHolds(m) :: ZeroHolds(Emulate(inner, m, n).m)
  }

  /**
   Exactly when register zero stays zero: no instruction in memory adds to it anything but zero from
   itself, or loads into its upper bits anything but zero.
   */
  lemma ZeroStaysIff(inner: seq<bv32>, program: Program)
    requires Laid(inner, program)
    ensures ZeroStays(inner) <==> Clean(program)
  {
    if Clean(program) {
      forall m: Machine, n: nat | ZeroHolds(m) ensures ZeroHolds(Emulate(inner, m, n).m) {
        EmulationIsInterpretation(inner, program, m, n);
        InterpretKeepsZero(program, m, n);
      }
    } else {
      var ptr: bv128 :| InMemory(ptr) && Place(ptr) in program && Dirties(program[Place(ptr)]);
      assert LaidAt(inner, program, ptr);
      var m := DirtyMachine(program, ptr);
      var next := StepDirectly(program, m).m;
      TwoSteps(inner, program, m, next, m);
      assert !ZeroHolds(Emulate(inner, m, 1).m);
    }
  }

  // ----- the immediate of addi -----

  /** A twelve-bit immediate read as a signed number. */
  function SignExtend12(simm12: bv32): bv128 {
    if simm12 & 0x800 != 0 then (simm12 as bv128) | 0xFFFF_FFFF_FFFF_FFFF_FFFF_FFFF_FFFF_F000
    else simm12 as bv128
  }

  /** `addi` as the RISC-V instruction set has it: the immediate is signed and the sum wraps. */
  function SignedAddi(rd: XReg, rs: XReg, simm12: bv32, m: Machine): Outcome
    requires m.Valid()
  {
    Stepped(m.Set(rd, WrappingAdd(m.Get(rs), SignExtend12(simm12))).Skip())
  }

  /** The two readings of the immediate give the same sum exactly when it is not negative. */
  lemma SumsDiffer(x: bv128, simm12: bv32)
    requires simm12 < 0x1000
    ensures CheckedAdd(x, simm12 as bv128) == Some(WrappingAdd(x, SignExtend12(simm12)))
       <==> simm12 < 0x800 && CheckedAdd(x, simm12 as bv128).Some?
  {
  }

  /**
   The emulator zero-extends the immediate: its `addi` is the signed one exactly when the immediate is
   not negative and the sum does not overflow.
   */
  lemma AddiSignedIff(rd: XReg, rs: XReg, simm12: bv32, m: Machine)
    requires m.Valid() && simm12 < 0x1000
    ensures ExecuteAddi(rd, rs, simm12, m) == SignedAddi(rd, rs, simm12, m)
       <==> simm12 < 0x800 && CheckedAdd(m.Get(rs), simm12 as bv128).Some?
  {
    var x := m.Get(rs);
    var sum, signed := CheckedAdd(x, simm12 as bv128), WrappingAdd(x, SignExtend12(simm12));
    assert sum == Some(signed) <==> simm12 < 0x800 && sum.Some? by { SumsDiffer(x, simm12); }
    assert WriteSum(rd, sum, m) == Stepped(m.Set(rd, signed).Skip()) <==> sum == Some(signed) by {
      SumsCompared(rd, sum, signed, m);
    }
  }

  lemma SumsCompared(rd: XReg, sum: Option<bv128>, signed: bv128, m: Machine)
    requires m.Valid()
    ensures WriteSum(rd, sum, m) == Stepped(m.Set(rd, signed).Skip()) <==> sum == Some(signed)
  {
    if sum.Some? { SameWrite(m, rd, sum.value, signed); }
  }

  lemma SameWrite(m: Machine, rd: XReg, a: bv128, b: bv128)
    requires m.Valid()
    ensures m.Set(rd, a).Skip() == m.Set(rd, b).Skip() <==> a == b
  {
    SetChanges(m, rd, a);
    SetChanges(m, rd, b);
  }

  // ----- load immediate -----

  /** What `li` emits for the upper twenty and the lower twelve bits of an immediate. */
  function LoadHalves(rd: XReg, simm20: bv32, simm12: bv32): (insns: seq<Insn>)
    ensures 1 <= |insns| <= 2
  {
    if simm20 != 0 then [Lui(rd, simm20), Addi(rd, rd, simm12)] else [Addi(rd, ZERO, simm12)]
  }

  function LoadImmediate(rd: XReg, imm: bv32): (insns: seq<Insn>)
    ensures 1 <= |insns| <= 2
  {
    LoadHalves(rd, imm >> 12, imm & 0xFFF)
  }

  lemma HalvesAddUp(imm: bv32)
    ensures CheckedAdd((imm >> 12) as bv128 << 12, (imm & 0xFFF) as bv128) == Some(imm as bv128)
    ensures imm >> 12 == 0 ==> CheckedAdd(0, (imm & 0xFFF) as bv128) == Some(imm as bv128)
  {
  }

  /** `m` with `rd` loaded and the program counter moved past `n` instructions. */
  ghost predicate Loaded(m: Machine, rd: XReg, value: bv128, n: nat, r: Machine)
    requires m.Valid() && n <= 2
  {
    && r.Valid() && r.Get(rd) == value
    && (forall k | 0 <= k < 32 && k != Num(rd) :: r.xregs[k] == m.xregs[k])
    && r.pc == if n == 1 then WrappingAdd(m.pc, 4) else WrappingAdd(WrappingAdd(m.pc, 4), 4)
  }

  /** One or two instructions lie in memory one after the other. */
  predicate Emitted(program: Program, ptr: bv128, insns: seq<Insn>) {
    && (|insns| >= 1 ==> InMemory(ptr) && Place(ptr) in program && program[Place(ptr)] == insns[0])
    && (|insns| >= 2 ==> InMemory(ptr + 4) && Place(ptr + 4) in program && program[Place(ptr + 4)] == insns[1])
  }

  lemma AddsImmediate(program: Program, m: Machine, rd: XReg, rs: XReg, simm12: bv32, sum: bv128)
    requires m.Valid() && Emitted(program, m.pc, [Addi(rd, rs, simm12)])
    requires CheckedAdd(m.Get(rs), simm12 as bv128) == Some(sum)
    ensures StepDirectly(program, m) == Stepped(m.Set(rd, sum).Skip())
  {
  }

  lemma LoadsUpper(program: Program, m: Machine, rd: XReg, simm20: bv32)
    requires m.Valid() && Emitted(program, m.pc, [Lui(rd, simm20)])
    ensures StepDirectly(program, m) == ExecuteLui(rd, simm20, m)
  {
  }

  lemma TwoSteps(inner: seq<bv32>, program: Program, m: Machine, next: Machine, last: Machine)
    requires Laid(inner, program) && m.Valid() && next.Valid()
    requires StepDirectly(program, m) == Stepped(next)
    ensures Emulate(inner, m, 1) == Running(next)
    ensures StepDirectly(program, next) == Stepped(last) ==> Emulate(inner, m, 2) == Running(last)
  {
    StepIsDirect(inner, program, m);
    StepIsDirect(inner, program, next);
    assert Emulate(inner, m, 0) == Running(m);
  }

  /** Writing a register changes that register and no other. */
  lemma SetChanges(m: Machine, rd: XReg, value: bv128)
    requires m.Valid()
    ensures m.Set(rd, value).Get(rd) == value
    ensures forall k | 0 <= k < 32 && k != Num(rd) :: m.Set(rd, value).xregs[k] == m.xregs[k]
  {
  }

  lemma SetOnce(m: Machine, rd: XReg, value: bv128)
    requires m.Valid()
    ensures Loaded(m, rd, value, 1, m.Set(rd, value).Skip())
  {
    SetChanges(m, rd, value);
    SkipPc(m.Set(rd, value));
  }

  lemma SkipPc(m: Machine)
    ensures m.Skip().xregs == m.xregs && m.Skip().pc == WrappingAdd(m.pc, 4)
  {
  }

  lemma SetTwice(m: Machine, rd: XReg, first: bv128, value: bv128)
    requires m.Valid()
    ensures Loaded(m, rd, value, 2, m.Set(rd, first).Skip().Set(rd, value).Skip())
  {
    var next := m.Set(rd, first).Skip();
    SetChanges(m, rd, first);
    SkipPc(m.Set(rd, first));
    SetChanges(next, rd, value);
    SkipPc(next.Set(rd, value));
  }

  lemma ShortLi(inner: seq<bv32>, program: Program, m: Machine, rd: XReg, low: bv32, value: bv128)
    requires Laid(inner, program) && m.Valid() && m.Get(ZERO) == 0
    requires Emitted(program, m.pc, [Addi(rd, ZERO, low)]) && CheckedAdd(0, low as bv128) == Some(value)
    ensures Emulate(inner, m, 1).Running? && Loaded(m, rd, value, 1, Emulate(inner, m, 1).m)
  {
    SetOnce(m, rd, value);
    AddsImmediate(program, m, rd, ZERO, low, value);
    TwoSteps(inner, program, m, m.Set(rd, value).Skip(), m);
  }

  lemma LongLi(inner: seq<bv32>, program: Program, m: Machine, rd: XReg, high: bv32, low: bv32, value: bv128)
    requires Laid(inner, program) && m.Valid()
    requires Emitted(program, m.pc, [Lui(rd, high), Addi(rd, rd, low)])
    requires CheckedAdd((high as bv128) << 12, low as bv128) == Some(value)
    ensures Emulate(inner, m, 2).Running? && Loaded(m, rd, value, 2, Emulate(inner, m, 2).m)
  {
    var upper := (high as bv128) << 12;
    SetTwice(m, rd, upper, value);
    LoadsUpper(program, m, rd, high);
    var next := m.Set(rd, upper).Skip();
    AddsImmediate(program, next, rd, rd, low, value);
    TwoSteps(inner, program, m, next, next.Set(rd, value).Skip());
  }

  lemma HalvesLoad(inner: seq<bv32>, program: Program, m: Machine, rd: XReg, high: bv32, low: bv32, value: bv128)
    requires Laid(inner, program) && m.Valid() && m.Get(ZERO) == 0
    requires Emitted(program, m.pc, LoadHalves(rd, high, low))
    requires CheckedAdd((high as bv128) << 12, low as bv128) == Some(value)
    requires high == 0 ==> CheckedAdd(0, low as bv128) == Some(value)
    ensures var n := |LoadHalves(rd, high, low)|;
            Emulate(inner, m, n).Running? && Loaded(m, rd, value, n, Emulate(inner, m, n).m)
  {
    if high == 0 {
      ShortLi(inner, program, m, rd, low, value);
    } else {
      LongLi(inner, program, m, rd, high, low, value);
    }
  }

  /**
   For every immediate of 32 bits: where memory holds what `li` emits, running it loads the immediate,
   changes no other register, and stops just past it.
   */
  lemma LiLoads(inner: seq<bv32>, program: Program, m: Machine, rd: XReg, imm: bv32)
    requires Laid(inner, program) && m.Valid() && m.Get(ZERO) == 0
    requires Emitted(program, m.pc, LoadImmediate(rd, imm))
    ensures var n := |LoadImmediate(rd, imm)|;
            Emulate(inner, m, n).Running? && Loaded(m, rd, imm as bv128, n, Emulate(inner, m, n).m)
  {
    HalvesAddUp(imm);
    HalvesLoad(inner, program, m, rd, imm >> 12, imm & 0xFFF, imm as bv128);
  }
}
