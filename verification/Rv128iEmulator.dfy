/**
 The assembler and the emulator of library/sbi-spec/examples/simple-rv128i-emulator.rs as objects that
 change in place. The ghost program of a memory is what its assembler methods were asked for; the
 hart's methods compute the functions of `Rv128iHart` that the theorems there are about.
 */
module Rv128iEmulator {
  import opened Helpers
  import opened Rv128iCodec
  import opened Rv128iHart

  /** `idx / 4` for a byte offset inside the memory */
  function WordIndex(idx: bv64): (k: nat)
    requires idx < 0x4000
    ensures k < N_INSNS
  {
    ((idx >> 2) as bv12) as nat
  }

  /** Where the hart sees that word. */
  function AddressOf(idx: bv64): bv128
    requires idx < 0x4000
  {
    BASE + (((idx >> 2) as bv128) << 2)
  }

  lemma BackAndForth(a: bv12)
    ensures (a as nat) as bv12 == a
  {
  }

  lemma AddressIsInMemory(idx: bv64)
    requires idx < 0x4000
    ensures InMemory(AddressOf(idx)) && IndexOf(AddressOf(idx)) == WordIndex(idx)
  {
    assert (((AddressOf(idx) - BASE) >> 2) as bv12) == (idx >> 2) as bv12;
  }

  lemma SameSlot(p: bv128, q: bv128)
    requires InMemory(p) && InMemory(q)
    requires ((p - BASE) >> 2) as bv12 == ((q - BASE) >> 2) as bv12
    ensures p == q
  {
  }

  lemma IndexInjective(p: bv128, q: bv128)
    requires InMemory(p) && InMemory(q) && IndexOf(p) == IndexOf(q)
    ensures p == q
  {
    BackAndForth(((p - BASE) >> 2) as bv12);
    BackAndForth(((q - BASE) >> 2) as bv12);
    SameSlot(p, q);
  }

  /** Writing the word of an instruction lays that instruction at its address and touches no other. */
  lemma PutKeepsLaid(inner: seq<bv32>, program: Program, idx: bv64, insn: Insn)
    requires Laid(inner, program) && idx < 0x4000 && Canonical(insn)
    ensures Laid(inner[WordIndex(idx) := Encode(insn)], program[Place(AddressOf(idx)) := insn])
  {
    AddressIsInMemory(idx);
    var inner', program' := inner[WordIndex(idx) := Encode(insn)], program[Place(AddressOf(idx)) := insn];
    forall ptr: bv128 | InMemory(ptr) ensures LaidAt(inner', program', ptr) {
      assert LaidAt(inner, program, ptr);
      if ptr != AddressOf(idx) && IndexOf(ptr) == WordIndex(idx) { IndexInjective(ptr, AddressOf(idx)); }
    }
  }

  lemma EmptyLaid(inner: seq<bv32>)
    requires |inner| == N_INSNS && forall k | 0 <= k < N_INSNS :: inner[k] == 0
    ensures Laid(inner, map[])
  {
  }

  /** The byte offset, and the next one where `li` takes two words, are inside the memory. */
  predicate Room(idx: bv64, simm20: bv32) {
    idx < 0x4000 && (simm20 != 0 ==> idx < 0x3FFC)
  }

  /** The program with the instructions of one `li` at a byte offset, and no other change. */
  function WithLi(program: Program, idx: bv64, rd: XReg, simm20: bv32, simm12: bv32): Program
    requires Room(idx, simm20)
  {
    if simm20 != 0 then
      program[Place(AddressOf(idx)) := Lui(rd, simm20)][Place(AddressOf(idx + 4)) := Addi(rd, rd, simm12)]
    else program[Place(AddressOf(idx)) := Addi(rd, ZERO, simm12)]
  }

  lemma LiEmits(program: Program, idx: bv64, rd: XReg, simm20: bv32, simm12: bv32)
    requires Room(idx, simm20)
    ensures Emitted(WithLi(program, idx, rd, simm20, simm12), AddressOf(idx), LoadHalves(rd, simm20, simm12))
  {
    AddressIsInMemory(idx);
    if simm20 != 0 {
      AddressIsInMemory(idx + 4);
      NextAddress(idx);
    }
  }

  class InstMemory {
    const inner: array<bv32>
    ghost var program: Program

    ghost predicate Valid()
      reads this, inner
    {
      Laid(inner[..], program)
    }

    /** `new_unimp` */
    constructor ()
      ensures Valid() && program == map[] && fresh(inner)
    {
      inner := new bv32[N_INSNS](_ => 0);
      program := map[];
      new;
      EmptyLaid(inner[..]);
    }

    method AddI(idx: bv64, rd: XReg, rs: XReg, value: bv32)
      requires Valid() && idx < 0x4000
      modifies this, inner
      ensures Valid() && program == old(program)[Place(AddressOf(idx)) := Addi(rd, rs, Simm12(value))]
    {
      var insn := Addi(rd, rs, Simm12(value));
      PutKeepsLaid(inner[..], program, idx, insn);
      inner[WordIndex(idx)] := EncodeAddi(rd, rs, Simm12(value));
      program := program[Place(AddressOf(idx)) := insn];
    }

    method LuI(idx: bv64, rd: XReg, value: bv32)
      requires Valid() && idx < 0x4000
      modifies this, inner
      ensures Valid() && program == old(program)[Place(AddressOf(idx)) := Lui(rd, Simm20(value))]
    {
      var insn := Lui(rd, Simm20(value));
      PutKeepsLaid(inner[..], program, idx, insn);
      inner[WordIndex(idx)] := EncodeLui(rd, Simm20(value));
      program := program[Place(AddressOf(idx)) := insn];
    }

    /** `offset` is the bits of an `Offset`; what is laid down is the branch that they stand for. */
    method BrEq(idx: bv64, rs1: XReg, rs2: XReg, offset: bv32)
      requires Valid() && idx < 0x4000
      modifies this, inner
      ensures Valid() && program == old(program)[Place(AddressOf(idx)) := Beq(rs1, rs2, OffsetFromU32(offset))]
    {
      var insn := Beq(rs1, rs2, OffsetFromU32(offset));
      SignExtensionRange(offset);
      SameBranch(rs1, rs2, offset);
      PutKeepsLaid(inner[..], program, idx, insn);
      inner[WordIndex(idx)] := EncodeBeq(rs1, rs2, offset);
      program := program[Place(AddressOf(idx)) := insn];
    }

    method BrEqZ(idx: bv64, rs: XReg, offset: bv32)
      requires Valid() && idx < 0x4000
      modifies this, inner
      ensures Valid() && program == old(program)[Place(AddressOf(idx)) := Beq(rs, ZERO, OffsetFromU32(offset))]
    {
      BrEq(idx, rs, ZERO, offset);
    }

    method ECall(idx: bv64)
      requires Valid() && idx < 0x4000
      modifies this, inner
      ensures Valid() && program == old(program)[Place(AddressOf(idx)) := Ecall]
    {
      PutKeepsLaid(inner[..], program, idx, Ecall);
      inner[WordIndex(idx)] := 0x73;
      program := program[Place(AddressOf(idx)) := Ecall];
    }

    method LiHalves(idx: bv64, rd: XReg, simm20: bv32, simm12: bv32)
      requires Valid() && Simm20(simm20) == simm20 && Simm12(simm12) == simm12
      requires Room(idx, simm20)
      modifies this, inner
      ensures Valid() && program == WithLi(old(program), idx, rd, simm20, simm12)
    {
      if simm20 != 0 {
        LuI(idx, rd, simm20);
        AddI(idx + 4, rd, rd, simm12);
      } else {
        AddI(idx, rd, ZERO, simm12);
      }
    }

    /** `li`: the immediate fits in 32 bits, and the word or the two words lie inside the memory. */
    method Li(idx: bv64, rd: XReg, imm: bv128)
      requires Valid() && imm <= 0xFFFF_FFFF && Room(idx, imm as bv32 >> 12)
      modifies this, inner
      ensures Valid() && program == WithLi(old(program), idx, rd, imm as bv32 >> 12, imm as bv32 & 0xFFF)
      ensures Emitted(program, AddressOf(idx), LoadImmediate(rd, imm as bv32))
    {
      HalvesFit(imm as bv32);
      LiHalves(idx, rd, imm as bv32 >> 12, imm as bv32 & 0xFFF);
      LiEmits(old(program), idx, rd, imm as bv32 >> 12, imm as bv32 & 0xFFF);
    }

    method Get(ptr: bv128) returns (r: Fetched)
      requires inner.Length == N_INSNS
      ensures r == Fetch(inner[..], ptr)
    {
      if ptr & 3 != 0 || ptr >= END { return NoWord; }
      if ptr < BASE { return Underflow; }
      r := Word(inner[IndexOf(ptr)]);
    }
  }

  lemma SameBranch(rs1: XReg, rs2: XReg, offset: bv32)
    ensures EncodeBeq(rs1, rs2, OffsetFromU32(offset)) == EncodeBeq(rs1, rs2, offset)
  {
  }

  lemma HalvesFit(word: bv32)
    ensures Simm20(word >> 12) == word >> 12 && Simm12(word & 0xFFF) == word & 0xFFF
  {
  }

  lemma NextAddress(idx: bv64)
    requires idx < 0x3FFC
    ensures AddressOf(idx + 4) == AddressOf(idx) + 4 && AddressOf(idx) + 4 != AddressOf(idx)
  {
  }

  class SimpleRv128IHart {
    const xregs: array<bv128>
    var pc: bv128
    const memory: InstMemory

    ghost predicate Valid()
      reads this, xregs, memory, memory.inner
    {
      xregs.Length == 32 && memory.Valid()
    }

    ghost function Snapshot(): (m: Machine)
      requires Valid()
      reads this, xregs, memory, memory.inner
      ensures m.Valid()
    {
      State()
    }

    constructor (instMemory: InstMemory)
      requires instMemory.Valid()
      ensures Valid() && memory == instMemory && fresh(xregs)
      ensures Snapshot() == Machine(seq(32, _ => 0), BASE)
    {
      xregs := new bv128[32](_ => 0);
      pc := BASE;
      memory := instMemory;
    }

    ghost function State(): (m: Machine)
      requires xregs.Length == 32
      reads this, xregs
      ensures m.Valid()
    {
      Machine(xregs[..], pc)
    }

    method Read(r: XReg) returns (value: bv128)
      requires xregs.Length == 32
      ensures value == State().Get(r)
    {
      value := xregs[Num(r)];
    }

    /** Writes a register and goes on to the next instruction. */
    method Write(rd: XReg, value: bv128)
      requires xregs.Length == 32
      modifies this, xregs
      ensures State() == old(State()).Set(rd, value).Skip()
    {
      xregs[Num(rd)] := value;
      pc := WrappingAdd(pc, 4);
    }

    method AddImmediate(rd: XReg, rs: XReg, simm12: bv32) returns (o: Outcome)
      requires xregs.Length == 32
      modifies this, xregs
      ensures o == ExecuteAddi(rd, rs, simm12, old(State()))
      ensures State() == if o.Stepped? then o.m else old(State())
    {
      var source := Read(rs);
      var sum := CheckedAdd(source, simm12 as bv128);
      if sum.None? { return Panic; }
      Write(rd, sum.value);
      o := Stepped(Machine(xregs[..], pc));
    }

    method LoadUpper(rd: XReg, simm20: bv32) returns (o: Outcome)
      requires xregs.Length == 32
      modifies this, xregs
      ensures o == ExecuteLui(rd, simm20, old(State())) && State() == o.m
    {
      Write(rd, (simm20 as bv128) << 12);
      o := Stepped(Machine(xregs[..], pc));
    }

    method Branch(rs1: XReg, rs2: XReg, offset: bv32) returns (o: Outcome)
      requires xregs.Length == 32
      modifies this`pc
      ensures o == ExecuteBeq(rs1, rs2, offset, old(State())) && State() == o.m
    {
      var left := Read(rs1);
      var right := Read(rs2);
      if left == right {
        pc := WrappingAdd(pc, SignExtend(offset));
      } else {
        pc := WrappingAdd(pc, 4);
      }
      o := Stepped(Machine(xregs[..], pc));
    }

    method Perform(insn: Insn) returns (o: Outcome)
      requires xregs.Length == 32
      modifies this, xregs
      ensures o == Execute(insn, old(State()))
      ensures State() == if o.Stepped? then o.m else old(State())
    {
      match insn {
        case Addi(rd, rs, simm12) => o := AddImmediate(rd, rs, simm12);
        case Lui(rd, simm20) => o := LoadUpper(rd, simm20);
        case Beq(rs1, rs2, offset) => o := Branch(rs1, rs2, offset);
        case Ecall => o := Trap(SupervisorEcall);
      }
    }

    /** `stepi`: what the direct interpreter does with the program that was laid down. */
    method StepI() returns (o: Outcome)
      requires Valid()
      modifies this, xregs
      ensures Valid() && o == StepDirectly(memory.program, old(Snapshot()))
      ensures Snapshot() == if o.Stepped? then o.m else old(Snapshot())
    {
      StepIsDirect(memory.inner[..], memory.program, Snapshot());
      var fetched := memory.Get(pc);
      if fetched.NoWord? { return Trap(InstructionAccessFault); }
      if fetched.Underflow? { return Panic; }
      var insn := Decode(fetched.word);
      if insn.None? { return Trap(IllegalInstruction); }
      o := Perform(insn.value);
    }

    /** `handle_ecall` */
    method ServeEcall() returns (f: Flow)
      requires Valid()
      modifies this, xregs
      ensures Valid() && f == HandleEcall(old(Snapshot()))
      ensures Snapshot() == if f.Continue? then f.m else old(Snapshot())
    {
      var extension := Read(A7);
      var fid := Read(A6);
      var a0 := Read(A0);
      var a1 := Read(A1);
      var ret := HandleSbiCall(extension, fid, a0, a1);
      if ret.error == SHUTDOWN { return Break(ret.value); }
      xregs[Num(A0)] := ret.error;
      Write(A1, ret.value);
      f := Continue(Machine(xregs[..], pc));
    }
  }
}
