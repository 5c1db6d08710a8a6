/** Instruction words of the RV128I example (library/sbi-spec/examples/simple-rv128i-emulator.rs). */
module Rv128iCodec {
  import opened Helpers

  const OPCODE_OP_IMM: bv32 := 0x13
  const OPCODE_LUI: bv32 := 0x37
  const OPCODE_BRANCH: bv32 := 0x63
  const ECALL_WORD: bv32 := 0x73

  /** `XReg`: 0 is `Zero`, 10 to 17 are `A0` to `A7`. */
  type XReg = x: bv32 | x < 32

  const ZERO: XReg := 0
  const A0: XReg := 10
  const A1: XReg := 11
  const A2: XReg := 12
  const A3: XReg := 13
  const A4: XReg := 14
  const A5: XReg := 15
  const A6: XReg := 16
  const A7: XReg := 17

  /** `Instruction`; an offset is the `i32` of `Offset`, in two's complement. */
  datatype Insn =
    | Addi(rd: XReg, rs: XReg, simm12: bv32)
    | Lui(rd: XReg, simm20: bv32)
    | Beq(rs1: XReg, rs2: XReg, offset: bv32)
    | Ecall

  // ----- immediates -----

  /** `Simm12::from` */
  function Simm12(value: bv32): bv32 { value & 0xFFF }

  /** `Simm20::from` */
  function Simm20(value: bv32): bv32 { value & 0xF_FFFF }

  /** `Offset::from(i32)` masks the offset; it does not extend the sign. */
  function OffsetFromI32(value: bv32): bv32 { value & 0x1FFE }

  /** `Offset::from(u32)` masks the offset and extends the sign from bit 12. */
  function OffsetFromU32(value: bv32): bv32 {
    var masked := value & 0x1FFE;
    if masked & 0x1000 != 0 then masked | 0xFFFF_E000 else masked
  }

  // ----- encoding -----

  function EncodeAddi(rd: XReg, rs: XReg, simm12: bv32): bv32 {
    (simm12 << 20) | (rs << 15) | (0 << 12) | (rd << 7) | OPCODE_OP_IMM
  }

  function EncodeLui(rd: XReg, simm20: bv32): bv32 {
    (simm20 << 12) | (rd << 7) | OPCODE_LUI
  }

  function EncodeBeq(rs1: XReg, rs2: XReg, offset: bv32): bv32 {
    var bit12 := (offset & 0x1000) >> 12;
    var bit11 := (offset & 0x800) >> 11;
    var bits10To5 := (offset & 0x7E0) >> 5;
    var bits4To1 := (offset & 0x1E) >> 1;
    (bit12 << 31) | (bits10To5 << 25) | (rs2 << 20) | (rs1 << 15) | (0 << 12) | (bits4To1 << 8) | (bit11 << 7)
      | OPCODE_BRANCH
  }

  function Encode(insn: Insn): bv32 {
    match insn
    case Addi(rd, rs, simm12) => EncodeAddi(rd, rs, simm12)
    case Lui(rd, simm20) => EncodeLui(rd, simm20)
    case Beq(rs1, rs2, offset) => EncodeBeq(rs1, rs2, offset)
    case Ecall => ECALL_WORD
  }

  // ----- decoding -----

  function DecodeOffset(value: bv32): bv32 {
    var bit12 := value >> 31;
    var bits10To5 := (value >> 25) & 0x3F;
    var bits4To1 := (value >> 8) & 0xF;
    var bit11 := (value >> 7) & 0x1;
    OffsetFromU32((bits4To1 << 1) | (bits10To5 << 5) | (bit11 << 11) | (bit12 << 12))
  }

  /** `Instruction::try_from` */
  function Decode(value: bv32): Option<Insn> {
    var opcode := value & 0x7F;
    var rd: XReg := (value >> 7) & 0x1F;
    var rs1: XReg := (value >> 15) & 0x1F;
    var rs2: XReg := (value >> 20) & 0x1F;
    var funct3 := (value >> 12) & 7;
    if opcode == OPCODE_OP_IMM && funct3 == 0 then Some(Addi(rd, rs1, Simm12(value >> 20)))
    else if opcode == OPCODE_LUI then Some(Lui(rd, Simm20(value >> 12)))
    else if opcode == OPCODE_BRANCH && funct3 == 0 then Some(Beq(rs1, rs2, DecodeOffset(value)))
    else if value == ECALL_WORD then Some(Ecall)
    else None
  }

  // ----- round trips -----

  /** As a signed number, an even offset from -4096 to 4094. */
  predicate BranchRange(offset: bv32) {
    offset & 1 == 0 && (offset < 0x1000 || offset >= 0xFFFF_F000)
  }

  predicate Canonical(insn: Insn) {
    match insn
    case Addi(_, _, simm12) => simm12 < 0x1000
    case Lui(_, simm20) => simm20 < 0x10_0000
    case Beq(_, _, offset) => BranchRange(offset)
    case Ecall => true
  }

  /** A branch decodes to the sign-extended low bits of the offset that it was encoded from. */
  lemma BeqDecodes(rs1: XReg, rs2: XReg, offset: bv32)
    ensures Decode(EncodeBeq(rs1, rs2, offset)) == Some(Beq(rs1, rs2, OffsetFromU32(offset)))
  {
  }

  lemma AddiDecodes(rd: XReg, rs: XReg, simm12: bv32)
    requires simm12 < 0x1000
    ensures Decode(EncodeAddi(rd, rs, simm12)) == Some(Addi(rd, rs, simm12))
  {
  }

  lemma LuiDecodes(rd: XReg, simm20: bv32)
    requires simm20 < 0x10_0000
    ensures Decode(EncodeLui(rd, simm20)) == Some(Lui(rd, simm20))
  {
  }

  lemma SignExtensionRange(offset: bv32)
    ensures BranchRange(OffsetFromU32(offset))
    ensures OffsetFromU32(offset) == offset <==> BranchRange(offset)
  {
    var masked := offset & 0x1FFE;
    if masked & 0x1000 != 0 { assert masked | 0xFFFF_E000 >= 0xFFFF_F000; }
  }

  /** Decoding an encoded instruction gives it back. */
  lemma DecodeEncoded(insn: Insn)
    requires Canonical(insn)
    ensures Decode(Encode(insn)) == Some(insn)
  {
    match insn
    case Addi(rd, rs, simm12) => AddiDecodes(rd, rs, simm12);
    case Lui(rd, simm20) => LuiDecodes(rd, simm20);
    case Beq(rs1, rs2, offset) =>
      BeqDecodes(rs1, rs2, offset);
      SignExtensionRange(offset);
    case Ecall =>
  }

  /**
   A branch assembled from an `i32` offset decodes to that offset exactly when the offset is even and
   between -4096 and 4094; the `Offset` in between holds the offset itself only when it is not negative.
   */
  lemma BeqFromI32(rs1: XReg, rs2: XReg, offset: bv32)
    ensures Decode(EncodeBeq(rs1, rs2, OffsetFromI32(offset))) == Some(Beq(rs1, rs2, offset)) <==> BranchRange(offset)
    ensures BranchRange(offset) ==> (OffsetFromI32(offset) == offset <==> offset < 0x8000_0000)
  {
    BeqDecodes(rs1, rs2, OffsetFromI32(offset));
    assert OffsetFromU32(OffsetFromI32(offset)) == OffsetFromU32(offset);
    SignExtensionRange(offset);
  }

  lemma AddiWord(w: bv32)
    requires w & 0x7F == OPCODE_OP_IMM && (w >> 12) & 7 == 0
    ensures EncodeAddi((w >> 7) & 0x1F, (w >> 15) & 0x1F, Simm12(w >> 20)) == w && Simm12(w >> 20) < 0x1000
  {
  }

  lemma LuiWord(w: bv32)
    requires w & 0x7F == OPCODE_LUI
    ensures EncodeLui((w >> 7) & 0x1F, Simm20(w >> 12)) == w && Simm20(w >> 12) < 0x10_0000
  {
  }

  lemma BeqWord(w: bv32)
    requires w & 0x7F == OPCODE_BRANCH && (w >> 12) & 7 == 0
    ensures EncodeBeq((w >> 15) & 0x1F, (w >> 20) & 0x1F, DecodeOffset(w)) == w && BranchRange(DecodeOffset(w))
  {
  }

  /** Encoding what a word decodes to gives the word back. */
  lemma EncodeDecoded(w: bv32)
    requires Decode(w).Some?
    ensures Canonical(Decode(w).value) && Encode(Decode(w).value) == w
  {
    match Decode(w).value
    case Addi(_, _, _) => AddiWord(w);
    case Lui(_, _) => LuiWord(w);
    case Beq(_, _, _) => BeqWord(w);
    case Ecall =>
  }

  /** Different instructions have different words. */
  lemma EncodeInjective(a: Insn, b: Insn)
    requires Canonical(a) && Canonical(b) && Encode(a) == Encode(b)
    ensures a == b
  {
    DecodeEncoded(a);
    DecodeEncoded(b);
  }

  // ----- the fields of a word -----

  /**
   The I, U and B formats of the RISC-V base instruction set (section 2.3 of the RISC-V Unprivileged
   Architecture): where opcode, function, registers and immediate lie in every word that is accepted.
   */
  lemma WordLayout(w: bv32)
    requires Decode(w).Some?
    ensures match Decode(w).value
            case Addi(rd, rs, simm12) =>
              w & 0x7F == 0x13 && (w >> 12) & 7 == 0 && (w >> 7) & 31 == rd && (w >> 15) & 31 == rs && w >> 20 == simm12
            case Lui(rd, simm20) => w & 0x7F == 0x37 && (w >> 7) & 31 == rd && w >> 12 == simm20
            case Beq(rs1, rs2, offset) =>
              && w & 0x7F == 0x63 && (w >> 12) & 7 == 0 && (w >> 15) & 31 == rs1 && (w >> 20) & 31 == rs2
              && w >> 31 == (offset >> 12) & 1 && (w >> 7) & 1 == (offset >> 11) & 1
              && (w >> 25) & 63 == (offset >> 5) & 63 && (w >> 8) & 15 == (offset >> 1) & 15
            case Ecall => w == 0x73
  {
    if Decode(w).value.Beq? { OffsetLayout(w); }
    if Decode(w).value.Addi? { TopTwelve(w); }
    if Decode(w).value.Lui? { TopTwenty(w); }
  }

  lemma OffsetLayout(w: bv32)
    ensures var offset := DecodeOffset(w);
            && w >> 31 == (offset >> 12) & 1 && (w >> 7) & 1 == (offset >> 11) & 1
            && (w >> 25) & 63 == (offset >> 5) & 63 && (w >> 8) & 15 == (offset >> 1) & 15
  {
  }

  lemma TopTwelve(w: bv32)
    ensures Simm12(w >> 20) == w >> 20
  {
  }

  lemma TopTwenty(w: bv32)
    ensures Simm20(w >> 12) == w >> 12
  {
  }
}
