/**
  The instruction decoder and the cached form of an instruction.

  `Decode` is the worker's decoder, routine by routine.  `DecodedId` and
  `DecodedImm` say which handler and which immediate a word stands for (section
  2.3 of the RISC-V Unprivileged ISA, version 20191213), and `Encoding` is the
  mask-and-match table of the instructions; the two views are proved equivalent.

  A cached instruction is a double that uses its 53-bit significand and its sign,
  so it is a 54-bit two's complement number, and an op_id is its top seven bits.
 */
module Decoder {
  import opened Options

  // --- fields of an instruction word ------------------------------------------

  function Opcode(w: bv32): bv5 { ((w >> 2) & 0x1f) as bv5 }
  function Funct3(w: bv32): bv3 { ((w >> 12) & 0x7) as bv3 }
  function Funct7(w: bv32): bv7 { (w >> 25) as bv7 }
  function Funct12(w: bv32): bv32 { w >> 20 }
  function Rd(w: bv32): bv32 { (w >> 7) & 0x1f }
  function Rs1(w: bv32): bv32 { (w >> 15) & 0x1f }
  function Rs2(w: bv32): bv32 { (w >> 20) & 0x1f }

  // --- what a word stands for -------------------------------------------------

  const ILLEGAL: bv7 := 0

  /** Mask and match of every instruction in the handler table, by op_id (two's complement, 7 bits). */
  function Encoding(opId: bv7): (bv32, bv32) {
    if opId == 64 then (0x707f, 0x63) // BEQ
    else if opId == 65 then (0x707f, 0x1063) // BNE
    else if opId == 66 then (0x7f, 0x6f) // JAL
    else if opId == 67 then (0x7f, 0x67) // JALR
    else if opId == 68 then (0x707f, 0x4063) // BLT
    else if opId == 69 then (0x707f, 0x5063) // BGE
    else if opId == 70 then (0x707f, 0x6063) // BLTU
    else if opId == 71 then (0x707f, 0x7063) // BGEU
    else if opId == 72 then (0x707f, 0x3) // LB
    else if opId == 73 then (0x707f, 0x1003) // LH
    else if opId == 74 then (0x707f, 0x2003) // LW
    else if opId == 75 then (0x7f, 0x37) // LUI
    else if opId == 76 then (0x707f, 0x4003) // LBU
    else if opId == 77 then (0x707f, 0x5003) // LHU
    else if opId == 78 then (0x707f, 0x23) // SB
    else if opId == 79 then (0x707f, 0x1023) // SH
    else if opId == 80 then (0x707f, 0x2023) // SW
    else if opId == 81 then (0xf800707f, 0x202f) // AMOADD
    else if opId == 82 then (0xf800707f, 0x800202f) // AMOSWAP
    else if opId == 83 then (0xf800707f, 0x1000202f) // LR
    else if opId == 84 then (0xf800707f, 0x1800202f) // SC
    else if opId == 85 then (0xf800707f, 0x2000202f) // AMOXOR
    else if opId == 86 then (0xf800707f, 0x4000202f) // AMOOR
    else if opId == 87 then (0xf800707f, 0x6000202f) // AMOAND
    else if opId == 88 then (0xf800707f, 0x8000202f) // AMOMIN
    else if opId == 89 then (0xf800707f, 0xa000202f) // AMOMAX
    else if opId == 90 then (0xf800707f, 0xc000202f) // AMOMINU
    else if opId == 91 then (0xf800707f, 0xe000202f) // AMOMAXU
    else if opId == 92 then (0x707f, 0x13) // ADDI
    else if opId == 93 then (0xfe00707f, 0x40000033) // SUB
    else if opId == 94 then (0x707f, 0x2013) // SLTI
    else if opId == 95 then (0x707f, 0x3013) // SLTIU
    else if opId == 96 then (0x707f, 0x4013) // XORI
    else if opId == 97 then (0xfe00707f, 0x40005033) // SRA
    else if opId == 98 then (0x707f, 0x6013) // ORI
    else if opId == 99 then (0x707f, 0x7013) // ANDI
    else if opId == 100 then (0xfe00707f, 0x33) // ADD
    else if opId == 101 then (0xfe00707f, 0x1033) // SLL
    else if opId == 102 then (0xfe00707f, 0x2033) // SLT
    else if opId == 103 then (0xfe00707f, 0x3033) // SLTU
    else if opId == 104 then (0xfe00707f, 0x4033) // XOR
    else if opId == 105 then (0xfe00707f, 0x5033) // SRL
    else if opId == 106 then (0xfe00707f, 0x6033) // OR
    else if opId == 107 then (0xfe00707f, 0x7033) // AND
    else if opId == 108 then (0xfe00707f, 0x2000033) // MUL
    else if opId == 109 then (0xfe00707f, 0x2001033) // MULH
    else if opId == 110 then (0xfe00707f, 0x2002033) // MULHSU
    else if opId == 111 then (0xfe00707f, 0x2003033) // MULHU
    else if opId == 112 then (0xfe00707f, 0x2004033) // DIV
    else if opId == 113 then (0xfe00707f, 0x2005033) // DIVU
    else if opId == 114 then (0xfe00707f, 0x2006033) // REM
    else if opId == 115 then (0xfe00707f, 0x2007033) // REMU
    else if opId == 116 then (0x707f, 0x73) // PRIV
    else if opId == 117 then (0x707f, 0x1073) // CSRRW
    else if opId == 118 then (0x707f, 0x2073) // CSRRS
    else if opId == 119 then (0x707f, 0x3073) // CSRRC
    else if opId == 120 then (0x7f, 0x17) // AUIPC
    else if opId == 121 then (0x707f, 0x5073) // CSRRWI
    else if opId == 122 then (0x707f, 0x6073) // CSRRSI
    else if opId == 123 then (0x707f, 0x7073) // CSRRCI
    else if opId == 124 then (0x607f, 0xf) // FENCE
    else if opId == 125 then (0xfe00707f, 0x1013) // SLLI
    else if opId == 126 then (0xfe00707f, 0x5013) // SRLI
    else if opId == 127 then (0xfe00707f, 0x40005013) // SRAI
    else if opId == 1 then (0x707f, 0xb) // MLOGSYS
    else (0, 1)
  }

  predicate Matches(w: bv32, opId: bv7) { w & Encoding(opId).0 == Encoding(opId).1 }

  // op_ids by major opcode.

  function BranchId(funct3: bv3): bv7 { if funct3 == 2 || funct3 == 3 then ILLEGAL else 64 + funct3 as bv7 }

  function LoadId(funct3: bv3): bv7 { if funct3 == 3 || funct3 >= 6 then ILLEGAL else 72 + funct3 as bv7 }

  function StoreId(funct3: bv3): bv7 { if funct3 >= 3 then ILLEGAL else 78 + funct3 as bv7 }

  function AmoId(funct3: bv3, funct5: bv5): bv7 {
    if funct3 != 2 then ILLEGAL
    else if funct5 == 0x00 then 81
    else if funct5 == 0x01 then 82
    else if funct5 == 0x02 then 83
    else if funct5 == 0x03 then 84
    else if funct5 == 0x04 then 85
    else if funct5 == 0x08 then 86
    else if funct5 == 0x0c then 87
    else if funct5 == 0x10 then 88
    else if funct5 == 0x14 then 89
    else if funct5 == 0x18 then 90
    else if funct5 == 0x1c then 91
    else ILLEGAL
  }

  function OpImmId(funct3: bv3, funct7: bv7): bv7 {
    if funct3 == 1 then (if funct7 == 0 then 125 else ILLEGAL)
    else if funct3 == 5 then (if funct7 == 0 then 126 else if funct7 == 0x20 then 127 else ILLEGAL)
    else 92 + funct3 as bv7
  }

  function OpId(funct3: bv3, funct7: bv7): bv7 {
    if funct7 == 0 then 100 + funct3 as bv7
    else if funct7 == 1 then 108 + funct3 as bv7
    else if funct7 == 0x20 && funct3 == 0 then 93
    else if funct7 == 0x20 && funct3 == 5 then 97
    else ILLEGAL
  }

  function MiscMemId(funct3: bv3): bv7 { if funct3 >= 2 then ILLEGAL else 124 }

  function SystemId(funct3: bv3): bv7 { if funct3 == 4 then ILLEGAL else 116 + funct3 as bv7 }

  function CustomId(funct3: bv3): bv7 { if funct3 == 0 then 1 else ILLEGAL }

  function OpcodeId(opcode: bv5, funct3: bv3, funct7: bv7): bv7 {
    if opcode == 0x00 then LoadId(funct3)
    else if opcode == 0x02 then CustomId(funct3)
    else if opcode == 0x03 then MiscMemId(funct3)
    else if opcode == 0x04 then OpImmId(funct3, funct7)
    else if opcode == 0x05 then 120
    else if opcode == 0x08 then StoreId(funct3)
    else if opcode == 0x0b then AmoId(funct3, (funct7 >> 2) as bv5)
    else if opcode == 0x0c then OpId(funct3, funct7)
    else if opcode == 0x0d then 75
    else if opcode == 0x18 then BranchId(funct3)
    else if opcode == 0x19 then 67
    else if opcode == 0x1b then 66
    else if opcode == 0x1c then SystemId(funct3)
    else ILLEGAL
  }

  /** The op_id of a word; 0 when it is not an instruction. */
  function DecodedId(w: bv32): bv7 {
    if w & 0x3 != 0x3 then ILLEGAL else OpcodeId(Opcode(w), Funct3(w), Funct7(w))
  }

  // One lemma for each stretch of the handler table.

  lemma BranchesEncoded(w: bv32, opId: bv7) // BEQ, BNE, JAL, JALR
    requires 64 <= opId <= 67
    ensures Matches(w, opId) <==> DecodedId(w) == opId
  {
  }

  lemma BranchesSignedEncoded(w: bv32, opId: bv7) // BLT to BGEU
    requires 68 <= opId <= 71
    ensures Matches(w, opId) <==> DecodedId(w) == opId
  {
  }

  lemma LoadsEncoded(w: bv32, opId: bv7) // LB, LH, LW, LUI
    requires 72 <= opId <= 75
    ensures Matches(w, opId) <==> DecodedId(w) == opId
  {
  }

  lemma LoadsStoresEncoded(w: bv32, opId: bv7) // LBU, LHU, SB, SH, SW
    requires 76 <= opId <= 80
    ensures Matches(w, opId) <==> DecodedId(w) == opId
  {
  }

  lemma AtomicsLowEncoded(w: bv32, opId: bv7) // AMOADD, AMOSWAP, LR, SC
    requires 81 <= opId <= 84
    ensures Matches(w, opId) <==> DecodedId(w) == opId
  {
  }

  lemma AtomicsLogicEncoded(w: bv32, opId: bv7) // AMOXOR, AMOOR, AMOAND
    requires 85 <= opId <= 87
    ensures Matches(w, opId) <==> DecodedId(w) == opId
  {
  }

  lemma AtomicsMinMaxEncoded(w: bv32, opId: bv7) // AMOMIN to AMOMAXU
    requires 88 <= opId <= 91
    ensures Matches(w, opId) <==> DecodedId(w) == opId
  {
  }

  lemma ImmediatesEncoded(w: bv32, opId: bv7) // ADDI, SUB, SLTI, SLTIU
    requires 92 <= opId <= 95
    ensures Matches(w, opId) <==> DecodedId(w) == opId
  {
  }

  lemma ImmediatesLogicEncoded(w: bv32, opId: bv7) // XORI, SRA, ORI, ANDI
    requires 96 <= opId <= 99
    ensures Matches(w, opId) <==> DecodedId(w) == opId
  {
  }

  lemma RegistersEncoded(w: bv32, opId: bv7) // ADD, SLL, SLT, SLTU
    requires 100 <= opId <= 103
    ensures Matches(w, opId) <==> DecodedId(w) == opId
  {
  }

  lemma RegistersLogicEncoded(w: bv32, opId: bv7) // XOR, SRL, OR, AND
    requires 104 <= opId <= 107
    ensures Matches(w, opId) <==> DecodedId(w) == opId
  {
  }

  lemma MultipliesEncoded(w: bv32, opId: bv7) // MUL to MULHU
    requires 108 <= opId <= 111
    ensures Matches(w, opId) <==> DecodedId(w) == opId
  {
  }

  lemma DividesEncoded(w: bv32, opId: bv7) // DIV to REMU
    requires 112 <= opId <= 115
    ensures Matches(w, opId) <==> DecodedId(w) == opId
  {
  }

  lemma SystemEncoded(w: bv32, opId: bv7) // PRIV, CSRRW, CSRRS, CSRRC
    requires 116 <= opId <= 119
    ensures Matches(w, opId) <==> DecodedId(w) == opId
  {
  }

  lemma SystemImmediateEncoded(w: bv32, opId: bv7) // AUIPC, CSRRWI, CSRRSI, CSRRCI
    requires 120 <= opId <= 123
    ensures Matches(w, opId) <==> DecodedId(w) == opId
  {
  }

  lemma ShiftsEncoded(w: bv32, opId: bv7) // FENCE, SLLI, SRLI, SRAI
    requires 124 <= opId <= 127
    ensures Matches(w, opId) <==> DecodedId(w) == opId
  {
  }

  lemma CustomEncoded(w: bv32, opId: bv7) // MLOGSYS
    requires 1 <= opId <= 1
    ensures Matches(w, opId) <==> DecodedId(w) == opId
  {
  }

  lemma DecodedRange(w: bv32)
    ensures DecodedId(w) <= 1 || DecodedId(w) >= 64
  {
  }

  lemma NoEntry(w: bv32, opId: bv7)
    requires 2 <= opId < 64
    ensures !Matches(w, opId) && DecodedId(w) != opId
  {
    DecodedRange(w);
  }

  lemma LowerEncoded(w: bv32, opId: bv7)
    requires 64 <= opId < 96
    ensures DecodedId(w) == opId <==> Matches(w, opId)
  {
    if opId >= 92 {
      ImmediatesEncoded(w, opId);
    } else if opId >= 88 {
      AtomicsMinMaxEncoded(w, opId);
    } else if opId >= 85 {
      AtomicsLogicEncoded(w, opId);
    } else if opId >= 81 {
      AtomicsLowEncoded(w, opId);
    } else if opId >= 76 {
      LoadsStoresEncoded(w, opId);
    } else if opId >= 72 {
      LoadsEncoded(w, opId);
    } else if opId >= 68 {
      BranchesSignedEncoded(w, opId);
    } else {
      BranchesEncoded(w, opId);
    }
  }

  lemma UpperEncoded(w: bv32, opId: bv7)
    requires 96 <= opId
    ensures DecodedId(w) == opId <==> Matches(w, opId)
  {
    if opId >= 124 {
      ShiftsEncoded(w, opId);
    } else if opId >= 120 {
      SystemImmediateEncoded(w, opId);
    } else if opId >= 116 {
      SystemEncoded(w, opId);
    } else if opId >= 112 {
      DividesEncoded(w, opId);
    } else if opId >= 108 {
      MultipliesEncoded(w, opId);
    } else if opId >= 104 {
      RegistersLogicEncoded(w, opId);
    } else if opId >= 100 {
      RegistersEncoded(w, opId);
    } else {
      ImmediatesLogicEncoded(w, opId);
    }
  }

  /** The decoder agrees with the encoding table: a word has op_id `opId` exactly if it matches that entry, so no
      word matches two entries. */
  lemma DecodedIffMatches(w: bv32, opId: bv7)
    requires opId != ILLEGAL
    ensures DecodedId(w) == opId <==> Matches(w, opId)
  {
    if opId == 1 {
      CustomEncoded(w, opId);
    } else if opId < 64 {
      NoEntry(w, opId);
    } else if opId < 96 {
      LowerEncoded(w, opId);
    } else {
      UpperEncoded(w, opId);
    }
  }

  /** Illegal encodings are exactly the words that match no entry. */
  lemma IllegalIffNoMatch(w: bv32)
    ensures DecodedId(w) == ILLEGAL <==> forall opId: bv7 :: opId != ILLEGAL ==> !Matches(w, opId)
  {
    forall opId: bv7 | opId != ILLEGAL
      ensures DecodedId(w) == opId <==> Matches(w, opId)
    {
      DecodedIffMatches(w, opId);
    }
    if DecodedId(w) != ILLEGAL {
      assert Matches(w, DecodedId(w));
    }
  }

  // --- immediates -------------------------------------------------------------

  predicate SignBit(w: bv32) { w & 0x8000_0000 != 0 }

  function SignFill(w: bv32, high: bv32): bv32 { if SignBit(w) then high else 0 }

  function ImmI(w: bv32): bv32 { SignFill(w, 0xfffff000) | Funct12(w) }

  function ImmS(w: bv32): bv32 { SignFill(w, 0xfffff000) | ((w >> 25) << 5) | Rd(w) }

  function ImmB(w: bv32): bv32 {
    SignFill(w, 0xfffff000) | (((w >> 7) & 0x1) << 11) | (((w >> 25) & 0x3f) << 5) | (((w >> 8) & 0xf) << 1)
  }

  function ImmU(w: bv32): bv32 { (w >> 12) << 12 }

  function ImmJ(w: bv32): bv32 {
    SignFill(w, 0xfff00000) | (((w >> 12) & 0xff) << 12) | (((w >> 20) & 0x1) << 11) | (((w >> 21) & 0x3ff) << 1)
  }

  datatype Format = Register | Immediate | Unsigned | ShiftAmount | StoreType | Branch | Upper | JumpType

  /** The instruction format; the handlers of FENCE, SYSTEM and the left shifts expect the bare funct12. */
  function FormatOf(opcode: bv5, funct3: bv3, funct7: bv7): Format {
    if opcode == 0x0b || opcode == 0x0c then Register
    else if opcode == 0x08 then StoreType
    else if opcode == 0x18 then Branch
    else if opcode == 0x05 || opcode == 0x0d then Upper
    else if opcode == 0x1b then JumpType
    else if opcode == 0x02 || opcode == 0x03 || opcode == 0x1c then Unsigned
    else if opcode == 0x04 && (funct3 == 1 || funct3 == 5) then (if funct7 == 0 then Unsigned else ShiftAmount)
    else Immediate
  }

  /** The immediate as the handlers expect it; meaningless for the register format. */
  function ImmOf(format: Format, w: bv32): bv32 {
    match format
    case Register => 0
    case Immediate => ImmI(w)
    case Unsigned => Funct12(w)
    case ShiftAmount => Rs2(w)
    case StoreType => ImmS(w)
    case Branch => ImmB(w)
    case Upper => ImmU(w)
    case JumpType => ImmJ(w)
  }

  function WordFormat(w: bv32): Format { FormatOf(Opcode(w), Funct3(w), Funct7(w)) }

  /** The op_ids of the register format. */
  predicate IsRegisterId(opId: bv7) { 81 <= opId <= 91 || opId == 93 || opId == 97 || 100 <= opId <= 115 }

  lemma RegisterFormat(opcode: bv5, funct3: bv3, funct7: bv7)
    requires OpcodeId(opcode, funct3, funct7) != ILLEGAL
    ensures FormatOf(opcode, funct3, funct7) == Register <==> IsRegisterId(OpcodeId(opcode, funct3, funct7))
  {
  }

  lemma SameFormatKind(v: bv32, w: bv32)
    ensures DecodedId(v) == DecodedId(w) && DecodedId(w) != ILLEGAL ==>
              (WordFormat(v) == Register <==> WordFormat(w) == Register)
  {
    if DecodedId(v) == DecodedId(w) && DecodedId(w) != ILLEGAL {
      RegisterFormat(Opcode(v), Funct3(v), Funct7(v));
      RegisterFormat(Opcode(w), Funct3(w), Funct7(w));
    }
  }

  /** `opId` and `imm` are a correct decoding of `w`. */
  predicate Decodes(w: bv32, opId: bv7, imm: bv32) {
    && opId == DecodedId(w)
    && (opId != ILLEGAL && WordFormat(w) != Register ==> imm == ImmOf(WordFormat(w), w))
  }

  // --- the decoder ------------------------------------------------------------

  // The pieces of an immediate do not overlap, so adding them is merging them;
  // flipping and subtracting the sign bit fills the bits above it.

  lemma JalPieces(w: bv32)
    ensures ((w >> 11) & 0x100000) + (w & 0xff000) + ((w >> 9) & 0x800) + ((w >> 20) & 0x7fe)
            == ((w >> 11) & 0x100000) | (w & 0xff000) | ((w >> 9) & 0x800) | ((w >> 20) & 0x7fe)
  {
    assert ((w >> 11) & 0x100000) + (w & 0xff000) == ((w >> 11) & 0x100000) | (w & 0xff000);
    assert ((w >> 9) & 0x800) + ((w >> 20) & 0x7fe) == ((w >> 9) & 0x800) | ((w >> 20) & 0x7fe);
  }

  lemma Clear21(x: bv32)
    ensures ((x & 0xfffff) ^ 0x100000) - 0x100000 == x & 0xfffff
  {
  }

  lemma Set21(x: bv32)
    ensures (((x & 0xfffff) | 0x100000) ^ 0x100000) - 0x100000 == (x & 0xfffff) | 0xfff00000
  {
  }

  lemma Clear13(x: bv32)
    ensures ((x & 0xfff) ^ 0x1000) - 0x1000 == x & 0xfff
  {
  }

  lemma Set13(x: bv32)
    ensures (((x & 0xfff) | 0x1000) ^ 0x1000) - 0x1000 == (x & 0xfff) | 0xfffff000
  {
  }

  lemma Clear12(x: bv32)
    ensures ((x & 0x7ff) ^ 0x800) - 0x800 == x & 0x7ff
  {
  }

  lemma Set12(x: bv32)
    ensures (((x & 0x7ff) | 0x800) ^ 0x800) - 0x800 == (x & 0x7ff) | 0xfffff800
  {
  }

  lemma JalSign(w: bv32)
    ensures ((((w >> 11) & 0x100000) | (w & 0xff000) | ((w >> 9) & 0x800) | ((w >> 20) & 0x7fe)) ^ 0x100000) - 0x100000
            == ImmJ(w)
  {
    Clear21((w & 0xff000) | ((w >> 9) & 0x800) | ((w >> 20) & 0x7fe));
    Set21((w & 0xff000) | ((w >> 9) & 0x800) | ((w >> 20) & 0x7fe));
  }

  method JalImmediate(value: bv32, funct12: bv32) returns (imm: bv32)
    requires funct12 == Funct12(value)
    ensures imm == ImmJ(value)
  {
    JalPieces(value);
    JalSign(value);
    imm := ((value >> 11) & 0x100000) + (value & 0xff000) + ((value >> 9) & 0x800) + (funct12 & 0x7fe);
    imm := (imm ^ 0x100000) - 0x100000;
  }

  lemma BranchPieces(w: bv32)
    ensures ((w >> 19) & 0x1000) + ((w << 4) & 0x800) + ((w >> 20) & 0x7e0) + (((w >> 7) & 0x1f) & 0x1e)
            == ((w >> 19) & 0x1000) | ((w << 4) & 0x800) | ((w >> 20) & 0x7e0) | (((w >> 7) & 0x1f) & 0x1e)
  {
  }

  lemma BranchSign(w: bv32)
    ensures ((((w >> 19) & 0x1000) | ((w << 4) & 0x800) | ((w >> 20) & 0x7e0) | (((w >> 7) & 0x1f) & 0x1e)) ^ 0x1000)
            - 0x1000
            == ImmB(w)
  {
    Clear13(((w << 4) & 0x800) | ((w >> 20) & 0x7e0) | (((w >> 7) & 0x1f) & 0x1e));
    Set13(((w << 4) & 0x800) | ((w >> 20) & 0x7e0) | (((w >> 7) & 0x1f) & 0x1e));
  }

  method BranchImmediate(value: bv32, funct12: bv32, imm4_0: bv32) returns (imm: bv32)
    requires funct12 == Funct12(value) && imm4_0 == Rd(value)
    ensures imm == ImmB(value)
  {
    BranchPieces(value);
    BranchSign(value);
    imm := ((value >> 19) & 0x1000) + ((value << 4) & 0x800) + (funct12 & 0x7e0) + (imm4_0 & 0x1e);
    imm := (imm ^ 0x1000) - 0x1000;
  }

  lemma StorePieces(w: bv32)
    ensures ((w >> 25) << 5) + ((w >> 7) & 0x1f) == ((w >> 25) << 5) | ((w >> 7) & 0x1f)
  {
  }

  lemma StoreSign(w: bv32)
    ensures ((((w >> 25) << 5) | ((w >> 7) & 0x1f)) ^ 0x800) - 0x800 == ImmS(w)
  {
    Clear12(((w >> 25) << 5) | ((w >> 7) & 0x1f));
    Set12(((w >> 25) << 5) | ((w >> 7) & 0x1f));
  }

  method StoreImmediate(value: bv32, funct7: bv32, imm4_0: bv32) returns (imm: bv32)
    requires funct7 == value >> 25 && imm4_0 == Rd(value)
    ensures imm == ImmS(value)
  {
    StorePieces(value);
    StoreSign(value);
    imm := (funct7 << 5) + imm4_0;
    imm := (imm ^ 0x800) - 0x800;
  }

  lemma ImmediateSign(w: bv32)
    ensures ((w >> 20) ^ 0x800) - 0x800 == ImmI(w)
  {
    Clear12(w >> 20);
    Set12(w >> 20);
  }

  method ImmediateTypeImmediate(value: bv32, funct12: bv32) returns (imm: bv32)
    requires funct12 == Funct12(value)
    ensures imm == ImmI(value)
  {
    ImmediateSign(value);
    imm := (funct12 ^ 0x800) - 0x800;
  }

  // The decoding routines, one per major opcode.

  method DecodeBranch(value: bv32, funct12: bv32, funct3: bv3, imm4_0: bv32, stale: bv32) returns (opId: bv7, imm: bv32)
    requires funct12 == Funct12(value) && imm4_0 == Rd(value)
    ensures opId == BranchId(funct3) && (opId != ILLEGAL ==> imm == ImmB(value))
  {
    if funct3 == 2 || funct3 == 3 {
      return ILLEGAL, stale;
    }
    imm := BranchImmediate(value, funct12, imm4_0);
    opId := 64 + funct3 as bv7;
  }

  method DecodeLoad(value: bv32, funct12: bv32, funct3: bv3, stale: bv32) returns (opId: bv7, imm: bv32)
    requires funct12 == Funct12(value)
    ensures opId == LoadId(funct3) && (opId != ILLEGAL ==> imm == ImmI(value))
  {
    if funct3 == 3 {
      return ILLEGAL, stale;
    }
    opId := 72 + funct3 as bv7;
    if funct3 >= 6 {
      return ILLEGAL, stale;
    }
    imm := ImmediateTypeImmediate(value, funct12);
  }

  method DecodeStore(value: bv32, funct7: bv32, funct3: bv3, imm4_0: bv32) returns (opId: bv7, imm: bv32)
    requires funct7 == value >> 25 && imm4_0 == Rd(value)
    ensures opId == StoreId(funct3) && imm == ImmS(value)
  {
    imm := StoreImmediate(value, funct7, imm4_0);
    opId := if funct3 < 3 then 78 + funct3 as bv7 else ILLEGAL;
  }

  /** funct5 has bits set in [4:2] or in [1:0], never both. */
  method DecodeAmo(funct7: bv7, funct3: bv3) returns (opId: bv7)
    ensures opId == AmoId(funct3, (funct7 >> 2) as bv5)
  {
    if funct3 != 2 {
      return ILLEGAL;
    }
    var funct5 := funct7 >> 2;
    if funct5 <= 0x3 {
      return 81 + funct5;
    }
    var low := funct5 & 0x3;
    funct5 := funct5 >> 2;
    opId := if low == 0 then 84 + funct5 else ILLEGAL;
  }

  method DecodeOpImm(value: bv32, funct12: bv32, funct7: bv7, funct3: bv3) returns (opId: bv7, imm: bv32)
    requires funct12 == Funct12(value)
    ensures opId == OpImmId(funct3, funct7)
    ensures opId != ILLEGAL ==> imm == ImmOf(FormatOf(0x04, funct3, funct7), value)
  {
    if funct3 == 5 {
      if funct7 == 0x00 {
        return 126, funct12;
      }
      imm := funct12 & 0x1f;
      opId := if funct7 == 0x20 then 127 else ILLEGAL;
    } else if funct3 == 1 {
      imm := funct12;
      opId := if funct7 == 0x00 then 125 else ILLEGAL;
    } else {
      opId := 92 + funct3 as bv7;
      imm := ImmediateTypeImmediate(value, funct12);
    }
  }

  method DecodeOp(funct7: bv7, funct3: bv3) returns (opId: bv7)
    ensures opId == OpId(funct3, funct7)
  {
    opId := 100 + funct3 as bv7;
    if funct7 == 0x00 {
      return;
    }
    opId := 108 + funct3 as bv7;
    if funct7 == 0x01 {
      return;
    }
    if funct7 != 0x20 {
      return ILLEGAL;
    }
    opId := if funct3 == 0 then 93 else if funct3 == 5 then 97 else ILLEGAL;
  }

  method DecodeMiscMem(funct3: bv3) returns (opId: bv7)
    ensures opId == MiscMemId(funct3)
  {
    opId := if funct3 < 2 then 124 else ILLEGAL;
  }

  method DecodeSystem(funct3: bv3) returns (opId: bv7)
    ensures opId == SystemId(funct3)
  {
    opId := if funct3 != 4 then 116 + funct3 as bv7 else ILLEGAL;
  }

  method DecodeCustom(funct3: bv3) returns (opId: bv7)
    ensures opId == CustomId(funct3)
  {
    opId := if funct3 < 1 then 1 + funct3 as bv7 else ILLEGAL;
  }

  method DecodeUpper(value: bv32, opcode: bv5) returns (opId: bv7, imm: bv32)
    requires opcode == 0x0d || opcode == 0x05
    ensures opId == (if opcode == 0x0d then 75 else 120) && imm == ImmU(value)
  {
    opId := if opcode == 0x0d then 75 else 120;
    imm := value & 0xfffff000;
  }

  /** The lower half of the jump table on opcode[6:2]. */
  method DecodeLowOpcode(value: bv32, opcode: bv5, funct12: bv32, funct7: bv7, funct3: bv3, imm4_0: bv32, stale: bv32)
      returns (opId: bv7, imm: bv32)
    requires opcode < 0x0b
    requires funct12 == Funct12(value) && imm4_0 == Rd(value)
    ensures opId == OpcodeId(opcode, funct3, funct7)
    ensures opId != ILLEGAL ==> imm == ImmOf(FormatOf(opcode, funct3, funct7), value)
  {
    imm := stale;
    if opcode == 0x00 {
      opId, imm := DecodeLoad(value, funct12, funct3, stale);
    } else if opcode == 0x02 {
      opId := DecodeCustom(funct3);
      imm := funct12;
    } else if opcode == 0x03 {
      opId := DecodeMiscMem(funct3);
      imm := funct12;
    } else if opcode == 0x04 {
      opId, imm := DecodeOpImm(value, funct12, funct7, funct3);
    } else if opcode == 0x05 {
      opId, imm := DecodeUpper(value, opcode);
    } else if opcode == 0x08 {
      opId, imm := DecodeStore(value, value >> 25, funct3, imm4_0);
    } else {
      opId := ILLEGAL;
    }
  }

  /** The upper half of the jump table. */
  method DecodeHighOpcode(value: bv32, opcode: bv5, funct12: bv32, funct7: bv7, funct3: bv3, imm4_0: bv32, stale: bv32)
      returns (opId: bv7, imm: bv32)
    requires opcode >= 0x0b
    requires funct12 == Funct12(value) && imm4_0 == Rd(value)
    ensures opId == OpcodeId(opcode, funct3, funct7)
    ensures opId != ILLEGAL && FormatOf(opcode, funct3, funct7) != Register ==>
              imm == ImmOf(FormatOf(opcode, funct3, funct7), value)
  {
    imm := stale;
    if opcode == 0x0b {
      opId := DecodeAmo(funct7, funct3);
    } else if opcode == 0x0c {
      opId := DecodeOp(funct7, funct3);
    } else if opcode == 0x0d {
      opId, imm := DecodeUpper(value, opcode);
    } else if opcode == 0x18 {
      opId, imm := DecodeBranch(value, funct12, funct3, imm4_0, stale);
    } else if opcode == 0x19 {
      opId := 67;
      imm := ImmediateTypeImmediate(value, funct12);
    } else if opcode == 0x1b {
      opId := 66;
      imm := JalImmediate(value, funct12);
    } else if opcode == 0x1c {
      opId := DecodeSystem(funct3);
      imm := funct12;
    } else {
      opId := ILLEGAL;
    }
  }

  /** decode, from the entry point to end_decode; `stale` is what the previous instruction left in `imm`. */
  method DecodeFields(value: bv32, stale: bv32) returns (opId: bv7, imm: bv32)
    ensures Decodes(value, opId, imm)
  {
    if value & 0x3 != 0x3 {
      return ILLEGAL, stale;
    }
    if Opcode(value) < 0x0b {
      opId, imm := DecodeLowOpcode(value, Opcode(value), Funct12(value), Funct7(value), Funct3(value), Rd(value),
                                   stale);
    } else {
      opId, imm := DecodeHighOpcode(value, Opcode(value), Funct12(value), Funct7(value), Funct3(value), Rd(value),
                                    stale);
    }
  }

  // --- the cached form --------------------------------------------------------

  // A payload holds op_id in [53:47], rs2 in [46:42], rs1 in [41:37], rd in [36:32] and imm in [31:0].

  function PayloadId(p: bv54): bv7 { (p >> 47) as bv7 }
  function PayloadImm(p: bv54): bv32 { (p & 0xffff_ffff) as bv32 }
  function PayloadRd(p: bv54): bv32 { ((p >> 32) & 0x1f) as bv32 }
  function PayloadRs1(p: bv54): bv32 { ((p >> 37) & 0x1f) as bv32 }
  function PayloadRs2(p: bv54): bv32 { ((p >> 42) & 0x1f) as bv32 }

  /** The payload is a correct decoding of `w`: same op_id and, for a legal instruction, same registers and
      immediate. */
  predicate Caches(p: bv54, w: bv32) {
    && Decodes(w, PayloadId(p), PayloadImm(p))
    && (PayloadId(p) != ILLEGAL ==> PayloadRd(p) == Rd(w) && PayloadRs1(p) == Rs1(w) && PayloadRs2(p) == Rs2(w))
  }

  lemma PackIllegalBits(w: bv32, imm: bv32)
    ensures PayloadId(((0 as bv54) << 47) | ((w & 0x1ff8000) as bv54) | (imm as bv54)) == ILLEGAL
  {
  }

  // The worker packs with `shl` and `or` on signed 64-bit numbers, and the result is kept in a double.

  function SignExtended(opId: bv7): bv64 {
    if opId & 0x40 != 0 then (opId as bv64) | 0xffff_ffff_ffff_ff80 else opId as bv64
  }

  /** An op_id as a number from -64 to 63. */
  function SignedId(opId: bv7): int { if opId & 0x40 != 0 then opId as int - 128 else opId as int }

  function SignedLong(x: bv64): int {
    if x & 0x8000_0000_0000_0000 != 0 then x as int - 0x1_0000_0000_0000_0000 else x as int
  }

  function PayloadNumber(id: int, rs2: int, rs1: int, rd: int, imm: int): int {
    id * 0x8000_0000_0000 + rs2 * 0x400_0000_0000 + rs1 * 0x20_0000_0000 + rd * 0x1_0000_0000 + imm
  }

  predicate FieldRanges(id: int, rs2: int, rs1: int, rd: int, imm: int) {
    -64 <= id < 64 && 0 <= rs2 < 32 && 0 <= rs1 < 32 && 0 <= rd < 32 && 0 <= imm < 0x1_0000_0000
  }

  /** Every payload is an integer that a double holds exactly. */
  lemma PayloadMagnitude(id: int, rs2: int, rs1: int, rd: int, imm: int)
    requires FieldRanges(id, rs2, rs1, rd, imm)
    ensures -0x20_0000_0000_0000 <= PayloadNumber(id, rs2, rs1, rd, imm) < 0x20_0000_0000_0000
  {
  }

  /** The arithmetic shifts and masks of the fetch give every field back. */
  lemma PayloadFields(id: int, rs2: int, rs1: int, rd: int, imm: int)
    requires FieldRanges(id, rs2, rs1, rd, imm)
    ensures var p := PayloadNumber(id, rs2, rs1, rd, imm);
            && p / 0x8000_0000_0000 == id && p / 0x400_0000_0000 % 32 == rs2 && p / 0x20_0000_0000 % 32 == rs1
            && p / 0x1_0000_0000 % 32 == rd && p % 0x1_0000_0000 == imm
  {
    var d := id * 32 + rs2;
    var c := d * 32 + rs1;
    var b := c * 32 + rd;
    assert PayloadNumber(id, rs2, rs1, rd, imm) == b * 0x1_0000_0000 + imm;
    AboveImm(b, imm);
    AboveRd(c, rd * 0x1_0000_0000 + imm);
    AboveRs1(d, rs1 * 0x20_0000_0000 + rd * 0x1_0000_0000 + imm);
    AboveRs2(id, rs2 * 0x400_0000_0000 + rs1 * 0x20_0000_0000 + rd * 0x1_0000_0000 + imm);
  }

  lemma AboveImm(high: int, low: int)
    requires 0 <= low < 0x1_0000_0000
    ensures (high * 0x1_0000_0000 + low) / 0x1_0000_0000 == high && (high * 0x1_0000_0000 + low) % 0x1_0000_0000 == low
  {
  }

  lemma AboveRd(high: int, low: int)
    requires 0 <= low < 0x20_0000_0000
    ensures (high * 0x20_0000_0000 + low) / 0x20_0000_0000 == high
    ensures (high * 0x20_0000_0000 + low) % 0x20_0000_0000 == low
  {
  }

  lemma AboveRs1(high: int, low: int)
    requires 0 <= low < 0x400_0000_0000
    ensures (high * 0x400_0000_0000 + low) / 0x400_0000_0000 == high
    ensures (high * 0x400_0000_0000 + low) % 0x400_0000_0000 == low
  {
  }

  lemma AboveRs2(high: int, low: int)
    requires 0 <= low < 0x8000_0000_0000
    ensures (high * 0x8000_0000_0000 + low) / 0x8000_0000_0000 == high
    ensures (high * 0x8000_0000_0000 + low) % 0x8000_0000_0000 == low
  {
  }

  lemma JoinedFields(high: bv17, rs2: bv5, rs1: bv5, rd: bv5, imm: bv32)
    ensures (((high as bv64) << 47) | ((rs2 as bv64) << 42) | ((rs1 as bv64) << 37) | ((rd as bv64) << 32)
             | (imm as bv64)) as int
         == (high as int) * 0x8000_0000_0000 + (rs2 as int) * 0x400_0000_0000 + (rs1 as int) * 0x20_0000_0000
            + (rd as int) * 0x1_0000_0000 + imm as int
  {
  }

  function High17(opId: bv7): bv17 { if opId & 0x40 != 0 then (opId as bv17) | 0x1ff80 else opId as bv17 }

  lemma High17Number(opId: bv7)
    ensures High17(opId) as int == if opId & 0x40 != 0 then SignedId(opId) + 0x2_0000 else SignedId(opId)
  {
  }

  function Reg5(r: bv32): bv5 { (r & 0x1f) as bv5 }

  lemma PackedLong(w: bv32, opId: bv7, imm: bv32)
    ensures (SignExtended(opId) << 47) | ((((w & 0x1ff8000) as bv64) << 22) + (((w & 0xf80) as bv64) << 25))
            | (imm as bv64)
         == ((High17(opId) as bv64) << 47) | ((Reg5(Rs2(w)) as bv64) << 42) | ((Reg5(Rs1(w)) as bv64) << 37)
            | ((Reg5(Rd(w)) as bv64) << 32) | (imm as bv64)
  {
  }

  /** `x` is made of these fields; kept folded. */
  ghost predicate Joins(x: bv64, high: bv17, rs2: bv5, rs1: bv5, rd: bv5, imm: bv32) {
    forall u: int :: Unfold(u) ==>
      x == ((high as bv64) << 47) | ((rs2 as bv64) << 42) | ((rs1 as bv64) << 37) | ((rd as bv64) << 32) | (imm as bv64)
  }

  lemma JoinsNumber(x: bv64, high: bv17, rs2: bv5, rs1: bv5, rd: bv5, imm: bv32)
    requires Joins(x, high, rs2, rs1, rd, imm)
    ensures x as int == PayloadNumber(high as int, rs2 as int, rs1 as int, rd as int, imm as int)
  {
    assert Unfold(0);
    JoinedFields(high, rs2, rs1, rd, imm);
  }

  lemma JoinsSign(x: bv64, high: bv17, rs2: bv5, rs1: bv5, rd: bv5, imm: bv32)
    requires Joins(x, high, rs2, rs1, rd, imm)
    ensures x & 0x8000_0000_0000_0000 != 0 <==> high & 0x1_0000 != 0
  {
    assert Unfold(0);
  }

  lemma SignOfHigh(opId: bv7)
    ensures High17(opId) & 0x1_0000 != 0 <==> opId & 0x40 != 0
  {
  }

  /** A number as a signed one, by its sign bit. */
  lemma LongValue(x: bv64, negative: bool, n: int)
    requires (x & 0x8000_0000_0000_0000 != 0) == negative && x as int == n
    ensures SignedLong(x) == if negative then n - 0x1_0000_0000_0000_0000 else n
  {
  }

  lemma LowerHigh(high: int, rs2: int, rs1: int, rd: int, imm: int)
    ensures PayloadNumber(high, rs2, rs1, rd, imm) - 0x1_0000_0000_0000_0000
         == PayloadNumber(high - 0x2_0000, rs2, rs1, rd, imm)
  {
  }

  lemma LongSign(x: bv64, opId: bv7, rs2: bv5, rs1: bv5, rd: bv5, imm: bv32)
    requires Joins(x, High17(opId), rs2, rs1, rd, imm)
    ensures x & 0x8000_0000_0000_0000 != 0 <==> opId & 0x40 != 0
  {
    JoinsSign(x, High17(opId), rs2, rs1, rd, imm);
    SignOfHigh(opId);
  }

  lemma LongSum(s: int, n: int, negative: bool, high: int, id: int, rs2: int, rs1: int, rd: int, imm: int)
    requires s == if negative then n - 0x1_0000_0000_0000_0000 else n
    requires n == PayloadNumber(high, rs2, rs1, rd, imm) && high == if negative then id + 0x2_0000 else id
    ensures s == PayloadNumber(id, rs2, rs1, rd, imm)
  {
    LowerHigh(high, rs2, rs1, rd, imm);
  }

  lemma JoinsLong(x: bv64, high: bv17, negative: bool, id: int, rs2: bv5, rs1: bv5, rd: bv5, imm: bv32)
    requires Joins(x, high, rs2, rs1, rd, imm) && (x & 0x8000_0000_0000_0000 != 0) == negative
    requires high as int == if negative then id + 0x2_0000 else id
    ensures SignedLong(x) == PayloadNumber(id, rs2 as int, rs1 as int, rd as int, imm as int)
  {
    JoinsNumber(x, high, rs2, rs1, rd, imm);
    LongValue(x, negative, x as int);
    LongSum(SignedLong(x), x as int, negative, high as int, id, rs2 as int, rs1 as int, rd as int, imm as int);
  }

  /** The packed 64-bit number is the payload number of its fields, op_id with its sign. */
  lemma LongNumber(x: bv64, opId: bv7, rs2: bv5, rs1: bv5, rd: bv5, imm: bv32)
    requires Joins(x, High17(opId), rs2, rs1, rd, imm)
    ensures SignedLong(x) == PayloadNumber(SignedId(opId), rs2 as int, rs1 as int, rd as int, imm as int)
  {
    LongSign(x, opId, rs2, rs1, rd, imm);
    High17Number(opId);
    JoinsLong(x, High17(opId), opId & 0x40 != 0, SignedId(opId), rs2, rs1, rd, imm);
  }

  /** The packing instructions on 64-bit numbers; the double holds the low 54 bits, sign included. */
  method PackLong(value: bv32, opId: bv7, imm: bv32) returns (x: bv64)
    ensures Joins(x, High17(opId), Reg5(Rs2(value)), Reg5(Rs1(value)), Reg5(Rd(value)), imm)
  {
    PackedLong(value, opId, imm);
    x := (SignExtended(opId) << 47) | ((((value & 0x1ff8000) as bv64) << 22) + (((value & 0xf80) as bv64) << 25))
         | (imm as bv64);
  }

  lemma JoinsPayload(x: bv64, opId: bv7, w: bv32, imm: bv32)
    requires Joins(x, High17(opId), Reg5(Rs2(w)), Reg5(Rs1(w)), Reg5(Rd(w)), imm)
    ensures var p := (x & 0x3f_ffff_ffff_ffff) as bv54;
            && PayloadId(p) == opId && PayloadImm(p) == imm
            && PayloadRd(p) == Rd(w) && PayloadRs1(p) == Rs1(w) && PayloadRs2(p) == Rs2(w)
  {
    assert Unfold(0);
  }

  /** decode with its packing: the payload that end_decode writes to the cache. */
  method Decode(value: bv32, stale: bv32) returns (opId: bv7, imm: bv32, payload: bv54)
    ensures Decodes(value, opId, imm)
    ensures Caches(payload, value)
  {
    opId, imm := DecodeFields(value, stale);
    payload := Pack(value, opId, imm);
  }

  /** Register fields shifted into place, unless the two low bits already showed that this is no instruction; op_id
      and imm merged in. */
  method Pack(value: bv32, opId: bv7, imm: bv32) returns (payload: bv54)
    requires value & 0x3 != 0x3 ==> opId == ILLEGAL
    ensures PayloadId(payload) == opId
    ensures opId != ILLEGAL ==> PayloadImm(payload) == imm
    ensures opId != ILLEGAL ==>
              PayloadRd(payload) == Rd(value) && PayloadRs1(payload) == Rs1(value) && PayloadRs2(payload) == Rs2(value)
  {
    if value & 0x3 != 0x3 {
      PackIllegalBits(value, imm);
      payload := ((0 as bv54) << 47) | ((value & 0x1ff8000) as bv54) | (imm as bv54);
    } else {
      var x := PackLong(value, opId, imm);
      JoinsPayload(x, opId, value, imm);
      payload := (x & 0x3f_ffff_ffff_ffff) as bv54;
    }
  }

  /** A null cache cell reads as zero, which is a correct decoding of a zero word. */
  lemma NullCaches()
    ensures Caches(0, 0)
  {
  }
}
