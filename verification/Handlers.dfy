/**
  The handler table, and that it agrees with the instruction set.

  The worker jumps to the handler of an op_id with the fields that decode left.
  `FieldsMean` says that those are the operation and the operands of the word, for
  every word and every correct decoding of it.
 */
module Handlers {
  import opened Options
  import opened Decoder
  import opened Isa
  import Alu
  import Atomics
  import Privilege
  import Fetch

  // Entries of the table, by op_id (two's complement, 7 bits).

  function BranchHandler(opId: bv7): Op {
    if opId == 64 then Op.Branch(Alu.Equal)
    else if opId == 65 then Op.Branch(Alu.NotEqual)
    else if opId == 66 then Jal
    else if opId == 67 then Jalr
    else if opId == 68 then Op.Branch(Alu.Below)
    else if opId == 69 then Op.Branch(Alu.AboveOrEqual)
    else if opId == 70 then Op.Branch(Alu.BelowU)
    else Op.Branch(Alu.AboveOrEqualU)
  }

  function MemoryHandler(opId: bv7): Op {
    if opId == 72 then LoadInt(1, true)
    else if opId == 73 then LoadInt(2, true)
    else if opId == 74 then LoadInt(4, false)
    else if opId == 75 then Lui
    else if opId == 76 then LoadInt(1, false)
    else if opId == 77 then LoadInt(2, false)
    else if opId == 78 then StoreInt(1)
    else if opId == 79 then StoreInt(2)
    else StoreInt(4)
  }

  function AtomicHandler(opId: bv7): Op {
    if opId == 81 then Atomic(Atomics.Add)
    else if opId == 82 then Atomic(Atomics.Swap)
    else if opId == 83 then Reserve
    else if opId == 84 then Conditional
    else if opId == 85 then Atomic(Atomics.Xor)
    else if opId == 86 then Atomic(Atomics.Or)
    else if opId == 87 then Atomic(Atomics.And)
    else if opId == 88 then Atomic(Atomics.Min)
    else if opId == 89 then Atomic(Atomics.Max)
    else if opId == 90 then Atomic(Atomics.MinU)
    else Atomic(Atomics.MaxU)
  }

  function ImmediateHandler(opId: bv7): Op {
    if opId == 92 then Arith(Alu.Addition, true)
    else if opId == 93 then Arith(Alu.Subtraction, false)
    else if opId == 94 then Arith(Alu.Less, true)
    else if opId == 95 then Arith(Alu.LessU, true)
    else if opId == 96 then Arith(Alu.Exclusive, true)
    else if opId == 97 then Arith(Alu.RightSigned, false)
    else if opId == 98 then Arith(Alu.Either, true)
    else Arith(Alu.Both, true)
  }

  function RegisterHandler(opId: bv7): Op {
    if opId == 100 then Arith(Alu.Addition, false)
    else if opId == 101 then Arith(Alu.Left, false)
    else if opId == 102 then Arith(Alu.Less, false)
    else if opId == 103 then Arith(Alu.LessU, false)
    else if opId == 104 then Arith(Alu.Exclusive, false)
    else if opId == 105 then Arith(Alu.Right, false)
    else if opId == 106 then Arith(Alu.Either, false)
    else Arith(Alu.Both, false)
  }

  function MultiplyHandler(opId: bv7): Op {
    if opId == 108 then Arith(Alu.Product, false)
    else if opId == 109 then Arith(Alu.High, false)
    else if opId == 110 then Arith(Alu.HighMixed, false)
    else if opId == 111 then Arith(Alu.HighU, false)
    else if opId == 112 then Arith(Alu.Quotient, false)
    else if opId == 113 then Arith(Alu.QuotientU, false)
    else if opId == 114 then Arith(Alu.Rest, false)
    else Arith(Alu.RestU, false)
  }

  function SystemHandler(opId: bv7): Op {
    if opId == 116 then Priv
    else if opId == 117 then CsrModify(Privilege.ReadWrite, false)
    else if opId == 118 then CsrModify(Privilege.SetBits, false)
    else if opId == 119 then CsrModify(Privilege.ClearBits, false)
    else if opId == 120 then Auipc
    else if opId == 121 then CsrModify(Privilege.ReadWrite, true)
    else if opId == 122 then CsrModify(Privilege.SetBits, true)
    else if opId == 123 then CsrModify(Privilege.ClearBits, true)
    else if opId == 124 then Fence
    else if opId == 125 then Arith(Alu.Left, true)
    else if opId == 126 then Arith(Alu.Right, true)
    else Arith(Alu.RightSigned, true)
  }

  function HandlerOf(opId: bv7): Op {
    if opId == 1 then InitIcache
    else if opId < 64 then Op.Illegal
    else if opId < 72 then BranchHandler(opId)
    else if opId < 81 then MemoryHandler(opId)
    else if opId < 92 then AtomicHandler(opId)
    else if opId < 100 then ImmediateHandler(opId)
    else if opId < 108 then RegisterHandler(opId)
    else if opId < 116 then MultiplyHandler(opId)
    else SystemHandler(opId)
  }

  // --- the table agrees with the instruction set ------------------------------

  /** The table agrees with the instruction set at an opcode; kept folded. */
  ghost predicate AgreesAt(opcode: bv5, funct3: bv3, funct7: bv7) {
    forall u: int :: Unfold(u) ==> HandlerOf(OpcodeId(opcode, funct3, funct7)) == OpAt(opcode, funct3, funct7)
  }

  lemma LoadOpcode(funct3: bv3, funct7: bv7)
    ensures AgreesAt(0x00, funct3, funct7)
  {
  }

  lemma ImmediateOpcode(funct3: bv3, funct7: bv7)
    ensures AgreesAt(0x04, funct3, funct7)
  {
  }

  lemma StoreOpcode(funct3: bv3, funct7: bv7)
    ensures AgreesAt(0x08, funct3, funct7)
  {
  }

  lemma AmoOpcode(funct3: bv3, funct7: bv7)
    ensures AgreesAt(0x0b, funct3, funct7)
  {
  }

  lemma RegisterOpcode(funct3: bv3, funct7: bv7)
    ensures AgreesAt(0x0c, funct3, funct7)
  {
  }

  lemma BranchOpcode(funct3: bv3, funct7: bv7)
    ensures AgreesAt(0x18, funct3, funct7)
  {
  }

  lemma SystemOpcode(funct3: bv3, funct7: bv7)
    ensures AgreesAt(0x1c, funct3, funct7)
  {
  }

  lemma OtherOpcodes(opcode: bv5, funct3: bv3, funct7: bv7)
    requires opcode != 0x00 && opcode != 0x04 && opcode != 0x08 && opcode != 0x0b && opcode != 0x0c && opcode != 0x18
    requires opcode != 0x1c
    ensures AgreesAt(opcode, funct3, funct7)
  {
  }

  lemma HandlerOfOpcode(opcode: bv5, funct3: bv3, funct7: bv7)
    ensures AgreesAt(opcode, funct3, funct7)
  {
    if opcode == 0x00 {
      LoadOpcode(funct3, funct7);
    } else if opcode == 0x04 {
      ImmediateOpcode(funct3, funct7);
    } else if opcode == 0x08 {
      StoreOpcode(funct3, funct7);
    } else if opcode == 0x0b {
      AmoOpcode(funct3, funct7);
    } else if opcode == 0x0c {
      RegisterOpcode(funct3, funct7);
    } else if opcode == 0x18 {
      BranchOpcode(funct3, funct7);
    } else if opcode == 0x1c {
      SystemOpcode(funct3, funct7);
    } else {
      OtherOpcodes(opcode, funct3, funct7);
    }
  }

  /** The handler of a word's op_id is its operation. */
  lemma HandlerMeans(w: bv32)
    ensures HandlerOf(DecodedId(w)) == OpOfWord(w)
    ensures DecodedId(w) == ILLEGAL <==> OpOfWord(w) == Op.Illegal
  {
    HandlerOfOpcode(Opcode(w), Funct3(w), Funct7(w));
    assert Unfold(0);
    DecodedRange(w);
    OnlyIllegal(DecodedId(w));
  }

  lemma OnlyIllegal(opId: bv7)
    requires opId <= 1 || opId >= 64
    ensures HandlerOf(opId) == Op.Illegal <==> opId == ILLEGAL
  {
  }

  // --- immediates -------------------------------------------------------------

  lemma WidenedShift(x: bv5)
    ensures (x as bv32) as int == x as int
  {
  }

  lemma WidenedAddress(x: bv12)
    ensures (x as bv32) as int == x as int
  {
  }

  lemma ShortShift(w: bv32)
    requires Funct7(w) == 0
    ensures Funct12(w) == Isa.ShiftAmount(w) as bv32
  {
  }

  lemma LongShift(w: bv32)
    ensures Rs2(w) == Isa.ShiftAmount(w) as bv32
  {
  }

  lemma AddressBits(w: bv32)
    ensures Funct12(w) == CsrAddress(w) as bv32
  {
  }

  /** A format of the decoder that gives the immediates of a type. */
  predicate Gives(format: Format, t: ImmType, funct7: bv7) {
    match t
    case TypeI => format == Immediate
    case TypeS => format == StoreType
    case TypeB => format == Decoder.Branch
    case TypeU => format == Upper
    case TypeJ => format == JumpType
    case TypeCsr => format == Unsigned
    case TypeShift => format == if funct7 == 0 then Unsigned else Decoder.ShiftAmount
  }

  lemma ShiftNumber(w: bv32, format: Format)
    requires format == if Funct7(w) == 0 then Unsigned else Decoder.ShiftAmount
    ensures Decoder.ImmOf(format, w) as int == ImmNumber(TypeShift, w)
  {
    if Funct7(w) == 0 {
      ShortShift(w);
    } else {
      LongShift(w);
    }
    WidenedShift(Isa.ShiftAmount(w));
  }

  lemma CsrNumber(w: bv32)
    ensures Decoder.ImmOf(Unsigned, w) as int == ImmNumber(TypeCsr, w)
  {
    AddressBits(w);
    WidenedAddress(CsrAddress(w));
  }

  lemma SignedNumbers(w: bv32)
    ensures Decoder.ImmOf(Immediate, w) as int == ImmNumber(TypeI, w)
    ensures Decoder.ImmOf(StoreType, w) as int == ImmNumber(TypeS, w)
    ensures Decoder.ImmOf(Decoder.Branch, w) as int == ImmNumber(TypeB, w)
    ensures Decoder.ImmOf(Upper, w) as int == ImmNumber(TypeU, w)
    ensures Decoder.ImmOf(JumpType, w) as int == ImmNumber(TypeJ, w)
  {
  }

  lemma GivesNumber(w: bv32, format: Format, t: ImmType)
    requires Gives(format, t, Funct7(w))
    ensures Decoder.ImmOf(format, w) as int == ImmNumber(t, w)
  {
    if t == TypeShift {
      ShiftNumber(w, format);
    } else if t == TypeCsr {
      CsrNumber(w);
    } else {
      SignedNumbers(w);
    }
  }

  lemma ImmediateGives(funct3: bv3, funct7: bv7)
    requires ImmediateAt(funct3, funct7) != Op.Illegal
    ensures Gives(FormatOf(0x04, funct3, funct7), ImmTypeOf(ImmediateAt(funct3, funct7)), funct7)
  {
  }

  lemma SystemOps(funct3: bv3)
    ensures SystemAt(funct3) == Op.Illegal || SystemAt(funct3) == Priv || SystemAt(funct3).CsrModify?
  {
  }

  lemma SystemIsUnsigned(opcode: bv5, funct3: bv3, funct7: bv7)
    requires opcode == 0x1c
    ensures FormatOf(opcode, funct3, funct7) == Unsigned
  {
  }

  lemma PlainGives(opcode: bv5, funct3: bv3, funct7: bv7)
    requires opcode != 0x04 && opcode != 0x1c && UsesImm(OpAt(opcode, funct3, funct7))
    ensures Gives(FormatOf(opcode, funct3, funct7), ImmTypeOf(OpAt(opcode, funct3, funct7)), funct7)
  {
  }

  /** The decoder's format of an instruction is the one of its immediate. */
  lemma FormatGives(opcode: bv5, funct3: bv3, funct7: bv7)
    requires OpAt(opcode, funct3, funct7) != Op.Illegal && UsesImm(OpAt(opcode, funct3, funct7))
    ensures Gives(FormatOf(opcode, funct3, funct7), ImmTypeOf(OpAt(opcode, funct3, funct7)), funct7)
    ensures FormatOf(opcode, funct3, funct7) != Register
  {
    if opcode == 0x04 {
      ImmediateGives(funct3, funct7);
    } else if opcode == 0x1c {
      SystemOps(funct3);
      SystemIsUnsigned(opcode, funct3, funct7);
    } else {
      PlainGives(opcode, funct3, funct7);
    }
  }

  /** The immediate by format is the immediate by operation. */
  lemma FormatMeans(w: bv32, op: Op)
    requires op == OpAt(Opcode(w), Funct3(w), Funct7(w)) && op != Op.Illegal && UsesImm(op)
    ensures WordFormat(w) != Register && Decoder.ImmOf(WordFormat(w), w) as int == Isa.ImmOf(op, w)
  {
    FormatGives(Opcode(w), Funct3(w), Funct7(w));
    GivesNumber(w, WordFormat(w), ImmTypeOf(op));
  }

  // --- the fields -------------------------------------------------------------

  /** The operation and the operands that a handler starts with. */
  function Dispatched(f: Fetch.Fields): Instruction {
    Instruction(HandlerOf(f.opId), Reg5(f.rd) as int, Reg5(f.rs1) as int, Reg5(f.rs2) as int, f.imm as int)
  }

  /** Without what the handler does not read. */
  function Essence(i: Instruction): Instruction {
    if i.op == Op.Illegal then Instruction(Op.Illegal, 0, 0, 0, 0) else if UsesImm(i.op) then i else i.(imm := 0)
  }

  lemma ImmMeans(f: Fetch.Fields, w: bv32)
    requires Fetch.Fits(f, w) && OpOfWord(w) != Op.Illegal && UsesImm(OpOfWord(w)) && f.opId != ILLEGAL
    ensures f.imm as int == Isa.ImmOf(OpOfWord(w), w)
  {
    FormatMeans(w, OpOfWord(w));
  }

  /** Any correct decoding of a word, stale immediates and all, dispatches the word's instruction. */
  lemma FieldsMean(f: Fetch.Fields, w: bv32)
    requires Fetch.Decoded(f, w)
    ensures Essence(Dispatched(f)) == Meaning(w)
  {
    assert Unfold(0);
    HandlerMeans(w);
    if OpOfWord(w) != Op.Illegal && UsesImm(OpOfWord(w)) {
      ImmMeans(f, w);
    }
  }

  predicate InRanges(i: Instruction) {
    IsRegister(i.rd) && IsRegister(i.rs1) && IsRegister(i.rs2) && 0 <= i.imm < 0x1_0000_0000
  }

  lemma DispatchedRanges(f: Fetch.Fields)
    ensures InRanges(Dispatched(f))
  {
  }

  /** Only operations that read their immediate restrict it. */
  lemma EssenceValid(i: Instruction)
    requires InRanges(i) && ValidInstruction(Essence(i))
    ensures ValidInstruction(i)
  {
  }

  lemma DispatchedValid(f: Fetch.Fields, w: bv32)
    requires Essence(Dispatched(f)) == Meaning(w)
    ensures ValidInstruction(Dispatched(f))
  {
    MeaningValid(w);
    DispatchedRanges(f);
    EssenceValid(Dispatched(f));
  }

  /** What the handler does not read makes no difference. */
  lemma EssenceSame(b: Board, s: Cpu, i: Instruction, input: Input)
    requires ValidBoard(b) && Sound(b, s) && ValidInstruction(i) && ValidInstruction(Essence(i))
    ensures Execute(b, s, Essence(i), input) == Execute(b, s, i, input)
  {
  }

  lemma EssenceAstray(b: Board, s: Cpu, i: Instruction)
    requires ValidBoard(b) && Sound(b, s) && ValidInstruction(i) && ValidInstruction(Essence(i))
    ensures StoresAstray(b, s, Essence(i)) == StoresAstray(b, s, i)
  {
  }

  /** The op_ids of the atomics are those of the operation table. */
  lemma AtomicIds(opId: bv7)
    requires HandlerOf(opId).Atomic?
    ensures Atomics.IsAmo(SignedId(opId)) && Atomics.OpOf(SignedId(opId)) == HandlerOf(opId).amo
  {
  }
}
