/**
  Assembling an instruction and decoding the word gives the instruction back.

  `Assemble` puts the fields of an instruction where the manual has them (chapter 24
  of the RISC-V Unprivileged ISA, version 20191213; custom-0 is the machine's own
  cache instruction); `Isa.Meaning` takes them out again.
 */
module Assembler {
  import opened Options
  import opened Isa
  import opened Decoder
  import Alu
  import Atomics
  import Immediates
  import Privilege

  // --- the fixed bits ---------------------------------------------------------

  function BranchBase(condition: Alu.Condition): bv32 {
    match condition
    case Equal => 0x63
    case NotEqual => 0x1063
    case Below => 0x4063
    case AboveOrEqual => 0x5063
    case BelowU => 0x6063
    case AboveOrEqualU => 0x7063
  }

  function AtomicBase(amo: Atomics.AmoOp): bv32 {
    match amo
    case Add => 0x202f
    case Swap => 0x800202f
    case Xor => 0x2000202f
    case Or => 0x4000202f
    case And => 0x6000202f
    case Min => 0x8000202f
    case Max => 0xa000202f
    case MinU => 0xc000202f
    case MaxU => 0xe000202f
  }

  function RegisterBase(alu: Alu.AluOp): bv32 {
    match alu
    case Addition => 0x33
    case Subtraction => 0x4000_0033
    case Left => 0x1033
    case Less => 0x2033
    case LessU => 0x3033
    case Exclusive => 0x4033
    case Right => 0x5033
    case RightSigned => 0x4000_5033
    case Either => 0x6033
    case Both => 0x7033
    case Product => 0x200_0033
    case High => 0x200_1033
    case HighMixed => 0x200_2033
    case HighU => 0x200_3033
    case Quotient => 0x200_4033
    case QuotientU => 0x200_5033
    case Rest => 0x200_6033
    case RestU => 0x200_7033
  }

  /** Of the immediate forms there are nine. */
  predicate HasImmediate(alu: Alu.AluOp) {
    || alu == Alu.Addition || alu == Alu.Less || alu == Alu.LessU || alu == Alu.Exclusive || alu == Alu.Either
    || alu == Alu.Both || Alu.IsShift(alu)
  }

  function ImmediateBase(alu: Alu.AluOp): bv32
    requires HasImmediate(alu)
  {
    match alu
    case Addition => 0x13
    case Less => 0x2013
    case LessU => 0x3013
    case Exclusive => 0x4013
    case Either => 0x6013
    case Both => 0x7013
    case Left => 0x1013
    case Right => 0x5013
    case RightSigned => 0x4000_5013
  }

  function CsrBase(op: Privilege.CsrOp, uimm: bool): bv32 {
    match op
    case ReadWrite => if uimm then 0x5073 else 0x1073
    case SetBits => if uimm then 0x6073 else 0x2073
    case ClearBits => if uimm then 0x7073 else 0x3073
  }

  function LoadBase(n: int, signed: bool): bv32 {
    if n == 1 then (if signed then 0x3 else 0x4003)
    else if n == 2 then (if signed then 0x1003 else 0x5003)
    else 0x2003
  }

  function StoreBase(n: int): bv32 { if n == 1 then 0x23 else if n == 2 then 0x1023 else 0x2023 }

  // --- operations by their fixed bits -----------------------------------------

  lemma KeyFields(w: bv32, base: bv32)
    requires w & 0x707f == base
    ensures w & 0x3 == base & 0x3 && Opcode(w) == ((base >> 2) & 0x1f) as bv5
    ensures Funct3(w) == ((base >> 12) & 0x7) as bv3
  {
  }

  lemma LongKeyFields(w: bv32, base: bv32)
    requires w & 0xfe00_707f == base
    ensures w & 0x707f == base & 0x707f && Funct7(w) == (base >> 25) as bv7
  {
  }

  lemma AtomicKeyFields(w: bv32, base: bv32)
    requires w & 0xf800_707f == base
    ensures w & 0x707f == base & 0x707f && (Funct7(w) >> 2) as bv5 == (base >> 27) as bv5
  {
  }

  lemma ShortKeyFields(w: bv32, base: bv32)
    requires w & 0x7f == base
    ensures w & 0x3 == base & 0x3 && Opcode(w) == ((base >> 2) & 0x1f) as bv5
  {
  }

  lemma LoadOp(w: bv32, n: int, signed: bool)
    requires (n == 1 || n == 2 || (n == 4 && !signed)) && w & 0x707f == LoadBase(n, signed)
    ensures OpOfWord(w) == LoadInt(n, signed)
  {
    KeyFields(w, LoadBase(n, signed));
  }

  lemma StoreOp(w: bv32, n: int)
    requires (n == 1 || n == 2 || n == 4) && w & 0x707f == StoreBase(n)
    ensures OpOfWord(w) == StoreInt(n)
  {
    KeyFields(w, StoreBase(n));
  }

  lemma BranchOp(w: bv32, c: Alu.Condition)
    requires w & 0x707f == BranchBase(c)
    ensures OpOfWord(w) == Op.Branch(c)
  {
    KeyFields(w, BranchBase(c));
  }

  lemma CsrOpOf(w: bv32, op: Privilege.CsrOp, uimm: bool)
    requires w & 0x707f == CsrBase(op, uimm)
    ensures OpOfWord(w) == CsrModify(op, uimm)
  {
    KeyFields(w, CsrBase(op, uimm));
  }

  lemma PlainImmediateOp(w: bv32, alu: Alu.AluOp)
    requires HasImmediate(alu) && !Alu.IsShift(alu) && w & 0x707f == ImmediateBase(alu)
    ensures OpOfWord(w) == Arith(alu, true)
  {
    KeyFields(w, ImmediateBase(alu));
  }

  lemma ShiftOp(w: bv32, alu: Alu.AluOp)
    requires Alu.IsShift(alu) && w & 0xfe00_707f == ImmediateBase(alu)
    ensures OpOfWord(w) == Arith(alu, true)
  {
    LongKeyFields(w, ImmediateBase(alu));
    KeyFields(w, ImmediateBase(alu) & 0x707f);
  }

  lemma RegisterOp(w: bv32, alu: Alu.AluOp)
    requires w & 0xfe00_707f == RegisterBase(alu)
    ensures OpOfWord(w) == Arith(alu, false)
  {
    LongKeyFields(w, RegisterBase(alu));
    KeyFields(w, RegisterBase(alu) & 0x707f);
  }

  lemma AtomicOp(w: bv32, amo: Atomics.AmoOp)
    requires w & 0xf800_707f == AtomicBase(amo)
    ensures OpOfWord(w) == Atomic(amo)
  {
    AtomicKeyFields(w, AtomicBase(amo));
    KeyFields(w, AtomicBase(amo) & 0x707f);
  }

  /** LR.W, SC.W, JALR, PRIV, the cache instruction, FENCE and FENCE.I, and those with an opcode only. */
  lemma OtherOps(w: bv32)
    ensures w & 0xf800_707f == 0x1000_202f ==> OpOfWord(w) == Reserve
    ensures w & 0xf800_707f == 0x1800_202f ==> OpOfWord(w) == Conditional
    ensures w & 0x7f == 0x67 ==> OpOfWord(w) == Jalr
    ensures w & 0x7f == 0x6f ==> OpOfWord(w) == Jal
    ensures w & 0x7f == 0x37 ==> OpOfWord(w) == Lui
    ensures w & 0x7f == 0x17 ==> OpOfWord(w) == Auipc
    ensures w & 0x707f == 0x73 ==> OpOfWord(w) == Priv
    ensures w & 0x707f == 0x0b ==> OpOfWord(w) == InitIcache
    ensures w & 0x607f == 0x0f ==> OpOfWord(w) == Fence
  {
    LoneOps(w);
    if w & 0xf800_707f == 0x1000_202f {
      AtomicKeyFields(w, 0x1000_202f);
      KeyFields(w, 0x202f);
    } else if w & 0xf800_707f == 0x1800_202f {
      AtomicKeyFields(w, 0x1800_202f);
      KeyFields(w, 0x202f);
    }
  }

  lemma LoneOps(w: bv32)
    ensures w & 0x7f == 0x67 ==> OpOfWord(w) == Jalr
    ensures w & 0x7f == 0x6f ==> OpOfWord(w) == Jal
    ensures w & 0x7f == 0x37 ==> OpOfWord(w) == Lui
    ensures w & 0x7f == 0x17 ==> OpOfWord(w) == Auipc
    ensures w & 0x707f == 0x73 ==> OpOfWord(w) == Priv
    ensures w & 0x707f == 0x0b ==> OpOfWord(w) == InitIcache
    ensures w & 0x607f == 0x0f ==> OpOfWord(w) == Fence
  {
    if w & 0x7f == 0x67 {
      ShortKeyFields(w, 0x67);
    } else if w & 0x7f == 0x6f {
      ShortKeyFields(w, 0x6f);
    } else if w & 0x7f == 0x37 {
      ShortKeyFields(w, 0x37);
    } else if w & 0x7f == 0x17 {
      ShortKeyFields(w, 0x17);
    } else if w & 0x707f == 0x73 {
      KeyFields(w, 0x73);
    } else if w & 0x707f == 0x0b {
      KeyFields(w, 0x0b);
    } else if w & 0x607f == 0x0f {
      FenceFields(w);
    }
  }

  lemma FenceFields(w: bv32)
    requires w & 0x607f == 0x0f
    ensures w & 0x3 == 0x3 && Opcode(w) == 0x03 && Funct3(w) < 2
  {
  }

  // --- words ------------------------------------------------------------------

  /** The key of the four types. */
  predicate Opening(k: int) { true }

  /** A word of type R; this and the next three are kept folded. */
  ghost predicate TypeR(w: bv32, base: bv32, rd: bv32, rs1: bv32, rs2: bv32) {
    forall k: int :: Opening(k) ==>
      w & 0xfe00_707f == base && (w >> 7) & 0x1f == rd && (w >> 15) & 0x1f == rs1 && (w >> 20) & 0x1f == rs2
  }

  ghost predicate TypeI(w: bv32, base: bv32, rd: bv32, rs1: bv32, v: bv32) {
    forall k: int :: Opening(k) ==>
      w & 0x707f == base && (w >> 7) & 0x1f == rd && (w >> 15) & 0x1f == rs1 && w & 0xfff0_0000 == v << 20
  }

  ghost predicate TypeS(w: bv32, base: bv32, rs1: bv32, rs2: bv32, f: bv32) {
    forall k: int :: Opening(k) ==>
      w & 0x707f == base && (w >> 15) & 0x1f == rs1 && (w >> 20) & 0x1f == rs2 && w & 0xfe00_0f80 == f
  }

  ghost predicate TypeU(w: bv32, base: bv32, rd: bv32, f: bv32) {
    forall k: int :: Opening(k) ==> w & 0x7f == base && (w >> 7) & 0x1f == rd && w & 0xffff_f000 == f
  }

  // The words themselves, as sums of their fields.

  ghost predicate IsR(w: bv32, base: bv32, rd: bv32, rs1: bv32, rs2: bv32) {
    forall k: int :: Opening(k) ==> w == base | (rd << 7) | (rs1 << 15) | (rs2 << 20)
  }

  ghost function WordR(base: bv32, rd: bv32, rs1: bv32, rs2: bv32): (w: bv32)
    ensures IsR(w, base, rd, rs1, rs2)
  {
    assert IsR(base | (rd << 7) | (rs1 << 15) | (rs2 << 20), base, rd, rs1, rs2);
    var w :| IsR(w, base, rd, rs1, rs2);
    w
  }

  ghost predicate IsI(w: bv32, base: bv32, rd: bv32, rs1: bv32, v: bv32) {
    forall k: int :: Opening(k) ==> w == base | (rd << 7) | (rs1 << 15) | (v << 20)
  }

  ghost function WordI(base: bv32, rd: bv32, rs1: bv32, v: bv32): (w: bv32)
    ensures IsI(w, base, rd, rs1, v)
  {
    assert IsI(base | (rd << 7) | (rs1 << 15) | (v << 20), base, rd, rs1, v);
    var w :| IsI(w, base, rd, rs1, v);
    w
  }

  ghost predicate IsS(w: bv32, base: bv32, rs1: bv32, rs2: bv32, f: bv32) {
    forall k: int :: Opening(k) ==> w == base | (rs1 << 15) | (rs2 << 20) | f
  }

  ghost function WordS(base: bv32, rs1: bv32, rs2: bv32, f: bv32): (w: bv32)
    ensures IsS(w, base, rs1, rs2, f)
  {
    assert IsS(base | (rs1 << 15) | (rs2 << 20) | f, base, rs1, rs2, f);
    var w :| IsS(w, base, rs1, rs2, f);
    w
  }

  ghost predicate IsU(w: bv32, base: bv32, rd: bv32, f: bv32) {
    forall k: int :: Opening(k) ==> w == base | (rd << 7) | f
  }

  ghost function WordU(base: bv32, rd: bv32, f: bv32): (w: bv32)
    ensures IsU(w, base, rd, f)
  {
    assert IsU(base | (rd << 7) | f, base, rd, f);
    var w :| IsU(w, base, rd, f);
    w
  }

  lemma RegisterWord(base: bv32, rd: bv32, rs1: bv32, rs2: bv32)
    requires base & 0x1ff_8f80 == 0 && rd < 32 && rs1 < 32 && rs2 < 32
    ensures TypeR(WordR(base, rd, rs1, rs2), base, rd, rs1, rs2)
  {
    var w := WordR(base, rd, rs1, rs2);
    assert Opening(0);
    RegisterFields(base, rd, rs1, rs2, w);
  }

  lemma RegisterFields(base: bv32, rd: bv32, rs1: bv32, rs2: bv32, w: bv32)
    requires base & 0x1ff_8f80 == 0 && rd < 32 && rs1 < 32 && rs2 < 32
    requires w == base | (rd << 7) | (rs1 << 15) | (rs2 << 20)
    ensures w & 0xfe00_707f == base && (w >> 7) & 0x1f == rd && (w >> 15) & 0x1f == rs1 && (w >> 20) & 0x1f == rs2
  {
  }

  lemma ImmediateWord(base: bv32, rd: bv32, rs1: bv32, v: bv32)
    requires base & 0xffff_8f80 == 0 && rd < 32 && rs1 < 32
    ensures TypeI(WordI(base, rd, rs1, v), base, rd, rs1, v)
  {
    var w := WordI(base, rd, rs1, v);
    assert Opening(0);
    ImmediateFields(base, rd, rs1, v, w);
  }

  lemma ImmediateFields(base: bv32, rd: bv32, rs1: bv32, v: bv32, w: bv32)
    requires base & 0xffff_8f80 == 0 && rd < 32 && rs1 < 32 && w == base | (rd << 7) | (rs1 << 15) | (v << 20)
    ensures w & 0x707f == base && (w >> 7) & 0x1f == rd && (w >> 15) & 0x1f == rs1 && w & 0xfff0_0000 == v << 20
  {
  }

  lemma SplitWord(base: bv32, rs1: bv32, rs2: bv32, f: bv32)
    requires base & 0xffff_8f80 == 0 && rs1 < 32 && rs2 < 32 && f & 0x1ff_f07f == 0
    ensures TypeS(WordS(base, rs1, rs2, f), base, rs1, rs2, f)
  {
    var w := WordS(base, rs1, rs2, f);
    assert Opening(0);
    SplitFields(base, rs1, rs2, f, w);
  }

  lemma SplitFields(base: bv32, rs1: bv32, rs2: bv32, f: bv32, w: bv32)
    requires base & 0xffff_8f80 == 0 && rs1 < 32 && rs2 < 32 && f & 0x1ff_f07f == 0
    requires w == base | (rs1 << 15) | (rs2 << 20) | f
    ensures w & 0x707f == base && (w >> 15) & 0x1f == rs1 && (w >> 20) & 0x1f == rs2 && w & 0xfe00_0f80 == f
  {
  }

  lemma UpperWord(base: bv32, rd: bv32, f: bv32)
    requires base & 0xffff_ff80 == 0 && rd < 32 && f & 0xfff == 0
    ensures TypeU(WordU(base, rd, f), base, rd, f)
  {
    var w := WordU(base, rd, f);
    assert Opening(0);
    UpperFields(base, rd, f, w);
  }

  lemma UpperFields(base: bv32, rd: bv32, f: bv32, w: bv32)
    requires base & 0xffff_ff80 == 0 && rd < 32 && f & 0xfff == 0 && w == base | (rd << 7) | f
    ensures w & 0x7f == base && (w >> 7) & 0x1f == rd && w & 0xffff_f000 == f
  {
  }

  // --- the assembler ----------------------------------------------------------

  function ScatterS(v: bv32): bv32 { (((v >> 5) & 0x7f) << 25) | ((v & 0x1f) << 7) }

  function ScatterB(v: bv32): bv32 {
    (((v >> 12) & 1) << 31) | (((v >> 5) & 0x3f) << 25) | (((v >> 1) & 0xf) << 8) | (((v >> 11) & 1) << 7)
  }

  function ScatterJ(v: bv32): bv32 {
    (((v >> 20) & 1) << 31) | (((v >> 1) & 0x3ff) << 21) | (((v >> 11) & 1) << 20) | (((v >> 12) & 0xff) << 12)
  }

  predicate Extends(v: bv32, mask: bv32) { v & mask == 0 || v & mask == mask }

  /** The operation exists, and its immediate fits: sign-extended 12 bits, even offsets of 13 and 21 bits, the upper 20
      bits, a shift amount or a CSR address. */
  predicate Encodable(op: Op, v: bv32) {
    match op
    case Illegal => false
    case Lui => v & 0xfff == 0
    case Auipc => v & 0xfff == 0
    case Jal => Extends(v, 0xfff0_0000) && v & 1 == 0
    case Jalr => Extends(v, 0xffff_f800)
    case Branch(_) => Extends(v, 0xffff_f000) && v & 1 == 0
    case LoadInt(n, signed) => (n == 1 || n == 2 || (n == 4 && !signed)) && Extends(v, 0xffff_f800)
    case StoreInt(n) => (n == 1 || n == 2 || n == 4) && Extends(v, 0xffff_f800)
    case Arith(alu, immediate) =>
      immediate ==> HasImmediate(alu) && if Alu.IsShift(alu) then v < 32 else Extends(v, 0xffff_f800)
    case Priv => v < 4096
    case CsrModify(_, _) => v < 4096
    case _ => true
  }

  ghost function Assemble(op: Op, rd: bv32, rs1: bv32, rs2: bv32, v: bv32): bv32
    requires Encodable(op, v)
  {
    match op
    case Lui => WordU(0x37, rd, v)
    case Auipc => WordU(0x17, rd, v)
    case Jal => WordU(0x6f, rd, ScatterJ(v))
    case Jalr => WordI(0x67, rd, rs1, v)
    case Branch(c) => WordS(BranchBase(c), rs1, rs2, ScatterB(v))
    case LoadInt(n, signed) => WordI(LoadBase(n, signed), rd, rs1, v)
    case StoreInt(n) => WordS(StoreBase(n), rs1, rs2, ScatterS(v))
    case Reserve => WordR(0x1000_202f, rd, rs1, 0)
    case Conditional => WordR(0x1800_202f, rd, rs1, rs2)
    case Atomic(amo) => WordR(AtomicBase(amo), rd, rs1, rs2)
    case Arith(alu, immediate) =>
      if !immediate then WordR(RegisterBase(alu), rd, rs1, rs2)
      else if Alu.IsShift(alu) then WordR(ImmediateBase(alu), rd, rs1, v)
      else WordI(ImmediateBase(alu), rd, rs1, v)
    case Priv => WordI(0x73, 0, 0, v)
    case CsrModify(csr, uimm) => WordI(CsrBase(csr, uimm), rd, rs1, v)
    case Fence => 0x0f
    case InitIcache => WordI(0x0b, 0, rs1, 0)
    case _ => 0
  }

  // Which fields an operation has.

  predicate HasRd(op: Op) { !op.Branch? && !op.StoreInt? && op != Fence && op != Priv && op != InitIcache }

  predicate HasRs1(op: Op) { op != Lui && op != Auipc && op != Jal && op != Fence && op != Priv }

  predicate HasRs2(op: Op) {
    op.Branch? || op.StoreInt? || op == Conditional || op.Atomic? || (op.Arith? && !op.immediate)
  }

  predicate HasImm(op: Op) {
    op.Branch? || op.StoreInt? || (!HasRs2(op) && op != Reserve && op != Fence && op != InitIcache)
  }

  /** The fields of a decoded instruction that the operation has. */
  predicate Carries(i: Instruction, op: Op, rd: bv32, rs1: bv32, rs2: bv32, v: bv32) {
    && i.op == op
    && (HasRd(op) ==> i.rd == rd as int) && (HasRs1(op) ==> i.rs1 == rs1 as int)
    && (HasRs2(op) ==> i.rs2 == rs2 as int) && (HasImm(op) ==> i.imm == v as int)
  }

  lemma NarrowBits(r: bv32)
    requires r < 32
    ensures ((r & 0x1f) as bv5) as int == r as int
  {
  }

  lemma RdIs(w: bv32, r: bv32)
    requires r < 32 && (w >> 7) & 0x1f == r
    ensures Reg5(Rd(w)) as int == r as int
  {
    NarrowBits(r);
  }

  lemma Rs1Is(w: bv32, r: bv32)
    requires r < 32 && (w >> 15) & 0x1f == r
    ensures Reg5(Rs1(w)) as int == r as int
  {
    NarrowBits(r);
  }

  lemma Rs2Is(w: bv32, r: bv32)
    requires r < 32 && (w >> 20) & 0x1f == r
    ensures Reg5(Rs2(w)) as int == r as int
  {
    NarrowBits(r);
  }

  lemma MeaningIs(w: bv32, op: Op)
    requires OpOfWord(w) == op && op != Op.Illegal
    ensures var i := Meaning(w);
            && i.op == op && i.rd == Reg5(Rd(w)) as int && i.rs1 == Reg5(Rs1(w)) as int && i.rs2 == Reg5(Rs2(w)) as int
            && (HasImm(op) ==> i.imm == Isa.ImmOf(op, w))
  {
  }

  lemma FieldsCarried(i: Instruction, w: bv32, op: Op, rd: bv32, rs1: bv32, rs2: bv32, v: bv32)
    requires OpOfWord(w) == op && op != Op.Illegal && rd < 32 && rs1 < 32 && rs2 < 32 && i == Meaning(w)
    requires HasRd(op) ==> (w >> 7) & 0x1f == rd
    requires HasRs1(op) ==> (w >> 15) & 0x1f == rs1
    requires HasRs2(op) ==> (w >> 20) & 0x1f == rs2
    requires HasImm(op) ==> Isa.ImmOf(op, w) == v as int
    ensures Carries(i, op, rd, rs1, rs2, v)
  {
    MeaningIs(w, op);
    if HasRd(op) {
      RdIs(w, rd);
    }
    if HasRs1(op) {
      Rs1Is(w, rs1);
    }
    if HasRs2(op) {
      Rs2Is(w, rs2);
    }
  }

  lemma WideCsr(x: bv12)
    ensures (x as bv32) as int == x as int
  {
  }

  lemma CsrField(v: bv32, w: bv32)
    requires v < 4096 && w & 0xfff0_0000 == v << 20
    ensures CsrAddress(w) as bv32 == v
  {
  }

  lemma CsrNumber(v: bv32, w: bv32)
    requires v < 4096 && w & 0xfff0_0000 == v << 20
    ensures ImmNumber(TypeCsr, w) == v as int
  {
    CsrField(v, w);
    WideCsr(CsrAddress(w));
  }

  lemma WideShift(x: bv5)
    ensures (x as bv32) as int == x as int
  {
  }

  lemma ShiftField(v: bv32, w: bv32)
    requires v < 32 && (w >> 20) & 0x1f == v
    ensures Isa.ShiftAmount(w) as bv32 == v
  {
  }

  lemma ShiftNumber(v: bv32, w: bv32)
    requires v < 32 && (w >> 20) & 0x1f == v
    ensures ImmNumber(TypeShift, w) == v as int
  {
    ShiftField(v, w);
    WideShift(Isa.ShiftAmount(w));
  }

  lemma ScatteredApart(v: bv32)
    ensures ScatterS(v) & 0x1ff_f07f == 0 && ScatterB(v) & 0x1ff_f07f == 0 && ScatterJ(v) & 0xfff == 0
  {
  }

  // --- each format ------------------------------------------------------------

  lemma UpperImm(op: Op, v: bv32, w: bv32)
    requires (op == Lui || op == Auipc) && w & 0xffff_f000 == v
    ensures Isa.ImmOf(op, w) == v as int
  {
    Immediates.GathersU(v, w);
  }

  lemma JumpImm(v: bv32, w: bv32)
    requires Extends(v, 0xfff0_0000) && v & 1 == 0 && w & 0xffff_f000 == ScatterJ(v)
    ensures Isa.ImmOf(Jal, w) == v as int
  {
    Immediates.GathersJ(v, w);
  }

  lemma BranchImm(op: Op, v: bv32, w: bv32)
    requires op.Branch? && Extends(v, 0xffff_f000) && v & 1 == 0 && w & 0xfe00_0f80 == ScatterB(v)
    ensures Isa.ImmOf(op, w) == v as int
  {
    Immediates.GathersB(v, w);
  }

  lemma StoreImm(op: Op, v: bv32, w: bv32)
    requires op.StoreInt? && Extends(v, 0xffff_f800) && w & 0xfe00_0f80 == ScatterS(v)
    ensures Isa.ImmOf(op, w) == v as int
  {
    Immediates.GathersS(v, w);
  }

  lemma PlainImm(op: Op, v: bv32, w: bv32)
    requires op == Jalr || op.LoadInt? || (op.Arith? && !Alu.IsShift(op.alu))
    requires Extends(v, 0xffff_f800) && w & 0xfff0_0000 == v << 20
    ensures Isa.ImmOf(op, w) == v as int
  {
    Immediates.GathersI(v, w);
  }

  /** The key of `Decodes`. */
  predicate Decoding(k: int) { true }

  /** Decoding the word gives the operation and its fields; kept folded. */
  ghost predicate Decodes(w: bv32, op: Op, rd: bv32, rs1: bv32, rs2: bv32, v: bv32) {
    forall k: int :: Decoding(k) ==> Carries(Meaning(w), op, rd, rs1, rs2, v)
  }

  predicate AreRegisters(rd: bv32, rs1: bv32, rs2: bv32) { rd < 32 && rs1 < 32 && rs2 < 32 }

  lemma UpperDecodes(w: bv32, op: Op, rd: bv32, rs1: bv32, rs2: bv32, v: bv32)
    requires (op == Lui || op == Auipc) && AreRegisters(rd, rs1, rs2)
    requires TypeU(w, if op == Lui then 0x37 else 0x17, rd, v)
    ensures Decodes(w, op, rd, rs1, rs2, v)
  {
    assert Opening(0);
    OtherOps(w);
    UpperImm(op, v, w);
    FieldsCarried(Meaning(w), w, op, rd, rs1, rs2, v);
  }

  lemma JumpDecodes(w: bv32, rd: bv32, rs1: bv32, rs2: bv32, v: bv32)
    requires Encodable(Jal, v) && AreRegisters(rd, rs1, rs2) && TypeU(w, 0x6f, rd, ScatterJ(v))
    ensures Decodes(w, Jal, rd, rs1, rs2, v)
  {
    assert Opening(0);
    OtherOps(w);
    JumpImm(v, w);
    FieldsCarried(Meaning(w), w, Jal, rd, rs1, rs2, v);
  }

  lemma BranchDecodes(w: bv32, op: Op, rd: bv32, rs1: bv32, rs2: bv32, v: bv32)
    requires op.Branch? && Encodable(op, v) && AreRegisters(rd, rs1, rs2)
    requires TypeS(w, BranchBase(op.condition), rs1, rs2, ScatterB(v))
    ensures Decodes(w, op, rd, rs1, rs2, v)
  {
    assert Opening(0);
    BranchOp(w, op.condition);
    BranchImm(op, v, w);
    FieldsCarried(Meaning(w), w, op, rd, rs1, rs2, v);
  }

  lemma StoreDecodes(w: bv32, op: Op, rd: bv32, rs1: bv32, rs2: bv32, v: bv32)
    requires op.StoreInt? && Encodable(op, v) && AreRegisters(rd, rs1, rs2)
    requires TypeS(w, StoreBase(op.n), rs1, rs2, ScatterS(v))
    ensures Decodes(w, op, rd, rs1, rs2, v)
  {
    assert Opening(0);
    StoreOp(w, op.n);
    StoreImm(op, v, w);
    FieldsCarried(Meaning(w), w, op, rd, rs1, rs2, v);
  }

  lemma RegisterDecodes(w: bv32, op: Op, rd: bv32, rs1: bv32, rs2: bv32, v: bv32)
    requires op.Arith? && !op.immediate && AreRegisters(rd, rs1, rs2)
    requires TypeR(w, RegisterBase(op.alu), rd, rs1, rs2)
    ensures Decodes(w, op, rd, rs1, rs2, v)
  {
    assert Opening(0);
    RegisterOp(w, op.alu);
    FieldsCarried(Meaning(w), w, op, rd, rs1, rs2, v);
  }

  lemma AtomicKey(w: bv32, base: bv32)
    requires w & 0xfe00_707f == base && base & 0x600_0000 == 0
    ensures w & 0xf800_707f == base
  {
  }

  lemma AtomicBits(amo: Atomics.AmoOp)
    ensures AtomicBase(amo) & 0x600_0000 == 0 && AtomicBase(amo) & 0x1ff_8f80 == 0
  {
  }

  lemma AtomicDecodes(w: bv32, op: Op, rd: bv32, rs1: bv32, rs2: bv32, v: bv32)
    requires op.Atomic? && AreRegisters(rd, rs1, rs2) && TypeR(w, AtomicBase(op.amo), rd, rs1, rs2)
    ensures Decodes(w, op, rd, rs1, rs2, v)
  {
    assert Opening(0);
    AtomicBits(op.amo);
    AtomicKey(w, AtomicBase(op.amo));
    AtomicOp(w, op.amo);
    FieldsCarried(Meaning(w), w, op, rd, rs1, rs2, v);
  }

  lemma ReservationDecodes(w: bv32, op: Op, rd: bv32, rs1: bv32, rs2: bv32, v: bv32)
    requires AreRegisters(rd, rs1, rs2)
    requires || (op == Reserve && TypeR(w, 0x1000_202f, rd, rs1, 0))
             || (op == Conditional && TypeR(w, 0x1800_202f, rd, rs1, rs2))
    ensures Decodes(w, op, rd, rs1, rs2, v)
  {
    assert Opening(0);
    AtomicKey(w, if op == Reserve then 0x1000_202f else 0x1800_202f);
    OtherOps(w);
    FieldsCarried(Meaning(w), w, op, rd, rs1, rs2, v);
  }

  lemma LoadDecodes(w: bv32, op: Op, rd: bv32, rs1: bv32, rs2: bv32, v: bv32)
    requires op.LoadInt? && Encodable(op, v) && AreRegisters(rd, rs1, rs2)
    requires TypeI(w, LoadBase(op.n, op.signed), rd, rs1, v)
    ensures Decodes(w, op, rd, rs1, rs2, v)
  {
    assert Opening(0);
    LoadOp(w, op.n, op.signed);
    PlainImm(op, v, w);
    FieldsCarried(Meaning(w), w, op, rd, rs1, rs2, v);
  }

  lemma JalrKey(w: bv32)
    requires w & 0x707f == 0x67
    ensures w & 0x7f == 0x67
  {
  }

  lemma JalrDecodes(w: bv32, rd: bv32, rs1: bv32, rs2: bv32, v: bv32)
    requires Encodable(Jalr, v) && AreRegisters(rd, rs1, rs2) && TypeI(w, 0x67, rd, rs1, v)
    ensures Decodes(w, Jalr, rd, rs1, rs2, v)
  {
    assert Opening(0);
    JalrKey(w);
    OtherOps(w);
    PlainImm(Jalr, v, w);
    FieldsCarried(Meaning(w), w, Jalr, rd, rs1, rs2, v);
  }

  lemma ImmediateDecodes(w: bv32, op: Op, rd: bv32, rs1: bv32, rs2: bv32, v: bv32)
    requires op.Arith? && op.immediate && HasImmediate(op.alu) && !Alu.IsShift(op.alu) && Extends(v, 0xffff_f800)
    requires AreRegisters(rd, rs1, rs2) && TypeI(w, ImmediateBase(op.alu), rd, rs1, v)
    ensures Decodes(w, op, rd, rs1, rs2, v)
  {
    assert Opening(0);
    PlainImmediateOp(w, op.alu);
    PlainImm(op, v, w);
    FieldsCarried(Meaning(w), w, op, rd, rs1, rs2, v);
  }

  lemma ShiftImm(op: Op, v: bv32, w: bv32)
    requires op.Arith? && Alu.IsShift(op.alu) && v < 32 && (w >> 20) & 0x1f == v
    ensures Isa.ImmOf(op, w) == v as int
  {
    ShiftNumber(v, w);
  }

  lemma ShiftDecodes(w: bv32, op: Op, rd: bv32, rs1: bv32, rs2: bv32, v: bv32)
    requires op.Arith? && op.immediate && Alu.IsShift(op.alu) && v < 32 && AreRegisters(rd, rs1, rs2)
    requires TypeR(w, ImmediateBase(op.alu), rd, rs1, v)
    ensures Decodes(w, op, rd, rs1, rs2, v)
  {
    assert Opening(0);
    ShiftOp(w, op.alu);
    ShiftImm(op, v, w);
    FieldsCarried(Meaning(w), w, op, rd, rs1, rs2, v);
  }

  lemma CsrImm(op: Op, v: bv32, w: bv32)
    requires (op.CsrModify? || op == Priv) && v < 4096 && w & 0xfff0_0000 == v << 20
    ensures Isa.ImmOf(op, w) == v as int
  {
    CsrNumber(v, w);
  }

  lemma CsrDecodes(w: bv32, op: Op, rd: bv32, rs1: bv32, rs2: bv32, v: bv32)
    requires op.CsrModify? && v < 4096 && AreRegisters(rd, rs1, rs2)
    requires TypeI(w, CsrBase(op.csr, op.uimm), rd, rs1, v)
    ensures Decodes(w, op, rd, rs1, rs2, v)
  {
    assert Opening(0);
    CsrOpOf(w, op.csr, op.uimm);
    CsrImm(op, v, w);
    FieldsCarried(Meaning(w), w, op, rd, rs1, rs2, v);
  }

  /** PRIV, FENCE and the cache instruction. */
  lemma SystemDecodes(w: bv32, op: Op, rd: bv32, rs1: bv32, rs2: bv32, v: bv32)
    requires AreRegisters(rd, rs1, rs2)
    requires || (op == Priv && v < 4096 && TypeI(w, 0x73, 0, 0, v))
             || (op == InitIcache && TypeI(w, 0x0b, 0, rs1, 0))
             || (op == Fence && w == 0x0f)
    ensures Decodes(w, op, rd, rs1, rs2, v)
  {
    assert Opening(0);
    OtherOps(w);
    if op == Priv {
      CsrImm(op, v, w);
    }
    FieldsCarried(Meaning(w), w, op, rd, rs1, rs2, v);
  }

  // --- assembling and decoding ------------------------------------------------

  lemma FixedBits(op: Op, v: bv32)
    requires Encodable(op, v)
    ensures op.Branch? ==> BranchBase(op.condition) & 0xffff_8f80 == 0
    ensures op.StoreInt? ==> StoreBase(op.n) & 0xffff_8f80 == 0
    ensures op.LoadInt? ==> LoadBase(op.n, op.signed) & 0xffff_8f80 == 0
    ensures op.CsrModify? ==> CsrBase(op.csr, op.uimm) & 0xffff_8f80 == 0
    ensures op.Atomic? ==> AtomicBase(op.amo) & 0x1ff_8f80 == 0
    ensures op.Arith? && !op.immediate ==> RegisterBase(op.alu) & 0x1ff_8f80 == 0
    ensures op.Arith? && op.immediate && Alu.IsShift(op.alu) ==> ImmediateBase(op.alu) & 0x1ff_8f80 == 0
    ensures op.Arith? && op.immediate && !Alu.IsShift(op.alu) ==> ImmediateBase(op.alu) & 0xffff_8f80 == 0
  {
  }

  lemma UpperAssembled(op: Op, rd: bv32, rs1: bv32, rs2: bv32, v: bv32)
    requires (op == Lui || op == Auipc) && Encodable(op, v) && AreRegisters(rd, rs1, rs2)
    ensures Decodes(Assemble(op, rd, rs1, rs2, v), op, rd, rs1, rs2, v)
  {
    var w := Assemble(op, rd, rs1, rs2, v);
    UpperWord(if op == Lui then 0x37 else 0x17, rd, v);
    UpperDecodes(w, op, rd, rs1, rs2, v);
  }

  lemma JumpAssembled(op: Op, rd: bv32, rs1: bv32, rs2: bv32, v: bv32)
    requires op == Jal && Encodable(op, v) && AreRegisters(rd, rs1, rs2)
    ensures Decodes(Assemble(op, rd, rs1, rs2, v), op, rd, rs1, rs2, v)
  {
    var w := Assemble(op, rd, rs1, rs2, v);
    ScatteredApart(v);
    UpperWord(0x6f, rd, ScatterJ(v));
    JumpDecodes(w, rd, rs1, rs2, v);
  }

  lemma BranchAssembled(op: Op, rd: bv32, rs1: bv32, rs2: bv32, v: bv32)
    requires op.Branch? && Encodable(op, v) && AreRegisters(rd, rs1, rs2)
    ensures Decodes(Assemble(op, rd, rs1, rs2, v), op, rd, rs1, rs2, v)
  {
    var w := Assemble(op, rd, rs1, rs2, v);
    ScatteredApart(v);
    FixedBits(op, v);
    SplitWord(BranchBase(op.condition), rs1, rs2, ScatterB(v));
    BranchDecodes(w, op, rd, rs1, rs2, v);
  }

  lemma StoreAssembled(op: Op, rd: bv32, rs1: bv32, rs2: bv32, v: bv32)
    requires op.StoreInt? && Encodable(op, v) && AreRegisters(rd, rs1, rs2)
    ensures Decodes(Assemble(op, rd, rs1, rs2, v), op, rd, rs1, rs2, v)
  {
    var w := Assemble(op, rd, rs1, rs2, v);
    ScatteredApart(v);
    FixedBits(op, v);
    SplitWord(StoreBase(op.n), rs1, rs2, ScatterS(v));
    StoreDecodes(w, op, rd, rs1, rs2, v);
  }

  lemma LoadAssembled(op: Op, rd: bv32, rs1: bv32, rs2: bv32, v: bv32)
    requires op.LoadInt? && Encodable(op, v) && AreRegisters(rd, rs1, rs2)
    ensures Decodes(Assemble(op, rd, rs1, rs2, v), op, rd, rs1, rs2, v)
  {
    var w := Assemble(op, rd, rs1, rs2, v);
    FixedBits(op, v);
    ImmediateWord(LoadBase(op.n, op.signed), rd, rs1, v);
    LoadDecodes(w, op, rd, rs1, rs2, v);
  }

  lemma RegisterAssembled(op: Op, rd: bv32, rs1: bv32, rs2: bv32, v: bv32)
    requires op.Arith? && !op.immediate && Encodable(op, v) && AreRegisters(rd, rs1, rs2)
    ensures Decodes(Assemble(op, rd, rs1, rs2, v), op, rd, rs1, rs2, v)
  {
    var w := Assemble(op, rd, rs1, rs2, v);
    FixedBits(op, v);
    RegisterWord(RegisterBase(op.alu), rd, rs1, rs2);
    RegisterDecodes(w, op, rd, rs1, rs2, v);
  }

  lemma ImmediateAssembled(op: Op, rd: bv32, rs1: bv32, rs2: bv32, v: bv32)
    requires op.Arith? && op.immediate && Encodable(op, v) && AreRegisters(rd, rs1, rs2)
    ensures Decodes(Assemble(op, rd, rs1, rs2, v), op, rd, rs1, rs2, v)
  {
    var w := Assemble(op, rd, rs1, rs2, v);
    FixedBits(op, v);
    if Alu.IsShift(op.alu) {
      RegisterWord(ImmediateBase(op.alu), rd, rs1, v);
      ShiftDecodes(w, op, rd, rs1, rs2, v);
    } else {
      ImmediateWord(ImmediateBase(op.alu), rd, rs1, v);
      ImmediateDecodes(w, op, rd, rs1, rs2, v);
    }
  }

  lemma AtomicAssembled(op: Op, rd: bv32, rs1: bv32, rs2: bv32, v: bv32)
    requires (op.Atomic? || op == Reserve || op == Conditional) && Encodable(op, v) && AreRegisters(rd, rs1, rs2)
    ensures Decodes(Assemble(op, rd, rs1, rs2, v), op, rd, rs1, rs2, v)
  {
    var w := Assemble(op, rd, rs1, rs2, v);
    FixedBits(op, v);
    if op.Atomic? {
      RegisterWord(AtomicBase(op.amo), rd, rs1, rs2);
      AtomicDecodes(w, op, rd, rs1, rs2, v);
    } else {
      RegisterWord(if op == Reserve then 0x1000_202f else 0x1800_202f, rd, rs1, if op == Reserve then 0 else rs2);
      ReservationDecodes(w, op, rd, rs1, rs2, v);
    }
  }

  lemma JalrAssembled(op: Op, rd: bv32, rs1: bv32, rs2: bv32, v: bv32)
    requires op == Jalr && Encodable(op, v) && AreRegisters(rd, rs1, rs2)
    ensures Decodes(Assemble(op, rd, rs1, rs2, v), op, rd, rs1, rs2, v)
  {
    var w := Assemble(op, rd, rs1, rs2, v);
    ImmediateWord(0x67, rd, rs1, v);
    JalrDecodes(w, rd, rs1, rs2, v);
  }

  lemma SystemAssembled(op: Op, rd: bv32, rs1: bv32, rs2: bv32, v: bv32)
    requires (op == Priv || op == Fence || op == InitIcache || op.CsrModify?) && Encodable(op, v)
    requires AreRegisters(rd, rs1, rs2)
    ensures Decodes(Assemble(op, rd, rs1, rs2, v), op, rd, rs1, rs2, v)
  {
    var w := Assemble(op, rd, rs1, rs2, v);
    FixedBits(op, v);
    if op.CsrModify? {
      ImmediateWord(CsrBase(op.csr, op.uimm), rd, rs1, v);
      CsrDecodes(w, op, rd, rs1, rs2, v);
    } else {
      if op == Priv {
        ImmediateWord(0x73, 0, 0, v);
      } else if op == InitIcache {
        ImmediateWord(0x0b, 0, rs1, 0);
      }
      SystemDecodes(w, op, rd, rs1, rs2, v);
    }
  }

  lemma AssembledDecodes(op: Op, rd: bv32, rs1: bv32, rs2: bv32, v: bv32)
    requires Encodable(op, v) && AreRegisters(rd, rs1, rs2)
    ensures Decodes(Assemble(op, rd, rs1, rs2, v), op, rd, rs1, rs2, v)
  {
    match op
    case Lui => UpperAssembled(op, rd, rs1, rs2, v);
    case Auipc => UpperAssembled(op, rd, rs1, rs2, v);
    case Jal => JumpAssembled(op, rd, rs1, rs2, v);
    case Jalr => JalrAssembled(op, rd, rs1, rs2, v);
    case Branch(_) => BranchAssembled(op, rd, rs1, rs2, v);
    case LoadInt(_, _) => LoadAssembled(op, rd, rs1, rs2, v);
    case StoreInt(_) => StoreAssembled(op, rd, rs1, rs2, v);
    case Arith(_, immediate) =>
      if immediate {
        ImmediateAssembled(op, rd, rs1, rs2, v);
      } else {
        RegisterAssembled(op, rd, rs1, rs2, v);
      }
    case Reserve => AtomicAssembled(op, rd, rs1, rs2, v);
    case Conditional => AtomicAssembled(op, rd, rs1, rs2, v);
    case Atomic(_) => AtomicAssembled(op, rd, rs1, rs2, v);
    case _ => SystemAssembled(op, rd, rs1, rs2, v);
  }

  /** For every operation, register and immediate: the word decodes to what was assembled. */
  lemma RoundTrip(op: Op, rd: bv32, rs1: bv32, rs2: bv32, v: bv32)
    requires Encodable(op, v) && AreRegisters(rd, rs1, rs2)
    ensures Carries(Meaning(Assemble(op, rd, rs1, rs2, v)), op, rd, rs1, rs2, v)
  {
    AssembledDecodes(op, rd, rs1, rs2, v);
    assert Decoding(0);
  }
}
