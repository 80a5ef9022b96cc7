/**
  The machine as a program sees it.

  `Meaning` says which instruction a word is, by its opcode and function fields;
  `Execute` is what the instruction does to the registers, the hart and memory; and
  `StrictStep` fetches by translating the pc in the memory of that moment.  `Step`
  leaves one thing open, as the architecture does: until the next fence, a page may
  still be fetched through a frame that it had earlier.

  Words are integers here.  Devices, counters and the arrival of interrupts are
  inputs of a step.
 */
module Isa {
  import opened Options
  import opened Numbers
  import opened Atomics
  import opened Alu
  import opened AddressMap
  import opened LoadStore
  import opened Translation
  import Bytes
  import Csr
  import Decoder
  import PageWalk
  import Privilege

  // --- instructions -----------------------------------------------------------

  datatype Op = Illegal | Lui | Auipc | Jal | Jalr | Branch(condition: Condition)
              | LoadInt(n: int, signed: bool) | StoreInt(n: int) | Reserve | Conditional | Atomic(amo: AmoOp)
              | Arith(alu: AluOp, immediate: bool) | Priv | CsrModify(csr: Privilege.CsrOp, uimm: bool)
              | Fence | InitIcache

  datatype Instruction = Instruction(op: Op, rd: int, rs1: int, rs2: int, imm: int)

  function LoadAt(funct3: bv3): Op {
    if funct3 == 0 then LoadInt(1, true)
    else if funct3 == 1 then LoadInt(2, true)
    else if funct3 == 2 then LoadInt(4, false)
    else if funct3 == 4 then LoadInt(1, false)
    else if funct3 == 5 then LoadInt(2, false)
    else Illegal
  }

  function StoreAt(funct3: bv3): Op {
    if funct3 == 0 then StoreInt(1) else if funct3 == 1 then StoreInt(2) else if funct3 == 2 then StoreInt(4)
    else Illegal
  }

  function BranchAt(funct3: bv3): Op {
    if funct3 == 0 then Branch(Equal)
    else if funct3 == 1 then Branch(NotEqual)
    else if funct3 == 4 then Branch(Below)
    else if funct3 == 5 then Branch(AboveOrEqual)
    else if funct3 == 6 then Branch(BelowU)
    else if funct3 == 7 then Branch(AboveOrEqualU)
    else Illegal
  }

  function AmoAt(funct3: bv3, funct5: bv5): Op {
    if funct3 != 2 then Illegal
    else if funct5 == 0x02 then Reserve
    else if funct5 == 0x03 then Conditional
    else if funct5 == 0x00 then Atomic(Add)
    else if funct5 == 0x01 then Atomic(Swap)
    else if funct5 == 0x04 then Atomic(Xor)
    else if funct5 == 0x08 then Atomic(Or)
    else if funct5 == 0x0c then Atomic(And)
    else if funct5 == 0x10 then Atomic(Min)
    else if funct5 == 0x14 then Atomic(Max)
    else if funct5 == 0x18 then Atomic(MinU)
    else if funct5 == 0x1c then Atomic(MaxU)
    else Illegal
  }

  function ImmediateAt(funct3: bv3, funct7: bv7): Op {
    if funct3 == 0 then Arith(Addition, true)
    else if funct3 == 1 then (if funct7 == 0 then Arith(Left, true) else Illegal)
    else if funct3 == 2 then Arith(Less, true)
    else if funct3 == 3 then Arith(LessU, true)
    else if funct3 == 4 then Arith(Exclusive, true)
    else if funct3 == 5 then
      (if funct7 == 0 then Arith(Right, true) else if funct7 == 0x20 then Arith(RightSigned, true) else Illegal)
    else if funct3 == 6 then Arith(Either, true)
    else Arith(Both, true)
  }

  function BaseAt(funct3: bv3): AluOp {
    if funct3 == 0 then Addition
    else if funct3 == 1 then Left
    else if funct3 == 2 then Less
    else if funct3 == 3 then LessU
    else if funct3 == 4 then Exclusive
    else if funct3 == 5 then Right
    else if funct3 == 6 then Either
    else Both
  }

  function MultiplyAt(funct3: bv3): AluOp {
    if funct3 == 0 then Product
    else if funct3 == 1 then High
    else if funct3 == 2 then HighMixed
    else if funct3 == 3 then HighU
    else if funct3 == 4 then Quotient
    else if funct3 == 5 then QuotientU
    else if funct3 == 6 then Rest
    else RestU
  }

  function RegisterAt(funct3: bv3, funct7: bv7): Op {
    if funct7 == 0 then Arith(BaseAt(funct3), false)
    else if funct7 == 1 then Arith(MultiplyAt(funct3), false)
    else if funct7 == 0x20 && funct3 == 0 then Arith(Subtraction, false)
    else if funct7 == 0x20 && funct3 == 5 then Arith(RightSigned, false)
    else Illegal
  }

  function SystemAt(funct3: bv3): Op {
    if funct3 == 0 then Priv
    else if funct3 == 1 then CsrModify(Privilege.ReadWrite, false)
    else if funct3 == 2 then CsrModify(Privilege.SetBits, false)
    else if funct3 == 3 then CsrModify(Privilege.ClearBits, false)
    else if funct3 == 5 then CsrModify(Privilege.ReadWrite, true)
    else if funct3 == 6 then CsrModify(Privilege.SetBits, true)
    else if funct3 == 7 then CsrModify(Privilege.ClearBits, true)
    else Illegal
  }

  /** The operation by opcode, funct3 and funct7; custom-0 is the machine's own cache instruction. */
  function OpAt(opcode: bv5, funct3: bv3, funct7: bv7): Op {
    if opcode == 0x00 then LoadAt(funct3)
    else if opcode == 0x02 then (if funct3 == 0 then InitIcache else Illegal)
    else if opcode == 0x03 then (if funct3 < 2 then Fence else Illegal)
    else if opcode == 0x04 then ImmediateAt(funct3, funct7)
    else if opcode == 0x05 then Auipc
    else if opcode == 0x08 then StoreAt(funct3)
    else if opcode == 0x0b then AmoAt(funct3, (funct7 >> 2) as bv5)
    else if opcode == 0x0c then RegisterAt(funct3, funct7)
    else if opcode == 0x0d then Lui
    else if opcode == 0x18 then BranchAt(funct3)
    else if opcode == 0x19 then Jalr
    else if opcode == 0x1b then Jal
    else if opcode == 0x1c then SystemAt(funct3)
    else Illegal
  }

  function OpOfWord(w: bv32): Op {
    if w & 0x3 != 0x3 then Illegal else OpAt(Decoder.Opcode(w), Decoder.Funct3(w), Decoder.Funct7(w))
  }

  /** The operations that read their immediate. */
  predicate UsesImm(op: Op) {
    match op
    case Lui => true
    case Auipc => true
    case Jal => true
    case Jalr => true
    case Branch(_) => true
    case LoadInt(_, _) => true
    case StoreInt(_) => true
    case Arith(_, immediate) => immediate
    case Priv => true
    case CsrModify(_, _) => true
    case _ => false
  }

  function ShiftAmount(w: bv32): bv5 { ((w >> 20) & 0x1f) as bv5 }

  function CsrAddress(w: bv32): bv12 { (w >> 20) as bv12 }

  /** The immediate types of the instruction set; a CSR address and a shift amount are unsigned. */
  datatype ImmType = TypeI | TypeS | TypeB | TypeU | TypeJ | TypeCsr | TypeShift

  function ImmTypeOf(op: Op): ImmType {
    match op
    case Lui => TypeU
    case Auipc => TypeU
    case Jal => TypeJ
    case Branch(_) => TypeB
    case StoreInt(_) => TypeS
    case Priv => TypeCsr
    case CsrModify(_, _) => TypeCsr
    case Arith(alu, _) => if IsShift(alu) then TypeShift else TypeI
    case _ => TypeI
  }

  function ImmNumber(t: ImmType, w: bv32): int {
    match t
    case TypeI => Decoder.ImmI(w) as int
    case TypeS => Decoder.ImmS(w) as int
    case TypeB => Decoder.ImmB(w) as int
    case TypeU => Decoder.ImmU(w) as int
    case TypeJ => Decoder.ImmJ(w) as int
    case TypeCsr => CsrAddress(w) as int
    case TypeShift => ShiftAmount(w) as int
  }

  /** The immediate of an operation. */
  function ImmOf(op: Op, w: bv32): int { ImmNumber(ImmTypeOf(op), w) }

  /** The instruction that a word is. */
  function Meaning(w: bv32): Instruction {
    var op := OpOfWord(w);
    if op == Illegal then Instruction(Illegal, 0, 0, 0, 0)
    else
      Instruction(op, Decoder.Reg5(Decoder.Rd(w)) as int, Decoder.Reg5(Decoder.Rs1(w)) as int,
                  Decoder.Reg5(Decoder.Rs2(w)) as int,
                  if UsesImm(op) then ImmOf(op, w) else 0)
  }

  predicate IsRegister(r: int) { 0 <= r < 32 }

  predicate ValidInstruction(i: Instruction) {
    && IsRegister(i.rd) && IsRegister(i.rs1) && IsRegister(i.rs2) && 0 <= i.imm < 0x1_0000_0000
    && (i.op.LoadInt? ==> IsSize(i.op.n)) && (i.op.StoreInt? ==> IsSize(i.op.n))
    && (i.op.Arith? && i.op.immediate && IsShift(i.op.alu) ==> i.imm < 32)
    && (i.op.CsrModify? || i.op == Priv ==> i.imm < 4096)
  }

  // --- state ------------------------------------------------------------------

  datatype Power = On | Off | Restart

  /** `epoch` counts the events after which translations are made anew: fences, writes of satp, traps and returns. */
  datatype Cpu = Cpu(hart: Privilege.Hart, regs: seq<int>, view: View, power: Power, epoch: nat)

  /** ROM and the sizes of the memories. */
  datatype Board = Board(c: Config, rom: seq<bv8>)

  ghost predicate ValidBoard(b: Board) { ValidConfig(b.c) && |b.rom| == 4 * RomWords(b.c) }

  /** A device's answer to a load or store. */
  datatype Reply = Accept(word: bv32) | Refuse

  /** What comes from outside in one step: an interrupt, a device's answer, the value of a counter. */
  datatype Input = Input(interrupt: Option<nat>, reply: Reply, outside: bv32)

  predicate ValidRegs(regs: seq<int>) {
    |regs| == 32 && regs[0] == 0 && forall r :: 0 <= r < 32 ==> 0 <= regs[r] < 0x1_0000_0000
  }

  predicate Fits32(v: int) { 0 <= v < 0x1_0000_0000 }

  predicate InRange(h: Privilege.Hart) {
    Fits32(h.pc) && Fits32(h.words.mepc) && Fits32(h.words.sepc) && Fits32(h.words.mtvec) && Fits32(h.words.stvec)
  }

  /** What every step keeps. */
  ghost predicate Sound(b: Board, s: Cpu) {
    |s.view.ram| == 4 * RamWords(b.c) && ValidRegs(s.regs) && Privilege.Invariant(s.hart) && InRange(s.hart)
  }

  predicate Stopped(s: Cpu) { s.hart.halted || s.power != On }

  // --- execution --------------------------------------------------------------

  /** x0 stays zero. */
  function WriteReg(regs: seq<int>, rd: int, v: int): seq<int>
    requires |regs| == 32 && IsRegister(rd)
  {
    if rd == 0 then regs else regs[rd := v]
  }

  ghost function Trapped(s: Cpu, cause: nat, tval: int): Cpu {
    s.(hart := Privilege.Trap(s.hart, cause, tval, false), epoch := s.epoch + 1)
  }

  function Continued(s: Cpu): Cpu { s.(hart := Privilege.Advance(s.hart)) }

  function Written(s: Cpu, rd: int, v: int): Cpu
    requires |s.regs| == 32 && IsRegister(rd)
  {
    s.(hart := Privilege.Advance(s.hart), regs := WriteReg(s.regs, rd, v))
  }

  /** A jump to a 32-bit address; a misaligned one traps. */
  ghost function Landed(s: Cpu, rd: int, target: int): Cpu
    requires |s.regs| == 32 && IsRegister(rd)
  {
    if target % 4 != 0 then Trapped(s, 0, target)
    else s.(hart := s.hart.(pc := target), regs := WriteReg(s.regs, rd, (s.hart.pc + 4) % 0x1_0000_0000))
  }

  /** A taken jump writes the address of the next instruction. */
  ghost function Jumped(s: Cpu, rd: int, target: int): Cpu
    requires |s.regs| == 32 && IsRegister(rd)
  {
    Landed(s, rd, target % 0x1_0000_0000)
  }

  // Memory instructions.

  predicate IsMemory(op: Op) { op.LoadInt? || op.StoreInt? || op == Reserve || op == Conditional || op.Atomic? }

  /** Loads and LR raise the load exceptions, all others the store exceptions. */
  predicate IsLoad(op: Op) { op.LoadInt? || op == Reserve }

  function SizeOf(op: Op): int { if op.LoadInt? || op.StoreInt? then op.n else 4 }

  function AddressOf(i: Instruction, rs1: int): nat {
    if i.op.LoadInt? || i.op.StoreInt? then (rs1 + i.imm) % 0x1_0000_0000 else rs1 % 0x1_0000_0000
  }

  function AccessFor(op: Op, address: nat, value: bv32): Access
    requires IsMemory(op)
  {
    match op
    case LoadInt(n, signed) => Load(address, n, signed)
    case StoreInt(n) => Store(address, n, value)
    case Reserve => LoadReserved(address)
    case Conditional => StoreConditional(address, value)
    case Atomic(amo) => Amo(address, amo, value)
  }

  /** What translation depends on. */
  function SpaceIn(b: Board, s: Cpu, mode: Privilege.Mode): Space
    requires ValidBoard(b) && |s.view.ram| == 4 * RamWords(b.c)
  {
    Space(Physical(b.c, b.rom, s.view.ram), Privilege.Bits32(s.hart.words.satp), s.hart.status, mode)
  }

  /** A device access: a load gets the addressed bytes of the answer; only accesses that read can be refused. */
  ghost function DeviceAccess(s: Cpu, i: Instruction, address: nat, va: nat, reply: Reply): Cpu
    requires ValidRegs(s.regs) && ValidInstruction(i)
  {
    if i.op.LoadInt? then
      if reply.Refuse? then Trapped(s, 5, va)
      else Written(s, i.rd, Bytes.Extract(reply.word, address % 4, i.op.n, i.op.signed) as int)
    else if reply.Refuse? && SizeOf(i.op) < 4 then Trapped(s, 7, va)
    else Continued(s)
  }

  /** The end of a memory instruction, by the outcome of its access. */
  ghost function Concluded(s: Cpu, i: Instruction, o: Outcome, address: nat, va: nat, reply: Reply): Cpu
    requires ValidRegs(s.regs) && ValidInstruction(i)
  {
    match o
    case Value(v) => Written(s, i.rd, v as int)
    case Done => Continued(s)
    case Trap(cause) => Trapped(s, if cause < 0 then 0 else cause, va)
    case Device => DeviceAccess(s, i, address, va, reply)
    case Power(reset) => s.(power := if reset then Restart else Off)
  }

  ghost function AccessMemory(b: Board, s: Cpu, i: Instruction, value: bv32, address: nat, va: nat, reply: Reply): Cpu
    requires ValidBoard(b) && Sound(b, s) && ValidInstruction(i) && IsMemory(i.op)
  {
    var (o, view) := LoadStore.Step(b.c, b.rom, s.view, AccessFor(i.op, address, value));
    Concluded(s.(view := view), i, o, address, va, reply)
  }

  function AccessType(op: Op): PageWalk.Access { if IsLoad(op) then PageWalk.Load else PageWalk.Store }

  /** What follows the translation of a data address. */
  ghost function LocatedAccess(b: Board, s: Cpu, i: Instruction, where: Located, va: nat, reply: Reply): Cpu
    requires ValidBoard(b) && Sound(b, s) && ValidInstruction(i) && IsMemory(i.op)
  {
    match where
    case Fault(cause) => Trapped(s, cause, va)
    case At(address) => AccessMemory(b, s, i, Privilege.Bits32(s.regs[i.rs2]), address, va, reply)
  }

  /** Translation in the effective mode, and the access. */
  ghost function AlignedAccess(b: Board, s: Cpu, i: Instruction, va: nat, reply: Reply): Cpu
    requires ValidBoard(b) && Sound(b, s) && ValidInstruction(i) && IsMemory(i.op)
  {
    LocatedAccess(b, s, i, Locate(SpaceIn(b, s, s.hart.effective), va, AccessType(i.op)), va, reply)
  }

  /** Loads, stores and atomics. */
  ghost function MemoryInstruction(b: Board, s: Cpu, i: Instruction, reply: Reply): Cpu
    requires ValidBoard(b) && Sound(b, s) && ValidInstruction(i) && IsMemory(i.op)
  {
    var va := AddressOf(i, s.regs[i.rs1]);
    if !OnBoundary(va, SizeOf(i.op)) then Trapped(s, if IsLoad(i.op) then 4 else 6, va)
    else AlignedAccess(b, s, i, va, reply)
  }

  predicate StrayAt(b: Board, op: Op, where: Located) {
    op == StoreInt(4) && where.At? && Stray(b.c, Store(where.address, 4, 0))
  }

  ghost predicate AstrayAt(b: Board, s: Cpu, op: Op, va: nat)
    requires ValidBoard(b) && Sound(b, s)
  {
    StrayAt(b, op, Locate(SpaceIn(b, s, s.hart.effective), va, AccessType(op)))
  }

  /** The instruction is a word store that misses RAM and the devices. */
  ghost predicate StoresAstray(b: Board, s: Cpu, i: Instruction)
    requires ValidBoard(b) && Sound(b, s) && ValidInstruction(i)
  {
    OnBoundary(AddressOf(i, s.regs[i.rs1]), SizeOf(i.op)) && AstrayAt(b, s, i.op, AddressOf(i, s.regs[i.rs1]))
  }

  // SYSTEM instructions.

  /** Every PRIV instruction but WFI starts a new epoch: traps, returns and fences. */
  ghost function PrivInstruction(s: Cpu, imm: int): Cpu {
    s.(hart := Privilege.Priv(s.hart, imm), epoch := if imm == 0x105 then s.epoch else s.epoch + 1)
  }

  ghost predicate CsrRefused(h: Privilege.Hart, op: Privilege.CsrOp, a: int, rs1Id: int) {
    !Privilege.Readable(h, a) || (Privilege.Writes(op, rs1Id) && Csr.ReadOnly(a))
  }

  /** A refused CSR instruction and a write of satp start a new epoch. */
  ghost predicate CsrRenews(h: Privilege.Hart, op: Privilege.CsrOp, a: int, rs1Id: int) {
    CsrRefused(h, op, a, rs1Id) || (Csr.CsrAt(a) == Csr.Word(Csr.Satp) && Privilege.Writes(op, rs1Id))
  }

  /** The old value goes to rd. */
  ghost function CsrRegs(s: Cpu, i: Instruction, outside: bv32): seq<int>
    requires ValidRegs(s.regs) && ValidInstruction(i) && i.op.CsrModify?
  {
    if CsrRefused(s.hart, i.op.csr, i.imm, i.rs1) then s.regs
    else WriteReg(s.regs, i.rd, Privilege.CsrValue(s.hart, Csr.CsrAt(i.imm), outside) as int)
  }

  ghost function CsrInstruction(s: Cpu, i: Instruction, rs1: bv32, outside: bv32): Cpu
    requires ValidRegs(s.regs) && ValidInstruction(i) && i.op.CsrModify?
  {
    s.(hart := Privilege.CsrAccess(s.hart, i.op.csr, i.imm, rs1, i.rs1, outside),
       regs := CsrRegs(s, i, outside),
       epoch := if CsrRenews(s.hart, i.op.csr, i.imm, i.rs1) then s.epoch + 1 else s.epoch)
  }

  function CsrOperand(i: Instruction, rs1: int): bv32
    requires i.op.CsrModify?
  {
    Privilege.Bits32(if i.op.uimm then i.rs1 else rs1)
  }

  predicate IsSystem(op: Op) { op == Priv || op.CsrModify? || op == InitIcache || op == Illegal || op == Fence }

  ghost function SystemInstruction(s: Cpu, i: Instruction, outside: bv32): Cpu
    requires ValidRegs(s.regs) && ValidInstruction(i) && IsSystem(i.op)
  {
    if i.op == Priv then PrivInstruction(s, i.imm)
    else if i.op.CsrModify? then CsrInstruction(s, i, CsrOperand(i, s.regs[i.rs1]), outside)
    else if i.op == Fence || (i.op == InitIcache && s.hart.mode == Privilege.Machine) then Continued(s)
    else Trapped(s, 2, 0)
  }

  predicate IsJump(op: Op) { op == Jal || op == Jalr || op.Branch? }

  /** JALR clears the lowest bit of its target. */
  function Even(target: int): int { target - target % 2 }

  predicate JumpTaken(s: Cpu, i: Instruction)
    requires ValidRegs(s.regs) && ValidInstruction(i)
  {
    i.op.Branch? ==> Holds(i.op.condition, s.regs[i.rs1], s.regs[i.rs2])
  }

  function JumpRd(i: Instruction): int { if i.op.Branch? then 0 else i.rd }

  function JumpTarget(s: Cpu, i: Instruction): int
    requires ValidRegs(s.regs) && ValidInstruction(i)
  {
    if i.op == Jalr then Even(s.regs[i.rs1] + i.imm) else s.hart.pc + i.imm
  }

  ghost function JumpInstruction(s: Cpu, i: Instruction): Cpu
    requires ValidRegs(s.regs) && ValidInstruction(i) && IsJump(i.op)
  {
    if JumpTaken(s, i) then Jumped(s, JumpRd(i), JumpTarget(s, i)) else Continued(s)
  }

  /** The result of LUI, AUIPC and the arithmetic instructions. */
  function ResultOf(s: Cpu, i: Instruction): (v: UInt32)
    requires ValidRegs(s.regs) && ValidInstruction(i)
  {
    if i.op == Lui then i.imm
    else if i.op.Arith? then Compute(i.op.alu, s.regs[i.rs1], if i.op.immediate then i.imm else s.regs[i.rs2])
    else (s.hart.pc + i.imm) % 0x1_0000_0000
  }

  /** One instruction. */
  ghost function Execute(b: Board, s: Cpu, i: Instruction, input: Input): Cpu
    requires ValidBoard(b) && Sound(b, s) && ValidInstruction(i)
  {
    if IsMemory(i.op) then MemoryInstruction(b, s, i, input.reply)
    else if IsSystem(i.op) then SystemInstruction(s, i, input.outside)
    else if IsJump(i.op) then JumpInstruction(s, i)
    else Written(s, i.rd, ResultOf(s, i))
  }

  // --- steps ------------------------------------------------------------------

  /** The word at a physical address, or the cause of the fault. */
  datatype Loaded = Instr(word: bv32) | NoInstr(cause: nat)

  function LoadInstr(b: Board, s: Cpu, where: Located): Loaded
    requires ValidBoard(b) && |s.view.ram| == 4 * RamWords(b.c)
  {
    match where
    case Fault(cause) => NoInstr(cause)
    case At(address) =>
      match LoadSpec(b.c, b.rom, s.view.ram, address, 4, false)
      case Value(w) => Instr(w)
      case _ => NoInstr(1)
  }

  lemma NumberRange(t: ImmType, w: bv32)
    ensures 0 <= ImmNumber(t, w) < 0x1_0000_0000
    ensures t == TypeShift ==> ImmNumber(t, w) < 32
    ensures t == TypeCsr ==> ImmNumber(t, w) < 4096
  {
  }

  lemma ImmRange(op: Op, w: bv32)
    ensures 0 <= ImmOf(op, w) < 0x1_0000_0000
    ensures op.Arith? && IsShift(op.alu) ==> ImmOf(op, w) < 32
    ensures op.CsrModify? || op == Priv ==> ImmOf(op, w) < 4096
  {
    NumberRange(ImmTypeOf(op), w);
  }

  lemma OpSizes(w: bv32)
    ensures var op := OpOfWord(w);
            (op.LoadInt? ==> IsSize(op.n)) && (op.StoreInt? ==> IsSize(op.n))
  {
  }

  /** Decoded fields are in range. */
  lemma MeaningValid(w: bv32)
    ensures ValidInstruction(Meaning(w))
  {
    ImmRange(OpOfWord(w), w);
    OpSizes(w);
  }

  /** What follows the fetch. */
  ghost function Proceed(b: Board, s: Cpu, loaded: Loaded, i: Input): Cpu
    requires ValidBoard(b) && Sound(b, s)
  {
    match loaded
    case NoInstr(cause) => Trapped(s, cause, s.hart.pc)
    case Instr(w) => MeaningValid(w); Execute(b, s, Meaning(w), i)
  }

  /** One step, with the instruction at a physical address. */
  ghost function Perform(b: Board, s: Cpu, i: Input, where: Located): Cpu
    requires ValidBoard(b) && Sound(b, s)
  {
    if Stopped(s) then s
    else if i.interrupt.Some? then
      s.(hart := Privilege.Trap(s.hart, i.interrupt.value, 0, true), epoch := s.epoch + 1)
    else Proceed(b, s, LoadInstr(b, s, where), i)
  }

  /** A step of the architecture: translate the pc, load, execute. */
  ghost function StrictStep(b: Board, s: Cpu, i: Input): Cpu
    requires ValidBoard(b) && Sound(b, s)
  {
    Perform(b, s, i, Locate(SpaceIn(b, s, s.hart.mode), s.hart.pc, PageWalk.Execute))
  }

  /** The same, through a given frame of the pc's page. */
  ghost function Step(b: Board, s: Cpu, i: Input, frame: Frame): Cpu
    requires ValidBoard(b) && Sound(b, s)
  {
    Perform(b, s, i, Placed(frame, s.hart.pc % 4096))
  }

  ghost predicate Astray(b: Board, s: Cpu, loaded: Loaded)
    requires ValidBoard(b) && Sound(b, s)
  {
    match loaded
    case NoInstr(_) => false
    case Instr(w) => MeaningValid(w); StoresAstray(b, s, Meaning(w))
  }

  /** The step would be a word store that misses RAM and the devices. */
  ghost predicate StepAstray(b: Board, s: Cpu, i: Input, frame: Frame)
    requires ValidBoard(b) && Sound(b, s)
  {
    !Stopped(s) && i.interrupt.None? && Astray(b, s, LoadInstr(b, s, Placed(frame, s.hart.pc % 4096)))
  }

  lemma StrictFrame(b: Board, s: Cpu, i: Input, frame: Frame)
    requires ValidBoard(b) && Sound(b, s) && MapsPage(SpaceIn(b, s, s.hart.mode), s.hart.pc / 4096, frame)
    ensures Step(b, s, i, frame) == StrictStep(b, s, i)
  {
    FrameLocates(SpaceIn(b, s, s.hart.mode), s.hart.pc, frame);
  }

  // --- every step keeps a sound state -----------------------------------------

  lemma TrapInRange(h: Privilege.Hart, cause: nat, tval: int, interrupt: bool)
    requires InRange(h)
    ensures InRange(Privilege.Trap(h, cause, tval, interrupt))
  {
  }

  lemma TrappedSound(b: Board, s: Cpu, cause: nat, tval: int)
    requires Sound(b, s)
    ensures Sound(b, Trapped(s, cause, tval))
  {
    TrapInRange(s.hart, cause, tval, false);
    Privilege.TrapKeepsInvariant(s.hart, cause, tval, false);
  }

  lemma WrittenSound(b: Board, s: Cpu, rd: int, v: int)
    requires Sound(b, s) && IsRegister(rd) && Fits32(v) && s.hart.pc + 4 < 0x1_0000_0000
    ensures Sound(b, Written(s, rd, v)) && Sound(b, Continued(s))
  {
    Privilege.AdvanceKeepsInvariant(s.hart);
  }

  lemma JumpedSound(b: Board, s: Cpu, rd: int, target: int)
    requires Sound(b, s) && IsRegister(rd)
    ensures Sound(b, Jumped(s, rd, target))
  {
    TrappedSound(b, s, 0, target % 0x1_0000_0000);
  }

  lemma DeviceSound(b: Board, s: Cpu, i: Instruction, address: nat, va: nat, reply: Reply)
    requires Sound(b, s) && ValidInstruction(i) && s.hart.pc + 4 < 0x1_0000_0000
    ensures Sound(b, DeviceAccess(s, i, address, va, reply))
  {
    if i.op.LoadInt? && reply.Accept? {
      WrittenSound(b, s, i.rd, Bytes.Extract(reply.word, address % 4, i.op.n, i.op.signed) as int);
    } else {
      WrittenSound(b, s, 0, 0);
      TrappedSound(b, s, 5, va);
      TrappedSound(b, s, 7, va);
    }
  }

  lemma ConcludedSound(b: Board, s: Cpu, i: Instruction, o: Outcome, address: nat, va: nat, reply: Reply)
    requires Sound(b, s) && ValidInstruction(i) && s.hart.pc + 4 < 0x1_0000_0000
    ensures Sound(b, Concluded(s, i, o, address, va, reply))
  {
    match o
    case Value(v) => WrittenSound(b, s, i.rd, v as int);
    case Done => WrittenSound(b, s, 0, 0);
    case Trap(cause) => TrappedSound(b, s, if cause < 0 then 0 else cause, va);
    case Device => DeviceSound(b, s, i, address, va, reply);
    case Power(_) =>
  }

  lemma MemorySound(b: Board, s: Cpu, i: Instruction, reply: Reply)
    requires ValidBoard(b) && Sound(b, s) && ValidInstruction(i) && IsMemory(i.op) && s.hart.pc + 4 < 0x1_0000_0000
    ensures Sound(b, MemoryInstruction(b, s, i, reply))
  {
    var va := AddressOf(i, s.regs[i.rs1]);
    var load := IsLoad(i.op);
    if !OnBoundary(va, SizeOf(i.op)) {
      TrappedSound(b, s, if load then 4 else 6, va);
    } else {
      match Locate(SpaceIn(b, s, s.hart.effective), va, AccessType(i.op))
      case Fault(cause) => TrappedSound(b, s, cause, va);
      case At(address) =>
        var (o, view) := LoadStore.Step(b.c, b.rom, s.view, AccessFor(i.op, address, Privilege.Bits32(s.regs[i.rs2])));
        ConcludedSound(b, s.(view := view), i, o, address, va, reply);
    }
  }

  lemma StoreInRange(h: Privilege.Hart, csr: Csr.Csr, v: bv32)
    requires InRange(h)
    ensures InRange(Privilege.StoreCsr(h, csr, v)) && Privilege.StoreCsr(h, csr, v).pc == h.pc
  {
    if csr.Word? {
      WordInRange(h.words, csr.word, v as int);
    }
  }

  predicate WordsInRange(w: Privilege.Words) { Fits32(w.mepc) && Fits32(w.sepc) && Fits32(w.mtvec) && Fits32(w.stvec) }

  lemma WordInRange(w: Privilege.Words, c: Csr.WordCsr, v: int)
    requires WordsInRange(w) && Fits32(v)
    ensures WordsInRange(Privilege.StoreWord(w, c, v))
  {
  }

  lemma CsrSound(b: Board, s: Cpu, i: Instruction, rs1: bv32, outside: bv32)
    requires Sound(b, s) && ValidInstruction(i) && i.op.CsrModify? && s.hart.pc + 4 < 0x1_0000_0000
    ensures Sound(b, CsrInstruction(s, i, rs1, outside))
  {
    var csr := Csr.CsrAt(i.imm);
    Privilege.CsrKeepsInvariant(s.hart, i.op.csr, i.imm, rs1, i.rs1, outside);
    TrapInRange(s.hart, 2, 0, false);
    StoreInRange(s.hart, csr, Privilege.NewValue(s.hart, i.op.csr, csr, rs1, outside));
    CsrRegsValid(s.regs, i.rd, Privilege.CsrValue(s.hart, csr, outside));
  }

  lemma CsrRegsValid(regs: seq<int>, rd: int, v: bv32)
    requires ValidRegs(regs) && IsRegister(rd)
    ensures ValidRegs(WriteReg(regs, rd, v as int))
  {
  }

  lemma PrivInRange(h: Privilege.Hart, imm: int)
    requires InRange(h) && h.pc + 4 < 0x1_0000_0000
    ensures InRange(Privilege.Priv(h, imm))
  {
    if imm == 0x000 {
      TrapInRange(h, Privilege.EnvironmentCall(h.mode), 0, false);
    } else if imm == 0x001 {
      TrapInRange(h, 3, h.pc, false);
    } else {
      TrapInRange(h, 2, 0, false);
    }
  }

  lemma PrivSound(b: Board, s: Cpu, imm: int)
    requires Sound(b, s) && s.hart.pc + 4 < 0x1_0000_0000
    ensures Sound(b, PrivInstruction(s, imm))
  {
    Privilege.PrivKeepsInvariant(s.hart, imm);
    PrivInRange(s.hart, imm);
  }

  lemma SystemSound(b: Board, s: Cpu, i: Instruction, outside: bv32)
    requires Sound(b, s) && ValidInstruction(i) && s.hart.pc + 4 < 0x1_0000_0000 && IsSystem(i.op)
    ensures Sound(b, SystemInstruction(s, i, outside))
  {
    if i.op == Priv {
      PrivSound(b, s, i.imm);
    } else if i.op.CsrModify? {
      CsrSound(b, s, i, CsrOperand(i, s.regs[i.rs1]), outside);
    } else {
      WrittenSound(b, s, 0, 0);
      TrappedSound(b, s, 2, 0);
    }
  }

  lemma JumpSound(b: Board, s: Cpu, i: Instruction)
    requires Sound(b, s) && ValidInstruction(i) && s.hart.pc + 4 < 0x1_0000_0000 && IsJump(i.op)
    ensures Sound(b, JumpInstruction(s, i))
  {
    JumpedOrNot(b, s, JumpRd(i), JumpTarget(s, i), JumpInstruction(s, i));
  }

  lemma JumpedOrNot(b: Board, s: Cpu, rd: int, target: int, t: Cpu)
    requires Sound(b, s) && IsRegister(rd) && s.hart.pc + 4 < 0x1_0000_0000
    requires t == Jumped(s, rd, target) || t == Continued(s)
    ensures Sound(b, t)
  {
    JumpedSound(b, s, rd, target);
    WrittenSound(b, s, 0, 0);
  }

  lemma ExecuteSound(b: Board, s: Cpu, i: Instruction, input: Input)
    requires ValidBoard(b) && Sound(b, s) && ValidInstruction(i) && s.hart.pc + 4 < 0x1_0000_0000
    ensures Sound(b, Execute(b, s, i, input))
  {
    if IsMemory(i.op) {
      MemorySound(b, s, i, input.reply);
    } else if IsSystem(i.op) {
      SystemSound(b, s, i, input.outside);
    } else if IsJump(i.op) {
      JumpSound(b, s, i);
    } else {
      WrittenSound(b, s, i.rd, ResultOf(s, i));
    }
  }

  /** Registers stay 32-bit words with x0 = 0, and the hart keeps its invariant, as long as the pc is not at the last
      word of the address space. */
  lemma StepSound(b: Board, s: Cpu, i: Input, frame: Frame)
    requires ValidBoard(b) && Sound(b, s) && s.hart.pc + 4 < 0x1_0000_0000
    ensures Sound(b, Step(b, s, i, frame))
  {
    if !Stopped(s) {
      if i.interrupt.Some? {
        TrapInRange(s.hart, i.interrupt.value, 0, true);
        Privilege.TrapKeepsInvariant(s.hart, i.interrupt.value, 0, true);
      } else {
        match LoadInstr(b, s, Placed(frame, s.hart.pc % 4096))
        case NoInstr(cause) => TrappedSound(b, s, cause, s.hart.pc);
        case Instr(w) =>
          MeaningValid(w);
          ExecuteSound(b, s, Meaning(w), i);
      }
    }
  }

  // --- runs -------------------------------------------------------------------

  /** Translations of one epoch are made with one mode and one satp. */
  predicate SameEpoch(s: Cpu, t: Cpu) {
    || t.epoch == s.epoch + 1
    || (t.epoch == s.epoch && t.hart.mode == s.hart.mode && t.hart.words.satp == s.hart.words.satp)
  }

  lemma ConcludedEpoch(s: Cpu, i: Instruction, o: Outcome, address: nat, va: nat, reply: Reply)
    requires ValidRegs(s.regs) && ValidInstruction(i)
    ensures SameEpoch(s, Concluded(s, i, o, address, va, reply))
  {
  }

  lemma MemoryEpoch(b: Board, s: Cpu, i: Instruction, reply: Reply)
    requires ValidBoard(b) && Sound(b, s) && ValidInstruction(i) && IsMemory(i.op)
    ensures SameEpoch(s, MemoryInstruction(b, s, i, reply))
  {
    var va := AddressOf(i, s.regs[i.rs1]);
    if OnBoundary(va, SizeOf(i.op)) {
      match Locate(SpaceIn(b, s, s.hart.effective), va, AccessType(i.op))
      case Fault(cause) =>
      case At(address) =>
        var (o, view) := LoadStore.Step(b.c, b.rom, s.view, AccessFor(i.op, address, Privilege.Bits32(s.regs[i.rs2])));
        ConcludedEpoch(s.(view := view), i, o, address, va, reply);
    }
  }

  lemma StoreKeepsSpace(h: Privilege.Hart, csr: Csr.Csr, v: bv32)
    requires csr != Csr.Word(Csr.Satp)
    ensures Privilege.StoreCsr(h, csr, v).mode == h.mode && Privilege.StoreCsr(h, csr, v).words.satp == h.words.satp
  {
    if csr.Word? {
      StoreKeepsSatp(h.words, csr.word, v as int);
    } else {
      OtherKeepsWords(h, csr, v);
    }
  }

  lemma StoreKeepsSatp(w: Privilege.Words, c: Csr.WordCsr, v: int)
    requires c != Csr.Satp
    ensures Privilege.StoreWord(w, c, v).satp == w.satp
  {
  }

  lemma OtherKeepsWords(h: Privilege.Hart, csr: Csr.Csr, v: bv32)
    requires !csr.Word?
    ensures Privilege.StoreCsr(h, csr, v).mode == h.mode && Privilege.StoreCsr(h, csr, v).words == h.words
  {
  }

  lemma CsrEpoch(s: Cpu, i: Instruction, rs1: bv32, outside: bv32)
    requires ValidRegs(s.regs) && ValidInstruction(i) && i.op.CsrModify?
    ensures SameEpoch(s, CsrInstruction(s, i, rs1, outside))
  {
    var csr := Csr.CsrAt(i.imm);
    if csr != Csr.Word(Csr.Satp) {
      StoreKeepsSpace(s.hart, csr, Privilege.NewValue(s.hart, i.op.csr, csr, rs1, outside));
    }
  }

  lemma JumpEpoch(s: Cpu, i: Instruction)
    requires ValidRegs(s.regs) && ValidInstruction(i) && IsJump(i.op)
    ensures SameEpoch(s, JumpInstruction(s, i))
  {
    JumpedEpoch(s, JumpRd(i), JumpTarget(s, i), JumpInstruction(s, i));
  }

  lemma JumpedEpoch(s: Cpu, rd: int, target: int, t: Cpu)
    requires ValidRegs(s.regs) && IsRegister(rd) && (t == Jumped(s, rd, target) || t == Continued(s))
    ensures SameEpoch(s, t)
  {
  }

  lemma SystemEpoch(s: Cpu, i: Instruction, outside: bv32)
    requires ValidRegs(s.regs) && ValidInstruction(i) && IsSystem(i.op)
    ensures SameEpoch(s, SystemInstruction(s, i, outside))
  {
    if i.op.CsrModify? {
      CsrEpoch(s, i, CsrOperand(i, s.regs[i.rs1]), outside);
    }
  }

  lemma ExecuteEpoch(b: Board, s: Cpu, i: Instruction, input: Input)
    requires ValidBoard(b) && Sound(b, s) && ValidInstruction(i)
    ensures SameEpoch(s, Execute(b, s, i, input))
  {
    if IsMemory(i.op) {
      MemoryEpoch(b, s, i, input.reply);
    } else if IsSystem(i.op) {
      SystemEpoch(s, i, input.outside);
    } else if IsJump(i.op) {
      JumpEpoch(s, i);
    }
  }

  lemma StepEpoch(b: Board, s: Cpu, i: Input, frame: Frame)
    requires ValidBoard(b) && Sound(b, s)
    ensures SameEpoch(s, Step(b, s, i, frame))
  {
    if !Stopped(s) && i.interrupt.None? {
      match LoadInstr(b, s, Placed(frame, s.hart.pc % 4096))
      case NoInstr(cause) =>
      case Instr(w) =>
        MeaningValid(w);
        ExecuteEpoch(b, s, Meaning(w), i);
    }
  }

  /** A page is mapped to a frame in a state. */
  ghost predicate Maps(b: Board, s: Cpu, page: nat, frame: Frame)
    requires ValidBoard(b) && Sound(b, s)
  {
    MapsPage(SpaceIn(b, s, s.hart.mode), page, frame)
  }

  ghost predicate SoundTrace(b: Board, trace: seq<Cpu>) { forall k :: 0 <= k < |trace| ==> Sound(b, trace[k]) }

  /** The frame is one that the page of the pc had in this epoch. */
  ghost predicate Legal(b: Board, trace: seq<Cpu>, k: int, frame: Frame)
    requires ValidBoard(b) && SoundTrace(b, trace) && 0 <= k < |trace|
  {
    exists j :: 0 <= j <= k && trace[j].epoch == trace[k].epoch && Maps(b, trace[j], trace[k].hart.pc / 4096, frame)
  }

  /** Step `k` of a run goes through the frame that its fetch used. */
  ghost predicate RunsAt(b: Board, trace: seq<Cpu>, frames: seq<Frame>, inputs: seq<Input>, k: int)
    requires ValidBoard(b) && SoundTrace(b, trace) && |trace| == |inputs| + 1 && |frames| == |inputs|
    requires 0 <= k < |inputs|
  {
    Legal(b, trace, k, frames[k]) && trace[k + 1] == Step(b, trace[k], inputs[k], frames[k])
  }

  /** A run of the machine. */
  ghost predicate IsRun(b: Board, trace: seq<Cpu>, frames: seq<Frame>, inputs: seq<Input>)
    requires ValidBoard(b)
  {
    && SoundTrace(b, trace) && |trace| == |inputs| + 1 && |frames| == |inputs|
    && forall k :: 0 <= k < |inputs| ==> RunsAt(b, trace, frames, inputs, k)
  }

  /** Where the worker may leave a run: at the last word of the address space, and at a store that misses RAM and the
      devices. */
  ghost predicate RunEnds(b: Board, trace: seq<Cpu>, n: nat, input: Input)
    requires ValidBoard(b) && SoundTrace(b, trace) && n < |trace|
  {
    || trace[n].hart.pc + 4 == 0x1_0000_0000
    || exists frame :: Legal(b, trace, n, frame) && StepAstray(b, trace[n], input, frame)
  }

  /** The first `n` inputs make a run, and either those are all or the worker leaves the run there. */
  ghost predicate RunsUntil(b: Board, trace: seq<Cpu>, frames: seq<Frame>, inputs: seq<Input>, n: nat) {
    && ValidBoard(b) && n <= |inputs| && IsRun(b, trace, frames, inputs[..n])
    && (n < |inputs| ==> RunEnds(b, trace, n, inputs[n]))
  }

  lemma LegalLonger(b: Board, trace: seq<Cpu>, next: Cpu, k: int, frame: Frame)
    requires ValidBoard(b) && SoundTrace(b, trace) && Sound(b, next) && 0 <= k < |trace| && Legal(b, trace, k, frame)
    ensures SoundTrace(b, trace + [next]) && Legal(b, trace + [next], k, frame)
  {
    var longer := trace + [next];
    var j :| 0 <= j <= k && trace[j].epoch == trace[k].epoch && Maps(b, trace[j], trace[k].hart.pc / 4096, frame);
    assert longer[j] == trace[j] && longer[k] == trace[k];
  }

  /** A run and one more step. */
  lemma RunLonger(b: Board, trace: seq<Cpu>, frames: seq<Frame>, inputs: seq<Input>, next: Cpu, input: Input,
                  frame: Frame)
    requires ValidBoard(b) && IsRun(b, trace, frames, inputs) && Sound(b, next)
    requires Legal(b, trace, |inputs|, frame) && next == Step(b, trace[|inputs|], input, frame)
    ensures IsRun(b, trace + [next], frames + [frame], inputs + [input])
  {
    var n := |inputs|;
    var trace', frames', inputs' := trace + [next], frames + [frame], inputs + [input];
    LegalLonger(b, trace, next, n, frame);
    forall k | 0 <= k < n + 1 ensures RunsAt(b, trace', frames', inputs', k) {
      if k < n {
        assert RunsAt(b, trace, frames, inputs, k);
        LegalLonger(b, trace, next, k, frames[k]);
        assert trace'[k] == trace[k] && trace'[k + 1] == trace[k + 1];
        assert frames'[k] == frames[k] && inputs'[k] == inputs[k];
      }
    }
  }

  /** A store inside an epoch leaves the frames of all pages alone. */
  ghost predicate KeepsFrames(b: Board, s: Cpu, t: Cpu)
    requires ValidBoard(b) && Sound(b, s) && Sound(b, t)
  {
    t.epoch == s.epoch && t.view.ram != s.view.ram ==>
      forall page, frame :: Maps(b, s, page, frame) ==> Maps(b, t, page, frame)
  }

  ghost predicate FencedAt(b: Board, trace: seq<Cpu>, k: int)
    requires ValidBoard(b) && SoundTrace(b, trace) && 0 <= k < |trace| - 1
  {
    KeepsFrames(b, trace[k], trace[k + 1])
  }

  /** No store between two fences changes the frame of a page. */
  ghost predicate Fenced(b: Board, trace: seq<Cpu>)
    requires ValidBoard(b) && SoundTrace(b, trace)
  {
    forall k :: 0 <= k < |trace| - 1 ==> FencedAt(b, trace, k)
  }

  /** Then a mapping lasts for the whole epoch. */
  lemma MappingStays(b: Board, trace: seq<Cpu>, frames: seq<Frame>, inputs: seq<Input>, k: int, page: nat, frame: Frame)
    requires ValidBoard(b) && IsRun(b, trace, frames, inputs) && Fenced(b, trace)
    requires 0 <= k < |inputs| && trace[k + 1].epoch == trace[k].epoch && Maps(b, trace[k], page, frame)
    ensures Maps(b, trace[k + 1], page, frame)
  {
    assert RunsAt(b, trace, frames, inputs, k) && FencedAt(b, trace, k);
    StepEpoch(b, trace[k], inputs[k], frames[k]);
    if trace[k + 1].view.ram == trace[k].view.ram {
      FramesIgnoreStatus(SpaceIn(b, trace[k], trace[k].hart.mode), SpaceIn(b, trace[k + 1], trace[k + 1].hart.mode),
                         page, frame);
    }
  }

  lemma {:induction false} EpochsIncrease(b: Board, trace: seq<Cpu>, frames: seq<Frame>, inputs: seq<Input>, j: int,
                                          k: int)
    requires ValidBoard(b) && IsRun(b, trace, frames, inputs) && 0 <= j <= k <= |inputs|
    ensures trace[j].epoch <= trace[k].epoch
    decreases k
  {
    if j < k {
      EpochsIncrease(b, trace, frames, inputs, j, k - 1);
      assert RunsAt(b, trace, frames, inputs, k - 1);
      StepEpoch(b, trace[k - 1], inputs[k - 1], frames[k - 1]);
    }
  }

  lemma {:induction false} MappingLasts(b: Board, trace: seq<Cpu>, frames: seq<Frame>, inputs: seq<Input>, j: int,
                                        k: int,
                                        page: nat, frame: Frame)
    requires ValidBoard(b) && IsRun(b, trace, frames, inputs) && Fenced(b, trace)
    requires 0 <= j <= k <= |inputs| && trace[j].epoch == trace[k].epoch && Maps(b, trace[j], page, frame)
    ensures Maps(b, trace[k], page, frame)
    decreases k
  {
    if j < k {
      EpochsIncrease(b, trace, frames, inputs, j, k - 1);
      EpochsIncrease(b, trace, frames, inputs, k - 1, k);
      MappingLasts(b, trace, frames, inputs, j, k - 1, page, frame);
      MappingStays(b, trace, frames, inputs, k - 1, page, frame);
    }
  }

  /** So a run that fences its page tables is the run of the architecture, instruction by instruction. */
  lemma FencedRunIsStrict(b: Board, trace: seq<Cpu>, frames: seq<Frame>, inputs: seq<Input>, k: int)
    requires ValidBoard(b) && IsRun(b, trace, frames, inputs) && Fenced(b, trace) && 0 <= k < |inputs|
    ensures trace[k + 1] == StrictStep(b, trace[k], inputs[k])
  {
    assert RunsAt(b, trace, frames, inputs, k);
    var j :| 0 <= j <= k && trace[j].epoch == trace[k].epoch && Maps(b, trace[j], trace[k].hart.pc / 4096, frames[k]);
    MappingLasts(b, trace, frames, inputs, j, k, trace[k].hart.pc / 4096, frames[k]);
    StrictFrame(b, trace[k], inputs[k], frames[k]);
  }
}
