/**
  The label table of this machine: its configured instruction list, resolved and
  filled in, takes an opcode to its decoding routine and an op_id to its handler.
 */
module Labels {
  import opened Options
  import opened Decoder
  import opened Isa
  import opened Handlers
  import Alu
  import Atomics
  import Privilege
  import Dispatch

  /** What a label stands for: a decoding routine, or the handler of an operation. */
  datatype Routine = IllegalWord | Loads | Custom0 | MiscMem | OpImm | AuipcWord | Stores | Amos | OpWords | LuiWord
                   | Branches | JalrWord | JalWord | System | Run(op: Op)

  /** The op_id that a decoding routine finds. */
  function FoundId(r: Routine, funct3: bv3, funct7: bv7): bv7 {
    match r
    case Loads => LoadId(funct3)
    case Custom0 => CustomId(funct3)
    case MiscMem => MiscMemId(funct3)
    case OpImm => OpImmId(funct3, funct7)
    case AuipcWord => 120
    case Stores => StoreId(funct3)
    case Amos => AmoId(funct3, (funct7 >> 2) as bv5)
    case OpWords => OpId(funct3, funct7)
    case LuiWord => 75
    case Branches => BranchId(funct3)
    case JalrWord => 67
    case JalWord => 66
    case System => SystemId(funct3)
    case _ => ILLEGAL
  }

  // --- the configured list ----------------------------------------------------

  // The decoding routines by opcode, with the number of opcodes that follow each other.

  function LowDecoders(): seq<(Routine, int)> {
    [(Loads, 1), (IllegalWord, 1), (Custom0, 1), (MiscMem, 1), (OpImm, 1), (AuipcWord, 1), (IllegalWord, 1),
     (IllegalWord, 1), (Stores, 1), (IllegalWord, 1), (IllegalWord, 1)]
  }

  function HighDecoders(): seq<(Routine, int)> {
    [(Amos, 1), (OpWords, 1), (LuiWord, 1), (IllegalWord, 10), (Branches, 1), (JalrWord, 1), (IllegalWord, 1),
     (JalWord, 1), (System, 1), (IllegalWord, 3)]
  }

  function Decoders(): (s: seq<(Routine, int)>)
    ensures |s| == 21
  {
    LowDecoders() + HighDecoders()
  }

  function BranchOps(): seq<Op> {
    [Op.Branch(Alu.Equal), Op.Branch(Alu.NotEqual), Jal, Jalr, Op.Branch(Alu.Below), Op.Branch(Alu.AboveOrEqual),
     Op.Branch(Alu.BelowU), Op.Branch(Alu.AboveOrEqualU)]
  }

  function MemoryOps(): seq<Op> {
    [LoadInt(1, true), LoadInt(2, true), LoadInt(4, false), Lui, LoadInt(1, false), LoadInt(2, false), StoreInt(1),
     StoreInt(2), StoreInt(4)]
  }

  function AtomicOps(): seq<Op> {
    [Atomic(Atomics.Add), Atomic(Atomics.Swap), Reserve, Conditional, Atomic(Atomics.Xor), Atomic(Atomics.Or),
     Atomic(Atomics.And), Atomic(Atomics.Min), Atomic(Atomics.Max), Atomic(Atomics.MinU), Atomic(Atomics.MaxU)]
  }

  function ImmediateOps(): seq<Op> {
    [Arith(Alu.Addition, true), Arith(Alu.Subtraction, false), Arith(Alu.Less, true), Arith(Alu.LessU, true),
     Arith(Alu.Exclusive, true), Arith(Alu.RightSigned, false), Arith(Alu.Either, true), Arith(Alu.Both, true)]
  }

  function RegisterOps(): seq<Op> {
    [Arith(Alu.Addition, false), Arith(Alu.Left, false), Arith(Alu.Less, false), Arith(Alu.LessU, false),
     Arith(Alu.Exclusive, false), Arith(Alu.Right, false), Arith(Alu.Either, false), Arith(Alu.Both, false)]
  }

  function MultiplyOps(): seq<Op> {
    [Arith(Alu.Product, false), Arith(Alu.High, false), Arith(Alu.HighMixed, false), Arith(Alu.HighU, false),
     Arith(Alu.Quotient, false), Arith(Alu.QuotientU, false), Arith(Alu.Rest, false), Arith(Alu.RestU, false)]
  }

  function ControlOps(): seq<Op> {
    [Priv, CsrModify(Privilege.ReadWrite, false), CsrModify(Privilege.SetBits, false),
     CsrModify(Privilege.ClearBits, false), Auipc, CsrModify(Privilege.ReadWrite, true),
     CsrModify(Privilege.SetBits, true), CsrModify(Privilege.ClearBits, true), Fence, Arith(Alu.Left, true),
     Arith(Alu.Right, true), Arith(Alu.RightSigned, true), Op.Illegal, InitIcache]
  }

  /** The handlers, in the order of their slots. */
  function Ops(): (s: seq<Op>)
    ensures |s| == 66
  {
    BranchOps() + MemoryOps() + AtomicOps() + ImmediateOps() + RegisterOps() + MultiplyOps() + ControlOps()
  }

  /** The first handler is placed at 128; the last entry fills the table up to 255. */
  function HandlerEntry(i: int): Dispatch.Instruction<Routine>
    requires 0 <= i <= 66
  {
    if i == 66 then Dispatch.Instruction(Run(Op.Illegal), 1, Some(255), 1, None)
    else Dispatch.Instruction(Run(Ops()[i]), 1, None, 1, if i == 0 then Some(128) else None)
  }

  /** The configured list. */
  function List(): (s: seq<Dispatch.Instruction<Routine>>)
    ensures |s| == 88
    ensures forall i :: 0 <= i < 88 ==> s[i] == ListAt(i)
  {
    seq(88, i requires 0 <= i < 88 => ListAt(i))
  }

  /** Decoders are four slots apart. */
  function ListAt(i: int): Dispatch.Instruction<Routine>
    requires 0 <= i < 88
  {
    if i < 21 then Dispatch.Instruction(Decoders()[i].0, Decoders()[i].1, None, 4, None) else HandlerEntry(i - 21)
  }

  lemma DecoderCount(i: int)
    requires 0 <= i < 21
    ensures Decoders()[i].1 == if i == 14 then 10 else if i == 20 then 3 else 1
  {
  }

  lemma ListValid()
    ensures forall i :: 0 <= i < 88 ==> Dispatch.ValidInstruction(List()[i])
  {
    forall i | 0 <= i < 88 ensures Dispatch.ValidInstruction(List()[i]) {
      if i < 21 {
        DecoderCount(i);
      }
    }
  }

  /** Entries that follow each other as in the list. */
  ghost predicate Placing(r: seq<Dispatch.Entry<Routine>>) {
    (forall i :: 0 <= i < 88 ==> Dispatch.ValidInstruction(List()[i])) && Dispatch.Layout(List(), r)
  }

  // --- the decoders' part -----------------------------------------------------

  /** Slots before the entry at `i`, in fours. */
  function DecoderStart(i: int): int { if i <= 14 then i else if i <= 20 then i + 9 else 32 }

  lemma {:induction false} DecoderSlots(i: int)
    requires 0 <= i <= 21
    ensures Dispatch.SlotsBefore(List(), i) == DecoderStart(i)
    decreases i
  {
    if i > 0 {
      DecoderSlots(i - 1);
      DecoderCount(i - 1);
    }
  }

  /** The entry of an opcode. */
  function EntryOf(opcode: int): int {
    if opcode < 14 then opcode else if opcode < 24 then 14 else if opcode < 29 then opcode - 9 else 20
  }

  lemma DecodersEnd(r: seq<Dispatch.Entry<Routine>>, i: int)
    requires Placing(r) && 0 <= i <= |r| && i <= 21
    ensures Dispatch.EndOf(r, i) == 4 * DecoderStart(i)
    ensures i > 0 ==> r[i - 1].address == 4 * DecoderStart(i - 1)
  {
    Dispatch.UniformLayout(List(), r, 4, i);
    DecoderSlots(i);
    if i > 0 {
      DecoderSlots(i - 1);
    }
  }

  // --- the handlers' part -----------------------------------------------------

  lemma {:induction false} HandlersEnd(r: seq<Dispatch.Entry<Routine>>, i: int)
    requires Placing(r) && 0 <= i <= 66 && 21 + i <= |r|
    ensures Dispatch.EndOf(r, 21 + i) == 128 + i
    ensures i > 0 ==> r[20 + i] == Dispatch.Entry(Run(Ops()[i - 1]), 1, 1, 127 + i)
    decreases i
  {
    if i == 0 {
      DecodersEnd(r, 21);
    } else {
      HandlersEnd(r, i - 1);
      assert Dispatch.EntryAt(List(), r, 20 + i);
    }
  }

  lemma LastEntry(r: seq<Dispatch.Entry<Routine>>)
    requires Placing(r) && |r| == 88
    ensures r[87] == Dispatch.Entry(Run(Op.Illegal), 62, 1, 194)
  {
    HandlersEnd(r, 66);
    assert Dispatch.EntryAt(List(), r, 87);
  }

  /** Every entry of the list has a place. */
  lemma Accepted(r: seq<Dispatch.Entry<Routine>>) returns (f: Dispatch.Entry<Routine>)
    requires Placing(r) && |r| < 88
    ensures Dispatch.Resolves(List()[|r|], f, Dispatch.EndOf(r, |r|))
  {
    var n := |r|;
    if n < 21 {
      DecodersEnd(r, n);
      f := Dispatch.Entry(Decoders()[n].0, Decoders()[n].1, 4, 4 * DecoderStart(n));
    } else {
      HandlersEnd(r, n - 21);
      f := if n == 87 then Dispatch.Entry(Run(Op.Illegal), 62, 1, 194)
           else Dispatch.Entry(Run(Ops()[n - 21]), 1, 1, 107 + n);
    }
  }

  // --- the table --------------------------------------------------------------

  /** Where the worker looks up an op_id, taken as a signed number. */
  function HandlerIndex(opId: bv7): int { SignedId(opId) + 192 }

  lemma DecoderHeld(r: seq<Dispatch.Entry<Routine>>, table: Dispatch.Table<Routine>, opcode: int)
    requires Placing(r) && |r| == 88 && Dispatch.Holds(r, 88, table) && 0 <= opcode < 32
    ensures 4 * opcode in table && table[4 * opcode] == Decoders()[EntryOf(opcode)].0
  {
    var i := EntryOf(opcode);
    DecodersEnd(r, i + 1);
    DecoderCount(i);
    assert Dispatch.EntryAt(List(), r, i);
    var k := opcode - DecoderStart(i);
    assert Dispatch.SlotOf(r[i], k) == 4 * opcode;
  }

  lemma HandlerHeld(r: seq<Dispatch.Entry<Routine>>, table: Dispatch.Table<Routine>, slot: int)
    requires Placing(r) && |r| == 88 && Dispatch.Holds(r, 88, table) && 128 <= slot < 256
    ensures slot in table && table[slot] == Run(if slot < 194 then Ops()[slot - 128] else Op.Illegal)
  {
    if slot < 194 {
      HandlersEnd(r, slot - 127);
      assert Dispatch.SlotOf(r[slot - 107], 0) == slot;
    } else {
      LastEntry(r);
      assert Dispatch.SlotOf(r[87], slot - 194) == slot;
    }
  }

  // --- what the slots mean ----------------------------------------------------

  lemma LowDecoder(opcode: bv5, i: int, funct3: bv3, funct7: bv7)
    requires opcode < 0x0b && i == opcode as int
    ensures FoundId(LowDecoders()[i].0, funct3, funct7) == OpcodeId(opcode, funct3, funct7)
  {
  }

  lemma HighDecoder(opcode: bv5, i: int, funct3: bv3, funct7: bv7)
    requires opcode >= 0x0b && i == EntryOf(opcode as int) - 11
    ensures FoundId(HighDecoders()[i].0, funct3, funct7) == OpcodeId(opcode, funct3, funct7)
  {
  }

  lemma DecoderFinds(opcode: bv5, funct3: bv3, funct7: bv7)
    ensures FoundId(Decoders()[EntryOf(opcode as int)].0, funct3, funct7) == OpcodeId(opcode, funct3, funct7)
  {
    if opcode < 0x0b {
      LowDecoder(opcode, opcode as int, funct3, funct7);
    } else {
      HighDecoder(opcode, EntryOf(opcode as int) - 11, funct3, funct7);
    }
  }

  lemma BranchRow(opId: bv7, i: int)
    requires 64 <= opId < 72 && i == opId as int - 64
    ensures BranchOps()[i] == BranchHandler(opId)
  {
  }

  lemma MemoryRow(opId: bv7, i: int)
    requires 72 <= opId < 81 && i == opId as int - 72
    ensures MemoryOps()[i] == MemoryHandler(opId)
  {
  }

  lemma AtomicRow(opId: bv7, i: int)
    requires 81 <= opId < 92 && i == opId as int - 81
    ensures AtomicOps()[i] == AtomicHandler(opId)
  {
  }

  lemma ImmediateRow(opId: bv7, i: int)
    requires 92 <= opId < 100 && i == opId as int - 92
    ensures ImmediateOps()[i] == ImmediateHandler(opId)
  {
  }

  lemma RegisterRow(opId: bv7, i: int)
    requires 100 <= opId < 108 && i == opId as int - 100
    ensures RegisterOps()[i] == RegisterHandler(opId)
  {
  }

  lemma MultiplyRow(opId: bv7, i: int)
    requires 108 <= opId < 116 && i == opId as int - 108
    ensures MultiplyOps()[i] == MultiplyHandler(opId)
  {
  }

  lemma SystemRow(opId: bv7, i: int)
    requires 116 <= opId && i == opId as int - 116
    ensures ControlOps()[i] == SystemHandler(opId)
  {
  }

  lemma OpsRows(i: int)
    requires 0 <= i < 66
    ensures i < 8 ==> Ops()[i] == BranchOps()[i]
    ensures 8 <= i < 17 ==> Ops()[i] == MemoryOps()[i - 8]
    ensures 17 <= i < 28 ==> Ops()[i] == AtomicOps()[i - 17]
    ensures 28 <= i < 36 ==> Ops()[i] == ImmediateOps()[i - 28]
    ensures 36 <= i < 44 ==> Ops()[i] == RegisterOps()[i - 36]
    ensures 44 <= i < 52 ==> Ops()[i] == MultiplyOps()[i - 44]
    ensures 52 <= i ==> Ops()[i] == ControlOps()[i - 52]
  {
  }

  lemma RowOf(opId: bv7, i: int)
    requires 64 <= opId && i == opId as int - 64
    ensures 0 <= i < 64 && Ops()[i] == HandlerOf(opId)
  {
    OpsRows(i);
    if opId < 72 {
      BranchRow(opId, i);
    } else if opId < 81 {
      MemoryRow(opId, i - 8);
    } else if opId < 92 {
      AtomicRow(opId, i - 17);
    } else if opId < 100 {
      ImmediateRow(opId, i - 28);
    } else if opId < 108 {
      RegisterRow(opId, i - 36);
    } else if opId < 116 {
      MultiplyRow(opId, i - 44);
    } else {
      SystemRow(opId, i - 52);
    }
  }

  lemma FirstRows(opId: bv7, i: int)
    requires opId < 64 && i == opId as int
    ensures 0 <= i < 64 && HandlerOf(opId) == if i < 2 then Ops()[64 + i] else Op.Illegal
  {
    if i < 2 {
      OpsRows(64 + i);
    }
  }

  lemma HandlerFound(r: seq<Dispatch.Entry<Routine>>, table: Dispatch.Table<Routine>, opId: bv7)
    requires Placing(r) && |r| == 88 && Dispatch.Holds(r, 88, table)
    ensures HandlerIndex(opId) in table && table[HandlerIndex(opId)] == Run(HandlerOf(opId))
  {
    SignOfId(opId);
    if opId >= 64 {
      RowOf(opId, opId as int - 64);
    } else {
      FirstRows(opId, opId as int);
    }
    HandlerHeld(r, table, HandlerIndex(opId));
  }

  lemma SignOfId(opId: bv7)
    ensures HandlerIndex(opId) == if opId >= 64 then opId as int + 64 else opId as int + 192
    ensures 128 <= HandlerIndex(opId) < 256
  {
  }

  /** The routine at an opcode finds the op_id of the opcode. */
  predicate Decoding(table: Dispatch.Table<Routine>, opcode: bv5, funct3: bv3, funct7: bv7) {
    var slot := 4 * (opcode as int);
    slot in table && FoundId(table[slot], funct3, funct7) == OpcodeId(opcode, funct3, funct7)
  }

  /** The label at an op_id is the one of its handler. */
  predicate Handling(table: Dispatch.Table<Routine>, opId: bv7) {
    HandlerIndex(opId) in table && table[HandlerIndex(opId)] == Run(HandlerOf(opId))
  }

  /** The table that the controller builds from the list, which is accepted. */
  method BuildLabels() returns (table: Dispatch.Table<Routine>)
    ensures forall opcode, funct3, funct7 :: Decoding(table, opcode, funct3, funct7)
    ensures forall opId :: Handling(table, opId)
  {
    ListValid();
    var r, ok := Dispatch.ResolveInstructions(List());
    if !ok {
      var f := Accepted(r);
      assert false;
    }
    table := Dispatch.FillTable(List(), r);
    forall opcode, funct3, funct7 ensures Decoding(table, opcode, funct3, funct7) {
      DecoderHeld(r, table, opcode as int);
      DecoderFinds(opcode, funct3, funct7);
    }
    forall opId ensures Handling(table, opId) {
      HandlerFound(r, table, opId);
    }
  }
}
