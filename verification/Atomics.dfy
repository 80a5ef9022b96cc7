/**
  The read-modify-write step of the atomics.

  `Combine` is the arithmetic of the instruction set on 32-bit words.  The jump
  table works on mlog numbers: sums are not truncated, signed operands are made
  negative, and one mask at the end makes a word again.
 */
module Atomics {
  import opened Numbers
  import opened MulDiv

  datatype AmoOp = Add | Swap | Xor | Or | And | Min | MinU | Max | MaxU

  /** The operation of an op_id; -45 and -44 are LR.W and SC.W. */
  function OpOf(opId: int): AmoOp {
    if opId == -47 then Add else if opId == -46 then Swap else if opId == -43 then Xor else if opId == -42 then Or
    else if opId == -41 then And else if opId == -40 then Min else if opId == -39 then Max else if opId == -38 then MinU
    else MaxU
  }

  predicate IsAmo(opId: int) { opId == -47 || opId == -46 || -43 <= opId <= -37 }

  function IdOf(op: AmoOp): int {
    match op
    case Add => -47
    case Swap => -46
    case Xor => -43
    case Or => -42
    case And => -41
    case Min => -40
    case Max => -39
    case MinU => -38
    case MaxU => -37
  }

  lemma IdRoundTrip(op: AmoOp)
    ensures IsAmo(IdOf(op)) && OpOf(IdOf(op)) == op
  {
  }

  function Combine(op: AmoOp, a: UInt32, b: UInt32): UInt32 {
    match op
    case Add => (a + b) % 0x1_0000_0000
    case Swap => b
    case Xor => GateWord(XorGate, a, b)
    case Or => GateWord(OrGate, a, b)
    case And => GateWord(AndGate, a, b)
    case Min => if Signed(a) < Signed(b) then a else b
    case Max => if Signed(a) < Signed(b) then b else a
    case MinU => if a < b then a else b
    case MaxU => if a < b then b else a
  }

  /** The same on the bits of words. */
  function CombineBits(op: AmoOp, a: bv32, b: bv32): bv32 { Combine(op, a as int, b as int) as bv32 }

  // --- the worker's steps -----------------------------------------------------

  /** The operation at a place of the jump table. */
  function OpAt(offset: int): AmoOp {
    if offset == 0 then Add else if offset == 2 then Swap else if offset == 4 then Xor else if offset == 6 then Or
    else if offset == 8 then And else if offset == 10 then Min else if offset == 12 then MinU
    else if offset == 14 then Max else MaxU
  }

  /** The character table that maps an op_id to its place in the jump table. */
  method AmoOffset(opId: int) returns (offset: int)
    requires IsAmo(opId)
    ensures OpAt(offset) == OpOf(opId) && offset % 2 == 0 && 0 <= offset <= 16
  {
    var table := "@B__DFHJNLP";
    offset := table[opId + 47] as int - 64;
  }

  lemma WordIsLow(a: UInt32)
    ensures Low32(a) == a && Low32(Signed(a)) == a
  {
  }

  /** A bitwise operation on two words gives a word. */
  method Whole(word: UInt32) returns (result: int)
    ensures result == word && Low32(result) == word
  {
    WordIsLow(word);
    result := word;
  }

  method AmoPlain(offset: int, rs1: UInt32, rs2: UInt32) returns (result: int)
    requires offset == 0 || offset == 2
    ensures Low32(result) == Combine(OpAt(offset), rs1, rs2)
  {
    result := if offset == 0 then rs1 + rs2 else rs2;
  }

  /** The entries of the table up to the logic operations. */
  method AmoLogic(offset: int, rs1: UInt32, rs2: UInt32) returns (result: int)
    requires offset % 2 == 0 && 0 <= offset <= 8
    ensures Low32(result) == Combine(OpAt(offset), rs1, rs2)
  {
    if offset <= 2 {
      result := AmoPlain(offset, rs1, rs2);
    } else if offset == 4 {
      result := Whole(GateWord(XorGate, rs1, rs2));
    } else if offset == 6 {
      result := Whole(GateWord(OrGate, rs1, rs2));
    } else {
      result := Whole(GateWord(AndGate, rs1, rs2));
    }
  }

  /** The entries for minimum and maximum: the signed ones convert both operands and continue into the unsigned ones. */
  method AmoMinMax(offset: int, rs1: UInt32, rs2: UInt32) returns (result: int)
    requires offset % 2 == 0 && 10 <= offset <= 16
    ensures Low32(result) == Combine(OpAt(offset), rs1, rs2)
  {
    var a, b := rs1, rs2;
    WordIsLow(rs1);
    WordIsLow(rs2);
    if offset == 10 || offset == 14 {
      a, b := UnsignedToSigned(rs1, rs2);
    }
    if offset <= 12 {
      result := if a < b then a else b;
    } else {
      result := if a > b then a else b;
    }
  }

  /** The jump table, up to the mask that makes a word of the result. */
  method AmoModify(offset: int, loaded: UInt32, rs2: UInt32) returns (value: UInt32)
    requires offset % 2 == 0 && 0 <= offset <= 16
    ensures value == Combine(OpAt(offset), loaded, rs2)
  {
    var result;
    if offset <= 8 {
      result := AmoLogic(offset, loaded, rs2);
    } else {
      result := AmoMinMax(offset, loaded, rs2);
    }
    value := Low32(result);
  }
}
