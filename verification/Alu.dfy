/**
  The integer instructions on registers.

  `Compute` is the arithmetic of sections 2.4 and 7 of the RISC-V Unprivileged ISA
  (version 20191213), on integers.  The handlers work on doubles: they truncate
  before a left shift, and they extend a sign with an exclusive or and a
  subtraction.
 */
module Alu {
  import opened Numbers
  import opened MulDiv

  datatype AluOp = Addition | Subtraction | Less | LessU | Exclusive | Either | Both | Left | Right | RightSigned
                 | Product | High | HighMixed | HighU | Quotient | QuotientU | Rest | RestU

  function DivWord(a: UInt32, b: UInt32): UInt32 {
    if b == 0 then 0xffff_ffff else Low32(TruncDiv(Signed(a), Signed(b)))
  }

  function DivuWord(a: UInt32, b: UInt32): UInt32 { if b == 0 then 0xffff_ffff else Low32(TruncDiv(a, b)) }

  function RemWord(a: UInt32, b: UInt32): UInt32 { if b == 0 then a else Low32(Remainder(Signed(a), Signed(b))) }

  function RemuWord(a: UInt32, b: UInt32): UInt32 { if b == 0 then a else Low32(Remainder(a, b)) }

  /** The result of an instruction; a right shift of a signed number is a division that rounds down. */
  function Compute(op: AluOp, a: UInt32, b: UInt32): UInt32 {
    match op
    case Addition => Low32(a + b)
    case Subtraction => Low32(a - b)
    case Less => if Signed(a) < Signed(b) then 1 else 0
    case LessU => if a < b then 1 else 0
    case Exclusive => GateWord(XorGate, a, b)
    case Either => GateWord(OrGate, a, b)
    case Both => GateWord(AndGate, a, b)
    case Left => Low32(a * Pow2(b % 32))
    case Right => Low32(a / Pow2(b % 32))
    case RightSigned => Low32(Signed(a) / Pow2(b % 32))
    case Product => Low32(a * b)
    case High => Low32((Signed(a) * Signed(b)) / 0x1_0000_0000)
    case HighMixed => Low32((Signed(a) * b) / 0x1_0000_0000)
    case HighU => Low32((a * b) / 0x1_0000_0000)
    case Quotient => DivWord(a, b)
    case QuotientU => DivuWord(a, b)
    case Rest => RemWord(a, b)
    case RestU => RemuWord(a, b)
  }

  predicate IsShift(op: AluOp) { op == Left || op == Right || op == RightSigned }

  // --- flipping a bit ---------------------------------------------------------

  function Flipped(v: int, m: int): int { if v >= m then v - m else v + m }

  lemma {:induction false} XorZero(v: nat)
    ensures Bitwise(XorGate, v, 0) == v
    decreases v
  {
    if v > 0 {
      XorZero(v / 2);
    }
  }

  /** Flipping the top bit of a number. */
  lemma {:induction false} XorTop(v: nat, j: nat)
    requires v < 2 * Pow2(j)
    ensures Bitwise(XorGate, v, Pow2(j)) == Flipped(v, Pow2(j))
    decreases j
  {
    if j == 0 {
      XorOne(v);
    } else {
      XorTop(v / 2, j - 1);
      FlippedHalves(v, Pow2(j - 1));
    }
  }

  lemma XorOne(v: nat)
    requires v < 2
    ensures Bitwise(XorGate, v, 1) == Flipped(v, 1)
  {
    XorZero(v / 2);
  }

  lemma FlippedHalves(v: int, m: int)
    requires 0 <= v
    ensures 2 * Flipped(v / 2, m) + (if v % 2 == 2 * m % 2 then 0 else 1) == Flipped(v, 2 * m)
  {
  }

  // --- shifts -----------------------------------------------------------------

  lemma ScaledMod(x: int, p: int, q: int)
    requires 0 < p && 0 < q
    ensures (x % q) * p == (x * p) % (q * p)
  {
    var d, r := x / q, x % q;
    assert x * p == d * (q * p) + r * p by {
      assert x == d * q + r;
      assert (d * q + r) * p == d * q * p + r * p;
      assert d * q * p == d * (q * p);
    }
    assert 0 <= r * p < q * p by {
      SmallerProduct(r, q, p);
    }
    ModUnique(x * p, q * p, d, r * p);
  }

  lemma SmallerProduct(r: int, q: int, p: int)
    requires 0 <= r < q && 0 < p
    ensures 0 <= r * p < q * p
  {
  }

  lemma ModUnique(x: int, m: int, d: int, r: int)
    requires x == d * m + r && 0 <= r < m
    ensures x % m == r && x / m == d
  {
    var e, s := x / m, x % m;
    assert (e - d) * m == r - s by {
      assert (e - d) * m == e * m - d * m;
    }
    SmallMultiple(e - d, m, r - s);
  }

  lemma ShiftedLow(x: int, p: int, q: int)
    requires 0 < p && 0 < q && q * p == 0x1_0000_0000
    ensures (x % q) * p == Low32(x * p)
  {
    ScaledMod(x, p, q);
  }

  /** SLLI: truncating to the bits that stay, and then shifting. */
  method ShiftLeft(rs1: UInt32, imm: int) returns (rd: UInt32)
    requires 0 <= imm < 32
    ensures rd == Low32(rs1 * Pow2(imm))
  {
    var length := 32 - imm;
    var divisor := Pow2(length);
    Pow2Sum(length, imm);
    WordPower();
    ShiftedLow(rs1, Pow2(imm), divisor);
    rd := rs1 % divisor * Pow2(imm);
  }

  lemma QuotientAtLeast(a: int, p: int, b: int)
    requires 0 < p
    ensures a / p >= b <==> a >= p * b
  {
    var q := a / p;
    assert p * q <= a < p * q + p;
    if q >= b {
      LargerProduct(p, q, b);
    } else {
      LargerProduct(p, b, q + 1);
      assert p * (q + 1) == p * q + p;
    }
  }

  lemma PowerProduct(k: nat)
    requires k < 32
    ensures Pow2(k) * Pow2(31 - k) == 0x8000_0000 && Pow2(k) * (2 * Pow2(31 - k)) == 0x1_0000_0000
  {
    var j := 31 - k;
    Pow2Sum(k, j);
    WordPower();
    TwiceProduct(Pow2(k), Pow2(j));
  }

  lemma TwiceProduct(p: int, m: int)
    ensures p * (2 * m) == 2 * (p * m)
  {
  }

  lemma QuotientBound(a: UInt32, k: nat)
    requires k < 32
    ensures 0 <= a / Pow2(k) < 2 * Pow2(31 - k)
    ensures a / Pow2(k) >= Pow2(31 - k) <==> a >= 0x8000_0000
  {
    PowerProduct(k);
    QuotientAtLeast(a, Pow2(k), 0);
    QuotientAtLeast(a, Pow2(k), Pow2(31 - k));
    QuotientAtLeast(a, Pow2(k), 2 * Pow2(31 - k));
  }

  lemma LargerProduct(p: int, a: int, b: int)
    requires 0 < p && a >= b
    ensures p * a >= p * b
  {
  }

  /** Dividing a negative number: the same quotient, less the divisor's share of 2^32. */
  lemma SignedQuotient(a: UInt32, k: nat)
    requires k < 32
    ensures Signed(a) / Pow2(k) == if a >= 0x8000_0000 then a / Pow2(k) - 2 * Pow2(31 - k) else a / Pow2(k)
  {
    if a >= 0x8000_0000 {
      PowerProduct(k);
      var p, m := Pow2(k), Pow2(31 - k);
      var d, r := a / p, a % p;
      assert (d - 2 * m) * p == d * p - 2 * (p * m);
      ModUnique(a - 0x1_0000_0000, p, d - 2 * m, r);
    }
  }

  lemma MaskBound(k: nat)
    requires k < 32
    ensures 1 <= Pow2(31 - k) <= 0x8000_0000
  {
    WordPower();
    Pow2Sum(k, 31 - k);
    LargerProduct(Pow2(31 - k), Pow2(k), 1);
    assert Pow2(31 - k) * Pow2(k) == Pow2(k) * Pow2(31 - k);
  }

  /** extend_sign_rd on a number of `length` bits. */
  method ExtendSign(value: UInt32, length: int) returns (rd: UInt32)
    requires 1 <= length <= 32 && value < 2 * Pow2(length - 1) && Pow2(length - 1) <= 0x8000_0000
    ensures rd == Low32(if value >= Pow2(length - 1) then value - 2 * Pow2(length - 1) else value)
  {
    var mask := Pow2(length - 1);
    XorTop(value, length - 1);
    var r := GateWord(XorGate, value, mask);
    r := r - mask;
    rd := Low32(r);
  }

  /** SRAI */
  method ShiftRightSigned(rs1: UInt32, imm: int) returns (rd: UInt32)
    requires 0 <= imm < 32
    ensures rd == Low32(Signed(rs1) / Pow2(imm))
  {
    QuotientBound(rs1, imm);
    MaskBound(imm);
    SignedQuotient(rs1, imm);
    rd := rs1 / Pow2(imm);
    var length := 32 - imm;
    rd := ExtendSign(rd, length);
  }

  // --- the handlers -----------------------------------------------------------

  method ShiftRight(rs1: UInt32, imm: int) returns (rd: UInt32)
    requires 0 <= imm < 32
    ensures rd == Low32(rs1 / Pow2(imm))
  {
    QuotientBound(rs1, imm);
    MaskBound(imm);
    rd := rs1 / Pow2(imm);
  }

  /** SLL, SRL and SRA truncate the amount and continue into the immediate forms. */
  method Shift(op: AluOp, rs1: UInt32, operand: UInt32, immediate: bool) returns (rd: UInt32)
    requires IsShift(op) && (immediate ==> operand < 32)
    ensures rd == Compute(op, rs1, operand)
  {
    var imm := if immediate then operand else operand % 32;
    assert imm == operand % 32;
    match op
    case Left => rd := ShiftLeft(rs1, imm);
    case Right => rd := ShiftRight(rs1, imm);
    case RightSigned => rd := ShiftRightSigned(rs1, imm);
  }

  /** Adding the two's complement is subtracting. */
  lemma Complement(a: UInt32, b: UInt32)
    ensures Low32(a + (0x1_0000_0000 - b) % 0x1_0000_0000) == Low32(a - b)
  {
    if b != 0 {
      assert (0x1_0000_0000 - b) % 0x1_0000_0000 == 0x1_0000_0000 - b;
      OneMore(a - b);
    }
  }

  lemma OneMore(x: int)
    ensures (x + 0x1_0000_0000) % 0x1_0000_0000 == x % 0x1_0000_0000
  {
  }

  method AddOrSub(op: AluOp, rs1: UInt32, operand: UInt32) returns (rd: UInt32)
    requires op == Addition || op == Subtraction
    ensures rd == Compute(op, rs1, operand)
  {
    var rs2: int := operand;
    if op == Subtraction {
      rs2 := 0x1_0000_0000 - rs2;
      rs2 := rs2 % 0x1_0000_0000;
      Complement(rs1, operand);
    }
    var imm := rs2;
    rd := Low32(rs1 + imm);
  }

  /** SLT converts both operands and continues into SLTU. */
  method SetLess(op: AluOp, rs1: UInt32, operand: UInt32) returns (rd: UInt32)
    requires op == Less || op == LessU
    ensures rd == Compute(op, rs1, operand)
  {
    var a, b := rs1, operand;
    if op == Less {
      a, b := UnsignedToSigned(rs1, operand);
    }
    rd := if a < b then 1 else 0;
  }

  method Logic(op: AluOp, rs1: UInt32, operand: UInt32) returns (rd: UInt32)
    requires op == Exclusive || op == Either || op == Both
    ensures rd == Compute(op, rs1, operand)
  {
    rd := if op == Exclusive then GateWord(XorGate, rs1, operand)
          else if op == Either then GateWord(OrGate, rs1, operand)
          else GateWord(AndGate, rs1, operand);
  }

  method Multiply(op: AluOp, rs1: UInt32, rs2: UInt32) returns (rd: UInt32)
    requires op == Product || op == High || op == HighMixed || op == HighU
    ensures rd == Compute(op, rs1, rs2)
  {
    match op
    case Product => rd := Mul(rs1, rs2);
    case High => rd := Mulh(rs1, rs2);
    case HighMixed => rd := Mulhsu(rs1, rs2);
    case HighU => rd := Mulhu(rs1, rs2);
  }

  method DivideSigned(rs1: UInt32, rs2: UInt32, fdiv: (int, int) -> real) returns (rd: UInt32)
    requires RoundsToNearest(fdiv)
    ensures rd == DivWord(rs1, rs2)
  {
    ghost var q;
    rd, q := Div(rs1, rs2, fdiv);
  }

  method DivideUnsigned(rs1: UInt32, rs2: UInt32, fdiv: (int, int) -> real) returns (rd: UInt32)
    requires RoundsToNearest(fdiv)
    ensures rd == DivuWord(rs1, rs2)
  {
    rd := Divu(rs1, rs2, fdiv);
  }

  method RestSigned(rs1: UInt32, rs2: UInt32) returns (rd: UInt32)
    ensures rd == RemWord(rs1, rs2)
  {
    rd := Rem(rs1, rs2);
  }

  method RestUnsigned(rs1: UInt32, rs2: UInt32) returns (rd: UInt32)
    ensures rd == RemuWord(rs1, rs2)
  {
    rd := Remu(rs1, rs2);
  }

  method Divide(op: AluOp, rs1: UInt32, rs2: UInt32, fdiv: (int, int) -> real) returns (rd: UInt32)
    requires RoundsToNearest(fdiv) && (op == Quotient || op == QuotientU || op == Rest || op == RestU)
    ensures rd == Compute(op, rs1, rs2)
  {
    match op
    case Quotient => rd := DivideSigned(rs1, rs2, fdiv);
    case QuotientU => rd := DivideUnsigned(rs1, rs2, fdiv);
    case Rest => rd := RestSigned(rs1, rs2);
    case RestU => rd := RestUnsigned(rs1, rs2);
  }

  /** The handler of an instruction. */
  method Execute(op: AluOp, rs1: UInt32, operand: UInt32, immediate: bool, fdiv: (int, int) -> real)
      returns (rd: UInt32)
    requires RoundsToNearest(fdiv) && (immediate && IsShift(op) ==> operand < 32)
    ensures rd == Compute(op, rs1, operand)
  {
    if IsShift(op) {
      rd := Shift(op, rs1, operand, immediate);
    } else if op == Addition || op == Subtraction {
      rd := AddOrSub(op, rs1, operand);
    } else if op == Less || op == LessU {
      rd := SetLess(op, rs1, operand);
    } else if op == Exclusive || op == Either || op == Both {
      rd := Logic(op, rs1, operand);
    } else if op == Product || op == High || op == HighMixed || op == HighU {
      rd := Multiply(op, rs1, operand);
    } else {
      rd := Divide(op, rs1, operand, fdiv);
    }
  }

  // --- branches ---------------------------------------------------------------

  datatype Condition = Equal | NotEqual | Below | AboveOrEqual | BelowU | AboveOrEqualU

  predicate Holds(cond: Condition, a: UInt32, b: UInt32) {
    match cond
    case Equal => a == b
    case NotEqual => a != b
    case Below => Signed(a) < Signed(b)
    case AboveOrEqual => Signed(a) >= Signed(b)
    case BelowU => a < b
    case AboveOrEqualU => a >= b
  }

  /** BLT and BGE convert both operands and continue into BLTU and BGEU. */
  method Test(cond: Condition, rs1: UInt32, rs2: UInt32) returns (taken: bool)
    ensures taken == Holds(cond, rs1, rs2)
  {
    var a, b := rs1, rs2;
    if cond == Below || cond == AboveOrEqual {
      a, b := UnsignedToSigned(rs1, rs2);
    }
    match cond
    case Equal => taken := a == b;
    case NotEqual => taken := a != b;
    case Below => taken := a < b;
    case BelowU => taken := a < b;
    case AboveOrEqual => taken := a >= b;
    case AboveOrEqualU => taken := a >= b;
  }
}
