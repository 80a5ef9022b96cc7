/**
  What the instructions do to the pc, the registers and the bytes of memory.

  `Isa.Execute` is what the worker is proved to do; here its results are stated
  once more, in numbers and bits, so that they can be compared with the manual
  line by line.
 */
module Instructions {
  import opened Options
  import opened Numbers
  import opened Bits
  import opened Isa
  import opened AddressMap
  import opened LoadStore
  import opened Translation
  import Alu
  import Arithmetic
  import Atomics
  import Bytes
  import Memory
  import PageTables
  import PageWalk
  import Privilege
  import PrivilegedBits

  /** `r` is `regs` with `v` in `rd`; x0 stays zero. */
  predicate Updated(regs: seq<int>, rd: int, v: int, r: seq<int>) {
    |r| == |regs| && forall k :: 0 <= k < |regs| ==> r[k] == if k == rd && k != 0 then v else regs[k]
  }

  // --- jumps ------------------------------------------------------------------

  /** The pc is at `t` and rd holds the address of the next instruction; or, if `t` is misaligned, the hart takes an
      exception with cause 0 and value `t` and keeps its registers. */
  ghost predicate JumpsTo(s: Cpu, r: Cpu, rd: int, t: int)
    requires |s.regs| == 32
  {
    if t % 4 == 0 then
      && r.hart == s.hart.(pc := t) && Updated(s.regs, rd, (s.hart.pc + 4) % 0x1_0000_0000, r.regs)
      && r.view == s.view && r.power == s.power && r.epoch == s.epoch
    else r == Trapped(s, 0, t)
  }

  lemma Lands(s: Cpu, rd: int, target: int, t: int)
    requires |s.regs| == 32 && IsRegister(rd) && 0 <= t < 0x1_0000_0000 && (target - t) % 0x1_0000_0000 == 0
    ensures JumpsTo(s, Jumped(s, rd, target), rd, t)
  {
    SameRest(target, t);
  }

  lemma SameRest(a: int, t: int)
    requires 0 <= t < 0x1_0000_0000 && (a - t) % 0x1_0000_0000 == 0
    ensures a % 0x1_0000_0000 == t
  {
  }

  lemma EvenBelow(a: int, sum: int, t: int)
    requires 0 <= sum < 0x1_0000_0000 && (a - sum) % 0x1_0000_0000 == 0
    requires t % 2 == 0 && (t == sum || t == sum - 1)
    ensures (a - a % 2 - t) % 0x1_0000_0000 == 0
  {
    var q := (a - sum) / 0x1_0000_0000;
    assert a == sum + q * 0x1_0000_0000;
  }

  lemma JalrTarget(s: Cpu, i: Instruction, sum: int, t: int)
    requires ValidRegs(s.regs) && ValidInstruction(i) && i.op == Jalr
    requires 0 <= sum < 0x1_0000_0000 && (s.regs[i.rs1] + i.imm - sum) % 0x1_0000_0000 == 0
    requires t % 2 == 0 && (t == sum || t == sum - 1)
    ensures (JumpTarget(s, i) - t) % 0x1_0000_0000 == 0
  {
    EvenBelow(s.regs[i.rs1] + i.imm, sum, t);
  }

  lemma JumpIs(b: Board, s: Cpu, i: Instruction, input: Input)
    requires ValidBoard(b) && Sound(b, s) && ValidInstruction(i) && IsJump(i.op)
    ensures Execute(b, s, i, input)
         == if JumpTaken(s, i) then Jumped(s, JumpRd(i), JumpTarget(s, i)) else Continued(s)
  {
  }

  lemma AlwaysJumps(b: Board, s: Cpu, i: Instruction, input: Input)
    requires ValidBoard(b) && Sound(b, s) && ValidInstruction(i) && (i.op == Jal || i.op == Jalr)
    ensures Execute(b, s, i, input) == Jumped(s, i.rd, JumpTarget(s, i))
  {
    JumpIs(b, s, i, input);
  }

  /** JALR: the sum without its lowest bit. */
  lemma JalrJumps(b: Board, s: Cpu, i: Instruction, input: Input, sum: int, t: int)
    requires ValidBoard(b) && Sound(b, s) && ValidInstruction(i) && i.op == Jalr
    requires 0 <= sum < 0x1_0000_0000 && (s.regs[i.rs1] + i.imm - sum) % 0x1_0000_0000 == 0
    requires t % 2 == 0 && (t == sum || t == sum - 1)
    ensures JumpsTo(s, Execute(b, s, i, input), i.rd, t)
  {
    JalrTarget(s, i, sum, t);
    AlwaysJumps(b, s, i, input);
    Lands(s, i.rd, JumpTarget(s, i), t);
  }

  /** In bits: all those of the sum but the lowest. */
  lemma EvenBits(sum: UInt32, t: int, k: nat)
    requires t % 2 == 0 && (t == sum || t == sum - 1)
    ensures BitOf(t, k) == if k == 0 then 0 else BitOf(sum, k)
  {
    if k > 0 {
      BitOfHalf(t, k);
      BitOfHalf(sum, k);
      HalfBelow(sum, t);
    } else {
      BitZero(t);
    }
  }

  lemma BitOfHalf(v: int, k: nat)
    requires k > 0
    ensures BitOf(v, k) == BitOf(v / 2, k - 1)
  {
    assert Pow2(1) == 2;
    BitDown(v, k - 1, 1);
  }

  lemma HalfBelow(sum: int, t: int)
    requires t % 2 == 0 && (t == sum || t == sum - 1)
    ensures t / 2 == sum / 2
  {
  }

  lemma RelativeTarget(s: Cpu, i: Instruction, t: int)
    requires ValidRegs(s.regs) && ValidInstruction(i) && i.op != Jalr
    requires (s.hart.pc + i.imm - t) % 0x1_0000_0000 == 0
    ensures (JumpTarget(s, i) - t) % 0x1_0000_0000 == 0
  {
  }

  /** JAL: the pc and the offset. */
  lemma JalJumps(b: Board, s: Cpu, i: Instruction, input: Input, t: int)
    requires ValidBoard(b) && Sound(b, s) && ValidInstruction(i) && i.op == Jal
    requires 0 <= t < 0x1_0000_0000 && (s.hart.pc + i.imm - t) % 0x1_0000_0000 == 0
    ensures JumpsTo(s, Execute(b, s, i, input), i.rd, t)
  {
    RelativeTarget(s, i, t);
    AlwaysJumps(b, s, i, input);
    Lands(s, i.rd, JumpTarget(s, i), t);
  }

  /** The comparison of a branch. */
  predicate Compares(condition: Alu.Condition, a: int, b: int, sa: int, sb: int) {
    match condition
    case Equal => a == b
    case NotEqual => a != b
    case Below => sa < sb
    case AboveOrEqual => sa >= sb
    case BelowU => a < b
    case AboveOrEqualU => a >= b
  }

  lemma BranchTaken(s: Cpu, i: Instruction, sa: int, sb: int)
    requires ValidRegs(s.regs) && ValidInstruction(i) && i.op.Branch?
    requires Arithmetic.Stands(sa, s.regs[i.rs1]) && Arithmetic.Stands(sb, s.regs[i.rs2])
    ensures JumpTaken(s, i) <==> Compares(i.op.condition, s.regs[i.rs1], s.regs[i.rs2], sa, sb)
  {
    Arithmetic.SignedStands(s.regs[i.rs1], sa);
    Arithmetic.SignedStands(s.regs[i.rs2], sb);
  }

  /** A branch writes no register. */
  lemma BranchJumps(b: Board, s: Cpu, i: Instruction, input: Input, sa: int, sb: int, t: int)
    requires ValidBoard(b) && Sound(b, s) && ValidInstruction(i) && i.op.Branch?
    requires Arithmetic.Stands(sa, s.regs[i.rs1]) && Arithmetic.Stands(sb, s.regs[i.rs2])
    requires 0 <= t < 0x1_0000_0000 && (s.hart.pc + i.imm - t) % 0x1_0000_0000 == 0
    ensures if Compares(i.op.condition, s.regs[i.rs1], s.regs[i.rs2], sa, sb)
            then JumpsTo(s, Execute(b, s, i, input), 0, t)
            else Execute(b, s, i, input) == s.(hart := s.hart.(pc := s.hart.pc + 4))
  {
    BranchTaken(s, i, sa, sb);
    RelativeTarget(s, i, t);
    JumpIs(b, s, i, input);
    Lands(s, 0, JumpTarget(s, i), t);
  }

  // --- results ----------------------------------------------------------------

  /** rd has the value, and the pc goes on. */
  ghost predicate Gives(s: Cpu, r: Cpu, rd: int, v: int)
    requires |s.regs| == 32
  {
    && r.hart == s.hart.(pc := s.hart.pc + 4) && Updated(s.regs, rd, v, r.regs)
    && r.view == s.view && r.power == s.power && r.epoch == s.epoch
  }

  lemma WrittenGives(s: Cpu, rd: int, v: int)
    requires |s.regs| == 32 && IsRegister(rd)
    ensures Gives(s, Written(s, rd, v), rd, v)
  {
  }

  lemma ResultIs(b: Board, s: Cpu, i: Instruction, input: Input)
    requires ValidBoard(b) && Sound(b, s) && ValidInstruction(i) && (i.op == Lui || i.op == Auipc || i.op.Arith?)
    ensures Execute(b, s, i, input) == Written(s, i.rd, ResultOf(s, i))
  {
  }

  lemma UpperResult(s: Cpu, i: Instruction, t: int)
    requires ValidRegs(s.regs) && ValidInstruction(i) && i.op == Auipc
    requires 0 <= t < 0x1_0000_0000 && (s.hart.pc + i.imm - t) % 0x1_0000_0000 == 0
    ensures ResultOf(s, i) == t
  {
    SameRest(s.hart.pc + i.imm, t);
  }

  /** LUI gives the immediate, AUIPC adds it to the pc. */
  lemma UpperGives(b: Board, s: Cpu, i: Instruction, input: Input, t: int)
    requires ValidBoard(b) && Sound(b, s) && ValidInstruction(i) && (i.op == Lui || i.op == Auipc)
    requires 0 <= t < 0x1_0000_0000 && (s.hart.pc + i.imm - t) % 0x1_0000_0000 == 0
    ensures Gives(s, Execute(b, s, i, input), i.rd, if i.op == Lui then i.imm else t)
  {
    ResultIs(b, s, i, input);
    WrittenGives(s, i.rd, ResultOf(s, i));
    if i.op == Auipc {
      UpperResult(s, i, t);
    }
  }

  /** The arithmetic instructions give `Alu.Compute` of rs1 and rs2 or the immediate. */
  lemma ArithmeticGives(b: Board, s: Cpu, i: Instruction, input: Input)
    requires ValidBoard(b) && Sound(b, s) && ValidInstruction(i) && i.op.Arith?
    ensures Gives(s, Execute(b, s, i, input), i.rd,
                  Alu.Compute(i.op.alu, s.regs[i.rs1], if i.op.immediate then i.imm else s.regs[i.rs2]))
  {
    ResultIs(b, s, i, input);
    WrittenGives(s, i.rd, ResultOf(s, i));
  }

  // --- memory -----------------------------------------------------------------

  /** `v` has the `n` bytes from `o` on, the first one lowest, and above them zeros or copies of the sign. */
  predicate HoldsBytes(v: bv32, bytes: seq<bv8>, o: int, n: int, signed: bool)
    requires IsSize(n) && 0 <= o && o + n <= |bytes|
  {
    && v & 0xff == bytes[o] as bv32
    && (n >= 2 ==> (v >> 8) & 0xff == bytes[o + 1] as bv32)
    && (n == 4 ==> (v >> 16) & 0xff == bytes[o + 2] as bv32 && (v >> 24) & 0xff == bytes[o + 3] as bv32)
    && (n == 1 ==> v >> 8 == if signed && bytes[o] & 0x80 != 0 then 0xff_ffff else 0)
    && (n == 2 ==> v >> 16 == if signed && bytes[o + 1] & 0x80 != 0 then 0xffff else 0)
  }

  lemma ByteHeld(v: bv32, x: bv8, signed: bool)
    requires v & 0xff == x as bv32 && v >> 8 == if signed && x & 0x80 != 0 then 0xff_ffff else 0
    ensures v == Bytes.ExtractByte(x, signed)
  {
  }

  lemma HalfTop(x: bv8, y: bv8)
    ensures (Memory.Half(x, y) as bv32) & 0x8000 != 0 <==> y & 0x80 != 0
  {
  }

  lemma HalfParts(v: bv32, x: bv8, y: bv8)
    requires v & 0xff == x as bv32 && (v >> 8) & 0xff == y as bv32
    ensures v & 0xffff == Memory.Half(x, y) as bv32
  {
  }

  lemma NegativeHalf(v: bv32, h: bv16)
    requires v & 0xffff == h as bv32 && v >> 16 == 0xffff
    ensures v == (h as bv32) | 0xffff_0000
  {
  }

  lemma PlainHalf(v: bv32, h: bv16)
    requires v & 0xffff == h as bv32 && v >> 16 == 0
    ensures v == h as bv32
  {
  }

  lemma HalfExtends(v: bv32, h: bv16, negative: bool, signed: bool)
    requires negative <==> (h as bv32) & 0x8000 != 0
    requires v & 0xffff == h as bv32 && v >> 16 == if signed && negative then 0xffff else 0
    ensures v == Bytes.ExtractHalf(h, signed)
  {
    if signed && negative {
      NegativeHalf(v, h);
    } else {
      PlainHalf(v, h);
    }
  }

  lemma HalfHeld(v: bv32, x: bv8, y: bv8, signed: bool)
    requires v & 0xff == x as bv32 && (v >> 8) & 0xff == y as bv32
    requires v >> 16 == if signed && y & 0x80 != 0 then 0xffff else 0
    ensures v == Bytes.ExtractHalf(Memory.Half(x, y), signed)
  {
    HalfTop(x, y);
    HalfParts(v, x, y);
    HalfExtends(v, Memory.Half(x, y), y & 0x80 != 0, signed);
  }

  lemma WordHeld(v: bv32, x0: bv8, x1: bv8, x2: bv8, x3: bv8)
    requires v & 0xff == x0 as bv32 && (v >> 8) & 0xff == x1 as bv32
    requires (v >> 16) & 0xff == x2 as bv32 && (v >> 24) & 0xff == x3 as bv32
    ensures v == Bytes.LittleEndian(x0, x1, x2, x3)
  {
  }

  lemma HeldJoined(v: bv32, bytes: seq<bv8>, o: int, n: int, signed: bool)
    requires IsSize(n) && 0 <= o && o + n <= |bytes| && HoldsBytes(v, bytes, o, n, signed)
    ensures v == Memory.Join(bytes, o, n, signed)
  {
    if n == 1 {
      ByteHeld(v, bytes[o], signed);
    } else if n == 2 {
      HalfHeld(v, bytes[o], bytes[o + 1], signed);
    } else {
      WordHeld(v, bytes[o], bytes[o + 1], bytes[o + 2], bytes[o + 3]);
    }
  }

  /** LR translates as a load, SC and AMOs as stores. */
  function DataAccess(op: Op): PageWalk.Access {
    if op.LoadInt? || op == Reserve then PageWalk.Load else PageWalk.Store
  }

  /** Where a load or store goes: the sum of rs1 and the offset, translated in the effective mode. */
  ghost predicate Goes(b: Board, s: Cpu, i: Instruction, va: nat, a: nat)
    requires ValidBoard(b) && Sound(b, s) && ValidInstruction(i)
  {
    && IsMemory(i.op) && va < 0x1_0000_0000
    && (s.regs[i.rs1] + (if i.op.LoadInt? || i.op.StoreInt? then i.imm else 0) - va) % 0x1_0000_0000 == 0
    && Locate(SpaceIn(b, s, s.hart.effective), va, DataAccess(i.op)) == At(a)
  }

  lemma AddressIs(i: Instruction, rs1: int, va: int)
    requires 0 <= va < 0x1_0000_0000
    requires (rs1 + (if i.op.LoadInt? || i.op.StoreInt? then i.imm else 0) - va) % 0x1_0000_0000 == 0
    ensures AddressOf(i, rs1) == va
  {
    SameRest(rs1 + (if i.op.LoadInt? || i.op.StoreInt? then i.imm else 0), va);
  }

  /** Translation keeps the alignment. */
  lemma AlignedTarget(b: Board, s: Cpu, i: Instruction, va: nat, a: nat, n: int)
    requires ValidBoard(b) && Sound(b, s) && ValidInstruction(i) && Goes(b, s, i, va, a)
    requires IsSize(n) && va % n == 0
    ensures a % n == 0
  {
    PageTables.OffsetKept(SpaceIn(b, s, s.hart.effective), va, DataAccess(i.op), a);
    RestDivides(a, va, n);
  }

  lemma RestDivides(a: int, va: int, n: int)
    requires IsSize(n) && va % n == 0 && a % 4096 == va % 4096
    ensures a % n == 0
  {
    var d := a / 4096 - va / 4096;
    assert a == va + 4096 * d;
    if n == 2 {
      KeepsRest(va, 2048 * d, 2);
    } else if n == 4 {
      KeepsRest(va, 1024 * d, 4);
    }
  }

  lemma KeepsRest(v: int, t: int, n: int)
    requires n > 0
    ensures (v + t * n) % n == v % n
  {
    AddMultiple(v, t, n);
    assert v + t * n == (v / n + t) * n + v % n;
    QuotientIs(v + t * n, n, v / n + t, v % n);
  }

  lemma MemoryIs(b: Board, s: Cpu, i: Instruction, input: Input, va: nat, a: nat)
    requires ValidBoard(b) && Sound(b, s) && ValidInstruction(i) && Goes(b, s, i, va, a) && va % SizeOf(i.op) == 0
    ensures Execute(b, s, i, input)
         == AccessMemory(b, s, i, Privilege.Bits32(s.regs[i.rs2]), a, va, input.reply)
  {
    AddressIs(i, s.regs[i.rs1], va);
    BoundaryMod(va, SizeOf(i.op));
  }

  lemma AccessIs(b: Board, s: Cpu, i: Instruction, value: bv32, a: nat, va: nat, reply: Reply, o: Outcome, view: View)
    requires ValidBoard(b) && Sound(b, s) && ValidInstruction(i) && IsMemory(i.op)
    requires LoadStore.Step(b.c, b.rom, s.view, AccessFor(i.op, a, value)) == (o, view)
    ensures AccessMemory(b, s, i, value, a, va, reply) == Concluded(s.(view := view), i, o, a, va, reply)
  {
  }

  lemma ValueGives(b: Board, s: Cpu, i: Instruction, value: bv32, a: nat, va: nat, reply: Reply, v: bv32)
    requires ValidBoard(b) && Sound(b, s) && ValidInstruction(i) && IsMemory(i.op)
    requires LoadStore.Step(b.c, b.rom, s.view, AccessFor(i.op, a, value)) == (Value(v), s.view)
    ensures Gives(s, AccessMemory(b, s, i, value, a, va, reply), i.rd, v as int)
  {
    AccessIs(b, s, i, value, a, va, reply, Value(v), s.view);
    WrittenGives(s, i.rd, v as int);
  }

  lemma RamStep(c: Config, rom: seq<bv8>, view: View, a: nat, n: int, signed: bool, v: bv32)
    requires ValidConfig(c) && |rom| == 4 * RomWords(c) && |view.ram| == 4 * RamWords(c) && IsSize(n) && a % n == 0
    requires 0x8000_0000 <= a && a - 0x8000_0000 + n <= |view.ram|
    requires HoldsBytes(v, view.ram, a - 0x8000_0000, n, signed)
    ensures LoadStore.Step(c, rom, view, Load(a, n, signed)) == (Value(v), view)
  {
    HeldJoined(v, view.ram, a - 0x8000_0000, n, signed);
    BoundaryMod(a, n);
    LoadsRam(c, rom, view.ram, a, n, signed, v);
  }

  lemma RomStep(c: Config, rom: seq<bv8>, view: View, a: nat, n: int, signed: bool, v: bv32)
    requires ValidConfig(c) && |rom| == 4 * RomWords(c) && |view.ram| == 4 * RamWords(c) && IsSize(n) && a % n == 0
    requires a + n <= |rom| && HoldsBytes(v, rom, a, n, signed)
    ensures LoadStore.Step(c, rom, view, Load(a, n, signed)) == (Value(v), view)
  {
    HeldJoined(v, rom, a, n, signed);
    BoundaryMod(a, n);
  }

  /** A load from RAM. */
  lemma RamLoadGives(b: Board, s: Cpu, i: Instruction, input: Input, va: nat, a: nat, v: bv32)
    requires ValidBoard(b) && Sound(b, s) && ValidInstruction(i) && i.op.LoadInt? && Goes(b, s, i, va, a)
    requires va % i.op.n == 0 && 0x8000_0000 <= a && a - 0x8000_0000 + i.op.n <= |s.view.ram|
    requires HoldsBytes(v, s.view.ram, a - 0x8000_0000, i.op.n, i.op.signed)
    ensures Gives(s, Execute(b, s, i, input), i.rd, v as int)
  {
    MemoryIs(b, s, i, input, va, a);
    AlignedTarget(b, s, i, va, a, i.op.n);
    RamStep(b.c, b.rom, s.view, a, i.op.n, i.op.signed, v);
    ValueGives(b, s, i, Privilege.Bits32(s.regs[i.rs2]), a, va, input.reply, v);
  }

  /** A load from ROM. */
  lemma RomLoadGives(b: Board, s: Cpu, i: Instruction, input: Input, va: nat, a: nat, v: bv32)
    requires ValidBoard(b) && Sound(b, s) && ValidInstruction(i) && i.op.LoadInt? && Goes(b, s, i, va, a)
    requires va % i.op.n == 0 && a + i.op.n <= |b.rom| && HoldsBytes(v, b.rom, a, i.op.n, i.op.signed)
    ensures Gives(s, Execute(b, s, i, input), i.rd, v as int)
  {
    MemoryIs(b, s, i, input, va, a);
    AlignedTarget(b, s, i, va, a, i.op.n);
    RomStep(b.c, b.rom, s.view, a, i.op.n, i.op.signed, v);
    ValueGives(b, s, i, Privilege.Bits32(s.regs[i.rs2]), a, va, input.reply, v);
  }

  /** `after` is `before` with the low `n` bytes of `w` from `o` on. */
  predicate BytesWritten(before: seq<bv8>, after: seq<bv8>, o: int, n: int, w: bv32) {
    && |after| == |before|
    && (forall k :: 0 <= k < |before| && !(o <= k < o + n) ==> after[k] == before[k])
    && (0 <= o && o + n <= |before| ==>
          && (n >= 1 ==> after[o] as bv32 == w & 0xff)
          && (n >= 2 ==> after[o + 1] as bv32 == (w >> 8) & 0xff)
          && (n >= 4 ==> after[o + 2] as bv32 == (w >> 16) & 0xff && after[o + 3] as bv32 == w >> 24))
  }

  lemma ByteParts(w: bv32)
    ensures Bytes.ByteOf(w, 0) as bv32 == w & 0xff && Bytes.ByteOf(w, 1) as bv32 == (w >> 8) & 0xff
    ensures Bytes.ByteOf(w, 2) as bv32 == (w >> 16) & 0xff && Bytes.ByteOf(w, 3) as bv32 == w >> 24
  {
  }

  lemma PatchWrites(bytes: seq<bv8>, o: int, n: int, w: bv32)
    requires IsSize(n) && 0 <= o && o + n <= |bytes|
    ensures BytesWritten(bytes, Memory.Patch(bytes, o, n, w), o, n, w)
  {
    ByteParts(w);
  }

  /** The instruction changes memory only, and the pc goes on. */
  ghost predicate Stores(s: Cpu, r: Cpu, o: int, n: int, w: bv32) {
    && r.hart == s.hart.(pc := s.hart.pc + 4) && r.regs == s.regs && r.power == s.power && r.epoch == s.epoch
    && BytesWritten(s.view.ram, r.view.ram, o, n, w) && r.view.reservation == s.view.reservation
  }

  lemma WordOfRegister(w: bv32, v: int)
    requires w as int == v
    ensures Privilege.Bits32(v) == w
  {
    Privilege.BitsRoundTrip(v);
    SameNumber(w, Privilege.Bits32(v));
  }

  lemma SameNumber(x: bv32, y: bv32)
    requires x as int == y as int
    ensures x == y
  {
    assert (x as int) as bv32 == x && (y as int) as bv32 == y;
  }

  /** A store to RAM: the low bytes of rs2. */
  lemma StoreWrites(b: Board, s: Cpu, i: Instruction, input: Input, va: nat, a: nat, w: bv32)
    requires ValidBoard(b) && Sound(b, s) && ValidInstruction(i) && i.op.StoreInt? && Goes(b, s, i, va, a)
    requires va % i.op.n == 0 && w as int == s.regs[i.rs2]
    requires 0x8000_0000 <= a && a - 0x8000_0000 + i.op.n <= |s.view.ram|
    ensures Stores(s, Execute(b, s, i, input), a - 0x8000_0000, i.op.n, w)
  {
    MemoryIs(b, s, i, input, va, a);
    WordOfRegister(w, s.regs[i.rs2]);
    AlignedTarget(b, s, i, va, a, i.op.n);
    BoundaryMod(a, i.op.n);
    PatchWrites(s.view.ram, a - 0x8000_0000, i.op.n, w);
    AccessIs(b, s, i, w, a, va, input.reply, Done,
             s.view.(ram := Memory.Patch(s.view.ram, a - 0x8000_0000, i.op.n, w)));
  }

  // --- atomics ----------------------------------------------------------------

  /** rd gets `v`, memory becomes `view`, and the pc goes on. */
  ghost predicate Exchanges(s: Cpu, r: Cpu, rd: int, v: int, view: View)
    requires |s.regs| == 32
  {
    && r.hart == s.hart.(pc := s.hart.pc + 4) && Updated(s.regs, rd, v, r.regs)
    && r.view == view && r.power == s.power && r.epoch == s.epoch
  }

  lemma ValueExchanges(b: Board, s: Cpu, i: Instruction, value: bv32, a: nat, va: nat, reply: Reply, v: bv32,
                       view: View)
    requires ValidBoard(b) && Sound(b, s) && ValidInstruction(i) && IsMemory(i.op)
    requires LoadStore.Step(b.c, b.rom, s.view, AccessFor(i.op, a, value)) == (Value(v), view)
    ensures Exchanges(s, AccessMemory(b, s, i, value, a, va, reply), i.rd, v as int, view)
  {
    AccessIs(b, s, i, value, a, va, reply, Value(v), view);
    WrittenExchanges(s, view, i.rd, v as int);
  }

  lemma WrittenExchanges(s: Cpu, view: View, rd: int, v: int)
    requires |s.regs| == 32 && IsRegister(rd)
    ensures Exchanges(s, Written(s.(view := view), rd, v), rd, v, view)
  {
  }

  /** An aligned word of RAM. */
  ghost predicate WordAt(s: Cpu, va: nat, a: nat) {
    va % 4 == 0 && 0x8000_0000 <= a && a - 0x8000_0000 + 4 <= |s.view.ram|
  }

  /** LR.W loads the word and reserves its address. */
  lemma LoadReservedGives(b: Board, s: Cpu, i: Instruction, input: Input, va: nat, a: nat, v: bv32)
    requires ValidBoard(b) && Sound(b, s) && ValidInstruction(i) && i.op == Reserve && Goes(b, s, i, va, a)
    requires WordAt(s, va, a) && HoldsBytes(v, s.view.ram, a - 0x8000_0000, 4, false)
    ensures Exchanges(s, Execute(b, s, i, input), i.rd, v as int, View(s.view.ram, Some(a)))
  {
    MemoryIs(b, s, i, input, va, a);
    AlignedTarget(b, s, i, va, a, 4);
    HeldJoined(v, s.view.ram, a - 0x8000_0000, 4, false);
    ValueExchanges(b, s, i, Privilege.Bits32(s.regs[i.rs2]), a, va, input.reply, v, View(s.view.ram, Some(a)));
  }

  /** What SC.W leaves in memory. */
  function ConditionalView(view: View, a: nat, w: bv32): View
    requires 0x8000_0000 <= a && a - 0x8000_0000 + 4 <= |view.ram|
  {
    View(if view.reservation == Some(a) then Memory.Patch(view.ram, a - 0x8000_0000, 4, w) else view.ram, None)
  }

  lemma ConditionalStep(c: Config, rom: seq<bv8>, view: View, a: nat, w: bv32)
    requires ValidConfig(c) && |rom| == 4 * RomWords(c) && |view.ram| == 4 * RamWords(c) && a % 4 == 0
    requires 0x8000_0000 <= a && a - 0x8000_0000 + 4 <= |view.ram|
    ensures LoadStore.Step(c, rom, view, StoreConditional(a, w))
         == (Value(if view.reservation == Some(a) then 0 else 1), ConditionalView(view, a, w))
  {
  }

  /** SC.W stores and gives 0 exactly if its address is reserved, gives 1 otherwise, and clears the reservation. */
  lemma StoreConditionalDoes(b: Board, s: Cpu, i: Instruction, input: Input, va: nat, a: nat, w: bv32)
      returns (view: View)
    requires ValidBoard(b) && Sound(b, s) && ValidInstruction(i) && i.op == Conditional && Goes(b, s, i, va, a)
    requires WordAt(s, va, a) && w as int == s.regs[i.rs2]
    ensures Exchanges(s, Execute(b, s, i, input), i.rd, if s.view.reservation == Some(a) then 0 else 1, view)
    ensures view.reservation == None
    ensures if s.view.reservation == Some(a) then BytesWritten(s.view.ram, view.ram, a - 0x8000_0000, 4, w)
            else view.ram == s.view.ram
  {
    MemoryIs(b, s, i, input, va, a);
    AlignedTarget(b, s, i, va, a, 4);
    WordOfRegister(w, s.regs[i.rs2]);
    PatchWrites(s.view.ram, a - 0x8000_0000, 4, w);
    view := ConditionalView(s.view, a, w);
    ConditionalStep(b.c, b.rom, s.view, a, w);
    ValueExchanges(b, s, i, w, a, va, input.reply, if s.view.reservation == Some(a) then 0 else 1, view);
  }

  lemma Combined(op: Atomics.AmoOp, v: bv32, w: bv32, x: bv32)
    requires x as int == Atomics.Combine(op, v as int, w as int)
    ensures Atomics.CombineBits(op, v, w) == x
  {
    SameNumber(x, Atomics.CombineBits(op, v, w));
  }

  lemma AmoValue(c: Config, ram: seq<bv8>, a: nat, v: bv32)
    requires ValidConfig(c) && |ram| == 4 * RamWords(c)
    requires a % 4 == 0 && 0x8000_0000 <= a && a - 0x8000_0000 + 4 <= |ram|
    requires HoldsBytes(v, ram, a - 0x8000_0000, 4, false)
    ensures AtomicFault(c, a, 6) == None && AtomicFault(c, a, 0) == None && AtomicLoad(c, ram, a) == v
  {
    HeldJoined(v, ram, a - 0x8000_0000, 4, false);
  }

  lemma AmoStep(c: Config, rom: seq<bv8>, before: View, a: nat, op: Atomics.AmoOp, v: bv32, w: bv32, x: bv32)
    requires ValidConfig(c) && |rom| == 4 * RomWords(c) && |before.ram| == 4 * RamWords(c)
    requires a % 4 == 0 && 0x8000_0000 <= a && a - 0x8000_0000 + 4 <= |before.ram|
    requires HoldsBytes(v, before.ram, a - 0x8000_0000, 4, false) && Atomics.CombineBits(op, v, w) == x
    ensures LoadStore.Step(c, rom, before, Amo(a, op, w))
         == (Value(v), before.(ram := Memory.Patch(before.ram, a - 0x8000_0000, 4, x)))
  {
    AmoValue(c, before.ram, a, v);
  }

  /** An AMO gives the old word and stores `Atomics.Combine` of it and rs2. */
  lemma AmoDoes(b: Board, s: Cpu, i: Instruction, input: Input, va: nat, a: nat, v: bv32, w: bv32, x: bv32)
      returns (view: View)
    requires ValidBoard(b) && Sound(b, s) && ValidInstruction(i) && i.op.Atomic? && Goes(b, s, i, va, a)
    requires WordAt(s, va, a) && HoldsBytes(v, s.view.ram, a - 0x8000_0000, 4, false)
    requires w as int == s.regs[i.rs2] && x as int == Atomics.Combine(i.op.amo, v as int, w as int)
    ensures Exchanges(s, Execute(b, s, i, input), i.rd, v as int, view)
    ensures BytesWritten(s.view.ram, view.ram, a - 0x8000_0000, 4, x) && view.reservation == s.view.reservation
  {
    MemoryIs(b, s, i, input, va, a);
    AlignedTarget(b, s, i, va, a, 4);
    WordOfRegister(w, s.regs[i.rs2]);
    Combined(i.op.amo, v, w, x);
    AmoStep(b.c, b.rom, s.view, a, i.op.amo, v, w, x);
    PatchWrites(s.view.ram, a - 0x8000_0000, 4, x);
    view := s.view.(ram := Memory.Patch(s.view.ram, a - 0x8000_0000, 4, x));
    ValueExchanges(b, s, i, w, a, va, input.reply, v, view);
  }

  // --- exceptions of memory instructions --------------------------------------

  /** A misaligned address: cause 4 for loads and LR, 6 for all others. */
  lemma MisalignedTraps(b: Board, s: Cpu, i: Instruction, input: Input, va: nat)
    requires ValidBoard(b) && Sound(b, s) && ValidInstruction(i) && IsMemory(i.op) && va < 0x1_0000_0000
    requires (s.regs[i.rs1] + (if i.op.LoadInt? || i.op.StoreInt? then i.imm else 0) - va) % 0x1_0000_0000 == 0
    requires va % (if i.op.LoadInt? || i.op.StoreInt? then i.op.n else 4) != 0
    ensures Execute(b, s, i, input) == Trapped(s, if i.op.LoadInt? || i.op == Reserve then 4 else 6, va)
  {
    AddressIs(i, s.regs[i.rs1], va);
    BoundaryMod(va, SizeOf(i.op));
  }

  /** Outside ROM, RAM and the devices: cause 5 for loads, 7 for short stores; for atomics ROM and devices count,
      too. */
  lemma OutsideTraps(b: Board, s: Cpu, i: Instruction, input: Input, va: nat, a: nat)
    requires ValidBoard(b) && Sound(b, s) && ValidInstruction(i) && Goes(b, s, i, va, a)
    requires !(0x8000_0000 <= a < 0x8000_0000 + |s.view.ram|)
    requires va % SizeOf(i.op) == 0
    requires i.op.LoadInt? ==> |b.rom| <= a < 0xf000_0000
    requires i.op.StoreInt? ==> i.op.n < 4 && a < 0xf000_0000
    ensures Execute(b, s, i, input) == Trapped(s, if i.op.LoadInt? || i.op == Reserve then 5 else 7, va)
  {
    MemoryIs(b, s, i, input, va, a);
    AlignedTarget(b, s, i, va, a, SizeOf(i.op));
    BoundaryMod(a, SizeOf(i.op));
    AccessIs(b, s, i, Privilege.Bits32(s.regs[i.rs2]), a, va, input.reply,
             LoadStore.Trap(if i.op.LoadInt? || i.op == Reserve then 5 else 7), s.view);
  }

  // --- SYSTEM instructions ----------------------------------------------------

  lemma CsrIs(b: Board, s: Cpu, i: Instruction, input: Input)
    requires ValidBoard(b) && Sound(b, s) && ValidInstruction(i) && i.op.CsrModify?
    ensures Execute(b, s, i, input) == CsrInstruction(s, i, CsrOperand(i, s.regs[i.rs1]), input.outside)
  {
  }

  lemma WriteUpdates(regs: seq<int>, rd: int, n: int)
    requires |regs| == 32 && IsRegister(rd)
    ensures Updated(regs, rd, n, WriteReg(regs, rd, n))
  {
  }

  lemma OldValue(s: Cpu, i: Instruction, outside: bv32, n: int)
    requires ValidRegs(s.regs) && ValidInstruction(i) && i.op.CsrModify?
    requires PrivilegedBits.Reads(s.hart, i.imm, outside, n) && !CsrRefused(s.hart, i.op.csr, i.imm, i.rs1)
    ensures CsrRegs(s, i, outside) == WriteReg(s.regs, i.rd, n)
  {
    assert PrivilegedBits.Returning(0);
  }

  lemma RefusedIs(h: Privilege.Hart, op: Privilege.CsrOp, a: int, rs1Id: int)
    requires 0 <= a < 4096
    ensures CsrRefused(h, op, a, rs1Id) <==>
              !Privilege.Readable(h, a) || (a >= 0xc00 && (op == Privilege.ReadWrite || rs1Id != 0))
  {
    PrivilegedBits.AddressParts(a);
  }

  lemma CsrHart(s: Cpu, i: Instruction, x: bv32, outside: bv32)
    requires ValidRegs(s.regs) && ValidInstruction(i) && i.op.CsrModify? && !s.hart.halted
    ensures var r := CsrInstruction(s, i, x, outside);
            && r.hart == Privilege.Step(s.hart, Privilege.CsrInstruction(i.op.csr, i.imm, x, i.rs1, outside))
            && r.regs == CsrRegs(s, i, outside) && r.view == s.view && r.power == s.power
  {
  }

  /** CSR instructions: the operand is rs1 or the number in its field; rd gets what a read of the address returns,
      and the privileged state goes on as `Privilege.Step` says; an illegal access changes no register. */
  lemma CsrGives(b: Board, s: Cpu, i: Instruction, input: Input, x: bv32, n: int)
    requires ValidBoard(b) && Sound(b, s) && ValidInstruction(i) && i.op.CsrModify? && !s.hart.halted
    requires x as int == if i.op.uimm then i.rs1 else s.regs[i.rs1]
    requires PrivilegedBits.Reads(s.hart, i.imm, input.outside, n)
    ensures var r, h := Execute(b, s, i, input), s.hart;
            var legal := Privilege.Readable(h, i.imm)
                         && !(i.imm >= 0xc00 && (i.op.csr == Privilege.ReadWrite || i.rs1 != 0));
            && r.hart == Privilege.Step(h, Privilege.CsrInstruction(i.op.csr, i.imm, x, i.rs1, input.outside))
            && (if legal then Updated(s.regs, i.rd, n, r.regs) else r.regs == s.regs)
            && r.view == s.view && r.power == s.power
  {
    WordOfRegister(x, if i.op.uimm then i.rs1 else s.regs[i.rs1]);
    CsrIs(b, s, i, input);
    CsrHart(s, i, x, input.outside);
    RefusedIs(s.hart, i.op.csr, i.imm, i.rs1);
    if !CsrRefused(s.hart, i.op.csr, i.imm, i.rs1) {
      OldValue(s, i, input.outside, n);
      WriteUpdates(s.regs, i.rd, n);
    }
  }

  /** PRIV changes the privileged state only, as `Privilege.Priv` says; FENCE does nothing; the cache instruction is for
      M-mode; what is no instruction raises exception 2. */
  lemma SystemDoes(b: Board, s: Cpu, i: Instruction, input: Input)
    requires ValidBoard(b) && Sound(b, s) && ValidInstruction(i)
    requires i.op == Priv || i.op == Fence || i.op == InitIcache || i.op == Illegal
    ensures var r := Execute(b, s, i, input);
            && r.regs == s.regs && r.view == s.view && r.power == s.power
            && (i.op == Priv ==> r.hart == Privilege.Priv(s.hart, i.imm))
            && (i.op == Fence || (i.op == InitIcache && s.hart.mode == Privilege.Machine) ==>
                  r == s.(hart := s.hart.(pc := s.hart.pc + 4)))
            && (i.op == Illegal || (i.op == InitIcache && s.hart.mode != Privilege.Machine) ==> r == Trapped(s, 2, 0))
  {
  }

  /** An exception changes the privileged state only. */
  lemma TrappedDoes(s: Cpu, cause: nat, tval: int)
    ensures var r := Trapped(s, cause, tval);
            r.hart == Privilege.Trap(s.hart, cause, tval, false) && r.regs == s.regs && r.view == s.view
            && r.power == s.power
  {
  }

  /** What the translation refuses raises its cause, with the virtual address. */
  lemma DataFaultTraps(b: Board, s: Cpu, i: Instruction, input: Input, va: nat, cause: nat)
    requires ValidBoard(b) && Sound(b, s) && ValidInstruction(i) && IsMemory(i.op) && va < 0x1_0000_0000
    requires (s.regs[i.rs1] + (if i.op.LoadInt? || i.op.StoreInt? then i.imm else 0) - va) % 0x1_0000_0000 == 0
    requires va % SizeOf(i.op) == 0
    requires Locate(SpaceIn(b, s, s.hart.effective), va, DataAccess(i.op)) == Fault(cause)
    ensures Execute(b, s, i, input) == Trapped(s, cause, va)
  {
    AddressIs(i, s.regs[i.rs1], va);
    BoundaryMod(va, SizeOf(i.op));
  }

  // --- devices ----------------------------------------------------------------

  /** The bytes of a word, the lowest first. */
  function BytesOf(w: bv32): seq<bv8> {
    [(w & 0xff) as bv8, ((w >> 8) & 0xff) as bv8, ((w >> 16) & 0xff) as bv8, (w >> 24) as bv8]
  }

  lemma ByteAt(w: bv32, k: int)
    requires 0 <= k < 4
    ensures BytesOf(w)[k] == Bytes.ByteOf(w, k)
  {
  }

  lemma HalfAt(w: bv32, k: int)
    requires k == 0 || k == 2
    ensures Memory.Half(BytesOf(w)[k], BytesOf(w)[k + 1]) == Bytes.HalfOf(w, k)
  {
    HalfBytes(w);
  }

  lemma ExtractedBytes(v: bv32, w: bv32, k: int, n: int, signed: bool)
    requires IsSize(n) && 0 <= k && k + n <= 4 && k % n == 0 && HoldsBytes(v, BytesOf(w), k, n, signed)
    ensures v == Bytes.Extract(w, k, n, signed)
  {
    if n == 1 {
      ByteHeld(v, BytesOf(w)[k], signed);
      ByteAt(w, k);
    } else if n == 2 {
      HalfHeld(v, BytesOf(w)[k], BytesOf(w)[k + 1], signed);
      HalfAt(w, k);
    } else {
      WordBytes(v, w);
    }
  }

  lemma HalfBytes(w: bv32)
    ensures Memory.Half((w & 0xff) as bv8, ((w >> 8) & 0xff) as bv8) == (w & 0xffff) as bv16
    ensures Memory.Half(((w >> 16) & 0xff) as bv8, (w >> 24) as bv8) == (w >> 16) as bv16
  {
  }

  lemma WordBytes(v: bv32, w: bv32)
    requires v & 0xff == ((w & 0xff) as bv8) as bv32 && (v >> 8) & 0xff == (((w >> 8) & 0xff) as bv8) as bv32
    requires (v >> 16) & 0xff == (((w >> 16) & 0xff) as bv8) as bv32 && (v >> 24) & 0xff == ((w >> 24) as bv8) as bv32
    ensures v == w
  {
  }

  /** A load from a device gets the addressed bytes of its answer, or raises exception 5. */
  lemma DeviceLoadGives(b: Board, s: Cpu, i: Instruction, input: Input, va: nat, a: nat, v: bv32)
    requires ValidBoard(b) && Sound(b, s) && ValidInstruction(i) && i.op.LoadInt? && Goes(b, s, i, va, a)
    requires va % i.op.n == 0 && 0xf000_0000 <= a && |b.rom| <= 0xf000_0000 && 0 <= a % 4 && a % 4 + i.op.n <= 4
    requires input.reply.Accept? ==> HoldsBytes(v, BytesOf(input.reply.word), a % 4, i.op.n, i.op.signed)
    ensures if input.reply.Accept? then Gives(s, Execute(b, s, i, input), i.rd, v as int)
            else Execute(b, s, i, input) == Trapped(s, 5, va)
  {
    MemoryIs(b, s, i, input, va, a);
    AlignedTarget(b, s, i, va, a, i.op.n);
    BoundaryMod(a, i.op.n);
    AccessIs(b, s, i, Privilege.Bits32(s.regs[i.rs2]), a, va, input.reply, Device, s.view);
    if input.reply.Accept? {
      InnerAlignment(a, i.op.n);
      ExtractedBytes(v, input.reply.word, a % 4, i.op.n, i.op.signed);
      WrittenGives(s, i.rd, v as int);
    }
  }

  lemma InnerAlignment(a: int, n: int)
    requires IsSize(n) && a % n == 0
    ensures a % 4 % n == 0
  {
  }

  lemma SysconStep(c: Config, rom: seq<bv8>, view: View, w: bv32)
    requires ValidConfig(c) && |rom| == 4 * RomWords(c) && |view.ram| == 4 * RamWords(c)
    ensures LoadStore.Step(c, rom, view, Store(0xffff_fff0, 4, w))
         == (if w > 2 then Done else LoadStore.Power(w == 1), view)
  {
  }

  /** Where the power switch leaves the machine. */
  function Switched(s: Cpu, w: bv32): Cpu {
    if w == 1 then s.(power := Restart) else if w == 0 || w == 2 then s.(power := Off)
    else s.(hart := s.hart.(pc := s.hart.pc + 4))
  }

  lemma SwitchConcludes(s: Cpu, i: Instruction, o: Outcome, va: nat, reply: Reply, w: bv32)
    requires ValidRegs(s.regs) && ValidInstruction(i) && o == if w > 2 then Done else LoadStore.Power(w == 1)
    ensures Concluded(s.(view := s.view), i, o, 0xffff_fff0, va, reply) == Switched(s, w)
  {
  }

  /** A word store to 0xfffffff0: 1 restarts the machine, 0 and 2 switch it off, and larger numbers do nothing. */
  lemma PowerSwitched(b: Board, s: Cpu, i: Instruction, input: Input, va: nat, w: bv32)
    requires ValidBoard(b) && Sound(b, s) && ValidInstruction(i) && i.op == StoreInt(4)
    requires Goes(b, s, i, va, 0xffff_fff0)
    requires va % 4 == 0 && w as int == s.regs[i.rs2]
    ensures Execute(b, s, i, input) == Switched(s, w)
  {
    var o := if w > 2 then Done else LoadStore.Power(w == 1);
    MemoryIs(b, s, i, input, va, 0xffff_fff0);
    WordOfRegister(w, s.regs[i.rs2]);
    SysconStep(b.c, b.rom, s.view, w);
    AccessIs(b, s, i, w, 0xffff_fff0, va, input.reply, o, s.view);
    SwitchConcludes(s, i, o, va, input.reply, w);
  }

  // --- steps ------------------------------------------------------------------

  /** An interrupt is taken before the instruction. */
  lemma InterruptTaken(b: Board, s: Cpu, input: Input, where: Located)
    requires ValidBoard(b) && Sound(b, s) && !s.hart.halted && s.power == On && input.interrupt.Some?
    ensures var r := Perform(b, s, input, where);
            r.hart == Privilege.Trap(s.hart, input.interrupt.value, 0, true) && r.regs == s.regs && r.view == s.view
            && r.power == s.power
  {
  }

  /** The word is at this physical address, in RAM or in ROM. */
  predicate WordHeldAt(b: Board, ram: seq<bv8>, a: nat, w: bv32) {
    || (0x8000_0000 <= a && a - 0x8000_0000 + 4 <= |ram| && HoldsBytes(w, ram, a - 0x8000_0000, 4, false))
    || (a + 4 <= |b.rom| && HoldsBytes(w, b.rom, a, 4, false))
  }

  lemma InstrLoaded(b: Board, s: Cpu, a: nat, w: bv32)
    requires ValidBoard(b) && |s.view.ram| == 4 * RamWords(b.c) && a % 4 == 0 && WordHeldAt(b, s.view.ram, a, w)
    ensures LoadInstr(b, s, At(a)) == Instr(w)
  {
    if 0x8000_0000 <= a {
      RamStep(b.c, b.rom, s.view, a, 4, false, w);
    } else {
      RomStep(b.c, b.rom, s.view, a, 4, false, w);
    }
  }

  lemma InstrExecuted(b: Board, s: Cpu, input: Input, where: Located, w: bv32)
    requires ValidBoard(b) && Sound(b, s) && !s.hart.halted && s.power == On && input.interrupt.None?
    requires LoadInstr(b, s, where) == Instr(w)
    ensures ValidInstruction(Meaning(w)) && Perform(b, s, input, where) == Execute(b, s, Meaning(w), input)
  {
    MeaningValid(w);
  }

  /** The four bytes at the pc's physical address are the instruction. */
  lemma FetchedExecutes(b: Board, s: Cpu, input: Input, a: nat, w: bv32)
    requires ValidBoard(b) && Sound(b, s) && !s.hart.halted && s.power == On && input.interrupt.None?
    requires a % 4 == 0 && WordHeldAt(b, s.view.ram, a, w)
    ensures ValidInstruction(Meaning(w)) && Perform(b, s, input, At(a)) == Execute(b, s, Meaning(w), input)
  {
    InstrLoaded(b, s, a, w);
    InstrExecuted(b, s, input, At(a), w);
  }

  /** A fetch that the translation refuses raises its cause, and one outside ROM and RAM cause 1, with the pc. */
  lemma FetchTraps(b: Board, s: Cpu, input: Input, where: Located, cause: nat)
    requires ValidBoard(b) && Sound(b, s) && !s.hart.halted && s.power == On && input.interrupt.None?
    requires match where
             case Fault(c) => c == cause
             case At(a) => cause == 1 && !(a < |b.rom|) && !(0x8000_0000 <= a < 0x8000_0000 + |s.view.ram|)
    ensures Perform(b, s, input, where) == Trapped(s, cause, s.hart.pc)
  {
  }
}
