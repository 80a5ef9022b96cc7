/**
  Privilege modes, traps, returns and CSR instructions, as the architecture has them.

  `Step` follows sections 2.1, 3.1.6.1 and 3.3.2 of the RISC-V Privileged
  Architecture (version 20211203) on named fields.  The lemmas are about all runs
  of `Step`; `Traps` holds the worker's code, which follows it on words.

  `pc` is an integer because the worker does not truncate `pc + 4`.
 */
module Privilege {
  import opened Options
  import opened Csr
  import AddressMap

  datatype Mode = User | Supervisor | Machine

  function ModeOf(code: bv32): Mode {
    if code == 0 then User else if code == 1 then Supervisor else Machine
  }

  predicate IsMode(code: bv32) { code == 0 || code == 1 || code == 3 }

  predicate AtMost(a: Mode, b: Mode) { a == User || b == Machine || a == b }

  function ModeCode(m: Mode): int { match m case User => 0 case Supervisor => 1 case Machine => 3 }

  // --- mstatus ----------------------------------------------------------------

  /** The writable fields of mstatus. */
  datatype Status = Status(sie: bool, mie: bool, spie: bool, mpie: bool, spp: bool, mpp: Mode,
                           mprv: bool, sum: bool, mxr: bool, tvm: bool, tw: bool, tsr: bool)

  /** mstatus holds nothing outside its write mask, and MPP is not the reserved value. */
  predicate WellFormed(b: bv32) { b & 0xff81e655 == 0 && (b & 0x1000 != 0 ==> b & 0x800 != 0) }

  /** MPP is WARL: the reserved value 2 reads as user mode. */
  function LegalMpp(high: bool, low: bool): Mode {
    if high && low then Machine else if low then Supervisor else User
  }

  function ParseStatus(b: bv32): Status {
    Status(b & 0x2 != 0, b & 0x8 != 0, b & 0x20 != 0, b & 0x80 != 0, b & 0x100 != 0,
           LegalMpp(b & 0x1000 != 0, b & 0x800 != 0),
           b & 0x20000 != 0, b & 0x40000 != 0, b & 0x80000 != 0, b & 0x100000 != 0, b & 0x200000 != 0,
           b & 0x400000 != 0)
  }

  /** The fields lose nothing: a well-formed mstatus is determined by them. */
  lemma FieldsDetermineWord(b: bv32, c: bv32)
    requires WellFormed(b) && WellFormed(c) && ParseStatus(b) == ParseStatus(c)
    ensures b == c
  {
  }

  function Flag(on: bool, bit: bv32): bv32 { if on then bit else 0 }

  function MppBits(m: Mode): bv32 { match m case User => 0 case Supervisor => 0x800 case Machine => 0x1800 }

  function LowBits(s: Status): bv32 {
    Flag(s.sie, 0x2) | Flag(s.mie, 0x8) | Flag(s.spie, 0x20) | Flag(s.mpie, 0x80) | Flag(s.spp, 0x100)
  }

  function HighBits(s: Status): bv32 {
    Flag(s.mprv, 0x20000) | Flag(s.sum, 0x40000) | Flag(s.mxr, 0x80000) | Flag(s.tvm, 0x100000) | Flag(s.tw, 0x200000)
    | Flag(s.tsr, 0x400000)
  }

  /** The word of a status. */
  function Encode(s: Status): bv32 { LowBits(s) | MppBits(s.mpp) | HighBits(s) }

  predicate LowMatches(l: bv32, s: Status) {
    && (l & 0x2 != 0 <==> s.sie) && (l & 0x8 != 0 <==> s.mie) && (l & 0x20 != 0 <==> s.spie)
    && (l & 0x80 != 0 <==> s.mpie) && (l & 0x100 != 0 <==> s.spp)
  }

  predicate HighMatches(h: bv32, s: Status) {
    && (h & 0x20000 != 0 <==> s.mprv) && (h & 0x40000 != 0 <==> s.sum) && (h & 0x80000 != 0 <==> s.mxr)
    && (h & 0x100000 != 0 <==> s.tvm) && (h & 0x200000 != 0 <==> s.tw) && (h & 0x400000 != 0 <==> s.tsr)
  }

  lemma LowParsed(s: Status)
    ensures LowMatches(LowBits(s), s) && LowBits(s) & 0xfffffe55 == 0
  {
  }

  lemma HighParsed(s: Status)
    ensures HighMatches(HighBits(s), s) && HighBits(s) & 0xff81ffff == 0
  {
  }

  lemma MppParsed(m: Mode)
    ensures MppBits(m) & 0xffffe7ff == 0 && LegalMpp(MppBits(m) & 0x1000 != 0, MppBits(m) & 0x800 != 0) == m
    ensures MppBits(m) & 0x1000 != 0 ==> MppBits(m) & 0x800 != 0
  {
  }

  lemma PartsApart(l: bv32, m: bv32, h: bv32)
    requires l & 0xfffffe55 == 0 && m & 0xffffe7ff == 0 && h & 0xff81ffff == 0
    ensures (l | m | h) & 0x1aa == l && (l | m | h) & 0x1800 == m && (l | m | h) & 0x7e0000 == h
    ensures (l | m | h) & 0xff81e655 == 0
  {
  }

  lemma SubMask(b: bv32)
    ensures var l, m, h := b & 0x1aa, b & 0x1800, b & 0x7e0000;
            && b & 0x2 == l & 0x2 && b & 0x8 == l & 0x8 && b & 0x20 == l & 0x20 && b & 0x80 == l & 0x80
            && b & 0x100 == l & 0x100
            && b & 0x1000 == m & 0x1000 && b & 0x800 == m & 0x800
            && b & 0x20000 == h & 0x20000 && b & 0x40000 == h & 0x40000 && b & 0x80000 == h & 0x80000
            && b & 0x100000 == h & 0x100000 && b & 0x200000 == h & 0x200000 && b & 0x400000 == h & 0x400000
  {
  }

  lemma ParsedParts(b: bv32, l: bv32, m: bv32, h: bv32)
    requires b & 0x1aa == l && b & 0x1800 == m && b & 0x7e0000 == h
    ensures ParseStatus(b) == Status(l & 0x2 != 0, l & 0x8 != 0, l & 0x20 != 0, l & 0x80 != 0, l & 0x100 != 0,
                                     LegalMpp(m & 0x1000 != 0, m & 0x800 != 0), h & 0x20000 != 0, h & 0x40000 != 0,
                                     h & 0x80000 != 0, h & 0x100000 != 0, h & 0x200000 != 0, h & 0x400000 != 0)
  {
    SubMask(b);
  }

  lemma JoinedWellFormed(l: bv32, m: bv32, h: bv32)
    requires l & 0xfffffe55 == 0 && m & 0xffffe7ff == 0 && h & 0xff81ffff == 0 && (m & 0x1000 != 0 ==> m & 0x800 != 0)
    ensures WellFormed(l | m | h)
  {
  }

  lemma ParsedMatches(b: bv32, l: bv32, m: bv32, h: bv32, s: Status)
    requires b & 0x1aa == l && b & 0x1800 == m && b & 0x7e0000 == h
    requires LowMatches(l, s) && HighMatches(h, s) && LegalMpp(m & 0x1000 != 0, m & 0x800 != 0) == s.mpp
    ensures ParseStatus(b) == s
  {
    ParsedParts(b, l, m, h);
  }

  lemma EncodedParses(l: bv32, m: bv32, h: bv32, s: Status)
    requires l & 0xfffffe55 == 0 && m & 0xffffe7ff == 0 && h & 0xff81ffff == 0 && (m & 0x1000 != 0 ==> m & 0x800 != 0)
    requires LowMatches(l, s) && HighMatches(h, s) && LegalMpp(m & 0x1000 != 0, m & 0x800 != 0) == s.mpp
    ensures WellFormed(l | m | h) && ParseStatus(l | m | h) == s
  {
    PartsApart(l, m, h);
    JoinedWellFormed(l, m, h);
    ParsedMatches(l | m | h, l, m, h, s);
  }

  /** Reading back what was written. */
  lemma ParseEncode(s: Status)
    ensures WellFormed(Encode(s)) && ParseStatus(Encode(s)) == s
  {
    LowParsed(s);
    HighParsed(s);
    MppParsed(s.mpp);
    EncodedParses(LowBits(s), MppBits(s.mpp), HighBits(s), s);
  }

  lemma EncodeParse(b: bv32)
    requires WellFormed(b)
    ensures Encode(ParseStatus(b)) == b
  {
    ParseEncode(ParseStatus(b));
    FieldsDetermineWord(Encode(ParseStatus(b)), b);
  }

  // --- the architecture -------------------------------------------------------

  datatype Words = Words(mepc: int, sepc: int, mtvec: int, stvec: int, mcause: int, scause: int, mtval: int, stval: int,
                         mscratch: int, sscratch: int, satp: int, mcounteren: int, scounteren: int)

  function LoadWord(w: Words, c: WordCsr): int {
    match c
    case Mepc => w.mepc
    case Sepc => w.sepc
    case Mtvec => w.mtvec
    case Stvec => w.stvec
    case Mcause => w.mcause
    case Scause => w.scause
    case Mtval => w.mtval
    case Stval => w.stval
    case Mscratch => w.mscratch
    case Sscratch => w.sscratch
    case Satp => w.satp
    case Mcounteren => w.mcounteren
    case Scounteren => w.scounteren
  }

  /** xtvec and xepc hold only multiples of four. */
  function StoreWord(w: Words, c: WordCsr, v: int): Words {
    match c
    case Mepc => w.(mepc := v - v % 4)
    case Sepc => w.(sepc := v - v % 4)
    case Mtvec => w.(mtvec := v - v % 4)
    case Stvec => w.(stvec := v - v % 4)
    case Mcause => w.(mcause := v)
    case Scause => w.(scause := v)
    case Mtval => w.(mtval := v)
    case Stval => w.(stval := v)
    case Mscratch => w.(mscratch := v)
    case Sscratch => w.(sscratch := v)
    case Satp => w.(satp := v)
    case Mcounteren => w.(mcounteren := v)
    case Scounteren => w.(scounteren := v)
  }

  datatype Hart = Hart(mode: Mode, status: Status, effective: Mode, pc: int, words: Words,
                       medeleg: bv32, mideleg: bv32, halted: bool)

  /** The low 32 bits of a number. */
  function Bits32(v: int): bv32 { (v % 0x1_0000_0000) as bv32 }

  predicate RawBit(w: bv32, k: int) { 0 <= k < 64 && ((w as bv64) >> k) & 1 != 0 }

  /** Bit `k` of a word, kept folded. */
  ghost predicate Bit(w: bv32, k: int) { forall u: int :: Unfold(u) ==> RawBit(w, k) }

  function EffectiveMode(mode: Mode, s: Status): Mode { if s.mprv then s.mpp else mode }

  /** Continue at a trap vector; the reset value of xtvec stops the machine instead. */
  function Vector(h: Hart, tvec: int): Hart {
    if tvec == AddressMap.SYSCON then h.(halted := true) else h.(pc := tvec)
  }

  function EnterSupervisor(h: Hart, cause: int, tval: int): Hart
  {
    var s := h.status.(spie := h.status.sie, sie := false, spp := h.mode == Supervisor);
    Vector(h.(mode := Supervisor, status := s, effective := EffectiveMode(Supervisor, s),
              words := h.words.(scause := cause, stval := tval, sepc := h.pc)), h.words.stvec)
  }

  function EnterMachine(h: Hart, cause: int, tval: int): Hart
  {
    var s := h.status.(mpie := h.status.mie, mie := false, mpp := h.mode);
    Vector(h.(mode := Machine, status := s, effective := EffectiveMode(Machine, s),
              words := h.words.(mcause := cause, mtval := tval, mepc := h.pc)), h.words.mtvec)
  }

  ghost predicate Delegated(h: Hart, cause: nat, interrupt: bool) {
    h.mode != Machine && Bit(if interrupt then h.mideleg else h.medeleg, cause % 64)
  }

  /** Trap entry: push xIE and the mode, record cause, value and pc, continue at xtvec. */
  ghost function Trap(h: Hart, cause: nat, tval: int, interrupt: bool): Hart
  {
    if Delegated(h, cause, interrupt) then EnterSupervisor(h, cause, tval) else EnterMachine(h, cause, tval)
  }

  /** What both returns share once the previous mode and xIE are popped: MPRV is dropped when leaving M-mode. */
  function Resume(h: Hart, mode: Mode, s: Status, pc: int): Hart {
    var status := s.(mprv := s.mprv && mode == Machine);
    h.(mode := mode, status := status, effective := EffectiveMode(mode, status), pc := pc)
  }

  function Mret(h: Hart): Hart
  {
    Resume(h, h.status.mpp, h.status.(mie := h.status.mpie, mpie := true, mpp := User), h.words.mepc)
  }

  function Sret(h: Hart): Hart
  {
    Resume(h, if h.status.spp then Supervisor else User,
           h.status.(sie := h.status.spie, spie := true, spp := false), h.words.sepc)
  }

  function Advance(h: Hart): Hart { h.(pc := h.pc + 4) }

  ghost function Illegal(h: Hart): Hart
  {
    Trap(h, 2, 0, false)
  }

  function EnvironmentCall(m: Mode): nat {
    match m case User => 8 case Supervisor => 9 case Machine => 11
  }

  ghost function SretInstruction(h: Hart): Hart {
    if h.mode == User || (h.mode == Supervisor && h.status.tsr) then Illegal(h) else Sret(h)
  }

  ghost function SfenceInstruction(h: Hart): Hart {
    if h.mode == User || (h.mode == Supervisor && h.status.tvm) then Illegal(h) else Advance(h)
  }

  /** The SYSTEM instructions with funct3 = 0, by their 12-bit immediate. */
  ghost function Priv(h: Hart, imm: int): Hart {
    if imm == 0x000 then Trap(h, EnvironmentCall(h.mode), 0, false)
    else if imm == 0x001 then Trap(h, 3, h.pc, false)
    else if imm == 0x105 then Advance(h)
    else if imm == 0x102 then SretInstruction(h)
    else if imm / 32 == 9 then SfenceInstruction(h)
    else if imm == 0x302 && h.mode == Machine then Mret(h)
    else Illegal(h)
  }

  /** A write through sstatus reaches the five fields it shares with mstatus. */
  function WriteSupervisorStatus(s: Status, v: bv32): Status {
    var w := ParseStatus(v);
    s.(sie := w.sie, spie := w.spie, spp := w.spp, sum := w.sum, mxr := w.mxr)
  }

  // CSR instructions.

  datatype CsrOp = ReadWrite | SetBits | ClearBits

  function Modify(op: CsrOp, old': bv32, rs1: bv32): bv32 {
    match op
    case ReadWrite => rs1
    case SetBits => old' | rs1
    case ClearBits => old' & !rs1
  }

  /** The exceptions that can be delegated: all but ECALL from M-mode and the reserved ones; and the interrupts. */
  const MEDELEG: bv32 := 0xcb3ff
  const MIDELEG: bv32 := 0xaa2

  /** The five fields that sstatus shows. */
  const SSTATUS: bv32 := 0xc0122

  /** The value of a register; `outside` is that of a register whose state is not part of the hart. */
  function CsrValue(h: Hart, csr: Csr, outside: bv32): bv32 {
    match csr
    case Mstatus => Encode(h.status)
    case Sstatus => Encode(h.status) & SSTATUS
    case Medeleg => h.medeleg
    case Mideleg => h.mideleg
    case Word(w) => Bits32(LoadWord(h.words, w))
    case Zero => 0
    case _ => outside
  }

  function StoreCsr(h: Hart, csr: Csr, v: bv32): Hart {
    match csr
    case Mstatus => h.(status := ParseStatus(v), effective := EffectiveMode(h.mode, ParseStatus(v)))
    case Sstatus =>
      var s := WriteSupervisorStatus(h.status, v);
      h.(status := s, effective := EffectiveMode(h.mode, s))
    case Medeleg => h.(medeleg := v & MEDELEG)
    case Mideleg => h.(mideleg := v & MIDELEG)
    case Word(w) => h.(words := StoreWord(h.words, w, v as int))
    case _ => h
  }

  ghost predicate IsNewValue(v: bv32, h: Hart, op: CsrOp, csr: Csr, rs1: bv32, outside: bv32) {
    forall u: int :: Unfold(u) ==> v == Modify(op, CsrValue(h, csr, outside), rs1)
  }

  /** The value that an instruction writes, kept folded. */
  ghost function NewValue(h: Hart, op: CsrOp, csr: Csr, rs1: bv32, outside: bv32): (v: bv32)
    ensures IsNewValue(v, h, op, csr, rs1, outside)
  {
    assert IsNewValue(Modify(op, CsrValue(h, csr, outside), rs1), h, op, csr, rs1, outside);
    var v :| IsNewValue(v, h, op, csr, rs1, outside);
    v
  }

  /** Counters are visible below M-mode if mcounteren allows it, and in U-mode if scounteren does too. */
  ghost predicate CounterEnabled(h: Hart, bit: int) {
    && (h.mode != Machine ==> Bit(Bits32(h.words.mcounteren), bit))
    && (h.mode == User ==> Bit(Bits32(h.words.scounteren), bit))
  }

  /** The register exists and may be read in this state. */
  ghost predicate Readable(h: Hart, a: int) {
    && RequiredMode(a) <= ModeCode(h.mode)
    && CsrAt(a) != Missing
    && !(CsrAt(a) == Word(Satp) && h.mode == Supervisor && h.status.tvm)
    && (CsrAt(a).Counter? ==> CounterEnabled(h, CsrAt(a).bit))
  }

  /** CSRRS and CSRRC with x0 (or a zero immediate) do not write. */
  predicate Writes(op: CsrOp, rs1Id: int) { op == ReadWrite || rs1Id != 0 }

  /** One CSR instruction; the immediate forms have rs1 = rs1Id. */
  ghost function CsrAccess(h: Hart, op: CsrOp, a: int, rs1: bv32, rs1Id: int, outside: bv32): Hart {
    if !Readable(h, a) || (Writes(op, rs1Id) && ReadOnly(a)) then Illegal(h)
    else if !Writes(op, rs1Id) then Advance(h)
    else Advance(StoreCsr(h, CsrAt(a), NewValue(h, op, CsrAt(a), rs1, outside)))
  }

  /** A taken jump; a misaligned target traps instead. */
  ghost function Jump(h: Hart, target: int): Hart
  {
    var t := target % 0x1_0000_0000;
    if t % 4 != 0 then Trap(h, 0, t, false) else h.(pc := t)
  }

  datatype Event = Exception(cause: nat, tval: int)
                 | Interrupt(cause: nat)
                 | PrivInstruction(imm: int)
                 | CsrInstruction(op: CsrOp, address: int, rs1: bv32, rs1Id: int, outside: bv32)
                 | Taken(target: int)
                 | Other

  ghost function Step(h: Hart, e: Event): Hart
  {
    if h.halted then h else
    match e
    case Exception(cause, tval) => Trap(h, cause, tval, false)
    case Interrupt(cause) => Trap(h, cause, 0, true)
    case PrivInstruction(imm) => Priv(h, imm)
    case CsrInstruction(op, a, rs1, rs1Id, outside) => CsrAccess(h, op, a, rs1, rs1Id, outside)
    case Taken(target) => Jump(h, target)
    case Other => Advance(h)
  }

  ghost function Run(h: Hart, events: seq<Event>): Hart
    decreases |events|
  {
    if events == [] then h else Step(Run(h, events[..|events| - 1]), events[|events| - 1])
  }

  predicate IsReset(h: Hart) {
    && h.mode == Machine && h.effective == Machine && h.status == ParseStatus(0) && h.pc == 0
    && !h.halted && h.medeleg == 0 && h.mideleg == 0
    && h.words.mtvec == AddressMap.SYSCON && h.words.stvec == AddressMap.SYSCON
    && h.words.mepc == 0 && h.words.sepc == 0
  }

  // --- every run --------------------------------------------------------------

  /** What holds in every reachable state. */
  predicate Invariant(h: Hart) {
    && (h.mode != Machine ==> !h.status.mprv)
    && h.effective == EffectiveMode(h.mode, h.status)
    && h.pc % 4 == 0 && h.words.mepc % 4 == 0 && h.words.sepc % 4 == 0
    && h.words.mtvec % 4 == 0 && h.words.stvec % 4 == 0
  }

  lemma TrapKeepsInvariant(h: Hart, cause: nat, tval: int, interrupt: bool)
    requires Invariant(h)
    ensures Invariant(Trap(h, cause, tval, interrupt))
  {
  }

  lemma ReturnsKeepInvariant(h: Hart)
    requires Invariant(h)
    ensures Invariant(Mret(h)) && Invariant(Sret(h))
  {
  }

  lemma PrivKeepsInvariant(h: Hart, imm: int)
    requires Invariant(h)
    ensures Invariant(Priv(h, imm))
  {
    if imm == 0x000 {
      TrapKeepsInvariant(h, EnvironmentCall(h.mode), 0, false);
    } else if imm == 0x001 {
      TrapKeepsInvariant(h, 3, h.pc, false);
    } else if imm == 0x105 {
      assert Priv(h, imm) == Advance(h);
    } else if Priv(h, imm) == Illegal(h) {
      TrapKeepsInvariant(h, 2, 0, false);
    } else if imm == 0x102 || imm == 0x302 {
      ReturnsKeepInvariant(h);
    } else {
      assert Priv(h, imm) == Advance(h);
    }
  }

  lemma StoreKeepsInvariant(h: Hart, csr: Csr, v: bv32)
    requires Invariant(h) && (csr == Mstatus ==> h.mode == Machine)
    ensures Invariant(StoreCsr(h, csr, v))
  {
    if csr.Word? {
      WordStoreKeepsAligned(h.words, csr.word, v as int);
    }
  }

  lemma MstatusNeedsMachine(h: Hart, a: int)
    requires RequiredMode(a) <= ModeCode(h.mode) && CsrAt(a) == Mstatus
    ensures h.mode == Machine
  {
  }

  lemma AdvanceKeepsInvariant(h: Hart)
    requires Invariant(h)
    ensures Invariant(Advance(h))
  {
  }

  lemma CsrKeepsInvariant(h: Hart, op: CsrOp, a: int, rs1: bv32, rs1Id: int, outside: bv32)
    requires Invariant(h)
    ensures Invariant(CsrAccess(h, op, a, rs1, rs1Id, outside))
  {
    if !Readable(h, a) || (Writes(op, rs1Id) && ReadOnly(a)) {
      TrapKeepsInvariant(h, 2, 0, false);
    } else {
      if CsrAt(a) == Mstatus {
        MstatusNeedsMachine(h, a);
      }
      StoreKeepsInvariant(h, CsrAt(a), NewValue(h, op, CsrAt(a), rs1, outside));
      AdvanceKeepsInvariant(h);
      AdvanceKeepsInvariant(StoreCsr(h, CsrAt(a), NewValue(h, op, CsrAt(a), rs1, outside)));
    }
  }

  predicate AlignedWords(w: Words) { w.mepc % 4 == 0 && w.sepc % 4 == 0 && w.mtvec % 4 == 0 && w.stvec % 4 == 0 }

  lemma WordStoreKeepsAligned(w: Words, c: WordCsr, v: int)
    requires AlignedWords(w)
    ensures AlignedWords(StoreWord(w, c, v))
  {
    RoundedDown(v);
  }

  lemma RoundedDown(v: int)
    ensures (v - v % 4) % 4 == 0
  {
  }

  lemma StepKeepsInvariant(h: Hart, e: Event)
    requires Invariant(h)
    ensures Invariant(Step(h, e))
  {
    match e
    case PrivInstruction(imm) => PrivKeepsInvariant(h, imm);
    case CsrInstruction(op, a, rs1, rs1Id, outside) => CsrKeepsInvariant(h, op, a, rs1, rs1Id, outside);
    case Taken(target) => TrapKeepsInvariant(h, 0, target % 0x1_0000_0000, false);
    case Exception(cause, tval) => TrapKeepsInvariant(h, cause, tval, false);
    case Interrupt(cause) => TrapKeepsInvariant(h, cause, 0, true);
    case Other =>
  }

  /** From reset, every run keeps the invariant. */
  lemma {:induction false} ReachableInvariant(h: Hart, events: seq<Event>)
    requires IsReset(h)
    ensures Invariant(Run(h, events))
  {
    if events != [] {
      var before := events[..|events| - 1];
      ReachableInvariant(h, before);
      StepKeepsInvariant(Run(h, before), events[|events| - 1]);
    }
  }

  /** A step from `h` to `k` raises the mode through a trap vector. */
  predicate Raised(h: Hart, k: Hart) {
    && AtMost(h.mode, k.mode) && k.mode != User
    && (k.halted || k.pc == if k.mode == Supervisor then h.words.stvec else h.words.mtvec)
  }

  lemma TrapRaises(h: Hart, cause: nat, tval: int, interrupt: bool)
    ensures Raised(h, Trap(h, cause, tval, interrupt))
  {
  }

  lemma StoreKeepsMode(h: Hart, csr: Csr, v: bv32)
    ensures StoreCsr(h, csr, v).mode == h.mode
  {
  }

  lemma CsrRaises(h: Hart, op: CsrOp, a: int, rs1: bv32, rs1Id: int, outside: bv32)
    ensures var k := CsrAccess(h, op, a, rs1, rs1Id, outside);
            k.mode == h.mode || Raised(h, k)
  {
    TrapRaises(h, 2, 0, false);
    StoreKeepsMode(h, CsrAt(a), NewValue(h, op, CsrAt(a), rs1, outside));
  }

  lemma PrivRaises(h: Hart, imm: int)
    ensures var k := Priv(h, imm);
            k.mode == h.mode || Raised(h, k) || (imm in {0x102, 0x302} && AtMost(k.mode, h.mode))
  {
    if imm == 0x000 {
      TrapRaises(h, EnvironmentCall(h.mode), 0, false);
    } else if imm == 0x001 {
      TrapRaises(h, 3, h.pc, false);
    } else if Priv(h, imm) == Illegal(h) {
      TrapRaises(h, 2, 0, false);
    }
  }

  /** The only events that change the mode are traps, which never lower it and end at a trap vector, and returns,
      which never raise it. */
  lemma ModeChanges(h: Hart, e: Event)
    ensures var k := Step(h, e);
            k.mode != h.mode ==>
              Raised(h, k) || (e.PrivInstruction? && e.imm in {0x102, 0x302} && AtMost(k.mode, h.mode))
  {
    match e
    case Exception(cause, tval) => TrapRaises(h, cause, tval, false);
    case Interrupt(cause) => TrapRaises(h, cause, 0, true);
    case PrivInstruction(imm) => PrivRaises(h, imm);
    case CsrInstruction(op, a, rs1, rs1Id, outside) => CsrRaises(h, op, a, rs1, rs1Id, outside);
    case Taken(target) => TrapRaises(h, 0, target % 0x1_0000_0000, false);
    case Other =>
  }

  // --- nesting ----------------------------------------------------------------

  datatype Cause = Cause(code: nat, interrupt: bool)

  datatype MaybeTrap = NoTrap | Traps(cause: Cause)

  /** The trap that an event takes, if it takes one. */
  ghost function TrapOf(h: Hart, e: Event): MaybeTrap {
    match e
    case Exception(cause, _) => Traps(Cause(cause, false))
    case Interrupt(cause) => Traps(Cause(cause, true))
    case Taken(target) => if target % 0x1_0000_0000 % 4 != 0 then Traps(Cause(0, false)) else NoTrap
    case Other => NoTrap
    case CsrInstruction(op, a, _, rs1Id, _) =>
      if !Readable(h, a) || (Writes(op, rs1Id) && ReadOnly(a)) then Traps(Cause(2, false)) else NoTrap
    case PrivInstruction(imm) =>
      if imm == 0x000 then Traps(Cause(EnvironmentCall(h.mode), false))
      else if imm == 0x001 then Traps(Cause(3, false))
      else if imm == 0x105 then NoTrap
      else if imm == 0x102 then if SretAllowed(h) then NoTrap else Traps(Cause(2, false))
      else if imm / 32 == 9 then if SfenceAllowed(h) then NoTrap else Traps(Cause(2, false))
      else if imm == 0x302 && h.mode == Machine then NoTrap
      else Traps(Cause(2, false))
  }

  predicate SretAllowed(h: Hart) { h.mode == Machine || (h.mode == Supervisor && !h.status.tsr) }

  predicate SfenceAllowed(h: Hart) { h.mode == Machine || (h.mode == Supervisor && !h.status.tvm) }

  /** Storing `v` would change SIE, SPIE, SPP or a trap word of S-mode. */
  predicate ChangesFrame(h: Hart, csr: Csr, v: bv32) {
    match csr
    case Mstatus => ChangesStatus(h.status, v)
    case Sstatus => ChangesStatus(h.status, v)
    case Word(Sepc) => v as int - v as int % 4 != h.words.sepc
    case Word(Scause) => v as int != h.words.scause
    case Word(Stval) => v as int != h.words.stval
    case _ => false
  }

  predicate ChangesStatus(s: Status, v: bv32) {
    var t := ParseStatus(v);
    t.sie != s.sie || t.spie != s.spie || t.spp != s.spp
  }

  /** Storing `v` would change MPP, MPIE or mepc. */
  predicate ChangesMachineFrame(h: Hart, csr: Csr, v: bv32) {
    match csr
    case Mstatus => ParseStatus(v).mpp != h.status.mpp || ParseStatus(v).mpie != h.status.mpie
    case Word(Mepc) => v as int - v as int % 4 != h.words.mepc
    case _ => false
  }

  /** The value that a CSR instruction stores. */
  ghost function Stored(h: Hart, e: Event): bv32
    requires e.CsrInstruction?
  {
    NewValue(h, e.op, CsrAt(e.address), e.rs1, e.outside)
  }

  /** The event changes what belongs to the frame of a handler. */
  ghost predicate WritesFrame(h: Hart, e: Event) {
    e.CsrInstruction? && Writes(e.op, e.rs1Id) && ChangesFrame(h, CsrAt(e.address), Stored(h, e))
  }

  ghost predicate WritesMachineFrame(h: Hart, e: Event) {
    e.CsrInstruction? && Writes(e.op, e.rs1Id) && ChangesMachineFrame(h, CsrAt(e.address), Stored(h, e))
  }

  ghost predicate TrapsTo(h: Hart, e: Event, m: Mode) {
    match TrapOf(h, e)
    case NoTrap => false
    case Traps(cause) => Delegated(h, cause.code, cause.interrupt) <==> m == Supervisor
  }

  /** The event leaves alone what an S-mode handler relies on to get back: no trap to S-mode, no SRET, no change
      of the frame by a write. Anything else may happen, traps to M-mode and their handlers included. */
  ghost predicate FrameSafe(h: Hart, e: Event) {
    !TrapsTo(h, e, Supervisor) && e != PrivInstruction(0x102) && !WritesFrame(h, e)
  }

  predicate SameFrame(h: Hart, k: Hart) {
    && k.status.spp == h.status.spp && k.status.spie == h.status.spie && k.status.sie == h.status.sie
    && k.words.sepc == h.words.sepc && k.words.scause == h.words.scause && k.words.stval == h.words.stval
  }

  /** Every event of a run is safe when it happens. */
  ghost predicate SafeRun(h: Hart, events: seq<Event>) {
    forall i :: 0 <= i < |events| ==> FrameSafe(Run(h, events[..i]), events[i])
  }

  lemma MachineEntryKeepsFrame(h: Hart, cause: nat, tval: int, interrupt: bool)
    requires !Delegated(h, cause, interrupt)
    ensures SameFrame(h, Trap(h, cause, tval, interrupt))
  {
  }

  lemma CsrKeepsFrame(h: Hart, e: Event)
    requires e.CsrInstruction? && FrameSafe(h, e)
    ensures SameFrame(h, CsrAccess(h, e.op, e.address, e.rs1, e.rs1Id, e.outside))
  {
    if TrapOf(h, e).Traps? {
      MachineEntryKeepsFrame(h, 2, 0, false);
    } else if Writes(e.op, e.rs1Id) {
      StoreKeepsFrame(h, CsrAt(e.address), NewValue(h, e.op, CsrAt(e.address), e.rs1, e.outside));
    }
  }

  lemma StoreKeepsFrame(h: Hart, csr: Csr, v: bv32)
    requires !ChangesFrame(h, csr, v)
    ensures SameFrame(h, StoreCsr(h, csr, v))
  {
    if csr.Word? {
      StoreKeepsTrapWords(h.words, csr.word, v as int);
    }
  }

  lemma StoreKeepsTrapWords(w: Words, c: WordCsr, v: int)
    requires (c == Sepc ==> v - v % 4 == w.sepc) && (c == Scause ==> v == w.scause) && (c == Stval ==> v == w.stval)
    ensures var w' := StoreWord(w, c, v);
            w'.sepc == w.sepc && w'.scause == w.scause && w'.stval == w.stval
  {
  }

  lemma PrivKeepsFrame(h: Hart, imm: int)
    requires FrameSafe(h, PrivInstruction(imm))
    ensures SameFrame(h, Priv(h, imm))
  {
    if imm == 0x000 {
      MachineEntryKeepsFrame(h, EnvironmentCall(h.mode), 0, false);
    } else if imm == 0x001 {
      MachineEntryKeepsFrame(h, 3, h.pc, false);
    } else if TrapOf(h, PrivInstruction(imm)).Traps? {
      MachineEntryKeepsFrame(h, 2, 0, false);
    }
  }

  lemma EventKeepsFrame(h: Hart, e: Event)
    requires FrameSafe(h, e)
    ensures SameFrame(h, Step(h, e))
  {
    match e
    case CsrInstruction(_, _, _, _, _) => CsrKeepsFrame(h, e);
    case PrivInstruction(imm) => PrivKeepsFrame(h, imm);
    case Exception(cause, tval) => MachineEntryKeepsFrame(h, cause, tval, false);
    case Interrupt(cause) => MachineEntryKeepsFrame(h, cause, 0, true);
    case Taken(target) => JumpKeepsFrame(h, target);
    case Other =>
  }

  lemma JumpKeepsFrame(h: Hart, target: int)
    requires FrameSafe(h, Taken(target))
    ensures SameFrame(h, Jump(h, target))
  {
    var t := target % 0x1_0000_0000;
    if t % 4 != 0 {
      MachineEntryKeepsFrame(h, 0, t, false);
    }
  }

  /** Whatever a handler does, traps to M-mode to any depth included, its frame is there when it returns. */
  lemma {:induction false} HandlerKeepsFrame(h: Hart, events: seq<Event>)
    requires SafeRun(h, events)
    ensures SameFrame(h, Run(h, events))
    decreases |events|
  {
    if events != [] {
      var n := |events| - 1;
      forall i | 0 <= i < n ensures FrameSafe(Run(h, events[..n][..i]), events[..n][i]) {
        assert events[..n][..i] == events[..i];
      }
      HandlerKeepsFrame(h, events[..n]);
      EventKeepsFrame(Run(h, events[..n]), events[n]);
    }
  }

  /** A trap to S-mode, any handler, SRET: the interrupted code goes on where it was, in its mode, with its SIE. */
  lemma SupervisorHandlerReturns(h: Hart, cause: nat, tval: int, events: seq<Event>)
    requires h.mode != Machine && SafeRun(EnterSupervisor(h, cause, tval), events)
    requires var k := Run(EnterSupervisor(h, cause, tval), events);
             !k.halted && SretAllowed(k)
    ensures var k := Step(Run(EnterSupervisor(h, cause, tval), events), PrivInstruction(0x102));
            k.mode == h.mode && k.pc == h.pc && k.status.sie == h.status.sie && k.effective == h.mode
  {
    HandlerKeepsFrame(EnterSupervisor(h, cause, tval), events);
    SretRestores(h, cause, tval, Run(EnterSupervisor(h, cause, tval), events));
  }

  lemma SretRestores(h: Hart, cause: nat, tval: int, k: Hart)
    requires h.mode != Machine && !k.halted && SretAllowed(k) && SameFrame(EnterSupervisor(h, cause, tval), k)
    ensures var r := Step(k, PrivInstruction(0x102));
            r.mode == h.mode && r.pc == h.pc && r.status.sie == h.status.sie && r.effective == h.mode
  {
    assert Step(k, PrivInstruction(0x102)) == Sret(k);
  }

  /** What an M-mode handler relies on to get back. */
  predicate SameMachineFrame(h: Hart, k: Hart) {
    k.status.mpp == h.status.mpp && k.status.mpie == h.status.mpie && k.words.mepc == h.words.mepc
  }

  ghost predicate MachineSafe(h: Hart, e: Event) {
    !TrapsTo(h, e, Machine) && e != PrivInstruction(0x302) && !WritesMachineFrame(h, e)
  }

  ghost predicate MachineSafeRun(h: Hart, events: seq<Event>) {
    forall i :: 0 <= i < |events| ==> MachineSafe(Run(h, events[..i]), events[i])
  }

  lemma SupervisorEntryKeepsFrame(h: Hart, cause: nat, tval: int, interrupt: bool)
    requires Delegated(h, cause, interrupt)
    ensures SameMachineFrame(h, Trap(h, cause, tval, interrupt))
  {
  }

  lemma CsrKeepsMachineFrame(h: Hart, e: Event)
    requires e.CsrInstruction? && MachineSafe(h, e)
    ensures SameMachineFrame(h, CsrAccess(h, e.op, e.address, e.rs1, e.rs1Id, e.outside))
  {
    if TrapOf(h, e).Traps? {
      SupervisorEntryKeepsFrame(h, 2, 0, false);
    } else if Writes(e.op, e.rs1Id) {
      StoreKeepsMachineFrame(h, CsrAt(e.address), Stored(h, e));
    }
  }

  lemma StoreKeepsMachineFrame(h: Hart, csr: Csr, v: bv32)
    requires !ChangesMachineFrame(h, csr, v)
    ensures SameMachineFrame(h, StoreCsr(h, csr, v))
  {
    if csr.Word? {
      StoreKeepsMepc(h.words, csr.word, v as int);
    }
  }

  lemma StoreKeepsMepc(w: Words, c: WordCsr, v: int)
    requires c == Mepc ==> v - v % 4 == w.mepc
    ensures StoreWord(w, c, v).mepc == w.mepc
  {
  }

  lemma PrivKeepsMachineFrame(h: Hart, imm: int)
    requires MachineSafe(h, PrivInstruction(imm))
    ensures SameMachineFrame(h, Priv(h, imm))
  {
    if imm == 0x000 {
      SupervisorEntryKeepsFrame(h, EnvironmentCall(h.mode), 0, false);
    } else if imm == 0x001 {
      SupervisorEntryKeepsFrame(h, 3, h.pc, false);
    } else if TrapOf(h, PrivInstruction(imm)).Traps? {
      SupervisorEntryKeepsFrame(h, 2, 0, false);
    }
  }

  lemma EventKeepsMachineFrame(h: Hart, e: Event)
    requires MachineSafe(h, e)
    ensures SameMachineFrame(h, Step(h, e))
  {
    match e
    case CsrInstruction(_, _, _, _, _) => CsrKeepsMachineFrame(h, e);
    case PrivInstruction(imm) => PrivKeepsMachineFrame(h, imm);
    case Exception(cause, tval) => SupervisorEntryKeepsFrame(h, cause, tval, false);
    case Interrupt(cause) => SupervisorEntryKeepsFrame(h, cause, 0, true);
    case Taken(target) => JumpKeepsMachineFrame(h, target);
    case Other =>
  }

  lemma JumpKeepsMachineFrame(h: Hart, target: int)
    requires MachineSafe(h, Taken(target))
    ensures SameMachineFrame(h, Jump(h, target))
  {
    var t := target % 0x1_0000_0000;
    if t % 4 != 0 {
      SupervisorEntryKeepsFrame(h, 0, t, false);
    }
  }

  lemma {:induction false} BodyKeepsMachineFrame(h: Hart, events: seq<Event>)
    requires MachineSafeRun(h, events)
    ensures SameMachineFrame(h, Run(h, events))
    decreases |events|
  {
    if events != [] {
      var n := |events| - 1;
      forall i | 0 <= i < n ensures MachineSafe(Run(h, events[..n][..i]), events[..n][i]) {
        assert events[..n][..i] == events[..i];
      }
      BodyKeepsMachineFrame(h, events[..n]);
      EventKeepsMachineFrame(Run(h, events[..n]), events[n]);
    }
  }

  lemma {:induction false} RunAppend(h: Hart, a: seq<Event>, b: seq<Event>)
    ensures Run(h, a + b) == Run(Run(h, a), b)
    decreases |b|
  {
    if b == [] {
      assert a + b == a;
    } else {
      var n := |b| - 1;
      assert (a + b)[..|a + b| - 1] == a + b[..n];
      RunAppend(h, a, b[..n]);
    }
  }

  /** A trap to M-mode, any handler that has its frame back at the end, MRET: mode, MIE and pc come back. */
  lemma MachineHandlerReturns(h: Hart, cause: nat, tval: int, events: seq<Event>)
    requires var k := Run(EnterMachine(h, cause, tval), events);
             !k.halted && k.mode == Machine && SameMachineFrame(EnterMachine(h, cause, tval), k)
    ensures var k := Step(Run(EnterMachine(h, cause, tval), events), PrivInstruction(0x302));
            k.mode == h.mode && k.pc == h.pc && k.status.mie == h.status.mie
  {
  }

  /** What an M-mode handler does after an inner trap came back: it writes mepc and mstatus again. */
  function RestoreFrame(mepc: bv32, mstatus: bv32): seq<Event> {
    [CsrInstruction(ReadWrite, 0x341, mepc, 1, 0), CsrInstruction(ReadWrite, 0x300, mstatus, 1, 0)]
  }

  /** An inner trap, what its handler does, MRET, and the restore of the outer frame. */
  ghost function InnerEvents(k: Hart, cause: nat, tval: int, inner: seq<Event>): seq<Event> {
    [Exception(cause, tval)] + inner + [PrivInstruction(0x302)] + RestoreFrame(Bits32(k.words.mepc), Encode(k.status))
  }

  lemma OneRun(h: Hart, e: Event)
    ensures Run(h, [e]) == Step(h, e)
  {
    assert [e][..0] == [];
  }

  lemma FourRuns(h: Hart, a: seq<Event>, b: seq<Event>, c: seq<Event>, d: seq<Event>)
    ensures Run(h, a + b + c + d) == Run(Run(Run(Run(h, a), b), c), d)
  {
    RunAppend(h, a + b + c, d);
    RunAppend(h, a + b, c);
    RunAppend(h, a, b);
  }

  /** The run of an inner trap, part by part. */
  lemma InnerRun(h: Hart, cause: nat, tval: int, inner: seq<Event>)
    ensures Run(h, InnerEvents(h, cause, tval, inner))
         == Run(Step(Run(Step(h, Exception(cause, tval)), inner), PrivInstruction(0x302)),
                RestoreFrame(Bits32(h.words.mepc), Encode(h.status)))
  {
    FourRuns(h, [Exception(cause, tval)], inner, [PrivInstruction(0x302)],
             RestoreFrame(Bits32(h.words.mepc), Encode(h.status)));
    OneRun(h, Exception(cause, tval));
    OneRun(Run(Step(h, Exception(cause, tval)), inner), PrivInstruction(0x302));
  }

  lemma MretInMachine(k: Hart)
    requires k.mode == Machine && !k.halted
    ensures Step(k, PrivInstruction(0x302)) == Mret(k)
  {
  }

  /** An inner trap inside an M-mode handler: trap, any inner handler that has its own frame back at the end, MRET,
      and the outer handler's restore.  Then the outer frame is back, so handlers of this shape nest to any depth. */
  lemma NestedMachineTrap(h: Hart, cause: nat, tval: int, inner: seq<Event>)
    requires Invariant(h) && h.mode == Machine && !h.halted && 0 <= h.words.mepc < 0x1_0000_0000
    requires InHandler(Step(h, Exception(cause, tval)), Run(Step(h, Exception(cause, tval)), inner))
    ensures var k := Run(h, InnerEvents(h, cause, tval, inner));
            InHandler(h, k) && k.status == h.status
  {
    InnerRun(h, cause, tval, inner);
    MachineTrapState(h, cause, tval);
    var k := Run(Step(h, Exception(cause, tval)), inner);
    MretInMachine(k);
    RestoreWorks(Mret(k), h);
  }

  // M-mode handlers with traps inside, to any depth.

  /** A part of an M-mode handler: an event, or an inner trap with its own handler. */
  datatype Piece = One(event: Event) | Inner(cause: nat, tval: int, body: seq<Piece>)

  /** The events of a handler that is entered in state `h`. */
  ghost function Flatten(h: Hart, body: seq<Piece>): seq<Event>
    decreases body
  {
    if body == [] then []
    else
      var n := |body| - 1;
      var before := Flatten(h, body[..n]);
      var k := Run(h, before);
      match body[n]
      case One(e) => before + [e]
      case Inner(cause, tval, inner) =>
        before + InnerEvents(k, cause, tval, Flatten(Step(k, Exception(cause, tval)), inner))
  }

  /** A handler of any depth: outside its inner traps it stays in M-mode and leaves its frame alone, and no trap goes
      to the reset vector. */
  ghost predicate WellNested(h: Hart, body: seq<Piece>)
    decreases body
  {
    body == [] ||
    var n := |body| - 1;
    var k := Run(h, Flatten(h, body[..n]));
    && WellNested(h, body[..n])
    && match body[n]
       case One(e) => MachineSafe(k, e) && Step(k, e).mode == Machine && !Step(k, e).halted
       case Inner(cause, tval, inner) =>
         && 0 <= k.pc < 0x1_0000_0000 && !Step(k, Exception(cause, tval)).halted
         && WellNested(Step(k, Exception(cause, tval)), inner)
  }

  lemma {:induction false} RunKeepsInvariant(h: Hart, events: seq<Event>)
    requires Invariant(h)
    ensures Invariant(Run(h, events))
    decreases |events|
  {
    if events != [] {
      RunKeepsInvariant(h, events[..|events| - 1]);
      StepKeepsInvariant(Run(h, events[..|events| - 1]), events[|events| - 1]);
    }
  }

  lemma MachineTrapState(k: Hart, cause: nat, tval: int)
    requires k.mode == Machine && !k.halted
    ensures var t := Step(k, Exception(cause, tval));
            t.mode == Machine && t.words.mepc == k.pc && t.status.mpp == Machine
  {
  }

  predicate InHandler(h: Hart, k: Hart) { SameMachineFrame(h, k) && k.mode == Machine && !k.halted }

  lemma OneEvent(h: Hart, before: seq<Event>, e: Event)
    ensures Run(h, before + [e]) == Step(Run(h, before), e)
  {
    assert (before + [e])[..|before + [e]| - 1] == before;
  }

  /** A handler with inner traps of any depth has its own frame at its end. */
  lemma {:induction false} NestedHandlerKeepsFrame(h: Hart, body: seq<Piece>)
    requires Invariant(h) && h.mode == Machine && !h.halted && 0 <= h.words.mepc < 0x1_0000_0000 && WellNested(h, body)
    ensures InHandler(h, Run(h, Flatten(h, body)))
    decreases body
  {
    if body != [] {
      var n := |body| - 1;
      var before := Flatten(h, body[..n]);
      var k := Run(h, before);
      NestedHandlerKeepsFrame(h, body[..n]);
      RunKeepsInvariant(h, before);
      match body[n]
      case One(e) =>
        OneEvent(h, before, e);
        EventKeepsMachineFrame(k, e);
      case Inner(cause, tval, inner) =>
        var t := Step(k, Exception(cause, tval));
        MachineTrapState(k, cause, tval);
        StepKeepsInvariant(k, Exception(cause, tval));
        NestedHandlerKeepsFrame(t, inner);
        NestedMachineTrap(k, cause, tval, Flatten(t, inner));
        RunAppend(h, before, InnerEvents(k, cause, tval, Flatten(t, inner)));
    }
  }

  /** So after a trap to M-mode, a handler with inner traps of any depth, and MRET, the interrupted code goes on
      where it was, in its mode, with its MIE. */
  lemma NestedHandlerReturns(h: Hart, cause: nat, tval: int, body: seq<Piece>)
    requires Invariant(h) && 0 <= h.pc < 0x1_0000_0000
    requires var t := EnterMachine(h, cause, tval);
             !t.halted && WellNested(t, body)
    ensures var t := EnterMachine(h, cause, tval);
            var k := Step(Run(t, Flatten(t, body)), PrivInstruction(0x302));
            k.mode == h.mode && k.pc == h.pc && k.status.mie == h.status.mie
  {
    var t := EnterMachine(h, cause, tval);
    NestedHandlerKeepsFrame(t, body);
    MachineHandlerReturns(h, cause, tval, Flatten(t, body));
  }

  // The same handlers seen from an S-mode handler that they interrupt.

  lemma SafeAppend(h: Hart, a: seq<Event>, b: seq<Event>)
    requires SafeRun(h, a) && SafeRun(Run(h, a), b)
    ensures SafeRun(h, a + b)
  {
    forall i | 0 <= i < |a + b| ensures FrameSafe(Run(h, (a + b)[..i]), (a + b)[i]) {
      if i < |a| {
        assert (a + b)[..i] == a[..i];
      } else {
        assert (a + b)[..i] == a + b[..i - |a|];
        RunAppend(h, a, b[..i - |a|]);
      }
    }
  }

  lemma SafeOne(h: Hart, e: Event)
    requires FrameSafe(h, e)
    ensures SafeRun(h, [e])
  {
    assert [e][..0] == [];
  }

  lemma MretIsSafe(k: Hart)
    requires k.mode == Machine && !k.halted
    ensures FrameSafe(k, PrivInstruction(0x302)) && SafeRun(k, [PrivInstruction(0x302)])
  {
    SafeOne(k, PrivInstruction(0x302));
  }

  lemma TrapIsSafe(k: Hart, cause: nat, tval: int)
    requires !Delegated(k, cause, false)
    ensures SafeRun(k, [Exception(cause, tval)])
  {
    SafeOne(k, Exception(cause, tval));
  }

  lemma ReadWriteStores(h: Hart, a: int, v: bv32, rs1Id: int)
    ensures Stored(h, CsrInstruction(ReadWrite, a, v, rs1Id, 0)) == v
  {
    assert Unfold(0);
  }

  function MepcWrite(v: bv32): Event { CsrInstruction(ReadWrite, 0x341, v, 1, 0) }

  function MstatusWrite(v: bv32): Event { CsrInstruction(ReadWrite, 0x300, v, 1, 0) }

  lemma MepcWriteIsSafe(m: Hart, v: bv32)
    requires m.mode == Machine && !m.halted
    ensures SafeRun(m, [MepcWrite(v)])
  {
    SafeOne(m, MepcWrite(v));
  }

  lemma MstatusWriteIsSafe(m: Hart, s: Status)
    requires m.mode == Machine && !m.halted
    requires s.sie == m.status.sie && s.spie == m.status.spie && s.spp == m.status.spp
    ensures SafeRun(m, [MstatusWrite(Encode(s))])
  {
    ParseEncode(s);
    ReadWriteStores(m, 0x300, Encode(s), 1);
    SafeOne(m, MstatusWrite(Encode(s)));
  }

  /** Writing mepc, and then an mstatus with the same SIE, SPIE and SPP. */
  lemma RestoreIsSafe(m: Hart, s: Status, mepc: bv32)
    requires m.mode == Machine && !m.halted
    requires s.sie == m.status.sie && s.spie == m.status.spie && s.spp == m.status.spp
    ensures SafeRun(m, RestoreFrame(mepc, Encode(s)))
  {
    WriteMepc(m, mepc, 1);
    OneRun(m, MepcWrite(mepc));
    MepcWriteIsSafe(m, mepc);
    MstatusWriteIsSafe(Step(m, MepcWrite(mepc)), s);
    SafeAppend(m, [MepcWrite(mepc)], [MstatusWrite(Encode(s))]);
    assert [MepcWrite(mepc)] + [MstatusWrite(Encode(s))] == RestoreFrame(mepc, Encode(s));
  }

  /** The events of a handler outside its inner traps leave the S-mode frame alone. */
  ghost predicate PiecesSafe(h: Hart, body: seq<Piece>)
    decreases body
  {
    body == [] ||
    var n := |body| - 1;
    var k := Run(h, Flatten(h, body[..n]));
    && PiecesSafe(h, body[..n])
    && match body[n]
       case One(e) => FrameSafe(k, e)
       case Inner(cause, tval, inner) => PiecesSafe(Step(k, Exception(cause, tval)), inner)
  }

  lemma MretKeepsFrame(k: Hart)
    ensures SameFrame(k, Mret(k))
  {
  }

  lemma InnerIsSafe(k: Hart, cause: nat, tval: int, inner: seq<Event>)
    requires k.mode == Machine && !k.halted
    requires var t := Step(k, Exception(cause, tval));
             SafeRun(t, inner) && InHandler(t, Run(t, inner))
    ensures SafeRun(k, InnerEvents(k, cause, tval, inner))
  {
    var t := Step(k, Exception(cause, tval));
    var u := Run(t, inner);
    TrapIsSafe(k, cause, tval);
    OneRun(k, Exception(cause, tval));
    SafeAppend(k, [Exception(cause, tval)], inner);
    RunAppend(k, [Exception(cause, tval)], inner);
    MretIsSafe(u);
    SafeAppend(k, [Exception(cause, tval)] + inner, [PrivInstruction(0x302)]);
    RunAppend(k, [Exception(cause, tval)] + inner, [PrivInstruction(0x302)]);
    OneRun(u, PrivInstruction(0x302));
    AfterMret(k, cause, tval, inner);
    RestoreIsSafe(Mret(u), k.status, Bits32(k.words.mepc));
    SafeAppend(k, [Exception(cause, tval)] + inner + [PrivInstruction(0x302)],
               RestoreFrame(Bits32(k.words.mepc), Encode(k.status)));
  }

  lemma AfterMret(k: Hart, cause: nat, tval: int, inner: seq<Event>)
    requires k.mode == Machine && !k.halted
    requires var t := Step(k, Exception(cause, tval));
             SafeRun(t, inner) && InHandler(t, Run(t, inner))
    ensures var u := Run(Step(k, Exception(cause, tval)), inner);
            && Step(u, PrivInstruction(0x302)) == Mret(u) && Mret(u).mode == Machine && !Mret(u).halted
            && SameFrame(k, Mret(u))
  {
    var t := Step(k, Exception(cause, tval));
    MachineEntryKeepsFrame(k, cause, tval, false);
    HandlerKeepsFrame(t, inner);
    MachineTrapState(k, cause, tval);
    MretInMachine(Run(t, inner));
    MretKeepsFrame(Run(t, inner));
  }

  /** A nested M-mode handler is a safe run, restores of mstatus included. */
  lemma {:induction false} NestedHandlerSafe(h: Hart, body: seq<Piece>)
    requires Invariant(h) && h.mode == Machine && !h.halted && 0 <= h.words.mepc < 0x1_0000_0000
    requires WellNested(h, body) && PiecesSafe(h, body)
    ensures SafeRun(h, Flatten(h, body))
    decreases body
  {
    if body != [] {
      var n := |body| - 1;
      var before := Flatten(h, body[..n]);
      var k := Run(h, before);
      NestedHandlerSafe(h, body[..n]);
      NestedHandlerKeepsFrame(h, body[..n]);
      RunKeepsInvariant(h, before);
      match body[n]
      case One(e) =>
        SafeOne(k, e);
        SafeAppend(h, before, [e]);
      case Inner(cause, tval, inner) =>
        var t := Step(k, Exception(cause, tval));
        MachineTrapState(k, cause, tval);
        StepKeepsInvariant(k, Exception(cause, tval));
        NestedHandlerSafe(t, inner);
        NestedHandlerKeepsFrame(t, inner);
        InnerIsSafe(k, cause, tval, Flatten(t, inner));
        SafeAppend(h, before, InnerEvents(k, cause, tval, Flatten(t, inner)));
    }
  }

  /** A trap to M-mode, its handler with inner traps of any depth, and MRET. */
  ghost function Excursion(k: Hart, cause: nat, tval: int, body: seq<Piece>): seq<Event> {
    [Exception(cause, tval)] + Flatten(EnterMachine(k, cause, tval), body) + [PrivInstruction(0x302)]
  }

  /** Inside an S-mode handler such an excursion is safe, and the handler goes on where it was, in its mode. */
  lemma ExcursionSafe(k: Hart, cause: nat, tval: int, body: seq<Piece>)
    requires Invariant(k) && !k.halted && 0 <= k.pc < 0x1_0000_0000 && !Delegated(k, cause, false)
    requires var t := EnterMachine(k, cause, tval);
             !t.halted && WellNested(t, body) && PiecesSafe(t, body)
    ensures SafeRun(k, Excursion(k, cause, tval, body))
    ensures var r := Run(k, Excursion(k, cause, tval, body));
            r.mode == k.mode && r.pc == k.pc && SameFrame(k, r)
  {
    var t := EnterMachine(k, cause, tval);
    var events := Flatten(t, body);
    StepKeepsInvariant(k, Exception(cause, tval));
    TrapIsSafe(k, cause, tval);
    OneRun(k, Exception(cause, tval));
    NestedHandlerSafe(t, body);
    NestedHandlerKeepsFrame(t, body);
    SafeAppend(k, [Exception(cause, tval)], events);
    RunAppend(k, [Exception(cause, tval)], events);
    MretIsSafe(Run(t, events));
    SafeAppend(k, [Exception(cause, tval)] + events, [PrivInstruction(0x302)]);
    RunAppend(k, [Exception(cause, tval)] + events, [PrivInstruction(0x302)]);
    OneRun(Run(t, events), PrivInstruction(0x302));
    NestedHandlerReturns(k, cause, tval, body);
    HandlerKeepsFrame(k, Excursion(k, cause, tval, body));
  }

  /** CSRRW to mepc and to mstatus in M-mode. */
  lemma WriteMepc(m: Hart, v: bv32, rs1Id: int)
    requires m.mode == Machine && !m.halted
    ensures Step(m, CsrInstruction(ReadWrite, 0x341, v, rs1Id, 0)) == Advance(StoreCsr(m, Word(Mepc), v))
  {
    assert Unfold(0);
  }

  lemma WriteMstatus(m: Hart, v: bv32, rs1Id: int)
    requires m.mode == Machine && !m.halted
    ensures Step(m, CsrInstruction(ReadWrite, 0x300, v, rs1Id, 0)) == Advance(StoreCsr(m, Mstatus, v))
  {
    assert Unfold(0);
  }

  /** The two writes put back what was encoded. */
  lemma RestoredValues(m: Hart, h: Hart, mepc: bv32, mstatus: bv32)
    requires 0 <= h.words.mepc < 0x1_0000_0000 && h.words.mepc % 4 == 0
    requires mepc as int == h.words.mepc && ParseStatus(mstatus) == h.status
    ensures var k := Advance(StoreCsr(Advance(StoreCsr(m, Word(Mepc), mepc)), Mstatus, mstatus));
            k.words.mepc == h.words.mepc && k.status == h.status && k.mode == m.mode && k.halted == m.halted
  {
  }

  lemma RestoreWorks(m: Hart, h: Hart)
    requires m.mode == Machine && !m.halted && 0 <= h.words.mepc < 0x1_0000_0000 && h.words.mepc % 4 == 0
    ensures var k := Run(m, RestoreFrame(Bits32(h.words.mepc), Encode(h.status)));
            k.words.mepc == h.words.mepc && k.status == h.status && k.mode == Machine && !k.halted
  {
    ParseEncode(h.status);
    BitsRoundTrip(h.words.mepc);
    RestoredRun(m, Bits32(h.words.mepc), Encode(h.status));
    RestoredValues(m, h, Bits32(h.words.mepc), Encode(h.status));
  }

  lemma RestoredRun(m: Hart, mepc: bv32, mstatus: bv32)
    requires m.mode == Machine && !m.halted
    ensures Run(m, RestoreFrame(mepc, mstatus))
         == Advance(StoreCsr(Advance(StoreCsr(m, Word(Mepc), mepc)), Mstatus, mstatus))
  {
    WriteMepc(m, mepc, 1);
    WriteMstatus(Advance(StoreCsr(m, Word(Mepc), mepc)), mstatus, 1);
    TwoEvents(m, CsrInstruction(ReadWrite, 0x341, mepc, 1, 0), CsrInstruction(ReadWrite, 0x300, mstatus, 1, 0));
  }

  lemma TwoEvents(h: Hart, e: Event, f: Event)
    ensures Run(h, [e, f]) == Step(Step(h, e), f)
  {
    assert [e][..0] == [];
    assert Run(h, [e]) == Step(h, e);
    assert [e, f][..1] == [e];
  }

  lemma BitsRoundTrip(v: int)
    requires 0 <= v < 0x1_0000_0000
    ensures Bits32(v) as int == v
  {
    ModRoundTrip(v);
  }

  lemma ModRoundTrip(v: int)
    requires 0 <= v < 0x1_0000_0000
    ensures ((v % 0x1_0000_0000) as bv32) as int == v
  {
  }

  // --- jumps ------------------------------------------------------------------

  lemma AddMod(a: int, b: int)
    ensures (a + b % 0x1_0000_0000) % 0x1_0000_0000 == (a + b) % 0x1_0000_0000
  {
    var k := b / 0x1_0000_0000;
    assert a + b == a + b % 0x1_0000_0000 + k * 0x1_0000_0000;
  }

  lemma JumpTo(h: Hart, target: int, t: int)
    requires t == target % 0x1_0000_0000
    ensures Jump(h, target) == if t % 4 == 0 then h.(pc := t) else Trap(h, 0, t, false)
  {
  }

  /** Immediates are added as unsigned words and the sum is truncated: that is the pc-relative jump by the signed
      offset, around the end of the address space too. */
  lemma JumpBySignedOffset(h: Hart, offset: int)
    ensures var t := (h.pc + offset) % 0x1_0000_0000;
            Jump(h, h.pc + offset % 0x1_0000_0000) == if t % 4 == 0 then h.(pc := t) else Trap(h, 0, t, false)
  {
    AddMod(h.pc, offset);
    JumpTo(h, h.pc + offset % 0x1_0000_0000, (h.pc + offset) % 0x1_0000_0000);
  }
}
