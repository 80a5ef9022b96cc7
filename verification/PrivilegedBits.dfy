/**
  Traps, returns and CSR instructions by CSR address and by the bits of mstatus.

  `Privilege` names the fields; a program sees addresses and words.  These
  statements are about what it reads.
 */
module PrivilegedBits {
  import opened Options
  import opened Csr
  import opened Privilege

  /** What a CSR instruction at an address returns. */
  function Read(h: Hart, a: int, outside: bv32): bv32 { CsrValue(h, CsrAt(a), outside) }

  /** The key of `Reads` and `SameRead`. */
  predicate Returning(k: int) { true }

  /** The value at an address as a number; kept folded. */
  ghost predicate Reads(h: Hart, a: int, outside: bv32, v: int) {
    forall k: int :: Returning(k) ==> Read(h, a, outside) as int == v
  }

  /** The same for a register that is a set of bits. */
  ghost predicate ReadsBits(h: Hart, a: int, outside: bv32, w: bv32) {
    forall k: int :: Returning(k) ==> Read(h, a, outside) == w
  }

  ghost predicate SameRead(h: Hart, k: Hart, a: int, outside: bv32) {
    forall u: int :: Returning(u) ==> Read(h, a, outside) == Read(k, a, outside)
  }

  // --- words ------------------------------------------------------------------

  /** The addresses of registers that hold a word. */
  predicate IsWordAddress(a: int) {
    || a == 0x340 || a == 0x341 || a == 0x342 || a == 0x343 || a == 0x305 || a == 0x306
    || a == 0x140 || a == 0x141 || a == 0x142 || a == 0x143 || a == 0x105 || a == 0x106 || a == 0x180
  }

  function AddressOfWord(w: WordCsr): int {
    match w
    case Mscratch => 0x340
    case Mepc => 0x341
    case Mcause => 0x342
    case Mtval => 0x343
    case Mtvec => 0x305
    case Mcounteren => 0x306
    case Sscratch => 0x140
    case Sepc => 0x141
    case Scause => 0x142
    case Stval => 0x143
    case Stvec => 0x105
    case Scounteren => 0x106
    case Satp => 0x180
  }

  lemma WordAddress(a: int)
    ensures IsWordAddress(a) <==> CsrAt(a).Word?
    ensures IsWordAddress(a) ==> AddressOfWord(CsrAt(a).word) == a
  {
  }

  /** xepc and xtvec drop their two lowest bits. */
  predicate DropsLowBits(a: int) { a == 0x341 || a == 0x141 || a == 0x305 || a == 0x105 }

  function Kept(a: int, v: int): int { if DropsLowBits(a) then v - v % 4 else v }

  lemma StoredWord(w: Words, c: WordCsr, d: WordCsr, v: int)
    ensures LoadWord(StoreWord(w, c, v), d) == if c == d then Kept(AddressOfWord(c), v) else LoadWord(w, d)
  {
  }

  lemma OtherReads(h: Hart, words: Words, b: int, outside: bv32)
    requires CsrAt(b).Word? ==> LoadWord(words, CsrAt(b).word) == LoadWord(h.words, CsrAt(b).word)
    ensures SameRead(h.(words := words), h, b, outside)
  {
  }

  lemma KeptFits(a: int, v: int)
    requires 0 <= v < 0x1_0000_0000
    ensures 0 <= Kept(a, v) <= v
  {
  }

  lemma WordReads(h: Hart, a: int, c: WordCsr, outside: bv32, v: int)
    requires CsrAt(a) == Word(c) && LoadWord(h.words, c) == v && 0 <= v < 0x1_0000_0000
    ensures Reads(h, a, outside, v)
  {
    BitsRoundTrip(v);
  }

  lemma ReadBack(h: Hart, a: int, c: WordCsr, n: int, outside: bv32)
    requires IsWordAddress(a) && CsrAt(a) == Word(c) && 0 <= n < 0x1_0000_0000
    ensures Reads(h.(words := StoreWord(h.words, c, n)), a, outside, Kept(a, n))
  {
    WordAddress(a);
    StoredWord(h.words, c, c, n);
    KeptFits(a, n);
    WordReads(h.(words := StoreWord(h.words, c, n)), a, c, outside, Kept(a, n));
  }

  lemma ReadElsewhere(h: Hart, a: int, c: WordCsr, n: int, b: int, outside: bv32)
    requires IsWordAddress(a) && CsrAt(a) == Word(c) && b != a
    ensures SameRead(h.(words := StoreWord(h.words, c, n)), h, b, outside)
  {
    WordAddress(a);
    WordAddress(b);
    if CsrAt(b).Word? {
      StoredWord(h.words, c, CsrAt(b).word, n);
    }
    OtherReads(h, StoreWord(h.words, c, n), b, outside);
  }

  /** A word that is stored is read back at its address, and nowhere else. */
  lemma StoreRead(h: Hart, a: int, v: bv32, b: int, outside: bv32)
    requires IsWordAddress(a)
    ensures Reads(StoreCsr(h, CsrAt(a), v), a, outside, Kept(a, v as int))
    ensures b != a ==> SameRead(StoreCsr(h, CsrAt(a), v), h, b, outside)
  {
    WordAddress(a);
    ReadBack(h, a, CsrAt(a).word, v as int, outside);
    if b != a {
      ReadElsewhere(h, a, CsrAt(a).word, v as int, b, outside);
    }
  }

  /** The new value of a register: rs1, or the old value with bits set or cleared. */
  predicate Combines(op: CsrOp, old': bv32, rs1: bv32, v: bv32) {
    match op
    case ReadWrite => v == rs1
    case SetBits => v & rs1 == rs1 && v & !rs1 == old' & !rs1
    case ClearBits => v & rs1 == 0 && v & !rs1 == old' & !rs1
  }

  lemma BitsSet(o: bv32, r: bv32, v: bv32)
    requires v & r == r && v & !r == o & !r
    ensures v == o | r
  {
  }

  lemma BitsCleared(o: bv32, r: bv32, v: bv32)
    requires v & r == 0 && v & !r == o & !r
    ensures v == o & !r
  {
  }

  lemma CombinesModify(op: CsrOp, old': bv32, rs1: bv32, v: bv32)
    requires Combines(op, old', rs1, v)
    ensures v == Modify(op, old', rs1)
  {
    match op
    case ReadWrite =>
    case SetBits => BitsSet(old', rs1, v);
    case ClearBits => BitsCleared(old', rs1, v);
  }

  lemma NewValueIs(h: Hart, op: CsrOp, csr: Csr, rs1: bv32, outside: bv32, v: bv32)
    requires Combines(op, CsrValue(h, csr, outside), rs1, v)
    ensures NewValue(h, op, csr, rs1, outside) == v
  {
    assert Unfold(0);
    CombinesModify(op, CsrValue(h, csr, outside), rs1, v);
  }

  lemma WritesThrough(h: Hart, op: CsrOp, a: int, rs1: bv32, rs1Id: int, outside: bv32, v: bv32)
    requires !h.halted && Readable(h, a) && !ReadOnly(a) && Writes(op, rs1Id)
    requires Combines(op, Read(h, a, outside), rs1, v)
    ensures Step(h, CsrInstruction(op, a, rs1, rs1Id, outside)) == Advance(StoreCsr(h, CsrAt(a), v))
  {
    NewValueIs(h, op, CsrAt(a), rs1, outside, v);
  }

  /** A CSR instruction that may write a word: later reads of the address give the new value, reads of all others what
      they gave before. */
  lemma WordWritten(h: Hart, op: CsrOp, a: int, rs1: bv32, rs1Id: int, outside: bv32, v: bv32, b: int)
    requires !h.halted && IsWordAddress(a) && Readable(h, a) && Writes(op, rs1Id)
    requires Combines(op, Read(h, a, outside), rs1, v)
    ensures var k := Step(h, CsrInstruction(op, a, rs1, rs1Id, outside));
            && Reads(k, a, outside, Kept(a, v as int))
            && (b != a ==> SameRead(k, h, b, outside))
            && k.pc == h.pc + 4 && k.mode == h.mode && !k.halted
  {
    WritesThrough(h, op, a, rs1, rs1Id, outside, v);
    WordAddress(a);
    StoreRead(h, a, v, b, outside);
    AdvanceReads(StoreCsr(h, CsrAt(a), v), a, outside, Kept(a, v as int));
    AdvanceSame(StoreCsr(h, CsrAt(a), v), h, b, outside);
  }

  lemma AdvanceReads(h: Hart, a: int, outside: bv32, v: int)
    requires Reads(h, a, outside, v)
    ensures Reads(Advance(h), a, outside, v)
  {
    assert Returning(0);
  }

  lemma AdvanceSame(h: Hart, k: Hart, b: int, outside: bv32)
    ensures SameRead(h, k, b, outside) ==> SameRead(Advance(h), k, b, outside)
  {
    assert Returning(0);
  }

  // --- traps ------------------------------------------------------------------

  /** Where a trap stores cause, value and pc, and where it continues. */
  function CauseAt(m: Mode): int { if m == Machine then 0x342 else 0x142 }

  function ValueAt(m: Mode): int { if m == Machine then 0x343 else 0x143 }

  function PcAt(m: Mode): int { if m == Machine then 0x341 else 0x141 }

  function VectorAt(m: Mode): int { if m == Machine then 0x305 else 0x105 }

  lemma TrapAddresses()
    ensures CsrAt(0x341) == Word(Mepc) && CsrAt(0x342) == Word(Mcause) && CsrAt(0x343) == Word(Mtval)
    ensures CsrAt(0x141) == Word(Sepc) && CsrAt(0x142) == Word(Scause) && CsrAt(0x143) == Word(Stval)
    ensures CsrAt(0x305) == Word(Mtvec) && CsrAt(0x105) == Word(Stvec)
  {
  }

  lemma OtherWord(h: Hart, k: Hart, a: int, outside: bv32)
    requires CsrAt(a).Word? && LoadWord(h.words, CsrAt(a).word) == LoadWord(k.words, CsrAt(a).word)
    ensures SameRead(h, k, a, outside)
  {
  }

  /** After `k` has entered a handler for `cause` in mode `m`, it reads this. */
  ghost predicate ReadsTrap(h: Hart, k: Hart, m: Mode, cause: int, tval: int, outside: bv32) {
    && k.mode == m && Reads(k, CauseAt(m), outside, cause) && Reads(k, ValueAt(m), outside, tval)
    && Reads(k, PcAt(m), outside, h.pc)
  }

  lemma MachineReads(h: Hart, cause: int, tval: int, outside: bv32)
    requires InWord(cause) && InWord(tval) && InWord(h.pc)
    ensures ReadsTrap(h, EnterMachine(h, cause, tval), Machine, cause, tval, outside)
  {
    var k := EnterMachine(h, cause, tval);
    TrapAddresses();
    WordReads(k, 0x341, Mepc, outside, h.pc);
    WordReads(k, 0x342, Mcause, outside, cause);
    WordReads(k, 0x343, Mtval, outside, tval);
  }

  lemma SupervisorReads(h: Hart, cause: int, tval: int, outside: bv32)
    requires InWord(cause) && InWord(tval) && InWord(h.pc)
    ensures ReadsTrap(h, EnterSupervisor(h, cause, tval), Supervisor, cause, tval, outside)
  {
    var k := EnterSupervisor(h, cause, tval);
    TrapAddresses();
    WordReads(k, 0x141, Sepc, outside, h.pc);
    WordReads(k, 0x142, Scause, outside, cause);
    WordReads(k, 0x143, Stval, outside, tval);
  }

  /** The mode that takes a trap. */
  ghost function Taker(h: Hart, cause: nat, interrupt: bool): Mode {
    if Delegated(h, cause, interrupt) then Supervisor else Machine
  }

  /** After a trap the handler reads the cause, the value and the pc at the addresses of its mode. */
  lemma TrapReads(h: Hart, cause: nat, tval: int, interrupt: bool, outside: bv32)
    requires InWord(cause) && InWord(tval) && InWord(h.pc)
    ensures ReadsTrap(h, Trap(h, cause, tval, interrupt), Taker(h, cause, interrupt), cause, tval, outside)
  {
    MachineReads(h, cause, tval, outside);
    SupervisorReads(h, cause, tval, outside);
  }

  lemma TrapWords(h: Hart, cause: int, tval: int, c: WordCsr)
    ensures c != Mcause && c != Mtval && c != Mepc ==>
              LoadWord(EnterMachine(h, cause, tval).words, c) == LoadWord(h.words, c)
    ensures c != Scause && c != Stval && c != Sepc ==>
              LoadWord(EnterSupervisor(h, cause, tval).words, c) == LoadWord(h.words, c)
  {
  }

  /** No other word has changed. */
  lemma TrapKeepsWords(h: Hart, cause: nat, tval: int, interrupt: bool, outside: bv32, b: int)
    requires var m := Taker(h, cause, interrupt);
             IsWordAddress(b) && b != CauseAt(m) && b != ValueAt(m) && b != PcAt(m)
    ensures SameRead(Trap(h, cause, tval, interrupt), h, b, outside)
  {
    WordAddress(b);
    TrapWords(h, cause, tval, CsrAt(b).word);
    OtherWord(Trap(h, cause, tval, interrupt), h, b, outside);
  }

  /** A handler starts at the address that was in `t`; the reset value stops the machine. */
  predicate StartsAt(k: Hart, t: int) { if t == 0xffff_fff0 then k.halted else !k.halted && k.pc == t }

  lemma VectorStarts(h: Hart, cause: nat, tval: int, interrupt: bool)
    requires !h.halted
    ensures StartsAt(Trap(h, cause, tval, interrupt),
                     LoadWord(h.words, if Taker(h, cause, interrupt) == Machine then Mtvec else Stvec))
  {
  }

  lemma ReadsOnce(h: Hart, a: int, outside: bv32, v: int, t: int)
    requires Reads(h, a, outside, v) && Reads(h, a, outside, t)
    ensures v == t
  {
    assert Returning(0);
  }

  /** The handler starts at the address in xtvec of its mode. */
  lemma TrapVector(h: Hart, cause: nat, tval: int, interrupt: bool, outside: bv32, t: int)
    requires InWord(h.words.mtvec) && InWord(h.words.stvec) && !h.halted
    requires Reads(h, VectorAt(Taker(h, cause, interrupt)), outside, t)
    ensures StartsAt(Trap(h, cause, tval, interrupt), t)
  {
    TrapAddresses();
    WordReads(h, 0x305, Mtvec, outside, h.words.mtvec);
    WordReads(h, 0x105, Stvec, outside, h.words.stvec);
    var m := Taker(h, cause, interrupt);
    ReadsOnce(h, VectorAt(m), outside, t, LoadWord(h.words, if m == Machine then Mtvec else Stvec));
    VectorStarts(h, cause, tval, interrupt);
  }

  predicate InWord(v: int) { 0 <= v < 0x1_0000_0000 }

  // --- mstatus ----------------------------------------------------------------

  // Bits of mstatus: SIE 0x2, MIE 0x8, SPIE 0x20, MPIE 0x80, SPP 0x100, MPP 0x1800, MPRV 0x20000, SUM 0x40000,
  // MXR 0x80000, TVM 0x100000, TW 0x200000, TSR 0x400000.

  function ModeBits(m: Mode): bv32 { match m case User => 0 case Supervisor => 0x800 case Machine => 0x1800 }

  predicate LowShows(w: bv32, s: Status) {
    && (w & 0x2 != 0 <==> s.sie) && (w & 0x8 != 0 <==> s.mie) && (w & 0x20 != 0 <==> s.spie)
    && (w & 0x80 != 0 <==> s.mpie) && (w & 0x100 != 0 <==> s.spp) && w & 0x1800 == ModeBits(s.mpp)
  }

  predicate HighShows(w: bv32, s: Status) {
    && (w & 0x20000 != 0 <==> s.mprv) && (w & 0x40000 != 0 <==> s.sum) && (w & 0x80000 != 0 <==> s.mxr)
    && (w & 0x100000 != 0 <==> s.tvm) && (w & 0x200000 != 0 <==> s.tw) && (w & 0x400000 != 0 <==> s.tsr)
    && w & 0xff81_e655 == 0
  }

  /** mstatus shows the status bit by bit. */
  predicate Shows(w: bv32, s: Status) { LowShows(w, s) && HighShows(w, s) }

  lemma MppShown(w: bv32, m: Mode)
    requires WellFormed(w) && LegalMpp(w & 0x1000 != 0, w & 0x800 != 0) == m
    ensures w & 0x1800 == ModeBits(m)
  {
  }

  /** What a read of mstatus returns. */
  lemma StatusShown(h: Hart, outside: bv32, w: bv32)
    requires ReadsBits(h, 0x300, outside, w)
    ensures Shows(w, h.status)
  {
    assert Returning(0);
    ParseEncode(h.status);
    MppShown(Encode(h.status), h.status.mpp);
  }

  /** All bits of `w` and `x` outside `mask` are the same. */
  predicate SameOutside(w: bv32, x: bv32, mask: bv32) { w & !mask == x & !mask }

  lemma SameByBits(w: bv32, x: bv32, mask: bv32, s: Status, t: Status)
    requires Shows(w, s) && Shows(x, t)
    requires mask & 0x2 != 0 || s.sie == t.sie
    requires mask & 0x8 != 0 || s.mie == t.mie
    requires mask & 0x20 != 0 || s.spie == t.spie
    requires mask & 0x80 != 0 || s.mpie == t.mpie
    requires mask & 0x100 != 0 || s.spp == t.spp
    requires mask & 0x1800 == 0x1800 || s.mpp == t.mpp
    requires mask & 0x20000 != 0 || s.mprv == t.mprv
    requires mask & 0x40000 != 0 || s.sum == t.sum
    requires mask & 0x80000 != 0 || s.mxr == t.mxr
    requires s.tvm == t.tvm && s.tw == t.tw && s.tsr == t.tsr
    ensures SameOutside(w, x, mask)
  {
  }

  /** `w` becomes `x` when M-mode is entered from mode `m`. */
  predicate MachinePushed(w: bv32, x: bv32, m: Mode) {
    (x & 0x80 != 0 <==> w & 0x8 != 0) && x & 0x8 == 0 && x & 0x1800 == ModeBits(m) && SameOutside(w, x, 0x1888)
  }

  /** `w` becomes `x` when S-mode is entered. */
  predicate SupervisorPushed(w: bv32, x: bv32, fromSupervisor: bool) {
    && (x & 0x20 != 0 <==> w & 0x2 != 0) && x & 0x2 == 0 && (x & 0x100 != 0 <==> fromSupervisor)
    && SameOutside(w, x, 0x122)
  }

  /** `w` becomes `x` in MRET, which drops MPRV on the way out of M-mode. */
  predicate MachinePopped(w: bv32, x: bv32) {
    && (x & 0x8 != 0 <==> w & 0x80 != 0) && x & 0x80 != 0 && x & 0x1800 == 0
    && (x & 0x20000 != 0 <==> w & 0x20000 != 0 && w & 0x1800 == 0x1800) && SameOutside(w, x, 0x21888)
  }

  /** `w` becomes `x` in SRET. */
  predicate SupervisorPopped(w: bv32, x: bv32) {
    && (x & 0x2 != 0 <==> w & 0x20 != 0) && x & 0x20 != 0 && x & 0x100 == 0 && x & 0x20000 == 0
    && SameOutside(w, x, 0x20122)
  }

  lemma PushMachineBits(w: bv32, x: bv32, s: Status, t: Status)
    requires Shows(w, s) && Shows(x, t) && t == s.(mpie := s.mie, mie := false, mpp := t.mpp)
    ensures MachinePushed(w, x, t.mpp)
  {
    SameByBits(w, x, 0x1888, s, t);
  }

  lemma PushSupervisorBits(w: bv32, x: bv32, s: Status, t: Status)
    requires Shows(w, s) && Shows(x, t) && t == s.(spie := s.sie, sie := false, spp := t.spp)
    ensures SupervisorPushed(w, x, t.spp)
  {
    SameByBits(w, x, 0x122, s, t);
  }

  lemma PopMachineBits(w: bv32, x: bv32, s: Status, t: Status)
    requires Shows(w, s) && Shows(x, t)
    requires t == s.(mie := s.mpie, mpie := true, mpp := User, mprv := s.mprv && s.mpp == Machine)
    ensures MachinePopped(w, x) && w & 0x1800 == ModeBits(s.mpp)
  {
    SameByBits(w, x, 0x21888, s, t);
  }

  lemma PopSupervisorBits(w: bv32, x: bv32, s: Status, t: Status)
    requires Shows(w, s) && Shows(x, t) && t == s.(sie := s.spie, spie := true, spp := false, mprv := false)
    ensures SupervisorPopped(w, x) && (w & 0x100 != 0 <==> s.spp)
  {
    SameByBits(w, x, 0x20122, s, t);
  }

  lemma EnteredStatus(h: Hart, cause: int, tval: int)
    ensures EnterMachine(h, cause, tval).status == h.status.(mpie := h.status.mie, mie := false, mpp := h.mode)
    ensures EnterSupervisor(h, cause, tval).status
         == h.status.(spie := h.status.sie, sie := false, spp := h.mode == Supervisor)
  {
  }

  lemma ReturnedStatus(h: Hart)
    ensures Mret(h).status == h.status.(mie := h.status.mpie, mpie := true, mpp := User,
                                        mprv := h.status.mprv && h.status.mpp == Machine)
    ensures Mret(h).mode == h.status.mpp && Mret(h).pc == h.words.mepc
    ensures Sret(h).status == h.status.(sie := h.status.spie, spie := true, spp := false, mprv := false)
    ensures Sret(h).mode == (if h.status.spp then Supervisor else User) && Sret(h).pc == h.words.sepc
  {
  }

  lemma MachineEntryStatus(h: Hart, k: Hart, outside: bv32, w: bv32, x: bv32)
    requires k.status == h.status.(mpie := h.status.mie, mie := false, mpp := h.mode)
    requires ReadsBits(h, 0x300, outside, w) && ReadsBits(k, 0x300, outside, x)
    ensures MachinePushed(w, x, h.mode)
  {
    StatusShown(h, outside, w);
    StatusShown(k, outside, x);
    PushMachineBits(w, x, h.status, k.status);
  }

  lemma SupervisorEntryStatus(h: Hart, k: Hart, outside: bv32, w: bv32, x: bv32)
    requires k.status == h.status.(spie := h.status.sie, sie := false, spp := h.mode == Supervisor)
    requires ReadsBits(h, 0x300, outside, w) && ReadsBits(k, 0x300, outside, x)
    ensures SupervisorPushed(w, x, h.mode == Supervisor)
  {
    StatusShown(h, outside, w);
    StatusShown(k, outside, x);
    PushSupervisorBits(w, x, h.status, k.status);
  }

  /** A trap pushes the interrupt enable and the mode in mstatus. */
  lemma TrapStatus(h: Hart, k: Hart, cause: nat, tval: int, interrupt: bool, outside: bv32, w: bv32, x: bv32)
    requires k == Trap(h, cause, tval, interrupt)
    requires ReadsBits(h, 0x300, outside, w) && ReadsBits(k, 0x300, outside, x)
    ensures if Taker(h, cause, interrupt) == Machine then MachinePushed(w, x, h.mode)
            else SupervisorPushed(w, x, h.mode == Supervisor)
  {
    EnteredStatus(h, cause, tval);
    if Taker(h, cause, interrupt) == Machine {
      MachineEntryStatus(h, k, outside, w, x);
    } else {
      SupervisorEntryStatus(h, k, outside, w, x);
    }
  }

  /** MRET pops them, to the mode in MPP and the pc in mepc. */
  lemma MretStatus(h: Hart, outside: bv32, w: bv32, x: bv32)
    requires ReadsBits(h, 0x300, outside, w) && ReadsBits(Mret(h), 0x300, outside, x)
    ensures MachinePopped(w, x) && ModeBits(Mret(h).mode) == w & 0x1800
    ensures InWord(h.words.mepc) ==> Reads(h, 0x341, outside, Mret(h).pc)
  {
    StatusShown(h, outside, w);
    StatusShown(Mret(h), outside, x);
    ReturnedStatus(h);
    PopMachineBits(w, x, h.status, Mret(h).status);
    TrapAddresses();
    if InWord(h.words.mepc) {
      WordReads(h, 0x341, Mepc, outside, h.words.mepc);
    }
  }

  /** SRET pops them, to the mode in SPP and the pc in sepc. */
  lemma SretStatus(h: Hart, outside: bv32, w: bv32, x: bv32)
    requires ReadsBits(h, 0x300, outside, w) && ReadsBits(Sret(h), 0x300, outside, x)
    ensures SupervisorPopped(w, x) && Sret(h).mode == (if w & 0x100 != 0 then Supervisor else User)
    ensures InWord(h.words.sepc) ==> Reads(h, 0x141, outside, Sret(h).pc)
  {
    StatusShown(h, outside, w);
    StatusShown(Sret(h), outside, x);
    ReturnedStatus(h);
    PopSupervisorBits(w, x, h.status, Sret(h).status);
    TrapAddresses();
    if InWord(h.words.sepc) {
      WordReads(h, 0x141, Sepc, outside, h.words.sepc);
    }
  }

  // --- writes of mstatus, sstatus and the delegation registers ----------------

  /** The bits of `v` that mstatus takes over; the reserved mode 2 reads as user mode. */
  predicate TakesStatus(v: bv32, x: bv32) {
    && x & 0x7e01aa == v & 0x7e01aa && x & 0xff81_e655 == 0
    && x & 0x1800 == if v & 0x1800 == 0x1000 then 0 else v & 0x1800
  }

  lemma LegalModes(v: bv32)
    ensures ModeBits(LegalMpp(v & 0x1000 != 0, v & 0x800 != 0)) == if v & 0x1800 == 0x1000 then 0 else v & 0x1800
  {
  }

  lemma ParsedTakes(v: bv32, x: bv32)
    requires Shows(x, ParseStatus(v))
    ensures TakesStatus(v, x)
  {
    LegalModes(v);
    ParsedBits(v, x, ParseStatus(v));
  }

  lemma ParsedBits(v: bv32, x: bv32, s: Status)
    requires LowShows(x, s) && HighShows(x, s)
    requires (v & 0x2 != 0 <==> s.sie) && (v & 0x8 != 0 <==> s.mie) && (v & 0x20 != 0 <==> s.spie)
    requires (v & 0x80 != 0 <==> s.mpie) && (v & 0x100 != 0 <==> s.spp)
    requires (v & 0x20000 != 0 <==> s.mprv) && (v & 0x40000 != 0 <==> s.sum) && (v & 0x80000 != 0 <==> s.mxr)
    requires (v & 0x100000 != 0 <==> s.tvm) && (v & 0x200000 != 0 <==> s.tw) && (v & 0x400000 != 0 <==> s.tsr)
    ensures x & 0x7e01aa == v & 0x7e01aa && x & 0xff81_e655 == 0
  {
  }

  /** A write of mstatus. */
  lemma StatusWritten(h: Hart, v: bv32, outside: bv32, x: bv32)
    requires ReadsBits(StoreCsr(h, CsrAt(0x300), v), 0x300, outside, x)
    ensures TakesStatus(v, x)
  {
    var k := StoreCsr(h, CsrAt(0x300), v);
    StatusShown(k, outside, x);
    ParsedTakes(v, x);
  }

  /** sstatus shows five fields of mstatus. */
  lemma SstatusRead(h: Hart, outside: bv32, w: bv32, y: bv32)
    requires ReadsBits(h, 0x300, outside, w) && ReadsBits(h, 0x100, outside, y)
    ensures y == w & 0xc0122
  {
    assert Returning(0);
  }

  lemma FiveBits(w: bv32, x: bv32, s: Status, t: Status, v: bv32)
    requires Shows(w, s) && Shows(x, t)
    requires t == s.(sie := v & 0x2 != 0, spie := v & 0x20 != 0, spp := v & 0x100 != 0, sum := v & 0x40000 != 0,
                     mxr := v & 0x80000 != 0)
    ensures x & 0xc0122 == v & 0xc0122 && SameOutside(w, x, 0xc0122)
  {
    SameByBits(w, x, 0xc0122, s, t);
  }

  lemma SupervisorStatus(s: Status, v: bv32)
    ensures WriteSupervisorStatus(s, v)
         == s.(sie := v & 0x2 != 0, spie := v & 0x20 != 0, spp := v & 0x100 != 0, sum := v & 0x40000 != 0,
               mxr := v & 0x80000 != 0)
  {
  }

  /** A write of sstatus changes these fields of mstatus and no others. */
  lemma SstatusWritten(h: Hart, k: Hart, v: bv32, outside: bv32, w: bv32, x: bv32)
    requires k == StoreCsr(h, CsrAt(0x100), v)
    requires ReadsBits(h, 0x300, outside, w) && ReadsBits(k, 0x300, outside, x)
    ensures x & 0xc0122 == v & 0xc0122 && SameOutside(w, x, 0xc0122)
  {
    StatusShown(h, outside, w);
    StatusShown(k, outside, x);
    SupervisorStatus(h.status, v);
    FiveBits(w, x, h.status, k.status, v);
  }

  /** The delegation registers have a bit for each cause that can be delegated. */
  lemma DelegationWritten(h: Hart, v: bv32, outside: bv32)
    ensures ReadsBits(StoreCsr(h, CsrAt(0x302), v), 0x302, outside, v & 0xcb3ff)
    ensures ReadsBits(StoreCsr(h, CsrAt(0x303), v), 0x303, outside, v & 0xaa2)
  {
  }

  lemma ShiftedBit(w: bv32, k: int)
    requires 0 <= k < 32
    ensures ((w as bv64) >> k) & 1 != 0 <==> (w >> k) & 1 == 1
  {
  }

  lemma WordBit(w: bv32, k: int)
    requires 0 <= k < 32
    ensures Bit(w, k) <==> (w >> k) & 1 == 1
  {
    ShiftedBit(w, k);
    if Bit(w, k) {
      assert Unfold(0);
    }
  }

  /** A trap goes to S-mode exactly if it comes from below M-mode and the bit of its cause is set. */
  lemma DelegationBit(h: Hart, cause: nat, interrupt: bool, outside: bv32, w: bv32)
    requires cause < 32 && ReadsBits(h, if interrupt then 0x303 else 0x302, outside, w)
    ensures Taker(h, cause, interrupt) == Supervisor <==> h.mode != Machine && (w >> cause) & 1 == 1
  {
    assert Returning(0);
    WordBit(w, cause);
  }

  // --- SYSTEM instructions ----------------------------------------------------

  /** What M-mode may always do, and S-mode unless a bit forbids it. */
  predicate Permits(m: Mode, forbidden: bv32) { m == Machine || (m == Supervisor && forbidden == 0) }

  /** ECALL and EBREAK by mode; WFI does nothing; MRET, SRET and SFENCE.VMA where they are allowed; all else is illegal.
      TSR and TVM are bits 22 and 20 of mstatus. */
  lemma PrivByMode(h: Hart, imm: int, outside: bv32, w: bv32)
    requires ReadsBits(h, 0x300, outside, w)
    ensures imm == 0 ==>
              Priv(h, imm) == Trap(h, if h.mode == User then 8 else if h.mode == Supervisor then 9 else 11, 0, false)
    ensures imm == 1 ==> Priv(h, imm) == Trap(h, 3, h.pc, false)
    ensures imm == 0x105 ==> Priv(h, imm) == h.(pc := h.pc + 4)
    ensures imm == 0x302 ==> Priv(h, imm) == if h.mode == Machine then Mret(h) else Trap(h, 2, 0, false)
    ensures imm == 0x102 ==>
              Priv(h, imm) == (if Permits(h.mode, w & 0x400000) then Sret(h) else Trap(h, 2, 0, false))
    ensures 0x120 <= imm < 0x140 ==>
              Priv(h, imm) == (if Permits(h.mode, w & 0x100000) then h.(pc := h.pc + 4) else Trap(h, 2, 0, false))
    ensures imm !in {0, 1, 0x105, 0x302, 0x102} && !(0x120 <= imm < 0x140) ==> Priv(h, imm) == Trap(h, 2, 0, false)
  {
    StatusShown(h, outside, w);
  }

  /** Bits [9:8] of an address are the lowest mode that may access it, and 3 in bits [11:10] makes it read-only. */
  predicate AddressAllows(m: Mode, a: int, write: bool) {
    && (m == User ==> a % 1024 < 256) && (m == Supervisor ==> a % 1024 < 512)
    && (write ==> a < 0xc00)
  }

  lemma AllowedByAddress(h: Hart, a: int)
    requires 0 <= a < 4096
    ensures AddressAllows(h.mode, a, true) <==> RequiredMode(a) <= ModeCode(h.mode) && !ReadOnly(a)
    ensures AddressAllows(h.mode, a, false) <==> RequiredMode(a) <= ModeCode(h.mode)
  {
    AddressParts(a);
  }

  lemma AddressParts(a: int)
    requires 0 <= a < 4096
    ensures a / 256 % 4 == 0 <==> a % 1024 < 256
    ensures a / 256 % 4 <= 1 <==> a % 1024 < 512
    ensures 0 <= a / 256 % 4 <= 3
    ensures a / 1024 == 3 <==> a >= 0xc00
  {
  }

  /** Counters that the user or supervisor may be denied. */
  predicate IsUserCounter(a: int) { 0xc00 <= a < 0xc20 || 0xc80 <= a < 0xca0 }

  lemma CounterBit(a: int)
    ensures IsUserCounter(a) ==> CsrAt(a) == Counter(a % 32)
    ensures a == 0x14d || a == 0x15d ==> CsrAt(a) == Counter(1)
    ensures CsrAt(a).Counter? && !IsUserCounter(a) && a != 0x14d && a != 0x15d ==>
              a == 0xb00 || a == 0xb02 || a == 0xb82
  {
  }

  lemma SpecialAddresses(a: int)
    ensures CsrAt(a) == Word(Satp) <==> a == 0x180
    ensures CsrAt(0x306) == Word(Mcounteren) && CsrAt(0x106) == Word(Scounteren)
  {
  }

  lemma CounterWord(h: Hart, a: int, c: WordCsr, outside: bv32, m: bv32, k: int)
    requires ReadsBits(h, a, outside, m) && CsrAt(a) == Word(c)
    ensures Bit(Bits32(LoadWord(h.words, c)), k) <==> Bit(m, k)
  {
    assert Returning(0);
    assert Bits32(LoadWord(h.words, c)) == m;
  }

  /** The bit of a counter is set where the mode needs it. */
  predicate BitOpens(mode: Mode, m: bv32, s: bv32, k: int)
    requires 0 <= k < 32
  {
    (mode != Machine ==> (m >> k) & 1 == 1) && (mode == User ==> (s >> k) & 1 == 1)
  }

  lemma EnabledByBits(h: Hart, outside: bv32, m: bv32, s: bv32, k: int)
    requires 0 <= k < 32 && ReadsBits(h, 0x306, outside, m) && ReadsBits(h, 0x106, outside, s)
    ensures CounterEnabled(h, k) <==> BitOpens(h.mode, m, s, k)
  {
    SpecialAddresses(0x180);
    CounterWord(h, 0x306, Mcounteren, outside, m, k);
    CounterWord(h, 0x106, Scounteren, outside, s, k);
    WordBit(m, k);
    WordBit(s, k);
    EnabledIs(h, k, (m >> k) & 1 == 1, (s >> k) & 1 == 1);
  }

  lemma EnabledIs(h: Hart, k: int, m: bool, s: bool)
    requires Bit(Bits32(h.words.mcounteren), k) == m && Bit(Bits32(h.words.scounteren), k) == s
    ensures CounterEnabled(h, k) <==> (h.mode != Machine ==> m) && (h.mode == User ==> s)
  {
  }

  /** A register can be read exactly if its address exists and allows it to the mode; satp is closed to S-mode by TVM
      (bit 20 of mstatus `w`), and a counter below M-mode by a clear bit in mcounteren `m`, in U-mode also in scounteren
      `s`. */
  lemma ReadableByBits(h: Hart, a: int, outside: bv32, w: bv32, m: bv32, s: bv32)
    requires 0 <= a < 4096
    requires ReadsBits(h, 0x300, outside, w) && ReadsBits(h, 0x306, outside, m) && ReadsBits(h, 0x106, outside, s)
    ensures Readable(h, a) <==>
              && CsrAt(a) != Missing && AddressAllows(h.mode, a, false)
              && !(a == 0x180 && h.mode == Supervisor && w & 0x100000 != 0)
              && (IsUserCounter(a) ==> BitOpens(h.mode, m, s, a % 32))
              && (a == 0x14d || a == 0x15d ==> BitOpens(h.mode, m, s, 1))
  {
    StatusShown(h, outside, w);
    AllowedByAddress(h, a);
    SpecialAddresses(a);
    CounterBit(a);
    EnabledByBits(h, outside, m, s, a % 32);
    EnabledByBits(h, outside, m, s, 1);
  }

  lemma AdvancedMode(h: Hart, csr: Csr, v: bv32)
    requires !h.halted
    ensures var k := Advance(StoreCsr(h, csr, v));
            k.mode == h.mode && k.pc == h.pc + 4 && !k.halted
  {
  }

  /** An instruction that may not read the register, or would write a read-only one, is illegal; any other goes on. */
  lemma CsrIllegal(h: Hart, op: CsrOp, a: int, rs1: bv32, rs1Id: int, outside: bv32)
    requires 0 <= a < 4096 && !h.halted
    ensures var k := Step(h, CsrInstruction(op, a, rs1, rs1Id, outside));
            if Readable(h, a) && !(a >= 0xc00 && (op == ReadWrite || rs1Id != 0))
            then k.mode == h.mode && k.pc == h.pc + 4 && !k.halted
            else k == Trap(h, 2, 0, false)
  {
    AddressParts(a);
    AdvancedMode(h, CsrAt(a), NewValue(h, op, CsrAt(a), rs1, outside));
  }

  /** Loads and stores use the mode in MPP while MPRV (bit 17 of mstatus) is set, and the mode of the hart otherwise. */
  lemma EffectiveByBits(h: Hart, outside: bv32, w: bv32)
    requires Invariant(h) && ReadsBits(h, 0x300, outside, w)
    ensures w & 0x20000 != 0 ==> ModeBits(h.effective) == w & 0x1800
    ensures w & 0x20000 == 0 ==> h.effective == h.mode
  {
    StatusShown(h, outside, w);
  }
}
