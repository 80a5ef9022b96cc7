/**
  The worker's trap, return and CSR code.

  The worker keeps mstatus as one word and changes it with masks and shifts, and
  finds CSRs through packed descriptors.  Every method of `TrapUnit` is proved to
  do what `Privilege.Step` does to the named fields.
 */
module Traps {
  import opened Options
  import AddressMap
  import opened LookupTables
  import opened Csr
  import opened Privilege
  import opened MulDiv

  // Each mask-and-shift sequence, with what it does to the fields.

  /** trap: mstatus on entry to S-mode. */
  lemma PushSupervisorBits(b: bv32, mode: bv32)
    requires WellFormed(b) && mode <= 1
    ensures var t := (b & 0xfffffedd) | ((b & 0x2) << 4) | (mode << 8);
            WellFormed(t) && ParseStatus(t) == ParseStatus(b).(spie := ParseStatus(b).sie, sie := false,
                                                               spp := mode == 1)
  {
  }

  lemma PushMachineBits(b: bv32, mode: bv32)
    requires WellFormed(b) && IsMode(mode)
    ensures var t := (b & 0xffffe777) | ((b & 0x8) << 4) | (mode << 11);
            WellFormed(t) && ParseStatus(t) == ParseStatus(b).(mpie := ParseStatus(b).mie, mie := false,
                                                               mpp := ModeOf(mode))
  {
  }

  method PushSupervisor(b: bv32, mode: bv32) returns (t: bv32)
    requires WellFormed(b) && mode <= 1
    ensures WellFormed(t)
    ensures ParseStatus(t) == ParseStatus(b).(spie := ParseStatus(b).sie, sie := false, spp := mode == 1)
  {
    PushSupervisorBits(b, mode);
    t := (b & 0xfffffedd) | ((b & 0x2) << 4) | (mode << 8);
  }

  /** trap__machine: mstatus on entry to M-mode. */
  method PushMachine(b: bv32, mode: bv32) returns (t: bv32)
    requires WellFormed(b) && IsMode(mode)
    ensures WellFormed(t)
    ensures ParseStatus(t) == ParseStatus(b).(mpie := ParseStatus(b).mie, mie := false, mpp := ModeOf(mode))
  {
    PushMachineBits(b, mode);
    t := (b & 0xffffe777) | ((b & 0x8) << 4) | (mode << 11);
  }

  /** SRET, up to the MPRV test of xRET. */
  method PopSupervisor(b: bv32) returns (mode: bv32, t: bv32)
    requires WellFormed(b)
    ensures WellFormed(t) && IsMode(mode) && ModeOf(mode) == if ParseStatus(b).spp then Supervisor else User
    ensures ParseStatus(t) == ParseStatus(b).(sie := ParseStatus(b).spie, spie := true, spp := false)
  {
    mode := (b & 0x100) >> 8;
    t := (b & 0xfffffefd) | (((b & 0xfffffefd) & 0x20) >> 4) | 0x20;
  }

  /** MRET, up to the MPRV test of xRET. */
  method PopMachine(b: bv32) returns (mode: bv32, t: bv32)
    requires WellFormed(b)
    ensures WellFormed(t) && IsMode(mode) && ModeOf(mode) == ParseStatus(b).mpp
    ensures ParseStatus(t) == ParseStatus(b).(mie := ParseStatus(b).mpie, mpie := true, mpp := User)
  {
    mode := (b & 0x1800) >> 11;
    t := (b & 0xffffe7f7) | (((b & 0xffffe7f7) & 0x80) >> 4) | 0x80;
  }

  method ClearMprv(b: bv32) returns (t: bv32)
    requires WellFormed(b)
    ensures WellFormed(t) && ParseStatus(t) == ParseStatus(b).(mprv := false)
  {
    t := b & 0xfffdffff;
  }

  /** get_effective_privilege_mode */
  method GetEffective(b: bv32, mode: bv32) returns (effective: bv32)
    requires WellFormed(b) && IsMode(mode)
    ensures IsMode(effective) && ModeOf(effective) == EffectiveMode(ModeOf(mode), ParseStatus(b))
  {
    effective := if b & 0x20000 == 0 then mode else (b >> 11) & 0x3;
  }

  /** csr_write_mstatus, on a masked value: the old value is dropped and a reserved MPP is cleared. */
  method StoreMstatus(result: bv32, ghost v: bv32) returns (t: bv32)
    requires result == v & 0x007e19aa
    ensures WellFormed(t) && ParseStatus(t) == ParseStatus(v)
  {
    var r := result;
    if r & 0x1800 == 0x1000 {
      r := r & 0xffffe7ff;
    }
    t := (0 & 0xfff3fedd) | r;
  }

  /** csr_write_sstatus, on a masked value. */
  method StoreSstatus(b: bv32, result: bv32, ghost v: bv32) returns (t: bv32)
    requires WellFormed(b) && result == v & 0x000c0122
    ensures WellFormed(t) && ParseStatus(t) == WriteSupervisorStatus(ParseStatus(b), v)
  {
    t := (b & 0xfff3fedd) | result;
  }

  /** xRET, with the previous mode and xIE popped: MPRV and the effective mode. */
  method FinishReturn(mode: bv32, b: bv32) returns (t: bv32, effective: bv32)
    requires WellFormed(b) && IsMode(mode)
    ensures WellFormed(t) && IsMode(effective)
    ensures ParseStatus(t) == ParseStatus(b).(mprv := ParseStatus(b).mprv && ModeOf(mode) == Machine)
    ensures ModeOf(effective) == EffectiveMode(ModeOf(mode), ParseStatus(t))
  {
    t := b;
    if mode != 3 {
      t := ClearMprv(b);
    }
    effective := GetEffective(t, mode);
  }

  method ReturnSupervisor(b: bv32) returns (mode: bv32, t: bv32, effective: bv32)
    requires WellFormed(b)
    ensures WellFormed(t) && IsMode(mode) && IsMode(effective)
    ensures ModeOf(mode) == if ParseStatus(b).spp then Supervisor else User
    ensures ParseStatus(t) == ParseStatus(b).(sie := ParseStatus(b).spie, spie := true, spp := false, mprv := false)
    ensures ModeOf(effective) == ModeOf(mode)
  {
    mode, t := PopSupervisor(b);
    t, effective := FinishReturn(mode, t);
  }

  method ReturnMachine(b: bv32) returns (mode: bv32, t: bv32, effective: bv32)
    requires WellFormed(b)
    ensures WellFormed(t) && IsMode(mode) && IsMode(effective)
    ensures ModeOf(mode) == ParseStatus(b).mpp
    ensures ParseStatus(t) == ParseStatus(b).(mie := ParseStatus(b).mpie, mpie := true, mpp := User,
                                              mprv := ParseStatus(b).mprv && ParseStatus(b).mpp == Machine)
    ensures ModeOf(effective) == EffectiveMode(ModeOf(mode), ParseStatus(t))
  {
    mode, t := PopMachine(b);
    t, effective := FinishReturn(mode, t);
  }

  lemma SretFields(h: Hart, mode: Mode, s: Status, effective: Mode)
    requires mode == (if h.status.spp then Supervisor else User) && effective == mode
    requires s == h.status.(sie := h.status.spie, spie := true, spp := false, mprv := false)
    ensures Sret(h) == h.(mode := mode, status := s, effective := effective, pc := h.words.sepc)
  {
  }

  lemma MretFields(h: Hart, mode: Mode, s: Status, effective: Mode)
    requires mode == h.status.mpp && effective == EffectiveMode(mode, s)
    requires s == h.status.(mie := h.status.mpie, mpie := true, mpp := User, mprv := h.status.mprv && mode == Machine)
    ensures Mret(h) == h.(mode := mode, status := s, effective := effective, pc := h.words.mepc)
  {
  }

  // --- the steps of modify_csr ------------------------------------------------

  lemma LongOr(x: bv32, y: bv32)
    ensures (((x as bv64) | (y as bv64)) & 0xffff_ffff) as bv32 == y | x
  {
  }

  lemma LongAndNot(x: bv32, y: bv32)
    ensures ((!(x as bv64) & (y as bv64)) & 0xffff_ffff) as bv32 == y & !x
  {
  }

  lemma LongLow(x: bv32)
    ensures ((x as bv64) & 0xffff_ffff) as bv32 == x
  {
  }

  /** The low word of `result` is the modified value; kept folded. */
  ghost predicate Modified(result: bv64, op: CsrOp, rd: bv32, rs1: bv32) {
    forall u: int :: Unfold(u) ==> (result & 0xffff_ffff) as bv32 == Modify(op, rd, rs1)
  }

  // The modify step, on 64-bit numbers.

  method ReadWriteStep(rd: bv32, rs1: bv32) returns (result: bv64)
    ensures Modified(result, ReadWrite, rd, rs1)
  {
    LongLow(rs1);
    result := rs1 as bv64;
  }

  method SetBitsStep(rd: bv32, rs1: bv32) returns (result: bv64)
    ensures Modified(result, SetBits, rd, rs1)
  {
    LongOr(rs1, rd);
    result := (rs1 as bv64) | (rd as bv64);
  }

  method ClearBitsStep(rd: bv32, rs1: bv32) returns (result: bv64)
    ensures Modified(result, ClearBits, rd, rs1)
  {
    LongAndNot(rs1, rd);
    result := !(rs1 as bv64);
    result := result & (rd as bv64);
  }

  method ModifyStep(op: CsrOp, rd: bv32, rs1: bv32) returns (result: bv64)
    ensures Modified(result, op, rd, rs1)
  {
    match op
    case ReadWrite => result := ReadWriteStep(rd, rs1);
    case SetBits => result := SetBitsStep(rd, rs1);
    case ClearBits => result := ClearBitsStep(rd, rs1);
  }

  ghost predicate LowIs(result: bv64, v: bv32) { forall u: int :: Unfold(u) ==> (result & 0xffff_ffff) as bv32 == v }

  lemma ModifiedIsNew(result: bv64, v: bv32, h: Hart, op: CsrOp, csr: Csr, rs1: bv32, outside: bv32)
    requires Modified(result, op, CsrValue(h, csr, outside), rs1) && IsNewValue(v, h, op, csr, rs1, outside)
    ensures LowIs(result, v)
  {
    assert Unfold(0);
  }

  lemma WordBack(b: bv32)
    ensures (b as int) as bv32 == b
  {
  }

  lemma LongMask(x: bv64, mask: bv32)
    ensures (x & (mask as bv64)) as bv32 == (x & 0xffff_ffff) as bv32 & mask && x & (mask as bv64) <= 0xffff_ffff
  {
  }

  /** The static mask. */
  method ApplyMask(result: bv64, mask: int, ghost a: int, ghost v: bv32) returns (r: bv32)
    requires 0 <= a < 4096 && mask == DescriptorOf(a).mask as int && LowIs(result, v)
    ensures MaskedBy(r, v, a)
  {
    WordBack(DescriptorOf(a).mask);
    var bits := mask as bv32;
    LongMask(result, bits);
    assert Unfold(0);
    r := (result & (bits as bv64)) as bv32;
  }

  lemma JoinedWord(high: bv30, low: bv2)
    ensures (((high as bv32) << 2) | (low as bv32)) as int == 4 * (high as int) + low as int
  {
  }

  lemma JoinedAs(v: bv32, high: bv30, low: bv2)
    requires v == ((high as bv32) << 2) | (low as bv32)
    ensures v as int == 4 * (high as int) + low as int
  {
    JoinedWord(high, low);
  }

  function High30(v: bv32): bv30 { (v >> 2) as bv30 }

  function Low2(v: bv32): bv2 { (v & 3) as bv2 }

  lemma SplitWord(v: bv32)
    ensures v == ((High30(v) as bv32) << 2) | (Low2(v) as bv32)
    ensures v & 0xffff_fffc == ((High30(v) as bv32) << 2) | ((0 as bv2) as bv32)
  {
  }

  /** `m` is `v` without its two low bits; kept folded. */
  ghost predicate Aligns(v: bv32, m: bv32) { forall u: int :: Unfold(u) ==> m == v & 0xffff_fffc }

  lemma AlignsSplit(v: bv32, m: bv32)
    requires Aligns(v, m)
    ensures m == ((High30(v) as bv32) << 2) | ((0 as bv2) as bv32)
  {
    assert Unfold(0);
    SplitWord(v);
  }

  ghost predicate Halves(v: bv32, m: bv32, high: bv30, low: bv2) {
    forall u: int :: Unfold(u) ==>
      v == ((high as bv32) << 2) | (low as bv32) && m == ((high as bv32) << 2) | ((0 as bv2) as bv32)
  }

  lemma AlignsHalves(v: bv32, m: bv32)
    requires Aligns(v, m)
    ensures Halves(v, m, High30(v), Low2(v))
  {
    SplitWord(v);
    AlignsSplit(v, m);
  }

  lemma HalvesNumbers(v: bv32, m: bv32, high: bv30, low: bv2)
    requires Halves(v, m, high, low)
    ensures v as int == 4 * (high as int) + low as int && m as int == 4 * (high as int)
  {
    assert Unfold(0);
    JoinedAs(v, high, low);
    JoinedAs(m, high, 0);
  }

  lemma RoundsDown(v: int, m: int, high: int, low: int)
    requires v == 4 * high + low && m == 4 * high && 0 <= low < 4
    ensures m == v - v % 4
  {
  }

  lemma HalvesAligned(v: bv32, m: bv32, high: bv30, low: bv2)
    requires Halves(v, m, high, low)
    ensures m as int == v as int - v as int % 4
  {
    HalvesNumbers(v, m, high, low);
    RoundsDown(v as int, m as int, high as int, low as int);
  }

  /** Masking with 0xfffffffc rounds down to a multiple of four. */
  lemma AlignedMask(v: bv32, m: bv32)
    requires Aligns(v, m)
    ensures m as int == v as int - v as int % 4
  {
    AlignsHalves(v, m);
    HalvesAligned(v, m, High30(v), Low2(v));
  }

  predicate IsAligned(c: WordCsr) { c == Mepc || c == Sepc || c == Mtvec || c == Stvec }

  /** Rounding twice changes nothing. */
  lemma RoundedStore(w: Words, c: WordCsr, x: int, y: int)
    requires IsAligned(c) && y == x - x % 4
    ensures StoreWord(w, c, y) == StoreWord(w, c, x)
  {
    assert y % 4 == 0;
  }

  /** `r` is `v` through the mask of an address; kept folded. */
  ghost predicate MaskedBy(r: bv32, v: bv32, a: int) { forall u: int :: Unfold(u) ==> r == v & DescriptorOf(a).mask }

  lemma FullMask(r: bv32, v: bv32, a: int)
    requires MaskedBy(r, v, a) && DescriptorOf(a).mask == 0xffff_ffff
    ensures r == v
  {
    assert Unfold(0);
  }

  lemma AligningMask(r: bv32, v: bv32, a: int)
    requires MaskedBy(r, v, a) && DescriptorOf(a).mask == 0xffff_fffc
    ensures Aligns(v, r)
  {
    assert Unfold(0);
  }

  lemma WordMask(a: int, c: WordCsr)
    requires CsrAt(a) == Word(c)
    ensures DescriptorOf(a).mask == if IsAligned(c) then 0xffff_fffc else 0xffff_ffff
  {
  }

  /** A word through the mask of its address. */
  lemma MaskedWord(w: Words, v: bv32, r: bv32, a: int, c: WordCsr)
    requires CsrAt(a) == Word(c) && MaskedBy(r, v, a)
    ensures StoreWord(w, c, r as int) == StoreWord(w, c, v as int)
  {
    WordMask(a, c);
    if IsAligned(c) {
      MaskedAligned(w, v, r, a, c);
    } else {
      FullMask(r, v, a);
    }
  }

  lemma MaskedAligned(w: Words, v: bv32, r: bv32, a: int, c: WordCsr)
    requires MaskedBy(r, v, a) && DescriptorOf(a).mask == 0xffff_fffc && IsAligned(c)
    ensures StoreWord(w, c, r as int) == StoreWord(w, c, v as int)
  {
    AligningMask(r, v, a);
    AlignedMask(v, r);
    RoundedStore(w, c, v as int, r as int);
  }

  lemma LongBit(w: bv32, k: int)
    requires 0 <= k < 64
    ensures ((w as bv64) >> k) & 1 != 0 <==> RawBit(w, k)
  {
  }

  /** `shr` and `and`: one bit of a word. */
  method TestBit(w: bv32, k: int) returns (b: bool)
    requires 0 <= k < 64
    ensures b <==> Bit(w, k)
  {
    LongBit(w, k);
    b := ((w as bv64) >> k) & 1 != 0;
    if Bit(w, k) {
      assert Unfold(0);
    }
  }

  method ModeBelow(privilegeMode: bv32, required: int) returns (b: bool)
    requires IsMode(privilegeMode)
    ensures b <==> ModeCode(ModeOf(privilegeMode)) < required
  {
    var code := if privilegeMode == 0 then 0 else if privilegeMode == 1 then 1 else 3;
    b := code < required;
  }


  lemma AllOnes(v: bv32)
    ensures v & 0xffff_ffff == v
  {
  }

  /** The mask that `select` picks. */
  method SelectStatus(b: bv32, supervisor: bool) returns (rd: bv32)
    ensures rd == if supervisor then b & SSTATUS else b
  {
    AllOnes(b);
    if supervisor {
      rd := b & 0xc0122;
    } else {
      rd := b & 0xffff_ffff;
    }
  }

  /** CSR addresses have twelve bits. */
  predicate ValidEvent(e: Event) { e.CsrInstruction? ==> 0 <= e.address < 4096 }

  lemma MaskedMedeleg(r: bv32, v: bv32, a: int)
    requires MaskedBy(r, v, a) && CsrAt(a) == Medeleg
    ensures r == v & MEDELEG
  {
    assert Unfold(0);
  }

  lemma MaskedMideleg(r: bv32, v: bv32, a: int)
    requires MaskedBy(r, v, a) && CsrAt(a) == Mideleg
    ensures r == v & MIDELEG
  {
    assert Unfold(0);
  }

  lemma MaskedMstatus(r: bv32, v: bv32)
    requires MaskedBy(r, v, 0x300)
    ensures r == v & 0x7e19aa
  {
    assert Unfold(0);
  }

  lemma MaskedSstatus(r: bv32, v: bv32)
    requires MaskedBy(r, v, 0x100)
    ensures r == v & 0xc0122
  {
    assert Unfold(0);
  }

  function StatusAfter(s: Status, csr: Csr, v: bv32): Status {
    if csr == Mstatus then ParseStatus(v) else WriteSupervisorStatus(s, v)
  }

  lemma StatusStored(h: Hart, k: Hart, csr: Csr, v: bv32)
    requires csr == Mstatus || csr == Sstatus
    requires k == h.(status := StatusAfter(h.status, csr, v), effective := EffectiveMode(h.mode, k.status))
    ensures k == StoreCsr(h, csr, v)
  {
  }

  method StoreStatus(imm: int, b: bv32, result: bv32, ghost v: bv32) returns (t: bv32)
    requires WellFormed(b) && MaskedBy(result, v, imm) && (CsrAt(imm) == Mstatus || CsrAt(imm) == Sstatus)
    ensures WellFormed(t) && ParseStatus(t) == StatusAfter(ParseStatus(b), CsrAt(imm), v)
  {
    if imm == 0x300 {
      MaskedMstatus(result, v);
      t := StoreMstatus(result, v);
    } else {
      MaskedSstatus(result, v);
      t := StoreSstatus(b, result, v);
    }
  }

  /** Which read handlers refuse, by the kind of the register. */
  lemma ReadableByHandler(h: Hart, a: int)
    requires 0 <= a < 4096 && RequiredMode(a) <= ModeCode(h.mode)
    ensures var read := DescriptorOf(a).read;
            Readable(h, a) <==>
              && read != Handler.Illegal
              && (read == ReadSatp ==> !(h.mode == Supervisor && h.status.tvm))
              && (read == ReadStimecmp ==> CounterEnabled(h, 1))
              && (read == ReadCounter ==> CounterEnabled(h, a % 32))
  {
    KindOfRead(a);
  }

  lemma NoWriteHandler(a: int)
    ensures DescriptorOf(a).read != WriteVariable
  {
  }

  /** Which registers a read handler is for. */
  ghost predicate ReadKind(a: int, read: Handler, csr: Csr) {
    && (read == Handler.Illegal <==> csr == Missing)
    && (read == ReadSatp <==> csr == Word(Satp))
    && (read == ReadStimecmp ==> csr == Counter(1))
    && (read == ReadCounter ==> csr == Counter(a % 32))
    && (csr.Counter? <==> read == ReadStimecmp || read == ReadCounter)
    && (read == Handler.ReadStatus <==> csr == Mstatus || csr == Sstatus)
    && (read == ReadZero <==> csr == Zero)
    && (read == Handler.ReadCsrs ==> csr.Word? || csr == Medeleg || csr == Mideleg || csr == Elsewhere)
    && (read == ReadVariable ==> csr == Elsewhere)
  }

  lemma SupervisorRead(a: int)
    requires 0 <= a < 0x300
    ensures ReadKind(a, DescriptorOf(a).read, CsrAt(a))
  {
  }

  lemma MachineRead(a: int)
    requires 0x300 <= a < 0xb00
    ensures ReadKind(a, DescriptorOf(a).read, CsrAt(a))
  {
  }

  lemma CounterRead(a: int)
    requires 0xb00 <= a < 4096
    ensures ReadKind(a, DescriptorOf(a).read, CsrAt(a))
  {
  }

  lemma KindOfRead(a: int)
    requires 0 <= a < 4096
    ensures ReadKind(a, DescriptorOf(a).read, CsrAt(a))
  {
    if a < 0x300 {
      SupervisorRead(a);
    } else if a < 0xb00 {
      MachineRead(a);
    } else {
      CounterRead(a);
    }
  }

  /** The read handler can serve the register. */
  predicate ReadFits(read: Handler, csr: Csr) {
    && (read == ReadSatp ==> csr == Word(Satp))
    && (read == Handler.ReadCsrs ==> csr.Word? || csr == Medeleg || csr == Mideleg || csr == Elsewhere)
    && (read == Handler.ReadStatus ==> csr == Mstatus || csr == Sstatus)
    && (read == ReadZero ==> csr == Zero)
    && (read == ReadStimecmp || read == ReadCounter ==> csr.Counter?)
    && (read == ReadVariable ==> csr == Elsewhere)
    && (read == Handler.Illegal || read == ReadSatp || read == Handler.ReadCsrs || read == Handler.ReadStatus
        || read == ReadZero || read == ReadStimecmp || read == ReadCounter || read == ReadVariable)
  }

  predicate IsStored(csr: Csr) { csr.Word? || csr == Medeleg || csr == Mideleg || csr == Elsewhere }

  /** The write handler can serve the register; the registers without a handler of their own are not part of the
      hart. */
  predicate WriteFits(write: Handler, csr: Csr) {
    if write == WriteMstatus || write == WriteSstatus then csr == Mstatus || csr == Sstatus
    else if write == Handler.WriteCsrs || write == WriteSatp then IsStored(csr)
    else csr.Counter? || csr == Elsewhere || csr == Zero || csr == Missing
  }

  lemma SupervisorWrite(a: int)
    requires 0 <= a < 0x300
    ensures WriteFits(DescriptorOf(a).write, CsrAt(a))
  {
  }

  lemma MachineWrite(a: int)
    requires 0x300 <= a < 0xb00
    ensures WriteFits(DescriptorOf(a).write, CsrAt(a))
  {
  }

  lemma CounterWrite(a: int)
    requires 0xb00 <= a < 4096
    ensures WriteFits(DescriptorOf(a).write, CsrAt(a))
  {
  }

  lemma KindOfWrite(a: int)
    requires 0 <= a < 4096
    ensures WriteFits(DescriptorOf(a).write, CsrAt(a))
  {
    if a < 0x300 {
      SupervisorWrite(a);
    } else if a < 0xb00 {
      MachineWrite(a);
    } else {
      CounterWrite(a);
    }
  }

  lemma IsReader(a: int)
    ensures var read := DescriptorOf(a).read;
            read == Handler.Illegal || read == ReadSatp || read == Handler.ReadCsrs || read == Handler.ReadStatus
            || read == ReadZero || read == ReadStimecmp || read == ReadCounter || read == ReadVariable
  {
  }

  lemma ReadKinds(a: int)
    requires 0 <= a < 4096
    ensures ReadFits(DescriptorOf(a).read, CsrAt(a))
  {
    KindOfRead(a);
    IsReader(a);
  }

  lemma CallBits(mode: bv32)
    requires mode == 0 || mode == 1 || mode == 3
    ensures 0x8 | mode == if mode == 0 then 0x8 else if mode == 1 then 0x9 else 0xb
  {
  }

  /** ECALL sets bit 3 beside the mode. */
  method CallCause(mode: bv32) returns (cause: nat)
    requires IsMode(mode)
    ensures cause == EnvironmentCall(ModeOf(mode))
  {
    CallBits(mode);
    cause := (0x8 | mode) as int;
  }

  // --- the worker -------------------------------------------------------------

  /** The key of `Wired`. */
  predicate Wiring(k: int) { true }

  /** The tables that the controller set up and the division unit; kept folded. */
  ghost predicate Wired(tables: Tables, csrLabels: LabelTable, labelOf: Labels, fdiv: (int, int) -> real) {
    forall k: int :: Wiring(k) ==>
      CpuTables(tables) && ValidLabels(labelOf) && HoldsUpTo(csrLabels, labelOf, 4096) && RoundsToNearest(fdiv)
  }

  /** What the controller writes to the CSR processor at reset. */
  function ResetWords(initial: Words): Words {
    initial.(mtvec := AddressMap.SYSCON, stvec := AddressMap.SYSCON, mepc := 0, sepc := 0, satp := 0)
  }

  /** The hart's privileged state as the worker holds it. */
  class TrapUnit {
    const tables: Tables
    const csrLabels: LabelTable
    const labelOf: Labels
    const fdiv: (int, int) -> real
    var csrMstatus: bv32
    var privilegeMode: bv32
    var effectivePrivilegeMode: bv32
    var pc: int
    var nextPc: int
    var words: Words
    var medeleg: bv32
    var mideleg: bv32
    var halted: bool

    ghost predicate Valid()
      reads this
    {
      && Wired(tables, csrLabels, labelOf, fdiv)
      && WellFormed(csrMstatus) && IsMode(privilegeMode) && IsMode(effectivePrivilegeMode)
    }

    ghost function View(): Hart
      reads this
    {
      Hart(ModeOf(privilegeMode), ParseStatus(csrMstatus), ModeOf(effectivePrivilegeMode), pc, words, medeleg, mideleg,
           halted)
    }

    /** The reset values the controller writes; the other words are whatever the CSR processor holds. */
    constructor (initial: Words, tables: Tables, csrLabels: LabelTable, labelOf: Labels, fdiv: (int, int) -> real)
      requires CpuTables(tables) && ValidLabels(labelOf) && HoldsUpTo(csrLabels, labelOf, 4096) && RoundsToNearest(fdiv)
      ensures Valid() && IsReset(View()) && View().words == ResetWords(initial)
    {
      this.tables, this.csrLabels, this.labelOf, this.fdiv := tables, csrLabels, labelOf, fdiv;
      csrMstatus, privilegeMode, effectivePrivilegeMode := 0, 3, 3;
      pc, nextPc, halted := 0, 0, false;
      words := ResetWords(initial);
      medeleg, mideleg := 0, 0;
    }

    /** The tail of trap: continue at the vector, or stop at the reset vector's address. */
    method ContinueAtVector()
      modifies this`pc, this`halted
      ensures pc == if nextPc == AddressMap.SYSCON then old(pc) else nextPc
      ensures halted == (old(halted) || nextPc == AddressMap.SYSCON)
    {
      if nextPc == AddressMap.SYSCON {
        halted := true;
      } else {
        pc := nextPc;
      }
    }

    /** The tail of both kinds of trap. */
    method EnterMode(vector: int, mode: bv32)
      requires WellFormed(csrMstatus) && IsMode(mode)
      modifies this`nextPc, this`privilegeMode, this`effectivePrivilegeMode, this`pc, this`halted
      ensures privilegeMode == mode && IsMode(effectivePrivilegeMode)
      ensures ModeOf(effectivePrivilegeMode) == EffectiveMode(ModeOf(mode), ParseStatus(csrMstatus))
      ensures pc == (if vector == AddressMap.SYSCON then old(pc) else vector)
      ensures halted == (old(halted) || vector == AddressMap.SYSCON)
    {
      nextPc := vector;
      privilegeMode := mode;
      effectivePrivilegeMode := GetEffective(csrMstatus, privilegeMode);
      ContinueAtVector();
    }

    method TrapMachine(mcause: int, mtval: int)
      requires Valid()
      modifies this
      ensures Valid() && View() == EnterMachine(old(View()), mcause, mtval)
    {
      csrMstatus := PushMachine(csrMstatus, privilegeMode);
      words := words.(mcause := mcause, mtval := mtval, mepc := pc);
      EnterMode(words.mtvec, 3);
    }

    method TrapSupervisor(mcause: int, mtval: int)
      requires Valid() && privilegeMode <= 1
      modifies this
      ensures Valid() && View() == EnterSupervisor(old(View()), mcause, mtval)
    {
      csrMstatus := PushSupervisor(csrMstatus, privilegeMode);
      words := words.(scause := mcause, stval := mtval, sepc := pc);
      EnterMode(words.stvec, 1);
    }

    /** trap__check_mxdeleg, and the test of the mode before it. */
    method Delegates(mcause: nat, interrupt: bool) returns (delegated: bool)
      requires Valid()
      ensures delegated == Delegated(View(), mcause, interrupt)
      ensures delegated ==> privilegeMode <= 1
    {
      var mxdeleg := if interrupt then mideleg else medeleg;
      var bit := TestBit(mxdeleg, mcause % 64);
      delegated := !(privilegeMode > 1 || !bit);
    }

    /** trap. */
    method TakeTrap(mcause: nat, mtval: int, interrupt: bool)
      requires Valid()
      modifies this
      ensures Valid() && View() == Trap(old(View()), mcause, mtval, interrupt)
    {
      var delegated := Delegates(mcause, interrupt);
      if !delegated {
        TrapMachine(mcause, mtval);
      } else {
        TrapSupervisor(mcause, mtval);
      }
    }

    /** The assignments of a return. */
    method SetMode(mode: bv32, mstatus: bv32, effective: bv32, target: int)
      requires Valid() && WellFormed(mstatus) && IsMode(mode) && IsMode(effective)
      modifies this`privilegeMode, this`csrMstatus, this`effectivePrivilegeMode, this`pc
      ensures Valid()
      ensures View()
           == old(View()).(mode := ModeOf(mode), status := ParseStatus(mstatus), effective := ModeOf(effective),
                           pc := target)
    {
      privilegeMode, csrMstatus, effectivePrivilegeMode, pc := mode, mstatus, effective, target;
    }

    method ReturnFromSupervisor()
      requires Valid()
      modifies this
      ensures Valid() && View() == Sret(old(View()))
    {
      var mode, mstatus, effective := ReturnSupervisor(csrMstatus);
      SretFields(View(), ModeOf(mode), ParseStatus(mstatus), ModeOf(effective));
      nextPc := words.sepc;
      SetMode(mode, mstatus, effective, nextPc);
    }

    method ReturnFromMachine()
      requires Valid()
      modifies this
      ensures Valid() && View() == Mret(old(View()))
    {
      var mode, mstatus, effective := ReturnMachine(csrMstatus);
      MretFields(View(), ModeOf(mode), ParseStatus(mstatus), ModeOf(effective));
      nextPc := words.mepc;
      SetMode(mode, mstatus, effective, nextPc);
    }

    method IllegalOp()
      requires Valid()
      modifies this
      ensures Valid() && View() == Privilege.Illegal(old(View()))
    {
      TakeTrap(2, 0, false);
    }

    method EndInstruction()
      requires Valid()
      modifies this
      ensures Valid() && View() == Advance(old(View()))
    {
      nextPc := pc + 4;
      pc := nextPc;
    }

    method ExecuteSret()
      requires Valid() && privilegeMode >= 1
      modifies this
      ensures Valid() && View() == SretInstruction(old(View()))
    {
      if privilegeMode == 1 && csrMstatus & 0x400000 != 0 {
        IllegalOp();
      } else {
        ReturnFromSupervisor();
      }
    }

    method ExecuteSfence()
      requires Valid() && privilegeMode >= 1
      modifies this
      ensures Valid() && View() == SfenceInstruction(old(View()))
    {
      if privilegeMode == 1 && csrMstatus & 0x100000 != 0 {
        IllegalOp();
      } else {
        EndInstruction();
      }
    }

    /** The part of PRIV that user mode does not reach. */
    method ExecutePrivileged(imm: int)
      requires Valid() && privilegeMode >= 1 && imm !in [0x000, 0x001, 0x105]
      modifies this
      ensures Valid() && View() == Priv(old(View()), imm)
    {
      if imm == 0x102 {
        ExecuteSret();
      } else if imm / 32 == 9 {
        ExecuteSfence();
      } else if privilegeMode < 3 {
        IllegalOp();
      } else if imm == 0x302 {
        ReturnFromMachine();
      } else {
        IllegalOp();
      }
    }

    /** PRIV: ECALL, EBREAK and WFI, then the privileged instructions. */
    method ExecutePriv(imm: int)
      requires Valid()
      modifies this
      ensures Valid() && View() == Priv(old(View()), imm)
    {
      if imm == 0x000 {
        var cause := CallCause(privilegeMode);
        TakeTrap(cause, 0, false);
      } else if imm == 0x001 {
        TakeTrap(3, pc, false);
      } else if imm == 0x105 {
        EndInstruction();
      } else if privilegeMode < 1 {
        IllegalOp();
      } else {
        ExecutePrivileged(imm);
      }
    }

    /** check_xcounteren: whether the counter is visible in this mode. */
    method CheckXcounteren(bit: int) returns (ok: bool)
      requires Valid() && 0 <= bit < 32
      ensures ok <==> CounterEnabled(View(), bit)
    {
      if privilegeMode == 3 {
        return true;
      }
      ok := TestBit(Bits32(words.mcounteren), bit);
      if privilegeMode != 1 {
        var sbit := TestBit(Bits32(words.scounteren), bit);
        ok := ok && sbit;
      }
    }

    /** csr_read_csrs: the CSR processor. */
    method ReadCsrs(imm: int, outside: bv32) returns (rd: bv32)
      requires Valid()
      requires (CsrAt(imm).Word? || CsrAt(imm) == Medeleg || CsrAt(imm) == Mideleg || CsrAt(imm) == Elsewhere)
      ensures rd == CsrValue(View(), CsrAt(imm), outside)
    {
      match CsrAt(imm)
      case Word(w) => rd := Bits32(LoadWord(words, w));
      case Medeleg => rd := medeleg;
      case Mideleg => rd := mideleg;
      case _ => rd := outside;
    }

    /** csr_read_mstatus and csr_read_sstatus share an entry point. */
    method ReadStatus(imm: int) returns (rd: bv32)
      requires Valid() && (CsrAt(imm) == Mstatus || CsrAt(imm) == Sstatus)
      ensures forall outside :: rd == CsrValue(View(), CsrAt(imm), outside)
    {
      EncodeParse(csrMstatus);
      rd := SelectStatus(csrMstatus, imm == 0x100);
    }

    /** The entry point at a label. */
    method EntryPoint(label': int, ghost h: Handler) returns (r: Handler)
      requires Valid() && label' == labelOf(h)
      ensures r == if h == WriteVariable then WriteReadonly else h
    {
      assert Wiring(0);
      r := if label' == labelOf(Handler.Illegal) then Handler.Illegal
           else if label' == labelOf(Handler.ReadCsrs) then Handler.ReadCsrs
           else if label' == labelOf(ReadZero) then ReadZero
           else if label' == labelOf(Handler.ReadStatus) then Handler.ReadStatus
           else if label' == labelOf(ReadSatp) then ReadSatp
           else if label' == labelOf(ReadStimecmp) then ReadStimecmp
           else if label' == labelOf(ReadCounter) then ReadCounter
           else if label' == labelOf(ReadVariable) then ReadVariable
           else if label' == labelOf(Handler.WriteCsrs) then Handler.WriteCsrs
           else if label' == labelOf(WriteSatp) then WriteSatp
           else if label' == labelOf(WriteMstatus) then WriteMstatus
           else if label' == labelOf(WriteSstatus) then WriteSstatus
           else WriteReadonly;
    }

    /** Read handlers that may refuse. */
    method ReadGuarded(read: Handler, imm: int) returns (ok: bool)
      requires Valid() && 0 <= imm < 4096 && read == DescriptorOf(imm).read
      requires RequiredMode(imm) <= ModeCode(ModeOf(privilegeMode))
      ensures ok <==> Readable(View(), imm)
    {
      ReadableByHandler(View(), imm);
      if read == ReadSatp {
        ok := !(privilegeMode == 1 && csrMstatus & 0x100000 != 0);
      } else if read == ReadStimecmp {
        ok := CheckXcounteren(1);
      } else if read == ReadCounter {
        ok := CheckXcounteren(imm % 32);
      } else {
        ok := read != Handler.Illegal;
      }
    }

    /** What the read handler puts into rd. */
    method ReadValue(read: Handler, imm: int, outside: bv32) returns (rd: bv32)
      requires Valid() && ReadFits(read, CsrAt(imm)) && read != Handler.Illegal
      ensures rd == CsrValue(View(), CsrAt(imm), outside)
    {
      if read == Handler.ReadCsrs || read == ReadSatp {
        rd := ReadCsrs(imm, outside);
      } else if read == ReadZero {
        rd := 0;
      } else if read == Handler.ReadStatus {
        rd := ReadStatus(imm);
      } else {
        rd := outside;
      }
    }

    /** The jump to the read handler; null means ILLEGAL_OP. */
    method ReadHandler(readLabel: int, imm: int, outside: bv32) returns (rd: Option<bv32>)
      requires Valid() && 0 <= imm < 4096 && readLabel == labelOf(DescriptorOf(imm).read)
      requires RequiredMode(imm) <= ModeCode(ModeOf(privilegeMode))
      ensures rd.Some? <==> Readable(View(), imm)
      ensures rd.Some? ==> rd.value == CsrValue(View(), CsrAt(imm), outside)
    {
      NoWriteHandler(imm);
      var read := EntryPoint(readLabel, DescriptorOf(imm).read);
      var ok := ReadGuarded(read, imm);
      if !ok {
        return None;
      }
      DescriptorAgrees(imm);
      ReadKinds(imm);
      var v := ReadValue(read, imm, outside);
      rd := Some(v);
    }

    /** csr_write_csrs */
    method WriteCsrs(imm: int, result: bv32, ghost v: bv32)
      requires Valid() && MaskedBy(result, v, imm) && 0 <= imm < 4096
      requires CsrAt(imm).Word? || CsrAt(imm) == Medeleg || CsrAt(imm) == Mideleg || CsrAt(imm) == Elsewhere
      modifies this`words, this`medeleg, this`mideleg
      ensures Valid() && View() == StoreCsr(old(View()), CsrAt(imm), v)
    {
      match CsrAt(imm)
      case Word(w) => WriteWord(imm, w, result, v);
      case Medeleg => WriteMedeleg(imm, result, v);
      case Mideleg => WriteMideleg(imm, result, v);
      case _ =>
    }

    method WriteMedeleg(imm: int, result: bv32, ghost v: bv32)
      requires Valid() && MaskedBy(result, v, imm) && CsrAt(imm) == Medeleg
      modifies this`medeleg
      ensures Valid() && View() == StoreCsr(old(View()), Medeleg, v)
    {
      MaskedMedeleg(result, v, imm);
      medeleg := result;
    }

    method WriteMideleg(imm: int, result: bv32, ghost v: bv32)
      requires Valid() && MaskedBy(result, v, imm) && CsrAt(imm) == Mideleg
      modifies this`mideleg
      ensures Valid() && View() == StoreCsr(old(View()), Mideleg, v)
    {
      MaskedMideleg(result, v, imm);
      mideleg := result;
    }

    method WriteWord(imm: int, w: WordCsr, result: bv32, ghost v: bv32)
      requires Valid() && MaskedBy(result, v, imm) && CsrAt(imm) == Word(w)
      modifies this`words
      ensures Valid() && View() == StoreCsr(old(View()), Word(w), v)
    {
      MaskedWord(words, v, result, imm, w);
      words := StoreWord(words, w, result as int);
    }

    method WriteStatus(imm: int, result: bv32, ghost v: bv32)
      requires Valid() && MaskedBy(result, v, imm) && (CsrAt(imm) == Mstatus || CsrAt(imm) == Sstatus)
      modifies this`csrMstatus, this`effectivePrivilegeMode
      ensures Valid() && View() == StoreCsr(old(View()), CsrAt(imm), v)
    {
      csrMstatus := StoreStatus(imm, csrMstatus, result, v);
      effectivePrivilegeMode := GetEffective(csrMstatus, privilegeMode);
      StatusStored(old(View()), View(), CsrAt(imm), v);
    }

    lemma SameLabel(g: Handler, h: Handler)
      requires Valid()
      ensures labelOf(g) == labelOf(h) <==> g == h
    {
      assert Wiring(0);
    }

    /** The lookup of a descriptor. */
    method Find(imm: int) returns (mask: int, writeLabel: int, readLabel: int)
      requires Valid() && 0 <= imm < 4096
      ensures var d := DescriptorOf(imm);
              mask == d.mask as int && writeLabel == labelOf(d.write) && readLabel == labelOf(d.read)
    {
      assert Wiring(0);
      mask, writeLabel, readLabel := FindDescriptor(tables, csrLabels, labelOf, fdiv, imm);
    }

    /** The jump to the write handler of a writable register. */
    method WriteHandler(writeLabel: int, imm: int, result: bv32, ghost v: bv32)
      requires Valid() && 0 <= imm < 4096 && writeLabel == labelOf(DescriptorOf(imm).write) && MaskedBy(result, v, imm)
      requires CsrAt(imm) != Missing && !ReadOnly(imm)
      modifies this
      ensures Valid() && View() == StoreCsr(old(View()), CsrAt(imm), v)
    {
      KindOfWrite(imm);
      WriteThrough(writeLabel, imm, result, v, DescriptorOf(imm).write);
    }

    method WriteThrough(writeLabel: int, imm: int, result: bv32, ghost v: bv32, ghost write: Handler)
      requires Valid() && 0 <= imm < 4096 && writeLabel == labelOf(write) && MaskedBy(result, v, imm)
      requires WriteFits(write, CsrAt(imm))
      modifies this
      ensures Valid() && View() == StoreCsr(old(View()), CsrAt(imm), v)
    {
      SameLabel(write, WriteMstatus);
      SameLabel(write, WriteSstatus);
      SameLabel(write, Handler.WriteCsrs);
      SameLabel(write, WriteSatp);
      if writeLabel == labelOf(WriteMstatus) || writeLabel == labelOf(WriteSstatus) {
        WriteStatus(imm, result, v);
      } else if writeLabel == labelOf(Handler.WriteCsrs) || writeLabel == labelOf(WriteSatp) {
        WriteCsrs(imm, result, v);
      }
    }

    /** modify_csr, from the privilege test to the end of the instruction; null means ILLEGAL_OP. */
    method ModifyCsr(op: CsrOp, imm: int, rs1: bv32, rs1Id: int, outside: bv32) returns (rd: Option<bv32>)
      requires Valid() && 0 <= imm < 4096
      modifies this
      ensures Valid() && View() == CsrAccess(old(View()), op, imm, rs1, rs1Id, outside)
      ensures rd.None? <==> !Readable(old(View()), imm) || (Writes(op, rs1Id) && ReadOnly(imm))
      ensures rd.Some? ==> rd.value == CsrValue(old(View()), CsrAt(imm), outside)
    {
      var below := ModeBelow(privilegeMode, imm / 256 % 4);
      if below {
        IllegalOp();
        rd := None;
      } else {
        rd := ModifyAllowed(op, imm, rs1, rs1Id, outside);
      }
    }

    /** The lookup of the descriptor and the read. */
    method ModifyAllowed(op: CsrOp, imm: int, rs1: bv32, rs1Id: int, outside: bv32) returns (rd: Option<bv32>)
      requires Valid() && 0 <= imm < 4096 && RequiredMode(imm) <= ModeCode(ModeOf(privilegeMode))
      modifies this
      ensures Valid() && View() == CsrAccess(old(View()), op, imm, rs1, rs1Id, outside)
      ensures rd.None? <==> !Readable(old(View()), imm) || (Writes(op, rs1Id) && ReadOnly(imm))
      ensures rd.Some? ==> rd.value == CsrValue(old(View()), CsrAt(imm), outside)
    {
      var mask, writeLabel, readLabel := Find(imm);
      rd := ReadHandler(readLabel, imm, outside);
      if rd.None? {
        IllegalOp();
      } else {
        rd := ModifyRead(op, imm, rs1, rs1Id, outside, rd.value, mask, writeLabel);
      }
    }

    /** The conditional write. */
    method ModifyRead(op: CsrOp, imm: int, rs1: bv32, rs1Id: int, outside: bv32, value: bv32, mask: int,
                      writeLabel: int)
        returns (rd: Option<bv32>)
      requires Valid() && 0 <= imm < 4096 && Readable(View(), imm) && value == CsrValue(View(), CsrAt(imm), outside)
      requires mask == DescriptorOf(imm).mask as int && writeLabel == labelOf(DescriptorOf(imm).write)
      modifies this
      ensures Valid() && View() == CsrAccess(old(View()), op, imm, rs1, rs1Id, outside)
      ensures rd == if Writes(op, rs1Id) && ReadOnly(imm) then None else Some(value)
    {
      DescriptorAgrees(imm);
      SameLabel(DescriptorOf(imm).write, Handler.Illegal);
      rd := Some(value);
      if op != ReadWrite && rs1Id == 0 {
        EndInstruction();
      } else if writeLabel == labelOf(Handler.Illegal) {
        IllegalOp();
        rd := None;
      } else {
        FinishCsr(op, imm, rs1, outside, value, mask, writeLabel);
      }
    }

    /** The modify step, the mask and the write of a writable register. */
    method FinishCsr(op: CsrOp, imm: int, rs1: bv32, outside: bv32, rd: bv32, mask: int, writeLabel: int)
      requires Valid() && 0 <= imm < 4096 && mask == DescriptorOf(imm).mask as int
      requires writeLabel == labelOf(DescriptorOf(imm).write)
      requires CsrAt(imm) != Missing && !ReadOnly(imm) && rd == CsrValue(View(), CsrAt(imm), outside)
      modifies this
      ensures Valid()
      ensures View() == Advance(StoreCsr(old(View()), CsrAt(imm), NewValue(old(View()), op, CsrAt(imm), rs1, outside)))
    {
      ghost var v := NewValue(View(), op, CsrAt(imm), rs1, outside);
      var result := ModifyStep(op, rd, rs1);
      ModifiedIsNew(result, v, View(), op, CsrAt(imm), rs1, outside);
      var masked := ApplyMask(result, mask, imm, v);
      WriteHandler(writeLabel, imm, masked, v);
      EndInstruction();
    }

    /** unconditional_jump */
    method UnconditionalJump(target: int)
      requires Valid()
      modifies this
      ensures Valid() && View() == Jump(old(View()), target)
    {
      nextPc := target % 0x1_0000_0000;
      if nextPc % 4 != 0 {
        TakeTrap(0, nextPc, false);
      } else {
        pc := nextPc;
      }
    }

    method Execute(e: Event)
      requires Valid() && ValidEvent(e)
      modifies this
      ensures Valid() && View() == Step(old(View()), e)
    {
      if halted {
        return;
      }
      match e
      case Exception(cause, tval) => TakeTrap(cause, tval, false);
      case Interrupt(cause) => TakeTrap(cause, 0, true);
      case PrivInstruction(imm) => ExecutePriv(imm);
      case CsrInstruction(op, a, rs1, rs1Id, outside) =>
        var rd := ModifyCsr(op, a, rs1, rs1Id, outside);
      case Taken(target) => UnconditionalJump(target);
      case Other => EndInstruction();
    }

    /** Any run of the worker is the same run of the architecture. */
    method ExecuteAll(events: seq<Event>)
      requires Valid() && forall i :: 0 <= i < |events| ==> ValidEvent(events[i])
      modifies this
      ensures Valid() && View() == Run(old(View()), events)
    {
      for i := 0 to |events|
        invariant Valid() && View() == Run(old(View()), events[..i])
      {
        assert events[..i + 1][..i] == events[..i];
        Execute(events[i]);
      }
      assert events[..|events|] == events;
    }

    // The unit as the rest of the worker uses it, with the bits of mstatus kept folded.

    ghost predicate Sane()
      reads this
    {
      forall k: int :: Wiring(k) ==> Valid()
    }

    ghost predicate IsState(h: Hart)
      reads this
    {
      (forall k: int :: Wiring(k) ==> h == View()) && h.pc == pc && h.words == words && h.halted == halted
    }

    ghost function State(): (h: Hart)
      reads this
      ensures IsState(h)
    {
      assert IsState(View());
      var h :| IsState(h);
      h
    }

    lemma StateIsView()
      ensures State() == View() && (Sane() <==> Valid())
    {
      assert Wiring(0);
    }

    lemma DividerWorks()
      requires Sane()
      ensures RoundsToNearest(fdiv)
    {
      assert Wiring(0);
    }

    method Raise(cause: nat, tval: int, interrupt: bool)
      requires Sane()
      modifies this
      ensures Sane() && State() == Trap(old(State()), cause, tval, interrupt)
    {
      StateIsView();
      TakeTrap(cause, tval, interrupt);
      StateIsView();
    }

    method Next()
      requires Sane()
      modifies this
      ensures Sane() && State() == Advance(old(State()))
    {
      StateIsView();
      EndInstruction();
      StateIsView();
    }

    method SetPc(target: int)
      requires Sane()
      modifies this
      ensures Sane() && State() == old(State()).(pc := target)
    {
      StateIsView();
      pc := target;
      StateIsView();
    }

    method Privileged(imm: int)
      requires Sane()
      modifies this
      ensures Sane() && State() == Priv(old(State()), imm)
    {
      StateIsView();
      ExecutePriv(imm);
      StateIsView();
    }

    method AccessCsr(op: CsrOp, imm: int, rs1: bv32, rs1Id: int, outside: bv32) returns (rd: Option<bv32>)
      requires Sane() && 0 <= imm < 4096
      modifies this
      ensures Sane() && State() == CsrAccess(old(State()), op, imm, rs1, rs1Id, outside)
      ensures rd.None? <==> !Readable(old(State()), imm) || (Writes(op, rs1Id) && ReadOnly(imm))
      ensures rd.Some? ==> rd.value == CsrValue(old(State()), CsrAt(imm), outside)
    {
      StateIsView();
      rd := ModifyCsr(op, imm, rs1, rs1Id, outside);
      StateIsView();
    }

    method ModeNumber() returns (r: int)
      requires Sane()
      ensures r == ModeCode(State().mode)
    {
      StateIsView();
      r := if privilegeMode == 0 then 0 else if privilegeMode == 1 then 1 else 3;
    }
  }
}
