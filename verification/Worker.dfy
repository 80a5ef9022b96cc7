/**
  The worker: fetch, dispatch and the instruction handlers over one state.

  Every handler is proved to do to the machine what `Isa.Execute` does, and `Run`
  that whole runs of the worker are runs of the instruction set, up to the first
  instruction at the last word of the address space and the first word store that
  misses RAM and the devices.
 */
module Worker {
  import opened Options
  import opened Numbers
  import opened AddressMap
  import opened LookupTables
  import opened Memory
  import opened LoadStore
  import opened Translation
  import opened Fetch
  import opened Isa
  import Alu
  import Atomics
  import Bytes
  import Csr
  import Decoder
  import Handlers
  import PageWalk
  import Privilege
  import Traps

  /** Two codes of one mode are equal. */
  lemma SameMode(a: bv32, b: bv32)
    requires Privilege.IsMode(a) && Privilege.IsMode(b) && Privilege.ModeOf(a) == Privilege.ModeOf(b)
    ensures a == b
  {
  }

  lemma BelowMachine(a: bv32)
    requires Privilege.IsMode(a) && a != 3
    ensures a <= 1 && Privilege.ModeOf(a) != Privilege.Machine
  {
  }

  /** The instruction that a fetch through a frame finds. */
  ghost function LoadedIn(b: Board, s: Cpu, frame: Frame): Loaded
    requires ValidBoard(b) && Sound(b, s)
  {
    LoadInstr(b, s, Placed(frame, s.hart.pc % 4096))
  }

  /** The key of `LoadedAs`. */
  predicate Loading(k: int) { true }

  /** What a fetch through a frame gives; kept folded. */
  ghost predicate LoadedAs(b: Board, s: Cpu, frame: Frame, r: Fetched)
    requires ValidBoard(b) && Sound(b, s)
  {
    forall k: int :: Loading(k) ==>
      match LoadedIn(b, s, frame)
      case NoInstr(cause) => r == FetchFault(cause)
      case Instr(w) => r.Fetched? && Decoded(r.fields, w)
  }

  /** The same in terms of memory words. */
  ghost predicate FetchedThrough(c: Config, m: Contents, frame: Frame, o: int, r: Fetched)
    requires |m.words| == RamWords(c) && |m.rom| == RomWords(c) && 0 <= o
  {
    match frame
    case NoFrame(cause) => r == FetchFault(cause)
    case Frame(f) => FetchedWord(WordAt(c, m, 4096 * f + 4 * o), r)
  }

  lemma LoadsWord(b: Board, s: Cpu, m: Contents, i: int, address: int)
    requires ValidBoard(b) && Sized(b.c, m) && b.rom == Flat(m.rom) && s.view.ram == Flat(m.words)
    requires 0 <= i && address == 4 * i
    ensures LoadInstr(b, s, At(address))
         == match WordAt(b.c, m, address)
            case None => NoInstr(1)
            case Some(w) => Instr(w)
  {
    WordMeaning(b.c, m, i);
  }

  lemma FoldLoaded(b: Board, s: Cpu, frame: Frame, r: Fetched, loaded: Loaded)
    requires ValidBoard(b) && Sound(b, s) && loaded == LoadedIn(b, s, frame)
    requires match loaded
             case NoInstr(cause) => r == FetchFault(cause)
             case Instr(w) => r.Fetched? && Decoded(r.fields, w)
    ensures LoadedAs(b, s, frame, r)
  {
  }

  lemma FetchMeans(b: Board, s: Cpu, m: Contents, frame: Frame, o: int, r: Fetched)
    requires ValidBoard(b) && Sound(b, s) && Sized(b.c, m) && b.rom == Flat(m.rom) && s.view.ram == Flat(m.words)
    requires 0 <= o && s.hart.pc % 4096 == 4 * o && FetchedThrough(b.c, m, frame, o, r)
    ensures LoadedAs(b, s, frame, r)
  {
    if frame.Frame? {
      SamePlace(frame.number, o);
      LoadsWord(b, s, m, 1024 * frame.number + o, 4096 * frame.number + 4 * o);
    }
    FoldLoaded(b, s, frame, r, LoadInstr(b, s, Placed(frame, 4 * o)));
  }

  lemma SamePlace(f: int, o: int)
    ensures 4 * (1024 * f + o) == 4096 * f + 4 * o
  {
  }

  /** An instruction address as its page and the word in the page. */
  predicate InPage(pc: int, page: int, o: int) { pc == 4096 * page + 4 * o && 0 <= o < 1024 }

  lemma InPageParts(pc: int, page: int, o: int)
    requires InPage(pc, page, o)
    ensures pc / 4096 == page && pc % 4096 == 4 * o
  {
  }

  lemma PageOfPc(pc: int) returns (page: nat, o: int)
    requires Fits32(pc) && pc % 4 == 0
    ensures InPage(pc, page, o) && page < 0x10_0000
  {
    PcParts(pc);
    page, o := pc / 4096, pc % 4096 / 4;
  }

  /** The page had this frame in a state of this epoch; kept folded. */
  ghost predicate Mapped(b: Board, s: Cpu, epoch: nat, page: nat, frame: Frame) {
    forall k: int :: Loading(k) ==> ValidBoard(b) && Sound(b, s) && s.epoch == epoch && Maps(b, s, page, frame)
  }

  lemma MappedPage(b: Board, s: Cpu, epoch: nat, page: nat, frame: Frame, pc: int, o: int)
    requires Mapped(b, s, epoch, page, frame) && InPage(pc, page, o)
    ensures Mapped(b, s, epoch, pc / 4096, frame)
  {
    InPageParts(pc, page, o);
  }

  lemma WrittenRegs(regs: seq<int>, rd: int, v: int)
    requires ValidRegs(regs) && IsRegister(rd) && Fits32(v)
    ensures ValidRegs(WriteReg(regs, rd, v))
  {
  }

  /** Whether a target is on the page of the pc, and its offset. */
  method ComparePages(pc: int, target: int, ghost page: int, ghost o: int, ghost targetPage: int, ghost t: int)
      returns (same: bool, offset: int)
    requires InPage(target, targetPage, t)
    ensures offset == 4 * t && (InPage(pc, page, o) ==> (same <==> page == targetPage))
  {
    InPageParts(target, targetPage, t);
    if InPage(pc, page, o) {
      InPageParts(pc, page, o);
    }
    same := pc / 4096 == target / 4096;
    offset := target % 4096;
  }

  /** A CSR instruction that is not refused goes on with the next one. */
  lemma CsrAdvances(h: Privilege.Hart, op: Privilege.CsrOp, a: int, rs1: bv32, rs1Id: int, outside: bv32)
    requires !CsrRefused(h, op, a, rs1Id)
    ensures Privilege.CsrAccess(h, op, a, rs1, rs1Id, outside).pc == h.pc + 4
  {
    StoreKeepsPc(h, Csr.CsrAt(a), Privilege.NewValue(h, op, Csr.CsrAt(a), rs1, outside));
  }

  lemma SatpAddress(a: int)
    ensures Csr.CsrAt(a) == Csr.Word(Csr.Satp) <==> a == 0x180
  {
  }

  lemma StoreKeepsPc(h: Privilege.Hart, csr: Csr.Csr, v: bv32)
    ensures Privilege.StoreCsr(h, csr, v).pc == h.pc
  {
  }

  /** The key of the invariant of runs. */
  predicate Tracing(k: int) { true }

  /** The key of what holds at the end of a run. */
  predicate Ending(k: int) { true }

  /** The key of the invariants about names. */
  predicate Naming(k: int) { true }

  class Hart {
    const mem: MemoryUnit
    const front: Frontend
    const traps: Traps.TrapUnit
    ghost const board: Board
    var regs: seq<int>
    var power: Power

    /** The state in which the name was found, the page and its frame there, and the name's place in the page. */
    ghost var seen: Cpu
    ghost var page: nat
    ghost var frame: Frame
    ghost var slot: int
    ghost var epoch: nat

    /** The parts that hold the machine's state. */
    ghost predicate Core()
      reads this, mem, traps
    {
      mem.Valid() && traps.Sane() && ValidRegs(regs) && board == Board(mem.c, mem.RomView())
    }

    ghost function View(): Cpu
      requires Core()
      reads this, mem, traps
    {
      Cpu(traps.State(), regs, mem.Current(), power, epoch)
    }

    /** A name that is not null is the slot of the pc; kept folded. */
    ghost predicate NamedAt(pc: int)
      reads this, mem, front
    {
      forall k: int :: Naming(k) ==>
        && front.mem == mem && front.Ready()
        && (front.icacheVar.Some? ==>
              && Mapped(board, seen, epoch, page, frame) && InPage(pc, page, slot)
              && NamesSlot(mem.c, mem.decoded, frame, slot, front.icacheVar, front.icacheRam))
    }

    ghost predicate Named()
      reads this, mem, front, traps
    {
      NamedAt(traps.pc)
    }

    /** While the instruction at `pc` is executed, the name is that of the instruction after it on its page. */
    ghost predicate Ahead(pc: int)
      reads this, mem, front
    {
      forall k: int :: Naming(k) ==>
        && front.mem == mem && front.Ready()
        && (front.icacheVar.Some? ==>
              && Mapped(board, seen, epoch, page, frame) && InPage(pc, page, slot)
              && Advanced(mem.c, mem.decoded, frame, slot, front.icacheVar, front.icacheRam))
    }

    /** Between two instructions. */
    ghost predicate Valid()
      reads this, mem, front, traps
    {
      Core() && Sound(board, View()) && Named()
    }

    /** In the middle of an instruction. */
    ghost predicate Executing()
      reads this, mem, front, traps
    {
      Core() && Sound(board, View()) && Ahead(traps.pc) && traps.pc + 4 < 0x1_0000_0000
    }

    constructor (mem: MemoryUnit, digits: seq<int>, traps: Traps.TrapUnit, regs: seq<int>)
      requires mem.Valid() && PageDigits(digits) && traps.Sane() && ValidRegs(regs)
      requires Privilege.Invariant(traps.State()) && InRange(traps.State())
      ensures Valid() && this.mem == mem && this.traps == traps && fresh(front) && board == Board(mem.c, mem.RomView())
      ensures View() == Cpu(traps.State(), regs, mem.Current(), On, 0) && front.icacheVar == None
    {
      this.mem, this.traps, this.regs, this.power := mem, traps, regs, On;
      this.front := new Frontend(mem, digits);
      this.board, this.epoch := Board(mem.c, mem.RomView()), 0;
    }

    /** The pc translated for fetch: the routine uses the effective mode, which below M-mode is the mode. */
    method TranslateFetch() returns (where: Located)
      requires Core() && Sound(board, View())
      ensures where == Locate(SpaceIn(board, View(), View().hart.mode), traps.pc, PageWalk.Execute)
    {
      var address := traps.pc;
      traps.StateIsView();
      if traps.privilegeMode == 3 {
        BareLocated(SpaceIn(board, View(), View().hart.mode), address, PageWalk.Execute);
        return At(address);
      }
      BelowMachine(traps.privilegeMode);
      SameMode(traps.privilegeMode, traps.effectivePrivilegeMode);
      where := TranslateVirtual(mem, Privilege.Bits32(traps.words.satp), traps.csrMstatus, traps.effectivePrivilegeMode,
                                address, 1);
    }

    method TranslateData(va: nat, mcause: int) returns (where: Located)
      requires Core() && mcause in {5, 7}
      ensures where == Locate(SpaceIn(board, View(), View().hart.effective), va, PageWalk.AccessOf(mcause))
    {
      traps.StateIsView();
      where := Translate(mem, Privilege.Bits32(traps.words.satp), traps.csrMstatus, traps.effectivePrivilegeMode, va,
                         mcause);
    }

    /** The frame of the pc's page, as it is now. */
    method FindFrame() returns (where: Located)
      requires Core() && Sound(board, View()) && FrontReady()
      modifies this`seen, this`page, this`frame, this`slot
      ensures FrontReady()
      ensures Core() && Mapped(board, seen, epoch, page, frame) && InPage(traps.pc, page, slot) && seen == View()
      ensures where == Placed(frame, 4 * slot)
    {
      where := TranslateFetch();
      seen := View();
      page, slot := PageOfPc(traps.pc);
      frame := PageHasFrame(SpaceIn(board, seen, seen.hart.mode), page);
      FrameLocatesAt(SpaceIn(board, seen, seen.hart.mode), page, 4 * slot, frame);
    }

    lemma NoName(pc: int)
      requires FrontReady() && front.icacheVar == None
      ensures Ahead(pc)
    {
      assert Naming(0);
    }

    /** The slot of a physical address, or its word. */
    method FetchAt(address: int) returns (r: Fetched)
      requires Core() && FrontReady() && front.icacheVar == None
      requires Mapped(board, seen, epoch, page, frame) && InPage(traps.pc, page, slot)
      requires frame.Frame? && address == 4096 * frame.number + 4 * slot
      modifies front
      ensures Core() && Ahead(traps.pc) && FetchedThrough(mem.c, mem.m, frame, slot, r)
    {
      assert Naming(0);
      r := front.FetchMiss(address, frame.number, slot);
    }

    /** main without a name: translate, and find the slot or load and decode. */
    method FetchMiss() returns (r: Fetched)
      requires Core() && Sound(board, View()) && FrontReady() && front.icacheVar == None
      modifies front, this`seen, this`page, this`frame, this`slot
      ensures Core() && Ahead(traps.pc)
      ensures Mapped(board, seen, epoch, page, frame) && InPage(traps.pc, page, slot) && seen == View()
      ensures FetchedThrough(mem.c, mem.m, frame, slot, r)
    {
      var where := FindFrame();
      if where.Fault? {
        NoName(traps.pc);
        r := FetchFault(where.cause);
      } else {
        r := FetchAt(where.address);
      }
    }

    lemma FetchedAs(r: Fetched)
      requires Core() && Sound(board, View()) && InPage(traps.pc, page, slot)
      requires FetchedThrough(mem.c, mem.m, frame, slot, r)
      ensures LoadedAs(board, View(), frame, r)
    {
      InPageParts(traps.pc, page, slot);
      FetchMeans(board, View(), mem.m, frame, slot, r);
    }

    /** main with a name: the instruction comes from the cache. */
    method FetchNamed(name: Name) returns (r: Fetched)
      requires Core() && Named() && front.icacheVar == Some(name)
      modifies front
      ensures Core() && Ahead(traps.pc)
      ensures Mapped(board, seen, epoch, page, frame) && InPage(traps.pc, page, slot)
      ensures FetchedThrough(mem.c, mem.m, frame, slot, r)
    {
      assert Naming(0);
      r := front.FetchHit(name, frame.number, slot);
    }

    method FetchWord() returns (r: Fetched)
      requires Valid()
      modifies front, this`seen, this`page, this`frame, this`slot
      ensures Core() && Ahead(traps.pc)
      ensures Mapped(board, seen, epoch, page, frame) && InPage(traps.pc, page, slot)
      ensures FetchedThrough(mem.c, mem.m, frame, slot, r)
      ensures seen == View() || (old(front.icacheVar).Some? && seen == old(seen))
    {
      ReadyFront(traps.pc);
      if front.icacheVar.Some? {
        r := FetchNamed(front.icacheVar.value);
      } else {
        r := FetchMiss();
      }
    }

    /** main, up to the jump to the handler. */
    method FetchInstruction() returns (r: Fetched)
      requires Valid() && traps.pc + 4 < 0x1_0000_0000
      modifies front, this`seen, this`page, this`frame, this`slot
      ensures Executing() && View() == old(View()) && LoadedAs(board, View(), frame, r)
      ensures Mapped(board, seen, epoch, page, frame) && InPage(traps.pc, page, slot)
      ensures seen == View() || (old(front.icacheVar).Some? && seen == old(seen))
    {
      r := FetchWord();
      FetchedAs(r);
    }

    // --- the ends of instructions ---------------------------------------------

    /** The machine is in state `s`, with a right name for its pc. */
    ghost predicate Settled(s: Cpu)
      reads this, mem, front, traps
    {
      Core() && View() == s && Named()
    }

    /** The name was advanced by the fetch: it is right for the next instruction. */
    method KeepName(ghost pc: int)
      requires Core() && Ahead(pc) && traps.pc == pc + 4
      modifies this`slot
      ensures Core() && Named() && View() == old(View())
    {
      assert Naming(0);
      slot := slot + 1;
    }

    ghost predicate FrontReady()
      reads this, mem, front
    {
      forall k: int :: Naming(k) ==> front.mem == mem && front.Ready()
    }

    lemma ReadyFront(pc: int)
      requires Ahead(pc) || NamedAt(pc)
      ensures FrontReady()
    {
      assert Naming(0);
    }

    /** The name is dropped, and translations are made anew. */
    method Renew()
      requires Core() && FrontReady()
      modifies front, this`epoch
      ensures Core() && Named() && View() == old(View()).(epoch := old(epoch) + 1) && front.icacheVar == None
    {
      assert Naming(0);
      front.Drop();
      epoch := epoch + 1;
    }

    /** end_instruction */
    method EndInstruction()
      requires Executing()
      modifies traps, this`slot
      ensures Settled(Continued(old(View())))
    {
      ghost var pc := traps.pc;
      traps.Next();
      KeepName(pc);
    }

    /** end_instruction_with_rd */
    method EndWithRd(rd: int, v: int)
      requires Executing() && IsRegister(rd) && Fits32(v)
      modifies traps, this`slot, this`regs
      ensures Settled(Written(old(View()), rd, v))
    {
      SetRegister(rd, v);
      EndInstruction();
    }

    method SetRegister(rd: int, v: int)
      requires Executing() && IsRegister(rd) && Fits32(v)
      modifies this`regs
      ensures Executing() && View() == old(View()).(regs := WriteReg(old(regs), rd, v))
    {
      assert Naming(0);
      WrittenRegs(regs, rd, v);
      if rd != 0 {
        regs := regs[rd := v];
      }
    }

    /** trap: the name is dropped. */
    method TakeTrap(cause: nat, tval: int)
      requires Executing()
      modifies traps, front, this`epoch
      ensures Settled(Trapped(old(View()), cause, tval)) && front.icacheVar == None
    {
      ReadyFront(traps.pc);
      traps.Raise(cause, tval, false);
      Renew();
    }

    // --- jumps ----------------------------------------------------------------

    /** The name of the target's slot, if there is one. */
    method Rename(target: int, ghost targetPage: nat, ghost t: int)
      requires Core() && Ahead(traps.pc) && InPage(target, targetPage, t)
      modifies front
      ensures front.mem == mem && front.Ready()
      ensures front.icacheVar.Some? ==>
                && Mapped(board, seen, epoch, page, frame) && targetPage == page
                && NamesSlot(mem.c, mem.decoded, frame, t, front.icacheVar, front.icacheRam)
    {
      assert Naming(0);
      ghost var named := front.icacheVar.Some?;
      var samePage, offset := ComparePages(traps.pc, target, page, slot, targetPage, t);
      front.Follows(samePage, offset, if frame.Frame? then frame.number else 0, if named then slot else 0, t);
    }

    /** unconditional_jump, once the target is known to be aligned. */
    method MoveTo(target: int)
      requires Executing() && Fits32(target) && target % 4 == 0
      modifies traps, front, this`slot
      ensures Settled(old(View()).(hart := old(View()).hart.(pc := target)))
    {
      ghost var targetPage, t := PageOfPc(target);
      Rename(target, targetPage, t);
      traps.SetPc(target);
      slot := t;
    }

    method Land(rd: int, nextPc: int)
      requires Executing() && IsRegister(rd) && Fits32(nextPc)
      modifies traps, front, this`epoch, this`regs, this`slot
      ensures Settled(Landed(old(View()), rd, nextPc))
    {
      if nextPc % 4 != 0 {
        TakeTrap(0, nextPc);
      } else {
        LandAligned(rd, nextPc);
      }
    }

    method LandAligned(rd: int, nextPc: int)
      requires Executing() && IsRegister(rd) && Fits32(nextPc) && nextPc % 4 == 0
      modifies traps, front, this`regs, this`slot
      ensures Settled(Landed(old(View()), rd, nextPc))
    {
      assert (traps.pc + 4) % 0x1_0000_0000 == traps.pc + 4;
      SetRegister(rd, traps.pc + 4);
      MoveTo(nextPc);
    }

    /** unconditional_jump */
    method JumpTo(rd: int, target: int)
      requires Executing() && IsRegister(rd)
      modifies traps, front, this`epoch, this`regs, this`slot
      ensures Settled(Jumped(old(View()), rd, target))
    {
      var nextPc := target % 0x1_0000_0000;
      Land(rd, nextPc);
    }

    /** The handlers of JAL, JALR and the branches: whether to jump, and where. */
    method PlanJump(i: Instruction) returns (taken: bool, rd: int, target: int)
      requires Core() && ValidInstruction(i) && IsJump(i.op)
      ensures taken == JumpTaken(View(), i) && rd == JumpRd(i) && target == JumpTarget(View(), i)
    {
      taken, rd, target := true, i.rd, traps.pc + i.imm;
      if i.op.Branch? {
        taken := Alu.Test(i.op.condition, regs[i.rs1], regs[i.rs2]);
        rd := 0;
      } else if i.op == Jalr {
        var sum := regs[i.rs1] + i.imm;
        target := sum - sum % 2;
      }
    }

    method ExecuteJump(i: Instruction)
      requires Executing() && ValidInstruction(i) && IsJump(i.op)
      modifies traps, front, this`epoch, this`regs, this`slot
      ensures Settled(JumpInstruction(old(View()), i))
    {
      var taken, rd, target := PlanJump(i);
      if taken {
        JumpTo(rd, target);
      } else {
        EndInstruction();
      }
    }

    // --- arithmetic -----------------------------------------------------------

    /** LUI, AUIPC and the arithmetic instructions. */
    method ExecutePlain(i: Instruction)
      requires Executing() && ValidInstruction(i) && (i.op == Lui || i.op == Auipc || i.op.Arith?)
      modifies traps, this`regs, this`slot
      ensures Settled(Written(old(View()), i.rd, ResultOf(old(View()), i)))
    {
      var v := Result(i);
      EndWithRd(i.rd, v);
    }

    method Result(i: Instruction) returns (v: UInt32)
      requires Core() && ValidInstruction(i) && (i.op == Lui || i.op == Auipc || i.op.Arith?)
      ensures v == ResultOf(View(), i)
    {
      if i.op == Lui {
        v := i.imm;
      } else if i.op == Auipc {
        v := (i.imm + traps.pc) % 0x1_0000_0000;
      } else {
        v := Arithmetic(i);
      }
    }

    method Arithmetic(i: Instruction) returns (v: UInt32)
      requires Core() && ValidInstruction(i) && i.op.Arith?
      ensures v == Alu.Compute(i.op.alu, regs[i.rs1], if i.op.immediate then i.imm else regs[i.rs2])
    {
      traps.DividerWorks();
      v := Alu.Execute(i.op.alu, regs[i.rs1], if i.op.immediate then i.imm else regs[i.rs2], i.op.immediate,
                       traps.fdiv);
    }

    // --- system instructions --------------------------------------------------

    /** PRIV: every instruction but WFI drops the name. */
    method ExecutePriv(imm: int)
      requires Executing()
      modifies traps, front, this`epoch, this`slot
      ensures Settled(PrivInstruction(old(View()), imm))
    {
      if imm == 0x105 {
        EndInstruction();
      } else {
        DropAfterPriv(imm);
      }
    }

    method DropAfterPriv(imm: int)
      requires Executing() && imm != 0x105
      modifies traps, front, this`epoch
      ensures Settled(PrivInstruction(old(View()), imm))
    {
      ReadyFront(traps.pc);
      traps.Privileged(imm);
      Renew();
    }

    /** A CSR instruction, up to the write of rd; a trap and a write of satp drop the name. */
    method ModifyCsr(i: Instruction, operand: bv32, outside: bv32) returns (rd: Option<bv32>)
      requires Executing() && ValidInstruction(i) && i.op.CsrModify?
      modifies traps, front, this`epoch, this`slot
      ensures Core() && Named()
      ensures rd.None? <==> CsrRefused(old(View()).hart, i.op.csr, i.imm, i.rs1)
      ensures rd.Some? ==> rd.value == Privilege.CsrValue(old(View()).hart, Csr.CsrAt(i.imm), outside)
      ensures View() == CsrInstruction(old(View()), i, operand, outside).(regs := regs)
    {
      ghost var pc := traps.pc;
      ReadyFront(pc);
      rd := ChangeCsr(i, operand, outside);
      if rd.None? || (i.imm == 0x180 && (i.op.csr == Privilege.ReadWrite || i.rs1 != 0)) {
        Renew();
      } else {
        KeepName(pc);
      }
    }

    method ChangeCsr(i: Instruction, operand: bv32, outside: bv32) returns (rd: Option<bv32>)
      requires Executing() && ValidInstruction(i) && i.op.CsrModify?
      modifies traps
      ensures Core() && (rd.Some? ==> traps.pc == old(traps.pc) + 4)
      ensures rd.None? <==> CsrRefused(old(View()).hart, i.op.csr, i.imm, i.rs1)
      ensures rd.Some? ==> rd.value == Privilege.CsrValue(old(View()).hart, Csr.CsrAt(i.imm), outside)
      ensures View()
           == old(View()).(hart := Privilege.CsrAccess(old(View()).hart, i.op.csr, i.imm, operand, i.rs1, outside))
      ensures Csr.CsrAt(i.imm) == Csr.Word(Csr.Satp) <==> i.imm == 0x180
    {
      SatpAddress(i.imm);
      if !CsrRefused(View().hart, i.op.csr, i.imm, i.rs1) {
        CsrAdvances(View().hart, i.op.csr, i.imm, operand, i.rs1, outside);
      }
      rd := traps.AccessCsr(i.op.csr, i.imm, operand, i.rs1, outside);
    }

    method PutRegister(rd: int, v: int)
      requires Core() && Named() && IsRegister(rd) && Fits32(v)
      modifies this`regs
      ensures Core() && Named() && View() == old(View()).(regs := WriteReg(old(regs), rd, v))
    {
      assert Naming(0);
      WrittenRegs(regs, rd, v);
      if rd != 0 {
        regs := regs[rd := v];
      }
    }

    method ExecuteCsr(i: Instruction, operand: bv32, outside: bv32)
      requires Executing() && ValidInstruction(i) && i.op.CsrModify?
      modifies traps, front, this`epoch, this`slot, this`regs
      ensures Settled(CsrInstruction(old(View()), i, operand, outside))
    {
      var rd := ModifyCsr(i, operand, outside);
      if rd.Some? {
        PutRegister(i.rd, rd.value as int);
      }
    }

    /** MLOGSYS: more of ROM is decoded, and names stay right. */
    method ExecuteInit(rs1: UInt32)
      requires Executing()
      modifies mem, traps, front, this`epoch, this`slot
      ensures Settled(if old(View()).hart.mode == Privilege.Machine then Continued(old(View()))
                      else Trapped(old(View()), 2, 0))
    {
      var mode := traps.ModeNumber();
      var o := DecodeMore(rs1, mode);
      if o.Trap? {
        TakeTrap(2, 0);
      } else {
        EndInstruction();
      }
    }

    method DecodeMore(rs1: UInt32, mode: int) returns (o: Outcome)
      requires Executing()
      modifies mem
      ensures Executing() && View() == old(View()) && o.Trap? == (mode < 3)
    {
      assert Naming(0);
      ghost var before := mem.decoded;
      o := mem.DecodeRom(rs1, mode);
      NamesMore(mem.c, before, mem.decoded, frame, slot + 1, front.icacheVar, front.icacheRam);
    }

    // --- memory instructions --------------------------------------------------

    /** The access of a memory instruction. */
    method AccessPhysical(op: Op, opId: int, address: nat, value: bv32) returns (o: Outcome)
      requires mem.Valid() && IsMemory(op) && IsAccess(AccessFor(op, address, value))
      requires !Stray(mem.c, AccessFor(op, address, value))
      requires op.Atomic? ==> Atomics.IsAmo(opId) && Atomics.OpOf(opId) == op.amo
      modifies mem
      ensures mem.Valid() && mem.m.rom == old(mem.m.rom) && mem.decoded == old(mem.decoded)
      ensures (o, mem.Current())
           == LoadStore.Step(mem.c, mem.RomView(), old(mem.Current()), AccessFor(op, address, value))
    {
      match op
      case LoadInt(n, signed) => o := mem.LoadValue(address, n, signed);
      case StoreInt(n) => o := mem.StoreValue(address, n, value);
      case Reserve => o := mem.LoadReservedWord(address);
      case Conditional => o := mem.StoreConditionalWord(address, value);
      case Atomic(amo) => o := mem.ModifyWord(address, opId, value);
    }

    method AccessOnce(op: Op, opId: int, address: nat, value: bv32) returns (o: Outcome)
      requires Executing() && IsMemory(op) && IsAccess(AccessFor(op, address, value))
      requires !Stray(mem.c, AccessFor(op, address, value))
      requires op.Atomic? ==> Atomics.IsAmo(opId) && Atomics.OpOf(opId) == op.amo
      modifies mem
      ensures Executing()
      ensures var step := LoadStore.Step(board.c, board.rom, old(View()).view, AccessFor(op, address, value));
              o == step.0 && View() == old(View()).(view := step.1)
    {
      assert Naming(0);
      o := AccessPhysical(op, opId, address, value);
    }

    /** A device access: sub-word stores read the register first. */
    method AccessDevice(i: Instruction, address: nat, va: nat, reply: Reply)
      requires Executing() && ValidInstruction(i) && IsMemory(i.op) && (i.op.LoadInt? ==> OnBoundary(address, i.op.n))
      modifies traps, front, this`epoch, this`regs, this`slot
      ensures Settled(DeviceAccess(old(View()), i, address, va, reply))
    {
      if i.op.LoadInt? {
        if reply.Refuse? {
          TakeTrap(5, va);
        } else {
          AlignedAddress(address, i.op.n);
          var rd := Bytes.ExtractValue(reply.word, address % 4, i.op.n, i.op.signed);
          EndWithRd(i.rd, rd as int);
        }
      } else if reply.Refuse? && SizeOf(i.op) < 4 {
        TakeTrap(7, va);
      } else {
        EndInstruction();
      }
    }

    /** What follows an access. */
    method Conclude(i: Instruction, o: Outcome, address: nat, va: nat, reply: Reply)
      requires Executing() && ValidInstruction(i) && IsMemory(i.op)
      requires o == Device && i.op.LoadInt? ==> OnBoundary(address, i.op.n)
      modifies traps, front, this`epoch, this`regs, this`slot, this`power
      ensures Settled(Concluded(old(View()), i, o, address, va, reply))
    {
      match o
      case Value(v) => EndWithRd(i.rd, v as int);
      case Done => EndInstruction();
      case Trap(cause) => TakeTrap(if cause < 0 then 0 else cause, va);
      case Device => AccessDevice(i, address, va, reply);
      case Power(reset) => SwitchOff(reset);
    }

    /** store_value__syscon: the worker leaves the program. */
    method SwitchOff(reset: bool)
      requires Executing()
      modifies front, this`power
      ensures Settled(old(View()).(power := if reset then Restart else Off))
    {
      assert Naming(0);
      front.Drop();
      power := if reset then Restart else Off;
    }

    /** The access and what follows it, unless the access is astray. */
    method AccessAt(i: Instruction, opId: int, address: nat, va: nat, reply: Reply) returns (ok: bool)
      requires Executing() && ValidInstruction(i) && IsMemory(i.op)
      requires i.op.Atomic? ==> Atomics.IsAmo(opId) && Atomics.OpOf(opId) == i.op.amo
      modifies mem, traps, front, this`epoch, this`regs, this`slot, this`power
      ensures ok == !Stray(board.c, AccessFor(i.op, address, 0))
      ensures !ok ==> Core() && View() == old(View())
      ensures ok ==>
                Settled(AccessMemory(board, old(View()), i, Privilege.Bits32(old(View()).regs[i.rs2]), address, va,
                                     reply))
    {
      var value := Privilege.Bits32(regs[i.rs2]);
      if i.op.StoreInt? && i.op.n == 4 && address % 4 == 0 && address < 0xf000_0000 && !InRam(mem.c, address) {
        return false;
      }
      var o := AccessOnce(i.op, opId, address, value);
      Conclude(i, o, address, va, reply);
      ok := true;
    }

    method AccessLocated(i: Instruction, opId: int, where: Located, va: nat, reply: Reply) returns (ok: bool)
      requires Executing() && ValidInstruction(i) && IsMemory(i.op)
      requires i.op.Atomic? ==> Atomics.IsAmo(opId) && Atomics.OpOf(opId) == i.op.amo
      modifies mem, traps, front, this`epoch, this`regs, this`slot, this`power
      ensures ok == !StrayAt(board, i.op, where)
      ensures !ok ==> Core() && View() == old(View())
      ensures ok ==> Settled(LocatedAccess(board, old(View()), i, where, va, reply))
    {
      if where.Fault? {
        ok := true;
        TakeTrap(where.cause, va);
      } else {
        ok := AccessAt(i, opId, where.address, va, reply);
      }
    }

    /** Translation and access. */
    method AccessAligned(i: Instruction, opId: int, va: nat, mcause: nat, reply: Reply) returns (ok: bool)
      requires Executing() && ValidInstruction(i) && IsMemory(i.op) && mcause == if IsLoad(i.op) then 4 else 6
      requires i.op.Atomic? ==> Atomics.IsAmo(opId) && Atomics.OpOf(opId) == i.op.amo
      modifies mem, traps, front, this`epoch, this`regs, this`slot, this`power
      ensures ok == !AstrayAt(board, old(View()), i.op, va)
      ensures !ok ==> Core() && View() == old(View())
      ensures ok ==> Settled(AlignedAccess(board, old(View()), i, va, reply))
    {
      var where := TranslateData(va, mcause + 1);
      ok := AccessLocated(i, opId, where, va, reply);
    }

    /** Loads, stores and atomics: alignment, translation and access. */
    method ExecuteMemory(i: Instruction, opId: int, reply: Reply) returns (ok: bool)
      requires Executing() && ValidInstruction(i) && IsMemory(i.op)
      requires i.op.Atomic? ==> Atomics.IsAmo(opId) && Atomics.OpOf(opId) == i.op.amo
      modifies mem, traps, front, this`epoch, this`regs, this`slot, this`power
      ensures ok == !StoresAstray(board, old(View()), i)
      ensures !ok ==> Core() && View() == old(View())
      ensures ok ==> Settled(MemoryInstruction(board, old(View()), i, reply))
    {
      var va, mcause := Request(i);
      BoundaryMod(va, SizeOf(i.op));
      if va % SizeOf(i.op) != 0 {
        ok := true;
        TakeTrap(mcause, va);
      } else {
        ok := AccessAligned(i, opId, va, mcause, reply);
      }
    }

    /** The virtual address, and the cause of a misaligned access. */
    method Request(i: Instruction) returns (va: nat, mcause: nat)
      requires Core() && ValidInstruction(i) && IsMemory(i.op)
      ensures va == AddressOf(i, regs[i.rs1]) && mcause == (if IsLoad(i.op) then 4 else 6) && IsSize(SizeOf(i.op))
    {
      var address := regs[i.rs1];
      if i.op.LoadInt? || i.op.StoreInt? {
        address := address + i.imm;
        address := address % 0x1_0000_0000;
      }
      va := address;
      mcause := if i.op.LoadInt? || i.op == Reserve then 4 else 6;
    }

    // --- dispatch -------------------------------------------------------------

    /** SYSTEM, MISC-MEM and custom-0 instructions, and illegal words. */
    method ExecuteSystem(i: Instruction, outside: bv32)
      requires Executing() && ValidInstruction(i) && IsSystem(i.op)
      modifies mem, traps, front, this`epoch, this`regs, this`slot
      ensures Settled(SystemInstruction(old(View()), i, outside))
    {
      if i.op == Priv {
        ExecutePriv(i.imm);
      } else if i.op.CsrModify? {
        var operand := if i.op.uimm then i.rs1 else regs[i.rs1];
        ExecuteCsr(i, Privilege.Bits32(operand), outside);
      } else {
        ExecuteOther(i);
      }
    }

    method ExecuteOther(i: Instruction)
      requires Executing() && ValidInstruction(i) && (i.op == InitIcache || i.op == Fence || i.op == Op.Illegal)
      modifies mem, traps, front, this`epoch, this`slot
      ensures forall outside :: Settled(SystemInstruction(old(View()), i, outside))
    {
      if i.op == InitIcache {
        ExecuteInit(regs[i.rs1]);
      } else if i.op == Fence {
        EndInstruction();
      } else {
        TakeTrap(2, 0);
      }
    }

    /** The jump through the handler table. */
    method Dispatch(i: Instruction, opId: int, input: Input) returns (ok: bool)
      requires Executing() && ValidInstruction(i)
      requires i.op.Atomic? ==> Atomics.IsAmo(opId) && Atomics.OpOf(opId) == i.op.amo
      modifies mem, traps, front, this`epoch, this`regs, this`slot, this`power
      ensures ok == !StoresAstray(board, old(View()), i)
      ensures !ok ==> Core() && View() == old(View())
      ensures ok ==> Settled(Execute(board, old(View()), i, input))
    {
      ok := true;
      if IsMemory(i.op) {
        ok := ExecuteMemory(i, opId, input.reply);
      } else if IsSystem(i.op) {
        ExecuteSystem(i, input.outside);
      } else if IsJump(i.op) {
        ExecuteJump(i);
      } else {
        ExecutePlain(i);
      }
    }

    /** The fetched fields are executed as the instruction that the word is. */
    method ExecuteFetched(f: Fields, ghost w: bv32, input: Input) returns (ok: bool)
      requires Executing() && Decoded(f, w) && ValidInstruction(Meaning(w))
      modifies mem, traps, front, this`epoch, this`regs, this`slot, this`power
      ensures ok == !StoresAstray(board, old(View()), Meaning(w))
      ensures !ok ==> Core() && View() == old(View())
      ensures ok ==> Settled(Execute(board, old(View()), Meaning(w), input))
    {
      var i := Handlers.Dispatched(f);
      Handlers.FieldsMean(f, w);
      Handlers.DispatchedValid(f, w);
      Handlers.EssenceSame(board, View(), i, input);
      Handlers.EssenceAstray(board, View(), i);
      if i.op.Atomic? {
        Handlers.AtomicIds(f.opId);
      }
      ok := Dispatch(i, Decoder.SignedId(f.opId), input);
    }

    // --- whole runs -----------------------------------------------------------

    /** An interrupt that fires between two instructions. */
    method TakeInterrupt(cause: nat)
      requires Valid()
      modifies traps, front, this`epoch
      ensures Core() && Named() && front.icacheVar == None
      ensures View() == old(View()).(hart := Privilege.Trap(old(View()).hart, cause, 0, true), epoch := old(epoch) + 1)
    {
      ReadyFront(traps.pc);
      traps.Raise(cause, 0, true);
      Renew();
    }

    /** What the fetch gave, executed or trapped. */
    method ExecuteOrTrap(r: Fetched, input: Input, ghost used: Frame) returns (ok: bool)
      requires Executing() && LoadedAs(board, View(), used, r)
      modifies mem, traps, front, this`epoch, this`regs, this`slot, this`power
      ensures ok == !Astray(board, old(View()), LoadedIn(board, old(View()), used))
      ensures !ok ==> Core() && View() == old(View())
      ensures ok ==> Settled(Proceed(board, old(View()), LoadedIn(board, old(View()), used), input))
    {
      assert Loading(0);
      if r.FetchFault? {
        ok := true;
        TakeTrap(r.cause, traps.pc);
      } else {
        ghost var w := LoadedIn(board, View(), used).word;
        MeaningValid(w);
        ok := ExecuteFetched(r.fields, w, input);
      }
    }

    /** The frame that the pc's page has now. */
    lemma CurrentFrame() returns (f: Frame)
      requires Core() && Sound(board, View())
      ensures Mapped(board, View(), epoch, traps.pc / 4096, f)
    {
      f := PageHasFrame(SpaceIn(board, View(), View().hart.mode), traps.pc / 4096);
    }

    method FetchPage() returns (r: Fetched)
      requires Valid() && traps.pc + 4 < 0x1_0000_0000
      modifies front, this`seen, this`page, this`frame, this`slot
      ensures Executing() && View() == old(View()) && LoadedAs(board, View(), frame, r)
      ensures Mapped(board, seen, epoch, traps.pc / 4096, frame)
      ensures seen == View() || (old(front.icacheVar).Some? && seen == old(seen))
    {
      r := FetchInstruction();
      MappedPage(board, seen, epoch, page, frame, traps.pc, slot);
    }

    /** Fetch and execute. */
    method FetchAndExecute(input: Input) returns (ok: bool, ghost used: Frame)
      requires Valid() && traps.pc + 4 < 0x1_0000_0000
      modifies this, mem, front, traps
      ensures ok == !Astray(board, old(View()), LoadedIn(board, old(View()), used))
      ensures !ok ==> Core() && View() == old(View())
      ensures ok ==> Settled(Proceed(board, old(View()), LoadedIn(board, old(View()), used), input))
      ensures Mapped(board, seen, old(epoch), old(traps.pc) / 4096, used)
      ensures seen == old(View()) || (old(front.icacheVar).Some? && seen == old(seen))
    {
      var r := FetchPage();
      used := frame;
      ok := ExecuteOrTrap(r, input, used);
    }

    /** One step: an interrupt, or an instruction.  `used` is the frame that the fetch went through, and `origin` the
        state in which it was found. */
    method Perform(input: Input) returns (ok: bool, ghost used: Frame, ghost origin: Cpu)
      requires Valid() && traps.pc + 4 < 0x1_0000_0000
      modifies this, mem, front, traps
      ensures ok == !StepAstray(board, old(View()), input, used)
      ensures !ok ==> Core() && View() == old(View())
      ensures ok ==> Settled(Isa.Step(board, old(View()), input, used))
      ensures Mapped(board, origin, old(epoch), old(traps.pc) / 4096, used)
      ensures origin == old(View()) || (old(front.icacheVar).Some? && origin == old(seen))
      ensures front.icacheVar.Some? ==> seen == origin || (old(front.icacheVar).Some? && seen == old(seen))
    {
      if traps.halted || power != On {
        used := CurrentFrame();
        return true, used, View();
      }
      if input.interrupt.Some? {
        used := CurrentFrame();
        origin := View();
        TakeInterrupt(input.interrupt.value);
        return true, used, origin;
      }
      ok, used := FetchAndExecute(input);
      origin := seen;
    }

    /** The name, if there is one, was found in a state of the trace. */
    ghost predicate FoundIn(trace: seq<Cpu>)
      reads this, front
    {
      front.icacheVar.Some? ==> seen in trace
    }

    lemma LegalFrame(trace: seq<Cpu>, n: nat, frame: Frame, origin: Cpu)
      requires ValidBoard(board) && SoundTrace(board, trace) && |trace| == n + 1
      requires origin in trace && Mapped(board, origin, trace[n].epoch, trace[n].hart.pc / 4096, frame)
      ensures Legal(board, trace, n, frame)
    {
      assert Loading(0);
      var j :| 0 <= j < |trace| && trace[j] == origin;
    }

    /** The worker is at the end of a run; kept folded. */
    ghost predicate OnRun(start: Cpu, trace: seq<Cpu>, frames: seq<Frame>, done: seq<Input>)
      reads this, mem, front, traps
    {
      forall k: int :: Tracing(k) ==>
        && Valid() && ValidBoard(board) && IsRun(board, trace, frames, done)
        && trace[0] == start && View() == trace[|done|] && FoundIn(trace)
    }

    /** One more step of a run. */
    method Extend(input: Input, ghost trace: seq<Cpu>, ghost frames: seq<Frame>, ghost done: seq<Input>)
        returns (ok: bool, ghost used: Frame)
      requires Valid() && traps.pc + 4 < 0x1_0000_0000 && IsRun(board, trace, frames, done)
      requires View() == trace[|done|] && FoundIn(trace)
      modifies this, mem, front, traps
      ensures !ok ==> Core() && View() == old(View()) && Legal(board, trace, |done|, used)
      ensures !ok ==> StepAstray(board, old(View()), input, used)
      ensures ok ==>
                Valid() && IsRun(board, trace + [View()], frames + [used], done + [input]) && FoundIn(trace + [View()])
    {
      ghost var origin;
      ok, used, origin := Perform(input);
      LegalFrame(trace, |done|, used, origin);
      if ok {
        StepSound(board, trace[|done|], input, used);
        RunLonger(board, trace, frames, done, View(), input, used);
      }
    }

    /** The same on the folded invariant; a step that is a store astray ends the run. */
    method ExtendRun(input: Input, ghost start: Cpu, ghost trace: seq<Cpu>, ghost frames: seq<Frame>,
                     ghost done: seq<Input>)
        returns (ok: bool, ghost used: Frame, ghost next: Cpu)
      requires OnRun(start, trace, frames, done) && traps.pc + 4 < 0x1_0000_0000
      modifies this, mem, front, traps
      ensures ok ==> OnRun(start, trace + [next], frames + [used], done + [input])
      ensures !ok ==> AtEnd(start, trace, frames, done, input)
    {
      assert Tracing(0);
      ok, used := Extend(input, trace, frames, done);
      next := View();
    }

    /** A run that is left before its inputs end; kept folded. */
    ghost predicate AtEnd(start: Cpu, trace: seq<Cpu>, frames: seq<Frame>, done: seq<Input>, input: Input)
      reads this, mem, front, traps
    {
      forall k: int :: Ending(k) ==>
        && Core() && ValidBoard(board) && IsRun(board, trace, frames, done)
        && trace[0] == start && View() == trace[|done|] && RunEnds(board, trace, |done|, input)
    }

    /** The first `n` inputs were done; kept folded. */
    ghost predicate Finished(start: Cpu, trace: seq<Cpu>, frames: seq<Frame>, inputs: seq<Input>, n: nat)
      reads this, mem, front, traps
    {
      forall k: int :: Ending(k) ==>
        RunsUntil(board, trace, frames, inputs, n) && trace[0] == start && Core() && View() == trace[n]
    }

    lemma AllDone(start: Cpu, trace: seq<Cpu>, frames: seq<Frame>, inputs: seq<Input>, n: nat)
      requires n <= |inputs| && OnRun(start, trace, frames, inputs[..n])
      requires n == |inputs| || traps.pc + 4 >= 0x1_0000_0000
      ensures Finished(start, trace, frames, inputs, n)
    {
      assert Tracing(0);
      if n < |inputs| {
        LastWord(View().hart);
      }
    }

    lemma EndOfRun(start: Cpu, trace: seq<Cpu>, frames: seq<Frame>, inputs: seq<Input>, n: nat)
      requires n < |inputs| && AtEnd(start, trace, frames, inputs[..n], inputs[n])
      ensures Finished(start, trace, frames, inputs, n)
    {
      assert Ending(0);
    }

    lemma StartOfRun(start: Cpu)
      requires Valid() && start == View() && front.icacheVar == None
      ensures OnRun(start, [start], [], [])
    {
    }

    /** Whole runs: what the worker does is a run of the instruction set, up to the first instruction at the last
        word of the address space and the first word store that misses RAM and the devices. */
    method Run(inputs: seq<Input>) returns (n: nat, ghost trace: seq<Cpu>, ghost frames: seq<Frame>)
      requires Valid() && front.icacheVar == None
      modifies this, mem, front, traps
      ensures RunsUntil(board, trace, frames, inputs, n)
      ensures trace[0] == old(View()) && Core() && View() == trace[n]
    {
      ghost var start := View();
      StartOfRun(start);
      n, trace, frames := RunOn(inputs, start);
      assert Ending(0);
    }

    method RunOn(inputs: seq<Input>, ghost start: Cpu) returns (n: nat, ghost trace: seq<Cpu>, ghost frames: seq<Frame>)
      requires OnRun(start, [start], [], [])
      modifies this, mem, front, traps
      ensures Finished(start, trace, frames, inputs, n)
    {
      n, trace, frames := 0, [start], [];
      ghost var done: seq<Input> := [];
      while n < |inputs| && traps.pc + 4 < 0x1_0000_0000
        invariant n <= |inputs| && done == inputs[..n] && OnRun(start, trace, frames, done)
      {
        var ok;
        ghost var used, next;
        ok, used, next := ExtendRun(inputs[n], start, trace, frames, done);
        if !ok {
          EndOfRun(start, trace, frames, inputs, n);
          return;
        }
        trace, frames, done := trace + [next], frames + [used], done + [inputs[n]];
        n := n + 1;
      }
      AllDone(start, trace, frames, inputs, n);
    }
  }

  /** Instruction addresses are aligned. */
  lemma LastWord(h: Privilege.Hart)
    requires Privilege.Invariant(h) && InRange(h) && h.pc + 4 >= 0x1_0000_0000
    ensures h.pc + 4 == 0x1_0000_0000
  {
  }
}
