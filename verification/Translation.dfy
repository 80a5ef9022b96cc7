/**
  translate_virtual_address over the memory unit, and what instruction fetch relies
  on: with satp, the mode and RAM fixed, translation maps whole pages to frames.
 */
module Translation {
  import opened Options
  import opened AddressMap
  import opened LoadStore
  import PageWalk
  import Privilege

  // --- what translation means -------------------------------------------------

  /** The word at a physical address, as the walk reads it; page tables are in ROM or RAM, not in devices. */
  function Word(c: Config, rom: seq<bv8>, ram: seq<bv8>, address: int): Option<bv32>
    requires ValidConfig(c) && |rom| == 4 * RomWords(c) && |ram| == 4 * RamWords(c) && 0 <= address
  {
    match LoadSpec(c, rom, ram, address, 4, false)
    case Value(w) => Some(w)
    case _ => None
  }

  function Physical(c: Config, rom: seq<bv8>, ram: seq<bv8>): PageWalk.Memory
    requires ValidConfig(c) && |rom| == 4 * RomWords(c) && |ram| == 4 * RamWords(c)
  {
    (a: bv34) => Word(c, rom, ram, a as int)
  }

  /** A physical address, or the exception to raise. */
  datatype Located = At(address: nat) | Fault(cause: nat)

  function LocatedBy(e: PageWalk.Exit): Located {
    match e
    case Return(a) => At(a as int)
    case Trap(cause) => Fault(cause)
  }

  /** The mode and the mstatus bits that a walk depends on. */
  function ContextIn(s: Privilege.Status, mode: Privilege.Mode): PageWalk.Context {
    PageWalk.Context(mode == Privilege.User, s.sum, s.mxr)
  }

  /** Whether addresses are physical: in M-mode, and while satp.MODE is 0. */
  predicate Bare(satp: bv32, mode: Privilege.Mode) { mode == Privilege.Machine || satp < 0x8000_0000 }

  function RawLocate(mem: PageWalk.Memory, satp: bv32, s: Privilege.Status, mode: Privilege.Mode, va: nat,
                     access: PageWalk.Access): Located
  {
    if Bare(satp, mode) then At(va)
    else LocatedBy(PageWalk.ExitOf(PageWalk.Sv32(satp, mem, Privilege.Bits32(va), access, ContextIn(s, mode)), access))
  }

  /** What translation depends on: memory, satp, mstatus and the mode. */
  datatype Space = Space(mem: PageWalk.Memory, satp: bv32, status: Privilege.Status, mode: Privilege.Mode)

  /** The key of `Locate`. */
  predicate Walking(k: int) { true }

  ghost predicate IsLocated(r: Located, s: Space, va: nat, access: PageWalk.Access) {
    forall k: int :: Walking(k) ==> r == RawLocate(s.mem, s.satp, s.status, s.mode, va, access)
  }

  /** Where an access to a virtual address goes; kept folded. */
  ghost function Locate(s: Space, va: nat, access: PageWalk.Access): (r: Located)
    ensures IsLocated(r, s, va, access)
  {
    assert IsLocated(RawLocate(s.mem, s.satp, s.status, s.mode, va, access), s, va, access);
    var r :| IsLocated(r, s, va, access);
    r
  }

  lemma BareLocated(s: Space, va: nat, access: PageWalk.Access)
    requires Bare(s.satp, s.mode)
    ensures Locate(s, va, access) == At(va)
  {
    assert Walking(0);
  }

  lemma WalkLocated(e: PageWalk.Exit, s: Space, va: nat, access: PageWalk.Access)
    requires !Bare(s.satp, s.mode)
    requires e
          == PageWalk.ExitOf(PageWalk.Sv32(s.satp, s.mem, Privilege.Bits32(va), access, ContextIn(s.status, s.mode)),
                             access)
    ensures Locate(s, va, access) == LocatedBy(e)
  {
    assert Walking(0);
  }

  // --- the routine ------------------------------------------------------------

  lemma EntryBits(table: bv22, vpn: bv10)
    ensures (((table as bv34) << 12) | (((vpn as bv12) << 2) as bv34)) as int
         == 4096 * (table as int) + 4 * (vpn as int)
  {
  }

  lemma EntryAs(address: bv34, table: bv22, vpn: bv10)
    requires address == ((table as bv34) << 12) | (((vpn as bv12) << 2) as bv34)
    ensures address as int == 4096 * (table as int) + 4 * (vpn as int)
  {
    EntryBits(table, vpn);
  }

  lemma EntryNumber(address: bv34, table: bv22, vpn: bv10)
    requires address == PageWalk.Entry(table, vpn)
    ensures address as int == 4096 * (table as int) + 4 * (vpn as int)
  {
    EntryAs(address, table, vpn);
  }

  lemma IndexOf(a: int, table: int, vpn: int) returns (i: int)
    requires a == 4096 * table + 4 * vpn && 0 <= table && 0 <= vpn
    ensures 0 <= i && a == 4 * i
  {
    i := 1024 * table + vpn;
  }

  /** Entries are aligned words. */
  lemma EntryIndex(address: bv34, table: bv22, vpn: bv10) returns (i: int)
    requires address == PageWalk.Entry(table, vpn)
    ensures 0 <= i && address as int == 4 * i
  {
    EntryNumber(address, table, vpn);
    i := IndexOf(address as int, table as int, vpn as int);
  }

  /** load_word for a page-table entry. */
  method LoadEntry(unit: MemoryUnit, address: bv34, ghost i: int) returns (r: Option<bv32>)
    requires unit.Valid() && 0 <= i && address as int == 4 * i
    ensures r == Physical(unit.c, unit.RomView(), unit.Current().ram)(address)
  {
    r := LoadAt(unit, address as int, i);
  }

  method LoadAt(unit: MemoryUnit, address: int, ghost i: int) returns (r: Option<bv32>)
    requires unit.Valid() && 0 <= i && address == 4 * i
    ensures r == Word(unit.c, unit.RomView(), unit.Current().ram, address)
  {
    WordMeaning(unit.c, unit.m, i);
    if address >= MMIO_START {
      return None;
    }
    r := unit.LoadWord(address);
  }

  /** One round of the walk: the address of the entry, its load, and the tests on it. */
  method WalkLevel(unit: MemoryUnit, a: bv34, nonlocal2: int, mstatus: bv32, effectivePrivilege: bv32, va: bv32,
                   mcause: int,
                   ghost mem: PageWalk.Memory, ghost table: bv22)
      returns (exit: Option<PageWalk.Exit>, next: bv34, ghost nextTable: bv22)
    requires unit.Valid() && mem == Physical(unit.c, unit.RomView(), unit.Current().ram)
    requires mcause in {1, 5, 7} && effectivePrivilege <= 1 && nonlocal2 in {10, 20} && a == PageWalk.Address(table, 0)
    ensures var access, c := PageWalk.AccessOf(mcause), PageWalk.ContextOf(mstatus, effectivePrivilege);
            exit.Some? ==>
              exit.value == PageWalk.ExitOf(PageWalk.Walk(mem, table, if nonlocal2 == 10 then 0 else 1,
                                                          PageWalk.ParseVa(va),
                                                          access, c), access)
    ensures exit.None? ==> nonlocal2 == 20 && next == PageWalk.Address(nextTable, 0)
    ensures var access, c := PageWalk.AccessOf(mcause), PageWalk.ContextOf(mstatus, effectivePrivilege);
            exit.None? ==>
              PageWalk.Walk(mem, table, 1, PageWalk.ParseVa(va), access, c)
              == PageWalk.Walk(mem, nextTable, 0, PageWalk.ParseVa(va), access, c)
  {
    var address := PageWalk.EntryAddress(va, a, nonlocal2, table);
    ghost var vpn := if nonlocal2 == 10 then PageWalk.ParseVa(va).vpn0 else PageWalk.ParseVa(va).vpn1;
    ghost var i := EntryIndex(address, table, vpn);
    var result := LoadEntry(unit, address, i);
    exit, next, nextTable := PageWalk.WalkEntry(result, nonlocal2, mstatus, effectivePrivilege, va, mcause, mem, table);
  }

  /** translate_virtual_address from step 1 on. */
  method WalkTables(unit: MemoryUnit, satp: bv32, mstatus: bv32, effectivePrivilege: bv32, va: bv32, mcause: int)
      returns (r: PageWalk.Exit)
    requires unit.Valid() && mcause in {1, 5, 7} && effectivePrivilege <= 1
    ensures var access, c := PageWalk.AccessOf(mcause), PageWalk.ContextOf(mstatus, effectivePrivilege);
            r == PageWalk.ExitOf(PageWalk.Sv32(satp, Physical(unit.c, unit.RomView(), unit.Current().ram), va, access,
                                               c), access)
  {
    var a := PageWalk.RootTable(satp);
    var nonlocal2 := 20;
    ghost var mem := Physical(unit.c, unit.RomView(), unit.Current().ram);
    ghost var table := (satp & 0x3fffff) as bv22;
    ghost var access, c := PageWalk.AccessOf(mcause), PageWalk.ContextOf(mstatus, effectivePrivilege);
    while true
      invariant nonlocal2 in {10, 20} && a == PageWalk.Address(table, 0)
      invariant PageWalk.Sv32(satp, mem, va, access, c)
             == PageWalk.Walk(mem, table, if nonlocal2 == 10 then 0 else 1, PageWalk.ParseVa(va), access, c)
      decreases nonlocal2
    {
      var exit;
      exit, a, table := WalkLevel(unit, a, nonlocal2, mstatus, effectivePrivilege, va, mcause, mem, table);
      if exit.Some? {
        return exit.value;
      }
      nonlocal2 := 10;
    }
  }

  lemma SameContext(mstatus: bv32, mode: bv32)
    requires Privilege.IsMode(mode)
    ensures PageWalk.ContextOf(mstatus, mode) == ContextIn(Privilege.ParseStatus(mstatus), Privilege.ModeOf(mode))
  {
  }

  /** The space of a machine, as the worker holds it. */
  ghost function SpaceOf(unit: MemoryUnit, satp: bv32, mstatus: bv32, mode: bv32): Space
    requires unit.Valid()
    reads unit
  {
    Space(Physical(unit.c, unit.RomView(), unit.Current().ram), satp, Privilege.ParseStatus(mstatus),
          Privilege.ModeOf(mode))
  }

  /** translate_virtual_address: unchanged unless satp.MODE is set. */
  method TranslateVirtual(unit: MemoryUnit, satp: bv32, mstatus: bv32, mode: bv32, va: nat, mcause: int)
      returns (r: Located)
    requires unit.Valid() && mcause in {1, 5, 7} && mode <= 1
    ensures r == Locate(SpaceOf(unit, satp, mstatus, mode), va, PageWalk.AccessOf(mcause))
  {
    ghost var s, access := SpaceOf(unit, satp, mstatus, mode), PageWalk.AccessOf(mcause);
    if satp < 0x8000_0000 {
      BareLocated(s, va, access);
      return At(va);
    }
    var e := WalkTables(unit, satp, mstatus, mode, Privilege.Bits32(va), mcause);
    SameContext(mstatus, mode);
    WalkLocated(e, s, va, access);
    r := LocatedBy(e);
  }

  /** The conditional jump to it: M-mode addresses are physical. */
  method Translate(unit: MemoryUnit, satp: bv32, mstatus: bv32, mode: bv32, va: nat, mcause: int) returns (r: Located)
    requires unit.Valid() && mcause in {1, 5, 7} && Privilege.IsMode(mode)
    ensures r == Locate(SpaceOf(unit, satp, mstatus, mode), va, PageWalk.AccessOf(mcause))
  {
    if mode == 3 {
      BareLocated(SpaceOf(unit, satp, mstatus, mode), va, PageWalk.AccessOf(mcause));
      return At(va);
    }
    r := TranslateVirtual(unit, satp, mstatus, mode, va, mcause);
  }

  // --- pages and frames -------------------------------------------------------

  // A 32-bit address as its page number and its offset.

  lemma Joined(high: bv20, low: bv12)
    ensures (((high as bv32) << 12) | (low as bv32)) as int == 4096 * (high as int) + low as int
  {
  }

  lemma JoinedBits(ppn: bv22, offset: bv12)
    ensures (((ppn as bv34) << 12) | (offset as bv34)) as int == 4096 * (ppn as int) + offset as int
  {
  }

  lemma JoinedAs(a: bv34, ppn: bv22, offset: bv12)
    requires a == ((ppn as bv34) << 12) | (offset as bv34)
    ensures a as int == 4096 * (ppn as int) + offset as int
  {
    JoinedBits(ppn, offset);
  }

  function High(va: bv32): bv20 { (va >> 12) as bv20 }

  function Low(va: bv32): bv12 { (va & 0xfff) as bv12 }

  lemma Split(va: bv32)
    ensures va == ((High(va) as bv32) << 12) | (Low(va) as bv32)
  {
  }

  lemma PartsInt(va: bv32, high: bv20, low: bv12)
    requires va == ((high as bv32) << 12) | (low as bv32)
    ensures va as int == 4096 * (high as int) + low as int
  {
    Joined(high, low);
  }

  lemma SplitInt(va: bv32)
    ensures va as int == 4096 * (High(va) as int) + Low(va) as int
  {
    Split(va);
    PartsInt(va, High(va), Low(va));
  }

  lemma SamePageBits(va: bv32)
    ensures ((High(va) as bv32) << 12) >> 12 == va >> 12
  {
  }

  lemma OffsetBits(va: bv32)
    ensures PageWalk.ParseVa(va).offset == Low(va)
  {
  }

  /** What a virtual page is mapped to for instruction fetch. */
  datatype Frame = Frame(number: nat) | NoFrame(cause: nat)

  function Placed(frame: Frame, offset: nat): Located {
    match frame
    case Frame(n) => At(4096 * n + offset)
    case NoFrame(cause) => Fault(cause)
  }

  function FrameFrom(o: PageWalk.Outcome): Frame {
    match o
    case Page(ppn, _) => Frame(ppn as int)
    case PageFault => NoFrame(12)
    case AccessFault => NoFrame(1)
  }

  function FetchWalk(s: Space, va: bv32): PageWalk.Outcome {
    PageWalk.Sv32(s.satp, s.mem, va, PageWalk.Execute, ContextIn(s.status, s.mode))
  }

  lemma MovedPlaced(o1: PageWalk.Outcome, o2: PageWalk.Outcome, offset: bv12)
    requires PageWalk.Moved(o1, o2, offset)
    ensures LocatedBy(PageWalk.ExitOf(o2, PageWalk.Execute)) == Placed(FrameFrom(o1), offset as int)
  {
    match o1
    case Page(ppn, _) => PagePlaced(ppn, offset);
    case _ =>
  }

  lemma PagePlaced(ppn: bv22, offset: bv12)
    ensures LocatedBy(PageWalk.ExitOf(PageWalk.Page(ppn, offset), PageWalk.Execute))
         == Placed(Frame(ppn as int), offset as int)
  {
    AddressNumber(PageWalk.Address(ppn, offset), ppn, offset);
  }

  lemma AddressNumber(a: bv34, ppn: bv22, offset: bv12)
    requires a == PageWalk.Address(ppn, offset)
    ensures a as int == 4096 * (ppn as int) + offset as int
  {
    JoinedAs(a, ppn, offset);
  }

  lemma FetchAlike(s: Space, va1: bv32, va2: bv32, offset: bv12)
    requires va1 >> 12 == va2 >> 12 && PageWalk.ParseVa(va2).offset == offset
    ensures PageWalk.Moved(FetchWalk(s, va1), FetchWalk(s, va2), offset)
  {
    PageWalk.SamePageTranslation(s.satp, s.mem, va1, va2, PageWalk.Execute, ContextIn(s.status, s.mode));
  }

  lemma FetchMoved(s: Space, va: bv32)
    ensures PageWalk.Moved(FetchWalk(s, (High(va) as bv32) << 12), FetchWalk(s, va), Low(va))
  {
    SamePageBits(va);
    OffsetBits(va);
    FetchAlike(s, (High(va) as bv32) << 12, va, Low(va));
  }

  /** The frame of a page, by its number. */
  function WalkedFrame(s: Space, page: bv20): Frame { FrameFrom(FetchWalk(s, (page as bv32) << 12)) }

  lemma WalkedByPage(s: Space, va: bv32)
    ensures LocatedBy(PageWalk.ExitOf(FetchWalk(s, va), PageWalk.Execute))
         == Placed(WalkedFrame(s, High(va)), Low(va) as int)
  {
    FetchMoved(s, va);
    MovedPlaced(FetchWalk(s, (High(va) as bv32) << 12), FetchWalk(s, va), Low(va));
  }

  ghost predicate IsPage(page: int, b: bv20) { forall u: int :: Unfold(u) ==> page == b as int }

  lemma PageBits(page: int) returns (b: bv20)
    requires 0 <= page < 0x10_0000
    ensures IsPage(page, b)
  {
    b := (page % 0x10_0000) as bv20;
    PageBack(page);
  }

  lemma PageBack(page: int)
    requires 0 <= page < 0x10_0000
    ensures ((page % 0x10_0000) as bv20) as int == page
  {
  }

  lemma SameBits(a: bv20, b: bv20)
    requires a as int == b as int
    ensures a == b
  {
    BitsBack(a);
    BitsBack(b);
  }

  lemma BitsBack(a: bv20)
    ensures (a as int) as bv20 == a
  {
  }

  lemma PageOf(va: int, page: int, o: int, b: bv20)
    requires 0 <= page < 0x10_0000 && 0 <= o < 4096 && va == 4096 * page + o && IsPage(page, b)
    ensures High(Privilege.Bits32(va)) == b && Low(Privilege.Bits32(va)) as int == o
  {
    var v := Privilege.Bits32(va);
    Privilege.BitsRoundTrip(va);
    SplitInt(v);
    PartsUnique(page, o, High(v) as int, Low(v) as int);
    assert Unfold(0);
    SameBits(High(v), b);
  }

  lemma PartsUnique(p1: int, o1: int, p2: int, o2: int)
    requires 4096 * p1 + o1 == 4096 * p2 + o2 && 0 <= o1 < 4096 && 0 <= o2 < 4096
    ensures p1 == p2 && o1 == o2
  {
  }

  /** A page has one frame, or one fault, for all its addresses. */
  ghost predicate MapsPage(s: Space, page: nat, frame: Frame) {
    forall o :: 0 <= o < 4096 ==> Locate(s, 4096 * page + o, PageWalk.Execute) == Placed(frame, o)
  }

  lemma WalkedLocated(s: Space, page: nat, o: int, b: bv20)
    requires !Bare(s.satp, s.mode) && 0 <= page < 0x10_0000 && 0 <= o < 4096 && IsPage(page, b)
    ensures Locate(s, 4096 * page + o, PageWalk.Execute) == Placed(WalkedFrame(s, b), o)
  {
    var va := 4096 * page + o;
    PageOf(va, page, o, b);
    WalkedByPage(s, Privilege.Bits32(va));
    WalkLocated(PageWalk.ExitOf(FetchWalk(s, Privilege.Bits32(va)), PageWalk.Execute), s, va, PageWalk.Execute);
  }

  /** A page is mapped to exactly one frame or fault. */
  lemma PageHasFrame(s: Space, page: nat) returns (frame: Frame)
    requires 0 <= page < 0x10_0000
    ensures MapsPage(s, page, frame) && forall other :: MapsPage(s, page, other) ==> other == frame
  {
    frame := SomeFrame(s, page);
    forall other | MapsPage(s, page, other) ensures other == frame {
      FrameUnique(s, page, other, frame);
    }
  }

  lemma SomeFrame(s: Space, page: nat) returns (frame: Frame)
    requires 0 <= page < 0x10_0000
    ensures MapsPage(s, page, frame)
  {
    if Bare(s.satp, s.mode) {
      frame := Frame(page);
      forall o | 0 <= o < 4096 ensures Locate(s, 4096 * page + o, PageWalk.Execute) == Placed(frame, o) {
        BareLocated(s, 4096 * page + o, PageWalk.Execute);
      }
    } else {
      var b := PageBits(page);
      frame := WalkedFrame(s, b);
      forall o | 0 <= o < 4096 ensures Locate(s, 4096 * page + o, PageWalk.Execute) == Placed(frame, o) {
        WalkedLocated(s, page, o, b);
      }
    }
  }

  lemma FrameLocates(s: Space, va: nat, frame: Frame)
    requires MapsPage(s, va / 4096, frame)
    ensures Locate(s, va, PageWalk.Execute) == Placed(frame, va % 4096)
  {
    FrameLocatesAt(s, va / 4096, va % 4096, frame);
    assert va == 4096 * (va / 4096) + va % 4096;
  }

  lemma FrameLocatesAt(s: Space, page: nat, o: nat, frame: Frame)
    requires MapsPage(s, page, frame) && o < 4096
    ensures Locate(s, 4096 * page + o, PageWalk.Execute) == Placed(frame, o)
  {
  }

  lemma FrameUnique(s: Space, page: nat, f1: Frame, f2: Frame)
    requires MapsPage(s, page, f1) && MapsPage(s, page, f2)
    ensures f1 == f2
  {
    assert Placed(f1, 0) == Placed(f2, 0);
  }

  /** Only the mode matters for fetch, not the rest of mstatus. */
  lemma FetchIgnoresStatus(s1: Space, s2: Space, va: nat)
    requires s1 == s2.(status := s1.status)
    ensures Locate(s1, va, PageWalk.Execute) == Locate(s2, va, PageWalk.Execute)
  {
    if Bare(s1.satp, s1.mode) {
      BareLocated(s1, va, PageWalk.Execute);
      BareLocated(s2, va, PageWalk.Execute);
    } else {
      var v := Privilege.Bits32(va);
      SameFetchWalk(s1, s2, v);
      WalkLocated(PageWalk.ExitOf(FetchWalk(s1, v), PageWalk.Execute), s1, va, PageWalk.Execute);
      WalkLocated(PageWalk.ExitOf(FetchWalk(s2, v), PageWalk.Execute), s2, va, PageWalk.Execute);
    }
  }

  lemma SameFetchWalk(s1: Space, s2: Space, va: bv32)
    requires s1 == s2.(status := s1.status)
    ensures FetchWalk(s1, va) == FetchWalk(s2, va)
  {
    PageWalk.ExecuteIgnoresStatus(s1.mem, (s1.satp & 0x3fffff) as bv22, 1, PageWalk.ParseVa(va),
                                  ContextIn(s1.status, s1.mode), ContextIn(s2.status, s2.mode));
  }

  lemma FramesIgnoreStatus(s1: Space, s2: Space, page: nat, frame: Frame)
    requires s1 == s2.(status := s1.status) && MapsPage(s1, page, frame)
    ensures MapsPage(s2, page, frame)
  {
    forall o | 0 <= o < 4096 ensures Locate(s2, 4096 * page + o, PageWalk.Execute) == Placed(frame, o) {
      FetchIgnoresStatus(s1, s2, 4096 * page + o);
    }
  }
}
