/**
  Translation on the bits of page-table entries: which entries let an access
  through, and which address comes out.

  `Exit` follows section 4.3.2 of the RISC-V Privileged Architecture (20211203)
  entry word by entry word; `WalkMeans` says that the walk, and so the routine
  behind it, leaves in this way for every table, address, access and mode.
 */
module PageTables {
  import opened Options
  import opened Translation
  import PageWalk
  import Privilege

  // Flags of an entry: V 0x01, R 0x02, W 0x04, X 0x08, U 0x10, A 0x40, D 0x80.

  predicate Valid(w: bv32) { w & 0x01 != 0 && (w & 0x04 != 0 ==> w & 0x02 != 0) }

  predicate IsLeaf(w: bv32) { w & 0x02 != 0 || w & 0x08 != 0 }

  /** Fetches need X, loads R or, with MXR, X, and stores W and D. */
  predicate Reaches(w: bv32, mcause: int, mstatus: bv32) {
    && (mcause == 1 ==> w & 0x08 != 0)
    && (mcause == 5 ==> w & 0x02 != 0 || (mstatus & 0x80000 != 0 && w & 0x08 != 0))
    && (mcause == 7 ==> w & 0x04 != 0 && w & 0x80 != 0)
  }

  /** User mode needs U; supervisor mode needs U clear, or SUM for what is no fetch. */
  predicate Owned(w: bv32, mcause: int, mstatus: bv32, user: bool) {
    if user then w & 0x10 != 0 else w & 0x10 == 0 || (mstatus & 0x40000 != 0 && mcause != 1)
  }

  /** A leaf that lets the access through; superpages are aligned to 4 MiB. */
  predicate LetsThrough(w: bv32, mcause: int, mstatus: bv32, user: bool, superpage: bool) {
    && Valid(w) && IsLeaf(w) && Reaches(w, mcause, mstatus) && Owned(w, mcause, mstatus, user) && w & 0x40 != 0
    && (superpage ==> w & 0xffc00 == 0)
  }

  function PageFaultOf(mcause: int): PageWalk.Exit {
    PageWalk.Trap(if mcause == 1 then 12 else if mcause == 5 then 13 else 15)
  }

  function RootEntry(satp: bv32, va: bv32): bv34 {
    (((satp & 0x3f_ffff) as bv34) << 12) | (((va >> 22) as bv34) << 2)
  }

  function LastEntry(w: bv32, va: bv32): bv34 {
    (((w >> 10) as bv34) << 12) | ((((va >> 12) & 0x3ff) as bv34) << 2)
  }

  /** The end of a walk at a leaf: the address, if it fits 32 bits. */
  function LeafExit(w: bv32, va: bv32, mcause: nat, mstatus: bv32, user: bool, superpage: bool): PageWalk.Exit {
    if !LetsThrough(w, mcause, mstatus, user, superpage) then PageFaultOf(mcause)
    else if w & 0xc000_0000 != 0 then PageWalk.Trap(mcause)
    else if superpage then PageWalk.Return((((w >> 20) as bv34) << 22) | ((va & 0x3f_ffff) as bv34))
    else PageWalk.Return((((w >> 10) as bv34) << 12) | ((va & 0xfff) as bv34))
  }

  function LastExit(mem: PageWalk.Memory, table: bv32, va: bv32, mcause: nat, mstatus: bv32,
                    user: bool): PageWalk.Exit {
    match mem(LastEntry(table, va))
    case None => PageWalk.Trap(mcause)
    case Some(w) => LeafExit(w, va, mcause, mstatus, user, false)
  }

  /** How an access with this cause leaves the walk. */
  function Exit(satp: bv32, mem: PageWalk.Memory, va: bv32, mcause: nat, mstatus: bv32, user: bool): PageWalk.Exit {
    match mem(RootEntry(satp, va))
    case None => PageWalk.Trap(mcause)
    case Some(w) =>
      if Valid(w) && !IsLeaf(w) then LastExit(mem, w, va, mcause, mstatus, user)
      else LeafExit(w, va, mcause, mstatus, user, true)
  }

  // --- the walk ---------------------------------------------------------------

  lemma FlagsOf(w: bv32)
    ensures var p := PageWalk.ParsePte(w);
            && (p.v <==> w & 0x01 != 0) && (p.r <==> w & 0x02 != 0) && (p.w <==> w & 0x04 != 0)
            && (p.x <==> w & 0x08 != 0) && (p.u <==> w & 0x10 != 0) && (p.a <==> w & 0x40 != 0)
            && (p.d <==> w & 0x80 != 0) && (p.ppn0 != 0 <==> w & 0xffc00 != 0)
  {
  }

  lemma RootIs(satp: bv32, va: bv32)
    ensures PageWalk.Entry((satp & 0x3f_ffff) as bv22, PageWalk.ParseVa(va).vpn1) == RootEntry(satp, va)
  {
  }

  function NextTable(w: bv32): bv22 {
    PageWalk.PageNumber(PageWalk.ParsePte(w).ppn1, PageWalk.ParsePte(w).ppn0)
  }

  lemma LastIs(w: bv32, va: bv32)
    ensures PageWalk.Entry(NextTable(w), PageWalk.ParseVa(va).vpn0) == LastEntry(w, va)
  {
  }

  lemma PageIs(w: bv32, va: bv32)
    ensures var p, v := PageWalk.ParsePte(w), PageWalk.ParseVa(va);
            var ppn := PageWalk.PageNumber(p.ppn1, p.ppn0);
            && (ppn >= 0x10_0000 <==> w & 0xc000_0000 != 0)
            && PageWalk.Address(ppn, v.offset) == (((w >> 10) as bv34) << 12) | ((va & 0xfff) as bv34)
  {
  }

  lemma SuperpageIs(w: bv32, va: bv32)
    ensures var p, v := PageWalk.ParsePte(w), PageWalk.ParseVa(va);
            var ppn := PageWalk.PageNumber(p.ppn1, v.vpn0);
            && (ppn >= 0x10_0000 <==> w & 0xc000_0000 != 0)
            && PageWalk.Address(ppn, v.offset) == (((w >> 20) as bv34) << 22) | ((va & 0x3f_ffff) as bv34)
  {
  }

  /** What a walk for a cause and a mode is about. */
  function ExitFor(o: PageWalk.Outcome, mcause: int): PageWalk.Exit { PageWalk.ExitOf(o, PageWalk.AccessOf(mcause)) }

  lemma LeafMeans(w: bv32, va: bv32, mcause: nat, mstatus: bv32, privilege: bv32, superpage: bool)
    requires mcause in {1, 5, 7} && privilege <= 1 && Valid(w) && IsLeaf(w)
    ensures ExitFor(PageWalk.Leaf(PageWalk.ParsePte(w), if superpage then 1 else 0, PageWalk.ParseVa(va),
                                  PageWalk.AccessOf(mcause), PageWalk.ContextOf(mstatus, privilege)), mcause)
         == LeafExit(w, va, mcause, mstatus, privilege == 0, superpage)
  {
    FlagsOf(w);
    PageIs(w, va);
    SuperpageIs(w, va);
  }

  lemma LastMeans(mem: PageWalk.Memory, table: bv32, va: bv32, mcause: nat, mstatus: bv32, privilege: bv32)
    requires mcause in {1, 5, 7} && privilege <= 1
    ensures ExitFor(PageWalk.Walk(mem, NextTable(table), 0, PageWalk.ParseVa(va),
                                  PageWalk.AccessOf(mcause), PageWalk.ContextOf(mstatus, privilege)), mcause)
         == LastExit(mem, table, va, mcause, mstatus, privilege == 0)
  {
    LastIs(table, va);
    match mem(LastEntry(table, va))
    case None =>
    case Some(w) =>
      FlagsOf(w);
      if Valid(w) && IsLeaf(w) {
        LeafMeans(w, va, mcause, mstatus, privilege, false);
      }
  }

  /** Every walk ends as its entries say. */
  lemma WalkMeans(satp: bv32, mem: PageWalk.Memory, va: bv32, mcause: nat, mstatus: bv32, privilege: bv32)
    requires mcause in {1, 5, 7} && privilege <= 1
    ensures ExitFor(PageWalk.Sv32(satp, mem, va, PageWalk.AccessOf(mcause), PageWalk.ContextOf(mstatus, privilege)),
                    mcause)
         == Exit(satp, mem, va, mcause, mstatus, privilege == 0)
  {
    RootIs(satp, va);
    match mem(RootEntry(satp, va))
    case None =>
    case Some(w) =>
      FlagsOf(w);
      if Valid(w) && IsLeaf(w) {
        LeafMeans(w, va, mcause, mstatus, privilege, true);
      } else if Valid(w) {
        LastMeans(mem, w, va, mcause, mstatus, privilege);
      }
  }

  /** A root entry that is a pointer with D, A or U set: the manual reserves these bits for pointers. */
  predicate ReservedPointer(satp: bv32, mem: PageWalk.Memory, va: bv32) {
    match mem(RootEntry(satp, va))
    case None => false
    case Some(w) => Valid(w) && !IsLeaf(w) && w & 0xd0 != 0
  }

  lemma ReservedFlags(w: bv32)
    ensures PageWalk.ReservedSet(PageWalk.ParsePte(w)) <==> w & 0xd0 != 0
  {
  }

  /** The manual's walk is the same, except that such a pointer is a page fault. */
  lemma StrictMeans(satp: bv32, mem: PageWalk.Memory, va: bv32, mcause: nat, mstatus: bv32, privilege: bv32)
    requires mcause in {1, 5, 7} && privilege <= 1
    ensures ExitFor(PageWalk.StrictSv32(satp, mem, va, PageWalk.AccessOf(mcause),
                                        PageWalk.ContextOf(mstatus, privilege)), mcause)
         == if ReservedPointer(satp, mem, va) then PageFaultOf(mcause)
            else Exit(satp, mem, va, mcause, mstatus, privilege == 0)
  {
    RootIs(satp, va);
    WalkMeans(satp, mem, va, mcause, mstatus, privilege);
    match mem(RootEntry(satp, va))
    case None =>
    case Some(w) =>
      FlagsOf(w);
      ReservedFlags(w);
      PageWalk.StrictLastLevel(mem, NextTable(w), PageWalk.ParseVa(va), PageWalk.AccessOf(mcause),
                               PageWalk.ContextOf(mstatus, privilege));
  }

  /** Translation goes where the entries say, with the mode and mstatus; in M-mode and without satp.MODE addresses are
      physical. */
  lemma LocateMeans(s: Space, va: nat, mcause: nat)
    requires mcause in {1, 5, 7}
    ensures Locate(s, va, PageWalk.AccessOf(mcause))
         == if s.mode == Privilege.Machine || s.satp & 0x8000_0000 == 0 then At(va)
            else LocatedBy(Exit(s.satp, s.mem, Privilege.Bits32(va), mcause, Privilege.Encode(s.status),
                                s.mode == Privilege.User))
  {
    ModeBit(s.satp);
    var access := PageWalk.AccessOf(mcause);
    if Bare(s.satp, s.mode) {
      BareLocated(s, va, access);
    } else {
      VirtualMeans(s, va, mcause, if s.mode == Privilege.User then 0 else 1);
    }
  }

  lemma ModeBit(satp: bv32)
    ensures satp < 0x8000_0000 <==> satp & 0x8000_0000 == 0
  {
  }

  lemma VirtualMeans(s: Space, va: nat, mcause: nat, privilege: bv32)
    requires mcause in {1, 5, 7} && !Bare(s.satp, s.mode) && privilege <= 1
    requires Privilege.ModeOf(privilege) == s.mode
    ensures Locate(s, va, PageWalk.AccessOf(mcause))
         == LocatedBy(Exit(s.satp, s.mem, Privilege.Bits32(va), mcause, Privilege.Encode(s.status), privilege == 0))
  {
    var mstatus, v := Privilege.Encode(s.status), Privilege.Bits32(va);
    Privilege.ParseEncode(s.status);
    SameContext(mstatus, privilege);
    WalkMeans(s.satp, s.mem, v, mcause, mstatus, privilege);
    WalkLocated(Exit(s.satp, s.mem, v, mcause, mstatus, privilege == 0), s, va, PageWalk.AccessOf(mcause));
  }

  // --- the offset -------------------------------------------------------------

  lemma {:induction false} WalkOffset(mem: PageWalk.Memory, table: bv22, level: nat, va: PageWalk.VirtualAddress,
                                      access: PageWalk.Access, c: PageWalk.Context)
    ensures var o := PageWalk.Walk(mem, table, level, va, access, c);
            o.Page? ==> o.offset == va.offset
    decreases level
  {
    match mem(PageWalk.Entry(table, if level == 0 then va.vpn0 else va.vpn1))
    case None =>
    case Some(w) =>
      if level > 0 {
        WalkOffset(mem, NextTable(w), level - 1, va, access, c);
      }
  }

  lemma PageOffset(ppn: bv22, offset: bv12, a: int)
    requires PageWalk.Address(ppn, offset) as int == a
    ensures a % 4096 == offset as int
  {
    AddressNumber(PageWalk.Address(ppn, offset), ppn, offset);
    OffsetRest(ppn as int, offset as int);
  }

  lemma OffsetRest(page: int, offset: int)
    requires 0 <= offset < 4096
    ensures (4096 * page + offset) % 4096 == offset
  {
  }

  lemma LowOffset(va: int, v: bv32)
    requires v as int == va
    ensures va % 4096 == PageWalk.ParseVa(v).offset as int
  {
    SplitInt(v);
    OffsetBits(v);
    OffsetRest(High(v) as int, Low(v) as int);
  }

  /** Translation keeps the offset in the page. */
  lemma OffsetKept(s: Space, va: nat, access: PageWalk.Access, a: nat)
    requires va < 0x1_0000_0000 && Locate(s, va, access) == At(a)
    ensures a % 4096 == va % 4096
  {
    if Bare(s.satp, s.mode) {
      BareLocated(s, va, access);
    } else {
      var v, c := Privilege.Bits32(va), ContextIn(s.status, s.mode);
      var o := PageWalk.Sv32(s.satp, s.mem, v, access, c);
      WalkLocated(PageWalk.ExitOf(o, access), s, va, access);
      WalkOffset(s.mem, (s.satp & 0x3f_ffff) as bv22, 1, PageWalk.ParseVa(v), access, c);
      Privilege.BitsRoundTrip(va);
      LowOffset(va, v);
      PageOffset(o.ppn, o.offset, a);
    }
  }
}
