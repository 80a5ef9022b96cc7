/**
  Sv32 address translation.

  The worker's routine tests page-table entries with bit masks and with two lookup
  strings; its parts are here, and `Translation` runs them over the memory unit.
  `Sv32` is section 4.3.2 of the RISC-V Privileged Architecture (version 20211203)
  with Svade, step by step over the named fields of an entry, but for the reserved
  bits of pointers (`StrictSv32`).

  Every value the routine computes fits in the 34 bits of a physical address, so
  mlog's integers are `bv34` here.
 */
module PageWalk {
  import opened Options

  datatype Access = Execute | Load | Store

  /** Physical memory as the walk sees it: a word, or an access fault. */
  type Memory = bv34 -> Option<bv32>

  // --- the architecture -------------------------------------------------------

  datatype VirtualAddress = VA(vpn1: bv10, vpn0: bv10, offset: bv12)

  function ParseVa(va: bv32): VirtualAddress {
    VA((va >> 22) as bv10, ((va >> 12) & 0x3ff) as bv10, (va & 0xfff) as bv12)
  }

  datatype Pte = Pte(v: bool, r: bool, w: bool, x: bool, u: bool, a: bool, d: bool, ppn0: bv10, ppn1: bv12)

  function ParsePte(p: bv32): Pte {
    Pte(p & 0x1 != 0, p & 0x2 != 0, p & 0x4 != 0, p & 0x8 != 0, p & 0x10 != 0, p & 0x40 != 0, p & 0x80 != 0,
        ((p >> 10) & 0x3ff) as bv10, (p >> 20) as bv12)
  }

  function PageNumber(ppn1: bv12, ppn0: bv10): bv22 { ((ppn1 as bv22) << 10) | (ppn0 as bv22) }

  /** A page number and an offset make a physical address. */
  function Address(ppn: bv22, offset: bv12): bv34 { ((ppn as bv34) << 12) | (offset as bv34) }

  /** Address of an entry of the table in page `ppn`. */
  function Entry(ppn: bv22, vpn: bv10): bv34 { Address(ppn, (vpn as bv12) << 2) }

  /** The mode and the mstatus bits a translation depends on. */
  datatype Context = Context(user: bool, sum: bool, mxr: bool)

  datatype Outcome = Page(ppn: bv22, offset: bv12) | PageFault | AccessFault

  /** Step 5: the permission bits, with SUM and MXR. */
  predicate Permitted(pte: Pte, access: Access, c: Context) {
    && (match access
        case Execute => pte.x
        case Load => pte.r || (c.mxr && pte.x)
        case Store => pte.w)
    && (if c.user then pte.u else !pte.u || (c.sum && access != Execute))
  }

  /** Steps 5 to 8 for a leaf; the last test is this machine's 32-bit limit on physical addresses. */
  function Leaf(pte: Pte, level: nat, va: VirtualAddress, access: Access, c: Context): Outcome {
    var ppn := PageNumber(pte.ppn1, if level == 0 then pte.ppn0 else va.vpn0);
    if !Permitted(pte, access, c) then PageFault
    else if level > 0 && pte.ppn0 != 0 then PageFault
    else if !pte.a || (access == Store && !pte.d) then PageFault
    else if ppn >= 0x10_0000 then AccessFault
    else Page(ppn, va.offset)
  }

  /** Steps 2 to 8 at one level of the tree. */
  function Walk(mem: Memory, table: bv22, level: nat, va: VirtualAddress, access: Access, c: Context): Outcome
    decreases level
  {
    match mem(Entry(table, if level == 0 then va.vpn0 else va.vpn1))
    case None => AccessFault
    case Some(word) =>
      var pte := ParsePte(word);
      if !pte.v || (!pte.r && pte.w) then PageFault
      else if pte.r || pte.x then Leaf(pte, level, va, access, c)
      else if level == 0 then PageFault
      else Walk(mem, PageNumber(pte.ppn1, pte.ppn0), level - 1, va, access, c)
  }

  /** Section 4.3.2 when satp.MODE is 1. */
  function Sv32(satp: bv32, mem: Memory, va: bv32, access: Access, c: Context): Outcome {
    Walk(mem, (satp & 0x3fffff) as bv22, 1, ParseVa(va), access, c)
  }

  // --- the routine ------------------------------------------------------------

  /** How the routine leaves: back to the caller, or into the trap routine with a cause. */
  datatype Exit = Return(address: bv34) | Trap(mcause: nat)

  /** The 80-character string of step 3: '1' at the indices of the valid a00xwrv patterns. */
  function ValidPattern(index: bv32): char {
    if index == 1 || index == 65 || index == 67 || index == 71 || index == 73 || index == 75 || index == 79
    then '1' else '0'
  }

  /** The string "_88__2:44", which holds the rwx mask of each access type. */
  function MaskCharacter(index: int): bv32 {
    if index == 1 || index == 2 then 0x38
    else if index == 5 then 0x32
    else if index == 6 then 0x3a
    else if index == 7 || index == 8 then 0x34
    else 0x5f
  }

  function AccessOf(mcause: int): Access {
    if mcause == 1 then Execute else if mcause == 5 then Load else Store
  }

  function ContextOf(mstatus: bv32, effectivePrivilege: bv32): Context {
    Context(effectivePrivilege == 0, mstatus & 0x40000 != 0, mstatus & 0x80000 != 0)
  }

  /** The architecture's cause codes, and the address it returns. */
  function ExitOf(o: Outcome, access: Access): Exit {
    match o
    case Page(ppn, offset) => Return(Address(ppn, offset))
    case PageFault => Trap(match access case Execute => 12 case Load => 13 case Store => 15)
    case AccessFault => Trap(match access case Execute => 1 case Load => 5 case Store => 7)
  }

  /** The page-fault exit: 1, 5, 7 become 12, 13, 15. */
  method RaisePageFault(mcause: int) returns (r: Exit)
    requires mcause in {1, 5, 7}
    ensures r == ExitOf(PageFault, AccessOf(mcause))
  {
    var cause := mcause + 8;
    cause := if cause < 12 then 12 else cause;
    r := Trap(cause);
  }

  // Bit-level facts, stated over the fields they test.

  lemma PrivilegeBits(p: bv32, privilege: bv32)
    requires privilege <= 1
    ensures var uPriv := (p & 0x10) | privilege;
            && (uPriv == 0 <==> privilege == 0 && !ParsePte(p).u)
            && (uPriv == 0x11 <==> privilege == 1 && ParsePte(p).u)
  {
  }

  lemma AccessBits(p: bv32)
    ensures var pte, dxwr := ParsePte(p), p & 0x8e;
            && (dxwr & 0x38 != 0 <==> pte.x)
            && (dxwr & 0x32 != 0 <==> pte.r)
            && (dxwr & 0x3a != 0 <==> pte.r || pte.x)
            && (dxwr & 0x34 != 0 <==> pte.w)
            && (dxwr < 0x80 <==> !pte.d)
            && (p & 0xffc00 != 0 <==> pte.ppn0 != 0)
  {
  }

  lemma StatusBits(mstatus: bv32)
    ensures (mstatus >> 19) & 0x1 == 0 <==> mstatus & 0x80000 == 0
  {
  }

  lemma SmallPageBits(pte: bv32, va: bv32)
    ensures var p, v := ParsePte(pte), ParseVa(va);
            && ((pte as bv34) << 2 > 0xffff_ffff <==> PageNumber(p.ppn1, p.ppn0) >= 0x10_0000)
            && ((pte as bv34) << 2 <= 0xffff_ffff ==>
                  ((va as bv34) & 0xfff) | (((pte as bv34) << 2) & 0xffff_f000)
                  == Address(PageNumber(p.ppn1, p.ppn0), v.offset))
  {
  }

  lemma SuperpageBits(pte: bv32, va: bv32)
    ensures var p, v := ParsePte(pte), ParseVa(va);
            && ((pte as bv34) << 2 > 0xffff_ffff <==> PageNumber(p.ppn1, v.vpn0) >= 0x10_0000)
            && ((pte as bv34) << 2 <= 0xffff_ffff ==>
                  ((va as bv34) & 0x3fffff) | (((pte as bv34) << 2) & 0xffc0_0000)
                  == Address(PageNumber(p.ppn1, v.vpn0), v.offset))
  {
  }

  /** Steps 5 to 7, as bit tests on the entry: false means a page fault. */
  method CheckLeaf(result: bv32, mcause: int, mstatus: bv32, effectivePrivilege: bv32, nonlocal2: int)
      returns (ok: bool)
    requires mcause in {1, 5, 7} && effectivePrivilege <= 1 && nonlocal2 in {10, 20}
    ensures var p, access := ParsePte(result), AccessOf(mcause);
            ok <==> && Permitted(p, access, ContextOf(mstatus, effectivePrivilege))
                    && !(nonlocal2 == 20 && p.ppn0 != 0)
                    && !(access == Store && !p.d)
  {
    PrivilegeBits(result, effectivePrivilege);
    AccessBits(result);
    StatusBits(mstatus);
    var uPriv := (result & 0x10) | effectivePrivilege;
    if uPriv == 0 {
      return false;
    }
    if mcause == 1 || mstatus & 0x40000 == 0 {
      if uPriv == 0x11 {
        return false;
      }
    }
    var dxwr := result & 0x8e;
    var mxr := if (mstatus >> 19) & 0x1 == 0 then 0 else 1;
    var mask := MaskCharacter(mcause + mxr);
    mask := dxwr & mask;
    if mask == 0 {
      return false;
    }
    if nonlocal2 != 10 {
      if result & 0xffc00 != 0 {
        return false;
      }
    }
    if mcause == 7 && dxwr < 0x80 {
      return false;
    }
    return true;
  }

  /** Step 8: the physical address, or an access fault when it does not fit in 32 bits. */
  method LeafAddress(pte: bv32, va: bv32, mcause: nat, nonlocal2: int) returns (r: Exit)
    requires nonlocal2 in {10, 20}
    ensures var p, v := ParsePte(pte), ParseVa(va);
            var ppn := PageNumber(p.ppn1, if nonlocal2 == 10 then p.ppn0 else v.vpn0);
            r == if ppn >= 0x10_0000 then Trap(mcause) else Return(Address(ppn, v.offset))
  {
    if nonlocal2 == 10 {
      SmallPageBits(pte, va);
    } else {
      SuperpageBits(pte, va);
    }
    if (pte as bv34) << 2 > 0xffff_ffff {
      return Trap(mcause);
    }
    if nonlocal2 > 10 {
      return Return(((va as bv34) & 0x3fffff) | (((pte as bv34) << 2) & 0xffc0_0000));
    }
    return Return(((va as bv34) & 0xfff) | (((pte as bv34) << 2) & 0xffff_f000));
  }

  /** Steps 5 to 8 for a valid leaf whose A bit is set. */
  method FinishLeaf(result: bv32, va: bv32, mcause: int, mstatus: bv32, effectivePrivilege: bv32, nonlocal2: int)
      returns (r: Exit)
    requires mcause in {1, 5, 7} && effectivePrivilege <= 1 && nonlocal2 in {10, 20} && ParsePte(result).a
    ensures var access, c := AccessOf(mcause), ContextOf(mstatus, effectivePrivilege);
            var level := if nonlocal2 == 10 then 0 else 1;
            r == ExitOf(Leaf(ParsePte(result), level, ParseVa(va), access, c), access)
  {
    var ok := CheckLeaf(result, mcause, mstatus, effectivePrivilege, nonlocal2);
    if ok {
      r := LeafAddress(result, va, mcause, nonlocal2);
    } else {
      r := RaisePageFault(mcause);
    }
  }

  /** Step 2: the address of the next entry. */
  method EntryAddress(va: bv32, a: bv34, nonlocal2: int, ghost table: bv22) returns (address: bv34)
    requires nonlocal2 in {10, 20} && a == Address(table, 0)
    ensures address == Entry(table, if nonlocal2 == 10 then ParseVa(va).vpn0 else ParseVa(va).vpn1)
  {
    address := if nonlocal2 == 20 then (va as bv34) >> 20 else (va as bv34) >> 10;
    address := address & 0xffc;
    address := address + a;
  }

  method RootTable(satp: bv32) returns (a: bv34)
    ensures a == Address((satp & 0x3fffff) as bv22, 0)
  {
    a := (satp as bv34) & 0x3fffff;
    a := a * 4096;
  }

  lemma TableBits(p: bv32)
    ensures ((p as bv34) & 0xfffffc00) << 2 == Address(PageNumber(ParsePte(p).ppn1, ParsePte(p).ppn0), 0)
  {
  }

  /** Step 4: the table a pointer leads to. */
  method NextTable(result: bv32) returns (a: bv34)
    ensures a == Address(PageNumber(ParsePte(result).ppn1, ParsePte(result).ppn0), 0)
  {
    TableBits(result);
    a := (result as bv34) & 0xfffffc00;
    a := a << 2;
  }

  /** Step 3, with the A bit of step 7 checked early, and the leaf test of step 4. */
  method Classify(result: bv32) returns (valid: bool, leaf: bool)
    ensures var p := ParsePte(result);
            && (valid <==> p.v && !(!p.r && p.w) && (p.r || p.x ==> p.a))
            && (leaf <==> p.r || p.x)
  {
    valid := ValidPattern(result & 0x4f) == '1';
    leaf := result & 0xa != 0;
  }

  /** One round of the loop, once the entry is loaded: the exit it takes, or the table it goes on with. */
  method WalkEntry(result: Option<bv32>, nonlocal2: int, mstatus: bv32, effectivePrivilege: bv32, va: bv32, mcause: int,
                   ghost mem: Memory, ghost table: bv22)
      returns (exit: Option<Exit>, next: bv34, ghost nextTable: bv22)
    requires mcause in {1, 5, 7} && effectivePrivilege <= 1 && nonlocal2 in {10, 20}
    requires result == mem(Entry(table, if nonlocal2 == 10 then ParseVa(va).vpn0 else ParseVa(va).vpn1))
    ensures var access, c := AccessOf(mcause), ContextOf(mstatus, effectivePrivilege);
            exit.Some? ==>
              exit.value == ExitOf(Walk(mem, table, if nonlocal2 == 10 then 0 else 1, ParseVa(va), access, c), access)
    ensures exit.None? ==> nonlocal2 == 20 && next == Address(nextTable, 0)
    ensures var access, c := AccessOf(mcause), ContextOf(mstatus, effectivePrivilege);
            exit.None? ==>
              Walk(mem, table, 1, ParseVa(va), access, c) == Walk(mem, nextTable, 0, ParseVa(va), access, c)
  {
    next, nextTable := 0, table;
    var r;
    if result == None {
      return Some(Trap(mcause)), next, nextTable;
    }
    var valid, leaf := Classify(result.value);
    if !valid || (!leaf && nonlocal2 != 20) {
      r := RaisePageFault(mcause);
      return Some(r), next, nextTable;
    }
    if leaf {
      r := FinishLeaf(result.value, va, mcause, mstatus, effectivePrivilege, nonlocal2);
      return Some(r), next, nextTable;
    }
    next := NextTable(result.value);
    nextTable := PageNumber(ParsePte(result.value).ppn1, ParsePte(result.value).ppn0);
    exit := None;
  }

  // --- what the rest of the worker relies on ----------------------------------

  /**
    Two addresses of one page are translated alike: the same fault, or the same
    frame with each address's own offset.  Instruction fetch relies on this when it
    stays inside a page without translating again.
   */
  lemma {:induction false} SamePageSameFrame(mem: Memory, table: bv22, level: nat, va1: VirtualAddress,
                                             va2: VirtualAddress,
                                             access: Access, c: Context)
    requires level <= 1 && va1.vpn1 == va2.vpn1 && va1.vpn0 == va2.vpn0
    ensures var r1, r2 := Walk(mem, table, level, va1, access, c), Walk(mem, table, level, va2, access, c);
            if r1.Page? then r1.offset == va1.offset && r2 == Page(r1.ppn, va2.offset) else r2 == r1
    decreases level
  {
    match mem(Entry(table, if level == 0 then va1.vpn0 else va1.vpn1))
    case None =>
    case Some(word) =>
      var pte := ParsePte(word);
      if level == 1 {
        SamePageSameFrame(mem, PageNumber(pte.ppn1, pte.ppn0), 0, va1, va2, access, c);
      }
  }

  lemma SamePageFields(va1: bv32, va2: bv32)
    requires va1 >> 12 == va2 >> 12
    ensures ParseVa(va1).vpn1 == ParseVa(va2).vpn1 && ParseVa(va1).vpn0 == ParseVa(va2).vpn0
  {
  }

  /** The outcome at another offset of the same page. */
  predicate Moved(o1: Outcome, o2: Outcome, offset: bv12) { if o1.Page? then o2 == Page(o1.ppn, offset) else o2 == o1 }

  /** The same for whole translations: with satp and the page tables fixed, a page has one frame or one fault. */
  lemma SamePageTranslation(satp: bv32, mem: Memory, va1: bv32, va2: bv32, access: Access, c: Context)
    requires va1 >> 12 == va2 >> 12
    ensures Moved(Sv32(satp, mem, va1, access, c), Sv32(satp, mem, va2, access, c), ParseVa(va2).offset)
  {
    SamePageFields(va1, va2);
    SamePageSameFrame(mem, (satp & 0x3fffff) as bv22, 1, ParseVa(va1), ParseVa(va2), access, c);
  }

  /** SUM and MXR do not matter for instruction fetch. */
  lemma {:induction false} ExecuteIgnoresStatus(mem: Memory, table: bv22, level: nat, va: VirtualAddress, c1: Context,
                                                c2: Context)
    requires level <= 1 && c1.user == c2.user
    ensures Walk(mem, table, level, va, Execute, c1) == Walk(mem, table, level, va, Execute, c2)
    decreases level
  {
    match mem(Entry(table, if level == 0 then va.vpn0 else va.vpn1))
    case None =>
    case Some(word) =>
      var pte := ParsePte(word);
      if level == 1 {
        ExecuteIgnoresStatus(mem, PageNumber(pte.ppn1, pte.ppn0), 0, va, c1, c2);
      }
  }

  // --- the reserved bits of pointers ------------------------------------------

  /** D, A and U are reserved in an entry that points to a table. */
  predicate ReservedSet(pte: Pte) { pte.d || pte.a || pte.u }

  predicate IsPointer(pte: Pte) { pte.v && !pte.r && !pte.w && !pte.x }

  /** The walk with all of step 3: a pointer with a reserved bit set is a page fault too. */
  function StrictWalk(mem: Memory, table: bv22, level: nat, va: VirtualAddress, access: Access, c: Context): Outcome
    decreases level
  {
    match mem(Entry(table, if level == 0 then va.vpn0 else va.vpn1))
    case None => AccessFault
    case Some(word) =>
      var pte := ParsePte(word);
      if !pte.v || (!pte.r && pte.w) then PageFault
      else if pte.r || pte.x then Leaf(pte, level, va, access, c)
      else if ReservedSet(pte) || level == 0 then PageFault
      else StrictWalk(mem, PageNumber(pte.ppn1, pte.ppn0), level - 1, va, access, c)
  }

  function StrictSv32(satp: bv32, mem: Memory, va: bv32, access: Access, c: Context): Outcome {
    StrictWalk(mem, (satp & 0x3fffff) as bv22, 1, ParseVa(va), access, c)
  }

  /** The root entry that a translation reads. */
  function RootEntry(satp: bv32, mem: Memory, va: bv32): Option<bv32> {
    mem(Entry((satp & 0x3fffff) as bv22, ParseVa(va).vpn1))
  }

  /** The root entry is a pointer with a reserved bit set. */
  predicate ReservedRoot(satp: bv32, mem: Memory, va: bv32) {
    var root := RootEntry(satp, mem, va);
    root.Some? && IsPointer(ParsePte(root.value)) && ReservedSet(ParsePte(root.value))
  }

  /** At the last level a pointer is a fault anyway. */
  lemma StrictLastLevel(mem: Memory, table: bv22, va: VirtualAddress, access: Access, c: Context)
    ensures StrictWalk(mem, table, 0, va, access, c) == Walk(mem, table, 0, va, access, c)
  {
  }

  /** An entry of the last level that does not grant the access: not valid, write without read, a pointer, no
      permission, A clear, or D clear for a store. */
  predicate Refuses(pte: Pte, access: Access, c: Context) {
    || !pte.v || (!pte.r && pte.w) || IsPointer(pte)
    || !Permitted(pte, access, c) || !pte.a || (access == Store && !pte.d)
  }

  lemma RefusedLast(mem: Memory, table: bv22, va: VirtualAddress, access: Access, c: Context)
    ensures var last := mem(Entry(table, va.vpn0));
            Walk(mem, table, 0, va, access, c) == PageFault <==> last.Some? && Refuses(ParsePte(last.value), access, c)
  {
  }

  /** The entry of the second table, where the root entry points to it. */
  function LastEntry(satp: bv32, mem: Memory, va: bv32): Option<bv32>
    requires RootEntry(satp, mem, va).Some?
  {
    var root := ParsePte(RootEntry(satp, mem, va).value);
    mem(Entry(PageNumber(root.ppn1, root.ppn0), ParseVa(va).vpn0))
  }

  /** The entry of the second table is there and refuses the access. */
  predicate LastRefuses(satp: bv32, mem: Memory, va: bv32, access: Access, c: Context)
    requires RootEntry(satp, mem, va).Some?
  {
    var last := LastEntry(satp, mem, va);
    last.Some? && Refuses(ParsePte(last.value), access, c)
  }

  /** The routine does what section 4.3.2 says exactly if the root entry is no pointer with a reserved bit set, or the
      entry that it points to refuses the access anyway. */
  lemma StrictIff(satp: bv32, mem: Memory, va: bv32, access: Access, c: Context)
    ensures StrictSv32(satp, mem, va, access, c) == Sv32(satp, mem, va, access, c)
       <==> (ReservedRoot(satp, mem, va) ==> LastRefuses(satp, mem, va, access, c))
  {
    var root := RootEntry(satp, mem, va);
    if root.Some? {
      var pte := ParsePte(root.value);
      StrictLastLevel(mem, PageNumber(pte.ppn1, pte.ppn0), ParseVa(va), access, c);
      RefusedLast(mem, PageNumber(pte.ppn1, pte.ppn0), ParseVa(va), access, c);
    }
  }

  /** Two tables that map page 0 to frame 3: the root entry is a pointer with A set. */
  function ReservedTables(): Memory {
    (a: bv34) => if a == 0x1000 then Some(0x841 as bv32) else if a == 0x2000 then Some(0xccf as bv32) else None
  }

  /** There the two differ: the routine returns an address where a page fault is due. */
  lemma ReservedAccepted()
    ensures Sv32(0x8000_0001, ReservedTables(), 0, Load, Context(false, false, false)) == Page(3, 0)
    ensures StrictSv32(0x8000_0001, ReservedTables(), 0, Load, Context(false, false, false)) == PageFault
  {
    var va := ParseVa(0);
    assert Entry(1, va.vpn1) == 0x1000;
    var root := ParsePte(0x841);
    assert IsPointer(root) && ReservedSet(root) && PageNumber(root.ppn1, root.ppn0) == 2;
    assert Entry(2, va.vpn0) == 0x2000;
    assert Walk(ReservedTables(), 2, 0, va, Load, Context(false, false, false)) == Page(3, 0);
  }
}
