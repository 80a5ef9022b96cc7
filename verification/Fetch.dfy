/**
  Instruction fetch.

  The worker fetches through a variable name that it keeps from one instruction to
  the next: the cache slot of the pc.  The methods here are proved for any frame of
  the pc's page; `Worker` says which frame that is.
 */
module Fetch {
  import opened Options
  import opened AddressMap
  import opened LookupTables
  import opened Decoder
  import opened Memory
  import opened LoadStore
  import opened Translation

  datatype Fields = Fields(opId: bv7, imm: bv32, rd: bv32, rs1: bv32, rs2: bv32)

  datatype Fetched = Fetched(fields: Fields) | FetchFault(cause: nat)

  /** The fields are a correct decoding of `w`. */
  predicate Fits(f: Fields, w: bv32) {
    Decodes(w, f.opId, f.imm) && (f.opId != ILLEGAL ==> f.rd == Rd(w) && f.rs1 == Rs1(w) && f.rs2 == Rs2(w))
  }

  /** `Fits`, kept folded like `Cached`. */
  ghost predicate Decoded(f: Fields, w: bv32) { forall k: int :: Unfold(k) ==> Fits(f, w) }

  /** What a fetch gives for the word at the translated pc, if there is one. */
  ghost predicate FetchedWord(word: Option<bv32>, r: Fetched) {
    match word
    case None => r == FetchFault(1)
    case Some(w) => r.Fetched? && Decoded(r.fields, w)
  }

  // --- pages and cache slots --------------------------------------------------

  /** Cache page of a physical frame: the position of its slots, in pages of 1024 words. */
  function CachePage(c: Config, frame: int): int {
    if frame < 0x80000 then 4 * c.ram + frame else 4 * c.ram + 4 * c.programRom + (frame - 0x80000)
  }

  /** Every word of the frame has a slot that is in use. */
  predicate CoveredFrame(c: Config, decoded: int, frame: int) {
    0 <= frame < decoded || 0 <= frame - 0x80000 < 4 * RamCoveredProcs(c)
  }

  /** Slot `o` of a cache page: its processor and its name. */
  function PageCell(c: Config, page: int, o: int): Cell
    requires 0 < c.width
  {
    var proc := page / 4 + (c.programRom + c.dataRom);
    Cell(ProcX(c, proc), ProcY(c, proc), VariableName(1024 * (page % 4) + o))
  }

  lemma PagePosition(page: int, o: int)
    requires 0 <= o < 1024
    ensures (1024 * page + o) / 4096 == page / 4 && (1024 * page + o) % 4096 == 1024 * (page % 4) + o
  {
  }

  lemma PageCellIsWordCell(c: Config, page: int, o: int)
    requires 0 < c.width && 0 <= o < 1024
    ensures WordCell(c, 1024 * page + o) == PageCell(c, page, o)
  {
    PagePosition(page, o);
  }

  /** The key of `NamesSlot`. */
  predicate Slotting(k: int) { true }

  /** A non-null name and its processor are slot `o` of the cache page of a frame; kept folded. */
  ghost predicate NamesSlot(c: Config, decoded: int, frame: Frame, o: int, name: Option<Name>, tile: (int, int))
    requires 0 < c.width
  {
    name.Some? ==>
      && frame.Frame?
      && forall k: int :: Slotting(k) ==>
           && CoveredFrame(c, decoded, frame.number)
           && Cell(tile.0, tile.1, name.value) == PageCell(c, CachePage(c, frame.number), o)
  }

  /** A name stays right while more of ROM is decoded. */
  lemma NamesMore(c: Config, decoded: int, more: int, frame: Frame, o: int, name: Option<Name>, tile: (int, int))
    requires 0 < c.width && decoded <= more && NamesSlot(c, decoded, frame, o, name, tile)
    ensures NamesSlot(c, more, frame, o, name, tile)
  {
    assert Slotting(0);
  }

  /** After the fetch of word `o` the name is the next one, or null at the end of the page. */
  ghost predicate Advanced(c: Config, decoded: int, frame: Frame, o: int, name: Option<Name>, tile: (int, int))
    requires 0 < c.width
  {
    NamesSlot(c, decoded, frame, o + 1, name, tile) && (name.Some? ==> o < 1023)
  }

  /** The slot of a covered frame holds a decoding of the word at that address. */
  lemma SlotOfFrame(c: Config, cells: Cells, m: Contents, decoded: int, f: int, o: int)
    requires ValidConfig(c) && Represents(c, cells, m) && Coherent(m, 1024 * decoded)
    requires 0 <= f && CoveredFrame(c, decoded, f) && 0 <= o < 1024
    ensures CachedWord(Read(cells, PageCell(c, CachePage(c, f), o)), WordAt(c, m, 4096 * f + 4 * o))
  {
    if f < 0x80000 {
      RomSlotOfFrame(c, cells, m, decoded, f, o);
    } else {
      RamSlotOfFrame(c, cells, m, decoded, f, o);
    }
  }

  lemma RomSlotOfFrame(c: Config, cells: Cells, m: Contents, decoded: int, f: int, o: int)
    requires ValidConfig(c) && Represents(c, cells, m) && Coherent(m, 1024 * decoded)
    requires 0 <= f < decoded && f < 0x80000 && 0 <= o < 1024
    ensures CachedWord(Read(cells, PageCell(c, CachePage(c, f), o)), WordAt(c, m, 4096 * f + 4 * o))
  {
    PageCellIsWordCell(c, CachePage(c, f), o);
    RomFrameSlot(c, f, o);
    RomFrame(c, m, decoded, f, o);
    RomSlotCached(c, cells, m, decoded, 1024 * f + o, 1024 * CachePage(c, f) + o);
  }

  lemma RamSlotOfFrame(c: Config, cells: Cells, m: Contents, decoded: int, f: int, o: int)
    requires ValidConfig(c) && Represents(c, cells, m) && Coherent(m, 1024 * decoded)
    requires 0 <= f - 0x80000 < 4 * RamCoveredProcs(c) && 0 <= o < 1024
    ensures CachedWord(Read(cells, PageCell(c, CachePage(c, f), o)), WordAt(c, m, 4096 * f + 4 * o))
  {
    PageCellIsWordCell(c, CachePage(c, f), o);
    RamFrame(c, m, f, o);
    assert Position(c, RamCache(1024 * (f - 0x80000) + o)) == 1024 * CachePage(c, f) + o;
    RamSlotCached(c, cells, m, decoded, 1024 * (f - 0x80000) + o, 1024 * CachePage(c, f) + o);
  }

  ghost predicate CachedWord(payload: bv54, word: Option<bv32>) { word.Some? && Cached(payload, word.value) }

  lemma RomSlotCached(c: Config, cells: Cells, m: Contents, decoded: int, i: int, position: int)
    requires ValidConfig(c) && Represents(c, cells, m) && Coherent(m, 1024 * decoded)
    requires 0 <= i < 1024 * decoded && position == Position(c, RomCache(i))
    ensures CachedWord(Read(cells, WordCell(c, position)), Some(m.rom[i]))
  {
    assert Inside(0);
    assert m.romCache[i] == SlotValue(c, cells, RomCache(i));
  }

  lemma RamSlotCached(c: Config, cells: Cells, m: Contents, decoded: int, i: int, position: int)
    requires ValidConfig(c) && Represents(c, cells, m) && Coherent(m, 1024 * decoded)
    requires 0 <= i < RamCovered(c) && position == Position(c, RamCache(i))
    ensures CachedWord(Read(cells, WordCell(c, position)), Some(m.words[i]))
  {
    assert Inside(0);
    assert m.ramCache[i] == SlotValue(c, cells, RamCache(i));
  }

  lemma RomFrame(c: Config, m: Contents, decoded: int, f: int, o: int)
    requires ValidConfig(c) && Sized(c, m) && 1024 * decoded <= RomCovered(c)
    requires 0 <= f < decoded && f < 0x80000 && 0 <= o < 1024
    ensures 0 <= 1024 * f + o < 1024 * decoded && WordAt(c, m, 4096 * f + 4 * o) == Some(m.rom[1024 * f + o])
  {
  }

  lemma RamFrame(c: Config, m: Contents, f: int, o: int)
    requires ValidConfig(c) && Sized(c, m)
    requires 0x80000 <= f && 0 <= f - 0x80000 < 4 * RamCoveredProcs(c) && 0 <= o < 1024
    ensures 0 <= 1024 * (f - 0x80000) + o < RamCovered(c)
    ensures WordAt(c, m, 4096 * f + 4 * o) == Some(m.words[1024 * (f - 0x80000) + o])
  {
    RamFrameBound(c, f - 0x80000, o);
    Quarter(4096 * f + 4 * o - 0x8000_0000, 1024 * (f - 0x80000) + o, 0);
  }

  lemma RamFrameBound(c: Config, f: int, o: int)
    requires ValidConfig(c) && 0 <= f < 4 * RamCoveredProcs(c) && 0 <= o < 1024
    ensures 1024 * f + o < RamCovered(c) <= RamWords(c)
  {
  }

  // --- fields of an instruction -----------------------------------------------

  /** The fields of a cached instruction. */
  function Unpacked(p: bv54): Fields { Fields(PayloadId(p), PayloadImm(p), PayloadRd(p), PayloadRs1(p), PayloadRs2(p)) }

  lemma UnpackedFits(p: bv54, w: bv32)
    requires Cached(p, w)
    ensures Decoded(Unpacked(p), w)
  {
    assert Unfold(0);
  }

  lemma RegisterBits(w: bv32)
    ensures PayloadRd((((w & 0x1ff8000) as bv54) << 22) + (((w & 0xf80) as bv54) << 25)) == Rd(w)
    ensures PayloadRs1((((w & 0x1ff8000) as bv54) << 22) + (((w & 0xf80) as bv54) << 25)) == Rs1(w)
    ensures PayloadRs2((((w & 0x1ff8000) as bv54) << 22) + (((w & 0xf80) as bv54) << 25)) == Rs2(w)
  {
  }

  /** decode during a slow fetch: op_id and imm stay in variables, and only the registers are packed and unpacked. */
  method DecodeSlow(value: bv32, stale: bv32) returns (f: Fields)
    ensures Decoded(f, value)
  {
    var opId, imm := DecodeFields(value, stale);
    RegisterBits(value);
    f := WithRegisters(opId, imm, value);
  }

  method WithRegisters(opId: bv7, imm: bv32, value: bv32) returns (f: Fields)
    ensures f.opId == opId && f.imm == imm
    ensures (value & 0x3 == 0x3 ==> f.rd == Rd(value) && f.rs1 == Rs1(value) && f.rs2 == Rs2(value))
  {
    RegisterBits(value);
    if value & 0x3 == 0x3 {
      var result := (((value & 0x1ff8000) as bv54) << 22) + (((value & 0xf80) as bv54) << 25);
      f := Fields(opId, imm, PayloadRd(result), PayloadRs1(result), PayloadRs2(result));
    } else {
      var result := (value & 0x1ff8000) as bv54;
      f := Fields(opId, imm, PayloadRd(result), PayloadRs1(result), PayloadRs2(result));
    }
  }

  // --- the worker's fetch -----------------------------------------------------

  /** The string that maps the first character of a name to its page. */
  ghost predicate PageDigits(digits: seq<int>) {
    forall i :: 0 <= i < 4096 ==> 0 <= VariableName(i)[0] < |digits| && digits[VariableName(i)[0]] % 4 == i / 1024
  }

  /** The name of the next instruction's cache slot, or null, and the processor it is in. */
  class Frontend {
    const mem: MemoryUnit
    const digits: seq<int>
    var icacheVar: Option<Name>
    var icacheRam: (int, int)

    ghost predicate Ready()
      reads this, mem
    {
      mem.Valid() && PageDigits(digits)
    }

    /** A reset machine has no name yet. */
    constructor (mem: MemoryUnit, digits: seq<int>)
      requires mem.Valid() && PageDigits(digits)
      ensures Ready() && this.mem == mem && icacheVar == None
    {
      this.mem, this.digits := mem, digits;
      icacheVar, icacheRam := None, (0, 0);
    }

    /** main__read_icache: read the slot, and move on to the next name of the page. */
    method ReadIcache(name: Name, ghost f: int, ghost o: int) returns (result: bv54, next: Option<Name>)
      requires mem.Valid() && 0 <= f && 0 <= o < 1024 && CoveredFrame(mem.c, mem.decoded, f)
      requires Cell(icacheRam.0, icacheRam.1, name) == PageCell(mem.c, CachePage(mem.c, f), o)
      ensures CachedWord(result, WordAt(mem.c, mem.m, 4096 * f + 4 * o))
      ensures Advanced(mem.c, mem.decoded, Frame(f), o, next, icacheRam)
    {
      SlotOfFrame(mem.c, mem.cells, mem.m, mem.decoded, f, o);
      result := Read(mem.cells, Cell(icacheRam.0, icacheRam.1, name));
      next := Follow(name, CachePage(mem.c, f), o);
    }

    /** INCR, from a slot of a page: the next slot, and null after the last one. */
    method Follow(name: Name, ghost page: int, ghost o: int) returns (next: Option<Name>)
      requires mem.Fixed() && 0 <= o < 1024 && name == PageCell(mem.c, page, o).name
      ensures o == 1023 ==> next == None
      ensures o < 1023 ==> next == Some(PageCell(mem.c, page, o + 1).name)
    {
      NextIndex(page % 4, o);
      assert Inside(0);
      next := mem.incr[name];
    }

    method LocateRom(address: int, ghost f: int, ghost o: int) returns (cell: Cell)
      requires mem.Fixed() && 0 <= f < 0x80000 && 0 <= o < 1024 && address == 4096 * f + 4 * o
      ensures cell == PageCell(mem.c, CachePage(mem.c, f), o)
    {
      PageCellIsWordCell(mem.c, CachePage(mem.c, f), o);
      RomFrameSlot(mem.c, f, o);
      cell := mem.AccessRomIcache(address);
    }

    method LocateRam(address: int, ghost f: int, ghost o: int) returns (cell: Cell)
      requires mem.Fixed() && 0 <= f && 0 <= o < 1024 && address == 4096 * f + 4 * o
      requires 0x8000_0000 <= address < 0x8000_0000 + 4 * RamCovered(mem.c)
      ensures CoveredFrame(mem.c, 0, f) && cell == PageCell(mem.c, CachePage(mem.c, f), o)
    {
      PageCellIsWordCell(mem.c, CachePage(mem.c, f), o);
      RamFrameSlot(mem.c, f, o);
      cell := mem.AccessRamIcache(address);
    }

    /** The slot of a physical address, or null if the slow fetch has to do. */
    method LocateSlot(address: int, ghost f: int, ghost o: int) returns (cell: Option<Cell>)
      requires mem.Valid() && 0 <= f && 0 <= o < 1024 && address == 4096 * f + 4 * o
      ensures cell.Some? ==>
                CoveredFrame(mem.c, mem.decoded, f) && cell.value == PageCell(mem.c, CachePage(mem.c, f), o)
    {
      cell := None;
      if address < mem.etext {
        BelowEtext(mem.c, mem.decoded, f, o, mem.etext);
        var slot := LocateRom(address, f, o);
        return Some(slot);
      }
      if address < RAM_START {
        return;
      }
      if address < mem.l.icacheEnd {
        var slot := LocateRam(address, f, o);
        return Some(slot);
      }
    }

    /** The slow fetch: load the word and decode it. */
    method SlowPath(address: int) returns (r: Fetched)
      requires mem.Valid() && 0 <= address && address % 4 == 0
      ensures FetchedWord(WordAt(mem.c, mem.m, address), r)
    {
      if address >= mem.l.ramEnd {
        return FetchFault(1);
      }
      var word := mem.LoadWord(address);
      if word == None {
        return FetchFault(1);
      }
      var fields := DecodeSlow(word.value, mem.imm);
      r := Fetched(fields);
    }

    /** main with a name at hand: no translation. */
    method FetchHit(name: Name, ghost f: int, ghost o: int) returns (r: Fetched)
      requires mem.Valid() && 0 <= f && 0 <= o < 1024
      requires NamesSlot(mem.c, mem.decoded, Frame(f), o, Some(name), icacheRam)
      modifies this`icacheVar
      ensures FetchedWord(WordAt(mem.c, mem.m, 4096 * f + 4 * o), r)
      ensures Advanced(mem.c, mem.decoded, Frame(f), o, icacheVar, icacheRam)
    {
      assert Slotting(0);
      var result;
      result, icacheVar := ReadIcache(name, f, o);
      r := Fetched(Unpacked(result));
      UnpackedFits(result, WordAt(mem.c, mem.m, 4096 * f + 4 * o).value);
    }

    /** main without a name, after translation. */
    method FetchMiss(address: int, ghost f: int, ghost o: int) returns (r: Fetched)
      requires mem.Valid() && icacheVar == None && 0 <= f && 0 <= o < 1024 && address == 4096 * f + 4 * o
      modifies this`icacheVar, this`icacheRam
      ensures FetchedWord(WordAt(mem.c, mem.m, 4096 * f + 4 * o), r)
      ensures Advanced(mem.c, mem.decoded, Frame(f), o, icacheVar, icacheRam)
    {
      var cell := LocateSlot(address, f, o);
      if cell == None {
        r := SlowPath(address);
      } else {
        icacheRam := (cell.value.x, cell.value.y);
        r := FetchHit(cell.value.name, f, o);
      }
    }

    /** unconditional_jump: a target on the same page needs only a name, any other one a full lookup. */
    method Follows(samePage: bool, offset: int, ghost f: int, ghost o: int, ghost t: int)
      requires Ready() && 0 <= f && 0 <= o < 1024 && 0 <= t < 1024 && offset == 4 * t
      requires Advanced(mem.c, mem.decoded, Frame(f), o, icacheVar, icacheRam)
      modifies this`icacheVar
      ensures icacheVar.Some? ==> old(icacheVar).Some? && samePage
      ensures NamesSlot(mem.c, mem.decoded, Frame(f), t, icacheVar, icacheRam)
    {
      if icacheVar.Some? {
        if samePage {
          assert Slotting(0);
          var variable := SamePageName(icacheVar.value, offset, CachePage(mem.c, f), o + 1, t);
          icacheVar := Some(variable);
        } else {
          icacheVar := None;
        }
      }
    }

    /** A trap, a return from one, a fence or a write of satp: forget the name. */
    method Drop()
      modifies this`icacheVar
      ensures icacheVar == None
    {
      icacheVar := None;
    }

    /** The name of slot `t`, from the name of slot `o` of the same page. */
    method SamePageName(name: Name, offset: int, ghost page: int, ghost o: int, ghost t: int) returns (variable: Name)
      requires mem.Fixed() && PageDigits(digits) && 0 <= o < 1024 && 0 <= t < 1024 && offset == 4 * t
      requires name == PageCell(mem.c, page, o).name
      ensures variable == PageCell(mem.c, page, t).name
    {
      NextIndex(page % 4, o);
      NextIndex(page % 4, t);
      var digit := digits[name[0]];
      assert digit % 4 == page % 4;
      var index := digit % 4 * 4096 + offset;
      Quarter(index, 1024 * (page % 4) + t, 0);
      index := index / 4;
      assert Inside(0);
      variable := LookupVariable(mem.tables, index);
    }
  }

  lemma BelowEtext(c: Config, decoded: int, f: int, o: int, etext: int)
    requires ValidConfig(c) && 0 <= f && 0 <= o < 1024 && 4096 * f + 4 * o < etext <= 4096 * decoded
    requires 1024 * decoded <= RomCovered(c)
    ensures f < decoded && f < 0x80000
  {
    assert 4096 * decoded <= 0x8000_0000;
  }

  lemma RomFrameSlot(c: Config, f: int, o: int)
    requires ValidConfig(c) && 0 <= f < 0x80000 && 0 <= o < 1024
    ensures (4096 * f + 4 * o) / 4 == 1024 * f + o && Position(c, RomCache(1024 * f + o)) == 1024 * CachePage(c, f) + o
  {
    Quarter(4096 * f + 4 * o, 1024 * f + o, 0);
  }

  lemma RamFrameSlot(c: Config, f: int, o: int)
    requires ValidConfig(c) && 0 <= f && 0 <= o < 1024
    requires 0x8000_0000 <= 4096 * f + 4 * o < 0x8000_0000 + 4 * RamCovered(c)
    ensures InRam(c, 4096 * f + 4 * o) && Index(c, 4096 * f + 4 * o) == 1024 * (f - 0x80000) + o
    ensures 0 <= f - 0x80000 < 4 * RamCoveredProcs(c)
    ensures Position(c, RamCache(1024 * (f - 0x80000) + o)) == 1024 * CachePage(c, f) + o
  {
  }

  lemma PcParts(pc: int)
    requires 0 <= pc && pc % 4 == 0
    ensures 0 <= pc % 4096 / 4 < 1024 && pc % 4096 == 4 * (pc % 4096 / 4)
    ensures (pc + 4) % 4 == 0
    ensures pc % 4096 / 4 < 1023 ==> (pc + 4) / 4096 == pc / 4096 && (pc + 4) % 4096 / 4 == pc % 4096 / 4 + 1
  {
  }

  /** Names of one page are consecutive, and INCR ends with the page. */
  lemma NextIndex(q: int, o: int)
    requires 0 <= q < 4 && 0 <= o < 1024
    ensures 0 <= 1024 * q + o < 4096 && (1024 * q + o) / 1024 == q
    ensures (1024 * q + o + 1) % 1024 == 0 <==> o == 1023
  {
  }
}
