/**
  The worker's load, store, atomic and cache-filling paths, on physical addresses.

  Each method is proved against a flat little-endian byte array, and `Valid`
  includes coherence of the instruction cache, so every run keeps it.
 */
module LoadStore {
  import opened Options
  import opened AddressMap
  import opened LookupTables
  import opened Bytes
  import opened Decoder
  import opened Atomics
  import opened Memory

  /** How an access ends; `Device` stands for the memory-mapped peripherals and `Trap` carries mcause. */
  datatype Outcome = Value(rd: bv32) | Done | Trap(cause: int) | Device | Power(reset: bool)

  predicate IsSize(n: int) { n == 1 || n == 2 || n == 4 }

  predicate OnBoundary(address: int, n: int) { n == 1 || (n == 2 && address % 2 == 0) || (n == 4 && address % 4 == 0) }

  predicate InRam(c: Config, address: int) { 0x8000_0000 <= address < 0x8000_0000 + 4 * RamWords(c) }

  // --- what a program sees ----------------------------------------------------

  /** Memory as a program sees it. */
  datatype View = View(ram: seq<bv8>, reservation: Option<int>)

  datatype Access =
    | Load(address: int, n: int, signed: bool)
    | Store(address: int, n: int, value: bv32)
    | LoadReserved(address: int)
    | StoreConditional(address: int, value: bv32)
    | Amo(address: int, op: AmoOp, value: bv32)
    | InitCache(rs1: int, privilege: int)

  /** The accesses that instructions make. */
  predicate IsAccess(a: Access) {
    match a
    case Load(address, n, _) => 0 <= address && IsSize(n)
    case Store(address, n, _) => 0 <= address && IsSize(n)
    case LoadReserved(address) => 0 <= address
    case StoreConditional(address, _) => 0 <= address
    case Amo(address, _, _) => 0 <= address
    case InitCache(rs1, _) => 0 <= rs1 < 0x1_0000_0000
  }

  /** A word store to an address that is neither RAM nor a device: the one access that the worker does not check. */
  predicate Stray(c: Config, a: Access) {
    a.Store? && a.n == 4 && a.address % 4 == 0 && a.address < 0xf000_0000 && !InRam(c, a.address)
  }

  /** Where such a store (or, below RAM, its decoding) goes. */
  function StrayPosition(c: Config, address: int): int {
    if address < 0x8000_0000 then RamWords(c) + address / 4 else (address - 0x8000_0000) / 4
  }

  function LoadSpec(c: Config, rom: seq<bv8>, ram: seq<bv8>, address: int, n: int, signed: bool): Outcome
    requires ValidConfig(c) && IsSize(n) && 0 <= address && |ram| == 4 * RamWords(c) && |rom| == 4 * RomWords(c)
  {
    if !OnBoundary(address, n) then Trap(4)
    else if address < |rom| then WholeAccess(c, address, n); Value(Join(rom, address, n, signed))
    else if address >= 0xf000_0000 then Device
    else if !InRam(c, address) then Trap(5)
    else WholeAccess(c, address, n); Value(Join(ram, address - 0x8000_0000, n, signed))
  }

  function StoreSpec(c: Config, ram: seq<bv8>, address: int, n: int, v: bv32): (r: (Outcome, seq<bv8>))
    requires ValidConfig(c) && IsSize(n) && 0 <= address && |ram| == 4 * RamWords(c)
    ensures |r.1| == |ram|
  {
    if !OnBoundary(address, n) then (Trap(6), ram)
    else if address == SYSCON then (if v > 2 then (Done, ram) else (Power(v == 1), ram))
    else if address >= 0xf000_0000 then (Device, ram)
    else if !InRam(c, address) then (Trap(7), ram)
    else WholeAccess(c, address, n); (Done, Patch(ram, address - 0x8000_0000, n, v))
  }

  /** Atomics accept only word-aligned RAM addresses. */
  function AtomicFault(c: Config, address: int, cause: int): Option<Outcome> {
    if address % 4 != 0 then Some(Trap(cause)) else if !InRam(c, address) then Some(Trap(cause + 1)) else None
  }

  function AtomicLoad(c: Config, ram: seq<bv8>, address: int): bv32
    requires ValidConfig(c) && |ram| == 4 * RamWords(c) && AtomicFault(c, address, 0) == None
  {
    WholeAccess(c, address, 4);
    Join(ram, address - 0x8000_0000, 4, false)
  }

  function AtomicStore(c: Config, ram: seq<bv8>, address: int, v: bv32): (r: seq<bv8>)
    requires ValidConfig(c) && |ram| == 4 * RamWords(c) && AtomicFault(c, address, 0) == None
    ensures |r| == |ram|
  {
    WholeAccess(c, address, 4);
    Patch(ram, address - 0x8000_0000, 4, v)
  }

  function AmoInRam(c: Config, v: View, address: int, op: AmoOp, value: bv32): (r: (Outcome, View))
    requires ValidConfig(c) && |v.ram| == 4 * RamWords(c) && AtomicFault(c, address, 6) == None
    ensures |r.1.ram| == |v.ram|
  {
    var before := AtomicLoad(c, v.ram, address);
    (Value(before), v.(ram := AtomicStore(c, v.ram, address, CombineBits(op, before, value))))
  }

  /** One access on the flat memory. */
  function Step(c: Config, rom: seq<bv8>, v: View, a: Access): (r: (Outcome, View))
    requires ValidConfig(c) && |rom| == 4 * RomWords(c) && |v.ram| == 4 * RamWords(c) && IsAccess(a)
    ensures |r.1.ram| == |v.ram|
  {
    match a
    case Load(address, n, signed) => (LoadSpec(c, rom, v.ram, address, n, signed), v)
    case Store(address, n, value) => var (o, ram) := StoreSpec(c, v.ram, address, n, value); (o, v.(ram := ram))
    case LoadReserved(address) =>
      if AtomicFault(c, address, 4).Some? then (AtomicFault(c, address, 4).value, v)
      else (Value(AtomicLoad(c, v.ram, address)), v.(reservation := Some(address)))
    case StoreConditional(address, value) =>
      if AtomicFault(c, address, 6).Some? then (AtomicFault(c, address, 6).value, v)
      else if v.reservation == Some(address) then (Value(0), View(AtomicStore(c, v.ram, address, value), None))
      else (Value(1), v.(reservation := None))
    case Amo(address, op, value) =>
      if AtomicFault(c, address, 6).Some? then (AtomicFault(c, address, 6).value, v)
      else AmoInRam(c, v, address, op, value)
    case InitCache(rs1, privilege) => (if privilege < 3 then Trap(2) else Done, v)
  }

  /** A whole run on the flat memory: the outcomes in order, and the memory at the end. */
  function Run(c: Config, rom: seq<bv8>, v: View, s: seq<Access>): (r: (seq<Outcome>, View))
    requires ValidConfig(c) && |rom| == 4 * RomWords(c) && |v.ram| == 4 * RamWords(c)
    requires forall i :: 0 <= i < |s| ==> IsAccess(s[i])
    ensures |r.1.ram| == |v.ram|
    decreases |s|
  {
    if s == [] then ([], v)
    else
      var (outcomes, before) := Run(c, rom, v, s[..|s| - 1]);
      var (o, after) := Step(c, rom, before, s[|s| - 1]);
      (outcomes + [o], after)
  }

  // --- addresses and words ----------------------------------------------------

  /** An aligned access does not cross the end of a region. */
  lemma WholeAccess(c: Config, address: int, n: int)
    requires IsSize(n) && OnBoundary(address, n)
    ensures InRam(c, address) ==> address - 0x8000_0000 + n <= 4 * RamWords(c)
    ensures 0 <= address < 4 * RomWords(c) ==> address + n <= 4 * RomWords(c)
  {
    WholeBelow(address, n, RomWords(c));
    WholeBelow(address, n, 0x2000_0000 + RamWords(c));
  }

  lemma WholeBelow(a: int, n: int, words: int)
    requires IsSize(n) && OnBoundary(a, n)
    ensures a < 4 * words ==> a + n <= 4 * words
  {
    if a < 4 * words {
      EndsWithin(a, n, words);
    }
  }

  lemma EndsWithin(a: int, n: int, words: int)
    requires IsSize(n) && OnBoundary(a, n) && a < 4 * words
    ensures a + n <= 4 * words
  {
    if n == 2 {
      Twice(a / 2, words);
    } else if n == 4 {
      FourTimes(a / 4, words);
    }
  }

  lemma Twice(h: int, words: int)
    requires 2 * h < 4 * words
    ensures 2 * h + 2 <= 4 * words
  {
    assert h < 2 * words;
  }

  lemma FourTimes(h: int, words: int)
    requires 4 * h < 4 * words
    ensures 4 * h + 4 <= 4 * words
  {
    assert h < words;
  }

  /** Index of the RAM word that contains an address. */
  function Index(c: Config, address: int): (i: int)
    requires InRam(c, address)
    ensures 0 <= i < RamWords(c) && address - 0x8000_0000 == 4 * i + address % 4
  {
    (address - 0x8000_0000) / 4
  }

  /** Processor and string position of the word that contains an address. */
  lemma Chunk(address: int)
    ensures (address - address % 4) / 16384 == address / 4 / 4096
    ensures (address - address % 4) % 16384 == 4 * (address / 4 % 4096)
  {
  }

  lemma BoundaryMod(address: int, n: int)
    requires IsSize(n)
    ensures address % n == 0 <==> OnBoundary(address, n)
  {
  }

  lemma AlignedAddress(address: int, n: int)
    requires IsSize(n) && OnBoundary(address, n)
    ensures Aligned(address % 4, n)
  {
  }

  /** A word as RAM keeps it. */
  method ReversedWord(value: bv32) returns (result: bv54)
    ensures result == StoredWord(value)
  {
    LowOfWord(value);
    result := SwapEndianness(value as bv54);
  }

  /** A word as RAM gives it back. */
  method RestoredWord(value: bv54) returns (result: bv32)
    ensures result == LoadedWord(value)
  {
    LowOfWord(Reverse(LowWord(value)));
    var swapped := SwapEndianness(value);
    result := LowWord(swapped);
  }

  /** The word at position `k` of a ROM string. */
  method RestoredRomWord(s: seq<bv54>, k: int, ghost w: bv32) returns (result: bv32)
    requires 0 <= k && StringHolds(s, k, w)
    ensures result == w
  {
    if k + 3 < |s| {
      result := RomWord(s[k], s[k + 1], s[k + 2], s[k + 3], w);
    } else {
      result := RomWordPastEnd();
    }
  }

  /** The jump table of the atomics, on words. */
  method ModifyLoaded(offset: int, loaded: bv32, value: bv32, ghost op: AmoOp) returns (modified: bv32)
    requires offset % 2 == 0 && 0 <= offset <= 16 && OpAt(offset) == op
    ensures modified == CombineBits(op, loaded, value)
  {
    var result := AmoModify(offset, loaded as int, value as int);
    modified := result as bv32;
  }

  /** decode, with its result kept folded. */
  method DecodeCached(value: bv32, stale: bv32) returns (opId: bv7, imm: bv32, payload: bv54)
    ensures Cached(payload, value)
  {
    opId, imm, payload := Decode(value, stale);
  }

  // --- the memory unit --------------------------------------------------------

  lemma NopIsLegal()
    ensures DecodedId(0x13) != ILLEGAL
  {
  }

  class MemoryUnit {
    const c: Config
    const l: Layout
    const tables: Tables
    const incr: map<Name, Option<Name>>
    var cells: Cells
    var rom: RomStrings
    var etext: int
    var reservationSet: Option<int>
    var imm: bv32

    /** The same memory as words, and how many pages of ROM were ever decoded. */
    ghost var m: Contents
    ghost var decoded: int

    ghost predicate Fixed() {
      ValidConfig(c) && LayoutFor(c, l) && forall k: int :: Inside(k) ==> CpuTables(tables) && LinkedUpTo(incr, 4096)
    }

    ghost predicate Valid()
      reads this
    {
      && Fixed() && Sized(c, m)
      && Represents(c, cells, m)
      && RomHolds(c, rom, m.rom)
      && Coherent(m, 1024 * decoded)
      && 0 <= etext <= 4096 * decoded
    }

    /** A machine that was just switched on: nothing was written to its memory processors yet. */
    constructor (c: Config, l: Layout, tables: Tables, incr: map<Name, Option<Name>>, rom: RomStrings,
                 ghost words: seq<bv32>)
      requires ValidConfig(c) && LayoutFor(c, l) && CpuTables(tables) && LinkedUpTo(incr, 4096)
      requires |words| == RomWords(c) && RomHolds(c, rom, words)
      ensures Valid() && this.c == c && m.rom == words && etext == 0
      ensures Current() == View(seq(4 * RamWords(c), _ => 0), None)
    {
      this.c, this.l, this.tables, this.incr, this.rom := c, l, tables, incr, rom;
      cells, etext, reservationSet, imm := map[], 0, None, 0;
      m, decoded := NullContents(c, words), 0;
      NullCoherent(c, words);
    }

    ghost function RomView(): (bytes: seq<bv8>)
      requires Valid()
      reads this
      ensures |bytes| == 4 * RomWords(c)
    {
      Flat(m.rom)
    }

    ghost function Current(): (v: View)
      requires Valid()
      reads this
      ensures |v.ram| == 4 * RamWords(c)
    {
      View(Flat(m.words), reservationSet)
    }

    /** access_ram_raw: the processor and the variable of a byte position. */
    method AccessRamRaw(position: int) returns (cell: Cell)
      requires Fixed() && 0 <= position
      ensures cell == WordCell(c, position / 4)
    {
      var word := position / 4;
      var ramStartProc := l.romSize / 16384;
      var ramIndex := word / 4096;
      ramIndex := ramIndex + ramStartProc;
      var x := ramIndex % c.width;
      x := x + c.memoryX;
      var y := ramIndex / c.width;
      y := y + c.memoryY;
      assert Inside(0);
      var variable := LookupVariable(tables, word % 4096);
      cell := Cell(x, y, variable);
    }

    /** access_ram */
    method AccessRam(address: int) returns (cell: Cell)
      requires Fixed() && InRam(c, address)
      ensures cell == SlotCell(c, RamWord(Index(c, address)))
    {
      cell := AccessRamRaw(address - RAM_START);
    }

    /** The cache slot of an instruction address, as end_decode and the fetch compute it. */
    method AccessRamIcache(address: int) returns (cell: Cell)
      requires Fixed() && InRam(c, address)
      ensures cell == SlotCell(c, RamCache(Index(c, address)))
    {
      Quarter(l.ramIcacheOffset + address, RamWords(c) + ProgramWords(c) + Index(c, address), address % 4);
      cell := AccessRamRaw(l.ramIcacheOffset + address);
    }

    method AccessRomIcache(address: int) returns (cell: Cell)
      requires Fixed() && 0 <= address
      ensures cell == SlotCell(c, RomCache(address / 4))
    {
      Quarter(l.ramSize + address, RamWords(c) + address / 4, address % 4);
      cell := AccessRamRaw(l.ramSize + address);
    }

    /** load_ram_word_unchecked */
    method LoadRamWord(address: int) returns (result: bv32, cell: Cell)
      requires Valid() && InRam(c, address)
      ensures result == m.words[Index(c, address)]
      ensures cell == SlotCell(c, RamWord(Index(c, address)))
    {
      cell := AccessRam(address);
      assert Inside(0);
      result := RestoredWord(Read(cells, cell));
      LoadedStored(m.words[Index(c, address)]);
    }

    /** load_rom_word_unchecked */
    method LoadRomWord(address: int) returns (result: bv32)
      requires Valid() && 0 <= address < 4 * RomWords(c)
      ensures 0 <= address / 4 < |m.rom| && result == m.rom[address / 4]
    {
      var aligned := address - address % 4;
      Chunk(address);
      var romIndex := aligned / 16384;
      var strIndex := aligned % 16384;
      var x := romIndex % c.width + c.memoryX;
      var y := romIndex / c.width + c.memoryY;
      assert (x, y) == RomTile(c, address / 4 / 4096);
      assert Inside(0);
      result := RestoredRomWord(StringAt(rom, (x, y)), strIndex, m.rom[address / 4]);
    }

    /** load_word: the word that contains the address. */
    method LoadWord(address: int) returns (r: Option<bv32>)
      requires Valid() && 0 <= address < 0xf000_0000
      ensures r == WordAt(c, m, address)
    {
      if address < l.romSize {
        var result := LoadRomWord(address);
        return Some(result);
      }
      if address < RAM_START || address >= l.ramEnd {
        return None;
      }
      var result, cell := LoadRamWord(address);
      r := Some(result);
    }

    /** load_value, after address translation. */
    method LoadValue(address: int, n: int, signed: bool) returns (r: Outcome)
      requires Valid() && IsSize(n) && 0 <= address
      ensures r == LoadSpec(c, RomView(), Current().ram, address, n, signed)
    {
      var alignment := address % n;
      BoundaryMod(address, n);
      if alignment != 0 {
        return Trap(4);
      }
      if address >= MMIO_START {
        return Device;
      }
      var result := LoadWord(address);
      LoadMeaning(c, m, address, n, signed);
      if result == None {
        return Trap(5);
      }
      AlignedAddress(address, n);
      var rd := ExtractValue(result.value, address % 4, n, signed);
      r := Value(rd);
    }

    /** decode for a RAM word: the payload goes to the word's cache slot. */
    method CacheRamWord(address: int, value: bv32) returns (ghost payload: bv54)
      requires Fixed() && Represents(c, cells, m) && InRam(c, address) && address % 4 == 0
      requires Index(c, address) < RamCovered(c)
      modifies this`cells, this`imm, this`m
      ensures Cached(payload, value) && m == old(m).(ramCache := old(m).ramCache[Index(c, address) := payload])
      ensures Represents(c, cells, m)
    {
      var opId, p;
      opId, imm, p := DecodeCached(value, imm);
      var slot := AccessRamIcache(address);
      WriteRamCache(c, cells, m, Index(c, address), p);
      cells := cells[slot := p];
      m := m.(ramCache := m.ramCache[Index(c, address) := p]);
      payload := p;
    }

    /** The write of store_ram_word_unchecked. */
    method WriteRam(value: bv32, cell: Cell, ghost i: int)
      requires Fixed() && Represents(c, cells, m) && 0 <= i < |m.words| && cell == SlotCell(c, RamWord(i))
      modifies this`cells, this`m
      ensures Represents(c, cells, m) && m == old(m).(words := old(m).words[i := value])
    {
      var result := ReversedWord(value);
      WriteRamWord(c, cells, m, i, value);
      cells := cells[cell := result];
      m := m.(words := m.words[i := value]);
    }

    /** store_ram_word_unchecked: the reversed word, and its decoding if the word is covered. */
    method StoreRamWord(address: int, value: bv32, cell: Cell)
      requires Valid() && InRam(c, address) && address % 4 == 0 && cell == SlotCell(c, RamWord(Index(c, address)))
      modifies this`cells, this`imm, this`m
      ensures Valid() && m.words == old(m.words)[Index(c, address) := value] && m.rom == old(m.rom)
    {
      ghost var before := m;
      WriteRam(value, cell, Index(c, address));
      if address < l.icacheEnd {
        ghost var payload := CacheRamWord(address, value);
        StoreCoherent(before, 1024 * decoded, Index(c, address), value, payload);
      }
    }

    /** store_value for one or two bytes: the word with the bytes inserted. */
    method MergePart(address: int, n: int, value: bv32) returns (aligned: int, word: bv32, cell: Cell)
      requires Valid() && InRam(c, address) && (n == 1 || n == 2) && OnBoundary(address, n)
      ensures aligned % 4 == 0 && InRam(c, aligned) && Index(c, aligned) == Index(c, address)
      ensures Inserted(m.words[Index(c, address)], value, address % 4, n, word)
      ensures cell == SlotCell(c, RamWord(Index(c, address)))
    {
      AlignedAddress(address, n);
      var result;
      result, cell := LoadRamWord(address);
      word := InsertValue(result, value, address % 4, n);
      AlignDown(c, address);
      aligned := address - address % 4;
    }

    method StorePart(address: int, n: int, value: bv32)
      requires Valid() && InRam(c, address) && (n == 1 || n == 2) && OnBoundary(address, n)
      modifies this`cells, this`imm, this`m
      ensures Valid() && m.rom == old(m.rom)
      ensures (Done, Flat(m.words)) == StoreSpec(c, Flat(old(m.words)), address, n, value)
    {
      var aligned, word, cell := MergePart(address, n, value);
      StoreMeaning(c, m.words, address, n, value, word);
      StoreRamWord(aligned, word, cell);
    }

    /** store_value for a word in RAM. */
    method StoreAll(address: int, value: bv32)
      requires Valid() && InRam(c, address) && address % 4 == 0
      modifies this`cells, this`imm, this`m
      ensures Valid() && m.rom == old(m.rom)
      ensures (Done, Flat(m.words)) == StoreSpec(c, Flat(old(m.words)), address, 4, value)
    {
      var cell := AccessRam(address);
      InsertedWord(m.words[Index(c, address)], value);
      StoreMeaning(c, m.words, address, 4, value, value);
      StoreRamWord(address, value, cell);
    }

    /** Whether a stray word store leaves the cache coherent: it hits no slot in use, or it writes a decoding of the
        slot's word. Below RAM the worker writes the decoding of the value, above RAM the value itself, which as a
        payload is illegal. */
    ghost predicate Harmless(address: int, value: bv32)
      requires Valid() && 0 <= address
      reads this
    {
      var hit := HitWord(c, m, 1024 * decoded, StrayPosition(c, address));
      hit.Some? && (address < RAM_START ==> address < l.icacheEnd) ==>
        if address < RAM_START then DecodesAlike(value, hit.value) else DecodedId(hit.value) == ILLEGAL
    }

    /** A word store into the cache slot of a legal instruction does harm, whatever it stores. */
    lemma HarmfulAbove(address: int, i: int, value: bv32)
      requires Valid() && 0 <= i < RamCovered(c) && DecodedId(m.words[i]) != ILLEGAL
      requires address == RAM_START + 4 * (RamWords(c) + ProgramWords(c) + i) && address < MMIO_START
      ensures Stray(c, Store(address, 4, value)) && !Harmless(address, value)
    {
      assert StrayPosition(c, address) == RamWords(c) + ProgramWords(c) + i;
    }

    /** One processor of ROM, one of RAM and two of cache; RAM starts with a NOP, and the store goes to its slot. */
    lemma HarmfulStore(value: bv32)
      requires Valid() && c == Config(0, 0, 1, 1, 0, 1, 2) && m.words[0] == 0x13
      ensures Stray(c, Store(0x8000_8000, 4, value)) && !Harmless(0x8000_8000, value)
    {
      NopIsLegal();
      HarmfulAbove(0x8000_8000, 0, value);
    }

    /** A write to a cell above RAM. */
    method Overwrite(cell: Cell, v: bv54, ghost p: int)
      requires Valid() && RamWords(c) <= p && cell == WordCell(c, p)
      modifies this`cells, this`m
      ensures m == Overwritten(c, old(m), p, v) && Represents(c, cells, m)
      ensures var hit := HitWord(c, old(m), 1024 * decoded, p);
              Valid() <==> (hit.Some? ==> Cached(v, hit.value))
    {
      OverwriteRepresents(c, cells, m, p, v);
      OverwriteCoherent(c, m, 1024 * decoded, p, v);
      cells := cells[cell := v];
      m := Overwritten(c, m, p, v);
    }

    /** The decoding of a value, in the slot that stands for a ROM address. */
    method DecodeOver(address: int, value: bv32, ghost hit: Option<bv32>)
      requires Valid() && 0 <= address && hit == HitWord(c, m, 1024 * decoded, RamWords(c) + address / 4)
      modifies this`cells, this`imm, this`m
      ensures m.words == old(m.words) && m.rom == old(m.rom) && Represents(c, cells, m)
      ensures Valid() <==> (hit.Some? ==> DecodesAlike(value, hit.value))
    {
      var opId, payload;
      opId, imm, payload := DecodeCached(value, imm);
      var slot := AccessRomIcache(address);
      if hit.Some? {
        SharedPayload(payload, value, hit.value);
      }
      Overwrite(slot, payload, RamWords(c) + address / 4);
    }

    /** Below RAM the write goes to a name that does not exist and is lost, but the value is decoded into a cache
        slot. */
    method StoreBelow(address: int, value: bv32)
      requires Valid() && 0 <= address < RAM_START && address % 4 == 0
      modifies this`cells, this`imm, this`m
      ensures m.words == old(m.words) && m.rom == old(m.rom) && Represents(c, cells, m)
      ensures Valid() <==> old(Harmless(address, value))
    {
      if address < l.icacheEnd {
        DecodeOver(address, value, HitWord(c, m, 1024 * decoded, StrayPosition(c, address)));
      }
    }

    /** Above RAM the word lands in a cache slot, or in no slot at all. */
    method StoreAbove(address: int, value: bv32)
      requires Valid() && l.ramEnd <= address && address % 4 == 0
      modifies this`cells, this`m
      ensures m.words == old(m.words) && m.rom == old(m.rom) && Represents(c, cells, m)
      ensures Valid() <==> old(Harmless(address, value))
    {
      var cell := AccessRamRaw(address - RAM_START);
      var result := ReversedWord(value);
      ghost var hit := HitWord(c, m, 1024 * decoded, StrayPosition(c, address));
      if hit.Some? {
        StrayPayload(value, hit.value);
      }
      Overwrite(cell, result, StrayPosition(c, address));
    }

    /** store_value for a word: there is no range check. */
    method StoreWord(address: int, value: bv32)
      requires Valid() && 0 <= address < MMIO_START && address % 4 == 0
      modifies this`cells, this`imm, this`m
      ensures m.rom == old(m.rom) && (!InRam(c, address) ==> m.words == old(m.words))
      ensures InRam(c, address) ==> (Done, Flat(m.words)) == StoreSpec(c, Flat(old(m.words)), address, 4, value)
      ensures Valid() <==> (InRam(c, address) || old(Harmless(address, value)))
    {
      if address < RAM_START {
        StoreBelow(address, value);
      } else if address >= l.ramEnd {
        StoreAbove(address, value);
      } else {
        StoreAll(address, value);
      }
    }

    /** store_value, after address translation.  A stray word store is reported as done, and leaves RAM and ROM
        alone. */
    method StoreValue(address: int, n: int, value: bv32) returns (r: Outcome)
      requires Valid() && IsAccess(Store(address, n, value))
      modifies this`cells, this`imm, this`m
      ensures m.rom == old(m.rom) && |m.words| == |old(m.words)|
      ensures !Stray(c, Store(address, n, value)) ==>
                Valid() && (r, Flat(m.words)) == StoreSpec(c, Flat(old(m.words)), address, n, value)
      ensures Stray(c, Store(address, n, value)) ==>
                r == Done && m.words == old(m.words) && (Valid() <==> old(Harmless(address, value)))
    {
      var alignment := address % n;
      BoundaryMod(address, n);
      if alignment != 0 {
        return Trap(6);
      }
      if address == SYSCON {
        return if value > 2 then Done else Power(value == 1);
      }
      if address >= MMIO_START {
        return Device;
      }
      if n == 4 {
        StoreWord(address, value);
        return Done;
      }
      if address < RAM_START || address >= l.ramEnd {
        return Trap(7);
      }
      StorePart(address, n, value);
      r := Done;
    }

    /** atomic_validate_address, after address translation. */
    method ValidateAtomic(address: int, cause: int) returns (r: Option<Outcome>)
      requires Fixed() && 0 <= address
      ensures r == AtomicFault(c, address, cause)
    {
      if address % 4 != 0 {
        return Some(Trap(cause));
      }
      if address < RAM_START || address >= l.ramEnd {
        return Some(Trap(cause + 1));
      }
      r := None;
    }

    method LoadAtomic(address: int) returns (result: bv32, cell: Cell)
      requires Valid() && AtomicFault(c, address, 0) == None
      ensures result == AtomicLoad(c, Flat(m.words), address)
      ensures cell == SlotCell(c, RamWord(Index(c, address)))
    {
      result, cell := LoadRamWord(address);
      RamMeaning(c, m, address, 4, false);
    }

    method StoreAtomic(address: int, value: bv32, cell: Cell)
      requires Valid() && AtomicFault(c, address, 0) == None && cell == SlotCell(c, RamWord(Index(c, address)))
      modifies this`cells, this`imm, this`m
      ensures Valid() && m.rom == old(m.rom) && Flat(m.words) == AtomicStore(c, Flat(old(m.words)), address, value)
    {
      InsertedWord(m.words[Index(c, address)], value);
      StoreMeaning(c, m.words, address, 4, value, value);
      StoreRamWord(address, value, cell);
    }

    method LoadReservedWord(address: int) returns (r: Outcome)
      requires Valid() && 0 <= address
      modifies this`reservationSet
      ensures Valid() && (r, Current()) == Step(c, RomView(), old(Current()), LoadReserved(address))
    {
      var fault := ValidateAtomic(address, 4);
      if fault.Some? {
        return fault.value;
      }
      var result, cell := LoadAtomic(address);
      reservationSet := Some(address);
      r := Value(result);
    }

    method StoreReserved(address: int, value: bv32)
      requires Valid() && AtomicFault(c, address, 0) == None
      modifies this`cells, this`imm, this`m
      ensures Valid() && m.rom == old(m.rom) && Flat(m.words) == AtomicStore(c, Flat(old(m.words)), address, value)
    {
      var cell := AccessRam(address);
      StoreAtomic(address, value, cell);
    }

    method StoreConditionalWord(address: int, value: bv32) returns (r: Outcome)
      requires Valid() && 0 <= address
      modifies this`cells, this`imm, this`m, this`reservationSet
      ensures Valid() && m.rom == old(m.rom)
      ensures (r, Current()) == Step(c, RomView(), old(Current()), StoreConditional(address, value))
    {
      var fault := ValidateAtomic(address, 6);
      if fault.Some? {
        return fault.value;
      }
      var success := Some(address) == reservationSet;
      reservationSet := None;
      r := Value(if success then 0 else 1);
      if success {
        StoreReserved(address, value);
      }
    }

    /** The read, the jump table and the write of an AMO. */
    method ReplaceWord(address: int, offset: int, value: bv32, ghost op: AmoOp) returns (result: bv32)
      requires Valid() && AtomicFault(c, address, 0) == None
      requires offset % 2 == 0 && 0 <= offset <= 16 && OpAt(offset) == op
      modifies this`cells, this`imm, this`m
      ensures Valid() && m.rom == old(m.rom) && result == AtomicLoad(c, Flat(old(m.words)), address)
      ensures Flat(m.words) == AtomicStore(c, Flat(old(m.words)), address, CombineBits(op, result, value))
    {
      var cell;
      result, cell := LoadAtomic(address);
      var modified := ModifyLoaded(offset, result, value, op);
      StoreAtomic(address, modified, cell);
    }

    method ModifyWord(address: int, opId: int, value: bv32) returns (r: Outcome)
      requires Valid() && 0 <= address && IsAmo(opId)
      modifies this`cells, this`imm, this`m
      ensures Valid() && m.rom == old(m.rom)
      ensures (r, Current()) == Step(c, RomView(), old(Current()), Amo(address, OpOf(opId), value))
    {
      var offset := AmoOffset(opId);
      r := ModifyAt(address, offset, value, OpOf(opId));
    }

    method ModifyInRam(address: int, offset: int, value: bv32, ghost op: AmoOp) returns (r: Outcome)
      requires Valid() && AtomicFault(c, address, 6) == None
      requires offset % 2 == 0 && 0 <= offset <= 16 && OpAt(offset) == op
      modifies this`cells, this`imm, this`m
      ensures Valid() && m.rom == old(m.rom)
      ensures (r, Current()) == AmoInRam(c, old(Current()), address, op, value)
    {
      var result := ReplaceWord(address, offset, value, op);
      r := Value(result);
    }

    method ModifyAt(address: int, offset: int, value: bv32, ghost op: AmoOp) returns (r: Outcome)
      requires Valid() && 0 <= address && offset % 2 == 0 && 0 <= offset <= 16 && OpAt(offset) == op
      modifies this`cells, this`imm, this`m
      ensures Valid() && m.rom == old(m.rom)
      ensures (r, Current()) == Step(c, RomView(), old(Current()), Amo(address, op, value))
    {
      var fault := ValidateAtomic(address, 6);
      if fault.Some? {
        return fault.value;
      }
      r := ModifyInRam(address, offset, value, op);
    }

    /** The variable for the next word while decoding ROM: the successor of the last one, or a fresh lookup at a page
        boundary. */
    method NextSlot(variable: Option<Name>, tile: (int, int), address: int, ghost k: int) returns (cell: Cell)
      requires Fixed() && 0 <= k && address == 4 * k
      requires variable.Some? ==> Cell(tile.0, tile.1, variable.value) == SlotCell(c, RomCache(k))
      ensures cell == SlotCell(c, RomCache(k))
    {
      if variable.Some? {
        return Cell(tile.0, tile.1, variable.value);
      }
      Quarter(address, k, 0);
      cell := AccessRomIcache(address);
    }

    /** Decode one ROM word into its slot. */
    method DecodeRomWord(address: int, cell: Cell, ghost k: int)
      requires Valid() && 0 <= k < |m.romCache| && address == 4 * k && cell == SlotCell(c, RomCache(k))
      modifies this`cells, this`imm, this`m
      ensures Valid()
      ensures exists payload :: Cached(payload, m.rom[k]) && m == old(m).(romCache := old(m.romCache)[k := payload])
    {
      ghost var before := m;
      var value := LoadRomWord(address);
      var opId, payload;
      opId, imm, payload := DecodeCached(value, imm);
      WriteRomCache(c, cells, m, k, payload);
      DecodeCoherent(m, 1024 * decoded, k, payload);
      cells := cells[cell := payload];
      m := m.(romCache := m.romCache[k := payload]);
      assert Cached(payload, m.rom[k]);
    }

    /** The variable after the one of ROM word `k`. */
    method Advance(variable: Name, tile: (int, int), ghost k: int) returns (next: Option<Name>)
      requires Fixed() && 0 <= k && Cell(tile.0, tile.1, variable) == SlotCell(c, RomCache(k))
      ensures next.Some? ==> Cell(tile.0, tile.1, next.value) == SlotCell(c, RomCache(k + 1))
    {
      SamePage(c, k);
      assert Inside(0);
      next := incr[variable];
    }

    /** One round of the decode loop of MLOGSYS. */
    method DecodeStep(variable: Option<Name>, tile: (int, int), address: int, ghost k: int)
        returns (next: Option<Name>, tile': (int, int))
      requires Valid() && 0 <= k < |m.romCache| && address == 4 * k
      requires variable.Some? ==> Cell(tile.0, tile.1, variable.value) == SlotCell(c, RomCache(k))
      modifies this`cells, this`imm, this`m
      ensures Valid() && m == old(m).(romCache := m.romCache) && |m.romCache| == |old(m.romCache)|
      ensures Cached(m.romCache[k], m.rom[k]) && forall i :: 0 <= i < k ==> m.romCache[i] == old(m.romCache[i])
      ensures next.Some? ==> Cell(tile'.0, tile'.1, next.value) == SlotCell(c, RomCache(k + 1))
    {
      var cell := NextSlot(variable, tile, address, k);
      tile' := (cell.x, cell.y);
      next := Advance(cell.name, tile', k);
      DecodeRomWord(address, cell, k);
    }

    /** The decode loop of MLOGSYS. */
    method DecodeUpTo(limit: int)
      requires Valid() && limit <= 4 * |m.romCache|
      modifies this`cells, this`imm, this`m
      ensures Valid() && m.words == old(m.words) && m.rom == old(m.rom)
      ensures forall i :: 0 <= i && 4 * i < limit ==> Cached(m.romCache[i], m.rom[i])
    {
      var address := 0;
      var variable: Option<Name> := None;
      var tile := (0, 0);
      ghost var k := 0;
      while address < limit
        invariant Valid() && m.words == old(m.words) && m.rom == old(m.rom) && |m.romCache| == |old(m.romCache)|
        invariant 0 <= k <= |m.romCache| && address == 4 * k
        invariant forall i :: 0 <= i < k ==> Cached(m.romCache[i], m.rom[i])
        invariant variable.Some? ==> Cell(tile.0, tile.1, variable.value) == SlotCell(c, RomCache(k))
      {
        variable, tile := DecodeStep(variable, tile, address, k);
        address, k := address + 4, k + 1;
      }
    }

    /** `etext` includes the page of rs1, unless the cache ends before it; rs1 in the last page of the address space
        wraps around. */
    ghost predicate PageLimit(rs1: int, limit: int) {
      rs1 + 4096 < 0x1_0000_0000 ==> limit == 4 * RomCovered(c) || rs1 < limit <= rs1 + 4096
    }

    method TextLimit(rs1: int) returns (limit: int, ghost pages: int)
      requires Fixed() && 0 <= rs1 < 0x1_0000_0000
      ensures 0 <= limit <= 4 * RomCovered(c) && limit == 4096 * pages && PageLimit(rs1, limit)
    {
      limit, pages := PageAbove(rs1);
      if limit >= l.programRomIcache {
        limit := l.programRomIcache;
        pages := 4 * RomCoveredProcs(c);
      }
    }

    /** MLOGSYS: decode ROM up to and including the page of rs1. */
    method DecodeRom(rs1: int, privilege: int) returns (r: Outcome)
      requires Valid() && IsAccess(InitCache(rs1, privilege))
      modifies this`cells, this`imm, this`m, this`etext, this`decoded
      ensures Valid() && m.rom == old(m.rom)
      ensures (r, Current()) == Step(c, RomView(), old(Current()), InitCache(rs1, privilege))
      ensures privilege < 3 ==> etext == old(etext)
      ensures old(decoded) <= decoded
      ensures privilege >= 3 ==> PageLimit(rs1, etext)
    {
      if privilege < 3 {
        return Trap(2);
      }
      var limit;
      ghost var pages;
      limit, pages := TextLimit(rs1);
      DecodeUpTo(limit);
      decoded := if decoded < pages then pages else decoded;
      etext := limit;
      r := Done;
    }

    /** Any access but a stray word store keeps the unit valid, so the cache coherent, and acts as on the flat
        memory.  A stray store is reported as done, changes no word, and keeps the unit valid exactly if it is
        harmless. */
    method Execute(a: Access) returns (r: Outcome)
      requires Valid() && IsAccess(a)
      modifies this
      ensures m.rom == old(m.rom) && |m.words| == |old(m.words)| && old(decoded) <= decoded
      ensures !Stray(c, a) ==> Valid() && (r, Current()) == Step(c, RomView(), old(Current()), a)
      ensures Stray(c, a) ==>
                r == Done && m.words == old(m.words) && (Valid() <==> old(Harmless(a.address, a.value)))
    {
      match a
      case Load(address, n, signed) =>
        r := LoadValue(address, n, signed);
      case Store(address, n, value) =>
        r := StoreValue(address, n, value);
      case LoadReserved(address) =>
        r := LoadReservedWord(address);
      case StoreConditional(address, value) =>
        r := StoreConditionalWord(address, value);
      case Amo(address, op, value) =>
        IdRoundTrip(op);
        r := ModifyWord(address, IdOf(op), value);
      case InitCache(rs1, privilege) =>
        r := DecodeRom(rs1, privilege);
    }

    /** Whole runs, up to the first stray word store. */
    method ExecuteAll(s: seq<Access>) returns (n: nat, outcomes: seq<Outcome>)
      requires Valid() && forall i :: 0 <= i < |s| ==> IsAccess(s[i])
      modifies this
      ensures n <= |s| && (n < |s| ==> Stray(c, s[n])) && forall i :: 0 <= i < n ==> !Stray(c, s[i])
      ensures Valid() && m.rom == old(m.rom) && (outcomes, Current()) == Run(c, RomView(), old(Current()), s[..n])
    {
      n, outcomes := 0, [];
      while n < |s| && !Stray(c, s[n])
        invariant n <= |s| && Valid() && m.rom == old(m.rom) && forall i :: 0 <= i < n ==> !Stray(c, s[i])
        invariant (outcomes, Current()) == Run(c, RomView(), old(Current()), s[..n])
      {
        var r := Execute(s[n]);
        outcomes := outcomes + [r];
        assert s[..n + 1][..n] == s[..n];
        n := n + 1;
      }
    }
  }

  // --- helpers of the unit ----------------------------------------------------

  /** rs1 rounded to the next page, in 32 bits. */
  method PageAbove(rs1: int) returns (limit: int, ghost pages: int)
    requires 0 <= rs1 < 0x1_0000_0000
    ensures 0 <= limit && limit == 4096 * pages
    ensures rs1 + 4096 < 0x1_0000_0000 ==> rs1 < limit <= rs1 + 4096
  {
    pages := (rs1 + 4096) % 0x1_0000_0000 / 4096;
    limit := (rs1 + 4096) % 0x1_0000_0000 / 4096 * 4096;
  }

  lemma Quarter(position: int, q: int, r: int)
    requires position == 4 * q + r && 0 <= r < 4
    ensures position / 4 == q
  {
  }

  /** Consecutive ROM words of one page have their cache slots in one processor, under consecutive names. */
  lemma SamePage(c: Config, k: int)
    requires 0 < c.width && 0 <= k
    ensures SlotCell(c, RomCache(k)).name == VariableName(k % 4096)
    ensures (k % 4096 + 1) % 1024 != 0 ==>
              SlotCell(c, RomCache(k + 1)) == SlotCell(c, RomCache(k)).(name := VariableName(k % 4096 + 1))
  {
    RomSlot(c, k);
    RomSlot(c, k + 1);
    NextInPage(k);
  }

  lemma RomSlot(c: Config, k: int)
    requires 0 < c.width
    ensures var proc := c.ram + k / 4096 + (c.programRom + c.dataRom);
            SlotCell(c, RomCache(k)) == Cell(ProcX(c, proc), ProcY(c, proc), VariableName(k % 4096))
  {
    SamePosition(c.ram, k);
  }

  lemma NextInPage(k: int)
    ensures (k % 4096 + 1) % 1024 != 0 ==> (k + 1) / 4096 == k / 4096 && (k + 1) % 4096 == k % 4096 + 1
  {
  }

  lemma SamePosition(procs: int, k: int)
    ensures (4096 * procs + k) / 4096 == procs + k / 4096 && (4096 * procs + k) % 4096 == k % 4096
  {
  }

  /** The word that contains an address, if it is in ROM or RAM. */
  function WordAt(c: Config, m: Contents, address: int): Option<bv32>
    requires |m.words| == RamWords(c) && |m.rom| == RomWords(c) && 0 <= address
  {
    if address < 4 * RomWords(c) then Some(m.rom[address / 4])
    else if InRam(c, address) then Some(m.words[Index(c, address)])
    else None
  }

  lemma RomMeaning(c: Config, m: Contents, address: int, n: int, signed: bool)
    requires ValidConfig(c) && |m.words| == RamWords(c) && |m.rom| == RomWords(c)
    requires IsSize(n) && OnBoundary(address, n) && 0 <= address < 4 * RomWords(c)
    ensures LoadSpec(c, Flat(m.rom), Flat(m.words), address, n, signed)
         == Value(Extract(m.rom[address / 4], address % 4, n, signed))
  {
    AlignedAddress(address, n);
    WholeAndRest(address);
    JoinWord(m.rom, address / 4, address % 4, n, signed);
  }

  lemma LoadsRam(c: Config, rom: seq<bv8>, ram: seq<bv8>, address: int, n: int, signed: bool, v: bv32)
    requires ValidConfig(c) && |ram| == 4 * RamWords(c) && |rom| == 4 * RomWords(c)
    requires IsSize(n) && OnBoundary(address, n) && InRam(c, address) && address - 0x8000_0000 + n <= |ram|
    requires v == Join(ram, address - 0x8000_0000, n, signed)
    ensures LoadSpec(c, rom, ram, address, n, signed) == Value(v)
  {
  }

  lemma RamMeaning(c: Config, m: Contents, address: int, n: int, signed: bool)
    requires ValidConfig(c) && |m.words| == RamWords(c) && |m.rom| == RomWords(c)
    requires IsSize(n) && OnBoundary(address, n) && InRam(c, address)
    ensures LoadSpec(c, Flat(m.rom), Flat(m.words), address, n, signed)
         == Value(Extract(m.words[Index(c, address)], address % 4, n, signed))
  {
    AlignedAddress(address, n);
    WholeAccess(c, address, n);
    JoinWord(m.words, Index(c, address), address % 4, n, signed);
    LoadsRam(c, Flat(m.rom), Flat(m.words), address, n, signed,
             Extract(m.words[Index(c, address)], address % 4, n, signed));
  }

  /** Loading from the word that contains an address is loading from the flat memory. */
  lemma LoadMeaning(c: Config, m: Contents, address: int, n: int, signed: bool)
    requires ValidConfig(c) && |m.words| == RamWords(c) && |m.rom| == RomWords(c)
    requires IsSize(n) && OnBoundary(address, n) && 0 <= address < 0xf000_0000
    ensures LoadSpec(c, Flat(m.rom), Flat(m.words), address, n, signed)
         == match WordAt(c, m, address) case None => Trap(5) case Some(w) => Value(Extract(w, address % 4, n, signed))
  {
    if address < 4 * RomWords(c) {
      RomMeaning(c, m, address, n, signed);
    } else if InRam(c, address) {
      RamMeaning(c, m, address, n, signed);
    }
  }

  lemma WordMeaning(c: Config, m: Contents, i: int)
    requires ValidConfig(c) && Sized(c, m) && 0 <= i
    ensures match WordAt(c, m, 4 * i)
            case None => !LoadSpec(c, Flat(m.rom), Flat(m.words), 4 * i, 4, false).Value?
            case Some(w) => LoadSpec(c, Flat(m.rom), Flat(m.words), 4 * i, 4, false) == Value(w)
  {
    if 4 * i < 0xf000_0000 {
      LoadMeaning(c, m, 4 * i, 4, false);
    }
  }

  lemma AlignDown(c: Config, address: int)
    requires InRam(c, address)
    ensures (address - address % 4) % 4 == 0 && InRam(c, address - address % 4)
    ensures Index(c, address - address % 4) == Index(c, address)
  {
  }

  lemma StoreMeaning(c: Config, words: seq<bv32>, address: int, n: int, v: bv32, w: bv32)
    requires ValidConfig(c) && |words| == RamWords(c) && InRam(c, address)
    requires IsSize(n) && OnBoundary(address, n) && Inserted(words[Index(c, address)], v, address % 4, n, w)
    ensures StoreSpec(c, Flat(words), address, n, v) == (Done, Flat(words[Index(c, address) := w]))
  {
    AlignedAddress(address, n);
    PatchWord(words, Index(c, address), address % 4, n, v, w);
  }

  /** A decoded store keeps coherence. */
  lemma StoreCoherent(m: Contents, decoded: int, i: int, w: bv32, payload: bv54)
    requires Coherent(m, decoded) && 0 <= i < |m.ramCache| && Cached(payload, w)
    ensures Coherent(m.(words := m.words[i := w], ramCache := m.ramCache[i := payload]), decoded)
  {
    assert Inside(0);
  }

  /** So does decoding a ROM word. */
  lemma DecodeCoherent(m: Contents, decoded: int, i: int, payload: bv54)
    requires Coherent(m, decoded) && 0 <= i < |m.romCache| && Cached(payload, m.rom[i])
    ensures Coherent(m.(romCache := m.romCache[i := payload]), decoded)
  {
    assert Inside(0);
  }
}
