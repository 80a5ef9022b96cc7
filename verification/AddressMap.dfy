/**
  Where a byte lives.

  ROM, RAM and the instruction cache share one grid of memory processors.  ROM
  processors come first and hold 16384 bytes as a string; RAM and cache
  processors follow and hold 4096 words in variables with two-character names.
  The cache uses the same layout as RAM, directly after it: first the slots of
  program ROM, then the slots of RAM.
 */
module AddressMap {

  const RAM_START: int := 0x8000_0000
  const MMIO_START: int := 0xf000_0000
  const SYSCON: int := 0xffff_fff0

  /** The world's configuration; sizes in memory processors, since the builder lays out whole rows of them. */
  datatype Config = Config(memoryX: int, memoryY: int, width: int,
                           programRom: int, dataRom: int, ram: int, icache: int)

  predicate ValidConfig(c: Config) {
    && 0 < c.width
    && 0 <= c.programRom && 0 <= c.dataRom && 0 <= c.ram && 0 <= c.icache
    && 16384 * (c.programRom + c.dataRom) <= 0x8000_0000
    && 16384 * c.ram <= 0x7000_0000
  }

  // Region sizes in words; a processor holds 4096 of them.

  function RomWords(c: Config): int { 4096 * (c.programRom + c.dataRom) }

  function ProgramWords(c: Config): int { 4096 * c.programRom }

  function RamWords(c: Config): int { 4096 * c.ram }

  /** How much of program ROM has cache slots, and how much of RAM; in processors, then in words. */
  function RomCoveredProcs(c: Config): int { if c.programRom <= c.icache then c.programRom else c.icache }

  function RamCoveredProcs(c: Config): int {
    if c.icache <= c.programRom then 0 else if c.icache - c.programRom <= c.ram then c.icache - c.programRom else c.ram
  }

  function RomCovered(c: Config): int { 4096 * RomCoveredProcs(c) }

  function RamCovered(c: Config): int { 4096 * RamCoveredProcs(c) }

  /** The values that the CONFIG processor computes and every worker reads, in bytes. */
  datatype Layout = Layout(programRomIcache: int, romSize: int, ramSize: int, ramEnd: int, icacheEnd: int,
                           ramIcacheOffset: int)

  predicate LayoutFor(c: Config, l: Layout) {
    && l.programRomIcache == 4 * RomCovered(c) && l.romSize == 4 * RomWords(c)
    && l.ramSize == 4 * RamWords(c) && l.ramEnd == 0x8000_0000 + 4 * RamWords(c)
    && (if RamCovered(c) == 0 then l.icacheEnd <= 0x8000_0000 else l.icacheEnd == 0x8000_0000 + 4 * RamCovered(c))
    && l.icacheEnd == (if c.icache <= c.programRom then 16384 * c.icache else 0x8000_0000 + 4 * RamCovered(c))
    && l.ramIcacheOffset == 4 * (RamWords(c) + ProgramWords(c)) - 0x8000_0000
  }

  /** The layout script: the cache serves program ROM first and then as much of RAM as is left. */
  method ComputeLayout(c: Config) returns (l: Layout)
    requires ValidConfig(c)
    ensures LayoutFor(c, l)
  {
    var programRomSize, dataRomSize := 16384 * c.programRom, 16384 * c.dataRom;
    var ramSize, icacheSize := 16384 * c.ram, 16384 * c.icache;
    var programRomIcache := if programRomSize < icacheSize then programRomSize else icacheSize;
    var romSize := programRomSize + dataRomSize;
    var ramEnd := RAM_START + ramSize;
    var icacheEnd := icacheSize;
    if !(icacheSize <= programRomSize) {
      icacheEnd := icacheSize - programRomSize;
      icacheEnd := RAM_START + icacheEnd;
      icacheEnd := if icacheEnd < ramEnd then icacheEnd else ramEnd;
    }
    var ramIcacheOffset := ramSize + programRomSize;
    ramIcacheOffset := ramIcacheOffset - RAM_START;
    l := Layout(programRomIcache, romSize, ramSize, ramEnd, icacheEnd, ramIcacheOffset);
  }

  // --- slots ------------------------------------------------------------------

  /** A word of the RAM-style memory: a RAM word, or the cache slot of a ROM or RAM word; each by word index. */
  datatype Slot = RamWord(index: int) | RomCache(index: int) | RamCache(index: int)

  predicate ValidSlot(c: Config, s: Slot) {
    match s
    case RamWord(i) => 0 <= i < RamWords(c)
    case RomCache(i) => 0 <= i < RomCovered(c)
    case RamCache(i) => 0 <= i < RamCovered(c)
  }

  /** Word position in the RAM-style processors: a quarter of the `_address` handed to access_ram_raw. */
  function Position(c: Config, s: Slot): int {
    match s
    case RamWord(i) => i
    case RomCache(i) => RamWords(c) + i
    case RamCache(i) => RamWords(c) + ProgramWords(c) + i
  }

  /** The three regions stay inside the processors built for them. */
  lemma PositionBounds(c: Config, s: Slot)
    requires ValidConfig(c) && ValidSlot(c, s)
    ensures 0 <= Position(c, s) < 4096 * (c.ram + c.icache)
  {
  }

  /** The three regions do not overlap. */
  lemma PositionInjective(c: Config, s: Slot, t: Slot)
    requires ValidConfig(c) && ValidSlot(c, s) && ValidSlot(c, t)
    requires Position(c, s) == Position(c, t)
    ensures s == t
  {
  }

  // --- variable names ---------------------------------------------------------

  /** Code of the i-th name character: printable ASCII without quotes, digits, `#`, `;`, `@` and the backslash. */
  function NameCode(i: int): int {
    if i <= 0 then 33
    else if i < 4 then 35 + i
    else if i < 12 then 36 + i
    else if i < 13 then 58
    else if i < 17 then 47 + i
    else if i < 43 then 48 + i
    else if i < 44 then 91
    else 49 + i
  }

  predicate Excluded(code: int) {
    code in [34, 35, 39, 59, 64, 92] || 48 <= code <= 57
  }

  lemma NameCodeIncreasing(i: int, j: int)
    requires 0 <= i < j < 78
    ensures NameCode(i) < NameCode(j)
  {
  }

  /** The list comprehension that builds the name characters. */
  method NameCharacters() returns (chars: seq<int>)
    ensures |chars| == 78
    ensures forall i :: 0 <= i < 78 ==> chars[i] == NameCode(i)
  {
    chars := [];
    for code := 33 to 127
      invariant |chars| <= 78
      invariant forall i :: 0 <= i < |chars| ==> chars[i] == NameCode(i)
      invariant code <= NameCode(|chars|)
      invariant forall k :: code <= k < NameCode(|chars|) ==> Excluded(k)
      invariant |chars| == 78 ==> code == 127
      invariant code == 127 ==> |chars| == 78
    {
      if !Excluded(code) {
        chars := chars + [code];
      }
    }
  }

  /** The i-th variable of a RAM processor. */
  function VariableName(i: int): seq<int> { [NameCode(i / 64), NameCode(i % 64)] }

  lemma VariableNameInjective(i: int, j: int)
    requires 0 <= i < 4096 && 0 <= j < 4096 && VariableName(i) == VariableName(j)
    ensures i == j
  {
    assert VariableName(i)[0] == VariableName(j)[0] && VariableName(i)[1] == VariableName(j)[1];
    if i / 64 < j / 64 { NameCodeIncreasing(i / 64, j / 64); }
    if j / 64 < i / 64 { NameCodeIncreasing(j / 64, i / 64); }
    if i % 64 < j % 64 { NameCodeIncreasing(i % 64, j % 64); }
    if j % 64 < i % 64 { NameCodeIncreasing(j % 64, i % 64); }
  }

  /** iter_variables for the format the CPU uses: the first 64 characters, in pairs. */
  method IterVariables() returns (names: seq<seq<int>>)
    ensures |names| == 4096
    ensures forall i :: 0 <= i < 4096 ==> names[i] == VariableName(i)
  {
    var chars := NameCharacters();
    chars := chars[..64];
    names := [];
    for c1 := 0 to 64
      invariant |names| == 64 * c1
      invariant forall i :: 0 <= i < |names| ==> names[i] == VariableName(i)
    {
      for c2 := 0 to 64
        invariant |names| == 64 * c1 + c2
        invariant forall i :: 0 <= i < |names| ==> names[i] == VariableName(i)
      {
        names := names + [[chars[c1], chars[c2]]];
      }
    }
  }

  // --- cells ------------------------------------------------------------------

  /** A variable of a memory processor, by the processor's tile and the variable's name. */
  datatype Cell = Cell(x: int, y: int, name: seq<int>)

  function ProcX(c: Config, index: int): int
    requires 0 < c.width
  {
    c.memoryX + index % c.width
  }

  function ProcY(c: Config, index: int): int
    requires 0 < c.width
  {
    c.memoryY + index / c.width
  }

  lemma ProcInjective(c: Config, i: int, j: int)
    requires 0 < c.width
    requires ProcX(c, i) == ProcX(c, j) && ProcY(c, i) == ProcY(c, j)
    ensures i == j
  {
    assert i == (i / c.width) * c.width + i % c.width;
    assert j == (j / c.width) * c.width + j % c.width;
  }

  /** The cell of a word position. */
  function WordCell(c: Config, position: int): Cell
    requires 0 < c.width
  {
    var proc := position / 4096 + (c.programRom + c.dataRom);
    Cell(ProcX(c, proc), ProcY(c, proc), VariableName(position % 4096))
  }

  function SlotCell(c: Config, s: Slot): Cell
    requires 0 < c.width
  {
    WordCell(c, Position(c, s))
  }

  lemma WordCellInjective(c: Config, p: int, q: int)
    requires 0 < c.width && WordCell(c, p) == WordCell(c, q)
    ensures p == q
  {
    ProcInjective(c, p / 4096 + (c.programRom + c.dataRom), q / 4096 + (c.programRom + c.dataRom));
    VariableNameInjective(p % 4096, q % 4096);
  }

  /** No two words share a cell: RAM, the ROM cache and the RAM cache together. */
  lemma SlotCellInjective(c: Config, s: Slot, t: Slot)
    requires ValidConfig(c) && ValidSlot(c, s) && ValidSlot(c, t)
    requires SlotCell(c, s) == SlotCell(c, t)
    ensures s == t
  {
    WordCellInjective(c, Position(c, s), Position(c, t));
    PositionInjective(c, s, t);
  }

  /** A ROM processor is never a RAM or cache processor. */
  lemma RomProcsApart(c: Config, romProc: int, s: Slot)
    requires ValidConfig(c) && ValidSlot(c, s) && 0 <= romProc < c.programRom + c.dataRom
    ensures ProcX(c, romProc) != SlotCell(c, s).x || ProcY(c, romProc) != SlotCell(c, s).y
  {
    PositionBounds(c, s);
    var proc := Position(c, s) / 4096 + (c.programRom + c.dataRom);
    if ProcX(c, romProc) == ProcX(c, proc) && ProcY(c, romProc) == ProcY(c, proc) {
      ProcInjective(c, romProc, proc);
    }
  }
}
