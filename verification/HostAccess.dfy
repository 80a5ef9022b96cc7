/**
  The host side of memory: writing a program image into the ROM processors and
  reading RAM back as a file.
 */
module HostAccess {
  import opened Options
  import opened AddressMap
  import opened Bytes
  import opened Memory

  datatype Outcome<T> = Success(value: T) | Failure(message: string)

  // --- flashRom ---------------------------------------------------------------

  function Encode(bytes: seq<bv8>): (s: seq<bv54>)
    ensures |s| == |bytes|
    ensures forall i :: 0 <= i < |s| ==> s[i] == RomChar(bytes[i])
  {
    seq(|bytes|, i requires 0 <= i < |bytes| => RomChar(bytes[i]))
  }

  /** The part of the image that belongs to one ROM processor. */
  function ChunkOf(data: seq<bv8>, proc: int): seq<bv8> {
    if 0 <= proc && 16384 * proc + 16384 <= |data| then data[16384 * proc..16384 * proc + 16384]
    else if 0 <= proc && 16384 * proc <= |data| then data[16384 * proc..]
    else []
  }

  /** The first `n` ROM processors hold their chunks, and the others what they held before. */
  ghost predicate Written(c: Config, before: RomStrings, rom: RomStrings, data: seq<bv8>, n: int)
    requires 0 < c.width
  {
    forall p :: 0 <= p < c.programRom + c.dataRom ==>
      StringAt(rom, RomTile(c, p)) == if p < n then Encode(ChunkOf(data, p)) else StringAt(before, RomTile(c, p))
  }

  method EncodeBytes(bytes: seq<bv8>) returns (code: seq<bv54>)
    ensures code == Encode(bytes)
  {
    code := [];
    for i := 0 to |bytes|
      invariant code == Encode(bytes[..i])
    {
      code := code + [bytes[i] as bv54 + 174];
    }
    assert bytes[..|bytes|] == bytes;
  }

  lemma WriteTile(c: Config, rom: RomStrings, p: int, s: seq<bv54>, q: int)
    requires 0 < c.width
    ensures StringAt(rom[RomTile(c, p) := s], RomTile(c, q)) == if p == q then s else StringAt(rom, RomTile(c, q))
  {
    if RomTile(c, q) == RomTile(c, p) {
      ProcInjective(c, q, p);
    }
  }

  /** flashRomProc: replace the string of the ROM processor that holds `address`. */
  method FlashRomProc(c: Config, rom: RomStrings, address: int, bytes: seq<bv8>, ghost p: int)
      returns (rom': RomStrings)
    requires 0 < c.width && address == 16384 * p
    ensures rom' == rom[RomTile(c, p) := Encode(bytes)]
  {
    var code := EncodeBytes(bytes);
    var index := address / 16384;
    assert index == p;
    rom' := rom[(c.memoryX + index % c.width, c.memoryY + index / c.width) := code];
  }

  method WriteChunk(c: Config, rom: RomStrings, address: int, bytes: seq<bv8>, ghost p: int, ghost before: RomStrings,
                    ghost data: seq<bv8>)
      returns (rom': RomStrings)
    requires 0 < c.width && 0 <= p && address == 16384 * p && bytes == ChunkOf(data, p)
    requires Written(c, before, rom, data, p)
    ensures Written(c, before, rom', data, p + 1)
  {
    rom' := FlashRomProc(c, rom, address, bytes, p);
    WrittenStep(c, before, rom, data, p);
  }

  lemma WrittenStep(c: Config, before: RomStrings, rom: RomStrings, data: seq<bv8>, p: int)
    requires 0 < c.width && 0 <= p && Written(c, before, rom, data, p)
    ensures Written(c, before, rom[RomTile(c, p) := Encode(ChunkOf(data, p))], data, p + 1)
  {
    forall q | 0 <= q < c.programRom + c.dataRom
      ensures StringAt(rom[RomTile(c, p) := Encode(ChunkOf(data, p))], RomTile(c, q))
           == if q < p + 1 then Encode(ChunkOf(data, q)) else StringAt(before, RomTile(c, q))
    {
      WriteTile(c, rom, p, Encode(ChunkOf(data, p)), q);
    }
  }

  /** How many processors an image of `n` bytes touches. */
  function ProcsFor(n: int): int { (n + 16383) / 16384 }

  /** flashRom: collect bytes, and write out a processor whenever 16384 of them are together and once more at the
      end. */
  method FlashRom(c: Config, rom: RomStrings, data: seq<bv8>) returns (r: Outcome<int>, rom': RomStrings)
    requires ValidConfig(c)
    ensures r.Success? <==> |data| % 4 == 0 && |data| <= 4 * RomWords(c)
    ensures r.Success? ==> r.value == |data| && Written(c, rom, rom', data, ProcsFor(|data|))
    ensures r.Failure? ==> rom' == rom
  {
    rom' := rom;
    if |data| % 4 != 0 {
      return Failure("Data length must be a multiple of 4 bytes."), rom';
    }
    if |data| > 16384 * (c.programRom + c.dataRom) {
      return Failure("Data is too large to fit into the processor's ROM."), rom';
    }
    var address := 0;
    var bytes: seq<bv8> := [];
    ghost var p := 0;
    for n := 0 to |data|
      invariant address == 16384 * p && 0 <= p && n == 16384 * p + |bytes| && |bytes| < 16384
      invariant bytes == data[16384 * p..n]
      invariant Written(c, rom, rom', data, p)
    {
      bytes := bytes + [data[n]];
      if |bytes| == 16384 {
        rom' := WriteChunk(c, rom', address, bytes, p, rom, data);
        bytes := [];
        address := address + 16384;
        p := p + 1;
      }
    }
    if |bytes| > 0 {
      rom' := WriteChunk(c, rom', address, bytes, p, rom, data);
    }
    r := Success(|data|);
  }

  /** ROM after flashing: the words of the image, zeros to the end of its last processor, and then what was there
      before. */
  function FlashedWord(data: seq<bv8>, before: seq<bv32>, i: int): bv32
    requires 0 <= i < |before|
  {
    if 4 * i + 3 < |data| then LittleEndian(data[4 * i], data[4 * i + 1], data[4 * i + 2], data[4 * i + 3])
    else if i / 4096 < ProcsFor(|data|) then 0
    else before[i]
  }

  function Flashed(data: seq<bv8>, before: seq<bv32>): (words: seq<bv32>)
    ensures |words| == |before|
    ensures forall i :: 0 <= i < |words| ==> words[i] == FlashedWord(data, before, i)
  {
    seq(|before|, i requires 0 <= i < |before| => FlashedWord(data, before, i))
  }

  lemma WordPlace(i: int, n: int)
    requires 0 <= i && n % 4 == 0
    ensures 4 * i == 16384 * (i / 4096) + 4 * (i % 4096)
    ensures i / 4096 < ProcsFor(n) <==> 16384 * (i / 4096) < n
    ensures 4 * i + 3 < n <==> 4 * i < n
  {
  }

  lemma ChunkBytes(data: seq<bv8>, p: int, k: int)
    requires 0 <= p && 0 <= k && k + 3 < 16384 && 16384 * p + k + 3 < |data|
    ensures var chunk, at := ChunkOf(data, p), 16384 * p + k;
            k + 3 < |chunk| && chunk[k] == data[at] && chunk[k + 1] == data[at + 1] && chunk[k + 2] == data[at + 2]
            && chunk[k + 3] == data[at + 3]
  {
  }

  /** What word `at / 4` of the image is, with zeros behind its end. */
  predicate IsImageWord(data: seq<bv8>, at: int, w: bv32)
    requires 0 <= at
  {
    w == if at + 3 < |data| then LittleEndian(data[at], data[at + 1], data[at + 2], data[at + 3]) else 0
  }

  lemma BytesInString(bytes: seq<bv8>, k: int, b0: bv8, b1: bv8, b2: bv8, b3: bv8)
    requires 0 <= k && k + 3 < |bytes|
    requires bytes[k] == b0 && bytes[k + 1] == b1 && bytes[k + 2] == b2 && bytes[k + 3] == b3
    ensures StringHolds(Encode(bytes), k, LittleEndian(b0, b1, b2, b3))
  {
    BytesHold(b0, b1, b2, b3);
  }

  lemma PastChunk(data: seq<bv8>, words: int, p: int, j: int)
    requires |data| == 4 * words && 0 <= p && 0 <= j && 16384 * p < |data| <= 16384 * p + 4 * j + 3
    ensures |ChunkOf(data, p)| <= 4 * j
  {
    assert words <= 4096 * p + j;
  }

  lemma ChunkWord(data: seq<bv8>, words: int, p: int, j: int, w: bv32)
    requires |data| == 4 * words && 0 <= p && 0 <= j < 4096 && 16384 * p < |data|
    requires IsImageWord(data, 16384 * p + 4 * j, w)
    ensures StringHolds(Encode(ChunkOf(data, p)), 4 * j, w)
  {
    var at := 16384 * p + 4 * j;
    if at + 3 < |data| {
      ChunkBytes(data, p, 4 * j);
      BytesInString(ChunkOf(data, p), 4 * j, data[at], data[at + 1], data[at + 2], data[at + 3]);
    } else {
      PastChunk(data, words, p, j);
    }
  }

  lemma ImageWord(data: seq<bv8>, before: seq<bv32>, i: int)
    requires 0 <= i < |before| && i / 4096 < ProcsFor(|data|)
    ensures IsImageWord(data, 4 * i, FlashedWord(data, before, i))
  {
  }

  lemma ChunkHolds(data: seq<bv8>, before: seq<bv32>, i: int)
    requires |data| % 4 == 0 && 0 <= i < |before| && i / 4096 < ProcsFor(|data|)
    ensures StringHolds(Encode(ChunkOf(data, i / 4096)), 4 * (i % 4096), FlashedWord(data, before, i))
  {
    WordPlace(i, |data|);
    ImageWord(data, before, i);
    ChunkWord(data, |data| / 4, i / 4096, i % 4096, FlashedWord(data, before, i));
  }

  /** What loads see after flashing. */
  lemma FlashHolds(c: Config, before: RomStrings, rom: RomStrings, data: seq<bv8>, words: seq<bv32>)
    requires ValidConfig(c) && |data| % 4 == 0 && |data| <= 4 * RomWords(c) && |words| == RomWords(c)
    requires RomHolds(c, before, words) && Written(c, before, rom, data, ProcsFor(|data|))
    ensures RomHolds(c, rom, Flashed(data, words))
  {
    assert Inside(0);
    forall i | 0 <= i < |words| ensures StringHolds(StringAt(rom, RomTile(c, i / 4096)), 4 * (i % 4096),
                                                    Flashed(data, words)[i]) {
      InProc(c, i);
      WordPlace(i, |data|);
      if i / 4096 < ProcsFor(|data|) {
        ChunkHolds(data, words, i);
      }
    }
  }

  lemma InProc(c: Config, i: int)
    requires 0 <= i < RomWords(c)
    ensures 0 <= i / 4096 < c.programRom + c.dataRom
  {
  }

  lemma FlashedByte(data: seq<bv8>, before: seq<bv32>, i: int, k: int)
    requires |data| % 4 == 0 && |data| <= 4 * |before| && 0 <= i && 0 <= k < 4 && 4 * i + k < |data|
    ensures Flat(Flashed(data, before))[4 * i + k] == data[4 * i + k]
  {
    WordPlace(i, |data|);
    FlashedAt(data, before, i, k);
    FlatAt(Flashed(data, before), i);
  }

  /** The image can be read back byte by byte. */
  lemma FlashedBytes(data: seq<bv8>, before: seq<bv32>)
    requires |data| % 4 == 0 && |data| <= 4 * |before|
    ensures Flat(Flashed(data, before))[..|data|] == data
  {
    var f := Flat(Flashed(data, before));
    forall a | 0 <= a < |data| ensures f[a] == data[a] {
      WholeAndRest(a);
      FlashedByte(data, before, a / 4, a % 4);
    }
  }

  lemma FlashedAt(data: seq<bv8>, before: seq<bv32>, i: int, k: int)
    requires 0 <= i < |before| && 4 * i + 3 < |data| && 0 <= k < 4
    ensures ByteOf(Flashed(data, before)[i], k) == data[4 * i + k]
  {
    ByteOfFour(data[4 * i], data[4 * i + 1], data[4 * i + 2], data[4 * i + 3], k);
  }

  lemma ByteOfFour(b0: bv8, b1: bv8, b2: bv8, b3: bv8, k: int)
    requires 0 <= k < 4
    ensures ByteOf(LittleEndian(b0, b1, b2, b3), k)
         == if k == 0 then b0 else if k == 1 then b1 else if k == 2 then b2 else b3
  {
    BytesOfWord(b0, b1, b2, b3);
  }

  // --- dumpRam ----------------------------------------------------------------

  function WordBytes(w: bv32): seq<bv8> { [ByteOf(w, 0), ByteOf(w, 1), ByteOf(w, 2), ByteOf(w, 3)] }

  /** The four bytes of a cell, most significant first. */
  method CellBytes(word: bv32, ghost w: bv32) returns (bytes: seq<bv8>)
    requires word == Reverse(w)
    ensures bytes == WordBytes(w)
  {
    ReversedBytes(w);
    bytes := [((word >> 24) & 0xff) as bv8, ((word >> 16) & 0xff) as bv8, ((word >> 8) & 0xff) as bv8,
              (word & 0xff) as bv8];
  }

  lemma ReversedBytes(w: bv32)
    ensures ((Reverse(w) >> 24) & 0xff) as bv8 == ByteOf(w, 0) && ((Reverse(w) >> 16) & 0xff) as bv8 == ByteOf(w, 1)
    ensures ((Reverse(w) >> 8) & 0xff) as bv8 == ByteOf(w, 2) && (Reverse(w) & 0xff) as bv8 == ByteOf(w, 3)
  {
  }

  /** One word of the dump: variable `i` (of the 4096) of the processor at a tile. */
  method DumpWord(c: Config, cells: Cells, tile: (int, int), i: int, ghost m: Contents, ghost k: int)
      returns (bytes: seq<bv8>)
    requires ValidConfig(c) && Represents(c, cells, m) && 0 <= k < |m.words|
    requires Cell(tile.0, tile.1, VariableName(i)) == SlotCell(c, RamWord(k))
    ensures bytes == WordBytes(m.words[k])
  {
    var value := Read(cells, Cell(tile.0, tile.1, VariableName(i)));
    LowOfWord(Reverse(m.words[k]));
    assert Inside(0);
    bytes := CellBytes(LowWord(value), m.words[k]);
  }

  /** getRamProc: the processor of a RAM address, and the index of its variable there. */
  method GetRamProc(c: Config, address: int, ghost k: int) returns (tile: (int, int), index: int, ghost proc: int)
    requires ValidConfig(c) && 0 <= k && address == 0x8000_0000 + 4 * k
    ensures k == 4096 * proc + index && 0 <= index < 4096 && tile == RomTile(c, c.programRom + c.dataRom + proc)
  {
    var ramVariable := (address - 0x8000_0000) / 4;
    var tileProc := (c.programRom + c.dataRom) + ramVariable / 4096;
    tile := (c.memoryX + tileProc % c.width, c.memoryY + tileProc / c.width);
    index := ramVariable % 4096;
    proc := ramVariable / 4096;
  }

  /** Variable number `i` of RAM processor `proc`. */
  lemma VariableOfWord(c: Config, proc: int, i: int)
    requires 0 < c.width && 0 <= i < 4096
    ensures var tile := RomTile(c, c.programRom + c.dataRom + proc);
            Cell(tile.0, tile.1, VariableName(i)) == SlotCell(c, RamWord(4096 * proc + i))
  {
    DivModOf(proc, i);
  }

  lemma DivModOf(proc: int, i: int)
    requires 0 <= i < 4096
    ensures (4096 * proc + i) / 4096 == proc && (4096 * proc + i) % 4096 == i
  {
  }

  lemma WordBytesAt(w: bv32, j: int)
    requires 0 <= j < 4
    ensures WordBytes(w)[j] == ByteOf(w, j)
  {
  }

  lemma FlatStep(words: seq<bv32>, a: int, k: int)
    requires 0 <= a <= k < |words|
    ensures Flat(words)[4 * a..4 * (k + 1)] == Flat(words)[4 * a..4 * k] + WordBytes(words[k])
  {
    FlatAt(words, k);
    forall j | 0 <= j < 4 ensures Flat(words)[4 * k + j] == WordBytes(words[k])[j] {
      WordBytesAt(words[k], j);
    }
    AppendFour(Flat(words), a, k, WordBytes(words[k]));
  }

  lemma AppendFour<T>(f: seq<T>, a: int, k: int, t: seq<T>)
    requires |t| == 4 && 0 <= a <= k && 4 * k + 4 <= |f| && forall j :: 0 <= j < 4 ==> f[4 * k + j] == t[j]
    ensures f[4 * a..4 * (k + 1)] == f[4 * a..4 * k] + t
  {
    assert f[4 * k..4 * k + 4] == t;
  }

  method DumpNext(c: Config, cells: Cells, tile: (int, int), i: int, soFar: seq<bv8>, ghost m: Contents, ghost k: int,
                  ghost a: int)
      returns (out: seq<bv8>)
    requires ValidConfig(c) && Represents(c, cells, m) && 0 <= a <= k < |m.words|
    requires Cell(tile.0, tile.1, VariableName(i)) == SlotCell(c, RamWord(k))
    requires soFar == Flat(m.words)[4 * a..4 * k]
    ensures out == Flat(m.words)[4 * a..4 * (k + 1)]
  {
    var bytes := DumpWord(c, cells, tile, i, m, k);
    FlatStep(m.words, a, k);
    out := soFar + bytes;
  }

  /** The words of processor `proc` from `index` on, as far as they are wanted. */
  method DumpFrom(c: Config, cells: Cells, tile: (int, int), index: int, count: int, soFar: seq<bv8>,
                  ghost m: Contents, ghost proc: int, ghost a: int)
      returns (out: seq<bv8>, taken: int)
    requires ValidConfig(c) && Represents(c, cells, m) && 0 < count
    requires 0 <= index < 4096 && 0 <= proc < c.ram && tile == RomTile(c, c.programRom + c.dataRom + proc)
    requires 0 <= a <= 4096 * proc + index && soFar == Flat(m.words)[4 * a..4 * (4096 * proc + index)]
    ensures 0 < taken <= count && index + taken <= 4096
    ensures out == Flat(m.words)[4 * a..4 * (4096 * proc + index + taken)]
  {
    out, taken := soFar, 0;
    while index + taken < 4096 && taken < count
      invariant 0 <= taken <= count && index + taken <= 4096 && (taken == 0 ==> index < 4096)
      invariant out == Flat(m.words)[4 * a..4 * (4096 * proc + index + taken)]
    {
      VariableOfWord(c, proc, index + taken);
      out := DumpNext(c, cells, tile, index + taken, out, m, 4096 * proc + index + taken, a);
      taken := taken + 1;
    }
  }

  method DumpProc(c: Config, cells: Cells, start: int, count: int, soFar: seq<bv8>, ghost m: Contents, ghost a: int)
      returns (out: seq<bv8>, taken: int)
    requires ValidConfig(c) && Represents(c, cells, m) && 0 <= a <= start < RamWords(c) && 0 < count
    requires soFar == Flat(m.words)[4 * a..4 * start]
    ensures 0 < taken <= count && start + taken <= RamWords(c) && out == Flat(m.words)[4 * a..4 * (start + taken)]
  {
    var tile, index;
    ghost var proc;
    tile, index, proc := GetRamProc(c, 0x8000_0000 + 4 * start, start);
    out, taken := DumpFrom(c, cells, tile, index, count, soFar, m, proc, a);
  }

  /** dumpRam: walk the RAM processors from an address on; the walk ends with RAM. */
  method DumpRam(c: Config, cells: Cells, startAddress: int, bytes: int, ghost m: Contents)
      returns (r: Outcome<seq<bv8>>)
    requires ValidConfig(c) && Represents(c, cells, m)
    ensures r.Success? <==>
              && 0 < bytes <= 4 * RamWords(c) && bytes % 4 == 0
              && 0 <= startAddress - 0x8000_0000 < 4 * RamWords(c) && startAddress % 4 == 0
    ensures r.Success? ==>
              var a := startAddress - 0x8000_0000;
              r.value == if a + bytes <= 4 * RamWords(c) then Flat(m.words)[a..a + bytes] else Flat(m.words)[a..]
  {
    if bytes <= 0 {
      return Failure("Bytes must be positive.");
    }
    if bytes > 16384 * c.ram {
      return Failure("Bytes must not be greater than the RAM size.");
    }
    if bytes % 4 != 0 {
      return Failure("Bytes must be aligned to 4 bytes.");
    }
    if !(0x8000_0000 <= startAddress < 0x8000_0000 + 16384 * c.ram) {
      return Failure("Start address must be within RAM.");
    }
    if startAddress % 4 != 0 {
      return Failure("Start address must be aligned to 4 bytes.");
    }
    var out := DumpWords(c, cells, (startAddress - 0x8000_0000) / 4, bytes / 4, m);
    r := Success(out);
  }

  method DumpWords(c: Config, cells: Cells, a: int, count: int, ghost m: Contents) returns (out: seq<bv8>)
    requires ValidConfig(c) && Represents(c, cells, m) && 0 <= a < RamWords(c) && 0 < count
    ensures out == Flat(m.words)[4 * a..4 * (if a + count <= RamWords(c) then a + count else RamWords(c))]
  {
    var at := a;
    out := [];
    while at < 4096 * c.ram && at < a + count
      invariant a <= at <= a + count && at <= RamWords(c)
      invariant out == Flat(m.words)[4 * a..4 * at]
    {
      var taken;
      out, taken := DumpProc(c, cells, at, a + count - at, out, m, a);
      at := at + taken;
    }
  }
}
