/**
  What the memory processors hold.

  A cell holds a RAM word in byte-reversed form or a cached instruction; a ROM
  processor holds a string with one character per byte.  `Contents` is the same
  memory as words and payloads, `Represents` ties the two together, and
  `Coherent` says that every cache slot in use holds a correct decoding of the
  word it stands for.
 */
module Memory {
  import opened Options
  import opened AddressMap
  import opened Bytes
  import opened Decoder

  type Cells = map<Cell, bv54>

  /** A variable that was never written is null and reads as zero. */
  function Read(cells: Cells, cell: Cell): bv54 { if cell in cells then cells[cell] else 0 }

  function LoadedWord(v: bv54): bv32 { Reverse(LowWord(v)) }

  function StoredWord(w: bv32): bv54 { Reverse(w) as bv54 }

  lemma LoadedStored(w: bv32)
    ensures LoadedWord(StoredWord(w)) == w
  {
    ReverseTwice(w);
  }

  /** RAM words, cached RAM words, cached ROM words and ROM words, each by word index. */
  datatype Contents = Contents(words: seq<bv32>, ramCache: seq<bv54>, romCache: seq<bv54>, rom: seq<bv32>)

  ghost predicate Sized(c: Config, m: Contents)
    requires ValidConfig(c)
  {
    |m.words| == RamWords(c) && |m.ramCache| == RamCovered(c) && |m.romCache| == RomCovered(c) && |m.rom| == RomWords(c)
  }

  function SlotValue(c: Config, cells: Cells, s: Slot): bv54
    requires ValidConfig(c)
  {
    Read(cells, SlotCell(c, s))
  }

  ghost predicate SlotsHold(c: Config, cells: Cells, m: Contents)
    requires ValidConfig(c)
  {
    && (forall i :: 0 <= i < |m.words| ==> SlotValue(c, cells, RamWord(i)) == StoredWord(m.words[i]))
    && (forall i :: 0 <= i < |m.ramCache| ==> m.ramCache[i] == SlotValue(c, cells, RamCache(i)))
    && (forall i :: 0 <= i < |m.romCache| ==> m.romCache[i] == SlotValue(c, cells, RomCache(i)))
  }

  /** The cells hold these words and payloads; kept folded. */
  ghost predicate Represents(c: Config, cells: Cells, m: Contents)
    requires ValidConfig(c)
  {
    Sized(c, m) && forall k: int :: Inside(k) ==> SlotsHold(c, cells, m)
  }

  /** Writing one slot changes that slot and no other. */
  lemma WriteSlot(c: Config, cells: Cells, s: Slot, v: bv54, t: Slot)
    requires ValidConfig(c) && ValidSlot(c, s) && ValidSlot(c, t)
    ensures SlotValue(c, cells[SlotCell(c, s) := v], t) == if s == t then v else SlotValue(c, cells, t)
  {
    if SlotCell(c, t) == SlotCell(c, s) {
      SlotCellInjective(c, t, s);
    }
  }

  /** One write leaves the slots of the other two regions alone, and the other slots of its own region. */
  lemma WriteKeeps(c: Config, cells: Cells, m: Contents, s: Slot, v: bv54)
    requires ValidConfig(c) && Represents(c, cells, m) && ValidSlot(c, s)
    ensures forall i :: 0 <= i < |m.words| && s != RamWord(i) ==>
              SlotValue(c, cells[SlotCell(c, s) := v], RamWord(i)) == StoredWord(m.words[i])
    ensures forall i :: 0 <= i < |m.ramCache| && s != RamCache(i) ==>
              m.ramCache[i] == SlotValue(c, cells[SlotCell(c, s) := v], RamCache(i))
    ensures forall i :: 0 <= i < |m.romCache| && s != RomCache(i) ==>
              m.romCache[i] == SlotValue(c, cells[SlotCell(c, s) := v], RomCache(i))
  {
    assert Inside(0);
    forall i | 0 <= i < |m.words|
      ensures s != RamWord(i) ==> SlotValue(c, cells[SlotCell(c, s) := v], RamWord(i)) == StoredWord(m.words[i])
    {
      WriteSlot(c, cells, s, v, RamWord(i));
    }
    forall i | 0 <= i < |m.ramCache|
      ensures s != RamCache(i) ==> m.ramCache[i] == SlotValue(c, cells[SlotCell(c, s) := v], RamCache(i))
    {
      WriteSlot(c, cells, s, v, RamCache(i));
    }
    forall i | 0 <= i < |m.romCache|
      ensures s != RomCache(i) ==> m.romCache[i] == SlotValue(c, cells[SlotCell(c, s) := v], RomCache(i))
    {
      WriteSlot(c, cells, s, v, RomCache(i));
    }
  }

  lemma WriteRamWord(c: Config, cells: Cells, m: Contents, i: int, w: bv32)
    requires ValidConfig(c) && Represents(c, cells, m) && 0 <= i < |m.words|
    ensures Represents(c, cells[SlotCell(c, RamWord(i)) := StoredWord(w)], m.(words := m.words[i := w]))
  {
    WriteKeeps(c, cells, m, RamWord(i), StoredWord(w));
    WriteSlot(c, cells, RamWord(i), StoredWord(w), RamWord(i));
  }

  lemma WriteRamCache(c: Config, cells: Cells, m: Contents, i: int, payload: bv54)
    requires ValidConfig(c) && Represents(c, cells, m) && 0 <= i < |m.ramCache|
    ensures Represents(c, cells[SlotCell(c, RamCache(i)) := payload], m.(ramCache := m.ramCache[i := payload]))
  {
    WriteKeeps(c, cells, m, RamCache(i), payload);
    WriteSlot(c, cells, RamCache(i), payload, RamCache(i));
  }

  lemma WriteRomCache(c: Config, cells: Cells, m: Contents, i: int, payload: bv54)
    requires ValidConfig(c) && Represents(c, cells, m) && 0 <= i < |m.romCache|
    ensures Represents(c, cells[SlotCell(c, RomCache(i)) := payload], m.(romCache := m.romCache[i := payload]))
  {
    WriteKeeps(c, cells, m, RomCache(i), payload);
    WriteSlot(c, cells, RomCache(i), payload, RomCache(i));
  }

  // --- ROM --------------------------------------------------------------------

  /** The string of each ROM processor, by tile. */
  type RomStrings = map<(int, int), seq<bv54>>

  /** Four characters from position `k` on hold `w`; past the end of the string the word is zero. */
  predicate StringHolds(s: seq<bv54>, k: int, w: bv32)
    requires 0 <= k
  {
    if k + 3 < |s| then CharactersHold(s[k], s[k + 1], s[k + 2], s[k + 3], w) else |s| <= k && w == 0
  }

  /** The tile of a ROM processor. */
  function RomTile(c: Config, proc: int): (int, int)
    requires 0 < c.width
  {
    (ProcX(c, proc), ProcY(c, proc))
  }

  function StringAt(rom: RomStrings, tile: (int, int)): seq<bv54> { if tile in rom then rom[tile] else [] }

  predicate StringsHold(c: Config, rom: RomStrings, words: seq<bv32>)
    requires 0 < c.width
  {
    forall i :: 0 <= i < |words| ==> StringHolds(StringAt(rom, RomTile(c, i / 4096)), 4 * (i % 4096), words[i])
  }

  /** The ROM processors hold these words; kept folded. */
  ghost predicate RomHolds(c: Config, rom: RomStrings, words: seq<bv32>)
    requires 0 < c.width
  {
    forall k: int :: Inside(k) ==> StringsHold(c, rom, words)
  }

  // --- coherence --------------------------------------------------------------

  /** `Caches`, kept under a quantifier so that proofs about memory do not look inside the decoder; `Unfold(0)` opens
      it. */
  ghost predicate Cached(payload: bv54, w: bv32) { forall k: int :: Unfold(k) ==> Caches(payload, w) }

  ghost predicate SlotsDecode(m: Contents, decoded: int)
    requires |m.ramCache| <= |m.words| && 0 <= decoded <= |m.romCache| <= |m.rom|
  {
    && (forall i :: 0 <= i < |m.ramCache| ==> Cached(m.ramCache[i], m.words[i]))
    && (forall i :: 0 <= i < decoded ==> Cached(m.romCache[i], m.rom[i]))
  }

  /** Every cache slot of RAM, and the first `decoded` slots of ROM, hold a correct decoding of their word; kept
      folded. */
  ghost predicate Coherent(m: Contents, decoded: int) {
    && |m.ramCache| <= |m.words| && 0 <= decoded <= |m.romCache| <= |m.rom|
    && forall k: int :: Inside(k) ==> SlotsDecode(m, decoded)
  }

  /** Memory that was never written: every cell reads as zero. */
  ghost function NullContents(c: Config, rom: seq<bv32>): Contents
    requires ValidConfig(c)
  {
    Contents(seq(RamWords(c), _ => 0), seq(RamCovered(c), _ => 0), seq(RomCovered(c), _ => 0), rom)
  }

  lemma NullCoherent(c: Config, rom: seq<bv32>)
    requires ValidConfig(c) && |rom| == RomWords(c)
    ensures Represents(c, map[], NullContents(c, rom)) && Coherent(NullContents(c, rom), 0)
  {
    NullCaches();
    ReverseZero();
  }

  lemma ReverseZero()
    ensures StoredWord(0) == 0
  {
  }

  // Word stores that miss RAM.

  /** The word whose decoding is kept at a position above RAM, if the slot is in use. */
  function HitWord(c: Config, m: Contents, decoded: int, p: int): Option<bv32>
    requires ValidConfig(c) && |m.words| == RamWords(c) && |m.rom| == RomWords(c) && decoded <= RomCovered(c)
  {
    if 0 <= p - RamWords(c) < decoded then Some(m.rom[p - RamWords(c)])
    else if 0 <= p - RamWords(c) - ProgramWords(c) < RamCovered(c) then Some(m.words[p - RamWords(c) - ProgramWords(c)])
    else None
  }

  /** Memory after a write at a position above RAM. */
  function Overwritten(c: Config, m: Contents, p: int, v: bv54): Contents
    requires ValidConfig(c) && |m.ramCache| == RamCovered(c) && |m.romCache| == RomCovered(c)
  {
    if 0 <= p - RamWords(c) < RomCovered(c) then m.(romCache := m.romCache[p - RamWords(c) := v])
    else if 0 <= p - RamWords(c) - ProgramWords(c) < RamCovered(c) then
      m.(ramCache := m.ramCache[p - RamWords(c) - ProgramWords(c) := v])
    else m
  }

  lemma NoSlotAt(c: Config, p: int, s: Slot)
    requires ValidConfig(c) && RamWords(c) <= p && ValidSlot(c, s)
    requires !(0 <= p - RamWords(c) < RomCovered(c)) && !(0 <= p - RamWords(c) - ProgramWords(c) < RamCovered(c))
    ensures WordCell(c, p) != SlotCell(c, s)
  {
    if WordCell(c, p) == SlotCell(c, s) {
      WordCellInjective(c, p, Position(c, s));
    }
  }

  lemma UnusedCell(c: Config, cells: Cells, m: Contents, p: int, v: bv54)
    requires ValidConfig(c) && Represents(c, cells, m) && RamWords(c) <= p
    requires !(0 <= p - RamWords(c) < RomCovered(c)) && !(0 <= p - RamWords(c) - ProgramWords(c) < RamCovered(c))
    ensures Represents(c, cells[WordCell(c, p) := v], m)
  {
    assert Inside(0);
    forall s | ValidSlot(c, s) ensures SlotValue(c, cells[WordCell(c, p) := v], s) == SlotValue(c, cells, s) {
      NoSlotAt(c, p, s);
    }
  }

  /** One cell write above RAM changes one slot, or none. */
  lemma OverwriteRepresents(c: Config, cells: Cells, m: Contents, p: int, v: bv54)
    requires ValidConfig(c) && Represents(c, cells, m) && RamWords(c) <= p
    ensures Represents(c, cells[WordCell(c, p) := v], Overwritten(c, m, p, v))
  {
    var i, j := p - RamWords(c), p - RamWords(c) - ProgramWords(c);
    if 0 <= i < RomCovered(c) {
      assert Position(c, RomCache(i)) == p;
      WriteRomCache(c, cells, m, i, v);
    } else if 0 <= j < RamCovered(c) {
      assert Position(c, RamCache(j)) == p;
      WriteRamCache(c, cells, m, j, v);
    } else {
      UnusedCell(c, cells, m, p, v);
    }
  }

  /** It keeps the cache coherent exactly if it is a decoding of the word whose slot it hits. */
  lemma OverwriteCoherent(c: Config, m: Contents, decoded: int, p: int, v: bv54)
    requires ValidConfig(c) && Sized(c, m) && Coherent(m, decoded)
    ensures Coherent(Overwritten(c, m, p, v), decoded)
       <==> (HitWord(c, m, decoded, p).Some? ==> Cached(v, HitWord(c, m, decoded, p).value))
  {
    assert Inside(0);
    var after := Overwritten(c, m, p, v);
    if Coherent(after, decoded) && HitWord(c, m, decoded, p).Some? {
      if 0 <= p - RamWords(c) < decoded {
        assert Cached(after.romCache[p - RamWords(c)], after.rom[p - RamWords(c)]);
      } else {
        var i := p - RamWords(c) - ProgramWords(c);
        assert Cached(after.ramCache[i], after.words[i]);
      }
    }
  }

  /** A stored word has no op_id bits, so as a payload it is the illegal instruction. */
  lemma StrayPayload(value: bv32, w: bv32)
    ensures Cached(StoredWord(value), w) <==> DecodedId(w) == ILLEGAL
  {
    NoOpId(Reverse(value));
    if Cached(StoredWord(value), w) {
      assert Unfold(0);
    }
  }

  lemma NoOpId(w: bv32)
    ensures PayloadId(w as bv54) == ILLEGAL
  {
  }

  /** Two words are the same instruction: same op_id, registers and immediate. */
  predicate SameInstruction(v: bv32, w: bv32) {
    && DecodedId(v) == DecodedId(w)
    && (DecodedId(w) != ILLEGAL ==> Rd(v) == Rd(w) && Rs1(v) == Rs1(w) && Rs2(v) == Rs2(w))
    && (DecodedId(w) != ILLEGAL && WordFormat(w) != Register ==> ImmOf(WordFormat(v), v) == ImmOf(WordFormat(w), w))
  }

  /** The same, kept folded. */
  ghost predicate DecodesAlike(v: bv32, w: bv32) { forall k: int :: Unfold(k) ==> SameInstruction(v, w) }

  /** A decoding of one word is one of another exactly if the two are the same instruction. */
  lemma SharedPayload(payload: bv54, v: bv32, w: bv32)
    requires Cached(payload, v)
    ensures Cached(payload, w) <==> DecodesAlike(v, w)
  {
    assert Unfold(0);
    SameFormatKind(v, w);
  }

  // --- bytes ------------------------------------------------------------------

  /** Words as the flat little-endian byte array that a program sees. */
  function Flat(words: seq<bv32>): (bytes: seq<bv8>)
    ensures |bytes| == 4 * |words|
  {
    seq(4 * |words|, a requires 0 <= a < 4 * |words| => ByteOf(words[a / 4], a % 4))
  }

  /** `bytes` with the low `n` bytes of `v` stored at `a`. */
  function Patch(bytes: seq<bv8>, a: int, n: int, v: bv32): seq<bv8>
    requires 0 <= a && 0 <= n <= 4 && a + n <= |bytes|
  {
    seq(|bytes|, k requires 0 <= k < |bytes| => PatchedByte(bytes, a, n, v, k))
  }

  /** The bytes from `a` on, least significant first, zero- or sign-extended. */
  function Join(bytes: seq<bv8>, a: int, n: int, signed: bool): bv32
    requires 0 <= a && 1 <= n <= 4 && a + n <= |bytes|
  {
    if n == 1 then ExtractByte(bytes[a], signed)
    else if n == 2 then ExtractHalf(Half(bytes[a], bytes[a + 1]), signed)
    else if n == 4 then LittleEndian(bytes[a], bytes[a + 1], bytes[a + 2], bytes[a + 3])
    else 0
  }

  function Half(low: bv8, high: bv8): bv16 { (low as bv16) | ((high as bv16) << 8) }

  lemma LowHalf(w: bv32)
    ensures (w & 0xffff) as bv16 == ((w & 0xff) as bv8 as bv16) | ((((w >> 8) & 0xff) as bv8 as bv16) << 8)
  {
  }

  lemma HighHalf(w: bv32)
    ensures (w >> 16) as bv16 == (((w >> 16) & 0xff) as bv8 as bv16) | (((w >> 24) as bv8 as bv16) << 8)
  {
  }

  lemma HalfBytes(w: bv32, k: int)
    requires k == 0 || k == 2
    ensures HalfOf(w, k) == Half(ByteOf(w, k), ByteOf(w, k + 1))
  {
    if k == 0 {
      LowHalf(w);
    } else {
      HighHalf(w);
    }
  }

  lemma WholeAndRest(a: int)
    ensures a == 4 * (a / 4) + a % 4 && 0 <= a % 4 < 4
  {
  }

  lemma PatchByte(words: seq<bv32>, i: int, k: int, n: int, v: bv32, w: bv32, a: int)
    requires 0 <= i < |words| && Aligned(k, n) && Inserted(words[i], v, k, n, w) && 0 <= a < 4 * |words|
    ensures ByteOf(words[i := w][a / 4], a % 4)
         == if 4 * i + k <= a < 4 * i + k + n then ByteOf(v, a - (4 * i + k)) else ByteOf(words[a / 4], a % 4)
  {
    WholeAndRest(a);
    if a / 4 != i {
      assert !(4 * i + k <= a < 4 * i + k + n);
    }
  }

  lemma FlatByte(words: seq<bv32>, a: int)
    requires 0 <= a < 4 * |words|
    ensures Flat(words)[a] == ByteOf(words[a / 4], a % 4)
  {
  }

  lemma PatchedAt(words: seq<bv32>, i: int, k: int, n: int, v: bv32, w: bv32, a: int)
    requires 0 <= i < |words| && Aligned(k, n) && Inserted(words[i], v, k, n, w) && 0 <= a < 4 * |words|
    ensures Flat(words[i := w])[a]
         == if 4 * i + k <= a < 4 * i + k + n then ByteOf(v, a - (4 * i + k)) else Flat(words)[a]
  {
    FlatByte(words, a);
    FlatByte(words[i := w], a);
    PatchByte(words, i, k, n, v, w, a);
  }

  /** Byte `a` after a patch. */
  function PatchedByte(bytes: seq<bv8>, p: int, n: int, v: bv32, a: int): bv8
    requires 0 <= a < |bytes|
  {
    if p <= a < p + n then ByteOf(v, a - p) else bytes[a]
  }

  ghost predicate PatchedBytes(after: seq<bv8>, bytes: seq<bv8>, p: int, n: int, v: bv32) {
    |after| == |bytes| && forall a :: 0 <= a < |bytes| ==> after[a] == PatchedByte(bytes, p, n, v, a)
  }

  lemma PatchedEverywhere(words: seq<bv32>, i: int, k: int, n: int, v: bv32, w: bv32)
    requires 0 <= i < |words| && Aligned(k, n) && Inserted(words[i], v, k, n, w)
    ensures PatchedBytes(Flat(words[i := w]), Flat(words), 4 * i + k, n, v)
  {
    var after, bytes := Flat(words[i := w]), Flat(words);
    forall a | 0 <= a < 4 * |words| ensures after[a] == PatchedByte(bytes, 4 * i + k, n, v, a) {
      PatchedAt(words, i, k, n, v, w, a);
    }
  }

  /** Replacing bytes of one word is patching the byte array. */
  lemma PatchWord(words: seq<bv32>, i: int, k: int, n: int, v: bv32, w: bv32)
    requires 0 <= i < |words| && Aligned(k, n) && Inserted(words[i], v, k, n, w)
    ensures Flat(words[i := w]) == Patch(Flat(words), 4 * i + k, n, v)
  {
    PatchedEverywhere(words, i, k, n, v, w);
    PatchedPointwise(Flat(words[i := w]), Flat(words), 4 * i + k, n, v);
  }

  lemma PatchedPointwise(after: seq<bv8>, bytes: seq<bv8>, p: int, n: int, v: bv32)
    requires 0 <= p && 0 <= n <= 4 && p + n <= |bytes| && PatchedBytes(after, bytes, p, n, v)
    ensures after == Patch(bytes, p, n, v)
  {
  }

  /** Reading bytes of one word is reading the byte array. */
  lemma JoinWord(words: seq<bv32>, i: int, k: int, n: int, signed: bool)
    requires 0 <= i < |words| && Aligned(k, n)
    ensures Extract(words[i], k, n, signed) == Join(Flat(words), 4 * i + k, n, signed)
  {
    FlatAt(words, i);
    if n == 2 {
      HalfBytes(words[i], k);
    } else if n == 4 {
      WordOfBytes(words[i]);
    }
  }

  lemma FlatAt(words: seq<bv32>, i: int)
    requires 0 <= i < |words|
    ensures forall k :: 0 <= k < 4 ==> Flat(words)[4 * i + k] == ByteOf(words[i], k)
  {
  }
}
