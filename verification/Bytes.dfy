/**
  Bytes of a word: the little-endian view that programs have of memory, the
  byte-reversed form in which RAM keeps a word, and the partial loads and stores
  that are built from whole words.
 */
module Bytes {

  /** Byte `k` of a word, the lowest first. */
  function ByteOf(w: bv32, k: int): bv8 {
    if k == 0 then (w & 0xff) as bv8
    else if k == 1 then ((w >> 8) & 0xff) as bv8
    else if k == 2 then ((w >> 16) & 0xff) as bv8
    else (w >> 24) as bv8
  }

  /** A word from its bytes. */
  function LittleEndian(b0: bv8, b1: bv8, b2: bv8, b3: bv8): bv32 {
    (b0 as bv32) | ((b1 as bv32) << 8) | ((b2 as bv32) << 16) | ((b3 as bv32) << 24)
  }

  lemma WordOfBytes(w: bv32)
    ensures LittleEndian(ByteOf(w, 0), ByteOf(w, 1), ByteOf(w, 2), ByteOf(w, 3)) == w
  {
  }

  lemma BytesOfWord(b0: bv8, b1: bv8, b2: bv8, b3: bv8)
    ensures var w := LittleEndian(b0, b1, b2, b3);
            ByteOf(w, 0) == b0 && ByteOf(w, 1) == b1 && ByteOf(w, 2) == b2 && ByteOf(w, 3) == b3
  {
  }

  // --- byte order -------------------------------------------------------------

  /** The word with its bytes in the opposite order. */
  function Reverse(w: bv32): bv32 { LittleEndian(ByteOf(w, 3), ByteOf(w, 2), ByteOf(w, 1), ByteOf(w, 0)) }

  lemma ReverseTwice(w: bv32)
    ensures Reverse(Reverse(w)) == w
  {
  }

  /** A number in a variable; only its low 32 bits are a word. */
  function LowWord(v: bv54): bv32 { (v & 0xffff_ffff) as bv32 }

  lemma SwapBits(v: bv54)
    ensures ((v >> 24) & 0xff) | ((v << 8) & 0xff0000) | ((v >> 8) & 0xff00) | ((v << 24) & 0xff000000)
         == Reverse(LowWord(v)) as bv54
  {
  }

  /** swap_endianness */
  method SwapEndianness(value: bv54) returns (result: bv54)
    ensures result == Reverse(LowWord(value)) as bv54
  {
    SwapBits(value);
    result := ((value >> 24) & 0xff) | ((value << 8) & 0xff0000)
              | ((value >> 8) & 0xff00) | ((value << 24) & 0xff000000);
  }

  // --- partial loads ----------------------------------------------------------

  function HalfOf(w: bv32, k: int): bv16 { if k == 0 then (w & 0xffff) as bv16 else (w >> 16) as bv16 }

  function SignByte(b: bv8): bv32 { if (b as bv32) & 0x80 != 0 then (b as bv32) | 0xffffff00 else b as bv32 }

  function SignHalf(h: bv16): bv32 { if (h as bv32) & 0x8000 != 0 then (h as bv32) | 0xffff0000 else h as bv32 }

  function ExtractByte(b: bv8, signed: bool): bv32 { if signed then SignByte(b) else b as bv32 }

  function ExtractHalf(h: bv16, signed: bool): bv32 { if signed then SignHalf(h) else h as bv32 }

  /** `n` bytes of the word from byte `k` on, zero- or sign-extended to a register. */
  function Extract(w: bv32, k: int, n: int, signed: bool): bv32 {
    if n == 1 then ExtractByte(ByteOf(w, k), signed) else if n == 2 then ExtractHalf(HalfOf(w, k), signed) else w
  }

  predicate Aligned(k: int, n: int) {
    (n == 1 && 0 <= k < 4) || (n == 2 && (k == 0 || k == 2)) || (n == 4 && k == 0)
  }

  /** Shift right by the byte position and keep eight bits. */
  method TruncateByte(result: bv32, k: int) returns (rd: bv8)
    requires 0 <= k < 4
    ensures rd == ByteOf(result, k)
  {
    rd := if k == 0 then (result & 0xff) as bv8
          else if k == 1 then ((result >> 8) & 0xff) as bv8
          else if k == 2 then ((result >> 16) & 0xff) as bv8
          else ((result >> 24) & 0xff) as bv8;
  }

  method TruncateHalf(result: bv32, k: int) returns (rd: bv16)
    requires k == 0 || k == 2
    ensures rd == HalfOf(result, k)
  {
    rd := if k == 0 then (result & 0xffff) as bv16 else ((result >> 16) & 0xffff) as bv16;
  }

  lemma ClearByteSign(b: bv8)
    ensures (((b & 0x7f) as bv32) ^ 0x80) - 0x80 == (b & 0x7f) as bv32
  {
  }

  lemma SetByteSign(b: bv8)
    ensures ((((b & 0x7f) as bv32) | 0x80) ^ 0x80) - 0x80 == ((b & 0x7f) as bv32) | 0xffffff80
  {
  }

  /** extend_sign_rd on eight bits: flip and subtract the sign bit. */
  method ExtendByte(b: bv8) returns (rd: bv32)
    ensures rd == SignByte(b)
  {
    ClearByteSign(b);
    SetByteSign(b);
    if (b as bv32) & 0x80 == 0 {
      assert b as bv32 == (b & 0x7f) as bv32;
    } else {
      assert b as bv32 == ((b & 0x7f) as bv32) | 0x80;
    }
    rd := ((b as bv32) ^ 0x80) - 0x80;
  }

  lemma ClearHalfSign(h: bv16)
    ensures (((h & 0x7fff) as bv32) ^ 0x8000) - 0x8000 == (h & 0x7fff) as bv32
  {
  }

  lemma SetHalfSign(h: bv16)
    ensures ((((h & 0x7fff) as bv32) | 0x8000) ^ 0x8000) - 0x8000 == ((h & 0x7fff) as bv32) | 0xffff8000
  {
  }

  /** extend_sign_rd on sixteen bits: flip and subtract the sign bit. */
  method ExtendHalf(h: bv16) returns (rd: bv32)
    ensures rd == SignHalf(h)
  {
    ClearHalfSign(h);
    SetHalfSign(h);
    if (h as bv32) & 0x8000 == 0 {
      assert h as bv32 == (h & 0x7fff) as bv32;
    } else {
      assert h as bv32 == ((h & 0x7fff) as bv32) | 0x8000;
    }
    rd := ((h as bv32) ^ 0x8000) - 0x8000;
  }

  method ExtendByteIf(b: bv8, signed: bool) returns (rd: bv32)
    ensures rd == ExtractByte(b, signed)
  {
    if signed {
      rd := ExtendByte(b);
    } else {
      rd := b as bv32;
    }
  }

  method ExtendHalfIf(h: bv16, signed: bool) returns (rd: bv32)
    ensures rd == ExtractHalf(h, signed)
  {
    if signed {
      rd := ExtendHalf(h);
    } else {
      rd := h as bv32;
    }
  }

  /** The tail of load_value: shift by the byte position, truncate to the length, and extend the sign for LB and LH. */
  method ExtractValue(result: bv32, k: int, n: int, signed: bool) returns (rd: bv32)
    requires Aligned(k, n)
    ensures rd == Extract(result, k, n, signed)
  {
    if n == 1 {
      var b := TruncateByte(result, k);
      rd := ExtendByteIf(b, signed);
    } else if n == 2 {
      var h := TruncateHalf(result, k);
      rd := ExtendHalfIf(h, signed);
    } else {
      rd := result;
    }
  }

  // --- partial stores ---------------------------------------------------------

  /** `w` with `n` bytes from byte `k` on replaced by the low bytes of `v`. */
  predicate Inserted(w: bv32, v: bv32, k: int, n: int, r: bv32) {
    forall i :: 0 <= i < 4 ==> ByteOf(r, i) == if k <= i < k + n then ByteOf(v, i - k) else ByteOf(w, i)
  }

  lemma InsertByte0(w: bv32, v: bv32)
    ensures Inserted(w, v, 0, 1, (w & (0xffffffff - 0xff)) + (v & 0xff))
  {
  }

  lemma InsertByte1(w: bv32, v: bv32)
    ensures Inserted(w, v, 1, 1, (w & (0xffffffff - (0xff << 8))) + ((v & 0xff) << 8))
  {
  }

  lemma InsertByte2(w: bv32, v: bv32)
    ensures Inserted(w, v, 2, 1, (w & (0xffffffff - (0xff << 16))) + ((v & 0xff) << 16))
  {
  }

  lemma InsertByte3(w: bv32, v: bv32)
    ensures Inserted(w, v, 3, 1, (w & (0xffffffff - (0xff << 24))) + ((v & 0xff) << 24))
  {
  }

  lemma InsertHalfBits(w: bv32, v: bv32)
    ensures Inserted(w, v, 0, 2, (w & (0xffffffff - 0xffff)) + (v & 0xffff))
    ensures Inserted(w, v, 2, 2, (w & (0xffffffff - (0xffff << 16))) + ((v & 0xffff) << 16))
  {
  }

  method InsertByte(result: bv32, rs2: bv32, k: int) returns (value: bv32)
    requires 0 <= k < 4
    ensures Inserted(result, rs2, k, 1, value)
  {
    if k == 0 {
      InsertByte0(result, rs2);
      value := (result & (0xffffffff - 0xff)) + (rs2 & 0xff);
    } else if k == 1 {
      InsertByte1(result, rs2);
      value := (result & (0xffffffff - (0xff << 8))) + ((rs2 & 0xff) << 8);
    } else if k == 2 {
      InsertByte2(result, rs2);
      value := (result & (0xffffffff - (0xff << 16))) + ((rs2 & 0xff) << 16);
    } else {
      InsertByte3(result, rs2);
      value := (result & (0xffffffff - (0xff << 24))) + ((rs2 & 0xff) << 24);
    }
  }

  /** The middle of store_value: clear the bytes with a mask and add the shifted value. */
  method InsertValue(result: bv32, rs2: bv32, k: int, n: int) returns (value: bv32)
    requires Aligned(k, n) && n <= 2
    ensures Inserted(result, rs2, k, n, value)
  {
    if n == 1 {
      value := InsertByte(result, rs2, k);
    } else {
      InsertHalfBits(result, rs2);
      if k == 0 {
        value := (result & (0xffffffff - 0xffff)) + (rs2 & 0xffff);
      } else {
        value := (result & (0xffffffff - (0xffff << 16))) + ((rs2 & 0xffff) << 16);
      }
    }
  }

  lemma InsertedWord(w: bv32, v: bv32)
    ensures Inserted(w, v, 0, 4, v)
  {
  }

  // --- ROM characters ---------------------------------------------------------

  /** A byte as a character of a ROM string. */
  function RomChar(b: bv8): bv54 { b as bv54 + 174 }

  function RomSum(c0: bv54, c1: bv54, c2: bv54, c3: bv54): bv54 {
    c0 + (c1 << 8) + (c2 << 16) + (c3 << 24) - 174 * 0x01010101
  }

  /** Four characters hold a word if their weighted sum, without the offsets, is that word. */
  predicate CharactersHold(c0: bv54, c1: bv54, c2: bv54, c3: bv54, w: bv32) { RomSum(c0, c1, c2, c3) == w as bv54 }

  lemma RomBits(b0: bv8, b1: bv8, b2: bv8, b3: bv8)
    ensures (b0 as bv54 + 174) + ((b1 as bv54 + 174) << 8) + ((b2 as bv54 + 174) << 16) + ((b3 as bv54 + 174) << 24)
            - 174 * 0x01010101
            == LittleEndian(b0, b1, b2, b3) as bv54
  {
  }

  /** The characters of four bytes hold the little-endian word of those bytes. */
  lemma BytesHold(b0: bv8, b1: bv8, b2: bv8, b3: bv8)
    ensures CharactersHold(RomChar(b0), RomChar(b1), RomChar(b2), RomChar(b3), LittleEndian(b0, b1, b2, b3))
  {
    RomBits(b0, b1, b2, b3);
  }

  lemma PositiveWord(w: bv32)
    ensures (w as bv54) & 0x20_0000_0000_0000 == 0
  {
  }

  lemma LowOfWord(w: bv32)
    ensures LowWord(w as bv54) == w
  {
  }

  /** `max result 0`: a negative number has the sign bit set. */
  method ClampToZero(v: bv54) returns (r: bv54)
    ensures r == if v & 0x20_0000_0000_0000 != 0 then 0 else v
  {
    r := if v & 0x20_0000_0000_0000 != 0 then 0 else v;
  }

  method ClampWord(v: bv54, ghost w: bv32) returns (r: bv32)
    requires v == w as bv54
    ensures r == w
  {
    PositiveWord(w);
    LowOfWord(w);
    var clamped := ClampToZero(v);
    r := LowWord(clamped);
  }

  method SumCharacters(c0: bv54, c1: bv54, c2: bv54, c3: bv54) returns (result: bv54)
    ensures result == RomSum(c0, c1, c2, c3)
  {
    result := c0 + (c1 << 8) + (c2 << 16) + (c3 << 24) - 174 * 0x01010101;
  }

  /** The word held by four ROM characters. */
  method RomWord(c0: bv54, c1: bv54, c2: bv54, c3: bv54, ghost w: bv32) returns (result: bv32)
    requires CharactersHold(c0, c1, c2, c3, w)
    ensures result == w
  {
    var sum := SumCharacters(c0, c1, c2, c3);
    result := ClampWord(sum, w);
  }

  /** Past the end of the string all four characters read as null, and the offset makes the sum negative. */
  method RomWordPastEnd() returns (result: bv32)
    ensures result == 0
  {
    var clamped := ClampToZero(0 + (0 << 8) + (0 << 16) + (0 << 24) - 174 * 0x01010101);
    LowOfWord(0);
    result := LowWord(clamped);
  }
}
