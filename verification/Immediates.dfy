/**
  Where the bits of an immediate are in an instruction word, and that the decoder
  collects them again: `v` is a sign-extended immediate, and `w` a word with its
  bits.  Both signs are separate cases throughout.
 */
module Immediates {
  import opened Decoder

  lemma SetI(w: bv32)
    requires w & 0x8000_0000 != 0
    ensures ImmI(w) == 0xffff_f000 | (w >> 20)
  {
  }

  lemma ClearI(w: bv32)
    requires w & 0x8000_0000 == 0
    ensures ImmI(w) == w >> 20
  {
  }

  lemma NegativeI(v: bv32, w: bv32)
    requires v & 0xffff_f800 == 0 || v & 0xffff_f800 == 0xffff_f800
    requires w & 0xfff0_0000 == v << 20
    requires w & 0x8000_0000 != 0
    ensures 0xffff_f000 | (w >> 20) == v
  {
  }

  lemma PositiveI(v: bv32, w: bv32)
    requires v & 0xffff_f800 == 0 || v & 0xffff_f800 == 0xffff_f800
    requires w & 0xfff0_0000 == v << 20
    requires w & 0x8000_0000 == 0
    ensures w >> 20 == v
  {
  }

  /** The I immediate: bits 31 to 20. */
  lemma GathersI(v: bv32, w: bv32)
    requires v & 0xffff_f800 == 0 || v & 0xffff_f800 == 0xffff_f800
    requires w & 0xfff0_0000 == v << 20
    ensures ImmI(w) == v
  {
    if w & 0x8000_0000 != 0 {
      SetI(w);
      NegativeI(v, w);
    } else {
      ClearI(w);
      PositiveI(v, w);
    }
  }

  lemma SetS(w: bv32)
    requires w & 0x8000_0000 != 0
    ensures ImmS(w) == 0xffff_f000 | ((w >> 25) << 5) | ((w >> 7) & 0x1f)
  {
  }

  lemma ClearS(w: bv32)
    requires w & 0x8000_0000 == 0
    ensures ImmS(w) == ((w >> 25) << 5) | ((w >> 7) & 0x1f)
  {
  }

  lemma NegativeS(v: bv32, w: bv32)
    requires v & 0xffff_f800 == 0 || v & 0xffff_f800 == 0xffff_f800
    requires w & 0xfe00_0f80 == (((v >> 5) & 0x7f) << 25) | ((v & 0x1f) << 7)
    requires w & 0x8000_0000 != 0
    ensures 0xffff_f000 | ((w >> 25) << 5) | ((w >> 7) & 0x1f) == v
  {
  }

  lemma PositiveS(v: bv32, w: bv32)
    requires v & 0xffff_f800 == 0 || v & 0xffff_f800 == 0xffff_f800
    requires w & 0xfe00_0f80 == (((v >> 5) & 0x7f) << 25) | ((v & 0x1f) << 7)
    requires w & 0x8000_0000 == 0
    ensures ((w >> 25) << 5) | ((w >> 7) & 0x1f) == v
  {
  }

  /** The S immediate: bits 31 to 25, and 11 to 7. */
  lemma GathersS(v: bv32, w: bv32)
    requires v & 0xffff_f800 == 0 || v & 0xffff_f800 == 0xffff_f800
    requires w & 0xfe00_0f80 == (((v >> 5) & 0x7f) << 25) | ((v & 0x1f) << 7)
    ensures ImmS(w) == v
  {
    if w & 0x8000_0000 != 0 {
      SetS(w);
      NegativeS(v, w);
    } else {
      ClearS(w);
      PositiveS(v, w);
    }
  }

  lemma SetB(w: bv32)
    requires w & 0x8000_0000 != 0
    ensures ImmB(w) == 0xffff_f000 | (((w >> 7) & 0x1) << 11) | (((w >> 25) & 0x3f) << 5) | (((w >> 8) & 0xf) << 1)
  {
  }

  lemma ClearB(w: bv32)
    requires w & 0x8000_0000 == 0
    ensures ImmB(w) == (((w >> 7) & 0x1) << 11) | (((w >> 25) & 0x3f) << 5) | (((w >> 8) & 0xf) << 1)
  {
  }

  lemma NegativeB(v: bv32, w: bv32)
    requires v & 0xffff_f000 == 0 || v & 0xffff_f000 == 0xffff_f000
    requires v & 1 == 0
    requires w & 0xfe00_0f80
          == (((v >> 12) & 1) << 31) | (((v >> 5) & 0x3f) << 25) | (((v >> 1) & 0xf) << 8) | (((v >> 11) & 1) << 7)
    requires w & 0x8000_0000 != 0
    ensures 0xffff_f000 | (((w >> 7) & 0x1) << 11) | (((w >> 25) & 0x3f) << 5) | (((w >> 8) & 0xf) << 1) == v
  {
  }

  lemma PositiveB(v: bv32, w: bv32)
    requires v & 0xffff_f000 == 0 || v & 0xffff_f000 == 0xffff_f000
    requires v & 1 == 0
    requires w & 0xfe00_0f80
          == (((v >> 12) & 1) << 31) | (((v >> 5) & 0x3f) << 25) | (((v >> 1) & 0xf) << 8) | (((v >> 11) & 1) << 7)
    requires w & 0x8000_0000 == 0
    ensures (((w >> 7) & 0x1) << 11) | (((w >> 25) & 0x3f) << 5) | (((w >> 8) & 0xf) << 1) == v
  {
  }

  /** The B immediate: offset bits 12 and 10 to 5 in 31 to 25, and 4 to 1 and 11 in 11 to 7. */
  lemma GathersB(v: bv32, w: bv32)
    requires v & 0xffff_f000 == 0 || v & 0xffff_f000 == 0xffff_f000
    requires v & 1 == 0
    requires w & 0xfe00_0f80
          == (((v >> 12) & 1) << 31) | (((v >> 5) & 0x3f) << 25) | (((v >> 1) & 0xf) << 8) | (((v >> 11) & 1) << 7)
    ensures ImmB(w) == v
  {
    if w & 0x8000_0000 != 0 {
      SetB(w);
      NegativeB(v, w);
    } else {
      ClearB(w);
      PositiveB(v, w);
    }
  }

  lemma SetJ(w: bv32)
    requires w & 0x8000_0000 != 0
    ensures ImmJ(w) == 0xfff0_0000 | (((w >> 12) & 0xff) << 12) | (((w >> 20) & 0x1) << 11) | (((w >> 21) & 0x3ff) << 1)
  {
  }

  lemma ClearJ(w: bv32)
    requires w & 0x8000_0000 == 0
    ensures ImmJ(w) == (((w >> 12) & 0xff) << 12) | (((w >> 20) & 0x1) << 11) | (((w >> 21) & 0x3ff) << 1)
  {
  }

  lemma NegativeJ(v: bv32, w: bv32)
    requires v & 0xfff0_0000 == 0 || v & 0xfff0_0000 == 0xfff0_0000
    requires v & 1 == 0
    requires w & 0xffff_f000
          == (((v >> 20) & 1) << 31) | (((v >> 1) & 0x3ff) << 21) | (((v >> 11) & 1) << 20) | (((v >> 12) & 0xff) << 12)
    requires w & 0x8000_0000 != 0
    ensures 0xfff0_0000 | (((w >> 12) & 0xff) << 12) | (((w >> 20) & 0x1) << 11) | (((w >> 21) & 0x3ff) << 1) == v
  {
  }

  lemma PositiveJ(v: bv32, w: bv32)
    requires v & 0xfff0_0000 == 0 || v & 0xfff0_0000 == 0xfff0_0000
    requires v & 1 == 0
    requires w & 0xffff_f000
          == (((v >> 20) & 1) << 31) | (((v >> 1) & 0x3ff) << 21) | (((v >> 11) & 1) << 20) | (((v >> 12) & 0xff) << 12)
    requires w & 0x8000_0000 == 0
    ensures (((w >> 12) & 0xff) << 12) | (((w >> 20) & 0x1) << 11) | (((w >> 21) & 0x3ff) << 1) == v
  {
  }

  /** The J immediate: offset bits 20, 10 to 1, 11 and 19 to 12 in 31 to 12. */
  lemma GathersJ(v: bv32, w: bv32)
    requires v & 0xfff0_0000 == 0 || v & 0xfff0_0000 == 0xfff0_0000
    requires v & 1 == 0
    requires w & 0xffff_f000
          == (((v >> 20) & 1) << 31) | (((v >> 1) & 0x3ff) << 21) | (((v >> 11) & 1) << 20) | (((v >> 12) & 0xff) << 12)
    ensures ImmJ(w) == v
  {
    if w & 0x8000_0000 != 0 {
      SetJ(w);
      NegativeJ(v, w);
    } else {
      ClearJ(w);
      PositiveJ(v, w);
    }
  }

  /** The U immediate: bits 31 to 12. */
  lemma GathersU(v: bv32, w: bv32)
    requires w & 0xffff_f000 == v
    ensures ImmU(w) == v
  {
  }
}
