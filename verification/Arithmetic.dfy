/**
  What the results of the arithmetic and atomic instructions are: their bits, their
  sums and products, and the identities of division.

  These statements use words, bits and two's complement only, so they say nothing
  about how `Alu.Compute` and `Atomics.Combine` are written.
 */
module Arithmetic {
  import opened Numbers
  import opened Bits
  import opened MulDiv
  import opened Alu
  import Atomics

  /** `s` is the number that the word `a` stands for when it is signed. */
  predicate Stands(s: int, a: int) { -0x8000_0000 <= s < 0x8000_0000 && (s == a || s == a - 0x1_0000_0000) }

  lemma SignedStands(a: UInt32, s: int)
    requires Stands(s, a)
    ensures s == Signed(a)
  {
  }

  lemma LowStands(v: int, s: int)
    requires Stands(s, Low32(v))
    ensures (v - s) % 0x1_0000_0000 == 0
    ensures -0x8000_0000 <= v < 0x8000_0000 ==> s == v
  {
  }

  // --- sums and comparisons ---------------------------------------------------

  lemma RestOf(v: int)
    ensures (v % 0x1_0000_0000 - v) % 0x1_0000_0000 == 0
  {
  }

  /** ADD and SUB are right modulo 2^32. */
  lemma Sums(a: UInt32, b: UInt32)
    ensures (Compute(Addition, a, b) - (a + b)) % 0x1_0000_0000 == 0
    ensures (Compute(Subtraction, a, b) - (a - b)) % 0x1_0000_0000 == 0
  {
    RestOf(a + b);
    RestOf(a - b);
  }

  /** SLT and SLTU compare numbers and words. */
  lemma Comparisons(a: UInt32, b: UInt32, sa: int, sb: int)
    requires Stands(sa, a) && Stands(sb, b)
    ensures Compute(Less, a, b) == if sa < sb then 1 else 0
    ensures Compute(LessU, a, b) == if a < b then 1 else 0
  {
    SignedStands(a, sa);
    SignedStands(b, sb);
  }

  // --- bits -------------------------------------------------------------------

  /** AND, OR and XOR, bit by bit. */
  lemma LogicBits(a: UInt32, b: UInt32, k: nat)
    requires k < 32
    ensures BitOf(Compute(Both, a, b), k) == 1 <==> BitOf(a, k) == 1 && BitOf(b, k) == 1
    ensures BitOf(Compute(Either, a, b), k) == 1 <==> BitOf(a, k) == 1 || BitOf(b, k) == 1
    ensures BitOf(Compute(Exclusive, a, b), k) == 1 <==> BitOf(a, k) != BitOf(b, k)
  {
    GateBits(a, b, k);
  }

  lemma SignBit(a: UInt32, j: nat)
    requires j < 32
    ensures BitOf(Signed(a), j) == BitOf(a, j)
  {
    WordPower();
    if a >= 0x8000_0000 {
      BitBelow(a, -1, j, 32);
    }
  }

  lemma NoHighBit(a: UInt32, j: nat)
    requires 32 <= j
    ensures BitOf(a, j) == 0
  {
    WordPower();
    PowGrows(32, j);
    QuotientIs(a, Pow2(j), 0, a);
  }

  lemma LeftBits(a: UInt32, n: nat, j: nat)
    requires n < 32 && j < 32
    ensures BitOf(Low32(a * Pow2(n)), j) == if j < n then 0 else BitOf(a, j - n)
  {
    BitOfWord(a * Pow2(n), j);
    BitUp(a, j, n);
  }

  lemma RightBits(a: UInt32, n: nat, j: nat)
    requires n < 32 && j < 32
    ensures BitOf(Low32(a / Pow2(n)), j) == if j + n < 32 then BitOf(a, j + n) else 0
  {
    BitOfWord(a / Pow2(n), j);
    BitDown(a, j, n);
    if j + n >= 32 {
      NoHighBit(a, j + n);
    }
  }

  lemma RightSignedBits(a: UInt32, n: nat, j: nat)
    requires n < 32 && j < 32
    ensures BitOf(Low32(Signed(a) / Pow2(n)), j) == BitOf(a, if j + n < 32 then j + n else 31)
  {
    BitOfWord(Signed(a) / Pow2(n), j);
    BitDown(Signed(a), j, n);
    if j + n < 32 {
      SignBit(a, j + n);
    } else {
      SignBit(a, 31);
      HighBits(Signed(a), j + n);
      HighBits(Signed(a), 31);
    }
  }

  /** The shifts move bits by the low five bits of the amount: SLL and SRL bring in zeros, SRA the sign. */
  lemma ShiftBits(a: UInt32, b: UInt32, j: nat)
    requires j < 32
    ensures var n := b % 32;
            && BitOf(Compute(Left, a, b), j) == (if j < n then 0 else BitOf(a, j - n))
            && BitOf(Compute(Right, a, b), j) == (if j + n < 32 then BitOf(a, j + n) else 0)
            && BitOf(Compute(RightSigned, a, b), j) == BitOf(a, if j + n < 32 then j + n else 31)
  {
    LeftBits(a, b % 32, j);
    RightBits(a, b % 32, j);
    RightSignedBits(a, b % 32, j);
  }

  // --- products ---------------------------------------------------------------

  /** The two words of a number. */
  lemma TwoWords(v: int)
    ensures v == (v / 0x1_0000_0000) * 0x1_0000_0000 + v % 0x1_0000_0000
  {
  }

  lemma LowOfSigned(p: int, q: int, t: int)
    requires p == q + t * 0x1_0000_0000
    ensures p % 0x1_0000_0000 == q % 0x1_0000_0000
  {
  }

  lemma SignedTimes(a: UInt32, c: int)
    ensures exists t :: Signed(a) * c == a * c + t * 0x1_0000_0000
  {
    if a < 0x8000_0000 {
      assert Signed(a) * c == a * c + 0 * 0x1_0000_0000;
    } else {
      assert (a - 0x1_0000_0000) * c == a * c + -c * 0x1_0000_0000;
    }
  }

  lemma SignedFactor(a: UInt32, c: int)
    ensures (Signed(a) * c) % 0x1_0000_0000 == (a * c) % 0x1_0000_0000
  {
    SignedTimes(a, c);
    var t :| Signed(a) * c == a * c + t * 0x1_0000_0000;
    LowOfSigned(Signed(a) * c, a * c, t);
  }

  lemma HighStands(p: int, h: int)
    requires -0x8000_0000_0000_0000 <= p <= 0x7fff_ffff_ffff_ffff && Stands(h, Low32(p / 0x1_0000_0000))
    ensures h * 0x1_0000_0000 + p % 0x1_0000_0000 == p
  {
    LowStands(p / 0x1_0000_0000, h);
    TwoWords(p);
  }

  lemma ProductRange(s: int, c: int)
    requires -0x8000_0000 <= s < 0x8000_0000 && -0x8000_0000 <= c < 0x1_0000_0000
    ensures -0x7fff_ffff_8000_0000 <= s * c <= 0x7fff_fffe_8000_0001
  {
    Bilinear(s, c, -0x8000_0000, 0x7fff_ffff);
  }

  lemma Bilinear(s: int, c: int, low: int, high: int)
    requires low <= s <= high && low <= 0 <= high
    ensures c >= 0 ==> low * c <= s * c <= high * c
    ensures c <= 0 ==> high * c <= s * c <= low * c
  {
    if c >= 0 {
      assert (s - low) * c >= 0 && (high - s) * c >= 0;
    } else {
      assert (s - low) * -c >= 0 && (high - s) * -c >= 0;
    }
  }

  /** MULH, MULHSU and MULHU with MUL behind them are the product of the numbers. */
  lemma Products(a: UInt32, b: UInt32, sa: int, sb: int, h: int, m: int)
    requires Stands(sa, a) && Stands(sb, b) && Stands(h, Compute(High, a, b)) && Stands(m, Compute(HighMixed, a, b))
    ensures h * 0x1_0000_0000 + Compute(Product, a, b) == sa * sb
    ensures m * 0x1_0000_0000 + Compute(Product, a, b) == sa * b
    ensures Compute(HighU, a, b) * 0x1_0000_0000 + Compute(Product, a, b) == a * b
  {
    SignedStands(a, sa);
    SignedStands(b, sb);
    SignedHigh(a, b, h);
    MixedHigh(a, b, m);
    UnsignedHigh(a, b);
  }

  lemma SignedHigh(a: UInt32, b: UInt32, h: int)
    requires Stands(h, Low32((Signed(a) * Signed(b)) / 0x1_0000_0000))
    ensures h * 0x1_0000_0000 + Low32(a * b) == Signed(a) * Signed(b)
  {
    var p := Signed(a) * Signed(b);
    ProductRange(Signed(a), Signed(b));
    HighStands(p, h);
    LowWordSignless(a, b);
  }

  lemma MixedHigh(a: UInt32, b: UInt32, m: int)
    requires Stands(m, Low32((Signed(a) * b) / 0x1_0000_0000))
    ensures m * 0x1_0000_0000 + Low32(a * b) == Signed(a) * b
  {
    var p := Signed(a) * b;
    ProductRange(Signed(a), b);
    HighStands(p, m);
    SignedFactor(a, b);
  }

  lemma UnsignedHigh(a: UInt32, b: UInt32)
    ensures Low32((a * b) / 0x1_0000_0000) * 0x1_0000_0000 + Low32(a * b) == a * b
  {
    Bilinear(a, b, 0, 0xffff_ffff);
    TwoWords(a * b);
  }

  // --- quotients --------------------------------------------------------------

  /** A division with a remainder that is smaller than the divisor and has the dividend's sign. */
  predicate Divides(a: int, b: int, q: int, r: int) {
    a == q * b + r && (if a < 0 then -Size(b) < r <= 0 else 0 <= r < Size(b))
  }

  function Size(b: int): int { if b < 0 then -b else b }

  lemma DivisionDivides(a: int, b: int, q: int, r: int)
    requires b != 0 && IsDivision(a, b, q, r)
    ensures Divides(a, b, q, r)
  {
  }

  /** DIVU and REMU. */
  lemma UnsignedQuotients(a: UInt32, b: UInt32)
    ensures b == 0 ==> Compute(QuotientU, a, b) == 0xffff_ffff && Compute(RestU, a, b) == a
    ensures b != 0 ==> Divides(a, b, Compute(QuotientU, a, b), Compute(RestU, a, b))
  {
    if b != 0 {
      TruncDivision(a, b);
      DivisionDivides(a, b, TruncDiv(a, b), Remainder(a, b));
      NaturalDivision(a, b, TruncDiv(a, b), Remainder(a, b));
    }
  }

  lemma NaturalDivision(a: UInt32, b: UInt32, q: int, r: int)
    requires 0 < b && Divides(a, b, q, r)
    ensures Low32(q) == q && Low32(r) == r
  {
    QuotientIs(a, b, q, r);
    QuotientBelow(a, b);
  }

  lemma QuotientBelow(a: nat, b: nat)
    requires 0 < b
    ensures 0 <= a / b <= a
    ensures 2 <= b ==> 2 * (a / b) <= a
  {
    var q := a / b;
    assert a == q * b + a % b;
    TimesAtLeast(q, b);
  }

  lemma TimesAtLeast(q: nat, b: nat)
    requires 0 < b
    ensures q <= q * b && (2 <= b ==> 2 * q <= q * b)
  {
    MulDiv.Monotone(q, 1, b);
    if 2 <= b {
      MulDiv.Monotone(q, 2, b);
    }
  }

  /** DIV and REM, the overflow of the least number by -1 included. */
  lemma SignedQuotients(a: UInt32, b: UInt32, sa: int, sb: int, q: int, r: int)
    requires Stands(sa, a) && Stands(sb, b) && Stands(q, Compute(Quotient, a, b)) && Stands(r, Compute(Rest, a, b))
    ensures sb == 0 ==> q == -1 && r == sa
    ensures sb == -1 && sa == -0x8000_0000 ==> q == sa && r == 0
    ensures sb != 0 && !(sb == -1 && sa == -0x8000_0000) ==> Divides(sa, sb, q, r)
  {
    SignedStands(a, sa);
    SignedStands(b, sb);
    if sb != 0 {
      var t, e := TruncDiv(sa, sb), Remainder(sa, sb);
      TruncDivision(sa, sb);
      DivisionDivides(sa, sb, t, e);
      LowStands(e, r);
      if sb == -1 && sa == -0x8000_0000 {
        LowStands(t, q);
      } else {
        QuotientFits(sa, sb);
        LowStands(t, q);
      }
    }
  }

  lemma QuotientFits(a: int, b: int)
    requires -0x8000_0000 <= a < 0x8000_0000 && b != 0 && !(b == -1 && a == -0x8000_0000)
    ensures -0x8000_0000 <= TruncDiv(a, b) < 0x8000_0000
  {
    QuotientBelow(Magnitude(a), Magnitude(b));
  }

  // --- atomics ----------------------------------------------------------------

  /** AMOADD, AMOSWAP and the minima and maxima. */
  lemma AmoNumbers(a: UInt32, b: UInt32, sa: int, sb: int)
    requires Stands(sa, a) && Stands(sb, b)
    ensures (Atomics.Combine(Atomics.Add, a, b) - (a + b)) % 0x1_0000_0000 == 0
    ensures Atomics.Combine(Atomics.Swap, a, b) == b
    ensures Atomics.Combine(Atomics.Min, a, b) == if sa <= sb then a else b
    ensures Atomics.Combine(Atomics.Max, a, b) == if sa >= sb then a else b
    ensures Atomics.Combine(Atomics.MinU, a, b) == if a <= b then a else b
    ensures Atomics.Combine(Atomics.MaxU, a, b) == if a >= b then a else b
  {
    RestOf(a + b);
    SignedStands(a, sa);
    SignedStands(b, sb);
  }

  /** AMOAND, AMOOR and AMOXOR, bit by bit. */
  lemma AmoBits(a: UInt32, b: UInt32, k: nat)
    requires k < 32
    ensures BitOf(Atomics.Combine(Atomics.And, a, b), k) == 1 <==> BitOf(a, k) == 1 && BitOf(b, k) == 1
    ensures BitOf(Atomics.Combine(Atomics.Or, a, b), k) == 1 <==> BitOf(a, k) == 1 || BitOf(b, k) == 1
    ensures BitOf(Atomics.Combine(Atomics.Xor, a, b), k) == 1 <==> BitOf(a, k) != BitOf(b, k)
  {
    GateBits(a, b, k);
  }
}
