/**
  The M extension as the worker computes it: products from 16-bit halves, quotients
  from a rounded double, and the CSR descriptor that packs a mask and two labels
  into one number.
 */
module MulDiv {
  import opened Numbers

  /** The two's complement reading of a register. */
  function Signed(x: UInt32): (r: int) { if x < 0x8000_0000 then x else x - 0x1_0000_0000 }

  /** `op and x 0xffffffff` on a 64-bit two's complement value. */
  function Low32(x: int): (r: UInt32) { x % 0x1_0000_0000 }

  lemma WrapMultiple(a: int, k: int)
    ensures Low32(a + k * 0x1_0000_0000) == Low32(a)
  {
  }

  // --- multiplication ---------------------------------------------------------

  lemma HalvesProduct(a: int, b: int, c: int, d: int)
    ensures (a * 0x1_0000 + b) * (c * 0x1_0000 + d)
            == (a * c) * 0x1_0000_0000 + (a * d + b * c) * 0x1_0000 + b * d
  {
    calc {
      (a * 0x1_0000 + b) * (c * 0x1_0000 + d);
      (a * 0x1_0000) * (c * 0x1_0000) + (a * 0x1_0000) * d + b * (c * 0x1_0000) + b * d;
    }
  }

  lemma Monotone(a: int, b: int, c: int)
    requires 0 <= a && b <= c
    ensures a * b <= a * c
  {
  }

  predicate HalfProduct(p: int) { 0 <= p <= 0xfffe_0001 }

  lemma HalfProductBound(a: int, b: int)
    requires 0 <= a < 0x1_0000 && 0 <= b < 0x1_0000
    ensures HalfProduct(a * b)
  {
    Monotone(a, 0, b);
    Monotone(a, b, 0xffff);
  }

  method MulDecomp(rs1: UInt32, rs2: UInt32) returns (highHigh: Num, highLow: Num, lowHigh: Num, lowLow: Num)
    ensures rs1 * rs2 == highHigh * 0x1_0000_0000 + (highLow + lowHigh) * 0x1_0000 + lowLow
    ensures HalfProduct(highHigh) && HalfProduct(highLow) && HalfProduct(lowHigh) && HalfProduct(lowLow)
  {
    var rs1High, rs1Low := rs1 / 0x1_0000, rs1 % 0x1_0000;
    var rs2High, rs2Low := rs2 / 0x1_0000, rs2 % 0x1_0000;
    HalfProductBound(rs1High, rs2High);
    HalfProductBound(rs1High, rs2Low);
    HalfProductBound(rs1Low, rs2High);
    HalfProductBound(rs1Low, rs2Low);
    highHigh := rs1High * rs2High;
    highLow := rs1High * rs2Low;
    lowHigh := rs1Low * rs2High;
    lowLow := rs1Low * rs2Low;
    HalvesProduct(rs1High, rs1Low, rs2High, rs2Low);
  }

  /** MUL: the low word of the product, which is the same for signed and unsigned operands. */
  method Mul(rs1: UInt32, rs2: UInt32) returns (rd: UInt32)
    ensures rd == Low32(rs1 * rs2)
    ensures rd == Low32(Signed(rs1) * Signed(rs2))
  {
    var highHigh, highLow, lowHigh, lowLow := MulDecomp(rs1, rs2);
    var sum: Num := highLow + lowHigh;
    sum := sum * 0x1_0000;
    sum := sum + lowLow;
    rd := Low32(sum);
    WrapMultiple(sum, highHigh);
    LowWordSignless(rs1, rs2);
  }

  lemma LowWordSignless(rs1: UInt32, rs2: UInt32)
    ensures Low32(Signed(rs1) * Signed(rs2)) == Low32(rs1 * rs2)
  {
    SignedProduct(rs1, rs2, rs1 >= 0x8000_0000, rs2 >= 0x8000_0000);
    var k := SignCorrection(rs1, rs2, rs1 >= 0x8000_0000, rs2 >= 0x8000_0000);
    WrapMultiple(rs1 * rs2, k);
  }

  function Reading(x: UInt32, negative: bool): int { if negative then x - 0x1_0000_0000 else x }

  function SignCorrection(rs1: int, rs2: int, neg1: bool, neg2: bool): int {
    (if neg1 then -rs2 else 0) + (if neg2 then -rs1 else 0) + (if neg1 && neg2 then 0x1_0000_0000 else 0)
  }

  lemma SignedProduct(rs1: UInt32, rs2: UInt32, neg1: bool, neg2: bool)
    ensures Reading(rs1, neg1) * Reading(rs2, neg2)
            == rs1 * rs2 + SignCorrection(rs1, rs2, neg1, neg2) * 0x1_0000_0000
  {
    assert (rs1 - 0x1_0000_0000) * (rs2 - 0x1_0000_0000)
        == rs1 * rs2 - rs1 * 0x1_0000_0000 - 0x1_0000_0000 * rs2 + 0x1_0000_0000 * 0x1_0000_0000;
    assert (rs1 - 0x1_0000_0000) * rs2 == rs1 * rs2 - 0x1_0000_0000 * rs2;
    assert rs1 * (rs2 - 0x1_0000_0000) == rs1 * rs2 - rs1 * 0x1_0000_0000;
  }

  /** MULH, MULHSU and MULHU: the high word, corrected for each operand read as negative. */
  method MulHigh(rs1: UInt32, rs2: UInt32, rs1Negative: bool, rs2Negative: bool) returns (rd: UInt32)
    ensures rd == Low32((Reading(rs1, rs1Negative) * Reading(rs2, rs2Negative)) / 0x1_0000_0000)
  {
    var highHigh, highLow, lowHigh, lowLow := MulDecomp(rs1, rs2);
    var sum: Num := lowLow / 0x1_0000;
    sum := sum + lowHigh;
    sum := sum + highLow;
    sum := sum / 0x1_0000;
    sum := sum + highHigh;
    HighWord(highHigh, highLow + lowHigh, lowLow);
    assert sum == (rs1 * rs2) / 0x1_0000_0000;
    if rs1Negative {
      sum := sum - rs2;
    }
    if rs2Negative {
      sum := sum - rs1;
    }
    rd := Low32(sum);
    SignedHighWord(rs1, rs2, rs1Negative, rs2Negative);
  }

  lemma HighWord(high: int, middle: int, low: int)
    requires 0 <= middle && 0 <= low
    ensures (high * 0x1_0000_0000 + middle * 0x1_0000 + low) / 0x1_0000_0000
         == high + (middle + low / 0x1_0000) / 0x1_0000
  {
  }

  lemma ShiftedQuotient(a: int, k: int)
    ensures (a + k * 0x1_0000_0000) / 0x1_0000_0000 == a / 0x1_0000_0000 + k
  {
  }

  /** Reading an operand as negative takes the other operand off the high word. */
  lemma SignedHighWord(rs1: UInt32, rs2: UInt32, neg1: bool, neg2: bool)
    ensures Low32((Reading(rs1, neg1) * Reading(rs2, neg2)) / 0x1_0000_0000)
            == Low32((rs1 * rs2) / 0x1_0000_0000 - (if neg1 then rs2 else 0) - (if neg2 then rs1 else 0))
  {
    SignedProduct(rs1, rs2, neg1, neg2);
    var p := rs1 * rs2;
    ShiftedQuotient(p, SignCorrection(rs1, rs2, neg1, neg2));
    WrapMultiple(p / 0x1_0000_0000 - (if neg1 then rs2 else 0) - (if neg2 then rs1 else 0),
                 if neg1 && neg2 then 1 else 0);
  }

  method Mulh(rs1: UInt32, rs2: UInt32) returns (rd: UInt32)
    ensures rd == Low32((Signed(rs1) * Signed(rs2)) / 0x1_0000_0000)
  {
    rd := MulHigh(rs1, rs2, rs1 >= 0x8000_0000, rs2 >= 0x8000_0000);
  }

  method Mulhsu(rs1: UInt32, rs2: UInt32) returns (rd: UInt32)
    ensures rd == Low32((Signed(rs1) * rs2) / 0x1_0000_0000)
  {
    rd := MulHigh(rs1, rs2, rs1 >= 0x8000_0000, false);
  }

  method Mulhu(rs1: UInt32, rs2: UInt32) returns (rd: UInt32)
    ensures rd == Low32((rs1 * rs2) / 0x1_0000_0000)
  {
    rd := MulHigh(rs1, rs2, false, false);
  }

  /** The results of MULH and MUL, the first one read as a signed number, put together give back the signed product. */
  lemma WordsOfProduct(rs1: UInt32, rs2: UInt32)
    ensures var p := Signed(rs1) * Signed(rs2);
            Signed(Low32(p / 0x1_0000_0000)) * 0x1_0000_0000 + Low32(rs1 * rs2) == p
  {
    LowWordSignless(rs1, rs2);
    SignedProductBounds(Signed(rs1), Signed(rs2));
    SignedOfLow(Signed(rs1) * Signed(rs2) / 0x1_0000_0000);
  }

  lemma SignedOfLow(q: int)
    requires -0x8000_0000 <= q < 0x8000_0000
    ensures Signed(Low32(q)) == q
  {
  }

  lemma SignedProductBounds(a: int, b: int)
    requires -0x8000_0000 <= a < 0x8000_0000 && -0x8000_0000 <= b < 0x8000_0000
    ensures -0x8000_0000 <= a * b / 0x1_0000_0000 < 0x8000_0000
  {
    MagnitudeProduct(a, b);
  }

  lemma MagnitudeProduct(a: int, b: int)
    requires -0x8000_0000 <= a <= 0x8000_0000 && -0x8000_0000 <= b <= 0x8000_0000
    ensures -0x4000_0000_0000_0000 <= a * b <= 0x4000_0000_0000_0000
  {
    var m, n := Magnitude(a), Magnitude(b);
    Monotone(m, n, 0x8000_0000);
    Monotone(0x8000_0000, m, 0x8000_0000);
    ProductSignCases(a, b);
  }

  lemma ProductSignCases(a: int, b: int)
    ensures a * b == Magnitude(a) * Magnitude(b) || a * b == -(Magnitude(a) * Magnitude(b))
    ensures 0 <= Magnitude(a) * Magnitude(b)
  {
  }

  // --- division ---------------------------------------------------------------

  /** What a divide unit that rounds to nearest may return. */
  ghost predicate RoundsToNearest(fdiv: (int, int) -> real) {
    forall x: int, y: int :: y != 0 ==> Nearest(fdiv(x, y), x as real / y as real)
  }

  /** Division that truncates: the remainder is smaller than the divisor and takes the dividend's sign. */
  ghost predicate IsDivision(a: int, b: int, q: int, r: int) {
    && a == q * b + r
    && Magnitude(r) < Magnitude(b)
    && (r != 0 ==> (r < 0) == (a < 0))
  }

  /** The truncated quotient. */
  function TruncDiv(a: int, b: int): int
    requires b != 0
  {
    var q := Magnitude(a) / Magnitude(b);
    if (a < 0) == (b < 0) then q else -q
  }

  lemma TruncDivision(a: int, b: int)
    requires b != 0
    ensures IsDivision(a, b, TruncDiv(a, b), Remainder(a, b))
  {
    DivMod(Magnitude(a), Magnitude(b));
    FromMagnitudes(a, b, Magnitude(a) / Magnitude(b), Magnitude(a) % Magnitude(b));
  }

  lemma FromMagnitudes(a: int, b: int, q: int, r: int)
    requires b != 0 && Magnitude(a) == q * Magnitude(b) + r && 0 <= r < Magnitude(b)
    ensures IsDivision(a, b, if (a < 0) == (b < 0) then q else -q, if a < 0 then -r else r)
  {
    SignedProducts(q, b);
  }

  lemma SignedProducts(q: int, b: int)
    ensures q * -b == -(q * b) && -q * b == -(q * b) && -q * -b == q * b
  {
  }

  lemma DivisionUnique(a: int, b: int, q1: int, r1: int, q2: int, r2: int)
    requires IsDivision(a, b, q1, r1) && IsDivision(a, b, q2, r2)
    ensures q1 == q2 && r1 == r2
  {
    assert (q1 - q2) * b == r2 - r1 by {
      assert (q1 - q2) * b == q1 * b - q2 * b;
    }
    SmallMultiple(q1 - q2, b, r2 - r1);
  }

  lemma SmallMultiple(k: int, b: int, d: int)
    requires k * b == d && Magnitude(d) < Magnitude(b)
    ensures k == 0
  {
    var m := Magnitude(b);
    assert Magnitude(k) * m == Magnitude(d) by {
      assert k * -b == -(k * b) && -k * b == -(k * b) && -k * -b == k * b;
    }
    assert m * Magnitude(k) == Magnitude(k) * m;
    if k != 0 {
      ProductSign(m, Magnitude(k));
    }
  }

  method UnsignedToSigned(rs1: UInt32, rs2: UInt32) returns (a: int, b: int)
    ensures a == Signed(rs1) && b == Signed(rs2)
  {
    a, b := rs1, rs2;
    if a >= 0x8000_0000 {
      a := a - 0x1_0000_0000;
    }
    if b >= 0x8000_0000 {
      b := b - 0x1_0000_0000;
    }
  }

  /** The DIV/DIVU tail: a rounded quotient, truncated when it is masked to 32 bits. */
  method DivideTail(a: int, b: int, fdiv: (int, int) -> real) returns (rd: UInt32, ghost q: int)
    requires -0x8000_0000 <= a < 0x1_0000_0000 && -0x8000_0000 <= b < 0x1_0000_0000
    requires RoundsToNearest(fdiv)
    ensures b == 0 ==> rd == 0x1_0000_0000 - 1
    ensures b != 0 ==> rd == Low32(q) && IsDivision(a, b, q, Remainder(a, b))
  {
    var quotient := if b == 0 then 0.0 else fdiv(a, b);
    rd := if b == 0 then 0x1_0000_0000 - 1 else Low32(Truncate(quotient));
    q := Truncate(quotient);
    if b != 0 {
      ghost var v := a as real / b as real;
      RoundedTruncate(quotient, v, a, b);
    }
  }

  method Div(rs1: UInt32, rs2: UInt32, fdiv: (int, int) -> real) returns (rd: UInt32, ghost q: int)
    requires RoundsToNearest(fdiv)
    ensures rs2 == 0 ==> rd == 0x1_0000_0000 - 1
    ensures rs2 != 0 ==> rd == Low32(q) && IsDivision(Signed(rs1), Signed(rs2), q, Remainder(Signed(rs1), Signed(rs2)))
    ensures rs2 != 0 ==> q == TruncDiv(Signed(rs1), Signed(rs2))
    ensures rs1 == 0x8000_0000 && rs2 == 0x1_0000_0000 - 1 ==> rd == 0x8000_0000
  {
    var a, b := UnsignedToSigned(rs1, rs2);
    rd, q := DivideTail(a, b, fdiv);
    if b != 0 {
      TruncDivision(a, b);
      DivisionUnique(a, b, q, Remainder(a, b), TruncDiv(a, b), Remainder(a, b));
    }
  }

  method Divu(rs1: UInt32, rs2: UInt32, fdiv: (int, int) -> real) returns (rd: UInt32)
    requires RoundsToNearest(fdiv)
    ensures rs2 == 0 ==> rd == 0x1_0000_0000 - 1
    ensures rs2 != 0 ==> IsDivision(rs1, rs2, rd, Remainder(rs1, rs2)) && rd == TruncDiv(rs1, rs2)
  {
    ghost var q;
    rd, q := DivideTail(rs1, rs2, fdiv);
    if rs2 != 0 {
      NaturalQuotient(rs1, rs2, q);
      TruncDivision(rs1, rs2);
      DivisionUnique(rs1, rs2, q, Remainder(rs1, rs2), TruncDiv(rs1, rs2), Remainder(rs1, rs2));
    }
  }

  lemma NaturalQuotient(a: int, b: int, q: int)
    requires 0 <= a < 0x1_0000_0000 && 0 < b && IsDivision(a, b, q, Remainder(a, b))
    ensures 0 <= q < 0x1_0000_0000
  {
    CellBounds(q, Remainder(a, b), a, b);
  }

  /** The REM/REMU tail. */
  method RemainderTail(a: int, b: int) returns (rd: UInt32)
    requires -0x8000_0000 <= a < 0x1_0000_0000 && -0x8000_0000 <= b < 0x1_0000_0000
    ensures rd == if b == 0 then Low32(a) else Low32(Remainder(a, b))
  {
    var r: Num := if b == 0 then a else Remainder(a, b);
    rd := Low32(r);
  }

  method Rem(rs1: UInt32, rs2: UInt32) returns (rd: UInt32)
    ensures rs2 == 0 ==> rd == rs1
    ensures rs2 != 0 ==> exists q, r :: IsDivision(Signed(rs1), Signed(rs2), q, r) && rd == Low32(r)
    ensures rs2 != 0 ==> rd == Low32(Remainder(Signed(rs1), Signed(rs2)))
  {
    var a, b := UnsignedToSigned(rs1, rs2);
    rd := RemainderTail(a, b);
    if b != 0 {
      TruncDivision(a, b);
    }
  }

  method Remu(rs1: UInt32, rs2: UInt32) returns (rd: UInt32)
    ensures rs2 == 0 ==> rd == rs1
    ensures rs2 != 0 ==> exists q :: IsDivision(rs1, rs2, q, rd)
    ensures rs2 != 0 ==> rd == Remainder(rs1, rs2)
  {
    rd := RemainderTail(rs1, rs2);
    if rs2 != 0 {
      TruncDivision(rs1, rs2);
    }
  }

  lemma WrappedIdentity(a: int, b: int, q: int, r: int, rs1: UInt32, rs2: UInt32)
    requires a == q * b + r && rs1 == Low32(a) && rs2 == Low32(b)
    ensures Low32(Low32(q) * rs2 + Low32(r)) == rs1
  {
    var kq, kb := q / 0x1_0000_0000, b / 0x1_0000_0000;
    var x := Low32(q);
    assert q == x + kq * 0x1_0000_0000 && b == rs2 + kb * 0x1_0000_0000;
    calc {
      q * b;
      (x + kq * 0x1_0000_0000) * (rs2 + kb * 0x1_0000_0000);
      x * rs2 + x * (kb * 0x1_0000_0000) + (kq * 0x1_0000_0000) * rs2 + (kq * 0x1_0000_0000) * (kb * 0x1_0000_0000);
      x * rs2 + (x * kb + kq * rs2 + kq * (kb * 0x1_0000_0000)) * 0x1_0000_0000;
    }
    WrapMultiple(x * rs2 + r, x * kb + kq * rs2 + kq * (kb * 0x1_0000_0000));
    WrapMultiple(x * rs2 + Low32(r), r / 0x1_0000_0000);
  }

  /** Dividend = quotient * divisor + remainder, modulo 2^32, for every pair of operands: also for divisor zero and
      for overflow. */
  method DivRem(rs1: UInt32, rs2: UInt32, fdiv: (int, int) -> real) returns (div: UInt32, rem: UInt32)
    requires RoundsToNearest(fdiv)
    ensures Low32(div * rs2 + rem) == rs1
  {
    ghost var q;
    div, q := Div(rs1, rs2, fdiv);
    rem := Rem(rs1, rs2);
    if rs2 != 0 {
      DivRemIdentity(rs1, rs2, q);
    } else {
      ZeroIdentity(div, rs1);
    }
  }

  lemma ZeroIdentity(div: int, rs1: UInt32)
    ensures Low32(div * 0 + rs1) == rs1
  {
  }

  lemma DivRemIdentity(rs1: UInt32, rs2: UInt32, q: int)
    requires rs2 != 0 && IsDivision(Signed(rs1), Signed(rs2), q, Remainder(Signed(rs1), Signed(rs2)))
    ensures Low32(Low32(q) * rs2 + Low32(Remainder(Signed(rs1), Signed(rs2)))) == rs1
  {
    SignedLow(rs1);
    SignedLow(rs2);
    WrappedIdentity(Signed(rs1), Signed(rs2), q, Remainder(Signed(rs1), Signed(rs2)), rs1, rs2);
  }

  lemma SignedLow(x: UInt32)
    ensures Low32(Signed(x)) == x
  {
  }

  method DivRemUnsigned(rs1: UInt32, rs2: UInt32, fdiv: (int, int) -> real) returns (divu: UInt32, remu: UInt32)
    requires RoundsToNearest(fdiv)
    ensures divu * rs2 + remu == rs1
    ensures rs2 != 0 ==> remu < rs2
  {
    divu := Divu(rs1, rs2, fdiv);
    remu := Remu(rs1, rs2);
  }

  // --- CSR descriptors --------------------------------------------------------

  /** The descriptor the controller writes for one CSR. */
  method PackDescriptor(mask: UInt32, writeLabel: int, readLabel: int) returns (d: Num)
    requires 0 <= writeLabel < 1000 && 0 <= readLabel < 1000
    ensures d == mask * 1_000_000 + writeLabel * 1000 + readLabel
  {
    d := mask * 1_000_000 + writeLabel * 1000 + readLabel;
  }

  /** `op idiv`: the floor of a rounded quotient. */
  method Idiv(x: int, y: int, fdiv: (int, int) -> real) returns (r: int)
    requires RoundsToNearest(fdiv)
    requires 0 <= x && 0 < y && 2 * (x + y) <= 0x20_0000_0000_0000
    ensures r == x / y
  {
    r := fdiv(x, y).Floor;
    RoundedFloor(fdiv(x, y), x as real / y as real, x, y);
  }

  /** The three fields as modify_csr takes them apart. */
  method UnpackDescriptor(d: int, fdiv: (int, int) -> real) returns (mask: int, writeLabel: int, readLabel: int)
    requires RoundsToNearest(fdiv)
    requires 0 <= d < 0x1_0000_0000 * 1_000_000
    ensures d == mask * 1_000_000 + writeLabel * 1000 + readLabel
    ensures 0 <= mask < 0x1_0000_0000 && 0 <= writeLabel < 1000 && 0 <= readLabel < 1000
  {
    readLabel := Remainder(d, 1000);
    mask := Idiv(d, 1_000_000, fdiv);
    var tmp := Idiv(d, 1000, fdiv);
    writeLabel := Remainder(tmp, 1000);
  }

  /** Packing and unpacking are inverse for every mask and every pair of labels. */
  method DescriptorRoundTrip(mask: UInt32, writeLabel: int, readLabel: int, fdiv: (int, int) -> real)
      returns (m: int, w: int, r: int)
    requires RoundsToNearest(fdiv)
    requires 0 <= writeLabel < 1000 && 0 <= readLabel < 1000
    ensures m == mask && w == writeLabel && r == readLabel
  {
    var d := PackDescriptor(mask, writeLabel, readLabel);
    m, w, r := UnpackDescriptor(d, fdiv);
  }
}
