/**
  The bits of a number, two's complement for negative ones.
 */
module Bits {
  import opened Numbers

  function BitOf(v: int, k: nat): int { v / Pow2(k) % 2 }

  // Division in steps.

  lemma QuotientIs(v: int, d: int, q: int, r: int)
    requires d > 0 && v == q * d + r && 0 <= r < d
    ensures v / d == q && v % d == r
  {
    var s, e := v / d, v % d;
    assert v == s * d + e;
    assert (s - q) * d == r - e;
    if s > q {
      AtLeast(s - q, d);
    } else if s < q {
      AtLeast(q - s, d);
    }
  }

  lemma AtLeast(k: int, d: int)
    requires k >= 1 && d >= 1
    ensures k * d >= d
  {
  }

  lemma Regroup(q: int, p: int, e: int, d: int, r: int)
    ensures (q * p + e) * d + r == q * (p * d) + (e * d + r)
  {
  }

  lemma BelowProduct(e: int, p: int, d: int, r: int)
    requires 0 <= e < p && 0 <= r < d
    ensures 0 <= e * d + r < p * d
  {
    assert e * d + r < (e + 1) * d;
    assert (e + 1) * d <= p * d by {
      if e + 1 < p {
        AtLeast(p - e - 1, d);
        assert p * d == (e + 1) * d + (p - e - 1) * d;
      }
    }
    assert 0 <= e * d;
  }

  lemma DivDiv(v: int, d: int, p: int)
    requires d > 0 && p > 0
    ensures p * d > 0 && v / (p * d) == v / d / p
  {
    var q, r := v / d / p, v % d;
    var e := v / d % p;
    assert v / d == q * p + e;
    assert v == (v / d) * d + r;
    Regroup(q, p, e, d, r);
    BelowProduct(e, p, d, r);
    QuotientIs(v, p * d, q, e * d + r);
  }

  /** Shifting right moves the bits down. */
  lemma BitDown(v: int, j: nat, k: nat)
    ensures BitOf(v / Pow2(k), j) == BitOf(v, j + k)
  {
    Pow2Sum(j, k);
    DivDiv(v, Pow2(k), Pow2(j));
  }

  lemma LowMultiple(m: int, j: nat, n: nat)
    requires j < n
    ensures m * Pow2(n) == 2 * (m * Pow2(n - j - 1)) * Pow2(j)
  {
    Pow2Sum(n - j - 1, j + 1);
    assert Pow2(j + 1) == 2 * Pow2(j);
    Rotate(m, Pow2(n - j - 1), Pow2(j));
  }

  lemma Rotate(m: int, a: int, b: int)
    ensures m * (a * (2 * b)) == 2 * (m * a) * b
  {
  }

  lemma AddMultiple(v: int, t: int, d: int)
    requires d > 0
    ensures (v + t * d) / d == v / d + t
  {
    var q, r := v / d, v % d;
    assert v + t * d == (q + t) * d + r;
    QuotientIs(v + t * d, d, q + t, r);
  }

  lemma EvenShift(q: int, t: int)
    ensures (q + 2 * t) % 2 == q % 2
  {
  }

  /** A multiple of a higher power of two does not show in a bit. */
  lemma BitBelow(v: int, m: int, j: nat, n: nat)
    requires j < n
    ensures BitOf(v + m * Pow2(n), j) == BitOf(v, j)
  {
    LowMultiple(m, j, n);
    var t := m * Pow2(n - j - 1);
    AddMultiple(v, 2 * t, Pow2(j));
    EvenShift(v / Pow2(j), t);
  }

  /** Shifting left moves the bits up and brings in zeros. */
  lemma BitUp(v: int, j: nat, k: nat)
    ensures BitOf(v * Pow2(k), j) == if j < k then 0 else BitOf(v, j - k)
  {
    if j < k {
      BitBelow(0, v, j, k);
      ZeroBit(j);
    } else {
      BitDown(v * Pow2(k), j - k, k);
      QuotientIs(v * Pow2(k), Pow2(k), v, 0);
    }
  }

  lemma ZeroBit(j: nat)
    ensures BitOf(0, j) == 0
  {
  }

  /** Truncation to a word keeps the low bits. */
  lemma BitOfWord(v: int, j: nat)
    requires j < 32
    ensures BitOf(v % 0x1_0000_0000, j) == BitOf(v, j)
  {
    WordPower();
    BitBelow(v % 0x1_0000_0000, v / 0x1_0000_0000, j, 32);
  }

  /** All high bits of a small number are those of its sign. */
  lemma HighBits(v: int, j: nat)
    requires -0x8000_0000 <= v < 0x8000_0000 && 31 <= j
    ensures BitOf(v, j) == if v < 0 then 1 else 0
  {
    WordPower();
    PowGrows(31, j);
    if v < 0 {
      QuotientIs(v, Pow2(j), -1, v + Pow2(j));
    } else {
      QuotientIs(v, Pow2(j), 0, v);
    }
  }

  lemma {:induction false} PowGrows(j: nat, k: nat)
    requires j <= k
    ensures Pow2(j) <= Pow2(k)
    decreases k
  {
    if j < k {
      PowGrows(j, k - 1);
    }
  }

  lemma {:induction false} SameBelow(a: nat, b: nat, n: nat)
    requires a < Pow2(n) && b < Pow2(n) && forall k :: 0 <= k < n ==> BitOf(a, k) == BitOf(b, k)
    ensures a == b
    decreases n
  {
    if n > 0 {
      forall k | 0 <= k < n - 1 ensures BitOf(a / 2, k) == BitOf(b / 2, k) {
        assert Pow2(1) == 2;
        BitDown(a, k, 1);
        BitDown(b, k, 1);
      }
      SameBelow(a / 2, b / 2, n - 1);
      assert Pow2(0) == 1 && BitOf(a, 0) == BitOf(b, 0);
    }
  }

  /** A word is determined by its bits. */
  lemma SameWord(a: UInt32, b: UInt32)
    requires forall k :: 0 <= k < 32 ==> BitOf(a, k) == BitOf(b, k)
    ensures a == b
  {
    WordPower();
    SameBelow(a, b, 32);
  }

  // Bitwise operations.

  lemma BitZero(v: int)
    ensures BitOf(v, 0) == v % 2
  {
  }

  lemma HalfOf(q: int, z: int)
    requires 0 <= z <= 1
    ensures (2 * q + z) / 2 == q && (2 * q + z) % 2 == z
  {
  }

  lemma {:induction false} BitwiseBit(g: Gate, a: nat, b: nat, k: nat)
    ensures BitOf(Bitwise(g, a, b), k) == GateBit(g, BitOf(a, k), BitOf(b, k))
    decreases k
  {
    if a == 0 && b == 0 {
      ZeroBit(k);
    } else {
      var q, z := Bitwise(g, a / 2, b / 2), GateBit(g, a % 2, b % 2);
      HalfOf(q, z);
      if k == 0 {
        BitZero(a);
        BitZero(b);
        BitZero(2 * q + z);
      } else {
        assert Pow2(1) == 2;
        BitDown(a, k - 1, 1);
        BitDown(b, k - 1, 1);
        BitDown(2 * q + z, k - 1, 1);
        BitwiseBit(g, a / 2, b / 2, k - 1);
      }
    }
  }

  /** A bit of each operation, by the bits of the operands. */
  lemma GateBits(a: UInt32, b: UInt32, k: nat)
    ensures BitOf(GateWord(OrGate, a, b), k) == 1 <==> BitOf(a, k) == 1 || BitOf(b, k) == 1
    ensures BitOf(GateWord(AndGate, a, b), k) == 1 <==> BitOf(a, k) == 1 && BitOf(b, k) == 1
    ensures BitOf(GateWord(XorGate, a, b), k) == 1 <==> BitOf(a, k) != BitOf(b, k)
  {
    BitwiseBit(OrGate, a, b, k);
    BitwiseBit(AndGate, a, b, k);
    BitwiseBit(XorGate, a, b, k);
  }
}
