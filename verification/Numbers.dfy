/**
  Numbers of the logic processor.

  Every mlog variable holds an IEEE double, so an integer is exact only up to a
  magnitude of 2^53.  `Num` carries that bound: an intermediate result declared
  with this type is proved to stay exact.  Quotients are the one place where
  rounding happens; `Nearest` says what IEEE round-to-nearest may return, and
  the lemmas below show when truncating the rounded quotient is still exact.
 */
module Numbers {

  /** An integer that a double holds exactly. */
  type Num = x: int | -0x20_0000_0000_0000 <= x <= 0x20_0000_0000_0000

  type UInt32 = x: int | 0 <= x < 0x1_0000_0000

  function Pow2(k: nat): (r: int)
    ensures r >= 1
  {
    if k == 0 then 1 else 2 * Pow2(k - 1)
  }

  lemma {:induction false} Pow2Sum(j: nat, k: nat)
    ensures Pow2(j + k) == Pow2(j) * Pow2(k)
    decreases k
  {
    if k > 0 {
      Pow2Sum(j, k - 1);
      assert Pow2(j) * (2 * Pow2(k - 1)) == 2 * (Pow2(j) * Pow2(k - 1));
    }
  }

  lemma WordPower()
    ensures Pow2(32) == 0x1_0000_0000 && Pow2(31) == 0x8000_0000
  {
    assert Pow2(8) == 256;
    Pow2Sum(8, 8);
    assert Pow2(16) == 0x1_0000;
    Pow2Sum(16, 16);
  }

  // Bitwise operations, bit by bit.

  datatype Gate = XorGate | OrGate | AndGate

  function GateBit(g: Gate, x: int, y: int): (z: nat)
    ensures z <= 1
  {
    match g
    case XorGate => if x == y then 0 else 1
    case OrGate => if x == 0 && y == 0 then 0 else 1
    case AndGate => if x == 0 || y == 0 then 0 else 1
  }

  function Bitwise(g: Gate, a: nat, b: nat): nat
    decreases a + b
  {
    if a == 0 && b == 0 then 0 else 2 * Bitwise(g, a / 2, b / 2) + GateBit(g, a % 2, b % 2)
  }

  lemma {:induction false} BitwiseBound(g: Gate, a: nat, b: nat, k: nat)
    requires a < Pow2(k) && b < Pow2(k)
    ensures Bitwise(g, a, b) < Pow2(k)
    decreases k
  {
    if k > 0 && (a > 0 || b > 0) {
      BitwiseBound(g, a / 2, b / 2, k - 1);
    }
  }

  /** The operation on two words. */
  function GateWord(g: Gate, a: UInt32, b: UInt32): UInt32 {
    WordPower();
    BitwiseBound(g, a, b, 32);
    Bitwise(g, a, b)
  }

  /** A double with an unbounded exponent: a 53-bit integer divided or multiplied by a power of two. */
  ghost predicate IsDouble(d: real) {
    exists m: int, k: nat :: Scaled(d, m, k)
  }

  ghost predicate Scaled(d: real, m: int, k: nat) {
    && -0x20_0000_0000_0000 <= m <= 0x20_0000_0000_0000
    && (d * Pow2(k) as real == m as real || d == m as real * Pow2(k) as real)
  }

  function Abs(x: real): real { if x < 0.0 then -x else x }

  /** `q` is a result of rounding `v` to the nearest double; ties may go either way. */
  ghost predicate Nearest(q: real, v: real) {
    && IsDouble(q)
    && forall d: real :: IsDouble(d) ==> Abs(q - v) <= Abs(d - v)
  }

  /** Conversion of a double to a 64-bit integer, which truncates. */
  function Truncate(q: real): int { if q < 0.0 then -((-q).Floor) else q.Floor }

  /** The remainder of the JVM's `%`: it takes the sign of the dividend. */
  function Remainder(x: int, y: int): int
    requires y != 0
  {
    var m := if y < 0 then -y else y;
    if x < 0 then -((-x) % m) else x % m
  }

  lemma IntegerIsDouble(n: int)
    requires -0x20_0000_0000_0000 <= n <= 0x20_0000_0000_0000
    ensures IsDouble(n as real)
  {
    assert Scaled(n as real, n, 0);
  }

  /** An integer is the double nearest to itself, and to nothing else that is a double. */
  lemma ExactNearest(n: int, q: real)
    requires -0x20_0000_0000_0000 <= n <= 0x20_0000_0000_0000
    ensures Nearest(q, n as real) <==> q == n as real
  {
    IntegerIsDouble(n);
  }

  /** The least power of two that is at least `y`, found by doubling. */
  lemma PowerAbove(y: int) returns (k: nat)
    requires y >= 1
    ensures y <= Pow2(k) < 2 * y
  {
    k := 0;
    while Pow2(k) < y
      invariant Pow2(k) < 2 * y
      decreases y - Pow2(k)
    {
      k := k + 1;
    }
  }

  lemma NearestMirror(q: real, v: real)
    requires Nearest(q, v)
    ensures Nearest(-q, -v)
  {
    forall d: real | IsDouble(d) ensures IsDouble(-d) {
      var m: int, k: nat :| Scaled(d, m, k);
      var p := Pow2(k) as real;
      assert (-d) * p == -(d * p);
      assert (-m) as real * p == -(m as real * p);
      assert Scaled(-d, -m, k);
    }
    forall d: real | IsDouble(d) ensures Abs(-q - -v) <= Abs(d - -v) {
      assert IsDouble(-d);
      assert Abs(q - v) <= Abs(-d - v);
    }
  }

  // Non-linear facts, each proved on its own.

  lemma CastProduct(a: int, b: int)
    ensures (a * b) as real == a as real * b as real
  {
  }

  lemma CancelLess(a: real, b: real, c: real)
    requires c > 0.0 && a * c < b * c
    ensures a < b
  {
  }

  lemma CancelAtMost(a: real, b: real, c: real)
    requires c > 0.0 && a * c <= b * c
    ensures a <= b
  {
  }

  /** The quotient of two naturals lies in its integer cell, at least `1/y` below the top. */
  lemma QuotientCell(n: int, x: int, y: int, v: real)
    requires 0 < y && n * y <= x < (n + 1) * y && v * y as real == x as real
    ensures n as real <= v < (n + 1) as real
    ensures ((n + 1) as real - v) * y as real >= 1.0
  {
    var top, low := (n + 1) as real, n as real;
    var w := y as real;
    CastProduct(n, y);
    CastProduct(n + 1, y);
    CancelAtMost(low, v, w);
    CancelLess(v, top, w);
    calc {
      (top - v) * w;
      top * w - v * w;
    }
  }

  lemma SignificandBound(n: int, p: int, y: int)
    requires 0 <= n && 1 <= p < 2 * y && 2 * ((n + 1) * y) <= 0x20_0000_0000_0000
    ensures 0 <= (n + 1) * p - 1 <= 0x20_0000_0000_0000
  {
    assert (n + 1) * p <= (n + 1) * (2 * y);
    assert (n + 1) * p >= 1 * p;
  }

  lemma JustBelow(n: int, p: int, d: real, delta: real)
    requires delta * p as real == 1.0 && d == (n + 1) as real - delta
    ensures d * p as real == ((n + 1) * p - 1) as real
  {
    CastProduct(n + 1, p);
    calc {
      d * p as real;
      (n + 1) as real * p as real - delta * p as real;
    }
  }

  lemma ScaledGap(delta: real, p: int, g: real, y: int)
    requires 0 < y <= p && delta * p as real == 1.0 && g * y as real >= 1.0
    ensures 0.0 < delta <= g
  {
    var w, u := y as real, p as real;
    CancelLess(0.0, delta, u);
    assert delta * w <= delta * u;
    CancelAtMost(delta, g, w);
  }

  lemma BelowIsDouble(n: int, y: int, k: nat, delta: real)
    requires 0 <= n && y <= Pow2(k) < 2 * y && 2 * ((n + 1) * y) <= 0x20_0000_0000_0000
    requires delta * Pow2(k) as real == 1.0
    ensures IsDouble((n + 1) as real - delta)
  {
    SignificandBound(n, Pow2(k), y);
    JustBelow(n, Pow2(k), (n + 1) as real - delta, delta);
    assert Scaled((n + 1) as real - delta, (n + 1) * Pow2(k) - 1, k);
  }

  /** There is a double at most `g` below `n + 1`, as long as `g` is at least `1/y`. */
  lemma DoubleBelow(n: int, y: int, g: real) returns (delta: real)
    requires 0 <= n && 0 < y && 2 * ((n + 1) * y) <= 0x20_0000_0000_0000
    requires g * y as real >= 1.0
    ensures 0.0 < delta <= g
    ensures IsDouble((n + 1) as real - delta)
  {
    var k := PowerAbove(y);
    delta := 1.0 / Pow2(k) as real;
    BelowIsDouble(n, y, k, delta);
    ScaledGap(delta, Pow2(k), g, y);
  }

  lemma DivMod(x: int, y: int)
    requires 0 < y
    ensures x == (x / y) * y + x % y && 0 <= x % y < y
  {
  }

  lemma ProductSign(a: int, b: int)
    requires 0 < b
    ensures 0 <= a ==> a <= a * b
    ensures a <= 0 ==> a * b <= a
  {
  }

  lemma CellBounds(n: int, r: int, x: int, y: int)
    requires 0 <= x && 0 <= r < y && x == n * y + r
    ensures 0 <= n <= x && n * y <= x < (n + 1) * y
  {
    assert (n + 1) * y == n * y + y;
    ProductSign(n, y);
    ProductSign(n + 1, y);
  }

  /** Floor of the rounded quotient of two naturals is the exact quotient: the `idiv` operation. */
  lemma RoundedFloor(q: real, v: real, x: int, y: int)
    requires 0 <= x && 0 < y && 2 * (x + y) <= 0x20_0000_0000_0000
    requires v * y as real == x as real && Nearest(q, v)
    ensures q.Floor == x / y
    ensures 0.0 <= q
  {
    var n := x / y;
    DivMod(x, y);
    CellBounds(n, x % y, x, y);
    RoundedInCell(q, v, n, x, y);
  }

  lemma RoundedInCell(q: real, v: real, n: int, x: int, y: int)
    requires 0 <= n && 0 < y && n * y <= x < (n + 1) * y && 2 * (x + y) <= 0x20_0000_0000_0000
    requires v * y as real == x as real && Nearest(q, v)
    ensures n as real <= q < (n + 1) as real
  {
    QuotientCell(n, x, y, v);
    assert (n + 1) * y == n * y + y;
    var delta := DoubleBelow(n, y, (n + 1) as real - v);
    ProductSign(n + 1, y);
    NearestInCell(q, v, n, delta);
  }

  lemma NearestInCell(q: real, v: real, n: int, delta: real)
    requires 0 <= n < 0x20_0000_0000_0000 && n as real <= v && Nearest(q, v)
    requires 0.0 < delta <= (n + 1) as real - v && IsDouble((n + 1) as real - delta)
    ensures n as real <= q < (n + 1) as real
  {
    IntegerIsDouble(n);
    IntegerIsDouble(n + 1);
    assert Abs(q - v) <= Abs(n as real - v);
    assert Abs(q - v) <= Abs((n + 1) as real - v);
    assert Abs(q - v) <= Abs((n + 1) as real - delta - v);
  }

  function Magnitude(x: int): (r: nat) { if x < 0 then -x else x }

  lemma QuotientSign(x: int, y: int, v: real)
    requires y != 0 && v * y as real == x as real
    ensures (if (x < 0) == (y < 0) then v else -v) * Magnitude(y) as real == Magnitude(x) as real
  {
    assert v * -(y as real) == -(v * y as real);
    assert (-v) * y as real == -(v * y as real);
  }

  lemma TruncateSigned(p: real, q: real, n: int)
    requires 0.0 <= p && p.Floor == n
    ensures q == p ==> Truncate(q) == n
    ensures q == -p ==> Truncate(q) == -n
  {
  }

  /** A rounding of the signed quotient is a rounding of its magnitude, up to sign. */
  lemma RoundedMagnitude(q: real, v: real, ax: int, ay: int, same: bool)
    requires 0 <= ax <= 0x1_0000_0000 && 0 < ay <= 0x1_0000_0000
    requires (if same then v else -v) * ay as real == ax as real && Nearest(q, v)
    ensures var p := if same then q else -q; 0.0 <= p && p.Floor == ax / ay
  {
    var w := if same then v else -v;
    if !same {
      NearestMirror(q, v);
    }
    RoundedFloor(if same then q else -q, w, ax, ay);
  }

  lemma Resign(n: int, r: int, x: int, y: int)
    requires Magnitude(x) == n * Magnitude(y) + r
    ensures x == (if (x < 0) == (y < 0) then n else -n) * y + (if x < 0 then -r else r)
  {
    assert n * -y == -(n * y);
    assert -n * y == -(n * y);
  }

  lemma TruncatedQuotient(q: real, v: real, x: int, y: int)
    requires y != 0
    requires -0x1_0000_0000 <= x <= 0x1_0000_0000 && -0x1_0000_0000 <= y <= 0x1_0000_0000
    requires v * y as real == x as real && Nearest(q, v)
    ensures var n := Magnitude(x) / Magnitude(y);
            Truncate(q) == if (x < 0) == (y < 0) then n else -n
  {
    var same := (x < 0) == (y < 0);
    QuotientSign(x, y, v);
    RoundedMagnitude(q, v, Magnitude(x), Magnitude(y), same);
    TruncateSigned(if same then q else -q, q, Magnitude(x) / Magnitude(y));
  }

  lemma SignedDivMod(x: int, y: int)
    requires y != 0
    ensures var n := Magnitude(x) / Magnitude(y);
            x == (if (x < 0) == (y < 0) then n else -n) * y + Remainder(x, y)
  {
    DivMod(Magnitude(x), Magnitude(y));
    Resign(Magnitude(x) / Magnitude(y), Magnitude(x) % Magnitude(y), x, y);
  }

  /** With signs, rounding towards zero: the `div` operation followed by a conversion to an integer. */
  lemma RoundedTruncate(q: real, v: real, x: int, y: int)
    requires y != 0
    requires -0x1_0000_0000 <= x <= 0x1_0000_0000 && -0x1_0000_0000 <= y <= 0x1_0000_0000
    requires v * y as real == x as real && Nearest(q, v)
    ensures x == Truncate(q) * y + Remainder(x, y)
  {
    TruncatedQuotient(q, v, x, y);
    SignedDivMod(x, y);
  }

  // A bound on the relative error alone would not do.

  const ERROR: real := 1.0 / 9007199254740992.0

  /** `q` is within a relative error of 2^-53 of `v`. */
  predicate WithinError(q: real, v: real) { v - v * ERROR <= q <= v + v * ERROR }

  /** Every quotient within that error truncates to the exact one. */
  ghost predicate ErrorIsEnough(x: int, y: int)
    requires y > 0
  {
    forall q: real :: WithinError(q, x as real / y as real) ==> Truncate(q) == x / y
  }

  /** Whenever the exact quotient is an integer, a quotient that is smaller by the smallest relative error is
      truncated to the integer below. */
  lemma RelativeErrorIsNotEnough(n: int)
    requires 1 <= n <= 0x20_0000_0000_0000
    ensures var q := n as real - n as real * ERROR;
            WithinError(q, n as real) && Truncate(q) == n - 1
  {
    var d := n as real * ERROR;
    assert 0.0 < d <= 1.0;
    assert (n as real - d).Floor == n - 1;
  }

  lemma FloorBetween(q: real, n: int)
    requires n as real <= q < n as real + 1.0
    ensures q.Floor == n
  {
  }

  lemma Minus(v: real, d: real, y: real)
    ensures (v - d) * y == v * y - d * y
  {
  }

  lemma Plus(v: real, d: real, y: real)
    ensures (v + d) * y == v * y + d * y
  {
  }

  lemma AboveInteger(p: real, e: real, m: real, r: real, n: real, w: real, y: real)
    requires 0.0 < y && p == m + r && e < 1.0 && 1.0 <= r && m == n * y && w * y == p - e
    ensures n < w
  {
    Cancel(n, w, y);
  }

  lemma BelowInteger(p: real, e: real, m: real, r: real, n: real, w: real, y: real)
    requires 0.0 < y && p == m + r && e < 1.0 && r <= y - 1.0 && m == n * y && w * y == p + e
    ensures w < n + 1.0
  {
    Plus(n, 1.0, y);
    Cancel(w, n + 1.0, y);
  }

  lemma AwayFromIntegers(x: real, y: real, n: real, r: real, v: real, d: real)
    requires 0.0 < y && v * y == x && d * y < 1.0 && x == n * y + r && 1.0 <= r <= y - 1.0
    ensures n < v - d && v + d < n + 1.0
  {
    Minus(v, d, y);
    Plus(v, d, y);
    AboveInteger(x, d * y, n * y, r, n, v - d, y);
    BelowInteger(x, d * y, n * y, r, n, v + d, y);
  }

  lemma RealProduct(n: int, y: int)
    ensures (n * y) as real == n as real * y as real
  {
  }

  lemma SmallError(x: real)
    requires x <= 4294967296.0
    ensures x * ERROR < 1.0
  {
  }

  lemma ScaledProduct(x: real, y: real, v: real, e: real, d: real)
    requires v * y == x && d == v * e
    ensures d * y == x * e
  {
  }

  lemma StillSmall(a: real, b: real)
    requires a == b && b < 1.0
    ensures a < 1.0
  {
  }

  lemma ScaledError(x: real, y: real, v: real, e: real, d: real, c: real)
    requires v * y == x && d == v * e && c == x * e && c < 1.0
    ensures d * y < 1.0
  {
    ScaledProduct(x, y, v, e, d);
    StillSmall(d * y, c);
  }

  lemma RealDivMod(x: int, y: int, n: int, r: int)
    requires x == n * y + r && 0 < r < y
    ensures x as real == n as real * y as real + r as real
    ensures 1.0 <= r as real <= y as real - 1.0
  {
    RealProduct(n, y);
  }

  /** A remainder keeps the quotient away from the integers by more than a small error. */
  lemma ErrorBelowRemainder(x: int, y: int, n: int, r: int, v: real, e: real, d: real, c: real)
    requires x == n * y + r && 0 < r < y
    requires v * y as real == x as real && d == v * e && c == x as real * e && c < 1.0
    ensures n as real < v - d && v + d < n as real + 1.0
  {
    RealDivMod(x, y, n, r);
    ErrorBelow(x as real, y as real, n as real, r as real, v, e, d, c);
  }

  lemma ErrorBelow(x: real, y: real, n: real, r: real, v: real, e: real, d: real, c: real)
    requires 0.0 < y && v * y == x && x == n * y + r && 1.0 <= r <= y - 1.0
    requires d == v * e && c == x * e && c < 1.0
    ensures n < v - d && v + d < n + 1.0
  {
    ScaledError(x, y, v, e, d, c);
    AwayFromIntegers(x, y, n, r, v, d);
  }

  lemma Cancel(a: real, b: real, y: real)
    requires y > 0.0 && a * y < b * y
    ensures a < b
  {
  }

  lemma ExactQuotient(x: int, y: int)
    requires y > 0
    ensures x as real / y as real * y as real == x as real
  {
  }

  /** With a remainder, whatever is within the error lies between the same two integers. */
  lemma WithinTruncates(x: int, y: int, q: real, v: real)
    requires 0 <= x <= 0x1_0000_0000 && 0 < y && x % y != 0
    requires v * y as real == x as real && WithinError(q, v)
    ensures Truncate(q) == x / y
  {
    SmallError(x as real);
    ErrorBelowRemainder(x, y, x / y, x % y, v, ERROR, v * ERROR, x as real * ERROR);
    FloorBetween(q, x / y);
  }

  /** On 32-bit operands the bound is enough exactly if the dividend is zero or no multiple of the divisor. */
  lemma RelativeErrorIff(x: int, y: int)
    requires 0 <= x <= 0x1_0000_0000 && 0 < y
    ensures ErrorIsEnough(x, y) <==> x == 0 || x % y != 0
  {
    if x != 0 && x % y == 0 {
      MultipleQuotient(x, y);
      RelativeErrorIsNotEnough(x / y);
    } else {
      EnoughOffMultiples(x, y, x as real / y as real);
    }
  }

  lemma EnoughOffMultiples(x: int, y: int, v: real)
    requires 0 <= x <= 0x1_0000_0000 && 0 < y && (x == 0 || x % y != 0) && v == x as real / y as real
    ensures forall q: real :: WithinError(q, v) ==> Truncate(q) == x / y
  {
    ExactQuotient(x, y);
    forall q: real | WithinError(q, v) ensures Truncate(q) == x / y {
      if x != 0 {
        WithinTruncates(x, y, q, v);
      }
    }
  }

  lemma QuotientOf(x: real, y: real, n: real)
    requires 0.0 < y && x == n * y
    ensures x / y == n
  {
  }

  lemma MultipleBounds(n: int, y: int)
    requires 0 < n * y && 0 < y
    ensures 1 <= n <= n * y
  {
    assert n * y == n * (y - 1) + n;
  }

  lemma MultipleQuotient(x: int, y: int)
    requires 0 < x && 0 < y && x % y == 0
    ensures 1 <= x / y <= x && x as real / y as real == (x / y) as real
  {
    var n := x / y;
    assert x == n * y;
    MultipleBounds(n, y);
    RealProduct(n, y);
    QuotientOf(x as real, y as real, n as real);
  }
}
