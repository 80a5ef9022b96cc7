/**
  The FIFOs of a UART: two rings in one memory bank of 512 cells.

  The receive ring uses cells 0 to 253 with its read and write pointers in 254
  and 255; the transmit ring uses cells 256 to 509 with its pointers in 510 and
  511.  A ring of modulo `m` holds at most `m - 1` values, so that full and empty
  differ.
 */
module Rings {

  type Bank = seq<int>

  const RX: int := 0
  const TX: int := 256

  /** One step along a ring. */
  function Next(i: int, m: int): int { if i + 1 == m then 0 else i + 1 }

  /** The code computes `(i + 1) mod m`. */
  lemma NextIsMod(i: int, m: int)
    requires 0 <= i < m
    ensures (i + 1) % m == Next(i, m)
  {
    if i + 1 < m {
      SmallMod(i + 1, m);
    }
  }

  lemma SmallMod(i: int, m: int)
    requires 0 <= i < m
    ensures i % m == i
  {
  }

  predicate IsBase(base: int) { base == RX || base == TX }

  predicate ValidRing(b: Bank, base: int, m: int) {
    |b| == 512 && IsBase(base) && 1 <= m <= 254 && 0 <= b[base + 254] < m && 0 <= b[base + 255] < m
  }

  predicate ValidBank(b: Bank, m: int) { ValidRing(b, RX, m) && ValidRing(b, TX, m) }

  function Count(r: int, w: int, m: int): int { if r <= w then w - r else w - r + m }

  /** Cell of the i-th value, counted from the read pointer. */
  function At(r: int, i: int, m: int): int { if r + i < m then r + i else r + i - m }

  /** The values in a ring, oldest first. */
  function Contents(b: Bank, base: int, m: int): (s: seq<int>)
    requires ValidRing(b, base, m)
    ensures |s| == Count(b[base + 254], b[base + 255], m) && |s| < m
  {
    var r, w := b[base + 254], b[base + 255];
    seq(Count(r, w, m), i requires 0 <= i < Count(r, w, m) => b[base + At(r, i, m)])
  }

  predicate Full(b: Bank, base: int, m: int)
    requires ValidRing(b, base, m)
  {
    Next(b[base + 255], m) == b[base + 254]
  }

  lemma FullCount(b: Bank, base: int, m: int)
    requires ValidRing(b, base, m)
    ensures Full(b, base, m) <==> |Contents(b, base, m)| == m - 1
    ensures b[base + 254] == b[base + 255] <==> |Contents(b, base, m)| == 0
  {
  }

  /** The cell at the write pointer belongs to no value. */
  lemma WriteData(b: Bank, base: int, m: int, v: int)
    requires ValidRing(b, base, m)
    ensures var b' := b[base + b[base + 255] := v];
            ValidRing(b', base, m) && Contents(b', base, m) == Contents(b, base, m)
  {
  }

  /** Advancing the write pointer appends the value there, unless the ring is full: then every value is lost. */
  lemma AdvanceWrite(b: Bank, base: int, m: int)
    requires ValidRing(b, base, m)
    ensures var b' := b[base + 255 := Next(b[base + 255], m)];
            && ValidRing(b', base, m)
            && Contents(b', base, m)
               == if Full(b, base, m) then [] else Contents(b, base, m) + [b[base + b[base + 255]]]
  {
  }

  /** Advancing the read pointer drops the oldest value. */
  lemma AdvanceRead(b: Bank, base: int, m: int)
    requires ValidRing(b, base, m) && Contents(b, base, m) != []
    ensures var b' := b[base + 254 := Next(b[base + 254], m)];
            ValidRing(b', base, m) && Contents(b', base, m) == Contents(b, base, m)[1..]
    ensures Contents(b, base, m)[0] == b[base + b[base + 254]]
  {
  }

  /** The rings do not share cells. */
  lemma OtherRing(b: Bank, base: int, m: int, k: int, v: int)
    requires ValidRing(b, base, m) && 0 <= k < 512 && !(base <= k < base + 256)
    ensures ValidRing(b[k := v], base, m) && Contents(b[k := v], base, m) == Contents(b, base, m)
  {
  }

  /** A value written to the receive ring and published, when there is room. */
  lemma PushValue(b: Bank, m: int, v: int)
    requires ValidBank(b, m) && !Full(b, RX, m)
    ensures var b' := b[b[255] := v][255 := Next(b[255], m)];
            && ValidBank(b', m)
            && Contents(b', RX, m) == Contents(b, RX, m) + [v] && Contents(b', TX, m) == Contents(b, TX, m)
  {
    WriteData(b, RX, m, v);
    OtherRing(b, TX, m, b[255], v);
    AdvanceWrite(b[b[255] := v], RX, m);
    OtherRing(b[b[255] := v], TX, m, 255, Next(b[255], m));
  }

  /** A value taken from the transmit ring. */
  lemma PopValue(b: Bank, m: int)
    requires ValidBank(b, m) && Contents(b, TX, m) != []
    ensures var b' := b[510 := Next(b[510], m)];
            && ValidBank(b', m) && Contents(b, TX, m)[0] == b[256 + b[510]]
            && Contents(b', TX, m) == Contents(b, TX, m)[1..] && Contents(b', RX, m) == Contents(b, RX, m)
  {
    AdvanceRead(b, TX, m);
    OtherRing(b, RX, m, 510, Next(b[510], m));
  }
}
