/**
  The two programs that use a UART bank while nobody else does: the host's
  `UartAccess` and the driver's `UartPort`.  `Uart` shows that interleaving the
  single accesses does no harm.
 */
module UartPorts {
  import opened Options
  import opened Rings

  /** The floor modulus of a difference of two ring positions is the number of values between them. */
  lemma WrapCount(r: int, w: int, m: int)
    requires 0 <= r < m && 0 <= w < m
    ensures (w - r) % m == Count(r, w, m)
  {
    if r <= w {
      SmallMod(w - r, m);
    } else {
      NegativeMod(w - r, m);
    }
  }

  lemma NegativeMod(a: int, m: int)
    requires -m < a < 0
    ensures a % m == a + m
  {
    var q, r := a / m, a % m;
    assert a == q * m + r;
    if q >= 0 {
      Scale(q, m);
    } else if q <= -2 {
      Scale(-2 - q, m);
    }
  }

  lemma Scale(k: int, m: int)
    requires 0 <= k && 0 < m
    ensures 0 <= k * m
  {
  }

  // --- the host ---------------------------------------------------------------

  /** The host's receiver is the processor's transmit ring, and the other way round. */
  class UartAccess {
    const memory: array<int>
    const capacity: int

    ghost predicate Valid()
      reads memory
    {
      memory.Length == 512 && 0 <= capacity <= 253 && ValidBank(memory[..], capacity + 1)
    }

    ghost function Incoming(): seq<int>
      requires Valid()
      reads memory
    {
      Contents(memory[..], TX, capacity + 1)
    }

    ghost function Outgoing(): seq<int>
      requires Valid()
      reads memory
    {
      Contents(memory[..], RX, capacity + 1)
    }

    constructor (memory: array<int>, capacity: int)
      requires memory.Length == 512 && 0 <= capacity <= 253 && ValidBank(memory[..], capacity + 1)
      ensures Valid() && this.memory == memory && this.capacity == capacity
    {
      this.memory, this.capacity := memory, capacity;
    }

    method AvailableForWrite() returns (n: int)
      requires Valid()
      ensures n == capacity - |Outgoing()| && n >= 0
    {
      var txWptr := memory[255] % 256;
      WrapCount(memory[254], memory[255], capacity + 1);
      n := capacity - (txWptr - memory[254]) % (capacity + 1);
    }

    method Read() returns (r: Option<int>)
      requires Valid()
      modifies memory
      ensures Valid() && Outgoing() == old(Outgoing())
      ensures match r
              case None => old(Incoming()) == [] && Incoming() == []
              case Some(byte) =>
                old(Incoming()) != [] && byte == old(Incoming())[0] % 256 && Incoming() == old(Incoming())[1..]
    {
      FullCount(memory[..], TX, capacity + 1);
      if memory[510] == memory[511] {
        return None;
      }
      PopValue(memory[..], capacity + 1);
      NextIsMod(memory[510], capacity + 1);
      var byte := memory[256 + memory[510]] % 256;
      memory[510] := (memory[510] + 1) % (capacity + 1);
      r := Some(byte);
    }

    /** Reads until the ring is empty. */
    method ReadAll() returns (result: seq<int>)
      requires Valid()
      modifies memory
      ensures Valid() && Incoming() == [] && Outgoing() == old(Outgoing())
      ensures |result| == |old(Incoming())| && forall i :: 0 <= i < |result| ==> result[i] == old(Incoming())[i] % 256
    {
      result := [];
      ghost var before := Incoming();
      while true
        invariant Valid() && Outgoing() == old(Outgoing())
        invariant |result| + |Incoming()| == |before| && Incoming() == before[|result|..]
        invariant forall i :: 0 <= i < |result| ==> result[i] == before[i] % 256
        decreases |Incoming()|
      {
        var byte := Read();
        if byte == None {
          return;
        }
        result := result + [byte.value];
      }
    }

    method Write(byte: int) returns (ok: bool)
      requires Valid()
      modifies memory
      ensures Valid() && Incoming() == old(Incoming())
      ensures ok <==> |old(Outgoing())| < capacity
      ensures Outgoing() == if ok then old(Outgoing()) + [byte] else old(Outgoing())
    {
      FullCount(memory[..], RX, capacity + 1);
      NextIsMod(memory[255], capacity + 1);
      var txWptr := memory[255] % 256;
      var nextWptr := (txWptr + 1) % (capacity + 1);
      if nextWptr == memory[254] {
        return false;
      }
      PushValue(memory[..], capacity + 1, byte);
      memory[txWptr] := byte;
      memory[255] := nextWptr;
      ok := true;
    }

    /** The serial server's loop: as much of the buffer as there is room for, and no byte is dropped. */
    method Transmit(buffer: seq<int>) returns (bytes: int, overflowCount: int)
      requires Valid()
      modifies memory
      ensures Valid() && Incoming() == old(Incoming()) && overflowCount == 0
      ensures 0 <= bytes <= |buffer| && (bytes < |buffer| ==> bytes == capacity - |old(Outgoing())|)
      ensures Outgoing() == old(Outgoing()) + buffer[..bytes]
    {
      var available := AvailableForWrite();
      bytes := if |buffer| < available then |buffer| else available;
      overflowCount := 0;
      for i := 0 to bytes
        invariant Valid() && Incoming() == old(Incoming()) && overflowCount == 0
        invariant Outgoing() == old(Outgoing()) + buffer[..i]
      {
        var ok := Write(buffer[i]);
        if !ok {
          overflowCount := overflowCount + 1;
        }
      }
    }
  }

  // --- the driver -------------------------------------------------------------

  /** The bits of the status register that the driver looks at. */
  datatype Status = Status(txFull: bool, txEmpty: bool, rxFull: bool, rxNotEmpty: bool)

  class UartPort {
    const bank: array<int>
    const modulo: int

    ghost predicate Valid()
      reads bank
    {
      bank.Length == 512 && 1 <= modulo <= 254 && ValidBank(bank[..], modulo)
    }

    ghost function Incoming(): seq<int>
      requires Valid()
      reads bank
    {
      Contents(bank[..], RX, modulo)
    }

    ghost function Outgoing(): seq<int>
      requires Valid()
      reads bank
    {
      Contents(bank[..], TX, modulo)
    }

    constructor (bank: array<int>, modulo: int)
      requires bank.Length == 512 && 1 <= modulo <= 254 && ValidBank(bank[..], modulo)
      ensures Valid() && this.bank == bank && this.modulo == modulo
    {
      this.bank, this.modulo := bank, modulo;
    }

    /** A load from the status register. */
    method ReadStatus() returns (status: Status)
      requires Valid()
      ensures status
           == Status(|Outgoing()| == modulo - 1, Outgoing() == [], |Incoming()| == modulo - 1, Incoming() != [])
    {
      FullCount(bank[..], TX, modulo);
      FullCount(bank[..], RX, modulo);
      NextIsMod(bank[511], modulo);
      NextIsMod(bank[255], modulo);
      var nextTxWrite, nextRxWrite := (bank[511] + 1) % modulo, (bank[255] + 1) % modulo;
      status := Status(bank[510] == nextTxWrite, bank[510] == bank[511], bank[254] == nextRxWrite,
                       bank[254] != bank[255]);
    }

    /** A load from the receive register: zero if there is nothing to read. */
    method ReadRx() returns (result: int)
      requires Valid()
      modifies bank
      ensures Valid() && Outgoing() == old(Outgoing())
      ensures if old(Incoming()) == [] then result == 0 && Incoming() == []
              else result == old(Incoming())[0] % 0x1_0000_0000 && Incoming() == old(Incoming())[1..]
    {
      FullCount(bank[..], RX, modulo);
      if bank[254] == bank[255] {
        return 0;
      }
      AdvanceRead(bank[..], RX, modulo);
      OtherRing(bank[..], TX, modulo, 254, Next(bank[254], modulo));
      NextIsMod(bank[254], modulo);
      result := bank[bank[254]] % 0x1_0000_0000;
      bank[254] := (bank[254] + 1) % modulo;
    }

    /** A store to the transmit register; nothing checks for an overrun, which loses the whole ring. */
    method WriteTx(value: int)
      requires Valid()
      modifies bank
      ensures Valid() && Incoming() == old(Incoming())
      ensures Outgoing() == if |old(Outgoing())| == modulo - 1 then [] else old(Outgoing()) + [value]
    {
      FullCount(bank[..], TX, modulo);
      WriteData(bank[..], TX, modulo, value);
      OtherRing(bank[..], RX, modulo, 256 + bank[511], value);
      NextIsMod(bank[511], modulo);
      var nextTxWrite := (bank[511] + 1) % modulo;
      bank[bank[511] + 256] := value;
      AdvanceWrite(bank[..], TX, modulo);
      OtherRing(bank[..], RX, modulo, 511, nextTxWrite);
      bank[511] := nextTxWrite;
    }

    method TryWriteByte(byte: int) returns (ok: bool)
      requires Valid()
      modifies bank
      ensures Valid() && Incoming() == old(Incoming())
      ensures ok <==> |old(Outgoing())| < modulo - 1
      ensures Outgoing() == if ok then old(Outgoing()) + [byte] else old(Outgoing())
    {
      var status := ReadStatus();
      if status.txFull {
        return false;
      }
      WriteTx(byte);
      ok := true;
    }

    method ReadByte() returns (r: Option<int>)
      requires Valid()
      modifies bank
      ensures Valid() && Outgoing() == old(Outgoing())
      ensures match r
              case None => old(Incoming()) == [] && Incoming() == []
              case Some(byte) =>
                old(Incoming()) != [] && byte == old(Incoming())[0] % 256 && Incoming() == old(Incoming())[1..]
    {
      var status := ReadStatus();
      if !status.rxNotEmpty {
        return None;
      }
      var word := ReadRx();
      LowByte(old(Incoming())[0]);
      r := Some(word % 256);
    }

    /** Writes the buffer until the ring is full. */
    method Write(buf: seq<int>) returns (n: int)
      requires Valid()
      modifies bank
      ensures Valid() && Incoming() == old(Incoming()) && 0 <= n <= |buf|
      ensures n < |buf| ==> n == modulo - 1 - |old(Outgoing())|
      ensures Outgoing() == old(Outgoing()) + buf[..n]
    {
      for i := 0 to |buf|
        invariant Valid() && Incoming() == old(Incoming())
        invariant Outgoing() == old(Outgoing()) + buf[..i]
      {
        var ok := TryWriteByte(buf[i]);
        if !ok {
          return i;
        }
        assert buf[..i + 1] == buf[..i] + [buf[i]];
      }
      n := |buf|;
    }

    /** Fills the buffer until the ring is empty. */
    method Read(buf: array<int>) returns (n: int)
      requires Valid() && buf != bank
      modifies bank, buf
      ensures Valid() && Outgoing() == old(Outgoing()) && 0 <= n <= buf.Length && n <= |old(Incoming())|
      ensures n < buf.Length ==> Incoming() == []
      ensures Incoming() == old(Incoming())[n..]
      ensures forall i :: 0 <= i < n ==> buf[i] == old(Incoming())[i] % 256
      ensures forall i :: n <= i < buf.Length ==> buf[i] == old(buf[i])
    {
      for i := 0 to buf.Length
        invariant Valid() && Outgoing() == old(Outgoing()) && i <= |old(Incoming())|
        invariant Incoming() == old(Incoming())[i..]
        invariant forall j :: 0 <= j < i ==> buf[j] == old(Incoming())[j] % 256
        invariant forall j :: i <= j < buf.Length ==> buf[j] == old(buf[j])
      {
        var byte := ReadByte();
        if byte == None {
          return i;
        }
        buf[i] := byte.value;
      }
      n := buf.Length;
    }
  }

  lemma LowByte(v: int)
    ensures v % 0x1_0000_0000 % 256 == v % 256
  {
  }
}
