/**
  UART traffic under every interleaving of single memory accesses.

  A CPU runs the driver, which checks the status register before it reads or
  writes; every register access reads the four pointers of the bank, one at a
  time.  The other end of a bank is either `uart_link`, which moves bytes between
  two banks one access at a time, or the host, which acts between two accesses.
  Each end is proved against what the other end may do to the bank.
 */
module Uart {
  import opened Options
  import opened Rings

  // --- the CPU end ------------------------------------------------------------

  datatype Task = Send(byte: int) | Receive

  /** `Status(k)` and `Access(k)` have read `k` pointers; `Cell` moves the byte and `Pointer` publishes it. */
  datatype Pc = Idle | Status(k: int) | Access(k: int) | Cell | Pointer

  /** The registers are rx_read, rx_write, tx_read and tx_write, in the order in which access_uart reads them. */
  datatype Cpu = Cpu(pc: Pc, task: Task, regs: seq<int>, data: int)

  /** A bank, its CPU, and what went through it: bytes the CPU sent, bytes the far end took, bytes the far end put,
      bytes the CPU got. */
  datatype Side = Side(bank: Bank, cpu: Cpu, sent: seq<int>, taken: seq<int>, put: seq<int>, got: seq<int>)

  function PointerCell(k: int): int { if k == 0 then 254 else if k == 1 then 255 else if k == 2 then 510 else 511 }

  /** Reads outside the bank give null, and writes there do nothing. */
  function Get(b: Bank, i: int): int { if 0 <= i < |b| then b[i] else 0 }

  function Put(b: Bank, i: int, v: int): Bank { if 0 <= i < |b| then b[i := v] else b }

  function ReadPointer(s: Side, k: int): seq<int> {
    if 0 <= k < |s.cpu.regs| then s.cpu.regs[k := Get(s.bank, PointerCell(k))] else s.cpu.regs
  }

  function Reg(c: Cpu, k: int): int { Get(c.regs, k) }

  /** The status register says that the driver may go on: not TX full, or RX valid. */
  predicate Ready(m: int, c: Cpu)
    requires m > 0
  {
    match c.task
    case Send(_) => Reg(c, 2) != (Reg(c, 3) + 1) % m
    case Receive => Reg(c, 0) != Reg(c, 1)
  }

  /** One memory access of the CPU; an idle CPU begins a new task.  A load from an empty receive ring gives the
      driver a zero. */
  function CpuStep(m: int, s: Side, task: Task): Side
    requires m > 0
  {
    var c := s.cpu;
    match c.pc
    case Idle => s.(cpu := c.(pc := Status(0), task := task))
    case Status(k) =>
      if k < 4 then s.(cpu := c.(pc := Status(k + 1), regs := ReadPointer(s, k)))
      else s.(cpu := c.(pc := if Ready(m, c) then Access(0) else Idle))
    case Access(k) =>
      if k < 4 then s.(cpu := c.(pc := Access(k + 1), regs := ReadPointer(s, k)))
      else if c.task.Receive? && Reg(c, 0) == Reg(c, 1) then s.(cpu := c.(pc := Idle), got := s.got + [0])
      else s.(cpu := c.(pc := Cell))
    case Cell =>
      (match c.task
       case Send(byte) => s.(cpu := c.(pc := Pointer), bank := Put(s.bank, Reg(c, 3) + 256, byte))
       case Receive => s.(cpu := c.(pc := Pointer, data := Get(s.bank, Reg(c, 0)))))
    case Pointer =>
      (match c.task
       case Send(byte) => s.(cpu := c.(pc := Idle), bank := Put(s.bank, 511, (Reg(c, 3) + 1) % m),
                             sent := s.sent + [byte])
       case Receive => s.(cpu := c.(pc := Idle), bank := Put(s.bank, 254, (Reg(c, 0) + 1) % m),
                          got := s.got + [c.data]))
  }

  function Tx(m: int, s: Side): seq<int>
    requires ValidBank(s.bank, m)
  {
    Contents(s.bank, TX, m)
  }

  function Rx(m: int, s: Side): seq<int>
    requires ValidBank(s.bank, m)
  {
    Contents(s.bank, RX, m)
  }

  function Seen(pc: Pc): int {
    match pc
    case Idle => 0
    case Status(k) => k
    case Access(k) => k
    case _ => 4
  }

  /** What the registers still tell, although the far end has moved on since they were read. */
  predicate Fresh(m: int, s: Side)
    requires ValidBank(s.bank, m) && |s.cpu.regs| == 4
  {
    var seen, regs := Seen(s.cpu.pc), s.cpu.regs;
    && 0 <= seen <= 4
    && (seen >= 1 ==> regs[0] == s.bank[254])
    && (seen >= 2 && regs[0] != regs[1] ==> Rx(m, s) != [])
    && (seen >= 3 && Next(s.bank[511], m) != regs[2] ==> !Full(s.bank, TX, m))
    && (seen >= 4 ==> regs[3] == s.bank[511])
  }

  /** What the driver knows once it has checked the status. */
  predicate Granted(m: int, s: Side)
    requires ValidBank(s.bank, m)
  {
    var c := s.cpu;
    && (c.pc.Access? || c.pc.Cell? || c.pc.Pointer? ==> if c.task.Send? then !Full(s.bank, TX, m) else Rx(m, s) != [])
    && (c.pc.Access? && c.pc.k >= 2 && c.task.Receive? ==> Reg(c, 0) != Reg(c, 1))
    && (c.pc.Pointer? ==>
          if c.task.Send? then s.bank[256 + s.bank[511]] == c.task.byte
          else Rx(m, s) != [] && c.data == Rx(m, s)[0])
  }

  /** Nothing is lost, duplicated or reordered on this side. */
  predicate Conserved(m: int, s: Side)
    requires ValidBank(s.bank, m)
  {
    s.sent == s.taken + Tx(m, s) && s.put == s.got + Rx(m, s)
  }

  predicate ValidSide(m: int, s: Side) {
    && ValidBank(s.bank, m) && |s.cpu.regs| == 4
    && Fresh(m, s) && Granted(m, s) && Conserved(m, s)
  }

  // --- what each end may do to the bank ---------------------------------------

  /** The CPU appends to the transmit ring and drops from the receive ring. */
  predicate CpuMay(m: int, b: Bank, b': Bank)
    requires ValidBank(b, m)
  {
    && ValidBank(b', m)
    && b'[510] == b[510] && b'[255] == b[255] && b'[b[255]] == b[b[255]]
    && StartsWith(Contents(b', TX, m), Contents(b, TX, m))
    && |Contents(b', RX, m)| <= |Contents(b, RX, m)|
  }

  /** The far end drops from the transmit ring and appends to the receive ring. */
  predicate PeerMay(m: int, b: Bank, b': Bank)
    requires ValidBank(b, m)
  {
    && ValidBank(b', m)
    && b'[511] == b[511] && b'[254] == b[254] && b'[256 + b[511]] == b[256 + b[511]]
    && StartsWith(Contents(b', RX, m), Contents(b, RX, m))
    && |Contents(b', TX, m)| <= |Contents(b, TX, m)|
  }

  /** A step of the CPU keeps its side valid and stays within its bounds. */
  predicate CpuOk(m: int, s: Side, s': Side)
    requires ValidSide(m, s)
  {
    ValidSide(m, s') && CpuMay(m, s.bank, s'.bank) && s'.taken == s.taken && s'.put == s.put
  }

  lemma CpuReads(m: int, s: Side, task: Task)
    requires 1 <= m <= 254 && ValidSide(m, s) && (s.cpu.pc.Idle? || s.cpu.pc.Status? || s.cpu.pc.Access?)
    ensures CpuOk(m, s, CpuStep(m, s, task))
  {
    FullCount(s.bank, RX, m);
    NextIsMod(s.bank[511], m);
  }

  lemma CpuSendsByte(m: int, s: Side, task: Task)
    requires 1 <= m <= 254 && ValidSide(m, s) && s.cpu.pc.Cell? && s.cpu.task.Send?
    ensures CpuOk(m, s, CpuStep(m, s, task))
  {
    WriteData(s.bank, TX, m, s.cpu.task.byte);
    OtherRing(s.bank, RX, m, 256 + s.bank[511], s.cpu.task.byte);
  }

  lemma CpuGetsByte(m: int, s: Side, task: Task)
    requires 1 <= m <= 254 && ValidSide(m, s) && s.cpu.pc.Cell? && s.cpu.task.Receive?
    ensures CpuOk(m, s, CpuStep(m, s, task))
  {
    AdvanceRead(s.bank, RX, m);
  }

  /** The transmit ring after its write pointer moved on. */
  lemma PublishedTx(m: int, b: Bank)
    requires 1 <= m <= 254 && ValidBank(b, m) && !Full(b, TX, m)
    ensures var b' := b[511 := Next(b[511], m)];
            ValidRing(b', TX, m) && Contents(b', TX, m) == Contents(b, TX, m) + [b[256 + b[511]]]
  {
    AdvanceWrite(b, TX, m);
  }

  /** The receive ring does not notice. */
  lemma PublishedRx(m: int, b: Bank)
    requires 1 <= m <= 254 && ValidBank(b, m)
    ensures var b' := b[511 := Next(b[511], m)];
            ValidRing(b', RX, m) && Contents(b', RX, m) == Contents(b, RX, m)
  {
    OtherRing(b, RX, m, 511, Next(b[511], m));
  }

  lemma PublishedMay(m: int, b: Bank)
    requires 1 <= m <= 254 && ValidBank(b, m) && !Full(b, TX, m)
    ensures CpuMay(m, b, b[511 := Next(b[511], m)])
  {
    PublishedTx(m, b);
    PublishedRx(m, b);
  }

  /** The state after the publishing store. */
  lemma PublishedStep(m: int, s: Side, task: Task)
    requires 1 <= m <= 254 && ValidSide(m, s) && s.cpu.pc.Pointer? && s.cpu.task.Send?
    ensures CpuStep(m, s, task) == s.(cpu := s.cpu.(pc := Idle), bank := s.bank[511 := Next(s.bank[511], m)],
                                      sent := s.sent + [s.cpu.task.byte])
  {
    NextIsMod(s.bank[511], m);
  }

  lemma CpuPublishes(m: int, s: Side, task: Task)
    requires 1 <= m <= 254 && ValidSide(m, s) && s.cpu.pc.Pointer? && s.cpu.task.Send?
    ensures CpuOk(m, s, CpuStep(m, s, task))
  {
    PublishedStep(m, s, task);
    PublishedTx(m, s.bank);
    PublishedRx(m, s.bank);
    PublishedMay(m, s.bank);
  }

  lemma CpuReleases(m: int, s: Side, task: Task)
    requires 1 <= m <= 254 && ValidSide(m, s) && s.cpu.pc.Pointer? && s.cpu.task.Receive?
    ensures CpuOk(m, s, CpuStep(m, s, task))
  {
    NextIsMod(s.bank[254], m);
    AdvanceRead(s.bank, RX, m);
    OtherRing(s.bank, TX, m, 254, Next(s.bank[254], m));
  }

  lemma CpuKeeps(m: int, s: Side, task: Task)
    requires 1 <= m <= 254 && ValidSide(m, s)
    ensures CpuOk(m, s, CpuStep(m, s, task))
  {
    match s.cpu.pc
    case Cell =>
      if s.cpu.task.Send? {
        CpuSendsByte(m, s, task);
      } else {
        CpuGetsByte(m, s, task);
      }
    case Pointer =>
      if s.cpu.task.Send? {
        CpuPublishes(m, s, task);
      } else {
        CpuReleases(m, s, task);
      }
    case _ =>
      CpuReads(m, s, task);
  }

  /** A side stays valid under anything the far end may do, as long as the books are kept. */
  lemma PeerKeeps(m: int, s: Side, b: Bank, taken: seq<int>, put: seq<int>)
    requires 1 <= m <= 254 && ValidSide(m, s) && PeerMay(m, s.bank, b)
    requires s.sent == taken + Contents(b, TX, m) && put == s.got + Contents(b, RX, m)
    ensures ValidSide(m, s.(bank := b, taken := taken, put := put))
  {
    FullCount(s.bank, TX, m);
    FullCount(b, TX, m);
  }

  // --- uart_link --------------------------------------------------------------

  /** The link processor: the direction it serves, its position in that half of its program, and its variables. */
  datatype Link = Link(forward: bool, step: int, txR: int, txW: int, rxR: int, rxW: int, byte: int)

  function Turn(l: Link): Link { l.(forward := !l.forward, step := 0) }

  /** One instruction of the link, from the transmit ring of `src` to the receive ring of `dst`. */
  function LinkStep(m: int, src: Side, dst: Side, l: Link): (Side, Side, Link)
    requires m > 0
  {
    var next := l.(step := l.step + 1);
    if l.step == 0 then (src, dst, next.(txR := Get(src.bank, 510)))
    else if l.step == 1 then (src, dst, next.(txW := Get(src.bank, 511)))
    else if l.step == 2 then (src, dst, if l.txR == l.txW then Turn(l) else next)
    else if l.step == 3 then (src, dst, next.(rxR := Get(dst.bank, 254)))
    else if l.step == 4 then (src, dst, next.(rxW := Get(dst.bank, 255)))
    else if l.step == 5 then (src, dst, if l.rxR == (l.rxW + 1) % m then Turn(l) else next)
    else if l.step == 6 then (src, dst, next.(byte := Get(src.bank, l.txR + 256)))
    else if l.step == 7 then (src.(bank := Put(src.bank, 510, (l.txR + 1) % m), taken := src.taken + [l.byte]), dst,
                              next)
    else if l.step == 8 then (src, dst.(bank := Put(dst.bank, l.rxW, l.byte)), next)
    else (src, dst.(bank := Put(dst.bank, 255, (l.rxW + 1) % m), put := dst.put + [l.byte]), Turn(l))
  }

  /** The byte that the link has taken and not yet put down. */
  function InFlight(l: Link): seq<int> { if l.step == 8 || l.step == 9 then [l.byte] else [] }

  /** What the link's variables still tell. */
  predicate LinkKnows(m: int, src: Side, dst: Side, l: Link)
    requires ValidBank(src.bank, m) && ValidBank(dst.bank, m)
  {
    && 0 <= l.step <= 9
    && (1 <= l.step <= 7 ==> l.txR == src.bank[510])
    && (l.step == 2 && l.txR != l.txW ==> Tx(m, src) != [])
    && (3 <= l.step <= 7 ==> Tx(m, src) != [])
    && (4 <= l.step <= 5 && Next(dst.bank[255], m) != l.rxR ==> !Full(dst.bank, RX, m))
    && (5 <= l.step ==> l.rxW == dst.bank[255])
    && (6 <= l.step ==> !Full(dst.bank, RX, m))
    && (l.step == 7 ==> Tx(m, src) != [] && l.byte == Tx(m, src)[0])
    && (l.step == 9 ==> dst.bank[dst.bank[255]] == l.byte)
  }

  /** Everything taken at `src` was put down at `dst` or is in flight; nothing is in flight the other way. */
  predicate LinkConserves(src: Side, dst: Side, l: Link) {
    src.taken == dst.put + InFlight(l) && dst.taken == src.put
  }

  predicate ValidLink(m: int, src: Side, dst: Side, l: Link) {
    && ValidSide(m, src) && ValidSide(m, dst)
    && LinkKnows(m, src, dst, l) && LinkConserves(src, dst, l)
  }

  /** Valid after a step: in the same direction, or turned around. */
  predicate LinkOk(m: int, l: Link, r: (Side, Side, Link)) {
    if r.2.forward == l.forward then ValidLink(m, r.0, r.1, r.2) else ValidLink(m, r.1, r.0, r.2)
  }

  lemma LinkReadsSource(m: int, src: Side, dst: Side, l: Link)
    requires 1 <= m <= 254 && ValidLink(m, src, dst, l) && l.step <= 2
    ensures LinkOk(m, l, LinkStep(m, src, dst, l))
  {
    FullCount(src.bank, TX, m);
  }

  lemma LinkReadsPointers(m: int, src: Side, dst: Side, l: Link)
    requires 1 <= m <= 254 && ValidLink(m, src, dst, l) && 3 <= l.step <= 4
    ensures LinkOk(m, l, LinkStep(m, src, dst, l))
  {
  }

  lemma LinkTestsRoom(m: int, src: Side, dst: Side, l: Link)
    requires 1 <= m <= 254 && ValidLink(m, src, dst, l) && l.step == 5
    ensures LinkOk(m, l, LinkStep(m, src, dst, l))
  {
    NextIsMod(dst.bank[255], m);
  }

  lemma LinkReadsDestination(m: int, src: Side, dst: Side, l: Link)
    requires 1 <= m <= 254 && ValidLink(m, src, dst, l) && 3 <= l.step <= 5
    ensures LinkOk(m, l, LinkStep(m, src, dst, l))
  {
    if l.step == 5 {
      LinkTestsRoom(m, src, dst, l);
    } else {
      LinkReadsPointers(m, src, dst, l);
    }
  }

  lemma LinkReadsByte(m: int, src: Side, dst: Side, l: Link)
    requires 1 <= m <= 254 && ValidLink(m, src, dst, l) && l.step == 6
    ensures LinkOk(m, l, LinkStep(m, src, dst, l))
  {
    AdvanceRead(src.bank, TX, m);
  }

  lemma LinkTakes(m: int, src: Side, dst: Side, l: Link)
    requires 1 <= m <= 254 && ValidLink(m, src, dst, l) && l.step == 7
    ensures LinkOk(m, l, LinkStep(m, src, dst, l))
  {
    var b, r := src.bank, Next(src.bank[510], m);
    NextIsMod(b[510], m);
    AdvanceRead(b, TX, m);
    OtherRing(b, RX, m, 510, r);
    PeerKeeps(m, src, b[510 := r], src.taken + [l.byte], src.put);
  }

  lemma LinkDelivers(m: int, src: Side, dst: Side, l: Link)
    requires 1 <= m <= 254 && ValidLink(m, src, dst, l) && l.step == 8
    ensures LinkOk(m, l, LinkStep(m, src, dst, l))
  {
    var b := dst.bank;
    WriteData(b, RX, m, l.byte);
    OtherRing(b, TX, m, b[255], l.byte);
    PeerKeeps(m, dst, b[b[255] := l.byte], dst.taken, dst.put);
    FullCount(b, RX, m);
  }

  /** The bank of the destination after its write pointer moved on. */
  lemma PublishedByLink(m: int, b: Bank)
    requires 1 <= m <= 254 && ValidBank(b, m) && !Full(b, RX, m)
    ensures var b' := b[255 := Next(b[255], m)];
            && PeerMay(m, b, b')
            && Contents(b', RX, m) == Contents(b, RX, m) + [b[b[255]]] && Contents(b', TX, m) == Contents(b, TX, m)
  {
    AdvanceWrite(b, RX, m);
    OtherRing(b, TX, m, 255, Next(b[255], m));
  }

  /** The state after the link has published a byte. */
  lemma PublishingStep(m: int, src: Side, dst: Side, l: Link)
    requires 1 <= m <= 254 && ValidLink(m, src, dst, l) && l.step == 9
    ensures LinkStep(m, src, dst, l)
         == (src, dst.(bank := dst.bank[255 := Next(dst.bank[255], m)], put := dst.put + [l.byte]), Turn(l))
  {
    NextIsMod(dst.bank[255], m);
  }

  lemma LinkPublishes(m: int, src: Side, dst: Side, l: Link)
    requires 1 <= m <= 254 && ValidLink(m, src, dst, l) && l.step == 9
    ensures LinkOk(m, l, LinkStep(m, src, dst, l))
  {
    var b, w := dst.bank, Next(dst.bank[255], m);
    PublishingStep(m, src, dst, l);
    PublishedByLink(m, b);
    PeerKeeps(m, dst, b[255 := w], dst.taken, dst.put + [l.byte]);
  }

  lemma LinkKeeps(m: int, src: Side, dst: Side, l: Link)
    requires 1 <= m <= 254 && ValidLink(m, src, dst, l)
    ensures LinkOk(m, l, LinkStep(m, src, dst, l))
  {
    if l.step <= 2 {
      LinkReadsSource(m, src, dst, l);
    } else if l.step <= 5 {
      LinkReadsDestination(m, src, dst, l);
    } else if l.step == 6 {
      LinkReadsByte(m, src, dst, l);
    } else if l.step == 7 {
      LinkTakes(m, src, dst, l);
    } else if l.step == 8 {
      LinkDelivers(m, src, dst, l);
    } else {
      LinkPublishes(m, src, dst, l);
    }
  }

  /** The link tolerates the CPU of its source. */
  lemma LinkToleratesSource(m: int, src: Side, dst: Side, l: Link, src': Side)
    requires 1 <= m <= 254 && ValidLink(m, src, dst, l) && CpuOk(m, src, src')
    ensures ValidLink(m, src', dst, l)
  {
  }

  /** And the CPU of its destination. */
  lemma LinkToleratesDestination(m: int, src: Side, dst: Side, l: Link, dst': Side)
    requires 1 <= m <= 254 && ValidLink(m, src, dst, l) && CpuOk(m, dst, dst')
    ensures ValidLink(m, src, dst', l)
  {
    FullCount(dst.bank, RX, m);
    FullCount(dst'.bank, RX, m);
  }

  // --- two computers ----------------------------------------------------------

  datatype Wired = Wired(a: Side, b: Side, link: Link)

  datatype Choice = CpuA(task: Task) | CpuB(task: Task) | Mover

  function WiredStep(m: int, s: Wired, t: Choice): Wired
    requires m > 0
  {
    match t
    case CpuA(task) => s.(a := CpuStep(m, s.a, task))
    case CpuB(task) => s.(b := CpuStep(m, s.b, task))
    case Mover =>
      if s.link.forward then
        var (src, dst, l) := LinkStep(m, s.a, s.b, s.link);
        Wired(src, dst, l)
      else
        var (src, dst, l) := LinkStep(m, s.b, s.a, s.link);
        Wired(dst, src, l)
  }

  /** A whole run under some schedule. */
  function WiredRun(m: int, s: Wired, schedule: seq<Choice>): Wired
    requires m > 0
    decreases |schedule|
  {
    if schedule == [] then s else WiredStep(m, WiredRun(m, s, schedule[..|schedule| - 1]), schedule[|schedule| - 1])
  }

  predicate ValidWired(m: int, s: Wired) {
    if s.link.forward then ValidLink(m, s.a, s.b, s.link) else ValidLink(m, s.b, s.a, s.link)
  }

  /** An idle side whose bank is all zero. */
  function FreshSide(): Side { Side(seq(512, _ => 0), Cpu(Idle, Receive, [0, 0, 0, 0], 0), [], [], [], []) }

  function FreshWired(): Wired { Wired(FreshSide(), FreshSide(), Link(true, 0, 0, 0, 0, 0, 0)) }

  lemma FreshValid(m: int)
    requires 1 <= m <= 254
    ensures ValidWired(m, FreshWired())
  {
    assert Contents(FreshSide().bank, RX, m) == [] && Contents(FreshSide().bank, TX, m) == [];
  }

  lemma WiredKeeps(m: int, s: Wired, t: Choice)
    requires 1 <= m <= 254 && ValidWired(m, s)
    ensures ValidWired(m, WiredStep(m, s, t))
  {
    match t
    case CpuA(task) =>
      CpuKeeps(m, s.a, task);
      if s.link.forward {
        LinkToleratesSource(m, s.a, s.b, s.link, CpuStep(m, s.a, task));
      } else {
        LinkToleratesDestination(m, s.b, s.a, s.link, CpuStep(m, s.a, task));
      }
    case CpuB(task) =>
      CpuKeeps(m, s.b, task);
      if s.link.forward {
        LinkToleratesDestination(m, s.a, s.b, s.link, CpuStep(m, s.b, task));
      } else {
        LinkToleratesSource(m, s.b, s.a, s.link, CpuStep(m, s.b, task));
      }
    case Mover =>
      if s.link.forward {
        LinkKeeps(m, s.a, s.b, s.link);
      } else {
        LinkKeeps(m, s.b, s.a, s.link);
      }
  }

  lemma {:induction false} WiredReachable(m: int, schedule: seq<Choice>)
    requires 1 <= m <= 254
    ensures ValidWired(m, WiredRun(m, FreshWired(), schedule))
    decreases |schedule|
  {
    if schedule == [] {
      FreshValid(m);
    } else {
      WiredReachable(m, schedule[..|schedule| - 1]);
      WiredKeeps(m, WiredRun(m, FreshWired(), schedule[..|schedule| - 1]), schedule[|schedule| - 1]);
    }
  }

  /** Where every byte is that was sent from one computer to the other. */
  predicate Accounted(m: int, from: Side, to: Side, inFlight: seq<int>)
    requires ValidBank(from.bank, m) && ValidBank(to.bank, m)
  {
    from.sent == to.got + (Rx(m, to) + (inFlight + Tx(m, from)))
  }

  /** For every interleaving: what one computer got is a prefix of what the other one sent, in both directions, and
      the rest is in the rings or in flight. */
  lemma EndToEnd(m: int, schedule: seq<Choice>)
    requires 1 <= m <= 254
    ensures var s := WiredRun(m, FreshWired(), schedule);
            && ValidBank(s.a.bank, m) && ValidBank(s.b.bank, m)
            && StartsWith(s.a.sent, s.b.got) && StartsWith(s.b.sent, s.a.got)
            && Accounted(m, s.a, s.b, if s.link.forward then InFlight(s.link) else [])
            && Accounted(m, s.b, s.a, if s.link.forward then [] else InFlight(s.link))
  {
    var s := WiredRun(m, FreshWired(), schedule);
    WiredReachable(m, schedule);
    if s.link.forward {
      Chain(m, s.a, s.b, InFlight(s.link));
      Chain(m, s.b, s.a, []);
    } else {
      Chain(m, s.a, s.b, []);
      Chain(m, s.b, s.a, InFlight(s.link));
    }
  }

  lemma Chain(m: int, from: Side, to: Side, inFlight: seq<int>)
    requires ValidSide(m, from) && ValidSide(m, to) && from.taken == to.put + inFlight
    ensures Accounted(m, from, to, inFlight) && StartsWith(from.sent, to.got)
  {
    calc {
      from.sent;
      to.got + Rx(m, to) + inFlight + Tx(m, from);
      to.got + (Rx(m, to) + (inFlight + Tx(m, from)));
    }
  }

  // --- a computer and the host ------------------------------------------------

  /** The host reads a byte if there is one. */
  function HostRead(m: int, s: Side): Side
    requires m > 0
  {
    if Get(s.bank, 510) == Get(s.bank, 511) then s
    else
      var r := Get(s.bank, 510);
      s.(bank := Put(s.bank, 510, (r + 1) % m), taken := s.taken + [Get(s.bank, 256 + r)])
  }

  /** The host writes a byte if there is room. */
  function HostWrite(m: int, s: Side, byte: int): Side
    requires m > 0
  {
    var w := Get(s.bank, 255);
    if (w + 1) % m == Get(s.bank, 254) then s
    else s.(bank := Put(Put(s.bank, w, byte), 255, (w + 1) % m), put := s.put + [byte])
  }

  lemma HostTakes(m: int, s: Side, b: Bank, r: int)
    requires 1 <= m <= 254 && ValidSide(m, s) && b == s.bank && r == b[510] != b[511]
    ensures var b' := b[510 := Next(r, m)];
            && ValidSide(m, s.(bank := b', taken := s.taken + [b[256 + r]]))
            && Contents(b', RX, m) == Rx(m, s)
  {
    FullCount(b, TX, m);
    AdvanceRead(b, TX, m);
    OtherRing(b, RX, m, 510, Next(r, m));
    PeerKeeps(m, s, b[510 := Next(r, m)], s.taken + [b[256 + r]], s.put);
  }

  lemma HostReadKeeps(m: int, s: Side)
    requires 1 <= m <= 254 && ValidSide(m, s)
    ensures ValidSide(m, HostRead(m, s)) && Contents(HostRead(m, s).bank, RX, m) == Rx(m, s)
  {
    if s.bank[510] != s.bank[511] {
      NextIsMod(s.bank[510], m);
      HostTakes(m, s, s.bank, s.bank[510]);
    }
  }

  /** Writing the byte and publishing it, when there is room. */
  lemma PushKeeps(m: int, s: Side, byte: int)
    requires 1 <= m <= 254 && ValidSide(m, s) && !Full(s.bank, RX, m)
    ensures var b := s.bank[s.bank[255] := byte][255 := Next(s.bank[255], m)];
            ValidSide(m, s.(bank := b, put := s.put + [byte])) && Contents(b, RX, m) == Rx(m, s) + [byte]
  {
    var b := s.bank;
    PushValue(b, m, byte);
    PeerKeeps(m, s, b[b[255] := byte][255 := Next(b[255], m)], s.taken, s.put + [byte]);
  }

  /** The outcome of a host write: refused exactly when the ring is full. */
  predicate Accepts(m: int, s: Side, byte: int, s': Side)
    requires ValidSide(m, s)
  {
    && ValidSide(m, s')
    && Rx(m, s') == (if |Rx(m, s)| == m - 1 then Rx(m, s) else Rx(m, s) + [byte])
    && s'.put == if |Rx(m, s)| == m - 1 then s.put else s.put + [byte]
  }

  lemma HostWriteKeeps(m: int, s: Side, byte: int)
    requires 1 <= m <= 254 && ValidSide(m, s)
    ensures Accepts(m, s, byte, HostWrite(m, s, byte))
  {
    FullCount(s.bank, RX, m);
    NextIsMod(s.bank[255], m);
    if !Full(s.bank, RX, m) {
      PushKeeps(m, s, byte);
    }
  }

  datatype Visit = Cpu1(task: Task) | Reads | Writes(byte: int)

  function VisitStep(m: int, s: Side, v: Visit): Side
    requires m > 0
  {
    match v
    case Cpu1(task) => CpuStep(m, s, task)
    case Reads => HostRead(m, s)
    case Writes(byte) => HostWrite(m, s, byte)
  }

  function VisitRun(m: int, s: Side, schedule: seq<Visit>): Side
    requires m > 0
    decreases |schedule|
  {
    if schedule == [] then s else VisitStep(m, VisitRun(m, s, schedule[..|schedule| - 1]), schedule[|schedule| - 1])
  }

  lemma {:induction false} VisitReachable(m: int, s: Side, schedule: seq<Visit>)
    requires 1 <= m <= 254 && ValidSide(m, s)
    ensures ValidSide(m, VisitRun(m, s, schedule))
    decreases |schedule|
  {
    if schedule != [] {
      var before := VisitRun(m, s, schedule[..|schedule| - 1]);
      VisitReachable(m, s, schedule[..|schedule| - 1]);
      match schedule[|schedule| - 1]
      case Cpu1(task) => CpuKeeps(m, before, task);
      case Reads => HostReadKeeps(m, before);
      case Writes(byte) => HostWriteKeeps(m, before, byte);
    }
  }

  /** For every interleaving with the host: it reads a prefix of what the CPU sent, and the CPU gets a prefix of what
      it accepted. */
  lemma HostEndToEnd(m: int, schedule: seq<Visit>)
    requires 1 <= m <= 254
    ensures var s := VisitRun(m, FreshSide(), schedule);
            && ValidBank(s.bank, m)
            && StartsWith(s.sent, s.taken) && s.sent == s.taken + Tx(m, s)
            && StartsWith(s.put, s.got) && s.put == s.got + Rx(m, s)
  {
    FreshValid(m);
    VisitReachable(m, FreshSide(), schedule);
  }

  /** Some steps of the CPU. */
  function CpuRun(m: int, s: Side, tasks: seq<Task>): Side
    requires m > 0
    decreases |tasks|
  {
    if tasks == [] then s else CpuRun(m, CpuStep(m, s, tasks[0]), tasks[1..])
  }

  lemma {:induction false} CpuRunFrees(m: int, s: Side, tasks: seq<Task>)
    requires 1 <= m <= 254 && ValidSide(m, s)
    ensures var s' := CpuRun(m, s, tasks);
            ValidSide(m, s') && |Rx(m, s')| <= |Rx(m, s)| && s'.put == s.put
    decreases |tasks|
  {
    if tasks != [] {
      CpuKeeps(m, s, tasks[0]);
      CpuRunFrees(m, CpuStep(m, s, tasks[0]), tasks[1..]);
    }
  }

  /** The host writes a batch, and the CPU runs for a while before each byte. */
  function Batch(m: int, s: Side, bytes: seq<int>, between: seq<seq<Task>>): Side
    requires m > 0 && |between| == |bytes|
    decreases |bytes|
  {
    if bytes == [] then s
    else Batch(m, HostWrite(m, CpuRun(m, s, between[0]), bytes[0]), bytes[1..], between[1..])
  }

  lemma BatchStep(m: int, s: Side, byte: int, tasks: seq<Task>)
    requires 1 <= m <= 254 && ValidSide(m, s) && |Rx(m, s)| < m - 1
    ensures var s' := HostWrite(m, CpuRun(m, s, tasks), byte);
            ValidSide(m, s') && |Rx(m, s')| <= |Rx(m, s)| + 1 && s'.put == s.put + [byte]
  {
    CpuRunFrees(m, s, tasks);
    HostWriteKeeps(m, CpuRun(m, s, tasks), byte);
  }

  /** A batch of at most availableForWrite bytes is accepted whole, whatever the CPU does meanwhile. */
  lemma {:induction false} BatchAccepted(m: int, s: Side, bytes: seq<int>, between: seq<seq<Task>>)
    requires 1 <= m <= 254 && ValidSide(m, s) && |between| == |bytes| && |bytes| <= m - 1 - |Rx(m, s)|
    ensures ValidSide(m, Batch(m, s, bytes, between)) && Batch(m, s, bytes, between).put == s.put + bytes
    decreases |bytes|
  {
    if bytes != [] {
      BatchStep(m, s, bytes[0], between[0]);
      BatchAccepted(m, HostWrite(m, CpuRun(m, s, between[0]), bytes[0]), bytes[1..], between[1..]);
      assert s.put + [bytes[0]] + bytes[1..] == s.put + bytes;
    }
  }
}
