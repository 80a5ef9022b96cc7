/**
  Bytes arrive: however the accesses of two computers and of the link between them
  are interleaved, a byte that can be moved has been moved once the link has made
  enough steps, and a driver that can go on has done so.
 */
module UartProgress {
  import opened Options
  import opened Rings
  import opened Uart

  // --- one direction ----------------------------------------------------------

  /** The ends of a direction; `forward` is from `a` to `b`. */
  function Source(s: Wired, forward: bool): Side { if forward then s.a else s.b }

  function Target(s: Wired, forward: bool): Side { if forward then s.b else s.a }

  /** There is a byte to move, and room for it. */
  predicate CanMove(m: int, s: Wired, forward: bool)
    requires ValidWired(m, s)
  {
    Tx(m, Source(s, forward)) != [] && !Full(Target(s, forward).bank, RX, m)
  }

  function Movers(schedule: seq<Choice>): nat {
    if schedule == [] then 0
    else Movers(schedule[..|schedule| - 1]) + if schedule[|schedule| - 1].Mover? then 1 else 0
  }

  /** A byte can be moved, or the link is already carrying one. */
  predicate Poised(m: int, s: Wired, forward: bool) {
    ValidWired(m, s) && ((s.link.forward == forward && s.link.step >= 8) || CanMove(m, s, forward))
  }

  /** At most so many steps of the link until it has put down a byte.  What it read before may be out of date and send
      it once around the other half of its program. */
  function Left(m: int, s: Wired, forward: bool): int
    requires ValidWired(m, s)
  {
    var l := s.link;
    if l.forward != forward then 20 - l.step
    else if l.step == 2 && l.txR == l.txW then 21
    else if (l.step == 4 || l.step == 5) && l.rxR == Next(Target(s, forward).bank[255], m) then 26 - l.step
    else 10 - l.step
  }

  lemma LeftBounds(m: int, s: Wired, forward: bool)
    requires ValidWired(m, s)
    ensures 1 <= Left(m, s, forward) <= 22
  {
  }

  /** What a step of the link in its own direction does to the direction. */
  predicate MovesOn(m: int, s: Wired, r: Wired, forward: bool)
    requires ValidWired(m, s) && ValidWired(m, r)
  {
    || |Target(r, forward).put| == |Target(s, forward).put| + 1
    || (Target(r, forward).put == Target(s, forward).put && Poised(m, r, forward)
        && Left(m, r, forward) < Left(m, s, forward))
  }

  lemma AheadAsks(m: int, s: Wired, forward: bool)
    requires 1 <= m <= 254 && ValidWired(m, s) && Poised(m, s, forward) && s.link.forward == forward && s.link.step <= 2
    requires ValidWired(m, WiredStep(m, s, Mover))
    ensures MovesOn(m, s, WiredStep(m, s, Mover), forward)
  {
    FullCount(Source(s, forward).bank, TX, m);
  }

  lemma AheadTests(m: int, s: Wired, forward: bool)
    requires 1 <= m <= 254 && ValidWired(m, s) && Poised(m, s, forward) && s.link.forward == forward
    requires 3 <= s.link.step <= 6 && ValidWired(m, WiredStep(m, s, Mover))
    ensures MovesOn(m, s, WiredStep(m, s, Mover), forward)
  {
    NextIsMod(Target(s, forward).bank[255], m);
  }

  lemma AheadMoves(m: int, s: Wired, forward: bool)
    requires 1 <= m <= 254 && ValidWired(m, s) && Poised(m, s, forward) && s.link.forward == forward && s.link.step >= 7
    requires ValidWired(m, WiredStep(m, s, Mover))
    ensures MovesOn(m, s, WiredStep(m, s, Mover), forward)
  {
  }

  lemma MoverAhead(m: int, s: Wired, forward: bool)
    requires 1 <= m <= 254 && ValidWired(m, s) && Poised(m, s, forward) && s.link.forward == forward
    ensures ValidWired(m, WiredStep(m, s, Mover)) && MovesOn(m, s, WiredStep(m, s, Mover), forward)
  {
    WiredKeeps(m, s, Mover);
    if s.link.step <= 2 {
      AheadAsks(m, s, forward);
    } else if s.link.step <= 6 {
      AheadTests(m, s, forward);
    } else {
      AheadMoves(m, s, forward);
    }
  }

  /** What the link leaves alone while it serves the direction from `src` to `dst`. */
  predicate LeavesAlone(m: int, src: Side, dst: Side, r: (Side, Side, Link))
    requires ValidBank(src.bank, m) && ValidBank(dst.bank, m)
  {
    && ValidBank(r.0.bank, m) && ValidBank(r.1.bank, m)
    && Contents(r.1.bank, TX, m) == Contents(dst.bank, TX, m)
    && (Full(r.0.bank, RX, m) <==> Full(src.bank, RX, m)) && r.0.put == src.put
  }

  lemma CellsApart(m: int, b: Bank, k: int, v: int)
    requires 1 <= m <= 254 && ValidBank(b, m) && 0 <= k < 512
    ensures k < 256 ==> Contents(b[k := v], TX, m) == Contents(b, TX, m)
    ensures k >= 256 ==> ValidRing(b[k := v], RX, m) && (Full(b[k := v], RX, m) <==> Full(b, RX, m))
  {
    if k < 256 {
      OtherRing(b, TX, m, k, v);
    } else {
      OtherRing(b, RX, m, k, v);
    }
  }

  lemma LinkLeaves(m: int, src: Side, dst: Side, l: Link)
    requires 1 <= m <= 254 && ValidLink(m, src, dst, l)
    ensures LeavesAlone(m, src, dst, LinkStep(m, src, dst, l))
  {
    NextIsMod(src.bank[510], m);
    NextIsMod(dst.bank[255], m);
    if l.step == 7 {
      CellsApart(m, src.bank, 510, Next(src.bank[510], m));
    } else if l.step == 8 {
      CellsApart(m, dst.bank, dst.bank[255], l.byte);
    } else if l.step == 9 {
      CellsApart(m, dst.bank, 255, Next(dst.bank[255], m));
    }
  }

  /** The other half of the program does not touch this direction. */
  lemma MoverBehind(m: int, s: Wired, forward: bool)
    requires 1 <= m <= 254 && ValidWired(m, s) && Poised(m, s, forward) && s.link.forward != forward
    ensures ValidWired(m, WiredStep(m, s, Mover)) && MovesOn(m, s, WiredStep(m, s, Mover), forward)
  {
    WiredKeeps(m, s, Mover);
    LinkLeaves(m, Target(s, forward), Source(s, forward), s.link);
  }

  /** A CPU only adds to what can be moved and makes room for it. */
  lemma CpuWaits(m: int, s: Wired, t: Choice, forward: bool)
    requires 1 <= m <= 254 && ValidWired(m, s) && Poised(m, s, forward) && !t.Mover?
    ensures var r := WiredStep(m, s, t);
            && ValidWired(m, r) && Poised(m, r, forward) && Target(r, forward).put == Target(s, forward).put
            && Left(m, r, forward) == Left(m, s, forward)
  {
    WiredKeeps(m, s, t);
    match t
    case CpuA(task) =>
      CpuKeeps(m, s.a, task);
      FullCount(s.a.bank, RX, m);
      FullCount(CpuStep(m, s.a, task).bank, RX, m);
    case CpuB(task) =>
      CpuKeeps(m, s.b, task);
      FullCount(s.b.bank, RX, m);
      FullCount(CpuStep(m, s.b, task).bank, RX, m);
  }

  lemma PutGrows(m: int, s: Wired, t: Choice, forward: bool)
    requires 1 <= m <= 254 && ValidWired(m, s)
    ensures |Target(WiredStep(m, s, t), forward).put| >= |Target(s, forward).put|
  {
    match t
    case CpuA(task) => CpuKeeps(m, s.a, task);
    case CpuB(task) => CpuKeeps(m, s.b, task);
    case Mover =>
  }

  lemma {:induction false} StaysValid(m: int, s: Wired, schedule: seq<Choice>)
    requires 1 <= m <= 254 && ValidWired(m, s)
    ensures ValidWired(m, WiredRun(m, s, schedule))
    decreases |schedule|
  {
    if schedule != [] {
      StaysValid(m, s, schedule[..|schedule| - 1]);
      WiredKeeps(m, WiredRun(m, s, schedule[..|schedule| - 1]), schedule[|schedule| - 1]);
    }
  }

  /** After a schedule, the byte has been moved, or the link has fewer steps to go. */
  lemma {:induction false} Approaches(m: int, s: Wired, forward: bool, schedule: seq<Choice>)
    requires 1 <= m <= 254 && ValidWired(m, s) && Poised(m, s, forward)
    ensures var r := WiredRun(m, s, schedule);
            && ValidWired(m, r)
            && (|Target(r, forward).put| > |Target(s, forward).put|
                || (|Target(r, forward).put| == |Target(s, forward).put| && Poised(m, r, forward)
                    && Left(m, r, forward) + Movers(schedule) <= Left(m, s, forward)))
    decreases |schedule|
  {
    if schedule != [] {
      var n := |schedule| - 1;
      Approaches(m, s, forward, schedule[..n]);
      ApproachesNext(m, WiredRun(m, s, schedule[..n]), forward, schedule[n]);
    }
  }

  lemma ApproachesNext(m: int, s: Wired, forward: bool, t: Choice)
    requires 1 <= m <= 254 && ValidWired(m, s)
    ensures var r := WiredStep(m, s, t);
            && ValidWired(m, r) && |Target(r, forward).put| >= |Target(s, forward).put|
            && (Poised(m, s, forward) ==>
                  || |Target(r, forward).put| > |Target(s, forward).put|
                  || (Poised(m, r, forward)
                      && Left(m, r, forward) + (if t.Mover? then 1 else 0) <= Left(m, s, forward)))
  {
    WiredKeeps(m, s, t);
    PutGrows(m, s, t, forward);
    if Poised(m, s, forward) {
      if !t.Mover? {
        CpuWaits(m, s, t, forward);
      } else if s.link.forward == forward {
        MoverAhead(m, s, forward);
      } else {
        MoverBehind(m, s, forward);
      }
    }
  }

  // --- the byte that arrives --------------------------------------------------

  function Carried(s: Wired, forward: bool): seq<int> { if s.link.forward == forward then InFlight(s.link) else [] }

  lemma PutPrefix(m: int, s: Wired, forward: bool)
    requires 1 <= m <= 254 && ValidWired(m, s)
    ensures Source(s, forward).sent == Target(s, forward).put + (Carried(s, forward) + Tx(m, Source(s, forward)))
  {
  }

  lemma SentGrows(m: int, s: Wired, t: Choice, forward: bool)
    requires 1 <= m <= 254 && ValidWired(m, s)
    ensures StartsWith(Source(WiredStep(m, s, t), forward).sent, Source(s, forward).sent)
  {
  }

  lemma PrefixTrans(a: seq<int>, b: seq<int>, c: seq<int>)
    requires StartsWith(b, a) && StartsWith(c, b)
    ensures StartsWith(c, a)
  {
    assert b[..|a|] == c[..|a|];
  }

  lemma {:induction false} SentOverRun(m: int, s: Wired, forward: bool, schedule: seq<Choice>)
    requires 1 <= m <= 254 && ValidWired(m, s)
    ensures StartsWith(Source(WiredRun(m, s, schedule), forward).sent, Source(s, forward).sent)
    decreases |schedule|
  {
    if schedule != [] {
      var n := |schedule| - 1;
      var q := WiredRun(m, s, schedule[..n]);
      StaysValid(m, s, schedule[..n]);
      SentOverRun(m, s, forward, schedule[..n]);
      SentGrows(m, q, schedule[n], forward);
      PrefixTrans(Source(s, forward).sent, Source(q, forward).sent,
                  Source(WiredRun(m, s, schedule), forward).sent);
    }
  }

  lemma SameElement(a: seq<int>, b: seq<int>, x: seq<int>, y: seq<int>, k: nat)
    requires StartsWith(b + y, a + x) && |a| <= k < |b| && k < |a| + |x|
    ensures b[k] == x[k - |a|]
  {
    assert (b + y)[k] == (a + x)[k];
  }

  /** Once the link has made 22 steps, in whatever order with those of the two computers, each direction in which a byte
      could be moved has moved one: the oldest. */
  lemma LinkMoves(m: int, s: Wired, forward: bool, schedule: seq<Choice>)
    requires 1 <= m <= 254 && ValidWired(m, s) && CanMove(m, s, forward) && Movers(schedule) >= 22
    ensures var before, after := Target(s, forward).put, Target(WiredRun(m, s, schedule), forward).put;
            && |after| > |before|
            && after[|before|] == (Carried(s, forward) + Tx(m, Source(s, forward)))[0]
  {
    var r := WiredRun(m, s, schedule);
    Approaches(m, s, forward, schedule);
    LeftBounds(m, s, forward);
    if Poised(m, r, forward) {
      LeftBounds(m, r, forward);
    }
    PutPrefix(m, s, forward);
    PutPrefix(m, r, forward);
    SentOverRun(m, s, forward, schedule);
    SameElement(Target(s, forward).put, Target(r, forward).put, Carried(s, forward) + Tx(m, Source(s, forward)),
                Carried(r, forward) + Tx(m, Source(r, forward)), |Target(s, forward).put|);
  }

  // --- the drivers ------------------------------------------------------------

  /** A driver's turns with a schedule. */
  predicate IsTurn(t: Choice, first: bool) { if first then t.CpuA? else t.CpuB? }

  function Turns(schedule: seq<Choice>, first: bool): nat {
    if schedule == [] then 0
    else Turns(schedule[..|schedule| - 1], first) + if IsTurn(schedule[|schedule| - 1], first) then 1 else 0
  }

  /** Whenever it is idle it begins this task. */
  predicate Keeps(schedule: seq<Choice>, first: bool, task: Task) {
    forall i :: 0 <= i < |schedule| && IsTurn(schedule[i], first) ==> schedule[i].task == task
  }

  /** The task can be done: there is room to send, or a byte to receive. */
  predicate CanDo(m: int, s: Side, task: Task)
    requires ValidBank(s.bank, m)
  {
    if task.Send? then !Full(s.bank, TX, m) else Rx(m, s) != []
  }

  /** The driver is on the way to do the task; what it has read so far lets it go on. */
  predicate Driving(m: int, s: Side, task: Task) {
    && ValidSide(m, s) && CanDo(m, s, task)
    && (s.cpu.pc.Idle? || s.cpu.task == task)
    && (s.cpu.pc.Status? && s.cpu.pc.k >= 3 && task.Send? ==> s.cpu.regs[2] != Next(s.bank[511], m))
    && (s.cpu.pc.Status? && s.cpu.pc.k >= 2 && task.Receive? ==> s.cpu.regs[0] != s.cpu.regs[1])
  }

  function ToDo(pc: Pc): int {
    match pc
    case Idle => 13
    case Status(k) => 12 - k
    case Access(k) => 7 - k
    case Cell => 2
    case Pointer => 1
  }

  /** The driver has sent its byte, or got the oldest one. */
  predicate Done(m: int, s: Side, r: Side, task: Task)
    requires ValidBank(s.bank, m)
  {
    if task.Send? then r.sent == s.sent + [task.byte] else Rx(m, s) != [] && r.got == s.got + [Rx(m, s)[0]]
  }

  lemma DriverReads(m: int, s: Side, task: Task)
    requires 1 <= m <= 254 && Driving(m, s, task) && (s.cpu.pc.Idle? || s.cpu.pc.Status?)
    requires CpuOk(m, s, CpuStep(m, s, task))
    ensures var r := CpuStep(m, s, task);
            Driving(m, r, task) && ToDo(r.cpu.pc) < ToDo(s.cpu.pc) && r.sent == s.sent && r.got == s.got
            && r.bank == s.bank
  {
    FullCount(s.bank, RX, m);
    NextIsMod(s.bank[511], m);
  }

  lemma DriverAccesses(m: int, s: Side, task: Task)
    requires 1 <= m <= 254 && Driving(m, s, task) && (s.cpu.pc.Access? || s.cpu.pc.Cell?)
    requires CpuOk(m, s, CpuStep(m, s, task))
    ensures var r := CpuStep(m, s, task);
            Driving(m, r, task) && ToDo(r.cpu.pc) < ToDo(s.cpu.pc) && r.sent == s.sent && r.got == s.got
            && Rx(m, r) == Rx(m, s)
  {
    if s.cpu.pc.Cell? && task.Send? {
      WriteData(s.bank, TX, m, task.byte);
      OtherRing(s.bank, RX, m, 256 + s.bank[511], task.byte);
    }
  }

  /** A turn brings the driver closer, or ends its task. */
  lemma DriverTurn(m: int, s: Side, task: Task)
    requires 1 <= m <= 254 && Driving(m, s, task)
    ensures var r := CpuStep(m, s, task);
            && ValidSide(m, r)
            && (Done(m, s, r, task)
                || (Driving(m, r, task) && ToDo(r.cpu.pc) < ToDo(s.cpu.pc) && r.sent == s.sent && r.got == s.got
                    && Rx(m, r) == Rx(m, s)))
  {
    CpuKeeps(m, s, task);
    if s.cpu.pc.Idle? || s.cpu.pc.Status? {
      DriverReads(m, s, task);
    } else if s.cpu.pc.Access? || s.cpu.pc.Cell? {
      DriverAccesses(m, s, task);
    }
  }

  /** The far end has done something to the bank of `s`. */
  predicate Peered(m: int, s: Side, r: Side)
    requires ValidBank(s.bank, m)
  {
    PeerMay(m, s.bank, r.bank) && r.cpu == s.cpu && r.sent == s.sent && r.got == s.got
  }

  lemma PeeredDriving(m: int, s: Side, r: Side, task: Task)
    requires 1 <= m <= 254 && Driving(m, s, task) && ValidSide(m, r) && Peered(m, s, r)
    ensures Driving(m, r, task) && (Rx(m, s) != [] ==> Rx(m, r) != [] && Rx(m, r)[0] == Rx(m, s)[0])
  {
    FullCount(s.bank, TX, m);
    FullCount(r.bank, TX, m);
  }

  lemma TakePeers(m: int, src: Side, dst: Side, l: Link)
    requires 1 <= m <= 254 && ValidLink(m, src, dst, l) && l.step == 7
    ensures Peered(m, src, LinkStep(m, src, dst, l).0) && LinkStep(m, src, dst, l).1 == dst
  {
    NextIsMod(src.bank[510], m);
    AdvanceRead(src.bank, TX, m);
    OtherRing(src.bank, RX, m, 510, Next(src.bank[510], m));
  }

  lemma WritePeers(m: int, src: Side, dst: Side, l: Link)
    requires 1 <= m <= 254 && ValidLink(m, src, dst, l) && l.step == 8
    ensures Peered(m, dst, LinkStep(m, src, dst, l).1) && LinkStep(m, src, dst, l).0 == src
  {
    WriteData(dst.bank, RX, m, l.byte);
    OtherRing(dst.bank, TX, m, dst.bank[255], l.byte);
  }

  lemma PublishPeers(m: int, src: Side, dst: Side, l: Link)
    requires 1 <= m <= 254 && ValidLink(m, src, dst, l) && l.step == 9
    ensures Peered(m, dst, LinkStep(m, src, dst, l).1) && LinkStep(m, src, dst, l).0 == src
  {
    PublishingStep(m, src, dst, l);
    PublishedByLink(m, dst.bank);
  }

  /** The link is the far end of both sides. */
  lemma LinkPeers(m: int, src: Side, dst: Side, l: Link)
    requires 1 <= m <= 254 && ValidLink(m, src, dst, l)
    ensures var r := LinkStep(m, src, dst, l);
            Peered(m, src, r.0) && Peered(m, dst, r.1)
  {
    if l.step == 7 {
      TakePeers(m, src, dst, l);
    } else if l.step == 8 {
      WritePeers(m, src, dst, l);
    } else if l.step == 9 {
      PublishPeers(m, src, dst, l);
    }
  }

  /** What the driver has done of this kind, and what comes next. */
  function Log(s: Side, task: Task): seq<int> { if task.Send? then s.sent else s.got }

  function Expected(m: int, s: Side, task: Task): int
    requires ValidBank(s.bank, m) && CanDo(m, s, task)
  {
    if task.Send? then task.byte else Rx(m, s)[0]
  }

  /** `x` has followed what was in the log. */
  predicate Followed(before: seq<int>, after: seq<int>, x: int) {
    StartsWith(after, before) && |after| > |before| && after[|before|] == x
  }

  /** One step of anyone, as the driver sees it: the task is done, or it is as close as before, or closer by its own
      turn. */
  predicate Closer(m: int, s: Side, r: Side, task: Task, turn: bool)
    requires ValidBank(s.bank, m) && CanDo(m, s, task)
  {
    || Followed(Log(s, task), Log(r, task), Expected(m, s, task))
    || (Driving(m, r, task) && Log(r, task) == Log(s, task) && Expected(m, r, task) == Expected(m, s, task)
        && ToDo(r.cpu.pc) + (if turn then 1 else 0) <= ToDo(s.cpu.pc))
  }

  lemma DriverStep(m: int, s: Wired, t: Choice, first: bool, task: Task)
    requires 1 <= m <= 254 && ValidWired(m, s) && Driving(m, Source(s, first), task)
    requires IsTurn(t, first) ==> t.task == task
    ensures Closer(m, Source(s, first), Source(WiredStep(m, s, t), first), task, IsTurn(t, first))
  {
    var mine, r := Source(s, first), Source(WiredStep(m, s, t), first);
    WiredKeeps(m, s, t);
    if IsTurn(t, first) {
      DriverTurn(m, mine, task);
    } else if t.Mover? {
      if s.link.forward {
        LinkPeers(m, s.a, s.b, s.link);
      } else {
        LinkPeers(m, s.b, s.a, s.link);
      }
      PeeredDriving(m, mine, r, task);
    }
  }

  lemma LogGrows(m: int, s: Wired, t: Choice, first: bool, task: Task)
    requires m > 0
    ensures StartsWith(Log(Source(WiredStep(m, s, t), first), task), Log(Source(s, first), task))
  {
  }

  lemma FollowedOn(a: seq<int>, b: seq<int>, c: seq<int>, x: int)
    requires Followed(a, b, x) && StartsWith(c, b)
    ensures Followed(a, c, x)
  {
    PrefixTrans(a, b, c);
  }

  /** After a schedule the task is done, or fewer turns are left. */
  lemma {:induction false} DriverApproaches(m: int, s: Wired, first: bool, task: Task, schedule: seq<Choice>)
    requires 1 <= m <= 254 && ValidWired(m, s) && Driving(m, Source(s, first), task) && Keeps(schedule, first, task)
    ensures var mine, r := Source(s, first), Source(WiredRun(m, s, schedule), first);
            || Followed(Log(mine, task), Log(r, task), Expected(m, mine, task))
            || (Driving(m, r, task) && Log(r, task) == Log(mine, task)
                && Expected(m, r, task) == Expected(m, mine, task)
                && ToDo(r.cpu.pc) + Turns(schedule, first) <= ToDo(mine.cpu.pc))
    decreases |schedule|
  {
    if schedule != [] {
      var n := |schedule| - 1;
      var q := WiredRun(m, s, schedule[..n]);
      assert Keeps(schedule[..n], first, task);
      DriverApproaches(m, s, first, task, schedule[..n]);
      StaysValid(m, s, schedule[..n]);
      LogGrows(m, q, schedule[n], first, task);
      var mine, x := Source(s, first), Expected(m, Source(s, first), task);
      if Followed(Log(mine, task), Log(Source(q, first), task), x) {
        FollowedOn(Log(mine, task), Log(Source(q, first), task), Log(Source(WiredRun(m, s, schedule), first), task), x);
      } else {
        DriverStep(m, q, schedule[n], first, task);
      }
    }
  }

  lemma ToDoBounds(pc: Pc, m: int, s: Side)
    requires ValidSideAt(m, s, pc)
    ensures 1 <= ToDo(pc) <= 13
  {
  }

  predicate ValidSideAt(m: int, s: Side, pc: Pc) { ValidSide(m, s) && s.cpu.pc == pc }

  /** A driver that begins to send while its ring has room, or to receive while there is a byte, has done so after 13
      turns of its own, in whatever order with all others. */
  lemma DriverWorks(m: int, s: Wired, first: bool, task: Task, schedule: seq<Choice>)
    requires 1 <= m <= 254 && ValidWired(m, s) && Source(s, first).cpu.pc.Idle? && CanDo(m, Source(s, first), task)
    requires Keeps(schedule, first, task) && Turns(schedule, first) >= 13
    ensures Followed(Log(Source(s, first), task), Log(Source(WiredRun(m, s, schedule), first), task),
                     Expected(m, Source(s, first), task))
  {
    DriverApproaches(m, s, first, task, schedule);
    var r := Source(WiredRun(m, s, schedule), first);
    if Driving(m, r, task) {
      ToDoBounds(r.cpu.pc, m, r);
    }
  }

  /** The host takes the oldest byte that waits, and puts one down where there is room. */
  lemma HostMoves(m: int, s: Side, byte: int)
    requires 1 <= m <= 254 && ValidSide(m, s)
    ensures Tx(m, s) != [] ==> HostRead(m, s).taken == s.taken + [Tx(m, s)[0]]
    ensures Tx(m, s) == [] ==> HostRead(m, s) == s
    ensures !Full(s.bank, RX, m) ==> HostWrite(m, s, byte).put == s.put + [byte]
    ensures Full(s.bank, RX, m) ==> HostWrite(m, s, byte) == s
  {
    FullCount(s.bank, TX, m);
    NextIsMod(s.bank[255], m);
  }
}
