/**
  Many workers, one hart.

  Each worker is a processor with its own variables.  A worker that gets its turn
  copies the saved variables of the previous worker, parks it, and goes on where
  it stopped.  The reference is one processor that runs the same code.  The two
  are indistinguishable for every schedule exactly if no statement of the body
  mentions a name that is local to a worker; what the saved-variable check
  accepts is almost that.
 */
module Handoff {
  import opened Options
  import opened Mlog
  import opened SavedVariables

  // --- programs ---------------------------------------------------------------

  /** A worker program: its syntax, the node of next_tick, the node of poll_interrupts where the body begins, and the
      address of next_tick. */
  datatype Program = Program(ast: Ast, tickAt: int, bodyAt: int, nextTick: int)

  function Code(p: Program): seq<Node> { Statements(p.ast) }

  /** The address of poll_interrupts. */
  function Body(p: Program): int
    requires 0 <= p.bodyAt <= |p.ast|
  {
    Address(p.ast[..p.bodyAt])
  }

  /** The address of next_tick. */
  function TickAddress(p: Program): int
    requires 0 <= p.tickAt <= |p.ast|
  {
    Address(p.ast[..p.tickAt])
  }

  /** The variables that a takeover copies. */
  function Fetched(ast: Ast): set<string> {
    set i | 0 <= i < |ast| && Restores(ast, i) :: ast[i].args[0].text
  }

  predicate IsLocal(ast: Ast, i: int)
    requires 0 <= i < |ast|
  {
    TargetOf(ast[i]).Some? && TargetOf(ast[i]).value !in Fetched(ast) + {"@counter"}
  }

  /** Names that are written from next_tick on but not handed over: they differ from worker to worker. */
  function Locals(p: Program): set<string>
    requires 0 <= p.tickAt <= |p.ast|
  {
    set i | p.tickAt <= i < |p.ast| && IsLocal(p.ast, i) :: TargetOf(p.ast[i]).value
  }

  /** The names that the takeover itself uses. */
  function Scratch(): set<string> { {"prev_proc", "__mcycleh", "__counter"} }

  ghost predicate ValidProgram(p: Program) {
    && 0 <= p.tickAt <= p.bodyAt <= |p.ast|
    && p.nextTick == TickAddress(p) < Body(p) < |Code(p)|
    && "state" in Fetched(p.ast) && "csr_mcycle" in Fetched(p.ast)
    && Scratch() <= Locals(p) && "@counter" !in Fetched(p.ast)
  }

  predicate InBody(p: Program, counter: int)
    requires 0 <= p.bodyAt <= |p.ast|
  {
    Body(p) <= counter < |Code(p)|
  }

  /** No statement of the body mentions a local name. */
  ghost predicate Clean(p: Program)
    requires ValidProgram(p)
  {
    forall c :: InBody(p, c) ==> Texts(Code(p)[c].args) !! Locals(p)
  }

  // --- execution --------------------------------------------------------------

  type Store = map<string, int>

  /** Variables start out null, which reads as zero. */
  function Lookup(s: Store, v: string): int { if v in s then s[v] else 0 }

  /** Everything outside the workers: registers, CSRs, memory. */
  type World = map<int, int>

  datatype Effect = Effect(value: int, next: int, world: World)

  /** What a statement does, given its address and the values of the names it mentions. */
  type Semantics = (int, Store, World) -> Effect

  /** The body jumps within itself, or to reset, which is the first statement. */
  ghost predicate ValidSemantics(p: Program, sem: Semantics)
    requires ValidProgram(p)
  {
    forall c, values, world :: InBody(p, sem(c, values, world).next) || sem(c, values, world).next == 0
  }

  datatype Machine = Machine(store: Store, counter: int, world: World)

  function Mentioned(node: Node, s: Store): Store
    requires node.Statement?
  {
    map v | v in Texts(node.args) :: Lookup(s, v)
  }

  function Assign(node: Node, s: Store, value: int): Store {
    match TargetOf(node)
    case None => s
    case Some(v) => if v == "@counter" then s else s[v := value]
  }

  /** One statement.  A processor that jumps to reset reads its configuration again and comes to next_tick. */
  function Exec(p: Program, sem: Semantics, m: Machine): Machine
    requires ValidProgram(p) && InBody(p, m.counter)
  {
    var node := Code(p)[m.counter];
    var e := sem(m.counter, Mentioned(node, m.store), m.world);
    Machine(Assign(node, m.store, e.value), if InBody(p, e.next) then e.next else p.nextTick, e.world)
  }

  function Without(s: Store, names: set<string>): Store { map v | v in s && v !in names :: s[v] }

  /** The reference has no local names. */
  function RefExec(p: Program, sem: Semantics, m: Machine): Machine
    requires ValidProgram(p) && InBody(p, m.counter)
  {
    var m' := Exec(p, sem, m);
    m'.(store := Without(m'.store, Locals(p)))
  }

  /** In the body, or parked at next_tick. */
  predicate Placed(p: Program, m: Machine)
    requires 0 <= p.bodyAt <= |p.ast|
  {
    InBody(p, m.counter) || m.counter == p.nextTick
  }

  /** Some statements; a processor that leaves the body stays parked. */
  function ExecMany(p: Program, sem: Semantics, m: Machine, n: nat): (r: Machine)
    requires ValidProgram(p) && Placed(p, m)
    ensures Placed(p, r)
    decreases n
  {
    if n == 0 || !InBody(p, m.counter) then m else ExecMany(p, sem, Exec(p, sem, m), n - 1)
  }

  function RefMany(p: Program, sem: Semantics, m: Machine, n: nat): (r: Machine)
    requires ValidProgram(p) && Placed(p, m)
    ensures Placed(p, r)
    decreases n
  {
    if n == 0 || !InBody(p, m.counter) then m else RefMany(p, sem, RefExec(p, sem, m), n - 1)
  }

  /** The cell of the mcycleh CSR. */
  const MCYCLEH: int := 0xb80

  const RUNNING: int := 1

  function Cell(w: World, k: int): int { if k in w then w[k] else 0 }

  predicate Carries(m: Machine) { Lookup(m.store, "csr_mcycle") + 1 >= 0x1_0000_0000 }

  /** mcycle counts one more takeover, with a carry into mcycleh. */
  function Tick(m: Machine): Machine {
    if !Carries(m) then m.(store := m.store["csr_mcycle" := Lookup(m.store, "csr_mcycle") + 1])
    else m.(store := m.store["csr_mcycle" := 0], world := m.world[MCYCLEH := Cell(m.world, MCYCLEH) + 1])
  }

  /** The worker's statements, which compute the carry in a variable. */
  function WorkerTick(m: Machine): Machine {
    var count := Lookup(m.store, "csr_mcycle") + 1;
    if count < 0x1_0000_0000 then m.(store := m.store["csr_mcycle" := count])
    else
      var high := Cell(m.world, MCYCLEH) + 1;
      m.(store := m.store["csr_mcycle" := 0]["__mcycleh" := high], world := m.world[MCYCLEH := high])
  }

  lemma WorkerTickIs(m: Machine)
    ensures var t := Tick(m);
            WorkerTick(m) == if Carries(m) then t.(store := t.store["__mcycleh" := Cell(t.world, MCYCLEH)]) else t
  {
  }

  /** mcycle and mcycleh as one number. */
  function Cycles(m: Machine): int { Lookup(m.store, "csr_mcycle") + 0x1_0000_0000 * Cell(m.world, MCYCLEH) }

  /** A takeover counts one cycle and changes nothing else; mcycle stays a word. */
  lemma TickCounts(m: Machine)
    requires 0 <= Lookup(m.store, "csr_mcycle") < 0x1_0000_0000
    ensures var t := Tick(m);
            && Cycles(t) == Cycles(m) + 1 && 0 <= Lookup(t.store, "csr_mcycle") < 0x1_0000_0000
            && t.counter == m.counter
            && (forall v :: v != "csr_mcycle" ==> Lookup(t.store, v) == Lookup(m.store, v))
            && (forall k :: k != MCYCLEH ==> Cell(t.world, k) == Cell(m.world, k))
  {
  }

  // --- the workers ------------------------------------------------------------

  datatype Proc = Controller | Worker(i: int)

  datatype Hart = Hart(workers: seq<(Store, int)>, controller: Store, prev: Proc, world: World)

  predicate ValidHart(h: Hart) { h.prev.Worker? ==> 0 <= h.prev.i < |h.workers| }

  /** The variables of the previous worker. */
  function PrevStore(h: Hart): Store
    requires ValidHart(h)
  {
    match h.prev
    case Controller => h.controller
    case Worker(i) => h.workers[i].0
  }

  function Id(q: Proc): int { if q.Controller? then -1 else q.i }

  function Copy(into: Store, src: Store, names: set<string>): Store {
    map v | v in into.Keys + names :: if v in names then Lookup(src, v) else Lookup(into, v)
  }

  /** A worker's variables after the fetch. */
  function Copied(p: Program, h: Hart, w: int): Store
    requires ValidHart(h) && 0 <= w < |h.workers|
  {
    Copy(h.workers[w].0["prev_proc" := Id(h.prev)], PrevStore(h), Fetched(p.ast))
  }

  /** The turn of a parked worker: copy, and give up unless the hart is running; then park the previous worker and go
      on where it stopped. */
  function Takeover(p: Program, h: Hart, w: int): Hart
    requires ValidProgram(p) && ValidHart(h) && 0 <= w < |h.workers|
  {
    var store := Copied(p, h, w);
    if Lookup(store, "state") != RUNNING then h.(workers := h.workers[w := (store, p.nextTick)])
    else
      var ticked := WorkerTick(Machine(store, p.nextTick, h.world));
      match h.prev
      case Controller =>
        h.(workers := h.workers[w := (ticked.store, Body(p))], prev := Worker(w), world := ticked.world)
      case Worker(i) =>
        var counter := h.workers[i].1;
        var parked := h.workers[i := (h.workers[i].0, p.nextTick)];
        h.(workers := parked[w := (ticked.store["__counter" := counter], counter)], prev := Worker(w),
           world := ticked.world)
  }

  /** A worker runs for `n` statements. */
  function RunWorker(p: Program, sem: Semantics, h: Hart, w: int, n: nat): Hart
    requires ValidProgram(p) && 0 <= w < |h.workers| && InBody(p, h.workers[w].1)
  {
    var m := ExecMany(p, sem, Machine(h.workers[w].0, h.workers[w].1, h.world), n);
    h.(workers := h.workers[w := (m.store, m.counter)], world := m.world)
  }

  /** A worker's turn of a tick, with its budget; the controller writing to the variables of the previous worker; or
      the controller sending the active worker to reset and offering its own variables. */
  datatype Event = Turn(w: int, n: nat) | Poke(values: Store) | Restart(values: Store)

  predicate Parked(p: Program, h: Hart, w: int)
    requires 0 <= w < |h.workers|
  {
    h.workers[w].1 == p.nextTick
  }

  predicate Running(p: Program, h: Hart)
    requires ValidHart(h)
  {
    Lookup(PrevStore(h), "state") == RUNNING
  }

  function Update(s: Store, values: Store): Store {
    map v | v in s.Keys + values.Keys :: if v in values then values[v] else s[v]
  }

  function Step(p: Program, sem: Semantics, h: Hart, e: Event): (h': Hart)
    requires ValidProgram(p) && ValidHart(h)
    ensures ValidHart(h') && |h'.workers| == |h.workers|
  {
    match e
    case Poke(values) =>
      (match h.prev
       case Controller => h.(controller := Update(h.controller, values))
       case Worker(i) => h.(workers := h.workers[i := (Update(h.workers[i].0, values), h.workers[i].1)]))
    case Restart(values) =>
      (match h.prev
       case Controller => h.(controller := values)
       case Worker(i) => Hart(h.workers[i := (h.workers[i].0, p.nextTick)], values, Controller, h.world))
    case Turn(w, n) =>
      if !(0 <= w < |h.workers|) then h
      else
        var h' := if Parked(p, h, w) then Takeover(p, h, w) else h;
        if InBody(p, h'.workers[w].1) then RunWorker(p, sem, h', w, n) else h'
  }

  // --- the reference ----------------------------------------------------------

  /** One processor, and whose turn it last was. */
  datatype Ref = Ref(machine: Machine, owner: Option<int>)

  /** The same event for one processor: the turn of another worker only counts a cycle, while the hart is running. */
  function RefStep(p: Program, sem: Semantics, count: int, r: Ref, e: Event): (r': Ref)
    requires ValidProgram(p) && Placed(p, r.machine)
    ensures Placed(p, r'.machine)
  {
    var m := r.machine;
    match e
    case Poke(values) => r.(machine := m.(store := Update(m.store, values)))
    case Restart(values) => Ref(Machine(Copy(m.store, values, Fetched(p.ast)), Body(p), m.world), None)
    case Turn(w, n) =>
      if !(0 <= w < count) || !InBody(p, m.counter) then r
      else if r.owner == Some(w) then r.(machine := RefMany(p, sem, m, n))
      else if Lookup(m.store, "state") == RUNNING then Ref(RefMany(p, sem, Tick(m), n), Some(w))
      else r
  }

  /** A hart that has jumped to reset is not running: the body sets its state first. */
  predicate Resting(p: Program, m: Machine)
    requires 0 <= p.bodyAt <= |p.ast|
  {
    InBody(p, m.counter) || Lookup(m.store, "state") != RUNNING
  }

  /** The controller writes only variables that are handed over. */
  predicate ValidEvent(p: Program, e: Event) { e.Poke? || e.Restart? ==> e.values.Keys <= Fetched(p.ast) }

  /** Same address, same world, same variables apart from local ones. */
  ghost predicate Same(p: Program, a: Machine, b: Machine)
    requires ValidProgram(p)
  {
    && a.counter == b.counter && a.world == b.world
    && forall v :: v !in Locals(p) ==> Lookup(a.store, v) == Lookup(b.store, v)
  }

  /** Names that nobody writes from next_tick on. */
  predicate IsConstant(p: Program, v: string)
    requires 0 <= p.tickAt <= |p.ast|
  {
    v !in Fetched(p.ast) && v !in Locals(p)
  }

  ghost predicate SameConstants(p: Program, a: Store, b: Store)
    requires ValidProgram(p)
  {
    forall v :: IsConstant(p, v) ==> Lookup(a, v) == Lookup(b, v)
  }

  /** Exactly one worker is not parked, and it is prev_proc; before the first takeover there is none. */
  ghost predicate OneActive(p: Program, h: Hart) {
    && ValidHart(h)
    && forall w :: 0 <= w < |h.workers| ==> (h.workers[w].1 != p.nextTick <==> h.prev == Worker(w))
  }

  function ProcOf(owner: Option<int>): Proc {
    match owner
    case None => Controller
    case Some(i) => Worker(i)
  }

  /** Where the hart goes on. */
  function Resume(p: Program, h: Hart): int
    requires ValidProgram(p) && ValidHart(h)
  {
    match h.prev
    case Controller => Body(p)
    case Worker(i) => h.workers[i].1
  }

  ghost predicate AllParked(p: Program, h: Hart) { forall w :: 0 <= w < |h.workers| ==> Parked(p, h, w) }

  /** Same world, constants and handed-over variables. */
  ghost predicate Agrees(p: Program, h: Hart, m: Machine)
    requires ValidProgram(p)
  {
    && ValidHart(h) && h.world == m.world
    && (forall w :: 0 <= w < |h.workers| ==> SameConstants(p, h.workers[w].0, m.store))
    && (forall v :: v in Fetched(p.ast) ==> Lookup(PrevStore(h), v) == Lookup(m.store, v))
  }

  /** The active worker is the reference machine; and if that has left the body, no worker is active. */
  ghost predicate Refines(p: Program, h: Hart, r: Ref)
    requires ValidProgram(p)
  {
    && Agrees(p, h, r.machine)
    && (if InBody(p, r.machine.counter)
        then OneActive(p, h) && h.prev == ProcOf(r.owner) && r.machine.counter == Resume(p, h)
        else AllParked(p, h) && r.machine.counter == p.nextTick)
  }

  // --- one statement ----------------------------------------------------------

  lemma {:induction false} StatementsAreNodes(ast: Ast, c: int)
    requires 0 <= c < |Statements(ast)|
    ensures exists i :: 0 <= i < |ast| && ast[i] == Statements(ast)[c]
    decreases |ast|
  {
    var n := |ast| - 1;
    if c < |Statements(ast[..n])| {
      StatementsAreNodes(ast[..n], c);
      var i :| 0 <= i < n && ast[..n][i] == Statements(ast[..n])[c];
      assert ast[i] == Statements(ast)[c];
    } else {
      assert ast[n] == Statements(ast)[c];
    }
  }

  lemma BodyNode(p: Program, c: int) returns (i: int)
    requires ValidProgram(p) && InBody(p, c)
    ensures p.bodyAt <= i < |p.ast| && p.ast[i] == Code(p)[c]
  {
    AddressBegins(p.ast, p.bodyAt);
    var rest := p.ast[p.bodyAt..];
    var d := c - Body(p);
    assert Code(p)[c] == Code(p)[Body(p)..][d];
    StatementsAreNodes(rest, d);
    var k :| 0 <= k < |rest| && rest[k] == Statements(rest)[d];
    i := p.bodyAt + k;
  }

  /** The body writes saved variables and local names, never constants. */
  lemma NoConstantWritten(p: Program, c: int, v: string)
    requires ValidProgram(p) && InBody(p, c) && TargetOf(Code(p)[c]) == Some(v) && v != "@counter"
    ensures !IsConstant(p, v)
  {
    var i := BodyNode(p, c);
    assert TargetOf(p.ast[i]) == Some(v);
  }

  lemma SameMentioned(p: Program, a: Machine, b: Machine)
    requires ValidProgram(p) && Clean(p) && Same(p, a, b) && InBody(p, a.counter)
    ensures Mentioned(Code(p)[a.counter], a.store) == Mentioned(Code(p)[a.counter], b.store)
  {
    var node := Code(p)[a.counter];
    assert Texts(node.args) !! Locals(p);
    forall v | v in Texts(node.args) ensures Lookup(a.store, v) == Lookup(b.store, v) {
      assert v !in Locals(p);
    }
  }

  lemma AssignLookup(node: Node, s: Store, value: int, v: string)
    ensures Lookup(Assign(node, s, value), v)
         == if TargetOf(node) == Some(v) && v != "@counter" then value else Lookup(s, v)
  {
  }

  lemma WithoutLookup(s: Store, names: set<string>, v: string)
    ensures Lookup(Without(s, names), v) == if v in names then 0 else Lookup(s, v)
  {
  }

  lemma ExecSame(p: Program, sem: Semantics, a: Machine, b: Machine)
    requires ValidProgram(p) && Clean(p) && Same(p, a, b) && InBody(p, a.counter)
    ensures Same(p, Exec(p, sem, a), RefExec(p, sem, b))
  {
    SameMentioned(p, a, b);
    var node := Code(p)[a.counter];
    var e := sem(a.counter, Mentioned(node, a.store), a.world);
    forall v | v !in Locals(p) ensures Lookup(Exec(p, sem, a).store, v) == Lookup(RefExec(p, sem, b).store, v) {
      AssignLookup(node, a.store, e.value, v);
      AssignLookup(node, b.store, e.value, v);
      WithoutLookup(Exec(p, sem, b).store, Locals(p), v);
    }
  }

  lemma RefKeepsConstants(p: Program, sem: Semantics, m: Machine)
    requires ValidProgram(p) && InBody(p, m.counter)
    ensures SameConstants(p, m.store, RefExec(p, sem, m).store)
  {
    var node := Code(p)[m.counter];
    var e := sem(m.counter, Mentioned(node, m.store), m.world);
    forall v | IsConstant(p, v) ensures Lookup(m.store, v) == Lookup(RefExec(p, sem, m).store, v) {
      AssignLookup(node, m.store, e.value, v);
      WithoutLookup(Exec(p, sem, m).store, Locals(p), v);
      if TargetOf(node) == Some(v) && v != "@counter" {
        NoConstantWritten(p, m.counter, v);
      }
    }
  }

  lemma {:induction false} ManySame(p: Program, sem: Semantics, a: Machine, b: Machine, n: nat)
    requires ValidProgram(p) && Clean(p) && Same(p, a, b) && Placed(p, a)
    ensures Same(p, ExecMany(p, sem, a, n), RefMany(p, sem, b, n))
    ensures SameConstants(p, b.store, RefMany(p, sem, b, n).store)
    decreases n
  {
    if n > 0 && InBody(p, a.counter) {
      ExecSame(p, sem, a, b);
      RefKeepsConstants(p, sem, b);
      ManySame(p, sem, Exec(p, sem, a), RefExec(p, sem, b), n - 1);
    }
  }

  // --- the takeover -----------------------------------------------------------

  lemma CopyLookup(into: Store, src: Store, names: set<string>, v: string)
    ensures Lookup(Copy(into, src, names), v) == if v in names then Lookup(src, v) else Lookup(into, v)
  {
  }

  /** After the copy a worker has the saved variables of the previous one, and its own constants. */
  lemma CopySame(p: Program, h: Hart, m: Machine, w: int)
    requires ValidProgram(p) && Agrees(p, h, m) && 0 <= w < |h.workers|
    ensures Same(p, Machine(Copied(p, h, w), m.counter, m.world), m)
    ensures Running(p, h) <==> Lookup(Copied(p, h, w), "state") == RUNNING
  {
    var own := h.workers[w].0["prev_proc" := Id(h.prev)];
    CopyLookup(own, PrevStore(h), Fetched(p.ast), "state");
    forall v | v !in Locals(p) ensures Lookup(Copy(own, PrevStore(h), Fetched(p.ast)), v) == Lookup(m.store, v) {
      CopyLookup(own, PrevStore(h), Fetched(p.ast), v);
      assert v != "prev_proc";
      if v !in Fetched(p.ast) {
        assert IsConstant(p, v) && SameConstants(p, h.workers[w].0, m.store);
      }
    }
  }

  lemma TickSame(p: Program, a: Machine, b: Machine)
    requires ValidProgram(p) && Same(p, a, b)
    ensures Same(p, Tick(a), Tick(b)) && SameConstants(p, b.store, Tick(b).store) && (Carries(a) <==> Carries(b))
  {
    assert "csr_mcycle" !in Locals(p);
    assert Lookup(a.store, "csr_mcycle") == Lookup(b.store, "csr_mcycle");
  }

  /** Writing a scratch name does not matter. */
  lemma ScratchSame(p: Program, a: Machine, b: Machine, v: string, x: int)
    requires ValidProgram(p) && Same(p, a, b) && v in Scratch()
    ensures Same(p, a.(store := a.store[v := x]), b)
  {
  }

  lemma SameTrans(p: Program, a: Store, b: Store, c: Store)
    requires ValidProgram(p) && SameConstants(p, a, b) && SameConstants(p, b, c)
    ensures SameConstants(p, a, c)
  {
  }

  /** One worker changes its variables and its counter, and is the previous one from now on; all others are parked. */
  lemma Activate(p: Program, h: Hart, m: Machine, w: int, a: Machine, m': Machine, h': Hart)
    requires ValidProgram(p) && Agrees(p, h, m) && 0 <= w < |h.workers|
    requires Same(p, a, m') && SameConstants(p, m.store, m'.store) && Placed(p, a)
    requires h'.prev == Worker(w) && h'.world == a.world && |h'.workers| == |h.workers|
    requires h'.workers[w] == (a.store, a.counter)
    requires forall k :: 0 <= k < |h.workers| && k != w ==> h'.workers[k] == (h.workers[k].0, p.nextTick)
    ensures Refines(p, h', Ref(m', Some(w)))
  {
    forall k | 0 <= k < |h.workers| ensures SameConstants(p, h'.workers[k].0, m'.store) {
      if k != w {
        SameTrans(p, h.workers[k].0, m.store, m'.store);
      }
    }
  }

  /** The machine of a worker that takes over. */
  function Resumed(p: Program, h: Hart, w: int): Machine
    requires ValidProgram(p) && ValidHart(h) && 0 <= w < |h.workers|
  {
    var h' := Takeover(p, h, w);
    Machine(h'.workers[w].0, h'.workers[w].1, h'.world)
  }

  /** The store and counter of a worker that has taken over. */
  lemma ResumedIs(p: Program, h: Hart, w: int, a: Machine)
    requires ValidProgram(p) && ValidHart(h) && 0 <= w < |h.workers|
    requires a == Machine(Copied(p, h, w), Resume(p, h), h.world)
    requires Lookup(Copied(p, h, w), "state") == RUNNING
    ensures var t := WorkerTick(a);
            Resumed(p, h, w) == if h.prev.Worker? then t.(store := t.store["__counter" := a.counter]) else t
  {
    TickAnywhere(a.store, p.nextTick, a.counter, a.world);
  }

  lemma TickAnywhere(store: Store, c: int, d: int, world: World)
    ensures WorkerTick(Machine(store, c, world)).(counter := d) == WorkerTick(Machine(store, d, world))
  {
  }

  lemma TakeoverStore(p: Program, h: Hart, m: Machine, w: int)
    requires ValidProgram(p) && Agrees(p, h, m) && m.counter == Resume(p, h) && 0 <= w < |h.workers| && Running(p, h)
    ensures Same(p, Resumed(p, h, w), Tick(m))
  {
    CopySame(p, h, m, w);
    var a := Machine(Copied(p, h, w), m.counter, m.world);
    ResumedIs(p, h, w, a);
    WorkerTickSame(p, a, m);
    if h.prev.Worker? {
      ScratchSame(p, WorkerTick(a), Tick(m), "__counter", m.counter);
    }
  }

  lemma WorkerTickSame(p: Program, a: Machine, b: Machine)
    requires ValidProgram(p) && Same(p, a, b)
    ensures Same(p, WorkerTick(a), Tick(b))
  {
    TickSame(p, a, b);
    WorkerTickIs(a);
    if Carries(a) {
      ScratchSame(p, Tick(a), Tick(b), "__mcycleh", Cell(Tick(a).world, MCYCLEH));
    }
  }

  lemma TakeoverRefines(p: Program, h: Hart, r: Ref, w: int)
    requires ValidProgram(p) && Refines(p, h, r) && InBody(p, r.machine.counter)
    requires 0 <= w < |h.workers| && Parked(p, h, w) && Running(p, h)
    ensures Refines(p, Takeover(p, h, w), Ref(Tick(r.machine), Some(w))) && Takeover(p, h, w).prev == Worker(w)
  {
    TakeoverStore(p, h, r.machine, w);
    CopySame(p, h, r.machine, w);
    TickKeepsConstants(p, r.machine);
    Activate(p, h, r.machine, w, Resumed(p, h, w), Tick(r.machine), Takeover(p, h, w));
  }

  lemma TickKeepsConstants(p: Program, m: Machine)
    requires ValidProgram(p)
    ensures SameConstants(p, m.store, Tick(m).store)
  {
    TickSame(p, m, m);
  }

  /** Counters and prev_proc as before. */
  predicate SameShape(h: Hart, h': Hart) {
    && h'.prev == h.prev && |h'.workers| == |h.workers|
    && forall k :: 0 <= k < |h.workers| ==> h'.workers[k].1 == h.workers[k].1
  }

  lemma ShapeKept(p: Program, h: Hart, r: Ref, h': Hart, r': Ref)
    requires ValidProgram(p) && Refines(p, h, r) && SameShape(h, h') && Agrees(p, h', r'.machine)
    requires r'.owner == r.owner && r'.machine.counter == r.machine.counter
    ensures Refines(p, h', r')
  {
    if !InBody(p, r.machine.counter) {
      forall w | 0 <= w < |h'.workers| ensures Parked(p, h', w) {
        assert Parked(p, h, w);
      }
    }
  }

  /** A worker that finds the hart stopped changes only itself. */
  lemma RefusalAgrees(p: Program, h: Hart, m: Machine, w: int)
    requires ValidProgram(p) && Agrees(p, h, m) && 0 <= w < |h.workers| && Parked(p, h, w) && !Running(p, h)
    ensures Agrees(p, Takeover(p, h, w), m) && SameShape(h, Takeover(p, h, w))
  {
    CopySame(p, h, m, w);
    var h' := Takeover(p, h, w);
    forall k | 0 <= k < |h.workers| ensures SameConstants(p, h'.workers[k].0, m.store) {
    }
    forall v | v in Fetched(p.ast) ensures Lookup(PrevStore(h'), v) == Lookup(m.store, v) {
      assert v !in Locals(p);
    }
  }

  lemma RefusalRefines(p: Program, h: Hart, r: Ref, w: int)
    requires ValidProgram(p) && Refines(p, h, r) && 0 <= w < |h.workers| && Parked(p, h, w) && !Running(p, h)
    ensures Refines(p, Takeover(p, h, w), r) && Parked(p, Takeover(p, h, w), w)
  {
    RefusalAgrees(p, h, r.machine, w);
    ShapeKept(p, h, r, Takeover(p, h, w), r);
  }

  lemma RunRefines(p: Program, sem: Semantics, h: Hart, r: Ref, w: int, n: nat)
    requires ValidProgram(p) && Clean(p) && Refines(p, h, r) && InBody(p, r.machine.counter) && h.prev == Worker(w)
    ensures Refines(p, RunWorker(p, sem, h, w, n), Ref(RefMany(p, sem, r.machine, n), Some(w)))
  {
    var a := Machine(h.workers[w].0, h.workers[w].1, h.world);
    ActiveSame(p, h, r.machine, w);
    ManySame(p, sem, a, r.machine, n);
    Activate(p, h, r.machine, w, ExecMany(p, sem, a, n), RefMany(p, sem, r.machine, n), RunWorker(p, sem, h, w, n));
  }

  lemma ActiveSame(p: Program, h: Hart, m: Machine, w: int)
    requires ValidProgram(p) && Agrees(p, h, m) && h.prev == Worker(w) && m.counter == Resume(p, h)
    ensures Same(p, Machine(h.workers[w].0, h.workers[w].1, h.world), m)
  {
    forall v | v !in Locals(p) ensures Lookup(h.workers[w].0, v) == Lookup(m.store, v) {
      if v !in Fetched(p.ast) {
        assert IsConstant(p, v) && SameConstants(p, h.workers[w].0, m.store);
      }
    }
  }

  lemma UpdateLookup(s: Store, values: Store, v: string)
    ensures Lookup(Update(s, values), v) == if v in values then values[v] else Lookup(s, v)
  {
  }

  lemma UpdateConstants(p: Program, s: Store, values: Store)
    requires ValidProgram(p) && values.Keys <= Fetched(p.ast)
    ensures SameConstants(p, s, Update(s, values))
  {
    forall v | IsConstant(p, v) ensures Lookup(s, v) == Lookup(Update(s, values), v) {
      UpdateLookup(s, values, v);
    }
  }

  lemma PokeAgrees(p: Program, sem: Semantics, h: Hart, m: Machine, values: Store)
    requires ValidProgram(p) && Agrees(p, h, m) && values.Keys <= Fetched(p.ast)
    ensures Agrees(p, Step(p, sem, h, Poke(values)), m.(store := Update(m.store, values)))
  {
    var h', m' := Step(p, sem, h, Poke(values)), m.(store := Update(m.store, values));
    UpdateConstants(p, m.store, values);
    forall w | 0 <= w < |h.workers| ensures SameConstants(p, h'.workers[w].0, m'.store) {
      UpdateConstants(p, h.workers[w].0, values);
      SameTrans(p, h.workers[w].0, m.store, m'.store);
      if h.prev == Worker(w) {
        UpdatedFirst(p, h.workers[w].0, values, m'.store);
      }
    }
    forall v | v in Fetched(p.ast) ensures Lookup(PrevStore(h'), v) == Lookup(m'.store, v) {
      UpdateLookup(PrevStore(h), values, v);
      UpdateLookup(m.store, values, v);
    }
  }

  lemma PokeRefines(p: Program, sem: Semantics, h: Hart, r: Ref, values: Store)
    requires ValidProgram(p) && Refines(p, h, r) && values.Keys <= Fetched(p.ast)
    ensures Refines(p, Step(p, sem, h, Poke(values)), RefStep(p, sem, |h.workers|, r, Poke(values)))
  {
    PokeAgrees(p, sem, h, r.machine, values);
    ShapeKept(p, h, r, Step(p, sem, h, Poke(values)), RefStep(p, sem, |h.workers|, r, Poke(values)));
  }

  lemma CopyConstants(p: Program, a: Store, m: Store, values: Store)
    requires ValidProgram(p) && SameConstants(p, a, m)
    ensures SameConstants(p, a, Copy(m, values, Fetched(p.ast)))
  {
    forall v | IsConstant(p, v) ensures Lookup(a, v) == Lookup(Copy(m, values, Fetched(p.ast)), v) {
      CopyLookup(m, values, Fetched(p.ast), v);
    }
  }

  lemma RestartAgrees(p: Program, sem: Semantics, h: Hart, m: Machine, values: Store)
    requires ValidProgram(p) && Agrees(p, h, m)
    ensures Agrees(p, Step(p, sem, h, Restart(values)),
                   Machine(Copy(m.store, values, Fetched(p.ast)), Body(p), m.world))
  {
    var h' := Step(p, sem, h, Restart(values));
    var store := Copy(m.store, values, Fetched(p.ast));
    forall w | 0 <= w < |h.workers| ensures SameConstants(p, h'.workers[w].0, store) {
      CopyConstants(p, h.workers[w].0, m.store, values);
    }
    forall v | v in Fetched(p.ast) ensures Lookup(PrevStore(h'), v) == Lookup(store, v) {
      CopyLookup(m.store, values, Fetched(p.ast), v);
    }
  }

  lemma RestartParks(p: Program, sem: Semantics, h: Hart, r: Ref, values: Store)
    requires ValidProgram(p) && Refines(p, h, r)
    ensures AllParked(p, Step(p, sem, h, Restart(values)))
  {
    forall w | 0 <= w < |h.workers| ensures Parked(p, Step(p, sem, h, Restart(values)), w) {
      if !InBody(p, r.machine.counter) {
        assert Parked(p, h, w);
      }
    }
  }

  /** The controller's own variables reach the next worker, and the body starts again. */
  lemma RestartRefines(p: Program, sem: Semantics, h: Hart, r: Ref, values: Store)
    requires ValidProgram(p) && Refines(p, h, r)
    ensures Refines(p, Step(p, sem, h, Restart(values)), RefStep(p, sem, |h.workers|, r, Restart(values)))
  {
    RestartAgrees(p, sem, h, r.machine, values);
    RestartParks(p, sem, h, r, values);
    var h' := Step(p, sem, h, Restart(values));
    forall w | 0 <= w < |h'.workers| ensures h'.workers[w].1 == p.nextTick {
      assert Parked(p, h', w);
    }
  }

  lemma UpdatedFirst(p: Program, a: Store, values: Store, b: Store)
    requires ValidProgram(p) && values.Keys <= Fetched(p.ast) && SameConstants(p, a, b)
    ensures SameConstants(p, Update(a, values), b)
  {
    UpdateConstants(p, a, values);
  }

  lemma TurnRefines(p: Program, sem: Semantics, h: Hart, r: Ref, w: int, n: nat)
    requires ValidProgram(p) && Clean(p) && Refines(p, h, r) && InBody(p, r.machine.counter) && 0 <= w < |h.workers|
    ensures Refines(p, Step(p, sem, h, Turn(w, n)), RefStep(p, sem, |h.workers|, r, Turn(w, n)))
  {
    if !Parked(p, h, w) {
      RunRefines(p, sem, h, r, w, n);
    } else if Running(p, h) {
      TakeoverRefines(p, h, r, w);
      RunRefines(p, sem, Takeover(p, h, w), Ref(Tick(r.machine), Some(w)), w, n);
    } else {
      RefusalRefines(p, h, r, w);
    }
  }

  /** Every event keeps the refinement. */
  lemma StepRefines(p: Program, sem: Semantics, h: Hart, r: Ref, e: Event)
    requires ValidProgram(p) && Clean(p) && Refines(p, h, r) && ValidEvent(p, e) && Resting(p, r.machine)
    ensures Refines(p, Step(p, sem, h, e), RefStep(p, sem, |h.workers|, r, e))
  {
    match e
    case Poke(values) =>
      PokeRefines(p, sem, h, r, values);
    case Restart(values) =>
      RestartRefines(p, sem, h, r, values);
    case Turn(w, n) =>
      if 0 <= w < |h.workers| {
        if InBody(p, r.machine.counter) {
          TurnRefines(p, sem, h, r, w, n);
        } else {
          RefusalRefines(p, h, r, w);
        }
      }
  }

  // --- whole runs -------------------------------------------------------------

  /** A run of the workers. */
  function Run(p: Program, sem: Semantics, h: Hart, events: seq<Event>): (h': Hart)
    requires ValidProgram(p) && ValidHart(h)
    ensures ValidHart(h') && |h'.workers| == |h.workers|
    decreases |events|
  {
    if events == [] then h else Step(p, sem, Run(p, sem, h, events[..|events| - 1]), events[|events| - 1])
  }

  /** The run of the reference, which knows the schedule and the number of workers but not the workers. */
  function RefRun(p: Program, sem: Semantics, count: int, r: Ref, events: seq<Event>): (r': Ref)
    requires ValidProgram(p) && Placed(p, r.machine)
    ensures Placed(p, r'.machine)
    decreases |events|
  {
    if events == [] then r
    else RefStep(p, sem, count, RefRun(p, sem, count, r, events[..|events| - 1]), events[|events| - 1])
  }

  /** The start: all workers parked, the hart in the controller, and a reference with the same variables and no local
      names. */
  ghost predicate Start(p: Program, h: Hart, m: Machine)
    requires ValidProgram(p)
  {
    InBody(p, m.counter) && Refines(p, h, Ref(m, None)) && forall v :: v in Locals(p) ==> v !in m.store
  }

  ghost predicate ValidEvents(p: Program, events: seq<Event>) {
    forall i :: 0 <= i < |events| ==> ValidEvent(p, events[i])
  }

  /** Whenever the reference has jumped to reset, its state is not running. */
  ghost predicate StopsFirst(p: Program, sem: Semantics, count: int, r: Ref, events: seq<Event>)
    requires ValidProgram(p) && Placed(p, r.machine)
  {
    forall k :: 0 <= k <= |events| ==> Resting(p, RefRun(p, sem, count, r, events[..k]).machine)
  }

  lemma StopsFirstBefore(p: Program, sem: Semantics, count: int, r: Ref, events: seq<Event>)
    requires ValidProgram(p) && Placed(p, r.machine) && events != [] && StopsFirst(p, sem, count, r, events)
    ensures StopsFirst(p, sem, count, r, events[..|events| - 1])
    ensures Resting(p, RefRun(p, sem, count, r, events[..|events| - 1]).machine)
  {
    var before := events[..|events| - 1];
    forall k | 0 <= k <= |before| ensures Resting(p, RefRun(p, sem, count, r, before[..k]).machine) {
      assert before[..k] == events[..k];
    }
  }

  lemma {:induction false} RunsRefine(p: Program, sem: Semantics, h: Hart, r: Ref, events: seq<Event>)
    requires ValidProgram(p) && Clean(p) && Refines(p, h, r) && Placed(p, r.machine) && ValidEvents(p, events)
    requires StopsFirst(p, sem, |h.workers|, r, events)
    ensures Refines(p, Run(p, sem, h, events), RefRun(p, sem, |h.workers|, r, events))
    decreases |events|
  {
    if events != [] {
      var before := events[..|events| - 1];
      StopsFirstBefore(p, sem, |h.workers|, r, events);
      RunsRefine(p, sem, h, r, before);
      StepRefines(p, sem, Run(p, sem, h, before), RefRun(p, sem, |h.workers|, r, before), events[|events| - 1]);
    }
  }

  /** The workers together cannot be told from one processor: same world and same hart variables. */
  ghost predicate Visible(p: Program, h: Hart, m: Machine)
    requires ValidProgram(p) && ValidHart(h)
  {
    h.world == m.world && forall v :: v in Fetched(p.ast) ==> Lookup(PrevStore(h), v) == Lookup(m.store, v)
  }

  /** For every meaning of the statements, every start and every schedule in which the body stops before it jumps to
      reset. */
  ghost predicate Transparent(p: Program)
    requires ValidProgram(p)
  {
    forall sem, h, m, events :: ValidSemantics(p, sem) && Start(p, h, m) && ValidEvents(p, events)
                                && StopsFirst(p, sem, |h.workers|, Ref(m, None), events) ==>
      Visible(p, Run(p, sem, h, events), RefRun(p, sem, |h.workers|, Ref(m, None), events).machine)
  }

  lemma CleanTransparent(p: Program)
    requires ValidProgram(p) && Clean(p)
    ensures Transparent(p)
  {
    forall sem, h, m, events | ValidSemantics(p, sem) && Start(p, h, m) && ValidEvents(p, events)
                               && StopsFirst(p, sem, |h.workers|, Ref(m, None), events)
      ensures Visible(p, Run(p, sem, h, events), RefRun(p, sem, |h.workers|, Ref(m, None), events).machine)
    {
      RunsRefine(p, sem, h, Ref(m, None), events);
    }
  }

  // A program that mentions a local name can leak it.

  /** Statement `c` copies `v` to the world; every statement continues there. */
  function Leak(c: int, v: string): Semantics {
    (k, values, world) => Effect(1, c, if k == c then world[0 := Lookup(values, v)] else world)
  }

  lemma LeakStep(p: Program, c: int, v: string, a: Machine)
    requires ValidProgram(p) && InBody(p, c) && InBody(p, a.counter) && v in Texts(Code(p)[c].args)
    ensures var a' := Exec(p, Leak(c, v), a);
            && a'.counter == c
            && (Lookup(a.store, v) != 0 ==> Lookup(a'.store, v) != 0)
            && (a.counter == c ==> Cell(a'.world, 0) == Lookup(a.store, v))
  {
    AssignLookup(Code(p)[a.counter], a.store, 1, v);
    if a.counter == c {
      assert Lookup(Mentioned(Code(p)[c], a.store), v) == Lookup(a.store, v);
    }
  }

  lemma LeakTwice(p: Program, c: int, v: string, a: Machine)
    requires ValidProgram(p) && InBody(p, c) && InBody(p, a.counter) && v in Texts(Code(p)[c].args)
    requires Lookup(a.store, v) != 0
    ensures Cell(ExecMany(p, Leak(c, v), a, 2).world, 0) != 0
  {
    var a1 := Exec(p, Leak(c, v), a);
    LeakStep(p, c, v, a);
    LeakStep(p, c, v, a1);
    assert ExecMany(p, Leak(c, v), a, 2) == ExecMany(p, Leak(c, v), a1, 1) == Exec(p, Leak(c, v), a1);
  }

  lemma NoLeakTwice(p: Program, c: int, v: string, m: Machine)
    requires ValidProgram(p) && InBody(p, c) && InBody(p, m.counter) && v in Texts(Code(p)[c].args)
    requires v in Locals(p) && Lookup(m.store, v) == 0
    ensures Cell(RefMany(p, Leak(c, v), m, 2).world, 0) == 0
  {
    var sem := Leak(c, v);
    var m1 := RefExec(p, sem, m);
    LeakStep(p, c, v, m);
    WithoutLookup(Exec(p, sem, m).store, Locals(p), v);
    LeakStep(p, c, v, m1);
    assert RefMany(p, sem, m, 2) == RefMany(p, sem, m1, 1) == RefExec(p, sem, m1);
  }

  /** One worker whose local name is not null, and a controller that has just started the hart. */
  function LeakyHart(p: Program, v: string): Hart {
    Hart([(map[v := 1], p.nextTick)], map["state" := RUNNING], Controller, map[])
  }

  function LeakyMachine(p: Program): Machine
    requires 0 <= p.bodyAt <= |p.ast|
  {
    Machine(map["state" := RUNNING], Body(p), map[])
  }

  lemma LeakyStart(p: Program, v: string)
    requires ValidProgram(p) && v in Locals(p)
    ensures Start(p, LeakyHart(p, v), LeakyMachine(p))
  {
    var h, m := LeakyHart(p, v), LeakyMachine(p);
    assert "state" !in Locals(p);
    assert SameConstants(p, h.workers[0].0, m.store);
  }

  lemma LeakyTakeover(p: Program, v: string)
    requires ValidProgram(p) && v in Locals(p)
    ensures var h' := Takeover(p, LeakyHart(p, v), 0);
            Lookup(h'.workers[0].0, v) != 0 && h'.workers[0].1 == Body(p) && Cell(h'.world, 0) == 0
    ensures Lookup(Tick(LeakyMachine(p)).store, v) == 0
  {
    var h := LeakyHart(p, v);
    var own := h.workers[0].0["prev_proc" := Id(h.prev)];
    CopyLookup(own, h.controller, Fetched(p.ast), "state");
    CopyLookup(own, h.controller, Fetched(p.ast), "csr_mcycle");
    CopyLookup(own, h.controller, Fetched(p.ast), v);
    assert v !in Fetched(p.ast);
  }

  /** After one turn of two statements the worlds differ. */
  lemma LeakDiffers(p: Program, c: int, v: string)
    requires ValidProgram(p) && InBody(p, c) && v in Texts(Code(p)[c].args) && v in Locals(p)
    ensures var sem, h, r := Leak(c, v), LeakyHart(p, v), Ref(LeakyMachine(p), None);
            Step(p, sem, h, Turn(0, 2)).world != RefStep(p, sem, 1, r, Turn(0, 2)).machine.world
  {
    LeakyTakeover(p, v);
    var h' := Takeover(p, LeakyHart(p, v), 0);
    LeakTwice(p, c, v, Machine(h'.workers[0].0, h'.workers[0].1, h'.world));
    NoLeakTwice(p, c, v, Tick(LeakyMachine(p)));
  }

  lemma LeakVisible(p: Program, c: int, v: string)
    requires ValidProgram(p) && InBody(p, c) && v in Texts(Code(p)[c].args) && v in Locals(p)
    ensures !Transparent(p)
  {
    var sem, h, m := Leak(c, v), LeakyHart(p, v), LeakyMachine(p);
    var events := [Turn(0, 2)];
    assert ValidSemantics(p, sem);
    LeakyStart(p, v);
    OneTurn(p, sem, h, m, events[0]);
    LeakDiffers(p, c, v);
    LeakStays(p, sem, m, events);
    assert ValidEvents(p, events);
    assert !Visible(p, Run(p, sem, h, events), RefRun(p, sem, |h.workers|, Ref(m, None), events).machine);
  }

  lemma OneTurn(p: Program, sem: Semantics, h: Hart, m: Machine, e: Event)
    requires ValidProgram(p) && ValidHart(h) && InBody(p, m.counter)
    ensures Run(p, sem, h, [e]) == Step(p, sem, h, e)
    ensures RefRun(p, sem, 1, Ref(m, None), [e]) == RefStep(p, sem, 1, Ref(m, None), e)
  {
    assert [e][..0] == [];
  }

  lemma {:induction false} StaysInBody(p: Program, sem: Semantics, m: Machine, n: nat)
    requires ValidProgram(p) && InBody(p, m.counter) && forall c, values, world :: InBody(p, sem(c, values, world).next)
    ensures InBody(p, RefMany(p, sem, m, n).counter)
    decreases n
  {
    if n > 0 {
      StaysInBody(p, sem, RefExec(p, sem, m), n - 1);
    }
  }

  lemma TurnStays(p: Program, sem: Semantics, m: Machine)
    requires ValidProgram(p) && InBody(p, m.counter) && forall c, values, world :: InBody(p, sem(c, values, world).next)
    ensures InBody(p, RefStep(p, sem, 1, Ref(m, None), Turn(0, 2)).machine.counter)
  {
    StaysInBody(p, sem, Tick(m), 2);
  }

  lemma LeakStays(p: Program, sem: Semantics, m: Machine, events: seq<Event>)
    requires ValidProgram(p) && InBody(p, m.counter) && forall c, values, world :: InBody(p, sem(c, values, world).next)
    requires events == [Turn(0, 2)]
    ensures StopsFirst(p, sem, 1, Ref(m, None), events)
  {
    TurnStays(p, sem, m);
    OneTurn(p, sem, LeakyHart(p, ""), m, Turn(0, 2));
    forall k | 0 <= k <= |events| ensures Resting(p, RefRun(p, sem, 1, Ref(m, None), events[..k]).machine) {
      if k == 0 {
        assert events[..k] == [];
      } else {
        assert events[..k] == [Turn(0, 2)];
      }
    }
  }

  /** The workers behave as one processor under every schedule exactly if the body mentions no local name. */
  lemma TransparentIffClean(p: Program)
    requires ValidProgram(p)
    ensures Transparent(p) <==> Clean(p)
  {
    if Clean(p) {
      CleanTransparent(p);
    } else {
      var c :| InBody(p, c) && !(Texts(Code(p)[c].args) !! Locals(p));
      var v :| v in Texts(Code(p)[c].args) && v in Locals(p);
      LeakVisible(p, c, v);
    }
  }

  // --- what the saved-variable check gives ------------------------------------

  /** Names that push_saved exempts from the check. */
  function Pushed(ast: Ast): set<string> {
    set i, t | 0 <= i < |ast| && IsDirective(ast[i], "push_saved") && t in ast[i].args :: t.text
  }

  lemma {:induction false} SavedIsFetchedOrPushed(ast: Ast, i: int)
    requires 0 <= i <= |ast|
    ensures SavedAt(ast, i) <= Fetched(ast) + Pushed(ast) + {"@counter"}
  {
    if i > 0 {
      SavedIsFetchedOrPushed(ast, i - 1);
      forall v | v in SavedAt(ast, i) && v !in SavedAt(ast, i - 1) ensures v in Fetched(ast) + Pushed(ast) {
        if IsDirective(ast[i - 1], "push_saved") {
          var t :| t in ast[i - 1].args && t.text == v;
        } else {
          assert Restores(ast, i - 1) && ast[i - 1].args[0].text == v;
        }
      }
    }
  }

  /** From next_tick on, the program asks for prev_proc, restores variables, and is then under the check. */
  ghost predicate Template(p: Program)
    requires 0 <= p.tickAt <= |p.ast|
  {
    forall i :: p.tickAt <= i < |p.ast| ==>
      || PhaseAt(p.ast, i) == Checking || Restores(p.ast, i)
      || TargetOf(p.ast[i]) == None || TargetOf(p.ast[i]) == Some("prev_proc")
  }

  lemma PassingLocals(p: Program)
    requires ValidProgram(p) && Template(p) && Passes(p.ast)
    ensures Locals(p) <= Pushed(p.ast) + {"prev_proc"}
  {
    forall v | v in Locals(p) ensures v in Pushed(p.ast) + {"prev_proc"} {
      var i :| p.tickAt <= i < |p.ast| && TargetOf(p.ast[i]) == Some(v);
      assert !Offends(p.ast, i, v);
      SavedIsFetchedOrPushed(p.ast, i);
    }
  }

  /** A program that passes the check, and whose body mentions neither prev_proc nor a name that was pushed, behaves
      as one processor. */
  lemma PassingTransparent(p: Program)
    requires ValidProgram(p) && Template(p) && Passes(p.ast)
    requires forall c :: InBody(p, c) ==> Texts(Code(p)[c].args) !! Pushed(p.ast) + {"prev_proc"}
    ensures Transparent(p)
  {
    PassingLocals(p);
    forall c | InBody(p, c) ensures Texts(Code(p)[c].args) !! Locals(p) {
    }
    CleanTransparent(p);
  }

  // The second condition is needed: the check looks at writes only, so it passes a body that reads a name popped
  // earlier.

  lemma {:induction false} PrefixStates(ast: Ast, node: Node, i: int)
    requires 0 <= i <= |ast|
    ensures PhaseAt(ast + [node], i) == PhaseAt(ast, i) && SavedAt(ast + [node], i) == SavedAt(ast, i)
  {
    if i > 0 {
      PrefixStates(ast, node, i - 1);
      assert (ast + [node])[i - 1] == ast[i - 1];
    }
  }

  /** A statement that writes nothing. */
  predicate Silent(node: Node) { node.Statement? && TargetOf(node) == None && !IsRestore(node) }

  /** Adding one keeps a program passing. */
  lemma PassesExtended(ast: Ast, node: Node)
    requires Passes(ast) && Silent(node)
    ensures Passes(ast + [node])
  {
    var longer := ast + [node];
    forall i | 0 <= i < |longer| ensures PopsWell(longer, i) && RestoresWell(longer, i) {
      if i < |ast| {
        PrefixStates(ast, node, i);
        assert PopsWell(ast, i) && RestoresWell(ast, i);
      }
    }
    forall i, v | 0 <= i < |longer| ensures !Offends(longer, i, v) {
      if i < |ast| {
        PrefixStates(ast, node, i);
        assert !Offends(ast, i, v);
      }
    }
  }

  lemma SameFetched(ast: Ast, node: Node)
    requires Silent(node)
    ensures Fetched(ast + [node]) == Fetched(ast)
  {
    var longer := ast + [node];
    forall i | 0 <= i < |ast| ensures Restores(longer, i) <==> Restores(ast, i) {
      PrefixStates(ast, node, i);
    }
    forall v ensures v in Fetched(longer) <==> v in Fetched(ast) {
      if v in Fetched(ast) {
        var i :| 0 <= i < |ast| && Restores(ast, i) && ast[i].args[0].text == v;
        assert Restores(longer, i) && longer[i].args[0].text == v;
      }
    }
  }

  lemma SameLocals(p: Program, node: Node)
    requires ValidProgram(p) && Silent(node)
    ensures ValidProgram(p.(ast := p.ast + [node])) && Locals(p.(ast := p.ast + [node])) == Locals(p)
    ensures Code(p.(ast := p.ast + [node])) == Code(p) + [node]
  {
    var longer := p.ast + [node];
    SameFetched(p.ast, node);
    assert longer[..p.bodyAt] == p.ast[..p.bodyAt] && longer[..p.tickAt] == p.ast[..p.tickAt];
    assert longer[..|longer| - 1] == p.ast;
    forall i | p.tickAt <= i < |p.ast| ensures longer[i] == p.ast[i] {
    }
    var p' := p.(ast := longer);
    forall v ensures v in Locals(p') <==> v in Locals(p) {
      if v in Locals(p) {
        var i :| p.tickAt <= i < |p.ast| && TargetOf(p.ast[i]) == Some(v);
        assert TargetOf(longer[i]) == Some(v);
      }
    }
  }

  /** Every passing program has an extension that still passes but is not transparent: print a name that the takeover
      uses. */
  lemma PassingIsNotEnough(p: Program, v: string)
    requires ValidProgram(p) && Passes(p.ast) && v in Scratch()
    ensures var p' := p.(ast := p.ast + [Statement("print", [Token(v, false, 0, 0)])]);
            ValidProgram(p') && Passes(p'.ast) && !Transparent(p')
  {
    var node := Statement("print", [Token(v, false, 0, 0)]);
    PassesExtended(p.ast, node);
    SameLocals(p, node);
    var p' := p.(ast := p.ast + [node]);
    assert node.args[0] in node.args;
    assert (p.ast + [node])[..p.bodyAt] == p.ast[..p.bodyAt];
    LeakVisible(p', |Code(p)|, v);
  }

  /** Whatever the program and the schedule, at most one worker is not parked, and it is prev_proc. */
  lemma {:induction false} AlwaysOneActive(p: Program, sem: Semantics, h: Hart, m: Machine, events: seq<Event>)
    requires ValidProgram(p) && Start(p, h, m)
    ensures AtMostOneActive(p, Run(p, sem, h, events))
    decreases |events|
  {
    if events != [] {
      var before := events[..|events| - 1];
      AlwaysOneActive(p, sem, h, m, before);
      StepKeepsOneActive(p, sem, Run(p, sem, h, before), events[|events| - 1]);
    }
  }

  ghost predicate AtMostOneActive(p: Program, h: Hart)
    requires ValidProgram(p)
  {
    && ValidHart(h)
    && forall w :: 0 <= w < |h.workers| && !Parked(p, h, w) ==> h.prev == Worker(w) && InBody(p, h.workers[w].1)
  }

  lemma StepKeepsOneActive(p: Program, sem: Semantics, h: Hart, e: Event)
    requires ValidProgram(p) && AtMostOneActive(p, h)
    ensures AtMostOneActive(p, Step(p, sem, h, e))
  {
    if e.Turn? && 0 <= e.w < |h.workers| && Parked(p, h, e.w) {
      TakeoverKeepsOneActive(p, h, e.w);
    }
  }

  lemma TakeoverKeepsOneActive(p: Program, h: Hart, w: int)
    requires ValidProgram(p) && AtMostOneActive(p, h) && 0 <= w < |h.workers| && Parked(p, h, w)
    ensures AtMostOneActive(p, Takeover(p, h, w))
  {
  }
}
