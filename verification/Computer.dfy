/**
  The whole machine: build the tables, flash a program, run it, and dump RAM.
 */
module Computer {
  import opened Options
  import opened AddressMap
  import opened LookupTables
  import opened Memory
  import opened LoadStore
  import opened Isa
  import opened Translation
  import opened Csr
  import opened MulDiv
  import HostAccess
  import Privilege
  import Traps
  import Worker

  /** ROM after flashing a machine that held nothing. */
  function Image(c: Config, data: seq<bv8>): (words: seq<bv32>)
    requires ValidConfig(c)
    ensures |words| == RomWords(c)
  {
    HostAccess.Flashed(data, seq(RomWords(c), _ => 0))
  }

  /** Behind the image ROM is zero. */
  lemma ImageRest(c: Config, data: seq<bv8>, k: int)
    requires ValidConfig(c) && |data| % 4 == 0 && |data| <= k < 4 * RomWords(c)
    ensures Flat(Image(c, data))[k] == 0
  {
    assert 4 * (k / 4) + 3 >= |data|;
    assert Image(c, data)[k / 4] == 0;
  }

  lemma BlankRom(c: Config)
    requires ValidConfig(c)
    ensures RomHolds(c, map[], seq(RomWords(c), _ => 0))
  {
  }

  /** Switch on a machine with a program in ROM. */
  method Assemble(c: Config, data: seq<bv8>) returns (mem: MemoryUnit)
    requires ValidConfig(c) && |data| % 4 == 0 && |data| <= 4 * RomWords(c)
    ensures fresh(mem) && mem.Valid() && mem.c == c && mem.m.rom == Image(c, data)
    ensures mem.Current() == View(seq(4 * RamWords(c), _ => 0), None)
  {
    var tables := BuildCpuTables();
    var incr := InitIncr(tables);
    var layout := ComputeLayout(c);
    var r, rom := HostAccess.FlashRom(c, map[], data);
    ghost var blank := seq(RomWords(c), _ => 0);
    BlankRom(c);
    HostAccess.FlashHolds(c, map[], rom, data, blank);
    mem := new MemoryUnit(c, layout, tables, incr, rom, Image(c, data));
  }

  lemma ResetSound(h: Privilege.Hart)
    requires Privilege.IsReset(h)
    ensures Privilege.Invariant(h) && InRange(h)
  {
    assert !Privilege.ParseStatus(0).mprv;
  }

  /** A hart at reset; the CSRs that the controller does not write keep what they held. */
  method ResetHart(initial: Privilege.Words, labelOf: Labels, fdiv: (int, int) -> real) returns (traps: Traps.TrapUnit)
    requires ValidLabels(labelOf) && RoundsToNearest(fdiv)
    ensures fresh(traps) && traps.Sane() && Privilege.IsReset(traps.State())
    ensures Privilege.Invariant(traps.State()) && InRange(traps.State())
  {
    var tables := BuildCpuTables();
    var csrLabels := InitCsrLabels(tables, labelOf);
    traps := new Traps.TrapUnit(initial, tables, csrLabels, labelOf, fdiv);
    traps.StateIsView();
    ResetSound(traps.State());
  }

  /** The reference machine as it is switched on. */
  predicate SwitchedOn(c: Config, s: Cpu) {
    && Privilege.IsReset(s.hart) && s.regs == seq(32, _ => 0) && s.power == On && s.epoch == 0
    && ValidConfig(c) && s.view == View(seq(4 * RamWords(c), _ => 0), None)
  }

  lemma WholeRam(ram: seq<bv8>, n: int)
    requires |ram| == n
    ensures ram[0..n] == ram && ram[0..] == ram
  {
  }

  /** The whole RAM as a file. */
  method DumpAll(mem: MemoryUnit) returns (dump: seq<bv8>)
    requires mem.Valid() && mem.c.ram > 0
    ensures dump == mem.Current().ram
  {
    var r := HostAccess.DumpRam(mem.c, mem.cells, 0x8000_0000, 16384 * mem.c.ram, mem.m);
    dump := r.value;
    WholeRam(mem.Current().ram, 16384 * mem.c.ram);
  }

  /** Run from reset on. */
  method RunFromReset(mem: MemoryUnit, traps: Traps.TrapUnit, inputs: seq<Input>)
      returns (n: nat, ghost trace: seq<Cpu>, ghost frames: seq<Frame>)
    requires mem.Valid() && traps.Sane() && Privilege.Invariant(traps.State()) && InRange(traps.State())
    modifies mem, traps
    ensures mem.Valid() && RunsUntil(Board(mem.c, old(mem.RomView())), trace, frames, inputs, n)
    ensures trace[0] == old(Cpu(traps.State(), seq(32, _ => 0), mem.Current(), On, 0))
    ensures mem.Current() == trace[n].view
  {
    var digits := PageOffsets();
    var hart := new Worker.Hart(mem, digits, traps, seq(32, _ => 0));
    n, trace, frames := hart.Run(inputs);
  }

  /** A program is flashed into a new machine, run from reset, and RAM is dumped: the run is one of the instruction
      set on the flashed image, and the dump is RAM at its end. */
  method RunProgram(c: Config, data: seq<bv8>, initial: Privilege.Words, labelOf: Labels, fdiv: (int, int) -> real,
                    inputs: seq<Input>)
      returns (n: nat, dump: seq<bv8>, ghost trace: seq<Cpu>, ghost frames: seq<Frame>)
    requires ValidConfig(c) && |data| % 4 == 0 && |data| <= 4 * RomWords(c) && c.ram > 0
    requires ValidLabels(labelOf) && RoundsToNearest(fdiv)
    ensures Flat(Image(c, data))[..|data|] == data
    ensures RunsUntil(Board(c, Flat(Image(c, data))), trace, frames, inputs, n)
    ensures SwitchedOn(c, trace[0]) && dump == trace[n].view.ram
  {
    HostAccess.FlashedBytes(data, seq(RomWords(c), _ => 0));
    var mem := Assemble(c, data);
    var traps := ResetHart(initial, labelOf, fdiv);
    n, trace, frames := RunFromReset(mem, traps, inputs);
    dump := DumpAll(mem);
  }
}
