/**
  CSR addresses, and the table through which modify_csr finds a register.

  `CsrAt` is the architecture's map from the 12-bit address to a register.
  `Descriptor` is the configuration of the CPU: a write mask and two handlers for
  every address.  The controller packs a descriptor into one number, under the
  variable name that stands for the address; the worker takes it apart again.
 */
module Csr {
  import opened AddressMap
  import opened LookupTables
  import opened MulDiv

  /** CSRs that hold a word, apart from mstatus and the delegation registers. */
  datatype WordCsr = Mepc | Sepc | Mtvec | Stvec | Mcause | Scause | Mtval | Stval | Mscratch | Sscratch | Satp
                   | Mcounteren | Scounteren

  /** What an address stands for.  `Counter` registers need their enable bit; `Elsewhere` registers are not part of
      the privileged state modelled here; `Zero` registers read as zero and ignore writes. */
  datatype Csr = Mstatus | Sstatus | Medeleg | Mideleg | Word(word: WordCsr)
               | Counter(bit: int) | Elsewhere | Zero | Missing

  predicate IsZero(a: int) {
    || 0xf11 <= a <= 0xf15 || a == 0x10a || a == 0x120 || a == 0x310 || a == 0x312 || a == 0x30a || a == 0x31a
    || 0xb03 <= a <= 0xb1f || 0xb83 <= a <= 0xb9f || a == 0x320 || 0x323 <= a <= 0x33f
  }

  predicate IsElsewhere(a: int) { a == 0x104 || a == 0x304 || a == 0x144 || a == 0x344 || a == 0x301 || a == 0xb80 }

  predicate IsCounter(a: int) {
    0xc00 <= a <= 0xc1f || 0xc80 <= a <= 0xc9f || a == 0xb00 || a == 0xb02 || a == 0xb82
  }

  function CsrAt(a: int): Csr {
    if a == 0x300 then Mstatus
    else if a == 0x100 then Sstatus
    else if a == 0x302 then Medeleg
    else if a == 0x303 then Mideleg
    else if a == 0x341 then Word(Mepc)
    else if a == 0x141 then Word(Sepc)
    else if a == 0x305 then Word(Mtvec)
    else if a == 0x105 then Word(Stvec)
    else if a == 0x342 then Word(Mcause)
    else if a == 0x142 then Word(Scause)
    else if a == 0x343 then Word(Mtval)
    else if a == 0x143 then Word(Stval)
    else if a == 0x340 then Word(Mscratch)
    else if a == 0x140 then Word(Sscratch)
    else if a == 0x180 then Word(Satp)
    else if a == 0x306 then Word(Mcounteren)
    else if a == 0x106 then Word(Scounteren)
    else if a == 0x14d || a == 0x15d then Counter(1)
    else if IsCounter(a) then Counter(a % 32)
    else if IsElsewhere(a) then Elsewhere
    else if IsZero(a) then Zero
    else Missing
  }

  /** Address bits [9:8]: the lowest mode that may access the register; bits [11:10]: 3 for a read-only register. */
  function RequiredMode(a: int): int { a / 256 % 4 }

  predicate ReadOnly(a: int) { a / 1024 == 3 }

  // --- the configuration ------------------------------------------------------

  /** Entry points of modify_csr; handlers that differ only in a register outside the model share one. */
  datatype Handler = Illegal
                   | ReadCsrs | ReadZero | ReadStatus | ReadSatp | ReadStimecmp | ReadCounter | ReadVariable
                   | WriteCsrs | WriteReadonly | WriteSatp | WriteMstatus | WriteSstatus | WriteVariable

  datatype Descriptor = Descriptor(mask: bv32, write: Handler, read: Handler)

  const FULL: bv32 := 0xffff_ffff

  /** The entries of the configuration file by address; every other address is illegal. */
  function DescriptorOf(a: int): Descriptor {
    if a == 0x300 then Descriptor(0x7e19aa, WriteMstatus, ReadStatus)
    else if a == 0x100 then Descriptor(0xc0122, WriteSstatus, ReadStatus)
    else if a == 0x302 then Descriptor(0xcb3ff, WriteCsrs, ReadCsrs)
    else if a == 0x303 then Descriptor(0xaa2, WriteCsrs, ReadCsrs)
    else if a == 0x341 || a == 0x141 || a == 0x305 || a == 0x105 then Descriptor(0xffff_fffc, WriteCsrs, ReadCsrs)
    else if a == 0x180 then Descriptor(FULL, WriteSatp, ReadSatp)
    else if 0x340 <= a <= 0x343 || 0x140 <= a <= 0x143 || a == 0x306 || a == 0x106 || a == 0xb80 then
      Descriptor(FULL, WriteCsrs, ReadCsrs)
    else if a == 0x301 then Descriptor(FULL, WriteReadonly, ReadCsrs)
    else if a == 0x14d || a == 0x15d then Descriptor(FULL, WriteVariable, ReadStimecmp)
    else if a == 0xb00 || a == 0xb02 || a == 0xb82 then Descriptor(FULL, WriteVariable, ReadCounter)
    else if 0xc00 <= a <= 0xc1f || 0xc80 <= a <= 0xc9f then Descriptor(FULL, Illegal, ReadCounter)
    else if a == 0x104 || a == 0x304 || a == 0x144 then Descriptor(FULL, WriteVariable, ReadVariable)
    else if a == 0x344 then Descriptor(0x202, WriteVariable, ReadVariable)
    else if 0xf11 <= a <= 0xf15 then Descriptor(FULL, Illegal, ReadZero)
    else if a == 0x310 || a == 0x312 || a == 0x30a || a == 0x31a || a == 0x10a || a == 0x120 || a == 0x320
            || 0x323 <= a <= 0x33f || 0xb03 <= a <= 0xb1f || 0xb83 <= a <= 0xb9f then
      Descriptor(FULL, WriteReadonly, ReadZero)
    else Descriptor(0, Illegal, Illegal)
  }

  ghost predicate Agrees(a: int) {
    && (DescriptorOf(a).read == Illegal <==> CsrAt(a) == Missing)
    && (CsrAt(a) != Missing ==> (DescriptorOf(a).write == Illegal <==> ReadOnly(a)))
  }

  lemma SupervisorAgrees(a: int)
    requires 0 <= a < 0x300
    ensures Agrees(a)
  {
  }

  lemma MachineAgrees(a: int)
    requires 0x300 <= a < 0xb00
    ensures Agrees(a)
  {
  }

  lemma CounterAgrees(a: int)
    requires 0xb00 <= a < 4096
    ensures Agrees(a)
  {
  }

  /** The configuration agrees with the architecture on what exists and on what may be written. */
  lemma DescriptorAgrees(a: int)
    requires 0 <= a < 4096
    ensures DescriptorOf(a).read == Illegal <==> CsrAt(a) == Missing
    ensures CsrAt(a) != Missing ==> (DescriptorOf(a).write == Illegal <==> ReadOnly(a))
  {
    if a < 0x300 {
      SupervisorAgrees(a);
    } else if a < 0xb00 {
      MachineAgrees(a);
    } else {
      CounterAgrees(a);
    }
    assert Agrees(a);
  }

  // --- the label table --------------------------------------------------------

  /** The addresses that the assembler gave to the handlers. */
  type Labels = Handler -> int

  ghost predicate ValidLabels(labelOf: Labels) {
    && (forall h :: 0 <= labelOf(h) < 1000)
    && (forall g, h :: labelOf(g) == labelOf(h) ==> g == h)
  }

  function Packed(d: Descriptor, labelOf: Labels): int {
    (d.mask as int) * 1_000_000 + labelOf(d.write) * 1000 + labelOf(d.read)
  }

  type LabelTable = map<Name, int>

  /** The table holds the packed descriptor of every address below `n`. */
  ghost predicate HoldsUpTo(table: LabelTable, labelOf: Labels, n: int) {
    forall a :: 0 <= a < n ==> VariableName(a) in table && table[VariableName(a)] == Packed(DescriptorOf(a), labelOf)
  }

  lemma HoldsStep(table: LabelTable, labelOf: Labels, n: int)
    requires 0 <= n < 4096 && HoldsUpTo(table, labelOf, n)
    ensures HoldsUpTo(table[VariableName(n) := Packed(DescriptorOf(n), labelOf)], labelOf, n + 1)
  {
    forall a | 0 <= a < n ensures VariableName(a) != VariableName(n) {
      if VariableName(a) == VariableName(n) {
        VariableNameInjective(a, n);
      }
    }
  }

  predicate Configured(a: int) { DescriptorOf(a) != Descriptor(0, Illegal, Illegal) }

  /** One address: illegal first, and its descriptor if it has one. */
  method InitLabel(before: LabelTable, labelOf: Labels, name: Name, a: int) returns (table: LabelTable)
    ensures table == before[name := Packed(DescriptorOf(a), labelOf)]
  {
    table := before[name := labelOf(Illegal) * 1000 + labelOf(Illegal)];
    if Configured(a) {
      var d := DescriptorOf(a);
      table := table[name := (d.mask as int) * 1_000_000 + labelOf(d.write) * 1000 + labelOf(d.read)];
    }
  }

  /** The controller's initialisation of all addresses. */
  method InitCsrLabels(tables: Tables, labelOf: Labels) returns (table: LabelTable)
    requires CpuTables(tables) && ValidLabels(labelOf)
    ensures HoldsUpTo(table, labelOf, 4096)
  {
    table := map[];
    for a := 0 to 4096
      invariant HoldsUpTo(table, labelOf, a)
    {
      var name := LookupVariable(tables, a);
      HoldsStep(table, labelOf, a);
      table := InitLabel(table, labelOf, name, a);
    }
  }

  /** The lookup at the start of modify_csr, and the three fields of the number it finds. */
  method FindDescriptor(tables: Tables, table: LabelTable, labelOf: Labels, fdiv: (int, int) -> real, imm: int)
      returns (mask: int, writeLabel: int, readLabel: int)
    requires CpuTables(tables) && ValidLabels(labelOf) && HoldsUpTo(table, labelOf, 4096) && RoundsToNearest(fdiv)
    requires 0 <= imm < 4096
    ensures var d := DescriptorOf(imm);
            mask == d.mask as int && writeLabel == labelOf(d.write) && readLabel == labelOf(d.read)
  {
    var variable := LookupVariable(tables, imm);
    var labels := table[variable];
    DescriptorAgrees(imm);
    PackedBounds(DescriptorOf(imm), labelOf);
    mask, writeLabel, readLabel := UnpackDescriptor(labels, fdiv);
    PackedUnique(DescriptorOf(imm), labelOf, mask, writeLabel, readLabel);
  }

  lemma PackedBounds(d: Descriptor, labelOf: Labels)
    requires ValidLabels(labelOf)
    ensures 0 <= Packed(d, labelOf) < 0x1_0000_0000 * 1_000_000
  {
  }

  lemma PackedUnique(d: Descriptor, labelOf: Labels, mask: int, writeLabel: int, readLabel: int)
    requires ValidLabels(labelOf) && 0 <= writeLabel < 1000 && 0 <= readLabel < 1000
    requires Packed(d, labelOf) == mask * 1_000_000 + writeLabel * 1000 + readLabel
    ensures mask == d.mask as int && writeLabel == labelOf(d.write) && readLabel == labelOf(d.read)
  {
  }
}
