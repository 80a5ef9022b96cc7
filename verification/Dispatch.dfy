/**
  The layout of the label table: the configured instruction list is resolved to
  table slots, and the controller's generated code fills them.
 */
module Dispatch {
  import opened Options

  /** An entry of the configuration, with what its label stands for; `count` and `align` are at least one. */
  datatype Instruction<L> = Instruction(handler: L, count: int, upTo: Option<int>, align: int, address: Option<int>)

  /** An entry with its slots: `count` of them from `address` on, `align` apart. */
  datatype Entry<L> = Entry(handler: L, count: int, align: int, address: int)

  ghost predicate ValidInstruction<L>(x: Instruction<L>) { x.count >= 1 && x.align >= 1 }

  function End<L>(e: Entry<L>): int { e.address + e.count * e.align }

  /** Where the entry after the first `n` ones may begin. */
  function EndOf<L>(r: seq<Entry<L>>, n: int): int
    requires 0 <= n <= |r|
  {
    if n == 0 then 0 else End(r[n - 1])
  }

  /** The address is the given one, if that is not too low, or the first aligned one. */
  ghost predicate Placed<L>(x: Instruction<L>, e: Entry<L>, start: int)
    requires ValidInstruction(x)
  {
    match x.address
    case Some(a) => e.address == a && a >= start
    case None => e.address % x.align == 0 && start <= e.address < start + x.align
  }

  /** An entry with an upper bound ends exactly there. */
  ghost predicate Sized<L>(x: Instruction<L>, e: Entry<L>) {
    match x.upTo
    case Some(last) => x.align == 1 && e.count == last - e.address + 1 && e.count >= 1
    case None => e.count == x.count
  }

  ghost predicate Resolves<L>(x: Instruction<L>, e: Entry<L>, start: int)
    requires ValidInstruction(x)
  {
    e.handler == x.handler && e.align == x.align && Placed(x, e, start) && Sized(x, e)
  }

  /** `ceil(address / align) * align` is the first aligned address from `address` on. */
  lemma CeilingAligned(address: int, align: int)
    requires align >= 1
    ensures var a := (address + align - 1) / align * align;
            a % align == 0 && address <= a < address + align
  {
    var q, r := (address + align - 1) / align, (address + align - 1) % align;
    assert address + align - 1 == q * align + r;
    MultipleMod(q, align);
  }

  lemma MultipleMod(q: int, align: int)
    requires align >= 1
    ensures q * align % align == 0
  {
    var r := q * align % align;
    var d := q * align / align;
    assert q * align == d * align + r;
    assert (q - d) * align == r;
    if q - d >= 1 {
      AtLeast(q - d, align);
    } else if q - d <= -1 {
      AtLeast(d - q, align);
    }
  }

  lemma AtLeast(k: int, align: int)
    requires k >= 1 && align >= 1
    ensures k * align >= align
  {
  }

  /** Only one aligned address fits. */
  lemma PlacedUnique<L>(x: Instruction<L>, e: Entry<L>, f: Entry<L>, start: int)
    requires ValidInstruction(x) && Resolves(x, e, start) && Resolves(x, f, start)
    ensures e == f
  {
    if x.address.None? {
      var i, j := e.address / x.align, f.address / x.align;
      assert e.address == i * x.align && f.address == j * x.align;
      assert (i - j) * x.align == e.address - f.address;
      if i - j >= 1 {
        AtLeast(i - j, x.align);
      } else if i - j <= -1 {
        AtLeast(j - i, x.align);
      }
    }
  }

  /** One round of the loop: null if the entry is rejected. */
  method ResolveOne<L>(x: Instruction<L>, start: int) returns (e: Option<Entry<L>>)
    requires ValidInstruction(x)
    ensures e.Some? ==> Resolves(x, e.value, start)
    ensures e.None? ==> forall f :: !Resolves(x, f, start)
  {
    var address;
    match x.address {
      case None =>
        CeilingAligned(start, x.align);
        address := (start + x.align - 1) / x.align * x.align;
      case Some(a) =>
        if a < start {
          return None;
        }
        address := a;
    }
    var count := x.count;
    if x.upTo.Some? {
      if x.align != 1 || x.upTo.value < address {
        return None;
      }
      count := x.upTo.value - address + 1;
    }
    e := Some(Entry(x.handler, count, x.align, address));
  }

  ghost predicate Layout<L>(list: seq<Instruction<L>>, r: seq<Entry<L>>)
    requires forall i :: 0 <= i < |list| ==> ValidInstruction(list[i])
  {
    |r| <= |list| && forall i :: 0 <= i < |r| ==> EntryAt(list, r, i)
  }

  /** Entry `i` is resolved after the ones before it. */
  ghost predicate EntryAt<L>(list: seq<Instruction<L>>, r: seq<Entry<L>>, i: int)
    requires 0 <= i < |r| <= |list| && ValidInstruction(list[i])
  {
    Resolves(list[i], r[i], EndOf(r, i))
  }

  lemma LayoutGrows<L>(list: seq<Instruction<L>>, r: seq<Entry<L>>, e: Entry<L>)
    requires (forall i :: 0 <= i < |list| ==> ValidInstruction(list[i])) && Layout(list, r)
    requires |r| < |list| && Resolves(list[|r|], e, EndOf(r, |r|))
    ensures Layout(list, r + [e])
  {
    forall i | 0 <= i < |r| + 1 ensures EntryAt(list, r + [e], i) {
      if i < |r| {
        assert EntryAt(list, r, i);
      }
    }
  }

  /** _resolve_instructions: rejected exactly if some entry has no place after the ones before it. */
  method ResolveInstructions<L>(list: seq<Instruction<L>>) returns (r: seq<Entry<L>>, ok: bool)
    requires forall i :: 0 <= i < |list| ==> ValidInstruction(list[i])
    ensures Layout(list, r)
    ensures ok ==> |r| == |list|
    ensures !ok ==> |r| < |list| && forall f :: !Resolves(list[|r|], f, EndOf(r, |r|))
  {
    r := [];
    var address := 0;
    for n := 0 to |list|
      invariant |r| == n && Layout(list, r) && address == EndOf(r, n)
    {
      var e := ResolveOne(list[n], address);
      if e.None? {
        return r, false;
      }
      LayoutGrows(list, r, e.value);
      r := r + [e.value];
      address := e.value.address + e.value.count * e.value.align;
    }
    ok := true;
  }

  /** Slot `k` of an entry. */
  function SlotOf<L>(e: Entry<L>, k: int): int { e.address + k * e.align }

  lemma SlotBelowEnd<L>(e: Entry<L>, k: int)
    requires e.align >= 1 && 0 <= k < e.count
    ensures e.address <= SlotOf(e, k) < End(e)
  {
    Monotone(0, k, e.align);
    Monotone(k + 1, e.count, e.align);
  }

  lemma Monotone(a: int, b: int, align: int)
    requires a <= b && align >= 1
    ensures a * align <= b * align
  {
    assert b * align == a * align + (b - a) * align;
    if b - a >= 1 {
      AtLeast(b - a, align);
    }
  }

  lemma EntryPlace<L>(list: seq<Instruction<L>>, r: seq<Entry<L>>, i: int)
    requires (forall k :: 0 <= k < |list| ==> ValidInstruction(list[k])) && Layout(list, r) && 0 <= i < |r|
    ensures r[i].align >= 1 && r[i].count >= 1 && EndOf(r, i) <= r[i].address
  {
    assert EntryAt(list, r, i);
  }

  lemma {:induction false} EndsIncrease<L>(list: seq<Instruction<L>>, r: seq<Entry<L>>, i: int, j: int)
    requires (forall k :: 0 <= k < |list| ==> ValidInstruction(list[k])) && Layout(list, r) && 0 <= i <= j <= |r|
    ensures EndOf(r, i) <= EndOf(r, j)
    decreases j
  {
    if i < j {
      EndsIncrease(list, r, i, j - 1);
      EntryPlace(list, r, j - 1);
      SlotBelowEnd(r[j - 1], 0);
    }
  }

  /** Slots of different entries are different, and increase with the entries. */
  lemma SlotsIncrease<L>(list: seq<Instruction<L>>, r: seq<Entry<L>>, i: int, k: int, j: int, l: int)
    requires (forall n :: 0 <= n < |list| ==> ValidInstruction(list[n])) && Layout(list, r)
    requires 0 <= i < j < |r| && 0 <= k < r[i].count && 0 <= l < r[j].count
    ensures SlotOf(r[i], k) < SlotOf(r[j], l)
  {
    EntryPlace(list, r, i);
    EntryPlace(list, r, j);
    SlotBelowEnd(r[i], k);
    SlotBelowEnd(r[j], l);
    EndsIncrease(list, r, i + 1, j);
  }

  // --- entries without an address ---------------------------------------------

  /** How many slots the first `n` entries ask for. */
  function SlotsBefore<L>(list: seq<Instruction<L>>, n: int): int
    requires 0 <= n <= |list|
  {
    if n == 0 then 0 else SlotsBefore(list, n - 1) + list[n - 1].count
  }

  /** The first `n` entries leave their address open and are all `align` apart. */
  ghost predicate Uniform<L>(list: seq<Instruction<L>>, align: int, n: int)
    requires 0 <= n <= |list|
  {
    forall i :: 0 <= i < n ==> list[i].align == align && list[i].address.None? && list[i].upTo.None?
  }

  lemma SameMultiple(q: int, n: int, align: int)
    requires align >= 1 && n * align <= q * align < n * align + align
    ensures q == n
  {
    if q > n {
      Monotone(n + 1, q, align);
    } else if q < n {
      Monotone(q + 1, n, align);
    }
  }

  lemma AlignedStart(n: int, align: int, address: int)
    requires align >= 1 && address % align == 0 && n * align <= address < n * align + align
    ensures address == n * align
  {
    var q := address / align;
    assert address == q * align;
    SameMultiple(q, n, align);
  }

  /** Such entries lie side by side from the start of the table. */
  lemma {:induction false} UniformLayout<L>(list: seq<Instruction<L>>, r: seq<Entry<L>>, align: int, n: int)
    requires (forall k :: 0 <= k < |list| ==> ValidInstruction(list[k])) && Layout(list, r) && 0 <= n <= |r|
    requires align >= 1 && Uniform(list, align, n)
    ensures EndOf(r, n) == SlotsBefore(list, n) * align
    ensures n > 0 ==> r[n - 1].address == SlotsBefore(list, n - 1) * align
    decreases n
  {
    if n > 0 {
      UniformLayout(list, r, align, n - 1);
      assert EntryAt(list, r, n - 1);
      AlignedStart(SlotsBefore(list, n - 1), align, r[n - 1].address);
    }
  }

  // --- the fill code ----------------------------------------------------------

  type Table<L> = map<int, L>

  /** The first `n` slots of `e` hold its label, and nothing else has changed. */
  ghost predicate Filled<L>(before: Table<L>, table: Table<L>, e: Entry<L>, n: int) {
    && (forall k :: 0 <= k < n ==> SlotOf(e, k) in table && table[SlotOf(e, k)] == e.handler)
    && (forall s :: s in before ==> s in table)
    && (forall s :: s in table ==>
          (s in before && table[s] == before[s]) || exists k :: 0 <= k < n && s == SlotOf(e, k))
  }

  lemma FillStep<L>(before: Table<L>, table: Table<L>, e: Entry<L>, n: int)
    requires 0 <= n && e.align >= 1 && Filled(before, table, e, n)
    ensures Filled(before, table[SlotOf(e, n) := e.handler], e, n + 1)
  {
  }

  /** The code for one entry: up to four writes in a row, or a loop over the address. */
  method FillEntry<L>(before: Table<L>, e: Entry<L>) returns (table: Table<L>)
    requires e.count >= 1 && e.align >= 1
    ensures Filled(before, table, e, e.count)
  {
    if e.count <= 4 {
      table := FillUnrolled(before, e);
    } else {
      table := FillLooped(before, e);
    }
  }

  method FillUnrolled<L>(before: Table<L>, e: Entry<L>) returns (table: Table<L>)
    requires e.count >= 1 && e.align >= 1
    ensures Filled(before, table, e, e.count)
  {
    table := before;
    var i := e.address;
    for n := 0 to e.count
      invariant i == SlotOf(e, n) && Filled(before, table, e, n)
    {
      FillStep(before, table, e, n);
      NextSlot(e, n);
      table := table[i := e.handler];
      i := i + e.align;
    }
  }

  method FillLooped<L>(before: Table<L>, e: Entry<L>) returns (table: Table<L>)
    requires e.count >= 1 && e.align >= 1
    ensures Filled(before, table, e, e.count)
  {
    table := before;
    var i, end := e.address, e.address + e.count * e.align;
    ghost var n := 0;
    while true
      invariant 0 <= n < e.count && i == SlotOf(e, n) && Filled(before, table, e, n)
      decreases e.count - n
    {
      FillStep(before, table, e, n);
      NextSlot(e, n);
      LoopBound(e, n + 1);
      table := table[i := e.handler];
      i := i + e.align;
      n := n + 1;
      if !(i < end) {
        break;
      }
    }
  }

  lemma NextSlot<L>(e: Entry<L>, n: int)
    ensures SlotOf(e, n + 1) == SlotOf(e, n) + e.align
  {
  }

  /** The first `m` entries are in the table, and nothing else. */
  ghost predicate Holds<L>(r: seq<Entry<L>>, m: int, table: Table<L>)
    requires 0 <= m <= |r|
  {
    && (forall i, k :: 0 <= i < m && 0 <= k < r[i].count ==>
          SlotOf(r[i], k) in table && table[SlotOf(r[i], k)] == r[i].handler)
    && (forall s :: s in table ==> exists i, k :: 0 <= i < m && 0 <= k < r[i].count && s == SlotOf(r[i], k))
  }

  /** The generated initialisation code: every slot of every entry holds that entry's label, and no other slot is
      written. */
  method FillTable<L>(list: seq<Instruction<L>>, r: seq<Entry<L>>) returns (table: Table<L>)
    requires (forall i :: 0 <= i < |list| ==> ValidInstruction(list[i])) && Layout(list, r)
    ensures Holds(r, |r|, table)
  {
    table := map[];
    for m := 0 to |r|
      invariant Holds(r, m, table)
    {
      EntryPlace(list, r, m);
      ghost var before := table;
      table := FillEntry(table, r[m]);
      HoldsStep(list, r, m, before, table);
    }
  }

  lemma HoldsStep<L>(list: seq<Instruction<L>>, r: seq<Entry<L>>, m: int, before: Table<L>, table: Table<L>)
    requires (forall i :: 0 <= i < |list| ==> ValidInstruction(list[i])) && Layout(list, r) && 0 <= m < |r|
    requires Holds(r, m, before) && Filled(before, table, r[m], r[m].count)
    ensures Holds(r, m + 1, table)
  {
    forall i, k | 0 <= i < m + 1 && 0 <= k < r[i].count
      ensures SlotOf(r[i], k) in table && table[SlotOf(r[i], k)] == r[i].handler
    {
      if i < m {
        var s := SlotOf(r[i], k);
        assert s in before && s in table;
        if l :| 0 <= l < r[m].count && s == SlotOf(r[m], l) {
          SlotsIncrease(list, r, i, k, m, l);
        }
      }
    }
    forall s | s in table ensures exists i, k :: 0 <= i < m + 1 && 0 <= k < r[i].count && s == SlotOf(r[i], k) {
      if s in before && table[s] == before[s] {
        var i, k :| 0 <= i < m && 0 <= k < r[i].count && s == SlotOf(r[i], k);
        assert 0 <= i < m + 1 && 0 <= k < r[i].count && s == SlotOf(r[i], k);
      } else {
        var k :| 0 <= k < r[m].count && s == SlotOf(r[m], k);
        assert 0 <= m < m + 1 && 0 <= k < r[m].count && s == SlotOf(r[m], k);
      }
    }
  }

  /** The loop's bound on the address is the bound on the number of slots. */
  lemma LoopBound<L>(e: Entry<L>, n: int)
    requires e.align >= 1 && 0 <= n <= e.count
    ensures SlotOf(e, n) < End(e) <==> n < e.count
  {
    if n < e.count {
      SlotBelowEnd(e, n);
    }
  }
}
